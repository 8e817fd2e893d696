/** common/env_paths.cpp: paths shortened with an environment variable, and expanded again. */
module EnvPaths {
  import opened Wrappers
  import opened EnvExpansion

  // ----- file names, as wxFileName holds them on Unix -----

  datatype FileName = FileName(absolute: bool, dirs: seq<string>, fullName: string)

  predicate IsDir(d: string) {
    d != "" && '/' !in d
  }

  predicate AreDirs(dirs: seq<string>) {
    forall i :: 0 <= i < |dirs| ==> IsDir(dirs[i])
  }

  function Join(dirs: seq<string>): string {
    if dirs == [] then "" else if |dirs| == 1 then dirs[0] else dirs[0] + "/" + Join(dirs[1..])
  }

  /** Every directory followed by a slash. */
  function Slashed(dirs: seq<string>): string {
    if dirs == [] then "" else dirs[0] + "/" + Slashed(dirs[1..])
  }

  function GetPath(f: FileName): string {
    (if f.absolute then "/" else "") + Join(f.dirs)
  }

  function GetFullPath(f: FileName): string {
    (if f.absolute then "/" else "") + Slashed(f.dirs) + f.fullName
  }

  function SlashAt(s: string): (k: nat)
    ensures k <= |s| && '/' !in s[..k] && (k < |s| ==> s[k] == '/')
  {
    if s == "" || s[0] == '/' then 0
    else
      var k := SlashAt(s[1..]);
      assert s[..k + 1] == [s[0]] + s[1..][..k];
      k + 1
  }

  /** The names between slashes; empty ones are dropped. */
  function Tokens(s: string): (dirs: seq<string>)
    ensures AreDirs(dirs)
    decreases |s|
  {
    if s == "" then []
    else if s[0] == '/' then Tokens(s[1..])
    else
      var k := SlashAt(s);
      assert k > 0;
      [s[..k]] + Tokens(s[k..])
  }

  /** wxFileName::SetPath. */
  function SetPath(s: string): (f: FileName)
    ensures AreDirs(f.dirs)
  {
    FileName(s != "" && s[0] == '/', Tokens(s), "")
  }

  lemma {:induction false} SlashAtEnd(d: string, rest: string)
    requires '/' !in d && (rest == "" || rest[0] == '/')
    ensures SlashAt(d + rest) == |d|
  {
    if d == "" {
      assert d + rest == rest;
    } else {
      assert (d + rest)[1..] == d[1..] + rest;
      SlashAtEnd(d[1..], rest);
    }
  }

  lemma TokensFirst(d: string, rest: string)
    requires IsDir(d) && (rest == "" || rest[0] == '/')
    ensures Tokens(d + rest) == [d] + Tokens(rest)
  {
    SlashAtEnd(d, rest);
    assert (d + rest)[..|d|] == d && (d + rest)[|d|..] == rest;
  }

  lemma {:induction false} TokensOfJoin(dirs: seq<string>)
    requires AreDirs(dirs)
    ensures Tokens(Join(dirs)) == dirs
  {
    if |dirs| == 1 {
      assert dirs[0] + "" == dirs[0];
      TokensFirst(dirs[0], "");
    } else if dirs != [] {
      TokensOfJoin(dirs[1..]);
      var rest := "/" + Join(dirs[1..]);
      assert rest[1..] == Join(dirs[1..]);
      assert Join(dirs) == dirs[0] + rest;
      TokensFirst(dirs[0], rest);
    }
  }

  lemma TokensOfPath(f: FileName)
    requires AreDirs(f.dirs)
    ensures Tokens(GetPath(f)) == f.dirs
  {
    TokensOfJoin(f.dirs);
    if f.absolute {
      assert GetPath(f)[1..] == Join(f.dirs);
    } else {
      assert GetPath(f) == Join(f.dirs);
    }
  }

  lemma {:induction false} SlashedIsJoin(dirs: seq<string>)
    requires dirs != []
    ensures Slashed(dirs) == Join(dirs) + "/"
  {
    if |dirs| > 1 {
      SlashedIsJoin(dirs[1..]);
    }
  }

  lemma SlashedFirst(d: string, dirs: seq<string>)
    ensures Slashed([d] + dirs) == d + "/" + Slashed(dirs)
  {}

  lemma {:induction false} SlashedAppend(a: seq<string>, b: seq<string>)
    ensures Slashed(a + b) == Slashed(a) + Slashed(b)
  {
    if a == [] {
      assert a + b == b;
    } else {
      SlashedAppend(a[1..], b);
      SlashedFirst(a[0], a[1..] + b);
      SlashedFirst(a[0], a[1..]);
      hide Slashed;
      assert a == [a[0]] + a[1..] && a + b == [a[0]] + (a[1..] + b);
      Regroup(a[0] + "/", Slashed(a[1..]), Slashed(b));
    }
  }

  lemma SlashedGrows(dirs: seq<string>, d: string)
    ensures Slashed(dirs + [d]) == Slashed(dirs) + (d + "/")
  {
    SlashedAppend(dirs, [d]);
    assert Slashed([d]) == d + "/";
  }

  lemma SlashedNone(s: string)
    ensures s + Slashed([]) == s
  {}

  /** Slashes separate, and nothing else does: what a path is taken apart into. */
  lemma {:induction false} TokensOfTwo(a: string, b: string)
    ensures Tokens(a + "/" + b) == Tokens(a) + Tokens(b)
    decreases |a|
  {
    var s := a + "/" + b;
    if a == "" {
      assert s[1..] == b;
    } else if a[0] == '/' {
      assert s[1..] == a[1..] + "/" + b;
      TokensOfTwo(a[1..], b);
    } else {
      var k := SlashAt(a);
      var d := a[..k];
      assert a == d + a[k..] && s == d + (a[k..] + "/" + b);
      TokensFirst(d, a[k..] + "/" + b);
      TokensOfTwo(a[k..], b);
      assert [d] + (Tokens(a[k..]) + Tokens(b)) == ([d] + Tokens(a[k..])) + Tokens(b);
    }
  }

  lemma OneToken(d: string)
    requires IsDir(d)
    ensures Tokens(d) == [d]
  {
    TokensFirst(d, "");
    assert d + "" == d && Tokens("") == [];
  }

  lemma {:induction false} TokensOfSlashed(dirs: seq<string>, rest: string)
    requires AreDirs(dirs)
    ensures Tokens(Slashed(dirs) + rest) == dirs + Tokens(rest)
    decreases |dirs|
  {
    if dirs == [] {
      assert "" + rest == rest && dirs + Tokens(rest) == Tokens(rest);
    } else {
      var more := Slashed(dirs[1..]) + rest;
      TokensOfSlashed(dirs[1..], rest);
      Regroup(dirs[0] + "/", Slashed(dirs[1..]), rest);
      OneToken(dirs[0]);
      TokensOfTwo(dirs[0], more);
      hide Tokens, Slashed;
      assert dirs == [dirs[0]] + dirs[1..];
    }
  }

  /** A full path is its directories and its name, between slashes. */
  lemma FullPathTokens(f: FileName)
    requires AreDirs(f.dirs) && IsDir(f.fullName)
    ensures Tokens(GetFullPath(f)) == f.dirs + [f.fullName]
    ensures f.absolute ==> GetFullPath(f)[0] == '/'
  {
    TokensOfSlashed(f.dirs, f.fullName);
    OneToken(f.fullName);
    assert Tokens("") == [];
    var path := Slashed(f.dirs) + f.fullName;
    TokensOfTwo("", path);
    hide Tokens, Slashed;
    assert "" + "/" + path == "/" + path;
    Regroup("/", Slashed(f.dirs), f.fullName);
    assert "" + Slashed(f.dirs) == Slashed(f.dirs);
    assert [] + Tokens(path) == Tokens(path);
  }

  // ----- one path inside another -----

  predicate Inside(a: FileName, b: FileName) {
    a.absolute && b.absolute && a.dirs <= b.dirs
  }

  /** normalizeAbsolutePaths: whether the directory a contains b, and the directories in between. */
  method NormalizeAbsolutePaths(a: FileName, b: FileName, result: string) returns (ok: bool, out: string)
    requires AreDirs(a.dirs) && AreDirs(b.dirs)
    ensures ok <==> Inside(a, b)
    ensures out == if ok then result + Slashed(b.dirs[|a.dirs|..]) else result
  {
    out := result;
    if !a.absolute || !b.absolute {
      return false, out;
    }
    if GetPath(a) == GetPath(b) {
      TokensOfPath(a);
      TokensOfPath(b);
      hide Slashed, Tokens, GetPath;
      assert b.dirs[|a.dirs|..] == [];
      SlashedNone(result);
      return true, out;
    }
    if |a.dirs| > |b.dirs| {
      return false, out;
    }
    var i := 0;
    hide Slashed, Tokens, GetPath, AreDirs;
    assert b.dirs[|a.dirs|..|a.dirs|] == [];
    SlashedNone(result);
    while i < |a.dirs|
      invariant i <= |a.dirs| && a.dirs[..i] == b.dirs[..i]
    {
      if a.dirs[i] != b.dirs[i] {
        return false, out;
      }
      i := i + 1;
    }
    while i < |b.dirs|
      invariant |a.dirs| <= i <= |b.dirs|
      invariant out == result + Slashed(b.dirs[|a.dirs|..i])
    {
      SlashedGrows(b.dirs[|a.dirs|..i], b.dirs[i]);
      assert b.dirs[|a.dirs|..i + 1] == b.dirs[|a.dirs|..i] + [b.dirs[i]];
      Regroup(result, Slashed(b.dirs[|a.dirs|..i]), b.dirs[i] + "/");
      out := out + (b.dirs[i] + "/");
      i := i + 1;
    }
    assert b.dirs[|a.dirs|..|b.dirs|] == b.dirs[|a.dirs|..];
    return true, out;
  }

  // ----- choosing the variable -----

  /** One variable of the map; `usable` says that its directory exists and can be read. */
  datatype Entry = Entry(name: string, value: string, usable: bool)

  const PROJECT_VAR_NAME := "KIPRJMOD"

  function Depth(e: Entry): nat {
    |SetPath(e.value).dirs|
  }

  predicate Candidate(e: Entry, f: FileName) {
    e.usable && Inside(SetPath(e.value), f) && Depth(e) > 0
  }

  /** What the shortened path is written with; a variable without a name cannot be. */
  datatype Choice = Whole | Variable(index: nat) | Project | Nameless(index: nat)

  predicate ProjectFits(f: FileName, projectPath: string) {
    projectPath != "" && Inside(SetPath(projectPath), f)
  }

  /** The deepest directory that contains the file, the first of several. */
  ghost predicate IsBest(f: FileName, entries: seq<Entry>, i: nat) {
    && i < |entries| && Candidate(entries[i], f)
    && (forall j :: 0 <= j < |entries| && Candidate(entries[j], f) ==> Depth(entries[j]) <= Depth(entries[i]))
    && (forall j :: 0 <= j < i && Candidate(entries[j], f) ==> Depth(entries[j]) < Depth(entries[i]))
  }

  /** The best variable; the project directory only when no variable fits. */
  ghost predicate IsChoice(f: FileName, entries: seq<Entry>, projectPath: string, c: Choice) {
    match c
    case Variable(i) => IsBest(f, entries, i) && entries[i].name != ""
    case Nameless(i) => IsBest(f, entries, i) && entries[i].name == ""
    case Project =>
      (forall j :: 0 <= j < |entries| ==> !Candidate(entries[j], f)) && ProjectFits(f, projectPath)
    case Whole =>
      (forall j :: 0 <= j < |entries| ==> !Candidate(entries[j], f)) && !ProjectFits(f, projectPath)
  }

  function Shortened(name: string, base: seq<string>, f: FileName): string
    requires base <= f.dirs
  {
    "${" + name + "}/" + Slashed(f.dirs[|base|..]) + f.fullName
  }

  /** What is written for the project directory: behind a nameless variable, what that one left over
      comes first. */
  function ProjectPath(left: string, f: FileName, projectPath: string): string
    requires ProjectFits(f, projectPath)
  {
    "${" + PROJECT_VAR_NAME + "}/" + (left + Slashed(f.dirs[|SetPath(projectPath).dirs|..])) + f.fullName
  }

  ghost predicate IsNormalized(f: FileName, entries: seq<Entry>, projectPath: string, c: Choice, result: string) {
    && IsChoice(f, entries, projectPath, c)
    && result == match c
                 case Variable(i) => Shortened(entries[i].name, SetPath(entries[i].value).dirs, f)
                 case Project => Shortened(PROJECT_VAR_NAME, SetPath(projectPath).dirs, f)
                 case Nameless(i) =>
                   if ProjectFits(f, projectPath) then ProjectPath(Slashed(f.dirs[Depth(entries[i])..]), f, projectPath)
                   else GetFullPath(f)
                 case Whole => GetFullPath(f)
  }

  /** After the first i entries: the best so far, and what the variables of the source hold. */
  ghost predicate BestSoFar(f: FileName, entries: seq<Entry>, i: nat, c: Choice, depth: nat, name: string, rest: string)
    requires i <= |entries|
  {
    && (forall j :: 0 <= j < i && Candidate(entries[j], f) ==> Depth(entries[j]) <= depth)
    && match c
       case Whole => depth == 0 && name == "" && rest == ""
       case Project => false
       case Nameless(_) => false
       case Variable(k) =>
         && k < i && Candidate(entries[k], f) && depth == Depth(entries[k]) && depth <= |f.dirs|
         && name == entries[k].name && rest == Slashed(f.dirs[depth..])
         && forall j :: 0 <= j < k && Candidate(entries[j], f) ==> Depth(entries[j]) < depth
  }

  /** One more entry, taken when it lies deeper than the best so far. */
  lemma NextEntry(f: FileName, entries: seq<Entry>, i: nat, c: Choice, depth: nat, name: string, rest: string)
    requires i < |entries| && BestSoFar(f, entries, i, c, depth, name, rest)
    ensures var e := entries[i];
            if e.usable && Inside(SetPath(e.value), f) && Depth(e) > depth then
              && Depth(e) <= |f.dirs|
              && BestSoFar(f, entries, i + 1, Variable(i), Depth(e), e.name, Slashed(f.dirs[Depth(e)..]))
            else BestSoFar(f, entries, i + 1, c, depth, name, rest)
  {
    hide Tokens, Slashed;
  }

  /** The choice once all entries are seen. */
  function Chosen(f: FileName, projectPath: string, c: Choice, name: string): Choice {
    if c.Variable? && name == "" then Nameless(c.index)
    else if c.Whole? && ProjectFits(f, projectPath) then Project
    else c
  }

  lemma EntriesDone(f: FileName, entries: seq<Entry>, projectPath: string, c: Choice,
                    depth: nat, name: string, rest: string)
    requires BestSoFar(f, entries, |entries|, c, depth, name, rest)
    ensures var chosen := Chosen(f, projectPath, c, name);
            IsNormalized(f, entries, projectPath, chosen,
                         if name != "" then "${" + name + "}/" + rest + f.fullName
                         else if ProjectFits(f, projectPath) then ProjectPath(rest, f, projectPath)
                         else GetFullPath(f))
  {
    hide Tokens;
    if c.Variable? && name == "" {
      assert IsChoice(f, entries, projectPath, Nameless(c.index));
    } else if c.Whole? && ProjectFits(f, projectPath) {
      var more := Slashed(f.dirs[|SetPath(projectPath).dirs|..]);
      assert "" + more == more;
    }
  }

  method NormalizePath(f: FileName, envVars: Option<seq<Entry>>, projectPath: string) returns (result: string)
    requires AreDirs(f.dirs)
    ensures var entries := if envVars.Some? then envVars.value else [];
            exists c :: IsNormalized(f, entries, projectPath, c, result)
  {
    var varName, remainingPath := "", "";
    var pathDepth := 0;
    ghost var c := Whole;
    ghost var entries := if envVars.Some? then envVars.value else [];
    hide Tokens, Slashed, GetFullPath, BestSoFar, IsNormalized, Inside, SetPath, AreDirs;
    NoneYet(f, entries);
    if envVars.Some? {
      for i := 0 to |envVars.value|
        invariant pathDepth >= 0
        invariant BestSoFar(f, entries, i, c, pathDepth, varName, remainingPath)
      {
        var entry := envVars.value[i];
        NextEntry(f, entries, i, c, pathDepth, varName, remainingPath);
        if !entry.usable {
          continue;
        }
        var envPath := SetPath(entry.value);
        var ok, tmp := NormalizeAbsolutePaths(envPath, f, "");
        var newDepth := |envPath.dirs|;
        if ok && newDepth > pathDepth {
          pathDepth := newDepth;
          varName := entry.name;
          remainingPath := tmp;
          c := Variable(i);
          assert "" + Slashed(f.dirs[newDepth..]) == Slashed(f.dirs[newDepth..]);
        }
      }
    }
    EntriesDone(f, entries, projectPath, c, pathDepth, varName, remainingPath);
    c := Chosen(f, projectPath, c, varName);
    ProjectTried(f, projectPath);
    hide Chosen, ProjectFits, ProjectPath;
    ghost var left := remainingPath;
    if varName == "" && projectPath != "" && projectPath[0] == '/' && f.absolute {
      var envPath := SetPath(projectPath);
      var ok;
      ok, remainingPath := NormalizeAbsolutePaths(envPath, f, remainingPath);
      if ok {
        varName := PROJECT_VAR_NAME;
        ProjectPathIs(left, f, projectPath);
      }
    }
    if varName == "" {
      result := GetFullPath(f);
    } else {
      result := "${" + varName + "}/";
      NothingAdded(result);
      if remainingPath != "" {
        result := result + remainingPath;
      }
      result := result + f.fullName;
    }
    assert IsNormalized(f, entries, projectPath, c, result);
  }

  lemma NothingAdded(s: string)
    ensures s + "" == s
  {}

  lemma ProjectPathIs(left: string, f: FileName, projectPath: string)
    requires ProjectFits(f, projectPath)
    ensures ProjectPath(left, f, projectPath) ==
            "${" + PROJECT_VAR_NAME + "}/" + (left + Slashed(f.dirs[|SetPath(projectPath).dirs|..])) + f.fullName
  {}

  lemma ProjectTried(f: FileName, projectPath: string)
    ensures ProjectFits(f, projectPath) <==>
            projectPath != "" && projectPath[0] == '/' && f.absolute && Inside(SetPath(projectPath), f)
  {}

  lemma NoneYet(f: FileName, entries: seq<Entry>)
    ensures BestSoFar(f, entries, 0, Whole, 0, "", "")
  {}

  /** The directory of an entry, if it counts, contains the file and is not the root. */
  predicate Contains(e: Entry, f: FileName) {
    && e.usable && f.absolute && e.value != "" && e.value[0] == '/'
    && SetPath(e.value).dirs != [] && SetPath(e.value).dirs <= f.dirs
  }

  lemma ContainsIff(e: Entry, f: FileName)
    ensures Contains(e, f) <==> Candidate(e, f)
  {}

  /** The variable chosen: named, its directory the deepest that contains the file, the first of several;
      the path is its reference and what the full path has behind that directory. */
  lemma VariableMeans(f: FileName, entries: seq<Entry>, projectPath: string, i: nat, result: string)
    returns (tail: string)
    requires IsNormalized(f, entries, projectPath, Variable(i), result)
    ensures i < |entries| && Contains(entries[i], f) && entries[i].name != ""
    ensures forall j :: 0 <= j < |entries| && Contains(entries[j], f) ==>
              && |SetPath(entries[j].value).dirs| <= |SetPath(entries[i].value).dirs|
              && (j < i ==> |SetPath(entries[j].value).dirs| < |SetPath(entries[i].value).dirs|)
    ensures result == "${" + entries[i].name + "}/" + tail
    ensures GetFullPath(f) == GetPath(SetPath(entries[i].value)) + ("/" + tail)
  {
    VariableChosen(f, entries, projectPath, i, result);
    forall e: Entry
      ensures Contains(e, f) <==> Candidate(e, f)
    {
      ContainsIff(e, f);
    }
    hide Slashed, GetFullPath, GetPath, Contains, Candidate, SetPath, Shortened;
    var base := SetPath(entries[i].value);
    PathBehind(f, base);
    ShortenedTail(entries[i].name, base.dirs, f);
    tail := Slashed(f.dirs[|base.dirs|..]) + f.fullName;
  }

  /** The project variable is taken when no variable's directory contains the file and the project's
      does. */
  lemma ProjectMeans(f: FileName, entries: seq<Entry>, projectPath: string, result: string) returns (tail: string)
    requires IsNormalized(f, entries, projectPath, Project, result)
    ensures forall j :: 0 <= j < |entries| ==> !Contains(entries[j], f)
    ensures projectPath != "" && projectPath[0] == '/' && f.absolute && SetPath(projectPath).dirs <= f.dirs
    ensures result == "${KIPRJMOD}/" + tail
    ensures GetFullPath(f) == "/" + Slashed(SetPath(projectPath).dirs) + tail
  {
    forall e: Entry
      ensures Contains(e, f) <==> Candidate(e, f)
    {
      ContainsIff(e, f);
    }
    var base := SetPath(projectPath);
    assert SetPath(projectPath).absolute;
    hide Slashed, GetFullPath, Contains, Candidate, Tokens, Shortened;
    FullPathSplits(f, base.dirs);
    ShortenedTail("KIPRJMOD", base.dirs, f);
    tail := Slashed(f.dirs[|base.dirs|..]) + f.fullName;
  }

  /** Otherwise the path is left whole. */
  lemma WholeMeans(f: FileName, entries: seq<Entry>, projectPath: string, result: string)
    requires IsNormalized(f, entries, projectPath, Whole, result)
    ensures forall j :: 0 <= j < |entries| ==> !Contains(entries[j], f)
    ensures !(projectPath != "" && projectPath[0] == '/' && f.absolute && SetPath(projectPath).dirs <= f.dirs)
    ensures result == GetFullPath(f)
  {
    forall e: Entry
      ensures Contains(e, f) <==> Candidate(e, f)
    {
      ContainsIff(e, f);
    }
    hide Contains, Candidate, Tokens, GetFullPath;
  }

  lemma ShortenedTail(name: string, base: seq<string>, f: FileName)
    requires base <= f.dirs
    ensures Shortened(name, base, f) == "${" + name + "}/" + (Slashed(f.dirs[|base|..]) + f.fullName)
  {}

  // ----- expanding what was shortened -----

  /** Free of the characters that expansion looks at. */
  predicate Plain(s: string) {
    forall i :: 0 <= i < |s| ==> s[i] !in {'$', '\\', '%', '(', ')', '{', '}'}
  }

  lemma {:induction false} PlainIsCopied(env: Env, s: string, n: nat)
    requires n <= |s| && Plain(s[n..])
    ensures PassFrom(env, s, n) == s[n..]
    decreases |s| - n
  {
    if n < |s| {
      assert s[n..][0] == s[n];
      assert s[n + 1..] == s[n..][1..];
      PlainIsCopied(env, s, n + 1);
      assert [s[n]] + s[n + 1..] == s[n..];
    }
  }

  /** One pass over `${name}` and plain text behind it. */
  lemma PassOfReference(env: Env, name: string, value: string, rest: string)
    requires IsVariableName(env, name) && env.lookup(name) == Value(value) && Plain(rest)
    ensures Pass(env, "${" + name + "}" + rest) == value + rest
  {
    var s := "${" + name + "}" + rest;
    hide PassFrom, IsVariableName, Plain;
    assert s[0..] == s;
    AnyReference(env, s, 0, name, rest);
    PlainIsCopied(env, s, |name| + 3);
  }

  lemma PlainDoesNotTrigger(s: string)
    requires Plain(s)
    ensures !Triggers(s)
  {}

  lemma PlainConcat(a: string, b: string)
    ensures Plain(a + b) <==> Plain(a) && Plain(b)
  {
    var s := a + b;
    assert forall i :: 0 <= i < |a| ==> s[i] == a[i];
    assert forall i :: 0 <= i < |b| ==> s[|a| + i] == b[i];
  }

  /** A reference and plain text behind it, with a plain value: one pass, and no second. */
  lemma ReferenceExpands(env: Env, name: string, value: string, rest: string)
    requires IsVariableName(env, name) && env.lookup(name) == Value(value) && Plain(value) && Plain(rest)
    ensures var s := "${" + name + "}" + rest; StopsAt(env, s, 1) && Iterate(env, s, 1) == value + rest
  {
    var s := "${" + name + "}" + rest;
    PassOfReference(env, name, value, rest);
    PlainConcat(value, rest);
    PlainDoesNotTrigger(value + rest);
    hide Plain, Triggers, Pass, IsVariableName;
    assert Iterate(env, s, 1) == Pass(env, Iterate(env, s, 0));
  }

  lemma FullPathSplits(f: FileName, base: seq<string>)
    requires f.absolute && base <= f.dirs
    ensures GetFullPath(f) == ("/" + Slashed(base)) + (Slashed(f.dirs[|base|..]) + f.fullName)
  {
    assert f.dirs == base + f.dirs[|base|..];
    SlashedAppend(base, f.dirs[|base|..]);
    hide Slashed;
    Regroup("/", Slashed(base), Slashed(f.dirs[|base|..]));
    Regroup("/" + Slashed(base), Slashed(f.dirs[|base|..]), f.fullName);
  }

  /** A shortened path expands in one pass to the value of the variable, a slash and the rest; that is
      the original path exactly when the value spells its directory the canonical way. */
  lemma ShortenedExpands(env: Env, name: string, value: string, base: seq<string>, f: FileName)
    requires f.absolute && base <= f.dirs && Plain(GetFullPath(f)) && Plain(value)
    requires IsVariableName(env, name) && env.lookup(name) == Value(value)
    ensures var s := Shortened(name, base, f);
            && StopsAt(env, s, 1)
            && (Iterate(env, s, 1) == GetFullPath(f) <==> value + "/" == "/" + Slashed(base))
  {
    FullPathSplits(f, base);
    var tail := Slashed(f.dirs[|base|..]) + f.fullName;
    PlainConcat("/" + Slashed(base), tail);
    PlainConcat("/", tail);
    ShortenedSplits(name, base, f);
    hide Plain, Slashed, GetFullPath, IsVariableName, StopsAt, Iterate, Shortened;
    ReferenceExpands(env, name, value, "/" + tail);
    Regroup(value, "/", tail);
    SameTail(value + "/", "/" + Slashed(base), tail);
  }

  lemma ShortenedSplits(name: string, base: seq<string>, f: FileName)
    requires base <= f.dirs
    ensures Shortened(name, base, f) == "${" + name + "}" + ("/" + (Slashed(f.dirs[|base|..]) + f.fullName))
  {}

  lemma SameTail(a: string, b: string, tail: string)
    ensures a + tail == b + tail <==> a == b
  {
    if a + tail == b + tail {
      assert (a + tail)[..|a|] == a && (b + tail)[..|b|] == b;
    }
  }

  /** A directory of depth one or more is spelled canonically: one slash before each name, none at
      the end. */
  lemma CanonicalIff(value: string)
    requires SetPath(value).dirs != []
    ensures value + "/" == "/" + Slashed(SetPath(value).dirs) <==>
            SetPath(value).absolute && value == GetPath(SetPath(value))
  {
    var dirs := SetPath(value).dirs;
    SlashedIsJoin(dirs);
    assert "/" + (Join(dirs) + "/") == ("/" + Join(dirs)) + "/";
    SameTail(value, "/" + Join(dirs), "/");
  }

  /** The variable chosen stands for a directory above the file, and not for the root. */
  lemma VariableChosen(f: FileName, entries: seq<Entry>, projectPath: string, i: nat, result: string)
    requires IsNormalized(f, entries, projectPath, Variable(i), result)
    ensures i < |entries|
    ensures var base := SetPath(entries[i].value);
            && f.absolute && base.absolute && base.dirs <= f.dirs && base.dirs != []
            && result == Shortened(entries[i].name, base.dirs, f)
  {}

  /** Shortening a path and expanding the result gives the path back, when the variable chosen spells
      its directory canonically, and not otherwise. */
  lemma NormalizeThenExpand(env: Env, f: FileName, entries: seq<Entry>, projectPath: string, i: nat, result: string)
    requires AreDirs(f.dirs) && Plain(GetFullPath(f))
    requires IsNormalized(f, entries, projectPath, Variable(i), result)
    requires env.lookup(entries[i].name) == Value(entries[i].value) && IsVariableName(env, entries[i].name)
    ensures StopsAt(env, result, 1)
    ensures Iterate(env, result, 1) == GetFullPath(f) <==> entries[i].value == GetPath(SetPath(entries[i].value))
  {
    var value := entries[i].value;
    FullPathSplits(f, SetPath(value).dirs);
    PlainConcat("/" + Slashed(SetPath(value).dirs), Slashed(f.dirs[|SetPath(value).dirs|..]) + f.fullName);
    PlainConcat("/", Slashed(SetPath(value).dirs));
    PlainTokens(value);
    hide Plain, Slashed, StopsAt, Iterate, GetFullPath, IsVariableName;
    ShortenedExpands(env, entries[i].name, value, SetPath(value).dirs, f);
    CanonicalIff(value);
  }

  /** A path has no other characters than its directories and slashes. */
  lemma {:induction false} PlainTokens(s: string)
    requires Plain(Slashed(Tokens(s)))
    ensures Plain(s)
    decreases |s|
  {
    if s != "" {
      if s[0] == '/' {
        PlainTokens(s[1..]);
        assert forall i :: 1 <= i < |s| ==> s[i] == s[1..][i - 1];
      } else {
        var k := SlashAt(s);
        var rest := Slashed(Tokens(s[k..]));
        assert Tokens(s)[1..] == Tokens(s[k..]);
        PlainConcat(s[..k] + "/", rest);
        PlainConcat(s[..k], "/");
        PlainTokens(s[k..]);
        PlainConcat(s[..k], s[k..]);
        assert s == s[..k] + s[k..];
      }
    }
  }

  /** With the project directory as the fallback, the path comes back exactly when the project variable
      and a slash spell that directory. */
  lemma ProjectThenExpand(env: Env, f: FileName, entries: seq<Entry>, projectPath: string,
                          value: string, result: string)
    requires Plain(GetFullPath(f)) && Plain(value)
    requires IsNormalized(f, entries, projectPath, Project, result)
    requires env.lookup(PROJECT_VAR_NAME) == Value(value) && IsVariableName(env, PROJECT_VAR_NAME)
    ensures StopsAt(env, result, 1)
    ensures Iterate(env, result, 1) == GetFullPath(f) <==> value + "/" == "/" + Slashed(SetPath(projectPath).dirs)
  {
    hide Plain, Slashed, StopsAt, Iterate, GetFullPath, IsVariableName;
    ShortenedExpands(env, PROJECT_VAR_NAME, value, SetPath(projectPath).dirs, f);
  }

  /** A trailing slash is enough to break the round trip, whatever the path: behind the directory of
      the variable, the slash comes out twice. */
  lemma TrailingSlashDoubles(env: Env, f: FileName, entries: seq<Entry>, projectPath: string, i: nat, result: string)
    requires Plain(GetFullPath(f)) && IsNormalized(f, entries, projectPath, Variable(i), result)
    requires env.lookup(entries[i].name) == Value(entries[i].value) && IsVariableName(env, entries[i].name)
    requires entries[i].value == GetPath(SetPath(entries[i].value)) + "/"
    ensures var path, base := GetFullPath(f), GetPath(SetPath(entries[i].value));
            && |base| < |path| && path[..|base|] == base && path[|base|] == '/'
            && Iterate(env, result, 1) == base + "/" + path[|base|..]
  {
    VariableChosen(f, entries, projectPath, i, result);
    hide *;
    var base := SetPath(entries[i].value);
    var dir, tail := GetPath(base), Slashed(f.dirs[|base.dirs|..]) + f.fullName;
    PathBehind(f, base);
    ShortenedSplits(entries[i].name, base.dirs, f);
    PlainConcat(dir, "/" + tail);
    PassOfReference(env, entries[i].name, entries[i].value, "/" + tail);
    IterateNext(env, result, 0);
    Regroup(dir, "/", "/" + tail);
    assert (dir + ("/" + tail))[|dir|..] == "/" + tail;
  }

  lemma PathBehind(f: FileName, base: FileName)
    requires f.absolute && base.absolute && base.dirs <= f.dirs && base.dirs != []
    ensures GetFullPath(f) == GetPath(base) + ("/" + (Slashed(f.dirs[|base.dirs|..]) + f.fullName))
  {
    FullPathSplits(f, base.dirs);
    SlashedIsJoin(base.dirs);
    hide Slashed, Join, GetFullPath;
    Regroup("/", Join(base.dirs), "/");
    Regroup(GetPath(base), "/", Slashed(f.dirs[|base.dirs|..]) + f.fullName);
  }
}
