/** common/common.cpp: KIwxExpandEnvVars, on systems other than Windows. */
module EnvExpansion {
  import opened Wrappers

  /** What the project, the environment and the table of model directories say about a name. */
  datatype Lookup =
    | Value(text: string)   // resolved
    | Missing               // unknown: the reference is kept
    | NoModelDir            // named like a model directory, but no directory is defined: it vanishes

  datatype Env = Env(alnum: char -> bool, lookup: string -> Lookup) {
    predicate IsNameChar(c: char) {
      alnum(c) || c == '_' || c == ':'
    }
  }

  // ----- one pass over the string -----

  function NameEnd(env: Env, s: string, m: nat): (e: nat)
    requires m <= |s|
    ensures m <= e <= |s|
    ensures forall i :: m <= i < e ==> env.IsNameChar(s[i])
    ensures e < |s| ==> !env.IsNameChar(s[e])
    decreases |s| - m
  {
    if m < |s| && env.IsNameChar(s[m]) then NameEnd(env, s, m + 1) else m
  }

  function Closing(open: char): char {
    if open == '(' then ')' else '}'
  }

  /** A reference starting with `$` at n: the position of its bracket, or n itself. */
  function OpenAt(s: string, n: nat): (o: nat)
    requires n < |s|
    ensures n <= o < |s|
  {
    if n + 1 < |s| && s[n + 1] in {'(', '{'} then n + 1 else n
  }

  /** What a reference whose name is s[open + 1..m] turns into, without the closing bracket. */
  function Replacement(env: Env, s: string, n: nat, open: nat, m: nat): string
    requires n <= open < m <= |s|
  {
    match env.lookup(s[open + 1..m])
    case Value(text) => text
    case NoModelDir => ""
    case Missing => (if open > n then [s[open - 1]] else "") + [s[open]] + s[open + 1..m]
  }

  predicate Closed(s: string, n: nat, open: nat, m: nat)
    requires n <= open < m <= |s|
  {
    open > n && m < |s| && s[m] == Closing(s[open])
  }

  /** What one reference contributes, closing bracket included, and where reading goes on. */
  function Reference(env: Env, s: string, n: nat, open: nat, m: nat): (r: (string, nat))
    requires n <= open < m <= |s|
    ensures m <= r.1 <= |s|
  {
    if Closed(s, n, open, m) then
      (Replacement(env, s, n, open, m) + (if env.lookup(s[open + 1..m]).Value? then "" else [s[m]]), m + 1)
    else (Replacement(env, s, n, open, m), m)
  }

  /** The output for s[n..]. */
  function PassFrom(env: Env, s: string, n: nat): string
    requires n <= |s|
    decreases |s| - n
  {
    if n == |s| then ""
    else if s[n] == '$' then
      var open := OpenAt(s, n);
      if open + 1 >= |s| then ""
      else
        var (text, next) := Reference(env, s, n, open, NameEnd(env, s, open + 1));
        text + PassFrom(env, s, next)
    else if s[n] == '\\' && n < |s| - 1 && s[n + 1] in {'%', '$'} then
      [s[n + 1]] + PassFrom(env, s, n + 2)
    else [s[n]] + PassFrom(env, s, n + 1)
  }

  function Pass(env: Env, s: string): string {
    PassFrom(env, s, 0)
  }

  lemma PassReference(env: Env, s: string, n: nat, open: nat, m: nat)
    requires n < |s| && s[n] == '$' && open == OpenAt(s, n) && open + 1 < |s| && m == NameEnd(env, s, open + 1)
    ensures open < m
    ensures var (text, next) := Reference(env, s, n, open, m);
            n < next <= |s| && PassFrom(env, s, n) == text + PassFrom(env, s, next)
  {
    hide Reference;
  }

  lemma Regroup(a: string, b: string, c: string)
    ensures a + (b + c) == a + b + c
  {}

  method OnePass(env: Env, s: string) returns (strResult: string)
    ensures strResult == Pass(env, s)
  {
    strResult := "";
    var n: nat := 0;
    hide Replacement, Reference;
    while n < |s|
      invariant n <= |s|
      invariant strResult + PassFrom(env, s, n) == Pass(env, s)
    {
      ghost var before := strResult;
      var c := s[n];
      if c == '$' {
        strResult, n := OneReference(env, s, n, strResult);
      } else if c == '\\' && n < |s| - 1 && (s[n + 1] == '%' || s[n + 1] == '$') {
        n := n + 1;
        strResult := strResult + [s[n]];
        n := n + 1;
        Regroup(before, [s[n - 1]], PassFrom(env, s, n));
      } else {
        strResult := strResult + [c];
        n := n + 1;
        Regroup(before, [c], PassFrom(env, s, n));
      }
    }
  }

  /** The case of the loop for a `$`: the new output and the position to go on from. */
  method OneReference(env: Env, s: string, start: nat, output: string) returns (strResult: string, next: nat)
    requires start < |s| && s[start] == '$'
    ensures start < next <= |s|
    ensures strResult + PassFrom(env, s, next) == output + PassFrom(env, s, start)
  {
    strResult := output;
    var n := start;
    if n < |s| - 1 && (s[n + 1] == '(' || s[n + 1] == '{') {
      n := n + 1;  // skip the bracket
    }
    var m := n + 1;
    if m >= |s| {
      return strResult, n + 1;
    }
    while m < |s| && env.IsNameChar(s[m])
      invariant n < m <= |s|
      invariant NameEnd(env, s, m) == NameEnd(env, s, n + 1)
    {
      m := m + 1;
    }
    PassReference(env, s, start, n, m);
    hide PassFrom, NameEnd, OpenAt, Reference;
    strResult, next := EmitReference(env, s, start, n, m, output);
    Regroup(output, Reference(env, s, start, n, m).0, PassFrom(env, s, next));
  }

  /** The output of the reference whose name is s[open + 1..m], closing bracket included. */
  method EmitReference(env: Env, s: string, start: nat, open: nat, m: nat, output: string)
    returns (strResult: string, next: nat)
    requires start <= open < m <= |s|
    ensures strResult == output + Reference(env, s, start, open, m).0 && next == Reference(env, s, start, open, m).1
  {
    hide Replacement;
    var expanded;
    strResult, expanded := EmitReplacement(env, s, start, open, m, output);
    next := m;
    EmitClosing(env, s, start, open, m, output);
    hide Reference;
    // check the closing bracket
    if open > start {
      var bracket := Closing(s[open]);
      if m < |s| && s[m] == bracket {
        if !expanded {
          strResult := strResult + [bracket];
        }
        next := m + 1;
      }
    }
  }

  /** The value of the variable, or the reference as it stood. */
  method EmitReplacement(env: Env, s: string, start: nat, open: nat, m: nat, output: string)
    returns (strResult: string, expanded: bool)
    requires start <= open < m <= |s|
    ensures strResult == output + Replacement(env, s, start, open, m)
    ensures expanded <==> env.lookup(s[open + 1..m]).Value?
  {
    strResult, expanded := output, false;
    var name := s[open + 1..m];
    if env.lookup(name).Missing? { EmitMissing(env, s, start, open, m, output); }
    match env.lookup(name) {
      case Value(text) =>
        strResult := strResult + text;
        expanded := true;
      case NoModelDir =>
        assert output + "" == output;
      case Missing =>
        if open > start {
          strResult := strResult + [s[open - 1]];
        }
        strResult := strResult + [s[open]] + name;
    }
  }

  lemma EmitMissing(env: Env, s: string, start: nat, open: nat, m: nat, output: string)
    requires start <= open < m <= |s| && env.lookup(s[open + 1..m]).Missing?
    ensures open > start ==>
              output + [s[open - 1]] + [s[open]] + s[open + 1..m] == output + Replacement(env, s, start, open, m)
    ensures open == start ==> output + [s[open]] + s[open + 1..m] == output + Replacement(env, s, start, open, m)
  {}

  lemma EmitClosing(env: Env, s: string, start: nat, open: nat, m: nat, output: string)
    requires start <= open < m <= |s|
    ensures var (text, next) := Reference(env, s, start, open, m);
            var added := output + Replacement(env, s, start, open, m);
            && (next == if Closed(s, start, open, m) then m + 1 else m)
            && output + text ==
               if Closed(s, start, open, m) && !env.lookup(s[open + 1..m]).Value? then added + [s[m]] else added
  {}

  // ----- what a pass makes of each form, spelled out -----

  /** Letters, digits, underscores and colons. */
  predicate NameText(env: Env, name: string) {
    forall i :: 0 <= i < |name| ==> env.alnum(name[i]) || name[i] == '_' || name[i] == ':'
  }

  lemma Slices(s: string, k: nat, head: string, name: string, rest: string)
    requires k <= |s| && s[k..] == head + name + rest
    ensures var a, b := k + |head|, k + |head| + |name|;
            && b <= |s| && s[a..b] == name && s[b..] == rest
            && (forall i :: 0 <= i < |head| ==> s[k + i] == head[i])
            && (rest != "" ==> b < |s| && s[b] == rest[0])
  {
    var t := s[k..];
    assert |t| == |head| + |name| + |rest|;
    assert forall i :: 0 <= i < |t| ==> s[k + i] == t[i];
    assert s[k + |head|..k + |head| + |name|] == t[|head|..|head| + |name|] == name;
    assert s[k + |head| + |name|..] == t[|head| + |name|..] == rest;
  }

  lemma {:induction false} NameEndOf(env: Env, s: string, m: nat, e: nat)
    requires m <= e <= |s| && (forall i :: m <= i < e ==> env.IsNameChar(s[i]))
    requires e < |s| ==> !env.IsNameChar(s[e])
    ensures NameEnd(env, s, m) == e
    decreases e - m
  {}

  lemma NameEndsAt(env: Env, s: string, a: nat, b: nat)
    requires a <= b <= |s| && NameText(env, s[a..b]) && (b < |s| ==> !NameText(env, [s[b]]))
    ensures NameEnd(env, s, a) == b
  {
    forall i | a <= i < b
      ensures env.IsNameChar(s[i])
    {
      assert s[i] == s[a..b][i - a];
    }
    if b < |s| { assert [s[b]][0] == s[b]; }
    NameEndOf(env, s, a, b);
  }

  /** A reference read at k: `$` and maybe a bracket, then a name. */
  lemma FormRead(env: Env, s: string, k: nat, head: string, name: string, rest: string)
    requires k <= |s| && s[k..] == head + name + rest && name + rest != ""
    requires NameText(env, name) && (rest != "" ==> !NameText(env, [rest[0]]))
    requires head == "$" || head == "${" || head == "$("
    requires head == "$" ==> (name + rest)[0] != '{' && (name + rest)[0] != '('
    ensures var open := k + |head| - 1; var m := open + 1 + |name|;
            && k <= open < m <= |s| && s[open + 1..m] == name && s[m..] == rest
            && (forall i :: 0 <= i < |head| ==> s[k + i] == head[i]) && (rest != "" ==> m < |s| && s[m] == rest[0])
            && var (text, next) := Reference(env, s, k, open, m); PassFrom(env, s, k) == text + PassFrom(env, s, next)
  {
    hide *;
    Slices(s, k, head, name, rest);
    var open := k + |head| - 1;
    var m := open + 1 + |name|;
    HeadRead(s, k, head, name + rest);
    NameEndsAt(env, s, open + 1, m);
    PassReference(env, s, k, open, m);
  }

  lemma HeadRead(s: string, k: nat, head: string, more: string)
    requires k <= |s| && s[k..] == head + more && more != ""
    requires head == "$" || head == "${" || head == "$("
    requires head == "$" ==> more[0] != '{' && more[0] != '('
    ensures k < |s| && s[k] == '$' && OpenAt(s, k) == k + |head| - 1 && k + |head| < |s|
  {
    var t := s[k..];
    assert |t| == |head| + |more|;
    assert s[k] == t[0] && s[k + 1] == t[1];
    assert head == "$" ==> t[1] == more[0];
  }

  /** `${name}` and `$(name)`: the value, or the whole reference again; a name like that of a model
      directory that is not there leaves the closing bracket. */
  lemma ClosedReference(env: Env, s: string, k: nat, open: char, close: char, name: string, rest: string)
    requires (open == '{' && close == '}') || (open == '(' && close == ')')
    requires k <= |s| && s[k..] == "$" + [open] + name + ([close] + rest) && NameText(env, name) && !env.alnum(close)
    ensures k + |name| + 3 <= |s| && s[k + |name| + 3..] == rest
    ensures var after := PassFrom(env, s, k + |name| + 3);
            PassFrom(env, s, k) == match env.lookup(name)
                                   case Value(text) => text + after
                                   case Missing => "$" + [open] + name + [close] + after
                                   case NoModelDir => [close] + after
  {
    hide *;
    ClosingEnds(env, close);
    FormRead(env, s, k, "$" + [open], name, [close] + rest);
    FirstDropped(s, k + 2 + |name|, close, rest);
    assert s[k + 0] == '$' && s[k + 1] == open;
    Spelled(env, s, k, k + 1, k + 2 + |name|);
  }

  lemma ClosingEnds(env: Env, close: char)
    requires !env.alnum(close) && (close == '}' || close == ')')
    ensures !NameText(env, [close])
  {
    assert [close][0] == close;
  }

  lemma FirstDropped(s: string, m: nat, c: char, rest: string)
    requires m <= |s| && s[m..] == [c] + rest
    ensures m < |s| && s[m] == c && s[m + 1..] == rest
  {
    assert s[m] == s[m..][0];
    assert s[m + 1..] == s[m..][1..];
  }

  /** What a reference contributes, and where reading goes on. */
  lemma Spelled(env: Env, s: string, n: nat, open: nat, m: nat)
    requires n <= open <= n + 1 && open < m <= |s|
    ensures var name := s[open + 1..m]; var (text, next) := Reference(env, s, n, open, m);
            var closed := open == n + 1 && m < |s| && s[m] == (if s[open] == '(' then ')' else '}');
            && next == (if closed then m + 1 else m)
            && (env.lookup(name).Value? ==> text == env.lookup(name).text)
            && (env.lookup(name).NoModelDir? ==> text == if closed then [s[m]] else "")
            && (env.lookup(name).Missing? && open == n ==> text == [s[n]] + name)
            && (env.lookup(name).Missing? && open == n + 1 ==>
                  text == if closed then [s[n]] + [s[open]] + name + [s[m]] else [s[n]] + [s[open]] + name)
  {
    var r := Replacement(env, s, n, open, m);
    assert r + "" == r && "" + [s[open]] == [s[open]] ;
  }

  /** A bracket that is not closed behind the name: the value, or what was read, and on with the rest. */
  lemma OpenReference(env: Env, s: string, k: nat, open: char, close: char, name: string, rest: string)
    requires (open == '{' && close == '}') || (open == '(' && close == ')')
    requires k <= |s| && s[k..] == "$" + [open] + name + rest && name + rest != ""
    requires NameText(env, name) && (rest != "" ==> rest[0] != close && !NameText(env, [rest[0]]))
    ensures k + |name| + 2 <= |s| && s[k + |name| + 2..] == rest
    ensures var after := PassFrom(env, s, k + |name| + 2);
            PassFrom(env, s, k) == match env.lookup(name)
                                   case Value(text) => text + after
                                   case Missing => "$" + [open] + name + after
                                   case NoModelDir => after
  {
    hide *;
    FormRead(env, s, k, "$" + [open], name, rest);
    var m := k + 2 + |name|;
    assert s[k + 0] == '$' && s[k + 1] == open;
    Spelled(env, s, k, k + 1, m);
    NothingBefore(PassFrom(env, s, m));
  }

  /** `$name`: the value, or what was read. */
  lemma BareReference(env: Env, s: string, k: nat, name: string, rest: string)
    requires k <= |s| && s[k..] == "$" + name + rest && name + rest != ""
    requires (name + rest)[0] != '{' && (name + rest)[0] != '('
    requires NameText(env, name) && (rest != "" ==> !NameText(env, [rest[0]]))
    ensures k + |name| + 1 <= |s| && s[k + |name| + 1..] == rest
    ensures var after := PassFrom(env, s, k + |name| + 1);
            PassFrom(env, s, k) == match env.lookup(name)
                                   case Value(text) => text + after
                                   case Missing => "$" + name + after
                                   case NoModelDir => after
  {
    hide *;
    FormRead(env, s, k, "$", name, rest);
    assert s[k + 0] == '$';
    Spelled(env, s, k, k, k + 1 + |name|);
    NothingBefore(PassFrom(env, s, k + 1 + |name|));
  }

  lemma NothingBefore(t: string)
    ensures "" + t == t
  {}

  /** Everything else: a `$` or an opening bracket behind it at the end of the string is dropped, a
      backslash before `$` or `%` is dropped and makes that a plain character, and other characters are
      copied. */
  lemma OtherCharacters(env: Env, s: string, k: nat, c: char, rest: string)
    requires k <= |s| && s[k..] == [c] + rest
    ensures k < |s| && s[k + 1..] == rest
    ensures c == '$' && (rest == "" || rest == "{" || rest == "(") ==> PassFrom(env, s, k) == ""
    ensures c == '\\' && rest != "" && (rest[0] == '$' || rest[0] == '%') ==>
              k + 2 <= |s| && PassFrom(env, s, k) == [rest[0]] + PassFrom(env, s, k + 2)
    ensures c != '$' && !(c == '\\' && rest != "" && (rest[0] == '$' || rest[0] == '%')) ==>
              PassFrom(env, s, k) == [c] + PassFrom(env, s, k + 1)
    ensures PassFrom(env, s, |s|) == ""
  {
    assert s[k] == s[k..][0];
    assert s[k + 1..] == s[k..][1..] == rest;
    if rest != "" { assert s[k + 1] == s[k + 1..][0]; }
  }

  // ----- when another pass follows -----

  function FirstOf(s: string, cs: set<char>): (p: int)
    ensures -1 <= p < |s|
    ensures p >= 0 ==> s[p] in cs
    ensures forall i :: 0 <= i < (if p >= 0 then p else |s|) ==> s[i] !in cs
  {
    if s == "" then -1
    else if s[0] in cs then 0
    else
      var p := FirstOf(s[1..], cs);
      if p < 0 then -1 else p + 1
  }

  function LastOf(s: string, cs: set<char>): (p: int)
    ensures -1 <= p < |s|
    ensures p >= 0 ==> s[p] in cs
    ensures forall i :: p < i < |s| ==> s[i] !in cs
  {
    if s == "" then -1
    else if s[|s| - 1] in cs then |s| - 1
    else LastOf(s[..|s| - 1], cs)
  }

  const OPENERS: set<char> := {'{', '(', '%'}
  const CLOSERS: set<char> := {'}', ')', '%'}

  predicate Triggers(s: string) {
    FirstOf(s, OPENERS) >= 0 && LastOf(s, CLOSERS) >= 0 && FirstOf(s, OPENERS) != LastOf(s, CLOSERS)
  }

  predicate IsOpener(c: char) {
    c == '{' || c == '(' || c == '%'
  }

  predicate IsCloser(c: char) {
    c == '}' || c == ')' || c == '%'
  }

  /** Another pass follows when there are an opening and a closing bracket, or per cent signs for them,
      except where the first of the one kind and the last of the other are the same per cent sign. */
  lemma TriggersIff(s: string)
    ensures Triggers(s) <==>
            && (exists i :: 0 <= i < |s| && IsOpener(s[i])) && (exists j :: 0 <= j < |s| && IsCloser(s[j]))
            && !exists k :: 0 <= k < |s| && s[k] == '%' &&
                            (forall i :: 0 <= i < k ==> !IsOpener(s[i])) &&
                            (forall j :: k < j < |s| ==> !IsCloser(s[j]))
  {
    var p, q := FirstOf(s, OPENERS), LastOf(s, CLOSERS);
    assert forall i :: 0 <= i < |s| ==> (s[i] in OPENERS <==> IsOpener(s[i])) && (s[i] in CLOSERS <==> IsCloser(s[i]));
    if p >= 0 && p == q { assert s[p] == '%'; }
  }

  /** The string after k passes. */
  function Iterate(env: Env, s: string, k: nat): string {
    if k == 0 then s else Pass(env, Iterate(env, s, k - 1))
  }

  lemma {:induction false} IterateShift(env: Env, s: string, k: nat)
    ensures Iterate(env, s, k + 1) == Iterate(env, Pass(env, s), k)
  {
    if k > 0 { IterateShift(env, s, k - 1); }
  }

  /** The recursion goes past the string after k passes: more brackets, and not seen before. */
  ghost predicate GoesOn(env: Env, s: string, k: nat) {
    Triggers(Iterate(env, s, k)) && forall i :: 1 <= i < k ==> Iterate(env, s, i) != Iterate(env, s, k)
  }

  ghost predicate StopsAt(env: Env, s: string, k: nat) {
    k >= 1 && !GoesOn(env, s, k) && Going(env, s, k)
  }

  ghost predicate Terminates(env: Env, s: string) {
    exists k :: StopsAt(env, s, k)
  }

  /** A set that a run cannot leave while it goes on. */
  ghost predicate Confines(env: Env, s: string, universe: set<string>) {
    && (Triggers(Pass(env, s)) ==> Pass(env, s) in universe)
    && forall t :: t in universe && Triggers(Pass(env, t)) ==> Pass(env, t) in universe
  }

  /** The strings a run has visited after k passes. */
  function Visited(env: Env, s: string, k: nat): set<string> {
    if k <= 1 then {} else Visited(env, s, k - 1) + {Iterate(env, s, k - 1)}
  }

  lemma {:induction false} VisitedIndex(env: Env, s: string, k: nat, t: string) returns (i: nat)
    requires t in Visited(env, s, k)
    ensures 1 <= i < k && Iterate(env, s, i) == t
  {
    hide Iterate;
    if t == Iterate(env, s, k - 1) {
      i := k - 1;
    } else {
      i := VisitedIndex(env, s, k - 1, t);
    }
  }

  lemma {:induction false} VisitedHas(env: Env, s: string, k: nat, i: nat)
    requires 1 <= i < k
    ensures Iterate(env, s, i) in Visited(env, s, k)
  {
    if i < k - 1 { VisitedHas(env, s, k - 1, i); }
  }

  /** Going on means: more brackets, and not visited. */
  lemma GoesOnIff(env: Env, s: string, k: nat)
    ensures GoesOn(env, s, k) <==> Triggers(Iterate(env, s, k)) && Iterate(env, s, k) !in Visited(env, s, k)
  {
    hide Iterate, Triggers, Visited;
    if Iterate(env, s, k) in Visited(env, s, k) {
      var i := VisitedIndex(env, s, k, Iterate(env, s, k));
    }
    forall i | 1 <= i < k
      ensures Iterate(env, s, i) in Visited(env, s, k)
    {
      VisitedHas(env, s, k, i);
    }
  }

  ghost predicate Going(env: Env, s: string, k: nat) {
    forall i :: 1 <= i < k ==> GoesOn(env, s, i)
  }

  lemma IterateNext(env: Env, s: string, k: nat)
    ensures Iterate(env, s, k + 1) == Pass(env, Iterate(env, s, k)) && Iterate(env, s, 0) == s
  {}

  lemma VisitedNext(env: Env, s: string, k: nat)
    ensures Visited(env, s, 1) == {}
    ensures k >= 1 ==> Visited(env, s, k + 1) == Visited(env, s, k) + {Iterate(env, s, k)}
  {}

  lemma GoingNext(env: Env, s: string, k: nat)
    requires Going(env, s, k + 1)
    ensures Going(env, s, k) && (k >= 1 ==> GoesOn(env, s, k))
  {}

  lemma ConfinedNext(env: Env, s: string, universe: set<string>, k: nat)
    requires Confines(env, s, universe) && (k >= 1 ==> Iterate(env, s, k) in universe)
    ensures Triggers(Iterate(env, s, k + 1)) ==> Iterate(env, s, k + 1) in universe
  {}

  lemma {:induction false} VisitedCounts(env: Env, s: string, universe: set<string>, k: nat)
    requires Confines(env, s, universe) && Going(env, s, k) && k >= 1
    ensures Visited(env, s, k) <= universe && |Visited(env, s, k)| == k - 1 <= |universe|
    ensures Triggers(Iterate(env, s, k)) ==> Iterate(env, s, k) in universe
  {
    hide Iterate, Pass, Triggers, Visited, GoesOn, Going, Confines;
    VisitedNext(env, s, k - 1);
    if k > 1 {
      GoingNext(env, s, k - 1);
      VisitedCounts(env, s, universe, k - 1);
      GoesOnIff(env, s, k - 1);
    }
    ConfinedNext(env, s, universe, k - 1);
    SubsetCard(Visited(env, s, k), universe);
  }

  lemma SubsetCard(a: set<string>, b: set<string>)
    requires a <= b
    ensures |a| <= |b|
  {
    assert a + (b - a) == b;
  }

  /** The function, on the string after k passes: `visited` is the set it was handed, if any. */
  method Expand(env: Env, str: string, visited: Option<set<string>>,
                ghost top: string, ghost universe: set<string>, ghost k: nat)
    returns (result: string)
    requires Confines(env, top, universe)
    requires str == Iterate(env, top, k)
    requires visited == if k == 0 then None else Some(Visited(env, top, k))
    requires k > 0 ==> Triggers(str)
    requires Going(env, top, k)
    ensures exists passes :: StopsAt(env, top, passes) && result == Iterate(env, top, passes)
    decreases |universe| + 1 - k
  {
    hide Triggers, Pass, Confines;
    if k > 0 {
      VisitedCounts(env, top, universe, k);
      GoesOnIff(env, top, k);
    }
    if visited.Some? && str in visited.value {
      assert StopsAt(env, top, k);
      return str;
    }
    result := OnePass(env, str);
    NextStep(env, top, k);
    VisitedCounts(env, top, universe, k + 1);
    if Triggers(result) {
      var loopCheck := if visited.Some? then visited.value + {str} else {};
      result := Expand(env, result, Some(loopCheck), top, universe, k + 1);
    } else {
      GoesOnIff(env, top, k + 1);
      assert StopsAt(env, top, k + 1);
    }
  }

  lemma NextStep(env: Env, s: string, k: nat)
    requires Going(env, s, k) && (k > 0 ==> GoesOn(env, s, k))
    ensures Going(env, s, k + 1)
    ensures Iterate(env, s, k + 1) == Pass(env, Iterate(env, s, k))
    ensures Visited(env, s, k + 1) == if k == 0 then {} else Visited(env, s, k) + {Iterate(env, s, k)}
  {}

  // ----- exactly when it terminates -----

  lemma StopUnique(env: Env, s: string, j: nat, k: nat)
    requires StopsAt(env, s, j) && StopsAt(env, s, k)
    ensures j == k
  {}

  lemma {:induction false} FindStop(env: Env, s: string, universe: set<string>, k: nat) returns (stop: nat)
    requires Confines(env, s, universe) && k >= 1 && Going(env, s, k)
    ensures StopsAt(env, s, stop) && stop <= |universe| + 1
    decreases |universe| + 1 - k
  {
    hide GoesOn, Confines;
    VisitedCounts(env, s, universe, k);
    if GoesOn(env, s, k) {
      NextStep(env, s, k);
      VisitedCounts(env, s, universe, k + 1);
      stop := FindStop(env, s, universe, k + 1);
    } else {
      stop := k;
    }
  }

  /** The strings visited by a run that stops confine it. */
  lemma VisitedConfines(env: Env, s: string, k: nat)
    requires StopsAt(env, s, k)
    ensures Confines(env, s, Visited(env, s, k))
  {
    var universe := Visited(env, s, k);
    GoesOnIff(env, s, k);
    hide Triggers, Pass, GoesOn, Visited;
    forall i: nat | i < k && Triggers(Pass(env, Iterate(env, s, i)))
      ensures Pass(env, Iterate(env, s, i)) in universe
    {
      assert Iterate(env, s, i + 1) == Pass(env, Iterate(env, s, i));
      if i + 1 < k { VisitedHas(env, s, k, i + 1); }
    }
    assert Iterate(env, s, 0) == s;
    forall t | t in universe && Triggers(Pass(env, t))
      ensures Pass(env, t) in universe
    {
      var i := VisitedIndex(env, s, k, t);
    }
  }

  /** The recursion ends exactly when some finite set of strings confines it. */
  lemma TerminatesIffConfined(env: Env, s: string)
    ensures Terminates(env, s) <==> exists universe: set<string> :: Confines(env, s, universe)
  {
    hide Confines, StopsAt, GoesOn;
    if Terminates(env, s) {
      var k: nat :| StopsAt(env, s, k);
      VisitedConfines(env, s, k);
    }
    if universe: set<string> :| Confines(env, s, universe) {
      var stop := FindStop(env, s, universe, 1);
    }
  }

  /** A set that confines a run bounds its depth: one pass more than the set has strings. */
  lemma DepthBound(env: Env, s: string, k: nat, universe: set<string>)
    requires StopsAt(env, s, k) && Confines(env, s, universe)
    ensures k <= |universe| + 1
  {
    var stop := FindStop(env, s, universe, 1);
    StopUnique(env, s, stop, k);
  }

  /** A call from outside, whenever the recursion ends at all: the string after the pass at which it
      stops, with no more brackets to look into or seen before. */
  method ExpandEnvVarSubstitutions(env: Env, str: string) returns (result: string)
    requires Terminates(env, str)
    ensures exists passes :: StopsAt(env, str, passes) && result == Iterate(env, str, passes)
  {
    TerminatesIffConfined(env, str);
    ghost var universe: set<string> :| Confines(env, str, universe);
    hide Confines, GoesOn;
    result := Expand(env, str, None, str, universe, 0);
  }

  // ----- environments in which every expansion ends -----

  /** No variable brings in a new reference. */
  ghost predicate NoDollars(env: Env) {
    forall name :: env.lookup(name).Value? ==> '$' !in env.lookup(name).text
  }

  /** Nor a new escape. */
  ghost predicate NoBackslashes(env: Env) {
    forall name :: env.lookup(name).Value? ==> '\\' !in env.lookup(name).text
  }

  function Count(s: string, c: char): nat {
    if s == "" then 0 else (if s[0] == c then 1 else 0) + Count(s[1..], c)
  }

  lemma {:induction false} CountMeans(s: string, c: char)
    ensures Count(s, c) == multiset(s)[c]
  {
    if s != "" {
      CountMeans(s[1..], c);
      assert s == [s[0]] + s[1..];
    }
  }

  lemma {:induction false} CountAppend(a: string, b: string, c: char)
    ensures Count(a + b, c) == Count(a, c) + Count(b, c)
  {
    if a == "" {
      assert a + b == b;
    } else {
      assert (a + b)[1..] == a[1..] + b;
      CountAppend(a[1..], b, c);
    }
  }

  lemma {:induction false} CountZero(s: string, c: char)
    ensures Count(s, c) == 0 <==> c !in s
  {
    if s != "" {
      CountZero(s[1..], c);
      assert s == [s[0]] + s[1..];
    }
  }

  /** Fewer references, or as many and fewer escapes. */
  predicate Below(after: string, before: string) {
    Lower(Count(after, '$'), Count(after, '\\'), Count(before, '$'), Count(before, '\\'))
  }
  predicate Lower(d: nat, b: nat, d0: nat, b0: nat) {
    d < d0 || (d == d0 && b < b0)
  }

  predicate Calmer(after: string, before: string) {
    Below(after, before) || after == before
  }

  lemma BelowAppend(a: string, a0: string, b: string, b0: string)
    requires Calmer(a, a0) && Calmer(b, b0) && (Below(a, a0) || Below(b, b0))
    ensures Below(a + b, a0 + b0)
  {
    hide Count;
    CountAppend(a, b, '$');
    CountAppend(a0, b0, '$');
    CountAppend(a, b, '\\');
    CountAppend(a0, b0, '\\');
  }

  lemma CalmerAppend(a: string, a0: string, b: string, b0: string)
    requires Calmer(a, a0) && Calmer(b, b0)
    ensures Calmer(a + b, a0 + b0)
  {
    if Below(a, a0) || Below(b, b0) {
      BelowAppend(a, a0, b, b0);
    }
    hide Below;
  }

  lemma EscapesAppend(a: string, a0: string, b: string, b0: string)
    requires Count(a, '\\') <= Count(a0, '\\') && Count(b, '\\') <= Count(b0, '\\')
    ensures Count(a + b, '\\') <= Count(a0 + b0, '\\')
  {
    CountAppend(a, b, '\\');
    CountAppend(a0, b0, '\\');
    hide Count;
  }

  /** An unknown reference is written as it was read. */
  lemma MissingKept(env: Env, s: string, n: nat, open: nat, m: nat)
    requires n < |s| && open == OpenAt(s, n) && open < m <= |s| && env.lookup(s[open + 1..m]).Missing?
    ensures Reference(env, s, n, open, m).0 == s[n..Reference(env, s, n, open, m).1]
  {
    var name := s[open + 1..m];
    assert s[open..m] == [s[open]] + name;
    if open > n {
      assert open == n + 1;
      assert s[n..m] == [s[n]] + s[open..m];
      Regroup([s[n]], [s[open]], name);
    } else {
      assert "" + [s[open]] + name == s[n..m];
    }
    hide OpenAt, Env.IsNameChar;
    assert Replacement(env, s, n, open, m) == s[n..m];
    hide Replacement;
    if m < |s| { assert s[n..m + 1] == s[n..m] + [s[m]]; }
  }

  lemma ReferenceCalms(env: Env, s: string, n: nat, open: nat, m: nat)
    requires NoDollars(env) && n < |s| && s[n] == '$' && open == OpenAt(s, n) && open < m <= |s|
    ensures var (text, next) := Reference(env, s, n, open, m);
            && Calmer(text, s[n..next])
            && (NoBackslashes(env) ==> Count(text, '\\') <= Count(s[n..next], '\\'))
  {
    var name := s[open + 1..m];
    var (text, next) := Reference(env, s, n, open, m);
    if env.lookup(name).Missing? {
      MissingKept(env, s, n, open, m);
    } else {
      assert s[n..next][0] == '$';
      CountZero(s[n..next], '$');
      CountZero(text, '$');
      CountZero(text, '\\');
    }
  }

  /** A pass calms the rest of the string. */
  lemma {:induction false} PassCalms(env: Env, s: string, n: nat)
    requires NoDollars(env) && n <= |s|
    ensures Calmer(PassFrom(env, s, n), s[n..])
    ensures NoBackslashes(env) ==> Count(PassFrom(env, s, n), '\\') <= Count(s[n..], '\\')
    decreases |s| - n
  {
    hide PassFrom, Calmer, Count, NoDollars, NoBackslashes;
    if n == |s| {
      NothingLeft(env, s);
    } else {
      var text, next := PieceCalms(env, s, n);
      PassCalms(env, s, next);
      var rest := PassFrom(env, s, next);
      CalmerAppend(text, s[n..next], rest, s[next..]);
      if NoBackslashes(env) { EscapesAppend(text, s[n..next], rest, s[next..]); }
      assert s[n..] == s[n..next] + s[next..];
    }
  }

  lemma NothingLeft(env: Env, s: string)
    ensures PassFrom(env, s, |s|) == "" == s[|s|..] && Calmer("", "")
  {}

  /** The next piece of the string that a pass reads, and what it writes for it. */
  lemma PieceCalms(env: Env, s: string, n: nat) returns (text: string, next: nat)
    requires NoDollars(env) && n < |s|
    ensures n < next <= |s| && PassFrom(env, s, n) == text + PassFrom(env, s, next)
    ensures Calmer(text, s[n..next])
    ensures NoBackslashes(env) ==> Count(text, '\\') <= Count(s[n..next], '\\')
  {
    if s[n] == '$' {
      var open := OpenAt(s, n);
      if open + 1 >= |s| {
        text, next := "", |s|;
        assert s[n..][0] == '$' && PassFrom(env, s, |s|) == "";
      } else {
        var m := NameEnd(env, s, open + 1);
        PassReference(env, s, n, open, m);
        ReferenceCalms(env, s, n, open, m);
        text, next := Reference(env, s, n, open, m).0, Reference(env, s, n, open, m).1;
      }
    } else if s[n] == '\\' && n < |s| - 1 && s[n + 1] in {'%', '$'} {
      text, next := [s[n + 1]], n + 2;
      assert s[n..n + 2] == [s[n]] + text;
      CountAppend([s[n]], text, '$');
      CountAppend([s[n]], text, '\\');
    } else {
      text, next := [s[n]], n + 1;
      assert s[n..n + 1] == text;
    }
  }

  /** A pass that changes nothing, after the first, is the last. */
  lemma UnchangedStops(env: Env, s: string, k: nat)
    requires k >= 1 && Going(env, s, k) && GoesOn(env, s, k) && Iterate(env, s, k + 1) == Iterate(env, s, k)
    ensures StopsAt(env, s, k + 1)
  {
    hide Iterate, Triggers;
    NextStep(env, s, k);
  }

  lemma {:induction false} CalmStop(env: Env, s: string, k: nat) returns (stop: nat)
    requires NoDollars(env) && k >= 1 && Going(env, s, k)
    ensures StopsAt(env, s, stop)
    ensures NoBackslashes(env) ==> stop <= k + 1 + Specials(Iterate(env, s, k))
    decreases Count(Iterate(env, s, k), '$'), Count(Iterate(env, s, k), '\\')
  {
    hide Iterate, GoesOn, Going, NoDollars, NoBackslashes;
    var t := Iterate(env, s, k);
    if !GoesOn(env, s, k) {
      stop := k;
    } else {
      IterateNext(env, s, k);
      PassCalms(env, t, 0);
      assert t[0..] == t;
      if Pass(env, t) == t {
        UnchangedStops(env, s, k);
        stop := k + 1;
      } else {
        NextStep(env, s, k);
        stop := CalmStop(env, s, k + 1);
      }
    }
  }

  function Specials(s: string): nat {
    Count(s, '$') + Count(s, '\\')
  }

  /** When no variable's value contains a `$`, every expansion ends. When none contains a backslash
      either, the number of passes is bounded by the string alone: one more than it has of the two,
      or two. */
  lemma PlainValuesTerminate(env: Env, s: string)
    requires NoDollars(env)
    ensures Terminates(env, s)
    ensures NoBackslashes(env) ==>
              forall k: nat :: StopsAt(env, s, k) ==> k <= if Specials(s) == 0 then 2 else Specials(s) + 1
    ensures Specials(s) == multiset(s)['$'] + multiset(s)['\\']
  {
    hide Triggers;
    CountMeans(s, '$');
    CountMeans(s, '\\');
    var stop := CalmStop(env, s, 1);
    PassCalms(env, s, 0);
    assert s[0..] == s;
    IterateNext(env, s, 0);
    IterateNext(env, s, 1);
    hide Iterate, PassFrom, Count;
    if Pass(env, s) == s && stop > 1 {
      UnchangedStops(env, s, 1);
      StopUnique(env, s, stop, 2);
    }
    forall k: nat | StopsAt(env, s, k)
      ensures k == stop
    {
      StopUnique(env, s, k, stop);
    }
  }

  // ----- a variable that mentions itself -----

  ghost predicate IsVariableName(env: Env, name: string) {
    (forall i :: 0 <= i < |name| ==> env.IsNameChar(name[i])) && !env.IsNameChar('}')
  }

  /** What a pass writes for a bracketed and closed reference. */
  function Written(env: Env, name: string): string {
    match env.lookup(name)
    case Value(text) => text
    case NoModelDir => "}"
    case Missing => "${" + name + "}"
  }

  /** Such a reference anywhere in a string. */
  lemma AnyReference(env: Env, s: string, k: nat, name: string, rest: string)
    requires IsVariableName(env, name) && k <= |s| && s[k..] == "${" + name + "}" + rest
    ensures k + |name| + 3 <= |s| && s[k + |name| + 3..] == rest
    ensures PassFrom(env, s, k) == Written(env, name) + PassFrom(env, s, k + |name| + 3)
  {
    NameOfVariable(env, name);
    hide PassFrom, IsVariableName, NameText;
    Regroup("$" + ['{'] + name, ['}'], rest);
    assert "${" == "$" + ['{'];
    ClosedReference(env, s, k, '{', '}', name, rest);
  }

  lemma NameOfVariable(env: Env, name: string)
    requires IsVariableName(env, name)
    ensures NameText(env, name) && !env.alnum('}')
  {}

  /** Characters that a pass copies. */
  predicate Copied(s: string) {
    '$' !in s && '\\' !in s
  }

  lemma {:induction false} CopiesFront(env: Env, xs: string, tail: string, n: nat)
    requires Copied(xs) && n <= |xs|
    ensures PassFrom(env, xs + tail, n) == xs[n..] + PassFrom(env, xs + tail, |xs|)
    decreases |xs| - n
  {
    if n < |xs| {
      CopiesFront(env, xs, tail, n + 1);
      assert (xs + tail)[n] == xs[n] && xs[n] in xs;
      Regroup([xs[n]], xs[n + 1..], PassFrom(env, xs + tail, |xs|));
      assert [xs[n]] + xs[n + 1..] == xs[n..];
    } else {
      assert xs[n..] == "";
    }
  }

  /** The variable stands for a text and itself. */
  ghost predicate MentionsItself(env: Env, name: string, front: string) {
    IsVariableName(env, name) && Copied(front) && env.lookup(name) == Value(front + "${" + name + "}")
  }

  /** Each pass puts one more copy of the text in front. */
  lemma ExpandsSelf(env: Env, name: string, front: string, xs: string)
    requires MentionsItself(env, name, front) && Copied(xs)
    ensures Pass(env, xs + ("${" + name + "}")) == (xs + front) + ("${" + name + "}") && Copied(xs + front)
  {
    var self := "${" + name + "}";
    var s := xs + self;
    CopiesFront(env, xs, self, 0);
    assert s[|xs|..] == self && self + "" == self;
    AnyReference(env, s, |xs|, name, "");
    assert PassFrom(env, s, |s|) == "";
    hide PassFrom, Copied;
    Regroup(front, "${", name);
    Regroup(front, "${" + name, "}");
    Regroup(xs, front, self);
    assert xs[0..] == xs && (front + self) + "" == front + self;
  }

  lemma {:induction false} SelfIterates(env: Env, name: string, front: string, k: nat) returns (xs: string)
    requires MentionsItself(env, name, front)
    ensures Copied(xs) && |xs| == k * |front| && Iterate(env, "${" + name + "}", k) == xs + ("${" + name + "}")
  {
    hide MentionsItself, Pass;
    if k == 0 {
      xs := "";
      assert "" + ("${" + name + "}") == "${" + name + "}";
    } else {
      var prev := SelfIterates(env, name, front, k - 1);
      ExpandsSelf(env, name, front, prev);
      xs := prev + front;
      assert k * |front| == (k - 1) * |front| + |front|;
    }
  }

  lemma TriggersBraces(xs: string, name: string)
    ensures Triggers(xs + ("${" + name + "}"))
  {
    var s := xs + ("${" + name + "}");
    assert s[|xs| + 1] == '{' && s[|s| - 1] == '}' && |xs| + 1 < |s| - 1;
    assert s[|xs| + 1] in OPENERS && s[|s| - 1] in CLOSERS;
  }

  /** A value that contains a `$` can make the recursion run forever: for a variable that stands for a
      text and itself that is so exactly when the text is not empty. */
  lemma SelfMentionDivergesIff(env: Env, name: string, front: string)
    requires MentionsItself(env, name, front)
    ensures Terminates(env, "${" + name + "}") <==> front == ""
  {
    var self := "${" + name + "}";
    hide Iterate, MentionsItself, Triggers;
    if front == "" {
      SelfRepeats(env, name, front, 0, 1);
      SelfRepeats(env, name, front, 1, 2);
      assert GoesOn(env, self, 1);
      assert StopsAt(env, self, 2);
    } else {
      forall k: nat
        ensures GoesOn(env, self, k)
      {
        SelfRepeats(env, name, front, k, k + 1);
        forall i: nat | i < k
          ensures Iterate(env, self, i) != Iterate(env, self, k)
        {
          SelfRepeats(env, name, front, i, k);
        }
      }
    }
  }

  lemma SelfRepeats(env: Env, name: string, front: string, i: nat, k: nat)
    requires MentionsItself(env, name, front) && i < k
    ensures var self := "${" + name + "}";
            && Triggers(Iterate(env, self, i)) && Triggers(Iterate(env, self, k))
            && (Iterate(env, self, i) == Iterate(env, self, k) <==> front == "")
  {
    hide Iterate, MentionsItself, Triggers, Copied;
    var self := "${" + name + "}";
    var ys := SelfIterates(env, name, front, i);
    var xs := SelfIterates(env, name, front, k);
    TriggersBraces(xs, name);
    TriggersBraces(ys, name);
    if front == "" {
      assert ys == "" && xs == "";
    } else {
      LongerProduct(i, k, |front|);
      assert |ys + self| < |xs + self|;
    }
  }

  lemma LongerProduct(i: nat, k: nat, n: nat)
    requires i < k && n > 0
    ensures i * n < k * n
  {}
}
