/** common/eda_pattern_match.cpp: a wildcard compiled to the text of a regular expression.

    The engine that compiles and searches is a parameter. What is relied on of it is said for the
    fragment of POSIX/ARE syntax that a compiled wildcard can use: a reference reader for that
    fragment, and the language of what it reads. */
module WildcardRegex {
  import opened Wrappers
  import opened Glob
  import Substring

  // ----- regular expressions: syntax and language -----

  datatype Atom = AnyChar | Char(c: char)

  datatype Item = Item(atom: Atom, starred: bool)

  datatype Regex = Regex(fromStart: bool, items: seq<Item>, toEnd: bool)

  predicate AtomFits(a: Atom, c: char) {
    a.AnyChar? || a.c == c
  }

  predicate ItemFits(it: Item, part: string) {
    if it.starred then forall i :: 0 <= i < |part| ==> AtomFits(it.atom, part[i])
    else |part| == 1 && AtomFits(it.atom, part[0])
  }

  /** The language of a list of items: each item takes a run it fits, left to right. */
  predicate InLanguage(items: seq<Item>, t: string) {
    if items == [] then t == ""
    else exists k | 0 <= k <= |t| :: ItemFits(items[0], t[..k]) && InLanguage(items[1..], t[k..])
  }

  /** What the wildcard compilers escape. */
  const TO_REPLACE: set<char> := {'.', '*', '+', '?', '^', '$', '{', '}', '(', ')', '|', '[', ']', '/', '\\'}

  /** One atom at the front of the text, with the number of characters it takes. */
  function ParseAtom(s: string): Option<(Atom, nat)>
    requires s != ""
  {
    if s[0] == '\\' then
      // an escaped letter or digit would be a class, a back reference or a control character
      if |s| >= 2 && s[1] in TO_REPLACE then Some((Char(s[1]), 2)) else None
    else if s[0] == '.' then Some((AnyChar, 1))
    else if s[0] in {'^', '$', '*', '+', '?', '(', ')', '[', '{', '|'} then None
    else Some((Char(s[0]), 1))
  }

  /** Items up to the end of the text or a final unescaped `$`. */
  function ParseItems(s: string): Option<(seq<Item>, bool)> {
    if s == "" then Some(([], false))
    else if s == "$" then Some(([], true))
    else match ParseAtom(s)
      case None => None
      case Some((a, used)) =>
        if used > |s| then None else
        var starred := used < |s| && s[used] == '*';
        match ParseItems(s[(if starred then used + 1 else used)..])
        case None => None
        case Some((items, toEnd)) => Some(([Item(a, starred)] + items, toEnd))
  }

  function Parse(s: string): Option<Regex> {
    var fromStart := s != "" && s[0] == '^';
    match ParseItems(if fromStart then s[1..] else s)
    case None => None
    case Some((items, toEnd)) => Some(Regex(fromStart, items, toEnd))
  }

  // ----- searching: the leftmost start, and the longest match from there -----

  ghost predicate MatchAt(re: Regex, t: string, start: nat, len: nat) {
    && start + len <= |t|
    && (re.fromStart ==> start == 0)
    && (re.toEnd ==> start + len == |t|)
    && InLanguage(re.items, t[start..start + len])
  }

  datatype FindResult = NotFound | Found(start: nat, len: nat)

  ghost predicate IsSearchResult(re: Regex, t: string, r: FindResult) {
    match r
    case NotFound => forall i: nat, n: nat :: !MatchAt(re, t, i, n)
    case Found(start, len) =>
      && MatchAt(re, t, start, len)
      && (forall i: nat, n: nat :: MatchAt(re, t, i, n) ==> start < i || (start == i && n <= len))
  }

  /** wxRegEx: compiling may fail; what compiled can be searched for in a text. */
  type Engine = string -> Option<string -> FindResult>

  /** On the fragment the engine compiles, and finds the leftmost and then longest match. Of any other
      expression nothing is known. */
  ghost predicate Conforms(engine: Engine) {
    forall s | Parse(s).Some? :: engine(s).Some? && forall t :: IsSearchResult(Parse(s).value, t, engine(s).value(t))
  }

  lemma SearchExists(re: Regex, t: string) returns (r: FindResult)
    ensures IsSearchResult(re, t, r)
  {
    for i := 0 to |t| + 1
      invariant forall j: nat, n: nat :: j < i ==> !MatchAt(re, t, j, n)
    {
      for n := |t| - i + 1 downto 0
        invariant forall k: nat :: n <= k ==> !MatchAt(re, t, i, k)
      {
        if MatchAt(re, t, i, n) {
          return Found(i, n);
        }
      }
    }
    return NotFound;
  }

  ghost function LeftmostLongest(re: Regex, t: string): (r: FindResult)
    ensures IsSearchResult(re, t, r)
  {
    assert exists r :: IsSearchResult(re, t, r) by { var r := SearchExists(re, t); }
    var r :| IsSearchResult(re, t, r);
    r
  }

  /** There is such an engine. */
  lemma EngineExists() returns (engine: Engine)
    ensures Conforms(engine)
  {
    engine := (s: string) => match Parse(s)
                             case None => None
                             case Some(re) => Some((t: string) => LeftmostLongest(re, t));
  }

  // ----- the two compilers -----

  function CompileChar(c: char): string {
    if c == '?' then "."
    else if c == '*' then ".*"
    else if c in TO_REPLACE then ['\\', c]
    else [c]
  }

  function CompileBody(p: string): string {
    if p == "" then "" else CompileChar(p[0]) + CompileBody(p[1..])
  }

  lemma {:induction false} CompileBodyAppend(p: string, c: char)
    ensures CompileBody(p + [c]) == CompileBody(p) + CompileChar(c)
  {
    if p != "" {
      assert (p + [c])[1..] == p[1..] + [c];
      CompileBodyAppend(p[1..], c);
    } else {
      assert (p + [c])[1..] == "";
    }
  }

  /** How a wildcard reads here: only `*` and `?` are special. */
  function PlainElem(c: char): Elem {
    if c == '*' then Star else if c == '?' then One else Lit(c)
  }

  function PlainElems(p: string): seq<Elem> {
    if p == "" then [] else [PlainElem(p[0])] + PlainElems(p[1..])
  }

  /** The text cut into one part for each character of the wildcard: anything for a star, one character
      for a question mark, and the character itself for any other. */
  predicate PlainCut(p: string, parts: seq<string>, t: string) {
    && |parts| == |p| && Concat(parts) == t
    && forall i :: 0 <= i < |p| ==>
         if p[i] == '*' then true else if p[i] == '?' then |parts[i]| == 1 else parts[i] == [p[i]]
  }

  /** Which texts a wildcard means. */
  lemma PlainMeans(p: string, t: string)
    ensures Matches(PlainElems(p), t) <==> exists parts :: PlainCut(p, parts, t)
  {
    PlainElemAt(p);
    hide PlainElems, Matches;
    MatchesIffSplits(PlainElems(p), t);
    forall parts
      ensures PlainCut(p, parts, t) <==> Splits(PlainElems(p), parts, t)
    {
      if |parts| == |p| {
        forall i | 0 <= i < |p|
          ensures Fits(PlainElems(p)[i], parts[i]) <==>
                  if p[i] == '*' then true else if p[i] == '?' then |parts[i]| == 1 else parts[i] == [p[i]]
        {}
      }
    }
  }

  lemma {:induction false} PlainElemAt(p: string)
    ensures |PlainElems(p)| == |p| && forall i :: 0 <= i < |p| ==> PlainElems(p)[i] == PlainElem(p[i])
  {
    hide PlainElem;
    if p != "" { PlainElemAt(p[1..]); }
  }

  function ItemOf(e: Elem): Item {
    match e
    case Star => Item(AnyChar, true)
    case Lit(c) => Item(Char(c), false)
    case _ => Item(AnyChar, false)
  }

  function ItemsOf(es: seq<Elem>): seq<Item> {
    if es == [] then [] else [ItemOf(es[0])] + ItemsOf(es[1..])
  }

  /** One compiled character parses back to its item, in front of anything that parses. */
  lemma CompiledCharParses(c: char, rest: string, items: seq<Item>, toEnd: bool)
    requires ParseItems(rest) == Some((items, toEnd)) && (rest != "" ==> rest[0] != '*')
    ensures ParseItems(CompileChar(c) + rest) == Some(([ItemOf(PlainElem(c))] + items, toEnd))
  {
    hide ParseItems;
    var s := CompileChar(c) + rest;
    assert s[|CompileChar(c)|..] == rest;
    var a := if c == '?' || c == '*' then AnyChar else Char(c);
    var used := if c == '?' || c == '*' || c !in TO_REPLACE then 1 else 2;
    assert ParseAtom(s) == Some((a, used));
    assert s != "$";
    ParseItemsUnfolds(s, a, used, c == '*', items, toEnd);
  }

  lemma ParseItemsUnfolds(s: string, a: Atom, used: nat, starred: bool, items: seq<Item>, toEnd: bool)
    requires s != "" && s != "$" && ParseAtom(s) == Some((a, used)) && used <= |s|
    requires starred == (used < |s| && s[used] == '*')
    requires ParseItems(s[(if starred then used + 1 else used)..]) == Some((items, toEnd))
    ensures ParseItems(s) == Some(([Item(a, starred)] + items, toEnd))
  {}

  /** A compiled wildcard parses back to one item per pattern character, whatever the pattern. */
  lemma {:induction false} CompiledParses(p: string, tail: string)
    requires tail == "" || tail == "$"
    ensures ParseItems(CompileBody(p) + tail) == Some((ItemsOf(PlainElems(p)), tail == "$"))
  {
    if p == "" {
      assert CompileBody(p) + tail == tail;
    } else {
      var rest := CompileBody(p[1..]) + tail;
      CompiledParses(p[1..], tail);
      CompiledHead(p[1..], tail);
      CompiledCharParses(p[0], rest, ItemsOf(PlainElems(p[1..])), tail == "$");
      assert CompileBody(p) + tail == CompileChar(p[0]) + rest;
      assert PlainElems(p)[1..] == PlainElems(p[1..]);
    }
  }

  /** The text of a compiled wildcard never starts with a repetition operator. */
  lemma CompiledHead(p: string, tail: string)
    requires tail == "" || tail == "$"
    ensures var s := CompileBody(p) + tail; s != "" ==> s[0] != '*'
  {}

  /** The language of the items is the declarative glob. */
  lemma {:induction false} LanguageIsGlob(es: seq<Elem>, t: string)
    requires forall i :: 0 <= i < |es| ==> !es[i].Never?
    ensures InLanguage(ItemsOf(es), t) <==> Matches(es, t)
    decreases |es|, |t|
  {
    if es != [] {
      var items := ItemsOf(es);
      assert items[0] == ItemOf(es[0]) && items[1..] == ItemsOf(es[1..]);
      forall k | 0 <= k <= |t|
        ensures InLanguage(items[1..], t[k..]) <==> Matches(es[1..], t[k..])
      {
        LanguageIsGlob(es[1..], t[k..]);
      }
      if es[0].Star? {
        if Matches(es, t) {
          var k := StarGivesSuffix(es, t);
          assert ItemFits(items[0], t[..k]) && InLanguage(items[1..], t[k..]);
        }
        if InLanguage(items, t) {
          var k :| 0 <= k <= |t| && ItemFits(items[0], t[..k]) && InLanguage(items[1..], t[k..]);
          StarAbsorbs(es, t, k);
        }
      } else {
        OneCharacterItem(es, t);
      }
    }
  }

  lemma OneCharacterItem(es: seq<Elem>, t: string)
    requires es != [] && !es[0].Star? && !es[0].Never?
    requires forall k | 0 <= k <= |t| :: InLanguage(ItemsOf(es)[1..], t[k..]) <==> Matches(es[1..], t[k..])
    ensures InLanguage(ItemsOf(es), t) <==> Matches(es, t)
  {}

  lemma PlainNeverFree(p: string)
    ensures forall i :: 0 <= i < |PlainElems(p)| ==> !PlainElems(p)[i].Never?
  {}

  /** Regular expressions have to be explicit: between slashes, the second of them optional, or anchored
      at both ends. */
  predicate WrittenAsRegex(p: string) {
    p != "" && (p[0] == '/' || (p[0] == '^' && p[|p| - 1] == '$'))
  }

  /** What the compiled pattern finds in each text. */
  ghost predicate Searches(regex: Option<string -> FindResult>, re: Regex) {
    regex.Some? && forall t :: IsSearchResult(re, t, regex.value(t))
  }

  lemma ConformingSearches(engine: Engine, text: string, re: Regex)
    requires Conforms(engine) && Parse(text) == Some(re)
    ensures Searches(engine(text), re)
  {}

  /** EDA_PATTERN_MATCH_REGEX and its two wildcard subclasses: the compiled state and Find. */
  class PatternMatcher {
    const engine: Engine
    var wildcard: string
    var pattern: string
    var regex: Option<string -> FindResult>  // None when the engine rejects the pattern

    constructor (engine: Engine)
      ensures this.engine == engine && wildcard == "" && pattern == "" && regex.None?
    {
      this.engine := engine;
      wildcard, pattern, regex := "", "", None;
    }

    /** EDA_PATTERN_MATCH_REGEX::SetPattern. */
    method SetRegex(p: string) returns (ok: bool)
      modifies this`pattern, this`regex
      ensures p != "" && p[0] == '^' && p[|p| - 1] == '$' ==> pattern == p
      ensures forall body :: p == "/" + body + "/" ==> pattern == body
      ensures p != "" && p[0] == '/' && p[|p| - 1] != '/' ==> pattern == p[1..]
      ensures p == "/" ==> pattern == ""
      ensures if p != "" && (p[0] == '/' || (p[0] == '^' && p[|p| - 1] == '$'))
              then regex == engine(pattern) && ok == regex.Some?
              else !ok && pattern == old(pattern) && regex == old(regex)
    {
      if p != "" && p[0] == '^' && p[|p| - 1] == '$' {
        pattern := p;
      } else if p != "" && p[0] == '/' {
        pattern := p[1..];
        if pattern != "" && pattern[|pattern| - 1] == '/' {
          pattern := pattern[..|pattern| - 1];
        }
      } else {
        return false;
      }
      regex := engine(pattern);
      ok := regex.Some?;
    }

    /** The character loop both wildcard compilers share. */
    static method Compile(p: string, prefix: string) returns (text: string)
      ensures text == prefix + CompileBody(p)
    {
      text := prefix;
      for i := 0 to |p|
        invariant text == prefix + CompileBody(p[..i])
      {
        assert p[..i + 1] == p[..i] + [p[i]];
        CompileBodyAppend(p[..i], p[i]);
        text := text + CompileChar(p[i]);
      }
      assert p[..|p|] == p;
    }

    /** EDA_PATTERN_MATCH_WILDCARD::SetPattern. */
    method SetWildcard(p: string) returns (ok: bool)
      modifies this
      ensures wildcard == p && pattern == CompileBody(p) && regex == engine(pattern) && ok == regex.Some?
      ensures Conforms(engine) ==> ok && Searches(regex, Regex(false, ItemsOf(PlainElems(p)), false))
    {
      wildcard := p;
      var text := Compile(p, "");
      ok := SetRegex("/" + text + "/");
      CompiledParses(p, "");
      assert CompileBody(p) + "" == CompileBody(p) == pattern;
      NoLeadingCaret(p);
      if Conforms(engine) { ConformingSearches(engine, pattern, Regex(false, ItemsOf(PlainElems(p)), false)); }
    }

    /** EDA_PATTERN_MATCH_WILDCARD_ANCHORED::SetPattern. */
    method SetWildcardAnchored(p: string) returns (ok: bool)
      modifies this
      ensures wildcard == p && pattern == "^" + CompileBody(p) + "$" && regex == engine(pattern) && ok == regex.Some?
      ensures Conforms(engine) ==> ok && Searches(regex, Regex(true, ItemsOf(PlainElems(p)), true))
    {
      wildcard := p;
      var text := Compile(p, "^");
      text := text + "$";
      ok := SetRegex(text);
      CompiledParses(p, "$");
      assert pattern[1..] == CompileBody(p) + "$";
      if Conforms(engine) { ConformingSearches(engine, pattern, Regex(true, ItemsOf(PlainElems(p)), true)); }
    }

    /** EDA_PATTERN_MATCH_REGEX::Find; a pattern that did not compile is looked for as it stands. */
    method Find(candidate: string) returns (r: FindResult)
      ensures regex.Some? ==> r == regex.value(candidate)
      ensures regex.None? ==>
                Substring.IsFirstFrom(candidate, pattern, 0, if r.Found? then r.start else Substring.NOT_FOUND)
      ensures regex.None? && r.Found? ==> r.len == |pattern|
    {
      if regex.Some? {
        var search := regex.value;
        r := search(candidate);
      } else {
        var loc := Substring.FindFrom(candidate, pattern, 0);
        r := if loc == Substring.NOT_FOUND then NotFound else Found(loc, |pattern|);
      }
    }
  }

  lemma NoLeadingCaret(p: string)
    ensures CompileBody(p) != "" ==> CompileBody(p)[0] != '^'
  {}

  // ----- what the compiled wildcards find -----

  ghost predicate SubstringMatches(p: string, t: string, start: nat, len: nat) {
    start + len <= |t| && Matches(PlainElems(p), t[start..start + len])
  }

  /** Unanchored: the leftmost, then longest, substring that the wildcard accepts. */
  ghost predicate IsSubstringResult(p: string, t: string, r: FindResult) {
    match r
    case NotFound => forall i: nat, n: nat :: !SubstringMatches(p, t, i, n)
    case Found(start, len) =>
      && SubstringMatches(p, t, start, len)
      && forall i: nat, n: nat :: SubstringMatches(p, t, i, n) ==> start < i || (start == i && n <= len)
  }

  lemma UnanchoredFinds(p: string, t: string, r: FindResult)
    ensures IsSearchResult(Regex(false, ItemsOf(PlainElems(p)), false), t, r) <==> IsSubstringResult(p, t, r)
  {
    var re := Regex(false, ItemsOf(PlainElems(p)), false);
    PlainNeverFree(p);
    forall i: nat, n: nat
      ensures MatchAt(re, t, i, n) <==> SubstringMatches(p, t, i, n)
    {
      if i + n <= |t| {
        LanguageIsGlob(PlainElems(p), t[i..i + n]);
      }
    }
  }

  /** Anchored: the whole text, or nothing. */
  lemma AnchoredFinds(p: string, t: string, r: FindResult)
    requires IsSearchResult(Regex(true, ItemsOf(PlainElems(p)), true), t, r)
    ensures r == if Matches(PlainElems(p), t) then Found(0, |t|) else NotFound
  {
    var re := Regex(true, ItemsOf(PlainElems(p)), true);
    PlainNeverFree(p);
    LanguageIsGlob(PlainElems(p), t);
    assert t[0..0 + |t|] == t;
    assert MatchAt(re, t, 0, |t|) <==> Matches(PlainElems(p), t);
  }
}
