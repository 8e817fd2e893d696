/** common/eda_pattern_match.cpp: EDA_COMBINED_MATCHER as a search uses it, with a regular expression,
    a wildcard and a substring matcher. */
module CombinedMatcher {
  import opened Wrappers
  import opened Glob
  import opened Substring
  import opened WildcardRegex
  import WildcardEngines

  /** The expression in a pattern that is written as one. */
  function RegexBody(p: string): string
    requires WrittenAsRegex(p)
  {
    if p[0] == '^' && p[|p| - 1] == '$' then p
    else if |p| >= 2 && p[|p| - 1] == '/' then p[1..|p| - 1]
    else p[1..]
  }

  /** The pattern is written as a regular expression, it compiles, and the engine finds it. */
  predicate RegexFinds(engine: Engine, p: string, text: string) {
    WrittenAsRegex(p) && var regex := engine(RegexBody(p)); regex.Some? && regex.value(text).Found?
  }

  ghost predicate WildcardFinds(p: string, text: string) {
    exists i: nat, n: nat :: SubstringMatches(p, text, i, n)
  }

  /** What the three matchers find together: the substring matcher adds nothing. */
  ghost predicate Finds(engine: Engine, p: string, text: string) {
    RegexFinds(engine, p, text) || WildcardFinds(p, text)
  }

  ghost predicate Occurs(p: string, text: string) {
    exists i :: OccursAt(text, p, i)
  }

  /** A pattern, as a text, is one that it stands for. */
  lemma {:induction false} PatternMatchesItself(p: string)
    ensures Matches(PlainElems(p), p)
  {
    if p != "" {
      PatternMatchesItself(p[1..]);
      assert PlainElems(p)[1..] == PlainElems(p[1..]);
      assert p[..1] == [p[0]];
      if p[0] == '*' {
        assert p[1..][0..] == p[1..];
        StarAbsorbs(PlainElems(p), p, 1);
      }
    }
  }

  /** So an occurrence of the pattern is always found by the wildcard matcher too. */
  lemma OccurrenceIsFound(p: string, text: string, i: nat)
    requires OccursAt(text, p, i)
    ensures WildcardFinds(p, text)
  {
    PatternMatchesItself(p);
    assert SubstringMatches(p, text, i, |p|);
  }

  /** The matchers are tried in turn; one whose pattern does not compile is not among them. */
  method Find(engine: Engine, p: string, text: string) returns (found: bool)
    requires Conforms(engine)
    ensures found <==> Finds(engine, p, text)
  {
    hide Conforms, SubstringMatches;
    var regex := new PatternMatcher(engine);
    var ok := regex.SetRegex(p);
    ExplicitBody(p, regex.pattern);
    if ok {
      var r := regex.Find(text);
      if r.Found? {
        return true;
      }
    }
    var wildcard := new PatternMatcher(engine);
    ok := wildcard.SetWildcard(p);
    var r := wildcard.Find(text);
    WildcardResult(p, text, r);
    if r.Found? {
      return true;
    }
    var loc := FindFrom(text, p, 0);
    if loc != NOT_FOUND { OccurrenceIsFound(p, text, loc); }
    return loc != NOT_FOUND;
  }

  lemma WildcardResult(p: string, text: string, r: FindResult)
    requires IsSearchResult(Regex(false, ItemsOf(PlainElems(p)), false), text, r)
    ensures r.Found? <==> WildcardFinds(p, text)
  {
    UnanchoredFinds(p, text, r);
  }

  lemma ExplicitBody(p: string, pattern: string)
    requires p != "" && p[0] == '^' && p[|p| - 1] == '$' ==> pattern == p
    requires forall body :: p == "/" + body + "/" ==> pattern == body
    requires p != "" && p[0] == '/' && p[|p| - 1] != '/' ==> pattern == p[1..]
    requires p == "/" ==> pattern == ""
    ensures WrittenAsRegex(p) ==> pattern == RegexBody(p)
  {
    if |p| >= 2 && p[0] == '/' && p[|p| - 1] == '/' {
      assert p == "/" + p[1..|p| - 1] + "/";
    }
  }

  // ----- when the combined matcher finds no more than the occurrences -----

  lemma {:induction false} LiteralPattern(p: string, t: string)
    requires '*' !in p && '?' !in p
    ensures Matches(PlainElems(p), t) <==> t == p
    decreases |p|
  {
    if p != "" {
      assert PlainElems(p)[1..] == PlainElems(p[1..]);
      assert p == [p[0]] + p[1..];
      if t != "" {
        LiteralPattern(p[1..], t[1..]);
        assert t == t[..1] + t[1..];
      }
    }
  }

  /** The shortest text of a pattern is the pattern itself only when nothing in it is special. */
  lemma {:induction false} ShortestOfPlain(p: string)
    ensures var t := WildcardEngines.Shortest(PlainElems(p));
            && |t| <= |p| && ('*' in p ==> |t| < |p|) && ('?' in p ==> t != p)
  {
    if p != "" {
      ShortestOfPlain(p[1..]);
      assert PlainElems(p)[1..] == PlainElems(p[1..]);
      assert p == [p[0]] + p[1..];
      var t, rest := WildcardEngines.Shortest(PlainElems(p)), WildcardEngines.Shortest(PlainElems(p[1..]));
      if p[0] != '*' { assert t[1..] == rest; }
    }
  }

  /** Without a star a pattern takes texts of its own length. */
  lemma {:induction false} StarFreePattern(p: string, t: string)
    requires '*' !in p && Matches(PlainElems(p), t)
    ensures |t| == |p|
    decreases |p|
  {
    if p != "" {
      assert PlainElems(p)[1..] == PlainElems(p[1..]);
      assert p == [p[0]] + p[1..];
      StarFreePattern(p[1..], t[1..]);
    }
  }

  /** The shortest text of a regular expression. */
  function ShortText(items: seq<Item>): string {
    if items == [] then ""
    else (if items[0].starred then "" else match items[0].atom case AnyChar => "x" case Char(c) => [c])
         + ShortText(items[1..])
  }

  lemma {:induction false} ShortTextMatches(items: seq<Item>)
    ensures InLanguage(items, ShortText(items)) && |ShortText(items)| <= |items|
  {
    if items != [] {
      ShortTextMatches(items[1..]);
      var t, k := ShortText(items), if items[0].starred then 0 else 1;
      assert t[k..] == ShortText(items[1..]);
      assert ItemFits(items[0], t[..k]);
    }
  }

  lemma {:induction false} NoMoreItems(s: string)
    ensures ParseItems(s).Some? ==> |ParseItems(s).value.0| <= |s|
  {
    if s != "" && s != "$" && ParseItems(s).Some? {
      var (a, used) := ParseAtom(s).value;
      var next := if used < |s| && s[used] == '*' then used + 1 else used;
      NoMoreItems(s[next..]);
    }
  }

  /** A regular expression of the fragment matches some text shorter than the pattern it stands in. */
  lemma RegexFindsShorter(engine: Engine, p: string) returns (t: string)
    requires Conforms(engine) && WrittenAsRegex(p) && Parse(RegexBody(p)).Some?
    ensures RegexFinds(engine, p, t) && |t| < |p|
  {
    var body := RegexBody(p);
    var re := Parse(body).value;
    t := ShortText(re.items);
    ShortTextMatches(re.items);
    NoMoreItems(if body != "" && body[0] == '^' then body[1..] else body);
    assert t[0..0 + |t|] == t;
    assert MatchAt(re, t, 0, |t|);
    assert IsSearchResult(re, t, engine(body).value(t));
  }

  /** The combined matcher finds exactly the texts with an occurrence of the pattern: when nothing in
      it is special to the wildcard matcher, and the regular expression, if it is written as one, finds
      no others. One of the fragment always does. */
  lemma FindsOccurrencesIff(engine: Engine, p: string)
    requires Conforms(engine)
    ensures (forall t :: Finds(engine, p, t) <==> Occurs(p, t)) <==>
            '*' !in p && '?' !in p && forall t :: RegexFinds(engine, p, t) ==> Occurs(p, t)
    ensures !WrittenAsRegex(p) ==>
              ((forall t :: Finds(engine, p, t) <==> Occurs(p, t)) <==> '*' !in p && '?' !in p)
    ensures WrittenAsRegex(p) && Parse(RegexBody(p)).Some? ==>
              !forall t :: Finds(engine, p, t) <==> Occurs(p, t)
  {
    hide Conforms, Parse, RegexFinds, WildcardFinds;
    if WrittenAsRegex(p) {
      if Parse(RegexBody(p)).Some? {
        var t := RegexFindsShorter(engine, p);
        assert Finds(engine, p, t) && !Occurs(p, t);
      }
    }
    NotWrittenFinds(engine, p);
    if '*' in p || '?' in p {
      var t := SpecialFinds(p);
      assert Finds(engine, p, t) && !Occurs(p, t);
    } else {
      forall t
        ensures WildcardFinds(p, t) <==> Occurs(p, t)
      {
        LiteralFinds(p, t);
      }
    }
  }

  lemma NotWrittenFinds(engine: Engine, p: string)
    ensures !WrittenAsRegex(p) ==> forall t :: !RegexFinds(engine, p, t)
  {}

  /** A text a pattern with special characters finds although it does not occur there. */
  lemma SpecialFinds(p: string) returns (t: string)
    requires '*' in p || '?' in p
    ensures WildcardFinds(p, t) && !Occurs(p, t)
  {
    t := WildcardEngines.Shortest(PlainElems(p));
    ShortestOfPlain(p);
    WildcardEngines.PlainElemsOf(p);
    WildcardEngines.ShortestMatches(PlainElems(p));
    WholeText(p, t);
  }

  /** A text the pattern takes as a whole and that is no longer than it is found, and is an occurrence
      only if it is the pattern. */
  lemma WholeText(p: string, t: string)
    requires Matches(PlainElems(p), t) && |t| <= |p|
    ensures WildcardFinds(p, t) && (Occurs(p, t) ==> t == p)
  {
    assert t[0..0 + |t|] == t;
    assert SubstringMatches(p, t, 0, |t|);
    if i :| OccursAt(t, p, i) { assert i == 0 && t[0..|p|] == t; }
  }

  lemma LiteralFinds(p: string, t: string)
    requires '*' !in p && '?' !in p
    ensures WildcardFinds(p, t) <==> Occurs(p, t)
  {
    if i: nat, n: nat :| SubstringMatches(p, t, i, n) {
      LiteralPattern(p, t[i..i + n]);
      assert OccursAt(t, p, i);
    }
    if i :| OccursAt(t, p, i) { OccurrenceIsFound(p, t, i); }
  }
}
