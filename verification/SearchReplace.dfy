/** common/eda_item.cpp: EDA_ITEM::Matches and EDA_ITEM::Replace. */
module SearchReplace {
  import opened Substring
  import CombinedMatcher
  import Glob
  import WildcardRegex

  /** The character classification of the running locale. */
  datatype Locale = Locale(upper: char -> char, alnum: char -> bool) {
    predicate IsWordChar(c: char) {
      alnum(c) || c == '_'
    }

    function Upper(s: string): (r: string)
      ensures |r| == |s|
    {
      seq(|s|, i requires 0 <= i < |s| => upper(s[i]))
    }
  }

  datatype MatchMode = Plain | WholeWord | Wildcard | Permissive

  datatype SearchData = SearchData(findString: string, replaceString: string, matchCase: bool,
                                   matchMode: MatchMode, searchAndReplace: bool)

  /** What both operations look for: the texts after case folding, and the mode. */
  datatype Query = Query(text: string, sub: string, wholeWord: bool, locale: Locale) {

    predicate StartOk(i: int)
      requires 0 <= i <= |text|
    {
      i == 0 || !locale.IsWordChar(text[i - 1])
    }

    predicate EndOk(i: int)
      requires 0 <= i <= |text|
    {
      i == |text| || !locale.IsWordChar(text[i])
    }

    /** An occurrence that the mode accepts. */
    predicate Accepts(i: int) {
      OccursAt(text, sub, i) && (wholeWord ==> StartOk(i) && EndOk(i + |sub|))
    }

    ghost predicate NothingIn(from: int, to: int) {
      forall i | from <= i < to :: !Accepts(i)
    }

    lemma FindsWord(i: nat)
      requires wholeWord && OccursAt(text, sub, i) && StartOk(i) && EndOk(i + |sub|) && i < |text|
      ensures HasMatch()
    {
      assert Accepts(i);
    }

    lemma NothingYet()
      ensures NothingIn(0, 0)
    {}

    lemma SkipsWord(i: nat)
      requires wholeWord && NothingIn(0, i) && OccursAt(text, sub, i) && !(StartOk(i) && EndOk(i + |sub|))
      ensures NothingIn(0, i + 1)
    {}

    lemma PlainFinds(next: int)
      requires !wholeWord && IsFirstFrom(text, sub, 0, next)
      ensures HasMatch() <==> next != NOT_FOUND
    {
      if next != NOT_FOUND { assert Accepts(next); }
    }

    lemma FindsNothing()
      requires NothingIn(0, |text|)
      ensures wholeWord ==> !HasMatch()
    {}

    /** What a search from a position says of the positions it passes. */
    lemma SearchSkips(from: nat, next: int)
      requires IsFirstFrom(text, sub, from, next)
      ensures NothingIn(from, if next == NOT_FOUND then |text| else next)
      ensures NothingIn(0, from) ==> NothingIn(0, if next == NOT_FOUND then |text| else next)
      ensures next != NOT_FOUND ==> from <= next && next + |sub| <= |text|
    {}

    /** Something to find; at the very end of the text, whole-word mode does not look. */
    ghost predicate HasMatch() {
      exists i :: Accepts(i) && (wholeWord ==> i < |text|)
    }

    /** The accepted occurrences a left-to-right reader picks, skipping over each one it picks. */
    function Picked(from: nat): (ps: seq<nat>)
      requires sub != ""
      decreases |text| - from
    {
      if from >= |text| then []
      else if Accepts(from) then [from] + Picked(from + |sub|)
      else Picked(from + 1)
    }

    /** Leftmost and non-overlapping, said without an order of reading: between the end of one
        occurrence and the start of the next, and after the last, nothing acceptable is left. */
    ghost predicate Leftmost(ps: seq<nat>, from: nat) {
      if ps == [] then NothingIn(from, |text|)
      else from <= ps[0] && Accepts(ps[0]) && NothingIn(from, ps[0]) && Leftmost(ps[1..], ps[0] + |sub|)
    }

    lemma LeftmostTake(rest: seq<nat>, from: nat)
      requires Accepts(from) && Leftmost(rest, from + |sub|)
      ensures Leftmost([from] + rest, from)
    {}

    lemma LeftmostSkip(rest: seq<nat>, from: nat)
      requires !Accepts(from) && Leftmost(rest, from + 1)
      ensures Leftmost(rest, from)
    {}

    lemma {:induction false} PickedIsLeftmost(from: nat)
      requires sub != ""
      ensures Leftmost(Picked(from), from)
      decreases |text| - from
    {
      if from < |text| {
        var next := if Accepts(from) then from + |sub| else from + 1;
        PickedIsLeftmost(next);
        var rest := Picked(next);
        if Accepts(from) {
          LeftmostTake(rest, from);
        } else {
          LeftmostSkip(rest, from);
        }
      }
    }

    /** The leftmost selection is unique. */
    lemma {:induction false} LeftmostUnique(ps: seq<nat>, from: nat)
      requires sub != "" && Leftmost(ps, from)
      ensures ps == Picked(from)
      decreases |ps|
    {
      if ps == [] {
        PickedSkips(from, |text|);
      } else {
        PickedSkips(from, ps[0]);
        LeftmostUnique(ps[1..], ps[0] + |sub|);
        assert ps[0] < |text|;
        hide Leftmost, NothingIn, StartOk, EndOk;
        assert Picked(ps[0]) == [ps[0]] + Picked(ps[0] + |sub|);
      }
    }

    lemma {:induction false} PickedSkips(from: nat, to: nat)
      requires sub != "" && NothingIn(from, to)
      ensures from <= to ==> Picked(from) == Picked(to)
      ensures to == |text| ==> Picked(from) == []
      decreases if from < to then to - from else 0
    {
      if from < to {
        PickedSkips(from + 1, to);
      }
    }
  }

  /** A character, and a text, as the search sees it. */
  function FoldChar(data: SearchData, locale: Locale, c: char): char {
    if data.matchCase then c else locale.upper(c)
  }

  function Folded(data: SearchData, locale: Locale, s: string): (r: string)
    ensures |r| == |s| && forall i :: 0 <= i < |s| ==> r[i] == FoldChar(data, locale, s[i])
  {
    if data.matchCase then s else locale.Upper(s)
  }

  /** The query both operations build from the search data. */
  function QueryOf(data: SearchData, text: string, locale: Locale): (q: Query)
    ensures |q.text| == |text| && |q.sub| == |data.findString| && q.wholeWord == data.matchMode.WholeWord?
  {
    Query(Folded(data, locale, text), Folded(data, locale, data.findString), data.matchMode.WholeWord?, locale)
  }

  /** The text with the chosen occurrences replaced and everything between them copied. */
  function Substituted(text: string, n: nat, repl: string, ps: seq<nat>, from: nat): string
    requires InOrder(text, n, ps, from)
  {
    if ps == [] then text[from..]
    else text[from..ps[0]] + repl + Substituted(text, n, repl, ps[1..], ps[0] + n)
  }

  ghost predicate InOrder(text: string, n: nat, ps: seq<nat>, from: nat) {
    if ps == [] then from <= |text|
    else from <= ps[0] <= |text| && InOrder(text, n, ps[1..], ps[0] + n)
  }

  lemma {:induction false} LeftmostInOrder(q: Query, text: string, ps: seq<nat>, from: nat)
    requires |text| == |q.text| && from <= |text| && q.Leftmost(ps, from)
    ensures InOrder(text, |q.sub|, ps, from)
    decreases |ps|
  {
    if ps != [] {
      LeftmostInOrder(q, text, ps[1..], ps[0] + |q.sub|);
    }
  }

  /** What Replace promises to return. */
  ghost predicate IsReplacement(data: SearchData, text: string, locale: Locale, result: string, replaced: bool) {
    var q := QueryOf(data, text, locale);
    exists ps ::
      && q.Leftmost(ps, 0)
      && InOrder(text, |q.sub|, ps, 0)
      && result == Substituted(text, |q.sub|, data.replaceString, ps, 0)
      && replaced == (ps != [])
  }

  /** What the mode looks for: an occurrence, the text as a whole, or what the combined matcher finds. */
  ghost predicate Found(data: SearchData, text: string, locale: Locale, engine: WildcardRegex.Engine) {
    var q := QueryOf(data, text, locale);
    match data.matchMode
    case Wildcard => Glob.Matches(WildcardRegex.PlainElems(q.sub), q.text)
    case Permissive => CombinedMatcher.Finds(engine, q.sub, q.text)
    case _ => q.HasMatch()
  }

  method Matches(text: string, data: SearchData, isReplaceable: bool, locale: Locale, engine: WildcardRegex.Engine)
    returns (found: bool)
    requires WildcardRegex.Conforms(engine)
    ensures found <==> (data.searchAndReplace ==> isReplaceable) && Found(data, text, locale, engine)
  {
    if data.searchAndReplace && !isReplaceable {
      return false;
    }
    var q := QueryOf(data, text, locale);
    hide QueryOf, Query.StartOk, Query.EndOk, Query.HasMatch, Query.NothingIn, Query.Accepts;
    hide CombinedMatcher.Finds, Glob.Matches, WildcardRegex.Conforms;
    q.NothingYet();
    if data.matchMode == Permissive {
      found := CombinedMatcher.Find(engine, q.sub, q.text);
    } else if data.matchMode == WholeWord {
      var ii: nat := 0;
      while ii < |q.text|
        invariant 0 <= ii <= |q.text|
        invariant q.NothingIn(0, ii)
      {
        var next := FindFrom(q.text, q.sub, ii);
        q.SearchSkips(ii, next);
        if next == NOT_FOUND {
          q.FindsNothing();
          return false;
        }
        ii := next;
        if q.StartOk(ii) && q.EndOk(ii + |q.sub|) {
          q.FindsWord(ii);
          return true;
        }
        q.SkipsWord(ii);
        ii := ii + 1;
      }
      q.FindsNothing();
      return false;
    } else if data.matchMode == Wildcard {
      found := Glob.Matches(WildcardRegex.PlainElems(q.sub), q.text);
    } else {
      var next := FindFrom(q.text, q.sub, 0);
      q.PlainFinds(next);
      return next != NOT_FOUND;
    }
  }

  /** Copying up to `to` when nothing before it is picked. */
  lemma SubstitutedSkips(text: string, n: nat, repl: string, ps: seq<nat>, from: nat, to: nat)
    requires from <= to && InOrder(text, n, ps, to)
    ensures to <= |text| && InOrder(text, n, ps, from)
    ensures Substituted(text, n, repl, ps, from) == text[from..to] + Substituted(text, n, repl, ps, to)
  {
    if ps == [] {
      assert text[from..] == text[from..to] + text[to..];
    } else {
      var rest := Substituted(text, n, repl, ps[1..], ps[0] + n);
      assert text[from..ps[0]] == text[from..to] + text[to..ps[0]];
      Associative(text[from..to], text[to..ps[0]], repl, rest);
    }
  }

  lemma Associative(a: string, b: string, c: string, d: string)
    ensures a + b + c + d == a + (b + c + d)
  {}

  /** Nothing picked before the end of the text. */
  ghost predicate Remaining(q: Query, text: string, n: nat, repl: string, ii: nat, result: string, replaced: bool) {
    && |text| == |q.text| && n == |q.sub| && q.sub != ""
    && ii <= |text|
    && InOrder(text, n, q.Picked(0), 0) && InOrder(text, n, q.Picked(ii), ii)
    && result + Substituted(text, n, repl, q.Picked(ii), ii) == Substituted(text, n, repl, q.Picked(0), 0)
    && (replaced || q.Picked(ii) != [] <==> q.Picked(0) != [])
  }

  lemma CopyStep(q: Query, text: string, n: nat, repl: string, ii: nat, to: nat, result: string, replaced: bool)
    requires Remaining(q, text, n, repl, ii, result, replaced)
    requires ii <= to <= |text| && q.NothingIn(ii, to)
    ensures Remaining(q, text, n, repl, to, result + text[ii..to], replaced)
  {
    q.PickedSkips(ii, to);
    q.PickedIsLeftmost(to);
    LeftmostInOrder(q, text, q.Picked(to), to);
    SubstitutedSkips(text, n, repl, q.Picked(to), ii, to);
    hide Substituted, InOrder;
    var rest := Substituted(text, n, repl, q.Picked(to), to);
    Associative(result, text[ii..to], "", rest);
    assert text[ii..to] + "" == text[ii..to] && result + text[ii..to] + "" == result + text[ii..to];
  }

  lemma ReplaceStep(q: Query, text: string, n: nat, repl: string, ii: nat, result: string, replaced: bool)
    requires Remaining(q, text, n, repl, ii, result, replaced) && ii < |text| && q.Accepts(ii)
    ensures Remaining(q, text, n, repl, ii + n, result + repl, true)
  {
    var after := q.Picked(ii + n);
    assert InOrder(text, n, [ii] + after, ii);
    SubstitutedTake(text, n, repl, after, ii);
    var rest := Substituted(text, n, repl, after, ii + n);
    hide Substituted, InOrder, Query.Accepts;
    assert q.Picked(ii) == [ii] + after;
    assert result + (repl + rest) == result + repl + rest;
  }

  lemma SubstitutedTake(text: string, n: nat, repl: string, after: seq<nat>, ii: nat)
    requires InOrder(text, n, [ii] + after, ii)
    ensures InOrder(text, n, after, ii + n)
    ensures Substituted(text, n, repl, [ii] + after, ii) == repl + Substituted(text, n, repl, after, ii + n)
  {
    var ps := [ii] + after;
    SubstitutedUnfolds(text, n, repl, ps, ii);
    hide Substituted;
    assert ps[1..] == after;
    assert text[ii..ii] + repl == repl;
  }

  lemma SubstitutedUnfolds(text: string, n: nat, repl: string, ps: seq<nat>, from: nat)
    requires ps != [] && InOrder(text, n, ps, from)
    ensures InOrder(text, n, ps[1..], ps[0] + n)
    ensures Substituted(text, n, repl, ps, from) ==
            text[from..ps[0]] + repl + Substituted(text, n, repl, ps[1..], ps[0] + n)
  {}

  /** The loop of Replace at position ii: what is built so far, whatever the find string is. */
  ghost predicate LoopState(data: SearchData, text: string, locale: Locale, ii: nat, result: string, replaced: bool) {
    if data.findString == "" then ii <= |text| && result == text[..ii] && !replaced
    else Remaining(QueryOf(data, text, locale), text, |data.findString|, data.replaceString, ii, result, replaced)
  }

  lemma LoopStarts(data: SearchData, text: string, locale: Locale)
    ensures LoopState(data, text, locale, 0, "", false)
  {
    var q := QueryOf(data, text, locale);
    if data.findString != "" {
      q.PickedIsLeftmost(0);
      LeftmostInOrder(q, text, q.Picked(0), 0);
    }
  }

  lemma LoopCopies(data: SearchData, text: string, locale: Locale, ii: nat, to: nat, result: string, replaced: bool)
    requires LoopState(data, text, locale, ii, result, replaced)
    requires ii <= to <= |text| && QueryOf(data, text, locale).NothingIn(ii, to)
    ensures LoopState(data, text, locale, to, result + text[ii..to], replaced)
  {
    if data.findString != "" {
      CopyStep(QueryOf(data, text, locale), text, |data.findString|, data.replaceString, ii, to, result, replaced);
    }
  }

  lemma LoopReplaces(data: SearchData, text: string, locale: Locale, ii: nat, result: string, replaced: bool)
    requires LoopState(data, text, locale, ii, result, replaced)
    requires data.findString != "" && ii < |text| && QueryOf(data, text, locale).Accepts(ii)
    ensures LoopState(data, text, locale, ii + |data.findString|, result + data.replaceString, true)
  {
    ReplaceStep(QueryOf(data, text, locale), text, |data.findString|, data.replaceString, ii, result, replaced);
  }

  lemma LoopEnds(data: SearchData, text: string, locale: Locale, result: string, replaced: bool)
    requires LoopState(data, text, locale, |text|, result, replaced)
    ensures data.findString != "" ==> IsReplacement(data, text, locale, result, replaced)
    ensures data.findString == "" ==> result == text && !replaced
  {
    var q := QueryOf(data, text, locale);
    if data.findString != "" {
      q.PickedIsLeftmost(0);
      assert result == Substituted(text, |q.sub|, data.replaceString, q.Picked(0), 0);
    }
  }

  /** When the replace loop comes to an end: an empty find string must never be accepted. */
  ghost predicate Ends(data: SearchData, text: string, locale: Locale) {
    data.findString != "" || QueryOf(data, text, locale).NothingIn(0, |text|)
  }

  method Replace(data: SearchData, text: string, locale: Locale) returns (result: string, replaced: bool)
    requires Ends(data, text, locale)
    ensures data.findString != "" ==> IsReplacement(data, text, locale, result, replaced)
    ensures data.findString == "" ==> result == text && !replaced
  {
    LoopStarts(data, text, locale);
    var q := QueryOf(data, text, locale);
    hide LoopState, IsReplacement, QueryOf, Query.StartOk, Query.EndOk;
    result, replaced := "", false;
    var ii: nat := 0;
    while ii < |q.text|
      invariant ii <= |q.text|
      invariant LoopState(data, text, locale, ii, result, replaced)
    {
      var next := FindFrom(q.text, q.sub, ii);
      q.SearchSkips(ii, next);
      if next == NOT_FOUND {
        LoopCopies(data, text, locale, ii, |text|, result, replaced);
        assert text[ii..] == text[ii..|text|];
        result := result + text[ii..];
        ii := |q.text|;
        break;
      }
      LoopCopies(data, text, locale, ii, next, result, replaced);
      if next > ii {
        result := result + text[ii..next];
      } else {
        assert result + text[ii..ii] == result;
      }
      ii := next;
      if q.Accepts(ii) {
        LoopReplaces(data, text, locale, ii, result, replaced);
        result := result + data.replaceString;
        replaced := true;
        ii := next + |q.sub|;
      } else {
        LoopCopies(data, text, locale, ii, ii + 1, result, replaced);
        assert text[ii..ii + 1] == [text[ii]];
        result := result + [text[ii]];
        ii := ii + 1;
      }
    }
    LoopEnds(data, text, locale, result, replaced);
  }

  // ----- what follows from the promise -----

  /** Replace reports a change exactly when the plain search, or the search for whole words, finds
      something. */
  lemma ReplacedIffMatches(data: SearchData, text: string, locale: Locale, result: string, replaced: bool)
    requires data.findString != "" && IsReplacement(data, text, locale, result, replaced)
    ensures replaced <==> QueryOf(data, text, locale).HasMatch()
  {}

  /** Replace changes exactly the texts in which Matches, with the same data, finds something. */
  ghost predicate SameTexts(data: SearchData, locale: Locale, engine: WildcardRegex.Engine) {
    forall text, result, replaced ::
      IsReplacement(data, text, locale, result, replaced) ==> (replaced <==> Found(data, text, locale, engine))
  }

  lemma ReplacementExists(data: SearchData, text: string, locale: Locale) returns (result: string, replaced: bool)
    requires data.findString != ""
    ensures IsReplacement(data, text, locale, result, replaced)
  {
    var q := QueryOf(data, text, locale);
    var ps := q.Picked(0);
    q.PickedIsLeftmost(0);
    LeftmostInOrder(q, text, ps, 0);
    result, replaced := Substituted(text, |q.sub|, data.replaceString, ps, 0), ps != [];
  }

  /** The two operations take the same texts when the mode finds what is there to replace. */
  lemma SameTextsMeans(data: SearchData, locale: Locale, engine: WildcardRegex.Engine)
    requires data.findString != ""
    ensures SameTexts(data, locale, engine) <==>
            forall text :: QueryOf(data, text, locale).HasMatch() <==> Found(data, text, locale, engine)
  {
    hide IsReplacement, QueryOf, Found, Query.HasMatch;
    if SameTexts(data, locale, engine) {
      forall text
        ensures QueryOf(data, text, locale).HasMatch() <==> Found(data, text, locale, engine)
      {
        var result, replaced := ReplacementExists(data, text, locale);
        ReplacedIffMatches(data, text, locale, result, replaced);
      }
    }
    forall text, result, replaced | IsReplacement(data, text, locale, result, replaced)
      ensures replaced <==> QueryOf(data, text, locale).HasMatch()
    {
      ReplacedIffMatches(data, text, locale, result, replaced);
    }
  }

  lemma FoundByMode(data: SearchData, text: string, locale: Locale, engine: WildcardRegex.Engine)
    ensures var q, found := QueryOf(data, text, locale), Found(data, text, locale, engine);
            && q.sub == Folded(data, locale, data.findString) && q.text == Folded(data, locale, text)
            && (!data.matchMode.WholeWord? ==> (q.HasMatch() <==> CombinedMatcher.Occurs(q.sub, q.text)))
            && match data.matchMode
               case Wildcard => found <==> Glob.Matches(WildcardRegex.PlainElems(q.sub), q.text)
               case Permissive => found <==> CombinedMatcher.Finds(engine, q.sub, q.text)
               case _ => found <==> q.HasMatch()
  {
    var q := QueryOf(data, text, locale);
    assert !q.wholeWord ==> forall i :: q.Accepts(i) <==> OccursAt(q.text, q.sub, i);
  }

  /** The find string without what folds to a star, and with `other` for what folds to a `?`. */
  function Thinned(data: SearchData, locale: Locale, s: string, other: char): string {
    if s == "" then ""
    else
      var c := FoldChar(data, locale, s[0]);
      (if c == '*' then "" else if c == '?' then [other] else [s[0]]) + Thinned(data, locale, s[1..], other)
  }

  lemma FoldedFirst(data: SearchData, locale: Locale, c: char, s: string)
    ensures Folded(data, locale, [c] + s) == [FoldChar(data, locale, c)] + Folded(data, locale, s)
  {
    var t := [c] + s;
    assert forall i :: 0 < i < |t| ==> t[i] == s[i - 1];
  }

  /** It is taken by the find string as a wildcard, and is another text. */
  lemma {:induction false} ThinnedMatches(data: SearchData, locale: Locale, s: string, other: char)
    requires FoldChar(data, locale, other) != '?'
    ensures var p, t := Folded(data, locale, s), Folded(data, locale, Thinned(data, locale, s, other));
            && Glob.Matches(WildcardRegex.PlainElems(p), t) && |t| <= |p|
            && ('*' in p ==> |t| < |p|) && ('?' in p ==> t != p)
  {
    if s != "" {
      var rest := Thinned(data, locale, s[1..], other);
      ThinnedMatches(data, locale, s[1..], other);
      assert s == [s[0]] + s[1..];
      FoldedFirst(data, locale, s[0], s[1..]);
      FoldedFirst(data, locale, other, rest);
      FoldedFirst(data, locale, s[0], rest);
      var c := FoldChar(data, locale, s[0]);
      assert "" + rest == rest;
      hide Folded;
      ThinnedStep(c, FoldChar(data, locale, other), Folded(data, locale, s[1..]), Folded(data, locale, rest));
    }
  }

  lemma ThinnedStep(c: char, other: char, p: string, t: string)
    requires other != '?' && Glob.Matches(WildcardRegex.PlainElems(p), t) && |t| <= |p|
    requires ('*' in p ==> |t| < |p|) && ('?' in p ==> t != p)
    ensures var p', t' := [c] + p, if c == '*' then t else [if c == '?' then other else c] + t;
            && Glob.Matches(WildcardRegex.PlainElems(p'), t') && |t'| <= |p'|
            && ('*' in p' ==> |t'| < |p'|) && ('?' in p' ==> t' != p')
  {
    var p' := [c] + p;
    assert p'[1..] == p;
    assert WildcardRegex.PlainElems(p')[1..] == WildcardRegex.PlainElems(p);
    if c != '*' {
      var t' := [if c == '?' then other else c] + t;
      assert t'[1..] == t && t'[..1] == [t'[0]];
    }
  }

  /** A text that the find string takes as a wildcard but that has no occurrence of it, or, without a
      star in it, the other way round. */
  lemma WildcardDiffers(data: SearchData, locale: Locale, other: char) returns (text: string)
    requires data.findString != "" && FoldChar(data, locale, other) != '?'
    ensures var p, t := Folded(data, locale, data.findString), Folded(data, locale, text);
            !(Glob.Matches(WildcardRegex.PlainElems(p), t) <==> CombinedMatcher.Occurs(p, t))
  {
    var s := data.findString;
    var p := Folded(data, locale, s);
    if '*' in p {
      text := Thinned(data, locale, s, other);
      ThinnedMatches(data, locale, s, other);
      CombinedMatcher.WholeText(p, Folded(data, locale, text));
    } else {
      text := [s[0]] + s;
      FoldedFirst(data, locale, s[0], s);
      var t := Folded(data, locale, text);
      assert OccursAt(t, p, 1) by { assert t[1..] == p; }
      if Glob.Matches(WildcardRegex.PlainElems(p), t) { CombinedMatcher.StarFreePattern(p, t); }
    }
  }

  lemma SpecialDiffers(data: SearchData, locale: Locale, other: char) returns (text: string)
    requires FoldChar(data, locale, other) != '?'
    requires var p := Folded(data, locale, data.findString); '*' in p || '?' in p
    ensures var p, t := Folded(data, locale, data.findString), Folded(data, locale, text);
            CombinedMatcher.WildcardFinds(p, t) && !CombinedMatcher.Occurs(p, t)
  {
    text := Thinned(data, locale, data.findString, other);
    ThinnedMatches(data, locale, data.findString, other);
    CombinedMatcher.WholeText(Folded(data, locale, data.findString), Folded(data, locale, text));
  }

  /** A search whose regular expression, if the find string is written as one, finds no text without an
      occurrence of the find string itself. */
  ghost predicate RegexAddsNothing(data: SearchData, locale: Locale, engine: WildcardRegex.Engine) {
    var p := Folded(data, locale, data.findString);
    forall text :: CombinedMatcher.RegexFinds(engine, p, Folded(data, locale, text)) ==>
                     CombinedMatcher.Occurs(p, Folded(data, locale, text))
  }

  /** The searches that look for what Replace replaces. */
  ghost predicate Agrees(data: SearchData, locale: Locale, engine: WildcardRegex.Engine) {
    var p := Folded(data, locale, data.findString);
    match data.matchMode
    case Wildcard => false
    case Permissive => '*' !in p && '?' !in p && RegexAddsNothing(data, locale, engine)
    case _ => true
  }

  lemma PermissiveAgrees(data: SearchData, locale: Locale, engine: WildcardRegex.Engine, other: char)
    requires data.matchMode == Permissive && FoldChar(data, locale, other) != '?'
    ensures (forall text :: QueryOf(data, text, locale).HasMatch() <==> Found(data, text, locale, engine)) <==>
            Agrees(data, locale, engine)
  {
    var p := Folded(data, locale, data.findString);
    forall text
      ensures var t := Folded(data, locale, text);
              (QueryOf(data, text, locale).HasMatch() <==> CombinedMatcher.Occurs(p, t))
              && (Found(data, text, locale, engine) <==> CombinedMatcher.Finds(engine, p, t))
    {
      FoundByMode(data, text, locale, engine);
    }
    hide QueryOf, Found, Folded, CombinedMatcher.RegexFinds, CombinedMatcher.WildcardFinds, CombinedMatcher.Occurs;
    if '*' in p || '?' in p {
      var text := SpecialDiffers(data, locale, other);
      assert !(QueryOf(data, text, locale).HasMatch() <==> Found(data, text, locale, engine));
    } else {
      forall text
        ensures var t := Folded(data, locale, text);
                CombinedMatcher.WildcardFinds(p, t) <==> CombinedMatcher.Occurs(p, t)
      {
        CombinedMatcher.LiteralFinds(p, Folded(data, locale, text));
      }
    }
  }

  /** Exactly when Matches finds the texts that Replace changes, with matching case or without: always
      for plain text and whole words, never for wildcards, and in permissive mode when nothing in the
      folded find string is special. `other` is any character that does not fold to a `?`. */
  lemma SameTextsIff(data: SearchData, locale: Locale, engine: WildcardRegex.Engine, other: char)
    requires data.findString != "" && FoldChar(data, locale, other) != '?'
    ensures SameTexts(data, locale, engine) <==> Agrees(data, locale, engine)
    ensures var p := Folded(data, locale, data.findString);
            data.matchMode == Permissive && !WildcardRegex.WrittenAsRegex(p) ==>
              (SameTexts(data, locale, engine) <==> '*' !in p && '?' !in p)
  {
    SameTextsMeans(data, locale, engine);
    CombinedMatcher.NotWrittenFinds(engine, Folded(data, locale, data.findString));
    hide SameTexts, QueryOf, Found, Folded, CombinedMatcher.RegexFinds;
    if data.matchMode == Permissive {
      PermissiveAgrees(data, locale, engine, other);
    } else if data.matchMode == Wildcard {
      var text := WildcardDiffers(data, locale, other);
      FoundByMode(data, text, locale, engine);
    } else {
      forall text
        ensures QueryOf(data, text, locale).HasMatch() <==> Found(data, text, locale, engine)
      {
        FoundByMode(data, text, locale, engine);
      }
    }
  }

  /** A find string that is a regular expression of the fragment never agrees, when case matches. */
  lemma RegexDiffers(data: SearchData, locale: Locale, engine: WildcardRegex.Engine)
    requires WildcardRegex.Conforms(engine) && data.matchMode == Permissive && data.matchCase
    requires WildcardRegex.WrittenAsRegex(data.findString)
    requires WildcardRegex.Parse(CombinedMatcher.RegexBody(data.findString)).Some?
    ensures !SameTexts(data, locale, engine)
  {
    hide WildcardRegex.Conforms, WildcardRegex.Parse, SameTexts;
    SameTextsMeans(data, locale, engine);
    CombinedMatcher.FindsOccurrencesIff(engine, data.findString);
    var t :| !(CombinedMatcher.Finds(engine, data.findString, t) <==> CombinedMatcher.Occurs(data.findString, t));
    FoundByMode(data, t, locale, engine);
  }

  /** There is only one replacement, and it is an unchanged copy when nothing is replaced. */
  lemma ReplacementUnique(data: SearchData, text: string, locale: Locale, r1: string, c1: bool, r2: string, c2: bool)
    requires data.findString != ""
    requires IsReplacement(data, text, locale, r1, c1) && IsReplacement(data, text, locale, r2, c2)
    ensures r1 == r2 && c1 == c2
    ensures !c1 ==> r1 == text
  {
    var q := QueryOf(data, text, locale);
    var p1 :| q.Leftmost(p1, 0) && InOrder(text, |q.sub|, p1, 0) && c1 == (p1 != [])
              && r1 == Substituted(text, |q.sub|, data.replaceString, p1, 0);
    var p2 :| q.Leftmost(p2, 0) && InOrder(text, |q.sub|, p2, 0) && c2 == (p2 != [])
              && r2 == Substituted(text, |q.sub|, data.replaceString, p2, 0);
    q.LeftmostUnique(p1, 0);
    q.LeftmostUnique(p2, 0);
    assert text[0..] == text;
  }

  lemma {:induction false} SubstitutedLength(text: string, n: nat, repl: string, ps: seq<nat>, from: nat)
    requires InOrder(text, n, ps, from)
    ensures from + |ps| * n <= |text|
    ensures |Substituted(text, n, repl, ps, from)| == |text| - from + |ps| * (|repl| - n)
  {
    if ps != [] {
      SubstitutedLength(text, n, repl, ps[1..], ps[0] + n);
      assert |ps| * n == |ps[1..]| * n + n;
      assert |ps| * (|repl| - n) == |ps[1..]| * (|repl| - n) + (|repl| - n);
    }
  }

  lemma CutInThree(s: string, a: nat, b: nat, c: nat)
    requires a <= b <= c <= |s|
    ensures s[a..] == s[a..b] + s[b..c] + s[c..]
  {}

  lemma {:induction false} SubstitutedSame(q: Query, ps: seq<nat>, from: nat)
    requires InOrder(q.text, |q.sub|, ps, from) && q.Leftmost(ps, from)
    ensures Substituted(q.text, |q.sub|, q.sub, ps, from) == q.text[from..]
  {
    hide Substituted, Query.Leftmost, InOrder, Query.NothingIn, Query.Accepts, OccursAt;
    if ps == [] {
      SubstitutedNone(q.text, |q.sub|, q.sub, from);
    } else {
      var n := |q.sub|;
      PickedPiece(q, ps, from);
      SubstitutedUnfolds(q.text, n, q.sub, ps, from);
      SubstitutedSame(q, ps[1..], ps[0] + n);
      CutInThree(q.text, from, ps[0], ps[0] + n);
    }
  }

  lemma SubstitutedNone(text: string, n: nat, repl: string, from: nat)
    requires InOrder(text, n, [], from)
    ensures from <= |text| && Substituted(text, n, repl, [], from) == text[from..]
  {}

  lemma PickedPiece(q: Query, ps: seq<nat>, from: nat)
    requires ps != [] && q.Leftmost(ps, from)
    ensures from <= ps[0] && ps[0] + |q.sub| <= |q.text| && q.text[ps[0]..ps[0] + |q.sub|] == q.sub
    ensures q.Leftmost(ps[1..], ps[0] + |q.sub|)
  {}

  /** Replacing a string by itself, case and all, changes nothing. */
  lemma ReplaceBySelf(data: SearchData, text: string, locale: Locale, result: string, replaced: bool)
    requires data.findString != "" && data.matchCase && data.replaceString == data.findString
    requires IsReplacement(data, text, locale, result, replaced)
    ensures result == text
  {
    var q := QueryOf(data, text, locale);
    var ps :| q.Leftmost(ps, 0) && InOrder(text, |q.sub|, ps, 0)
              && result == Substituted(text, |q.sub|, data.replaceString, ps, 0);
    SubstitutedSame(q, ps, 0);
    assert text[0..] == text;
  }

  // ----- what the promise means, character by character -----

  /** The find string stands at i when the characters are compared after `fold`. */
  predicate ReadsAt(text: string, sub: string, fold: char -> char, i: int) {
    0 <= i <= |text| - |sub| && forall k :: 0 <= k < |sub| ==> fold(text[i + k]) == fold(sub[k])
  }

  /** Neither neighbour of text[i..j] is a letter, a digit or an underscore. */
  predicate StandsAlone(text: string, alnum: char -> bool, fold: char -> char, i: int, j: int) {
    && 0 <= i <= j <= |text|
    && (i > 0 ==> !alnum(fold(text[i - 1])) && fold(text[i - 1]) != '_')
    && (j < |text| ==> !alnum(fold(text[j])) && fold(text[j]) != '_')
  }

  /** Something to find, with matching case or after both texts are put into upper case. */
  lemma HasMatchMeans(data: SearchData, text: string, locale: Locale)
    ensures var fold := if data.matchCase then ((c: char) => c) else locale.upper;
            var n := |data.findString|;
            QueryOf(data, text, locale).HasMatch() <==>
            exists i :: ReadsAt(text, data.findString, fold, i) &&
                        (data.matchMode == WholeWord ==> i < |text| && StandsAlone(text, locale.alnum, fold, i, i + n))
  {
    var fold := if data.matchCase then ((c: char) => c) else locale.upper;
    var q := QueryOf(data, text, locale);
    hide QueryOf, Query.Accepts, ReadsAt, StandsAlone;
    forall i
      ensures q.Accepts(i) <==>
              ReadsAt(text, data.findString, fold, i) &&
              (data.matchMode == WholeWord ==> StandsAlone(text, locale.alnum, fold, i, i + |data.findString|))
    {
      AcceptsMeans(data, text, locale, fold, i);
    }
  }

  lemma AcceptsMeans(data: SearchData, text: string, locale: Locale, fold: char -> char, i: int)
    requires fold == if data.matchCase then ((c: char) => c) else locale.upper
    ensures QueryOf(data, text, locale).Accepts(i) <==>
            ReadsAt(text, data.findString, fold, i) &&
            (data.matchMode == WholeWord ==> StandsAlone(text, locale.alnum, fold, i, i + |data.findString|))
  {
    OccursIffReads(data, text, locale, fold, i);
    TextFolds(data, text, locale, fold);
    ReadsInside(text, data.findString, fold, i);
    assert QueryOf(data, text, locale).locale == locale;
    hide OccursAt, ReadsAt, QueryOf;
  }

  lemma TextFolds(data: SearchData, text: string, locale: Locale, fold: char -> char)
    requires fold == if data.matchCase then ((c: char) => c) else locale.upper
    ensures forall i :: 0 <= i < |text| ==> QueryOf(data, text, locale).text[i] == fold(text[i])
  {}

  lemma ReadsInside(text: string, sub: string, fold: char -> char, i: int)
    ensures ReadsAt(text, sub, fold, i) ==> 0 <= i <= |text| - |sub|
  {}

  lemma OccursIffReads(data: SearchData, text: string, locale: Locale, fold: char -> char, i: int)
    requires fold == if data.matchCase then ((c: char) => c) else locale.upper
    ensures var q := QueryOf(data, text, locale);
            && OccursAt(q.text, q.sub, i) <==> ReadsAt(text, data.findString, fold, i)
  {
    var q, n := QueryOf(data, text, locale), |data.findString|;
    assert forall k :: 0 <= k < |text| ==> q.text[k] == fold(text[k]);
    assert forall k :: 0 <= k < n ==> q.sub[k] == fold(data.findString[k]);
    hide QueryOf;
    if 0 <= i <= |text| - n {
      var piece := q.text[i..i + n];
      assert forall k :: 0 <= k < n ==> piece[k] == q.text[i + k];
    }
  }

  /** In plain and whole-word mode this is what Matches finds, and what makes Replace report a change. */
  lemma FoundMeans(data: SearchData, text: string, locale: Locale, engine: WildcardRegex.Engine)
    ensures data.matchMode == Plain || data.matchMode == WholeWord ==>
              (Found(data, text, locale, engine) <==> QueryOf(data, text, locale).HasMatch())
    ensures data.matchMode == Plain ==>
              var fold := if data.matchCase then ((c: char) => c) else locale.upper;
              (Found(data, text, locale, engine) <==> exists i :: ReadsAt(text, data.findString, fold, i))
    ensures data.matchMode == WholeWord ==>
              var fold := if data.matchCase then ((c: char) => c) else locale.upper;
              (Found(data, text, locale, engine) <==>
               exists i :: ReadsAt(text, data.findString, fold, i) && i < |text| &&
                           StandsAlone(text, locale.alnum, fold, i, i + |data.findString|))
    ensures data.matchMode == Wildcard ==>
              var p, t := Folded(data, locale, data.findString), Folded(data, locale, text);
              (Found(data, text, locale, engine) <==> exists parts :: WildcardRegex.PlainCut(p, parts, t))
  {
    HasMatchMeans(data, text, locale);
    FoundByMode(data, text, locale, engine);
    WildcardRegex.PlainMeans(Folded(data, locale, data.findString), Folded(data, locale, text));
    hide QueryOf, Query.HasMatch, ReadsAt, StandsAlone, Folded;
  }

  /** A text as the search sees it: as it is, or in upper case. */
  lemma FoldedMeans(data: SearchData, locale: Locale, s: string)
    ensures |Folded(data, locale, s)| == |s|
    ensures data.matchCase ==> Folded(data, locale, s) == s
    ensures !data.matchCase ==> forall i :: 0 <= i < |s| ==> Folded(data, locale, s)[i] == locale.upper(s[i])
  {}

  /** Without matching case, texts and find strings with the same upper case are taken alike: by
      Matches in every mode, and by Replace. */
  lemma CaseIgnored(data: SearchData, sub: string, text: string, text': string, locale: Locale,
                    engine: WildcardRegex.Engine)
    requires !data.matchCase
    requires |text| == |text'| && forall i :: 0 <= i < |text| ==> locale.upper(text[i]) == locale.upper(text'[i])
    requires |sub| == |data.findString|
    requires forall i :: 0 <= i < |sub| ==> locale.upper(sub[i]) == locale.upper(data.findString[i])
    ensures Found(data, text, locale, engine) <==> Found(data.(findString := sub), text', locale, engine)
    ensures data.findString != "" ==>
              forall result, replaced, result', replaced' ::
                IsReplacement(data, text, locale, result, replaced)
                && IsReplacement(data.(findString := sub), text', locale, result', replaced') ==>
                  replaced == replaced'
  {
    var data' := data.(findString := sub);
    assert Folded(data, locale, text) == Folded(data', locale, text');
    assert Folded(data, locale, data.findString) == Folded(data', locale, sub);
    assert QueryOf(data, text, locale) == QueryOf(data', text', locale);
    hide IsReplacement, QueryOf, Query.HasMatch;
    forall result, replaced, result', replaced' | data.findString != ""
      && IsReplacement(data, text, locale, result, replaced) && IsReplacement(data', text', locale, result', replaced')
      ensures replaced == replaced'
    {
      ReplacedIffMatches(data, text, locale, result, replaced);
      ReplacedIffMatches(data', text', locale, result', replaced');
    }
  }

  /** The gaps with the pieces between them. */
  function Woven(gaps: seq<string>, pieces: seq<string>): string
    requires |gaps| == |pieces| + 1
  {
    if pieces == [] then gaps[0] else gaps[0] + pieces[0] + Woven(gaps[1..], pieces[1..])
  }

  /** The gaps with one string between them. */
  function Joined(gaps: seq<string>, between: string): string
    requires gaps != []
  {
    if |gaps| == 1 then gaps[0] else gaps[0] + between + Joined(gaps[1..], between)
  }

  /** The text between the picked places, and at them. */
  function Gaps(text: string, n: nat, ps: seq<nat>, from: nat): (gaps: seq<string>)
    requires InOrder(text, n, ps, from)
    ensures |gaps| == |ps| + 1
  {
    if ps == [] then [text[from..]] else [text[from..ps[0]]] + Gaps(text, n, ps[1..], ps[0] + n)
  }

  function Pieces(text: string, n: nat, ps: seq<nat>, from: nat): (pieces: seq<string>)
    requires InOrder(text, n, ps, from)
    ensures |pieces| == |ps|
  {
    if ps == [] then []
    else
      var rest := Pieces(text, n, ps[1..], ps[0] + n);
      assert ps[0] + n <= |text|;
      [text[ps[0]..ps[0] + n]] + rest
  }

  lemma WeaveFirst(gap: string, piece: string, gaps: seq<string>, pieces: seq<string>, between: string)
    requires |gaps| == |pieces| + 1
    ensures Woven([gap] + gaps, [piece] + pieces) == gap + piece + Woven(gaps, pieces)
    ensures Joined([gap] + gaps, between) == gap + between + Joined(gaps, between)
  {
    assert ([gap] + gaps)[1..] == gaps && ([piece] + pieces)[1..] == pieces;
  }

  lemma {:induction false} CutsWeave(text: string, n: nat, repl: string, ps: seq<nat>, from: nat)
    requires InOrder(text, n, ps, from)
    ensures from <= |text| && text[from..] == Woven(Gaps(text, n, ps, from), Pieces(text, n, ps, from))
    ensures Substituted(text, n, repl, ps, from) == Joined(Gaps(text, n, ps, from), repl)
    decreases |ps|
  {
    hide *;
    if ps == [] {
      CutNone(text, n, repl, from);
    } else {
      CutFirst(text, n, ps, from);
      SubstitutedUnfolds(text, n, repl, ps, from);
      CutsWeave(text, n, repl, ps[1..], ps[0] + n);
      CutInThree(text, from, ps[0], ps[0] + n);
      WeaveFirst(text[from..ps[0]], text[ps[0]..ps[0] + n], Gaps(text, n, ps[1..], ps[0] + n),
                 Pieces(text, n, ps[1..], ps[0] + n), repl);
    }
  }

  lemma CutNone(text: string, n: nat, repl: string, from: nat)
    requires InOrder(text, n, [], from)
    ensures from <= |text| && Gaps(text, n, [], from) == [text[from..]] && Pieces(text, n, [], from) == []
    ensures Woven([text[from..]], []) == Joined([text[from..]], repl) == text[from..]
    ensures Substituted(text, n, repl, [], from) == text[from..]
  {}

  lemma CutFirst(text: string, n: nat, ps: seq<nat>, from: nat)
    requires ps != [] && InOrder(text, n, ps, from)
    ensures from <= ps[0] && ps[0] + n <= |text| && InOrder(text, n, ps[1..], ps[0] + n)
    ensures Gaps(text, n, ps, from) == [text[from..ps[0]]] + Gaps(text, n, ps[1..], ps[0] + n)
    ensures Pieces(text, n, ps, from) == [text[ps[0]..ps[0] + n]] + Pieces(text, n, ps[1..], ps[0] + n)
  {}

  /** Each piece is a picked occurrence. */
  lemma {:induction false} PieceAccepted(q: Query, text: string, ps: seq<nat>, from: nat, k: nat)
    requires InOrder(text, |q.sub|, ps, from) && q.Leftmost(ps, from) && k < |ps|
    ensures q.Accepts(ps[k]) && ps[k] + |q.sub| <= |text|
    ensures Pieces(text, |q.sub|, ps, from)[k] == text[ps[k]..ps[k] + |q.sub|]
    decreases |ps|
  {
    hide Query.Accepts, Query.NothingIn;
    if k > 0 { PieceAccepted(q, text, ps[1..], ps[0] + |q.sub|, k - 1); }
  }

  lemma ReplacementPicks(data: SearchData, text: string, locale: Locale, result: string, replaced: bool)
    returns (ps: seq<nat>)
    requires IsReplacement(data, text, locale, result, replaced)
    ensures var q := QueryOf(data, text, locale);
            && q.Leftmost(ps, 0) && InOrder(text, |q.sub|, ps, 0) && replaced == (ps != [])
            && result == Substituted(text, |q.sub|, data.replaceString, ps, 0)
            && |q.sub| == |data.findString|
  {
    var q := QueryOf(data, text, locale);
    ps :| q.Leftmost(ps, 0) && InOrder(text, |q.sub|, ps, 0) && replaced == (ps != [])
          && result == Substituted(text, |q.sub|, data.replaceString, ps, 0);
  }

  /** A replacement, said of the texts: the text falls into gaps and pieces that read like the find
      string, and the result has the replace string in place of each piece. `fold` is what the search
      makes of a character. */
  lemma ReplacementMeans(data: SearchData, text: string, locale: Locale, fold: char -> char,
                         result: string, replaced: bool)
    returns (gaps: seq<string>, pieces: seq<string>)
    requires fold == if data.matchCase then ((c: char) => c) else locale.upper
    requires IsReplacement(data, text, locale, result, replaced)
    ensures |gaps| == |pieces| + 1 && (replaced <==> pieces != [])
    ensures text == Woven(gaps, pieces) && result == Joined(gaps, data.replaceString)
    ensures forall k :: 0 <= k < |pieces| ==>
              |pieces[k]| == |data.findString| && ReadsAt(pieces[k], data.findString, fold, 0)
  {
    hide *;
    var q, n := QueryOf(data, text, locale), |data.findString|;
    var ps := ReplacementPicks(data, text, locale, result, replaced);
    gaps, pieces := Gaps(text, n, ps, 0), Pieces(text, n, ps, 0);
    CutsWeave(text, n, data.replaceString, ps, 0);
    assert text[0..] == text;
    forall k | 0 <= k < |pieces|
      ensures |pieces[k]| == n && ReadsAt(pieces[k], data.findString, fold, 0)
    {
      PieceAccepted(q, text, ps, 0, k);
      PieceReads(data, text, locale, fold, ps[k]);
    }
  }

  lemma PieceReads(data: SearchData, text: string, locale: Locale, fold: char -> char, i: nat)
    requires fold == if data.matchCase then ((c: char) => c) else locale.upper
    requires i + |data.findString| <= |text| && QueryOf(data, text, locale).Accepts(i)
    ensures ReadsAt(text[i..i + |data.findString|], data.findString, fold, 0)
  {
    OccursIffReads(data, text, locale, fold, i);
    hide QueryOf;
    var piece := text[i..i + |data.findString|];
    assert forall j :: 0 <= j < |data.findString| ==> piece[j] == text[i + j];
  }

  // ----- when the loop does not end -----

  /** One turn of the loop moves from position ii to position jj. */
  ghost predicate Turn(q: Query, ii: nat, jj: nat) {
    && ii < |q.text|
    && exists next ::
      && IsFirstFrom(q.text, q.sub, ii, next)
      && jj == if next == NOT_FOUND then |q.text|
               else if q.Accepts(next) then next + |q.sub|
               else next + 1
  }

  ghost predicate Run(q: Query, run: seq<nat>) {
    && run != [] && run[0] == 0
    && forall k :: 0 <= k < |run| - 1 ==> Turn(q, run[k], run[k + 1])
  }

  lemma {:induction false} StaysBefore(q: Query, run: seq<nat>, stuck: nat, k: nat)
    requires q.sub == "" && q.Accepts(stuck) && Run(q, run) && k < |run|
    ensures run[k] <= stuck
  {
    if k > 0 {
      StaysBefore(q, run, stuck, k - 1);
      assert Turn(q, run[k - 1], run[k]);
      assert OccursAt(q.text, q.sub, run[k - 1]);
    }
  }

  lemma {:induction false} FirstExists(text: string, sub: string, from: nat, to: nat) returns (r: int)
    requires from <= to && forall i | from <= i < to :: !OccursAt(text, sub, i)
    ensures IsFirstFrom(text, sub, from, r)
    decreases |text| - to
  {
    if to > |text| {
      r := NOT_FOUND;
    } else if OccursAt(text, sub, to) {
      r := to;
    } else {
      r := FirstExists(text, sub, from, to + 1);
    }
  }

  lemma {:induction false} RunsToEnd(q: Query, run: seq<nat>) returns (full: seq<nat>)
    requires (q.sub != "" || q.NothingIn(0, |q.text|)) && Run(q, run)
    ensures Run(q, full) && full[|full| - 1] >= |q.text|
    decreases |q.text| - run[|run| - 1]
  {
    var ii := run[|run| - 1];
    if ii >= |q.text| {
      full := run;
    } else {
      var next := FirstExists(q.text, q.sub, ii, ii);
      if q.sub == "" { assert OccursAt(q.text, q.sub, ii); }
      var jj: nat := if next == NOT_FOUND then |q.text| else if q.Accepts(next) then next + |q.sub| else next + 1;
      assert Turn(q, ii, jj);
      full := RunsToEnd(q, run + [jj]);
    }
  }

  /** Replace terminates exactly when the find string is not empty or is nowhere accepted: with an
      accepted empty string no number of turns takes the loop to the end of the text. */
  lemma EndsIff(data: SearchData, text: string, locale: Locale)
    ensures Ends(data, text, locale) <==>
            exists run :: Run(QueryOf(data, text, locale), run) && run[|run| - 1] >= |text|
  {
    var q := QueryOf(data, text, locale);
    if Ends(data, text, locale) {
      var run := RunsToEnd(q, [0]);
    } else {
      var stuck :| 0 <= stuck < |text| && q.Accepts(stuck);
      forall run | Run(q, run)
        ensures run[|run| - 1] < |text|
      {
        StaysBefore(q, run, stuck, |run| - 1);
      }
    }
  }

  /** In plain mode an empty find string hangs on any text but the empty one. */
  lemma EmptyFindHangs(data: SearchData, text: string, locale: Locale)
    requires data.findString == "" && !data.matchMode.WholeWord?
    ensures Ends(data, text, locale) <==> text == ""
  {
    var q := QueryOf(data, text, locale);
    if text != "" {
      assert q.Accepts(0);
    }
  }
}
