/** Where the directory matcher (common/common.cpp) and the anchored compiled wildcard
    (common/eda_pattern_match.cpp) agree. */
module WildcardEngines {
  import opened Glob
  import MatchWild
  import opened WildcardRegex

  // ----- patterns without a backslash -----

  lemma {:induction false} BackslashFreeReadsPlain(p: string)
    requires '\\' !in p
    ensures MatchWild.Elems(p) == PlainElems(p)
  {
    if p != "" {
      BackslashFreeReadsPlain(p[1..]);
    }
  }

  lemma {:induction false} MatchesEmpty(p: string)
    ensures Matches(PlainElems(p), "") <==> forall i :: 0 <= i < |p| ==> p[i] == '*'
  {
    if p != "" {
      MatchesEmpty(p[1..]);
      assert PlainElems(p)[1..] == PlainElems(p[1..]);
      assert forall i :: 0 <= i < |p| - 1 ==> p[1..][i] == p[i + 1];
      if forall i :: 0 <= i < |p[1..]| ==> p[1..][i] == '*' {
        forall i | 0 < i < |p| ensures p[i] == '*' { assert p[1..][i - 1] == '*'; }
      }
    }
  }

  /** Exactly where the two differ, for a pattern without a backslash: on the empty text with a
      pattern of stars only, and on hidden names. A caller with any other text gets one answer. */
  lemma EnginesAgreeIff(p: string, t: string, dotSpecial: bool, r: FindResult)
    requires '\\' !in p
    requires IsSearchResult(Regex(true, ItemsOf(PlainElems(p)), true), t, r)
    ensures (MatchWild.Accepts(p, t, dotSpecial) <==> r.Found?) <==>
            !(t == "" && p != "" && forall i :: 0 <= i < |p| ==> p[i] == '*')
            && !(dotSpecial && t != "" && t[0] == '.' && Matches(PlainElems(p), t))
    ensures t != "" && (!dotSpecial || t[0] != '.') ==> (MatchWild.Accepts(p, t, dotSpecial) <==> r.Found?)
  {
    BackslashFreeReadsPlain(p);
    MatchesEmpty(p);
    AnchoredFinds(p, t, r);
  }

  // ----- patterns with a backslash -----

  function Backslashes(s: string): nat {
    if s == "" then 0 else (if s[0] == '\\' then 1 else 0) + Backslashes(s[1..])
  }

  /** Read plainly, a backslash stands for itself, so a text has at least those of the pattern. */
  lemma {:induction false} PlainKeepsBackslashes(p: string, t: string)
    requires Matches(PlainElems(p), t)
    ensures Backslashes(t) >= Backslashes(p)
    decreases |p| + |t|
  {
    if p != "" {
      assert PlainElems(p)[1..] == PlainElems(p[1..]);
      if p[0] == '*' && !Matches(PlainElems(p[1..]), t) {
        PlainKeepsBackslashes(p, t[1..]);
      } else if p[0] == '*' {
        PlainKeepsBackslashes(p[1..], t);
      } else {
        PlainKeepsBackslashes(p[1..], t[1..]);
      }
    }
  }

  /** The shortest text of a pattern. */
  function Shortest(es: seq<Elem>): string {
    if es == [] then ""
    else (match es[0] case Lit(c) => [c] case One => "x" case _ => "") + Shortest(es[1..])
  }

  lemma {:induction false} ShortestMatches(es: seq<Elem>)
    requires Never !in es
    ensures Matches(es, Shortest(es))
    ensures (exists c :: Lit(c) in es) ==> Shortest(es) != ""
  {
    if es != [] {
      ShortestMatches(es[1..]);
      var front := match es[0] case Lit(c) => [c] case One => "x" case _ => "";
      assert Shortest(es)[|front|..] == Shortest(es[1..]);
      assert es == [es[0]] + es[1..];
    }
  }

  lemma {:induction false} NeverMatchesNothing(es: seq<Elem>, t: string)
    requires Never in es
    ensures !Matches(es, t)
    decreases |es| + |t|
  {
    assert es == [es[0]] + es[1..];
    if es[0].Star? {
      NeverMatchesNothing(es[1..], t);
      if t != "" { NeverMatchesNothing(es, t[1..]); }
    } else if es[0] != Never && t != "" {
      NeverMatchesNothing(es[1..], t[1..]);
    }
  }

  /** Quoting spends the backslash: the shortest text has fewer than the pattern. */
  lemma {:induction false} QuotingSpendsBackslashes(p: string)
    requires Never !in MatchWild.Elems(p)
    ensures Backslashes(Shortest(MatchWild.Elems(p))) <= Backslashes(p)
    ensures '\\' in p ==>
              && Backslashes(Shortest(MatchWild.Elems(p))) < Backslashes(p)
              && exists c :: Lit(c) in MatchWild.Elems(p)
    ensures MatchWild.CString(p) ==> MatchWild.CString(Shortest(MatchWild.Elems(p)))
  {
    var es := MatchWild.Elems(p);
    if p != "" {
      assert es == [es[0]] + es[1..];
      var front := match es[0] case Lit(c) => [c] case One => "x" case _ => "";
      BackslashesAppend(front, Shortest(es[1..]));
      if p[0] == '\\' {
        assert es[0] == Lit(p[1]);
        QuotingSpendsBackslashes(p[2..]);
        assert Backslashes(p) == 1 + Backslashes(front) + Backslashes(p[2..]) by { assert p[1..][1..] == p[2..]; }
      } else {
        QuotingSpendsBackslashes(p[1..]);
      }
    }
  }

  lemma {:induction false} BackslashesAppend(a: string, b: string)
    ensures Backslashes(a + b) == Backslashes(a) + Backslashes(b)
  {
    if a == "" {
      assert a + b == b;
    } else {
      assert (a + b)[1..] == a[1..] + b;
      BackslashesAppend(a[1..], b);
    }
  }

  lemma {:induction false} PlainElemsOf(p: string)
    ensures Never !in PlainElems(p)
    ensures '\\' in p ==> Lit('\\') in PlainElems(p)
    ensures MatchWild.CString(p) ==> MatchWild.CString(Shortest(PlainElems(p)))
  {
    if p != "" {
      PlainElemsOf(p[1..]);
      assert p == [p[0]] + p[1..];
      assert PlainElems(p) == [PlainElem(p[0])] + PlainElems(p[1..]);
      assert PlainElems(p)[1..] == PlainElems(p[1..]);
    }
  }

  /** A text on which the engines differ. */
  lemma Disagreement(p: string) returns (t: string)
    requires '\\' in p
    ensures t != "" && !(MatchWild.Accepts(p, t, false) <==> Matches(PlainElems(p), t))
    ensures MatchWild.CString(p) ==> MatchWild.CString(t)
  {
    PlainElemsOf(p);
    if Never in MatchWild.Elems(p) {
      t := Shortest(PlainElems(p));
      ShortestMatches(PlainElems(p));
      NeverMatchesNothing(MatchWild.Elems(p), t);
    } else {
      t := Shortest(MatchWild.Elems(p));
      QuotingSpendsBackslashes(p);
      ShortestMatches(MatchWild.Elems(p));
      if Matches(PlainElems(p), t) { PlainKeepsBackslashes(p, t); }
    }
  }

  /** The engines read a pattern in the same way exactly when it has no backslash, for one a quote and
      for the other a character like any other. */
  lemma SameReadingIff(p: string)
    ensures (forall t :: t != "" ==> (MatchWild.Accepts(p, t, false) <==> Matches(PlainElems(p), t))) <==> '\\' !in p
    ensures MatchWild.CString(p) ==>
              ((forall t :: t != "" && MatchWild.CString(t) ==>
                              (MatchWild.Accepts(p, t, false) <==> Matches(PlainElems(p), t))) <==> '\\' !in p)
  {
    if '\\' in p {
      var t := Disagreement(p);
    } else {
      BackslashFreeReadsPlain(p);
    }
  }
}
