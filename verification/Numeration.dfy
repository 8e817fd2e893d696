/** Positional numeration over an alphabet, in the ordinary way (9, 10, 11) or the spreadsheet way
    (Z, AA, AB), where every column but the last has no zero. */
module Numeration {

  datatype Scheme = Scheme(alphabet: string, start0: bool) {

    predicate Valid() {
      |alphabet| >= 2 && forall i, j | 0 <= i < j < |alphabet| :: alphabet[i] != alphabet[j]
    }

    /** What a letter counts for more in the columns other than the last. */
    function Bump(): nat {
      if start0 then 1 else 0
    }

    predicate Spells(s: string) {
      forall i :: 0 <= i < |s| ==> s[i] in alphabet
    }

    function Digit(c: char): (d: nat)
      requires c in alphabet
      ensures d < |alphabet| && alphabet[d] == c
    {
      IndexOf(alphabet, c)
    }

    /** Appending a column with digit d to the columns that stand for h. */
    function Column(h: nat, d: nat): nat {
      h * |alphabet| + d
    }

    // ----- what a string stands for -----

    function HighValue(s: string): nat
      requires Spells(s)
    {
      if s == "" then 0
      else Column(HighValue(s[..|s| - 1]), Digit(s[|s| - 1]) + Bump())
    }

    function Value(s: string): nat
      requires s != "" && Spells(s)
    {
      Column(HighValue(s[..|s| - 1]), Digit(s[|s| - 1]))
    }

    /** Reading one more column. */
    lemma ReadColumn(s: string, i: nat)
      requires i < |s| && Spells(s[..i])
      ensures s[i] !in alphabet ==> !Spells(s)
      ensures s[i] in alphabet ==>
                && Spells(s[..i + 1])
                && HighValue(s[..i + 1]) == HighValue(s[..i]) * |alphabet| + (Digit(s[i]) + Bump())
                && Value(s[..i + 1]) == HighValue(s[..i]) * |alphabet| + Digit(s[i])
    {
      if s[i] in alphabet {
        var t := s[..i + 1];
        assert t[..i] == s[..i] && t[i] == s[i];
        LastColumn(t);
      }
    }

    lemma LastColumn(t: string)
      requires t != "" && Spells(t[..|t| - 1]) && t[|t| - 1] in alphabet
      ensures var n := |t| - 1;
              && Spells(t)
              && HighValue(t) == HighValue(t[..n]) * |alphabet| + (Digit(t[n]) + Bump())
              && Value(t) == HighValue(t[..n]) * |alphabet| + Digit(t[n])
    {
      assert forall k :: 0 <= k < |t| - 1 ==> t[k] == t[..|t| - 1][k];
    }

    // ----- the name of a number -----

    function HighName(q: nat): string
      requires Valid()
    {
      if q == 0 then ""
      else
        assert Quotient(q - Bump()) < q by { QuotientLess(q); }
        HighName(Quotient(q - Bump())) + [alphabet[Remainder(q - Bump())]]
    }

    function Name(v: nat): string
      requires Valid()
    {
      HighName(Quotient(v)) + [alphabet[Remainder(v)]]
    }

    function Quotient(v: nat): nat
      requires Valid()
    {
      v / |alphabet|
    }

    function Remainder(v: nat): (m: nat)
      requires Valid()
      ensures m < |alphabet|
    {
      v % |alphabet|
    }

    lemma QuotientLess(q: nat)
      requires Valid() && q > 0
      ensures Quotient(q - Bump()) < q
    {}

    lemma Recompose(v: nat)
      requires Valid()
      ensures Column(Quotient(v), Remainder(v)) == v
    {}

    lemma Decompose(h: nat, d: nat)
      requires Valid() && d < |alphabet|
      ensures Quotient(Column(h, d)) == h && Remainder(Column(h, d)) == d
    {
      DivModUnique(h, d, |alphabet|);
    }

    lemma ColumnBasics(h: nat, d: nat)
      requires Valid()
      ensures Column(h, d + 1) == Column(h, d) + 1
      ensures h > 0 ==> Column(h, d) > 0
      ensures Column(0, d) == d
    {}

    lemma DigitOfLetter(k: nat)
      requires Valid() && k < |alphabet|
      ensures alphabet[k] in alphabet && Digit(alphabet[k]) == k
    {}

    // ----- reading and naming are inverse -----

    lemma {:induction false} HighValueOfName(q: nat)
      requires Valid()
      ensures Spells(HighName(q)) && HighValue(HighName(q)) == q
    {
      if q > 0 {
        var p := q - Bump();
        QuotientLess(q);
        HighValueOfName(Quotient(p));
        DigitOfLetter(Remainder(p));
        Recompose(p);
        ColumnBasics(Quotient(p), Remainder(p));
        AppendLetter(HighName(Quotient(p)), Remainder(p));
      }
    }

    lemma AppendLetter(s: string, d: nat)
      requires Valid() && Spells(s) && d < |alphabet|
      ensures Spells(s + [alphabet[d]])
      ensures HighValue(s + [alphabet[d]]) == Column(HighValue(s), d + Bump())
      ensures Value(s + [alphabet[d]]) == Column(HighValue(s), d)
    {
      DigitOfLetter(d);
      assert (s + [alphabet[d]])[..|s|] == s;
    }

    /** Reading a name gives the number back. */
    lemma ValueOfName(v: nat)
      requires Valid()
      ensures Name(v) != "" && Spells(Name(v)) && Value(Name(v)) == v
    {
      HighValueOfName(Quotient(v));
      Recompose(v);
      AppendLetter(HighName(Quotient(v)), Remainder(v));
    }

    /** No zero in front; letters have no zero in the high columns. */
    predicate NoLeadingZero(s: string)
      requires Valid()
    {
      start0 || s == "" || s[0] != alphabet[0]
    }

    /** A string that is the only one for its number: no leading zero, except for zero itself. */
    predicate Canonical(s: string)
      requires Valid()
    {
      |s| <= 1 || NoLeadingZero(s)
    }

    lemma {:induction false} HighValuePositive(s: string)
      requires Valid() && s != "" && Spells(s) && NoLeadingZero(s)
      ensures HighValue(s) > 0
    {
      var n := |s| - 1;
      var d := Digit(s[n]) + Bump();
      ColumnBasics(HighValue(s[..n]), d);
      if n > 0 {
        HighValuePositive(s[..n]);
      } else {
        assert start0 || d > 0;
        assert s[..n] == "";
      }
      hide Column, Digit;
    }

    lemma HighNameUnfolds(q: nat, h: nat, d: nat)
      requires Valid() && q > 0 && Quotient(q - Bump()) == h && Remainder(q - Bump()) == d
      ensures HighName(q) == HighName(h) + [alphabet[d]]
    {}

    lemma {:induction false} HighNameOfValue(s: string)
      requires Valid() && Spells(s) && NoLeadingZero(s)
      ensures HighName(HighValue(s)) == s
    {
      if s != "" {
        var n := |s| - 1;
        LastLetter(s);
        hide Valid, Spells, NoLeadingZero, Column, Quotient, Remainder, HighValue, HighName, Bump;
        var h, d := HighValue(s[..n]), Digit(s[n]);
        HighNameOfValue(s[..n]);
        HighValuePositive(s);
        HighValueLast(s, h, d);
        ColumnBasics(h, d);
        ColumnBasics(h, d + Bump());
        BumpedColumn(h, d);
        HighNameUnfolds(HighValue(s), h, d);
      }
    }

    lemma LastLetter(s: string)
      requires Valid() && s != "" && Spells(s)
      ensures var n := |s| - 1; Spells(s[..n]) && s[n] in alphabet && s == s[..n] + [s[n]]
      ensures NoLeadingZero(s) ==> NoLeadingZero(s[..|s| - 1])
    {}

    lemma BumpedColumn(h: nat, d: nat)
      requires Valid() && d < |alphabet|
      ensures var q := Column(h, d + Bump()); q >= Bump() && Quotient(q - Bump()) == h && Remainder(q - Bump()) == d
    {
      Decompose(h, d);
      ColumnBasics(h, d);
      hide Quotient, Remainder;
    }

    lemma HighValueLast(s: string, h: nat, d: nat)
      requires s != "" && Spells(s) && h == HighValue(s[..|s| - 1]) && d == Digit(s[|s| - 1])
      ensures HighValue(s) == Column(h, d + Bump())
    {}

    lemma NameUnfolds(s: string)
      requires Valid() && s != "" && Spells(s)
      ensures Name(Value(s)) == HighName(HighValue(s[..|s| - 1])) + [s[|s| - 1]]
    {
      Decompose(HighValue(s[..|s| - 1]), Digit(s[|s| - 1]));
      hide Column, Quotient, Remainder, HighValue, HighName;
    }

    /** Naming what a canonical string stands for gives the string back. With ValueOfName, reading is
        a bijection from the non-empty canonical strings onto the naturals; in a spreadsheet scheme
        every string over the alphabet is canonical. */
    lemma NameOfValue(s: string)
      requires Valid() && s != "" && Spells(s)
      ensures Name(Value(s)) == s <==> Canonical(s)
      ensures start0 ==> Canonical(s)
    {
      var front := s[..|s| - 1];
      assert s == front + [s[|s| - 1]];
      NameUnfolds(s);
      if Canonical(s) {
        HighNameOfValue(front);
      } else {
        HighNameNoLeadingZero(HighValue(front));
        assert front[0] == s[0];
      }
      hide Valid, Spells, HighValue, Value, Name, HighName;
    }

    lemma {:induction false} HighNameNoLeadingZero(q: nat)
      requires Valid()
      ensures NoLeadingZero(HighName(q))
    {
      if q > 0 && !start0 {
        QuotientLess(q);
        HighNameNoLeadingZero(Quotient(q));
        Recompose(q);
      }
    }

    // ----- reading keeps the order -----

    /** At their first difference s has the lesser letter. */
    ghost predicate LexBefore(s: string, t: string)
      requires Spells(s) && Spells(t)
    {
      exists k :: 0 <= k < |s| && k < |t| && s[..k] == t[..k] && Digit(s[k]) < Digit(t[k])
    }

    /** Shorter, or as long and lexicographically less. */
    ghost predicate Before(s: string, t: string)
      requires Spells(s) && Spells(t)
    {
      |s| < |t| || (|s| == |t| && LexBefore(s, t))
    }

    lemma ColumnLess(h: nat, d: nat, h': nat, d': nat)
      requires h < h' && d < |alphabet| + d'
      ensures Column(h, d) < Column(h', d')
    {
      MultipleIsLarge(h' - h, |alphabet|);
    }

    lemma ColumnSame(h: nat, d: nat, d': nat)
      ensures Column(h, d) < Column(h, d') <==> d < d'
    {}

    lemma BeforeFront(s: string, t: string)
      requires Spells(s) && Spells(t) && s != "" && Before(s, t)
      ensures var m, n := |s| - 1, |t| - 1;
              && n >= 0 && Spells(s[..m]) && Spells(t[..n]) && s[m] in alphabet && t[n] in alphabet
              && (Before(s[..m], t[..n]) || (s[..m] == t[..n] && Digit(s[m]) < Digit(t[n])))
    {
      LastLetterIn(s);
      LastLetterIn(t);
      if |s| == |t| {
        var k :| 0 <= k < |s| && k < |t| && s[..k] == t[..k] && Digit(s[k]) < Digit(t[k]);
        LexBeforeFront(s, t, k);
      }
    }

    lemma LastLetterIn(s: string)
      requires Spells(s)
      ensures s != "" ==> Spells(s[..|s| - 1]) && s[|s| - 1] in alphabet
    {}

    lemma LexBeforeFront(s: string, t: string, k: nat)
      requires Spells(s) && Spells(t) && |s| == |t| && k < |s| && s[..k] == t[..k] && Digit(s[k]) < Digit(t[k])
      ensures var m := |s| - 1;
              && Spells(s[..m]) && Spells(t[..m])
              && (k < m ==> LexBefore(s[..m], t[..m])) && (k == m ==> s[..m] == t[..m])
    {
      hide Digit;
      var m := |s| - 1;
      if k < m {
        assert s[..m][..k] == s[..k] && t[..m][..k] == t[..k];
        assert s[..m][k] == s[k] && t[..m][k] == t[k];
      }
    }

    lemma {:induction false} HighValueBefore(s: string, t: string)
      requires Valid() && Spells(s) && Spells(t) && Before(s, t) && (|s| < |t| ==> NoLeadingZero(t))
      ensures HighValue(s) < HighValue(t)
      decreases |s|
    {
      if s == "" {
        HighValuePositive(t);
      } else {
        var m, n := |s| - 1, |t| - 1;
        BeforeFront(s, t);
        LastColumn(s);
        LastColumn(t);
        hide Spells, HighValue, LexBefore;
        var d, d' := Digit(s[m]) + Bump(), Digit(t[n]) + Bump();
        if s[..m] == t[..n] {
          ColumnSame(HighValue(s[..m]), d, d');
        } else {
          if |s| < |t| { assert t[..n][0] == t[0]; }
          HighValueBefore(s[..m], t[..n]);
          ColumnLess(HighValue(s[..m]), d, HighValue(t[..n]), d');
        }
      }
    }

    /** The canonical strings stand for the numbers in the order of their lengths and, among equal
        lengths, of their letters. */
    lemma ValueBefore(s: string, t: string)
      requires Valid() && s != "" && t != "" && Spells(s) && Spells(t) && Canonical(t) && Before(s, t)
      ensures Value(s) < Value(t)
    {
      var m, n := |s| - 1, |t| - 1;
      BeforeFront(s, t);
      hide Spells, HighValue, LexBefore;
      if s[..m] == t[..n] {
        ColumnSame(HighValue(s[..m]), Digit(s[m]), Digit(t[n]));
      } else {
        if |s| < |t| { assert t[..n][0] == t[0]; }
        HighValueBefore(s[..m], t[..n]);
        ColumnLess(HighValue(s[..m]), Digit(s[m]), HighValue(t[..n]), Digit(t[n]));
      }
    }

    lemma OneColumn(k: nat)
      requires Valid() && k < |alphabet|
      ensures Name(k) == [alphabet[k]] && Encodable(k)
    {
      Decompose(0, k);
      ColumnBasics(0, k);
    }

    /** The number that the letter of digit k, written twice, stands for. */
    function Twice(k: nat): nat {
      Column(k + Bump(), k)
    }

    lemma NameOfTwice(k: nat)
      requires Valid() && k + Bump() < |alphabet| && (start0 || k > 0)
      ensures Name(Twice(k)) == [alphabet[k], alphabet[k]] && Encodable(Twice(k))
    {
      var q := k + Bump();
      Decompose(q, k);
      Decompose(0, k);
      Decompose(0, q);
      ColumnBasics(0, k);
      ColumnBasics(0, q);
      hide Quotient, Remainder;
      HighNameUnfolds(q, 0, k);
      assert NoZeroColumn(0) && NoZeroColumn(q);
    }

    // ----- the numbers the encoder can name -----

    /** Every column but the last has a digit other than zero. */
    predicate NoZeroColumn(q: nat)
      requires Valid()
    {
      q == 0 || (Remainder(q) != 0 && (QuotientBelow(q); NoZeroColumn(Quotient(q))))
    }

    lemma QuotientBelow(q: nat)
      requires Valid() && q > 0
      ensures Quotient(q) < q
    {}

    predicate Encodable(v: int)
      requires Valid()
    {
      v >= 0 && (start0 ==> NoZeroColumn(Quotient(v)))
    }

    lemma {:induction false} NoZeroColumnIff(q: nat)
      requires Valid()
      ensures NoZeroColumn(q) <==> alphabet[0] !in Scheme(alphabet, false).HighName(q)
    {
      var plain := Scheme(alphabet, false);
      assert plain.Valid() && plain.Bump() == 0;
      if q > 0 {
        QuotientBelow(q);
        NoZeroColumnIff(Quotient(q));
        assert plain.Quotient(q) == Quotient(q) && plain.Remainder(q) == Remainder(q);
        plain.HighNameUnfolds(q, Quotient(q), Remainder(q));
        hide Quotient, Remainder;
        var front, letter := plain.HighName(Quotient(q)), alphabet[Remainder(q)];
        assert forall c :: c in front + [letter] <==> c in front || c == letter;
      }
    }

    /** The numbers a spreadsheet scheme can encode are those whose ordinary numeral over the same
        letters has no zero but, maybe, in the last column. */
    lemma EncodableIff(v: nat)
      requires Valid()
      ensures var numeral := Scheme(alphabet, false).Name(v);
              Encodable(v) <==> (start0 ==> alphabet[0] !in numeral[..|numeral| - 1])
    {
      var plain := Scheme(alphabet, false);
      var numeral := plain.Name(v);
      NoZeroColumnIff(Quotient(v));
      assert plain.Quotient(v) == Quotient(v);
      assert numeral[..|numeral| - 1] == plain.HighName(plain.Quotient(v));
    }

    /** A spreadsheet scheme is encoded without a gap up to its radix squared, and no further. */
    lemma EncodableBelowSquare(v: nat)
      requires Valid() && start0
      ensures v < |alphabet| * |alphabet| ==> Encodable(v)
      ensures v == |alphabet| * |alphabet| ==> !Encodable(v)
    {
      var r := |alphabet|;
      var q := Quotient(v);
      Recompose(v);
      if v < r * r {
        assert (q - r) * r < 0;
        MultipleIsLarge(q - r, r);
        Decompose(0, q);
        ColumnBasics(0, q);
      } else if v == r * r {
        Decompose(r, 0);
        Decompose(1, 0);
        assert Column(1, 0) == r && Remainder(r) == 0 && q == r;
      }
    }
  }

  lemma DivModUnique(h: nat, d: nat, r: nat)
    requires d < r
    ensures (h * r + d) / r == h && (h * r + d) % r == d
  {
    var q := (h * r + d) / r;
    assert (q - h) * r == d - (h * r + d) % r;
    MultipleIsLarge(q - h, r);
  }

  lemma MultipleIsLarge(k: int, r: nat)
    ensures k >= 1 ==> k * r >= r
    ensures k <= -1 ==> k * r <= 0 - r
  {}

  /** The first index of a character, as wxString::Find gives it; -1 when there is none. */
  function IndexOf(a: string, c: char): (k: int)
    ensures if c in a then 0 <= k < |a| && a[k] == c && c !in a[..k] else k == -1
  {
    if a == "" then -1
    else if a[0] == c then 0
    else
      var k := IndexOf(a[1..], c);
      if k == -1 then -1
      else
        assert a[..k + 1] == [a[0]] + a[1..][..k];
        k + 1
  }
}
