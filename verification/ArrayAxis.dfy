/** common/array_axis.cpp: the numbering of items along one axis of an array. */
module ArrayAxis {
  import opened Wrappers
  import opened Numeration

  datatype NumberingType = Numeric | Hex | AlphaNoIOSQXZ | AlphaFull

  function Alphabet(t: NumberingType): string {
    match t
    case Numeric => "0123456789"
    case Hex => "0123456789ABCDEF"
    case AlphaNoIOSQXZ => "ABCDEFGHJKLMNPRTUVWY"
    case AlphaFull => "ABCDEFGHIJKLMNOPQRSTUVWXYZ"
  }

  /** The columns other than the last count from 1. */
  predicate Lettered(t: NumberingType) {
    t.AlphaFull? || t.AlphaNoIOSQXZ?
  }

  function SchemeOf(t: NumberingType): Scheme {
    Scheme(Alphabet(t), Lettered(t))
  }

  predicate Ascending(a: string) {
    forall k | 0 <= k < |a| - 1 :: a[k] < a[k + 1]
  }

  lemma AlphabetAscending(t: NumberingType)
    ensures Ascending(Alphabet(t)) && |Alphabet(t)| >= 2
  {
    if Lettered(t) { LettersAscending(t); }
  }

  lemma LettersAscending(t: NumberingType)
    requires Lettered(t)
    ensures Ascending(Alphabet(t)) && |Alphabet(t)| >= 2
  {}

  /** The letters of the four alphabets; they stand in the order of the characters. */
  lemma AlphabetLetters(t: NumberingType, c: char)
    ensures c in Alphabet(Numeric) <==> '0' <= c <= '9'
    ensures c in Alphabet(Hex) <==> '0' <= c <= '9' || 'A' <= c <= 'F'
    ensures c in Alphabet(AlphaFull) <==> 'A' <= c <= 'Z'
    ensures c in Alphabet(AlphaNoIOSQXZ) <==> 'A' <= c <= 'Z' && c !in {'I', 'O', 'S', 'Q', 'X', 'Z'}
    ensures forall i, j :: 0 <= i < j < |Alphabet(t)| ==> Alphabet(t)[i] < Alphabet(t)[j]
  {
    LettersOf(c);
    AlphabetAscending(t);
    hide Alphabet;
    forall i, j | 0 <= i < j < |Alphabet(t)|
      ensures Alphabet(t)[i] < Alphabet(t)[j]
    {
      AscendingPair(Alphabet(t), i, j);
    }
  }

  lemma LettersOf(c: char)
    ensures c in Alphabet(Numeric) <==> '0' <= c <= '9'
    ensures c in Alphabet(Hex) <==> '0' <= c <= '9' || 'A' <= c <= 'F'
    ensures c in Alphabet(AlphaFull) <==> 'A' <= c <= 'Z'
    ensures c in Alphabet(AlphaNoIOSQXZ) <==> 'A' <= c <= 'Z' && c !in {'I', 'O', 'S', 'Q', 'X', 'Z'}
  {}

  /** The alphabets are ascending, so no letter occurs twice. */
  lemma SchemeValid(t: NumberingType)
    ensures SchemeOf(t).Valid()
  {
    AlphabetAscending(t);
    hide Alphabet;
    var a := Alphabet(t);
    forall i, j | 0 <= i < j < |a|
      ensures a[i] != a[j]
    {
      AscendingPair(a, i, j);
    }
  }

  lemma {:induction false} AscendingPair(a: string, i: nat, j: nat)
    requires i < j < |a| && Ascending(a)
    ensures a[i] < a[j]
    decreases j
  {
    if i < j - 1 {
      AscendingPair(a, i, j - 1);
    }
  }

  /** C++ division and remainder: toward zero, the remainder taking the sign of the dividend. */
  function TruncDiv(n: int, r: int): int
    requires r > 0
  {
    if n >= 0 then n / r else -((-n) / r)
  }

  function TruncMod(n: int, r: int): int
    requires r > 0
  {
    n - TruncDiv(n, r) * r
  }

  lemma TruncNegative(n: int, r: int)
    requires r >= 2 && n < 0
    ensures TruncMod(n, r) <= 0
    ensures TruncMod(n, r) == 0 ==> n < TruncDiv(n, r) < 0
  {}

  /** The fields of an axis, its type read as an alphabet and a way of counting. */
  datatype Settings = Settings(scheme: Scheme, offset: int, step: int) {

    function Number(n: int): int {
      offset + step * n
    }

    /** What GetItemNumber promises: the name of the item's number, when the number has one that
        the encoder reaches; None stands for an index outside the alphabet. */
    function Label(n: int): Option<string>
      requires scheme.Valid()
    {
      if scheme.Encodable(Number(n)) then Some(scheme.Name(Number(n))) else None
    }
  }

  function Decoded(scheme: Scheme, str: string): Option<int> {
    if str != "" && scheme.Spells(str) then Some(scheme.Value(str)) else None
  }

  class Axis {
    var kind: NumberingType
    var offset: int
    var step: int

    ghost function Current(): Settings
      reads this
    {
      Settings(SchemeOf(kind), offset, step)
    }

    constructor ()
      ensures Current() == Settings(SchemeOf(Numeric), 0, 1)
    {
      kind, offset, step := Numeric, 0, 1;
    }

    method GetNumberingOffset(str: string) returns (r: Option<int>)
      ensures r == Decoded(SchemeOf(kind), str)
    {
      if |str| == 0 {
        return None;
      }
      var alphabet := Alphabet(kind);
      var value := 0;
      var radix := |alphabet|;
      ghost var scheme := SchemeOf(kind);
      hide Alphabet;
      for i := 0 to |str|
        invariant scheme.Spells(str[..i])
        invariant i < |str| ==> value == scheme.HighValue(str[..i])
        invariant i == |str| ==> value == scheme.Value(str[..i])
      {
        scheme.ReadColumn(str, i);
        var chIndex := IndexOf(alphabet, str[i]);
        if chIndex == -1 {
          return None;
        }
        var start0 := kind.AlphaFull? || kind.AlphaNoIOSQXZ?;
        if start0 && i < |str| - 1 {
          chIndex := chIndex + 1;
        }
        value := value * radix;
        value := value + chIndex;
      }
      assert str[..|str|] == str;
      return Some(value);
    }

    method SetAxisType(t: NumberingType)
      modifies this`kind
      ensures kind == t
    {
      kind := t;
    }

    method SetOffset(o: int)
      modifies this`offset
      ensures offset == o
    {
      offset := o;
    }

    method SetOffsetName(name: string) returns (ok: bool)
      modifies this`offset
      ensures ok <==> Decoded(SchemeOf(kind), name).Some?
      ensures offset == if ok then Decoded(SchemeOf(kind), name).value else old(offset)
    {
      var o := GetNumberingOffset(name);
      if o.None? {
        return false;
      }
      SetOffset(o.value);
      return true;
    }

    method SetStep(s: int)
      modifies this`step
      ensures step == s
    {
      step := s;
    }

    method GetItemNumber(item: int) returns (r: Option<string>)
      ensures Current().scheme.Valid() && r == Current().Label(item)
      ensures r.Some? <==> SchemeOf(kind).Encodable(offset + step * item)
      ensures r.Some? ==> Decoded(SchemeOf(kind), r.value) == Some(offset + step * item)
    {
      var n := offset + step * item;
      r := EncodeNumber(n);
      LabelDecodes(Current(), item);
      LabelIs(Current(), item, n);
    }

    /** The loop of GetItemNumber. */
    method EncodeNumber(number: int) returns (r: Option<string>)
      ensures var scheme := SchemeOf(kind);
              scheme.Valid() && r == if scheme.Encodable(number) then Some(scheme.Name(number)) else None
    {
      var n := number;
      var itemNum := "";
      var alphabet := Alphabet(kind);
      var nonUnitColsStartAt0 := kind.AlphaFull? || kind.AlphaNoIOSQXZ?;
      var firstRound := true;
      var radix := |alphabet|;
      ghost var scheme := SchemeOf(kind);
      SchemeValid(kind);
      assert radix >= 2;
      assert scheme.alphabet == alphabet && scheme.start0 == nonUnitColsStartAt0;
      hide *;
      while firstRound || n != 0
        invariant if firstRound then n == number && itemNum == "" else Encoding(scheme, number, n, itemNum)
        decreases firstRound, if n < 0 then -n else n
      {
        var modN := TruncMod(n, radix);
        if nonUnitColsStartAt0 && !firstRound {
          modN := modN - 1;
        }
        EncodeRound(scheme, number, n, firstRound, itemNum, modN, TruncDiv(n, radix));
        if !(0 <= modN < |alphabet|) {
          return None;
        }
        itemNum := [alphabet[modN]] + itemNum;
        n := TruncDiv(n, radix);
        firstRound := false;
      }
      AllNamed(scheme, number, itemNum);
      return Some(itemNum);
    }
  }

  /** What is left to name after the last columns are done. */
  ghost predicate Rest(s: Scheme, v: int, n: int, done: string) {
    && s.Valid() && v >= 0 && n >= 0
    && (s.Encodable(v) <==> (s.start0 ==> s.NoZeroColumn(n)))
    && s.Name(v) == s.HighName(n) + done
  }

  lemma TruncIsQuotient(s: Scheme, n: nat)
    requires s.Valid()
    ensures TruncDiv(n, |s.alphabet|) == s.Quotient(n) && TruncMod(n, |s.alphabet|) == s.Remainder(n)
  {}

  /** The state between two rounds: a negative number stays negative. */
  ghost predicate Encoding(s: Scheme, v: int, n: int, done: string) {
    s.Valid() && (n < 0 <==> v < 0) && (v >= 0 ==> Rest(s, v, n, done))
  }

  lemma LabelIs(a: Settings, n: int, v: int)
    requires a.scheme.Valid() && v == a.offset + a.step * n
    ensures a.Label(n) == if a.scheme.Encodable(v) then Some(a.scheme.Name(v)) else None
  {}

  lemma AllNamed(s: Scheme, v: int, done: string)
    requires Encoding(s, v, 0, done)
    ensures s.Valid() && s.Encodable(v) && s.Name(v) == done
  {
    assert "" + done == done;
  }

  /** One round of the loop: d is the index of the letter, m what goes into the next round. */
  lemma EncodeRound(s: Scheme, v: int, n: int, first: bool, done: string, d: int, m: int)
    requires s.Valid() && (if first then n == v && done == "" else n != 0 && Encoding(s, v, n, done))
    requires d == TruncMod(n, |s.alphabet|) - (if s.start0 && !first then 1 else 0) && m == TruncDiv(n, |s.alphabet|)
    ensures 0 <= d < |s.alphabet| ==> Encoding(s, v, m, [s.alphabet[d]] + done)
    ensures 0 <= d < |s.alphabet| && !first ==> if n < 0 then n < m else m < n
    ensures 0 <= d < |s.alphabet| && !first ==> if n < 0 then m < 0 else m >= 0
    ensures !(0 <= d < |s.alphabet|) ==> !s.Encodable(v)
  {
    if n < 0 {
      TruncNegative(n, |s.alphabet|);
    } else {
      TruncIsQuotient(s, n);
      EncodeStep(s, v, n, first, done);
    }
    hide TruncDiv, TruncMod, Rest;
  }

  /** One round of the encoder. */
  lemma EncodeStep(s: Scheme, v: int, n: int, first: bool, done: string)
    requires s.Valid() && n >= 0 && v >= 0
    requires if first then n == v && done == "" else n > 0 && Rest(s, v, n, done)
    ensures var d := s.Remainder(n) - (if s.start0 && !first then 1 else 0);
            if d < 0 then !s.Encodable(v)
            else d < |s.alphabet| && Rest(s, v, s.Quotient(n), [s.alphabet[d]] + done)
    ensures !first ==> s.Quotient(n) < n
  {
    s.Recompose(n);
    var q, m := s.Quotient(n), s.Remainder(n);
    if first {
      assert [s.alphabet[m]] + done == [s.alphabet[m]];
    } else {
      s.QuotientBelow(n);
      if s.start0 && m == 0 {
        assert !s.NoZeroColumn(n);
      } else {
        var d := m - s.Bump();
        if s.start0 { s.ColumnBasics(q, d); }
        s.Decompose(q, d);
        hide Scheme.Column, Scheme.Quotient, Scheme.Remainder;
        s.HighNameUnfolds(n, q, d);
        assert s.HighName(q) + [s.alphabet[d]] + done == s.HighName(q) + ([s.alphabet[d]] + done);
      }
    }
  }

  // ----- what the encoder and decoder promise each other -----

  /** An item has a label exactly when its number is encodable, and the label decodes to it. */
  lemma LabelDecodes(a: Settings, n: int)
    requires a.scheme.Valid()
    ensures a.Label(n).Some? <==> a.scheme.Encodable(a.offset + a.step * n)
    ensures a.Label(n).Some? ==> Decoded(a.scheme, a.Label(n).value) == Some(a.offset + a.step * n)
  {
    if a.Label(n).Some? {
      a.scheme.ValueOfName(a.Number(n));
    }
  }

  /** In the decimal and hexadecimal schemes every number from zero up has a label. */
  lemma PlainSchemesEncodeAll(a: Settings, n: int)
    requires a.scheme.Valid() && !a.scheme.start0
    ensures a.Label(n).Some? <==> a.Number(n) >= 0
  {}

  /** Which strings an axis reads, and what they stand for: every string over letters, but only those
      without a leading zero over digits, in the order of length and then of the characters. */
  lemma ReadingOrder(t: NumberingType, s: string, s': string)
    requires s != "" && s' != "" && (forall c :: c in s + s' ==> c in Alphabet(t))
    requires |s'| > 1 && (t == Numeric || t == Hex) ==> s'[0] != '0'
    requires |s| < |s'| || (|s| == |s'| && exists k :: 0 <= k < |s| && s[..k] == s'[..k] && s[k] < s'[k])
    ensures var scheme := SchemeOf(t); Decoded(scheme, s).Some? && Decoded(scheme, s').Some?
    ensures Decoded(SchemeOf(t), s).value < Decoded(SchemeOf(t), s').value
  {
    SchemeValid(t);
    InAlphabet(t, s, s');
    CanonicalHere(t, s');
    if |s| == |s'| {
      var k :| 0 <= k < |s| && s[..k] == s'[..k] && s[k] < s'[k];
      LexHere(t, s, s', k);
    }
    hide Alphabet, Scheme.Valid, Scheme.Value, Scheme.Spells, Scheme.Canonical, Scheme.LexBefore;
    SchemeOf(t).ValueBefore(s, s');
  }

  lemma CanonicalHere(t: NumberingType, s: string)
    requires s != "" && (|s| > 1 && (t == Numeric || t == Hex) ==> s[0] != '0')
    ensures SchemeOf(t).Valid() && SchemeOf(t).Canonical(s)
  {
    SchemeValid(t);
    FirstLetters();
    hide Alphabet;
  }

  lemma LexHere(t: NumberingType, s: string, s': string, k: nat)
    requires SchemeOf(t).Spells(s) && SchemeOf(t).Spells(s')
    requires |s| == |s'| && k < |s| && s[..k] == s'[..k] && s[k] < s'[k]
    ensures SchemeOf(t).LexBefore(s, s')
  {
    hide Alphabet, Scheme.Digit;
    DigitOrder(t, s[k], s'[k]);
  }

  lemma InAlphabet(t: NumberingType, s: string, s': string)
    requires forall c :: c in s + s' ==> c in Alphabet(t)
    ensures SchemeOf(t).Spells(s) && SchemeOf(t).Spells(s')
  {
    hide Alphabet;
    assert forall i :: 0 <= i < |s| ==> s[i] in s + s';
    assert forall i :: 0 <= i < |s'| ==> s'[i] in s + s';
  }

  lemma FirstLetters()
    ensures Alphabet(Numeric)[0] == '0' && Alphabet(Hex)[0] == '0'
  {}

  /** Letters count in the order of the characters. */
  lemma DigitOrder(t: NumberingType, c: char, d: char)
    requires c in Alphabet(t) && d in Alphabet(t) && c < d
    ensures SchemeOf(t).Digit(c) < SchemeOf(t).Digit(d)
  {
    AlphabetLetters(t, c);
    hide Alphabet;
    var i, j := SchemeOf(t).Digit(c), SchemeOf(t).Digit(d);
    assert Alphabet(t)[i] == c && Alphabet(t)[j] == d;
  }

  /** In the alphabetic schemes labels fail first at the radix squared, although some string
      stands for that number too. */
  lemma FirstFailure(a: Settings, n: int)
    requires a.scheme.Valid() && a.scheme.start0
    ensures var limit := |a.scheme.alphabet| * |a.scheme.alphabet|;
            && (0 <= a.Number(n) < limit ==> a.Label(n).Some?)
            && (a.Number(n) == limit ==> a.Label(n) == None && exists s :: Decoded(a.scheme, s) == Some(limit))
  {
    var v := a.Number(n);
    if v >= 0 {
      a.scheme.EncodableBelowSquare(v);
      a.scheme.ValueOfName(v);
      assert Decoded(a.scheme, a.scheme.Name(v)) == Some(v);
    }
  }

  /** The first numbers without a label: 676 with all the letters, 400 with the reduced alphabet. */
  lemma Limits()
    ensures |SchemeOf(AlphaFull).alphabet| * |SchemeOf(AlphaFull).alphabet| == 676
    ensures |SchemeOf(AlphaNoIOSQXZ).alphabet| * |SchemeOf(AlphaNoIOSQXZ).alphabet| == 400
  {}

  /** Reading is a bijection from the canonical strings onto the naturals, and in the alphabetic
      schemes every string over the alphabet is canonical. */
  lemma DecodeBijective(scheme: Scheme, v: nat)
    requires scheme.Valid()
    ensures exists s :: Decoded(scheme, s) == Some(v) && scheme.Canonical(s)
    ensures forall s, t | Decoded(scheme, s) == Some(v) && Decoded(scheme, t) == Some(v) ::
              scheme.Canonical(s) && scheme.Canonical(t) ==> s == t
    ensures scheme.start0 ==> forall s | Decoded(scheme, s).Some? :: scheme.Canonical(s)
  {
    scheme.ValueOfName(v);
    scheme.NameOfValue(scheme.Name(v));
    assert Decoded(scheme, scheme.Name(v)) == Some(v) && scheme.Canonical(scheme.Name(v));
    forall s | Decoded(scheme, s).Some?
      ensures scheme.Canonical(s) ==> scheme.Name(Decoded(scheme, s).value) == s
      ensures scheme.start0 ==> scheme.Canonical(s)
    {
      scheme.NameOfValue(s);
    }
  }
}
