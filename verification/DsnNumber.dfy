/** common/dsnlexer.cpp: isNumber, the test for a numeric token. */
module DsnNumber {

  predicate IsDigit(c: char) {
    '0' <= c <= '9'
  }

  predicate IsSign(c: char) {
    c == '-' || c == '+'
  }

  // ----- the grammar, by the positions at which the parts of a text meet -----

  /** Digits, any number of them, from i to j. */
  predicate Digits(s: string, i: int, j: int) {
    0 <= i <= j <= |s| && forall k :: i <= k < j ==> IsDigit(s[k])
  }

  /** A sign or nothing from i to j. */
  predicate OptionalSign(s: string, i: int, j: int) {
    0 <= i <= j <= |s| && (j == i || (j == i + 1 && IsSign(s[i])))
  }

  /** Nothing, or a point and any number of digits, from i to j. */
  predicate Fraction(s: string, i: int, j: int) {
    0 <= i <= j <= |s| && (j == i || (s[i] == '.' && Digits(s, i + 1, j)))
  }

  /** Nothing, or an `e`, a sign or nothing, and at least one digit, from i to the end. */
  ghost predicate Exponent(s: string, i: int) {
    0 <= i <= |s| && (i < |s| ==> (s[i] == 'e' || s[i] == 'E') && HasSignedDigits(s, i + 1))
  }

  ghost predicate HasSignedDigits(s: string, i: int) {
    exists d :: SignedDigits(s, i, d)
  }

  predicate SignedDigits(s: string, i: int, d: int) {
    OptionalSign(s, i, d) && Digits(s, d, |s|) && d < |s|
  }

  /** The parts meet at a, b and c: sign, whole digits, fraction, exponent, with a digit before the
      exponent. */
  ghost predicate IsNumeralAt(s: string, a: int, b: int, c: int) {
    && OptionalSign(s, 0, a) && Digits(s, a, b) && Fraction(s, b, c) && Exponent(s, c)
    && (a < b || b + 1 < c)
  }

  ghost predicate IsNumeral(s: string) {
    exists a, b, c :: IsNumeralAt(s, a, b, c)
  }

  // ----- the grammar, by the parts themselves -----

  predicate AllDigits(s: string) {
    forall i :: 0 <= i < |s| ==> s[i] in "0123456789"
  }

  /** A sign or nothing, digits, nothing or a point and digits, and nothing or an exponent with a digit;
      and a digit before the exponent. */
  predicate AreParts(sign: string, whole: string, fraction: string, exponent: string) {
    && (sign == "" || sign == "+" || sign == "-")
    && AllDigits(whole)
    && (fraction == "" || (fraction[0] == '.' && AllDigits(fraction[1..])))
    && (exponent == "" ||
        ((exponent[0] == 'e' || exponent[0] == 'E') && |exponent| > 1 &&
         (AllDigits(exponent[1..]) ||
          ((exponent[1] == '+' || exponent[1] == '-') && |exponent| > 2 && AllDigits(exponent[2..])))))
    && (whole != "" || |fraction| > 1)
  }

  lemma DigitsAre(s: string, i: nat, j: nat)
    requires i <= j <= |s|
    ensures Digits(s, i, j) <==> AllDigits(s[i..j])
  {
    forall c: char
      ensures IsDigit(c) <==> c in "0123456789"
    {
      DigitChar(c);
    }
    hide IsDigit;
    var t := s[i..j];
    assert forall k :: i <= k < j ==> s[k] == t[k - i];
    assert forall k :: 0 <= k < |t| ==> t[k] == s[i + k];
  }

  lemma DigitChar(c: char)
    ensures IsDigit(c) <==> c in "0123456789"
  {}

  /** The numerals are the texts made of such parts. */
  lemma NumeralIff(s: string)
    ensures IsNumeral(s) <==>
            exists sign, whole, fraction, exponent ::
              AreParts(sign, whole, fraction, exponent) && s == sign + whole + fraction + exponent
  {
    hide IsNumeral, AreParts;
    if IsNumeral(s) {
      var sign, whole, fraction, exponent := NumeralHasParts(s);
    }
    forall sign, whole, fraction, exponent
      | AreParts(sign, whole, fraction, exponent) && s == sign + whole + fraction + exponent
      ensures IsNumeral(s)
    {
      PartsAreNumeral(s, sign, whole, fraction, exponent);
    }
  }

  lemma NumeralHasParts(s: string) returns (sign: string, whole: string, fraction: string, exponent: string)
    requires IsNumeral(s)
    ensures AreParts(sign, whole, fraction, exponent) && s == sign + whole + fraction + exponent
  {
    var a, b, c :| IsNumeralAt(s, a, b, c);
    InBounds(s, a, b, c);
    PartsOf(s, a, b, c);
    hide *;
    sign, whole, fraction, exponent := s[..a], s[a..b], s[b..c], s[c..];
    FourPieces(s, a, b, c);
  }

  lemma FourPieces(s: string, a: nat, b: nat, c: nat)
    requires a <= b <= c <= |s|
    ensures s[..a] + s[a..b] + s[b..c] + s[c..] == s
  {}

  lemma InBounds(s: string, a: int, b: int, c: int)
    requires IsNumeralAt(s, a, b, c)
    ensures 0 <= a <= b <= c <= |s|
  {}

  lemma PartsAreNumeral(s: string, sign: string, whole: string, fraction: string, exponent: string)
    requires AreParts(sign, whole, fraction, exponent) && s == sign + whole + fraction + exponent
    ensures IsNumeral(s)
  {
    hide AreParts, IsNumeralAt;
    Cut4(s, sign, whole, fraction, exponent);
    PartsOf(s, |sign|, |sign| + |whole|, |sign| + |whole| + |fraction|);
  }

  lemma Cut4(s: string, w: string, x: string, y: string, z: string)
    requires s == w + x + y + z
    ensures var a, b, c := |w|, |w| + |x|, |w| + |x| + |y|;
            c <= |s| && s[..a] == w && s[a..b] == x && s[b..c] == y && s[c..] == z
  {}

  lemma PartsOf(s: string, a: nat, b: nat, c: nat)
    requires a <= b <= c <= |s|
    ensures IsNumeralAt(s, a, b, c) <==> AreParts(s[..a], s[a..b], s[b..c], s[c..])
  {
    SignOf(s, 0, a);
    assert s[0..a] == s[..a];
    DigitsAre(s, a, b);
    FractionOf(s, b, c);
    ExponentOf(s, c);
    hide OptionalSign, Digits, Fraction, Exponent, AllDigits;
  }

  lemma SignOf(s: string, i: nat, j: nat)
    requires i <= j <= |s|
    ensures OptionalSign(s, i, j) <==> s[i..j] == "" || s[i..j] == "+" || s[i..j] == "-"
  {
    var t := s[i..j];
    if i < j { assert t[0] == s[i]; }
  }

  lemma FractionOf(s: string, i: nat, j: nat)
    requires i <= j <= |s|
    ensures Fraction(s, i, j) <==> s[i..j] == "" || (s[i..j][0] == '.' && AllDigits(s[i..j][1..]))
  {
    if i < j {
      assert s[i..j][0] == s[i] && s[i..j][1..] == s[i + 1..j];
      DigitsAre(s, i + 1, j);
    }
  }

  lemma ExponentOf(s: string, i: nat)
    requires i <= |s|
    ensures var e := s[i..];
            Exponent(s, i) <==>
            e == "" || ((e[0] == 'e' || e[0] == 'E') && |e| > 1 &&
                        (AllDigits(e[1..]) || ((e[1] == '+' || e[1] == '-') && |e| > 2 && AllDigits(e[2..]))))
  {
    var e := s[i..];
    if i < |s| {
      assert e[0] == s[i];
      if i + 1 < |s| { SignedDigitsOf(s, i + 1, e); }
    }
  }

  lemma SignedDigitsOf(s: string, i: nat, e: string)
    requires 0 < i < |s| && e == s[i - 1..]
    ensures HasSignedDigits(s, i) <==>
            AllDigits(e[1..]) || ((e[1] == '+' || e[1] == '-') && |e| > 2 && AllDigits(e[2..]))
  {
    assert e[1] == s[i] && e[1..] == s[i..|s|];
    DigitsAre(s, i, |s|);
    if i + 1 < |s| {
      assert e[2..] == s[i + 1..|s|];
      DigitsAre(s, i + 1, |s|);
    }
    if HasSignedDigits(s, i) {
      var d :| SignedDigits(s, i, d);
      assert d == i || d == i + 1;
    }
    if AllDigits(e[1..]) { assert SignedDigits(s, i, i); }
    if (e[1] == '+' || e[1] == '-') && |e| > 2 && AllDigits(e[2..]) { assert SignedDigits(s, i, i + 1); }
  }

  /** isNumber: one scan from left to right decides the grammar. */
  method IsNumber(s: string) returns (r: bool)
    ensures r <==> IsNumeral(s)
  {
    var cp, limit := 0, |s|;
    var sawNumber := false;
    if cp < limit && (s[cp] == '-' || s[cp] == '+') {
      cp := cp + 1;
    }
    ghost var a := cp;
    while cp < limit && IsDigit(s[cp])
      invariant a <= cp && Digits(s, a, cp) && (sawNumber <==> a < cp)
    {
      cp := cp + 1;
      sawNumber := true;
    }
    ghost var b := cp;
    if cp < limit && s[cp] == '.' {
      cp := cp + 1;
      while cp < limit && IsDigit(s[cp])
        invariant b < cp && Fraction(s, b, cp) && (sawNumber <==> a < b || b + 1 < cp)
      {
        cp := cp + 1;
        sawNumber := true;
      }
    }
    ghost var c := cp;
    ghost var sawMantissa := sawNumber;
    ghost var d := -1;
    if sawNumber {
      if cp < limit && (s[cp] == 'E' || s[cp] == 'e') {
        cp := cp + 1;
        sawNumber := false;
        if cp < limit && (s[cp] == '-' || s[cp] == '+') {
          cp := cp + 1;
        }
        d := cp;
        while cp < limit && IsDigit(s[cp])
          invariant d <= cp && Digits(s, d, cp) && (sawNumber <==> d < cp)
        {
          cp := cp + 1;
          sawNumber := true;
        }
        if sawNumber && cp == limit { assert SignedDigits(s, c + 1, d); }
      }
    }
    r := sawNumber && cp == limit;
    if r {
      assert IsNumeralAt(s, a, b, c);
    }
    forall a', b', c' | IsNumeralAt(s, a', b', c')
      ensures r
    {
      PartsUnique(s, a, b, c, a', b', c');
      if c < |s| {
        var d' :| SignedDigits(s, c + 1, d');
        assert d == d';
      }
    }
  }

  /** Parts that each go as far as they can are the only ones. */
  lemma PartsUnique(s: string, a: int, b: int, c: int, a': int, b': int, c': int)
    requires IsNumeralAt(s, a', b', c')
    requires OptionalSign(s, 0, a) && Digits(s, a, b) && Fraction(s, b, c)
    requires a < |s| && IsSign(s[a]) ==> a == 1
    requires b < |s| ==> !IsDigit(s[b]) && (s[b] == '.' ==> b < c)
    requires b < c < |s| ==> !IsDigit(s[c])
    ensures a == a' && b == b' && c == c'
  {}

  lemma NumeralUnique(s: string, a: int, b: int, c: int, a': int, b': int, c': int)
    requires IsNumeralAt(s, a, b, c) && IsNumeralAt(s, a', b', c')
    ensures a == a' && b == b' && c == c'
  {}

  // ----- the regular expression above the code -----

  /** Parts meeting at a, b, p and c: sign, digits, a point or nothing, at least one digit, exponent. */
  ghost predicate IsCommentNumeralAt(s: string, a: int, b: int, p: int, c: int) {
    && OptionalSign(s, 0, a) && Digits(s, a, b)
    && (p == b || (p == b + 1 && b < |s| && s[b] == '.'))
    && Digits(s, p, c) && p < c && Exponent(s, c)
  }

  ghost predicate IsCommentNumeral(s: string) {
    exists a, b, p, c :: IsCommentNumeralAt(s, a, b, p, c)
  }

  /** A numeral whose point has digits before it and none after. */
  ghost predicate HasBarePoint(s: string) {
    exists a, b, c :: IsNumeralAt(s, a, b, c) && c == b + 1
  }

  /** The code accepts what the comment describes, and besides exactly the numerals with a bare point. */
  lemma CodeVersusComment(s: string)
    ensures IsNumeral(s) <==> IsCommentNumeral(s) || HasBarePoint(s)
    ensures !(IsCommentNumeral(s) && HasBarePoint(s))
  {
    hide Exponent;
    if IsNumeral(s) {
      var a, b, c :| IsNumeralAt(s, a, b, c);
      if c == b {
        assert IsCommentNumeralAt(s, a, a, a, c);
      } else if c > b + 1 {
        assert IsCommentNumeralAt(s, a, b, b + 1, c);
      }
    }
    if IsCommentNumeral(s) {
      var a, b, p, c :| IsCommentNumeralAt(s, a, b, p, c);
      var b0 := if p == b then c else b;
      assert IsNumeralAt(s, a, b0, c);
      forall a', b', c' | IsNumeralAt(s, a', b', c')
        ensures c' != b' + 1
      {
        NumeralUnique(s, a, b0, c, a', b', c');
      }
    }
  }

  /** `1.` is such a numeral. */
  lemma BarePointExample()
    ensures HasBarePoint("1.")
  {
    assert IsNumeralAt("1.", 0, 1, 2);
  }
}
