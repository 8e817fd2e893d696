/** common/array_options.cpp: the grid order and the labels of a rectangular array. */
module ArrayGrid {
  import opened Wrappers
  import opened Numeration
  import opened ArrayAxis

  datatype GridOptions = GridOptions(nx: nat, ny: nat, horizontalThenVertical: bool,
                                     reverseNumberingAlternate: bool, twoDNumbering: bool,
                                     priAxis: Settings, secAxis: Settings) {

    predicate Valid() {
      nx > 0 && ny > 0 && priAxis.scheme.Valid() && secAxis.scheme.Valid()
    }

    function ArraySize(): nat {
      nx * ny
    }

    function AxisSize(): nat {
      if horizontalThenVertical then nx else ny
    }

    function OtherSize(): nat {
      if horizontalThenVertical then ny else nx
    }

    /** getGridCoords: the numbering coordinates of the n-th item, alternate rows running back. */
    function GridCoords(n: nat): (nat, int)
      requires Valid()
    {
      var x := n % AxisSize();
      var y := n / AxisSize();
      (if reverseNumberingAlternate && y % 2 == 1 then AxisSize() - x - 1 else x, y)
    }

    /** GetItemNumber. */
    function ItemLabel(n: nat): Option<string>
      requires Valid()
    {
      if twoDNumbering then
        var (x, y) := GridCoords(n);
        match (priAxis.Label(x), secAxis.Label(y))
        case (Some(p), Some(s)) => Some(p + s)
        case _ => None
      else priAxis.Label(n)
    }

    /** The item at given coordinates, read off the order in which a serpentine walk visits them. */
    function Visited(x: nat, y: nat): nat
      requires x < AxisSize()
    {
      y * AxisSize() + (if reverseNumberingAlternate && y % 2 == 1 then AxisSize() - 1 - x else x)
    }

    /** The coordinates stay in the grid, and the walk visits them in the order of the items. */
    lemma CoordsOfItem(n: nat)
      requires Valid() && n < ArraySize()
      ensures var (x, y) := GridCoords(n);
              x < AxisSize() && 0 <= y < OtherSize() && Visited(x, y) == n
    {
      var a, b := AxisSize(), OtherSize();
      assert n == n / a * a + n % a;
      QuotientBound(n, a, b);
    }

    /** Every cell of the grid is the place of exactly one item: with CoordsOfItem, a bijection. */
    lemma ItemOfCoords(x: nat, y: nat)
      requires Valid() && x < AxisSize() && y < OtherSize()
      ensures Visited(x, y) < ArraySize() && GridCoords(Visited(x, y)) == (x, y)
    {
      var d := if reverseNumberingAlternate && y % 2 == 1 then AxisSize() - 1 - x else x;
      DivModUnique(y, d, AxisSize());
      BelowProduct(y, d, AxisSize(), OtherSize());
      assert AxisSize() * OtherSize() == ArraySize();
    }

    lemma BelowProduct(y: nat, d: nat, a: nat, b: nat)
      requires y < b && d < a
      ensures y * a + d < a * b
    {
      MultipleNotAbove(y + 1, b, a);
    }

    lemma QuotientBound(n: nat, a: nat, b: nat)
      requires n < a * b
      ensures n / a < b
    {}

    lemma MultipleNotAbove(k: nat, b: nat, a: nat)
      requires k <= b
      ensures k * a <= b * a
    {}

    /** The walk: from the origin along the first row, nx items of it or ny; then always one place on,
        with alternate rows running back when that is set; and from the end of a row to the next. */
    lemma Walk(n: nat)
      requires Valid()
      ensures GridCoords(0) == (0, 0)
      ensures var row := if horizontalThenVertical then nx else ny;
              var (x, y) := GridCoords(n); var (x', y') := GridCoords(n + 1);
              if (n + 1) % row != 0 then
                y' == y && x' == (if reverseNumberingAlternate && y % 2 == 1 then x - 1 else x + 1)
              else
                y' == y + 1 && x' == (if reverseNumberingAlternate then x else 0)
    {
      NextPlace(n, if horizontalThenVertical then nx else ny);
    }

    /** Quotient and remainder of the next number. */
    lemma NextPlace(n: nat, row: nat)
      requires row > 0
      ensures 0 / row == 0 && 0 % row == 0
      ensures if (n + 1) % row != 0 then (n + 1) / row == n / row && (n + 1) % row == n % row + 1
              else (n + 1) / row == n / row + 1 && n % row == row - 1
    {
      DivModUnique(0, 0, row);
      var q, d := n / row, n % row;
      assert n == q * row + d;
      if d + 1 < row {
        DivModUnique(q, d + 1, row);
      } else {
        assert (q + 1) * row == q * row + row;
        DivModUnique(q + 1, 0, row);
      }
    }

    /** The label of an item: the number along the primary axis is named first, then the one along the
        secondary; along one axis, the item's own number is counted. */
    lemma LabelOfItem(n: nat, x: nat, y: nat)
      requires Valid() && IsItemAt(n, x, y)
      ensures twoDNumbering ==>
                (ItemLabel(n).Some? <==>
                 priAxis.scheme.Encodable(priAxis.offset + priAxis.step * x)
                 && secAxis.scheme.Encodable(secAxis.offset + secAxis.step * y))
      ensures twoDNumbering && ItemLabel(n).Some? ==>
                exists p, s ::
                  && ItemLabel(n).value == p + s
                  && Decoded(priAxis.scheme, p) == Some(priAxis.offset + priAxis.step * x)
                  && Decoded(secAxis.scheme, s) == Some(secAxis.offset + secAxis.step * y)
      ensures !twoDNumbering ==>
                && (ItemLabel(n).Some? <==> priAxis.scheme.Encodable(priAxis.offset + priAxis.step * n))
                && (ItemLabel(n).Some? ==>
                      Decoded(priAxis.scheme, ItemLabel(n).value) == Some(priAxis.offset + priAxis.step * n))
    {
      LabelDecodes(priAxis, x);
      LabelDecodes(secAxis, y);
      LabelDecodes(priAxis, n);
      hide GridCoords, Settings.Label, Decoded, Scheme.Valid;
    }

    predicate IsItemAt(n: nat, x: nat, y: nat)
      requires Valid()
    {
      n < ArraySize() && GridCoords(n) == (x, y)
    }

    /** Each cell of the grid belongs to exactly one item. */
    lemma GridCoordsBijective(x: nat, y: nat)
      requires Valid() && x < AxisSize() && y < OtherSize()
      ensures exists n :: IsItemAt(n, x, y)
      ensures forall n: nat :: IsItemAt(n, x, y) ==> n < nx * ny
      ensures forall m, n :: IsItemAt(m, x, y) && IsItemAt(n, x, y) ==> m == n
    {
      ItemOfCoords(x, y);
      assert IsItemAt(Visited(x, y), x, y);
      forall n | IsItemAt(n, x, y)
        ensures n == Visited(x, y)
      {
        CoordsOfItem(n);
      }
    }

    /** Different items have different labels, when the axes use different letters. */
    lemma LabelsDistinct(m: nat, n: nat)
      requires Valid() && m < ArraySize() && n < ArraySize()
      requires twoDNumbering && Disjoint(priAxis.scheme.alphabet, secAxis.scheme.alphabet)
      requires priAxis.step != 0 && secAxis.step != 0
      requires m != n
      ensures ItemLabel(m).Some? ==> ItemLabel(m) != ItemLabel(n)
    {
      if ItemLabel(m).Some? && ItemLabel(m) == ItemLabel(n) { LabelDetermines(m, n); }
    }

    ghost predicate AllLabelled()
      requires Valid()
    {
      forall n: nat :: n < ArraySize() ==> ItemLabel(n).Some?
    }

    ghost predicate AllDistinct()
      requires Valid()
    {
      forall m: nat, n: nat :: m < ArraySize() && n < ArraySize() && m != n ==> ItemLabel(m) != ItemLabel(n)
    }

    /** When every item has a label, the labels over disjoint alphabets are distinct exactly when an axis
        with more than one place on it has a step that moves. */
    lemma AllDistinctIff()
      requires Valid() && twoDNumbering && AllLabelled()
      requires Disjoint(priAxis.scheme.alphabet, secAxis.scheme.alphabet)
      ensures AllDistinct() <==> (AxisSize() == 1 || priAxis.step != 0) && (OtherSize() == 1 || secAxis.step != 0)
    {
      hide Disjoint, Scheme.Valid, Settings.Label, GridCoords, ItemLabel;
      if AxisSize() > 1 && priAxis.step == 0 {
        SameNumber(priAxis, 0, 1);
        SameLabel(0, 0, 1, 0);
      } else if OtherSize() > 1 && secAxis.step == 0 {
        SameNumber(secAxis, 0, 1);
        SameLabel(0, 0, 0, 1);
      } else {
        forall m: nat, n: nat | m < ArraySize() && n < ArraySize() && ItemLabel(m) == ItemLabel(n)
          ensures m == n
        {
          LabelDetermines(m, n);
        }
      }
    }

    lemma SameLabel(x: nat, y: nat, x': nat, y': nat)
      requires Valid() && twoDNumbering && x < AxisSize() && y < OtherSize() && x' < AxisSize() && y' < OtherSize()
      requires priAxis.Label(x) == priAxis.Label(x') && secAxis.Label(y) == secAxis.Label(y') && (x, y) != (x', y')
      ensures !AllDistinct()
    {
      hide Scheme.Valid, Settings.Label, GridCoords;
      ItemOfCoords(x, y);
      ItemOfCoords(x', y');
      var m, n := Visited(x, y), Visited(x', y');
      assert m != n && ItemLabel(m) == ItemLabel(n);
    }

    lemma LabelDetermines(m: nat, n: nat)
      requires Valid() && m < ArraySize() && n < ArraySize() && twoDNumbering
      requires Disjoint(priAxis.scheme.alphabet, secAxis.scheme.alphabet)
      requires (AxisSize() == 1 || priAxis.step != 0) && (OtherSize() == 1 || secAxis.step != 0)
      requires ItemLabel(m).Some? && ItemLabel(m) == ItemLabel(n)
      ensures m == n
    {
      var (x, y) := GridCoords(m);
      var (x', y') := GridCoords(n);
      CoordsOfItem(m);
      CoordsOfItem(n);
      PlaceOfLabel(priAxis, AxisSize(), x, x');
      PlaceOfLabel(secAxis, OtherSize(), y, y');
      hide GridCoords, Settings.Label, Scheme.Spells, Scheme.Valid, Disjoint;
      SplitUnique(priAxis.scheme, secAxis.scheme, priAxis.Label(x).value, secAxis.Label(y).value,
                  priAxis.Label(x').value, secAxis.Label(y').value);
    }

    /** Along one axis the labels are distinct exactly when the step moves. */
    lemma LinearLabelsDistinctIff(m: nat, n: nat)
      requires Valid() && !twoDNumbering && m != n
      ensures ItemLabel(m).Some? && ItemLabel(n).Some? ==> (ItemLabel(m) == ItemLabel(n) <==> priAxis.step == 0)
    {
      if priAxis.step == 0 {
        assert priAxis.Number(m) == priAxis.Number(n);
      } else if ItemLabel(m).Some? && ItemLabel(n).Some? {
        AxisLabelInjective(priAxis, m, n);
      }
    }
  }

  ghost predicate Disjoint(a: string, b: string) {
    forall c | c in a :: c !in b
  }

  lemma AxisLabelInjective(a: Settings, m: int, n: int)
    requires a.scheme.Valid() && a.step != 0
    ensures a.Label(m).Some? ==> a.scheme.Spells(a.Label(m).value)
    ensures a.Label(n).Some? ==> a.scheme.Spells(a.Label(n).value)
    ensures a.Label(m).Some? && a.Label(m) == a.Label(n) ==> m == n
  {
    LabelDecodes(a, m);
    LabelDecodes(a, n);
    hide Scheme.Valid, Scheme.Spells, Scheme.Encodable, Scheme.Name, Scheme.Value, Settings.Number;
    if a.Label(m).Some? && a.Label(m) == a.Label(n) && a.Number(m) == a.Number(n) {
      NumberInjective(a, m, n);
    }
  }

  /** Among the first places of an axis, a label has one place. */
  lemma PlaceOfLabel(a: Settings, size: nat, m: nat, n: nat)
    requires a.scheme.Valid() && m < size && n < size && (size == 1 || a.step != 0)
    ensures a.Label(m).Some? ==> a.scheme.Spells(a.Label(m).value)
    ensures a.Label(n).Some? ==> a.scheme.Spells(a.Label(n).value)
    ensures a.Label(m).Some? && a.Label(m) == a.Label(n) ==> m == n
  {
    if a.step != 0 {
      AxisLabelInjective(a, m, n);
    } else {
      LabelDecodes(a, m);
    }
  }

  lemma SameNumber(a: Settings, m: nat, n: nat)
    requires a.scheme.Valid() && a.step == 0
    ensures a.Label(m) == a.Label(n)
  {
    assert a.Number(m) == a.Number(n);
  }

  lemma NumberInjective(a: Settings, m: int, n: int)
    requires a.step != 0 && a.Number(m) == a.Number(n)
    ensures m == n
  {}

  /** Words over disjoint alphabets can be told apart in their concatenation. */
  lemma SplitUnique(a: Scheme, b: Scheme, p: string, s: string, p': string, s': string)
    requires Disjoint(a.alphabet, b.alphabet)
    requires a.Spells(p) && a.Spells(p') && b.Spells(s) && b.Spells(s')
    ensures p + s == p' + s' ==> p == p' && s == s'
  {
    if p + s != p' + s' {
    } else if |p| < |p'| {
      Overlap(p, s, p', s');
    } else if |p'| < |p| {
      Overlap(p', s', p, s);
    } else {
      assert p == (p + s)[..|p|] == p';
      assert s == (p + s)[|p|..] == s';
    }
  }

  lemma Overlap(p: string, s: string, p': string, s': string)
    requires p + s == p' + s' && |p| < |p'|
    ensures s != "" && s[0] == p'[|p|]
  {
    assert (p + s)[|p|] == (p' + s')[|p|];
  }

  /** Decimal digits are no letters: any numeric axis with any alphabetic one, in either order. */
  lemma NumericAlphaDisjoint(t: NumberingType)
    requires Lettered(t)
    ensures Disjoint(Alphabet(Numeric), Alphabet(t)) && Disjoint(Alphabet(t), Alphabet(Numeric))
  {
    assert forall i | 0 <= i < |Alphabet(Numeric)| :: Alphabet(Numeric)[i] <= '9';
    assert forall i | 0 <= i < |Alphabet(t)| :: Alphabet(t)[i] >= 'A';
  }

  // ----- which pairs of axis types keep the labels apart -----

  /** Whatever the size, the walk, the offsets and the steps of a two-dimensional array with axes of
      these types, different items have different labels. */
  ghost predicate AlwaysDistinct(p: NumberingType, s: NumberingType) {
    forall g: GridOptions, m: nat, n: nat {:trigger g.ItemLabel(m), g.ItemLabel(n)} ::
      && g.Valid() && g.twoDNumbering && g.priAxis.scheme == SchemeOf(p) && g.secAxis.scheme == SchemeOf(s)
      && g.priAxis.step != 0 && g.secAxis.step != 0
      && m < g.ArraySize() && n < g.ArraySize() && m != n && g.ItemLabel(m).Some? ==>
        g.ItemLabel(m) != g.ItemLabel(n)
  }

  /** The letter of digit k has a name of its own, and so has the letter written twice. */
  predicate Doubles(scheme: Scheme, k: nat) {
    k + scheme.Bump() < |scheme.alphabet| && (scheme.start0 || k > 0)
  }

  lemma DigitOne(t: NumberingType)
    requires t.Numeric? || t.Hex?
    ensures |Alphabet(t)| >= 2 && Alphabet(t)[1] == '1' && Doubles(SchemeOf(t), 1)
  {}

  lemma LetterA(t: NumberingType) returns (k: nat)
    requires t.Hex? || Lettered(t)
    ensures k < |Alphabet(t)| && Alphabet(t)[k] == 'A' && Doubles(SchemeOf(t), k)
  {
    k := if t.Hex? then 10 else 0;
  }

  /** Any other axis types share a letter that can be written twice: 1, or else A. */
  lemma SharedLetter(p: NumberingType, s: NumberingType) returns (i: nat, j: nat)
    requires !(p.Numeric? && Lettered(s)) && !(s.Numeric? && Lettered(p))
    ensures Doubles(SchemeOf(p), i) && Doubles(SchemeOf(s), j) && Alphabet(p)[i] == Alphabet(s)[j]
  {
    hide Alphabet, Doubles;
    if !Lettered(p) && !Lettered(s) {
      DigitOne(p);
      DigitOne(s);
      i, j := 1, 1;
    } else {
      i := LetterA(p);
      j := LetterA(s);
    }
  }

  /** Two items with one label: the shared letter c, and c twice, can meet in either order. */
  lemma SharedLabel(p: Scheme, s: Scheme, i: nat, j: nat) returns (g: GridOptions, m: nat, n: nat)
    requires p.Valid() && s.Valid() && Doubles(p, i) && Doubles(s, j) && p.alphabet[i] == s.alphabet[j]
    ensures g.Valid() && g.twoDNumbering && g.priAxis == Settings(p, 0, 1) && g.secAxis == Settings(s, 0, 1)
    ensures m < g.ArraySize() && n < g.ArraySize() && m != n
    ensures g.ItemLabel(m).Some? && g.ItemLabel(m) == g.ItemLabel(n)
  {
    g := GridOptions(i + p.Twice(i) + 1, j + s.Twice(j) + 1, true, false, true, Settings(p, 0, 1), Settings(s, 0, 1));
    m, n := g.Visited(i, s.Twice(j)), g.Visited(p.Twice(i), j);
    g.ItemOfCoords(i, s.Twice(j));
    g.ItemOfCoords(p.Twice(i), j);
    LetterLabels(p, i);
    LetterLabels(s, j);
    hide GridOptions.GridCoords, GridOptions.Visited, Settings.Label, Scheme.Valid, Scheme.Twice, Doubles;
    var c := p.alphabet[i];
    assert [c] + [c, c] == [c, c] + [c];
    assert |[c]| != |[c, c]|;
  }

  lemma LetterLabels(p: Scheme, i: nat)
    requires p.Valid() && Doubles(p, i)
    ensures var c, a := p.alphabet[i], Settings(p, 0, 1); a.Label(i) == Some([c]) && a.Label(p.Twice(i)) == Some([c, c])
  {
    p.OneColumn(i);
    p.NameOfTwice(i);
    hide Scheme.Valid, Scheme.Twice, Scheme.Name, Scheme.Encodable, Doubles;
  }

  /** Labels can collide exactly when the two alphabets share a letter, and only a decimal axis with
      a lettered one is safe. */
  lemma AlwaysDistinctIff(p: NumberingType, s: NumberingType)
    ensures AlwaysDistinct(p, s) <==> Disjoint(Alphabet(p), Alphabet(s))
    ensures AlwaysDistinct(p, s) <==> (p.Numeric? && Lettered(s)) || (s.Numeric? && Lettered(p))
  {
    hide Alphabet, Scheme.Valid;
    SchemeValid(p);
    SchemeValid(s);
    if p.Numeric? && Lettered(s) {
      NumericAlphaDisjoint(s);
      DisjointKeepsApart(p, s);
    } else if s.Numeric? && Lettered(p) {
      NumericAlphaDisjoint(p);
      DisjointKeepsApart(p, s);
    } else {
      var i, j := SharedLetter(p, s);
      assert Alphabet(p)[i] in Alphabet(p) && Alphabet(s)[j] in Alphabet(s);
      var g, m, n := SharedLabel(SchemeOf(p), SchemeOf(s), i, j);
    }
  }

  lemma DisjointKeepsApart(p: NumberingType, s: NumberingType)
    requires Disjoint(Alphabet(p), Alphabet(s))
    ensures AlwaysDistinct(p, s)
  {
    hide Alphabet, Disjoint, GridOptions.ItemLabel, Scheme.Valid;
    forall g: GridOptions, m: nat, n: nat | g.Valid() && g.twoDNumbering
      && g.priAxis.scheme == SchemeOf(p) && g.secAxis.scheme == SchemeOf(s)
      && g.priAxis.step != 0 && g.secAxis.step != 0
      && m < g.ArraySize() && n < g.ArraySize() && m != n && g.ItemLabel(m).Some?
      ensures g.ItemLabel(m) != g.ItemLabel(n)
    {
      g.LabelsDistinct(m, n);
    }
  }
}
