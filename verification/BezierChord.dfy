/** How far a cubic can stray from one of its chords, over the reals. */
module BezierChord {

  datatype Point = Point(x: real, y: real)

  function Lerp(p: Point, q: Point, s: real): Point {
    Point((1.0 - s) * p.x + s * q.x, (1.0 - s) * p.y + s * q.y)
  }

  function Dist2(p: Point, q: Point): real {
    (p.x - q.x) * (p.x - q.x) + (p.y - q.y) * (p.y - q.y)
  }

  function Square(x: real): real {
    x * x
  }

  function Cube(x: real): real {
    x * x * x
  }

  /** One coordinate of the cubic, as the source computes it. */
  function Coordinate(a1: real, a2: real, a3: real, a4: real, t: real): real {
    a1 * Cube(1.0 - t) + 3.0 * a2 * Square(1.0 - t) * t + 3.0 * a3 * (1.0 - t) * Square(t) + a4 * Cube(t)
  }

  /** The same coordinate by powers x1, x2, x3 of the parameter. */
  function Powers(c0: real, c1: real, c2: real, c3: real, x1: real, x2: real, x3: real): real {
    c0 + c1 * x1 + c2 * x2 + c3 * x3
  }

  /** How far x lies off the point at s between a and b. */
  function Off(x: real, a: real, b: real, s: real): real {
    x - ((1.0 - s) * a + s * b)
  }

  /** The second difference of three control values. */
  function Second(a1: real, a2: real, a3: real): real {
    a1 - 2.0 * a2 + a3
  }

  function Mix(q0: real, q1: real, u: real): real {
    (1.0 - u) * q0 + u * q1
  }

  datatype Cubic = Cubic(p1: Point, p2: Point, p3: Point, p4: Point) {

    function At(t: real): Point {
      Point(Coordinate(p1.x, p2.x, p3.x, p4.x, t), Coordinate(p1.y, p2.y, p3.y, p4.y, t))
    }

    /** A sixth of the second derivative at the two ends, squared. */
    function Bend0(): real {
      Square(Second(p1.x, p2.x, p3.x)) + Square(Second(p1.y, p2.y, p3.y))
    }

    function Bend1(): real {
      Square(Second(p2.x, p3.x, p4.x)) + Square(Second(p2.y, p3.y, p4.y))
    }
  }

  lemma Expand(a1: real, a2: real, a3: real, a4: real, t: real)
    ensures Coordinate(a1, a2, a3, a4, t) ==
            Powers(a1, 3.0 * (a2 - a1), 3.0 * (a1 - 2.0 * a2 + a3), a4 - 3.0 * a3 + 3.0 * a2 - a1,
                   t, t * t, t * t * t)
  {}

  /** The coordinate is the one de Casteljau's construction gives: a mean of means of means. */
  lemma DeCasteljau(a1: real, a2: real, a3: real, a4: real, t: real)
    ensures var b1, b2, b3 := a1 + t * (a2 - a1), a2 + t * (a3 - a2), a3 + t * (a4 - a3);
            var c1, c2 := b1 + t * (b2 - b1), b2 + t * (b3 - b2);
            Coordinate(a1, a2, a3, a4, t) == c1 + t * (c2 - c1)
  {}

  lemma ChordOfLine(a: real, b: real, h: real, s: real, t: real)
    requires b == a + h && t == a + s * h
    ensures Off(t, a, b, s) == 0.0
  {}

  lemma ChordOfSquare(a: real, b: real, h: real, s: real, t: real)
    requires b == a + h && t == a + s * h
    ensures Off(t * t, a * a, b * b, s) == -(s * (1.0 - s)) * (h * h)
  {}

  lemma ChordOfCube(a: real, b: real, h: real, s: real, t: real)
    requires b == a + h && t == a + s * h
    ensures Off(t * t * t, a * a * a, b * b * b, s) == -(s * (1.0 - s)) * (h * h) * (a + b + t)
  {}

  /** In one coordinate the curve minus the chord is (t-a)(t-b)/2 times the second derivative at
      (a+b+t)/3, where t = a + s h and b = a + h. */
  lemma ChordCoordinate(a1: real, a2: real, a3: real, a4: real, a: real, b: real, h: real, s: real,
                        t: real, u: real, w: real)
    requires b == a + h && t == a + s * h && u == (a + b + t) / 3.0 && w == -(s * (1.0 - s)) * (h * h)
    ensures Off(Coordinate(a1, a2, a3, a4, t), Coordinate(a1, a2, a3, a4, a), Coordinate(a1, a2, a3, a4, b), s)
            == 3.0 * w * Mix(Second(a1, a2, a3), Second(a2, a3, a4), u)
  {
    Expand(a1, a2, a3, a4, t);
    Expand(a1, a2, a3, a4, a);
    Expand(a1, a2, a3, a4, b);
    hide Coordinate, Powers, Off;
    var c1, c2, c3 := 3.0 * (a2 - a1), 3.0 * (a1 - 2.0 * a2 + a3), a4 - 3.0 * a3 + 3.0 * a2 - a1;
    ChordOfLine(a, b, h, s, t);
    ChordOfSquare(a, b, h, s, t);
    ChordOfCube(a, b, h, s, t);
    ChordOfPowers(a1, c1, c2, c3, a, a * a, a * a * a, b, b * b, b * b * b, t, t * t, t * t * t, s, w, w * (a + b + t));
    Blend(Second(a1, a2, a3), Second(a2, a3, a4), u, w, c2, c3, a + b + t);
  }

  lemma ChordOfPowers(c0: real, c1: real, c2: real, c3: real, a: real, a2: real, a3: real,
                      b: real, b2: real, b3: real, t: real, t2: real, t3: real, s: real, w2: real, w3: real)
    requires Off(t, a, b, s) == 0.0 && Off(t2, a2, b2, s) == w2 && Off(t3, a3, b3, s) == w3
    ensures Off(Powers(c0, c1, c2, c3, t, t2, t3), Powers(c0, c1, c2, c3, a, a2, a3),
                Powers(c0, c1, c2, c3, b, b2, b3), s) == c2 * w2 + c3 * w3
  {}

  lemma Blend(q0: real, q1: real, u: real, w: real, c2: real, c3: real, v: real)
    requires c2 == 3.0 * q0 && c3 == q1 - q0 && v == 3.0 * u
    ensures c2 * w + c3 * (w * v) == 3.0 * w * Mix(q0, q1, u)
  {}

  // ----- the bound -----

  lemma Convex(q0: real, q1: real, u: real)
    requires 0.0 <= u <= 1.0
    ensures Square(Mix(q0, q1, u)) <= (1.0 - u) * Square(q0) + u * Square(q1)
  {
    assert (1.0 - u) * Square(q0) + u * Square(q1) - Square((1.0 - u) * q0 + u * q1)
        == (u * (1.0 - u)) * Square(q0 - q1);
    NonNegative(u, 1.0 - u);
    SquareNonNegative(q0 - q1);
    NonNegative(u * (1.0 - u), Square(q0 - q1));
  }

  lemma NonNegative(x: real, y: real)
    requires x >= 0.0 && y >= 0.0
    ensures x * y >= 0.0
  {}

  lemma SquareNonNegative(x: real)
    ensures Square(x) >= 0.0
  {}

  lemma Monotone(x: real, x': real, y: real, y': real)
    requires 0.0 <= x <= x' && 0.0 <= y <= y'
    ensures 0.0 <= x * y <= x' * y'
  {}

  /** s (1 - s) is at most a quarter. */
  lemma AtMostQuarter(s: real)
    requires 0.0 <= s <= 1.0
    ensures 0.0 <= s * (1.0 - s) <= 0.25
  {
    NonNegative(s, 1.0 - s);
    SquareNonNegative(s - 0.5);
    assert 0.25 - s * (1.0 - s) == Square(s - 0.5);
  }

  /** A mean of the two end vectors is no longer than the longer of them. */
  lemma MeanBend(c: Cubic, u: real, m: real)
    requires 0.0 <= u <= 1.0 && c.Bend0() <= m && c.Bend1() <= m
    ensures Square(Mix(Second(c.p1.x, c.p2.x, c.p3.x), Second(c.p2.x, c.p3.x, c.p4.x), u))
            + Square(Mix(Second(c.p1.y, c.p2.y, c.p3.y), Second(c.p2.y, c.p3.y, c.p4.y), u)) <= m
  {
    var x0, x1 := Second(c.p1.x, c.p2.x, c.p3.x), Second(c.p2.x, c.p3.x, c.p4.x);
    var y0, y1 := Second(c.p1.y, c.p2.y, c.p3.y), Second(c.p2.y, c.p3.y, c.p4.y);
    Convex(x0, x1, u);
    Convex(y0, y1, u);
    hide Square, Second, Mix;
    MeanAtMost(Square(x0) + Square(y0), Square(x1) + Square(y1), u, m);
    assert (1.0 - u) * (Square(x0) + Square(y0)) == (1.0 - u) * Square(x0) + (1.0 - u) * Square(y0);
    assert u * (Square(x1) + Square(y1)) == u * Square(x1) + u * Square(y1);
  }

  lemma MeanAtMost(x: real, y: real, u: real, m: real)
    requires 0.0 <= u <= 1.0 && x <= m && y <= m
    ensures (1.0 - u) * x + u * y <= m
  {
    NonNegative(1.0 - u, m - x);
    NonNegative(u, m - y);
  }

  /** The bound on a squared error of three times w times a vector of squared length v. */
  lemma ErrorBound(ex: real, ey: real, w: real, vx: real, vy: real, k: real, h2: real, r: real, delta: real)
    requires ex == 3.0 * w * vx && ey == 3.0 * w * vy
    requires w == -k * h2 && 0.0 <= k <= 0.25 && h2 >= 0.0
    requires Square(vx) + Square(vy) <= r * r && r >= 0.0
    requires h2 * (6.0 * r) <= 8.0 * delta
    ensures ex * ex + ey * ey <= delta * delta
  {
    var kh := k * h2;
    NonNegative(k, h2);
    Monotone(k, 0.25, h2, h2);
    Monotone(kh, 0.25 * h2, kh, 0.25 * h2);
    SquareNonNegative(vx);
    SquareNonNegative(vy);
    Monotone(kh * kh, 0.25 * h2 * (0.25 * h2), Square(vx) + Square(vy), r * r);
    var d := 0.75 * (h2 * r);
    NonNegative(h2, r);
    Monotone(d, delta, d, delta);
    SquaresCombine(ex, ey, w, kh, vx, vy);
    assert 0.25 * h2 * (0.25 * h2) * (r * r) * 9.0 == d * d;
  }

  lemma SquaresCombine(ex: real, ey: real, w: real, kh: real, vx: real, vy: real)
    requires ex == 3.0 * w * vx && ey == 3.0 * w * vy && w == -kh
    ensures ex * ex + ey * ey == 9.0 * (kh * kh * (Square(vx) + Square(vy)))
  {}

  /** The error vector is 3 w times a vector no longer than the larger bend. */
  lemma ErrorVector(c: Cubic, a: real, h: real, s: real, w: real, m: real) returns (vx: real, vy: real)
    requires 0.0 <= a && 0.0 <= h && a + h <= 1.0 && 0.0 <= s <= 1.0
    requires c.Bend0() <= m && c.Bend1() <= m && w == -(s * (1.0 - s)) * (h * h)
    ensures Off(c.At(a + s * h).x, c.At(a).x, c.At(a + h).x, s) == 3.0 * w * vx
    ensures Off(c.At(a + s * h).y, c.At(a).y, c.At(a + h).y, s) == 3.0 * w * vy
    ensures Square(vx) + Square(vy) <= m
  {
    hide Coordinate, Square, Off, Mix, Second, Cubic.Bend0, Cubic.Bend1;
    var t := a + s * h;
    var u := (a + (a + h) + t) / 3.0;
    MeanParameter(a, h, s, t);
    MeanBend(c, u, m);
    ChordCoordinate(c.p1.x, c.p2.x, c.p3.x, c.p4.x, a, a + h, h, s, t, u, w);
    ChordCoordinate(c.p1.y, c.p2.y, c.p3.y, c.p4.y, a, a + h, h, s, t, u, w);
    vx := Mix(Second(c.p1.x, c.p2.x, c.p3.x), Second(c.p2.x, c.p3.x, c.p4.x), u);
    vy := Mix(Second(c.p1.y, c.p2.y, c.p3.y), Second(c.p2.y, c.p3.y, c.p4.y), u);
  }

  lemma MeanParameter(a: real, h: real, s: real, t: real)
    requires 0.0 <= a && 0.0 <= h && a + h <= 1.0 && 0.0 <= s <= 1.0 && t == a + s * h
    ensures 0.0 <= (a + (a + h) + t) / 3.0 <= 1.0
  {
    Monotone(s, 1.0, h, h);
  }

  /** Between parameters a and a + h the curve stays within delta of its chord, when h squared times
      the largest second derivative, 6 r, is at most 8 delta. */
  lemma ChordWithin(c: Cubic, a: real, h: real, s: real, r: real, delta: real)
    requires 0.0 <= a && 0.0 <= h && a + h <= 1.0 && 0.0 <= s <= 1.0
    requires r >= 0.0 && c.Bend0() <= r * r && c.Bend1() <= r * r
    requires h * h * (6.0 * r) <= 8.0 * delta
    ensures Dist2(c.At(a + s * h), Lerp(c.At(a), c.At(a + h), s)) <= delta * delta
  {
    var k, h2 := s * (1.0 - s), h * h;
    var w := -(s * (1.0 - s)) * (h * h);
    AtMostQuarter(s);
    NonNegative(h, h);
    var vx, vy := ErrorVector(c, a, h, s, w, r * r);
    var p, q := c.At(a + s * h), Lerp(c.At(a), c.At(a + h), s);
    hide Coordinate, Square;
    ErrorBound(p.x - q.x, p.y - q.y, w, vx, vy, k, h2, r, delta);
  }
}
