/** bitmap2component/bitmap2component.cpp: curves to polylines, and a traced path to its corners. */
module BezierFlattening {
  import opened BezierChord

  const DELTA := 0.25  // desired accuracy, in pixels

  /** `sqrt` of the C library, taken as exact. */
  ghost predicate IsSquareRoot(sqrt: real -> real) {
    forall x: real :: x >= 0.0 ==> sqrt(x) >= 0.0 && sqrt(x) * sqrt(x) == x
  }

  function Max(x: real, y: real): real {
    if x < y then y else x
  }

  function SquaredStep(dd: real): real {
    if 8.0 * DELTA <= dd then 8.0 * DELTA / dd else 1.0
  }

  function StepSize(c: Cubic, sqrt: real -> real): real {
    sqrt(SquaredStep(6.0 * sqrt(Max(c.Bend0(), c.Bend1()))))
  }

  /** What a step must satisfy for every chord to be within DELTA of the curve. */
  ghost predicate FineStep(c: Cubic, eps: real) {
    && 0.0 < eps <= 1.0
    && exists r: real :: r >= 0.0 && Bounds(c, r) && eps * eps * (6.0 * r) <= 8.0 * DELTA
  }

  ghost predicate Bounds(c: Cubic, r: real) {
    c.Bend0() <= r * r && c.Bend1() <= r * r
  }

  lemma BendNonNegative(c: Cubic)
    ensures c.Bend0() >= 0.0 && c.Bend1() >= 0.0
  {}

  lemma SquaredStepFits(dd: real)
    requires dd >= 0.0
    ensures 0.0 < SquaredStep(dd) <= 1.0 && SquaredStep(dd) * dd <= 8.0 * DELTA
  {}

  lemma RootAtMostOne(e: real)
    requires e >= 0.0 && 0.0 < e * e <= 1.0
    ensures 0.0 < e <= 1.0
  {}

  /** The step the code computes is fine enough. */
  lemma StepSizeIsFine(c: Cubic, sqrt: real -> real)
    requires IsSquareRoot(sqrt)
    ensures FineStep(c, StepSize(c, sqrt))
  {
    BendNonNegative(c);
    var m := Max(c.Bend0(), c.Bend1());
    var r := sqrt(m);
    assert r >= 0.0 && r * r == m;
    var e2 := SquaredStep(6.0 * r);
    SquaredStepFits(6.0 * r);
    var eps := sqrt(e2);
    assert eps >= 0.0 && eps * eps == e2;
    RootAtMostOne(eps);
    assert Bounds(c, r);
    assert eps * eps * (6.0 * r) <= 8.0 * DELTA;
  }

  /** What that step is: with dd six times the larger of the second differences at the two ends, one if
      dd is below 2, and otherwise the root of 2 by dd. */
  lemma StepSizeMeans(p1: Point, p2: Point, p3: Point, p4: Point, sqrt: real -> real)
    requires IsSquareRoot(sqrt)
    ensures var x0, y0 := p1.x - 2.0 * p2.x + p3.x, p1.y - 2.0 * p2.y + p3.y;
            var x1, y1 := p2.x - 2.0 * p3.x + p4.x, p2.y - 2.0 * p3.y + p4.y;
            var m0, m1 := x0 * x0 + y0 * y0, x1 * x1 + y1 * y1;
            var dd, eps := 6.0 * sqrt(if m0 < m1 then m1 else m0), StepSize(Cubic(p1, p2, p3, p4), sqrt);
            eps > 0.0 && (dd < 2.0 ==> eps == 1.0) && (dd >= 2.0 ==> eps * eps == 2.0 / dd)
  {
    hide *;
    var c := Cubic(p1, p2, p3, p4);
    LargerBend(p1, p2, p3, p4);
    RootOfStep(c, sqrt);
  }

  lemma LargerBend(p1: Point, p2: Point, p3: Point, p4: Point)
    ensures var x0, y0 := p1.x - 2.0 * p2.x + p3.x, p1.y - 2.0 * p2.y + p3.y;
            var x1, y1 := p2.x - 2.0 * p3.x + p4.x, p2.y - 2.0 * p3.y + p4.y;
            var m0, m1 := x0 * x0 + y0 * y0, x1 * x1 + y1 * y1;
            var c := Cubic(p1, p2, p3, p4);
            Max(c.Bend0(), c.Bend1()) == if m0 < m1 then m1 else m0
  {}

  lemma RootOfStep(c: Cubic, sqrt: real -> real)
    requires IsSquareRoot(sqrt)
    ensures var dd, eps := 6.0 * sqrt(Max(c.Bend0(), c.Bend1())), StepSize(c, sqrt);
            eps > 0.0 && (dd < 2.0 ==> eps == 1.0) && (dd >= 2.0 ==> eps * eps == 2.0 / dd)
  {
    BendNonNegative(c);
    var m := Max(c.Bend0(), c.Bend1());
    assert m >= 0.0;
    var dd, eps := 6.0 * sqrt(m), StepSize(c, sqrt);
    StepSizeIsFine(c, sqrt);
    assert sqrt(m) >= 0.0;
    SquaredStepFits(dd);
    assert eps * eps == SquaredStep(dd);
    hide StepSize, IsSquareRoot, Max, Cubic.Bend0, Cubic.Bend1;
    OnlyRootOfOne(eps);
  }

  lemma OnlyRootOfOne(e: real)
    requires 0.0 < e <= 1.0
    ensures e * e == 1.0 ==> e == 1.0
  {
    SquareIsLess(e, e * e);
  }

  lemma SquareIsLess(e: real, f: real)
    requires 0.0 < e <= 1.0 && f == e * e
    ensures f <= e
  {
    NonNegative(e, 1.0 - e);
    assert e * (1.0 - e) == e - e * e;
  }

  // ----- the polyline of one curve -----

  /** The loop variable of the source after k steps. */
  function Tick(eps: real, k: nat): real {
    k as real * eps
  }

  lemma TickNext(eps: real, k: nat)
    ensures Tick(eps, k + 1) == Tick(eps, k) + eps
    ensures Tick(eps, 0) == 0.0 && Tick(eps, 1) == eps
  {}

  lemma TicksOrdered(eps: real, i: nat, j: nat)
    requires eps > 0.0
    ensures Tick(eps, i) < Tick(eps, j) <==> i < j
  {}

  lemma EnoughTicks(eps: real) returns (limit: nat)
    requires eps > 0.0
    ensures Tick(eps, limit) >= 1.0
  {
    var x := 1.0 / eps;
    assert x * eps == 1.0;
    limit := x.Floor + 1;
    Monotone(x, limit as real, eps, eps);
  }

  ghost function Samples(c: Cubic, eps: real, n: nat): (s: seq<Point>)
    ensures |s| == n && forall i :: 0 <= i < n ==> s[i] == c.At(Tick(eps, i + 1))
  {
    seq(n, i requires 0 <= i < n => c.At(Tick(eps, i + 1)))
  }

  /** All whole steps strictly inside the unit interval, then the end point. */
  ghost predicate IsPolyline(c: Cubic, eps: real, pts: seq<Point>) {
    && pts != []
    && Tick(eps, |pts| - 1) < 1.0 <= Tick(eps, |pts|)
    && pts == Samples(c, eps, |pts| - 1) + [c.p4]
  }

  /** The polyline, spelled out. */
  lemma PolylineMeans(c: Cubic, eps: real, pts: seq<Point>)
    requires IsPolyline(c, eps, pts)
    ensures pts != [] && pts[|pts| - 1] == c.p4
    ensures forall i :: 0 <= i < |pts| - 1 ==> pts[i] == c.At((i + 1) as real * eps)
    ensures (|pts| - 1) as real * eps < 1.0 <= |pts| as real * eps
  {}

  lemma SampleIsAt(p1: Point, p2: Point, p3: Point, p4: Point, t: real, x: real, y: real)
    requires x == p1.x * Cube(1.0 - t) + 3.0 * p2.x * Square(1.0 - t) * t
                  + 3.0 * p3.x * (1.0 - t) * Square(t) + p4.x * Cube(t)
    requires y == p1.y * Cube(1.0 - t) + 3.0 * p2.y * Square(1.0 - t) * t
                  + 3.0 * p3.y * (1.0 - t) * Square(t) + p4.y * Cube(t)
    ensures Point(x, y) == Cubic(p1, p2, p3, p4).At(t)
  {}

  method BezierToPolyline(corners: seq<Point>, p1: Point, p2: Point, p3: Point, p4: Point, sqrt: real -> real)
    returns (out: seq<Point>)
    requires IsSquareRoot(sqrt)
    ensures corners <= out
    ensures IsPolyline(Cubic(p1, p2, p3, p4), StepSize(Cubic(p1, p2, p3, p4), sqrt), out[|corners|..])
  {
    out := corners;
    var delta := DELTA;
    var dd0 := Square(p1.x - 2.0 * p2.x + p3.x) + Square(p1.y - 2.0 * p2.y + p3.y);
    var dd1 := Square(p2.x - 2.0 * p3.x + p4.x) + Square(p2.y - 2.0 * p3.y + p4.y);
    var dd := 6.0 * sqrt(Max(dd0, dd1));
    var e2 := if 8.0 * delta <= dd then 8.0 * delta / dd else 1.0;
    var epsilon := sqrt(e2);
    ghost var c := Cubic(p1, p2, p3, p4);
    assert epsilon == StepSize(c, sqrt);
    StepSizeIsFine(c, sqrt);
    ghost var limit := EnoughTicks(epsilon);
    ghost var k: nat := 0;
    TickNext(epsilon, 0);
    var t := epsilon;
    hide Square, Cube, Coordinate, Tick, StepSize, IsSquareRoot, FineStep;
    while t < 1.0
      invariant t == Tick(epsilon, k + 1)
      invariant Tick(epsilon, k) < 1.0
      invariant out == corners + Samples(c, epsilon, k)
      decreases limit - k
    {
      var x := p1.x * Cube(1.0 - t) + 3.0 * p2.x * Square(1.0 - t) * t
               + 3.0 * p3.x * (1.0 - t) * Square(t) + p4.x * Cube(t);
      var y := p1.y * Cube(1.0 - t) + 3.0 * p2.y * Square(1.0 - t) * t
               + 3.0 * p3.y * (1.0 - t) * Square(t) + p4.y * Cube(t);
      SampleIsAt(p1, p2, p3, p4, t, x, y);
      out := out + [Point(x, y)];
      TicksOrdered(epsilon, k + 1, limit);
      TickNext(epsilon, k + 1);
      k := k + 1;
      t := t + epsilon;
      assert Samples(c, epsilon, k) == Samples(c, epsilon, k - 1) + [c.At(Tick(epsilon, k))];
    }
    out := out + [p4];
    assert out[|corners|..] == Samples(c, epsilon, k) + [p4];
  }

  // ----- chains of corners -----

  /** There is a point at s on edge e of the chain. */
  ghost predicate OnEdge(chain: seq<Point>, e: int, s: real) {
    0 <= e < |chain| - 1 && 0.0 <= s <= 1.0
  }

  /** Point q is within DELTA of the point at s on edge e of the chain. */
  ghost predicate NearEdge(chain: seq<Point>, e: int, s: real, q: Point) {
    OnEdge(chain, e, s) && Dist2(q, Lerp(chain[e], chain[e + 1], s)) <= DELTA * DELTA
  }

  ghost predicate NearChain(chain: seq<Point>, q: Point) {
    exists e, s :: NearEdge(chain, e, s, q)
  }

  /** A piece of a traced path: two straight lines, or a cubic. */
  datatype Segment = Corner(a: Point, b: Point) | CurveTo(c0: Point, c1: Point, c2: Point) {
    function End(): Point {
      if Corner? then b else c2
    }

    /** The point at parameter t; t - 1 on the second line of a corner. */
    function At(start: Point, t: real): Point {
      match this
      case Corner(a, b) => if t <= 1.0 then Lerp(start, a, t) else Lerp(a, b, t - 1.0)
      case CurveTo(c0, c1, c2) => Cubic(start, c0, c1, c2).At(t)
    }

    function Length(): real {
      if Corner? then 2.0 else 1.0
    }
  }

  function StartOf(start: Point, path: seq<Segment>, i: nat): Point
    requires i <= |path|
  {
    if i == 0 then start else path[i - 1].End()
  }

  ghost predicate OnPath(start: Point, path: seq<Segment>, i: int, t: real) {
    0 <= i < |path| && 0.0 <= t <= path[i].Length()
  }

  ghost predicate PathNearChain(start: Point, path: seq<Segment>, chain: seq<Point>) {
    forall i, t :: OnPath(start, path, i, t) ==> NearChain(chain, path[i].At(StartOf(start, path, i), t))
  }

  ghost predicate ChainNearPath(start: Point, path: seq<Segment>, chain: seq<Point>) {
    forall e, s :: OnEdge(chain, e, s) ==> NearPath(start, path, Lerp(chain[e], chain[e + 1], s))
  }

  /** The path and the chain lie within DELTA of each other, both ways. */
  ghost predicate Traces(start: Point, path: seq<Segment>, chain: seq<Point>) {
    PathNearChain(start, path, chain) && ChainNearPath(start, path, chain)
  }

  ghost predicate NearPath(start: Point, path: seq<Segment>, p: Point) {
    exists i, t :: OnPath(start, path, i, t) && Dist2(path[i].At(StartOf(start, path, i), t), p) <= DELTA * DELTA
  }

  /** The point of a piece at a parameter: on a straight line, or of the curve. */
  lemma PieceAt(seg: Segment, start: Point, t: real)
    ensures seg.Corner? && t <= 1.0 ==>
              && seg.At(start, t).x == start.x + t * (seg.a.x - start.x)
              && seg.At(start, t).y == start.y + t * (seg.a.y - start.y)
    ensures seg.Corner? && t > 1.0 ==>
              && seg.At(start, t).x == seg.a.x + (t - 1.0) * (seg.b.x - seg.a.x)
              && seg.At(start, t).y == seg.a.y + (t - 1.0) * (seg.b.y - seg.a.y)
    ensures seg.CurveTo? ==>
              && seg.At(start, t).x == Coordinate(start.x, seg.c0.x, seg.c1.x, seg.c2.x, t)
              && seg.At(start, t).y == Coordinate(start.y, seg.c0.y, seg.c1.y, seg.c2.y, t)
  {}

  /** A quarter of a pixel, spelled out: the squared distance of a point of the outline to some point of
      the chain, and the other way round, is at most a sixteenth. */
  lemma OutlineToChain(start: Point, path: seq<Segment>, chain: seq<Point>, i: nat, t: real) returns (e: nat, s: real)
    requires Traces(start, path, chain) && i < |path|
    requires 0.0 <= t && (path[i].Corner? ==> t <= 2.0) && (path[i].CurveTo? ==> t <= 1.0)
    ensures e + 1 < |chain| && 0.0 <= s <= 1.0
    ensures var from := if i == 0 then start else if path[i - 1].Corner? then path[i - 1].b else path[i - 1].c2;
            var q := path[i].At(from, t);
            var x := q.x - (chain[e].x + s * (chain[e + 1].x - chain[e].x));
            var y := q.y - (chain[e].y + s * (chain[e + 1].y - chain[e].y));
            x * x + y * y <= 1.0 / 16.0
  {
    hide *;
    PieceStart(start, path, i);
    e, s := ChainPlace(start, path, chain, i, t);
    DistanceMeans(path[i].At(StartOf(start, path, i), t), chain[e], chain[e + 1], s);
  }

  lemma PieceStart(start: Point, path: seq<Segment>, i: nat)
    requires i < |path|
    ensures StartOf(start, path, i) ==
            if i == 0 then start else if path[i - 1].Corner? then path[i - 1].b else path[i - 1].c2
  {}

  lemma ChainPlace(start: Point, path: seq<Segment>, chain: seq<Point>, i: nat, t: real) returns (e: nat, s: real)
    requires Traces(start, path, chain) && i < |path|
    requires 0.0 <= t && (path[i].Corner? ==> t <= 2.0) && (path[i].CurveTo? ==> t <= 1.0)
    ensures e + 1 < |chain| && 0.0 <= s <= 1.0
    ensures Dist2(path[i].At(StartOf(start, path, i), t), Lerp(chain[e], chain[e + 1], s)) <= DELTA * DELTA
  {
    hide Dist2, Lerp, Segment.At, StartOf;
    assert OnPath(start, path, i, t);
    var q := path[i].At(StartOf(start, path, i), t);
    assert NearChain(chain, q);
    var f, r :| NearEdge(chain, f, r, q);
    e, s := f, r;
  }

  lemma ChainToOutline(start: Point, path: seq<Segment>, chain: seq<Point>, e: nat, s: real) returns (i: nat, t: real)
    requires Traces(start, path, chain) && e + 1 < |chain| && 0.0 <= s <= 1.0
    ensures i < |path| && 0.0 <= t && (path[i].Corner? ==> t <= 2.0) && (path[i].CurveTo? ==> t <= 1.0)
    ensures var from := if i == 0 then start else if path[i - 1].Corner? then path[i - 1].b else path[i - 1].c2;
            var q := path[i].At(from, t);
            var x := q.x - (chain[e].x + s * (chain[e + 1].x - chain[e].x));
            var y := q.y - (chain[e].y + s * (chain[e + 1].y - chain[e].y));
            x * x + y * y <= 1.0 / 16.0
  {
    hide *;
    i, t := PathPlace(start, path, chain, e, s);
    PieceStart(start, path, i);
    DistanceMeans(path[i].At(StartOf(start, path, i), t), chain[e], chain[e + 1], s);
  }

  lemma PathPlace(start: Point, path: seq<Segment>, chain: seq<Point>, e: nat, s: real) returns (i: nat, t: real)
    requires Traces(start, path, chain) && e + 1 < |chain| && 0.0 <= s <= 1.0
    ensures i < |path| && 0.0 <= t && (path[i].Corner? ==> t <= 2.0) && (path[i].CurveTo? ==> t <= 1.0)
    ensures Dist2(path[i].At(StartOf(start, path, i), t), Lerp(chain[e], chain[e + 1], s)) <= DELTA * DELTA
  {
    hide Dist2, Lerp, Segment.At, StartOf;
    assert OnEdge(chain, e, s);
    var p := Lerp(chain[e], chain[e + 1], s);
    assert NearPath(start, path, p);
    var j, u :| OnPath(start, path, j, u) && Dist2(path[j].At(StartOf(start, path, j), u), p) <= DELTA * DELTA;
    i, t := j, u;
  }

  lemma DistanceMeans(q: Point, a: Point, b: Point, s: real)
    ensures var x, y := q.x - (a.x + s * (b.x - a.x)), q.y - (a.y + s * (b.y - a.y));
            Dist2(q, Lerp(a, b, s)) == x * x + y * y && DELTA * DELTA == 1.0 / 16.0
  {
    var p := Lerp(a, b, s);
    assert p.x == a.x + s * (b.x - a.x);
    assert p.y == a.y + s * (b.y - a.y);
  }

  // ----- one curve -----

  lemma CurveEnds(c: Cubic)
    ensures c.At(0.0) == c.p1 && c.At(1.0) == c.p4
  {}

  /** Edge e of the polyline is the chord from its step to the next step or the end. */
  lemma EdgeIsChord(c: Cubic, eps: real, pts: seq<Point>, e: nat) returns (h: real)
    requires IsPolyline(c, eps, pts) && eps > 0.0 && e < |pts|
    ensures 0.0 <= Tick(eps, e) && 0.0 < h <= eps && Tick(eps, e) + h <= 1.0
    ensures e < |pts| - 1 ==> h == eps
    ensures e == |pts| - 1 ==> Tick(eps, e) + h == 1.0
    ensures ([c.p1] + pts)[e] == c.At(Tick(eps, e)) && ([c.p1] + pts)[e + 1] == c.At(Tick(eps, e) + h)
  {
    CurveEnds(c);
    TickNext(eps, e);
    TicksOrdered(eps, e, e + 1);
    if e > 0 { TicksOrdered(eps, 0, e); }
    hide Coordinate, Tick;
    if e < |pts| - 1 {
      h := eps;
      if e + 1 < |pts| - 1 { TicksOrdered(eps, e + 1, |pts| - 1); }
    } else {
      h := 1.0 - Tick(eps, e);
    }
  }

  /** Scaling the step down keeps it fine. */
  lemma ChordOfEdge(c: Cubic, eps: real, a: real, h: real, s: real)
    requires FineStep(c, eps) && 0.0 <= a && 0.0 <= h <= eps && a + h <= 1.0 && 0.0 <= s <= 1.0
    ensures Dist2(c.At(a + s * h), Lerp(c.At(a), c.At(a + h), s)) <= DELTA * DELTA
  {
    var r: real :| r >= 0.0 && Bounds(c, r) && eps * eps * (6.0 * r) <= 8.0 * DELTA;
    Monotone(h, eps, h, eps);
    Monotone(h * h, eps * eps, 6.0 * r, 6.0 * r);
    ChordWithin(c, a, h, s, r, DELTA);
  }

  /** The step a parameter falls in. */
  lemma {:induction false} StepOf(eps: real, n: nat, t: real) returns (e: nat)
    requires eps > 0.0 && 0.0 <= t && t <= Tick(eps, n + 1)
    ensures e <= n && Tick(eps, e) <= t <= Tick(eps, e) + eps
  {
    TickNext(eps, n);
    if n == 0 || Tick(eps, n) <= t {
      e := n;
    } else {
      e := StepOf(eps, n - 1, t);
    }
  }

  lemma Fraction(t: real, a: real, h: real) returns (s: real)
    requires h > 0.0 && a <= t <= a + h
    ensures 0.0 <= s <= 1.0 && t == a + s * h
  {
    s := (t - a) / h;
    assert s * h == t - a;
    if s < 0.0 { Monotone(0.0, -s, h, h); }
    if s > 1.0 { NonNegative(s - 1.0, h); }
  }

  lemma InsideStep(a: real, h: real, s: real, t: real)
    requires 0.0 <= h && 0.0 <= s <= 1.0 && t == a + s * h
    ensures a <= t <= a + h
  {}

  /** Every point of the curve is within DELTA of the polyline, short last edge included. */
  lemma CurveNearPolyline(c: Cubic, eps: real, pts: seq<Point>, t: real)
    requires FineStep(c, eps) && IsPolyline(c, eps, pts) && 0.0 <= t <= 1.0
    ensures NearChain([c.p1] + pts, c.At(t))
  {
    var e := StepOf(eps, |pts| - 1, t);
    var h := EdgeIsChord(c, eps, pts, e);
    hide Coordinate, Tick, FineStep;
    var a := Tick(eps, e);
    var s := Fraction(t, a, h);
    ChordOfEdge(c, eps, a, h, s);
    assert NearEdge([c.p1] + pts, e, s, c.At(t));
  }

  lemma PolylineNearCurve(c: Cubic, eps: real, pts: seq<Point>, e: nat, s: real) returns (t: real)
    requires FineStep(c, eps) && IsPolyline(c, eps, pts) && e < |pts| && 0.0 <= s <= 1.0
    ensures 0.0 <= t <= 1.0
    ensures Dist2(c.At(t), Lerp(([c.p1] + pts)[e], ([c.p1] + pts)[e + 1], s)) <= DELTA * DELTA
  {
    var h := EdgeIsChord(c, eps, pts, e);
    hide Coordinate, Tick, FineStep;
    var a := Tick(eps, e);
    ChordOfEdge(c, eps, a, h, s);
    t := a + s * h;
    InsideStep(a, h, s, t);
  }

  // ----- one segment -----

  lemma NoDistance(p: Point)
    ensures Dist2(p, p) <= DELTA * DELTA
  {}

  lemma CornerTraces(start: Point, a: Point, b: Point)
    ensures Traces(start, [Corner(a, b)], [start, a, b])
  {
    var path, chain := [Corner(a, b)], [start, a, b];
    assert Lerp(start, a, 1.0) == Lerp(a, b, 0.0);
    hide Dist2, Lerp;
    forall i, t | OnPath(start, path, i, t)
      ensures NearChain(chain, path[i].At(StartOf(start, path, i), t))
    {
      NoDistance(path[0].At(start, t));
      if t <= 1.0 {
        assert NearEdge(chain, 0, t, Lerp(start, a, t));
      } else {
        assert NearEdge(chain, 1, t - 1.0, Lerp(a, b, t - 1.0));
      }
    }
    forall e, s | OnEdge(chain, e, s)
      ensures NearPath(start, path, Lerp(chain[e], chain[e + 1], s))
    {
      var t := if e == 0 then s else 1.0 + s;
      NoDistance(path[0].At(start, t));
      assert OnPath(start, path, 0, t);
      assert path[0].At(StartOf(start, path, 0), t) == Lerp(chain[e], chain[e + 1], s);
    }
  }

  lemma CurveTraces(start: Point, c0: Point, c1: Point, c2: Point, eps: real, pts: seq<Point>)
    requires FineStep(Cubic(start, c0, c1, c2), eps) && IsPolyline(Cubic(start, c0, c1, c2), eps, pts)
    ensures Traces(start, [CurveTo(c0, c1, c2)], [start] + pts)
  {
    var c := Cubic(start, c0, c1, c2);
    var path, chain := [CurveTo(c0, c1, c2)], [start] + pts;
    forall i, t | OnPath(start, path, i, t)
      ensures NearChain(chain, path[i].At(StartOf(start, path, i), t))
    {
      CurveNearPolyline(c, eps, pts, t);
    }
    hide FineStep, IsPolyline, Coordinate;
    forall e, s | OnEdge(chain, e, s)
      ensures NearPath(start, path, Lerp(chain[e], chain[e + 1], s))
    {
      var t := PolylineNearCurve(c, eps, pts, e, s);
      assert OnPath(start, path, 0, t);
    }
  }

  // ----- joining -----

  /** The first `at` edges of the long chain are those of a, the rest are those of b. */
  ghost predicate Joined(a: seq<Point>, b: seq<Point>, all: seq<Point>, at: nat) {
    && |a| == at + 1 && |all| == at + |b| && b != []
    && (forall e :: 0 <= e < |a| ==> all[e] == a[e])
    && (forall e :: 0 <= e < |b| ==> all[at + e] == b[e])
  }

  lemma NearPartNearAll(a: seq<Point>, b: seq<Point>, all: seq<Point>, at: nat, q: Point)
    requires Joined(a, b, all, at) && (NearChain(a, q) || NearChain(b, q))
    ensures NearChain(all, q)
  {
    hide Dist2, Lerp;
    if NearChain(a, q) {
      var e, s :| NearEdge(a, e, s, q);
      assert NearEdge(all, e, s, q);
    } else {
      var e, s :| NearEdge(b, e, s, q);
      assert all[at + e] == b[e] && all[at + (e + 1)] == b[e + 1];
      assert NearEdge(all, at + e, s, q);
    }
  }

  /** Where on the long path a point of its front or its last segment lies. */
  lemma NearPathLonger(start: Point, path: seq<Segment>, seg: Segment, p: Point)
    ensures NearPath(start, path, p) || NearPath(StartOf(start, path, |path|), [seg], p) ==>
              NearPath(start, path + [seg], p)
  {
    hide Dist2, Segment.At;
    var longer := path + [seg];
    if NearPath(start, path, p) {
      var i, t :| OnPath(start, path, i, t) && Dist2(path[i].At(StartOf(start, path, i), t), p) <= DELTA * DELTA;
      assert OnPath(start, longer, i, t);
      assert longer[i].At(StartOf(start, longer, i), t) == path[i].At(StartOf(start, path, i), t);
    } else if NearPath(StartOf(start, path, |path|), [seg], p) {
      var mid := StartOf(start, path, |path|);
      var i, t :| OnPath(mid, [seg], i, t) && Dist2([seg][i].At(StartOf(mid, [seg], i), t), p) <= DELTA * DELTA;
      assert OnPath(start, longer, |path|, t) && longer[|path|].At(StartOf(start, longer, |path|), t) == seg.At(mid, t);
    }
  }

  lemma JoinPath(start: Point, path: seq<Segment>, seg: Segment, c1: seq<Point>, c2: seq<Point>,
                 all: seq<Point>, at: nat)
    requires Joined(c1, c2, all, at)
    requires PathNearChain(start, path, c1) && PathNearChain(StartOf(start, path, |path|), [seg], c2)
    ensures PathNearChain(start, path + [seg], all)
  {
    hide NearChain, Joined, Segment.At;
    var mid := StartOf(start, path, |path|);
    var longer := path + [seg];
    forall i, t | OnPath(start, longer, i, t)
      ensures NearChain(all, longer[i].At(StartOf(start, longer, i), t))
    {
      var q := longer[i].At(StartOf(start, longer, i), t);
      if i < |path| {
        assert OnPath(start, path, i, t) && q == path[i].At(StartOf(start, path, i), t);
      } else {
        assert OnPath(mid, [seg], 0, t) && q == [seg][0].At(StartOf(mid, [seg], 0), t);
      }
      NearPartNearAll(c1, c2, all, at, q);
    }
  }

  lemma JoinChain(start: Point, path: seq<Segment>, seg: Segment, c1: seq<Point>, c2: seq<Point>,
                  all: seq<Point>, at: nat)
    requires Joined(c1, c2, all, at)
    requires ChainNearPath(start, path, c1) && ChainNearPath(StartOf(start, path, |path|), [seg], c2)
    ensures ChainNearPath(start, path + [seg], all)
  {
    hide NearPath, Lerp;
    forall e, s | OnEdge(all, e, s)
      ensures NearPath(start, path + [seg], Lerp(all[e], all[e + 1], s))
    {
      if e < at {
        assert OnEdge(c1, e, s) && all[e] == c1[e] && all[e + 1] == c1[e + 1];
      } else {
        var f := e - at;
        assert OnEdge(c2, f, s) && all[at + f] == c2[f] && all[at + (f + 1)] == c2[f + 1];
      }
      NearPathLonger(start, path, seg, Lerp(all[e], all[e + 1], s));
    }
  }

  /** A traced path goes on where its chain ends. */
  lemma TracesJoin(start: Point, path: seq<Segment>, corners: seq<Point>, seg: Segment, more: seq<Point>)
    requires Traces(start, path, [start] + corners)
    requires ([start] + corners)[|corners|] == StartOf(start, path, |path|)
    requires Traces(StartOf(start, path, |path|), [seg], [StartOf(start, path, |path|)] + more)
    ensures Traces(start, path + [seg], [start] + (corners + more))
  {
    hide PathNearChain, ChainNearPath;
    var c1, c2, all := [start] + corners, [StartOf(start, path, |path|)] + more, [start] + (corners + more);
    assert Joined(c1, c2, all, |corners|);
    JoinPath(start, path, seg, c1, c2, all, |corners|);
    JoinChain(start, path, seg, c1, c2, all, |corners|);
  }

  /** The corner and curve loop of createOutputData for one path: the corners close up on the last
      point of the path, and the closed chain and the traced outline stay within DELTA of each other. */
  method PathCorners(path: seq<Segment>, sqrt: real -> real) returns (corners: seq<Point>)
    requires IsSquareRoot(sqrt) && path != []
    ensures corners != [] && corners[|corners| - 1] == path[|path| - 1].End()
    ensures Traces(path[|path| - 1].End(), path, [corners[|corners| - 1]] + corners)
  {
    corners := [];
    var cnt := |path|;
    var startpoint := path[cnt - 1].End();
    ghost var start := startpoint;
    NothingTraced(start);
    hide IsSquareRoot, Traces, FineStep, IsPolyline;
    for i := 0 to cnt
      invariant startpoint == StartOf(start, path, i)
      invariant ([start] + corners)[|corners|] == startpoint
      invariant i > 0 ==> corners != []
      invariant Traces(start, path[..i], [start] + corners)
    {
      ghost var old' := corners;
      ghost var more: seq<Point>;
      match path[i] {
        case Corner(a, b) =>
          corners := corners + [a];
          corners := corners + [b];
          more := [a, b];
          CornerTraces(startpoint, a, b);
          assert [startpoint] + more == [startpoint, a, b];
          assert corners == old' + more;
        case CurveTo(c0, c1, c2) =>
          corners := BezierToPolyline(corners, startpoint, c0, c1, c2, sqrt);
          more := corners[|old'|..];
          assert corners == old' + more;
          StepSizeIsFine(Cubic(startpoint, c0, c1, c2), sqrt);
          CurveTraces(startpoint, c0, c1, c2, StepSize(Cubic(startpoint, c0, c1, c2), sqrt), more);
          PolylineEnds(Cubic(startpoint, c0, c1, c2), StepSize(Cubic(startpoint, c0, c1, c2), sqrt), more);
      }
      TracesJoin(start, path[..i], old', path[i], more);
      assert path[..i + 1] == path[..i] + [path[i]];
      startpoint := path[i].End();
    }
    assert path[..cnt] == path;
  }

  lemma PolylineEnds(c: Cubic, eps: real, pts: seq<Point>)
    requires IsPolyline(c, eps, pts)
    ensures pts != [] && pts[|pts| - 1] == c.p4
  {}

  lemma NothingTraced(start: Point)
    ensures Traces(start, [], [start] + [])
  {}
}
