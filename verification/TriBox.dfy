/** Triangle-box overlap by separating axes (OPC_TriBoxOverlap.h).

    The code tests 13 axes with hand-specialised projections and early exits.  The partner
    of the code is `TriBoxPasses`: no axis of the SAT family separates the two solids, with
    `Separates` defined once for an arbitrary axis. */
module TriBox {
  import opened Geometry
  import opened Reals

  const UNIT_X := Point(1.0, 0.0, 0.0)
  const UNIT_Y := Point(0.0, 1.0, 0.0)
  const UNIT_Z := Point(0.0, 0.0, 1.0)

  function Edge0(t: Triangle): Point { Sub(t.v1, t.v0) }
  function Edge1(t: Triangle): Point { Sub(t.v2, t.v1) }
  function Edge2(t: Triangle): Point { Sub(t.v0, t.v2) }

  function Normal(t: Triangle): Point {
    Cross(Edge0(t), Edge1(t))
  }

  /** The three axes obtained by crossing one edge with the box axes do not separate. */
  predicate EdgeClear(e: Point, t: Triangle, b: CollisionAABB) {
    && !Separates(Cross(e, UNIT_X), t, b)
    && !Separates(Cross(e, UNIT_Y), t, b)
    && !Separates(Cross(e, UNIT_Z), t, b)
  }

  /** SAT verdict: box axes, triangle normal and, for the full test, the nine edge axes. */
  predicate TriBoxPasses(t: Triangle, b: CollisionAABB, full: bool) {
    && !Separates(UNIT_X, t, b)
    && !Separates(UNIT_Y, t, b)
    && !Separates(UNIT_Z, t, b)
    && !Separates(Normal(t), t, b)
    && (full ==> EdgeClear(Edge0(t), t, b) && EdgeClear(Edge1(t), t, b) && EdgeClear(Edge2(t), t, b))
  }

  // ------------------------------------------------------------------ the code

  method FindMinMax(x0: real, x1: real, x2: real) returns (min: real, max: real)
    ensures min <= x0 && min <= x1 && min <= x2 && (min == x0 || min == x1 || min == x2)
    ensures x0 <= max && x1 <= max && x2 <= max && (max == x0 || max == x1 || max == x2)
  {
    min, max := x0, x0;
    if x1 < min { min := x1; }
    if x1 > max { max := x1; }
    if x2 < min { min := x2; }
    if x2 > max { max := x2; }
  }

  /** The corner coordinate the loop stores in vmin. */
  function Near(n: real, m: real): real {
    if n > 0.0 then -m else m
  }

  lemma NearFar(n: real, m: real)
    ensures n * Near(n, m) == -(Abs(n) * m) && n * -Near(n, m) == Abs(n) * m
  {}

  /** The plane normal.x + d = 0 meets the centred box exactly when |d| is within the
      projected half-width: the corners picked by the loop are the extreme ones. */
  method PlaneBoxOverlap(normal: Point, d: real, maxbox: Point) returns (overlap: bool)
    ensures overlap <==> -Radius(normal, maxbox) <= d <= Radius(normal, maxbox)
  {
    var vmin, vmax := new real[3], new real[3];
    for q := 0 to 3
      invariant forall k :: 0 <= k < q ==>
        vmin[k] == Near(Coord(normal, k), Coord(maxbox, k)) && vmax[k] == -Near(Coord(normal, k), Coord(maxbox, k))
    {
      if Coord(normal, q) > 0.0 {
        vmin[q], vmax[q] := -Coord(maxbox, q), Coord(maxbox, q);
      } else {
        vmin[q], vmax[q] := Coord(maxbox, q), -Coord(maxbox, q);
      }
    }
    var nearest, farthest := Point(vmin[0], vmin[1], vmin[2]), Point(vmax[0], vmax[1], vmax[2]);
    ExtremeCorners(normal, maxbox, nearest, farthest);
    hide Dot, Radius;
    if Dot(normal, nearest) + d > 0.0 { return false; }
    if Dot(normal, farthest) + d >= 0.0 { return true; }
    return false;
  }

  lemma ExtremeCorners(n: Point, m: Point, nearest: Point, farthest: Point)
    requires nearest == Point(Near(n.x, m.x), Near(n.y, m.y), Near(n.z, m.z))
    requires farthest == Point(-Near(n.x, m.x), -Near(n.y, m.y), -Near(n.z, m.z))
    ensures Dot(n, nearest) == -Radius(n, m) && Dot(n, farthest) == Radius(n, m)
  {
    hide Abs, Near;
    NearFar(n.x, m.x);
    NearFar(n.y, m.y);
    NearFar(n.z, m.z);
  }

  predicate Beyond(p: real, q: real, r: real) {
    (p > r && q > r) || (p < -r && q < -r)
  }

  /** The swap-and-compare tail every AXISTEST macro shares. */
  method AxisTest(p: real, q: real, rad: real) returns (separated: bool)
    ensures separated <==> Beyond(p, q, rad)
  {
    var min, max := p, q;
    if min > max {
      var tmp := max;
      max := min;
      min := tmp;
    }
    separated := min > rad || max < -rad;
  }

  lemma CrossUnits(e: Point, p: Point, x: Point)
    ensures Dot(Cross(e, UNIT_X), p) == e.z * p.y - e.y * p.z
    ensures Dot(Cross(e, UNIT_Y), p) == e.x * p.z - e.z * p.x
    ensures Dot(Cross(e, UNIT_Z), p) == e.y * p.x - e.x * p.y
    ensures Radius(Cross(e, UNIT_X), x) == Abs(e.z) * x.y + Abs(e.y) * x.z
    ensures Radius(Cross(e, UNIT_Y), x) == Abs(e.z) * x.x + Abs(e.x) * x.z
    ensures Radius(Cross(e, UNIT_Z), x) == Abs(e.y) * x.x + Abs(e.x) * x.y
  {}

  method AxisTestX(e: Point, p: Point, q: Point, extents: Point) returns (separated: bool)
    ensures var l := Cross(e, UNIT_X); separated <==> Beyond(Dot(l, p), Dot(l, q), Radius(l, extents))
  {
    CrossUnits(e, p, extents);
    CrossUnits(e, q, extents);
    hide Dot, Cross, Radius, Abs;
    separated := AxisTest(e.z * p.y - e.y * p.z, e.z * q.y - e.y * q.z, Abs(e.z) * extents.y + Abs(e.y) * extents.z);
  }

  method AxisTestY(e: Point, p: Point, q: Point, extents: Point) returns (separated: bool)
    ensures var l := Cross(e, UNIT_Y); separated <==> Beyond(Dot(l, p), Dot(l, q), Radius(l, extents))
  {
    CrossUnits(e, p, extents);
    CrossUnits(e, q, extents);
    hide Dot, Cross, Radius, Abs;
    separated := AxisTest(e.x * p.z - e.z * p.x, e.x * q.z - e.z * q.x, Abs(e.z) * extents.x + Abs(e.x) * extents.z);
  }

  method AxisTestZ(e: Point, p: Point, q: Point, extents: Point) returns (separated: bool)
    ensures var l := Cross(e, UNIT_Z); separated <==> Beyond(Dot(l, p), Dot(l, q), Radius(l, extents))
  {
    CrossUnits(e, p, extents);
    CrossUnits(e, q, extents);
    hide Dot, Cross, Radius, Abs;
    separated := AxisTest(e.y * p.x - e.x * p.y, e.y * q.x - e.x * q.y, Abs(e.y) * extents.x + Abs(e.x) * extents.y);
  }

  lemma CrossPerpendicular(e: Point, k: Point, p: Point, q: Point)
    requires Sub(q, p) == e
    ensures Dot(Cross(e, k), p) == Dot(Cross(e, k), q)
  {
    assert q.x == p.x + e.x && q.y == p.y + e.y && q.z == p.z + e.z;
    assert e.x * (e.y * k.z - e.z * k.y) + e.y * (e.z * k.x - e.x * k.z) + e.z * (e.x * k.y - e.y * k.x) == 0.0;
  }

  lemma SubShift(p: Point, q: Point, c: Point)
    ensures Sub(Sub(p, c), Sub(q, c)) == Sub(p, q)
  {}

  /** On an edge axis the two ends of the edge project to the same value, so any two
      vertices that are not both ends of that edge decide the test. */
  lemma EdgeAxisPairs(t: Triangle, b: CollisionAABB, k: Point)
    ensures var c, e := b.mCenter, Edge0(t); var l := Cross(e, k); var r := Radius(l, b.mExtents);
      (Separates(l, t, b) <==> Beyond(Dot(l, Sub(t.v0, c)), Dot(l, Sub(t.v2, c)), r)) &&
      (Separates(l, t, b) <==> Beyond(Dot(l, Sub(t.v1, c)), Dot(l, Sub(t.v2, c)), r))
    ensures var c, e := b.mCenter, Edge1(t); var l := Cross(e, k); var r := Radius(l, b.mExtents);
      (Separates(l, t, b) <==> Beyond(Dot(l, Sub(t.v0, c)), Dot(l, Sub(t.v2, c)), r)) &&
      (Separates(l, t, b) <==> Beyond(Dot(l, Sub(t.v0, c)), Dot(l, Sub(t.v1, c)), r))
    ensures var c, e := b.mCenter, Edge2(t); var l := Cross(e, k); var r := Radius(l, b.mExtents);
      (Separates(l, t, b) <==> Beyond(Dot(l, Sub(t.v0, c)), Dot(l, Sub(t.v1, c)), r)) &&
      (Separates(l, t, b) <==> Beyond(Dot(l, Sub(t.v1, c)), Dot(l, Sub(t.v2, c)), r))
  {
    var c := b.mCenter;
    SubShift(t.v1, t.v0, c);
    SubShift(t.v2, t.v1, c);
    SubShift(t.v0, t.v2, c);
    hide Dot, Cross, Radius, Sub;
    CrossPerpendicular(Edge0(t), k, Sub(t.v0, c), Sub(t.v1, c));
    CrossPerpendicular(Edge1(t), k, Sub(t.v1, c), Sub(t.v2, c));
    CrossPerpendicular(Edge2(t), k, Sub(t.v2, c), Sub(t.v0, c));
  }

  /** Class III tests: nine axes, each with the pair of vertices the source picked. */
  method Class3Tests(t: Triangle, b: CollisionAABB) returns (ok: bool)
    ensures ok <==> EdgeClear(Edge0(t), t, b) && EdgeClear(Edge1(t), t, b) && EdgeClear(Edge2(t), t, b)
  {
    var v0, v1, v2 := Sub(t.v0, b.mCenter), Sub(t.v1, b.mCenter), Sub(t.v2, b.mCenter);
    var extents := b.mExtents;
    var e0, e1, e2 := Edge0(t), Edge1(t), Edge2(t);
    EdgeAxisPairs(t, b, UNIT_X);
    EdgeAxisPairs(t, b, UNIT_Y);
    EdgeAxisPairs(t, b, UNIT_Z);
    hide Dot, Cross, Radius, Sub, Edge0, Edge1, Edge2, Separates, Beyond;
    var s := AxisTestX(e0, v0, v2, extents);
    if s { return false; }
    s := AxisTestY(e0, v0, v2, extents);
    if s { return false; }
    s := AxisTestZ(e0, v1, v2, extents);
    if s { return false; }
    s := AxisTestX(e1, v0, v2, extents);
    if s { return false; }
    s := AxisTestY(e1, v0, v2, extents);
    if s { return false; }
    s := AxisTestZ(e1, v0, v1, extents);
    if s { return false; }
    s := AxisTestX(e2, v0, v1, extents);
    if s { return false; }
    s := AxisTestY(e2, v0, v1, extents);
    if s { return false; }
    s := AxisTestZ(e2, v1, v2, extents);
    if s { return false; }
    return true;
  }

  predicate BeyondAll(p: real, q: real, r: real, c: real, e: real) {
    (p - c > e && q - c > e && r - c > e) || (p - c < -e && q - c < -e && r - c < -e)
  }

  lemma UnitProjections(p: Point, e: Point)
    ensures Dot(UNIT_X, p) == p.x && Dot(UNIT_Y, p) == p.y && Dot(UNIT_Z, p) == p.z
    ensures Radius(UNIT_X, e) == e.x && Radius(UNIT_Y, e) == e.y && Radius(UNIT_Z, e) == e.z
  {}

  /** On the box's own axes separation is a comparison of coordinates. */
  lemma BoxAxis(t: Triangle, b: CollisionAABB)
    ensures var c, x := b.mCenter, b.mExtents;
      && (Separates(UNIT_X, t, b) <==> BeyondAll(t.v0.x, t.v1.x, t.v2.x, c.x, x.x))
      && (Separates(UNIT_Y, t, b) <==> BeyondAll(t.v0.y, t.v1.y, t.v2.y, c.y, x.y))
      && (Separates(UNIT_Z, t, b) <==> BeyondAll(t.v0.z, t.v1.z, t.v2.z, c.z, x.z))
  {
    hide Dot, Radius;
    UnitProjections(Sub(t.v0, b.mCenter), b.mExtents);
    UnitProjections(Sub(t.v1, b.mCenter), b.mExtents);
    UnitProjections(Sub(t.v2, b.mCenter), b.mExtents);
  }

  lemma PerpendicularDot(e: Point, f: Point, p: Point, q: Point)
    requires Sub(q, p) == e || Sub(q, p) == f
    ensures Dot(Cross(e, f), p) == Dot(Cross(e, f), q)
  {
    assert e.x * (e.y * f.z - e.z * f.y) + e.y * (e.z * f.x - e.x * f.z) + e.z * (e.x * f.y - e.y * f.x) == 0.0;
    assert f.x * (e.y * f.z - e.z * f.y) + f.y * (e.z * f.x - e.x * f.z) + f.z * (e.x * f.y - e.y * f.x) == 0.0;
    var d := Sub(q, p);
    assert q.x == p.x + d.x && q.y == p.y + d.y && q.z == p.z + d.z;
  }

  lemma NegDot(n: Point, p: Point)
    ensures Dot(Scale(-1.0, n), p) == -Dot(n, p)
  {}

  /** All three vertices project on the normal to the same value. */
  lemma NormalAxis(t: Triangle, b: CollisionAABB)
    ensures var n := Normal(t); var d := -Dot(n, Sub(t.v0, b.mCenter)); var r := Radius(n, b.mExtents);
      Separates(n, t, b) <==> !(-r <= d <= r)
  {
    var c := b.mCenter;
    SubShift(t.v1, t.v0, c);
    SubShift(t.v2, t.v1, c);
    hide Dot, Cross, Radius, Sub;
    PerpendicularDot(Edge0(t), Edge1(t), Sub(t.v0, c), Sub(t.v1, c));
    PerpendicularDot(Edge0(t), Edge1(t), Sub(t.v1, c), Sub(t.v2, c));
  }

  /** The three versions of the test in the source differ only in where the box comes from
      and in whether the class III axes are optional (`full`). */
  method TriBoxOverlap(t: Triangle, b: CollisionAABB, full: bool) returns (ok: bool)
    ensures ok <==> TriBoxPasses(t, b, full)
  {
    var center, extents := b.mCenter, b.mExtents;
    BoxAxis(t, b);
    NormalAxis(t, b);
    var min, max := FindMinMax(t.v0.x - center.x, t.v1.x - center.x, t.v2.x - center.x);
    hide Separates, EdgeClear, Radius, Dot, Cross, Normal;
    if min > extents.x || max < -extents.x { return false; }
    min, max := FindMinMax(t.v0.y - center.y, t.v1.y - center.y, t.v2.y - center.y);
    if min > extents.y || max < -extents.y { return false; }
    min, max := FindMinMax(t.v0.z - center.z, t.v1.z - center.z, t.v2.z - center.z);
    if min > extents.z || max < -extents.z { return false; }
    var normal := Normal(t);
    var d := Dot(Scale(-1.0, normal), Sub(t.v0, center));
    NegDot(normal, Sub(t.v0, center));
    var plane := PlaneBoxOverlap(normal, d, extents);
    if !plane { return false; }
    if full {
      ok := Class3Tests(t, b);
      return;
    }
    return true;
  }

  // ------------------------------------------------------------ what it promises

  /** Rejection is sound: a triangle sharing a point with the box always passes. */
  lemma SharedPointPasses(t: Triangle, b: CollisionAABB, full: bool, p: Point)
    requires InTriangle(t, p) && BoxHas(b, p)
    ensures TriBoxPasses(t, b, full)
  {
    forall l | true ensures !Separates(l, t, b) {
      SharedPointNotSeparated(l, t, b, p);
    }
    hide Separates;
  }

  /** A triangle with a vertex in the box passes, degenerate or not. */
  lemma VertexInsidePasses(t: Triangle, b: CollisionAABB, full: bool)
    requires BoxHas(b, t.v0)
    ensures TriBoxPasses(t, b, full)
  {
    VerticesInTriangle(t);
    SharedPointPasses(t, b, full, t.v0);
  }

  /** Growing the box keeps every accepted triangle. */
  lemma PassesMonotone(t: Triangle, a: CollisionAABB, b: CollisionAABB, full: bool)
    requires BoxInside(a, b) && TriBoxPasses(t, a, full)
    ensures TriBoxPasses(t, b, full)
  {
    forall l | Separates(l, t, b) ensures Separates(l, t, a) {
      SeparationShrinks(l, t, a, b);
    }
    hide Separates;
  }
}
