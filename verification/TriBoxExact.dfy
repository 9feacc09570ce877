/** The full triangle-box test is exact: by Helly's theorem in the triangle's parameter plane,
    a triangle none of the 13 axes separates from a box has a point in it. */
module TriBoxExact {
  import opened Geometry
  import opened HalfPlanes
  import opened Lines
  import opened RayTri
  import opened Reals
  import opened TriBox

  predicate InRange(x: real, e: real) { -e <= x <= e }

  /** The number reached from p after w steps of length g. */
  function Walk(p: real, w: real, g: real): real { p + w * g }

  // ------------------------------------------------------------------ one slab

  /** A number between two on different sides of an interval around zero. */
  lemma CrossesZero(a: real, b: real, e: real) returns (w: real)
    requires 0.0 <= e && ((e < a && b < -e) || (a < -e && e < b))
    ensures 0.0 <= w <= 1.0 && a + w * (b - a) == 0.0
  {
    w := a / (a - b);
    DivMul(a, a - b);
    if 0.0 < a {
      DivRange(a, a - b);
    } else {
      DivRange(-a, b - a);
      SameQuotient(a, a - b);
    }
    assert (a - b) * w == a;
  }

  lemma SameQuotient(a: real, d: real)
    requires d != 0.0
    ensures a / d == (-a) / (-d)
  {}

  lemma PointBetween(a: real, b: real, e: real) returns (w: real)
    requires 0.0 <= e && !Beyond(a, b, e)
    ensures 0.0 <= w <= 1.0 && InRange(Walk(a, w, b - a), e)
  {
    if InRange(a, e) {
      w := 0.0;
    } else if InRange(b, e) {
      w := 1.0;
    } else {
      w := CrossesZero(a, b, e);
    }
  }

  /** A triangle the slab's axis does not separate has a point in the slab. */
  lemma SlabPoint(p0: real, p1: real, p2: real, e: real) returns (z: Vec)
    requires 0.0 <= e && !BeyondAll(p0, p1, p2, 0.0, e)
    ensures Bary(z.u, z.v) && InRange(Mix(z.u, z.v, p0, p1, p2), e)
  {
    var w;
    if !Beyond(p0, p1, e) {
      w := PointBetween(p0, p1, e);
      z := Vec(w, 0.0);
    } else if !Beyond(p0, p2, e) {
      w := PointBetween(p0, p2, e);
      z := Vec(0.0, w);
    } else {
      w := PointBetween(p1, p2, e);
      z := Vec(1.0 - w, w);
    }
    MixEdges(z.u, z.v, p0, p1, p2);
    hide Mix;
  }

  // ----------------------------------------------------- an edge and two slabs

  /** Offset of a point across the direction (gx, gy). */
  function Across(gx: real, gy: real, x: real, y: real): real { gy * x - gx * y }

  /** Half-width of the rectangle across the direction. */
  function Width(gx: real, gy: real, ex: real, ey: real): real { Abs(gy) * ex + Abs(gx) * ey }

  /** The axis perpendicular to (gx, gy) separates two points from the rectangle. */
  predicate Apart(gx: real, gy: real, ax: real, ay: real, cx: real, cy: real, ex: real, ey: real) {
    Beyond(Across(gx, gy, ax, ay), Across(gx, gy, cx, cy), Width(gx, gy, ex, ey))
  }

  lemma ApartFlips(gx: real, gy: real, ax: real, ay: real, cx: real, cy: real, ex: real, ey: real)
    ensures Apart(-gx, -gy, ax, ay, cx, cy, ex, ey) <==> Apart(gx, gy, ax, ay, cx, cy, ex, ey)
  {
    AcrossFlips(gx, gy, ax, ay);
    AcrossFlips(gx, gy, cx, cy);
    assert Width(-gx, -gy, ex, ey) == Width(gx, gy, ex, ey);
    hide Across, Width;
  }

  lemma AcrossFlips(gx: real, gy: real, x: real, y: real)
    ensures Across(-gx, -gy, x, y) == -Across(gx, gy, x, y)
  {}

  lemma WidthNonNegative(gx: real, gy: real, ex: real, ey: real)
    requires 0.0 <= ex && 0.0 <= ey
    ensures 0.0 <= Width(gx, gy, ex, ey)
  {
    ProductNonNegative(Abs(gy), ex);
    ProductNonNegative(Abs(gx), ey);
  }

  lemma Flat(q: real, g: real, e: real)
    requires g != 0.0 && Abs(g * q) <= Abs(g) * e
    ensures InRange(q, e)
  {
    if e < q { PositiveProduct(Abs(g), q - e); }
    if q < -e { PositiveProduct(Abs(g), -e - q); }
  }

  lemma ZeroTimes(q: real)
    ensures 0.0 * q == 0.0
  {}

  /** A line its own normal does not separate from the rectangle meets it. */
  lemma LinePoint(qx: real, qy: real, gx: real, gy: real, ex: real, ey: real) returns (s: real)
    requires 0.0 <= ex && 0.0 <= ey && (gx != 0.0 || gy != 0.0)
    requires InRange(Across(gx, gy, qx, qy), Width(gx, gy, ex, ey))
    ensures InRange(Walk(qx, s, gx), ex) && InRange(Walk(qy, s, gy), ey)
  {
    ZeroTimes(qx);
    ZeroTimes(qy);
    if gx == 0.0 { Flat(qx, gy, ex); }
    if gy == 0.0 { Flat(qy, gx, ey); }
    assert Abs(gx * qy - gy * qx) <= ey * Abs(gx) + ex * Abs(gy);
    s := LineMeetsRectangle(qx, gx, ex, qy, gy, ey);
  }

  lemma AcrossWalk(gx: real, gy: real, px: real, py: real, rx: real, ry: real, w: real)
    ensures Across(gx, gy, Walk(px, w, rx - px), Walk(py, w, ry - py)) ==
      Walk(Across(gx, gy, px, py), w, Across(gx, gy, rx, ry) - Across(gx, gy, px, py))
  {}

  /** The half-plane beyond an edge (p, q) of a triangle that none of the axes at hand
      separates: it has a point in both slabs. w is the weight of the opposite vertex r. */
  lemma ProperEdge(px: real, py: real, qx: real, qy: real, rx: real, ry: real, ex: real, ey: real) returns (s: real, w: real)
    requires 0.0 <= ex && 0.0 <= ey && (qx != px || qy != py)
    requires !Apart(qx - px, qy - py, px, py, rx, ry, ex, ey)
    ensures 0.0 <= w && InRange(Walk(Walk(px, w, rx - px), s, qx - px), ex) && InRange(Walk(Walk(py, w, ry - py), s, qy - py), ey)
  {
    var gx, gy := qx - px, qy - py;
    hide Walk, Across, Width, InRange, Beyond;
    WidthNonNegative(gx, gy, ex, ey);
    w := PointBetween(Across(gx, gy, px, py), Across(gx, gy, rx, ry), Width(gx, gy, ex, ey));
    AcrossWalk(gx, gy, px, py, rx, ry, w);
    s := LinePoint(Walk(px, w, rx - px), Walk(py, w, ry - py), gx, gy, ex, ey);
  }

  /** The same when the edge is seen end-on: along the other edge (p, r), by three intervals
      of its parameter. */
  lemma EdgeEndOn(px: real, py: real, rx: real, ry: real, ex: real, ey: real) returns (w: real)
    requires 0.0 <= ex && 0.0 <= ey && !Beyond(px, rx, ex) && !Beyond(py, ry, ey)
    requires !Apart(rx - px, ry - py, px, py, px, py, ex, ey)
    ensures 0.0 <= w && InRange(Walk(px, w, rx - px), ex) && InRange(Walk(py, w, ry - py), ey)
  {
    var wx := PointBetween(px, rx, ex);
    var wy := PointBetween(py, ry, ey);
    var wxy := 0.0;
    hide Across, Width;
    if rx != px || ry != py {
      OnItsLine(Across(rx - px, ry - py, px, py), Width(rx - px, ry - py, ex, ey));
      wxy := LinePoint(px, py, rx - px, ry - py, ex, ey);
    } else {
      StandStill(px, py, rx, ry, ex, ey, wx, wy);
    }
    hide Walk, Apart, InRange, Beyond;
    InSlabRange(px, rx - px, ex, wx);
    InSlabRange(px, rx - px, ex, wxy);
    InSlabRange(py, ry - py, ey, wy);
    InSlabRange(py, ry - py, ey, wxy);
    SlabIsInterval(px, rx - px, ex);
    SlabIsInterval(py, ry - py, ey);
    FromZeroIsInterval();
    hide InSlab, Interval;
    w := ThreeIntervals(FromZero(), SlabOf(px, rx - px, ex), SlabOf(py, ry - py, ey), wx, wy, wxy);
    InSlabRange(px, rx - px, ex, w);
    InSlabRange(py, ry - py, ey, w);
  }

  lemma OnItsLine(a: real, e: real)
    requires !Beyond(a, a, e)
    ensures InRange(a, e)
  {}

  lemma StandStill(px: real, py: real, rx: real, ry: real, ex: real, ey: real, wx: real, wy: real)
    requires rx == px && ry == py && InRange(Walk(px, wx, rx - px), ex) && InRange(Walk(py, wy, ry - py), ey)
    ensures InRange(Walk(px, 0.0, rx - px), ex) && InRange(Walk(py, 0.0, ry - py), ey)
  {}

  lemma InSlabRange(p: real, g: real, e: real, s: real)
    ensures InSlab(p, g, e, s) <==> InRange(Walk(p, s, g), e)
  {}

  lemma BeyondEdge(px: real, py: real, qx: real, qy: real, rx: real, ry: real, ex: real, ey: real) returns (s: real, w: real)
    requires 0.0 <= ex && 0.0 <= ey && !BeyondAll(px, qx, rx, 0.0, ex) && !BeyondAll(py, qy, ry, 0.0, ey)
    requires !Apart(qx - px, qy - py, px, py, rx, ry, ex, ey) && !Apart(rx - px, ry - py, px, py, qx, qy, ex, ey)
    ensures 0.0 <= w && InRange(Walk(Walk(px, w, rx - px), s, qx - px), ex) && InRange(Walk(Walk(py, w, ry - py), s, qy - py), ey)
  {
    if qx == px && qy == py {
      hide Apart;
      w := EdgeEndOn(px, py, rx, ry, ex, ey);
      s := 0.0;
    } else {
      s, w := ProperEdge(px, py, qx, qy, rx, ry, ex, ey);
    }
  }

  // ------------------------------------------- the triangle's parameter plane

  /** Where a coordinate of the triangle stays within e of zero. */
  function SlabRegion(p0: real, p1: real, p2: real, e: real): Region {
    [HalfPlane(p0 - p1, p0 - p2, e - p0), HalfPlane(p1 - p0, p2 - p0, e + p0)]
  }

  lemma SlabRegionHas(p0: real, p1: real, p2: real, e: real, z: Vec)
    ensures Has(SlabRegion(p0, p1, p2, e), z) <==> InRange(Mix(z.u, z.v, p0, p1, p2), e)
  {
    var lower, upper := SlabRegion(p0, p1, p2, e)[1], SlabRegion(p0, p1, p2, e)[0];
    MixEdges(z.u, z.v, p0, p1, p2);
    hide Mix;
    assert Level(upper, z) == e - (p0 + z.u * (p1 - p0) + z.v * (p2 - p0));
    assert Level(lower, z) == e + (p0 + z.u * (p1 - p0) + z.v * (p2 - p0));
    assert forall h :: h in SlabRegion(p0, p1, p2, e) <==> h == lower || h == upper;
    hide Level;
  }

  // The three sides of the triangle: one barycentric weight is not negative.
  const U_SIDE: Region := [HalfPlane(1.0, 0.0, 0.0)]
  const V_SIDE: Region := [HalfPlane(0.0, 1.0, 0.0)]
  const W_SIDE: Region := [HalfPlane(-1.0, -1.0, 1.0)]

  lemma SideLevels(z: Vec)
    ensures Level(HalfPlane(1.0, 0.0, 0.0), z) == z.u && Level(HalfPlane(0.0, 1.0, 0.0), z) == z.v
    ensures Level(HalfPlane(-1.0, -1.0, 1.0), z) == 1.0 - z.u - z.v
  {}

  lemma SidesHave(z: Vec)
    ensures Has(U_SIDE, z) <==> 0.0 <= z.u
    ensures Has(V_SIDE, z) <==> 0.0 <= z.v
    ensures Has(W_SIDE, z) <==> z.u + z.v <= 1.0
  {
    SideLevels(z);
    hide Level;
  }

  /** No edge's axis separates two of the vertices from the rectangle of two slabs. */
  predicate EdgesClear(x0: real, x1: real, x2: real, ex: real, y0: real, y1: real, y2: real, ey: real) {
    && !Apart(x1 - x0, y1 - y0, x0, y0, x2, y2, ex, ey) && !Apart(x0 - x1, y0 - y1, x1, y1, x2, y2, ex, ey)
    && !Apart(x2 - x1, y2 - y1, x1, y1, x0, y0, ex, ey) && !Apart(x2 - x0, y2 - y0, x0, y0, x1, y1, ex, ey)
  }

  lemma WalkMix(p0: real, p1: real, p2: real, s: real, w: real)
    ensures Mix(w, s, p0, p1, p2) == Walk(Walk(p0, w, p1 - p0), s, p2 - p0)
    ensures Mix(s, w, p0, p1, p2) == Walk(Walk(p0, w, p2 - p0), s, p1 - p0)
    ensures Mix(1.0 - w - s, s, p0, p1, p2) == Walk(Walk(p1, w, p0 - p1), s, p2 - p1)
  {}

  /** Any side of the triangle and any two slabs have a common point. */
  lemma SideAndSlabs(side: nat, x0: real, x1: real, x2: real, ex: real, y0: real, y1: real, y2: real, ey: real) returns (z: Vec)
    requires 0.0 <= ex && 0.0 <= ey && !BeyondAll(x0, x1, x2, 0.0, ex) && !BeyondAll(y0, y1, y2, 0.0, ey)
    requires EdgesClear(x0, x1, x2, ex, y0, y1, y2, ey)
    ensures Has(if side == 0 then U_SIDE else if side == 1 then V_SIDE else W_SIDE, z)
    ensures Has(SlabRegion(x0, x1, x2, ex), z) && Has(SlabRegion(y0, y1, y2, ey), z)
  {
    hide Apart, InRange, Walk, Mix, SlabRegion, Has;
    var s, w;
    if side == 0 {
      s, w := BeyondEdge(x0, y0, x2, y2, x1, y1, ex, ey);
      z := Vec(w, s);
    } else if side == 1 {
      s, w := BeyondEdge(x0, y0, x1, y1, x2, y2, ex, ey);
      z := Vec(s, w);
    } else {
      s, w := BeyondEdge(x1, y1, x2, y2, x0, y0, ex, ey);
      z := Vec(1.0 - w - s, s);
    }
    WalkMix(x0, x1, x2, s, w);
    WalkMix(y0, y1, y2, s, w);
    SidesHave(z);
    SlabRegionHas(x0, x1, x2, ex, z);
    SlabRegionHas(y0, y1, y2, ey, z);
  }

  /** A slab has a point on all three sides: a point of the triangle. */
  lemma TriangleAndSlab(p0: real, p1: real, p2: real, e: real) returns (z: Vec)
    requires 0.0 <= e && !BeyondAll(p0, p1, p2, 0.0, e)
    ensures Has(U_SIDE, z) && Has(V_SIDE, z) && Has(W_SIDE, z) && Has(SlabRegion(p0, p1, p2, e), z)
  {
    z := SlabPoint(p0, p1, p2, e);
    SidesHave(z);
    SlabRegionHas(p0, p1, p2, e, z);
  }

  // ------------------------------------------------------------ the three slabs

  lemma CornerEntry(n: real, e: real) returns (x: real)
    requires 0.0 <= e
    ensures InRange(x, e) && n * x == Abs(n) * e
  {
    x := if n < 0.0 then -e else e;
  }

  lemma ScaledRange(k: real, x: real, e: real)
    requires -1.0 <= k <= 1.0 && InRange(x, e)
    ensures InRange(k * x, e)
  {
    MulAbs(k, x, e);
    MulMono(e, Abs(k), 1.0);
  }

  /** The corner of the centred box farthest along a direction. */
  lemma FarCorner(n: Point, e: Point) returns (x: Point)
    requires NonNegative(e)
    ensures InRange(x.x, e.x) && InRange(x.y, e.y) && InRange(x.z, e.z) && Dot(n, x) == Radius(n, e) && 0.0 <= Radius(n, e)
  {
    var cx := CornerEntry(n.x, e.x);
    var cy := CornerEntry(n.y, e.y);
    var cz := CornerEntry(n.z, e.z);
    x := Point(cx, cy, cz);
    ProductNonNegative(Abs(n.x), e.x);
    ProductNonNegative(Abs(n.y), e.y);
    ProductNonNegative(Abs(n.z), e.z);
  }

  /** A point of the centred box on a given level of a direction. */
  lemma PointOnLevel(n: Point, e: Point, level: real) returns (x: Point)
    requires NonNegative(e) && InRange(level, Radius(n, e))
    ensures InRange(x.x, e.x) && InRange(x.y, e.y) && InRange(x.z, e.z) && Dot(n, x) == level
  {
    hide Dot, Radius;
    var corner := FarCorner(n, e);
    var k := Fraction(level, Radius(n, e));
    DotScale(n, k, corner);
    hide InRange;
    ScaledRange(k, corner.x, e.x);
    ScaledRange(k, corner.y, e.y);
    ScaledRange(k, corner.z, e.z);
    x := Scale(k, corner);
  }

  lemma Fraction(n: real, d: real) returns (k: real)
    requires 0.0 <= d && InRange(n, d)
    ensures -1.0 <= k <= 1.0 && k * d == n
  {
    k := 0.0;
    if d != 0.0 {
      k := n / d;
      DivMul(n, d);
      SmallQuotient(n, d);
    }
  }

  lemma SmallQuotient(n: real, d: real)
    requires 0.0 < d && -d <= n <= d
    ensures -1.0 <= n / d <= 1.0
  {
    var q := n / d;
    DivMul(n, d);
    if 1.0 < q { PositiveProduct(d, q - 1.0); }
    if q < -1.0 { PositiveProduct(d, -1.0 - q); }
  }

  lemma PlaneDeterminant(a: Point, b: Point, w: Point)
    ensures var n := Cross(a, b); Dot(a, Cross(n, b)) == -Dot(n, n) && Dot(b, Cross(w, a)) == Dot(n, w)
  {
    var n := Cross(a, b);
    hide Dot, Cross;
    Cyclic(a, n, b);
    Cyclic(n, b, a);
    Cyclic(b, w, a);
    DotSymmetric(w, n);
  }

  lemma NoThird(u: real, a: Point, v: real, b: Point, s: real, d: Point)
    requires s == 0.0
    ensures Combine(u, a, v, b, s, d) == Add(Scale(u, a), Scale(v, b))
  {}

  /** A vector perpendicular to the normal of two others is a combination of them. */
  lemma SolveInPlane(a: Point, b: Point, w: Point) returns (z: Vec)
    requires Cross(a, b) != Point(0.0, 0.0, 0.0) && Dot(Cross(a, b), w) == 0.0
    ensures w == Add(Scale(z.u, a), Scale(z.v, b))
  {
    var n := Cross(a, b);
    PlaneDeterminant(a, b, w);
    DotSelf(n);
    CramerX(n, a, b, w);
    CramerY(n, a, b, w);
    CramerZ(n, a, b, w);
    hide Dot, Cross;
    var det := Dot(a, Cross(n, b));
    CombineQuotients(Dot(w, Cross(n, b)), Dot(n, Cross(w, a)), Dot(b, Cross(w, a)), det, a, b, n, w);
    z := Vec(Dot(w, Cross(n, b)) / det, Dot(n, Cross(w, a)) / det);
    NoThird(z.u, a, z.v, b, Dot(b, Cross(w, a)) / det, n);
  }

  /** The coordinates of a point of the triangle's plane, with the box's center at zero. */
  predicate InAllSlabs(s0: Point, s1: Point, s2: Point, e: Point, z: Vec) {
    && InRange(Mix(z.u, z.v, s0.x, s1.x, s2.x), e.x)
    && InRange(Mix(z.u, z.v, s0.y, s1.y, s2.y), e.y)
    && InRange(Mix(z.u, z.v, s0.z, s1.z, s2.z), e.z)
  }

  /** A triangle with a normal: its plane meets the box unless the normal separates them. */
  lemma PlaneMeetsBox(s0: Point, s1: Point, s2: Point, e: Point) returns (z: Vec)
    requires NonNegative(e)
    requires var n := Cross(Sub(s1, s0), Sub(s2, s0)); n != Point(0.0, 0.0, 0.0) && InRange(Dot(n, s0), Radius(n, e))
    ensures InAllSlabs(s0, s1, s2, e, z)
  {
    var a, b := Sub(s1, s0), Sub(s2, s0);
    var n := Cross(a, b);
    hide Dot, Radius, Cross, InRange;
    var x := PointOnLevel(n, e, Dot(n, s0));
    DotDifference(n, x, s0);
    z := SolveInPlane(a, b, Sub(x, s0));
    hide Mix;
    Reached(x.x, s0.x, s1.x, s2.x, z, a.x, b.x);
    Reached(x.y, s0.y, s1.y, s2.y, z, a.y, b.y);
    Reached(x.z, s0.z, s1.z, s2.z, z, a.z, b.z);
  }

  lemma Reached(x: real, p0: real, p1: real, p2: real, z: Vec, a: real, b: real)
    requires a == p1 - p0 && b == p2 - p0 && x - p0 == z.u * a + z.v * b
    ensures Mix(z.u, z.v, p0, p1, p2) == x
  {
    MixEdges(z.u, z.v, p0, p1, p2);
    hide Mix;
  }

  lemma DotDifference(n: Point, p: Point, q: Point)
    ensures Dot(n, Sub(p, q)) == Dot(n, p) - Dot(n, q)
  {}

  /** A triangle without a normal lies on a line. */
  lemma Parallel(a: Point, b: Point) returns (g: Point, k: real, l: real)
    requires Cross(a, b) == Point(0.0, 0.0, 0.0)
    ensures a == Scale(k, g) && b == Scale(l, g) && (k == 1.0 || (k == 0.0 && l == 1.0))
  {
    if a == Point(0.0, 0.0, 0.0) {
      g, k, l := b, 0.0, 1.0;
    } else {
      g, k := a, 1.0;
      DotSelf(a);
      l := Dot(a, b) / Dot(a, a);
      DivMul(Dot(a, b), Dot(a, a));
      TwiceCrossed(a, b);
      hide Dot, Cross;
      ParallelEntry(Dot(a, a), Dot(a, b), l, a.x, b.x);
      ParallelEntry(Dot(a, a), Dot(a, b), l, a.y, b.y);
      ParallelEntry(Dot(a, a), Dot(a, b), l, a.z, b.z);
    }
  }

  lemma TwiceCrossed(a: Point, b: Point)
    requires Cross(a, b) == Point(0.0, 0.0, 0.0)
    ensures Dot(a, a) * b.x == Dot(a, b) * a.x && Dot(a, a) * b.y == Dot(a, b) * a.y && Dot(a, a) * b.z == Dot(a, b) * a.z
  {
    var nx, ny, nz := a.y * b.z - a.z * b.y, a.z * b.x - a.x * b.z, a.x * b.y - a.y * b.x;
    assert nx == 0.0 && ny == 0.0 && nz == 0.0;
    CrossedX(a, b, ny, nz);
    CrossedY(a, b, nx, nz);
    CrossedZ(a, b, nx, ny);
    hide Dot, Cross;
  }

  lemma CrossedX(a: Point, b: Point, ny: real, nz: real)
    requires ny == a.z * b.x - a.x * b.z && nz == a.x * b.y - a.y * b.x
    ensures Dot(a, a) * b.x - Dot(a, b) * a.x == a.z * ny - a.y * nz
  {}

  lemma CrossedY(a: Point, b: Point, nx: real, nz: real)
    requires nx == a.y * b.z - a.z * b.y && nz == a.x * b.y - a.y * b.x
    ensures Dot(a, a) * b.y - Dot(a, b) * a.y == a.x * nz - a.z * nx
  {}

  lemma CrossedZ(a: Point, b: Point, nx: real, ny: real)
    requires nx == a.y * b.z - a.z * b.y && ny == a.z * b.x - a.x * b.z
    ensures Dot(a, a) * b.z - Dot(a, b) * a.z == a.y * nx - a.x * ny
  {}

  lemma ParallelEntry(aa: real, ab: real, l: real, x: real, y: real)
    requires 0.0 < aa && aa * l == ab && aa * y == ab * x
    ensures y == l * x
  {
    var d := y - l * x;
    assert aa * d == aa * y - (aa * l) * x;
    if 0.0 < d { PositiveProduct(aa, d); }
    if d < 0.0 { PositiveProduct(aa, -d); }
  }

  /** One coordinate of the vertices, as multiples of a common step. */
  predicate OnLine(p0: real, p1: real, p2: real, g: real, k: real, l: real) {
    p1 - p0 == k * g && p2 - p0 == l * g
  }

  function Steps(z: Vec, k: real, l: real): real { k * z.u + l * z.v }

  lemma OnSlab(z: Vec, p0: real, p1: real, p2: real, g: real, k: real, l: real, e: real)
    requires OnLine(p0, p1, p2, g, k, l)
    ensures InSlab(p0, g, e, Steps(z, k, l)) <==> InRange(Mix(z.u, z.v, p0, p1, p2), e)
  {
    MixEdges(z.u, z.v, p0, p1, p2);
    hide Mix;
    assert z.u * (p1 - p0) + z.v * (p2 - p0) == Steps(z, k, l) * g;
    assert Mix(z.u, z.v, p0, p1, p2) == Walk(p0, Steps(z, k, l), g);
    InSlabRange(p0, g, e, Steps(z, k, l));
    hide Walk, InSlab;
  }

  lemma Lined(s0: Point, s1: Point, s2: Point) returns (g: Point, k: real, l: real)
    requires Cross(Sub(s1, s0), Sub(s2, s0)) == Point(0.0, 0.0, 0.0)
    ensures OnLine(s0.x, s1.x, s2.x, g.x, k, l) && OnLine(s0.y, s1.y, s2.y, g.y, k, l) && OnLine(s0.z, s1.z, s2.z, g.z, k, l)
    ensures k == 1.0 || (k == 0.0 && l == 1.0)
  {
    hide Cross;
    g, k, l := Parallel(Sub(s1, s0), Sub(s2, s0));
  }

  lemma AtStep(k: real, l: real, s: real) returns (z: Vec)
    requires k == 1.0 || (k == 0.0 && l == 1.0)
    ensures Steps(z, k, l) == s
  {
    z := if k == 1.0 then Vec(s, 0.0) else Vec(0.0, s);
  }

  /** On a line the three slabs are intervals of one parameter. */
  lemma LineMeetsBox(s0: Point, s1: Point, s2: Point, e: Point, xy: Vec, yz: Vec, zx: Vec) returns (z: Vec)
    requires Cross(Sub(s1, s0), Sub(s2, s0)) == Point(0.0, 0.0, 0.0)
    requires InRange(Mix(xy.u, xy.v, s0.x, s1.x, s2.x), e.x) && InRange(Mix(xy.u, xy.v, s0.y, s1.y, s2.y), e.y)
    requires InRange(Mix(yz.u, yz.v, s0.y, s1.y, s2.y), e.y) && InRange(Mix(yz.u, yz.v, s0.z, s1.z, s2.z), e.z)
    requires InRange(Mix(zx.u, zx.v, s0.z, s1.z, s2.z), e.z) && InRange(Mix(zx.u, zx.v, s0.x, s1.x, s2.x), e.x)
    ensures InAllSlabs(s0, s1, s2, e, z)
  {
    hide Cross, Mix, InRange, OnLine, Steps, Interval, InSlab;
    var g, k, l := Lined(s0, s1, s2);
    OnSlab(xy, s0.x, s1.x, s2.x, g.x, k, l, e.x);
    OnSlab(zx, s0.x, s1.x, s2.x, g.x, k, l, e.x);
    OnSlab(xy, s0.y, s1.y, s2.y, g.y, k, l, e.y);
    OnSlab(yz, s0.y, s1.y, s2.y, g.y, k, l, e.y);
    OnSlab(yz, s0.z, s1.z, s2.z, g.z, k, l, e.z);
    OnSlab(zx, s0.z, s1.z, s2.z, g.z, k, l, e.z);
    SlabIsInterval(s0.x, g.x, e.x);
    SlabIsInterval(s0.y, g.y, e.y);
    SlabIsInterval(s0.z, g.z, e.z);
    var s := ThreeIntervals(SlabOf(s0.x, g.x, e.x), SlabOf(s0.y, g.y, e.y), SlabOf(s0.z, g.z, e.z), Steps(xy, k, l), Steps(zx, k, l), Steps(yz, k, l));
    z := AtStep(k, l, s);
    OnSlab(z, s0.x, s1.x, s2.x, g.x, k, l, e.x);
    OnSlab(z, s0.y, s1.y, s2.y, g.y, k, l, e.y);
    OnSlab(z, s0.z, s1.z, s2.z, g.z, k, l, e.z);
  }

  // --------------------------------------------------------------- the theorem

  /** On an edge's axes separation is what Apart says in the plane of the two other axes. */
  lemma AxesApart(e: Point, p: Point, q: Point, x: Point)
    ensures var l := Cross(e, UNIT_X); Beyond(Dot(l, p), Dot(l, q), Radius(l, x)) <==> Apart(e.y, e.z, p.y, p.z, q.y, q.z, x.y, x.z)
    ensures var l := Cross(e, UNIT_Y); Beyond(Dot(l, p), Dot(l, q), Radius(l, x)) <==> Apart(e.z, e.x, p.z, p.x, q.z, q.x, x.z, x.x)
    ensures var l := Cross(e, UNIT_Z); Beyond(Dot(l, p), Dot(l, q), Radius(l, x)) <==> Apart(e.x, e.y, p.x, p.y, q.x, q.y, x.x, x.y)
  {
    AxisValues(e, p, x);
    AxisValues(e, q, x);
    hide Dot, Cross, Radius, Across, Width, Beyond;
  }

  lemma AxisValues(e: Point, p: Point, x: Point)
    ensures Dot(Cross(e, UNIT_X), p) == Across(e.y, e.z, p.y, p.z) && Radius(Cross(e, UNIT_X), x) == Width(e.y, e.z, x.y, x.z)
    ensures Dot(Cross(e, UNIT_Y), p) == Across(e.z, e.x, p.z, p.x) && Radius(Cross(e, UNIT_Y), x) == Width(e.z, e.x, x.z, x.x)
    ensures Dot(Cross(e, UNIT_Z), p) == Across(e.x, e.y, p.x, p.y) && Radius(Cross(e, UNIT_Z), x) == Width(e.x, e.y, x.x, x.y)
  {
    CrossUnits(e, p, x);
    hide Dot, Cross, Radius, Abs;
  }

  /** The nine edge axes, in the three coordinate planes. */
  predicate AllEdgesClear(s0: Point, s1: Point, s2: Point, e: Point) {
    && EdgesClear(s0.y, s1.y, s2.y, e.y, s0.z, s1.z, s2.z, e.z)
    && EdgesClear(s0.z, s1.z, s2.z, e.z, s0.x, s1.x, s2.x, e.x)
    && EdgesClear(s0.x, s1.x, s2.x, e.x, s0.y, s1.y, s2.y, e.y)
  }

  lemma EdgesClearOf(gx0: real, gy0: real, gx1: real, gy1: real, gx2: real, gy2: real,
                     x0: real, x1: real, x2: real, ex: real, y0: real, y1: real, y2: real, ey: real)
    requires gx0 == x1 - x0 && gy0 == y1 - y0 && gx1 == x2 - x1 && gy1 == y2 - y1 && gx2 == x0 - x2 && gy2 == y0 - y2
    requires !Apart(gx0, gy0, x0, y0, x2, y2, ex, ey) && !Apart(gx0, gy0, x1, y1, x2, y2, ex, ey)
    requires !Apart(gx1, gy1, x0, y0, x1, y1, ex, ey) && !Apart(gx2, gy2, x0, y0, x1, y1, ex, ey)
    ensures EdgesClear(x0, x1, x2, ex, y0, y1, y2, ey)
  {
    ApartFlips(gx0, gy0, x1, y1, x2, y2, ex, ey);
    ApartFlips(gx2, gy2, x0, y0, x1, y1, ex, ey);
    ApartSwaps(gx1, gy1, x0, y0, x1, y1, ex, ey);
    hide Apart;
  }

  lemma ApartSwaps(gx: real, gy: real, ax: real, ay: real, cx: real, cy: real, ex: real, ey: real)
    ensures Apart(gx, gy, ax, ay, cx, cy, ex, ey) <==> Apart(gx, gy, cx, cy, ax, ay, ex, ey)
  {
    hide Across, Width;
  }

  lemma NotSeparated(t: Triangle, b: CollisionAABB, k: Point)
    requires !Separates(Cross(Edge0(t), k), t, b) && !Separates(Cross(Edge1(t), k), t, b) && !Separates(Cross(Edge2(t), k), t, b)
    ensures var s0, s1, s2, e := Sub(t.v0, b.mCenter), Sub(t.v1, b.mCenter), Sub(t.v2, b.mCenter), b.mExtents;
      var l0, l1, l2 := Cross(Edge0(t), k), Cross(Edge1(t), k), Cross(Edge2(t), k);
      && !Beyond(Dot(l0, s0), Dot(l0, s2), Radius(l0, e)) && !Beyond(Dot(l0, s1), Dot(l0, s2), Radius(l0, e))
      && !Beyond(Dot(l1, s0), Dot(l1, s1), Radius(l1, e)) && !Beyond(Dot(l2, s0), Dot(l2, s1), Radius(l2, e))
  {
    EdgeAxisPairs(t, b, k);
    hide Dot, Cross, Radius, Edge0, Edge1, Edge2, Sub, Separates, Beyond;
  }

  lemma PassingEdgesClear(t: Triangle, b: CollisionAABB)
    requires TriBoxPasses(t, b, true)
    ensures AllEdgesClear(Sub(t.v0, b.mCenter), Sub(t.v1, b.mCenter), Sub(t.v2, b.mCenter), b.mExtents)
  {
    var s0, s1, s2, e := Sub(t.v0, b.mCenter), Sub(t.v1, b.mCenter), Sub(t.v2, b.mCenter), b.mExtents;
    var e0, e1, e2 := Edge0(t), Edge1(t), Edge2(t);
    assert e0 == Sub(s1, s0) && e1 == Sub(s2, s1) && e2 == Sub(s0, s2);
    hide Separates, Apart, Dot, Cross, Radius, Beyond;
    NotSeparated(t, b, UNIT_X);
    NotSeparated(t, b, UNIT_Y);
    NotSeparated(t, b, UNIT_Z);
    AxesApart(e0, s0, s2, e);
    AxesApart(e0, s1, s2, e);
    AxesApart(e1, s0, s1, e);
    AxesApart(e2, s0, s1, e);
    EdgesClearOf(e0.y, e0.z, e1.y, e1.z, e2.y, e2.z, s0.y, s1.y, s2.y, e.y, s0.z, s1.z, s2.z, e.z);
    EdgesClearOf(e0.z, e0.x, e1.z, e1.x, e2.z, e2.x, s0.z, s1.z, s2.z, e.z, s0.x, s1.x, s2.x, e.x);
    EdgesClearOf(e0.x, e0.y, e1.x, e1.y, e2.x, e2.y, s0.x, s1.x, s2.x, e.x, s0.y, s1.y, s2.y, e.y);
  }

  lemma Shifted(p: real, q: real, r: real, c: real, e: real)
    ensures BeyondAll(p - c, q - c, r - c, 0.0, e) <==> BeyondAll(p, q, r, c, e)
  {}

  lemma PassingSlabs(t: Triangle, b: CollisionAABB)
    requires TriBoxPasses(t, b, true)
    ensures var s0, s1, s2, e := Sub(t.v0, b.mCenter), Sub(t.v1, b.mCenter), Sub(t.v2, b.mCenter), b.mExtents;
      !BeyondAll(s0.x, s1.x, s2.x, 0.0, e.x) && !BeyondAll(s0.y, s1.y, s2.y, 0.0, e.y) && !BeyondAll(s0.z, s1.z, s2.z, 0.0, e.z)
  {
    BoxAxis(t, b);
    var c := b.mCenter;
    Shifted(t.v0.x, t.v1.x, t.v2.x, c.x, b.mExtents.x);
    Shifted(t.v0.y, t.v1.y, t.v2.y, c.y, b.mExtents.y);
    Shifted(t.v0.z, t.v1.z, t.v2.z, c.z, b.mExtents.z);
    hide Separates, BeyondAll;
  }

  lemma NormalOfEdges(a: Point, b: Point)
    ensures Cross(a, Sub(b, a)) == Cross(a, b)
  {}

  lemma PassingNormal(t: Triangle, b: CollisionAABB)
    requires TriBoxPasses(t, b, true)
    ensures var s0, s1, s2 := Sub(t.v0, b.mCenter), Sub(t.v1, b.mCenter), Sub(t.v2, b.mCenter);
      var n := Cross(Sub(s1, s0), Sub(s2, s0)); InRange(Dot(n, s0), Radius(n, b.mExtents))
  {
    var s0, s1, s2 := Sub(t.v0, b.mCenter), Sub(t.v1, b.mCenter), Sub(t.v2, b.mCenter);
    assert Sub(s1, s0) == Edge0(t) && Sub(Sub(s2, s0), Sub(s1, s0)) == Edge1(t);
    NormalOfEdges(Sub(s1, s0), Sub(s2, s0));
    NormalAxis(t, b);
    hide Separates, Dot, Cross, Radius, Sub;
  }

  function Family(s0: Point, s1: Point, s2: Point, e: Point): seq<Region> {
    [U_SIDE, V_SIDE, W_SIDE, SlabRegion(s0.x, s1.x, s2.x, e.x), SlabRegion(s0.y, s1.y, s2.y, e.y), SlabRegion(s0.z, s1.z, s2.z, e.z)]
  }

  /** The regions with the given indices have a common point. */
  ghost predicate Common(fam: seq<Region>, indices: set<nat>) {
    exists z :: AllHave(fam, indices, z)
  }

  ghost predicate AllHave(fam: seq<Region>, indices: set<nat>, z: Vec) {
    forall i :: i in indices && i < |fam| ==> Has(fam[i], z)
  }

  lemma SomeOfCommon(fam: seq<Region>, indices: set<nat>, i: nat, j: nat, k: nat)
    requires Common(fam, indices) && i in indices && j in indices && k in indices && i < |fam| && j < |fam| && k < |fam|
    ensures Meet(fam[i], fam[j], fam[k])
  {
    hide Has;
    var z :| AllHave(fam, indices, z);
    assert Has(fam[i], z) && Has(fam[j], z) && Has(fam[k], z);
  }

  /** Which regions have a common point: the triangle with any slab, any side with any two
      slabs, and the three slabs. */
  ghost predicate Linked(fam: seq<Region>) {
    && Common(fam, {0, 1, 2, 3}) && Common(fam, {0, 1, 2, 4}) && Common(fam, {0, 1, 2, 5}) && Common(fam, {3, 4, 5})
    && forall side: nat :: side < 3 ==> Common(fam, {side, 3, 4}) && Common(fam, {side, 4, 5}) && Common(fam, {side, 5, 3})
  }

  lemma LinkedMeet(fam: seq<Region>, i: nat, j: nat, k: nat)
    requires |fam| == 6 && Linked(fam) && i < 6 && j < 6 && k < 6
    ensures Meet(fam[i], fam[j], fam[k])
  {
    var side: nat := if i < 3 then i else if j < 3 then j else if k < 3 then k else 0;
    hide Common, Meet;
    var all: set<nat> := {i, j, k};
    if 3 !in all && 4 !in all {
      SomeOfCommon(fam, {0, 1, 2, 5}, i, j, k);
    } else if 4 !in all && 5 !in all {
      SomeOfCommon(fam, {0, 1, 2, 3}, i, j, k);
    } else if 3 !in all && 5 !in all {
      SomeOfCommon(fam, {0, 1, 2, 4}, i, j, k);
    } else if 3 !in all {
      SomeOfCommon(fam, {side, 4, 5}, i, j, k);
    } else if 4 !in all {
      SomeOfCommon(fam, {side, 5, 3}, i, j, k);
    } else if 5 !in all {
      SomeOfCommon(fam, {side, 3, 4}, i, j, k);
    } else {
      SomeOfCommon(fam, {3, 4, 5}, i, j, k);
    }
  }

  /** What the 13 axes say, with the box's center at zero. */
  predicate Unseparated(s0: Point, s1: Point, s2: Point, e: Point) {
    && !BeyondAll(s0.x, s1.x, s2.x, 0.0, e.x) && !BeyondAll(s0.y, s1.y, s2.y, 0.0, e.y) && !BeyondAll(s0.z, s1.z, s2.z, 0.0, e.z)
    && InRange(Dot(Cross(Sub(s1, s0), Sub(s2, s0)), s0), Radius(Cross(Sub(s1, s0), Sub(s2, s0)), e))
    && AllEdgesClear(s0, s1, s2, e)
  }

  lemma SlabsCommon(s0: Point, s1: Point, s2: Point, e: Point)
    requires NonNegative(e) && Unseparated(s0, s1, s2, e)
    ensures Common(Family(s0, s1, s2, e), {3, 4, 5})
  {
    hide BeyondAll, EdgesClear, InRange, Mix, Has, Dot, Radius, Cross, SlabRegion;
    var n := Cross(Sub(s1, s0), Sub(s2, s0));
    var z;
    if n == Point(0.0, 0.0, 0.0) {
      var xy := SideAndSlabs(0, s0.x, s1.x, s2.x, e.x, s0.y, s1.y, s2.y, e.y);
      var yz := SideAndSlabs(0, s0.y, s1.y, s2.y, e.y, s0.z, s1.z, s2.z, e.z);
      var zx := SideAndSlabs(0, s0.z, s1.z, s2.z, e.z, s0.x, s1.x, s2.x, e.x);
      SlabRegionHas(s0.x, s1.x, s2.x, e.x, xy);
      SlabRegionHas(s0.y, s1.y, s2.y, e.y, xy);
      SlabRegionHas(s0.y, s1.y, s2.y, e.y, yz);
      SlabRegionHas(s0.z, s1.z, s2.z, e.z, yz);
      SlabRegionHas(s0.z, s1.z, s2.z, e.z, zx);
      SlabRegionHas(s0.x, s1.x, s2.x, e.x, zx);
      z := LineMeetsBox(s0, s1, s2, e, xy, yz, zx);
    } else {
      z := PlaneMeetsBox(s0, s1, s2, e);
    }
    SlabRegionHas(s0.x, s1.x, s2.x, e.x, z);
    SlabRegionHas(s0.y, s1.y, s2.y, e.y, z);
    SlabRegionHas(s0.z, s1.z, s2.z, e.z, z);
    assert AllHave(Family(s0, s1, s2, e), {3, 4, 5}, z);
  }

  lemma TriangleCommon(s0: Point, s1: Point, s2: Point, e: Point)
    requires NonNegative(e) && Unseparated(s0, s1, s2, e)
    ensures var fam := Family(s0, s1, s2, e); Common(fam, {0, 1, 2, 3}) && Common(fam, {0, 1, 2, 4}) && Common(fam, {0, 1, 2, 5})
  {
    hide BeyondAll, EdgesClear, Has, Dot, Radius, Cross, SlabRegion;
    var fam := Family(s0, s1, s2, e);
    var x := TriangleAndSlab(s0.x, s1.x, s2.x, e.x);
    assert AllHave(fam, {0, 1, 2, 3}, x);
    var y := TriangleAndSlab(s0.y, s1.y, s2.y, e.y);
    assert AllHave(fam, {0, 1, 2, 4}, y);
    var z := TriangleAndSlab(s0.z, s1.z, s2.z, e.z);
    assert AllHave(fam, {0, 1, 2, 5}, z);
  }

  lemma SideCommon(s0: Point, s1: Point, s2: Point, e: Point, side: nat)
    requires NonNegative(e) && Unseparated(s0, s1, s2, e) && side < 3
    ensures var fam := Family(s0, s1, s2, e); Common(fam, {side, 3, 4}) && Common(fam, {side, 4, 5}) && Common(fam, {side, 5, 3})
  {
    hide BeyondAll, EdgesClear, Has, Dot, Radius, Cross, SlabRegion;
    var fam := Family(s0, s1, s2, e);
    var xy := SideAndSlabs(side, s0.x, s1.x, s2.x, e.x, s0.y, s1.y, s2.y, e.y);
    assert AllHave(fam, {side, 3, 4}, xy);
    var yz := SideAndSlabs(side, s0.y, s1.y, s2.y, e.y, s0.z, s1.z, s2.z, e.z);
    assert AllHave(fam, {side, 4, 5}, yz);
    var zx := SideAndSlabs(side, s0.z, s1.z, s2.z, e.z, s0.x, s1.x, s2.x, e.x);
    assert AllHave(fam, {side, 5, 3}, zx);
  }

  lemma CommonPoint(s0: Point, s1: Point, s2: Point, e: Point) returns (z: Vec)
    requires NonNegative(e) && Unseparated(s0, s1, s2, e)
    ensures Bary(z.u, z.v) && InAllSlabs(s0, s1, s2, e, z)
  {
    var fam := Family(s0, s1, s2, e);
    hide Unseparated, NonNegative, Common, Meet;
    SlabsCommon(s0, s1, s2, e);
    TriangleCommon(s0, s1, s2, e);
    forall side: nat | side < 3 ensures Common(fam, {side, 3, 4}) && Common(fam, {side, 4, 5}) && Common(fam, {side, 5, 3}) {
      SideCommon(s0, s1, s2, e, side);
    }
    forall i, j, k | 0 <= i < 6 && 0 <= j < 6 && 0 <= k < 6 ensures Meet(fam[i], fam[j], fam[k]) {
      LinkedMeet(fam, i, j, k);
    }
    hide Has;
    z := Helly(fam);
    FamilyPoint(s0, s1, s2, e, z);
  }

  lemma FamilyPoint(s0: Point, s1: Point, s2: Point, e: Point, z: Vec)
    requires forall i :: 0 <= i < 6 ==> Has(Family(s0, s1, s2, e)[i], z)
    ensures Bary(z.u, z.v) && InAllSlabs(s0, s1, s2, e, z)
  {
    hide Has, SlabRegion, Mix;
    var fam := Family(s0, s1, s2, e);
    assert Has(fam[0], z) && Has(fam[1], z) && Has(fam[2], z) && Has(fam[3], z) && Has(fam[4], z) && Has(fam[5], z);
    SidesHave(z);
    SlabRegionHas(s0.x, s1.x, s2.x, e.x, z);
    SlabRegionHas(s0.y, s1.y, s2.y, e.y, z);
    SlabRegionHas(s0.z, s1.z, s2.z, e.z, z);
  }

  lemma LocalPoint(t: Triangle, b: CollisionAABB, z: Vec)
    requires InAllSlabs(Sub(t.v0, b.mCenter), Sub(t.v1, b.mCenter), Sub(t.v2, b.mCenter), b.mExtents, z)
    ensures BoxHas(b, At(t, z.u, z.v))
  {
    hide Mix;
    var c := b.mCenter;
    MixShift(z.u, z.v, t.v0.x, t.v1.x, t.v2.x, c.x);
    MixShift(z.u, z.v, t.v0.y, t.v1.y, t.v2.y, c.y);
    MixShift(z.u, z.v, t.v0.z, t.v1.z, t.v2.z, c.z);
  }

  lemma PassingUnseparated(t: Triangle, b: CollisionAABB)
    requires TriBoxPasses(t, b, true)
    ensures Unseparated(Sub(t.v0, b.mCenter), Sub(t.v1, b.mCenter), Sub(t.v2, b.mCenter), b.mExtents)
  {
    PassingSlabs(t, b);
    PassingNormal(t, b);
    PassingEdgesClear(t, b);
    hide TriBoxPasses, BeyondAll, AllEdgesClear, Dot, Cross, Radius, Sub;
  }

  /** The triangle and the solid box have a point in common. */
  ghost predicate Touches(t: Triangle, b: CollisionAABB) {
    exists p :: InTriangle(t, p) && BoxHas(b, p)
  }

  /** With all 13 axes the test is exact for every triangle, degenerate ones included: it
      accepts exactly the triangles that touch the box. */
  lemma FullTestIff(t: Triangle, b: CollisionAABB)
    requires ValidBox(b)
    ensures TriBoxPasses(t, b, true) <==> Touches(t, b)
  {
    hide TriBoxPasses, BoxHas, Unseparated, InAllSlabs, At, Sub;
    if TriBoxPasses(t, b, true) {
      PassingUnseparated(t, b);
      var z := CommonPoint(Sub(t.v0, b.mCenter), Sub(t.v1, b.mCenter), Sub(t.v2, b.mCenter), b.mExtents);
      LocalPoint(t, b, z);
      assert InTriangle(t, At(t, z.u, z.v));
    }
    hide InTriangle;
    forall p | InTriangle(t, p) && BoxHas(b, p) ensures TriBoxPasses(t, b, true) {
      SharedPointPasses(t, b, true, p);
    }
  }
}
