/** Segment-box and ray-box overlap (OPC_RayAABBOverlap.h): six-axis tests, exact on boxes
    with non-negative extents. */
module RayBox {
  import opened Geometry
  import opened Lines
  import opened Reals
  import opened RayTri

  /** `AIR(x) > IR(y)`: |x| > y on the patterns when y's sign bit is clear, never true when
      it is set (module FloatBits). */
  predicate Greater(x: real, y: real) {
    0.0 <= y && y < Abs(x)
  }

  /** One axis crossed from the direction (a, b) and a box axis: the projected offset stays
      within the projected half-widths. */
  predicate CrossAxis(a: real, b: real, x: real, y: real, ex: real, ey: real) {
    Abs(a * y - b * x) <= ey * Abs(a) + ex * Abs(b)
  }

  predicate CrossAxesOverlap(dir: Point, d: Point, e: Point) {
    && CrossAxis(dir.y, dir.z, d.y, d.z, e.y, e.z)
    && CrossAxis(dir.z, dir.x, d.z, d.x, e.z, e.x)
    && CrossAxis(dir.x, dir.y, d.x, d.y, e.x, e.y)
  }

  /** Offset d along one box axis within half-width e plus the half-segment's reach. */
  predicate Slab(d: real, data: real, e: real) {
    Abs(d) <= e + Abs(data)
  }

  /** `data` is the half-segment vector and `data2` the segment's midpoint. */
  predicate SegmentAABBOverlap(data: Point, data2: Point, b: CollisionAABB) {
    var d, e := Sub(data2, b.mCenter), b.mExtents;
    && Slab(d.x, data.x, e.x)
    && Slab(d.y, data.y, e.y)
    && Slab(d.z, data.z, e.z)
    && CrossAxesOverlap(data, d, e)
  }

  predicate RayAABBOverlap(ray: Ray, b: CollisionAABB) {
    var d, e := Sub(ray.mOrigin, b.mCenter), b.mExtents;
    && !(Greater(d.x, e.x) && d.x * ray.mDir.x >= 0.0)
    && !(Greater(d.y, e.y) && d.y * ray.mDir.y >= 0.0)
    && !(Greater(d.z, e.z) && d.z * ray.mDir.z >= 0.0)
    && CrossAxesOverlap(ray.mDir, d, e)
  }

  // The cached segment of a bounded query.
  function HalfSegment(ray: Ray, maxDist: real): Point {
    Scale(maxDist, Scale(0.5, ray.mDir))
  }

  function MidPoint(ray: Ray, maxDist: real): Point {
    Add(ray.mOrigin, HalfSegment(ray, maxDist))
  }

  /** Moving the offset along the direction does not change the cross-axis projection. */
  lemma CrossShift(a: real, b: real, x: real, y: real, k: real, x': real, y': real)
    requires x' == x - k * a && y' == y - k * b
    ensures a * y' - b * x' == a * y - b * x
  {
    assert a * y' == a * y - k * (a * b) && b * x' == b * x - k * (a * b);
  }

  lemma CrossBound(a: real, b: real, x: real, y: real, ex: real, ey: real)
    requires Abs(x) <= ex && Abs(y) <= ey
    ensures CrossAxis(a, b, x, y, ex, ey)
  {
    MulAbs(a, y, ey);
    MulAbs(b, x, ex);
  }

  lemma CrossAxisSound(a: real, b: real, x: real, y: real, ex: real, ey: real, x': real, y': real)
    requires Abs(x) <= ex && Abs(y) <= ey && a * y' - b * x' == a * y - b * x
    ensures CrossAxis(a, b, x', y', ex, ey)
  {
    CrossBound(a, b, x, y, ex, ey);
  }

  lemma CrossAxesSound(dir: Point, o: Point, k: real, e: Point)
    requires Abs(o.x) <= e.x && Abs(o.y) <= e.y && Abs(o.z) <= e.z
    ensures CrossAxesOverlap(dir, Sub(o, Scale(k, dir)), e)
  {
    var d := Sub(o, Scale(k, dir));
    hide Abs, CrossAxis;
    CrossShift(dir.y, dir.z, o.y, o.z, k, d.y, d.z);
    CrossShift(dir.z, dir.x, o.z, o.x, k, d.z, d.x);
    CrossShift(dir.x, dir.y, o.x, o.y, k, d.x, d.y);
    hide Sub, Scale;
    CrossAxisSound(dir.y, dir.z, o.y, o.z, e.y, e.z, d.y, d.z);
    CrossAxisSound(dir.z, dir.x, o.z, o.x, e.z, e.x, d.z, d.x);
    CrossAxisSound(dir.x, dir.y, o.x, o.y, e.x, e.y, d.x, d.y);
  }

  lemma SlabSound(o: real, k: real, d: real, e: real, o': real)
    requires Abs(o) <= e && Abs(k) <= 1.0 && o' == o - k * d
    ensures Slab(o', d, e)
  {
    MulAbs(d, k, 1.0);
  }

  lemma OffsetFromSegment(data: Point, data2: Point, k: real, c: Point)
    ensures Sub(Sub(Add(data2, Scale(k, data)), c), Scale(k, data)) == Sub(data2, c)
  {}

  /** A box that contains a point of the segment is never rejected. */
  lemma SegmentSound(data: Point, data2: Point, k: real, b: CollisionAABB)
    requires Abs(k) <= 1.0 && BoxHas(b, Add(data2, Scale(k, data)))
    ensures SegmentAABBOverlap(data, data2, b)
  {
    var o := Sub(Add(data2, Scale(k, data)), b.mCenter);
    OffsetFromSegment(data, data2, k, b.mCenter);
    var d := Sub(data2, b.mCenter);
    assert d.x == o.x - k * data.x && d.y == o.y - k * data.y && d.z == o.z - k * data.z;
    assert Abs(o.x) <= b.mExtents.x && Abs(o.y) <= b.mExtents.y && Abs(o.z) <= b.mExtents.z;
    hide CrossAxesOverlap, Slab, Abs, Add, Sub, Scale;
    SlabSound(o.x, k, data.x, b.mExtents.x, d.x);
    SlabSound(o.y, k, data.y, b.mExtents.y, d.y);
    SlabSound(o.z, k, data.z, b.mExtents.z, d.z);
    CrossAxesSound(data, o, k, b.mExtents);
  }

  lemma SegmentParameter(s: real, maxDist: real)
    requires 0.0 <= s <= maxDist
    ensures exists k :: Abs(k) <= 1.0 && s == 0.5 * maxDist + k * (0.5 * maxDist)
  {
    if maxDist == 0.0 {
      assert Abs(0.0) <= 1.0 && s == 0.5 * maxDist + 0.0 * (0.5 * maxDist);
    } else {
      DivMul(s, maxDist);
      DivRange(s, maxDist);
      var r := s / maxDist;
      var k := 2.0 * r - 1.0;
      assert 0.5 * maxDist + k * (0.5 * maxDist) == maxDist * r;
      assert Abs(k) <= 1.0 && s == 0.5 * maxDist + k * (0.5 * maxDist);
    }
  }

  lemma SegmentPoint(o: real, d: real, m: real, s: real, k: real)
    requires s == 0.5 * m + k * (0.5 * m)
    ensures o + s * d == o + m * (0.5 * d) + k * (m * (0.5 * d))
  {
    assert s * d == (0.5 * m) * d + (k * (0.5 * m)) * d;
  }

  lemma SegmentPoints(ray: Ray, maxDist: real, s: real, k: real)
    requires s == 0.5 * maxDist + k * (0.5 * maxDist)
    ensures PointOnRay(ray, s) == Add(MidPoint(ray, maxDist), Scale(k, HalfSegment(ray, maxDist)))
  {
    SegmentPoint(ray.mOrigin.x, ray.mDir.x, maxDist, s, k);
    SegmentPoint(ray.mOrigin.y, ray.mDir.y, maxDist, s, k);
    SegmentPoint(ray.mOrigin.z, ray.mDir.z, maxDist, s, k);
  }

  /** Bounded query: a point of the ray with 0 <= s <= maxDist inside the box keeps it. */
  lemma SegmentQuerySound(ray: Ray, maxDist: real, s: real, b: CollisionAABB)
    requires 0.0 <= s <= maxDist && BoxHas(b, PointOnRay(ray, s))
    ensures SegmentAABBOverlap(HalfSegment(ray, maxDist), MidPoint(ray, maxDist), b)
  {
    hide SegmentAABBOverlap, BoxHas, PointOnRay, HalfSegment, MidPoint;
    SegmentParameter(s, maxDist);
    var k :| Abs(k) <= 1.0 && s == 0.5 * maxDist + k * (0.5 * maxDist);
    SegmentPoints(ray, maxDist, s, k);
    SegmentSound(HalfSegment(ray, maxDist), MidPoint(ray, maxDist), k, b);
  }

  lemma RaySlabSound(d: real, dir: real, s: real, e: real)
    requires 0.0 <= s && Abs(d + s * dir) <= e
    ensures !(Greater(d, e) && d * dir >= 0.0)
  {
    if 0.0 < d && dir < 0.0 { PositiveProduct(d, -dir); }
    if d < 0.0 && 0.0 < dir { PositiveProduct(-d, dir); }
    if 0.0 <= dir { ProductNonNegative(s, dir); } else { ProductNonNegative(s, -dir); }
  }

  /** Unbounded query: a point of the ray with 0 <= s inside the box keeps it. */
  lemma RayQuerySound(ray: Ray, s: real, b: CollisionAABB)
    requires 0.0 <= s && BoxHas(b, PointOnRay(ray, s))
    ensures RayAABBOverlap(ray, b)
  {
    var o := Sub(PointOnRay(ray, s), b.mCenter);
    assert Sub(o, Scale(s, ray.mDir)) == Sub(ray.mOrigin, b.mCenter);
    RaySlabSound(ray.mOrigin.x - b.mCenter.x, ray.mDir.x, s, b.mExtents.x);
    RaySlabSound(ray.mOrigin.y - b.mCenter.y, ray.mDir.y, s, b.mExtents.y);
    RaySlabSound(ray.mOrigin.z - b.mCenter.z, ray.mDir.z, s, b.mExtents.z);
    CrossAxesSound(ray.mDir, o, s, b.mExtents);
    hide CrossAxesOverlap, Abs, Greater;
  }

  // ------------------------------------------------------------- completeness

  /** The slab test: some point of the segment is in the slab. */
  lemma SegmentSlab(d: real, data: real, e: real) returns (k: real)
    requires 0.0 <= e && Slab(d, data, e)
    ensures InSlab(0.0, 1.0, 1.0, k) && InSlab(d, data, e, k)
  {
    if data == 0.0 {
      k := 0.0;
    } else if Abs(d) <= Abs(data) {
      k := -d / data;
      DivMul(-d, data);
      QuotientSmall(-d, data);
    } else {
      k := if (0.0 <= d) == (0.0 <= data) then -1.0 else 1.0;
    }
  }

  lemma QuotientSmall(n: real, d: real)
    requires d != 0.0 && Abs(n) <= Abs(d)
    ensures -1.0 <= n / d <= 1.0
  {
    var q := n / d;
    DivMul(n, d);
    if 1.0 < q { if 0.0 < d { PositiveProduct(d, q - 1.0); } else { PositiveProduct(-d, q - 1.0); } }
    if q < -1.0 { if 0.0 < d { PositiveProduct(d, -1.0 - q); } else { PositiveProduct(-d, -1.0 - q); } }
  }

  /** The ray's slab test: some point of the ray is in the slab. */
  lemma RaySlab(d: real, dir: real, e: real) returns (s: real)
    requires 0.0 <= e && !(Greater(d, e) && d * dir >= 0.0)
    ensures 0.0 <= s && InSlab(d, dir, e, s)
    ensures dir == 0.0 ==> -e <= d <= e
  {
    s := 0.0;
    if e < Abs(d) {
      assert d * dir < 0.0;
      s := -d / dir;
      DivMul(-d, dir);
      if s < 0.0 {
        if 0.0 < d { PositiveProduct(-dir, -s); } else { PositiveProduct(dir, -s); }
      }
    }
  }

  lemma CrossMeets(px: real, gx: real, ex: real, py: real, gy: real, ey: real) returns (s: real)
    requires 0.0 <= ex && 0.0 <= ey && CrossAxis(gx, gy, px, py, ex, ey)
    requires (gx == 0.0 ==> -ex <= px <= ex) && (gy == 0.0 ==> -ey <= py <= ey)
    ensures SlabOf(px, gx, ex)(s) && SlabOf(py, gy, ey)(s)
  {
    s := LineMeetsRectangle(px, gx, ex, py, gy, ey);
    hide InSlab;
  }

  /** The six axes are complete: with a parameter in a given interval for each slab, and no
      cross axis separating, one parameter serves all three slabs. */
  lemma CommonParameter(I: real -> bool, d: Point, dir: Point, e: Point, ix: real, iy: real, iz: real) returns (s: real)
    requires Interval(I) && I(ix) && I(iy) && I(iz) && NonNegative(e)
    requires InSlab(d.x, dir.x, e.x, ix) && InSlab(d.y, dir.y, e.y, iy) && InSlab(d.z, dir.z, e.z, iz)
    requires CrossAxesOverlap(dir, d, e)
    ensures I(s) && InSlab(d.x, dir.x, e.x, s) && InSlab(d.y, dir.y, e.y, s) && InSlab(d.z, dir.z, e.z, s)
  {
    FlatSlab(d.x, dir.x, e.x, ix);
    FlatSlab(d.y, dir.y, e.y, iy);
    FlatSlab(d.z, dir.z, e.z, iz);
    SlabIsInterval(d.x, dir.x, e.x);
    SlabIsInterval(d.y, dir.y, e.y);
    SlabIsInterval(d.z, dir.z, e.z);
    hide InSlab, CrossAxis, Interval;
    var xy := CrossMeets(d.x, dir.x, e.x, d.y, dir.y, e.y);
    var zx := CrossMeets(d.z, dir.z, e.z, d.x, dir.x, e.x);
    var yz := CrossMeets(d.y, dir.y, e.y, d.z, dir.z, e.z);
    s := FourIntervals(I, SlabOf(d.x, dir.x, e.x), SlabOf(d.y, dir.y, e.y), SlabOf(d.z, dir.z, e.z), ix, iy, iz, xy, zx, yz);
  }

  lemma FlatSlab(p: real, g: real, e: real, s: real)
    requires InSlab(p, g, e, s)
    ensures g == 0.0 ==> -e <= p <= e
  {}

  lemma InSlabIff(c: real, e: real, o: real, g: real, s: real)
    ensures var p := o + s * g; Abs(p - c) <= e <==> InSlab(o - c, g, e, s)
  {}

  lemma InBox(b: CollisionAABB, start: Point, dir: Point, s: real)
    ensures var d := Sub(start, b.mCenter); BoxHas(b, Add(start, Scale(s, dir))) <==>
      InSlab(d.x, dir.x, b.mExtents.x, s) && InSlab(d.y, dir.y, b.mExtents.y, s) && InSlab(d.z, dir.z, b.mExtents.z, s)
  {
    var p := Add(start, Scale(s, dir));
    assert p.x == start.x + s * dir.x && p.y == start.y + s * dir.y && p.z == start.z + s * dir.z;
    hide InSlab, Abs, Add, Scale;
    InSlabIff(b.mCenter.x, b.mExtents.x, start.x, dir.x, s);
    InSlabIff(b.mCenter.y, b.mExtents.y, start.y, dir.y, s);
    InSlabIff(b.mCenter.z, b.mExtents.z, start.z, dir.z, s);
  }

  /** The segment test is exact: TRUE exactly when the segment meets the box. */
  lemma SegmentTestIff(data: Point, data2: Point, b: CollisionAABB)
    requires ValidBox(b)
    ensures SegmentAABBOverlap(data, data2, b) <==> exists k :: Abs(k) <= 1.0 && BoxHas(b, Add(data2, Scale(k, data)))
  {
    var d, e := Sub(data2, b.mCenter), b.mExtents;
    if SegmentAABBOverlap(data, data2, b) {
      var ix := SegmentSlab(d.x, data.x, e.x);
      var iy := SegmentSlab(d.y, data.y, e.y);
      var iz := SegmentSlab(d.z, data.z, e.z);
      SlabIsInterval(0.0, 1.0, 1.0);
      hide CrossAxesOverlap, Slab, Interval;
      var k := CommonParameter(SlabOf(0.0, 1.0, 1.0), d, data, e, ix, iy, iz);
      assert Abs(k) <= 1.0;
      InBox(b, data2, data, k);
    }
    hide SegmentAABBOverlap, BoxHas, Add, Scale;
    forall k | Abs(k) <= 1.0 && BoxHas(b, Add(data2, Scale(k, data))) ensures SegmentAABBOverlap(data, data2, b) {
      SegmentSound(data, data2, k, b);
    }
  }

  /** So is the bounded query's: TRUE exactly when a point of the ray with 0 <= s <= maxDist
      lies in the box. */
  lemma SegmentQueryIff(ray: Ray, maxDist: real, b: CollisionAABB)
    requires ValidBox(b) && 0.0 <= maxDist
    ensures SegmentAABBOverlap(HalfSegment(ray, maxDist), MidPoint(ray, maxDist), b) <==>
      exists s :: 0.0 <= s <= maxDist && BoxHas(b, PointOnRay(ray, s))
  {
    hide BoxHas, PointOnRay, HalfSegment, MidPoint, SegmentAABBOverlap, ValidBox;
    SegmentTestIff(HalfSegment(ray, maxDist), MidPoint(ray, maxDist), b);
    if SegmentAABBOverlap(HalfSegment(ray, maxDist), MidPoint(ray, maxDist), b) {
      var k :| Abs(k) <= 1.0 && BoxHas(b, Add(MidPoint(ray, maxDist), Scale(k, HalfSegment(ray, maxDist))));
      var s := 0.5 * maxDist + k * (0.5 * maxDist);
      WithinSegment(k, maxDist);
      SegmentPoints(ray, maxDist, s, k);
    }
    forall s | 0.0 <= s <= maxDist && BoxHas(b, PointOnRay(ray, s))
      ensures SegmentAABBOverlap(HalfSegment(ray, maxDist), MidPoint(ray, maxDist), b)
    {
      SegmentQuerySound(ray, maxDist, s, b);
    }
  }

  lemma WithinSegment(k: real, maxDist: real)
    requires Abs(k) <= 1.0 && 0.0 <= maxDist
    ensures 0.0 <= 0.5 * maxDist + k * (0.5 * maxDist) <= maxDist
  {
    MulAbs(0.5 * maxDist, k, 1.0);
  }

  /** The unbounded query's test is exact too. */
  lemma RayQueryIff(ray: Ray, b: CollisionAABB)
    requires ValidBox(b)
    ensures RayAABBOverlap(ray, b) <==> exists s :: 0.0 <= s && BoxHas(b, PointOnRay(ray, s))
  {
    var d, e := Sub(ray.mOrigin, b.mCenter), b.mExtents;
    if RayAABBOverlap(ray, b) {
      var ix := RaySlab(d.x, ray.mDir.x, e.x);
      var iy := RaySlab(d.y, ray.mDir.y, e.y);
      var iz := RaySlab(d.z, ray.mDir.z, e.z);
      FromZeroIsInterval();
      hide CrossAxesOverlap, Greater, Interval;
      var s := CommonParameter(FromZero(), d, ray.mDir, e, ix, iy, iz);
      InBox(b, ray.mOrigin, ray.mDir, s);
      assert BoxHas(b, PointOnRay(ray, s));
    }
    hide RayAABBOverlap, BoxHas, PointOnRay;
    forall s | 0.0 <= s && BoxHas(b, PointOnRay(ray, s)) ensures RayAABBOverlap(ray, b) {
      RayQuerySound(ray, s, b);
    }
  }
}
