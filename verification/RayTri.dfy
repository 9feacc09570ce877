/** Ray-triangle intersection (OPC_RayTriOverlap.h): Moeller-Trumbore with and without
    backface culling.  The answer is compared with the geometric meaning of a hit: the
    point of the ray at the reported distance is the reported barycentric point. */
module RayTri {
  import opened Geometry
  import opened Reals

  const LOCAL_EPSILON: real := 0.000001

  datatype Ray = Ray(mOrigin: Point, mDir: Point)

  function PointOnRay(ray: Ray, s: real): Point {
    Add(ray.mOrigin, Scale(s, ray.mDir))
  }

  /** The ray at parameter `s` is the point of the triangle with coordinates (u, v). */
  predicate HitsAt(ray: Ray, t: Triangle, u: real, v: real, s: real) {
    Bary(u, v) && PointOnRay(ray, s) == At(t, u, v)
  }

  function Det(ray: Ray, t: Triangle): real {
    Dot(Sub(t.v1, t.v0), Cross(ray.mDir, Sub(t.v2, t.v0)))
  }

  /** Which orientations the test lets through: front faces only when culling. */
  predicate Facing(ray: Ray, t: Triangle, culling: bool) {
    var det := Det(ray, t);
    if culling then LOCAL_EPSILON <= det else det <= -LOCAL_EPSILON || LOCAL_EPSILON <= det
  }

  /** The ray's line meets the triangle, against its normal, or from either side without
      culling, and not too flat for its area. */
  ghost predicate RayHits(ray: Ray, t: Triangle, culling: bool) {
    var d := Dot(ray.mDir, PlaneNormal(t));
    (d <= -0.000001 || (!culling && 0.000001 <= d)) && exists s :: InTriangle(t, PointOnRay(ray, s))
  }

  /** The determinant is the direction along the normal, with the opposite sign. */
  lemma DetAgainstNormal(ray: Ray, t: Triangle)
    ensures Det(ray, t) == -Dot(ray.mDir, PlaneNormal(t))
  {
    var d, e1, e2 := ray.mDir, Sub(t.v1, t.v0), Sub(t.v2, t.v0);
    hide Sub, Dot, Cross;
    Cyclic(e1, d, e2);
    Cyclic(d, e1, e2);
  }

  // Numerators of Cramer's rule.
  function NumU(ray: Ray, t: Triangle): real {
    Dot(Sub(ray.mOrigin, t.v0), Cross(ray.mDir, Sub(t.v2, t.v0)))
  }
  function NumV(ray: Ray, t: Triangle): real {
    Dot(ray.mDir, Cross(Sub(ray.mOrigin, t.v0), Sub(t.v1, t.v0)))
  }
  function NumT(ray: Ray, t: Triangle): real {
    Dot(Sub(t.v2, t.v0), Cross(Sub(ray.mOrigin, t.v0), Sub(t.v1, t.v0)))
  }

  // Cramer's rule, one coordinate at a time.
  lemma CramerX(d: Point, e1: Point, e2: Point, w: Point)
    ensures Dot(e1, Cross(d, e2)) * w.x == Dot(w, Cross(d, e2)) * e1.x + Dot(d, Cross(w, e1)) * e2.x - Dot(e2, Cross(w, e1)) * d.x
  {}

  lemma CramerY(d: Point, e1: Point, e2: Point, w: Point)
    ensures Dot(e1, Cross(d, e2)) * w.y == Dot(w, Cross(d, e2)) * e1.y + Dot(d, Cross(w, e1)) * e2.y - Dot(e2, Cross(w, e1)) * d.y
  {}

  lemma CramerZ(d: Point, e1: Point, e2: Point, w: Point)
    ensures Dot(e1, Cross(d, e2)) * w.z == Dot(w, Cross(d, e2)) * e1.z + Dot(d, Cross(w, e1)) * e2.z - Dot(e2, Cross(w, e1)) * d.z
  {}

  function Combine(u: real, a: Point, v: real, b: Point, s: real, d: Point): Point {
    Point(u * a.x + v * b.x - s * d.x, u * a.y + v * b.y - s * d.y, u * a.z + v * b.z - s * d.z)
  }

  lemma Cyclic(a: Point, b: Point, c: Point)
    ensures Dot(a, Cross(b, c)) == Dot(b, Cross(c, a)) == Dot(c, Cross(a, b)) == -Dot(a, Cross(c, b))
  {
    OneTurn(a, b, c);
    OneTurn(b, c, a);
    Swapped(a, b, c);
    hide Dot, Cross;
  }

  lemma OneTurn(a: Point, b: Point, c: Point)
    ensures Dot(a, Cross(b, c)) == Dot(b, Cross(c, a))
  {}

  lemma Swapped(a: Point, b: Point, c: Point)
    ensures Dot(a, Cross(b, c)) == -Dot(a, Cross(c, b))
  {}

  lemma DotCombine(u: real, a: Point, v: real, b: Point, s: real, d: Point, p: Point)
    ensures Dot(Combine(u, a, v, b, s, d), p) == u * Dot(a, p) + v * Dot(b, p) - s * Dot(d, p)
  {}

  lemma Solve(d: Point, e1: Point, e2: Point, u: real, v: real, s: real)
    ensures var w := Combine(u, e1, v, e2, s, d); var det := Dot(e1, Cross(d, e2));
      Dot(w, Cross(d, e2)) == u * det && Dot(d, Cross(w, e1)) == v * det && Dot(e2, Cross(w, e1)) == s * det
  {
    var w := Combine(u, e1, v, e2, s, d);
    hide Dot, Cross, Combine;
    DotCombine(u, e1, v, e2, s, d, Cross(d, e2));
    Perpendicular(d, e2);
    DotCombine(u, e1, v, e2, s, d, Cross(e1, d));
    Perpendicular(e1, d);
    Cyclic(w, e1, d);
    Cyclic(e1, d, e2);
    DotCombine(u, e1, v, e2, s, d, Cross(e1, e2));
    Perpendicular(e1, e2);
    Cyclic(w, e1, e2);
    Cyclic(d, e1, e2);
  }

  lemma MixEdges(u: real, v: real, a: real, b: real, c: real)
    ensures Mix(u, v, a, b, c) == a + u * (b - a) + v * (c - a)
  {}

  lemma HitEntry(o: real, s: real, d: real, u: real, v: real, a: real, b: real, c: real)
    ensures o + s * d == Mix(u, v, a, b, c) <==> o - a == u * (b - a) + v * (c - a) - s * d
  {
    MixEdges(u, v, a, b, c);
    hide Mix;
  }

  /** A hit is a solution of the linear system in (u, v, s). */
  lemma HitIsSolution(ray: Ray, t: Triangle, u: real, v: real, s: real)
    ensures PointOnRay(ray, s) == At(t, u, v) <==>
            Sub(ray.mOrigin, t.v0) == Combine(u, Sub(t.v1, t.v0), v, Sub(t.v2, t.v0), s, ray.mDir)
  {
    hide Mix;
    var o, d := ray.mOrigin, ray.mDir;
    HitEntry(o.x, s, d.x, u, v, t.v0.x, t.v1.x, t.v2.x);
    HitEntry(o.y, s, d.y, u, v, t.v0.y, t.v1.y, t.v2.y);
    HitEntry(o.z, s, d.z, u, v, t.v0.z, t.v1.z, t.v2.z);
  }

  lemma Divide(a: real, b: real, c: real, d: real, x: real, y: real, z: real, w: real)
    requires d != 0.0 && d * w == a * x + b * y - c * z
    ensures w == (a / d) * x + (b / d) * y - (c / d) * z
  {
    DivMul(a, d);
    DivMul(b, d);
    DivMul(c, d);
    var p, q, r := a / d, b / d, c / d;
    var e := w - (p * x + q * y - r * z);
    assert d * e == d * w - ((d * p) * x + (d * q) * y - (d * r) * z);
    if 0.0 < e { ProductMeansZero(d, e); }
    if e < 0.0 { ProductMeansZero(d, -e); }
  }

  lemma CombineQuotients(a: real, b: real, c: real, det: real, e1: Point, e2: Point, d: Point, w: Point)
    requires det != 0.0
    requires det * w.x == a * e1.x + b * e2.x - c * d.x
    requires det * w.y == a * e1.y + b * e2.y - c * d.y
    requires det * w.z == a * e1.z + b * e2.z - c * d.z
    ensures w == Combine(a / det, e1, b / det, e2, c / det, d)
  {
    Divide(a, b, c, det, e1.x, e2.x, d.x, w.x);
    Divide(a, b, c, det, e1.y, e2.y, d.y, w.y);
    Divide(a, b, c, det, e1.z, e2.z, d.z, w.z);
  }

  lemma ProductMeansZero(d: real, e: real)
    requires d != 0.0 && 0.0 < e
    ensures d * e != 0.0
  {}

  /** The quotients of Cramer's rule solve the system. */
  lemma QuotientsHit(ray: Ray, t: Triangle)
    requires Det(ray, t) != 0.0
    ensures PointOnRay(ray, NumT(ray, t) / Det(ray, t)) == At(t, NumU(ray, t) / Det(ray, t), NumV(ray, t) / Det(ray, t))
  {
    var d, e1, e2, w := ray.mDir, Sub(t.v1, t.v0), Sub(t.v2, t.v0), Sub(ray.mOrigin, t.v0);
    var det, a, b, c := Det(ray, t), NumU(ray, t), NumV(ray, t), NumT(ray, t);
    hide Dot, Cross, Sub, At, PointOnRay;
    CramerX(d, e1, e2, w);
    CramerY(d, e1, e2, w);
    CramerZ(d, e1, e2, w);
    CombineQuotients(a, b, c, det, e1, e2, d, w);
    hide Det, NumU, NumV, NumT, Combine;
    HitIsSolution(ray, t, a / det, b / det, c / det);
  }

  lemma ByDet(a: real, u: real, d: real)
    requires d != 0.0 && a == u * d
    ensures u == a / d
  {
    DivMul(a, d);
    var e := u - a / d;
    assert d * e == 0.0;
    if 0.0 < e { ProductMeansZero(d, e); }
    if e < 0.0 { ProductMeansZero(d, -e); }
  }

  /** There is only one solution, so a hit determines distance and coordinates. */
  lemma HitIsQuotients(ray: Ray, t: Triangle, u: real, v: real, s: real)
    requires Det(ray, t) != 0.0 && PointOnRay(ray, s) == At(t, u, v)
    ensures u == NumU(ray, t) / Det(ray, t) && v == NumV(ray, t) / Det(ray, t) && s == NumT(ray, t) / Det(ray, t)
  {
    HitIsSolution(ray, t, u, v, s);
    Solve(ray.mDir, Sub(t.v1, t.v0), Sub(t.v2, t.v0), u, v, s);
    hide Dot, Cross, Combine, At, PointOnRay;
    ByDet(NumU(ray, t), u, Det(ray, t));
    ByDet(NumV(ray, t), v, Det(ray, t));
    ByDet(NumT(ray, t), s, Det(ray, t));
  }

  /** Distance and coordinates stored in the stabbed face. */
  datatype Stab = Stab(mDistance: real, mU: real, mV: real)

  function StabOf(ray: Ray, t: Triangle): Stab
    requires Det(ray, t) != 0.0
  {
    Stab(NumT(ray, t) / Det(ray, t), NumU(ray, t) / Det(ray, t), NumV(ray, t) / Det(ray, t))
  }

  predicate Accepts(ray: Ray, t: Triangle, culling: bool) {
    Facing(ray, t, culling) && Bary(StabOf(ray, t).mU, StabOf(ray, t).mV)
  }

  /** The algebraic acceptance test is the geometric one; the stored values are the hit, the
      only point of the line in the triangle: O + distance * D equals the barycentric point. */
  lemma AcceptsIffHits(ray: Ray, t: Triangle, culling: bool)
    ensures Accepts(ray, t, culling) <==> RayHits(ray, t, culling)
    ensures Accepts(ray, t, culling) ==> var h := StabOf(ray, t); HitsAt(ray, t, h.mU, h.mV, h.mDistance)
    ensures Accepts(ray, t, culling) ==> forall s :: InTriangle(t, PointOnRay(ray, s)) <==> s == StabOf(ray, t).mDistance
  {
    DetAgainstNormal(ray, t);
    hide Det, NumU, NumV, NumT, At, PointOnRay, Dot, PlaneNormal;
    if Facing(ray, t, culling) {
      QuotientsHit(ray, t);
      var h := StabOf(ray, t);
      assert Accepts(ray, t, culling) ==> HitsAt(ray, t, h.mU, h.mV, h.mDistance);
      forall s | InTriangle(t, PointOnRay(ray, s))
        ensures s == h.mDistance && Bary(h.mU, h.mV)
      {
        var u, v :| Bary(u, v) && PointOnRay(ray, s) == At(t, u, v);
        HitIsQuotients(ray, t, u, v, s);
      }
      assert Bary(h.mU, h.mV) ==> InTriangle(t, PointOnRay(ray, h.mDistance));
    }
  }

  lemma ScaledBounds(a: real, b: real, d: real)
    requires 0.0 < d
    ensures a / d < 0.0 <==> a < 0.0
    ensures a / d + b / d <= 1.0 <==> a + b <= d
  {
    DivMul(a, d);
    DivMul(b, d);
    var p, q := a / d, b / d;
    assert d * (p + q) == a + b;
    if p < 0.0 { PositiveProduct(d, -p); } else { ProductNonNegative(d, p); }
    if p + q <= 1.0 { MulMono(d, p + q, 1.0); } else { PositiveProduct(d, p + q - 1.0); }
  }

  lemma TimesInverse(a: real, d: real)
    requires d != 0.0
    ensures a * (1.0 / d) == a / d
  {
    DivMul(1.0, d);
    ByDet(a, a * (1.0 / d), d);
  }

  /** With culling the bounds are tested before the division by the positive determinant. */
  lemma UnscaledVerdict(ray: Ray, t: Triangle)
    requires LOCAL_EPSILON <= Det(ray, t)
    ensures Accepts(ray, t, true) <==>
      0.0 <= NumU(ray, t) <= Det(ray, t) && 0.0 <= NumV(ray, t) && NumU(ray, t) + NumV(ray, t) <= Det(ray, t)
  {
    hide Det, NumU, NumV, NumT;
    ScaledBounds(NumU(ray, t), NumV(ray, t), Det(ray, t));
    ScaledBounds(NumV(ray, t), NumU(ray, t), Det(ray, t));
  }

  lemma ScaledStab(ray: Ray, t: Triangle)
    requires Det(ray, t) != 0.0
    ensures var i := 1.0 / Det(ray, t);
      StabOf(ray, t) == Stab(NumT(ray, t) * i, NumU(ray, t) * i, NumV(ray, t) * i)
  {
    hide Det, NumU, NumV, NumT;
    TimesInverse(NumT(ray, t), Det(ray, t));
    TimesInverse(NumU(ray, t), Det(ray, t));
    TimesInverse(NumV(ray, t), Det(ray, t));
  }

  /** Without culling the coordinates are scaled first, whatever the determinant's sign. */
  lemma ScaledVerdict(ray: Ray, t: Triangle, u: real, v: real)
    requires Facing(ray, t, false) && u == StabOf(ray, t).mU && v == StabOf(ray, t).mV
    ensures Accepts(ray, t, false) <==> 0.0 <= u <= 1.0 && 0.0 <= v && u + v <= 1.0
  {
    hide Det, NumU, NumV, NumT;
  }

  /** The two branches of the code. The sign and bound tests on the integer patterns are
      the real comparisons (module FloatBits). */
  method RayTriOverlap(ray: Ray, t: Triangle, culling: bool, stab: Stab) returns (hit: bool, stab': Stab)
    ensures hit <==> Accepts(ray, t, culling)
    ensures hit <==> RayHits(ray, t, culling)
    ensures hit ==> stab' == StabOf(ray, t) && HitsAt(ray, t, stab'.mU, stab'.mV, stab'.mDistance)
  {
    stab' := stab;
    AcceptsIffHits(ray, t, culling);
    hide RayHits, HitsAt, InTriangle;
    hide Dot, Cross, Sub, StabOf;
    var edge1, edge2 := Sub(t.v1, t.v0), Sub(t.v2, t.v0);
    var pvec := Cross(ray.mDir, edge2);
    var det := Dot(edge1, pvec);
    assert det == Det(ray, t);
    var tvec := Sub(ray.mOrigin, t.v0);
    var numU := Dot(tvec, pvec);
    assert numU == NumU(ray, t);
    var qvec := Cross(tvec, edge1);
    var numV, numT := Dot(ray.mDir, qvec), Dot(edge2, qvec);
    assert numV == NumV(ray, t) && numT == NumT(ray, t);
    hide Det, NumU, NumV, NumT;
    if culling {
      if det < LOCAL_EPSILON { return false, stab'; }
      UnscaledVerdict(ray, t);
      ScaledStab(ray, t);
      hide Accepts;
      stab' := stab'.(mU := numU);
      if stab'.mU < 0.0 || stab'.mU > det { return false, stab'; }
      stab' := stab'.(mV := numV);
      if stab'.mV < 0.0 || stab'.mU + stab'.mV > det { return false, stab'; }
      stab' := stab'.(mDistance := numT);
      var invDet := 1.0 / det;
      stab' := Stab(stab'.mDistance * invDet, stab'.mU * invDet, stab'.mV * invDet);
    } else {
      if det > -LOCAL_EPSILON && det < LOCAL_EPSILON { return false, stab'; }
      var invDet := 1.0 / det;
      ScaledStab(ray, t);
      ScaledVerdict(ray, t, numU * invDet, numV * invDet);
      hide Accepts;
      stab' := stab'.(mU := numU * invDet);
      if stab'.mU < 0.0 || stab'.mU > 1.0 { return false, stab'; }
      stab' := stab'.(mV := numV * invDet);
      if stab'.mV < 0.0 || stab'.mU + stab'.mV > 1.0 { return false, stab'; }
      stab' := stab'.(mDistance := numT * invDet);
    }
    return true, stab';
  }
}
