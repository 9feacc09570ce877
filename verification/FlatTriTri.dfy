/** Two triangles in the plane (the macros of OPC_TriTriOverlap.h): nine tests of edges against
    edges, which ignore parallel ones, and two tests of a vertex strictly inside. Together they
    are exact for triangles with an area. */
module FlatTriTri {
  import opened Geometry
  import opened HalfPlanes
  import opened Reals

  datatype Flat = Flat(v0: Vec, v1: Vec, v2: Vec)

  /** Twice the signed area. */
  function Size(t: Flat): real { Area(t.v0, t.v1, t.v2) }

  function Minus(p: Vec, q: Vec): Vec { Vec(p.u - q.u, p.v - q.v) }

  function Det2(a: Vec, b: Vec): real { a.u * b.v - a.v * b.u }

  // ------------------------------------------------------------------- the tests

  /** EDGE_EDGE_TEST, with the source's A, B and C: V0V1 against U0U1. */
  predicate EdgeEdgeTest(V0: Vec, V1: Vec, U0: Vec, U1: Vec) {
    var A, B, C := Minus(V1, V0), Minus(U0, U1), Minus(V0, U0);
    var f, d, e := Det2(B, A), Det2(C, B), Det2(A, C);
    ((f > 0.0 && d >= 0.0 && d <= f) || (f < 0.0 && d <= 0.0 && d >= f)) &&
    if f > 0.0 then e >= 0.0 && e <= f else e <= 0.0 && e >= f
  }

  /** EDGE_AGAINST_TRI_EDGES */
  predicate EdgeAgainstTriEdges(V0: Vec, V1: Vec, t: Flat) {
    EdgeEdgeTest(V0, V1, t.v0, t.v1) || EdgeEdgeTest(V0, V1, t.v1, t.v2) || EdgeEdgeTest(V0, V1, t.v2, t.v0)
  }

  /** One of the three line functions of POINT_IN_TRI. */
  function LineValue(U0: Vec, U1: Vec, p: Vec): real {
    var a, b := U1.v - U0.v, -(U1.u - U0.u);
    var c := -a * U0.u - b * U0.v;
    a * p.u + b * p.v + c
  }

  /** POINT_IN_TRI */
  predicate PointInTri(p: Vec, t: Flat) {
    var d0, d1, d2 := LineValue(t.v0, t.v1, p), LineValue(t.v1, t.v2, p), LineValue(t.v2, t.v0, p);
    d0 * d1 > 0.0 && d0 * d2 > 0.0
  }

  /** CoplanarTriTri after the projection. */
  predicate FlatTest(t: Flat, u: Flat) {
    || EdgeAgainstTriEdges(t.v0, t.v1, u) || EdgeAgainstTriEdges(t.v1, t.v2, u) || EdgeAgainstTriEdges(t.v2, t.v0, u)
    || PointInTri(t.v0, u) || PointInTri(u.v0, t)
  }

  // -------------------------------------------------------------- points and edges

  /** The number, and the point, after a share s of the way from p to q. */
  function Toward(p: real, q: real, s: real): real { p + s * (q - p) }

  function Along(p: Vec, q: Vec, s: real): Vec { Vec(Toward(p.u, q.u, s), Toward(p.v, q.v, s)) }

  predicate Share(s: real) { 0.0 <= s <= 1.0 }

  ghost predicate OnEdge(p: Vec, q: Vec, x: Vec) {
    exists s :: Share(s) && x == Along(p, q, s)
  }

  ghost predicate EdgesMeet(V0: Vec, V1: Vec, U0: Vec, U1: Vec) {
    exists x :: OnEdge(V0, V1, x) && OnEdge(U0, U1, x)
  }

  function FlatAt(t: Flat, u: real, v: real): Vec {
    Vec(Mix(u, v, t.v0.u, t.v1.u, t.v2.u), Mix(u, v, t.v0.v, t.v1.v, t.v2.v))
  }

  ghost predicate InFlat(t: Flat, p: Vec) {
    exists u, v :: Bary(u, v) && p == FlatAt(t, u, v)
  }

  /** The two triangles have a common point. */
  ghost predicate FlatShared(t: Flat, u: Flat) {
    exists p :: InFlat(t, p) && InFlat(u, p)
  }

  // ------------------------------------------------------------- edge against edge

  lemma ShareOfQuotient(d: real, f: real)
    requires (f > 0.0 && 0.0 <= d <= f) || (f < 0.0 && f <= d <= 0.0)
    ensures Share(d / f) && f * (d / f) == d
  {
    DivMul(d, f);
    if f > 0.0 {
      DivRange(d, f);
    } else {
      DivRange(-d, -f);
      assert d / f == (-d) / (-f) by { DivMul(-d, -f); SameFactor(f, d / f, (-d) / (-f)); }
    }
  }

  lemma SameFactor(f: real, a: real, b: real)
    requires f != 0.0 && f * a == f * b
    ensures a == b
  {
    if a < b {
      if f > 0.0 { PositiveProduct(f, b - a); } else { PositiveProduct(-f, b - a); }
    }
    if b < a {
      if f > 0.0 { PositiveProduct(f, a - b); } else { PositiveProduct(-f, a - b); }
    }
  }

  lemma ShareScaled(s: real, f: real)
    requires Share(s)
    ensures f > 0.0 ==> 0.0 <= Product(s, f) <= f
    ensures f < 0.0 ==> f <= Product(s, f) <= 0.0
  {
    assert Product(0.0, f) == 0.0 && Product(1.0, f) == f && Product(s, -f) == -Product(s, f) && Product(1.0, -f) == -f;
    if f > 0.0 {
      ProductMono(f, 0.0, s);
      ProductMono(f, s, 1.0);
    } else if f < 0.0 {
      ProductMono(-f, 0.0, s);
      ProductMono(-f, s, 1.0);
    }
    hide Product;
  }

  /** One coordinate of the crossing point. */
  lemma CrossingEntry(f: real, d: real, e: real, s: real, t: real, a: real, b: real, v0: real, u0: real)
    requires f != 0.0 && f * s == d && f * t == e && f * (v0 - u0) + d * a + e * b == 0.0
    ensures v0 + s * a == u0 - t * b
  {
    assert f * (v0 - u0 + s * a + t * b) == f * (v0 - u0) + (f * s) * a + (f * t) * b;
    SameFactor(f, v0 - u0 + s * a + t * b, 0.0);
  }

  lemma CrossingIdentity(A: Vec, B: Vec, C: Vec)
    ensures Det2(B, A) * C.u + Det2(C, B) * A.u + Det2(A, C) * B.u == 0.0
    ensures Det2(B, A) * C.v + Det2(C, B) * A.v + Det2(A, C) * B.v == 0.0
  {}

  lemma CrossingFound(V0: Vec, V1: Vec, U0: Vec, U1: Vec)
    requires EdgeEdgeTest(V0, V1, U0, U1)
    ensures EdgesMeet(V0, V1, U0, U1) && Det2(Minus(U0, U1), Minus(V1, V0)) != 0.0
  {
    hide Det2, Along;
    var A, B, C := Minus(V1, V0), Minus(U0, U1), Minus(V0, U0);
    var f, d, e := Det2(B, A), Det2(C, B), Det2(A, C);
    CrossingIdentity(A, B, C);
    ShareOfQuotient(d, f);
    ShareOfQuotient(e, f);
    var s, t := d / f, e / f;
    var x := Along(V0, V1, s);
    assert x == Along(U0, U1, t) by {
      hide EdgeEdgeTest;
      CrossingEntry(f, d, e, s, t, A.u, B.u, V0.u, U0.u);
      CrossingEntry(f, d, e, s, t, A.v, B.v, V0.v, U0.v);
      AlongEntries(V0, V1, s);
      AlongEntries(U0, U1, t);
      AlongFlips(U0.u, U1.u, t);
      AlongFlips(U0.v, U1.v, t);
    }
    assert OnEdge(V0, V1, x) && OnEdge(U0, U1, x);
  }

  lemma AlongEntries(p: Vec, q: Vec, s: real)
    ensures Along(p, q, s) == Vec(p.u + s * (q.u - p.u), p.v + s * (q.v - p.v))
  {}

  lemma AlongFlips(a: real, b: real, t: real)
    ensures a - t * (a - b) == a + t * (b - a)
  {}

  lemma GapEntry(v0: real, v1: real, u0: real, u1: real, s: real, t: real)
    requires v0 + s * (v1 - v0) == u0 + t * (u1 - u0)
    ensures v0 - u0 == -(s * (v1 - v0) + t * (u0 - u1))
  {
    AlongFlips(u0, u1, t);
  }

  lemma CrossingValues(A: Vec, B: Vec, C: Vec, s: real, t: real)
    requires C.u == -(s * A.u + t * B.u) && C.v == -(s * A.v + t * B.v)
    ensures Det2(C, B) == Product(s, Det2(B, A)) && Det2(A, C) == Product(t, Det2(B, A))
  {
    assert B.v * C.u == -(s * (A.u * B.v) + t * (B.u * B.v));
    assert B.u * C.v == -(s * (A.v * B.u) + t * (B.u * B.v));
    assert A.u * C.v == -(s * (A.u * A.v) + t * (A.u * B.v));
    assert A.v * C.u == -(s * (A.u * A.v) + t * (A.v * B.u));
  }

  lemma MeetIsTested(V0: Vec, V1: Vec, U0: Vec, U1: Vec, x: Vec)
    requires OnEdge(V0, V1, x) && OnEdge(U0, U1, x) && Det2(Minus(V1, V0), Minus(U1, U0)) != 0.0
    ensures EdgeEdgeTest(V0, V1, U0, U1)
  {
    hide Det2, Along;
    var s :| Share(s) && x == Along(V0, V1, s);
    var t :| Share(t) && x == Along(U0, U1, t);
    var A, B, C := Minus(V1, V0), Minus(U0, U1), Minus(V0, U0);
    AlongEntries(V0, V1, s);
    AlongEntries(U0, U1, t);
    GapEntry(V0.u, V1.u, U0.u, U1.u, s, t);
    GapEntry(V0.v, V1.v, U0.v, U1.v, s, t);
    hide OnEdge, Product;
    CrossingValues(A, B, C, s, t);
    OppositeDet(V0, V1, U0, U1);
    SharesTested(Det2(B, A), Det2(C, B), Det2(A, C), s, t);
  }

  lemma SharesTested(f: real, d: real, e: real, s: real, t: real)
    requires Share(s) && Share(t) && d == Product(s, f) && e == Product(t, f) && f != 0.0
    ensures (f > 0.0 && d >= 0.0 && d <= f) || (f < 0.0 && d <= 0.0 && d >= f)
    ensures if f > 0.0 then e >= 0.0 && e <= f else e <= 0.0 && e >= f
  {
    ShareScaled(s, f);
    ShareScaled(t, f);
    hide Product;
  }

  lemma OppositeDet(V0: Vec, V1: Vec, U0: Vec, U1: Vec)
    ensures Det2(Minus(U0, U1), Minus(V1, V0)) == Det2(Minus(V1, V0), Minus(U1, U0))
  {}

  /** The edge test accepts exactly the edges that meet and are not parallel. */
  lemma EdgeEdgeTestIff(V0: Vec, V1: Vec, U0: Vec, U1: Vec)
    ensures EdgeEdgeTest(V0, V1, U0, U1) <==> EdgesMeet(V0, V1, U0, U1) && Det2(Minus(V1, V0), Minus(U1, U0)) != 0.0
  {
    hide EdgeEdgeTest, Det2, OnEdge;
    if EdgeEdgeTest(V0, V1, U0, U1) {
      CrossingFound(V0, V1, U0, U1);
      OppositeDet(V0, V1, U0, U1);
    }
    if EdgesMeet(V0, V1, U0, U1) && Det2(Minus(V1, V0), Minus(U1, U0)) != 0.0 {
      var x :| OnEdge(V0, V1, x) && OnEdge(U0, U1, x);
      MeetIsTested(V0, V1, U0, U1, x);
    }
  }

  // -------------------------------------------------------------- barycentric coordinates

  /** The coordinates of a point strictly inside. */
  predicate Inner(u: real, v: real) { 0.0 < u && 0.0 < v && u + v < 1.0 }

  lemma LineValueIsArea(p: Vec, q: Vec, x: Vec)
    ensures LineValue(p, q, x) == -Area(p, q, x)
  {}

  function Combine2(u: real, a: Vec, v: real, b: Vec): Vec { Vec(u * a.u + v * b.u, u * a.v + v * b.v) }

  lemma MixOffset(u: real, v: real, a: real, b: real, c: real)
    ensures Mix(u, v, a, b, c) - a == u * (b - a) + v * (c - a)
  {}

  lemma FlatAtOffset(t: Flat, u: real, v: real)
    ensures Minus(FlatAt(t, u, v), t.v0) == Combine2(u, Minus(t.v1, t.v0), v, Minus(t.v2, t.v0))
  {
    MixOffset(u, v, t.v0.u, t.v1.u, t.v2.u);
    MixOffset(u, v, t.v0.v, t.v1.v, t.v2.v);
    hide Mix;
  }

  lemma DetCombine(u: real, a: Vec, v: real, b: Vec)
    ensures Det2(a, Combine2(u, a, v, b)) == Product(v, Det2(a, b)) && Det2(Combine2(u, a, v, b), b) == Product(u, Det2(a, b))
  {}

  lemma AreaIsDet(t: Flat, x: Vec)
    ensures Area(t.v0, t.v1, x) == Det2(Minus(t.v1, t.v0), Minus(x, t.v0))
    ensures Area(t.v2, t.v0, x) == Det2(Minus(x, t.v0), Minus(t.v2, t.v0))
    ensures Size(t) == Det2(Minus(t.v1, t.v0), Minus(t.v2, t.v0))
    ensures Area(t.v0, t.v1, x) + Area(t.v1, t.v2, x) + Area(t.v2, t.v0, x) == Size(t)
  {}

  lemma Remainder(u: real, v: real, k: real)
    ensures k - Product(v, k) - Product(u, k) == Product(1.0 - u - v, k)
  {}

  /** The three line functions of a point are its weights times the area. */
  lemma AreasAt(t: Flat, u: real, v: real)
    ensures var x := FlatAt(t, u, v);
      && Area(t.v0, t.v1, x) == Product(v, Size(t)) && Area(t.v2, t.v0, x) == Product(u, Size(t))
      && Area(t.v1, t.v2, x) == Product(1.0 - u - v, Size(t))
  {
    hide Area, Size, Det2, Product, Combine2, FlatAt, Minus;
    AreaIsDet(t, FlatAt(t, u, v));
    FlatAtOffset(t, u, v);
    DetCombine(u, Minus(t.v1, t.v0), v, Minus(t.v2, t.v0));
    Remainder(u, v, Size(t));
  }

  lemma SameSide(x: real, y: real, k: real)
    requires k != 0.0
    ensures (-Product(x, k)) * (-Product(y, k)) > 0.0 <==> (x > 0.0 && y > 0.0) || (x < 0.0 && y < 0.0)
  {
    assert (-Product(x, k)) * (-Product(y, k)) == Product(Product(x, y), Product(k, k));
    SquarePositive(k, k);
    var xy, kk := Product(x, y), Product(k, k);
    if (x > 0.0 && y > 0.0) || (x < 0.0 && y < 0.0) {
      ProductPositive(x, y);
      hide Product;
      ProductPositive(xy, kk);
    } else {
      assert xy <= 0.0 by {
        if x > 0.0 { ProductMono(x, y, 0.0); } else if x < 0.0 { ProductMono(y, x, 0.0); }
        assert Product(x, 0.0) == 0.0 && Product(0.0, y) == 0.0;
      }
      assert Product(0.0, kk) == 0.0;
      hide Product;
      ProductMono(kk, xy, 0.0);
    }
  }

  /** The point test accepts exactly the points strictly inside. */
  lemma PointInTriIff(t: Flat, u: real, v: real)
    requires Size(t) != 0.0
    ensures PointInTri(FlatAt(t, u, v), t) <==> Inner(u, v)
  {
    hide Area, Size, LineValue, Product, FlatAt;
    var x := FlatAt(t, u, v);
    AreasAt(t, u, v);
    LineValueIsArea(t.v0, t.v1, x);
    LineValueIsArea(t.v1, t.v2, x);
    LineValueIsArea(t.v2, t.v0, x);
    SameSide(v, 1.0 - u - v, Size(t));
    SameSide(v, u, Size(t));
  }

  lemma ByCramer(a: Vec, b: Vec, x: Vec)
    ensures Det2(x, b) * a.u + Det2(a, x) * b.u == Det2(a, b) * x.u
    ensures Det2(x, b) * a.v + Det2(a, x) * b.v == Det2(a, b) * x.v
  {}

  lemma CramerEntry(k: real, m: real, n: real, u: real, v: real, a: real, b: real, x: real)
    requires k != 0.0 && k * u == m && k * v == n && m * a + n * b == k * x
    ensures x == u * a + v * b
  {
    assert k * (u * a + v * b) == (k * u) * a + (k * v) * b;
    SameFactor(k, x, u * a + v * b);
  }

  lemma CoordinatesOf(t: Flat, p: Vec) returns (u: real, v: real)
    requires Size(t) != 0.0
    ensures p == FlatAt(t, u, v)
  {
    hide Det2, FlatAt, Size;
    var a, b, x := Minus(t.v1, t.v0), Minus(t.v2, t.v0), Minus(p, t.v0);
    AreaIsDet(t, p);
    hide Area;
    var k := Det2(a, b);
    u, v := Det2(x, b) / k, Det2(a, x) / k;
    DivMul(Det2(x, b), k);
    DivMul(Det2(a, x), k);
    ByCramer(a, b, x);
    CramerEntry(k, Det2(x, b), Det2(a, x), u, v, a.u, b.u, x.u);
    CramerEntry(k, Det2(x, b), Det2(a, x), u, v, a.v, b.v, x.v);
    FlatAtOffset(t, u, v);
    SamePoint(p, FlatAt(t, u, v), t.v0);
  }

  lemma SamePoint(p: Vec, q: Vec, o: Vec)
    requires Minus(p, o) == Minus(q, o)
    ensures p == q
  {}

  // ----------------------------------------------------------- leaving a triangle

  /** Where a number that starts at q >= 0 and goes to e last stops being negative. */
  function Exit(q: real, e: real): real
    requires 0.0 <= q
  {
    if e > 0.0 then 1.0 else if q == 0.0 then 0.0 else q / (q - e)
  }

  lemma ExitShare(q: real, e: real)
    requires 0.0 <= q
    ensures Share(Exit(q, e)) && (e <= 0.0 ==> q + Product(Exit(q, e), e - q) == 0.0)
    ensures 0.0 <= q + Product(Exit(q, e), e - q)
  {
    if e <= 0.0 && q != 0.0 {
      DivRange(q, q - e);
      DivMul(q, q - e);
      assert Product(Exit(q, e), e - q) == -((q - e) * (q / (q - e)));
    }
  }

  lemma BeforeExit(q: real, e: real, s: real)
    requires 0.0 <= q && 0.0 <= s <= Exit(q, e)
    ensures 0.0 <= q + Product(s, e - q)
  {
    ExitShare(q, e);
    var x := Exit(q, e);
    hide Exit, Product;
    if e - q >= 0.0 {
      ProductMono(e - q, 0.0, s);
    } else {
      assert Product(s, e - q) == -Product(s, q - e) && Product(x, e - q) == -Product(x, q - e) by { Opposite(s, e - q); Opposite(x, e - q); }
      ProductMono(q - e, s, x);
    }
    assert Product(0.0, e - q) == 0.0 by { Opposite(0.0, e - q); }
  }

  lemma Opposite(s: real, x: real)
    ensures Product(s, x) == -Product(s, -x) && Product(0.0, x) == 0.0
  {}

  lemma FirstExit(q0: real, q1: real, q2: real, e0: real, e1: real, e2: real) returns (s: real)
    requires 0.0 <= q0 && 0.0 <= q1 && 0.0 <= q2 && (e0 <= 0.0 || e1 <= 0.0 || e2 <= 0.0)
    ensures Share(s)
    ensures var x0, x1, x2 := q0 + Product(s, e0 - q0), q1 + Product(s, e1 - q1), q2 + Product(s, e2 - q2);
      0.0 <= x0 && 0.0 <= x1 && 0.0 <= x2 && (x0 == 0.0 || x1 == 0.0 || x2 == 0.0)
  {
    ExitShare(q0, e0);
    ExitShare(q1, e1);
    ExitShare(q2, e2);
    s := Min(Exit(q0, e0), Min(Exit(q1, e1), Exit(q2, e2)));
    assert (e0 <= 0.0 && s == Exit(q0, e0)) || (e1 <= 0.0 && s == Exit(q1, e1)) || (e2 <= 0.0 && s == Exit(q2, e2));
    hide Exit, Product;
    BeforeExit(q0, e0, s);
    BeforeExit(q1, e1, s);
    BeforeExit(q2, e2, s);
  }

  function Vert(t: Flat, i: nat): Vec
    requires i < 3
  {
    if i == 0 then t.v0 else if i == 1 then t.v1 else t.v2
  }

  function Next(i: nat): (j: nat)
    requires i < 3
    ensures j < 3
  {
    if i == 2 then 0 else i + 1
  }

  /** The point lies on the i-th edge. */
  ghost predicate OnSide(t: Flat, i: nat, x: Vec) {
    i < 3 && OnEdge(Vert(t, i), Vert(t, Next(i)), x)
  }

  lemma AlongMix(u: real, v: real, u': real, v': real, s: real, a: real, b: real, c: real)
    ensures Mix(u + Product(s, u' - u), v + Product(s, v' - v), a, b, c) == Mix(u, v, a, b, c) + s * (Mix(u', v', a, b, c) - Mix(u, v, a, b, c))
  {}

  lemma AlongFlat(t: Flat, u: real, v: real, u': real, v': real, s: real)
    ensures FlatAt(t, u + Product(s, u' - u), v + Product(s, v' - v)) == Along(FlatAt(t, u, v), FlatAt(t, u', v'), s)
  {
    AlongMix(u, v, u', v', s, t.v0.u, t.v1.u, t.v2.u);
    AlongMix(u, v, u', v', s, t.v0.v, t.v1.v, t.v2.v);
    hide Mix, Product;
  }

  lemma EdgeMix(w: real, a: real, b: real, c: real)
    ensures Mix(w, 0.0, a, b, c) == Toward(a, b, w)
    ensures Mix(1.0 - w, w, a, b, c) == Toward(b, c, w)
    ensures Mix(0.0, w, a, b, c) == Toward(c, a, 1.0 - w)
  {}

  lemma SidePoints(t: Flat, w: real)
    ensures FlatAt(t, w, 0.0) == Along(t.v0, t.v1, w)
    ensures FlatAt(t, 1.0 - w, w) == Along(t.v1, t.v2, w)
    ensures FlatAt(t, 0.0, w) == Along(t.v2, t.v0, 1.0 - w)
  {
    EdgeMix(w, t.v0.u, t.v1.u, t.v2.u);
    EdgeMix(w, t.v0.v, t.v1.v, t.v2.v);
    hide Mix, Toward;
  }

  lemma SideOf(t: Flat, u: real, v: real) returns (i: nat)
    requires Bary(u, v) && (u == 0.0 || v == 0.0 || u + v == 1.0)
    ensures OnSide(t, i, FlatAt(t, u, v))
  {
    hide FlatAt, Along;
    if v == 0.0 {
      i := 0;
      SidePoints(t, u);
      assert Share(u);
    } else if u == 0.0 {
      i := 2;
      SidePoints(t, v);
      assert Share(1.0 - v);
    } else {
      i := 1;
      SidePoints(t, v);
      assert u == 1.0 - v && Share(v);
    }
  }

  lemma SideInFlat(t: Flat, i: nat, x: Vec)
    requires OnSide(t, i, x)
    ensures InFlat(t, x)
  {
    hide FlatAt, Along;
    var s :| Share(s) && x == Along(Vert(t, i), Vert(t, Next(i)), s);
    if i == 0 {
      SidePoints(t, s);
      assert Bary(s, 0.0);
    } else if i == 1 {
      SidePoints(t, s);
      assert Bary(1.0 - s, s);
    } else {
      SidePoints(t, 1.0 - s);
      assert 1.0 - (1.0 - s) == s;
      assert Bary(0.0, 1.0 - s);
    }
  }

  /** On the way from a point of the triangle to one not strictly inside lies a point of one
      of its sides. */
  lemma Leaves(t: Flat, p: Vec, y: Vec) returns (s: real, i: nat)
    requires Size(t) != 0.0 && InFlat(t, p) && !PointInTri(y, t)
    ensures Share(s) && OnSide(t, i, Along(p, y, s))
  {
    hide FlatAt, Size, PointInTri, Along, OnSide;
    var u, v :| Bary(u, v) && p == FlatAt(t, u, v);
    var u', v' := CoordinatesOf(t, y);
    PointInTriIff(t, u', v');
    s := FirstExit(u, v, 1.0 - u - v, u', v', 1.0 - u' - v');
    WeightAlong(u, v, u', v', s);
    hide Product;
    AlongFlat(t, u, v, u', v', s);
    i := SideOf(t, u + Product(s, u' - u), v + Product(s, v' - v));
  }

  lemma WeightAlong(u: real, v: real, u': real, v': real, s: real)
    ensures 1.0 - u - v + Product(s, (1.0 - u' - v') - (1.0 - u - v)) == 1.0 - (u + Product(s, u' - u)) - (v + Product(s, v' - v))
  {}

  // ------------------------------------------------------------------ completeness

  lemma SidePoint(p: Vec, q: Vec, s: real)
    requires Share(s)
    ensures OnEdge(p, q, Along(p, q, s))
  {}

  /** A stretch of an edge is part of the edge. */
  lemma AlongAlong(p: Vec, q: Vec, s: real, w: real)
    ensures Along(Along(p, q, s), p, w) == Along(p, q, s - Product(w, s))
    ensures Along(Along(p, q, s), q, w) == Along(p, q, s + Product(w, 1.0 - s))
    ensures Along(p, q, s) == Along(q, p, 1.0 - s)
    ensures Along(p, q, 0.0) == p && Along(p, q, 1.0) == q
  {
    StretchEntry(p.u, q.u, s, w);
    StretchEntry(p.v, q.v, s, w);
    hide Product, Toward;
  }

  lemma StretchEntry(p: real, q: real, s: real, w: real)
    ensures Toward(Toward(p, q, s), p, w) == Toward(p, q, s - Product(w, s))
    ensures Toward(Toward(p, q, s), q, w) == Toward(p, q, s + Product(w, 1.0 - s))
    ensures Toward(p, q, s) == Toward(q, p, 1.0 - s)
    ensures Toward(p, q, 0.0) == p && Toward(p, q, 1.0) == q
  {}

  lemma SharesOfShares(s: real, w: real)
    requires Share(s) && Share(w)
    ensures Share(s - Product(w, s)) && Share(s + Product(w, 1.0 - s))
  {
    assert Product(0.0, s) == 0.0 && Product(1.0, s) == s && Product(0.0, 1.0 - s) == 0.0 && Product(1.0, 1.0 - s) == 1.0 - s;
    hide Product;
    ProductMono(s, 0.0, w);
    ProductMono(s, w, 1.0);
    ProductMono(1.0 - s, 0.0, w);
    ProductMono(1.0 - s, w, 1.0);
  }

  /** From a point of an edge towards one of its ends. */
  lemma Towards(p: Vec, q: Vec, x: Vec, w: real)
    requires OnEdge(p, q, x) && Share(w)
    ensures OnEdge(p, q, Along(x, p, w)) && OnEdge(p, q, Along(x, q, w))
  {
    hide Along;
    var s :| Share(s) && x == Along(p, q, s);
    AlongAlong(p, q, s, w);
    SharesOfShares(s, w);
    hide Share;
  }

  lemma EdgeReversed(p: Vec, q: Vec, x: Vec)
    requires OnEdge(p, q, x)
    ensures OnEdge(q, p, x)
  {
    hide Along;
    var s :| Share(s) && x == Along(p, q, s);
    AlongAlong(p, q, s, 0.0);
    assert Share(1.0 - s);
  }

  /** The triangle is convex. */
  lemma FlatConvex(t: Flat, p: Vec, q: Vec, s: real)
    requires InFlat(t, p) && InFlat(t, q) && Share(s)
    ensures InFlat(t, Along(p, q, s))
  {
    hide FlatAt, Along;
    var u, v :| Bary(u, v) && p == FlatAt(t, u, v);
    var u', v' :| Bary(u', v') && q == FlatAt(t, u', v');
    AlongFlat(t, u, v, u', v', s);
    WeightAlong(u, v, u', v', s);
    Between(u, u', s);
    Between(v, v', s);
    Between(1.0 - u - v, 1.0 - u' - v', s);
    hide Product;
  }

  lemma Between(a: real, b: real, s: real)
    requires 0.0 <= a && 0.0 <= b && Share(s)
    ensures 0.0 <= a + Product(s, b - a)
  {
    assert a + Product(s, b - a) == Product(1.0 - s, a) + Product(s, b);
    assert Product(0.0, a) == 0.0 && Product(0.0, b) == 0.0;
    hide Product;
    ProductMono(a, 0.0, 1.0 - s);
    ProductMono(b, 0.0, s);
  }

  lemma CornerInFlat(t: Flat, i: nat)
    requires i < 3
    ensures OnSide(t, i, Vert(t, i)) && InFlat(t, Vert(t, i))
  {
    hide Along;
    AlongAlong(Vert(t, i), Vert(t, Next(i)), 0.0, 0.0);
    assert Share(0.0);
    SideInFlat(t, i, Vert(t, i));
  }

  lemma InnerInFlat(t: Flat, p: Vec)
    requires Size(t) != 0.0 && PointInTri(p, t)
    ensures InFlat(t, p)
  {
    hide FlatAt, Size, PointInTri;
    var u, v := CoordinatesOf(t, p);
    PointInTriIff(t, u, v);
  }

  ghost predicate SidesMeet(t: Flat, i: nat, u: Flat, j: nat) {
    exists x :: OnSide(t, i, x) && OnSide(u, j, x)
  }

  /** A side of one triangle with a point in another, and a corner that is not strictly inside
      it: some sides meet. */
  lemma SideCrosses(t: Flat, u: Flat, j: nat, q: Vec) returns (i: nat, j': nat)
    requires Size(t) != 0.0 && OnSide(u, j, q) && InFlat(t, q) && !PointInTri(u.v0, t)
    ensures SidesMeet(t, i, u, j')
  {
    hide Along, InFlat, Size, PointInTri, Share, OnEdge;
    var a, b := Vert(u, j), Vert(u, Next(j));
    var s, x;
    if !PointInTri(a, t) {
      s, i := Leaves(t, q, a);
      x, j' := Along(q, a, s), j;
      Towards(a, b, q, s);
    } else if !PointInTri(b, t) {
      s, i := Leaves(t, q, b);
      x, j' := Along(q, b, s), j;
      Towards(a, b, q, s);
    } else {
      j' := Next(Next(j));
      assert Vert(u, j') == u.v0 && Next(j') == j;
      InnerInFlat(t, a);
      s, i := Leaves(t, a, u.v0);
      x := Along(a, u.v0, s);
      SidePoint(a, u.v0, s);
      EdgeReversed(a, u.v0, x);
    }
    assert OnSide(t, i, x) && OnSide(u, j', x);
  }

  /** Triangles with a common point, neither holding the other's first corner strictly inside:
      some sides meet. */
  lemma SharedSidesMeet(t: Flat, u: Flat) returns (i: nat, j: nat)
    requires Size(t) != 0.0 && Size(u) != 0.0 && FlatShared(t, u)
    requires !PointInTri(t.v0, u) && !PointInTri(u.v0, t)
    ensures SidesMeet(t, i, u, j)
  {
    hide Along, InFlat, Size, PointInTri, Share, OnSide;
    var p :| InFlat(t, p) && InFlat(u, p);
    var s, k := Leaves(u, p, t.v0);
    CornerInFlat(t, 0);
    FlatConvex(t, p, t.v0, s);
    i, j := SideCrosses(t, u, k, Along(p, t.v0, s));
  }

  ghost predicate Tested(t: Flat, i: nat, u: Flat, j: nat) {
    i < 3 && j < 3 && EdgeEdgeTest(Vert(t, i), Vert(t, Next(i)), Vert(u, j), Vert(u, Next(j)))
  }

  function Side(t: Flat, i: nat): Vec
    requires i < 3
  {
    Minus(Vert(t, Next(i)), Vert(t, i))
  }

  lemma TestedIff(t: Flat, i: nat, u: Flat, j: nat)
    ensures Tested(t, i, u, j) <==> SidesMeet(t, i, u, j) && i < 3 && j < 3 && Det2(Side(t, i), Side(u, j)) != 0.0
  {
    hide EdgeEdgeTest, OnEdge, Det2;
    if i < 3 && j < 3 {
      var a, b, c, d := Vert(t, i), Vert(t, Next(i)), Vert(u, j), Vert(u, Next(j));
      EdgeEdgeTestIff(a, b, c, d);
      assert EdgesMeet(a, b, c, d) <==> SidesMeet(t, i, u, j) by {
        if EdgesMeet(a, b, c, d) {
          var x :| OnEdge(a, b, x) && OnEdge(c, d, x);
          assert OnSide(t, i, x) && OnSide(u, j, x);
        }
      }
    }
  }

  lemma DetFlips(a: Vec, b: Vec)
    ensures Det2(a, b) == -Det2(b, a)
  {}

  lemma TestedSymmetric(t: Flat, i: nat, u: Flat, j: nat)
    ensures Tested(t, i, u, j) <==> Tested(u, j, t, i)
  {
    TestedIff(t, i, u, j);
    TestedIff(u, j, t, i);
    hide OnSide, Det2, Tested;
    if i < 3 && j < 3 { DetFlips(Side(t, i), Side(u, j)); }
  }

  lemma ParallelBoth(a: Vec, b: Vec, g: Vec)
    requires Det2(a, g) == 0.0 && Det2(b, g) == 0.0 && (g.u != 0.0 || g.v != 0.0)
    ensures Det2(a, b) == 0.0
  {
    var k := Det2(a, b);
    assert k * g.u == Det2(a, g) * b.u - Det2(b, g) * a.u;
    assert k * g.v == Det2(a, g) * b.v - Det2(b, g) * a.v;
    if g.u != 0.0 { SameFactor(g.u, k, 0.0); } else { SameFactor(g.v, k, 0.0); }
  }

  lemma SideDets(t: Flat, i: nat)
    requires i < 3
    ensures Det2(Side(t, Next(Next(i))), Side(t, i)) == Size(t)
    ensures Side(t, i) == Vec(0.0, 0.0) ==> Size(t) == 0.0
  {}

  /** A corner of one triangle on a side of the other: that side crosses a side at the corner
      that is not parallel to it. */
  lemma CornerOnSide(t: Flat, m: nat, u: Flat, j: nat) returns (i: nat)
    requires Size(t) != 0.0 && Size(u) != 0.0 && m < 3 && OnSide(u, j, Vert(t, m))
    ensures Tested(t, i, u, j)
  {
    hide Det2, Size, OnEdge, Minus, Along;
    var g := Side(u, j);
    SideDets(u, j);
    SideDets(t, m);
    var back := Next(Next(m));
    var x := Vert(t, m);
    i := if Det2(Side(t, m), g) != 0.0 then m else back;
    if i != m && Det2(Side(t, back), g) == 0.0 {
      ParallelBoth(Side(t, back), Side(t, m), g);
      assert false;
    }
    CornerInFlat(t, m);
    assert OnSide(t, back, x) by {
      CornerInFlat(t, m);
      AlongAlong(Vert(t, back), x, 1.0, 0.0);
      SidePoint(Vert(t, back), x, 1.0);
    }
    assert SidesMeet(t, i, u, j);
    TestedIff(t, i, u, j);
  }

  lemma SameLine(a: Vec, b: Vec, c: Vec, d: Vec) returns (k: real)
    requires a != b && Det2(Minus(b, a), Minus(d, c)) == 0.0
    ensures d.u - c.u == k * (b.u - a.u) && d.v - c.v == k * (b.v - a.v)
  {
    var r := Vec(a.u + (d.u - c.u), a.v + (d.v - c.v));
    assert Area(a, b, r) == Det2(Minus(b, a), Minus(d, c));
    k := Collinear(a, b, r);
  }

  /** Two stretches of the number line, [0, 1] and [c, d], with a common point. */
  lemma StretchesMeet(c: real, d: real, s: real, w: real) returns (y: real)
    requires Share(s) && Share(w) && s == c + Product(w, d - c)
    ensures Share(c) || Share(d) || (Share(y) && c + Product(y, d - c) == 0.0)
  {
    y := 0.0;
    if c < 0.0 && d > 1.0 {
      y := (-c) / (d - c);
      DivRange(-c, d - c);
      DivMul(-c, d - c);
      assert Product(y, d - c) == (d - c) * y;
    } else if c > 1.0 && d < 0.0 {
      y := c / (c - d);
      DivRange(c, c - d);
      DivMul(c, c - d);
      assert Product(y, d - c) == -((c - d) * y);
    } else if c < 0.0 && d < 0.0 {
      assert s == -(-c + Product(w, -d - -c));
      Between(-c, -d, w);
      StrictlyBetween(-c, -d, w);
    } else if c > 1.0 && d > 1.0 {
      assert s - 1.0 == (c - 1.0) + Product(w, (d - 1.0) - (c - 1.0));
      StrictlyBetween(c - 1.0, d - 1.0, w);
    }
  }

  lemma StrictlyBetween(a: real, b: real, s: real)
    requires 0.0 < a && 0.0 < b && Share(s)
    ensures 0.0 < a + Product(s, b - a)
  {
    var m := Min(a, b);
    assert a + Product(s, b - a) == m + ((a - m) + Product(s, (b - m) - (a - m)));
    hide Product;
    Between(a - m, b - m, s);
  }

  lemma OnLine(a: real, b: real, c: real, d: real, s: real, w: real, k: real, g: real)
    requires Toward(a, b, s) == Toward(c, d, w) && d - c == k * (b - a) && g == s - Product(w, k)
    ensures c == Toward(a, b, g) && d == Toward(a, b, g + k)
  {
    assert w * (d - c) == Product(w, k) * (b - a);
  }

  lemma LineFromZero(a: real, b: real, c: real, d: real, g: real, k: real, y: real)
    requires c == Toward(a, b, g) && d == Toward(a, b, g + k) && g + Product(y, k) == 0.0
    ensures a == Toward(c, d, y)
  {
    assert d - c == k * (b - a);
    assert y * (d - c) == Product(y, k) * (b - a);
  }

  lemma PlacedAlong(p: Vec, q: Vec, x: Vec, s: real)
    requires Share(s) && x.u == Toward(p.u, q.u, s) && x.v == Toward(p.v, q.v, s)
    ensures OnEdge(p, q, x)
  {
    assert x == Along(p, q, s);
  }

  lemma EndBetween(a: Vec, b: Vec, c: Vec, d: Vec, s: real, w: real, k: real, g: real)
    requires Share(s) && Share(w) && Along(a, b, s) == Along(c, d, w) && g == s - Product(w, k)
    requires d.u - c.u == k * (b.u - a.u) && d.v - c.v == k * (b.v - a.v)
    ensures OnEdge(c, d, a) || OnEdge(a, b, c) || OnEdge(a, b, d)
  {
    hide OnEdge, Product, Toward;
    OnLine(a.u, b.u, c.u, d.u, s, w, k, g);
    OnLine(a.v, b.v, c.v, d.v, s, w, k, g);
    assert (g + k) - g == k;
    var y := StretchesMeet(g, g + k, s, w);
    if Share(g) {
      PlacedAlong(a, b, c, g);
    } else if Share(g + k) {
      PlacedAlong(a, b, d, g + k);
    } else {
      LineFromZero(a.u, b.u, c.u, d.u, g, k, y);
      LineFromZero(a.v, b.v, c.v, d.v, g, k, y);
      PlacedAlong(c, d, a, y);
    }
  }

  /** Edges on one line with a common point: an end of one lies on the other. */
  lemma EndOnEdge(a: Vec, b: Vec, c: Vec, d: Vec, x: Vec)
    requires a != b && Det2(Minus(b, a), Minus(d, c)) == 0.0 && OnEdge(a, b, x) && OnEdge(c, d, x)
    ensures OnEdge(c, d, a) || OnEdge(a, b, c) || OnEdge(a, b, d)
  {
    hide Det2, Along;
    var k := SameLine(a, b, c, d);
    var s :| Share(s) && x == Along(a, b, s);
    var w :| Share(w) && x == Along(c, d, w);
    EndBetween(a, b, c, d, s, w, k, s - Product(w, k));
  }

  lemma CornerOnOtherSide(t: Flat, i: nat, u: Flat, m: nat) returns (j: nat)
    requires Size(t) != 0.0 && Size(u) != 0.0 && m < 3 && OnSide(t, i, Vert(u, m))
    ensures Tested(t, i, u, j)
  {
    j := CornerOnSide(u, m, t, i);
    TestedSymmetric(u, j, t, i);
  }

  /** Sides that meet lead to sides that pass the edge test. */
  lemma MeetingSidesTested(t: Flat, i: nat, u: Flat, j: nat) returns (i': nat, j': nat)
    requires Size(t) != 0.0 && Size(u) != 0.0 && SidesMeet(t, i, u, j)
    ensures Tested(t, i', u, j')
  {
    hide Det2, Size, OnEdge, Along, Tested;
    i', j' := i, j;
    var x :| OnSide(t, i, x) && OnSide(u, j, x);
    TestedIff(t, i, u, j);
    if Det2(Side(t, i), Side(u, j)) == 0.0 {
      var a, b, c, d := Vert(t, i), Vert(t, Next(i)), Vert(u, j), Vert(u, Next(j));
      SideDets(t, i);
      EndOnEdge(a, b, c, d, x);
      if OnEdge(c, d, a) {
        i' := CornerOnSide(t, i, u, j);
      } else if OnEdge(a, b, c) {
        j' := CornerOnOtherSide(t, i, u, j);
      } else {
        j' := CornerOnOtherSide(t, i, u, Next(j));
      }
    }
  }

  lemma FlatTestUnfolds(t: Flat, u: Flat)
    ensures FlatTest(t, u) <==> (exists i, j :: Tested(t, i, u, j)) || PointInTri(t.v0, u) || PointInTri(u.v0, t)
  {
    hide EdgeEdgeTest, PointInTri;
    if FlatTest(t, u) && !PointInTri(t.v0, u) && !PointInTri(u.v0, t) {
      assert Tested(t, 0, u, 0) || Tested(t, 0, u, 1) || Tested(t, 0, u, 2) || Tested(t, 1, u, 0) || Tested(t, 1, u, 1)
          || Tested(t, 1, u, 2) || Tested(t, 2, u, 0) || Tested(t, 2, u, 1) || Tested(t, 2, u, 2);
    }
  }

  /** For triangles with an area the planar test is exact: it accepts exactly those with a
      common point. */
  lemma FlatTestIff(t: Flat, u: Flat)
    requires Size(t) != 0.0 && Size(u) != 0.0
    ensures FlatTest(t, u) <==> FlatShared(t, u)
  {
    hide FlatTest, InFlat, Size, PointInTri, Tested, OnSide;
    FlatTestUnfolds(t, u);
    if FlatTest(t, u) {
      if PointInTri(t.v0, u) {
        InnerInFlat(u, t.v0);
        CornerInFlat(t, 0);
      } else if PointInTri(u.v0, t) {
        InnerInFlat(t, u.v0);
        CornerInFlat(u, 0);
      } else {
        var i, j :| Tested(t, i, u, j);
        TestedIff(t, i, u, j);
        var x :| OnSide(t, i, x) && OnSide(u, j, x);
        SideInFlat(t, i, x);
        SideInFlat(u, j, x);
      }
    }
    if FlatShared(t, u) && !PointInTri(t.v0, u) && !PointInTri(u.v0, t) {
      var i, j := SharedSidesMeet(t, u);
      i, j := MeetingSidesTested(t, i, u, j);
    }
  }
}
