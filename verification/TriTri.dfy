/** Triangle-triangle overlap (OPC_TriTriOverlap.h): the two planes, the two intervals on their
    common line, and the projection of coplanar triangles.

    Plane distances are taken with normals that are not normalised, and small ones are set to
    zero. Where this changes nothing and both triangles have an area the test is exact. */
module TriTri {
  import opened FlatTriTri
  import opened Geometry
  import opened HalfPlanes
  import opened Reals

  const LOCAL_EPSILON: real := 0.000001

  // ------------------------------------------------------------------- the test

  /** The plane equation of a triangle at a point, as the source sums it. */
  function PlaneValue(t: Triangle, p: Point): real {
    var N := PlaneNormal(t);
    Dot(N, p) + Dot(Scale(-1.0, N), t.v0)
  }

  /** The robustness check on a plane distance. */
  function Snap(d: real): real {
    if Abs(d) < LOCAL_EPSILON then 0.0 else d
  }

  /** The indices i0 and i1 of CoplanarTriTri: not the one of the greatest component. */
  function ProjectionAxes(n: Point): (nat, nat) {
    var A0, A1, A2 := Abs(n.x), Abs(n.y), Abs(n.z);
    if A0 > A1 then if A0 > A2 then (1, 2) else (0, 1)
    else if A2 > A1 then (0, 1) else (0, 2)
  }

  function Project(p: Point, i: (nat, nat)): Vec { Vec(Coord(p, i.0), Coord(p, i.1)) }

  function Projected(t: Triangle, i: (nat, nat)): Flat { Flat(Project(t.v0, i), Project(t.v1, i), Project(t.v2, i)) }

  predicate CoplanarTriTri(n: Point, t: Triangle, u: Triangle) {
    var i := ProjectionAxes(n);
    FlatTest(Projected(t, i), Projected(u, i))
  }

  /** What NEWCOMPUTE_INTERVALS leaves in A, B, C, X0 and X1, unless it returns with the test
      for coplanar triangles. */
  datatype Span = Coplanar | Span(A: real, B: real, C: real, X0: real, X1: real)

  /** The assignments of one branch: `m` is the vertex alone on its side. */
  function SpanFrom(VVm: real, VVi: real, VVj: real, Dm: real, Di: real, Dj: real): Span {
    Span(VVm, (VVi - VVm) * Dm, (VVj - VVm) * Dm, Dm - Di, Dm - Dj)
  }

  function ComputeIntervals(VV0: real, VV1: real, VV2: real, D0: real, D1: real, D2: real): Span {
    if D0 * D1 > 0.0 then SpanFrom(VV2, VV0, VV1, D2, D0, D1)
    else if D0 * D2 > 0.0 then SpanFrom(VV1, VV0, VV2, D1, D0, D2)
    else if D1 * D2 > 0.0 || D0 != 0.0 then SpanFrom(VV0, VV1, VV2, D0, D1, D2)
    else if D1 != 0.0 then SpanFrom(VV1, VV0, VV2, D1, D0, D2)
    else if D2 != 0.0 then SpanFrom(VV2, VV0, VV1, D2, D0, D1)
    else Coplanar
  }

  /** The index of the largest component of the line's direction. */
  function LargestIndex(d: Point): nat {
    var max, index := Abs(d.x), 0;
    var bb, cc := Abs(d.y), Abs(d.z);
    var (max', index') := if bb > max then (bb, 1) else (max, index);
    if cc > max' then 2 else index'
  }

  /** One isect entry: a product with the common denominator, plus one of three. */
  function IntervalEnd(a: real, xxyy: real, b: real, p: real, q: real): real { a * xxyy + b * p * q }

  /** The two intervals, scaled to a common denominator. */
  predicate SpansOverlap(s: Span, r: Span)
    requires s.Span? && r.Span?
  {
    var xx, yy := Product(s.X0, s.X1), Product(r.X0, r.X1);
    var xxyy := Product(xx, yy);
    var a0, a1 := IntervalEnd(s.A, xxyy, s.B, s.X1, yy), IntervalEnd(s.A, xxyy, s.C, s.X0, yy);
    var b0, b1 := IntervalEnd(r.A, xxyy, r.B, xx, r.X1), IntervalEnd(r.A, xxyy, r.C, xx, r.X0);
    !(Max(a0, a1) < Min(b0, b1) || Max(b0, b1) < Min(a0, a1))
  }

  /** All on the same side, none on the plane. */
  predicate SameSideAll(d0: real, d1: real, d2: real) { d0 * d1 > 0.0 && d0 * d2 > 0.0 }

  predicate TriTriOverlap(t: Triangle, u: Triangle) {
    var du0, du1, du2 := Snap(PlaneValue(t, u.v0)), Snap(PlaneValue(t, u.v1)), Snap(PlaneValue(t, u.v2));
    !SameSideAll(du0, du1, du2) &&
    var dv0, dv1, dv2 := Snap(PlaneValue(u, t.v0)), Snap(PlaneValue(u, t.v1)), Snap(PlaneValue(u, t.v2));
    !SameSideAll(dv0, dv1, dv2) &&
    var N1 := PlaneNormal(t);
    var index := LargestIndex(Cross(N1, PlaneNormal(u)));
    var s := ComputeIntervals(Coord(t.v0, index), Coord(t.v1, index), Coord(t.v2, index), dv0, dv1, dv2);
    if s.Coplanar? then CoplanarTriTri(N1, t, u) else
    var r := ComputeIntervals(Coord(u.v0, index), Coord(u.v1, index), Coord(u.v2, index), du0, du1, du2);
    if r.Coplanar? then CoplanarTriTri(N1, t, u) else SpansOverlap(s, r)
  }

  /** On the plane, or not nearer than e. */
  predicate OnOrFar(e: real, d: real) { d == 0.0 || e <= Abs(d) }

  /** No vertex strictly nearer than e to the other triangle's plane, in the source's measure. */
  predicate Clear(e: real, t: Triangle, u: Triangle) {
    && OnOrFar(e, PlaneValue(t, u.v0)) && OnOrFar(e, PlaneValue(t, u.v1)) && OnOrFar(e, PlaneValue(t, u.v2))
    && OnOrFar(e, PlaneValue(u, t.v0)) && OnOrFar(e, PlaneValue(u, t.v1)) && OnOrFar(e, PlaneValue(u, t.v2))
  }

  /** Two triangles with an area, and no plane distance that is set to zero. */
  predicate Reliable(t: Triangle, u: Triangle) {
    NonDegenerate(t) && NonDegenerate(u) && Clear(0.000001, t, u)
  }

  // ------------------------------------------------------- one interval: scalar facts

  /** Vertex m is on the plane or alone on its side, and the others are not with it. */
  predicate Apex(Dm: real, Di: real, Dj: real) {
    (0.0 <= Dm && Di <= 0.0 && Dj <= 0.0 && Di < Dm && Dj < Dm) || (Dm <= 0.0 && 0.0 <= Di && 0.0 <= Dj && Dm < Di && Dm < Dj)
  }

  /** Where the edge from m to i meets the plane, as a share of the edge. */
  function EdgeShare(Dm: real, Di: real): real
    requires Dm != Di
  {
    Dm / (Dm - Di)
  }

  lemma EdgeShareFacts(Dm: real, Di: real)
    requires (0.0 <= Dm && Di <= 0.0 && Di < Dm) || (Dm <= 0.0 && 0.0 <= Di && Dm < Di)
    ensures Share(EdgeShare(Dm, Di)) && Product(EdgeShare(Dm, Di), Dm - Di) == Dm
  {
    DivMul(Dm, Dm - Di);
    if Di < Dm {
      DivRange(Dm, Dm - Di);
    } else {
      DivRange(-Dm, Di - Dm);
      SameQuotient(Dm, Dm - Di);
    }
  }

  lemma SameQuotient(a: real, d: real)
    requires d != 0.0
    ensures a / d == (-a) / (-d)
  {}

  /** The mean of three numbers with the weights of a point: Mix with the vertices in any
      order. */
  function Blend(wm: real, wi: real, wj: real, x: real, y: real, z: real): real { wm * x + wi * y + wj * z }

  predicate Weights(wm: real, wi: real, wj: real) { 0.0 <= wm && 0.0 <= wi && 0.0 <= wj && wm + wi + wj == 1.0 }

  lemma BlendOffsets(wm: real, wi: real, wj: real, x: real, y: real, z: real)
    requires wm + wi + wj == 1.0
    ensures Blend(wm, wi, wj, x, y, z) == x + Product(wi, y - x) + Product(wj, z - x)
  {
    assert wm == 1.0 - wi - wj;
  }

  lemma Cancel(k: real, a: real, b: real)
    requires k != 0.0 && Product(a, k) == Product(b, k)
    ensures a == b
  {
    SameFactor(k, a, b);
  }

  lemma Regroup(w: real, l: real, g: real, d: real)
    requires Product(l, g) == d
    ensures Product(Product(w, l), g) == Product(w, d)
  {}

  /** The share of the cut that a point with plane value zero has, when the apex is off the
      plane on the positive side. */
  lemma CutShare(Dm: real, Di: real, Dj: real, wi: real, wj: real) returns (w: real)
    requires 0.0 < Dm && Di <= 0.0 && Dj <= 0.0 && 0.0 <= wi && 0.0 <= wj
    requires Dm == Product(wi, Dm - Di) + Product(wj, Dm - Dj)
    ensures Share(w) && wi == Product(1.0 - w, EdgeShare(Dm, Di)) && wj == Product(w, EdgeShare(Dm, Dj))
  {
    EdgeShareFacts(Dm, Di);
    EdgeShareFacts(Dm, Dj);
    var n := Product(wj, Dm - Dj);
    ProductMono(Dm - Di, 0.0, wi);
    ProductMono(Dm - Dj, 0.0, wj);
    assert Product(0.0, Dm - Di) == 0.0 && Product(0.0, Dm - Dj) == 0.0;
    w := n / Dm;
    DivRange(n, Dm);
    DivMul(n, Dm);
    assert Product(w, Dm) == n && Product(1.0 - w, Dm) == Dm - n;
    hide Product, EdgeShare;
    Regroup(w, EdgeShare(Dm, Dj), Dm - Dj, Dm);
    Cancel(Dm - Dj, wj, Product(w, EdgeShare(Dm, Dj)));
    Regroup(1.0 - w, EdgeShare(Dm, Di), Dm - Di, Dm);
    Cancel(Dm - Di, wi, Product(1.0 - w, EdgeShare(Dm, Di)));
  }

  lemma NoWeight(wi: real, wj: real, Di: real, Dj: real)
    requires 0.0 <= wi && 0.0 <= wj && ((Di < 0.0 && Dj < 0.0) || (0.0 < Di && 0.0 < Dj)) && Product(wi, -Di) + Product(wj, -Dj) == 0.0
    ensures wi == 0.0 && wj == 0.0
  {
    var a, b := Abs(Di), Abs(Dj);
    assert Product(wi, a) + Product(wj, b) == 0.0;
    assert Product(wi, a) == wi * a && Product(wj, b) == wj * b;
    ProductNonNegative(wi, a);
    ProductNonNegative(wj, b);
    if 0.0 < wi { PositiveProduct(wi, a); }
    if 0.0 < wj { PositiveProduct(wj, b); }
  }

  lemma ApexShare(Dm: real, Di: real, Dj: real, wi: real, wj: real) returns (w: real)
    requires Apex(Dm, Di, Dj) && 0.0 <= wi && 0.0 <= wj && Dm == Product(wi, Dm - Di) + Product(wj, Dm - Dj)
    ensures Share(w) && wi == Product(1.0 - w, EdgeShare(Dm, Di)) && wj == Product(w, EdgeShare(Dm, Dj))
  {
    if 0.0 < Dm {
      w := CutShare(Dm, Di, Dj, wi, wj);
    } else if Dm < 0.0 {
      assert Product(wi, -Dm - -Di) == -Product(wi, Dm - Di) && Product(wj, -Dm - -Dj) == -Product(wj, Dm - Dj);
      hide Product;
      w := CutShare(-Dm, -Di, -Dj, wi, wj);
      SameQuotient(Dm, Dm - Di);
      SameQuotient(Dm, Dm - Dj);
      assert -Dm - -Di == -(Dm - Di) && -Dm - -Dj == -(Dm - Dj);
    } else {
      w := 0.0;
      NoWeight(wi, wj, Di, Dj);
      EdgeShareFacts(Dm, Di);
      assert EdgeShare(Dm, Di) == 0.0;
    }
  }

  /** Where the edge from m to i meets the plane, in another coordinate. */
  function CutEnd(VVm: real, VVi: real, Dm: real, Di: real): real
    requires Dm != Di
  {
    VVm + Product(EdgeShare(Dm, Di), VVi - VVm)
  }

  predicate Spanned(a: real, b: real, x: real) { Min(a, b) <= x <= Max(a, b) }

  lemma TowardSpanned(a: real, b: real, w: real)
    requires Share(w)
    ensures Spanned(a, b, Toward(a, b, w))
  {
    assert Toward(a, b, w) == a + Product(w, b - a) == b - Product(1.0 - w, b - a);
    assert Product(w, b - a) == -Product(w, a - b) && Product(1.0 - w, b - a) == -Product(1.0 - w, a - b);
    assert Product(0.0, b - a) == 0.0 && Product(0.0, a - b) == 0.0;
    hide Product, Toward;
    if a <= b {
      ProductMono(b - a, 0.0, w);
      ProductMono(b - a, 0.0, 1.0 - w);
    } else {
      ProductMono(a - b, 0.0, w);
      ProductMono(a - b, 0.0, 1.0 - w);
    }
  }

  lemma SpannedShare(a: real, b: real, x: real) returns (w: real)
    requires Spanned(a, b, x)
    ensures Share(w) && x == Toward(a, b, w)
  {
    w := if a == b then 0.0 else (x - a) / (b - a);
    if a < b {
      DivRange(x - a, b - a);
      DivMul(x - a, b - a);
    } else if b < a {
      DivRange(a - x, a - b);
      SameQuotient(x - a, b - a);
      DivMul(x - a, b - a);
    }
  }

  lemma CutValue(VVm: real, a: real, b: real, li: real, lj: real, w: real, wi: real, wj: real)
    requires wi == Product(1.0 - w, li) && wj == Product(w, lj)
    ensures VVm + Product(wi, a) + Product(wj, b) == Toward(VVm + Product(li, a), VVm + Product(lj, b), w)
  {}

  /** Every point of the triangle on the plane lies between the two cuts. */
  lemma ApexForward(Dm: real, Di: real, Dj: real, VVm: real, VVi: real, VVj: real, wm: real, wi: real, wj: real)
    requires Apex(Dm, Di, Dj) && Weights(wm, wi, wj) && Blend(wm, wi, wj, Dm, Di, Dj) == 0.0
    ensures Spanned(CutEnd(VVm, VVi, Dm, Di), CutEnd(VVm, VVj, Dm, Dj), Blend(wm, wi, wj, VVm, VVi, VVj))
  {
    BlendOffsets(wm, wi, wj, Dm, Di, Dj);
    BlendOffsets(wm, wi, wj, VVm, VVi, VVj);
    assert Product(wi, Di - Dm) == -Product(wi, Dm - Di) && Product(wj, Dj - Dm) == -Product(wj, Dm - Dj);
    hide Product, EdgeShare, Blend;
    var w := ApexShare(Dm, Di, Dj, wi, wj);
    CutValue(VVm, VVi - VVm, VVj - VVm, EdgeShare(Dm, Di), EdgeShare(Dm, Dj), w, wi, wj);
    TowardSpanned(CutEnd(VVm, VVi, Dm, Di), CutEnd(VVm, VVj, Dm, Dj), w);
  }

  lemma ShareProducts(w: real, li: real, lj: real)
    requires Share(w) && Share(li) && Share(lj)
    ensures 0.0 <= Product(1.0 - w, li) && 0.0 <= Product(w, lj) && Product(1.0 - w, li) + Product(w, lj) <= 1.0
  {
    assert Product(1.0 - w, 0.0) == 0.0 && Product(1.0 - w, 1.0) == 1.0 - w && Product(w, 0.0) == 0.0 && Product(w, 1.0) == w;
    hide Product;
    ProductMono(1.0 - w, 0.0, li);
    ProductMono(1.0 - w, li, 1.0);
    ProductMono(w, 0.0, lj);
    ProductMono(w, lj, 1.0);
  }

  /** Everything between the two cuts is reached by a point of the triangle on the plane. */
  lemma ApexBackward(Dm: real, Di: real, Dj: real, VVm: real, VVi: real, VVj: real, x: real) returns (wm: real, wi: real, wj: real)
    requires Apex(Dm, Di, Dj) && Spanned(CutEnd(VVm, VVi, Dm, Di), CutEnd(VVm, VVj, Dm, Dj), x)
    ensures Weights(wm, wi, wj) && Blend(wm, wi, wj, Dm, Di, Dj) == 0.0 && Blend(wm, wi, wj, VVm, VVi, VVj) == x
  {
    EdgeShareFacts(Dm, Di);
    EdgeShareFacts(Dm, Dj);
    var w := SpannedShare(CutEnd(VVm, VVi, Dm, Di), CutEnd(VVm, VVj, Dm, Dj), x);
    hide EdgeShare;
    var li, lj := EdgeShare(Dm, Di), EdgeShare(Dm, Dj);
    wi, wj := Product(1.0 - w, li), Product(w, lj);
    wm := 1.0 - wi - wj;
    assert Product(li, Di - Dm) == -Product(li, Dm - Di) && Product(lj, Dj - Dm) == -Product(lj, Dm - Dj);
    ShareProducts(w, li, lj);
    hide Product;
    BlendOffsets(wm, wi, wj, Dm, Di, Dj);
    BlendOffsets(wm, wi, wj, VVm, VVi, VVj);
    hide Blend;
    CutValue(VVm, VVi - VVm, VVj - VVm, li, lj, w, wi, wj);
    CutValue(Dm, Di - Dm, Dj - Dm, li, lj, w, wi, wj);
    assert Toward(0.0, 0.0, w) == 0.0;
  }

  // -------------------------------------------------- one interval: the whole triangle

  lemma SignsOfProduct(a: real, b: real)
    ensures a * b > 0.0 <==> (a > 0.0 && b > 0.0) || (a < 0.0 && b < 0.0)
  {
    SameSide(a, b, 1.0);
    assert Product(a, 1.0) == a && Product(b, 1.0) == b && (-a) * (-b) == a * b;
  }

  /** Every branch has found the vertex alone on its side. */
  lemma SpanBranches(VV0: real, VV1: real, VV2: real, D0: real, D1: real, D2: real)
    requires !SameSideAll(D0, D1, D2)
    ensures var s := ComputeIntervals(VV0, VV1, VV2, D0, D1, D2);
      || (D0 == 0.0 && D1 == 0.0 && D2 == 0.0 && s.Coplanar?)
      || (Apex(D0, D1, D2) && s == SpanFrom(VV0, VV1, VV2, D0, D1, D2))
      || (Apex(D1, D0, D2) && s == SpanFrom(VV1, VV0, VV2, D1, D0, D2))
      || (Apex(D2, D0, D1) && s == SpanFrom(VV2, VV0, VV1, D2, D0, D1))
  {
    SignsOfProduct(D0, D1);
    SignsOfProduct(D0, D2);
    SignsOfProduct(D1, D2);
    hide SpanFrom;
  }

  /** The ends of the interval, before scaling. */
  predicate SpanEnds(s: Span, e0: real, e1: real) {
    && s.Span? && Product(s.X0, e0 - s.A) == s.B && Product(s.X1, e1 - s.A) == s.C
    && ((0.0 < s.X0 && 0.0 < s.X1) || (s.X0 < 0.0 && s.X1 < 0.0))
  }

  lemma ApexEnds(VVm: real, VVi: real, VVj: real, Dm: real, Di: real, Dj: real)
    requires Apex(Dm, Di, Dj)
    ensures SpanEnds(SpanFrom(VVm, VVi, VVj, Dm, Di, Dj), CutEnd(VVm, VVi, Dm, Di), CutEnd(VVm, VVj, Dm, Dj))
  {
    EdgeShareFacts(Dm, Di);
    EdgeShareFacts(Dm, Dj);
    hide EdgeShare;
    EndProduct(VVi - VVm, EdgeShare(Dm, Di), Dm - Di, Dm);
    EndProduct(VVj - VVm, EdgeShare(Dm, Dj), Dm - Dj, Dm);
    hide Product;
  }

  lemma EndProduct(a: real, l: real, g: real, d: real)
    requires Product(l, g) == d
    ensures Product(g, Product(l, a)) == a * d
  {}

  /** The k coordinates of the triangle's points on the plane. */
  ghost predicate OnPlane(VV0: real, VV1: real, VV2: real, D0: real, D1: real, D2: real, x: real) {
    exists u, v :: Bary(u, v) && Mix(u, v, D0, D1, D2) == 0.0 && Mix(u, v, VV0, VV1, VV2) == x
  }

  lemma MixBlends(u: real, v: real, a: real, b: real, c: real)
    ensures Mix(u, v, a, b, c) == Blend(1.0 - u - v, u, v, a, b, c) == Blend(u, 1.0 - u - v, v, b, a, c) == Blend(v, 1.0 - u - v, u, c, a, b)
  {}

  lemma OnPlaneTurns(VV0: real, VV1: real, VV2: real, D0: real, D1: real, D2: real, x: real, wm: real, wi: real, wj: real)
    requires Weights(wm, wi, wj) && Blend(wm, wi, wj, D0, D1, D2) == 0.0 && Blend(wm, wi, wj, VV0, VV1, VV2) == x
    ensures OnPlane(VV0, VV1, VV2, D0, D1, D2, x) && OnPlane(VV1, VV0, VV2, D1, D0, D2, x) && OnPlane(VV1, VV2, VV0, D1, D2, D0, x)
  {
    assert Bary(wi, wj) && Bary(wm, wj) && Bary(wj, wm);
    MixBlends(wi, wj, D0, D1, D2);
    MixBlends(wi, wj, VV0, VV1, VV2);
    MixBlends(wm, wj, D1, D0, D2);
    MixBlends(wm, wj, VV1, VV0, VV2);
    MixBlends(wj, wm, D1, D2, D0);
    MixBlends(wj, wm, VV1, VV2, VV0);
    assert wm == 1.0 - wi - wj && wi == 1.0 - wm - wj && wi == 1.0 - wj - wm;
    hide Mix, Blend;
  }

  /** One branch: the interval is exactly the triangle's points on the plane. */
  lemma ApexCut(Dm: real, Di: real, Dj: real, VVm: real, VVi: real, VVj: real, x: real)
    requires Apex(Dm, Di, Dj)
    ensures OnPlane(VVm, VVi, VVj, Dm, Di, Dj, x) <==> Spanned(CutEnd(VVm, VVi, Dm, Di), CutEnd(VVm, VVj, Dm, Dj), x)
    ensures OnPlane(VVm, VVi, VVj, Dm, Di, Dj, x) == OnPlane(VVi, VVm, VVj, Di, Dm, Dj, x) == OnPlane(VVi, VVj, VVm, Di, Dj, Dm, x)
  {
    hide CutEnd, Mix, Blend, Spanned;
    var e0, e1 := CutEnd(VVm, VVi, Dm, Di), CutEnd(VVm, VVj, Dm, Dj);
    forall u, v | Bary(u, v) && Mix(u, v, Dm, Di, Dj) == 0.0 && Mix(u, v, VVm, VVi, VVj) == x ensures Spanned(e0, e1, x) {
      MixBlends(u, v, Dm, Di, Dj);
      MixBlends(u, v, VVm, VVi, VVj);
      ApexForward(Dm, Di, Dj, VVm, VVi, VVj, 1.0 - u - v, u, v);
    }
    forall u, v | Bary(u, v) && Mix(u, v, Di, Dm, Dj) == 0.0 && Mix(u, v, VVi, VVm, VVj) == x ensures Spanned(e0, e1, x) {
      MixBlends(u, v, Di, Dm, Dj);
      MixBlends(u, v, VVi, VVm, VVj);
      ApexForward(Dm, Di, Dj, VVm, VVi, VVj, u, 1.0 - u - v, v);
    }
    forall u, v | Bary(u, v) && Mix(u, v, Di, Dj, Dm) == 0.0 && Mix(u, v, VVi, VVj, VVm) == x ensures Spanned(e0, e1, x) {
      MixBlends(u, v, Di, Dj, Dm);
      MixBlends(u, v, VVi, VVj, VVm);
      ApexForward(Dm, Di, Dj, VVm, VVi, VVj, v, 1.0 - u - v, u);
    }
    if Spanned(e0, e1, x) {
      var wm, wi, wj := ApexBackward(Dm, Di, Dj, VVm, VVi, VVj, x);
      OnPlaneTurns(VVm, VVi, VVj, Dm, Di, Dj, x, wm, wi, wj);
    }
  }

  /** The interval of a triangle that is neither beside nor in the plane: exactly the
      coordinates of its points on the plane. */
  lemma IntervalIff(VV0: real, VV1: real, VV2: real, D0: real, D1: real, D2: real) returns (e0: real, e1: real)
    requires !SameSideAll(D0, D1, D2) && (D0 != 0.0 || D1 != 0.0 || D2 != 0.0)
    ensures SpanEnds(ComputeIntervals(VV0, VV1, VV2, D0, D1, D2), e0, e1)
    ensures forall x :: OnPlane(VV0, VV1, VV2, D0, D1, D2, x) <==> Spanned(e0, e1, x)
  {
    SpanBranches(VV0, VV1, VV2, D0, D1, D2);
    hide SameSideAll, OnPlane, CutEnd, Spanned, ComputeIntervals, SpanEnds, SpanFrom;
    var s := ComputeIntervals(VV0, VV1, VV2, D0, D1, D2);
    if Apex(D0, D1, D2) && s == SpanFrom(VV0, VV1, VV2, D0, D1, D2) {
      e0, e1 := CutEnd(VV0, VV1, D0, D1), CutEnd(VV0, VV2, D0, D2);
      ApexEnds(VV0, VV1, VV2, D0, D1, D2);
      forall x | true ensures OnPlane(VV0, VV1, VV2, D0, D1, D2, x) <==> Spanned(e0, e1, x) { ApexCut(D0, D1, D2, VV0, VV1, VV2, x); }
    } else if Apex(D1, D0, D2) && s == SpanFrom(VV1, VV0, VV2, D1, D0, D2) {
      e0, e1 := CutEnd(VV1, VV0, D1, D0), CutEnd(VV1, VV2, D1, D2);
      ApexEnds(VV1, VV0, VV2, D1, D0, D2);
      forall x | true ensures OnPlane(VV0, VV1, VV2, D0, D1, D2, x) <==> Spanned(e0, e1, x) { ApexCut(D1, D0, D2, VV1, VV0, VV2, x); }
    } else {
      e0, e1 := CutEnd(VV2, VV0, D2, D0), CutEnd(VV2, VV1, D2, D1);
      ApexEnds(VV2, VV0, VV1, D2, D0, D1);
      forall x | true ensures OnPlane(VV0, VV1, VV2, D0, D1, D2, x) <==> Spanned(e0, e1, x) { ApexCut(D2, D0, D1, VV2, VV0, VV1, x); }
    }
  }

  // ------------------------------------------------------------- the two intervals

  lemma ScaledEnd(A: real, B: real, X0: real, X1: real, yy: real, e: real, k: real)
    requires Product(X0, e - A) == B && k == Product(Product(X0, X1), yy)
    ensures IntervalEnd(A, k, B, X1, yy) == Product(e, k) && IntervalEnd(A, k, B, yy, X1) == Product(e, k)
  {
    assert B * X1 * yy == (e - A) * ((X0 * X1) * yy);
  }

  lemma Commuted(a: real, b: real, c: real)
    ensures Product(Product(a, b), c) == Product(Product(b, a), c) == Product(c, Product(a, b))
  {}

  lemma ScaledOrder(a: real, b: real, k: real)
    requires 0.0 < k
    ensures a < b <==> Product(a, k) < Product(b, k)
  {
    assert Product(b - a, k) == Product(b, k) - Product(a, k) && Product(a - b, k) == Product(a, k) - Product(b, k);
    if a < b { ProductPositive(b - a, k); } else {
      assert Product(0.0, k) == 0.0;
      hide Product;
      ProductMono(k, 0.0, a - b);
    }
  }

  lemma SameOrder(a: real, b: real, c: real, d: real, k: real)
    requires 0.0 < k
    ensures Max(a, b) < Min(c, d) <==> Max(Product(a, k), Product(b, k)) < Min(Product(c, k), Product(d, k))
  {
    ScaledOrder(a, c, k);
    ScaledOrder(a, d, k);
    ScaledOrder(b, c, k);
    ScaledOrder(b, d, k);
    hide Product;
  }

  lemma MeetingStretches(a: real, b: real, c: real, d: real)
    ensures !(Max(a, b) < Min(c, d) || Max(c, d) < Min(a, b)) <==> exists x :: Spanned(a, b, x) && Spanned(c, d, x)
  {
    if !(Max(a, b) < Min(c, d) || Max(c, d) < Min(a, b)) {
      var x := Max(Min(a, b), Min(c, d));
      assert Spanned(a, b, x) && Spanned(c, d, x);
    }
  }

  /** The comparison of the scaled intervals decides whether they meet. */
  lemma SpansOverlapIff(s: Span, r: Span, e0: real, e1: real, f0: real, f1: real)
    requires SpanEnds(s, e0, e1) && SpanEnds(r, f0, f1)
    ensures SpansOverlap(s, r) <==> exists x :: Spanned(e0, e1, x) && Spanned(f0, f1, x)
  {
    hide Product, IntervalEnd;
    var xx, yy := Product(s.X0, s.X1), Product(r.X0, r.X1);
    ProductPositive(s.X0, s.X1);
    ProductPositive(r.X0, r.X1);
    ProductPositive(xx, yy);
    var k := Product(xx, yy);
    Commuted(s.X0, s.X1, yy);
    Commuted(r.X0, r.X1, xx);
    ScaledEnd(s.A, s.B, s.X0, s.X1, yy, e0, k);
    ScaledEnd(s.A, s.C, s.X1, s.X0, yy, e1, k);
    ScaledEnd(r.A, r.B, r.X0, r.X1, xx, f0, k);
    ScaledEnd(r.A, r.C, r.X1, r.X0, xx, f1, k);
    SameOrder(e0, e1, f0, f1, k);
    SameOrder(f0, f1, e0, e1, k);
    MeetingStretches(e0, e1, f0, f1);
    hide Spanned;
  }

  // ---------------------------------------------------------------------- planes

  const NO_VECTOR := Point(0.0, 0.0, 0.0)

  lemma PlaneGap(t: Triangle, p: Point, q: Point)
    ensures PlaneValue(t, p) - PlaneValue(t, q) == Dot(PlaneNormal(t), Sub(p, q))
    ensures PlaneValue(t, p) == Dot(PlaneNormal(t), Sub(p, t.v0))
  {
    var N := PlaneNormal(t);
    hide PlaneNormal;
    DotGap(N, p, q);
    DotGap(N, p, t.v0);
    DotScale(t.v0, -1.0, N);
    DotSymmetric(t.v0, N);
    DotSymmetric(t.v0, Scale(-1.0, N));
    hide Dot, Scale;
  }

  lemma DotGap(n: Point, p: Point, q: Point)
    ensures Dot(n, Sub(p, q)) == Dot(n, p) - Dot(n, q)
  {}

  /** The plane equation is affine. */
  lemma PlaneMix(t: Triangle, u: Triangle, a: real, b: real)
    ensures PlaneValue(t, At(u, a, b)) == Mix(a, b, PlaneValue(t, u.v0), PlaneValue(t, u.v1), PlaneValue(t, u.v2))
  {
    PlaneGap(t, At(u, a, b), t.v0);
    PlaneGap(t, u.v0, t.v0);
    PlaneGap(t, u.v1, t.v0);
    PlaneGap(t, u.v2, t.v0);
    hide PlaneValue, Mix, Dot, PlaneNormal, At, Sub;
    DotAt(PlaneNormal(t), u, t.v0, a, b);
  }

  lemma MixOfZeros(a: real, b: real)
    ensures Mix(a, b, 0.0, 0.0, 0.0) == 0.0
  {}

  /** A triangle lies in its own plane. */
  lemma OwnPlane(t: Triangle, a: real, b: real)
    ensures PlaneValue(t, t.v0) == 0.0 && PlaneValue(t, t.v1) == 0.0 && PlaneValue(t, t.v2) == 0.0
    ensures PlaneValue(t, At(t, a, b)) == 0.0
  {
    var e1, e2 := Sub(t.v1, t.v0), Sub(t.v2, t.v0);
    assert Dot(PlaneNormal(t), e1) == 0.0 && Dot(PlaneNormal(t), e2) == 0.0 by {
      hide Dot, Cross;
      Perpendicular(e1, e2);
      DotSymmetric(e1, Cross(e1, e2));
      DotSymmetric(e2, Cross(e1, e2));
    }
    PlaneGap(t, t.v0, t.v0);
    PlaneGap(t, t.v1, t.v0);
    PlaneGap(t, t.v2, t.v0);
    hide PlaneValue, PlaneNormal, At, Mix;
    assert Dot(PlaneNormal(t), Sub(t.v0, t.v0)) == 0.0;
    hide Dot;
    PlaneMix(t, t, a, b);
    MixOfZeros(a, b);
  }

  lemma MixPositive(a: real, b: real, x: real, y: real, z: real)
    requires Bary(a, b) && 0.0 < x && 0.0 < y && 0.0 < z
    ensures 0.0 < Mix(a, b, x, y, z)
  {
    var m := Min(x, Min(y, z));
    hide Mix;
    MixBound(a, b, -x, -y, -z, -m);
    MixNegate(a, b, x, y, z);
  }

  /** A triangle with all vertices on one side of the other's plane shares no point with it. */
  lemma RejectSound(t: Triangle, u: Triangle)
    requires SameSideAll(PlaneValue(t, u.v0), PlaneValue(t, u.v1), PlaneValue(t, u.v2))
    ensures !SharedPoint(t, u)
  {
    var d0, d1, d2 := PlaneValue(t, u.v0), PlaneValue(t, u.v1), PlaneValue(t, u.v2);
    SignsOfProduct(d0, d1);
    SignsOfProduct(d0, d2);
    hide PlaneValue, Mix, At;
    if SharedPoint(t, u) {
      var p :| InTriangle(t, p) && InTriangle(u, p);
      var a, b :| Bary(a, b) && p == At(t, a, b);
      var c, d :| Bary(c, d) && p == At(u, c, d);
      OwnPlane(t, a, b);
      PlaneMix(t, u, c, d);
      if 0.0 < d0 {
        MixPositive(c, d, d0, d1, d2);
      } else {
        MixPositive(c, d, -d0, -d1, -d2);
        MixNegate(c, d, d0, d1, d2);
      }
    }
  }

  lemma SharedSymmetric(t: Triangle, u: Triangle)
    ensures SharedPoint(t, u) <==> SharedPoint(u, t)
  {
    hide InTriangle;
  }

  lemma ParallelComponents(w: Point, d: Point, k: nat)
    requires Cross(w, d) == NO_VECTOR && k < 3 && Coord(d, k) != 0.0 && Coord(w, k) == 0.0
    ensures w == NO_VECTOR
  {
    if k == 0 {
      SameFactor(d.x, w.y, 0.0);
      SameFactor(d.x, w.z, 0.0);
    } else if k == 1 {
      SameFactor(d.y, w.x, 0.0);
      SameFactor(d.y, w.z, 0.0);
    } else {
      SameFactor(d.z, w.x, 0.0);
      SameFactor(d.z, w.y, 0.0);
    }
  }

  lemma TripleEntry(a0: real, a1: real, a2: real, b0: real, b1: real, b2: real, c0: real, c1: real, c2: real, k: real, m: real)
    requires k == a0 * c0 + (a1 * c1 + a2 * c2) && m == a0 * b0 + (a1 * b1 + a2 * b2)
    ensures a1 * (b0 * c1 - b1 * c0) - a2 * (b2 * c0 - b0 * c2) == k * b0 - m * c0
  {}

  lemma DotTurns(a: Point, b: Point)
    ensures Dot(a, b) == a.x * b.x + (a.y * b.y + a.z * b.z) == a.y * b.y + (a.z * b.z + a.x * b.x) == a.z * b.z + (a.x * b.x + a.y * b.y)
  {}

  lemma CrossOf(a: Point, w: Point)
    ensures Cross(a, w).x == a.y * w.z - a.z * w.y && Cross(a, w).y == a.z * w.x - a.x * w.z && Cross(a, w).z == a.x * w.y - a.y * w.x
  {}

  lemma TripleX(a: Point, b: Point, c: Point)
    ensures Cross(a, Cross(b, c)).x == Dot(a, c) * b.x - Dot(a, b) * c.x
  {
    hide Cross;
    CrossOf(b, c);
    CrossOf(a, Cross(b, c));
    DotTurns(a, b);
    DotTurns(a, c);
    hide Dot;
    TripleEntry(a.x, a.y, a.z, b.x, b.y, b.z, c.x, c.y, c.z, Dot(a, c), Dot(a, b));
  }

  lemma TripleY(a: Point, b: Point, c: Point)
    ensures Cross(a, Cross(b, c)).y == Dot(a, c) * b.y - Dot(a, b) * c.y
  {
    hide Cross;
    CrossOf(b, c);
    CrossOf(a, Cross(b, c));
    DotTurns(a, b);
    DotTurns(a, c);
    hide Dot;
    TripleEntry(a.y, a.z, a.x, b.y, b.z, b.x, c.y, c.z, c.x, Dot(a, c), Dot(a, b));
  }

  lemma TripleZ(a: Point, b: Point, c: Point)
    ensures Cross(a, Cross(b, c)).z == Dot(a, c) * b.z - Dot(a, b) * c.z
  {
    hide Cross;
    CrossOf(b, c);
    CrossOf(a, Cross(b, c));
    DotTurns(a, b);
    DotTurns(a, c);
    hide Dot;
    TripleEntry(a.z, a.x, a.y, b.z, b.x, b.y, c.z, c.x, c.y, Dot(a, c), Dot(a, b));
  }

  lemma TripleCross(a: Point, b: Point, c: Point)
    ensures Cross(a, Cross(b, c)) == Sub(Scale(Dot(a, c), b), Scale(Dot(a, b), c))
  {
    hide Cross, Dot;
    TripleX(a, b, c);
    TripleY(a, b, c);
    TripleZ(a, b, c);
  }

  lemma NoScale(a: Point, b: Point)
    ensures Sub(Scale(0.0, a), Scale(0.0, b)) == NO_VECTOR
  {}

  /** Perpendicular to both edge vectors is parallel to their cross product. */
  lemma PerpendicularToBoth(a: Point, b: Point, c: Point)
    requires Dot(a, b) == 0.0 && Dot(a, c) == 0.0
    ensures Cross(a, Cross(b, c)) == NO_VECTOR
  {
    hide Dot, Cross, Scale, Sub;
    TripleCross(a, b, c);
    NoScale(b, c);
  }

  /** A vector perpendicular to one of two parallel vectors is perpendicular to the other. */
  lemma PerpendicularToParallel(a: Point, b: Point, e: Point)
    requires Cross(a, b) == NO_VECTOR && a != NO_VECTOR && Dot(a, e) == 0.0
    ensures Dot(b, e) == 0.0
  {
    DotSelf(a);
    assert Cross(a, NO_VECTOR) == NO_VECTOR;
    TripleCross(a, a, b);
    assert Scale(Dot(a, b), a) == Scale(Dot(a, a), b);
    hide Cross;
    DotScale(e, Dot(a, b), a);
    DotScale(e, Dot(a, a), b);
    DotSymmetric(e, a);
    DotSymmetric(e, b);
    hide Dot, Scale;
    SameFactor(Dot(a, a), Dot(b, e), 0.0);
  }

  lemma CrossFlips(a: Point, b: Point)
    ensures Cross(a, b) == NO_VECTOR <==> Cross(b, a) == NO_VECTOR
  {}

  // ------------------------------------------------------------- planes that cross

  /** A point of the common line is known by one coordinate, if the line's direction is not
      zero there. */
  lemma SameLinePoint(t: Triangle, u: Triangle, p: Point, q: Point, k: nat)
    requires PlaneValue(t, p) == 0.0 && PlaneValue(t, q) == 0.0 && PlaneValue(u, p) == 0.0 && PlaneValue(u, q) == 0.0
    requires k < 3 && Coord(Cross(PlaneNormal(t), PlaneNormal(u)), k) != 0.0 && Coord(p, k) == Coord(q, k)
    ensures p == q
  {
    var w := Sub(p, q);
    PlaneGap(t, p, q);
    PlaneGap(u, p, q);
    hide PlaneValue, PlaneNormal, Cross, Dot;
    DotSymmetric(PlaneNormal(t), w);
    DotSymmetric(PlaneNormal(u), w);
    PerpendicularToBoth(w, PlaneNormal(t), PlaneNormal(u));
    ParallelComponents(w, Cross(PlaneNormal(t), PlaneNormal(u)), k);
  }

  lemma AtCoord(t: Triangle, a: real, b: real, k: nat)
    ensures Coord(At(t, a, b), k) == Mix(a, b, Coord(t.v0, k), Coord(t.v1, k), Coord(t.v2, k))
  {}

  /** The k coordinates of the points a triangle has on another's plane. */
  ghost predicate Cuts(u: Triangle, t: Triangle, k: nat, x: real) {
    OnPlane(Coord(t.v0, k), Coord(t.v1, k), Coord(t.v2, k), PlaneValue(u, t.v0), PlaneValue(u, t.v1), PlaneValue(u, t.v2), x)
  }

  lemma CutPoint(u: Triangle, t: Triangle, k: nat, x: real) returns (p: Point)
    requires Cuts(u, t, k, x)
    ensures InTriangle(t, p) && Coord(p, k) == x && PlaneValue(u, p) == 0.0 && PlaneValue(t, p) == 0.0
  {
    hide PlaneValue, Mix, At, Coord;
    var a, b :| Bary(a, b) && Mix(a, b, PlaneValue(u, t.v0), PlaneValue(u, t.v1), PlaneValue(u, t.v2)) == 0.0
      && Mix(a, b, Coord(t.v0, k), Coord(t.v1, k), Coord(t.v2, k)) == x;
    p := At(t, a, b);
    AtCoord(t, a, b, k);
    PlaneMix(u, t, a, b);
    OwnPlane(t, a, b);
  }

  lemma PointCuts(u: Triangle, t: Triangle, k: nat, p: Point)
    requires InTriangle(t, p) && PlaneValue(u, p) == 0.0
    ensures Cuts(u, t, k, Coord(p, k))
  {
    hide PlaneValue, Mix, At, Coord;
    var a, b :| Bary(a, b) && p == At(t, a, b);
    AtCoord(t, a, b, k);
    PlaneMix(u, t, a, b);
  }

  lemma InOwnPlane(t: Triangle, p: Point)
    requires InTriangle(t, p)
    ensures PlaneValue(t, p) == 0.0
  {
    hide PlaneValue, At;
    var a, b :| Bary(a, b) && p == At(t, a, b);
    OwnPlane(t, a, b);
  }

  /** Where the planes cross, the triangles share a point exactly when the coordinates of
      their cuts do. */
  lemma SharedOnLine(t: Triangle, u: Triangle, k: nat)
    requires k < 3 && Coord(Cross(PlaneNormal(t), PlaneNormal(u)), k) != 0.0
    ensures SharedPoint(t, u) <==> exists x :: Cuts(u, t, k, x) && Cuts(t, u, k, x)
  {
    hide PlaneValue, InTriangle, Coord, Cuts, PlaneNormal, Cross;
    if SharedPoint(t, u) {
      var p :| InTriangle(t, p) && InTriangle(u, p);
      InOwnPlane(t, p);
      InOwnPlane(u, p);
      PointCuts(u, t, k, p);
      PointCuts(t, u, k, p);
    }
    if x :| Cuts(u, t, k, x) && Cuts(t, u, k, x) {
      var p := CutPoint(u, t, k, x);
      var q := CutPoint(t, u, k, x);
      SameLinePoint(t, u, p, q, k);
    }
  }

  /** Parallel planes: all vertices have the same plane value. */
  lemma ParallelPlanes(t: Triangle, u: Triangle)
    requires Cross(PlaneNormal(t), PlaneNormal(u)) == NO_VECTOR && NonDegenerate(t)
    ensures PlaneValue(u, t.v0) == PlaneValue(u, t.v1) == PlaneValue(u, t.v2)
  {
    OwnPlane(t, 0.0, 0.0);
    PlaneGap(t, t.v1, t.v0);
    PlaneGap(t, t.v2, t.v0);
    PlaneGap(u, t.v1, t.v0);
    PlaneGap(u, t.v2, t.v0);
    hide PlaneValue, PlaneNormal, Cross, Dot, Sub;
    PerpendicularToParallel(PlaneNormal(t), PlaneNormal(u), Sub(t.v1, t.v0));
    PerpendicularToParallel(PlaneNormal(t), PlaneNormal(u), Sub(t.v2, t.v0));
  }

  lemma LargestNotZero(d: Point)
    requires d != NO_VECTOR
    ensures LargestIndex(d) < 3 && Coord(d, LargestIndex(d)) != 0.0
  {}

  // ------------------------------------------------------------- coplanar triangles

  /** In each other's plane, both ways. */
  ghost predicate InPlane(t: Triangle, u: Triangle) {
    PlaneValue(t, u.v0) == 0.0 && PlaneValue(t, u.v1) == 0.0 && PlaneValue(t, u.v2) == 0.0
  }

  lemma InPlaneParallel(t: Triangle, u: Triangle)
    requires InPlane(t, u)
    ensures Cross(PlaneNormal(t), PlaneNormal(u)) == NO_VECTOR
  {
    PlaneGap(t, u.v1, u.v0);
    PlaneGap(t, u.v2, u.v0);
    hide PlaneValue, Dot;
    PerpendicularToBoth(PlaneNormal(t), Sub(u.v1, u.v0), Sub(u.v2, u.v0));
  }

  lemma PointInPlane(t: Triangle, u: Triangle, p: Point)
    requires InPlane(t, u) && InTriangle(u, p)
    ensures PlaneValue(t, p) == 0.0
  {
    hide PlaneValue, Mix, At;
    var a, b :| Bary(a, b) && p == At(u, a, b);
    PlaneMix(t, u, a, b);
    MixOfZeros(a, b);
  }

  /** If one of two triangles lies in the other's plane, so does the other. */
  lemma InPlaneSymmetric(t: Triangle, u: Triangle)
    requires InPlane(u, t) && NonDegenerate(u)
    ensures InPlane(t, u)
  {
    InPlaneParallel(u, t);
    OwnPlane(u, 0.0, 0.0);
    PlaneGap(u, u.v0, t.v0);
    PlaneGap(u, u.v1, t.v0);
    PlaneGap(u, u.v2, t.v0);
    PlaneGap(t, u.v0, t.v0);
    PlaneGap(t, u.v1, t.v0);
    PlaneGap(t, u.v2, t.v0);
    hide PlaneValue, PlaneNormal, Cross, Dot, Sub;
    PerpendicularToParallel(PlaneNormal(u), PlaneNormal(t), Sub(u.v0, t.v0));
    PerpendicularToParallel(PlaneNormal(u), PlaneNormal(t), Sub(u.v1, t.v0));
    PerpendicularToParallel(PlaneNormal(u), PlaneNormal(t), Sub(u.v2, t.v0));
  }

  /** The axis the projection drops. */
  function DroppedAxis(n: Point): nat {
    var i := ProjectionAxes(n);
    3 - i.0 - i.1
  }

  lemma DroppedNotZero(n: Point)
    requires n != NO_VECTOR
    ensures DroppedAxis(n) < 3 && Coord(n, DroppedAxis(n)) != 0.0
    ensures var i := ProjectionAxes(n); i == (0, 1) || i == (0, 2) || i == (1, 2)
  {}

  lemma DetOpposite(a: real, b: real, c: real, d: real)
    ensures Det2(Vec(a, b), Vec(c, d)) == -(b * c - a * d)
  {}

  /** The projected area is a component of the normal. */
  lemma ProjectedSize(t: Triangle, i: (nat, nat))
    requires i == (0, 1) || i == (0, 2) || i == (1, 2)
    ensures Size(Projected(t, i)) == Coord(PlaneNormal(t), 3 - i.0 - i.1) || Size(Projected(t, i)) == -Coord(PlaneNormal(t), 3 - i.0 - i.1)
  {
    var f := Projected(t, i);
    AreaIsDet(f, f.v0);
    var e1, e2 := Sub(t.v1, t.v0), Sub(t.v2, t.v0);
    assert Size(f) == Det2(Vec(Coord(e1, i.0), Coord(e1, i.1)), Vec(Coord(e2, i.0), Coord(e2, i.1)));
    hide Size, Sub;
    DetOpposite(e1.x, e1.z, e2.x, e2.z);
  }

  lemma ProjectedAt(t: Triangle, i: (nat, nat), a: real, b: real)
    ensures FlatAt(Projected(t, i), a, b) == Project(At(t, a, b), i)
  {
    AtCoord(t, a, b, i.0);
    AtCoord(t, a, b, i.1);
    hide Mix, At, Coord;
  }

  lemma ProjectedPoint(t: Triangle, i: (nat, nat), p: Point)
    requires InTriangle(t, p)
    ensures InFlat(Projected(t, i), Project(p, i))
  {
    hide At, FlatAt, Project, Projected;
    var a, b :| Bary(a, b) && p == At(t, a, b);
    ProjectedAt(t, i, a, b);
  }

  lemma LiftedPoint(t: Triangle, i: (nat, nat), x: Vec) returns (p: Point)
    requires InFlat(Projected(t, i), x)
    ensures InTriangle(t, p) && Project(p, i) == x
  {
    hide At, FlatAt, Project, Projected;
    var a, b :| Bary(a, b) && x == FlatAt(Projected(t, i), a, b);
    ProjectedAt(t, i, a, b);
    p := At(t, a, b);
  }

  /** Points of one plane with the same projection are the same. */
  lemma SameProjection(n: Point, i: (nat, nat), p: Point, q: Point)
    requires (i == (0, 1) || i == (0, 2) || i == (1, 2)) && Coord(n, 3 - i.0 - i.1) != 0.0
    requires Dot(n, Sub(p, q)) == 0.0 && Project(p, i) == Project(q, i)
    ensures p == q
  {
    var w := Sub(p, q);
    if i == (0, 1) {
      SameFactor(n.z, w.z, 0.0);
    } else if i == (0, 2) {
      SameFactor(n.y, w.y, 0.0);
    } else {
      SameFactor(n.x, w.x, 0.0);
    }
  }

  /** The projection loses nothing. */
  lemma ProjectionShared(t: Triangle, u: Triangle, i: (nat, nat))
    requires (i == (0, 1) || i == (0, 2) || i == (1, 2)) && Coord(PlaneNormal(t), 3 - i.0 - i.1) != 0.0 && InPlane(t, u)
    ensures FlatShared(Projected(t, i), Projected(u, i)) <==> SharedPoint(t, u)
  {
    hide InTriangle, InFlat, PlaneValue, Projected, PlaneNormal, Dot, Project, Coord, Sub;
    if SharedPoint(t, u) {
      var p :| InTriangle(t, p) && InTriangle(u, p);
      ProjectedPoint(t, i, p);
      ProjectedPoint(u, i, p);
    }
    if FlatShared(Projected(t, i), Projected(u, i)) {
      var x :| InFlat(Projected(t, i), x) && InFlat(Projected(u, i), x);
      var p := LiftedPoint(t, i, x);
      var q := LiftedPoint(u, i, x);
      InOwnPlane(t, p);
      PointInPlane(t, u, q);
      PlaneGap(t, p, q);
      SameProjection(PlaneNormal(t), i, p, q);
    }
  }

  /** For coplanar triangles with an area the projected test is exact. */
  lemma CoplanarIff(t: Triangle, u: Triangle)
    requires NonDegenerate(t) && NonDegenerate(u) && InPlane(t, u)
    ensures CoplanarTriTri(PlaneNormal(t), t, u) <==> SharedPoint(t, u)
  {
    var i := ProjectionAxes(PlaneNormal(t));
    hide InTriangle, InFlat, InPlane, Projected, FlatTest, Size, PlaneNormal, ProjectionAxes, Cross, Coord;
    DroppedNotZero(PlaneNormal(t));
    InPlaneParallel(t, u);
    CrossFlips(PlaneNormal(t), PlaneNormal(u));
    if Coord(PlaneNormal(u), DroppedAxis(PlaneNormal(t))) == 0.0 {
      ParallelComponents(PlaneNormal(u), PlaneNormal(t), DroppedAxis(PlaneNormal(t)));
    }
    ProjectedSize(t, i);
    ProjectedSize(u, i);
    FlatTestIff(Projected(t, i), Projected(u, i));
    ProjectionShared(t, u, i);
  }

  // ------------------------------------------------------------------ the whole test

  lemma SnapIdle(d: real)
    requires OnOrFar(LOCAL_EPSILON, d)
    ensures Snap(d) == d
  {}

  /** Where the planes cross, the comparison of the two intervals is exact. */
  lemma CrossingIff(t: Triangle, u: Triangle)
    requires NonDegenerate(t) && NonDegenerate(u) && !InPlane(t, u) && !InPlane(u, t)
    requires !SameSideAll(PlaneValue(t, u.v0), PlaneValue(t, u.v1), PlaneValue(t, u.v2))
    requires !SameSideAll(PlaneValue(u, t.v0), PlaneValue(u, t.v1), PlaneValue(u, t.v2))
    ensures var k := LargestIndex(Cross(PlaneNormal(t), PlaneNormal(u)));
      var s := ComputeIntervals(Coord(t.v0, k), Coord(t.v1, k), Coord(t.v2, k), PlaneValue(u, t.v0), PlaneValue(u, t.v1), PlaneValue(u, t.v2));
      var r := ComputeIntervals(Coord(u.v0, k), Coord(u.v1, k), Coord(u.v2, k), PlaneValue(t, u.v0), PlaneValue(t, u.v1), PlaneValue(t, u.v2));
      s.Span? && r.Span? && (SpansOverlap(s, r) <==> SharedPoint(t, u))
  {
    var D := Cross(PlaneNormal(t), PlaneNormal(u));
    assert D != NO_VECTOR by {
      hide PlaneValue, PlaneNormal, Cross;
      if D == NO_VECTOR {
        ParallelPlanes(t, u);
        SignsOfProduct(PlaneValue(u, t.v0), PlaneValue(u, t.v0));
      }
    }
    hide InTriangle, PlaneValue, PlaneNormal, Cross, Coord, LargestIndex, SameSideAll, ComputeIntervals, SpansOverlap, Spanned, OnPlane, SharedPoint;
    LargestNotZero(D);
    var k := LargestIndex(D);
    var e0, e1 := IntervalIff(Coord(t.v0, k), Coord(t.v1, k), Coord(t.v2, k), PlaneValue(u, t.v0), PlaneValue(u, t.v1), PlaneValue(u, t.v2));
    var f0, f1 := IntervalIff(Coord(u.v0, k), Coord(u.v1, k), Coord(u.v2, k), PlaneValue(t, u.v0), PlaneValue(t, u.v1), PlaneValue(t, u.v2));
    var s := ComputeIntervals(Coord(t.v0, k), Coord(t.v1, k), Coord(t.v2, k), PlaneValue(u, t.v0), PlaneValue(u, t.v1), PlaneValue(u, t.v2));
    var r := ComputeIntervals(Coord(u.v0, k), Coord(u.v1, k), Coord(u.v2, k), PlaneValue(t, u.v0), PlaneValue(t, u.v1), PlaneValue(t, u.v2));
    SpansOverlapIff(s, r, e0, e1, f0, f1);
    SharedOnLine(t, u, k);
    hide SpanEnds;
    assert forall x :: Cuts(u, t, k, x) <==> Spanned(e0, e1, x);
    assert forall x :: Cuts(t, u, k, x) <==> Spanned(f0, f1, x);
    hide Cuts;
  }

  lemma AllZeroCoplanar(VV0: real, VV1: real, VV2: real)
    ensures ComputeIntervals(VV0, VV1, VV2, 0.0, 0.0, 0.0) == Coplanar
  {}

  lemma SpanUnlessZero(VV0: real, VV1: real, VV2: real, D0: real, D1: real, D2: real)
    requires !SameSideAll(D0, D1, D2)
    ensures ComputeIntervals(VV0, VV1, VV2, D0, D1, D2).Coplanar? <==> D0 == 0.0 && D1 == 0.0 && D2 == 0.0
  {
    SpanBranches(VV0, VV1, VV2, D0, D1, D2);
    hide SameSideAll, ComputeIntervals;
    if D0 == 0.0 && D1 == 0.0 && D2 == 0.0 { AllZeroCoplanar(VV0, VV1, VV2); }
  }

  /** Two triangles with an area and no plane distance that is set to zero: the test accepts
      them exactly when they share a point. */
  lemma TriTriOverlapIff(t: Triangle, u: Triangle)
    requires Reliable(t, u)
    ensures TriTriOverlap(t, u) <==> SharedPoint(t, u)
  {
    var du0, du1, du2 := PlaneValue(t, u.v0), PlaneValue(t, u.v1), PlaneValue(t, u.v2);
    var dv0, dv1, dv2 := PlaneValue(u, t.v0), PlaneValue(u, t.v1), PlaneValue(u, t.v2);
    hide SharedPoint, PlaneValue, PlaneNormal, Cross, Coord, LargestIndex, SameSideAll, ComputeIntervals, SpansOverlap, CoplanarTriTri;
    SnapIdle(du0);
    SnapIdle(du1);
    SnapIdle(du2);
    SnapIdle(dv0);
    SnapIdle(dv1);
    SnapIdle(dv2);
    hide Snap, OnOrFar;
    SharedSymmetric(t, u);
    if SameSideAll(du0, du1, du2) {
      RejectSound(t, u);
    } else if SameSideAll(dv0, dv1, dv2) {
      RejectSound(u, t);
    } else {
      var k := LargestIndex(Cross(PlaneNormal(t), PlaneNormal(u)));
      SpanUnlessZero(Coord(t.v0, k), Coord(t.v1, k), Coord(t.v2, k), dv0, dv1, dv2);
      SpanUnlessZero(Coord(u.v0, k), Coord(u.v1, k), Coord(u.v2, k), du0, du1, du2);
      if InPlane(u, t) { InPlaneSymmetric(t, u); }
      if InPlane(t, u) {
        CoplanarIff(t, u);
      } else {
        CrossingIff(t, u);
      }
    }
  }

  // ------------------------------------------------------- where the test is not exact

  lemma UprightValue(t: Triangle, p: Point, c: real)
    requires PlaneNormal(t) == Point(0.0, 0.0, c)
    ensures PlaneValue(t, p) == c * (p.z - t.v0.z)
  {
    hide PlaneNormal;
    PlaneGap(t, p, p);
    hide PlaneValue;
  }

  lemma UprightValues(t: Triangle, u: Triangle, c: real)
    requires PlaneNormal(t) == Point(0.0, 0.0, c)
    ensures PlaneValue(t, u.v0) == c * (u.v0.z - t.v0.z) && PlaneValue(t, u.v1) == c * (u.v1.z - t.v0.z) && PlaneValue(t, u.v2) == c * (u.v2.z - t.v0.z)
  {
    UprightValue(t, u.v0, c);
    UprightValue(t, u.v1, c);
    UprightValue(t, u.v2, c);
    hide PlaneValue, PlaneNormal;
  }

  lemma LevelNormal(t: Triangle)
    requires t.v0.z == t.v1.z == t.v2.z
    ensures PlaneNormal(t) == Point(0.0, 0.0, (t.v1.x - t.v0.x) * (t.v2.y - t.v0.y) - (t.v1.y - t.v0.y) * (t.v2.x - t.v0.x))
  {}

  lemma FoldedNormal(t: Triangle)
    requires t.v2 == t.v0
    ensures PlaneNormal(t) == NO_VECTOR
  {}

  /** A right triangle with legs of length a, at height z. */
  function LevelTriangle(a: real, z: real): Triangle { Triangle(Point(0.0, 0.0, z), Point(a, 0.0, z), Point(0.0, a, z)) }

  lemma LevelValues(a: real, z: real, w: real)
    ensures var t, u := LevelTriangle(a, z), LevelTriangle(a, w); var d := Product(Product(a, a), w - z);
      && PlaneNormal(t) == Point(0.0, 0.0, Product(a, a))
      && PlaneValue(t, u.v0) == d && PlaneValue(t, u.v1) == d && PlaneValue(t, u.v2) == d
  {
    hide PlaneValue, PlaneNormal;
    LevelNormal(LevelTriangle(a, z));
    UprightValues(LevelTriangle(a, z), LevelTriangle(a, w), Product(a, a));
  }

  lemma LevelPoints(a: real, z: real, p: Point)
    requires InTriangle(LevelTriangle(a, z), p)
    ensures p.z == z
  {
    var t := LevelTriangle(a, z);
    var u, v :| Bary(u, v) && p == At(t, u, v);
    assert Mix(u, v, z, z, z) == z;
  }

  lemma LevelsApart(a: real, z: real, w: real)
    requires z != w
    ensures !SharedPoint(LevelTriangle(a, z), LevelTriangle(a, w))
  {
    hide InTriangle, LevelTriangle;
    if SharedPoint(LevelTriangle(a, z), LevelTriangle(a, w)) {
      var p :| InTriangle(LevelTriangle(a, z), p) && InTriangle(LevelTriangle(a, w), p);
      LevelPoints(a, z, p);
      LevelPoints(a, w, p);
    }
  }

  lemma SameFlat(f: Flat)
    requires Size(f) != 0.0
    ensures FlatTest(f, f)
  {
    hide InFlat, Size, FlatTest;
    CornerInFlat(f, 0);
    FlatTestIff(f, f);
  }

  lemma LevelsCoplanar(a: real, z: real, w: real)
    requires 0.0 < Product(a, a)
    ensures CoplanarTriTri(Point(0.0, 0.0, Product(a, a)), LevelTriangle(a, z), LevelTriangle(a, w))
  {
    hide FlatTest;
    var f := Flat(Vec(0.0, 0.0), Vec(a, 0.0), Vec(0.0, a));
    assert Size(f) == Product(a, a);
    SameFlat(f);
    hide Product;
    assert Projected(LevelTriangle(a, z), (0, 1)) == f == Projected(LevelTriangle(a, w), (0, 1));
    assert ProjectionAxes(Point(0.0, 0.0, Product(a, a))) == (0, 1);
  }

  /** Everything is coplanar in the eyes of the test, after the robustness check on the second
      triangle's plane. */
  lemma TakenForCoplanar(t: Triangle, u: Triangle)
    requires Snap(PlaneValue(u, t.v0)) == 0.0 && Snap(PlaneValue(u, t.v1)) == 0.0 && Snap(PlaneValue(u, t.v2)) == 0.0
    requires !SameSideAll(Snap(PlaneValue(t, u.v0)), Snap(PlaneValue(t, u.v1)), Snap(PlaneValue(t, u.v2)))
    ensures TriTriOverlap(t, u) <==> CoplanarTriTri(PlaneNormal(t), t, u)
  {
    hide PlaneValue, PlaneNormal, CoplanarTriTri, Cross, Coord, LargestIndex, Snap;
    var k := LargestIndex(Cross(PlaneNormal(t), PlaneNormal(u)));
    AllZeroCoplanar(Coord(t.v0, k), Coord(t.v1, k), Coord(t.v2, k));
    hide ComputeIntervals;
  }

  /** The same, when only the first triangle's plane holds the other's vertices. */
  lemma TakenForCoplanarToo(t: Triangle, u: Triangle)
    requires Snap(PlaneValue(t, u.v0)) == 0.0 && Snap(PlaneValue(t, u.v1)) == 0.0 && Snap(PlaneValue(t, u.v2)) == 0.0
    requires !SameSideAll(Snap(PlaneValue(u, t.v0)), Snap(PlaneValue(u, t.v1)), Snap(PlaneValue(u, t.v2)))
    ensures TriTriOverlap(t, u) <==> CoplanarTriTri(PlaneNormal(t), t, u)
  {
    hide PlaneValue, PlaneNormal, CoplanarTriTri, Cross, Coord, LargestIndex, Snap;
    var k := LargestIndex(Cross(PlaneNormal(t), PlaneNormal(u)));
    AllZeroCoplanar(Coord(u.v0, k), Coord(u.v1, k), Coord(u.v2, k));
    hide ComputeIntervals;
  }

  /** Parallel triangles whose plane distances, times twice their area, are below the epsilon
      are taken for coplanar. */
  lemma NearbyAccepted(a: real, e: real)
    requires 0.0 < Product(a, a) && e != 0.0 && 0.0 < Product(Product(a, a), e) < LOCAL_EPSILON
    ensures var t, u := LevelTriangle(a, 0.0), LevelTriangle(a, e);
      && NonDegenerate(t) && NonDegenerate(u) && Clear(Product(Product(a, a), e), t, u)
      && TriTriOverlap(t, u) && !SharedPoint(t, u)
  {
    hide PlaneValue, PlaneNormal, SharedPoint, LevelTriangle, CoplanarTriTri, TriTriOverlap;
    var t, u := LevelTriangle(a, 0.0), LevelTriangle(a, e);
    var d := Product(Product(a, a), e);
    assert Product(Product(a, a), 0.0 - e) == -d && Product(Product(a, a), e - 0.0) == d;
    hide Product;
    LevelsApart(a, 0.0, e);
    LevelValues(a, 0.0, e);
    LevelValues(a, e, 0.0);
    assert Snap(d) == 0.0 && Snap(-d) == 0.0;
    LevelsCoplanar(a, 0.0, e);
    TakenForCoplanar(t, u);
  }

  function Needle(k: real): Triangle { Triangle(Point(0.0, 0.0, -k), Point(0.0, 0.0, k), Point(0.0, 0.0, -k)) }

  const BESIDE := Triangle(Point(-1.0, 5.0, 0.0), Point(1.0, 5.0, 0.0), Point(0.0, 6.0, 0.0))

  lemma NeedleValues(k: real)
    ensures var t := Needle(k);
      && PlaneNormal(t) == NO_VECTOR && PlaneNormal(BESIDE) == Point(0.0, 0.0, 2.0)
      && PlaneValue(t, BESIDE.v0) == 0.0 && PlaneValue(t, BESIDE.v1) == 0.0 && PlaneValue(t, BESIDE.v2) == 0.0
      && PlaneValue(BESIDE, t.v0) == -2.0 * k && PlaneValue(BESIDE, t.v1) == 2.0 * k && PlaneValue(BESIDE, t.v2) == -2.0 * k
  {
    hide PlaneNormal, PlaneValue;
    FoldedNormal(Needle(k));
    LevelNormal(BESIDE);
    UprightValues(Needle(k), BESIDE, 0.0);
    UprightValues(BESIDE, Needle(k), 2.0);
  }

  lemma Crossed(k: real)
    requires 0.0 < k
    ensures EdgeEdgeTest(Vec(0.0, -k), Vec(0.0, k), Vec(-1.0, 0.0), Vec(1.0, 0.0))
  {
    var A, B, C := Vec(0.0, 2.0 * k), Vec(-2.0, 0.0), Vec(1.0, -k);
    assert Det2(B, A) == -4.0 * k && Det2(C, B) == -2.0 * k && Det2(A, C) == -2.0 * k;
    assert Minus(Vec(0.0, k), Vec(0.0, -k)) == A && Minus(Vec(-1.0, 0.0), Vec(1.0, 0.0)) == B && Minus(Vec(0.0, -k), Vec(-1.0, 0.0)) == C;
    hide Det2, Minus;
  }

  lemma NeedleCrosses(k: real)
    requires 0.0 < k
    ensures CoplanarTriTri(NO_VECTOR, Needle(k), BESIDE)
  {
    assert ProjectionAxes(NO_VECTOR) == (0, 2);
    var f, g := Projected(Needle(k), (0, 2)), Projected(BESIDE, (0, 2));
    assert f.v0 == Vec(0.0, -k) && f.v1 == Vec(0.0, k) && g.v0 == Vec(-1.0, 0.0) && g.v1 == Vec(1.0, 0.0);
    hide PointInTri, EdgeEdgeTest, Projected;
    Crossed(k);
  }

  lemma NeedlePoints(k: real, p: Point)
    ensures !(InTriangle(Needle(k), p) && InTriangle(BESIDE, p))
  {
    hide Mix;
    if InTriangle(Needle(k), p) && InTriangle(BESIDE, p) {
      var u, v :| Bary(u, v) && p == At(Needle(k), u, v);
      var a, b :| Bary(a, b) && p == At(BESIDE, a, b);
      MixOfZeros(u, v);
      MixPositive(a, b, 5.0, 5.0, 6.0);
    }
  }

  lemma NeedleBeside(k: real)
    ensures !SharedPoint(Needle(k), BESIDE)
  {
    hide InTriangle;
    if SharedPoint(Needle(k), BESIDE) {
      var p :| InTriangle(Needle(k), p) && InTriangle(BESIDE, p);
      NeedlePoints(k, p);
    }
  }

  /** A face without area, as far from the other's plane as one likes. */
  lemma NeedleAccepted(k: real)
    requires LOCAL_EPSILON <= 2.0 * k
    ensures !NonDegenerate(Needle(k)) && NonDegenerate(BESIDE) && Clear(2.0 * k, Needle(k), BESIDE)
    ensures TriTriOverlap(Needle(k), BESIDE) && !SharedPoint(Needle(k), BESIDE)
  {
    hide PlaneValue, PlaneNormal, SharedPoint, Needle, CoplanarTriTri, TriTriOverlap;
    NeedleValues(k);
    NeedleCrosses(k);
    NeedleBeside(k);
    SignsOfProduct(-2.0 * k, 2.0 * k);
    assert Snap(0.0) == 0.0 && Snap(-2.0 * k) == -2.0 * k && Snap(2.0 * k) == 2.0 * k;
    TakenForCoplanarToo(Needle(k), BESIDE);
  }

  const FLOOR := Triangle(Point(-1.0, -1.0, 0.0), Point(1.0, -1.0, 0.0), Point(0.0, 1.0, 0.0))

  function Spike(k: real): Triangle { Triangle(Point(0.0, 0.0, k), Point(10.0, 0.0, -k), Point(0.0, 0.0, k)) }

  lemma SpikeValues(k: real)
    ensures var u := Spike(k);
      && PlaneNormal(u) == NO_VECTOR && PlaneNormal(FLOOR) == Point(0.0, 0.0, 4.0)
      && PlaneValue(u, FLOOR.v0) == 0.0 && PlaneValue(u, FLOOR.v1) == 0.0 && PlaneValue(u, FLOOR.v2) == 0.0
      && PlaneValue(FLOOR, u.v0) == 4.0 * k && PlaneValue(FLOOR, u.v1) == -4.0 * k && PlaneValue(FLOOR, u.v2) == 4.0 * k
  {
    hide PlaneNormal, PlaneValue;
    FoldedNormal(Spike(k));
    LevelNormal(FLOOR);
    UprightValues(Spike(k), FLOOR, 0.0);
    UprightValues(FLOOR, Spike(k), 4.0);
  }

  lemma SpikeFoot(k: real, u: real, v: real)
    requires k != 0.0 && At(Spike(k), u, v).z == 0.0
    ensures At(Spike(k), u, v).x == 5.0
  {
    assert At(Spike(k), u, v).z == k * (1.0 - 2.0 * u);
    SameFactor(k, 1.0 - 2.0 * u, 0.0);
  }

  lemma FloorPoints(p: Point)
    requires InTriangle(FLOOR, p)
    ensures p.z == 0.0 && p.x <= 1.0
  {
    hide Mix;
    var a, b :| Bary(a, b) && p == At(FLOOR, a, b);
    MixOfZeros(a, b);
    MixBound(a, b, -1.0, 1.0, 0.0, 1.0);
  }

  lemma SpikeBeside(k: real)
    requires k != 0.0
    ensures !SharedPoint(FLOOR, Spike(k))
  {
    hide Mix, At, Spike;
    if SharedPoint(FLOOR, Spike(k)) {
      var p :| InTriangle(FLOOR, p) && InTriangle(Spike(k), p);
      var u, v :| Bary(u, v) && p == At(Spike(k), u, v);
      FloorPoints(p);
      SpikeFoot(k, u, v);
    }
  }

  lemma SpikeCovers(k: real)
    ensures CoplanarTriTri(Point(0.0, 0.0, 4.0), FLOOR, Spike(k))
  {
    assert ProjectionAxes(Point(0.0, 0.0, 4.0)) == (0, 1);
    var f, g := Projected(FLOOR, (0, 1)), Projected(Spike(k), (0, 1));
    assert f == Flat(Vec(-1.0, -1.0), Vec(1.0, -1.0), Vec(0.0, 1.0)) && g.v0 == Vec(0.0, 0.0);
    hide EdgeAgainstTriEdges, Projected;
    assert PointInTri(g.v0, f);
  }

  /** The same with the face without area in second place. */
  lemma SpikeAccepted(k: real)
    requires LOCAL_EPSILON <= 4.0 * k
    ensures NonDegenerate(FLOOR) && !NonDegenerate(Spike(k)) && Clear(4.0 * k, FLOOR, Spike(k))
    ensures TriTriOverlap(FLOOR, Spike(k)) && !SharedPoint(FLOOR, Spike(k))
  {
    hide PlaneValue, PlaneNormal, SharedPoint, Spike, CoplanarTriTri, TriTriOverlap;
    SpikeValues(k);
    SpikeCovers(k);
    SpikeBeside(k);
    SignsOfProduct(4.0 * k, -4.0 * k);
    assert Snap(0.0) == 0.0 && Snap(-4.0 * k) == -4.0 * k && Snap(4.0 * k) == 4.0 * k;
    TakenForCoplanar(FLOOR, Spike(k));
  }

  /** A condition one may ask of two faces before the test: an area of the first, of the
      second, and a distance e below which a vertex must lie on the other plane. */
  datatype Guard = Guard(first: bool, second: bool, e: real)

  predicate Guarded(g: Guard, t: Triangle, u: Triangle) {
    (g.first ==> NonDegenerate(t)) && (g.second ==> NonDegenerate(u)) && Clear(g.e, t, u)
  }

  lemma ClearBelow(d: real, e: real, t: Triangle, u: Triangle)
    requires d <= e && Clear(e, t, u)
    ensures Clear(d, t, u)
  {
    hide PlaneValue;
  }

  /** Which conditions make the test exact, over all triangles: those that ask an area of both
      and a distance not below the epsilon. */
  lemma ExactGuardIff(g: Guard)
    requires 0.0 < g.e
    ensures (forall t, u :: Guarded(g, t, u) ==> (TriTriOverlap(t, u) <==> SharedPoint(t, u))) <==> g.first && g.second && 0.000001 <= g.e
  {
    hide TriTriOverlap, SharedPoint, Clear, NonDegenerate;
    if g.first && g.second && LOCAL_EPSILON <= g.e {
      forall t, u | Guarded(g, t, u) ensures TriTriOverlap(t, u) <==> SharedPoint(t, u) {
        ClearBelow(LOCAL_EPSILON, g.e, t, u);
        TriTriOverlapIff(t, u);
      }
    } else if g.e < LOCAL_EPSILON {
      assert Product(1.0, 1.0) == 1.0 && Product(1.0, g.e) == g.e;
      NearbyAccepted(1.0, g.e);
      assert Guarded(g, LevelTriangle(1.0, 0.0), LevelTriangle(1.0, g.e));
    } else if !g.first {
      NeedleAccepted(g.e);
      ClearBelow(g.e, 2.0 * g.e, Needle(g.e), BESIDE);
      assert Guarded(g, Needle(g.e), BESIDE);
    } else {
      SpikeAccepted(g.e);
      ClearBelow(g.e, 4.0 * g.e, FLOOR, Spike(g.e));
      assert Guarded(g, FLOOR, Spike(g.e));
    }
  }
}
