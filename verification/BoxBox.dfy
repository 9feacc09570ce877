/** Oriented box tests (OPC_BoxBoxOverlap.h): the 15-axis test of the tree collider, its
    precomputed twin in the OBB collider, and the axis-aligned special case. */
module BoxBox {
  import opened Geometry
  import opened Reals
  import opened RayBox
  import opened TriBox

  /** Row-major 3x3 matrix: m[i][j] of the source is component j of row i. */
  datatype Matrix3x3 = Matrix3x3(r0: Point, r1: Point, r2: Point)

  /** Rotation: two orthogonal unit rows and the third completing a right-handed basis. */
  predicate IsRotation(m: Matrix3x3) {
    Dot(m.r0, m.r0) == 1.0 && Dot(m.r1, m.r1) == 1.0 && Dot(m.r0, m.r1) == 0.0 && Cross(m.r0, m.r1) == m.r2
  }

  /** Row vector times matrix. */
  function Rotate(p: Point, m: Matrix3x3): Point {
    Add(Scale(p.x, m.r0), Add(Scale(p.y, m.r1), Scale(p.z, m.r2)))
  }

  function TransformPoint(source: Point, rot: Matrix3x3, trans: Point): Point {
    Add(trans, Rotate(source, rot))
  }

  /** The epsilon-enlarged absolute matrix, one entry. */
  function Fat(r: real): real {
    0.000001 + Abs(r)
  }

  function Spread(e: Point, a: real, b: real, c: real): real {
    e.x * Fat(a) + e.y * Fat(b) + e.z * Fat(c)
  }

  function Pair(e: real, r: real, e': real, r': real): real {
    e * Fat(r) + e' * Fat(r')
  }

  function Minor(a: real, b: real, c: real, d: real): real {
    a * b - c * d
  }

  /** A face axis does not separate: own half-width plus the other box's spread. */
  predicate FaceClear(t: real, own: real, other: Point, a: real, b: real, c: real) {
    !Greater(t, own + Spread(other, a, b, c))
  }

  /** An edge-edge axis does not separate: the two boxes' half-widths on it. */
  predicate CrossClear(t: real, reachA: real, reachB: real) {
    !Greater(t, reachA + reachB)
  }

  /** Class I: A's basis vectors. */
  predicate AxesOfA(m: Matrix3x3, d: Point, ea: Point, eb: Point) {
    && FaceClear(d.x, ea.x, eb, m.r0.x, m.r1.x, m.r2.x)
    && FaceClear(d.y, ea.y, eb, m.r0.y, m.r1.y, m.r2.y)
    && FaceClear(d.z, ea.z, eb, m.r0.z, m.r1.z, m.r2.z)
  }

  /** Class II: B's basis vectors. */
  predicate AxesOfB(m: Matrix3x3, d: Point, ea: Point, eb: Point) {
    && FaceClear(Dot(d, m.r0), eb.x, ea, m.r0.x, m.r0.y, m.r0.z)
    && FaceClear(Dot(d, m.r1), eb.y, ea, m.r1.x, m.r1.y, m.r1.z)
    && FaceClear(Dot(d, m.r2), eb.z, ea, m.r2.x, m.r2.y, m.r2.z)
  }

  /** Class III, three rows of three cross products: A0, A1 and A2 against B's basis. */
  predicate CrossAxes0(m: Matrix3x3, d: Point, ea: Point, eb: Point) {
    && CrossClear(Minor(d.z, m.r0.y, d.y, m.r0.z), Pair(ea.y, m.r0.z, ea.z, m.r0.y), Pair(eb.y, m.r2.x, eb.z, m.r1.x))
    && CrossClear(Minor(d.z, m.r1.y, d.y, m.r1.z), Pair(ea.y, m.r1.z, ea.z, m.r1.y), Pair(eb.x, m.r2.x, eb.z, m.r0.x))
    && CrossClear(Minor(d.z, m.r2.y, d.y, m.r2.z), Pair(ea.y, m.r2.z, ea.z, m.r2.y), Pair(eb.x, m.r1.x, eb.y, m.r0.x))
  }

  predicate CrossAxes1(m: Matrix3x3, d: Point, ea: Point, eb: Point) {
    && CrossClear(Minor(d.x, m.r0.z, d.z, m.r0.x), Pair(ea.x, m.r0.z, ea.z, m.r0.x), Pair(eb.y, m.r2.y, eb.z, m.r1.y))
    && CrossClear(Minor(d.x, m.r1.z, d.z, m.r1.x), Pair(ea.x, m.r1.z, ea.z, m.r1.x), Pair(eb.x, m.r2.y, eb.z, m.r0.y))
    && CrossClear(Minor(d.x, m.r2.z, d.z, m.r2.x), Pair(ea.x, m.r2.z, ea.z, m.r2.x), Pair(eb.x, m.r1.y, eb.y, m.r0.y))
  }

  predicate CrossAxes2(m: Matrix3x3, d: Point, ea: Point, eb: Point) {
    && CrossClear(Minor(d.y, m.r0.x, d.x, m.r0.y), Pair(ea.x, m.r0.y, ea.y, m.r0.x), Pair(eb.y, m.r2.z, eb.z, m.r1.z))
    && CrossClear(Minor(d.y, m.r1.x, d.x, m.r1.y), Pair(ea.x, m.r1.y, ea.y, m.r1.x), Pair(eb.x, m.r2.z, eb.z, m.r0.z))
    && CrossClear(Minor(d.y, m.r2.x, d.x, m.r2.y), Pair(ea.x, m.r2.y, ea.y, m.r2.x), Pair(eb.x, m.r1.z, eb.y, m.r0.z))
  }

  /** Tree collider version: box `a` in space 0, box `b` in space 1, `rot`/`trans` mapping
      space 1 to space 0; `full` stands for mFullBoxBoxTest or the first test of a query. */
  predicate BoxBoxOverlap(rot: Matrix3x3, trans: Point, a: CollisionAABB, b: CollisionAABB, full: bool) {
    var d := Sub(Add(Rotate(b.mCenter, rot), trans), a.mCenter);
    && AxesOfA(rot, d, a.mExtents, b.mExtents)
    && AxesOfB(rot, d, a.mExtents, b.mExtents)
    && (full ==> CrossAxes0(rot, d, a.mExtents, b.mExtents) && CrossAxes1(rot, d, a.mExtents, b.mExtents) &&
                 CrossAxes2(rot, d, a.mExtents, b.mExtents))
  }

  // ------------------------------------------------------ rejection soundness

  predicate Within(d: Point, e: Point) {
    Abs(d.x) <= e.x && Abs(d.y) <= e.y && Abs(d.z) <= e.z
  }

  lemma FatBound(e: real, r: real)
    ensures e * Fat(r) == Abs(r) * e + 0.000001 * e
  {}

  /** An axis seen in B's basis. */
  function InB(l: Point, m: Matrix3x3): Point {
    Point(Dot(l, m.r0), Dot(l, m.r1), Dot(l, m.r2))
  }

  lemma DotSub(l: Point, p: Point, q: Point)
    ensures Dot(l, Sub(p, q)) == Dot(l, p) - Dot(l, q)
  {}

  lemma DotRotate(l: Point, q: Point, m: Matrix3x3)
    ensures Dot(l, Rotate(q, m)) == Dot(InB(l, m), q)
  {
    var a, b, c := Scale(q.x, m.r0), Scale(q.y, m.r1), Scale(q.z, m.r2);
    assert Rotate(q, m) == Add(a, Add(b, c));
    assert Dot(InB(l, m), q) == Dot(l, m.r0) * q.x + Dot(l, m.r1) * q.y + Dot(l, m.r2) * q.z by { hide Rotate, Scale, Add; }
    hide Rotate, Dot, InB;
    DotAdd(l, a, Add(b, c));
    DotAdd(l, b, c);
    DotScale(l, q.x, m.r0);
    DotScale(l, q.y, m.r1);
    DotScale(l, q.z, m.r2);
    hide Scale, Add;
  }

  lemma DotDifference(l: Point, al: Point, be: Point, m: Matrix3x3)
    ensures Dot(l, Sub(al, Rotate(be, m))) == Dot(l, al) - Dot(InB(l, m), be)
  {
    hide Dot, Rotate, InB;
    DotSub(l, al, Rotate(be, m));
    DotRotate(l, be, m);
  }

  /** The vector between the centers of two boxes sharing a point, projected on any axis,
      is within the sum of the projected half-widths; `al` and `be` are the offsets of that
      point from the two centers. */
  lemma AxisBound(l: Point, m: Matrix3x3, al: Point, be: Point, ea: Point, eb: Point)
    requires Within(al, ea) && Within(be, eb)
    ensures Abs(Dot(l, Sub(al, Rotate(be, m)))) <= Radius(l, ea) + Radius(InB(l, m), eb)
  {
    hide Dot, Radius, Rotate, Sub, InB;
    DotDifference(l, al, be, m);
    DotWithinRadius(l, al, ea);
    DotWithinRadius(InB(l, m), be, eb);
  }

  /** The axis does not separate the boxes, whose centers are `d` apart, with `slack`
      millionths more room. */
  predicate Clears(l: Point, d: Point, m: Matrix3x3, ea: Point, eb: Point, slack: real) {
    Abs(Dot(l, d)) <= Radius(l, ea) + Radius(InB(l, m), eb) + 0.000001 * slack
  }

  function Sum(e: Point): real { e.x + e.y + e.z }

  lemma RadiusSpread(p: Point, e: Point)
    ensures Spread(e, p.x, p.y, p.z) == Radius(p, e) + 0.000001 * Sum(e)
  {
    hide Abs, Fat;
    FatBound(e.x, p.x);
    FatBound(e.y, p.y);
    FatBound(e.z, p.z);
  }

  lemma RadiusNonNegative(p: Point, e: Point)
    requires NonNegative(e)
    ensures 0.0 <= Radius(p, e)
  {
    ProductNonNegative(Abs(p.x), e.x);
    ProductNonNegative(Abs(p.y), e.y);
    ProductNonNegative(Abs(p.z), e.z);
  }

  lemma NotGreater(t: real, r: real)
    requires 0.0 <= r
    ensures !Greater(t, r) <==> Abs(t) <= r
  {}

  lemma FaceAxisOfA(l: Point, m: Matrix3x3, d: Point, ea: Point, eb: Point, own: real)
    requires NonNegative(ea) && NonNegative(eb) && Radius(l, ea) == own
    ensures FaceClear(Dot(l, d), own, eb, Dot(l, m.r0), Dot(l, m.r1), Dot(l, m.r2)) <==> Clears(l, d, m, ea, eb, Sum(eb))
  {
    assert 0.0 <= Sum(eb);
    hide Dot, Radius, Spread, Sum, Greater, NonNegative, Abs;
    RadiusSpread(InB(l, m), eb);
    RadiusNonNegative(l, ea);
    RadiusNonNegative(InB(l, m), eb);
    NotGreater(Dot(l, d), own + Spread(eb, Dot(l, m.r0), Dot(l, m.r1), Dot(l, m.r2)));
  }

  lemma FaceAxisOfB(l: Point, m: Matrix3x3, d: Point, ea: Point, eb: Point, own: real)
    requires NonNegative(ea) && NonNegative(eb) && Radius(InB(l, m), eb) == own
    ensures FaceClear(Dot(l, d), own, ea, l.x, l.y, l.z) <==> Clears(l, d, m, ea, eb, Sum(ea))
  {
    assert 0.0 <= Sum(ea);
    hide Dot, Radius, Spread, InB, Sum, Greater, NonNegative, Abs;
    RadiusSpread(l, ea);
    RadiusNonNegative(l, ea);
    RadiusNonNegative(InB(l, m), eb);
    NotGreater(Dot(l, d), own + Spread(ea, l.x, l.y, l.z));
  }

  lemma CrossAxisIff(l: Point, m: Matrix3x3, d: Point, ea: Point, eb: Point, reachA: real, reachB: real, slackA: real, slackB: real)
    requires NonNegative(ea) && NonNegative(eb) && 0.0 <= slackA && 0.0 <= slackB
    requires reachA == Radius(l, ea) + 0.000001 * slackA && reachB == Radius(InB(l, m), eb) + 0.000001 * slackB
    ensures CrossClear(Dot(l, d), reachA, reachB) <==> Clears(l, d, m, ea, eb, slackA + slackB)
  {
    hide Dot, Radius, InB, Greater, NonNegative, Abs;
    RadiusNonNegative(l, ea);
    RadiusNonNegative(InB(l, m), eb);
    NotGreater(Dot(l, d), reachA + reachB);
  }

  lemma AxesOfAIff(m: Matrix3x3, d: Point, ea: Point, eb: Point)
    requires NonNegative(ea) && NonNegative(eb)
    ensures AxesOfA(m, d, ea, eb) <==>
      Clears(UNIT_X, d, m, ea, eb, Sum(eb)) && Clears(UNIT_Y, d, m, ea, eb, Sum(eb)) && Clears(UNIT_Z, d, m, ea, eb, Sum(eb))
  {
    hide Dot, Radius, FaceClear, Clears, Sum, NonNegative;
    UnitProjections(d, ea);
    UnitProjections(m.r0, ea);
    UnitProjections(m.r1, ea);
    UnitProjections(m.r2, ea);
    FaceAxisOfA(UNIT_X, m, d, ea, eb, ea.x);
    FaceAxisOfA(UNIT_Y, m, d, ea, eb, ea.y);
    FaceAxisOfA(UNIT_Z, m, d, ea, eb, ea.z);
  }

  lemma DoubleCrossX(a: Point, b: Point, c: Point)
    ensures Cross(a, Cross(b, c)).x == Dot(a, c) * b.x - Dot(a, b) * c.x
  {}

  lemma DoubleCrossY(a: Point, b: Point, c: Point)
    ensures Cross(a, Cross(b, c)).y == Dot(a, c) * b.y - Dot(a, b) * c.y
  {}

  lemma DoubleCrossZ(a: Point, b: Point, c: Point)
    ensures Cross(a, Cross(b, c)).z == Dot(a, c) * b.z - Dot(a, b) * c.z
  {}

  lemma DoubleCross(a: Point, b: Point, c: Point)
    ensures Cross(a, Cross(b, c)) == Sub(Scale(Dot(a, c), b), Scale(Dot(a, b), c))
  {
    hide Cross, Dot;
    DoubleCrossX(a, b, c);
    DoubleCrossY(a, b, c);
    DoubleCrossZ(a, b, c);
  }

  lemma CrossLengths(a: Point, b: Point)
    ensures Dot(a, Cross(a, b)) == 0.0 && Dot(b, Cross(a, b)) == 0.0
    ensures Dot(Cross(a, b), Cross(a, b)) == Dot(a, a) * Dot(b, b) - Dot(a, b) * Dot(a, b)
    ensures Cross(b, a) == Scale(-1.0, Cross(a, b))
  {}

  lemma ScaleUnits(p: Point, q: Point)
    ensures Sub(Scale(1.0, p), Scale(0.0, q)) == p && Scale(-1.0, Sub(Scale(0.0, q), Scale(1.0, p))) == p
  {}

  /** The rows of a rotation are orthonormal and cyclically each other's cross product. */
  lemma RotationBasis(m: Matrix3x3)
    requires IsRotation(m)
    ensures Dot(m.r2, m.r2) == 1.0 && Dot(m.r1, m.r2) == 0.0 && Dot(m.r2, m.r0) == 0.0
    ensures Cross(m.r1, m.r2) == m.r0 && Cross(m.r2, m.r0) == m.r1
  {
    hide Dot, Cross, Scale, Sub;
    CrossLengths(m.r0, m.r1);
    DotSymmetric(m.r2, m.r0);
    DotSymmetric(m.r0, m.r1);
    DoubleCross(m.r1, m.r0, m.r1);
    DoubleCross(m.r0, m.r0, m.r1);
    CrossLengths(m.r0, m.r2);
    ScaleUnits(m.r0, m.r1);
    ScaleUnits(m.r1, m.r0);
  }

  lemma RowsInB(m: Matrix3x3, e: Point)
    requires IsRotation(m)
    ensures Radius(InB(m.r0, m), e) == e.x && Radius(InB(m.r1, m), e) == e.y && Radius(InB(m.r2, m), e) == e.z
  {
    RotationBasis(m);
    DotSymmetric(m.r0, m.r1);
    DotSymmetric(m.r1, m.r2);
    DotSymmetric(m.r2, m.r0);
    hide Dot, Cross;
  }

  lemma AxesOfBIff(m: Matrix3x3, d: Point, ea: Point, eb: Point)
    requires IsRotation(m) && NonNegative(ea) && NonNegative(eb)
    ensures AxesOfB(m, d, ea, eb) <==>
      Clears(m.r0, d, m, ea, eb, Sum(ea)) && Clears(m.r1, d, m, ea, eb, Sum(ea)) && Clears(m.r2, d, m, ea, eb, Sum(ea))
  {
    RowsInB(m, eb);
    hide Dot, Radius, FaceClear, IsRotation, InB, Clears, Sum, NonNegative;
    DotSymmetric(d, m.r0);
    DotSymmetric(d, m.r1);
    DotSymmetric(d, m.r2);
    FaceAxisOfB(m.r0, m, d, ea, eb, eb.x);
    FaceAxisOfB(m.r1, m, d, ea, eb, eb.y);
    FaceAxisOfB(m.r2, m, d, ea, eb, eb.z);
  }

  // The cross product of a unit axis of A and a row of B, as an axis.
  lemma CrossWithUnit0(r: Point, d: Point, e: Point)
    ensures Dot(Cross(UNIT_X, r), d) == Minor(d.z, r.y, d.y, r.z)
    ensures Pair(e.y, r.z, e.z, r.y) == Radius(Cross(UNIT_X, r), e) + 0.000001 * (e.y + e.z)
  {
    FatBound(e.y, r.z);
    FatBound(e.z, r.y);
    assert Cross(UNIT_X, r) == Point(0.0, -r.z, r.y);
    hide Fat;
  }

  lemma CrossWithUnit1(r: Point, d: Point, e: Point)
    ensures Dot(Cross(UNIT_Y, r), d) == Minor(d.x, r.z, d.z, r.x)
    ensures Pair(e.x, r.z, e.z, r.x) == Radius(Cross(UNIT_Y, r), e) + 0.000001 * (e.x + e.z)
  {
    FatBound(e.x, r.z);
    FatBound(e.z, r.x);
    assert Cross(UNIT_Y, r) == Point(r.z, 0.0, -r.x);
    hide Fat;
  }

  lemma CrossWithUnit2(r: Point, d: Point, e: Point)
    ensures Dot(Cross(UNIT_Z, r), d) == Minor(d.y, r.x, d.x, r.y)
    ensures Pair(e.x, r.y, e.y, r.x) == Radius(Cross(UNIT_Z, r), e) + 0.000001 * (e.x + e.y)
  {
    FatBound(e.x, r.y);
    FatBound(e.y, r.x);
    assert Cross(UNIT_Z, r) == Point(-r.y, r.x, 0.0);
    hide Fat;
  }

  lemma TripleWithRows(k: Point, r: Point, s: Point)
    ensures Dot(Cross(k, r), s) == Dot(k, Cross(r, s)) == -Dot(k, Cross(s, r))
    ensures Dot(Cross(k, r), r) == 0.0
  {}

  // An axis of B's basis with one zero entry, against the fat pair.
  lemma RadiusYZ(p: Point, y: real, z: real, e: Point)
    requires p.x == 0.0 && Abs(p.y) == Abs(y) && Abs(p.z) == Abs(z)
    ensures Pair(e.y, y, e.z, z) == Radius(p, e) + 0.000001 * (e.y + e.z)
  {
    hide Abs, Fat;
    assert Abs(p.x) == 0.0 by { ZeroAbs(); }
    FatBound(e.y, y);
    FatBound(e.z, z);
  }

  lemma RadiusXZ(p: Point, x: real, z: real, e: Point)
    requires p.y == 0.0 && Abs(p.x) == Abs(x) && Abs(p.z) == Abs(z)
    ensures Pair(e.x, x, e.z, z) == Radius(p, e) + 0.000001 * (e.x + e.z)
  {
    hide Abs, Fat;
    assert Abs(p.y) == 0.0 by { ZeroAbs(); }
    FatBound(e.x, x);
    FatBound(e.z, z);
  }

  lemma RadiusXY(p: Point, x: real, y: real, e: Point)
    requires p.z == 0.0 && Abs(p.x) == Abs(x) && Abs(p.y) == Abs(y)
    ensures Pair(e.x, x, e.y, y) == Radius(p, e) + 0.000001 * (e.x + e.y)
  {
    hide Abs, Fat;
    assert Abs(p.z) == 0.0 by { ZeroAbs(); }
    FatBound(e.x, x);
    FatBound(e.y, y);
  }

  lemma ZeroAbs()
    ensures Abs(0.0) == 0.0
  {}

  /** In B's basis the axis k x row_i has a zero i-th entry and, up to sign, the other two
      rows' projections on k swapped. */
  lemma CrossInB(k: Point, m: Matrix3x3, e: Point)
    requires IsRotation(m)
    ensures Pair(e.y, Dot(k, m.r2), e.z, Dot(k, m.r1)) == Radius(InB(Cross(k, m.r0), m), e) + 0.000001 * (e.y + e.z)
    ensures Pair(e.x, Dot(k, m.r2), e.z, Dot(k, m.r0)) == Radius(InB(Cross(k, m.r1), m), e) + 0.000001 * (e.x + e.z)
    ensures Pair(e.x, Dot(k, m.r1), e.y, Dot(k, m.r0)) == Radius(InB(Cross(k, m.r2), m), e) + 0.000001 * (e.x + e.y)
  {
    hide Dot, Cross, Radius, Pair;
    RotationBasis(m);
    TripleWithRows(k, m.r0, m.r1);
    TripleWithRows(k, m.r0, m.r2);
    TripleWithRows(k, m.r1, m.r0);
    TripleWithRows(k, m.r1, m.r2);
    TripleWithRows(k, m.r2, m.r0);
    TripleWithRows(k, m.r2, m.r1);
    RadiusYZ(InB(Cross(k, m.r0), m), Dot(k, m.r2), Dot(k, m.r1), e);
    RadiusXZ(InB(Cross(k, m.r1), m), Dot(k, m.r2), Dot(k, m.r0), e);
    RadiusXY(InB(Cross(k, m.r2), m), Dot(k, m.r1), Dot(k, m.r0), e);
  }

  lemma CrossAxes0Iff(m: Matrix3x3, d: Point, ea: Point, eb: Point)
    requires IsRotation(m) && NonNegative(ea) && NonNegative(eb)
    ensures CrossAxes0(m, d, ea, eb) <==> (
      && Clears(Cross(UNIT_X, m.r0), d, m, ea, eb, ea.y + ea.z + (eb.y + eb.z))
      && Clears(Cross(UNIT_X, m.r1), d, m, ea, eb, ea.y + ea.z + (eb.x + eb.z))
      && Clears(Cross(UNIT_X, m.r2), d, m, ea, eb, ea.y + ea.z + (eb.x + eb.y)))
  {
    hide Dot, Radius, Fat, Cross, Pair, Minor, CrossClear, IsRotation, Clears;
    CrossInB(UNIT_X, m, eb);
    UnitProjections(m.r0, ea);
    UnitProjections(m.r1, ea);
    UnitProjections(m.r2, ea);
    CrossWithUnit0(m.r0, d, ea);
    CrossAxisIff(Cross(UNIT_X, m.r0), m, d, ea, eb, Pair(ea.y, m.r0.z, ea.z, m.r0.y), Pair(eb.y, m.r2.x, eb.z, m.r1.x), ea.y + ea.z, eb.y + eb.z);
    CrossWithUnit0(m.r1, d, ea);
    CrossAxisIff(Cross(UNIT_X, m.r1), m, d, ea, eb, Pair(ea.y, m.r1.z, ea.z, m.r1.y), Pair(eb.x, m.r2.x, eb.z, m.r0.x), ea.y + ea.z, eb.x + eb.z);
    CrossWithUnit0(m.r2, d, ea);
    CrossAxisIff(Cross(UNIT_X, m.r2), m, d, ea, eb, Pair(ea.y, m.r2.z, ea.z, m.r2.y), Pair(eb.x, m.r1.x, eb.y, m.r0.x), ea.y + ea.z, eb.x + eb.y);
  }

  lemma CrossAxes1Iff(m: Matrix3x3, d: Point, ea: Point, eb: Point)
    requires IsRotation(m) && NonNegative(ea) && NonNegative(eb)
    ensures CrossAxes1(m, d, ea, eb) <==> (
      && Clears(Cross(UNIT_Y, m.r0), d, m, ea, eb, ea.x + ea.z + (eb.y + eb.z))
      && Clears(Cross(UNIT_Y, m.r1), d, m, ea, eb, ea.x + ea.z + (eb.x + eb.z))
      && Clears(Cross(UNIT_Y, m.r2), d, m, ea, eb, ea.x + ea.z + (eb.x + eb.y)))
  {
    hide Dot, Radius, Fat, Cross, Pair, Minor, CrossClear, IsRotation, Clears;
    CrossInB(UNIT_Y, m, eb);
    UnitProjections(m.r0, ea);
    UnitProjections(m.r1, ea);
    UnitProjections(m.r2, ea);
    CrossWithUnit1(m.r0, d, ea);
    CrossAxisIff(Cross(UNIT_Y, m.r0), m, d, ea, eb, Pair(ea.x, m.r0.z, ea.z, m.r0.x), Pair(eb.y, m.r2.y, eb.z, m.r1.y), ea.x + ea.z, eb.y + eb.z);
    CrossWithUnit1(m.r1, d, ea);
    CrossAxisIff(Cross(UNIT_Y, m.r1), m, d, ea, eb, Pair(ea.x, m.r1.z, ea.z, m.r1.x), Pair(eb.x, m.r2.y, eb.z, m.r0.y), ea.x + ea.z, eb.x + eb.z);
    CrossWithUnit1(m.r2, d, ea);
    CrossAxisIff(Cross(UNIT_Y, m.r2), m, d, ea, eb, Pair(ea.x, m.r2.z, ea.z, m.r2.x), Pair(eb.x, m.r1.y, eb.y, m.r0.y), ea.x + ea.z, eb.x + eb.y);
  }

  lemma CrossAxes2Iff(m: Matrix3x3, d: Point, ea: Point, eb: Point)
    requires IsRotation(m) && NonNegative(ea) && NonNegative(eb)
    ensures CrossAxes2(m, d, ea, eb) <==> (
      && Clears(Cross(UNIT_Z, m.r0), d, m, ea, eb, ea.x + ea.y + (eb.y + eb.z))
      && Clears(Cross(UNIT_Z, m.r1), d, m, ea, eb, ea.x + ea.y + (eb.x + eb.z))
      && Clears(Cross(UNIT_Z, m.r2), d, m, ea, eb, ea.x + ea.y + (eb.x + eb.y)))
  {
    hide Dot, Radius, Fat, Cross, Pair, Minor, CrossClear, IsRotation, Clears;
    CrossInB(UNIT_Z, m, eb);
    UnitProjections(m.r0, ea);
    UnitProjections(m.r1, ea);
    UnitProjections(m.r2, ea);
    CrossWithUnit2(m.r0, d, ea);
    CrossAxisIff(Cross(UNIT_Z, m.r0), m, d, ea, eb, Pair(ea.x, m.r0.y, ea.y, m.r0.x), Pair(eb.y, m.r2.z, eb.z, m.r1.z), ea.x + ea.y, eb.y + eb.z);
    CrossWithUnit2(m.r1, d, ea);
    CrossAxisIff(Cross(UNIT_Z, m.r1), m, d, ea, eb, Pair(ea.x, m.r1.y, ea.y, m.r1.x), Pair(eb.x, m.r2.z, eb.z, m.r0.z), ea.x + ea.y, eb.x + eb.z);
    CrossWithUnit2(m.r2, d, ea);
    CrossAxisIff(Cross(UNIT_Z, m.r2), m, d, ea, eb, Pair(ea.x, m.r2.y, ea.y, m.r2.x), Pair(eb.x, m.r1.z, eb.y, m.r0.z), ea.x + ea.y, eb.x + eb.y);
  }

  function Unit(i: nat): Point { if i == 0 then UNIT_X else if i == 1 then UNIT_Y else UNIT_Z }

  function Row(m: Matrix3x3, j: nat): Point { if j == 0 then m.r0 else if j == 1 then m.r1 else m.r2 }

  /** Room left by the epsilon on the axis of two edges: the extents across each. */
  function CrossSlack(ea: Point, eb: Point, i: nat, j: nat): real {
    Sum(ea) - Coord(ea, i) + (Sum(eb) - Coord(eb, j))
  }

  ghost predicate ClearOfFaces(m: Matrix3x3, d: Point, ea: Point, eb: Point) {
    forall i: nat :: i < 3 ==> Clears(Unit(i), d, m, ea, eb, Sum(eb)) && Clears(Row(m, i), d, m, ea, eb, Sum(ea))
  }

  ghost predicate ClearOfEdges(m: Matrix3x3, d: Point, ea: Point, eb: Point) {
    forall i: nat, j: nat :: i < 3 && j < 3 ==> Clears(Cross(Unit(i), Row(m, j)), d, m, ea, eb, CrossSlack(ea, eb, i, j))
  }

  lemma FacesIff(m: Matrix3x3, d: Point, ea: Point, eb: Point)
    requires IsRotation(m) && NonNegative(ea) && NonNegative(eb)
    ensures AxesOfA(m, d, ea, eb) && AxesOfB(m, d, ea, eb) <==> ClearOfFaces(m, d, ea, eb)
  {
    AxesOfAIff(m, d, ea, eb);
    AxesOfBIff(m, d, ea, eb);
    assert Unit(0) == UNIT_X && Unit(1) == UNIT_Y && Unit(2) == UNIT_Z && Row(m, 0) == m.r0 && Row(m, 1) == m.r1 && Row(m, 2) == m.r2;
    hide IsRotation, Clears, Sum, AxesOfA, AxesOfB, NonNegative, Unit, Row;
  }

  lemma EdgesIff(m: Matrix3x3, d: Point, ea: Point, eb: Point)
    requires IsRotation(m) && NonNegative(ea) && NonNegative(eb)
    ensures CrossAxes0(m, d, ea, eb) && CrossAxes1(m, d, ea, eb) && CrossAxes2(m, d, ea, eb) <==> ClearOfEdges(m, d, ea, eb)
  {
    CrossAxes0Iff(m, d, ea, eb);
    CrossAxes1Iff(m, d, ea, eb);
    CrossAxes2Iff(m, d, ea, eb);
    assert Unit(0) == UNIT_X && Unit(1) == UNIT_Y && Unit(2) == UNIT_Z && Row(m, 0) == m.r0 && Row(m, 1) == m.r1 && Row(m, 2) == m.r2;
    Slacks(ea, eb);
    hide IsRotation, Clears, CrossAxes0, CrossAxes1, CrossAxes2, NonNegative, Unit, Row, CrossSlack, Cross;
  }

  lemma Slacks(ea: Point, eb: Point)
    ensures CrossSlack(ea, eb, 0, 0) == ea.y + ea.z + (eb.y + eb.z) && CrossSlack(ea, eb, 0, 1) == ea.y + ea.z + (eb.x + eb.z)
    ensures CrossSlack(ea, eb, 0, 2) == ea.y + ea.z + (eb.x + eb.y) && CrossSlack(ea, eb, 1, 0) == ea.x + ea.z + (eb.y + eb.z)
    ensures CrossSlack(ea, eb, 1, 1) == ea.x + ea.z + (eb.x + eb.z) && CrossSlack(ea, eb, 1, 2) == ea.x + ea.z + (eb.x + eb.y)
    ensures CrossSlack(ea, eb, 2, 0) == ea.x + ea.y + (eb.y + eb.z) && CrossSlack(ea, eb, 2, 1) == ea.x + ea.y + (eb.x + eb.z)
    ensures CrossSlack(ea, eb, 2, 2) == ea.x + ea.y + (eb.x + eb.y)
  {}

  /** The test rejects exactly when an axis separates the boxes: one of the six face normals,
      or in the full test one of the nine cross products of edges, each with the epsilon's
      room for the other box's extents. */
  lemma OverlapIff(rot: Matrix3x3, trans: Point, a: CollisionAABB, b: CollisionAABB, full: bool)
    requires IsRotation(rot) && NonNegative(a.mExtents) && NonNegative(b.mExtents)
    ensures var d := Sub(TransformPoint(b.mCenter, rot, trans), a.mCenter);
      BoxBoxOverlap(rot, trans, a, b, full) <==>
        ClearOfFaces(rot, d, a.mExtents, b.mExtents) && (full ==> ClearOfEdges(rot, d, a.mExtents, b.mExtents))
  {
    var d := Sub(TransformPoint(b.mCenter, rot, trans), a.mCenter);
    assert Add(Rotate(b.mCenter, rot), trans) == TransformPoint(b.mCenter, rot, trans);
    FacesIff(rot, d, a.mExtents, b.mExtents);
    EdgesIff(rot, d, a.mExtents, b.mExtents);
    hide IsRotation, NonNegative, ClearOfFaces, ClearOfEdges, AxesOfA, AxesOfB, CrossAxes0, CrossAxes1, CrossAxes2, Rotate;
  }

  lemma RotateDifference(q: Point, c: Point, m: Matrix3x3)
    ensures Rotate(Sub(q, c), m) == Sub(Rotate(q, m), Rotate(c, m))
  {}

  lemma CenterOffset(t: Point, rq: Point, rc: Point, ca: Point, p: Point)
    requires p == Add(t, rq)
    ensures Sub(Add(rc, t), ca) == Sub(Sub(p, ca), Sub(rq, rc))
  {}

  /** FALSE is a proof of disjointness: boxes sharing a point are never rejected, with or
      without the class III axes. */
  lemma BoxesSharingPointOverlap(rot: Matrix3x3, trans: Point, a: CollisionAABB, b: CollisionAABB, full: bool, p: Point, q: Point)
    requires IsRotation(rot) && NonNegative(a.mExtents) && NonNegative(b.mExtents)
    requires BoxHas(a, p) && BoxHas(b, q) && p == TransformPoint(q, rot, trans)
    ensures BoxBoxOverlap(rot, trans, a, b, full)
  {
    var ea, eb := a.mExtents, b.mExtents;
    var al, be := Sub(p, a.mCenter), Sub(q, b.mCenter);
    assert Within(al, ea) && Within(be, eb);
    RotateDifference(q, b.mCenter, rot);
    CenterOffset(trans, Rotate(q, rot), Rotate(b.mCenter, rot), a.mCenter, p);
    var d := Sub(al, Rotate(be, rot));
    assert d == Sub(TransformPoint(b.mCenter, rot, trans), a.mCenter);
    OverlapIff(rot, trans, a, b, full);
    hide Rotate, Sub, Add, IsRotation, Within, BoxHas, Clears, Cross, CrossSlack, BoxBoxOverlap;
    forall l, slack | 0.0 <= slack ensures Clears(l, d, rot, ea, eb, slack) { AxisClears(l, rot, al, be, ea, eb, slack); }
    forall i: nat, j: nat | i < 3 && j < 3 ensures 0.0 <= CrossSlack(ea, eb, i, j) { SlackNonNegative(ea, eb, i, j); }
  }

  lemma SlackNonNegative(ea: Point, eb: Point, i: nat, j: nat)
    requires NonNegative(ea) && NonNegative(eb)
    ensures 0.0 <= CrossSlack(ea, eb, i, j)
  {}

  lemma AxisClears(l: Point, m: Matrix3x3, al: Point, be: Point, ea: Point, eb: Point, slack: real)
    requires Within(al, ea) && Within(be, eb) && 0.0 <= slack
    ensures Clears(l, Sub(al, Rotate(be, m)), m, ea, eb, slack)
  {
    hide Dot, Radius, Rotate, Sub, InB, Within;
    AxisBound(l, m, al, be, ea, eb);
  }

  // ------------------------------------------------- the precomputed OBB version

  /** What OBBCollider::InitQuery precomputes from the box extents. */
  datatype BoxData = BoxData(bbx1: real, bby1: real, bbz1: real,
                             bb1: real, bb2: real, bb3: real, bb4: real, bb5: real,
                             bb6: real, bb7: real, bb8: real, bb9: real)

  function Precompute(m: Matrix3x3, box: Point): BoxData {
    BoxData(
      Spread(box, m.r0.x, m.r1.x, m.r2.x),
      Spread(box, m.r0.y, m.r1.y, m.r2.y),
      Spread(box, m.r0.z, m.r1.z, m.r2.z),
      Pair(box.y, m.r2.x, box.z, m.r1.x),
      Pair(box.x, m.r2.x, box.z, m.r0.x),
      Pair(box.x, m.r1.x, box.y, m.r0.x),
      Pair(box.y, m.r2.y, box.z, m.r1.y),
      Pair(box.x, m.r2.y, box.z, m.r0.y),
      Pair(box.x, m.r1.y, box.y, m.r0.y),
      Pair(box.y, m.r2.z, box.z, m.r1.z),
      Pair(box.x, m.r2.z, box.z, m.r0.z),
      Pair(box.x, m.r1.z, box.y, m.r0.z))
  }

  predicate PrecomputedOverlap(w: BoxData, m: Matrix3x3, trans: Point, box: Point, a: CollisionAABB, full: bool) {
    var d, e := Sub(trans, a.mCenter), a.mExtents;
    && !Greater(d.x, e.x + w.bbx1)
    && !Greater(d.y, e.y + w.bby1)
    && !Greater(d.z, e.z + w.bbz1)
    && AxesOfB(m, d, e, box)
    && (full ==>
      && CrossClear(Minor(d.z, m.r0.y, d.y, m.r0.z), Pair(e.y, m.r0.z, e.z, m.r0.y), w.bb1)
      && CrossClear(Minor(d.z, m.r1.y, d.y, m.r1.z), Pair(e.y, m.r1.z, e.z, m.r1.y), w.bb2)
      && CrossClear(Minor(d.z, m.r2.y, d.y, m.r2.z), Pair(e.y, m.r2.z, e.z, m.r2.y), w.bb3)
      && CrossClear(Minor(d.x, m.r0.z, d.z, m.r0.x), Pair(e.x, m.r0.z, e.z, m.r0.x), w.bb4)
      && CrossClear(Minor(d.x, m.r1.z, d.z, m.r1.x), Pair(e.x, m.r1.z, e.z, m.r1.x), w.bb5)
      && CrossClear(Minor(d.x, m.r2.z, d.z, m.r2.x), Pair(e.x, m.r2.z, e.z, m.r2.x), w.bb6)
      && CrossClear(Minor(d.y, m.r0.x, d.x, m.r0.y), Pair(e.x, m.r0.y, e.y, m.r0.x), w.bb7)
      && CrossClear(Minor(d.y, m.r1.x, d.x, m.r1.y), Pair(e.x, m.r1.y, e.y, m.r1.x), w.bb8)
      && CrossClear(Minor(d.y, m.r2.x, d.x, m.r2.y), Pair(e.x, m.r2.y, e.y, m.r2.x), w.bb9))
  }

  const ORIGIN := Point(0.0, 0.0, 0.0)

  lemma RotateOrigin(m: Matrix3x3, trans: Point, c: Point)
    ensures Sub(Add(Rotate(ORIGIN, m), trans), c) == Sub(trans, c)
  {}

  /** The dedicated version decides exactly what the general one does for a box centered at
      the origin of its own space. */
  lemma PrecomputedIsGeneral(m: Matrix3x3, trans: Point, box: Point, a: CollisionAABB, full: bool)
    ensures PrecomputedOverlap(Precompute(m, box), m, trans, box, a, full) <==>
            BoxBoxOverlap(m, trans, a, CollisionAABB(ORIGIN, box), full)
  {
    RotateOrigin(m, trans, a.mCenter);
    hide Greater, AxesOfB, Sub, Add, Rotate, Spread, Pair, Minor;
  }

  // -------------------------------------------------- the axis-aligned special case

  predicate AABBAABBOverlap(box: CollisionAABB, b: CollisionAABB) {
    && !Greater(box.mCenter.x - b.mCenter.x, b.mExtents.x + box.mExtents.x)
    && !Greater(box.mCenter.y - b.mCenter.y, b.mExtents.y + box.mExtents.y)
    && !Greater(box.mCenter.z - b.mCenter.z, b.mExtents.z + box.mExtents.z)
  }

  /** Two axis-aligned boxes are kept exactly when they share a point. */
  lemma AlignedOverlapIff(a: CollisionAABB, b: CollisionAABB)
    requires ValidBox(a) && ValidBox(b)
    ensures AABBAABBOverlap(a, b) <==> exists p :: BoxHas(a, p) && BoxHas(b, p)
  {
    if AABBAABBOverlap(a, b) {
      var p := Point(Nearest(a.mCenter.x, a.mExtents.x, b.mCenter.x), Nearest(a.mCenter.y, a.mExtents.y, b.mCenter.y), Nearest(a.mCenter.z, a.mExtents.z, b.mCenter.z));
      assert BoxHas(a, p) && BoxHas(b, p);
    }
  }

  /** The number of [c - e, c + e] nearest to x. */
  function Nearest(c: real, e: real, x: real): real { Max(c - e, Min(c + e, x)) }

  /** Rejecting a node's box rejects every triangle in it: the triangle test, on any
      triangle inside the node's box, fails on the same axis. */
  lemma PruneImpliesTriBoxFails(box: CollisionAABB, b: CollisionAABB, t: Triangle, full: bool)
    requires BoxHasTriangle(b, t) && TriBoxPasses(t, box, full)
    ensures AABBAABBOverlap(box, b)
  {
    BoxAxis(t, box);
    hide Separates, EdgeClear, Normal;
  }
}
