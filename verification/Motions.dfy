/** Rigid motions: the PR matrices of the source (rotation and translation), their inverse
    (InvertPRMatrix) and composition, and what they leave unchanged. Points are row vectors. */
module Motions {
  import opened BoxBox
  import opened Geometry
  import opened Options
  import opened RayTri
  import opened TriBox

  // --------------------------------------------------------------------- inverses

  function Transpose(m: Matrix3x3): Matrix3x3 {
    Matrix3x3(Point(m.r0.x, m.r1.x, m.r2.x), Point(m.r0.y, m.r1.y, m.r2.y), Point(m.r0.z, m.r1.z, m.r2.z))
  }

  /** Translation part of InvertPRMatrix. */
  function InverseTranslation(m: Matrix3x3, trans: Point): Point {
    Scale(-1.0, Rotate(trans, Transpose(m)))
  }

  lemma RotateByRows(p: Point, m: Matrix3x3)
    ensures Rotate(p, Transpose(m)) == Point(Dot(p, m.r0), Dot(p, m.r1), Dot(p, m.r2))
  {}

  lemma DotOfRotated(q: Point, m: Matrix3x3, l: Point)
    ensures Dot(Rotate(q, m), l) == q.x * Dot(m.r0, l) + q.y * Dot(m.r1, l) + q.z * Dot(m.r2, l)
  {}

  lemma RotateThereAndBack(q: Point, m: Matrix3x3)
    requires IsRotation(m)
    ensures Rotate(Rotate(q, m), Transpose(m)) == q
  {
    RotationBasis(m);
    RotateByRows(Rotate(q, m), m);
    DotOfRotated(q, m, m.r0);
    DotOfRotated(q, m, m.r1);
    DotOfRotated(q, m, m.r2);
    DotSymmetric(m.r0, m.r1);
    DotSymmetric(m.r1, m.r2);
    DotSymmetric(m.r2, m.r0);
    hide Dot, Rotate, Transpose, Cross;
  }

  lemma RotateAdd(p: Point, q: Point, m: Matrix3x3)
    ensures Rotate(Add(p, q), m) == Add(Rotate(p, m), Rotate(q, m))
  {
    RotateEntries(Add(p, q), m);
    RotateEntries(p, m);
    RotateEntries(q, m);
    CombinedSum(p, q, m.r0.x, m.r1.x, m.r2.x);
    CombinedSum(p, q, m.r0.y, m.r1.y, m.r2.y);
    CombinedSum(p, q, m.r0.z, m.r1.z, m.r2.z);
    hide Rotate, Combined;
  }

  lemma CombinedSum(p: Point, q: Point, a: real, b: real, c: real)
    ensures Combined(Add(p, q), a, b, c) == Combined(p, a, b, c) + Combined(q, a, b, c)
  {}

  lemma CancelShift(q: Point, r: Point)
    ensures Add(Scale(-1.0, r), Add(r, q)) == q
  {}

  /** The two transforms InitQuery sets up are inverse to each other. */
  lemma BoxModelBox(q: Point, m: Matrix3x3, trans: Point)
    requires IsRotation(m)
    ensures TransformPoint(TransformPoint(q, m, trans), Transpose(m), InverseTranslation(m, trans)) == q
  {
    RotateThereAndBack(q, m);
    RotateAdd(trans, Rotate(q, m), Transpose(m));
    CancelShift(q, Rotate(trans, Transpose(m)));
    hide Rotate, Add, Scale, Transpose;
  }

  function TransformTriangle(t: Triangle, rot: Matrix3x3, trans: Point): Triangle {
    Triangle(TransformPoint(t.v0, rot, trans), TransformPoint(t.v1, rot, trans), TransformPoint(t.v2, rot, trans))
  }

  /** Component k of a transformed point is an affine function of the point. */
  lemma TransformEntries(p: Point, rot: Matrix3x3, trans: Point)
    ensures TransformPoint(p, rot, trans) ==
      Point(trans.x + Dot(Transpose(rot).r0, p), trans.y + Dot(Transpose(rot).r1, p), trans.z + Dot(Transpose(rot).r2, p))
  {}

  lemma AffineMix(l: Point, c: real, t: Triangle, u: real, v: real)
    ensures c + Dot(l, At(t, u, v)) == Mix(u, v, c + Dot(l, t.v0), c + Dot(l, t.v1), c + Dot(l, t.v2))
  {
    hide Dot, Mix;
    MixOfDots(l, u, v, t.v0, t.v1, t.v2);
    MixShift(u, v, c + Dot(l, t.v0), c + Dot(l, t.v1), c + Dot(l, t.v2), c);
  }

  /** Transforming commutes with barycentric combination. */
  lemma TransformAt(t: Triangle, u: real, v: real, rot: Matrix3x3, trans: Point)
    ensures TransformPoint(At(t, u, v), rot, trans) == At(TransformTriangle(t, rot, trans), u, v)
  {
    TransformEntries(t.v0, rot, trans);
    TransformEntries(t.v1, rot, trans);
    TransformEntries(t.v2, rot, trans);
    TransformEntries(At(t, u, v), rot, trans);
    hide Dot, Mix, Rotate, Transpose, TransformPoint;
    var l := Transpose(rot);
    AffineMix(l.r0, trans.x, t, u, v);
    AffineMix(l.r1, trans.y, t, u, v);
    AffineMix(l.r2, trans.z, t, u, v);
    hide At;
    AtEntries(t, u, v);
    AtEntries(TransformTriangle(t, rot, trans), u, v);
  }

  lemma AtEntries(t: Triangle, u: real, v: real)
    ensures At(t, u, v) == Point(Mix(u, v, t.v0.x, t.v1.x, t.v2.x), Mix(u, v, t.v0.y, t.v1.y, t.v2.y), Mix(u, v, t.v0.z, t.v1.z, t.v2.z))
  {}

  lemma DotNegated(v: Point, r: Point)
    ensures Dot(v, Scale(-1.0, r)) == -Dot(v, r)
  {}

  /** A combination of three numbers, by name. */
  function Combined(p: Point, a: real, b: real, c: real): real { p.x * a + (p.y * b + p.z * c) }

  lemma RotateEntries(p: Point, m: Matrix3x3)
    ensures Rotate(p, m) == Point(Combined(p, m.r0.x, m.r1.x, m.r2.x), Combined(p, m.r0.y, m.r1.y, m.r2.y), Combined(p, m.r0.z, m.r1.z, m.r2.z))
  {}

  lemma Coordinate(lhs: real, v: real, a: real, b: real, c: real, a': real, b': real, x: real, y: real, z: real)
    requires lhs == -1.0 && a' == -a && b' == -b && lhs * v == a' * x + b' * y - c * z
    ensures v == Combined(Point(a, b, c), x, y, z)
  {}

  lemma ProjectionSums(v: Point, m: Matrix3x3)
    requires IsRotation(m)
    ensures var s := Point(Dot(v, m.r0), Dot(v, m.r1), Dot(v, m.r2));
      && v.x == Combined(s, m.r0.x, m.r1.x, m.r2.x)
      && v.y == Combined(s, m.r0.y, m.r1.y, m.r2.y)
      && v.z == Combined(s, m.r0.z, m.r1.z, m.r2.z)
  {
    RotationBasis(m);
    hide Dot, Cross, Combined;
    CrossLengths(m.r1, m.r2);
    CrossLengths(m.r2, m.r0);
    Cyclic(m.r2, v, m.r0);
    Cyclic(m.r1, v, m.r0);
    DotNegated(v, m.r0);
    DotNegated(m.r0, m.r0);
    DotNegated(v, m.r1);
    var a, b, c := Dot(v, m.r0), Dot(v, m.r1), Dot(v, m.r2);
    var l, a', b' := Dot(m.r0, Cross(m.r2, m.r1)), Dot(v, Cross(m.r2, m.r1)), Dot(m.r2, Cross(v, m.r0));
    assert l == -1.0 && a' == -a && b' == -b && Dot(m.r1, Cross(v, m.r0)) == c;
    CramerX(m.r2, m.r0, m.r1, v);
    CramerY(m.r2, m.r0, m.r1, v);
    CramerZ(m.r2, m.r0, m.r1, v);
    hide Scale;
    Coordinate(l, v.x, a, b, c, a', b', m.r0.x, m.r1.x, m.r2.x);
    Coordinate(l, v.y, a, b, c, a', b', m.r0.y, m.r1.y, m.r2.y);
    Coordinate(l, v.z, a, b, c, a', b', m.r0.z, m.r1.z, m.r2.z);
  }

  /** Every vector is the sum of its projections on the rows of a rotation. */
  lemma Projections(v: Point, m: Matrix3x3)
    requires IsRotation(m)
    ensures Rotate(Rotate(v, Transpose(m)), m) == v
  {
    ProjectionSums(v, m);
    RotateByRows(v, m);
    RotateEntries(Rotate(v, Transpose(m)), m);
    hide Dot, Rotate, Transpose, IsRotation, Combined;
  }

  // ------------------------------------------------------------------- motions

  datatype Motion = Motion(rot: Matrix3x3, trans: Point)

  predicate IsMotion(m: Motion) { IsRotation(m.rot) }

  function Apply(m: Motion, p: Point): Point { TransformPoint(p, m.rot, m.trans) }

  function Move(m: Motion, t: Triangle): Triangle { TransformTriangle(t, m.rot, m.trans) }

  function Product(a: Matrix3x3, b: Matrix3x3): Matrix3x3 {
    Matrix3x3(Rotate(a.r0, b), Rotate(a.r1, b), Rotate(a.r2, b))
  }

  /** Matrix product: first `a`, then `b`. */
  function Compose(a: Motion, b: Motion): Motion {
    Motion(Product(a.rot, b.rot), TransformPoint(a.trans, b.rot, b.trans))
  }

  /** InvertPRMatrix */
  function Invert(m: Motion): Motion {
    Motion(Transpose(m.rot), InverseTranslation(m.rot, m.trans))
  }

  lemma RotatePreservesDot(p: Point, q: Point, m: Matrix3x3)
    requires IsRotation(m)
    ensures Dot(Rotate(p, m), Rotate(q, m)) == Dot(p, q)
  {
    hide IsRotation;
    RotateThereAndBack(q, m);
    RotateByRows(Rotate(q, m), m);
    DotOfRotated(p, m, Rotate(q, m));
    DotSymmetric(m.r0, Rotate(q, m));
    DotSymmetric(m.r1, Rotate(q, m));
    DotSymmetric(m.r2, Rotate(q, m));
    hide Rotate, Transpose;
    DotUnfolded(p, q);
    hide Dot;
  }

  lemma DotUnfolded(p: Point, q: Point)
    ensures Dot(p, q) == p.x * q.x + p.y * q.y + p.z * q.z
  {}

  lemma ScaledSum(k: real, p: Point, a: real, b: real, c: real)
    ensures Combined(Scale(k, p), a, b, c) == k * Combined(p, a, b, c)
  {}

  lemma RotateScale(k: real, p: Point, m: Matrix3x3)
    ensures Rotate(Scale(k, p), m) == Scale(k, Rotate(p, m))
  {
    RotateEntries(Scale(k, p), m);
    RotateEntries(p, m);
    ScaledSum(k, p, m.r0.x, m.r1.x, m.r2.x);
    ScaledSum(k, p, m.r0.y, m.r1.y, m.r2.y);
    ScaledSum(k, p, m.r0.z, m.r1.z, m.r2.z);
    hide Rotate, Combined;
  }

  lemma ComposeRotations(p: Point, a: Matrix3x3, b: Matrix3x3)
    ensures Rotate(p, Product(a, b)) == Rotate(Rotate(p, a), b)
  {
    RotateAdd(Scale(p.x, a.r0), Add(Scale(p.y, a.r1), Scale(p.z, a.r2)), b);
    RotateAdd(Scale(p.y, a.r1), Scale(p.z, a.r2), b);
    RotateScale(p.x, a.r0, b);
    RotateScale(p.y, a.r1, b);
    RotateScale(p.z, a.r2, b);
    assert Rotate(p, a) == Add(Scale(p.x, a.r0), Add(Scale(p.y, a.r1), Scale(p.z, a.r2)));
    assert Rotate(p, Product(a, b)) == Add(Scale(p.x, Rotate(a.r0, b)), Add(Scale(p.y, Rotate(a.r1, b)), Scale(p.z, Rotate(a.r2, b))));
    hide Rotate, Scale, Add;
  }

  /** The matrix product acts as one motion after the other. */
  lemma ComposeActs(a: Motion, b: Motion, p: Point)
    ensures Apply(Compose(a, b), p) == Apply(b, Apply(a, p))
  {
    ComposeRotations(p, a.rot, b.rot);
    RotateAdd(a.trans, Rotate(p, a.rot), b.rot);
    hide Rotate, Product;
    AddAssociates(b.trans, Rotate(a.trans, b.rot), Rotate(Rotate(p, a.rot), b.rot));
    hide Add;
  }

  lemma AddAssociates(a: Point, b: Point, c: Point)
    ensures Add(Add(a, b), c) == Add(a, Add(b, c))
  {}

  // The columns of a rotation, through the projections of the unit vectors.
  lemma Columns(m: Matrix3x3)
    requires IsRotation(m)
    ensures var c := Transpose(m); Dot(c.r0, c.r0) == 1.0 && Dot(c.r1, c.r1) == 1.0 && Dot(c.r0, c.r1) == 0.0
  {
    hide IsRotation, Rotate;
    Projections(UNIT_X, m);
    Projections(UNIT_Y, m);
    var c := Transpose(m);
    UnitRow(c);
    RotateEntries(c.r0, m);
    RotateEntries(c.r1, m);
    CombinedIsDot(c.r0, c.r0);
    CombinedIsDot(c.r1, c.r1);
    CombinedIsDot(c.r0, c.r1);
    assert m == Matrix3x3(Point(c.r0.x, c.r1.x, c.r2.x), Point(c.r0.y, c.r1.y, c.r2.y), Point(c.r0.z, c.r1.z, c.r2.z));
    hide Dot, Transpose, Combined;
  }

  lemma CombinedIsDot(p: Point, q: Point)
    ensures Combined(p, q.x, q.y, q.z) == Dot(p, q)
  {}

  lemma UnitSum(x: real, y: real, z: real)
    ensures Combined(UNIT_X, x, y, z) == x && Combined(UNIT_Y, x, y, z) == y
  {}

  lemma UnitRow(m: Matrix3x3)
    ensures Rotate(UNIT_X, m) == m.r0 && Rotate(UNIT_Y, m) == m.r1
  {
    RotateEntries(UNIT_X, m);
    RotateEntries(UNIT_Y, m);
    UnitSum(m.r0.x, m.r1.x, m.r2.x);
    UnitSum(m.r0.y, m.r1.y, m.r2.y);
    UnitSum(m.r0.z, m.r1.z, m.r2.z);
    hide Rotate, Combined;
  }

  lemma ColumnCross(m: Matrix3x3)
    requires IsRotation(m)
    ensures Cross(Transpose(m).r0, Transpose(m).r1) == Transpose(m).r2
  {
    RotationBasis(m);
    hide Dot;
  }

  /** The inverse of a rotation is a rotation. */
  lemma TransposeIsRotation(m: Matrix3x3)
    requires IsRotation(m)
    ensures IsRotation(Transpose(m))
  {
    Columns(m);
    ColumnCross(m);
    hide Dot, Cross, Transpose;
  }

  /** Rotations keep cross products. */
  lemma RotatePreservesCross(p: Point, q: Point, m: Matrix3x3)
    requires IsRotation(m)
    ensures Cross(Rotate(p, m), Rotate(q, m)) == Rotate(Cross(p, q), m)
  {
    var a, b := Rotate(p, m), Rotate(q, m);
    RotationBasis(m);
    CrossOfSums(p, q, m);
    assert m == Matrix3x3(Cross(m.r1, m.r2), Cross(m.r2, m.r0), Cross(m.r0, m.r1));
    hide Dot, Cross, Rotate;
  }

  /** The Cauchy-Binet identity for two combinations of three pairs. */
  lemma CauchyBinet(p0: real, p1: real, p2: real, q0: real, q1: real, q2: real, a0: real, a1: real, a2: real, b0: real, b1: real, b2: real)
    ensures (p0 * a0 + (p1 * a1 + p2 * a2)) * (q0 * b0 + (q1 * b1 + q2 * b2)) - (p0 * b0 + (p1 * b1 + p2 * b2)) * (q0 * a0 + (q1 * a1 + q2 * a2)) ==
      (p1 * q2 - p2 * q1) * (a1 * b2 - b1 * a2) + ((p2 * q0 - p0 * q2) * (a2 * b0 - b2 * a0) + (p0 * q1 - p1 * q0) * (a0 * b1 - b0 * a1))
  {}

  lemma CrossOfSums(p: Point, q: Point, m: Matrix3x3)
    ensures Cross(Rotate(p, m), Rotate(q, m)) == Rotate(Cross(p, q), Matrix3x3(Cross(m.r1, m.r2), Cross(m.r2, m.r0), Cross(m.r0, m.r1)))
  {
    var r0, r1, r2 := m.r0, m.r1, m.r2;
    RotateEntries(p, m);
    RotateEntries(q, m);
    RotateEntries(Cross(p, q), Matrix3x3(Cross(r1, r2), Cross(r2, r0), Cross(r0, r1)));
    var u, v := Rotate(p, m), Rotate(q, m);
    CrossEntries(u, v);
    CrossEntries(r0, r1);
    CrossEntries(r1, r2);
    CrossEntries(r2, r0);
    hide Rotate, Combined, Cross, Minor;
    CrossEntry(p, q, r0.y, r1.y, r2.y, r0.z, r1.z, r2.z);
    CrossEntry(p, q, r0.z, r1.z, r2.z, r0.x, r1.x, r2.x);
    CrossEntry(p, q, r0.x, r1.x, r2.x, r0.y, r1.y, r2.y);
  }

  /** a * b - c * d by name, so that identities between such terms need no expansion. */
  lemma CrossEntries(p: Point, q: Point)
    ensures Cross(p, q) == Point(Minor(p.y, q.z, p.z, q.y), Minor(p.z, q.x, p.x, q.z), Minor(p.x, q.y, p.y, q.x))
  {}

  lemma CrossEntry(p: Point, q: Point, a0: real, a1: real, a2: real, b0: real, b1: real, b2: real)
    ensures Minor(Combined(p, a0, a1, a2), Combined(q, b0, b1, b2), Combined(p, b0, b1, b2), Combined(q, a0, a1, a2)) ==
      Combined(Cross(p, q), Minor(a1, b2, b1, a2), Minor(a2, b0, b2, a0), Minor(a0, b1, b0, a1))
  {
    CauchyBinet(p.x, p.y, p.z, q.x, q.y, q.z, a0, a1, a2, b0, b1, b2);
  }

  lemma ProductIsRotation(a: Matrix3x3, b: Matrix3x3)
    requires IsRotation(a) && IsRotation(b)
    ensures IsRotation(Product(a, b))
  {
    RotatePreservesDot(a.r0, a.r0, b);
    RotatePreservesDot(a.r1, a.r1, b);
    RotatePreservesDot(a.r0, a.r1, b);
    RotatePreservesCross(a.r0, a.r1, b);
    hide Dot, Cross, Rotate;
  }

  /** Inverses and products of motions are motions. */
  lemma MotionsClosed(a: Motion, b: Motion)
    requires IsMotion(a) && IsMotion(b)
    ensures IsMotion(Invert(a)) && IsMotion(Compose(a, b))
  {
    TransposeIsRotation(a.rot);
    ProductIsRotation(a.rot, b.rot);
    hide IsRotation;
  }

  lemma CancelInverse(p: Point, t: Point)
    ensures Add(t, Add(Scale(-1.0, t), p)) == p
  {}

  /** InvertPRMatrix is a two-sided inverse. */
  lemma InvertUndoes(m: Motion, p: Point)
    requires IsMotion(m)
    ensures Apply(Invert(m), Apply(m, p)) == p && Apply(m, Apply(Invert(m), p)) == p
  {
    BoxModelBox(p, m.rot, m.trans);
    var back := Transpose(m.rot);
    RotateAdd(Scale(-1.0, Rotate(m.trans, back)), Rotate(p, back), m.rot);
    RotateScale(-1.0, Rotate(m.trans, back), m.rot);
    Projections(m.trans, m.rot);
    Projections(p, m.rot);
    hide Rotate, IsRotation;
    CancelInverse(p, m.trans);
    hide Add, Scale;
  }

  lemma TransposeProduct(a: Matrix3x3, b: Matrix3x3)
    ensures Transpose(Product(a, Transpose(b))) == Product(b, Transpose(a))
  {
    RotateByRows(a.r0, b);
    RotateByRows(a.r1, b);
    RotateByRows(a.r2, b);
    RotateByRows(b.r0, a);
    RotateByRows(b.r1, a);
    RotateByRows(b.r2, a);
    DotsSymmetric(a.r0, b);
    DotsSymmetric(a.r1, b);
    DotsSymmetric(a.r2, b);
    hide Rotate, Dot;
  }

  lemma DotsSymmetric(p: Point, m: Matrix3x3)
    ensures Dot(p, m.r0) == Dot(m.r0, p) && Dot(p, m.r1) == Dot(m.r1, p) && Dot(p, m.r2) == Dot(m.r2, p)
  {}

  lemma Negations(p: Point, q: Point)
    ensures Scale(-1.0, Scale(-1.0, p)) == p && Scale(-1.0, Add(p, q)) == Add(Scale(-1.0, p), Scale(-1.0, q)) && Add(p, q) == Add(q, p)
  {}

  /** The two relative motions of a pair of placed objects are each other's inverse. */
  lemma RelativeMotions(a: Motion, b: Motion)
    requires IsMotion(a) && IsMotion(b)
    ensures Invert(Compose(a, Invert(b))) == Compose(b, Invert(a))
  {
    var at, bt := Transpose(a.rot), Transpose(b.rot);
    TransposeProduct(a.rot, b.rot);
    var t := TransformPoint(a.trans, bt, InverseTranslation(b.rot, b.trans));
    RotateAdd(Scale(-1.0, Rotate(b.trans, bt)), Rotate(a.trans, bt), b.rot);
    RotateScale(-1.0, Rotate(b.trans, bt), b.rot);
    Projections(b.trans, b.rot);
    Projections(a.trans, b.rot);
    assert Rotate(t, b.rot) == Add(Scale(-1.0, b.trans), a.trans);
    ComposeRotations(t, b.rot, at);
    RotateAdd(Scale(-1.0, b.trans), a.trans, at);
    RotateScale(-1.0, b.trans, at);
    hide Rotate, Product, Transpose, IsRotation;
    Negations(Scale(-1.0, Rotate(b.trans, at)), Rotate(a.trans, at));
    Negations(Rotate(b.trans, at), Scale(-1.0, Rotate(a.trans, at)));
    hide Add, Scale;
  }

  lemma DifferenceMoves(m: Motion, p: Point, q: Point)
    ensures Sub(Apply(m, p), Apply(m, q)) == Rotate(Sub(p, q), m.rot)
  {
    RotateDifference(p, q, m.rot);
    hide Rotate;
  }

  lemma SquaresOfDifference(p: Point, q: Point)
    ensures SquareDistance(p, q) == Dot(Sub(p, q), Sub(p, q))
  {}

  /** Motions keep distances. */
  lemma DistanceKept(m: Motion, p: Point, q: Point)
    requires IsMotion(m)
    ensures SquareDistance(Apply(m, p), Apply(m, q)) == SquareDistance(p, q)
  {
    DifferenceMoves(m, p, q);
    SquaresOfDifference(p, q);
    SquaresOfDifference(Apply(m, p), Apply(m, q));
    RotatePreservesDot(Sub(p, q), Sub(p, q), m.rot);
    hide Dot, Sub, Rotate, SquareDistance, Apply;
  }

  /** A moved triangle holds exactly the moved points. */
  lemma TrianglesMove(m: Motion, t: Triangle, p: Point)
    requires IsMotion(m)
    ensures InTriangle(Move(m, t), Apply(m, p)) <==> InTriangle(t, p)
  {
    hide At, TransformPoint, TransformTriangle, IsRotation;
    if InTriangle(t, p) {
      var u, v :| Bary(u, v) && p == At(t, u, v);
      TransformAt(t, u, v, m.rot, m.trans);
    }
    if InTriangle(Move(m, t), Apply(m, p)) {
      var u, v :| Bary(u, v) && Apply(m, p) == At(Move(m, t), u, v);
      TransformAt(t, u, v, m.rot, m.trans);
      InvertUndoes(m, p);
      InvertUndoes(m, At(t, u, v));
    }
  }

  lemma TripleKept(a: Point, b: Point, c: Point, m: Matrix3x3)
    requires IsRotation(m)
    ensures Dot(Rotate(a, m), Cross(Rotate(b, m), Rotate(c, m))) == Dot(a, Cross(b, c))
  {
    RotatePreservesCross(b, c, m);
    RotatePreservesDot(a, Cross(b, c), m);
    hide Dot, Cross, Rotate;
  }

  const IDENTITY := Motion(Matrix3x3(UNIT_X, UNIT_Y, UNIT_Z), ORIGIN)

  lemma IdentityEntries(p: Point)
    ensures Combined(p, 1.0, 0.0, 0.0) == p.x && Combined(p, 0.0, 1.0, 0.0) == p.y && Combined(p, 0.0, 0.0, 1.0) == p.z
  {}

  lemma IdentityActs(p: Point)
    ensures Apply(IDENTITY, p) == p
  {
    IdentityEntries(p);
    RotateEntries(p, IDENTITY.rot);
    hide Rotate, Combined;
  }

  /** Placing by the identity leaves a triangle where it is, like a null matrix. */
  lemma PlacedByIdentity(t: Triangle)
    ensures Move(IDENTITY, t) == t
  {
    IdentityActs(t.v0);
    IdentityActs(t.v1);
    IdentityActs(t.v2);
    MovedVertices(IDENTITY, t);
    hide Apply, Move;
  }

  lemma MovedVertices(w: Motion, t: Triangle)
    ensures Move(w, t) == Triangle(Apply(w, t.v0), Apply(w, t.v1), Apply(w, t.v2))
  {}

  lemma UnitDots()
    ensures Dot(UNIT_X, UNIT_X) == 1.0 && Dot(UNIT_Y, UNIT_Y) == 1.0 && Dot(UNIT_X, UNIT_Y) == 0.0 && Cross(UNIT_X, UNIT_Y) == UNIT_Z
  {
    UnitProjections(UNIT_X, ORIGIN);
    UnitProjections(UNIT_Y, ORIGIN);
    CrossEntries(UNIT_X, UNIT_Y);
  }

  lemma IdentityIsMotion()
    ensures IsMotion(IDENTITY)
  {
    UnitDots();
    hide Dot, Cross;
  }

  // ----------------------------------------------------- optional world matrices

  /** A null matrix leaves points where they are. */
  function ToWorld(world: Option<Motion>, p: Point): Point {
    match world case None => p case Some(m) => Apply(m, p)
  }

  function ToModel(world: Option<Motion>, p: Point): Point {
    match world case None => p case Some(m) => Apply(Invert(m), p)
  }

  function Placed(world: Option<Motion>, t: Triangle): Triangle {
    match world case None => t case Some(m) => Move(m, t)
  }

  predicate ValidWorld(world: Option<Motion>) {
    world.Some? ==> IsMotion(world.value)
  }

  lemma WorldModel(world: Option<Motion>, p: Point)
    requires ValidWorld(world)
    ensures ToWorld(world, ToModel(world, p)) == p && ToModel(world, ToWorld(world, p)) == p
  {
    hide Apply, Invert, IsMotion;
    if world.Some? { InvertUndoes(world.value, p); }
  }

  lemma PlacedPoints(world: Option<Motion>, t: Triangle, p: Point)
    requires ValidWorld(world)
    ensures InTriangle(Placed(world, t), ToWorld(world, p)) <==> InTriangle(t, p)
  {
    hide InTriangle, IsMotion, Apply, Move;
    if world.Some? { TrianglesMove(world.value, t, p); }
  }

  lemma WorldDistance(world: Option<Motion>, p: Point, q: Point)
    requires ValidWorld(world)
    ensures SquareDistance(ToWorld(world, p), ToWorld(world, q)) == SquareDistance(p, q)
  {
    hide SquareDistance, IsMotion, Apply;
    if world.Some? { DistanceKept(world.value, p, q); }
  }
}
