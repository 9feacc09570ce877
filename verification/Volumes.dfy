/** The query volumes of the volume colliders and the three facts each search rests on: a
    pruned box holds no triangle that must be reported, a contained box holds only triangles
    that may be reported, and the leaf test lies in between. */
module Volumes {
  import opened BoxBox
  import opened Geometry
  import opened Motions
  import opened Options
  import opened Reals
  import opened SphereBox
  import opened SphereTri
  import opened Trees
  import opened TriBox
  import opened TriBoxExact

  /** What InitQuery leaves in the collider for the recursion: mBox is the (possibly fat)
      overlap box and [mMin, mMax] the containment box of an AABB query. */
  datatype Volume =
    | AABBVolume(mBox: CollisionAABB, mMin: Point, mMax: Point)
    | SphereVolume(mCenter: Point, mRadius2: real)
    | OBBVolume(mBoxExtents: Point, mRModelToBox: Matrix3x3, mTModelToBox: Point,
                mRBoxToModel: Matrix3x3, mTBoxToModel: Point, mBB: BoxData, mB0: Point, mB1: Point,
                mFullBoxBoxTest: bool)

  // ------------------------------------------------------------ what is reported

  /** The oriented box, as a solid in model space, shares a point with the triangle. */
  ghost predicate SharesPoint(extents: Point, rot: Matrix3x3, trans: Point, t: Triangle) {
    exists q :: BoxHas(CollisionAABB(ORIGIN, extents), q) && InTriangle(t, TransformPoint(q, rot, trans))
  }

  ghost predicate MustTouch(v: Volume, t: Triangle) {
    match v
    case AABBVolume(box, _, _) => TriBoxPasses(t, box, true)
    case SphereVolume(c, r2) => NonDegenerate(t) && SphereReaches(t, c, r2)
    case OBBVolume(e, _, _, rot, trans, _, _, _, _) => SharesPoint(e, rot, trans, t)
  }

  ghost predicate MayTouch(v: Volume, t: Triangle) {
    match v
    case AABBVolume(box, _, _) => TriBoxPasses(t, box, true)
    case SphereVolume(c, r2) => SphereReaches(t, c, r2)
    case OBBVolume(e, _, _, rot, trans, _, _, _, _) => SharesPoint(e, rot, trans, t)
  }

  ghost function Must(m: Mesh, v: Volume): set<nat>
    requires ValidMesh(m)
  {
    set i: nat | i < |m.faces| && MustTouch(v, Tri(m, i))
  }

  ghost function May(m: Mesh, v: Volume): set<nat>
    requires ValidMesh(m)
  {
    set i: nat | i < |m.faces| && MayTouch(v, Tri(m, i))
  }

  // --------------------------------------------------------- the collider's tests

  /** AABBCollider::AABBContainsBox */
  predicate AABBContainsBox(mMin: Point, mMax: Point, b: CollisionAABB) {
    && mMin.x <= b.mCenter.x - b.mExtents.x
    && mMin.y <= b.mCenter.y - b.mExtents.y
    && mMin.z <= b.mCenter.z - b.mExtents.z
    && b.mCenter.x + b.mExtents.x <= mMax.x
    && b.mCenter.y + b.mExtents.y <= mMax.y
    && b.mCenter.z + b.mExtents.z <= mMax.z
  }

  predicate Between(lo: Point, hi: Point, p: Point) {
    lo.x <= p.x <= hi.x && lo.y <= p.y <= hi.y && lo.z <= p.z <= hi.z
  }

  /** ... holds for exactly the boxes all of whose points lie between the corners. */
  lemma AABBContainsIff(mMin: Point, mMax: Point, b: CollisionAABB)
    requires ValidBox(b)
    ensures AABBContainsBox(mMin, mMax, b) <==> forall p :: BoxHas(b, p) ==> Between(mMin, mMax, p)
  {
    var lo, hi := Sub(b.mCenter, b.mExtents), Add(b.mCenter, b.mExtents);
    assert BoxHas(b, lo) && BoxHas(b, hi);
    assert (forall p :: BoxHas(b, p) ==> Between(mMin, mMax, p)) ==> Between(mMin, mMax, lo) && Between(mMin, mMax, hi);
  }

  /** Half-width of a model box along one box-space axis, as OBBContainsBox computes it. */
  function Reach(l: Point, e: Point): real {
    Abs(l.x * e.x) + Abs(l.y * e.y) + Abs(l.z * e.z)
  }

  /** OBBCollider::OBBContainsBox: the model box's AABB in box space lies in [mB1, mB0]. */
  predicate OBBContainsBox(rot: Matrix3x3, mB0: Point, mB1: Point, b: CollisionAABB) {
    var l := Transpose(rot);
    && Dot(b.mCenter, l.r0) + Reach(l.r0, b.mExtents) <= mB0.x && mB1.x <= Dot(b.mCenter, l.r0) - Reach(l.r0, b.mExtents)
    && Dot(b.mCenter, l.r1) + Reach(l.r1, b.mExtents) <= mB0.y && mB1.y <= Dot(b.mCenter, l.r1) - Reach(l.r1, b.mExtents)
    && Dot(b.mCenter, l.r2) + Reach(l.r2, b.mExtents) <= mB0.z && mB1.z <= Dot(b.mCenter, l.r2) - Reach(l.r2, b.mExtents)
  }

  /** What InitQuery establishes between the precomputed fields. */
  ghost predicate Prepared(v: Volume) {
    match v
    case AABBVolume(box, lo, hi) =>
      && box.mCenter.x - box.mExtents.x <= lo.x && hi.x <= box.mCenter.x + box.mExtents.x
      && box.mCenter.y - box.mExtents.y <= lo.y && hi.y <= box.mCenter.y + box.mExtents.y
      && box.mCenter.z - box.mExtents.z <= lo.z && hi.z <= box.mCenter.z + box.mExtents.z
    case SphereVolume(c, r2) => r2 <= FLT_MAX
    case OBBVolume(e, r, t, rot, trans, bb, b0, b1, _) =>
      && IsRotation(rot) && NonNegative(e) && r == Transpose(rot) && t == InverseTranslation(rot, trans)
      && bb == Precompute(rot, e) && b0 == Sub(e, t) && b1 == Sub(Scale(-1.0, e), t)
  }

  /** The leaf test only needs a finite squared radius. */
  ghost predicate Testable(v: Volume) {
    v.SphereVolume? ==> v.mRadius2 <= FLT_MAX
  }

  // ---------------------------------------------------------------- the three facts

  /** The triangle test in box space accepts exactly the triangles that share a point with
      the oriented box. */
  lemma OrientedTestIff(e: Point, rot: Matrix3x3, trans: Point, t: Triangle)
    requires IsRotation(rot) && NonNegative(e)
    ensures TriBoxPasses(TransformTriangle(t, Transpose(rot), InverseTranslation(rot, trans)), CollisionAABB(ORIGIN, e), true) <==>
            SharesPoint(e, rot, trans, t)
  {
    var box, w := CollisionAABB(ORIGIN, e), Motion(rot, trans);
    assert IsMotion(w);
    MotionsClosed(w, w);
    var t' := Move(Invert(w), t);
    assert ValidBox(box);
    FullTestIff(t', box);
    forall q | true ensures InTriangle(t', q) <==> InTriangle(t, Apply(w, q)) {
      hide BoxHas, IsMotion, Invert, Move, InTriangle, Apply;
      InvertUndoes(w, q);
      TrianglesMove(Invert(w), t, Apply(w, q));
    }
    hide BoxHas, InTriangle, IsRotation, TriBoxPasses, IsMotion, TransformTriangle, TransformPoint;
  }

  /** The verdict of the leaf test on one triangle. */
  ghost predicate LeafTouch(v: Volume, t: Triangle) {
    match v
    case AABBVolume(box, _, _) => TriBoxPasses(t, box, true)
    case SphereVolume(c, r2) => NonDegenerate(t) && SphereReaches(t, c, r2)
    case OBBVolume(e, rot, trans, _, _, _, _, _, _) => TriBoxPasses(TransformTriangle(t, rot, trans), CollisionAABB(ORIGIN, e), true)
  }

  /** The leaf test lies between what must and what may be reported; for boxes of either kind
      the three agree. */
  lemma LeafBetween(v: Volume, t: Triangle)
    requires Prepared(v)
    ensures (MustTouch(v, t) ==> LeafTouch(v, t)) && (LeafTouch(v, t) ==> MayTouch(v, t))
    ensures !v.SphereVolume? ==> (MustTouch(v, t) <==> MayTouch(v, t))
  {
    if v.OBBVolume? { OrientedTestIff(v.mBoxExtents, v.mRBoxToModel, v.mTBoxToModel, t); }
    hide SharesPoint, IsRotation, TransformTriangle, TriBoxPasses, Transpose, InverseTranslation, NonDegenerate, SphereReaches, Precompute;
  }

  lemma SphereMeets(b: CollisionAABB, t: Triangle, c: Point, r2: real)
    requires BoxHasTriangle(b, t) && SphereReaches(t, c, r2)
    ensures SphereMeetsBox(b, c, r2)
  {
    hide BoxHasTriangle, BoxHas, InTriangle, SquareDistance;
    var p :| InTriangle(t, p) && SquareDistance(c, p) < r2;
    BoxHoldsTrianglePoints(b, t, p);
  }

  lemma OBBKept(b: CollisionAABB, t: Triangle, e: Point, rot: Matrix3x3, trans: Point, full: bool)
    requires IsRotation(rot) && NonNegative(e) && BoxHasTriangle(b, t) && SharesPoint(e, rot, trans, t)
    ensures PrecomputedOverlap(Precompute(rot, e), rot, trans, e, b, full)
  {
    var q :| BoxHas(CollisionAABB(ORIGIN, e), q) && InTriangle(t, TransformPoint(q, rot, trans));
    BoxHoldsTrianglePoints(b, t, TransformPoint(q, rot, trans));
    hide IsRotation, TransformPoint, BoxBoxOverlap, Precompute, PrecomputedOverlap, InTriangle;
    BoxesSharingPointOverlap(rot, trans, b, CollisionAABB(ORIGIN, e), full, TransformPoint(q, rot, trans), q);
    PrecomputedIsGeneral(rot, trans, e, b, full);
  }

  /** The verdict of the volume-box test; `full` only matters for oriented boxes. */
  ghost predicate BVOverlap(v: Volume, b: CollisionAABB, full: bool) {
    match v
    case AABBVolume(box, _, _) => AABBAABBOverlap(box, b)
    case SphereVolume(c, r2) => SphereMeetsBox(b, c, r2)
    case OBBVolume(e, _, _, rot, trans, bb, _, _, _) => PrecomputedOverlap(bb, rot, trans, e, b, full)
  }

  /** Pruning is sound for every volume, whatever box-box axes are skipped. */
  lemma PruneSound(v: Volume, b: CollisionAABB, t: Triangle, full: bool)
    requires Prepared(v) && BoxHasTriangle(b, t) && MayTouch(v, t)
    ensures BVOverlap(v, b, full)
  {
    hide BoxHasTriangle, TriBoxPasses, SphereReaches, SphereMeetsBox, SharesPoint, PrecomputedOverlap, Precompute, IsRotation,
      AABBAABBOverlap, Transpose, InverseTranslation;
    match v
    case AABBVolume(box, _, _) => PruneImpliesTriBoxFails(box, b, t, true);
    case SphereVolume(c, r2) => SphereMeets(b, t, c, r2);
    case OBBVolume(e, _, _, rot, trans, _, _, _, _) => OBBKept(b, t, e, rot, trans, full);
  }

  /** The verdict of the containment test. */
  ghost predicate Contains(v: Volume, b: CollisionAABB) {
    match v
    case AABBVolume(_, lo, hi) => AABBContainsBox(lo, hi, b)
    case SphereVolume(c, r2) => BoxInsideSphere(b, c, r2)
    case OBBVolume(_, r, _, _, _, _, b0, b1, _) => OBBContainsBox(r, b0, b1, b)
  }

  lemma ReachIsRadius(l: Point, e: Point)
    requires NonNegative(e)
    ensures Reach(l, e) == Radius(l, e)
  {
    AbsScale(l.x, e.x);
    AbsScale(l.y, e.y);
    AbsScale(l.z, e.z);
    hide Abs;
  }

  lemma AbsScale(r: real, e: real)
    requires 0.0 <= e
    ensures Abs(r * e) == Abs(r) * e
  {
    if r < 0.0 { ProductNonNegative(-r, e); } else { ProductNonNegative(r, e); }
  }

  /** One box-space coordinate of a point of a contained box. */
  lemma ContainedEntry(l: Point, b: CollisionAABB, p: Point, hi: real, lo: real, e: real, trans: real)
    requires BoxHas(b, p) && hi == e - trans && lo == -e - trans
    requires Dot(b.mCenter, l) + Reach(l, b.mExtents) <= hi && lo <= Dot(b.mCenter, l) - Reach(l, b.mExtents)
    ensures Abs(trans + Dot(l, p)) <= e
  {
    ReachIsRadius(l, b.mExtents);
    DotWithinRadius(l, Sub(p, b.mCenter), b.mExtents);
    DotSub(l, p, b.mCenter);
    DotSymmetric(l, b.mCenter);
    hide Dot, Radius, Reach;
  }

  lemma OBBHolds(v: Volume, b: CollisionAABB, p: Point)
    requires v.OBBVolume? && Prepared(v) && Contains(v, b) && BoxHas(b, p)
    ensures BoxHas(CollisionAABB(ORIGIN, v.mBoxExtents), TransformPoint(p, v.mRModelToBox, v.mTModelToBox))
  {
    var l, e, trans := Transpose(v.mRModelToBox), v.mBoxExtents, v.mTModelToBox;
    TransformEntries(p, v.mRModelToBox, v.mTModelToBox);
    hide Dot, Transpose, Reach, Abs, TransformPoint, IsRotation, InverseTranslation, Precompute, NonNegative;
    ContainedEntry(l.r0, b, p, v.mB0.x, v.mB1.x, e.x, trans.x);
    ContainedEntry(l.r1, b, p, v.mB0.y, v.mB1.y, e.y, trans.y);
    ContainedEntry(l.r2, b, p, v.mB0.z, v.mB1.z, e.z, trans.z);
  }

  /** The box's corner furthest along an axis. */
  function Furthest(l: Point, b: CollisionAABB): Point {
    var c, e := b.mCenter, b.mExtents;
    Point(if l.x < 0.0 then c.x - e.x else c.x + e.x, if l.y < 0.0 then c.y - e.y else c.y + e.y, if l.z < 0.0 then c.z - e.z else c.z + e.z)
  }

  lemma FurthestInBox(l: Point, b: CollisionAABB)
    requires ValidBox(b)
    ensures BoxHas(b, Furthest(l, b))
  {}

  lemma FurthestReach(l: Point, b: CollisionAABB)
    requires ValidBox(b)
    ensures Dot(l, Furthest(l, b)) == Dot(b.mCenter, l) + Reach(l, b.mExtents)
  {
    ReachIsRadius(l, b.mExtents);
    hide Reach, Abs;
    var p, c, e := Furthest(l, b), b.mCenter, b.mExtents;
    assert l.x * p.x == c.x * l.x + Abs(l.x) * e.x by { FurthestEntry(l.x, c.x, e.x); }
    assert l.y * p.y == c.y * l.y + Abs(l.y) * e.y by { FurthestEntry(l.y, c.y, e.y); }
    assert l.z * p.z == c.z * l.z + Abs(l.z) * e.z by { FurthestEntry(l.z, c.z, e.z); }
    hide Furthest;
  }

  lemma FurthestEntry(l: real, c: real, e: real)
    ensures l * (if l < 0.0 then c - e else c + e) == c * l + Abs(l) * e
  {}

  lemma Mirrored(l: Point, b: CollisionAABB)
    ensures Dot(Scale(-1.0, l), b.mCenter) == -Dot(l, b.mCenter) && Reach(Scale(-1.0, l), b.mExtents) == Reach(l, b.mExtents)
    ensures forall p :: Dot(Scale(-1.0, l), p) == -Dot(l, p)
  {
    forall p | true ensures Dot(Scale(-1.0, l), p) == -Dot(l, p) {
      DotSymmetric(Scale(-1.0, l), p);
      DotScale(p, -1.0, l);
      DotSymmetric(l, p);
      hide Dot, Scale;
    }
  }

  /** One box-space coordinate of all points of a box. */
  lemma EntryBounded(l: Point, b: CollisionAABB, hi: real, lo: real, e: real, trans: real)
    requires ValidBox(b) && hi == e - trans && lo == -e - trans && forall p :: BoxHas(b, p) ==> Abs(trans + Dot(l, p)) <= e
    ensures Dot(b.mCenter, l) + Reach(l, b.mExtents) <= hi && lo <= Dot(b.mCenter, l) - Reach(l, b.mExtents)
  {
    hide Dot, Reach, BoxHas, Furthest, Scale, ValidBox;
    var k := Scale(-1.0, l);
    FurthestInBox(l, b);
    FurthestInBox(k, b);
    FurthestReach(l, b);
    FurthestReach(k, b);
    Mirrored(l, b);
    DotSymmetric(l, b.mCenter);
    DotSymmetric(k, b.mCenter);
    var p, q := Furthest(l, b), Furthest(k, b);
    assert Abs(trans + Dot(l, p)) <= e && Abs(trans + Dot(l, q)) <= e;
    assert Dot(k, q) == -Dot(l, q);
  }

  /** OBBContainsBox holds for exactly the model boxes all of whose points lie in the oriented
      box. */
  lemma OBBContainsIff(v: Volume, b: CollisionAABB)
    requires v.OBBVolume? && Prepared(v) && ValidBox(b)
    ensures Contains(v, b) <==> forall p :: BoxHas(b, p) ==> BoxHas(CollisionAABB(ORIGIN, v.mBoxExtents), TransformPoint(p, v.mRModelToBox, v.mTModelToBox))
  {
    var l, e, trans := Transpose(v.mRModelToBox), v.mBoxExtents, v.mTModelToBox;
    if Contains(v, b) {
      forall p | BoxHas(b, p) ensures BoxHas(CollisionAABB(ORIGIN, e), TransformPoint(p, v.mRModelToBox, trans)) { OBBHolds(v, b, p); }
    }
    if forall p :: BoxHas(b, p) ==> BoxHas(CollisionAABB(ORIGIN, e), TransformPoint(p, v.mRModelToBox, trans)) {
      forall p | BoxHas(b, p)
        ensures Abs(trans.x + Dot(l.r0, p)) <= e.x && Abs(trans.y + Dot(l.r1, p)) <= e.y && Abs(trans.z + Dot(l.r2, p)) <= e.z
      {
        TransformEntries(p, v.mRModelToBox, trans);
        assert BoxHas(CollisionAABB(ORIGIN, e), TransformPoint(p, v.mRModelToBox, trans));
        hide Dot, Transpose, TransformPoint, IsRotation, InverseTranslation, Precompute, NonNegative;
      }
      hide Dot, Transpose, Reach, Abs, TransformPoint, IsRotation, InverseTranslation, Precompute, NonNegative, BoxHas;
      EntryBounded(l.r0, b, v.mB0.x, v.mB1.x, e.x, trans.x);
      EntryBounded(l.r1, b, v.mB0.y, v.mB1.y, e.y, trans.y);
      EntryBounded(l.r2, b, v.mB0.z, v.mB1.z, e.z, trans.z);
    }
  }

  lemma AABBHolds(v: Volume, b: CollisionAABB, p: Point)
    requires v.AABBVolume? && Prepared(v) && Contains(v, b) && BoxHas(b, p)
    ensures BoxHas(v.mBox, p)
  {}

  lemma SphereHolds(t: Triangle, b: CollisionAABB, c: Point, r2: real)
    requires BoxInsideSphere(b, c, r2) && BoxHasTriangle(b, t)
    ensures SphereReaches(t, c, r2)
  {
    VerticesInTriangle(t);
    hide BoxHas, InTriangle, SquareDistance;
  }

  /** Dumping is sound: every triangle of a contained box may be reported, degenerate ones
      included. */
  lemma DumpSound(v: Volume, b: CollisionAABB, t: Triangle)
    requires Prepared(v) && BoxHasTriangle(b, t) && Contains(v, b)
    ensures MayTouch(v, t)
  {
    hide TriBoxPasses, SphereReaches, BoxInsideSphere, BoxHas, Prepared, Contains, TransformPoint;
    match v
    case AABBVolume(box, _, _) =>
      AABBHolds(v, b, t.v0);
      VertexInsidePasses(t, box, true);
    case SphereVolume(c, r2) =>
      ContainsSphere(v, b);
      SphereHolds(t, b, c, r2);
    case OBBVolume(e, r, trans, _, _, _, _, _, _) =>
      OBBHolds(v, b, t.v0);
      CornerShared(v, t);
  }

  lemma CornerShared(v: Volume, t: Triangle)
    requires v.OBBVolume? && Prepared(v)
    requires BoxHas(CollisionAABB(ORIGIN, v.mBoxExtents), TransformPoint(t.v0, v.mRModelToBox, v.mTModelToBox))
    ensures SharesPoint(v.mBoxExtents, v.mRBoxToModel, v.mTBoxToModel, t)
  {
    var w := Motion(v.mRBoxToModel, v.mTBoxToModel);
    InvertUndoes(w, t.v0);
    VerticesInTriangle(t);
    hide BoxHas, InTriangle, Precompute, TransformPoint, IsRotation, NonNegative;
    assert InTriangle(t, TransformPoint(TransformPoint(t.v0, v.mRModelToBox, v.mTModelToBox), v.mRBoxToModel, v.mTBoxToModel));
  }

  lemma ContainsSphere(v: Volume, b: CollisionAABB)
    requires v.SphereVolume? && Contains(v, b)
    ensures BoxInsideSphere(b, v.mCenter, v.mRadius2)
  {}

  // -------------------------------------------------------------- world space

  /** The sphere's center in model space, as InitQuery computes it. */
  function ModelCenter(center: Point, worlds: Option<Motion>, worldm: Option<Motion>): Point {
    ToModel(worldm, ToWorld(worlds, center))
  }

  /** The model-space sphere reaches a face exactly when, in world space, the placed sphere
      reaches the placed face. */
  lemma SphereInWorld(t: Triangle, center: Point, worlds: Option<Motion>, worldm: Option<Motion>, r2: real)
    requires ValidWorld(worldm)
    ensures SphereReaches(t, ModelCenter(center, worlds, worldm), r2) <==> SphereReaches(Placed(worldm, t), ToWorld(worlds, center), r2)
  {
    hide InTriangle, SquareDistance, ToModel, ToWorld, Placed;
    var c := ToWorld(worlds, center);
    var c' := ToModel(worldm, c);
    WorldModel(worldm, c);
    if SphereReaches(t, c', r2) {
      var p :| InTriangle(t, p) && SquareDistance(c', p) < r2;
      PlacedPoints(worldm, t, p);
      WorldDistance(worldm, c', p);
    }
    if SphereReaches(Placed(worldm, t), c, r2) {
      var p :| InTriangle(Placed(worldm, t), p) && SquareDistance(c, p) < r2;
      var q := ToModel(worldm, p);
      WorldModel(worldm, p);
      PlacedPoints(worldm, t, q);
      WorldDistance(worldm, c', q);
    }
  }

  /** Placement of an oriented box in the world. */
  function BoxInWorld(center: Point, rot: Matrix3x3, worldb: Option<Motion>): Motion {
    match worldb case None => Motion(rot, center) case Some(b) => Compose(Motion(rot, center), b)
  }

  /** OBBCollider::InitQuery: the matrices and everything precomputed from them. */
  function OrientedBox(center: Point, extents: Point, rot: Matrix3x3, worldb: Option<Motion>, worldm: Option<Motion>, full: bool): Volume {
    var worldB := BoxInWorld(center, rot, worldb);
    var boxToModel := match worldm case None => worldB case Some(m) => Compose(worldB, Invert(m));
    var modelToBox := match worldm case None => Invert(worldB) case Some(m) => Compose(m, Invert(worldB));
    OBBVolume(extents, modelToBox.rot, modelToBox.trans, boxToModel.rot, boxToModel.trans, Precompute(boxToModel.rot, extents),
              Sub(extents, modelToBox.trans), Sub(Scale(-1.0, extents), modelToBox.trans), full)
  }

  /** Rigid world matrices and a rotated box prepare the recursion: in particular the two
      matrices, computed separately, are inverse motions. */
  lemma OrientedBoxPrepared(center: Point, extents: Point, rot: Matrix3x3, worldb: Option<Motion>, worldm: Option<Motion>, full: bool)
    requires IsRotation(rot) && NonNegative(extents) && ValidWorld(worldb) && ValidWorld(worldm)
    ensures OrientedBox(center, extents, rot, worldb, worldm, full).OBBVolume?
    ensures Prepared(OrientedBox(center, extents, rot, worldb, worldm, full))
  {
    var worldB := BoxInWorld(center, rot, worldb);
    if worldb.Some? { MotionsClosed(Motion(rot, center), worldb.value); }
    assert IsMotion(worldB);
    if worldm.Some? {
      MotionsClosed(worldm.value, worldB);
      MotionsClosed(worldB, Invert(worldm.value));
      RelativeMotions(worldB, worldm.value);
    }
    hide IsRotation, Compose, Precompute, Sub, Scale, Transpose, InverseTranslation, NonNegative;
  }

  /** The oriented box shares a point with a face in model space exactly when, in world space,
      the placed box shares one with the placed face. */
  lemma OBBInWorld(t: Triangle, center: Point, extents: Point, rot: Matrix3x3, worldb: Option<Motion>, worldm: Option<Motion>, full: bool)
    requires ValidWorld(worldm)
    ensures var v := OrientedBox(center, extents, rot, worldb, worldm, full); var w := BoxInWorld(center, rot, worldb);
      v.OBBVolume? && (SharesPoint(extents, v.mRBoxToModel, v.mTBoxToModel, t) <==> SharesPoint(extents, w.rot, w.trans, Placed(worldm, t)))
  {
    var v := OrientedBox(center, extents, rot, worldb, worldm, full);
    var w := BoxInWorld(center, rot, worldb);
    var boxToModel := match worldm case None => w case Some(m) => Compose(w, Invert(m));
    assert v.OBBVolume? && v.mRBoxToModel == boxToModel.rot && v.mTBoxToModel == boxToModel.trans;
    hide OrientedBox, BoxInWorld, BoxHas, InTriangle, Compose, Invert, Placed, TransformPoint, IsMotion;
    forall q | true
      ensures InTriangle(t, TransformPoint(q, boxToModel.rot, boxToModel.trans)) <==> InTriangle(Placed(worldm, t), TransformPoint(q, w.rot, w.trans))
    {
      BoxPointInWorld(t, q, w, worldm);
    }
  }

  lemma BoxPointInWorld(t: Triangle, q: Point, w: Motion, worldm: Option<Motion>)
    requires ValidWorld(worldm)
    ensures var b := match worldm case None => w case Some(m) => Compose(w, Invert(m));
      InTriangle(t, Apply(b, q)) <==> InTriangle(Placed(worldm, t), Apply(w, q))
  {
    hide InTriangle, Compose, Invert, Apply, IsMotion, Move;
    var p := Apply(w, q);
    WorldModel(worldm, p);
    PlacedPoints(worldm, t, ToModel(worldm, p));
    if worldm.Some? { ComposeActs(w, Invert(worldm.value), q); }
  }
}
