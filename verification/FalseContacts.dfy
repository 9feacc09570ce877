/** Pairs the source's triangle test accepts although they share no point: a query whose boxes
    keep them apart does not report them, so brute force with that test is not the meaning of a
    query. */
module FalseContacts {
  import opened BoxBox
  import opened Geometry
  import opened Motions
  import opened Options
  import opened RayBox
  import Reals
  import opened Search
  import opened TreeColliders
  import opened Trees
  import opened TriTri

  function OneFace(t: Triangle): Mesh { Mesh([Face(0, 1, 2)], [t.v0, t.v1, t.v2]) }

  predicate FiniteTriangle(t: Triangle) { FinitePoint(t.v0) && FinitePoint(t.v1) && FinitePoint(t.v2) }

  lemma OneFaceMesh(t: Triangle)
    requires FiniteTriangle(t)
    ensures ValidMesh(OneFace(t)) && Tri(OneFace(t), 0) == t
  {}

  ghost predicate PairMeshes(s: Scene, t: Triangle, u: Triangle) {
    ValidScene(s) && |s.m0.faces| == 1 && |s.m1.faces| == 1 && Tri(s.m0, 0) == t && Tri(s.m1, 0) == u
  }

  predicate Unmoved(s: Scene) { s.rot == IDENTITY.rot && s.trans == ORIGIN }

  /** Two meshes of one face each, left where they are, and the source's test. */
  ghost predicate OnePair(s: Scene, t: Triangle, u: Triangle) {
    PairMeshes(s, t, u) && Unmoved(s) && UsesTriTriOverlap(s)
  }

  lemma OnePairExists(t: Triangle, u: Triangle) returns (s: Scene)
    requires FiniteTriangle(t) && FiniteTriangle(u)
    ensures OnePair(s, t, u)
  {
    hide FinitePoint, IsRotation, Invert, TriTriOverlap, ValidMesh, Tri;
    OneFaceMesh(t);
    OneFaceMesh(u);
    IdentityIsMotion();
    assert IDENTITY == Motion(IDENTITY.rot, ORIGIN);
    s := Scene(OneFace(t), OneFace(u), (p, q) => TriTriOverlap(p, q), IDENTITY.rot, ORIGIN, Invert(IDENTITY));
  }

  lemma InSpace0(s: Scene, u: Triangle)
    requires Unmoved(s)
    ensures In0(s, u) == u
  {
    hide Move;
    PlacedByIdentity(u);
    In0Moves(s, u);
    assert IDENTITY == Motion(IDENTITY.rot, ORIGIN);
    hide In0;
  }

  ghost predicate FalseContact(t: Triangle, u: Triangle) { TriTriOverlap(t, u) && !SharedPoint(t, u) }

  const ONLY_PAIR := Candidate((0, 0), BothInSpace0)

  /** The pair is accepted and shares no point. */
  ghost predicate FalseHit(s: Scene) {
    ValidScene(s) && ONLY_PAIR in Hits(s) && ONLY_PAIR !in Contacts(s)
  }

  lemma FalseContactHits(s: Scene, t: Triangle, u: Triangle)
    requires OnePair(s, t, u) && FalseContact(t, u)
    ensures FalseHit(s)
  {
    hide TriTriOverlap, SharedPoint, In0, IsRotation, Invert, ValidMesh, Tri;
    InSpace0(s, u);
    HitsAt(s, ONLY_PAIR);
    ContactIsHit(s, ONLY_PAIR);
    SharedSymmetric(t, u);
    hide Hits, Contacts;
  }

  /** Brute force over two one-leaf trees. */
  ghost predicate BruteForceLists(s: Scene, a: AABB, b: AABB) {
    ValidScene(s) && Filter(Hits(s), Framed(Leaf(a, [0]), Leaf(b, [0]), BothInSpace0)) == [ONLY_PAIR]
  }

  lemma HitListed(s: Scene, a: AABB, b: AABB)
    requires FalseHit(s)
    ensures BruteForceLists(s, a, b)
  {
    hide Hits, Contacts, ValidScene;
    assert Framed(Leaf(a, [0]), Leaf(b, [0]), BothInSpace0) == [ONLY_PAIR];
    assert [ONLY_PAIR][1..] == [];
    assert Filter(Hits(s), [ONLY_PAIR]) == [ONLY_PAIR];
  }

  /** Boxes of the two leaves that hold their faces. */
  ghost predicate Boxed(s: Scene, a: AABB, b: AABB) {
    ValidScene(s) && Encloses(s.m0, Leaf(a, [0])) && Encloses(s.m1, Leaf(b, [0]))
  }

  lemma EnclosesFace(m: Mesh, t: Triangle, a: AABB)
    requires ValidMesh(m) && |m.faces| == 1 && Tri(m, 0) == t && BoxHasTriangle(CollisionBox(a), t)
    ensures Encloses(m, Leaf(a, [0]))
  {
    hide BoxHasTriangle, CollisionBox, Tri;
    assert Prims(Leaf(a, [0])) == [0];
  }

  lemma BoxedFaces(s: Scene, t: Triangle, u: Triangle, a: AABB, b: AABB)
    requires OnePair(s, t, u) && BoxHasTriangle(CollisionBox(a), t) && BoxHasTriangle(CollisionBox(b), u)
    ensures Boxed(s, a, b)
  {
    hide UsesTriTriOverlap, Unmoved, ValidMesh, IsRotation, BoxHasTriangle, CollisionBox, Tri, Encloses;
    EnclosesFace(s.m0, t, a);
    EnclosesFace(s.m1, u, b);
  }

  lemma RotateIdentity(p: Point)
    ensures Rotate(p, IDENTITY.rot) == p
  {
    IdentityEntries(p);
    RotateEntries(p, IDENTITY.rot);
    hide Rotate, Combined;
  }

  /** Boxes in the same axes with a gap in y or z wider than the test's epsilons. */
  predicate Gap(a: CollisionAABB, b: CollisionAABB) {
    || Greater(b.mCenter.y - a.mCenter.y, a.mExtents.y + Spread(b.mExtents, 0.0, 1.0, 0.0))
    || Greater(b.mCenter.z - a.mCenter.z, a.mExtents.z + Spread(b.mExtents, 0.0, 0.0, 1.0))
  }

  lemma GapSeen(s: Scene, t0: Tree, t1: Tree)
    requires Unmoved(s) && Gap(CollisionBox(t0.box), CollisionBox(t1.box))
    ensures RootsApart(s, t0, t1)
  {
    hide Rotate, Spread, Greater, CollisionBox, AxesOfB, CrossAxes0, CrossAxes1, CrossAxes2;
    RotateIdentity(CollisionBox(t1.box).mCenter);
    AddOrigin(CollisionBox(t1.box).mCenter);
    hide Add;
  }

  lemma AddOrigin(p: Point)
    ensures Add(p, ORIGIN) == p
  {}

  /** The query on the two faces is wrong by brute force, whatever its mode. */
  ghost predicate Unreported(s: Scene, t: Triangle, u: Triangle, a: AABB, b: AABB) {
    && OnePair(s, t, u) && Boxed(s, a, b) && BruteForceLists(s, a, b) && FalseHit(s)
    && forall flags, r :: IsTreeAnswer(s, flags, None, Leaf(a, [0]), Leaf(b, [0]), BothInSpace0, r) ==> r == []
  }

  /** Accepted without a common point, in boxes the box test tells apart: brute force lists the
      pair, the query nothing. */
  lemma PairUnreported(s: Scene, t: Triangle, u: Triangle, a: AABB, b: AABB)
    requires OnePair(s, t, u) && FalseContact(t, u) && Boxed(s, a, b) && RootsApart(s, Leaf(a, [0]), Leaf(b, [0]))
    ensures Unreported(s, t, u, a, b)
  {
    hide OnePair, FalseContact, Boxed, RootsApart, FalseHit, BruteForceLists, ValidScene, Hits, Contacts, Framed, Reports;
    FalseContactHits(s, t, u);
    HitListed(s, a, b);
    forall flags, r | IsTreeAnswer(s, flags, None, Leaf(a, [0]), Leaf(b, [0]), BothInSpace0, r) ensures r == [] {
      assert !CachedHit(s, flags, None);
    }
  }

  lemma BoxOf(x: real, y: real, z: real, x': real, y': real, z': real)
    ensures CollisionBox(AABB(Point(x, y, z), Point(x', y', z'))) ==
      CollisionAABB(Point(0.5 * (x' + x), 0.5 * (y' + y), 0.5 * (z' + z)), Point(0.5 * (x' - x), 0.5 * (y' - y), 0.5 * (z' - z)))
  {}

  const LEG := 1.0 / 1024.0
  const LOW := AABB(Point(0.0, 0.0, 0.0), Point(LEG, LEG, 0.0))
  const HIGH := AABB(Point(0.0, 0.0, 0.5), Point(LEG, LEG, 0.5))

  lemma SmallBoxes()
    ensures CollisionBox(LOW) == CollisionAABB(Point(0.5 * LEG, 0.5 * LEG, 0.0), Point(0.5 * LEG, 0.5 * LEG, 0.0))
    ensures CollisionBox(HIGH) == CollisionAABB(Point(0.5 * LEG, 0.5 * LEG, 0.5), Point(0.5 * LEG, 0.5 * LEG, 0.0))
  {
    hide CollisionBox;
    BoxOf(0.0, 0.0, 0.0, LEG, LEG, 0.0);
    BoxOf(0.0, 0.0, 0.5, LEG, LEG, 0.5);
  }

  lemma SmallGap()
    ensures Gap(CollisionBox(LOW), CollisionBox(HIGH))
  {
    SmallBoxes();
    hide CollisionBox;
    assert Spread(Point(0.5 * LEG, 0.5 * LEG, 0.0), 0.0, 0.0, 1.0) < 0.1;
    assert 0.0 <= Spread(Point(0.5 * LEG, 0.5 * LEG, 0.0), 0.0, 0.0, 1.0);
    hide Spread;
  }

  lemma SmallHeld()
    ensures BoxHasTriangle(CollisionBox(LOW), LevelTriangle(LEG, 0.0)) && BoxHasTriangle(CollisionBox(HIGH), LevelTriangle(LEG, 0.5))
  {
    SmallBoxes();
    hide CollisionBox;
  }

  lemma SmallProduct()
    ensures 0.0 < Reals.Product(LEG, LEG) && 0.0 < Reals.Product(Reals.Product(LEG, LEG), 0.5) < LOCAL_EPSILON
  {}

  lemma SmallContact()
    ensures FalseContact(LevelTriangle(LEG, 0.0), LevelTriangle(LEG, 0.5))
  {
    hide TriTriOverlap, SharedPoint, Clear, NonDegenerate, LevelTriangle, Reals.Product;
    SmallProduct();
    NearbyAccepted(LEG, 0.5);
  }

  /** Two parallel triangles with legs of 1/1024, one half apart. */
  lemma SmallPairUnreported() returns (s: Scene)
    ensures Unreported(s, LevelTriangle(LEG, 0.0), LevelTriangle(LEG, 0.5), LOW, HIGH)
  {
    var t, u := LevelTriangle(LEG, 0.0), LevelTriangle(LEG, 0.5);
    assert FiniteTriangle(t) && FiniteTriangle(u);
    hide PairMeshes, Unmoved, UsesTriTriOverlap, FalseContact, Boxed, RootsApart, Unreported, FiniteTriangle, LevelTriangle, CollisionBox, BoxHasTriangle, Gap;
    SmallContact();
    SmallGap();
    SmallHeld();
    s := OnePairExists(t, u);
    BoxedFaces(s, t, u, LOW, HIGH);
    GapSeen(s, Leaf(LOW, [0]), Leaf(HIGH, [0]));
    PairUnreported(s, t, u, LOW, HIGH);
  }

  const UPRIGHT := AABB(Point(0.0, 0.0, -1.0), Point(0.0, 0.0, 1.0))
  const AWAY := AABB(Point(-1.0, 5.0, 0.0), Point(1.0, 6.0, 0.0))

  lemma NeedleBoxes()
    ensures CollisionBox(UPRIGHT) == CollisionAABB(Point(0.0, 0.0, 0.0), Point(0.0, 0.0, 1.0))
    ensures CollisionBox(AWAY) == CollisionAABB(Point(0.0, 5.5, 0.0), Point(1.0, 0.5, 0.0))
  {
    hide CollisionBox;
    BoxOf(0.0, 0.0, -1.0, 0.0, 0.0, 1.0);
    BoxOf(-1.0, 5.0, 0.0, 1.0, 6.0, 0.0);
  }

  lemma NeedleGap()
    ensures Gap(CollisionBox(UPRIGHT), CollisionBox(AWAY))
  {
    NeedleBoxes();
    hide CollisionBox;
    assert 0.0 <= Spread(Point(1.0, 0.5, 0.0), 0.0, 1.0, 0.0) < 1.0;
    hide Spread;
  }

  lemma NeedleHeld()
    ensures BoxHasTriangle(CollisionBox(UPRIGHT), Needle(1.0)) && BoxHasTriangle(CollisionBox(AWAY), BESIDE)
  {
    NeedleBoxes();
    hide CollisionBox;
  }

  /** A face without area and one five units beside it. */
  lemma NeedlePairUnreported() returns (s: Scene)
    ensures Unreported(s, Needle(1.0), BESIDE, UPRIGHT, AWAY)
  {
    var t := Needle(1.0);
    assert FiniteTriangle(t) && FiniteTriangle(BESIDE);
    hide PairMeshes, Unmoved, UsesTriTriOverlap, FalseContact, Boxed, RootsApart, Unreported, FiniteTriangle, Needle, CollisionBox, BoxHasTriangle, Gap;
    NeedleContact();
    NeedleGap();
    NeedleHeld();
    s := OnePairExists(t, BESIDE);
    BoxedFaces(s, t, BESIDE, UPRIGHT, AWAY);
    GapSeen(s, Leaf(UPRIGHT, [0]), Leaf(AWAY, [0]));
    PairUnreported(s, t, BESIDE, UPRIGHT, AWAY);
  }

  lemma NeedleContact()
    ensures FalseContact(Needle(1.0), BESIDE)
  {
    hide TriTriOverlap, SharedPoint, Clear, NonDegenerate, Needle;
    NeedleAccepted(1.0);
  }
}
