/** Plane-set queries (OPC_PlanesCollider.cpp): the clip mask is narrowed on the way down and
    a subtree is dumped once no plane cuts it. */
module PlanesColliders {
  import opened BoxBox
  import opened ClipMask
  import opened ColliderFlags
  import opened Geometry
  import opened Motions
  import opened OptimizedTrees
  import opened Options
  import opened PlaneTests
  import opened Reals
  import opened Search
  import opened Trees
  import opened VolumeColliders

  /** Brute force: the triangles PlanesTriOverlap accepts with a given mask. */
  ghost function PlaneHits(m: Mesh, planes: seq<Plane>, mask: nat): set<nat>
    requires ValidMesh(m)
  {
    set i: nat | i < |m.faces| && TriPasses(planes, Tri(m, i), mask)
  }

  /** With the full mask: the triangles no plane has entirely on its positive side. */
  lemma FullMaskHits(m: Mesh, planes: seq<Plane>, i: nat)
    requires ValidMesh(m) && i < |m.faces|
    ensures i in PlaneHits(m, planes, FullMask(|planes|)) <==>
      forall k :: 0 <= k < |planes| ==> !TriOutside(planes[k], Tri(m, i))
  {
    hide Active, TriOutside, Tri, ValidMesh, FullMask;
    forall k: nat | k < |planes| ensures Active(FullMask(|planes|), k) { FullMaskActive(|planes|, k); }
  }

  // ---------------------------------------------------------------- world space

  /** TransformPlane: the normal is rotated and the offset recomputed from it. */
  function TransformPlane(plane: Plane, transform: Motion): Plane {
    var n := Rotate(plane.n, transform.rot);
    Plane(n, Dot(Sub(Scale(plane.d, n), transform.trans), n))
  }

  function ModelPlanes(planes: seq<Plane>, world: Option<Motion>): (r: seq<Plane>)
    ensures |r| == |planes|
  {
    match world
    case None => planes
    case Some(w) => seq(|planes|, i requires 0 <= i < |planes| => TransformPlane(planes[i], Invert(w)))
  }

  lemma OffsetSplit(d: real, n: Point, t: Point)
    ensures Dot(Sub(Scale(d, n), t), n) == Scaled(d, Dot(n, n)) - Dot(t, n)
  {}

  lemma AddedDot(n: Point, p: Point, q: Point)
    ensures Dot(n, Add(p, q)) == Dot(n, p) + Dot(n, q) && Dot(Scale(-1.0, p), n) == -Dot(n, p)
  {}

  function Scaled(d: real, x: real): real { d * x }

  /** How far the transformed plane is off, at every point of the model: not at all for a unit
      normal or a plane through the origin. */
  lemma TransformedDistance(plane: Plane, w: Motion, p: Point)
    requires IsMotion(w)
    ensures Distance(TransformPlane(plane, Invert(w)), p) == Distance(plane, Apply(w, p)) + Scaled(plane.d, Dot(plane.n, plane.n) - 1.0)
  {
    var n := Rotate(plane.n, Transpose(w.rot));
    TransposeIsRotation(w.rot);
    Projections(plane.n, w.rot);
    RotatePreservesDot(n, p, w.rot);
    RotatePreservesDot(plane.n, w.trans, Transpose(w.rot));
    RotatePreservesDot(plane.n, plane.n, Transpose(w.rot));
    MovedDistance(plane, w, p);
    ModelDistance(plane, w, p);
    hide IsRotation, Rotate, Transpose, Apply, Distance, Dot, TransformPlane, Invert, Scaled;
    Recombine(plane.d, Dot(n, n), Dot(plane.n, plane.n));
  }

  lemma ModelDistance(plane: Plane, w: Motion, p: Point)
    ensures var back := Transpose(w.rot); var n := Rotate(plane.n, back);
      Distance(TransformPlane(plane, Invert(w)), p) == Dot(n, p) + Scaled(plane.d, Dot(n, n)) + Dot(n, Rotate(w.trans, back))
  {
    var back := Transpose(w.rot);
    var n := Rotate(plane.n, back);
    var t := Scale(-1.0, Rotate(w.trans, back));
    assert TransformPlane(plane, Invert(w)) == Plane(n, Dot(Sub(Scale(plane.d, n), t), n));
    hide Rotate, Transpose, TransformPlane, Invert;
    OffsetSplit(plane.d, n, t);
    AddedDot(n, Rotate(w.trans, back), p);
    hide Dot, Add, Scale, Sub, Scaled;
  }

  lemma MovedDistance(plane: Plane, w: Motion, p: Point)
    ensures Distance(plane, Apply(w, p)) == Dot(plane.n, w.trans) + Dot(plane.n, Rotate(p, w.rot)) + plane.d
  {
    hide Rotate;
    AddedDot(plane.n, w.trans, Rotate(p, w.rot));
    hide Dot, Add;
  }

  lemma Recombine(d: real, x: real, y: real)
    requires x == y
    ensures Scaled(d, x) == d + Scaled(d, y - 1.0)
  {}

  lemma ZeroProduct(a: real, b: real)
    ensures Scaled(a, b) == 0.0 <==> a == 0.0 || b == 0.0
  {
    if 0.0 < a && 0.0 < b { PositiveProduct(a, b); }
    if 0.0 < a && b < 0.0 { PositiveProduct(a, -b); }
    if a < 0.0 && 0.0 < b { PositiveProduct(-a, b); }
    if a < 0.0 && b < 0.0 { PositiveProduct(-a, -b); }
  }

  /** The transformed plane is the given one seen from the model if and only if its normal has
      unit length or its offset is zero. */
  lemma TransformPlaneExact(plane: Plane, w: Motion)
    requires IsMotion(w)
    ensures (forall p :: Distance(TransformPlane(plane, Invert(w)), p) == Distance(plane, Apply(w, p))) <==>
            plane.d == 0.0 || Dot(plane.n, plane.n) == 1.0
  {
    ZeroProduct(plane.d, Dot(plane.n, plane.n) - 1.0);
    hide Distance, Dot, TransformPlane, Invert, Apply, IsMotion, Scaled;
    forall p | true
      ensures Distance(TransformPlane(plane, Invert(w)), p) == Distance(plane, Apply(w, p)) + Scaled(plane.d, Dot(plane.n, plane.n) - 1.0)
    {
      TransformedDistance(plane, w, p);
    }
    var origin := Point(0.0, 0.0, 0.0);
    assert Distance(TransformPlane(plane, Invert(w)), origin) ==
      Distance(plane, Apply(w, origin)) + Scaled(plane.d, Dot(plane.n, plane.n) - 1.0);
  }

  /** The transform keeps the culling verdict, whatever the matrix. */
  predicate TransformsWell(plane: Plane) {
    plane.d == 0.0 || Dot(plane.n, plane.n) == 1.0 || (plane.n == ORIGIN && plane.d < 0.0)
  }

  lemma NullNormal(plane: Plane, p: Point)
    requires plane.n == ORIGIN
    ensures Distance(plane, p) == plane.d && Dot(plane.n, plane.n) == 0.0
  {}

  /** A point of the world at a given distance. */
  lemma PointAt(plane: Plane, x: real) returns (q: Point)
    requires plane.n != ORIGIN
    ensures Distance(plane, q) == x
  {
    DotSelf(plane.n);
    var k := (x - plane.d) / Dot(plane.n, plane.n);
    q := Scale(k, plane.n);
    DotScale(plane.n, k, plane.n);
    hide Dot, Scale;
    DivMul(x - plane.d, Dot(plane.n, plane.n));
  }

  lemma VerdictsAgree(plane: Plane, w: Motion, t: Triangle)
    requires IsMotion(w) && TransformsWell(plane)
    ensures TriOutside(TransformPlane(plane, Invert(w)), t) <==> TriOutside(plane, Move(w, t))
  {
    hide Distance, Dot, TransformPlane, Invert, IsMotion, Apply;
    MovedVertices(w, t);
    TransformedDistance(plane, w, t.v0);
    TransformedDistance(plane, w, t.v1);
    TransformedDistance(plane, w, t.v2);
    if plane.n == ORIGIN {
      NullNormal(plane, Apply(w, t.v0));
    }
  }

  lemma VerdictsDiffer(plane: Plane, w: Motion) returns (t: Triangle)
    requires IsMotion(w) && !TransformsWell(plane)
    ensures TriOutside(TransformPlane(plane, Invert(w)), t) != TriOutside(plane, Move(w, t))
  {
    var off := Scaled(plane.d, Dot(plane.n, plane.n) - 1.0);
    ZeroProduct(plane.d, Dot(plane.n, plane.n) - 1.0);
    hide Distance, Dot, TransformPlane, Invert, IsMotion, Apply;
    var q := ORIGIN;
    if plane.n == ORIGIN {
      NullNormal(plane, q);
    } else {
      q := PointAt(plane, if 0.0 < off then 0.0 else -off);
    }
    var p := Apply(Invert(w), q);
    InvertUndoes(w, q);
    t := Triangle(p, p, p);
    MovedVertices(w, t);
    TransformedDistance(plane, w, p);
  }

  /** Over all faces, the transformed plane culls exactly what the given plane culls in the
      world if and only if its normal has unit length, its offset is zero, or it has no
      normal and culls nothing. */
  lemma TransformVerdictIff(plane: Plane, w: Motion)
    requires IsMotion(w)
    ensures (forall t :: TriOutside(TransformPlane(plane, Invert(w)), t) <==> TriOutside(plane, Move(w, t))) <==> TransformsWell(plane)
  {
    hide TriOutside, TransformPlane, Invert, Move, IsMotion, TransformsWell;
    if TransformsWell(plane) {
      forall t | true ensures TriOutside(TransformPlane(plane, Invert(w)), t) <==> TriOutside(plane, Move(w, t)) {
        VerdictsAgree(plane, w, t);
      }
    } else {
      var t := VerdictsDiffer(plane, w);
    }
  }

  const LONG_NORMAL := Plane(Point(2.0, 0.0, 0.0), 1.0)
  const VISIBLE := Triangle(Point(-1.0, 0.0, 0.0), Point(-1.0, 1.0, 0.0), Point(-1.0, 0.0, 1.0))

  lemma LongNormal(p: Point)
    requires p.x == -1.0
    ensures Distance(LONG_NORMAL, p) == -1.0 && Dot(LONG_NORMAL.n, LONG_NORMAL.n) == 4.0
  {}

  /** A normal of length two and an identity matrix: a visible face is culled. */
  lemma VisibleFaceCulled()
    ensures IsMotion(IDENTITY) && Placed(Some(IDENTITY), VISIBLE) == VISIBLE
    ensures !TriOutside(LONG_NORMAL, VISIBLE) && TriOutside(TransformPlane(LONG_NORMAL, Invert(IDENTITY)), VISIBLE)
  {
    IdentityIsMotion();
    PlacedByIdentity(VISIBLE);
    hide Distance, Dot, TransformPlane, Invert, IsMotion, Apply, Move;
    LongNormal(VISIBLE.v0);
    LongNormal(VISIBLE.v1);
    LongNormal(VISIBLE.v2);
    IdentityActs(VISIBLE.v0);
    IdentityActs(VISIBLE.v1);
    IdentityActs(VISIBLE.v2);
    TransformedDistance(LONG_NORMAL, IDENTITY, VISIBLE.v0);
    TransformedDistance(LONG_NORMAL, IDENTITY, VISIBLE.v1);
    TransformedDistance(LONG_NORMAL, IDENTITY, VISIBLE.v2);
  }

  /** Planes the transform suits cull a face in model space exactly when they cull the placed
      face in world space. */
  lemma PlanesInWorld(planes: seq<Plane>, world: Option<Motion>, t: Triangle, k: nat)
    requires ValidWorld(world) && k < |planes| && (world.Some? ==> TransformsWell(planes[k]))
    ensures TriOutside(ModelPlanes(planes, world)[k], t) <==> TriOutside(planes[k], Placed(world, t))
  {
    hide TriOutside, TransformPlane, Invert, IsMotion, Move, TransformsWell;
    if world.Some? { VerdictsAgree(planes[k], world.value, t); }
  }

  lemma PruneCulled(m: Mesh, planes: seq<Plane>, mask: nat, t: Tree, s: State)
    requires ValidMesh(m) && Encloses(m, t) && !BoxPasses(planes, CollisionBox(t.box), mask)
    ensures Searched(PlaneHits(m, planes, mask), PlaneHits(m, planes, mask), s, Prims(t), [], s)
  {
    hide CollisionBox, BoxHasTriangle, ValidMesh, TriPasses, BoxPasses, Tri;
    var hits := PlaneHits(m, planes, mask);
    forall i | i in Prims(t) ensures i !in hits {
      if i in hits { CullingSound(planes, CollisionBox(t.box), Tri(m, i), mask); }
    }
    ReportNothing(hits, hits, s.flags.firstContact, Prims(t));
    assert s.touched + [] == s.touched;
  }

  /** The narrowed mask selects the same triangles of the subtree. */
  lemma NarrowedHits(m: Mesh, planes: seq<Plane>, mask: nat, out: nat, box: CollisionAABB, t: Tree, i: nat)
    requires ValidMesh(m) && Encloses(m, t) && Narrowed(planes, box, mask, out) && i in Prims(t)
    requires forall k :: k in Prims(t) ==> k < |m.faces| && BoxHasTriangle(box, Tri(m, k))
    ensures i in PlaneHits(m, planes, mask) <==> i in PlaneHits(m, planes, out)
  {
    hide BoxHasTriangle, ValidMesh, TriPasses, Narrowed, Tri, Encloses;
    NarrowingKeepsVerdict(planes, box, Tri(m, i), mask, out);
  }

  lemma NoActivePlane(m: Mesh, planes: seq<Plane>, i: nat)
    requires ValidMesh(m) && i < |m.faces|
    ensures i in PlaneHits(m, planes, 0)
  {
    forall k: nat | k < |planes| ensures !Active(0, k) { ZeroInactive(k); }
    hide Active, Tri, ValidMesh;
  }

  lemma DumpInside(m: Mesh, planes: seq<Plane>, mask: nat, t: Tree, s: State, s': State)
    requires ValidMesh(m) && Encloses(m, t) && Narrowed(planes, CollisionBox(t.box), mask, 0) && Prims(t) != []
    requires s' == State(s.flags.Contact(), s.touched + UpToFirst(s.flags.firstContact, Prims(t)))
    ensures Searched(PlaneHits(m, planes, mask), PlaneHits(m, planes, mask), s, Prims(t), UpToFirst(s.flags.firstContact, Prims(t)), s')
  {
    hide CollisionBox, BoxHasTriangle, ValidMesh, Narrowed, Tri, PlaneHits;
    var hits := PlaneHits(m, planes, mask);
    forall i | i in Prims(t) ensures i in hits {
      NoActivePlane(m, planes, i);
      NarrowedHits(m, planes, mask, 0, CollisionBox(t.box), t, i);
    }
    ReportAll(hits, hits, s.flags.firstContact, Prims(t));
    hide Reports;
  }

  /** A search with the narrowed mask below a node is one with the node's own mask. */
  lemma WidenMask(m: Mesh, planes: seq<Plane>, mask: nat, out: nat, t: Tree, u: Tree, s: State, r: seq<nat>, s': State)
    requires ValidMesh(m) && Encloses(m, t) && Narrowed(planes, CollisionBox(t.box), mask, out)
    requires t.Node? && (u == t.pos || u == t.neg)
    requires Searched(PlaneHits(m, planes, out), PlaneHits(m, planes, out), s, Prims(u), r, s')
    ensures Searched(PlaneHits(m, planes, mask), PlaneHits(m, planes, mask), s, Prims(u), r, s')
  {
    hide CollisionBox, BoxHasTriangle, ValidMesh, Narrowed, Tri, PlaneHits;
    var wide, narrow := PlaneHits(m, planes, mask), PlaneHits(m, planes, out);
    forall i | i in Prims(u) ensures i in narrow <==> i in wide {
      assert i in Prims(t);
      NarrowedHits(m, planes, mask, out, CollisionBox(t.box), t, i);
    }
    SameVerdicts(narrow, narrow, wide, wide, s.flags.firstContact, Prims(u), r);
    hide Reports;
  }

  lemma PrimStep(m: Mesh, planes: seq<Plane>, mask: nat, i: nat, s: State, s': State)
    requires ValidMesh(m) && i < |m.faces|
    requires s' == if TriPasses(planes, Tri(m, i), mask) then State(s.flags.Contact(), s.touched + [i]) else s
    ensures Searched(PlaneHits(m, planes, mask), PlaneHits(m, planes, mask), s, [i],
                     if TriPasses(planes, Tri(m, i), mask) then [i] else [], s')
  {
    hide ValidMesh, TriPasses, Tri;
    var hits := PlaneHits(m, planes, mask);
    assert s.touched + [] == s.touched;
    if TriPasses(planes, Tri(m, i), mask) {
      ReportAll(hits, hits, s.flags.firstContact, [i]);
    } else {
      ReportNothing(hits, hits, s.flags.firstContact, [i]);
    }
    hide Reports;
  }

  class PlanesCollider {
    const mesh: Mesh
    var mFlags: Flags
    var mPlanes: seq<Plane>
    var mTouchedPrimitives: Container

    constructor (mesh: Mesh, flags: Flags)
      ensures this.mesh == mesh && mFlags == flags && mPlanes == []
    {
      this.mesh, mFlags, mPlanes := mesh, flags, [];
      mTouchedPrimitives := new Container();
    }

    ghost function Now(): State
      reads `mFlags, `mTouchedPrimitives, mTouchedPrimitives
    {
      State(mFlags, mTouchedPrimitives.entries)
    }

    ghost predicate Ready(clipmask: nat)
      reads `mFlags, `mPlanes
    {
      ValidMesh(mesh) && MaskFor(clipmask, |mPlanes|) && !mFlags.ContactFound()
    }

    lemma MaskIsWord(clipmask: nat)
      requires MaskFor(clipmask, |mPlanes|)
      ensures clipmask < 0x1_0000_0000
    {
      TopPower();
      PowerMonotone(|mPlanes|, 31);
    }

    /** PLANES_PRIM */
    method Prim(i: nat, clipmask: nat) returns (ghost r: seq<nat>)
      requires Ready(clipmask) && i < |mesh.faces|
      modifies `mFlags, mTouchedPrimitives
      ensures Searched(PlaneHits(mesh, mPlanes, clipmask), PlaneHits(mesh, mPlanes, clipmask), old(Now()), [i], r, Now())
    {
      hide ValidMesh, Searched, PlaneHits, TriPasses, Tri;
      ghost var s := Now();
      r := [];
      MaskIsWord(clipmask);
      var touch := PlanesTriOverlap(mPlanes, Tri(mesh, i), clipmask);
      if touch {
        mFlags := mFlags.Contact();
        mTouchedPrimitives.Add(i);
        r := [i];
      }
      PrimStep(mesh, mPlanes, clipmask, i, s, Now());
    }

    /** Below a node, with the mask narrowed by its ancestors: exactly the triangles
        PlanesTriOverlap accepts with that mask. */
    method Collide(nodes: seq<AABBCollisionNode>, id: nat, clipmask: nat, ghost t: Tree) returns (ghost r: seq<nat>)
      requires Ready(clipmask) && Encodes(nodes, id, t) && Encloses(mesh, t)
      modifies `mFlags, mTouchedPrimitives
      ensures Searched(PlaneHits(mesh, mPlanes, clipmask), PlaneHits(mesh, mPlanes, clipmask), old(Now()), Prims(t), r, Now())
      decreases t
    {
      hide Searched, PlaneHits, ValidMesh, CollisionBox, UpToFirst, Tagged, WordNode, WordPrimitive, BoxHasTriangle, BoxPasses, Active;
      ghost var s := Now();
      EncodesComplete(nodes, id, t);
      MaskIsWord(clipmask);
      var overlap, outMask := PlanesAABBOverlap(mPlanes, nodes[id].mAABB, clipmask);
      if !overlap {
        PruneCulled(mesh, mPlanes, clipmask, t, s);
        return [];
      }
      assert MaskFor(outMask, |mPlanes|);
      hide Narrowed;
      if outMask == 0 {
        mFlags := mFlags.Contact();
        Dump(mFlags, mTouchedPrimitives, nodes, id, t);
        DumpInside(mesh, mPlanes, clipmask, t, s, Now());
        return UpToFirst(s.flags.firstContact, Prims(t));
      }
      if nodes[id].IsLeaf() {
        assert Prims(t) == [nodes[id].GetPrimitive()];
        assert nodes[id].GetPrimitive() in Prims(t);
        r := Prim(nodes[id].GetPrimitive(), clipmask);
      } else {
        r := Collide(nodes, nodes[id].GetPos(), outMask, t.pos);
        ghost var half, r' := Now(), [];
        WidenMask(mesh, mPlanes, clipmask, outMask, t, t.pos, s, r, half);
        if !mFlags.ContactFound() {
          r' := Collide(nodes, nodes[id].GetNeg(), outMask, t.neg);
          WidenMask(mesh, mPlanes, clipmask, outMask, t, t.neg, half, r', Now());
        }
        SearchedJoin(PlaneHits(mesh, mPlanes, clipmask), PlaneHits(mesh, mPlanes, clipmask), s, Prims(t.pos), r, half, Prims(t.neg), r', Now());
        r := r + r';
      }
    }

    method CollideNoLeaf(nodes: seq<AABBNoLeafNode>, id: nat, clipmask: nat, ghost t: Tree) returns (ghost r: seq<nat>)
      requires Ready(clipmask) && EncodesNoLeaf(nodes, id, t) && Encloses(mesh, t)
      modifies `mFlags, mTouchedPrimitives
      ensures Searched(PlaneHits(mesh, mPlanes, clipmask), PlaneHits(mesh, mPlanes, clipmask), old(Now()), Prims(t), r, Now())
      decreases t, 0
    {
      hide Searched, PlaneHits, ValidMesh, CollisionBox, UpToFirst, EncodesChild, BoxHasTriangle, BoxPasses, Active;
      ghost var s := Now();
      ChildComplete(nodes, nodes[id].mData, t.pos);
      MaskIsWord(clipmask);
      var overlap, outMask := PlanesAABBOverlap(mPlanes, nodes[id].mAABB, clipmask);
      if !overlap {
        PruneCulled(mesh, mPlanes, clipmask, t, s);
        return [];
      }
      assert MaskFor(outMask, |mPlanes|);
      hide Narrowed;
      if outMask == 0 {
        mFlags := mFlags.Contact();
        DumpNoLeaf(mFlags, mTouchedPrimitives, nodes, id, t);
        DumpInside(mesh, mPlanes, clipmask, t, s, Now());
        return UpToFirst(s.flags.firstContact, Prims(t));
      }
      r := CollideChild(nodes, nodes[id].mData, clipmask, outMask, t, t.pos);
      ghost var half, r' := Now(), [];
      if !mFlags.ContactFound() {
        r' := CollideChild(nodes, nodes[id].mData2, clipmask, outMask, t, t.neg);
      }
      SearchedJoin(PlaneHits(mesh, mPlanes, clipmask), PlaneHits(mesh, mPlanes, clipmask), s, Prims(t.pos), r, half, Prims(t.neg), r', Now());
      r := r + r';
    }

    /** A leaf child is tested with the parent's mask, a node child with the narrowed one. */
    method CollideChild(nodes: seq<AABBNoLeafNode>, word: nat, clipmask: nat, outMask: nat, ghost t: Tree, ghost u: Tree)
      returns (ghost r: seq<nat>)
      requires Ready(clipmask) && MaskFor(outMask, |mPlanes|) && Narrowed(mPlanes, CollisionBox(t.box), clipmask, outMask)
      requires t.Node? && (u == t.pos || u == t.neg) && EncodesChild(nodes, word, u) && Encloses(mesh, t)
      modifies `mFlags, mTouchedPrimitives
      ensures Searched(PlaneHits(mesh, mPlanes, clipmask), PlaneHits(mesh, mPlanes, clipmask), old(Now()), Prims(u), r, Now())
      decreases u, 1
    {
      hide Searched, PlaneHits, ValidMesh, BoxHasTriangle, CollisionBox, Tagged, WordPrimitive, WordNode, EncodesNoLeaf, Narrowed;
      ghost var s := Now();
      if Tagged(word) {
        assert Prims(u) == [WordPrimitive(word)];
        assert WordPrimitive(word) in Prims(u);
        r := Prim(WordPrimitive(word), clipmask);
      } else {
        r := CollideNoLeaf(nodes, WordNode(word), outMask, u);
        WidenMask(mesh, mPlanes, clipmask, outMask, t, u, s, r, Now());
      }
    }

    /** InitQuery: the planes are copied or transformed one by one; the cached face is tested
        with the full mask. */
    method InitQuery(touched: Container, planes: seq<Plane>, worldm: Option<Motion>, ghost ps: seq<nat>) returns (contact: bool)
      requires ValidMesh(mesh) && |planes| <= 31
      requires CacheUsable(mFlags, mesh, touched.entries) && CacheWithin(mFlags, touched.entries, ps)
      modifies this, touched
      ensures mTouchedPrimitives == touched && mPlanes == ModelPlanes(planes, worldm) && contact == mFlags.contact
      ensures mFlags == old(mFlags).(contact := contact, temporalHit := false)
      ensures !contact ==> Ready(FullMask(|planes|)) && touched.entries == []
      ensures contact <==> (
        && old(mFlags).temporalCoherence && old(mFlags).firstContact && old(touched.entries) != []
        && old(touched.entries)[0] in PlaneHits(mesh, ModelPlanes(planes, worldm), FullMask(|planes|)))
      ensures contact ==> touched.entries == [old(touched.entries)[0]]
      ensures contact ==>
        var hits := PlaneHits(mesh, ModelPlanes(planes, worldm), FullMask(|planes|)); Answered(hits, hits, true, ps, touched.entries, true)
    {
      hide ValidMesh, TriPasses, Tri, FullMask, TransformPlane, Invert;
      mFlags := mFlags.InitQueryEx();
      mPlanes := planes;
      if worldm.Some? {
        mPlanes := [];
        for i := 0 to |planes|
          invariant mFlags == old(mFlags).InitQueryEx() && mTouchedPrimitives == old(mTouchedPrimitives)
          invariant |mPlanes| == i && forall k :: 0 <= k < i ==> mPlanes[k] == TransformPlane(planes[k], Invert(worldm.value))
          invariant touched.entries == old(touched.entries)
        {
          mPlanes := mPlanes + [TransformPlane(planes[i], Invert(worldm.value))];
        }
        assert mPlanes == ModelPlanes(planes, worldm);
      }
      mTouchedPrimitives := touched;
      FullMaskFits(|planes|);
      if mFlags.temporalCoherence && mFlags.firstContact && |touched.entries| != 0 {
        var previous := touched.entries[0];
        mTouchedPrimitives.Reset();
        MaskIsWord(FullMask(|planes|));
        var touch := PlanesTriOverlap(mPlanes, Tri(mesh, previous), FullMask(|planes|));
        if touch {
          mFlags := mFlags.Contact();
          mTouchedPrimitives.Add(previous);
        }
      } else {
        mTouchedPrimitives.Reset();
      }
      return mFlags.contact;
    }

    /** The whole query: refused without planes; otherwise the triangles not culled by the
        plane set, in tree order (one of them in first-contact mode). */
    method CollidePlanes(touched: Container, planes: seq<Plane>, worldm: Option<Motion>, nodes: seq<AABBCollisionNode>, ghost t: Tree) returns (ok: bool)
      requires ValidMesh(mesh) && Encodes(nodes, 0, t) && Encloses(mesh, t) && |planes| <= 31
      requires CacheUsable(mFlags, mesh, touched.entries) && CacheWithin(mFlags, touched.entries, Prims(t))
      modifies this, touched
      ensures ok <==> planes != []
      ensures ok ==> var hits := PlaneHits(mesh, ModelPlanes(planes, worldm), FullMask(|planes|));
        && Answered(hits, hits, mFlags.firstContact, Prims(t), touched.entries, mFlags.contact)
        && touched.entries == ExactList(hits, old(mFlags), old(touched.entries), Prims(t))
      ensures mFlags == if ok then old(mFlags).(contact := touched.entries != [], temporalHit := false) else old(mFlags)
      ensures !ok ==> touched.entries == old(touched.entries)
    {
      hide ValidMesh, Searched, Encodes, Encloses, Answered, PlaneHits, FullMask, UpToFirst, Filter;
      if |planes| == 0 { return false; }
      var contact := InitQuery(touched, planes, worldm, Prims(t));
      if contact { return true; }
      ghost var s := Now();
      ghost var r := Collide(nodes, 0, FullMask(|planes|), t);
      ghost var hits := PlaneHits(mesh, ModelPlanes(planes, worldm), FullMask(|planes|));
      SearchAnswers(hits, hits, s, Prims(t), r, Now());
      ExactSearch(hits, s, Prims(t), r, Now());
      return true;
    }

    method CollidePlanesNoLeaf(touched: Container, planes: seq<Plane>, worldm: Option<Motion>, nodes: seq<AABBNoLeafNode>, ghost t: Tree) returns (ok: bool)
      requires ValidMesh(mesh) && EncodesNoLeaf(nodes, 0, t) && Encloses(mesh, t) && |planes| <= 31
      requires CacheUsable(mFlags, mesh, touched.entries) && CacheWithin(mFlags, touched.entries, Prims(t))
      modifies this, touched
      ensures ok <==> planes != []
      ensures ok ==> var hits := PlaneHits(mesh, ModelPlanes(planes, worldm), FullMask(|planes|));
        && Answered(hits, hits, mFlags.firstContact, Prims(t), touched.entries, mFlags.contact)
        && touched.entries == ExactList(hits, old(mFlags), old(touched.entries), Prims(t))
      ensures mFlags == if ok then old(mFlags).(contact := touched.entries != [], temporalHit := false) else old(mFlags)
      ensures !ok ==> touched.entries == old(touched.entries)
    {
      hide ValidMesh, Searched, EncodesNoLeaf, Encloses, Answered, PlaneHits, FullMask, UpToFirst, Filter;
      if |planes| == 0 { return false; }
      var contact := InitQuery(touched, planes, worldm, Prims(t));
      if contact { return true; }
      ghost var s := Now();
      ghost var r := CollideNoLeaf(nodes, 0, FullMask(|planes|), t);
      ghost var hits := PlaneHits(mesh, ModelPlanes(planes, worldm), FullMask(|planes|));
      SearchAnswers(hits, hits, s, Prims(t), r, Now());
      ExactSearch(hits, s, Prims(t), r, Now());
      return true;
    }
  }

  lemma FullMaskFits(n: nat)
    requires n <= 31
    ensures MaskFor(FullMask(n), n)
  {
    PowerPositive(n);
  }
}
