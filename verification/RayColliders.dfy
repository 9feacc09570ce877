/** Ray and segment queries (OPC_RayCollider.cpp): pruned traversal of both layouts, contact
    handling, closest hit, and the cached face of coherent queries. */
module RayColliders {
  import opened BoxBox
  import opened ColliderFlags
  import opened Geometry
  import opened Motions
  import opened OptimizedTrees
  import opened Options
  import opened RayBox
  import opened RayTri
  import opened Reals
  import opened Search
  import opened Trees

  datatype CollisionFace = CollisionFace(mFaceID: nat, stab: Stab)

  /** The settings and the ray of one query; maxDist == FLT_MAX selects the unbounded one. */
  datatype RayQuery = RayQuery(ray: Ray, culling: bool, closest: bool, stored: bool, maxDist: real) {
    predicate Bounded() { maxDist != FLT_MAX }

    /** A hit counts if it is not behind the origin nor, when bounded, at maxDist or beyond. */
    predicate ValidDistance(d: real) { 0.0 <= d && (Bounded() ==> d < maxDist) }

    predicate StabsTriangle(t: Triangle) {
      Accepts(ray, t, culling) && ValidDistance(StabOf(ray, t).mDistance)
    }
  }

  /** A hit that is not behind the origin, at whatever distance. */
  predicate AheadOf(ray: Ray, t: Triangle, culling: bool) {
    Accepts(ray, t, culling) && 0.0 <= StabOf(ray, t).mDistance
  }

  /** What the cached face must satisfy: a hit strictly between the origin and the maximum. */
  predicate StrictlyAhead(ray: Ray, t: Triangle, culling: bool, maxDist: real) {
    Accepts(ray, t, culling) && 0.0 < StabOf(ray, t).mDistance < maxDist
  }

  /** A first-contact query is answered by its cached face. */
  ghost predicate CacheSettles(m: Mesh, q: RayQuery, flags: Flags, cache: Option<nat>)
    requires ValidMesh(m)
  {
    && flags.temporalCoherence && flags.firstContact && cache.Some? && cache.value < |m.faces|
    && StrictlyAhead(q.ray, Tri(m, cache.value), q.culling, q.maxDist)
  }

  /** Brute force: the triangles RayTriOverlap accepts at a valid distance. */
  ghost function StabHits(m: Mesh, q: RayQuery): set<nat>
    requires ValidMesh(m)
  {
    set i: nat | i < |m.faces| && q.StabsTriangle(Tri(m, i))
  }

  /** What the counter can count: hits not behind the origin. */
  ghost function Countable(m: Mesh, q: RayQuery): set<nat>
    requires ValidMesh(m)
  {
    set i: nat | i < |m.faces| && AheadOf(q.ray, Tri(m, i), q.culling)
  }

  lemma MetAtDistance(ray: Ray, t: Triangle, culling: bool)
    ensures Accepts(ray, t, culling) <==> RayHits(ray, t, culling)
    ensures Accepts(ray, t, culling) ==>
      && Det(ray, t) != 0.0 && InTriangle(t, PointOnRay(ray, StabOf(ray, t).mDistance))
      && forall s :: InTriangle(t, PointOnRay(ray, s)) ==> s == StabOf(ray, t).mDistance
  {
    AcceptsIffHits(ray, t, culling);
    if Accepts(ray, t, culling) { DetNonZero(ray, t, culling); }
    hide Accepts, RayHits, InTriangle, Det, PointOnRay;
    assert Accepts(ray, t, culling) ==> InTriangle(t, PointOnRay(ray, StabOf(ray, t).mDistance));
  }

  /** What the list holds: the faces the ray's line meets as the culling mode asks for, at a
      point between the origin, included, and the maximum, excluded. */
  lemma StabHitsIff(m: Mesh, q: RayQuery, i: nat)
    requires ValidMesh(m)
    ensures i in StabHits(m, q) <==> (
      && i < |m.faces| && RayHits(q.ray, Tri(m, i), q.culling)
      && exists s :: 0.0 <= s && (q.maxDist == FLT_MAX || s < q.maxDist) && InTriangle(Tri(m, i), PointOnRay(q.ray, s)))
    ensures i in Countable(m, q) <==> (
      && i < |m.faces| && RayHits(q.ray, Tri(m, i), q.culling)
      && exists s :: 0.0 <= s && InTriangle(Tri(m, i), PointOnRay(q.ray, s)))
  {
    hide ValidMesh, Accepts, StabOf, RayHits, InTriangle, HitsAt, Tri, Det;
    if i < |m.faces| {
      MetAtDistance(q.ray, Tri(m, i), q.culling);
    }
  }

  /** A face settles a first-contact query from the cache when the ray meets it strictly
      between the origin and the maximum. */
  lemma CacheSettlesIff(m: Mesh, q: RayQuery, flags: Flags, cache: Option<nat>)
    requires ValidMesh(m)
    ensures CacheSettles(m, q, flags, cache) <==> (
      && flags.temporalCoherence && flags.firstContact && cache.Some? && cache.value < |m.faces|
      && RayHits(q.ray, Tri(m, cache.value), q.culling)
      && exists s :: 0.0 < s < q.maxDist && InTriangle(Tri(m, cache.value), PointOnRay(q.ray, s)))
  {
    hide ValidMesh, Accepts, StabOf, RayHits, InTriangle, HitsAt, Tri, Det;
    if cache.Some? && cache.value < |m.faces| {
      MetAtDistance(q.ray, Tri(m, cache.value), q.culling);
    }
  }

  function FaceOf(m: Mesh, q: RayQuery, i: nat): (f: CollisionFace)
    requires ValidMesh(m)
    ensures f.mFaceID == i
  {
    CollisionFace(i, if i < |m.faces| && Det(q.ray, Tri(m, i)) != 0.0 then StabOf(q.ray, Tri(m, i)) else Stab(0.0, 0.0, 0.0))
  }

  /** HANDLE_CONTACT on the stored faces. */
  function Handle(q: RayQuery, faces: seq<CollisionFace>, face: CollisionFace): seq<CollisionFace> {
    if !q.stored then faces
    else if !q.closest || faces == [] then faces + [face]
    else if face.stab.mDistance < faces[0].stab.mDistance then faces[0 := face]
    else faces
  }

  ghost function HandleAll(m: Mesh, q: RayQuery, faces: seq<CollisionFace>, r: seq<nat>): seq<CollisionFace>
    requires ValidMesh(m)
    decreases |r|
  {
    if r == [] then faces else HandleAll(m, q, Handle(q, faces, FaceOf(m, q, r[0])), r[1..])
  }

  lemma {:induction false} HandleJoin(m: Mesh, q: RayQuery, faces: seq<CollisionFace>, r: seq<nat>, r': seq<nat>)
    requires ValidMesh(m)
    ensures HandleAll(m, q, faces, r + r') == HandleAll(m, q, HandleAll(m, q, faces, r), r')
    decreases |r|
  {
    hide Handle, FaceOf, ValidMesh;
    if r == [] {
      assert r + r' == r';
    } else {
      assert (r + r')[1..] == r[1..] + r' && (r + r')[0] == r[0];
      HandleJoin(m, q, Handle(q, faces, FaceOf(m, q, r[0])), r[1..], r');
    }
  }

  predicate RayBVOverlap(q: RayQuery, b: CollisionAABB) {
    if q.Bounded() then SegmentAABBOverlap(HalfSegment(q.ray, q.maxDist), MidPoint(q.ray, q.maxDist), b)
    else RayAABBOverlap(q.ray, b)
  }

  /** The primitives of the leaves a search reaches, in order, if nothing stops it: those below
      boxes the ray test accepts. Leaves have boxes of their own in the implicit layout only. */
  function Visited(q: RayQuery, t: Tree, leafBoxes: bool): seq<nat> {
    if (t.Node? || leafBoxes) && !RayBVOverlap(q, CollisionBox(t.box)) then []
    else match t
      case Leaf(_, ps) => ps
      case Node(_, p, n) => Visited(q, p, leafBoxes) + Visited(q, n, leafBoxes)
  }

  /** The ray, up to the maximal distance if there is one, meets the box. */
  ghost predicate Meets(q: RayQuery, b: CollisionAABB) {
    exists s :: 0.0 <= s && (q.maxDist == FLT_MAX || s <= q.maxDist) && BoxHas(b, PointOnRay(q.ray, s))
  }

  /** In a leaf that the ray gets to, meeting every box on the way from the root. */
  ghost predicate Reached(q: RayQuery, t: Tree, i: nat, leafBoxes: bool) {
    && (t.Node? || leafBoxes ==> Meets(q, CollisionBox(t.box)))
    && match t
       case Leaf(_, ps) => i in ps
       case Node(_, p, n) => Reached(q, p, i, leafBoxes) || Reached(q, n, i, leafBoxes)
  }

  lemma {:induction false} VisitedIff(m: Mesh, q: RayQuery, t: Tree, i: nat, leafBoxes: bool)
    requires ValidMesh(m) && Encloses(m, t) && Complete(t) && 0.0 <= q.maxDist
    ensures i in Visited(q, t, leafBoxes) <==> Reached(q, t, i, leafBoxes)
  {
    BoxMet(m, q, t);
    hide CollisionBox, BoxHasTriangle, RayBVOverlap, ValidMesh, Tri, Meets;
    if t.Node? {
      VisitedIff(m, q, t.pos, i, leafBoxes);
      VisitedIff(m, q, t.neg, i, leafBoxes);
    }
  }

  lemma BoxMet(m: Mesh, q: RayQuery, t: Tree)
    requires ValidMesh(m) && Encloses(m, t) && Complete(t) && 0.0 <= q.maxDist
    ensures RayBVOverlap(q, CollisionBox(t.box)) <==> Meets(q, CollisionBox(t.box))
  {
    var b := CollisionBox(t.box);
    CompletePrims(t);
    var f := Prims(t)[0];
    assert f in Prims(t);
    assert BoxHasTriangle(b, Tri(m, f));
    hide CollisionBox, ValidMesh, Tri;
    assert ValidBox(b);
    hide BoxHasTriangle;
    if q.Bounded() { SegmentQueryIff(q.ray, q.maxDist, b); } else { RayQueryIff(q.ray, b); }
    hide BoxHas, SegmentAABBOverlap, RayAABBOverlap, PointOnRay, HalfSegment, MidPoint;
  }

  lemma {:induction false} CompletePrims(t: Tree)
    requires Complete(t)
    ensures Prims(t) != []
  {
    if t.Node? { CompletePrims(t.pos); }
  }

  /** How many of the visited primitives are counted, up to a first hit in first-contact mode. */
  function Counted(hits: set<nat>, countable: set<nat>, first: bool, vs: seq<nat>): nat {
    if vs == [] then 0
    else (if vs[0] in countable then 1 else 0) + if first && vs[0] in hits then 0 else Counted(hits, countable, first, vs[1..])
  }

  predicate AnyHit(hits: set<nat>, vs: seq<nat>) { exists i :: i in vs && i in hits }

  lemma {:induction false} CountedJoin(hits: set<nat>, countable: set<nat>, first: bool, vs: seq<nat>, ws: seq<nat>)
    ensures Counted(hits, countable, first, vs + ws) ==
      Counted(hits, countable, first, vs) + if first && AnyHit(hits, vs) then 0 else Counted(hits, countable, first, ws)
  {
    if vs == [] {
      assert vs + ws == ws;
    } else {
      assert (vs + ws)[0] == vs[0] && (vs + ws)[1..] == vs[1..] + ws;
      assert forall i :: i in vs <==> i == vs[0] || i in vs[1..];
      CountedJoin(hits, countable, first, vs[1..], ws);
    }
  }

  lemma OneCounted(hits: set<nat>, countable: set<nat>, first: bool, i: nat)
    ensures Counted(hits, countable, first, [i]) == (if i in countable then 1 else 0) == |Filter(countable, [i])|
  {
    assert [i][1..] == [];
  }

  /** In all-contacts mode the count is that of a brute-force list over the visited ones. */
  lemma {:induction false} AllCounted(hits: set<nat>, countable: set<nat>, vs: seq<nat>)
    ensures Counted(hits, countable, false, vs) == |Filter(countable, vs)|
  {
    if vs != [] { AllCounted(hits, countable, vs[1..]); }
  }

  /** What a query changes. */
  datatype RayState = RayState(flags: Flags, faces: seq<CollisionFace>, mNbIntersections: nat)

  /** A search over `ps` that visits `vs` found the hits `r`, in order, and handled each of them.
      The counter counts the visited hits not behind the origin: the hits found, and in a
      bounded query also those beyond the segment. */
  ghost predicate Stabbed(m: Mesh, q: RayQuery, s: RayState, ps: seq<nat>, vs: seq<nat>, r: seq<nat>, s': RayState)
    requires ValidMesh(m)
  {
    && s'.flags == (if r == [] then s.flags else s.flags.Contact())
    && s'.faces == HandleAll(m, q, s.faces, r)
    && s.mNbIntersections + |r| <= s'.mNbIntersections
    && s'.mNbIntersections <= s.mNbIntersections + |Filter(Countable(m, q), ps)|
    && (!q.Bounded() ==> s'.mNbIntersections == s.mNbIntersections + |r|)
    && s'.mNbIntersections == s.mNbIntersections + Counted(StabHits(m, q), Countable(m, q), s.flags.firstContact, vs)
    && (r != [] <==> AnyHit(StabHits(m, q), vs))
    && Reports(StabHits(m, q), StabHits(m, q), s.flags.firstContact, ps, r)
  }

  lemma StabbedJoin(m: Mesh, q: RayQuery, s: RayState, ps: seq<nat>, vs: seq<nat>, r: seq<nat>, s': RayState,
                    qs: seq<nat>, ws: seq<nat>, r': seq<nat>, s'': RayState)
    requires ValidMesh(m) && !s.flags.ContactFound() && Stabbed(m, q, s, ps, vs, r, s')
    requires if s'.flags.ContactFound() then r' == [] && s'' == s' else Stabbed(m, q, s', qs, ws, r', s'')
    ensures Stabbed(m, q, s, ps + qs, vs + ws, r + r', s'')
  {
    hide StabHits, Countable, ValidMesh;
    FilterJoin(Countable(m, q), ps, qs);
    ReportsJoin(StabHits(m, q), StabHits(m, q), s.flags.firstContact, ps, r, qs, r');
    HandleJoin(m, q, s.faces, r, r');
    CountedJoin(StabHits(m, q), Countable(m, q), s.flags.firstContact, vs, ws);
    assert forall i :: i in vs + ws <==> i in vs || i in ws;
    assert r + [] == r;
    hide Reports, HandleAll, Filter, Counted;
  }

  // ------------------------------------------------------------------- pruning

  /** A stabbed triangle keeps every box that holds it. */
  lemma StabKeepsBox(q: RayQuery, b: CollisionAABB, t: Triangle)
    requires BoxHasTriangle(b, t) && q.StabsTriangle(t)
    ensures RayBVOverlap(q, b)
  {
    AcceptsIffHits(q.ray, t, q.culling);
    var h := StabOf(q.ray, t);
    assert HitsAt(q.ray, t, h.mU, h.mV, h.mDistance);
    assert InTriangle(t, PointOnRay(q.ray, h.mDistance)) by {
      assert Bary(h.mU, h.mV) && PointOnRay(q.ray, h.mDistance) == At(t, h.mU, h.mV);
    }
    hide Accepts, StabOf, At, PointOnRay, BoxHas, SegmentAABBOverlap, RayAABBOverlap, InTriangle, HalfSegment, MidPoint, Det;
    BoxHoldsTrianglePoints(b, t, PointOnRay(q.ray, h.mDistance));
    if q.Bounded() {
      SegmentQuerySound(q.ray, q.maxDist, h.mDistance, b);
    } else {
      RayQuerySound(q.ray, h.mDistance, b);
    }
  }

  lemma PruneMissed(m: Mesh, q: RayQuery, t: Tree, s: RayState)
    requires ValidMesh(m) && Encloses(m, t) && !RayBVOverlap(q, CollisionBox(t.box))
    ensures Stabbed(m, q, s, Prims(t), [], [], s)
  {
    hide CollisionBox, BoxHasTriangle, RayBVOverlap, ValidMesh, StabHits, Countable, Filter;
    MissedBox(m, q, t);
    ReportNothing(StabHits(m, q), StabHits(m, q), s.flags.firstContact, Prims(t));
  }

  lemma PrimStep(m: Mesh, q: RayQuery, i: nat, s: RayState, s': RayState)
    requires ValidMesh(m) && i < |m.faces|
    requires q.StabsTriangle(Tri(m, i)) ==>
      s' == RayState(s.flags.Contact(), Handle(q, s.faces, FaceOf(m, q, i)), s'.mNbIntersections)
    requires !q.StabsTriangle(Tri(m, i)) ==> s' == s.(mNbIntersections := s'.mNbIntersections)
    requires s'.mNbIntersections == s.mNbIntersections + if AheadOf(q.ray, Tri(m, i), q.culling) then 1 else 0
    ensures Stabbed(m, q, s, [i], [i], if q.StabsTriangle(Tri(m, i)) then [i] else [], s')
  {
    hide ValidMesh, Tri, Accepts, StabOf, Handle, FaceOf;
    var hits := StabHits(m, q);
    assert [i][1..] == [] && i in [i];
    assert AnyHit(hits, [i]) <==> i in hits;
    assert i in hits <==> q.StabsTriangle(Tri(m, i));
    assert i in Countable(m, q) <==> AheadOf(q.ray, Tri(m, i), q.culling);
    OneCounted(hits, Countable(m, q), s.flags.firstContact, i);
    hide Counted, Filter, StabHits, Countable, AnyHit;
    if q.StabsTriangle(Tri(m, i)) {
      ReportAll(hits, hits, s.flags.firstContact, [i]);
      assert HandleAll(m, q, s.faces, [i]) == HandleAll(m, q, Handle(q, s.faces, FaceOf(m, q, i)), [i][1..]);
    } else {
      ReportNothing(hits, hits, s.flags.firstContact, [i]);
    }
    hide Reports;
  }

  /** The leaves not visited hold no hit. */
  lemma {:induction false} VisitedHits(m: Mesh, q: RayQuery, t: Tree, leafBoxes: bool)
    requires ValidMesh(m) && Encloses(m, t)
    ensures Filter(StabHits(m, q), Visited(q, t, leafBoxes)) == Filter(StabHits(m, q), Prims(t))
  {
    hide CollisionBox, BoxHasTriangle, RayBVOverlap, ValidMesh, Tri, StabHits, Filter;
    var hits := StabHits(m, q);
    if (t.Node? || leafBoxes) && !RayBVOverlap(q, CollisionBox(t.box)) {
      MissedBox(m, q, t);
      NoneFiltered(hits, Prims(t));
      NoneFiltered(hits, []);
    } else if t.Node? {
      VisitedHits(m, q, t.pos, leafBoxes);
      VisitedHits(m, q, t.neg, leafBoxes);
      FilterJoin(hits, Visited(q, t.pos, leafBoxes), Visited(q, t.neg, leafBoxes));
      FilterJoin(hits, Prims(t.pos), Prims(t.neg));
    }
  }

  lemma MissedBox(m: Mesh, q: RayQuery, t: Tree)
    requires ValidMesh(m) && Encloses(m, t) && !RayBVOverlap(q, CollisionBox(t.box))
    ensures forall i :: i in Prims(t) ==> i !in StabHits(m, q)
  {
    hide CollisionBox, BoxHasTriangle, RayBVOverlap, ValidMesh, Tri, Accepts, StabOf;
    forall i | i in Prims(t) ensures i !in StabHits(m, q) {
      if i in StabHits(m, q) { StabKeepsBox(q, CollisionBox(t.box), Tri(m, i)); }
    }
  }

  lemma {:induction false} NoneFiltered(hits: set<nat>, ps: seq<nat>)
    requires forall i :: i in ps ==> i !in hits
    ensures Filter(hits, ps) == []
  {
    if ps != [] { NoneFiltered(hits, ps[1..]); }
  }

  // ---------------------------------------------------------------- world space

  /** The ray in model space: the direction by the transposed rotation, the origin by the
      inverse matrix. */
  function ModelRay(worldRay: Ray, world: Option<Motion>): Ray {
    match world
    case None => worldRay
    case Some(w) => Ray(Apply(Invert(w), worldRay.mOrigin), Rotate(worldRay.mDir, Transpose(w.rot)))
  }

  lemma MovedEdges(w: Motion, ray: Ray, t: Triangle)
    requires IsMotion(w)
    ensures var m := ModelRay(ray, Some(w)); var t' := Move(w, t);
      && Sub(t'.v1, t'.v0) == Rotate(Sub(t.v1, t.v0), w.rot) && Sub(t'.v2, t'.v0) == Rotate(Sub(t.v2, t.v0), w.rot)
      && ray.mDir == Rotate(m.mDir, w.rot) && Sub(ray.mOrigin, t'.v0) == Rotate(Sub(m.mOrigin, t.v0), w.rot)
  {
    var m := ModelRay(ray, Some(w));
    Projections(ray.mDir, w.rot);
    InvertUndoes(w, ray.mOrigin);
    hide IsRotation, Invert;
    DifferenceMoves(w, t.v1, t.v0);
    DifferenceMoves(w, t.v2, t.v0);
    DifferenceMoves(w, m.mOrigin, t.v0);
    hide Rotate, Transpose, Sub;
  }

  /** The triangle test gives the same answer, distance and coordinates in model space as it
      would in world space on the placed triangle. */
  lemma StabInWorld(ray: Ray, world: Option<Motion>, t: Triangle, culling: bool)
    requires ValidWorld(world)
    ensures Accepts(ModelRay(ray, world), t, culling) <==> Accepts(ray, Placed(world, t), culling)
    ensures Accepts(ray, Placed(world, t), culling) ==>
      Det(ray, Placed(world, t)) != 0.0 && Det(ModelRay(ray, world), t) != 0.0 && StabOf(ModelRay(ray, world), t) == StabOf(ray, Placed(world, t))
  {
    if world.Some? {
      var w := world.value;
      var m, t' := ModelRay(ray, world), Move(w, t);
      MovedEdges(w, ray, t);
      var e1, e2, o, d := Sub(t.v1, t.v0), Sub(t.v2, t.v0), Sub(m.mOrigin, t.v0), m.mDir;
      TripleKept(e1, d, e2, w.rot);
      TripleKept(o, d, e2, w.rot);
      TripleKept(d, o, e1, w.rot);
      TripleKept(e2, o, e1, w.rot);
      assert Det(ray, t') == Det(m, t) && NumU(ray, t') == NumU(m, t) && NumV(ray, t') == NumV(m, t) && NumT(ray, t') == NumT(m, t);
    }
    hide Det, NumU, NumV, NumT, ModelRay, Move;
  }

  // ------------------------------------------------------------- whole answers

  /** The answer of a whole stabbing query, in terms of brute force. */
  ghost predicate RayAnswered(m: Mesh, q: RayQuery, ps: seq<nat>, s: RayState)
    requires ValidMesh(m)
  {
    var hits := StabHits(m, q);
    && (s.flags.contact <==> exists p :: p in ps && p in hits)
    && s.mNbIntersections <= |Filter(Countable(m, q), ps)|
    && if s.flags.firstContact then
         if q.stored && s.flags.contact then
           |s.faces| == 1 && s.faces[0].mFaceID in ps && s.faces[0].mFaceID in hits && s.faces[0] == FaceOf(m, q, s.faces[0].mFaceID)
         else s.faces == []
       else
         && s.faces == HandleAll(m, q, [], Filter(hits, ps))
         && |Filter(hits, ps)| <= s.mNbIntersections
         && (!q.Bounded() ==> s.mNbIntersections == |Filter(hits, ps)|)
  }

  lemma StabAnswers(m: Mesh, q: RayQuery, s: RayState, ps: seq<nat>, vs: seq<nat>, r: seq<nat>, s': RayState)
    requires ValidMesh(m) && Stabbed(m, q, s, ps, vs, r, s')
    requires !s.flags.contact && s.faces == [] && s.mNbIntersections == 0
    ensures RayAnswered(m, q, ps, s') && s'.flags == s.flags.(contact := s'.flags.contact)
    ensures s'.mNbIntersections == Counted(StabHits(m, q), Countable(m, q), s.flags.firstContact, vs)
    ensures q.stored && s'.flags.contact ==> s'.faces != []
    ensures s'.faces == HandleAll(m, q, [], UpToFirst(s.flags.firstContact, Filter(StabHits(m, q), ps)))
  {
    hide StabHits, ValidMesh, FaceOf;
    var hits := StabHits(m, q);
    ExactReport(hits, s.flags.firstContact, ps, r);
    var all := Filter(hits, ps);
    if all != [] { FilterMembers(hits, ps, all[0]); }
    forall p | p in ps && p in hits ensures all != [] { FilterMembers(hits, ps, p); }
    hide Reports, Filter;
    if q.stored && r != [] { NothingLost(m, q, [], r); }
    if s.flags.firstContact && all != [] {
      assert r == [all[0]];
      HandleFirst(m, q, r);
    }
    assert HandleAll(m, q, [], []) == [];
    hide HandleAll;
  }

  lemma HandleFirst(m: Mesh, q: RayQuery, r: seq<nat>)
    requires ValidMesh(m) && r != []
    ensures HandleAll(m, q, [], r) == HandleAll(m, q, if q.stored then [FaceOf(m, q, r[0])] else [], r[1..])
    ensures |r| == 1 ==> HandleAll(m, q, [], r) == if q.stored then [FaceOf(m, q, r[0])] else []
  {
    assert Handle(q, [], FaceOf(m, q, r[0])) == if q.stored then [FaceOf(m, q, r[0])] else [];
    hide FaceOf, Handle;
  }

  lemma {:induction false} NothingLost(m: Mesh, q: RayQuery, faces: seq<CollisionFace>, r: seq<nat>)
    requires ValidMesh(m) && q.stored && (r != [] || faces != [])
    ensures HandleAll(m, q, faces, r) != []
    decreases |r|
  {
    if r != [] { NothingLost(m, q, Handle(q, faces, FaceOf(m, q, r[0])), r[1..]); }
  }

  /** A cached face that still stabs is a valid first contact. */
  lemma CachedAnswer(m: Mesh, q: RayQuery, ps: seq<nat>, i: nat, s: RayState)
    requires ValidMesh(m) && i < |m.faces| && i in ps && s.flags.firstContact && s.flags.contact
    requires Accepts(q.ray, Tri(m, i), q.culling) && 0.0 < StabOf(q.ray, Tri(m, i)).mDistance < q.maxDist
    requires s.mNbIntersections == 0
    requires s.faces == if q.stored then [CollisionFace(i, StabOf(q.ray, Tri(m, i)))] else []
    ensures RayAnswered(m, q, ps, s) && s.faces == HandleAll(m, q, [], [i])
  {
    HandleFirst(m, q, [i]);
    hide Accepts, StabOf, Tri, ValidMesh, HandleAll, Filter;
    assert i in StabHits(m, q);
    assert FaceOf(m, q, i) == CollisionFace(i, StabOf(q.ray, Tri(m, i))) by { DetNonZero(q.ray, Tri(m, i), q.culling); }
  }

  lemma {:induction false} HandleKeepsAll(m: Mesh, q: RayQuery, faces: seq<CollisionFace>, r: seq<nat>)
    requires ValidMesh(m) && q.stored && !q.closest
    ensures HandleAll(m, q, faces, r) == faces + seq(|r|, k requires 0 <= k < |r| => FaceOf(m, q, r[k]))
    decreases |r|
  {
    hide FaceOf, ValidMesh;
    if r != [] {
      HandleKeepsAll(m, q, Handle(q, faces, FaceOf(m, q, r[0])), r[1..]);
    }
  }

  /** All-contacts mode: the stored faces are exactly the brute-force hits, in tree order, and
      each one's ray point at its distance is its barycentric point. */
  lemma AllStabbedFaces(m: Mesh, q: RayQuery, ps: seq<nat>, s: RayState)
    requires ValidMesh(m) && RayAnswered(m, q, ps, s) && !s.flags.firstContact && q.stored && !q.closest
    ensures var all := Filter(StabHits(m, q), ps);
      && |s.faces| == |all|
      && (forall k :: 0 <= k < |all| ==> s.faces[k].mFaceID == all[k])
      && (forall k :: 0 <= k < |all| ==> IsHit(m, q, s.faces[k]))
  {
    hide FaceOf, IsHit, StabHits, ValidMesh;
    var all := Filter(StabHits(m, q), ps);
    HandleKeepsAll(m, q, [], all);
    forall k | 0 <= k < |all| ensures s.faces[k].mFaceID == all[k] && IsHit(m, q, s.faces[k]) {
      assert all[k] in all;
      FilterMembers(StabHits(m, q), ps, all[k]);
      HitFace(m, q, all[k]);
    }
  }

  /** The stored face is a hit: its ray point at its distance is its barycentric point. */
  predicate IsHit(m: Mesh, q: RayQuery, f: CollisionFace)
    requires ValidMesh(m)
  {
    && f.mFaceID < |m.faces| && q.ValidDistance(f.stab.mDistance)
    && HitsAt(q.ray, Tri(m, f.mFaceID), f.stab.mU, f.stab.mV, f.stab.mDistance)
  }

  lemma HitFace(m: Mesh, q: RayQuery, i: nat)
    requires ValidMesh(m) && i in StabHits(m, q)
    ensures FaceOf(m, q, i).mFaceID == i && IsHit(m, q, FaceOf(m, q, i))
  {
    hide ValidMesh, Tri, HitsAt;
    DetNonZero(q.ray, Tri(m, i), q.culling);
    AcceptsIffHits(q.ray, Tri(m, i), q.culling);
    hide Accepts, StabOf, Det;
  }

  /** The k-th of the faces is nearest, and strictly nearer than those before it. */
  ghost predicate FirstNearest(m: Mesh, q: RayQuery, r: seq<nat>, k: nat)
    requires ValidMesh(m)
  {
    k < |r| && forall j :: 0 <= j < |r| ==>
      var d, e := FaceOf(m, q, r[k]).stab.mDistance, FaceOf(m, q, r[j]).stab.mDistance; d <= e && (j < k ==> d < e)
  }

  lemma CachedFaceStored(m: Mesh, q: RayQuery, ps: seq<nat>, s: RayState)
    requires ValidMesh(m) && RayAnswered(m, q, ps, s) && s.flags.firstContact && s.flags.contact
    ensures q.stored ==> s.faces != []
  {
    hide ValidMesh, StabHits, Countable, Filter, HandleAll;
  }

  lemma {:induction false} KeepsNearest(m: Mesh, q: RayQuery, r: seq<nat>) returns (k: nat)
    requires ValidMesh(m) && q.stored && q.closest && r != []
    ensures FirstNearest(m, q, r, k) && HandleAll(m, q, [], r) == [FaceOf(m, q, r[k])]
    decreases |r|
  {
    hide ValidMesh, Tri, StabOf, Det;
    var n := |r| - 1;
    var front, last := r[..n], r[n];
    assert r == front + [last] && [last][1..] == [];
    HandleJoin(m, q, [], front, [last]);
    var before := HandleAll(m, q, [], front);
    assert HandleAll(m, q, before, [last]) == HandleAll(m, q, Handle(q, before, FaceOf(m, q, last)), []);
    if n == 0 {
      k := 0;
    } else {
      k := KeepsNearest(m, q, front);
      if FaceOf(m, q, last).stab.mDistance < FaceOf(m, q, r[k]).stab.mDistance { k := n; }
    }
    hide HandleAll, FaceOf;
  }

  /** Closest-hit mode: one stored face if there is a hit, the first of the nearest in tree
      order; none otherwise. */
  lemma ClosestStabbedFace(m: Mesh, q: RayQuery, ps: seq<nat>, s: RayState)
    requires ValidMesh(m) && RayAnswered(m, q, ps, s) && !s.flags.firstContact && q.stored && q.closest
    ensures |s.faces| == if s.flags.contact then 1 else 0
    ensures s.flags.contact ==> exists k: nat ::
      FirstNearest(m, q, Filter(StabHits(m, q), ps), k) && s.faces == [FaceOf(m, q, Filter(StabHits(m, q), ps)[k])]
    ensures s.flags.contact ==> IsHit(m, q, s.faces[0]) && s.faces[0].mFaceID in ps
  {
    hide ValidMesh, StabHits, FirstNearest, IsHit, FaceOf;
    var hits := StabHits(m, q);
    var all := Filter(hits, ps);
    forall p | p in ps && p in hits ensures p in all { FilterMembers(hits, ps, p); }
    if all != [] {
      var k := KeepsNearest(m, q, all);
      assert k < |all| by { NearestIndex(m, q, all, k); }
      assert all[k] in all;
      FilterMembers(hits, ps, all[k]);
      HitFace(m, q, all[k]);
    }
    hide HandleAll;
  }

  lemma NearestIndex(m: Mesh, q: RayQuery, r: seq<nat>, k: nat)
    requires ValidMesh(m) && FirstNearest(m, q, r, k)
    ensures k < |r|
  {}

  /** Unbounded all-contacts query over a tree holding every face once: the counter is the
      number of faces hit at a non-negative distance. */
  lemma IntersectionCount(m: Mesh, q: RayQuery, ps: seq<nat>, s: RayState)
    requires ValidMesh(m) && RayAnswered(m, q, ps, s) && !s.flags.firstContact && !q.Bounded()
    requires (forall i, j :: 0 <= i < j < |ps| ==> ps[i] != ps[j]) && (forall i: nat :: i < |m.faces| ==> i in ps)
    ensures s.mNbIntersections == |StabHits(m, q)|
    ensures StabHits(m, q) == set i: nat | i < |m.faces| && Accepts(q.ray, Tri(m, i), q.culling) && 0.0 <= StabOf(q.ray, Tri(m, i)).mDistance
  {
    hide ValidMesh, Tri, Accepts, StabOf;
    FilterSize(StabHits(m, q), ps);
    hide HandleAll;
  }

  class CollisionFaces {
    var faces: seq<CollisionFace>

    constructor ()
      ensures faces == []
    {
      faces := [];
    }

    method Reset()
      modifies this
      ensures faces == []
    {
      faces := [];
    }

    method AddFace(face: CollisionFace)
      modifies this
      ensures faces == old(faces) + [face]
    {
      faces := faces + [face];
    }
  }

  class RayCollider {
    const mesh: Mesh
    var mFlags: Flags
    var ray: Ray
    var mData: Point
    var mData2: Point
    var mMaxDist: real
    var mClosestHit: bool
    var mCulling: bool
    var mStabbedFace: CollisionFace
    var mStabbedFaces: CollisionFaces?
    var mNbIntersections: nat

    constructor (mesh: Mesh, flags: Flags, maxDist: real, closestHit: bool, culling: bool, destination: CollisionFaces?)
      ensures this.mesh == mesh && mFlags == flags && mMaxDist == maxDist && mClosestHit == closestHit
      ensures mCulling == culling && mStabbedFaces == destination
    {
      var zero := Point(0.0, 0.0, 0.0);
      this.mesh, mFlags, mMaxDist, mClosestHit, mCulling, mStabbedFaces := mesh, flags, maxDist, closestHit, culling, destination;
      ray, mData, mData2 := Ray(zero, zero), zero, zero;
      mStabbedFace, mNbIntersections := CollisionFace(0, Stab(0.0, 0.0, 0.0)), 0;
    }

    ghost function Query(): RayQuery
      reads `ray, `mCulling, `mClosestHit, `mStabbedFaces, `mMaxDist
    {
      RayQuery(ray, mCulling, mClosestHit, mStabbedFaces != null, mMaxDist)
    }

    ghost function Now(): RayState
      reads `mFlags, `mStabbedFaces, mStabbedFaces, `mNbIntersections
    {
      RayState(mFlags, if mStabbedFaces == null then [] else mStabbedFaces.faces, mNbIntersections)
    }

    ghost predicate Ready()
      reads `mFlags, `ray, `mMaxDist, `mData, `mData2
    {
      && ValidMesh(mesh) && 0.0 <= mMaxDist && !mFlags.ContactFound()
      && (mMaxDist != FLT_MAX ==> mData == HalfSegment(ray, mMaxDist) && mData2 == MidPoint(ray, mMaxDist))
    }

    /** HANDLE_CONTACT: the scratch face becomes the stored one, or replaces the closest. */
    method HandleContact(prim: nat)
      modifies `mFlags, `mStabbedFace, mStabbedFaces
      ensures mStabbedFace == old(mStabbedFace) || mStabbedFace == old(mStabbedFace).(mFaceID := prim)
      ensures Now() == RayState(old(mFlags).Contact(), Handle(Query(), old(Now()).faces, CollisionFace(prim, old(mStabbedFace).stab)), mNbIntersections)
    {
      mFlags := mFlags.Contact();
      if mStabbedFaces != null {
        if !mClosestHit || |mStabbedFaces.faces| == 0 {
          mStabbedFace := mStabbedFace.(mFaceID := prim);
          mStabbedFaces.AddFace(mStabbedFace);
        } else if mStabbedFace.stab.mDistance < mStabbedFaces.faces[0].stab.mDistance {
          mStabbedFace := mStabbedFace.(mFaceID := prim);
          mStabbedFaces.faces := mStabbedFaces.faces[0 := mStabbedFace];
        }
      }
    }

    /** STAB_PRIM, or UNBOUNDED_STAB_PRIM without a maximal distance. */
    method StabPrim(prim: nat) returns (ghost r: seq<nat>)
      requires Ready() && prim < |mesh.faces|
      modifies `mFlags, `mStabbedFace, `mNbIntersections, mStabbedFaces
      ensures Stabbed(mesh, Query(), old(Now()), [prim], [prim], r, Now())
      ensures r == if Query().StabsTriangle(Tri(mesh, prim)) then [prim] else []
      ensures mNbIntersections == old(mNbIntersections) + if AheadOf(ray, Tri(mesh, prim), mCulling) then 1 else 0
    {
      hide ValidMesh, Accepts, StabOf, Handle, Stabbed, HalfSegment, MidPoint, Tri, Det;
      ghost var s := Now();
      r := [];
      var t := Tri(mesh, prim);
      var hit, stab := RayTriOverlap(ray, t, mCulling, mStabbedFace.stab);
      mStabbedFace := mStabbedFace.(stab := stab);
      if hit {
        DetNonZero(ray, t, mCulling);
        if !(mStabbedFace.stab.mDistance < 0.0) {
          mNbIntersections := mNbIntersections + 1;
          if mMaxDist == FLT_MAX || mStabbedFace.stab.mDistance < mMaxDist {
            HandleContact(prim);
            r := [prim];
          }
        }
      }
      PrimStep(mesh, Query(), prim, s, Now());
    }

    method BVTest(b: CollisionAABB) returns (overlap: bool)
      requires Ready()
      ensures overlap <==> RayBVOverlap(Query(), b)
    {
      hide SegmentAABBOverlap, RayAABBOverlap, HalfSegment, MidPoint, ValidMesh;
      if mMaxDist != FLT_MAX {
        overlap := SegmentAABBOverlap(mData, mData2, b);
      } else {
        overlap := RayAABBOverlap(ray, b);
      }
    }

    /** _Stab / _UnboundedStab on the implicit layout. */
    method StabNode(nodes: seq<AABBCollisionNode>, id: nat, ghost t: Tree) returns (ghost r: seq<nat>)
      requires Ready() && Encodes(nodes, id, t) && Encloses(mesh, t)
      modifies `mFlags, `mStabbedFace, `mNbIntersections, mStabbedFaces
      ensures Stabbed(mesh, Query(), old(Now()), Prims(t), Visited(Query(), t, true), r, Now())
      decreases t
    {
      hide ValidMesh, Stabbed, RayBVOverlap, CollisionBox, BoxHasTriangle, Tagged, WordNode, WordPrimitive, HalfSegment, MidPoint;
      ghost var s := Now();
      var overlap := BVTest(nodes[id].mAABB);
      if !overlap {
        PruneMissed(mesh, Query(), t, s);
        return [];
      }
      if nodes[id].IsLeaf() {
        assert Prims(t) == [nodes[id].GetPrimitive()];
        assert nodes[id].GetPrimitive() in Prims(t);
        r := StabPrim(nodes[id].GetPrimitive());
      } else {
        r := StabNode(nodes, nodes[id].GetPos(), t.pos);
        ghost var half, r' := Now(), [];
        if !mFlags.ContactFound() {
          r' := StabNode(nodes, nodes[id].GetNeg(), t.neg);
        }
        StabbedJoin(mesh, Query(), s, Prims(t.pos), Visited(Query(), t.pos, true), r, half, Prims(t.neg), Visited(Query(), t.neg, true), r', Now());
        r := r + r';
      }
    }

    /** _Stab / _UnboundedStab on the no-leaf layout. */
    method StabNoLeaf(nodes: seq<AABBNoLeafNode>, id: nat, ghost t: Tree) returns (ghost r: seq<nat>)
      requires Ready() && EncodesNoLeaf(nodes, id, t) && Encloses(mesh, t)
      modifies `mFlags, `mStabbedFace, `mNbIntersections, mStabbedFaces
      ensures Stabbed(mesh, Query(), old(Now()), Prims(t), Visited(Query(), t, false), r, Now())
      decreases t, 0
    {
      hide ValidMesh, Stabbed, RayBVOverlap, CollisionBox, BoxHasTriangle, EncodesChild, HalfSegment, MidPoint;
      ghost var s := Now();
      var overlap := BVTest(nodes[id].mAABB);
      if !overlap {
        PruneMissed(mesh, Query(), t, s);
        return [];
      }
      r := StabChild(nodes, nodes[id].mData, t.pos);
      ghost var half, r' := Now(), [];
      if !mFlags.ContactFound() {
        r' := StabChild(nodes, nodes[id].mData2, t.neg);
      }
      StabbedJoin(mesh, Query(), s, Prims(t.pos), Visited(Query(), t.pos, false), r, half, Prims(t.neg), Visited(Query(), t.neg, false), r', Now());
      r := r + r';
    }

    method StabChild(nodes: seq<AABBNoLeafNode>, word: nat, ghost t: Tree) returns (ghost r: seq<nat>)
      requires Ready() && EncodesChild(nodes, word, t) && Encloses(mesh, t)
      modifies `mFlags, `mStabbedFace, `mNbIntersections, mStabbedFaces
      ensures Stabbed(mesh, Query(), old(Now()), Prims(t), Visited(Query(), t, false), r, Now())
      decreases t, 1
    {
      hide ValidMesh, Stabbed, BoxHasTriangle, Tagged, WordPrimitive, WordNode, EncodesNoLeaf, HalfSegment, MidPoint;
      if Tagged(word) {
        assert Prims(t) == [WordPrimitive(word)];
        assert WordPrimitive(word) in Prims(t);
        r := StabPrim(WordPrimitive(word));
      } else {
        r := StabNoLeaf(nodes, WordNode(word), t);
      }
    }

    /** First contact with temporal coherence: the previously stabbed face, at a distance
        strictly between zero and the maximum, settles the query. */
    method TestCachedFace(face: nat, ghost ps: seq<nat>)
      requires ValidMesh(mesh) && face < |mesh.faces| && face in ps && mFlags.firstContact && !mFlags.contact
      requires Now().faces == [] && mNbIntersections == 0
      modifies `mFlags, `mStabbedFace, mStabbedFaces
      ensures mFlags == old(mFlags).(contact := mFlags.contact)
      ensures mFlags.contact <==> StrictlyAhead(ray, Tri(mesh, face), mCulling, mMaxDist)
      ensures if mFlags.contact then RayAnswered(mesh, Query(), ps, Now()) && Now().faces == HandleAll(mesh, Query(), [], [face]) else Now().faces == []
    {
      hide ValidMesh, Tri, Accepts, StabOf, RayAnswered, Det, HandleAll;
      var hit, stab := RayTriOverlap(ray, Tri(mesh, face), mCulling, mStabbedFace.stab);
      mStabbedFace := mStabbedFace.(stab := stab);
      if hit {
        DetNonZero(ray, Tri(mesh, face), mCulling);
        if mStabbedFace.stab.mDistance > 0.0 && mStabbedFace.stab.mDistance < mMaxDist {
          mFlags := mFlags.Contact();
          mStabbedFace := mStabbedFace.(mFaceID := face);
          if mStabbedFaces != null { mStabbedFaces.AddFace(mStabbedFace); }
          CachedAnswer(mesh, Query(), ps, face, Now());
        }
      }
    }

    /** The ray in local space, and the segment for the box test of a bounded query. */
    method SetupRay(worldRay: Ray, world: Option<Motion>)
      modifies `ray, `mData, `mData2
      ensures ray == ModelRay(worldRay, world)
      ensures mMaxDist != FLT_MAX ==> mData == HalfSegment(ray, mMaxDist) && mData2 == MidPoint(ray, mMaxDist)
    {
      hide HalfSegment, MidPoint, Apply, Invert, Rotate, Transpose;
      ray := worldRay;
      if world.Some? {
        ray := Ray(Apply(Invert(world.value), worldRay.mOrigin), Rotate(worldRay.mDir, Transpose(world.value.rot)));
      }
      if mMaxDist != FLT_MAX {
        mData := HalfSegment(ray, mMaxDist);
        mData2 := MidPoint(ray, mMaxDist);
      }
    }

    /** InitQuery; `faceid` is the cached face, if any. */
    method InitQuery(worldRay: Ray, world: Option<Motion>, faceid: Option<nat>, ghost ps: seq<nat>) returns (contact: bool)
      requires ValidMesh(mesh) && 0.0 <= mMaxDist <= FLT_MAX
      requires mFlags.temporalCoherence && mFlags.firstContact && faceid.Some? ==> faceid.value < |mesh.faces| && faceid.value in ps
      modifies this, mStabbedFaces
      ensures Query() == old(Query()).(ray := ModelRay(worldRay, world)) && mStabbedFaces == old(mStabbedFaces)
      ensures mFlags == old(mFlags).(contact := contact, temporalHit := false)
      ensures contact <==> mFlags.temporalCoherence && mFlags.firstContact && faceid.Some? && StrictlyAhead(ray, Tri(mesh, faceid.value), mCulling, mMaxDist)
      ensures !contact ==> Ready() && Now().faces == []
      ensures mNbIntersections == 0
      ensures contact ==> RayAnswered(mesh, Query(), ps, Now()) && Now().faces == HandleAll(mesh, Query(), [], [faceid.value])
    {
      hide ValidMesh, HalfSegment, MidPoint, RayAnswered, ModelRay, HandleAll;
      mFlags := mFlags.InitQueryEx();
      mNbIntersections := 0;
      if mStabbedFaces != null { mStabbedFaces.Reset(); }
      SetupRay(worldRay, world);
      if mFlags.temporalCoherence && mFlags.firstContact && faceid.Some? {
        TestCachedFace(faceid.value, ps);
      }
      return mFlags.contact;
    }

    /** UPDATE_CACHE: the new cached face after a full search. */
    method UpdateCache(cache: Option<nat>) returns (cache': Option<nat>)
      ensures cache' == if mFlags.contact && mStabbedFaces != null && mStabbedFaces.faces != [] then Some(mStabbedFaces.faces[0].mFaceID)
                        else if mFlags.contact && mStabbedFaces != null then None else cache
    {
      cache' := cache;
      if mFlags.contact && mStabbedFaces != null {
        cache' := if |mStabbedFaces.faces| != 0 then Some(mStabbedFaces.faces[0].mFaceID) else None;
      }
    }

    /** RayCollider::Collide on the implicit layout. The cached face can spare the search but
        never changes the status; after a search that stored something the cache is its first
        face. */
    method Collide(worldRay: Ray, world: Option<Motion>, cache: Option<nat>, nodes: seq<AABBCollisionNode>, ghost t: Tree) returns (cache': Option<nat>)
      requires ValidMesh(mesh) && Encodes(nodes, 0, t) && Encloses(mesh, t) && 0.0 <= mMaxDist <= FLT_MAX
      requires mFlags.temporalCoherence && mFlags.firstContact && cache.Some? ==> cache.value < |mesh.faces| && cache.value in Prims(t)
      modifies this, mStabbedFaces
      ensures Query() == old(Query()).(ray := ModelRay(worldRay, world)) && mStabbedFaces == old(mStabbedFaces)
      ensures RayAnswered(mesh, Query(), Prims(t), Now())
      ensures mNbIntersections == if CacheSettles(mesh, Query(), mFlags, cache) then 0
        else Counted(StabHits(mesh, Query()), Countable(mesh, Query()), mFlags.firstContact, Visited(Query(), t, true))
      ensures Now().faces == HandleAll(mesh, Query(), [], if CacheSettles(mesh, Query(), mFlags, cache) then [cache.value]
        else UpToFirst(mFlags.firstContact, Filter(StabHits(mesh, Query()), Prims(t))))
      ensures mFlags == old(mFlags).(contact := mFlags.contact, temporalHit := false)
      ensures mFlags.contact && mStabbedFaces != null ==> mStabbedFaces.faces != []
      ensures cache' == if mFlags.contact && mStabbedFaces != null && !CacheSettles(mesh, Query(), mFlags, cache) then Some(mStabbedFaces.faces[0].mFaceID) else cache
    {
      hide ValidMesh, Stabbed, Encodes, Encloses, RayAnswered, HalfSegment, MidPoint;
      var contact := InitQuery(worldRay, world, cache, Prims(t));
      if contact {
        CachedFaceStored(mesh, Query(), Prims(t), Now());
        return cache;
      }
      ghost var s := Now();
      ghost var r := StabNode(nodes, 0, t);
      StabAnswers(mesh, Query(), s, Prims(t), Visited(Query(), t, true), r, Now());
      cache' := UpdateCache(cache);
    }

    method CollideNoLeaf(worldRay: Ray, world: Option<Motion>, cache: Option<nat>, nodes: seq<AABBNoLeafNode>, ghost t: Tree) returns (cache': Option<nat>)
      requires ValidMesh(mesh) && EncodesNoLeaf(nodes, 0, t) && Encloses(mesh, t) && 0.0 <= mMaxDist <= FLT_MAX
      requires mFlags.temporalCoherence && mFlags.firstContact && cache.Some? ==> cache.value < |mesh.faces| && cache.value in Prims(t)
      modifies this, mStabbedFaces
      ensures Query() == old(Query()).(ray := ModelRay(worldRay, world)) && mStabbedFaces == old(mStabbedFaces)
      ensures RayAnswered(mesh, Query(), Prims(t), Now())
      ensures mNbIntersections == if CacheSettles(mesh, Query(), mFlags, cache) then 0
        else Counted(StabHits(mesh, Query()), Countable(mesh, Query()), mFlags.firstContact, Visited(Query(), t, false))
      ensures Now().faces == HandleAll(mesh, Query(), [], if CacheSettles(mesh, Query(), mFlags, cache) then [cache.value]
        else UpToFirst(mFlags.firstContact, Filter(StabHits(mesh, Query()), Prims(t))))
      ensures mFlags == old(mFlags).(contact := mFlags.contact, temporalHit := false)
      ensures mFlags.contact && mStabbedFaces != null ==> mStabbedFaces.faces != []
      ensures cache' == if mFlags.contact && mStabbedFaces != null && !CacheSettles(mesh, Query(), mFlags, cache) then Some(mStabbedFaces.faces[0].mFaceID) else cache
    {
      hide ValidMesh, Stabbed, EncodesNoLeaf, Encloses, RayAnswered, HalfSegment, MidPoint;
      var contact := InitQuery(worldRay, world, cache, Prims(t));
      if contact {
        CachedFaceStored(mesh, Query(), Prims(t), Now());
        return cache;
      }
      ghost var s := Now();
      ghost var r := StabNoLeaf(nodes, 0, t);
      StabAnswers(mesh, Query(), s, Prims(t), Visited(Query(), t, false), r, Now());
      cache' := UpdateCache(cache);
    }
  }

  lemma DetNonZero(ray: Ray, t: Triangle, culling: bool)
    requires Accepts(ray, t, culling)
    ensures Det(ray, t) != 0.0
  {}
}
