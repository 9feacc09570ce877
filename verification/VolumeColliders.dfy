/** Volume queries against both optimized layouts (OPC_VolumeCollider.cpp and the _Collide
    recursions of OPC_AABBCollider.cpp, OPC_SphereCollider.cpp, OPC_OBBCollider.cpp, which
    share one shape: prune, dump, or test and descend). */
module VolumeColliders {
  import opened AABBCaches
  import opened BoxBox
  import opened ColliderFlags
  import opened Geometry
  import opened Motions
  import opened OptimizedTrees
  import opened Options
  import opened Reals
  import opened Search
  import opened SphereBox
  import opened SphereCaches
  import opened SphereTri
  import opened Trees
  import opened TriBox
  import opened Volumes

  class Container {
    var entries: seq<nat>

    constructor ()
      ensures entries == []
    {
      entries := [];
    }

    method Add(entry: nat)
      modifies this
      ensures entries == old(entries) + [entry]
    {
      entries := entries + [entry];
    }

    method Reset()
      modifies this
      ensures entries == []
    {
      entries := [];
    }
  }

  /** The part of a collider a search changes. */
  datatype State = State(flags: Flags, touched: seq<nat>)

  /** A search over the candidates `ps` reported `r`: the list grew by it, and the contact
      flag was raised if it is not empty. */
  ghost predicate Searched(must: set<nat>, may: set<nat>, s: State, ps: seq<nat>, r: seq<nat>, s': State) {
    && s' == State(if r == [] then s.flags else s.flags.Contact(), s.touched + r)
    && Reports(must, may, s.flags.firstContact, ps, r)
  }

  /** First half, early exit on a found contact, second half. */
  lemma SearchedJoin(must: set<nat>, may: set<nat>, s: State, ps: seq<nat>, r: seq<nat>, s': State, qs: seq<nat>, r': seq<nat>, s'': State)
    requires !s.flags.ContactFound() && Searched(must, may, s, ps, r, s')
    requires if s'.flags.ContactFound() then r' == [] && s'' == s' else Searched(must, may, s', qs, r', s'')
    ensures Searched(must, may, s, ps + qs, r + r', s'')
  {
    ReportsJoin(must, may, s.flags.firstContact, ps, r, qs, r');
    assert s.touched + r + r' == s.touched + (r + r');
    assert r + [] == r;
    hide Reports;
  }

  /** Pruning loses nothing that may be reported. */
  lemma PrunedTree(m: Mesh, v: Volume, t: Tree, full: bool)
    requires ValidMesh(m) && Prepared(v) && Encloses(m, t) && !BVOverlap(v, CollisionBox(t.box), full)
    ensures forall i :: i in Prims(t) ==> i !in May(m, v)
  {
    hide Prepared, BVOverlap, CollisionBox, BoxHasTriangle, ValidMesh, MayTouch, Tri;
    forall i | i in Prims(t) ensures i !in May(m, v) {
      if i in May(m, v) { PruneSound(v, CollisionBox(t.box), Tri(m, i), full); }
    }
  }

  lemma MustWithinMay(m: Mesh, v: Volume)
    requires ValidMesh(m) && Prepared(v)
    ensures Must(m, v) <= May(m, v)
  {
    hide Prepared, ValidMesh, MustTouch, MayTouch, LeafTouch, Tri;
    forall i: nat | i < |m.faces| ensures MustTouch(v, Tri(m, i)) ==> MayTouch(v, Tri(m, i)) { LeafBetween(v, Tri(m, i)); }
  }

  lemma PruneTree(m: Mesh, v: Volume, t: Tree, full: bool, s: State)
    requires ValidMesh(m) && Prepared(v) && Encloses(m, t) && !BVOverlap(v, CollisionBox(t.box), full)
    ensures Searched(Must(m, v), May(m, v), s, Prims(t), [], s)
  {
    hide Prepared, BVOverlap, CollisionBox, ValidMesh, Must, May, Encloses;
    PrunedTree(m, v, t, full);
    MustWithinMay(m, v);
    ReportNothing(Must(m, v), May(m, v), s.flags.firstContact, Prims(t));
    assert s.touched + [] == s.touched;
  }

  /** The exact list: a contained box with everything below it, and otherwise the leaves the
      test accepts. Leaves have boxes of their own in the implicit layout only. */
  ghost function ListedBelow(m: Mesh, v: Volume, t: Tree, leafBoxes: bool): seq<nat>
    requires ValidMesh(m)
  {
    if (t.Node? || leafBoxes) && Contains(v, CollisionBox(t.box)) then Prims(t)
    else match t
      case Leaf(_, ps) => Filter(Must(m, v), ps)
      case Node(_, p, n) => ListedBelow(m, v, p, leafBoxes) + ListedBelow(m, v, n, leafBoxes)
  }

  /** Some box above the primitive, or its leaf's own, lies in the volume. */
  ghost predicate BoxedIn(v: Volume, t: Tree, i: nat, leafBoxes: bool) {
    || (i in Prims(t) && (t.Node? || leafBoxes) && Contains(v, CollisionBox(t.box)))
    || (t.Node? && (BoxedIn(v, t.pos, i, leafBoxes) || BoxedIn(v, t.neg, i, leafBoxes)))
  }

  /** What the list holds: the primitives that must be reported, and those in contained boxes,
      degenerate ones included. */
  lemma {:induction false} ListedIff(m: Mesh, v: Volume, t: Tree, i: nat, leafBoxes: bool)
    requires ValidMesh(m)
    ensures i in ListedBelow(m, v, t, leafBoxes) <==> (i in Prims(t) && i in Must(m, v)) || BoxedIn(v, t, i, leafBoxes)
    ensures BoxedIn(v, t, i, leafBoxes) ==> i in Prims(t)
  {
    hide Contains, CollisionBox, ValidMesh, Must;
    match t
    case Leaf(_, ps) => FilterMembers(Must(m, v), ps, i);
    case Node(_, p, n) =>
      ListedIff(m, v, p, i, leafBoxes);
      ListedIff(m, v, n, i, leafBoxes);
  }

  /** Pruning takes nothing from it, although it does not mention pruning. */
  lemma {:induction false} NothingListedBelow(m: Mesh, v: Volume, t: Tree, leafBoxes: bool)
    requires ValidMesh(m) && Prepared(v) && Encloses(m, t) && forall i :: i in Prims(t) ==> i !in May(m, v)
    ensures ListedBelow(m, v, t, leafBoxes) == []
  {
    hide Prepared, Contains, CollisionBox, BoxHasTriangle, ValidMesh, MayTouch, Tri, Must;
    if (t.Node? || leafBoxes) && Contains(v, CollisionBox(t.box)) {
      if Prims(t) != [] {
        var i := Prims(t)[0];
        assert i in Prims(t);
        DumpSound(v, CollisionBox(t.box), Tri(m, i));
      }
    } else if t.Leaf? {
      MustWithinMay(m, v);
      if Filter(Must(m, v), t.prims) != [] {
        FilterMembers(Must(m, v), t.prims, Filter(Must(m, v), t.prims)[0]);
      }
    } else {
      NothingListedBelow(m, v, t.pos, leafBoxes);
      NothingListedBelow(m, v, t.neg, leafBoxes);
    }
  }

  lemma PrunedNotListed(m: Mesh, v: Volume, t: Tree, full: bool, leafBoxes: bool)
    requires ValidMesh(m) && Prepared(v) && Encloses(m, t) && !BVOverlap(v, CollisionBox(t.box), full)
    ensures ListedBelow(m, v, t, leafBoxes) == []
  {
    hide Prepared, BVOverlap, CollisionBox, ValidMesh, May, Encloses;
    PrunedTree(m, v, t, full);
    NothingListedBelow(m, v, t, leafBoxes);
  }

  lemma FirstOfJoin(first: bool, a: seq<nat>, b: seq<nat>)
    ensures UpToFirst(first, a + b) == UpToFirst(first, a) + if first && a != [] then [] else UpToFirst(first, b)
    ensures UpToFirst(first, a) == [] <==> a == []
  {
    if a == [] { assert a + b == b; } else { assert (a + b)[0] == a[0]; }
  }

  lemma SearchedFound(must: set<nat>, may: set<nat>, s: State, ps: seq<nat>, r: seq<nat>, s': State)
    requires Searched(must, may, s, ps, r, s') && !s.flags.ContactFound()
    ensures s'.flags.firstContact == s.flags.firstContact && (s'.flags.ContactFound() <==> s.flags.firstContact && r != [])
  {
    hide Reports;
  }

  lemma LeafListed(m: Mesh, v: Volume, t: Tree, i: nat, leafBoxes: bool)
    requires ValidMesh(m) && Prepared(v) && t.Leaf? && t.prims == [i] && i < |m.faces| && !(leafBoxes && Contains(v, CollisionBox(t.box)))
    ensures ListedBelow(m, v, t, leafBoxes) == if LeafTouch(v, Tri(m, i)) then [i] else []
  {
    hide Prepared, Contains, CollisionBox, ValidMesh, Tri, MustTouch, LeafTouch;
    LeafIsMust(v, Tri(m, i));
    assert i in Must(m, v) <==> MustTouch(v, Tri(m, i));
    assert [i][1..] == [] && Filter(Must(m, v), []) == [];
    assert Filter(Must(m, v), [i]) == if i in Must(m, v) then [i] else [];
    hide Must, Filter;
  }

  lemma LeafIsMust(v: Volume, t: Triangle)
    requires Prepared(v)
    ensures LeafTouch(v, t) <==> MustTouch(v, t)
  {
    hide MayTouch, SharesPoint, IsRotation, TransformTriangle, TriBoxPasses, NonDegenerate, SphereReaches;
    LeafBetween(v, t);
  }

  lemma DumpTree(m: Mesh, v: Volume, t: Tree, s: State, s': State)
    requires ValidMesh(m) && Prepared(v) && Encloses(m, t) && Contains(v, CollisionBox(t.box)) && Prims(t) != []
    requires s' == State(s.flags.Contact(), s.touched + UpToFirst(s.flags.firstContact, Prims(t)))
    ensures Searched(Must(m, v), May(m, v), s, Prims(t), UpToFirst(s.flags.firstContact, Prims(t)), s')
  {
    hide Prepared, Contains, CollisionBox, BoxHasTriangle, ValidMesh, MayTouch, Tri;
    forall i | i in Prims(t) ensures i in May(m, v) {
      DumpSound(v, CollisionBox(t.box), Tri(m, i));
    }
    ReportAll(Must(m, v), May(m, v), s.flags.firstContact, Prims(t));
    hide Reports;
  }

  lemma PreparedTestable(v: Volume)
    requires Prepared(v)
    ensures Testable(v)
  {}

  lemma LeafStep(m: Mesh, v: Volume, i: nat, s: State, s': State)
    requires ValidMesh(m) && Prepared(v) && i < |m.faces|
    requires s' == if LeafTouch(v, Tri(m, i)) then State(s.flags.Contact(), s.touched + [i]) else s
    ensures Searched(Must(m, v), May(m, v), s, [i], if LeafTouch(v, Tri(m, i)) then [i] else [], s')
  {
    hide Prepared, ValidMesh, MustTouch, MayTouch, LeafTouch, Tri;
    LeafBetween(v, Tri(m, i));
    assert s.touched + [] == s.touched;
    if LeafTouch(v, Tri(m, i)) {
      ReportAll(Must(m, v), May(m, v), s.flags.firstContact, [i]);
    } else {
      ReportNothing(Must(m, v), May(m, v), s.flags.firstContact, [i]);
    }
    hide Reports;
  }

  lemma {:induction false} EncodesComplete(nodes: seq<AABBCollisionNode>, id: nat, t: Tree)
    requires Encodes(nodes, id, t)
    ensures Prims(t) != []
    decreases t
  {
    if t.Node? { EncodesComplete(nodes, nodes[id].GetPos(), t.pos); }
  }

  lemma {:induction false} ChildComplete(nodes: seq<AABBNoLeafNode>, word: nat, t: Tree)
    requires EncodesChild(nodes, word, t)
    ensures Prims(t) != []
    decreases t
  {
    if t.Node? { ChildComplete(nodes, nodes[WordNode(word)].mData, t.pos); }
  }

  lemma EnclosingBoxValid(m: Mesh, t: Tree)
    requires ValidMesh(m) && Encloses(m, t) && Prims(t) != []
    ensures ValidBox(CollisionBox(t.box))
  {
    hide CollisionBox;
    var i := Prims(t)[0];
    assert i in Prims(t);
    assert BoxHasTriangle(CollisionBox(t.box), Tri(m, i));
    hide Tri, ValidMesh;
  }

  // ------------------------------------------------------------------ dumping

  /** Appends the whole subtree, or one primitive once a first contact is flagged. */
  method Dump(mFlags: Flags, mTouchedPrimitives: Container, nodes: seq<AABBCollisionNode>, id: nat, ghost t: Tree)
    requires Encodes(nodes, id, t)
    modifies mTouchedPrimitives
    ensures mTouchedPrimitives.entries == old(mTouchedPrimitives.entries) + UpToFirst(mFlags.ContactFound(), Prims(t))
    decreases t
  {
    EncodesComplete(nodes, id, t);
    hide CollisionBox, Tagged, WordNode, WordPrimitive;
    if nodes[id].IsLeaf() {
      mTouchedPrimitives.Add(nodes[id].GetPrimitive());
    } else {
      EncodesComplete(nodes, nodes[id].GetPos(), t.pos);
      Dump(mFlags, mTouchedPrimitives, nodes, nodes[id].GetPos(), t.pos);
      if mFlags.ContactFound() {
        return;
      }
      Dump(mFlags, mTouchedPrimitives, nodes, nodes[id].GetNeg(), t.neg);
    }
  }

  method DumpNoLeaf(mFlags: Flags, mTouchedPrimitives: Container, nodes: seq<AABBNoLeafNode>, id: nat, ghost t: Tree)
    requires EncodesNoLeaf(nodes, id, t)
    modifies mTouchedPrimitives
    ensures mTouchedPrimitives.entries == old(mTouchedPrimitives.entries) + UpToFirst(mFlags.ContactFound(), Prims(t))
    decreases t, 0
  {
    ChildComplete(nodes, nodes[id].mData, t.pos);
    ChildComplete(nodes, nodes[id].mData2, t.neg);
    hide CollisionBox, EncodesChild;
    DumpChild(mFlags, mTouchedPrimitives, nodes, nodes[id].mData, t.pos);
    if mFlags.ContactFound() {
      return;
    }
    DumpChild(mFlags, mTouchedPrimitives, nodes, nodes[id].mData2, t.neg);
  }

  method DumpChild(mFlags: Flags, mTouchedPrimitives: Container, nodes: seq<AABBNoLeafNode>, word: nat, ghost t: Tree)
    requires EncodesChild(nodes, word, t)
    modifies mTouchedPrimitives
    ensures mTouchedPrimitives.entries == old(mTouchedPrimitives.entries) + UpToFirst(mFlags.ContactFound(), Prims(t))
    decreases t, 1
  {
    hide Tagged, WordNode, WordPrimitive, EncodesNoLeaf;
    if Tagged(word) {
      mTouchedPrimitives.Add(WordPrimitive(word));
    } else {
      DumpNoLeaf(mFlags, mTouchedPrimitives, nodes, WordNode(word), t);
    }
  }

  class AABBCache {
    const TouchedPrimitives: Container
    var FatBox: CollisionAABB
    const FatCoeff: real

    constructor (coeff: real)
      ensures State() == CacheState(ZERO_BOX, []) && FatCoeff == coeff && fresh(TouchedPrimitives)
    {
      TouchedPrimitives := new Container();
      FatBox, FatCoeff := ZERO_BOX, coeff;
    }

    ghost function State(): CacheState
      reads this, TouchedPrimitives
    {
      CacheState(FatBox, TouchedPrimitives.entries)
    }
  }

  /** A search that started from an empty list and no contact, for an exact criterion. */
  lemma SearchedBruteForce(m: Mesh, v: Volume, box: CollisionAABB, s: State, ps: seq<nat>, r: seq<nat>, s': State)
    requires ValidMesh(m) && v.AABBVolume? && v.mBox == box && Searched(Must(m, v), May(m, v), s, ps, r, s')
    requires s.touched == [] && !s.flags.contact
    ensures s'.touched == BruteForce(m, box, ps, s.flags.firstContact) && (s'.flags.contact <==> s'.touched != [])
    ensures s'.flags == s.flags.(contact := s'.flags.contact)
  {
    hide TriBoxPasses, ValidMesh, Reports;
    assert Must(m, v) == Hits(m, box) == May(m, v);
    ExactReport(Hits(m, box), s.flags.firstContact, ps, r);
    hide Must, May, Hits;
    assert [] + r == r;
  }

  /** The thin containment box next to an overlap box that holds it. */
  lemma ThinBoxPrepared(box: CollisionAABB, mBox: CollisionAABB)
    requires IsInside(box, mBox)
    ensures Prepared(AABBVolume(mBox, Sub(box.mCenter, box.mExtents), Add(box.mCenter, box.mExtents)))
  {}

  /** Where the cached list is consulted, its first entry is a face of the mesh. */
  predicate CacheUsable(flags: Flags, m: Mesh, touched: seq<nat>) {
    flags.temporalCoherence && flags.firstContact && touched != [] ==> touched[0] < |m.faces|
  }

  /** ... and a primitive of the tree. */
  predicate CacheWithin(flags: Flags, touched: seq<nat>, ps: seq<nat>) {
    flags.temporalCoherence && flags.firstContact && touched != [] ==> touched[0] in ps
  }

  lemma SearchAnswers(must: set<nat>, may: set<nat>, s: State, ps: seq<nat>, r: seq<nat>, s': State)
    requires Searched(must, may, s, ps, r, s') && s.touched == [] && !s.flags.contact
    ensures Answered(must, may, s.flags.firstContact, ps, s'.touched, s'.flags.contact)
    ensures s'.flags == s.flags.(contact := s'.flags.contact)
  {
    assert [] + r == r;
    if s.flags.firstContact { FirstContact(must, may, ps, r); }
    hide Reports;
  }

  /** The list of a query with an exact criterion: the cached face, where it is consulted and
      still hit, or the brute-force list, or its head in first-contact mode. */
  function ExactList(hits: set<nat>, flags: Flags, before: seq<nat>, ps: seq<nat>): seq<nat> {
    if flags.temporalCoherence && flags.firstContact && before != [] && before[0] in hits then [before[0]]
    else UpToFirst(flags.firstContact, Filter(hits, ps))
  }

  lemma ExactSearch(hits: set<nat>, s: State, ps: seq<nat>, r: seq<nat>, s': State)
    requires Searched(hits, hits, s, ps, r, s') && s.touched == [] && !s.flags.contact
    ensures s'.touched == UpToFirst(s.flags.firstContact, Filter(hits, ps)) && (s'.flags.contact <==> s'.touched != [])
  {
    ExactReport(hits, s.flags.firstContact, ps, r);
    assert [] + r == r;
    hide Reports, Filter;
  }

  ghost predicate NoDegenerateFace(m: Mesh)
    requires ValidMesh(m)
  {
    forall i :: 0 <= i < |m.faces| ==> NonDegenerate(Tri(m, i))
  }

  /** The sphere criterion is exact, for every sphere, if and only if no face is degenerate:
      SphereTriOverlap refuses degenerate faces, a dump does not look at them. */
  lemma SphereExactIff(m: Mesh)
    requires ValidMesh(m)
    ensures NoDegenerateFace(m) <==> forall c, r2 :: Must(m, SphereVolume(c, r2)) == May(m, SphereVolume(c, r2))
  {
    hide NonDegenerate, SphereReaches, ValidMesh, Tri;
    forall i: nat | i < |m.faces| && !NonDegenerate(Tri(m, i)) ensures exists c, r2 :: Must(m, SphereVolume(c, r2)) != May(m, SphereVolume(c, r2)) {
      var c := Tri(m, i).v0;
      ReachedAtVertex(Tri(m, i));
      assert i in May(m, SphereVolume(c, 1.0)) && i !in Must(m, SphereVolume(c, 1.0));
    }
  }

  lemma ReachedAtVertex(t: Triangle)
    ensures SphereReaches(t, t.v0, 1.0)
  {
    VerticesInTriangle(t);
    hide InTriangle;
    assert SquareDistance(t.v0, t.v0) == 0.0;
  }

  /** For oriented boxes what must and what may be reported agree. */
  lemma OrientedExact(m: Mesh, v: Volume)
    requires ValidMesh(m) && v.OBBVolume?
    ensures Must(m, v) == May(m, v)
  {
    hide ValidMesh, Tri, SharesPoint;
  }

  /** A cached list is replaced by the answer of the ball searched with. */
  lemma SearchListed(m: Mesh, ps: seq<nat>, b: Ball, s: State, r: seq<nat>, s': State)
    requires ValidMesh(m) && Searched(Must(m, Solid(b)), May(m, Solid(b)), s, ps, r, s') && s.touched == [] && !s.flags.contact
    ensures Listed(m, ps, b, s.flags.firstContact, s'.touched) && (s'.flags.contact <==> s'.touched != [])
    ensures s'.flags == s.flags.(contact := s'.flags.contact) && s'.touched == r
  {
    hide Must, May, ValidMesh;
    SearchAnswers(Must(m, Solid(b)), May(m, Solid(b)), s, ps, r, s');
    assert [] + r == r;
    hide Reports, Answered;
  }

  /** The cached face of a first-contact query that still touches is an answer. */
  lemma CachedFaceAnswers(m: Mesh, ps: seq<nat>, coeff: real, sqrt: real -> real, s: SphereState, q: SphereQuery, i: nat)
    requires ValidMesh(m) && q.flags.firstContact && q.Thin().radius2 <= FLT_MAX
    requires i < |m.faces| && i in ps && LeafTouch(Solid(q.Thin()), Tri(m, i))
    ensures SphereAnswer(m, ps, coeff, sqrt, s, q, s.(TouchedPrimitives := [i]))
  {
    hide ValidMesh, Tri, MayTouch, MustTouch, LeafTouch, Reuses, Square;
    LeafBetween(Solid(q.Thin()), Tri(m, i));
    assert i in May(m, Solid(q.Thin()));
  }

  /** The cached face of a first-contact query still touches. */
  ghost predicate FaceSettles(m: Mesh, s: SphereState, q: SphereQuery)
    requires ValidMesh(m)
  {
    && q.flags.temporalCoherence && q.flags.firstContact && s.TouchedPrimitives != [] && s.TouchedPrimitives[0] < |m.faces|
    && LeafTouch(Solid(q.Thin()), Tri(m, s.TouchedPrimitives[0]))
  }

  /** The list a sphere query leaves, exactly. */
  ghost function SphereList(m: Mesh, t: Tree, leafBoxes: bool, coeff: real, sqrt: real -> real, s: SphereState, q: SphereQuery): seq<nat>
    requires ValidMesh(m)
  {
    if FromCache(sqrt, s, q) then s.TouchedPrimitives
    else if FaceSettles(m, s, q) then [s.TouchedPrimitives[0]]
    else UpToFirst(q.flags.firstContact, ListedBelow(m, Solid(SearchBall(coeff, sqrt, s, q)), t, leafBoxes))
  }

  lemma ReusedAnswers(m: Mesh, ps: seq<nat>, coeff: real, sqrt: real -> real, s: SphereState, q: SphereQuery)
    requires ValidMesh(m) && FromCache(sqrt, s, q)
    ensures SphereAnswer(m, ps, coeff, sqrt, s, q, s)
  {}

  /** The cache just before a search: its list emptied, its sphere replaced if the guard
      failed. */
  predicate Bypassed(coeff: real, sqrt: real -> real, s: SphereState, q: SphereQuery, s': SphereState) {
    && !FromCache(sqrt, s, q) && s'.TouchedPrimitives == []
    && s'.Center == (if q.Coherent() && !Reuses(sqrt, s.Center, s.FatRadius2, q) then q.center else s.Center)
    && s'.FatRadius2 == (if q.Coherent() && !Reuses(sqrt, s.Center, s.FatRadius2, q) then q.Enlarged(coeff).radius2 else s.FatRadius2)
  }

  lemma EmptiedList(coeff: real, sqrt: real -> real, s: SphereState, q: SphereQuery, s': SphereState)
    requires Bypassed(coeff, sqrt, s, q, s')
    ensures s'.TouchedPrimitives == []
  {}

  lemma SearchFillsCache(m: Mesh, ps: seq<nat>, coeff: real, sqrt: real -> real, s: SphereState, q: SphereQuery, s': SphereState, list: seq<nat>)
    requires ValidMesh(m) && Bypassed(coeff, sqrt, s, q, s') && Listed(m, ps, SearchBall(coeff, sqrt, s, q), q.flags.firstContact, list)
    ensures SphereAnswer(m, ps, coeff, sqrt, s, q, s'.(TouchedPrimitives := list))
  {
    hide ValidMesh, Listed, Reuses, Square;
  }

  class SphereCache {
    const TouchedPrimitives: Container
    var Center: Point
    var FatRadius2: real
    const FatCoeff: real

    constructor (coeff: real)
      ensures State() == NEW_CACHE && FatCoeff == coeff && fresh(TouchedPrimitives)
    {
      TouchedPrimitives := new Container();
      Center, FatRadius2, FatCoeff := Point(0.0, 0.0, 0.0), 0.0, coeff;
    }

    ghost function State(): SphereState
      reads this, TouchedPrimitives
    {
      SphereState(Center, FatRadius2, TouchedPrimitives.entries)
    }
  }

  class VolumeCollider {
    const mesh: Mesh
    var mFlags: Flags
    var volume: Volume
    var mTouchedPrimitives: Container
    var mNbVolumeBVTests: nat
    var mNbVolumePrimTests: nat

    constructor (mesh: Mesh, flags: Flags, volume: Volume, touched: Container)
      ensures this.mesh == mesh && mFlags == flags && this.volume == volume && mTouchedPrimitives == touched
    {
      this.mesh, mFlags, this.volume, mTouchedPrimitives := mesh, flags, volume, touched;
      mNbVolumeBVTests, mNbVolumePrimTests := 0, 0;
    }

    ghost function Now(): State
      reads `mFlags, `mTouchedPrimitives, mTouchedPrimitives
    {
      State(mFlags, mTouchedPrimitives.entries)
    }

    /** A prepared query over a valid mesh that has not found its first contact yet. */
    ghost predicate Ready()
      reads `mFlags, `volume
    {
      ValidMesh(mesh) && Prepared(volume) && !mFlags.ContactFound()
    }

    method BVTest(b: CollisionAABB) returns (overlap: bool)
      requires ValidBox(b)
      modifies `mNbVolumeBVTests
      ensures mNbVolumeBVTests == old(mNbVolumeBVTests) + 1
      ensures overlap <==> BVOverlap(volume, b, volume.OBBVolume? && (volume.mFullBoxBoxTest || mNbVolumeBVTests == 1))
    {
      hide AABBAABBOverlap, PrecomputedOverlap, SphereMeetsBox, ValidBox;
      mNbVolumeBVTests := mNbVolumeBVTests + 1;
      match volume
      case AABBVolume(box, _, _) =>
        overlap := AABBAABBOverlap(box, b);
      case SphereVolume(c, r2) =>
        overlap := SphereAABBOverlap(b, c, r2);
      case OBBVolume(e, _, _, rot, trans, bb, _, _, full) =>
        overlap := PrecomputedOverlap(bb, rot, trans, e, b, full || mNbVolumeBVTests == 1);
    }

    method ContainsBox(b: CollisionAABB) returns (inside: bool)
      requires ValidBox(b)
      ensures inside <==> Contains(volume, b)
    {
      hide AABBContainsBox, OBBContainsBox, BoxInsideSphere, ValidBox;
      match volume
      case AABBVolume(_, lo, hi) =>
        inside := AABBContainsBox(lo, hi, b);
      case SphereVolume(c, r2) =>
        inside := SphereContainsBox(b, c, r2);
      case OBBVolume(_, r, _, _, _, _, b0, b1, _) =>
        inside := OBBContainsBox(r, b0, b1, b);
    }

    method PrimOverlap(i: nat) returns (touch: bool)
      requires ValidMesh(mesh) && Testable(volume) && i < |mesh.faces|
      modifies `mNbVolumePrimTests
      ensures mNbVolumePrimTests == old(mNbVolumePrimTests) + 1
      ensures touch <==> LeafTouch(volume, Tri(mesh, i))
    {
      hide ValidMesh, TriBoxPasses, NonDegenerate, SphereReaches, TransformPoint, IsRotation, Precompute;
      mNbVolumePrimTests := mNbVolumePrimTests + 1;
      var t := Tri(mesh, i);
      match volume
      case AABBVolume(box, _, _) =>
        touch := TriBoxOverlap(t, box, true);
      case SphereVolume(c, r2) =>
        touch := SphereTriOverlap(t, c, r2);
      case OBBVolume(e, rot, trans, _, _, _, _, _, _) =>
        touch := TriBoxOverlap(TransformTriangle(t, rot, trans), CollisionAABB(ORIGIN, e), true);
    }

    /** AABB_PRIM, SPHERE_PRIM, OBB_PRIM with OPC_CONTACT. */
    method Prim(i: nat) returns (ghost r: seq<nat>)
      requires Ready() && i < |mesh.faces|
      modifies `mFlags, `mNbVolumePrimTests, mTouchedPrimitives
      ensures Searched(Must(mesh, volume), May(mesh, volume), old(Now()), [i], r, Now())
      ensures r == if LeafTouch(volume, Tri(mesh, i)) then [i] else []
    {
      assert Testable(volume);
      hide ValidMesh, LeafTouch, Searched, Must, May, Prepared, Testable;
      ghost var s := Now();
      r := [];
      var touch := PrimOverlap(i);
      if touch {
        mFlags := mFlags.Contact();
        mTouchedPrimitives.Add(i);
        r := [i];
      }
      LeafStep(mesh, volume, i, s, Now());
    }

    // ------------------------------------------------------------ implicit layout

    /** The whole query below a node: a possible report for its primitives in order. A box
        contained in the volume is dumped whole. */
    method Collide(nodes: seq<AABBCollisionNode>, id: nat, ghost t: Tree) returns (ghost r: seq<nat>)
      requires Ready() && Encodes(nodes, id, t) && Encloses(mesh, t)
      modifies `mFlags, `mNbVolumeBVTests, `mNbVolumePrimTests, mTouchedPrimitives
      ensures Searched(Must(mesh, volume), May(mesh, volume), old(Now()), Prims(t), r, Now())
      ensures r == UpToFirst(old(mFlags).firstContact, ListedBelow(mesh, volume, t, true))
      decreases t
    {
      hide Searched, Must, May, Prepared, ValidMesh, BVOverlap, LeafTouch, Contains, CollisionBox, ValidBox, Tagged, WordNode, WordPrimitive, BoxHasTriangle;
      ghost var s := Now();
      EncodesComplete(nodes, id, t);
      EnclosingBoxValid(mesh, t);
      var overlap := BVTest(nodes[id].mAABB);
      if !overlap {
        PrunedNotListed(mesh, volume, t, volume.OBBVolume? && (volume.mFullBoxBoxTest || mNbVolumeBVTests == 1), true);
        PruneTree(mesh, volume, t, volume.OBBVolume? && (volume.mFullBoxBoxTest || mNbVolumeBVTests == 1), s);
        return [];
      }
      var inside := ContainsBox(nodes[id].mAABB);
      if inside {
        mFlags := mFlags.Contact();
        Dump(mFlags, mTouchedPrimitives, nodes, id, t);
        DumpTree(mesh, volume, t, s, Now());
        return UpToFirst(s.flags.firstContact, Prims(t));
      }
      if nodes[id].IsLeaf() {
        assert Prims(t) == [nodes[id].GetPrimitive()];
        assert nodes[id].GetPrimitive() in Prims(t);
        LeafListed(mesh, volume, t, nodes[id].GetPrimitive(), true);
        r := Prim(nodes[id].GetPrimitive());
      } else {
        r := Collide(nodes, nodes[id].GetPos(), t.pos);
        ghost var half, r' := Now(), [];
        SearchedFound(Must(mesh, volume), May(mesh, volume), s, Prims(t.pos), r, half);
        if !mFlags.ContactFound() {
          r' := Collide(nodes, nodes[id].GetNeg(), t.neg);
        }
        FirstOfJoin(s.flags.firstContact, ListedBelow(mesh, volume, t.pos, true), ListedBelow(mesh, volume, t.neg, true));
        SearchedJoin(Must(mesh, volume), May(mesh, volume), s, Prims(t.pos), r, half, Prims(t.neg), r', Now());
        r := r + r';
      }
    }

    // ------------------------------------------------------------- no-leaf layout

    /** Same query, same promise, on the no-leaf layout. */
    method CollideNoLeaf(nodes: seq<AABBNoLeafNode>, id: nat, ghost t: Tree) returns (ghost r: seq<nat>)
      requires Ready() && EncodesNoLeaf(nodes, id, t) && Encloses(mesh, t)
      modifies `mFlags, `mNbVolumeBVTests, `mNbVolumePrimTests, mTouchedPrimitives
      ensures Searched(Must(mesh, volume), May(mesh, volume), old(Now()), Prims(t), r, Now())
      ensures r == UpToFirst(old(mFlags).firstContact, ListedBelow(mesh, volume, t, false))
      decreases t, 0
    {
      hide Searched, Must, May, Prepared, ValidMesh, BVOverlap, LeafTouch, Contains, CollisionBox, ValidBox, EncodesChild, BoxHasTriangle;
      ghost var s := Now();
      ChildComplete(nodes, nodes[id].mData, t.pos);
      EnclosingBoxValid(mesh, t);
      var overlap := BVTest(nodes[id].mAABB);
      if !overlap {
        PrunedNotListed(mesh, volume, t, volume.OBBVolume? && (volume.mFullBoxBoxTest || mNbVolumeBVTests == 1), false);
        PruneTree(mesh, volume, t, volume.OBBVolume? && (volume.mFullBoxBoxTest || mNbVolumeBVTests == 1), s);
        return [];
      }
      var inside := ContainsBox(nodes[id].mAABB);
      if inside {
        mFlags := mFlags.Contact();
        DumpNoLeaf(mFlags, mTouchedPrimitives, nodes, id, t);
        DumpTree(mesh, volume, t, s, Now());
        return UpToFirst(s.flags.firstContact, Prims(t));
      }
      r := CollideChild(nodes, nodes[id].mData, t.pos);
      ghost var half, r' := Now(), [];
      SearchedFound(Must(mesh, volume), May(mesh, volume), s, Prims(t.pos), r, half);
      if !mFlags.ContactFound() {
        r' := CollideChild(nodes, nodes[id].mData2, t.neg);
      }
      FirstOfJoin(s.flags.firstContact, ListedBelow(mesh, volume, t.pos, false), ListedBelow(mesh, volume, t.neg, false));
      SearchedJoin(Must(mesh, volume), May(mesh, volume), s, Prims(t.pos), r, half, Prims(t.neg), r', Now());
      r := r + r';
    }

    method CollideChild(nodes: seq<AABBNoLeafNode>, word: nat, ghost t: Tree) returns (ghost r: seq<nat>)
      requires Ready() && EncodesChild(nodes, word, t) && Encloses(mesh, t)
      modifies `mFlags, `mNbVolumeBVTests, `mNbVolumePrimTests, mTouchedPrimitives
      ensures Searched(Must(mesh, volume), May(mesh, volume), old(Now()), Prims(t), r, Now())
      ensures r == UpToFirst(old(mFlags).firstContact, ListedBelow(mesh, volume, t, false))
      decreases t, 1
    {
      hide Searched, Must, May, Prepared, ValidMesh, Contains, CollisionBox, LeafTouch, BoxHasTriangle, Tagged, WordPrimitive, WordNode, EncodesNoLeaf;
      if Tagged(word) {
        assert Prims(t) == [WordPrimitive(word)];
        assert WordPrimitive(word) in Prims(t);
        LeafListed(mesh, volume, t, WordPrimitive(word), false);
        r := Prim(WordPrimitive(word));
      } else {
        r := CollideNoLeaf(nodes, WordNode(word), t);
      }
    }

    // ---------------------------------------------------------------- whole queries

    /** VolumeCollider::InitQueryEx */
    method InitQueryEx()
      modifies `mFlags, `mNbVolumeBVTests, `mNbVolumePrimTests
      ensures mFlags == old(mFlags).InitQueryEx() && mNbVolumeBVTests == mNbVolumePrimTests == 0
    {
      mNbVolumeBVTests, mNbVolumePrimTests := 0, 0;
      mFlags := mFlags.InitQueryEx();
    }

    /** First contact with temporal coherence: re-test the previously touched face. */
    method TestCachedFace(temporalHit: bool)
      requires ValidMesh(mesh) && Testable(volume)
      requires mTouchedPrimitives.entries != [] ==> mTouchedPrimitives.entries[0] < |mesh.faces|
      modifies `mFlags, `mNbVolumePrimTests, mTouchedPrimitives
      ensures if old(mTouchedPrimitives.entries) != [] && LeafTouch(volume, Tri(mesh, old(mTouchedPrimitives.entries[0])))
        then mTouchedPrimitives.entries == [old(mTouchedPrimitives.entries[0])] &&
             mFlags == if temporalHit then old(mFlags).TemporalContact() else old(mFlags).Contact()
        else mTouchedPrimitives.entries == [] && mFlags == old(mFlags)
    {
      hide ValidMesh, LeafTouch, Testable;
      if |mTouchedPrimitives.entries| != 0 {
        var previous := mTouchedPrimitives.entries[0];
        mTouchedPrimitives.Reset();
        var touch := PrimOverlap(previous);
        if touch {
          mFlags := if temporalHit then mFlags.TemporalContact() else mFlags.Contact();
          mTouchedPrimitives.Add(previous);
        }
      }
    }

    /** AABBCollider::InitQuery. Without a contact the collider is prepared for a search over
        an empty list, with mBox the box the answer is about. */
    method InitAABBQuery(cache: AABBCache, box: CollisionAABB, ghost ps: seq<nat>) returns (contact: bool)
      requires ValidMesh(mesh) && CacheUsable(mFlags, mesh, cache.TouchedPrimitives.entries)
      requires mFlags.temporalCoherence && !mFlags.firstContact ==> NonNegative(box.mExtents) && 1.0 <= cache.FatCoeff
      modifies this, cache, cache.TouchedPrimitives
      ensures mTouchedPrimitives == cache.TouchedPrimitives && contact == mFlags.contact
      ensures mFlags == old(mFlags).(contact := contact, temporalHit := contact)
      ensures !contact ==> Ready() && volume.AABBVolume? && mTouchedPrimitives.entries == []
      ensures !contact ==>
        Answer(mesh, ps, old(mFlags), cache.FatCoeff, old(cache.State()), box) ==
        CacheState(cache.FatBox, BruteForce(mesh, volume.mBox, ps, mFlags.firstContact))
      ensures contact ==> mTouchedPrimitives.entries != [] && cache.State() == Answer(mesh, ps, old(mFlags), cache.FatCoeff, old(cache.State()), box)
      ensures contact <==> Served(mesh, old(mFlags), old(cache.State()), box)
    {
      if mFlags.temporalCoherence && !mFlags.firstContact {
        FattenGrows(box, cache.FatCoeff);
      }
      assert IsInside(box, box);
      hide ValidMesh, BruteForce, TriBoxPasses, NonNegative, IsInside, Fatten, Prepared, Sub, Add;
      InitQueryEx();
      var mBox := box;
      volume := AABBVolume(mBox, ORIGIN, ORIGIN);
      mTouchedPrimitives := cache.TouchedPrimitives;
      if mFlags.temporalCoherence {
        if mFlags.firstContact {
          TestCachedFace(true);
        } else if IsInside(mBox, cache.FatBox) {
          if |mTouchedPrimitives.entries| != 0 {
            mFlags := mFlags.TemporalContact();
          }
        } else {
          mTouchedPrimitives.Reset();
          mBox := Fatten(mBox, cache.FatCoeff);
          cache.FatBox := mBox;
        }
      } else {
        mTouchedPrimitives.Reset();
      }
      if !mFlags.contact {
        volume := AABBVolume(mBox, Sub(box.mCenter, box.mExtents), Add(box.mCenter, box.mExtents));
        ThinBoxPrepared(box, mBox);
      }
      return mFlags.contact;
    }

    /** AABBCollider::Collide on the implicit layout: the cache and the status change as brute
        force over the tree's primitives says. */
    method CollideAABB(cache: AABBCache, box: CollisionAABB, nodes: seq<AABBCollisionNode>, ghost t: Tree)
      requires ValidMesh(mesh) && Encodes(nodes, 0, t) && Encloses(mesh, t)
      requires mFlags.temporalCoherence && !mFlags.firstContact ==> NonNegative(box.mExtents) && 1.0 <= cache.FatCoeff
      requires CacheUsable(mFlags, mesh, cache.TouchedPrimitives.entries)
      modifies this, cache, cache.TouchedPrimitives
      ensures cache.State() == Answer(mesh, Prims(t), old(mFlags), cache.FatCoeff, old(cache.State()), box)
      ensures mFlags.contact <==> cache.State().TouchedPrimitives != []
      ensures mFlags == old(mFlags).(contact := mFlags.contact, temporalHit := Served(mesh, old(mFlags), old(cache.State()), box))
    {
      hide ValidMesh, BruteForce, Served, Answer, Searched, Encodes, Encloses, NonNegative, Prepared;
      var contact := InitAABBQuery(cache, box, Prims(t));
      if contact { return; }
      ghost var s := Now();
      ghost var r := Collide(nodes, 0, t);
      SearchedBruteForce(mesh, volume, volume.mBox, s, Prims(t), r, Now());
    }

    /** The same query on the no-leaf layout: the same answer, in the same order. */
    method CollideAABBNoLeaf(cache: AABBCache, box: CollisionAABB, nodes: seq<AABBNoLeafNode>, ghost t: Tree)
      requires ValidMesh(mesh) && EncodesNoLeaf(nodes, 0, t) && Encloses(mesh, t)
      requires mFlags.temporalCoherence && !mFlags.firstContact ==> NonNegative(box.mExtents) && 1.0 <= cache.FatCoeff
      requires CacheUsable(mFlags, mesh, cache.TouchedPrimitives.entries)
      modifies this, cache, cache.TouchedPrimitives
      ensures cache.State() == Answer(mesh, Prims(t), old(mFlags), cache.FatCoeff, old(cache.State()), box)
      ensures mFlags.contact <==> cache.State().TouchedPrimitives != []
      ensures mFlags == old(mFlags).(contact := mFlags.contact, temporalHit := Served(mesh, old(mFlags), old(cache.State()), box))
    {
      hide ValidMesh, BruteForce, Served, Answer, Searched, EncodesNoLeaf, Encloses, NonNegative, Prepared;
      var contact := InitAABBQuery(cache, box, Prims(t));
      if contact { return; }
      ghost var s := Now();
      ghost var r := CollideNoLeaf(nodes, 0, t);
      SearchedBruteForce(mesh, volume, volume.mBox, s, Prims(t), r, Now());
    }

    /** The all-contacts branch of the temporal coherence check. */
    method CheckFatSphere(cache: SphereCache, sqrt: real -> real, q: SphereQuery) returns (mRadius2: real)
      requires mTouchedPrimitives == cache.TouchedPrimitives
      modifies `mFlags, cache, cache.TouchedPrimitives
      ensures var s := old(cache.State()); if Reuses(sqrt, s.Center, s.FatRadius2, q)
        then cache.State() == s && mRadius2 == q.Thin().radius2 && mFlags == if s.TouchedPrimitives != [] then old(mFlags).TemporalContact() else old(mFlags)
        else cache.State() == SphereState(q.center, q.Enlarged(cache.FatCoeff).radius2, []) && mRadius2 == cache.FatRadius2 && mFlags == old(mFlags)
    {
      hide Reuses, Square;
      mRadius2 := Square(q.radius);
      if Reuses(sqrt, cache.Center, cache.FatRadius2, q) {
        if |mTouchedPrimitives.entries| != 0 {
          mFlags := mFlags.TemporalContact();
        }
      } else {
        mTouchedPrimitives.Reset();
        mRadius2 := cache.FatCoeff * mRadius2;
        cache.Center := q.center;
        cache.FatRadius2 := mRadius2;
      }
    }

    /** SphereCollider::InitQuery. Without a contact the collider is prepared for a search over
        an empty list, with the ball the answer is about. */
    method InitSphereQuery(cache: SphereCache, sqrt: real -> real, center: Point, radius: real, worlds: Option<Motion>, worldm: Option<Motion>,
                           ghost ps: seq<nat>) returns (contact: bool)
      requires ValidMesh(mesh) && Square(radius) <= FLT_MAX && (mFlags.temporalCoherence && !mFlags.firstContact ==> cache.FatCoeff * Square(radius) <= FLT_MAX)
      requires CacheUsable(mFlags, mesh, cache.TouchedPrimitives.entries) && CacheWithin(mFlags, cache.TouchedPrimitives.entries, ps)
      modifies this, cache, cache.TouchedPrimitives
      ensures mTouchedPrimitives == cache.TouchedPrimitives && contact == mFlags.contact
      ensures mFlags == old(mFlags).(contact := contact, temporalHit := contact)
      ensures var q := SphereQuery(old(mFlags), ModelCenter(center, worlds, worldm), radius); var s := old(cache.State());
        if contact
        then mTouchedPrimitives.entries != [] && SphereAnswer(mesh, ps, cache.FatCoeff, sqrt, s, q, cache.State())
        else Ready() && volume == Solid(SearchBall(cache.FatCoeff, sqrt, s, q)) && Bypassed(cache.FatCoeff, sqrt, s, q, cache.State())
      ensures var q := SphereQuery(old(mFlags), ModelCenter(center, worlds, worldm), radius); var s := old(cache.State());
        && (contact <==> FromCache(sqrt, s, q) || FaceSettles(mesh, s, q))
        && (contact ==> mTouchedPrimitives.entries == if FromCache(sqrt, s, q) then s.TouchedPrimitives else [s.TouchedPrimitives[0]])
    {
      hide ValidMesh, Reuses, LeafTouch, Square, Tri, SphereAnswer;
      var flags := mFlags;
      InitQueryEx();
      var mCenter := center;
      if worlds.Some? { mCenter := Apply(worlds.value, mCenter); }
      if worldm.Some? { mCenter := Apply(Invert(worldm.value), mCenter); }
      assert mCenter == ModelCenter(center, worlds, worldm);
      hide ModelCenter, Apply, Invert;
      var q := SphereQuery(flags, mCenter, radius);
      ghost var s := cache.State();
      var mRadius2 := Square(radius);
      volume := SphereVolume(mCenter, mRadius2);
      mTouchedPrimitives := cache.TouchedPrimitives;
      if mFlags.temporalCoherence {
        if mFlags.firstContact {
          if |mTouchedPrimitives.entries| != 0 && LeafTouch(volume, Tri(mesh, mTouchedPrimitives.entries[0])) {
            CachedFaceAnswers(mesh, ps, cache.FatCoeff, sqrt, s, q, mTouchedPrimitives.entries[0]);
          }
          TestCachedFace(true);
        } else {
          if FromCache(sqrt, s, q) { ReusedAnswers(mesh, ps, cache.FatCoeff, sqrt, s, q); }
          mRadius2 := CheckFatSphere(cache, sqrt, q);
        }
      } else {
        mTouchedPrimitives.Reset();
      }
      if !mFlags.contact { volume := SphereVolume(mCenter, mRadius2); }
      return mFlags.contact;
    }

    /** SphereCollider::Collide on the implicit layout, in any mode. */
    method CollideSphere(cache: SphereCache, sqrt: real -> real, center: Point, radius: real, worlds: Option<Motion>, worldm: Option<Motion>,
                         nodes: seq<AABBCollisionNode>, ghost t: Tree)
      requires ValidMesh(mesh) && Encodes(nodes, 0, t) && Encloses(mesh, t)
      requires Square(radius) <= FLT_MAX && (mFlags.temporalCoherence && !mFlags.firstContact ==> cache.FatCoeff * Square(radius) <= FLT_MAX)
      requires CacheUsable(mFlags, mesh, cache.TouchedPrimitives.entries) && CacheWithin(mFlags, cache.TouchedPrimitives.entries, Prims(t))
      modifies this, cache, cache.TouchedPrimitives
      ensures mFlags.contact <==> cache.State().TouchedPrimitives != []
      ensures var q := SphereQuery(old(mFlags), ModelCenter(center, worlds, worldm), radius); var s := old(cache.State());
        && mFlags == old(mFlags).(contact := mFlags.contact, temporalHit := FromCache(sqrt, s, q) || FaceSettles(mesh, s, q))
        && SphereAnswer(mesh, Prims(t), cache.FatCoeff, sqrt, s, q, cache.State())
        && cache.State().TouchedPrimitives == SphereList(mesh, t, true, cache.FatCoeff, sqrt, s, q)
    {
      hide ValidMesh, Searched, Encodes, Encloses, Must, May, Prepared, Listed, ListedBelow, SphereAnswer, FaceSettles, FromCache, SearchBall, ModelCenter, Reuses, Square, Bypassed;
      ghost var q, start := SphereQuery(mFlags, ModelCenter(center, worlds, worldm), radius), cache.State();
      var contact := InitSphereQuery(cache, sqrt, center, radius, worlds, worldm, Prims(t));
      if contact { return; }
      ghost var s, bypassed := Now(), cache.State();
      EmptiedList(cache.FatCoeff, sqrt, start, q, bypassed);
      ghost var r := Collide(nodes, 0, t);
      SearchListed(mesh, Prims(t), SearchBall(cache.FatCoeff, sqrt, start, q), s, r, Now());
      SearchFillsCache(mesh, Prims(t), cache.FatCoeff, sqrt, start, q, bypassed, r);
    }

    method CollideSphereNoLeaf(cache: SphereCache, sqrt: real -> real, center: Point, radius: real, worlds: Option<Motion>, worldm: Option<Motion>,
                               nodes: seq<AABBNoLeafNode>, ghost t: Tree)
      requires ValidMesh(mesh) && EncodesNoLeaf(nodes, 0, t) && Encloses(mesh, t)
      requires Square(radius) <= FLT_MAX && (mFlags.temporalCoherence && !mFlags.firstContact ==> cache.FatCoeff * Square(radius) <= FLT_MAX)
      requires CacheUsable(mFlags, mesh, cache.TouchedPrimitives.entries) && CacheWithin(mFlags, cache.TouchedPrimitives.entries, Prims(t))
      modifies this, cache, cache.TouchedPrimitives
      ensures mFlags.contact <==> cache.State().TouchedPrimitives != []
      ensures var q := SphereQuery(old(mFlags), ModelCenter(center, worlds, worldm), radius); var s := old(cache.State());
        && mFlags == old(mFlags).(contact := mFlags.contact, temporalHit := FromCache(sqrt, s, q) || FaceSettles(mesh, s, q))
        && SphereAnswer(mesh, Prims(t), cache.FatCoeff, sqrt, s, q, cache.State())
        && cache.State().TouchedPrimitives == SphereList(mesh, t, false, cache.FatCoeff, sqrt, s, q)
    {
      hide ValidMesh, Searched, EncodesNoLeaf, Encloses, Must, May, Prepared, Listed, ListedBelow, SphereAnswer, FaceSettles, FromCache, SearchBall, ModelCenter, Reuses, Square, Bypassed;
      ghost var q, start := SphereQuery(mFlags, ModelCenter(center, worlds, worldm), radius), cache.State();
      var contact := InitSphereQuery(cache, sqrt, center, radius, worlds, worldm, Prims(t));
      if contact { return; }
      ghost var s, bypassed := Now(), cache.State();
      EmptiedList(cache.FatCoeff, sqrt, start, q, bypassed);
      ghost var r := CollideNoLeaf(nodes, 0, t);
      SearchListed(mesh, Prims(t), SearchBall(cache.FatCoeff, sqrt, start, q), s, r, Now());
      SearchFillsCache(mesh, Prims(t), cache.FatCoeff, sqrt, start, q, bypassed, r);
    }

    /** InitQuery of the oriented-box collider, once the volume is computed. A cached face that
        still touches settles a first-contact query. */
    method InitOBBQuery(v: Volume, touched: Container, ghost ps: seq<nat>) returns (contact: bool)
      requires ValidMesh(mesh) && Prepared(v) && v.OBBVolume?
      requires CacheUsable(mFlags, mesh, touched.entries) && CacheWithin(mFlags, touched.entries, ps)
      modifies this, touched
      ensures mTouchedPrimitives == touched && volume == v && contact == mFlags.contact
      ensures mFlags == old(mFlags).(contact := contact, temporalHit := false)
      ensures contact <==> (
        && old(mFlags).temporalCoherence && old(mFlags).firstContact && old(touched.entries) != []
        && old(touched.entries)[0] in Must(mesh, v))
      ensures touched.entries == if contact then [old(touched.entries)[0]] else []
      ensures !contact ==> Ready()
      ensures contact ==> Answered(Must(mesh, v), Must(mesh, v), true, ps, touched.entries, true)
    {
      hide ValidMesh, Prepared, MayTouch, MustTouch, LeafTouch, Tri;
      InitQueryEx();
      volume := v;
      mTouchedPrimitives := touched;
      assert Testable(v) by { PreparedTestable(v); }
      hide Testable;
      if mFlags.temporalCoherence && mFlags.firstContact {
        if touched.entries != [] { LeafBetween(v, Tri(mesh, touched.entries[0])); }
        TestCachedFace(false);
      } else {
        mTouchedPrimitives.Reset();
      }
      return mFlags.contact;
    }

    /** OBBCollider::Collide: exactly the triangles sharing a point with the oriented box. */
    method CollideOBB(touched: Container, center: Point, extents: Point, rot: Matrix3x3, full: bool,
                      worldb: Option<Motion>, worldm: Option<Motion>, nodes: seq<AABBCollisionNode>, ghost t: Tree)
      requires ValidMesh(mesh) && Encodes(nodes, 0, t) && Encloses(mesh, t) && IsRotation(rot) && NonNegative(extents)
      requires ValidWorld(worldb) && ValidWorld(worldm)
      requires CacheUsable(mFlags, mesh, touched.entries) && CacheWithin(mFlags, touched.entries, Prims(t))
      modifies this, touched
      ensures var v := OrientedBox(center, extents, rot, worldb, worldm, full);
        && Answered(Must(mesh, v), Must(mesh, v), mFlags.firstContact, Prims(t), touched.entries, mFlags.contact)
        && touched.entries == ExactList(Must(mesh, v), old(mFlags), old(touched.entries), Prims(t))
      ensures mFlags == old(mFlags).(contact := touched.entries != [], temporalHit := false)
    {
      hide ValidMesh, Searched, Encodes, Encloses, Answered, Must, May, Prepared, IsRotation, NonNegative, UpToFirst, Filter;
      var v := OrientedBox(center, extents, rot, worldb, worldm, full);
      OrientedBoxPrepared(center, extents, rot, worldb, worldm, full);
      hide OrientedBox;
      var contact := InitOBBQuery(v, touched, Prims(t));
      if contact { return; }
      OrientedExact(mesh, v);
      ghost var s := Now();
      ghost var r := Collide(nodes, 0, t);
      SearchAnswers(Must(mesh, volume), May(mesh, volume), s, Prims(t), r, Now());
      ExactSearch(Must(mesh, volume), s, Prims(t), r, Now());
    }

    method CollideOBBNoLeaf(touched: Container, center: Point, extents: Point, rot: Matrix3x3, full: bool,
                            worldb: Option<Motion>, worldm: Option<Motion>, nodes: seq<AABBNoLeafNode>, ghost t: Tree)
      requires ValidMesh(mesh) && EncodesNoLeaf(nodes, 0, t) && Encloses(mesh, t) && IsRotation(rot) && NonNegative(extents)
      requires ValidWorld(worldb) && ValidWorld(worldm)
      requires CacheUsable(mFlags, mesh, touched.entries) && CacheWithin(mFlags, touched.entries, Prims(t))
      modifies this, touched
      ensures var v := OrientedBox(center, extents, rot, worldb, worldm, full);
        && Answered(Must(mesh, v), Must(mesh, v), mFlags.firstContact, Prims(t), touched.entries, mFlags.contact)
        && touched.entries == ExactList(Must(mesh, v), old(mFlags), old(touched.entries), Prims(t))
      ensures mFlags == old(mFlags).(contact := touched.entries != [], temporalHit := false)
    {
      hide ValidMesh, Searched, EncodesNoLeaf, Encloses, Answered, Must, May, Prepared, IsRotation, NonNegative, UpToFirst, Filter;
      var v := OrientedBox(center, extents, rot, worldb, worldm, full);
      OrientedBoxPrepared(center, extents, rot, worldb, worldm, full);
      hide OrientedBox;
      var contact := InitOBBQuery(v, touched, Prims(t));
      if contact { return; }
      OrientedExact(mesh, v);
      ghost var s := Now();
      ghost var r := CollideNoLeaf(nodes, 0, t);
      SearchAnswers(Must(mesh, volume), May(mesh, volume), s, Prims(t), r, Now());
      ExactSearch(Must(mesh, volume), s, Prims(t), r, Now());
    }
  }
}
