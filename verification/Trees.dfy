/** Meshes, source AABB trees as values, and the facts about them every layout and every
    query relies on. */
module Trees {
  import opened Geometry
  import opened Reals

  /** Box in (min, max) form, as the generic tree stores it. */
  datatype AABB = AABB(mMin: Point, mMax: Point)

  function GetCenter(b: AABB): Point {
    Scale(0.5, Add(b.mMax, b.mMin))
  }

  function GetExtents(b: AABB): Point {
    Scale(0.5, Sub(b.mMax, b.mMin))
  }

  /** The (center, extents) box an optimized node stores for a tree box. */
  function CollisionBox(b: AABB): CollisionAABB {
    CollisionAABB(GetCenter(b), GetExtents(b))
  }

  /** A tree over primitive indices. Complete trees have one primitive per leaf. */
  datatype Tree =
    | Leaf(box: AABB, prims: seq<nat>)
    | Node(box: AABB, pos: Tree, neg: Tree)

  /** Primitives in depth-first order, positive child first. */
  function Prims(t: Tree): seq<nat> {
    match t
    case Leaf(_, ps) => ps
    case Node(_, p, n) => Prims(p) + Prims(n)
  }

  function Count(t: Tree): nat {
    match t
    case Leaf(_, _) => 1
    case Node(_, p, n) => 1 + Count(p) + Count(n)
  }

  function Depth(t: Tree): nat {
    match t
    case Leaf(_, _) => 1
    case Node(_, p, n) => 1 + if Depth(p) < Depth(n) then Depth(n) else Depth(p)
  }

  /** Some path from the root to a leaf passes n nodes. */
  predicate HasPath(t: Tree, n: int) {
    match t
    case Leaf(_, _) => n == 1
    case Node(_, p, q) => HasPath(p, n - 1) || HasPath(q, n - 1)
  }

  /** The depth is the length of a longest path. */
  lemma {:induction false} DepthIsLongest(t: Tree, n: int)
    ensures HasPath(t, Depth(t)) && (HasPath(t, n) ==> n <= Depth(t))
  {
    if t.Node? {
      DepthIsLongest(t.pos, n - 1);
      DepthIsLongest(t.neg, n - 1);
    }
  }

  predicate Complete(t: Tree) {
    match t
    case Leaf(_, ps) => |ps| == 1
    case Node(_, p, n) => Complete(p) && Complete(n)
  }

  predicate NoEmptyLeaf(t: Tree) {
    match t
    case Leaf(_, ps) => |ps| >= 1
    case Node(_, p, n) => NoEmptyLeaf(p) && NoEmptyLeaf(n)
  }

  lemma {:induction false} CountBound(t: Tree)
    requires NoEmptyLeaf(t)
    ensures 1 <= Count(t) <= 2 * |Prims(t)| - 1
  {
    if t.Node? {
      CountBound(t.pos);
      CountBound(t.neg);
    }
  }

  /** The node-count test the optimized trees apply to their input is exact: a tree has
      2N-1 nodes if and only if every leaf holds one primitive. */
  lemma {:induction false} CompleteIffCount(t: Tree)
    requires NoEmptyLeaf(t)
    ensures Complete(t) <==> Count(t) == 2 * |Prims(t)| - 1
  {
    if t.Node? {
      CountBound(t.pos);
      CountBound(t.neg);
      CompleteIffCount(t.pos);
      CompleteIffCount(t.neg);
    }
  }

  // -------------------------------------------------------------------- meshes

  datatype Face = Face(a: nat, b: nat, c: nat)

  datatype Mesh = Mesh(faces: seq<Face>, verts: seq<Point>)

  predicate FinitePoint(p: Point) {
    Abs(p.x) <= FLT_MAX && Abs(p.y) <= FLT_MAX && Abs(p.z) <= FLT_MAX
  }

  /** Every vertex reference is in range and every coordinate is a finite binary32 value. */
  ghost predicate ValidMesh(m: Mesh) {
    && (forall i :: 0 <= i < |m.faces| ==> m.faces[i].a < |m.verts| && m.faces[i].b < |m.verts| && m.faces[i].c < |m.verts|)
    && (forall i :: 0 <= i < |m.verts| ==> FinitePoint(m.verts[i]))
  }

  function Tri(m: Mesh, i: nat): Triangle
    requires ValidMesh(m) && i < |m.faces|
  {
    Triangle(m.verts[m.faces[i].a], m.verts[m.faces[i].b], m.verts[m.faces[i].c])
  }

  predicate InMesh(m: Mesh, ps: seq<nat>) {
    forall i :: i in ps ==> i < |m.faces|
  }

  function TriMin(t: Triangle, axis: nat): real {
    Min(Min(Coord(t.v0, axis), Coord(t.v1, axis)), Coord(t.v2, axis))
  }

  function TriMax(t: Triangle, axis: nat): real {
    Max(Max(Coord(t.v0, axis), Coord(t.v1, axis)), Coord(t.v2, axis))
  }

  /** The box encloses the triangles of `ps`. */
  ghost predicate Bounds(m: Mesh, ps: seq<nat>, box: AABB)
    requires ValidMesh(m) && InMesh(m, ps)
  {
    forall i, axis :: i in ps && 0 <= axis < 3 ==>
      Coord(box.mMin, axis) <= TriMin(Tri(m, i), axis) && TriMax(Tri(m, i), axis) <= Coord(box.mMax, axis)
  }

  /** Both faces of the box across the axis touch one of the triangles of `ps`. */
  ghost predicate TouchedAcross(m: Mesh, ps: seq<nat>, box: AABB, axis: nat)
    requires ValidMesh(m) && InMesh(m, ps)
  {
    && (exists i :: i in ps && TriMin(Tri(m, i), axis) == Coord(box.mMin, axis))
    && (exists i :: i in ps && TriMax(Tri(m, i), axis) == Coord(box.mMax, axis))
  }

  /** Every face of the box touches one of the triangles of `ps`. */
  ghost predicate Touched(m: Mesh, ps: seq<nat>, box: AABB)
    requires ValidMesh(m) && InMesh(m, ps)
  {
    TouchedAcross(m, ps, box, 0) && TouchedAcross(m, ps, box, 1) && TouchedAcross(m, ps, box, 2)
  }

  /** The smallest box around the triangles of `ps`. */
  ghost predicate TightBox(m: Mesh, ps: seq<nat>, box: AABB)
    requires ValidMesh(m) && InMesh(m, ps)
  {
    Bounds(m, ps, box) && Touched(m, ps, box)
  }

  ghost predicate TightTree(m: Mesh, t: Tree)
    requires ValidMesh(m)
  {
    InMesh(m, Prims(t)) && TightBox(m, Prims(t), t.box) &&
    (t.Node? ==> TightTree(m, t.pos) && TightTree(m, t.neg))
  }

  /** Tightness only depends on which primitives there are, not on their order. */
  lemma TightBoxReordered(m: Mesh, ps: seq<nat>, qs: seq<nat>, box: AABB)
    requires ValidMesh(m) && InMesh(m, ps) && TightBox(m, ps, box) && multiset(ps) == multiset(qs)
    ensures InMesh(m, qs) && TightBox(m, qs, box)
  {
    forall i | true ensures i in ps <==> i in qs {
      assert i in ps <==> i in multiset(ps);
      assert i in qs <==> i in multiset(qs);
    }
    hide TouchedAcross, Tri, ValidMesh, Coord, TriMin, TriMax;
    assert Bounds(m, qs, box);
    hide Bounds;
    TouchedReordered(m, ps, qs, box, 0);
    TouchedReordered(m, ps, qs, box, 1);
    TouchedReordered(m, ps, qs, box, 2);
  }

  lemma TouchedReordered(m: Mesh, ps: seq<nat>, qs: seq<nat>, box: AABB, axis: nat)
    requires ValidMesh(m) && InMesh(m, ps) && InMesh(m, qs) && TouchedAcross(m, ps, box, axis) && forall i :: i in ps ==> i in qs
    ensures TouchedAcross(m, qs, box, axis)
  {
    hide ValidMesh, Tri, Coord, TriMin, TriMax;
    var i :| i in ps && TriMin(Tri(m, i), axis) == Coord(box.mMin, axis);
    var j :| j in ps && TriMax(Tri(m, j), axis) == Coord(box.mMax, axis);
    assert i in qs && j in qs;
  }

  predicate BoxWithin(a: AABB, b: AABB) {
    forall axis :: 0 <= axis < 3 ==> Coord(b.mMin, axis) <= Coord(a.mMin, axis) && Coord(a.mMax, axis) <= Coord(b.mMax, axis)
  }

  /** A tight box of fewer primitives lies inside any box bounding all of them: children's
      boxes are contained in their parent's. */
  lemma TightBoxWithin(m: Mesh, ps: seq<nat>, qs: seq<nat>, a: AABB, b: AABB)
    requires ValidMesh(m) && InMesh(m, ps) && InMesh(m, qs) && TightBox(m, ps, a) && Bounds(m, qs, b)
    requires forall i :: i in ps ==> i in qs
    ensures BoxWithin(a, b)
  {
    hide TriMin, TriMax, Coord, ValidMesh, Tri;
    forall axis | 0 <= axis < 3
      ensures Coord(b.mMin, axis) <= Coord(a.mMin, axis) && Coord(a.mMax, axis) <= Coord(b.mMax, axis)
    {
      var i :| i in ps && TriMin(Tri(m, i), axis) == Coord(a.mMin, axis);
      var k :| k in ps && TriMax(Tri(m, k), axis) == Coord(a.mMax, axis);
    }
  }

  /** Two tight boxes of the same primitives are the same box. */
  lemma TightBoxUnique(m: Mesh, ps: seq<nat>, a: AABB, b: AABB)
    requires ValidMesh(m) && InMesh(m, ps) && TightBox(m, ps, a) && TightBox(m, ps, b)
    ensures a == b
  {
    hide TightBox;
    assert Bounds(m, ps, a) && Bounds(m, ps, b) by { TightBounds(m, ps, a); TightBounds(m, ps, b); }
    hide Bounds;
    TightBoxWithin(m, ps, ps, a, b);
    TightBoxWithin(m, ps, ps, b, a);
    SameCoords(a, b);
  }

  lemma TightBounds(m: Mesh, ps: seq<nat>, a: AABB)
    requires ValidMesh(m) && InMesh(m, ps) && TightBox(m, ps, a)
    ensures Bounds(m, ps, a)
  {}

  lemma SameCoords(a: AABB, b: AABB)
    requires BoxWithin(a, b) && BoxWithin(b, a)
    ensures a == b
  {
    assert Coord(a.mMin, 0) == Coord(b.mMin, 0) && Coord(a.mMin, 1) == Coord(b.mMin, 1) && Coord(a.mMin, 2) == Coord(b.mMin, 2);
    assert Coord(a.mMax, 0) == Coord(b.mMax, 0) && Coord(a.mMax, 1) == Coord(b.mMax, 1) && Coord(a.mMax, 2) == Coord(b.mMax, 2);
  }

  /** Every node's box holds every triangle below it: what the queries prune with. */
  ghost predicate Encloses(m: Mesh, t: Tree)
    requires ValidMesh(m)
  {
    InMesh(m, Prims(t)) && (forall i :: i in Prims(t) ==> BoxHasTriangle(CollisionBox(t.box), Tri(m, i))) &&
    (t.Node? ==> Encloses(m, t.pos) && Encloses(m, t.neg))
  }

  lemma HalfRange(lo: real, hi: real, p: real)
    ensures lo <= p <= hi <==> Abs(p - 0.5 * (hi + lo)) <= 0.5 * (hi - lo)
  {}

  /** The (center, extents) form has the points between the two corners. */
  lemma CollisionBoxHas(lo: Point, hi: Point, p: Point)
    ensures BoxHas(CollisionBox(AABB(lo, hi)), p) <==> lo.x <= p.x <= hi.x && lo.y <= p.y <= hi.y && lo.z <= p.z <= hi.z
  {
    HalfRange(lo.x, hi.x, p.x);
    HalfRange(lo.y, hi.y, p.y);
    HalfRange(lo.z, hi.z, p.z);
    hide Abs;
  }

  lemma BoundedTriangle(m: Mesh, ps: seq<nat>, box: AABB, i: nat)
    requires ValidMesh(m) && InMesh(m, ps) && Bounds(m, ps, box) && i in ps
    ensures BoxHasTriangle(CollisionBox(box), Tri(m, i))
  {
    var t := Tri(m, i);
    forall axis: nat | axis < 3 ensures Coord(box.mMin, axis) <= TriMin(t, axis) && TriMax(t, axis) <= Coord(box.mMax, axis) {}
    hide BoxHas, Tri, ValidMesh, Bounds, Coord, TriMin, TriMax;
    BoundedVertex(box, t, t.v0);
    BoundedVertex(box, t, t.v1);
    BoundedVertex(box, t, t.v2);
  }

  lemma BoundedVertex(box: AABB, t: Triangle, p: Point)
    requires p == t.v0 || p == t.v1 || p == t.v2
    requires forall axis: nat :: axis < 3 ==> Coord(box.mMin, axis) <= TriMin(t, axis) && TriMax(t, axis) <= Coord(box.mMax, axis)
    ensures BoxHas(CollisionBox(box), p)
  {
    VertexBetween(box, t, p, 0);
    VertexBetween(box, t, p, 1);
    VertexBetween(box, t, p, 2);
    hide TriMin, TriMax, BoxHas;
    CollisionBoxHas(box.mMin, box.mMax, p);
  }

  lemma VertexBetween(box: AABB, t: Triangle, p: Point, axis: nat)
    requires (p == t.v0 || p == t.v1 || p == t.v2) && Coord(box.mMin, axis) <= TriMin(t, axis) && TriMax(t, axis) <= Coord(box.mMax, axis)
    ensures Coord(box.mMin, axis) <= Coord(p, axis) <= Coord(box.mMax, axis)
  {
    hide Coord;
  }

  /** A tight tree encloses; so pruning on its boxes loses nothing. */
  lemma {:induction false} TightTreeEncloses(m: Mesh, t: Tree)
    requires ValidMesh(m) && TightTree(m, t)
    ensures Encloses(m, t)
  {
    hide BoxHasTriangle, CollisionBox, Bounds, Touched;
    forall i | i in Prims(t) ensures BoxHasTriangle(CollisionBox(t.box), Tri(m, i)) {
      BoundedTriangle(m, Prims(t), t.box, i);
    }
    if t.Node? {
      TightTreeEncloses(m, t.pos);
      TightTreeEncloses(m, t.neg);
    }
  }

  /** In a tight tree every child box is contained in its parent's. */
  ghost predicate Nested(t: Tree) {
    t.Node? ==> BoxWithin(t.pos.box, t.box) && BoxWithin(t.neg.box, t.box) && Nested(t.pos) && Nested(t.neg)
  }

  lemma {:induction false} TightTreeNested(m: Mesh, t: Tree)
    requires ValidMesh(m) && TightTree(m, t)
    ensures Nested(t)
  {
    if t.Node? {
      hide Bounds, Touched, BoxWithin;
      TightBoxWithin(m, Prims(t.pos), Prims(t), t.pos.box, t.box);
      TightBoxWithin(m, Prims(t.neg), Prims(t), t.neg.box, t.box);
      TightTreeNested(m, t.pos);
      TightTreeNested(m, t.neg);
    }
  }
}
