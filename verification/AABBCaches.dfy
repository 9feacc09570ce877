/** The AABB collider's temporal coherence (InitQuery of OPC_AABBCollider.cpp) as a transition
    on the cache, in terms of brute force only, and what holds over whole runs of queries. */
module AABBCaches {
  import opened ColliderFlags
  import opened Geometry
  import opened Reals
  import opened Search
  import opened Trees
  import opened TriBox
  import opened TriBoxExact

  datatype CacheState = CacheState(FatBox: CollisionAABB, TouchedPrimitives: seq<nat>)

  const ZERO_BOX := CollisionAABB(Point(0.0, 0.0, 0.0), Point(0.0, 0.0, 0.0))

  /** CollisionAABB::IsInside, on the boxes' min and max corners. */
  predicate IsInside(a: CollisionAABB, box: CollisionAABB) {
    && box.mCenter.x - box.mExtents.x <= a.mCenter.x - a.mExtents.x
    && box.mCenter.y - box.mExtents.y <= a.mCenter.y - a.mExtents.y
    && box.mCenter.z - box.mExtents.z <= a.mCenter.z - a.mExtents.z
    && a.mCenter.x + a.mExtents.x <= box.mCenter.x + box.mExtents.x
    && a.mCenter.y + a.mExtents.y <= box.mCenter.y + box.mExtents.y
    && a.mCenter.z + a.mExtents.z <= box.mCenter.z + box.mExtents.z
  }

  function Fatten(box: CollisionAABB, coeff: real): CollisionAABB {
    box.(mExtents := Scale(coeff, box.mExtents))
  }

  /** Brute force: the triangles the exact test accepts against a box. */
  ghost function Hits(m: Mesh, box: CollisionAABB): set<nat>
    requires ValidMesh(m)
  {
    set i: nat | i < |m.faces| && TriBoxPasses(Tri(m, i), box, true)
  }

  ghost function BruteForce(m: Mesh, box: CollisionAABB, ps: seq<nat>, first: bool): seq<nat>
    requires ValidMesh(m)
  {
    UpToFirst(first, Filter(Hits(m, box), ps))
  }

  /** The cache after one query for `box`, over the primitives `ps` in tree order. */
  ghost function Answer(m: Mesh, ps: seq<nat>, flags: Flags, coeff: real, s: CacheState, box: CollisionAABB): CacheState
    requires ValidMesh(m)
  {
    if !flags.temporalCoherence then s.(TouchedPrimitives := BruteForce(m, box, ps, flags.firstContact))
    else if flags.firstContact then
      if s.TouchedPrimitives != [] && s.TouchedPrimitives[0] in Hits(m, box) then s.(TouchedPrimitives := [s.TouchedPrimitives[0]])
      else s.(TouchedPrimitives := BruteForce(m, box, ps, true))
    else if IsInside(box, s.FatBox) then
      if s.TouchedPrimitives != [] then s else s.(TouchedPrimitives := BruteForce(m, box, ps, false))
    else CacheState(Fatten(box, coeff), BruteForce(m, Fatten(box, coeff), ps, false))
  }

  /** The query is answered without a search: by the list, when the fat box holds the box, or
      by its first face, when that still touches the box in first-contact mode. */
  ghost predicate Served(m: Mesh, flags: Flags, s: CacheState, box: CollisionAABB)
    requires ValidMesh(m)
  {
    flags.temporalCoherence && s.TouchedPrimitives != [] && if flags.firstContact then s.TouchedPrimitives[0] in Hits(m, box) else IsInside(box, s.FatBox)
  }

  // ------------------------------------------------------------------ geometry

  lemma IsInsideIsBoxInside(a: CollisionAABB, b: CollisionAABB)
    ensures IsInside(a, b) <==> BoxInside(a, b)
  {}

  /** A bigger box hits at least as much. */
  lemma HitsGrow(m: Mesh, a: CollisionAABB, b: CollisionAABB)
    requires ValidMesh(m) && IsInside(a, b)
    ensures Hits(m, a) <= Hits(m, b)
  {
    IsInsideIsBoxInside(a, b);
    hide ValidMesh, TriBoxPasses, IsInside, BoxInside, Tri;
    forall i | i in Hits(m, a) ensures i in Hits(m, b) {
      PassesMonotone(Tri(m, i), a, b, true);
    }
  }

  /** Brute force in geometric terms: the faces with a point in the box. */
  lemma HitsTouch(m: Mesh, box: CollisionAABB, i: nat)
    requires ValidMesh(m) && i < |m.faces| && ValidBox(box)
    ensures i in Hits(m, box) <==> Touches(Tri(m, i), box)
  {
    FullTestIff(Tri(m, i), box);
    HitsAt(m, box, i);
    hide ValidMesh, Tri, Hits, TriBoxPasses, Touches;
  }

  lemma FattenGrows(box: CollisionAABB, coeff: real)
    requires NonNegative(box.mExtents) && 1.0 <= coeff
    ensures IsInside(box, Fatten(box, coeff))
  {
    MulMono(box.mExtents.x, 1.0, coeff);
    MulMono(box.mExtents.y, 1.0, coeff);
    MulMono(box.mExtents.z, 1.0, coeff);
  }

  /** The fat box is the box scaled about its center. */
  lemma FattenScales(box: CollisionAABB, k: real, d: Point)
    requires 0.0 < k
    ensures BoxHas(Fatten(box, k), Add(box.mCenter, Scale(k, d))) <==> BoxHas(box, Add(box.mCenter, d))
  {
    ScaledWithin(k, d.x, box.mExtents.x);
    ScaledWithin(k, d.y, box.mExtents.y);
    ScaledWithin(k, d.z, box.mExtents.z);
  }

  lemma Displaced(c: Point, k: real, p: Point) returns (d: Point)
    requires 0.0 < k
    ensures p == Add(c, Scale(k, d))
  {
    d := Point((p.x - c.x) / k, (p.y - c.y) / k, (p.z - c.z) / k);
    DivMul(p.x - c.x, k);
    DivMul(p.y - c.y, k);
    DivMul(p.z - c.z, k);
  }

  /** A face some of whose points lie in the box scaled about its center. */
  ghost predicate TouchesScaled(t: Triangle, box: CollisionAABB, k: real) {
    exists d :: BoxHas(box, Add(box.mCenter, d)) && InTriangle(t, Add(box.mCenter, Scale(k, d)))
  }

  lemma TouchesFat(t: Triangle, box: CollisionAABB, k: real)
    requires 0.0 < k
    ensures Touches(t, Fatten(box, k)) <==> TouchesScaled(t, box, k)
  {
    hide BoxHas, InTriangle, Fatten, Scale, Add;
    forall p | InTriangle(t, p) && BoxHas(Fatten(box, k), p) ensures TouchesScaled(t, box, k) {
      var d := Displaced(box.mCenter, k, p);
      FattenScales(box, k, d);
    }
    forall d | BoxHas(box, Add(box.mCenter, d)) && InTriangle(t, Add(box.mCenter, Scale(k, d))) ensures Touches(t, Fatten(box, k)) {
      FattenScales(box, k, d);
    }
  }

  lemma FatValid(box: CollisionAABB, k: real)
    requires ValidBox(box) && 0.0 < k
    ensures ValidBox(Fatten(box, k))
  {
    ProductNonNegative(k, box.mExtents.x);
    ProductNonNegative(k, box.mExtents.y);
    ProductNonNegative(k, box.mExtents.z);
  }

  lemma BruteForceFaces(m: Mesh, box: CollisionAABB, ps: seq<nat>, i: nat)
    requires ValidMesh(m) && ValidBox(box)
    ensures i in BruteForce(m, box, ps, false) <==> i in ps && i < |m.faces| && Touches(Tri(m, i), box)
  {
    FilterMembers(Hits(m, box), ps, i);
    if i < |m.faces| { HitsTouch(m, box, i); }
    hide TriBoxPasses, ValidBox, Touches, ValidMesh, Tri;
  }

  /** What an all-contacts search lists: without coherence the faces with a point in the box,
      with it those with a point in the box scaled by the fat coefficient about its center,
      which is then the cached box. */
  lemma SearchedFaces(m: Mesh, ps: seq<nat>, flags: Flags, coeff: real, s: CacheState, box: CollisionAABB, i: nat)
    requires ValidMesh(m) && ValidBox(box) && 0.0 < coeff && !flags.firstContact
    requires flags.temporalCoherence ==> !IsInside(box, s.FatBox)
    ensures var s' := Answer(m, ps, flags, coeff, s, box);
      && (i in s'.TouchedPrimitives <==> i in ps && i < |m.faces| && TouchesScaled(Tri(m, i), box, if flags.temporalCoherence then coeff else 1.0))
      && (!flags.temporalCoherence ==> s'.FatBox == s.FatBox)
      && (flags.temporalCoherence ==> forall d :: BoxHas(s'.FatBox, Add(box.mCenter, Scale(coeff, d))) <==> BoxHas(box, Add(box.mCenter, d)))
  {
    var k := if flags.temporalCoherence then coeff else 1.0;
    FatValid(box, k);
    BruteForceFaces(m, Fatten(box, k), ps, i);
    if i < |m.faces| { TouchesFat(Tri(m, i), box, k); }
    assert Fatten(box, 1.0) == box;
    forall d | true ensures BoxHas(Fatten(box, coeff), Add(box.mCenter, Scale(coeff, d))) <==> BoxHas(box, Add(box.mCenter, d)) {
      FattenScales(box, coeff, d);
    }
    hide BoxHas, Fatten, Scale, Add, BruteForce, ValidBox, Touches, TouchesScaled, ValidMesh, Tri, IsInside;
  }

  // ------------------------------------------------------------- runs of queries

  /** One query on the cache: the collider's mode and the box. */
  datatype Query = Query(flags: Flags, box: CollisionAABB) {
    predicate Coherent() { flags.temporalCoherence && !flags.firstContact }
  }

  /** The cache after a run of queries in any modes. */
  ghost function Run(m: Mesh, ps: seq<nat>, coeff: real, qs: seq<Query>): CacheState
    requires ValidMesh(m)
  {
    if qs == [] then CacheState(ZERO_BOX, [])
    else Answer(m, ps, Last(qs).flags, coeff, Run(m, ps, coeff, Before(qs)), Last(qs).box)
  }

  function Last(qs: seq<Query>): Query
    requires qs != []
  {
    qs[|qs| - 1]
  }

  function Before(qs: seq<Query>): (r: seq<Query>)
    requires qs != []
    ensures |r| < |qs|
  {
    qs[..|qs| - 1]
  }

  /** Where the list comes from, as far as the queries tell: from the search that set FatBox,
      or from a later query that overwrote it and kept FatBox. */
  datatype Source = FromFatBox | FromBox(box: CollisionAABB) | FromFirstContact(box: CollisionAABB)

  datatype Origin = Origin(FatBox: CollisionAABB, source: Source)

  function OriginOf(coeff: real, qs: seq<Query>): Origin
    decreases |qs|
  {
    if qs == [] then Origin(ZERO_BOX, FromFatBox)
    else
      var o, q := OriginOf(coeff, Before(qs)), Last(qs);
      if q.flags.firstContact then o.(source := FromFirstContact(q.box))
      else if !q.flags.temporalCoherence then o.(source := FromBox(q.box))
      else if IsInside(q.box, o.FatBox) then o
      else Origin(Fatten(q.box, coeff), FromFatBox)
  }

  lemma {:induction false} FatBoxOf(m: Mesh, ps: seq<nat>, coeff: real, qs: seq<Query>)
    requires ValidMesh(m)
    ensures Run(m, ps, coeff, qs).FatBox == OriginOf(coeff, qs).FatBox
    decreases |qs|
  {
    hide ValidMesh, IsInside, Fatten, Hits, BruteForce;
    if qs != [] { FatBoxOf(m, ps, coeff, Before(qs)); }
  }

  /** The list is the fat box's brute-force answer, and the fat box holds the last query. */
  ghost predicate Coherent(m: Mesh, ps: seq<nat>, s: CacheState, box: CollisionAABB)
    requires ValidMesh(m)
  {
    s.TouchedPrimitives == BruteForce(m, s.FatBox, ps, false) && IsInside(box, s.FatBox)
  }

  lemma EmptyStaysEmpty(m: Mesh, ps: seq<nat>, a: CollisionAABB, b: CollisionAABB)
    requires ValidMesh(m) && IsInside(a, b) && BruteForce(m, b, ps, false) == []
    ensures BruteForce(m, a, ps, false) == []
  {
    HitsGrow(m, a, b);
    hide IsInside, Hits, ValidMesh;
    if BruteForce(m, a, ps, false) != [] {
      var p := Filter(Hits(m, a), ps)[0];
      FilterMembers(Hits(m, a), ps, p);
      FilterMembers(Hits(m, b), ps, p);
    }
  }

  /** One coherent query makes the cache coherent, from the initial cache or a coherent one. */
  lemma AnswerCoherent(m: Mesh, ps: seq<nat>, coeff: real, s: CacheState, q: Query)
    requires ValidMesh(m) && q.Coherent() && NonNegative(q.box.mExtents) && 1.0 <= coeff
    requires s == CacheState(ZERO_BOX, []) || s.TouchedPrimitives == BruteForce(m, s.FatBox, ps, false) || !IsInside(q.box, s.FatBox)
    ensures Coherent(m, ps, Answer(m, ps, q.flags, coeff, s, q.box), q.box)
  {
    FattenGrows(q.box, coeff);
    if IsInside(q.box, s.FatBox) && s.TouchedPrimitives == [] {
      if s.TouchedPrimitives == BruteForce(m, s.FatBox, ps, false) {
        EmptyStaysEmpty(m, ps, q.box, s.FatBox);
      } else {
        assert q.box == ZERO_BOX;
      }
    }
    hide IsInside, BruteForce, ValidMesh;
  }

  predicate ProperQueries(coeff: real, qs: seq<Query>) {
    1.0 <= coeff && forall q :: q in qs ==> NonNegative(q.box.mExtents)
  }

  lemma ProperBefore(coeff: real, qs: seq<Query>)
    requires qs != [] && ProperQueries(coeff, qs)
    ensures ProperQueries(coeff, Before(qs)) && NonNegative(Last(qs).box.mExtents)
  {
    assert forall q :: q in Before(qs) ==> q in qs;
    assert Last(qs) in qs;
  }

  /** As long as no query has overwritten the list since FatBox was set: it is exactly the
      hits of FatBox, in tree order, and FatBox holds the last box. */
  lemma {:induction false} RunCoherent(m: Mesh, ps: seq<nat>, coeff: real, qs: seq<Query>)
    requires ValidMesh(m) && qs != [] && ProperQueries(coeff, qs) && OriginOf(coeff, qs).source == FromFatBox
    ensures Coherent(m, ps, Run(m, ps, coeff, qs), Last(qs).box)
    decreases |qs|
  {
    var before, q := Before(qs), Last(qs);
    ProperBefore(coeff, qs);
    FatBoxOf(m, ps, coeff, before);
    hide NonNegative, Hits, ValidMesh, IsInside, ProperQueries, BruteForce;
    if before != [] && OriginOf(coeff, before).source == FromFatBox { RunCoherent(m, ps, coeff, before); }
    hide Answer;
    AnswerCoherent(m, ps, coeff, Run(m, ps, coeff, before), q);
  }

  /** After an overwriting all-contacts query: its list stays, unless it is empty. */
  lemma {:induction false} OverwrittenList(m: Mesh, ps: seq<nat>, coeff: real, qs: seq<Query>)
    requires ValidMesh(m) && OriginOf(coeff, qs).source.FromBox?
    ensures var s, b := Run(m, ps, coeff, qs), OriginOf(coeff, qs).source.box;
      BruteForce(m, b, ps, false) != [] ==> s.TouchedPrimitives == BruteForce(m, b, ps, false)
    decreases |qs|
  {
    var before, q := Before(qs), Last(qs);
    FatBoxOf(m, ps, coeff, before);
    hide Hits, ValidMesh, IsInside, BruteForce, Fatten;
    if q.Coherent() { OverwrittenList(m, ps, coeff, before); }
  }

  lemma {:induction false} ListWithin(m: Mesh, ps: seq<nat>, coeff: real, qs: seq<Query>)
    requires ValidMesh(m)
    ensures forall i :: i in Run(m, ps, coeff, qs).TouchedPrimitives ==> i in ps
    decreases |qs|
  {
    hide Hits, ValidMesh, IsInside, Fatten;
    if qs != [] {
      ListWithin(m, ps, coeff, Before(qs));
      var q, s := Last(qs), Run(m, ps, coeff, Before(qs));
      BruteForceWithin(m, q.box, ps, q.flags.firstContact);
      BruteForceWithin(m, q.box, ps, true);
      BruteForceWithin(m, q.box, ps, false);
      BruteForceWithin(m, Fatten(q.box, coeff), ps, false);
      hide BruteForce;
    }
  }

  lemma BruteForceWithin(m: Mesh, box: CollisionAABB, ps: seq<nat>, first: bool)
    requires ValidMesh(m)
    ensures forall i :: i in BruteForce(m, box, ps, first) ==> i in ps
  {
    hide Hits, ValidMesh;
    forall i | i in Filter(Hits(m, box), ps) ensures i in ps { FilterMembers(Hits(m, box), ps, i); }
  }

  /** After a first-contact query that hit something: one face is listed, whatever follows. */
  lemma {:induction false} OneFaceList(m: Mesh, ps: seq<nat>, coeff: real, qs: seq<Query>, i: nat)
    requires ValidMesh(m) && OriginOf(coeff, qs).source.FromFirstContact? && i in ps && i in Hits(m, OriginOf(coeff, qs).source.box)
    ensures |Run(m, ps, coeff, qs).TouchedPrimitives| == 1
    decreases |qs|
  {
    var before, q := Before(qs), Last(qs);
    FatBoxOf(m, ps, coeff, before);
    ListWithin(m, ps, coeff, before);
    hide Hits, ValidMesh, IsInside, BruteForce, Fatten;
    if q.Coherent() {
      OneFaceList(m, ps, coeff, before, i);
    } else {
      FirstContactAnswer(m, ps, q.flags, coeff, Run(m, ps, coeff, before), q.box);
    }
  }

  // ------------------------------------------------- when the answer is complete

  /** Every triangle touching the last box is in the list. */
  ghost predicate ListComplete(m: Mesh, ps: seq<nat>, coeff: real, qs: seq<Query>)
    requires ValidMesh(m) && qs != []
  {
    forall i :: i in ps && i in Hits(m, Last(qs).box) ==> i in Run(m, ps, coeff, qs).TouchedPrimitives
  }

  ghost predicate AlwaysComplete(coeff: real, qs: seq<Query>)
    requires qs != []
  {
    forall m, ps :: ValidMesh(m) ==> ListComplete(m, ps, coeff, qs)
  }

  /** The last query searches, or what it reuses was searched with a box that holds it. */
  predicate Answerable(coeff: real, qs: seq<Query>)
    requires qs != []
  {
    var o, q := OriginOf(coeff, Before(qs)), Last(qs);
    || !q.flags.temporalCoherence || !IsInside(q.box, o.FatBox)
    || o.source.FromFatBox? || (o.source.FromBox? && IsInside(q.box, o.source.box))
  }

  lemma SearchComplete(m: Mesh, box: CollisionAABB, wide: CollisionAABB, ps: seq<nat>, i: nat)
    requires ValidMesh(m) && IsInside(box, wide) && i in ps && i in Hits(m, box)
    ensures i in BruteForce(m, wide, ps, false)
  {
    HitsGrow(m, box, wide);
    hide Hits, ValidMesh, IsInside;
    FilterMembers(Hits(m, wide), ps, i);
  }

  lemma InsideItself(box: CollisionAABB)
    ensures IsInside(box, box)
  {}

  lemma AnswerableCompletes(m: Mesh, ps: seq<nat>, coeff: real, qs: seq<Query>)
    requires ValidMesh(m) && qs != [] && ProperQueries(coeff, qs) && !Last(qs).flags.firstContact && Answerable(coeff, qs)
    ensures ListComplete(m, ps, coeff, qs)
  {
    var before, q := Before(qs), Last(qs);
    var s, o := Run(m, ps, coeff, before), OriginOf(coeff, before);
    FatBoxOf(m, ps, coeff, before);
    ProperBefore(coeff, qs);
    InsideItself(q.box);
    hide Hits, ValidMesh, IsInside, BruteForce, ProperQueries, Fatten;
    var wide := q.box;
    if q.flags.temporalCoherence && IsInside(q.box, o.FatBox) {
      if o.source.FromFatBox? {
        RunCoherent(m, ps, coeff, qs);
        wide := Run(m, ps, coeff, qs).FatBox;
      } else {
        OverwrittenList(m, ps, coeff, before);
        wide := o.source.box;
      }
    } else if q.flags.temporalCoherence {
      FattenGrows(q.box, coeff);
      wide := Fatten(q.box, coeff);
    }
    forall i | i in ps && i in Hits(m, q.box) ensures i in Run(m, ps, coeff, qs).TouchedPrimitives {
      SearchComplete(m, q.box, wide, ps, i);
      SearchComplete(m, q.box, q.box, ps, i);
    }
  }

  // --------------------------------------------------------- a mesh of point faces

  function PointFace(p: Point): Triangle { Triangle(p, p, p) }

  /** A mesh whose i-th face is collapsed to the i-th of three points. */
  function PointMesh(a: Point, b: Point, c: Point): Mesh {
    Mesh([Face(0, 0, 0), Face(1, 1, 1), Face(2, 2, 2)], [a, b, c])
  }

  lemma PointMeshFaces(a: Point, b: Point, c: Point)
    requires FinitePoint(a) && FinitePoint(b) && FinitePoint(c)
    ensures var m := PointMesh(a, b, c);
      && ValidMesh(m) && |m.faces| == 3
      && Tri(m, 0) == PointFace(a) && Tri(m, 1) == PointFace(b) && Tri(m, 2) == PointFace(c)
  {}

  lemma MixSame(u: real, v: real, a: real)
    ensures Mix(u, v, a, a, a) == a
  {}

  /** A point face hits exactly the boxes that hold its point. */
  lemma PointFaceHits(p: Point, box: CollisionAABB)
    requires NonNegative(box.mExtents)
    ensures TriBoxPasses(PointFace(p), box, true) <==> BoxHas(box, p)
  {
    hide TriBoxPasses, BoxHas;
    FullTestIff(PointFace(p), box);
    VerticesInTriangle(PointFace(p));
    forall x | InTriangle(PointFace(p), x) ensures x == p {
      var u, v :| Bary(u, v) && x == At(PointFace(p), u, v);
      MixSame(u, v, p.x);
      MixSame(u, v, p.y);
      MixSame(u, v, p.z);
      hide Mix;
    }
    hide InTriangle;
  }

  /** Both corners have finite coordinates. */
  predicate FiniteBox(box: CollisionAABB) {
    FinitePoint(Sub(box.mCenter, box.mExtents)) && FinitePoint(Add(box.mCenter, box.mExtents))
  }

  lemma CenterOfBox(box: CollisionAABB)
    requires FiniteBox(box) && NonNegative(box.mExtents)
    ensures FinitePoint(box.mCenter) && BoxHas(box, box.mCenter)
  {}

  /** A box that is not inside another has a point outside it. */
  lemma PointOutside(a: CollisionAABB, b: CollisionAABB) returns (p: Point)
    requires FiniteBox(a) && NonNegative(a.mExtents) && !IsInside(a, b)
    ensures FinitePoint(p) && BoxHas(a, p) && !BoxHas(b, p)
  {
    var lo, hi, c := Sub(a.mCenter, a.mExtents), Add(a.mCenter, a.mExtents), a.mCenter;
    var lo', hi' := Sub(b.mCenter, b.mExtents), Add(b.mCenter, b.mExtents);
    CenterOfBox(a);
    p := if lo.x < lo'.x then c.(x := lo.x) else if lo.y < lo'.y then c.(y := lo.y) else if lo.z < lo'.z then c.(z := lo.z)
      else if hi'.x < hi.x then c.(x := hi.x) else if hi'.y < hi.y then c.(y := hi.y) else c.(z := hi.z);
  }

  lemma PointHits(m: Mesh, a: Point, b: Point, c: Point, box: CollisionAABB)
    requires FinitePoint(a) && FinitePoint(b) && FinitePoint(c) && m == PointMesh(a, b, c) && NonNegative(box.mExtents)
    ensures ValidMesh(m)
    ensures (0 in Hits(m, box) <==> BoxHas(box, a)) && (1 in Hits(m, box) <==> BoxHas(box, b)) && (2 in Hits(m, box) <==> BoxHas(box, c))
  {
    hide ValidMesh, Tri, TriBoxPasses, BoxHas, FinitePoint, NonNegative, PointFace, Hits;
    PointMeshFaces(a, b, c);
    hide PointMesh;
    PointFaceHits(a, box);
    PointFaceHits(b, box);
    PointFaceHits(c, box);
    HitsAt(m, box, 0);
    HitsAt(m, box, 1);
    HitsAt(m, box, 2);
  }

  lemma HitsAt(m: Mesh, box: CollisionAABB, i: nat)
    requires ValidMesh(m) && i < |m.faces|
    ensures i in Hits(m, box) <==> TriBoxPasses(Tri(m, i), box, true)
  {
    hide ValidMesh, Tri, TriBoxPasses;
  }

  /** The last query reuses a list without searching. */
  lemma Reused(m: Mesh, ps: seq<nat>, coeff: real, qs: seq<Query>)
    requires ValidMesh(m) && qs != [] && Last(qs).Coherent() && IsInside(Last(qs).box, OriginOf(coeff, Before(qs)).FatBox)
    requires Run(m, ps, coeff, Before(qs)).TouchedPrimitives != []
    ensures Run(m, ps, coeff, qs) == Run(m, ps, coeff, Before(qs))
  {
    FatBoxOf(m, ps, coeff, Before(qs));
    hide ValidMesh, IsInside, BruteForce, Hits, Fatten;
  }

  predicate FiniteQueries(qs: seq<Query>) {
    forall q :: q in qs ==> FiniteBox(q.box)
  }

  /** Overwritten by a box that does not hold the last one: a face in that box hides one
      outside it. */
  lemma OverwrittenMisses(coeff: real, qs: seq<Query>, b: CollisionAABB) returns (m: Mesh, ps: seq<nat>)
    requires qs != [] && Last(qs).Coherent() && IsInside(Last(qs).box, OriginOf(coeff, Before(qs)).FatBox)
    requires OriginOf(coeff, Before(qs)).source == FromBox(b) && !IsInside(Last(qs).box, b)
    requires NonNegative(Last(qs).box.mExtents) && FiniteBox(Last(qs).box) && NonNegative(b.mExtents) && FiniteBox(b)
    ensures ValidMesh(m) && !ListComplete(m, ps, coeff, qs)
  {
    var box := Last(qs).box;
    hide FiniteBox, NonNegative, FinitePoint, BoxHas, IsInside, Hits, ValidMesh, PointMesh;
    CenterOfBox(b);
    var p := PointOutside(box, b);
    m, ps := PointMesh(b.mCenter, p, p), [0, 1];
    PointHits(m, b.mCenter, p, p, b);
    PointHits(m, b.mCenter, p, p, box);
    FilterMembers(Hits(m, b), ps, 0);
    FilterMembers(Hits(m, b), ps, 1);
    OverwrittenList(m, ps, coeff, Before(qs));
    Reused(m, ps, coeff, qs);
    assert 1 in ps && 1 !in Run(m, ps, coeff, qs).TouchedPrimitives;
    hide Run, OriginOf;
  }

  /** Overwritten by a first-contact query: of two faces in the last box at most one is
      listed. */
  lemma FirstContactMisses(coeff: real, qs: seq<Query>, b: CollisionAABB) returns (m: Mesh, ps: seq<nat>)
    requires qs != [] && Last(qs).Coherent() && IsInside(Last(qs).box, OriginOf(coeff, Before(qs)).FatBox)
    requires OriginOf(coeff, Before(qs)).source == FromFirstContact(b)
    requires NonNegative(Last(qs).box.mExtents) && FiniteBox(Last(qs).box) && NonNegative(b.mExtents) && FiniteBox(b)
    ensures ValidMesh(m) && !ListComplete(m, ps, coeff, qs)
  {
    var box := Last(qs).box;
    hide FiniteBox, NonNegative, FinitePoint, BoxHas, IsInside, Hits, ValidMesh, PointMesh;
    CenterOfBox(b);
    CenterOfBox(box);
    m, ps := PointMesh(b.mCenter, box.mCenter, box.mCenter), [0, 1, 2];
    PointHits(m, b.mCenter, box.mCenter, box.mCenter, b);
    PointHits(m, b.mCenter, box.mCenter, box.mCenter, box);
    OneFaceList(m, ps, coeff, Before(qs), 0);
    Reused(m, ps, coeff, qs);
    hide Run, OriginOf;
    assert 1 in ps && 2 in ps;
    OneOfTwo(Run(m, ps, coeff, qs).TouchedPrimitives, 1, 2);
  }

  lemma OneOfTwo(list: seq<nat>, i: nat, j: nat)
    requires |list| == 1 && i != j
    ensures i !in list || j !in list
  {}

  lemma {:induction false} OriginAmong(coeff: real, qs: seq<Query>)
    ensures var o := OriginOf(coeff, qs); o.source.FromFatBox? || exists q :: q in qs && q.box == o.source.box
    decreases |qs|
  {
    hide IsInside, Fatten;
    if qs != [] {
      assert Last(qs) in qs;
      OriginAmong(coeff, Before(qs));
      assert forall q :: q in Before(qs) ==> q in qs;
    }
  }

  /** Exactly when the list of an all-contacts query is complete on every mesh, over any run
      of queries in any modes: when the query searches, when no query has overwritten the
      list since FatBox was set, or when the last one that did was an all-contacts query for
      a box holding the current one. */
  lemma RunCompleteIff(coeff: real, qs: seq<Query>)
    requires qs != [] && ProperQueries(coeff, qs) && FiniteQueries(qs) && !Last(qs).flags.firstContact
    ensures AlwaysComplete(coeff, qs) <==> Answerable(coeff, qs)
  {
    hide ValidMesh, Hits, IsInside, FiniteBox, NonNegative, OriginOf, Run;
    if Answerable(coeff, qs) {
      forall m, ps | ValidMesh(m) ensures ListComplete(m, ps, coeff, qs) {
        AnswerableCompletes(m, ps, coeff, qs);
      }
    } else {
      OriginAmong(coeff, Before(qs));
      assert Last(qs) in qs && forall q :: q in Before(qs) ==> q in qs;
      var o := OriginOf(coeff, Before(qs));
      var m, ps;
      if o.source.FromBox? {
        m, ps := OverwrittenMisses(coeff, qs, o.source.box);
      } else {
        m, ps := FirstContactMisses(coeff, qs, o.source.box);
      }
      assert !AlwaysComplete(coeff, qs);
    }
  }

  const HERE := CollisionAABB(Point(0.0, 0.0, 0.0), Point(1.0, 1.0, 1.0))
  const THERE := CollisionAABB(Point(10.0, 0.0, 0.0), Point(1.0, 1.0, 1.0))

  /** A failing run: a coherent query, one elsewhere with coherence off, and the
      first one again, which is answered with the other's list. */
  lemma MixedRunMisses()
    ensures var here, there := Query(Flags(false, true, false, false), HERE), Query(Flags(false, false, false, false), THERE);
      !AlwaysComplete(1.5, [here, there, here])
  {
    var here, there := Query(Flags(false, true, false, false), HERE), Query(Flags(false, false, false, false), THERE);
    var qs := [here, there, here];
    assert Before(qs) == [here, there] && Before([here, there]) == [here] && Before([here]) == [];
    assert OriginOf(1.5, [here]) == Origin(Fatten(HERE, 1.5), FromFatBox);
    assert OriginOf(1.5, [here, there]) == Origin(Fatten(HERE, 1.5), FromBox(THERE));
    assert !Answerable(1.5, qs);
    RunCompleteIff(1.5, qs);
  }

  // ---------------------------------------------------------------- first contact

  /** First-contact mode: with or without coherence and whatever valid primitive is cached,
      one hit is listed if the brute force finds one, and nothing otherwise. */
  lemma FirstContactAnswer(m: Mesh, ps: seq<nat>, flags: Flags, coeff: real, s: CacheState, box: CollisionAABB)
    requires ValidMesh(m) && flags.firstContact && (s.TouchedPrimitives != [] ==> s.TouchedPrimitives[0] in ps)
    ensures var r := Answer(m, ps, flags, coeff, s, box).TouchedPrimitives;
      && |r| == (if exists p :: p in ps && p in Hits(m, box) then 1 else 0)
      && (r != [] ==> r[0] in ps && r[0] in Hits(m, box))
  {
    hide Hits, ValidMesh;
    var all := Filter(Hits(m, box), ps);
    if all != [] { FilterMembers(Hits(m, box), ps, all[0]); }
    forall p | p in ps && p in Hits(m, box) ensures all != [] {
      FilterMembers(Hits(m, box), ps, p);
    }
  }
}
