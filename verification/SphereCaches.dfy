/** The sphere collider's temporal coherence (InitQuery of OPC_SphereCollider.cpp) as a
    relation on the cache, and when its answers are complete over runs of queries. The guard
    squares the difference of two radii, so it cannot tell a query inside the cached sphere
    from one around it. */
module SphereCaches {
  import opened Balls
  import opened ColliderFlags
  import opened Geometry
  import opened Reals
  import opened Search
  import opened SphereTri
  import opened Trees
  import opened Volumes

  datatype Ball = Ball(center: Point, radius2: real)

  function Solid(b: Ball): Volume { SphereVolume(b.center, b.radius2) }

  datatype SphereState = SphereState(Center: Point, FatRadius2: real, TouchedPrimitives: seq<nat>)

  const NEW_CACHE := SphereState(Point(0.0, 0.0, 0.0), 0.0, [])

  /** One query on the cache: the collider's mode and the sphere in model space. */
  datatype SphereQuery = SphereQuery(flags: Flags, center: Point, radius: real) {
    predicate Coherent() { flags.temporalCoherence && !flags.firstContact }
    function Thin(): Ball { Ball(center, Square(radius)) }
    function Enlarged(coeff: real): Ball { Ball(center, coeff * Square(radius)) }
  }

  /** The library's square root, on the numbers that have one. */
  ghost predicate IsRoot(sqrt: real -> real) {
    forall x :: 0.0 <= x ==> 0.0 <= sqrt(x) && Square(sqrt(x)) == x
  }

  /** The guard: the list of the cached sphere is taken to serve the query. */
  predicate Reuses(sqrt: real -> real, center: Point, fatRadius2: real, q: SphereQuery) {
    var r := sqrt(fatRadius2) - q.radius;
    SquareDistance(center, q.center) < Square(r)
  }

  /** The list is an answer for the ball. */
  ghost predicate Listed(m: Mesh, ps: seq<nat>, b: Ball, first: bool, list: seq<nat>)
    requires ValidMesh(m)
  {
    Answered(Must(m, Solid(b)), May(m, Solid(b)), first, ps, list, list != [])
  }

  /** What the query searches with, unless it is answered from the cache. */
  function SearchBall(coeff: real, sqrt: real -> real, s: SphereState, q: SphereQuery): Ball {
    if !q.Coherent() || Reuses(sqrt, s.Center, s.FatRadius2, q) then q.Thin() else q.Enlarged(coeff)
  }

  predicate FromCache(sqrt: real -> real, s: SphereState, q: SphereQuery) {
    q.Coherent() && Reuses(sqrt, s.Center, s.FatRadius2, q) && s.TouchedPrimitives != []
  }

  /** The cache before and after one query, over the primitives `ps` in tree order. */
  ghost predicate SphereAnswer(m: Mesh, ps: seq<nat>, coeff: real, sqrt: real -> real, s: SphereState, q: SphereQuery, s': SphereState)
    requires ValidMesh(m)
  {
    if FromCache(sqrt, s, q) then s' == s
    else
      && Listed(m, ps, SearchBall(coeff, sqrt, s, q), q.flags.firstContact, s'.TouchedPrimitives)
      && if q.Coherent() && !Reuses(sqrt, s.Center, s.FatRadius2, q)
         then s'.Center == q.center && s'.FatRadius2 == q.Enlarged(coeff).radius2
         else s'.Center == s.Center && s'.FatRadius2 == s.FatRadius2
  }

  // ------------------------------------------------------------ reuse, on faces

  lemma RootOf(sqrt: real -> real, x: real)
    requires IsRoot(sqrt) && 0.0 <= x
    ensures 0.0 <= sqrt(x) && Square(sqrt(x)) == x
  {}

  /** Every proper face reached by one ball is reached by the other. */
  ghost predicate FacesWithin(a: Ball, b: Ball) {
    forall t :: NonDegenerate(t) && SphereReaches(t, a.center, a.radius2) ==> SphereReaches(t, b.center, b.radius2)
  }

  lemma CenterDistance(sqrt: real -> real, a: Point, b: Point) returns (d: real)
    requires IsRoot(sqrt)
    ensures 0.0 <= d && d == sqrt(SquareDistance(a, b)) && Square(d) == SquareDistance(a, b)
  {
    LengthIsDot(a, b);
    hide SquareDistance, Dot;
    RootOf(sqrt, SquareDistance(a, b));
    d := sqrt(SquareDistance(a, b));
  }

  lemma BallWithinBall(a: Ball, r: real, b: Ball, rb: real, d: real)
    requires a.radius2 == Square(r) && b.radius2 == Square(rb) && 0.0 <= r && 0.0 <= rb && 0.0 <= d && Square(d) == SquareDistance(b.center, a.center)
    ensures FacesWithin(a, b) <==> r == 0.0 || d + r <= rb
  {
    FacesWithinIff(b.center, rb, a.center, r, d);
    hide NonDegenerate, SphereReaches, SquareDistance;
  }

  /** The query's faces are all the ball's if and only if the query sphere lies inside it, or
      has no size. */
  lemma QueryWithinIff(sqrt: real -> real, q: SphereQuery, b: Ball)
    requires IsRoot(sqrt) && 0.0 <= q.radius && 0.0 <= b.radius2
    ensures FacesWithin(q.Thin(), b) <==> q.radius == 0.0 || sqrt(SquareDistance(b.center, q.center)) + q.radius <= sqrt(b.radius2)
  {
    RootOf(sqrt, b.radius2);
    hide IsRoot, SquareDistance, FacesWithin;
    var d := CenterDistance(sqrt, b.center, q.center);
    BallWithinBall(q.Thin(), q.radius, b, sqrt(b.radius2), d);
  }

  lemma GuardSplits(d: real, fat: real, r: real)
    requires 0.0 <= d && Square(d) < Square(fat - r) && r <= fat
    ensures d + r <= fat
  {
    if fat - r < d { Strict(fat - r, d); }
  }

  lemma GuardedDistance(sqrt: real -> real, b: Ball, q: SphereQuery)
    requires IsRoot(sqrt) && Reuses(sqrt, b.center, b.radius2, q) && q.radius <= sqrt(b.radius2)
    ensures sqrt(SquareDistance(b.center, q.center)) + q.radius <= sqrt(b.radius2)
  {
    var d := CenterDistance(sqrt, b.center, q.center);
    GuardSplits(d, sqrt(b.radius2), q.radius);
    hide SquareDistance, IsRoot;
  }

  /** The guard holds for the spheres strictly inside the cached one, and for those strictly
      around it. */
  lemma GuardIff(sqrt: real -> real, center: Point, fatRadius2: real, q: SphereQuery)
    requires IsRoot(sqrt)
    ensures var d, fat := sqrt(SquareDistance(center, q.center)), sqrt(fatRadius2);
      Reuses(sqrt, center, fatRadius2, q) <==> d + q.radius < fat || d + fat < q.radius
  {
    var d := CenterDistance(sqrt, center, q.center);
    hide SquareDistance, IsRoot;
    SquareOrder(sqrt(fatRadius2) - q.radius, d);
    hide Square;
  }

  /** When the guard lets the list be reused: every proper face the query sphere reaches is
      reached by the cached one if and only if its radius does not exceed the cached fat
      radius. */
  lemma ReuseIsRightIff(sqrt: real -> real, b: Ball, q: SphereQuery)
    requires IsRoot(sqrt) && 0.0 <= b.radius2 && 0.0 <= q.radius && Reuses(sqrt, b.center, b.radius2, q)
    ensures FacesWithin(q.Thin(), b) <==> q.radius <= sqrt(b.radius2)
  {
    QueryWithinIff(sqrt, q, b);
    RootOf(sqrt, b.radius2);
    var d := CenterDistance(sqrt, b.center, q.center);
    if q.radius <= sqrt(b.radius2) { GuardedDistance(sqrt, b, q); }
    hide SquareDistance, IsRoot, FacesWithin, Reuses;
  }

  /** A point of the face is nearer to the center than the root of r2. */
  ghost predicate NearerThan(m: Mesh, i: nat, center: Point, r2: real)
    requires ValidMesh(m)
  {
    i < |m.faces| && exists p :: InTriangle(Tri(m, i), p) && SquareDistance(center, p) < r2
  }

  lemma ListedInRadius(m: Mesh, ps: seq<nat>, b: Ball, list: seq<nat>, i: nat)
    requires ValidMesh(m) && Listed(m, ps, b, false, list)
    ensures i in list ==> i in ps && NearerThan(m, i, b.center, b.radius2)
    ensures i in ps && NearerThan(m, i, b.center, b.radius2) && NonDegenerate(Tri(m, i)) ==> i in list
  {
    assert i in May(m, Solid(b)) <==> NearerThan(m, i, b.center, b.radius2);
    assert NearerThan(m, i, b.center, b.radius2) && NonDegenerate(Tri(m, i)) ==> i in Must(m, Solid(b));
    hide ValidMesh, Must, May, Tri, NearerThan, NonDegenerate;
    AllContacts(Must(m, Solid(b)), May(m, Solid(b)), ps, list, i);
    OccurrencesMember(ps, i);
    OccurrencesMember(list, i);
    hide Reports, Occurrences;
  }

  /** What an all-contacts search lists: only faces with a point within the radius, or with
      coherence within the radius whose square is the fat coefficient times that of the query,
      and every such face that has an area. That radius is then the cached one. */
  lemma SearchedInRadius(m: Mesh, ps: seq<nat>, coeff: real, sqrt: real -> real, s: SphereState, q: SphereQuery, s': SphereState, i: nat)
    requires ValidMesh(m) && SphereAnswer(m, ps, coeff, sqrt, s, q, s') && !FromCache(sqrt, s, q) && !q.flags.firstContact
    ensures var fat := q.flags.temporalCoherence && !Reuses(sqrt, s.Center, s.FatRadius2, q);
      var r2 := if fat then coeff * (q.radius * q.radius) else q.radius * q.radius;
      && (i in s'.TouchedPrimitives ==> i in ps && NearerThan(m, i, q.center, r2))
      && (i in ps && NearerThan(m, i, q.center, r2) && NonDegenerate(Tri(m, i)) ==> i in s'.TouchedPrimitives)
      && (if fat then s'.Center == q.center && s'.FatRadius2 == r2 else s'.Center == s.Center && s'.FatRadius2 == s.FatRadius2)
  {
    hide ValidMesh, Listed, Tri, NearerThan, NonDegenerate, Reuses;
    var b := SearchBall(coeff, sqrt, s, q);
    ListedInRadius(m, ps, b, s'.TouchedPrimitives, i);
    var fat := q.flags.temporalCoherence && !Reuses(sqrt, s.Center, s.FatRadius2, q);
    assert b == Ball(q.center, if fat then coeff * (q.radius * q.radius) else q.radius * q.radius);
  }

  // ------------------------------------------------------------- runs of queries

  function LastOf(qs: seq<SphereQuery>): SphereQuery
    requires qs != []
  {
    qs[|qs| - 1]
  }

  function BeforeLast(qs: seq<SphereQuery>): (r: seq<SphereQuery>)
    requires qs != []
    ensures |r| < |qs|
  {
    qs[..|qs| - 1]
  }

  /** A run from a new cache: the states before, between and after the queries. */
  ghost predicate SphereRun(m: Mesh, ps: seq<nat>, coeff: real, sqrt: real -> real, qs: seq<SphereQuery>, states: seq<SphereState>)
    requires ValidMesh(m)
    decreases |qs|
  {
    && |states| == |qs| + 1
    && if qs == [] then states == [NEW_CACHE]
       else
         && SphereRun(m, ps, coeff, sqrt, BeforeLast(qs), states[..|qs|])
         && SphereAnswer(m, ps, coeff, sqrt, states[|qs| - 1], LastOf(qs), states[|qs|])
  }

  /** What the queries alone tell about the cache: its sphere, and the ball the list answers
      for, in all-contacts or (oneFace) in first-contact mode. A ball of no size has an empty
      list, so the next search fills it. */
  datatype SphereOrigin = SphereOrigin(Center: Point, FatRadius2: real, ball: Ball, oneFace: bool)

  const NEW_ORIGIN := SphereOrigin(NEW_CACHE.Center, 0.0, Ball(NEW_CACHE.Center, 0.0), false)

  function NextOrigin(coeff: real, sqrt: real -> real, o: SphereOrigin, q: SphereQuery): SphereOrigin {
    if !q.Coherent() then o.(ball := q.Thin(), oneFace := q.flags.firstContact)
    else if !Reuses(sqrt, o.Center, o.FatRadius2, q) then SphereOrigin(q.center, q.Enlarged(coeff).radius2, q.Enlarged(coeff), false)
    else if o.ball.radius2 <= 0.0 then o.(ball := q.Thin(), oneFace := false)
    else o
  }

  function SphereOriginOf(coeff: real, sqrt: real -> real, qs: seq<SphereQuery>): SphereOrigin
    decreases |qs|
  {
    if qs == [] then NEW_ORIGIN
    else NextOrigin(coeff, sqrt, SphereOriginOf(coeff, sqrt, BeforeLast(qs)), LastOf(qs))
  }

  ghost predicate SomeFace(m: Mesh, ps: seq<nat>, b: Ball)
    requires ValidMesh(m)
  {
    exists i :: i in ps && i in Must(m, Solid(b))
  }

  /** Every face the ball must report is listed; only faces it may report are, if there is one
      it must. */
  ghost predicate AnswersFor(m: Mesh, ps: seq<nat>, b: Ball, list: seq<nat>)
    requires ValidMesh(m)
  {
    && (forall i :: i in ps && i in Must(m, Solid(b)) ==> i in list)
    && (SomeFace(m, ps, b) ==> forall i :: i in list ==> i in May(m, Solid(b)))
  }

  /** The cache is as its origin says. */
  ghost predicate Sourced(m: Mesh, ps: seq<nat>, s: SphereState, o: SphereOrigin)
    requires ValidMesh(m)
  {
    && s.Center == o.Center && s.FatRadius2 == o.FatRadius2
    && (o.ball.radius2 <= 0.0 ==> s.TouchedPrimitives == [])
    && if o.oneFace then SomeFace(m, ps, o.ball) ==> |s.TouchedPrimitives| == 1
       else AnswersFor(m, ps, o.ball, s.TouchedPrimitives)
  }

  lemma NothingMay(m: Mesh, b: Ball)
    requires ValidMesh(m) && b.radius2 <= 0.0
    ensures May(m, Solid(b)) == {}
  {
    hide ValidMesh, Tri;
    forall i: nat | i < |m.faces| ensures !MayTouch(Solid(b), Tri(m, i)) {
      EmptySphere(Tri(m, i), b.center, b.radius2);
    }
    hide MayTouch;
  }

  lemma ListedAll(m: Mesh, ps: seq<nat>, b: Ball, list: seq<nat>)
    requires ValidMesh(m) && Listed(m, ps, b, false, list)
    ensures AnswersFor(m, ps, b, list) && (b.radius2 <= 0.0 ==> list == [])
  {
    var must, may := Must(m, Solid(b)), May(m, Solid(b));
    hide Must, May, ValidMesh;
    forall i: nat | true ensures (i in ps && i in must ==> i in list) && (i in list ==> i in may) {
      AllContacts(must, may, ps, list, i);
      OccurrencesMember(ps, i);
      OccurrencesMember(list, i);
      hide Occurrences;
    }
    assert |list| > 0 ==> list[0] in list;
    if b.radius2 <= 0.0 { NothingMay(m, b); }
    hide Reports;
  }

  lemma ListedOne(m: Mesh, ps: seq<nat>, b: Ball, list: seq<nat>)
    requires ValidMesh(m) && Listed(m, ps, b, true, list)
    ensures (SomeFace(m, ps, b) ==> |list| == 1) && (b.radius2 <= 0.0 ==> list == [])
  {
    hide Must, May, ValidMesh;
    if b.radius2 <= 0.0 { NothingMay(m, b); }
  }

  lemma StepKeeps(m: Mesh, ps: seq<nat>, coeff: real, sqrt: real -> real, s: SphereState, o: SphereOrigin, q: SphereQuery, s': SphereState)
    requires ValidMesh(m) && Sourced(m, ps, s, o) && SphereAnswer(m, ps, coeff, sqrt, s, q, s')
    ensures Sourced(m, ps, s', NextOrigin(coeff, sqrt, o, q))
  {
    hide ValidMesh, Must, May, Listed, Reuses;
    if !FromCache(sqrt, s, q) {
      var b := SearchBall(coeff, sqrt, s, q);
      if q.flags.firstContact {
        ListedOne(m, ps, b, s'.TouchedPrimitives);
      } else {
        ListedAll(m, ps, b, s'.TouchedPrimitives);
      }
    }
  }

  lemma {:induction false} RunSourced(m: Mesh, ps: seq<nat>, coeff: real, sqrt: real -> real, qs: seq<SphereQuery>, states: seq<SphereState>)
    requires ValidMesh(m) && SphereRun(m, ps, coeff, sqrt, qs, states)
    ensures Sourced(m, ps, states[|qs|], SphereOriginOf(coeff, sqrt, qs))
    decreases |qs|
  {
    hide ValidMesh, Must, May, SphereAnswer, NextOrigin;
    if qs == [] {
      NothingMay(m, Ball(NEW_CACHE.Center, 0.0));
      MustBelowMay(m, Ball(NEW_CACHE.Center, 0.0));
    } else {
      RunSourced(m, ps, coeff, sqrt, BeforeLast(qs), states[..|qs|]);
      hide Sourced;
      StepKeeps(m, ps, coeff, sqrt, states[|qs| - 1], SphereOriginOf(coeff, sqrt, BeforeLast(qs)), LastOf(qs), states[|qs|]);
    }
  }

  lemma MustBelowMay(m: Mesh, b: Ball)
    requires ValidMesh(m)
    ensures Must(m, Solid(b)) <= May(m, Solid(b))
  {
    hide ValidMesh, Tri, NonDegenerate, SphereReaches;
  }

  // ------------------------------------------------- when the answer is complete

  /** Every proper face the query sphere reaches is in the list. */
  ghost predicate SphereComplete(m: Mesh, ps: seq<nat>, q: SphereQuery, s: SphereState)
    requires ValidMesh(m)
  {
    forall i :: i in ps && i in Must(m, Solid(q.Thin())) ==> i in s.TouchedPrimitives
  }

  /** On every mesh and in every run the code may take through the queries. */
  ghost predicate SphereAlwaysComplete(coeff: real, sqrt: real -> real, qs: seq<SphereQuery>)
    requires qs != []
  {
    forall m, ps, states :: ValidMesh(m) && SphereRun(m, ps, coeff, sqrt, qs, states) ==> SphereComplete(m, ps, LastOf(qs), states[|qs|])
  }

  /** The last query searches, or its sphere lies inside the ball the list answers for. */
  predicate SphereAnswerable(coeff: real, sqrt: real -> real, qs: seq<SphereQuery>)
    requires qs != []
  {
    var o, q := SphereOriginOf(coeff, sqrt, BeforeLast(qs)), LastOf(qs);
    || !q.flags.temporalCoherence || !Reuses(sqrt, o.Center, o.FatRadius2, q)
    || o.ball.radius2 <= 0.0 || q.radius == 0.0
    || (!o.oneFace && sqrt(SquareDistance(o.ball.center, q.center)) + q.radius <= sqrt(o.ball.radius2))
  }

  predicate ProperSphere(q: SphereQuery) { 0.0 <= q.radius }

  lemma MustWithin(m: Mesh, a: Ball, b: Ball)
    requires ValidMesh(m) && forall t :: SphereReaches(t, a.center, a.radius2) ==> SphereReaches(t, b.center, b.radius2)
    ensures Must(m, Solid(a)) <= Must(m, Solid(b)) && May(m, Solid(a)) <= May(m, Solid(b))
  {
    hide ValidMesh, Tri, NonDegenerate, SphereReaches;
  }

  /** One ball inside another, by the distance of their centers. */
  lemma InnerBall(m: Mesh, sqrt: real -> real, b: Ball, q: SphereQuery)
    requires ValidMesh(m) && IsRoot(sqrt) && 0.0 <= q.radius && 0.0 <= b.radius2
    requires sqrt(SquareDistance(b.center, q.center)) + q.radius <= sqrt(b.radius2)
    ensures Must(m, Solid(q.Thin())) <= Must(m, Solid(b)) && May(m, Solid(q.Thin())) <= May(m, Solid(b))
  {
    RootOf(sqrt, b.radius2);
    var ra := sqrt(b.radius2);
    hide SquareDistance, SphereReaches, IsRoot, Must, May, ValidMesh;
    var d := CenterDistance(sqrt, b.center, q.center);
    forall t | SphereReaches(t, q.Thin().center, q.Thin().radius2) ensures SphereReaches(t, b.center, b.radius2) {
      InsideReaches(b.center, ra, q.center, q.radius, d, t);
    }
    MustWithin(m, q.Thin(), b);
  }

  lemma EnlargedGrows(m: Mesh, coeff: real, q: SphereQuery)
    requires ValidMesh(m) && 1.0 <= coeff
    ensures Must(m, Solid(q.Thin())) <= Must(m, Solid(q.Enlarged(coeff)))
  {
    SquarePositiveIff(q.radius);
    MulMono(Square(q.radius), 1.0, coeff);
    hide SquareDistance, InTriangle;
    forall t | SphereReaches(t, q.Thin().center, q.Thin().radius2) ensures SphereReaches(t, q.Enlarged(coeff).center, q.Enlarged(coeff).radius2) {}
    hide SphereReaches, Must, May;
    MustWithin(m, q.Thin(), q.Enlarged(coeff));
  }

  lemma SphereCompletes(m: Mesh, ps: seq<nat>, coeff: real, sqrt: real -> real, qs: seq<SphereQuery>, states: seq<SphereState>)
    requires ValidMesh(m) && SphereRun(m, ps, coeff, sqrt, qs, states) && qs != [] && IsRoot(sqrt) && 1.0 <= coeff
    requires ProperSphere(LastOf(qs)) && !LastOf(qs).flags.firstContact && SphereAnswerable(coeff, sqrt, qs)
    ensures SphereComplete(m, ps, LastOf(qs), states[|qs|])
  {
    var q, s, o := LastOf(qs), states[|qs| - 1], SphereOriginOf(coeff, sqrt, BeforeLast(qs));
    RunSourced(m, ps, coeff, sqrt, BeforeLast(qs), states[..|qs|]);
    assert Sourced(m, ps, s, o);
    hide ValidMesh, Must, May, Reuses, IsRoot, SquareDistance, SphereOriginOf;
    if FromCache(sqrt, s, q) {
      if q.radius == 0.0 {
        MustBelowMay(m, q.Thin());
        NothingMay(m, q.Thin());
      } else {
        InnerBall(m, sqrt, o.ball, q);
      }
    } else {
      ListedAll(m, ps, SearchBall(coeff, sqrt, s, q), states[|qs|].TouchedPrimitives);
      EnlargedGrows(m, coeff, q);
    }
    hide SphereRun;
  }

  // ------------------------------------------------------------------ a failing run

  function FaceMesh(t0: Triangle, t1: Triangle, t2: Triangle): Mesh {
    Mesh([Face(0, 1, 2), Face(3, 4, 5), Face(6, 7, 8)], [t0.v0, t0.v1, t0.v2, t1.v0, t1.v1, t1.v2, t2.v0, t2.v1, t2.v2])
  }

  predicate FiniteFace(t: Triangle) {
    FinitePoint(t.v0) && FinitePoint(t.v1) && FinitePoint(t.v2)
  }

  lemma FaceMeshFaces(t0: Triangle, t1: Triangle, t2: Triangle)
    requires FiniteFace(t0) && FiniteFace(t1) && FiniteFace(t2)
    ensures var m := FaceMesh(t0, t1, t2); ValidMesh(m) && |m.faces| == 3 && Tri(m, 0) == t0 && Tri(m, 1) == t1 && Tri(m, 2) == t2
  {}

  /** The sphere and one unit around it have finite coordinates. */
  predicate FiniteSphere(q: SphereQuery) {
    var r := q.radius + 1.0;
    Abs(q.center.x) + r <= FLT_MAX && Abs(q.center.y) + r <= FLT_MAX && Abs(q.center.z) + r <= FLT_MAX
  }

  lemma NearIsFinite(t: Triangle, q: SphereQuery)
    requires FiniteSphere(q) && Near(t, q.center, q.radius + 1.0)
    ensures FiniteFace(t)
  {
    var c, r := q.center, q.radius + 1.0;
    NearCoordinate(t.v0.x, c.x, r);
    NearCoordinate(t.v0.y, c.y, r);
    NearCoordinate(t.v0.z, c.z, r);
    NearCoordinate(t.v1.x, c.x, r);
    NearCoordinate(t.v1.y, c.y, r);
    NearCoordinate(t.v1.z, c.z, r);
    NearCoordinate(t.v2.x, c.x, r);
    NearCoordinate(t.v2.y, c.y, r);
    NearCoordinate(t.v2.z, c.z, r);
    hide Abs;
  }

  lemma NearCoordinate(x: real, c: real, r: real)
    requires Abs(x - c) <= r && Abs(c) + r <= FLT_MAX
    ensures Abs(x) <= FLT_MAX
  {}

  /** A proper face at a sphere's center. */
  lemma FaceAtCenter(q: SphereQuery, radius2: real) returns (t: Triangle)
    requires FiniteSphere(q) && 0.0 <= q.radius && 0.0 < radius2
    ensures FiniteFace(t) && NonDegenerate(t) && SphereReaches(t, q.center, radius2)
  {
    var p := q.center;
    t := Triangle(p, p.(x := p.x + 1.0), p.(y := p.y + 1.0));
    ProperCorner(p, 1.0, 1.0);
    VerticesInTriangle(t);
    CenterDistanceZero(p);
    NearIsFinite(t, q);
    hide NonDegenerate, InTriangle, SquareDistance, FiniteFace;
  }

  lemma CenterDistanceZero(p: Point)
    ensures SquareDistance(p, p) == 0.0
  {}

  lemma InMust(m: Mesh, b: Ball, i: nat)
    requires ValidMesh(m) && i < |m.faces|
    ensures i in Must(m, Solid(b)) <==> NonDegenerate(Tri(m, i)) && SphereReaches(Tri(m, i), b.center, b.radius2)
    ensures i in May(m, Solid(b)) <==> SphereReaches(Tri(m, i), b.center, b.radius2)
  {
    hide ValidMesh, Tri, NonDegenerate, SphereReaches;
  }

  lemma FilterListed(m: Mesh, ps: seq<nat>, b: Ball, first: bool) returns (list: seq<nat>)
    requires ValidMesh(m)
    ensures Listed(m, ps, b, first, list)
  {
    var must, may := Must(m, Solid(b)), May(m, Solid(b));
    MustBelowMay(m, b);
    hide Must, May, ValidMesh;
    var all := Filter(must, ps);
    FilterIsReport(must, ps);
    SameVerdicts(must, must, must, may, false, ps, all);
    list := if first && all != [] then [all[0]] else all;
    forall p | p in ps && p in must ensures all != [] { FilterMembers(must, ps, p); }
    if all != [] { FilterMembers(must, ps, all[0]); }
  }

  lemma NextState(m: Mesh, ps: seq<nat>, coeff: real, sqrt: real -> real, s: SphereState, q: SphereQuery) returns (s': SphereState)
    requires ValidMesh(m)
    ensures SphereAnswer(m, ps, coeff, sqrt, s, q, s')
  {
    hide ValidMesh, Listed, Reuses;
    if FromCache(sqrt, s, q) {
      s' := s;
    } else {
      var list := FilterListed(m, ps, SearchBall(coeff, sqrt, s, q), q.flags.firstContact);
      s' := if q.Coherent() && !Reuses(sqrt, s.Center, s.FatRadius2, q)
        then SphereState(q.center, q.Enlarged(coeff).radius2, list) else s.(TouchedPrimitives := list);
    }
  }

  /** There is a run for any queries. */
  lemma {:induction false} SomeRun(m: Mesh, ps: seq<nat>, coeff: real, sqrt: real -> real, qs: seq<SphereQuery>) returns (states: seq<SphereState>)
    requires ValidMesh(m)
    ensures SphereRun(m, ps, coeff, sqrt, qs, states)
    decreases |qs|
  {
    hide ValidMesh, SphereAnswer;
    if qs == [] {
      states := [NEW_CACHE];
    } else {
      var before := SomeRun(m, ps, coeff, sqrt, BeforeLast(qs));
      var s' := NextState(m, ps, coeff, sqrt, before[|qs| - 1], LastOf(qs));
      states := before + [s'];
      assert states[..|qs|] == before;
    }
  }

  lemma {:induction false} BallAmong(coeff: real, sqrt: real -> real, qs: seq<SphereQuery>)
    ensures var b := SphereOriginOf(coeff, sqrt, qs).ball; b.radius2 <= 0.0 || exists q :: q in qs && q.center == b.center
    decreases |qs|
  {
    hide Reuses;
    if qs != [] {
      assert LastOf(qs) in qs;
      BallAmong(coeff, sqrt, BeforeLast(qs));
      assert forall q :: q in BeforeLast(qs) ==> q in qs;
    }
  }

  /** What the last query gets when the cache answers it. */
  lemma Returned(m: Mesh, ps: seq<nat>, coeff: real, sqrt: real -> real, qs: seq<SphereQuery>, states: seq<SphereState>)
    requires ValidMesh(m) && qs != [] && SphereRun(m, ps, coeff, sqrt, qs, states) && LastOf(qs).Coherent()
    requires var o := SphereOriginOf(coeff, sqrt, BeforeLast(qs)); Reuses(sqrt, o.Center, o.FatRadius2, LastOf(qs)) && SomeFace(m, ps, o.ball)
    ensures var o := SphereOriginOf(coeff, sqrt, BeforeLast(qs)); var list := states[|qs|].TouchedPrimitives;
      if o.oneFace then |list| == 1 else forall i :: i in list ==> i in May(m, Solid(o.ball))
  {
    RunSourced(m, ps, coeff, sqrt, BeforeLast(qs), states[..|qs|]);
    hide ValidMesh, Must, May, Reuses, Listed, SphereOriginOf, SphereRun;
  }

  lemma SphereMisses(coeff: real, sqrt: real -> real, qs: seq<SphereQuery>, a: SphereQuery) returns (m: Mesh, ps: seq<nat>, states: seq<SphereState>)
    requires qs != [] && IsRoot(sqrt) && LastOf(qs).Coherent() && !SphereAnswerable(coeff, sqrt, qs)
    requires 0.0 <= LastOf(qs).radius && FiniteSphere(LastOf(qs)) && 0.0 <= a.radius && FiniteSphere(a)
    requires a.center == SphereOriginOf(coeff, sqrt, BeforeLast(qs)).ball.center
    ensures ValidMesh(m) && SphereRun(m, ps, coeff, sqrt, qs, states) && !SphereComplete(m, ps, LastOf(qs), states[|qs|])
  {
    var q, o := LastOf(qs), SphereOriginOf(coeff, sqrt, BeforeLast(qs));
    hide ValidMesh, Reuses, NonDegenerate, SphereReaches, FiniteFace, FiniteSphere, SquareDistance, SphereOriginOf, Must, May, SphereRun;
    var near := FaceAtCenter(a, o.ball.radius2);
    var far := FarFace(sqrt, o, q);
    m, ps := FaceMesh(near, far, far), [0, 1, 2];
    FaceMeshFaces(near, far, far);
    hide FaceMesh, Tri, IsRoot;
    InMust(m, o.ball, 0);
    InMust(m, o.ball, 1);
    InMust(m, q.Thin(), 1);
    InMust(m, q.Thin(), 2);
    states := SomeRun(m, ps, coeff, sqrt, qs);
    assert 0 in ps && 1 in ps && 2 in ps;
    assert SomeFace(m, ps, o.ball);
    Returned(m, ps, coeff, sqrt, qs, states);
    if o.oneFace { OneOrOther(states[|qs|].TouchedPrimitives, 1, 2); }
  }

  lemma OneOrOther(list: seq<nat>, i: nat, j: nat)
    requires |list| == 1 && i != j
    ensures i !in list || j !in list
  {}

  /** A face of the query sphere that the ball the list answers for does not reach, unless the
      list holds one face anyway. */
  lemma FarFace(sqrt: real -> real, o: SphereOrigin, q: SphereQuery) returns (t: Triangle)
    requires IsRoot(sqrt) && 0.0 < q.radius && 0.0 < o.ball.radius2 && FiniteSphere(q)
    requires o.oneFace || sqrt(o.ball.radius2) < sqrt(SquareDistance(o.ball.center, q.center)) + q.radius
    ensures FiniteFace(t) && NonDegenerate(t) && SphereReaches(t, q.center, q.Thin().radius2)
    ensures !o.oneFace ==> !SphereReaches(t, o.ball.center, o.ball.radius2)
  {
    hide FiniteFace, NonDegenerate, SphereReaches, SquareDistance, IsRoot, FiniteSphere, Near;
    if o.oneFace {
      ThinPositive(q);
      t := FaceAtCenter(q, q.Thin().radius2);
    } else {
      t := FaceOutside(sqrt, o.ball, q);
    }
  }

  lemma ThinPositive(q: SphereQuery)
    requires 0.0 < q.radius
    ensures 0.0 < q.Thin().radius2
  {
    SquarePositiveIff(q.radius);
  }

  lemma FaceOutside(sqrt: real -> real, b: Ball, q: SphereQuery) returns (t: Triangle)
    requires IsRoot(sqrt) && 0.0 < q.radius && 0.0 < b.radius2 && FiniteSphere(q)
    requires sqrt(b.radius2) < sqrt(SquareDistance(b.center, q.center)) + q.radius
    ensures FiniteFace(t) && NonDegenerate(t) && SphereReaches(t, q.center, q.Thin().radius2) && !SphereReaches(t, b.center, b.radius2)
  {
    RootOf(sqrt, b.radius2);
    hide FiniteFace, NonDegenerate, SphereReaches, SquareDistance, IsRoot, FiniteSphere, Near;
    var d := CenterDistance(sqrt, b.center, q.center);
    t := OutsideFace(b.center, sqrt(b.radius2), q.center, q.radius, d);
    NearIsFinite(t, q);
  }

  predicate ProperSpheres(coeff: real, qs: seq<SphereQuery>) {
    1.0 <= coeff && forall q :: q in qs ==> ProperSphere(q) && FiniteSphere(q)
  }

  /** Exactly when the list of an all-contacts query holds every proper face its sphere
      reaches, on every mesh, over any run of queries in any modes: when the query searches or
      reaches nothing, or when its sphere lies inside the ball the list was searched with, in
      all-contacts mode. */
  lemma SphereRunCompleteIff(coeff: real, sqrt: real -> real, qs: seq<SphereQuery>)
    requires qs != [] && IsRoot(sqrt) && ProperSpheres(coeff, qs) && !LastOf(qs).flags.firstContact
    ensures SphereAlwaysComplete(coeff, sqrt, qs) <==> SphereAnswerable(coeff, sqrt, qs)
  {
    assert LastOf(qs) in qs;
    hide ValidMesh, FiniteSphere, IsRoot, Reuses, SquareDistance, SphereOriginOf, SphereRun, SphereComplete;
    if SphereAnswerable(coeff, sqrt, qs) {
      hide SphereAnswerable;
      forall m, ps, states | ValidMesh(m) && SphereRun(m, ps, coeff, sqrt, qs, states) ensures SphereComplete(m, ps, LastOf(qs), states[|qs|]) {
        SphereCompletes(m, ps, coeff, sqrt, qs, states);
      }
    } else {
      BallAmong(coeff, sqrt, BeforeLast(qs));
      var a :| a in BeforeLast(qs) && a.center == SphereOriginOf(coeff, sqrt, BeforeLast(qs)).ball.center;
      assert a in qs;
      var m, ps, states := SphereMisses(coeff, sqrt, qs, a);
      assert !SphereAlwaysComplete(coeff, sqrt, qs);
    }
  }

  // ---------------------------------------------------------- undisturbed runs

  /** Since the cached sphere was set, every query was coherent and, when the guard let it
      reuse the list, no larger than that sphere. */
  predicate Undisturbed(coeff: real, sqrt: real -> real, qs: seq<SphereQuery>)
    decreases |qs|
  {
    qs == [] ||
    var o, q := SphereOriginOf(coeff, sqrt, BeforeLast(qs)), LastOf(qs);
    q.Coherent() && (Reuses(sqrt, o.Center, o.FatRadius2, q) ==> q.radius <= sqrt(o.FatRadius2) && Undisturbed(coeff, sqrt, BeforeLast(qs)))
  }

  lemma {:induction false} FatNonNegative(coeff: real, sqrt: real -> real, qs: seq<SphereQuery>)
    requires 0.0 <= coeff
    ensures 0.0 <= SphereOriginOf(coeff, sqrt, qs).FatRadius2
    decreases |qs|
  {
    hide Reuses, Square;
    if qs != [] {
      FatNonNegative(coeff, sqrt, BeforeLast(qs));
      SquarePositiveIff(LastOf(qs).radius);
      ProductNonNegative(coeff, Square(LastOf(qs).radius));
    }
  }

  /** A search for a query inside the cached sphere, after that sphere's own search found
      nothing, is also a possible search for the sphere. */
  lemma EmptyThenSearched(m: Mesh, ps: seq<nat>, sqrt: real -> real, fat: Ball, q: SphereQuery, list: seq<nat>)
    requires ValidMesh(m) && IsRoot(sqrt) && 0.0 <= q.radius && 0.0 <= fat.radius2
    requires Reuses(sqrt, fat.center, fat.radius2, q) && q.radius <= sqrt(fat.radius2)
    requires Listed(m, ps, fat, false, []) && Listed(m, ps, q.Thin(), false, list)
    ensures Listed(m, ps, fat, false, list)
  {
    hide ValidMesh, Must, May, IsRoot, SquareDistance;
    GuardedDistance(sqrt, fat, q);
    InnerBall(m, sqrt, fat, q);
    ListedAll(m, ps, fat, []);
    hide Reuses;
    SameVerdicts(Must(m, Solid(q.Thin())), May(m, Solid(q.Thin())), Must(m, Solid(fat)), May(m, Solid(fat)), false, ps, list);
    hide Reports;
  }

  /** Over an undisturbed run the list is always a possible search result for the cached
      sphere. */
  lemma {:induction false} UndisturbedRun(m: Mesh, ps: seq<nat>, coeff: real, sqrt: real -> real, qs: seq<SphereQuery>, states: seq<SphereState>)
    requires ValidMesh(m) && IsRoot(sqrt) && ProperSpheres(coeff, qs) && SphereRun(m, ps, coeff, sqrt, qs, states) && Undisturbed(coeff, sqrt, qs)
    ensures var s := states[|qs|]; Listed(m, ps, Ball(s.Center, s.FatRadius2), false, s.TouchedPrimitives)
    decreases |qs|
  {
    hide ValidMesh, IsRoot, Reuses, FiniteSphere, Must, May, Listed, SphereOriginOf;
    if qs == [] {
      NothingListed(m, ps, Ball(NEW_CACHE.Center, 0.0));
    } else {
      var before, q, s := BeforeLast(qs), LastOf(qs), states[|qs| - 1];
      assert q in qs && forall p :: p in before ==> p in qs;
      RunSourced(m, ps, coeff, sqrt, before, states[..|qs|]);
      FatNonNegative(coeff, sqrt, before);
      hide Sourced;
      assert s.Center == SphereOriginOf(coeff, sqrt, before).Center && s.FatRadius2 == SphereOriginOf(coeff, sqrt, before).FatRadius2 by {
        SourcedSphere(m, ps, s, SphereOriginOf(coeff, sqrt, before));
      }
      if Reuses(sqrt, s.Center, s.FatRadius2, q) {
        UndisturbedRun(m, ps, coeff, sqrt, before, states[..|qs|]);
        if s.TouchedPrimitives == [] {
          EmptyThenSearched(m, ps, sqrt, Ball(s.Center, s.FatRadius2), q, states[|qs|].TouchedPrimitives);
        }
      }
    }
  }

  lemma SourcedSphere(m: Mesh, ps: seq<nat>, s: SphereState, o: SphereOrigin)
    requires ValidMesh(m) && Sourced(m, ps, s, o)
    ensures s.Center == o.Center && s.FatRadius2 == o.FatRadius2
  {}

  lemma NothingListed(m: Mesh, ps: seq<nat>, b: Ball)
    requires ValidMesh(m) && b.radius2 <= 0.0
    ensures Listed(m, ps, b, false, [])
  {
    NothingMay(m, b);
    MustBelowMay(m, b);
    hide Must, May, ValidMesh;
    ReportNothing(Must(m, Solid(b)), May(m, Solid(b)), false, ps);
    hide Reports;
  }

  // ------------------------------------------------------------- failing inputs

  const COHERENT := Flags(false, true, false, false)

  lemma SameRoot(a: real, b: real)
    requires 0.0 <= a && 0.0 <= b && Square(a) == Square(b)
    ensures a == b
  {
    if a < b { Strict(a, b); }
    if b < a { Strict(b, a); }
  }

  lemma SmallRoots(sqrt: real -> real)
    requires IsRoot(sqrt)
    ensures sqrt(0.0) == 0.0 && sqrt(1.0) == 1.0
  {
    RootOf(sqrt, 0.0);
    RootOf(sqrt, 1.0);
    SquarePositiveIff(sqrt(0.0));
    SameRoot(sqrt(1.0), 1.0);
  }

  lemma GapAlongX(a: Point, b: Point)
    requires a.y == b.y && a.z == b.z
    ensures SquareDistance(a, b) == Square(a.x - b.x)
  {}

  lemma SquareOf(x: real, y: real)
    requires y == x || y == -x
    ensures Square(y) == x * x
  {}

  /** Two queries on a new cache, the second one answered from a list too small for it. */
  lemma TwoQueriesMiss(coeff: real, sqrt: real -> real, a: SphereQuery, b: SphereQuery, o: SphereOrigin)
    requires IsRoot(sqrt) && 1.0 <= coeff && b.Coherent() && 0.0 <= a.radius && FiniteSphere(a) && 0.0 < b.radius && FiniteSphere(b)
    requires o == NextOrigin(coeff, sqrt, NEW_ORIGIN, a) && Reuses(sqrt, o.Center, o.FatRadius2, b)
    requires 0.0 < o.ball.radius2 && sqrt(o.ball.radius2) < sqrt(SquareDistance(o.ball.center, b.center)) + b.radius
    ensures !SphereAlwaysComplete(coeff, sqrt, [a, b])
  {
    var qs := [a, b];
    assert BeforeLast(qs) == [a] && BeforeLast([a]) == [] && LastOf(qs) == b && LastOf([a]) == a;
    hide Reuses, NextOrigin, SquareDistance, IsRoot, FiniteSphere, SphereAlwaysComplete;
    assert SphereOriginOf(coeff, sqrt, [a]) == o;
    SphereRunCompleteIff(coeff, sqrt, qs);
  }

  const ASIDE := Point(5.0, 0.0, 0.0)
  const HALF := Point(0.5, 0.0, 0.0)

  /** A query of unit radius on a new cache: it sets the cached sphere, unless it is around
      the origin, where a sphere of no size already is. */
  lemma UnitQueryFirst(sqrt: real -> real)
    requires IsRoot(sqrt)
    ensures NextOrigin(1.0, sqrt, NEW_ORIGIN, SphereQuery(COHERENT, ASIDE, 1.0)) == SphereOrigin(ASIDE, 1.0, Ball(ASIDE, 1.0), false)
    ensures NextOrigin(1.0, sqrt, NEW_ORIGIN, SphereQuery(COHERENT, NEW_CACHE.Center, 1.0)) == SphereOrigin(NEW_CACHE.Center, 0.0, Ball(NEW_CACHE.Center, 1.0), false)
  {
    SmallRoots(sqrt);
    GapAlongX(NEW_CACHE.Center, ASIDE);
    GapAlongX(NEW_CACHE.Center, NEW_CACHE.Center);
    SquareOf(5.0, -5.0);
    SquareOf(0.0, 0.0);
    SquareOf(1.0, 1.0);
    SquareOf(1.0, -1.0);
    hide SquareDistance, Square, IsRoot;
  }

  lemma GrownGuard(sqrt: real -> real)
    requires IsRoot(sqrt)
    ensures Reuses(sqrt, ASIDE, 1.0, SphereQuery(COHERENT, ASIDE, 3.0)) && sqrt(SquareDistance(ASIDE, ASIDE)) == 0.0
  {
    hide SquareDistance, Square, IsRoot;
    SmallRoots(sqrt);
    GapAlongX(ASIDE, ASIDE);
    SquareOf(2.0, -2.0);
    SquareOf(0.0, 0.0);
  }

  /** A sphere of radius one, then one of radius three around the same center: the second is
      answered with the list of the first. */
  lemma GrownQueryMisses(sqrt: real -> real)
    requires IsRoot(sqrt)
    ensures !SphereAlwaysComplete(1.0, sqrt, [SphereQuery(COHERENT, ASIDE, 1.0), SphereQuery(COHERENT, ASIDE, 3.0)])
  {
    hide SquareDistance, Square, IsRoot, SphereAlwaysComplete, NextOrigin, Reuses;
    UnitQueryFirst(sqrt);
    SmallRoots(sqrt);
    GrownGuard(sqrt);
    TwoQueriesMiss(1.0, sqrt, SphereQuery(COHERENT, ASIDE, 1.0), SphereQuery(COHERENT, ASIDE, 3.0), SphereOrigin(ASIDE, 1.0, Ball(ASIDE, 1.0), false));
  }

  /** A new cache has a sphere of no size at the origin, and a query around the origin passes
      for one inside it: a second query near it gets the first one's list. */
  lemma NewCacheMisses(sqrt: real -> real)
    requires IsRoot(sqrt)
    ensures !SphereAlwaysComplete(1.0, sqrt, [SphereQuery(COHERENT, NEW_CACHE.Center, 1.0), SphereQuery(COHERENT, HALF, 1.0)])
  {
    UnitQueryFirst(sqrt);
    SmallRoots(sqrt);
    GapAlongX(NEW_CACHE.Center, HALF);
    SquareOf(1.0, -1.0);
    SquareOf(0.5, -0.5);
    QuarterRoot(sqrt);
    hide SquareDistance, Square, IsRoot, SphereAlwaysComplete, NextOrigin;
    TwoQueriesMiss(1.0, sqrt, SphereQuery(COHERENT, NEW_CACHE.Center, 1.0), SphereQuery(COHERENT, HALF, 1.0),
                   SphereOrigin(NEW_CACHE.Center, 0.0, Ball(NEW_CACHE.Center, 1.0), false));
  }

  lemma QuarterRoot(sqrt: real -> real)
    requires IsRoot(sqrt)
    ensures 0.0 < sqrt(0.25)
  {
    RootOf(sqrt, 0.25);
  }
}
