/** Tree-vs-tree queries (OPC_TreeCollider.cpp): the no-leaf recursion, whose routines share
    one scratch triangle, and the recursion over trees with leaf nodes.

    The triangle-triangle test is a parameter, and need not be right: an answer holds every pair
    that is accepted and shares a point, and only accepted pairs. The test is called in three
    frames; which one decides a pair depends on the shapes of the two trees, so every candidate
    pair carries its frame. */
module TreeColliders {
  import opened BoxBox
  import opened ColliderFlags
  import opened Geometry
  import opened Motions
  import opened OptimizedTrees
  import opened Options
  import opened Search
  import opened Trees
  import opened TriBox
  import opened TriTri

  type PairId = (nat, nat)

  /** The two meshes, the test, and the motions between their spaces: (rot, trans) from 1 to
      0, i.e. mR1to0 and mT1to0, and back. */
  datatype Scene = Scene(m0: Mesh, m1: Mesh, triTri: (Triangle, Triangle) -> bool, rot: Matrix3x3, trans: Point, back: Motion)

  ghost predicate ValidScene(s: Scene) {
    ValidMesh(s.m0) && ValidMesh(s.m1) && IsRotation(s.rot) && s.back == Invert(Motion(s.rot, s.trans))
  }

  function In1(s: Scene, t: Triangle): Triangle {
    Move(s.back, t)
  }

  function In0(s: Scene, t: Triangle): Triangle {
    TransformTriangle(t, s.rot, s.trans)
  }

  function OrIdentity(world: Option<Motion>): Motion {
    match world case None => IDENTITY case Some(m) => m
  }

  /** InitQuery's relative motions. */
  function PlacedScene(s: Scene, world0: Option<Motion>, world1: Option<Motion>): Scene {
    var w0, w1 := OrIdentity(world0), OrIdentity(world1);
    var oneToZero := Compose(w1, Invert(w0));
    s.(rot := oneToZero.rot, trans := oneToZero.trans, back := Compose(w0, Invert(w1)))
  }

  /** With rigid world matrices the two relative motions are inverse to each other. */
  lemma PlacedSceneValid(s: Scene, world0: Option<Motion>, world1: Option<Motion>)
    requires ValidMesh(s.m0) && ValidMesh(s.m1) && ValidWorld(world0) && ValidWorld(world1)
    ensures ValidScene(PlacedScene(s, world0, world1))
  {
    hide OrIdentity, IsRotation, ValidMesh, Compose, Invert;
    OrIdentityValid(world0);
    OrIdentityValid(world1);
    var w0, w1 := OrIdentity(world0), OrIdentity(world1);
    MotionsClosed(w0, w0);
    MotionsClosed(w1, Invert(w0));
    RelativeMotions(w1, w0);
  }

  lemma OrIdentityValid(world: Option<Motion>)
    requires ValidWorld(world)
    ensures IsMotion(OrIdentity(world))
  {
    hide IsRotation;
    IdentityIsMotion();
  }

  /** A null matrix leaves a model where it is. */
  lemma PlacedByMatrix(world: Option<Motion>, t: Triangle)
    ensures Move(OrIdentity(world), t) == Placed(world, t)
  {
    hide Move;
    if world.None? { PlacedByIdentity(t); }
  }

  /** Sharing a point in space 0 is sharing one in the world, where both meshes are placed. */
  lemma ContactInWorld(s: Scene, world0: Option<Motion>, world1: Option<Motion>, t0: Triangle, t1: Triangle)
    requires ValidWorld(world0) && ValidWorld(world1)
    ensures SharedPoint(In0(PlacedScene(s, world0, world1), t1), t0) <==> SharedPoint(Placed(world1, t1), Placed(world0, t0))
  {
    hide IsRotation, Compose, Invert, OrIdentity;
    OrIdentityValid(world0);
    OrIdentityValid(world1);
    PlacedByMatrix(world0, t0);
    PlacedByMatrix(world1, t1);
    var w0, w1 := OrIdentity(world0), OrIdentity(world1);
    assert In0(PlacedScene(s, world0, world1), t1) == Move(Compose(w1, Invert(w0)), t1);
    hide PlacedScene, In0, Move, InTriangle;
    MovedContact(w0, w1, t0, t1);
  }

  lemma MovedContact(w0: Motion, w1: Motion, t0: Triangle, t1: Triangle)
    requires IsMotion(w0) && IsMotion(w1)
    ensures SharedPoint(Move(Compose(w1, Invert(w0)), t1), t0) <==> SharedPoint(Move(w1, t1), Move(w0, t0))
  {
    hide IsMotion, Compose, Invert, InTriangle, Apply, Move;
    var relative := Compose(w1, Invert(w0));
    forall p | true
      ensures InTriangle(Move(relative, t1), p) && InTriangle(t0, p) <==> InTriangle(Move(w1, t1), Apply(w0, p)) && InTriangle(Move(w0, t0), Apply(w0, p))
    {
      MovedContactPoint(w0, w1, t0, t1, p);
    }
    forall p | true ensures Apply(w0, Apply(Invert(w0), p)) == p { InvertUndoes(w0, p); }
    if SharedPoint(Move(w1, t1), Move(w0, t0)) {
      var p :| InTriangle(Move(w1, t1), p) && InTriangle(Move(w0, t0), p);
      var q := Apply(Invert(w0), p);
      assert InTriangle(Move(relative, t1), q) && InTriangle(t0, q);
    }
  }

  lemma MovedContactPoint(w0: Motion, w1: Motion, t0: Triangle, t1: Triangle, p: Point)
    requires IsMotion(w0) && IsMotion(w1)
    ensures InTriangle(Move(Compose(w1, Invert(w0)), t1), p) <==> InTriangle(Move(w1, t1), Apply(w0, p))
    ensures InTriangle(t0, p) <==> InTriangle(Move(w0, t0), Apply(w0, p))
  {
    hide IsMotion, Compose, Invert, InTriangle, Apply, Move;
    MotionsClosed(w0, w0);
    MotionsClosed(w1, Invert(w0));
    var relative := Compose(w1, Invert(w0));
    var q := Apply(Invert(relative), p);
    InvertUndoes(relative, p);
    ComposeActs(w1, Invert(w0), q);
    InvertUndoes(w0, Apply(w1, q));
    TrianglesMove(relative, t1, q);
    TrianglesMove(w1, t1, q);
    TrianglesMove(w0, t0, p);
  }

  // The three calls of the triangle test, on a triangle of each mesh.
  predicate TestTriIndex(s: Scene, t0: Triangle, t1: Triangle) { s.triTri(In1(s, t0), t1) }
  predicate TestIndexTri(s: Scene, t0: Triangle, t1: Triangle) { s.triTri(In0(s, t1), t0) }
  predicate TestPrims(s: Scene, t0: Triangle, t1: Triangle) { s.triTri(t0, In0(s, t1)) }

  /** Where a pair is tested: with the first triangle fetched into space 1, with the second
      fetched into space 0, or directly in space 0. */
  datatype Frame = Undecided | Leaf0InSpace1 | Leaf1InSpace0 | BothInSpace0

  datatype Candidate = Candidate(pair: PairId, frame: Frame)

  predicate Passes(s: Scene, t0: Triangle, t1: Triangle, frame: Frame) {
    match frame
    case Undecided => false
    case Leaf0InSpace1 => TestTriIndex(s, t0, t1)
    case Leaf1InSpace0 => TestIndexTri(s, t0, t1)
    case BothInSpace0 => TestPrims(s, t0, t1)
  }

  /** Brute force: the pairs accepted in a frame. */
  ghost function Hits(s: Scene): set<Candidate>
    requires ValidScene(s)
  {
    set i: nat, j: nat, frame: Frame | i < |s.m0.faces| && j < |s.m1.faces| && Passes(s, Tri(s.m0, i), Tri(s.m1, j), frame) :: Candidate((i, j), frame)
  }

  lemma HitsAt(s: Scene, c: Candidate)
    requires ValidScene(s)
    ensures c in Hits(s) <==> c.pair.0 < |s.m0.faces| && c.pair.1 < |s.m1.faces| && Passes(s, Tri(s.m0, c.pair.0), Tri(s.m1, c.pair.1), c.frame)
  {
    hide ValidMesh, Tri, Passes;
    assert c == Candidate((c.pair.0, c.pair.1), c.frame);
  }

  /** Sharing a point in space 1 is sharing one in space 0. */
  lemma SharedEitherWay(s: Scene, t0: Triangle, t1: Triangle)
    requires IsRotation(s.rot) && s.back == Invert(Motion(s.rot, s.trans))
    ensures SharedPoint(In1(s, t0), t1) <==> SharedPoint(In0(s, t1), t0)
  {
    var w := Motion(s.rot, s.trans);
    assert IsMotion(w);
    MotionsClosed(w, w);
    assert In0(s, t1) == Move(w, t1);
    hide IsMotion, Invert, InTriangle, Apply, Move;
    forall q | true
      ensures InTriangle(In1(s, t0), q) && InTriangle(t1, q) <==> InTriangle(t0, Apply(w, q)) && InTriangle(In0(s, t1), Apply(w, q))
    {
      TrianglesMove(s.back, t0, Apply(w, q));
      TrianglesMove(w, t1, q);
      InvertUndoes(w, q);
    }
    forall p | true ensures Apply(w, Apply(s.back, p)) == p { InvertUndoes(w, p); }
    if SharedPoint(In0(s, t1), t0) {
      var p :| InTriangle(In0(s, t1), p) && InTriangle(t0, p);
      var q := Apply(s.back, p);
      assert InTriangle(In1(s, t0), q) && InTriangle(t1, q);
    }
  }

  /** The pairs an answer must not miss: accepted, and sharing a point. */
  ghost function Contacts(s: Scene): set<Candidate>
    requires ValidScene(s)
  {
    set c | c in Hits(s) && Touching(s, c.pair)
  }

  ghost predicate Touching(s: Scene, pair: PairId)
    requires ValidScene(s)
  {
    && pair.0 < |s.m0.faces| && pair.1 < |s.m1.faces|
    && SharedPoint(In0(s, Tri(s.m1, pair.1)), Tri(s.m0, pair.0))
  }

  lemma ContactIsHit(s: Scene, c: Candidate)
    requires ValidScene(s)
    ensures c in Contacts(s) <==> c in Hits(s) && Touching(s, c.pair)
  {
    hide ValidMesh, Hits, Touching;
  }

  /** A pair that must not be missed shares a point in space 0 and in space 1. */
  lemma ContactTouches(s: Scene, c: Candidate)
    requires ValidScene(s) && c in Contacts(s)
    ensures c.pair.0 < |s.m0.faces| && c.pair.1 < |s.m1.faces|
    ensures SharedPoint(In0(s, Tri(s.m1, c.pair.1)), Tri(s.m0, c.pair.0)) && SharedPoint(In1(s, Tri(s.m0, c.pair.0)), Tri(s.m1, c.pair.1))
  {
    ContactIsHit(s, c);
    hide InTriangle, ValidMesh, Hits, Contacts, In0, In1, IsRotation;
    SharedEitherWay(s, Tri(s.m0, c.pair.0), Tri(s.m1, c.pair.1));
  }

  /** A pair touches in space 0 exactly when its faces share a point in the world. */
  lemma TouchingInWorld(s: Scene, world0: Option<Motion>, world1: Option<Motion>, placed: Scene, i: nat, j: nat)
    requires placed == PlacedScene(s, world0, world1) && ValidWorld(world0) && ValidWorld(world1)
    requires ValidScene(placed) && i < |s.m0.faces| && j < |s.m1.faces|
    ensures ValidMesh(s.m0) && ValidMesh(s.m1)
    ensures Touching(placed, (i, j)) <==> SharedPoint(Placed(world1, Tri(s.m1, j)), Placed(world0, Tri(s.m0, i)))
  {
    hide ValidMesh, SharedPoint, In0, Compose, Invert, OrIdentity, IsRotation;
    ContactInWorld(s, world0, world1, Tri(s.m0, i), Tri(s.m1, j));
  }

  // ------------------------------------------------------------------ candidates

  function First(t: Tree, flip: bool): Tree
    requires t.Node?
  {
    if flip then t.neg else t.pos
  }

  function Second(t: Tree, flip: bool): Tree
    requires t.Node?
  {
    if flip then t.pos else t.neg
  }

  /** All pairs of primitives in the order the recursion meets them: positive children first
      in no-leaf trees, negative children first (`flip`) in trees with leaves. */
  function Candidates(t0: Tree, t1: Tree, flip: bool): seq<PairId>
    requires Complete(t0) && Complete(t1)
    decreases Count(t0) + Count(t1), 1
  {
    match (t0, t1)
    case (Leaf(_, ps), Leaf(_, qs)) => [(ps[0], qs[0])]
    case (Leaf(_, _), Node(_, _, _)) => Against(t0, t1, flip)
    case (Node(_, _, _), Leaf(_, _)) => Candidates(First(t0, flip), t1, flip) + Candidates(Second(t0, flip), t1, flip)
    case (Node(_, _, _), Node(_, _, _)) => Against(First(t0, flip), t1, flip) + Against(Second(t0, flip), t1, flip)
  }

  /** One tree against the two children of the other. */
  function Against(t0: Tree, t1: Tree, flip: bool): seq<PairId>
    requires Complete(t0) && Complete(t1) && t1.Node?
    decreases Count(t0) + Count(t1), 0
  {
    Candidates(t0, First(t1, flip), flip) + Candidates(t0, Second(t1, flip), flip)
  }

  function Reversed(s: seq<nat>): seq<nat> { seq(|s|, k requires 0 <= k < |s| => s[|s| - 1 - k]) }

  /** Depth-first order, or its reverse. */
  function LeafOrder(t: Tree, flip: bool): seq<nat> { if flip then Reversed(Prims(t)) else Prims(t) }

  lemma OrderedHalves(t: Tree, flip: bool)
    requires t.Node?
    ensures LeafOrder(t, flip) == LeafOrder(First(t, flip), flip) + LeafOrder(Second(t, flip), flip)
  {
    var a, b := Prims(t.pos), Prims(t.neg);
    assert Reversed(a + b) == Reversed(b) + Reversed(a);
  }

  /** Against a leaf the pairs come in the depth-first order of the other tree, or reversed. */
  lemma {:induction false} LeafCandidates(t0: Tree, t1: Tree, flip: bool)
    requires Complete(t0) && Complete(t1)
    ensures t1.Leaf? ==> var ps := LeafOrder(t0, flip); Candidates(t0, t1, flip) == seq(|ps|, k requires 0 <= k < |ps| => (ps[k], t1.prims[0]))
    ensures t0.Leaf? ==> var qs := LeafOrder(t1, flip); Candidates(t0, t1, flip) == seq(|qs|, k requires 0 <= k < |qs| => (t0.prims[0], qs[k]))
    decreases Count(t0) + Count(t1)
  {
    if t0.Leaf? && t1.Leaf? {
      assert LeafOrder(t0, flip) == t0.prims && LeafOrder(t1, flip) == t1.prims;
    } else if t1.Leaf? {
      LeafCandidates(First(t0, flip), t1, flip);
      LeafCandidates(Second(t0, flip), t1, flip);
      OrderedHalves(t0, flip);
      hide Prims, LeafOrder;
    } else if t0.Leaf? {
      LeafCandidates(t0, First(t1, flip), flip);
      LeafCandidates(t0, Second(t1, flip), flip);
      OrderedHalves(t1, flip);
      hide Prims, LeafOrder;
    }
  }

  function Times(a: nat, b: nat): nat { a * b }

  lemma TimesSum(a: nat, b: nat, c: nat)
    ensures Times(a + b, c) == Times(a, c) + Times(b, c) && Times(c, a + b) == Times(c, a) + Times(c, b)
  {}

  lemma TimesPositive(a: nat, b: nat)
    ensures 0 < Times(a, b) <==> 0 < a && 0 < b
  {}

  lemma PrimsOccurrences(t: Tree, k: nat)
    ensures t.Node? ==> Occurrences(Prims(t), k) == Occurrences(Prims(t.pos), k) + Occurrences(Prims(t.neg), k)
    ensures t.Leaf? && Complete(t) ==> Occurrences(Prims(t), k) == if k == t.prims[0] then 1 else 0
  {
    if t.Node? { OccurrencesJoin(Prims(t.pos), Prims(t.neg), k); } else if Complete(t) { assert t.prims == [t.prims[0]]; }
  }

  lemma LeafPair(t0: Tree, t1: Tree, flip: bool, i: nat, j: nat)
    requires Complete(t0) && Complete(t1) && t0.Leaf? && t1.Leaf?
    ensures Occurrences(Candidates(t0, t1, flip), (i, j)) == Times(Occurrences(Prims(t0), i), Occurrences(Prims(t1), j))
  {
    PrimsOccurrences(t0, i);
    PrimsOccurrences(t1, j);
    assert Candidates(t0, t1, flip) == [(t0.prims[0], t1.prims[0])];
    hide Candidates, Prims;
  }

  lemma SplitCandidates(t0: Tree, t1: Tree, flip: bool)
    requires Complete(t0) && Complete(t1) && t0.Node?
    ensures Candidates(t0, t1, flip) ==
      if t1.Leaf? then Candidates(First(t0, flip), t1, flip) + Candidates(Second(t0, flip), t1, flip)
      else Against(First(t0, flip), t1, flip) + Against(Second(t0, flip), t1, flip)
  {}

  /** Every pair is a candidate as often as its primitives occur in the trees: once. */
  lemma {:induction false} CandidatesComplete(t0: Tree, t1: Tree, flip: bool, i: nat, j: nat)
    requires Complete(t0) && Complete(t1)
    ensures Occurrences(Candidates(t0, t1, flip), (i, j)) == Times(Occurrences(Prims(t0), i), Occurrences(Prims(t1), j))
    decreases Count(t0) + Count(t1), 1
  {
    hide Occurrences, Times, Prims, Against;
    if t0.Leaf? && t1.Leaf? {
      LeafPair(t0, t1, flip, i, j);
    } else if t0.Leaf? {
      AgainstComplete(t0, t1, flip, i, j);
    } else {
      hide Candidates;
      PrimsOccurrences(t0, i);
      SplitCandidates(t0, t1, flip);
      TimesSum(Occurrences(Prims(t0.pos), i), Occurrences(Prims(t0.neg), i), Occurrences(Prims(t1), j));
      if t1.Leaf? {
        CandidatesComplete(t0.pos, t1, flip, i, j);
        CandidatesComplete(t0.neg, t1, flip, i, j);
        OccurrencesJoin(Candidates(First(t0, flip), t1, flip), Candidates(Second(t0, flip), t1, flip), (i, j));
      } else {
        AgainstComplete(t0.pos, t1, flip, i, j);
        AgainstComplete(t0.neg, t1, flip, i, j);
        OccurrencesJoin(Against(First(t0, flip), t1, flip), Against(Second(t0, flip), t1, flip), (i, j));
      }
    }
  }

  lemma {:induction false} AgainstComplete(t0: Tree, t1: Tree, flip: bool, i: nat, j: nat)
    requires Complete(t0) && Complete(t1) && t1.Node?
    ensures Occurrences(Against(t0, t1, flip), (i, j)) == Times(Occurrences(Prims(t0), i), Occurrences(Prims(t1), j))
    decreases Count(t0) + Count(t1), 0
  {
    PrimsOccurrences(t1, j);
    hide Occurrences, Times, Prims;
    CandidatesComplete(t0, t1.pos, flip, i, j);
    CandidatesComplete(t0, t1.neg, flip, i, j);
    OccurrencesJoin(Candidates(t0, First(t1, flip), flip), Candidates(t0, Second(t1, flip), flip), (i, j));
    TimesSum(Occurrences(Prims(t1.pos), j), Occurrences(Prims(t1.neg), j), Occurrences(Prims(t0), i));
  }

  lemma CandidateMembers(t0: Tree, t1: Tree, flip: bool, c: PairId)
    requires Complete(t0) && Complete(t1)
    ensures c in Candidates(t0, t1, flip) <==> c.0 in Prims(t0) && c.1 in Prims(t1)
  {
    hide Candidates, Prims, Occurrences, Times;
    CandidatesComplete(t0, t1, flip, c.0, c.1);
    OccurrencesMember(Candidates(t0, t1, flip), c);
    OccurrencesMember(Prims(t0), c.0);
    OccurrencesMember(Prims(t1), c.1);
    TimesPositive(Occurrences(Prims(t0), c.0), Occurrences(Prims(t1), c.1));
    assert c == (c.0, c.1);
  }

  // ------------------------------------------------------------------------ frames

  /** The first leaf reached on either side is fetched; tree 0's if both are. */
  function Decide(frame: Frame, t0: Tree, t1: Tree): Frame {
    if frame != Undecided then frame else if t0.Leaf? then Leaf0InSpace1 else if t1.Leaf? then Leaf1InSpace0 else Undecided
  }

  /** The candidates with the frame each is tested in. */
  function Framed(t0: Tree, t1: Tree, frame: Frame): seq<Candidate>
    requires Complete(t0) && Complete(t1)
    decreases Count(t0) + Count(t1), 1
  {
    var f, flip := Decide(frame, t0, t1), frame == BothInSpace0;
    match (t0, t1)
    case (Leaf(_, ps), Leaf(_, qs)) => [Candidate((ps[0], qs[0]), f)]
    case (Leaf(_, _), Node(_, _, _)) => FramedAgainst(t0, t1, f)
    case (Node(_, _, _), Leaf(_, _)) => Framed(First(t0, flip), t1, f) + Framed(Second(t0, flip), t1, f)
    case (Node(_, _, _), Node(_, _, _)) => FramedAgainst(First(t0, flip), t1, f) + FramedAgainst(Second(t0, flip), t1, f)
  }

  function FramedAgainst(t0: Tree, t1: Tree, frame: Frame): seq<Candidate>
    requires Complete(t0) && Complete(t1) && t1.Node?
    decreases Count(t0) + Count(t1), 0
  {
    Framed(t0, First(t1, frame == BothInSpace0), frame) + Framed(t0, Second(t1, frame == BothInSpace0), frame)
  }

  function PairsOf(cs: seq<Candidate>): seq<PairId> {
    if cs == [] then [] else [cs[0].pair] + PairsOf(cs[1..])
  }

  lemma {:induction false} PairsJoin(a: seq<Candidate>, b: seq<Candidate>)
    ensures PairsOf(a + b) == PairsOf(a) + PairsOf(b)
  {
    if a == [] {
      assert a + b == b;
    } else {
      assert (a + b)[0] == a[0] && (a + b)[1..] == a[1..] + b;
      PairsJoin(a[1..], b);
    }
  }

  lemma {:induction false} PairsMember(cs: seq<Candidate>, c: Candidate)
    requires c in cs
    ensures c.pair in PairsOf(cs)
  {
    if c != cs[0] { PairsMember(cs[1..], c); }
  }

  /** Without their frames they are the candidates. */
  lemma {:induction false} FramedPairs(t0: Tree, t1: Tree, frame: Frame)
    requires Complete(t0) && Complete(t1)
    ensures PairsOf(Framed(t0, t1, frame)) == Candidates(t0, t1, frame == BothInSpace0)
    decreases Count(t0) + Count(t1), 1
  {
    var f, flip := Decide(frame, t0, t1), frame == BothInSpace0;
    if t0.Leaf? && t1.Leaf? {
      assert PairsOf([Candidate((t0.prims[0], t1.prims[0]), f)][1..]) == [];
    } else if t0.Leaf? {
      FramedAgainstPairs(t0, t1, f);
    } else if t1.Leaf? {
      FramedPairs(First(t0, flip), t1, f);
      FramedPairs(Second(t0, flip), t1, f);
      PairsJoin(Framed(First(t0, flip), t1, f), Framed(Second(t0, flip), t1, f));
    } else {
      FramedAgainstPairs(First(t0, flip), t1, f);
      FramedAgainstPairs(Second(t0, flip), t1, f);
      PairsJoin(FramedAgainst(First(t0, flip), t1, f), FramedAgainst(Second(t0, flip), t1, f));
    }
    hide PairsOf;
  }

  lemma {:induction false} FramedAgainstPairs(t0: Tree, t1: Tree, frame: Frame)
    requires Complete(t0) && Complete(t1) && t1.Node?
    ensures PairsOf(FramedAgainst(t0, t1, frame)) == Against(t0, t1, frame == BothInSpace0)
    decreases Count(t0) + Count(t1), 0
  {
    var flip := frame == BothInSpace0;
    FramedPairs(t0, First(t1, flip), frame);
    FramedPairs(t0, Second(t1, flip), frame);
    PairsJoin(Framed(t0, First(t1, flip), frame), Framed(t0, Second(t1, flip), frame));
    hide PairsOf, Framed, Candidates;
  }

  lemma FramedMembers(t0: Tree, t1: Tree, frame: Frame, c: Candidate)
    requires Complete(t0) && Complete(t1) && c in Framed(t0, t1, frame)
    ensures c.pair.0 in Prims(t0) && c.pair.1 in Prims(t1)
  {
    hide Framed, Prims, PairsOf, Candidates;
    PairsMember(Framed(t0, t1, frame), c);
    FramedPairs(t0, t1, frame);
    CandidateMembers(t0, t1, frame == BothInSpace0, c.pair);
  }

  /** The primitive is in a leaf at the given depth. */
  predicate LeafAt(t: Tree, i: nat, depth: nat) {
    match t
    case Leaf(_, ps) => depth == 0 && ps == [i]
    case Node(_, p, n) => depth > 0 && (LeafAt(p, i, depth - 1) || LeafAt(n, i, depth - 1))
  }

  lemma {:induction false} DecidedFrame(t0: Tree, t1: Tree, frame: Frame, c: Candidate) returns (d0: nat, d1: nat)
    requires Complete(t0) && Complete(t1) && frame != Undecided && c in Framed(t0, t1, frame)
    ensures c.frame == frame && LeafAt(t0, c.pair.0, d0) && LeafAt(t1, c.pair.1, d1)
    decreases Count(t0) + Count(t1)
  {
    var flip := frame == BothInSpace0;
    if t0.Leaf? && t1.Leaf? {
      d0, d1 := 0, 0;
    } else if t0.Leaf? {
      d0, d1 := DecidedFrame(t0, if c in Framed(t0, First(t1, flip), frame) then First(t1, flip) else Second(t1, flip), frame, c);
      d1 := d1 + 1;
    } else if t1.Leaf? {
      d0, d1 := DecidedFrame(if c in Framed(First(t0, flip), t1, frame) then First(t0, flip) else Second(t0, flip), t1, frame, c);
      d0 := d0 + 1;
    } else {
      var u := if c in FramedAgainst(First(t0, flip), t1, frame) then First(t0, flip) else Second(t0, flip);
      d0, d1 := DecidedFrame(u, if c in Framed(u, First(t1, flip), frame) then First(t1, flip) else Second(t1, flip), frame, c);
      d0, d1 := d0 + 1, d1 + 1;
    }
  }

  /** In no-leaf trees a pair is tested with the shallower of its two leaves fetched into the
      other's space, tree 0's when they are equally deep. */
  lemma {:induction false} FrameByDepth(t0: Tree, t1: Tree, c: Candidate) returns (d0: nat, d1: nat)
    requires Complete(t0) && Complete(t1) && c in Framed(t0, t1, Undecided)
    ensures LeafAt(t0, c.pair.0, d0) && LeafAt(t1, c.pair.1, d1) && c.frame == if d0 <= d1 then Leaf0InSpace1 else Leaf1InSpace0
    decreases Count(t0) + Count(t1)
  {
    if t0.Leaf? {
      SameFramed(t0, t1, Undecided);
      d0, d1 := DecidedFrame(t0, t1, Leaf0InSpace1, c);
    } else if t1.Leaf? {
      SameFramed(t0, t1, Undecided);
      d0, d1 := DecidedFrame(t0, t1, Leaf1InSpace0, c);
    } else {
      var u := if c in FramedAgainst(t0.pos, t1, Undecided) then t0.pos else t0.neg;
      d0, d1 := FrameByDepth(u, if c in Framed(u, t1.pos, Undecided) then t1.pos else t1.neg, c);
      d0, d1 := d0 + 1, d1 + 1;
    }
  }

  /** Deciding twice changes nothing. */
  lemma SameFramed(t0: Tree, t1: Tree, frame: Frame)
    requires Complete(t0) && Complete(t1) && frame != BothInSpace0
    ensures Framed(t0, t1, frame) == Framed(t0, t1, Decide(frame, t0, t1))
  {}

  // ----------------------------------------------------------------- pruning facts

  /** A point two triangles share after moving the second one into space 0. */
  lemma SharedInSpace0(s: Scene, t0: Triangle, t1: Triangle)
    requires SharedPoint(In0(s, t1), t0)
    ensures exists q :: InTriangle(t1, q) && InTriangle(t0, TransformPoint(q, s.rot, s.trans))
  {
    hide At, TransformPoint, TransformTriangle;
    var p :| InTriangle(In0(s, t1), p) && InTriangle(t0, p);
    var u, v :| Bary(u, v) && p == At(In0(s, t1), u, v);
    TransformAt(t1, u, v, s.rot, s.trans);
    assert InTriangle(t1, At(t1, u, v));
    assert InTriangle(t0, TransformPoint(At(t1, u, v), s.rot, s.trans));
  }

  /** Box against box: no colliding pair is lost. */
  lemma BoxesKept(s: Scene, a: CollisionAABB, b: CollisionAABB, t0: Triangle, t1: Triangle, full: bool)
    requires IsRotation(s.rot) && BoxHasTriangle(a, t0) && BoxHasTriangle(b, t1)
    requires SharedPoint(In0(s, t1), t0)
    ensures BoxBoxOverlap(s.rot, s.trans, a, b, full)
  {
    SharedInSpace0(s, t0, t1);
    var q :| InTriangle(t1, q) && InTriangle(t0, TransformPoint(q, s.rot, s.trans));
    BoxHoldsTrianglePoints(a, t0, TransformPoint(q, s.rot, s.trans));
    BoxHoldsTrianglePoints(b, t1, q);
    ExtentsOfHolder(a, t0.v0);
    ExtentsOfHolder(b, t1.v0);
    hide IsRotation, TransformPoint, BoxBoxOverlap, InTriangle, BoxHas;
    BoxesSharingPointOverlap(s.rot, s.trans, a, b, full, TransformPoint(q, s.rot, s.trans), q);
  }

  lemma ExtentsOfHolder(b: CollisionAABB, p: Point)
    requires BoxHas(b, p)
    ensures NonNegative(b.mExtents)
  {}

  /** Fetched triangle against a box: no colliding pair is lost either. */
  lemma LeafKept(leaf: Triangle, b: CollisionAABB, t: Triangle, full: bool)
    requires BoxHasTriangle(b, t) && SharedPoint(leaf, t)
    ensures TriBoxPasses(leaf, b, full)
  {
    hide InTriangle, BoxHas, TriBoxPasses;
    var p :| InTriangle(leaf, p) && InTriangle(t, p);
    BoxHoldsTrianglePoints(b, t, p);
    SharedPointPasses(leaf, b, full, p);
  }

  // --------------------------------------------------------------------- searches

  /** mPairs stores the ids of each pair one after the other. */
  function Flatten(r: seq<Candidate>): seq<nat> {
    if r == [] then [] else [r[0].pair.0, r[0].pair.1] + Flatten(r[1..])
  }

  lemma {:induction false} FlattenJoin(r: seq<Candidate>, r': seq<Candidate>)
    ensures Flatten(r + r') == Flatten(r) + Flatten(r')
  {
    if r == [] {
      assert r + r' == r';
    } else {
      assert (r + r')[1..] == r[1..] + r' && (r + r')[0] == r[0];
      FlattenJoin(r[1..], r');
    }
  }

  /** The k-th pair, tree 0's primitive first. */
  lemma {:induction false} FlattenAt(r: seq<Candidate>, k: nat)
    requires k < |r|
    ensures |Flatten(r)| == 2 * |r| && Flatten(r)[2 * k] == r[k].pair.0 && Flatten(r)[2 * k + 1] == r[k].pair.1
    decreases |r|
  {
    var rest := r[1..];
    if k > 0 { FlattenAt(rest, k - 1); } else if rest != [] { FlattenAt(rest, 0); }
  }

  lemma FlattenOne(c: Candidate)
    ensures Flatten([c]) == [c.pair.0, c.pair.1]
  {
    assert [c][1..] == [];
  }

  datatype PairState = PairState(flags: Flags, mPairs: seq<nat>)

  /** A search over the candidates `cs` reported `r`. */
  ghost predicate Paired(must: set<Candidate>, may: set<Candidate>, s: PairState, cs: seq<Candidate>, r: seq<Candidate>, s': PairState) {
    && s' == PairState(if r == [] then s.flags else s.flags.Contact(), s.mPairs + Flatten(r))
    && Reports(must, may, s.flags.firstContact, cs, r)
  }

  lemma PairedJoin(must: set<Candidate>, may: set<Candidate>, s: PairState, cs: seq<Candidate>, r: seq<Candidate>, s': PairState,
                   ds: seq<Candidate>, r': seq<Candidate>, s'': PairState)
    requires !s.flags.ContactFound() && Paired(must, may, s, cs, r, s')
    requires if s'.flags.ContactFound() then r' == [] && s'' == s' else Paired(must, may, s', ds, r', s'')
    ensures Paired(must, may, s, cs + ds, r + r', s'')
  {
    ReportsJoin(must, may, s.flags.firstContact, cs, r, ds, r');
    FlattenJoin(r, r');
    assert s.mPairs + Flatten(r) + Flatten(r') == s.mPairs + (Flatten(r) + Flatten(r'));
    assert r + [] == r;
    hide Reports, Flatten;
  }

  lemma PairedNothing(must: set<Candidate>, may: set<Candidate>, s: PairState, cs: seq<Candidate>)
    requires forall c :: c in cs ==> c !in must
    ensures Paired(must, may, s, cs, [], s)
  {
    ReportNothing(must, may, s.flags.firstContact, cs);
    assert s.mPairs + [] == s.mPairs;
    hide Reports;
  }

  lemma PairedOne(must: set<Candidate>, may: set<Candidate>, s: PairState, c: Candidate, s': PairState)
    requires c in must ==> c in may
    requires s' == if c in may then PairState(s.flags.Contact(), s.mPairs + [c.pair.0, c.pair.1]) else s
    ensures Paired(must, may, s, [c], if c in may then [c] else [], s')
  {
    if c in may {
      ReportAll(must, may, s.flags.firstContact, [c]);
      FlattenOne(c);
      hide Reports, Flatten;
    } else {
      hide Reports;
      PairedNothing(must, may, s, [c]);
    }
  }

  /** FALSE from the box-box test: no pair of the two subtrees touches. */
  lemma PruneBoxes(s: Scene, t0: Tree, t1: Tree, frame: Frame, full: bool, c: Candidate)
    requires ValidScene(s) && Encloses(s.m0, t0) && Encloses(s.m1, t1) && Complete(t0) && Complete(t1)
    requires !BoxBoxOverlap(s.rot, s.trans, CollisionBox(t0.box), CollisionBox(t1.box), full)
    requires c in Framed(t0, t1, frame)
    ensures c !in Contacts(s)
  {
    hide BoxBoxOverlap, CollisionBox, BoxHasTriangle, SharedPoint, Hits, Contacts, Framed, In0, In1, Tri;
    FramedMembers(t0, t1, frame, c);
    if c in Contacts(s) {
      ContactTouches(s, c);
      BoxesKept(s, CollisionBox(t0.box), CollisionBox(t1.box), Tri(s.m0, c.pair.0), Tri(s.m1, c.pair.1), full);
    }
  }

  /** FALSE from the triangle-box test, for a leaf of tree 0 fetched into space 1. */
  lemma PruneLeaf0(s: Scene, t0: Tree, t1: Tree, full: bool, c: Candidate)
    requires ValidScene(s) && Encloses(s.m0, t0) && Encloses(s.m1, t1) && Complete(t0) && Complete(t1) && t0.Leaf?
    requires t0.prims[0] < |s.m0.faces| && !TriBoxPasses(In1(s, Tri(s.m0, t0.prims[0])), CollisionBox(t1.box), full)
    requires c in Framed(t0, t1, Leaf0InSpace1)
    ensures c !in Contacts(s)
  {
    hide TriBoxPasses, CollisionBox, BoxHasTriangle, SharedPoint, Hits, Contacts, Framed, In0, In1, Tri;
    FramedMembers(t0, t1, Leaf0InSpace1, c);
    assert c.pair.0 == t0.prims[0];
    if c in Contacts(s) {
      ContactTouches(s, c);
      LeafKept(In1(s, Tri(s.m0, c.pair.0)), CollisionBox(t1.box), Tri(s.m1, c.pair.1), full);
    }
  }

  lemma PruneLeaf1(s: Scene, t0: Tree, t1: Tree, full: bool, c: Candidate)
    requires ValidScene(s) && Encloses(s.m0, t0) && Encloses(s.m1, t1) && Complete(t0) && Complete(t1) && t1.Leaf?
    requires t1.prims[0] < |s.m1.faces| && !TriBoxPasses(In0(s, Tri(s.m1, t1.prims[0])), CollisionBox(t0.box), full)
    requires c in Framed(t0, t1, Leaf1InSpace0)
    ensures c !in Contacts(s)
  {
    hide TriBoxPasses, CollisionBox, BoxHasTriangle, SharedPoint, Hits, Contacts, Framed, In0, In1, Tri;
    FramedMembers(t0, t1, Leaf1InSpace0, c);
    assert c.pair.1 == t1.prims[0];
    if c in Contacts(s) {
      ContactTouches(s, c);
      LeafKept(In0(s, Tri(s.m1, c.pair.1)), CollisionBox(t0.box), Tri(s.m0, c.pair.0), full);
    }
  }

  lemma {:induction false} ChildIsComplete(nodes: seq<AABBNoLeafNode>, word: nat, t: Tree)
    requires EncodesChild(nodes, word, t)
    ensures Complete(t)
    decreases t
  {
    if t.Node? {
      ChildIsComplete(nodes, nodes[WordNode(word)].mData, t.pos);
      ChildIsComplete(nodes, nodes[WordNode(word)].mData2, t.neg);
    }
  }

  lemma NodeIsComplete(nodes: seq<AABBNoLeafNode>, id: nat, t: Tree)
    requires EncodesNoLeaf(nodes, id, t)
    ensures Complete(t) && Complete(t.pos) && Complete(t.neg)
  {
    hide EncodesChild;
    ChildIsComplete(nodes, nodes[id].mData, t.pos);
    ChildIsComplete(nodes, nodes[id].mData2, t.neg);
  }

  lemma LeafMember(m: Mesh, nodes: seq<AABBNoLeafNode>, word: nat, t: Tree)
    requires ValidMesh(m) && Encloses(m, t) && EncodesChild(nodes, word, t) && Tagged(word)
    ensures t.Leaf? && t.prims == [WordPrimitive(word)] && WordPrimitive(word) < |m.faces|
  {
    assert WordPrimitive(word) in Prims(t);
  }

  lemma {:induction false} EncodedIsComplete(nodes: seq<AABBCollisionNode>, id: nat, t: Tree)
    requires Encodes(nodes, id, t)
    ensures Complete(t)
    decreases t
  {
    if t.Node? {
      EncodedIsComplete(nodes, nodes[id].GetPos(), t.pos);
      EncodedIsComplete(nodes, nodes[id].GetNeg(), t.neg);
    }
  }

  lemma NodeMember(m: Mesh, nodes: seq<AABBCollisionNode>, id: nat, t: Tree)
    requires ValidMesh(m) && Encloses(m, t) && Encodes(nodes, id, t) && nodes[id].IsLeaf()
    ensures t.Leaf? && t.prims == [nodes[id].GetPrimitive()] && nodes[id].GetPrimitive() < |m.faces|
  {
    assert nodes[id].GetPrimitive() in Prims(t);
  }

  // --------------------------------------------------------------- whole answers

  lemma PairedAnswers(must: set<Candidate>, may: set<Candidate>, s: PairState, cs: seq<Candidate>, r: seq<Candidate>, s': PairState)
    requires Paired(must, may, s, cs, r, s') && s.mPairs == [] && !s.flags.contact
    ensures Reports(must, may, s.flags.firstContact, cs, r) && s'.mPairs == Flatten(r)
    ensures s'.flags == s.flags.(contact := r != [])
  {
    assert [] + Flatten(r) == Flatten(r);
    hide Reports, Flatten;
  }

  /** The test that settles a first-contact query from the cache, in space 0. */
  ghost predicate CachedHit(s: Scene, flags: Flags, cache: Option<PairId>)
    requires ValidScene(s)
  {
    flags.temporalCoherence && flags.firstContact && cache.Some? && Candidate(cache.value, BothInSpace0) in Hits(s)
  }

  /** The box-box test, with all axes, keeps the search from starting. */
  predicate RootsApart(s: Scene, t0: Tree, t1: Tree) {
    !BoxBoxOverlap(s.rot, s.trans, CollisionBox(t0.box), CollisionBox(t1.box), true)
  }

  /** The answer of a whole query: the cached pair, or, of all pairs, each in its own frame, at
      least the accepted ones that share a point and at most the accepted ones. */
  ghost predicate IsTreeAnswer(s: Scene, flags: Flags, cache: Option<PairId>, t0: Tree, t1: Tree, frame: Frame, r: seq<Candidate>) {
    && ValidScene(s) && Complete(t0) && Complete(t1)
    && if CachedHit(s, flags, cache) then r == [Candidate(cache.value, BothInSpace0)]
       else Reports(Contacts(s), Hits(s), flags.firstContact, Framed(t0, t1, frame), r) && (RootsApart(s, t0, t1) ==> r == [])
  }

  /** Where the cached pair is consulted, it names faces of the two meshes. */
  predicate PairUsable(s: Scene, flags: Flags, cache: Option<PairId>) {
    flags.temporalCoherence && flags.firstContact && cache.Some? ==> cache.value.0 < |s.m0.faces| && cache.value.1 < |s.m1.faces|
  }

  /** The cached pair after a query: the first one found, if the caller keeps a cache. */
  function NewCache(cache: Option<PairId>, r: seq<Candidate>): Option<PairId> {
    if cache.Some? && r != [] then Some(r[0].pair) else cache
  }

  /** A triangle test only accepts triangles that share a point. */
  ghost predicate SoundTest(triTri: (Triangle, Triangle) -> bool) {
    forall t, u :: triTri(t, u) ==> SharedPoint(t, u)
  }

  lemma SoundContacts(s: Scene)
    requires ValidScene(s) && SoundTest(s.triTri)
    ensures Contacts(s) == Hits(s)
  {
    hide ValidMesh, IsRotation, InTriangle, Tri, SharedPoint;
    forall c | c in Hits(s) ensures c in Contacts(s) {
      HitsAt(s, c);
      ContactIsHit(s, c);
      var t0, t1 := Tri(s.m0, c.pair.0), Tri(s.m1, c.pair.1);
      SharedEitherWay(s, t0, t1);
      SharedSymmetric(t0, In0(s, t1));
    }
    hide Hits;
    forall c | c in Contacts(s) ensures c in Hits(s) { ContactIsHit(s, c); }
  }

  /** With a test that only accepts triangles sharing a point, the answer is brute force. */
  lemma SoundAnswer(s: Scene, flags: Flags, cache: Option<PairId>, t0: Tree, t1: Tree, frame: Frame, r: seq<Candidate>)
    requires IsTreeAnswer(s, flags, cache, t0, t1, frame, r) && SoundTest(s.triTri)
    ensures r == if CachedHit(s, flags, cache) then [Candidate(cache.value, BothInSpace0)] else UpToFirst(flags.firstContact, Filter(Hits(s), Framed(t0, t1, frame)))
  {
    hide ValidMesh, IsRotation, SoundTest, Hits, Contacts, Framed, RootsApart, Reports, Filter;
    SoundContacts(s);
    if !CachedHit(s, flags, cache) { ExactReport(Hits(s), flags.firstContact, Framed(t0, t1, frame), r); }
  }

  lemma {:induction false} NoneUndecided(t0: Tree, t1: Tree, frame: Frame, c: Candidate)
    requires Complete(t0) && Complete(t1) && c in Framed(t0, t1, frame)
    ensures c.frame != Undecided
  {
    if frame == Undecided {
      var d0, d1 := FrameByDepth(t0, t1, c);
    } else {
      var d0, d1 := DecidedFrame(t0, t1, frame, c);
    }
  }

  lemma FirstPair(cs: seq<Candidate>, pair: PairId)
    requires cs != []
    ensures Occurrences(PairsOf(cs), pair) == Occurrences(PairsOf(cs[1..]), pair) + if cs[0].pair == pair then 1 else 0
  {}

  /** How often an all-contacts report names a pair. */
  lemma {:induction false} ReportedPair(must: set<Candidate>, may: set<Candidate>, cs: seq<Candidate>, r: seq<Candidate>, pair: PairId)
    requires Reports(must, may, false, cs, r)
    ensures Occurrences(PairsOf(r), pair) <= Occurrences(PairsOf(cs), pair)
    ensures (forall c :: c in cs && c.pair == pair ==> c in must) ==> Occurrences(PairsOf(r), pair) == Occurrences(PairsOf(cs), pair)
    ensures (forall c :: c in cs && c.pair == pair ==> c !in may) ==> Occurrences(PairsOf(r), pair) == 0
  {
    if cs != [] {
      FirstPair(cs, pair);
      assert cs[0] in cs && forall c :: c in cs[1..] ==> c in cs;
      if cs[0] in may && r != [] && r[0] == cs[0] && Reports(must, may, false, cs[1..], r[1..]) {
        FirstPair(r, pair);
        hide Occurrences, PairsOf;
        ReportedPair(must, may, cs[1..], r[1..], pair);
      } else {
        hide Occurrences, PairsOf;
        ReportedPair(must, may, cs[1..], r, pair);
      }
    }
  }

  predicate PassesAlways(s: Scene, t0: Triangle, t1: Triangle) {
    TestTriIndex(s, t0, t1) && TestIndexTri(s, t0, t1) && TestPrims(s, t0, t1)
  }

  predicate PassesNever(s: Scene, t0: Triangle, t1: Triangle) {
    !TestTriIndex(s, t0, t1) && !TestIndexTri(s, t0, t1) && !TestPrims(s, t0, t1)
  }

  /** All-contacts mode, any test: a pair accepted in every frame that shares a point is listed,
      in the order (tree 0, tree 1) and as often as the trees hold its primitives, which is once
      in built trees; no pair more often, and one accepted in no frame never. */
  lemma EveryPairOnce(s: Scene, flags: Flags, cache: Option<PairId>, t0: Tree, t1: Tree, frame: Frame, r: seq<Candidate>, i: nat, j: nat)
    requires IsTreeAnswer(s, flags, cache, t0, t1, frame, r) && !flags.firstContact && i < |s.m0.faces| && j < |s.m1.faces|
    ensures Occurrences(PairsOf(r), (i, j)) <= Times(Occurrences(Prims(t0), i), Occurrences(Prims(t1), j))
    ensures PassesAlways(s, Tri(s.m0, i), Tri(s.m1, j)) && Touching(s, (i, j)) ==>
      Occurrences(PairsOf(r), (i, j)) == Times(Occurrences(Prims(t0), i), Occurrences(Prims(t1), j))
    ensures PassesNever(s, Tri(s.m0, i), Tri(s.m1, j)) ==> Occurrences(PairsOf(r), (i, j)) == 0
  {
    hide ValidMesh, IsRotation, Hits, Contacts, Framed, Prims, Times, PairsOf, Filter, Occurrences, Candidates, Reports, RootsApart, TestTriIndex, TestIndexTri, TestPrims, Touching, Tri;
    var cs := Framed(t0, t1, frame);
    forall c | c in cs && c.pair == (i, j)
      ensures PassesAlways(s, Tri(s.m0, i), Tri(s.m1, j)) && Touching(s, (i, j)) ==> c in Contacts(s)
      ensures PassesNever(s, Tri(s.m0, i), Tri(s.m1, j)) ==> c !in Hits(s)
    {
      NoneUndecided(t0, t1, frame, c);
      HitsAt(s, c);
      ContactIsHit(s, c);
    }
    ReportedPair(Contacts(s), Hits(s), cs, r, (i, j));
    FramedPairs(t0, t1, frame);
    CandidatesComplete(t0, t1, frame == BothInSpace0, i, j);
  }

  // -------------------------------------------------------- the source's own test

  ghost predicate UsesTriTriOverlap(s: Scene) {
    forall t, u :: s.triTri(t, u) <==> TriTriOverlap(t, u)
  }

  lemma MovedNormal(w: Motion, t: Triangle, p: Point)
    requires IsMotion(w)
    ensures PlaneNormal(Move(w, t)) == Rotate(PlaneNormal(t), w.rot) && PlaneValue(Move(w, t), Apply(w, p)) == PlaneValue(t, p)
  {
    hide IsRotation, Dot, Cross, Rotate, Sub;
    DifferenceMoves(w, t.v1, t.v0);
    DifferenceMoves(w, t.v2, t.v0);
    DifferenceMoves(w, p, t.v0);
    MovedVertices(w, t);
    RotatePreservesCross(Sub(t.v1, t.v0), Sub(t.v2, t.v0), w.rot);
    RotatePreservesDot(PlaneNormal(t), Sub(p, t.v0), w.rot);
    PlaneGap(t, p, p);
    PlaneGap(Move(w, t), Apply(w, p), Apply(w, p));
    hide PlaneValue, Move, Apply;
  }

  lemma OriginDot()
    ensures Dot(ORIGIN, ORIGIN) == 0.0
  {}

  lemma RotatedZero(n: Point, m: Matrix3x3)
    requires IsRotation(m)
    ensures Rotate(n, m) == ORIGIN <==> n == ORIGIN
  {
    hide IsRotation, Rotate, Dot;
    RotatePreservesDot(n, n, m);
    DotSelf(n);
    DotSelf(Rotate(n, m));
    OriginDot();
  }

  /** What makes the test exact does not depend on the space the triangles are given in. */
  lemma ReliableMoves(w: Motion, t: Triangle, u: Triangle)
    requires IsMotion(w)
    ensures Reliable(Move(w, t), Move(w, u)) <==> Reliable(t, u)
  {
    hide IsRotation, PlaneValue, PlaneNormal, Rotate, Apply, OnOrFar;
    MovedVertices(w, t);
    MovedVertices(w, u);
    hide Move;
    MovedNormal(w, t, u.v0);
    MovedNormal(w, t, u.v1);
    MovedNormal(w, t, u.v2);
    MovedNormal(w, u, t.v0);
    MovedNormal(w, u, t.v1);
    MovedNormal(w, u, t.v2);
    RotatedZero(PlaneNormal(t), w.rot);
    RotatedZero(PlaneNormal(u), w.rot);
  }

  lemma ReliableSymmetric(t: Triangle, u: Triangle)
    ensures Reliable(t, u) <==> Reliable(u, t)
  {
    hide PlaneValue, PlaneNormal, OnOrFar;
  }

  lemma MovedThereAndBack(w: Motion, t: Triangle)
    requires IsMotion(w)
    ensures Move(w, Move(Invert(w), t)) == t
  {
    hide IsMotion, Apply, Invert;
    InvertUndoes(w, t.v0);
    InvertUndoes(w, t.v1);
    InvertUndoes(w, t.v2);
    MovedVertices(Invert(w), t);
    MovedVertices(w, Move(Invert(w), t));
    hide Move;
  }

  lemma MovedTwice(a: Motion, b: Motion, t: Triangle)
    ensures Move(Compose(a, b), t) == Move(b, Move(a, t))
  {
    hide Apply, Compose;
    ComposeActs(a, b, t.v0);
    ComposeActs(a, b, t.v1);
    ComposeActs(a, b, t.v2);
    MovedVertices(a, t);
    MovedVertices(b, Move(a, t));
    MovedVertices(Compose(a, b), t);
    hide Move;
  }

  lemma In0Moves(s: Scene, t: Triangle)
    ensures In0(s, t) == Move(Motion(s.rot, s.trans), t)
  {}

  /** On a reliable pair the three calls agree with each other and with the geometry. */
  lemma ReliableVerdicts(s: Scene, t0: Triangle, t1: Triangle)
    requires IsRotation(s.rot) && s.back == Invert(Motion(s.rot, s.trans)) && UsesTriTriOverlap(s) && Reliable(t0, In0(s, t1))
    ensures if SharedPoint(In0(s, t1), t0) then PassesAlways(s, t0, t1) else PassesNever(s, t0, t1)
  {
    hide InTriangle, IsRotation, In0, Move, Invert, Reliable, TriTriOverlap, SharedPoint;
    var w := Motion(s.rot, s.trans);
    In0Moves(s, t1);
    MovedThereAndBack(w, t0);
    ReliableMoves(w, In1(s, t0), t1);
    ReliableSymmetric(t0, In0(s, t1));
    SharedSymmetric(t0, In0(s, t1));
    SharedEitherWay(s, t0, t1);
    TriTriOverlapIff(t0, In0(s, t1));
    TriTriOverlapIff(In0(s, t1), t0);
    TriTriOverlapIff(In1(s, t0), t1);
    hide In1, IsMotion;
  }

  lemma ReliableInWorld(s: Scene, world0: Option<Motion>, world1: Option<Motion>, t0: Triangle, t1: Triangle)
    requires ValidWorld(world0) && ValidWorld(world1)
    ensures Reliable(t0, In0(PlacedScene(s, world0, world1), t1)) <==> Reliable(Placed(world0, t0), Placed(world1, t1))
  {
    hide IsRotation, Compose, Invert, OrIdentity, In0, Move, Reliable;
    OrIdentityValid(world0);
    OrIdentityValid(world1);
    PlacedByMatrix(world0, t0);
    PlacedByMatrix(world1, t1);
    var w0, w1 := OrIdentity(world0), OrIdentity(world1);
    var relative := Compose(w1, Invert(w0));
    In0Moves(PlacedScene(s, world0, world1), t1);
    MovedTwice(w1, Invert(w0), t1);
    MovedThereAndBack(w0, Move(w1, t1));
    ReliableMoves(w0, t0, Move(relative, t1));
  }

  /** The point of the whole query, pair by pair: in all-contacts mode two faces that, placed in
      the world, are fit for the triangle test are listed, as often as the trees hold them, if
      they share a point in the world, and not at all otherwise. */
  lemma TouchingPairsListed(s: Scene, world0: Option<Motion>, world1: Option<Motion>, flags: Flags, cache: Option<PairId>,
                            t0: Tree, t1: Tree, frame: Frame, r: seq<Candidate>, i: nat, j: nat)
    requires ValidWorld(world0) && ValidWorld(world1) && UsesTriTriOverlap(s) && !flags.firstContact
    requires IsTreeAnswer(PlacedScene(s, world0, world1), flags, cache, t0, t1, frame, r) && i < |s.m0.faces| && j < |s.m1.faces|
    requires ValidMesh(s.m0) && ValidMesh(s.m1) && Reliable(Placed(world0, Tri(s.m0, i)), Placed(world1, Tri(s.m1, j)))
    ensures Occurrences(PairsOf(r), (i, j)) ==
      if SharedPoint(Placed(world1, Tri(s.m1, j)), Placed(world0, Tri(s.m0, i))) then Times(Occurrences(Prims(t0), i), Occurrences(Prims(t1), j)) else 0
  {
    hide ValidMesh, IsRotation, OrIdentity, Compose, Invert, Reports, Hits, Contacts, Framed, Prims, Times, PairsOf, Occurrences, RootsApart, Reliable, SharedPoint,
      Placed, In0, PassesAlways, PassesNever, TriTriOverlap, Tri;
    var placed := PlacedScene(s, world0, world1);
    var u0, u1 := Tri(s.m0, i), Tri(s.m1, j);
    TouchingInWorld(s, world0, world1, placed, i, j);
    ReliableInWorld(s, world0, world1, u0, u1);
    assert SharedPoint(In0(placed, u1), u0) <==> Touching(placed, (i, j));
    ReliableVerdicts(placed, u0, u1);
    EveryPairOnce(placed, flags, cache, t0, t1, frame, r, i, j);
  }

  class AABBTreeCollider {
    var scene: Scene
    const mFullBoxBoxTest: bool
    const mFullPrimBoxTest: bool
    var mFlags: Flags
    var mPairs: seq<nat>
    var mNbBVBVTests: nat
    var mLeafVerts: Triangle
    var mLeafIndex: nat

    constructor (scene: Scene, fullBoxBox: bool, fullPrimBox: bool, flags: Flags)
      ensures this.scene == scene && mFlags == flags && mPairs == [] && mFullBoxBoxTest == fullBoxBox && mFullPrimBoxTest == fullPrimBox
    {
      this.scene, mFullBoxBoxTest, mFullPrimBoxTest, mFlags, mPairs := scene, fullBoxBox, fullPrimBox, flags, [];
      mNbBVBVTests, mLeafVerts, mLeafIndex := 0, Triangle(ORIGIN, ORIGIN, ORIGIN), 0;
    }

    ghost function Now(): PairState
      reads `mFlags, `mPairs
    {
      PairState(mFlags, mPairs)
    }

    /** The scratch triangle is the leaf `t0` of tree 0, in space 1. */
    ghost predicate Fetched0(t0: Tree)
      reads `scene, `mLeafVerts, `mLeafIndex
    {
      && ValidScene(scene) && t0.Leaf? && t0.prims == [mLeafIndex] && mLeafIndex < |scene.m0.faces|
      && mLeafVerts == In1(scene, Tri(scene.m0, mLeafIndex))
    }

    /** The scratch triangle is the leaf `t1` of tree 1, in space 0. */
    ghost predicate Fetched1(t1: Tree)
      reads `scene, `mLeafVerts, `mLeafIndex
    {
      && ValidScene(scene) && t1.Leaf? && t1.prims == [mLeafIndex] && mLeafIndex < |scene.m1.faces|
      && mLeafVerts == In0(scene, Tri(scene.m1, mLeafIndex))
    }

    /** FETCH_LEAF with object 0's triangles and mR0to1, mT0to1. */
    method FetchLeaf0(prim: nat, ghost t0: Tree)
      requires ValidScene(scene) && prim < |scene.m0.faces| && t0.Leaf? && t0.prims == [prim]
      modifies `mLeafVerts, `mLeafIndex
      ensures Fetched0(t0)
    {
      hide ValidMesh, TransformTriangle, Tri;
      mLeafIndex := prim;
      mLeafVerts := In1(scene, Tri(scene.m0, prim));
    }

    /** FETCH_LEAF with object 1's triangles and mR1to0, mT1to0. */
    method FetchLeaf1(prim: nat, ghost t1: Tree)
      requires ValidScene(scene) && prim < |scene.m1.faces| && t1.Leaf? && t1.prims == [prim]
      modifies `mLeafVerts, `mLeafIndex
      ensures Fetched1(t1)
    {
      hide ValidMesh, TransformTriangle, Tri;
      mLeafIndex := prim;
      mLeafVerts := In0(scene, Tri(scene.m1, prim));
    }

    method PrimTestTriIndex(id1: nat, ghost t0: Tree, ghost t1: Tree) returns (ghost r: seq<Candidate>)
      requires Fetched0(t0) && id1 < |scene.m1.faces| && t1.Leaf? && t1.prims == [id1]
      modifies `mFlags, `mPairs
      ensures Paired(Contacts(scene), Hits(scene), old(Now()), Framed(t0, t1, Leaf0InSpace1), r, Now())
      ensures r == if TestTriIndex(scene, Tri(scene.m0, mLeafIndex), Tri(scene.m1, id1)) then Framed(t0, t1, Leaf0InSpace1) else []
    {
      hide ValidMesh, TransformTriangle, Tri, Paired, IsRotation, Hits, Contacts, In1;
      ghost var s := Now();
      ghost var c := Candidate((mLeafIndex, id1), Leaf0InSpace1);
      HitsAt(scene, c);
      ContactIsHit(scene, c);
      var hit := scene.triTri(mLeafVerts, Tri(scene.m1, id1));
      if hit {
        mPairs := mPairs + [mLeafIndex, id1];
        mFlags := mFlags.Contact();
      }
      assert Framed(t0, t1, Leaf0InSpace1) == [c];
      PairedOne(Contacts(scene), Hits(scene), s, c, Now());
      return if hit then [c] else [];
    }

    method PrimTestIndexTri(id0: nat, ghost t0: Tree, ghost t1: Tree) returns (ghost r: seq<Candidate>)
      requires Fetched1(t1) && id0 < |scene.m0.faces| && t0.Leaf? && t0.prims == [id0]
      modifies `mFlags, `mPairs
      ensures Paired(Contacts(scene), Hits(scene), old(Now()), Framed(t0, t1, Leaf1InSpace0), r, Now())
      ensures r == if TestIndexTri(scene, Tri(scene.m0, id0), Tri(scene.m1, mLeafIndex)) then Framed(t0, t1, Leaf1InSpace0) else []
    {
      hide ValidMesh, TransformTriangle, Tri, Paired, IsRotation, Hits, Contacts, In0;
      ghost var s := Now();
      ghost var c := Candidate((id0, mLeafIndex), Leaf1InSpace0);
      HitsAt(scene, c);
      ContactIsHit(scene, c);
      var hit := scene.triTri(mLeafVerts, Tri(scene.m0, id0));
      if hit {
        mPairs := mPairs + [id0, mLeafIndex];
        mFlags := mFlags.Contact();
      }
      assert Framed(t0, t1, Leaf1InSpace0) == [c];
      PairedOne(Contacts(scene), Hits(scene), s, c, Now());
      return if hit then [c] else [];
    }

    /** A fetched leaf of tree 0 against a branch of tree 1. */
    method CollideTriBox(nodes1: seq<AABBNoLeafNode>, id1: nat, ghost t0: Tree, ghost t1: Tree) returns (ghost r: seq<Candidate>)
      requires Fetched0(t0) && EncodesNoLeaf(nodes1, id1, t1) && Encloses(scene.m0, t0) && Encloses(scene.m1, t1) && !mFlags.ContactFound()
      modifies `mFlags, `mPairs
      ensures Complete(t1) && Paired(Contacts(scene), Hits(scene), old(Now()), Framed(t0, t1, Leaf0InSpace1), r, Now())
      decreases t1, 1
    {
      NodeIsComplete(nodes1, id1, t1);
      hide ValidMesh, TransformTriangle, Tri, Paired, IsRotation, TriBoxPasses, CollisionBox, EncodesChild, Hits, Contacts,
        BoxHasTriangle, In1;
      ghost var s := Now();
      var overlap := TriBoxOverlap(mLeafVerts, nodes1[id1].mAABB, mFullPrimBoxTest);
      if !overlap {
        forall c | c in Framed(t0, t1, Leaf0InSpace1) ensures c !in Contacts(scene) {
          PruneLeaf0(scene, t0, t1, mFullPrimBoxTest, c);
        }
        PairedNothing(Contacts(scene), Hits(scene), s, Framed(t0, t1, Leaf0InSpace1));
        return [];
      }
      r := TriAgainst(nodes1, id1, t0, t1);
    }

    /** The same triangle against both children of a branch of tree 1. */
    method TriAgainst(nodes1: seq<AABBNoLeafNode>, id1: nat, ghost t0: Tree, ghost t1: Tree) returns (ghost r: seq<Candidate>)
      requires Fetched0(t0) && EncodesNoLeaf(nodes1, id1, t1) && Encloses(scene.m0, t0) && Encloses(scene.m1, t1) && !mFlags.ContactFound()
      requires Complete(t1)
      modifies `mFlags, `mPairs
      ensures Paired(Contacts(scene), Hits(scene), old(Now()), Framed(t0, t1, Leaf0InSpace1), r, Now())
      decreases t1, 0
    {
      NodeIsComplete(nodes1, id1, t1);
      hide ValidMesh, Paired, IsRotation, CollisionBox, EncodesChild, Hits, Contacts, BoxHasTriangle, Framed;
      AgainstChildren(t0, t1);
      ghost var s := Now();
      r := TriChild(nodes1, nodes1[id1].mData, t0, t1.pos);
      ghost var half, r' := Now(), [];
      if !mFlags.ContactFound() {
        r' := TriChild(nodes1, nodes1[id1].mData2, t0, t1.neg);
      }
      PairedJoin(Contacts(scene), Hits(scene), s, Framed(t0, t1.pos, Leaf0InSpace1), r, half, Framed(t0, t1.neg, Leaf0InSpace1), r', Now());
      r := r + r';
    }

    method TriChild(nodes1: seq<AABBNoLeafNode>, word: nat, ghost t0: Tree, ghost t1: Tree) returns (ghost r: seq<Candidate>)
      requires Fetched0(t0) && EncodesChild(nodes1, word, t1) && Encloses(scene.m0, t0) && Encloses(scene.m1, t1) && !mFlags.ContactFound()
      requires Complete(t1)
      modifies `mFlags, `mPairs
      ensures Paired(Contacts(scene), Hits(scene), old(Now()), Framed(t0, t1, Leaf0InSpace1), r, Now())
      decreases t1, 2
    {
      hide Paired, Hits, Contacts, BoxHasTriangle, Framed, ValidMesh;
      if Tagged(word) {
        LeafMember(scene.m1, nodes1, word, t1);
        r := PrimTestTriIndex(WordPrimitive(word), t0, t1);
      } else {
        r := CollideTriBox(nodes1, WordNode(word), t0, t1);
      }
    }

    /** A fetched leaf of tree 1 against a branch of tree 0. */
    method CollideBoxTri(nodes0: seq<AABBNoLeafNode>, id0: nat, ghost t0: Tree, ghost t1: Tree) returns (ghost r: seq<Candidate>)
      requires Fetched1(t1) && EncodesNoLeaf(nodes0, id0, t0) && Encloses(scene.m0, t0) && Encloses(scene.m1, t1) && !mFlags.ContactFound()
      modifies `mFlags, `mPairs
      ensures Complete(t0) && Paired(Contacts(scene), Hits(scene), old(Now()), Framed(t0, t1, Leaf1InSpace0), r, Now())
      decreases t0, 0
    {
      NodeIsComplete(nodes0, id0, t0);
      hide ValidMesh, TransformTriangle, Tri, Paired, IsRotation, TriBoxPasses, CollisionBox, EncodesChild, Hits, Contacts,
        BoxHasTriangle, In0;
      ghost var s := Now();
      var overlap := TriBoxOverlap(mLeafVerts, nodes0[id0].mAABB, mFullPrimBoxTest);
      if !overlap {
        forall c | c in Framed(t0, t1, Leaf1InSpace0) ensures c !in Contacts(scene) {
          PruneLeaf1(scene, t0, t1, mFullPrimBoxTest, c);
        }
        PairedNothing(Contacts(scene), Hits(scene), s, Framed(t0, t1, Leaf1InSpace0));
        return [];
      }
      assert Framed(t0, t1, Leaf1InSpace0) == Framed(t0.pos, t1, Leaf1InSpace0) + Framed(t0.neg, t1, Leaf1InSpace0);
      hide Framed;
      r := BoxTriChild(nodes0, nodes0[id0].mData, t0.pos, t1);
      ghost var half, r' := Now(), [];
      if !mFlags.ContactFound() {
        r' := BoxTriChild(nodes0, nodes0[id0].mData2, t0.neg, t1);
      }
      PairedJoin(Contacts(scene), Hits(scene), s, Framed(t0.pos, t1, Leaf1InSpace0), r, half, Framed(t0.neg, t1, Leaf1InSpace0), r', Now());
      r := r + r';
    }

    method BoxTriChild(nodes0: seq<AABBNoLeafNode>, word: nat, ghost t0: Tree, ghost t1: Tree) returns (ghost r: seq<Candidate>)
      requires Fetched1(t1) && EncodesChild(nodes0, word, t0) && Encloses(scene.m0, t0) && Encloses(scene.m1, t1) && !mFlags.ContactFound()
      requires Complete(t0)
      modifies `mFlags, `mPairs
      ensures Paired(Contacts(scene), Hits(scene), old(Now()), Framed(t0, t1, Leaf1InSpace0), r, Now())
      decreases t0, 1
    {
      hide Paired, Hits, Contacts, BoxHasTriangle, Framed, ValidMesh;
      if Tagged(word) {
        LeafMember(scene.m0, nodes0, word, t0);
        r := PrimTestIndexTri(WordPrimitive(word), t0, t1);
      } else {
        r := CollideBoxTri(nodes0, WordNode(word), t0, t1);
      }
    }

    method BVTest(a: CollisionAABB, b: CollisionAABB) returns (overlap: bool)
      modifies `mNbBVBVTests
      ensures mNbBVBVTests == old(mNbBVBVTests) + 1
      ensures overlap <==> BoxBoxOverlap(scene.rot, scene.trans, a, b, mFullBoxBoxTest || mNbBVBVTests == 1)
    {
      mNbBVBVTests := mNbBVBVTests + 1;
      overlap := BoxBoxOverlap(scene.rot, scene.trans, a, b, mFullBoxBoxTest || mNbBVBVTests == 1);
    }

    /** Two branches of no-leaf trees: of the pairs below them that are accepted in their frames,
        all that share a point, although the scratch triangle is overwritten between the
        sub-searches. */
    method CollideNoLeaf(nodes0: seq<AABBNoLeafNode>, id0: nat, nodes1: seq<AABBNoLeafNode>, id1: nat, ghost t0: Tree, ghost t1: Tree)
      returns (ghost r: seq<Candidate>)
      requires ValidScene(scene) && EncodesNoLeaf(nodes0, id0, t0) && EncodesNoLeaf(nodes1, id1, t1)
      requires Encloses(scene.m0, t0) && Encloses(scene.m1, t1) && !mFlags.ContactFound()
      modifies `mFlags, `mPairs, `mNbBVBVTests, `mLeafVerts, `mLeafIndex
      ensures Complete(t0) && Complete(t1)
      ensures Paired(Contacts(scene), Hits(scene), old(Now()), Framed(t0, t1, Undecided), r, Now())
      ensures !BoxBoxOverlap(scene.rot, scene.trans, CollisionBox(t0.box), CollisionBox(t1.box), mFullBoxBoxTest || old(mNbBVBVTests) == 0) ==> r == []
      decreases Count(t0) + Count(t1), 0
    {
      NodeIsComplete(nodes0, id0, t0);
      NodeIsComplete(nodes1, id1, t1);
      hide ValidScene, Paired, Hits, Contacts, BoxHasTriangle, CollisionBox, BoxBoxOverlap, EncodesChild;
      ghost var s := Now();
      var overlap := BVTest(nodes0[id0].mAABB, nodes1[id1].mAABB);
      if !overlap {
        forall c | c in Framed(t0, t1, Undecided) ensures c !in Contacts(scene) {
          PruneBoxes(scene, t0, t1, Undecided, mFullBoxBoxTest || mNbBVBVTests == 1, c);
        }
        PairedNothing(Contacts(scene), Hits(scene), s, Framed(t0, t1, Undecided));
        return [];
      }
      assert Framed(t0, t1, Undecided) == FramedAgainst(t0.pos, t1, Undecided) + FramedAgainst(t0.neg, t1, Undecided);
      hide Framed, FramedAgainst;
      r := ChildAgainst(nodes0, nodes0[id0].mData, nodes1, id1, t0.pos, t1);
      ghost var half, r' := Now(), [];
      if !mFlags.ContactFound() {
        r' := ChildAgainst(nodes0, nodes0[id0].mData2, nodes1, id1, t0.neg, t1);
      }
      PairedJoin(Contacts(scene), Hits(scene), s, FramedAgainst(t0.pos, t1, Undecided), r, half, FramedAgainst(t0.neg, t1, Undecided), r', Now());
      r := r + r';
    }

    /** One child of tree 0's node against both children of tree 1's. */
    method ChildAgainst(nodes0: seq<AABBNoLeafNode>, word0: nat, nodes1: seq<AABBNoLeafNode>, id1: nat, ghost t0: Tree, ghost t1: Tree)
      returns (ghost r: seq<Candidate>)
      requires ValidScene(scene) && EncodesChild(nodes0, word0, t0) && EncodesNoLeaf(nodes1, id1, t1)
      requires Encloses(scene.m0, t0) && Encloses(scene.m1, t1) && !mFlags.ContactFound() && Complete(t0) && Complete(t1)
      modifies `mFlags, `mPairs, `mNbBVBVTests, `mLeafVerts, `mLeafIndex
      ensures Paired(Contacts(scene), Hits(scene), old(Now()), FramedAgainst(t0, t1, Undecided), r, Now())
      decreases Count(t0) + Count(t1), 2
    {
      NodeIsComplete(nodes1, id1, t1);
      AgainstChildren(t0, t1);
      hide Paired, Hits, Contacts, BoxHasTriangle, Framed, FramedAgainst, ValidMesh, IsRotation, CollisionBox;
      ghost var s := Now();
      if Tagged(word0) {
        LeafMember(scene.m0, nodes0, word0, t0);
        FetchLeaf0(WordPrimitive(word0), t0);
        r := TriAgainst(nodes1, id1, t0, t1);
      } else {
        r := NodeAgainstChild(nodes0, WordNode(word0), nodes1, nodes1[id1].mData, t0, t1.pos);
        ghost var half, r' := Now(), [];
        if !mFlags.ContactFound() {
          r' := NodeAgainstChild(nodes0, WordNode(word0), nodes1, nodes1[id1].mData2, t0, t1.neg);
        }
        PairedJoin(Contacts(scene), Hits(scene), s, Framed(t0, t1.pos, Undecided), r, half, Framed(t0, t1.neg, Undecided), r', Now());
        r := r + r';
      }
    }

    method NodeAgainstChild(nodes0: seq<AABBNoLeafNode>, id0: nat, nodes1: seq<AABBNoLeafNode>, word1: nat, ghost t0: Tree, ghost t1: Tree)
      returns (ghost r: seq<Candidate>)
      requires ValidScene(scene) && EncodesNoLeaf(nodes0, id0, t0) && EncodesChild(nodes1, word1, t1)
      requires Encloses(scene.m0, t0) && Encloses(scene.m1, t1) && !mFlags.ContactFound() && Complete(t0) && Complete(t1)
      modifies `mFlags, `mPairs, `mNbBVBVTests, `mLeafVerts, `mLeafIndex
      ensures Paired(Contacts(scene), Hits(scene), old(Now()), Framed(t0, t1, Undecided), r, Now())
      decreases Count(t0) + Count(t1), 1
    {
      hide Paired, Hits, Contacts, BoxHasTriangle, Framed, ValidMesh, IsRotation;
      if Tagged(word1) {
        LeafMember(scene.m1, nodes1, word1, t1);
        SameFramed(t0, t1, Undecided);
        FetchLeaf1(WordPrimitive(word1), t1);
        r := CollideBoxTri(nodes0, id0, t0, t1);
      } else {
        r := CollideNoLeaf(nodes0, id0, nodes1, WordNode(word1), t0, t1);
      }
    }

    // ----------------------------------------------------------- trees with leaf nodes

    method PrimTest(id0: nat, id1: nat) returns (hit: bool)
      requires ValidScene(scene) && id0 < |scene.m0.faces| && id1 < |scene.m1.faces|
      modifies `mFlags, `mPairs
      ensures hit <==> TestPrims(scene, Tri(scene.m0, id0), Tri(scene.m1, id1))
      ensures Now() == if hit then PairState(old(mFlags).Contact(), old(mPairs) + [id0, id1]) else old(Now())
    {
      hide ValidMesh, TransformTriangle, Tri, IsRotation;
      hit := scene.triTri(Tri(scene.m0, id0), In0(scene, Tri(scene.m1, id1)));
      if hit {
        mPairs := mPairs + [id0, id1];
        mFlags := mFlags.Contact();
      }
    }

    /** _Collide on implicit trees: of the accepted pairs all that share a point, negative children
        first. */
    method CollideNodes(nodes0: seq<AABBCollisionNode>, id0: nat, nodes1: seq<AABBCollisionNode>, id1: nat, ghost t0: Tree, ghost t1: Tree)
      returns (ghost r: seq<Candidate>)
      requires ValidScene(scene) && Encodes(nodes0, id0, t0) && Encodes(nodes1, id1, t1)
      requires Encloses(scene.m0, t0) && Encloses(scene.m1, t1) && !mFlags.ContactFound() && Complete(t0) && Complete(t1)
      modifies `mFlags, `mPairs, `mNbBVBVTests
      ensures Paired(Contacts(scene), Hits(scene), old(Now()), Framed(t0, t1, BothInSpace0), r, Now())
      ensures !BoxBoxOverlap(scene.rot, scene.trans, CollisionBox(t0.box), CollisionBox(t1.box), mFullBoxBoxTest || old(mNbBVBVTests) == 0) ==> r == []
      decreases Count(t0) + Count(t1)
    {
      hide ValidScene, Paired, Hits, Contacts, BoxHasTriangle, CollisionBox, BoxBoxOverlap, Tagged, WordNode, WordPrimitive;
      ghost var s, must, hits := Now(), Contacts(scene), Hits(scene);
      var overlap := BVTest(nodes0[id0].mAABB, nodes1[id1].mAABB);
      if !overlap {
        forall c | c in Framed(t0, t1, BothInSpace0) ensures c !in must {
          PruneBoxes(scene, t0, t1, BothInSpace0, mFullBoxBoxTest || mNbBVBVTests == 1, c);
        }
        PairedNothing(must, hits, s, Framed(t0, t1, BothInSpace0));
        return [];
      }
      if nodes0[id0].IsLeaf() {
        if nodes1[id1].IsLeaf() {
          r := LeafLeaf(nodes0, id0, nodes1, id1, t0, t1);
        } else {
          r := CollideNodes(nodes0, id0, nodes1, nodes1[id1].GetNeg(), t0, t1.neg);
          ghost var half, r' := Now(), [];
          if !mFlags.ContactFound() {
            r' := CollideNodes(nodes0, id0, nodes1, nodes1[id1].GetPos(), t0, t1.pos);
          }
          PairedJoin(must, hits, s, Framed(t0, t1.neg, BothInSpace0), r, half, Framed(t0, t1.pos, BothInSpace0), r', Now());
          r := r + r';
        }
      } else if nodes1[id1].IsLeaf() {
        r := CollideNodes(nodes0, nodes0[id0].GetNeg(), nodes1, id1, t0.neg, t1);
        ghost var half, r' := Now(), [];
        if !mFlags.ContactFound() {
          r' := CollideNodes(nodes0, nodes0[id0].GetPos(), nodes1, id1, t0.pos, t1);
        }
        PairedJoin(must, hits, s, Framed(t0.neg, t1, BothInSpace0), r, half, Framed(t0.pos, t1, BothInSpace0), r', Now());
        r := r + r';
      } else {
        NodeNodeFramed(t0, t1);
        r := NodeAgainstBoth(nodes0, nodes0[id0].GetNeg(), nodes1, id1, t0.neg, t1);
        ghost var half, r' := Now(), [];
        if !mFlags.ContactFound() {
          r' := NodeAgainstBoth(nodes0, nodes0[id0].GetPos(), nodes1, id1, t0.pos, t1);
        }
        PairedJoin(must, hits, s, Framed(t0.neg, t1.neg, BothInSpace0) + Framed(t0.neg, t1.pos, BothInSpace0), r, half,
                   Framed(t0.pos, t1.neg, BothInSpace0) + Framed(t0.pos, t1.pos, BothInSpace0), r', Now());
        r := r + r';
      }
    }

    method LeafLeaf(nodes0: seq<AABBCollisionNode>, id0: nat, nodes1: seq<AABBCollisionNode>, id1: nat, ghost t0: Tree, ghost t1: Tree)
      returns (ghost r: seq<Candidate>)
      requires ValidScene(scene) && Encodes(nodes0, id0, t0) && Encodes(nodes1, id1, t1) && Complete(t0) && Complete(t1)
      requires Encloses(scene.m0, t0) && Encloses(scene.m1, t1) && nodes0[id0].IsLeaf() && nodes1[id1].IsLeaf()
      modifies `mFlags, `mPairs
      ensures Paired(Contacts(scene), Hits(scene), old(Now()), Framed(t0, t1, BothInSpace0), r, Now())
    {
      hide Paired, ValidMesh, IsRotation, BoxHasTriangle, CollisionBox, Tagged, WordPrimitive, TestPrims, Tri;
      NodeMember(scene.m0, nodes0, id0, t0);
      NodeMember(scene.m1, nodes1, id1, t1);
      ghost var s := Now();
      var prim0, prim1 := nodes0[id0].GetPrimitive(), nodes1[id1].GetPrimitive();
      var hit := PrimTest(prim0, prim1);
      ghost var c := Candidate((prim0, prim1), BothInSpace0);
      assert Framed(t0, t1, BothInSpace0) == [c];
      HitsAt(scene, c);
      ContactIsHit(scene, c);
      PairedOne(Contacts(scene), Hits(scene), s, c, Now());
      return if hit then [c] else [];
    }

    /** One child of tree 0's node against both children of tree 1's, without a box test of
        its own. */
    method NodeAgainstBoth(nodes0: seq<AABBCollisionNode>, id0: nat, nodes1: seq<AABBCollisionNode>, id1: nat, ghost t0: Tree, ghost t1: Tree)
      returns (ghost r: seq<Candidate>)
      requires ValidScene(scene) && Encodes(nodes0, id0, t0) && Encodes(nodes1, id1, t1) && t1.Node?
      requires Encloses(scene.m0, t0) && Encloses(scene.m1, t1) && !mFlags.ContactFound() && Complete(t0) && Complete(t1)
      modifies `mFlags, `mPairs, `mNbBVBVTests
      ensures Paired(Contacts(scene), Hits(scene), old(Now()), Framed(t0, t1.neg, BothInSpace0) + Framed(t0, t1.pos, BothInSpace0), r, Now())
      decreases Count(t0) + Count(t1)
    {
      hide ValidScene, Paired, Hits, Contacts, BoxHasTriangle, CollisionBox, Tagged, WordNode, WordPrimitive, Framed;
      ghost var s, must, hits := Now(), Contacts(scene), Hits(scene);
      r := CollideNodes(nodes0, id0, nodes1, nodes1[id1].GetNeg(), t0, t1.neg);
      ghost var half, r' := Now(), [];
      if !mFlags.ContactFound() {
        r' := CollideNodes(nodes0, id0, nodes1, nodes1[id1].GetPos(), t0, t1.pos);
      }
      PairedJoin(must, hits, s, Framed(t0, t1.neg, BothInSpace0), r, half, Framed(t0, t1.pos, BothInSpace0), r', Now());
      r := r + r';
    }

    // ---------------------------------------------------------------- whole queries

    /** InitQuery's matrix setup, from the two optional world matrices. */
    method SetupMatrices(world0: Option<Motion>, world1: Option<Motion>)
      modifies `scene
      ensures scene == PlacedScene(old(scene), world0, world1)
    {
      hide Compose, Invert, OrIdentity;
      var w0, w1 := OrIdentity(world0), OrIdentity(world1);
      var oneToZero, zeroToOne := Compose(w1, Invert(w0)), Compose(w0, Invert(w1));
      scene := scene.(rot := oneToZero.rot, trans := oneToZero.trans, back := zeroToOne);
    }

    /** InitQuery, and CheckTemporalCoherence: a cached pair that still passes the test in space
        0 settles a first-contact query. */
    method StartQuery(cache: Option<PairId>, world0: Option<Motion>, world1: Option<Motion>) returns (done: bool)
      requires Startable(world0, world1)
      requires PairUsable(scene, mFlags, cache)
      modifies `scene, `mFlags, `mPairs, `mNbBVBVTests
      ensures scene == PlacedScene(old(scene), world0, world1) && ValidScene(scene)
      ensures mFlags == old(mFlags).(contact := done, temporalHit := false)
      ensures done <==> CachedHit(scene, old(mFlags), cache)
      ensures mPairs == (if done then [cache.value.0, cache.value.1] else []) && mNbBVBVTests == 0
    {
      hide ValidMesh, TestPrims, Tri, Hits, Contacts, Compose, Invert, OrIdentity, IsRotation;
      mFlags := mFlags.InitQueryEx();
      mNbBVBVTests, mPairs := 0, [];
      SetupMatrices(world0, world1);
      PlacedSceneValid(old(scene), world0, world1);
      done := false;
      if cache.Some? && mFlags.temporalCoherence && mFlags.firstContact {
        HitsAt(scene, Candidate(cache.value, BothInSpace0));
        done := PrimTest(cache.value.0, cache.value.1);
        assert [] + [cache.value.0, cache.value.1] == [cache.value.0, cache.value.1];
      }
    }

    /** Two valid meshes and rigid world matrices. */
    ghost predicate Startable(world0: Option<Motion>, world1: Option<Motion>)
      reads `scene
    {
      ValidMesh(scene.m0) && ValidMesh(scene.m1) && ValidWorld(world0) && ValidWorld(world1)
    }

    /** UPDATE_CACHE */
    method UpdateCache(cache: Option<PairId>) returns (cache': Option<PairId>)
      requires mFlags.contact ==> 2 <= |mPairs|
      ensures cache' == if cache.Some? && mFlags.contact then Some((mPairs[0], mPairs[1])) else cache
    {
      cache' := if cache.Some? && mFlags.contact then Some((mPairs[0], mPairs[1])) else cache;
    }

    /** Collide on no-leaf trees, each pair tested in the frame its place in the trees gives it,
        positive children first; or the cached pair. */
    method CollideNoLeafTrees(cache: Option<PairId>, world0: Option<Motion>, world1: Option<Motion>,
                  nodes0: seq<AABBNoLeafNode>, nodes1: seq<AABBNoLeafNode>, ghost t0: Tree, ghost t1: Tree)
      returns (cache': Option<PairId>, ghost r: seq<Candidate>)
      requires Startable(world0, world1) && EncodesNoLeaf(nodes0, 0, t0) && EncodesNoLeaf(nodes1, 0, t1) && Complete(t0) && Complete(t1)
      requires Encloses(scene.m0, t0) && Encloses(scene.m1, t1)
      requires PairUsable(scene, mFlags, cache)
      modifies this
      ensures scene == PlacedScene(old(scene), world0, world1)
      ensures IsTreeAnswer(scene, mFlags, cache, t0, t1, Undecided, r)
      ensures mPairs == Flatten(r) && mFlags == old(mFlags).(contact := r != [], temporalHit := false)
      ensures cache' == NewCache(cache, r)
    {
      hide Startable, ValidMesh, IsRotation, OrIdentity, Compose, Invert, Paired, Hits, Contacts, EncodesNoLeaf, BoxHasTriangle, Framed, Reports, Filter, CachedHit;
      var done := StartQuery(cache, world0, world1);
      cache' := cache;
      if done {
        CachedPair(scene, old(mFlags), cache);
        SameMode(scene, old(mFlags), mFlags, cache);
        FlattenOne(Candidate(cache.value, BothInSpace0));
        r := [Candidate(cache.value, BothInSpace0)];
        return;
      }
      ghost var s := Now();
      r := CollideNoLeaf(nodes0, 0, nodes1, 0, t0, t1);
      PairedAnswers(Contacts(scene), Hits(scene), s, Framed(t0, t1, Undecided), r, Now());
      assert r != [] ==> mPairs[..2] == [r[0].pair.0, r[0].pair.1];
      SameMode(scene, old(mFlags), mFlags, cache);
      cache' := UpdateCache(cache);
    }

    /** Collide on implicit trees, each pair tested in space 0, negative children first; or the
        cached pair. */
    method CollideTrees(cache: Option<PairId>, world0: Option<Motion>, world1: Option<Motion>,
                  nodes0: seq<AABBCollisionNode>, nodes1: seq<AABBCollisionNode>, ghost t0: Tree, ghost t1: Tree)
      returns (cache': Option<PairId>, ghost r: seq<Candidate>)
      requires Startable(world0, world1) && Encodes(nodes0, 0, t0) && Encodes(nodes1, 0, t1) && Complete(t0) && Complete(t1)
      requires Encloses(scene.m0, t0) && Encloses(scene.m1, t1)
      requires PairUsable(scene, mFlags, cache)
      modifies this
      ensures scene == PlacedScene(old(scene), world0, world1)
      ensures IsTreeAnswer(scene, mFlags, cache, t0, t1, BothInSpace0, r)
      ensures mPairs == Flatten(r) && mFlags == old(mFlags).(contact := r != [], temporalHit := false)
      ensures cache' == NewCache(cache, r)
    {
      hide Startable, ValidMesh, IsRotation, OrIdentity, Compose, Invert, Paired, Hits, Contacts, Encodes, BoxHasTriangle, Framed, Reports, Filter, CachedHit;
      var done := StartQuery(cache, world0, world1);
      cache' := cache;
      if done {
        CachedPair(scene, old(mFlags), cache);
        SameMode(scene, old(mFlags), mFlags, cache);
        FlattenOne(Candidate(cache.value, BothInSpace0));
        r := [Candidate(cache.value, BothInSpace0)];
        return;
      }
      ghost var s := Now();
      r := CollideNodes(nodes0, 0, nodes1, 0, t0, t1);
      PairedAnswers(Contacts(scene), Hits(scene), s, Framed(t0, t1, BothInSpace0), r, Now());
      assert r != [] ==> mPairs[..2] == [r[0].pair.0, r[0].pair.1];
      SameMode(scene, old(mFlags), mFlags, cache);
      cache' := UpdateCache(cache);
    }
  }

  lemma CachedPair(s: Scene, flags: Flags, cache: Option<PairId>)
    requires ValidScene(s) && CachedHit(s, flags, cache)
    ensures cache.Some?
  {}

  /** Whether the cache answers depends on the two mode flags only. */
  lemma SameMode(s: Scene, f: Flags, g: Flags, cache: Option<PairId>)
    requires ValidScene(s) && PairUsable(s, f, cache)
    requires g == f.(contact := g.contact, temporalHit := g.temporalHit)
    ensures PairUsable(s, g, cache) && CachedHit(s, g, cache) == CachedHit(s, f, cache)
  {}

  lemma NodeNodeFramed(t0: Tree, t1: Tree)
    requires Complete(t0) && Complete(t1) && t0.Node? && t1.Node?
    ensures Framed(t0, t1, BothInSpace0) ==
      (Framed(t0.neg, t1.neg, BothInSpace0) + Framed(t0.neg, t1.pos, BothInSpace0)) +
      (Framed(t0.pos, t1.neg, BothInSpace0) + Framed(t0.pos, t1.pos, BothInSpace0))
  {}

  /** A leaf, or a branch, of tree 0 against the two children of tree 1. */
  lemma AgainstChildren(t0: Tree, t1: Tree)
    requires Complete(t0) && Complete(t1) && t1.Node?
    ensures t0.Leaf? ==> Framed(t0, t1, Leaf0InSpace1) == Framed(t0, t1.pos, Leaf0InSpace1) + Framed(t0, t1.neg, Leaf0InSpace1)
    ensures t0.Leaf? ==> FramedAgainst(t0, t1, Undecided) == Framed(t0, t1, Leaf0InSpace1)
    ensures FramedAgainst(t0, t1, Undecided) == Framed(t0, t1.pos, Undecided) + Framed(t0, t1.neg, Undecided)
  {
    if t0.Leaf? {
      SameFramed(t0, t1.pos, Undecided);
      SameFramed(t0, t1.neg, Undecided);
    }
  }
}
