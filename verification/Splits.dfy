/** What a node's subdivision makes of its slice of the index array (Split and Subdivide of
    OPC_AABBTree.cpp), in terms of the triangles' middles and the middle of the node's box. */
module Splits {
  import opened Geometry
  import opened Reals
  import opened Samples
  import opened Search
  import opened Trees

  /** The splitting-rule flags. `complete` is SPLIT_COMPLETE, the others the primitive-split
      rules, tried in the order of Subdivide. */
  datatype Rules = Rules(complete: bool, largestAxis: bool, splatterPoints: bool, balanced: bool, bestAxis: bool, fifty: bool)

  predicate KnownRule(r: Rules) {
    r.largestAxis || r.splatterPoints || r.balanced || r.bestAxis || r.fifty
  }

  /** AABBTreeOfTrianglesBuilder::GetSplittingValue */
  function GetSplittingValue(m: Mesh, index: nat, axis: nat): real
    requires ValidMesh(m) && index < |m.faces|
  {
    var t := Tri(m, index);
    (Coord(t.v0, axis) + Coord(t.v1, axis) + Coord(t.v2, axis)) / 3.0
  }

  /** AABBTreeBuilder::GetSplittingValueEx, which Split compares with whatever SPLIT_GEOMCENTER
      says: the triangle builder does not override it. */
  function GetSplittingValueEx(box: AABB, axis: nat): real {
    Coord(GetCenter(box), axis)
  }

  /** Coordinate of the triangle's point with three equal weights. */
  function Centroid(m: Mesh, i: nat, axis: nat): real
    requires ValidMesh(m) && i < |m.faces|
  {
    Coord(At(Tri(m, i), 1.0 / 3.0, 1.0 / 3.0), axis)
  }

  /** The triangle's middle lies beyond the middle of the box along the axis. */
  ghost predicate Beyond(m: Mesh, i: nat, box: AABB, axis: nat)
    requires ValidMesh(m)
  {
    i < |m.faces| && Centroid(m, i, axis) > (Coord(box.mMin, axis) + Coord(box.mMax, axis)) / 2.0
  }

  lemma CentroidValue(m: Mesh, i: nat, axis: nat)
    requires ValidMesh(m) && i < |m.faces|
    ensures GetSplittingValue(m, i, axis) == Centroid(m, i, axis)
  {
    hide ValidMesh, Tri;
  }

  /** The comparison Split makes. */
  lemma SplitTestIff(m: Mesh, i: nat, box: AABB, axis: nat)
    requires ValidMesh(m) && i < |m.faces|
    ensures GetSplittingValue(m, i, axis) > GetSplittingValueEx(box, axis) <==> Beyond(m, i, box, axis)
  {
    CentroidValue(m, i, axis);
    hide ValidMesh, GetSplittingValue, Centroid;
  }

  // ---------------------------------------------------------------- rearrangements

  /** `after` differs from `before` only by a permutation of one slice. */
  ghost predicate Rearranged(before: seq<nat>, after: seq<nat>, first: nat, n: nat) {
    && |before| == |after| && first + n <= |before|
    && multiset(before[first..first + n]) == multiset(after[first..first + n])
    && before[..first] == after[..first] && before[first + n..] == after[first + n..]
  }

  lemma RearrangedTwice(a: seq<nat>, b: seq<nat>, c: seq<nat>, first: nat, n: nat)
    requires Rearranged(a, b, first, n) && Rearranged(b, c, first, n)
    ensures Rearranged(a, c, first, n)
  {}

  ghost predicate SliceInMesh(m: Mesh, ix: seq<nat>, first: nat, n: nat) {
    first + n <= |ix| && InMesh(m, ix[first..first + n])
  }

  ghost predicate SliceTight(m: Mesh, ix: seq<nat>, first: nat, n: nat, box: AABB)
    requires ValidMesh(m)
  {
    SliceInMesh(m, ix, first, n) && TightBox(m, ix[first..first + n], box)
  }

  lemma StaysInMesh(m: Mesh, a: seq<nat>, b: seq<nat>, first: nat, n: nat)
    requires Rearranged(a, b, first, n) && SliceInMesh(m, a, first, n)
    ensures SliceInMesh(m, b, first, n)
  {
    SameElements(a[first..first + n], b[first..first + n]);
  }

  lemma RearrangedThen(m: Mesh, a: seq<nat>, b: seq<nat>, c: seq<nat>, first: nat, n: nat)
    requires Rearranged(a, b, first, n) && Rearranged(b, c, first, n) && SliceInMesh(m, b, first, n)
    ensures Rearranged(a, c, first, n) && SliceInMesh(m, c, first, n)
  {
    RearrangedTwice(a, b, c, first, n);
    StaysInMesh(m, b, c, first, n);
  }

  lemma SliceLength(m: Mesh, ix: seq<nat>, first: nat, n: nat)
    requires SliceInMesh(m, ix, first, n)
    ensures first + n <= |ix|
  {}

  lemma RearrangedSame(a: seq<nat>, first: nat, n: nat)
    requires first + n <= |a|
    ensures Rearranged(a, a, first, n)
  {}

  lemma SameElements(s: seq<nat>, r: seq<nat>)
    requires multiset(s) == multiset(r)
    ensures forall x :: x in s <==> x in r
  {
    forall x | true ensures x in s <==> x in r {
      assert x in s <==> x in multiset(s);
      assert x in r <==> x in multiset(r);
    }
  }

  lemma SliceAt(m: Mesh, ix: seq<nat>, first: nat, n: nat, i: nat)
    requires SliceInMesh(m, ix, first, n) && i < n
    ensures first + n <= |ix| && ix[first + i] < |m.faces|
  {
    assert ix[first..first + n][i] in ix[first..first + n];
  }

  // ------------------------------------------------------------------- one cut

  /** Those of the slice beyond the middle, in order. */
  ghost function Ahead(m: Mesh, s: seq<nat>, box: AABB, axis: nat): seq<nat>
    requires ValidMesh(m)
  {
    if s == [] then []
    else Ahead(m, s[..|s| - 1], box, axis) + if Beyond(m, s[|s| - 1], box, axis) then [s[|s| - 1]] else []
  }

  /** The others, as a queue: each entry beyond the middle sends the first one to the end. */
  ghost function Behind(m: Mesh, s: seq<nat>, box: AABB, axis: nat): seq<nat>
    requires ValidMesh(m)
  {
    if s == [] then [] else Queued(Behind(m, s[..|s| - 1], box, axis), s[|s| - 1], Beyond(m, s[|s| - 1], box, axis))
  }

  function Queued(queue: seq<nat>, i: nat, beyond: bool): seq<nat> {
    if !beyond then queue + [i] else if queue == [] then [] else queue[1..] + [queue[0]]
  }

  lemma EntryAdded(a: seq<nat>, queue: seq<nat>, i: nat, beyond: bool)
    ensures var a', q' := a + (if beyond then [i] else []), Queued(queue, i, beyond);
      && |a'| + |q'| == |a| + |queue| + 1 && multiset(a' + q') == multiset(a + queue) + multiset{i}
      && (forall x :: x in a' ==> x in a || (beyond && x == i)) && forall x :: x in q' ==> x in queue || (!beyond && x == i)
  {
    if queue != [] { assert queue == [queue[0]] + queue[1..]; }
  }

  /** The slice is cut along the axis, with the leading `nbPos` entries ahead. */
  ghost predicate SplitsTo(m: Mesh, before: seq<nat>, after: seq<nat>, first: nat, n: nat, box: AABB, axis: nat, nbPos: nat)
    requires ValidMesh(m)
  {
    first + n <= |before| &&
    var s := before[first..first + n];
    && after == before[..first] + Ahead(m, s, box, axis) + Behind(m, s, box, axis) + before[first + n..]
    && nbPos == |Ahead(m, s, box, axis)|
  }

  /** Exactly the leading `nbPos` entries of the slice lie beyond the middle. */
  ghost predicate SplitAlong(m: Mesh, ix: seq<nat>, first: nat, n: nat, box: AABB, axis: nat, nbPos: nat)
    requires ValidMesh(m)
  {
    nbPos <= n && first + n <= |ix| && forall k :: first <= k < first + n ==> (Beyond(m, ix[k], box, axis) <==> k < first + nbPos)
  }

  lemma {:induction false} Halves(m: Mesh, s: seq<nat>, box: AABB, axis: nat)
    requires ValidMesh(m)
    ensures |Ahead(m, s, box, axis)| + |Behind(m, s, box, axis)| == |s|
    ensures multiset(Ahead(m, s, box, axis) + Behind(m, s, box, axis)) == multiset(s)
    ensures (forall i :: i in Ahead(m, s, box, axis) ==> Beyond(m, i, box, axis)) && forall i :: i in Behind(m, s, box, axis) ==> !Beyond(m, i, box, axis)
  {
    hide Beyond, Queued;
    if s != [] {
      var front, last := s[..|s| - 1], s[|s| - 1];
      Halves(m, front, box, axis);
      assert s == front + [last];
      EntryAdded(Ahead(m, front, box, axis), Behind(m, front, box, axis), last, Beyond(m, last, box, axis));
    }
  }

  lemma TwoPieces(before: seq<nat>, after: seq<nat>, first: nat, n: nat, a: seq<nat>, b: seq<nat>)
    requires first + n <= |before| && after == before[..first] + a + b + before[first + n..] && |a| + |b| == n
    ensures |after| == |before| && after[first..first + n] == a + b && after[..first] == before[..first] && after[first + n..] == before[first + n..]
  {
    assert after == before[..first] + (a + b) + before[first + n..];
  }

  lemma SplitShape(m: Mesh, before: seq<nat>, after: seq<nat>, first: nat, n: nat, box: AABB, axis: nat, nbPos: nat)
    requires ValidMesh(m) && SplitsTo(m, before, after, first, n, box, axis, nbPos)
    ensures nbPos <= n && Rearranged(before, after, first, n) && SplitAlong(m, after, first, n, box, axis, nbPos)
  {
    var s := before[first..first + n];
    Halves(m, s, box, axis);
    var a, b := Ahead(m, s, box, axis), Behind(m, s, box, axis);
    hide Beyond, Ahead, Behind;
    TwoPieces(before, after, first, n, a, b);
    forall k | first <= k < first + n ensures Beyond(m, after[k], box, axis) <==> k < first + nbPos {
      assert after[k] == after[first..first + n][k - first];
      if k < first + nbPos { assert after[k] == a[k - first]; } else { assert after[k] == b[k - first - nbPos]; }
    }
  }

  lemma SwappedIn(p: seq<nat>, a: seq<nat>, queue: seq<nat>, i: nat, r: seq<nat>)
    ensures var ix, j, k := p + a + queue + ([i] + r), |p| + |a|, |p| + |a| + |queue|;
      ix[k := ix[j]][j := ix[k]] == p + (a + [i]) + Queued(queue, i, true) + r
  {
    var ix: seq<nat>, j, k := p + a + queue + ([i] + r), |p| + |a|, |p| + |a| + |queue|;
    assert ix[k] == i;
    if queue != [] {
      assert queue == [queue[0]] + queue[1..];
      assert ix == (p + a) + [queue[0]] + queue[1..] + [i] + r;
      assert ix[k := ix[j]][j := i] == (p + a) + [i] + queue[1..] + [queue[0]] + r;
    }
  }

  lemma NextHalves(m: Mesh, s: seq<nat>, i: nat, box: AABB, axis: nat)
    requires ValidMesh(m) && i < |s|
    ensures |Ahead(m, s[..i], box, axis)| + |Behind(m, s[..i], box, axis)| == i
    ensures Ahead(m, s[..i + 1], box, axis) == Ahead(m, s[..i], box, axis) + if Beyond(m, s[i], box, axis) then [s[i]] else []
    ensures Behind(m, s[..i + 1], box, axis) == Queued(Behind(m, s[..i], box, axis), s[i], Beyond(m, s[i], box, axis))
  {
    Halves(m, s[..i], box, axis);
    assert s[..i + 1][..i] == s[..i] && s[..i + 1][i] == s[i];
    hide Beyond, Queued;
  }

  function Swapped(s: seq<nat>, i: nat, j: nat): seq<nat>
    requires i < |s| && j < |s|
  {
    s[i := s[j]][j := s[i]]
  }

  /** One step of the loop: an entry stays behind, or is swapped with the first one behind. */
  lemma NextEntry(m: Mesh, s: seq<nat>, i: nat, box: AABB, axis: nat, p: seq<nat>, r: seq<nat>, ix: seq<nat>)
    requires ValidMesh(m) && i < |s| && ix == p + Ahead(m, s[..i], box, axis) + Behind(m, s[..i], box, axis) + ([s[i]] + r)
    ensures |Ahead(m, s[..i], box, axis)| <= i && |p| + i < |ix|
    ensures Beyond(m, s[i], box, axis) ==> var j, k := |p| + |Ahead(m, s[..i], box, axis)|, |p| + i;
      && ix[k := ix[j]][j := ix[k]] == p + Ahead(m, s[..i + 1], box, axis) + Behind(m, s[..i + 1], box, axis) + r
      && |Ahead(m, s[..i + 1], box, axis)| == |Ahead(m, s[..i], box, axis)| + 1
    ensures !Beyond(m, s[i], box, axis) ==>
      && ix == p + Ahead(m, s[..i + 1], box, axis) + Behind(m, s[..i + 1], box, axis) + r
      && |Ahead(m, s[..i + 1], box, axis)| == |Ahead(m, s[..i], box, axis)|
  {
    NextHalves(m, s, i, box, axis);
    var a, b := Ahead(m, s[..i], box, axis), Behind(m, s[..i], box, axis);
    hide Beyond, Ahead, Behind;
    if Beyond(m, s[i], box, axis) {
      SwappedIn(p, a, b, s[i], r);
    } else {
      assert a + [] == a;
      assert p + a + (b + [s[i]]) + r == p + a + b + ([s[i]] + r);
    }
  }

  /** The array after i steps of the loop, `nbPos` entries being ahead. */
  ghost predicate PartlySplit(m: Mesh, start: seq<nat>, ix: seq<nat>, first: nat, n: nat, box: AABB, axis: nat, i: nat, nbPos: nat)
    requires ValidMesh(m)
  {
    i <= n && first + n <= |start| &&
    var s := start[first..first + n];
    && nbPos == |Ahead(m, s[..i], box, axis)|
    && ix == start[..first] + Ahead(m, s[..i], box, axis) + Behind(m, s[..i], box, axis) + start[first + i..]
  }

  lemma SplitStarts(m: Mesh, start: seq<nat>, first: nat, n: nat, box: AABB, axis: nat)
    requires ValidMesh(m) && first + n <= |start|
    ensures PartlySplit(m, start, start, first, n, box, axis, 0, 0)
  {
    assert start[first..first + n][..0] == [];
    assert start == start[..first] + [] + [] + start[first..];
  }

  lemma SplitEnds(m: Mesh, start: seq<nat>, ix: seq<nat>, first: nat, n: nat, box: AABB, axis: nat, nbPos: nat)
    requires ValidMesh(m) && PartlySplit(m, start, ix, first, n, box, axis, n, nbPos)
    ensures SplitsTo(m, start, ix, first, n, box, axis, nbPos)
  {
    assert start[first..first + n][..n] == start[first..first + n];
    hide Ahead, Behind;
  }

  lemma SplitStep(m: Mesh, start: seq<nat>, ix: seq<nat>, first: nat, n: nat, box: AABB, axis: nat, i: nat, nbPos: nat)
    requires ValidMesh(m) && i < n && PartlySplit(m, start, ix, first, n, box, axis, i, nbPos)
    ensures nbPos <= i && first + n <= |ix| == |start| && ix[first + i] == start[first + i]
    ensures Beyond(m, start[first + i], box, axis) ==>
      PartlySplit(m, start, Swapped(ix, first + i, first + nbPos), first, n, box, axis, i + 1, nbPos + 1)
    ensures !Beyond(m, start[first + i], box, axis) ==> PartlySplit(m, start, ix, first, n, box, axis, i + 1, nbPos)
  {
    hide Beyond, Ahead, Behind;
    var s, r := start[first..first + n], start[first + i + 1..];
    assert start[first + i..] == [s[i]] + r;
    NextHalves(m, s, i, box, axis);
    NextEntry(m, s, i, box, axis, start[..first], r, ix);
  }

  /** The same step by the values compared. */
  lemma SplitStepByValue(m: Mesh, start: seq<nat>, ix: seq<nat>, first: nat, n: nat, box: AABB, axis: nat, i: nat, nbPos: nat)
    requires ValidMesh(m) && SliceInMesh(m, start, first, n) && i < n && PartlySplit(m, start, ix, first, n, box, axis, i, nbPos)
    ensures nbPos <= i && first + n <= |ix| && ix[first + i] < |m.faces|
    ensures if GetSplittingValue(m, ix[first + i], axis) > GetSplittingValueEx(box, axis)
      then PartlySplit(m, start, Swapped(ix, first + i, first + nbPos), first, n, box, axis, i + 1, nbPos + 1)
      else PartlySplit(m, start, ix, first, n, box, axis, i + 1, nbPos)
  {
    SplitStep(m, start, ix, first, n, box, axis, i, nbPos);
    SliceAt(m, start, first, n, i);
    SplitTestIff(m, start[first + i], box, axis);
    hide PartlySplit, Beyond, GetSplittingValue, GetSplittingValueEx, SliceInMesh, ValidMesh;
  }

  /** However the slice is arranged, a cut along the axis leaves one side empty. */
  ghost predicate OneSided(m: Mesh, before: seq<nat>, first: nat, n: nat, box: AABB, axis: nat)
    requires ValidMesh(m)
  {
    forall ix, k :: Rearranged(before, ix, first, n) && SplitAlong(m, ix, first, n, box, axis, k) ==> k == 0 || k == n
  }

  /** A cut along some axis; a cut along another has sides at least as unequal, and more
      unequal ones if that axis comes first. */
  ghost predicate MostEven(m: Mesh, before: seq<nat>, after: seq<nat>, first: nat, n: nat, box: AABB, nbPos: nat)
    requires ValidMesh(m)
  {
    exists axis: nat :: axis < 3 && SplitAlong(m, after, first, n, box, axis, nbPos) && NoneMoreEven(m, before, first, n, box, axis, nbPos)
  }

  ghost predicate NoneMoreEven(m: Mesh, before: seq<nat>, first: nat, n: nat, box: AABB, axis: nat, nbPos: nat)
    requires ValidMesh(m)
  {
    forall a: nat, ix, k :: a < 3 && Rearranged(before, ix, first, n) && SplitAlong(m, ix, first, n, box, a, k) ==>
      Gap(nbPos, n) <= Gap(k, n) && (a < axis ==> Gap(nbPos, n) < Gap(k, n))
  }

  /** Difference in size of the two sides of a cut. */
  function Gap(nbPos: nat, n: nat): int {
    if 2 * nbPos < n then n - 2 * nbPos else 2 * nbPos - n
  }

  /** The figure SPLIT_BALANCED compares. */
  function Imbalance(nbPos: nat, n: nat): real
    requires n > 0
  {
    var r := nbPos as real / n as real - 0.5;
    r * r
  }

  /** Distance of the share on the positive side from one half. */
  function OffHalf(a: nat, n: nat): real
    requires 0 < n
  {
    a as real / n as real - 0.5
  }

  lemma GapScaled(a: nat, n: nat)
    requires 0 < n
    ensures Product(2.0 * n as real, Abs(OffHalf(a, n))) == Gap(a, n) as real
  {
    var k := n as real;
    var q := a as real / k;
    DivMul(a as real, k);
    assert (2.0 * k) * (q - 0.5) == 2.0 * (k * q) - k;
    AbsOfProduct(2.0 * k, q - 0.5);
  }

  lemma ImbalanceIff(a: nat, b: nat, n: nat)
    requires 0 < n
    ensures Imbalance(a, n) < Imbalance(b, n) <==> Gap(a, n) < Gap(b, n)
  {
    assert Imbalance(a, n) == Square(OffHalf(a, n)) && Imbalance(b, n) == Square(OffHalf(b, n));
    GapScaled(a, n);
    GapScaled(b, n);
    hide Square, Abs, Gap, Imbalance, OffHalf, Product;
    SquareOrder(OffHalf(b, n), OffHalf(a, n));
    ScaledOrder(2.0 * n as real, Abs(OffHalf(a, n)), Abs(OffHalf(b, n)));
  }

  /** A cut with two sides along some axis, every larger axis, or equally large earlier one,
      being one-sided; or all of them are. */
  ghost predicate BestAxis(m: Mesh, before: seq<nat>, after: seq<nat>, first: nat, n: nat, box: AABB, nbPos: nat, validSplit: bool)
    requires ValidMesh(m)
  {
    if validSplit then
      0 < nbPos < n && exists axis: nat :: axis < 3 && SplitAlong(m, after, first, n, box, axis, nbPos) && BetterOneSided(m, before, first, n, box, axis)
    else OneSided(m, before, first, n, box, 0) && OneSided(m, before, first, n, box, 1) && OneSided(m, before, first, n, box, 2)
  }

  /** The order of the axes by decreasing extent. */
  predicate Precedes(keys: Point, a: nat, b: nat) {
    Coord(keys, b) < Coord(keys, a) || (Coord(keys, a) == Coord(keys, b) && a < b)
  }

  ghost predicate BetterOneSided(m: Mesh, before: seq<nat>, first: nat, n: nat, box: AABB, axis: nat)
    requires ValidMesh(m)
  {
    forall a: nat :: a < 3 && Precedes(GetExtents(box), a, axis) ==> OneSided(m, before, first, n, box, a)
  }

  /** Coordinates of the triangles' middles. */
  ghost function Values(m: Mesh, ps: seq<nat>, axis: nat): (xs: seq<real>)
    requires ValidMesh(m) && InMesh(m, ps)
    ensures |xs| == |ps|
  {
    seq(|ps|, i requires 0 <= i < |ps| => assert ps[i] in ps; Centroid(m, ps[i], axis))
  }

  lemma ValuesAt(m: Mesh, ix: seq<nat>, first: nat, n: nat, i: nat, axis: nat)
    requires ValidMesh(m) && SliceInMesh(m, ix, first, n) && i < n
    ensures first + n <= |ix| && ix[first + i] < |m.faces| && Values(m, ix[first..first + n], axis)[i] == Centroid(m, ix[first + i], axis)
  {
    hide Centroid;
    SliceAt(m, ix, first, n, i);
  }

  /** The first of the axes along which the middles are spread the most: the squared
      differences of all pairs have the greatest sum. */
  ghost predicate GreatestSpread(m: Mesh, ps: seq<nat>, axis: nat)
    requires ValidMesh(m) && InMesh(m, ps)
  {
    axis < 3 && forall a: nat :: a < 3 ==>
      var x, y := PairSquares(Values(m, ps, a), |ps|), PairSquares(Values(m, ps, axis), |ps|);
      x <= y && (a < axis ==> x < y)
  }

  /** Every vertex moved by the same vector. */
  predicate Shifted(m: Mesh, m': Mesh, d: Point) {
    m'.faces == m.faces && |m'.verts| == |m.verts| && forall i :: 0 <= i < |m.verts| ==> m'.verts[i] == Add(m.verts[i], d)
  }

  /** Moving the mesh changes no spread. */
  lemma SpreadKept(m: Mesh, m': Mesh, d: Point, ps: seq<nat>, axis: nat)
    requires ValidMesh(m) && ValidMesh(m') && InMesh(m, ps) && Shifted(m, m', d)
    ensures PairSquares(Values(m', ps, axis), |ps|) == PairSquares(Values(m, ps, axis), |ps|)
  {
    forall i | 0 <= i < |ps| ensures Values(m', ps, axis)[i] == Values(m, ps, axis)[i] + Coord(d, axis) {
      assert ps[i] in ps;
      MovedMiddle(Tri(m, ps[i]), Tri(m', ps[i]), d, axis);
      hide ValidMesh, Tri, At, Coord;
    }
    hide Values, ValidMesh, Shifted;
    ShiftedPairs(Values(m, ps, axis), Values(m', ps, axis), |ps|, Coord(d, axis));
  }

  lemma MovedMiddle(t: Triangle, t': Triangle, d: Point, axis: nat)
    requires t' == Triangle(Add(t.v0, d), Add(t.v1, d), Add(t.v2, d))
    ensures Coord(At(t', 1.0 / 3.0, 1.0 / 3.0), axis) == Coord(At(t, 1.0 / 3.0, 1.0 / 3.0), axis) + Coord(d, axis)
  {}

  /** The first of the axes with the greatest coordinate. */
  function LargestAxis(p: Point): (axis: nat)
    ensures axis < 3 && forall a: nat :: a < 3 ==> Coord(p, a) <= Coord(p, axis) && (a < axis ==> Coord(p, a) < Coord(p, axis))
  {
    var m := if p.y > p.x then 1 else 0;
    if p.z > Coord(p, m) then 2 else m
  }

  // ------------------------------------------------------------- what a rule chose

  /** The cut the first enabled rule makes, and whether it leaves both sides non-empty. */
  ghost predicate Chosen(rules: Rules, m: Mesh, before: seq<nat>, after: seq<nat>, first: nat, n: nat, box: AABB, nbPos: nat, validSplit: bool)
    requires ValidMesh(m) && SliceInMesh(m, before, first, n)
  {
    if rules.largestAxis then
      SplitsTo(m, before, after, first, n, box, LargestAxis(GetExtents(box)), nbPos) && (validSplit <==> 0 < nbPos < n)
    else if rules.splatterPoints then
      (exists axis :: GreatestSpread(m, before[first..first + n], axis) && SplitsTo(m, before, after, first, n, box, axis, nbPos)) && (validSplit <==> 0 < nbPos < n)
    else if rules.balanced then MostEven(m, before, after, first, n, box, nbPos) && (validSplit <==> 0 < nbPos < n)
    else if rules.bestAxis then BestAxis(m, before, after, first, n, box, nbPos, validSplit)
    else after == before && nbPos == n / 2 && validSplit
  }

  /** The cut of the rule, or the middle of the slice when it leaves one side empty and the
      tree must be complete. */
  ghost predicate CutAsChosen(rules: Rules, limit: nat, m: Mesh, before: seq<nat>, after: seq<nat>, first: nat, n: nat, box: AABB, cut: nat)
    requires ValidMesh(m) && SliceInMesh(m, before, first, n)
  {
    2 <= n && limit < n && KnownRule(rules) && Rearranged(before, after, first, n) && exists nbPos: nat, validSplit ::
      Chosen(rules, m, before, after, first, n, box, nbPos, validSplit) && (validSplit || rules.complete) && cut == if validSplit then nbPos else n / 2
  }

  /** No cut: one primitive, at most the limit, no known rule, or a rule that left one side
      empty where the tree need not be complete. */
  ghost predicate UncutAsChosen(rules: Rules, limit: nat, m: Mesh, before: seq<nat>, after: seq<nat>, first: nat, n: nat, box: AABB)
    requires ValidMesh(m) && SliceInMesh(m, before, first, n)
  {
    Rearranged(before, after, first, n) &&
    if n == 1 || n <= limit || !KnownRule(rules) then after == before
    else !rules.complete && exists nbPos: nat :: Chosen(rules, m, before, after, first, n, box, nbPos, false)
  }

  /** The tree below a node that starts with the slice of `before` at `first`: every node is cut
      as its rule says, the positive child first. */
  ghost predicate RuleTree(rules: Rules, limit: nat, m: Mesh, before: seq<nat>, first: nat, t: Tree)
    requires ValidMesh(m)
    decreases t
  {
    var n := |Prims(t)|;
    SliceInMesh(m, before, first, n) &&
    if t.Leaf? then exists after :: UncutAsChosen(rules, limit, m, before, after, first, n, t.box) && t.prims == after[first..first + n]
    else
      var k := |Prims(t.pos)|;
      exists after, half ::
        && CutAsChosen(rules, limit, m, before, after, first, n, t.box, k) && RuleTree(rules, limit, m, after, first, t.pos)
        && Rearranged(after, half, first, k) && RuleTree(rules, limit, m, half, first + k, t.neg)
  }

  lemma RuleLeaf(rules: Rules, limit: nat, m: Mesh, before: seq<nat>, after: seq<nat>, first: nat, n: nat, box: AABB)
    requires ValidMesh(m) && SliceInMesh(m, before, first, n) && UncutAsChosen(rules, limit, m, before, after, first, n, box)
    ensures first + n <= |after| && RuleTree(rules, limit, m, before, first, Leaf(box, after[first..first + n]))
  {
    hide Chosen, KnownRule, SliceInMesh;
  }

  lemma RuleNode(rules: Rules, limit: nat, m: Mesh, before: seq<nat>, after: seq<nat>, half: seq<nat>, first: nat, n: nat, t: Tree)
    requires ValidMesh(m) && t.Node? && n == |Prims(t)| && SliceInMesh(m, before, first, n)
    requires CutAsChosen(rules, limit, m, before, after, first, n, t.box, |Prims(t.pos)|) && RuleTree(rules, limit, m, after, first, t.pos)
    requires Rearranged(after, half, first, |Prims(t.pos)|) && RuleTree(rules, limit, m, half, first + |Prims(t.pos)|, t.neg)
    ensures RuleTree(rules, limit, m, before, first, t)
  {
    hide CutAsChosen, Rearranged, SliceInMesh;
  }

  /** Rules that force one primitive per leaf. */
  lemma {:induction false} RuleTreeComplete(rules: Rules, limit: nat, m: Mesh, before: seq<nat>, first: nat, t: Tree)
    requires ValidMesh(m) && RuleTree(rules, limit, m, before, first, t) && NoEmptyLeaf(t) && rules.complete && KnownRule(rules) && limit <= 1
    ensures Complete(t)
    decreases t
  {
    hide Chosen, KnownRule, SliceInMesh, Rearranged;
    if t.Node? {
      var k := |Prims(t.pos)|;
      var after, half :|
        && CutAsChosen(rules, limit, m, before, after, first, |Prims(t)|, t.box, k) && RuleTree(rules, limit, m, after, first, t.pos)
        && Rearranged(after, half, first, k) && RuleTree(rules, limit, m, half, first + k, t.neg);
      RuleTreeComplete(rules, limit, m, after, first, t.pos);
      RuleTreeComplete(rules, limit, m, half, first + k, t.neg);
    }
  }

  lemma NoRuleNoCut(rules: Rules, limit: nat, m: Mesh, before: seq<nat>, first: nat, t: Tree)
    requires ValidMesh(m) && RuleTree(rules, limit, m, before, first, t) && !KnownRule(rules)
    ensures t.Leaf?
  {
    hide Chosen, KnownRule, SliceInMesh, Rearranged;
  }

  /** How many primitives lie on the positive side does not depend on their order. */
  lemma SplitSizeFixed(m: Mesh, before: seq<nat>, a: seq<nat>, b: seq<nat>, first: nat, n: nat, box: AABB, axis: nat, p: nat, q: nat)
    requires ValidMesh(m) && Rearranged(before, a, first, n) && Rearranged(before, b, first, n)
    requires SplitAlong(m, a, first, n, box, axis, p) && SplitAlong(m, b, first, n, box, axis, q)
    ensures p == q
  {
    hide Beyond;
    var a1, b1 := a[first..first + p], b[first..first + q];
    forall x: nat | true ensures Occurrences(a1, x) == Occurrences(b1, x) {
      PositiveCopies(m, a, first, n, box, axis, p, x);
      PositiveCopies(m, b, first, n, box, axis, q, x);
    }
    SameLength(a1, b1);
  }

  lemma PositiveCopies(m: Mesh, ix: seq<nat>, first: nat, n: nat, box: AABB, axis: nat, nbPos: nat, x: nat)
    requires ValidMesh(m) && SplitAlong(m, ix, first, n, box, axis, nbPos)
    ensures Occurrences(ix[first..first + nbPos], x) ==
      if Beyond(m, x, box, axis) then Occurrences(ix[first..first + n], x) else 0
  {
    hide Beyond;
    var front, back := ix[first..first + nbPos], ix[first + nbPos..first + n];
    assert ix[first..first + n] == front + back;
    OccurrencesJoin(front, back, x);
    OccurrencesMember(front, x);
    OccurrencesMember(back, x);
  }

  /** One cut along an axis tells how all of them come out. */
  lemma OneSidedFrom(m: Mesh, before: seq<nat>, ix: seq<nat>, first: nat, n: nat, box: AABB, axis: nat, nbPos: nat)
    requires ValidMesh(m) && Rearranged(before, ix, first, n) && SplitAlong(m, ix, first, n, box, axis, nbPos) && (nbPos == 0 || nbPos == n)
    ensures OneSided(m, before, first, n, box, axis)
  {
    hide SplitAlong, Rearranged;
    forall jx, k | Rearranged(before, jx, first, n) && SplitAlong(m, jx, first, n, box, axis, k) ensures k == 0 || k == n {
      SplitSizeFixed(m, before, ix, jx, first, n, box, axis, nbPos, k);
    }
  }

  lemma MostEvenOfThree(m: Mesh, before: seq<nat>, s0: seq<nat>, s1: seq<nat>, s2: seq<nat>, after: seq<nat>, first: nat, n: nat, box: AABB,
                        n0: nat, n1: nat, n2: nat, min: nat, nbPos: nat)
    requires ValidMesh(m) && 0 < n && min < 3
    requires Rearranged(before, s0, first, n) && Rearranged(before, s1, first, n) && Rearranged(before, s2, first, n) && Rearranged(before, after, first, n)
    requires SplitAlong(m, s0, first, n, box, 0, n0) && SplitAlong(m, s1, first, n, box, 1, n1) && SplitAlong(m, s2, first, n, box, 2, n2)
    requires SplitAlong(m, after, first, n, box, min, nbPos)
    requires var g := Gap(if min == 0 then n0 else if min == 1 then n1 else n2, n);
      g <= Gap(n0, n) && g <= Gap(n1, n) && g <= Gap(n2, n) && (0 < min ==> g < Gap(n0, n)) && (1 < min ==> g < Gap(n1, n))
    ensures MostEven(m, before, after, first, n, box, nbPos)
  {
    hide SplitAlong, Rearranged, Gap;
    SplitSizeFixed(m, before, after, if min == 0 then s0 else if min == 1 then s1 else s2, first, n, box, min, nbPos, if min == 0 then n0 else if min == 1 then n1 else n2);
    forall a: nat, ix, k | a < 3 && Rearranged(before, ix, first, n) && SplitAlong(m, ix, first, n, box, a, k)
      ensures Gap(nbPos, n) <= Gap(k, n) && (a < min ==> Gap(nbPos, n) < Gap(k, n))
    {
      SplitSizeFixed(m, before, ix, if a == 0 then s0 else if a == 1 then s1 else s2, first, n, box, a, k, if a == 0 then n0 else if a == 1 then n1 else n2);
    }
    assert NoneMoreEven(m, before, first, n, box, min, nbPos);
  }
}
