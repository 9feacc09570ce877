/** Generic AABB tree construction (OPC_AABBTree.cpp, OPC_TreeBuilders.cpp): recursive
    in-place partition of one shared index array. */
module AABBTrees {
  import opened Geometry
  import opened Reals
  import opened Samples
  import opened Search
  import opened Splits
  import opened Trees

  /** Settings and statistics of a build over the triangles of a mesh. */
  class AABBTreeBuilder {
    const mesh: Mesh
    const mRules: Rules
    const mLimit: nat
    var mCount: nat
    var mNbInvalidSplits: nat

    constructor (mesh: Mesh, rules: Rules, limit: nat)
      ensures this.mesh == mesh && mRules == rules && mLimit == limit
    {
      this.mesh, mRules, mLimit := mesh, rules, limit;
      mCount, mNbInvalidSplits := 0, 0;
    }

    /** Bounding box of a slice of primitives, accumulated from the +-FLT_MAX sentinels. */
    method ComputeGlobalBox(indices: array<nat>, first: nat, n: nat) returns (box: AABB)
      requires ValidMesh(mesh) && 1 <= n && first + n <= indices.Length && SliceInMesh(mesh, indices[..], first, n)
      ensures SliceTight(mesh, indices[..], first, n, box)
    {
      hide TightBox, MinPoint, MaxPoint, ValidMesh;
      var lo := Point(FLT_MAX, FLT_MAX, FLT_MAX);
      var hi := Point(-FLT_MAX, -FLT_MAX, -FLT_MAX);
      ghost var ps := indices[..][first..first + n];
      for i := 0 to n
        invariant i == 0 ==> lo == Point(FLT_MAX, FLT_MAX, FLT_MAX) && hi == Point(-FLT_MAX, -FLT_MAX, -FLT_MAX)
        invariant InMesh(mesh, ps[..i])
        invariant i > 0 ==> TightBox(mesh, ps[..i], AABB(lo, hi))
      {
        assert ps[i] in ps && ps[i] == indices[first + i];
        var t := Tri(mesh, indices[first + i]);
        var lo', hi' := MinPoint(lo, t), MaxPoint(hi, t);
        if i == 0 {
          FirstTriangle(mesh, ps[0], lo, hi);
          assert ps[..1] == [ps[0]];
        } else {
          GrowTight(mesh, ps[..i], ps[i], AABB(lo, hi));
          assert ps[..i] + [ps[i]] == ps[..i + 1];
        }
        lo, hi := lo', hi';
      }
      assert ps[..n] == ps;
      box := AABB(lo, hi);
    }
  }

  /** Min.Min(p0).Min(p1).Min(p2) */
  function MinPoint(p: Point, t: Triangle): Point {
    Point(Min(Min(Min(p.x, t.v0.x), t.v1.x), t.v2.x), Min(Min(Min(p.y, t.v0.y), t.v1.y), t.v2.y), Min(Min(Min(p.z, t.v0.z), t.v1.z), t.v2.z))
  }

  function MaxPoint(p: Point, t: Triangle): Point {
    Point(Max(Max(Max(p.x, t.v0.x), t.v1.x), t.v2.x), Max(Max(Max(p.y, t.v0.y), t.v1.y), t.v2.y), Max(Max(Max(p.z, t.v0.z), t.v1.z), t.v2.z))
  }

  lemma MinPointCoord(p: Point, t: Triangle, axis: nat)
    ensures Coord(MinPoint(p, t), axis) == Min(Coord(p, axis), TriMin(t, axis))
    ensures Coord(MaxPoint(p, t), axis) == Max(Coord(p, axis), TriMax(t, axis))
  {}

  lemma FiniteTriangle(m: Mesh, i: nat, axis: nat)
    requires ValidMesh(m) && i < |m.faces|
    ensures -FLT_MAX <= TriMin(Tri(m, i), axis) <= FLT_MAX && -FLT_MAX <= TriMax(Tri(m, i), axis) <= FLT_MAX
  {
    var t := Tri(m, i);
    assert FinitePoint(t.v0) && FinitePoint(t.v1) && FinitePoint(t.v2);
  }

  lemma FirstTriangle(m: Mesh, i: nat, lo: Point, hi: Point)
    requires ValidMesh(m) && i < |m.faces|
    requires lo == Point(FLT_MAX, FLT_MAX, FLT_MAX) && hi == Point(-FLT_MAX, -FLT_MAX, -FLT_MAX)
    ensures TightBox(m, [i], AABB(MinPoint(lo, Tri(m, i)), MaxPoint(hi, Tri(m, i))))
  {
    var box := AABB(MinPoint(lo, Tri(m, i)), MaxPoint(hi, Tri(m, i)));
    forall axis | 0 <= axis < 3
      ensures Coord(box.mMin, axis) == TriMin(Tri(m, i), axis) && Coord(box.mMax, axis) == TriMax(Tri(m, i), axis)
    {
      MinPointCoord(lo, Tri(m, i), axis);
      MinPointCoord(hi, Tri(m, i), axis);
      FiniteTriangle(m, i, axis);
      assert Coord(lo, axis) == FLT_MAX && Coord(hi, axis) == -FLT_MAX;
      hide TriMin, TriMax, MinPoint, MaxPoint, Coord;
    }
    hide TriMin, TriMax, MinPoint, MaxPoint, Coord;
    assert i in [i];
  }

  lemma GrowTight(m: Mesh, ps: seq<nat>, i: nat, box: AABB)
    requires ValidMesh(m) && InMesh(m, ps) && i < |m.faces| && TightBox(m, ps, box)
    ensures InMesh(m, ps + [i]) && TightBox(m, ps + [i], AABB(MinPoint(box.mMin, Tri(m, i)), MaxPoint(box.mMax, Tri(m, i))))
  {
    var box' := AABB(MinPoint(box.mMin, Tri(m, i)), MaxPoint(box.mMax, Tri(m, i)));
    forall axis: nat | axis < 3
      ensures Coord(box'.mMin, axis) == Min(Coord(box.mMin, axis), TriMin(Tri(m, i), axis))
      ensures Coord(box'.mMax, axis) == Max(Coord(box.mMax, axis), TriMax(Tri(m, i), axis))
    {
      MinPointCoord(box.mMin, Tri(m, i), axis);
      MinPointCoord(box.mMax, Tri(m, i), axis);
    }
    hide TriMin, TriMax, MinPoint, MaxPoint, Coord, Tri, ValidMesh, TouchedAcross, Bounds;
    GrowBounds(m, ps, i, box, box');
    GrowAcross(m, ps, i, box, box', 0);
    GrowAcross(m, ps, i, box, box', 1);
    GrowAcross(m, ps, i, box, box', 2);
  }

  lemma GrowBounds(m: Mesh, ps: seq<nat>, i: nat, box: AABB, box': AABB)
    requires ValidMesh(m) && InMesh(m, ps) && i < |m.faces| && Bounds(m, ps, box)
    requires forall axis: nat :: axis < 3 ==> Coord(box'.mMin, axis) == Min(Coord(box.mMin, axis), TriMin(Tri(m, i), axis))
    requires forall axis: nat :: axis < 3 ==> Coord(box'.mMax, axis) == Max(Coord(box.mMax, axis), TriMax(Tri(m, i), axis))
    ensures InMesh(m, ps + [i]) && Bounds(m, ps + [i], box')
  {
    hide TriMin, TriMax, Coord, Tri, ValidMesh;
    assert forall x :: x in ps + [i] <==> x in ps || x == i;
  }

  lemma GrowAcross(m: Mesh, ps: seq<nat>, i: nat, box: AABB, box': AABB, axis: nat)
    requires ValidMesh(m) && InMesh(m, ps) && i < |m.faces| && TouchedAcross(m, ps, box, axis)
    requires Coord(box'.mMin, axis) == Min(Coord(box.mMin, axis), TriMin(Tri(m, i), axis))
    requires Coord(box'.mMax, axis) == Max(Coord(box.mMax, axis), TriMax(Tri(m, i), axis))
    ensures InMesh(m, ps + [i]) && TouchedAcross(m, ps + [i], box', axis)
  {
    var qs := ps + [i];
    hide TriMin, TriMax, Coord, Tri, ValidMesh;
    assert forall x :: x in qs <==> x in ps || x == i;
    var j :| j in ps && TriMin(Tri(m, j), axis) == Coord(box.mMin, axis);
    var k :| k in ps && TriMax(Tri(m, k), axis) == Coord(box.mMax, axis);
    assert j in qs && k in qs && i in qs;
  }

  /** Swap of two entries of a slice. */
  method Swap(a: array<nat>, first: nat, n: nat, i: nat, j: nat)
    requires i < n && j < n && first + n <= a.Length
    modifies a
    ensures a[..] == Swapped(old(a[..]), first + i, first + j)
    ensures Rearranged(old(a[..]), a[..], first, n)
  {
    ghost var s := a[..];
    var tmp := a[first + i];
    a[first + i] := a[first + j];
    a[first + j] := tmp;
    assert a[..] == Swapped(s, first + i, first + j);
    SwapRearranges(s, first, n, i, j);
  }

  lemma SwapRearranges(s: seq<nat>, first: nat, n: nat, i: nat, j: nat)
    requires i < n && j < n && first + n <= |s|
    ensures Rearranged(s, Swapped(s, first + i, first + j), first, n)
  {
    var r := Swapped(s, first + i, first + j);
    var p := s[first..first + n];
    assert r[first..first + n] == p[i := p[j]][j := p[i]];
    assert r[..first] == s[..first] && r[first + n..] == s[first + n..];
  }

  class AABBTreeNode {
    var mBV: AABB
    var mP: AABBTreeNode?
    var mN: AABBTreeNode?
    var mFirst: nat         // mNodePrimitives == &mIndices[mFirst]
    var mNbPrimitives: nat
    ghost var repr: set<AABBTreeNode>

    constructor ()
      ensures mP == null && mN == null && repr == {this}
    {
      mBV := AABB(Point(0.0, 0.0, 0.0), Point(0.0, 0.0, 0.0));
      mP, mN, mFirst, mNbPrimitives := null, null, 0, 0;
      repr := {this};
    }

    predicate IsLeaf()
      reads this
    {
      mP == null && mN == null
    }

    /** The objects under this node represent `t` over the index array's contents `ix`: leaf
        and node slices are shared, adjacent pieces of the one array. */
    ghost predicate Represents(t: Tree, ix: seq<nat>)
      reads this, repr
      ensures Represents(t, ix) ==> this in repr
      decreases t
    {
      && this in repr
      && mFirst + mNbPrimitives <= |ix|
      && mBV == t.box
      && match t
         case Leaf(_, ps) => mP == null && mN == null && ps == ix[mFirst..mFirst + mNbPrimitives]
         case Node(_, p, n) =>
           && mP != null && mN != null && mP in repr && mN in repr
           && mP.repr <= repr && mN.repr <= repr && this !in mP.repr && this !in mN.repr && mP.repr !! mN.repr
           && mP.mFirst == mFirst && mN.mFirst == mFirst + mP.mNbPrimitives
           && mNbPrimitives == mP.mNbPrimitives + mN.mNbPrimitives
           && mP.Represents(p, ix) && mN.Represents(n, ix)
    }

    lemma Parts(t: Tree, ix: seq<nat>)
      requires Represents(t, ix)
      ensures mFirst + mNbPrimitives <= |ix| && mBV == t.box && (IsLeaf() <==> t.Leaf?)
      ensures t.Leaf? ==> Prims(t) == ix[mFirst..mFirst + mNbPrimitives]
      ensures t.Node? ==> mP != null && mN != null && mP.Represents(t.pos, ix) && mN.Represents(t.neg, ix)
    {}

    /** Representation only looks at the node's own slice. */
    lemma {:induction false} SliceOnly(t: Tree, ix: seq<nat>, ix': seq<nat>)
      requires Represents(t, ix) && |ix| == |ix'|
      requires ix[mFirst..mFirst + mNbPrimitives] == ix'[mFirst..mFirst + mNbPrimitives]
      ensures Represents(t, ix')
      decreases t
    {
      if t.Node? {
        SubSlice(ix, ix', mFirst, mNbPrimitives, mP.mFirst, mP.mNbPrimitives);
        SubSlice(ix, ix', mFirst, mNbPrimitives, mN.mFirst, mN.mNbPrimitives);
        mP.SliceOnly(t.pos, ix, ix');
        mN.SliceOnly(t.neg, ix, ix');
      }
    }

    /** Depth-first leaf order is array order. */
    lemma {:induction false} PrimsAreSlice(t: Tree, ix: seq<nat>)
      requires Represents(t, ix)
      ensures Prims(t) == ix[mFirst..mFirst + mNbPrimitives]
      decreases t
    {
      if t.Node? {
        mP.PrimsAreSlice(t.pos, ix);
        mN.PrimsAreSlice(t.neg, ix);
      }
    }

    /** Partition of the node's slice along an axis: the primitives whose middle lies beyond the
        middle of the box go first, in their order. */
    method Split(axis: nat, builder: AABBTreeBuilder, indices: array<nat>) returns (nbPos: nat)
      requires axis < 3 && ValidMesh(builder.mesh) && SliceInMesh(builder.mesh, indices[..], mFirst, mNbPrimitives)
      modifies indices
      ensures SplitsTo(builder.mesh, old(indices[..]), indices[..], mFirst, mNbPrimitives, mBV, axis, nbPos)
      ensures nbPos <= mNbPrimitives && Rearranged(old(indices[..]), indices[..], mFirst, mNbPrimitives)
      ensures SplitAlong(builder.mesh, indices[..], mFirst, mNbPrimitives, mBV, axis, nbPos)
    {
      hide GetSplittingValue, GetSplittingValueEx, Rearranged, SliceInMesh, ValidMesh, Beyond, PartlySplit, SplitsTo, SplitAlong, Swapped;
      var splitValue := GetSplittingValueEx(mBV, axis);
      nbPos := 0;
      var n, first := mNbPrimitives, mFirst;
      ghost var m, start := builder.mesh, indices[..];
      SliceLength(m, start, first, n);
      SplitStarts(m, start, first, n, mBV, axis);
      for i := 0 to n
        invariant PartlySplit(m, start, indices[..], first, n, mBV, axis, i, nbPos)
      {
        SplitStepByValue(m, start, indices[..], first, n, mBV, axis, i, nbPos);
        var primitiveValue := GetSplittingValue(builder.mesh, indices[first + i], axis);
        if primitiveValue > splitValue {
          Swap(indices, first, n, i, nbPos);
          nbPos := nbPos + 1;
        }
      }
      SplitEnds(m, start, indices[..], first, n, mBV, axis, nbPos);
      SplitShape(m, start, indices[..], first, n, mBV, axis, nbPos);
    }

    /** The primitive-split rules, tried in the source's order. */
    method ChooseSplit(builder: AABBTreeBuilder, indices: array<nat>) returns (nbPos: nat, validSplit: bool)
      requires KnownRule(builder.mRules)
      requires ValidMesh(builder.mesh) && 2 <= mNbPrimitives && SliceInMesh(builder.mesh, indices[..], mFirst, mNbPrimitives)
      modifies indices
      ensures Chosen(builder.mRules, builder.mesh, old(indices[..]), indices[..], mFirst, mNbPrimitives, mBV, nbPos, validSplit)
      ensures validSplit ==> 0 < nbPos < mNbPrimitives
      ensures Rearranged(old(indices[..]), indices[..], mFirst, mNbPrimitives)
    {
      hide Rearranged, SplitsTo, SplitAlong, MostEven, GreatestSpread, SliceInMesh, ValidMesh;
      validSplit, nbPos := true, 0;
      SliceLength(builder.mesh, indices[..], mFirst, mNbPrimitives);
      RearrangedSame(indices[..], mFirst, mNbPrimitives);
      if builder.mRules.largestAxis {
        nbPos := Split(LargestAxis(GetExtents(mBV)), builder, indices);
        if nbPos == 0 || nbPos == mNbPrimitives { validSplit := false; }
      } else if builder.mRules.splatterPoints {
        var axis := VarianceAxis(builder, indices);
        nbPos := Split(axis, builder, indices);
        if nbPos == 0 || nbPos == mNbPrimitives { validSplit := false; }
      } else if builder.mRules.balanced {
        nbPos, validSplit := BalancedSplit(builder, indices);
      } else if builder.mRules.bestAxis {
        nbPos, validSplit := BestAxisSplit(builder, indices);
      } else {
        nbPos := mNbPrimitives / 2;
      }
    }

    /** Tries the three axes, then splits again along the most even one. */
    method BalancedSplit(builder: AABBTreeBuilder, indices: array<nat>) returns (nbPos: nat, validSplit: bool)
      requires ValidMesh(builder.mesh) && 2 <= mNbPrimitives && SliceInMesh(builder.mesh, indices[..], mFirst, mNbPrimitives)
      modifies indices
      ensures MostEven(builder.mesh, old(indices[..]), indices[..], mFirst, mNbPrimitives, mBV, nbPos)
      ensures validSplit <==> 0 < nbPos < mNbPrimitives
      ensures Rearranged(old(indices[..]), indices[..], mFirst, mNbPrimitives)
    {
      hide Rearranged, Imbalance, Gap, SplitsTo, SplitAlong, SliceInMesh, ValidMesh, MostEven;
      ghost var m, first, n := builder.mesh, mFirst, mNbPrimitives;
      ghost var s0 := indices[..];
      nbPos := Split(0, builder, indices);
      ghost var s1, n0 := indices[..], nbPos;
      StaysInMesh(m, s0, s1, first, n);
      var r0 := Imbalance(nbPos, mNbPrimitives);
      nbPos := Split(1, builder, indices);
      ghost var s2, n1 := indices[..], nbPos;
      StaysInMesh(m, s1, s2, first, n);
      var r1 := Imbalance(nbPos, mNbPrimitives);
      nbPos := Split(2, builder, indices);
      ghost var s3, n2 := indices[..], nbPos;
      StaysInMesh(m, s2, s3, first, n);
      var r2 := Imbalance(nbPos, mNbPrimitives);
      var min := if r1 < r0 then 1 else 0;
      if r2 < (if min == 1 then r1 else r0) { min := 2; }
      ImbalanceIff(n0, n1, n);
      ImbalanceIff(n1, n0, n);
      ImbalanceIff(n2, if min == 0 then n0 else n1, n);
      ImbalanceIff(n2, n0, n);
      ImbalanceIff(n2, n1, n);
      nbPos := Split(min, builder, indices);
      RearrangedTwice(s0, s1, s2, first, n);
      RearrangedTwice(s0, s2, s3, first, n);
      RearrangedTwice(s0, s3, indices[..], first, n);
      MostEvenOfThree(m, s0, s1, s2, s3, indices[..], first, n, mBV, n0, n1, n2, min, nbPos);
      validSplit := nbPos != 0 && nbPos != mNbPrimitives;
    }

    /** Largest, then middle, then smallest axis, until one leaves both sides non-empty. */
    method BestAxisSplit(builder: AABBTreeBuilder, indices: array<nat>) returns (nbPos: nat, validSplit: bool)
      requires ValidMesh(builder.mesh) && 2 <= mNbPrimitives && SliceInMesh(builder.mesh, indices[..], mFirst, mNbPrimitives)
      modifies indices
      ensures BestAxis(builder.mesh, old(indices[..]), indices[..], mFirst, mNbPrimitives, mBV, nbPos, validSplit)
      ensures Rearranged(old(indices[..]), indices[..], mFirst, mNbPrimitives)
    {
      hide Rearranged, SplitsTo, SplitAlong, SliceInMesh, ValidMesh, OneSided, Coord;
      ghost var m, first, n, start := builder.mesh, mFirst, mNbPrimitives, indices[..];
      var sorted := SortedAxes(GetExtents(mBV));
      var curAxis := 0;
      nbPos, validSplit := 0, false;
      SliceLength(m, start, first, n);
      RearrangedSame(start, first, n);
      while !validSplit && curAxis != 3
        invariant curAxis <= 3
        invariant Rearranged(start, indices[..], first, n) && SliceInMesh(m, indices[..], first, n)
        invariant forall k :: 0 <= k < curAxis ==> OneSided(m, start, first, n, mBV, sorted[k])
        invariant validSplit ==> curAxis < 3 && 0 < nbPos < n && SplitAlong(m, indices[..], first, n, mBV, sorted[curAxis], nbPos)
        decreases !validSplit, 3 - curAxis
      {
        ghost var before := indices[..];
        nbPos := Split(sorted[curAxis], builder, indices);
        RearrangedThen(m, start, before, indices[..], first, n);
        if nbPos == 0 || nbPos == mNbPrimitives {
          OneSidedFrom(m, start, indices[..], first, n, mBV, sorted[curAxis], nbPos);
          curAxis := curAxis + 1;
        } else {
          validSplit := true;
        }
      }
      if validSplit {
        AxesBefore(m, start, first, n, mBV, sorted, curAxis);
      }
    }

    /** The splitting values of one primitive of the slice. */
    function SplittingPoint(builder: AABBTreeBuilder, indices: array<nat>, i: nat): (p: Point)
      requires ValidMesh(builder.mesh) && SliceInMesh(builder.mesh, indices[..], mFirst, mNbPrimitives) && i < mNbPrimitives
      reads this, indices
      ensures forall axis: nat :: axis < 3 ==> Coord(p, axis) == Values(builder.mesh, indices[..][mFirst..mFirst + mNbPrimitives], axis)[i]
    {
      var m, ix, first, n := builder.mesh, indices[..], mFirst, mNbPrimitives;
      SliceAt(m, ix, first, n, i);
      var index := indices[mFirst + i];
      assert forall axis: nat :: axis < 3 ==> GetSplittingValue(m, index, axis) == Values(m, ix[first..first + n], axis)[i] by {
        forall axis: nat | axis < 3 ensures GetSplittingValue(m, index, axis) == Values(m, ix[first..first + n], axis)[i] {
          ValuesAt(m, ix, first, n, i, axis);
          CentroidValue(m, index, axis);
        }
      }
      Point(GetSplittingValue(m, index, 0), GetSplittingValue(m, index, 1), GetSplittingValue(m, index, 2))
    }

    method Means(builder: AABBTreeBuilder, indices: array<nat>, ghost s: seq<nat>) returns (means: Point)
      requires ValidMesh(builder.mesh) && 2 <= mNbPrimitives && SliceInMesh(builder.mesh, indices[..], mFirst, mNbPrimitives)
      requires s == indices[..][mFirst..mFirst + mNbPrimitives]
      ensures means == Point(Mean(Values(builder.mesh, s, 0)), Mean(Values(builder.mesh, s, 1)), Mean(Values(builder.mesh, s, 2)))
    {
      assert InMesh(builder.mesh, s) && |s| == mNbPrimitives;
      ghost var xs, ys, zs := Values(builder.mesh, s, 0), Values(builder.mesh, s, 1), Values(builder.mesh, s, 2);
      assert Total(xs, 0) == 0.0 && Total(ys, 0) == 0.0 && Total(zs, 0) == 0.0;
      hide SplittingPoint, Values, SliceInMesh, InMesh, ValidMesh, Coord, Mean, Scale, Add, Total;
      means := Point(0.0, 0.0, 0.0);
      for i := 0 to mNbPrimitives
        invariant means == Point(Total(xs, i), Total(ys, i), Total(zs, i))
      {
        var c := SplittingPoint(builder, indices, i);
        Coordinates(c);
        NextTotals(xs, ys, zs, i, c);
        means := Add(means, c);
      }
      MeanPoint(xs, ys, zs);
      means := Scale(1.0 / mNbPrimitives as real, means);
    }

    method Variances(builder: AABBTreeBuilder, indices: array<nat>, means: Point, ghost s: seq<nat>) returns (vars: Point)
      requires ValidMesh(builder.mesh) && 2 <= mNbPrimitives && SliceInMesh(builder.mesh, indices[..], mFirst, mNbPrimitives)
      requires s == indices[..][mFirst..mFirst + mNbPrimitives]
      requires means == Point(Mean(Values(builder.mesh, s, 0)), Mean(Values(builder.mesh, s, 1)), Mean(Values(builder.mesh, s, 2)))
      ensures vars == Point(Variance(Values(builder.mesh, s, 0)), Variance(Values(builder.mesh, s, 1)), Variance(Values(builder.mesh, s, 2)))
    {
      assert InMesh(builder.mesh, s) && |s| == mNbPrimitives;
      ghost var xs, ys, zs := Values(builder.mesh, s, 0), Values(builder.mesh, s, 1), Values(builder.mesh, s, 2);
      assert SquaredFrom(xs, 0, means.x) == 0.0 && SquaredFrom(ys, 0, means.y) == 0.0 && SquaredFrom(zs, 0, means.z) == 0.0;
      hide SplittingPoint, Values, SliceInMesh, InMesh, Square, ValidMesh, Mean, Variance, Coord, Scale, Add, SquaredFrom;
      vars := Point(0.0, 0.0, 0.0);
      for i := 0 to mNbPrimitives
        invariant vars == Point(SquaredFrom(xs, i, means.x), SquaredFrom(ys, i, means.y), SquaredFrom(zs, i, means.z))
      {
        var c := SplittingPoint(builder, indices, i);
        Coordinates(c);
        NextSquares(xs, ys, zs, i, means, c);
        vars := Add(vars, Point(Square(c.x - means.x), Square(c.y - means.y), Square(c.z - means.z)));
      }
      VariancePoint(xs, ys, zs);
      vars := Scale(1.0 / (mNbPrimitives - 1) as real, vars);
    }

    /** The first axis along which the primitives' middles are spread the most. */
    method VarianceAxis(builder: AABBTreeBuilder, indices: array<nat>) returns (axis: nat)
      requires ValidMesh(builder.mesh) && 2 <= mNbPrimitives && SliceInMesh(builder.mesh, indices[..], mFirst, mNbPrimitives)
      ensures axis < 3 && GreatestSpread(builder.mesh, indices[..][mFirst..mFirst + mNbPrimitives], axis)
    {
      hide ValidMesh, Variance, PairSquares, Centroid;
      ghost var m, s := builder.mesh, indices[..][mFirst..mFirst + mNbPrimitives];
      var means := Means(builder, indices, s);
      var vars := Variances(builder, indices, means, s);
      axis := LargestAxis(vars);
      forall a: nat | a < 3
        ensures Coord(vars, a) == Variance(Values(m, s, a))
        ensures Variance(Values(m, s, a)) < Variance(Values(m, s, axis)) <==> PairSquares(Values(m, s, a), |s|) < PairSquares(Values(m, s, axis), |s|)
        ensures Variance(Values(m, s, axis)) < Variance(Values(m, s, a)) <==> PairSquares(Values(m, s, axis), |s|) < PairSquares(Values(m, s, a), |s|)
      {
        VarianceOrder(Values(m, s, a), Values(m, s, axis));
        VarianceOrder(Values(m, s, axis), Values(m, s, a));
      }
    }

    /** A node just created for a slice: no children yet. */
    ghost predicate Unbuilt(first: nat, n: nat)
      reads this
    {
      mP == null && mN == null && repr == {this} && mFirst == first && mNbPrimitives == n
    }

    /** Cuts the slice and creates the two children, or leaves the node a leaf: by size, by
        the user's limit, for want of a known rule, or when an incomplete tree is allowed
        and the rules found no cut. */
    method Subdivide(builder: AABBTreeBuilder, indices: array<nat>)
      requires Unbuilt(mFirst, mNbPrimitives)
      requires ValidMesh(builder.mesh) && 1 <= mNbPrimitives && SliceInMesh(builder.mesh, indices[..], mFirst, mNbPrimitives)
      modifies this`mP, this`mN, indices, builder
      ensures Rearranged(old(indices[..]), indices[..], mFirst, mNbPrimitives)
      ensures mP == null <==> mN == null
      ensures mP == null ==> builder.mCount == old(builder.mCount)
      ensures mP != null ==>
        && fresh(mP) && fresh(mN) && mP != mN && 0 < mP.mNbPrimitives < mNbPrimitives
        && mP.Unbuilt(mFirst, mP.mNbPrimitives)
        && mN.Unbuilt(mFirst + mP.mNbPrimitives, mNbPrimitives - mP.mNbPrimitives)
        && builder.mCount == old(builder.mCount) + 2
      ensures mP != null ==>
        CutAsChosen(builder.mRules, builder.mLimit, builder.mesh, old(indices[..]), indices[..], mFirst, mNbPrimitives, mBV, mP.mNbPrimitives)
      ensures mP == null ==> UncutAsChosen(builder.mRules, builder.mLimit, builder.mesh, old(indices[..]), indices[..], mFirst, mNbPrimitives, mBV)
    {
      hide Rearranged, SliceInMesh, ValidMesh, KnownRule, Chosen;
      SliceLength(builder.mesh, indices[..], mFirst, mNbPrimitives);
      RearrangedSame(indices[..], mFirst, mNbPrimitives);
      if mNbPrimitives == 1 || mNbPrimitives <= builder.mLimit || !KnownRule(builder.mRules) {
        return;
      }
      var nbPos, validSplit := ChooseSplit(builder, indices);
      assert validSplit || builder.mRules.complete ==>
        CutAsChosen(builder.mRules, builder.mLimit, builder.mesh, old(indices[..]), indices[..], mFirst, mNbPrimitives, mBV, if validSplit then nbPos else mNbPrimitives / 2);
      hide CutAsChosen;
      if !validSplit {
        if builder.mRules.complete {
          builder.mNbInvalidSplits := builder.mNbInvalidSplits + 1;
          nbPos := mNbPrimitives / 2;
        } else {
          return;
        }
      }
      builder.mCount := builder.mCount + 2;
      CreateChildren(nbPos);
    }

    /** Two children sharing the node's slice, cut after `nbPos` entries. */
    method CreateChildren(nbPos: nat)
      requires 0 < nbPos < mNbPrimitives
      modifies this`mP, this`mN
      ensures mP != null && mN != null && fresh(mP) && fresh(mN) && mP != mN && mP.mNbPrimitives == nbPos
      ensures mP.Unbuilt(mFirst, nbPos) && mN.Unbuilt(mFirst + nbPos, mNbPrimitives - nbPos)
    {
      var p := new AABBTreeNode();
      var q := new AABBTreeNode();
      p.mFirst, p.mNbPrimitives := mFirst, nbPos;
      q.mFirst, q.mNbPrimitives := mFirst + nbPos, mNbPrimitives - nbPos;
      mP, mN := p, q;
    }

    /** The children represent `tp` and `tq` over adjacent slices covering this node's. */
    ghost predicate Children(tp: Tree, tq: Tree, ix: seq<nat>)
      reads `mP, `mN, `mFirst, `mNbPrimitives, mP, mN, if mP != null then mP.repr else {}, if mN != null then mN.repr else {}
    {
      && mP != null && mN != null && this !in mP.repr && this !in mN.repr && mP.repr !! mN.repr
      && mP.mFirst == mFirst && mN.mFirst == mFirst + mP.mNbPrimitives
      && mNbPrimitives == mP.mNbPrimitives + mN.mNbPrimitives && mFirst + mNbPrimitives <= |ix|
      && mP.Represents(tp, ix) && mN.Represents(tq, ix)
    }

    lemma Attach(tp: Tree, tq: Tree, ix: seq<nat>)
      requires Children(tp, tq, ix) && repr == {this} + mP.repr + mN.repr
      ensures Represents(Node(mBV, tp, tq), ix)
    {}

    /** The recursion step on the two children a subdivision created. */
    method BuildChildren(builder: AABBTreeBuilder, indices: array<nat>) returns (ghost tp: Tree, ghost tq: Tree, ghost half: seq<nat>)
      requires mP != null && mN != null && mP != mN && mP != this && mN != this
      requires 0 < mP.mNbPrimitives < mNbPrimitives && mP.Unbuilt(mFirst, mP.mNbPrimitives)
      requires mN.Unbuilt(mFirst + mP.mNbPrimitives, mNbPrimitives - mP.mNbPrimitives)
      requires ValidMesh(builder.mesh) && SliceInMesh(builder.mesh, indices[..], mFirst, mNbPrimitives)
      modifies mP, mN, indices, builder
      decreases mNbPrimitives, 0
      ensures fresh(mP.repr - {mP}) && fresh(mN.repr - {mN}) && Children(tp, tq, indices[..])
      ensures Rearranged(old(indices[..]), indices[..], mFirst, mNbPrimitives)
      ensures Built(builder.mesh, tp) && Built(builder.mesh, tq)
      ensures builder.mCount == old(builder.mCount) + Count(tp) + Count(tq) - 2
      ensures RuleTree(builder.mRules, builder.mLimit, builder.mesh, old(indices[..]), mFirst, tp) && Rearranged(old(indices[..]), half, mFirst, |Prims(tp)|)
      ensures RuleTree(builder.mRules, builder.mLimit, builder.mesh, half, mFirst + |Prims(tp)|, tq) && |Prims(tp)| == mP.mNbPrimitives
      ensures mP.mNbPrimitives == old(mP.mNbPrimitives)
    {
      hide Rearranged, Built, Complete, Count, Prims, SliceInMesh, Represents, ValidMesh, RuleTree;
      ghost var nbPos, first, n := mP.mNbPrimitives, mFirst, mNbPrimitives;
      ghost var cut := indices[..];
      assert first + n <= indices.Length by { SliceLength(builder.mesh, cut, first, n); }
      InMeshPieces(builder.mesh, cut, first, nbPos, n);
      tp := mP.BuildHierarchy(builder, indices);
      half := indices[..];
      mP.PrimsAreSlice(tp, half);
      FirstPieceOnly(builder.mesh, cut, half, first, nbPos, n);
      tq := mN.BuildHierarchy(builder, indices);
      ghost var done := indices[..];
      Rejoin(cut, half, done, first, nbPos, n);
      mP.SliceOnly(tp, half, done);
    }

    /** Top-down construction.  The result is a tree whose boxes are tight for the final
        contents of the shared array, whatever its descendants reordered. */
    method BuildHierarchy(builder: AABBTreeBuilder, indices: array<nat>) returns (ghost t: Tree)
      requires Unbuilt(mFirst, mNbPrimitives) && 1 <= mNbPrimitives
      requires ValidMesh(builder.mesh) && SliceInMesh(builder.mesh, indices[..], mFirst, mNbPrimitives)
      modifies this, indices, builder
      decreases mNbPrimitives, 1
      ensures mFirst == old(mFirst) && mNbPrimitives == old(mNbPrimitives)
      ensures fresh(repr - {this}) && Represents(t, indices[..])
      ensures Rearranged(old(indices[..]), indices[..], mFirst, mNbPrimitives)
      ensures Built(builder.mesh, t)
      ensures builder.mCount == old(builder.mCount) + Count(t) - 1
      ensures RuleTree(builder.mRules, builder.mLimit, builder.mesh, old(indices[..]), mFirst, t)
    {
      hide Rearranged, ValidMesh, SliceInMesh, SliceTight, Represents, Built, Children, KnownRule, CutAsChosen, UncutAsChosen, RuleTree;
      var first, n := mFirst, mNbPrimitives;
      ghost var m, start := builder.mesh, indices[..];
      SliceLength(m, start, first, n);
      mBV := builder.ComputeGlobalBox(indices, first, n);
      assert indices[..] == start;
      Subdivide(builder, indices);
      ghost var cut := indices[..];
      KeepTight(m, start, cut, first, n, mBV);
      if mP == null {
        SliceLength(m, cut, first, n);
        t := Leaf(mBV, cut[first..first + n]);
        LeafRepresents(cut);
        BuiltLeaf(m, mBV, cut, first, n);
        RuleLeaf(builder.mRules, builder.mLimit, m, start, cut, first, n, mBV);
      } else {
        ghost var tp, tq, half := BuildChildren(builder, indices);
        repr := {this} + mP.repr + mN.repr;
        Attach(tp, tq, indices[..]);
        t := Node(mBV, tp, tq);
        PrimsAreSlice(t, indices[..]);
        NodeFinished(builder.mRules, builder.mLimit, m, start, cut, half, indices[..], first, n, t);
      }
    }

    lemma LeafRepresents(ix: seq<nat>)
      requires mP == null && mN == null && this in repr && mFirst + mNbPrimitives <= |ix|
      ensures Represents(Leaf(mBV, ix[mFirst..mFirst + mNbPrimitives]), ix)
    {}
  }

  /** What every finished subtree satisfies. */
  ghost predicate Built(m: Mesh, t: Tree)
    requires ValidMesh(m)
  {
    TightTree(m, t) && NoEmptyLeaf(t)
  }

  lemma BuiltLeaf(m: Mesh, box: AABB, ix: seq<nat>, first: nat, n: nat)
    requires ValidMesh(m) && 1 <= n && SliceTight(m, ix, first, n, box)
    ensures Built(m, Leaf(box, ix[first..first + n]))
  {
    hide TightBox, ValidMesh;
  }

  lemma BuiltNode(m: Mesh, box: AABB, tp: Tree, tq: Tree, ix: seq<nat>, first: nat, n: nat)
    requires ValidMesh(m) && Built(m, tp) && Built(m, tq)
    requires SliceTight(m, ix, first, n, box) && ix[first..first + n] == Prims(Node(box, tp, tq))
    ensures Built(m, Node(box, tp, tq))
  {
    hide TightBox, ValidMesh;
  }

  /** A cut slice and two finished children make a finished node. */
  lemma NodeFinished(rules: Rules, limit: nat, m: Mesh, start: seq<nat>, cut: seq<nat>, half: seq<nat>, done: seq<nat>, first: nat, n: nat, t: Tree)
    requires ValidMesh(m) && t.Node? && Built(m, t.pos) && Built(m, t.neg)
    requires SliceTight(m, start, first, n, t.box) && first + n <= |done| && Prims(t) == done[first..first + n]
    requires Rearranged(start, cut, first, n) && Rearranged(cut, done, first, n)
    requires SliceInMesh(m, start, first, n) && CutAsChosen(rules, limit, m, start, cut, first, n, t.box, |Prims(t.pos)|)
    requires RuleTree(rules, limit, m, cut, first, t.pos)
    requires Rearranged(cut, half, first, |Prims(t.pos)|) && RuleTree(rules, limit, m, half, first + |Prims(t.pos)|, t.neg)
    ensures Rearranged(start, done, first, n) && Built(m, t) && RuleTree(rules, limit, m, start, first, t)
  {
    hide Rearranged, ValidMesh, SliceInMesh, SliceTight, Built, CutAsChosen, RuleTree, Prims;
    RearrangedTwice(start, cut, done, first, n);
    KeepTight(m, start, done, first, n, t.box);
    BuiltNode(m, t.box, t.pos, t.neg, done, first, n);
    RuleNode(rules, limit, m, start, cut, half, first, n, t);
  }

  /** A slice's tight box stays its tight box when the slice is rearranged. */
  lemma KeepTight(m: Mesh, before: seq<nat>, after: seq<nat>, first: nat, n: nat, box: AABB)
    requires Rearranged(before, after, first, n) && ValidMesh(m) && SliceTight(m, before, first, n, box)
    ensures SliceTight(m, after, first, n, box) && SliceInMesh(m, after, first, n)
  {
    hide TightBox;
    TightBoxReordered(m, before[first..first + n], after[first..first + n], box);
  }

  lemma FirstPieceOnly(m: Mesh, cut: seq<nat>, half: seq<nat>, first: nat, nbPos: nat, n: nat)
    requires nbPos <= n && first + n <= |cut| && Rearranged(cut, half, first, nbPos)
    ensures |half| == |cut| && half[first + nbPos..first + n] == cut[first + nbPos..first + n]
    ensures SliceInMesh(m, cut, first + nbPos, n - nbPos) ==> SliceInMesh(m, half, first + nbPos, n - nbPos)
  {
    assert half[first + nbPos..][..n - nbPos] == half[first + nbPos..first + n];
    assert cut[first + nbPos..][..n - nbPos] == cut[first + nbPos..first + n];
  }

  /** Two rearranged adjacent pieces make a rearranged whole. */
  lemma Rejoin(cut: seq<nat>, half: seq<nat>, done: seq<nat>, first: nat, nbPos: nat, n: nat)
    requires nbPos <= n && first + n <= |cut|
    requires Rearranged(cut, half, first, nbPos) && Rearranged(half, done, first + nbPos, n - nbPos)
    ensures Rearranged(cut, done, first, n)
    ensures half[first..first + nbPos] == done[first..first + nbPos]
    ensures done[first..first + nbPos] + done[first + nbPos..first + n] == done[first..first + n]
  {
    FirstPieceOnly(Mesh([], []), cut, half, first, nbPos, n);
    assert half[..first + nbPos][first..] == half[first..first + nbPos];
    assert done[..first + nbPos][first..] == done[first..first + nbPos];
    assert done[first..first + n] == done[first..first + nbPos] + done[first + nbPos..first + n];
    assert cut[first..first + n] == cut[first..first + nbPos] + cut[first + nbPos..first + n];
    assert half[..first + nbPos][..first] == half[..first] && done[..first + nbPos][..first] == done[..first];
    assert half[first + nbPos..][n - nbPos..] == half[first + n..] && cut[first + nbPos..][n - nbPos..] == cut[first + n..];
  }

  lemma InMeshPieces(m: Mesh, ix: seq<nat>, first: nat, nbPos: nat, n: nat)
    requires nbPos <= n && SliceInMesh(m, ix, first, n)
    ensures SliceInMesh(m, ix, first, nbPos) && SliceInMesh(m, ix, first + nbPos, n - nbPos)
  {
    var l, r, w := ix[first..first + nbPos], ix[first + nbPos..first + n], ix[first..first + n];
    assert w == l + r;
    forall i | i in l ensures i < |m.faces| { assert i in w; }
    forall i | i in r ensures i < |m.faces| { assert i in w; }
  }

  lemma SubSlice(a: seq<nat>, b: seq<nat>, lo: nat, len: nat, lo': nat, len': nat)
    requires |a| == |b| && lo <= lo' && lo' + len' <= lo + len <= |a| && a[lo..lo + len] == b[lo..lo + len]
    ensures a[lo'..lo' + len'] == b[lo'..lo' + len']
  {
    forall k | lo <= k < lo + len ensures a[k] == b[k] {
      assert a[lo..lo + len][k - lo] == b[lo..lo + len][k - lo];
    }
  }

  lemma NextTotals(xs: seq<real>, ys: seq<real>, zs: seq<real>, i: nat, c: Point)
    requires i < |xs| == |ys| == |zs| && c == Point(xs[i], ys[i], zs[i])
    ensures Add(Point(Total(xs, i), Total(ys, i), Total(zs, i)), c) == Point(Total(xs, i + 1), Total(ys, i + 1), Total(zs, i + 1))
  {}

  lemma NextSquares(xs: seq<real>, ys: seq<real>, zs: seq<real>, i: nat, p: Point, c: Point)
    requires i < |xs| == |ys| == |zs| && c == Point(xs[i], ys[i], zs[i])
    ensures Add(Point(SquaredFrom(xs, i, p.x), SquaredFrom(ys, i, p.y), SquaredFrom(zs, i, p.z)), Point(Square(c.x - p.x), Square(c.y - p.y), Square(c.z - p.z))) ==
      Point(SquaredFrom(xs, i + 1, p.x), SquaredFrom(ys, i + 1, p.y), SquaredFrom(zs, i + 1, p.z))
  {
    hide Square;
  }

  lemma MeanPoint(xs: seq<real>, ys: seq<real>, zs: seq<real>)
    requires 0 < |xs| == |ys| == |zs|
    ensures Scale(1.0 / |xs| as real, Point(Total(xs, |xs|), Total(ys, |xs|), Total(zs, |xs|))) == Point(Mean(xs), Mean(ys), Mean(zs))
  {
    hide Total;
  }

  lemma VariancePoint(xs: seq<real>, ys: seq<real>, zs: seq<real>)
    requires 2 <= |xs| == |ys| == |zs|
    ensures Scale(1.0 / (|xs| - 1) as real, Point(SquaredFrom(xs, |xs|, Mean(xs)), SquaredFrom(ys, |xs|, Mean(ys)), SquaredFrom(zs, |xs|, Mean(zs)))) ==
      Point(Variance(xs), Variance(ys), Variance(zs))
  {
    hide SquaredFrom, Mean;
  }

  lemma Coordinates(p: Point)
    ensures Coord(p, 0) == p.x && Coord(p, 1) == p.y && Coord(p, 2) == p.z
  {}

  /** The three axes, equally large ones in their order. */
  predicate AxisOrder(keys: Point, s: seq<nat>) {
    && |s| == 3 && s[0] < 3 && s[1] < 3 && s[2] < 3 && s[0] != s[1] && s[1] != s[2] && s[0] != s[2]
    && (Coord(keys, s[0]) == Coord(keys, s[1]) ==> s[0] < s[1])
    && (Coord(keys, s[1]) == Coord(keys, s[2]) ==> s[1] < s[2])
    && (Coord(keys, s[0]) == Coord(keys, s[2]) ==> s[0] < s[2])
  }

  /** Bubble sort of the three axes by decreasing extent. */
  method SortedAxes(keys: Point) returns (sorted: seq<nat>)
    ensures AxisOrder(keys, sorted)
    ensures Precedes(keys, sorted[0], sorted[1]) && Precedes(keys, sorted[1], sorted[2]) && Precedes(keys, sorted[0], sorted[2])
  {
    hide Coord;
    sorted := [0, 1, 2];
    for j := 0 to 3
      invariant AxisOrder(keys, sorted)
      invariant j >= 1 ==> Coord(keys, sorted[2]) <= Coord(keys, sorted[0]) && Coord(keys, sorted[2]) <= Coord(keys, sorted[1])
      invariant j >= 2 ==> Coord(keys, sorted[0]) >= Coord(keys, sorted[1])
    {
      sorted := SwapIfSmaller(keys, sorted, 0);
      sorted := SwapIfSmaller(keys, sorted, 1);
    }
  }

  method SwapIfSmaller(keys: Point, sorted: seq<nat>, i: nat) returns (sorted': seq<nat>)
    requires AxisOrder(keys, sorted) && i < 2
    ensures AxisOrder(keys, sorted')
    ensures sorted' == if Coord(keys, sorted[i]) < Coord(keys, sorted[i + 1]) then sorted[i := sorted[i + 1]][i + 1 := sorted[i]] else sorted
  {
    sorted' := sorted;
    if Coord(keys, sorted[i]) < Coord(keys, sorted[i + 1]) {
      sorted' := sorted[i := sorted[i + 1]][i + 1 := sorted[i]];
    }
  }

  function Iota(n: nat): seq<nat> {
    seq(n, i => i)
  }

  lemma AllInMesh(m: Mesh)
    ensures SliceInMesh(m, Iota(|m.faces|), 0, |m.faces|)
  {
    assert Iota(|m.faces|)[0..|m.faces|] == Iota(|m.faces|);
  }

  lemma WholeSlice(ix: seq<nat>, n: nat)
    requires Rearranged(Iota(n), ix, 0, n)
    ensures |ix| == n && ix[0..0 + n] == ix && multiset(ix) == multiset(Iota(n))
  {
    assert Iota(n)[0..n] == Iota(n) && ix[0..n] == ix;
  }

  lemma BuiltHasNoEmptyLeaf(m: Mesh, t: Tree)
    requires ValidMesh(m) && Built(m, t)
    ensures NoEmptyLeaf(t)
  {}

  /** In the sorted order only earlier axes precede. */
  lemma AxesBefore(m: Mesh, before: seq<nat>, first: nat, n: nat, box: AABB, sorted: seq<nat>, cur: nat)
    requires ValidMesh(m) && cur < 3 && AxisOrder(GetExtents(box), sorted)
    requires var keys := GetExtents(box); Precedes(keys, sorted[0], sorted[1]) && Precedes(keys, sorted[1], sorted[2]) && Precedes(keys, sorted[0], sorted[2])
    requires forall k :: 0 <= k < cur ==> OneSided(m, before, first, n, box, sorted[k])
    ensures BetterOneSided(m, before, first, n, box, sorted[cur])
  {
    hide OneSided, Coord, ValidMesh;
    forall a: nat | a < 3 && Precedes(GetExtents(box), a, sorted[cur]) ensures OneSided(m, before, first, n, box, a) {
      if a == sorted[0] {
        assert cur != 0;
      } else if a == sorted[1] {
        assert 1 < cur;
      }
    }
  }

  lemma OneLeaf(t: Tree)
    requires t.Leaf?
    ensures Complete(t) <==> |Prims(t)| == 1
  {}

  class AABBTree {
    var root: AABBTreeNode
    var mIndices: array<nat>
    var mTotalNbNodes: nat

    constructor ()
    {
      root := new AABBTreeNode();
      mIndices := new nat[0];
      mTotalNbNodes := 0;
    }

    /** The tree built over a mesh: the index array ends as a permutation of all primitives,
        equal to the depth-first leaf order, and every box is tight. */
    ghost predicate Holds(m: Mesh, t: Tree)
      requires ValidMesh(m)
      reads this, root, root.repr, mIndices
    {
      && root.mFirst == 0 && root.mNbPrimitives == mIndices.Length == |m.faces|
      && root.Represents(t, mIndices[..])
      && Prims(t) == mIndices[..]
      && multiset(mIndices[..]) == multiset(Iota(|m.faces|))
      && Built(m, t) && mTotalNbNodes == Count(t)
    }

    /** Build over all the triangles of the builder's mesh; fails exactly on an empty mesh. */
    method Build(builder: AABBTreeBuilder) returns (ok: bool, ghost t: Tree)
      requires ValidMesh(builder.mesh)
      modifies this, builder
      ensures ok <==> |builder.mesh.faces| > 0
      ensures ok ==> Holds(builder.mesh, t)
      ensures ok ==> RuleTree(builder.mRules, builder.mLimit, builder.mesh, Iota(|builder.mesh.faces|), 0, t)
      ensures ok && builder.mRules.complete && KnownRule(builder.mRules) && builder.mLimit <= 1 ==>
        Complete(t) && mTotalNbNodes == 2 * |builder.mesh.faces| - 1
      ensures ok && !KnownRule(builder.mRules) ==> (Complete(t) <==> |builder.mesh.faces| == 1)
    {
      hide AABBTreeNode.Represents, Built, Rearranged, SliceInMesh, ValidMesh, Complete, NoEmptyLeaf, TightTree, KnownRule, RuleTree;
      var n := |builder.mesh.faces|;
      t := Leaf(AABB(Point(0.0, 0.0, 0.0), Point(0.0, 0.0, 0.0)), []);
      if n == 0 {
        return false, t;
      }
      builder.mCount := 1;
      builder.mNbInvalidSplits := 0;
      mIndices := IdentityIndices(n);
      AllInMesh(builder.mesh);
      root := new AABBTreeNode();
      root.mFirst, root.mNbPrimitives := 0, n;
      assert root.Unbuilt(0, n);
      t := root.BuildHierarchy(builder, mIndices);
      mTotalNbNodes := builder.mCount;
      WholeSlice(mIndices[..], n);
      root.PrimsAreSlice(t, mIndices[..]);
      BuiltHasNoEmptyLeaf(builder.mesh, t);
      if KnownRule(builder.mRules) && builder.mRules.complete && builder.mLimit <= 1 {
        RuleTreeComplete(builder.mRules, builder.mLimit, builder.mesh, Iota(n), 0, t);
      }
      if !KnownRule(builder.mRules) { NoRuleNoCut(builder.mRules, builder.mLimit, builder.mesh, Iota(n), 0, t); }
      CompleteIffCount(t);
      if t.Leaf? { OneLeaf(t); }
      return true, t;
    }

    /** The initial permutation: every primitive at its own index. */
    static method IdentityIndices(n: nat) returns (indices: array<nat>)
      ensures fresh(indices) && indices[..] == Iota(n)
    {
      indices := new nat[n];
      for i := 0 to n
        invariant forall k :: 0 <= k < i ==> indices[k] == k
      {
        indices[i] := i;
      }
    }

    /** Depth by in-place counters, incremented on entry and decremented by the caller. */
    method ComputeDepth(ghost t: Tree) returns (depth: nat)
      requires root.Represents(t, mIndices[..])
      ensures HasPath(t, depth) && forall n :: HasPath(t, n) ==> n <= depth
    {
      var current := 0;
      depth, current := UpdateDepth(root, 0, 0, t, mIndices[..]);
      forall n: int | true ensures HasPath(t, depth) && (HasPath(t, n) ==> n <= depth) { DepthIsLongest(t, n); }
    }

    static method UpdateDepth(node: AABBTreeNode?, depth: nat, current: nat, ghost t: Tree, ghost ix: seq<nat>) returns (depth': nat, current': nat)
      requires node != null ==> node.Represents(t, ix)
      ensures node == null ==> depth' == depth && current' == current
      ensures node != null ==> current' == current + 1 && depth' == if depth < current + Depth(t) then current + Depth(t) else depth
      decreases if node == null then 0 else 1, t
    {
      depth', current' := depth, current;
      if node == null {
        return;
      }
      current' := current' + 1;
      if current' > depth' {
        depth' := current';
      }
      if node.mP != null {
        depth', current' := UpdateDepth(node.mP, depth', current', t.pos, ix);
        current' := current' - 1;
      }
      if node.mN != null {
        depth', current' := UpdateDepth(node.mN, depth', current', t.neg, ix);
        current' := current' - 1;
      }
    }
  }
}
