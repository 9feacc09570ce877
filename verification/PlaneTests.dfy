/** Plane-set tests (OPC_PlanesAABBOverlap.h, OPC_PlanesTriOverlap.h): mask-driven loops. */
module PlaneTests {
  import opened Geometry
  import opened ClipMask

  datatype Plane = Plane(n: Point, d: real)

  function Distance(p: Plane, v: Point): real {
    Dot(p.n, v) + p.d
  }

  /** The whole box is strictly on the positive (culled) side. */
  predicate BoxOutside(p: Plane, b: CollisionAABB) {
    Radius(p.n, b.mExtents) < Distance(p, b.mCenter)
  }

  /** Some part of the box may be on the positive side. */
  predicate BoxStraddles(p: Plane, b: CollisionAABB) {
    -Radius(p.n, b.mExtents) < Distance(p, b.mCenter)
  }

  predicate TriOutside(p: Plane, t: Triangle) {
    Distance(p, t.v0) > 0.0 && Distance(p, t.v1) > 0.0 && Distance(p, t.v2) > 0.0
  }

  /** No active plane has the box entirely on its positive side. */
  predicate BoxPasses(planes: seq<Plane>, b: CollisionAABB, mask: nat) {
    forall i :: 0 <= i < |planes| && Active(mask, i) ==> !BoxOutside(planes[i], b)
  }

  /** No active plane has all three vertices on its positive side. */
  predicate TriPasses(planes: seq<Plane>, t: Triangle, mask: nat) {
    forall i :: 0 <= i < |planes| && Active(mask, i) ==> !TriOutside(planes[i], t)
  }

  /** The child mask keeps exactly the active planes the box straddles. */
  predicate Narrowed(planes: seq<Plane>, b: CollisionAABB, mask: nat, out: nat) {
    MaskFor(out, |planes|) &&
    forall i :: 0 <= i < |planes| ==> (Active(out, i) <==> Active(mask, i) && BoxStraddles(planes[i], b))
  }

  /** Early exit on a plane the box is entirely outside of; otherwise the child mask. The
      doubling never wraps and the plane pointer never leaves the array. */
  method PlanesAABBOverlap(planes: seq<Plane>, b: CollisionAABB, inMask: udword) returns (overlap: bool, outMask: nat)
    requires MaskFor(inMask, |planes|)
    ensures overlap <==> BoxPasses(planes, b, inMask)
    ensures overlap ==> Narrowed(planes, b, inMask, outMask)
  {
    var Mask: udword := 1;
    var TmpOutClipMask: nat := 0;
    var p := 0;
    outMask := 0;
    hide BoxOutside, BoxStraddles, BitAnd, BitOr;
    while Mask <= inMask
      invariant p <= |planes| && Mask == Pow2(p)
      invariant TmpOutClipMask < Pow2(p)
      invariant forall i :: 0 <= i < p && Active(inMask, i) ==> !BoxOutside(planes[i], b)
      invariant forall i :: 0 <= i < p ==> (Active(TmpOutClipMask, i) <==> Active(inMask, i) && BoxStraddles(planes[i], b))
      decreases |planes| - p
    {
      NoWrap(inMask, |planes|, p);
      AndIsActive(inMask, p);
      ClearAbove(TmpOutClipMask, p, p);
      PowerMonotone(p, p + 1);
      if BitAnd(inMask, Mask) != 0 {
        var NP := Radius(planes[p].n, b.mExtents);
        var MP := Distance(planes[p], b.mCenter);
        assert BoxOutside(planes[p], b) <==> NP < MP by { SideOf(planes[p], b); }
        assert BoxStraddles(planes[p], b) <==> -NP < MP by { SideOf(planes[p], b); }
        if NP < MP {
          return false, outMask;
        }
        if -NP < MP {
          forall i | 0 <= i <= p
            ensures Active(BitOr(TmpOutClipMask, Mask), i) <==> i == p || Active(TmpOutClipMask, i)
          {
            SetBit(TmpOutClipMask, p, i);
          }
          OrBelow(TmpOutClipMask, Mask, p + 1);
          TmpOutClipMask := BitOr(TmpOutClipMask, Mask);
        }
      }
      Mask := (Mask + Mask) % 0x1_0000_0000;
      p := p + 1;
    }
    forall i | p <= i < |planes| ensures !Active(inMask, i) && !Active(TmpOutClipMask, i) {
      ClearAbove(inMask, p, i);
      ClearAbove(TmpOutClipMask, p, i);
    }
    PowerMonotone(p, |planes|);
    outMask := TmpOutClipMask;
    return true, outMask;
  }

  lemma SideOf(p: Plane, b: CollisionAABB)
    ensures BoxOutside(p, b) <==> Radius(p.n, b.mExtents) < Distance(p, b.mCenter)
    ensures BoxStraddles(p, b) <==> -Radius(p.n, b.mExtents) < Distance(p, b.mCenter)
  {}

  method PlanesTriOverlap(planes: seq<Plane>, t: Triangle, inMask: udword) returns (overlap: bool)
    requires MaskFor(inMask, |planes|)
    ensures overlap <==> TriPasses(planes, t, inMask)
  {
    var Mask: udword := 1;
    var p := 0;
    hide TriOutside, Distance, BitAnd;
    while Mask <= inMask
      invariant p <= |planes| && Mask == Pow2(p)
      invariant forall i :: 0 <= i < p && Active(inMask, i) ==> !TriOutside(planes[i], t)
      decreases |planes| - p
    {
      NoWrap(inMask, |planes|, p);
      AndIsActive(inMask, p);
      if BitAnd(inMask, Mask) != 0 {
        var d0, d1, d2 := Distance(planes[p], t.v0), Distance(planes[p], t.v1), Distance(planes[p], t.v2);
        TriSide(planes[p], t);
        if d0 > 0.0 && d1 > 0.0 && d2 > 0.0 {
          return false;
        }
      }
      Mask := (Mask + Mask) % 0x1_0000_0000;
      p := p + 1;
    }
    forall i | p <= i < |planes| ensures !Active(inMask, i) {
      ClearAbove(inMask, p, i);
    }
    return true;
  }

  lemma TriSide(p: Plane, t: Triangle)
    ensures TriOutside(p, t) <==> Distance(p, t.v0) > 0.0 && Distance(p, t.v1) > 0.0 && Distance(p, t.v2) > 0.0
  {}

  // -------------------------------------------------------------- soundness

  lemma DistanceSplit(p: Plane, v: Point, c: Point)
    ensures Distance(p, v) == Distance(p, c) + Dot(p.n, Sub(v, c))
  {}

  /** Vertices of a box's triangles stay within the box's range of distances. */
  lemma DistanceWithinBox(p: Plane, b: CollisionAABB, v: Point)
    requires BoxHas(b, v)
    ensures Distance(p, b.mCenter) - Radius(p.n, b.mExtents) <= Distance(p, v) <= Distance(p, b.mCenter) + Radius(p.n, b.mExtents)
  {
    hide Distance, Dot, Radius;
    DistanceSplit(p, v, b.mCenter);
    DotWithinRadius(p.n, Sub(v, b.mCenter), b.mExtents);
  }

  /** A culled box holds only culled triangles; a plane the box does not straddle culls no
      triangle of the box: its bit can be dropped for the whole subtree. */
  lemma BoxDecides(p: Plane, b: CollisionAABB, t: Triangle)
    requires BoxHasTriangle(b, t)
    ensures BoxOutside(p, b) ==> TriOutside(p, t)
    ensures !BoxStraddles(p, b) ==> !TriOutside(p, t)
  {
    hide Distance, Radius;
    DistanceWithinBox(p, b, t.v0);
    DistanceWithinBox(p, b, t.v1);
    DistanceWithinBox(p, b, t.v2);
  }

  /** Narrowing the mask at a box changes the verdict on none of its triangles. */
  lemma NarrowingKeepsVerdict(planes: seq<Plane>, b: CollisionAABB, t: Triangle, mask: nat, out: nat)
    requires BoxHasTriangle(b, t) && Narrowed(planes, b, mask, out)
    ensures TriPasses(planes, t, mask) <==> TriPasses(planes, t, out)
  {
    hide Active, BoxStraddles, TriOutside, BoxOutside;
    forall i | 0 <= i < |planes| ensures !BoxStraddles(planes[i], b) ==> !TriOutside(planes[i], t) {
      BoxDecides(planes[i], b, t);
    }
  }

  /** Pruning a culled box loses no triangle. */
  lemma CullingSound(planes: seq<Plane>, b: CollisionAABB, t: Triangle, mask: nat)
    requires BoxHasTriangle(b, t) && TriPasses(planes, t, mask)
    ensures BoxPasses(planes, b, mask)
  {
    hide Active, BoxStraddles, TriOutside, BoxOutside;
    forall i | 0 <= i < |planes| ensures BoxOutside(planes[i], b) ==> TriOutside(planes[i], t) {
      BoxDecides(planes[i], b, t);
    }
  }
}
