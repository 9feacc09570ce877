/** Points, boxes and triangles over the reals, and the separating-axis facts every
    overlap test rests on.  `|` and `^` of the source are `Dot` and `Cross`. */
module Geometry {
  import opened Reals

  datatype Point = Point(x: real, y: real, z: real)

  function Add(p: Point, q: Point): Point {
    Point(p.x + q.x, p.y + q.y, p.z + q.z)
  }

  function Sub(p: Point, q: Point): Point {
    Point(p.x - q.x, p.y - q.y, p.z - q.z)
  }

  function Scale(s: real, p: Point): Point {
    Point(s * p.x, s * p.y, s * p.z)
  }

  function Coord(p: Point, axis: nat): real {
    if axis == 0 then p.x else if axis == 1 then p.y else p.z
  }

  function Dot(p: Point, q: Point): real {
    p.x * q.x + p.y * q.y + p.z * q.z
  }

  function Cross(p: Point, q: Point): Point {
    Point(p.y * q.z - p.z * q.y, p.z * q.x - p.x * q.z, p.x * q.y - p.y * q.x)
  }

  function SquareGap(a: real, b: real): real {
    Product(a - b, a - b)
  }

  function SquareDistance(p: Point, q: Point): real {
    SquareGap(p.x, q.x) + SquareGap(p.y, q.y) + SquareGap(p.z, q.z)
  }

  // ---------------------------------------------------------------- triangles

  datatype Triangle = Triangle(v0: Point, v1: Point, v2: Point)

  predicate Bary(u: real, v: real) {
    0.0 <= u && 0.0 <= v && u + v <= 1.0
  }

  /** Weighted mean of three numbers with barycentric weights (1-u-v, u, v). */
  function Mix(u: real, v: real, a: real, b: real, c: real): real {
    (1.0 - u - v) * a + u * b + v * c
  }

  /** The point of a triangle's plane with barycentric coordinates (1-u-v, u, v). */
  function At(t: Triangle, u: real, v: real): Point {
    Point(Mix(u, v, t.v0.x, t.v1.x, t.v2.x), Mix(u, v, t.v0.y, t.v1.y, t.v2.y), Mix(u, v, t.v0.z, t.v1.z, t.v2.z))
  }

  ghost predicate InTriangle(t: Triangle, p: Point) {
    exists u, v :: Bary(u, v) && p == At(t, u, v)
  }

  /** The normal of the vertices' plane, twice the triangle's area long. */
  function PlaneNormal(t: Triangle): Point { Cross(Sub(t.v1, t.v0), Sub(t.v2, t.v0)) }

  predicate NonDegenerate(t: Triangle) {
    PlaneNormal(t) != Point(0.0, 0.0, 0.0)
  }

  ghost predicate SharedPoint(t: Triangle, u: Triangle) {
    exists p :: InTriangle(t, p) && InTriangle(u, p)
  }

  lemma MixCorners(a: real, b: real, c: real)
    ensures Mix(0.0, 0.0, a, b, c) == a && Mix(1.0, 0.0, a, b, c) == b && Mix(0.0, 1.0, a, b, c) == c
  {}

  lemma VerticesInTriangle(t: Triangle)
    ensures InTriangle(t, t.v0) && InTriangle(t, t.v1) && InTriangle(t, t.v2)
  {
    hide Mix;
    MixCorners(t.v0.x, t.v1.x, t.v2.x);
    MixCorners(t.v0.y, t.v1.y, t.v2.y);
    MixCorners(t.v0.z, t.v1.z, t.v2.z);
    assert Bary(0.0, 0.0) && t.v0 == At(t, 0.0, 0.0);
    assert Bary(1.0, 0.0) && t.v1 == At(t, 1.0, 0.0);
    assert Bary(0.0, 1.0) && t.v2 == At(t, 0.0, 1.0);
  }

  // -------------------------------------------------------------------- boxes

  /** A box in (center, extents) form, as the optimized trees and the queries store it. */
  datatype CollisionAABB = CollisionAABB(mCenter: Point, mExtents: Point)

  predicate NonNegative(e: Point) {
    0.0 <= e.x && 0.0 <= e.y && 0.0 <= e.z
  }

  predicate ValidBox(b: CollisionAABB) { NonNegative(b.mExtents) }

  /** The solid box: every point within the extents of the center. */
  predicate BoxHas(b: CollisionAABB, p: Point) {
    && Abs(p.x - b.mCenter.x) <= b.mExtents.x
    && Abs(p.y - b.mCenter.y) <= b.mExtents.y
    && Abs(p.z - b.mCenter.z) <= b.mExtents.z
  }

  predicate BoxHasTriangle(b: CollisionAABB, t: Triangle) {
    BoxHas(b, t.v0) && BoxHas(b, t.v1) && BoxHas(b, t.v2)
  }

  /** A convex combination of three numbers on one side of a bound stays there. */
  lemma MixBound(u: real, v: real, p0: real, p1: real, p2: real, m: real)
    requires Bary(u, v) && p0 <= m && p1 <= m && p2 <= m
    ensures Mix(u, v, p0, p1, p2) <= m
  {
    WeightedBound(1.0 - u - v, u, v, p0, p1, p2, m);
  }

  lemma MixNegate(u: real, v: real, a: real, b: real, c: real)
    ensures Mix(u, v, -a, -b, -c) == -Mix(u, v, a, b, c)
  {}

  lemma MixInterval(u: real, v: real, p0: real, p1: real, p2: real, lo: real, hi: real)
    requires Bary(u, v) && lo <= p0 <= hi && lo <= p1 <= hi && lo <= p2 <= hi
    ensures lo <= Mix(u, v, p0, p1, p2) <= hi
  {
    hide Mix;
    MixBound(u, v, p0, p1, p2, hi);
    MixBound(u, v, -p0, -p1, -p2, -lo);
    MixNegate(u, v, p0, p1, p2);
  }

  /** Boxes are convex: a box that holds the vertices holds the whole triangle. */
  lemma BoxHoldsTrianglePoints(b: CollisionAABB, t: Triangle, p: Point)
    requires BoxHasTriangle(b, t) && InTriangle(t, p)
    ensures BoxHas(b, p)
  {
    hide Mix;
    var u, v :| Bary(u, v) && p == At(t, u, v);
    var c, e := b.mCenter, b.mExtents;
    MixInterval(u, v, t.v0.x, t.v1.x, t.v2.x, c.x - e.x, c.x + e.x);
    MixInterval(u, v, t.v0.y, t.v1.y, t.v2.y, c.y - e.y, c.y + e.y);
    MixInterval(u, v, t.v0.z, t.v1.z, t.v2.z, c.z - e.z, c.z + e.z);
  }

  // ---------------------------------------------------------- separating axes

  /** Half-width of the projection of a box with extents `e` on the axis `l`. */
  function Radius(l: Point, e: Point): real {
    Abs(l.x) * e.x + Abs(l.y) * e.y + Abs(l.z) * e.z
  }

  /** The axis `l` separates the triangle from the box: the three projected vertices lie
      strictly beyond the same end of the projected box. */
  predicate Separates(l: Point, t: Triangle, b: CollisionAABB) {
    var r := Radius(l, b.mExtents);
    var p0 := Dot(l, Sub(t.v0, b.mCenter));
    var p1 := Dot(l, Sub(t.v1, b.mCenter));
    var p2 := Dot(l, Sub(t.v2, b.mCenter));
    || (p0 > r && p1 > r && p2 > r)
    || (p0 < -r && p1 < -r && p2 < -r)
  }

  /** The projection of a displacement is bounded by the projected half-widths. */
  lemma DotWithinRadius(l: Point, d: Point, e: Point)
    requires Abs(d.x) <= e.x && Abs(d.y) <= e.y && Abs(d.z) <= e.z
    ensures -Radius(l, e) <= Dot(l, d) <= Radius(l, e)
  {
    hide Abs;
    MulAbs(l.x, d.x, e.x);
    MulAbs(l.y, d.y, e.y);
    MulAbs(l.z, d.z, e.z);
    SumWithin(l.x * d.x, l.y * d.y, l.z * d.z, Abs(l.x) * e.x, Abs(l.y) * e.y, Abs(l.z) * e.z);
  }

  lemma MixShift(u: real, v: real, a: real, b: real, d: real, c: real)
    ensures Mix(u, v, a, b, d) - c == Mix(u, v, a - c, b - c, d - c)
  {}

  lemma Perpendicular(a: Point, b: Point)
    ensures Dot(a, Cross(a, b)) == 0.0 && Dot(b, Cross(a, b)) == 0.0
  {}

  lemma DotSymmetric(a: Point, b: Point)
    ensures Dot(a, b) == Dot(b, a)
  {}

  lemma DotProducts(a: Point, b: Point)
    ensures Dot(a, b) == Product(a.x, b.x) + Product(a.y, b.y) + Product(a.z, b.z)
  {}

  lemma DotSelf(a: Point)
    ensures 0.0 <= Dot(a, a)
    ensures a != Point(0.0, 0.0, 0.0) ==> 0.0 < Dot(a, a)
  {
    hide Dot, Product;
    DotProducts(a, a);
    SquarePositive(a.x, a.x);
    SquarePositive(a.y, a.y);
    SquarePositive(a.z, a.z);
  }

  lemma DotAdd(l: Point, p: Point, q: Point)
    ensures Dot(l, Add(p, q)) == Dot(l, p) + Dot(l, q)
  {}

  lemma DotScale(l: Point, k: real, p: Point)
    ensures Dot(l, Scale(k, p)) == k * Dot(l, p)
  {}

  lemma MixPoints(u: real, v: real, d0: Point, d1: Point, d2: Point)
    ensures Point(Mix(u, v, d0.x, d1.x, d2.x), Mix(u, v, d0.y, d1.y, d2.y), Mix(u, v, d0.z, d1.z, d2.z)) ==
            Add(Scale(1.0 - u - v, d0), Add(Scale(u, d1), Scale(v, d2)))
  {}

  lemma MixOfDots(l: Point, u: real, v: real, d0: Point, d1: Point, d2: Point)
    ensures Dot(l, Point(Mix(u, v, d0.x, d1.x, d2.x), Mix(u, v, d0.y, d1.y, d2.y), Mix(u, v, d0.z, d1.z, d2.z))) ==
            Mix(u, v, Dot(l, d0), Dot(l, d1), Dot(l, d2))
  {
    MixPoints(u, v, d0, d1, d2);
    hide Dot, Add, Scale;
    DotAdd(l, Scale(1.0 - u - v, d0), Add(Scale(u, d1), Scale(v, d2)));
    DotAdd(l, Scale(u, d1), Scale(v, d2));
    DotScale(l, 1.0 - u - v, d0);
    DotScale(l, u, d1);
    DotScale(l, v, d2);
  }

  /** Projection commutes with barycentric combination. */
  lemma DotAt(l: Point, t: Triangle, c: Point, u: real, v: real)
    ensures Dot(l, Sub(At(t, u, v), c)) ==
            Mix(u, v, Dot(l, Sub(t.v0, c)), Dot(l, Sub(t.v1, c)), Dot(l, Sub(t.v2, c)))
  {
    hide Mix, Dot;
    MixShift(u, v, t.v0.x, t.v1.x, t.v2.x, c.x);
    MixShift(u, v, t.v0.y, t.v1.y, t.v2.y, c.y);
    MixShift(u, v, t.v0.z, t.v1.z, t.v2.z, c.z);
    MixOfDots(l, u, v, Sub(t.v0, c), Sub(t.v1, c), Sub(t.v2, c));
  }

  /** No axis separates a triangle from a box it shares a point with. */
  lemma SharedPointNotSeparated(l: Point, t: Triangle, b: CollisionAABB, p: Point)
    requires InTriangle(t, p) && BoxHas(b, p)
    ensures !Separates(l, t, b)
  {
    hide Mix, Dot, Radius;
    var u, v :| Bary(u, v) && p == At(t, u, v);
    DotAt(l, t, b.mCenter, u, v);
    DotWithinRadius(l, Sub(p, b.mCenter), b.mExtents);
    var p0 := Dot(l, Sub(t.v0, b.mCenter));
    var p1 := Dot(l, Sub(t.v1, b.mCenter));
    var p2 := Dot(l, Sub(t.v2, b.mCenter));
    MixInterval(u, v, p0, p1, p2, Min(p0, Min(p1, p2)), Max(p0, Max(p1, p2)));
  }

  /** `a` lies inside `b`, axis by axis, in (min, max) terms. */
  predicate BoxInside(a: CollisionAABB, b: CollisionAABB) {
    && Abs(a.mCenter.x - b.mCenter.x) <= b.mExtents.x - a.mExtents.x
    && Abs(a.mCenter.y - b.mCenter.y) <= b.mExtents.y - a.mExtents.y
    && Abs(a.mCenter.z - b.mCenter.z) <= b.mExtents.z - a.mExtents.z
  }

  lemma DotSplit(l: Point, v: Point, a: Point, b: Point)
    ensures Dot(l, Sub(v, a)) == Dot(l, Sub(v, b)) + Dot(l, Sub(b, a))
  {}

  /** Growing the box only removes separating axes. */
  lemma SeparationShrinks(l: Point, t: Triangle, a: CollisionAABB, b: CollisionAABB)
    requires BoxInside(a, b) && Separates(l, t, b)
    ensures Separates(l, t, a)
  {
    hide Dot, Radius;
    var d := Sub(b.mCenter, a.mCenter);
    DotWithinRadius(l, d, Sub(b.mExtents, a.mExtents));
    RadiusSub(l, b.mExtents, a.mExtents);
    DotSplit(l, t.v0, a.mCenter, b.mCenter);
    DotSplit(l, t.v1, a.mCenter, b.mCenter);
    DotSplit(l, t.v2, a.mCenter, b.mCenter);
  }

  lemma RadiusSub(l: Point, b: Point, a: Point)
    ensures Radius(l, Sub(b, a)) == Radius(l, b) - Radius(l, a)
  {}
}
