/** Sphere-box overlap (OPC_SphereAABBOverlap.h) and sphere-contains-box
    (OPC_SphereCollider.cpp), each proved exact against the solid box. */
module SphereBox {
  import opened Geometry
  import opened Reals

  /** Some point of the box is within the closed sphere. */
  ghost predicate SphereMeetsBox(b: CollisionAABB, center: Point, radius2: real) {
    exists p :: BoxHas(b, p) && SquareDistance(center, p) <= radius2
  }

  function Clamp(x: real, c: real, e: real): real {
    if x - c + e < 0.0 then c - e else if x - c - e > 0.0 then c + e else x
  }

  function Nearest(b: CollisionAABB, p: Point): Point {
    Point(Clamp(p.x, b.mCenter.x, b.mExtents.x), Clamp(p.y, b.mCenter.y, b.mExtents.y), Clamp(p.z, b.mCenter.z, b.mExtents.z))
  }

  lemma ClampNearest(x: real, c: real, e: real, p: real)
    requires 0.0 <= e && Abs(p - c) <= e
    ensures SquareGap(x, Clamp(x, c, e)) <= SquareGap(x, p)
  {
    SmallerSquare(x - Clamp(x, c, e), x - p);
  }

  lemma NearestInBox(b: CollisionAABB, p: Point)
    requires ValidBox(b)
    ensures BoxHas(b, Nearest(b, p))
  {}

  lemma NearestMinimises(b: CollisionAABB, center: Point, p: Point)
    requires ValidBox(b) && BoxHas(b, p)
    ensures SquareDistance(center, Nearest(b, center)) <= SquareDistance(center, p)
  {
    hide SquareGap, Clamp;
    ClampNearest(center.x, b.mCenter.x, b.mExtents.x, p.x);
    ClampNearest(center.y, b.mCenter.y, b.mExtents.y, p.y);
    ClampNearest(center.z, b.mCenter.z, b.mExtents.z, p.z);
  }

  lemma MeetsIffNearest(b: CollisionAABB, center: Point, radius2: real)
    requires ValidBox(b)
    ensures SphereMeetsBox(b, center, radius2) <==> SquareDistance(center, Nearest(b, center)) <= radius2
  {
    NearestInBox(b, center);
    forall p | BoxHas(b, p) ensures SquareDistance(center, Nearest(b, center)) <= SquareDistance(center, p) {
      NearestMinimises(b, center, p);
    }
    hide SquareDistance, BoxHas, Nearest;
  }

  lemma GapNonNegative(a: real, b: real)
    ensures 0.0 <= SquareGap(a, b)
  {
    SquareNonNegative(a - b);
  }

  /** One axis of the accumulation: adds the squared gap, and reports whether the running
      sum already exceeds the squared radius (only checked when something was added). */
  method AddAxisGap(x: real, c: real, e: real, radius2: real, d: real) returns (d': real, exceeded: bool)
    requires 0.0 <= e
    ensures d' == d + SquareGap(x, Clamp(x, c, e))
    ensures exceeded ==> d' > radius2
  {
    var tmp := x - c;
    var s := tmp + e;
    d', exceeded := d, false;
    if s < 0.0 {
      d' := d + s * s;
      exceeded := d' > radius2;
    } else {
      s := tmp - e;
      if s > 0.0 {
        d' := d + s * s;
        exceeded := d' > radius2;
      }
    }
  }

  /** Despite the early exits the answer is exact: the closed sphere meets the solid box. */
  method SphereAABBOverlap(b: CollisionAABB, center: Point, radius2: real) returns (overlap: bool)
    requires ValidBox(b)
    ensures overlap <==> SphereMeetsBox(b, center, radius2)
  {
    MeetsIffNearest(b, center, radius2);
    var n := Nearest(b, center);
    GapNonNegative(center.x, n.x);
    GapNonNegative(center.y, n.y);
    GapNonNegative(center.z, n.z);
    hide SquareGap, Clamp, SphereMeetsBox;
    var d, exceeded := AddAxisGap(center.x, b.mCenter.x, b.mExtents.x, radius2, 0.0);
    if exceeded { return false; }
    d, exceeded := AddAxisGap(center.y, b.mCenter.y, b.mExtents.y, radius2, d);
    if exceeded { return false; }
    d, exceeded := AddAxisGap(center.z, b.mCenter.z, b.mExtents.z, radius2, d);
    if exceeded { return false; }
    return d <= radius2;
  }

  // ------------------------------------------------------------- containment

  function Corner(b: CollisionAABB, px: bool, py: bool, pz: bool): Point {
    Point(if px then b.mCenter.x + b.mExtents.x else b.mCenter.x - b.mExtents.x,
          if py then b.mCenter.y + b.mExtents.y else b.mCenter.y - b.mExtents.y,
          if pz then b.mCenter.z + b.mExtents.z else b.mCenter.z - b.mExtents.z)
  }

  /** Every point of the solid box is strictly inside the sphere. */
  ghost predicate BoxInsideSphere(b: CollisionAABB, center: Point, radius2: real) {
    forall p :: BoxHas(b, p) ==> SquareDistance(center, p) < radius2
  }

  ghost predicate CornersInside(b: CollisionAABB, center: Point, radius2: real) {
    forall px, py, pz :: SquareDistance(center, Corner(b, px, py, pz)) < radius2
  }

  /** Along one axis the farthest point of an interval is one of its ends. */
  lemma FarEnd(x: real, c: real, e: real, p: real) returns (plus: bool)
    requires Abs(p - c) <= e
    ensures var f := if plus then c + e else c - e; SquareGap(x, p) <= SquareGap(x, f)
  {
    plus := x <= p;
    SmallerSquare(x - p, x - (if plus then c + e else c - e));
  }

  lemma FarCorner(b: CollisionAABB, center: Point, p: Point) returns (px: bool, py: bool, pz: bool)
    requires BoxHas(b, p)
    ensures SquareDistance(center, p) <= SquareDistance(center, Corner(b, px, py, pz))
  {
    hide SquareGap;
    px := FarEnd(center.x, b.mCenter.x, b.mExtents.x, p.x);
    py := FarEnd(center.y, b.mCenter.y, b.mExtents.y, p.y);
    pz := FarEnd(center.z, b.mCenter.z, b.mExtents.z, p.z);
  }

  lemma CornersSuffice(b: CollisionAABB, center: Point, radius2: real)
    requires ValidBox(b)
    ensures CornersInside(b, center, radius2) <==> BoxInsideSphere(b, center, radius2)
  {
    forall px, py, pz | true ensures BoxHas(b, Corner(b, px, py, pz)) {}
    hide SquareDistance, Corner;
    if CornersInside(b, center, radius2) {
      hide BoxHas;
      forall p | BoxHas(b, p) ensures SquareDistance(center, p) < radius2 {
        var px, py, pz := FarCorner(b, center, p);
      }
    }
  }

  /** "If all 8 box vertices are inside the sphere, so does the whole box": both ways. */
  method SphereContainsBox(b: CollisionAABB, center: Point, radius2: real) returns (inside: bool)
    requires ValidBox(b)
    ensures inside <==> BoxInsideSphere(b, center, radius2)
  {
    CornersSuffice(b, center, radius2);
    var bc, be := b.mCenter, b.mExtents;
    hide SquareDistance, BoxInsideSphere;
    var p := Point(bc.x + be.x, bc.y + be.y, bc.z + be.z);
    assert p == Corner(b, true, true, true);
    if SquareDistance(center, p) >= radius2 { return false; }
    p := p.(x := bc.x - be.x);
    assert p == Corner(b, false, true, true);
    if SquareDistance(center, p) >= radius2 { return false; }
    p := p.(x := bc.x + be.x, y := bc.y - be.y);
    assert p == Corner(b, true, false, true);
    if SquareDistance(center, p) >= radius2 { return false; }
    p := p.(x := bc.x - be.x);
    assert p == Corner(b, false, false, true);
    if SquareDistance(center, p) >= radius2 { return false; }
    p := p.(x := bc.x + be.x, y := bc.y + be.y, z := bc.z - be.z);
    assert p == Corner(b, true, true, false);
    if SquareDistance(center, p) >= radius2 { return false; }
    p := p.(x := bc.x - be.x);
    assert p == Corner(b, false, true, false);
    if SquareDistance(center, p) >= radius2 { return false; }
    p := p.(x := bc.x + be.x, y := bc.y - be.y);
    assert p == Corner(b, true, false, false);
    if SquareDistance(center, p) >= radius2 { return false; }
    p := p.(x := bc.x - be.x);
    assert p == Corner(b, false, false, false);
    if SquareDistance(center, p) >= radius2 { return false; }
    forall px, py, pz | true ensures SquareDistance(center, Corner(b, px, py, pz)) < radius2 {}
    return true;
  }
}
