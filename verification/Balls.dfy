/** When one sphere's faces are all the other's: the faces reached by a sphere are among those
    reached by another exactly when it lies inside it. */
module Balls {
  import opened Geometry
  import opened Reals
  import opened SphereTri
  import opened TriBox

  lemma Expand(a: Point, b: Point, c: Point)
    ensures SquareDistance(a, c) == SquareDistance(a, b) + 2.0 * Dot(Sub(a, b), Sub(b, c)) + SquareDistance(b, c)
  {}

  lemma LengthIsDot(a: Point, b: Point)
    ensures SquareDistance(a, b) == Dot(Sub(a, b), Sub(a, b)) && 0.0 <= SquareDistance(a, b)
  {
    SquareNonNegative(a.x - b.x);
    SquareNonNegative(a.y - b.y);
    SquareNonNegative(a.z - b.z);
  }

  lemma Lagrange(p: Point, q: Point)
    ensures Dot(p, p) * Dot(q, q) - Dot(p, q) * Dot(p, q) == Dot(Cross(p, q), Cross(p, q))
  {}

  lemma CauchySchwarz(p: Point, q: Point)
    ensures Dot(p, q) * Dot(p, q) <= Dot(p, p) * Dot(q, q)
  {
    Lagrange(p, q);
    DotSelf(Cross(p, q));
    hide Dot, Cross;
  }

  lemma StrictProduct(y: real, y': real, x: real, x': real)
    requires 0.0 <= y < x && y' == y && x' == x
    ensures y * y' < x * x'
  {
    MulMono(y, y', x');
    ScaledOrder(x', y, x);
    assert x' * y == y * x' && x' * x == x * x';
  }

  lemma Strict(y: real, x: real)
    requires 0.0 <= y < x
    ensures y * y < x * x && Square(y) < Square(x)
  {
    StrictProduct(y, y, x, x);
  }

  lemma RootBound(x: real, k: real)
    requires 0.0 <= k && x * x <= k * k
    ensures x <= k
  {
    if k < x { Strict(k, x); }
  }

  lemma ProductOfSquares(a: real, b: real, s: real, r: real)
    requires a == s * s && 0.0 <= b <= r * r
    ensures a * b <= (s * r) * (s * r)
  {
    SquareNonNegative(s);
    MulMono(a, b, r * r);
    assert (s * r) * (s * r) == (s * s) * (r * r);
  }

  lemma SquareOfSum(s: real, r: real)
    ensures (s + r) * (s + r) == s * s + 2.0 * (s * r) + r * r
  {}

  lemma WeakSquare(y: real, x: real)
    requires 0.0 <= y <= x
    ensures y * y <= x * x
  {
    if y < x { Strict(y, x); }
  }

  /** The triangle inequality, squared. */
  lemma TriangleBound(d: real, b: real, x: real, r: real, ra: real)
    requires 0.0 <= d && 0.0 <= b < r * r && 0.0 < r && x * x <= (d * d) * b && d + r <= ra
    ensures d * d + 2.0 * x + b < ra * ra
  {
    ProductOfSquares(d * d, b, d, r);
    ProductNonNegative(d, r);
    RootBound(x, d * r);
    SquareOfSum(d, r);
    WeakSquare(d + r, ra);
  }

  lemma InsidePoint(ca: Point, ra: real, c: Point, r: real, d: real, p: Point)
    requires 0.0 <= d && Square(d) == SquareDistance(ca, c) && 0.0 <= r && d + r <= ra && SquareDistance(c, p) < Square(r)
    ensures SquareDistance(ca, p) < Square(ra)
  {
    LengthIsDot(ca, c);
    LengthIsDot(c, p);
    Expand(ca, c, p);
    CauchySchwarz(Sub(ca, c), Sub(c, p));
    hide Dot, Sub, SquareDistance;
    if r == 0.0 {
      assert false;
    }
    TriangleBound(d, SquareDistance(c, p), Dot(Sub(ca, c), Sub(c, p)), r, ra);
  }

  // ------------------------------------------------------------- an outside face

  lemma ZeroDistance(a: Point, b: Point)
    requires SquareDistance(a, b) == 0.0
    ensures a == b
  {
    SquarePositive(a.x - b.x, a.x - b.x);
    SquarePositive(a.y - b.y, a.y - b.y);
    SquarePositive(a.z - b.z, a.z - b.z);
    hide Product;
  }

  lemma ScaledLength(k: real, w: Point)
    ensures Dot(Scale(k, w), Scale(k, w)) == k * k * Dot(w, w)
  {}

  lemma ScaleBack(d: real, w: Point)
    requires d != 0.0
    ensures Scale(d, Scale(1.0 / d, w)) == w
  {
    DivMul(1.0, d);
    var i := 1.0 / d;
    Undone(d, i, w.x);
    Undone(d, i, w.y);
    Undone(d, i, w.z);
  }

  lemma Undone(d: real, i: real, x: real)
    requires d * i == 1.0
    ensures d * (i * x) == x
  {
    assert d * (i * x) == (d * i) * x;
  }

  lemma InverseSquare(d: real, length: real)
    requires 0.0 < d && length == d * d
    ensures 1.0 / d * (1.0 / d) * length == 1.0
  {
    DivMul(1.0, d);
    var i := 1.0 / d;
    assert i * i * (d * d) == (d * i) * (d * i);
  }

  /** The unit direction from one center to the other, or any when they coincide. */
  lemma UnitDirection(ca: Point, c: Point, d: real) returns (n: Point)
    requires 0.0 <= d && Square(d) == SquareDistance(ca, c)
    ensures Dot(n, n) == 1.0 && Sub(c, ca) == Scale(d, n)
  {
    if d == 0.0 {
      ZeroDistance(ca, c);
      n := UNIT_X;
    } else {
      var w := Sub(c, ca);
      n := Scale(1.0 / d, w);
      LengthIsDot(c, ca);
      SameDistance(ca, c);
      ScaledLength(1.0 / d, w);
      ScaleBack(d, w);
      hide Dot, Scale, Sub, SquareDistance;
      InverseSquare(d, Dot(w, w));
    }
  }

  lemma SameDistance(a: Point, b: Point)
    ensures SquareDistance(a, b) == SquareDistance(b, a)
  {
    ProductFlip(a.x - b.x, a.x - b.x);
    ProductFlip(a.y - b.y, a.y - b.y);
    ProductFlip(a.z - b.z, a.z - b.z);
    hide Product;
  }

  /** A point at least ra along a unit direction is at least ra away. */
  lemma BeyondPlane(ca: Point, ra: real, n: Point, x: Point)
    requires Dot(n, n) == 1.0 && 0.0 <= ra <= Dot(n, Sub(x, ca))
    ensures Square(ra) <= SquareDistance(ca, x)
  {
    CauchySchwarz(n, Sub(x, ca));
    LengthIsDot(x, ca);
    SameDistance(ca, x);
    hide Dot, Sub, SquareDistance;
    WeakSquare(ra, Dot(n, Sub(x, ca)));
  }

  /** A triangle on the far side of a plane is not reached. */
  lemma FaceBeyondPlane(ca: Point, ra: real, n: Point, t: Triangle)
    requires Dot(n, n) == 1.0 && 0.0 <= ra
    requires ra <= Dot(n, Sub(t.v0, ca)) && ra <= Dot(n, Sub(t.v1, ca)) && ra <= Dot(n, Sub(t.v2, ca))
    ensures !SphereReaches(t, ca, Square(ra))
  {
    forall p | InTriangle(t, p) ensures Square(ra) <= SquareDistance(ca, p) {
      var u, v :| Bary(u, v) && p == At(t, u, v);
      DotAt(n, t, ca, u, v);
      var p0, p1, p2 := Dot(n, Sub(t.v0, ca)), Dot(n, Sub(t.v1, ca)), Dot(n, Sub(t.v2, ca));
      hide Dot, Sub, Mix, At;
      MixInterval(u, v, p0, p1, p2, ra, Max(p0, Max(p1, p2)));
      BeyondPlane(ca, ra, n, p);
    }
    hide Dot, Sub, InTriangle, SquareDistance;
  }

  function Sign(x: real): real { if x < 0.0 then -1.0 else 1.0 }

  lemma StepAlongX(n: Point, s: real, p: Point, ca: Point)
    requires s == Sign(n.x)
    ensures Dot(n, Sub(p.(x := p.x + s), ca)) == Dot(n, Sub(p, ca)) + Abs(n.x)
  {}

  lemma StepAlongY(n: Point, s: real, p: Point, ca: Point)
    requires s == Sign(n.y)
    ensures Dot(n, Sub(p.(y := p.y + s), ca)) == Dot(n, Sub(p, ca)) + Abs(n.y)
  {}

  lemma ProperCorner(p: Point, a: real, b: real)
    requires (a == 1.0 || a == -1.0) && (b == 1.0 || b == -1.0)
    ensures NonDegenerate(Triangle(p, p.(x := p.x + a), p.(y := p.y + b)))
  {
    var t := Triangle(p, p.(x := p.x + a), p.(y := p.y + b));
    assert Sub(t.v1, t.v0) == Point(a, 0.0, 0.0) && Sub(t.v2, t.v0) == Point(0.0, b, 0.0);
    hide Cross, Sub;
    Legs(Point(a, 0.0, 0.0), Point(0.0, b, 0.0));
    UnitProduct(a, b);
  }

  lemma Legs(p: Point, q: Point)
    requires p.y == 0.0 && p.z == 0.0 && q.x == 0.0 && q.z == 0.0
    ensures Cross(p, q).z == Product(p.x, q.y)
  {}

  lemma UnitProduct(a: real, b: real)
    requires (a == 1.0 || a == -1.0) && (b == 1.0 || b == -1.0)
    ensures Product(a, b) != 0.0
  {}

  /** A right-angled face of unit legs at a point, leaning along a direction. */
  function Corner(p: Point, n: Point): Triangle {
    Triangle(p, p.(x := p.x + Sign(n.x)), p.(y := p.y + Sign(n.y)))
  }

  lemma StepLevel(ca: Point, c: Point, n: Point, d: real, k: real)
    requires Dot(n, n) == 1.0 && Sub(c, ca) == Scale(d, n)
    ensures Dot(n, Sub(Add(c, Scale(k, n)), ca)) == d + k && SquareDistance(c, Add(c, Scale(k, n))) == Square(k)
  {
    var p := Add(c, Scale(k, n));
    assert Sub(p, ca) == Scale(d + k, n) by { SumOfSteps(ca, c, n, d, k); }
    DotScale(n, d + k, n);
    LengthIsDot(p, c);
    SameDistance(p, c);
    assert Sub(p, c) == Scale(k, n);
    ScaledLength(k, n);
    hide Dot, SquareDistance, Sub, Scale, Add;
  }

  lemma SumOfSteps(ca: Point, c: Point, n: Point, d: real, k: real)
    requires Sub(c, ca) == Scale(d, n)
    ensures Sub(Add(c, Scale(k, n)), ca) == Scale(d + k, n)
  {
    OneStep(c.x, ca.x, n.x, d, k);
    OneStep(c.y, ca.y, n.y, d, k);
    OneStep(c.z, ca.z, n.z, d, k);
  }

  lemma OneStep(c: real, ca: real, n: real, d: real, k: real)
    requires c - ca == d * n
    ensures c + k * n - ca == (d + k) * n
  {}

  /** The vertices of a face are near a point: how far is bounded by the given length. */
  predicate Near(t: Triangle, c: Point, length: real) {
    && Abs(t.v0.x - c.x) <= length && Abs(t.v0.y - c.y) <= length && Abs(t.v0.z - c.z) <= length
    && Abs(t.v1.x - c.x) <= length && Abs(t.v1.y - c.y) <= length && Abs(t.v1.z - c.z) <= length
    && Abs(t.v2.x - c.x) <= length && Abs(t.v2.y - c.y) <= length && Abs(t.v2.z - c.z) <= length
  }

  lemma UnitEntries(n: Point)
    requires Dot(n, n) == 1.0
    ensures Abs(n.x) <= 1.0 && Abs(n.y) <= 1.0 && Abs(n.z) <= 1.0
  {
    SquareNonNegative(n.x);
    SquareNonNegative(n.y);
    SquareNonNegative(n.z);
    UnitEntry(n.x);
    UnitEntry(n.y);
    UnitEntry(n.z);
  }

  lemma UnitEntry(x: real)
    ensures x * x <= 1.0 ==> Abs(x) <= 1.0
  {
    if 1.0 < x { Strict(1.0, x); }
    if x < -1.0 { Strict(1.0, -x); }
  }

  lemma StepSize(k: real, n: real)
    requires 0.0 <= k && Abs(n) <= 1.0
    ensures Abs(Product(k, n)) <= k
  {
    MulAbs(k, n, 1.0);
  }

  lemma CornerNear(c: Point, n: Point, k: real, r: real)
    requires Dot(n, n) == 1.0 && 0.0 <= k <= r
    ensures Near(Corner(Add(c, Scale(k, n)), n), c, r + 1.0)
  {
    UnitEntries(n);
    StepSize(k, n.x);
    StepSize(k, n.y);
    StepSize(k, n.z);
    ScaledEntries(k, n);
    hide Dot, Scale, Abs, Product;
    var o := Scale(k, n);
    NearStep(c.x, o.x, Sign(n.x), k, r);
    NearStep(c.y, o.y, Sign(n.y), k, r);
    NearStep(c.z, o.z, 0.0, k, r);
  }

  lemma ScaledEntries(k: real, n: Point)
    ensures Scale(k, n) == Point(Product(k, n.x), Product(k, n.y), Product(k, n.z))
  {}

  lemma NearStep(c: real, o: real, s: real, k: real, r: real)
    requires Abs(o) <= k <= r && -1.0 <= s <= 1.0
    ensures Abs(c + o - c) <= r + 1.0 && Abs(c + o + s - c) <= r + 1.0
  {}

  /** A face the sphere (c, r) reaches and the sphere (ca, ra) does not, when the former sticks
      out of the latter. */
  lemma OutsideFace(ca: Point, ra: real, c: Point, r: real, d: real) returns (t: Triangle)
    requires 0.0 <= ra && 0.0 < r && 0.0 <= d && Square(d) == SquareDistance(ca, c) && ra < d + r
    ensures NonDegenerate(t) && SphereReaches(t, c, Square(r)) && !SphereReaches(t, ca, Square(ra)) && Near(t, c, r + 1.0)
  {
    hide Dot, Scale, Sub, SquareDistance, NonDegenerate, Near;
    var n := UnitDirection(ca, c, d);
    var k := Max(0.0, ra - d);
    var p := Add(c, Scale(k, n));
    StepLevel(ca, c, n, d, k);
    t := Corner(p, n);
    StepAlongX(n, Sign(n.x), p, ca);
    StepAlongY(n, Sign(n.y), p, ca);
    FaceBeyondPlane(ca, ra, n, t);
    ProperCorner(p, Sign(n.x), Sign(n.y));
    CornerNear(c, n, k, r);
    Strict(k, r);
    VerticesInTriangle(t);
    hide InTriangle;
    assert InTriangle(t, p) && SquareDistance(c, p) < Square(r);
  }

  /** Every proper face the sphere (c, r) reaches is reached by the sphere (ca, ra), whose
      center is at distance d, if and only if d + r does not exceed ra, or there is none. */
  lemma FacesWithinIff(ca: Point, ra: real, c: Point, r: real, d: real)
    requires 0.0 <= ra && 0.0 <= r && 0.0 <= d && Square(d) == SquareDistance(ca, c)
    ensures (forall t :: NonDegenerate(t) && SphereReaches(t, c, Square(r)) ==> SphereReaches(t, ca, Square(ra))) <==> r == 0.0 || d + r <= ra
  {
    if r == 0.0 {
      forall t | NonDegenerate(t) ensures !SphereReaches(t, c, Square(r)) {
        EmptySphere(t, c, Square(r));
      }
    } else if d + r <= ra {
      forall t | NonDegenerate(t) && SphereReaches(t, c, Square(r)) ensures SphereReaches(t, ca, Square(ra)) {
        InsideReaches(ca, ra, c, r, d, t);
      }
    } else {
      hide NonDegenerate, SphereReaches, SquareDistance;
      var t := OutsideFace(ca, ra, c, r, d);
    }
  }

  lemma EmptySphere(t: Triangle, c: Point, radius2: real)
    requires radius2 <= 0.0
    ensures !SphereReaches(t, c, radius2)
  {
    forall p | true ensures 0.0 <= SquareDistance(c, p) { LengthIsDot(c, p); }
    hide SquareDistance, InTriangle;
  }

  lemma InsideReaches(ca: Point, ra: real, c: Point, r: real, d: real, t: Triangle)
    requires 0.0 <= d && Square(d) == SquareDistance(ca, c) && 0.0 <= r && d + r <= ra && SphereReaches(t, c, Square(r))
    ensures SphereReaches(t, ca, Square(ra))
  {
    hide SquareDistance, InTriangle;
    var p :| InTriangle(t, p) && SquareDistance(c, p) < Square(r);
    InsidePoint(ca, ra, c, r, d, p);
  }
}
