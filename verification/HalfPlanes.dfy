/** Helly's theorem in the plane: finitely many regions cut out by half-planes, any three of
    which have a common point, have one in common. */
module HalfPlanes {
  import opened Reals

  datatype Vec = Vec(u: real, v: real)

  /** The points where a u + b v + c is not negative. */
  datatype HalfPlane = HalfPlane(a: real, b: real, c: real)

  function Level(h: HalfPlane, p: Vec): real {
    h.a * p.u + h.b * p.v + h.c
  }

  type Region = seq<HalfPlane>

  ghost predicate Has(r: Region, p: Vec) {
    forall h :: h in r ==> 0.0 <= Level(h, p)
  }

  ghost predicate Meet(r: Region, s: Region, t: Region) {
    exists p :: Has(r, p) && Has(s, p) && Has(t, p)
  }

  // -------------------------------------------------------------- Radon partition

  /** Twice the signed area of a triangle. */
  function Area(p: Vec, q: Vec, r: Vec): real {
    (q.u - p.u) * (r.v - p.v) - (q.v - p.v) * (r.u - p.u)
  }

  function Combination(a: real, b: real, c: real, d: real, x: real, y: real, z: real, t: real): real {
    a * x + b * y + c * z + d * t
  }

  /** Weights of an affine dependence of four points. */
  predicate Dependence(w: (real, real, real, real), p: Vec, q: Vec, r: Vec, s: Vec) {
    && w.0 + w.1 + w.2 + w.3 == 0.0
    && Combination(w.0, w.1, w.2, w.3, p.u, q.u, r.u, s.u) == 0.0
    && Combination(w.0, w.1, w.2, w.3, p.v, q.v, r.v, s.v) == 0.0
    && (w.0 != 0.0 || w.1 != 0.0 || w.2 != 0.0 || w.3 != 0.0)
  }

  lemma AreasSum(p: Vec, q: Vec, r: Vec, s: Vec)
    ensures Area(q, r, s) - Area(p, r, s) + Area(p, q, s) - Area(p, q, r) == 0.0
  {}

  lemma AreasBalanceU(p: Vec, q: Vec, r: Vec, s: Vec)
    ensures Area(q, r, s) * p.u - Area(p, r, s) * q.u + Area(p, q, s) * r.u - Area(p, q, r) * s.u == 0.0
  {}

  lemma AreasBalanceV(p: Vec, q: Vec, r: Vec, s: Vec)
    ensures Area(q, r, s) * p.v - Area(p, r, s) * q.v + Area(p, q, s) * r.v - Area(p, q, r) * s.v == 0.0
  {}

  /** Three points on a line: the third is a combination of two different ones. */
  lemma Collinear(p: Vec, q: Vec, r: Vec) returns (k: real)
    requires p != q && Area(p, q, r) == 0.0
    ensures r.u - p.u == k * (q.u - p.u) && r.v - p.v == k * (q.v - p.v)
  {
    var a, b, c, d := q.u - p.u, q.v - p.v, r.u - p.u, r.v - p.v;
    assert a * d - b * c == 0.0;
    if a != 0.0 {
      k := c / a;
      DivMul(c, a);
      Proportional(a, b, c, d, k);
    } else {
      k := d / b;
      DivMul(d, b);
      Proportional(b, a, d, c, k);
    }
  }

  lemma Proportional(a: real, b: real, c: real, d: real, k: real)
    requires a != 0.0 && a * d == b * c && a * k == c
    ensures d == k * b
  {
    var e := d - k * b;
    assert a * e == a * d - (a * k) * b;
    if 0.0 < e { if 0.0 < a { PositiveProduct(a, e); } else { PositiveProduct(-a, e); } }
    if e < 0.0 { if 0.0 < a { PositiveProduct(a, -e); } else { PositiveProduct(-a, -e); } }
  }

  lemma FlatDependence(p: Vec, q: Vec, r: Vec, s: Vec) returns (w: (real, real, real, real))
    requires Area(p, q, r) == 0.0
    ensures Dependence(w, p, q, r, s)
  {
    if p == q {
      w := (1.0, -1.0, 0.0, 0.0);
    } else {
      var k := Collinear(p, q, r);
      w := (1.0 - k, k, -1.0, 0.0);
      Offset(k, p.u, q.u, r.u);
      Offset(k, p.v, q.v, r.v);
    }
  }

  lemma Offset(k: real, p: real, q: real, r: real)
    requires r - p == k * (q - p)
    ensures (1.0 - k) * p + k * q + -1.0 * r == 0.0
  {}

  lemma AnyDependence(p: Vec, q: Vec, r: Vec, s: Vec) returns (w: (real, real, real, real))
    ensures Dependence(w, p, q, r, s)
  {
    if Area(p, q, r) == 0.0 {
      w := FlatDependence(p, q, r, s);
    } else {
      AreasSum(p, q, r, s);
      AreasBalanceU(p, q, r, s);
      AreasBalanceV(p, q, r, s);
      hide Area;
      w := (Area(q, r, s), -Area(p, r, s), Area(p, q, s), -Area(p, q, r));
      Negated(Area(p, r, s), q);
      Negated(Area(p, q, r), s);
    }
  }

  lemma Negated(a: real, p: Vec)
    ensures -a * p.u == -(a * p.u) && -a * p.v == -(a * p.v)
  {}

  function Positive(x: real): real { Max(x, 0.0) }

  /** The weighted mean of four points. */
  function Mean(a: real, b: real, c: real, d: real, p: Vec, q: Vec, r: Vec, s: Vec, total: real): Vec
    requires total != 0.0
  {
    Vec(Combination(a, b, c, d, p.u, q.u, r.u, s.u) / total, Combination(a, b, c, d, p.v, q.v, r.v, s.v) / total)
  }

  lemma LevelOfMean(h: HalfPlane, a: real, b: real, c: real, d: real, p: Vec, q: Vec, r: Vec, s: Vec, total: real)
    requires total == a + b + c + d && total != 0.0
    ensures total * Level(h, Mean(a, b, c, d, p, q, r, s, total)) ==
      Product(a, Level(h, p)) + Product(b, Level(h, q)) + Product(c, Level(h, r)) + Product(d, Level(h, s))
  {
    hide Combination, Level, Product;
    var u, v := Combination(a, b, c, d, p.u, q.u, r.u, s.u), Combination(a, b, c, d, p.v, q.v, r.v, s.v);
    var m := Mean(a, b, c, d, p, q, r, s, total);
    DivMul(u, total);
    DivMul(v, total);
    hide Mean;
    Distribute(h, m, total, u, v);
    Collect(h, a, b, c, d, p, q, r, s);
  }

  lemma Distribute(h: HalfPlane, m: Vec, total: real, u: real, v: real)
    requires total * m.u == u && total * m.v == v
    ensures total * Level(h, m) == Product(h.a, u) + Product(h.b, v) + Product(h.c, total)
  {
    assert total * Level(h, m) == h.a * (total * m.u) + h.b * (total * m.v) + h.c * total;
  }

  function Triple(k: real, w: real, x: real): real { k * w * x }

  lemma OneTerm(h: HalfPlane, a: real, p: Vec)
    ensures Product(a, Level(h, p)) == Triple(h.a, a, p.u) + Triple(h.b, a, p.v) + Product(h.c, a)
  {}

  lemma Spread(k: real, a: real, b: real, c: real, d: real, x: real, y: real, z: real, t: real)
    ensures Product(k, Combination(a, b, c, d, x, y, z, t)) == Triple(k, a, x) + Triple(k, b, y) + Triple(k, c, z) + Triple(k, d, t)
  {}

  lemma SpreadSum(k: real, a: real, b: real, c: real, d: real)
    ensures Product(k, a + b + c + d) == Product(k, a) + Product(k, b) + Product(k, c) + Product(k, d)
  {}

  lemma Collect(h: HalfPlane, a: real, b: real, c: real, d: real, p: Vec, q: Vec, r: Vec, s: Vec)
    ensures Product(h.a, Combination(a, b, c, d, p.u, q.u, r.u, s.u)) + Product(h.b, Combination(a, b, c, d, p.v, q.v, r.v, s.v)) + Product(h.c, a + b + c + d) ==
      Product(a, Level(h, p)) + Product(b, Level(h, q)) + Product(c, Level(h, r)) + Product(d, Level(h, s))
  {
    hide Level, Product, Combination, Triple;
    OneTerm(h, a, p);
    OneTerm(h, b, q);
    OneTerm(h, c, r);
    OneTerm(h, d, s);
    Spread(h.a, a, b, c, d, p.u, q.u, r.u, s.u);
    Spread(h.b, a, b, c, d, p.v, q.v, r.v, s.v);
    SpreadSum(h.c, a, b, c, d);
  }

  /** A mean with non-negative weights stays in a region that holds the points with a
      weight. */
  lemma MeanStays(g: Region, a: real, b: real, c: real, d: real, p: Vec, q: Vec, r: Vec, s: Vec, total: real)
    requires 0.0 <= a && 0.0 <= b && 0.0 <= c && 0.0 <= d && 0.0 < total == a + b + c + d
    requires (a != 0.0 ==> Has(g, p)) && (b != 0.0 ==> Has(g, q)) && (c != 0.0 ==> Has(g, r)) && (d != 0.0 ==> Has(g, s))
    ensures Has(g, Mean(a, b, c, d, p, q, r, s, total))
  {
    forall h | h in g ensures 0.0 <= Level(h, Mean(a, b, c, d, p, q, r, s, total)) {
      LevelOfMean(h, a, b, c, d, p, q, r, s, total);
      assert (a != 0.0 ==> 0.0 <= Level(h, p)) && (b != 0.0 ==> 0.0 <= Level(h, q));
      assert (c != 0.0 ==> 0.0 <= Level(h, r)) && (d != 0.0 ==> 0.0 <= Level(h, s));
      hide Level, Mean, Has, Product;
      Weighted(a, Level(h, p));
      Weighted(b, Level(h, q));
      Weighted(c, Level(h, r));
      Weighted(d, Level(h, s));
      PositiveFactor(total, Level(h, Mean(a, b, c, d, p, q, r, s, total)));
    }
  }

  lemma Weighted(w: real, x: real)
    requires 0.0 <= w && (w != 0.0 ==> 0.0 <= x)
    ensures 0.0 <= Product(w, x)
  {
    if w != 0.0 { ProductNonNegative(w, x); }
  }

  lemma Split(w: real, x: real)
    ensures w * x == Positive(w) * x - Positive(-w) * x
  {}

  lemma SameSums(w: (real, real, real, real), a: real, b: real, c: real, d: real)
    requires Combination(w.0, w.1, w.2, w.3, a, b, c, d) == 0.0
    ensures Combination(Positive(w.0), Positive(w.1), Positive(w.2), Positive(w.3), a, b, c, d) ==
            Combination(Positive(-w.0), Positive(-w.1), Positive(-w.2), Positive(-w.3), a, b, c, d)
  {
    Split(w.0, a);
    Split(w.1, b);
    Split(w.2, c);
    Split(w.3, d);
    hide Positive;
  }

  lemma SameTotals(a: real, b: real, c: real, d: real)
    requires a + b + c + d == 0.0 && (a != 0.0 || b != 0.0 || c != 0.0 || d != 0.0)
    ensures 0.0 < Positive(a) + Positive(b) + Positive(c) + Positive(d) == Positive(-a) + Positive(-b) + Positive(-c) + Positive(-d)
  {}

  /** The Radon point: the mean of the points with positive weight and the mean of the others
      are the same point. */
  lemma RadonPoint(p: Vec, q: Vec, r: Vec, s: Vec) returns (w: (real, real, real, real), total: real, z: Vec)
    ensures 0.0 < total == Positive(w.0) + Positive(w.1) + Positive(w.2) + Positive(w.3)
    ensures total == Positive(-w.0) + Positive(-w.1) + Positive(-w.2) + Positive(-w.3)
    ensures z == Mean(Positive(w.0), Positive(w.1), Positive(w.2), Positive(w.3), p, q, r, s, total)
    ensures z == Mean(Positive(-w.0), Positive(-w.1), Positive(-w.2), Positive(-w.3), p, q, r, s, total)
  {
    w := AnyDependence(p, q, r, s);
    SameTotals(w.0, w.1, w.2, w.3);
    EqualMeans(w, p, q, r, s);
    hide Positive, Mean, Dependence;
    total := Positive(w.0) + Positive(w.1) + Positive(w.2) + Positive(w.3);
    z := Mean(Positive(w.0), Positive(w.1), Positive(w.2), Positive(w.3), p, q, r, s, total);
  }

  lemma EqualMeans(w: (real, real, real, real), p: Vec, q: Vec, r: Vec, s: Vec)
    requires Dependence(w, p, q, r, s)
    ensures var total := Positive(w.0) + Positive(w.1) + Positive(w.2) + Positive(w.3);
      total != 0.0 ==>
        Mean(Positive(w.0), Positive(w.1), Positive(w.2), Positive(w.3), p, q, r, s, total) ==
        Mean(Positive(-w.0), Positive(-w.1), Positive(-w.2), Positive(-w.3), p, q, r, s, total)
  {
    SameSums(w, p.u, q.u, r.u, s.u);
    SameSums(w, p.v, q.v, r.v, s.v);
    hide Positive, Combination;
  }

  /** A region that holds three of the four points holds their Radon point. */
  lemma RadonInRegion(g: Region, w: (real, real, real, real), p: Vec, q: Vec, r: Vec, s: Vec, total: real, z: Vec)
    requires 0.0 < total == Positive(w.0) + Positive(w.1) + Positive(w.2) + Positive(w.3)
    requires total == Positive(-w.0) + Positive(-w.1) + Positive(-w.2) + Positive(-w.3)
    requires z == Mean(Positive(w.0), Positive(w.1), Positive(w.2), Positive(w.3), p, q, r, s, total)
    requires z == Mean(Positive(-w.0), Positive(-w.1), Positive(-w.2), Positive(-w.3), p, q, r, s, total)
    requires Has(g, p) || (Has(g, q) && Has(g, r) && Has(g, s))
    requires Has(g, q) || (Has(g, p) && Has(g, r) && Has(g, s))
    requires Has(g, r) || (Has(g, p) && Has(g, q) && Has(g, s))
    requires Has(g, s) || (Has(g, p) && Has(g, q) && Has(g, r))
    ensures Has(g, z)
  {
    hide Has, Mean;
    if (Has(g, p) || w.0 <= 0.0) && (Has(g, q) || w.1 <= 0.0) && (Has(g, r) || w.2 <= 0.0) && (Has(g, s) || w.3 <= 0.0) {
      MeanStays(g, Positive(w.0), Positive(w.1), Positive(w.2), Positive(w.3), p, q, r, s, total);
    } else {
      MeanStays(g, Positive(-w.0), Positive(-w.1), Positive(-w.2), Positive(-w.3), p, q, r, s, total);
    }
  }

  /** Four regions, any three of which meet. */
  lemma FourRegions(a: Region, b: Region, c: Region, d: Region) returns (z: Vec)
    requires Meet(b, c, d) && Meet(a, c, d) && Meet(a, b, d) && Meet(a, b, c)
    ensures Has(a, z) && Has(b, z) && Has(c, z) && Has(d, z)
  {
    var p :| Has(b, p) && Has(c, p) && Has(d, p);
    var q :| Has(a, q) && Has(c, q) && Has(d, q);
    var r :| Has(a, r) && Has(b, r) && Has(d, r);
    var s :| Has(a, s) && Has(b, s) && Has(c, s);
    hide Has, Mean;
    var w, total;
    w, total, z := RadonPoint(p, q, r, s);
    RadonInRegion(a, w, p, q, r, s, total, z);
    RadonInRegion(b, w, p, q, r, s, total, z);
    RadonInRegion(c, w, p, q, r, s, total, z);
    RadonInRegion(d, w, p, q, r, s, total, z);
  }

  lemma MeetTurns(r: Region, s: Region, t: Region)
    requires Meet(r, s, t)
    ensures Meet(r, t, s) && Meet(t, r, s)
  {
    hide Has;
    var p :| Has(r, p) && Has(s, p) && Has(t, p);
  }

  lemma HasBoth(r: Region, s: Region, p: Vec)
    ensures Has(r + s, p) <==> Has(r, p) && Has(s, p)
  {
    hide Level;
    assert forall h :: h in r + s <==> h in r || h in s;
  }

  ghost predicate AnyThreeMeet(fam: seq<Region>) {
    forall i, j, k :: 0 <= i < |fam| && 0 <= j < |fam| && 0 <= k < |fam| ==> Meet(fam[i], fam[j], fam[k])
  }

  /** Two regions merged into one: any two others still meet it. */
  lemma MergedMeets(x: Region, y: Region, a: Region, b: Region)
    requires Meet(y, a, b) && Meet(x, a, b) && Meet(x, y, b) && Meet(x, y, a)
    ensures Meet(x, y, a + b)
  {
    var z := FourRegions(x, y, a, b);
    HasBoth(a, b, z);
    hide Has;
  }

  lemma MergedTwice(x: Region, a: Region, b: Region)
    requires Meet(x, a, b)
    ensures Meet(x, a + b, a + b) && Meet(a + b, x, a + b) && Meet(a + b, a + b, x) && Meet(a + b, a + b, a + b)
  {
    var z :| Has(x, z) && Has(a, z) && Has(b, z);
    HasBoth(a, b, z);
    hide Has;
  }

  /** The merged region next to two, or one, of the others. */
  lemma MergedInFamily(front: seq<Region>, a: Region, b: Region, i: nat, j: nat)
    requires AnyThreeMeet(front + [a, b]) && i < |front| && j < |front|
    ensures Meet(front[i], front[j], front[i])
    ensures Meet(front[i], front[j], a + b) && Meet(front[i], a + b, front[j]) && Meet(a + b, front[i], front[j])
    ensures Meet(front[i], a + b, a + b) && Meet(a + b, front[i], a + b) && Meet(a + b, a + b, front[i]) && Meet(a + b, a + b, a + b)
  {
    var fam, n := front + [a, b], |front|;
    assert fam[i] == front[i] && fam[j] == front[j] && fam[n] == a && fam[n + 1] == b;
    assert Meet(fam[j], fam[n], fam[n + 1]) && Meet(fam[i], fam[n], fam[n + 1]) && Meet(fam[i], fam[j], fam[n + 1]) && Meet(fam[i], fam[j], fam[n]);
    assert Meet(fam[i], fam[j], fam[i]);
    hide Meet, AnyThreeMeet;
    MergedMeets(front[i], front[j], a, b);
    MeetTurns(front[i], front[j], a + b);
    MergedTwice(front[i], a, b);
  }

  lemma ThreeOfFront(front: seq<Region>, a: Region, b: Region, i: nat, j: nat, k: nat)
    requires AnyThreeMeet(front + [a, b]) && i < |front| && j < |front| && k < |front|
    ensures Meet(front[i], front[j], front[k])
  {
    var fam := front + [a, b];
    assert fam[i] == front[i] && fam[j] == front[j] && fam[k] == front[k];
    assert Meet(fam[i], fam[j], fam[k]);
    hide Meet;
  }

  lemma MergeKeeps(front: seq<Region>, a: Region, b: Region)
    requires front != [] && AnyThreeMeet(front + [a, b])
    ensures AnyThreeMeet(front + [a + b])
  {
    var n, merged := |front|, front + [a + b];
    hide Meet;
    forall i, j, k | 0 <= i < |merged| && 0 <= j < |merged| && 0 <= k < |merged| ensures Meet(merged[i], merged[j], merged[k]) {
      hide AnyThreeMeet;
      if i < n && j < n && k < n {
        ThreeOfFront(front, a, b, i, j, k);
      } else {
        var x := if i < n then i else if j < n then j else if k < n then k else 0;
        var y := if k < n then k else if j < n then j else if i < n then i else 0;
        MergedInFamily(front, a, b, x, y);
      }
    }
  }

  /** Helly's theorem. */
  lemma {:induction false} Helly(fam: seq<Region>) returns (z: Vec)
    requires fam != [] && AnyThreeMeet(fam)
    ensures forall i :: 0 <= i < |fam| ==> Has(fam[i], z)
    decreases |fam|
  {
    hide Has;
    if |fam| <= 3 {
      var j, k := if |fam| == 1 then 0 else 1, if |fam| == 3 then 2 else 0;
      assert Meet(fam[0], fam[j], fam[k]);
      z :| Has(fam[0], z) && Has(fam[j], z) && Has(fam[k], z);
    } else {
      var n := |fam| - 2;
      var front, a, b := fam[..n], fam[n], fam[n + 1];
      assert fam == front + [a, b];
      hide Meet, AnyThreeMeet;
      MergeKeeps(front, a, b);
      z := Helly(front + [a + b]);
      AllInFamily(front, a, b, z);
    }
  }

  lemma AllInFamily(front: seq<Region>, a: Region, b: Region, z: Vec)
    requires forall i :: 0 <= i < |front + [a + b]| ==> Has((front + [a + b])[i], z)
    ensures forall i :: 0 <= i < |front + [a, b]| ==> Has((front + [a, b])[i], z)
  {
    hide Has;
    var n := |front|;
    assert (front + [a + b])[n] == a + b;
    HasBoth(a, b, z);
    forall i | 0 <= i < n ensures Has(front[i], z) {
      assert (front + [a + b])[i] == front[i];
    }
  }
}
