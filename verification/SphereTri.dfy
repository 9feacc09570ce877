/** Sphere-triangle overlap (OPC_SphereTriOverlap.h): the seven-region closest-point analysis.

    The squared distance from the sphere center to At(t, s, r) is a quadratic in (s, r).
    Every branch of the code is shown to end at a point satisfying the first-order
    (variational) conditions on the triangle, hence at the global minimum. */
module SphereTri {
  import opened Geometry
  import opened Reals

  /** a00 s^2 + 2 a01 s r + a11 r^2 + 2 b0 s + 2 b1 r + c */
  datatype Quad = Quad(a00: real, a01: real, a11: real, b0: real, b1: real, c: real)

  function Value(q: Quad, s: real, r: real): real {
    q.a00 * s * s + 2.0 * q.a01 * s * r + q.a11 * r * r + 2.0 * q.b0 * s + 2.0 * q.b1 * r + q.c
  }

  /** Half of each partial derivative. */
  function G0(q: Quad, s: real, r: real): real { q.a00 * s + q.a01 * r + q.b0 }
  function G1(q: Quad, s: real, r: real): real { q.a01 * s + q.a11 * r + q.b1 }

  function Det(q: Quad): real { q.a00 * q.a11 - q.a01 * q.a01 }

  /** Unconstrained minimiser times Det: the `u` and `v` the code starts from. */
  function RawU(q: Quad): real { q.a01 * q.b1 - q.a11 * q.b0 }
  function RawV(q: Quad): real { q.a01 * q.b0 - q.a00 * q.b1 }

  /** A strictly convex quadratic: what a non-degenerate triangle gives. */
  predicate Proper(q: Quad) {
    0.0 < q.a00 && 0.0 < q.a11 && 0.0 < Det(q)
  }

  /** First-order optimality of (u, v) over the triangle: the directional derivative towards
      each corner is non-negative. */
  predicate Stationary(q: Quad, u: real, v: real) {
    var m := G0(q, u, v) * u + G1(q, u, v) * v;
    Bary(u, v) && m <= 0.0 && m <= G0(q, u, v) && m <= G1(q, u, v)
  }

  ghost predicate Minimum(q: Quad, u: real, v: real) {
    Bary(u, v) && forall s, r :: Bary(s, r) ==> Value(q, u, v) <= Value(q, s, r)
  }

  function Form(q: Quad, x: real, y: real): real {
    q.a00 * x * x + 2.0 * q.a01 * x * y + q.a11 * y * y
  }

  function Slope(g0: real, g1: real, x: real, y: real): real {
    g0 * x + g1 * y
  }

  lemma Taylor(q: Quad, u: real, v: real, s: real, r: real)
    ensures Value(q, s, r) == Value(q, u, v) + 2.0 * Slope(G0(q, u, v), G1(q, u, v), s - u, r - v) + Form(q, s - u, r - v)
  {}

  lemma CompleteSquare(a00: real, a01: real, a11: real, x: real, y: real)
    ensures a00 * (a00 * x * x + 2.0 * a01 * x * y + a11 * y * y) ==
            (a00 * x + a01 * y) * (a00 * x + a01 * y) + (a00 * a11 - a01 * a01) * (y * y)
  {}

  lemma FormNonNegative(q: Quad, x: real, y: real)
    requires Proper(q)
    ensures 0.0 <= Form(q, x, y)
  {
    var l := q.a00 * x + q.a01 * y;
    SquareNonNegative(y);
    SquareNonNegative(l);
    ProductNonNegative(Det(q), y * y);
    CompleteSquare(q.a00, q.a01, q.a11, x, y);
    PositiveFactor(q.a00, Form(q, x, y));
  }

  lemma DescentBound(g0: real, g1: real, u: real, v: real, s: real, r: real, m: real)
    requires Bary(s, r) && m == g0 * u + g1 * v && m <= 0.0 && m <= g0 && m <= g1
    ensures 0.0 <= Slope(g0, g1, s - u, r - v)
  {
    var w := 1.0 - s - r;
    MulMono(s, m, g0);
    MulMono(r, m, g1);
    MulMono(w, m, 0.0);
    WeightsSum(w, s, r, m);
    SumAtMost(s * m, r * m, w * m, s * g0, r * g1, w * 0.0);
    assert g0 * (s - u) + g1 * (r - v) == s * g0 + r * g1 - m;
  }

  lemma StationaryBelow(q: Quad, u: real, v: real, s: real, r: real)
    requires Proper(q) && Stationary(q, u, v) && Bary(s, r)
    ensures Value(q, u, v) <= Value(q, s, r)
  {
    Taylor(q, u, v, s, r);
    hide Value, Form, Slope, G0, G1;
    FormNonNegative(q, s - u, r - v);
    DescentBound(G0(q, u, v), G1(q, u, v), u, v, s, r, G0(q, u, v) * u + G1(q, u, v) * v);
  }

  /** A stationary point of a convex quadratic is its global minimum over the triangle. */
  lemma StationaryIsMinimum(q: Quad, u: real, v: real)
    requires Proper(q) && Stationary(q, u, v)
    ensures Minimum(q, u, v)
  {
    hide Value, G0, G1;
    forall s, r | Bary(s, r) ensures Value(q, u, v) <= Value(q, s, r) {
      StationaryBelow(q, u, v, s, r);
    }
  }

  // ------------------------------------------------------- region-by-region facts

  lemma Bounded(a00: real, a01: real, a11: real, p: real, q: real)
    requires 0.0 <= a01 <= a00 && 0.0 < a11 && a01 * a01 < a00 * a11
    requires a11 * p <= a01 * q && (a00 - a01) * q <= (a01 - a11) * p
    ensures p <= 0.0
  {
    MulMono(a01, (a00 - a01) * q, (a01 - a11) * p);
    MulMono(a00 - a01, a11 * p, a01 * q);
    assert a01 * ((a01 - a11) * p) - (a00 - a01) * (a11 * p) == (a01 * a01 - a00 * a11) * p;
    assert a01 * ((a00 - a01) * q) == (a00 - a01) * (a01 * q);
    if 0.0 < p { PositiveProduct(a00 * a11 - a01 * a01, p); }
  }

  lemma SmallerThan(a00: real, a01: real, a11: real)
    requires 0.0 < a11 <= a01 && a01 * a01 < a00 * a11
    ensures a01 < a00
  {
    if a00 <= a01 {
      MulMono(a11, a00, a01);
      MulMono(a01, a11, a01);
    }
  }

  /** h is the slope along the edge towards the corner (0,1), k the slope across it.
      Moving past the corner (h <= 0) from the outside of u = 0 cannot be improved. */
  lemma CornerBehind(a00: real, a01: real, a11: real, h: real, k: real)
    requires 0.0 < a00 && 0.0 < a11 && a01 * a01 < a00 * a11
    requires h <= 0.0 && a01 * h < a11 * k && (a01 - a00) * h + (a01 - a11) * k <= 0.0
    ensures h <= k
  {
    if k < h {
      if a01 <= a11 {
        MulMono(a11, k, h);
        MulMono(-h, a01, a11);
      } else {
        SmallerThan(a00, a01, a11);
        assert (a00 - a01) * -h == (a01 - a00) * h;
        assert (a01 - a11) * -k == -((a01 - a11) * k);
        assert a11 * -k == -(a11 * k) && a01 * -h == -(a01 * h);
        Bounded(a00, a01, a11, -k, -h);
      }
    }
  }

  /** Beyond the hypotenuse with k >= h, the corner (0,1) is reached downhill. */
  lemma CornerAhead(a00: real, a01: real, a11: real, h: real, k: real)
    requires 0.0 < a00 && 0.0 < a11 && a01 * a01 < a00 * a11
    requires h <= k && a11 * k <= a01 * h && 0.0 < (a01 - a00) * h + (a01 - a11) * k
    ensures h <= 0.0
  {
    if 0.0 < h {
      MulMono(a11, h, k);
      if a01 < a11 { MulMono(h, a01, a11); }
      SmallerThan(a00, a01, a11);
      assert (a00 - a01) * h == -((a01 - a00) * h);
      Bounded(a00, a01, a11, k, h);
    }
  }

  lemma OriginCorner(a00: real, a01: real, a11: real, b0: real, b1: real)
    requires 0.0 < a00 && 0.0 < a11 && a01 * a01 < a00 * a11
    requires 0.0 <= b1 && a01 * b1 < a11 * b0 && a00 * b1 <= a01 * b0
    ensures 0.0 <= b0
  {
    if b0 < 0.0 {
      if 0.0 <= a01 {
        ProductNonNegative(a01, b1);
        MulMono(a11, b0, 0.0);
      } else {
        assert a00 * (a11 * b0) - a01 * (a01 * b0) == (a00 * a11 - a01 * a01) * b0;
        assert a00 * (a01 * b1) == a01 * (a00 * b1);
        MulMono(a00, a01 * b1, a11 * b0);
        MulMono(-a01, a00 * b1, a01 * b0);
        PositiveProduct(-b0, a00 * a11 - a01 * a01);
      }
    }
  }

  lemma AtOrigin(q: Quad)
    requires 0.0 <= q.b0 && 0.0 <= q.b1
    ensures Stationary(q, 0.0, 0.0) && Value(q, 0.0, 0.0) == q.c
  {}

  lemma AtCorner10(q: Quad)
    requires q.a00 + q.b0 <= 0.0 && q.a00 + q.b0 <= q.a01 + q.b1
    ensures Stationary(q, 1.0, 0.0) && Value(q, 1.0, 0.0) == q.a00 + 2.0 * q.b0 + q.c
  {}

  lemma AtCorner01(q: Quad)
    requires q.a11 + q.b1 <= 0.0 && q.a11 + q.b1 <= q.a01 + q.b0
    ensures Stationary(q, 0.0, 1.0) && Value(q, 0.0, 1.0) == q.a11 + 2.0 * q.b1 + q.c
  {}

  lemma AlongEdge0(q: Quad, u: real)
    requires 0.0 < q.a00 && q.b0 <= 0.0 && -q.b0 <= q.a00 && RawV(q) <= 0.0 && u == -q.b0 / q.a00
    ensures Stationary(q, u, 0.0) && Value(q, u, 0.0) == q.b0 * u + q.c
  {
    DivMul(-q.b0, q.a00);
    DivRange(-q.b0, q.a00);
    var g1 := q.a01 * u + q.b1;
    assert q.a00 * g1 == q.a01 * (q.a00 * u) + q.a00 * q.b1;
    PositiveFactor(q.a00, g1);
    assert G0(q, u, 0.0) == 0.0 && G1(q, u, 0.0) == g1;
    assert q.a00 * u * u == -q.b0 * u;
  }

  lemma AlongEdge1(q: Quad, v: real)
    requires 0.0 < q.a11 && q.b1 <= 0.0 && -q.b1 <= q.a11 && RawU(q) <= 0.0 && v == -q.b1 / q.a11
    ensures Stationary(q, 0.0, v) && Value(q, 0.0, v) == q.b1 * v + q.c
  {
    DivMul(-q.b1, q.a11);
    DivRange(-q.b1, q.a11);
    var g0 := q.a01 * v + q.b0;
    assert q.a11 * g0 == q.a01 * (q.a11 * v) + q.a11 * q.b0;
    PositiveFactor(q.a11, g0);
    assert G1(q, 0.0, v) == 0.0 && G0(q, 0.0, v) == g0;
    assert q.a11 * v * v == -q.b1 * v;
  }

  function Denominator(q: Quad): real { q.a00 - 2.0 * q.a01 + q.a11 }

  /** The closed form the code uses for a general (u, v). */
  function Expanded(q: Quad, u: real, v: real): real {
    u * (q.a00 * u + q.a01 * v + 2.0 * q.b0) + v * (q.a01 * u + q.a11 * v + 2.0 * q.b1) + q.c
  }

  lemma ExpandedIsValue(q: Quad, u: real, v: real)
    ensures Expanded(q, u, v) == Value(q, u, v)
  {}

  lemma HypotenuseSlope(q: Quad, n: real, u: real)
    requires n == q.a11 + q.b1 - q.a01 - q.b0 && Denominator(q) * u == n
    ensures Denominator(q) * G0(q, u, 1.0 - u) == Det(q) - RawU(q) - RawV(q)
    ensures G0(q, u, 1.0 - u) == G1(q, u, 1.0 - u)
  {
    var d := Denominator(q);
    assert d * G0(q, u, 1.0 - u) == (q.a00 - q.a01) * (d * u) + d * (q.a01 + q.b0);
    assert G0(q, u, 1.0 - u) - G1(q, u, 1.0 - u) == d * u - n;
  }

  lemma PositiveDenominator(q: Quad)
    requires Proper(q)
    ensures 0.0 < Denominator(q)
  {
    FormNonNegative(q, 1.0, -1.0);
    if Denominator(q) == 0.0 {
      assert q.a00 * q.a11 - q.a01 * q.a01 == -((q.a00 - q.a11) * (q.a00 - q.a11)) * 0.25;
      SquareNonNegative(q.a00 - q.a11);
    }
  }

  /** Interior of the hypotenuse. */
  lemma AlongHypotenuse(q: Quad, n: real, u: real)
    requires Proper(q) && Det(q) < RawU(q) + RawV(q)
    requires n == q.a11 + q.b1 - q.a01 - q.b0 && 0.0 <= n <= Denominator(q) && u == n / Denominator(q)
    ensures Stationary(q, u, 1.0 - u)
  {
    PositiveDenominator(q);
    DivMul(n, Denominator(q));
    DivRange(n, Denominator(q));
    HypotenuseSlope(q, n, u);
    var g, d := G0(q, u, 1.0 - u), Denominator(q);
    hide G0, G1, Denominator, Det, RawU, RawV;
    if 0.0 < g { ProductNonNegative(d, g); }
    assert g * u + g * (1.0 - u) == g;
  }

  /** Interior of the triangle: both partial derivatives vanish. */
  lemma AtInterior(q: Quad, u: real, v: real)
    requires 0.0 < Det(q) && 0.0 <= RawU(q) && 0.0 <= RawV(q) && RawU(q) + RawV(q) <= Det(q)
    requires u == RawU(q) * (1.0 / Det(q)) && v == RawV(q) * (1.0 / Det(q))
    ensures Stationary(q, u, v)
  {
    var d := Det(q);
    var i := 1.0 / d;
    DivMul(1.0, d);
    DivRange(1.0 * 0.0, d);
    assert 0.0 < i by { if i <= 0.0 { MulMono(d, i, 0.0); } }
    ProductNonNegative(i, RawU(q));
    ProductNonNegative(i, RawV(q));
    MulMono(i, RawU(q) + RawV(q), d);
    InteriorSlopes(q, i);
    assert u + v == i * (RawU(q) + RawV(q));
    hide G0, G1, RawU, RawV, Det;
  }

  lemma InteriorSlopes(q: Quad, i: real)
    requires Det(q) * i == 1.0
    ensures G0(q, RawU(q) * i, RawV(q) * i) == 0.0
    ensures G1(q, RawU(q) * i, RawV(q) * i) == 0.0
  {
    assert q.a00 * RawU(q) + q.a01 * RawV(q) == -(q.b0 * Det(q));
    assert q.a01 * RawU(q) + q.a11 * RawV(q) == -(q.b1 * Det(q));
    assert G0(q, RawU(q) * i, RawV(q) * i) == (q.a00 * RawU(q) + q.a01 * RawV(q)) * i + q.b0;
    assert G1(q, RawU(q) * i, RawV(q) * i) == (q.a01 * RawU(q) + q.a11 * RawV(q)) * i + q.b1;
    Cancel(q.b0, Det(q), i);
    Cancel(q.b1, Det(q), i);
  }

  lemma Cancel(b: real, d: real, i: real)
    requires d * i == 1.0
    ensures -(b * d) * i == -b
  {
    assert b * d * i == b * (d * i);
  }

  // ------------------------------------------------------------------ the code

  /** The `u = 0` side, shared by regions 3 and 4. */
  method MinimizeAlongV(q: Quad) returns (u: real, v: real, sqrDist: real)
    requires Proper(q) && RawU(q) < 0.0 && RawU(q) + RawV(q) <= Det(q) && (0.0 <= q.b0 || 0.0 <= RawV(q))
    ensures Stationary(q, u, v) && sqrDist == Value(q, u, v)
  {
    u := 0.0;
    if q.b1 >= 0.0 {
      if q.b0 < 0.0 { OriginCorner(q.a00, q.a01, q.a11, q.b0, q.b1); }
      v := 0.0;
      sqrDist := q.c;
      AtOrigin(q);
    } else if -q.b1 >= q.a11 {
      CornerIdentities(q);
      CornerBehind(q.a00, q.a01, q.a11, q.a11 + q.b1, q.a01 + q.b0);
      v := 1.0;
      sqrDist := q.a11 + 2.0 * q.b1 + q.c;
      AtCorner01(q);
    } else {
      v := -q.b1 / q.a11;
      sqrDist := q.b1 * v + q.c;
      AlongEdge1(q, v);
    }
  }

  /** The `v = 0` side, shared by regions 4 and 5. */
  method MinimizeAlongU(q: Quad) returns (u: real, v: real, sqrDist: real)
    requires Proper(q) && RawV(q) < 0.0 && RawU(q) + RawV(q) <= Det(q) && (q.b0 < 0.0 || 0.0 <= RawU(q))
    ensures Stationary(q, u, v) && sqrDist == Value(q, u, v)
  {
    v := 0.0;
    if q.b0 >= 0.0 {
      OriginCorner(q.a11, q.a01, q.a00, q.b1, q.b0);
      u := 0.0;
      sqrDist := q.c;
      AtOrigin(q);
    } else if -q.b0 >= q.a00 {
      CornerIdentities(q);
      CornerBehind(q.a11, q.a01, q.a00, q.a00 + q.b0, q.a01 + q.b1);
      u := 1.0;
      sqrDist := q.a00 + 2.0 * q.b0 + q.c;
      AtCorner10(q);
    } else {
      u := -q.b0 / q.a00;
      sqrDist := q.b0 * u + q.c;
      AlongEdge0(q, u);
    }
  }

  /** The raw region signs written with the slopes at the two far corners. */
  lemma CornerIdentities(q: Quad)
    ensures var h, k := q.a11 + q.b1, q.a01 + q.b0;
      RawU(q) == q.a01 * h - q.a11 * k &&
      RawU(q) + RawV(q) - Det(q) == (q.a01 - q.a00) * h + (q.a01 - q.a11) * k
    ensures var h, k := q.a00 + q.b0, q.a01 + q.b1;
      RawV(q) == q.a01 * h - q.a00 * k &&
      RawU(q) + RawV(q) - Det(q) == (q.a01 - q.a11) * h + (q.a01 - q.a00) * k
  {}

  lemma Corner01Ahead(q: Quad)
    requires Proper(q) && 0.0 <= RawU(q) && Det(q) < RawU(q) + RawV(q) && q.a11 + q.b1 <= q.a01 + q.b0
    ensures Stationary(q, 0.0, 1.0) && Value(q, 0.0, 1.0) == q.a11 + 2.0 * q.b1 + q.c
  {
    CornerIdentities(q);
    hide RawU, RawV, Value, Stationary;
    CornerAhead(q.a00, q.a01, q.a11, q.a11 + q.b1, q.a01 + q.b0);
    AtCorner01(q);
  }

  lemma Corner10Ahead(q: Quad)
    requires Proper(q) && 0.0 <= RawV(q) && Det(q) < RawU(q) + RawV(q) && q.a00 + q.b0 <= q.a01 + q.b1
    ensures Stationary(q, 1.0, 0.0) && Value(q, 1.0, 0.0) == q.a00 + 2.0 * q.b0 + q.c
  {
    CornerIdentities(q);
    hide RawU, RawV, Value, Stationary;
    CornerAhead(q.a11, q.a01, q.a00, q.a00 + q.b0, q.a01 + q.b1);
    AtCorner10(q);
  }

  lemma BesideOrigin(a01: real, a11: real, b0: real, b1: real)
    requires 0.0 < a11 && 0.0 <= b1 && a01 * b1 < a11 * b0 && 0.0 < a11 + b1 <= a01 + b0
    ensures 0.0 <= b0
  {
    if b0 < 0.0 {
      ProductNonNegative(a01, b1);
      MulMono(a11, b0, 0.0);
    }
  }

  lemma OriginBesideV(q: Quad)
    requires Proper(q) && RawU(q) < 0.0 && 0.0 <= q.b1 && 0.0 < q.a11 + q.b1 <= q.a01 + q.b0
    ensures Stationary(q, 0.0, 0.0) && Value(q, 0.0, 0.0) == q.c
  {
    hide Value, Stationary, Det;
    BesideOrigin(q.a01, q.a11, q.b0, q.b1);
    AtOrigin(q);
  }

  lemma OriginBesideU(q: Quad)
    requires Proper(q) && RawV(q) < 0.0 && 0.0 <= q.b0 && 0.0 < q.a00 + q.b0 <= q.a01 + q.b1
    ensures Stationary(q, 0.0, 0.0) && Value(q, 0.0, 0.0) == q.c
  {
    hide Value, Stationary, Det;
    BesideOrigin(q.a01, q.a00, q.b1, q.b0);
    AtOrigin(q);
  }

  lemma MirroredHypotenuse(q: Quad, n: real, v: real)
    requires Proper(q) && Det(q) < RawU(q) + RawV(q)
    requires n == q.a00 + q.b0 - q.a01 - q.b1 && 0.0 <= n <= Denominator(q) && v == n / Denominator(q)
    ensures Stationary(q, 1.0 - v, v)
  {
    hide RawU, RawV, Stationary, Det;
    PositiveDenominator(q);
    var d := Denominator(q);
    DivComplement(n, d);
    AlongHypotenuse(q, d - n, 1.0 - v);
  }

  method Region2(q: Quad) returns (u: real, v: real, sqrDist: real)
    requires Proper(q) && RawU(q) < 0.0 && Det(q) < RawU(q) + RawV(q)
    ensures Stationary(q, u, v) && sqrDist == Value(q, u, v)
  {
    PositiveDenominator(q);
    assert 0.0 <= RawV(q);
    assert 0.0 < q.a11;
    hide Value, Stationary, Expanded, RawU, RawV, Det;
    var tmp0, tmp1 := q.a01 + q.b0, q.a11 + q.b1;
    if tmp1 > tmp0 {
      var numer, denom := tmp1 - tmp0, q.a00 - 2.0 * q.a01 + q.a11;
      if numer >= denom {
        Corner10Ahead(q);
        u, v := 1.0, 0.0;
        sqrDist := q.a00 + 2.0 * q.b0 + q.c;
      } else {
        u := numer / denom;
        v := 1.0 - u;
        sqrDist := Expanded(q, u, v);
        AlongHypotenuse(q, numer, u);
        ExpandedIsValue(q, u, v);
      }
    } else {
      u := 0.0;
      if tmp1 <= 0.0 {
        v := 1.0;
        sqrDist := q.a11 + 2.0 * q.b1 + q.c;
        AtCorner01(q);
      } else if q.b1 >= 0.0 {
        v := 0.0;
        sqrDist := q.c;
        OriginBesideV(q);
      } else {
        v := -q.b1 / q.a11;
        sqrDist := q.b1 * v + q.c;
        AlongEdge1(q, v);
      }
    }
  }

  method Region6(q: Quad) returns (u: real, v: real, sqrDist: real)
    requires Proper(q) && RawV(q) < 0.0 && Det(q) < RawU(q) + RawV(q)
    ensures Stationary(q, u, v) && sqrDist == Value(q, u, v)
  {
    PositiveDenominator(q);
    assert 0.0 <= RawU(q);
    assert 0.0 < q.a00;
    hide Value, Stationary, Expanded, RawU, RawV, Det;
    var tmp0, tmp1 := q.a01 + q.b1, q.a00 + q.b0;
    if tmp1 > tmp0 {
      var numer, denom := tmp1 - tmp0, q.a00 - 2.0 * q.a01 + q.a11;
      if numer >= denom {
        Corner01Ahead(q);
        v, u := 1.0, 0.0;
        sqrDist := q.a11 + 2.0 * q.b1 + q.c;
      } else {
        v := numer / denom;
        u := 1.0 - v;
        sqrDist := Expanded(q, u, v);
        MirroredHypotenuse(q, numer, v);
        ExpandedIsValue(q, u, v);
      }
    } else {
      v := 0.0;
      if tmp1 <= 0.0 {
        u := 1.0;
        sqrDist := q.a00 + 2.0 * q.b0 + q.c;
        AtCorner10(q);
      } else if q.b0 >= 0.0 {
        u := 0.0;
        sqrDist := q.c;
        OriginBesideU(q);
      } else {
        u := -q.b0 / q.a00;
        sqrDist := q.b0 * u + q.c;
        AlongEdge0(q, u);
      }
    }
  }

  method Region1(q: Quad) returns (u: real, v: real, sqrDist: real)
    requires Proper(q) && 0.0 <= RawU(q) && 0.0 <= RawV(q) && Det(q) < RawU(q) + RawV(q)
    ensures Stationary(q, u, v) && sqrDist == Value(q, u, v)
  {
    PositiveDenominator(q);
    hide Value, Stationary, Expanded, RawU, RawV, Det;
    var numer := q.a11 + q.b1 - q.a01 - q.b0;
    if numer <= 0.0 {
      Corner01Ahead(q);
      u, v := 0.0, 1.0;
      sqrDist := q.a11 + 2.0 * q.b1 + q.c;
    } else {
      var denom := q.a00 - 2.0 * q.a01 + q.a11;
      if numer >= denom {
        Corner10Ahead(q);
        u, v := 1.0, 0.0;
        sqrDist := q.a00 + 2.0 * q.b0 + q.c;
      } else {
        u := numer / denom;
        v := 1.0 - u;
        sqrDist := Expanded(q, u, v);
        AlongHypotenuse(q, numer, u);
        ExpandedIsValue(q, u, v);
      }
    }
  }

  method Region0(q: Quad) returns (u: real, v: real, sqrDist: real)
    requires Proper(q) && 0.0 <= RawU(q) && 0.0 <= RawV(q) && RawU(q) + RawV(q) <= Det(q)
    ensures Stationary(q, u, v) && sqrDist == Value(q, u, v)
  {
    var invDet := 1.0 / Det(q);
    u, v := RawU(q) * invDet, RawV(q) * invDet;
    sqrDist := Expanded(q, u, v);
    AtInterior(q, u, v);
    ExpandedIsValue(q, u, v);
  }

  // ----------------------------------------------------------- the geometry

  function QuadOf(t: Triangle, center: Point): Quad {
    var e0, e1, k := Sub(t.v1, t.v0), Sub(t.v2, t.v0), Sub(t.v0, center);
    Quad(Dot(e0, e0), Dot(e0, e1), Dot(e1, e1), Dot(k, e0), Dot(k, e1), Dot(k, k))
  }

  /** Some point of the triangle is strictly inside the sphere. */
  ghost predicate SphereReaches(t: Triangle, center: Point, radius2: real) {
    exists p :: InTriangle(t, p) && SquareDistance(center, p) < radius2
  }

  lemma SquareOfSum(k: real, a: real, b: real, s: real, r: real, p: real)
    requires p == k + s * a + r * b
    ensures p * p == (a * a) * s * s + 2.0 * (a * b) * s * r + (b * b) * r * r + 2.0 * (k * a) * s + 2.0 * (k * b) * r + k * k
  {}

  lemma MixOffset(s: real, r: real, a: real, b: real, c: real, o: real)
    ensures Mix(s, r, a, b, c) - o == (a - o) + s * (b - a) + r * (c - a)
  {}

  lemma Negated(a: real, b: real)
    requires a == -b
    ensures a * a == b * b
  {}

  lemma SumOfSquares(q: Quad, k: Point, a: Point, b: Point, s: real, r: real)
    requires q == Quad(Dot(a, a), Dot(a, b), Dot(b, b), Dot(k, a), Dot(k, b), Dot(k, k))
    ensures Value(q, s, r) ==
      (k.x + s * a.x + r * b.x) * (k.x + s * a.x + r * b.x) +
      (k.y + s * a.y + r * b.y) * (k.y + s * a.y + r * b.y) +
      (k.z + s * a.z + r * b.z) * (k.z + s * a.z + r * b.z)
  {
    SquareOfSum(k.x, a.x, b.x, s, r, k.x + s * a.x + r * b.x);
    SquareOfSum(k.y, a.y, b.y, s, r, k.y + s * a.y + r * b.y);
    SquareOfSum(k.z, a.z, b.z, s, r, k.z + s * a.z + r * b.z);
  }

  lemma QuadParts(t: Triangle, center: Point)
    ensures QuadOf(t, center) == var e0, e1, k := Sub(t.v1, t.v0), Sub(t.v2, t.v0), Sub(t.v0, center);
      Quad(Dot(e0, e0), Dot(e0, e1), Dot(e1, e1), Dot(k, e0), Dot(k, e1), Dot(k, k))
  {}

  /** The quadratic is the squared distance to the barycentric point. */
  lemma ValueIsDistance(t: Triangle, center: Point, s: real, r: real)
    ensures SquareDistance(center, At(t, s, r)) == Value(QuadOf(t, center), s, r)
  {
    hide Value, QuadOf, Mix, Dot;
    var p := At(t, s, r);
    assert QuadOf(t, center) == var e0, e1, k := Sub(t.v1, t.v0), Sub(t.v2, t.v0), Sub(t.v0, center);
      Quad(Dot(e0, e0), Dot(e0, e1), Dot(e1, e1), Dot(k, e0), Dot(k, e1), Dot(k, k)) by { QuadParts(t, center); }
    SumOfSquares(QuadOf(t, center), Sub(t.v0, center), Sub(t.v1, t.v0), Sub(t.v2, t.v0), s, r);
    MixOffset(s, r, t.v0.x, t.v1.x, t.v2.x, center.x);
    MixOffset(s, r, t.v0.y, t.v1.y, t.v2.y, center.y);
    MixOffset(s, r, t.v0.z, t.v1.z, t.v2.z, center.z);
    Negated(center.x - p.x, p.x - center.x);
    Negated(center.y - p.y, p.y - center.y);
    Negated(center.z - p.z, p.z - center.z);
    hide Value, QuadOf, Mix, Dot;
  }

  lemma BinetCauchy(a: Point, b: Point, c: Point, d: Point)
    ensures Dot(Cross(a, b), Cross(c, d)) == Dot(a, c) * Dot(b, d) - Dot(a, d) * Dot(b, c)
  {}

  lemma DotZero(a: Point)
    ensures Dot(a, Point(0.0, 0.0, 0.0)) == 0.0
  {}

  lemma FactorsPositive(a: real, b: real, c: real)
    requires 0.0 <= a && 0.0 <= b && 0.0 < a * b - c * c
    ensures 0.0 < a && 0.0 < b
  {
    SquareNonNegative(c);
  }

  /** Non-degenerate triangles give a proper quadratic; on degenerate ones both raw
      coordinates and the determinant vanish, whatever the center. */
  lemma QuadShape(t: Triangle, center: Point)
    ensures NonDegenerate(t) ==> Proper(QuadOf(t, center))
    ensures !NonDegenerate(t) ==> Det(QuadOf(t, center)) == 0.0 && RawU(QuadOf(t, center)) == 0.0 && RawV(QuadOf(t, center)) == 0.0
  {
    var e0, e1, k := Sub(t.v1, t.v0), Sub(t.v2, t.v0), Sub(t.v0, center);
    var n := Cross(e0, e1);
    hide Dot, Cross, Sub;
    BinetCauchy(e0, e1, e0, e1);
    BinetCauchy(k, e1, e0, e1);
    BinetCauchy(k, e0, e0, e1);
    DotSymmetric(e0, e1);
    DotSelf(n);
    DotSelf(e0);
    DotSelf(e1);
    DotZero(n);
    DotZero(Cross(k, e1));
    DotZero(Cross(k, e0));
    if NonDegenerate(t) {
      FactorsPositive(Dot(e0, e0), Dot(e1, e1), Dot(e0, e1));
    }
  }

  lemma ReachesIffMinimum(t: Triangle, center: Point, radius2: real, u: real, v: real)
    requires Minimum(QuadOf(t, center), u, v)
    ensures SphereReaches(t, center, radius2) <==> Value(QuadOf(t, center), u, v) < radius2
  {
    hide Value, QuadOf, At, SquareDistance;
    ValueIsDistance(t, center, u, v);
    if SphereReaches(t, center, radius2) {
      var p :| InTriangle(t, p) && SquareDistance(center, p) < radius2;
      var s, r :| Bary(s, r) && p == At(t, s, r);
      ValueIsDistance(t, center, s, r);
    }
    assert InTriangle(t, At(t, u, v));
  }

  lemma DistanceNonNegative(p: Point, q: Point)
    ensures 0.0 <= SquareDistance(p, q)
  {
    SquareNonNegative(p.x - q.x);
    SquareNonNegative(p.y - q.y);
    SquareNonNegative(p.z - q.z);
  }

  /** The code reports exactly the non-degenerate triangles with a point strictly inside
      the sphere.  A degenerate triangle always lands in region 0 with a zero determinant
      and gets the distance FLT_MAX. */
  method SphereTriOverlap(t: Triangle, center: Point, radius2: real) returns (touch: bool)
    requires radius2 <= FLT_MAX
    ensures touch <==> NonDegenerate(t) && SphereReaches(t, center, radius2)
  {
    var q := QuadOf(t, center);
    QuadShape(t, center);
    var det := Abs(Det(q));
    var u, v := RawU(q), RawV(q);
    var sqrDist: real;
    ghost var degenerate := !NonDegenerate(t);
    hide Det, RawU, RawV, QuadOf, NonDegenerate, SphereReaches, Value, Stationary;
    if u + v <= det {
      if u < 0.0 {
        if v < 0.0 {
          if q.b0 < 0.0 {
            u, v, sqrDist := MinimizeAlongU(q);
          } else {
            u, v, sqrDist := MinimizeAlongV(q);
          }
        } else {
          u, v, sqrDist := MinimizeAlongV(q);
        }
      } else if v < 0.0 {
        u, v, sqrDist := MinimizeAlongU(q);
      } else if det == 0.0 {
        u, v, sqrDist := 0.0, 0.0, FLT_MAX;
      } else {
        u, v, sqrDist := Region0(q);
      }
    } else if u < 0.0 {
      u, v, sqrDist := Region2(q);
    } else if v < 0.0 {
      u, v, sqrDist := Region6(q);
    } else {
      u, v, sqrDist := Region1(q);
    }
    if !degenerate {
      StationaryIsMinimum(q, u, v);
      ReachesIffMinimum(t, center, radius2, u, v);
      ValueIsDistance(t, center, u, v);
      DistanceNonNegative(center, At(t, u, v));
    }
    return Abs(sqrDist) < radius2;
  }
}
