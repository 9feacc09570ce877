/** Intervals of the real line, and lines against rectangles: what makes the separating axes
    of segments, rays and triangles a complete set. */
module Lines {
  import opened Reals

  /** A convex set of numbers. */
  ghost predicate Interval(S: real -> bool) {
    forall a, b, c :: S(a) && S(c) && a <= b <= c ==> S(b)
  }

  /** Three intervals that meet in pairs have a common point: the middle one of the three. */
  lemma ThreeIntervals(S: real -> bool, T: real -> bool, U: real -> bool, st: real, su: real, tu: real) returns (m: real)
    requires Interval(S) && Interval(T) && Interval(U)
    requires S(st) && T(st) && S(su) && U(su) && T(tu) && U(tu)
    ensures S(m) && T(m) && U(m) && (m == st || m == su || m == tu)
  {
    if st <= su {
      m := if tu <= st then st else if tu <= su then tu else su;
    } else {
      m := if tu <= su then su else if tu <= st then tu else st;
    }
  }

  lemma FourIntervals(S: real -> bool, T: real -> bool, U: real -> bool, V: real -> bool,
                      st: real, su: real, sv: real, tu: real, tv: real, uv: real) returns (m: real)
    requires Interval(S) && Interval(T) && Interval(U) && Interval(V)
    requires S(st) && T(st) && S(su) && U(su) && S(sv) && V(sv)
    requires T(tu) && U(tu) && T(tv) && V(tv) && U(uv) && V(uv)
    ensures S(m) && T(m) && U(m) && V(m)
  {
    var stu := ThreeIntervals(S, T, U, st, su, tu);
    var stv := ThreeIntervals(S, T, V, st, sv, tv);
    var suv := ThreeIntervals(S, U, V, su, sv, uv);
    m := ThreeIntervals(T, U, V, stu, stv, suv);
  }

  /** The parameters at which the line p + s g is within e of the origin. */
  predicate InSlab(p: real, g: real, e: real, s: real) {
    -e <= p + Product(s, g) <= e
  }

  function SlabOf(p: real, g: real, e: real): real -> bool {
    (s: real) => InSlab(p, g, e, s)
  }

  lemma Monotone(g: real, a: real, b: real)
    requires a <= b
    ensures 0.0 <= g ==> Product(a, g) <= Product(b, g)
    ensures g <= 0.0 ==> Product(b, g) <= Product(a, g)
  {
    if 0.0 <= g { MulMono(g, a, b); } else { MulMono(-g, a, b); }
  }

  lemma SlabConvex(p: real, g: real, e: real, a: real, b: real, c: real)
    requires InSlab(p, g, e, a) && InSlab(p, g, e, c) && a <= b <= c
    ensures InSlab(p, g, e, b)
  {
    hide Product;
    Monotone(g, a, b);
    Monotone(g, b, c);
  }

  lemma SlabIsInterval(p: real, g: real, e: real)
    ensures Interval(SlabOf(p, g, e))
  {
    forall a, b, c | SlabOf(p, g, e)(a) && SlabOf(p, g, e)(c) && a <= b <= c ensures SlabOf(p, g, e)(b) {
      SlabConvex(p, g, e, a, b, c);
      hide InSlab;
    }
  }

  function FromZero(): real -> bool {
    (s: real) => 0.0 <= s
  }

  lemma FromZeroIsInterval()
    ensures Interval(FromZero())
  {}

  lemma Flipped(p: real, g: real, e: real, s: real)
    ensures InSlab(-p, -g, e, s) <==> InSlab(p, g, e, s)
  {}

  /** At the lower end of one slab the line is below the upper end of the other. */
  lemma LowerEnd(px: real, gx: real, ex: real, py: real, gy: real, ey: real, s: real)
    requires 0.0 < gx && 0.0 < gy && 0.0 <= ex && s * gx == -ex - px
    requires gx * py - gy * px <= ey * gx + ex * gy && -ey - py <= s * gy
    ensures InSlab(px, gx, ex, s) && InSlab(py, gy, ey, s)
  {
    var over := py + s * gy - ey;
    assert gx * over == gx * py + gy * (s * gx) - gx * ey;
    assert gy * (s * gx) == -(gy * ex) - gy * px;
    if 0.0 < over { PositiveProduct(gx, over); }
  }

  lemma Ordered(a: real, b: real, g: real)
    requires 0.0 < g && a <= b
    ensures a * g <= b * g
  {}

  lemma UprightLine(px: real, gx: real, ex: real, py: real, gy: real, ey: real) returns (s: real)
    requires 0.0 < gx && 0.0 < gy && 0.0 <= ex && 0.0 <= ey
    requires -(ey * gx + ex * gy) <= gx * py - gy * px <= ey * gx + ex * gy
    ensures InSlab(px, gx, ex, s) && InSlab(py, gy, ey, s)
  {
    var a, b := (-ex - px) / gx, (-ey - py) / gy;
    DivMul(-ex - px, gx);
    DivMul(-ey - py, gy);
    if a <= b {
      s := b;
      Ordered(a, b, gx);
      LowerEnd(py, gy, ey, px, gx, ex, s);
    } else {
      s := a;
      Ordered(b, a, gy);
      LowerEnd(px, gx, ex, py, gy, ey, s);
    }
  }

  lemma LevelLine(px: real, ex: real, py: real, gy: real, ey: real) returns (s: real)
    requires gy != 0.0 && -ex <= px <= ex && 0.0 <= ey
    ensures InSlab(px, 0.0, ex, s) && InSlab(py, gy, ey, s)
  {
    s := -py / gy;
    DivMul(-py, gy);
    assert Product(s, gy) == -py && Product(s, 0.0) == 0.0;
  }

  /** A line that crosses both slabs meets their rectangle unless its own normal separates
      them. */
  lemma LineMeetsRectangle(px: real, gx: real, ex: real, py: real, gy: real, ey: real) returns (s: real)
    requires 0.0 <= ex && 0.0 <= ey && (gx == 0.0 ==> -ex <= px <= ex) && (gy == 0.0 ==> -ey <= py <= ey)
    requires Abs(gx * py - gy * px) <= ey * Abs(gx) + ex * Abs(gy)
    ensures InSlab(px, gx, ex, s) && InSlab(py, gy, ey, s)
  {
    if gx == 0.0 && gy == 0.0 {
      s := 0.0;
    } else if gx == 0.0 {
      s := LevelLine(px, ex, py, gy, ey);
    } else if gy == 0.0 {
      s := LevelLine(py, ey, px, gx, ex);
    } else {
      var qx, hx := if gx < 0.0 then -px else px, Abs(gx);
      var qy, hy := if gy < 0.0 then -py else py, Abs(gy);
      SignsMove(px, gx, py, gy);
      s := UprightLine(qx, hx, ex, qy, hy, ey);
      Flipped(px, gx, ex, s);
      Flipped(py, gy, ey, s);
    }
  }

  lemma SignsMove(px: real, gx: real, py: real, gy: real)
    ensures var qx, qy := if gx < 0.0 then -px else px, if gy < 0.0 then -py else py;
      Abs(Abs(gx) * qy - Abs(gy) * qx) == Abs(gx * py - gy * px)
  {}
}
