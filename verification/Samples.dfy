/** Mean and variance of finitely many numbers, in terms that do not mention the mean. */
module Samples {
  import opened Reals

  /** Sum of the first k numbers. */
  function Total(xs: seq<real>, k: nat): real
    requires k <= |xs|
  {
    if k == 0 then 0.0 else Total(xs, k - 1) + xs[k - 1]
  }

  /** Sum of the squared distances of the first k numbers from c. */
  function SquaredFrom(xs: seq<real>, k: nat, c: real): real
    requires k <= |xs|
  {
    if k == 0 then 0.0 else SquaredFrom(xs, k - 1, c) + Square(xs[k - 1] - c)
  }

  /** Sum of the squared differences of all pairs among the first k numbers. */
  function PairSquares(xs: seq<real>, k: nat): real
    requires k <= |xs|
  {
    if k == 0 then 0.0 else PairSquares(xs, k - 1) + SquaredFrom(xs, k - 1, xs[k - 1])
  }

  /** The two sums in terms of the count n, the total s and the sum q of squares. */
  function AboutPoint(n: real, s: real, q: real, c: real): real { q - 2.0 * c * s + n * Square(c) }
  function AboutPairs(n: real, s: real, q: real): real { n * q - Square(s) }

  lemma OneMore(n: real, s: real, q: real, x: real, c: real)
    ensures AboutPoint(n + 1.0, s + x, q + Square(x), c) == AboutPoint(n, s, q, c) + Square(x - c)
    ensures AboutPairs(n + 1.0, s + x, q + Square(x)) == AboutPairs(n, s, q) + AboutPoint(n, s, q, x)
  {}

  lemma NoneYet(c: real)
    ensures AboutPoint(0.0, 0.0, 0.0, c) == 0.0 && AboutPairs(0.0, 0.0, 0.0) == 0.0
  {}

  lemma {:induction false} PointSums(xs: seq<real>, k: nat, c: real)
    requires k <= |xs|
    ensures SquaredFrom(xs, k, c) == AboutPoint(k as real, Total(xs, k), SquaredFrom(xs, k, 0.0), c)
  {
    hide Square, AboutPoint, AboutPairs;
    if k > 0 {
      PointSums(xs, k - 1, c);
      OneMore((k - 1) as real, Total(xs, k - 1), SquaredFrom(xs, k - 1, 0.0), xs[k - 1], c);
      assert (k - 1) as real + 1.0 == k as real && xs[k - 1] - 0.0 == xs[k - 1];
    } else {
      NoneYet(c);
    }
  }

  lemma {:induction false} PairSums(xs: seq<real>, k: nat)
    requires k <= |xs|
    ensures PairSquares(xs, k) == AboutPairs(k as real, Total(xs, k), SquaredFrom(xs, k, 0.0))
  {
    hide Square, AboutPoint, AboutPairs;
    if k > 0 {
      PairSums(xs, k - 1);
      PointSums(xs, k - 1, xs[k - 1]);
      OneMore((k - 1) as real, Total(xs, k - 1), SquaredFrom(xs, k - 1, 0.0), xs[k - 1], 0.0);
      assert (k - 1) as real + 1.0 == k as real && xs[k - 1] - 0.0 == xs[k - 1];
    } else {
      NoneYet(0.0);
    }
  }

  lemma AboutMean(n: real, s: real, q: real, mean: real)
    requires n * mean == s
    ensures n * AboutPoint(n, s, q, mean) == AboutPairs(n, s, q)
  {
    assert n * (2.0 * mean * s) == 2.0 * Square(s);
    assert n * (n * Square(mean)) == Square(n * mean);
  }

  /** The squared distances from the mean, n times over, are the squared differences of all
      pairs. */
  lemma MeanSquares(xs: seq<real>, mean: real)
    requires |xs| as real * mean == Total(xs, |xs|)
    ensures |xs| as real * SquaredFrom(xs, |xs|, mean) == PairSquares(xs, |xs|)
  {
    hide Square, AboutPoint, AboutPairs, SquaredFrom, PairSquares, Total;
    PointSums(xs, |xs|, mean);
    PairSums(xs, |xs|);
    AboutMean(|xs| as real, Total(xs, |xs|), SquaredFrom(xs, |xs|, 0.0), mean);
  }

  lemma {:induction false} ShiftedSquares(xs: seq<real>, ys: seq<real>, k: nat, d: real, c: real)
    requires k <= |xs| == |ys| && forall i :: 0 <= i < |xs| ==> ys[i] == xs[i] + d
    ensures SquaredFrom(ys, k, c + d) == SquaredFrom(xs, k, c)
  {
    if k > 0 {
      ShiftedSquares(xs, ys, k - 1, d, c);
      assert ys[k - 1] - (c + d) == xs[k - 1] - c;
      hide Square;
    }
  }

  /** Moving all numbers changes no difference. */
  lemma {:induction false} ShiftedPairs(xs: seq<real>, ys: seq<real>, k: nat, d: real)
    requires k <= |xs| == |ys| && forall i :: 0 <= i < |xs| ==> ys[i] == xs[i] + d
    ensures PairSquares(ys, k) == PairSquares(xs, k)
  {
    if k > 0 {
      ShiftedPairs(xs, ys, k - 1, d);
      ShiftedSquares(xs, ys, k - 1, d, xs[k - 1]);
    }
  }

  function Mean(xs: seq<real>): real
    requires xs != []
  {
    1.0 / |xs| as real * Total(xs, |xs|)
  }

  /** The variance of a sample of at least two. */
  function Variance(xs: seq<real>): real
    requires 2 <= |xs|
  {
    1.0 / (|xs| - 1) as real * SquaredFrom(xs, |xs|, Mean(xs))
  }

  lemma TimesReciprocal(n: real, x: real)
    requires n != 0.0
    ensures n * (1.0 / n * x) == x
  {
    DivMul(1.0, n);
    assert n * (1.0 / n * x) == (n * (1.0 / n)) * x;
  }

  /** The variance without the mean. */
  lemma VarianceOfPairs(xs: seq<real>)
    requires 2 <= |xs|
    ensures Product(|xs| as real, Product((|xs| - 1) as real, Variance(xs))) == PairSquares(xs, |xs|)
  {
    hide SquaredFrom, PairSquares, Total;
    TimesReciprocal(|xs| as real, Total(xs, |xs|));
    MeanSquares(xs, Mean(xs));
    TimesReciprocal((|xs| - 1) as real, SquaredFrom(xs, |xs|, Mean(xs)));
    hide Mean;
  }

  lemma VarianceOrder(xs: seq<real>, ys: seq<real>)
    requires 2 <= |xs| == |ys|
    ensures Variance(xs) < Variance(ys) <==> PairSquares(xs, |xs|) < PairSquares(ys, |ys|)
  {
    VarianceOfPairs(xs);
    VarianceOfPairs(ys);
    hide Variance, PairSquares;
    var n, k := |xs| as real, (|xs| - 1) as real;
    ScaledOrder(k, Variance(xs), Variance(ys));
    ScaledOrder(n, Product(k, Variance(xs)), Product(k, Variance(ys)));
    hide Product;
  }
}
