/** Elementary facts about real products and quotients, stated on scalars so that the
    geometric proofs never have to search for them. */
module Reals {

  function Abs(r: real): real {
    if r < 0.0 then -r else r
  }

  function Max(a: real, b: real): real {
    if a < b then b else a
  }

  function Min(a: real, b: real): real {
    if b < a then b else a
  }

  /** Largest finite binary32 value: the sentinel `flt_max` of the source. */
  const FLT_MAX: real := 340282346638528859811704183484516925440.0

  lemma Mul3(a: real, b: real, c: real, d: real)
    requires 0.0 <= a && b <= c <= d
    ensures a * b <= a * c <= a * d
  {}

  lemma MulMono(a: real, b: real, c: real)
    requires 0.0 <= a && b <= c
    ensures a * b <= a * c
  {}

  lemma SumAtMost(a: real, b: real, c: real, a': real, b': real, c': real)
    requires a <= a' && b <= b' && c <= c'
    ensures a + b + c <= a' + b' + c'
  {}

  lemma WeightsSum(w: real, u: real, v: real, m: real)
    requires w + u + v == 1.0
    ensures w * m + u * m + v * m == m
  {
    assert w == 1.0 - u - v;
  }

  lemma Weighted(w: real, u: real, v: real, p0: real, p1: real, p2: real, m: real)
    requires 0.0 <= w && 0.0 <= u && 0.0 <= v && p0 <= m && p1 <= m && p2 <= m
    ensures w * p0 + u * p1 + v * p2 <= w * m + u * m + v * m
  {
    var a, b, c := w * p0, u * p1, v * p2;
    var a', b', c' := w * m, u * m, v * m;
    assert a <= a' by { MulMono(w, p0, m); }
    assert b <= b' by { MulMono(u, p1, m); }
    assert c <= c' by { MulMono(v, p2, m); }
    SumAtMost(a, b, c, a', b', c');
  }

  lemma WeightedBound(w: real, u: real, v: real, p0: real, p1: real, p2: real, m: real)
    requires 0.0 <= w && 0.0 <= u && 0.0 <= v && w + u + v == 1.0
    requires p0 <= m && p1 <= m && p2 <= m
    ensures w * p0 + u * p1 + v * p2 <= m
  {
    WeightsSum(w, u, v, m);
    Weighted(w, u, v, p0, p1, p2, m);
  }

  lemma MulAbs(a: real, d: real, e: real)
    requires Abs(d) <= e
    ensures -(Abs(a) * e) <= a * d <= Abs(a) * e
  {
    if a < 0.0 {
      Mul3(-a, -e, d, e);
    } else {
      Mul3(a, -e, d, e);
    }
  }

  lemma SumWithin(a: real, b: real, c: real, ra: real, rb: real, rc: real)
    requires -ra <= a <= ra && -rb <= b <= rb && -rc <= c <= rc
    ensures -(ra + rb + rc) <= a + b + c <= ra + rb + rc
  {}

  function Product(a: real, b: real): real { a * b }

  lemma ProductPositive(a: real, b: real)
    requires (0.0 < a && 0.0 < b) || (a < 0.0 && b < 0.0)
    ensures 0.0 < Product(a, b)
  {}

  lemma SquarePositive(a: real, b: real)
    requires a == b
    ensures 0.0 <= Product(a, b)
    ensures a != 0.0 ==> 0.0 < Product(a, b)
  {
    if a != 0.0 {
      hide Product;
      ProductPositive(a, b);
    }
  }

  lemma ProductMono(a: real, b: real, c: real)
    requires 0.0 <= a && b <= c
    ensures Product(a, b) <= Product(a, c) && Product(b, a) <= Product(c, a)
  {}

  lemma ProductFlip(a: real, b: real)
    ensures Product(-a, -b) == Product(a, b)
  {}

  lemma SmallerSquare(a: real, b: real)
    requires 0.0 <= a <= b || b <= a <= 0.0
    ensures Product(a, a) <= Product(b, b)
  {
    hide Product;
    if 0.0 <= a <= b {
      ProductMono(a, a, b);
      ProductMono(b, a, b);
    } else {
      ProductFlip(a, a);
      ProductFlip(b, b);
      ProductMono(-a, -a, -b);
      ProductMono(-b, -a, -b);
    }
  }

  lemma PositiveFactor(a: real, b: real)
    requires 0.0 < a && 0.0 <= a * b
    ensures 0.0 <= b
  {}

  lemma SquareNonNegative(a: real)
    ensures 0.0 <= a * a
  {}

  lemma ProductNonNegative(a: real, b: real)
    requires 0.0 <= a && 0.0 <= b
    ensures 0.0 <= a * b
  {}

  lemma PositiveProduct(a: real, b: real)
    requires 0.0 < a && 0.0 < b
    ensures 0.0 < a * b
  {}

  function Square(x: real): real { x * x }

  lemma SquarePositiveIff(x: real)
    ensures 0.0 <= Square(x) && (x != 0.0 ==> 0.0 < Square(x))
  {
    assert Square(x) == Product(x, x);
    SquarePositive(x, x);
    hide Square, Product;
  }

  lemma DivMul(a: real, b: real)
    requires b != 0.0
    ensures b * (a / b) == a
  {}

  lemma DivRange(a: real, b: real)
    requires 0.0 < b && 0.0 <= a <= b
    ensures 0.0 <= a / b <= 1.0
  {
    var r := a / b;
    DivMul(a, b);
    if r < 0.0 { PositiveProduct(b, -r); }
    if 1.0 < r { PositiveProduct(b, r - 1.0); }
  }

  lemma DivComplement(n: real, d: real)
    requires 0.0 < d
    ensures (d - n) / d == 1.0 - n / d
  {
    DivMul(n, d);
    DivMul(d - n, d);
    var x := (d - n) / d + n / d - 1.0;
    assert d * x == 0.0;
    if 0.0 < x { PositiveProduct(d, x); }
    if x < 0.0 { PositiveProduct(d, -x); }
  }

  lemma AbsOfProduct(k: real, d: real)
    requires 0.0 < k
    ensures Abs(k * d) == k * Abs(d)
  {
    if d < 0.0 { PositiveProduct(k, -d); } else { ProductNonNegative(k, d); }
  }

  lemma ScaledWithin(k: real, d: real, e: real)
    requires 0.0 < k
    ensures Abs(k * d) <= k * e <==> Abs(d) <= e
  {
    AbsOfProduct(k, d);
    var a := Abs(d);
    hide Abs;
    if a <= e { MulMono(k, a, e); } else { PositiveProduct(k, a - e); }
  }

  lemma SquareOrder(d: real, x: real)
    ensures Square(d) <= Square(x) <==> Abs(d) <= Abs(x)
  {
    var a, b := Abs(d), Abs(x);
    assert Square(d) == Product(a, a) && Square(x) == Product(b, b);
    assert 0.0 <= a && 0.0 <= b;
    hide Abs, Square;
    if a <= b {
      SmallerSquare(a, b);
    } else {
      hide Product;
      StrictSquare(b, a);
    }
  }

  lemma StrictSquare(a: real, b: real)
    requires 0.0 <= a < b
    ensures Product(a, a) < Product(b, b)
  {
    hide Product;
    ProductMono(a, a, b);
    assert Product(b, b) - Product(b, a) == Product(b, b - a) by { Distribute(b, b, a); }
    assert Product(a, b) == Product(b, a) by { Commute(a, b); }
    ProductPositive(b, b - a);
  }

  lemma Distribute(a: real, b: real, c: real)
    ensures Product(a, b) - Product(a, c) == Product(a, b - c)
  {}

  lemma Commute(a: real, b: real)
    ensures Product(a, b) == Product(b, a)
  {}

  lemma ScaledOrder(k: real, x: real, y: real)
    requires 0.0 < k
    ensures Product(k, x) < Product(k, y) <==> x < y
    ensures k * x < k * y <==> x < y
  {
    Distribute(k, y, x);
    Distribute(k, x, y);
    if x < y { ProductPositive(k, y - x); } else { assert 0.0 <= Product(k, x - y) by { ProductNonNegative(k, x - y); } }
  }
}
