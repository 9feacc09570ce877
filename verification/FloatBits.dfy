/** Integer tricks on binary32 patterns (OPC_FPU.h, OPC_Common.h): `IR`, `AIR`,
    IS_NEGATIVE_FLOAT, GREATER and ConvertToSortable, against the real numbers the patterns
    stand for (IEEE 754-2019, section 3.4). Words are 32-bit values and `&`, `^` act bit by
    bit. */
module FloatBits {
  import opened ClipMask
  import opened Reals

  const SIGN_BITMASK: nat := 0x8000_0000
  const ALL_ONES: nat := 0xffff_ffff

  function BitXor(x: nat, y: nat): nat
    decreases x + y
  {
    if x == 0 then y else if y == 0 then x
    else (if x % 2 == y % 2 then 0 else 1) + 2 * BitXor(x / 2, y / 2)
  }

  /** Exclusive or with n ones is the n-bit complement. */
  lemma {:induction false} XorComplement(x: nat, n: nat, d: nat)
    requires d == Pow2(n) && x < d
    ensures BitXor(x, d - 1) == d - 1 - x
    decreases n
  {
    if n > 0 && x != 0 {
      var low := Pow2(n - 1);
      assert d == 2 * low;
      hide Pow2;
      XorComplement(x / 2, n - 1, low);
      hide BitXor;
      XorStep(x, d - 1, low - 1);
    }
  }

  lemma XorStep(x: nat, y: nat, h: nat)
    requires x != 0 && y == 2 * h + 1
    ensures BitXor(x, y) == (1 - x % 2) + 2 * BitXor(x / 2, h)
  {
    assert y / 2 == h && y % 2 == 1;
  }

  /** Keeping the n low bits is the remainder modulo 2^n. */
  lemma {:induction false} AndLowMask(x: nat, n: nat, d: nat)
    requires d == Pow2(n)
    ensures 0 < d && BitAnd(x, d - 1) == x % d
    decreases n
  {
    if n == 0 {
      Remainders(x, 1);
    } else if x == 0 {
      PowerPositive(n);
    } else {
      var low := Pow2(n - 1);
      assert d == 2 * low;
      hide Pow2;
      AndLowMask(x / 2, n - 1, low);
      HalfRemainder(x, low);
      hide BitAnd;
      AndStep(x, d - 1, low - 1);
    }
  }

  lemma Remainders(x: nat, d: nat)
    requires d == 1
    ensures x % d == 0 && BitAnd(x, d - 1) == 0
  {}

  lemma AndStep(x: nat, y: nat, h: nat)
    requires x != 0 && y == 2 * h + 1
    ensures BitAnd(x, y) == x % 2 + 2 * BitAnd(x / 2, h)
  {
    assert y / 2 == h && y % 2 == 1;
  }

  lemma Multiples(q: int, d: nat)
    requires 0 < d
    ensures q >= 1 ==> q * d >= d
    ensures q <= -1 ==> q * d <= 0 - d
  {}

  /** Euclidean division is the only one with a remainder below the divisor. */
  lemma QuotientUnique(x: nat, d: nat, q: nat, r: nat)
    requires 0 < d && x == q * d + r && r < d
    ensures x % d == r
  {
    var p, s := x / d, x % d;
    assert x == p * d + s;
    assert (p - q) * d == p * d - q * d;
    Multiples(p - q, d);
  }

  lemma HalfRemainder(x: nat, m: nat)
    requires 0 < m
    ensures x % (2 * m) == x % 2 + 2 * ((x / 2) % m)
  {
    var h := x / 2;
    var q, r := h / m, h % m;
    assert h == q * m + r;
    assert 2 * (q * m) == q * (2 * m);
    QuotientUnique(x, 2 * m, q, 2 * r + x % 2);
  }

  lemma {:induction false} TopBitSet(x: nat, k: nat)
    requires x < 2 * Pow2(k)
    ensures Active(x, k) <==> Pow2(k) <= x
  {
    if k > 0 { TopBitSet(x / 2, k - 1); }
  }

  // -------------------------------------------------------- the represented value

  const HIDDEN_BIT: nat := 0x80_0000

  /** Biased exponent and fraction of a pattern without its sign. */
  function Exponent(p: nat): nat { p / HIDDEN_BIT }
  function Fraction(p: nat): nat { p % HIDDEN_BIT }

  /** Magnitude in units of the least positive binary32 number, 2^-149. */
  function Units(p: nat): nat {
    if Exponent(p) == 0 then Fraction(p) else (HIDDEN_BIT + Fraction(p)) * Pow2(Exponent(p) - 1)
  }

  function Pattern(f: nat): nat { if f < SIGN_BITMASK then f else f - SIGN_BITMASK }

  predicate Negative(f: nat) { SIGN_BITMASK <= f }

  predicate Finite(f: nat) { f < 0x1_0000_0000 && Exponent(Pattern(f)) < 255 }

  function SignedUnits(f: nat): int {
    if Negative(f) then 0 - Units(Pattern(f)) else Units(Pattern(f))
  }

  function Value(f: nat): real
    requires Finite(f)
  {
    PowerPositive(149);
    SignedUnits(f) as real / (Pow2(149) as real)
  }

  lemma NextUnits(p: nat)
    ensures Units(p) < Units(p + 1)
  {
    var e, m := Exponent(p), Fraction(p);
    assert p == e * HIDDEN_BIT + m;
    if m + 1 < HIDDEN_BIT {
      assert Exponent(p + 1) == e && Fraction(p + 1) == m + 1;
      if e > 0 { StepWithin(HIDDEN_BIT + m, Pow2(e - 1), e - 1); }
    } else {
      assert Exponent(p + 1) == e + 1 && Fraction(p + 1) == 0;
      if e > 0 { StepUp(Pow2(e - 1), e - 1); }
    }
  }

  lemma StepWithin(a: nat, w: nat, k: nat)
    requires w == Pow2(k)
    ensures a * w < (a + 1) * w
  {
    PowerPositive(k);
  }

  lemma StepUp(w: nat, k: nat)
    requires w == Pow2(k)
    ensures (HIDDEN_BIT + (HIDDEN_BIT - 1)) * w < HIDDEN_BIT * Pow2(k + 1)
  {
    PowerPositive(k);
  }

  /** Across subnormals and exponents alike, larger patterns are larger numbers. */
  lemma {:induction false} UnitsMonotone(p: nat, q: nat)
    requires p < q
    ensures Units(p) < Units(q)
    decreases q
  {
    hide Units;
    NextUnits(q - 1);
    if p < q - 1 { UnitsMonotone(p, q - 1); }
  }

  lemma ScaledOrder(a: int, b: int, d: nat)
    requires 0 < d
    ensures a as real / (d as real) < b as real / (d as real) <==> a < b
  {
    var x, y, e := a as real / (d as real), b as real / (d as real), d as real;
    DivMul(a as real, e);
    DivMul(b as real, e);
    Reals.ScaledOrder(e, x, y);
  }

  // -------------------------------------------------------------- the operations

  /** The word as a signed 32-bit integer. */
  function Signed(w: nat): int {
    if w < SIGN_BITMASK then w else w - 0x1_0000_0000
  }

  method ConvertToSortable(f: udword) returns (Fi: int)
    ensures Fi == if Negative(f) then 0 - Pattern(f) else Pattern(f)
  {
    TopPower();
    assert Pow2(32) == 0x1_0000_0000;
    var Fmask: nat := if Signed(f) < 0 then ALL_ONES else 0;
    var bits := BitXor(f, Fmask);
    XorComplement(f, 32, 0x1_0000_0000);
    Fmask := BitAnd(Fmask, 0x7fff_ffff);
    AndLowMask(ALL_ONES, 31, SIGN_BITMASK);
    Fi := Signed(bits) - Signed(Fmask);
  }

  function Sortable(f: nat): int {
    if Negative(f) then 0 - Pattern(f) else Pattern(f)
  }

  /** ConvertToSortable preserves and reflects the order of the represented numbers, and
      identifies exactly the patterns of equal value: the two zeros. */
  lemma SortableOrder(f: udword, g: udword)
    requires Finite(f) && Finite(g)
    ensures Value(f) < Value(g) <==> Sortable(f) < Sortable(g)
    ensures Value(f) == Value(g) <==> Sortable(f) == Sortable(g)
    ensures Sortable(f) == 0 <==> f == 0 || f == SIGN_BITMASK
  {
    PowerPositive(149);
    ScaledOrder(SignedUnits(f), SignedUnits(g), Pow2(149));
    ScaledOrder(SignedUnits(g), SignedUnits(f), Pow2(149));
    ComparePatterns(Pattern(f), Pattern(g));
    ComparePatterns(0, Pattern(f));
    ComparePatterns(0, Pattern(g));
    assert Units(0) == 0;
    hide Units, Pow2;
  }

  lemma ComparePatterns(p: nat, q: nat)
    ensures Units(p) < Units(q) <==> p < q
    ensures Units(p) == Units(q) <==> p == q
  {
    hide Units;
    if p < q { UnitsMonotone(p, q); }
    if q < p { UnitsMonotone(q, p); }
  }

  /** AIR(x) > IR(y) */
  predicate GreaterBits(x: udword, y: udword) {
    BitAnd(x, 0x7fff_ffff) > y
  }

  /** IS_NEGATIVE_FLOAT is the sign bit, and AIR drops it. */
  lemma SignAndMagnitude(x: udword)
    ensures BitAnd(x, SIGN_BITMASK) != 0 <==> Negative(x)
    ensures BitAnd(x, 0x7fff_ffff) == Pattern(x)
  {
    TopPower();
    hide Pow2, BitAnd, Active;
    AndLowMask(x, 31, SIGN_BITMASK);
    AndIsActive(x, 31);
    TopBitSet(x, 31);
  }

  /** GREATER is |x| > y when y's sign bit is clear; with the sign bit set it never holds, so
      a negative bound (or -0) never rejects. */
  lemma GreaterIsComparison(x: udword, y: udword)
    requires Finite(x) && Finite(y)
    ensures !Negative(y) ==> (GreaterBits(x, y) <==> Abs(Value(x)) > Value(y))
    ensures Negative(y) ==> !GreaterBits(x, y)
  {
    SignAndMagnitude(x);
    hide BitAnd, Value;
    if !Negative(y) {
      AbsoluteValue(x);
      SortableOrder(y, Pattern(x));
    }
  }

  lemma AbsoluteValue(x: udword)
    requires Finite(x)
    ensures Finite(Pattern(x)) && Abs(Value(x)) == Value(Pattern(x))
  {
    PowerPositive(149);
    hide Pow2;
    ScaledOrder(Units(Pattern(x)), 0, Pow2(149));
    ScaledOrder(0, Units(Pattern(x)), Pow2(149));
    Opposite(Units(Pattern(x)), Pow2(149));
    hide Units;
  }

  lemma Opposite(a: int, d: nat)
    requires 0 < d
    ensures (-a) as real / (d as real) == -(a as real / (d as real)) && 0.0 / (d as real) == 0.0
  {}
}
