/** Clip masks of the planes collider: unsigned words, one bit per plane, walked with
    `Mask += Mask`.  `&` and `|` are defined bit by bit on the words' values. */
module ClipMask {

  /** Values of an unsigned 32-bit word. */
  type udword = n: nat | n < 0x1_0000_0000

  function Pow2(i: nat): nat {
    if i == 0 then 1 else 2 * Pow2(i - 1)
  }

  function BitAnd(x: nat, y: nat): nat {
    if x == 0 || y == 0 then 0 else (x % 2) * (y % 2) + 2 * BitAnd(x / 2, y / 2)
  }

  function BitOr(x: nat, y: nat): nat
    decreases x + y
  {
    if x == 0 then y else if y == 0 then x
    else (if x % 2 == 1 || y % 2 == 1 then 1 else 0) + 2 * BitOr(x / 2, y / 2)
  }

  /** Plane i's bit is set. */
  predicate Active(mask: nat, i: nat) {
    if i == 0 then mask % 2 == 1 else Active(mask / 2, i - 1)
  }

  /** A mask whose bits all belong to the first `n` planes. The shift `1 << n` and the
      doubling loops are only meaningful for at most 31 planes. */
  predicate MaskFor(mask: nat, n: nat) {
    n <= 31 && mask < Pow2(n)
  }

  lemma {:induction false} AndIsActive(x: nat, k: nat)
    ensures BitAnd(x, Pow2(k)) != 0 <==> Active(x, k)
  {
    if k > 0 {
      AndIsActive(x / 2, k - 1);
      assert Pow2(k) / 2 == Pow2(k - 1) && Pow2(k) % 2 == 0;
      if x == 0 { ZeroInactive(k); }
    } else if x != 0 {
      assert BitAnd(x, 1) == x % 2 + 2 * BitAnd(x / 2, 0);
    }
  }

  lemma {:induction false} ZeroInactive(k: nat)
    ensures !Active(0, k)
  {
    if k > 0 { ZeroInactive(k - 1); }
  }

  lemma {:induction false} PowerOnly(k: nat, i: nat)
    ensures Active(Pow2(k), i) <==> i == k
  {
    if i == 0 {
    } else if k == 0 {
      ZeroInactive(i - 1);
    } else {
      PowerOnly(k - 1, i - 1);
    }
  }

  lemma {:induction false} OrBits(x: nat, y: nat, i: nat)
    ensures Active(BitOr(x, y), i) <==> Active(x, i) || Active(y, i)
    decreases i
  {
    if x == 0 || y == 0 {
      ZeroInactive(i);
    } else if i > 0 {
      OrBits(x / 2, y / 2, i - 1);
    }
  }

  /** `|= Mask` sets the bit of one plane and leaves the others alone. */
  lemma SetBit(x: nat, k: nat, i: nat)
    ensures Active(BitOr(x, Pow2(k)), i) <==> i == k || Active(x, i)
  {
    OrBits(x, Pow2(k), i);
    PowerOnly(k, i);
  }

  lemma {:induction false} OrBelow(x: nat, y: nat, n: nat)
    requires x < Pow2(n) && y < Pow2(n)
    ensures BitOr(x, y) < Pow2(n)
  {
    if x != 0 && y != 0 {
      OrBelow(x / 2, y / 2, n - 1);
    }
  }

  lemma {:induction false} ClearAbove(x: nat, k: nat, i: nat)
    requires x < Pow2(k) && k <= i
    ensures !Active(x, i)
  {
    if k == 0 { ZeroInactive(i); } else { ClearAbove(x / 2, k - 1, i - 1); }
  }

  lemma {:induction false} PowerMonotone(i: nat, j: nat)
    requires i <= j
    ensures 0 < Pow2(i) <= Pow2(j) && (i < j ==> Pow2(i) < Pow2(j))
    decreases j
  {
    if i < j {
      PowerMonotone(i, j - 1);
    } else if i > 0 {
      PowerMonotone(i - 1, i - 1);
    }
  }

  lemma TopPower()
    ensures Pow2(31) == 0x8000_0000
  {
    assert Pow2(5) == 32;
    assert Pow2(10) == 1024;
    assert Pow2(15) == 32768;
    assert Pow2(20) == 1048576;
    assert Pow2(25) == 33554432;
  }

  /** (1 << n) - 1 */
  function FullMask(n: nat): nat {
    PowerPositive(n);
    Pow2(n) - 1
  }

  lemma PowerPositive(n: nat)
    ensures 0 < Pow2(n)
  {
    PowerMonotone(n, n);
  }

  /** The full mask activates the first n planes and no other. */
  lemma {:induction false} FullMaskActive(n: nat, i: nat)
    ensures Active(FullMask(n), i) <==> i < n
  {
    PowerPositive(n);
    if n == 0 {
      ZeroInactive(i);
    } else if i > 0 {
      PowerPositive(n - 1);
      assert FullMask(n) / 2 == FullMask(n - 1);
      FullMaskActive(n - 1, i - 1);
    }
  }

  /** Doubling a mask bit that is still within a mask for at most 31 planes does not wrap. */
  lemma NoWrap(mask: nat, n: nat, k: nat)
    requires MaskFor(mask, n) && Pow2(k) <= mask
    ensures k < n && (Pow2(k) + Pow2(k)) % 0x1_0000_0000 == Pow2(k + 1) == Pow2(k) + Pow2(k)
  {
    if n <= k { PowerMonotone(n, k); }
    TopPower();
    PowerMonotone(k + 1, 31);
  }
}
