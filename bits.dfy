/**
 * Arbitrary-precision bitwise arithmetic on non-negative integers, as Go's math/big
 * and JavaScript's BigInt perform it on the leaf values of the census tree.
 */
module Bits {

  function Pow2(k: nat): (r: nat)
    ensures r >= 1
  {
    if k == 0 then 1 else 2 * Pow2(k - 1)
  }

  /** Bitwise OR of two non-negative integers (`a | b`), one bit at a time from the least significant. */
  function BitOr(a: nat, b: nat): nat
    decreases a + b
  {
    if a == 0 then b
    else if b == 0 then a
    else 2 * BitOr(a / 2, b / 2) + (if a % 2 == 1 || b % 2 == 1 then 1 else 0)
  }

  /** Bitwise AND of two non-negative integers (`a & b`). */
  function BitAnd(a: nat, b: nat): nat
    decreases a + b
  {
    if a == 0 || b == 0 then 0
    else 2 * BitAnd(a / 2, b / 2) + (if a % 2 == 1 && b % 2 == 1 then 1 else 0)
  }

  /** `x << k`: k doublings. */
  function Shl(x: nat, k: nat): nat
  {
    if k == 0 then x else 2 * Shl(x, k - 1)
  }

  /** `x >> k` on a non-negative integer: k halvings, each rounded down. */
  function Shr(x: nat, k: nat): nat
  {
    if k == 0 then x else Shr(x / 2, k - 1)
  }

  /** `x & ((1 << k) - 1)`: the k low bits of x, one bit at a time. */
  function LowBits(x: nat, k: nat): nat
  {
    if k == 0 then 0 else 2 * LowBits(x / 2, k - 1) + x % 2
  }

  lemma {:induction false} ShlIsMul(x: nat, k: nat)
    ensures Shl(x, k) == x * Pow2(k)
  {
    if k > 0 {
      ShlIsMul(x, k - 1);
      assert x * Pow2(k) == 2 * (x * Pow2(k - 1));
    }
  }

  lemma {:induction false} ShrIsDiv(x: nat, k: nat)
    ensures Shr(x, k) == x / Pow2(k)
  {
    if k > 0 {
      ShrIsDiv(x / 2, k - 1);
      DivHalf(x, Pow2(k - 1));
    }
  }

  /** Halving and then dividing by p is dividing by 2p. */
  lemma {:induction false} DivHalf(x: nat, p: nat)
    requires p > 0
    ensures (x / 2) / p == x / (2 * p)
  {
    var q := (x / 2) / p;
    var r := (x / 2) % p;
    assert x / 2 == p * q + r;
    assert x == (2 * p) * q + (2 * r + x % 2);
    ModUnique(x, 2 * p, q, 2 * r + x % 2);
  }

  lemma {:induction false} LowBitsIsMod(x: nat, k: nat)
    ensures LowBits(x, k) == x % Pow2(k)
  {
    if k > 0 {
      LowBitsIsMod(x / 2, k - 1);
      HalfMod(x, Pow2(k - 1));
    }
  }

  /** The low bits are what the mask `(1 << k) - 1` keeps. */
  lemma {:induction false} LowBitsIsMask(x: nat, k: nat)
    ensures LowBits(x, k) == BitAnd(x, Pow2(k) - 1)
  {
    if k == 0 {
    } else if x == 0 {
      LowBitsOfZero(k);
    } else {
      var p := Pow2(k - 1);
      assert Pow2(k) - 1 == 2 * (p - 1) + 1;
      assert (Pow2(k) - 1) / 2 == p - 1 && (Pow2(k) - 1) % 2 == 1;
      LowBitsIsMask(x / 2, k - 1);
    }
  }

  lemma {:induction false} LowBitsOfZero(k: nat)
    ensures LowBits(0, k) == 0
  {
    if k > 0 {
      LowBitsOfZero(k - 1);
    }
  }

  lemma {:induction false} LowBitsBelow(x: nat, k: nat)
    ensures LowBits(x, k) < Pow2(k)
  {
    if k > 0 {
      LowBitsBelow(x / 2, k - 1);
    }
  }

  /** A value already below 2^k is its own k low bits. */
  lemma {:induction false} LowBitsSmall(x: nat, k: nat)
    requires x < Pow2(k)
    ensures LowBits(x, k) == x
  {
    if k > 0 {
      LowBitsSmall(x / 2, k - 1);
    }
  }

  /** A value below 2^j shifted left by k, plus a value below 2^k, stays below 2^(j+k). */
  lemma {:induction false} ShiftedBelow(a: nat, j: nat, k: nat, b: nat)
    requires a < Pow2(j) && b < Pow2(k)
    ensures Shl(a, k) + b < Pow2(j + k)
  {
    if k > 0 {
      ShiftedBelow(a, j, k - 1, b / 2);
      assert Pow2(j + k) == 2 * Pow2(j + (k - 1));
    }
  }

  /** Only zero shifts to zero. */
  lemma {:induction false} ShlZero(a: nat, k: nat)
    ensures Shl(a, k) == 0 <==> a == 0
  {
    if k > 0 {
      ShlZero(a, k - 1);
    }
  }

  /** `a | b` is zero only when both operands are. */
  lemma {:induction false} BitOrZero(a: nat, b: nat)
    ensures BitOr(a, b) == 0 <==> a == 0 && b == 0
    decreases a + b
  {
    if a != 0 && b != 0 {
      BitOrZero(a / 2, b / 2);
    }
  }

  lemma {:induction false} Pow2Add(j: nat, k: nat)
    ensures Pow2(j + k) == Pow2(j) * Pow2(k)
  {
    if j > 0 {
      Pow2Add(j - 1, k);
    }
  }

  lemma {:induction false} Pow2Exceeds(k: nat)
    ensures k < Pow2(k)
  {
    if k > 0 {
      Pow2Exceeds(k - 1);
    }
  }

  lemma {:induction false} Pow2Monotone(j: nat, k: nat)
    requires j <= k
    ensures Pow2(j) <= Pow2(k)
  {
    if j < k {
      Pow2Monotone(j, k - 1);
    }
  }

  lemma {:induction false} MulAtLeast(d: nat, k: int)
    requires k >= 1
    ensures d * k >= d
  {
    if k > 1 {
      MulAtLeast(d, k - 1);
      assert d * k == d * (k - 1) + d;
    }
  }

  /** Euclidean division is unique: a quotient and a remainder in range are `/` and `%`. */
  lemma {:induction false} ModUnique(x: nat, d: nat, q: nat, r: nat)
    requires d > 0 && x == d * q + r && r < d
    ensures x % d == r && x / d == q
  {
    var q0, r0 := x / d, x % d;
    assert x == d * q0 + r0;
    var k := q - q0;
    assert d * k == r0 - r by {
      assert d * q == d * q0 + d * k;
    }
    if k >= 1 {
      MulAtLeast(d, k);
      assert false;
    } else if k <= -1 {
      MulAtLeast(d, -k);
      assert false;
    }
  }

  lemma {:induction false} HalfMod(x: nat, p: nat)
    requires p > 0
    ensures x % (2 * p) == 2 * ((x / 2) % p) + x % 2
  {
    var q2 := (x / 2) % p;
    var q1 := (x / 2) / p;
    assert x / 2 == p * q1 + q2;
    assert x == (2 * p) * q1 + (2 * q2 + x % 2);
    ModUnique(x, 2 * p, q1, 2 * q2 + x % 2);
  }

  /**
   * Shifting an integer left by k bits leaves the k low bits zero, so OR with any
   * value below 2^k is addition: `(a << k) | b == (a << k) + b`.
   */
  lemma {:induction false} OrShiftedIsAdd(a: nat, k: nat, b: nat)
    requires b < Pow2(k)
    ensures BitOr(Shl(a, k), b) == Shl(a, k) + b
  {
    if k == 0 {
    } else if b == 0 {
    } else if a == 0 {
      ShlZero(a, k);
    } else {
      ShlZero(a, k - 1);
      OrShiftedIsAdd(a, k - 1, b / 2);
    }
  }

  /** `(hi << k) | lo` with lo below 2^k splits back into hi and lo. */
  lemma {:induction false} SplitOr(hi: nat, k: nat, lo: nat)
    requires lo < Pow2(k)
    ensures Shr(BitOr(Shl(hi, k), lo), k) == hi
    ensures LowBits(BitOr(Shl(hi, k), lo), k) == lo
  {
    OrShiftedIsAdd(hi, k, lo);
    SplitShifted(hi, k, lo);
  }

  lemma {:induction false} SplitShifted(hi: nat, k: nat, lo: nat)
    requires lo < Pow2(k)
    ensures Shr(Shl(hi, k) + lo, k) == hi
    ensures LowBits(Shl(hi, k) + lo, k) == lo
  {
    if k > 0 {
      SplitShifted(hi, k - 1, lo / 2);
      assert (Shl(hi, k) + lo) / 2 == Shl(hi, k - 1) + lo / 2;
    }
  }
}
