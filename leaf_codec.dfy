/**
 * The census leaf codec: one account is one integer leaf, `(address << 88) | weight`,
 * with the 160-bit address above an 88-bit weight. A leaf of 0 marks an empty slot.
 * This module holds the Go packers (go-tool census and delegation-tool merkle) and
 * the Go unpacker; the TypeScript variants live with the code that uses them.
 */
module LeafCodec {
  import opened Bits

  const WeightBits: nat := 88
  const AddressBits: nat := 160

  predicate IsAddress(a: nat) { a < Pow2(AddressBits) }

  predicate IsUint64(w: nat) { w < Pow2(64) }

  /** `(address << 88) | weight`, the packing the census contract defines. */
  function PackLeaf(address: nat, weight: nat): nat
  {
    BitOr(Shl(address, WeightBits), weight)
  }

  /** The delegation-tool variant, `(address << 88) + weight`. */
  function PackLeafByAdd(address: nat, weight: nat): nat
  {
    Shl(address, WeightBits) + weight
  }

  /**
   * The two packings agree on every weight that fits in 88 bits, in particular on every
   * uint64 weight, since the shifted address leaves the 88 low bits zero.
   */
  lemma {:induction false} PackLeafByAddAgrees(address: nat, weight: nat)
    requires weight < Pow2(WeightBits)
    ensures PackLeafByAdd(address, weight) == PackLeaf(address, weight)
  {
    OrShiftedIsAdd(address, WeightBits, weight);
  }

  lemma {:induction false} Uint64FitsWeight(weight: nat)
    requires IsUint64(weight)
    ensures weight < Pow2(WeightBits)
  {
    Pow2Monotone(64, WeightBits);
  }

  /** Go's conversion `int64(w)` of a uint64: values from 2^63 up wrap to negative. */
  function Int64Cast(w: nat): (r: int)
    requires IsUint64(w)
    ensures -(Pow2(63) as int) <= r < Pow2(63)
    ensures r >= 0 <==> w < Pow2(63)
  {
    assert Pow2(64) == 2 * Pow2(63);
    if w < Pow2(63) then w else w - Pow2(64)
  }

  /**
   * The go-tool census PackLeaf as written: `Lsh(addr, 88).Or(big.NewInt(int64(weight)))`.
   * big.Int's OR follows two's complement; a negative int64 has every bit from 63 upward
   * set, which covers all the shifted address bits, so the OR is the negative value itself.
   */
  function PackLeafAsWritten(address: nat, weight: nat): int
    requires IsUint64(weight)
  {
    var w := Int64Cast(weight);
    if w >= 0 then PackLeaf(address, w) else w
  }

  /** Below 2^63 the cast is harmless and the as-written packing is the intended one. */
  lemma {:induction false} PackLeafAsWrittenAgrees(address: nat, weight: nat)
    requires weight < Pow2(63)
    ensures PackLeafAsWritten(address, weight) == PackLeaf(address, weight)
  {
  }

  /**
   * From 2^63 up the as-written packing is negative, so it is no packed leaf at all, and it
   * forgets the address: two distinct accounts with the same weight get the same value,
   * while the intended packing keeps them apart.
   */
  lemma {:induction false} PackLeafAsWrittenCollides(a1: nat, a2: nat, weight: nat)
    requires IsUint64(weight) && weight >= Pow2(63) && a1 != a2
    ensures PackLeafAsWritten(a1, weight) < 0
    ensures PackLeafAsWritten(a1, weight) == PackLeafAsWritten(a2, weight)
    ensures PackLeaf(a1, weight) != PackLeaf(a2, weight)
  {
    Uint64FitsWeight(weight);
    PackDistinct(a1, a2, weight, WeightBits);
  }

  /** Below 2^k, distinct addresses shifted by k and ORed with the same value stay distinct. */
  lemma {:induction false} PackDistinct(a1: nat, a2: nat, weight: nat, k: nat)
    requires weight < Pow2(k) && a1 != a2
    ensures BitOr(Shl(a1, k), weight) != BitOr(Shl(a2, k), weight)
  {
    OrShiftedIsAdd(a1, k, weight);
    OrShiftedIsAdd(a2, k, weight);
    SplitShifted(a1, k, weight);
    SplitShifted(a2, k, weight);
  }

  /**
   * The go-tool census UnpackLeaf: the weight is the low 88 bits read back as a uint64
   * (`Uint64` keeps the low 64 bits), the address the bits from 88 up cut to 160 bits
   * (the last 20 bytes of the big-endian form).
   */
  function UnpackLeaf(leaf: nat): (r: (nat, nat))
    ensures IsAddress(r.0) && IsUint64(r.1)
  {
    LowBitsBelow(Shr(leaf, WeightBits), AddressBits);
    LowBitsBelow(LowBits(leaf, WeightBits), 64);
    (LowBits(Shr(leaf, WeightBits), AddressBits), LowBits(LowBits(leaf, WeightBits), 64))
  }

  /** Unpacking undoes packing for every 20-byte address and every 64-bit weight. */
  lemma {:induction false} UnpackPackRoundTrip(address: nat, weight: nat)
    requires IsAddress(address) && IsUint64(weight)
    ensures UnpackLeaf(PackLeaf(address, weight)) == (address, weight)
  {
    SplitAt(address, weight, WeightBits, AddressBits, 64);
  }

  /** The round trip for any split point k, address width m and weight width n ≤ k. */
  lemma {:induction false} SplitAt(address: nat, weight: nat, k: nat, m: nat, n: nat)
    requires address < Pow2(m) && weight < Pow2(n) && n <= k
    ensures LowBits(Shr(BitOr(Shl(address, k), weight), k), m) == address
    ensures LowBits(LowBits(BitOr(Shl(address, k), weight), k), n) == weight
  {
    Pow2Monotone(n, k);
    OrShiftedIsAdd(address, k, weight);
    SplitShifted(address, k, weight);
    LowBitsSmall(weight, n);
    LowBitsSmall(address, m);
  }

  /** Distinct accounts or weights pack to distinct leaves. */
  lemma {:induction false} PackLeafInjective(a1: nat, w1: nat, a2: nat, w2: nat)
    requires IsAddress(a1) && IsUint64(w1) && IsAddress(a2) && IsUint64(w2)
    requires PackLeaf(a1, w1) == PackLeaf(a2, w2)
    ensures a1 == a2 && w1 == w2
  {
    UnpackPackRoundTrip(a1, w1);
    UnpackPackRoundTrip(a2, w2);
  }

  /** Only the zero address with weight 0 packs to the empty-slot value 0. */
  lemma {:induction false} PackLeafZero(address: nat, weight: nat)
    requires weight < Pow2(WeightBits)
    ensures PackLeaf(address, weight) == 0 <==> address == 0 && weight == 0
  {
    PackZeroAt(address, weight, WeightBits);
  }

  lemma {:induction false} PackZeroAt(address: nat, weight: nat, k: nat)
    requires weight < Pow2(k)
    ensures BitOr(Shl(address, k), weight) == 0 <==> address == 0 && weight == 0
  {
    OrShiftedIsAdd(address, k, weight);
    ShlZero(address, k);
  }

  /** A non-zero weight never packs to the empty-slot value 0, whatever its width. */
  lemma {:induction false} PackLeafNonZero(address: nat, weight: nat)
    requires weight != 0
    ensures PackLeaf(address, weight) != 0
  {
    BitOrZero(Shl(address, WeightBits), weight);
  }
}
