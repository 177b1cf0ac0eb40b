/** The placeholder field operations on 128-bit blocks (include/gf128.hpp): addition is
    exclusive or of the halves, "multiplication" is a pair of wrapping 64-bit products,
    and integers are mapped to blocks through the SplitMix64 finaliser. */
module Gf128 {
  import opened Words
  import opened Types

  const Zero: Block128 := Block128(0, 0)

  /** The additive constants of gf_mul's low and high halves. */
  const MulLoConst: u64 := 0x9e37_79b9_7f4a_7c15
  const MulHiConst: u64 := 0x517c_c1b7_2722_0a95

  /** gf_add: exclusive or of both halves. */
  function GfAdd(a: Block128, b: Block128): Block128
  {
    Block128(Xor(a.hi, b.hi), Xor(a.lo, b.lo))
  }

  lemma GfAddCommutative(a: Block128, b: Block128)
    ensures GfAdd(a, b) == GfAdd(b, a)
  {
    XorCommutative(a.hi, b.hi);
    XorCommutative(a.lo, b.lo);
  }

  lemma GfAddAssociative(a: Block128, b: Block128, c: Block128)
    ensures GfAdd(GfAdd(a, b), c) == GfAdd(a, GfAdd(b, c))
  {
    XorAssociative(a.hi, b.hi, c.hi);
    XorAssociative(a.lo, b.lo, c.lo);
  }

  lemma GfAddZero(a: Block128)
    ensures GfAdd(a, Zero) == a && GfAdd(Zero, a) == a
  {
    XorZero(a.hi);
    XorZero(a.lo);
  }

  lemma GfAddSelf(a: Block128)
    ensures GfAdd(a, a) == Zero
  {
    XorSelf(a.hi);
    XorSelf(a.lo);
  }

  /** Adding b twice gives back a: every block is its own additive inverse. */
  lemma GfAddCancel(a: Block128, b: Block128)
    ensures GfAdd(GfAdd(a, b), b) == a
  {
    XorCancel(a.hi, b.hi);
    XorCancel(a.lo, b.lo);
  }

  /** gf_mul: lo = (a.lo + 0x9e37…15) * (b.lo | 1), hi = (a.hi + 0x517c…95) * (b.hi | 1),
      both wrapping. It is not a field multiplication. */
  function GfMul(a: Block128, b: Block128): Block128
  {
    Block128(Mul(Add(a.hi, MulHiConst), OrOne(b.hi)), Mul(Add(a.lo, MulLoConst), OrOne(b.lo)))
  }

  /** The low half of the product depends on the low halves only, the high half on the
      high halves only. */
  lemma GfMulHalvesIndependent(a: Block128, b: Block128, a': Block128, b': Block128)
    ensures a.lo == a'.lo && b.lo == b'.lo ==> GfMul(a, b).lo == GfMul(a', b').lo
    ensures a.hi == a'.hi && b.hi == b'.hi ==> GfMul(a, b).hi == GfMul(a', b').hi
  {
  }

  /** Flipping bit 0 of x does not change x | 1. */
  lemma OrOneIgnoresLowBit(x: u64)
    ensures OrOne(Xor(x, 1)) == OrOne(x)
  {
    BitXorSplit(x, 1);
    assert BitXor(x / 2, 0) == x / 2;
    DivMod2(x, x / 2, x % 2);
  }

  /** b with bit 0 of each half flipped. */
  function FlipLowBits(b: Block128): Block128
  {
    Block128(Xor(b.hi, 1), Xor(b.lo, 1))
  }

  /** The right operand's low bits are forced to one, so flipping them changes nothing. */
  lemma GfMulIgnoresLowBit(a: Block128, b: Block128)
    ensures FlipLowBits(b) != b
    ensures GfMul(a, FlipLowBits(b)) == GfMul(a, b)
  {
    OrOneIgnoresLowBit(b.hi);
    OrOneIgnoresLowBit(b.lo);
    XorSelf(1);
    XorInjective(b.lo, 1, 1);
    XorZero(b.lo);
  }

  // ---- hash_to_field_u64 ----

  const MixIncrement: u64 := 0x9e37_79b9_7f4a_7c15
  const MixMul1: u64 := 0xbf58_476d_1ce4_e5b9
  const MixMul2: u64 := 0x94d0_49bb_1331_11eb
  /** Multiplicative inverses of MixMul1 and MixMul2 modulo 2^64. */
  const MixMul1Inv: u64 := 0x96de_1b17_3f11_9089
  const MixMul2Inv: u64 := 0x3196_42b2_d24d_8ec3
  /** The constant xored into i for the low half. */
  const Separator: u64 := 0xD1B5_4A32_D192_ED03

  /** The SplitMix64 finaliser of hash_to_field_u64. */
  function Mix(x: u64): u64
  {
    var x1 := Add(x, MixIncrement);
    var x2 := Mul(XorShift(x1, 30), MixMul1);
    var x3 := Mul(XorShift(x2, 27), MixMul2);
    XorShift(x3, 31)
  }

  /** The steps of Mix undone in reverse order. */
  function UnMix(y: u64): u64
  {
    var x3 := UnXorShift(y, 31);
    var x2 := UnXorShift(Mul(x3, MixMul2Inv), 27);
    var x1 := UnXorShift(Mul(x2, MixMul1Inv), 30);
    Sub(x1, MixIncrement)
  }

  lemma MixInverses()
    ensures (MixMul1 * MixMul1Inv) % Modulus == 1
    ensures (MixMul2 * MixMul2Inv) % Modulus == 1
  {
  }

  lemma UnMixMix(x: u64)
    ensures UnMix(Mix(x)) == x
  {
    var x1 := Add(x, MixIncrement);
    var x2 := Mul(XorShift(x1, 30), MixMul1);
    var x3 := Mul(XorShift(x2, 27), MixMul2);
    MixInverses();
    XorShiftInverse(x3, 31);
    assert UnXorShift(Mix(x), 31) == x3;
    MulInverse(XorShift(x2, 27), MixMul2, MixMul2Inv);
    assert Mul(x3, MixMul2Inv) == XorShift(x2, 27);
    XorShiftInverse(x2, 27);
    MulInverse(XorShift(x1, 30), MixMul1, MixMul1Inv);
    assert Mul(x2, MixMul1Inv) == XorShift(x1, 30);
    XorShiftInverse(x1, 30);
    AddSub(x, MixIncrement);
  }

  /** The finaliser is a bijection on words: distinct inputs never collide. */
  lemma MixInjective(x: u64, y: u64)
    ensures Mix(x) == Mix(y) <==> x == y
  {
    UnMixMix(x);
    UnMixMix(y);
  }

  /** hash_to_field_u64(i) = {mix(i), mix(i ^ 0xD1B5…03)} */
  function HashToField(i: u64): (b: Block128)
  {
    Block128(Mix(i), Mix(Xor(i, Separator)))
  }

  /** Distinct integers are mapped to distinct blocks, so the evaluation points alpha_i of
      distinct parties differ. */
  lemma HashToFieldInjective(i: u64, j: u64)
    ensures HashToField(i) == HashToField(j) <==> i == j
  {
    MixInjective(i, j);
  }

  /** Xoring the separator into the input swaps the halves of the output. */
  lemma HashToFieldSwap(i: u64)
    ensures HashToField(Xor(i, Separator)) == Block128(HashToField(i).lo, HashToField(i).hi)
  {
    XorCancel(i, Separator);
  }
}
