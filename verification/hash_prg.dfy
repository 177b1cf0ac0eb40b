/** The placeholder PRG, seed mixing and tag derivation (include/hash_prg.hpp).
    The mt19937_64 engine is not modelled: an Engine maps a seed and an output index to
    the word the engine seeded with that seed produces at that position. */
module HashPrg {
  import opened Words
  import opened Types
  import opened Gf128

  /** engine(seed, j) is the j-th output (from 0) of the engine seeded with seed. */
  type Engine = (u64, nat) -> u64

  /** A PRG: the seed of its engine and how many outputs it has consumed so far. */
  datatype Prg = Prg(seed: u64, drawn: nat)

  /** PRG(seed): a freshly seeded engine. */
  function NewPrg(seed: u64): (p: Prg)
    ensures p.drawn == 0
  {
    Prg(seed, 0)
  }

  /** next_block128: the first engine output becomes hi, the second lo. */
  function NextBlock128(eng: Engine, p: Prg): (r: (Block128, Prg))
    ensures r.1.seed == p.seed && r.1.drawn == p.drawn + 2
  {
    (Block128(eng(p.seed, p.drawn), eng(p.seed, p.drawn + 1)), Prg(p.seed, p.drawn + 2))
  }

  /** Calling next_block128 count times in a row: the blocks in draw order. */
  function DrawBlocks(eng: Engine, p: Prg, count: nat): (r: (seq<Block128>, Prg))
    ensures |r.0| == count
  {
    if count == 0 then ([], p)
    else
      var (bs, p') := DrawBlocks(eng, p, count - 1);
      var (b, p'') := NextBlock128(eng, p');
      (bs + [b], p'')
  }

  /** The j-th block drawn is made of engine outputs 2j and 2j+1 after the starting point,
      and exactly 2 * count outputs are consumed. */
  lemma {:induction false} DrawBlocksClosedForm(eng: Engine, p: Prg, count: nat)
    ensures DrawBlocks(eng, p, count).1 == Prg(p.seed, p.drawn + 2 * count)
    ensures forall j :: 0 <= j < count ==>
      DrawBlocks(eng, p, count).0[j] == Block128(eng(p.seed, p.drawn + 2 * j), eng(p.seed, p.drawn + 2 * j + 1))
    decreases count
  {
    if count > 0 {
      DrawBlocksClosedForm(eng, p, count - 1);
    }
  }

  const SaltMultiplier: u64 := 0x9e37_79b9_7f4a_7c15

  /** mix_seed(blk, salt) = blk.hi ^ (blk.lo << 1) ^ (salt * 0x9e37…15) */
  function MixSeed(blk: Block128, salt: u64): u64
  {
    Xor(Xor(blk.hi, Shl(blk.lo, 1)), Mul(salt, SaltMultiplier))
  }

  /** With salt 0 the multiplier term vanishes. */
  lemma MixSeedSaltZero(blk: Block128)
    ensures MixSeed(blk, 0) == Xor(blk.hi, Shl(blk.lo, 1))
  {
    MulZero(SaltMultiplier);
    XorZero(Xor(blk.hi, Shl(blk.lo, 1)));
  }

  /** For a fixed salt the seeds of two blocks differ by the salt-free seed of their sum. */
  lemma MixSeedXorLinear(a: Block128, b: Block128, salt: u64)
    ensures Xor(MixSeed(a, salt), MixSeed(b, salt)) == MixSeed(GfAdd(a, b), 0)
  {
    var s := Mul(salt, SaltMultiplier);
    var ha, hb := Xor(a.hi, Shl(a.lo, 1)), Xor(b.hi, Shl(b.lo, 1));
    XorCommonCancels(ha, hb, s);
    assert Xor(MixSeed(a, salt), MixSeed(b, salt)) == Xor(ha, hb);
    XorShuffle(a.hi, Shl(a.lo, 1), b.hi, Shl(b.lo, 1));
    ShlOneXor(a.lo, b.lo);
    assert Xor(ha, hb) == Xor(GfAdd(a, b).hi, Shl(GfAdd(a, b).lo, 1));
    MixSeedSaltZero(GfAdd(a, b));
  }

  /** Two blocks get the same seed under the same salt exactly when the high halves differ
      by the low halves' difference shifted left by one. */
  lemma MixSeedCollision(a: Block128, b: Block128, salt: u64)
    ensures MixSeed(a, salt) == MixSeed(b, salt) <==> Xor(a.hi, b.hi) == Shl(Xor(a.lo, b.lo), 1)
  {
    var d := GfAdd(a, b);
    var e := Xor(d.hi, Shl(d.lo, 1));
    MixSeedXorLinear(a, b, salt);
    MixSeedSaltZero(d);
    assert Xor(MixSeed(a, salt), MixSeed(b, salt)) == e;
    XorZeroIff(MixSeed(a, salt), MixSeed(b, salt));
    XorZeroIff(d.hi, Shl(d.lo, 1));
  }

  /** The block with bit 63 of lo flipped. */
  function FlipTopOfLo(b: Block128): Block128
  {
    Block128(b.hi, if b.lo >= Half then b.lo - Half else b.lo + Half)
  }

  /** The shift discards bit 63 of lo, so flipping it leaves the seed unchanged. */
  lemma MixSeedIgnoresTopBit(b: Block128, salt: u64)
    ensures FlipTopOfLo(b) != b
    ensures MixSeed(FlipTopOfLo(b), salt) == MixSeed(b, salt)
  {
    if b.lo >= Half {
      ShlOneDropsTopBit(b.lo - Half);
    } else {
      ShlOneDropsTopBit(b.lo);
    }
  }

  /** tag_of(x, salt): the first block of a PRG seeded with mix_seed(x, salt). */
  function TagOf(eng: Engine, x: Block128, salt: u64): (t: Tag128)
    ensures t.hi == eng(MixSeed(x, salt), 0) && t.lo == eng(MixSeed(x, salt), 1)
  {
    var (b, _) := NextBlock128(eng, NewPrg(MixSeed(x, salt)));
    Tag128(b.hi, b.lo)
  }

  /** Elements whose seeds agree get the same tag, whatever engine is used; in particular
      the tag does not see bit 63 of lo. */
  lemma TagOfIgnoresTopBit(eng: Engine, x: Block128, salt: u64)
    ensures FlipTopOfLo(x) != x
    ensures TagOf(eng, FlipTopOfLo(x), salt) == TagOf(eng, x, salt)
  {
    MixSeedIgnoresTopBit(x, salt);
  }
}
