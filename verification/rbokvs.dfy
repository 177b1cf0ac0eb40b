/** The map-backed stand-in for the RB-OKVS (include/rbokvs.hpp, src/rbokvs.cpp): keys are
    hashed to one word and the store is a map from that hash to the value block. */
module Rbokvs {
  import opened Words
  import opened Types

  /** An encoded store: its parameters and the hash-to-value map. */
  datatype Okvs = Okvs(p: OKVSParams, kv: map<u64, Block128>)

  const KeyMultiplier: u64 := 0x9e37_79b9_7f4a_7c15
  /** The inverse of KeyMultiplier modulo 2^64 (the multiplier is odd). */
  const KeyMultiplierInv: u64 := 0xf1de_83e1_9937_733d

  /** key_hash64(k) = k.hi ^ (k.lo * 0x9e37…15) */
  function KeyHash64(k: Block128): u64
  {
    Xor(k.hi, Mul(k.lo, KeyMultiplier))
  }

  /** For a fixed hi, distinct lo halves hash apart. */
  lemma KeyHash64InjectiveLo(hi: u64, lo: u64, lo': u64)
    ensures KeyHash64(Block128(hi, lo)) == KeyHash64(Block128(hi, lo')) <==> lo == lo'
  {
    assert (KeyMultiplier * KeyMultiplierInv) % Modulus == 1;
    XorCommutative(hi, Mul(lo, KeyMultiplier));
    XorCommutative(hi, Mul(lo', KeyMultiplier));
    XorInjective(Mul(lo, KeyMultiplier), Mul(lo', KeyMultiplier), hi);
    MulInverse(lo, KeyMultiplier, KeyMultiplierInv);
    MulInverse(lo', KeyMultiplier, KeyMultiplierInv);
  }

  /** For a fixed lo, distinct hi halves hash apart. */
  lemma KeyHash64InjectiveHi(hi: u64, hi': u64, lo: u64)
    ensures KeyHash64(Block128(hi, lo)) == KeyHash64(Block128(hi', lo)) <==> hi == hi'
  {
    XorInjective(hi, hi', Mul(lo, KeyMultiplier));
  }

  /** Entry j is the last one of kvs whose key has its hash. */
  predicate LastWithHash(kvs: seq<KV>, j: nat)
    requires j < |kvs|
  {
    forall j' :: j < j' < |kvs| ==> KeyHash64(kvs[j'].key) != KeyHash64(kvs[j].key)
  }

  /** Encode: store every entry under its key hash, in order, later entries overwriting. */
  function Encode(kvs: seq<KV>, p: OKVSParams): (o: Okvs)
    ensures o.p == p
    decreases |kvs|
  {
    if |kvs| == 0 then Okvs(p, map[])
    else
      var e := kvs[|kvs| - 1];
      var o := Encode(kvs[..|kvs| - 1], p);
      Okvs(p, o.kv[KeyHash64(e.key) := e.val])
  }

  /** The store's keys are exactly the hashes of the entries' keys. */
  lemma {:induction false} EncodeKeys(kvs: seq<KV>, p: OKVSParams)
    ensures Encode(kvs, p).kv.Keys == set e | e in kvs :: KeyHash64(e.key)
    decreases |kvs|
  {
    if |kvs| > 0 {
      var e := kvs[|kvs| - 1];
      EncodeKeys(kvs[..|kvs| - 1], p);
      assert forall e' :: e' in kvs <==> e' in kvs[..|kvs| - 1] || e' == e;
    }
  }

  /** Under every hash the store holds the value of the last entry with that hash. */
  lemma {:induction false} EncodeLastWins(kvs: seq<KV>, p: OKVSParams, j: nat)
    requires j < |kvs| && LastWithHash(kvs, j)
    ensures KeyHash64(kvs[j].key) in Encode(kvs, p).kv
    ensures Encode(kvs, p).kv[KeyHash64(kvs[j].key)] == kvs[j].val
    decreases |kvs|
  {
    var n := |kvs| - 1;
    var front := kvs[..n];
    var h, hn := KeyHash64(kvs[j].key), KeyHash64(kvs[n].key);
    assert Encode(kvs, p).kv == Encode(front, p).kv[hn := kvs[n].val];
    if j < n {
      assert LastWithHash(front, j) by {
        forall j' | j < j' < |front|
          ensures KeyHash64(front[j'].key) != KeyHash64(front[j].key)
        {
          assert front[j'] == kvs[j'];
        }
      }
      EncodeLastWins(front, p, j);
      assert front[j] == kvs[j];
      assert hn != h;
      assert Encode(front, p).kv[h] == kvs[j].val;
    }
  }

  const MissHi: u64 := 0xA5A5_A5A5_A5A5_A5A5
  const MissLo: u64 := 0x5A5A_5A5A_5A5A_5A5A

  /** Decode: the stored value on a hit; on a miss {h ^ 0xA5…A5, h ^ 0x5A…5A}. */
  function Decode(o: Okvs, key: Block128): (r: Block128)
    ensures KeyHash64(key) in o.kv ==> r == o.kv[KeyHash64(key)]
  {
    var h := KeyHash64(key);
    if h in o.kv then o.kv[h] else Block128(Xor(h, MissHi), Xor(h, MissLo))
  }

  /** A miss yields a block whose halves are bitwise complements. */
  lemma DecodeMiss(o: Okvs, key: Block128)
    ensures KeyHash64(key) !in o.kv ==> Xor(Decode(o, key).hi, Decode(o, key).lo) == Modulus - 1
  {
    var h := KeyHash64(key);
    if h !in o.kv {
      XorCommonCancels(MissHi, MissLo, h);
      XorCommutative(h, MissHi);
      XorCommutative(h, MissLo);
      XorComplement(MissHi);
    }
  }

  /** Round trip: a key of kvs decodes to the value of the last entry with its hash. */
  lemma DecodeEncode(kvs: seq<KV>, p: OKVSParams, j: nat)
    requires j < |kvs| && LastWithHash(kvs, j)
    ensures Decode(Encode(kvs, p), kvs[j].key) == kvs[j].val
  {
    EncodeLastWins(kvs, p, j);
  }

  /** A key whose hash no entry shares is a miss. */
  lemma DecodeEncodeAbsent(kvs: seq<KV>, p: OKVSParams, key: Block128)
    requires forall e :: e in kvs ==> KeyHash64(e.key) != KeyHash64(key)
    ensures KeyHash64(key) !in Encode(kvs, p).kv
    ensures Xor(Decode(Encode(kvs, p), key).hi, Decode(Encode(kvs, p), key).lo) == Modulus - 1
  {
    EncodeKeys(kvs, p);
    DecodeMiss(Encode(kvs, p), key);
  }

  /** Decoding looks at the key's hash only. */
  lemma DecodeSeesHashOnly(o: Okvs, key: Block128, key': Block128)
    ensures KeyHash64(key) == KeyHash64(key') ==> Decode(o, key) == Decode(o, key')
  {
  }
}
