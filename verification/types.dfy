/** The plain records of the threshold-PSI skeleton (include/types.hpp). */
module Types {

  import opened Words

  /** A 128-bit block, the placeholder for an element of GF(2^128). */
  datatype Block128 = Block128(hi: u64, lo: u64)

  /** A 128-bit tag derived from an element. */
  datatype Tag128 = Tag128(hi: u64, lo: u64)

  /** A key/value pair handed to the OKVS: (x, f_x(i)). */
  datatype KV = KV(key: Block128, val: Block128)

  /** One share of an element: the party that holds it, the share value and the element's tag. */
  datatype Share = Share(partyId: int, fxi: Block128, tag: Tag128)

  /** OKVS sizing parameters; m and w are size_t counts. */
  datatype OKVSParams = OKVSParams(m: nat, w: nat, seedR1: u64, seedR2: u64)

  /** A hash-table bucket and a party's table of buckets. */
  datatype Bucket = Bucket(items: seq<Share>)
  datatype HashTableTi = HashTableTi(table: seq<Bucket>)

  /** Default member initialisers: blocks and tags start at {0,0}. */
  const DefaultBlock: Block128 := Block128(0, 0)
  const DefaultTag: Tag128 := Tag128(0, 0)

  /** Default OKVS parameters: m = 0, w = 64, both seeds 0. */
  const DefaultParams: OKVSParams := OKVSParams(0, 64, 0, 0)

  /** The explicit equality operator on tags: equal halves. */
  function TagEq(a: Tag128, b: Tag128): (r: bool)
    ensures r <==> a == b
  {
    a.hi == b.hi && a.lo == b.lo
  }

  lemma TagEqIsEquivalence(a: Tag128, b: Tag128, c: Tag128)
    ensures TagEq(a, a)
    ensures TagEq(a, b) == TagEq(b, a)
    ensures TagEq(a, b) && TagEq(b, c) ==> TagEq(a, c)
  {
  }

  function MakeBlock(h: u64, l: u64): (b: Block128)
    ensures b.hi == h && b.lo == l
  {
    Block128(h, l)
  }

  function MakeTag(h: u64, l: u64): (t: Tag128)
    ensures t.hi == h && t.lo == l
  {
    Tag128(h, l)
  }
}
