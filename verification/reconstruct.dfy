/** Steps S31-S33 of a protocol run (src/main_party.cpp, run_once): for every bucket the
    shares of all parties are pooled, grouped by the tag key, reduced to the first share of
    each party, and a group with at least k parties hands its first k points to the
    interpolation check. The check itself is a parameter. */
module Reconstruct {
  import opened Wrappers
  import opened Words
  import opened Types
  import opened HashPrg

  // ---- The tag key ----

  /** tag_key(t) = t.hi ^ (t.lo << 1), the key of the grouping map. */
  function TagKey(t: Tag128): u64
  {
    Xor(t.hi, Shl(t.lo, 1))
  }

  /** The tag key is the salt-free seed mixing applied to the tag's halves. */
  lemma TagKeyIsMixSeed(t: Tag128)
    ensures TagKey(t) == MixSeed(Block128(t.hi, t.lo), 0)
  {
    MixSeedSaltZero(Block128(t.hi, t.lo));
  }

  /** Two tags share a key exactly when their high halves differ by their low halves'
      difference shifted left by one. */
  lemma TagKeyCollision(a: Tag128, b: Tag128)
    ensures TagKey(a) == TagKey(b) <==> Xor(a.hi, b.hi) == Shl(Xor(a.lo, b.lo), 1)
  {
    TagKeyIsMixSeed(a);
    TagKeyIsMixSeed(b);
    MixSeedCollision(Block128(a.hi, a.lo), Block128(b.hi, b.lo), 0);
  }

  /** Different tags can share a key: the shift drops bit 63 of lo, so tags differing only
      there are grouped together. */
  lemma TagKeyMergesTopBit(t: Tag128)
    requires t.lo < Half
    ensures Tag128(t.hi, t.lo + Half) != t
    ensures TagKey(Tag128(t.hi, t.lo + Half)) == TagKey(t)
  {
    ShlOneDropsTopBit(t.lo);
  }

  // ---- Pooling a bucket ----

  /** Every table of parties 1..n has B buckets. */
  predicate TablesHave(ts: seq<HashTableTi>, n: nat, B: nat)
  {
    |ts| > n && forall i :: 1 <= i <= n ==> |ts[i].table| == B
  }

  /** The pool of bucket eta: the items of parties 1..m in party order, each party's items
      in bucket order. */
  function Pool(ts: seq<HashTableTi>, m: nat, eta: nat): seq<Share>
    requires |ts| > m && forall i :: 1 <= i <= m ==> eta < |ts[i].table|
  {
    if m == 0 then [] else Pool(ts, m - 1, eta) + ts[m].table[eta].items
  }

  /** A share is pooled exactly when some party 1..m holds it in bucket eta. */
  lemma {:induction false} PoolMembers(ts: seq<HashTableTi>, m: nat, eta: nat, sh: Share)
    requires |ts| > m && forall i :: 1 <= i <= m ==> eta < |ts[i].table|
    ensures sh in Pool(ts, m, eta) <==> exists i :: 1 <= i <= m && sh in ts[i].table[eta].items
  {
    if m > 0 {
      PoolMembers(ts, m - 1, eta, sh);
    }
  }

  // ---- Grouping by tag key ----

  /** The keys of the grouping map: one per tag key present in the pool. */
  function KeysOf(pool: seq<Share>): set<u64>
  {
    set sh | sh in pool :: TagKey(sh.tag)
  }

  /** by_tag[key]: the shares with that tag key, in pool order. */
  function Group(pool: seq<Share>, key: u64): seq<Share>
  {
    if |pool| == 0 then []
    else
      var sh := pool[|pool| - 1];
      Group(pool[..|pool| - 1], key) + (if TagKey(sh.tag) == key then [sh] else [])
  }

  /** A share is in the group of key exactly when it is pooled with that key. */
  lemma {:induction false} GroupMembers(pool: seq<Share>, key: u64, sh: Share)
    ensures sh in Group(pool, key) <==> sh in pool && TagKey(sh.tag) == key
    decreases |pool|
  {
    if |pool| > 0 {
      var front := pool[..|pool| - 1];
      GroupMembers(front, key, sh);
      assert pool == front + [pool[|pool| - 1]];
    }
  }

  // ---- One point per party ----

  /** The parties holding some share of s. */
  function PartyIds(s: seq<Share>): set<int>
  {
    set sh | sh in s :: sh.partyId
  }

  lemma PartyIdsSnoc(s: seq<Share>, sh: Share)
    ensures PartyIds(s + [sh]) == PartyIds(s) + {sh.partyId}
  {
    assert forall x :: x in s + [sh] <==> x in s || x == sh;
  }

  /** The x-coordinates of a list of points. */
  function Ids(pts: seq<(int, Block128)>): set<int>
  {
    set p | p in pts :: p.0
  }

  /** No party contributes two points. */
  predicate DistinctIds(pts: seq<(int, Block128)>)
  {
    forall a, b :: 0 <= a < b < |pts| ==> pts[a].0 != pts[b].0
  }

  /** The points of the first share of every party, in group order: a share is kept when
      no earlier share of the group has its party. The point of a party is its id and its
      share value. */
  function FirstPerPartyRef(vec: seq<Share>): seq<(int, Block128)>
  {
    if |vec| == 0 then []
    else
      var front, sh := vec[..|vec| - 1], vec[|vec| - 1];
      FirstPerPartyRef(front) + (if sh.partyId in PartyIds(front) then [] else [(sh.partyId, sh.fxi)])
  }

  /** The de-duplication loop with its set of parties already seen. */
  method FirstPerParty(vec: seq<Share>) returns (pts: seq<(int, Block128)>)
    ensures pts == FirstPerPartyRef(vec)
    ensures DistinctIds(pts) && Ids(pts) == PartyIds(vec)
  {
    pts := [];
    var seen: set<int> := {};
    for j := 0 to |vec|
      invariant seen == PartyIds(vec[..j])
      invariant pts == FirstPerPartyRef(vec[..j])
    {
      var sh := vec[j];
      assert vec[..j + 1][..j] == vec[..j];
      assert vec[..j + 1] == vec[..j] + [sh];
      PartyIdsSnoc(vec[..j], sh);
      if sh.partyId !in seen {
        seen := seen + {sh.partyId};
        pts := pts + [(sh.partyId, sh.fxi)];
      }
    }
    assert vec[..|vec|] == vec;
    FirstPerPartyShape(vec);
  }

  /** One point per party, and every party of the group has a point. */
  lemma FirstPerPartyShape(vec: seq<Share>)
    ensures DistinctIds(FirstPerPartyRef(vec))
    ensures Ids(FirstPerPartyRef(vec)) == PartyIds(vec)
  {
    FirstPerPartyIds(vec);
    FirstPerPartyDistinct(vec);
  }

  /** The points' parties are the group's parties. */
  lemma {:induction false} FirstPerPartyIds(vec: seq<Share>)
    ensures Ids(FirstPerPartyRef(vec)) == PartyIds(vec)
    decreases |vec|
  {
    if |vec| > 0 {
      var front, sh := vec[..|vec| - 1], vec[|vec| - 1];
      var r := FirstPerPartyRef(front);
      FirstPerPartyIds(front);
      assert vec == front + [sh];
      PartyIdsSnoc(front, sh);
      if sh.partyId !in PartyIds(front) {
        IdsSnoc(r, (sh.partyId, sh.fxi));
      }
    }
  }

  /** No party has two points. */
  lemma {:induction false} FirstPerPartyDistinct(vec: seq<Share>)
    ensures DistinctIds(FirstPerPartyRef(vec))
    decreases |vec|
  {
    if |vec| > 0 {
      var front, sh := vec[..|vec| - 1], vec[|vec| - 1];
      var r := FirstPerPartyRef(front);
      FirstPerPartyDistinct(front);
      if sh.partyId !in PartyIds(front) {
        FirstPerPartyIds(front);
        var r' := r + [(sh.partyId, sh.fxi)];
        forall a | 0 <= a < |r|
          ensures r'[a].0 != sh.partyId
        {
          assert r[a] in r;
        }
      }
    }
  }

  /** The share kept for a party is its first one: every share with no earlier share of its
      party gives a point. */
  lemma {:induction false} FirstPerPartyKeepsFirst(vec: seq<Share>, j: nat)
    requires j < |vec| && vec[j].partyId !in PartyIds(vec[..j])
    ensures (vec[j].partyId, vec[j].fxi) in FirstPerPartyRef(vec)
    decreases |vec|
  {
    var front := vec[..|vec| - 1];
    if j < |vec| - 1 {
      assert front[..j] == vec[..j] && front[j] == vec[j];
      FirstPerPartyKeepsFirst(front, j);
    } else {
      assert front == vec[..j];
    }
  }

  lemma IdsSnoc(pts: seq<(int, Block128)>, p: (int, Block128))
    ensures Ids(pts + [p]) == Ids(pts) + {p.0}
  {
    assert forall q :: q in pts + [p] <==> q in pts || q == p;
  }

  lemma IdsMiss(pts: seq<(int, Block128)>, x: int)
    requires forall a :: 0 <= a < |pts| ==> pts[a].0 != x
    ensures x !in Ids(pts)
  {
    forall q | q in pts
      ensures q.0 != x
    {
      var a :| 0 <= a < |pts| && pts[a] == q;
    }
  }

  /** Points with distinct ids are as many as their ids. */
  lemma {:induction false} DistinctIdsCount(pts: seq<(int, Block128)>)
    requires DistinctIds(pts)
    ensures |Ids(pts)| == |pts|
    decreases |pts|
  {
    if |pts| > 0 {
      var front, p := pts[..|pts| - 1], pts[|pts| - 1];
      assert DistinctIds(front);
      DistinctIdsCount(front);
      assert pts == front + [p];
      IdsSnoc(front, p);
      IdsMiss(front, p.0);
    }
  }

  /** The number of points of a group is the number of parties with a share in it. */
  lemma FirstPerPartyCount(vec: seq<Share>)
    ensures |FirstPerPartyRef(vec)| == |PartyIds(vec)|
  {
    FirstPerPartyShape(vec);
    DistinctIdsCount(FirstPerPartyRef(vec));
  }

  // ---- The threshold ----

  /** A group with fewer than k points is skipped; otherwise its first k points are used.
      The source takes pts.begin() + k, so k must not be negative. */
  function UsePoints(pts: seq<(int, Block128)>, k: int): (r: Option<seq<(int, Block128)>>)
    requires k >= 0
    ensures r.Some? <==> |pts| >= k
    ensures r.Some? ==> |r.value| == k && r.value <= pts
  {
    if |pts| < k then None else Some(pts[..k])
  }

  /** The points used for a group have distinct parties, all of the group. */
  lemma UsePointsDistinct(vec: seq<Share>, k: int)
    requires k >= 0
    ensures UsePoints(FirstPerPartyRef(vec), k).Some? <==> |PartyIds(vec)| >= k
    ensures UsePoints(FirstPerPartyRef(vec), k).Some? ==>
      DistinctIds(UsePoints(FirstPerPartyRef(vec), k).value)
      && Ids(UsePoints(FirstPerPartyRef(vec), k).value) <= PartyIds(vec)
  {
    var pts := FirstPerPartyRef(vec);
    FirstPerPartyShape(vec);
    FirstPerPartyCount(vec);
    if |pts| >= k {
      var u := pts[..k];
      assert forall p :: p in u ==> p in pts;
    }
  }

  // ---- The result set ----

  /** The interpolation check ok accepts key in a bucket: the key's group has at least k
      parties and ok accepts its first k points. */
  predicate Accepted(pool: seq<Share>, k: int, ok: seq<(int, Block128)> -> bool, key: u64)
    requires k >= 0
  {
    var use := UsePoints(FirstPerPartyRef(Group(pool, key)), k);
    key in KeysOf(pool) && use.Some? && ok(use.value)
  }

  /** The keys of one bucket that the check accepts. */
  function BucketResult(pool: seq<Share>, k: int, ok: seq<(int, Block128)> -> bool): set<u64>
    requires k >= 0
  {
    set key | key in KeysOf(pool) && Accepted(pool, k, ok, key)
  }

  lemma BucketResultMember(pool: seq<Share>, k: int, ok: seq<(int, Block128)> -> bool, key: u64)
    requires k >= 0
    ensures key in BucketResult(pool, k, ok) <==> Accepted(pool, k, ok, key)
  {
  }

  /** The first k elements of s, or all of s if it is shorter. */
  function Take<T>(s: seq<T>, k: nat): seq<T>
  {
    if |s| <= k then s else s[..k]
  }

  /** A key is accepted exactly when it is present, at least k distinct parties pooled a
      share with that key, and the check accepts the first k points. */
  lemma BucketResultIff(pool: seq<Share>, k: int, ok: seq<(int, Block128)> -> bool, key: u64)
    requires k >= 0
    ensures key in BucketResult(pool, k, ok)
      <==> key in KeysOf(pool)
           && |set sh | sh in pool && TagKey(sh.tag) == key :: sh.partyId| >= k
           && ok(Take(FirstPerPartyRef(Group(pool, key)), k))
  {
    var g := Group(pool, key);
    var pts := FirstPerPartyRef(g);
    assert key in BucketResult(pool, k, ok) <==> Accepted(pool, k, ok, key);
    FirstPerPartyCount(g);
    assert PartyIds(g) == set sh | sh in pool && TagKey(sh.tag) == key :: sh.partyId by {
      forall sh
        ensures sh in g <==> sh in pool && TagKey(sh.tag) == key
      {
        GroupMembers(pool, key, sh);
      }
    }
    assert |pts| >= k ==> UsePoints(pts, k).value == Take(pts, k);
  }

  /** The union of a sequence of key sets. */
  function Union(sets: seq<set<u64>>): set<u64>
  {
    if |sets| == 0 then {} else Union(sets[..|sets| - 1]) + sets[|sets| - 1]
  }

  lemma {:induction false} UnionMembers(sets: seq<set<u64>>, key: u64)
    ensures key in Union(sets) <==> exists j :: 0 <= j < |sets| && key in sets[j]
    decreases |sets|
  {
    if |sets| > 0 {
      var front := sets[..|sets| - 1];
      UnionMembers(front, key);
      assert forall j :: 0 <= j < |front| ==> front[j] == sets[j];
    }
  }

  /** The accepted keys of every bucket 0..B-1. */
  function BucketResults(ts: seq<HashTableTi>, n: nat, B: nat, k: int,
                         ok: seq<(int, Block128)> -> bool): (r: seq<set<u64>>)
    requires TablesHave(ts, n, B) && k >= 0
    ensures |r| == B
  {
    seq(B, eta requires 0 <= eta < B => BucketResult(Pool(ts, n, eta), k, ok))
  }

  /** result_hash: the keys accepted in some bucket. */
  function ResultHash(ts: seq<HashTableTi>, n: nat, B: nat, k: int,
                      ok: seq<(int, Block128)> -> bool): set<u64>
    requires TablesHave(ts, n, B) && k >= 0
  {
    Union(BucketResults(ts, n, B, k, ok))
  }

  /** Every key in result_hash was accepted in some bucket. */
  lemma ResultHashSound(ts: seq<HashTableTi>, n: nat, B: nat, k: int,
                        ok: seq<(int, Block128)> -> bool, key: u64)
    requires TablesHave(ts, n, B) && k >= 0
    requires key in ResultHash(ts, n, B, k, ok)
    ensures exists eta :: 0 <= eta < B && Accepted(Pool(ts, n, eta), k, ok, key)
  {
    var sets := BucketResults(ts, n, B, k, ok);
    UnionMembers(sets, key);
    var eta :| 0 <= eta < B && key in sets[eta];
    BucketResultMember(Pool(ts, n, eta), k, ok, key);
  }

  /** Every key accepted in a bucket is in result_hash. */
  lemma ResultHashComplete(ts: seq<HashTableTi>, n: nat, B: nat, k: int,
                           ok: seq<(int, Block128)> -> bool, key: u64, eta: nat)
    requires TablesHave(ts, n, B) && k >= 0
    requires eta < B && Accepted(Pool(ts, n, eta), k, ok, key)
    ensures key in ResultHash(ts, n, B, k, ok)
  {
    var sets := BucketResults(ts, n, B, k, ok);
    BucketResultMember(Pool(ts, n, eta), k, ok, key);
    assert key in sets[eta];
    UnionMembers(sets, key);
  }
}
