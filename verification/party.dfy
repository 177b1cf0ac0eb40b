/** The integer bookkeeping of one protocol run (src/main_party.cpp, run_once): the
    synthetic party sets, the OKVS parameters, the sigma queries of step S14 with their
    communication count, and the communication total. Parties are numbered 1..n. */
module Party {
  import opened Words
  import opened Types
  import opened Rbokvs
  import opened Layout

  /** The largest C++ int. */
  const IntMax: int := 0x7FFF_FFFF

  // ---- Communication counters ----

  /** Comm: the bytes of step S13 and of step S14, as uint64_t counters. */
  datatype Comm = Comm(s13: u64, s14: u64)

  /** Comm::total: the sum of both counters, wrapping like uint64_t. */
  function Total(c: Comm): (t: u64)
    ensures c.s13 + c.s14 < Modulus ==> t == c.s13 + c.s14
    ensures c.s13 + c.s14 >= Modulus ==> t == c.s13 + c.s14 - Modulus
  {
    AddValue(c.s13, c.s14);
    Add(c.s13, c.s14)
  }

  // ---- The party sets ----

  /** C++ integer division, which truncates toward zero. */
  function TruncDiv(a: int, d: int): int
    requires d > 0
  {
    if a >= 0 then a / d else -((-a) / d)
  }

  function Max(a: int, b: int): int
  {
    if a >= b then a else b
  }

  /** common = max(1, S/2) */
  function CommonCount(S: int): (c: int)
    ensures c >= 1
  {
    Max(1, TruncDiv(S, 2))
  }

  /** The common elements {0, 100 + tt} for tt < common. */
  function CommonElems(S: int): (r: seq<Block128>)
    requires 100 + CommonCount(S) <= IntMax
  {
    seq(CommonCount(S), tt requires 0 <= tt < CommonCount(S) => Block128(0, 100 + tt))
  }

  /** How many private elements a party gets: S - common, or none when that is negative. */
  function PrivateCount(S: int): nat
  {
    Max(0, S - CommonCount(S))
  }

  /** The source computes 100000 + 1000*i + u in int; it must not overflow. */
  predicate SetArithmeticFits(i: int, S: int)
  {
    1 <= i && 100000 + 1000 * i + Max(S, 0) <= IntMax
  }

  /** Party i's set: the common elements, then {1000 + i, 100000 + 1000*i + u} for u < S - common. */
  function PartySet(i: int, S: int): (r: seq<Block128>)
    requires SetArithmeticFits(i, S)
  {
    CommonElems(S) + seq(PrivateCount(S), u requires 0 <= u < PrivateCount(S) => Block128(1000 + i, 100000 + 1000 * i + u))
  }

  /** Xs: index 0 is unused and empty, index i in 1..n holds party i's set. */
  function BuildSets(n: int, S: int): (xs: seq<seq<Block128>>)
    requires n >= 0 && SetArithmeticFits(Max(n, 1), S)
    ensures |xs| == n + 1 && xs[0] == []
    ensures forall i :: 1 <= i <= n ==> xs[i] == PartySet(i, S)
  {
    seq(n + 1, i requires 0 <= i <= n => if i == 0 then [] else PartySet(i, S))
  }

  /** Every party's set has max(S, common) elements. */
  lemma PartySetSize(i: int, S: int)
    requires SetArithmeticFits(i, S)
    ensures |PartySet(i, S)| == Max(S, CommonCount(S))
  {
  }

  predicate NoDuplicates<T(==)>(s: seq<T>)
  {
    forall a, b :: 0 <= a < b < |s| ==> s[a] != s[b]
  }

  /** No set holds an element twice. */
  lemma PartySetNoDuplicates(i: int, S: int)
    requires SetArithmeticFits(i, S)
    ensures NoDuplicates(PartySet(i, S))
  {
    var c := CommonElems(S);
    var r := PartySet(i, S);
    forall a, b | 0 <= a < b < |r|
      ensures r[a] != r[b]
    {
      if b < |c| {
        assert r[a].lo == 100 + a && r[b].lo == 100 + b;
      } else if a < |c| {
        assert r[a].hi == 0 && r[b].hi == 1000 + i;
      } else {
        assert r[a].lo == 100000 + 1000 * i + (a - |c|);
        assert r[b].lo == 100000 + 1000 * i + (b - |c|);
      }
    }
  }

  /** Two different parties share exactly the common elements. */
  lemma PartySetsIntersect(i: int, j: int, S: int)
    requires SetArithmeticFits(i, S) && SetArithmeticFits(j, S) && i != j
    ensures (set e | e in PartySet(i, S)) * (set e | e in PartySet(j, S)) == set e | e in CommonElems(S)
  {
    var c := CommonElems(S);
    var si, sj := PartySet(i, S), PartySet(j, S);
    forall e | e in si && e in sj
      ensures e in c
    {
      var a :| 0 <= a < |si| && si[a] == e;
      var b :| 0 <= b < |sj| && sj[b] == e;
      assert a < |c|;
      assert si[a] == c[a];
    }
    forall e | e in c
      ensures e in si && e in sj
    {
      var a :| 0 <= a < |c| && c[a] == e;
      assert si[a] == e && sj[a] == e;
    }
  }

  // ---- OKVS parameters ----

  const Seed1Base: u64 := 0xA1B2_C3D4_0000_0000
  const Seed2Base: u64 := 0x0F1E_2D3C_0000_0000

  /** The parameters of party i: m = ceil((1+eps)*ni) raised to at least w + 1, the
      window w, and two seeds derived from i. mCeil is the already computed ceiling. */
  function ClampParams(mCeil: nat, w: nat, i: int): (p: OKVSParams)
    requires w < 0x1_0000_0000
    ensures p.m >= w + 1 && p.m >= mCeil
    ensures p.m == mCeil || p.m == w + 1
    ensures p.w == w
  {
    OKVSParams(
      if mCeil < w + 1 then w + 1 else mCeil,
      w,
      Xor(Seed1Base, FromInt(i)),
      Xor(Seed2Base, Shl(FromInt(i), 8)))
  }

  /** For parties numbered below 2^24 the seeds are the base plus i and plus 256*i. */
  lemma ClampSeeds(mCeil: nat, w: nat, i: int)
    requires w < 0x1_0000_0000 && 0 <= i < 0x100_0000
    ensures ClampParams(mCeil, w, i).seedR1 == Seed1Base + i
    ensures ClampParams(mCeil, w, i).seedR2 == Seed2Base + 256 * i
  {
    Pow2Values();
    DivModUnique(i, Modulus, 0, i);
    DivModUnique(i * 256, Modulus, 0, i * 256);
    XorCommutative(Seed1Base, i);
    XorDisjoint(0xA1B2_C3D4, i, 32);
    XorCommutative(Seed2Base, 256 * i);
    XorDisjoint(0x0F1E_2D3C, 256 * i, 32);
  }

  /** Different parties (as u64 values) get different seeds. */
  lemma ClampSeedsDistinct(mCeil: nat, w: nat, i: int, j: int)
    requires w < 0x1_0000_0000 && 0 <= i < Modulus && 0 <= j < Modulus && i != j
    ensures ClampParams(mCeil, w, i).seedR1 != ClampParams(mCeil, w, j).seedR1
  {
    DivModUnique(i, Modulus, 0, i);
    DivModUnique(j, Modulus, 0, j);
    XorCommutative(Seed1Base, i);
    XorCommutative(Seed1Base, j);
    XorInjective(i, j, Seed1Base);
  }

  // ---- Step S14: sigma queries ----

  /** The parties other than i among lo..n, ascending. */
  function OthersFrom(lo: int, n: int, i: int): (r: seq<int>)
    decreases n - lo + 1
  {
    if lo > n then [] else (if lo == i then [] else [lo]) + OthersFrom(lo + 1, n, i)
  }

  /** OthersFrom lists exactly the parties in lo..n other than i, strictly ascending. */
  lemma OthersFromSpec(lo: int, n: int, i: int)
    ensures forall g :: g in OthersFrom(lo, n, i) <==> lo <= g <= n && g != i
    ensures forall a, b :: 0 <= a < b < |OthersFrom(lo, n, i)| ==> OthersFrom(lo, n, i)[a] < OthersFrom(lo, n, i)[b]
    ensures |OthersFrom(lo, n, i)| == if lo > n then 0 else if lo <= i <= n then n - lo else n - lo + 1
  {
    OthersFromMembers(lo, n, i);
    OthersFromAscending(lo, n, i);
    OthersFromLength(lo, n, i);
  }

  lemma {:induction false} OthersFromMembers(lo: int, n: int, i: int)
    ensures forall g :: g in OthersFrom(lo, n, i) <==> lo <= g <= n && g != i
    decreases n - lo + 1
  {
    if lo <= n {
      OthersFromMembers(lo + 1, n, i);
    }
  }

  lemma {:induction false} OthersFromAscending(lo: int, n: int, i: int)
    ensures forall a, b :: 0 <= a < b < |OthersFrom(lo, n, i)| ==> OthersFrom(lo, n, i)[a] < OthersFrom(lo, n, i)[b]
    decreases n - lo + 1
  {
    if lo <= n {
      var rest := OthersFrom(lo + 1, n, i);
      var r := OthersFrom(lo, n, i);
      OthersFromAscending(lo + 1, n, i);
      OthersFromMembers(lo + 1, n, i);
      if lo == i {
        assert r == rest;
      } else {
        assert r == [lo] + rest;
        forall a, b | 0 <= a < b < |r|
          ensures r[a] < r[b]
        {
          assert r[b] == rest[b - 1] && rest[b - 1] in rest;
          if a > 0 {
            assert r[a] == rest[a - 1];
          }
        }
      }
    }
  }

  lemma {:induction false} OthersFromLength(lo: int, n: int, i: int)
    ensures |OthersFrom(lo, n, i)| == if lo > n then 0 else if lo <= i <= n then n - lo else n - lo + 1
    decreases n - lo + 1
  {
    if lo <= n {
      OthersFromLength(lo + 1, n, i);
    }
  }

  /** Growing the range by one party at the top appends it, unless it is i. */
  lemma {:induction false} OthersFromSnoc(lo: int, n: int, i: int)
    requires lo <= n + 1
    ensures OthersFrom(lo, n + 1, i) == OthersFrom(lo, n, i) + (if n + 1 == i then [] else [n + 1])
    decreases n + 1 - lo
  {
    if lo <= n {
      OthersFromSnoc(lo + 1, n, i);
    }
  }

  /** Every party in gs lies in lo..hi-1. */
  predicate AllIn(gs: seq<int>, lo: int, hi: int)
  {
    forall j :: 0 <= j < |gs| ==> lo <= gs[j] < hi
  }

  /** The sigmas for the parties gs: (g, okvs[g].Decode(x)) in the order of gs. */
  function SigmasFor(okvs: seq<Okvs>, gs: seq<int>, x: Block128): (r: seq<(int, Block128)>)
    requires forall j :: 0 <= j < |gs| ==> 0 <= gs[j] < |okvs|
    ensures |r| == |gs|
  {
    seq(|gs|, j requires 0 <= j < |gs| => (gs[j], Decode(okvs[gs[j]], x)))
  }

  lemma SigmasForSnoc(okvs: seq<Okvs>, gs: seq<int>, g: int, x: Block128)
    requires forall j :: 0 <= j < |gs| ==> 0 <= gs[j] < |okvs|
    requires 0 <= g < |okvs|
    ensures SigmasFor(okvs, gs + [g], x) == SigmasFor(okvs, gs, x) + [(g, Decode(okvs[g], x))]
  {
  }

  /** The sigma list of one element: (g, okvs[g].Decode(x)) for every g != i in 1..n,
      ascending, together with the 32 bytes (x out, sigma back) counted per query. */
  method Sigmas(okvs: seq<Okvs>, n: int, i: int, x: Block128, s14: u64)
    returns (sigmas: seq<(int, Block128)>, s14': u64)
    requires |okvs| == n + 1
    ensures AllIn(OthersFrom(1, n, i), 1, n + 1)
    ensures sigmas == SigmasFor(okvs, OthersFrom(1, n, i), x)
    ensures s14' == Bump(s14, |sigmas|)
  {
    sigmas := [];
    s14' := s14;
    var g := 1;
    while g <= n
      invariant 1 <= g <= Max(n + 1, 1)
      invariant AllIn(OthersFrom(1, g - 1, i), 1, g)
      invariant sigmas == SigmasFor(okvs, OthersFrom(1, g - 1, i), x)
      invariant s14' == Bump(s14, |sigmas|)
    {
      OthersFromSnoc(1, g - 1, i);
      if g != i {
        s14' := Add(s14', 16);
        var sig := Decode(okvs[g], x);
        s14' := Add(s14', 16);
        SigmasForSnoc(okvs, OthersFrom(1, g - 1, i), g, x);
        sigmas := sigmas + [(g, sig)];
      }
      g := g + 1;
    }
    assert OthersFrom(1, g - 1, i) == OthersFrom(1, n, i);
  }

  /** The S14 counter after k more queries: each adds 16 bytes for x and 16 for sigma,
      wrapping like uint64_t. */
  function Bump(c: u64, k: nat): u64
  {
    if k == 0 then c else Add(Add(Bump(c, k - 1), 16), 16)
  }

  lemma {:induction false} BumpBump(c: u64, a: nat, b: nat)
    ensures Bump(Bump(c, a), b) == Bump(c, a + b)
    decreases b
  {
    if b > 0 {
      BumpBump(c, a, b - 1);
    }
  }

  /** A counter bumped a times and then b more times is bumped a + b times. */
  lemma BumpAfter(c: u64, s: u64, a: nat, b: nat, ab: nat, s': u64)
    requires s == Bump(c, a) && s' == Bump(s, b) && ab == a + b
    ensures s' == Bump(c, ab)
  {
    BumpBump(c, a, b);
  }

  /** The counter after k queries is the start plus 32k, modulo 2^64. */
  lemma {:induction false} BumpValue(c: u64, k: nat)
    ensures Bump(c, k) == (c + 32 * k) % Modulus
    decreases k
  {
    if k == 0 {
      DivModUnique(c, Modulus, 0, c);
    } else {
      BumpValue(c, k - 1);
      ModAddStep(c + 32 * (k - 1), 16);
      ModAddStep(c + 32 * (k - 1) + 16, 16);
    }
  }

  /** Adding d to a reduced counter is reducing the sum. */
  lemma ModAddStep(a: nat, d: nat)
    ensures ((a % Modulus) + d) % Modulus == (a + d) % Modulus
  {
    var q, r := a / Modulus, a % Modulus;
    var q', r' := (r + d) / Modulus, (r + d) % Modulus;
    assert a + d == Modulus * (q + q') + r';
    DivModUnique(a + d, Modulus, q + q', r');
  }

  /** The number of elements of parties 1..m. */
  function SumSizes(kvAll: seq<seq<KV>>, m: nat): nat
    requires m < |kvAll|
  {
    if m == 0 then 0 else SumSizes(kvAll, m - 1) + |kvAll[m]|
  }

  lemma MulStep(p: nat, a: nat)
    ensures p * (a + 1) == p * a + p
    ensures p * a >= 0
  {
  }

  /** A table of B empty buckets. */
  function EmptyTable(B: nat): (t: HashTableTi)
    ensures |t.table| == B && TotalItems(t.table) == 0
  {
    var t := seq(B, _ => Bucket([]));
    EmptyTotal(t);
    HashTableTi(t)
  }

  lemma {:induction false} EmptyTotal(t: seq<Bucket>)
    requires forall b :: 0 <= b < |t| ==> t[b].items == []
    ensures TotalItems(t) == 0
    decreases |t|
  {
    if |t| > 0 {
      EmptyTotal(t[..|t| - 1]);
    }
  }

  /** The sigmas of x that party i collects are those of the other parties 1..n, so
      insert_element_Ti's index arithmetic stays in range. */
  lemma SigmasForArgsOk(okvs: seq<Okvs>, n: int, i: int, x: Block128)
    requires 1 <= i <= n && 2 * n < 0x8000_0000 && |okvs| == n + 1
    ensures AllIn(OthersFrom(1, n, i), 1, n + 1)
    ensures |OthersFrom(1, n, i)| == n - 1
    ensures InsertArgsOk(n, i, SigmasFor(okvs, OthersFrom(1, n, i), x))
  {
    OthersFromSpec(1, n, i);
    var gs := OthersFrom(1, n, i);
    assert AllIn(gs, 1, n + 1) by {
      forall j | 0 <= j < |gs|
        ensures 1 <= gs[j] < n + 1
      {
        assert gs[j] in gs;
      }
    }
    var sigmas := SigmasFor(okvs, gs, x);
    forall s | s in sigmas
      ensures 0 <= s.0 + i - 1 < 0x8000_0000
    {
      var k :| 0 <= k < |sigmas| && sigmas[k] == s;
    }
  }

  /** Party i's table t0 once element kv with tag is inserted: its own share and the sigmas
      okvs[g].Decode(kv.key) of the other parties g, placed by insert_element_Ti. */
  function ElementInserted(n: int, i: int, kv: KV, tag: Tag128, okvs: seq<Okvs>,
                           B: u64, saltTag: u64, t0: HashTableTi): (t: HashTableTi)
    requires 1 <= i <= n && 2 * n < 0x8000_0000 && B > 0
    requires |okvs| == n + 1 && |t0.table| == B
    ensures |t.table| == B
    ensures TotalItems(t.table) == TotalItems(t0.table) + n
  {
    SigmasForArgsOk(okvs, n, i, kv.key);
    InsertElementTi(t0, B, n, i, kv.key, tag, kv.val, SigmasFor(okvs, OthersFrom(1, n, i), kv.key), saltTag)
  }

  /** Party i's table t0 once its first m elements are inserted, in order. */
  function InsertedUpTo(n: int, i: int, kvs: seq<KV>, tags: seq<Tag128>, okvs: seq<Okvs>,
                        B: u64, saltTag: u64, t0: HashTableTi, m: nat): (t: HashTableTi)
    requires 1 <= i <= n && 2 * n < 0x8000_0000 && B > 0
    requires |tags| == |kvs| && |okvs| == n + 1 && |t0.table| == B && m <= |kvs|
    ensures |t.table| == B
    ensures TotalItems(t.table) == TotalItems(t0.table) + Queries(n, m)
  {
    if m == 0 then t0
    else
      ElementInserted(n, i, kvs[m - 1], tags[m - 1], okvs, B, saltTag,
                         InsertedUpTo(n, i, kvs, tags, okvs, B, saltTag, t0, m - 1))
  }

  /** The body of step S14 for element x of party i: query the n - 1 other parties for
      sigmas, then insert the element's n shares into i's table. */
  method S14Element(n: int, i: int, kv: KV, tag: Tag128, okvs: seq<Okvs>,
                    B: u64, saltTag: u64, t0: HashTableTi, s14In: u64)
    returns (t: HashTableTi, s14: u64)
    requires 1 <= i <= n && 2 * n < 0x8000_0000 && B > 0
    requires |okvs| == n + 1 && |t0.table| == B
    ensures AllIn(OthersFrom(1, n, i), 1, n + 1)
    ensures InsertArgsOk(n, i, SigmasFor(okvs, OthersFrom(1, n, i), kv.key))
    ensures t == InsertElementTi(t0, B, n, i, kv.key, tag, kv.val,
                                 SigmasFor(okvs, OthersFrom(1, n, i), kv.key), saltTag)
    ensures |t.table| == B
    ensures TotalItems(t.table) == TotalItems(t0.table) + n
    ensures s14 == Bump(s14In, n - 1)
  {
    SigmasForArgsOk(okvs, n, i, kv.key);
    var sigmas;
    sigmas, s14 := Sigmas(okvs, n, i, kv.key, s14In);
    t := InsertElementTi(t0, B, n, i, kv.key, tag, kv.val, sigmas, saltTag);
  }

  /** Step S14 for one party i, over all of its elements. */
  method S14Party(n: int, i: int, kvs: seq<KV>, tags: seq<Tag128>, okvs: seq<Okvs>,
                  B: u64, saltTag: u64, t0: HashTableTi, s14In: u64)
    returns (t: HashTableTi, s14: u64)
    requires 1 <= i <= n && 2 * n < 0x8000_0000 && B > 0
    requires |tags| == |kvs| && |okvs| == n + 1 && |t0.table| == B
    ensures t == InsertedUpTo(n, i, kvs, tags, okvs, B, saltTag, t0, |kvs|)
    ensures |t.table| == B
    ensures TotalItems(t.table) == TotalItems(t0.table) + n * |kvs|
    ensures s14 == Bump(s14In, Queries(n - 1, |kvs|))
  {
    t, s14 := t0, s14In;
    var j := 0;
    while j < |kvs|
      invariant 0 <= j <= |kvs|
      invariant t == InsertedUpTo(n, i, kvs, tags, okvs, B, saltTag, t0, j)
      invariant s14 == Bump(s14In, Queries(n - 1, j))
    {
      t, s14 := S14PartyStep(n, i, kvs, tags, okvs, B, saltTag, t0, s14In, j, t, s14);
      j := j + 1;
    }
    QueriesIsMul(n, |kvs|);
  }

  /** Element j of S14Party: the table and counter after elements 0..j-1 become those after
      elements 0..j. */
  method S14PartyStep(n: int, i: int, kvs: seq<KV>, tags: seq<Tag128>, okvs: seq<Okvs>,
                      B: u64, saltTag: u64, t0: HashTableTi, ghost s14In: u64,
                      j: nat, t: HashTableTi, s14: u64)
    returns (t': HashTableTi, s14': u64)
    requires 1 <= i <= n && 2 * n < 0x8000_0000 && B > 0
    requires |tags| == |kvs| && |okvs| == n + 1 && |t0.table| == B && j < |kvs|
    requires t == InsertedUpTo(n, i, kvs, tags, okvs, B, saltTag, t0, j)
    requires s14 == Bump(s14In, Queries(n - 1, j))
    ensures t' == InsertedUpTo(n, i, kvs, tags, okvs, B, saltTag, t0, j + 1)
    ensures s14' == Bump(s14In, Queries(n - 1, j + 1))
  {
    t', s14' := S14ElementAt(n, i, kvs, tags, okvs, B, saltTag, t0, j, t, s14);
    BumpAfter(s14In, s14, Queries(n - 1, j), n - 1, Queries(n - 1, j + 1), s14');
  }

  /** S14Element on element j, with the table before and after stated as folds. */
  method S14ElementAt(n: int, i: int, kvs: seq<KV>, tags: seq<Tag128>, okvs: seq<Okvs>,
                      B: u64, saltTag: u64, t0: HashTableTi, j: nat, t: HashTableTi, s14: u64)
    returns (t': HashTableTi, s14': u64)
    requires 1 <= i <= n && 2 * n < 0x8000_0000 && B > 0
    requires |tags| == |kvs| && |okvs| == n + 1 && |t0.table| == B && j < |kvs|
    requires t == InsertedUpTo(n, i, kvs, tags, okvs, B, saltTag, t0, j)
    ensures t' == InsertedUpTo(n, i, kvs, tags, okvs, B, saltTag, t0, j + 1)
    ensures s14' == Bump(s14, n - 1)
  {
    t', s14' := S14Element(n, i, kvs[j], tags[j], okvs, B, saltTag, t, s14);
  }

  /** The tables of parties 0..|ts|-1 after S14: B buckets each, none for party 0, and n
      shares for each element of every other party. */
  predicate Filled(ts: seq<HashTableTi>, n: int, kvAll: seq<seq<KV>>, B: nat)
    requires |ts| <= |kvAll|
  {
    |ts| >= 1 && forall i :: 0 <= i < |ts| ==>
      |ts[i].table| == B && TotalItems(ts[i].table) == (if i == 0 then 0 else n * |kvAll[i]|)
  }

  /** Party i's table after step S14: B empty buckets with its elements inserted in order. */
  function S14Table(n: int, i: int, kvAll: seq<seq<KV>>, tagAll: seq<seq<Tag128>>,
                    okvs: seq<Okvs>, B: u64, saltTag: u64): (t: HashTableTi)
    requires 1 <= i <= n && 2 * n < 0x8000_0000 && B > 0
    requires |kvAll| == n + 1 && |tagAll| == n + 1 && |okvs| == n + 1
    requires |tagAll[i]| == |kvAll[i]|
    ensures |t.table| == B
  {
    InsertedUpTo(n, i, kvAll[i], tagAll[i], okvs, B, saltTag, EmptyTable(B), |kvAll[i]|)
  }

  /** The tables of parties 1..|ts|-1 are those step S14 builds. */
  predicate Built(ts: seq<HashTableTi>, n: int, kvAll: seq<seq<KV>>, tagAll: seq<seq<Tag128>>,
                  okvs: seq<Okvs>, B: u64, saltTag: u64)
    requires |ts| <= n + 1 && 2 * n < 0x8000_0000 && B > 0
    requires |kvAll| == n + 1 && |tagAll| == n + 1 && |okvs| == n + 1
    requires forall i :: 1 <= i <= n ==> |tagAll[i]| == |kvAll[i]|
  {
    forall i :: 1 <= i < |ts| ==> ts[i] == S14Table(n, i, kvAll, tagAll, okvs, B, saltTag)
  }

  /** A table of party |ts| with n shares per element extends the filled tables. */
  lemma FilledSnoc(ts: seq<HashTableTi>, t: HashTableTi, n: int, kvAll: seq<seq<KV>>, B: nat)
    requires |ts| < |kvAll| && Filled(ts, n, kvAll, B)
    requires |t.table| == B && TotalItems(t.table) == n * |kvAll[|ts|]|
    ensures Filled(ts + [t], n, kvAll, B)
  {
    assert forall j :: 0 <= j < |ts| ==> (ts + [t])[j] == ts[j];
  }

  /** Party |ts|'s S14 table extends the built tables. */
  lemma BuiltSnoc(ts: seq<HashTableTi>, t: HashTableTi, n: int, kvAll: seq<seq<KV>>,
                  tagAll: seq<seq<Tag128>>, okvs: seq<Okvs>, B: u64, saltTag: u64)
    requires 1 <= |ts| <= n && 2 * n < 0x8000_0000 && B > 0
    requires |kvAll| == n + 1 && |tagAll| == n + 1 && |okvs| == n + 1
    requires forall i :: 1 <= i <= n ==> |tagAll[i]| == |kvAll[i]|
    requires Built(ts, n, kvAll, tagAll, okvs, B, saltTag)
    requires t == S14Table(n, |ts|, kvAll, tagAll, okvs, B, saltTag)
    ensures Built(ts + [t], n, kvAll, tagAll, okvs, B, saltTag)
  {
    var ts' := ts + [t];
    forall j | 1 <= j < |ts'|
      ensures ts'[j] == S14Table(n, j, kvAll, tagAll, okvs, B, saltTag)
    {
      if j < |ts| {
        assert ts'[j] == ts[j];
      } else {
        assert j == |ts| && ts'[j] == t;
      }
    }
  }

  /** Party |ts|'s queries extend the S14 counter. */
  lemma CounterSnoc(ts: seq<HashTableTi>, t: HashTableTi, s14In: u64, s14: u64, base: u64,
                    n: int, kvAll: seq<seq<KV>>)
    requires 1 <= |ts| <= n && |kvAll| == n + 1
    requires s14In == Bump(base, Queried(n - 1, kvAll, |ts| - 1))
    requires s14 == Bump(s14In, Queries(n - 1, |kvAll[|ts|]|))
    ensures s14 == Bump(base, Queried(n - 1, kvAll, |ts + [t]| - 1))
  {
    var i := |ts|;
    assert |ts + [t]| - 1 == i;
    BumpAfter(base, s14In, Queried(n - 1, kvAll, i - 1), Queries(n - 1, |kvAll[i]|),
              Queried(n - 1, kvAll, i), s14);
  }

  /** The state of step S14 once parties 1..|ts|-1 are done: their tables are built and
      filled, and the counter has grown by 32 bytes per query. */
  predicate S14Progress(ts: seq<HashTableTi>, s14: u64, base: u64, n: int, kvAll: seq<seq<KV>>,
                        tagAll: seq<seq<Tag128>>, okvs: seq<Okvs>, B: u64, saltTag: u64)
    requires |ts| <= n + 1 && 2 * n < 0x8000_0000 && B > 0
    requires |kvAll| == n + 1 && |tagAll| == n + 1 && |okvs| == n + 1
    requires forall i :: 1 <= i <= n ==> |tagAll[i]| == |kvAll[i]|
  {
    Filled(ts, n, kvAll, B) && Built(ts, n, kvAll, tagAll, okvs, B, saltTag)
    && (n >= 1 ==> s14 == Bump(base, Queried(n - 1, kvAll, |ts| - 1)))
  }

  /** Step S14 for party i on a fresh table, appended to the tables of parties 0..i-1, with
      the running S14 counter. */
  method S14Step(n: int, i: int, kvAll: seq<seq<KV>>, tagAll: seq<seq<Tag128>>,
                 okvs: seq<Okvs>, B: u64, saltTag: u64, ts: seq<HashTableTi>,
                 ghost base: u64, s14In: u64)
    returns (ts': seq<HashTableTi>, s14: u64)
    requires 1 <= i <= n && 2 * n < 0x8000_0000 && B > 0
    requires |kvAll| == n + 1 && |tagAll| == n + 1 && |okvs| == n + 1
    requires forall j :: 1 <= j <= n ==> |tagAll[j]| == |kvAll[j]|
    requires |ts| == i && S14Progress(ts, s14In, base, n, kvAll, tagAll, okvs, B, saltTag)
    ensures |ts'| == i + 1 && S14Progress(ts', s14, base, n, kvAll, tagAll, okvs, B, saltTag)
  {
    var t;
    t, s14 := S14Party(n, i, kvAll[i], tagAll[i], okvs, B, saltTag, EmptyTable(B), s14In);
    ProgressSnoc(ts, t, s14In, s14, base, n, kvAll, tagAll, okvs, B, saltTag);
    ts' := ts + [t];
  }

  /** Party |ts|'s finished table and counter extend the S14 state by one party. */
  lemma ProgressSnoc(ts: seq<HashTableTi>, t: HashTableTi, s14In: u64, s14: u64, base: u64,
                     n: int, kvAll: seq<seq<KV>>, tagAll: seq<seq<Tag128>>, okvs: seq<Okvs>,
                     B: u64, saltTag: u64)
    requires 1 <= |ts| <= n && 2 * n < 0x8000_0000 && B > 0
    requires |kvAll| == n + 1 && |tagAll| == n + 1 && |okvs| == n + 1
    requires forall j :: 1 <= j <= n ==> |tagAll[j]| == |kvAll[j]|
    requires S14Progress(ts, s14In, base, n, kvAll, tagAll, okvs, B, saltTag)
    requires t == S14Table(n, |ts|, kvAll, tagAll, okvs, B, saltTag)
    requires |t.table| == B && TotalItems(t.table) == n * |kvAll[|ts|]|
    requires s14 == Bump(s14In, Queries(n - 1, |kvAll[|ts|]|))
    ensures S14Progress(ts + [t], s14, base, n, kvAll, tagAll, okvs, B, saltTag)
  {
    CounterSnoc(ts, t, s14In, s14, base, n, kvAll);
    FilledSnoc(ts, t, n, kvAll, B);
    BuiltSnoc(ts, t, n, kvAll, tagAll, okvs, B, saltTag);
  }

  /** Step S14 for all parties 1..n. The tables start with B empty buckets; the sizing of B
      from floating point is left to the caller. */
  method RunS14(n: int, kvAll: seq<seq<KV>>, tagAll: seq<seq<Tag128>>, okvs: seq<Okvs>,
                B: u64, saltTag: u64, s14In: u64)
    returns (ts: seq<HashTableTi>, s14: u64)
    requires n >= 0 && 2 * n < 0x8000_0000 && B > 0
    requires |kvAll| == n + 1 && |tagAll| == n + 1 && |okvs| == n + 1
    requires forall i :: 1 <= i <= n ==> |tagAll[i]| == |kvAll[i]|
    ensures |ts| == n + 1
    ensures forall i :: 0 <= i <= n ==> |ts[i].table| == B
    ensures TotalItems(ts[0].table) == 0
    ensures forall i :: 1 <= i <= n ==> TotalItems(ts[i].table) == n * |kvAll[i]|
    ensures forall i :: 1 <= i <= n ==> ts[i] == S14Table(n, i, kvAll, tagAll, okvs, B, saltTag)
    ensures n >= 1 ==> s14 == (s14In + 32 * ((n - 1) * SumSizes(kvAll, n))) % Modulus
  {
    ts := [EmptyTable(B)];
    s14 := s14In;
    var i := 1;
    while i <= n
      invariant 1 <= i <= n + 1 && |ts| == i
      invariant S14Progress(ts, s14, s14In, n, kvAll, tagAll, okvs, B, saltTag)
    {
      ts, s14 := S14Step(n, i, kvAll, tagAll, okvs, B, saltTag, ts, s14In, s14);
      i := i + 1;
    }
    S14Finished(ts, s14, s14In, n, kvAll, tagAll, okvs, B, saltTag);
  }

  /** What the finished S14 state says about every table and the counter. */
  lemma S14Finished(ts: seq<HashTableTi>, s14: u64, base: u64, n: int, kvAll: seq<seq<KV>>,
                    tagAll: seq<seq<Tag128>>, okvs: seq<Okvs>, B: u64, saltTag: u64)
    requires n >= 0 && 2 * n < 0x8000_0000 && B > 0
    requires |kvAll| == n + 1 && |tagAll| == n + 1 && |okvs| == n + 1
    requires forall i :: 1 <= i <= n ==> |tagAll[i]| == |kvAll[i]|
    requires |ts| == n + 1 && S14Progress(ts, s14, base, n, kvAll, tagAll, okvs, B, saltTag)
    ensures forall i :: 0 <= i <= n ==> |ts[i].table| == B
    ensures TotalItems(ts[0].table) == 0
    ensures forall i :: 1 <= i <= n ==> TotalItems(ts[i].table) == n * |kvAll[i]|
    ensures forall i :: 1 <= i <= n ==> ts[i] == S14Table(n, i, kvAll, tagAll, okvs, B, saltTag)
    ensures n >= 1 ==> s14 == (base + 32 * ((n - 1) * SumSizes(kvAll, n))) % Modulus
  {
    if n >= 1 {
      assert |ts| - 1 == n;
      S14CounterClosedForm(base, n, kvAll);
    }
  }

  /** The S14 counter after all parties: 32 bytes per query, (n - 1) queries per element. */
  lemma S14CounterClosedForm(c: u64, n: int, kvAll: seq<seq<KV>>)
    requires n >= 1 && |kvAll| == n + 1
    ensures Bump(c, Queried(n - 1, kvAll, n)) == (c + 32 * ((n - 1) * SumSizes(kvAll, n))) % Modulus
  {
    QueriedClosedForm(n - 1, kvAll, n);
    BumpValue(c, Queried(n - 1, kvAll, n));
  }

  /** The sigma queries of m elements that each query p other parties. */
  function Queries(p: nat, m: nat): nat
  {
    if m == 0 then 0 else Queries(p, m - 1) + p
  }

  lemma {:induction false} QueriesIsMul(p: nat, m: nat)
    ensures Queries(p, m) == p * m
  {
    if m > 0 {
      QueriesIsMul(p, m - 1);
      MulStep(p, m - 1);
    }
  }

  /** The sigma queries made by parties 1..m when every element queries p other parties. */
  function Queried(p: nat, kvAll: seq<seq<KV>>, m: nat): nat
    requires m < |kvAll|
  {
    if m == 0 then 0 else Queried(p, kvAll, m - 1) + Queries(p, |kvAll[m]|)
  }

  lemma {:induction false} QueriedClosedForm(p: nat, kvAll: seq<seq<KV>>, m: nat)
    requires m < |kvAll|
    ensures Queried(p, kvAll, m) == p * SumSizes(kvAll, m)
  {
    if m > 0 {
      QueriedClosedForm(p, kvAll, m - 1);
      QueriesIsMul(p, |kvAll[m]|);
      MulAdd(p, SumSizes(kvAll, m - 1), |kvAll[m]|);
    }
  }

  lemma MulAdd(p: nat, a: nat, b: nat)
    ensures p * (a + b) == p * a + p * b
    ensures p * b >= 0
  {
  }

  /** S14 only appends: a table's buckets after the first m elements are prefixes of its
      buckets after the first m' elements. */
  lemma {:induction false} InsertedUpToGrows(n: int, i: int, kvs: seq<KV>, tags: seq<Tag128>,
                                             okvs: seq<Okvs>, B: u64, saltTag: u64,
                                             t0: HashTableTi, m: int, m': int, b: int)
    requires 1 <= i <= n && 2 * n < 0x8000_0000 && B > 0
    requires |tags| == |kvs| && |okvs| == n + 1 && |t0.table| == B
    requires 0 <= m <= m' <= |kvs| && 0 <= b < B
    ensures InsertedUpTo(n, i, kvs, tags, okvs, B, saltTag, t0, m).table[b].items
            <= InsertedUpTo(n, i, kvs, tags, okvs, B, saltTag, t0, m').table[b].items
    decreases m' - m, 1
  {
    if m == m' {
      PrefixReflexive(InsertedUpTo(n, i, kvs, tags, okvs, B, saltTag, t0, m).table[b].items);
    } else {
      InsertedUpToGrowsFrom(n, i, kvs, tags, okvs, B, saltTag, t0, m, m', b);
    }
  }

  lemma {:induction false} InsertedUpToGrowsFrom(n: int, i: int, kvs: seq<KV>, tags: seq<Tag128>,
                                                 okvs: seq<Okvs>, B: u64, saltTag: u64,
                                                 t0: HashTableTi, m: int, m': int, b: int)
    requires 1 <= i <= n && 2 * n < 0x8000_0000 && B > 0
    requires |tags| == |kvs| && |okvs| == n + 1 && |t0.table| == B
    requires 0 <= m < m' <= |kvs| && 0 <= b < B
    ensures InsertedUpTo(n, i, kvs, tags, okvs, B, saltTag, t0, m).table[b].items
            <= InsertedUpTo(n, i, kvs, tags, okvs, B, saltTag, t0, m').table[b].items
    decreases m' - m, 0
  {
    InsertedUpToGrows(n, i, kvs, tags, okvs, B, saltTag, t0, m + 1, m', b);
    InsertedUpToExtend(n, i, kvs, tags, okvs, B, saltTag, t0, m, m', b);
  }

  lemma InsertedUpToExtend(n: int, i: int, kvs: seq<KV>, tags: seq<Tag128>,
                           okvs: seq<Okvs>, B: u64, saltTag: u64,
                           t0: HashTableTi, m: int, m': int, b: int)
    requires 1 <= i <= n && 2 * n < 0x8000_0000 && B > 0
    requires |tags| == |kvs| && |okvs| == n + 1 && |t0.table| == B
    requires 0 <= m < m' <= |kvs| && 0 <= b < B
    requires InsertedUpTo(n, i, kvs, tags, okvs, B, saltTag, t0, m + 1).table[b].items
             <= InsertedUpTo(n, i, kvs, tags, okvs, B, saltTag, t0, m').table[b].items
    ensures InsertedUpTo(n, i, kvs, tags, okvs, B, saltTag, t0, m).table[b].items
            <= InsertedUpTo(n, i, kvs, tags, okvs, B, saltTag, t0, m').table[b].items
  {
    InsertedUpToStep(n, i, kvs, tags, okvs, B, saltTag, t0, m, b);
    PrefixTransitive(InsertedUpTo(n, i, kvs, tags, okvs, B, saltTag, t0, m).table[b].items,
                     InsertedUpTo(n, i, kvs, tags, okvs, B, saltTag, t0, m + 1).table[b].items,
                     InsertedUpTo(n, i, kvs, tags, okvs, B, saltTag, t0, m').table[b].items);
  }

  lemma PrefixReflexive(a: seq<Share>)
    ensures a <= a
  {
  }

  lemma PrefixTransitive(a: seq<Share>, b: seq<Share>, c: seq<Share>)
    requires a <= b && b <= c
    ensures a <= c
  {
  }

  lemma InsertedUpToStep(n: int, i: int, kvs: seq<KV>, tags: seq<Tag128>,
                         okvs: seq<Okvs>, B: u64, saltTag: u64,
                         t0: HashTableTi, m: nat, b: nat)
    requires 1 <= i <= n && 2 * n < 0x8000_0000 && B > 0
    requires |tags| == |kvs| && |okvs| == n + 1 && |t0.table| == B
    requires m < |kvs| && b < B
    ensures InsertedUpTo(n, i, kvs, tags, okvs, B, saltTag, t0, m).table[b].items
            <= InsertedUpTo(n, i, kvs, tags, okvs, B, saltTag, t0, m + 1).table[b].items
  {
    ElementInsertedGrows(n, i, kvs[m], tags[m], okvs, B, saltTag,
                         InsertedUpTo(n, i, kvs, tags, okvs, B, saltTag, t0, m), b);
  }

  /** Inserting one element keeps every bucket's old shares in front. */
  lemma ElementInsertedGrows(n: int, i: int, kv: KV, tag: Tag128, okvs: seq<Okvs>,
                             B: u64, saltTag: u64, t0: HashTableTi, b: nat)
    requires 1 <= i <= n && 2 * n < 0x8000_0000 && B > 0
    requires |okvs| == n + 1 && |t0.table| == B && b < B
    ensures t0.table[b].items <= ElementInserted(n, i, kv, tag, okvs, B, saltTag, t0).table[b].items
  {
    SigmasForArgsOk(okvs, n, i, kv.key);
    var sigmas := SigmasFor(okvs, OthersFrom(1, n, i), kv.key);
    InsertElementTiAppends(t0, B, n, i, kv.key, tag, kv.val, sigmas, saltTag);
  }

  /** Where S14 puts element kv of party i: its own share in bucket I[(2i-1) % n], where I
      are kv.key's sorted positions. */
  lemma OwnShareInserted(n: int, i: int, kv: KV, tag: Tag128, okvs: seq<Okvs>,
                         B: u64, saltTag: u64, t0: HashTableTi)
    requires 1 <= i <= n && 2 * n < 0x8000_0000 && B > 0
    requires |okvs| == n + 1 && |t0.table| == B
    ensures var I, t := PositionsSortedN(kv.key, n, saltTag, B), ElementInserted(n, i, kv, tag, okvs, B, saltTag, t0);
      Share(i, kv.val, tag) in t.table[I[(2 * i - 1) % n]].items
  {
    SigmasForArgsOk(okvs, n, i, kv.key);
    var sigmas := SigmasFor(okvs, OthersFrom(1, n, i), kv.key);
    InsertElementTiPlacesOwn(t0, B, n, i, kv.key, tag, kv.val, sigmas, saltTag);
  }

  /** Where S14 puts element kv of party i for another party g: the share carrying
      okvs[g].Decode(kv.key) goes to bucket I[(g+i-1) % n]. */
  lemma OtherShareInserted(n: int, i: int, kv: KV, tag: Tag128, okvs: seq<Okvs>,
                           B: u64, saltTag: u64, t0: HashTableTi, g: int)
    requires 1 <= i <= n && 2 * n < 0x8000_0000 && B > 0
    requires |okvs| == n + 1 && |t0.table| == B
    requires 1 <= g <= n && g != i
    ensures var I, t := PositionsSortedN(kv.key, n, saltTag, B), ElementInserted(n, i, kv, tag, okvs, B, saltTag, t0);
      Share(g, Decode(okvs[g], kv.key), tag) in t.table[I[(g + i - 1) % n]].items
  {
    SigmasForArgsOk(okvs, n, i, kv.key);
    var k := OthersFromIndex(1, n, i, g);
    var sigmas := SigmasFor(okvs, OthersFrom(1, n, i), kv.key);
    InsertElementTiPlacesSigma(t0, B, n, i, kv.key, tag, kv.val, sigmas, saltTag, k, g, Decode(okvs[g], kv.key));
  }

  /** The position of another party's index in the list main builds. */
  lemma OthersFromIndex(lo: int, n: int, i: int, g: int) returns (k: nat)
    requires lo <= g <= n && g != i
    ensures k < |OthersFrom(lo, n, i)| && OthersFrom(lo, n, i)[k] == g
  {
    OthersFromSpec(lo, n, i);
    assert g in OthersFrom(lo, n, i);
    k :| 0 <= k < |OthersFrom(lo, n, i)| && OthersFrom(lo, n, i)[k] == g;
  }

  lemma InPrefix(x: Share, a: seq<Share>, c: seq<Share>)
    requires x in a && a <= c
    ensures x in c
  {
    var j :| 0 <= j < |a| && a[j] == x;
    assert c[j] == x;
  }

  /** Where S14 leaves each of party i's elements: after all of kvs are inserted, element e's
      own share still sits in bucket I[(2i-1) % n], where I are the sorted positions of
      kvs[e].key. Later insertions only append, so nothing an earlier element placed is lost. */
  lemma InsertedUpToOwn(n: int, i: int, kvs: seq<KV>, tags: seq<Tag128>,
                        okvs: seq<Okvs>, B: u64, saltTag: u64, t0: HashTableTi, e: nat)
    requires 1 <= i <= n && 2 * n < 0x8000_0000 && B > 0
    requires |tags| == |kvs| && |okvs| == n + 1 && |t0.table| == B && e < |kvs|
    ensures var I, t := PositionsSortedN(kvs[e].key, n, saltTag, B),
                        InsertedUpTo(n, i, kvs, tags, okvs, B, saltTag, t0, |kvs|);
      Share(i, kvs[e].val, tags[e]) in t.table[I[(2 * i - 1) % n]].items
  {
    var b := PositionsSortedN(kvs[e].key, n, saltTag, B)[(2 * i - 1) % n];
    OwnShareInserted(n, i, kvs[e], tags[e], okvs, B, saltTag,
                     InsertedUpTo(n, i, kvs, tags, okvs, B, saltTag, t0, e));
    InsertedUpToGrows(n, i, kvs, tags, okvs, B, saltTag, t0, e + 1, |kvs|, b);
    InPrefix(Share(i, kvs[e].val, tags[e]),
             InsertedUpTo(n, i, kvs, tags, okvs, B, saltTag, t0, e + 1).table[b].items,
             InsertedUpTo(n, i, kvs, tags, okvs, B, saltTag, t0, |kvs|).table[b].items);
  }

  /** Likewise for another party g: after all of kvs are inserted, the share element e made
      for g still sits in bucket I[(g+i-1) % n]. */
  lemma InsertedUpToOther(n: int, i: int, kvs: seq<KV>, tags: seq<Tag128>,
                          okvs: seq<Okvs>, B: u64, saltTag: u64, t0: HashTableTi, e: nat, g: int)
    requires 1 <= i <= n && 2 * n < 0x8000_0000 && B > 0
    requires |tags| == |kvs| && |okvs| == n + 1 && |t0.table| == B && e < |kvs|
    requires 1 <= g <= n && g != i
    ensures var I, t := PositionsSortedN(kvs[e].key, n, saltTag, B),
                        InsertedUpTo(n, i, kvs, tags, okvs, B, saltTag, t0, |kvs|);
      Share(g, Decode(okvs[g], kvs[e].key), tags[e]) in t.table[I[(g + i - 1) % n]].items
  {
    var b := PositionsSortedN(kvs[e].key, n, saltTag, B)[(g + i - 1) % n];
    OtherShareInserted(n, i, kvs[e], tags[e], okvs, B, saltTag,
                       InsertedUpTo(n, i, kvs, tags, okvs, B, saltTag, t0, e), g);
    InsertedUpToGrows(n, i, kvs, tags, okvs, B, saltTag, t0, e + 1, |kvs|, b);
    InPrefix(Share(g, Decode(okvs[g], kvs[e].key), tags[e]),
             InsertedUpTo(n, i, kvs, tags, okvs, B, saltTag, t0, e + 1).table[b].items,
             InsertedUpTo(n, i, kvs, tags, okvs, B, saltTag, t0, |kvs|).table[b].items);
  }
}
