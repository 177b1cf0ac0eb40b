/** Bucket placement (include/layout.hpp): an element's n positions in a table of B
    buckets, sorted, and the insertion of its own share and the n - 1 sigma shares. */
module Layout {
  import opened Words
  import opened Types

  const PosMul1: u64 := 0x9e37_79b9_7f4a_7c15
  const PosMul2: u64 := 0xff51_afd7_ed55_8ccd
  /** Inverses of PosMul1 and PosMul2 modulo 2^64. */
  const PosMul1Inv: u64 := 0xf1de_83e1_9937_733d
  const PosMul2Inv: u64 := 0x4f74_430c_22a5_4005

  /** The finaliser of h_pos: multiply, xorshift 33, multiply, xorshift 33. */
  function PosFinal(w: u64): u64
  {
    XorShift(Mul(XorShift(Mul(w, PosMul1), 33), PosMul2), 33)
  }

  function UnPosFinal(h: u64): u64
  {
    Mul(UnXorShift(Mul(UnXorShift(h, 33), PosMul2Inv), 33), PosMul1Inv)
  }

  lemma UnPosFinalPosFinal(w: u64)
    ensures UnPosFinal(PosFinal(w)) == w
  {
    assert (PosMul1 * PosMul1Inv) % Modulus == 1;
    assert (PosMul2 * PosMul2Inv) % Modulus == 1;
    var h1 := XorShift(Mul(w, PosMul1), 33);
    XorShiftInverse(Mul(h1, PosMul2), 33);
    MulInverse(h1, PosMul2, PosMul2Inv);
    XorShiftInverse(Mul(w, PosMul1), 33);
    MulInverse(w, PosMul1, PosMul1Inv);
  }

  /** The word h_pos reduces modulo B. */
  function PosHash(x: Block128, dom: u64, seed: u64): u64
  {
    PosFinal(Xor(Xor(Xor(x.hi, Shl(x.lo, 1)), dom), seed))
  }

  /** Before the reduction, different domains never collide for the same element and seed. */
  lemma PosHashDomainsDiffer(x: Block128, seed: u64, d: u64, d': u64)
    ensures PosHash(x, d, seed) == PosHash(x, d', seed) <==> d == d'
  {
    var m := Xor(x.hi, Shl(x.lo, 1));
    UnPosFinalPosFinal(Xor(Xor(m, d), seed));
    UnPosFinalPosFinal(Xor(Xor(m, d'), seed));
    XorInjective(Xor(m, d), Xor(m, d'), seed);
    XorCommutative(m, d);
    XorCommutative(m, d');
    XorInjective(d, d', m);
  }

  /** h_pos(x, dom, seed, B) = PosHash(x, dom, seed) % B; B must not be zero. */
  function HPos(x: Block128, dom: u64, seed: u64, B: u64): (r: nat)
    requires B > 0
    ensures r < B
  {
    PosHash(x, dom, seed) % B
  }

  /** Like the seed mixing, h_pos does not see bit 63 of lo. */
  lemma HPosIgnoresTopBit(x: Block128, dom: u64, seed: u64, B: u64)
    requires B > 0 && x.lo < Half
    ensures HPos(Block128(x.hi, x.lo + Half), dom, seed, B) == HPos(x, dom, seed, B)
  {
    ShlOneDropsTopBit(x.lo);
  }

  // ---- Sorting ----

  predicate Sorted(s: seq<nat>)
  {
    forall a, b :: 0 <= a < b < |s| ==> s[a] <= s[b]
  }

  /** v inserted in front of the first element of s not below it. */
  function InsertSorted(s: seq<nat>, v: nat): (r: seq<nat>)
    ensures |r| == |s| + 1
    ensures multiset(r) == multiset(s) + multiset{v}
    decreases |s|
  {
    if |s| == 0 then [v]
    else if v <= s[0] then [v] + s
    else
      assert s == [s[0]] + s[1..];
      [s[0]] + InsertSorted(s[1..], v)
  }

  /** Inserting into a sorted sequence keeps it sorted; the head is the smaller of v and
      the old head. */
  lemma {:induction false} InsertSortedSorted(s: seq<nat>, v: nat)
    requires Sorted(s)
    ensures InsertSorted(s, v)[0] == if |s| == 0 || v <= s[0] then v else s[0]
    ensures Sorted(InsertSorted(s, v))
    decreases |s|
  {
    if |s| > 0 && v > s[0] {
      var t := InsertSorted(s[1..], v);
      SortedTail(s);
      InsertSortedSorted(s[1..], v);
      assert s[0] <= t[0];
      SortedCons(s[0], t);
    }
  }

  /** A sorted sequence stays sorted with an element no larger than its head in front. */
  lemma SortedCons(h: nat, t: seq<nat>)
    requires Sorted(t) && (|t| > 0 ==> h <= t[0])
    ensures Sorted([h] + t)
  {
    var r := [h] + t;
    forall a, b | 0 <= a < b < |r|
      ensures r[a] <= r[b]
    {
      if a > 0 {
        assert r[a] == t[a - 1] && r[b] == t[b - 1];
      } else {
        assert t[0] <= t[b - 1];
      }
    }
  }

  /** Insertion sort: the ascending arrangement std::sort produces. */
  function SortNat(s: seq<nat>): (r: seq<nat>)
    ensures |r| == |s|
    ensures multiset(r) == multiset(s)
  {
    if |s| == 0 then []
    else
      assert s == s[..|s| - 1] + [s[|s| - 1]];
      InsertSorted(SortNat(s[..|s| - 1]), s[|s| - 1])
  }

  lemma {:induction false} SortNatSorted(s: seq<nat>)
    ensures Sorted(SortNat(s))
    decreases |s|
  {
    if |s| > 0 {
      SortNatSorted(s[..|s| - 1]);
      InsertSortedSorted(SortNat(s[..|s| - 1]), s[|s| - 1]);
    }
  }

  /** The first element of a sorted sequence is the least element of its multiset. */
  lemma SortedHeadIsLeast(a: seq<nat>, v: nat)
    requires Sorted(a) && v in multiset(a)
    ensures a[0] <= v
  {
    var k :| 0 <= k < |a| && a[k] == v;
  }

  lemma MultisetTail(a: seq<nat>)
    requires |a| > 0
    ensures multiset(a[1..]) == multiset(a) - multiset{a[0]}
  {
    assert a == [a[0]] + a[1..];
  }

  /** A sorted arrangement of a multiset is unique, so any correct sort gives SortNat's result. */
  lemma {:induction false} SortedUnique(a: seq<nat>, b: seq<nat>)
    requires Sorted(a) && Sorted(b) && multiset(a) == multiset(b)
    ensures a == b
    decreases |a|
  {
    assert |a| == |b| by {
      assert |a| == |multiset(a)| && |b| == |multiset(b)|;
    }
    if |a| > 0 {
      assert a[0] == b[0] by {
        assert a[0] in multiset(a) && b[0] in multiset(b);
        SortedHeadIsLeast(a, b[0]);
        SortedHeadIsLeast(b, a[0]);
      }
      assert multiset(a[1..]) == multiset(b[1..]) by {
        MultisetTail(a);
        MultisetTail(b);
      }
      SortedTail(a);
      SortedTail(b);
      SortedUnique(a[1..], b[1..]);
      assert a == [a[0]] + a[1..] && b == [b[0]] + b[1..];
    }
  }

  lemma SortedTail(a: seq<nat>)
    requires Sorted(a) && |a| > 0
    ensures Sorted(a[1..])
  {
  }

  /** h_pos for domains 1..n, in that order. */
  function RawPositions(x: Block128, n: nat, seed: u64, B: u64): (r: seq<nat>)
    requires B > 0
    ensures |r| == n
  {
    seq(n, j requires 0 <= j => HPos(x, FromInt(j + 1), seed, B))
  }

  /** positions_sorted_n: the n bucket positions of x, ascending. A negative n is not a
      valid argument: reserve(n) would throw. */
  function PositionsSortedN(x: Block128, n: int, seed: u64, B: u64): (r: seq<nat>)
    requires B > 0 && n >= 0
    ensures |r| == n
    ensures Sorted(r)
    ensures multiset(r) == multiset(RawPositions(x, n, seed, B))
    ensures forall j :: 0 <= j < |r| ==> r[j] < B
  {
    var raw := RawPositions(x, n, seed, B);
    SortNatSorted(raw);
    var r := SortNat(raw);
    assert forall j :: 0 <= j < |r| ==> r[j] in multiset(raw);
    r
  }

  // ---- Insertion into the table ----

  /** The bucket index chosen for party g by party i: (g + i - 1) % n; g == i gives the
      share's own index (2i - 1) % n. */
  function SlotOf(g: int, i: int, n: int): (r: nat)
    requires n >= 1 && g + i - 1 >= 0
    ensures r < n
  {
    (g + i - 1) % n
  }

  /** Two numbers less than n apart leave different remainders. */
  lemma RemaindersApart(a: nat, d: int, n: int)
    requires 0 < d < n
    ensures a % n != (a + d) % n
  {
    var q, r := a / n, a % n;
    if r + d < n {
      DivModUnique(a + d, n, q, r + d);
    } else {
      DivModUnique(a + d, n, q + 1, r + d - n);
    }
  }

  /** For a fixed inserting party i, the n parties 1..n (i itself included) get n
      different indices into the positions. */
  lemma SlotsDistinct(g: int, g': int, i: int, n: int)
    requires n >= 1 && 1 <= g <= n && 1 <= g' <= n && i >= 1
    ensures SlotOf(g, i, n) == SlotOf(g', i, n) <==> g == g'
  {
    if g < g' {
      RemaindersApart(g + i - 1, g' - g, n);
    } else if g' < g {
      RemaindersApart(g' + i - 1, g - g', n);
    }
  }

  /** Every share insert_element_Ti appends, with its bucket, in append order. */
  function Placements(I: seq<nat>, n: int, i: int, fxi: Block128, tag: Tag128,
                      sigmas: seq<(int, Block128)>): (r: seq<(nat, Share)>)
    requires n >= 1 && |I| == n && i >= 1
    requires forall s :: s in sigmas ==> s.0 + i - 1 >= 0
    ensures |r| == 1 + |sigmas|
  {
    [(I[SlotOf(i, i, n)], Share(i, fxi, tag))]
      + seq(|sigmas|, j requires 0 <= j < |sigmas| => (I[SlotOf(sigmas[j].0, i, n)], Share(sigmas[j].0, sigmas[j].1, tag)))
  }

  /** The shares of ps placed in bucket b, in order. */
  function SharesAt(ps: seq<(nat, Share)>, b: nat): seq<Share>
  {
    if |ps| == 0 then []
    else SharesAt(ps[..|ps| - 1], b) + (if ps[|ps| - 1].0 == b then [ps[|ps| - 1].1] else [])
  }

  /** The number of shares in all buckets. */
  function TotalItems(t: seq<Bucket>): nat
  {
    if |t| == 0 then 0 else TotalItems(t[..|t| - 1]) + |t[|t| - 1].items|
  }

  /** Appending one share to one bucket adds one to the total. */
  lemma {:induction false} TotalItemsAppend(t: seq<Bucket>, b: nat, s: Share)
    requires b < |t|
    ensures TotalItems(t[b := Bucket(t[b].items + [s])]) == TotalItems(t) + 1
    decreases |t|
  {
    var t' := t[b := Bucket(t[b].items + [s])];
    var n := |t| - 1;
    assert t'[..n] == if b < n then t[..n][b := Bucket(t[b].items + [s])] else t[..n];
    if b < n {
      TotalItemsAppend(t[..n], b, s);
    }
  }

  /** The shares of ps appended, in order, each to the bucket it names. */
  function AppendShares(t: seq<Bucket>, ps: seq<(nat, Share)>): (r: seq<Bucket>)
    requires forall j :: 0 <= j < |ps| ==> ps[j].0 < |t|
    ensures |r| == |t|
  {
    if |ps| == 0 then t
    else
      var r := AppendShares(t, ps[..|ps| - 1]);
      var (b, s) := ps[|ps| - 1];
      r[b := Bucket(r[b].items + [s])]
  }

  /** Each bucket ends up holding its old shares followed by those of ps placed there. */
  lemma {:induction false} AppendSharesBuckets(t: seq<Bucket>, ps: seq<(nat, Share)>)
    requires forall j :: 0 <= j < |ps| ==> ps[j].0 < |t|
    ensures forall b :: 0 <= b < |t| ==> AppendShares(t, ps)[b].items == t[b].items + SharesAt(ps, b)
    decreases |ps|
  {
    if |ps| > 0 {
      AppendSharesBuckets(t, ps[..|ps| - 1]);
    }
  }

  /** The total number of shares grows by exactly |ps|. */
  lemma {:induction false} AppendSharesTotal(t: seq<Bucket>, ps: seq<(nat, Share)>)
    requires forall j :: 0 <= j < |ps| ==> ps[j].0 < |t|
    ensures TotalItems(AppendShares(t, ps)) == TotalItems(t) + |ps|
    decreases |ps|
  {
    if |ps| > 0 {
      var front := ps[..|ps| - 1];
      AppendSharesTotal(t, front);
      TotalItemsAppend(AppendShares(t, front), ps[|ps| - 1].0, ps[|ps| - 1].1);
    }
  }

  /** The source's int arithmetic in insert_element_Ti must not overflow, and the indices
      (2i-1) % n and (g+i-1) % n must not be negative. */
  predicate InsertArgsOk(n: int, i: int, sigmas: seq<(int, Block128)>)
  {
    n >= 1 && 1 <= i && 2 * i - 1 < 0x8000_0000
    && forall s :: s in sigmas ==> 0 <= s.0 + i - 1 < 0x8000_0000
  }

  /** The shares insert_element_Ti appends, with their buckets. */
  function InsertPlacements(B: u64, n: int, i: int, x: Block128, tagX: Tag128, fxi: Block128,
                            sigmas: seq<(int, Block128)>, seedPos: u64): (ps: seq<(nat, Share)>)
    requires B > 0 && InsertArgsOk(n, i, sigmas)
    ensures |ps| == 1 + |sigmas|
    ensures forall j :: 0 <= j < |ps| ==> ps[j].0 < B
  {
    var I := PositionsSortedN(x, n, seedPos, B);
    var ps := Placements(I, n, i, fxi, tagX, sigmas);
    assert forall j :: 0 <= j < |ps| ==> ps[j].0 in I;
    ps
  }

  /** insert_element_Ti: append Share{i, fxi, tag} to bucket I[(2i-1) % n], then for each
      sigma (g, sig) append Share{g, sig, tag} to bucket I[(g+i-1) % n]. The total grows
      by 1 + |sigmas| and no bucket changes size otherwise. */
  function InsertElementTi(ti: HashTableTi, B: u64, n: int, i: int, x: Block128, tagX: Tag128,
                           fxi: Block128, sigmas: seq<(int, Block128)>, seedPos: u64): (r: HashTableTi)
    requires B > 0 && |ti.table| == B && InsertArgsOk(n, i, sigmas)
    ensures |r.table| == |ti.table|
    ensures TotalItems(r.table) == TotalItems(ti.table) + 1 + |sigmas|
  {
    var ps := InsertPlacements(B, n, i, x, tagX, fxi, sigmas, seedPos);
    AppendSharesTotal(ti.table, ps);
    HashTableTi(AppendShares(ti.table, ps))
  }

  /** Append only: every bucket keeps its items and gains exactly the shares placed in it,
      in order. */
  lemma InsertElementTiAppends(ti: HashTableTi, B: u64, n: int, i: int, x: Block128, tagX: Tag128,
                               fxi: Block128, sigmas: seq<(int, Block128)>, seedPos: u64)
    requires B > 0 && |ti.table| == B && InsertArgsOk(n, i, sigmas)
    ensures forall b :: 0 <= b < B ==>
      InsertElementTi(ti, B, n, i, x, tagX, fxi, sigmas, seedPos).table[b].items
        == ti.table[b].items + SharesAt(InsertPlacements(B, n, i, x, tagX, fxi, sigmas, seedPos), b)
  {
    AppendSharesBuckets(ti.table, InsertPlacements(B, n, i, x, tagX, fxi, sigmas, seedPos));
  }

  /** Every share ps places in bucket b is among the shares SharesAt collects for b. */
  lemma {:induction false} SharesAtHas(ps: seq<(nat, Share)>, j: nat)
    requires j < |ps|
    ensures ps[j].1 in SharesAt(ps, ps[j].0)
    decreases |ps|
  {
    if j < |ps| - 1 {
      var front := ps[..|ps| - 1];
      SharesAtHas(front, j);
      assert front[j] == ps[j];
    }
  }

  /** Where Placements puts each share: i's own to I[(2i-1) % n], sigma j's to
      I[(g+i-1) % n]. */
  lemma PlacementsAt(I: seq<nat>, n: int, i: int, fxi: Block128, tag: Tag128,
                     sigmas: seq<(int, Block128)>)
    requires n >= 1 && |I| == n && i >= 1
    requires forall s :: s in sigmas ==> s.0 + i - 1 >= 0
    ensures Placements(I, n, i, fxi, tag, sigmas)[0] == (I[(2 * i - 1) % n], Share(i, fxi, tag))
    ensures forall j :: 0 <= j < |sigmas| ==>
      Placements(I, n, i, fxi, tag, sigmas)[j + 1]
        == (I[(sigmas[j].0 + i - 1) % n], Share(sigmas[j].0, sigmas[j].1, tag))
  {
  }

  /** insert_element_Ti puts Share{i, fxi, tag} into bucket I[(2i-1) % n], where I are the
      sorted positions of x. */
  lemma InsertElementTiPlacesOwn(ti: HashTableTi, B: u64, n: int, i: int, x: Block128, tagX: Tag128,
                                 fxi: Block128, sigmas: seq<(int, Block128)>, seedPos: u64)
    requires B > 0 && |ti.table| == B && InsertArgsOk(n, i, sigmas)
    ensures var I, r := PositionsSortedN(x, n, seedPos, B), InsertElementTi(ti, B, n, i, x, tagX, fxi, sigmas, seedPos);
      Share(i, fxi, tagX) in r.table[I[(2 * i - 1) % n]].items
  {
    var I := PositionsSortedN(x, n, seedPos, B);
    var ps := InsertPlacements(B, n, i, x, tagX, fxi, sigmas, seedPos);
    assert ps == Placements(I, n, i, fxi, tagX, sigmas);
    PlacementsAt(I, n, i, fxi, tagX, sigmas);
    var b := ps[0].0;
    assert b == I[(2 * i - 1) % n];
    InsertElementTiAppends(ti, B, n, i, x, tagX, fxi, sigmas, seedPos);
    SharesAtHas(ps, 0);
  }

  /** insert_element_Ti puts, for every sigma (g, v), Share{g, v, tag} into bucket
      I[(g+i-1) % n], where I are the sorted positions of x. */
  lemma InsertElementTiPlacesSigma(ti: HashTableTi, B: u64, n: int, i: int, x: Block128, tagX: Tag128,
                                   fxi: Block128, sigmas: seq<(int, Block128)>, seedPos: u64,
                                   k: nat, g: int, v: Block128)
    requires B > 0 && |ti.table| == B && InsertArgsOk(n, i, sigmas)
    requires k < |sigmas| && sigmas[k] == (g, v)
    ensures var I, r := PositionsSortedN(x, n, seedPos, B), InsertElementTi(ti, B, n, i, x, tagX, fxi, sigmas, seedPos);
      Share(g, v, tagX) in r.table[I[(g + i - 1) % n]].items
  {
    var I := PositionsSortedN(x, n, seedPos, B);
    var ps := InsertPlacements(B, n, i, x, tagX, fxi, sigmas, seedPos);
    assert ps == Placements(I, n, i, fxi, tagX, sigmas);
    PlacementAtSigma(I, n, i, fxi, tagX, sigmas, k, g, v);
    var b := ps[k + 1].0;
    assert b == I[(g + i - 1) % n];
    InsertElementTiAppends(ti, B, n, i, x, tagX, fxi, sigmas, seedPos);
    SharesAtHas(ps, k + 1);
  }

  lemma PlacementAtSigma(I: seq<nat>, n: int, i: int, fxi: Block128, tag: Tag128,
                         sigmas: seq<(int, Block128)>, k: nat, g: int, v: Block128)
    requires n >= 1 && |I| == n && i >= 1
    requires forall s :: s in sigmas ==> s.0 + i - 1 >= 0
    requires k < |sigmas| && sigmas[k] == (g, v)
    ensures Placements(I, n, i, fxi, tag, sigmas)[k + 1] == (I[(g + i - 1) % n], Share(g, v, tag))
  {
    PlacementsAt(I, n, i, fxi, tag, sigmas);
  }
}
