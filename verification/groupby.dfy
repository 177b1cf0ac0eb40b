/** The group-by mean of the trade-off plot script (plot_param_tradeoff.py):
    df.groupby(key)[value].mean().reset_index() over a key column and a value column, with
    exact real arithmetic. The result has one row per distinct key, keys ascending, and the
    arithmetic mean of that key's values. */
module GroupBy {

  /** Strictly ascending: sorted, and no key twice. */
  predicate Ascending(ks: seq<real>)
  {
    forall a, b :: 0 <= a < b < |ks| ==> ks[a] < ks[b]
  }

  /** v added to the ascending ks at its place, unless it is already there. */
  function InsertKey(ks: seq<real>, v: real): (r: seq<real>)
    ensures forall k :: k in r <==> k in ks || k == v
    decreases |ks|
  {
    if |ks| == 0 then [v]
    else if v < ks[0] then [v] + ks
    else if v == ks[0] then ks
    else
      assert ks == [ks[0]] + ks[1..];
      [ks[0]] + InsertKey(ks[1..], v)
  }

  lemma AscendingTail(ks: seq<real>)
    requires Ascending(ks) && |ks| > 0
    ensures Ascending(ks[1..])
  {
  }

  /** An ascending sequence stays ascending with a smaller element in front. */
  lemma AscendingCons(h: real, t: seq<real>)
    requires Ascending(t) && (|t| > 0 ==> h < t[0])
    ensures Ascending([h] + t)
  {
    var r := [h] + t;
    forall a, b | 0 <= a < b < |r|
      ensures r[a] < r[b]
    {
      if a > 0 {
        assert r[a] == t[a - 1] && r[b] == t[b - 1];
      } else if b > 1 {
        assert t[0] < t[b - 1];
      }
    }
  }

  /** Inserting keeps the keys ascending; the new head is the smaller of v and the old head. */
  lemma {:induction false} InsertKeyAscending(ks: seq<real>, v: real)
    requires Ascending(ks)
    ensures |InsertKey(ks, v)| > 0
    ensures InsertKey(ks, v)[0] == if |ks| == 0 || v <= ks[0] then v else ks[0]
    ensures Ascending(InsertKey(ks, v))
    decreases |ks|
  {
    if |ks| == 0 {
    } else if v < ks[0] {
      AscendingCons(v, ks);
    } else if v > ks[0] {
      AscendingTail(ks);
      InsertKeyAscending(ks[1..], v);
      var t := InsertKey(ks[1..], v);
      assert |ks| > 1 ==> ks[0] < ks[1];
      AscendingCons(ks[0], t);
    }
  }

  /** The distinct keys of a column, ascending. */
  function SortedKeys(keys: seq<real>): (ks: seq<real>)
    ensures forall k :: k in ks <==> k in keys
    decreases |keys|
  {
    if |keys| == 0 then []
    else
      var front := keys[..|keys| - 1];
      assert keys == front + [keys[|keys| - 1]];
      InsertKey(SortedKeys(front), keys[|keys| - 1])
  }

  lemma {:induction false} SortedKeysAscending(keys: seq<real>)
    ensures Ascending(SortedKeys(keys))
    decreases |keys|
  {
    if |keys| > 0 {
      var front := keys[..|keys| - 1];
      SortedKeysAscending(front);
      InsertKeyAscending(SortedKeys(front), keys[|keys| - 1]);
    }
  }

  /** The number of rows with key k. */
  function CountWhere(keys: seq<real>, k: real): nat
  {
    if |keys| == 0 then 0
    else (if keys[0] == k then 1 else 0) + CountWhere(keys[1..], k)
  }

  /** The sum of the values of the rows with key k. */
  function SumWhere(keys: seq<real>, vals: seq<real>, k: real): real
    requires |keys| == |vals|
  {
    if |keys| == 0 then 0.0
    else (if keys[0] == k then vals[0] else 0.0) + SumWhere(keys[1..], vals[1..], k)
  }

  /** A key that occurs has at least one row. */
  lemma {:induction false} CountWherePositive(keys: seq<real>, k: real)
    requires k in keys
    ensures CountWhere(keys, k) > 0
    decreases |keys|
  {
    if keys[0] != k {
      assert k in keys[1..] by {
        var j :| 0 <= j < |keys| && keys[j] == k;
        assert j > 0 && keys[1..][j - 1] == k;
      }
      CountWherePositive(keys[1..], k);
    }
  }

  /** The mean of the values with key k; k must occur. */
  function MeanWhere(keys: seq<real>, vals: seq<real>, k: real): real
    requires |keys| == |vals| && k in keys
  {
    CountWherePositive(keys, k);
    SumWhere(keys, vals, k) / (CountWhere(keys, k) as real)
  }

  /** groupby(key)[value].mean().reset_index(): one (key, mean) row per distinct key, keys
      ascending. */
  function GroupMean(keys: seq<real>, vals: seq<real>): (r: seq<(real, real)>)
    requires |keys| == |vals|
    ensures forall j :: 0 <= j < |r| ==> r[j].0 in keys && r[j].1 == MeanWhere(keys, vals, r[j].0)
    ensures forall k :: k in keys ==> exists j :: 0 <= j < |r| && r[j].0 == k
    ensures forall a, b :: 0 <= a < b < |r| ==> r[a].0 < r[b].0
  {
    var ks := SortedKeys(keys);
    SortedKeysAscending(keys);
    var r := seq(|ks|, j requires 0 <= j < |ks| => (ks[j], MeanWhere(keys, vals, ks[j])));
    assert forall k :: k in keys ==> exists j :: 0 <= j < |r| && r[j].0 == k by {
      forall k | k in keys
        ensures exists j :: 0 <= j < |r| && r[j].0 == k
      {
        var j :| 0 <= j < |ks| && ks[j] == k;
        assert r[j].0 == k;
      }
    }
    r
  }

  /** No rows give no groups. */
  lemma GroupMeanEmpty()
    ensures GroupMean([], []) == []
  {
  }

  /** (c + 1) x = c x + x over the reals. */
  lemma MulSucc(c: real, x: real)
    ensures (c + 1.0) * x == c * x + x
  {
  }

  /** c copies of x added up: c * x without a multiplication. */
  function Times(c: nat, x: real): real
  {
    if c == 0 then 0.0 else Times(c - 1, x) + x
  }

  lemma {:induction false} TimesIsMul(c: nat, x: real)
    ensures Times(c, x) == (c as real) * x
  {
    if c > 0 {
      TimesIsMul(c - 1, x);
      MulSucc((c - 1) as real, x);
    }
  }

  /** The sum of a group lies between count times a lower bound and count times an upper
      bound of its values. */
  lemma SumWhereBounds(keys: seq<real>, vals: seq<real>, k: real, lo: real, hi: real)
    requires |keys| == |vals|
    requires forall j :: 0 <= j < |keys| && keys[j] == k ==> lo <= vals[j] <= hi
    ensures Times(CountWhere(keys, k), lo) <= SumWhere(keys, vals, k) <= Times(CountWhere(keys, k), hi)
  {
    SumWhereLower(keys, vals, k, lo);
    SumWhereUpper(keys, vals, k, hi);
  }

  lemma {:induction false} SumWhereLower(keys: seq<real>, vals: seq<real>, k: real, lo: real)
    requires |keys| == |vals|
    requires forall j :: 0 <= j < |keys| && keys[j] == k ==> lo <= vals[j]
    ensures Times(CountWhere(keys, k), lo) <= SumWhere(keys, vals, k)
    decreases |keys|
  {
    if |keys| > 0 {
      assert forall j :: 0 <= j < |keys| - 1 ==> keys[1..][j] == keys[j + 1] && vals[1..][j] == vals[j + 1];
      SumWhereLower(keys[1..], vals[1..], k, lo);
    }
  }

  lemma {:induction false} SumWhereUpper(keys: seq<real>, vals: seq<real>, k: real, hi: real)
    requires |keys| == |vals|
    requires forall j :: 0 <= j < |keys| && keys[j] == k ==> vals[j] <= hi
    ensures SumWhere(keys, vals, k) <= Times(CountWhere(keys, k), hi)
    decreases |keys|
  {
    if |keys| > 0 {
      assert forall j :: 0 <= j < |keys| - 1 ==> keys[1..][j] == keys[j + 1] && vals[1..][j] == vals[j + 1];
      SumWhereUpper(keys[1..], vals[1..], k, hi);
    }
  }

  /** A quotient by a positive real keeps bounds that hold for the multiple. */
  lemma DivBounds(s: real, c: real, lo: real, hi: real)
    requires c > 0.0 && c * lo <= s <= c * hi
    ensures lo <= s / c <= hi
  {
    var q := s / c;
    assert q * c == s;
  }

  /** A sum between c copies of lo and c copies of hi has its c-th part between lo and hi. */
  lemma TimesDivBounds(c: nat, sum: real, lo: real, hi: real)
    requires c > 0 && Times(c, lo) <= sum <= Times(c, hi)
    ensures lo <= sum / (c as real) <= hi
  {
    TimesIsMul(c, lo);
    TimesIsMul(c, hi);
    DivBounds(sum, c as real, lo, hi);
  }

  /** A group's mean lies between any lower and upper bound of its values. */
  lemma MeanBetween(keys: seq<real>, vals: seq<real>, k: real, lo: real, hi: real)
    requires |keys| == |vals| && k in keys
    requires forall j :: 0 <= j < |keys| && keys[j] == k ==> lo <= vals[j] <= hi
    ensures lo <= MeanWhere(keys, vals, k) <= hi
  {
    SumWhereBounds(keys, vals, k, lo, hi);
    CountWherePositive(keys, k);
    TimesDivBounds(CountWhere(keys, k), SumWhere(keys, vals, k), lo, hi);
  }

  /** Two rows with key 1 and one with key 2: [(1, 15), (2, 30)]. */
  lemma GroupMeanExample()
    ensures GroupMean([1.0, 1.0, 2.0], [10.0, 20.0, 30.0]) == [(1.0, 15.0), (2.0, 30.0)]
  {
    var keys, vals := [1.0, 1.0, 2.0], [10.0, 20.0, 30.0];
    assert keys[..2] == [1.0, 1.0] && keys[..2][..1] == [1.0] && keys[..1] == [1.0];
    assert SortedKeys([1.0]) == [1.0];
    assert SortedKeys([1.0, 1.0]) == [1.0];
    assert SortedKeys(keys) == [1.0, 2.0];
    assert keys[1..] == [1.0, 2.0] && keys[1..][1..] == [2.0] && vals[1..] == [20.0, 30.0] && vals[1..][1..] == [30.0];
    assert CountWhere(keys, 1.0) == 2 && SumWhere(keys, vals, 1.0) == 30.0;
    assert CountWhere(keys, 2.0) == 1 && SumWhere(keys, vals, 2.0) == 30.0;
  }
}
