/** Column resolution of the trade-off plot script (plot_param_tradeoff.py): headers are
    lower-cased, and a column is the left-most header containing any of a list of
    candidate substrings; with none, taking element [0] of the empty list fails. */
module Columns {
  import opened Wrappers

  // ---- Lower-casing ----

  /** str.lower on one character, for ASCII letters. */
  function LowerChar(c: char): char
  {
    if 'A' <= c <= 'Z' then (c as int + 32) as char else c
  }

  /** str.lower, character by character. */
  function Lower(s: string): (r: string)
    ensures |r| == |s|
    ensures forall j :: 0 <= j < |s| ==> r[j] == LowerChar(s[j])
  {
    seq(|s|, j requires 0 <= j < |s| => LowerChar(s[j]))
  }

  /** The result of lower-casing has no capital letters. */
  predicate NoUpper(s: string)
  {
    forall j :: 0 <= j < |s| ==> !('A' <= s[j] <= 'Z')
  }

  /** Lower-casing removes every capital letter and changes nothing else: letters map to
      the letter 32 code points above, other characters stay. */
  lemma LowerSpec(s: string)
    ensures NoUpper(Lower(s))
    ensures forall j :: 0 <= j < |s| && !('A' <= s[j] <= 'Z') ==> Lower(s)[j] == s[j]
    ensures forall j :: 0 <= j < |s| && 'A' <= s[j] <= 'Z' ==> Lower(s)[j] as int == s[j] as int + 32
  {
  }

  /** A string without capitals is its own lower-case form. */
  lemma LowerFixesNoUpper(s: string)
    requires NoUpper(s)
    ensures Lower(s) == s
  {
  }

  /** Lower-casing twice is lower-casing once. */
  lemma LowerIdempotent(s: string)
    ensures Lower(Lower(s)) == Lower(s)
  {
    LowerSpec(s);
    LowerFixesNoUpper(Lower(s));
  }

  /** The list comprehension over the headers: [c.lower() for c in columns]. */
  function LowerAll(cols: seq<string>): (r: seq<string>)
    ensures |r| == |cols|
    ensures forall j :: 0 <= j < |cols| ==> r[j] == Lower(cols[j])
  {
    seq(|cols|, j requires 0 <= j < |cols| => Lower(cols[j]))
  }

  lemma LowerAllIdempotent(cols: seq<string>)
    ensures LowerAll(LowerAll(cols)) == LowerAll(cols)
  {
    forall j | 0 <= j < |cols|
      ensures LowerAll(LowerAll(cols))[j] == LowerAll(cols)[j]
    {
      LowerIdempotent(cols[j]);
    }
  }

  // ---- Substrings ----

  /** needle in hay: the search that tries every start position from the left. */
  function Contains(hay: string, needle: string): bool
    decreases |hay|
  {
    if |needle| > |hay| then false
    else if needle <= hay then true
    else Contains(hay[1..], needle)
  }

  /** needle occurs in hay starting at position i. */
  predicate OccursAt(hay: string, needle: string, i: int)
  {
    0 <= i && i + |needle| <= |hay| && hay[i..i + |needle|] == needle
  }

  /** The search finds needle exactly when it occurs at some position. */
  lemma {:induction false} ContainsIff(hay: string, needle: string)
    ensures Contains(hay, needle) <==> exists i :: OccursAt(hay, needle, i)
    decreases |hay|
  {
    if |needle| > |hay| {
    } else if needle <= hay {
      assert OccursAt(hay, needle, 0);
    } else {
      ContainsIff(hay[1..], needle);
      if exists i :: OccursAt(hay, needle, i) {
        var i :| OccursAt(hay, needle, i);
        assert i != 0;
        SliceOfTail(hay, i, |needle|);
        assert OccursAt(hay[1..], needle, i - 1);
      }
      if exists i :: OccursAt(hay[1..], needle, i) {
        var i :| OccursAt(hay[1..], needle, i);
        SliceOfTail(hay, i + 1, |needle|);
        assert OccursAt(hay, needle, i + 1);
      }
    }
  }

  /** A slice of the tail is the slice one position further along. */
  lemma SliceOfTail(hay: string, i: int, len: nat)
    requires 1 <= i && i + len <= |hay|
    ensures hay[1..][i - 1..i - 1 + len] == hay[i..i + len]
  {
    var left, right := hay[1..][i - 1..i - 1 + len], hay[i..i + len];
    assert forall t :: 0 <= t < len ==> left[t] == right[t];
  }

  /** A substring of a substring of hay is a substring of hay. */
  lemma ContainsTransitive(hay: string, mid: string, needle: string)
    requires Contains(hay, mid) && Contains(mid, needle)
    ensures Contains(hay, needle)
  {
    ContainsIff(hay, mid);
    ContainsIff(mid, needle);
    var i :| OccursAt(hay, mid, i);
    var j :| OccursAt(mid, needle, j);
    assert forall t :: 0 <= t < |mid| ==> mid[t] == hay[i + t];
    assert forall t :: 0 <= t < |needle| ==> needle[t] == mid[j + t];
    assert hay[i + j..i + j + |needle|] == needle;
    assert OccursAt(hay, needle, i + j);
    ContainsIff(hay, needle);
  }

  // ---- Resolution ----

  /** The header contains one of the candidates: "a" in c or "b" in c or ... */
  predicate Matches(c: string, cands: seq<string>)
  {
    exists x :: x in cands && Contains(c, x)
  }

  /** The list comprehension [c for c in cols if <c matches>], in header order. */
  function MatchingCols(cols: seq<string>, cands: seq<string>): seq<string>
  {
    if |cols| == 0 then []
    else (if Matches(cols[0], cands) then [cols[0]] else []) + MatchingCols(cols[1..], cands)
  }

  /** The error [0] raises on an empty list. */
  datatype ResolveError = IndexError

  /** [c for c in cols if ...][0]. */
  function Resolve(cols: seq<string>, cands: seq<string>): Result<string, ResolveError>
  {
    var m := MatchingCols(cols, cands);
    if |m| == 0 then Failure(IndexError) else Success(m[0])
  }

  /** The position of the left-most matching header, if any. */
  function FirstMatch(cols: seq<string>, cands: seq<string>): (r: Option<nat>)
    ensures r.Some? ==> r.value < |cols| && Matches(cols[r.value], cands)
    ensures r.Some? ==> forall j :: 0 <= j < r.value ==> !Matches(cols[j], cands)
    ensures r.None? ==> forall j :: 0 <= j < |cols| ==> !Matches(cols[j], cands)
  {
    if |cols| == 0 then None
    else if Matches(cols[0], cands) then Some(0)
    else
      var r := FirstMatch(cols[1..], cands);
      if r.None? then None else Some(r.value + 1)
  }

  /** Resolution fails exactly when no header matches, and otherwise gives the left-most
      matching header. */
  lemma {:induction false} ResolveIsFirstMatch(cols: seq<string>, cands: seq<string>)
    ensures Resolve(cols, cands).Failure? <==> FirstMatch(cols, cands).None?
    ensures Resolve(cols, cands).Success? ==>
      Resolve(cols, cands).value == cols[FirstMatch(cols, cands).value]
    decreases |cols|
  {
    if |cols| > 0 && !Matches(cols[0], cands) {
      ResolveIsFirstMatch(cols[1..], cands);
    }
  }

  /** The order of the candidates, and repeats among them, do not change the column. */
  lemma ResolveCandidateOrder(cols: seq<string>, cands: seq<string>, cands': seq<string>)
    requires forall x :: x in cands <==> x in cands'
    ensures Resolve(cols, cands) == Resolve(cols, cands')
  {
    MatchingColsSameCandidates(cols, cands, cands');
  }

  lemma {:induction false} MatchingColsSameCandidates(cols: seq<string>, cands: seq<string>, cands': seq<string>)
    requires forall x :: x in cands <==> x in cands'
    ensures MatchingCols(cols, cands) == MatchingCols(cols, cands')
    decreases |cols|
  {
    if |cols| > 0 {
      MatchingColsSameCandidates(cols[1..], cands, cands');
    }
  }

  /** A candidate containing another candidate is never needed. */
  lemma {:induction false} MatchingColsSubsumed(cols: seq<string>, cands: seq<string>, big: string, small: string)
    requires small in cands && Contains(big, small)
    ensures MatchingCols(cols, cands + [big]) == MatchingCols(cols, cands)
    decreases |cols|
  {
    if |cols| > 0 {
      MatchingColsSubsumed(cols[1..], cands, big, small);
      if Contains(cols[0], big) {
        ContainsTransitive(cols[0], big, small);
      }
      assert Matches(cols[0], cands + [big]) <==> Matches(cols[0], cands);
    }
  }

  // ---- The four columns of the script ----

  const AlphaCands: seq<string> := ["alpha"]
  const SuccCands: seq<string> := ["succ", "rate", "success"]
  const ThresholdCands: seq<string> := ["t", "threshold"]
  const CommCands: seq<string> := ["comm", "bytes", "mb"]

  /** "threshold" contains "t", so the threshold column is the left-most header with a t. */
  lemma ThresholdIsFirstT(cols: seq<string>)
    ensures Resolve(cols, ThresholdCands) == Resolve(cols, ["t"])
  {
    assert Contains("threshold", "t");
    assert ThresholdCands == ["t"] + ["threshold"];
    MatchingColsSubsumed(cols, ["t"], "threshold", "t");
  }

  /** "success" contains "succ", so the "success" candidate changes nothing. */
  lemma SuccessIsSubsumed(cols: seq<string>)
    ensures Resolve(cols, SuccCands) == Resolve(cols, ["succ", "rate"])
  {
    assert "succ" <= "success";
    assert Contains("success", "succ");
    assert SuccCands == ["succ", "rate"] + ["success"];
    MatchingColsSubsumed(cols, ["succ", "rate"], "success", "succ");
  }

  /** Re-resolving against already lower-cased headers gives the same column. */
  lemma ResolveAfterLowerStable(cols: seq<string>, cands: seq<string>)
    ensures Resolve(LowerAll(LowerAll(cols)), cands) == Resolve(LowerAll(cols), cands)
  {
    LowerAllIdempotent(cols);
  }
}
