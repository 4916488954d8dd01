/** Sums of sequences of integers. */
module Sums {

  function Sum(s: seq<int>): int {
    if s == [] then 0 else Sum(s[..|s| - 1]) + s[|s| - 1]
  }

  lemma {:induction false} SumUpdate(s: seq<int>, i: nat, v: int)
    requires i < |s|
    ensures Sum(s[i := v]) == Sum(s) - s[i] + v
  {
    var n := |s| - 1;
    if i < n {
      SumUpdate(s[..n], i, v);
      assert s[i := v][..n] == s[..n][i := v];
    } else {
      assert s[i := v][..n] == s[..n];
    }
  }

  lemma {:induction false} SumNotNegative(s: seq<int>)
    requires forall k :: 0 <= k < |s| ==> s[k] >= 0
    ensures Sum(s) >= 0
  {
    if s != [] { SumNotNegative(s[..|s| - 1]); }
  }

  /** Two terms of a sum of non-negative terms are no more than the sum. */
  lemma TwoTerms(s: seq<int>, i: nat, j: nat)
    requires i < |s| && j < |s| && i != j && forall k :: 0 <= k < |s| ==> s[k] >= 0
    ensures s[i] + s[j] <= Sum(s)
  {
    SumUpdate(s, i, 0);
    SumUpdate(s[i := 0], j, 0);
    SumNotNegative(s[i := 0][j := 0]);
  }

  lemma {:induction false} SumMonotone(s: seq<int>, t: seq<int>)
    requires |s| == |t| && forall k :: 0 <= k < |s| ==> s[k] <= t[k]
    ensures Sum(s) <= Sum(t)
    ensures (exists k :: 0 <= k < |s| && s[k] < t[k]) ==> Sum(s) < Sum(t)
  {
    if s != [] {
      var n := |s| - 1;
      SumMonotone(s[..n], t[..n]);
      if k :| 0 <= k < |s| && s[k] < t[k] {
        if k < n { assert s[..n][k] < t[..n][k]; }
      }
    }
  }

  lemma {:induction false} SumScale(s: seq<int>, t: seq<int>, c: int)
    requires |s| == |t| && forall k :: 0 <= k < |s| ==> t[k] == c * s[k]
    ensures Sum(t) == c * Sum(s)
  {
    if s != [] {
      var n := |s| - 1;
      SumScale(s[..n], t[..n], c);
      assert c * (Sum(s[..n]) + s[n]) == c * Sum(s[..n]) + c * s[n];
    }
  }

  lemma {:induction false} SumConstantBound(s: seq<int>, c: int)
    requires forall k :: 0 <= k < |s| ==> s[k] <= c
    ensures Sum(s) <= c * |s|
  {
    if s != [] { SumConstantBound(s[..|s| - 1], c); }
  }

  lemma {:induction false} SumPadded(t: seq<int>, s: seq<int>)
    requires |s| > |t| && s[0] == 0
    requires forall k :: 0 <= k < |t| ==> s[k + 1] == t[k]
    requires forall k :: |t| < k < |s| ==> s[k] == 0
    ensures Sum(s) == Sum(t)
    decreases |s|
  {
    var n := |s| - 1;
    if n > |t| {
      SumPadded(t, s[..n]);
    } else if n > 0 {
      SumPadded(t[..n - 1], s[..n]);
    }
  }
}
