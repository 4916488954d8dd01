/** Cyclic rotations of a block, compared one character at a time.
    A position p of a block b stands for the rotation that starts at b[p]. */
module Rotations {
  import opened Sequences

  function Next(n: nat, p: nat): (q: nat)
    requires p < n
    ensures q < n
  {
    if p + 1 < n then p + 1 else 0
  }

  function Prev(n: nat, p: nat): (q: nat)
    requires p < n
    ensures q < n && Next(n, q) == p
  {
    if p == 0 then n - 1 else p - 1
  }

  function Skip(n: nat, p: nat, k: nat): (q: nat)
    requires p < n
    ensures q < n
    decreases k
  {
    if k == 0 then p else Skip(n, Next(n, p), k - 1)
  }

  /** The first h characters from p are strictly below those from q. */
  ghost predicate Less(b: seq<Byte>, p: nat, q: nat, h: nat)
    requires p < |b| && q < |b|
    decreases h
  {
    h > 0 && (b[p] < b[q] || (b[p] == b[q] && Less(b, Next(|b|, p), Next(|b|, q), h - 1)))
  }

  /** The first h characters from p and from q agree. */
  ghost predicate Same(b: seq<Byte>, p: nat, q: nat, h: nat)
    requires p < |b| && q < |b|
    decreases h
  {
    h == 0 || (b[p] == b[q] && Same(b, Next(|b|, p), Next(|b|, q), h - 1))
  }

  /** ptr lists all rotations of b in weakly increasing order; equal rotations may come in any order. */
  ghost predicate SortedRotations(b: seq<Byte>, ptr: seq<nat>) {
    && |ptr| == |b|
    && IsPermutation(ptr)
    && forall i, j :: 0 <= i < j < |b| ==> !Less(b, ptr[j], ptr[i], |b|)
  }

  lemma {:induction false} SkipByAtMostN(n: nat, p: nat, k: nat)
    requires p < n && k <= n
    ensures Skip(n, p, k) == if p + k < n then p + k else p + k - n
    decreases k
  {
    if k > 0 { SkipByAtMostN(n, Next(n, p), k - 1); }
  }

  lemma {:induction false} Trichotomy(b: seq<Byte>, p: nat, q: nat, h: nat)
    requires p < |b| && q < |b|
    ensures Same(b, p, q, h) == (!Less(b, p, q, h) && !Less(b, q, p, h))
    ensures !(Less(b, p, q, h) && Less(b, q, p, h))
    ensures Same(b, p, q, h) == Same(b, q, p, h)
    decreases h
  {
    if h > 0 { Trichotomy(b, Next(|b|, p), Next(|b|, q), h - 1); }
  }

  /** Not being above is transitive, and strict if either step is. */
  lemma {:induction false} Transitive(b: seq<Byte>, p: nat, q: nat, r: nat, h: nat)
    requires p < |b| && q < |b| && r < |b|
    requires !Less(b, q, p, h) && !Less(b, r, q, h)
    ensures !Less(b, r, p, h)
    ensures Less(b, p, q, h) || Less(b, q, r, h) ==> Less(b, p, r, h)
    decreases h
  {
    if h > 0 && b[p] == b[q] == b[r] {
      Transitive(b, Next(|b|, p), Next(|b|, q), Next(|b|, r), h - 1);
    }
  }

  /** Comparing h + k characters is comparing h, and then k more from where those end. */
  lemma {:induction false} Split(b: seq<Byte>, p: nat, q: nat, h: nat, k: nat)
    requires p < |b| && q < |b|
    ensures Same(b, p, q, h + k) == (Same(b, p, q, h) && Same(b, Skip(|b|, p, h), Skip(|b|, q, h), k))
    ensures Less(b, p, q, h + k) ==
            (Less(b, p, q, h) || (Same(b, p, q, h) && Less(b, Skip(|b|, p, h), Skip(|b|, q, h), k)))
    decreases h
  {
    if h > 0 { Split(b, Next(|b|, p), Next(|b|, q), h - 1, k); }
  }

  lemma MoreCharactersKeepLess(b: seq<Byte>, p: nat, q: nat, h: nat, k: nat)
    requires p < |b| && q < |b| && h <= k && Less(b, p, q, h)
    ensures Less(b, p, q, k)
  {
    Split(b, p, q, h, k - h);
  }

  /** Rotations that agree on |b| characters agree on any number of them. */
  lemma {:induction false} AgreementIsPeriodic(b: seq<Byte>, p: nat, q: nat, k: nat)
    requires p < |b| && q < |b| && Same(b, p, q, |b|)
    ensures Same(b, p, q, k)
    decreases k
  {
    if k <= |b| {
      Split(b, p, q, k, |b| - k);
    } else {
      SkipByAtMostN(|b|, p, |b|);
      SkipByAtMostN(|b|, q, |b|);
      Split(b, p, q, |b|, k - |b|);
      AgreementIsPeriodic(b, p, q, k - |b|);
    }
  }

  /** Looking at more than |b| characters decides nothing new. */
  lemma BeyondWholeRotation(b: seq<Byte>, p: nat, q: nat, k: nat)
    requires p < |b| && q < |b| && |b| <= k
    ensures Less(b, p, q, k) == Less(b, p, q, |b|)
  {
    Trichotomy(b, p, q, |b|);
    Trichotomy(b, p, q, k);
    if Same(b, p, q, |b|) {
      AgreementIsPeriodic(b, p, q, k);
    } else if Less(b, p, q, |b|) {
      MoreCharactersKeepLess(b, p, q, |b|, k);
    } else {
      MoreCharactersKeepLess(b, q, p, |b|, k);
    }
  }

  /** Two weakly sorted listings of the same rotations show equal rotations place by place. */
  lemma SortedListingsAgree(b: seq<Byte>, x: seq<nat>, y: seq<nat>, i: nat)
    requires SortedRotations(b, x) && SortedRotations(b, y) && i < |b|
    ensures Same(b, x[i], y[i], |b|)
  {
    Trichotomy(b, x[i], y[i], |b|);
    if Less(b, x[i], y[i], |b|) { NotBelow(b, x, y, i); }
    if Less(b, y[i], x[i], |b|) { NotBelow(b, y, x, i); }
  }

  lemma NotBelow(b: seq<Byte>, x: seq<nat>, y: seq<nat>, i: nat)
    requires SortedRotations(b, x) && SortedRotations(b, y) && i < |b|
    ensures !Less(b, x[i], y[i], |b|)
  {
    if Less(b, x[i], y[i], |b|) {
      forall k | 0 <= k <= i ensures x[k] in y[..i] {
        PermutationCovers(y, x[k]);
        Trichotomy(b, x[i], y[i], |b|);
        Trichotomy(b, x[k], x[k], |b|);
        Transitive(b, x[k], x[i], y[i], |b|);
        assert Less(b, x[k], y[i], |b|);
      }
      DistinctCardinality(x[..i + 1]);
      DistinctCardinality(y[..i]);
      assert Elements(x[..i + 1]) <= Elements(y[..i]);
      SubsetCardinality(Elements(x[..i + 1]), Elements(y[..i]));
    }
  }
}
