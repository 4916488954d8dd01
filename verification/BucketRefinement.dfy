/** What one pass of fallbackSort achieves: buckets of rotations that agree on h characters
    become buckets of rotations that agree on twice as many. */
module BucketRefinement {
  import opened Sequences
  import opened Rotations
  import opened CharPlaces
  import opened FallbackQSort

  /** The nearest place at or before i where a bucket starts. */
  function Head(bits: seq<bool>, i: nat): (h: nat)
    requires i < |bits|
    ensures h <= i
  {
    if i == 0 || bits[i] then i else Head(bits, i - 1)
  }

  lemma {:induction false} HeadsGrow(bits: seq<bool>, i: nat, j: nat)
    requires i <= j < |bits|
    ensures Head(bits, i) <= Head(bits, j)
    ensures Head(bits, i) == Head(bits, j) <==> forall z :: i < z <= j ==> !bits[z]
    decreases j
  {
    if i < j && !bits[j] { HeadsGrow(bits, i, j - 1); }
  }

  /** f lists the rotations of b by their first h characters, and bits marks where these change. */
  ghost predicate Refined(b: seq<Byte>, f: seq<nat>, bits: seq<bool>, h: nat) {
    && |f| == |b| < |bits|
    && IsPermutation(f)
    && forall i, j :: 0 <= i < |f| && 0 <= j < |f| ==> (Less(b, f[i], f[j], h) <==> Head(bits, i) < Head(bits, j))
  }

  /** The position h places before p. */
  function Back(n: nat, p: nat, h: nat): (k: nat)
    requires p < n && h <= n
    ensures k < n && Skip(n, k, h) == p
  {
    var k := if p < h then p + n - h else p - h;
    SkipByAtMostN(n, k, h);
    k
  }

  /** e gives each position the bucket of the rotation h places later. */
  ghost predicate Classes(b: seq<Byte>, e: seq<nat>, f: seq<nat>, bits: seq<bool>, h: nat)
    requires Refined(b, f, bits, h) && h <= |b|
  {
    |e| >= |b| && forall i :: 0 <= i < |f| ==> e[Back(|b|, f[i], h)] == Head(bits, i)
  }

  lemma ClassesCompare(b: seq<Byte>, e: seq<nat>, f: seq<nat>, bits: seq<bool>, h: nat, p: nat, q: nat)
    requires Refined(b, f, bits, h) && h <= |b| && Classes(b, e, f, bits, h) && p < |b| && q < |b|
    ensures e[p] < e[q] <==> Less(b, Skip(|b|, p, h), Skip(|b|, q, h), h)
  {
    hide Less, Same, Skip;
    var n := |b|;
    SkipByAtMostN(n, p, h);
    SkipByAtMostN(n, q, h);
    PermutationCovers(f, Skip(n, p, h));
    PermutationCovers(f, Skip(n, q, h));
    var i :| 0 <= i < n && f[i] == Skip(n, p, h);
    var j :| 0 <= j < n && f[j] == Skip(n, q, h);
    assert Back(n, f[i], h) == p && Back(n, f[j], h) == q;
  }

  /** e compares the second h characters of any two rotations. */
  ghost predicate Compares(b: seq<Byte>, e: seq<nat>, h: nat) {
    && |e| >= |b|
    && forall p, q :: 0 <= p < |b| && 0 <= q < |b| ==>
         (e[p] < e[q] <==> Less(b, Skip(|b|, p, h), Skip(|b|, q, h), h))
  }

  /** Up to r the buckets are sorted by class, and a bit is set exactly where the bucket or class changes. */
  ghost predicate Keyed(f: seq<nat>, e: seq<nat>, bits0: seq<bool>, bits: seq<bool>, r: int) {
    && r < |f| < |bits| == |bits0|
    && (forall i :: 0 <= i < |f| ==> f[i] < |e|)
    && (forall z :: 0 < z <= r ==> (bits[z] <==> bits0[z] || e[f[z - 1]] != e[f[z]]))
    && (forall z :: 0 < z <= r && !bits0[z] ==> e[f[z - 1]] <= e[f[z]])
  }

  lemma {:induction false} KeyedHeads(f: seq<nat>, e: seq<nat>, bits0: seq<bool>, bits: seq<bool>, i: nat, j: nat)
    requires i <= j < |f| && Keyed(f, e, bits0, bits, |f| - 1)
    ensures Head(bits0, i) == Head(bits0, j) ==> e[f[i]] <= e[f[j]]
    ensures Head(bits, i) < Head(bits, j) <==>
            Head(bits0, i) < Head(bits0, j) || (Head(bits0, i) == Head(bits0, j) && e[f[i]] < e[f[j]])
    decreases j
  {
    if i < j {
      KeyedHeads(f, e, bits0, bits, i, j - 1);
      HeadsGrow(bits, i, j - 1);
      HeadsGrow(bits0, i, j - 1);
    }
  }

  lemma DoubledComparison(b: seq<Byte>, e: seq<nat>, p: nat, q: nat, h: nat)
    requires Compares(b, e, h) && p < |b| && q < |b|
    ensures Less(b, p, q, 2 * h) <==> Less(b, p, q, h) || (!Less(b, q, p, h) && e[p] < e[q])
  {
    hide Less, Same, Skip;
    Split(b, p, q, h, h);
    Trichotomy(b, p, q, h);
  }

  /** Sorting every bucket by class doubles the number of characters compared. */
  lemma PassDoubles(b: seq<Byte>, f: seq<nat>, e: seq<nat>, bits0: seq<bool>, bits: seq<bool>, h: nat)
    requires Refined(b, f, bits0, h) && Compares(b, e, h)
    requires |bits| == |bits0| && Keyed(f, e, bits0, bits, |f| - 1)
    ensures Refined(b, f, bits, 2 * h)
  {
    hide Less, Same, Skip, Head, Keyed;
    forall i, j | 0 <= i < |f| && 0 <= j < |f|
      ensures Less(b, f[i], f[j], 2 * h) <==> Head(bits, i) < Head(bits, j)
    {
      DoubledComparison(b, e, f[i], f[j], h);
      if i <= j {
        KeyedHeads(f, e, bits0, bits, i, j);
        HeadsGrow(bits0, i, j);
      } else {
        KeyedHeads(f, e, bits0, bits, j, i);
        HeadsGrow(bits0, j, i);
        HeadsGrow(bits, j, i);
      }
    }
  }

  lemma BucketKeepsHeads(f: seq<nat>, f': seq<nat>, bits: seq<bool>, l: nat, r: nat, i: nat) returns (i0: nat)
    requires l <= r < |f| == |f'| < |bits| && Rearranged(f, f', l, r) && i < |f|
    requires forall z :: l < z <= r ==> !bits[z]
    ensures i0 < |f| && f'[i] == f[i0] && Head(bits, i0) == Head(bits, i)
  {
    i0 := i;
    if l <= i <= r {
      i0 := StretchKeepsValues(f, f', l, r, i);
      HeadsGrow(bits, l, i0);
      HeadsGrow(bits, l, i);
    }
  }

  /** Rearranging one bucket keeps the listing refined. */
  lemma RearrangeBucket(b: seq<Byte>, f: seq<nat>, f': seq<nat>, bits: seq<bool>, h: nat, l: nat, r: nat)
    requires Refined(b, f, bits, h) && l <= r < |f| == |f'| && Rearranged(f, f', l, r)
    requires forall z :: l < z <= r ==> !bits[z]
    ensures Refined(b, f', bits, h)
  {
    hide Less, Head;
    MultisetKeepsPermutation(f, f');
    forall i, j | 0 <= i < |f| && 0 <= j < |f|
      ensures Less(b, f'[i], f'[j], h) <==> Head(bits, i) < Head(bits, j)
    {
      var i0 := BucketKeepsHeads(f, f', bits, l, r, i);
      var j0 := BucketKeepsHeads(f, f', bits, l, r, j);
    }
  }

  /** Done: either every bucket is a single rotation, or whole rotations have been compared. */
  lemma RefinedIsSorted(b: seq<Byte>, f: seq<nat>, bits: seq<bool>, h: nat)
    requires Refined(b, f, bits, h)
    requires h > |b| || forall z :: 0 <= z < |f| ==> bits[z]
    ensures SortedRotations(b, f)
  {
    hide Less, Head;
    forall i, j | 0 <= i < j < |f| ensures !Less(b, f[j], f[i], |b|) {
      HeadsGrow(bits, i, j);
      if h > |b| {
        BeyondWholeRotation(b, f[j], f[i], h);
      } else {
        assert bits[j];
        MoreCharactersKeepLess(b, f[i], f[j], h, |b|);
        Trichotomy(b, f[i], f[j], |b|);
      }
    }
  }
}
