/** The first part of mainSort: a radix sort by two characters, and the order in which the big buckets are taken up. */
module RadixSorting {
  import opened Sequences
  import opened Rotations
  import opened SmallBuckets
  import opened MainSorting

  ghost function Codes(b: seq<Byte>): (codes: seq<nat>)
    ensures |codes| == |b|
    ensures forall i :: 0 <= i < |codes| ==> codes[i] == Code(b, i) < BUCKETS
  {
    seq(|b|, i requires 0 <= i < |b| => Code(b, i))
  }

  /** How many codes are below s. */
  ghost function CountBelow(codes: seq<nat>, s: nat): nat {
    if s == 0 then 0 else CountBelow(codes, s - 1) + multiset(codes)[s - 1]
  }

  lemma {:induction false} CountsGrow(codes: seq<nat>, s: nat, t: nat)
    requires s <= t
    ensures CountBelow(codes, s) <= CountBelow(codes, t)
    decreases t
  {
    if s < t { CountsGrow(codes, s, t - 1); }
  }

  lemma {:induction false} OneMoreCode(codes: seq<nat>, c: nat, s: nat)
    ensures CountBelow(codes + [c], s) == CountBelow(codes, s) + if c < s then 1 else 0
    decreases s
  {
    if s > 0 { OneMoreCode(codes, c, s - 1); }
  }

  /** All codes are below the bound that they have. */
  lemma {:induction false} CountOfAll(codes: seq<nat>, s: nat)
    requires forall i :: 0 <= i < |codes| ==> codes[i] < s
    ensures CountBelow(codes, s) == |codes|
    decreases |codes|
  {
    hide CountBelow;
    if codes == [] {
      CountOfNone(s);
    } else {
      var front, c := codes[..|codes| - 1], codes[|codes| - 1];
      CountOfAll(front, s);
      OneMoreCode(front, c, s);
      assert front + [c] == codes;
    }
  }

  lemma {:induction false} CountOfNone(s: nat)
    ensures CountBelow([], s) == 0
  {
    if s > 0 { CountOfNone(s - 1); }
  }

  /** The bucket of a slot. */
  lemma {:induction false} SlotHasBucket(codes: seq<nat>, x: nat, s: nat) returns (u: nat)
    requires x < CountBelow(codes, s)
    ensures u < s && CountBelow(codes, u) <= x < CountBelow(codes, u + 1)
    decreases s
  {
    if x >= CountBelow(codes, s - 1) { u := s - 1; } else { u := SlotHasBucket(codes, x, s - 1); }
  }

  ghost function BucketStarts(codes: seq<nat>): (starts: seq<nat>)
    ensures |starts| == BUCKETS + 1
  {
    seq(BUCKETS + 1, s requires 0 <= s => CountBelow(codes, s))
  }

  // ----- Counting -----

  /** Each code with the number of times it occurs. */
  ghost predicate Counts(ftab: seq<nat>, codes: seq<nat>) {
    |ftab| == BUCKETS + 1 && forall s :: 0 <= s < |ftab| ==> ftab[s] == multiset(codes)[s]
  }

  lemma CountOne(ftab: seq<nat>, codes: seq<nat>, i: nat)
    requires i < |codes| && codes[i] < BUCKETS && Counts(ftab, codes[i + 1..])
    ensures Counts(ftab[codes[i] := ftab[codes[i]] + 1], codes[i..])
  {
    assert codes[i..] == [codes[i]] + codes[i + 1..];
  }

  /** The two-byte frequencies. The register keeps the character just read in its upper half. */
  method CountCodes(block: array<Byte>, ftab: array<nat>)
    requires block.Length > 0 && ftab.Length == BUCKETS + 1
    modifies ftab
    ensures Counts(ftab[..], Codes(block[..]))
  {
    hide Codes, Counts, Code;
    ghost var b := block[..];
    ghost var codes := Codes(b);
    var k: nat := BUCKETS + 1;
    while k > 0
      invariant k <= BUCKETS + 1 && forall s :: k <= s < ftab.Length ==> ftab[s] == 0
    {
      k := k - 1;
      ftab[k] := 0;
    }
    NothingCounted(ftab[..], codes);
    var j: nat := 256 * block[0] as int;
    var i: nat := block.Length;
    while i > 0
      invariant i <= block.Length && j / 256 == b[if i == |b| then 0 else i] && Counts(ftab[..], codes[i..])
    {
      i := i - 1;
      j := j / 256 + 256 * block[i] as int;
      CodeIs(b, i);
      CountOne(ftab[..], codes, i);
      ftab[j] := ftab[j] + 1;
    }
    assert codes[0..] == codes;
  }

  lemma NothingCounted(ftab: seq<nat>, codes: seq<nat>)
    requires |ftab| == BUCKETS + 1 && forall s :: 0 <= s < |ftab| ==> ftab[s] == 0
    ensures Counts(ftab, codes[|codes|..])
  {
  }

  lemma CodeIs(b: seq<Byte>, i: nat)
    requires i < |b|
    ensures Codes(b)[i] == Code(b, i) == (b[if i + 1 == |b| then 0 else i + 1] as int) + 256 * (b[i] as int)
    ensures Code(b, i) / 256 == b[i]
  {
  }

  /** The running totals. */
  method AddUp(ftab: array<nat>, ghost codes: seq<nat>)
    requires Counts(ftab[..], codes)
    modifies ftab
    ensures |ftab[..]| == BUCKETS + 1 && forall s :: 0 <= s <= BUCKETS ==> ftab[s] == CountBelow(codes, s + 1)
  {
    hide CountBelow;
    FirstTotal(codes);
    for i := 1 to BUCKETS + 1
      invariant forall s :: 0 <= s < i ==> ftab[s] == CountBelow(codes, s + 1)
      invariant forall s :: i <= s <= BUCKETS ==> ftab[s] == multiset(codes)[s]
    {
      ftab[i] := ftab[i] + ftab[i - 1];
      NextTotal(codes, i);
    }
  }

  lemma FirstTotal(codes: seq<nat>)
    ensures CountBelow(codes, 1) == multiset(codes)[0]
  {
  }

  lemma NextTotal(codes: seq<nat>, s: nat)
    ensures CountBelow(codes, s + 1) == CountBelow(codes, s) + multiset(codes)[s]
  {
  }

  // ----- Placing -----

  /** The slots of bucket s from start up to end hold positions from i on, in ascending order. */
  ghost predicate BucketPut(codes: seq<nat>, p: seq<nat>, start: nat, end: nat, i: nat, s: nat) {
    && end <= |p|
    && (forall x :: start <= x < end ==> i <= p[x] < |codes| && codes[p[x]] == s)
    && (forall x, y :: start <= x < y < end ==> p[x] < p[y])
  }

  /** The positions from i on have been put at the ends of their buckets. */
  ghost predicate Putting(codes: seq<nat>, p: seq<nat>, ftab: seq<nat>, i: nat) {
    && |p| == |codes| && |ftab| == BUCKETS + 1 && i <= |codes|
    && forall s :: 0 <= s < BUCKETS ==>
         && ftab[s] == CountBelow(codes, s) + multiset(codes[..i])[s]
         && BucketPut(codes, p, ftab[s], CountBelow(codes, s + 1), i, s)
  }

  lemma PuttingStarts(codes: seq<nat>, p: seq<nat>, ftab: seq<nat>)
    requires |p| == |codes| && |ftab| == BUCKETS + 1 && forall s :: 0 <= s <= BUCKETS ==> ftab[s] == CountBelow(codes, s + 1)
    requires forall k :: 0 <= k < |codes| ==> codes[k] < BUCKETS
    ensures Putting(codes, p, ftab, |codes|)
  {
    hide CountBelow, BucketPut;
    assert codes[..|codes|] == codes;
    forall s: nat | s < BUCKETS
      ensures ftab[s] == CountBelow(codes, s) + multiset(codes)[s] && BucketPut(codes, p, ftab[s], CountBelow(codes, s + 1), |codes|, s) {
      NothingPut(codes, p, s);
    }
  }

  lemma NothingPut(codes: seq<nat>, p: seq<nat>, s: nat)
    requires |p| == |codes| && s < BUCKETS && forall k :: 0 <= k < |codes| ==> codes[k] < BUCKETS
    ensures CountBelow(codes, s + 1) == CountBelow(codes, s) + multiset(codes)[s]
    ensures BucketPut(codes, p, CountBelow(codes, s + 1), CountBelow(codes, s + 1), |codes|, s)
  {
    hide CountBelow;
    NextTotal(codes, s);
    CountOfAll(codes, BUCKETS);
    CountsGrow(codes, s + 1, BUCKETS);
  }

  /** The last code counted. */
  lemma LastCode(codes: seq<nat>, i: nat, s: nat)
    requires 0 < i <= |codes|
    ensures multiset(codes[..i])[s] == multiset(codes[..i - 1])[s] + if s == codes[i - 1] then 1 else 0
    ensures multiset(codes[..i])[s] <= multiset(codes)[s]
  {
    assert codes[..i] == codes[..i - 1] + [codes[i - 1]];
    assert codes == codes[..i] + codes[i..];
  }

  /** Where the next position goes: in front of those in its bucket. */
  lemma NextPlace(codes: seq<nat>, p: seq<nat>, ftab: seq<nat>, i: nat)
    requires Putting(codes, p, ftab, i) && 0 < i && forall k :: 0 <= k < |codes| ==> codes[k] < BUCKETS
    ensures var s := codes[i - 1]; CountBelow(codes, s) <= ftab[s] - 1 < CountBelow(codes, s + 1) <= |p|
    ensures forall s :: 0 <= s < BUCKETS ==> multiset(codes[..i])[s] == multiset(codes[..i - 1])[s] + if s == codes[i - 1] then 1 else 0
  {
    hide CountBelow, BucketPut;
    var s := codes[i - 1];
    forall t: nat { LastCode(codes, i, t); }
    NextTotal(codes, s);
    CountOfAll(codes, BUCKETS);
    CountsGrow(codes, s + 1, BUCKETS);
  }

  /** Writing a position in front of its bucket. */
  lemma PutBucket(codes: seq<nat>, p: seq<nat>, j: nat, i: nat, start: nat, end: nat, t: nat)
    requires BucketPut(codes, p, start, end, i, t) && 0 < i <= |codes| && j < |p|
    requires if t == codes[i - 1] then j == start - 1 && start <= end else !(start <= j < end)
    ensures BucketPut(codes, p[j := i - 1], if t == codes[i - 1] then j else start, end, i - 1, t)
  {
  }

  lemma PutOne(codes: seq<nat>, p: seq<nat>, ftab: seq<nat>, i: nat)
    requires Putting(codes, p, ftab, i) && 0 < i && forall k :: 0 <= k < |codes| ==> codes[k] < BUCKETS
    ensures ftab[codes[i - 1]] > 0 && ftab[codes[i - 1]] <= |p|
    ensures Putting(codes, p[ftab[codes[i - 1]] - 1 := i - 1], ftab[codes[i - 1] := ftab[codes[i - 1]] - 1], i - 1)
  {
    hide CountBelow, BucketPut;
    NextPlace(codes, p, ftab, i);
    var s := codes[i - 1];
    var j := ftab[s] - 1;
    var p', ftab' := p[j := i - 1], ftab[s := j];
    forall t: nat | t < BUCKETS ensures BucketPut(codes, p', ftab'[t], CountBelow(codes, t + 1), i - 1, t) {
      TotalsApart(codes, s, t);
      PutBucket(codes, p, j, i, ftab[t], CountBelow(codes, t + 1), t);
    }
  }

  lemma TotalsApart(codes: seq<nat>, s: nat, t: nat)
    ensures t < s ==> CountBelow(codes, t + 1) <= CountBelow(codes, s)
    ensures s < t ==> CountBelow(codes, s + 1) <= CountBelow(codes, t)
  {
    hide CountBelow;
    if t < s { CountsGrow(codes, t + 1, s); }
    if s < t { CountsGrow(codes, s + 1, t); }
  }

  /** Put every position into its bucket, from the last one on. */
  method PutPositions(ptr: array<nat>, block: array<Byte>, ftab: array<nat>)
    requires ptr != ftab && 0 < block.Length == ptr.Length && ftab.Length == BUCKETS + 1
    requires forall s :: 0 <= s <= BUCKETS ==> ftab[s] == CountBelow(Codes(block[..]), s + 1)
    modifies ptr, ftab
    ensures Putting(Codes(block[..]), ptr[..], ftab[..], 0) && ftab[BUCKETS] == old(ftab[BUCKETS])
  {
    hide Codes, Code, Putting, CountBelow;
    ghost var b := block[..];
    ghost var codes := Codes(b);
    PuttingStarts(codes, ptr[..], ftab[..]);
    var s: nat := 256 * block[0] as int;
    var i: nat := block.Length;
    while i > 0
      invariant i <= block.Length && s / 256 == b[if i == |b| then 0 else i] && Putting(codes, ptr[..], ftab[..], i)
      invariant ftab[BUCKETS] == old(ftab[BUCKETS])
    {
      s := s / 256 + 256 * block[i - 1] as int;
      CodeIs(b, i - 1);
      PutOne(codes, ptr[..], ftab[..], i);
      i := i - 1;
      var j := ftab[s] - 1;
      ftab[s] := j;
      ptr[j] := i;
    }
  }

  /** When all are put, the buckets are complete, and none of them is marked. */
  lemma AllPut(b: seq<Byte>, p: seq<nat>, ftab: seq<nat>)
    requires Putting(Codes(b), p, ftab, 0) && |b| <= 900_000 && ftab[BUCKETS] == CountBelow(Codes(b), BUCKETS + 1)
    ensures Marked(b, p, ftab, BucketStarts(Codes(b)))
  {
    hide CountBelow, Codes, Code, Putting, BucketStarts;
    var codes := Codes(b);
    TotalsAtEnd(codes, p, ftab);
    PutBucketed(b, p, ftab);
    CountOfAll(codes, BUCKETS);
    forall s | 0 <= s < |ftab| ensures Clear(ftab[s]) == ftab[s] && !IsSet(ftab[s]) {
      CountsGrow(codes, s, BUCKETS);
    }
    assert Starts(ftab) == BucketStarts(codes);
  }

  lemma TotalsAtEnd(codes: seq<nat>, p: seq<nat>, ftab: seq<nat>)
    requires Putting(codes, p, ftab, 0) && ftab[BUCKETS] == CountBelow(codes, BUCKETS + 1)
    requires forall k :: 0 <= k < |codes| ==> codes[k] < BUCKETS
    ensures |ftab| == BUCKETS + 1 && |p| == |codes| && forall s :: 0 <= s <= BUCKETS ==> ftab[s] == CountBelow(codes, s) == BucketStarts(codes)[s]
  {
    hide CountBelow;
    NextTotal(codes, BUCKETS);
    assert BUCKETS !in codes;
    assert codes[..0] == [];
  }

  lemma PutBucketed(b: seq<Byte>, p: seq<nat>, ftab: seq<nat>)
    requires Putting(Codes(b), p, ftab, 0) && ftab[BUCKETS] == CountBelow(Codes(b), BUCKETS + 1)
    ensures Bucketed(b, p, BucketStarts(Codes(b)))
  {
    hide CountBelow, Codes, Code, Putting, BucketStarts;
    var codes := Codes(b);
    TotalsAtEnd(codes, p, ftab);
    CountOfAll(codes, BUCKETS);
    StartsAscend(codes);
    forall x: nat | x < |p| ensures p[x] < |codes| && CountBelow(codes, codes[p[x]]) <= x < CountBelow(codes, codes[p[x]] + 1) {
      var s := SlotHasBucket(codes, x, BUCKETS);
      SlotPut(codes, p, ftab, s, x);
    }
    forall x, y | 0 <= x < y < |p| ensures p[x] != p[y] {
      if p[x] == p[y] { SlotsPut(codes, p, ftab, codes[p[x]], x, y); }
    }
  }

  lemma StartsAscend(codes: seq<nat>)
    requires forall k :: 0 <= k < |codes| ==> codes[k] < BUCKETS
    ensures Starting(|codes|, BucketStarts(codes))
  {
    hide CountBelow;
    CountOfAll(codes, BUCKETS);
    FirstIsZero(codes);
    forall i, j | 0 <= i <= j <= BUCKETS ensures BucketStarts(codes)[i] <= BucketStarts(codes)[j] { CountsGrow(codes, i, j); }
  }

  lemma FirstIsZero(codes: seq<nat>)
    ensures CountBelow(codes, 0) == 0
  {
  }

  lemma SlotPut(codes: seq<nat>, p: seq<nat>, ftab: seq<nat>, s: nat, x: nat)
    requires Putting(codes, p, ftab, 0) && s < BUCKETS && ftab[s] == CountBelow(codes, s) <= x < CountBelow(codes, s + 1) && x < |p|
    ensures p[x] < |codes| && codes[p[x]] == s
  {
    hide CountBelow;
  }

  lemma SlotsPut(codes: seq<nat>, p: seq<nat>, ftab: seq<nat>, s: nat, x: nat, y: nat)
    requires Putting(codes, p, ftab, 0) && s < BUCKETS && ftab[s] <= x < y < CountBelow(codes, s + 1) && y < |p|
    ensures p[x] < p[y]
  {
    hide CountBelow;
  }

  // ----- The order of the big buckets -----

  /** BIGFREQ. */
  function BigFreq(ftab: seq<nat>, t: nat): int
    requires |ftab| == BUCKETS + 1 && t < RADIX
  {
    ftab[(t + 1) * RADIX] as int - ftab[t * RADIX] as int
  }

  ghost predicate Numbers(order: seq<nat>) {
    |order| == RADIX && forall i :: 0 <= i < |order| ==> order[i] < RADIX
  }

  /** Smaller big buckets come first. */
  ghost predicate BySize(ftab: seq<nat>, order: seq<nat>, i: nat)
    requires |ftab| == BUCKETS + 1 && Numbers(order) && i <= RADIX
  {
    forall a, c :: 0 <= a < c < i ==> BigFreq(ftab, order[a]) <= BigFreq(ftab, order[c])
  }

  /** The first i + 1 numbers are in order but for place j, where vv, which is smaller than those behind, could go. */
  ghost predicate Gap(ftab: seq<nat>, order: seq<nat>, i: nat, j: nat, vv: nat)
    requires |ftab| == BUCKETS + 1 && Numbers(order) && j <= i < RADIX && vv < RADIX
  {
    && (forall a, c :: 0 <= a < c <= i && a != j && c != j ==> BigFreq(ftab, order[a]) <= BigFreq(ftab, order[c]))
    && (forall c :: j < c <= i ==> BigFreq(ftab, vv) <= BigFreq(ftab, order[c]))
  }

  lemma GapMoves(ftab: seq<nat>, order: seq<nat>, i: nat, j: nat, vv: nat)
    requires |ftab| == BUCKETS + 1 && Numbers(order) && 0 < j <= i < RADIX && vv < RADIX && Gap(ftab, order, i, j, vv)
    requires BigFreq(ftab, order[j - 1]) > BigFreq(ftab, vv)
    ensures Gap(ftab, order[j := order[j - 1]], i, j - 1, vv)
  {
    hide BigFreq;
  }

  lemma GapCloses(ftab: seq<nat>, order: seq<nat>, i: nat, j: nat, vv: nat)
    requires |ftab| == BUCKETS + 1 && Numbers(order) && j <= i < RADIX && vv < RADIX && Gap(ftab, order, i, j, vv)
    requires j > 0 ==> BigFreq(ftab, order[j - 1]) <= BigFreq(ftab, vv)
    ensures BySize(ftab, order[j := vv], i + 1)
  {
    hide BigFreq;
  }

  /** With vv in its place j the numbers are the same as before, and with gap 1 they are in order but for that place. */
  ghost predicate Sifting(ftab: seq<nat>, order: seq<nat>, h: nat, i: nat, j: nat, vv: nat, all: multiset<nat>) {
    && |ftab| == BUCKETS + 1 && Numbers(order) && j <= i < RADIX && vv < RADIX
    && multiset(order[j := vv]) == all && (h == 1 ==> Gap(ftab, order, i, j, vv))
  }

  lemma SiftStarts(ftab: seq<nat>, order: seq<nat>, h: nat, i: nat)
    requires |ftab| == BUCKETS + 1 && Numbers(order) && i < RADIX && (h == 1 ==> BySize(ftab, order, i))
    ensures Sifting(ftab, order, h, i, i, order[i], multiset(order))
  {
    hide BySize, Gap;
    if h == 1 { GapOpens(ftab, order, i); }
    assert order[i := order[i]] == order;
  }

  lemma SiftMoves(ftab: seq<nat>, order: seq<nat>, h: nat, i: nat, j: nat, vv: nat, all: multiset<nat>)
    requires Sifting(ftab, order, h, i, j, vv, all) && 1 <= h <= j && BigFreq(ftab, order[j - h]) > BigFreq(ftab, vv)
    ensures Sifting(ftab, order[j := order[j - h]], h, i, j - h, vv, all)
  {
    hide Gap, BigFreq;
    Shift(order, j, j - h, vv);
    if h == 1 { GapMoves(ftab, order, i, j, vv); }
  }

  lemma SiftEnds(ftab: seq<nat>, order: seq<nat>, h: nat, i: nat, j: nat, vv: nat, all: multiset<nat>)
    requires Sifting(ftab, order, h, i, j, vv, all) && (j < h || BigFreq(ftab, order[j - h]) <= BigFreq(ftab, vv))
    ensures Numbers(order[j := vv]) && multiset(order[j := vv]) == all && (h == 1 ==> BySize(ftab, order[j := vv], i + 1))
  {
    hide Gap, BigFreq, BySize;
    if h == 1 { GapCloses(ftab, order, i, j, vv); }
  }

  /** One pass of the shell sort with gap h. With gap 1 it sorts. */
  method ShellPass(order: array<nat>, ftab: array<nat>, h: nat)
    requires order != ftab && ftab.Length == BUCKETS + 1 && Numbers(order[..]) && 1 <= h < RADIX
    modifies order
    ensures Numbers(order[..]) && multiset(order[..]) == multiset(old(order[..]))
    ensures h == 1 ==> BySize(ftab[..], order[..], RADIX)
  {
    hide BigFreq, BySize, Sifting;
    ghost var f, all := ftab[..], multiset(order[..]);
    OneIsInOrder(f, order[..]);
    for i := h to RADIX
      invariant Numbers(order[..]) && multiset(order[..]) == all && ftab[..] == f
      invariant h == 1 ==> BySize(f, order[..], i)
    {
      SiftStarts(f, order[..], h, i);
      var vv := order[i];
      var j: nat := i;
      while j >= h && BigFreq(ftab[..], order[j - h]) > BigFreq(ftab[..], vv)
        invariant j <= i && Numbers(order[..]) && ftab[..] == f && Sifting(f, order[..], h, i, j, vv, all)
      {
        SiftMoves(f, order[..], h, i, j, vv, all);
        order[j] := order[j - h];
        SiftedNumbers(f, order[..], h, i, j - h, vv, all);
        j := j - h;
      }
      SiftEnds(f, order[..], h, i, j, vv, all);
      order[j] := vv;
    }
  }

  lemma SiftedNumbers(ftab: seq<nat>, order: seq<nat>, h: nat, i: nat, j: nat, vv: nat, all: multiset<nat>)
    requires Sifting(ftab, order, h, i, j, vv, all)
    ensures Numbers(order)
  {
  }

  lemma OneIsInOrder(ftab: seq<nat>, order: seq<nat>)
    requires |ftab| == BUCKETS + 1 && Numbers(order)
    ensures BySize(ftab, order, 1)
  {
  }

  lemma GapOpens(ftab: seq<nat>, order: seq<nat>, i: nat)
    requires |ftab| == BUCKETS + 1 && Numbers(order) && i < RADIX && BySize(ftab, order, i)
    ensures Gap(ftab, order, i, i, order[i])
  {
    hide BigFreq;
  }

  /** Moving the gap is swapping it with a neighbour. */
  lemma Shift(s: seq<nat>, j: nat, k: nat, vv: nat)
    requires k < j < |s|
    ensures multiset(s[j := s[k]][k := vv]) == multiset(s[j := vv])
  {
    var t := s[j := vv];
    SwapKeepsMultiset(t, k, j);
    assert t[k := t[j]][j := t[k]] == s[j := s[k]][k := vv];
  }

  /** runningOrder: all big buckets, the smallest first. */
  method RunningOrder(ftab: array<nat>) returns (order: array<nat>)
    requires ftab.Length == BUCKETS + 1
    ensures fresh(order) && Numbers(order[..]) && IsPermutation(order[..]) && BySize(ftab[..], order[..], RADIX)
  {
    hide BySize;
    order := new nat[256](i => i);
    ghost var start := order[..];
    var h := 1;
    h := 3 * h + 1;
    while h <= 256
      invariant h in {4, 13, 40, 121, 364}
      decreases 364 - h
    {
      h := 3 * h + 1;
    }
    h := h / 3;
    ShellPass(order, ftab, h);
    while h != 1
      invariant h in {1, 4, 13, 40, 121} && Numbers(order[..]) && multiset(order[..]) == multiset(start)
      invariant h == 1 ==> BySize(ftab[..], order[..], RADIX)
      decreases h
    {
      h := h / 3;
      ShellPass(order, ftab, h);
    }
    MultisetKeepsPermutation(start, order[..]);
  }

  // ----- Putting mainSort together -----

  /** mainSort, as far as it is not given up: whatever sorts single small buckets, the result is the sorted order of all rotations. */
  method MainSort(ptr: array<nat>, block: array<Byte>, ftab: array<nat>, sorter: seq<nat> -> seq<nat>)
    requires ptr != ftab && 0 < block.Length == ptr.Length <= 900_000 && ftab.Length == BUCKETS + 1 && Sorts(block[..], sorter)
    modifies ptr, ftab
    ensures SortedRotations(block[..], ptr[..])
  {
    hide SortedRotations, Sorts, Codes, Code, Putting, CountBelow, Counts, IsPermutation, BySize, Numbers, Marked, BucketStarts;
    ghost var codes := Codes(block[..]);
    CountCodes(block, ftab);
    AddUp(ftab, codes);
    PutPositions(ptr, block, ftab);
    AllPut(block[..], ptr[..], ftab[..]);
    var order := RunningOrder(ftab);
    OrderIs(order[..]);
    SortBigBuckets(ptr, block, ftab, order[..], sorter, BucketStarts(codes));
  }

  lemma OrderIs(order: seq<nat>)
    requires Numbers(order)
    ensures |order| == RADIX
  {
  }

  /** How mainSort goes about a block: what sorts its small buckets, and whether its budget runs out. */
  datatype Strategy = Strategy(sorter: seq<Byte> -> (seq<nat> -> seq<nat>), givesUp: seq<Byte> -> bool)

  ghost predicate SortsAll(strategy: Strategy) {
    forall b: seq<Byte> :: Sorts(b, strategy.sorter(b))
  }

  // ----- There is such a strategy -----

  lemma WithoutNext(b: seq<Byte>, x: nat, q: seq<nat>)
    requires InBlock(b, [x] + q) && q != []
    ensures x < |b| && q[0] < |b| && InBlock(b, [x] + q[1..]) && q == [q[0]] + q[1..]
  {
    assert x == ([x] + q)[0] && q[0] == ([x] + q)[1];
    assert forall i :: 0 <= i < |q| - 1 ==> q[1..][i] == ([x] + q)[i + 2];
  }

  ghost function Inserted(b: seq<Byte>, x: nat, q: seq<nat>): (r: seq<nat>)
    requires InBlock(b, [x] + q)
    ensures multiset(r) == multiset(q) + multiset{x}
    decreases |q|
  {
    if q == [] then [x]
    else
      WithoutNext(b, x, q);
      if Less(b, q[0], x, |b|) then [q[0]] + Inserted(b, x, q[1..]) else [x] + q
  }

  lemma {:induction false} InsertedInOrder(b: seq<Byte>, x: nat, q: seq<nat>)
    requires InBlock(b, [x] + q) && InOrder(b, q)
    ensures InOrder(b, Inserted(b, x, q))
    decreases |q|
  {
    hide Less;
    assert x == ([x] + q)[0] && q == ([x] + q)[1..];
    if q == [] {
      InFront(b, x, []);
    } else {
      if Less(b, q[0], x, |b|) {
        var more := Inserted(b, x, q[1..]);
        InsertedInOrder(b, x, q[1..]);
        Trichotomy(b, q[0], x, |b|);
        forall y | y in more ensures !Less(b, y, q[0], |b|) {
          assert y in multiset(more);
          if y != x { assert y in q[1..]; }
        }
        InFront(b, q[0], more);
      } else {
        forall j | 0 <= j < |q| ensures !Less(b, q[j], x, |b|) { if j > 0 { Transitive(b, x, q[0], q[j], |b|); } }
        InFront(b, x, q);
      }
    }
  }

  lemma InFront(b: seq<Byte>, x: nat, r: seq<nat>)
    requires x < |b| && InOrder(b, r) && forall j :: 0 <= j < |r| ==> r[j] < |b| && !Less(b, r[j], x, |b|)
    ensures InOrder(b, [x] + r)
  {
    hide Less;
  }

  ghost function InsertionSort(b: seq<Byte>, q: seq<nat>): (r: seq<nat>)
    ensures multiset(r) == multiset(q)
    decreases |q|
  {
    if q == [] || !InBlock(b, q) then q
    else
      var more := InsertionSort(b, q[1..]);
      assert q == [q[0]] + q[1..];
      SameMembers(b, q[0], q[1..], more);
      Inserted(b, q[0], more)
  }

  lemma SameMembers(b: seq<Byte>, x: nat, q: seq<nat>, r: seq<nat>)
    requires InBlock(b, [x] + q) && multiset(r) == multiset(q)
    ensures InBlock(b, q) && InBlock(b, [x] + r)
  {
    forall i | 0 <= i < |q| ensures q[i] < |b| { assert q[i] == ([x] + q)[i + 1]; }
    forall i | 0 <= i < |[x] + r| ensures ([x] + r)[i] < |b| {
      if i == 0 { assert ([x] + q)[0] == x; } else { assert r[i - 1] in multiset(r); assert r[i - 1] in q; }
    }
  }

  lemma {:induction false} InsertionSortSorts(b: seq<Byte>, q: seq<nat>)
    requires InBlock(b, q)
    ensures InOrder(b, InsertionSort(b, q))
    decreases |q|
  {
    if q != [] {
      assert q == [q[0]] + q[1..];
      SameMembers(b, q[0], q[1..], InsertionSort(b, q[1..]));
      InsertionSortSorts(b, q[1..]);
      InsertedInOrder(b, q[0], InsertionSort(b, q[1..]));
    }
  }

  /** Insertion sort sorts, so the theorems about mainSort do not hold for want of a sorter. */
  lemma SomeStrategySorts() returns (strategy: Strategy)
    ensures SortsAll(strategy)
  {
    hide InsertionSort, InOrder, InBlock;
    strategy := Strategy(b => (q => InsertionSort(b, q)), b => false);
    forall b: seq<Byte> ensures Sorts(b, strategy.sorter(b)) {
      forall q: seq<nat> | InBlock(b, q) ensures InOrder(b, strategy.sorter(b)(q)) { InsertionSortSorts(b, q); }
    }
  }
}
