/** fallbackSort: a radix sort by one character, then passes that double the number of
    characters compared, until every rotation of the block is in its place. */
module FallbackSort {
  import opened Sequences
  import opened Rotations
  import opened CharPlaces
  import opened FallbackQSort
  import opened BucketHeaders
  import opened BucketRefinement

  /** Where the m-th occurrence of c goes: buckets are filled from the back. */
  function Slot(b: seq<Byte>, c: Byte, m: nat): int {
    End(b, c) - 1 - m
  }

  ghost predicate InSlot(b: seq<Byte>, f: seq<nat>, c: Byte, m: nat) {
    && m < |Places(b, c)|
    && 0 <= Slot(b, c, m) < |f|
    && f[Slot(b, c, m)] == Places(b, c)[m]
  }

  /** The occurrences of each character in b[..i] are in their slots. */
  ghost predicate Filled(b: seq<Byte>, f: seq<nat>, i: nat)
    requires i <= |b|
  {
    |f| >= |b| && forall c: Byte, m: nat :: m < |Places(b[..i], c)| ==> InSlot(b, f, c, m)
  }

  lemma {:induction false} BucketOf(b: seq<Byte>, p: nat, c: nat) returns (d: Byte)
    requires c <= 256 && p < Start(b, c)
    ensures Start(b, d) <= p < End(b, d)
    decreases c
  {
    hide Places, PlacesBelow;
    StartOfAll(b);
    if p >= Start(b, c - 1) {
      d := c - 1;
    } else {
      d := BucketOf(b, p, c - 1);
    }
  }

  lemma SlotsDiffer(b: seq<Byte>, c: Byte, m: nat, d: Byte, k: nat)
    requires m < |Places(b, c)| && k < |Places(b, d)| && (c != d || m != k)
    ensures Slot(b, c, m) != Slot(b, d, k)
  {
    hide Places, PlacesBelow;
    StartNext(b, c);
    StartNext(b, d);
    if c < d { StartGrows(b, c as int + 1, d); }
    if d < c { StartGrows(b, d as int + 1, c); }
  }

  lemma SlotInRange(b: seq<Byte>, c: Byte, m: nat)
    requires m < |Places(b, c)|
    ensures Start(b, c) <= Slot(b, c, m) < End(b, c) <= |b|
  {
    hide Places, PlacesBelow;
    StartNext(b, c);
    StartOfAll(b);
    StartGrows(b, c as int + 1, 256);
  }

  lemma FillOne(b: seq<Byte>, f: seq<nat>, i: nat)
    requires i < |b| && Filled(b, f, i)
    ensures var c: Byte := b[i]; var k := Slot(b, c, |Places(b[..i], c)|);
            0 <= k < |f| && Filled(b, f[k := i], i + 1)
  {
    hide Places, PlacesBelow;
    var c: Byte := b[i];
    PlacesInPrefix(b, i, c);
    var m := |Places(b[..i], c)|;
    SlotInRange(b, c, m);
    var f' := f[Slot(b, c, m) := i];
    forall d: Byte, k: nat | k < |Places(b[..i + 1], d)| ensures InSlot(b, f', d, k) {
      PlacesOneMore(b, i, d);
      PlacesInPrefix(b, i, d);
      if d != c || k != m {
        assert InSlot(b, f, d, k);
        SlotsDiffer(b, c, m, d, k);
      }
    }
  }

  /** Filling every slot gives the permutation sorted by first character. */
  lemma FilledIsRefined(b: seq<Byte>, f: seq<nat>, bits: seq<bool>)
    requires |f| == |b| < |bits| && Filled(b, f, |b|)
    requires StartsMarked(b, bits, 256)
    ensures Refined(b, f, bits, 1)
  {
    hide Head, Places, PlacesBelow, Filled;
    forall p | 0 <= p < |f| ensures f[p] < |b| && Start(b, b[f[p]]) == Head(bits, p) {
      FilledAt(b, f, p);
      HeadIsStart(b, bits, p, b[f[p]]);
    }
    forall p, q | 0 <= p < q < |f| ensures f[p] != f[q] { FilledDiffers(b, f, p, q); }
    forall p, q | 0 <= p < |f| && 0 <= q < |f|
      ensures Less(b, f[p], f[q], 1) <==> Head(bits, p) < Head(bits, q)
    {
      FilledAt(b, f, p);
      FilledAt(b, f, q);
      StartsInOrder(b, b[f[p]], b[f[q]]);
      StartsInOrder(b, b[f[q]], b[f[p]]);
    }
  }

  lemma FilledAt(b: seq<Byte>, f: seq<nat>, p: nat)
    requires Filled(b, f, |b|) && p < |f| == |b|
    ensures f[p] < |b| && Start(b, b[f[p]]) <= p < End(b, b[f[p]])
    ensures var m := End(b, b[f[p]]) - 1 - p; 0 <= m < |Places(b, b[f[p]])| && f[p] == Places(b, b[f[p]])[m]
  {
    hide Places, PlacesBelow;
    StartOfAll(b);
    var c := BucketOf(b, p, 256);
    StartNext(b, c);
    assert b[..|b|] == b;
    var m := End(b, c) - 1 - p;
    assert InSlot(b, f, c, m);
  }

  lemma FilledDiffers(b: seq<Byte>, f: seq<nat>, p: nat, q: nat)
    requires Filled(b, f, |b|) && p < q < |f| == |b|
    ensures f[p] != f[q]
  {
    hide Places, PlacesBelow, Filled;
    FilledAt(b, f, p);
    FilledAt(b, f, q);
  }

  lemma StartsInOrder(b: seq<Byte>, c: Byte, d: Byte)
    requires |Places(b, c)| > 0
    ensures c < d ==> Start(b, c) < Start(b, d)
  {
    hide Places, PlacesBelow;
    StartNext(b, c);
    if c < d { StartGrows(b, c as int + 1, d); }
  }

  lemma HeadIsStart(b: seq<Byte>, bits: seq<bool>, p: nat, c: Byte)
    requires p < |b| < |bits| && Start(b, c) <= p < End(b, c)
    requires StartsMarked(b, bits, 256)
    ensures Head(bits, p) == Start(b, c)
  {
    hide Places, PlacesBelow;
    var s := Start(b, c);
    forall z | s < z <= p ensures !bits[z] {
      if bits[z] {
        var d: Byte :| Start(b, d) == z;
        if d <= c { StartGrows(b, d, c); } else { StartGrows(b, c as int + 1, d); }
      }
    }
    HeadsGrow(bits, s, p);
  }

  ghost predicate Counted(b: seq<Byte>, ftab: seq<int>, i: nat)
    requires i <= |b|
  {
    |ftab| == 257 && ftab[256] == 0 && forall c: Byte :: ftab[c] == |Places(b[..i], c)|
  }

  lemma CountOne(b: seq<Byte>, ftab: seq<int>, i: nat)
    requires i < |b| && Counted(b, ftab, i)
    ensures Counted(b, ftab[b[i] := ftab[b[i]] + 1], i + 1)
  {
    hide Places;
    forall c: Byte ensures |Places(b[..i + 1], c)| == |Places(b[..i], c)| + if b[i] == c then 1 else 0 {
      PlacesOneMore(b, i, c);
    }
  }

  ghost predicate Summed(b: seq<Byte>, ftab: seq<int>, i: nat) {
    |ftab| == 257 && forall c: Byte :: ftab[c] == if c < i then End(b, c) else |Places(b, c)|
  }

  lemma SumOne(b: seq<Byte>, ftab: seq<int>, i: nat)
    requires 1 <= i <= 256 && Summed(b, ftab, i)
    ensures Summed(b, ftab[i := ftab[i] + ftab[i - 1]], i + 1)
  {
    hide Places, PlacesBelow;
    if i < 256 {
      StartNext(b, i);
      assert End(b, i - 1) == Start(b, i);
    }
  }

  /** Count the characters of the block, and sum the counts up. */
  method CountCharacters(block: array<Byte>) returns (ftab: array<int>, ftabCopy: array<int>)
    ensures fresh(ftab) && fresh(ftabCopy) && ftab != ftabCopy && ftab.Length == 257 && ftabCopy.Length == 256
    ensures forall c: Byte :: ftab[c] == End(block[..], c) && ftabCopy[c] == |Places(block[..], c)|
  {
    hide Places, PlacesBelow, Counted, Summed;
    ghost var b := block[..];
    ftab, ftabCopy := new int[257](_ => 0), new int[256](_ => 0);
    CountsStart(b, ftab[..]);
    for i := 0 to block.Length
      invariant Counted(b, ftab[..], i)
    {
      CountOne(b, ftab[..], i);
      ftab[block[i]] := ftab[block[i]] + 1;
    }
    for i := 0 to 256
      invariant Counted(b, ftab[..], |b|)
      invariant forall k :: 0 <= k < i ==> ftabCopy[k] == ftab[k]
    {
      ftabCopy[i] := ftab[i];
    }
    CountsAreSums(b, ftab[..], ftabCopy[..]);
    ghost var counts := ftabCopy[..];
    for i := 1 to 257
      invariant Summed(b, ftab[..], i) && ftabCopy[..] == counts
    {
      SumOne(b, ftab[..], i);
      ftab[i] := ftab[i] + ftab[i - 1];
    }
    SumsEnd(b, ftab[..]);
  }

  lemma CountsStart(b: seq<Byte>, ftab: seq<int>)
    requires |ftab| == 257 && forall k :: 0 <= k < 257 ==> ftab[k] == 0
    ensures Counted(b, ftab, 0)
  {
    EmptyHasNoPlaces(b);
  }

  lemma CountsAreSums(b: seq<Byte>, ftab: seq<int>, ftabCopy: seq<int>)
    requires Counted(b, ftab, |b|) && |ftabCopy| == 256 && forall k :: 0 <= k < 256 ==> ftabCopy[k] == ftab[k]
    ensures Summed(b, ftab, 1) && forall c: Byte :: ftabCopy[c] == |Places(b, c)|
  {
    hide Places;
    assert b[..|b|] == b;
    StartNext(b, 0);
    assert Start(b, 0) == 0;
  }

  lemma SumsEnd(b: seq<Byte>, ftab: seq<int>)
    requires Summed(b, ftab, 257)
    ensures |ftab| == 257 && forall c: Byte :: ftab[c] == End(b, c)
  {
    hide Places, PlacesBelow;
  }

  lemma EmptyHasNoPlaces(b: seq<Byte>)
    ensures forall c: Byte :: Places(b[..0], c) == []
  {
  }

  /** The first bucket and the end of the block are marked, so that every search for a header ends. */
  ghost predicate Sentinels(bits: seq<bool>, n: nat) {
    n + 1 < |bits| && bits[0] && bits[n] && !bits[n + 1]
  }

  /** The one-character radix sort, with a header bit at the start of every bucket. */
  method RadixSort(fmap: array<nat>, block: array<Byte>, bhtab: array<Word>) returns (ftabCopy: array<int>)
    requires fmap.Length == block.Length > 0 && fmap as object != block && bhtab.Length >= block.Length / 32 + 3
    modifies fmap, bhtab
    ensures fresh(ftabCopy) && ftabCopy.Length == 256
    ensures forall c: Byte :: ftabCopy[c] == |Places(block[..], c)|
    ensures Refined(block[..], fmap[..], Bits(bhtab[..]), 1)
    ensures Sentinels(Bits(bhtab[..]), block.Length)
  {
    hide Places, PlacesBelow, Filled, Refined;
    ghost var b := block[..];
    var n := block.Length;
    var ftab;
    ftab, ftabCopy := CountCharacters(block);
    NothingFilled(b, fmap[..]);
    assert forall c: Byte :: |Places(b[..0], c)| == 0 by { EmptyHasNoPlaces(b); }
    for i := 0 to n
      invariant Filled(b, fmap[..], i)
      invariant forall c: Byte :: ftab[c] == End(b, c) - |Places(b[..i], c)|
      invariant forall c: Byte :: ftabCopy[c] == |Places(b, c)|
    {
      FillOne(b, fmap[..], i);
      forall c: Byte ensures |Places(b[..i + 1], c)| == |Places(b[..i], c)| + if b[i] == c then 1 else 0 {
        PlacesOneMore(b, i, c);
      }
      var j := block[i];
      var k := ftab[j] - 1;
      ftab[j] := k;
      fmap[k] := i;
    }
    assert b[..n] == b;
    forall c: Byte ensures ftab[c] == Start(b, c) { StartNext(b, c); }
    InitHeaders(bhtab, ftab, n, b);
    FilledIsRefined(b, fmap[..], Bits(bhtab[..]));
  }

  lemma NothingFilled(b: seq<Byte>, f: seq<nat>)
    requires |f| >= |b|
    ensures Filled(b, f, 0)
  {
    EmptyHasNoPlaces(b);
  }

  /** Below n the set bits are where one of the first k buckets starts. */
  ghost predicate StartsMarked(b: seq<Byte>, bits: seq<bool>, k: nat) {
    |b| < |bits| && forall z :: 0 <= z < |b| ==> (bits[z] <==> exists c: Byte :: c < k && Start(b, c) == z)
  }

  lemma MarkStart(b: seq<Byte>, bits: seq<bool>, k: Byte)
    requires StartsMarked(b, bits, k)
    ensures Start(b, k) <= |b| && StartsMarked(b, bits[Start(b, k) := true], k as int + 1)
  {
    hide Places, PlacesBelow;
    StartOfAll(b);
    StartGrows(b, k, 256);
    var bits' := bits[Start(b, k) := true];
    forall z | 0 <= z < |b| ensures bits'[z] <==> exists c: Byte :: c < k as int + 1 && Start(b, c) == z {
      if z == Start(b, k) { assert k < k as int + 1; }
    }
  }

  /** Clear the header words, then set the bit of every bucket start and the sentinels after the block. */
  method InitHeaders(bhtab: array<Word>, ftab: array<int>, nblock: nat, ghost b: seq<Byte>)
    requires nblock == |b| > 0 && bhtab.Length >= nblock / 32 + 3 && ftab.Length == 257
    requires forall c: Byte :: ftab[c] == Start(b, c)
    modifies bhtab
    ensures Sentinels(Bits(bhtab[..]), nblock) && StartsMarked(b, Bits(bhtab[..]), 256)
  {
    hide Places, PlacesBelow;
    var nBhtab := 2 + nblock / 32;
    for i := 0 to nBhtab
      invariant forall w :: 0 <= w < i ==> bhtab[w] == ALL_ZEROS
    {
      bhtab[i] := ALL_ZEROS;
    }
    assert forall z :: 0 <= z < nblock ==> z / 32 < nBhtab;
    for i := 0 to 256
      invariant StartsMarked(b, Bits(bhtab[..]), i)
    {
      MarkStart(b, Bits(bhtab[..]), i);
      SetBh(bhtab, ftab[i]);
    }
    for i := 0 to 32
      invariant var bits := Bits(bhtab[..]); StartsMarked(b, bits, 256) && (i > 0 ==> bits[nblock] && !bits[nblock + 1])
    {
      SetBh(bhtab, nblock + 2 * i);
      ClearBh(bhtab, nblock + 2 * i + 1);
    }
    StartOfAll(b);
  }

  /** The classes of the first i listed rotations have been entered. */
  ghost predicate Entered(e: seq<nat>, f: seq<nat>, bits: seq<bool>, h: nat, i: nat) {
    && i <= |f| == |e| < |bits| && h <= |f|
    && IsPermutation(f)
    && forall m :: 0 <= m < i ==> e[Back(|f|, f[m], h)] == Head(bits, m)
  }

  lemma EnterOne(e: seq<nat>, f: seq<nat>, bits: seq<bool>, h: nat, i: nat)
    requires Entered(e, f, bits, h, i) && i < |f|
    ensures Entered(e[Back(|f|, f[i], h) := Head(bits, i)], f, bits, h, i + 1)
  {
    hide Head;
    forall m | 0 <= m < i ensures Back(|f|, f[m], h) != Back(|f|, f[i], h) {
      assert f[m] != f[i];
    }
  }

  lemma AllEntered(b: seq<Byte>, e: seq<nat>, f: seq<nat>, bits: seq<bool>, h: nat)
    requires Refined(b, f, bits, h) && Entered(e, f, bits, h, |f|)
    ensures |e| == |b| && Compares(b, e, h)
  {
    hide Less, Skip, Head;
    forall p, q | 0 <= p < |b| && 0 <= q < |b|
      ensures e[p] < e[q] <==> Less(b, Skip(|b|, p, h), Skip(|b|, q, h), h)
    {
      ClassesCompare(b, e, f, bits, h, p, q);
    }
  }

  /** Give the rotation H places before the i-th one the bucket of the i-th. */
  method EnterClasses(fmap: array<nat>, eclass: array<nat>, bhtab: array<Word>, nblock: nat, H: nat, ghost b: seq<Byte>)
    requires fmap.Length == eclass.Length == nblock == |b| < 32 * bhtab.Length && 0 < H <= nblock && fmap != eclass
    requires Refined(b, fmap[..], Bits(bhtab[..]), H)
    modifies eclass
    ensures Compares(b, eclass[..], H)
  {
    hide Less, Skip, Bits;
    ghost var f, words, bits := fmap[..], bhtab[..], Bits(bhtab[..]);
    var j := 0;
    for i := 0 to nblock
      invariant bhtab[..] == words
      invariant j == if i == 0 then 0 else Head(bits, i - 1)
      invariant Entered(eclass[..], f, bits, H, i)
    {
      if IsSetBh(bhtab, i) { j := i; }
      assert j == Head(bits, i);
      EnterOne(eclass[..], f, bits, H, i);
      var k := fmap[i] - H;
      if k < 0 { k := k + nblock; }
      assert k == Back(nblock, f[i], H);
      eclass[k] := j;
    }
    AllEntered(b, eclass[..], f, bits, H);
  }

  /** A pass has dealt with the buckets up to r. */
  ghost predicate Passing(b: seq<Byte>, f: seq<nat>, e: seq<nat>, bits0: seq<bool>, bits: seq<bool>, h: nat, r: int) {
    && -1 <= r < |b| == |f| == |e|
    && Refined(b, f, bits0, h)
    && Keyed(f, e, bits0, bits, r)
    && Sentinels(bits0, |b|) && bits0[r + 1] && bits[0]
    && forall z :: r < z < |bits| ==> bits[z] == bits0[z]
  }

  /** Bits l+1 to r now tell where the class changes. */
  ghost predicate HeadersMarked(f: seq<nat>, e: seq<nat>, before: seq<bool>, after: seq<bool>, l: nat, r: nat) {
    && l <= r < |f| && |before| == |after| && |f| <= |before|
    && (forall z :: l <= z <= r ==> f[z] < |e|)
    && (forall z :: 0 <= z < |before| && !(l < z <= r) ==> after[z] == before[z])
    && (forall z :: l < z <= r ==> (after[z] <==> e[f[z - 1]] != e[f[z]]))
  }

  /** Sorting the bucket [l..r'] after singletons, and marking its headers, extends the pass to r'. */
  lemma PassBucket(b: seq<Byte>, f: seq<nat>, f': seq<nat>, e: seq<nat>, bits0: seq<bool>, bits: seq<bool>, bits': seq<bool>,
                   h: nat, r: int, l: nat, r': nat)
    requires Passing(b, f, e, bits0, bits, h, r) && r < l < r' < |f|
    requires (forall z :: r < z <= l ==> bits[z]) && (forall z :: l < z <= r' ==> !bits[z]) && bits[r' + 1]
    requires Rearranged(f, f', l, r') && Indexes(f', e, l, r') && Ordered(f', e, l, r')
    requires HeadersMarked(f', e, bits, bits', l, r')
    ensures Passing(b, f', e, bits0, bits', h, r')
  {
    hide Refined, Sentinels;
    assert forall z :: l < z <= r' ==> !bits0[z];
    RefinedListing(b, f, bits0, h);
    RearrangeBucket(b, f, f', bits0, h, l, r');
    RefinedListing(b, f', bits0, h);
    forall z | 0 < z <= r' ensures bits'[z] <==> bits0[z] || e[f'[z - 1]] != e[f'[z]] {
      if z < l { assert f'[z - 1] == f[z - 1] && f'[z] == f[z]; }
    }
    forall z | 0 < z <= r' && !bits0[z] ensures e[f'[z - 1]] <= e[f'[z]] {
      if z < l { assert f'[z - 1] == f[z - 1] && f'[z] == f[z]; }
    }
  }

  lemma RefinedListing(b: seq<Byte>, f: seq<nat>, bits: seq<bool>, h: nat)
    requires Refined(b, f, bits, h)
    ensures |f| == |b| < |bits| && forall i :: 0 <= i < |f| ==> f[i] < |f|
  {
  }

  lemma PassEnds(b: seq<Byte>, f: seq<nat>, e: seq<nat>, bits0: seq<bool>, bits: seq<bool>, h: nat, r: int)
    requires Passing(b, f, e, bits0, bits, h, r) && Compares(b, e, h)
    requires forall z :: r < z <= |b| ==> bits[z]
    ensures Refined(b, f, bits, 2 * h) && Sentinels(bits, |b|)
  {
    hide Refined;
    assert Keyed(f, e, bits0, bits, |f| - 1);
    PassDoubles(b, f, e, bits0, bits, h);
  }

  /** Set the header bits inside a sorted bucket. */
  method MarkHeaders(fmap: array<nat>, eclass: array<nat>, bhtab: array<Word>, l: nat, r: nat)
    requires l < r < fmap.Length < 32 * bhtab.Length && Indexes(fmap[..], eclass[..], l, r)
    requires var bits := Bits(bhtab[..]); bits[l] && forall z :: l < z <= r ==> !bits[z]
    modifies bhtab
    ensures HeadersMarked(fmap[..], eclass[..], old(Bits(bhtab[..])), Bits(bhtab[..]), l, r)
  {
    hide Bits;
    ghost var f, e, bits := fmap[..], eclass[..], Bits(bhtab[..]);
    var cc: int := -1;
    for i := l to r + 1
      invariant fmap[..] == f && eclass[..] == e
      invariant cc == if i == l then -1 else e[f[i - 1]]
      invariant if i == l then Bits(bhtab[..]) == bits else HeadersMarked(f, e, bits, Bits(bhtab[..]), l, i - 1)
    {
      var cc1: int := eclass[fmap[i]];
      if cc != cc1 {
        SetBh(bhtab, i);
        cc := cc1;
      }
    }
  }

  /** One pass: sort every bucket by the bucket of the rotation H places later. */
  method RefinePass(fmap: array<nat>, eclass: array<nat>, bhtab: array<Word>, nblock: nat, H: nat, ghost b: seq<Byte>)
    returns (nNotDone: nat)
    requires fmap != eclass && fmap.Length == eclass.Length == nblock == |b| && 0 < nblock < 0x8000_0000
    requires nblock + 1 < 32 * bhtab.Length
    requires Refined(b, fmap[..], Bits(bhtab[..]), H) && Compares(b, eclass[..], H) && Sentinels(Bits(bhtab[..]), nblock)
    modifies fmap, bhtab
    ensures Refined(b, fmap[..], Bits(bhtab[..]), 2 * H) && Sentinels(Bits(bhtab[..]), nblock)
    ensures nNotDone == 0 ==> forall z :: 0 <= z < nblock ==> Bits(bhtab[..])[z]
  {
    hide Bits, Refined, Keyed, Compares, Ordered, Rearranged;
    ghost var e, bits0 := eclass[..], Bits(bhtab[..]);
    nNotDone := 0;
    var r := -1;
    PassBegins(b, fmap[..], e, bits0, H);
    while true
      invariant eclass[..] == e && Passing(b, fmap[..], e, bits0, Bits(bhtab[..]), H, r)
      invariant nNotDone == 0 ==> forall z :: 0 <= z <= r ==> Bits(bhtab[..])[z]
      decreases nblock - r
    {
      ghost var f, bits := fmap[..], Bits(bhtab[..]);
      var k := FirstClear(bhtab, r + 1, nblock + 1);
      var l := k - 1;
      if l >= nblock {
        PassEnds(b, f, e, bits0, bits, H, r);
        return;
      }
      // the sentinel at nblock ends this search too, so a second test for the end never succeeds,
      // and the bucket always has at least two members
      k := FirstSet(bhtab, k, nblock);
      ghost var r0 := r;
      r := k - 1;
      nNotDone := nNotDone + (r - l + 1);
      BucketIndexes(b, f, e, bits0, bits, H, r0, l, r);
      FallbackQSort3(fmap, eclass, l, r);
      MarkHeaders(fmap, eclass, bhtab, l, r);
      PassBucket(b, f, fmap[..], e, bits0, bits, Bits(bhtab[..]), H, r0, l, r);
    }
  }

  lemma PassBegins(b: seq<Byte>, f: seq<nat>, e: seq<nat>, bits: seq<bool>, h: nat)
    requires |f| == |e| == |b| > 0 && Refined(b, f, bits, h) && Sentinels(bits, |b|)
    ensures Passing(b, f, e, bits, bits, h, -1)
  {
  }

  lemma BucketIndexes(b: seq<Byte>, f: seq<nat>, e: seq<nat>, bits0: seq<bool>, bits: seq<bool>, h: nat, r: int, l: nat, r': nat)
    requires Passing(b, f, e, bits0, bits, h, r) && l <= r' < |f|
    ensures Indexes(f, e, l, r')
  {
  }

  /** j is the character of the next place to rebuild, or one that is used up. */
  ghost predicate Rebuilding(b: seq<Byte>, f: seq<nat>, block: seq<Byte>, counts: seq<int>, i: nat, j: nat) {
    && |f| == |b| == |block| && i <= |b| && j < 256 && |counts| == 256
    && (forall m :: 0 <= m < i ==> f[m] < |b| && block[f[m]] == b[f[m]])
    && Start(b, j) <= i <= End(b, j) && counts[j] == End(b, j) - i
    && forall c: Byte :: c > j ==> counts[c] == |Places(b, c)|
  }

  lemma NextCharacter(b: seq<Byte>, f: seq<nat>, block: seq<Byte>, counts: seq<int>, i: nat, j: nat)
    requires Rebuilding(b, f, block, counts, i, j) && counts[j] == 0 && i < |b|
    ensures j < 255 && Rebuilding(b, f, block, counts, i, j + 1)
  {
    hide Places, PlacesBelow;
    StartOfAll(b);
    if j < 255 { StartNext(b, j + 1); }
  }

  /** The next character to rebuild is the first one that is not used up. */
  lemma NextIsRight(b: seq<Byte>, f: seq<nat>, i: nat, j: Byte)
    requires SortedRotations(b, f) && i < |b| && Start(b, j) <= i < End(b, j)
    ensures f[i] < |b| && b[f[i]] == j
  {
    hide Places, PlacesBelow, SortedByChar;
    SortedByFirst(b, f);
    SortedByCharacter(b, f, i);
    var c: Byte := b[f[i]];
    if c < j { StartGrows(b, c as int + 1, j); }
    if j < c { StartGrows(b, j as int + 1, c); }
  }

  lemma SortedByFirst(b: seq<Byte>, f: seq<nat>)
    requires SortedRotations(b, f)
    ensures SortedByChar(b, f) && forall i :: 0 <= i < |f| ==> f[i] < |b|
  {
    forall p, q | 0 <= p < q < |f| ensures b[f[p]] <= b[f[q]] {
      assert !Less(b, f[q], f[p], |b|);
    }
  }

  lemma RebuildOne(b: seq<Byte>, f: seq<nat>, block: seq<Byte>, counts: seq<int>, i: nat, j: nat)
    requires Rebuilding(b, f, block, counts, i, j) && counts[j] != 0 && i < |b|
    requires SortedRotations(b, f)
    ensures f[i] < |b| && b[f[i]] == j
    ensures Rebuilding(b, f, block[f[i] := j], counts[j := counts[j] - 1], i + 1, j)
  {
    hide Places, PlacesBelow, SortedRotations;
    NextIsRight(b, f, i, j);
  }

  /** Write the block again from the sorted order and the character counts. */
  method RebuildBlock(fmap: array<nat>, eclass8: array<Byte>, ftabCopy: array<int>, nblock: nat, ghost b: seq<Byte>)
    requires fmap.Length == eclass8.Length == nblock == |b| > 0 && ftabCopy.Length == 256 && fmap as object != eclass8
    requires ftabCopy != fmap as object && ftabCopy != eclass8 as object
    requires SortedRotations(b, fmap[..]) && forall c: Byte :: ftabCopy[c] == |Places(b, c)|
    modifies eclass8, ftabCopy
    ensures eclass8[..] == b
  {
    hide SortedRotations, Places, PlacesBelow;
    ghost var f := fmap[..];
    StartOfAll(b);
    StartNext(b, 0);
    var j := 0;
    for i := 0 to nblock
      invariant fmap[..] == f && Rebuilding(b, f, eclass8[..], ftabCopy[..], i, j)
    {
      while ftabCopy[j] == 0
        invariant Rebuilding(b, f, eclass8[..], ftabCopy[..], i, j)
        decreases 256 - j
      {
        NextCharacter(b, f, eclass8[..], ftabCopy[..], i, j);
        j := j + 1;
      }
      RebuildOne(b, f, eclass8[..], ftabCopy[..], i, j);
      ftabCopy[j] := ftabCopy[j] - 1;
      eclass8[fmap[i]] := j;
    }
    Rebuilt(b, f, eclass8[..], ftabCopy[..], j);
  }

  lemma Rebuilt(b: seq<Byte>, f: seq<nat>, block: seq<Byte>, counts: seq<int>, j: nat)
    requires Rebuilding(b, f, block, counts, |b|, j) && SortedRotations(b, f)
    ensures block == b
  {
    forall x | 0 <= x < |b| ensures block[x] == b[x] {
      PermutationCovers(f, x);
      var m :| 0 <= m < |f| && f[m] == x;
    }
  }

  /** Sort the rotations of the block. The words of eclass overlay its bytes, so the passes
      destroy the block and the last step writes it again. */
  method FallbackSort(fmap: array<nat>, eclass: array<nat>, eclass8: array<Byte>, bhtab: array<Word>)
    requires fmap != eclass && fmap as object != eclass8 && fmap.Length == eclass.Length == eclass8.Length
    requires bhtab as object != eclass8 && 0 < eclass8.Length < 0x8000_0000 && bhtab.Length >= eclass8.Length / 32 + 3
    modifies fmap, eclass, eclass8, bhtab
    ensures SortedRotations(old(eclass8[..]), fmap[..])
    ensures eclass8[..] == old(eclass8[..])
  {
    hide Refined, Compares, Bits, Places, PlacesBelow, SortedRotations;
    ghost var b := eclass8[..];
    var nblock := eclass8.Length;
    var ftabCopy := RadixSort(fmap, eclass8, bhtab);
    ghost var f, words, counts := fmap[..], bhtab[..], ftabCopy[..];
    modify eclass8;
    assert fmap[..] == f && bhtab[..] == words && ftabCopy[..] == counts;
    var H := 1;
    while true
      invariant 0 < H <= nblock && forall c: Byte :: ftabCopy[c] == |Places(b, c)|
      invariant Refined(b, fmap[..], Bits(bhtab[..]), H) && Sentinels(Bits(bhtab[..]), nblock)
      decreases nblock - H
    {
      EnterClasses(fmap, eclass, bhtab, nblock, H, b);
      var nNotDone := RefinePass(fmap, eclass, bhtab, nblock, H, b);
      H := H * 2;
      if H > nblock || nNotDone == 0 { break; }
    }
    RefinedIsSorted(b, fmap[..], Bits(bhtab[..]), H);
    RebuildBlock(fmap, eclass8, ftabCopy, nblock, b);
  }
}
