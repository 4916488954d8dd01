/** The main loop of mainSort: big bucket after big bucket is completed, and scanned to save the sorting of later ones. */
module MainSorting {
  import opened Sequences
  import opened Rotations
  import opened SmallBuckets
  import opened PointerScans
  import opened ScanOrder

  const SETMASK: nat := 0x20_0000

  /** An entry of ftab without the bit that says that its bucket is sorted. */
  function Clear(v: nat): (start: nat) {
    v % SETMASK
  }

  predicate IsSet(v: nat) {
    v / SETMASK % 2 == 1
  }

  function Set(v: nat): (w: nat)
    ensures IsSet(w) && Clear(w) == Clear(v)
  {
    if IsSet(v) then v else v + SETMASK
  }

  ghost function Starts(ftab: seq<nat>): (starts: seq<nat>)
    ensures |starts| == |ftab|
  {
    seq(|ftab|, i requires 0 <= i < |ftab| => Clear(ftab[i]))
  }

  /** The whole block is one character repeated. */
  ghost predicate Repeats(b: seq<Byte>, c: Byte) {
    forall i :: 0 <= i < |b| ==> b[i] == c
  }

  // ----- Step 2 -----

  ghost function FirstCursors(c: Scene): (cs: seq<nat>)
    requires c.Ok()
    ensures |cs| == RADIX
  {
    seq(RADIX, t requires 0 <= t < RADIX => c.From(t))
  }

  ghost function LastCursors(c: Scene): (ce: seq<nat>)
    requires c.Ok()
    ensures |ce| == RADIX
  {
    seq(RADIX, t requires 0 <= t < RADIX => c.Past(t))
  }

  lemma ScanStarts(c: Scene)
    requires c.Ok()
    ensures Placed(c, c.was, FirstCursors(c), LastCursors(c))
    ensures Scanned(c, c.was, FirstCursors(c), LastCursors(c), c.First(), c.End())
    ensures FirstCursors(c)[c.ss] == c.From(c.ss) && LastCursors(c)[c.ss] == c.Past(c.ss)
    ensures Repeats(c.b, c.ss) ==> c.First() == c.From(c.ss) == 0 && c.Past(c.ss) == c.End() == |c.b|
  {
    hide Code;
    BigBucket(c);
    InBlockWas(c);
    PlacedFirst(c);
    var cs, ce := FirstCursors(c), LastCursors(c);
    NothingLeads(c);
    FilledIs(c, c.was, cs, ce, c.was[c.First()..c.First()], c.was[c.End()..c.End()]);
    KnownFirst(c);
    if Repeats(c.b, c.ss) { RepeatsFills(c); }
  }

  lemma InBlockWas(c: Scene)
    requires c.Ok()
    ensures |c.was| == |c.b| && InBlock(c.b, c.was) && Distinct(c.was)
  {
  }

  lemma PlacedFirst(c: Scene)
    requires c.Ok()
    ensures Placed(c, c.was, FirstCursors(c), LastCursors(c))
  {
    hide Code;
    BigBucket(c);
  }

  lemma NothingLeads(c: Scene)
    requires c.Ok()
    ensures c.First() <= c.End() <= |c.was|
    ensures c.was[c.First()..c.First()] == [] == c.was[c.End()..c.End()]
    ensures forall t: Byte :: Preds(c.b, [], t) == []
  {
    BigBucket(c);
  }

  lemma KnownFirst(c: Scene)
    requires c.Ok() && Placed(c, c.was, FirstCursors(c), LastCursors(c))
    ensures Distinct(Known(c, c.was, FirstCursors(c), LastCursors(c))) && Heads(c, Known(c, c.was, FirstCursors(c), LastCursors(c)))
  {
    hide Code, Placed;
    BigBucket(c);
    InBlockWas(c);
    forall i: nat | c.First() <= i < c.End() ensures c.b[c.was[i]] == c.ss { BigSlot(c, i); }
    TwoParts(c, c.was, c.First(), c.From(c.ss), c.Past(c.ss), c.End());
  }

  lemma TwoParts(c: Scene, p: seq<nat>, i: nat, j: nat, k: nat, m: nat)
    requires i <= j <= k <= m <= |p| && Distinct(p) && InBlock(c.b, p) && forall x: nat :: i <= x < m ==> c.b[p[x]] == c.ss
    ensures Distinct(p[i..j] + p[k..m]) && Heads(c, p[i..j] + p[k..m])
  {
    var q := p[i..j] + p[k..m];
    forall x | 0 <= x < |q| ensures q[x] == p[if x < j - i then i + x else k + x - (j - i)] {
    }
  }

  lemma RepeatsFills(c: Scene)
    requires c.Ok() && Repeats(c.b, c.ss)
    ensures c.First() == c.From(c.ss) == 0 && c.Past(c.ss) == c.End() == |c.b|
  {
    hide Code;
    BigBucket(c);
    OkIsBucketed(c);
    var s := RADIX * c.ss + c.ss;
    RepeatsCode(c, 0);
    RepeatsCode(c, |c.b| - 1);
  }

  lemma RepeatsCode(c: Scene, i: nat)
    requires c.Ok() && Repeats(c.b, c.ss) && i < |c.b|
    ensures c.From(c.ss) <= i < c.Past(c.ss)
  {
    assert Code(c.b, c.was[i]) == RADIX * c.ss + c.ss;
  }

  /** The position in front, the last one in front of the first. */
  function Before(p: nat, n: nat): (k: nat)
    requires p < n
    ensures k == Prev(n, p)
  {
    var k := p - 1;
    if k < 0 then k + n else k
  }

  /** Scan from the left. */
  method ScanLeft(ptr: array<nat>, block: array<Byte>, bigDone: array<bool>, ss: Byte, first: nat, copyStart: array<nat>,
                  ghost c: Scene, ghost ce: seq<nat>)
    requires c.Ok() && c.b == block[..] && c.done == bigDone[..] && c.ss == ss && first == c.First()
    requires ptr != copyStart && copyStart.Length == RADIX && ptr[..] == c.was
    requires Placed(c, ptr[..], copyStart[..], ce) && Scanned(c, ptr[..], copyStart[..], ce, first, c.End())
    requires Repeats(c.b, ss) ==> copyStart[ss] == 0
    modifies ptr, copyStart
    ensures Placed(c, ptr[..], copyStart[..], ce) && Scanned(c, ptr[..], copyStart[..], ce, copyStart[ss], c.End())
    ensures Repeats(c.b, ss) ==> copyStart[ss] == 0 && ptr[..] == c.was
  {
    hide Placed, Scanned, Bucketed, Scene.Ok, Code, Repeats, Known, Filled;
    BigBucket(c);
    var n := block.Length;
    ScannedBounds(c, ptr[..], copyStart[..], ce, first, c.End());
    var j := first;
    while j < copyStart[ss]
      invariant Placed(c, ptr[..], copyStart[..], ce) && Scanned(c, ptr[..], copyStart[..], ce, j, c.End())
      invariant j <= copyStart[ss] <= n
      invariant Repeats(c.b, ss) ==> copyStart[ss] == 0 && ptr[..] == c.was
      decreases n - j
    {
      ghost var p, cs := ptr[..], copyStart[..];
      Cursors(c, p, cs, ce);
      var k := Before(ptr[j], n);
      var c1 := block[k];
      if !bigDone[c1] {
        StepLeft(c, p, cs, ce, j, c.End(), k, c1);
        ptr[copyStart[c1]] := k;
        copyStart[c1] := copyStart[c1] + 1;
        assert ptr[..] == p[cs[c1] := k] && copyStart[..] == cs[c1 := cs[c1] + 1];
      } else {
        SkipLeft(c, p, cs, ce, j, c.End());
      }
      j := j + 1;
      ScannedBounds(c, ptr[..], copyStart[..], ce, j, c.End());
    }
  }

  /** copyEnd holds the last slot where the model has the end. */
  ghost predicate EndsAre(copyEnd: seq<int>, ce: seq<nat>) {
    |copyEnd| == |ce| == RADIX && forall t :: 0 <= t < RADIX ==> copyEnd[t] + 1 == ce[t]
  }

  /** Scan from the right. */
  method ScanRight(ptr: array<nat>, block: array<Byte>, bigDone: array<bool>, ss: Byte, last: int, copyEnd: array<int>,
                   ghost c: Scene, ghost cs: seq<nat>, ghost ce0: seq<nat>) returns (ghost ce: seq<nat>)
    requires c.Ok() && c.b == block[..] && c.done == bigDone[..] && c.ss == ss && last + 1 == c.End()
    requires EndsAre(copyEnd[..], ce0)
    requires Placed(c, ptr[..], cs, ce0) && Scanned(c, ptr[..], cs, ce0, cs[ss], c.End())
    requires Repeats(c.b, ss) ==> ce0[ss] == |c.b| && ptr[..] == c.was
    modifies ptr, copyEnd
    ensures Placed(c, ptr[..], cs, ce) && Scanned(c, ptr[..], cs, ce, cs[ss], ce[ss])
    ensures EndsAre(copyEnd[..], ce)
    ensures Repeats(c.b, ss) ==> ce[ss] == |c.b| && ptr[..] == c.was
  {
    hide Placed, Scanned, Bucketed, Scene.Ok, Code, Repeats, Known, Filled;
    BigBucket(c);
    var n := block.Length;
    ce := ce0;
    Cursors(c, ptr[..], cs, ce);
    ScannedBounds(c, ptr[..], cs, ce, cs[ss], c.End());
    var j := last;
    while j > copyEnd[ss]
      invariant -1 <= copyEnd[ss] <= j < n && EndsAre(copyEnd[..], ce)
      invariant Placed(c, ptr[..], cs, ce) && Scanned(c, ptr[..], cs, ce, cs[ss], j + 1)
      invariant Repeats(c.b, ss) ==> ce[ss] == n && ptr[..] == c.was
      decreases j + 1
    {
      ghost var p := ptr[..];
      Cursors(c, p, cs, ce);
      var k := Before(ptr[j], n);
      var c1 := block[k];
      if !bigDone[c1] {
        StepRight(c, p, cs, ce, cs[ss], j + 1, k, c1);
        ptr[copyEnd[c1]] := k;
        copyEnd[c1] := copyEnd[c1] - 1;
        assert ptr[..] == p[ce[c1] - 1 := k];
        ce := ce[c1 := ce[c1] - 1];
      } else {
        SkipRight(c, p, cs, ce, cs[ss], j + 1);
      }
      j := j - 1;
      ScannedBounds(c, ptr[..], cs, ce, cs[ss], j + 1);
    }
  }

  /** Step 2 for the big bucket ss. The assertion is the one that the source numbers 1007. */
  method PointerScan(ptr: array<nat>, block: array<Byte>, ftab: array<nat>, bigDone: array<bool>, ss: Byte)
    requires ptr != ftab && 0 < block.Length && bigDone.Length == RADIX && !bigDone[ss]
    requires Bucketed(block[..], ptr[..], Starts(ftab[..]))
    requires SmallInOrder(Scene(block[..], Starts(ftab[..]), ss, bigDone[..], ptr[..]), ptr[..])
    modifies ptr
    ensures Bucketed(block[..], ptr[..], Starts(ftab[..]))
    ensures forall t: Byte :: !bigDone[t] ==> SortedBucket(block[..], ptr[..], Starts(ftab[..]), RADIX * t + ss)
    ensures ptr.Length == block.Length && InBlock(block[..], old(ptr[..]))
    ensures forall i :: 0 <= i < ptr.Length ==>
              var s := Code(block[..], old(ptr[..])[i]); s % RADIX != ss || bigDone[s / RADIX] ==> ptr[i] == old(ptr[i])
  {
    hide Placed, Scanned, Bucketed, SmallInOrder, Scene.Ok, SortedBucket, Code, Starts, InOrder, Repeats, Known, Filled,
      FirstCursors, LastCursors, EndsAre, InBlock;
    ghost var c := Scene(block[..], Starts(ftab[..]), ss, bigDone[..], ptr[..]);
    SceneIsOk(c);
    ScanStarts(c);
    BigBucket(c);
    StartsAt(ftab[..], 256 * ss);
    StartsAt(ftab[..], 256 * (ss + 1));
    var copyStart, copyEnd := CopyPlaces(ftab, ss, c);
    ghost var ce := LastCursors(c);
    ScanLeft(ptr, block, bigDone, ss, Clear(ftab[ss * 256]), copyStart, c, ce);
    ce := ScanRight(ptr, block, bigDone, ss, Clear(ftab[(ss + 1) * 256]) - 1, copyEnd, c, copyStart[..], ce);
    ScanEnds(c, ptr[..], copyStart[..], ce);
    EndIs(copyEnd[..], ce, ss);
    assert copyStart[ss] == copyEnd[ss] + 1 || (copyStart[ss] == 0 && copyEnd[ss] == block.Length - 1);
  }

  lemma EndIs(copyEnd: seq<int>, ce: seq<nat>, t: Byte)
    requires EndsAre(copyEnd, ce)
    ensures copyEnd[t] + 1 == ce[t]
  {
  }

  /** Both when the cursors have met and when there was nothing to do. */
  lemma ScanEnds(c: Scene, p: seq<nat>, cs: seq<nat>, ce: seq<nat>)
    requires c.Ok() && Placed(c, p, cs, ce) && Scanned(c, p, cs, ce, cs[c.ss], ce[c.ss])
    requires SmallInOrder(c, c.was) && (Repeats(c.b, c.ss) ==> p == c.was)
    ensures |cs| == |ce| == RADIX && (!Repeats(c.b, c.ss) ==> cs[c.ss] == ce[c.ss])
    ensures Bucketed(c.b, p, c.starts)
    ensures |c.done| == RADIX && forall t: Byte :: !c.done[t] ==> SortedBucket(c.b, p, c.starts, RADIX * t + c.ss)
    ensures |p| == |c.was| && InBlock(c.b, c.was)
    ensures forall i :: 0 <= i < |p| ==> var s := Code(c.b, c.was[i]); s % RADIX != c.ss || c.done[s / RADIX] ==> p[i] == c.was[i]
  {
    hide Placed, Scanned, Bucketed, SmallInOrder, Scene.Ok, SortedBucket, Code, InOrder, Met;
    BigBucket(c);
    InBlockWas(c);
    Cursors(c, p, cs, ce);
    MetUnchanged(c, p, cs, ce);
    if Repeats(c.b, c.ss) {
      OkIsBucketed(c);
      forall t: Byte ensures SortedBucket(c.b, p, c.starts, RADIX * t + c.ss) { RepeatsInOrder(c, t); }
    } else {
      var z :| 0 <= z < |c.b| && c.b[z] != c.ss;
      IsFinished(c, p, cs, ce);
      CursorsMeet(c, p, cs, ce, z, c.ss);
      FinishedMeet(c, p, cs, ce, z);
      StillBucketed(c, p);
      forall t: Byte | !c.done[t] ensures SortedBucket(c.b, p, c.starts, RADIX * t + c.ss) { LeadingInOrder(c, p, t); }
    }
  }

  lemma IsFinished(c: Scene, p: seq<nat>, cs: seq<nat>, ce: seq<nat>)
    requires c.Ok() && Placed(c, p, cs, ce) && Scanned(c, p, cs, ce, cs[c.ss], ce[c.ss])
    ensures Finished(c, p, cs, ce)
  {
    hide Placed, Scanned, Scene.Ok;
  }

  /** All rotations of one repeated character are equal. */
  lemma RepeatsInOrder(c: Scene, t: Byte)
    requires c.Ok() && Repeats(c.b, c.ss)
    ensures SortedBucket(c.b, c.was, c.starts, RADIX * t + c.ss)
  {
    hide Code, Scene.Ok;
    BigBucket(c);
    InBlockWas(c);
    var q := c.was[c.From(t)..c.Past(t)];
    forall i, j | 0 <= i < j < |q| ensures !Less(c.b, q[j], q[i], |c.b|) { NoneLess(c.b, c.ss, q[j], q[i], |c.b|); }
  }

  lemma {:induction false} NoneLess(b: seq<Byte>, c: Byte, x: nat, y: nat, h: nat)
    requires Repeats(b, c) && x < |b| && y < |b|
    ensures !Less(b, x, y, h)
    decreases h
  {
    if h > 0 { NoneLess(b, c, Next(|b|, x), Next(|b|, y), h - 1); }
  }

  lemma StartsAt(ftab: seq<nat>, i: nat)
    requires i < |ftab|
    ensures Starts(ftab)[i] == Clear(ftab[i])
  {
  }

  lemma SceneIsOk(c: Scene)
    requires 0 < |c.b| && |c.done| == RADIX && !c.done[c.ss] && Bucketed(c.b, c.was, c.starts)
    ensures c.Ok()
  {
  }

  lemma ScannedBounds(c: Scene, p: seq<nat>, cs: seq<nat>, ce: seq<nat>, l: nat, r: nat)
    requires c.Ok() && Placed(c, p, cs, ce) && Scanned(c, p, cs, ce, l, r)
    ensures |c.starts| == BUCKETS + 1 && |cs| == |ce| == RADIX && c.First() <= l <= cs[c.ss] <= ce[c.ss] <= r <= c.End() <= |c.b| == |p|
  {
    BigBucket(c);
    Cursors(c, p, cs, ce);
  }

  /** copyStart and copyEnd, the latter with the last slot where the model has the end. */
  method CopyPlaces(ftab: array<nat>, ss: Byte, ghost c: Scene) returns (copyStart: array<nat>, copyEnd: array<int>)
    requires c.Ok() && c.ss == ss && c.starts == Starts(ftab[..])
    ensures fresh(copyStart) && fresh(copyEnd) && copyStart.Length == copyEnd.Length == RADIX
    ensures copyStart[..] == FirstCursors(c)
    ensures EndsAre(copyEnd[..], LastCursors(c))
  {
    hide Scene.Ok;
    BigBucket(c);
    copyStart, copyEnd := new nat[256], new int[256];
    for j := 0 to 256
      invariant forall t :: 0 <= t < j ==> copyStart[t] == FirstCursors(c)[t] && copyEnd[t] + 1 == LastCursors(c)[t]
    {
      copyStart[j] := Clear(ftab[j * 256 + ss]);
      copyEnd[j] := Clear(ftab[j * 256 + ss + 1]) - 1;
    }
  }

  // ----- Step 1 and the main loop -----

  /** Every bucket that is marked is sorted. */
  ghost predicate Marked(b: seq<Byte>, p: seq<nat>, ftab: seq<nat>, starts: seq<nat>) {
    && |ftab| == BUCKETS + 1 && Starts(ftab) == starts && Bucketed(b, p, starts)
    && forall s: nat :: s < BUCKETS && IsSet(ftab[s]) ==> SortedBucket(b, p, starts, s)
  }

  /** Any way of sorting rotations will do. */
  ghost predicate Sorts(b: seq<Byte>, sorter: seq<nat> -> seq<nat>) {
    forall q: seq<nat> :: InBlock(b, q) ==> InOrder(b, sorter(q)) && multiset(sorter(q)) == multiset(q)
  }

  lemma Mark(b: seq<Byte>, p: seq<nat>, ftab: seq<nat>, starts: seq<nat>, s: nat)
    requires Marked(b, p, ftab, starts) && s < BUCKETS && SortedBucket(b, p, starts, s)
    ensures Marked(b, p, ftab[s := Set(ftab[s])], starts)
  {
    hide SortedBucket, Bucketed, IsSet, Clear;
    var after := ftab[s := Set(ftab[s])];
    forall i | 0 <= i < |ftab| ensures Starts(after)[i] == Starts(ftab)[i] { SetKeeps(ftab[s]); }
    assert Starts(after) == Starts(ftab);
  }

  lemma SetKeeps(v: nat)
    ensures Clear(Set(v)) == Clear(v) && IsSet(Set(v))
  {
  }

  /** The slots of one bucket in another order. */
  ghost function Resorted(p: seq<nat>, lo: nat, q: seq<nat>): (p': seq<nat>)
    requires lo + |q| <= |p|
    ensures |p'| == |p|
  {
    p[..lo] + q + p[lo + |q|..]
  }

  lemma ResortKeeps(b: seq<Byte>, p: seq<nat>, starts: seq<nat>, s: nat, q: seq<nat>)
    requires Bucketed(b, p, starts) && s < BUCKETS && starts[s] <= starts[s + 1] <= |p|
    requires multiset(q) == multiset(p[starts[s]..starts[s + 1]]) && InOrder(b, q)
    ensures |q| == starts[s + 1] - starts[s]
    ensures Bucketed(b, Resorted(p, starts[s], q), starts) && SortedBucket(b, Resorted(p, starts[s], q), starts, s)
    ensures forall u: nat :: u < BUCKETS && u != s && SortedBucket(b, p, starts, u) ==> SortedBucket(b, Resorted(p, starts[s], q), starts, u)
  {
    hide Code, InOrder;
    var lo, hi := starts[s], starts[s + 1];
    assert |multiset(q)| == |q| && |multiset(p[lo..hi])| == hi - lo;
    var p' := Resorted(p, lo, q);
    assert p'[lo..hi] == q;
    ResortBucketed(b, p, starts, s, q);
    forall u: nat | u < BUCKETS && u != s && SortedBucket(b, p, starts, u) ensures SortedBucket(b, p', starts, u) {
      assert u < s ==> starts[u + 1] <= lo;
      assert p'[starts[u]..starts[u + 1]] == p[starts[u]..starts[u + 1]];
    }
  }

  lemma ResortBucketed(b: seq<Byte>, p: seq<nat>, starts: seq<nat>, s: nat, q: seq<nat>)
    requires Bucketed(b, p, starts) && s < BUCKETS && starts[s] <= starts[s + 1] <= |p|
    requires multiset(q) == multiset(p[starts[s]..starts[s + 1]]) && |q| == starts[s + 1] - starts[s]
    ensures Bucketed(b, Resorted(p, starts[s], q), starts)
  {
    hide Code;
    var lo, hi := starts[s], starts[s + 1];
    var p' := Resorted(p, lo, q);
    assert p == p[..lo] + p[lo..hi] + p[hi..];
    assert multiset(p') == multiset(p);
    MultisetKeepsPermutation(p, p');
    forall i | 0 <= i < |p'| ensures p'[i] < |b| && starts[Code(b, p'[i])] <= i < starts[Code(b, p'[i]) + 1] {
      if lo <= i < hi {
        assert p'[i] == q[i - lo] && q[i - lo] in multiset(q);
        assert p'[i] in p[lo..hi];
        var j :| 0 <= j < hi - lo && p[lo..hi][j] == p'[i];
        CodeOfSlot(b, p, starts, lo + j, s);
      }
    }
  }

  /** Put q into the slots from lo on. */
  method Store(ptr: array<nat>, lo: nat, q: seq<nat>)
    requires lo + |q| <= ptr.Length
    modifies ptr
    ensures ptr[..] == Resorted(old(ptr[..]), lo, q)
  {
    ghost var p := ptr[..];
    for i := 0 to |q|
      invariant ptr[..] == p[..lo] + q[..i] + p[lo + i..]
    {
      ptr[lo + i] := q[i];
      StoredOne(p, lo, q, i);
    }
    assert q[..|q|] == q;
  }

  lemma StoredOne(p: seq<nat>, lo: nat, q: seq<nat>, i: nat)
    requires i < |q| && lo + |q| <= |p|
    ensures (p[..lo] + q[..i] + p[lo + i..])[lo + i := q[i]] == p[..lo] + q[..i + 1] + p[lo + (i + 1)..]
  {
  }

  /** What is left to do in step 1 after j buckets. */
  ghost predicate MarkedBelow(ftab: seq<nat>, ss: Byte, j: nat) {
    |ftab| == BUCKETS + 1 && j <= RADIX && forall i :: RADIX * ss <= i < RADIX * ss + j && i != RADIX * ss + ss ==> IsSet(ftab[i])
  }

  ghost predicate StaysMarked(before: seq<nat>, after: seq<nat>) {
    |before| == |after| && forall i :: 0 <= i < |before| && IsSet(before[i]) ==> IsSet(after[i])
  }

  /** Step 1: sort the small buckets of the big bucket ss that are not sorted yet, whichever way. */
  method SortSmallBuckets(ptr: array<nat>, block: array<Byte>, ftab: array<nat>, ss: Byte, sorter: seq<nat> -> seq<nat>, ghost starts: seq<nat>)
    requires ptr != ftab && Sorts(block[..], sorter) && Marked(block[..], ptr[..], ftab[..], starts)
    modifies ptr, ftab
    ensures Marked(block[..], ptr[..], ftab[..], starts)
    ensures MarkedBelow(ftab[..], ss, RADIX) && StaysMarked(old(ftab[..]), ftab[..])
  {
    hide Bucketed, SortedBucket, InOrder, Clear, IsSet, Set, Sorts, Starts, Code, Resorted, Marked, MarkedBelow, StaysMarked;
    ghost var b := block[..];
    NothingMarked(ftab[..], ss, b, ptr[..], starts);
    for j := 0 to 256
      invariant Marked(b, ptr[..], ftab[..], starts)
      invariant MarkedBelow(ftab[..], ss, j) && StaysMarked(old(ftab[..]), ftab[..])
    {
      if j != ss {
        var sb := RADIX * ss + j;
        MarkedAt(b, ptr[..], ftab[..], starts, sb);
        if !IsSet(ftab[sb]) {
          var lo, hi: int := Clear(ftab[sb]), Clear(ftab[sb + 1]) - 1;
          if hi > lo {
            SortAnyWay(b, ptr[..], ftab[..], starts, sb, sorter);
            Store(ptr, lo, sorter(ptr[lo..hi + 1]));
          } else {
            FewInOrder(b, ptr[..], starts, sb);
          }
        }
        Mark(b, ptr[..], ftab[..], starts, sb);
        MarkMore(old(ftab[..]), ftab[..], ss, j);
        ftab[sb] := Set(ftab[sb]);
      } else {
        OwnIsLeft(ftab[..], ss);
      }
    }
  }

  lemma OwnIsLeft(ftab: seq<nat>, ss: Byte)
    requires MarkedBelow(ftab, ss, ss)
    ensures MarkedBelow(ftab, ss, ss + 1)
  {
  }

  lemma NothingMarked(ftab: seq<nat>, ss: Byte, b: seq<Byte>, p: seq<nat>, starts: seq<nat>)
    requires Marked(b, p, ftab, starts)
    ensures |ftab| == BUCKETS + 1 && MarkedBelow(ftab, ss, 0) && StaysMarked(ftab, ftab)
  {
  }

  lemma MarkMore(before: seq<nat>, ftab: seq<nat>, ss: Byte, j: nat)
    requires j < RADIX && MarkedBelow(ftab, ss, j) && StaysMarked(before, ftab)
    ensures MarkedBelow(ftab[RADIX * ss + j := Set(ftab[RADIX * ss + j])], ss, j + 1)
    ensures StaysMarked(before, ftab[RADIX * ss + j := Set(ftab[RADIX * ss + j])])
  {
    hide IsSet, Set;
  }

  lemma MarkedAt(b: seq<Byte>, p: seq<nat>, ftab: seq<nat>, starts: seq<nat>, s: nat)
    requires Marked(b, p, ftab, starts) && s < BUCKETS
    ensures |ftab| == |starts| == BUCKETS + 1 && Clear(ftab[s]) == starts[s] <= starts[s + 1] == Clear(ftab[s + 1]) <= |p|
    ensures IsSet(ftab[s]) ==> SortedBucket(b, p, starts, s)
    ensures Bucketed(b, p, starts) && InBlock(b, p)
  {
    hide SortedBucket, Clear, IsSet, Code;
    assert Starts(ftab)[s] == starts[s] && Starts(ftab)[s + 1] == starts[s + 1];
    assert starts[s + 1] <= starts[BUCKETS];
  }

  lemma SortAnyWay(b: seq<Byte>, p: seq<nat>, ftab: seq<nat>, starts: seq<nat>, s: nat, sorter: seq<nat> -> seq<nat>)
    requires Marked(b, p, ftab, starts) && s < BUCKETS && Sorts(b, sorter)
    ensures |starts| == BUCKETS + 1 && starts[s] <= starts[s + 1] <= |p| && |sorter(p[starts[s]..starts[s + 1]])| == starts[s + 1] - starts[s]
    ensures Marked(b, Resorted(p, starts[s], sorter(p[starts[s]..starts[s + 1]])), ftab, starts)
    ensures SortedBucket(b, Resorted(p, starts[s], sorter(p[starts[s]..starts[s + 1]])), starts, s)
  {
    hide SortedBucket, Clear, IsSet, Code, Bucketed, InOrder, Resorted;
    MarkedAt(b, p, ftab, starts, s);
    var q := p[starts[s]..starts[s + 1]];
    assert InBlock(b, q);
    ResortKeeps(b, p, starts, s, sorter(q));
  }

  lemma FewInOrder(b: seq<Byte>, p: seq<nat>, starts: seq<nat>, s: nat)
    requires Bucketed(b, p, starts) && s < BUCKETS && starts[s + 1] <= starts[s] + 1
    ensures SortedBucket(b, p, starts, s)
  {
    hide Code;
    assert starts[s + 1] <= starts[BUCKETS];
  }

  /** All small buckets of a big bucket that is done are marked. */
  ghost predicate DoneAreMarked(ftab: seq<nat>, done: seq<bool>) {
    |ftab| == BUCKETS + 1 && |done| == RADIX && forall i :: 0 <= i < BUCKETS && done[i / RADIX] ==> IsSet(ftab[i])
  }

  lemma DoneStayMarked(before: seq<nat>, after: seq<nat>, done: seq<bool>)
    requires DoneAreMarked(before, done) && StaysMarked(before, after)
    ensures DoneAreMarked(after, done)
  {
    hide IsSet;
  }

  /** Before step 2 the small buckets of ss, but for [ss, ss], are sorted. */
  lemma ReadyToScan(b: seq<Byte>, p: seq<nat>, ftab: seq<nat>, starts: seq<nat>, done: seq<bool>, ss: Byte)
    requires Marked(b, p, ftab, starts) && MarkedBelow(ftab, ss, RADIX)
    ensures SmallInOrder(Scene(b, starts, ss, done, p), p) && Bucketed(b, p, starts) && Starts(ftab) == starts
  {
    hide SortedBucket, Bucketed, IsSet, Starts;
  }

  /** Step 2 keeps sorted what is marked, and sorts what it is about to mark. */
  lemma AfterScan(b: seq<Byte>, p: seq<nat>, p': seq<nat>, ftab: seq<nat>, starts: seq<nat>, done: seq<bool>, ss: Byte)
    requires Marked(b, p, ftab, starts) && DoneAreMarked(ftab, done) && Bucketed(b, p', starts) && InBlock(b, p)
    requires forall t: Byte :: !done[t] ==> SortedBucket(b, p', starts, RADIX * t + ss)
    requires |p'| == |p| && forall i :: 0 <= i < |p'| ==> var s := Code(b, p[i]); s % RADIX != ss || done[s / RADIX] ==> p'[i] == p[i]
    ensures Marked(b, p', ftab, starts) && forall t: Byte :: SortedBucket(b, p', starts, RADIX * t + ss)
  {
    hide SortedBucket, Bucketed, IsSet, Starts, Code;
    forall s: nat | s < BUCKETS && IsSet(ftab[s]) ensures SortedBucket(b, p', starts, s) {
      if s % RADIX == ss && !done[s / RADIX] {
        assert s == RADIX * (s / RADIX) + ss;
      } else {
        BucketKept(b, p, p', starts, s);
      }
    }
    forall t: Byte ensures SortedBucket(b, p', starts, RADIX * t + ss) {
      if done[t] { assert (RADIX * t + ss) / RADIX == t; }
    }
  }

  lemma BucketKept(b: seq<Byte>, p: seq<nat>, p': seq<nat>, starts: seq<nat>, s: nat)
    requires Bucketed(b, p, starts) && SortedBucket(b, p, starts, s) && |p'| == |p|
    requires forall i :: 0 <= i < |p| ==> p[i] < |b| && (Code(b, p[i]) == s ==> p'[i] == p[i])
    ensures SortedBucket(b, p', starts, s)
  {
    hide Code, InOrder;
    var lo, hi := starts[s], starts[s + 1];
    forall i: nat | lo <= i < hi ensures p'[i] == p[i] { CodeOfSlot(b, p, starts, i, s); }
    assert p'[lo..hi] == p[lo..hi];
  }

  /** Mark the small buckets [j, ss], and with them ss is done. */
  method MarkColumn(ftab: array<nat>, ss: Byte, ghost b: seq<Byte>, ghost p: seq<nat>, ghost starts: seq<nat>, ghost done: seq<bool>)
    requires Marked(b, p, ftab[..], starts) && DoneAreMarked(ftab[..], done) && MarkedBelow(ftab[..], ss, RADIX)
    requires forall t: Byte :: SortedBucket(b, p, starts, RADIX * t + ss)
    modifies ftab
    ensures Marked(b, p, ftab[..], starts) && DoneAreMarked(ftab[..], done[ss as int := true])
  {
    hide Bucketed, SortedBucket, Clear, IsSet, Set, Starts, Marked, MarkedBelow, DoneAreMarked, StaysMarked;
    ghost var before := ftab[..];
    NothingMarked(before, ss, b, p, starts);
    for j := 0 to 256
      invariant Marked(b, p, ftab[..], starts) && StaysMarked(before, ftab[..])
      invariant forall k :: 0 <= k < j ==> ftab.Length == BUCKETS + 1 && IsSet(ftab[RADIX * k + ss])
    {
      var sb := RADIX * j + ss;
      MarkedAt(b, p, ftab[..], starts, sb);
      Mark(b, p, ftab[..], starts, sb);
      MarkStays(before, ftab[..], sb);
      ftab[sb] := Set(ftab[sb]);
    }
    ColumnDone(before, ftab[..], done, ss);
  }

  lemma MarkStays(before: seq<nat>, ftab: seq<nat>, i: nat)
    requires StaysMarked(before, ftab) && i < |ftab|
    ensures StaysMarked(before, ftab[i := Set(ftab[i])])
  {
    hide IsSet, Set;
  }

  lemma ColumnDone(before: seq<nat>, after: seq<nat>, done: seq<bool>, ss: Byte)
    requires DoneAreMarked(before, done) && MarkedBelow(before, ss, RADIX) && StaysMarked(before, after)
    requires |after| == BUCKETS + 1 && IsSet(after[RADIX * ss + ss])
    ensures DoneAreMarked(after, done[ss as int := true])
  {
    hide IsSet;
  }

  ghost predicate DoneFirst(done: seq<bool>, order: seq<nat>, i: nat) {
    |done| == |order| == RADIX && IsPermutation(order) && i <= RADIX && forall t: Byte :: done[t] <==> t in order[..i]
  }

  /** From sorted small buckets to sorted rotations, one big bucket after the other in any order. */
  method SortBigBuckets(ptr: array<nat>, block: array<Byte>, ftab: array<nat>, runningOrder: seq<nat>, sorter: seq<nat> -> seq<nat>,
                        ghost starts: seq<nat>)
    requires ptr != ftab && 0 < block.Length && Sorts(block[..], sorter) && |runningOrder| == RADIX && IsPermutation(runningOrder)
    requires Marked(block[..], ptr[..], ftab[..], starts)
    modifies ptr, ftab
    ensures SortedRotations(block[..], ptr[..])
  {
    hide Bucketed, SortedBucket, Clear, IsSet, Set, Starts, Marked, MarkedBelow, DoneAreMarked, StaysMarked, Sorts, Code, InOrder, InBlock,
      SmallInOrder, DoneFirst, SortedRotations, IsPermutation;
    var bigDone := new bool[256](_ => false);
    NoneDone(bigDone[..], runningOrder, ftab[..], block[..], ptr[..], starts);
    for i := 0 to 256
      invariant Marked(block[..], ptr[..], ftab[..], starts) && DoneAreMarked(ftab[..], bigDone[..]) && DoneFirst(bigDone[..], runningOrder, i)
    {
      NotDoneYet(bigDone[..], runningOrder, i);
      var ss: Byte := runningOrder[i];
      ghost var f := ftab[..];
      SortSmallBuckets(ptr, block, ftab, ss, sorter, starts);
      DoneStayMarked(f, ftab[..], bigDone[..]);
      // assertion 1006
      assert !bigDone[ss];
      ReadyToScan(block[..], ptr[..], ftab[..], starts, bigDone[..], ss);
      ghost var p := ptr[..];
      PointerScan(ptr, block, ftab, bigDone, ss);
      AfterScan(block[..], p, ptr[..], ftab[..], starts, bigDone[..], ss);
      MarkColumn(ftab, ss, block[..], ptr[..], starts, bigDone[..]);
      ghost var done := bigDone[..];
      bigDone[ss] := true;
      assert bigDone[..] == done[ss as int := true];
    }
    AllSorted(block[..], ptr[..], ftab[..], starts, bigDone[..], runningOrder);
  }

  lemma NoneDone(done: seq<bool>, order: seq<nat>, ftab: seq<nat>, b: seq<Byte>, p: seq<nat>, starts: seq<nat>)
    requires |done| == |order| == RADIX && IsPermutation(order) && (forall t :: 0 <= t < RADIX ==> !done[t]) && Marked(b, p, ftab, starts)
    ensures DoneFirst(done, order, 0) && DoneAreMarked(ftab, done)
  {
  }

  lemma NotDoneYet(done: seq<bool>, order: seq<nat>, i: nat)
    requires DoneFirst(done, order, i) && i < RADIX
    ensures |done| == |order| == RADIX && order[i] < RADIX && !done[order[i]] && DoneFirst(done[order[i] as int := true], order, i + 1)
  {
    assert order[..i + 1] == order[..i] + [order[i]];
  }

  /** All big buckets are done, so all small buckets are sorted, and so is the whole. */
  lemma AllSorted(b: seq<Byte>, p: seq<nat>, ftab: seq<nat>, starts: seq<nat>, done: seq<bool>, order: seq<nat>)
    requires Marked(b, p, ftab, starts) && DoneAreMarked(ftab, done) && DoneFirst(done, order, RADIX)
    ensures SortedRotations(b, p)
  {
    hide SortedBucket, IsSet, Starts, Code;
    forall t: Byte ensures done[t] { PermutationCovers(order, t); assert order[..RADIX] == order; }
    forall s: nat | s < BUCKETS ensures SortedBucket(b, p, starts, s) { assert done[s / RADIX]; }
    forall i, j | 0 <= i < j < |b| ensures !Less(b, p[j], p[i], |b|) { SlotsInOrder(b, p, starts, i, j); }
  }

  lemma SlotsInOrder(b: seq<Byte>, p: seq<nat>, starts: seq<nat>, i: nat, j: nat)
    requires Bucketed(b, p, starts) && (forall s: nat :: s < BUCKETS ==> SortedBucket(b, p, starts, s)) && i < j < |b|
    ensures !Less(b, p[j], p[i], |b|)
  {
    hide Less, Code;
    CodesAscend(b, p, starts, i, j);
    var s, t := Code(b, p[i]), Code(b, p[j]);
    if s == t { SlotsInBucket(b, p, starts, i, j, s); } else { LessByCode(b, p[i], p[j]); }
  }

  lemma CodesAscend(b: seq<Byte>, p: seq<nat>, starts: seq<nat>, i: nat, j: nat)
    requires Bucketed(b, p, starts) && i < j < |b|
    ensures Code(b, p[i]) <= Code(b, p[j])
    ensures starts[Code(b, p[i])] <= i < starts[Code(b, p[i]) + 1] && starts[Code(b, p[j])] <= j < starts[Code(b, p[j]) + 1]
  {
    hide Code;
  }

  lemma SlotsInBucket(b: seq<Byte>, p: seq<nat>, starts: seq<nat>, i: nat, j: nat, s: nat)
    requires SortedBucket(b, p, starts, s) && starts[s] <= i < j < starts[s + 1]
    ensures p[i] < |b| && p[j] < |b| && !Less(b, p[j], p[i], |b|)
  {
    var q := p[starts[s]..starts[s + 1]];
    assert q[i - starts[s]] == p[i] && q[j - starts[s]] == p[j];
  }

  lemma LessByCode(b: seq<Byte>, x: nat, y: nat)
    requires x < |b| && y < |b| && Code(b, x) < Code(b, y)
    ensures !Less(b, y, x, |b|)
  {
    if b[x] == b[y] { LessBySecond(b, x, y, |b|); }
  }
}
