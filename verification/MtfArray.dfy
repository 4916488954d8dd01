/** The fast list of the decoder: 16 segments of 16 bytes that slide down a buffer of 4096,
    and are packed at its top again when the first segment reaches the bottom. */
module MtfArray {
  import opened Sequences
  import opened MoveToFront

  const MTFA_SIZE := 4096
  const MTFL_SIZE := 16
  const SEGMENTS := 16

  /** The segments lie in the buffer in order and do not overlap. */
  ghost predicate Segmented(a: seq<nat>, bases: seq<int>) {
    && |a| == MTFA_SIZE && |bases| == SEGMENTS
    && (forall s :: 0 <= s < SEGMENTS ==> 0 <= bases[s] <= MTFA_SIZE - MTFL_SIZE)
    && (forall s :: 0 <= s < SEGMENTS - 1 ==> bases[s] + MTFL_SIZE <= bases[s + 1])
  }

  /** Every segment lies at or below its place when packed, and above those before it. */
  lemma {:induction false} SegmentBounds(a: seq<nat>, bases: seq<int>, s: int)
    requires Segmented(a, bases) && 0 <= s < SEGMENTS
    ensures MTFL_SIZE * s <= bases[s] <= MTFA_SIZE - MTFL_SIZE * (SEGMENTS - s)
  {
    SegmentAbove(a, bases, s);
    SegmentBelow(a, bases, s);
  }

  lemma {:induction false} SegmentAbove(a: seq<nat>, bases: seq<int>, s: int)
    requires Segmented(a, bases) && 0 <= s < SEGMENTS
    ensures MTFL_SIZE * s <= bases[s]
    decreases s
  {
    if s > 0 { SegmentAbove(a, bases, s - 1); }
  }

  lemma {:induction false} SegmentBelow(a: seq<nat>, bases: seq<int>, s: int)
    requires Segmented(a, bases) && 0 <= s < SEGMENTS
    ensures bases[s] <= MTFA_SIZE - MTFL_SIZE * (SEGMENTS - s)
    decreases SEGMENTS - s
  {
    if s < SEGMENTS - 1 { SegmentBelow(a, bases, s + 1); }
  }

  /** The list that the segments hold. */
  ghost function Listed(a: seq<nat>, bases: seq<int>): (y: seq<nat>)
    requires Segmented(a, bases)
    ensures |y| == 256
  {
    seq(256, k requires 0 <= k < 256 => ItemAt(a, bases, k))
  }

  ghost function ItemAt(a: seq<nat>, bases: seq<int>, k: int): nat
    requires Segmented(a, bases) && 0 <= k < 256
  {
    SegmentBounds(a, bases, k / MTFL_SIZE);
    a[bases[k / MTFL_SIZE] + k % MTFL_SIZE]
  }

  /** Where segment s starts when packed. */
  function Packed(s: int): int {
    MTFA_SIZE - MTFL_SIZE * (SEGMENTS - s)
  }

  /** The items after place kk of the buffer have been packed, from the segments of a0 at bases0. */
  ghost predicate Packing(a0: seq<nat>, bases0: seq<int>, a: seq<nat>, bases: seq<int>, kk: int, ii: int) {
    && Segmented(a0, bases0) && |a| == MTFA_SIZE && |bases| == SEGMENTS
    && -1 <= ii < SEGMENTS && Packed(0) - 1 <= kk < MTFA_SIZE
    && (forall t :: 0 <= t <= ii ==> bases[t] == bases0[t])
    && (forall t :: ii < t < SEGMENTS ==> bases[t] == Packed(t))
    && (forall p :: 0 <= p <= kk ==> a[p] == a0[p])
    && (forall p :: kk < p < MTFA_SIZE ==> a[p] == ItemAt(a0, bases0, p - Packed(0)))
  }

  /** The item that goes to kk has not been overwritten yet. */
  lemma PackOne(a0: seq<nat>, bases0: seq<int>, a: seq<nat>, bases: seq<int>, kk: int, ii: int, jj: int)
    requires Packing(a0, bases0, a, bases, kk, ii) && 0 <= ii && 0 <= jj < MTFL_SIZE && kk == Packed(ii) + jj
    ensures 0 <= bases[ii] + jj <= kk
    ensures Packing(a0, bases0, a[kk := a[bases[ii] + jj]], bases, kk - 1, ii)
  {
    SegmentBounds(a0, bases0, ii);
    assert (kk - Packed(0)) / MTFL_SIZE == ii && (kk - Packed(0)) % MTFL_SIZE == jj;
  }

  lemma PackedAll(a0: seq<nat>, bases0: seq<int>, a: seq<nat>, bases: seq<int>)
    requires Packing(a0, bases0, a, bases, Packed(0) - 1, -1)
    ensures Segmented(a, bases) && Listed(a, bases) == Listed(a0, bases0)
  {
    forall k | 0 <= k < 256 ensures ItemAt(a, bases, k) == ItemAt(a0, bases0, k) {
      assert bases[k / MTFL_SIZE] + k % MTFL_SIZE == Packed(0) + k;
    }
  }

  lemma PackingStarts(a0: seq<nat>, bases0: seq<int>)
    requires Segmented(a0, bases0)
    ensures Packing(a0, bases0, a0, bases0, MTFA_SIZE - 1, SEGMENTS - 1)
  {
  }

  lemma SegmentPacked(a0: seq<nat>, bases0: seq<int>, a: seq<nat>, bases: seq<int>, ii: int)
    requires 0 <= ii && Packing(a0, bases0, a, bases, Packed(ii) - 1, ii)
    ensures Packing(a0, bases0, a, bases[ii := Packed(ii)], Packed(ii) - 1, ii - 1)
  {
  }

  /** Pack segment ii, from its last item down. */
  method PackSegment(mtfa: array<nat>, mtfbase: array<int>, ii: int, ghost a0: seq<nat>, ghost bases0: seq<int>)
    requires mtfa as object != mtfbase && 0 <= ii < SEGMENTS == mtfbase.Length && mtfa.Length == MTFA_SIZE
    requires Packing(a0, bases0, mtfa[..], mtfbase[..], Packed(ii + 1) - 1, ii)
    modifies mtfa, mtfbase
    ensures Packing(a0, bases0, mtfa[..], mtfbase[..], Packed(ii) - 1, ii - 1)
    ensures mtfbase[ii] == Packed(ii)
  {
    hide Packing;
    var kk := Packed(ii + 1) - 1;
    var jj := MTFL_SIZE - 1;
    ghost var bases := mtfbase[..];
    while jj >= 0
      invariant -1 <= jj < MTFL_SIZE && kk == Packed(ii) + jj && mtfbase[..] == bases
      invariant Packing(a0, bases0, mtfa[..], bases, kk, ii)
    {
      PackOne(a0, bases0, mtfa[..], bases, kk, ii, jj);
      mtfa[kk] := mtfa[mtfbase[ii] + jj];
      kk := kk - 1;
      jj := jj - 1;
    }
    SegmentPacked(a0, bases0, mtfa[..], bases, ii);
    mtfbase[ii] := kk + 1;
  }

  /** Move the segments, which have slid down, back to the top of the buffer. */
  method Repack(mtfa: array<nat>, mtfbase: array<int>)
    requires mtfa as object != mtfbase && Segmented(mtfa[..], mtfbase[..])
    modifies mtfa, mtfbase
    ensures Segmented(mtfa[..], mtfbase[..]) && mtfbase[0] == Packed(0)
    ensures Listed(mtfa[..], mtfbase[..]) == old(Listed(mtfa[..], mtfbase[..]))
  {
    ghost var a0, bases0 := mtfa[..], mtfbase[..];
    PackingStarts(a0, bases0);
    var ii := SEGMENTS - 1;
    while ii >= 0
      invariant -1 <= ii < SEGMENTS && (ii < 0 ==> mtfbase[0] == Packed(0))
      invariant Packing(a0, bases0, mtfa[..], mtfbase[..], Packed(ii + 1) - 1, ii)
    {
      PackSegment(mtfa, mtfbase, ii, a0, bases0);
      ii := ii - 1;
    }
    PackedAll(a0, bases0, mtfa[..], mtfbase[..]);
  }

  /** The items before place pp of a stretch from lo have moved up by one. */
  ghost predicate Shifted(a0: seq<nat>, a: seq<nat>, lo: int, pp: int, hi: int) {
    && |a| == |a0| && 0 <= lo <= pp <= hi < |a|
    && (forall p :: pp < p <= hi ==> a[p] == a0[p - 1])
    && (forall p :: 0 <= p < |a| && !(pp < p <= hi) ==> a[p] == a0[p])
  }

  lemma ShiftOne(a0: seq<nat>, a: seq<nat>, lo: int, pp: int, hi: int)
    requires Shifted(a0, a, lo, pp, hi) && lo < pp
    ensures Shifted(a0, a[pp := a[pp - 1]], lo, pp - 1, hi)
  {
  }

  /** Shift mtfa[lo..hi) up by one, from the end, a[hi] being overwritten. */
  method ShiftUp(mtfa: array<nat>, lo: int, hi: int)
    requires 0 <= lo <= hi < mtfa.Length
    modifies mtfa
    ensures Shifted(old(mtfa[..]), mtfa[..], lo, lo, hi)
  {
    var pp := hi;
    while pp > lo
      invariant lo <= pp <= hi && Shifted(old(mtfa[..]), mtfa[..], lo, pp, hi)
    {
      ShiftOne(old(mtfa[..]), mtfa[..], lo, pp, hi);
      mtfa[pp] := mtfa[pp - 1];
      pp := pp - 1;
    }
  }

  /** The same shift from place pp, four items at a time while there are more than three. */
  method ShiftUpByFours(mtfa: array<nat>, pp: int, n: nat)
    requires 0 <= pp && pp + n < mtfa.Length
    modifies mtfa
    ensures Shifted(old(mtfa[..]), mtfa[..], pp, pp, pp + n)
  {
    var nn := n;
    ghost var a0 := mtfa[..];
    while nn > 3
      invariant 0 <= nn <= n && Shifted(a0, mtfa[..], pp, pp + nn, pp + n)
    {
      var z := pp + nn;
      ghost var a := mtfa[..];
      mtfa[z] := mtfa[z - 1];
      mtfa[z - 1] := mtfa[z - 2];
      mtfa[z - 2] := mtfa[z - 3];
      mtfa[z - 3] := mtfa[z - 4];
      nn := nn - 4;
    }
    while nn > 0
      invariant 0 <= nn <= n && Shifted(a0, mtfa[..], pp, pp + nn, pp + n)
    {
      ShiftOne(a0, mtfa[..], pp, pp + nn, pp + n);
      mtfa[pp + nn] := mtfa[pp + nn - 1];
      nn := nn - 1;
    }
  }

  /** Moving an item within the first segment. */
  lemma FrontSegmentMoves(a0: seq<nat>, a: seq<nat>, bases: seq<int>, nn: nat)
    requires Segmented(a0, bases) && nn < MTFL_SIZE && Shifted(a0, a, bases[0], bases[0], bases[0] + nn)
    ensures var a' := a[bases[0] := a0[bases[0] + nn]];
            Segmented(a', bases) && Listed(a', bases) == ToFront(Listed(a0, bases), nn)
  {
    var a' := a[bases[0] := a0[bases[0] + nn]];
    var y := Listed(a0, bases);
    forall k | 0 <= k < 256 ensures ItemAt(a', bases, k) == ToFront(y, nn)[k] {
      SegmentBounds(a0, bases, k / MTFL_SIZE);
      if k >= MTFL_SIZE { LaterSegment(bases, 0, k / MTFL_SIZE); }
      ToFrontAt(y, nn, k);
    }
  }

  lemma ToFrontAt<T>(y: seq<T>, j: nat, k: nat)
    requires j < |y| && k < |y|
    ensures ToFront(y, j)[k] == if k == 0 then y[j] else if k <= j then y[k - 1] else y[k]
  {
  }

  lemma {:induction false} LaterSegment(bases: seq<int>, s: int, t: int)
    requires |bases| == SEGMENTS && 0 <= s < t < SEGMENTS
    requires forall s :: 0 <= s < SEGMENTS - 1 ==> bases[s] + MTFL_SIZE <= bases[s + 1]
    ensures bases[s] + MTFL_SIZE <= bases[t]
    decreases t
  {
    if s < t - 1 { LaterSegment(bases, s, t - 1); }
  }

  /** Item off of segment lno is on its way to the front: the last items of segments l to lno-1
      have each moved to the next segment, and the segments between have slid down by one. */
  ghost predicate Sliding(a0: seq<nat>, b0: seq<int>, a: seq<nat>, b: seq<int>, lno: int, off: int, l: int) {
    && Segmented(a0, b0) && 0 < lno < SEGMENTS && 0 <= off < MTFL_SIZE && 0 <= l <= lno
    && |a| == MTFA_SIZE && |b| == SEGMENTS
    && (forall t :: 0 <= t < SEGMENTS ==>
          b[t] == if l < t < lno then b0[t] - 1 else if t == lno && l == lno then b0[t] + 1 else b0[t])
    && (forall p :: 0 <= p < (if l == lno then b0[lno] else b0[l] + MTFL_SIZE - 1) ==> a[p] == a0[p])
    && (forall t :: l < t < lno ==> SlidSegment(a0, b0, a, t))
    && (l < lno ==> a[b0[lno]] == a0[b0[lno - 1] + MTFL_SIZE - 1])
    && (forall r :: b0[lno] < r <= b0[lno] + off ==> a[r] == a0[r - 1])
    && (forall p :: b0[lno] + off < p < MTFA_SIZE ==> a[p] == a0[p])
  }

  /** Segment t now starts one lower, with the last item of the segment before it. */
  ghost predicate SlidSegment(a0: seq<nat>, b0: seq<int>, a: seq<nat>, t: int)
    requires Segmented(a0, b0) && |a| == MTFA_SIZE && 0 < t < SEGMENTS
  {
    SegmentBounds(a0, b0, t);
    && a[b0[t] - 1] == a0[b0[t - 1] + MTFL_SIZE - 1]
    && forall p :: b0[t] <= p < b0[t] + MTFL_SIZE - 1 ==> a[p] == a0[p]
  }

  lemma SlideOne(a0: seq<nat>, b0: seq<int>, a: seq<nat>, b: seq<int>, lno: int, off: int, l: int)
    requires Sliding(a0, b0, a, b, lno, off, l) && l > 0
    ensures 0 <= b[l] - 1 < MTFA_SIZE && 0 <= b[l - 1] + MTFL_SIZE - 1 < MTFA_SIZE
    ensures Sliding(a0, b0, a[b[l] - 1 := a[b[l - 1] + MTFL_SIZE - 1]], b[l := b[l] - 1], lno, off, l - 1)
  {
    if l < lno { LaterSegment(b0, l, lno); }
    LaterSegment(b0, 0, l);
    var at := b[l] - 1;
    var a' := a[at := a[b[l - 1] + MTFL_SIZE - 1]];
    forall t | l - 1 < t < lno ensures SlidSegment(a0, b0, a', t) {
      if t > l {
        assert SlidSegment(a0, b0, a, t);
        LaterSegment(b0, l, t);
      }
    }
  }

  lemma SlidBases(a0: seq<nat>, b0: seq<int>, a: seq<nat>, b: seq<int>, lno: int, off: int)
    requires Sliding(a0, b0, a, b, lno, off, 0) && b0[0] > 0
    ensures b[0] == b0[0] && Segmented(a, b[0 := b[0] - 1])
  {
    var b' := b[0 := b[0] - 1];
    forall t | 0 <= t < SEGMENTS ensures 0 <= b'[t] <= MTFA_SIZE - MTFL_SIZE {
      if t > 0 { LaterSegment(b0, 0, t); }
    }
  }

  /** Once every segment has slid the item can be put in front. */
  lemma SlidToFront(a0: seq<nat>, b0: seq<int>, a: seq<nat>, b: seq<int>, lno: int, off: int)
    requires Sliding(a0, b0, a, b, lno, off, 0) && b0[0] > 0 && b[0] == b0[0]
    ensures var uc := ItemAt(a0, b0, MTFL_SIZE * lno + off);
            var a', b' := a[b[0] - 1 := uc], b[0 := b[0] - 1];
            && Segmented(a', b')
            && Listed(a', b') == ToFront(Listed(a0, b0), MTFL_SIZE * lno + off)
  {
    hide ItemAt;
    SlidBases(a0, b0, a, b, lno, off);
    var nn := MTFL_SIZE * lno + off;
    var a', b' := a[b[0] - 1 := ItemAt(a0, b0, nn)], b[0 := b[0] - 1];
    var y := Listed(a0, b0);
    forall k | 0 <= k < 256 ensures ItemAt(a', b', k) == ToFront(y, nn)[k] {
      ToFrontAt(y, nn, k);
      SlidItem(a0, b0, a, b, lno, off, k);
    }
  }

  lemma SlidItem(a0: seq<nat>, b0: seq<int>, a: seq<nat>, b: seq<int>, lno: int, off: int, k: nat)
    requires Sliding(a0, b0, a, b, lno, off, 0) && b0[0] > 0 && b[0] == b0[0] && k < 256
    requires Segmented(a, b[0 := b[0] - 1])
    ensures var uc := ItemAt(a0, b0, MTFL_SIZE * lno + off);
            var a', b' := a[b[0] - 1 := uc], b[0 := b[0] - 1];
            ItemAt(a', b', k) == if k == 0 then uc
                                 else if k <= MTFL_SIZE * lno + off then ItemAt(a0, b0, k - 1) else ItemAt(a0, b0, k)
  {
    var t, r := k / MTFL_SIZE, k % MTFL_SIZE;
    if t > 0 { LaterSegment(b0, 0, t); }
    if k > 0 {
      assert (k - 1) / MTFL_SIZE == (if r == 0 then t - 1 else t);
      assert (k - 1) % MTFL_SIZE == (if r == 0 then MTFL_SIZE - 1 else r - 1);
    }
    if t < lno {
      LaterSegment(b0, t, lno);
      if t > 0 { assert SlidSegment(a0, b0, a, t); }
    } else if t > lno {
      LaterSegment(b0, lno, t);
    }
  }

  lemma SlidingStarts(a0: seq<nat>, b0: seq<int>, a: seq<nat>, lno: int, off: int)
    requires Segmented(a0, b0) && 0 < lno < SEGMENTS && 0 <= off < MTFL_SIZE
    requires Shifted(a0, a, b0[lno], b0[lno], b0[lno] + off)
    ensures Sliding(a0, b0, a, b0[lno := b0[lno] + 1], lno, off, lno)
  {
  }

  /** Slide the segments before segment far down, passing the last item of each to the next. */
  method Slide(mtfa: array<nat>, mtfbase: array<int>, far: nat, ghost a0: seq<nat>, ghost b0: seq<int>, ghost off: nat)
    requires mtfa as object != mtfbase && mtfa.Length == MTFA_SIZE && mtfbase.Length == SEGMENTS
    requires far < SEGMENTS && Sliding(a0, b0, mtfa[..], mtfbase[..], far, off, far)
    modifies mtfa, mtfbase
    ensures Sliding(a0, b0, mtfa[..], mtfbase[..], far, off, 0)
  {
    hide Sliding;
    var lno := far;
    while lno > 0
      invariant 0 <= lno <= far && Sliding(a0, b0, mtfa[..], mtfbase[..], far, off, lno)
    {
      SlideOne(a0, b0, mtfa[..], mtfbase[..], far, off, lno);
      mtfbase[lno] := mtfbase[lno] - 1;
      mtfa[mtfbase[lno]] := mtfa[mtfbase[lno - 1] + MTFL_SIZE - 1];
      lno := lno - 1;
    }
  }

  /** The arrays of the decoder that hold the list. */
  class MtfList {
    const mtfa: array<nat>
    const mtfbase: array<int>

    ghost predicate Valid()
      reads mtfa, mtfbase
    {
      mtfa as object != mtfbase && Segmented(mtfa[..], mtfbase[..]) && mtfbase[0] > 0
    }

    ghost function Contents(): (y: seq<nat>)
      requires Valid()
      reads mtfa, mtfbase
      ensures |y| == 256
    {
      Listed(mtfa[..], mtfbase[..])
    }

    /** The list starts as 0, 1, ... 255, packed at the top. */
    constructor ()
      ensures Valid() && fresh(mtfa) && fresh(mtfbase)
      ensures Contents() == Iota(256)
    {
      mtfa, mtfbase := new nat[MTFA_SIZE], new int[SEGMENTS];
      new;
      var kk := MTFA_SIZE - 1;
      var ii := SEGMENTS - 1;
      while ii >= 0
        invariant -1 <= ii < SEGMENTS && kk == Packed(ii + 1) - 1
        invariant forall t :: ii < t < SEGMENTS ==> mtfbase[t] == Packed(t)
        invariant forall p :: kk < p < MTFA_SIZE ==> mtfa[p] == p - Packed(0)
      {
        var jj := MTFL_SIZE - 1;
        while jj >= 0
          invariant -1 <= jj < MTFL_SIZE && kk == Packed(ii) + jj
          invariant forall t :: ii < t < SEGMENTS ==> mtfbase[t] == Packed(t)
          invariant forall p :: kk < p < MTFA_SIZE ==> mtfa[p] == p - Packed(0)
        {
          mtfa[kk] := ii * MTFL_SIZE + jj;
          kk := kk - 1;
          jj := jj - 1;
        }
        mtfbase[ii] := kk + 1;
        ii := ii - 1;
      }
      forall k | 0 <= k < 256 ensures ItemAt(mtfa[..], mtfbase[..], k) == k {
      }
    }

    /** The front of the list. */
    method Front() returns (uc: nat)
      requires Valid()
      ensures uc == Contents()[0]
    {
      uc := mtfa[mtfbase[0]];
    }

    /** Take item nn of the list and move it to the front. */
    method Take(nn: nat) returns (uc: nat)
      requires Valid() && nn < 256
      modifies mtfa, mtfbase
      ensures Valid()
      ensures uc == old(Contents())[nn] && Contents() == ToFront(old(Contents()), nn)
    {
      if nn < MTFL_SIZE {
        uc := TakeNear(nn);
      } else {
        uc := TakeFar(nn);
        if mtfbase[0] == 0 {
          Repack(mtfa, mtfbase);
        }
      }
    }

    method TakeNear(nn: nat) returns (uc: nat)
      requires Valid() && nn < MTFL_SIZE
      modifies mtfa
      ensures Valid()
      ensures uc == old(Contents())[nn] && Contents() == ToFront(old(Contents()), nn)
    {
      ghost var a0 := mtfa[..];
      var pp := mtfbase[0];
      uc := mtfa[pp + nn];
      ShiftUpByFours(mtfa, pp, nn);
      FrontSegmentMoves(a0, mtfa[..], mtfbase[..], nn);
      mtfa[pp] := uc;
    }

    method TakeFar(nn: nat) returns (uc: nat)
      requires Valid() && MTFL_SIZE <= nn < 256
      modifies mtfa, mtfbase
      ensures mtfa as object != mtfbase && Segmented(mtfa[..], mtfbase[..])
      ensures uc == old(Contents())[nn] && Listed(mtfa[..], mtfbase[..]) == ToFront(old(Contents()), nn)
    {
      hide Sliding, Shifted, ToFront;
      ghost var a0, b0 := mtfa[..], mtfbase[..];
      var lno, off := nn / MTFL_SIZE, nn % MTFL_SIZE;
      uc := mtfa[mtfbase[lno] + off];
      ShiftUp(mtfa, mtfbase[lno], mtfbase[lno] + off);
      SlidingStarts(a0, b0, mtfa[..], lno, off);
      mtfbase[lno] := mtfbase[lno] + 1;
      Slide(mtfa, mtfbase, lno, a0, b0, off);
      SlidBases(a0, b0, mtfa[..], mtfbase[..], lno, off);
      SlidToFront(a0, b0, mtfa[..], mtfbase[..], lno, off);
      mtfbase[0] := mtfbase[0] - 1;
      mtfa[mtfbase[0]] := uc;
    }
  }
}
