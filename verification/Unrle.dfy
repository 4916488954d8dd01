/** unRLE_obuf_to_output_FAST and _SMALL for blocks that are not randomised: the bytes of a block are taken
    from the inverse of the sort one at a time, runs are expanded, and output stops whenever the caller's
    buffer is full. Both give the same bytes however the output is cut up. */
module Unrle {
  import opened Sequences
  import opened MoveToFront
  import opened CharPlaces
  import opened InverseBwt
  import opened TVector
  import opened SmallDecode
  import opened RunLength

  /** What the inverse of the sort goes on to give for ever; the first |l| bytes are the block. */
  ghost function Stream(l: seq<Byte>, origPtr: nat): (s: seq<Byte>)
    requires origPtr < |l|
    ensures |s| == |l| + 2
  {
    Walk(l, Order(l), Order(l)[origPtr], |l| + 2)
  }

  lemma {:induction false} WalkPrefix(l: seq<Byte>, t: seq<nat>, pos: nat, steps: nat, more: nat)
    requires |t| == |l| && (forall i :: 0 <= i < |t| ==> t[i] < |l|) && pos < |l|
    ensures Walk(l, t, pos, steps + more)[..steps] == Walk(l, t, pos, steps)
    decreases steps
  {
    hide Walk;
    if steps == 0 {
      WalkEnds(l, t, pos);
    } else {
      WalkOn(l, t, pos, steps);
      WalkOn(l, t, pos, steps + more);
      WalkPrefix(l, t, t[pos], steps - 1, more);
    }
  }

  lemma StreamStartsWithBlock(l: seq<Byte>, origPtr: nat)
    requires origPtr < |l|
    ensures Stream(l, origPtr)[..|l|] == Invert(l, origPtr)
  {
    hide Order, Walk;
    WalkPrefix(l, Order(l), Order(l)[origPtr], |l|, 2);
  }

  // ----- What remains to be written -----

  /** The rest of the output: the rest of the current run and the expansion of the rest of the block. */
  ghost function Remaining(stream: seq<Byte>, n: nat, used: nat, len: nat, ch: Byte): Expansion
    requires |stream| == n + 2 && 1 <= used <= n + 2
  {
    Before(Copies(ch, len), Expand(stream, n, used - 1))
  }

  lemma WriteOne(stream: seq<Byte>, n: nat, used: nat, len: nat, ch: Byte)
    requires |stream| == n + 2 && 1 <= used <= n + 2 && len > 0
    ensures Remaining(stream, n, used, len, ch) == Before([ch], Remaining(stream, n, used, len - 1, ch))
  {
    hide Expand;
    assert Copies(ch, len) == [ch] + Copies(ch, len - 1);
  }

  lemma WrittenMore(written: seq<Byte>, ch: Byte, e: Expansion)
    ensures Before(written, Before([ch], e)) == Before(written + [ch], e)
  {
    assert written + ([ch] + e.bytes) == (written + [ch]) + e.bytes;
  }

  ghost predicate SameFrom(stream: seq<Byte>, p: nat, len: nat) {
    p + len <= |stream| && forall k :: p < k < p + len ==> stream[k] == stream[p]
  }

  lemma SameMore(stream: seq<Byte>, p: nat, len: nat)
    requires 1 <= len && p + len < |stream| && (len == 1 || SameFrom(stream, p, len)) && stream[p + len] == stream[p]
    ensures SameFrom(stream, p, len + 1)
  {
  }

  lemma SameOne(stream: seq<Byte>, p: nat)
    requires p < |stream|
    ensures SameFrom(stream, p, 1)
  {
  }

  /** A run of one to three bytes, ended by another byte or the end of the block. */
  lemma ShortRun(stream: seq<Byte>, n: nat, used: nat, len: nat, before: Byte)
    requires |stream| == n + 2 && 1 <= used <= n && 1 <= len <= 3 && used + len <= n + 1
    requires SameFrom(stream, used - 1, len)
    requires used + len == n + 1 || stream[used - 1 + len] != stream[used - 1]
    ensures Remaining(stream, n, used, 0, before) == Remaining(stream, n, used + len, len, stream[used - 1])
  {
    var p := used - 1;
    NoneLeft(Expand(stream, n, p), before);
    if len == 1 { assert Copies(stream[p], 1) == [stream[p]]; }
    if len >= 2 { assert stream[p + 1] == stream[p]; }
    if len == 3 { assert stream[p + 2] == stream[p]; }
  }

  lemma LongRun(stream: seq<Byte>, n: nat, used: nat, before: Byte)
    requires |stream| == n + 2 && 1 <= used && used + 3 <= n && SameFrom(stream, used - 1, 4)
    ensures Remaining(stream, n, used, 0, before) == Remaining(stream, n, used + 5, 4 + stream[used + 3] as nat, stream[used - 1])
  {
    var p := used - 1;
    NoneLeft(Expand(stream, n, p), before);
    assert stream[p + 1] == stream[p] && stream[p + 2] == stream[p] && stream[p + 3] == stream[p];
  }

  lemma NoneLeft(e: Expansion, ch: Byte)
    ensures Before(Copies(ch, 0), e) == e
  {
    assert [] + e.bytes == e.bytes;
  }

  lemma AtEnd(stream: seq<Byte>, n: nat, used: nat, ch: Byte)
    requires |stream| == n + 2 && 1 <= used <= n + 2
    ensures used == n + 1 ==> Remaining(stream, n, used, 0, ch) == Expansion([], false)
    ensures used == n + 2 ==> Remaining(stream, n, used, 0, ch) == Expansion([], true)
    ensures used <= n ==> Remaining(stream, n, used, 0, ch).bytes != []
  {
    hide Expand;
    NoneLeft(Expand(stream, n, used - 1), ch);
    if used <= n { ExpandsToSomething(stream, n, used - 1); } else { ExpandEnd(stream, n, used - 1); }
  }

  lemma ExpandEnd(stream: seq<Byte>, n: nat, p: nat)
    requires |stream| == n + 2 && n <= p <= n + 1
    ensures Expand(stream, n, p) == Expansion([], p > n)
  {
  }

  lemma ExpandsToSomething(stream: seq<Byte>, n: nat, p: nat)
    requires |stream| == n + 2 && p < n
    ensures Expand(stream, n, p).bytes != []
  {
  }

  // ----- The fast way -----

  class FastOutput {
    const step: CrcStep
    const tt: array<nat>
    const saveNblock: nat
    var tPos: nat
    var k0: nat
    var nblockUsed: nat
    var stateOutLen: nat
    var stateOutCh: Byte
    var calculatedBlockCRC: Word
    ghost const l: seq<Byte>
    ghost const origPtr: nat

    /** tPos leads to the rest of the stream. */
    ghost predicate OnTrack()
      reads `tPos, `nblockUsed, tt
    {
      && saveNblock == |l| <= tt.Length && origPtr < |l| && Linked(l, tt[..saveNblock])
      && 1 <= nblockUsed <= saveNblock + 2 && tPos < saveNblock
      && Stream(l, origPtr)[nblockUsed..] == Walk(l, Order(l), tPos, saveNblock + 2 - nblockUsed)
    }

    ghost predicate Valid()
      reads this, tt
    {
      OnTrack() && (nblockUsed <= saveNblock ==> k0 == Stream(l, origPtr)[nblockUsed - 1])
    }

    /** What is still to be written. */
    ghost function Rest(): Expansion
      requires Valid()
      reads this, tt
    {
      Remaining(Stream(l, origPtr), saveNblock, nblockUsed, stateOutLen, stateOutCh)
    }

    constructor (step: CrcStep, initialCrc: Word, tt: array<nat>, nblock: nat, origPtr: nat, ghost l: seq<Byte>)
      requires origPtr < nblock == |l| <= tt.Length && Linked(l, tt[..nblock])
      ensures Valid() && Rest() == Expand(Stream(l, origPtr), nblock, 0)
      ensures this.l == l && this.origPtr == origPtr && this.step == step && calculatedBlockCRC == initialCrc && this.tt == tt
    {
      hide Order, Linked, Walk, Expand, Entry;
      this.step, this.tt, saveNblock, this.l, this.origPtr := step, tt, nblock, l, origPtr;
      EntryAt(l, tt[..nblock], origPtr);
      assert tt[origPtr] == tt[..nblock][origPtr];
      var first := tt[origPtr] / 256;
      EntryAt(l, tt[..nblock], first);
      assert tt[first] == tt[..nblock][first];
      WalkOn(l, Order(l), first, nblock + 2);
      tPos := tt[first] / 256;
      k0 := tt[first] % 256;
      nblockUsed, stateOutLen, stateOutCh, calculatedBlockCRC := 1, 0, 0, initialCrc;
      NoneLeft(Expand(Stream(l, origPtr), nblock, 0), 0);
    }

    /** BZ_GET_FAST_C, and the count of it. */
    method Get() returns (k1: Byte)
      requires OnTrack() && nblockUsed < saveNblock + 2
      modifies `tPos, `nblockUsed
      ensures OnTrack() && nblockUsed == old(nblockUsed) + 1 && k1 == Stream(l, origPtr)[old(nblockUsed)]
    {
      hide Order, Linked, Walk, Entry, Stream;
      EntryAt(l, tt[..saveNblock], tPos);
      assert tt[tPos] == tt[..saveNblock][tPos];
      WalkOn(l, Order(l), tPos, saveNblock + 2 - nblockUsed);
      assert Stream(l, origPtr)[nblockUsed..][0] == Stream(l, origPtr)[nblockUsed];
      assert Stream(l, origPtr)[nblockUsed..][1..] == Stream(l, origPtr)[nblockUsed + 1..];
      tPos := tt[tPos];
      k1 := tPos % 256;
      tPos := tPos / 256;
      nblockUsed := nblockUsed + 1;
    }

    lemma TrackShape()
      requires OnTrack()
      ensures saveNblock == |l| && origPtr < |l| && 1 <= nblockUsed <= saveNblock + 2
    {
      hide Linked, Order, Walk, Stream;
    }

    /** Start the next run: take bytes until the run is known. */
    method StartRun()
      requires Valid() && nblockUsed <= saveNblock && stateOutLen == 0
      modifies `tPos, `nblockUsed, `k0, `stateOutLen, `stateOutCh
      ensures Valid() && Rest() == old(Rest()) && nblockUsed > old(nblockUsed) && stateOutLen > 0
    {
      hide FastOutput.OnTrack, Stream, Remaining, SameFrom;
      TrackShape();
      ghost var s, n, used, before := Stream(l, origPtr), saveNblock, nblockUsed, stateOutCh;
      SameOne(s, used - 1);
      var saveNblockPP := saveNblock + 1;
      stateOutCh := k0;
      var k1 := Get();
      if k1 != k0 {
        k0, stateOutLen := k1, 1;
        ShortRun(s, n, used, 1, before);
        return;
      }
      if nblockUsed == saveNblockPP {
        stateOutLen := 1;
        ShortRun(s, n, used, 1, before);
        return;
      }
      SameMore(s, used - 1, 1);
      stateOutLen := 2;
      k1 := Get();
      if nblockUsed == saveNblockPP { ShortRun(s, n, used, 2, before); return; }
      if k1 != k0 { k0 := k1; ShortRun(s, n, used, 2, before); return; }
      SameMore(s, used - 1, 2);
      stateOutLen := 3;
      k1 := Get();
      if nblockUsed == saveNblockPP { ShortRun(s, n, used, 3, before); return; }
      if k1 != k0 { k0 := k1; ShortRun(s, n, used, 3, before); return; }
      SameMore(s, used - 1, 3);
      k1 := Get();
      stateOutLen := k1 as nat + 4;
      k0 := Get();
      LongRun(s, n, used, before);
    }

    /** Write one byte of the current run. */
    method Emit(ghost written: seq<Byte>) returns (b: Byte)
      requires Valid() && stateOutLen > 0
      modifies `stateOutLen, `calculatedBlockCRC
      ensures Valid() && Before(written, old(Rest())) == Before(written + [b], Rest()) && stateOutLen == old(stateOutLen) - 1
      ensures forall crc0 :: old(calculatedBlockCRC) == Fold(step, crc0, written) ==> calculatedBlockCRC == Fold(step, crc0, written + [b])
    {
      hide Order, Linked, Walk, Stream, Remaining;
      b := stateOutCh;
      WriteOne(Stream(l, origPtr), saveNblock, nblockUsed, stateOutLen, stateOutCh);
      calculatedBlockCRC := step(calculatedBlockCRC, b);
      assert (written + [b])[..|written|] == written;
      stateOutLen := stateOutLen - 1;
      WrittenMore(written, b, Rest());
    }

    /** Write up to availOut bytes. In the source the length of a run that has been written out is left at 1,
        but it is set before it is looked at again. */
    method Output(availOut: nat) returns (written: seq<Byte>, corrupt: bool)
      requires Valid()
      modifies `tPos, `nblockUsed, `k0, `stateOutLen, `stateOutCh, `calculatedBlockCRC
      ensures Valid() && Before(written, Rest()) == old(Rest())
      ensures |written| <= availOut && (|written| < availOut ==> Rest().bytes == [])
      ensures corrupt ==> Rest() == Expansion([], true)
      ensures |written| < availOut ==> corrupt == Rest().corrupt
      ensures calculatedBlockCRC == Fold(step, old(calculatedBlockCRC), written)
    {
      hide FastOutput.Valid, FastOutput.Rest, Before, Fold;
      written, corrupt := [], false;
      NothingWritten(Rest(), step, calculatedBlockCRC);
      RestAtEnd();
      while true
        invariant Valid() && Before(written, Rest()) == old(Rest()) && |written| <= availOut && 1 <= nblockUsed <= saveNblock + 2
        invariant calculatedBlockCRC == Fold(step, old(calculatedBlockCRC), written)
        decreases saveNblock + 2 - nblockUsed
      {
        ghost var used := nblockUsed;
        while stateOutLen > 0
          invariant Valid() && Before(written, Rest()) == old(Rest()) && |written| <= availOut
          invariant nblockUsed == used
          invariant calculatedBlockCRC == Fold(step, old(calculatedBlockCRC), written)
          decreases stateOutLen
        {
          if |written| == availOut { return; }
          var b := Emit(written);
          written := written + [b];
        }
        RestAtEnd();
        if nblockUsed > saveNblock + 1 { corrupt := true; return; }
        if nblockUsed == saveNblock + 1 { return; }
        StartRun();
        RestAtEnd();
      }
    }

    lemma RestAtEnd()
      requires Valid()
      ensures 1 <= nblockUsed <= saveNblock + 2
      ensures stateOutLen == 0 && nblockUsed == saveNblock + 1 <==> Rest() == Expansion([], false)
      ensures stateOutLen == 0 && nblockUsed == saveNblock + 2 ==> Rest() == Expansion([], true)
      ensures stateOutLen == 0 && nblockUsed <= saveNblock ==> Rest().bytes != []
    {
      hide Order, Linked, Walk, Stream, Remaining;
      if stateOutLen > 0 {
        WriteOne(Stream(l, origPtr), saveNblock, nblockUsed, stateOutLen, stateOutCh);
      } else {
        AtEnd(Stream(l, origPtr), saveNblock, nblockUsed, stateOutCh);
      }
    }
  }

  // ----- The way with little memory -----

  ghost function Ahead(l: seq<Byte>, tPos: nat, steps: nat): (s: seq<Byte>)
    requires tPos < |l|
    ensures |s| == steps
  {
    Walk(l, Order(l), Order(l)[tPos], steps)
  }

  class SmallOutput {
    const step: CrcStep
    const ll16: array<nat>
    const ll4: array<Byte>
    const cftab: array<nat>
    const saveNblock: nat
    var tPos: nat
    var k0: nat
    var nblockUsed: nat
    var stateOutLen: nat
    var stateOutCh: Byte
    var calculatedBlockCRC: Word
    ghost const l: seq<Byte>
    ghost const origPtr: nat
    ghost const cycle: set<nat>

    ghost predicate OnTrack()
      reads `tPos, `nblockUsed, ll16, ll4, cftab
    {
      && saveNblock == |l| && origPtr < |l| && LL(ll16[..], ll4[..], saveNblock)
      && cftab.Length == 257 && (forall c: nat :: c <= 256 ==> cftab[c] == Start(l, c))
      && Reversed(Order(l), Entries(ll16[..], ll4[..], saveNblock), cycle)
      && 1 <= nblockUsed <= saveNblock + 2 && tPos < saveNblock && tPos in cycle
      && Stream(l, origPtr)[nblockUsed..] == Ahead(l, tPos, saveNblock + 2 - nblockUsed)
    }

    ghost predicate Valid()
      reads this, ll16, ll4, cftab
    {
      OnTrack() && (nblockUsed <= saveNblock ==> k0 == Stream(l, origPtr)[nblockUsed - 1])
    }

    ghost function Rest(): Expansion
      requires Valid()
      reads this, ll16, ll4, cftab
    {
      Remaining(Stream(l, origPtr), saveNblock, nblockUsed, stateOutLen, stateOutCh)
    }

    /** One step of BZ_GET_SMALL. */
    static method Follow(ll16: array<nat>, ll4: array<Byte>, cftab: array<nat>, tPos: nat, ghost l: seq<Byte>, ghost cycle: set<nat>)
      returns (ch: Byte, next: nat)
      requires LL(ll16[..], ll4[..], |l|) && cftab.Length == 257 && forall c: nat :: c <= 256 ==> cftab[c] == Start(l, c)
      requires Reversed(Order(l), Entries(ll16[..], ll4[..], |l|), cycle) && tPos < |l| && tPos in cycle
      ensures next == Order(l)[tPos] < |l| && next in cycle && ch == l[next]
    {
      hide Order, Entries, GetLL, PlacesBelow, Places, Reversed;
      OnCycle(Order(l), Entries(ll16[..], ll4[..], |l|), cycle, tPos);
      StartOfAll(l);
      ch := IndexIntoF(tPos, cftab);
      FirstColumn(l, tPos, ch);
      EntryIs(ll16[..], ll4[..], |l|, tPos);
      next := GetLL(ll16[..], ll4[..], tPos);
    }

    constructor (step: CrcStep, initialCrc: Word, ll16: array<nat>, ll4: array<Byte>, cftab: array<nat>, nblock: nat, origPtr: nat,
                 ghost l: seq<Byte>, ghost cycle: set<nat>)
      requires origPtr < nblock == |l| && LL(ll16[..], ll4[..], nblock) && cftab.Length == 257
      requires forall c: nat :: c <= 256 ==> cftab[c] == Start(l, c)
      requires Reversed(Order(l), Entries(ll16[..], ll4[..], nblock), cycle) && origPtr in cycle
      ensures Valid() && Rest() == Expand(Stream(l, origPtr), nblock, 0)
      ensures this.l == l && this.origPtr == origPtr && this.step == step && calculatedBlockCRC == initialCrc
    {
      hide Order, Entries, GetLL, PlacesBelow, Places, Reversed, Walk, Expand;
      this.step, this.ll16, this.ll4, this.cftab, saveNblock := step, ll16, ll4, cftab, nblock;
      this.l, this.origPtr, this.cycle := l, origPtr, cycle;
      var ch, next := Follow(ll16, ll4, cftab, origPtr, l, cycle);
      WalkOn(l, Order(l), next, nblock + 2);
      k0, tPos := ch, next;
      nblockUsed, stateOutLen, stateOutCh, calculatedBlockCRC := 1, 0, 0, initialCrc;
      NoneLeft(Expand(Stream(l, origPtr), nblock, 0), 0);
    }

    /** BZ_GET_SMALL, and the count of it. */
    method Get() returns (k1: Byte)
      requires OnTrack() && nblockUsed < saveNblock + 2
      modifies `tPos, `nblockUsed
      ensures OnTrack() && nblockUsed == old(nblockUsed) + 1 && k1 == Stream(l, origPtr)[old(nblockUsed)]
    {
      hide Order, Entries, GetLL, PlacesBelow, Places, Reversed, Walk, Stream;
      var next;
      k1, next := Follow(ll16, ll4, cftab, tPos, l, cycle);
      WalkOn(l, Order(l), next, saveNblock + 2 - nblockUsed);
      assert Stream(l, origPtr)[nblockUsed..][0] == Stream(l, origPtr)[nblockUsed];
      assert Stream(l, origPtr)[nblockUsed..][1..] == Stream(l, origPtr)[nblockUsed + 1..];
      tPos := next;
      nblockUsed := nblockUsed + 1;
    }

    lemma TrackShape()
      requires OnTrack()
      ensures saveNblock == |l| && origPtr < |l| && 1 <= nblockUsed <= saveNblock + 2
    {
      hide Order, Walk, Stream, Reversed, Entries, PlacesBelow;
    }

    /** Start the next run: take bytes until the run is known. */
    method StartRun()
      requires Valid() && nblockUsed <= saveNblock && stateOutLen == 0
      modifies `tPos, `nblockUsed, `k0, `stateOutLen, `stateOutCh
      ensures Valid() && Rest() == old(Rest()) && nblockUsed > old(nblockUsed) && stateOutLen > 0
    {
      hide SmallOutput.OnTrack, Stream, Remaining, SameFrom;
      TrackShape();
      ghost var s, n, used, before := Stream(l, origPtr), saveNblock, nblockUsed, stateOutCh;
      SameOne(s, used - 1);
      stateOutLen := 1;
      stateOutCh := k0;
      var k1 := Get();
      if nblockUsed == saveNblock + 1 { ShortRun(s, n, used, 1, before); return; }
      if k1 != k0 { k0 := k1; ShortRun(s, n, used, 1, before); return; }
      SameMore(s, used - 1, 1);
      stateOutLen := 2;
      k1 := Get();
      if nblockUsed == saveNblock + 1 { ShortRun(s, n, used, 2, before); return; }
      if k1 != k0 { k0 := k1; ShortRun(s, n, used, 2, before); return; }
      SameMore(s, used - 1, 2);
      stateOutLen := 3;
      k1 := Get();
      if nblockUsed == saveNblock + 1 { ShortRun(s, n, used, 3, before); return; }
      if k1 != k0 { k0 := k1; ShortRun(s, n, used, 3, before); return; }
      SameMore(s, used - 1, 3);
      k1 := Get();
      stateOutLen := k1 as nat + 4;
      k0 := Get();
      LongRun(s, n, used, before);
    }

    method Emit(ghost written: seq<Byte>) returns (b: Byte)
      requires Valid() && stateOutLen > 0
      modifies `stateOutLen, `calculatedBlockCRC
      ensures Valid() && Before(written, old(Rest())) == Before(written + [b], Rest()) && stateOutLen == old(stateOutLen) - 1
      ensures forall crc0 :: old(calculatedBlockCRC) == Fold(step, crc0, written) ==> calculatedBlockCRC == Fold(step, crc0, written + [b])
    {
      hide SmallOutput.OnTrack, Stream, Remaining;
      TrackShape();
      b := stateOutCh;
      WriteOne(Stream(l, origPtr), saveNblock, nblockUsed, stateOutLen, stateOutCh);
      calculatedBlockCRC := step(calculatedBlockCRC, b);
      assert (written + [b])[..|written|] == written;
      stateOutLen := stateOutLen - 1;
      WrittenMore(written, b, Rest());
    }

    /** Write up to availOut bytes. Unlike the fast loop this one stops as soon as there is no room, without
        looking whether the block is at its end or corrupt. */
    method Output(availOut: nat) returns (written: seq<Byte>, corrupt: bool)
      requires Valid()
      modifies `tPos, `nblockUsed, `k0, `stateOutLen, `stateOutCh, `calculatedBlockCRC
      ensures Valid() && Before(written, Rest()) == old(Rest())
      ensures |written| <= availOut && (|written| < availOut ==> Rest().bytes == [])
      ensures corrupt ==> Rest() == Expansion([], true)
      ensures |written| < availOut ==> corrupt == Rest().corrupt
      ensures calculatedBlockCRC == Fold(step, old(calculatedBlockCRC), written)
    {
      hide SmallOutput.Valid, SmallOutput.Rest, Before, Fold;
      written, corrupt := [], false;
      NothingWritten(Rest(), step, calculatedBlockCRC);
      RestAtEnd();
      while true
        invariant Valid() && Before(written, Rest()) == old(Rest()) && |written| <= availOut && 1 <= nblockUsed <= saveNblock + 2
        invariant calculatedBlockCRC == Fold(step, old(calculatedBlockCRC), written)
        decreases saveNblock + 2 - nblockUsed
      {
        ghost var used := nblockUsed;
        while true
          invariant Valid() && Before(written, Rest()) == old(Rest()) && |written| <= availOut
          invariant nblockUsed == used
          invariant calculatedBlockCRC == Fold(step, old(calculatedBlockCRC), written)
          decreases stateOutLen
        {
          if |written| == availOut { return; }
          if stateOutLen == 0 { break; }
          var b := Emit(written);
          written := written + [b];
        }
        RestAtEnd();
        if nblockUsed == saveNblock + 1 { return; }
        if nblockUsed > saveNblock + 1 { corrupt := true; return; }
        StartRun();
        RestAtEnd();
      }
    }

    lemma RestAtEnd()
      requires Valid()
      ensures 1 <= nblockUsed <= saveNblock + 2
      ensures stateOutLen == 0 && nblockUsed == saveNblock + 1 <==> Rest() == Expansion([], false)
      ensures stateOutLen == 0 && nblockUsed == saveNblock + 2 ==> Rest() == Expansion([], true)
      ensures stateOutLen == 0 && nblockUsed <= saveNblock ==> Rest().bytes != []
    {
      hide SmallOutput.OnTrack, Stream, Remaining;
      TrackShape();
      if stateOutLen > 0 {
        WriteOne(Stream(l, origPtr), saveNblock, nblockUsed, stateOutLen, stateOutCh);
      } else {
        AtEnd(Stream(l, origPtr), saveNblock, nblockUsed, stateOutCh);
      }
    }
  }

  lemma NothingWritten(e: Expansion, step: CrcStep, crc: Word)
    ensures Before([], e) == e && Fold(step, crc, []) == crc
  {
    assert [] + e.bytes == e.bytes;
  }

  /** However the two loops go about it, with the same room they write the same bytes and have the same left to write. */
  lemma SlicesAgree(e: Expansion, availOut: nat, w1: seq<Byte>, r1: Expansion, w2: seq<Byte>, r2: Expansion)
    requires Before(w1, r1) == e && |w1| <= availOut && (|w1| < availOut ==> r1.bytes == [])
    requires Before(w2, r2) == e && |w2| <= availOut && (|w2| < availOut ==> r2.bytes == [])
    ensures w1 == w2 && r1 == r2
  {
    assert |w1| == |w2|;
    assert w1 == e.bytes[..|w1|] && w2 == e.bytes[..|w2|];
    assert r1.bytes == e.bytes[|w1|..] && r2.bytes == e.bytes[|w2|..];
  }
}
