/** The part of BZ2_decompress that reads the symbols of a block and undoes the run and move-to-front coding. */
module ColumnReading {
  import opened Powers
  import opened Sequences
  import opened Bits
  import opened BitReading
  import opened MoveToFront
  import opened GenerateMtf
  import opened MtfArray
  import opened CharPlaces
  import opened CanonicalCodes
  import opened BlockFormat
  import opened BlockData
  import opened DecompressBlock

  /** The column still to come when symbol sym, number k - 1, has been read already. */
  ghost function After(c: Coding, n: nat, k: nat, y: seq<nat>, es: nat, weight: nat, room: nat, sym: nat, bits: seq<bool>): Parse<seq<nat>>
    requires Readable(c, n + 2) && Ranked(y, n) && sym < n + 2
  {
    if sym == RUNA || sym == RUNB then
      Unpack(c, n, k, y, es + (if sym == RUNA then weight else 2 * weight), 2 * weight, room, bits)
    else
      var run := Int32(es);
      if run < 0 then Outside
      else if run > room then Bad
      else if sym == n + 1 then Done(Copies(y[0], run), bits)
      else if run == room then Bad
      else
        FrontRanked(y, n, sym - 1);
        Prepend(Copies(y[0], run) + [y[sym - 1]], Unpack(c, n, k, ToFront(y, sym - 1), 0, 1, room - run - 1, bits))
  }

  lemma UnpackReads(c: Coding, n: nat, k: nat, y: seq<nat>, es: nat, weight: nat, room: nat, bits: seq<bool>)
    requires Readable(c, n + 2) && Ranked(y, n)
    ensures match ReadNext(c, n + 2, k, bits)
            case Done(sym, rest) => Unpack(c, n, k, y, es, weight, room, bits) == After(c, n, k + 1, y, es, weight, room, sym, rest)
            case More => Unpack(c, n, k, y, es, weight, room, bits) == More
            case Bad => Unpack(c, n, k, y, es, weight, room, bits) == Bad
            case Outside => Unpack(c, n, k, y, es, weight, room, bits) == Outside
  {
    hide Ranked, Readable, ToFront, ReadNext;
  }

  /** With the part out of the column written and symbol sym read, the whole column will be goal. */
  ghost predicate Reading(goal: Parse<seq<nat>>, c: Coding, n: nat, k: nat, y: seq<nat>, es: nat, weight: nat, room: nat,
                          sym: nat, bits: seq<bool>, out: seq<nat>) {
    && Readable(c, n + 2) && Ranked(y, n) && sym < n + 2 && (forall i :: 0 <= i < |out| ==> out[i] < n)
    && Prepend(out, After(c, n, k, y, es, weight, room, sym, bits)) == goal
  }

  /** The same before symbol number k has been read. */
  ghost predicate ToRead(goal: Parse<seq<nat>>, c: Coding, n: nat, k: nat, y: seq<nat>, es: nat, weight: nat, room: nat,
                         bits: seq<bool>, out: seq<nat>) {
    && Readable(c, n + 2) && Ranked(y, n) && (forall i :: 0 <= i < |out| ==> out[i] < n)
    && Prepend(out, Unpack(c, n, k, y, es, weight, room, bits)) == goal
  }

  lemma ReadOne(goal: Parse<seq<nat>>, c: Coding, n: nat, k: nat, y: seq<nat>, es: nat, weight: nat, room: nat, bits: seq<bool>, out: seq<nat>)
    requires ToRead(goal, c, n, k, y, es, weight, room, bits, out)
    ensures Readable(c, n + 2)
    ensures match ReadNext(c, n + 2, k, bits)
            case Done(sym, rest) => Reading(goal, c, n, k + 1, y, es, weight, room, sym, rest, out)
            case More => goal == More
            case Bad => goal == Bad
            case Outside => goal == Outside
  {
    hide Ranked, Readable, Unpack, After, ReadNext;
    UnpackReads(c, n, k, y, es, weight, room, bits);
  }

  lemma TakeDigit(goal: Parse<seq<nat>>, c: Coding, n: nat, k: nat, y: seq<nat>, es: nat, weight: nat, room: nat,
                  sym: nat, bits: seq<bool>, out: seq<nat>)
    requires Reading(goal, c, n, k, y, es, weight, room, sym, bits, out) && sym <= RUNB
    ensures ToRead(goal, c, n, k, y, es + (if sym == RUNA then weight else 2 * weight), 2 * weight, room, bits, out)
  {
    hide Ranked, Readable, Unpack;
  }

  lemma TakeRun(goal: Parse<seq<nat>>, c: Coding, n: nat, k: nat, y: seq<nat>, es: nat, weight: nat, room: nat,
                sym: nat, bits: seq<bool>, out: seq<nat>)
    requires Reading(goal, c, n, k, y, es, weight, room, sym, bits, out) && sym > RUNB
    ensures Int32(es) < 0 ==> goal == Outside
    ensures Int32(es) > room ==> goal == Bad
    ensures 0 <= Int32(es) <= room ==>
              |y| == 256 && Reading(goal, c, n, k, y, 0, 1, room - Int32(es), sym, bits, out + Copies(y[0], Int32(es)))
  {
    hide Readable, Unpack, ToFront;
    var run := Int32(es);
    if 0 <= run <= room {
      assert Copies(y[0], 0) == [];
      if sym == n + 1 {
        assert out + Copies(y[0], run) + [] == out + Copies(y[0], run);
      } else if run < room {
        FrontRanked(y, n, sym - 1);
        var p := Unpack(c, n, k, ToFront(y, sym - 1), 0, 1, room - run - 1, bits);
        Regroup3(out, Copies(y[0], run), y[sym - 1], p);
      }
    }
  }

  lemma Regroup3(out: seq<nat>, run: seq<nat>, x: nat, p: Parse<seq<nat>>)
    ensures Prepend(out, Prepend(run + [x], p)) == Prepend(out + run, Prepend([] + [x], p))
  {
    if p.Done? { assert out + (run + [x] + p.value) == (out + run) + (([] + [x]) + p.value); }
  }

  lemma TakeMove(goal: Parse<seq<nat>>, c: Coding, n: nat, k: nat, y: seq<nat>, weight: nat, room: nat,
                 sym: nat, bits: seq<bool>, out: seq<nat>)
    requires Reading(goal, c, n, k, y, 0, weight, room, sym, bits, out) && RUNB < sym <= n
    ensures room == 0 ==> goal == Bad
    ensures room > 0 ==> sym - 1 < |y| == 256 && ToRead(goal, c, n, k, ToFront(y, sym - 1), 0, 1, room - 1, bits, out + [y[sym - 1]])
  {
    hide Readable, Unpack, ToFront;
    if room > 0 {
      FrontRanked(y, n, sym - 1);
      var p := Unpack(c, n, k, ToFront(y, sym - 1), 0, 1, room - 1, bits);
      assert Copies(y[0], 0) + [y[sym - 1]] == [y[sym - 1]];
      PrependMore(out, y[sym - 1], p);
    }
  }

  lemma TakeEnd(goal: Parse<seq<nat>>, c: Coding, n: nat, k: nat, y: seq<nat>, weight: nat, room: nat, bits: seq<bool>, out: seq<nat>)
    requires Reading(goal, c, n, k, y, 0, weight, room, n + 1, bits, out) && n > 0
    ensures goal == Done(out, bits)
  {
    hide Readable, Unpack, ToFront;
    assert Copies(y[0], 0) == [] && out + [] == out;
  }

  // ----- The column and its character counts -----

  /** unzftab counts the characters of l and es more of uc. */
  ghost predicate Tallied(l: seq<Byte>, unzftab: seq<nat>, uc: Byte, es: nat) {
    |unzftab| == 256 && forall c: Byte :: unzftab[c] == |Places(l, c)| + if c == uc then es else 0
  }

  lemma TallyOne(l: seq<Byte>, unzftab: seq<nat>, uc: Byte, es: nat)
    requires Tallied(l, unzftab, uc, es) && es > 0
    ensures Tallied(l + [uc], unzftab, uc, es - 1)
  {
    hide Places;
    forall c: Byte ensures |Places(l + [uc], c)| == |Places(l, c)| + (if c == uc then 1 else 0) {
      PlacesOneMore(l + [uc], |l|, c);
      assert (l + [uc])[..|l| + 1] == l + [uc] && (l + [uc])[..|l|] == l;
    }
  }

  lemma {:induction false} TallyRun(l: seq<Byte>, unzftab: seq<nat>, uc: Byte, es: nat)
    requires Tallied(l, unzftab, uc, es)
    ensures Tallied(l + Copies(uc, es), unzftab, uc, 0)
    decreases es
  {
    hide Tallied;
    if es == 0 {
      assert l + Copies(uc, 0) == l;
    } else {
      TallyOne(l, unzftab, uc, es);
      TallyRun(l + [uc], unzftab, uc, es - 1);
      assert l + [uc] + Copies(uc, es - 1) == l + Copies(uc, es);
    }
  }

  lemma TallyAdd(l: seq<Byte>, unzftab: seq<nat>, old_: Byte, uc: Byte, es: nat)
    requires Tallied(l, unzftab, old_, 0)
    ensures |unzftab| == 256 && Tallied(l, unzftab[uc := unzftab[uc] + es], uc, es)
  {
    hide Places;
  }

  /** The characters for the part out of the renumbered column. */
  ghost predicate Stored(inUse: seq<bool>, n: nat, out: seq<nat>, l: seq<Byte>) {
    && |inUse| == 256 && n == NInUse(inUse)
    && (forall i :: 0 <= i < |out| ==> out[i] < n)
    && l == Unnumber(inUse, out)
  }

  lemma StoreMore(inUse: seq<bool>, n: nat, out: seq<nat>, l: seq<Byte>, x: nat)
    requires Stored(inUse, n, out, l) && x < n
    ensures Stored(inUse, n, out + [x], l + [Letter(inUse, x)])
  {
    hide NInUse, Letter;
  }

  lemma {:induction false} StoreRun(inUse: seq<bool>, n: nat, out: seq<nat>, l: seq<Byte>, x: nat, es: nat)
    requires Stored(inUse, n, out, l) && x < n
    ensures Stored(inUse, n, out + Copies(x, es), l + Copies(Letter(inUse, x), es))
    decreases es
  {
    hide Letter, Stored, NInUse;
    assert |inUse| == 256 && n == NInUse(inUse) by { StoredIs(inUse, n, out, l); }
    if es == 0 {
      assert out + Copies(x, 0) == out && l + Copies(Letter(inUse, x), 0) == l;
    } else {
      StoreMore(inUse, n, out, l, x);
      StoreRun(inUse, n, out + [x], l + [Letter(inUse, x)], x, es - 1);
      assert out + [x] + Copies(x, es - 1) == out + Copies(x, es);
      assert l + [Letter(inUse, x)] + Copies(Letter(inUse, x), es - 1) == l + Copies(Letter(inUse, x), es);
    }
  }

  lemma StoredIs(inUse: seq<bool>, n: nat, out: seq<nat>, l: seq<Byte>)
    requires Stored(inUse, n, out, l)
    ensures |inUse| == 256 && n == NInUse(inUse) && |l| == |out|
  {
  }

  // ----- The loop -----

  /** Write es copies of uc behind tt[..nblock], unless that takes more room than there is. */
  method FillRun(tt: array<nat>, nblock0: nat, es0: nat, uc: Byte) returns (full: bool, nblock: nat)
    requires nblock0 <= tt.Length
    modifies tt
    ensures full == (es0 > tt.Length - nblock0)
    ensures !full ==> nblock == nblock0 + es0 && tt[..nblock] == old(tt[..nblock0]) + Copies(uc as nat, es0)
  {
    full, nblock := false, nblock0;
    var es := es0;
    while es > 0
      invariant nblock == nblock0 + (es0 - es) <= tt.Length && es >= 0
      invariant tt[..nblock] == old(tt[..nblock0]) + Copies(uc as nat, es0 - es)
    {
      if nblock >= tt.Length { full := true; return; }
      tt[nblock] := uc;
      nblock := nblock + 1;
      es := es - 1;
    }
  }

  /** Read the digits of a run, the first of which has been read, and the symbol after them. */
  method ReadRun(r: BitReader, c: Coding, tables: seq<CodeTable>, nextSym0: nat, groupNo0: int, groupPos0: int, ghost n: nat,
                 ghost k0: nat, ghost goal: Parse<seq<nat>>, ghost y: seq<nat>, ghost room: nat, ghost out: seq<nat>)
    returns (status: Status, es: int, nextSym: nat, groupNo: int, groupPos: int, ghost k: nat, ghost length: nat)
    requires r.Valid() && TablesFor(tables, c) && nextSym0 <= RUNB
    requires 0 <= groupPos0 < G_SIZE && k0 == G_SIZE * (groupNo0 + 1) - groupPos0 && (groupPos0 > 0 ==> groupNo0 < |c.selectors|)
    requires Reading(goal, c, n, k0, y, 0, 1, room, nextSym0, r.Pending(), out)
    modifies r
    ensures r.Valid() && (status.Read? || Outcome(status, [], []) == goal)
    ensures status.Read? ==>
              && es == Int32(length) && nextSym > RUNB && Reading(goal, c, n, k, y, length, 1, room, nextSym, r.Pending(), out)
              && 0 <= groupPos < G_SIZE && k == G_SIZE * (groupNo + 1) - groupPos && (groupPos > 0 ==> groupNo < |c.selectors|)
              && |r.Pending()| < |old(r.Pending())|
  {
    hide BitReader.Valid, BitReader.Pending, Reading, ToRead, TablesFor, Readable, ReadNext, Int32;
    nextSym, groupNo, groupPos, k := nextSym0, groupNo0, groupPos0, k0;
    var N := 1;
    es, length := -1, 0;
    ghost var weight: nat := 1;
    while true
      invariant r.Valid() && nextSym <= RUNB && es == Int32(length - 1) && N == Int32(weight)
      invariant 0 <= groupPos < G_SIZE && k == G_SIZE * (groupNo + 1) - groupPos && (groupPos > 0 ==> groupNo < |c.selectors|)
      invariant Reading(goal, c, n, k, y, length, weight, room, nextSym, r.Pending(), out)
      invariant |r.Pending()| <= |old(r.Pending())|
      decreases |r.Pending()|
    {
      TakeDigit(goal, c, n, k, y, length, weight, room, nextSym, r.Pending(), out);
      DigitWraps(length - 1, weight);
      if nextSym == RUNA { es := Int32(es + N); } else { es := Int32(es + Int32(2 * N)); }
      length := length + if nextSym == RUNA then weight else 2 * weight;
      N, weight := Int32(N * 2), 2 * weight;
      ReadOne(goal, c, n, k, y, length, weight, room, r.Pending(), out);
      status, nextSym, groupNo, groupPos := GetMtfVal(r, c, tables, groupNo, groupPos, k, n + 2);
      if !status.Read? { return; }
      k := k + 1;
      if nextSym > RUNB { break; }
    }
    WeightSpent(goal, c, n, k, y, length, weight, room, nextSym, r.Pending(), out);
    Int32Sum(length - 1, 1);
    es := Int32(es + 1);
  }

  /** Adding a digit to sums that are held in 32 bits. */
  lemma DigitWraps(es: int, weight: nat)
    ensures Int32(Int32(es) + Int32(weight)) == Int32(es + weight)
    ensures Int32(Int32(weight) * 2) == Int32(2 * weight)
    ensures Int32(Int32(es) + Int32(2 * Int32(weight))) == Int32(es + 2 * weight)
  {
    hide Int32;
    Int32Sum(es, weight);
    Int32Sum(weight, weight);
    Int32Sum(es, 2 * weight);
  }

  lemma WeightSpent(goal: Parse<seq<nat>>, c: Coding, n: nat, k: nat, y: seq<nat>, es: nat, weight: nat, room: nat,
                    sym: nat, bits: seq<bool>, out: seq<nat>)
    requires Reading(goal, c, n, k, y, es, weight, room, sym, bits, out) && sym > RUNB
    ensures Reading(goal, c, n, k, y, es, 1, room, sym, bits, out)
  {
    hide Readable, Ranked, Unpack, ToFront;
  }

  /** One run of the front character. */
  method StoreRunOf(tt: array<nat>, nblock0: nat, unzftab: array<nat>, es: nat, uc: Byte, ghost l: seq<Byte>, ghost d: Byte)
    returns (full: bool, nblock: nat)
    requires nblock0 <= tt.Length && tt != unzftab && tt[..nblock0] == l && unzftab.Length == 256
    requires Tallied(l, unzftab[..], d, 0)
    modifies tt, unzftab
    ensures full == (es > tt.Length - nblock0)
    ensures !full ==> nblock == nblock0 + es && tt[..nblock] == l + Copies(uc, es) && Tallied(l + Copies(uc, es), unzftab[..], uc, 0)
  {
    hide Tallied;
    ghost var counts := unzftab[..];
    TallyAdd(l, counts, d, uc, es);
    unzftab[uc] := unzftab[uc] + es;
    assert unzftab[..] == counts[uc := counts[uc] + es];
    TallyRun(l, unzftab[..], uc, es);
    full, nblock := FillRun(tt, nblock0, es, uc);
  }

  method StoreOne(tt: array<nat>, nblock: nat, unzftab: array<nat>, uc: Byte, ghost l: seq<Byte>, ghost d: Byte)
    requires nblock < tt.Length && tt != unzftab && tt[..nblock] == l && unzftab.Length == 256
    requires Tallied(l, unzftab[..], d, 0)
    modifies tt, unzftab
    ensures tt[..nblock + 1] == l + [uc] && Tallied(l + [uc], unzftab[..], uc, 0)
  {
    hide Tallied;
    ghost var counts := unzftab[..];
    TallyAdd(l, counts, d, uc, 1);
    unzftab[uc] := unzftab[uc] + 1;
    assert unzftab[..] == counts[uc := counts[uc] + 1];
    TallyOne(l, unzftab[..], uc, 1);
    tt[nblock] := uc;
  }

  lemma FrontLetter(c: Coding, inUse: seq<bool>, goal: Parse<seq<nat>>, n: nat, k: nat, y: seq<nat>, es: nat, room: nat,
                    sym: nat, bits: seq<bool>, out: seq<nat>, j: nat)
    requires Reading(goal, c, n, k, y, es, 1, room, sym, bits, out) && j < n && |inUse| == 256 && n == NInUse(inUse)
    ensures |y| == 256 && n <= 256 && |UsedCharacters(inUse, |inUse|)| == n && y[j] < n && UsedCharacters(inUse, |inUse|)[y[j]] == Letter(inUse, y[j])
  {
    hide Readable, Unpack, ToFront, After;
  }

  /** The part of the column written so far: renumbered, in characters and counted. */
  ghost predicate Written(inUse: seq<bool>, seqToUnseq: seq<nat>, n: nat, out: seq<nat>, l: seq<Byte>, unzftab: seq<nat>, last: Byte) {
    && Stored(inUse, n, out, l) && seqToUnseq == UsedCharacters(inUse, |inUse|)
    && Tallied(l, unzftab, last, 0)
  }

  lemma Begin(inUse: seq<bool>, seqToUnseq: seq<nat>, n: nat, unzftab: seq<nat>)
    requires |inUse| == 256 && n == NInUse(inUse) > 0 && seqToUnseq == UsedCharacters(inUse, |inUse|)
    requires |unzftab| == 256 && forall i :: 0 <= i < 256 ==> unzftab[i] == 0
    ensures Written(inUse, seqToUnseq, n, [], [], unzftab, 0)
  {
    hide NInUse, UsedCharacters;
    forall c: Byte ensures Places([], c) == [] {
      EmptyHasNoPlaces([], c);
    }
  }

  /** Write the pending run of the front character. */
  method WriteRun(mtf: MtfList, tt: array<nat>, nblock0: nat, unzftab: array<nat>, seqToUnseq: seq<nat>, es: nat, ghost length: nat,
                  ghost goal: Parse<seq<nat>>, ghost c: Coding, ghost inUse: seq<bool>, ghost n: nat, ghost k: nat, ghost sym: nat,
                  ghost bits: seq<bool>, ghost out0: seq<nat>, ghost l0: seq<Byte>, ghost last0: Byte)
    returns (full: bool, nblock: nat, ghost out: seq<nat>, ghost l: seq<Byte>, ghost last: Byte)
    requires mtf.Valid() && nblock0 <= tt.Length && tt != unzftab && tt[..nblock0] == l0 && unzftab.Length == 256
    requires tt != mtf.mtfa && unzftab != mtf.mtfa && tt as object != mtf.mtfbase && unzftab as object != mtf.mtfbase
    requires Written(inUse, seqToUnseq, n, out0, l0, unzftab[..], last0) && n > 0 && sym > RUNB
    requires es == Int32(length) && Reading(goal, c, n, k, mtf.Contents(), length, 1, tt.Length - nblock0, sym, bits, out0)
    modifies tt, unzftab
    ensures mtf.Valid() && mtf.Contents() == old(mtf.Contents())
    ensures full ==> goal == Bad
    ensures !full ==> nblock <= tt.Length && tt[..nblock] == l && Written(inUse, seqToUnseq, n, out, l, unzftab[..], last)
    ensures !full ==> Reading(goal, c, n, k, mtf.Contents(), 0, 1, tt.Length - nblock, sym, bits, out)
  {
    hide Reading, Stored, Tallied, Letter, UsedCharacters, NInUse, UsedBelow, MtfList.Valid, MtfList.Contents, Copies, Int32;
    ghost var y, room := mtf.Contents(), tt.Length - nblock0;
    StoredIs(inUse, n, out0, l0);
    FrontLetter(c, inUse, goal, n, k, y, length, room, sym, bits, out0, 0);
    TakeRun(goal, c, n, k, y, length, 1, room, sym, bits, out0);
    StoreRun(inUse, n, out0, l0, y[0], es);
    var front := mtf.Front();
    var uc: Byte := seqToUnseq[front];
    full, nblock := StoreRunOf(tt, nblock0, unzftab, es, uc, l0, last0);
    out, l, last := out0 + Copies(y[0], es), l0 + Copies(uc, es), uc;
  }

  /** Write the character that the symbol sym moves to the front. */
  method WriteMove(mtf: MtfList, tt: array<nat>, nblock: nat, unzftab: array<nat>, seqToUnseq: seq<nat>, sym: nat,
                   ghost goal: Parse<seq<nat>>, ghost c: Coding, ghost inUse: seq<bool>, ghost n: nat, ghost k: nat,
                   ghost bits: seq<bool>, ghost out0: seq<nat>, ghost l0: seq<Byte>, ghost last0: Byte)
    returns (full: bool, ghost out: seq<nat>, ghost l: seq<Byte>, ghost last: Byte)
    requires mtf.Valid() && nblock <= tt.Length && tt != unzftab && tt[..nblock] == l0 && unzftab.Length == 256
    requires tt != mtf.mtfa && unzftab != mtf.mtfa && tt as object != mtf.mtfbase && unzftab as object != mtf.mtfbase
    requires Written(inUse, seqToUnseq, n, out0, l0, unzftab[..], last0) && RUNB < sym <= n
    requires Reading(goal, c, n, k, mtf.Contents(), 0, 1, tt.Length - nblock, sym, bits, out0)
    modifies tt, unzftab, mtf.mtfa, mtf.mtfbase
    ensures full ==> goal == Bad
    ensures !full ==>
              && nblock < tt.Length && tt[..nblock + 1] == l && Written(inUse, seqToUnseq, n, out, l, unzftab[..], last)
              && mtf.Valid() && ToRead(goal, c, n, k, mtf.Contents(), 0, 1, tt.Length - nblock - 1, bits, out)
  {
    hide Reading, ToRead, Stored, Tallied, Letter, UsedCharacters, NInUse, UsedBelow, MtfList.Valid, MtfList.Contents, ToFront;
    ghost var y := mtf.Contents();
    StoredIs(inUse, n, out0, l0);
    TakeMove(goal, c, n, k, y, 1, tt.Length - nblock, sym, bits, out0);
    full, out, l, last := nblock >= tt.Length, [], [], 0;
    if full { return; }
    FrontLetter(c, inUse, goal, n, k, y, 0, tt.Length - nblock, sym, bits, out0, sym - 1);
    StoreMore(inUse, n, out0, l0, y[sym - 1]);
    var item := mtf.Take(sym - 1);
    var uc: Byte := seqToUnseq[item];
    StoreOne(tt, nblock, unzftab, uc, l0, last0);
    out, l, last := out0 + [item], l0 + [uc], uc;
  }

  /** Read the symbols up to the end mark. The column goes to tt and its character counts to unzftab. */
  method ReadMtfValues(r: BitReader, c: Coding, tables: seq<CodeTable>, inUse: seq<bool>, seqToUnseq: seq<nat>, nInUse: nat,
                       tt: array<nat>, unzftab: array<nat>, ghost goal: Parse<seq<nat>>)
    returns (status: Status, nblock: nat, ghost out: seq<nat>, ghost l: seq<Byte>, ghost last: Byte)
    requires r.Valid() && |inUse| == 256 && nInUse == NInUse(inUse) > 0 && seqToUnseq == UsedCharacters(inUse, |inUse|)
    requires TablesFor(tables, c) && ToRead(goal, c, nInUse, 0, Iota(256), 0, 1, tt.Length, r.Pending(), [])
    requires tt != unzftab && unzftab.Length == 256
    requires forall t :: t in tables ==> t.perm != tt && t.perm != unzftab
    modifies r, tt, unzftab
    ensures r.Valid() && nblock <= tt.Length
    ensures Outcome(status, out, r.Pending()) == goal
    ensures status.Read? ==> tt[..nblock] == l && Written(inUse, seqToUnseq, nInUse, out, l, unzftab[..], last)
  {
    hide BitReader.Valid, BitReader.Pending, Reading, ToRead, TablesFor, Readable, ReadNext, Stored, Tallied, Written, Int32,
      UsedCharacters, NInUse, UsedBelow, MtfList.Valid, MtfList.Contents, ToFront;
    ghost var bits := r.Pending();
    nblock, out, l, last := 0, [], [], 0;
    for i := 0 to 256
      invariant r.Valid() && r.Pending() == bits && TablesFor(tables, c)
      invariant forall j :: 0 <= j < i ==> unzftab[j] == 0
    {
      unzftab[i] := 0;
    }
    assert Written(inUse, seqToUnseq, nInUse, out, l, unzftab[..], last) by { Begin(inUse, seqToUnseq, nInUse, unzftab[..]); }
    var mtf := new MtfList();
    var EOB := nInUse + 1;
    var nextSym, groupNo, groupPos;
    ghost var k := 0;
    ReadOne(goal, c, nInUse, 0, Iota(256), 0, 1, tt.Length, r.Pending(), []);
    status, nextSym, groupNo, groupPos := GetMtfVal(r, c, tables, -1, 0, 0, nInUse + 2);
    if !status.Read? { return; }
    k := 1;
    while nextSym != EOB
      invariant r.Valid() && mtf.Valid() && fresh(mtf.mtfa) && fresh(mtf.mtfbase)
      invariant TablesFor(tables, c) && nblock <= tt.Length && tt[..nblock] == l && status == Read
      invariant 0 <= groupPos < G_SIZE && k == G_SIZE * (groupNo + 1) - groupPos && (groupPos > 0 ==> groupNo < |c.selectors|)
      invariant Reading(goal, c, nInUse, k, mtf.Contents(), 0, 1, tt.Length - nblock, nextSym, r.Pending(), out)
      invariant Written(inUse, seqToUnseq, nInUse, out, l, unzftab[..], last)
      decreases |r.Pending()|
    {
      if nextSym == RUNA || nextSym == RUNB {
        var es, full;
        ghost var length;
        status, es, nextSym, groupNo, groupPos, k, length :=
          ReadRun(r, c, tables, nextSym, groupNo, groupPos, nInUse, k, goal, mtf.Contents(), tt.Length - nblock, out);
        if !status.Read? { return; }
        if es < 0 {
          // the source goes on with a negative count of the front character
          TakeRun(goal, c, nInUse, k, mtf.Contents(), length, 1, tt.Length - nblock, nextSym, r.Pending(), out);
          status := Unmodelled;
          return;
        }
        full, nblock, out, l, last := WriteRun(mtf, tt, nblock, unzftab, seqToUnseq, es, length, goal, c, inUse, nInUse, k, nextSym,
                                               r.Pending(), out, l, last);
        if full { status, nblock := DataError, 0; return; }
      } else {
        SymbolBound(goal, c, nInUse, k, mtf.Contents(), tt.Length - nblock, nextSym, r.Pending(), out);
        var full;
        full, out, l, last := WriteMove(mtf, tt, nblock, unzftab, seqToUnseq, nextSym, goal, c, inUse, nInUse, k, r.Pending(), out, l, last);
        if full { status := DataError; return; }
        nblock := nblock + 1;
        ReadOne(goal, c, nInUse, k, mtf.Contents(), 0, 1, tt.Length - nblock, r.Pending(), out);
        status, nextSym, groupNo, groupPos := GetMtfVal(r, c, tables, groupNo, groupPos, k, nInUse + 2);
        if !status.Read? { return; }
        k := k + 1;
      }
    }
    TakeEnd(goal, c, nInUse, k, mtf.Contents(), 1, tt.Length - nblock, r.Pending(), out);
  }

  lemma SymbolBound(goal: Parse<seq<nat>>, c: Coding, n: nat, k: nat, y: seq<nat>, room: nat, sym: nat, bits: seq<bool>, out: seq<nat>)
    requires Reading(goal, c, n, k, y, 0, 1, room, sym, bits, out)
    ensures sym < n + 2
  {
  }
}
