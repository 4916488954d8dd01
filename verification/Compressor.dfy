/** BZ2_compressBlock, handle_compress and BZ2_bzCompress: the compressor as a machine that is called with
    any input and any room for output, and told to run, to flush or to finish. */
module Compression {
  import opened Powers
  import opened Sequences
  import opened Bits
  import BitReading
  import opened BitWriting
  import opened Rotations
  import opened InverseBwt
  import opened GenerateMtf
  import opened BlockData
  import opened SmallBuckets
  import opened RadixSorting
  import opened CompressBlock
  import opened RunLength
  import opened StreamFormat
  import SendMtf

  datatype Mode = Idle | Running | Flushing | Finishing

  datatype State = Output | Input

  datatype Action = Run | Flush | Finish | Other

  datatype Code = RunOk | FlushOk | FinishOk | StreamEnd | SequenceError | ParamError

  // ----- What the stream is made of -----

  lemma {:induction false} OneMoreSent(step: CrcStep, k: nat, sent: seq<Sent>, s: Sent, combined: Word)
    requires AllGood(step, k, sent) && GoodSent(step, k, s)
    ensures AllGood(step, k, sent + [s]) && BlocksBits(step, k, sent + [s]) == BlocksBits(step, k, sent) + BlockBits(step, k, s)
    ensures SentData(sent + [s]) == SentData(sent) + DataOf(s.runs)
    ensures CombinedCrc(combined, sent + [s]) == Combine(CombinedCrc(combined, sent), Not(s.crc))
    decreases |sent|
  {
    hide GoodSent, BlockBits, DataOf, Combine, Not;
    if sent == [] {
      assert [s][1..] == [] && [] + [s] == [s];
      assert BlocksBits(step, k, []) == [];
    } else {
      OneMoreSent(step, k, sent[1..], s, Combine(combined, Not(sent[0].crc)));
      assert (sent + [s])[1..] == sent[1..] + [s];
    }
  }

  /** What has been written after the header and the blocks sent. */
  ghost function Begun(step: CrcStep, k: nat, sent: seq<Sent>): seq<bool>
    requires 1 <= k <= 9 && AllGood(step, k, sent)
  {
    BytesToBits(Header(k)) + BlocksBits(step, k, sent)
  }

  // ----- Writing a block -----

  method PutUChar(w: BitWriter, c: Byte)
    requires w.Valid()
    modifies w
    ensures w.Valid() && w.Written() == old(w.Written()) + ToBits(c, 8)
  {
    assert Pow2(8) == 256;
    w.Write(8, c);
  }

  method PutBytes(w: BitWriter, s: seq<Byte>)
    requires w.Valid()
    modifies w
    ensures w.Valid() && w.Written() == old(w.Written()) + BytesToBits(s)
  {
    hide BitWriter.Valid, BitWriter.Written, ToBits, BytesToBits;
    ghost var goal := w.Written() + BytesToBits(s);
    assert s[0..] == s;
    for i := 0 to |s|
      invariant w.Valid() && w.Written() + BytesToBits(s[i..]) == goal
    {
      ByteBits(s[i], s[i + 1..]);
      assert s[i..] == [s[i]] + s[i + 1..];
      ghost var before := w.Written();
      PutUChar(w, s[i]);
      assert before + (ToBits(s[i], 8) + BytesToBits(s[i + 1..])) == before + ToBits(s[i], 8) + BytesToBits(s[i + 1..]);
    }
    assert s[|s|..] == [];
    NoBytes();
  }

  /** bsPutUInt32. */
  method PutWord(w: BitWriter, u: Word)
    requires w.Valid()
    modifies w
    ensures w.Valid() && w.Written() == old(w.Written()) + u
  {
    hide BitWriter.Valid, BitWriter.Written, ToBits, ToNat;
    ghost var before := w.Written();
    for i := 0 to 4
      invariant w.Valid() && w.Written() == before + u[..8 * i]
    {
      var part := u[8 * i..8 * i + 8];
      BitsOfNat(part);
      assert Pow2(8) == 256;
      PutUChar(w, ToNat(part));
      assert u[..8 * i] + part == u[..8 * i + 8];
    }
    assert u[..32] == u;
  }

  /** Sort a block, code it and write it. */
  method SortAndWrite(w: BitWriter, bytes: seq<Byte>, inUse: seq<bool>, strategy: Strategy) returns (ghost ptr: seq<nat>, origPtr: nat, c: Coding)
    requires w.Valid() && 0 < |bytes| <= 900000 && AllInUse(inUse, bytes) && SortsAll(strategy)
    modifies w
    ensures SortedRotations(bytes, ptr) && origPtr < |bytes| && |ptr| == |bytes| && ptr[origPtr] == 0
    ensures (forall i :: 0 <= i < |ptr| ==> ptr[i] < |bytes|) && Encodable(inUse, c, LastColumn(bytes, ptr))
    ensures w.Valid() && w.Written() == old(w.Written()) + WriteBlock(LastColumn(bytes, ptr), origPtr, inUse, c)
  {
    hide BitWriter.Valid, BitWriter.Written, SortedRotations, Encodable, WriteBlock, LastColumn, AllInUse, SortsAll;
    var n := |bytes|;
    var block := new Byte[n](i requires 0 <= i < n => bytes[i]);
    assert block[..] == bytes;
    var order, eclass, bhtab, ftab := new nat[n], new nat[n], new Word[n / 32 + 3], new nat[BUCKETS + 1];
    origPtr := BlockSort(order, eclass, block, bhtab, ftab, strategy);
    SortedShape(bytes, order[..]);
    c := WriteSorted(w, order, block, origPtr, inUse);
    ptr := order[..];
  }

  /** The block with its magic number and checksum. */
  method SendBlock(w: BitWriter, builder: BlockBuilder, strategy: Strategy, ghost k: nat) returns (ghost s: Sent)
    requires w.Valid() && builder.Valid() && builder.initialCrc == InitialCrc() && SortsAll(strategy)
    requires 0 < |builder.block| <= 100000 * k <= 900000
    modifies w
    ensures w.Valid() && GoodSent(builder.step, k, s) && s.runs == builder.runs && s.block == builder.block && s.crc == builder.blockCRC
    ensures w.Written() == old(w.Written()) + BlockBits(builder.step, k, s)
  {
    hide BitWriter.Valid, BitWriter.Written, SortedRotations, Encodable, WriteBlock, LastColumn, Holds, GoodRuns, AllInUse, BytesToBits, Not, SortsAll;
    ghost var before := w.Written();
    InUseOfBlock(builder.step, builder.initialCrc, builder.runs, builder.block, builder.inUse, builder.blockCRC);
    RunsAreGood(builder);
    PutBytes(w, BlockMagic());
    PutWord(w, Not(builder.blockCRC));
    ghost var ptr;
    var origPtr, c;
    ptr, origPtr, c := SortAndWrite(w, builder.block, builder.inUse, strategy);
    s := Sent(builder.runs, builder.block, ptr, origPtr, builder.inUse, c, builder.blockCRC);
    BlockSent(builder.step, k, s, before);
  }

  lemma BlockSent(step: CrcStep, k: nat, s: Sent, before: seq<bool>)
    requires 0 < |s.block| <= 100000 * k <= 900000 && GoodRuns(s.runs) && Holds(step, InitialCrc(), s.runs, s.block, s.inUse, s.crc)
    requires SortedRotations(s.block, s.ptr) && s.origPtr < |s.block| == |s.ptr| && s.ptr[s.origPtr] == 0
    requires (forall i :: 0 <= i < |s.ptr| ==> s.ptr[i] < |s.block|) && Encodable(s.inUse, s.coding, LastColumn(s.block, s.ptr))
    ensures GoodSent(step, k, s)
    ensures before + BytesToBits(BlockMagic()) + Not(s.crc) + WriteBlock(LastColumn(s.block, s.ptr), s.origPtr, s.inUse, s.coding)
         == before + BlockBits(step, k, s)
  {
    hide SortedRotations, Encodable, WriteBlock, LastColumn, Holds, GoodRuns, BytesToBits, Not;
    var body := WriteBlock(LastColumn(s.block, s.ptr), s.origPtr, s.inUse, s.coding);
    assert before + BytesToBits(BlockMagic()) + Not(s.crc) + body == before + (BytesToBits(BlockMagic()) + (Not(s.crc) + body));
  }

  lemma InUseOfBlock(step: CrcStep, crc0: Word, runs: seq<RunLength.Run>, block: seq<Byte>, inUse: seq<bool>, crc: Word)
    requires Holds(step, crc0, runs, block, inUse, crc)
    ensures AllInUse(inUse, block)
  {
  }

  lemma RunsAreGood(builder: BlockBuilder)
    requires builder.Valid()
    ensures GoodRuns(builder.runs)
  {
    var pending := PendingRun(builder.stateInCh, builder.stateInLen);
    var all := builder.runs + pending;
    forall i | 0 < i < |builder.runs| ensures Separate(builder.runs[i - 1], builder.runs[i].ch) {
      assert Separate(all[i - 1], all[i].ch);
    }
  }

  // ----- The machine -----

  /** The header and the blocks sent have been written, or nothing yet. */
  ghost predicate Laid(step: CrcStep, k: nat, sent: seq<Sent>, bits: seq<bool>, begun: bool)
    requires 1 <= k <= 9 && AllGood(step, k, sent)
  {
    if begun then bits == Begun(step, k, sent) else bits == [] && sent == []
  }

  /** The whole stream has been written, with fewer than eight zeros to fill the last byte. */
  ghost predicate Complete(step: CrcStep, k: nat, sent: seq<Sent>, bytes: seq<Byte>)
    requires 1 <= k <= 9 && AllGood(step, k, sent)
  {
    exists z: nat :: z < 8 && BytesToBits(bytes) == StreamBits(step, k, sent) + Zeros(z)
  }

  lemma LaidMore(step: CrcStep, k: nat, sent: seq<Sent>, bits: seq<bool>, s: Sent, combined: Word)
    requires 1 <= k <= 9 && AllGood(step, k, sent) && Laid(step, k, sent, bits, true) && GoodSent(step, k, s)
    requires combined == CombinedCrc(ZERO, sent)
    ensures AllGood(step, k, sent + [s]) && Laid(step, k, sent + [s], bits + BlockBits(step, k, s), true)
    ensures Combine(combined, Not(s.crc)) == CombinedCrc(ZERO, sent + [s])
    ensures SentData(sent + [s]) == SentData(sent) + DataOf(s.runs)
  {
    hide GoodSent, BlockBits, DataOf, Combine, Not, BlocksBits, AllGood, SentData, CombinedCrc;
    OneMoreSent(step, k, sent, s, ZERO);
    var h := BytesToBits(Header(k));
    assert h + BlocksBits(step, k, sent) + BlockBits(step, k, s) == h + (BlocksBits(step, k, sent) + BlockBits(step, k, s));
  }

  lemma LaidHeader(step: CrcStep, k: nat)
    requires 1 <= k <= 9
    ensures AllGood(step, k, []) && Laid(step, k, [], BytesToBits(Header(k)), true)
  {
    assert BytesToBits(Header(k)) + [] == BytesToBits(Header(k));
  }

  lemma TrailerCompletes(step: CrcStep, k: nat, sent: seq<Sent>, prior: seq<Byte>, zbits: seq<Byte>, written: seq<bool>, z: nat)
    requires 1 <= k <= 9 && AllGood(step, k, sent) && Laid(step, k, sent, BytesToBits(prior) + written, true) && z < 8
    requires BytesToBits(zbits) == written + BytesToBits(EndMagic()) + CombinedCrc(ZERO, sent) + Zeros(z)
    ensures Complete(step, k, sent, prior + zbits)
  {
    hide AllGood, BlocksBits, BytesToBits, CombinedCrc;
    BytesConcat(prior, zbits);
    var p, m, c := BytesToBits(prior), BytesToBits(EndMagic()), CombinedCrc(ZERO, sent);
    var h, b := BytesToBits(Header(k)), BlocksBits(step, k, sent);
    assert p + (written + m + c + Zeros(z)) == (p + written) + m + c + Zeros(z);
    assert h + b + m + c + Zeros(z) == h + (b + (m + c)) + Zeros(z);
  }

  lemma NothingLaid(step: CrcStep, k: nat, sent: seq<Sent>, p: seq<bool>, written: seq<bool>)
    requires 1 <= k <= 9 && AllGood(step, k, sent) && Laid(step, k, sent, p + written, false)
    ensures p == [] && written == [] && sent == []
  {
    assert |p + written| == 0;
  }

  method SendHeader(w: BitWriter, k: nat, ghost p: seq<bool>, ghost step: CrcStep)
    requires w.Valid() && 1 <= k <= 9 && p == [] && w.Written() == []
    modifies w
    ensures w.Valid() && AllGood(step, k, []) && Laid(step, k, [], p + w.Written(), true)
  {
    hide BitWriter.Valid, BitWriter.Written, Laid;
    LaidHeader(step, k);
    PutBytes(w, Header(k));
    assert p + ([] + BytesToBits(Header(k))) == BytesToBits(Header(k));
  }

  method SendNextBlock(w: BitWriter, builder: BlockBuilder, strategy: Strategy, ghost k: nat, ghost p: seq<bool>, ghost sent: seq<Sent>, combined: Word)
    returns (combined': Word, ghost s: Sent)
    requires w.Valid() && builder.Valid() && builder.initialCrc == InitialCrc() && 1 <= k <= 9 && 0 < |builder.block| <= 100000 * k
    requires SortsAll(strategy)
    requires AllGood(builder.step, k, sent) && Laid(builder.step, k, sent, p + w.Written(), true) && combined == CombinedCrc(ZERO, sent)
    modifies w
    ensures w.Valid() && AllGood(builder.step, k, sent + [s]) && Laid(builder.step, k, sent + [s], p + w.Written(), true)
    ensures combined' == CombinedCrc(ZERO, sent + [s])
    ensures SentData(sent + [s]) == SentData(sent) + DataOf(builder.runs) && s.block == builder.block
  {
    hide BitWriter.Valid, BitWriter.Written, BlockBuilder.Valid, AllGood, GoodSent, SentData, CombinedCrc, Laid, DataOf, Combine, Not, SortsAll;
    ghost var before := w.Written();
    s := SendBlock(w, builder, strategy, k);
    LaidMore(builder.step, k, sent, p + before, s, combined);
    assert p + before + BlockBits(builder.step, k, s) == p + (before + BlockBits(builder.step, k, s));
    combined' := Combine(combined, Not(builder.blockCRC));
  }

  method SendTrailer(w: BitWriter, combined: Word, ghost k: nat, ghost prior: seq<Byte>, ghost step: CrcStep, ghost sent: seq<Sent>)
    requires w.Valid() && 1 <= k <= 9 && AllGood(step, k, sent) && Laid(step, k, sent, BytesToBits(prior) + w.Written(), true)
    requires combined == CombinedCrc(ZERO, sent)
    modifies w
    ensures Complete(step, k, sent, prior + w.zbits)
  {
    hide BitWriter.Valid, BitWriter.Written, AllGood, CombinedCrc, Laid, Complete, BytesToBits;
    ghost var written := w.Written();
    PutBytes(w, EndMagic());
    PutWord(w, combined);
    w.Finish();
    ghost var z: nat :| z < 8 && BytesToBits(w.zbits) == written + BytesToBits(EndMagic()) + combined + Zeros(z);
    TrailerCompletes(step, k, sent, prior, w.zbits, written, z);
  }

  /** The blocks sent since then are full, except perhaps the last one if it may be short. */
  ghost predicate FullSince(before: seq<Sent>, after: seq<Sent>, full: int, lastMayBeShort: bool) {
    before <= after && forall i :: |before| <= i < |after| ==> |after[i].block| >= full || (lastMayBeShort && i == |after| - 1)
  }

  lemma NoneSince(sent: seq<Sent>, full: int, short: bool)
    ensures FullSince(sent, sent, full, short)
  {
  }

  lemma FullAgain(a: seq<Sent>, b: seq<Sent>, c: seq<Sent>, full: int, short: bool)
    requires FullSince(a, b, full, false) && FullSince(b, c, full, short)
    ensures FullSince(a, c, full, short)
  {
    forall i | |a| <= i < |b| ensures |c[i].block| >= full { assert c[i] == b[i]; }
  }

  class Compressor {
    const blockSize100k: nat
    const nblockMAX: int
    const builder: BlockBuilder
    const w: BitWriter
    const strategy: Strategy
    var mode: Mode
    var state: State
    var availInExpect: nat
    var stateOutPos: nat
    var blockNo: nat
    var combinedCRC: Word
    // bz_stream: the input the caller has given, the room for output, and all output given to the caller so far.
    var availIn: seq<Byte>
    var availOut: nat
    var out: seq<Byte>
    ghost var sent: seq<Sent>
    ghost var consumed: seq<Byte>
    ghost var prior: seq<Byte>
    ghost var ended: bool

    ghost function Pending(): seq<Byte>
      reads builder
    {
      DataOf(PendingRun(builder.stateInCh, builder.stateInLen))
    }

    /** isempty_RL. */
    predicate IsEmptyRL()
      reads builder
    {
      !(builder.stateInCh < NO_CHAR && builder.stateInLen > 0)
    }

    ghost predicate Kept()
      reads `sent, `combinedCRC, `stateOutPos, `out, `prior, `blockNo, builder, w
    {
      && 1 <= blockSize100k <= 9 && nblockMAX == 100000 * blockSize100k - 19 && SortsAll(strategy)
      && builder.Valid() && builder.initialCrc == InitialCrc() && |builder.block| <= 100000 * blockSize100k - 10
      && AllGood(builder.step, blockSize100k, sent) && combinedCRC == CombinedCrc(ZERO, sent)
      && stateOutPos <= |w.zbits| && out == prior + w.zbits[..stateOutPos] && blockNo >= 1
    }

    /** While a block is being filled nothing is waiting to go out. */
    ghost predicate Filling()
      requires 1 <= blockSize100k <= 9 && AllGood(builder.step, blockSize100k, sent)
      reads `sent, `ended, `prior, `consumed, `blockNo, builder, w
    {
      && !ended && w.Valid() && w.zbits == []
      && Laid(builder.step, blockSize100k, sent, BytesToBits(prior) + w.Written(), blockNo > 1)
      && consumed == SentData(sent) + builder.Data()
    }

    /** There is room in the block for the next byte and what it may make of the run before it. */
    ghost predicate Ready()
      reads builder
    {
      (builder.stateInCh == NO_CHAR ==> builder.block == []) && |builder.block| <= nblockMAX + 4
    }

    /** While output is being drained the block has been sent, but for the pending run. */
    ghost predicate Draining()
      requires 1 <= blockSize100k <= 9 && AllGood(builder.step, blockSize100k, sent)
      reads `sent, `ended, `prior, `consumed, `blockNo, builder, w
    {
      && (if ended then Complete(builder.step, blockSize100k, sent, prior + w.zbits)
          else w.Valid() && Laid(builder.step, blockSize100k, sent, BytesToBits(prior) + w.Written(), true))
      && consumed == SentData(sent) + Pending()
    }

    ghost predicate Valid()
      reads this, builder, w
    {
      && Kept()
      && (state == Input ==> Filling() && Ready() && |builder.block| < nblockMAX)
      && (state == Output ==> Draining())
      && (ended ==> IsEmptyRL() && state == Output && (mode == Finishing || mode == Idle) && (mode == Finishing ==> availInExpect == 0))
      && (mode == Idle ==> ended && stateOutPos == |w.zbits|)
      && (state == Output && !ended && IsEmptyRL() ==> mode == Flushing)
    }

    /** BZ2_bzCompressInit. */
    constructor (step: CrcStep, blockSize100k: nat, strategy: Strategy)
      requires 1 <= blockSize100k <= 9 && SortsAll(strategy)
      ensures Valid() && fresh(builder) && fresh(w) && builder.step == step && this.blockSize100k == blockSize100k
      ensures mode == Running && consumed == [] && out == [] && sent == []
    {
      hide SortsAll, BitWriter.Valid, BitWriter.Written, BlockBuilder.Valid, BlockBuilder.Data, BytesToBits, Complete, Begun, GoodSent;
      var b := new BlockBuilder(step, InitialCrc());
      var bits := new BitWriter();
      this.blockSize100k, nblockMAX, builder, w, this.strategy := blockSize100k, 100000 * blockSize100k - 19, b, bits, strategy;
      mode, state, availInExpect, stateOutPos, blockNo, combinedCRC := Running, Input, 0, 0, 1, ZERO;
      availIn, availOut, out := [], 0, [];
      sent, consumed, prior, ended := [], [], [], false;
      new;
      NoBytes();
      assert Kept() && Filling() && Ready();
    }

    /** BZ2_compressBlock up to the trailer: the header in front of the first block, and the block if there is one. */
    method SendContents()
      requires Kept() && Filling()
      modifies `combinedCRC, `sent, w
      ensures Kept() && Draining() && old(sent) <= sent && |sent| == |old(sent)| + (if builder.block == [] then 0 else 1)
      ensures builder.block != [] ==> sent[|old(sent)|].block == builder.block
    {
      hide SortsAll, BitWriter.Valid, BitWriter.Written, BlockBuilder.Valid, BlockBuilder.Data, AllGood, GoodSent, SentData, CombinedCrc, Laid, BytesToBits,
        Complete, Combine, Not, DataOf;
      ghost var step, k, p := builder.step, blockSize100k, BytesToBits(prior);
      BuilderData();
      if blockNo == 1 {
        NothingLaid(step, k, sent, p, w.Written());
        SendHeader(w, blockSize100k, p, step);
      }
      if |builder.block| > 0 {
        ghost var s;
        combinedCRC, s := SendNextBlock(w, builder, strategy, k, p, sent, combinedCRC);
        sent := sent + [s];
      } else {
        assert SentData(sent) + (DataOf(builder.runs) + Pending()) == SentData(sent) + Pending();
      }
    }

    /** BZ2_compressBlock. */
    method CompressBlock(isLast: bool)
      requires Kept() && Filling() && (isLast ==> builder.stateInCh == NO_CHAR)
      modifies `combinedCRC, `sent, `ended, w
      ensures Kept() && Draining() && ended == isLast
      ensures old(sent) <= sent && |sent| == |old(sent)| + (if builder.block == [] then 0 else 1)
      ensures builder.block != [] ==> sent[|old(sent)|].block == builder.block
    {
      hide SortsAll, BitWriter.Valid, BitWriter.Written, BlockBuilder.Valid, BlockBuilder.Data, AllGood, SentData, CombinedCrc, Laid, BytesToBits, Complete;
      SendContents();
      if isLast {
        SendTrailer(w, combinedCRC, blockSize100k, prior, builder.step, sent);
      }
      ended := isLast;
    }

    /** The data of a block are those of its runs and of the pending run. */
    lemma BuilderData()
      requires builder.Valid()
      ensures builder.Data() == DataOf(builder.runs) + Pending()
      ensures builder.stateInCh == NO_CHAR ==> Pending() == []
      ensures builder.block == [] ==> builder.runs == [] && DataOf(builder.runs) == []
    {
      var p := PendingRun(builder.stateInCh, builder.stateInLen);
      if p == [] {
        assert builder.runs + p == builder.runs;
        assert DataOf(builder.runs) + [] == DataOf(builder.runs);
      } else {
        AppendRun(builder.runs, p[0]);
        AppendRun([], p[0]);
        assert [] + [p[0]] == p && builder.runs + [p[0]] == builder.runs + p;
      }
      EmptyBlock(builder.step, builder.initialCrc, builder.runs, builder.block, builder.inUse, builder.blockCRC);
    }

    /** copy_input_until_stop. */
    method CopyInput() returns (progress: bool)
      requires Kept() && Filling() && Ready() && (mode != Running ==> availInExpect == |availIn|)
      modifies `availIn, `availInExpect, `consumed, builder
      ensures Kept() && Filling() && Ready() && (old(|builder.block|) < nblockMAX && old(availIn) != [] ==> progress)
      ensures consumed + availIn == old(consumed + availIn) && progress == (|availIn| < old(|availIn|)) && |availIn| <= old(|availIn|)
      ensures |builder.block| >= nblockMAX || availIn == []
      ensures mode != Running ==> availInExpect == |availIn|
      ensures progress ==> builder.stateInCh < NO_CHAR
      ensures !progress ==> builder.block == old(builder.block) && IsEmptyRL() == old(IsEmptyRL())
      ensures |builder.block| <= old(|builder.block|) + 5 * (old(|availIn|) - |availIn|)
    {
      hide SortsAll, BitWriter.Valid, BitWriter.Written, BlockBuilder.Valid, BlockBuilder.Data, AllGood, SentData, CombinedCrc, Laid;
      progress := false;
      ghost var in0 := availIn;
      while true
        invariant Kept() && Filling() && Ready() && (!progress ==> builder.block == old(builder.block) && availIn == old(availIn) && IsEmptyRL() == old(IsEmptyRL()))
        invariant consumed + availIn == old(consumed + availIn) && progress == (|availIn| < |in0|) && |availIn| <= |in0|
        invariant mode != Running ==> availInExpect == |availIn|
        invariant progress ==> builder.stateInCh < NO_CHAR
        invariant |builder.block| <= old(|builder.block|) + 5 * (|in0| - |availIn|)
        decreases |availIn|
      {
        if |builder.block| >= nblockMAX { break; }
        if availIn == [] { break; }
        if mode != Running && availInExpect == 0 { break; }
        progress := true;
        ghost var c, data := consumed, builder.Data();
        builder.AddCharToBlock(availIn[0]);
        consumed := consumed + [availIn[0]];
        assert consumed + availIn[1..] == c + availIn;
        assert SentData(sent) + (data + [availIn[0]]) == SentData(sent) + data + [availIn[0]];
        availIn := availIn[1..];
        if mode != Running { availInExpect := availInExpect - 1; }
      }
    }

    /** copy_output_until_stop. */
    method CopyOutput() returns (progress: bool)
      requires Kept()
      modifies `stateOutPos, `availOut, `out
      ensures Kept() && stateOutPos <= |w.zbits| && (stateOutPos == |w.zbits| || availOut == 0)
      ensures progress == (|out| > |old(out)|) && old(out) <= out && stateOutPos >= old(stateOutPos)
      ensures |out| - |old(out)| == old(availOut) - availOut
    {
      hide SortsAll, BitWriter.Valid, BlockBuilder.Valid, AllGood, CombinedCrc;
      progress := false;
      while true
        invariant Kept() && progress == (|out| > |old(out)|) && old(out) <= out && stateOutPos >= old(stateOutPos)
        invariant |out| - |old(out)| == old(availOut) - availOut
        decreases availOut
      {
        if availOut == 0 { break; }
        if stateOutPos >= |w.zbits| { break; }
        progress := true;
        assert w.zbits[..stateOutPos] + [w.zbits[stateOutPos]] == w.zbits[..stateOutPos + 1];
        out := out + [w.zbits[stateOutPos]];
        stateOutPos := stateOutPos + 1;
        availOut := availOut - 1;
      }
    }

    /** prepare_new_block. */
    method PrepareNewBlock()
      requires Kept() && Draining() && !ended && stateOutPos == |w.zbits|
      modifies `stateOutPos, `blockNo, `prior, w, builder
      ensures Kept() && Filling() && Ready() && builder.block == [] && stateOutPos == 0 && w.zbits == []
      ensures builder.stateInCh == old(builder.stateInCh) && builder.stateInLen == old(builder.stateInLen)
    {
      hide SortsAll, BitWriter.Valid, BitWriter.Written, BlockBuilder.Valid, AllGood, SentData, CombinedCrc, Laid;
      ghost var z, live := w.zbits, w.Written();
      BytesConcat(prior, z);
      builder.NewBlock();
      w.Clear();
      assert BytesToBits(prior) + (BytesToBits(z) + w.Written()) == BytesToBits(prior) + BytesToBits(z) + w.Written();
      prior := prior + z;
      assert z[..|z|] == z;
      stateOutPos := 0;
      blockNo := blockNo + 1;
    }

    /** flush_RL on the block being filled. */
    method Flush()
      requires Kept() && Filling() && Ready()
      modifies builder
      ensures Kept() && Filling() && builder.stateInCh == NO_CHAR
    {
      hide SortsAll, BitWriter.Valid, BitWriter.Written, BlockBuilder.Valid, BlockBuilder.Data, AllGood, SentData, CombinedCrc, Laid;
      builder.FlushRL();
    }

    lemma RunIsPending()
      requires Kept() && Ready()
      ensures 1 <= blockSize100k <= 9 && nblockMAX > 0 && stateOutPos <= |w.zbits|
      ensures builder.block != [] ==> !IsEmptyRL()
      ensures builder.stateInCh == NO_CHAR ==> IsEmptyRL()
    {
    }

    /** What both halves of handle_compress's loop keep. */
    ghost predicate Handling()
      reads this, builder, w
    {
      Valid() && mode != Idle && (mode != Running ==> availInExpect == |availIn|)
    }

    /** Nothing is left to take in, pending or waiting to go out. */
    predicate Drained()
      reads this, builder, w
    {
      availInExpect == 0 && IsEmptyRL() && stateOutPos >= |w.zbits|
    }

    /** Either there is no more room, or there is nothing left to do. */
    ghost predicate Stopped()
      reads this, builder, w
    {
      && (mode != Running && Drained() ==> if mode == Flushing then state == Input else ended)
      && (availOut == 0 || if mode == Running then availIn == [] else Drained())
    }

    /** All of the input that was promised has been taken in, and the run that it ended with is in its block. */
    predicate Flushed()
      reads this, builder
    {
      mode != Running && availInExpect == 0 && IsEmptyRL()
    }

    /** The first half of the loop in handle_compress: drain the block that was sent and start the next. */
    method Drain() returns (progress: bool, stop: bool)
      requires Handling() && state == Output
      modifies `state, `stateOutPos, `blockNo, `availOut, `out, `prior, builder, w
      ensures Handling() && (stop ==> Stopped())
      ensures old(out) <= out && |out| - |old(out)| == old(availOut) - availOut && progress == (|out| > |old(out)|)
      ensures IsEmptyRL() == old(IsEmptyRL())
      ensures !stop ==> state == Input && builder.block == [] && !(mode != Running && availIn == [] && IsEmptyRL())
      ensures Flushed() == old(Flushed()) && (!stop ==> !Flushed())
    {
      hide SortsAll, BitWriter.Valid, BitWriter.Written, BlockBuilder.Valid, BlockBuilder.Data, AllGood, SentData, CombinedCrc, Laid,
        Complete, Compressor.Kept, Compressor.Filling, Compressor.Draining;
      stop := true;
      progress := CopyOutput();
      if stateOutPos < |w.zbits| { return; }
      if mode == Finishing && availInExpect == 0 && IsEmptyRL() { return; }
      PrepareNewBlock();
      RunIsPending();
      state := Input;
      if mode == Flushing && availInExpect == 0 && IsEmptyRL() { return; }
      stop := false;
    }

    /** The second half: take in what goes into the block, and send it when it is full or the input must be flushed. */
    method Fill() returns (progress: bool, stop: bool)
      requires Handling() && state == Input
      modifies `state, `availInExpect, `combinedCRC, `availIn, `sent, `consumed, `ended, builder, w
      ensures Handling() && (stop ==> Stopped())
      ensures consumed + availIn == old(consumed + availIn)
      ensures progress == (|availIn| < old(|availIn|)) && |availIn| <= old(|availIn|)
      ensures stop || state == Output
      ensures !stop && old(builder.block) == [] && old(availIn) != [] ==> progress
      ensures !stop && old(builder.block) == [] && old(availIn) == [] ==> mode != Running && IsEmptyRL()
      ensures !stop && old(IsEmptyRL()) && !IsEmptyRL() ==> progress
      ensures FullSince(old(sent), sent, nblockMAX, Flushed()) && (stop ==> sent == old(sent))
      ensures if stop then availIn == [] else |builder.block| >= nblockMAX || Flushed()
      ensures mode == Running && old(|builder.block|) + 5 * old(|availIn|) < nblockMAX ==> stop
    {
      hide SortsAll, BitWriter.Valid, BitWriter.Written, BlockBuilder.Valid, BlockBuilder.Data, AllGood, SentData, CombinedCrc, Laid,
        Complete, Compressor.Kept, Compressor.Filling, Compressor.Draining;
      RunIsPending();
      stop := false;
      progress := CopyInput();
      RunIsPending();
      if mode != Running && availInExpect == 0 {
        Flush();
        CompressBlock(mode == Finishing);
        state := Output;
      } else if |builder.block| >= nblockMAX {
        CompressBlock(false);
        state := Output;
      } else if availIn == [] {
        stop := true;
      }
    }

    /** handle_compress. */
    method HandleCompress() returns (progress: bool)
      requires Handling()
      modifies `state, `availInExpect, `stateOutPos, `blockNo, `combinedCRC, `availIn, `availOut, `out, `sent, `consumed, `prior, `ended,
        builder, w
      ensures Handling() && Stopped()
      ensures consumed + availIn == old(consumed + availIn) && old(out) <= out && |out| - |old(out)| == old(availOut) - availOut
      ensures progress == (|availIn| < old(|availIn|) || |out| > |old(out)|)
      ensures !progress ==> availIn == old(availIn) && out == old(out)
      ensures FullSince(old(sent), sent, nblockMAX, Flushed())
      ensures mode == Running && old(state) == Input && old(|builder.block|) + 5 * old(|availIn|) < nblockMAX ==>
                sent == old(sent) && out == old(out) && availIn == []
    {
      hide SortsAll, Compressor.Handling, Compressor.Stopped, FullSince;
      ghost var quiet, sent0 := mode == Running && state == Input && |builder.block| + 5 * |availIn| < nblockMAX, sent;
      var progressIn, progressOut, stop := false, false, false;
      NoneSince(sent, nblockMAX, Flushed() && state == Output);
      while !stop
        invariant Handling() && (stop ==> Stopped())
        invariant consumed + availIn == old(consumed + availIn) && old(out) <= out && |out| - |old(out)| == old(availOut) - availOut
        invariant progressIn == (|availIn| < old(|availIn|)) && progressOut == (|out| > |old(out)|) && |availIn| <= old(|availIn|)
        invariant FullSince(sent0, sent, nblockMAX, Flushed() && (stop || state == Output))
        invariant quiet ==> sent == sent0 && out == old(out)
        invariant quiet ==> if stop then availIn == [] else state == Input && availIn == old(availIn) && builder.block == old(builder.block)
        decreases !stop, |availIn|, if IsEmptyRL() then 0 else 1, if state == Input then 1 else 0
      {
        var p;
        if state == Output {
          p, stop := Drain();
          progressOut := progressOut || p;
        }
        if !stop {
          ghost var sent1 := sent;
          p, stop := Fill();
          progressIn := progressIn || p;
          FullAgain(sent0, sent1, sent, nblockMAX, Flushed());
        }
      }
      progress := progressIn || progressOut;
      if !progress { SameRest(consumed, availIn, old(consumed), old(availIn)); }
    }

    /** Everything that was consumed has been sent and is out. */
    ghost predicate AllOut()
      requires Valid()
      reads this, builder, w
    {
      IsEmptyRL() && stateOutPos == |w.zbits| && out == prior + w.zbits && SentData(sent) == consumed
    }

    /** The part of BZ2_bzCompress for a stream that only takes in more. */
    method CallRun() returns (code: Code)
      requires Valid() && mode == Running
      modifies this, builder, w
      ensures Valid() && mode == Running && consumed + availIn == old(consumed + availIn)
      ensures old(out) <= out && |out| - |old(out)| <= old(availOut)
      ensures code == if availIn != old(availIn) || out != old(out) then RunOk else ParamError
      ensures availIn == [] || |out| - |old(out)| == old(availOut)
      ensures FullSince(old(sent), sent, nblockMAX, false)
      ensures old(state) == Input && old(|builder.block|) + 5 * old(|availIn|) < nblockMAX ==> sent == old(sent) && out == old(out) && availIn == []
    {
      hide SortsAll, Compressor.Kept, Compressor.Filling, Compressor.Draining, Compressor.Ready, FullSince;
      var progress := HandleCompress();
      code := if progress then RunOk else ParamError;
    }

    /** The part of BZ2_bzCompress for a stream that is being flushed. */
    method CallFlush(action: Action) returns (code: Code)
      requires Valid() && mode == Flushing
      modifies this, builder, w
      ensures Valid() && consumed + availIn == old(consumed + availIn)
      ensures old(out) <= out && |out| - |old(out)| <= old(availOut)
      ensures code == SequenceError <==> action != Action.Flush || old(availInExpect) != |old(availIn)|
      ensures code == SequenceError ==> out == old(out) && availIn == old(availIn) && mode == Flushing
      ensures code != SequenceError ==> code == if mode == Running then RunOk else FlushOk
      ensures code == RunOk ==> availIn == [] && mode == Running && AllOut()
      ensures code == FlushOk ==> mode == Flushing && |out| - |old(out)| == old(availOut) && !Drained()
      ensures FullSince(old(sent), sent, nblockMAX, availIn == [] && IsEmptyRL())
      ensures action != Action.Flush || old(availInExpect) != |old(availIn)| ==> sent == old(sent)
    {
      hide SortsAll, Compressor.Kept, Compressor.Filling, Compressor.Draining, Compressor.Ready;
      if action != Action.Flush { return SequenceError; }
      if availInExpect != |availIn| { return SequenceError; }
      var _ := HandleCompress();
      if !Drained() { return FlushOk; }
      NothingPending();
      mode := Running;
      code := RunOk;
    }

    /** The part of BZ2_bzCompress for a stream that is being finished. */
    method CallFinish(action: Action) returns (code: Code)
      requires Valid() && mode == Finishing
      modifies this, builder, w
      ensures Valid() && consumed + availIn == old(consumed + availIn)
      ensures old(out) <= out && |out| - |old(out)| <= old(availOut)
      ensures action != Action.Finish || old(availInExpect) != |old(availIn)| ==> code == SequenceError
      ensures code == SequenceError ==> out == old(out) && availIn == old(availIn) && mode == Finishing
      ensures code != SequenceError ==> code == (if mode == Idle then StreamEnd else FinishOk) && (availIn != old(availIn) || out != old(out))
      ensures code == StreamEnd ==> availIn == [] && mode == Idle && AllOut() && ended
      ensures code == FinishOk ==> mode == Finishing && |out| - |old(out)| == old(availOut) && !Drained()
      ensures FullSince(old(sent), sent, nblockMAX, availIn == [] && IsEmptyRL())
      ensures action != Action.Finish || old(availInExpect) != |old(availIn)| ==> sent == old(sent)
    {
      hide SortsAll, Compressor.Kept, Compressor.Filling, Compressor.Draining, Compressor.Ready;
      if action != Action.Finish { return SequenceError; }
      if availInExpect != |availIn| { return SequenceError; }
      var progress := HandleCompress();
      if !progress { return SequenceError; }
      if !Drained() { return FinishOk; }
      NothingPending();
      mode := Idle;
      code := StreamEnd;
    }

    /** The caller sets next_in, avail_in and avail_out. */
    method SetBuffers(input: seq<Byte>, room: nat)
      requires Valid()
      modifies `availIn, `availOut
      ensures Valid() && availIn == input && availOut == room
    {
      hide SortsAll, Compressor.Kept, Compressor.Filling, Compressor.Draining, Compressor.Ready;
      availIn, availOut := input, room;
    }

    /** The end of the input is announced. */
    method SetMode(action: Action)
      requires Valid() && mode == Running && (action == Action.Flush || action == Action.Finish)
      modifies `mode, `availInExpect
      ensures Valid() && availInExpect == |availIn| && mode == if action == Action.Flush then Flushing else Finishing
    {
      hide SortsAll, Compressor.Kept, Compressor.Filling, Compressor.Draining, Compressor.Ready;
      availInExpect := |availIn|;
      mode := if action == Action.Flush then Flushing else Finishing;
    }

    /** BZ2_bzCompress, called with some input and some room for output. */
    method BzCompress(action: Action, input: seq<Byte>, room: nat) returns (code: Code, rest: seq<Byte>)
      requires Valid()
      modifies this, builder, w
      ensures Valid() && consumed + rest == old(consumed) + input
      ensures old(out) <= out && |out| - |old(out)| <= room
      ensures code == ParamError || code == SequenceError ==> out == old(out) && rest == input
      ensures old(mode) == Idle ==> code == SequenceError && mode == Idle
      ensures old(mode) == Running && action == Action.Other ==> code == ParamError && mode == Running
      ensures old(mode) == Running && action == Action.Run ==>
                && mode == Running && code == (if rest != input || out != old(out) then RunOk else ParamError)
                && (rest == [] || |out| - |old(out)| == room)
      ensures old(mode) == Flushing && (action != Action.Flush || |input| != old(availInExpect)) ==> code == SequenceError && mode == Flushing
      ensures old(mode) == Finishing && (action != Action.Finish || |input| != old(availInExpect)) ==> code == SequenceError && mode == Finishing
      ensures action == Action.Flush && (old(mode) == Running || (old(mode) == Flushing && |input| == old(availInExpect))) ==>
                code == if mode == Running then RunOk else FlushOk
      ensures action == Action.Finish && (old(mode) == Running || (old(mode) == Finishing && |input| == old(availInExpect))) ==>
                code == if mode == Idle then StreamEnd else if rest != input || out != old(out) then FinishOk else SequenceError
      ensures code == FlushOk || code == FinishOk ==> !Drained() && |out| - |old(out)| == room
      ensures code == StreamEnd ==>
                && rest == [] && IsEmptyRL() && mode == Idle
                && Complete(builder.step, blockSize100k, sent, out) && SentData(sent) == consumed
      ensures code == RunOk && action == Action.Flush ==> rest == [] && mode == Running && AllOut()
      ensures FullSince(old(sent), sent, nblockMAX, action != Action.Run && rest == [] && IsEmptyRL())
      ensures old(mode) == Running && action == Action.Run && old(state) == Input && old(|builder.block|) + 5 * |input| < nblockMAX ==>
                sent == old(sent) && out == old(out) && rest == []
    {
      hide SortsAll, Compressor.Kept, Compressor.Filling, Compressor.Draining, Compressor.Ready, Complete, FullSince, Compressor.Valid,
        Compressor.AllOut, Compressor.Drained;
      NoneSince(sent, nblockMAX, action != Action.Run && input == [] && IsEmptyRL());
      rest := input;
      SetBuffers(input, room);
      if mode == Idle { return SequenceError, rest; }
      if mode == Running {
        if action == Action.Run {
          code := CallRun();
          return code, availIn;
        }
        if action == Action.Other { return ParamError, rest; }
        SetMode(action);
      }
      if mode == Flushing {
        code := CallFlush(action);
      } else {
        code := CallFinish(action);
        if code == StreamEnd { EndedIsComplete(); }
      }
      rest := availIn;
    }

    lemma EndedIsComplete()
      requires Valid() && ended && AllOut()
      ensures 1 <= blockSize100k <= 9 && AllGood(builder.step, blockSize100k, sent)
      ensures Complete(builder.step, blockSize100k, sent, out) && IsEmptyRL() && SentData(sent) == consumed
    {
      hide SortsAll, BitWriter.Valid, BitWriter.Written, AllGood, SentData, CombinedCrc, Laid, Complete;
    }

    /** With nothing pending all that was consumed has been sent, and with nothing to drain all of it is out. */
    lemma NothingPending()
      requires Valid() && IsEmptyRL() && stateOutPos >= |w.zbits|
      ensures AllOut()
    {
      hide SortsAll, BitWriter.Valid, BitWriter.Written, AllGood, SentData, CombinedCrc, Laid, Complete;
      BuilderData();
      assert w.zbits[..|w.zbits|] == w.zbits;
      assert SentData(sent) + [] == SentData(sent) && [] + Pending() == Pending();
    }
  }

  lemma SameRest(c1: seq<Byte>, a1: seq<Byte>, c0: seq<Byte>, a0: seq<Byte>)
    requires c1 + a1 == c0 + a0 && |a1| == |a0|
    ensures a1 == a0
  {
    assert |c1 + a1| == |c0 + a0|;
    assert a1 == (c1 + a1)[|c1|..] && a0 == (c0 + a0)[|c0|..];
  }

  /** Decompressing a finished stream gives back all the input, whatever calls it was compressed by. */
  lemma FinishedStreamDecodes(step: CrcStep, k: nat, sent: seq<Sent>, out: seq<Byte>)
    requires 1 <= k <= 9 && AllGood(step, k, sent) && Complete(step, k, sent, out)
    ensures exists z: nat :: z < 8 && ReadStream(step, BytesToBits(out)) == BitReading.Done(SentData(sent), Zeros(z))
  {
    hide AllGood, StreamBits, ReadStream;
    var z: nat :| z < 8 && BytesToBits(out) == StreamBits(step, k, sent) + Zeros(z);
    StreamRoundTrip(step, k, sent, Zeros(z));
  }
}
