/** A whole compressed stream: the header, the blocks with their checksums, and the trailer.
    Reading a stream that was written gives back all bytes that went into it. */
module StreamFormat {
  import opened Powers
  import opened Sequences
  import opened Bits
  import opened BitReading
  import opened BitWriting
  import opened Rotations
  import opened InverseBwt
  import opened GenerateMtf
  import opened BlockData
  import opened RunLength
  import opened Unrle

  function BlockMagic(): seq<Byte> {
    [0x31, 0x41, 0x59, 0x26, 0x53, 0x59]
  }

  function EndMagic(): seq<Byte> {
    [0x17, 0x72, 0x45, 0x38, 0x50, 0x90]
  }

  function InitialCrc(): Word {
    seq(32, _ => true)
  }

  function Header(blockSize100k: nat): seq<Byte>
    requires 1 <= blockSize100k <= 9
  {
    [0x42, 0x5a, 0x68, 0x30 + blockSize100k as Byte]
  }

  /** The checksum of all blocks: the one so far turned by one bit, with the next block's worked in. */
  function Combine(combined: Word, crc: Word): Word {
    Xor(Or(Shl(combined, 1), Shr(combined, 31)), crc)
  }

  // ----- What is written -----

  /** A block that is sent: the runs it was built from, its bytes, how they were sorted and coded, and its checksum. */
  datatype Sent = Sent(runs: seq<Run>, block: seq<Byte>, ptr: seq<nat>, origPtr: nat, inUse: seq<bool>, coding: Coding, crc: Word)

  ghost predicate GoodSent(step: CrcStep, blockSize100k: nat, s: Sent) {
    && 0 < |s.block| <= 100000 * blockSize100k <= 900000
    && GoodRuns(s.runs) && Holds(step, InitialCrc(), s.runs, s.block, s.inUse, s.crc)
    && SortedRotations(s.block, s.ptr) && s.origPtr < |s.block| && s.ptr[s.origPtr] == 0
    && Encodable(s.inUse, s.coding, LastColumn(s.block, s.ptr))
  }

  ghost function BlockBits(step: CrcStep, blockSize100k: nat, s: Sent): seq<bool>
    requires GoodSent(step, blockSize100k, s)
  {
    BytesToBits(BlockMagic()) + (Not(s.crc) + WriteBlock(LastColumn(s.block, s.ptr), s.origPtr, s.inUse, s.coding))
  }

  ghost predicate AllGood(step: CrcStep, blockSize100k: nat, sent: seq<Sent>) {
    forall i :: 0 <= i < |sent| ==> GoodSent(step, blockSize100k, sent[i])
  }

  ghost function BlocksBits(step: CrcStep, blockSize100k: nat, sent: seq<Sent>): seq<bool>
    requires AllGood(step, blockSize100k, sent)
  {
    if sent == [] then [] else BlockBits(step, blockSize100k, sent[0]) + BlocksBits(step, blockSize100k, sent[1..])
  }

  function CombinedCrc(combined: Word, sent: seq<Sent>): Word
    decreases |sent|
  {
    if sent == [] then combined else CombinedCrc(Combine(combined, Not(sent[0].crc)), sent[1..])
  }

  ghost function StreamBits(step: CrcStep, blockSize100k: nat, sent: seq<Sent>): seq<bool>
    requires 1 <= blockSize100k <= 9 && AllGood(step, blockSize100k, sent)
  {
    BytesToBits(Header(blockSize100k))
    + (BlocksBits(step, blockSize100k, sent) + (BytesToBits(EndMagic()) + CombinedCrc(ZERO, sent)))
  }

  /** The bytes that went into the blocks. */
  function SentData(sent: seq<Sent>): seq<Byte> {
    if sent == [] then [] else DataOf(sent[0].runs) + SentData(sent[1..])
  }

  // ----- What is read -----

  /** The bytes of wanted, and nothing else. */
  function ReadExactly(wanted: seq<Byte>, bits: seq<bool>): (p: Parse<bool>)
    ensures p.Done? ==> |p.rest| <= |bits|
  {
    if wanted == [] then Done(true, bits)
    else
      match Take(bits, 8)
      case Done(v, rest) => if v == wanted[0] then ReadExactly(wanted[1..], rest) else Bad
      case More => More
      case Bad => Bad
      case Outside => Outside
  }

  function ReadWord(bits: seq<bool>): Parse<Word> {
    if |bits| < 32 then More else Done(bits[..32], bits[32..])
  }

  /** A block with its checksum, expanded. What becomes of a randomised block once it is read is not modelled. */
  ghost function ReadOne(step: CrcStep, blockSize100k: nat, bits: seq<bool>): (p: Parse<(seq<Byte>, Word)>)
    ensures p.Done? ==> |p.rest| <= |bits|
  {
    match ReadWord(bits)
    case More => More
    case Bad => Bad
    case Outside => Outside
    case Done(stored, rest) =>
      match ReadBlock(blockSize100k, rest)
      case More => More
      case Bad => Bad
      case Outside => Outside
      case Done(s, rest) =>
        var e := Expand(Stream(s.column, s.origPtr), |s.column|, 0);
        if s.randomised then Outside
        else if e.corrupt || Not(Fold(step, InitialCrc(), e.bytes)) != stored then Bad
        else Done((e.bytes, stored), rest)
  }

  /** Blocks up to the trailer, after the first byte of a magic number told them apart. */
  ghost function ReadBlocks(step: CrcStep, blockSize100k: nat, combined: Word, bits: seq<bool>): Parse<seq<Byte>>
    decreases |bits|
  {
    match Take(bits, 8)
    case More => More
    case Bad => Bad
    case Outside => Outside
    case Done(first, rest) =>
      if first == EndMagic()[0] then ReadTrailer(combined, rest)
      else if first != BlockMagic()[0] then Bad
      else
        match ReadExactly(BlockMagic()[1..], rest)
        case More => More
        case Bad => Bad
        case Outside => Outside
        case Done(_, rest') =>
          match ReadOne(step, blockSize100k, rest')
          case More => More
          case Bad => Bad
          case Outside => Outside
          case Done(one, rest'') =>
            match ReadBlocks(step, blockSize100k, Combine(combined, one.1), rest'')
            case More => More
            case Bad => Bad
            case Outside => Outside
            case Done(more, end) => Done(one.0 + more, end)
  }

  function ReadTrailer(combined: Word, bits: seq<bool>): Parse<seq<Byte>> {
    match ReadExactly(EndMagic()[1..], bits)
    case More => More
    case Bad => Bad
    case Outside => Outside
    case Done(_, rest) =>
      match ReadWord(rest)
      case More => More
      case Bad => Bad
      case Outside => Outside
      case Done(stored, rest') => if stored == combined then Done([], rest') else Bad
  }

  ghost function ReadStream(step: CrcStep, bits: seq<bool>): Parse<seq<Byte>> {
    match ReadExactly(Header(1)[..3], bits)
    case More => More
    case Bad => Bad
    case Outside => Outside
    case Done(_, rest) =>
      match Take(rest, 8)
      case More => More
      case Bad => Bad
      case Outside => Outside
      case Done(level, rest') =>
        if level < 0x31 || level > 0x39 then Bad else ReadBlocks(step, level - 0x30, ZERO, rest')
  }

  // ----- What is put out, whatever comes of it in the end -----

  /** The bytes of a block go out before its checksum is compared, and those in front of a corrupt place before it is noticed. */
  ghost function BlockOut(blockSize100k: nat, bits: seq<bool>): seq<Byte> {
    match ReadWord(bits)
    case Done(_, rest) => (
      match ReadBlock(blockSize100k, rest)
      case Done(s, _) => if s.randomised then [] else Expand(Stream(s.column, s.origPtr), |s.column|, 0).bytes
      case _ => [])
    case _ => []
  }

  ghost function BlocksOut(step: CrcStep, blockSize100k: nat, bits: seq<bool>): seq<Byte>
    decreases |bits|, 0
  {
    match Take(bits, 8)
    case Done(first, rest) =>
      if first != BlockMagic()[0] then [] else BlocksOutAfter(step, blockSize100k, rest)
    case _ => []
  }

  /** The same after the first byte of a block's magic number. */
  ghost function BlocksOutAfter(step: CrcStep, blockSize100k: nat, bits: seq<bool>): seq<Byte>
    decreases |bits|, 1
  {
    match ReadExactly(BlockMagic()[1..], bits)
    case Done(_, rest) => BlockOut(blockSize100k, rest) + (
      match ReadOne(step, blockSize100k, rest)
      case Done(_, rest') => BlocksOut(step, blockSize100k, rest')
      case _ => [])
    case _ => []
  }

  ghost function StreamOut(step: CrcStep, bits: seq<bool>): seq<Byte> {
    match ReadExactly(Header(1)[..3], bits)
    case Done(_, rest) => (
      match Take(rest, 8)
      case Done(level, rest') => if level < 0x31 || level > 0x39 then [] else BlocksOut(step, level - 0x30, rest')
      case _ => [])
    case _ => []
  }

  // ----- Reading what was written -----

  lemma ByteBits(b: Byte, s: seq<Byte>)
    ensures BytesToBits([b] + s) == ToBits(b, 8) + BytesToBits(s)
  {
    BytesConcat([b], s);
    assert [b][..0] == [];
    assert BytesToBits([b]) == BytesToBits([]) + ToBits(b, 8);
  }

  lemma {:induction false} ExactRoundTrip(s: seq<Byte>, rest: seq<bool>)
    ensures ReadExactly(s, BytesToBits(s) + rest) == Done(true, rest)
  {
    hide ToBits, BytesToBits, Take;
    if s == [] {
      assert BytesToBits([]) + rest == rest by { NoBytes(); }
    } else {
      ExactRoundTrip(s[1..], rest);
      FirstByte(s, rest);
    }
  }

  lemma FirstByte(s: seq<Byte>, rest: seq<bool>)
    requires s != []
    ensures Take(BytesToBits(s) + rest, 8) == Done(s[0], BytesToBits(s[1..]) + rest)
  {
    hide ToBits, BytesToBits, Take;
    ByteBits(s[0], s[1..]);
    assert s == [s[0]] + s[1..];
    assert Pow2(8) == 256;
    TakeWritten(s[0], 8, BytesToBits(s[1..]) + rest);
    assert ToBits(s[0], 8) + BytesToBits(s[1..]) + rest == ToBits(s[0], 8) + (BytesToBits(s[1..]) + rest);
  }

  lemma WordRoundTrip(w: Word, rest: seq<bool>)
    ensures ReadWord(w + rest) == Done(w, rest)
  {
    assert (w + rest)[..32] == w && (w + rest)[32..] == rest;
  }

  /** A block is read back, expanded to the bytes it was built from, and its checksum agrees. */
  lemma OneRoundTrip(step: CrcStep, blockSize100k: nat, s: Sent, rest: seq<bool>)
    requires GoodSent(step, blockSize100k, s)
    ensures ReadOne(step, blockSize100k, Not(s.crc) + WriteBlock(LastColumn(s.block, s.ptr), s.origPtr, s.inUse, s.coding) + rest)
         == Done((DataOf(s.runs), Not(s.crc)), rest)
  {
    hide ReadBlock, WriteBlock, SortedRotations, Encodable, Holds, Expand, GoodRuns, ReadWord, DecodeBlock, Stream, Not, Fold, LastColumn;
    SortedShape(s.block, s.ptr);
    var l := LastColumn(s.block, s.ptr);
    var body := WriteBlock(l, s.origPtr, s.inUse, s.coding);
    WordRoundTrip(Not(s.crc), body + rest);
    assert Not(s.crc) + body + rest == Not(s.crc) + (body + rest);
    BlockRoundTrip(s.block, s.ptr, s.origPtr, s.inUse, s.coding, blockSize100k, rest);
    StreamStartsWithBlock(l, s.origPtr);
    assert Stream(l, s.origPtr)[..|s.block|] == s.block by { DecodedIs(l, s.origPtr); }
    BuiltBlockExpands(step, InitialCrc(), s.runs, s.block, s.inUse, s.crc, Stream(l, s.origPtr));
  }

  lemma SortedShape(b: seq<Byte>, ptr: seq<nat>)
    requires SortedRotations(b, ptr)
    ensures |ptr| == |b| && (forall i :: 0 <= i < |ptr| ==> ptr[i] < |b|) && |LastColumn(b, ptr)| == |b|
  {
  }

  lemma DecodedIs(l: seq<Byte>, origPtr: nat)
    requires origPtr < |l|
    ensures DecodeBlock(Sorted(false, origPtr, l)) == Invert(l, origPtr)
  {
  }

  lemma MagicStarts(s: seq<Byte>, rest: seq<bool>)
    requires s != []
    ensures Take(BytesToBits(s) + rest, 8) == Done(s[0], BytesToBits(s[1..]) + rest)
    ensures ReadExactly(s[1..], BytesToBits(s[1..]) + rest) == Done(true, rest)
  {
    FirstByte(s, rest);
    ExactRoundTrip(s[1..], rest);
  }

  lemma TrailerRoundTrip(step: CrcStep, blockSize100k: nat, combined: Word, rest: seq<bool>)
    ensures ReadBlocks(step, blockSize100k, combined, BytesToBits(EndMagic()) + combined + rest) == Done([], rest)
  {
    hide ReadExactly, BytesToBits, ReadWord, Take, ReadOne;
    assert BytesToBits(EndMagic()) + combined + rest == BytesToBits(EndMagic()) + (combined + rest);
    MagicStarts(EndMagic(), combined + rest);
    WordRoundTrip(combined, rest);
  }

  /** All blocks and the trailer are read back. */
  lemma {:induction false} BlocksRoundTrip(step: CrcStep, blockSize100k: nat, combined: Word, sent: seq<Sent>, rest: seq<bool>)
    requires AllGood(step, blockSize100k, sent)
    ensures ReadBlocks(step, blockSize100k, combined,
              BlocksBits(step, blockSize100k, sent) + (BytesToBits(EndMagic()) + CombinedCrc(combined, sent)) + rest)
         == Done(SentData(sent), rest)
    decreases |sent|
  {
    hide ReadExactly, BytesToBits, ReadWord, Take, ReadOne, ReadBlocks, GoodSent, WriteBlock, Combine, DataOf, LastColumn;
    if sent == [] {
      TrailerRoundTrip(step, blockSize100k, combined, rest);
      var trailer := BytesToBits(EndMagic()) + combined;
      assert [] + trailer + rest == trailer + rest;
    } else {
      var s := sent[0];
      var combined' := Combine(combined, Not(s.crc));
      BlocksRoundTrip(step, blockSize100k, combined', sent[1..], rest);
      var tail := BlocksBits(step, blockSize100k, sent[1..]) + (BytesToBits(EndMagic()) + CombinedCrc(combined', sent[1..])) + rest;
      BlockThenBlocks(step, blockSize100k, combined, s, tail);
      var bits := BlockBits(step, blockSize100k, s);
      var more := BlocksBits(step, blockSize100k, sent[1..]);
      var trailer := BytesToBits(EndMagic()) + CombinedCrc(combined, sent);
      assert bits + more + trailer + rest == bits + (more + trailer + rest);
    }
  }

  lemma BlockThenBlocks(step: CrcStep, blockSize100k: nat, combined: Word, s: Sent, tail: seq<bool>)
    requires GoodSent(step, blockSize100k, s)
    ensures ReadBlocks(step, blockSize100k, combined, BlockBits(step, blockSize100k, s) + tail)
         == match ReadBlocks(step, blockSize100k, Combine(combined, Not(s.crc)), tail)
            case Done(more, end) => Done(DataOf(s.runs) + more, end)
            case p => p
  {
    hide ReadExactly, BytesToBits, ReadWord, Take, ReadOne, GoodSent, WriteBlock, Combine, DataOf, LastColumn;
    SentShape(step, blockSize100k, s);
    var body := Not(s.crc) + WriteBlock(LastColumn(s.block, s.ptr), s.origPtr, s.inUse, s.coding);
    assert BytesToBits(BlockMagic()) + body + tail == BytesToBits(BlockMagic()) + (body + tail);
    MagicStarts(BlockMagic(), body + tail);
    OneRoundTrip(step, blockSize100k, s, tail);
  }

  lemma SentShape(step: CrcStep, blockSize100k: nat, s: Sent)
    requires GoodSent(step, blockSize100k, s)
    ensures |s.ptr| == |s.block| && (forall i :: 0 <= i < |s.ptr| ==> s.ptr[i] < |s.block|)
    ensures Encodable(s.inUse, s.coding, LastColumn(s.block, s.ptr))
  {
  }

  /** A stream made of any good blocks is read back to the bytes that went into them, and ends where it was ended. */
  lemma StreamRoundTrip(step: CrcStep, blockSize100k: nat, sent: seq<Sent>, rest: seq<bool>)
    requires 1 <= blockSize100k <= 9 && AllGood(step, blockSize100k, sent)
    ensures ReadStream(step, StreamBits(step, blockSize100k, sent) + rest) == Done(SentData(sent), rest)
  {
    hide ReadExactly, BytesToBits, Take, ReadBlocks, BlocksBits, AllGood, CombinedCrc, SentData;
    var h := Header(blockSize100k);
    var tail := BlocksBits(step, blockSize100k, sent) + (BytesToBits(EndMagic()) + CombinedCrc(ZERO, sent));
    BlocksRoundTrip(step, blockSize100k, ZERO, sent, rest);
    BytesConcat(h[..3], h[3..]);
    assert h == h[..3] + h[3..] && h[..3] == Header(1)[..3];
    assert BytesToBits(h) + tail + rest == BytesToBits(h[..3]) + (BytesToBits(h[3..]) + (tail + rest));
    ExactRoundTrip(h[..3], BytesToBits(h[3..]) + (tail + rest));
    FirstByte(h[3..], tail + rest);
    assert h[3..][1..] == [] && BytesToBits([]) + (tail + rest) == tail + rest by { NoBytes(); }
  }
}
