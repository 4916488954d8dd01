/** BZ2_decompress and BZ2_bzDecompress from the header of a stream to its trailer, by either way of undoing the sort. */
module Decompression {
  import opened Powers
  import opened Sequences
  import opened Bits
  import opened BitReading
  import opened CharPlaces
  import opened InverseBwt
  import opened BlockData
  import opened DecompressBlock
  import opened BlockReading
  import opened TVector
  import opened SmallDecode
  import opened RunLength
  import opened Unrle
  import opened StreamFormat
  import opened StreamAcceptance

  /** Read the bytes of wanted, one GET_UCHAR and one comparison each. */
  method ReadMagic(r: BitReader, wanted: seq<Byte>) returns (status: Status)
    requires r.Valid()
    modifies r
    ensures r.Valid() && Outcome(status, true, r.Pending()) == ReadExactly(wanted, old(r.Pending()))
  {
    hide BitReader.Valid, BitReader.Pending;
    ghost var bits := r.Pending();
    assert wanted[0..] == wanted;
    for i := 0 to |wanted|
      invariant r.Valid() && ReadExactly(wanted[i..], r.Pending()) == ReadExactly(wanted, bits)
    {
      assert wanted[i..][0] == wanted[i] && wanted[i..][1..] == wanted[i + 1..];
      var uc;
      status, uc := r.GetBits(8);
      if status.Wait? { return; }
      if uc != wanted[i] { status := DataError; return; }
    }
    status := Read;
  }

  lemma ByteIntoWord(w: Word, s: seq<bool>, byte: seq<bool>)
    requires |s| <= 24 && |byte| == 8 && w == Zeros(32 - |s|) + s
    ensures ToNat(byte) < 256 && Or(Shl(w, 8), ToBits(ToNat(byte), 32)) == Zeros(24 - |s|) + (s + byte)
  {
    hide ToBits, ToNat, Pow2;
    assert Pow2(8) == 256 by { Pow2Values(); }
    WiderBits(ToNat(byte), 8, 24);
    BitsOfNat(byte);
    assert Shl(w, 8) == Zeros(24 - |s|) + s + Zeros(8);
  }

  /** The first i bytes have been shifted into w. */
  ghost predicate Shifted(bits: seq<bool>, i: nat, rest: seq<bool>, w: Word) {
    i <= 4 && 8 * i <= |bits| && rest == bits[8 * i..] && w == Zeros(32 - 8 * i) + bits[..8 * i]
  }

  lemma ShiftByte(bits: seq<bool>, i: nat, rest: seq<bool>, w: Word)
    requires Shifted(bits, i, rest, w) && i < 4
    ensures if |rest| < 8 then Take(rest, 8) == More && ReadWord(bits) == More
            else Take(rest, 8).Done? && Shifted(bits, i + 1, Take(rest, 8).rest, Or(Shl(w, 8), ToBits(Take(rest, 8).value, 32)))
  {
    hide ToBits, ToNat, Or, Shl;
    if |rest| >= 8 {
      var byte := rest[..8];
      ByteIntoWord(w, bits[..8 * i], byte);
      assert bits[..8 * i] + byte == bits[..8 * (i + 1)];
      assert rest[8..] == bits[8 * (i + 1)..];
    }
  }

  lemma ShiftStarts(bits: seq<bool>)
    ensures Shifted(bits, 0, bits, ZERO)
  {
    assert bits[0..] == bits && ZERO == Zeros(32) + bits[..0];
  }

  lemma ShiftEnds(bits: seq<bool>, rest: seq<bool>, w: Word)
    requires Shifted(bits, 4, rest, w)
    ensures ReadWord(bits) == Done(w, rest)
  {
    assert Zeros(0) + bits[..32] == bits[..32];
  }

  /** A checksum, four bytes shifted in one after the other. */
  method ReadCrc(r: BitReader) returns (status: Status, stored: Word)
    requires r.Valid()
    modifies r
    ensures r.Valid() && Outcome(status, stored, r.Pending()) == ReadWord(old(r.Pending()))
  {
    hide BitReader.Valid, BitReader.Pending, ToBits, Or, Shl, Take, ReadWord, Shifted;
    ghost var bits := r.Pending();
    stored := ZERO;
    ShiftStarts(bits);
    for i := 0 to 4
      invariant r.Valid() && Shifted(bits, i, r.Pending(), stored)
    {
      ShiftByte(bits, i, r.Pending(), stored);
      var uc;
      status, uc := r.GetBits(8);
      if !status.Read? { return; }
      stored := Or(Shl(stored, 8), ToBits(uc, 32));
    }
    status := Read;
    ShiftEnds(bits, r.Pending(), stored);
  }

  lemma NextPiece(data: seq<Byte>, piece: seq<Byte>, before: Expansion, after: Expansion, all: Expansion)
    requires Before(data, before) == all && Before(piece, after) == before
    ensures Before(data + piece, after) == all && |before.bytes| == |piece| + |after.bytes|
  {
    assert data + (piece + after.bytes) == data + piece + after.bytes;
  }

  lemma LastPiece(data: seq<Byte>, after: Expansion, all: Expansion)
    requires Before(data, after) == all && after.bytes == []
    ensures all == Expansion(data, after.corrupt)
  {
    assert data + [] == data;
  }

  /** Take what remains of the output of a block, in pieces as large as the caller's buffers happen to be. */
  method TakeFast(f: FastOutput) returns (data: seq<Byte>, corrupt: bool)
    requires f.Valid()
    modifies f
    ensures data == old(f.Rest()).bytes && corrupt == old(f.Rest()).corrupt
    ensures f.calculatedBlockCRC == Fold(f.step, old(f.calculatedBlockCRC), data)
  {
    hide FastOutput.Valid, FastOutput.Rest, Fold, Before;
    data, corrupt := [], false;
    NothingWritten(f.Rest(), f.step, f.calculatedBlockCRC);
    while true
      invariant f.Valid() && Before(data, f.Rest()) == old(f.Rest())
      invariant f.calculatedBlockCRC == Fold(f.step, old(f.calculatedBlockCRC), data)
      decreases |f.Rest().bytes|
    {
      var availOut: nat :| availOut > 0;
      var piece;
      ghost var before := f.Rest();
      piece, corrupt := f.Output(availOut);
      FoldConcat(f.step, old(f.calculatedBlockCRC), data, piece);
      NextPiece(data, piece, before, f.Rest(), old(f.Rest()));
      data := data + piece;
      f.RestAtEnd();
      if corrupt || (f.nblockUsed == f.saveNblock + 1 && f.stateOutLen == 0) {
        LastPiece(data, f.Rest(), old(f.Rest()));
        return;
      }
    }
  }

  method TakeSmall(f: SmallOutput) returns (data: seq<Byte>, corrupt: bool)
    requires f.Valid()
    modifies f
    ensures data == old(f.Rest()).bytes && corrupt == old(f.Rest()).corrupt
    ensures f.calculatedBlockCRC == Fold(f.step, old(f.calculatedBlockCRC), data)
  {
    hide SmallOutput.Valid, SmallOutput.Rest, Fold, Before;
    data, corrupt := [], false;
    NothingWritten(f.Rest(), f.step, f.calculatedBlockCRC);
    while true
      invariant f.Valid() && Before(data, f.Rest()) == old(f.Rest())
      invariant f.calculatedBlockCRC == Fold(f.step, old(f.calculatedBlockCRC), data)
      decreases |f.Rest().bytes|
    {
      var availOut: nat :| availOut > 0;
      var piece;
      ghost var before := f.Rest();
      piece, corrupt := f.Output(availOut);
      FoldConcat(f.step, old(f.calculatedBlockCRC), data, piece);
      NextPiece(data, piece, before, f.Rest(), old(f.Rest()));
      data := data + piece;
      f.RestAtEnd();
      if corrupt || (f.nblockUsed == f.saveNblock + 1 && f.stateOutLen == 0) {
        LastPiece(data, f.Rest(), old(f.Rest()));
        return;
      }
    }
  }

  // ----- A block -----

  /** Read, unsort and expand a block in the fast way. */
  method ReadDataFast(r: BitReader, step: CrcStep, blockSize100k: nat)
    returns (status: Status, randomised: bool, data: seq<Byte>, corrupt: bool, crc: Word, ghost s: Sorted)
    requires r.Valid() && blockSize100k <= 9
    modifies r
    ensures r.Valid() && Outcome(status, s, r.Pending()) == ReadBlock(blockSize100k, old(r.Pending()))
    ensures status.Read? ==> s.origPtr < |s.column| && randomised == s.randomised
    ensures status.Read? && !randomised ==>
              crc == Fold(step, InitialCrc(), data) && Expansion(data, corrupt) == Expand(Stream(s.column, s.origPtr), |s.column|, 0)
    ensures !status.Read? || randomised ==> data == []
  {
    hide BitReader.Valid, BitReader.Pending, ReadBlock, PlacesBelow, Places, Linked, Stream, Expand, FastOutput.Valid, FastOutput.Rest, Fold;
    data, corrupt, crc := [], false, InitialCrc();
    var tt := new nat[100000 * blockSize100k];
    var origPtr, nblock, cftab;
    ghost var l;
    status, randomised, origPtr, nblock, cftab, l := ReadSorted(r, blockSize100k, tt);
    s := Sorted(randomised, origPtr, l);
    if !status.Read? || randomised { return; }
    FillTT(tt, nblock, cftab, l);
    var f := new FastOutput(step, InitialCrc(), tt, nblock, origPtr, l);
    data, corrupt := TakeFast(f);
    crc := f.calculatedBlockCRC;
  }

  /** The same with little memory. */
  method ReadDataSmall(r: BitReader, step: CrcStep, blockSize100k: nat)
    returns (status: Status, randomised: bool, data: seq<Byte>, corrupt: bool, crc: Word, ghost s: Sorted)
    requires r.Valid() && blockSize100k <= 9
    modifies r
    ensures r.Valid() && Outcome(status, s, r.Pending()) == ReadBlock(blockSize100k, old(r.Pending()))
    ensures status.Read? ==> s.origPtr < |s.column| && randomised == s.randomised
    ensures status.Read? && !randomised ==>
              crc == Fold(step, InitialCrc(), data) && Expansion(data, corrupt) == Expand(Stream(s.column, s.origPtr), |s.column|, 0)
    ensures !status.Read? || randomised ==> data == []
  {
    hide BitReader.Valid, BitReader.Pending, ReadBlock, PlacesBelow, Places, Stream, Expand, SmallOutput.Valid, SmallOutput.Rest, Fold,
      Entries, Slots, Order, Reversed;
    data, corrupt, crc := [], false, InitialCrc();
    var ll16, ll4 := new nat[100000 * blockSize100k], new Byte[(1 + 100000 * blockSize100k) / 2];
    var origPtr, nblock, cftab;
    ghost var l;
    status, randomised, origPtr, nblock, cftab, l := ReadSorted(r, blockSize100k, ll16);
    s := Sorted(randomised, origPtr, l);
    if !status.Read? || randomised { return; }
    ghost var cycle := PointBack(ll16, ll4, cftab, nblock, origPtr, l);
    var f := new SmallOutput(step, InitialCrc(), ll16, ll4, cftab, nblock, origPtr, l, cycle);
    data, corrupt := TakeSmall(f);
    crc := f.calculatedBlockCRC;
  }

  /** A block with its stored checksum. */
  method ReadChecked(r: BitReader, step: CrcStep, blockSize100k: nat, small: bool) returns (status: Status, data: seq<Byte>, stored: Word)
    requires r.Valid() && blockSize100k <= 9
    modifies r
    ensures r.Valid() && Outcome(status, (data, stored), r.Pending()) == StreamFormat.ReadOne(step, blockSize100k, old(r.Pending()))
    ensures data == BlockOut(blockSize100k, old(r.Pending()))
  {
    hide BitReader.Valid, BitReader.Pending, ReadBlock, Stream, Expand, Fold, Not;
    data := [];
    status, stored := ReadCrc(r);
    if !status.Read? { return; }
    var randomised, corrupt, crc;
    ghost var s;
    if small {
      status, randomised, data, corrupt, crc, s := ReadDataSmall(r, step, blockSize100k);
    } else {
      status, randomised, data, corrupt, crc, s := ReadDataFast(r, step, blockSize100k);
    }
    if !status.Read? { return; }
    if randomised {
      status := Unmodelled;
    } else if corrupt || Not(crc) != stored {
      status := DataError;
    }
  }

  // ----- The stream -----

  method ReadEnd(r: BitReader, combined: Word) returns (status: Status)
    requires r.Valid()
    modifies r
    ensures r.Valid() && Outcome(status, [], r.Pending()) == ReadTrailer(combined, old(r.Pending()))
  {
    hide BitReader.Valid, BitReader.Pending, ReadExactly, ReadWord;
    status := ReadMagic(r, EndMagic()[1..]);
    if !status.Read? { return; }
    var stored;
    status, stored := ReadCrc(r);
    if !status.Read? { return; }
    if stored != combined { status := DataError; }
  }

  lemma FirstByteRead(step: CrcStep, blockSize100k: nat, combined: Word, bits: seq<bool>)
    ensures !Take(bits, 8).Bad? && (Take(bits, 8).More? ==> ReadBlocks(step, blockSize100k, combined, bits) == More)
    ensures Take(bits, 8).Done? ==>
              && |Take(bits, 8).rest| < |bits|
              && ReadBlocks(step, blockSize100k, combined, bits)
              == if Take(bits, 8).value == EndMagic()[0] then ReadTrailer(combined, Take(bits, 8).rest)
                 else if Take(bits, 8).value != BlockMagic()[0] then Bad
                 else BlockReadOn(step, blockSize100k, combined, Take(bits, 8).rest)
  {
    hide ReadExactly, StreamFormat.ReadOne, ReadTrailer, Combine, ToNat;
  }

  /** What reading a block makes of the stream after the first byte of its magic number. */
  ghost function BlockReadOn(step: CrcStep, blockSize100k: nat, combined: Word, bits: seq<bool>): Parse<seq<Byte>> {
    match ReadExactly(BlockMagic()[1..], bits)
    case More => More
    case Bad => Bad
    case Outside => Outside
    case Done(_, rest) =>
      match StreamFormat.ReadOne(step, blockSize100k, rest)
      case More => More
      case Bad => Bad
      case Outside => Outside
      case Done(one, rest') => Prepend(one.0, ReadBlocks(step, blockSize100k, Combine(combined, one.1), rest'))
  }

  /** What is put out of the blocks from here on. */
  lemma FirstByteOut(step: CrcStep, blockSize100k: nat, bits: seq<bool>)
    ensures BlocksOut(step, blockSize100k, bits)
         == if Take(bits, 8).Done? && Take(bits, 8).value == BlockMagic()[0] then BlocksOutAfter(step, blockSize100k, Take(bits, 8).rest) else []
  {
    hide ReadExactly, StreamFormat.ReadOne, ToNat;
  }

  lemma PrependTwice(a: seq<Byte>, b: seq<Byte>, p: Parse<seq<Byte>>)
    ensures Prepend(a, Prepend(b, p)) == Prepend(a + b, p)
  {
    if p.Done? { assert a + (b + p.value) == a + b + p.value; }
  }

  /** Read all blocks and the trailer. */
  method DecompressBlocks(r: BitReader, step: CrcStep, blockSize100k: nat, small: bool) returns (status: Status, data: seq<Byte>)
    requires r.Valid() && blockSize100k <= 9
    modifies r
    ensures r.Valid() && Outcome(status, data, r.Pending()) == ReadBlocks(step, blockSize100k, ZERO, old(r.Pending()))
    ensures data == BlocksOut(step, blockSize100k, old(r.Pending()))
  {
    hide BitReader.Valid, BitReader.Pending, ReadBlocks, ReadExactly, ReadTrailer, StreamFormat.ReadOne, Combine, ToNat, BlocksOut, BlockOut;
    ghost var goal, all := ReadBlocks(step, blockSize100k, ZERO, r.Pending()), BlocksOut(step, blockSize100k, r.Pending());
    data := [];
    var combined := ZERO;
    PrependNothing(goal);
    while true
      invariant r.Valid() && Prepend(data, ReadBlocks(step, blockSize100k, combined, r.Pending())) == goal
      invariant data + BlocksOut(step, blockSize100k, r.Pending()) == all
      decreases |r.Pending()|
    {
      FirstByteRead(step, blockSize100k, combined, r.Pending());
      FirstByteOut(step, blockSize100k, r.Pending());
      assert data + [] == data;
      var first, piece, stored;
      status, first := r.GetBits(8);
      if status.Wait? { return; }
      if first == EndMagic()[0] {
        status := ReadEnd(r, combined);
        return;
      }
      if first != BlockMagic()[0] { status := DataError; return; }
      status := ReadMagic(r, BlockMagic()[1..]);
      if !status.Read? { return; }
      status, piece, stored := ReadChecked(r, step, blockSize100k, small);
      combined := Combine(combined, stored);
      PrependTwice(data, piece, ReadBlocks(step, blockSize100k, combined, r.Pending()));
      assert data + (piece + []) == data + piece;
      assert data + (piece + BlocksOut(step, blockSize100k, r.Pending())) == data + piece + BlocksOut(step, blockSize100k, r.Pending());
      data := data + piece;
      if !status.Read? { return; }
    }
  }

  /** Decompress a stream. With StreamRoundTrip: what was compressed is given back, however the input is cut into
      chunks, in whatever pieces the output is taken, and whichever way the sort is undone. magic tells
      BZ_DATA_ERROR_MAGIC from BZ_DATA_ERROR. */
  method DecompressStream(r: BitReader, step: CrcStep, small: bool) returns (status: Status, magic: bool, data: seq<Byte>)
    requires r.Valid()
    modifies r
    ensures r.Valid() && Outcome(status, data, r.Pending()) == ReadStream(step, old(r.Pending()))
    ensures data == StreamOut(step, old(r.Pending()))
    ensures status.Read? ==> Accepted(step, old(r.Pending()), data, r.Pending())
    ensures !status.Read? ==> forall other, rest :: !Accepted(step, old(r.Pending()), other, rest)
    ensures magic <==> OtherHeader(old(r.Pending()))
    ensures magic ==> status.DataError?
  {
    hide BitReader.Valid, BitReader.Pending, StreamOut, ReadStream, Accepted, HeaderBad, OtherHeader;
    ghost var bits := r.Pending();
    status, magic, data := ReadWhole(r, step, small);
    HeaderDecides(bits);
    AcceptedExactly(step, bits, data, r.Pending());
    forall other, rest | !status.Read? ensures !Accepted(step, bits, other, rest) { AcceptedExactly(step, bits, other, rest); }
  }

  /** The header, the blocks and the trailer. */
  method ReadWhole(r: BitReader, step: CrcStep, small: bool) returns (status: Status, magic: bool, data: seq<Byte>)
    requires r.Valid()
    modifies r
    ensures r.Valid() && Outcome(status, data, r.Pending()) == ReadStream(step, old(r.Pending()))
    ensures data == StreamOut(step, old(r.Pending()))
    ensures magic == HeaderBad(old(r.Pending())) && (magic ==> status.DataError?)
  {
    hide BitReader.Valid, BitReader.Pending, ReadBlocks, ReadExactly, ToNat, BlocksOut;
    data, magic := [], false;
    status := ReadMagic(r, Header(1)[..3]);
    if !status.Read? {
      magic := status.DataError?;
      return;
    }
    var level;
    status, level := r.GetBits(8);
    if status.Wait? { return; }
    if level < 0x31 || level > 0x39 {
      status, magic := DataError, true;
      return;
    }
    status, data := DecompressBlocks(r, step, level - 0x30, small);
  }
}
