/** What the decompressor makes of the beginning of a stream: a decision stands whatever follows, and a stream that is cut short is waited for. */
module StreamPrefixes {
  import opened Powers
  import opened Sequences
  import opened Bits
  import opened BitReading
  import opened MoveToFront
  import opened GenerateMtf
  import opened CharPlaces
  import opened CanonicalCodes
  import opened BlockFormat
  import opened Rotations
  import opened InverseBwt
  import opened BlockData
  import opened RunLength
  import opened Unrle
  import opened StreamFormat
  import opened StreamAcceptance

  /** What was decided is decided with more bits behind, and these are left over. */
  ghost predicate Stands<T>(before: Parse<T>, after: Parse<T>, x: seq<bool>) {
    match before
    case More => true
    case Done(v, rest) => after == Done(v, rest + x)
    case _ => after == before
  }

  lemma Further(bits: seq<bool>, x: seq<bool>, n: nat)
    requires n <= |bits|
    ensures (bits + x)[..n] == bits[..n] && (bits + x)[n..] == bits[n..] + x
  {
  }

  lemma TakeStands(bits: seq<bool>, n: nat, x: seq<bool>)
    ensures Stands(Take(bits, n), Take(bits + x, n), x)
  {
    hide ToNat;
    if n <= |bits| { Further(bits, x, n); }
  }

  lemma {:induction false} GroupsStand(used: seq<bool>, i: nat, bits: seq<bool>, x: seq<bool>)
    requires |used| == 16 && i <= 16
    ensures Stands(ReadGroups(used, i, bits), ReadGroups(used, i, bits + x), x)
    decreases 16 - i
  {
    if i < 16 {
      if !used[i] {
        GroupsStand(used, i + 1, bits, x);
      } else if |bits| >= 16 {
        Further(bits, x, 16);
        GroupsStand(used, i + 1, bits[16..], x);
      }
    }
  }

  lemma MapStands(bits: seq<bool>, x: seq<bool>)
    ensures Stands(ReadMap(bits), ReadMap(bits + x), x)
  {
    hide ReadGroups;
    if |bits| >= 16 {
      Further(bits, x, 16);
      GroupsStand(bits[..16], 0, bits[16..], x);
    }
  }

  lemma {:induction false} UnaryStands(j: nat, limit: nat, bits: seq<bool>, x: seq<bool>)
    requires j < limit
    ensures Stands(ReadUnary(j, limit, bits), ReadUnary(j, limit, bits + x), x)
    decreases |bits|
  {
    if bits != [] {
      Further(bits, x, 1);
      assert (bits + x)[0] == bits[0];
      if bits[0] && j + 1 < limit { UnaryStands(j + 1, limit, bits[1..], x); }
    }
  }

  lemma {:induction false} UnariesStand(count: nat, limit: nat, bits: seq<bool>, x: seq<bool>)
    requires limit > 0
    ensures Stands(ReadUnaries(count, limit, bits), ReadUnaries(count, limit, bits + x), x)
  {
    hide ReadUnary;
    if count > 0 {
      UnaryStands(0, limit, bits, x);
      var p := ReadUnary(0, limit, bits);
      if p.Done? { UnariesStand(count - 1, limit, p.rest, x); }
    }
  }

  lemma {:induction false} LengthStands(curr: int, bits: seq<bool>, x: seq<bool>)
    ensures Stands(ReadLength(curr, bits), ReadLength(curr, bits + x), x)
    decreases |bits|
  {
    if 1 <= curr <= LONGEST_CODE && bits != [] {
      Further(bits, x, 1);
      assert (bits + x)[0] == bits[0];
      if bits[0] && |bits| > 1 {
        Further(bits, x, 2);
        assert (bits + x)[1] == bits[1];
        LengthStands(if bits[1] then curr - 1 else curr + 1, bits[2..], x);
      }
    }
  }

  lemma {:induction false} LengthsStand(count: nat, curr: int, bits: seq<bool>, x: seq<bool>)
    ensures Stands(ReadLengths(count, curr, bits), ReadLengths(count, curr, bits + x), x)
    decreases count
  {
    hide ReadLength;
    if count > 0 {
      LengthStands(curr, bits, x);
      var p := ReadLength(curr, bits);
      if p.Done? { LengthsStand(count - 1, p.value, p.rest, x); }
    }
  }

  lemma {:induction false} TablesStand(nGroups: nat, alphaSize: nat, bits: seq<bool>, x: seq<bool>)
    ensures Stands(ReadTables(nGroups, alphaSize, bits), ReadTables(nGroups, alphaSize, bits + x), x)
  {
    hide ReadTable;
    if nGroups > 0 {
      TableStands(alphaSize, bits, x);
      var p := ReadTable(alphaSize, bits);
      if p.Done? { TablesStand(nGroups - 1, alphaSize, p.rest, x); }
    }
  }

  lemma TableStands(alphaSize: nat, bits: seq<bool>, x: seq<bool>)
    ensures Stands(ReadTable(alphaSize, bits), ReadTable(alphaSize, bits + x), x)
  {
    hide ReadLengths, Take;
    TakeStands(bits, 5, x);
    var p := Take(bits, 5);
    if p.Done? { LengthsStand(alphaSize, p.value, p.rest, x); }
  }

  lemma SelectorsStand(alphaSize: nat, nGroups: nat, bits: seq<bool>, x: seq<bool>)
    requires nGroups > 0
    ensures Stands(ReadSelectors(alphaSize, nGroups, bits), ReadSelectors(alphaSize, nGroups, bits + x), x)
  {
    hide ReadUnaries, ReadTables, Take, Readable, SelectorsOf;
    TakeStands(bits, 15, x);
    var p := Take(bits, 15);
    if p.Done? && p.value >= 1 {
      var n := if p.value <= MAX_SELECTORS then p.value else MAX_SELECTORS + 1;
      UnariesStand(n, nGroups, p.rest, x);
      var q := ReadUnaries(n, nGroups, p.rest);
      if q.Done? { TablesStand(nGroups, alphaSize, q.rest, x); }
    }
  }

  lemma CodingStands(alphaSize: nat, bits: seq<bool>, x: seq<bool>)
    ensures Stands(ReadCoding(alphaSize, bits), ReadCoding(alphaSize, bits + x), x)
  {
    hide ReadSelectors, Take, Readable;
    TakeStands(bits, 3, x);
    var p := Take(bits, 3);
    if p.Done? && 2 <= p.value <= 6 { SelectorsStand(alphaSize, p.value, p.rest, x); }
  }

  lemma {:induction false} SymbolStands(len: seq<Byte>, n: nat, v: nat, bits: seq<bool>, x: seq<bool>)
    requires n <= 255 && First(len, n) <= v
    ensures Stands(ReadFrom(len, n, v, bits), ReadFrom(len, n, v, bits + x), x)
    decreases |bits|
  {
    hide First, Count, Places;
    if n <= LONGEST_CODE && v >= First(len, n) + Count(len, n) && bits != [] {
      Further(bits, x, 1);
      assert (bits + x)[0] == bits[0];
      var v' := 2 * v + (if bits[0] then 1 else 0);
      LongerBeyond(len, n, v');
      SymbolStands(len, n + 1, v', bits[1..], x);
    }
  }

  lemma NextStands(c: Coding, alphaSize: nat, k: nat, bits: seq<bool>, x: seq<bool>)
    requires Readable(c, alphaSize)
    ensures Stands(ReadNext(c, alphaSize, k, bits), ReadNext(c, alphaSize, k, bits + x), x)
  {
    hide ReadFrom, Readable;
    if k / G_SIZE < |c.selectors| { SymbolStands(TableFor(c, alphaSize, k), 0, 0, bits, x); }
  }

  lemma {:induction false} UnpackStands(c: Coding, nInUse: nat, k: nat, y: seq<nat>, es: nat, weight: nat, room: nat, bits: seq<bool>, x: seq<bool>)
    requires Readable(c, nInUse + 2) && Ranked(y, nInUse)
    ensures Stands(Unpack(c, nInUse, k, y, es, weight, room, bits), Unpack(c, nInUse, k, y, es, weight, room, bits + x), x)
    decreases |bits|
  {
    hide ReadNext, Readable, Ranked, ToFront, Copies, AllBelow, Int32;
    NextStands(c, nInUse + 2, k, bits, x);
    var p := ReadNext(c, nInUse + 2, k, bits);
    if p.Done? {
      if p.value <= RUNB {
        UnpackStands(c, nInUse, k + 1, y, es + (if p.value == RUNA then weight else 2 * weight), 2 * weight, room, p.rest, x);
      } else if p.value != nInUse + 1 && 0 <= Int32(es) < room {
        FrontRanked(y, nInUse, p.value - 1);
        UnpackStands(c, nInUse, k + 1, ToFront(y, p.value - 1), 0, 1, room - Int32(es) - 1, p.rest, x);
      }
    }
  }

  lemma ColumnStands(nblockMAX: nat, bits: seq<bool>, x: seq<bool>)
    ensures Stands(ReadColumn(nblockMAX, bits), ReadColumn(nblockMAX, bits + x), x)
  {
    hide ReadMap, ReadCoded, NInUse;
    MapStands(bits, x);
    var p := ReadMap(bits);
    if p.Done? && NInUse(p.value) > 0 { CodedStands(p.value, nblockMAX, p.rest, x); }
  }

  lemma CodedStands(inUse: seq<bool>, nblockMAX: nat, bits: seq<bool>, x: seq<bool>)
    requires |inUse| == 256 && NInUse(inUse) > 0
    ensures Stands(ReadCoded(inUse, nblockMAX, bits), ReadCoded(inUse, nblockMAX, bits + x), x)
  {
    hide ReadCoding, Unpack, Readable, Ranked, NInUse, Unnumber;
    var n := NInUse(inUse);
    CodingStands(n + 2, bits, x);
    var q := ReadCoding(n + 2, bits);
    if q.Done? {
      FirstRanked(inUse);
      UnpackStands(q.value, n, 0, Iota(256), 0, 1, nblockMAX, q.rest, x);
    }
  }

  lemma BlockStands(blockSize100k: nat, bits: seq<bool>, x: seq<bool>)
    ensures Stands(ReadBlock(blockSize100k, bits), ReadBlock(blockSize100k, bits + x), x)
  {
    hide ReadColumn, Take;
    TakeStands(bits, 1, x);
    var p := Take(bits, 1);
    if p.Done? {
      TakeStands(p.rest, 24, x);
      var q := Take(p.rest, 24);
      if q.Done? { ColumnStands(100000 * blockSize100k, q.rest, x); }
    }
  }

  lemma {:induction false} ExactlyStands(wanted: seq<Byte>, bits: seq<bool>, x: seq<bool>)
    ensures Stands(ReadExactly(wanted, bits), ReadExactly(wanted, bits + x), x)
  {
    hide Take;
    if wanted != [] {
      TakeStands(bits, 8, x);
      var p := Take(bits, 8);
      if p.Done? { ExactlyStands(wanted[1..], p.rest, x); }
    }
  }

  lemma WordStands(bits: seq<bool>, x: seq<bool>)
    ensures Stands(ReadWord(bits), ReadWord(bits + x), x)
  {
    if |bits| >= 32 { Further(bits, x, 32); }
  }

  lemma OneStands(step: CrcStep, blockSize100k: nat, bits: seq<bool>, x: seq<bool>)
    ensures Stands(ReadOne(step, blockSize100k, bits), ReadOne(step, blockSize100k, bits + x), x)
  {
    hide ReadBlock, ReadWord, Expand, Stream, Fold, Not;
    WordStands(bits, x);
    var p := ReadWord(bits);
    if p.Done? { BlockStands(blockSize100k, p.rest, x); }
  }

  lemma TrailerStands(combined: Word, bits: seq<bool>, x: seq<bool>)
    ensures Stands(ReadTrailer(combined, bits), ReadTrailer(combined, bits + x), x)
  {
    hide ReadExactly, ReadWord;
    ExactlyStands(EndMagic()[1..], bits, x);
    var p := ReadExactly(EndMagic()[1..], bits);
    if p.Done? { WordStands(p.rest, x); }
  }

  lemma {:induction false} BlocksStand(step: CrcStep, blockSize100k: nat, combined: Word, bits: seq<bool>, x: seq<bool>)
    ensures Stands(ReadBlocks(step, blockSize100k, combined, bits), ReadBlocks(step, blockSize100k, combined, bits + x), x)
    decreases |bits|
  {
    hide ReadExactly, ReadOne, ReadTrailer, Combine, Take;
    TakeStands(bits, 8, x);
    var p := Take(bits, 8);
    TakeShortens(bits);
    if p.Done? {
      TrailerStands(combined, p.rest, x);
      ExactlyStands(BlockMagic()[1..], p.rest, x);
      var q := ReadExactly(BlockMagic()[1..], p.rest);
      if q.Done? {
        OneStands(step, blockSize100k, q.rest, x);
        var o := ReadOne(step, blockSize100k, q.rest);
        if o.Done? { BlocksStand(step, blockSize100k, Combine(combined, o.value.1), o.rest, x); }
      }
    }
  }

  lemma TakeShortens(bits: seq<bool>)
    ensures !Take(bits, 8).Bad? && !Take(bits, 8).Outside? && (Take(bits, 8).Done? ==> |Take(bits, 8).rest| < |bits|)
  {
  }

  /** What the decompressor has decided stands, whatever comes after it: neither success nor refusal is taken back. */
  lemma DecisionStands(step: CrcStep, bits: seq<bool>, x: seq<bool>)
    ensures Stands(ReadStream(step, bits), ReadStream(step, bits + x), x)
  {
    hide ReadExactly, ReadBlocks, Take;
    ExactlyStands(Header(1)[..3], bits, x);
    var p := ReadExactly(Header(1)[..3], bits);
    if p.Done? {
      TakeStands(p.rest, 8, x);
      var q := Take(p.rest, 8);
      if q.Done? && 0x31 <= q.value <= 0x39 { BlocksStand(step, q.value - 0x30, ZERO, q.rest, x); }
    }
  }

  /** A stream that is accepted, cut short anywhere, is neither accepted nor refused: the decompressor waits for more. */
  lemma CutStreamWaits(step: CrcStep, bits: seq<bool>, data: seq<Byte>, rest: seq<bool>, n: nat)
    requires ReadStream(step, bits) == Done(data, rest) && n + |rest| < |bits|
    ensures ReadStream(step, bits[..n]) == More
  {
    hide ReadStream;
    DecisionStands(step, bits[..n], bits[n..]);
    assert bits[..n] + bits[n..] == bits;
  }
}
