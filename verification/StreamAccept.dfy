/** What streams the decompressor accepts: those whose every block has the checksum stored with it, and whose trailer
    holds the combination of all of them. */
module StreamAcceptance {
  import opened Powers
  import opened Sequences
  import opened Bits
  import opened BitReading
  import opened MoveToFront
  import opened GenerateMtf
  import opened CharPlaces
  import opened CanonicalCodes
  import opened BlockFormat
  import opened Rotations
  import opened InverseBwt
  import opened BlockData
  import opened RunLength
  import opened Unrle
  import opened StreamFormat

  // ----- The combined checksum -----

  /** An odd number of the bits is set. */
  function Odd(s: seq<bool>): bool {
    if s == [] then false else Odd(s[..|s| - 1]) != s[|s| - 1]
  }

  /** The bits that meet at place j when every word is turned by one place for each word after it. */
  function Meeting(words: seq<Word>, j: nat): (s: seq<bool>)
    requires j < 32
    ensures |s| == |words|
  {
    seq(|words|, i requires 0 <= i < |words| => words[i][(j + |words| - 1 - i) % 32])
  }

  /** w is the combination of the words: each of its bits tells whether the number of set bits that meet there is odd. */
  ghost predicate Combination(words: seq<Word>, w: Word) {
    forall j :: 0 <= j < 32 ==> w[j] == Odd(Meeting(words, j))
  }

  lemma TurnedBit(w: Word, next: Word, j: nat)
    requires j < 32
    ensures Combine(w, next)[j] == (w[(j + 1) % 32] != next[j])
  {
    assert Or(Shl(w, 1), Shr(w, 31))[j] == w[(j + 1) % 32];
  }

  lemma MeetingNext(words: seq<Word>, next: Word, j: nat)
    requires j < 32
    ensures Meeting(words + [next], j) == Meeting(words, (j + 1) % 32) + [next[j]]
  {
    forall i | 0 <= i < |words| ensures Meeting(words + [next], j)[i] == Meeting(words, (j + 1) % 32)[i] {
      SamePlace(j, |words| - 1 - i);
    }
  }

  lemma SamePlace(j: nat, k: nat)
    requires j < 32
    ensures (j + (k + 1)) % 32 == ((j + 1) % 32 + k) % 32
  {
  }

  lemma OddNext(s: seq<bool>, b: bool)
    ensures Odd(s + [b]) == (Odd(s) != b)
  {
    assert (s + [b])[..|s|] == s;
  }

  lemma CombineNext(words: seq<Word>, w: Word, next: Word)
    requires Combination(words, w)
    ensures Combination(words + [next], Combine(w, next))
  {
    hide Combine, Meeting, Odd;
    forall j | 0 <= j < 32 ensures Combine(w, next)[j] == Odd(Meeting(words + [next], j)) {
      TurnedBit(w, next, j);
      MeetingNext(words, next, j);
      OddNext(Meeting(words, (j + 1) % 32), next[j]);
    }
  }

  lemma NothingCombined()
    ensures Combination([], ZERO)
  {
  }

  lemma OneCombination(words: seq<Word>, w: Word, w': Word)
    requires Combination(words, w) && Combination(words, w')
    ensures w == w'
  {
    assert forall j :: 0 <= j < 32 ==> w[j] == w'[j];
  }

  /** The stored checksums of the blocks that are sent. */
  function StoredCrcs(sent: seq<Sent>): (words: seq<Word>)
    ensures |words| == |sent|
  {
    seq(|sent|, i requires 0 <= i < |sent| => Not(sent[i].crc))
  }

  lemma {:induction false} MoreCombined(words: seq<Word>, combined: Word, sent: seq<Sent>)
    requires Combination(words, combined)
    ensures Combination(words + StoredCrcs(sent), CombinedCrc(combined, sent))
    decreases |sent|
  {
    hide Combination, Combine, Not;
    if sent == [] {
      assert words + [] == words;
    } else {
      var next := Not(sent[0].crc);
      CombineNext(words, combined, next);
      MoreCombined(words + [next], Combine(combined, next), sent[1..]);
      assert words + [next] + StoredCrcs(sent[1..]) == words + StoredCrcs(sent);
    }
  }

  /** The checksum that the compressor puts into the trailer, bit by bit. */
  lemma CombinedCrcIs(sent: seq<Sent>)
    ensures Combination(StoredCrcs(sent), CombinedCrc(ZERO, sent))
  {
    NothingCombined();
    MoreCombined([], ZERO, sent);
    assert [] + StoredCrcs(sent) == StoredCrcs(sent);
  }

  // ----- Parsers leave the end of what they are given -----

  ghost predicate Suffix(rest: seq<bool>, bits: seq<bool>) {
    |rest| <= |bits| && rest == bits[|bits| - |rest|..]
  }

  lemma SuffixOfSuffix(a: seq<bool>, b: seq<bool>, c: seq<bool>)
    requires Suffix(a, b) && Suffix(b, c)
    ensures Suffix(a, c)
  {
  }

  lemma Behind(bits: seq<bool>, n: nat)
    requires n <= |bits|
    ensures Suffix(bits[n..], bits) && bits == bits[..n] + bits[n..]
  {
  }

  lemma {:induction false} GroupsLeave(used: seq<bool>, i: nat, bits: seq<bool>)
    requires |used| == 16 && i <= 16 && ReadGroups(used, i, bits).Done?
    ensures Suffix(ReadGroups(used, i, bits).rest, bits)
    decreases 16 - i
  {
    hide Suffix;
    if i == 16 {
      Behind(bits, 0);
    } else if !used[i] {
      GroupsLeave(used, i + 1, bits);
    } else {
      GroupsLeave(used, i + 1, bits[16..]);
      Behind(bits, 16);
      SuffixOfSuffix(ReadGroups(used, i, bits).rest, bits[16..], bits);
    }
  }

  lemma MapLeaves(bits: seq<bool>)
    requires ReadMap(bits).Done?
    ensures Suffix(ReadMap(bits).rest, bits)
  {
    hide Suffix, ReadGroups;
    GroupsLeave(bits[..16], 0, bits[16..]);
    Behind(bits, 16);
    SuffixOfSuffix(ReadMap(bits).rest, bits[16..], bits);
  }

  lemma {:induction false} UnaryLeaves(j: nat, limit: nat, bits: seq<bool>)
    requires j < limit && ReadUnary(j, limit, bits).Done?
    ensures Suffix(ReadUnary(j, limit, bits).rest, bits)
    decreases |bits|
  {
    hide Suffix;
    Behind(bits, 1);
    if bits[0] {
      UnaryLeaves(j + 1, limit, bits[1..]);
      SuffixOfSuffix(ReadUnary(j, limit, bits).rest, bits[1..], bits);
    }
  }

  lemma {:induction false} UnariesLeave(count: nat, limit: nat, bits: seq<bool>)
    requires limit > 0 && ReadUnaries(count, limit, bits).Done?
    ensures Suffix(ReadUnaries(count, limit, bits).rest, bits)
  {
    hide Suffix, ReadUnary;
    if count == 0 {
      Behind(bits, 0);
    } else {
      UnaryLeaves(0, limit, bits);
      var rest := ReadUnary(0, limit, bits).rest;
      UnariesLeave(count - 1, limit, rest);
      SuffixOfSuffix(ReadUnaries(count, limit, bits).rest, rest, bits);
    }
  }

  lemma {:induction false} LengthLeaves(curr: int, bits: seq<bool>)
    requires ReadLength(curr, bits).Done?
    ensures Suffix(ReadLength(curr, bits).rest, bits)
    decreases |bits|
  {
    hide Suffix;
    if !bits[0] {
      Behind(bits, 1);
    } else {
      Behind(bits, 2);
      LengthLeaves(if bits[1] then curr - 1 else curr + 1, bits[2..]);
      SuffixOfSuffix(ReadLength(curr, bits).rest, bits[2..], bits);
    }
  }

  lemma {:induction false} LengthsLeave(count: nat, curr: int, bits: seq<bool>)
    requires ReadLengths(count, curr, bits).Done?
    ensures Suffix(ReadLengths(count, curr, bits).rest, bits)
    decreases count
  {
    hide Suffix, ReadLength;
    if count == 0 {
      Behind(bits, 0);
    } else {
      LengthLeaves(curr, bits);
      var p := ReadLength(curr, bits);
      LengthsLeave(count - 1, p.value, p.rest);
      SuffixOfSuffix(ReadLengths(count, curr, bits).rest, p.rest, bits);
    }
  }

  lemma {:induction false} TablesLeave(nGroups: nat, alphaSize: nat, bits: seq<bool>)
    requires ReadTables(nGroups, alphaSize, bits).Done?
    ensures Suffix(ReadTables(nGroups, alphaSize, bits).rest, bits)
  {
    hide Suffix, ReadLengths, ToNat;
    if nGroups == 0 {
      Behind(bits, 0);
    } else {
      Behind(bits, 5);
      LengthsLeave(alphaSize, ToNat(bits[..5]), bits[5..]);
      var rest := ReadTable(alphaSize, bits).rest;
      SuffixOfSuffix(rest, bits[5..], bits);
      TablesLeave(nGroups - 1, alphaSize, rest);
      SuffixOfSuffix(ReadTables(nGroups, alphaSize, bits).rest, rest, bits);
    }
  }

  lemma CodingLeaves(alphaSize: nat, bits: seq<bool>)
    requires ReadCoding(alphaSize, bits).Done?
    ensures Suffix(ReadCoding(alphaSize, bits).rest, bits)
  {
    hide Suffix, ReadUnaries, ReadTables, ToNat, Readable;
    Behind(bits, 3);
    var nGroups, rest := ToNat(bits[..3]), bits[3..];
    Behind(rest, 15);
    var n, rest' := ToNat(rest[..15]), rest[15..];
    UnariesLeave(n, nGroups, rest');
    var after := ReadUnaries(n, nGroups, rest').rest;
    TablesLeave(nGroups, alphaSize, after);
    SuffixOfSuffix(after, rest', rest);
    SuffixOfSuffix(after, rest, bits);
    SuffixOfSuffix(ReadCoding(alphaSize, bits).rest, after, bits);
  }

  lemma {:induction false} SymbolLeaves(len: seq<Byte>, n: nat, v: nat, bits: seq<bool>)
    requires n <= 255 && First(len, n) <= v && ReadFrom(len, n, v, bits).Done?
    ensures Suffix(ReadFrom(len, n, v, bits).rest, bits)
    decreases |bits|
  {
    hide Suffix, First, Count, Places;
    if v < First(len, n) + Count(len, n) {
      Behind(bits, 0);
    } else {
      Behind(bits, 1);
      var v' := 2 * v + (if bits[0] then 1 else 0);
      LongerBeyond(len, n, v');
      SymbolLeaves(len, n + 1, v', bits[1..]);
      SuffixOfSuffix(ReadFrom(len, n, v, bits).rest, bits[1..], bits);
    }
  }

  lemma LongerBeyond(len: seq<Byte>, n: nat, v: nat)
    requires n < 255 && v / 2 >= First(len, n) + Count(len, n)
    ensures First(len, n + 1) <= v
  {
  }

  lemma NextLeaves(c: Coding, alphaSize: nat, k: nat, bits: seq<bool>)
    requires Readable(c, alphaSize) && ReadNext(c, alphaSize, k, bits).Done?
    ensures Suffix(ReadNext(c, alphaSize, k, bits).rest, bits)
  {
    hide Suffix, ReadFrom, Readable;
    SymbolLeaves(TableFor(c, alphaSize, k), 0, 0, bits);
  }

  lemma {:induction false} UnpackLeaves(c: Coding, nInUse: nat, k: nat, y: seq<nat>, es: nat, weight: nat, room: nat, bits: seq<bool>)
    requires Readable(c, nInUse + 2) && Ranked(y, nInUse) && Unpack(c, nInUse, k, y, es, weight, room, bits).Done?
    ensures Suffix(Unpack(c, nInUse, k, y, es, weight, room, bits).rest, bits)
    decreases |bits|
  {
    hide Suffix, ReadNext, Readable, Ranked, ToFront, Copies, AllBelow, Int32;
    NextLeaves(c, nInUse + 2, k, bits);
    var p, end := ReadNext(c, nInUse + 2, k, bits), Unpack(c, nInUse, k, y, es, weight, room, bits).rest;
    if p.value <= RUNB {
      UnpackLeaves(c, nInUse, k + 1, y, es + (if p.value == RUNA then weight else 2 * weight), 2 * weight, room, p.rest);
      SuffixOfSuffix(end, p.rest, bits);
    } else if p.value != nInUse + 1 {
      FrontRanked(y, nInUse, p.value - 1);
      UnpackLeaves(c, nInUse, k + 1, ToFront(y, p.value - 1), 0, 1, room - Int32(es) - 1, p.rest);
      SuffixOfSuffix(end, p.rest, bits);
    }
  }

  lemma ColumnLeaves(nblockMAX: nat, bits: seq<bool>)
    requires ReadColumn(nblockMAX, bits).Done?
    ensures Suffix(ReadColumn(nblockMAX, bits).rest, bits)
  {
    hide Suffix, ReadMap, ReadCoding, Unpack, Readable, Ranked, NInUse, Unnumber;
    MapLeaves(bits);
    var p := ReadMap(bits);
    var n := NInUse(p.value);
    CodingLeaves(n + 2, p.rest);
    var q := ReadCoding(n + 2, p.rest);
    FirstRanked(p.value);
    UnpackLeaves(q.value, n, 0, Iota(256), 0, 1, nblockMAX, q.rest);
    SuffixOfSuffix(q.rest, p.rest, bits);
    SuffixOfSuffix(ReadColumn(nblockMAX, bits).rest, q.rest, bits);
  }

  lemma BlockLeaves(blockSize100k: nat, bits: seq<bool>)
    requires ReadBlock(blockSize100k, bits).Done?
    ensures Suffix(ReadBlock(blockSize100k, bits).rest, bits)
  {
    hide Suffix, ReadColumn, ToNat;
    Behind(bits, 1);
    Behind(bits[1..], 24);
    var rest := bits[1..][24..];
    ColumnLeaves(100000 * blockSize100k, rest);
    SuffixOfSuffix(rest, bits[1..], bits);
    SuffixOfSuffix(ReadBlock(blockSize100k, bits).rest, rest, bits);
  }

  lemma {:induction false} ExactlyThere(wanted: seq<Byte>, bits: seq<bool>)
    requires ReadExactly(wanted, bits).Done?
    ensures bits == BytesToBits(wanted) + ReadExactly(wanted, bits).rest
  {
    hide BytesToBits, ToBits, ToNat;
    if wanted == [] {
      assert BytesToBits([]) + bits == bits by { NoBits(); }
    } else {
      Behind(bits, 8);
      BitsOfNat(bits[..8]);
      ExactlyThere(wanted[1..], bits[8..]);
      ByteBits(wanted[0], wanted[1..]);
      assert wanted == [wanted[0]] + wanted[1..];
      var rest := ReadExactly(wanted, bits).rest;
      assert bits[..8] + (BytesToBits(wanted[1..]) + rest) == bits[..8] + BytesToBits(wanted[1..]) + rest;
    }
  }

  lemma NoBits()
    ensures BytesToBits([]) == []
  {
  }

  // ----- The layout of an accepted stream -----

  /** A block of a stream: the checksum stored with it, its bits, and the bytes that it stands for. */
  datatype Part = Part(stored: Word, body: seq<bool>, data: seq<Byte>)

  /** What the bits stand for that follow a stored checksum. */
  ghost predicate StandsFor(blockSize100k: nat, body: seq<bool>, tail: seq<bool>, e: Expansion) {
    var p := ReadBlock(blockSize100k, body + tail);
    && p.Done? && p.rest == tail && !p.value.randomised
    && e == Expand(Stream(p.value.column, p.value.origPtr), |p.value.column|, 0)
  }

  /** The stored checksum is that of the bytes. */
  ghost predicate Intact(step: CrcStep, blockSize100k: nat, p: Part, tail: seq<bool>) {
    StandsFor(blockSize100k, p.body, tail, Expansion(p.data, false)) && p.stored == Not(Fold(step, InitialCrc(), p.data))
  }

  function PartsBits(parts: seq<Part>, end: seq<bool>): seq<bool> {
    if parts == [] then end else BytesToBits(BlockMagic()) + (parts[0].stored + (parts[0].body + PartsBits(parts[1..], end)))
  }

  ghost predicate AllIntact(step: CrcStep, blockSize100k: nat, parts: seq<Part>, end: seq<bool>) {
    parts != [] ==> Intact(step, blockSize100k, parts[0], PartsBits(parts[1..], end)) && AllIntact(step, blockSize100k, parts[1..], end)
  }

  function PartsData(parts: seq<Part>): seq<Byte> {
    if parts == [] then [] else parts[0].data + PartsData(parts[1..])
  }

  function StoredWords(parts: seq<Part>): (words: seq<Word>)
    ensures |words| == |parts|
  {
    seq(|parts|, i requires 0 <= i < |parts| => parts[i].stored)
  }

  function Trailer(w: Word): seq<bool> {
    BytesToBits(EndMagic()) + w
  }

  /** The stream is made of the header, the blocks and the trailer, and every checksum is right. */
  ghost predicate WellMade(step: CrcStep, blockSize100k: nat, parts: seq<Part>, w: Word, bits: seq<bool>, rest: seq<bool>) {
    && 1 <= blockSize100k <= 9
    && bits == BytesToBits(Header(blockSize100k)) + PartsBits(parts, Trailer(w) + rest)
    && AllIntact(step, blockSize100k, parts, Trailer(w) + rest)
    && Combination(StoredWords(parts), w)
  }

  // ----- Reading a block -----

  /** A block whose checksum is not that of its bytes is refused. */
  lemma ReadOneIs(step: CrcStep, blockSize100k: nat, stored: Word, body: seq<bool>, tail: seq<bool>, e: Expansion)
    requires StandsFor(blockSize100k, body, tail, e)
    ensures ReadOne(step, blockSize100k, stored + (body + tail))
         == if e.corrupt || stored != Not(Fold(step, InitialCrc(), e.bytes)) then Bad else Done((e.bytes, stored), tail)
  {
    hide ReadBlock, Expand, Stream, Fold, Not, ReadWord;
    WordRoundTrip(stored, body + tail);
  }

  /** A block that is accepted stands for the bytes that it is read as, and has their checksum. */
  lemma ReadOneMeans(step: CrcStep, blockSize100k: nat, bits: seq<bool>) returns (p: Part)
    requires ReadOne(step, blockSize100k, bits).Done?
    ensures var r := ReadOne(step, blockSize100k, bits);
            && Intact(step, blockSize100k, p, r.rest) && bits == p.stored + (p.body + r.rest) && r.value == (p.data, p.stored)
  {
    hide ReadBlock, Expand, Stream, Fold, Not;
    Behind(bits, 32);
    var body := bits[32..];
    BlockLeaves(blockSize100k, body);
    var r := ReadOne(step, blockSize100k, bits);
    var n := |body| - |r.rest|;
    Behind(body, n);
    p := Part(bits[..32], body[..n], r.value.0);
  }

  // ----- Reading all of them -----

  /** What becomes of a stream after a block. */
  ghost function After(step: CrcStep, blockSize100k: nat, combined: Word, p: Parse<(seq<Byte>, Word)>): Parse<seq<Byte>> {
    match p
    case Done(one, rest) => Prepend(one.0, ReadBlocks(step, blockSize100k, Combine(combined, one.1), rest))
    case More => More
    case Bad => Bad
    case Outside => Outside
  }

  lemma BlockFirst(step: CrcStep, blockSize100k: nat, combined: Word, stored: Word, body: seq<bool>)
    ensures ReadBlocks(step, blockSize100k, combined, BytesToBits(BlockMagic()) + (stored + body))
         == After(step, blockSize100k, combined, ReadOne(step, blockSize100k, stored + body))
  {
    hide ReadExactly, BytesToBits, Take, ReadOne, Combine;
    MagicStarts(BlockMagic(), stored + body);
  }

  lemma TrailerRead(step: CrcStep, blockSize100k: nat, combined: Word, w: Word, rest: seq<bool>)
    ensures ReadBlocks(step, blockSize100k, combined, Trailer(w) + rest) == if w == combined then Done([], rest) else Bad
  {
    hide ReadExactly, BytesToBits, ReadWord, Take, ReadOne;
    assert Trailer(w) + rest == BytesToBits(EndMagic()) + (w + rest);
    MagicStarts(EndMagic(), w + rest);
    WordRoundTrip(w, rest);
  }

  /** The checksum combined so far after some more blocks. */
  function CombinedWith(combined: Word, words: seq<Word>): Word
    decreases |words|
  {
    if words == [] then combined else CombinedWith(Combine(combined, words[0]), words[1..])
  }

  lemma {:induction false} CombinedWithIs(words: seq<Word>, combined: Word, more: seq<Word>)
    requires Combination(words, combined)
    ensures Combination(words + more, CombinedWith(combined, more))
    decreases |more|
  {
    hide Combination, Combine;
    if more == [] {
      assert words + more == words;
    } else {
      CombineNext(words, combined, more[0]);
      CombinedWithIs(words + [more[0]], Combine(combined, more[0]), more[1..]);
      assert words + [more[0]] + more[1..] == words + more;
    }
  }

  /** Blocks with the right checksums are read to their data, whatever comes after them. */
  lemma {:induction false} PartsRead(step: CrcStep, blockSize100k: nat, combined: Word, parts: seq<Part>, end: seq<bool>)
    requires AllIntact(step, blockSize100k, parts, end)
    ensures ReadBlocks(step, blockSize100k, combined, PartsBits(parts, end))
         == Prepend(PartsData(parts), ReadBlocks(step, blockSize100k, CombinedWith(combined, StoredWords(parts)), end))
    decreases |parts|
  {
    hide ReadBlocks, ReadOne, BytesToBits, Combine, StandsFor, Fold, Not;
    if parts == [] {
      PrependNone(ReadBlocks(step, blockSize100k, combined, end));
    } else {
      var p, tail := parts[0], PartsBits(parts[1..], end);
      BlockFirst(step, blockSize100k, combined, p.stored, p.body + tail);
      ReadOneIs(step, blockSize100k, p.stored, p.body, tail, Expansion(p.data, false));
      var combined' := Combine(combined, p.stored);
      PartsRead(step, blockSize100k, combined', parts[1..], end);
      assert StoredWords(parts)[1..] == StoredWords(parts[1..]);
      PrependTwo(p.data, PartsData(parts[1..]), ReadBlocks(step, blockSize100k, CombinedWith(combined', StoredWords(parts[1..])), end));
    }
  }

  lemma PrependNone(p: Parse<seq<Byte>>)
    ensures Prepend([], p) == p
  {
    if p.Done? { assert [] + p.value == p.value; }
  }

  lemma PrependTwo(a: seq<Byte>, b: seq<Byte>, p: Parse<seq<Byte>>)
    ensures Prepend(a, Prepend(b, p)) == Prepend(a + b, p)
  {
    if p.Done? { assert a + (b + p.value) == a + b + p.value; }
  }

  lemma MagicThere(magic: seq<Byte>, bits: seq<bool>)
    requires magic != [] && |bits| >= 8 && ToNat(bits[..8]) == magic[0] as nat && ReadExactly(magic[1..], bits[8..]).Done?
    ensures bits == BytesToBits(magic) + ReadExactly(magic[1..], bits[8..]).rest
  {
    hide BytesToBits, ToNat, ToBits, ReadExactly;
    Behind(bits, 8);
    BitsOfNat(bits[..8]);
    ExactlyThere(magic[1..], bits[8..]);
    ByteBits(magic[0], magic[1..]);
    assert magic == [magic[0]] + magic[1..];
    var rest := ReadExactly(magic[1..], bits[8..]).rest;
    assert bits[..8] + (BytesToBits(magic[1..]) + rest) == bits[..8] + BytesToBits(magic[1..]) + rest;
  }

  /** The two ways to go on with success. */
  lemma TwoWays(step: CrcStep, blockSize100k: nat, combined: Word, bits: seq<bool>) returns (magic: seq<Byte>, body: seq<bool>)
    requires ReadBlocks(step, blockSize100k, combined, bits).Done?
    ensures |bits| >= 8 && magic != [] && ToNat(bits[..8]) == magic[0] as nat && ReadExactly(magic[1..], bits[8..]) == Done(true, body)
    ensures |body| >= 32 && (magic == EndMagic() || (magic == BlockMagic() && ReadOne(step, blockSize100k, body).Done?))
  {
    hide ReadExactly, ToNat, Combine, ReadBlock;
    magic := if ToNat(bits[..8]) == EndMagic()[0] as nat then EndMagic() else BlockMagic();
    ExactlyTrue(magic[1..], bits[8..]);
    body := ReadExactly(magic[1..], bits[8..]).rest;
  }

  lemma {:induction false} ExactlyTrue(wanted: seq<Byte>, bits: seq<bool>)
    ensures ReadExactly(wanted, bits).Done? ==> ReadExactly(wanted, bits).value
  {
    if wanted != [] && Take(bits, 8).Done? { ExactlyTrue(wanted[1..], Take(bits, 8).rest); }
  }

  /** What leads to success begins with an accepted block or is a trailer. */
  lemma FirstOfMagic(step: CrcStep, blockSize100k: nat, combined: Word, bits: seq<bool>)
    requires ReadBlocks(step, blockSize100k, combined, bits).Done?
    ensures (exists body: seq<bool> :: bits == BytesToBits(BlockMagic()) + body && |body| >= 32 && ReadOne(step, blockSize100k, body).Done?)
         || (exists w: Word, rest :: bits == Trailer(w) + rest)
  {
    hide ReadOne, ReadBlocks, BytesToBits, ToNat, ReadExactly, BlockMagic, EndMagic;
    var magic, body := TwoWays(step, blockSize100k, combined, bits);
    MagicThere(magic, bits);
    if magic == EndMagic() {
      Behind(body, 32);
      assert bits == Trailer(body[..32]) + body[32..];
    }
  }

  /** What is read to its end is made of intact blocks and a trailer. */
  lemma {:induction false} BlocksMean(step: CrcStep, blockSize100k: nat, combined: Word, bits: seq<bool>) returns (parts: seq<Part>, w: Word)
    requires ReadBlocks(step, blockSize100k, combined, bits).Done?
    ensures var r := ReadBlocks(step, blockSize100k, combined, bits);
            && bits == PartsBits(parts, Trailer(w) + r.rest) && AllIntact(step, blockSize100k, parts, Trailer(w) + r.rest)
            && r.value == PartsData(parts) && w == CombinedWith(combined, StoredWords(parts))
    decreases |bits|
  {
    hide ReadBlocks, ReadOne, BytesToBits, Combine, Intact, Trailer;
    FirstOfMagic(step, blockSize100k, combined, bits);
    if body: seq<bool> :| bits == BytesToBits(BlockMagic()) + body && |body| >= 32 && ReadOne(step, blockSize100k, body).Done? {
      Behind(body, 32);
      BlockFirst(step, blockSize100k, combined, body[..32], body[32..]);
      var p := ReadOneMeans(step, blockSize100k, body);
      var rest := ReadOne(step, blockSize100k, body).rest;
      var more;
      more, w := BlocksMean(step, blockSize100k, Combine(combined, p.stored), rest);
      parts := [p] + more;
      assert StoredWords(parts)[1..] == StoredWords(more);
    } else {
      var rest;
      w, rest :| bits == Trailer(w) + rest;
      TrailerRead(step, blockSize100k, combined, w, rest);
      parts := [];
    }
  }

  // ----- Whole streams -----

  lemma LevelByte(k: nat)
    requires 1 <= k <= 9
    ensures Header(k) == Header(1)[..3] + [0x30 + k as Byte]
  {
  }

  /** A stream with a good header. */
  lemma HeaderRead(step: CrcStep, k: nat, rest: seq<bool>)
    requires 1 <= k <= 9
    ensures ReadStream(step, BytesToBits(Header(k)) + rest) == ReadBlocks(step, k, ZERO, rest)
  {
    hide ReadExactly, BytesToBits, Take, ReadBlocks;
    var start, level := Header(1)[..3], [0x30 + k as Byte];
    LevelByte(k);
    BytesConcat(start, level);
    assert BytesToBits(start) + BytesToBits(level) + rest == BytesToBits(start) + (BytesToBits(level) + rest);
    ExactRoundTrip(start, BytesToBits(level) + rest);
    FirstByte(level, rest);
    assert level[1..] == [];
    NoBits();
    assert [] + rest == rest;
  }

  lemma HeaderThere(step: CrcStep, bits: seq<bool>) returns (k: nat, rest: seq<bool>)
    requires ReadStream(step, bits).Done?
    ensures 1 <= k <= 9 && bits == BytesToBits(Header(k)) + rest && ReadStream(step, bits) == ReadBlocks(step, k, ZERO, rest)
  {
    hide BytesToBits, ToBits, ToNat, ReadBlocks, ReadExactly;
    var start := Header(1)[..3];
    ExactlyThere(start, bits);
    var after := ReadExactly(start, bits).rest;
    Behind(after, 8);
    BitsOfNat(after[..8]);
    k, rest := ToNat(after[..8]) - 0x30, after[8..];
    var level := [0x30 + k as Byte];
    LevelByte(k);
    BytesConcat(start, level);
    OneByte(level[0]);
    assert BytesToBits(start) + (BytesToBits(level) + rest) == BytesToBits(start) + BytesToBits(level) + rest;
  }

  lemma OneByte(b: Byte)
    ensures BytesToBits([b]) == ToBits(b, 8)
  {
    ByteBits(b, []);
    NoBits();
    assert [b] + [] == [b] && ToBits(b, 8) + [] == ToBits(b, 8);
  }

  ghost predicate Accepted(step: CrcStep, bits: seq<bool>, data: seq<Byte>, rest: seq<bool>) {
    exists k, parts, w :: WellMade(step, k, parts, w, bits, rest) && data == PartsData(parts)
  }

  /** A stream is read to its end, as certain data, if and only if it is well made of blocks with these data:
      all stored checksums are right, and the trailer holds their combination. */
  lemma AcceptedExactly(step: CrcStep, bits: seq<bool>, data: seq<Byte>, rest: seq<bool>)
    ensures ReadStream(step, bits) == Done(data, rest)
       <==> Accepted(step, bits, data, rest)
  {
    hide ReadStream, WellMade;
    if ReadStream(step, bits) == Done(data, rest) {
      var k, parts, w := AcceptedIsWellMade(step, bits);
    }
    if k, parts, w :| WellMade(step, k, parts, w, bits, rest) && data == PartsData(parts) {
      WellMadeIsAccepted(step, k, parts, w, bits, rest);
    }
  }

  lemma AcceptedIsWellMade(step: CrcStep, bits: seq<bool>) returns (k: nat, parts: seq<Part>, w: Word)
    requires ReadStream(step, bits).Done?
    ensures WellMade(step, k, parts, w, bits, ReadStream(step, bits).rest) && ReadStream(step, bits).value == PartsData(parts)
  {
    hide ReadStream, ReadBlocks, AllIntact, PartsBits, CombinedWith, Combination, BytesToBits, Header;
    var rest;
    k, rest := HeaderThere(step, bits);
    parts, w := BlocksMean(step, k, ZERO, rest);
    NothingCombined();
    CombinedWithIs([], ZERO, StoredWords(parts));
    assert [] + StoredWords(parts) == StoredWords(parts);
  }

  lemma WellMadeIsAccepted(step: CrcStep, k: nat, parts: seq<Part>, w: Word, bits: seq<bool>, rest: seq<bool>)
    requires WellMade(step, k, parts, w, bits, rest)
    ensures ReadStream(step, bits) == Done(PartsData(parts), rest)
  {
    hide AllIntact, PartsBits, Combination, ReadStream, PartsData, Header, BytesToBits;
    TrailerDecides(step, k, parts, w, rest);
  }

  /** Blocks with the right checksums and any trailer: the stream is accepted if the trailer holds the combination of
      the stored checksums, and refused if it does not. */
  lemma TrailerDecides(step: CrcStep, k: nat, parts: seq<Part>, w: Word, rest: seq<bool>)
    requires 1 <= k <= 9 && AllIntact(step, k, parts, Trailer(w) + rest)
    ensures ReadStream(step, BytesToBits(Header(k)) + PartsBits(parts, Trailer(w) + rest))
         == if Combination(StoredWords(parts), w) then Done(PartsData(parts), rest) else Bad
  {
    hide AllIntact, PartsBits, Combination, ReadStream, ReadBlocks, CombinedWith, Header, BytesToBits, Trailer, PartsData;
    var end, words := Trailer(w) + rest, StoredWords(parts);
    HeaderRead(step, k, PartsBits(parts, end));
    PartsRead(step, k, ZERO, parts, end);
    TrailerRead(step, k, CombinedWith(ZERO, words), w, rest);
    NothingCombined();
    CombinedWithIs([], ZERO, words);
    assert [] + words == words && PartsData(parts) + [] == PartsData(parts);
    if Combination(words, w) { OneCombination(words, w, CombinedWith(ZERO, words)); }
  }

  /** A block whose checksum is not the one that is stored, or that is found corrupt, makes the stream be refused, whatever follows. */
  lemma WrongChecksumRefused(step: CrcStep, k: nat, parts: seq<Part>, stored: Word, body: seq<bool>, tail: seq<bool>, e: Expansion)
    requires 1 <= k <= 9 && AllIntact(step, k, parts, BytesToBits(BlockMagic()) + (stored + (body + tail)))
    requires StandsFor(k, body, tail, e) && (e.corrupt || stored != Not(Fold(step, InitialCrc(), e.bytes)))
    ensures ReadStream(step, BytesToBits(Header(k)) + PartsBits(parts, BytesToBits(BlockMagic()) + (stored + (body + tail)))) == Bad
  {
    hide AllIntact, PartsBits, ReadStream, ReadBlocks, CombinedWith, Header, BytesToBits, StandsFor, Fold, Not, ReadOne, Combine;
    var end, combined := BytesToBits(BlockMagic()) + (stored + (body + tail)), CombinedWith(ZERO, StoredWords(parts));
    HeaderRead(step, k, PartsBits(parts, end));
    PartsRead(step, k, ZERO, parts, end);
    BlockFirst(step, k, combined, stored, body + tail);
    ReadOneIs(step, k, stored, body, tail, e);
  }

  // ----- Damaged streams -----

  lemma NoneWanted(bits: seq<bool>)
    ensures bits[..0] == BytesToBits([])
  {
    NoBits();
  }

  /** Bytes other than those that are wanted. */
  lemma {:induction false} ExactlyRefused(wanted: seq<Byte>, bits: seq<bool>)
    requires |bits| >= 8 * |wanted| && bits[..8 * |wanted|] != BytesToBits(wanted)
    ensures ReadExactly(wanted, bits) == Bad
  {
    hide BytesToBits, ToBits, ToNat;
    var n := 8 * |wanted|;
    NoneWanted(bits);
    if wanted != [] {
      ByteBits(wanted[0], wanted[1..]);
      assert wanted == [wanted[0]] + wanted[1..];
      BitsOfNat(bits[..8]);
      if ToNat(bits[..8]) == wanted[0] as nat {
        assert bits[..n] == bits[..8] + bits[8..][..n - 8];
        ExactlyRefused(wanted[1..], bits[8..]);
      }
    }
  }

  /** The bits begin in another way than any stream: for some number of bytes, up to four, they differ from all headers. */
  ghost predicate OtherHeader(bits: seq<bool>) {
    exists n: nat :: n <= 4 && DiffersAt(bits, n)
  }

  ghost predicate DiffersAt(bits: seq<bool>, n: nat)
    requires n <= 4
  {
    |bits| >= 8 * n && forall k: nat :: 1 <= k <= 9 ==> bits[..8 * n] != BytesToBits(Header(k)[..n])
  }

  /** The header is found wrong, at one of its bytes. */
  ghost predicate HeaderBad(bits: seq<bool>) {
    var p := ReadExactly(Header(1)[..3], bits);
    p.Bad? || (p.Done? && |p.rest| >= 8 && !(0x31 <= ToNat(p.rest[..8]) <= 0x39))
  }

  /** As long as nothing wrong is found the bytes are those wanted. */
  lemma {:induction false} RightSoFar(wanted: seq<Byte>, bits: seq<bool>, n: nat)
    requires n <= |wanted| && 8 * n <= |bits| && !ReadExactly(wanted, bits).Bad?
    ensures bits[..8 * n] == BytesToBits(wanted[..n])
    decreases n
  {
    hide BytesToBits, ToBits, ToNat;
    if n == 0 {
      NoneWanted(bits);
    } else {
      BitsOfNat(bits[..8]);
      RightSoFar(wanted[1..], bits[8..], n - 1);
      ByteBits(wanted[0], wanted[1..][..n - 1]);
      assert wanted[..n] == [wanted[0]] + wanted[1..][..n - 1];
      assert bits[..8 * n] == bits[..8] + bits[8..][..8 * (n - 1)];
    }
  }

  /** Where something wrong is found the bytes differ from those wanted. */
  lemma {:induction false} WrongAt(wanted: seq<Byte>, bits: seq<bool>) returns (n: nat)
    requires ReadExactly(wanted, bits).Bad?
    ensures n <= |wanted| && 8 * n <= |bits| && bits[..8 * n] != BytesToBits(wanted[..n])
  {
    hide BytesToBits, ToBits, ToNat;
    var n' := 0;
    if ToNat(bits[..8]) == wanted[0] as nat { n' := WrongAt(wanted[1..], bits[8..]); }
    n := n' + 1;
    ByteBits(wanted[0], wanted[1..][..n']);
    assert wanted[..n] == [wanted[0]] + wanted[1..][..n'];
    SameByte(bits[..8], wanted[0]);
    SameParts(bits[..8 * n], bits[..8], bits[8..][..8 * n'], ToBits(wanted[0], 8), BytesToBits(wanted[1..][..n']));
  }

  lemma SameByte(s: seq<bool>, b: Byte)
    requires |s| == 8
    ensures s == ToBits(b, 8) <==> ToNat(s) == b as nat
  {
    hide ToBits, ToNat;
    BitsOfNat(s);
    assert Pow2(8) == 256;
    NatOfBits(b, 8);
  }

  lemma SameParts(s: seq<bool>, a: seq<bool>, b: seq<bool>, c: seq<bool>, d: seq<bool>)
    requires |a| <= |s| && s[..|a|] == a && s[|a|..] == b && |a| == |c|
    ensures s == c + d ==> a == c && b == d
  {
  }

  lemma HeaderPart(k: nat, n: nat)
    requires 1 <= k <= 9 && n <= 3
    ensures Header(k)[..n] == Header(1)[..3][..n] && Header(k)[..4] == Header(k)
  {
  }

  lemma HeaderBits(k: nat)
    requires 1 <= k <= 9
    ensures BytesToBits(Header(k)) == BytesToBits(Header(1)[..3]) + ToBits(0x30 + k, 8)
  {
    hide BytesToBits, ToBits;
    LevelByte(k);
    BytesConcat(Header(1)[..3], [0x30 + k as Byte]);
    OneByte(0x30 + k as Byte);
  }

  /** The header is found wrong exactly when the bits begin in another way than any stream. */
  lemma HeaderDecides(bits: seq<bool>)
    ensures HeaderBad(bits) <==> OtherHeader(bits)
  {
    hide HeaderBad, DiffersAt;
    if HeaderBad(bits) { var n := BadDiffers(bits); }
    if n: nat :| n <= 4 && DiffersAt(bits, n) { DiffersIsBad(bits, n); }
  }

  lemma BadDiffers(bits: seq<bool>) returns (n: nat)
    requires HeaderBad(bits)
    ensures n <= 4 && DiffersAt(bits, n)
  {
    hide BytesToBits, ToBits, ToNat, ReadExactly;
    var start := Header(1)[..3];
    var p := ReadExactly(start, bits);
    if p.Bad? {
      n := WrongAt(start, bits);
      forall k: nat | 1 <= k <= 9 ensures Header(k)[..n] == start[..n] { HeaderPart(k, n); }
    } else {
      n := 4;
      ExactlyThere(start, bits);
      assert bits[..32] == BytesToBits(start) + p.rest[..8];
      forall k: nat | 1 <= k <= 9 ensures bits[..32] != BytesToBits(Header(k)[..4]) {
        HeaderPart(k, 3);
        HeaderBits(k);
        SameByte(p.rest[..8], 0x30 + k as Byte);
        SameParts(bits[..32], BytesToBits(start), p.rest[..8], BytesToBits(start), ToBits(0x30 + k, 8));
      }
    }
  }

  lemma DiffersIsBad(bits: seq<bool>, n: nat)
    requires n <= 4 && DiffersAt(bits, n)
    ensures HeaderBad(bits)
  {
    hide BytesToBits, ToBits, ToNat, ReadExactly;
    var start := Header(1)[..3];
    var p := ReadExactly(start, bits);
    if !p.Bad? {
      if n <= 3 {
        RightSoFar(start, bits, n);
        HeaderPart(1, n);
      } else {
        LongEnough(start, bits);
        ExactlyThere(start, bits);
        assert bits[..32] == BytesToBits(start) + p.rest[..8];
        if 0x31 <= ToNat(p.rest[..8]) <= 0x39 {
          var k := ToNat(p.rest[..8]) - 0x30;
          HeaderPart(k, 3);
          HeaderBits(k);
          SameByte(p.rest[..8], 0x30 + k as Byte);
        }
      }
    }
  }

  lemma {:induction false} LongEnough(wanted: seq<Byte>, bits: seq<bool>)
    requires |bits| >= 8 * |wanted|
    ensures !ReadExactly(wanted, bits).More? && !ReadExactly(wanted, bits).Outside?
  {
    if wanted != [] { LongEnough(wanted[1..], bits[8..]); }
  }

  /** A stream with another header is refused. */
  lemma OtherHeaderRefused(step: CrcStep, bits: seq<bool>)
    requires OtherHeader(bits)
    ensures ReadStream(step, bits) == Bad
  {
    hide OtherHeader, ReadBlocks, ReadExactly, ToNat;
    HeaderDecides(bits);
  }

  /** What is neither a magic number of a block nor that of the trailer is refused where one of them should be. */
  lemma OtherMagicRefused(step: CrcStep, k: nat, parts: seq<Part>, end: seq<bool>)
    requires 1 <= k <= 9 && AllIntact(step, k, parts, end) && |end| >= 48
    requires end[..48] != BytesToBits(BlockMagic()) && end[..48] != BytesToBits(EndMagic())
    ensures ReadStream(step, BytesToBits(Header(k)) + PartsBits(parts, end)) == Bad
  {
    hide AllIntact, PartsBits, ReadStream, ReadBlocks, CombinedWith, Header, BytesToBits;
    HeaderRead(step, k, PartsBits(parts, end));
    PartsRead(step, k, ZERO, parts, end);
    NoMagicRefused(step, k, CombinedWith(ZERO, StoredWords(parts)), end);
  }

  lemma NoMagicRefused(step: CrcStep, k: nat, combined: Word, bits: seq<bool>)
    requires |bits| >= 48 && bits[..48] != BytesToBits(BlockMagic()) && bits[..48] != BytesToBits(EndMagic())
    ensures ReadBlocks(step, k, combined, bits) == Bad
  {
    hide BytesToBits, ToBits, ToNat, ReadExactly, ReadOne, ReadWord, Combine;
    OtherRest(BlockMagic(), bits);
    OtherRest(EndMagic(), bits);
  }

  /** With the right first byte the others are wrong. */
  lemma OtherRest(magic: seq<Byte>, bits: seq<bool>)
    requires |magic| == 6 && |bits| >= 48 && bits[..48] != BytesToBits(magic)
    ensures ToNat(bits[..8]) == magic[0] as nat ==> ReadExactly(magic[1..], bits[8..]) == Bad
  {
    hide BytesToBits, ToBits, ToNat, ReadExactly;
    if ToNat(bits[..8]) == magic[0] as nat {
      BitsOfNat(bits[..8]);
      ByteBits(magic[0], magic[1..]);
      assert magic == [magic[0]] + magic[1..];
      assert bits[..48] == bits[..8] + bits[8..][..40];
      ExactlyRefused(magic[1..], bits[8..]);
    }
  }

  /** What is written for a good block stands for its data. */
  lemma SentStandsFor(step: CrcStep, k: nat, s: Sent, tail: seq<bool>)
    requires GoodSent(step, k, s)
    ensures StandsFor(k, WriteBlock(LastColumn(s.block, s.ptr), s.origPtr, s.inUse, s.coding), tail, Expansion(DataOf(s.runs), false))
    ensures Fold(step, InitialCrc(), DataOf(s.runs)) == s.crc
  {
    hide ReadBlock, WriteBlock, SortedRotations, Encodable, Holds, Expand, GoodRuns, DecodeBlock, Stream, Fold, LastColumn;
    SortedShape(s.block, s.ptr);
    var l := LastColumn(s.block, s.ptr);
    BlockRoundTrip(s.block, s.ptr, s.origPtr, s.inUse, s.coding, k, tail);
    StreamStartsWithBlock(l, s.origPtr);
    assert Stream(l, s.origPtr)[..|s.block|] == s.block by { DecodedIs(l, s.origPtr); }
    BuiltBlockExpands(step, InitialCrc(), s.runs, s.block, s.inUse, s.crc, Stream(l, s.origPtr));
  }

  /** A single block with its checksum, behind the header, and anything after it. */
  function Alone(k: nat, stored: Word, body: seq<bool>, tail: seq<bool>): seq<bool>
    requires 1 <= k <= 9
  {
    BytesToBits(Header(k)) + (BytesToBits(BlockMagic()) + (stored + (body + tail)))
  }

  /** The bits of a good block behind another checksum than its own are refused. */
  lemma OtherChecksumRefused(step: CrcStep, k: nat, s: Sent, stored: Word, tail: seq<bool>)
    requires 1 <= k <= 9 && GoodSent(step, k, s) && stored != Not(s.crc)
    ensures ReadStream(step, Alone(k, stored, WriteBlock(LastColumn(s.block, s.ptr), s.origPtr, s.inUse, s.coding), tail)) == Bad
  {
    hide GoodSent, WriteBlock, StandsFor, Fold, Not, Header, BytesToBits, LastColumn, ReadStream, DataOf;
    SentShape(step, k, s);
    SentStandsFor(step, k, s, tail);
    var body := WriteBlock(LastColumn(s.block, s.ptr), s.origPtr, s.inUse, s.coding);
    WrongChecksumRefused(step, k, [], stored, body, tail, Expansion(DataOf(s.runs), false));
  }

  function CharactersAB(): (inUse: seq<bool>)
    ensures |inUse| == 256
  {
    seq(256, c => c == 97 || c == 98)
  }

  /** The block of the two characters, sorted. */
  function Pair(step: CrcStep, first: Byte, second: Byte, c: Coding): Sent {
    Sent([Run(first, 1), Run(second, 1)], [first, second], if first < second then [0, 1] else [1, 0], if first < second then 0 else 1,
         CharactersAB(), c, Fold(step, InitialCrc(), [first, second]))
  }

  lemma PairRuns(step: CrcStep, a: Byte, b: Byte)
    requires (a == 97 && b == 98) || (a == 98 && b == 97)
    ensures var runs := [Run(a, 1), Run(b, 1)];
            GoodRuns(runs) && DataOf(runs) == [a, b] && Holds(step, InitialCrc(), runs, [a, b], CharactersAB(), Fold(step, InitialCrc(), [a, b]))
  {
    hide Fold;
    assert Copies(a, 1) == [a] && Copies(b, 1) == [b];
    var last := [Run(b, 1)];
    assert last[1..] == [] && [Run(a, 1), Run(b, 1)][1..] == last;
    assert DataOf(last) == [b] + DataOf([]) && BlockOf(last) == [b] + BlockOf([]);
  }

  lemma PairSorted(a: Byte, b: Byte)
    requires a != b
    ensures var ptr := if a < b then [0, 1] else [1, 0];
            SortedRotations([a, b], ptr) && LastColumn([a, b], ptr) == if a < b then [b, a] else [a, b]
  {
    var ptr: seq<nat> := if a < b then [0, 1] else [1, 0];
    assert IsPermutation(ptr);
  }

  lemma PairIsGood(step: CrcStep, a: Byte, b: Byte, c: Coding)
    requires (a == 97 && b == 98) || (a == 98 && b == 97)
    requires Encodable(CharactersAB(), c, [98, 97])
    ensures GoodSent(step, 1, Pair(step, a, b, c))
  {
    hide SortedRotations, LastColumn, Encodable, Fold, GoodRuns, Holds, CharactersAB;
    PairRuns(step, a, b);
    PairSorted(a, b);
  }

  /** The last bit of origPtr. */
  const POINTER_END := 24

  lemma PointerBit(v: nat, body: seq<bool>)
    requires v == 0 || v == 1
    ensures ([false] + (ToBits(0, 24) + body))[POINTER_END := v == 1] == [false] + (ToBits(v, 24) + body)
  {
    hide ToBits;
    LastBit(0);
    LastBit(v);
    var front := [false] + ToBits(0, 23);
    assert [false] + (ToBits(v, 24) + body) == front + [v == 1] + body;
    assert [false] + (ToBits(0, 24) + body) == front + [false] + body;
  }

  lemma LastBit(v: nat)
    requires v == 0 || v == 1
    ensures ToBits(v, 24) == ToBits(0, 23) + [v == 1]
  {
  }

  /** The stream of "ab" with the last bit of origPtr set stands for "ba". It is refused if the two have different checksums,
      whatever coding was chosen for the block, and whatever comes after it. */
  lemma SetPointerRefused(step: CrcStep, c: Coding, tail: seq<bool>)
    requires Encodable(CharactersAB(), c, [98, 97])
    requires Fold(step, InitialCrc(), [97, 98]) != Fold(step, InitialCrc(), [98, 97])
    ensures var stored, body := Not(Fold(step, InitialCrc(), [97, 98])), WriteBlock([98, 97], 0, CharactersAB(), c);
            |body| > POINTER_END && ReadStream(step, Alone(1, stored, body[POINTER_END := true], tail)) == Bad
  {
    hide Encodable, Fold, WriteColumn, ReadStream, ToBits, CharactersAB, LastColumn, GoodSent, Not, Alone;
    var ba := Pair(step, 98, 97, c);
    PairIsGood(step, 98, 97, c);
    PairSorted(98, 97);
    PointerBit(1, WriteColumn(CharactersAB(), c, [98, 97]));
    NotTwice(Fold(step, InitialCrc(), [97, 98]), Fold(step, InitialCrc(), [98, 97]));
    OtherChecksumRefused(step, 1, ba, Not(Fold(step, InitialCrc(), [97, 98])), tail);
  }

  lemma NotTwice(w: Word, u: Word)
    requires w != u
    ensures Not(w) != Not(u)
  {
    var j :| 0 <= j < 32 && w[j] != u[j];
    assert Not(w)[j] != Not(u)[j];
  }
}
