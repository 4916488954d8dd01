/** The part of BZ2_decompress that reads one block, from the randomisation bit on, and undoes the sorting. */
module DecompressBlock {
  import opened Powers
  import opened Sequences
  import opened Bits
  import opened BitReading
  import opened MoveToFront
  import opened GenerateMtf
  import opened MtfArray
  import opened CharPlaces
  import opened CanonicalCodes
  import opened DecodeTables
  import opened InverseBwt
  import opened TVector
  import opened BlockFormat
  import opened BlockData
  import SendMtf

  method ReadBit(r: BitReader) returns (status: Status, b: bool)
    requires r.Valid()
    modifies r
    ensures r.Valid()
    ensures Outcome(status, b, r.Pending()) == if old(r.Pending()) == [] then More else Done(old(r.Pending())[0], old(r.Pending())[1..])
  {
    hide BitReader.Valid, BitReader.Pending, Take;
    TakeOne(r.Pending());
    var v;
    status, v := r.GetBits(1);
    b := v == 1;
  }

  // ----- The mapping table -----

  method ReadBitString(r: BitReader, n: nat) returns (status: Status, s: seq<bool>)
    requires r.Valid()
    modifies r
    ensures r.Valid()
    ensures Outcome(status, s, r.Pending()) ==
            if |old(r.Pending())| < n then More else Done(old(r.Pending())[..n], old(r.Pending())[n..])
  {
    hide BitReader.Valid, BitReader.Pending;
    ghost var bits := r.Pending();
    s := [];
    assert bits[0..] == bits;
    for i := 0 to n
      invariant i <= |bits| && r.Valid() && s == bits[..i] && r.Pending() == bits[i..]
    {
      var b;
      status, b := ReadBit(r);
      if status.Wait? { return; }
      assert bits[..i + 1] == bits[..i] + [bits[i]];
      s := s + [b];
    }
    status := Read;
  }

  method ReadMapping(r: BitReader) returns (status: Status, inUse: seq<bool>)
    requires r.Valid()
    modifies r
    ensures r.Valid() && Outcome(status, inUse, r.Pending()) == ReadMap(old(r.Pending()))
  {
    hide BitReader.Valid, BitReader.Pending, ReadGroups;
    ghost var bits := r.Pending();
    inUse := [];
    var inUse16;
    status, inUse16 := ReadBitString(r, 16);
    if status.Wait? { return; }
    PrependNothing(ReadGroups(inUse16, 0, r.Pending()));
    for i := 0 to 16
      invariant r.Valid() && Prepend(inUse, ReadGroups(inUse16, i, r.Pending())) == ReadMap(bits)
    {
      GroupRead(inUse, inUse16, i, r.Pending());
      if inUse16[i] {
        var g;
        status, g := ReadBitString(r, 16);
        if status.Wait? { return; }
        inUse := inUse + g;
      } else {
        inUse := inUse + Zeros(16);
      }
    }
    status := Read;
    NoGroupLeft(inUse, inUse16, r.Pending());
  }

  lemma GroupRead(l: seq<bool>, used: seq<bool>, i: nat, bits: seq<bool>)
    requires |used| == 16 && i < 16
    ensures !used[i] ==> Prepend(l, ReadGroups(used, i, bits)) == Prepend(l + Zeros(16), ReadGroups(used, i + 1, bits))
    ensures used[i] && |bits| < 16 ==> Prepend(l, ReadGroups(used, i, bits)) == More
    ensures used[i] && |bits| >= 16 ==> Prepend(l, ReadGroups(used, i, bits)) == Prepend(l + bits[..16], ReadGroups(used, i + 1, bits[16..]))
  {
    var g := if used[i] && |bits| >= 16 then bits[..16] else Zeros(16);
    assert forall s :: l + (g + s) == (l + g) + s;
  }

  lemma NoGroupLeft(l: seq<bool>, used: seq<bool>, bits: seq<bool>)
    requires |used| == 16
    ensures Prepend(l, ReadGroups(used, 16, bits)) == Done(l, bits)
  {
    assert l + [] == l;
  }

  // ----- The selectors -----

  method ReadUnaryNumber(r: BitReader, nGroups: nat) returns (status: Status, j: nat)
    requires r.Valid() && nGroups > 0
    modifies r
    ensures r.Valid() && Outcome(status, j, r.Pending()) == ReadUnary(0, nGroups, old(r.Pending()))
  {
    hide BitReader.Valid, BitReader.Pending;
    ghost var bits := r.Pending();
    j := 0;
    while true
      invariant j < nGroups && r.Valid() && ReadUnary(j, nGroups, r.Pending()) == ReadUnary(0, nGroups, bits)
      decreases nGroups - j
    {
      var uc;
      status, uc := ReadBit(r);
      if status.Wait? || !uc { return; }
      j := j + 1;
      if j >= nGroups { status := DataError; return; }
    }
  }

  method ReadSelectorMtf(r: BitReader, nGroups: nat, nSelectors: nat) returns (status: Status, selectorMtf: seq<nat>)
    requires r.Valid() && nGroups > 0
    modifies r
    ensures r.Valid() && Outcome(status, selectorMtf, r.Pending()) == ReadUnaries(nSelectors, nGroups, old(r.Pending()))
  {
    hide BitReader.Valid, BitReader.Pending, ReadUnaries;
    ghost var bits := r.Pending();
    selectorMtf := [];
    PrependNothing(ReadUnaries(nSelectors, nGroups, bits));
    for i := 0 to nSelectors
      invariant r.Valid() && Prepend(selectorMtf, ReadUnaries(nSelectors - i, nGroups, r.Pending())) == ReadUnaries(nSelectors, nGroups, bits)
    {
      UnaryRead(selectorMtf, nSelectors - i, nGroups, r.Pending());
      var j;
      status, j := ReadUnaryNumber(r, nGroups);
      if !status.Read? { return; }
      selectorMtf := selectorMtf + [j];
    }
    status := Read;
    NoUnaryLeft(selectorMtf, nGroups, r.Pending());
  }

  lemma PrependNothing<T>(p: Parse<seq<T>>)
    ensures Prepend([], p) == p
  {
    if p.Done? { assert [] + p.value == p.value; }
  }

  lemma PrependMore<T>(l: seq<T>, x: T, p: Parse<seq<T>>)
    ensures Prepend(l, Prepend([x], p)) == Prepend(l + [x], p)
  {
    if p.Done? { assert l + ([x] + p.value) == l + [x] + p.value; }
  }

  lemma UnaryRead(l: seq<nat>, count: nat, limit: nat, bits: seq<bool>)
    requires limit > 0 && count > 0
    ensures match ReadUnary(0, limit, bits)
            case Done(j, rest) => Prepend(l, ReadUnaries(count, limit, bits)) == Prepend(l + [j], ReadUnaries(count - 1, limit, rest))
            case More => Prepend(l, ReadUnaries(count, limit, bits)) == More
            case Bad => Prepend(l, ReadUnaries(count, limit, bits)) == Bad
            case Outside => Prepend(l, ReadUnaries(count, limit, bits)) == Outside
  {
    hide ReadUnary;
    if ReadUnary(0, limit, bits).Done? {
      var Done(j, rest) := ReadUnary(0, limit, bits);
      PrependMore(l, j, ReadUnaries(count - 1, limit, rest));
    }
  }

  lemma NoUnaryLeft(l: seq<nat>, limit: nat, bits: seq<bool>)
    requires limit > 0
    ensures Prepend(l, ReadUnaries(0, limit, bits)) == Done(l, bits)
  {
    assert l + [] == l;
  }

  /** Take entry v of the list and move it to the front, one place at a time. */
  method TakeToFront(pos: array<nat>, at: nat) returns (tmp: nat)
    requires at < pos.Length
    modifies pos
    ensures tmp == old(pos[..])[at] && pos[..] == ToFront(old(pos[..]), at)
  {
    ghost var y := pos[..];
    var v := at;
    tmp := pos[v];
    while v > 0
      invariant 0 <= v <= at
      invariant forall k :: 0 <= k < v ==> pos[k] == y[k]
      invariant forall k :: v < k <= at ==> pos[k] == y[k - 1]
      invariant forall k :: at < k < |y| ==> pos[k] == y[k]
    {
      pos[v] := pos[v - 1];
      v := v - 1;
    }
    pos[0] := tmp;
    ToFrontIs(y, at, pos[..]);
  }

  method UndoSelectorMtf(selectorMtf: seq<nat>, nGroups: nat) returns (selectors: seq<nat>)
    requires nGroups > 0 && forall k :: 0 <= k < |selectorMtf| ==> selectorMtf[k] < nGroups
    ensures selectors == SelectorsOf(selectorMtf, Iota(nGroups))
  {
    hide ToFront, SelectorsOf;
    var pos := new nat[nGroups](i => i);
    assert pos[..] == Iota(nGroups) && selectorMtf[0..] == selectorMtf;
    selectors := [];
    for i := 0 to |selectorMtf|
      invariant selectors + SelectorsOf(selectorMtf[i..], pos[..]) == SelectorsOf(selectorMtf, Iota(nGroups))
    {
      SelectorTaken(selectorMtf, i, pos[..]);
      var tmp := TakeToFront(pos, selectorMtf[i]);
      selectors := selectors + [tmp];
    }
    NoSelectorLeft(pos[..]);
    assert selectorMtf[|selectorMtf|..] == [];
  }

  lemma SelectorTaken(s: seq<nat>, i: nat, pos: seq<nat>)
    requires i < |s| && forall k :: 0 <= k < |s| ==> s[k] < |pos|
    ensures SelectorsOf(s[i..], pos) == [pos[s[i]]] + SelectorsOf(s[i + 1..], ToFront(pos, s[i]))
  {
    hide ToFront;
    assert s[i..][0] == s[i] && s[i..][1..] == s[i + 1..];
  }

  lemma NoSelectorLeft(pos: seq<nat>)
    ensures SelectorsOf([], pos) == []
  {
  }

  // ----- The code lengths -----

  method ReadCodeLength(r: BitReader, from: int) returns (status: Status, curr: int)
    requires r.Valid()
    modifies r
    ensures r.Valid() && Outcome(status, curr, r.Pending()) == ReadLength(from, old(r.Pending()))
  {
    hide BitReader.Valid, BitReader.Pending;
    ghost var bits := r.Pending();
    curr := from;
    while true
      invariant r.Valid() && ReadLength(curr, r.Pending()) == ReadLength(from, bits)
      decreases |r.Pending()|
    {
      if curr < 1 || curr > LONGEST_CODE { status := DataError; return; }
      var uc;
      ghost var here := r.Pending();
      status, uc := ReadBit(r);
      if status.Wait? || !uc { return; }
      status, uc := ReadBit(r);
      if status.Wait? { return; }
      assert here[1..][1..] == here[2..];
      if !uc { curr := curr + 1; } else { curr := curr - 1; }
    }
  }

  method ReadCodeLengths(r: BitReader, alphaSize: nat) returns (status: Status, len: seq<Byte>)
    requires r.Valid()
    modifies r
    ensures r.Valid() && Outcome(status, len, r.Pending()) == ReadTable(alphaSize, old(r.Pending()))
  {
    hide BitReader.Valid, BitReader.Pending, ReadLengths, ReadLength;
    ghost var bits := r.Pending();
    len := [];
    var start;
    status, start := r.GetBits(5);
    if status.Wait? { return; }
    var curr: int := start;
    PrependNothing(ReadLengths(alphaSize, curr, r.Pending()));
    for i := 0 to alphaSize
      invariant r.Valid() && Prepend(len, ReadLengths(alphaSize - i, curr, r.Pending())) == ReadTable(alphaSize, bits)
    {
      LengthRead(len, alphaSize - i, curr, r.Pending());
      status, curr := ReadCodeLength(r, curr);
      if !status.Read? { return; }
      len := len + [curr];
    }
    status := Read;
    NoLengthLeft(len, curr, r.Pending());
  }

  lemma LengthRead(l: seq<Byte>, count: nat, curr: int, bits: seq<bool>)
    requires count > 0
    ensures match ReadLength(curr, bits)
            case Done(c, rest) => Prepend(l, ReadLengths(count, curr, bits)) == Prepend(l + [c], ReadLengths(count - 1, c, rest))
            case More => Prepend(l, ReadLengths(count, curr, bits)) == More
            case Bad => Prepend(l, ReadLengths(count, curr, bits)) == Bad
            case Outside => Prepend(l, ReadLengths(count, curr, bits)) == Outside
  {
    hide ReadLength;
    if ReadLength(curr, bits).Done? {
      var Done(c, rest) := ReadLength(curr, bits);
      PrependMore(l, c, ReadLengths(count - 1, c, rest));
    }
  }

  lemma NoLengthLeft(l: seq<Byte>, curr: int, bits: seq<bool>)
    ensures Prepend(l, ReadLengths(0, curr, bits)) == Done(l, bits)
  {
    assert l + [] == l;
  }

  method ReadAllLengths(r: BitReader, nGroups: nat, alphaSize: nat) returns (status: Status, lens: seq<seq<Byte>>)
    requires r.Valid()
    modifies r
    ensures r.Valid() && Outcome(status, lens, r.Pending()) == ReadTables(nGroups, alphaSize, old(r.Pending()))
  {
    hide BitReader.Valid, BitReader.Pending, ReadTables, ReadTable;
    ghost var bits := r.Pending();
    lens := [];
    PrependNothing(ReadTables(nGroups, alphaSize, bits));
    for t := 0 to nGroups
      invariant r.Valid() && Prepend(lens, ReadTables(nGroups - t, alphaSize, r.Pending())) == ReadTables(nGroups, alphaSize, bits)
    {
      TableRead(lens, nGroups - t, alphaSize, r.Pending());
      var len;
      status, len := ReadCodeLengths(r, alphaSize);
      if !status.Read? { return; }
      lens := lens + [len];
    }
    status := Read;
    NoTableLeft(lens, alphaSize, r.Pending());
  }

  lemma TableRead(l: seq<seq<Byte>>, count: nat, alphaSize: nat, bits: seq<bool>)
    requires count > 0
    ensures match ReadTable(alphaSize, bits)
            case Done(len, rest) => Prepend(l, ReadTables(count, alphaSize, bits)) == Prepend(l + [len], ReadTables(count - 1, alphaSize, rest))
            case More => Prepend(l, ReadTables(count, alphaSize, bits)) == More
            case Bad => Prepend(l, ReadTables(count, alphaSize, bits)) == Bad
            case Outside => Prepend(l, ReadTables(count, alphaSize, bits)) == Outside
  {
    hide ReadTable;
    if ReadTable(alphaSize, bits).Done? {
      var Done(len, rest) := ReadTable(alphaSize, bits);
      PrependMore(l, len, ReadTables(count - 1, alphaSize, rest));
    }
  }

  lemma NoTableLeft(l: seq<seq<Byte>>, alphaSize: nat, bits: seq<bool>)
    ensures Prepend(l, ReadTables(0, alphaSize, bits)) == Done(l, bits)
  {
    assert l + [] == l;
  }

  method ReadBlockCoding(r: BitReader, alphaSize: nat) returns (status: Status, c: Coding)
    requires r.Valid()
    modifies r
    ensures r.Valid() && Outcome(status, c, r.Pending()) == ReadCoding(alphaSize, old(r.Pending()))
  {
    hide BitReader.Valid, BitReader.Pending, ReadTables, ReadUnaries, SelectorsOf, Readable;
    c := Coding([], []);
    var nGroups, nSelectors, selectorMtf, lens;
    status, nGroups := r.GetBits(3);
    if status.Wait? { return; }
    if nGroups < 2 || nGroups > 6 { status := DataError; return; }
    status, nSelectors := r.GetBits(15);
    if status.Wait? { return; }
    if nSelectors < 1 { status := DataError; return; }
    // after the last one that selectorMtf has room for, the source goes on to write behind it
    status, selectorMtf := ReadSelectorMtf(r, nGroups, if nSelectors <= MAX_SELECTORS then nSelectors else MAX_SELECTORS + 1);
    if !status.Read? { return; }
    if nSelectors > MAX_SELECTORS { status := Unmodelled; return; }
    var selectors := UndoSelectorMtf(selectorMtf, nGroups);
    status, lens := ReadAllLengths(r, nGroups, alphaSize);
    c := Coding(lens, selectors);
  }

  // ----- The symbols -----

  /** The decoding tables of one code. */
  class CodeTable {
    const limit: array<int>
    const base: array<int>
    const perm: array<nat>
    const minLen: nat
    ghost const maxLen: nat
    ghost const len: seq<Byte>

    ghost predicate Valid()
      reads limit, base, perm
    {
      Tables(len, minLen, maxLen, limit[..], base[..], perm[..])
    }

    constructor (length: seq<Byte>)
      requires 0 < |length| <= MAX_ALPHA_SIZE && GoodLengths(length)
      ensures Valid() && len == length && fresh(limit) && fresh(base) && fresh(perm)
    {
      var least, greatest := SendMtf.LengthRange(length);
      limit, base, perm := new int[MAX_CODE_LEN], new int[MAX_CODE_LEN], new nat[MAX_ALPHA_SIZE];
      minLen, maxLen, len := least, greatest, length;
      new;
      HbCreateDecodeTables(limit, base, perm, length, least, greatest);
    }
  }

  ghost predicate TablesFor(tables: seq<CodeTable>, c: Coding)
    reads set t | t in tables :: t.limit, set t | t in tables :: t.base, set t | t in tables :: t.perm
  {
    |tables| == |c.lens| && forall t :: 0 <= t < |tables| ==> tables[t].len == c.lens[t] && tables[t].Valid()
  }

  method CreateTables(c: Coding, alphaSize: nat) returns (tables: seq<CodeTable>)
    requires Readable(c, alphaSize) && 0 < alphaSize <= MAX_ALPHA_SIZE
    ensures TablesFor(tables, c) && forall t :: t in tables ==> fresh(t.perm)
  {
    hide Tables, GoodLengths;
    tables := [];
    for t := 0 to |c.lens|
      invariant forall u :: u in tables ==> fresh(u.perm)
      invariant |tables| == t && forall u :: 0 <= u < t ==> tables[u].len == c.lens[u] && tables[u].Valid()
    {
      var table := new CodeTable(c.lens[t]);
      tables := tables + [table];
    }
  }

  /** GET_MTF_VAL for symbol number k: groupNo and groupPos say which group it is in. */
  method GetMtfVal(r: BitReader, c: Coding, tables: seq<CodeTable>, groupNo0: int, groupPos0: int, ghost k: nat, ghost alphaSize: nat)
    returns (status: Status, sym: nat, groupNo: int, groupPos: int)
    requires r.Valid() && Readable(c, alphaSize) && TablesFor(tables, c)
    requires 0 <= groupPos0 < G_SIZE && k == G_SIZE * (groupNo0 + 1) - groupPos0
    requires groupPos0 > 0 ==> groupNo0 < |c.selectors|
    modifies r
    ensures r.Valid() && Outcome(status, sym, r.Pending()) == ReadNext(c, alphaSize, k, old(r.Pending()))
    ensures status.Read? ==> 0 <= groupPos < G_SIZE && k + 1 == G_SIZE * (groupNo + 1) - groupPos && groupNo < |c.selectors|
  {
    hide BitReader.Valid, BitReader.Pending, ReadSymbol, Tables, GoodLengths;
    groupNo, groupPos, sym := groupNo0, groupPos0, 0;
    InGroup(k, groupNo0, groupPos0);
    if groupPos == 0 {
      groupNo := groupNo + 1;
      if groupNo >= |c.selectors| { status := DataError; return; }
      groupPos := G_SIZE;
    }
    var table := tables[c.selectors[groupNo]];
    groupPos := groupPos - 1;
    status, sym := ReadMtfVal(r, table.limit, table.base, table.perm, table.minLen, table.len, table.maxLen);
  }

  lemma InGroup(k: nat, groupNo: int, groupPos: int)
    requires 0 <= groupPos < G_SIZE && k == G_SIZE * (groupNo + 1) - groupPos
    ensures k / G_SIZE == if groupPos == 0 then groupNo + 1 else groupNo
  {
  }
}
