/** Reading a whole block into tt, up to the sums that the inverse of the sort starts from. */
module BlockReading {
  import opened Powers
  import opened Sequences
  import opened Bits
  import opened BitReading
  import opened MoveToFront
  import opened GenerateMtf
  import opened CharPlaces
  import opened CanonicalCodes
  import opened BlockFormat
  import opened BlockData
  import opened DecompressBlock
  import opened ColumnReading

  // ----- The pointer to the original block -----

  /** Reading n bits and then a byte is reading n + 8 bits. */
  lemma NextByte(bits: seq<bool>, n: nat)
    ensures if |bits| < n + 8 then
              && Take(bits, n + 8) == More
              && (Take(bits, n) == More || (Take(bits, n).Done? && Take(Take(bits, n).rest, 8) == More))
            else
              && Take(bits, n).Done? && Take(Take(bits, n).rest, 8).Done?
              && Take(bits, n + 8) == Done(Take(bits, n).value * 256 + Take(Take(bits, n).rest, 8).value, Take(Take(bits, n).rest, 8).rest)
  {
    hide ToNat;
    if |bits| >= n + 8 {
      assert Pow2(8) == 256;
      NatOfConcat(bits[..n], bits[n..][..8]);
      assert bits[..n + 8] == bits[..n] + bits[n..][..8] && bits[n + 8..] == bits[n..][8..];
    }
  }

  method ReadOrigPtr(r: BitReader) returns (status: Status, origPtr: nat)
    requires r.Valid()
    modifies r
    ensures r.Valid() && Outcome(status, origPtr, r.Pending()) == Take(old(r.Pending()), 24)
  {
    hide BitReader.Valid, BitReader.Pending, Take;
    NextByte(r.Pending(), 0);
    NextByte(r.Pending(), 8);
    NextByte(r.Pending(), 16);
    assert Take(r.Pending(), 0) == Done(0, r.Pending()) by { TakeNothing(r.Pending()); }
    origPtr := 0;
    var uc;
    status, uc := r.GetBits(8);
    if !status.Read? { return; }
    origPtr := origPtr * 256 + uc;
    status, uc := r.GetBits(8);
    if !status.Read? { return; }
    origPtr := origPtr * 256 + uc;
    status, uc := r.GetBits(8);
    if !status.Read? { return; }
    origPtr := origPtr * 256 + uc;
  }

  lemma TakeNothing(bits: seq<bool>)
    ensures Take(bits, 0) == Done(0, bits)
  {
    assert bits[..0] == [] && bits[0..] == bits;
  }

  // ----- The column -----

  /** Read the map, the tables and the data. */
  method ReadBlockColumn(r: BitReader, tt: array<nat>, unzftab: array<nat>)
    returns (status: Status, nblock: nat, ghost l: seq<Byte>)
    requires r.Valid() && tt != unzftab && unzftab.Length == 256
    modifies r, tt, unzftab
    ensures r.Valid() && nblock <= tt.Length
    ensures Outcome(status, l, r.Pending()) == ReadColumn(tt.Length, old(r.Pending()))
    ensures status.Read? ==> tt[..nblock] == l && forall c: Byte :: unzftab[c] == |Places(l, c)|
  {
    hide BitReader.Valid, BitReader.Pending, ReadMap, ReadCoding, Unpack, NInUse, UsedCharacters, Unnumber, Readable, TablesFor, Ranked,
      ToRead, Written;
    nblock, l := 0, [];
    var inUse;
    status, inUse := ReadMapping(r);
    if !status.Read? { return; }
    var seqToUnseq, nInUse := MakeMapsD(inUse);
    MapsAre(inUse);
    if nInUse == 0 { status := DataError; return; }
    var c;
    ghost var before := r.Pending();
    status, c := ReadBlockCoding(r, nInUse + 2);
    if !status.Read? { return; }
    var tables := CreateTables(c, nInUse + 2);
    FirstRanked(inUse);
    ghost var goal := Unpack(c, nInUse, 0, Iota(256), 0, 1, tt.Length, r.Pending());
    ToReadStarts(goal, c, nInUse, tt.Length, r.Pending());
    ghost var out, last;
    status, nblock, out, l, last := ReadMtfValues(r, c, tables, inUse, seqToUnseq, nInUse, tt, unzftab, goal);
    if !status.Read? { l := []; return; }
    WrittenIs(inUse, seqToUnseq, nInUse, out, l, unzftab[..], last);
  }

  lemma MapsAre(inUse: seq<bool>)
    requires |inUse| == 256
    ensures UsedCharacters(inUse, 256) == UsedCharacters(inUse, |inUse|)
  {
  }

  lemma ToReadStarts(goal: Parse<seq<nat>>, c: Coding, n: nat, room: nat, bits: seq<bool>)
    requires Readable(c, n + 2) && Ranked(Iota(256), n) && goal == Unpack(c, n, 0, Iota(256), 0, 1, room, bits)
    ensures ToRead(goal, c, n, 0, Iota(256), 0, 1, room, bits, [])
  {
    hide Readable, Ranked, Unpack;
    PrependNothing(goal);
  }

  lemma WrittenIs(inUse: seq<bool>, seqToUnseq: seq<nat>, n: nat, out: seq<nat>, l: seq<Byte>, unzftab: seq<nat>, last: Byte)
    requires Written(inUse, seqToUnseq, n, out, l, unzftab, last)
    ensures |inUse| == 256 && n == NInUse(inUse) && (forall i :: 0 <= i < |out| ==> out[i] < n) && l == Unnumber(inUse, out)
    ensures |unzftab| == 256 && forall c: Byte :: unzftab[c] == |Places(l, c)|
  {
    hide NInUse, Places;
  }

  // ----- The block -----

  /** Sum the counts: where each character starts in the sorted column. */
  method SumCounts(unzftab: array<nat>, ghost l: seq<Byte>) returns (cftab: array<nat>)
    requires unzftab.Length == 256 && forall c: Byte :: unzftab[c] == |Places(l, c)|
    ensures fresh(cftab) && cftab.Length == 257 && forall c: nat :: c <= 256 ==> cftab[c] == Start(l, c) <= |l|
  {
    hide Places, PlacesBelow;
    cftab := new nat[257];
    cftab[0] := 0;
    for i := 1 to 257
      invariant cftab[0] == 0 && forall k: nat :: 1 <= k < i ==> cftab[k] == |Places(l, k - 1)|
    {
      cftab[i] := unzftab[i - 1];
    }
    StartOfAll(l);
    for i := 1 to 257
      invariant forall k: nat :: k < i ==> cftab[k] == Start(l, k)
      invariant forall k: nat :: i <= k <= 256 ==> cftab[k] == |Places(l, k - 1)|
    {
      StartNext(l, i - 1);
      cftab[i] := cftab[i] + cftab[i - 1];
    }
    forall c: nat | c <= 256 ensures Start(l, c) <= |l| {
      StartGrows(l, c, 256);
    }
  }

  /** The check on cftab that follows the sums in the source; it never fails. */
  method CheckStarts(cftab: array<nat>, nblock: nat) returns (bad: bool)
    requires cftab.Length == 257
    ensures bad == exists i :: 0 <= i <= 256 && cftab[i] > nblock
  {
    bad := false;
    for i := 0 to 257
      invariant !bad && forall k :: 0 <= k < i ==> cftab[k] <= nblock
    {
      if cftab[i] > nblock { bad := true; return; }
    }
  }

  /** Read a block as it was sorted. */
  method ReadSorted(r: BitReader, blockSize100k: nat, tt: array<nat>)
    returns (status: Status, randomised: bool, origPtr: nat, nblock: nat, cftab: array<nat>, ghost l: seq<Byte>)
    requires r.Valid() && tt.Length == 100000 * blockSize100k
    modifies r, tt
    ensures r.Valid() && nblock <= tt.Length
    ensures Outcome(status, Sorted(randomised, origPtr, l), r.Pending()) == ReadBlock(blockSize100k, old(r.Pending()))
    ensures status.Read? ==>
              && tt[..nblock] == l && origPtr < nblock && fresh(cftab) && cftab.Length == 257
              && forall c: nat :: c <= 256 ==> cftab[c] == Start(l, c)
  {
    hide BitReader.Valid, BitReader.Pending, ReadColumn, PlacesBelow, Places;
    var unzftab := new nat[256];
    randomised, origPtr, nblock, l, cftab := false, 0, 0, [], unzftab;
    var v;
    status, v := r.GetBits(1);
    if status.Wait? { return; }
    randomised := v == 1;
    status, origPtr := ReadOrigPtr(r);
    if status.Wait? { return; }
    if origPtr > 10 + 100000 * blockSize100k { status := DataError; return; }
    status, nblock, l := ReadBlockColumn(r, tt, unzftab);
    if !status.Read? { return; }
    if origPtr >= nblock { status := DataError; return; }
    cftab := SumCounts(unzftab, l);
    var bad := CheckStarts(cftab, nblock);
    if bad { status := DataError; }
  }
}
