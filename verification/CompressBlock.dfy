/** The sorting of a block by fallbackSort and the writing of its body, from the randomisation bit on. */
module CompressBlock {
  import opened Powers
  import opened Sequences
  import opened Bits
  import opened BitReading
  import opened BitWriting
  import opened Rotations
  import opened BucketHeaders
  import FallbackSort
  import opened SmallBuckets
  import opened MainSorting
  import opened RadixSorting
  import opened InverseBwt
  import MoveToFront
  import opened GenerateMtf
  import opened BlockData
  import opened SendMtf

  /** BZ2_blockSort. Small blocks, and those for which mainSort gives up, go to fallbackSort. */
  method BlockSort(ptr: array<nat>, eclass: array<nat>, block: array<Byte>, bhtab: array<Word>, ftab: array<nat>, strategy: Strategy)
    returns (origPtr: nat)
    requires ptr != eclass && ptr != ftab && ptr as object != block && ptr.Length == eclass.Length == block.Length
    requires bhtab as object != block && ftab as object != block && 0 < block.Length <= 900_000
    requires bhtab.Length >= block.Length / 32 + 3 && ftab.Length == BUCKETS + 1 && SortsAll(strategy)
    modifies ptr, eclass, block, bhtab, ftab
    ensures block[..] == old(block[..]) && SortedRotations(block[..], ptr[..])
    ensures origPtr < ptr.Length && ptr[origPtr] == 0
  {
    hide SortsAll, Sorts, SortedRotations;
    if block.Length < 1000 || strategy.givesUp(block[..]) {
      FallbackSort.FallbackSort(ptr, eclass, block, bhtab);
    } else {
      SorterSorts(strategy, block[..]);
      MainSort(ptr, block, ftab, strategy.sorter(block[..]));
    }
    IsSortedPermutation(block[..], ptr[..]);
    PermutationCovers(ptr[..], 0);
    ghost var at :| 0 <= at < ptr.Length && ptr[..][at] == 0;
    origPtr := 0;
    while ptr[origPtr] != 0
      invariant origPtr <= at
      decreases at - origPtr
    {
      origPtr := origPtr + 1;
    }
  }

  /** Write a sorted block. Whatever tables are chosen, reading gives the block back. */
  method WriteSorted(w: BitWriter, ptr: array<nat>, block: array<Byte>, origPtr: nat, inUse: seq<bool>) returns (c: Coding)
    requires w.Valid() && 0 < block.Length == ptr.Length <= 900_000 && AllInUse(inUse, block[..])
    requires SortedRotations(block[..], ptr[..]) && origPtr < ptr.Length && ptr[origPtr] == 0
    modifies w
    ensures Encodable(inUse, c, LastColumn(block[..], ptr[..]))
    ensures w.Valid() && w.Written() == old(w.Written()) + WriteBlock(LastColumn(block[..], ptr[..]), origPtr, inUse, c)
  {
    hide BitWriter.Valid, BitWriter.Written, SortedRotations, WriteColumn, ToBits, Encodable, AllInUse, EncodedColumn, LastColumn, Pow2;
    ghost var before, b, p := w.Written(), block[..], ptr[..];
    IsSortedPermutation(b, p);
    ghost var l := LastColumn(b, p);
    OneZeroBit();
    w.Write(1, 0);
    assert origPtr < Pow2(24) by { Pow2Values(); }
    w.Write(24, origPtr);
    var mtfv := new nat[block.Length + 1];
    var nMTF, nInUse := GenerateMtfValues(ptr, block, inUse, mtfv);
    ColumnUses(inUse, l);
    ColumnSymbols(inUse, l);
    c := SendMtfValues(w, mtfv, nMTF, inUse, nInUse, l);
    BlockJoined(before, l, origPtr, inUse, c);
  }

  lemma SorterSorts(strategy: Strategy, b: seq<Byte>)
    requires SortsAll(strategy)
    ensures Sorts(b, strategy.sorter(b))
  {
  }

  lemma IsSortedPermutation(b: seq<Byte>, p: seq<nat>)
    requires SortedRotations(b, p)
    ensures |p| == |b| && IsPermutation(p) && forall i :: 0 <= i < |p| ==> p[i] < |b|
  {
  }

  lemma OneZeroBit()
    ensures ToBits(0, 1) == [false] && 0 < Pow2(1)
  {
    BitWritten(false);
  }

  lemma ColumnSymbols(inUse: seq<bool>, l: seq<Byte>)
    requires |inUse| == 256 && AllInUse(inUse, l) && l != [] && NInUse(inUse) > 0
    requires forall k :: 0 <= k < |l| ==> Renumber(inUse, l)[k] < NInUse(inUse)
    ensures EncodedColumn(inUse, l) == MoveToFront.Encode(Renumber(inUse, l), NInUse(inUse))
  {
  }

  lemma BlockJoined(before: seq<bool>, l: seq<Byte>, origPtr: nat, inUse: seq<bool>, c: Coding)
    requires Encodable(inUse, c, l)
    ensures before + [false] + ToBits(origPtr, 24) + WriteColumn(inUse, c, l) == before + WriteBlock(l, origPtr, inUse, c)
  {
    hide WriteColumn, ToBits, Encodable;
  }
}
