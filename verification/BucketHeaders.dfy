/** The bucket-header bits of fallbackSort: a bit array packed 32 to a word, searched a word at a time. */
module BucketHeaders {
  import opened Sequences

  const ALL_ONES: Word := seq(32, _ => true)
  const ALL_ZEROS: Word := seq(32, _ => false)

  /** The packed bits, in order. */
  ghost function Bits(bh: seq<Word>): (bits: seq<bool>)
    ensures |bits| == 32 * |bh|
  {
    seq(32 * |bh|, z requires 0 <= z < 32 * |bh| => bh[z / 32][z % 32])
  }

  method SetBh(bhtab: array<Word>, z: nat)
    requires z < 32 * bhtab.Length
    modifies bhtab
    ensures Bits(bhtab[..]) == old(Bits(bhtab[..]))[z := true]
  {
    bhtab[z / 32] := bhtab[z / 32][z % 32 := true];
  }

  method ClearBh(bhtab: array<Word>, z: nat)
    requires z < 32 * bhtab.Length
    modifies bhtab
    ensures Bits(bhtab[..]) == old(Bits(bhtab[..]))[z := false]
  {
    bhtab[z / 32] := bhtab[z / 32][z % 32 := false];
  }

  function IsSetBh(bhtab: array<Word>, z: nat): (set_: bool)
    requires z < 32 * bhtab.Length
    reads bhtab
    ensures set_ == Bits(bhtab[..])[z]
  {
    bhtab[z / 32][z % 32]
  }

  lemma WholeWord(k: nat, n: nat)
    requires k < 32 * n
    ensures k / 32 < n && (k % 32 == 0 ==> (k + 32) % 32 == 0)
  {
  }

  /** The first clear bit at or after from; there is one no later than stop. */
  method FirstClear(bhtab: array<Word>, from: nat, ghost stop: nat) returns (k: nat)
    requires from <= stop < 32 * bhtab.Length && !Bits(bhtab[..])[stop]
    ensures from <= k <= stop && !Bits(bhtab[..])[k]
    ensures forall z :: from <= z < k ==> Bits(bhtab[..])[z]
  {
    hide Bits;
    ghost var bits := Bits(bhtab[..]);
    k := from;
    while IsSetBh(bhtab, k) && k % 32 != 0
      invariant from <= k <= stop && forall z :: from <= z < k ==> bits[z]
      decreases stop - k
    {
      k := k + 1;
    }
    if IsSetBh(bhtab, k) {
      WholeWord(k, bhtab.Length);
      while bhtab[k / 32] == ALL_ONES
        invariant from <= k <= stop && k % 32 == 0 && k / 32 < bhtab.Length && forall z :: from <= z < k ==> bits[z]
        decreases stop - k
      {
        OneWord(bhtab[..], k);
        WholeWord(k, bhtab.Length);
        k := k + 32;
        WholeWord(k, bhtab.Length);
      }
      while IsSetBh(bhtab, k)
        invariant from <= k <= stop && forall z :: from <= z < k ==> bits[z]
        decreases stop - k
      {
        k := k + 1;
      }
    }
  }

  lemma ZeroWord(bh: seq<Word>, k: nat)
    requires k % 32 == 0 && k / 32 < |bh| && bh[k / 32] == ALL_ZEROS
    ensures k + 32 <= 32 * |bh| && forall z :: k <= z < k + 32 ==> !Bits(bh)[z]
  {
    forall z | k <= z < k + 32 ensures !Bits(bh)[z] {
      assert z / 32 == k / 32;
    }
  }

  lemma OneWord(bh: seq<Word>, k: nat)
    requires k % 32 == 0 && k / 32 < |bh| && bh[k / 32] == ALL_ONES
    ensures k + 32 <= 32 * |bh| && forall z :: k <= z < k + 32 ==> Bits(bh)[z]
  {
    forall z | k <= z < k + 32 ensures Bits(bh)[z] {
      assert z / 32 == k / 32;
    }
  }

  /** The first set bit at or after from; there is one no later than stop. */
  method FirstSet(bhtab: array<Word>, from: nat, ghost stop: nat) returns (k: nat)
    requires from <= stop < 32 * bhtab.Length && Bits(bhtab[..])[stop]
    ensures from <= k <= stop && Bits(bhtab[..])[k]
    ensures forall z :: from <= z < k ==> !Bits(bhtab[..])[z]
  {
    hide Bits;
    ghost var bits := Bits(bhtab[..]);
    k := from;
    while !IsSetBh(bhtab, k) && k % 32 != 0
      invariant from <= k <= stop && forall z :: from <= z < k ==> !bits[z]
      decreases stop - k
    {
      k := k + 1;
    }
    if !IsSetBh(bhtab, k) {
      WholeWord(k, bhtab.Length);
      while bhtab[k / 32] == ALL_ZEROS
        invariant from <= k <= stop && k % 32 == 0 && k / 32 < bhtab.Length && forall z :: from <= z < k ==> !bits[z]
        decreases stop - k
      {
        ZeroWord(bhtab[..], k);
        WholeWord(k, bhtab.Length);
        k := k + 32;
        WholeWord(k, bhtab.Length);
      }
      while !IsSetBh(bhtab, k)
        invariant from <= k <= stop && forall z :: from <= z < k ==> !bits[z]
        decreases stop - k
      {
        k := k + 1;
      }
    }
  }
}
