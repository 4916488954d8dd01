/** BZ2_hbCreateDecodeTables, and the part of GET_MTF_VAL that reads one symbol with these tables. */
module DecodeTables {
  import opened Powers
  import opened Sequences
  import opened Bits
  import opened BitReading
  import opened CharPlaces
  import opened CanonicalCodes

  const MAX_CODE_LEN := 23
  const MAX_ALPHA_SIZE := 258

  ghost predicate Tables(len: seq<Byte>, minLen: nat, maxLen: nat, limit: seq<int>, base: seq<int>, perm: seq<nat>) {
    && |limit| == |base| == MAX_CODE_LEN && |perm| == MAX_ALPHA_SIZE
    && 0 < |len| <= MAX_ALPHA_SIZE && Lengths(len, minLen, maxLen)
    && perm[..|len|] == PlacesBelow(len, maxLen + 1)
    && (forall n: nat :: minLen <= n <= maxLen ==> limit[n] == First(len, n) + Count(len, n) - 1)
    && (forall n: nat :: minLen <= n <= maxLen ==> base[n] == First(len, n) - Start(len, n))
    && (forall n: nat :: maxLen < n < MAX_CODE_LEN ==> limit[n] == 0)
  }

  lemma AllBelow(len: seq<Byte>, m: nat)
    requires m <= 256 && forall i :: 0 <= i < |len| ==> len[i] < m
    ensures Start(len, m) == |len|
  {
    hide PlacesBelow;
    var p := PlacesBelow(len, m);
    PlacesBelowDistinct(len, m);
    assert Elements(p) == Below(|len|);
  }

  /** List the symbols by code length. */
  method FillPerm(perm: array<nat>, length: seq<Byte>, minLen: nat, maxLen: nat)
    requires perm.Length == MAX_ALPHA_SIZE >= |length| && Lengths(length, minLen, maxLen)
    modifies perm
    ensures perm[..|length|] == PlacesBelow(length, maxLen + 1)
  {
    hide Places, PlacesBelow, First, Count;
    var pp := 0;
    NothingShorter(length, minLen, minLen);
    assert perm[..0] == PlacesBelow(length, minLen);
    for i := minLen to maxLen + 1
      invariant pp <= perm.Length && perm[..pp] == PlacesBelow(length, i)
    {
      EmptyHasNoPlaces(length, i);
      for j := 0 to |length|
        invariant pp <= perm.Length && perm[..pp] == PlacesBelow(length, i) + Places(length[..j], i)
      {
        ListOne(length, i, j);
        if length[j] == i {
          ghost var listed := perm[..pp];
          perm[pp] := j;
          pp := pp + 1;
          assert perm[..pp] == listed + [j];
        }
      }
      assert length[..|length|] == length;
      ListNext(length, i);
    }
    AllBelow(length, maxLen + 1);
  }

  lemma ListOne(len: seq<Byte>, c: Byte, j: nat)
    requires j < |len| <= MAX_ALPHA_SIZE
    ensures Places(len[..j + 1], c) == Places(len[..j], c) + if len[j] == c then [j] else []
    ensures len[j] == c ==> |PlacesBelow(len, c)| + |Places(len[..j], c)| < MAX_ALPHA_SIZE
  {
    assert len[..j + 1][..j] == len[..j];
    hide Places, PlacesBelow;
    PlacesInPrefix(len, j, c);
    StartNext(len, c);
    StartGrows(len, c as int + 1, 256);
    StartOfAll(len);
  }

  lemma ListNext(len: seq<Byte>, c: Byte)
    ensures PlacesBelow(len, c as int + 1) == PlacesBelow(len, c) + Places(len, c)
  {
  }

  /** base[n] becomes the number of symbols whose codes have fewer than n bits. */
  method SumCounts(base: array<int>, length: seq<Byte>, minLen: nat, maxLen: nat)
    requires base.Length == MAX_CODE_LEN && Lengths(length, minLen, maxLen)
    modifies base
    ensures forall n: nat :: n < MAX_CODE_LEN ==> base[n] == Start(length, n)
  {
    hide Places, PlacesBelow;
    for i := 0 to MAX_CODE_LEN
      invariant forall n :: 0 <= n < i ==> base[n] == 0
    {
      base[i] := 0;
    }
    forall n: Byte ensures Places(length[..0], n) == [] { EmptyHasNoPlaces(length, n); }
    for i := 0 to |length|
      invariant base[0] == 0 && forall n: nat :: 1 <= n < MAX_CODE_LEN ==> base[n] == |Places(length[..i], n - 1)|
    {
      forall n: Byte ensures |Places(length[..i + 1], n)| == |Places(length[..i], n)| + (if length[i] == n then 1 else 0) {
        PlacesOneMore(length, i, n);
      }
      base[length[i] + 1] := base[length[i] + 1] + 1;
    }
    assert length[..|length|] == length;
    StartOfAll(length);
    for i := 1 to MAX_CODE_LEN
      invariant forall n: nat :: n < i ==> base[n] == Start(length, n)
      invariant forall n: nat :: i <= n < MAX_CODE_LEN ==> base[n] == |Places(length, n - 1)|
    {
      StartNext(length, i - 1);
      base[i] := base[i] + base[i - 1];
    }
  }

  method FillLimits(limit: array<int>, base: array<int>, length: seq<Byte>, minLen: nat, maxLen: nat)
    requires limit.Length == base.Length == MAX_CODE_LEN && limit != base && Lengths(length, minLen, maxLen)
    requires forall n: nat :: n < MAX_CODE_LEN ==> base[n] == Start(length, n)
    modifies limit
    ensures forall n: nat :: minLen <= n <= maxLen ==> limit[n] == First(length, n) + Count(length, n) - 1
    ensures forall n: nat :: maxLen < n < MAX_CODE_LEN ==> limit[n] == 0
  {
    hide Places, PlacesBelow, First;
    for i := 0 to MAX_CODE_LEN
      invariant forall n :: 0 <= n < i ==> limit[n] == 0
    {
      limit[i] := 0;
    }
    var vec := 0;
    NothingShorter(length, minLen, minLen);
    for i := minLen to maxLen + 1
      invariant vec == First(length, i)
      invariant forall n: nat :: minLen <= n < i ==> limit[n] == First(length, n) + Count(length, n) - 1
      invariant forall n: nat :: i <= n < MAX_CODE_LEN ==> limit[n] == 0
    {
      StartNext(length, i);
      NextFirst(length, i);
      assert base[i + 1] - base[i] == Count(length, i);
      vec := vec + (base[i + 1] - base[i]);
      limit[i] := vec - 1;
      vec := 2 * vec;
    }
  }

  method HbCreateDecodeTables(limit: array<int>, base: array<int>, perm: array<nat>,
                              length: seq<Byte>, minLen: nat, maxLen: nat)
    requires limit.Length == base.Length == MAX_CODE_LEN && perm.Length == MAX_ALPHA_SIZE
    requires limit != base && perm as object != limit && perm as object != base
    requires 0 < |length| <= MAX_ALPHA_SIZE && Lengths(length, minLen, maxLen)
    modifies limit, base, perm
    ensures Tables(length, minLen, maxLen, limit[..], base[..], perm[..])
  {
    hide Places, PlacesBelow, First, Count, Start;
    FillPerm(perm, length, minLen, maxLen);
    SumCounts(base, length, minLen, maxLen);
    FillLimits(limit, base, length, minLen, maxLen);
    assert base[minLen] == First(length, minLen) - Start(length, minLen) by {
      NothingShorter(length, minLen, minLen);
    }
    ghost var limits, p := limit[..], perm[..];
    for i := minLen + 1 to maxLen + 1
      invariant limit[..] == limits && perm[..] == p
      invariant forall n: nat :: minLen <= n < i ==> base[n] == First(length, n) - Start(length, n)
      invariant forall n: nat :: i <= n <= maxLen ==> base[n] == Start(length, n)
    {
      NextFirst(length, i - 1);
      assert limit[i - 1] == limits[i - 1];
      base[i] := 2 * (limit[i - 1] + 1) - base[i];
    }
  }

  // ----- Reading a symbol with the tables -----

  /** Codes start at the shortest length, so that many bits can be taken at once. */
  lemma {:induction false} SkipShort(len: seq<Byte>, minLen: nat, n: nat, v: nat, bits: seq<bool>)
    requires n <= minLen <= LONGEST_CODE && forall i :: 0 <= i < |len| ==> len[i] >= minLen
    ensures First(len, n) == First(len, minLen) == 0
    ensures ReadFrom(len, n, v, bits) ==
            if |bits| < minLen - n then More
            else ReadFrom(len, minLen, Followed(v, bits[..minLen - n]), bits[minLen - n..])
    decreases minLen - n
  {
    hide Places, Followed, First, Count, ReadFrom;
    NothingShorter(len, minLen, n);
    NothingShorter(len, minLen, minLen);
    if n == minLen {
      FollowedByNone(v);
      assert bits[..0] == [] && bits[0..] == bits;
    } else {
      ReadsOn(len, n, v, bits);
      if bits != [] {
        var k := minLen - n - 1;
        NothingShorter(len, minLen, n + 1);
        SkipShort(len, minLen, n + 1, 2 * v + (if bits[0] then 1 else 0), bits[1..]);
        if |bits| > k { Shift(v, bits, k); }
      }
    }
  }

  /** The number v with some more bits behind it. */
  function Followed(v: nat, s: seq<bool>): nat {
    v * Pow2(|s|) + ToNat(s)
  }

  lemma FollowedByNone(v: nat)
    ensures Followed(v, []) == v
  {
    Unit();
  }

  lemma Shift(v: nat, bits: seq<bool>, k: nat)
    requires k < |bits|
    ensures Followed(v, bits[..k + 1]) == Followed(2 * v + (if bits[0] then 1 else 0), bits[1..][..k])
    ensures bits[k + 1..] == bits[1..][k..]
  {
    hide Pow2, ToNat;
    var t := bits[..k + 1];
    assert t[1..] == bits[1..][..k];
    NextBit(v, t);
  }

  lemma ReadsOn(len: seq<Byte>, n: nat, v: nat, bits: seq<bool>)
    requires n <= LONGEST_CODE && First(len, n) == Count(len, n) == 0
    ensures First(len, n + 1) == 0
    ensures ReadFrom(len, n, v, bits) ==
            if bits == [] then More else ReadFrom(len, n + 1, 2 * v + (if bits[0] then 1 else 0), bits[1..])
  {
    hide Places;
  }

  lemma SomethingShorter(len: seq<Byte>, maxLen: nat, n: nat)
    requires |len| > 0 && maxLen < n <= 255 && forall i :: 0 <= i < |len| ==> len[i] <= maxLen
    ensures First(len, n) >= 1
  {
    hide Places, Pow2;
    LongerLiesBeyond(len, len[0], n);
    PlacesInPrefix(len, 0, len[0]);
    AtLeast(First(len, len[0]) + Count(len, len[0]), Pow2(n - len[0]));
  }

  lemma AtLeast(x: int, p: int)
    requires x >= 1 && p >= 1
    ensures x * p >= 1
  {
  }

  /** One comparison with the limit of the current length decides what the specification decides. */
  lemma LimitDecides(len: seq<Byte>, minLen: nat, maxLen: nat, limit: seq<int>, base: seq<int>, perm: seq<nat>, zn: nat, zvec: nat)
    requires Tables(len, minLen, maxLen, limit, base, perm)
    requires minLen <= zn <= LONGEST_CODE && First(len, zn) <= zvec
    ensures zvec <= limit[zn] <==> zvec < First(len, zn) + Count(len, zn)
    ensures zvec <= limit[zn] ==>
              && 0 <= zvec - base[zn] < MAX_ALPHA_SIZE
              && perm[zvec - base[zn]] == Places(len, zn)[zvec - First(len, zn)]
  {
    hide Places, PlacesBelow, First;
    if zn > maxLen {
      SomethingShorter(len, maxLen, zn);
      NoPlaces(len, zn);
    } else if zvec <= limit[zn] {
      var k := zvec - First(len, zn);
      AllBelow(len, maxLen + 1);
      InPerm(len, zn, maxLen, k);
      assert perm[Start(len, zn) + k] == perm[..|len|][Start(len, zn) + k];
    }
  }

  lemma {:induction false} InPerm(len: seq<Byte>, n: nat, maxLen: nat, k: nat)
    requires n <= maxLen < 256 && k < Count(len, n)
    ensures Start(len, n) + k < Start(len, maxLen + 1)
    ensures PlacesBelow(len, maxLen + 1)[Start(len, n) + k] == Places(len, n)[k]
    decreases maxLen
  {
    hide Places, PlacesBelow;
    ListNext(len, maxLen);
    if n < maxLen { InPerm(len, n, maxLen - 1, k); }
  }

  lemma TablesShape(len: seq<Byte>, minLen: nat, maxLen: nat, limit: seq<int>, base: seq<int>, perm: seq<nat>)
    requires Tables(len, minLen, maxLen, limit, base, perm)
    ensures |limit| == |base| == MAX_CODE_LEN && |perm| == MAX_ALPHA_SIZE
    ensures 1 <= minLen <= LONGEST_CODE && forall i :: 0 <= i < |len| ==> len[i] >= minLen
    ensures First(len, 0) == 0
  {
  }

  lemma TooLong(len: seq<Byte>, n: nat, v: nat, bits: seq<bool>)
    requires LONGEST_CODE < n <= 255 && First(len, n) <= v
    ensures ReadFrom(len, n, v, bits) == Bad
  {
  }

  lemma ReadStep(len: seq<Byte>, n: nat, v: nat, bits: seq<bool>)
    requires n <= LONGEST_CODE && First(len, n) <= v
    ensures v < First(len, n) + Count(len, n) ==>
              ReadFrom(len, n, v, bits) == Done(Places(len, n)[v - First(len, n)], bits)
    ensures v >= First(len, n) + Count(len, n) ==>
              && First(len, n + 1) <= 2 * v
              && match Take(bits, 1)
                 case Done(b, rest) => ReadFrom(len, n, v, bits) == ReadFrom(len, n + 1, 2 * v + b, rest)
                 case _ => ReadFrom(len, n, v, bits) == More
  {
    hide Places, Take;
    TakeOne(bits);
  }

  /** Read one symbol. The check on the index of perm that the source makes never fails. */
  method ReadMtfVal(r: BitReader, gLimit: array<int>, gBase: array<int>, gPerm: array<nat>, gMinlen: nat,
                    ghost len: seq<Byte>, ghost maxLen: nat)
    returns (status: Status, lval: nat)
    requires r.Valid() && Tables(len, gMinlen, maxLen, gLimit[..], gBase[..], gPerm[..])
    modifies r
    ensures r.Valid() && Outcome(status, lval, r.Pending()) == ReadSymbol(len, old(r.Pending()))
  {
    hide Places, PlacesBelow, First, Count, Pow2, ToNat, Tables, ReadFrom;
    ghost var before := r.Pending();
    TablesShape(len, gMinlen, maxLen, gLimit[..], gBase[..], gPerm[..]);
    SkipShort(len, gMinlen, 0, 0, before);
    lval := 0;
    var zn := gMinlen;
    var zvec;
    status, zvec := r.GetBits(zn);
    if status.Wait? { return; }
    while true
      invariant gMinlen <= zn <= LONGEST_CODE + 1 && First(len, zn) <= zvec
      invariant r.Valid() && ReadFrom(len, zn, zvec, r.Pending()) == ReadSymbol(len, before)
      decreases LONGEST_CODE + 1 - zn
    {
      if zn > LONGEST_CODE {
        TooLong(len, zn, zvec, r.Pending());
        status := DataError;
        return;
      }
      LimitDecides(len, gMinlen, maxLen, gLimit[..], gBase[..], gPerm[..], zn, zvec);
      ReadStep(len, zn, zvec, r.Pending());
      if zvec <= gLimit[zn] { break; }
      zn := zn + 1;
      var zj;
      status, zj := r.GetBits(1);
      if status.Wait? { return; }
      zvec := 2 * zvec + zj;
    }
    if zvec - gBase[zn] < 0 || zvec - gBase[zn] >= MAX_ALPHA_SIZE {
      status := DataError;
    } else {
      status, lval := Read, gPerm[zvec - gBase[zn]];
    }
  }

  lemma TakeOne(bits: seq<bool>)
    ensures Take(bits, 1) == if bits == [] then More else Done(if bits[0] then 1 else 0, bits[1..])
  {
    if bits != [] {
      assert bits[..1] == [bits[0]];
      OneBit(bits[0]);
    }
  }
}
