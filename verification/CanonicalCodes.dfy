/** The canonical prefix code that a list of code lengths stands for: BZ2_hbAssignCodes hands the codes
    out, and reading a code bit by bit finds the symbol again. */
module CanonicalCodes {
  import opened Powers
  import opened Sequences
  import opened Sums
  import opened Bits
  import opened BitReading
  import opened CharPlaces
  import opened CodeLengths
  import opened OptimalCodes

  const LONGEST_CODE := 20

  /** How many symbols have a code of n bits. */
  function Count(len: seq<Byte>, n: Byte): nat {
    |Places(len, n)|
  }

  /** The first code of n bits. */
  function First(len: seq<Byte>, n: nat): nat
    requires n <= 256
  {
    if n == 0 then 0 else 2 * (First(len, n - 1) + Count(len, n - 1))
  }

  /** The code of symbol i: codes of one length are handed out in the order of the symbols. */
  function CodeOf(len: seq<Byte>, i: nat): nat
    requires i < |len|
  {
    First(len, len[i]) + |Places(len[..i], len[i])|
  }

  ghost predicate Lengths(len: seq<Byte>, minLen: nat, maxLen: nat) {
    && 1 <= minLen <= maxLen <= LONGEST_CODE
    && forall i :: 0 <= i < |len| ==> minLen <= len[i] <= maxLen
  }

  lemma {:induction false} NoPlaces(len: seq<Byte>, n: Byte)
    requires n !in len
    ensures Places(len, n) == []
  {
    if len != [] { NoPlaces(len[..|len| - 1], n); }
  }

  lemma {:induction false} NothingShorter(len: seq<Byte>, minLen: nat, n: nat)
    requires n <= minLen <= 255 && forall i :: 0 <= i < |len| ==> len[i] >= minLen
    ensures First(len, n) == 0 && Start(len, n) == 0
    ensures n < minLen ==> Count(len, n) == 0
    decreases n
  {
    hide Places, PlacesBelow;
    if n > 0 {
      NothingShorter(len, minLen, n - 1);
      StartNext(len, n - 1);
    } else {
      StartOfAll(len);
    }
    if n < minLen { NoPlaces(len, n); }
  }

  /** BZ2_hbAssignCodes. */
  method HbAssignCodes(code: array<nat>, length: seq<Byte>, minLen: nat, maxLen: nat, alphaSize: nat)
    requires |length| == alphaSize <= code.Length && Lengths(length, minLen, maxLen)
    modifies code
    ensures forall i :: 0 <= i < alphaSize ==> code[i] == CodeOf(length, i)
  {
    hide Places;
    var vec := 0;
    NothingShorter(length, minLen, minLen);
    for n := minLen to maxLen + 1
      invariant vec == First(length, n)
      invariant forall i :: 0 <= i < alphaSize && length[i] < n ==> code[i] == CodeOf(length, i)
    {
      EmptyHasNoPlaces(length, n);
      for i := 0 to alphaSize
        invariant vec == First(length, n) + |Places(length[..i], n)|
        invariant forall k :: 0 <= k < alphaSize && (length[k] < n || (length[k] == n && k < i)) ==> code[k] == CodeOf(length, k)
      {
        PlacesOneMore(length, i, n);
        if length[i] == n {
          code[i] := vec;
          vec := vec + 1;
        }
      }
      assert length[..alphaSize] == length;
      vec := 2 * vec;
    }
  }

  lemma EmptyHasNoPlaces(len: seq<Byte>, n: Byte)
    ensures Places(len[..0], n) == []
  {
  }

  // ----- Complete lengths have codes that fit -----

  /** No code of n bits needs more than n bits. */
  ghost predicate Fits(len: seq<Byte>) {
    forall n: Byte :: First(len, n) + Count(len, n) <= Pow2(n)
  }

  /** The shares of the code space of the symbols with at most n bits. */
  function SharesUpTo(len: seq<Byte>, m: nat, n: int): (s: seq<int>)
    requires forall i :: 0 <= i < |len| ==> len[i] <= m
    ensures |s| == |len|
  {
    seq(|len|, i requires 0 <= i < |len| => if len[i] <= n then Pow2(m - len[i]) else 0)
  }

  lemma LastShare(len: seq<Byte>, m: nat, n: int)
    requires len != [] && forall i :: 0 <= i < |len| ==> len[i] <= m
    ensures var k := |len| - 1;
            Sum(SharesUpTo(len, m, n)) == Sum(SharesUpTo(len[..k], m, n)) + if len[k] <= n then Pow2(m - len[k]) else 0
  {
    hide Pow2;
    assert SharesUpTo(len, m, n)[..|len| - 1] == SharesUpTo(len[..|len| - 1], m, n);
  }

  lemma NoShares(m: nat, n: int)
    ensures Sum(SharesUpTo([], m, n)) == 0
  {
  }

  lemma {:induction false} OneMoreLevel(len: seq<Byte>, m: nat, n: Byte)
    requires n <= m && forall i :: 0 <= i < |len| ==> len[i] <= m
    ensures Sum(SharesUpTo(len, m, n)) == Sum(SharesUpTo(len, m, n - 1)) + Count(len, n) * Pow2(m - n)
  {
    hide Pow2, Places, SharesUpTo, Sum;
    if len == [] {
      EmptyHasNoPlaces([], n);
      NoShares(m, n);
      NoShares(m, n - 1);
    } else {
      var k := |len| - 1;
      OneMoreLevel(len[..k], m, n);
      PlacesOneMore(len, k, n);
      assert len[..k + 1] == len;
      LastShare(len, m, n);
      LastShare(len, m, n - 1);
      OneMore(Count(len[..k], n), Pow2(m - n));
    }
  }

  lemma OneMore(x: int, p: int)
    ensures (x + 1) * p == x * p + p
  {
  }

  /** The codes of at most n bits fill the code space from the bottom. */
  lemma {:induction false} LevelsFill(len: seq<Byte>, m: nat, n: Byte)
    requires n <= m && forall i :: 0 <= i < |len| ==> len[i] <= m
    requires forall i :: 0 <= i < |len| ==> len[i] >= 1
    ensures Sum(SharesUpTo(len, m, n)) == (First(len, n) + Count(len, n)) * Pow2(m - n)
    decreases n
  {
    hide Places, Pow2, SharesUpTo;
    OneMoreLevel(len, m, n);
    if n == 0 {
      SharesBelow(len, m);
    } else {
      LevelsFill(len, m, n - 1);
      assert Pow2(m - (n - 1)) == 2 * Pow2(m - n) by { Double(m - n); }
      Refit(First(len, n - 1) + Count(len, n - 1), Count(len, n), Pow2(m - n));
    }
  }

  lemma Refit(x: int, c: int, p: int)
    ensures x * (2 * p) + c * p == (2 * x + c) * p
  {
  }

  lemma SharesBelow(len: seq<Byte>, m: nat)
    requires forall i :: 0 <= i < |len| ==> 1 <= len[i] <= m
    ensures Sum(SharesUpTo(len, m, -1)) == 0
  {
    SumConstantBound(SharesUpTo(len, m, -1), 0);
    SumNotNegative(SharesUpTo(len, m, -1));
  }

  /** Codes fit if and only if the Kraft sum is at most 1. */
  lemma KraftFits(len: seq<Byte>, m: nat)
    requires m <= 255 && forall i :: 0 <= i < |len| ==> 1 <= len[i] <= m
    ensures Fits(len) <==> Sum(CodeShares(len, m)) <= Pow2(m)
  {
    hide Pow2, CodeShares, First, Count, Sum;
    if Sum(CodeShares(len, m)) <= Pow2(m) {
      forall n: Byte ensures First(len, n) + Count(len, n) <= Pow2(n) {
        if n <= m { LevelFits(len, m, n); } else { LevelFits(len, m, m); BeyondLevel(len, m, n); }
      }
    }
    LevelsFill(len, m, m);
    AllShares(len, m);
    Unit();
  }

  lemma AllShares(len: seq<Byte>, m: nat)
    requires forall i :: 0 <= i < |len| ==> len[i] <= m
    ensures SharesUpTo(len, m, m) == CodeShares(len, m)
  {
    hide Pow2;
  }

  /** Complete lengths fit. */
  lemma CompleteFits(len: seq<Byte>, m: nat)
    requires m <= 255 && Complete(len, m) && forall i :: 0 <= i < |len| ==> len[i] >= 1
    ensures Fits(len)
  {
    KraftFits(len, m);
  }

  lemma SharesAreParts(len: seq<Byte>, m: nat, n: int)
    requires forall i :: 0 <= i < |len| ==> len[i] <= m
    ensures Sum(SharesUpTo(len, m, n)) <= Sum(CodeShares(len, m))
  {
    hide Pow2, Sum;
    SumMonotone(SharesUpTo(len, m, n), CodeShares(len, m));
  }

  lemma LevelFits(len: seq<Byte>, m: nat, n: Byte)
    requires n <= m <= 255 && (forall i :: 0 <= i < |len| ==> 1 <= len[i] <= m) && Sum(CodeShares(len, m)) <= Pow2(m)
    ensures First(len, n) + Count(len, n) <= Pow2(n)
  {
    hide Pow2, Places, SharesUpTo, CodeShares, Sum, First, Count;
    LevelsFill(len, m, n);
    SharesAreParts(len, m, n);
    Pow2Sum(n, m - n);
    NoMore(First(len, n) + Count(len, n), Pow2(n), Pow2(m - n));
  }

  lemma TimesMore(y: int, x: int, p: int)
    requires y < x && p >= 1
    ensures y * p < x * p
  {
    assert (y + 1) * p <= x * p;
  }

  lemma NoMore(x: int, y: int, p: int)
    requires x * p <= y * p && p >= 1
    ensures x <= y
  {
    if x > y { TimesMore(y, x, p); }
  }

  lemma {:induction false} BeyondLevel(len: seq<Byte>, m: nat, n: Byte)
    requires m <= n && First(len, m) + Count(len, m) <= Pow2(m) && forall i :: 0 <= i < |len| ==> len[i] <= m
    ensures First(len, n) + Count(len, n) <= Pow2(n)
    decreases n
  {
    hide Places;
    if m < n {
      BeyondLevel(len, m, n - 1);
      NoPlaces(len, n);
    }
  }

  lemma CodeFits(len: seq<Byte>, i: nat)
    requires i < |len| && Fits(len)
    ensures CodeOf(len, i) < Pow2(len[i])
  {
    hide Places, Pow2;
    PlacesInPrefix(len, i, len[i]);
  }

  // ----- Reading -----

  /** Read on, with n bits read whose value is v. */
  function ReadFrom(len: seq<Byte>, n: nat, v: nat, bits: seq<bool>): Parse<nat>
    requires n <= 255 && First(len, n) <= v
    decreases |bits|
  {
    if n > LONGEST_CODE then Bad
    else if v < First(len, n) + Count(len, n) then Done(Places(len, n)[v - First(len, n)], bits)
    else if bits == [] then More
    else ReadFrom(len, n + 1, 2 * v + (if bits[0] then 1 else 0), bits[1..])
  }

  /** Read one symbol. */
  function ReadSymbol(len: seq<Byte>, bits: seq<bool>): Parse<nat> {
    ReadFrom(len, 0, 0, bits)
  }

  /** Codes of a longer length lie beyond the extensions of those of a shorter one. */
  lemma {:induction false} LongerLiesBeyond(len: seq<Byte>, n: nat, k: nat)
    requires n < k <= 255
    ensures (First(len, n) + Count(len, n)) * Pow2(k - n) <= First(len, k)
    decreases k
  {
    hide Places;
    if n < k - 1 {
      LongerLiesBeyond(len, n, k - 1);
      Twice(First(len, n) + Count(len, n), Pow2(k - 1 - n));
    }
  }

  /** A symbol's code, of which n bits with value v have been read and t are to come, is read to its end. */
  lemma {:induction false} ReadsCode(len: seq<Byte>, i: nat, n: nat, v: nat, t: seq<bool>, rest: seq<bool>)
    requires i < |len| && len[i] <= LONGEST_CODE && n + |t| == len[i] && First(len, n) <= v
    requires v * Pow2(|t|) + ToNat(t) == CodeOf(len, i)
    ensures ReadFrom(len, n, v, t + rest) == Done(i, rest)
    decreases |t|
  {
    hide Places, ToNat, Pow2, CodeOf, First, Count;
    if t == [] {
      Unit();
      assert t + rest == rest;
      LastBitRead(len, i, rest);
    } else {
      var d, u := t[0], t[1..];
      NotYetRead(len, i, n, v, t);
      NextBit(v, t);
      assert (t + rest)[1..] == u + rest;
      ReadsCode(len, i, n + 1, 2 * v + (if d then 1 else 0), u, rest);
    }
  }

  lemma LastBitRead(len: seq<Byte>, i: nat, rest: seq<bool>)
    requires i < |len| && len[i] <= LONGEST_CODE
    ensures First(len, len[i]) <= CodeOf(len, i) && ReadFrom(len, len[i], CodeOf(len, i), rest) == Done(i, rest)
  {
    hide Places;
    PlacesInPrefix(len, i, len[i]);
  }

  lemma NotYetRead(len: seq<Byte>, i: nat, n: nat, v: nat, t: seq<bool>)
    requires i < |len| && n + |t| == len[i] && t != []
    requires v * Pow2(|t|) + ToNat(t) == CodeOf(len, i)
    ensures v >= First(len, n) + Count(len, n) && First(len, n + 1) <= 2 * v
  {
    hide Places, ToNat, Pow2;
    PlacesInPrefix(len, i, len[i]);
    LongerLiesBeyond(len, n, len[i]);
    StillBeyond(v, First(len, n) + Count(len, n), Pow2(|t|), ToNat(t), CodeOf(len, i));
  }

  lemma NextBit(v: nat, t: seq<bool>)
    requires t != []
    ensures v * Pow2(|t|) + ToNat(t) == (2 * v + (if t[0] then 1 else 0)) * Pow2(|t[1..]|) + ToNat(t[1..])
  {
    hide ToNat, Pow2;
    var d, u := t[0], t[1..];
    assert t == [d] + u;
    NatOfConcat([d], u);
    OneBit(d);
    Double(|u|);
    Regroup(v, if d then 1 else 0, Pow2(|u|));
  }

  lemma OneBit(d: bool)
    ensures ToNat([d]) == if d then 1 else 0
  {
    assert [d][..0] == [];
  }

  lemma Regroup(v: int, d: int, p: int)
    ensures v * (2 * p) + d * p == (2 * v + d) * p
  {
  }

  lemma StillBeyond(v: int, x: int, p: int, w: int, c: int)
    requires p >= 1 && 0 <= w < p && v * p + w == c && x * p <= c
    ensures v >= x
  {
    if v < x { assert (v + 1) * p <= x * p; OneMore(v, p); }
  }

  /** What is written for a symbol is read back as that symbol, and nothing more is read. */
  lemma ReadWritten(len: seq<Byte>, i: nat, rest: seq<bool>)
    requires i < |len| && len[i] <= LONGEST_CODE && Fits(len)
    ensures ReadSymbol(len, ToBits(CodeOf(len, i), len[i]) + rest) == Done(i, rest)
  {
    hide Places, Fits, ReadFrom;
    CodeFits(len, i);
    NatOfBits(CodeOf(len, i), len[i]);
    ReadsCode(len, i, 0, 0, ToBits(CodeOf(len, i), len[i]), rest);
  }

  lemma PlaceRank(len: seq<Byte>, n: Byte, k: nat)
    requires k < Count(len, n)
    ensures var i := Places(len, n)[k]; i < |len| && len[i] == n && CodeOf(len, i) == First(len, n) + k
  {
    hide Places;
    PlacesInPrefix(len, Places(len, n)[k], n);
  }

  lemma NextFirst(len: seq<Byte>, n: Byte)
    ensures First(len, n as int + 1) == 2 * (First(len, n) + Count(len, n))
  {
  }

  /** A symbol is only ever read from its own code. */
  lemma {:induction false} ReadMeansWritten(len: seq<Byte>, n: nat, v: nat, bits: seq<bool>) returns (t: seq<bool>)
    requires n <= 255 && First(len, n) <= v && ReadFrom(len, n, v, bits).Done?
    ensures ReadFrom(len, n, v, bits).value < |len|
    ensures var Done(i, rest) := ReadFrom(len, n, v, bits);
            bits == t + rest && n + |t| == len[i] && v * Pow2(|t|) + ToNat(t) == CodeOf(len, i)
    decreases |bits|
  {
    hide Places, ToNat, Pow2, First, Count;
    if v < First(len, n) + Count(len, n) {
      t := [];
      Unit();
      PlaceRank(len, n, v - First(len, n));
    } else {
      var d := bits[0];
      NextFirst(len, n);
      var u := ReadMeansWritten(len, n + 1, 2 * v + (if d then 1 else 0), bits[1..]);
      t := [d] + u;
      assert t[1..] == u;
      NextBit(v, t);
    }
  }
}
