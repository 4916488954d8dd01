/** The seed of the idle task: a shift register of 16 bits, and how long its low bit can stay the same. */
module RichardsSeed {

  // ----- The seed -----

  /** Bit i of the seed, the lowest first. */
  function SeedBit(v: bv16, i: nat): bool
    decreases i
  {
    if i == 0 then v & 1 == 1 else SeedBit(v >> 1, i - 1)
  }

  /** The places at which a low bit that is shifted out comes in again. */
  predicate Tap(i: nat) {
    i == 3 || i == 12 || i == 14 || i == 15
  }

  /** Every bit comes from the place above it, and is turned over at a tap if the low bit was set. */
  ghost predicate Shifted(v: bv16, v': bv16) {
    forall i: nat :: i < 16 ==> SeedBit(v', i) == ((i < 15 && SeedBit(v, i + 1)) != (Tap(i) && SeedBit(v, 0)))
  }

  function NextSeed(v: bv16): bv16 {
    if v & 1 == 0 then (v >> 1) & 0x7FFF else ((v >> 1) & 0x7FFF) ^ 0xD008
  }

  lemma {:induction false} BitOfXor(v: bv16, w: bv16, i: nat)
    ensures SeedBit(v ^ w, i) == (SeedBit(v, i) != SeedBit(w, i))
    decreases i
  {
    hide SeedBit;
    if i > 0 {
      BitOfXor(v >> 1, w >> 1, i - 1);
      NextOfXor(v, w, i);
    } else {
      FirstOfXor(v, w);
    }
  }

  lemma FirstOfXor(v: bv16, w: bv16)
    ensures SeedBit(v ^ w, 0) == (SeedBit(v, 0) != SeedBit(w, 0))
  {
    hide SeedBit;
    LowBit(v);
    LowBit(w);
    LowBit(v ^ w);
    LowOfXor(v, w);
  }

  lemma NextOfXor(v: bv16, w: bv16, i: nat)
    requires i > 0 && SeedBit((v >> 1) ^ (w >> 1), i - 1) == (SeedBit(v >> 1, i - 1) != SeedBit(w >> 1, i - 1))
    ensures SeedBit(v ^ w, i) == (SeedBit(v, i) != SeedBit(w, i))
  {
    hide SeedBit;
    ShiftedXor(v, w);
    OnePlace(v, i - 1);
    OnePlace(w, i - 1);
    OnePlace(v ^ w, i - 1);
  }

  lemma LowBit(v: bv16)
    ensures SeedBit(v, 0) == (v & 1 == 1)
  {
  }

  lemma ShiftedXor(v: bv16, w: bv16)
    ensures (v ^ w) >> 1 == (v >> 1) ^ (w >> 1)
  {
  }

  lemma LowOfXor(v: bv16, w: bv16)
    ensures ((v ^ w) & 1 == 1) == ((v & 1 == 1) != (w & 1 == 1))
  {
  }

  lemma FourPlaces(v: bv16, i: nat)
    ensures SeedBit(v, i + 4) == SeedBit(v >> 4, i)
  {
    assert v >> 1 >> 1 >> 1 >> 1 == v >> 4;
    hide SeedBit;
    OnePlace(v, i + 3);
    OnePlace(v >> 1, i + 2);
    OnePlace(v >> 1 >> 1, i + 1);
    OnePlace(v >> 1 >> 1 >> 1, i);
  }

  lemma OnePlace(v: bv16, i: nat)
    ensures SeedBit(v, i + 1) == SeedBit(v >> 1, i)
  {
  }

  lemma NoBit16(v: bv16)
    ensures !SeedBit(v, 16)
  {
    assert v >> 4 >> 4 >> 4 >> 4 == 0;
    FourPlaces(v, 12);
    FourPlaces(v >> 4, 8);
    FourPlaces(v >> 4 >> 4, 4);
    FourPlaces(v >> 4 >> 4 >> 4, 0);
  }

  lemma TapBits(i: nat)
    requires i < 16
    ensures SeedBit(0xD008, i) == Tap(i)
  {
    hide SeedBit;
    TapPart(0xD008, i % 4);
    TapPart(0xD00, i % 4);
    TapPart(0xD0, i % 4);
    TapPart(0xD, i % 4);
    if i >= 4 { FourPlaces(0xD008, i - 4); }
    if i >= 8 { FourPlaces(0xD00, i - 8); }
    if i >= 12 { FourPlaces(0xD0, i - 12); }
  }

  lemma TapPart(v: bv16, i: nat)
    requires i < 4
    ensures SeedBit(v, i) == (if i == 0 then v & 1 == 1 else if i == 1 then v & 2 == 2 else if i == 2 then v & 4 == 4 else v & 8 == 8)
  {
    hide SeedBit;
    PlaceMasks(v);
    LowBit(v);
    LowBit(v >> 1);
    LowBit(v >> 1 >> 1);
    LowBit(v >> 1 >> 1 >> 1);
    if i == 1 { OnePlace(v, 0); }
    if i == 2 { OnePlace(v, 1); OnePlace(v >> 1, 0); }
    if i == 3 { OnePlace(v, 2); OnePlace(v >> 1, 1); OnePlace(v >> 1 >> 1, 0); }
  }

  lemma PlaceMasks(v: bv16)
    ensures (v >> 1) & 1 == 1 <==> v & 2 == 2
    ensures (v >> 1 >> 1) & 1 == 1 <==> v & 4 == 4
    ensures (v >> 1 >> 1 >> 1) & 1 == 1 <==> v & 8 == 8
  {
  }

  lemma NextIs(v: bv16)
    ensures NextSeed(v) == if v & 1 == 1 then (v >> 1) ^ 0xD008 else v >> 1
  {
  }

  /** The seed is a shift register with feedback. */
  lemma NextIsShifted(v: bv16)
    ensures Shifted(v, NextSeed(v))
  {
    hide NextSeed, Tap;
    NextIs(v);
    NoBit16(v);
    assert SeedBit(v, 0) == (v & 1 == 1);
    forall i: nat | i < 16 ensures SeedBit(NextSeed(v), i) == ((i < 15 && SeedBit(v, i + 1)) != (Tap(i) && SeedBit(v, 0))) {
      OnePlace(v, i);
      TapBits(i);
      BitOfXor(v >> 1, 0xD008, i);
    }
  }

  lemma SeedStays(v: bv16)
    requires v != 0
    ensures NextSeed(v) != 0
  {
  }

  function SeedAfter(v: bv16, n: nat): bv16
    decreases n
  {
    if n == 0 then v else SeedAfter(NextSeed(v), n - 1)
  }

  lemma {:induction false} SeedLater(v: bv16, m: nat, n: nat)
    ensures SeedAfter(v, m + n) == SeedAfter(SeedAfter(v, m), n)
    decreases m
  {
    if m > 0 { SeedLater(NextSeed(v), m - 1, n); }
  }

  lemma {:induction false} SeedStaysAfter(v: bv16, n: nat)
    requires v != 0
    ensures SeedAfter(v, n) != 0
    decreases n
  {
    hide NextSeed;
    if n > 0 {
      SeedStays(v);
      SeedStaysAfter(NextSeed(v), n - 1);
    }
  }

  lemma FourNext(v: bv16)
    ensures var v1 := NextSeed(v); var v2 := NextSeed(v1); var v3 := NextSeed(v2);
            && (v & 1 == 1 && v1 & 1 == 1 && v2 & 1 == 1 && v3 & 1 == 1 ==> NextSeed(v3) == (v >> 4) ^ 0x960F)
            && (v & 1 == 0 && v1 & 1 == 0 && v2 & 1 == 0 && v3 & 1 == 0 ==> NextSeed(v3) == v >> 4)
  {
  }

  lemma AfterFour(v: bv16)
    ensures SeedAfter(v, 0) == v && SeedAfter(v, 1) == NextSeed(v) && SeedAfter(v, 2) == NextSeed(NextSeed(v))
    ensures SeedAfter(v, 3) == NextSeed(NextSeed(NextSeed(v))) && SeedAfter(v, 4) == NextSeed(NextSeed(NextSeed(NextSeed(v))))
  {
    hide NextSeed;
    SeedLater(v, 1, 1);
    SeedLater(v, 2, 1);
    SeedLater(v, 3, 1);
  }

  /** The low bit is the same in four turns from turn m on. */
  ghost predicate SameLow(v: bv16, m: nat, low: bv16) {
    forall n: nat :: m <= n < m + 4 ==> SeedAfter(v, n) & 1 == low
  }

  /** Four turns with the low bit set, or with the low bit clear. */
  lemma FourTurns(v: bv16, m: nat)
    ensures SameLow(v, m, 1) ==> SeedAfter(v, m + 4) == (SeedAfter(v, m) >> 4) ^ 0x960F
    ensures SameLow(v, m, 0) ==> SeedAfter(v, m + 4) == SeedAfter(v, m) >> 4
  {
    hide NextSeed, SeedAfter;
    var w := SeedAfter(v, m);
    FourNext(w);
    AfterFour(w);
    SeedLater(v, m, 1);
    SeedLater(v, m, 2);
    SeedLater(v, m, 3);
    SeedLater(v, m, 4);
  }

  lemma SixteenSet(v: bv16)
    ensures (((((((v >> 4) ^ 0x960F) >> 4) ^ 0x960F) >> 4) ^ 0x960F) >> 4) ^ 0x960F == 0x9FF0
    ensures (0x9FF0 as bv16) & 1 == 0
  {
  }

  /** The low bit is never set seventeen times in a row. */
  lemma SomeClear(v: bv16)
    ensures exists n: nat :: n <= 16 && SeedAfter(v, n) & 1 == 0
  {
    hide SeedAfter;
    SixteenSet(SeedAfter(v, 0));
    if forall n: nat :: n <= 16 ==> SeedAfter(v, n) & 1 != 0 {
      forall n: nat | n <= 16 ensures SeedAfter(v, n) & 1 == 1 { LowIs(SeedAfter(v, n)); }
      FourTurns(v, 0);
      FourTurns(v, 4);
      FourTurns(v, 8);
      FourTurns(v, 12);
    }
  }

  lemma LowIs(v: bv16)
    ensures v & 1 == 0 || v & 1 == 1
  {
  }

  lemma SixteenClear(v: bv16)
    ensures v >> 4 >> 4 >> 4 >> 4 == 0
  {
  }

  /** Nor is it clear sixteen times in a row, unless the seed is 0. */
  lemma SomeSet(v: bv16)
    requires v != 0
    ensures exists n: nat :: n <= 15 && SeedAfter(v, n) & 1 == 1
  {
    hide SeedAfter;
    SeedStaysAfter(v, 16);
    SixteenClear(SeedAfter(v, 0));
    if forall n: nat :: n <= 15 ==> SeedAfter(v, n) & 1 != 1 {
      forall n: nat | n <= 15 ensures SeedAfter(v, n) & 1 == 0 { LowIs(SeedAfter(v, n)); }
      FourTurns(v, 0);
      FourTurns(v, 4);
      FourTurns(v, 8);
      FourTurns(v, 12);
    }
  }
}
