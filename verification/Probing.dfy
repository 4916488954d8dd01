/** Double hashing: the odd step of doubleHash visits every slot of a table whose size is a power of two.
    Also roundUpToPowerOfTwo. */
module Probing {
  import opened Powers
  import opened Sequences
  import opened Bits

  // ----- Arithmetic modulo the size -----

  lemma ModUnique(x: int, m: int, q: int, r: int)
    requires 0 <= r < m && x == q * m + r
    ensures x % m == r
  {
    var q', r' := x / m, x % m;
    assert q' * m + r' == q * m + r;
    if q' < q { Gap(q', q, m); }
    if q < q' { Gap(q, q', m); }
  }

  lemma Gap(a: int, b: int, m: int)
    requires a < b && m > 0
    ensures b * m - a * m >= m
  {
    var d := b - a - 1;
    assert b == a + 1 + d;
    Distribute3(a, d, m);
    NotNegative(d, m);
  }

  lemma Distribute3(a: int, d: int, m: int)
    ensures (a + 1 + d) * m == a * m + m + d * m
  {
  }

  lemma NotNegative(d: int, m: int)
    requires d >= 0 && m >= 0
    ensures d * m >= 0
  {
  }

  lemma SameMod(x: int, y: int, m: int)
    requires m > 0 && x % m == y % m
    ensures (y - x) % m == 0
  {
    var a, b := x / m, y / m;
    assert y - x == (b - a) * m + 0;
    ModUnique(y - x, m, b - a, 0);
  }

  lemma ModAdd(x: int, k: int, m: int)
    requires m > 0
    ensures (x % m + k) % m == (x + k) % m
  {
    var q, r := x / m, x % m;
    var q', r' := (r + k) / m, (r + k) % m;
    assert x + k == (q + q') * m + r';
    ModUnique(x + k, m, q + q', r');
  }

  lemma OddTimesOdd(d: nat, k: nat)
    requires d % 2 == 1 && k % 2 == 1
    ensures (d * k) % 2 == 1
  {
    var e, c := d / 2, k / 2;
    assert d == 2 * e + 1 && k == 2 * c + 1;
    OddProduct(e, c);
    OddIs(d * k, 2 * (e * c) + e + c);
  }

  lemma OddIs(n: int, x: int)
    requires n == 2 * x + 1
    ensures n % 2 == 1
  {
  }

  lemma OddProduct(e: nat, c: nat)
    ensures (2 * e + 1) * (2 * c + 1) == 2 * (2 * (e * c) + e + c) + 1
  {
  }

  lemma EvenFactor(d: nat, k: nat)
    requires k % 2 == 1 && (d * k) % 2 == 0
    ensures d % 2 == 0
  {
    if d % 2 == 1 { OddTimesOdd(d, k); }
  }

  lemma Divides(x: int, m: int) returns (q: int)
    requires m > 0 && x % m == 0
    ensures x == q * m
  {
    q := x / m;
  }

  lemma HalveMod(x: int, p: int)
    requires p > 0 && (2 * x) % (2 * p) == 0
    ensures x % p == 0
  {
    var q := Divides(2 * x, 2 * p);
    Twice(q, p);
    ModUnique(x, p, q, 0);
  }

  lemma MultipleIsEven(x: int, p: int)
    requires p > 0 && x % (2 * p) == 0
    ensures x % 2 == 0
  {
    var q := Divides(x, 2 * p);
    Twice(q, p);
  }

  /** An odd factor does not help a product to be a multiple of a power of two. */
  lemma {:induction false} OddCancels(e: nat, d: nat, k: nat)
    requires k % 2 == 1 && (d * k) % Pow2(e) == 0
    ensures d % Pow2(e) == 0
    decreases e
  {
    if e > 0 {
      MultipleIsEven(d * k, Pow2(e - 1));
      EvenFactor(d, k);
      var c := d / 2;
      Double3(c, k);
      HalveMod(c * k, Pow2(e - 1));
      OddCancels(e - 1, c, k);
      var q := Divides(c, Pow2(e - 1));
      Twice(q, Pow2(e - 1));
      ModUnique(d, Pow2(e), q, 0);
    }
  }

  lemma Double3(c: int, k: int)
    ensures 2 * c * k == 2 * (c * k)
  {
  }

  // ----- Probes -----

  /** The slot that probe number j looks at: h is the hash and k the step. */
  function Probe(h: nat, k: nat, j: nat, size: nat): (i: nat)
    requires size > 0
    ensures i < size
  {
    (h + j * k) % size
  }

  lemma NextProbe(h: nat, k: nat, j: nat, size: nat)
    requires size > 0
    ensures Probe(h, k, j + 1, size) == (Probe(h, k, j, size) + k) % size
  {
    ModAdd(h + j * k, k, size);
    assert h + (j + 1) * k == h + j * k + k;
  }

  lemma FirstProbe(h: nat, k: nat, size: nat)
    requires size > 0
    ensures Probe(h, k, 0, size) == h % size
  {
  }

  lemma ProbesDiffer(e: nat, h: nat, k: nat, a: nat, b: nat)
    requires k % 2 == 1 && a < b < Pow2(e)
    ensures Probe(h, k, a, Pow2(e)) != Probe(h, k, b, Pow2(e))
  {
    if Probe(h, k, a, Pow2(e)) == Probe(h, k, b, Pow2(e)) {
      SameMod(h + a * k, h + b * k, Pow2(e));
      assert h + b * k - (h + a * k) == (b - a) * k by { Distribute(a, b, k); }
      OddCancels(e, b - a, k);
      SmallMod(b - a, Pow2(e));
    }
  }

  lemma Distribute(a: int, b: int, k: int)
    ensures b * k - a * k == (b - a) * k
  {
  }

  lemma SmallMod(x: nat, m: nat)
    requires 0 < x < m
    ensures x % m != 0
  {
    ModUnique(x, m, 0, x);
  }

  function Probes(h: nat, k: nat, size: nat): (s: seq<nat>)
    requires size > 0
    ensures |s| == size
  {
    seq(size, j requires 0 <= j < size => Probe(h, k, j, size))
  }

  /** Every slot is probed, after fewer steps than there are slots. */
  lemma ProbesCover(e: nat, h: nat, k: nat, slot: nat) returns (j: nat)
    requires k % 2 == 1 && slot < Pow2(e)
    ensures j < Pow2(e) && Probe(h, k, j, Pow2(e)) == slot
  {
    hide Probe, Pow2;
    var s := Probes(h, k, Pow2(e));
    forall a, b | 0 <= a < b < |s| ensures s[a] != s[b] {
      ProbesDiffer(e, h, k, a, b);
    }
    PermutationCovers(s, slot);
    j :| 0 <= j < |s| && s[j] == slot;
  }

  // ----- The step -----

  /** Addition of 32-bit words. */
  function Add(w: Word, u: Word): (r: Word) {
    ToBits(ToNat(w) + ToNat(u), 32)
  }

  function DoubleHash(key: Word): Word {
    var k1 := Add(Not(key), Shr(key, 23));
    var k2 := Xor(k1, Shl(k1, 12));
    var k3 := Xor(k2, Shr(k2, 7));
    var k4 := Xor(k3, Shl(k3, 2));
    Xor(k4, Shr(k4, 20))
  }

  /** 1 | doubleHash(h). */
  function Stride(h: Word): (k: nat)
    ensures k % 2 == 1
  {
    var w := Or(ToBits(1, 32), DoubleHash(h));
    LastBitOfOne();
    assert w[31];
    ToNat(w)
  }

  lemma LastBitOfOne()
    ensures ToBits(1, 32)[31]
  {
    assert ToBits(1, 32) == ToBits(0, 31) + [true];
  }

  // ----- Rounding up -----

  /** Some bit of w from k - n + 1 to k is set. */
  ghost predicate SetWithin(w: Word, k: nat, n: nat)
    requires k < 32
  {
    exists j :: 0 <= j <= k && k < j + n && w[j]
  }

  /** Or-ing a word with itself shifted makes every bit look twice as far back. */
  lemma SmearOnce(w: Word, v: Word, n: nat)
    requires 1 <= n <= 16 && forall k :: 0 <= k < 32 ==> (v[k] <==> SetWithin(w, k, n))
    ensures forall k :: 0 <= k < 32 ==> (Or(v, Shr(v, n))[k] <==> SetWithin(w, k, 2 * n))
  {
    forall k | 0 <= k < 32 ensures Or(v, Shr(v, n))[k] <==> SetWithin(w, k, 2 * n) {
      assert Shr(v, n)[k] == (k >= n && v[k - n]);
      if SetWithin(w, k, 2 * n) {
        var j :| 0 <= j <= k && k < j + 2 * n && w[j];
        if k < j + n { assert SetWithin(w, k, n); } else { assert SetWithin(w, k - n, n); }
      }
      if v[k] {
        var j :| 0 <= j <= k && k < j + n && w[j];
        assert SetWithin(w, k, 2 * n);
      }
      if k >= n && v[k - n] {
        var j :| 0 <= j <= k - n && k - n < j + n && w[j];
        assert SetWithin(w, k, 2 * n);
      }
    }
  }

  function Smear(w: Word): Word {
    var w1 := Or(w, Shr(w, 1));
    var w2 := Or(w1, Shr(w1, 2));
    var w3 := Or(w2, Shr(w2, 4));
    var w4 := Or(w3, Shr(w3, 8));
    Or(w4, Shr(w4, 16))
  }

  lemma SmearIs(w: Word)
    ensures forall k :: 0 <= k < 32 ==> (Smear(w)[k] <==> SetWithin(w, k, 32))
  {
    hide Or, Shr, SetWithin;
    forall k | 0 <= k < 32 ensures w[k] <==> SetWithin(w, k, 1) {
      SetWithinOne(w, k);
    }
    var w1 := Or(w, Shr(w, 1));
    SmearOnce(w, w, 1);
    var w2 := Or(w1, Shr(w1, 2));
    SmearOnce(w, w1, 2);
    var w3 := Or(w2, Shr(w2, 4));
    SmearOnce(w, w2, 4);
    var w4 := Or(w3, Shr(w3, 8));
    SmearOnce(w, w3, 8);
    SmearOnce(w, w4, 16);
  }

  lemma SetWithinOne(w: Word, k: nat)
    requires k < 32
    ensures w[k] <==> SetWithin(w, k, 1)
  {
  }

  lemma {:induction false} AllOnes(n: nat)
    ensures ToNat(seq(n, _ => true)) == Pow2(n) - 1
  {
    if n > 0 {
      AllOnes(n - 1);
      assert seq(n, _ => true)[..n - 1] == seq(n - 1, _ => true);
    }
  }

  const M32: nat := 0x1_0000_0000

  /** v--, the smearing, and v++, all in 32 bits. */
  function RoundUpToPowerOfTwo(v: nat): nat
    requires v < M32
  {
    (ToNat(Smear(ToBits((v + M32 - 1) % M32, 32))) + 1) % M32
  }

  /** The number of leading zeros of a word. */
  function LeadingZeros(w: Word, k: nat): (z: nat)
    requires k <= 32
    ensures k <= z <= 32 && (forall j :: k <= j < z ==> !w[j]) && (z < 32 ==> w[z])
    decreases 32 - k
  {
    if k == 32 || w[k] then k else LeadingZeros(w, k + 1)
  }

  lemma {:induction false} FirstBitDecides(s: seq<bool>, z: nat)
    requires z < |s| && s[z] && forall j :: 0 <= j < z ==> !s[j]
    ensures Pow2(|s| - z - 1) <= ToNat(s) < Pow2(|s| - z)
    decreases |s|
  {
    var n := |s| - 1;
    if z < n {
      FirstBitDecides(s[..n], z);
    } else {
      NoBitsSet(s[..n]);
    }
  }

  lemma {:induction false} NoBitsSet(s: seq<bool>)
    requires forall j :: 0 <= j < |s| ==> !s[j]
    ensures ToNat(s) == 0
  {
    if s != [] { NoBitsSet(s[..|s| - 1]); }
  }

  /** Smearing fills up all bits from the first one set on. */
  lemma SmearFills(w: Word) returns (z: nat)
    ensures z <= 32 && ToNat(Smear(w)) == Pow2(32 - z) - 1
    ensures if z < 32 then Pow2(31 - z) <= ToNat(w) < Pow2(32 - z) else ToNat(w) == 0
  {
    hide ToNat, Pow2, Smear;
    SmearIs(w);
    z := LeadingZeros(w, 0);
    forall k | 0 <= k < 32 ensures Smear(w)[k] == (k >= z) {
      if k >= z { assert w[z]; }
    }
    assert Smear(w) == Zeros(z) + seq(32 - z, _ => true);
    NatOfConcat(Zeros(z), seq(32 - z, _ => true));
    NoBitsSet(Zeros(z));
    AllOnes(32 - z);
    if z < 32 { FirstBitDecides(w, z); } else { NoBitsSet(w); }
  }

  /** The result is the least power of two that is not below v, if there is one in 32 bits, and else 0. */
  lemma RoundsUp(v: nat) returns (e: nat)
    requires v < M32
    ensures 1 <= v <= 0x8000_0000 ==> e <= 31 && RoundUpToPowerOfTwo(v) == Pow2(e) && v <= Pow2(e) && (e > 0 ==> Pow2(e - 1) < v)
    ensures v == 0 || v > 0x8000_0000 ==> RoundUpToPowerOfTwo(v) == 0
  {
    hide ToNat, ToBits, Pow2, Smear;
    Pow2Values();
    Double(31);
    Unit();
    var m := (v + M32 - 1) % M32;
    NatOfBits(m, 32);
    var z := SmearFills(ToBits(m, 32));
    e := 32 - z;
    if e < 32 { Pow2Grows(e, 31); }
  }
}
