/** Numbers as strings of bits, the most significant bit first, and 32-bit words as such strings. */
module Bits {
  import opened Powers
  import opened Sequences

  /** The low n bits of v. */
  function ToBits(v: nat, n: nat): (s: seq<bool>)
    ensures |s| == n
  {
    if n == 0 then [] else ToBits(v / 2, n - 1) + [v % 2 == 1]
  }

  function ToNat(s: seq<bool>): (v: nat)
    ensures v < Pow2(|s|)
  {
    if s == [] then 0 else 2 * ToNat(s[..|s| - 1]) + if s[|s| - 1] then 1 else 0
  }

  lemma {:induction false} NatOfBits(v: nat, n: nat)
    requires v < Pow2(n)
    ensures ToNat(ToBits(v, n)) == v
    decreases n
  {
    if n > 0 {
      NatOfBits(v / 2, n - 1);
      assert ToBits(v, n)[..n - 1] == ToBits(v / 2, n - 1);
    }
  }

  lemma {:induction false} BitsOfNat(s: seq<bool>)
    ensures ToBits(ToNat(s), |s|) == s
  {
    if s != [] { BitsOfNat(s[..|s| - 1]); }
  }

  lemma {:induction false} NatOfConcat(s: seq<bool>, t: seq<bool>)
    ensures ToNat(s + t) == ToNat(s) * Pow2(|t|) + ToNat(t)
    decreases |t|
  {
    hide ToNat, Pow2;
    if t == [] {
      assert s + t == s;
      Unit();
    } else {
      var t', b := t[..|t| - 1], t[|t| - 1];
      NatOfConcat(s, t');
      NatOfAppend(s + t', b);
      NatOfAppend(t', b);
      assert (s + t') + [b] == s + t && t' + [b] == t;
      Twice(ToNat(s), Pow2(|t'|));
      Double(|t'|);
    }
  }

  lemma Unit()
    ensures ToNat([]) == 0 && Pow2(0) == 1
  {
  }

  lemma Double(n: nat)
    ensures Pow2(n + 1) == 2 * Pow2(n)
  {
  }

  lemma NatOfAppend(s: seq<bool>, b: bool)
    ensures ToNat(s + [b]) == 2 * ToNat(s) + if b then 1 else 0
  {
    assert (s + [b])[..|s|] == s;
  }

  lemma Twice(x: int, p: int)
    ensures x * (2 * p) == 2 * (x * p)
  {
  }

  /** A sum as it is held in 32 bits with a sign. */
  function Int32(x: int): (y: int)
    ensures -0x8000_0000 <= y < 0x8000_0000
    ensures y == x <==> -0x8000_0000 <= x < 0x8000_0000
  {
    var m := x % 0x1_0000_0000;
    if m >= 0x8000_0000 then m - 0x1_0000_0000 else m
  }

  /** Wrapping the terms of a sum first makes no difference. */
  lemma Int32Sum(x: int, y: int)
    ensures Int32(Int32(x) + Int32(y)) == Int32(x + y)
  {
    hide Int32;
    var i := Turns(x);
    var j := Turns(y);
    SameAfterTurns(x + y, i + j);
  }

  lemma Turns(x: int) returns (k: int)
    ensures Int32(x) == x - 0x1_0000_0000 * k
  {
    k := (x - Int32(x)) / 0x1_0000_0000;
  }

  lemma SameAfterTurns(x: int, k: int)
    ensures Int32(x - 0x1_0000_0000 * k) == Int32(x)
  {
  }

  function Zeros(n: nat): (s: seq<bool>)
    ensures |s| == n
  {
    seq(n, _ => false)
  }

  lemma {:induction false} BitsOfZero(n: nat)
    ensures ToBits(0, n) == Zeros(n)
  {
    if n > 0 { BitsOfZero(n - 1); }
  }

  /** Writing a small number with more bits puts zeros in front. */
  lemma {:induction false} WiderBits(v: nat, n: nat, k: nat)
    requires v < Pow2(n)
    ensures ToBits(v, k + n) == Zeros(k) + ToBits(v, n)
    decreases n
  {
    if n == 0 {
      BitsOfZero(k);
      assert Zeros(k) + [] == Zeros(k);
    } else {
      WiderBits(v / 2, n - 1, k);
    }
  }

  const ZERO: Word := Zeros(32)

  function Shl(w: Word, n: nat): (r: Word)
    requires n <= 32
  {
    w[n..] + Zeros(n)
  }

  function Shr(w: Word, n: nat): (r: Word)
    requires n <= 32
  {
    Zeros(n) + w[..32 - n]
  }

  function Or(w: Word, u: Word): (r: Word) {
    seq(32, k requires 0 <= k < 32 => w[k] || u[k])
  }

  /** The bitwise or of two numbers of 32 bits. */
  function OrOf(x: nat, y: nat): nat {
    ToNat(Or(ToBits(x, 32), ToBits(y, 32)))
  }

  /** A byte or-ed to a number whose low byte is clear, from either side, is added to it. */
  lemma OrIsSum(a: nat, b: Byte)
    requires a < 0x100_0000
    ensures OrOf(256 * a, b) == 256 * a + b == OrOf(b, 256 * a)
  {
    hide ToBits, ToNat, Pow2;
    Pow2Values();
    ClearByte(a, 24);
    WiderBits(b, 8, 24);
    var hi, lo := ToBits(a, 24), ToBits(b, 8);
    assert Or(hi + Zeros(8), Zeros(24) + lo) == hi + lo == Or(Zeros(24) + lo, hi + Zeros(8));
    NatOfConcat(hi, lo);
    NatOfBits(a, 24);
    NatOfBits(b, 8);
  }

  /** A number shifted by a byte. */
  lemma ClearByte(a: nat, n: nat)
    ensures ToBits(256 * a, n + 8) == ToBits(a, n) + Zeros(8)
  {
    hide ToBits;
    ShiftedBits(a, n, 8);
    assert Pow2(8) == 256;
  }

  lemma {:induction false} ShiftedBits(a: nat, n: nat, k: nat)
    ensures ToBits(a * Pow2(k), n + k) == ToBits(a, n) + Zeros(k)
    decreases k
  {
    hide Pow2;
    if k == 0 {
      Unit();
      assert ToBits(a, n) + Zeros(0) == ToBits(a, n);
    } else {
      ShiftedBits(a, n, k - 1);
      Double(k - 1);
      Twice(a, Pow2(k - 1));
      EvenBits(a * Pow2(k - 1), n + k);
      assert Zeros(k) == Zeros(k - 1) + [false];
    }
  }

  lemma EvenBits(v: nat, n: nat)
    requires n > 0
    ensures ToBits(2 * v, n) == ToBits(v, n - 1) + [false]
  {
  }

  function And(w: Word, u: Word): (r: Word) {
    seq(32, k requires 0 <= k < 32 => w[k] && u[k])
  }

  function Xor(w: Word, u: Word): (r: Word) {
    seq(32, k requires 0 <= k < 32 => w[k] != u[k])
  }

  function Not(w: Word): (r: Word) {
    seq(32, k requires 0 <= k < 32 => !w[k])
  }

  /** The word (1 << n) - 1. */
  function Mask(n: nat): (r: Word)
    requires n <= 32
  {
    Zeros(32 - n) + seq(n, _ => true)
  }

  /** The low byte, as in a cast to UChar. */
  function LowByte(w: Word): (b: Byte) {
    assert Pow2(8) == 256;
    ToNat(w[24..])
  }

  function BytesToBits(s: seq<Byte>): (bits: seq<bool>)
    ensures |bits| == 8 * |s|
  {
    if s == [] then [] else BytesToBits(s[..|s| - 1]) + ToBits(s[|s| - 1], 8)
  }

  lemma {:induction false} BytesConcat(s: seq<Byte>, t: seq<Byte>)
    ensures BytesToBits(s + t) == BytesToBits(s) + BytesToBits(t)
    decreases |t|
  {
    if t == [] {
      assert s + t == s;
    } else {
      var t' := t[..|t| - 1];
      assert (s + t)[..|s + t| - 1] == s + t';
      BytesConcat(s, t');
    }
  }

  /** Shifting n bits to follow the live ones and or-ing them in appends them. */
  lemma OrAppends(w: Word, live: nat, v: nat, n: nat)
    requires live + n <= 32 && v < Pow2(n) && forall k :: live <= k < 32 ==> !w[k]
    ensures var r := Or(w, Shl(ToBits(v, 32), 32 - live - n));
            && r[..live + n] == w[..live] + ToBits(v, n)
            && forall k :: live + n <= k < 32 ==> !r[k]
  {
    hide ToBits;
    WiderBits(v, n, 32 - n);
    var s := 32 - live - n;
    assert Shl(ToBits(v, 32), s) == Zeros(live) + ToBits(v, n) + Zeros(s);
  }
}
