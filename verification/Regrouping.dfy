/** Cutting a string of bits into groups of another width. */
module Regrouping {
  import opened Powers
  import opened Bits

  /** The digits, w bits each, as one string of bits. */
  function Digits(vals: seq<nat>, w: nat): seq<bool> {
    if vals == [] then [] else ToBits(vals[0], w) + Digits(vals[1..], w)
  }

  /** The groups of w bits as numbers. An incomplete group at the end is dropped. */
  function Groups(bits: seq<bool>, w: nat): (vals: seq<nat>)
    requires w > 0
    ensures forall i :: 0 <= i < |vals| ==> vals[i] < Pow2(w)
  {
    if |bits| < w then [] else [ToNat(bits[..w])] + Groups(bits[w..], w)
  }

  /** The incomplete group. */
  function Left(bits: seq<bool>, w: nat): (left: seq<bool>)
    requires w > 0
    ensures |left| < w
  {
    if |bits| < w then bits else Left(bits[w..], w)
  }

  ghost predicate Fit(vals: seq<nat>, w: nat) {
    forall i :: 0 <= i < |vals| ==> vals[i] < Pow2(w)
  }

  /** Grouping undoes writing digits. */
  lemma {:induction false} GroupsOf(vals: seq<nat>, left: seq<bool>, w: nat)
    requires |left| < w && Fit(vals, w)
    ensures Groups(Digits(vals, w) + left, w) == vals && Left(Digits(vals, w) + left, w) == left
  {
    hide ToBits, ToNat;
    if vals == [] {
      assert Digits(vals, w) + left == left;
    } else {
      GroupsOf(vals[1..], left, w);
      var first, bits := ToBits(vals[0], w), Digits(vals, w) + left;
      assert bits == first + (Digits(vals[1..], w) + left);
      assert bits[..w] == first && bits[w..] == Digits(vals[1..], w) + left;
      NatOfBits(vals[0], w);
    }
  }

  /** Writing the groups as digits gives the bits back. */
  lemma {:induction false} DigitsOfGroups(bits: seq<bool>, w: nat)
    requires w > 0
    ensures Digits(Groups(bits, w), w) + Left(bits, w) == bits
  {
    hide ToBits, ToNat;
    if |bits| < w {
      assert Digits([], w) + bits == bits;
    } else {
      var first, others := bits[..w], bits[w..];
      DigitsOfGroups(others, w);
      BitsOfNat(first);
      DigitsCons(ToNat(first), Groups(others, w), w);
      Reassociate(first, Digits(Groups(others, w), w), Left(others, w));
      assert bits == first + others;
    }
  }

  lemma DigitsCons(v: nat, vals: seq<nat>, w: nat)
    ensures Digits([v] + vals, w) == ToBits(v, w) + Digits(vals, w)
  {
    hide ToBits;
    assert ([v] + vals)[1..] == vals;
  }

  lemma Reassociate(a: seq<bool>, b: seq<bool>, c: seq<bool>)
    ensures (a + b) + c == a + (b + c)
  {
  }

  lemma {:induction false} DigitsAppend(vals: seq<nat>, v: nat, w: nat)
    ensures Digits(vals + [v], w) == Digits(vals, w) + ToBits(v, w)
  {
    hide ToBits;
    if vals == [] {
      assert [v][1..] == [];
      assert Digits([v], w) == ToBits(v, w) + [];
    } else {
      assert (vals + [v])[1..] == vals[1..] + [v];
      DigitsAppend(vals[1..], v, w);
    }
  }

  lemma {:induction false} DigitsLength(vals: seq<nat>, w: nat)
    ensures |Digits(vals, w)| == |vals| * w
  {
    if vals != [] {
      DigitsLength(vals[1..], w);
      assert |vals| * w == (|vals| - 1) * w + w;
    }
  }

  // ----- A number that holds bits in its low end, whatever stands above them -----

  ghost predicate Holds(acc: nat, bits: seq<bool>) {
    acc % Pow2(|bits|) == ToNat(bits)
  }

  const WORD: nat := 0x1_0000_0000

  /** Shifting a word to the left and adding new bits loses only what stands above. */
  lemma HoldsMore(acc: nat, bits: seq<bool>, v: nat, w: nat)
    requires Holds(acc, bits) && |bits| + w <= 32 && v < Pow2(w)
    ensures Holds((acc * Pow2(w) + v) % WORD, bits + ToBits(v, w))
  {
    hide Pow2, ToNat, ToBits;
    var p, q, r := Pow2(|bits|), Pow2(w), Pow2(32 - |bits| - w);
    Pow2Values();
    Pow2Sum(|bits|, w);
    Pow2Sum(|bits| + w, 32 - |bits| - w);
    ModMod(acc * q + v, p * q, r);
    PushModulo(acc, p, q, v);
    NatOfConcat(bits, ToBits(v, w));
    NatOfBits(v, w);
  }

  /** Shifting to the right and masking takes bits out. */
  lemma HoldsParts(acc: nat, x: seq<bool>, y: seq<bool>)
    requires Holds(acc, x + y)
    ensures acc / Pow2(|y|) % Pow2(|x|) == ToNat(x) && Holds(acc, y)
  {
    hide Pow2, ToNat;
    Pow2Sum(|x|, |y|);
    NatOfConcat(x, y);
    SplitModulo(acc, Pow2(|x|), Pow2(|y|), ToNat(x), ToNat(y));
  }

  lemma AddMultiple(a: int, p: nat, k: int)
    requires p > 0
    ensures (a + p * k) % p == a % p && (a + p * k) / p == a / p + k
  {
    var q := a / p;
    assert a + p * k == p * (q + k) + a % p by { assert p * (q + k) == p * q + p * k; }
    DivisionIs(a + p * k, p, q + k, a % p);
  }

  lemma DivisionIs(a: int, p: nat, q: int, r: nat)
    requires p > 0 && a == p * q + r && r < p
    ensures a / p == q && a % p == r
  {
    var q', r' := a / p, a % p;
    assert p * (q - q') == r' - r by { assert p * (q - q') == p * q - p * q'; }
    MultipleGrows(p, q - q');
  }

  lemma MultipleGrows(p: int, d: int)
    requires p > 0
    ensures d >= 1 ==> p * d >= p
    ensures d <= -1 ==> p * d <= -p
  {
  }

  lemma ModMod(a: nat, p: nat, r: nat)
    requires p > 0 && r > 0
    ensures p * r > 0 && a % (p * r) % p == a % p
  {
    var k := a / (p * r);
    assert a == (p * r) * k + a % (p * r);
    assert (p * r) * k == p * (r * k);
    AddMultiple(a % (p * r), p, r * k);
  }

  lemma PushModulo(acc: nat, p: nat, q: nat, v: nat)
    requires p > 0 && v < q
    ensures p * q > 0 && (acc * q + v) % (p * q) == acc % p * q + v
  {
    var k, m := acc / p, acc % p;
    assert acc * q == (p * q) * k + m * q by { assert acc == p * k + m; assert (p * k + m) * q == p * k * q + m * q; }
    assert m * q + v < p * q by { assert (m + 1) * q <= p * q; }
    DivisionIs(acc * q + v, p * q, k, m * q + v);
  }

  lemma SplitModulo(acc: nat, q: nat, p: nat, x: nat, y: nat)
    requires p > 0 && x < q && y < p && q * p > 0 && acc % (q * p) == x * p + y
    ensures acc / p % q == x && acc % p == y
  {
    var k := acc / (q * p);
    assert acc == p * (q * k + x) + y by {
      assert acc == (q * p) * k + x * p + y;
      assert (q * p) * k == p * (q * k);
      assert p * (q * k + x) == p * (q * k) + p * x;
    }
    DivisionIs(acc, p, q * k + x, y);
    AddMultiple(x, q, k);
    DivisionIs(x, q, 0, x);
  }
}
