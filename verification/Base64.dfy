/** bin2base64 and base642bin, with their accumulator of 32 bits that wraps around. */
module Base64 {
  import opened Powers
  import opened Sequences
  import opened Bits
  import opened Regrouping
  import opened Base64Letters
  import opened Base64Codec

  const VARIANT_NO_PADDING_MASK: bv32 := 2
  const VARIANT_URLSAFE_MASK: bv32 := 4

  /** base64_check_variant: anything else makes the source loop for ever. */
  predicate IsVariant(variant: bv32) {
    variant & 0xFFFF_FFF9 == 1
  }

  function VariantOf(variant: bv32): Variant {
    Variant(variant & VARIANT_URLSAFE_MASK != 0, variant & VARIANT_NO_PADDING_MASK == 0)
  }

  // ----- The length -----

  /** How many characters the r bytes after the last whole group need, without branches. */
  function TailLen(r: bv32, variant: bv32): bv32 {
    ((r | (r >> 1)) & 1) * (4 - (!(((variant & 2) >> 1) - 1) & (3 - r)))
  }

  lemma TailLenIs(r: bv32, variant: bv32)
    requires r < 3
    ensures TailLen(r, variant) == if r == 0 then 0 else if variant & 2 == 0 then 4 else r + 1
  {
  }

  /** base64_ENCODED_LEN, with room for the terminating zero. */
  function EncodedLen(binLen: nat, variant: bv32): nat {
    var r := binLen - binLen / 3 * 3;
    binLen / 3 * 4 + TailLen(r as bv32, variant) as nat + 1
  }

  /** The predicted length is exact. */
  lemma EncodedLenIsExact(bin: seq<Byte>, variant: bv32)
    ensures EncodedLen(|bin|, variant) == |Encode(bin, VariantOf(variant))| + 1
  {
    hide Sextets;
    SextetsLength(bin);
    var r := |bin| - |bin| / 3 * 3;
    assert r == |bin| % 3;
    if r == 0 { TailLenIs(0, variant); } else if r == 1 { TailLenIs(1, variant); } else { TailLenIs(2, variant); }
  }

  lemma SextetsLength(bin: seq<Byte>)
    ensures |Sextets(bin)| == |bin| / 3 * 4 + if |bin| % 3 == 0 then 0 else 1 + |bin| % 3
  {
    hide Sextets;
    SextetsSpell(bin);
  }

  // ----- 32-bit words -----

  function Shl(acc: nat, k: nat): nat { acc * Pow2(k) % WORD }
  function Shr(acc: nat, k: nat): nat {
    MultipleGrows(Pow2(k), acc / Pow2(k));
    acc / Pow2(k)
  }
  function LowBits(acc: nat, k: nat): nat { acc % Pow2(k) }

  // ----- Encoding -----

  /** The letters out stand for the bytes in prefix, but for the last accLen bits, which the accumulator holds. */
  ghost predicate Encoding(prefix: seq<Byte>, vals: seq<Sextet>, left: seq<bool>, acc: nat, accLen: nat, out: seq<Byte>, urlsafe: bool) {
    Digits(vals, 6) + left == Digits(prefix, 8) && |left| == accLen && Holds(acc, left) && out == LettersOf(vals, urlsafe)
  }

  lemma TakeByte(prefix: seq<Byte>, vals: seq<Sextet>, left: seq<bool>, acc: nat, accLen: nat, out: seq<Byte>, urlsafe: bool, b: Byte)
    requires Encoding(prefix, vals, left, acc, accLen, out, urlsafe) && accLen < 6
    ensures Encoding(prefix + [b], vals, left + ToBits(b, 8), (Shl(acc, 8) + b) % WORD, accLen + 8, out, urlsafe)
  {
    hide Digits, Groups, ToBits, ToNat, Pow2, Holds;
    Pow2Values();
    DigitsAppend(prefix, b, 8);
    HoldsMore(acc, left, b, 8);
    AddWraps(acc * 256, b);
  }

  lemma AddWraps(x: nat, v: nat)
    ensures (x % WORD + v) % WORD == (x + v) % WORD
  {
  }

  lemma PutLetter(prefix: seq<Byte>, vals: seq<Sextet>, left: seq<bool>, acc: nat, accLen: nat, out: seq<Byte>, urlsafe: bool)
    requires Encoding(prefix, vals, left, acc, accLen, out, urlsafe) && accLen >= 6
    ensures var v := LowBits(Shr(acc, accLen - 6), 6);
            v < 64 && Encoding(prefix, vals + [v], left[6..], acc, accLen - 6, out + [Letter(v, urlsafe)], urlsafe)
  {
    hide Digits, ToBits, ToNat, Pow2, Holds, Letter;
    var x, y := left[..6], left[6..];
    assert left == x + y;
    HoldsParts(acc, x, y);
    SixtyFour();
    DigitsAppend(vals, ToNat(x), 6);
    BitsOfNat(x);
    assert Digits(vals, 6) + (x + y) == Digits(vals, 6) + x + y;
  }

  /** The last letter, filled up with zero bits. */
  lemma PutLast(prefix: seq<Byte>, vals: seq<Sextet>, left: seq<bool>, acc: nat, accLen: nat, out: seq<Byte>, urlsafe: bool)
    requires Encoding(prefix, vals, left, acc, accLen, out, urlsafe) && 0 < accLen < 6
    ensures var v := LowBits(Shl(acc, 6 - accLen), 6);
            v < 64 && Digits(vals + [v], 6) == Digits(prefix, 8) + Zeros(6 - accLen)
            && out + [Letter(v, urlsafe)] == LettersOf(vals + [v], urlsafe)
  {
    hide Digits, ToBits, ToNat, Pow2, Holds, Letter;
    var n := 6 - accLen;
    var x := left + Zeros(n);
    SixtyFour();
    Pow2Positive(n);
    HoldsMore(acc, left, 0, n);
    ZeroBits(n);
    HoldsAll(Shl(acc, n), x);
    DigitsAppend(vals, ToNat(x), 6);
    BitsOfNat(x);
    assert Digits(vals, 6) + (left + Zeros(n)) == Digits(vals, 6) + left + Zeros(n);
  }

  lemma Pow2Positive(n: nat)
    ensures Pow2(n) > 0
  {
  }

  lemma HoldsAll(acc: nat, bits: seq<bool>)
    requires Holds(acc, bits)
    ensures LowBits(acc, |bits|) == ToNat(bits)
  {
  }

  lemma {:induction false} ZeroBits(n: nat)
    ensures ToBits(0, n) == Zeros(n) && ToNat(Zeros(n)) == 0
  {
    if n > 0 {
      ZeroBits(n - 1);
      assert Zeros(n)[..n - 1] == Zeros(n - 1);
    }
  }

  lemma EncodingEnds(bin: seq<Byte>, vals: seq<Sextet>, n: nat)
    requires n < 6 && Digits(vals, 6) == Digits(bin, 8) + Zeros(n)
    ensures vals == Sextets(bin) && n == Fill(|bin|)
  {
    hide Digits, Groups, ToBits, ToNat, Pow2, Fill;
    DigitsLength(vals, 6);
    DigitsLength(bin, 8);
    FillIs(|bin|, n, |vals|);
    SixtyFour();
    GroupsOf(vals, [], 6);
    assert Digits(vals, 6) + [] == Digits(vals, 6);
  }

  lemma FillIs(n: nat, f: nat, k: nat)
    requires 6 * k == 8 * n + f && f < 6
    ensures f == Fill(n)
  {
  }

  lemma EncodingStarts(urlsafe: bool)
    ensures Encoding([], [], [], 0, 0, [], urlsafe)
  {
  }

  /** b64_byte_to_char or b64_byte_to_urlsafe_char, on the low six bits. */
  function CharOf(v: nat, urlsafe: bool): (c: Byte)
    requires v < 64
    ensures c == Letter(v, urlsafe)
  {
    ByteToCharIsLetter(v, urlsafe);
    ByteToChar((v as bv8) as bv32, urlsafe) as int
  }

  /** The loops of bin2base64, which differ in the alphabet only. */
  method PutLetters(b64: array<Byte>, bin: seq<Byte>, urlsafe: bool) returns (b64Pos: nat)
    requires b64.Length >= |Sextets(bin)|
    modifies b64
    ensures b64Pos == |Sextets(bin)| && b64[..b64Pos] == LettersOf(Sextets(bin), urlsafe)
  {
    hide Encoding, Sextets, Fill, Shl, Shr, LowBits, Letter, Digits, Holds, Zeros, ToBits, LettersOf;
    var acc: nat, accLen, binPos := 0, 0, 0;
    b64Pos := 0;
    ghost var vals: seq<Sextet>, left: seq<bool> := [], [];
    EncodingStarts(urlsafe);
    assert b64[..b64Pos] == [];
    while binPos < |bin|
      invariant binPos <= |bin| && b64Pos <= |Sextets(bin)| && accLen < 6
      invariant Encoding(bin[..binPos], vals, left, acc, accLen, b64[..b64Pos], urlsafe)
    {
      TakeByte(bin[..binPos], vals, left, acc, accLen, b64[..b64Pos], urlsafe, bin[binPos]);
      left := left + ToBits(bin[binPos], 8);
      acc := (Shl(acc, 8) + bin[binPos]) % WORD;
      assert bin[..binPos + 1] == bin[..binPos] + [bin[binPos]];
      binPos, accLen := binPos + 1, accLen + 8;
      while accLen >= 6
        invariant b64Pos <= |Sextets(bin)|
        invariant Encoding(bin[..binPos], vals, left, acc, accLen, b64[..b64Pos], urlsafe)
      {
        EncodingCounts(bin, binPos, vals, left, acc, accLen, b64[..b64Pos], urlsafe);
        PutLetter(bin[..binPos], vals, left, acc, accLen, b64[..b64Pos], urlsafe);
        accLen := accLen - 6;
        b64Pos := Put(b64, b64Pos, CharOf(LowBits(Shr(acc, accLen), 6), urlsafe));
        vals, left := vals + [LowBits(Shr(acc, accLen), 6)], left[6..];
      }
    }
    assert bin[..binPos] == bin;
    EncodingCounts(bin, binPos, vals, left, acc, accLen, b64[..b64Pos], urlsafe);
    if accLen > 0 {
      PutLast(bin, vals, left, acc, accLen, b64[..b64Pos], urlsafe);
      EncodingEnds(bin, vals + [LowBits(Shl(acc, 6 - accLen), 6)], 6 - accLen);
      b64Pos := Put(b64, b64Pos, CharOf(LowBits(Shl(acc, 6 - accLen), 6), urlsafe));
    } else {
      NothingLeft(bin, vals, left, acc, b64[..b64Pos], urlsafe);
      EncodingEnds(bin, vals, 0);
    }
  }

  /** Store a character and move on. */
  method Put(b64: array<Byte>, pos: nat, c: Byte) returns (next: nat)
    requires pos < b64.Length
    modifies b64
    ensures next == pos + 1 && b64[..next] == old(b64[..pos]) + [c] && b64[next..] == old(b64[next..])
  {
    b64[pos] := c;
    next := pos + 1;
  }

  /** bin2base64. The buffer must be longer than the encoding, or else the source loops for ever. */
  method Bin2Base64(b64: array<Byte>, bin: seq<Byte>, variant: bv32)
    requires IsVariant(variant) && b64.Length > |Encode(bin, VariantOf(variant))|
    modifies b64
    ensures b64[..|Encode(bin, VariantOf(variant))|] == Encode(bin, VariantOf(variant))
    ensures forall i :: |Encode(bin, VariantOf(variant))| <= i < b64.Length ==> b64[i] == 0
  {
    hide Encode, Sextets, Fill, LettersOf;
    ghost var v := VariantOf(variant);
    ghost var e := Encode(bin, v);
    var nibbles := |bin| / 3;
    var remainder := |bin| - 3 * nibbles;
    var b64Len := nibbles * 4;
    if remainder != 0 {
      if variant & VARIANT_NO_PADDING_MASK == 0 { b64Len := b64Len + 4; } else { b64Len := b64Len + 2 + remainder / 2; }
    }
    SextetsLength(bin);
    EncodeLength(bin, v);
    assert b64Len == |e|;
    var b64Pos := PutLetters(b64, bin, variant & VARIANT_URLSAFE_MASK != 0);
    ghost var n := |Sextets(bin)|;
    while b64Pos < b64Len
      invariant n <= b64Pos <= b64Len
      invariant b64[..b64Pos] == LettersOf(Sextets(bin), v.urlsafe) + Pads(b64Pos - n)
    {
      MorePads(b64Pos - n);
      b64Pos := Put(b64, b64Pos, PAD);
    }
    assert b64[..b64Pos] == e;
    b64[b64Pos] := 0;
    b64Pos := b64Pos + 1;
    while b64Pos < b64.Length
      invariant b64Len < b64Pos <= b64.Length
      invariant b64[..b64Len] == e && forall i :: b64Len <= i < b64Pos ==> b64[i] == 0
    {
      b64[b64Pos] := 0;
      b64Pos := b64Pos + 1;
    }
  }

  lemma MorePads(n: nat)
    ensures Pads(n + 1) == Pads(n) + [PAD]
  {
  }

  lemma NothingLeft(bin: seq<Byte>, vals: seq<Sextet>, left: seq<bool>, acc: nat, out: seq<Byte>, urlsafe: bool)
    requires Encoding(bin, vals, left, acc, 0, out, urlsafe)
    ensures Digits(vals, 6) == Digits(bin, 8) + Zeros(0) && out == LettersOf(vals, urlsafe)
  {
    hide Digits;
  }

  /** Six bits for each letter, and there is room for another one while six bits are left. */
  lemma EncodingCounts(bin: seq<Byte>, binPos: nat, vals: seq<Sextet>, left: seq<bool>, acc: nat, accLen: nat, out: seq<Byte>, urlsafe: bool)
    requires binPos <= |bin| && Encoding(bin[..binPos], vals, left, acc, accLen, out, urlsafe)
    ensures |left| == accLen && |out| == |vals| && out == LettersOf(vals, urlsafe)
    ensures |vals| <= |Sextets(bin)| && (accLen > 0 ==> |vals| < |Sextets(bin)| || (binPos < |bin| && accLen < 6))
  {
    hide Digits, ToBits, Sextets;
    DigitsLength(vals, 6);
    DigitsLength(bin[..binPos], 8);
    SextetsSpell(bin);
  }

  lemma EncodeLength(bin: seq<Byte>, v: Variant)
    ensures |Encode(bin, v)| == |Sextets(bin)| + if v.padded then Fill(|bin|) / 2 else 0
    ensures Encode(bin, v) == LettersOf(Sextets(bin), v.urlsafe) + Pads(if v.padded then Fill(|bin|) / 2 else 0)
    ensures Fill(|bin|) == if |bin| % 3 == 0 then 0 else if |bin| % 3 == 1 then 4 else 2
  {
    hide Sextets;
  }

  // ----- Decoding -----

  /** The bytes out are those of the letter values, but for the last accLen bits, which the accumulator holds. */
  ghost predicate Decoding(vals: seq<Sextet>, out: seq<Byte>, left: seq<bool>, acc: nat, accLen: nat) {
    Digits(out, 8) + left == Digits(vals, 6) && |left| == accLen && Holds(acc, left)
  }

  lemma DecodingStarts()
    ensures Decoding([], [], [], 0, 0)
  {
  }

  lemma TakeLetter(vals: seq<Sextet>, out: seq<Byte>, left: seq<bool>, acc: nat, accLen: nat, d: Sextet)
    requires Decoding(vals, out, left, acc, accLen) && accLen < 8
    ensures Decoding(vals + [d], out, left + ToBits(d, 6), (Shl(acc, 6) + d) % WORD, accLen + 6)
  {
    hide Digits, ToBits, ToNat, Pow2, Holds;
    SixtyFour();
    DigitsAppend(vals, d, 6);
    HoldsMore(acc, left, d, 6);
    AddWraps(acc * 64, d);
    Reassociate(Digits(out, 8), left, ToBits(d, 6));
  }

  lemma PutByte(vals: seq<Sextet>, out: seq<Byte>, left: seq<bool>, acc: nat, accLen: nat)
    requires Decoding(vals, out, left, acc, accLen) && accLen >= 8
    ensures var b := LowBits(Shr(acc, accLen - 8), 8);
            |left| == accLen && b < 256 && Decoding(vals, out + [b], left[8..], acc, accLen - 8)
  {
    hide Digits, ToBits, ToNat, Pow2, Holds;
    var x, y := left[..8], left[8..];
    assert left == x + y;
    HoldsParts(acc, x, y);
    Pow2Values();
    DigitsAppend(out, ToNat(x), 8);
    BitsOfNat(x);
    Reassociate(Digits(out, 8), x, y);
  }

  lemma DecodingCounts(vals: seq<Sextet>, out: seq<Byte>, left: seq<bool>, acc: nat, accLen: nat)
    requires Decoding(vals, out, left, acc, accLen)
    ensures 8 * |out| + accLen == 6 * |vals| && |left| == accLen
  {
    hide Digits;
    DigitsLength(vals, 6);
    DigitsLength(out, 8);
  }

  /** What the source tests at the end tells whether the letters are whole. */
  lemma DecodingEnds(vals: seq<Sextet>, out: seq<Byte>, left: seq<bool>, acc: nat, accLen: nat)
    requires Decoding(vals, out, left, acc, accLen) && accLen < 8
    ensures Bytes(vals) == out && |Over(vals)| == accLen
    ensures Whole(vals) <==> accLen <= 4 && LowBits(acc, accLen) == 0
  {
    hide Digits, ToBits, ToNat, Pow2, Holds, Groups, Left;
    Pow2Values();
    GroupsOf(out, left, 8);
    HoldsAll(acc, left);
    ZeroBits(accLen);
    BitsOfNat(left);
  }

  /** As many bytes as whole groups of eight bits. */
  lemma BytesCount(vals: seq<Sextet>)
    ensures |Bytes(vals)| == 6 * |vals| / 8
  {
    hide Digits, ToBits, Groups, Left;
    DigitsOfGroups(Digits(vals, 6), 8);
    DigitsLength(vals, 6);
    DigitsLength(Bytes(vals), 8);
  }

  /** The beginning of the bytes does not depend on later letters. */
  lemma BytesOfPrefix(vals: seq<Sextet>, n: nat, out: seq<Byte>, left: seq<bool>, acc: nat, accLen: nat)
    requires n <= |vals| && Decoding(vals[..n], out, left, acc, accLen)
    ensures |out| <= |Bytes(vals)| && Bytes(vals)[..|out|] == out
  {
    hide Digits, ToBits, Groups, Left, Holds, Pow2;
    Pow2Values();
    var more := left + Digits(vals[n..], 6);
    assert vals == vals[..n] + vals[n..];
    DigitsOfSum(vals[..n], vals[n..], 6);
    Reassociate(Digits(out, 8), left, Digits(vals[n..], 6));
    DigitsOfGroups(more, 8);
    var others := Groups(more, 8);
    DigitsOfSum(out, others, 8);
    Reassociate(Digits(out, 8), Digits(others, 8), Left(more, 8));
    GroupsOf(out + others, Left(more, 8), 8);
  }

  lemma DoesNotFit(vals: seq<Sextet>, n: nat, out: seq<Byte>, left: seq<bool>, acc: nat, accLen: nat)
    requires n < |vals| && Decoding(vals[..n], out, left, acc, accLen) && 2 <= accLen < 8
    ensures 8 * |out| + 2 <= 6 * n < 8 * |out| + 8 && |out| <= |Bytes(vals)| && out == Bytes(vals)[..|out|]
  {
    hide Decoding, Bytes;
    DecodingCounts(vals[..n], out, left, acc, accLen);
    BytesOfPrefix(vals, n, out, left, acc, accLen);
  }

  lemma {:induction false} DigitsOfSum(a: seq<nat>, b: seq<nat>, w: nat)
    ensures Digits(a + b, w) == Digits(a, w) + Digits(b, w)
  {
    hide ToBits;
    if a == [] {
      assert a + b == b;
    } else {
      assert (a + b)[1..] == a[1..] + b;
      DigitsOfSum(a[1..], b, w);
      Reassociate(ToBits(a[0], w), Digits(a[1..], w), Digits(b, w));
    }
  }

  /** _base642bin_skip_padding, with nothing to ignore. */
  method SkipPadding(b64: seq<Byte>, start: nat, paddingLen: nat) returns (ret: int, pos: nat)
    requires start <= |b64|
    ensures pos == start + PadsAt(b64, start, paddingLen)
    ensures ret == if PadsAt(b64, start, paddingLen) == paddingLen then 0 else -1
  {
    pos := start;
    var left: nat := paddingLen;
    while left > 0
      invariant pos <= |b64| && left <= paddingLen
      invariant pos - start == paddingLen - left
      invariant PadsAt(b64, start, paddingLen) == (pos - start) + PadsAt(b64, pos, left)
    {
      if pos >= |b64| { return -1, pos; }
      if b64[pos] == PAD { left := left - 1; } else { return -1, pos; }
      pos := pos + 1;
    }
    ret := 0;
  }

  /** The value of a character, by b64_char_to_byte or b64_urlsafe_char_to_byte. */
  function ByteOf(c: Byte, urlsafe: bool, signed: bool): (d: int)
    ensures d == Found(c, urlsafe, signed)
  {
    CharToByteIsFound(c, urlsafe, signed);
    CharToByte(Widen(c, signed), urlsafe) as int
  }

  /** The letters in front of pos have been read into the first bytes of bin. */
  ghost predicate Reading(b64: seq<Byte>, pos: nat, urlsafe: bool, signed: bool, out: seq<Byte>, left: seq<bool>, acc: nat, accLen: nat) {
    var run := Run(b64, urlsafe, signed);
    pos <= |run| && Decoding(run[..pos], out, left, acc, accLen)
  }

  /** The loop of base642bin: it stops at the first character that is no letter or at the letter that does not fit. */
  method TakeLetters(bin: array<Byte>, b64: seq<Byte>, urlsafe: bool, signed: bool)
    returns (ret: int, b64Pos: nat, binPos: nat, acc: nat, accLen: nat, ghost left: seq<bool>)
    modifies bin
    ensures binPos <= bin.Length && bin[binPos..] == old(bin[binPos..]) && (ret == 0 || ret == -1)
    ensures ret == 0 ==> accLen < 8 && Reading(b64, b64Pos, urlsafe, signed, bin[..binPos], left, acc, accLen)
                         && b64Pos == |Run(b64, urlsafe, signed)|
    ensures ret == -1 ==> binPos == bin.Length && b64Pos < |Run(b64, urlsafe, signed)| && 8 * binPos + 2 <= 6 * b64Pos < 8 * binPos + 8
                          && binPos <= |Bytes(Run(b64, urlsafe, signed))| && bin[..] == Bytes(Run(b64, urlsafe, signed))[..binPos]
  {
    hide Decoding, Shl, Shr, LowBits, Holds, Digits, Bytes, ToBits, Found, Run;
    ghost var run := Run(b64, urlsafe, signed);
    ret, b64Pos, binPos, acc, accLen, left := 0, 0, 0, 0, 0, [];
    DecodingStarts();
    assert run[..0] == [] && bin[..0] == [];
    while b64Pos < |b64|
      invariant b64Pos <= |run| && binPos <= bin.Length && accLen < 8
      invariant Decoding(run[..b64Pos], bin[..binPos], left, acc, accLen)
      invariant bin[binPos..] == old(bin[binPos..])
    {
      var d := ByteOf(b64[b64Pos], urlsafe, signed);
      if d == 0xFF { break; }
      ghost var out := bin[..binPos];
      TakeLetter(run[..b64Pos], out, left, acc, accLen, d);
      assert run[..b64Pos + 1] == run[..b64Pos] + [d];
      ghost var acc0, left0, accLen0 := acc, left, accLen;
      acc := (Shl(acc, 6) + d) % WORD;
      left := left + ToBits(d, 6);
      accLen := accLen + 6;
      if accLen >= 8 {
        accLen := accLen - 8;
        if binPos >= bin.Length {
          DoesNotFit(run, b64Pos, out, left0, acc0, accLen0);
          assert out == bin[..];
          return -1, b64Pos, binPos, acc, accLen, left;
        }
        PutByte(run[..b64Pos + 1], out, left, acc, accLen + 8);
        binPos := Put(bin, binPos, LowBits(Shr(acc, accLen), 8));
        left := left[8..];
      }
      b64Pos := b64Pos + 1;
    }
  }

  /** The letters have been read to their end. */
  lemma ReadingEnds(b64: seq<Byte>, urlsafe: bool, signed: bool, out: seq<Byte>, left: seq<bool>, acc: nat, accLen: nat)
    requires accLen < 8 && Reading(b64, |Run(b64, urlsafe, signed)|, urlsafe, signed, out, left, acc, accLen)
    ensures var vals := Run(b64, urlsafe, signed);
            && Bytes(vals) == out && |Over(vals)| == accLen
            && (Whole(vals) <==> accLen <= 4 && LowBits(acc, accLen) == 0)
  {
    hide Decoding, Run, Bytes, Over, Whole, LowBits;
    var vals := Run(b64, urlsafe, signed);
    assert vals[..|vals|] == vals;
    DecodingEnds(vals, out, left, acc, accLen);
  }

  function Min(a: nat, b: nat): nat { if a < b then a else b }

  /** base642bin, with nothing to ignore. With wantEnd the place where decoding stopped is asked for and what follows it does not matter. */
  method Base642Bin(bin: array<Byte>, b64: seq<Byte>, wantEnd: bool, variant: bv32, signed: bool) returns (ret: int, binLen: nat, b64End: nat)
    requires IsVariant(variant)
    modifies bin
    ensures ret == if Reads(b64, bin.Length, VariantOf(variant), signed) && (wantEnd || b64End == |b64|) then 0 else -1
    ensures b64End == End(b64, bin.Length, VariantOf(variant), signed)
    ensures var bytes := Bytes(Run(b64, VariantOf(variant).urlsafe, signed));
            && binLen == (if Reads(b64, bin.Length, VariantOf(variant), signed) then |bytes| else 0)
            && bin[..Min(|bytes|, bin.Length)] == bytes[..Min(|bytes|, bin.Length)]
            && bin[Min(|bytes|, bin.Length)..] == old(bin[Min(|bytes|, bin.Length)..])
  {
    hide Run, Bytes, Over, Whole, LowBits, Reading, PadsAt;
    var isUrlsafe := variant & VARIANT_URLSAFE_MASK != 0;
    var b64Pos, binPos, acc, accLen;
    ghost var left;
    ret, b64Pos, binPos, acc, accLen, left := TakeLetters(bin, b64, isUrlsafe, signed);
    ghost var vals := Run(b64, isUrlsafe, signed);
    if ret == 0 { ReadingEnds(b64, isUrlsafe, signed, bin[..binPos], left, acc, accLen); } else { BytesCount(vals); }
    if accLen > 4 || LowBits(acc, accLen) != 0 {
      ret := -1;
    } else if ret == 0 && variant & VARIANT_NO_PADDING_MASK == 0 {
      ret, b64Pos := SkipPadding(b64, b64Pos, accLen / 2);
    }
    if ret != 0 { binPos := 0; }
    if !wantEnd && b64Pos != |b64| { ret := -1; }
    return ret, binPos, b64Pos;
  }
}
