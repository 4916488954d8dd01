/** Base64 as RFC 4648 has it, what the decoder accepts, and how the two are related. */
module Base64Codec {
  import opened Powers
  import opened Sequences
  import opened Bits
  import opened Regrouping
  import opened Base64Letters

  const PAD: Byte := '=' as int

  datatype Variant = Variant(urlsafe: bool, padded: bool)

  // ----- The encoding -----

  /** How many zero bits are added to n bytes for a whole number of letters. */
  function Fill(n: nat): (f: nat)
    ensures f < 6 && (8 * n + f) % 6 == 0
  {
    if n % 3 == 0 then 0 else if n % 3 == 1 then 4 else 2
  }

  function Sextets(bin: seq<Byte>): seq<Sextet> {
    Narrow(Groups(Digits(bin, 8) + Zeros(Fill(|bin|)), 6))
  }

  /** Groups of six bits are below 64, which the type of Groups does not say. */
  function Narrow(vals: seq<nat>): (narrow: seq<Sextet>)
    requires Fit(vals, 6)
    ensures narrow == vals
  {
    assert Pow2(6) == 64;
    vals
  }

  function LettersOf(vals: seq<Sextet>, urlsafe: bool): (s: seq<Byte>)
    ensures |s| == |vals|
  {
    seq(|vals|, i requires 0 <= i < |vals| => Letter(vals[i], urlsafe))
  }

  function Pads(n: nat): (s: seq<Byte>)
    ensures |s| == n
  {
    seq(n, _ => PAD)
  }

  /** Sections 3.2, 4 and 5 of RFC 4648. */
  function Encode(bin: seq<Byte>, variant: Variant): seq<Byte> {
    LettersOf(Sextets(bin), variant.urlsafe) + if variant.padded then Pads(Fill(|bin|) / 2) else []
  }

  // ----- What the decoder makes of a string -----

  /** The values of the longest run of letters at the start. */
  function Run(s: seq<Byte>, urlsafe: bool, signed: bool): (vals: seq<Sextet>)
    ensures |vals| <= |s|
    ensures forall i :: 0 <= i < |vals| ==> Found(s[i], urlsafe, signed) == vals[i]
    ensures |vals| < |s| ==> Found(s[|vals|], urlsafe, signed) == 0xFF
  {
    if s == [] || Found(s[0], urlsafe, signed) == 0xFF then []
    else [Found(s[0], urlsafe, signed)] + Run(s[1..], urlsafe, signed)
  }

  function Bytes(vals: seq<Sextet>): seq<nat> { Groups(Digits(vals, 6), 8) }

  /** The bits that are left over, which have to be fewer than a letter's and zero. */
  function Over(vals: seq<Sextet>): seq<bool> { Left(Digits(vals, 6), 8) }

  predicate Whole(vals: seq<Sextet>) {
    |Over(vals)| <= 4 && Over(vals) == Zeros(|Over(vals)|)
  }

  /** How many of k padding characters are there at a position. */
  function PadsAt(s: seq<Byte>, from: nat, k: nat): (n: nat)
    requires from <= |s|
    ensures n <= k && from + n <= |s|
    ensures n == k <==> from + k <= |s| && s[from..from + k] == Pads(k)
    decreases k
  {
    if k == 0 || from == |s| || s[from] != PAD then 0 else 1 + PadsAt(s, from + 1, k - 1)
  }

  /** The string begins with a whole encoding that fits. */
  predicate Reads(s: seq<Byte>, maxlen: nat, variant: Variant, signed: bool) {
    var vals := Run(s, variant.urlsafe, signed);
    && |Bytes(vals)| <= maxlen && Whole(vals)
    && (variant.padded ==> PadsAt(s, |vals|, |Over(vals)| / 2) == |Over(vals)| / 2)
  }

  /** Where the decoder stops: at the letter that would not fit, after the padding, or after the letters. */
  function End(s: seq<Byte>, maxlen: nat, variant: Variant, signed: bool): nat {
    var vals := Run(s, variant.urlsafe, signed);
    if |Bytes(vals)| > maxlen then (8 * maxlen + 7) / 6
    else if Whole(vals) && variant.padded then |vals| + PadsAt(s, |vals|, |Over(vals)| / 2)
    else |vals|
  }

  predicate Accepts(s: seq<Byte>, maxlen: nat, variant: Variant, signed: bool) {
    Reads(s, maxlen, variant, signed) && End(s, maxlen, variant, signed) == |s|
  }

  // ----- Encoding and decoding are inverses -----

  lemma SextetsSpell(bin: seq<Byte>)
    ensures Digits(Sextets(bin), 6) == Digits(bin, 8) + Zeros(Fill(|bin|))
    ensures 6 * |Sextets(bin)| == 8 * |bin| + Fill(|bin|)
  {
    hide ToBits, ToNat, Pow2, Groups, Digits, Left, Fill;
    var bits := Digits(bin, 8) + Zeros(Fill(|bin|));
    DigitsOfGroups(bits, 6);
    DigitsLength(bin, 8);
    DigitsLength(Groups(bits, 6), 6);
  }

  lemma BytesOfSextets(bin: seq<Byte>)
    ensures Bytes(Sextets(bin)) == bin && Over(Sextets(bin)) == Zeros(Fill(|bin|)) && Whole(Sextets(bin))
  {
    hide ToBits, ToNat, Pow2, Groups, Digits, Left, Sextets;
    SextetsSpell(bin);
    Pow2Values();
    GroupsOf(bin, Zeros(Fill(|bin|)), 8);
  }

  lemma SextetsOfBytes(vals: seq<Sextet>)
    requires Whole(vals)
    ensures Fit(Bytes(vals), 8) && |Over(vals)| == Fill(|Bytes(vals)|)
    ensures Pow2(8) == 0x100 && Sextets(Bytes(vals)) == vals
  {
    hide ToBits, ToNat, Pow2, Groups, Digits, Left;
    Pow2Values();
    DigitsOfGroups(Digits(vals, 6), 8);
    DigitsLength(vals, 6);
    DigitsLength(Bytes(vals), 8);
    SixtyFour();
    GroupsOf(vals, [], 6);
    assert Digits(vals, 6) + [] == Digits(vals, 6);
  }

  lemma SixtyFour()
    ensures Pow2(6) == 64
  {
  }

  lemma {:induction false} RunOfLetters(vals: seq<Sextet>, tail: seq<Byte>, urlsafe: bool, signed: bool)
    requires tail == [] || Found(tail[0], urlsafe, signed) == 0xFF
    ensures Run(LettersOf(vals, urlsafe) + tail, urlsafe, signed) == vals
  {
    hide Letter, Value;
    var s := LettersOf(vals, urlsafe) + tail;
    if vals == [] {
      assert s == tail;
    } else {
      ValueOfLetter(vals[0], urlsafe);
      assert s[1..] == LettersOf(vals[1..], urlsafe) + tail;
      RunOfLetters(vals[1..], tail, urlsafe, signed);
    }
  }

  lemma RunOfEncode(bin: seq<Byte>, variant: Variant, signed: bool)
    ensures var s := Encode(bin, variant);
            && Run(s, variant.urlsafe, signed) == Sextets(bin)
            && s[|Sextets(bin)|..] == if variant.padded then Pads(Fill(|bin|) / 2) else []
  {
    hide Sextets, Fill, Run, Value, Letter;
    var pads := if variant.padded then Pads(Fill(|bin|) / 2) else [];
    RunOfLetters(Sextets(bin), pads, variant.urlsafe, signed);
  }

  /** Decoding undoes encoding, whether char is signed or not. */
  lemma DecodeUndoesEncode(bin: seq<Byte>, maxlen: nat, variant: Variant, signed: bool)
    requires |bin| <= maxlen
    ensures Accepts(Encode(bin, variant), maxlen, variant, signed)
    ensures Bytes(Run(Encode(bin, variant), variant.urlsafe, signed)) == bin
  {
    hide Bytes, Over, Sextets, Fill, Run, Encode, Whole, PadsAt, Pads;
    BytesOfSextets(bin);
    RunOfEncode(bin, variant, signed);
  }

  /** What a negative character passes for. */
  function Fold(s: seq<Byte>, urlsafe: bool, signed: bool): (t: seq<Byte>)
    ensures |t| == |s|
    ensures (signed ==> Ascii(s)) ==> t == s
  {
    seq(|s|, i requires 0 <= i < |s| => if signed && s[i] >= 0x80 then Letter(63, urlsafe) else s[i])
  }

  predicate Ascii(s: seq<Byte>) {
    forall i :: 0 <= i < |s| ==> s[i] < 0x80
  }

  /** A string that is accepted is the encoding of its bytes, except that negative characters stand for the last letter. */
  lemma AcceptedIsEncoding(s: seq<Byte>, maxlen: nat, variant: Variant, signed: bool)
    requires Accepts(s, maxlen, variant, signed)
    ensures var vals := Run(s, variant.urlsafe, signed);
            Whole(vals) && Fit(Bytes(vals), 8) && Pow2(8) == 0x100 && |Bytes(vals)| <= maxlen
            && Fold(s, variant.urlsafe, signed) == Encode(Bytes(vals), variant)
  {
    hide Bytes, Over, Sextets, Fill, Run, Pow2, Letter, Value;
    var vals := Run(s, variant.urlsafe, signed);
    SextetsOfBytes(vals);
    var n := |vals|;
    forall i | 0 <= i < n ensures Fold(s, variant.urlsafe, signed)[i] == LettersOf(vals, variant.urlsafe)[i] {
      assert Found(s[i], variant.urlsafe, signed) == vals[i];
    }
    if variant.padded { assert s[n..] == Pads(|Over(vals)| / 2); }
  }

  lemma {:induction false} RunOfFold(s: seq<Byte>, urlsafe: bool, signed: bool)
    ensures Run(Fold(s, urlsafe, signed), urlsafe, signed) == Run(s, urlsafe, signed)
  {
    hide Letter, Value;
    if s != [] {
      var t := Fold(s, urlsafe, signed);
      ValueOfLetter(63, urlsafe);
      assert Found(t[0], urlsafe, signed) == Found(s[0], urlsafe, signed);
      assert t[1..] == Fold(s[1..], urlsafe, signed);
      RunOfFold(s[1..], urlsafe, signed);
    }
  }

  lemma {:induction false} PadsOfFold(s: seq<Byte>, urlsafe: bool, signed: bool, from: nat, k: nat)
    requires from <= |s|
    ensures PadsAt(Fold(s, urlsafe, signed), from, k) == PadsAt(s, from, k)
    decreases k
  {
    hide Letter;
    if k > 0 && from < |s| { PadsOfFold(s, urlsafe, signed, from + 1, k - 1); }
  }

  ghost predicate Canonical(s: seq<Byte>, maxlen: nat, variant: Variant) {
    exists bin: seq<Byte> :: |bin| <= maxlen && s == Encode(bin, variant)
  }

  /** The strings that are accepted to their end are the canonical encodings, once negative characters are read as the last letter. */
  lemma AcceptsCanonical(s: seq<Byte>, maxlen: nat, variant: Variant, signed: bool)
    ensures Accepts(s, maxlen, variant, signed) <==> Canonical(Fold(s, variant.urlsafe, signed), maxlen, variant)
  {
    hide Bytes, Over, Encode, Fold, Run, Letter, Value, Pow2;
    var t := Fold(s, variant.urlsafe, signed);
    RunOfFold(s, variant.urlsafe, signed);
    var vals := Run(s, variant.urlsafe, signed);
    PadsOfFold(s, variant.urlsafe, signed, |vals|, |Over(vals)| / 2);
    if Accepts(s, maxlen, variant, signed) { AcceptedIsEncoding(s, maxlen, variant, signed); }
    if Canonical(t, maxlen, variant) {
      var bin: seq<Byte> :| |bin| <= maxlen && t == Encode(bin, variant);
      DecodeUndoesEncode(bin, maxlen, variant, signed);
    }
  }

  /** The decoder accepts exactly the canonical encodings, unless char is signed and a negative character takes the place of the last letter. */
  lemma AcceptsExactly(s: seq<Byte>, maxlen: nat, variant: Variant, signed: bool)
    ensures (Accepts(s, maxlen, variant, signed) <==> Canonical(s, maxlen, variant))
       <==> !(signed && !Ascii(s) && Canonical(Fold(s, variant.urlsafe, signed), maxlen, variant))
  {
    hide Accepts, Encode;
    AcceptsCanonical(s, maxlen, variant, signed);
    if Canonical(s, maxlen, variant) {
      var bin: seq<Byte> :| |bin| <= maxlen && s == Encode(bin, variant);
      EncodingIsAscii(bin, variant);
    }
  }

  lemma EncodingIsAscii(bin: seq<Byte>, variant: Variant)
    ensures Ascii(Encode(bin, variant))
  {
    hide Letter, Sextets, Fill;
  }

  /** Four bytes that are no encoding, which a signed char makes the decoder take for three bytes of ones. */
  lemma NegativeIsAccepted()
    ensures Accepts([0x80, 0xFF, 0x80, 0xFF], 3, Variant(false, true), true)
    ensures !Canonical([0x80, 0xFF, 0x80, 0xFF], 3, Variant(false, true))
  {
    hide Accepts, Encode;
    var s: seq<Byte>, bin: seq<Byte> := [0x80, 0xFF, 0x80, 0xFF], [0xFF, 0xFF, 0xFF];
    ThreeOnes();
    assert Fold(s, false, true) == Encode(bin, Variant(false, true));
    AcceptsCanonical(s, 3, Variant(false, true), true);
    AcceptsExactly(s, 3, Variant(false, true), true);
    assert s[0] >= 0x80;
  }

  lemma ThreeOnes()
    ensures Encode([0xFF, 0xFF, 0xFF], Variant(false, true)) == ['/' as int, '/' as int, '/' as int, '/' as int]
  {
    hide ToNat, ToBits, Pow2, Groups, Digits, Zeros;
    var bin: seq<Byte>, vals: seq<Sextet> := [0xFF, 0xFF, 0xFF], [63, 63, 63, 63];
    Ones();
    SixtyFour();
    assert Digits(bin, 8) + Zeros(0) == Digits(vals, 6) + [];
    GroupsOf(vals, [], 6);
    assert Pads(0) == [];
  }

  lemma Ones()
    ensures Digits([0xFF, 0xFF, 0xFF], 8) == Digits([63, 63, 63, 63], 6)
  {
    hide ToBits;
    var b, s := seq(8, _ => true), seq(6, _ => true);
    OnesOf8();
    OnesOf6();
    assert Digits([0xFF, 0xFF, 0xFF], 8) == b + (b + (b + []));
    assert Digits([63, 63, 63, 63], 6) == s + (s + (s + (s + [])));
  }

  lemma OnesOf8()
    ensures ToBits(0xFF, 8) == seq(8, _ => true)
  {
  }

  lemma OnesOf6()
    ensures ToBits(63, 6) == seq(6, _ => true)
  {
  }
}
