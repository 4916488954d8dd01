/** The character maps of base64: comparisons without branches on 32-bit words, and the alphabets of RFC 4648 that they amount to. */
module Base64Letters {
  import opened Sequences

  // ----- The macros: 0xFF when the comparison holds and 0 when it does not -----

  function EQ(x: bv32, y: bv32): bv32 { (((0 - (x ^ y)) >> 8) & 0xFF) ^ 0xFF }
  function GT(x: bv32, y: bv32): bv32 { ((y - x) >> 8) & 0xFF }
  function GE(x: bv32, y: bv32): bv32 { GT(y, x) ^ 0xFF }
  function LT(x: bv32, y: bv32): bv32 { GT(y, x) }
  function LE(x: bv32, y: bv32): bv32 { GE(y, x) }

  /** On characters the macros compare. */
  lemma EqualityIs(x: bv32, y: bv32)
    requires x < 0x100 && y < 0x100
    ensures EQ(x, y) == if x == y then 0xFF else 0
  {
    var z := x ^ y;
    assert z == 0 <==> x == y;
    assert z < 0x100;
  }

  lemma OrderIs(x: bv32, y: bv32)
    requires x < 0x100 && y < 0x100
    ensures GT(x, y) == if x > y then 0xFF else 0
  {
  }

  /** A negative character makes EQ report equality with every ASCII character. */
  lemma NegativeEqualsAll(c: bv32, y: bv32)
    requires c >= 0xFFFF_FF80 && y < 0x80
    ensures EQ(c, y) == 0xFF
  {
  }

  // ----- The maps as the source computes them -----

  /** b64_byte_to_char, and b64_byte_to_urlsafe_char with other characters for 62 and 63. */
  function ByteToChar(x: bv32, urlsafe: bool): bv32 {
    (LT(x, 26) & (x + 65)) | (GE(x, 26) & LT(x, 52) & (x + 71)) | (GE(x, 52) & LT(x, 62) & (x - 4)) |
    (if urlsafe then (EQ(x, 62) & 45) | (EQ(x, 63) & 95) else (EQ(x, 62) & 43) | (EQ(x, 63) & 47))
  }

  /** b64_char_to_byte and b64_urlsafe_char_to_byte. */
  function CharToByte(c: bv32, urlsafe: bool): bv32 {
    var x :=
      (GE(c, 65) & LE(c, 90) & (c - 65)) | (GE(c, 97) & LE(c, 122) & (c - 71)) | (GE(c, 48) & LE(c, 57) & (c + 4)) |
      (if urlsafe then (EQ(c, 45) & 62) | (EQ(c, 95) & 63) else (EQ(c, 43) & 62) | (EQ(c, 47) & 63));
    x | (EQ(x, 0) & (EQ(c, 65) ^ 0xFF))
  }

  /** A character as the int that the maps are given: where char is signed, the upper half is negative. */
  function Widen(c: Byte, signed: bool): bv32 {
    var w := (c as bv8) as bv32;
    if signed && w >= 0x80 then w | 0xFFFF_FF00 else w
  }

  // ----- The alphabets -----

  type Sextet = v: int | 0 <= v < 64

  /** The letter for a value, tables 1 and 2 of RFC 4648. */
  function Letter(v: Sextet, urlsafe: bool): (c: Byte)
    ensures c < 0x80 && c != '=' as int
  {
    if v < 26 then 'A' as int + v
    else if v < 52 then 'a' as int + (v - 26)
    else if v < 62 then '0' as int + (v - 52)
    else if v == 62 then if urlsafe then '-' as int else '+' as int
    else if urlsafe then '_' as int else '/' as int
  }

  /** The value of a letter. */
  function Value(c: Byte, urlsafe: bool): (v: Option<Sextet>)
    ensures v.Some? ==> Letter(v.value, urlsafe) == c
    ensures v.None? ==> forall x: Sextet :: Letter(x, urlsafe) != c
  {
    if 'A' as int <= c <= 'Z' as int then Some(c - 'A' as int)
    else if 'a' as int <= c <= 'z' as int then Some(c - 'a' as int + 26)
    else if '0' as int <= c <= '9' as int then Some(c - '0' as int + 52)
    else if c == (if urlsafe then '-' as int else '+' as int) then Some(62)
    else if c == (if urlsafe then '_' as int else '/' as int) then Some(63)
    else None
  }

  lemma ValueOfLetter(v: Sextet, urlsafe: bool)
    ensures Value(Letter(v, urlsafe), urlsafe) == Some(v)
  {
  }

  /** The encoder's map is the alphabet. */
  lemma ByteToCharIsLetter(v: Sextet, urlsafe: bool)
    ensures ByteToChar((v as bv8) as bv32, urlsafe) as int == Letter(v, urlsafe)
  {
    var x := v as bv8;
    LetterWords(x, urlsafe);
    if x < 26 { Plus65(x); } else if x < 52 { Plus71(x); } else if x < 62 { Minus4(x); }
  }

  /** The value that the decoder finds for a character, with 0xFF for no value. A negative character always passes for 63. */
  function Found(c: Byte, urlsafe: bool, signed: bool): int {
    if signed && c >= 0x80 then 63
    else match Value(c, urlsafe) case Some(v) => v case None => 0xFF
  }

  /** The decoder's map inverts the alphabet on every character that is not negative. */
  lemma CharToByteIsFound(c: Byte, urlsafe: bool, signed: bool)
    ensures CharToByte(Widen(c, signed), urlsafe) as int == Found(c, urlsafe, signed)
  {
    hide CharToByte, Found, Value;
    var x := c as bv8;
    ByteAndBack(c);
    if signed && x >= 0x80 { NegativeIsFound(x, urlsafe); } else { WordIsFound(x, urlsafe, signed); }
  }

  lemma ByteAndBack(c: Byte)
    ensures (c as bv8) as int == c
  {
    assert c < 128 || c >= 128;
    if c < 64 { } else if c < 128 { } else if c < 192 { } else { }
  }

  lemma NegativeIsFound(x: bv8, urlsafe: bool)
    requires x >= 0x80
    ensures CharToByte(x as bv32 | 0xFFFF_FF00, urlsafe) as int == Found(x as int, urlsafe, true)
  {
    hide CharToByte;
    NegativeFound(x as bv32 | 0xFFFF_FF00, urlsafe);
  }

  lemma WordIsFound(x: bv8, urlsafe: bool, signed: bool)
    requires signed ==> x < 0x80
    ensures CharToByte(x as bv32, urlsafe) as int == Found(x as int, urlsafe, signed)
  {
    hide CharToByte;
    FoundWords(x, urlsafe);
    if 65 <= x <= 90 { Minus65(x); } else if 97 <= x <= 122 { Minus71(x); } else if 48 <= x <= 57 { Plus4(x); }
  }

  // ----- One range of characters at a time -----

  lemma LetterWords(x: bv8, urlsafe: bool)
    requires x < 64
    ensures ByteToChar(x as bv32, urlsafe)
         == if x < 26 then (x + 65) as bv32 else if x < 52 then (x + 71) as bv32 else if x < 62 then (x - 4) as bv32
            else if x == 62 then if urlsafe then 45 else 43 else if urlsafe then 95 else 47
  {
  }

  lemma FoundWords(x: bv8, urlsafe: bool)
    ensures CharToByte(x as bv32, urlsafe)
         == if 65 <= x <= 90 then (x - 65) as bv32 else if 97 <= x <= 122 then (x - 71) as bv32 else if 48 <= x <= 57 then (x + 4) as bv32
            else if x == (if urlsafe then 45 else 43) then 62 else if x == (if urlsafe then 95 else 47) then 63 else 0xFF
  {
  }

  lemma NegativeFound(c: bv32, urlsafe: bool)
    requires c >= 0xFFFF_FF80
    ensures CharToByte(c, urlsafe) == 63
  {
  }

  lemma Plus65(x: bv8) requires x < 26 ensures (x + 65) as int == x as int + 65 { }
  lemma Plus71(x: bv8) requires 26 <= x < 52 ensures (x + 71) as int == x as int + 71 { }
  lemma Minus4(x: bv8) requires 52 <= x < 62 ensures (x - 4) as int == x as int - 4 { }
  lemma Minus65(x: bv8) requires 65 <= x <= 90 ensures (x - 65) as int == x as int - 65 { }
  lemma Minus71(x: bv8) requires 97 <= x <= 122 ensures (x - 71) as int == x as int - 71 { }
  lemma Plus4(x: bv8) requires 48 <= x <= 57 ensures (x + 4) as int == x as int + 4 { }
}
