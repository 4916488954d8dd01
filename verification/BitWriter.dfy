/** bsW and bsFinishWrite: the bit buffer of the compressor. */
module BitWriting {
  import opened Powers
  import opened Sequences
  import opened Bits

  lemma NoBytes()
    ensures BytesToBits([]) == []
  {
  }

  class BitWriter {
    var bsBuff: Word
    var bsLive: int
    var zbits: seq<Byte>

    ghost predicate Valid()
      reads this
    {
      0 <= bsLive <= 32 && forall k :: bsLive <= k < 32 ==> !bsBuff[k]
    }

    /** Everything written so far. */
    ghost function Written(): seq<bool>
      requires Valid()
      reads this
    {
      BytesToBits(zbits) + bsBuff[..bsLive]
    }

    constructor ()
      ensures Valid() && Written() == [] && zbits == []
    {
      bsBuff, bsLive, zbits := ZERO, 0, [];
    }

    /** Start the output again; what is in the buffer stays. */
    method Clear()
      requires Valid()
      modifies `zbits
      ensures Valid() && zbits == [] && BytesToBits(old(zbits)) + Written() == old(Written())
    {
      zbits := [];
      assert BytesToBits([]) + bsBuff[..bsLive] == bsBuff[..bsLive] by { NoBytes(); }
    }

    /** Move the top byte of the buffer to the output. */
    method PutByte()
      requires Valid() && bsLive >= 8
      modifies this
      ensures Valid() && bsLive == old(bsLive) - 8 && Written() == old(Written())
    {
      ghost var before := bsBuff[..bsLive];
      var b := LowByte(Shr(bsBuff, 24));
      BitsOfNat(bsBuff[..8]);
      assert Shr(bsBuff, 24)[24..] == bsBuff[..8];
      assert (zbits + [b])[..|zbits|] == zbits;
      zbits := zbits + [b];
      bsBuff := Shl(bsBuff, 8);
      bsLive := bsLive - 8;
      assert before == before[..8] + before[8..];
      assert bsBuff[..bsLive] == before[8..];
    }

    /** bsW: append the n bits of v. */
    method Write(n: nat, v: nat)
      requires Valid() && n <= 24 && v < Pow2(n)
      modifies this
      ensures Valid() && Written() == old(Written()) + ToBits(v, n)
    {
      hide ToBits, BytesToBits, Or, Shl, Pow2;
      while bsLive >= 8
        invariant Valid() && Written() == old(Written())
      {
        PutByte();
      }
      OrAppends(bsBuff, bsLive, v, n);
      bsBuff := Or(bsBuff, Shl(ToBits(v, 32), 32 - bsLive - n));
      bsLive := bsLive + n;
    }

    /** bsFinishWrite: flush the buffer; zeros fill up the last byte. */
    method Finish()
      requires Valid()
      modifies this
      ensures bsLive <= 0
      ensures exists k: nat :: k < 8 && BytesToBits(zbits) == old(Written()) + Zeros(k)
    {
      ghost var written := Written();
      ghost var fill: nat := 0;
      assert written + Zeros(0) == written;
      while bsLive > 0
        invariant bsLive > 0 ==> Valid() && fill == 0 && Written() == written
        invariant bsLive <= 0 ==> fill < 8 && BytesToBits(zbits) == written + Zeros(fill)
        decreases bsLive
      {
        if bsLive >= 8 {
          PutByte();
          if bsLive == 0 { assert bsBuff[..0] == []; }
        } else {
          fill := 8 - bsLive;
          assert bsBuff[..8] == bsBuff[..bsLive] + Zeros(fill);
          PutLastByte();
        }
      }
    }

    /** The same step when fewer than eight bits are live. */
    method PutLastByte()
      requires Valid() && 0 < bsLive < 8
      modifies this
      ensures bsLive == old(bsLive) - 8 && BytesToBits(zbits) == old(BytesToBits(zbits)) + old(bsBuff)[..8]
    {
      var b := LowByte(Shr(bsBuff, 24));
      BitsOfNat(bsBuff[..8]);
      assert Shr(bsBuff, 24)[24..] == bsBuff[..8];
      assert (zbits + [b])[..|zbits|] == zbits;
      zbits := zbits + [b];
      bsBuff := Shl(bsBuff, 8);
      bsLive := bsLive - 8;
    }
  }
}
