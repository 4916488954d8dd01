/** GET_BITS: the bit buffer of the decompressor, refilled from input that arrives in chunks. */
module BitReading {
  import opened Powers
  import opened Sequences
  import opened Bits

  /** What a parser makes of a string of bits: a value and the bits after it, a wait for more input
      (the source returns BZ_OK and resumes at the same place), or BZ_DATA_ERROR. Outside is the answer where
      the source goes on in a way that is not modelled: after a write beyond an array, a run of negative length,
      or a randomised block. */
  datatype Parse<+T> = Done(value: T, rest: seq<bool>) | More | Bad | Outside

  /** The return code of a reading method: BZ_OK with a value, BZ_OK for want of input, or BZ_DATA_ERROR;
      or else the source goes on in a way that is not modelled. */
  datatype Status = Read | Wait | DataError | Unmodelled

  function Outcome<T>(status: Status, value: T, rest: seq<bool>): Parse<T> {
    match status
    case Read => Done(value, rest)
    case Wait => More
    case DataError => Bad
    case Unmodelled => Outside
  }

  /** p with l put before what it holds. */
  function Prepend<T>(l: seq<T>, p: Parse<seq<T>>): Parse<seq<T>> {
    match p
    case Done(s, rest) => Done(l + s, rest)
    case _ => p
  }

  function Take(bits: seq<bool>, n: nat): Parse<nat> {
    if |bits| >= n then Done(ToNat(bits[..n]), bits[n..]) else More
  }

  /** What is written with n bits is read back with n bits. */
  lemma TakeWritten(v: nat, n: nat, rest: seq<bool>)
    requires v < Pow2(n)
    ensures Take(ToBits(v, n) + rest, n) == Done(v, rest)
  {
    NatOfBits(v, n);
    assert (ToBits(v, n) + rest)[..n] == ToBits(v, n) && (ToBits(v, n) + rest)[n..] == rest;
  }

  function Flatten(chunks: seq<seq<Byte>>): seq<Byte> {
    if chunks == [] then [] else chunks[0] + Flatten(chunks[1..])
  }

  class BitReader {
    var bsBuff: Word
    var bsLive: nat
    var chunk: seq<Byte>
    var later: seq<seq<Byte>>

    ghost predicate Valid()
      reads this
    {
      bsLive <= 32
    }

    /** The bits still to be read, however they are spread over the buffer and the chunks. */
    ghost function Pending(): seq<bool>
      requires Valid()
      reads this
    {
      bsBuff[32 - bsLive..] + BytesToBits(chunk + Flatten(later))
    }

    constructor (chunks: seq<seq<Byte>>)
      ensures Valid() && Pending() == BytesToBits(Flatten(chunks))
    {
      bsBuff, bsLive, chunk, later := ZERO, 0, [], chunks;
      new;
      assert [] + Flatten(chunks) == Flatten(chunks);
    }

    /** Shift the next byte of the current chunk into the buffer. */
    method Refill()
      requires Valid() && bsLive <= 24 && chunk != []
      modifies this
      ensures Valid() && Pending() == old(Pending()) && chunk == old(chunk)[1..] && later == old(later)
    {
      hide ToBits, Shl, Or, BytesToBits, Flatten;
      ByteJoins(bsBuff, bsLive, chunk, Flatten(later));
      bsBuff := Or(Shl(bsBuff, 8), ToBits(chunk[0], 32));
      bsLive := bsLive + 8;
      chunk := chunk[1..];
    }

    /** Read n bits, or find that the input has ended first. */
    method GetBits(n: nat) returns (status: Status, v: nat)
      requires Valid() && n <= 24
      modifies this
      ensures Valid() && Outcome(status, v, Pending()) == Take(old(Pending()), n)
      ensures !status.Read? ==> Pending() == old(Pending())
    {
      hide And, Shr, Mask, BytesToBits, ToNat;
      v := 0;
      while bsLive < n
        invariant Valid() && Pending() == old(Pending())
        decreases |later|, |chunk|
      {
        if chunk == [] {
          if later == [] {
            assert BytesToBits([] + Flatten([])) == [] by { NothingPending(); }
            status := Wait;
            return;
          }
          assert [] + Flatten(later) == later[0] + Flatten(later[1..]);
          chunk, later := later[0], later[1..];
        } else {
          Refill();
        }
      }
      LiveBitsFirst(bsBuff, bsLive, n, BytesToBits(chunk + Flatten(later)));
      v := ToNat(And(Shr(bsBuff, bsLive - n), Mask(n)));
      bsLive := bsLive - n;
      status := Read;
    }
  }

  lemma NothingPending()
    ensures BytesToBits([] + Flatten([])) == []
  {
  }

  /** Shifting a byte into the buffer moves its bits from the input to the live bits. */
  lemma ByteJoins(w: Word, live: nat, chunk: seq<Byte>, tail: seq<Byte>)
    requires live <= 24 && chunk != []
    ensures Or(Shl(w, 8), ToBits(chunk[0], 32))[32 - (live + 8)..] + BytesToBits(chunk[1..] + tail)
         == w[32 - live..] + BytesToBits(chunk + tail)
  {
    var byte := chunk[0];
    assert Pow2(8) == 256;
    WiderBits(byte, 8, 24);
    hide ToBits;
    assert Or(Shl(w, 8), ToBits(byte, 32)) == w[8..] + ToBits(byte, 8);
    assert chunk + tail == [byte] + (chunk[1..] + tail);
    BytesConcat([byte], chunk[1..] + tail);
    assert [byte][..0] == [];
    assert BytesToBits([byte]) == BytesToBits([]) + ToBits(byte, 8);
    assert (w[8..] + ToBits(byte, 8))[24 - live..] == w[32 - live..] + ToBits(byte, 8);
  }

  lemma LiveBitsFirst(w: Word, live: nat, n: nat, later: seq<bool>)
    requires n <= live <= 32
    ensures Take(w[32 - live..] + later, n)
         == Done(ToNat(And(Shr(w, live - n), Mask(n))), w[32 - (live - n)..] + later)
  {
    hide And, Shr, Mask, ToNat;
    MaskedNat(w, live, n);
    var bits := w[32 - live..] + later;
    assert bits[..n] == w[32 - live..32 - live + n];
    assert bits[n..] == w[32 - (live - n)..] + later;
  }

  lemma {:induction false} LeadingZeros(k: nat, s: seq<bool>)
    ensures ToNat(Zeros(k) + s) == ToNat(s)
  {
    NatOfConcat(Zeros(k), s);
    ZerosAreZero(k);
  }

  lemma {:induction false} ZerosAreZero(k: nat)
    ensures ToNat(Zeros(k)) == 0
  {
    if k > 0 {
      ZerosAreZero(k - 1);
      assert Zeros(k)[..k - 1] == Zeros(k - 1);
    }
  }

  /** Shifting and masking picks out the n oldest of the live bits. */
  lemma MaskedNat(w: Word, live: nat, n: nat)
    requires n <= live <= 32
    ensures ToNat(And(Shr(w, live - n), Mask(n))) == ToNat(w[32 - live..32 - live + n])
  {
    var s := w[32 - live..32 - live + n];
    assert And(Shr(w, live - n), Mask(n)) == Zeros(32 - n) + s;
    LeadingZeros(32 - n, s);
  }
}
