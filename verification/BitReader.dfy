/** The bit reader of the inflater: a byte index and a bit index into a byte slice. */
module BitReading {
  import opened Bits
  import opened Results

  /** The error texts of the inflater, one constructor each. */
  datatype Error =
    | OutOfBits
    | BadSymbol
    | StoredLen
    | StoredPayload
    | RepeatWithNoPrev
    | BadClSymbol
    | LengthSetOverrun
    | BadLengthSymbol
    | BadDistSymbol
    | BadBackReference
    | ReservedBlockType

  /** What reading n bits at position p of the stream s yields. */
  function ReadBits(s: seq<Bit>, p: nat, n: nat): (r: Result<nat, Error>)
    requires p <= |s|
    ensures r.Ok? ==> p + n <= |s|
  {
    if p + n <= |s| then Ok(LsbVal(s[p..p + n])) else Err(OutOfBits)
  }

  class BitReader {
    const data: seq<Byte>
    var byte: nat
    var bit: nat

    ghost predicate Valid()
      reads this
    {
      bit < 8 && Pos() <= 8 * |data|
    }

    ghost function Pos(): nat
      reads this
    {
      8 * byte + bit
    }

    ghost function Stream(): seq<Bit> {
      BitsOf(data)
    }

    lemma PosInStream()
      requires Valid()
      ensures Pos() <= |Stream()|
    {
    }

    constructor (data: seq<Byte>)
      ensures Valid() && Pos() == 0 && this.data == data
    {
      this.data := data;
      byte, bit := 0, 0;
    }

    /** Reads a single bit, LSB first within each byte. */
    method Bit() returns (r: Result<Bit, Error>)
      requires Valid()
      modifies this
      ensures Valid()
      ensures r == if old(Pos()) < |Stream()| then Ok(Stream()[old(Pos())]) else Err(OutOfBits)
      ensures Pos() == if r.Ok? then old(Pos()) + 1 else old(Pos())
    {
      if byte >= |data| {
        return Err(OutOfBits);
      }
      assert (8 * byte + bit) / 8 == byte && (8 * byte + bit) % 8 == bit;
      var v := (data[byte] / Pow2(bit)) % 2;
      bit := bit + 1;
      if bit == 8 {
        bit := 0;
        byte := byte + 1;
      }
      r := Ok(v);
    }

    /** Reads n bits LSB first as a little-endian integer. Bit i of the accumulator is still clear
        when it is set, so the source's `|=` is an addition. */
    method Bits(n: nat) returns (r: Result<nat, Error>)
      requires Valid()
      modifies this
      ensures Valid()
      ensures r == ReadBits(Stream(), old(Pos()), n)
      ensures r.Ok? ==> Pos() == old(Pos()) + n
    {
      var v := 0;
      var start := Pos();
      for i := 0 to n
        invariant Valid() && Pos() == start + i
        invariant v == LsbVal(Stream()[start..start + i])
      {
        var b :- Bit();
        LsbValSnoc(Stream()[start..start + i], b);
        assert Stream()[start..start + i + 1] == Stream()[start..start + i] + [b];
        v := v + b * Pow2(i);
      }
      r := Ok(v);
    }

    /** Moves to the next byte boundary. */
    method Align()
      requires Valid()
      modifies this
      ensures Valid() && bit == 0
      ensures old(Pos()) <= Pos() < old(Pos()) + 8
    {
      if bit != 0 {
        bit := 0;
        byte := byte + 1;
      }
    }
  }
}
