/** Where the packed formats keep their numbers: every stored byte, and every weight read back, in terms of the bytes as
    numbers. */
module ByteLayouts {
  import Asymmetric
  import AsymmetricBlocks
  import OneBit
  import SingleScale
  import SymmetricBlocks
  import Ternary

  import opened Bits
  import opened Packing

  // ----- bit fields as digits -----

  /** The number in the w bits from bit w * i of the bytes, each byte starting with its lowest bit. */
  function Digit(qs: seq<bv8>, w: nat, i: nat): nat
    requires Width(w) && i * w / 8 < |qs|
  {
    qs[i * w / 8] as int / Pow2(i * w % 8) % Pow2(w)
  }

  lemma MaskBit(x: bv8)
    ensures (x & 0x01) as int == x as int % 2
  {
  }

  lemma MaskPair(x: bv8)
    ensures (x & 0x03) as int == x as int % 4
  {
  }

  lemma MaskNibble(x: bv8)
    ensures (x & 0x0F) as int == x as int % 16
  {
  }

  lemma Shift1(x: bv8)
    ensures (x >> 1) as int == x as int / 2
  {
  }

  lemma Shift2(x: bv8)
    ensures (x >> 2) as int == x as int / 4
  {
  }

  lemma Shift3(x: bv8)
    ensures (x >> 3) as int == x as int / 8
  {
  }

  lemma Shift4(x: bv8)
    ensures (x >> 4) as int == x as int / 16
  {
  }

  lemma Shift5(x: bv8)
    ensures (x >> 5) as int == x as int / 32
  {
  }

  lemma Shift6(x: bv8)
    ensures (x >> 6) as int == x as int / 64
  {
  }

  lemma Shift7(x: bv8)
    ensures (x >> 7) as int == x as int / 128
  {
  }

  /** x shifted right is y. */
  predicate Shifted(b: bv8, s: nat, y: bv8)
    requires s < 8
  {
    b >> s == y
  }

  lemma ShiftInt(b: bv8, s: nat) returns (y: bv8)
    requires s < 8
    ensures Shifted(b, s, y) && y as int == b as int / Pow2(s)
  {
    y := b >> s;
    match s
    case 0 =>
    case 1 => Shift1(b);
    case 2 => Shift2(b);
    case 3 => Shift3(b);
    case 4 => Shift4(b);
    case 5 => Shift5(b);
    case 6 => Shift6(b);
    case 7 => Shift7(b);
  }

  lemma FieldShifted(b: bv8, s: nat, y: bv8, mask: bv8)
    requires s < 8 && Shifted(b, s, y)
    ensures Field(b, s, mask) == y & mask
  {
  }

  lemma BitDigit(b: bv8, s: nat)
    requires s < 8
    ensures Field(b, s, 0x01) as int == b as int / Pow2(s) % 2
  {
    hide Field, Pow2, Shifted;
    var y := ShiftInt(b, s);
    FieldShifted(b, s, y, 0x01);
    MaskBit(y);
  }

  lemma TwoBitDigit(b: bv8, s: nat)
    requires s < 8
    ensures Field(b, s, 0x03) as int == b as int / Pow2(s) % 4
  {
    hide Field, Pow2, Shifted;
    var y := ShiftInt(b, s);
    FieldShifted(b, s, y, 0x03);
    MaskPair(y);
  }

  lemma NibbleDigit(b: bv8, s: nat)
    requires s < 8
    ensures Field(b, s, 0x0F) as int == b as int / Pow2(s) % 16
  {
    hide Field, Pow2, Shifted;
    var y := ShiftInt(b, s);
    FieldShifted(b, s, y, 0x0F);
    MaskNibble(y);
  }

  /** Code i of a plane is digit i of its bytes. */
  lemma LaneDigit(qs: seq<bv8>, w: nat, i: nat)
    requires Width(w) && i * w / 8 < |qs|
    ensures ByteIndex(w, i) == i * w / 8 && Lane(qs, w, i) as int == Digit(qs, w, i)
  {
    assert Pow2(1) == 2 && Pow2(2) == 4 && Pow2(4) == 16;
    hide Field, Pow2;
    if w == 1 {
      BitDigit(qs[i / 8], i % 8);
    } else if w == 2 {
      assert i * 2 / 8 == i / 4 && i * 2 % 8 == 2 * (i % 4);
      TwoBitDigit(qs[i / 4], 2 * (i % 4));
    } else {
      assert i * 4 / 8 == i / 2 && i * 4 % 8 == 4 * (i % 2);
      NibbleDigit(qs[i / 2], 4 * (i % 2));
    }
  }

  /** Or-ing into vacant bits adds. */
  lemma OrAdds(x: bv8, y: bv8, s: nat)
    requires s < 8 && (s == 2 || s == 4 || s == 6) && x as int < Pow2(s) && y as int < Pow2(8 - s)
    ensures OrAt(x, y, s) as int == x as int + Pow2(s) * y as int
  {
    assert Pow2(2) == 4 && Pow2(4) == 16 && Pow2(6) == 64;
    hide Pow2;
    if s == 2 {
      Or2(x, y);
    } else if s == 4 {
      Or4(x, y);
    } else {
      Or6(x, y);
    }
  }

  lemma Or2(x: bv8, y: bv8)
    requires x < 4 && y < 64
    ensures (x | (y << 2)) as int == x as int + 4 * y as int
  {
  }

  lemma Or4(x: bv8, y: bv8)
    requires x < 16 && y < 16
    ensures (x | (y << 4)) as int == x as int + 16 * y as int
  {
  }

  lemma Or6(x: bv8, y: bv8)
    requires x < 64 && y < 4
    ensures (x | (y << 6)) as int == x as int + 64 * y as int
  {
  }

  // ----- six-bit scales and mins -----

  lemma NibblesOf(b: bv8)
    ensures LowNibble(b) as int == b as int % 16 && HighNibble(b) as int == b as int / 16 % 16
    ensures Hi(b) as int == b as int / 16 % 4
  {
    Shift4(b);
    MaskNibble(b);
    MaskNibble(b >> 4);
    MaskPair(b >> 4);
  }

  /** The numbers in a byte of low nibbles and in a byte of high parts. */
  function LowNumber(v: seq<bv8>, k: nat): nat
    requires |v| == 8 && k < 4
  {
    v[2 * k] as int % 16 + 16 * (v[2 * k + 1] as int % 16)
  }

  function HighNumber(v: seq<bv8>, g: nat): nat
    requires |v| == 8 && g < 2
  {
    v[4 * g] as int / 16 % 4 + 4 * (v[4 * g + 1] as int / 16 % 4)
    + 16 * (v[4 * g + 2] as int / 16 % 4) + 64 * (v[4 * g + 3] as int / 16 % 4)
  }

  /** The low bytes: two values to a byte, the even one in the low nibble. */
  lemma LowByteIs(v: seq<bv8>, k: nat)
    requires |v| == 8 && k < 4
    ensures LowByte(v, k) as int == LowNumber(v, k)
  {
    NibblesOf(v[2 * k]);
    NibblesOf(v[2 * k + 1]);
    assert Pow2(4) == 16;
    hide LowNibble, OrAt, Pow2;
    OrAdds(LowNibble(v[2 * k]), LowNibble(v[2 * k + 1]), 4);
  }

  /** The high bytes: bits 4 and 5 of four values, the first in the low bits. */
  lemma HighByteIs(v: seq<bv8>, g: nat)
    requires |v| == 8 && g < 2
    ensures HighByte(v, 4 * g, 4) as int == HighNumber(v, g)
  {
    var base := 4 * g;
    assert Pow2(2) == 4 && Pow2(4) == 16 && Pow2(6) == 64;
    hide Pow2;
    HighParts(v, base);
    var a, b, c, d := Hi(v[base]), Hi(v[base + 1]), Hi(v[base + 2]), Hi(v[base + 3]);
    hide Hi, OrAt, HighByte;
    OrAdds(a, b, 2);
    OrAdds(OrAt(a, b, 2), c, 4);
    OrAdds(OrAt(OrAt(a, b, 2), c, 4), d, 6);
  }

  lemma HighParts(v: seq<bv8>, base: nat)
    requires base + 4 <= |v|
    ensures HighByte(v, base, 4) ==
            OrAt(OrAt(OrAt(Hi(v[base]), Hi(v[base + 1]), 2), Hi(v[base + 2]), 4), Hi(v[base + 3]), 6)
    ensures Hi(v[base]) as int == v[base] as int / 16 % 4 && Hi(v[base + 1]) as int == v[base + 1] as int / 16 % 4
    ensures Hi(v[base + 2]) as int == v[base + 2] as int / 16 % 4
    ensures Hi(v[base + 3]) as int == v[base + 3] as int / 16 % 4
  {
    NibblesOf(v[base]);
    NibblesOf(v[base + 1]);
    NibblesOf(v[base + 2]);
    NibblesOf(v[base + 3]);
    OrZero(Hi(v[base]));
    hide Hi, OrAt;
    assert HighByte(v, base, 1) == OrAt(HighByte(v, base, 0), Hi(v[base]), 0);
    assert HighByte(v, base, 2) == OrAt(HighByte(v, base, 1), Hi(v[base + 1]), 2);
    assert HighByte(v, base, 3) == OrAt(HighByte(v, base, 2), Hi(v[base + 2]), 4);
  }

  lemma OrZero(x: bv8)
    ensures OrAt(0, x, 0) == x
  {
  }

  /** The twelve packed bytes as numbers: scales first, then mins, then the high parts of both. */
  lemma PackedBytes(sc: seq<bv8>, mn: seq<bv8>, k: nat)
    requires |sc| == |mn| == 8 && k < 12
    ensures Packed(sc, mn)[k] as int ==
            if k < 4 then LowNumber(sc, k) else if k < 8 then LowNumber(mn, k - 4)
            else if k < 10 then HighNumber(sc, k - 8) else HighNumber(mn, k - 10)
  {
    PackedAt(sc, mn, k);
    hide LowByte, HighByte, Packed, LowNumber, HighNumber;
    if k < 4 {
      LowByteIs(sc, k);
    } else if k < 8 {
      LowByteIs(mn, k - 4);
    } else if k < 10 {
      HighByteIs(sc, k - 8);
    } else {
      HighByteIs(mn, k - 10);
    }
  }

  lemma PackedAt(sc: seq<bv8>, mn: seq<bv8>, k: nat)
    requires |sc| == |mn| == 8 && k < 12
    ensures Packed(sc, mn)[k] ==
            if k < 4 then LowByte(sc, k) else if k < 8 then LowByte(mn, k - 4)
            else if k < 10 then HighByte(sc, 4 * (k - 8), 4) else HighByte(mn, 4 * (k - 10), 4)
  {
    hide LowByte, HighByte;
    if k < 6 {
      if k == 0 {} else if k == 1 {} else if k == 2 {} else if k == 3 {} else if k == 4 {}
    } else {
      if k == 6 {} else if k == 7 {} else if k == 8 {} else if k == 9 {} else if k == 10 {}
    }
  }

  /** A scale or min is a nibble and a two-bit digit of the twelve bytes. */
  lemma UnpackedValues(raw: seq<bv8>, j: nat)
    requires |raw| == 12 && j < 8
    ensures UnpackedScales(raw)[j] as int == Digit(raw, 4, j) + 16 * Digit(raw, 2, 32 + j)
    ensures UnpackedMins(raw)[j] as int == Digit(raw, 4, 8 + j) + 16 * Digit(raw, 2, 40 + j)
  {
    hide SixBits, Digit;
    SixBitsValue(raw, 0, 8, j);
    SixBitsValue(raw, 4, 10, j);
  }

  lemma SixBitsValue(raw: seq<bv8>, low: nat, high: nat, j: nat)
    requires |raw| == 12 && low + 4 <= 12 && high + 2 <= 12 && j < 8
    ensures (2 * low + j) * 4 / 8 < 12 && (4 * high + j) * 2 / 8 < 12
    ensures SixBits(raw, low, high, j) as int == Digit(raw, 4, 2 * low + j) + 16 * Digit(raw, 2, 4 * high + j)
  {
    NibbleLane(raw, low, j);
    PairLane(raw, high, j);
    assert Pow2(4) == 16;
    hide NibbleAt, TwoBits, OrAt, Pow2, Digit;
    OrAdds(NibbleAt(raw, low, j), TwoBits(raw[high + j / 4], j % 4), 4);
  }

  lemma NibbleLane(raw: seq<bv8>, low: nat, j: nat)
    requires low + 4 <= |raw| && j < 8
    ensures (2 * low + j) * 4 / 8 < |raw| && NibbleAt(raw, low, j) as int == Digit(raw, 4, 2 * low + j) < 16
  {
    var i := 2 * low + j;
    assert i / 2 == low + j / 2 && i % 2 == j % 2 && i * 4 / 8 == i / 2;
    LaneDigit(raw, 4, i);
    hide Digit;
    NibbleIsField(raw[i / 2]);
  }

  lemma NibbleIsField(b: bv8)
    ensures LowNibble(b) == Field(b, 0, 0x0F) && HighNibble(b) == Field(b, 4, 0x0F)
    ensures LowNibble(b) < 16 && HighNibble(b) < 16
  {
  }

  lemma PairLane(raw: seq<bv8>, high: nat, j: nat)
    requires high + 2 <= |raw| && j < 8
    ensures (4 * high + j) * 2 / 8 < |raw|
    ensures TwoBits(raw[high + j / 4], j % 4) as int == Digit(raw, 2, 4 * high + j) < 4
  {
    var i := 4 * high + j;
    assert i / 4 == high + j / 4 && i % 4 == j % 4 && i * 2 / 8 == i / 4;
    LaneDigit(raw, 2, i);
    assert Pow2(2) == 4;
    hide Field, Pow2;
  }

  // ----- weights -----

  lemma Q2KWeight(b: AsymmetricBlocks.BlockQ2K, i: nat)
    requires b.Valid() && i < 256
    ensures b.Weight(i) == Asymmetric.FromStored(b.d, b.dmin, Digit(b.scales, 4, 2 * (i / 16)),
                                                 Digit(b.scales, 4, 2 * (i / 16) + 1), Digit(b.qs, 2, i))
  {
    LaneDigit(b.qs, 2, i);
    NibblesOf(b.scales[i / 16]);
    DigitPair(b.scales, i / 16);
    hide Lane, Digit, LowNibble, HighNibble, Asymmetric.FromStored;
  }

  lemma DigitPair(qs: seq<bv8>, k: nat)
    requires k < |qs|
    ensures 2 * k * 4 / 8 == (2 * k + 1) * 4 / 8 == k
    ensures Digit(qs, 4, 2 * k) == qs[k] as int % 16 && Digit(qs, 4, 2 * k + 1) == qs[k] as int / 16 % 16
  {
    assert 2 * k * 4 % 8 == 0 && (2 * k + 1) * 4 % 8 == 4;
    assert Pow2(4) == 16 && Pow2(0) == 1;
  }

  /** The scale and the min of sub-block j in twelve bytes. */
  function ScaleAt(raw: seq<bv8>, j: nat): nat
    requires |raw| == 12 && j < 8
  {
    Digit(raw, 4, j) + 16 * Digit(raw, 2, 32 + j)
  }

  function MinAt(raw: seq<bv8>, j: nat): nat
    requires |raw| == 12 && j < 8
  {
    Digit(raw, 4, 8 + j) + 16 * Digit(raw, 2, 40 + j)
  }

  lemma Q4KWeight(b: AsymmetricBlocks.BlockQ4K, i: nat)
    requires b.Valid() && i < 256
    ensures b.Weight(i) == Asymmetric.FromStored(b.d, b.dmin, ScaleAt(b.scales, i / 32), MinAt(b.scales, i / 32),
                                                 Digit(b.qs, 4, i))
  {
    LaneDigit(b.qs, 4, i);
    UnpackedValues(b.scales, i / 32);
    hide Lane, Digit, UnpackedScales, UnpackedMins, Asymmetric.FromStored;
  }

  lemma Q5KWeight(b: AsymmetricBlocks.BlockQ5K, i: nat)
    requires b.Valid() && i < 256
    ensures b.Weight(i) == Asymmetric.FromStored(b.d, b.dmin, ScaleAt(b.scales, i / 32), MinAt(b.scales, i / 32),
                                                 Digit(b.qs, 4, i) + 16 * Digit(b.qh, 1, i))
  {
    UnpackedValues(b.scales, i / 32);
    JoinedDigits(b.qs, b.qh, 4, 1, i);
    assert Pow2(4) == 16;
    hide Lane, Digit, UnpackedScales, UnpackedMins, OrAt, Pow2, Asymmetric.FromStored;
  }

  /** A code split over two planes. */
  lemma JoinedDigits(low: seq<bv8>, high: seq<bv8>, w: nat, w': nat, i: nat)
    requires (w == 2 || w == 4) && (w' == 1 || w' == 2) && i * w / 8 < |low| && i * w' / 8 < |high|
    ensures ByteIndex(w, i) < |low| && ByteIndex(w', i) < |high|
    ensures OrAt(Lane(low, w, i), Lane(high, w', i), w) as int == Digit(low, w, i) + Pow2(w) * Digit(high, w', i)
  {
    LaneDigit(low, w, i);
    LaneDigit(high, w', i);
    assert Pow2(1) == 2 && Pow2(2) == 4 && Pow2(4) == 16 && Pow2(6) == 64;
    hide Lane, OrAt, Pow2;
    OrAdds(Lane(low, w, i), Lane(high, w', i), w);
  }

  lemma Q3KWeight(b: SymmetricBlocks.BlockQ3K, i: nat)
    requires b.Valid() && i < 256
    ensures b.Weight(i) == SymmetricBlocks.FromStored(b.d, Digit(b.scales, 4, i / 16) - 8,
                                                      Digit(b.qs, 2, i) + 4 * Digit(b.hmask, 1, i) - 4)
  {
    LaneDigit(b.scales, 4, i / 16);
    JoinedDigits(b.qs, b.hmask, 2, 1, i);
    assert Pow2(2) == 4;
    hide Lane, Digit, OrAt, Pow2, SymmetricBlocks.FromStored;
  }

  lemma Q6KWeight(b: SymmetricBlocks.BlockQ6K, i: nat)
    requires b.Valid() && i < 256
    ensures b.Weight(i) == SymmetricBlocks.FromStored(b.d, b.scales[i / 16],
                                                      Digit(b.ql, 4, i) + 16 * Digit(b.qh, 2, i) - 32)
  {
    JoinedDigits(b.ql, b.qh, 4, 2, i);
    assert Pow2(4) == 16;
    hide Lane, Digit, OrAt, Pow2, SymmetricBlocks.FromStored;
  }

  lemma Q4_0Weight(b: SingleScale.BlockQ4_0, i: nat)
    requires b.Valid() && i < 32
    ensures b.Weight(i) == SingleScale.Scaled(b.d, Digit(b.qs, 4, i) - 8)
  {
    LaneDigit(b.qs, 4, i);
    hide Lane, Digit, SingleScale.Scaled;
  }

  /** The two ternary formats pack four codes to a byte. */
  lemma TernarySizes(b: Ternary.BlockTQ2, size: nat)
    requires Ternary.IsSize(size)
    ensures b.Valid(size) <==> |b.qs| == if size == 256 then 64 else 32
  {
  }

  /** Digits 0, 1 and 2 stand for -1, 0 and 1; 3 reads as 0. */
  lemma TernaryWeight(b: Ternary.BlockTQ2, i: nat)
    requires i < |b.qs| * 4
    ensures i * 2 / 8 < |b.qs|
    ensures b.Weight(i) == SingleScale.Scaled(b.d, if Digit(b.qs, 2, i) == 3 then 0 else Digit(b.qs, 2, i) - 1)
  {
    LaneDigit(b.qs, 2, i);
    Ternary.WeightOfCode(b, i);
    Ternary.CodeRange(b, i);
    hide Lane, Digit, SingleScale.Scaled;
  }

  lemma BitWeight(b: OneBit.BlockQ1, i: nat)
    requires b.Valid() && i < 128
    ensures b.Weight(i) == b.d * (2 * Digit(b.qs, 1, i) - 1) as real
  {
    LaneDigit(b.qs, 1, i);
    assert Digit(b.qs, 1, i) < 2 by {
      assert Pow2(1) == 2;
    }
    hide Digit;
  }
}
