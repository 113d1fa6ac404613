/** Bit planes packed with `|=` into zeroed bytes, and the 12-byte packing of eight scales and eight mins. */
module Packing {
  /** The field of `mask` at bit `shift`. */
  function Field(b: bv8, shift: nat, mask: bv8): bv8
    requires shift < 8
  {
    (b >> shift) & mask
  }

  /** `b | (x << shift)` */
  function OrAt(b: bv8, x: bv8, shift: nat): bv8
    requires shift < 8
  {
    b | (x << shift)
  }

  // ----- planes -----

  /** The widths of a plane: codes of w bits, 8 / w in each byte, the first in the low bits. */
  predicate Width(w: nat) {
    w == 1 || w == 2 || w == 4
  }

  function Mask(w: nat): bv8
    requires Width(w)
  {
    if w == 1 then 0x01 else if w == 2 then 0x03 else 0x0F
  }

  function PerByte(w: nat): nat
    requires Width(w)
  {
    if w == 1 then 8 else if w == 2 then 4 else 2
  }

  /** The byte that holds code i. */
  function ByteIndex(w: nat, i: nat): nat
    requires Width(w)
  {
    if w == 1 then i / 8 else if w == 2 then i / 4 else i / 2
  }

  /** The bit at which code i starts in its byte. */
  function ShiftOf(w: nat, i: nat): (s: nat)
    requires Width(w)
    ensures s < 8
  {
    if w == 1 then i % 8 else if w == 2 then 2 * (i % 4) else 4 * (i % 2)
  }

  /** Code i of a plane. */
  function Lane(qs: seq<bv8>, w: nat, i: nat): bv8
    requires Width(w) && ByteIndex(w, i) < |qs|
  {
    Field(qs[ByteIndex(w, i)], ShiftOf(w, i), Mask(w))
  }

  /** `qs[byte] |= q << shift` for code i. */
  function Put(qs: seq<bv8>, w: nat, i: nat, q: bv8): (r: seq<bv8>)
    requires Width(w) && ByteIndex(w, i) < |qs|
    ensures |r| == |qs|
  {
    qs[ByteIndex(w, i) := OrAt(qs[ByteIndex(w, i)], q, ShiftOf(w, i))]
  }

  lemma OrField1(b: bv8, q: bv8, l: nat, k: nat)
    requires l < 8 && k < 8 && q <= 1 && Field(b, l, 1) == 0
    ensures Field(OrAt(b, q, l), k, 1) == if k == l then q else Field(b, k, 1)
  {
    if l < 4 {
      OrField1Low(b, q, l, k);
    } else if l < 6 {
      OrField1Middle(b, q, l, k);
    } else {
      OrField1High(b, q, l, k);
    }
  }

  lemma OrField1Low(b: bv8, q: bv8, l: nat, k: nat)
    requires l < 4 && k < 8 && q <= 1 && Field(b, l, 1) == 0
    ensures Field(OrAt(b, q, l), k, 1) == if k == l then q else Field(b, k, 1)
  {
    if l == 0 {} else if l == 1 {} else if l == 2 {}
    if k == 0 {} else if k == 1 {} else if k == 2 {} else if k == 3 {}
    else if k == 4 {} else if k == 5 {} else if k == 6 {}
  }

  lemma OrField1Middle(b: bv8, q: bv8, l: nat, k: nat)
    requires 4 <= l < 6 && k < 8 && q <= 1 && Field(b, l, 1) == 0
    ensures Field(OrAt(b, q, l), k, 1) == if k == l then q else Field(b, k, 1)
  {
    if l == 4 {}
    if k == 0 {} else if k == 1 {} else if k == 2 {} else if k == 3 {}
    else if k == 4 {} else if k == 5 {} else if k == 6 {}
  }

  lemma OrField1High(b: bv8, q: bv8, l: nat, k: nat)
    requires 6 <= l < 8 && k < 8 && q <= 1 && Field(b, l, 1) == 0
    ensures Field(OrAt(b, q, l), k, 1) == if k == l then q else Field(b, k, 1)
  {
    if l == 6 {}
    if k == 0 {} else if k == 1 {} else if k == 2 {} else if k == 3 {}
    else if k == 4 {} else if k == 5 {} else if k == 6 {}
  }

  lemma OrField2(b: bv8, q: bv8, l: nat, k: nat)
    requires l < 4 && k < 4 && q <= 3 && Field(b, 2 * l, 3) == 0
    ensures Field(OrAt(b, q, 2 * l), 2 * k, 3) == if k == l then q else Field(b, 2 * k, 3)
  {
    if l == 0 {} else if l == 1 {} else if l == 2 {}
    if k == 0 {} else if k == 1 {} else if k == 2 {}
  }

  lemma OrField4(b: bv8, q: bv8, l: nat, k: nat)
    requires l < 2 && k < 2 && q <= 15 && Field(b, 4 * l, 15) == 0
    ensures Field(OrAt(b, q, 4 * l), 4 * k, 15) == if k == l then q else Field(b, 4 * k, 15)
  {
    if l == 0 {}
    if k == 0 {}
  }

  /** Setting a clear lane stores the code there and disturbs no other lane, of this byte or another. */
  lemma PutSetsOneLane(qs: seq<bv8>, w: nat, i: nat, q: bv8)
    requires Width(w) && ByteIndex(w, i) < |qs| && q <= Mask(w) && Lane(qs, w, i) == 0
    ensures forall k: nat :: ByteIndex(w, k) < |qs| ==>
              Lane(Put(qs, w, i, q), w, k) == if k == i then q else Lane(qs, w, k)
  {
    forall k: nat | ByteIndex(w, k) < |qs|
      ensures Lane(Put(qs, w, i, q), w, k) == if k == i then q else Lane(qs, w, k)
    {
      if ByteIndex(w, k) == ByteIndex(w, i) {
        PutInByte(qs, w, i, q, k);
      }
    }
  }

  lemma PutInByte(qs: seq<bv8>, w: nat, i: nat, q: bv8, k: nat)
    requires Width(w) && ByteIndex(w, i) < |qs| && q <= Mask(w) && Lane(qs, w, i) == 0
    requires ByteIndex(w, k) == ByteIndex(w, i)
    ensures Lane(Put(qs, w, i, q), w, k) == if k == i then q else Lane(qs, w, k)
  {
    hide Field, OrAt;
    var b := qs[ByteIndex(w, i)];
    if w == 1 {
      OrField1(b, q, i % 8, k % 8);
    } else if w == 2 {
      OrField2(b, q, i % 4, k % 4);
    } else {
      OrField4(b, q, i % 2, k % 2);
    }
  }

  /** The lanes below n hold the codes; the others are still clear. */
  ghost predicate Filled(qs: seq<bv8>, w: nat, codes: seq<bv8>, n: nat, total: nat)
    requires Width(w)
  {
    && |qs| * PerByte(w) == total && |codes| >= n
    && forall i :: 0 <= i < total ==>
          ByteIndex(w, i) < |qs| && Lane(qs, w, i) == if i < n then codes[i] else 0
  }

  lemma FilledStart(qs: seq<bv8>, w: nat, codes: seq<bv8>, total: nat)
    requires Width(w) && |qs| * PerByte(w) == total && forall j :: 0 <= j < |qs| ==> qs[j] == 0
    ensures Filled(qs, w, codes, 0, total)
  {
    forall i | 0 <= i < total
      ensures ByteIndex(w, i) < |qs| && Lane(qs, w, i) == 0
    {
      ZeroField(ShiftOf(w, i), Mask(w));
    }
  }

  lemma ZeroField(shift: nat, mask: bv8)
    requires shift < 8
    ensures Field(0, shift, mask) == 0
  {
    if shift == 0 {} else if shift == 1 {} else if shift == 2 {} else if shift == 3 {}
    else if shift == 4 {} else if shift == 5 {} else if shift == 6 {}
  }

  lemma FilledStep(qs: seq<bv8>, w: nat, codes: seq<bv8>, n: nat, total: nat, q: bv8)
    requires Width(w) && Filled(qs, w, codes, n, total) && n < total && q <= Mask(w)
    requires n < |codes| && codes[n] == q
    ensures Filled(Put(qs, w, n, q), w, codes, n + 1, total)
  {
    PutSetsOneLane(qs, w, n, q);
  }

  /** One step of a packing loop: `qs[byte] |= q << shift` for code i, when the codes below i are in place. */
  method PutLane(qs: array<bv8>, w: nat, i: nat, q: bv8, ghost codes: seq<bv8>, ghost total: nat)
    requires Width(w) && i < total && i < |codes| && q <= Mask(w) && codes[i] == q
    requires Filled(qs[..], w, codes, i, total)
    modifies qs
    ensures Filled(qs[..], w, codes, i + 1, total)
  {
    hide OrAt, Lane;
    ghost var before := qs[..];
    qs[ByteIndex(w, i)] := OrAt(qs[ByteIndex(w, i)], q, ShiftOf(w, i));
    assert qs[..] == Put(before, w, i, q);
    FilledStep(before, w, codes, i, total, q);
  }

  // ----- six-bit scales and mins -----

  function LowNibble(b: bv8): bv8 {
    b & 0x0F
  }

  function HighNibble(b: bv8): bv8 {
    (b >> 4) & 0x0F
  }

  /** Bits 4 and 5 of a 6-bit value. */
  function Hi(b: bv8): bv8 {
    (b >> 4) & 0x03
  }

  /** Two-bit field k of a byte. */
  function TwoBits(b: bv8, k: nat): bv8
    requires k < 4
  {
    (b >> (2 * k)) & 0x03
  }

  /** The byte that holds the low nibbles of v[2k] and v[2k + 1]. */
  function LowByte(v: seq<bv8>, k: nat): bv8
    requires 2 * k + 1 < |v|
  {
    OrAt(LowNibble(v[2 * k]), LowNibble(v[2 * k + 1]), 4)
  }

  /** The byte that holds the high parts of the first n of v[base], ..., v[base + 3]. */
  function HighByte(v: seq<bv8>, base: nat, n: nat): bv8
    requires n <= 4 && base + 4 <= |v|
  {
    if n == 0 then 0 else OrAt(HighByte(v, base, n - 1), Hi(v[base + n - 1]), 2 * (n - 1))
  }

  function Packed(sc: seq<bv8>, mn: seq<bv8>): (out: seq<bv8>)
    requires |sc| == |mn| == 8
    ensures |out| == 12
  {
    [LowByte(sc, 0), LowByte(sc, 1), LowByte(sc, 2), LowByte(sc, 3),
     LowByte(mn, 0), LowByte(mn, 1), LowByte(mn, 2), LowByte(mn, 3),
     HighByte(sc, 0, 4), HighByte(sc, 4, 4), HighByte(mn, 0, 4), HighByte(mn, 4, 4)]
  }

  /** The low nibble of value j in the four bytes from `low`. */
  function NibbleAt(raw: seq<bv8>, low: nat, j: nat): bv8
    requires j < 8 && low + 4 <= |raw|
  {
    if j % 2 == 0 then LowNibble(raw[low + j / 2]) else HighNibble(raw[low + j / 2])
  }

  /** Value j: its low nibble, and its high part from the two bytes from `high`. */
  function SixBits(raw: seq<bv8>, low: nat, high: nat, j: nat): bv8
    requires j < 8 && low + 4 <= |raw| && high + 2 <= |raw|
  {
    OrAt(NibbleAt(raw, low, j), TwoBits(raw[high + j / 4], j % 4), 4)
  }

  function UnpackedScales(raw: seq<bv8>): (sc: seq<bv8>)
    requires |raw| == 12
    ensures |sc| == 8
  {
    seq(8, j requires 0 <= j < 8 => SixBits(raw, 0, 8, j))
  }

  function UnpackedMins(raw: seq<bv8>): (mn: seq<bv8>)
    requires |raw| == 12
    ensures |mn| == 8
  {
    seq(8, j requires 0 <= j < 8 => SixBits(raw, 4, 10, j))
  }

  /** Packs eight 6-bit scales and eight 6-bit mins into 12 bytes. */
  method EncodeScales(sc: seq<bv8>, mn: seq<bv8>) returns (out: seq<bv8>)
    requires |sc| == |mn| == 8
    ensures out == Packed(sc, mn)
  {
    hide LowByte, HighByte;
    var scLow := PackLow(sc);
    var mnLow := PackLow(mn);
    var b8, b9 := PackHigh(sc);
    var b10, b11 := PackHigh(mn);
    out := scLow + mnLow + [b8, b9, b10, b11];
  }

  method PackLow(v: seq<bv8>) returns (r: seq<bv8>)
    requires |v| == 8
    ensures |r| == 4 && forall k :: 0 <= k < 4 ==> r[k] == LowByte(v, k)
  {
    hide OrAt, LowNibble;
    var out := new bv8[4](_ => 0);
    for i := 0 to 4
      invariant forall k :: 0 <= k < i ==> out[k] == LowByte(v, k)
    {
      out[i] := OrAt(LowNibble(v[2 * i]), LowNibble(v[2 * i + 1]), 4);
    }
    r := out[..];
  }

  method PackHigh(v: seq<bv8>) returns (a: bv8, b: bv8)
    requires |v| == 8
    ensures a == HighByte(v, 0, 4) && b == HighByte(v, 4, 4)
  {
    hide OrAt, Hi;
    a, b := 0, 0;
    for i := 0 to 4
      invariant a == HighByte(v, 0, i) && b == HighByte(v, 4, i)
    {
      a := OrAt(a, Hi(v[i]), 2 * i);
      b := OrAt(b, Hi(v[4 + i]), 2 * i);
    }
  }

  /** Unpacks 12 bytes into eight scales and eight mins. */
  method DecodeScales(raw: seq<bv8>) returns (sc: seq<bv8>, mn: seq<bv8>)
    requires |raw| == 12
    ensures sc == UnpackedScales(raw) && mn == UnpackedMins(raw)
  {
    hide SixBits;
    sc := UnpackHalf(raw, 0, 8);
    mn := UnpackHalf(raw, 4, 10);
  }

  method UnpackHalf(raw: seq<bv8>, low: nat, high: nat) returns (v: seq<bv8>)
    requires |raw| == 12 && low + 4 <= 12 && high + 2 <= 12
    ensures |v| == 8 && forall j :: 0 <= j < 8 ==> v[j] == SixBits(raw, low, high, j)
  {
    hide OrAt, LowNibble, HighNibble, TwoBits, NibbleAt, SixBits;
    var a := new bv8[8](_ => 0);
    for i := 0 to 4
      invariant forall j :: 0 <= j < 2 * i ==> a[j] == NibbleAt(raw, low, j)
    {
      NibblePair(raw, low, i);
      a[2 * i] := LowNibble(raw[low + i]);
      a[2 * i + 1] := HighNibble(raw[low + i]);
    }
    for i := 0 to 4
      invariant forall j :: 0 <= j < 4 ==>
                  a[j] == if j < i then SixBits(raw, low, high, j) else NibbleAt(raw, low, j)
      invariant forall j :: 4 <= j < 8 ==>
                  a[j] == if j < 4 + i then SixBits(raw, low, high, j) else NibbleAt(raw, low, j)
    {
      SixBitsPair(raw, low, high, i);
      a[i] := OrAt(a[i], TwoBits(raw[high], i), 4);
      a[4 + i] := OrAt(a[4 + i], TwoBits(raw[high + 1], i), 4);
    }
    v := a[..];
  }

  lemma NibblePair(raw: seq<bv8>, low: nat, i: nat)
    requires low + 4 <= |raw| && i < 4
    ensures NibbleAt(raw, low, 2 * i) == LowNibble(raw[low + i])
    ensures NibbleAt(raw, low, 2 * i + 1) == HighNibble(raw[low + i])
  {
    assert (2 * i + 1) % 2 == 1;
  }

  lemma SixBitsPair(raw: seq<bv8>, low: nat, high: nat, i: nat)
    requires low + 4 <= |raw| && high + 2 <= |raw| && i < 4
    ensures SixBits(raw, low, high, i) == OrAt(NibbleAt(raw, low, i), TwoBits(raw[high], i), 4)
    ensures SixBits(raw, low, high, 4 + i) == OrAt(NibbleAt(raw, low, 4 + i), TwoBits(raw[high + 1], i), 4)
  {
    hide OrAt, NibbleAt, TwoBits;
    assert (4 + i) / 4 == 1 && (4 + i) % 4 == i;
  }

  // ----- the packing is a bijection -----

  ghost predicate SixBitValues(v: seq<bv8>) {
    |v| == 8 && forall j :: 0 <= j < 8 ==> v[j] < 64
  }

  function Quad(a: bv8, b: bv8, c: bv8, d: bv8): bv8 {
    a | (b << 2) | (c << 4) | (d << 6)
  }

  lemma HighByteIs(v: seq<bv8>, base: nat)
    requires base + 4 <= |v|
    ensures HighByte(v, base, 4) == Quad(Hi(v[base]), Hi(v[base + 1]), Hi(v[base + 2]), Hi(v[base + 3]))
  {
    hide OrAt, Hi, Quad;
    assert HighByte(v, base, 1) == OrAt(0, Hi(v[base]), 0) by {
      assert v[base + 1 - 1] == v[base];
    }
    assert HighByte(v, base, 2) == OrAt(HighByte(v, base, 1), Hi(v[base + 1]), 2);
    assert HighByte(v, base, 3) == OrAt(HighByte(v, base, 2), Hi(v[base + 2]), 4);
    QuadByOr(Hi(v[base]), Hi(v[base + 1]), Hi(v[base + 2]), Hi(v[base + 3]));
  }

  lemma QuadByOr(a: bv8, b: bv8, c: bv8, d: bv8)
    ensures OrAt(OrAt(OrAt(OrAt(0, a, 0), b, 2), c, 4), d, 6) == Quad(a, b, c, d)
  {
  }

  lemma QuadFields(a: bv8, b: bv8, c: bv8, d: bv8)
    requires a < 4 && b < 4 && c < 4 && d < 4
    ensures TwoBits(Quad(a, b, c, d), 0) == a && TwoBits(Quad(a, b, c, d), 1) == b
    ensures TwoBits(Quad(a, b, c, d), 2) == c && TwoBits(Quad(a, b, c, d), 3) == d
  {
  }

  lemma HiSmall(b: bv8)
    ensures Hi(b) < 4
  {
  }

  lemma NibblesOf(x: bv8, y: bv8)
    ensures LowNibble(OrAt(LowNibble(x), LowNibble(y), 4)) == LowNibble(x)
    ensures HighNibble(OrAt(LowNibble(x), LowNibble(y), 4)) == LowNibble(y)
  {
  }

  lemma Rejoin(b: bv8)
    requires b < 64
    ensures OrAt(LowNibble(b), Hi(b), 4) == b
  {
  }

  /** The high byte of four values gives back each high part. */
  lemma HighByteFields(v: seq<bv8>, base: nat, k: nat)
    requires base + 4 <= |v| && k < 4
    ensures TwoBits(HighByte(v, base, 4), k) == Hi(v[base + k])
  {
    hide Hi, HighByte, Quad, TwoBits;
    HighByteIs(v, base);
    HiSmall(v[base]);
    HiSmall(v[base + 1]);
    HiSmall(v[base + 2]);
    HiSmall(v[base + 3]);
    QuadFields(Hi(v[base]), Hi(v[base + 1]), Hi(v[base + 2]), Hi(v[base + 3]));
  }

  lemma HalfRoundTrip(v: seq<bv8>, raw: seq<bv8>, low: nat, high: nat, j: nat)
    requires SixBitValues(v) && j < 8 && low + 4 <= |raw| && high + 2 <= |raw|
    requires raw[low + j / 2] == LowByte(v, j / 2) && raw[high + j / 4] == HighByte(v, j / 4 * 4, 4)
    ensures SixBits(raw, low, high, j) == v[j]
  {
    hide OrAt, Hi, HighByte, TwoBits, LowNibble, HighNibble;
    HighByteFields(v, j / 4 * 4, j % 4);
    assert j == j / 4 * 4 + j % 4;
    NibblesOf(v[j / 2 * 2], v[j / 2 * 2 + 1]);
    Rejoin(v[j]);
  }

  /** Unpacking undoes packing for all 6-bit scales and mins. */
  lemma UnpackPacked(sc: seq<bv8>, mn: seq<bv8>)
    requires SixBitValues(sc) && SixBitValues(mn)
    ensures UnpackedScales(Packed(sc, mn)) == sc && UnpackedMins(Packed(sc, mn)) == mn
  {
    hide SixBits, LowByte, HighByte;
    var raw := Packed(sc, mn);
    forall j | 0 <= j < 8
      ensures SixBits(raw, 0, 8, j) == sc[j] && SixBits(raw, 4, 10, j) == mn[j]
    {
      HalfRoundTrip(sc, raw, 0, 8, j);
      HalfRoundTrip(mn, raw, 4, 10, j);
    }
  }

  lemma SixBitsFields(raw: seq<bv8>, low: nat, high: nat, j: nat)
    requires j < 8 && low + 4 <= |raw| && high + 2 <= |raw|
    ensures var v := SixBits(raw, low, high, j);
            v < 64 && Hi(v) == TwoBits(raw[high + j / 4], j % 4) && LowNibble(v) == NibbleAt(raw, low, j)
  {
    hide OrAt, Hi, TwoBits, LowNibble, HighNibble;
    SmallFields(raw[low + j / 2], raw[high + j / 4], j % 4);
    Join(NibbleAt(raw, low, j), TwoBits(raw[high + j / 4], j % 4));
  }

  lemma SmallFields(a: bv8, b: bv8, k: nat)
    requires k < 4
    ensures LowNibble(a) < 16 && HighNibble(a) < 16 && TwoBits(b, k) < 4
  {
    if k == 0 {} else if k == 1 {} else if k == 2 {}
  }

  lemma Join(n: bv8, h: bv8)
    requires n < 16 && h < 4
    ensures OrAt(n, h, 4) < 64 && Hi(OrAt(n, h, 4)) == h && LowNibble(OrAt(n, h, 4)) == n
  {
  }

  lemma FourFields(b: bv8)
    ensures b == Quad(TwoBits(b, 0), TwoBits(b, 1), TwoBits(b, 2), TwoBits(b, 3))
  {
  }

  lemma TwoNibbles(b: bv8)
    ensures b == OrAt(LowNibble(b), HighNibble(b), 4)
  {
  }

  lemma RepackLow(raw: seq<bv8>, v: seq<bv8>, low: nat, high: nat, k: nat)
    requires |raw| == 12 && low + 4 <= 12 && high + 2 <= 12 && k < 4
    requires |v| == 8
    requires v[2 * k] == SixBits(raw, low, high, 2 * k) && v[2 * k + 1] == SixBits(raw, low, high, 2 * k + 1)
    ensures LowByte(v, k) == raw[low + k]
  {
    hide SixBits, Hi, OrAt, LowNibble, HighNibble;
    SixBitsFields(raw, low, high, 2 * k);
    SixBitsFields(raw, low, high, 2 * k + 1);
    assert (2 * k) % 2 == 0 && (2 * k + 1) % 2 == 1 && (2 * k) / 2 == k && (2 * k + 1) / 2 == k;
    TwoNibbles(raw[low + k]);
  }

  lemma RepackHigh(raw: seq<bv8>, v: seq<bv8>, low: nat, high: nat, g: nat)
    requires |raw| == 12 && low + 4 <= 12 && high + 2 <= 12 && g < 2
    requires |v| == 8 && forall j :: 0 <= j < 8 ==> v[j] == SixBits(raw, low, high, j)
    ensures HighByte(v, 4 * g, 4) == raw[high + g]
  {
    hide SixBits, Hi, HighByte, Quad, TwoBits, NibbleAt;
    HighByteIs(v, 4 * g);
    SixBitsFields(raw, low, high, 4 * g);
    SixBitsFields(raw, low, high, 4 * g + 1);
    SixBitsFields(raw, low, high, 4 * g + 2);
    SixBitsFields(raw, low, high, 4 * g + 3);
    FourFields(raw[high + g]);
  }

  lemma HalfRepack(raw: seq<bv8>, v: seq<bv8>, low: nat, high: nat)
    requires |raw| == 12 && low + 4 <= 12 && high + 2 <= 12
    requires |v| == 8 && forall j :: 0 <= j < 8 ==> v[j] == SixBits(raw, low, high, j)
    ensures forall k :: 0 <= k < 4 ==> LowByte(v, k) == raw[low + k]
    ensures HighByte(v, 0, 4) == raw[high] && HighByte(v, 4, 4) == raw[high + 1]
    ensures SixBitValues(v)
  {
    hide SixBits, Hi, HighByte, LowByte;
    forall k | 0 <= k < 4
      ensures LowByte(v, k) == raw[low + k]
    {
      RepackLow(raw, v, low, high, k);
    }
    RepackHigh(raw, v, low, high, 0);
    RepackHigh(raw, v, low, high, 1);
    forall j | 0 <= j < 8
      ensures v[j] < 64
    {
      SixBitsFields(raw, low, high, j);
    }
  }

  /** Packing undoes unpacking for all 12 bytes: the packing is a bijection of 96 bits. */
  lemma PackUnpacked(raw: seq<bv8>)
    requires |raw| == 12
    ensures SixBitValues(UnpackedScales(raw)) && SixBitValues(UnpackedMins(raw))
    ensures Packed(UnpackedScales(raw), UnpackedMins(raw)) == raw
  {
    hide SixBits, HighByte, LowByte;
    HalfRepack(raw, UnpackedScales(raw), 0, 8);
    HalfRepack(raw, UnpackedMins(raw), 4, 10);
  }
}
