/** The one-level formats Q4_0, Q8_0 and Q8_K, over exact reals. Q4_0 and Q8_0 quantise against the scale as it is
    stored, so the rounding of the scale to f16 (the parameter `half`) costs nothing inside the code range. */
module SingleScale {
  import opened Packing
  import opened Rounding

  datatype Error = BadLength | OutputTooShort

  const QK := 32

  lemma ZeroMax(ws: seq<real>, j: nat)
    requires |ws| == QK && j < QK
    ensures Peak(ws) == 0.0 ==> ws[j] == 0.0
  {
    PeakBound(ws, j);
  }

  function InverseOrZero(s: real): real {
    if s == 0.0 then 0.0 else 1.0 / s
  }

  function Quotient(v: real, s: real): real {
    v * InverseOrZero(s)
  }

  lemma QuotientScales(v: real, s: real)
    requires s > 0.0
    ensures s * Quotient(v, s) == v
  {
    InverseScales(s, v);
  }

  // ----- one weight -----

  /** Q4_0: shifted by 8.5, clamped to the nibble range, truncated, and read back around 8. */
  function Nibble(v: real, s: real): int {
    Clamp(Quotient(v, s) + 8.5, 0.0, 15.0).Floor
  }

  /** Q8_0 and Q8_K: rounded, clamped. */
  function Int8(v: real, s: real): int {
    Clamp(Round(Quotient(v, s)) as real, -127.0, 127.0).Floor
  }

  /** A code times its scale. */
  function Scaled(d: real, q: int): real {
    d * q as real
  }

  /** A Q4_0 weight is within half the scale exactly if it lies between -8.5 and 7.5 scales. */
  lemma Q4_0WeightExact(v: real, s: real)
    requires s > 0.0
    ensures 0 <= Nibble(v, s) <= 15
    ensures Abs(v - Scaled(s, Nibble(v, s) - 8)) <= s / 2.0 <==> -8.5 * s <= v <= 7.5 * s
  {
    hide Quotient, Abs;
    QuotientScales(v, s);
    var t := Quotient(v, s);
    NibbleRange(t);
    HalfStepExact(v, s, t, Nibble(v, s) - 8, -8.5, 7.5, s * -8.5, s * 7.5);
  }

  lemma NibbleRange(t: real)
    ensures var n := Clamp(t + 8.5, 0.0, 15.0).Floor;
            0 <= n <= 15 && (Abs(t - (n - 8) as real) <= 0.5 <==> -8.5 <= t <= 7.5)
  {
  }

  /** A Q8_0 or Q8_K weight is within half the scale exactly if it lies between -127.5 and 127.5 scales. */
  lemma Int8WeightExact(v: real, s: real)
    requires s > 0.0
    ensures -127 <= Int8(v, s) <= 127
    ensures Abs(v - Scaled(s, Int8(v, s))) <= s / 2.0 <==> -127.5 * s <= v <= 127.5 * s
  {
    hide Quotient, Abs;
    QuotientScales(v, s);
    var t := Quotient(v, s);
    Int8Range(t);
    HalfStepExact(v, s, t, Int8(v, s), -127.5, 127.5, s * -127.5, s * 127.5);
  }

  lemma Int8Range(t: real)
    ensures var n := Clamp(Round(t) as real, -127.0, 127.0).Floor;
            -127 <= n <= 127 && (Abs(t - n as real) <= 0.5 <==> -127.5 <= t <= 127.5)
  {
  }

  /** Scaling a bound on t - c, and a range of t, by s. */
  lemma HalfStepExact(v: real, s: real, t: real, c: int, lo: real, hi: real, vlo: real, vhi: real)
    requires s > 0.0 && v == s * t && vlo == s * lo && vhi == s * hi
    requires Abs(t - c as real) <= 0.5 <==> lo <= t <= hi
    ensures Abs(v - Scaled(s, c)) <= s / 2.0 <==> vlo <= v <= vhi
  {
    var gap, p := t - c as real, Scaled(s, c);
    var e := s * gap;
    GapScaled(s, t, c as real, v, p, e);
    OrderScaled(s, gap, 0.5, e, s / 2.0);
    OrderScaled(s, -0.5, gap, -s / 2.0, e);
    OrderScaled(s, lo, t, vlo, v);
    OrderScaled(s, t, hi, v, vhi);
  }

  lemma GapScaled(s: real, t: real, c: real, v: real, p: real, e: real)
    requires v == s * t && p == s * c && e == s * (t - c)
    ensures e == v - p
  {
  }

  lemma OrderScaled(s: real, a: real, b: real, sa: real, sb: real)
    requires s > 0.0 && sa == s * a && sb == s * b
    ensures a <= b <==> sa <= sb
  {
    if a <= b {
      ScaleOrder(s, a, b);
    } else {
      ScaleStrict(s, b, a);
    }
  }

  // ----- Q4_0 blocks -----

  datatype BlockQ4_0 = BlockQ4_0(d: real, qs: seq<bv8>) {
    predicate Valid() {
      |qs| == 16
    }

    function Weight(j: nat): real
      requires Valid() && j < QK
    {
      Scaled(d, Lane(qs, 4, j) as int - 8)
    }
  }

  function Nibbles(ws: seq<real>, s: real): (ns: seq<bv8>)
    ensures |ns| == |ws|
  {
    seq(|ws|, j requires 0 <= j < |ws| => ToByte(Nibble(ws[j], s)))
  }

  /** The scale as stored, and for a nonzero chunk the nibbles against it; a zero chunk has nibble 8 throughout. */
  ghost predicate EncodesQ4_0(b: BlockQ4_0, ws: seq<real>, half: real -> real)
    requires |ws| == QK
  {
    && b.Valid()
    && if Peak(ws) == 0.0 then b.d == 0.0 && forall j :: 0 <= j < QK ==> Lane(b.qs, 4, j) == 8
       else b.d == half(Peak(ws) / 7.0) && Filled(b.qs, 4, Nibbles(ws, b.d), QK, QK)
  }

  method QuantizeBlockQ4_0(chunk: seq<real>, half: real -> real) returns (b: BlockQ4_0)
    requires |chunk| == QK
    ensures EncodesQ4_0(b, chunk, half)
  {
    hide Peak, Nibble, ToByte, Filled, LowNibble;
    var maxAbs := LargestMagnitude(chunk);
    if maxAbs == 0.0 {
      b := BlockQ4_0(0.0, seq(16, _ => 0x88));
      EightsEverywhere(b.qs);
      return;
    }
    var d := half(maxAbs / 7.0);
    var invScale := if d == 0.0 then 0.0 else 1.0 / d;
    var qs := new bv8[16](_ => 0);
    ghost var codes := Nibbles(chunk, d);
    FilledStart(qs[..], 4, codes, QK);
    for j := 0 to QK
      invariant Filled(qs[..], 4, codes, j, QK)
    {
      var nibble := ToNibble(chunk[j], invScale, d);
      PutLane(qs, 4, j, nibble, codes, QK);
    }
    b := BlockQ4_0(d, qs[..]);
  }

  method ToNibble(v: real, inv: real, ghost s: real) returns (n: bv8)
    requires inv == InverseOrZero(s)
    ensures n == ToByte(Nibble(v, s)) && n <= 0x0F
  {
    hide ToByte;
    var c := Clamp(v * inv + 8.5, 0.0, 15.0).Floor;
    assert c == Nibble(v, s) by {
      assert v * inv == Quotient(v, s);
    }
    n := ToByte(c);
    ToByteSmall(c);
  }

  lemma EightsEverywhere(qs: seq<bv8>)
    requires |qs| == 16 && forall k :: 0 <= k < 16 ==> qs[k] == 0x88
    ensures forall j :: 0 <= j < QK ==> Lane(qs, 4, j) == 8
  {
    forall j | 0 <= j < QK
      ensures Lane(qs, 4, j) == 8
    {
      if j % 2 == 0 {} else {}
    }
  }

  /** With a positive stored scale, a weight of a Q4_0 block is within half that scale exactly if it lies between
      -8.5 and 7.5 scales. A zero chunk is reproduced. */
  lemma Q4_0Error(b: BlockQ4_0, ws: seq<real>, half: real -> real, j: nat)
    requires |ws| == QK && j < QK && EncodesQ4_0(b, ws, half)
    ensures b.d > 0.0 && Peak(ws) > 0.0 ==>
              (Abs(ws[j] - b.Weight(j)) <= b.d / 2.0 <==> -8.5 * b.d <= ws[j] <= 7.5 * b.d)
    ensures Peak(ws) == 0.0 ==> b.Weight(j) == ws[j] == 0.0
  {
    hide Nibble, ToByte, Lane, Peak, Abs;
    ZeroMax(ws, j);
    if b.d > 0.0 && Peak(ws) > 0.0 {
      Q4_0WeightExact(ws[j], b.d);
      ToByteInt(Nibble(ws[j], b.d));
    }
  }

  // ----- Q8_0 blocks -----

  datatype BlockQ8_0 = BlockQ8_0(d: real, qs: seq<int>) {
    predicate Valid() {
      |qs| == QK
    }

    function Weight(j: nat): real
      requires Valid() && j < QK
    {
      Scaled(d, qs[j])
    }
  }

  ghost predicate EncodesQ8_0(b: BlockQ8_0, ws: seq<real>, half: real -> real)
    requires |ws| == QK
  {
    && b.Valid()
    && b.d == (if Peak(ws) == 0.0 then 0.0 else half(Peak(ws) / 127.0))
    && forall j :: 0 <= j < QK ==> b.qs[j] == if Peak(ws) == 0.0 then 0 else Int8(ws[j], b.d)
  }

  method QuantizeBlockQ8_0(chunk: seq<real>, half: real -> real) returns (b: BlockQ8_0)
    requires |chunk| == QK
    ensures EncodesQ8_0(b, chunk, half)
  {
    hide Peak, Int8;
    var maxAbs := LargestMagnitude(chunk);
    if maxAbs == 0.0 {
      return BlockQ8_0(0.0, seq(QK, _ => 0));
    }
    var d := half(maxAbs / 127.0);
    var qs := ToInt8s(chunk, d);
    b := BlockQ8_0(d, qs);
  }

  method ToInt8s(chunk: seq<real>, s: real) returns (qs: seq<int>)
    ensures |qs| == |chunk| && forall j :: 0 <= j < |chunk| ==> qs[j] == Int8(chunk[j], s)
  {
    hide Int8, Round;
    var invScale := if s == 0.0 then 0.0 else 1.0 / s;
    qs := [];
    for j := 0 to |chunk|
      invariant |qs| == j && forall i :: 0 <= i < j ==> qs[i] == Int8(chunk[i], s)
    {
      var q := ToInt8(chunk[j], invScale, s);
      qs := qs + [q];
    }
  }

  method ToInt8(v: real, inv: real, ghost s: real) returns (q: int)
    requires inv == InverseOrZero(s)
    ensures q == Int8(v, s)
  {
    hide Round;
    var r := Round(v * inv);
    assert r == Round(Quotient(v, s)) by {
      assert v * inv == Quotient(v, s);
    }
    q := Clamp(r as real, -127.0, 127.0).Floor;
  }

  /** With a positive stored scale, a weight of a Q8_0 block is within half that scale exactly if it lies between
      -127.5 and 127.5 scales. A zero chunk is reproduced. */
  lemma Q8_0Error(b: BlockQ8_0, ws: seq<real>, half: real -> real, j: nat)
    requires |ws| == QK && j < QK && EncodesQ8_0(b, ws, half)
    ensures b.d > 0.0 && Peak(ws) > 0.0 ==>
              (Abs(ws[j] - b.Weight(j)) <= b.d / 2.0 <==> -127.5 * b.d <= ws[j] <= 127.5 * b.d)
    ensures Peak(ws) == 0.0 ==> b.Weight(j) == ws[j] == 0.0
  {
    hide Int8, Peak, Abs;
    ZeroMax(ws, j);
    if b.d > 0.0 && Peak(ws) > 0.0 {
      Int8WeightExact(ws[j], b.d);
    }
  }

  // ----- rounding the scale to f16 -----

  /** With f16 rounding of a scale in range, every weight of a nonzero chunk is within half the stored scale. */
  lemma Q4_0HalfScale(b: BlockQ4_0, ws: seq<real>, half: real -> real, j: nat)
    requires |ws| == QK && j < QK && EncodesQ4_0(b, ws, half)
    requires HalfPrecision(half, Peak(ws) / 7.0)
    ensures Abs(ws[j] - b.Weight(j)) <= b.d / 2.0 <= Peak(ws) / 13.99
  {
    hide Peak;
    Q4_0Error(b, ws, half, j);
    PeakBound(ws, j);
  }

  lemma Q8_0HalfScale(b: BlockQ8_0, ws: seq<real>, half: real -> real, j: nat)
    requires |ws| == QK && j < QK && EncodesQ8_0(b, ws, half)
    requires HalfPrecision(half, Peak(ws) / 127.0)
    ensures Abs(ws[j] - b.Weight(j)) <= b.d / 2.0 <= Peak(ws) / 253.8
  {
    hide Peak;
    Q8_0Error(b, ws, half, j);
    PeakBound(ws, j);
  }

  // ----- Q8_K blocks -----

  datatype BlockQ8K = BlockQ8K(d: real, qs: seq<int>, bsums: seq<int>) {
    predicate Valid() {
      |qs| == QK_K && |bsums| == 16
    }

    function Weight(i: nat): real
      requires Valid() && i < QK_K
    {
      Scaled(d, qs[i])
    }
  }

  /** The sum of n codes from lo. */
  function SumOf(qs: seq<int>, lo: nat, n: nat): int
    requires lo + n <= |qs|
  {
    if n == 0 then 0 else SumOf(qs, lo, n - 1) + qs[lo + n - 1]
  }

  function ClampI16(x: int): int {
    if x < -32768 then -32768 else if x > 32767 then 32767 else x
  }

  lemma {:induction false} SumBound(qs: seq<int>, lo: nat, n: nat)
    requires lo + n <= |qs| && forall i :: 0 <= i < |qs| ==> -127 <= qs[i] <= 127
    ensures -127 * n <= SumOf(qs, lo, n) <= 127 * n
  {
    if n > 0 {
      SumBound(qs, lo, n - 1);
    }
  }

  /** Codes within half the scale everywhere, and exact group sums: the clamp to 16 bits is idle. */
  method QuantizeBlockQ8K(chunk: seq<real>) returns (b: BlockQ8K)
    requires |chunk| == QK_K
    ensures b.Valid() && b.d == Peak(chunk) / 127.0
    ensures forall i :: 0 <= i < QK_K ==> -127 <= b.qs[i] <= 127 && Abs(chunk[i] - b.Weight(i)) <= b.d / 2.0
    ensures forall g :: 0 <= g < 16 ==> b.bsums[g] == SumOf(b.qs, 16 * g, 16)
  {
    hide Peak, Int8;
    var maxAbs := LargestMagnitude(chunk);
    var d := if maxAbs > 0.0 then maxAbs / 127.0 else 0.0;
    var qs := ToInt8s(chunk, d);
    forall i | 0 <= i < QK_K
      ensures -127 <= qs[i] <= 127 && Abs(chunk[i] - Scaled(d, qs[i])) <= d / 2.0
    {
      PeakBound(chunk, i);
      if d > 0.0 {
        Int8WeightExact(chunk[i], d);
      } else {
        ZeroInt8(chunk[i], d);
      }
    }
    var bsums: seq<int> := [];
    for group := 0 to 16
      invariant |bsums| == group && forall g :: 0 <= g < group ==> bsums[g] == SumOf(qs, 16 * g, 16)
    {
      var sum := 0;
      for k := 0 to 16
        invariant sum == SumOf(qs, 16 * group, k)
      {
        sum := sum + qs[16 * group + k];
      }
      SumBound(qs, 16 * group, 16);
      bsums := bsums + [ClampI16(sum)];
    }
    b := BlockQ8K(d, qs, bsums);
  }

  lemma ZeroInt8(v: real, d: real)
    requires d == 0.0
    ensures Int8(v, d) == 0 && Scaled(d, 0) == 0.0
  {
    assert Quotient(v, d) == 0.0;
  }
}
