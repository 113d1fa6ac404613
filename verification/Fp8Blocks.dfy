/** The FP8 blocks: 32 codes and one scale. Weights are real numbers; rounding the scale to f16 is the parameter `half`,
    and the f32 quotient of a weight by the scale is the parameter `quotient`. */
module Fp8Blocks {
  import opened Bits
  import opened F32Rounding
  import opened Fp8
  import opened Fp8Laws
  import opened Results
  import opened Rounding
  import opened Sequences

  datatype Error = BadLength | OutputTooShort

  const QK_FP8 := 32

  /** The two formats. */
  datatype Kind = KE4M3 | KE5M2

  function Largest(k: Kind): real {
    if k.KE4M3? then 448.0 else 57344.0
  }

  function EncodeAs(k: Kind, q: F32): Byte {
    if k.KE4M3? then E4M3Encode(q) else E5M2Encode(q)
  }

  function DecodeAs(k: Kind, b: Byte): Decoded {
    if k.KE4M3? then E4M3Decode(b) else E5M2Decode(b)
  }

  /** A weight read back: a number, or what f32 makes of an infinite code. */
  datatype Weight = Number(x: real) | Overflow(neg: bool) | Invalid

  function ScaleBy(d: real, x: real): real {
    d * x
  }

  function Times(d: real, w: Decoded): Weight {
    match w
    case NaN => Invalid
    case Infinite(neg) => if d == 0.0 then Invalid else Overflow(neg != (d < 0.0))
    case Finite(_, _) => Number(ScaleBy(d, Real(DecodedValue(w))))
  }

  datatype BlockFP8 = BlockFP8(qs: seq<Byte>, d: real) {
    predicate Valid() {
      |qs| == QK_FP8
    }

    function At(k: Kind, j: nat): Weight
      requires Valid() && j < QK_FP8
    {
      Times(d, DecodeAs(k, qs[j]))
    }
  }

  /** The code of weight v against the stored scale d. */
  function CodeOf(k: Kind, v: real, d: real, quotient: (real, real) -> F32): Byte {
    EncodeAs(k, if d == 0.0 then 0 else quotient(v, d))
  }

  ghost predicate Encodes(k: Kind, b: BlockFP8, ws: seq<real>, half: real -> real, quotient: (real, real) -> F32) {
    && b.Valid() && |ws| == QK_FP8
    && if Peak(ws) == 0.0 then b.d == 0.0 && forall j :: 0 <= j < QK_FP8 ==> b.qs[j] == 0
       else b.d == half(Peak(ws) / Largest(k))
            && forall j :: 0 <= j < QK_FP8 ==> b.qs[j] == CodeOf(k, ws[j], b.d, quotient)
  }

  method QuantizeBlock(k: Kind, chunk: seq<real>, half: real -> real, quotient: (real, real) -> F32)
    returns (b: BlockFP8)
    requires |chunk| == QK_FP8
    ensures Encodes(k, b, chunk, half, quotient)
  {
    hide EncodeAs;
    var maxAbs := LargestMagnitude(chunk);
    if maxAbs == 0.0 {
      return BlockFP8(seq(QK_FP8, _ => 0), 0.0);
    }
    var d := half(maxAbs / Largest(k));
    var qs := new Byte[QK_FP8](_ => 0);
    for j := 0 to QK_FP8
      invariant forall i :: 0 <= i < j ==> qs[i] == CodeOf(k, chunk[i], d, quotient)
    {
      var scaled := if d == 0.0 then 0 else quotient(chunk[j], d);
      qs[j] := EncodeAs(k, scaled);
    }
    b := BlockFP8(qs[..], d);
  }

  method Quantize(k: Kind, values: seq<real>, half: real -> real, quotient: (real, real) -> F32)
    returns (r: Result<seq<BlockFP8>, Error>)
    ensures |values| % QK_FP8 != 0 <==> r == Err(BadLength)
    ensures r.Ok? ==> |r.value| == |values| / QK_FP8
                      && forall b :: 0 <= b < |r.value| ==>
                              Encodes(k, r.value[b], Chunk(values, QK_FP8, b), half, quotient)
  {
    hide Encodes;
    if |values| % QK_FP8 != 0 {
      return Err(BadLength);
    }
    var blocks: seq<BlockFP8> := [];
    for blockIdx := 0 to |values| / QK_FP8
      invariant |blocks| == blockIdx
      invariant forall b :: 0 <= b < blockIdx ==> Encodes(k, blocks[b], Chunk(values, QK_FP8, b), half, quotient)
    {
      var b := QuantizeBlock(k, Chunk(values, QK_FP8, blockIdx), half, quotient);
      blocks := blocks + [b];
    }
    r := Ok(blocks);
  }

  method Dequant(k: Kind, blocks: seq<BlockFP8>, output: array<Weight>) returns (r: Result<(), Error>)
    requires forall b :: 0 <= b < |blocks| ==> blocks[b].Valid()
    modifies output
    ensures r == if output.Length < QK_FP8 * |blocks| then Err(OutputTooShort) else Ok(())
    ensures forall i :: 0 <= i < output.Length ==>
              output[i] == if r.Ok? && i < QK_FP8 * |blocks| then blocks[i / QK_FP8].At(k, i % QK_FP8)
                           else old(output[i])
  {
    hide Times, DecodeAs;
    if output.Length < QK_FP8 * |blocks| {
      return Err(OutputTooShort);
    }
    for blockIdx := 0 to |blocks|
      invariant forall i :: 0 <= i < output.Length ==>
                  output[i] == if i < QK_FP8 * blockIdx then blocks[i / QK_FP8].At(k, i % QK_FP8) else old(output[i])
    {
      var block := blocks[blockIdx];
      for j := 0 to QK_FP8
        invariant forall i :: 0 <= i < output.Length ==>
                    output[i] == if i < QK_FP8 * blockIdx + j then blocks[i / QK_FP8].At(k, i % QK_FP8)
                                 else old(output[i])
      {
        output[QK_FP8 * blockIdx + j] := Times(block.d, DecodeAs(k, block.qs[j]));
        assert (QK_FP8 * blockIdx + j) / QK_FP8 == blockIdx && (QK_FP8 * blockIdx + j) % QK_FP8 == j;
      }
    }
    r := Ok(());
  }

  // ----- the error of a block -----

  /** The quotient is that of the reals, rounded to the nearest f32 with ties to even: f32 division. `RoundingExists`
      has such a quotient for every weight and scale. */
  ghost predicate F32Division(quotient: (real, real) -> F32) {
    forall v: real, d: real :: d > 0.0 ==> Rounds(quotient(v, d), v / d)
  }

  /** Every weight of a zero chunk reads back as zero, and of one whose scale is stored as zero. */
  lemma ZeroScale(k: Kind, b: BlockFP8, ws: seq<real>, half: real -> real, quotient: (real, real) -> F32, j: nat)
    requires Encodes(k, b, ws, half, quotient) && j < QK_FP8 && b.d == 0.0
    ensures b.At(k, j) == Number(0.0)
  {
    ZeroCode(k);
    assert b.qs[j] == 0;
    assert DecodeAs(k, 0) == Finite(false, 0);
    assert 0.0 * Real(0) == 0.0;
  }

  /** A weight of a zero chunk. */
  lemma ZeroWeight(k: Kind, b: BlockFP8, ws: seq<real>, half: real -> real, quotient: (real, real) -> F32, j: nat)
    requires Encodes(k, b, ws, half, quotient) && j < QK_FP8 && Peak(ws) == 0.0
    ensures b.Valid() && |ws| == QK_FP8 && b.d == 0.0 && b.At(k, j) == Number(ws[j]) && ws[j] == 0.0
    ensures Abs(ws[j]) == Abs(ws[j] - ws[j]) == 0.0
  {
    hide DecodeAs, Peak;
    PeakBound(ws, j);
    ZeroScale(k, b, ws, half, quotient, j);
  }

  lemma ZeroCode(k: Kind)
    ensures EncodeAs(k, 0) == 0 && DecodeAs(k, 0) == Finite(false, 0)
  {
    hide E4M3Finite, E5M2Finite, Pow2, One;
    assert Exp(0) == 0 && Man(0) == 0;
    assert Mag(0) == 0;
  }

  /** An E4M3 weight reads back within rounding, half the subnormal step, and what saturation costs when the stored
      scale was rounded down. */
  lemma E4M3WeightError(b: BlockFP8, ws: seq<real>, half: real -> real, quotient: (real, real) -> F32, j: nat)
    requires Encodes(KE4M3, b, ws, half, quotient) && F32Division(quotient) && j < QK_FP8
    requires Peak(ws) > 0.0 && b.d > 0.0
    ensures b.At(KE4M3, j).Number?
    ensures Abs(ws[j] - b.At(KE4M3, j).x) <= Abs(ws[j]) / 16.0 + b.d / 1024.0 + Max(0.0, Abs(ws[j]) - 448.0 * b.d)
  {
    EncodedQuotient(KE4M3, b, ws, half, quotient, j);
    hide E4M3Encode, E4M3Decode, Peak, Abs, Max, Rounds, Encodes, F32Division, Times, BlockFP8.At;
    E4M3Coded(ws[j], b.d, quotient(ws[j], b.d));
  }

  lemma E4M3Coded(v: real, d: real, q: F32)
    requires d > 0.0 && Rounds(q, v / d)
    ensures var w := Times(d, E4M3Decode(E4M3Encode(q)));
            w.Number? && Abs(v - w.x) <= Abs(v) / 16.0 + d / 1024.0 + Max(0.0, Abs(v) - 448.0 * d)
  {
    hide E4M3Encode, E4M3Decode, Abs, Max, Rounds, ScaleBy, Real, DecodedValue;
    E4M3Quotient(q, v / d);
    QuotientTimes(v, d);
    ScaledE4M3(v, d, v / d, E4M3Value(q));
  }

  lemma EncodedQuotient(k: Kind, b: BlockFP8, ws: seq<real>, half: real -> real, quotient: (real, real) -> F32, j: nat)
    requires Encodes(k, b, ws, half, quotient) && F32Division(quotient) && j < QK_FP8
    requires Peak(ws) > 0.0 && b.d > 0.0
    ensures b.Valid() && |ws| == QK_FP8 && Rounds(quotient(ws[j], b.d), ws[j] / b.d)
    ensures b.At(k, j) == Times(b.d, DecodeAs(k, EncodeAs(k, quotient(ws[j], b.d))))
  {
    hide EncodeAs, DecodeAs, Times, Peak, Rounds;
  }

  lemma ScaledE4M3(v: real, d: real, t: real, t': real)
    requires d > 0.0 && d * t == v && Abs(t - t') <= Abs(t) / 16.0 + 1.0 / 1024.0 + Max(0.0, Abs(t) - 448.0)
    ensures Abs(v - ScaleBy(d, t')) <= Abs(v) / 16.0 + d / 1024.0 + Max(0.0, Abs(v) - 448.0 * d)
  {
    hide Abs, Max, ScaleBy;
    ScaledTerms(v, d, t, 16.0, 1024.0, 448.0);
    ScaledGap(v, d, t, t', Abs(t) / 16.0 + 1.0 / 1024.0 + Max(0.0, Abs(t) - 448.0));
  }

  /** With the scale rounded to f16 the error is bounded by the weight and the largest magnitude of the block alone. */
  lemma E4M3HalfScale(b: BlockFP8, ws: seq<real>, half: real -> real, quotient: (real, real) -> F32, j: nat)
    requires Encodes(KE4M3, b, ws, half, quotient) && F32Division(quotient) && j < QK_FP8
    requires HalfPrecision(half, Peak(ws) / 448.0)
    ensures b.At(KE4M3, j).Number?
    ensures Abs(ws[j] - b.At(KE4M3, j).x) <= Abs(ws[j]) / 16.0 + Peak(ws) / 2000.0
  {
    hide DecodeAs, Peak, Times, F32Division, BlockFP8.At;
    PeakBound(ws, j);
    if Peak(ws) > 0.0 {
      E4M3WeightError(b, ws, half, quotient, j);
    } else {
      ZeroWeight(KE4M3, b, ws, half, quotient, j);
    }
  }

  /** The same for E5M2, for the weights that come back as numbers. */
  lemma E5M2HalfScale(b: BlockFP8, ws: seq<real>, half: real -> real, quotient: (real, real) -> F32, j: nat)
    requires Encodes(KE5M2, b, ws, half, quotient) && F32Division(quotient) && j < QK_FP8
    requires HalfPrecision(half, Peak(ws) / 57344.0) && b.At(KE5M2, j).Number?
    ensures Abs(ws[j] - b.At(KE5M2, j).x) <= Abs(ws[j]) / 8.0 + Peak(ws) / 7500000000.0
  {
    hide DecodeAs, Peak, Times, F32Division, BlockFP8.At;
    if Peak(ws) > 0.0 {
      E5M2WeightExact(b, ws, half, quotient, j);
    } else {
      ZeroWeight(KE5M2, b, ws, half, quotient, j);
    }
  }

  lemma QuotientTimes(v: real, d: real)
    requires d > 0.0
    ensures d * (v / d) == v
  {
  }

  lemma ScaledGap(v: real, d: real, w: real, w': real, bound: real)
    requires d > 0.0 && d * w == v && Abs(w - w') <= bound
    ensures Abs(v - ScaleBy(d, w')) <= d * bound
  {
    hide Abs;
    assert d * (w - w') == v - d * w';
    ScaledAbs(v - d * w', d, w - w');
    ScaleOrder(d, Abs(w - w'), bound);
  }

  /** Multiplying the bound on the quotient by the scale. */
  lemma ScaledTerms(v: real, d: real, w: real, a: real, c: real, top: real)
    requires d > 0.0 && a > 0.0 && c > 0.0 && d * w == v
    ensures d * (Abs(w) / a + 1.0 / c + Max(0.0, Abs(w) - top)) == Abs(v) / a + d / c + Max(0.0, Abs(v) - top * d)
    ensures d * (Abs(w) / a + 1.0 / c) == Abs(v) / a + d / c
  {
    hide Abs, Max;
    ScaledAbs(v, d, w);
    assert d * (Abs(w) - top) == Abs(v) - top * d;
    ScaledMax(d, Abs(w) - top, Abs(v) - top * d);
    ScaledRatio(d, Abs(w), a, Abs(v));
    ScaledRatio(d, 1.0, c, d);
    Distribute3(d, Abs(w) / a, 1.0 / c, Max(0.0, Abs(w) - top));
  }

  lemma ScaledRatio(d: real, x: real, a: real, dx: real)
    requires a > 0.0 && dx == d * x
    ensures d * (x / a) == dx / a
  {
  }

  lemma Distribute3(d: real, x: real, y: real, z: real)
    ensures d * (x + y + z) == d * x + d * y + d * z && d * (x + y) == d * x + d * y
  {
  }

  lemma ScaledAbs(v: real, d: real, w: real)
    requires d > 0.0 && d * w == v
    ensures d * Abs(w) == Abs(v)
  {
    if w >= 0.0 {
      ScaleOrder(d, 0.0, w);
    } else {
      ScaleOrder(d, w, 0.0);
    }
  }

  lemma ScaledMax(d: real, x: real, dx: real)
    requires d > 0.0 && d * x == dx
    ensures d * Max(0.0, x) == Max(0.0, dx)
  {
    if x >= 0.0 {
      ScaleOrder(d, 0.0, x);
    } else {
      ScaleOrder(d, x, 0.0);
    }
  }

  /** The largest quotient whose f32 rounding does not pass 57344: the midpoint to the next f32. */
  const LIMIT := 57344.0 + 1.0 / 512.0

  /** An E5M2 weight reads back as a number exactly if it is at most that many scales, and then within rounding and half
      the subnormal step; otherwise it reads back as an infinity of its sign. */
  lemma E5M2WeightExact(b: BlockFP8, ws: seq<real>, half: real -> real, quotient: (real, real) -> F32, j: nat)
    requires Encodes(KE5M2, b, ws, half, quotient) && F32Division(quotient) && j < QK_FP8
    requires Peak(ws) > 0.0 && b.d > 0.0
    ensures b.At(KE5M2, j).Number? <==> Abs(ws[j]) <= LIMIT * b.d
    ensures !b.At(KE5M2, j).Number? ==> b.At(KE5M2, j) == Overflow(ws[j] < 0.0)
    ensures b.At(KE5M2, j).Number? ==>
              Abs(ws[j] - b.At(KE5M2, j).x) <= Abs(ws[j]) / 8.0 + b.d / 131072.0
  {
    EncodedQuotient(KE5M2, b, ws, half, quotient, j);
    hide E5M2Encode, E5M2Decode, Peak, Abs, Rounds, Encodes, F32Division, Times, BlockFP8.At, LIMIT;
    E5M2Coded(ws[j], b.d, quotient(ws[j], b.d));
  }

  lemma E5M2Coded(v: real, d: real, q: F32)
    requires d > 0.0 && Rounds(q, v / d)
    ensures var w := Times(d, E5M2Decode(E5M2Encode(q)));
            && (w.Number? <==> Abs(v) <= LIMIT * d)
            && (!w.Number? ==> w == Overflow(v < 0.0))
            && (w.Number? ==> Abs(v - w.x) <= Abs(v) / 8.0 + d / 131072.0)
  {
    hide E5M2Encode, E5M2Decode, Abs, Rounds, ScaleBy, Real, DecodedValue;
    var t := v / d;
    QuotientTimes(v, d);
    ScaledAbs(v, d, t);
    CompareScaled(d, Abs(t), LIMIT, Abs(v));
    if Abs(t) <= LIMIT {
      E5M2Quotient(q, t);
      ScaledE5M2(v, d, t, E5M2Value(q));
    } else {
      SignScaled(d, t, v);
      E5M2Overflows(q, t);
    }
  }

  lemma ScaledE5M2(v: real, d: real, t: real, t': real)
    requires d > 0.0 && d * t == v && Abs(t - t') <= Abs(t) / 8.0 + 1.0 / 131072.0
    ensures Abs(v - ScaleBy(d, t')) <= Abs(v) / 8.0 + d / 131072.0
  {
    hide Abs, Max, ScaleBy;
    ScaledTerms(v, d, t, 8.0, 131072.0, 0.0);
    ScaledGap(v, d, t, t', Abs(t) / 8.0 + 1.0 / 131072.0);
  }

  lemma SignScaled(d: real, x: real, dx: real)
    requires d > 0.0 && d * x == dx
    ensures x < 0.0 <==> dx < 0.0
  {
    if x < 0.0 {
      ScaleStrict(d, x, 0.0);
    } else {
      ScaleOrder(d, 0.0, x);
    }
  }

  /** So a block survives exactly if rounding to f16 did not lower the scale by more than that. */
  lemma E5M2BlockSurvives(b: BlockFP8, ws: seq<real>, half: real -> real, quotient: (real, real) -> F32)
    requires Encodes(KE5M2, b, ws, half, quotient) && F32Division(quotient) && Peak(ws) > 0.0 && b.d > 0.0
    ensures (forall j :: 0 <= j < QK_FP8 ==> b.At(KE5M2, j).Number?)
       <==> Peak(ws) <= LIMIT * half(Peak(ws) / 57344.0)
  {
    hide E5M2Encode, E5M2Decode, Abs, Encodes, Peak, F32Division, LIMIT;
    StoredScale(b, ws, half, quotient);
    forall j | 0 <= j < QK_FP8
      ensures b.At(KE5M2, j).Number? <==> Abs(ws[j]) <= LIMIT * b.d
      ensures Abs(ws[j]) <= Peak(ws)
    {
      E5M2WeightExact(b, ws, half, quotient, j);
      PeakBound(ws, j);
    }
    var top := PeakAttained(ws);
  }

  lemma StoredScale(b: BlockFP8, ws: seq<real>, half: real -> real, quotient: (real, real) -> F32)
    requires Encodes(KE5M2, b, ws, half, quotient) && Peak(ws) > 0.0
    ensures b.Valid() && |ws| == QK_FP8 && b.d == half(Peak(ws) / 57344.0)
  {
  }

  // ----- an overflowing block -----

  /** k times 2^j units of 2^-24, as every finite f16 is. */
  ghost predicate F16At(x: real, k: int, j: nat) {
    -2048 < k < 2048 && j <= 29 && x * 16777216.0 == (k * Pow2(j)) as real
  }

  ghost predicate IsF16(x: real) {
    exists k: int, j: nat :: F16At(x, k, j)
  }

  /** h is an f16 nearest to x. */
  ghost predicate RoundsToF16(h: real, x: real) {
    IsF16(h) && forall z: real :: IsF16(z) ==> Abs(x - h) <= Abs(x - z)
  }

  /** The computed scale 57358 / 57344 lies a quarter of the way from 1 to the next f16. */
  lemma ScaleRoundsToOne(h: real)
    requires RoundsToF16(h, 57358.0 / 57344.0)
    ensures h == 1.0
  {
    OneIsF16();
    var k: int, j: nat :| F16At(h, k, j);
    assert Abs(57358.0 / 57344.0 - h) <= Abs(57358.0 / 57344.0 - 1.0);
    assert 57358.0 / 57344.0 == 1.0 + 1.0 / 4096.0;
    F16BelowStep(k, j);
  }

  lemma OneIsF16()
    ensures IsF16(1.0)
  {
    SmallPower();
    hide Pow2;
    Pow2Add(8, 6);
    assert Pow2(6) == 64 by {
      SixtyFour();
    }
    assert F16At(1.0, 1024, 14);
  }

  lemma SixtyFour()
    ensures Pow2(6) == 64
  {
    assert Pow2(3) == 8;
    Pow2Add(3, 3);
  }

  /** Between 2^24 and 2^24 + 2^13 units there is one f16 only. */
  lemma F16BelowStep(k: int, j: nat)
    requires -2048 < k < 2048 && 0x100_0000 <= k * Pow2(j) <= 0x100_0000 + 0x2000
    ensures k * Pow2(j) == 0x100_0000
  {
    SmallPower();
    SixtyFour();
    hide Pow2;
    Pow2Add(8, 6);
    PowerOne();
    Pow2Add(1, 13);
    if j <= 13 {
      Pow2Monotone(j, 13);
      FewUnits(k, Pow2(j));
    } else {
      Pow2Add(j - 14, 14);
      MultipleOfStep(k, Pow2(j - 14));
    }
  }

  lemma FewUnits(k: int, p: nat)
    requires -2048 < k < 2048 && 0 < p <= 0x2000
    ensures k * p < 0x100_0000
  {
  }

  lemma MultipleOfStep(k: int, p: nat)
    requires 0x100_0000 <= k * (p * 0x4000) <= 0x100_0000 + 0x2000
    ensures k * (p * 0x4000) == 0x100_0000
  {
    assert k * (p * 0x4000) == k * p * 0x4000;
  }

  /** A chunk of 57358 and zeros: its scale is stored as 1, and its weight comes back as infinity. */
  lemma OverflowExample(b: BlockFP8, half: real -> real, quotient: (real, real) -> F32)
    requires Encodes(KE5M2, b, [57358.0] + seq(31, _ => 0.0), half, quotient) && F32Division(quotient)
    requires RoundsToF16(half(57358.0 / 57344.0), 57358.0 / 57344.0)
    ensures b.d == 1.0 && b.At(KE5M2, 0) == Overflow(false)
  {
    hide Encodes, F32Division, RoundsToF16;
    var ws := [57358.0] + seq(31, _ => 0.0);
    SingleMax(ws, 57358.0, 32);
    StoredScale(b, ws, half, quotient);
    ScaleRoundsToOne(b.d);
    E5M2WeightExact(b, ws, half, quotient, 0);
  }

  lemma {:induction false} SingleMax(ws: seq<real>, v: real, n: nat)
    requires 0 < n <= |ws| && ws[0] == v > 0.0 && forall j :: 0 < j < |ws| ==> ws[j] == 0.0
    ensures AbsMax(ws, 0, n) == v
  {
    if n > 1 {
      SingleMax(ws, v, n - 1);
    }
  }

  // ----- tensors -----

  /** Every weight of a tensor in E4M3, read back. */
  lemma E4M3TensorError(values: seq<real>, blocks: seq<BlockFP8>, half: real -> real, quotient: (real, real) -> F32,
                        i: nat)
    requires |values| % QK_FP8 == 0 && |blocks| == |values| / QK_FP8 && i < |values| && F32Division(quotient)
    requires forall b :: 0 <= b < |blocks| ==> Encodes(KE4M3, blocks[b], Chunk(values, QK_FP8, b), half, quotient)
    requires Peak(Chunk(values, QK_FP8, i / QK_FP8)) > 0.0 ==> blocks[i / QK_FP8].d > 0.0
    ensures blocks[i / QK_FP8].Valid() && blocks[i / QK_FP8].At(KE4M3, i % QK_FP8).Number?
    ensures var b := blocks[i / QK_FP8];
            Abs(values[i] - b.At(KE4M3, i % QK_FP8).x)
            <= Abs(values[i]) / 16.0 + b.d / 1024.0 + Max(0.0, Abs(values[i]) - 448.0 * b.d)
  {
    var b, ws, j := blocks[i / QK_FP8], Chunk(values, QK_FP8, i / QK_FP8), i % QK_FP8;
    assert ws[j] == values[i];
    hide DecodeAs, Peak, F32Division, Encodes, Times, BlockFP8.At, Abs, Chunk;
    if Peak(ws) > 0.0 {
      EncodedQuotient(KE4M3, b, ws, half, quotient, j);
      E4M3WeightError(b, ws, half, quotient, j);
    } else {
      ZeroWeight(KE4M3, b, ws, half, quotient, j);
    }
  }

  /** Every weight of a tensor in E5M2: which come back as numbers, and how close. */
  lemma E5M2TensorExact(values: seq<real>, blocks: seq<BlockFP8>, half: real -> real, quotient: (real, real) -> F32,
                        i: nat)
    requires |values| % QK_FP8 == 0 && |blocks| == |values| / QK_FP8 && i < |values| && F32Division(quotient)
    requires forall b :: 0 <= b < |blocks| ==> Encodes(KE5M2, blocks[b], Chunk(values, QK_FP8, b), half, quotient)
    requires Peak(Chunk(values, QK_FP8, i / QK_FP8)) > 0.0 ==> blocks[i / QK_FP8].d > 0.0
    ensures blocks[i / QK_FP8].Valid()
    ensures var b := blocks[i / QK_FP8];
            && (b.At(KE5M2, i % QK_FP8).Number? <==> Abs(values[i]) <= LIMIT * b.d)
            && (b.At(KE5M2, i % QK_FP8).Number? ==>
                  Abs(values[i] - b.At(KE5M2, i % QK_FP8).x) <= Abs(values[i]) / 8.0 + b.d / 131072.0)
  {
    var b, ws, j := blocks[i / QK_FP8], Chunk(values, QK_FP8, i / QK_FP8), i % QK_FP8;
    assert ws[j] == values[i];
    hide DecodeAs, Peak, F32Division, Encodes, Times, BlockFP8.At, Abs, Chunk;
    if Peak(ws) > 0.0 {
      EncodedQuotient(KE5M2, b, ws, half, quotient, j);
      E5M2WeightExact(b, ws, half, quotient, j);
    } else {
      ZeroWeight(KE5M2, b, ws, half, quotient, j);
    }
  }

  /** The closed bounds over whole tensors. */
  lemma E4M3TensorHalf(values: seq<real>, blocks: seq<BlockFP8>, half: real -> real, quotient: (real, real) -> F32,
                       i: nat)
    requires |values| % QK_FP8 == 0 && |blocks| == |values| / QK_FP8 && i < |values| && F32Division(quotient)
    requires forall b :: 0 <= b < |blocks| ==> Encodes(KE4M3, blocks[b], Chunk(values, QK_FP8, b), half, quotient)
    requires HalfPrecision(half, Peak(Chunk(values, QK_FP8, i / QK_FP8)) / 448.0)
    ensures var b, peak := blocks[i / QK_FP8], Peak(Chunk(values, QK_FP8, i / QK_FP8));
            && b.Valid() && b.At(KE4M3, i % QK_FP8).Number?
            && Abs(values[i] - b.At(KE4M3, i % QK_FP8).x) <= Abs(values[i]) / 16.0 + peak / 2000.0
  {
    var b, ws, j := blocks[i / QK_FP8], Chunk(values, QK_FP8, i / QK_FP8), i % QK_FP8;
    assert ws[j] == values[i];
    hide DecodeAs, Peak, F32Division, Times, BlockFP8.At, Abs, Chunk, HalfPrecision;
    E4M3HalfScale(b, ws, half, quotient, j);
  }

  lemma E5M2TensorHalf(values: seq<real>, blocks: seq<BlockFP8>, half: real -> real, quotient: (real, real) -> F32,
                       i: nat)
    requires |values| % QK_FP8 == 0 && |blocks| == |values| / QK_FP8 && i < |values| && F32Division(quotient)
    requires forall b :: 0 <= b < |blocks| ==> Encodes(KE5M2, blocks[b], Chunk(values, QK_FP8, b), half, quotient)
    requires HalfPrecision(half, Peak(Chunk(values, QK_FP8, i / QK_FP8)) / 57344.0)
    ensures var b, peak := blocks[i / QK_FP8], Peak(Chunk(values, QK_FP8, i / QK_FP8));
            && b.Valid()
            && (b.At(KE5M2, i % QK_FP8).Number? ==>
                  Abs(values[i] - b.At(KE5M2, i % QK_FP8).x) <= Abs(values[i]) / 8.0 + peak / 7500000000.0)
  {
    var b, ws, j := blocks[i / QK_FP8], Chunk(values, QK_FP8, i / QK_FP8), i % QK_FP8;
    assert ws[j] == values[i];
    hide DecodeAs, Peak, F32Division, Times, BlockFP8.At, Abs, Chunk, HalfPrecision;
    if b.At(KE5M2, j).Number? {
      E5M2HalfScale(b, ws, half, quotient, j);
    }
  }
}
