/** The ternary block codecs TQ2_0_g128 and TQ2_0, over exact reals. They differ only in the number of weights to a
    block, which is a parameter here. Rounding to the stored f16 is the parameter `half`. */
module Ternary {
  import opened Packing
  import opened Rounding
  import opened SingleScale

  const QK_TQ2_0_G128 := 128
  const QK_TQ2_0 := 256

  predicate IsSize(size: nat) {
    size == QK_TQ2_0_G128 || size == QK_TQ2_0
  }

  /** 00 is -1, 01 is 0, 10 is +1; the reserved 11 reads as 0. */
  function Level(code: bv8): (l: int)
    ensures -1 <= l <= 1
  {
    if code == 0 then -1 else if code == 2 then 1 else 0
  }

  function TernaryDecode(byte: bv8, lane: nat): int
    requires lane < 4
  {
    Level(Field(byte, lane * 2, 0x03))
  }

  datatype BlockTQ2 = BlockTQ2(qs: seq<bv8>, d: real) {
    predicate Valid(size: nat) {
      |qs| * 4 == size
    }

    function Code(j: nat): bv8
      requires j < |qs| * 4
    {
      Lane(qs, 2, j)
    }

    /** What `dequant` reads back for weight j. */
    function Weight(j: nat): real
      requires j < |qs| * 4
    {
      Scaled(d, TernaryDecode(qs[j / 4], j % 4))
    }
  }

  lemma WeightOfCode(b: BlockTQ2, j: nat)
    requires j < |b.qs| * 4
    ensures b.Weight(j) == Scaled(b.d, Level(b.Code(j)))
  {
  }

  // ----- quantising -----

  /** The code of weight x in a block whose largest magnitude is m. */
  function CodeOf(x: real, m: real): bv8 {
    if x >= 0.5 * m then 2 else if x <= -(0.5 * m) then 0 else 1
  }

  /** Block b is what the quantiser makes of the weights. */
  ghost predicate Encodes(b: BlockTQ2, ws: seq<real>, half: real -> real) {
    var m := Peak(ws);
    && b.Valid(|ws|)
    && b.d == (if m == 0.0 then 0.0 else half(m))
    && forall j :: 0 <= j < |ws| ==> b.Code(j) == if m == 0.0 then 1 else CodeOf(ws[j], m)
  }

  function Codes(ws: seq<real>, m: real): (codes: seq<bv8>)
    ensures |codes| == |ws|
  {
    seq(|ws|, j requires 0 <= j < |ws| => CodeOf(ws[j], m))
  }

  method QuantizeBlock(chunk: seq<real>, half: real -> real) returns (b: BlockTQ2)
    requires IsSize(|chunk|)
    ensures Encodes(b, chunk, half)
  {
    hide Peak, Lane, CodeOf;
    var size := |chunk|;
    var absmax := LargestMagnitude(chunk);
    var qs := new bv8[size / 4](_ => 0);
    if absmax == 0.0 {
      for i := 0 to qs.Length
        invariant forall j :: 0 <= j < i ==> qs[j] == 0x55
      {
        qs[i] := 0x55;
      }
      ZerosEverywhere(qs[..]);
      return BlockTQ2(qs[..], 0.0);
    }
    ghost var codes := Codes(chunk, absmax);
    FilledStart(qs[..], 2, codes, size);
    for j := 0 to size
      invariant Filled(qs[..], 2, codes, j, size)
    {
      var code := ThresholdCode(chunk[j], absmax);
      PutLane(qs, 2, j, code, codes, size);
    }
    b := BlockTQ2(qs[..], half(absmax));
  }

  method ThresholdCode(x: real, absmax: real) returns (code: bv8)
    ensures code == CodeOf(x, absmax) && code <= Mask(2)
  {
    var threshold := 0.5 * absmax;
    if x >= threshold {
      code := 2;
    } else if x <= -threshold {
      code := 0;
    } else {
      code := 1;
    }
  }

  lemma ZerosEverywhere(qs: seq<bv8>)
    requires forall j :: 0 <= j < |qs| ==> qs[j] == 0x55
    ensures forall j :: 0 <= j < |qs| * 4 ==> Lane(qs, 2, j) == 1
  {
    forall j | 0 <= j < |qs| * 4
      ensures Lane(qs, 2, j) == 1
    {
      ZeroCodes(j % 4);
    }
  }

  lemma ZeroCodes(l: nat)
    requires l < 4
    ensures Field(0x55, 2 * l, 3) == 1
  {
    if l == 0 {} else if l == 1 {} else if l == 2 {}
  }

  // ----- the error -----

  /** Each weight gets the nearest of the levels -m, 0 and m. */
  lemma NearestLevel(ws: seq<real>, j: nat, l: int)
    requires j < |ws| && -1 <= l <= 1
    ensures var m := Peak(ws);
            Abs(ws[j] - Scaled(m, Level(CodeOf(ws[j], m)))) <= Abs(ws[j] - Scaled(m, l))
    ensures var m := Peak(ws);
            Abs(ws[j] - Scaled(m, Level(CodeOf(ws[j], m)))) <= m / 2.0
  {
    PeakBound(ws, j);
    ThreeLevels(Peak(ws), l);
    ThreeLevels(Peak(ws), Level(CodeOf(ws[j], Peak(ws))));
  }

  /** The thresholds: half the scale itself goes outwards. */
  lemma LevelExact(x: real, m: real)
    requires m > 0.0
    ensures Level(CodeOf(x, m)) == 1 <==> 2.0 * x >= m
    ensures Level(CodeOf(x, m)) == -1 <==> -2.0 * x >= m
    ensures Level(0) == -1 && Level(1) == 0 && Level(2) == 1 && Level(3) == 0
  {
  }

  lemma ThreeLevels(m: real, l: int)
    requires -1 <= l <= 1
    ensures Scaled(m, l) == if l == -1 then -m else if l == 0 then 0.0 else m
  {
  }

  /** A weight read back is off by at most half the largest magnitude, plus what rounding the scale to f16 costs. */
  lemma TernaryError(b: BlockTQ2, ws: seq<real>, half: real -> real, j: nat)
    requires Encodes(b, ws, half) && j < |ws|
    ensures var m := Peak(ws);
            Abs(ws[j] - b.Weight(j)) <= m / 2.0 + if m == 0.0 then 0.0 else Abs(half(m) - m)
  {
    hide CodeOf, Lane;
    var m := Peak(ws);
    WeightOfCode(b, j);
    PeakBound(ws, j);
    if m != 0.0 {
      NearestLevel(ws, j, 0);
      ThreeLevels(m, Level(CodeOf(ws[j], m)));
    }
    ThreeLevels(b.d, Level(b.Code(j)));
  }

  // ----- quantising what was dequantised -----

  function Weights(b: BlockTQ2): (ws: seq<real>)
    ensures |ws| == |b.qs| * 4
  {
    seq(|b.qs| * 4, j requires 0 <= j < |b.qs| * 4 => b.Weight(j))
  }

  /** No reserved code, and the scale is positive if some weight is not zero and zero if none is. */
  ghost predicate Canonical(b: BlockTQ2) {
    && (forall j :: 0 <= j < |b.qs| * 4 ==> b.Code(j) != 3)
    && if forall j :: 0 <= j < |b.qs| * 4 ==> Level(b.Code(j)) == 0 then b.d == 0.0 else b.d > 0.0
  }

  lemma SameLanes(x: bv8, y: bv8)
    requires Field(x, 0, 3) == Field(y, 0, 3) && Field(x, 2, 3) == Field(y, 2, 3)
    requires Field(x, 4, 3) == Field(y, 4, 3) && Field(x, 6, 3) == Field(y, 6, 3)
    ensures x == y
  {
  }

  lemma SameCodes(a: BlockTQ2, b: BlockTQ2)
    requires |a.qs| == |b.qs| && forall j :: 0 <= j < |a.qs| * 4 ==> a.Code(j) == b.Code(j)
    ensures a.qs == b.qs
  {
    hide Field;
    forall i | 0 <= i < |a.qs|
      ensures a.qs[i] == b.qs[i]
    {
      assert a.Code(4 * i) == b.Code(4 * i) && a.Code(4 * i + 1) == b.Code(4 * i + 1);
      assert a.Code(4 * i + 2) == b.Code(4 * i + 2) && a.Code(4 * i + 3) == b.Code(4 * i + 3);
      SameLanes(a.qs[i], b.qs[i]);
    }
  }

  /** A two-bit lane holds one of four codes. */
  lemma CodeRange(b: BlockTQ2, j: nat)
    requires j < |b.qs| * 4
    ensures b.Code(j) == 0 || b.Code(j) == 1 || b.Code(j) == 2 || b.Code(j) == 3
  {
  }

  /** The largest magnitude of a block's weights is that of its scale, unless all its weights are zero. */
  lemma {:induction false} AbsMaxOfWeights(b: BlockTQ2, n: nat)
    requires n <= |b.qs| * 4
    ensures AbsMax(Weights(b), 0, n)
         == if forall j :: 0 <= j < n ==> Level(b.Code(j)) == 0 then 0.0 else Abs(b.d)
  {
    hide Lane;
    if n > 0 {
      AbsMaxOfWeights(b, n - 1);
      WeightOfCode(b, n - 1);
      ThreeLevels(b.d, Level(b.Code(n - 1)));
      assert Weights(b)[n - 1] == b.Weight(n - 1);
    }
  }

  /** Quantising a block's own weights gives the block back exactly if the block is canonical. The scale is one that f16
      holds. */
  lemma RequantizeExact(b: BlockTQ2, b': BlockTQ2, half: real -> real)
    requires half(b.d) == b.d && Encodes(b', Weights(b), half)
    ensures b' == b <==> Canonical(b)
  {
    hide AbsMax, Lane, CodeOf;
    var n := |b.qs| * 4;
    var m := AbsMax(Weights(b), 0, n);
    AbsMaxOfWeights(b, n);
    forall j | 0 <= j < n
      ensures b'.Code(j) == if m == 0.0 then 1 else CodeOf(b.Weight(j), m)
      ensures b.Code(j) == 0 || b.Code(j) == 1 || b.Code(j) == 2 || b.Code(j) == 3
      ensures m != 0.0 ==> (CodeOf(b.Weight(j), m) == b.Code(j) <==> b.Code(j) != 3 && (b.d > 0.0 || b.Code(j) == 1))
    {
      CodeRange(b, j);
      WeightOfCode(b, j);
      if m != 0.0 {
        Recoded(b, j, m);
      }
      assert Weights(b)[j] == b.Weight(j);
    }
    if Canonical(b) {
      SameCodes(b', b);
    }
  }

  lemma Recoded(b: BlockTQ2, j: nat, m: real)
    requires j < |b.qs| * 4 && m == Abs(b.d) && m != 0.0
    ensures CodeOf(b.Weight(j), m) == b.Code(j) <==> b.Code(j) != 3 && (b.d > 0.0 || b.Code(j) == 1)
  {
    hide Lane;
    CodeRange(b, j);
    WeightOfCode(b, j);
    ThreeLevels(b.d, Level(b.Code(j)));
  }
}
