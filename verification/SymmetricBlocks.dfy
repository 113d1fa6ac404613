/** The block formats Q3_K and Q6_K: quantisation into packed bytes and dequantisation, and the error of the round
    trip. Conversion of the super-block scale to f16 is the parameter `half`. */
module SymmetricBlocks {
  import opened Packing
  import opened Results
  import opened Rounding
  import opened Sequences
  import opened Symmetric

  datatype Error = BadLength | OutputTooShort

  // ----- shared steps -----

  /** The reconstruction from a stored scale, a sub-block factor and a centred code. */
  function FromStored(d': real, sc: int, q: int): real {
    d' * sc as real * q as real
  }

  /** What storing d' for the exact scale adds to the error. */
  function StorageError(ws: seq<real>, k: Shape, i: nat, d': real): real
    requires IsShape(k) && |ws| == QK_K && i < QK_K
  {
    StorageGap(D(ws, k), d', Factor(ws, k, i / SUB_SIZE) * Code(ws, k, i))
  }

  lemma StoredGap(ws: seq<real>, k: Shape, i: nat, d': real)
    requires IsShape(k) && |ws| == QK_K && i < QK_K
    ensures Abs(Reconstructed(ws, k, i) - FromStored(d', Factor(ws, k, i / SUB_SIZE), Code(ws, k, i)))
         <= StorageError(ws, k, i, d')
  {
    hide D, Factor, Code;
    var sc, q := Factor(ws, k, i / SUB_SIZE), Code(ws, k, i);
    CodesGap(D(ws, k), d', sc, q, Reconstructed(ws, k, i), FromStored(d', sc, q));
  }

  /** With the scale rounded to f16 the storage costs a 2048th of the reconstruction. */
  lemma HalfStorage(ws: seq<real>, k: Shape, i: nat, half: real -> real)
    requires IsShape(k) && |ws| == QK_K && i < QK_K && HalfPrecision(half, D(ws, k))
    ensures StorageError(ws, k, i, half(D(ws, k))) <= Abs(Reconstructed(ws, k, i)) / 2048.0
  {
    hide D, Factor, Code, StorageGap, HalfPrecision, Abs;
    FactorClose(ws, k, i / SUB_SIZE);
    HalfCodes(half, D(ws, k), Factor(ws, k, i / SUB_SIZE), Code(ws, k, i), Reconstructed(ws, k, i));
  }

  /** The bound with the scale rounded to f16: a 2048th of the reconstruction on top. */
  function HalfBound(ws: seq<real>, k: Shape, i: nat): real
    requires IsShape(k) && |ws| == QK_K && i < QK_K
  {
    ErrorBound(ws, k, i / SUB_SIZE) + Abs(Reconstructed(ws, k, i)) / 2048.0
  }

  /** The error in terms of the weights alone, guarded or not: half a level, the guard, and the storage of d. */
  ghost function PeakLimit(ws: seq<real>, k: Shape, i: nat): real
    requires IsShape(k) && |ws| == QK_K && i < QK_K
  {
    Peak(ws) / (2.0 * k.top as real) + (if GuardHarmless(ws, k, i / SUB_SIZE) then 0.0 else k.top as real * 0.000000001)
    + Peak(ws) / 1536.0
  }

  lemma StoredPeakError(ws: seq<real>, k: Shape, i: nat, half: real -> real)
    requires IsShape(k) && |ws| == QK_K && i < QK_K && HalfPrecision(half, D(ws, k))
    ensures Abs(ws[i] - FromStored(half(D(ws, k)), Factor(ws, k, i / SUB_SIZE), Code(ws, k, i))) <= PeakLimit(ws, k, i)
  {
    hide D, Factor, Code, Reconstructed, ErrorBound, StorageError, FromStored, Abs, GuardHarmless, Peak, HalfPrecision;
    PeakError(ws, k, i);
    StoredGap(ws, k, i, half(D(ws, k)));
    HalfStorage(ws, k, i, half);
    ReconstructedWithin(ws, k, i);
    Triangle(ws[i], Reconstructed(ws, k, i), FromStored(half(D(ws, k)), Factor(ws, k, i / SUB_SIZE), Code(ws, k, i)));
  }

  /** The error of a stored weight where the guard is harmless. */
  lemma StoredWeightError(ws: seq<real>, k: Shape, i: nat, d': real)
    requires IsShape(k) && |ws| == QK_K && i < QK_K && GuardHarmless(ws, k, i / SUB_SIZE)
    ensures Abs(ws[i] - FromStored(d', Factor(ws, k, i / SUB_SIZE), Code(ws, k, i)))
         <= ErrorBound(ws, k, i / SUB_SIZE) + StorageError(ws, k, i, d')
  {
    hide D, Factor, Code, Reconstructed, ErrorBound, StorageError, FromStored, Abs, GuardHarmless;
    WeightError(ws, k, i);
    StoredGap(ws, k, i, d');
    Triangle(ws[i], Reconstructed(ws, k, i), FromStored(d', Factor(ws, k, i / SUB_SIZE), Code(ws, k, i)));
  }

  method AbsMaxima(chunk: seq<real>) returns (maxima: seq<real>, overall: real)
    requires |chunk| == QK_K
    ensures |maxima| == SUBS && overall == Overall(chunk, SUBS)
    ensures forall t :: 0 <= t < SUBS ==> maxima[t] == SubMax(chunk, t)
  {
    maxima, overall := [], 0.0;
    for sub := 0 to SUBS
      invariant |maxima| == sub && overall == Overall(chunk, sub)
      invariant forall t :: 0 <= t < sub ==> maxima[t] == SubMax(chunk, t)
    {
      var m := 0.0;
      for j := 0 to SUB_SIZE
        invariant m == AbsMax(chunk, SUB_SIZE * sub, j)
      {
        m := Max(m, Abs(chunk[SUB_SIZE * sub + j]));
      }
      maxima := maxima + [m];
      overall := Max(overall, m);
    }
  }

  /** The code of a weight from the guarded inverse of its effective scale. */
  method QuantizeWeight(w: real, d: real, sc: int, top: nat, ghost eff: real) returns (q: int)
    requires eff == d * sc as real
    ensures q == CodeOf(w, eff, top) + (top + 1)
    ensures 0 <= q <= 2 * top + 1
  {
    var effScale := d * sc as real;
    var invEff := if Abs(effScale) > GUARD then 1.0 / effScale else 0.0;
    q := RoundCode(w, invEff, top, eff);
  }

  method RoundCode(w: real, inv: real, top: nat, ghost eff: real) returns (q: int)
    requires inv == GuardedInverse(eff)
    ensures q == CodeOf(w, eff, top) + (top + 1)
    ensures 0 <= q <= 2 * top + 1
  {
    hide Round;
    var r := Round(w * inv);
    assert r == Round(Quotient(w, eff)) by {
      assert w * inv == Quotient(w, eff);
    }
    q := ClampInt(r + (top + 1), 0, 2 * top + 1);
  }

  // ----- Q3_K -----

  datatype BlockQ3K = BlockQ3K(hmask: seq<bv8>, qs: seq<bv8>, scales: seq<bv8>, d: real) {
    predicate Valid() {
      |hmask| == 32 && |qs| == 64 && |scales| == 12
    }

    /** The 3-bit code: two low bits and a high bit from two planes. */
    function Code3(i: nat): bv8
      requires Valid() && i < QK_K
    {
      OrAt(Lane(qs, 2, i), Lane(hmask, 1, i), 2)
    }

    function Weight(i: nat): real
      requires Valid() && i < QK_K
    {
      FromStored(d, Lane(scales, 4, i / 16) as int - 8, Code3(i) as int - 4)
    }
  }

  ghost predicate EncodesQ3K(b: BlockQ3K, ws: seq<real>, half: real -> real)
    requires |ws| == QK_K
  {
    && b.Valid() && b.d == half(D(ws, Q3K))
    && (forall sub :: 0 <= sub < SUBS ==> Lane(b.scales, 4, sub) == ToByte(Factor(ws, Q3K, sub) + 8))
    && (forall i :: 0 <= i < QK_K ==> b.Code3(i) == ToByte(Code(ws, Q3K, i) + 4))
  }

  function LowTwo(q: bv8): bv8 {
    q & 0x03
  }

  function ThirdBit(q: bv8): bv8 {
    (q >> 2) & 1
  }

  lemma SplitThree(q: bv8)
    requires q < 8
    ensures LowTwo(q) <= 0x03 && ThirdBit(q) <= 1 && OrAt(LowTwo(q), ThirdBit(q), 2) == q
  {
  }

  function FactorNibbles(ws: seq<real>): (ns: seq<bv8>)
    requires |ws| == QK_K
    ensures |ns| == SUBS
  {
    seq(SUBS, sub requires 0 <= sub < SUBS => ToByte(Factor(ws, Q3K, sub) + 8))
  }

  function Codes(ws: seq<real>, k: Shape, bias: int): (cs: seq<bv8>)
    requires IsShape(k) && |ws| == QK_K
    ensures |cs| == QK_K
  {
    seq(QK_K, i requires 0 <= i < QK_K => ToByte(Code(ws, k, i) + bias))
  }

  function LowTwos(codes: seq<bv8>): (low: seq<bv8>)
    ensures |low| == |codes|
  {
    seq(|codes|, i requires 0 <= i < |codes| => LowTwo(codes[i]))
  }

  function ThirdBits(codes: seq<bv8>): (high: seq<bv8>)
    ensures |high| == |codes|
  {
    seq(|codes|, i requires 0 <= i < |codes| => ThirdBit(codes[i]))
  }

  /** One sub-block factor: the largest magnitude over 3 d, rounded, clamped and stored with bias 8. */
  method FactorNibble(maxAbs: real, d: real, ghost ws: seq<real>, ghost sub: nat) returns (nibble: bv8, sc: int)
    requires |ws| == QK_K && sub < SUBS && d == D(ws, Q3K) && maxAbs == SubMax(ws, sub)
    ensures sc == Factor(ws, Q3K, sub) && 0 <= sc <= 7
    ensures nibble == ToByte(sc + 8) && nibble <= 0x0F && nibble as int == sc + 8
  {
    FactorClose(ws, Q3K, sub);
    hide D, SubMax, ToByte, Eff, Reach;
    sc := RoundFactor(maxAbs, d, Q3K);
    nibble := ToByte(ClampInt(sc + 8, 0, 15));
    ToByteInt(sc + 8);
    ToByteSmall(sc + 8);
  }

  method RoundFactor(maxAbs: real, d: real, k: Shape) returns (sc: int)
    requires IsShape(k)
    ensures sc == FactorOf(maxAbs, d, k)
  {
    hide Round, ClampInt;
    var invD := Inverse(d);
    sc := ClampInt(Round(InUnits(maxAbs, invD, k)), 0 - k.low, k.factors);
  }

  /** The pass over the sub-blocks: their factors, and the nibbles that hold them. */
  method PackFactors(ws: seq<real>, maxima: seq<real>, d: real) returns (factors: seq<int>, scales: seq<bv8>)
    requires |ws| == QK_K && d == D(ws, Q3K) && |maxima| == SUBS
    requires forall t :: 0 <= t < SUBS ==> maxima[t] == SubMax(ws, t)
    ensures |factors| == SUBS && forall t :: 0 <= t < SUBS ==> factors[t] == Factor(ws, Q3K, t)
    ensures |scales| == 12 && Filled(scales, 4, FactorNibbles(ws), SUBS, 24)
  {
    hide D, SubMax, Factor, ToByte, Filled, Lane;
    factors := [];
    var packed := new bv8[12](_ => 0);
    ghost var nibbles := FactorNibbles(ws);
    FilledStart(packed[..], 4, nibbles, 24);
    for sub := 0 to SUBS
      invariant Filled(packed[..], 4, nibbles, sub, 24)
      invariant |factors| == sub && forall t :: 0 <= t < sub ==> factors[t] == Factor(ws, Q3K, t)
    {
      var nibble, sc := FactorNibble(maxima[sub], d, ws, sub);
      factors := factors + [sc];
      PutLane(packed, 4, sub, nibble, nibbles, 24);
    }
    scales := packed[..];
  }

  method QuantizeBlockQ3K(chunk: seq<real>, half: real -> real) returns (b: BlockQ3K)
    requires |chunk| == QK_K
    ensures EncodesQ3K(b, chunk, half)
  {
    hide SubMax, Overall, Factor, Code, CodeOf, ToByte, Filled, LowTwo, ThirdBit, OrAt, Lane, Eff;
    var maxima, overallMax := AbsMaxima(chunk);
    var d := if overallMax > 0.0 then overallMax / 21.0 else 0.0;
    var factors, scales := PackFactors(chunk, maxima, d);
    var hmask := new bv8[32](_ => 0);
    var qs := new bv8[64](_ => 0);
    ghost var codes := Codes(chunk, Q3K, 4);
    ghost var low, high := LowTwos(codes), ThirdBits(codes);
    FilledStart(qs[..], 2, low, QK_K);
    FilledStart(hmask[..], 1, high, QK_K);
    for i := 0 to QK_K
      invariant Filled(qs[..], 2, low, i, QK_K) && Filled(hmask[..], 1, high, i, QK_K)
    {
      var q3 := WeightCode(chunk, Q3K, i, d, factors[i / 16]);
      SplitThree(q3);
      PutLane(qs, 2, i, LowTwo(q3), low, QK_K);
      PutLane(hmask, 1, i, ThirdBit(q3), high, QK_K);
    }
    b := BlockQ3K(hmask[..], qs[..], scales, half(d));
    NibblesHeld(b, chunk);
    Planes3Join(b, chunk, codes);
  }

  /** The code of weight i, with bias top + 1. */
  method WeightCode(chunk: seq<real>, k: Shape, i: nat, d: real, sc: int) returns (q: bv8)
    requires IsShape(k) && |chunk| == QK_K && i < QK_K && d == D(chunk, k) && sc == Factor(chunk, k, i / SUB_SIZE)
    ensures q == ToByte(Code(chunk, k, i) + (k.top + 1)) && q < 64 && (k == Q3K ==> q < 8)
  {
    hide D, Factor, CodeOf, ToByte;
    var c := QuantizeWeight(chunk[i], d, sc, k.top, Eff(chunk, k, i / SUB_SIZE));
    q := ToByte(c);
    ToByteSmall(c);
    if k == Q3K {
      ThreeBits(c);
    }
  }

  lemma ThreeBits(n: int)
    requires 0 <= n < 8
    ensures ToByte(n) < 8
  {
  }

  lemma NibblesHeld(b: BlockQ3K, ws: seq<real>)
    requires b.Valid() && |ws| == QK_K && Filled(b.scales, 4, FactorNibbles(ws), SUBS, 24)
    ensures forall sub :: 0 <= sub < SUBS ==> Lane(b.scales, 4, sub) == ToByte(Factor(ws, Q3K, sub) + 8)
  {
    hide Lane, Factor, ToByte;
    forall sub | 0 <= sub < SUBS
      ensures Lane(b.scales, 4, sub) == FactorNibbles(ws)[sub]
    {
    }
  }

  lemma Planes3Join(b: BlockQ3K, ws: seq<real>, codes: seq<bv8>)
    requires b.Valid() && |ws| == QK_K && codes == Codes(ws, Q3K, 4)
    requires Filled(b.qs, 2, LowTwos(codes), QK_K, QK_K) && Filled(b.hmask, 1, ThirdBits(codes), QK_K, QK_K)
    ensures forall i :: 0 <= i < QK_K ==> b.Code3(i) == ToByte(Code(ws, Q3K, i) + 4)
  {
    hide Lane, LowTwo, ThirdBit, OrAt, Code, ToByte;
    forall i | 0 <= i < QK_K
      ensures b.Code3(i) == codes[i]
    {
      CodeInRange(ws, Q3K, i);
      ThreeBits(Code(ws, Q3K, i) + 4);
      SplitThree(codes[i]);
    }
  }

  /** The weight read back is made of the factor and the code that were stored. */
  lemma Q3KWeight(b: BlockQ3K, ws: seq<real>, half: real -> real, i: nat)
    requires |ws| == QK_K && i < QK_K && EncodesQ3K(b, ws, half)
    ensures b.Valid() && b.Weight(i) == FromStored(b.d, Factor(ws, Q3K, i / SUB_SIZE), Code(ws, Q3K, i))
  {
    hide D, Factor, Code, ToByte, Lane, FromStored, Eff, Reach, SubMax;
    FactorClose(ws, Q3K, i / SUB_SIZE);
    CodeInRange(ws, Q3K, i);
    ToByteInt(Factor(ws, Q3K, i / SUB_SIZE) + 8);
    ToByteInt(Code(ws, Q3K, i) + 4);
  }

  /** Every weight of a Q3_K block whose guard is harmless is within the bound of the original. */
  lemma Q3KError(b: BlockQ3K, ws: seq<real>, half: real -> real, i: nat)
    requires |ws| == QK_K && i < QK_K && EncodesQ3K(b, ws, half) && GuardHarmless(ws, Q3K, i / SUB_SIZE)
    ensures Abs(ws[i] - b.Weight(i)) <= ErrorBound(ws, Q3K, i / SUB_SIZE) + StorageError(ws, Q3K, i, b.d)
  {
    hide D, Factor, Code, ErrorBound, StorageError, FromStored, Abs, GuardHarmless, BlockQ3K.Weight;
    StoredWeightError(ws, Q3K, i, b.d);
    Q3KWeight(b, ws, half, i);
  }

  method QuantizeQ3K(input: seq<real>, half: real -> real) returns (r: Result<seq<BlockQ3K>, Error>)
    ensures |input| % QK_K != 0 <==> r == Err(BadLength)
    ensures r.Ok? ==> |r.value| == |input| / QK_K
    ensures r.Ok? ==> forall b :: 0 <= b < |r.value| ==> EncodesQ3K(r.value[b], Chunk(input, QK_K, b), half)
  {
    hide EncodesQ3K;
    if |input| % QK_K != 0 {
      return Err(BadLength);
    }
    var blocks: seq<BlockQ3K> := [];
    for blockIdx := 0 to |input| / QK_K
      invariant |blocks| == blockIdx
      invariant forall b :: 0 <= b < blockIdx ==> EncodesQ3K(blocks[b], Chunk(input, QK_K, b), half)
    {
      var b := QuantizeBlockQ3K(Chunk(input, QK_K, blockIdx), half);
      blocks := blocks + [b];
    }
    r := Ok(blocks);
  }

  method DequantQ3K(blocks: seq<BlockQ3K>, output: array<real>) returns (r: Result<(), Error>)
    requires forall b :: 0 <= b < |blocks| ==> blocks[b].Valid()
    modifies output
    ensures r == if output.Length < QK_K * |blocks| then Err(OutputTooShort) else Ok(())
    ensures forall i :: 0 <= i < output.Length ==>
              output[i] == if r.Ok? && i < QK_K * |blocks| then blocks[i / QK_K].Weight(i % QK_K) else old(output[i])
  {
    hide FromStored, Field, OrAt;
    if output.Length < QK_K * |blocks| {
      return Err(OutputTooShort);
    }
    for blockIdx := 0 to |blocks|
      invariant forall i :: 0 <= i < output.Length ==>
                  output[i] == if i < QK_K * blockIdx then blocks[i / QK_K].Weight(i % QK_K) else old(output[i])
    {
      var block := blocks[blockIdx];
      for i := 0 to QK_K
        invariant forall j :: 0 <= j < output.Length ==>
                    output[j] == if j < QK_K * blockIdx + i then blocks[j / QK_K].Weight(j % QK_K) else old(output[j])
      {
        var lo2 := Field(block.qs[i / 4], 2 * (i % 4), 0x03);
        var hi1 := Field(block.hmask[i / 8], i % 8, 0x01);
        var q3 := OrAt(lo2, hi1, 2);
        var sub := i / 16;
        var scaleNibble := Field(block.scales[sub / 2], 4 * (sub % 2), 0x0F);
        output[QK_K * blockIdx + i] := FromStored(block.d, scaleNibble as int - 8, q3 as int - 4);
        assert (QK_K * blockIdx + i) / QK_K == blockIdx && (QK_K * blockIdx + i) % QK_K == i;
      }
    }
    r := Ok(());
  }

  /** Quantising and dequantising an input of any number of chunks moves each weight by at most the bound, where
      the guard is harmless. */
  lemma Q3KRoundTrip(input: seq<real>, blocks: seq<BlockQ3K>, half: real -> real, i: nat)
    requires |input| % QK_K == 0 && |blocks| == |input| / QK_K && i < |input|
    requires forall b :: 0 <= b < |blocks| ==> EncodesQ3K(blocks[b], Chunk(input, QK_K, b), half)
    requires GuardHarmless(Chunk(input, QK_K, i / QK_K), Q3K, i % QK_K / SUB_SIZE)
    ensures var b, ws := blocks[i / QK_K], Chunk(input, QK_K, i / QK_K);
            b.Valid() && Abs(input[i] - b.Weight(i % QK_K)) <=
            ErrorBound(ws, Q3K, i % QK_K / SUB_SIZE) + StorageError(ws, Q3K, i % QK_K, half(D(ws, Q3K)))
    ensures var b, ws := blocks[i / QK_K], Chunk(input, QK_K, i / QK_K);
            HalfPrecision(half, D(ws, Q3K)) ==>
              Abs(input[i] - b.Weight(i % QK_K)) <= HalfBound(ws, Q3K, i % QK_K)
  {
    hide ErrorBound, StorageError, D, Abs, GuardHarmless, HalfPrecision, Reconstructed;
    var b, ws := blocks[i / QK_K], Chunk(input, QK_K, i / QK_K);
    if HalfPrecision(half, D(ws, Q3K)) {
      HalfStorage(ws, Q3K, i % QK_K, half);
    }
    Q3KError(b, ws, half, i % QK_K);
    assert ws[i % QK_K] == input[i];
  }

  /** The same in terms of the weights alone, for any input. */
  lemma Q3KPeakError(input: seq<real>, blocks: seq<BlockQ3K>, half: real -> real, i: nat)
    requires |input| % QK_K == 0 && |blocks| == |input| / QK_K && i < |input|
    requires forall b :: 0 <= b < |blocks| ==> EncodesQ3K(blocks[b], Chunk(input, QK_K, b), half)
    requires HalfPrecision(half, D(Chunk(input, QK_K, i / QK_K), Q3K))
    ensures var b, ws := blocks[i / QK_K], Chunk(input, QK_K, i / QK_K);
            b.Valid() && Abs(input[i] - b.Weight(i % QK_K)) <= PeakLimit(ws, Q3K, i % QK_K)
  {
    hide D, Factor, Code, FromStored, Abs, HalfPrecision, BlockQ3K.Weight, PeakLimit;
    var b, ws := blocks[i / QK_K], Chunk(input, QK_K, i / QK_K);
    StoredPeakError(ws, Q3K, i % QK_K, half);
    Q3KWeight(b, ws, half, i % QK_K);
    assert ws[i % QK_K] == input[i];
  }

  // ----- Q6_K -----

  datatype BlockQ6K = BlockQ6K(ql: seq<bv8>, qh: seq<bv8>, scales: seq<int>, d: real) {
    predicate Valid() {
      |ql| == 128 && |qh| == 64 && |scales| == 16
    }

    /** The 6-bit code: a nibble and two high bits from two planes. */
    function Code6(i: nat): bv8
      requires Valid() && i < QK_K
    {
      OrAt(Lane(ql, 4, i), Lane(qh, 2, i), 4)
    }

    function Weight(i: nat): real
      requires Valid() && i < QK_K
    {
      FromStored(d, scales[i / 16], Code6(i) as int - 32)
    }
  }

  ghost predicate EncodesQ6K(b: BlockQ6K, ws: seq<real>, half: real -> real)
    requires |ws| == QK_K
  {
    && b.Valid() && b.d == half(D(ws, Q6K))
    && (forall sub :: 0 <= sub < SUBS ==> b.scales[sub] == Factor(ws, Q6K, sub) && 0 <= b.scales[sub] <= 127)
    && (forall i :: 0 <= i < QK_K ==> b.Code6(i) == ToByte(Code(ws, Q6K, i) + 32))
  }

  lemma SplitSix(q: bv8)
    requires q < 64
    ensures LowNibble(q) <= 0x0F && Hi(q) <= 0x03 && OrAt(LowNibble(q), Hi(q), 4) == q
  {
  }

  function LowNibbles(codes: seq<bv8>): (low: seq<bv8>)
    ensures |low| == |codes|
  {
    seq(|codes|, i requires 0 <= i < |codes| => LowNibble(codes[i]))
  }

  function His(codes: seq<bv8>): (high: seq<bv8>)
    ensures |high| == |codes|
  {
    seq(|codes|, i requires 0 <= i < |codes| => Hi(codes[i]))
  }

  method QuantizeBlockQ6K(chunk: seq<real>, half: real -> real) returns (b: BlockQ6K)
    requires |chunk| == QK_K
    ensures EncodesQ6K(b, chunk, half)
  {
    hide SubMax, Overall, Code, CodeOf, ToByte, Filled, LowNibble, Hi, OrAt, Lane, Eff, FactorOf, Reach;
    var maxima, overallMax := AbsMaxima(chunk);
    var d := if overallMax > 0.0 then overallMax / (31.0 * 127.0) else 0.0;
    var scales: seq<int> := [];
    for sub := 0 to SUBS
      invariant |scales| == sub
      invariant forall t :: 0 <= t < sub ==> scales[t] == Factor(chunk, Q6K, t) && 0 <= scales[t] <= 127
    {
      var sc := RoundFactor(maxima[sub], d, Q6K);
      FactorClose(chunk, Q6K, sub);
      scales := scales + [sc];
    }
    var ql := new bv8[128](_ => 0);
    var qh := new bv8[64](_ => 0);
    ghost var codes := Codes(chunk, Q6K, 32);
    ghost var low, high := LowNibbles(codes), His(codes);
    FilledStart(ql[..], 4, low, QK_K);
    FilledStart(qh[..], 2, high, QK_K);
    for i := 0 to QK_K
      invariant Filled(ql[..], 4, low, i, QK_K) && Filled(qh[..], 2, high, i, QK_K)
    {
      var q6 := WeightCode(chunk, Q6K, i, d, scales[i / 16]);
      SplitSix(q6);
      PutLane(ql, 4, i, LowNibble(q6), low, QK_K);
      PutLane(qh, 2, i, Hi(q6), high, QK_K);
    }
    b := BlockQ6K(ql[..], qh[..], scales, half(d));
    Planes6Join(b, chunk, codes);
  }

  lemma Planes6Join(b: BlockQ6K, ws: seq<real>, codes: seq<bv8>)
    requires b.Valid() && |ws| == QK_K && codes == Codes(ws, Q6K, 32)
    requires Filled(b.ql, 4, LowNibbles(codes), QK_K, QK_K) && Filled(b.qh, 2, His(codes), QK_K, QK_K)
    ensures forall i :: 0 <= i < QK_K ==> b.Code6(i) == ToByte(Code(ws, Q6K, i) + 32)
  {
    hide Lane, LowNibble, Hi, OrAt, Code, ToByte;
    forall i | 0 <= i < QK_K
      ensures b.Code6(i) == codes[i]
    {
      CodeInRange(ws, Q6K, i);
      ToByteSmall(Code(ws, Q6K, i) + 32);
      SplitSix(codes[i]);
    }
  }

  lemma Q6KWeight(b: BlockQ6K, ws: seq<real>, half: real -> real, i: nat)
    requires |ws| == QK_K && i < QK_K && EncodesQ6K(b, ws, half)
    ensures b.Valid() && b.Weight(i) == FromStored(b.d, Factor(ws, Q6K, i / SUB_SIZE), Code(ws, Q6K, i))
  {
    hide D, Factor, Code, ToByte, Lane, FromStored, SubMax;
    CodeInRange(ws, Q6K, i);
    ToByteInt(Code(ws, Q6K, i) + 32);
  }

  /** Every weight of a Q6_K block whose guard is harmless is within the bound of the original. */
  lemma Q6KError(b: BlockQ6K, ws: seq<real>, half: real -> real, i: nat)
    requires |ws| == QK_K && i < QK_K && EncodesQ6K(b, ws, half) && GuardHarmless(ws, Q6K, i / SUB_SIZE)
    ensures Abs(ws[i] - b.Weight(i)) <= ErrorBound(ws, Q6K, i / SUB_SIZE) + StorageError(ws, Q6K, i, b.d)
  {
    hide D, Factor, Code, ErrorBound, StorageError, FromStored, Abs, GuardHarmless, BlockQ6K.Weight;
    StoredWeightError(ws, Q6K, i, b.d);
    Q6KWeight(b, ws, half, i);
  }

  method QuantizeQ6K(input: seq<real>, half: real -> real) returns (r: Result<seq<BlockQ6K>, Error>)
    ensures |input| % QK_K != 0 <==> r == Err(BadLength)
    ensures r.Ok? ==> |r.value| == |input| / QK_K
    ensures r.Ok? ==> forall b :: 0 <= b < |r.value| ==> EncodesQ6K(r.value[b], Chunk(input, QK_K, b), half)
  {
    hide EncodesQ6K;
    if |input| % QK_K != 0 {
      return Err(BadLength);
    }
    var blocks: seq<BlockQ6K> := [];
    for blockIdx := 0 to |input| / QK_K
      invariant |blocks| == blockIdx
      invariant forall b :: 0 <= b < blockIdx ==> EncodesQ6K(blocks[b], Chunk(input, QK_K, b), half)
    {
      var b := QuantizeBlockQ6K(Chunk(input, QK_K, blockIdx), half);
      blocks := blocks + [b];
    }
    r := Ok(blocks);
  }

  method DequantQ6K(blocks: seq<BlockQ6K>, output: array<real>) returns (r: Result<(), Error>)
    requires forall b :: 0 <= b < |blocks| ==> blocks[b].Valid()
    modifies output
    ensures r == if output.Length < QK_K * |blocks| then Err(OutputTooShort) else Ok(())
    ensures forall i :: 0 <= i < output.Length ==>
              output[i] == if r.Ok? && i < QK_K * |blocks| then blocks[i / QK_K].Weight(i % QK_K) else old(output[i])
  {
    hide FromStored, Field, OrAt;
    if output.Length < QK_K * |blocks| {
      return Err(OutputTooShort);
    }
    for blockIdx := 0 to |blocks|
      invariant forall i :: 0 <= i < output.Length ==>
                  output[i] == if i < QK_K * blockIdx then blocks[i / QK_K].Weight(i % QK_K) else old(output[i])
    {
      var block := blocks[blockIdx];
      for i := 0 to QK_K
        invariant forall j :: 0 <= j < output.Length ==>
                    output[j] == if j < QK_K * blockIdx + i then blocks[j / QK_K].Weight(j % QK_K) else old(output[j])
      {
        var nibble := Field(block.ql[i / 2], 4 * (i % 2), 0x0F);
        var high2bits := Field(block.qh[i / 4], 2 * (i % 4), 0x03);
        var q6 := OrAt(nibble, high2bits, 4);
        output[QK_K * blockIdx + i] := FromStored(block.d, block.scales[i / 16], q6 as int - 32);
        assert (QK_K * blockIdx + i) / QK_K == blockIdx && (QK_K * blockIdx + i) % QK_K == i;
      }
    }
    r := Ok(());
  }

  /** Quantising and dequantising an input of any number of chunks moves each weight by at most the bound, where
      the guard is harmless. */
  lemma Q6KRoundTrip(input: seq<real>, blocks: seq<BlockQ6K>, half: real -> real, i: nat)
    requires |input| % QK_K == 0 && |blocks| == |input| / QK_K && i < |input|
    requires forall b :: 0 <= b < |blocks| ==> EncodesQ6K(blocks[b], Chunk(input, QK_K, b), half)
    requires GuardHarmless(Chunk(input, QK_K, i / QK_K), Q6K, i % QK_K / SUB_SIZE)
    ensures var b, ws := blocks[i / QK_K], Chunk(input, QK_K, i / QK_K);
            b.Valid() && Abs(input[i] - b.Weight(i % QK_K)) <=
            ErrorBound(ws, Q6K, i % QK_K / SUB_SIZE) + StorageError(ws, Q6K, i % QK_K, half(D(ws, Q6K)))
    ensures var b, ws := blocks[i / QK_K], Chunk(input, QK_K, i / QK_K);
            HalfPrecision(half, D(ws, Q6K)) ==>
              Abs(input[i] - b.Weight(i % QK_K)) <= HalfBound(ws, Q6K, i % QK_K)
  {
    hide ErrorBound, StorageError, D, Abs, GuardHarmless, HalfPrecision, Reconstructed;
    var b, ws := blocks[i / QK_K], Chunk(input, QK_K, i / QK_K);
    if HalfPrecision(half, D(ws, Q6K)) {
      HalfStorage(ws, Q6K, i % QK_K, half);
    }
    Q6KError(b, ws, half, i % QK_K);
    assert ws[i % QK_K] == input[i];
  }

  /** The same in terms of the weights alone, for any input. */
  lemma Q6KPeakError(input: seq<real>, blocks: seq<BlockQ6K>, half: real -> real, i: nat)
    requires |input| % QK_K == 0 && |blocks| == |input| / QK_K && i < |input|
    requires forall b :: 0 <= b < |blocks| ==> EncodesQ6K(blocks[b], Chunk(input, QK_K, b), half)
    requires HalfPrecision(half, D(Chunk(input, QK_K, i / QK_K), Q6K))
    ensures var b, ws := blocks[i / QK_K], Chunk(input, QK_K, i / QK_K);
            b.Valid() && Abs(input[i] - b.Weight(i % QK_K)) <= PeakLimit(ws, Q6K, i % QK_K)
  {
    hide D, Factor, Code, FromStored, Abs, HalfPrecision, BlockQ6K.Weight, PeakLimit;
    var b, ws := blocks[i / QK_K], Chunk(input, QK_K, i / QK_K);
    StoredPeakError(ws, Q6K, i % QK_K, half);
    Q6KWeight(b, ws, half, i % QK_K);
    assert ws[i % QK_K] == input[i];
  }

  // ----- the guard loses weights -----

  /** In a chunk of equal weights the guard does harm exactly up to `top` times its value: every weight is then
      reconstructed as zero, beyond the bound. */
  lemma TinyChunk(v: real, k: Shape)
    requires IsShape(k) && v > 0.0
    ensures 0.00000000099999 < GUARD < 0.000000001
    ensures !GuardHarmless(seq(QK_K, _ => v), k, 0) <==> v <= (if k == Q3K then 3.0 else 31.0) * GUARD
  {
    var ws := seq(QK_K, _ => v);
    GuardPositive();
    ConstantMaxima(ws, v);
    FactorClose(ws, k, 0);
    if k == Q3K {
      EqualFactor(v, v / 21.0, k, 7.0);
    } else {
      EqualFactor(v, v / 3937.0, k, 127.0);
    }
    hide GUARD, FactorOf;
  }

  lemma ConstantMaxima(ws: seq<real>, v: real)
    requires |ws| == QK_K && v > 0.0 && forall i :: 0 <= i < QK_K ==> ws[i] == v
    ensures forall sub :: 0 <= sub < SUBS ==> SubMax(ws, sub) == v
    ensures Overall(ws, SUBS) == v
  {
    forall sub | 0 <= sub < SUBS
      ensures SubMax(ws, sub) == v
    {
      ConstantAbsMax(ws, v, SUB_SIZE * sub, SUB_SIZE);
    }
    ConstantOverall(ws, v, SUBS);
  }

  lemma {:induction false} ConstantAbsMax(ws: seq<real>, v: real, lo: nat, n: nat)
    requires lo + n <= |ws| && v > 0.0 && forall i :: 0 <= i < |ws| ==> ws[i] == v
    ensures AbsMax(ws, lo, n) == if n == 0 then 0.0 else v
  {
    if n > 0 {
      ConstantAbsMax(ws, v, lo, n - 1);
    }
  }

  lemma {:induction false} ConstantOverall(ws: seq<real>, v: real, n: nat)
    requires |ws| == QK_K && n <= SUBS && v > 0.0
    requires forall sub :: 0 <= sub < SUBS ==> SubMax(ws, sub) == v
    ensures Overall(ws, n) == if n == 0 then 0.0 else v
  {
    hide SubMax;
    if n > 0 {
      ConstantOverall(ws, v, n - 1);
    }
  }
}
