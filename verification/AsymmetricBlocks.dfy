/** The block formats Q2_K, Q4_K and Q5_K: quantisation into packed bytes and dequantisation, and the error of
    the round trip. Conversion of the two super-block values to f16 is the parameter `half`. */
module AsymmetricBlocks {
  import opened Asymmetric
  import opened Packing
  import opened Results
  import opened Rounding
  import opened Sequences

  datatype Error = BadLength | OutputTooShort

  function CodeBytes(ws: seq<real>, k: Shape): (codes: seq<bv8>)
    requires IsShape(k) && |ws| == QK_K
    ensures |codes| == QK_K
  {
    seq(QK_K, i requires 0 <= i < QK_K => ToByte(Code(ws, k, i)))
  }

  /** One weight: shift by the minimum, scale, round, clamp. */
  method QuantizeWeight(w: real, mnF: real, invSc: real, levels: nat, ghost scF: real) returns (q: bv8)
    requires invSc == Inverse(scF)
    ensures q == ToByte(CodeOf(w + mnF, scF, levels))
  {
    hide ToByte, CodeOf;
    var val := w + mnF;
    var c := RoundCode(val, invSc, levels, scF);
    q := ToByte(c);
  }

  method RoundCode(val: real, invSc: real, levels: nat, ghost scF: real) returns (c: int)
    requires invSc == Inverse(scF)
    ensures c == CodeOf(val, scF, levels)
  {
    c := Clamp(val * invSc + 0.5, 0.0, levels as real).Floor;
  }

  /** The scale and minimum of a sub-block from the units and the factors. */
  method SubBlockParameters(ghost ws: seq<real>, ghost k: Shape, ghost sub: nat, d: real, dmin: real, sc: bv8, mn: bv8)
    returns (scF: real, mnF: real, invSc: real)
    requires IsShape(k) && |ws| == QK_K && sub < k.subs && d == D(ws, k) && dmin == DMin(ws, k)
    requires sc == ToByte(ScaleCode(ws, k, sub)) && mn == ToByte(MinCode(ws, k, sub))
    ensures scF == EffScale(ws, k, sub) && mnF == EffMin(ws, k, sub)
    ensures invSc == Inverse(scF)
  {
    hide D, DMin, ScaleCode, MinCode, ToByte;
    CodesInRange(ws, k, sub);
    ToByteInt(ScaleCode(ws, k, sub));
    ToByteInt(MinCode(ws, k, sub));
    scF := d * (sc as int as real);
    mnF := dmin * (mn as int as real);
    invSc := if scF > 0.0 then 1.0 / scF else 0.0;
  }

  // ----- Q2_K -----

  datatype BlockQ2K = BlockQ2K(scales: seq<bv8>, qs: seq<bv8>, d: real, dmin: real) {
    predicate Valid() {
      |scales| == 16 && |qs| == 64
    }

    /** Weight i as it is dequantised. */
    function Weight(i: nat): real
      requires Valid() && i < QK_K
    {
      FromStored(d, dmin, LowNibble(scales[i / 16]) as int, HighNibble(scales[i / 16]) as int, Lane(qs, 2, i) as int)
    }
  }

  /** The block holds the factors and codes of the weights. */
  ghost predicate EncodesQ2K(b: BlockQ2K, ws: seq<real>, half: real -> real)
    requires |ws| == QK_K
  {
    && b.Valid() && b.d == half(D(ws, Q2K)) && b.dmin == half(DMin(ws, Q2K))
    && (forall sub :: 0 <= sub < 16 ==>
          && LowNibble(b.scales[sub]) == ToByte(ScaleCode(ws, Q2K, sub))
          && HighNibble(b.scales[sub]) == ToByte(MinCode(ws, Q2K, sub)))
    && Filled(b.qs, 2, CodeBytes(ws, Q2K), QK_K, QK_K)
  }

  method QuantizeBlockQ2K(chunk: seq<real>, half: real -> real) returns (b: BlockQ2K)
    requires |chunk| == QK_K
    ensures EncodesQ2K(b, chunk, half)
  {
    hide D, DMin, ScaleCode, MinCode, Code, CodeBytes, ToByte, Filled, LowNibble, HighNibble;
    var d, dmin, quantSc, quantMn := SubBlockFactors(chunk, Q2K);
    var scales: seq<bv8> := [];
    for sub := 0 to 16
      invariant |scales| == sub
      invariant forall t :: 0 <= t < sub ==>
                  && LowNibble(scales[t]) == ToByte(ScaleCode(chunk, Q2K, t))
                  && HighNibble(scales[t]) == ToByte(MinCode(chunk, Q2K, t))
    {
      PackFactors(chunk, sub);
      scales := scales + [OrAt(quantSc[sub], quantMn[sub], 4)];
    }
    var qs := new bv8[64](_ => 0);
    ghost var codes := CodeBytes(chunk, Q2K);
    FilledStart(qs[..], 2, codes, QK_K);
    for sub := 0 to 16
      invariant Filled(qs[..], 2, codes, 16 * sub, QK_K)
    {
      var scF, mnF, invSc := SubBlockParameters(chunk, Q2K, sub, d, dmin, quantSc[sub], quantMn[sub]);
      for j := 0 to 16
        invariant Filled(qs[..], 2, codes, 16 * sub + j, QK_K)
      {
        var i := 16 * sub + j;
        var q := QuantizeWeight(chunk[i], mnF, invSc, 3, scF);
        CodeByteIs(chunk, Q2K, i, q);
        PutLane(qs, 2, i, q, codes, QK_K);
      }
    }
    b := BlockQ2K(scales, qs[..], half(d), half(dmin));
  }

  lemma PackFactors(ws: seq<real>, sub: nat)
    requires |ws| == QK_K && sub < 16
    ensures var sc, mn := ToByte(ScaleCode(ws, Q2K, sub)), ToByte(MinCode(ws, Q2K, sub));
            LowNibble(OrAt(sc, mn, 4)) == sc && HighNibble(OrAt(sc, mn, 4)) == mn
  {
    hide ScaleCode, MinCode, ToByte, LowNibble, HighNibble, OrAt;
    CodesInRange(ws, Q2K, sub);
    ToByteSmall(ScaleCode(ws, Q2K, sub));
    ToByteSmall(MinCode(ws, Q2K, sub));
    TwoFactors(ToByte(ScaleCode(ws, Q2K, sub)), ToByte(MinCode(ws, Q2K, sub)));
  }

  lemma TwoFactors(sc: bv8, mn: bv8)
    requires sc <= 0x0F && mn <= 0x0F
    ensures LowNibble(OrAt(sc, mn, 4)) == sc && HighNibble(OrAt(sc, mn, 4)) == mn
  {
  }

  lemma CodeByteIs(ws: seq<real>, k: Shape, i: nat, q: bv8)
    requires IsShape(k) && |ws| == QK_K && i < QK_K && i / k.size < k.subs
    requires q == ToByte(CodeOf(ws[i] + EffMin(ws, k, i / k.size), EffScale(ws, k, i / k.size), k.levels))
    ensures q == CodeBytes(ws, k)[i]
    ensures q < 32 && (k.levels <= 15 ==> q <= 0x0F) && (k.levels <= 3 ==> q <= 0x03)
  {
    hide EffMin, EffScale, CodeOf, ToByte;
    WeightError(ws, k, i);
    ToByteSmall(Code(ws, k, i));
  }

  /** Every weight of a Q2_K block is within the bound of the original. */
  lemma Q2KError(b: BlockQ2K, ws: seq<real>, half: real -> real, i: nat)
    requires |ws| == QK_K && i < QK_K && EncodesQ2K(b, ws, half)
    ensures Abs(ws[i] - b.Weight(i)) <= ErrorBound(ws, Q2K, i) + StorageError(ws, Q2K, i, b.d, b.dmin)
  {
    hide D, DMin, ScaleCode, MinCode, Code, ToByte, LowNibble, HighNibble, Lane, ErrorBound, StorageError, FromStored;
    StoredWeightError(ws, Q2K, i, b.d, b.dmin);
    CodesInRange(ws, Q2K, i / 16);
    WeightError(ws, Q2K, i);
    ToByteInt(ScaleCode(ws, Q2K, i / 16));
    ToByteInt(MinCode(ws, Q2K, i / 16));
    ToByteInt(Code(ws, Q2K, i));
  }

  method QuantizeQ2K(input: seq<real>, half: real -> real) returns (r: Result<seq<BlockQ2K>, Error>)
    ensures |input| % QK_K != 0 <==> r == Err(BadLength)
    ensures r.Ok? ==> |r.value| == |input| / QK_K
    ensures r.Ok? ==> forall b :: 0 <= b < |r.value| ==> EncodesQ2K(r.value[b], Chunk(input, QK_K, b), half)
  {
    hide EncodesQ2K;
    if |input| % QK_K != 0 {
      return Err(BadLength);
    }
    var blocks: seq<BlockQ2K> := [];
    for blockIdx := 0 to |input| / QK_K
      invariant |blocks| == blockIdx
      invariant forall b :: 0 <= b < blockIdx ==> EncodesQ2K(blocks[b], Chunk(input, QK_K, b), half)
    {
      var b := QuantizeBlockQ2K(Chunk(input, QK_K, blockIdx), half);
      blocks := blocks + [b];
    }
    r := Ok(blocks);
  }

  method DequantQ2K(blocks: seq<BlockQ2K>, output: array<real>) returns (r: Result<(), Error>)
    requires forall b :: 0 <= b < |blocks| ==> blocks[b].Valid()
    modifies output
    ensures r == if output.Length < QK_K * |blocks| then Err(OutputTooShort) else Ok(())
    ensures forall i :: 0 <= i < output.Length ==>
              output[i] == if r.Ok? && i < QK_K * |blocks| then blocks[i / QK_K].Weight(i % QK_K) else old(output[i])
  {
    hide FromStored, LowNibble, HighNibble, Field;
    if output.Length < QK_K * |blocks| {
      return Err(OutputTooShort);
    }
    for blockIdx := 0 to |blocks|
      invariant forall i :: 0 <= i < output.Length ==>
                  output[i] == if i < QK_K * blockIdx then blocks[i / QK_K].Weight(i % QK_K) else old(output[i])
    {
      var block := blocks[blockIdx];
      for sub := 0 to 16
        invariant forall i :: 0 <= i < output.Length ==>
                    output[i] == if i < QK_K * blockIdx + 16 * sub then blocks[i / QK_K].Weight(i % QK_K)
                                 else old(output[i])
      {
        for j := 0 to 16
          invariant forall i :: 0 <= i < output.Length ==>
                      output[i] == if i < QK_K * blockIdx + 16 * sub + j then blocks[i / QK_K].Weight(i % QK_K)
                                   else old(output[i])
        {
          var i := 16 * sub + j;
          var sc, mn := LowNibble(block.scales[sub]), HighNibble(block.scales[sub]);
          var q := Field(block.qs[i / 4], 2 * (i % 4), 0x03);
          output[QK_K * blockIdx + i] := FromStored(block.d, block.dmin, sc as int, mn as int, q as int);
          assert (QK_K * blockIdx + i) / QK_K == blockIdx && (QK_K * blockIdx + i) % QK_K == i;
        }
      }
    }
    r := Ok(());
  }

  /** Quantising and dequantising an input of any number of chunks moves each weight by at most the bound. */
  lemma Q2KRoundTrip(input: seq<real>, blocks: seq<BlockQ2K>, half: real -> real, i: nat)
    requires |input| % QK_K == 0 && |blocks| == |input| / QK_K && i < |input|
    requires forall b :: 0 <= b < |blocks| ==> EncodesQ2K(blocks[b], Chunk(input, QK_K, b), half)
    ensures var b, ws := blocks[i / QK_K], Chunk(input, QK_K, i / QK_K);
            b.Valid() && Abs(input[i] - b.Weight(i % QK_K)) <=
            ErrorBound(ws, Q2K, i % QK_K) + StorageError(ws, Q2K, i % QK_K, half(D(ws, Q2K)), half(DMin(ws, Q2K)))
    ensures var b, ws := blocks[i / QK_K], Chunk(input, QK_K, i / QK_K);
            HalfPrecision(half, D(ws, Q2K)) && HalfPrecision(half, DMin(ws, Q2K)) ==>
              Abs(input[i] - b.Weight(i % QK_K)) <= HalfBound(ws, Q2K, i % QK_K)
              <= Peak(ws) / 3.0 + 3.0 * Peak(ws) / 2048.0
  {
    hide ErrorBound, StorageError, D, DMin, Abs, HalfPrecision, Level, EffMin, Peak;
    var b, ws := blocks[i / QK_K], Chunk(input, QK_K, i / QK_K);
    if HalfPrecision(half, D(ws, Q2K)) && HalfPrecision(half, DMin(ws, Q2K)) {
      HalfStorage(ws, Q2K, i % QK_K, half);
      HalfWithin(ws, Q2K, i % QK_K);
    }
    Q2KError(b, ws, half, i % QK_K);
    assert ws[i % QK_K] == input[i];
  }

  // ----- Q4_K -----

  datatype BlockQ4K = BlockQ4K(d: real, dmin: real, scales: seq<bv8>, qs: seq<bv8>) {
    predicate Valid() {
      |scales| == 12 && |qs| == 128
    }

    function Weight(i: nat): real
      requires Valid() && i < QK_K
    {
      FromStored(d, dmin, UnpackedScales(scales)[i / 32] as int, UnpackedMins(scales)[i / 32] as int,
                 Lane(qs, 4, i) as int)
    }
  }

  /** The packed scales give back the factors of the weights. */
  ghost predicate HoldsFactors(scales: seq<bv8>, ws: seq<real>, k: Shape)
    requires |ws| == QK_K && (k == Q4K || k == Q5K)
  {
    && |scales| == 12
    && forall sub :: 0 <= sub < 8 ==>
          && UnpackedScales(scales)[sub] == ToByte(ScaleCode(ws, k, sub))
          && UnpackedMins(scales)[sub] == ToByte(MinCode(ws, k, sub))
  }

  ghost predicate EncodesQ4K(b: BlockQ4K, ws: seq<real>, half: real -> real)
    requires |ws| == QK_K
  {
    && b.Valid() && b.d == half(D(ws, Q4K)) && b.dmin == half(DMin(ws, Q4K))
    && HoldsFactors(b.scales, ws, Q4K)
    && Filled(b.qs, 4, CodeBytes(ws, Q4K), QK_K, QK_K)
  }

  method PackScales(ghost ws: seq<real>, ghost k: Shape, sc: seq<bv8>, mn: seq<bv8>) returns (scales: seq<bv8>)
    requires |ws| == QK_K && (k == Q4K || k == Q5K) && |sc| == |mn| == 8
    requires forall sub :: 0 <= sub < 8 ==>
               sc[sub] == ToByte(ScaleCode(ws, k, sub)) && mn[sub] == ToByte(MinCode(ws, k, sub))
    ensures |scales| == 12 && HoldsFactors(scales, ws, k)
  {
    hide ScaleCode, MinCode, ToByte, Packed, UnpackedScales, UnpackedMins;
    scales := EncodeScales(sc, mn);
    forall sub | 0 <= sub < 8
      ensures sc[sub] < 64 && mn[sub] < 64
    {
      CodesInRange(ws, k, sub);
      ToByteSmall(ScaleCode(ws, k, sub));
      ToByteSmall(MinCode(ws, k, sub));
    }
    UnpackPacked(sc, mn);
  }

  method QuantizeBlockQ4K(chunk: seq<real>, half: real -> real) returns (b: BlockQ4K)
    requires |chunk| == QK_K
    ensures EncodesQ4K(b, chunk, half)
  {
    hide D, DMin, ScaleCode, MinCode, Code, CodeBytes, ToByte, Filled, LowNibble, HoldsFactors;
    var d, dmin, sc, mn := SubBlockFactors(chunk, Q4K);
    var scales := PackScales(chunk, Q4K, sc, mn);
    var qs := new bv8[128](_ => 0);
    ghost var codes := CodeBytes(chunk, Q4K);
    FilledStart(qs[..], 4, codes, QK_K);
    for sub := 0 to 8
      invariant Filled(qs[..], 4, codes, 32 * sub, QK_K)
    {
      var scF, mnF, invSc := SubBlockParameters(chunk, Q4K, sub, d, dmin, sc[sub], mn[sub]);
      for j := 0 to 32
        invariant Filled(qs[..], 4, codes, 32 * sub + j, QK_K)
      {
        var i := 32 * sub + j;
        var q := QuantizeWeight(chunk[i], mnF, invSc, 15, scF);
        CodeByteIs(chunk, Q4K, i, q);
        NibbleItself(q);
        PutLane(qs, 4, i, LowNibble(q), codes, QK_K);
      }
    }
    b := BlockQ4K(half(d), half(dmin), scales, qs[..]);
  }

  lemma NibbleItself(q: bv8)
    requires q <= 0x0F
    ensures LowNibble(q) == q
  {
  }

  /** Every weight of a Q4_K block is within the bound of the original. */
  lemma Q4KError(b: BlockQ4K, ws: seq<real>, half: real -> real, i: nat)
    requires |ws| == QK_K && i < QK_K && EncodesQ4K(b, ws, half)
    ensures Abs(ws[i] - b.Weight(i)) <= ErrorBound(ws, Q4K, i) + StorageError(ws, Q4K, i, b.d, b.dmin)
  {
    hide D, DMin, ScaleCode, MinCode, Code, ToByte, UnpackedScales, UnpackedMins, Lane;
    hide ErrorBound, StorageError, FromStored;
    StoredWeightError(ws, Q4K, i, b.d, b.dmin);
    CodesInRange(ws, Q4K, i / 32);
    WeightError(ws, Q4K, i);
    ToByteInt(ScaleCode(ws, Q4K, i / 32));
    ToByteInt(MinCode(ws, Q4K, i / 32));
    ToByteInt(Code(ws, Q4K, i));
  }

  method QuantizeQ4K(input: seq<real>, half: real -> real) returns (r: Result<seq<BlockQ4K>, Error>)
    ensures |input| % QK_K != 0 <==> r == Err(BadLength)
    ensures r.Ok? ==> |r.value| == |input| / QK_K
    ensures r.Ok? ==> forall b :: 0 <= b < |r.value| ==> EncodesQ4K(r.value[b], Chunk(input, QK_K, b), half)
  {
    hide EncodesQ4K;
    if |input| % QK_K != 0 {
      return Err(BadLength);
    }
    var blocks: seq<BlockQ4K> := [];
    for blockIdx := 0 to |input| / QK_K
      invariant |blocks| == blockIdx
      invariant forall b :: 0 <= b < blockIdx ==> EncodesQ4K(blocks[b], Chunk(input, QK_K, b), half)
    {
      var b := QuantizeBlockQ4K(Chunk(input, QK_K, blockIdx), half);
      blocks := blocks + [b];
    }
    r := Ok(blocks);
  }

  method DequantQ4K(blocks: seq<BlockQ4K>, output: array<real>) returns (r: Result<(), Error>)
    requires forall b :: 0 <= b < |blocks| ==> blocks[b].Valid()
    modifies output
    ensures r == if output.Length < QK_K * |blocks| then Err(OutputTooShort) else Ok(())
    ensures forall i :: 0 <= i < output.Length ==>
              output[i] == if r.Ok? && i < QK_K * |blocks| then blocks[i / QK_K].Weight(i % QK_K) else old(output[i])
  {
    hide UnpackedScales, UnpackedMins, Field, FromStored;
    if output.Length < QK_K * |blocks| {
      return Err(OutputTooShort);
    }
    for blockIdx := 0 to |blocks|
      invariant forall i :: 0 <= i < output.Length ==>
                  output[i] == if i < QK_K * blockIdx then blocks[i / QK_K].Weight(i % QK_K) else old(output[i])
    {
      var block := blocks[blockIdx];
      var sc, mn := DecodeScales(block.scales);
      for sub := 0 to 8
        invariant forall i :: 0 <= i < output.Length ==>
                    output[i] == if i < QK_K * blockIdx + 32 * sub then blocks[i / QK_K].Weight(i % QK_K)
                                 else old(output[i])
      {
        for j := 0 to 32
          invariant forall i :: 0 <= i < output.Length ==>
                      output[i] == if i < QK_K * blockIdx + 32 * sub + j then blocks[i / QK_K].Weight(i % QK_K)
                                   else old(output[i])
        {
          var i := 32 * sub + j;
          var q := Field(block.qs[i / 2], 4 * (i % 2), 0x0F);
          output[QK_K * blockIdx + i] := FromStored(block.d, block.dmin, sc[sub] as int, mn[sub] as int, q as int);
          assert (QK_K * blockIdx + i) / QK_K == blockIdx && (QK_K * blockIdx + i) % QK_K == i;
        }
      }
    }
    r := Ok(());
  }

  /** Quantising and dequantising an input of any number of chunks moves each weight by at most the bound. */
  lemma Q4KRoundTrip(input: seq<real>, blocks: seq<BlockQ4K>, half: real -> real, i: nat)
    requires |input| % QK_K == 0 && |blocks| == |input| / QK_K && i < |input|
    requires forall b :: 0 <= b < |blocks| ==> EncodesQ4K(blocks[b], Chunk(input, QK_K, b), half)
    ensures var b, ws := blocks[i / QK_K], Chunk(input, QK_K, i / QK_K);
            b.Valid() && Abs(input[i] - b.Weight(i % QK_K)) <=
            ErrorBound(ws, Q4K, i % QK_K) + StorageError(ws, Q4K, i % QK_K, half(D(ws, Q4K)), half(DMin(ws, Q4K)))
    ensures var b, ws := blocks[i / QK_K], Chunk(input, QK_K, i / QK_K);
            HalfPrecision(half, D(ws, Q4K)) && HalfPrecision(half, DMin(ws, Q4K)) ==>
              Abs(input[i] - b.Weight(i % QK_K)) <= HalfBound(ws, Q4K, i % QK_K)
              <= Peak(ws) / 15.0 + 3.0 * Peak(ws) / 2048.0
  {
    hide ErrorBound, StorageError, D, DMin, Abs, HalfPrecision, Level, EffMin, Peak;
    var b, ws := blocks[i / QK_K], Chunk(input, QK_K, i / QK_K);
    if HalfPrecision(half, D(ws, Q4K)) && HalfPrecision(half, DMin(ws, Q4K)) {
      HalfStorage(ws, Q4K, i % QK_K, half);
      HalfWithin(ws, Q4K, i % QK_K);
    }
    Q4KError(b, ws, half, i % QK_K);
    assert ws[i % QK_K] == input[i];
  }

  // ----- Q5_K -----

  datatype BlockQ5K = BlockQ5K(d: real, dmin: real, scales: seq<bv8>, qh: seq<bv8>, qs: seq<bv8>) {
    predicate Valid() {
      |scales| == 12 && |qh| == 32 && |qs| == 128
    }

    /** The 5-bit code: a nibble and a high bit from two planes. */
    function Code5(i: nat): bv8
      requires Valid() && i < QK_K
    {
      OrAt(Lane(qs, 4, i), Lane(qh, 1, i), 4)
    }

    function Weight(i: nat): real
      requires Valid() && i < QK_K
    {
      FromStored(d, dmin, UnpackedScales(scales)[i / 32] as int, UnpackedMins(scales)[i / 32] as int, Code5(i) as int)
    }
  }

  function FifthBit(q: bv8): bv8 {
    (q >> 4) & 1
  }

  function LowCodes(codes: seq<bv8>): (low: seq<bv8>)
    ensures |low| == |codes|
  {
    seq(|codes|, i requires 0 <= i < |codes| => LowNibble(codes[i]))
  }

  function FifthBits(codes: seq<bv8>): (high: seq<bv8>)
    ensures |high| == |codes|
  {
    seq(|codes|, i requires 0 <= i < |codes| => FifthBit(codes[i]))
  }

  ghost predicate EncodesQ5K(b: BlockQ5K, ws: seq<real>, half: real -> real)
    requires |ws| == QK_K
  {
    && b.Valid() && b.d == half(D(ws, Q5K)) && b.dmin == half(DMin(ws, Q5K))
    && HoldsFactors(b.scales, ws, Q5K)
    && forall i :: 0 <= i < QK_K ==> b.Code5(i) == CodeBytes(ws, Q5K)[i]
  }

  lemma SplitFive(q: bv8)
    requires q < 32
    ensures LowNibble(q) <= 0x0F && FifthBit(q) <= 1 && OrAt(LowNibble(q), FifthBit(q), 4) == q
  {
  }

  method QuantizeBlockQ5K(chunk: seq<real>, half: real -> real) returns (b: BlockQ5K)
    requires |chunk| == QK_K
    ensures EncodesQ5K(b, chunk, half)
  {
    hide D, DMin, ScaleCode, MinCode, Code, CodeBytes, ToByte, Filled, LowNibble, FifthBit, HoldsFactors;
    var d, dmin, sc, mn := SubBlockFactors(chunk, Q5K);
    var scales := PackScales(chunk, Q5K, sc, mn);
    var qs := new bv8[128](_ => 0);
    var qh := new bv8[32](_ => 0);
    ghost var codes := CodeBytes(chunk, Q5K);
    ghost var low, high := LowCodes(codes), FifthBits(codes);
    FilledStart(qs[..], 4, low, QK_K);
    FilledStart(qh[..], 1, high, QK_K);
    for sub := 0 to 8
      invariant Filled(qs[..], 4, low, 32 * sub, QK_K) && Filled(qh[..], 1, high, 32 * sub, QK_K)
    {
      var scF, mnF, invSc := SubBlockParameters(chunk, Q5K, sub, d, dmin, sc[sub], mn[sub]);
      for j := 0 to 32
        invariant Filled(qs[..], 4, low, 32 * sub + j, QK_K) && Filled(qh[..], 1, high, 32 * sub + j, QK_K)
      {
        var i := 32 * sub + j;
        var q5 := QuantizeWeight(chunk[i], mnF, invSc, 31, scF);
        CodeByteIs(chunk, Q5K, i, q5);
        SplitFive(q5);
        PutLane(qs, 4, i, LowNibble(q5), low, QK_K);
        PutLane(qh, 1, i, FifthBit(q5), high, QK_K);
      }
    }
    b := BlockQ5K(half(d), half(dmin), scales, qh[..], qs[..]);
    CodeBytesSmall(chunk, Q5K);
    PlanesJoin(b, codes);
  }

  lemma CodeBytesSmall(ws: seq<real>, k: Shape)
    requires IsShape(k) && |ws| == QK_K
    ensures forall i :: 0 <= i < QK_K ==> CodeBytes(ws, k)[i] < 32
  {
    hide Code, ToByte;
    forall i | 0 <= i < QK_K
      ensures CodeBytes(ws, k)[i] < 32
    {
      WeightError(ws, k, i);
      ToByteSmall(Code(ws, k, i));
    }
  }

  lemma PlanesJoin(b: BlockQ5K, codes: seq<bv8>)
    requires b.Valid() && |codes| == QK_K && forall i :: 0 <= i < QK_K ==> codes[i] < 32
    requires Filled(b.qs, 4, LowCodes(codes), QK_K, QK_K) && Filled(b.qh, 1, FifthBits(codes), QK_K, QK_K)
    ensures forall i :: 0 <= i < QK_K ==> b.Code5(i) == codes[i]
  {
    hide Lane, LowNibble, FifthBit, OrAt;
    forall i | 0 <= i < QK_K
      ensures b.Code5(i) == codes[i]
    {
      SplitFive(codes[i]);
    }
  }

  /** Every weight of a Q5_K block is within the bound of the original. */
  lemma Q5KError(b: BlockQ5K, ws: seq<real>, half: real -> real, i: nat)
    requires |ws| == QK_K && i < QK_K && EncodesQ5K(b, ws, half)
    ensures Abs(ws[i] - b.Weight(i)) <= ErrorBound(ws, Q5K, i) + StorageError(ws, Q5K, i, b.d, b.dmin)
  {
    hide D, DMin, ScaleCode, MinCode, Code, ToByte, UnpackedScales, UnpackedMins, Lane;
    hide ErrorBound, StorageError, FromStored;
    StoredWeightError(ws, Q5K, i, b.d, b.dmin);
    CodesInRange(ws, Q5K, i / 32);
    WeightError(ws, Q5K, i);
    ToByteInt(ScaleCode(ws, Q5K, i / 32));
    ToByteInt(MinCode(ws, Q5K, i / 32));
    ToByteInt(Code(ws, Q5K, i));
  }

  method QuantizeQ5K(input: seq<real>, half: real -> real) returns (r: Result<seq<BlockQ5K>, Error>)
    ensures |input| % QK_K != 0 <==> r == Err(BadLength)
    ensures r.Ok? ==> |r.value| == |input| / QK_K
    ensures r.Ok? ==> forall b :: 0 <= b < |r.value| ==> EncodesQ5K(r.value[b], Chunk(input, QK_K, b), half)
  {
    hide EncodesQ5K;
    if |input| % QK_K != 0 {
      return Err(BadLength);
    }
    var blocks: seq<BlockQ5K> := [];
    for blockIdx := 0 to |input| / QK_K
      invariant |blocks| == blockIdx
      invariant forall b :: 0 <= b < blockIdx ==> EncodesQ5K(blocks[b], Chunk(input, QK_K, b), half)
    {
      var b := QuantizeBlockQ5K(Chunk(input, QK_K, blockIdx), half);
      blocks := blocks + [b];
    }
    r := Ok(blocks);
  }

  method DequantQ5K(blocks: seq<BlockQ5K>, output: array<real>) returns (r: Result<(), Error>)
    requires forall b :: 0 <= b < |blocks| ==> blocks[b].Valid()
    modifies output
    ensures r == if output.Length < QK_K * |blocks| then Err(OutputTooShort) else Ok(())
    ensures forall i :: 0 <= i < output.Length ==>
              output[i] == if r.Ok? && i < QK_K * |blocks| then blocks[i / QK_K].Weight(i % QK_K) else old(output[i])
  {
    hide UnpackedScales, UnpackedMins, Field, OrAt;
    if output.Length < QK_K * |blocks| {
      return Err(OutputTooShort);
    }
    for blockIdx := 0 to |blocks|
      invariant forall i :: 0 <= i < output.Length ==>
                  output[i] == if i < QK_K * blockIdx then blocks[i / QK_K].Weight(i % QK_K) else old(output[i])
    {
      var block := blocks[blockIdx];
      var sc, mn := DecodeScales(block.scales);
      for sub := 0 to 8
        invariant forall i :: 0 <= i < output.Length ==>
                    output[i] == if i < QK_K * blockIdx + 32 * sub then blocks[i / QK_K].Weight(i % QK_K)
                                 else old(output[i])
      {
        for j := 0 to 32
          invariant forall i :: 0 <= i < output.Length ==>
                      output[i] == if i < QK_K * blockIdx + 32 * sub + j then blocks[i / QK_K].Weight(i % QK_K)
                                   else old(output[i])
        {
          var i := 32 * sub + j;
          var nibble := Field(block.qs[i / 2], 4 * (i % 2), 0x0F);
          var highBit := Field(block.qh[i / 8], i % 8, 0x01);
          var q5 := OrAt(nibble, highBit, 4);
          output[QK_K * blockIdx + i] := FromStored(block.d, block.dmin, sc[sub] as int, mn[sub] as int, q5 as int);
          assert (QK_K * blockIdx + i) / QK_K == blockIdx && (QK_K * blockIdx + i) % QK_K == i;
        }
      }
    }
    r := Ok(());
  }

  /** Quantising and dequantising an input of any number of chunks moves each weight by at most the bound. */
  lemma Q5KRoundTrip(input: seq<real>, blocks: seq<BlockQ5K>, half: real -> real, i: nat)
    requires |input| % QK_K == 0 && |blocks| == |input| / QK_K && i < |input|
    requires forall b :: 0 <= b < |blocks| ==> EncodesQ5K(blocks[b], Chunk(input, QK_K, b), half)
    ensures var b, ws := blocks[i / QK_K], Chunk(input, QK_K, i / QK_K);
            b.Valid() && Abs(input[i] - b.Weight(i % QK_K)) <=
            ErrorBound(ws, Q5K, i % QK_K) + StorageError(ws, Q5K, i % QK_K, half(D(ws, Q5K)), half(DMin(ws, Q5K)))
    ensures var b, ws := blocks[i / QK_K], Chunk(input, QK_K, i / QK_K);
            HalfPrecision(half, D(ws, Q5K)) && HalfPrecision(half, DMin(ws, Q5K)) ==>
              Abs(input[i] - b.Weight(i % QK_K)) <= HalfBound(ws, Q5K, i % QK_K)
              <= Peak(ws) / 31.0 + 3.0 * Peak(ws) / 2048.0
  {
    hide ErrorBound, StorageError, D, DMin, Abs, HalfPrecision, Level, EffMin, Peak;
    var b, ws := blocks[i / QK_K], Chunk(input, QK_K, i / QK_K);
    if HalfPrecision(half, D(ws, Q5K)) && HalfPrecision(half, DMin(ws, Q5K)) {
      HalfStorage(ws, Q5K, i % QK_K, half);
      HalfWithin(ws, Q5K, i % QK_K);
    }
    Q5KError(b, ws, half, i % QK_K);
    assert ws[i % QK_K] == input[i];
  }
}
