/** Whole tensors in the one-level formats Q4_0 and Q8_0. */
module SingleScaleBlocks {
  import opened Packing
  import opened Results
  import opened Rounding
  import opened Sequences
  import opened SingleScale

  method QuantizeQ4_0(input: seq<real>, half: real -> real) returns (r: Result<seq<BlockQ4_0>, Error>)
    ensures |input| % QK != 0 <==> r == Err(BadLength)
    ensures r.Ok? ==> |r.value| == |input| / QK
                      && forall b :: 0 <= b < |r.value| ==> EncodesQ4_0(r.value[b], Chunk(input, QK, b), half)
  {
    hide EncodesQ4_0;
    if |input| % QK != 0 {
      return Err(BadLength);
    }
    var blocks: seq<BlockQ4_0> := [];
    for blockIdx := 0 to |input| / QK
      invariant |blocks| == blockIdx
      invariant forall b :: 0 <= b < blockIdx ==> EncodesQ4_0(blocks[b], Chunk(input, QK, b), half)
    {
      var b := QuantizeBlockQ4_0(Chunk(input, QK, blockIdx), half);
      blocks := blocks + [b];
    }
    r := Ok(blocks);
  }

  /** The low nibble of a byte is the even weight, the high nibble the odd one. */
  method DequantQ4_0(blocks: seq<BlockQ4_0>, output: array<real>) returns (r: Result<(), Error>)
    requires forall b :: 0 <= b < |blocks| ==> blocks[b].Valid()
    modifies output
    ensures r == if output.Length < QK * |blocks| then Err(OutputTooShort) else Ok(())
    ensures forall i :: 0 <= i < output.Length ==>
              output[i] == if r.Ok? && i < QK * |blocks| then blocks[i / QK].Weight(i % QK) else old(output[i])
  {
    hide Scaled, Lane;
    if output.Length < QK * |blocks| {
      return Err(OutputTooShort);
    }
    for blockIdx := 0 to |blocks|
      invariant forall i :: 0 <= i < output.Length ==>
                  output[i] == if i < QK * blockIdx then blocks[i / QK].Weight(i % QK) else old(output[i])
    {
      var block := blocks[blockIdx];
      for j := 0 to QK
        invariant forall i :: 0 <= i < output.Length ==>
                    output[i] == if i < QK * blockIdx + j then blocks[i / QK].Weight(i % QK) else old(output[i])
      {
        var nibble := if j % 2 == 0 then LowNibble(block.qs[j / 2]) else HighNibble(block.qs[j / 2]);
        NibbleLane(block.qs, j);
        output[QK * blockIdx + j] := Scaled(block.d, nibble as int - 8);
        assert (QK * blockIdx + j) / QK == blockIdx && (QK * blockIdx + j) % QK == j;
      }
    }
    r := Ok(());
  }

  lemma NibbleLane(qs: seq<bv8>, j: nat)
    requires j / 2 < |qs|
    ensures Lane(qs, 4, j) == if j % 2 == 0 then LowNibble(qs[j / 2]) else HighNibble(qs[j / 2])
  {
    if j % 2 == 0 {} else {}
  }

  method QuantizeQ8_0(input: seq<real>, half: real -> real) returns (r: Result<seq<BlockQ8_0>, Error>)
    ensures |input| % QK != 0 <==> r == Err(BadLength)
    ensures r.Ok? ==> |r.value| == |input| / QK
                      && forall b :: 0 <= b < |r.value| ==> EncodesQ8_0(r.value[b], Chunk(input, QK, b), half)
  {
    hide EncodesQ8_0;
    if |input| % QK != 0 {
      return Err(BadLength);
    }
    var blocks: seq<BlockQ8_0> := [];
    for blockIdx := 0 to |input| / QK
      invariant |blocks| == blockIdx
      invariant forall b :: 0 <= b < blockIdx ==> EncodesQ8_0(blocks[b], Chunk(input, QK, b), half)
    {
      var b := QuantizeBlockQ8_0(Chunk(input, QK, blockIdx), half);
      blocks := blocks + [b];
    }
    r := Ok(blocks);
  }

  method DequantQ8_0(blocks: seq<BlockQ8_0>, output: array<real>) returns (r: Result<(), Error>)
    requires forall b :: 0 <= b < |blocks| ==> blocks[b].Valid()
    modifies output
    ensures r == if output.Length < QK * |blocks| then Err(OutputTooShort) else Ok(())
    ensures forall i :: 0 <= i < output.Length ==>
              output[i] == if r.Ok? && i < QK * |blocks| then blocks[i / QK].Weight(i % QK) else old(output[i])
  {
    hide Scaled;
    if output.Length < QK * |blocks| {
      return Err(OutputTooShort);
    }
    for blockIdx := 0 to |blocks|
      invariant forall i :: 0 <= i < output.Length ==>
                  output[i] == if i < QK * blockIdx then blocks[i / QK].Weight(i % QK) else old(output[i])
    {
      var block := blocks[blockIdx];
      for j := 0 to QK
        invariant forall i :: 0 <= i < output.Length ==>
                    output[i] == if i < QK * blockIdx + j then blocks[i / QK].Weight(i % QK) else old(output[i])
      {
        output[QK * blockIdx + j] := Scaled(block.d, block.qs[j]);
        assert (QK * blockIdx + j) / QK == blockIdx && (QK * blockIdx + j) % QK == j;
      }
    }
    r := Ok(());
  }

  /** Quantised to Q4_0 with an f16 scale in range and read back, every weight of a tensor is within half its block's
      stored scale. */
  lemma Q4_0TensorError(input: seq<real>, blocks: seq<BlockQ4_0>, half: real -> real, i: nat)
    requires |input| % QK == 0 && |blocks| == |input| / QK && i < |input|
    requires forall b :: 0 <= b < |blocks| ==> EncodesQ4_0(blocks[b], Chunk(input, QK, b), half)
    requires HalfPrecision(half, Peak(Chunk(input, QK, i / QK)) / 7.0)
    ensures blocks[i / QK].Valid()
    ensures Abs(input[i] - blocks[i / QK].Weight(i % QK)) <= blocks[i / QK].d / 2.0
            <= Peak(Chunk(input, QK, i / QK)) / 13.99
  {
    hide Peak, Abs, HalfPrecision;
    var ws := Chunk(input, QK, i / QK);
    Q4_0HalfScale(blocks[i / QK], ws, half, i % QK);
    assert ws[i % QK] == input[i];
  }

  /** Likewise for Q8_0. */
  lemma Q8_0TensorError(input: seq<real>, blocks: seq<BlockQ8_0>, half: real -> real, i: nat)
    requires |input| % QK == 0 && |blocks| == |input| / QK && i < |input|
    requires forall b :: 0 <= b < |blocks| ==> EncodesQ8_0(blocks[b], Chunk(input, QK, b), half)
    requires HalfPrecision(half, Peak(Chunk(input, QK, i / QK)) / 127.0)
    ensures blocks[i / QK].Valid()
    ensures Abs(input[i] - blocks[i / QK].Weight(i % QK)) <= blocks[i / QK].d / 2.0
            <= Peak(Chunk(input, QK, i / QK)) / 253.8
  {
    hide Peak, Abs, HalfPrecision;
    var ws := Chunk(input, QK, i / QK);
    Q8_0HalfScale(blocks[i / QK], ws, half, i % QK);
    assert ws[i % QK] == input[i];
  }
}
