/** Ternary quantisation and dequantisation of whole tensors. */
module TernaryBlocks {
  import opened Bits
  import opened Blocked
  import opened Results
  import opened Rounding
  import opened Sequences
  import opened SingleScale
  import opened Ternary

  ghost predicate ValidBlocks(blocks: seq<BlockTQ2>, size: nat) {
    forall b :: 0 <= b < |blocks| ==> blocks[b].Valid(size)
  }

  /** The weights of each block. */
  ghost function AllWeights(blocks: seq<BlockTQ2>, size: nat): (ws: seq<seq<real>>)
    requires ValidBlocks(blocks, size)
    ensures |ws| == |blocks| && Uniform(ws, size)
  {
    seq(|blocks|, b requires 0 <= b < |blocks| => Weights(blocks[b]))
  }

  /** The tensor the blocks stand for. */
  ghost function Tensor(blocks: seq<BlockTQ2>, size: nat): (s: seq<real>)
    requires ValidBlocks(blocks, size)
    ensures |s| == size * |blocks|
  {
    Flat(AllWeights(blocks, size), size)
  }

  lemma TensorAt(blocks: seq<BlockTQ2>, size: nat, b: nat, j: nat)
    requires ValidBlocks(blocks, size) && b < |blocks| && j < size
    ensures size * b + j < |Tensor(blocks, size)| && Tensor(blocks, size)[size * b + j] == blocks[b].Weight(j)
  {
    FlatAt(AllWeights(blocks, size), size, b, j);
  }

  lemma ChunkInRange(size: nat, b: nat, total: nat)
    requires size > 0 && total % size == 0 && b < total / size
    ensures size * b + size <= total
  {
    MulMonotone(size, b + 1, total / size);
  }

  ghost predicate EncodesAll(blocks: seq<BlockTQ2>, input: seq<real>, size: nat, half: real -> real)
    requires size > 0 && |input| % size == 0
  {
    && |blocks| == |input| / size
    && forall b :: 0 <= b < |blocks| ==>
         size * b + size <= |input| && Encodes(blocks[b], Chunk(input, size, b), half)
  }

  method Quantize(input: seq<real>, size: nat, half: real -> real) returns (r: Result<seq<BlockTQ2>, Error>)
    requires IsSize(size)
    ensures |input| % size != 0 <==> r == Err(BadLength)
    ensures r.Ok? ==> EncodesAll(r.value, input, size, half)
  {
    hide Encodes;
    if |input| % size != 0 {
      return Err(BadLength);
    }
    var blocks: seq<BlockTQ2> := [];
    for blockIdx := 0 to |input| / size
      invariant |blocks| == blockIdx
      invariant forall b :: 0 <= b < blockIdx ==>
                  size * b + size <= |input| && Encodes(blocks[b], Chunk(input, size, b), half)
    {
      ChunkInRange(size, blockIdx, |input|);
      var b := QuantizeBlock(Chunk(input, size, blockIdx), half);
      blocks := blocks + [b];
    }
    r := Ok(blocks);
  }

  /** `s` is the tensor, over a buffer whose remaining elements are those of `was`. */
  ghost predicate Written(s: seq<real>, was: seq<real>, tensor: seq<real>, n: nat)
    requires n <= |tensor|
  {
    |s| == |was| && n <= |s| && forall i :: 0 <= i < |s| ==> s[i] == if i < n then tensor[i] else was[i]
  }

  method Dequant(blocks: seq<BlockTQ2>, size: nat, output: array<real>) returns (r: Result<(), Error>)
    requires IsSize(size) && ValidBlocks(blocks, size)
    modifies output
    ensures r == if output.Length < size * |blocks| then Err(OutputTooShort) else Ok(())
    ensures r.Err? ==> output[..] == old(output[..])
    ensures r.Ok? ==> Written(output[..], old(output[..]), Tensor(blocks, size), size * |blocks|)
  {
    hide Tensor, Scaled, TernaryDecode;
    if output.Length < size * |blocks| {
      return Err(OutputTooShort);
    }
    for blockIdx := 0 to |blocks|
      invariant Written(output[..], old(output[..]), Tensor(blocks, size), size * blockIdx)
    {
      var block := blocks[blockIdx];
      for j := 0 to size
        invariant size * blockIdx + j <= size * |blocks|
        invariant Written(output[..], old(output[..]), Tensor(blocks, size), size * blockIdx + j)
      {
        TensorAt(blocks, size, blockIdx, j);
        output[size * blockIdx + j] := Scaled(block.d, TernaryDecode(block.qs[j / 4], j % 4));
      }
    }
    r := Ok(());
  }

  /** Every weight of a quantised tensor reads back within half its block's largest magnitude, plus the rounding of the
      scale. */
  lemma TensorError(input: seq<real>, blocks: seq<BlockTQ2>, size: nat, half: real -> real, i: nat)
    requires size > 0 && |input| % size == 0 && EncodesAll(blocks, input, size, half) && i < |input|
    ensures ValidBlocks(blocks, size) && i < size * |blocks| && size * (i / size) + size <= |input|
    ensures var m := Peak(Chunk(input, size, i / size));
            Abs(input[i] - Tensor(blocks, size)[i]) <= m / 2.0 + if m == 0.0 then 0.0 else Abs(half(m) - m)
  {
    hide Peak, Abs;
    IndexInRange(size, |blocks|, i);
    var b, j := i / size, i % size;
    TernaryError(blocks[b], Chunk(input, size, b), half, j);
    TensorAt(blocks, size, b, j);
  }

  lemma ChunkOfTensor(blocks: seq<BlockTQ2>, size: nat, b: nat)
    requires size > 0 && ValidBlocks(blocks, size) && b < |blocks|
    ensures size * b + size <= |Tensor(blocks, size)|
    ensures Chunk(Tensor(blocks, size), size, b) == Weights(blocks[b])
  {
    hide Tensor;
    MulMonotone(size, b + 1, |blocks|);
    forall j | 0 <= j < size
      ensures Tensor(blocks, size)[size * b + j] == blocks[b].Weight(j)
    {
      TensorAt(blocks, size, b, j);
    }
  }

  /** Over any number of blocks, quantising the dequantised tensor gives the blocks back exactly if each is
      canonical. */
  lemma RequantizeAllExact(blocks: seq<BlockTQ2>, blocks': seq<BlockTQ2>, size: nat, half: real -> real)
    requires size > 0 && ValidBlocks(blocks, size)
    requires forall b :: 0 <= b < |blocks| ==> half(blocks[b].d) == blocks[b].d
    requires |Tensor(blocks, size)| % size == 0 && EncodesAll(blocks', Tensor(blocks, size), size, half)
    ensures blocks' == blocks <==> forall b :: 0 <= b < |blocks| ==> Canonical(blocks[b])
  {
    hide Tensor, Canonical, Encodes;
    DivUnique(size * |blocks|, size, |blocks|, 0);
    forall b | 0 <= b < |blocks|
      ensures blocks'[b] == blocks[b] <==> Canonical(blocks[b])
    {
      ChunkOfTensor(blocks, size, b);
      RequantizeExact(blocks[b], blocks'[b], half);
    }
  }
}
