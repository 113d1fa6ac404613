/** Three routes to one product: fused unpacking, dense product with the dequantised weights, and the image pipeline's
    dequantise-then-multiply. */
module Routes {
  import opened Blocked
  import opened Fused
  import opened Gemm
  import opened Kernels
  import opened OneBit
  import opened Packing
  import opened Results
  import opened SingleScale
  import opened Ternary
  import opened TernaryBlocks
  import opened Threads

  // ----- the kernels' own dequantisation -----

  lemma LaneOfTensor(blocks: seq<BlockTQ2>, size: nat, bi: nat, byteIdx: nat, lane: nat)
    requires ValidBlocks(blocks, size) && bi < |blocks| && byteIdx < |blocks[bi].qs| && lane < 4
    ensures var i := size * bi + (4 * byteIdx + lane);
            i < |Tensor(blocks, size)|
            && Tensor(blocks, size)[i] == blocks[bi].d * DecodeWeight(blocks[bi].qs[byteIdx], lane)
  {
    hide Tensor, DecodeWeight;
    TensorAt(blocks, size, bi, 4 * byteIdx + lane);
    LevelsScale(blocks[bi], 4 * byteIdx + lane);
    LevelAt(blocks[bi], byteIdx, lane);
  }

  /** `dequant_tq2_0_g128` and `dequant_tq2_0`: byte by byte, lane by lane. */
  method DequantTernary(blocks: seq<BlockTQ2>, size: nat, output: array<real>) returns (r: Status)
    requires IsSize(size) && ValidBlocks(blocks, size)
    modifies output
    ensures r == if output.Length < size * |blocks| then Err(BufferTooSmall(size * |blocks|, output.Length)) else Ok(())
    ensures r.Err? ==> output[..] == old(output[..])
    ensures r.Ok? ==> Written(output[..], old(output[..]), Tensor(blocks, size), size * |blocks|)
  {
    hide Tensor, Scaled, DecodeWeight, Level;
    if output.Length < size * |blocks| {
      return Err(BufferTooSmall(size * |blocks|, output.Length));
    }
    for bi := 0 to |blocks|
      invariant Written(output[..], old(output[..]), Tensor(blocks, size), size * bi)
    {
      var block := blocks[bi];
      for byteIdx := 0 to size / 4
        invariant size * bi + 4 * byteIdx <= size * |blocks|
        invariant Written(output[..], old(output[..]), Tensor(blocks, size), size * bi + 4 * byteIdx)
      {
        var byte := block.qs[byteIdx];
        for lane := 0 to 4
          invariant size * bi + 4 * byteIdx + lane <= size * |blocks|
          invariant Written(output[..], old(output[..]), Tensor(blocks, size), size * bi + 4 * byteIdx + lane)
        {
          LaneOfTensor(blocks, size, bi, byteIdx, lane);
          output[size * bi + byteIdx * 4 + lane] := block.d * DecodeWeight(byte, lane);
        }
      }
    }
    r := Ok(());
  }

  ghost function BitTensor(blocks: seq<BlockQ1>): (s: seq<real>)
    requires ValidBits(blocks)
    ensures |s| == QK1_0_G128 * |blocks|
  {
    Flat(AllBitWeights(blocks), QK1_0_G128)
  }

  /** `dequant_1bit_g128` */
  method DequantBits(blocks: seq<BlockQ1>, output: array<real>) returns (r: Status)
    requires ValidBits(blocks)
    modifies output
    ensures r == if output.Length < QK1_0_G128 * |blocks| then Err(BufferTooSmall(QK1_0_G128 * |blocks|, output.Length))
                 else Ok(())
    ensures r.Err? ==> output[..] == old(output[..])
    ensures r.Ok? ==> Written(output[..], old(output[..]), BitTensor(blocks), QK1_0_G128 * |blocks|)
  {
    hide BitTensor;
    if output.Length < QK1_0_G128 * |blocks| {
      return Err(BufferTooSmall(QK1_0_G128 * |blocks|, output.Length));
    }
    for i := 0 to |blocks|
      invariant Written(output[..], old(output[..]), BitTensor(blocks), QK1_0_G128 * i)
    {
      var block := blocks[i];
      for j := 0 to QK1_0_G128
        invariant Written(output[..], old(output[..]), BitTensor(blocks), QK1_0_G128 * i + j)
      {
        BitTensorAt(blocks, i, j);
        var bit := Field(block.qs[j / 8], j % 8, 0x01);
        output[QK1_0_G128 * i + j] := if bit != 0 then block.d else -block.d;
      }
    }
    r := Ok(());
  }

  lemma BitTensorAt(blocks: seq<BlockQ1>, b: nat, j: nat)
    requires ValidBits(blocks) && b < |blocks| && j < QK1_0_G128
    ensures BitTensor(blocks)[QK1_0_G128 * b + j] == blocks[b].Weight(j)
  {
    FlatAt(AllBitWeights(blocks), QK1_0_G128, b, j);
  }

  // ----- the dense and the image route -----

  datatype DitError = Shape | Gguf

  /** The whole product. */
  ghost predicate IsProduct(p: Operands, s: seq<real>)
    requires p.Valid()
  {
    && |s| == p.m * p.n
    && forall r: nat, c: nat :: r < p.m && c < p.n ==> At(r, c, p.n) < |s| && s[At(r, c, p.n)] == Cell(p, r, c)
  }

  /** The dense product of one pair of operands is one matrix. */
  lemma ProductUnique(p: Operands, s: seq<real>, t: seq<real>)
    requires p.Valid() && IsProduct(p, s) && IsProduct(p, t)
    ensures s == t
  {
    hide Cell;
    forall i: nat | i < |s|
      ensures s[i] == t[i]
    {
      IndexInRange(p.n, p.m, i);
      var r, c := i / p.n, i % p.n;
      assert At(r, c, p.n) == i;
    }
  }

  method Product(isa: Isa, p: Operands, available: nat) returns (s: seq<real>)
    requires p.Valid()
    ensures IsProduct(p, s)
  {
    hide Cell, At;
    var out := new real[p.m * p.n](_ => 0.0);
    ghost var programs, per := GemmAbt(isa, p, out, available);
    s := out[..];
  }

  /** `dense_matmul`, on the CPU */
  method DenseMatmul(isa: Isa, available: nat, input: seq<real>, weight: seq<real>, m: nat, n: nat, k: nat)
    returns (r: Result<seq<real>, DitError>)
    ensures r.Err? <==> |input| != m * k || |weight| != n * k
    ensures r.Err? ==> r.error == Shape
    ensures r.Ok? ==> IsProduct(Operands(input, weight, m, n, k), r.value)
  {
    if |input| != m * k || |weight| != n * k {
      return Err(Shape);
    }
    var s := Product(isa, Operands(input, weight, m, n, k), available);
    r := Ok(s);
  }

  /** What `ternary_matmul` returns. */
  function ImageStatus(k: nat, inputLen: nat, blocks: nat, m: nat, n: nat): Result<(), DitError> {
    if inputLen != m * k || k % QK_TQ2_0_G128 != 0 then Err(Shape)
    else if n * k < QK_TQ2_0_G128 * blocks then Err(Gguf)
    else Ok(())
  }

  /** `ternary_matmul`, on the CPU: the weights dequantised into a zeroed buffer of n * k, then the dense product. */
  method TernaryMatmul(isa: Isa, available: nat, blocks: seq<BlockTQ2>, input: seq<real>, m: nat, n: nat, k: nat)
    returns (r: Result<seq<real>, DitError>)
    requires ValidBlocks(blocks, QK_TQ2_0_G128)
    ensures r.Err? <==> ImageStatus(k, |input|, |blocks|, m, n).Err?
    ensures r.Err? ==> r.error == ImageStatus(k, |input|, |blocks|, m, n).error
    ensures r.Ok? ==> IsProduct(Operands(input, Padded(Tensor(blocks, QK_TQ2_0_G128), n * k), m, n, k), r.value)
  {
    hide Tensor, IsProduct, ValidBlocks;
    if |input| != m * k {
      return Err(Shape);
    }
    if k % QK_TQ2_0_G128 != 0 {
      return Err(Shape);
    }
    var buf := new real[n * k](_ => 0.0);
    var dequantised := Dequant(blocks, QK_TQ2_0_G128, buf);
    if dequantised.Err? {
      return Err(Gguf);
    }
    assert buf[..] == Padded(Tensor(blocks, QK_TQ2_0_G128), n * k);
    var s := Product(isa, Operands(input, buf[..], m, n, k), available);
    r := Ok(s);
  }

  // ----- when the routes agree -----

  /** For a batch that is not empty, the fused kernel and the image route both accept exactly the tensors that hold as
      many blocks as the shape says. With fewer blocks only the image route goes on (the missing weights are zero); with
      more, only the fused kernel does (the surplus is ignored). */
  lemma AcceptanceExact(blocks: nat, m: nat, n: nat, k: nat)
    requires k % QK_TQ2_0_G128 == 0 && m > 0
    ensures var needed := n * (k / QK_TQ2_0_G128);
            && (GemmStatus(QK_TQ2_0_G128, k, m * k, m * n, blocks, m, n).Ok? <==> blocks >= needed)
            && (ImageStatus(k, m * k, blocks, m, n).Ok? <==> blocks <= needed)
  {
    EnoughBlocks(QK_TQ2_0_G128, n, k, blocks);
  }

  /** The weights of the three routes are the same dense matrix. */
  lemma SameWeights(blocks: seq<BlockTQ2>, n: nat, k: nat)
    requires ValidBlocks(blocks, QK_TQ2_0_G128) && n * k == QK_TQ2_0_G128 * |blocks|
    ensures TernaryMatrix(blocks, QK_TQ2_0_G128, n, k) == Tensor(blocks, QK_TQ2_0_G128)
    ensures Padded(Tensor(blocks, QK_TQ2_0_G128), n * k) == Tensor(blocks, QK_TQ2_0_G128)
  {
    hide AllWeights, Flat;
  }

  /** The fused product, the dense product of the dequantised tensor and the image route give one matrix, for all
      sizes. */
  lemma ThreeRoutes(blocks: seq<BlockTQ2>, input: seq<real>, m: nat, n: nat, k: nat,
                    was: seq<real>, fused: seq<real>, dense: seq<real>, image: seq<real>)
    requires ValidBlocks(blocks, QK_TQ2_0_G128) && |input| == m * k && n * k == QK_TQ2_0_G128 * |blocks|
    requires |was| == m * n && BatchDone(fused, was, TernaryOperands(blocks, QK_TQ2_0_G128, input, m, n, k), m)
    requires IsProduct(Operands(input, Tensor(blocks, QK_TQ2_0_G128), m, n, k), dense)
    requires IsProduct(Operands(input, Padded(Tensor(blocks, QK_TQ2_0_G128), n * k), m, n, k), image)
    ensures fused == dense == image
  {
    hide Tensor, TernaryMatrix, Cell, At, Padded;
    SameWeights(blocks, n, k);
    assert input[..m * k] == input;
    var p := Operands(input, Tensor(blocks, QK_TQ2_0_G128), m, n, k);
    ProductUnique(p, fused, dense);
    ProductUnique(p, image, dense);
  }

  /** Likewise the fused 1-bit product, one matrix-vector product per row, and the dense product. */
  lemma BitRoutes(blocks: seq<BlockQ1>, input: seq<real>, m: nat, n: nat, k: nat,
                  was: seq<real>, fused: seq<real>, vectors: seq<real>, dense: seq<real>)
    requires ValidBits(blocks) && |input| == m * k && n * k == QK1_0_G128 * |blocks|
    requires |was| == |vectors| == m * n && BatchDone(fused, was, BitOperands(blocks, input, m, n, k), m)
    requires forall r: nat :: r < m ==>
               r * n + n <= m * n
               && VectorDone(Row(vectors, m, n, r), Row(was, m, n, r), 0, n, Row(input, m, k, r),
                             BitMatrix(blocks, n, k), n, k)
    requires IsProduct(Operands(input, BitTensor(blocks), m, n, k), dense)
    ensures fused == vectors == dense
  {
    hide BitTensor, BitMatrix, Dot;
    SameBits(blocks, n, k);
    assert input[..m * k] == input;
    var p := Operands(input, BitTensor(blocks), m, n, k);
    forall r: nat, c: nat | r < m && c < n
      ensures At(r, c, n) < |vectors| && vectors[At(r, c, n)] == Cell(p, r, c)
    {
      AtInRange(r, c, m, n);
      assert Row(vectors, m, n, r)[c] == vectors[At(r, c, n)];
    }
    ProductUnique(p, fused, dense);
    ProductUnique(p, vectors, dense);
  }

  lemma SameBits(blocks: seq<BlockQ1>, n: nat, k: nat)
    requires ValidBits(blocks) && n * k == QK1_0_G128 * |blocks|
    ensures BitMatrix(blocks, n, k) == BitTensor(blocks)
  {
    hide AllBitWeights, Flat;
  }
}
