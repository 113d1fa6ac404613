/** The fused ternary and 1-bit kernels, which unpack codes inside the product, against the dense product with the
    dequantised weights. */
module Kernels {
  import opened Bits
  import opened Blocked
  import opened Gemm
  import opened OneBit
  import opened Packing
  import opened Sequences
  import opened Ternary
  import opened TernaryBlocks

  datatype KernelError =
    | NotBlockAligned(count: nat, blockSize: nat)
    | DimensionMismatch(expected: nat, got: nat)
    | BufferTooSmall(needed: nat, available: nat)

  // ----- rows of a blocked weight matrix -----

  /** The first n rows of k weights of a blocked tensor. */
  ghost function WeightMatrix(ws: seq<seq<real>>, size: nat, n: nat, k: nat): (w: seq<real>)
    requires Uniform(ws, size) && n * k <= size * |ws|
    ensures |w| == n * k
  {
    Flat(ws, size)[..n * k]
  }

  lemma EnoughBlocks(size: nat, n: nat, k: nat, blocks: nat)
    requires size > 0 && k % size == 0
    ensures n * k <= size * blocks <==> n * (k / size) <= blocks
    ensures n * k == size * (n * (k / size))
  {
    var bpr := k / size;
    assert k == size * bpr;
    assert n * (size * bpr) == size * (n * bpr);
    if n * bpr <= blocks {
      MulMonotone(size, n * bpr, blocks);
    } else {
      MulMonotone(size, blocks + 1, n * bpr);
    }
  }

  /** Row w is made of the blocks first, first + 1, ... */
  ghost predicate RowOfBlocks(w: seq<real>, ws: seq<seq<real>>, size: nat, first: nat, bpr: nat) {
    && |w| == size * bpr && first + bpr <= |ws|
    && forall bi: nat :: bi < bpr ==> size * bi + size <= |w| && Chunk(w, size, bi) == ws[first + bi]
  }

  /** Row `row` of the weight matrix is made of blocks row * bpr and on. */
  lemma RowIsBlocks(ws: seq<seq<real>>, size: nat, n: nat, bpr: nat, k: nat, row: nat)
    requires Uniform(ws, size) && k == size * bpr && n * bpr <= |ws| && n * k <= size * |ws| && row < n
    ensures RowOfBlocks(Row(WeightMatrix(ws, size, n, k), n, k, row), ws, size, row * bpr, bpr)
  {
    hide Flat, Row, WeightMatrix, Chunk, Uniform;
    RowInRange(row, n, bpr);
    var w := Row(WeightMatrix(ws, size, n, k), n, k, row);
    forall bi: nat | bi < bpr
      ensures size * bi + size <= |w| && Chunk(w, size, bi) == ws[row * bpr + bi]
    {
      ChunkOfRow(size, bpr, row, bi, n, k);
      ChunkOfFlat(ws, size, row * bpr + bi);
      SliceOfSlice(ws, size, n, k, row, bi, row * bpr + bi);
    }
  }

  lemma SliceOfSlice(ws: seq<seq<real>>, size: nat, n: nat, k: nat, row: nat, bi: nat, b: nat)
    requires Uniform(ws, size) && n * k <= size * |ws| && row < n && size * bi + size <= k
    requires row * k + size * bi == size * b && size * b + size <= size * |ws|
    ensures Chunk(Row(WeightMatrix(ws, size, n, k), n, k, row), size, bi) == Chunk(Flat(ws, size), size, b)
  {
    hide Flat;
    RowInRange(row, n, k);
    Slices(Flat(ws, size), n * k, row * k, k, size * bi, size, size * b);
  }

  lemma Slices(s: seq<real>, total: nat, lo: nat, len: nat, from: nat, size: nat, at: nat)
    requires lo + len <= total <= |s| && from + size <= len && lo + from == at
    ensures s[..total][lo..lo + len][from..from + size] == s[at..at + size]
  {
    var x, y := s[..total][lo..lo + len][from..from + size], s[at..at + size];
    forall i | 0 <= i < size
      ensures x[i] == y[i]
    {
      assert x[i] == s[..total][lo..lo + len][from + i] == s[..total][lo + (from + i)];
    }
    assert x == y;
  }

  lemma ChunkOfRow(size: nat, bpr: nat, row: nat, bi: nat, n: nat, k: nat)
    requires bi < bpr && row < n && k == size * bpr
    ensures size * bi + size <= k && row * k + size * bi == size * (row * bpr + bi)
    ensures row * k + k <= n * k
  {
    MulMonotone(size, bi + 1, bpr);
    RowInRange(row, n, k);
    assert row * (size * bpr) == size * (row * bpr);
  }

  /** A block's contribution to the row's dot product. */
  lemma BlockPart(w: seq<real>, ws: seq<seq<real>>, size: nat, first: nat, bpr: nat, bi: nat,
                  d: real, levels: seq<real>, x: seq<real>)
    requires RowOfBlocks(w, ws, size, first, bpr) && bi < bpr && size * bpr <= |x|
    requires |levels| == size == |ws[first + bi]|
    requires forall j :: 0 <= j < size ==> ws[first + bi][j] == d * levels[j]
    ensures size * bi + size <= |w|
    ensures d * BlockDot(levels, x, size * bi, size) == Dot(x, w, size * bi + size) - Dot(x, w, size * bi)
  {
    hide Dot, BlockDot;
    BlockAt(w, Chunk(w, size, bi), size * bi, size, d, levels, x);
  }

  lemma BlockAt(w: seq<real>, chunk: seq<real>, base: nat, size: nat, d: real, levels: seq<real>, x: seq<real>)
    requires base + size <= |w| && base + size <= |x| && |levels| == size && chunk == w[base..base + size]
    requires forall j :: 0 <= j < size ==> chunk[j] == d * levels[j]
    ensures d * BlockDot(levels, x, base, size) == Dot(x, w, base + size) - Dot(x, w, base)
  {
    hide Dot, BlockDot;
    forall j | 0 <= j < size
      ensures w[base + j] == d * levels[j]
    {
      assert w[base + j] == chunk[j];
    }
    ScaleOut(d, levels, x, w, base, size);
  }

  // ----- ternary rows -----

  /** `decode_weight_f32` */
  function DecodeWeight(byte: bv8, lane: nat): real
    requires lane < 4
  {
    var code := Field(byte, lane * 2, 0x03);
    if code == 0 then -1.0 else if code == 1 then 0.0 else if code == 2 then 1.0 else 0.0
  }

  function Levels(b: BlockTQ2): (ls: seq<real>)
    ensures |ls| == |b.qs| * 4
  {
    seq(|b.qs| * 4, j requires 0 <= j < |b.qs| * 4 => DecodeWeight(b.qs[j / 4], j % 4))
  }

  lemma LevelsScale(b: BlockTQ2, j: nat)
    requires j < |b.qs| * 4
    ensures b.Weight(j) == b.d * Levels(b)[j]
  {
    hide Field;
  }

  /** One block's unscaled sum: four lanes of each byte. */
  method TernaryBlockSum(b: BlockTQ2, size: nat, input: seq<real>, base: nat) returns (sum: real)
    requires b.Valid(size) && base + size <= |input|
    ensures sum == BlockDot(Levels(b), input, base, size)
  {
    hide DecodeWeight, BlockDot, Levels;
    sum := 0.0;
    BlockDotNone(Levels(b), input, base);
    for byteIdx := 0 to |b.qs|
      invariant sum == BlockDot(Levels(b), input, base, 4 * byteIdx)
    {
      var byte := b.qs[byteIdx];
      for lane := 0 to 4
        invariant sum == BlockDot(Levels(b), input, base, 4 * byteIdx + lane)
      {
        var weight := DecodeWeight(byte, lane);
        LevelAt(b, byteIdx, lane);
        BlockDotStep(Levels(b), input, base, 4 * byteIdx + lane);
        sum := sum + weight * input[base + byteIdx * 4 + lane];
      }
    }
  }

  lemma BlockDotNone(levels: seq<real>, x: seq<real>, base: nat)
    requires base <= |x|
    ensures BlockDot(levels, x, base, 0) == 0.0
  {
  }

  lemma BlockDotStep(levels: seq<real>, x: seq<real>, base: nat, n: nat)
    requires n < |levels| && base + n < |x|
    ensures BlockDot(levels, x, base, n + 1) == BlockDot(levels, x, base, n) + levels[n] * x[base + n]
  {
  }

  lemma LevelAt(b: BlockTQ2, byteIdx: nat, lane: nat)
    requires byteIdx < |b.qs| && lane < 4
    ensures Levels(b)[4 * byteIdx + lane] == DecodeWeight(b.qs[byteIdx], lane)
  {
    hide DecodeWeight;
  }

  /** One output of the fused kernel is the dot product with the dequantised row. */
  method TernaryRow(blocks: seq<BlockTQ2>, size: nat, input: seq<real>, first: nat, bpr: nat, ghost w: seq<real>)
    returns (sum: real)
    requires IsSize(size) && ValidBlocks(blocks, size) && first + bpr <= |blocks| && size * bpr <= |input|
    requires RowOfBlocks(w, AllWeights(blocks, size), size, first, bpr)
    ensures sum == Dot(input, w, size * bpr)
  {
    hide Levels, BlockDot, RowOfBlocks;
    sum := 0.0;
    RowSize(w, AllWeights(blocks, size), size, first, bpr);
    for bi := 0 to bpr
      invariant size * bi <= size * bpr && sum == Dot(input, w, size * bi)
    {
      var block := blocks[first + bi];
      MulMonotone(size, bi + 1, bpr);
      var blockSum := TernaryBlockSum(block, size, input, size * bi);
      TernaryPart(blocks, size, input, first, bpr, w, bi);
      sum := sum + block.d * blockSum;
    }
  }

  lemma RowSize(w: seq<real>, ws: seq<seq<real>>, size: nat, first: nat, bpr: nat)
    requires RowOfBlocks(w, ws, size, first, bpr)
    ensures |w| == size * bpr
  {
  }

  lemma TernaryPart(blocks: seq<BlockTQ2>, size: nat, input: seq<real>, first: nat, bpr: nat, w: seq<real>, bi: nat)
    requires ValidBlocks(blocks, size) && first + bpr <= |blocks| && bi < bpr && size * bpr <= |input|
    requires RowOfBlocks(w, AllWeights(blocks, size), size, first, bpr)
    ensures size * bi + size <= |w| && size * bi + size <= |input|
    ensures blocks[first + bi].d * BlockDot(Levels(blocks[first + bi]), input, size * bi, size)
         == Dot(input, w, size * bi + size) - Dot(input, w, size * bi)
  {
    hide Levels, RowOfBlocks, BlockDot, Dot;
    var b := blocks[first + bi];
    RowSize(w, AllWeights(blocks, size), size, first, bpr);
    forall j | 0 <= j < size
      ensures AllWeights(blocks, size)[first + bi][j] == b.d * Levels(b)[j]
    {
      LevelsScale(b, j);
    }
    BlockPart(w, AllWeights(blocks, size), size, first, bpr, bi, b.d, Levels(b), input);
  }

  // ----- 1-bit rows -----

  function Signs(b: BlockQ1): (ls: seq<real>)
    requires b.Valid()
    ensures |ls| == QK1_0_G128
  {
    seq(QK1_0_G128, j requires 0 <= j < QK1_0_G128 => Sign(b.qs, j))
  }

  method BitBlockSum(b: BlockQ1, input: seq<real>, base: nat) returns (sum: real)
    requires b.Valid() && base + QK1_0_G128 <= |input|
    ensures sum == BlockDot(Signs(b), input, base, QK1_0_G128)
  {
    hide Field, BlockDot;
    sum := 0.0;
    BlockDotNone(Signs(b), input, base);
    for j := 0 to QK1_0_G128
      invariant sum == BlockDot(Signs(b), input, base, j)
    {
      var byteIndex, bitOffset := j / 8, j % 8;
      var sign := if Field(b.qs[byteIndex], bitOffset, 0x01) != 0 then 1.0 else -1.0;
      assert Signs(b)[j] == sign;
      BlockDotStep(Signs(b), input, base, j);
      sum := sum + sign * input[base + j];
    }
  }

  /** One output of the fused 1-bit kernels is the dot product with the dequantised row. */
  method BitRow(blocks: seq<BlockQ1>, input: seq<real>, first: nat, bpr: nat, ghost w: seq<real>) returns (sum: real)
    requires ValidBits(blocks) && first + bpr <= |blocks| && QK1_0_G128 * bpr <= |input|
    requires RowOfBlocks(w, AllBitWeights(blocks), QK1_0_G128, first, bpr)
    ensures sum == Dot(input, w, QK1_0_G128 * bpr)
  {
    hide Signs, BlockDot, RowOfBlocks;
    sum := 0.0;
    RowSize(w, AllBitWeights(blocks), QK1_0_G128, first, bpr);
    for bi := 0 to bpr
      invariant sum == Dot(input, w, QK1_0_G128 * bi)
    {
      var block := blocks[first + bi];
      var blockSum := BitBlockSum(block, input, QK1_0_G128 * bi);
      BitPart(blocks, input, first, bpr, w, bi);
      sum := sum + block.d * blockSum;
    }
  }

  lemma BitPart(blocks: seq<BlockQ1>, input: seq<real>, first: nat, bpr: nat, w: seq<real>, bi: nat)
    requires ValidBits(blocks) && first + bpr <= |blocks| && bi < bpr && QK1_0_G128 * bpr <= |input|
    requires RowOfBlocks(w, AllBitWeights(blocks), QK1_0_G128, first, bpr)
    ensures var base := QK1_0_G128 * bi;
            && base + QK1_0_G128 <= |w| && base + QK1_0_G128 <= |input|
            && blocks[first + bi].d * BlockDot(Signs(blocks[first + bi]), input, base, QK1_0_G128)
            == Dot(input, w, base + QK1_0_G128) - Dot(input, w, base)
  {
    hide RowOfBlocks, BlockDot, Dot, Sign;
    var b := blocks[first + bi];
    RowSize(w, AllBitWeights(blocks), QK1_0_G128, first, bpr);
    forall j | 0 <= j < QK1_0_G128
      ensures AllBitWeights(blocks)[first + bi][j] == b.d * Signs(b)[j]
    {
      WeightIsSigned(b, j);
    }
    BlockPart(w, AllBitWeights(blocks), QK1_0_G128, first, bpr, bi, b.d, Signs(b), input);
  }
}
