/** The fused matrix-vector and matrix-matrix drivers: which inputs they refuse, and what they compute on the rest. */
module Fused {
  import opened Gemm
  import opened Kernels
  import opened OneBit
  import opened Results
  import opened Ternary
  import opened TernaryBlocks

  type Status = Result<(), KernelError>

  // ----- one output row after another -----

  /** Places lo .. lo + n of the memory hold the products of x with the rows of the weight matrix; the others are those
      of `was`. */
  ghost predicate VectorDone(mem: seq<real>, was: seq<real>, lo: nat, n: nat,
                             x: seq<real>, w: seq<real>, rows: nat, k: nat)
    requires lo + n <= |was| && n <= rows && |w| == rows * k && k <= |x|
  {
    && |mem| == |was|
    && forall i :: 0 <= i < |was| ==>
         mem[i] == if lo <= i < lo + n then Dot(x, Row(w, rows, k, i - lo), k) else was[i]
  }

  /** Rows 0 .. rows of the product p are in place at the front of the memory; everything else is as in `was`. */
  ghost predicate BatchDone(mem: seq<real>, was: seq<real>, p: Operands, rows: nat)
    requires p.Valid() && p.m * p.n <= |was|
  {
    && |mem| == |was|
    && (forall r: nat, c: nat :: r < p.m && c < p.n ==>
         At(r, c, p.n) < |mem|
         && mem[At(r, c, p.n)] == if r < rows then Cell(p, r, c) else was[At(r, c, p.n)])
    && forall i :: p.m * p.n <= i < |was| ==> mem[i] == was[i]
  }

  lemma BatchNone(was: seq<real>, p: Operands)
    requires p.Valid() && p.m * p.n <= |was|
    ensures BatchDone(was, was, p, 0)
  {
    hide At;
    forall r: nat, c: nat | r < p.m && c < p.n
      ensures At(r, c, p.n) < |was|
    {
      AtInRange(r, c, p.m, p.n);
    }
  }

  /** One more row of the batch. */
  lemma BatchNext(before: seq<real>, after: seq<real>, was: seq<real>, p: Operands, batch: nat)
    requires p.Valid() && p.m * p.n <= |was| && batch < p.m && BatchDone(before, was, p, batch)
    requires batch * p.n + p.n <= |before|
    requires VectorDone(after, before, batch * p.n, p.n, Row(p.input, p.m, p.k, batch), p.weight, p.n, p.k)
    ensures BatchDone(after, was, p, batch + 1)
  {
    hide Row, Dot, At;
    RowInRange(batch, p.m, p.n);
    forall r: nat, c: nat | r < p.m && c < p.n
      ensures At(r, c, p.n) < |after|
      ensures after[At(r, c, p.n)] == if r < batch + 1 then Cell(p, r, c) else was[At(r, c, p.n)]
    {
      RowsApart(r, c, batch, p.n);
      var i := At(r, c, p.n);
      assert i < |before| && before[i] == if r < batch then Cell(p, r, c) else was[i];
    }
  }

  /** A place of row r lies in the stretch of row q exactly if r is q. */
  lemma RowsApart(r: nat, c: nat, q: nat, n: nat)
    requires c < n
    ensures q * n <= At(r, c, n) < q * n + n <==> r == q
    ensures r == q ==> At(r, c, n) - q * n == c
  {
    if r < q {
      RowInRange(r, q, n);
    } else if q < r {
      RowInRange(q, r, n);
    }
  }

  // ----- ternary -----

  /** What `gemv_tq2_0_g128` and `gemv_tq2_0` return. */
  function GemvStatus(size: nat, k: nat, inputLen: nat, outputLen: nat, blocks: nat, n: nat): Status
    requires size > 0
  {
    if k % size != 0 then Err(NotBlockAligned(k, size))
    else if inputLen < k then Err(DimensionMismatch(k, inputLen))
    else if outputLen < n then Err(BufferTooSmall(n, outputLen))
    else if blocks < n * (k / size) then Err(DimensionMismatch(n * (k / size), blocks))
    else Ok(())
  }

  /** The first rows of a ternary tensor, as a dense matrix. */
  ghost function TernaryMatrix(blocks: seq<BlockTQ2>, size: nat, n: nat, k: nat): (w: seq<real>)
    requires ValidBlocks(blocks, size) && n * k <= size * |blocks|
    ensures |w| == n * k
  {
    WeightMatrix(AllWeights(blocks, size), size, n, k)
  }

  /** All the rows' products with one input, into n places of the output from lo. */
  method TernaryRows(blocks: seq<BlockTQ2>, size: nat, input: seq<real>, output: array<real>, lo: nat, n: nat, k: nat)
    requires IsSize(size) && ValidBlocks(blocks, size) && k % size == 0 && k <= |input| && lo + n <= output.Length
    requires n * (k / size) <= |blocks| && n * k <= size * |blocks|
    modifies output
    ensures VectorDone(output[..], old(output[..]), lo, n, input, TernaryMatrix(blocks, size, n, k), n, k)
  {
    hide Row, Dot, TernaryMatrix, ValidBlocks, IsSize, RowOfBlocks, AllWeights;
    SizePositive(size);
    var bpr := k / size;
    assert k == size * bpr;
    ghost var w := TernaryMatrix(blocks, size, n, k);
    for row := 0 to n
      invariant forall i :: 0 <= i < output.Length ==>
                  output[i] == if lo <= i < lo + row then Dot(input, Row(w, n, k, i - lo), k) else old(output[i])
    {
      TernaryRowIsBlocks(blocks, size, n, bpr, k, row);
      RowInRange(row, n, bpr);
      output[lo + row] := TernaryRow(blocks, size, input, row * bpr, bpr, Row(w, n, k, row));
    }
  }

  /** The matrix-vector product, into `len` places of the output from lo. */
  method GemvTernary(blocks: seq<BlockTQ2>, size: nat, input: seq<real>, output: array<real>, lo: nat, len: nat,
                     n: nat, k: nat) returns (r: Status)
    requires IsSize(size) && ValidBlocks(blocks, size) && lo + len <= output.Length
    modifies output
    ensures r == GemvStatus(size, k, |input|, len, |blocks|, n)
    ensures r.Err? ==> output[..] == old(output[..])
    ensures r.Ok? ==> n * k <= size * |blocks| && n <= len && k <= |input|
                      && VectorDone(output[..], old(output[..]), lo, n, input, TernaryMatrix(blocks, size, n, k), n, k)
  {
    hide TernaryMatrix, ValidBlocks, IsSize, VectorDone;
    SizePositive(size);
    if k % size != 0 {
      return Err(NotBlockAligned(k, size));
    }
    if |input| < k {
      return Err(DimensionMismatch(k, |input|));
    }
    if len < n {
      return Err(BufferTooSmall(n, len));
    }
    var bpr := k / size;
    if |blocks| < n * bpr {
      return Err(DimensionMismatch(n * bpr, |blocks|));
    }
    EnoughBlocks(size, n, k, |blocks|);
    TernaryRows(blocks, size, input, output, lo, n, k);
    r := Ok(());
  }

  lemma SizePositive(size: nat)
    requires IsSize(size)
    ensures size > 0
  {
  }

  lemma TernaryRowIsBlocks(blocks: seq<BlockTQ2>, size: nat, n: nat, bpr: nat, k: nat, row: nat)
    requires ValidBlocks(blocks, size) && k == size * bpr && n * bpr <= |blocks| && n * k <= size * |blocks| && row < n
    ensures RowOfBlocks(Row(TernaryMatrix(blocks, size, n, k), n, k, row), AllWeights(blocks, size), size,
                        row * bpr, bpr)
  {
    hide RowOfBlocks, Row, WeightMatrix;
    RowIsBlocks(AllWeights(blocks, size), size, n, bpr, k, row);
  }

  /** What `gemm_tq2_0_g128` and `gemm_tq2_0` return: the blocks are only counted when there is a row to compute. */
  function GemmStatus(size: nat, k: nat, inputLen: nat, outputLen: nat, blocks: nat, m: nat, n: nat): Status
    requires size > 0
  {
    if k % size != 0 then Err(NotBlockAligned(k, size))
    else if inputLen < m * k then Err(DimensionMismatch(m * k, inputLen))
    else if outputLen < m * n then Err(BufferTooSmall(m * n, outputLen))
    else if m > 0 && blocks < n * (k / size) then Err(DimensionMismatch(n * (k / size), blocks))
    else Ok(())
  }

  /** The dense operands the fused ternary product stands for. */
  ghost function TernaryOperands(blocks: seq<BlockTQ2>, size: nat, input: seq<real>, m: nat, n: nat, k: nat)
    : (p: Operands)
    requires ValidBlocks(blocks, size) && n * k <= size * |blocks| && m * k <= |input|
    ensures p.Valid()
  {
    Operands(input[..m * k], TernaryMatrix(blocks, size, n, k), m, n, k)
  }

  /** The fused product, one matrix-vector product per input row. */
  method GemmTernary(blocks: seq<BlockTQ2>, size: nat, input: seq<real>, output: array<real>, m: nat, n: nat, k: nat)
    returns (r: Status)
    requires IsSize(size) && ValidBlocks(blocks, size)
    modifies output
    ensures r == GemmStatus(size, k, |input|, output.Length, |blocks|, m, n)
    ensures r.Err? || m == 0 ==> output[..] == old(output[..])
    ensures r.Ok? && m > 0 ==>
              n * k <= size * |blocks| && m * k <= |input| && m * n <= output.Length
              && BatchDone(output[..], old(output[..]), TernaryOperands(blocks, size, input, m, n, k), m)
  {
    hide Row, Dot, TernaryMatrix, BatchDone, VectorDone, ValidBlocks, IsSize, AllWeights;
    SizePositive(size);
    if k % size != 0 {
      return Err(NotBlockAligned(k, size));
    }
    if |input| < m * k {
      return Err(DimensionMismatch(m * k, |input|));
    }
    if output.Length < m * n {
      return Err(BufferTooSmall(m * n, output.Length));
    }
    ghost var was := output[..];
    EnoughBlocks(size, n, k, |blocks|);
    for batch := 0 to m
      invariant batch == 0 ==> output[..] == was
      invariant batch > 0 ==>
                  n * k <= size * |blocks|
                  && BatchDone(output[..], was, TernaryOperands(blocks, size, input, m, n, k), batch)
    {
      RowInRange(batch, m, k);
      RowInRange(batch, m, n);
      ghost var before := output[..];
      var inputRow := Row(input[..m * k], m, k, batch);
      r := GemvTernary(blocks, size, inputRow, output, batch * n, n, n, k);
      if r.Err? {
        return;
      }
      if batch == 0 {
        BatchNone(was, TernaryOperands(blocks, size, input, m, n, k));
      }
      BatchNext(before, output[..], was, TernaryOperands(blocks, size, input, m, n, k), batch);
    }
    r := Ok(());
  }

  // ----- 1-bit -----

  /** What `gemv_1bit_g128` returns: like the ternary kernel, but a shortage of blocks is a short buffer. */
  function GemvBitsStatus(k: nat, inputLen: nat, outputLen: nat, blocks: nat, n: nat): Status {
    if k % QK1_0_G128 != 0 then Err(NotBlockAligned(k, QK1_0_G128))
    else if inputLen < k then Err(DimensionMismatch(k, inputLen))
    else if outputLen < n then Err(BufferTooSmall(n, outputLen))
    else if blocks < n * (k / QK1_0_G128) then Err(BufferTooSmall(n * (k / QK1_0_G128), blocks))
    else Ok(())
  }

  /** What `gemm_1bit_g128` returns: the blocks are counted even when there is no row to compute. */
  function GemmBitsStatus(k: nat, inputLen: nat, outputLen: nat, blocks: nat, m: nat, n: nat): Status {
    if k % QK1_0_G128 != 0 then Err(NotBlockAligned(k, QK1_0_G128))
    else if inputLen < m * k then Err(DimensionMismatch(m * k, inputLen))
    else if outputLen < m * n then Err(BufferTooSmall(m * n, outputLen))
    else if blocks < n * (k / QK1_0_G128) then Err(BufferTooSmall(n * (k / QK1_0_G128), blocks))
    else Ok(())
  }

  /** The first rows of a 1-bit tensor, as a dense matrix. */
  ghost function BitMatrix(blocks: seq<BlockQ1>, n: nat, k: nat): (w: seq<real>)
    requires ValidBits(blocks) && n * k <= QK1_0_G128 * |blocks|
    ensures |w| == n * k
  {
    WeightMatrix(AllBitWeights(blocks), QK1_0_G128, n, k)
  }

  lemma BitRowIsBlocks(blocks: seq<BlockQ1>, n: nat, bpr: nat, k: nat, row: nat)
    requires ValidBits(blocks) && k == QK1_0_G128 * bpr && n * bpr <= |blocks|
    requires n * k <= QK1_0_G128 * |blocks| && row < n
    ensures RowOfBlocks(Row(BitMatrix(blocks, n, k), n, k, row), AllBitWeights(blocks), QK1_0_G128, row * bpr, bpr)
  {
    hide RowOfBlocks, Row, WeightMatrix;
    RowIsBlocks(AllBitWeights(blocks), QK1_0_G128, n, bpr, k, row);
  }

  /** All the rows' products with one input, into n places of the output from lo. */
  method BitRows(blocks: seq<BlockQ1>, input: seq<real>, output: array<real>, lo: nat, n: nat, k: nat)
    requires ValidBits(blocks) && k % QK1_0_G128 == 0 && k <= |input| && lo + n <= output.Length
    requires n * (k / QK1_0_G128) <= |blocks| && n * k <= QK1_0_G128 * |blocks|
    modifies output
    ensures VectorDone(output[..], old(output[..]), lo, n, input, BitMatrix(blocks, n, k), n, k)
  {
    hide Row, Dot, BitMatrix;
    var bpr := k / QK1_0_G128;
    ghost var w := BitMatrix(blocks, n, k);
    for row := 0 to n
      invariant forall i :: 0 <= i < output.Length ==>
                  output[i] == if lo <= i < lo + row then Dot(input, Row(w, n, k, i - lo), k) else old(output[i])
    {
      BitRowIsBlocks(blocks, n, bpr, k, row);
      RowInRange(row, n, bpr);
      output[lo + row] := BitRow(blocks, input, row * bpr, bpr, Row(w, n, k, row));
    }
  }

  method GemvBits(blocks: seq<BlockQ1>, input: seq<real>, output: array<real>, n: nat, k: nat) returns (r: Status)
    requires ValidBits(blocks)
    modifies output
    ensures r == GemvBitsStatus(k, |input|, output.Length, |blocks|, n)
    ensures r.Err? ==> output[..] == old(output[..])
    ensures r.Ok? ==> n * k <= QK1_0_G128 * |blocks| && n <= output.Length && k <= |input|
                      && VectorDone(output[..], old(output[..]), 0, n, input, BitMatrix(blocks, n, k), n, k)
  {
    hide VectorDone, BitMatrix;
    if k % QK1_0_G128 != 0 {
      return Err(NotBlockAligned(k, QK1_0_G128));
    }
    if |input| < k {
      return Err(DimensionMismatch(k, |input|));
    }
    if output.Length < n {
      return Err(BufferTooSmall(n, output.Length));
    }
    var bpr := k / QK1_0_G128;
    if |blocks| < n * bpr {
      return Err(BufferTooSmall(n * bpr, |blocks|));
    }
    EnoughBlocks(QK1_0_G128, n, k, |blocks|);
    BitRows(blocks, input, output, 0, n, k);
    r := Ok(());
  }

  /** The dense operands the fused 1-bit product stands for. */
  ghost function BitOperands(blocks: seq<BlockQ1>, input: seq<real>, m: nat, n: nat, k: nat): (p: Operands)
    requires ValidBits(blocks) && n * k <= QK1_0_G128 * |blocks| && m * k <= |input|
    ensures p.Valid()
  {
    Operands(input[..m * k], BitMatrix(blocks, n, k), m, n, k)
  }

  method GemmBits(blocks: seq<BlockQ1>, input: seq<real>, output: array<real>, m: nat, n: nat, k: nat)
    returns (r: Status)
    requires ValidBits(blocks)
    modifies output
    ensures r == GemmBitsStatus(k, |input|, output.Length, |blocks|, m, n)
    ensures r.Err? ==> output[..] == old(output[..])
    ensures r.Ok? ==> n * k <= QK1_0_G128 * |blocks| && m * k <= |input| && m * n <= output.Length
                      && BatchDone(output[..], old(output[..]), BitOperands(blocks, input, m, n, k), m)
  {
    hide Row, VectorDone, BatchDone, BitMatrix;
    if k % QK1_0_G128 != 0 {
      return Err(NotBlockAligned(k, QK1_0_G128));
    }
    if |input| < m * k {
      return Err(DimensionMismatch(m * k, |input|));
    }
    if output.Length < m * n {
      return Err(BufferTooSmall(m * n, output.Length));
    }
    var bpr := k / QK1_0_G128;
    if |blocks| < n * bpr {
      return Err(BufferTooSmall(n * bpr, |blocks|));
    }
    EnoughBlocks(QK1_0_G128, n, k, |blocks|);
    ghost var was := output[..];
    ghost var p := BitOperands(blocks, input, m, n, k);
    BatchNone(was, p);
    for mi := 0 to m
      invariant BatchDone(output[..], was, p, mi)
    {
      RowInRange(mi, m, k);
      RowInRange(mi, m, n);
      ghost var before := output[..];
      BitRows(blocks, Row(input[..m * k], m, k, mi), output, mi * n, n, k);
      BatchNext(before, output[..], was, p, mi);
    }
    r := Ok(());
  }
}
