/** Values stored block by block, read as one flat sequence. */
module Blocked {
  import opened Bits
  import opened Gemm
  import opened Sequences

  /** Every block holds `size` values. */
  ghost predicate Uniform(blocks: seq<seq<real>>, size: nat) {
    forall b :: 0 <= b < |blocks| ==> |blocks[b]| == size
  }

  lemma IndexParts(size: nat, b: nat, j: nat)
    requires j < size
    ensures (size * b + j) / size == b && (size * b + j) % size == j
  {
    DivUnique(size * b + j, size, b, j);
  }

  lemma IndexInRange(size: nat, blocks: nat, i: nat)
    requires i < size * blocks
    ensures 0 < size && i / size < blocks && i % size < size && i == size * (i / size) + i % size
  {
    MulPositive(size, blocks);
    var q := i / size;
    if q >= blocks {
      MulMonotone(size, blocks, q);
    }
  }

  /** All the blocks' values, in order. */
  ghost function Flat(blocks: seq<seq<real>>, size: nat): (s: seq<real>)
    requires Uniform(blocks, size)
    ensures |s| == size * |blocks|
  {
    seq(size * |blocks|, i requires 0 <= i < size * |blocks| =>
      IndexInRange(size, |blocks|, i);
      blocks[i / size][i % size])
  }

  lemma FlatAt(blocks: seq<seq<real>>, size: nat, b: nat, j: nat)
    requires Uniform(blocks, size) && b < |blocks| && j < size
    ensures size * b + j < |Flat(blocks, size)| && Flat(blocks, size)[size * b + j] == blocks[b][j]
  {
    MulMonotone(size, b + 1, |blocks|);
    IndexParts(size, b, j);
  }

  lemma ChunkOfFlat(blocks: seq<seq<real>>, size: nat, b: nat)
    requires Uniform(blocks, size) && b < |blocks|
    ensures size * b + size <= |Flat(blocks, size)|
    ensures Chunk(Flat(blocks, size), size, b) == blocks[b]
  {
    hide Flat;
    MulMonotone(size, b + 1, |blocks|);
    forall j | 0 <= j < size
      ensures Flat(blocks, size)[size * b + j] == blocks[b][j]
    {
      FlatAt(blocks, size, b, j);
    }
  }

  /** The first n elements of s, followed by zeros if there are not as many: a zeroed buffer with s written to it. */
  ghost function Padded(s: seq<real>, n: nat): (t: seq<real>)
    ensures |t| == n
  {
    seq(n, i requires 0 <= i < n => if i < |s| then s[i] else 0.0)
  }

  // ----- a scaled block times a stretch of the input -----

  /** The sum of the first n levels, each times the element of x it meets. */
  function BlockDot(levels: seq<real>, x: seq<real>, base: nat, n: nat): real
    requires n <= |levels| && base + n <= |x|
  {
    if n == 0 then 0.0 else BlockDot(levels, x, base, n - 1) + levels[n - 1] * x[base + n - 1]
  }

  /** Multiplying the scale in once per block instead of once per weight changes nothing. */
  lemma {:induction false} ScaleOut(d: real, levels: seq<real>, x: seq<real>, w: seq<real>, base: nat, n: nat)
    requires n <= |levels| && base + n <= |x| && base + n <= |w|
    requires forall j :: 0 <= j < n ==> w[base + j] == d * levels[j]
    ensures d * BlockDot(levels, x, base, n) == Dot(x, w, base + n) - Dot(x, w, base)
  {
    if n > 0 {
      ScaleOut(d, levels, x, w, base, n - 1);
      var l, v, before := levels[n - 1], x[base + n - 1], BlockDot(levels, x, base, n - 1);
      assert w[base + (n - 1)] == d * l;
      DotStep(x, w, base + n - 1);
      ScaleTerm(d, before, l, v);
    }
  }

  lemma ScaleTerm(d: real, sum: real, l: real, v: real)
    ensures d * (sum + l * v) == d * sum + v * (d * l)
  {
  }
}
