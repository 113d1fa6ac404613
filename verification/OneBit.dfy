/** The 1-bit blocks Q1_0_g128: one scale and 128 sign bits. */
module OneBit {
  import opened Blocked
  import opened Packing

  const QK1_0_G128 := 128

  /** +1 for a set bit, -1 for a clear one. */
  function Sign(qs: seq<bv8>, j: nat): real
    requires j / 8 < |qs|
  {
    if Field(qs[j / 8], j % 8, 0x01) != 0 then 1.0 else -1.0
  }

  datatype BlockQ1 = BlockQ1(d: real, qs: seq<bv8>) {
    predicate Valid() {
      |qs| * 8 == QK1_0_G128
    }

    /** What `dequant_1bit_g128` writes for weight j. */
    function Weight(j: nat): real
      requires Valid() && j < QK1_0_G128
    {
      if Field(qs[j / 8], j % 8, 0x01) != 0 then d else -d
    }
  }

  lemma WeightIsSigned(b: BlockQ1, j: nat)
    requires b.Valid() && j < QK1_0_G128
    ensures b.Weight(j) == b.d * Sign(b.qs, j)
  {
  }

  ghost predicate ValidBits(blocks: seq<BlockQ1>) {
    forall b :: 0 <= b < |blocks| ==> blocks[b].Valid()
  }

  function BitWeights(b: BlockQ1): (ws: seq<real>)
    requires b.Valid()
    ensures |ws| == QK1_0_G128
  {
    seq(QK1_0_G128, j requires 0 <= j < QK1_0_G128 => b.Weight(j))
  }

  ghost function AllBitWeights(blocks: seq<BlockQ1>): (ws: seq<seq<real>>)
    requires ValidBits(blocks)
    ensures |ws| == |blocks| && Uniform(ws, QK1_0_G128)
  {
    seq(|blocks|, b requires 0 <= b < |blocks| => BitWeights(blocks[b]))
  }
}
