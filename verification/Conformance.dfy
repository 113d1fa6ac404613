/** Streams decode in one way only, and the inflater agrees with a decoder that checks the length complement of stored
    blocks exactly on the streams whose complements hold. */
module Conformance {
  import opened BitReading
  import opened Bits
  import opened Deflate
  import opened Huffman
  import opened Inflate
  import opened Results

  // ----- unique decodability -----

  lemma {:induction false} TokensUnique(lit: seq<CodeLen>, dist: seq<CodeLen>, s: seq<Bit>, p: nat,
                                        a: seq<Token>, b: seq<Token>)
    requires p <= |s| && TokensOk(lit, dist, a) && TokensOk(lit, dist, b)
    requires HasAt(s, p, TokensBits(lit, dist, a)) && HasAt(s, p, TokensBits(lit, dist, b))
    ensures a == b
    decreases |a|
  {
    hide TokenOk, TokenBits, NextToken;
    var q := FirstToken(lit, dist, s, p, a);
    var r := FirstToken(lit, dist, s, p, b);
    if a != [] && b != [] {
      TokensUnique(lit, dist, s, q, a[1..], b[1..]);
      assert a == [a[0]] + a[1..] && b == [b[0]] + b[1..];
    }
  }

  /** The first token of a list, or the end of the block, is what is read at its position. */
  lemma FirstToken(lit: seq<CodeLen>, dist: seq<CodeLen>, s: seq<Bit>, p: nat, ts: seq<Token>) returns (q: nat)
    requires p <= |s| && TokensOk(lit, dist, ts) && HasAt(s, p, TokensBits(lit, dist, ts))
    ensures NextToken(lit, dist, s, p) == Ok((if ts == [] then EndOfBlock else ts[0], q))
    ensures ts != [] ==> q <= |s| && TokensOk(lit, dist, ts[1..]) && HasAt(s, q, TokensBits(lit, dist, ts[1..]))
  {
    hide TokenOk, TokenBits, NextToken;
    var t := if ts == [] then EndOfBlock else ts[0];
    q := p + |TokenBits(lit, dist, t)|;
    if ts != [] {
      HasAtConcat(s, p, TokenBits(lit, dist, t), TokensBits(lit, dist, ts[1..]));
    }
    NextTokenExact(lit, dist, s, p, t, q);
  }

  lemma {:induction false} OpsUnique(cl: seq<CodeLen>, s: seq<Bit>, p: nat, acc: seq<CodeLen>, total: nat,
                                     a: seq<ClOp>, b: seq<ClOp>)
    requires p <= |s| && OpsOk(cl, a, acc, total) && OpsOk(cl, b, acc, total)
    requires HasAt(s, p, OpsBits(cl, a, acc, total)) && HasAt(s, p, OpsBits(cl, b, acc, total))
    ensures a == b
    decreases |a|
  {
    hide OpOk, OpBits, NextOp, ApplyOp;
    if |acc| < total {
      var q := FirstOp(cl, s, p, acc, total, a);
      var r := FirstOp(cl, s, p, acc, total, b);
      OpAppends(cl, a[0], acc);
      OpsUnique(cl, s, q, ApplyOp(acc, a[0]), total, a[1..], b[1..]);
      assert a == [a[0]] + a[1..] && b == [b[0]] + b[1..];
    }
  }

  lemma FirstOp(cl: seq<CodeLen>, s: seq<Bit>, p: nat, acc: seq<CodeLen>, total: nat, ops: seq<ClOp>) returns (q: nat)
    requires p <= |s| && |acc| < total && OpsOk(cl, ops, acc, total) && HasAt(s, p, OpsBits(cl, ops, acc, total))
    ensures ops != [] && OpOk(cl, ops[0], acc) && (ops[0].Repeat? ==> acc != [])
    ensures q <= |s| && NextOp(cl, s, p, acc) == Ok((ops[0], q))
    ensures OpsOk(cl, ops[1..], ApplyOp(acc, ops[0]), total)
    ensures HasAt(s, q, OpsBits(cl, ops[1..], ApplyOp(acc, ops[0]), total))
  {
    hide OpOk, OpBits, NextOp, ApplyOp;
    OpAppends(cl, ops[0], acc);
    q := p + |OpBits(cl, ops[0])|;
    HasAtConcat(s, p, OpBits(cl, ops[0]), OpsBits(cl, ops[1..], ApplyOp(acc, ops[0]), total));
    NextOpExact(cl, s, p, acc, ops[0], q);
  }

  /** The bits of a header's code lengths. */
  function LengthBits(h: Header): seq<Bit>
    requires HeaderOk(h)
  {
    OpsBits(ClLengths(h.clVals), h.ops, [], h.hlit + h.hdist)
  }

  lemma HeaderUnique(s: seq<Bit>, p: nat, a: Header, b: Header)
    requires p <= |s| && HeaderOk(a) && HeaderOk(b) && HasAt(s, p, HeaderBits(a)) && HasAt(s, p, HeaderBits(b))
    ensures a == b
  {
    hide ReadBits, ReadClVals, OpsOk, OpsBits, ClLengths, HeaderBits, HasAt;
    HeaderStands(s, p, a);
    HeaderStands(s, p, b);
    OpsUnique(ClLengths(a.clVals), s, p + 14 + 3 * |a.clVals|, [], a.hlit + a.hdist, a.ops, b.ops);
  }

  /** The parts of a header are what is read at their positions. */
  lemma HeaderStands(s: seq<Bit>, p: nat, h: Header)
    requires p <= |s| && HeaderOk(h) && HasAt(s, p, HeaderBits(h))
    ensures p + 14 + 3 * |h.clVals| <= |s|
    ensures ReadBits(s, p, 5) == Ok(h.hlit - 257) && ReadBits(s, p + 5, 5) == Ok(h.hdist - 1)
    ensures ReadBits(s, p + 10, 4) == Ok(|h.clVals| - 4) && ReadClVals(s, p + 14, |h.clVals|) == Ok(h.clVals)
    ensures HasAt(s, p + 14 + 3 * |h.clVals|, LengthBits(h))
  {
    HeaderSplits(s, p, h);
    hide ReadBits, ReadClVals, OpsOk, ClLengths, FieldBits, HasAt, HeaderBits, ClBits, LengthBits;
    FieldsExact(s, p, h);
    ClValsExact(s, p + 14, h.clVals);
  }

  lemma HeaderSplits(s: seq<Bit>, p: nat, h: Header)
    requires p <= |s| && HeaderOk(h) && HasAt(s, p, HeaderBits(h))
    ensures HasAt(s, p, FieldBits(h)) && HasAt(s, p + 14, ClBits(h.clVals)) && p + 14 + 3 * |h.clVals| <= |s|
    ensures HasAt(s, p + 14 + 3 * |h.clVals|, LengthBits(h))
  {
    hide OpsOk, OpsBits, ClLengths, FieldBits, HasAt, ClBits;
    var ops := LengthBits(h);
    HasAtConcat(s, p, FieldBits(h), ClBits(h.clVals) + ops);
    HasAtConcat(s, p + 14, ClBits(h.clVals), ops);
    HasAtFits(s, p + 14, ClBits(h.clVals));
  }

  lemma StoredUnique(data: seq<Byte>, p: nat, a: Block, b: Block)
    requires a.Stored? && b.Stored? && BlockOk(a, p) && BlockOk(b, p)
    requires HasAt(BitsOf(data), p, BlockBits(a, p)) && HasAt(BitsOf(data), p, BlockBits(b, p))
    ensures a == b
  {
    hide BitsOf, StoredBytes, BlockBits;
    var c := StoredStands(data, p, a);
    var d := StoredStands(data, p, b);
    StoredSlices(data, c, a);
    StoredSlices(data, c, b);
  }

  /** A stored block's padding and its bytes stand in the data. */
  lemma StoredStands(data: seq<Byte>, p: nat, b: Block) returns (c: nat)
    requires b.Stored? && BlockOk(b, p) && HasAt(BitsOf(data), p, BlockBits(b, p))
    ensures c == (p + 7) / 8 && p + |b.pad| == 8 * c && HasAt(BitsOf(data), p, b.pad)
    ensures c + 4 + |b.payload| <= |data| && data[c..c + 4 + |b.payload|] == StoredBytes(b)
  {
    c := (p + 7) / 8;
    assert |StoredBytes(b)| == 4 + |b.payload|;
    hide BitsOf, StoredBytes, HasAt;
    PaddingEnds(p, |b.pad|);
    HasAtConcat(BitsOf(data), p, b.pad, BitsOf(StoredBytes(b)));
    BytesAt(data, c, StoredBytes(b));
  }

  /** Fewer than eight bits of padding end at the next byte boundary. */
  lemma PaddingEnds(p: nat, n: nat)
    requires (p + n) % 8 == 0 && n < 8
    ensures p + n == 8 * ((p + 7) / 8)
  {
  }

  lemma StoredSlices(data: seq<Byte>, c: nat, b: Block)
    requires b.Stored? && |b.payload| < 0x1_0000 && |b.nlen| == 2
    requires c + 4 + |b.payload| <= |data| && data[c..c + 4 + |b.payload|] == StoredBytes(b)
    ensures |b.payload| == data[c] as int + 256 * data[c + 1] as int
    ensures b.nlen == data[c + 2..c + 4] && b.payload == data[c + 4..c + 4 + |b.payload|]
  {
    var x, n := StoredBytes(b), |b.payload|;
    forall i | 0 <= i < 4 + n
      ensures x[i] == data[c + i]
    {
      assert data[c..c + 4 + n][i] == data[c + i];
    }
    assert x[0] == n % 256 && x[1] == n / 256;
    assert x[2] == b.nlen[0] && x[3] == b.nlen[1];
    forall i | 0 <= i < n
      ensures b.payload[i] == data[c + 4 + i]
    {
      assert x[4 + i] == b.payload[i];
    }
  }

  lemma BlockUnique(data: seq<Byte>, p: nat, a: Block, b: Block)
    requires p <= 8 * |data| && BType(a) == BType(b) && BlockOk(a, p) && BlockOk(b, p)
    requires HasAt(BitsOf(data), p, BlockBits(a, p)) && HasAt(BitsOf(data), p, BlockBits(b, p))
    ensures a == b
  {
    hide TokensOk, TokensBits, HeaderOk, HeaderBits, HeaderLengths, BitsOf, StoredBytes;
    var s := BitsOf(data);
    match a
    case Stored(_, _, _) =>
      StoredUnique(data, p, a, b);
    case Fixed(tokens) =>
      TokensUnique(FixedLit(), FixedDist(), s, p, tokens, b.tokens);
    case Dynamic(h, tokens) =>
      DynamicStands(s, p, a);
      DynamicStands(s, p, b);
      HeaderUnique(s, p, h, b.header);
      TokensUnique(HeaderLengths(h).0, HeaderLengths(h).1, s, p + |HeaderBits(h)|, tokens, b.tokens);
  }

  lemma DynamicStands(s: seq<Bit>, p: nat, b: Block)
    requires p <= |s| && b.Dynamic? && BlockOk(b, p) && HasAt(s, p, BlockBits(b, p))
    ensures var q, (lit, dist) := p + |HeaderBits(b.header)|, HeaderLengths(b.header);
            q <= |s| && HasAt(s, p, HeaderBits(b.header)) && HasAt(s, q, TokensBits(lit, dist, b.tokens))
  {
    hide TokensOk, TokensBits, HeaderOk, HeaderBits, HeaderLengths;
    var (lit, dist) := HeaderLengths(b.header);
    HasAtConcat(s, p, HeaderBits(b.header), TokensBits(lit, dist, b.tokens));
  }

  /** The blocks stand at position p of the data. */
  ghost predicate Stands(data: seq<Byte>, p: nat, blocks: seq<Block>) {
    p <= 8 * |data| && StreamOk(blocks, p) && HasAt(BitsOf(data), p, StreamBits(blocks, p))
  }

  /** The first block of a stream, and the rest. */
  lemma FirstBlock(data: seq<Byte>, p: nat, blocks: seq<Block>) returns (q: nat)
    requires Stands(data, p, blocks)
    ensures blocks != [] && BlockOk(blocks[0], p + 3) && q == p + 3 + |BlockBits(blocks[0], p + 3)|
    ensures p + 3 <= 8 * |data| && HasAt(BitsOf(data), p + 3, BlockBits(blocks[0], p + 3))
    ensures ReadBits(BitsOf(data), p, 1) == Ok(if |blocks| == 1 then 1 else 0)
    ensures ReadBits(BitsOf(data), p + 1, 2) == Ok(BType(blocks[0]))
    ensures |blocks| > 1 ==> Stands(data, q, blocks[1..])
  {
    hide BlockOk, BlockBits, BitsOf, ReadBits, HeadBits;
    var s, b, final := BitsOf(data), BlockBits(blocks[0], p + 3), if |blocks| == 1 then 1 else 0;
    q := p + 3 + |b|;
    var tail := if |blocks| == 1 then b else b + StreamBits(blocks[1..], q);
    HasAtConcat(s, p, HeadBits(final, blocks[0]), tail);
    HeadExact(s, p, final, blocks[0]);
    if |blocks| > 1 {
      HasAtConcat(s, p + 3, b, StreamBits(blocks[1..], q));
    }
  }

  /** The format is uniquely decodable: at most one sequence of blocks stands at a position. */
  lemma {:induction false} StreamUnique(data: seq<Byte>, p: nat, a: seq<Block>, b: seq<Block>)
    requires Stands(data, p, a) && Stands(data, p, b)
    ensures a == b
    decreases |a|
  {
    hide BlockOk, BlockBits, BitsOf, ReadBits, Stands, HasAt;
    var q := FirstBlock(data, p, a);
    var r := FirstBlock(data, p, b);
    assert BType(a[0]) == BType(b[0]) && (|a| == 1 <==> |b| == 1);
    BlockUnique(data, p + 3, a[0], b[0]);
    if |a| > 1 {
      StreamUnique(data, q, a[1..], b[1..]);
    }
    assert a == [a[0]] + a[1..] && b == [b[0]] + b[1..];
  }

  // ----- the length complement -----

  /** Every stored block carries the one's complement of its length, as section 3.2.4 of RFC 1951 asks. */
  ghost predicate ComplementsHold(blocks: seq<Block>) {
    forall i :: 0 <= i < |blocks| && blocks[i].Stored? ==> ComplementHolds(blocks[i])
  }

  predicate ComplementHolds(b: Block)
    requires b.Stored?
  {
    |b.payload| < 0x1_0000 && b.nlen == [255 - |b.payload| % 256, 255 - |b.payload| / 256]
  }

  /** The two streams differ at most in the padding and the complements of stored blocks. */
  ghost predicate SameButComplements(a: seq<Block>, b: seq<Block>) {
    && |a| == |b|
    && forall i :: 0 <= i < |a| ==> a[i] == b[i] || (a[i].Stored? && b[i].Stored? && a[i].payload == b[i].payload)
  }

  lemma {:induction false} SameOutput(a: seq<Block>, b: seq<Block>, out: seq<Byte>)
    requires SameButComplements(a, b)
    ensures StreamOutput(a, out) == StreamOutput(b, out)
    decreases |a|
  {
    if a != [] && BlockOutput(a[0], out).Ok? {
      SameOutput(a[1..], b[1..], BlockOutput(a[0], out).value);
    }
  }

  /** Whole streams that differ only there inflate to the same. */
  lemma ComplementsIgnored(data: seq<Byte>, data': seq<Byte>, a: seq<Block>, b: seq<Block>)
    requires Encodes(data, a) && Encodes(data', b) && SameButComplements(a, b)
    ensures Inflated(data) == Inflated(data')
  {
    hide BlockOk, BlockBits, StreamBits, StreamOutput;
    SameOutput(a, b, []);
    StreamComplete(data, 0, [], a);
    StreamComplete(data', 0, [], b);
  }

  /** What a decoder that checks the complements accepts, and returns. */
  ghost predicate Conforms(data: seq<Byte>, out: seq<Byte>) {
    exists blocks :: Encodes(data, blocks) && ComplementsHold(blocks) && StreamOutput(blocks, []) == Ok(out)
  }

  /** A stream the inflater accepts conforms exactly if its stored blocks hold their complements. */
  lemma ConformanceExact(data: seq<Byte>, blocks: seq<Block>, out: seq<Byte>)
    requires Encodes(data, blocks) && StreamOutput(blocks, []) == Ok(out)
    ensures Inflated(data) == Ok(out)
    ensures Conforms(data, out) <==> ComplementsHold(blocks)
  {
    hide StreamOutput, StreamBits, ComplementHolds;
    InflateExact(data, out);
    if conforming :| Encodes(data, conforming) && ComplementsHold(conforming)
                     && StreamOutput(conforming, []) == Ok(out) {
      StreamUnique(data, 0, blocks, conforming);
    }
  }

  /** The inflater and a checking decoder return the same on exactly the data whose complements, if it decodes at all,
      hold. */
  lemma AgreesWithChecking(data: seq<Byte>)
    ensures (forall out :: Conforms(data, out) <==> Inflated(data) == Ok(out))
       <==> (forall blocks :: Encodes(data, blocks) && StreamOutput(blocks, []).Ok? ==> ComplementsHold(blocks))
  {
    hide StreamOutput, ComplementsHold, Inflated, Encodes;
    forall blocks | Encodes(data, blocks) && StreamOutput(blocks, []).Ok?
      ensures Inflated(data) == StreamOutput(blocks, [])
      ensures Conforms(data, StreamOutput(blocks, []).value) <==> ComplementsHold(blocks)
    {
      ConformanceExact(data, blocks, StreamOutput(blocks, []).value);
    }
    forall out
      ensures Inflated(data) == Ok(out)
         <==> exists blocks :: Encodes(data, blocks) && StreamOutput(blocks, []) == Ok(out)
    {
      InflateExact(data, out);
    }
  }

  /** One stored byte with a complement of zero: the inflater returns the byte, a checking decoder nothing. */
  lemma WrongComplement()
    ensures var data := [0x01, 0x01, 0x00, 0x00, 0x00, 0x41];
            Inflated(data) == Ok([0x41]) && forall out :: !Conforms(data, out)
  {
    var b := Stored([0, 0, 0, 0, 0], [0, 0], [0x41]);
    var data: seq<Byte> := [0x01, 0x01, 0x00, 0x00, 0x00, 0x41];
    assert BlockOk(b, 3);
    assert Encodes(data, [b]) by {
      ExampleBits(data, b);
    }
    assert [b][1..] == [] && [] + b.payload == [0x41];
    assert StreamOutput([b], []) == Ok([0x41]);
    ConformanceExact(data, [b], [0x41]);
    assert !ComplementHolds([b][0]);
    forall out
      ensures !Conforms(data, out)
    {
      if blocks :| Encodes(data, blocks) && ComplementsHold(blocks) && StreamOutput(blocks, []) == Ok(out) {
        StreamUnique(data, 0, [b], blocks);
      }
    }
  }

  lemma ExampleBits(data: seq<Byte>, b: Block)
    requires data == [0x01, 0x01, 0x00, 0x00, 0x00, 0x41] && b == Stored([0, 0, 0, 0, 0], [0, 0], [0x41])
    ensures StreamOk([b], 0) && HasAt(BitsOf(data), 0, StreamBits([b], 0))
  {
    hide BitsOf, StreamBits, StreamOk, LsbBits, StoredBytes;
    var rest := StoredBytes(b);
    ExampleBytes(b);
    assert data == [0x01] + rest;
    BitsOfConcat([0x01], rest);
    OneBits();
    LastStoredBits(b);
    assert [1, 0, 0] + ([0, 0, 0, 0, 0] + BitsOf(rest)) == [1, 0, 0, 0, 0, 0, 0, 0] + BitsOf(rest);
  }

  lemma ExampleBytes(b: Block)
    requires b == Stored([0, 0, 0, 0, 0], [0, 0], [0x41])
    ensures StoredBytes(b) == [0x01, 0x00, 0x00, 0x00, 0x41]
  {
  }

  lemma OneBits()
    ensures BitsOf([0x01]) == [1, 0, 0, 0, 0, 0, 0, 0]
  {
    forall i | 1 <= i < 8
      ensures 1 / Pow2(i) == 0
    {
      Pow2Monotone(1, i);
      assert Pow2(1) == 2;
    }
    assert Pow2(0) == 1;
    hide Pow2;
  }

  lemma LastStoredBits(b: Block)
    requires b == Stored([0, 0, 0, 0, 0], [0, 0], [0x41])
    ensures StreamOk([b], 0) && StreamBits([b], 0) == [1, 0, 0] + ([0, 0, 0, 0, 0] + BitsOf(StoredBytes(b)))
  {
    hide BitsOf, StoredBytes;
    assert HeadBits(1, b) == [1, 0, 0];
  }
}
