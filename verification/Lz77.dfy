/** A compressor in the sense of section 3.2 of RFC 1951: lists of literals and (length, distance) copies,
    written as stored or fixed-Huffman blocks and packed into bytes. The inflater undoes it. */
module Lz77 {
  import opened Bits
  import opened Deflate
  import opened Huffman
  import opened Inflate
  import opened Results

  datatype Item = Lit(b: Byte) | Copy(length: nat, distance: nat)

  datatype Chunk = Raw(bytes: seq<Byte>) | Packed(items: seq<Item>)

  // ----- meaning -----

  function ItemSize(x: Item): nat {
    if x.Lit? then 1 else x.length
  }

  /** The items may follow n bytes of output. */
  predicate ItemsOk(items: seq<Item>, n: nat)
    decreases |items|
  {
    items == [] ||
    (var x := items[0];
     && (x.Copy? ==> 3 <= x.length <= 258 && 1 <= x.distance <= 32768 && x.distance <= n)
     && ItemsOk(items[1..], n + ItemSize(x)))
  }

  /** A copy repeats, byte by byte, what lies `distance` bytes back; it may run into its own output. */
  function Expand(items: seq<Item>, out: seq<Byte>): (r: seq<Byte>)
    requires ItemsOk(items, |out|)
    decreases |items|
  {
    if items == [] then out
    else
      match items[0]
      case Lit(b) => Expand(items[1..], out + [b])
      case Copy(length, distance) => Expand(items[1..], CopyBytes(out, distance, length))
  }

  function CopyBytes(out: seq<Byte>, distance: nat, length: nat): (r: seq<Byte>)
    requires 1 <= distance <= |out|
    ensures |r| == |out| + length
    decreases length
  {
    if length == 0 then out else CopyBytes(out + [out[|out| - distance]], distance, length - 1)
  }

  predicate ChunksOk(chunks: seq<Chunk>, n: nat)
    decreases |chunks|
  {
    chunks == [] ||
    match chunks[0]
    case Raw(bytes) => |bytes| < 0x1_0000 && ChunksOk(chunks[1..], n + |bytes|)
    case Packed(items) => ItemsOk(items, n) && ChunksOk(chunks[1..], n + ItemsSize(items))
  }

  function ItemsSize(items: seq<Item>): nat {
    if items == [] then 0 else ItemSize(items[0]) + ItemsSize(items[1..])
  }

  lemma {:induction false} ExpandSize(items: seq<Item>, out: seq<Byte>)
    requires ItemsOk(items, |out|)
    ensures |Expand(items, out)| == |out| + ItemsSize(items)
    decreases |items|
  {
    if items != [] {
      match items[0]
      case Lit(b) => ExpandSize(items[1..], out + [b]);
      case Copy(length, distance) => ExpandSize(items[1..], CopyBytes(out, distance, length));
    }
  }

  function ExpandChunks(chunks: seq<Chunk>, out: seq<Byte>): seq<Byte>
    requires ChunksOk(chunks, |out|)
    decreases |chunks|
  {
    if chunks == [] then out
    else
      match chunks[0]
      case Raw(bytes) => ExpandChunks(chunks[1..], out + bytes)
      case Packed(items) =>
        ExpandSize(items, out);
        ExpandChunks(chunks[1..], Expand(items, out))
  }

  // ----- symbols for lengths and distances -----

  /** The last index at or below i whose base does not exceed v. */
  function FindIndex(base: seq<nat>, v: nat, i: nat): (r: nat)
    requires i < |base| && base[0] <= v
    ensures r <= i && base[r] <= v && (r < i ==> v < base[r + 1])
  {
    if base[i] <= v then i else FindIndex(base, v, i - 1)
  }

  function ToToken(x: Item): Token
    requires x.Copy? ==> x.length >= 3 && x.distance >= 1
  {
    match x
    case Lit(b) => Literal(b)
    case Copy(length, distance) =>
      var li, di := FindIndex(LEN_BASE, length, 28), FindIndex(DIST_BASE, distance, 29);
      Match(li, length - LEN_BASE[li], di, distance - DIST_BASE[di])
  }

  /** Each length range starts where the one before it ends; the last is cut short for the symbol of 258. */
  lemma LengthSteps(i: nat)
    requires i < 28
    ensures LEN_BASE[0] == 3 && LEN_BASE[28] == 258
    ensures LEN_BASE[i + 1] == if i < 27 then LEN_BASE[i] + Pow2(LEN_EXTRA[i]) else LEN_BASE[i] + 31
  {
    SmallPowers();
    hide Pow2;
    if i < 14 {
      if i < 7 {} else {}
    } else {
      if i < 21 {} else {}
    }
  }

  lemma DistanceSteps(i: nat)
    requires i < 29
    ensures DIST_BASE[0] == 1 && DIST_BASE[i + 1] == DIST_BASE[i] + Pow2(DIST_EXTRA[i])
  {
    SmallPowers();
    hide Pow2;
    if i < 14 {
      if i < 7 {} else {}
    } else {
      if i < 21 {} else {}
    }
  }

  /** The widths of the extra bits (the tables of section 3.2.5 of RFC 1951). */
  lemma LengthExtra(i: nat)
    requires i < 29
    ensures LEN_EXTRA[i] == if i < 8 || i == 28 then 0 else i / 4 - 1
  {
    if i < 14 {
      if i < 7 {} else {}
    } else {
      if i < 21 {} else {}
    }
  }

  lemma DistanceExtra(i: nat)
    requires i < 30
    ensures DIST_EXTRA[i] == if i < 4 then 0 else i / 2 - 1
  {
    if i < 14 {
      if i < 7 {} else {}
    } else {
      if i < 21 {} else {}
    }
  }

  /** The order of the code-length code: the three repeat codes, zero, and then outwards from 8. */
  lemma ClOrderClosed(i: nat)
    requires i < 19
    ensures CL_ORDER[i] == if i < 3 then 16 + i else if i == 3 then 0 else if i % 2 == 0 then 6 + i / 2 else 9 - i / 2
  {
    if i < 10 {
      if i < 5 {} else {}
    } else {
      if i < 15 {} else {}
    }
  }

  lemma SmallPowers()
    ensures Pow2(0) == 1 && Pow2(1) == 2 && Pow2(2) == 4 && Pow2(3) == 8 && Pow2(4) == 16 && Pow2(5) == 32
    ensures Pow2(6) == 64 && Pow2(7) == 128 && Pow2(8) == 256 && Pow2(9) == 512 && Pow2(10) == 1024
    ensures Pow2(11) == 2048 && Pow2(12) == 4096 && Pow2(13) == 8192
  {
    assert Pow2(4) == 16;
    assert Pow2(8) == 256;
    assert Pow2(12) == 4096;
  }

  /** Every legal copy has a length symbol and a distance symbol. */
  lemma CopyHasSymbols(x: Item)
    requires x.Copy? && 3 <= x.length <= 258 && 1 <= x.distance <= 32768
    ensures var t := ToToken(x);
            && t.li < 29 && t.di < 30 && Length(t) == x.length && Distance(t) == x.distance
            && t.lext < Pow2(LEN_EXTRA[t.li]) && t.dext < Pow2(DIST_EXTRA[t.di])
  {
    hide Pow2, FindIndex;
    LengthSymbol(x.length);
    DistanceSymbol(x.distance);
  }

  lemma LengthSymbol(length: nat)
    requires 3 <= length <= 258
    ensures var li := FindIndex(LEN_BASE, length, 28);
            li < 29 && LEN_BASE[li] <= length < LEN_BASE[li] + Pow2(LEN_EXTRA[li])
  {
    hide Pow2;
    SmallPowers();
    var li := FindIndex(LEN_BASE, length, 28);
    if li < 28 {
      LengthSteps(li);
    }
  }

  lemma DistanceSymbol(distance: nat)
    requires 1 <= distance <= 32768
    ensures var di := FindIndex(DIST_BASE, distance, 29);
            di < 30 && DIST_BASE[di] <= distance < DIST_BASE[di] + Pow2(DIST_EXTRA[di])
  {
    hide Pow2;
    SmallPowers();
    var di := FindIndex(DIST_BASE, distance, 29);
    if di < 29 {
      DistanceSteps(di);
    }
  }

  // ----- the fixed code -----

  lemma {:induction false} CountRun(lens: seq<CodeLen>, l: nat, lo: nat, hi: nat, c: nat)
    requires lo <= hi <= |lens| && forall i :: lo <= i < hi ==> lens[i] == c
    ensures Count(lens, l, hi) == Count(lens, l, lo) + if l == c then hi - lo else 0
  {
    if lo < hi {
      CountRun(lens, l, lo, hi - 1, c);
    }
  }

  lemma FixedLitCounts(l: nat)
    ensures NumCodes(FixedLit(), l) == if l == 7 then 24 else if l == 8 then 152 else if l == 9 then 112 else 0
  {
    var lens := FixedLit();
    CountRun(lens, l, 0, 144, 8);
    CountRun(lens, l, 144, 256, 9);
    CountRun(lens, l, 256, 280, 7);
    CountRun(lens, l, 280, 288, 8);
  }

  lemma {:induction false} FirstOfUnused(lens: seq<CodeLen>, l: nat)
    requires forall k :: 1 <= k < l ==> NumCodes(lens, k) == 0
    ensures First(lens, l) == 0
  {
    if l > 1 {
      FirstOfUnused(lens, l - 1);
    }
  }

  lemma FixedLitFirsts()
    ensures First(FixedLit(), 7) == 0 && First(FixedLit(), 8) == 48 && First(FixedLit(), 9) == 400
  {
    var lens := FixedLit();
    forall l: nat
      ensures NumCodes(lens, l) == if l == 7 then 24 else if l == 8 then 152 else if l == 9 then 112 else 0
    {
      FixedLitCounts(l);
    }
    hide NumCodes, FixedLit;
    FirstOfUnused(lens, 7);
  }

  /** The table of section 3.2.6 of RFC 1951. */
  lemma FixedLitCode(sym: nat)
    requires sym < 288
    ensures Code(FixedLit(), sym) ==
            if sym < 144 then 0x30 + sym
            else if sym < 256 then 0x190 + (sym - 144)
            else if sym < 280 then sym - 256
            else 0xC0 + (sym - 280)
    ensures HasCodeWord(FixedLit(), sym)
  {
    var lens := FixedLit();
    FixedLitFirsts();
    SmallPowers();
    hide First, Pow2;
    if sym < 144 {
      CountRun(lens, 8, 0, sym, 8);
    } else if sym < 256 {
      CountRun(lens, 9, 0, 144, 8);
      CountRun(lens, 9, 144, sym, 9);
    } else if sym < 280 {
      CountRun(lens, 7, 0, 144, 8);
      CountRun(lens, 7, 144, 256, 9);
      CountRun(lens, 7, 256, sym, 7);
    } else {
      CountRun(lens, 8, 0, 144, 8);
      CountRun(lens, 8, 144, 256, 9);
      CountRun(lens, 8, 256, 280, 7);
      CountRun(lens, 8, 280, sym, 8);
    }
  }

  lemma FixedDistCode(sym: nat)
    requires sym < 30
    ensures Code(FixedDist(), sym) == sym && HasCodeWord(FixedDist(), sym)
  {
    var lens := FixedDist();
    forall l: nat
      ensures NumCodes(lens, l) == if l == 5 then 30 else 0
    {
      CountRun(lens, l, 0, 30, 5);
    }
    FirstOfUnused(lens, 5);
    CountRun(lens, 5, 0, sym, 5);
    SmallPowers();
  }

  // ----- the compressor -----

  function Tokens(items: seq<Item>, n: nat): (ts: seq<Token>)
    requires ItemsOk(items, n)
    ensures |ts| == |items|
    decreases |items|
  {
    if items == [] then [] else [ToToken(items[0])] + Tokens(items[1..], n + ItemSize(items[0]))
  }

  function Padding(p: nat): (pad: seq<Bit>)
    ensures (p + |pad|) % 8 == 0 && |pad| < 8
  {
    LsbBits(0, (8 - p % 8) % 8)
  }

  /** A chunk as a block: stored bytes carry zero padding and the one's complement of the length. */
  function ToBlock(c: Chunk, p: nat, n: nat): Block
    requires ChunksOk([c], n)
  {
    match c
    case Raw(bytes) => Stored(Padding(p), [255 - |bytes| % 256, 255 - |bytes| / 256], bytes)
    case Packed(items) => Fixed(Tokens(items, n))
  }

  lemma {:induction false} TokensAreOk(items: seq<Item>, n: nat)
    requires ItemsOk(items, n)
    ensures TokensOk(FixedLit(), FixedDist(), Tokens(items, n))
    decreases |items|
  {
    FixedLitCode(256);
    if items != [] {
      TokensAreOk(items[1..], n + ItemSize(items[0]));
      ItemIsOk(items[0]);
    }
  }

  lemma ItemIsOk(x: Item)
    requires x.Copy? ==> 3 <= x.length <= 258 && 1 <= x.distance <= 32768
    ensures ToToken(x) != EndOfBlock && TokenOk(FixedLit(), FixedDist(), ToToken(x))
  {
    match x
    case Lit(b) => FixedLitCode(b);
    case Copy(_, _) =>
      CopyHasSymbols(x);
      FixedLitCode(257 + ToToken(x).li);
      FixedDistCode(ToToken(x).di);
  }

  /** Copying byte by byte is the periodic extension of the last `distance` bytes. */
  lemma {:induction false} CopyIsPeriodic(out: seq<Byte>, distance: nat, length: nat)
    requires 1 <= distance <= |out|
    ensures CopyBytes(out, distance, length) == out + CopyOf(out, distance, length)
    decreases length
  {
    if length > 0 {
      var b := out[|out| - distance];
      CopyIsPeriodic(out + [b], distance, length - 1);
      PeriodicHead(out, distance, length);
      assert out + [b] + CopyOf(out + [b], distance, length - 1)
          == out + ([b] + CopyOf(out + [b], distance, length - 1));
    }
  }

  lemma PeriodicHead(out: seq<Byte>, distance: nat, length: nat)
    requires 1 <= distance <= |out| && length >= 1
    ensures var b := out[|out| - distance];
            [b] + CopyOf(out + [b], distance, length - 1) == CopyOf(out, distance, length)
  {
    var b := out[|out| - distance];
    var c := CopyOf(out + [b], distance, length - 1);
    forall k | 0 <= k < length
      ensures ([b] + c)[k] == CopyOf(out, distance, length)[k]
    {
      if k > 0 {
        ShiftedPeriod(distance, k);
        var r := (k - 1) % distance;
        assert c[k - 1] == (out + [b])[|out| + 1 - distance + r];
      }
    }
  }

  lemma ShiftedPeriod(d: nat, k: nat)
    requires d >= 1 && k >= 1
    ensures k % d == if (k - 1) % d == d - 1 then 0 else (k - 1) % d + 1
  {
    var q, r := (k - 1) / d, (k - 1) % d;
    if r == d - 1 {
      DivUnique(k, d, q + 1, 0);
    } else {
      DivUnique(k, d, q, r + 1);
    }
  }

  lemma {:induction false} TokensExpand(items: seq<Item>, out: seq<Byte>)
    requires ItemsOk(items, |out|)
    ensures ApplyAll(out, Tokens(items, |out|)) == Ok(Expand(items, out))
    decreases |items|
  {
    hide TokenOk, FindIndex, CopyBytes, CopyOf, Pow2, LEN_BASE, LEN_EXTRA, DIST_BASE, DIST_EXTRA;
    if items != [] {
      var ts := Tokens(items, |out|);
      assert ts[1..] == Tokens(items[1..], |out| + ItemSize(items[0]));
      match items[0]
      case Lit(b) => TokensExpand(items[1..], out + [b]);
      case Copy(length, distance) =>
        TableSizes();
        CopyHasSymbols(items[0]);
        CopyIsPeriodic(out, distance, length);
        TokensExpand(items[1..], CopyBytes(out, distance, length));
    }
  }

  function ToBlocks(chunks: seq<Chunk>, p: nat, n: nat): (blocks: seq<Block>)
    requires ChunksOk(chunks, n)
    ensures |blocks| == |chunks|
    decreases |chunks|
  {
    if chunks == [] then []
    else
      ChunkAlone(chunks, n);
      var b := ToBlock(chunks[0], p + 3, n);
      ChunkBlockOk(chunks[0], p + 3, n);
      [b] + ToBlocks(chunks[1..], p + 3 + |BlockBits(b, p + 3)|, n + ChunkSize(chunks[0]))
  }

  function ChunkSize(c: Chunk): nat {
    match c
    case Raw(bytes) => |bytes|
    case Packed(items) => ItemsSize(items)
  }

  lemma ChunkAlone(chunks: seq<Chunk>, n: nat)
    requires ChunksOk(chunks, n) && chunks != []
    ensures ChunksOk([chunks[0]], n) && ChunksOk(chunks[1..], n + ChunkSize(chunks[0]))
  {
    assert [chunks[0]][1..] == [];
  }

  lemma ChunkBlockOk(c: Chunk, p: nat, n: nat)
    requires ChunksOk([c], n)
    ensures BlockOk(ToBlock(c, p, n), p)
  {
    hide TokensOk, FixedLit, FixedDist, Tokens, ItemsOk, Padding;
    if c.Packed? {
      TokensAreOk(c.items, n);
    }
  }

  lemma ChunkOutput(c: Chunk, p: nat, out: seq<Byte>)
    requires ChunksOk([c], |out|)
    ensures BlockOutput(ToBlock(c, p, |out|), out) ==
            Ok(if c.Raw? then out + c.bytes else Expand(c.items, out))
  {
    if c.Packed? {
      TokensExpand(c.items, out);
    }
  }

  lemma {:induction false} BlocksMean(chunks: seq<Chunk>, p: nat, out: seq<Byte>)
    requires ChunksOk(chunks, |out|)
    ensures chunks != [] ==> StreamOk(ToBlocks(chunks, p, |out|), p)
    ensures StreamOutput(ToBlocks(chunks, p, |out|), out) == Ok(ExpandChunks(chunks, out))
    decreases |chunks|
  {
    hide BlockOk, BlockBits, BlockOutput, ToBlock, ItemsOk, ItemsSize, Expand;
    if chunks != [] {
      ChunkAlone(chunks, |out|);
      var c, b := chunks[0], ToBlock(chunks[0], p + 3, |out|);
      ChunkBlockOk(c, p + 3, |out|);
      ChunkOutput(c, p + 3, out);
      if c.Packed? {
        ExpandSize(c.items, out);
      }
      var blocks := ToBlocks(chunks, p, |out|);
      var out' := if c.Raw? then out + c.bytes else Expand(c.items, out);
      var p' := p + 3 + |BlockBits(b, p + 3)|;
      assert blocks[1..] == ToBlocks(chunks[1..], p', |out| + ChunkSize(c));
      BlocksMean(chunks[1..], p', out');
    }
  }

  /** The compressed bytes of a nonempty list of chunks. */
  function Compress(chunks: seq<Chunk>): seq<Byte>
    requires chunks != [] && ChunksOk(chunks, 0)
  {
    BlocksMean(chunks, 0, []);
    ToBytes(StreamBits(ToBlocks(chunks, 0, 0), 0))
  }

  /** Inflating undoes compressing, whatever bytes follow the stream. */
  lemma InflateCompress(chunks: seq<Chunk>, rest: seq<Byte>)
    requires chunks != [] && ChunksOk(chunks, 0)
    ensures Inflated(Compress(chunks) + rest) == Ok(ExpandChunks(chunks, []))
  {
    BlocksMean(chunks, 0, []);
    var blocks := ToBlocks(chunks, 0, 0);
    var bits := StreamBits(blocks, 0);
    ToBytesHolds(bits);
    BitsOfConcat(Compress(chunks), rest);
    assert BitsOf(Compress(chunks) + rest)[0..|bits|] == BitsOf(Compress(chunks))[0..|bits|];
    StreamComplete(Compress(chunks) + rest, 0, [], blocks);
  }
}
