/** The raw-DEFLATE inflater (RFC 1951): what it computes, as functions on the bit stream, and the
    methods that compute it. */
module Inflate {
  import opened BitReading
  import opened Bits
  import opened Huffman
  import opened Results

  const LEN_BASE: seq<nat> := [
    3, 4, 5, 6, 7, 8, 9, 10, 11, 13, 15, 17, 19, 23, 27, 31, 35, 43, 51, 59, 67, 83, 99,
    115, 131, 163, 195, 227, 258]
  const LEN_EXTRA: seq<nat> := [
    0, 0, 0, 0, 0, 0, 0, 0, 1, 1, 1, 1, 2, 2, 2, 2, 3, 3, 3, 3, 4, 4, 4, 4, 5, 5, 5, 5, 0]
  const DIST_BASE: seq<nat> := [
    1, 2, 3, 4, 5, 7, 9, 13, 17, 25, 33, 49, 65, 97, 129, 193, 257, 385, 513, 769, 1025,
    1537, 2049, 3073, 4097, 6145, 8193, 12289, 16385, 24577]
  const DIST_EXTRA: seq<nat> := [
    0, 0, 0, 0, 1, 1, 2, 2, 3, 3, 4, 4, 5, 5, 6, 6, 7, 7, 8, 8, 9, 9, 10, 10, 11, 11, 12,
    12, 13, 13]
  const CL_ORDER: seq<nat> := [16, 17, 18, 0, 8, 7, 9, 6, 10, 5, 11, 4, 12, 3, 13, 2, 14, 1, 15]

  lemma TableSizes()
    ensures |LEN_BASE| == |LEN_EXTRA| == 29 && |DIST_BASE| == |DIST_EXTRA| == 30 && |CL_ORDER| == 19
  {
  }

  function FixedLit(): (lens: seq<CodeLen>)
    ensures |lens| == 288
  {
    seq(288, i => if i < 144 then 8 else if i < 256 then 9 else if i < 280 then 7 else 8)
  }

  function FixedDist(): (lens: seq<CodeLen>)
    ensures |lens| == 30
  {
    seq(30, i => 5)
  }

  // ----- literals and matches -----

  /** One item of compressed data: a length is `LEN_BASE[li] + lext`, a distance `DIST_BASE[di] + dext`. */
  datatype Token =
    | Literal(b: Byte)
    | EndOfBlock
    | Match(li: nat, lext: nat, di: nat, dext: nat)

  /** The token at position p and the position after it. */
  ghost function NextToken(lit: seq<CodeLen>, dist: seq<CodeLen>, s: seq<Bit>, p: nat): (r: Result<(Token, nat), Error>)
    requires p <= |s|
    ensures r.Ok? ==> p < r.value.1 <= |s|
  {
    var sym :- DecodeAt(lit, s, p);
    var q := p + lit[sym];
    if sym == 256 then Ok((EndOfBlock, q))
    else if sym < 256 then Ok((Literal(sym), q))
    else if sym - 257 >= |LEN_BASE| then Err(BadLengthSymbol)
    else NextMatch(dist, s, q, sym - 257)
  }

  ghost function NextMatch(dist: seq<CodeLen>, s: seq<Bit>, p: nat, li: nat): (r: Result<(Token, nat), Error>)
    requires p <= |s| && li < |LEN_BASE|
    ensures r.Ok? ==> p <= r.value.1 <= |s|
    ensures r.Ok? ==> r.value.0.Match? && r.value.0.li == li && r.value.0.di < |DIST_BASE|
  {
    var lext :- ReadBits(s, p, LEN_EXTRA[li]);
    var q := p + LEN_EXTRA[li];
    var di :- DecodeAt(dist, s, q);
    if di >= |DIST_BASE| then Err(BadDistSymbol)
    else
      var q' := q + dist[di];
      var dext :- ReadBits(s, q', DIST_EXTRA[di]);
      Ok((Match(li, lext, di, dext), q' + DIST_EXTRA[di]))
  }

  /** LZ77 copy: the last `distance` bytes, extended periodically to `length` bytes. */
  function CopyOf(out: seq<Byte>, distance: nat, length: nat): (c: seq<Byte>)
    requires 1 <= distance <= |out|
    ensures |c| == length
  {
    seq(length, k requires 0 <= k => out[|out| - distance + k % distance])
  }

  function Length(t: Token): nat
    requires t.Match? && t.li < |LEN_BASE|
  {
    LEN_BASE[t.li] + t.lext
  }

  function Distance(t: Token): nat
    requires t.Match? && t.di < |DIST_BASE|
  {
    DIST_BASE[t.di] + t.dext
  }

  /** The output after one token. */
  function Apply(out: seq<Byte>, t: Token): Result<seq<Byte>, Error> {
    match t
    case EndOfBlock => Ok(out)
    case Literal(b) => Ok(out + [b])
    case Match(li, _, di, _) =>
      if li < |LEN_BASE| && di < |DIST_BASE| && 1 <= Distance(t) <= |out| then
        Ok(out + CopyOf(out, Distance(t), Length(t)))
      else Err(BadBackReference)
  }

  /** The compressed data of a block, from position p to the end-of-block code. */
  ghost function InflateTokens(lit: seq<CodeLen>, dist: seq<CodeLen>, s: seq<Bit>, p: nat, out: seq<Byte>)
    : (r: Result<(seq<Byte>, nat), Error>)
    requires p <= |s|
    ensures r.Ok? ==> p < r.value.1 <= |s|
    decreases |s| - p
  {
    var (t, q) :- NextToken(lit, dist, s, p);
    var out' :- Apply(out, t);
    if t == EndOfBlock then Ok((out, q)) else InflateTokens(lit, dist, s, q, out')
  }

  // ----- the code lengths of a dynamic block -----

  /** One item of the code-length sequence (section 3.2.7 of RFC 1951), with its raw extra bits. */
  datatype ClOp = Len(l: CodeLen) | Repeat(n: nat) | ZerosShort(n: nat) | ZerosLong(n: nat)

  ghost function NextOp(cl: seq<CodeLen>, s: seq<Bit>, p: nat, acc: seq<CodeLen>): (r: Result<(ClOp, nat), Error>)
    requires p <= |s|
    ensures r.Ok? ==> p < r.value.1 <= |s|
    ensures r.Ok? && r.value.0.Repeat? ==> acc != []
  {
    var sym :- DecodeAt(cl, s, p);
    var q := p + cl[sym];
    if sym <= 15 then Ok((Len(sym), q))
    else if sym == 16 then
      if acc == [] then Err(RepeatWithNoPrev)
      else
        var n :- ReadBits(s, q, 2);
        Ok((Repeat(n), q + 2))
    else if sym == 17 then
      var n :- ReadBits(s, q, 3);
      Ok((ZerosShort(n), q + 3))
    else if sym == 18 then
      var n :- ReadBits(s, q, 7);
      Ok((ZerosLong(n), q + 7))
    else Err(BadClSymbol)
  }

  function Fill(n: nat, l: CodeLen): (c: seq<CodeLen>)
    ensures |c| == n && forall i :: 0 <= i < n ==> c[i] == l
  {
    seq(n, _ => l)
  }

  function ApplyOp(acc: seq<CodeLen>, op: ClOp): (acc': seq<CodeLen>)
    requires op.Repeat? ==> acc != []
    ensures |acc'| > |acc|
  {
    match op
    case Len(l) => acc + [l]
    case Repeat(n) => acc + Fill(n + 3, acc[|acc| - 1])
    case ZerosShort(n) => acc + Fill(n + 3, 0)
    case ZerosLong(n) => acc + Fill(n + 11, 0)
  }

  ghost function LengthsFrom(cl: seq<CodeLen>, s: seq<Bit>, p: nat, acc: seq<CodeLen>, total: nat)
    : (r: Result<(seq<CodeLen>, nat), Error>)
    requires p <= |s|
    ensures r.Ok? ==> p <= r.value.1 <= |s| && |r.value.0| == total
    decreases |s| - p
  {
    if |acc| >= total then
      if |acc| == total then Ok((acc, p)) else Err(LengthSetOverrun)
    else
      var (op, q) :- NextOp(cl, s, p, acc);
      LengthsFrom(cl, s, q, ApplyOp(acc, op), total)
  }

  /** Where each symbol of the code-length code stands in CL_ORDER. */
  const CL_RANK: seq<nat> := [3, 17, 15, 13, 11, 9, 7, 5, 4, 6, 8, 10, 12, 14, 16, 18, 0, 1, 2]

  lemma ClOrderSize()
    ensures |CL_ORDER| == |CL_RANK| == 19
  {
  }

  /** CL_ORDER lists every symbol once: CL_RANK undoes it. */
  lemma ClOrderRank(i: nat)
    requires i < |CL_ORDER|
    ensures CL_ORDER[i] < |CL_RANK| && CL_RANK[CL_ORDER[i]] == i
  {
    if i < 10 {
      ClOrderRankLow(i);
    } else {
      ClOrderRankHigh(i);
    }
  }

  lemma ClOrderRankLow(i: nat)
    requires i < 10
    ensures CL_ORDER[i] < |CL_RANK| && CL_RANK[CL_ORDER[i]] == i
  {
    if i == 0 {} else if i == 1 {} else if i == 2 {} else if i == 3 {} else if i == 4 {}
    else if i == 5 {} else if i == 6 {} else if i == 7 {} else if i == 8 {}
  }

  lemma ClOrderRankHigh(i: nat)
    requires 10 <= i < |CL_ORDER|
    ensures CL_ORDER[i] < |CL_RANK| && CL_RANK[CL_ORDER[i]] == i
  {
    if i == 10 {} else if i == 11 {} else if i == 12 {} else if i == 13 {} else if i == 14 {}
    else if i == 15 {} else if i == 16 {} else if i == 17 {}
  }

  /** The code-length code: value i belongs to symbol CL_ORDER[i], the rest are zero. */
  function ClLengths(vals: seq<CodeLen>): (cl: seq<CodeLen>)
    requires |vals| <= |CL_ORDER|
    ensures |cl| == 19
  {
    ClOrderSize();
    hide CL_ORDER, CL_RANK;
    if vals == [] then Fill(19, 0)
    else
      ClOrderRank(|vals| - 1);
      ClLengths(vals[..|vals| - 1])[CL_ORDER[|vals| - 1] := vals[|vals| - 1]]
  }

  lemma {:induction false} ClLengthsAt(vals: seq<CodeLen>, i: nat)
    requires |vals| <= |CL_ORDER| && i < |CL_ORDER|
    ensures CL_ORDER[i] < 19 && ClLengths(vals)[CL_ORDER[i]] == if i < |vals| then vals[i] else 0
  {
    ClOrderSize();
    hide CL_ORDER, CL_RANK;
    ClOrderRank(i);
    if vals != [] {
      ClOrderRank(|vals| - 1);
      ClLengthsAt(vals[..|vals| - 1], i);
    }
  }

  /** n three-bit values starting at p. */
  function ReadClVals(s: seq<Bit>, p: nat, n: nat): (r: Result<seq<CodeLen>, Error>)
    requires p <= |s|
    ensures r.Ok? ==> |r.value| == n && p + 3 * n <= |s|
  {
    if n == 0 then Ok([])
    else
      var vals :- ReadClVals(s, p, n - 1);
      var v :- ReadBits(s, p + 3 * (n - 1), 3);
      ThreeBits(s, p + 3 * (n - 1));
      Ok(vals + [v])
  }

  lemma ThreeBits(s: seq<Bit>, p: nat)
    requires p + 3 <= |s|
    ensures LsbVal(s[p..p + 3]) < 8
  {
    LsbBitsVal(s[p..p + 3]);
    assert Pow2(3) == 8;
  }

  /** The header of a dynamic block: the literal/length and distance code lengths. */
  ghost function DynamicHeader(s: seq<Bit>, p: nat): (r: Result<(seq<CodeLen>, seq<CodeLen>, nat), Error>)
    requires p <= |s|
    ensures r.Ok? ==> p < r.value.2 <= |s| && |r.value.0| < 0x400 && |r.value.1| < 0x400
  {
    var hlit :- ReadBits(s, p, 5);
    var hdist :- ReadBits(s, p + 5, 5);
    var hclen :- ReadBits(s, p + 10, 4);
    HeaderFieldBounds(s, p);
    var vals :- ReadClVals(s, p + 14, hclen + 4);
    var (lens, q) :- LengthsFrom(ClLengths(vals), s, p + 14 + 3 * (hclen + 4), [], hlit + 257 + hdist + 1);
    Ok((lens[..hlit + 257], lens[hlit + 257..], q))
  }

  lemma HeaderFieldBounds(s: seq<Bit>, p: nat)
    requires p + 14 <= |s|
    ensures LsbVal(s[p..p + 5]) < 32 && LsbVal(s[p + 5..p + 5 + 5]) < 32 && LsbVal(s[p + 10..p + 10 + 4]) < 16
  {
    LsbBitsVal(s[p..p + 5]);
    LsbBitsVal(s[p + 5..p + 10]);
    LsbBitsVal(s[p + 10..p + 14]);
    assert Pow2(4) == 16 && Pow2(5) == 32;
  }

  // ----- blocks -----

  /** A stored block whose header bits end at p. The one's complement of the length is skipped, not checked. */
  function StoredBlock(data: seq<Byte>, p: nat, out: seq<Byte>): (r: Result<(seq<Byte>, nat), Error>)
    requires p <= 8 * |data|
    ensures r.Ok? ==> p < r.value.1 <= 8 * |data|
  {
    var a := (p + 7) / 8;
    if a + 1 >= |data| then Err(StoredLen)
    else
      var n: nat := data[a] as int + 256 * (data[a + 1] as int);
      if a + 4 + n > |data| then Err(StoredPayload)
      else Ok((out + data[a + 4..a + 4 + n], 8 * (a + 4 + n)))
  }

  ghost function InflateBlock(data: seq<Byte>, p: nat, btype: nat, out: seq<Byte>): (r: Result<(seq<Byte>, nat), Error>)
    requires p <= 8 * |data|
    ensures r.Ok? ==> p < r.value.1 <= 8 * |data|
  {
    var s := BitsOf(data);
    if btype == 0 then StoredBlock(data, p, out)
    else if btype == 1 then InflateTokens(FixedLit(), FixedDist(), s, p, out)
    else if btype == 2 then
      var (lit, dist, q) :- DynamicHeader(s, p);
      InflateTokens(lit, dist, s, q, out)
    else Err(ReservedBlockType)
  }

  ghost function InflateFrom(data: seq<Byte>, p: nat, out: seq<Byte>): Result<seq<Byte>, Error>
    requires p <= 8 * |data|
    decreases 8 * |data| - p
  {
    var s := BitsOf(data);
    var final :- ReadBits(s, p, 1);
    var btype :- ReadBits(s, p + 1, 2);
    var (out', q) :- InflateBlock(data, p + 3, btype, out);
    if final == 1 then Ok(out') else InflateFrom(data, q, out')
  }

  ghost function Inflated(data: seq<Byte>): Result<seq<Byte>, Error> {
    InflateFrom(data, 0, [])
  }

  // ----- the methods -----

  /** Decodes a whole raw-DEFLATE stream. */
  method InflateRaw(data: seq<Byte>) returns (r: Result<seq<Byte>, Error>)
    ensures r == Inflated(data)
  {
    var br := new BitReader(data);
    var out: seq<Byte> := [];
    while true
      invariant br.Valid() && br.data == data
      invariant InflateFrom(data, br.Pos(), out) == Inflated(data)
      decreases 8 * |data| - br.Pos()
    {
      ghost var p := br.Pos();
      var finalBlock :- br.Bits(1);
      var btype :- br.Bits(2);
      var res := DecodeBlock(br, btype, out);
      if res.Err? {
        return Err(res.error);
      }
      out := res.value;
      if finalBlock == 1 {
        break;
      }
    }
    r := Ok(out);
  }

  /** `r` and the reader's new position are what `spec` says. */
  ghost predicate Agrees<T>(r: Result<T, Error>, pos: nat, spec: Result<(T, nat), Error>) {
    match spec
    case Ok((v, q)) => r == Ok(v) && pos == q
    case Err(e) => r == Err(e)
  }

  method DecodeBlock(br: BitReader, btype: nat, out: seq<Byte>) returns (r: Result<seq<Byte>, Error>)
    requires br.Valid()
    modifies br
    ensures r.Ok? ==> br.Valid()
    ensures Agrees(r, br.Pos(), InflateBlock(br.data, old(br.Pos()), btype, out))
  {
    match btype
    case 0 =>
      r := DecodeStored(br, out);
    case 1 =>
      var lit := New(FixedLit());
      var dist := New(FixedDist());
      r := DecodeTokens(br, lit, dist, FixedLit(), FixedDist(), out);
    case 2 =>
      var header := DecodeHeader(br);
      if header.Err? {
        return Err(header.error);
      }
      var lit := New(header.value.0);
      var dist := New(header.value.1);
      r := DecodeTokens(br, lit, dist, header.value.0, header.value.1, out);
    case _ =>
      r := Err(ReservedBlockType);
  }

  method DecodeStored(br: BitReader, out: seq<Byte>) returns (r: Result<seq<Byte>, Error>)
    requires br.Valid()
    modifies br
    ensures r.Ok? ==> br.Valid()
    ensures Agrees(r, br.Pos(), StoredBlock(br.data, old(br.Pos()), out))
  {
    br.Align();
    var data := br.data;
    if br.byte >= |data| || br.byte + 1 >= |data| {
      return Err(StoredLen);
    }
    var len: nat := data[br.byte] as int + 256 * (data[br.byte + 1] as int);
    br.byte := br.byte + 4;
    if br.byte + len > |data| {
      return Err(StoredPayload);
    }
    var chunk := data[br.byte..br.byte + len];
    br.byte := br.byte + len;
    r := Ok(out + chunk);
  }

  method DecodeHeader(br: BitReader) returns (r: Result<(seq<CodeLen>, seq<CodeLen>), Error>)
    requires br.Valid()
    modifies br
    ensures br.Valid()
    ensures match DynamicHeader(br.Stream(), old(br.Pos()))
            case Ok((lit, dist, q)) => r == Ok((lit, dist)) && br.Pos() == q
            case Err(e) => r == Err(e)
  {
    hide DecodeAt, IsCodeAt, IsTable, ReadClVals, LengthsFrom, BitsOf, ClLengths;
    var hlit :- br.Bits(5);
    var hdist :- br.Bits(5);
    var hclen :- br.Bits(4);
    HeaderFieldBounds(br.Stream(), old(br.Pos()));
    var clLengths :- DecodeClLengths(br, hclen + 4);
    var cl := New(clLengths);
    var lengths :- DecodeLengths(br, cl, clLengths, hlit + 257 + hdist + 1);
    r := Ok((lengths[..hlit + 257], lengths[hlit + 257..]));
  }

  method DecodeClLengths(br: BitReader, n: nat) returns (r: Result<seq<CodeLen>, Error>)
    requires br.Valid() && n <= |CL_ORDER|
    modifies br
    ensures br.Valid()
    ensures match ReadClVals(br.Stream(), old(br.Pos()), n)
            case Ok(vals) => r == Ok(ClLengths(vals)) && br.Pos() == old(br.Pos()) + 3 * n
            case Err(e) => r == Err(e)
  {
    hide BitsOf, ClLengths, ReadClVals;
    ghost var s, p := br.Stream(), br.Pos();
    br.PosInStream();
    ClValsStart(s, p);
    var clLengths := Fill(19, 0);
    ghost var vals: seq<CodeLen> := [];
    for i := 0 to n
      invariant br.Valid() && br.Pos() == p + 3 * i
      invariant |vals| == i && ReadClVals(s, p, i) == Ok(vals) && clLengths == ClLengths(vals)
    {
      br.PosInStream();
      var v := br.Bits(3);
      if v.Err? {
        ClValsFail(s, p, i + 1, n);
        return Err(v.error);
      }
      ClValsStep(s, p, i, vals, v.value);
      clLengths := clLengths[CL_ORDER[i] := v.value];
      vals := vals + [v.value];
    }
    r := Ok(clLengths);
  }

  lemma ClValsStart(s: seq<Bit>, p: nat)
    requires p <= |s|
    ensures ReadClVals(s, p, 0) == Ok([]) && Fill(19, 0) == ClLengths([])
  {
  }

  lemma ClValsStep(s: seq<Bit>, p: nat, i: nat, vals: seq<CodeLen>, v: nat)
    requires p + 3 * i <= |s| && i < |CL_ORDER| && |vals| == i
    requires ReadClVals(s, p, i) == Ok(vals) && ReadBits(s, p + 3 * i, 3) == Ok(v)
    ensures v < 8 && ReadClVals(s, p, i + 1) == Ok(vals + [v])
    ensures ClLengths(vals + [v]) == ClLengths(vals)[CL_ORDER[i] := v]
  {
    ThreeBits(s, p + 3 * i);
    assert (vals + [v])[..i] == vals;
  }

  lemma {:induction false} ClValsFail(s: seq<Bit>, p: nat, m: nat, n: nat)
    requires p <= |s| && 1 <= m <= n && p + 3 * m > |s| >= p + 3 * (m - 1)
    ensures ReadClVals(s, p, n) == Err(OutOfBits)
  {
    if m < n {
      ClValsFail(s, p, m, n - 1);
    } else {
      ClValsInRange(s, p, m - 1);
    }
  }

  lemma {:induction false} ClValsInRange(s: seq<Bit>, p: nat, n: nat)
    requires p + 3 * n <= |s|
    ensures ReadClVals(s, p, n).Ok?
  {
    if n > 0 {
      ClValsInRange(s, p, n - 1);
    }
  }

  /** Reads `total` code lengths with the code-length code. */
  method DecodeLengths(br: BitReader, h: Table, ghost cl: seq<CodeLen>, total: nat)
    returns (r: Result<seq<CodeLen>, Error>)
    requires br.Valid() && IsTable(h, cl)
    modifies br
    ensures br.Valid()
    ensures Agrees(r, br.Pos(), LengthsFrom(cl, br.Stream(), old(br.Pos()), [], total))
  {
    hide *;
    ghost var s, p := br.Stream(), br.Pos();
    br.PosInStream();
    var lengths: seq<CodeLen> := [];
    while |lengths| < total
      invariant br.Valid() && br.Pos() <= |s|
      invariant LengthsFrom(cl, s, br.Pos(), lengths, total) == LengthsFrom(cl, s, p, [], total)
      decreases |s| - br.Pos()
    {
      LengthStep(cl, s, br.Pos(), lengths, total);
      var more := DecodeOp(br, h, cl, lengths);
      if more.Err? {
        AgreesErr<seq<CodeLen>>(more.error, br.Pos());
        return Err(more.error);
      }
      lengths := more.value;
    }
    LengthEnd(cl, s, br.Pos(), lengths, total);
    if |lengths| != total {
      AgreesErr<seq<CodeLen>>(LengthSetOverrun, br.Pos());
      return Err(LengthSetOverrun);
    }
    AgreesOk(lengths, br.Pos());
    r := Ok(lengths);
  }

  lemma LengthStep(cl: seq<CodeLen>, s: seq<Bit>, p: nat, acc: seq<CodeLen>, total: nat)
    requires p <= |s| && |acc| < total
    ensures match NextOp(cl, s, p, acc)
            case Err(e) => LengthsFrom(cl, s, p, acc, total) == Err(e)
            case Ok((op, q)) =>
              && p < q <= |s|
              && (op.Repeat? ==> acc != [])
              && LengthsFrom(cl, s, p, acc, total) == LengthsFrom(cl, s, q, ApplyOp(acc, op), total)
  {
  }

  lemma LengthEnd(cl: seq<CodeLen>, s: seq<Bit>, p: nat, acc: seq<CodeLen>, total: nat)
    requires p <= |s| && |acc| >= total
    ensures LengthsFrom(cl, s, p, acc, total) == if |acc| == total then Ok((acc, p)) else Err(LengthSetOverrun)
  {
  }

  /** One step of the length loop: one code and what it appends. */
  method DecodeOp(br: BitReader, h: Table, ghost cl: seq<CodeLen>, before: seq<CodeLen>)
    returns (r: Result<seq<CodeLen>, Error>)
    requires br.Valid() && IsTable(h, cl)
    modifies br
    ensures br.Valid()
    ensures match NextOp(cl, br.Stream(), old(br.Pos()), before)
            case Err(e) => r == Err(e)
            case Ok((op, q)) => r == Ok(ApplyOp(before, op)) && br.Pos() == q
  {
    hide DecodeAt, IsCodeAt, IsTable, ReadBits, BitsOf;
    var lengths := before;
    var sym :- Decode(h, br, cl);
    if sym <= 15 {
      lengths := lengths + [sym];
    } else if sym == 16 {
      if lengths == [] {
        return Err(RepeatWithNoPrev);
      }
      var prev := lengths[|lengths| - 1];
      var n :- br.Bits(2);
      for k := 0 to n + 3
        invariant lengths == before + Fill(k, prev)
      {
        lengths := lengths + [prev];
      }
    } else if sym == 17 {
      var n :- br.Bits(3);
      lengths := lengths + Fill(n + 3, 0);
    } else if sym == 18 {
      var n :- br.Bits(7);
      lengths := lengths + Fill(n + 11, 0);
    } else {
      return Err(BadClSymbol);
    }
    r := Ok(lengths);
  }

  /** Decodes literals and matches up to the end-of-block code. */
  method DecodeTokens(br: BitReader, lit: Table, dist: Table, ghost litLens: seq<CodeLen>, ghost distLens: seq<CodeLen>,
                      start: seq<Byte>)
    returns (r: Result<seq<Byte>, Error>)
    requires br.Valid() && IsTable(lit, litLens) && IsTable(dist, distLens)
    modifies br
    ensures br.Valid()
    ensures Agrees(r, br.Pos(), InflateTokens(litLens, distLens, br.Stream(), old(br.Pos()), start))
  {
    hide DecodeAt, IsCodeAt, IsTable, BitsOf, NextMatch, InflateTokens, CopyOf;
    ghost var s, p := br.Stream(), br.Pos();
    br.PosInStream();
    var out := start;
    while true
      invariant br.Valid() && br.Pos() <= |s|
      invariant InflateTokens(litLens, distLens, s, br.Pos(), out) == InflateTokens(litLens, distLens, s, p, start)
      decreases |s| - br.Pos()
    {
      TokenStep(litLens, distLens, s, br.Pos(), out);
      var sym := Decode(lit, br, litLens);
      if sym.Err? {
        AgreesErr<seq<Byte>>(sym.error, br.Pos());
        return Err(sym.error);
      }
      if sym.value == 256 {
        AgreesOk(out, br.Pos());
        return Ok(out);
      } else if sym.value < 256 {
        out := out + [sym.value];
      } else {
        var m := DecodeMatch(br, dist, distLens, sym.value - 257);
        if m.Err? {
          AgreesErr<seq<Byte>>(m.error, br.Pos());
          return Err(m.error);
        }
        var (length, distance) := m.value;
        if distance == 0 || distance > |out| {
          AgreesErr<seq<Byte>>(BadBackReference, br.Pos());
          return Err(BadBackReference);
        }
        out := CopyMatch(out, distance, length);
      }
    }
  }

  lemma AgreesErr<T>(e: Error, pos: nat)
    ensures Agrees<T>(Err(e), pos, Err(e))
  {
  }

  lemma AgreesOk<T>(v: T, pos: nat)
    ensures Agrees(Ok(v), pos, Ok((v, pos)))
  {
  }

  /** What InflateTokens is, by what is found at p. */
  lemma TokenStep(lit: seq<CodeLen>, dist: seq<CodeLen>, s: seq<Bit>, p: nat, out: seq<Byte>)
    requires p <= |s|
    ensures var r := InflateTokens(lit, dist, s, p, out);
            match DecodeAt(lit, s, p)
            case Err(e) => r == Err(e)
            case Ok(sym) =>
              sym < |lit| && p < p + lit[sym] <= |s|
              && var q := p + lit[sym];
              if sym == 256 then r == Ok((out, q))
              else if sym < 256 then r == InflateTokens(lit, dist, s, q, out + [sym as Byte])
              else MatchStep(lit, dist, s, q, out, sym - 257, r)
  {
    hide DecodeAt, IsCodeAt, ReadBits, NextMatch, Length, Distance, CopyOf, LEN_BASE, DIST_BASE;
  }

  ghost predicate MatchStep(lit: seq<CodeLen>, dist: seq<CodeLen>, s: seq<Bit>, q: nat, out: seq<Byte>, li: nat,
                            r: Result<(seq<Byte>, nat), Error>)
    requires q <= |s|
  {
    if li >= |LEN_BASE| then r == Err(BadLengthSymbol)
    else
      match NextMatch(dist, s, q, li)
      case Err(e) => r == Err(e)
      case Ok((t, q')) =>
        if 1 <= Distance(t) <= |out| then
          r == InflateTokens(lit, dist, s, q', out + CopyOf(out, Distance(t), Length(t)))
        else r == Err(BadBackReference)
  }

  method DecodeMatch(br: BitReader, dist: Table, ghost distLens: seq<CodeLen>, li: nat)
    returns (r: Result<(nat, nat), Error>)
    requires br.Valid() && IsTable(dist, distLens)
    modifies br
    ensures br.Valid()
    ensures if li >= |LEN_BASE| then r == Err(BadLengthSymbol)
            else
              match NextMatch(distLens, br.Stream(), old(br.Pos()), li)
              case Ok((t, q)) => r == Ok((Length(t), Distance(t))) && br.Pos() == q
              case Err(e) => r == Err(e)
  {
    hide DecodeAt, IsCodeAt, IsTable, ReadBits, BitsOf, LEN_BASE, LEN_EXTRA, DIST_BASE, DIST_EXTRA;
    TableSizes();
    if li >= |LEN_BASE| {
      return Err(BadLengthSymbol);
    }
    var lext :- br.Bits(LEN_EXTRA[li]);
    var length := LEN_BASE[li] + lext;
    var dsym :- Decode(dist, br, distLens);
    if dsym >= |DIST_BASE| {
      return Err(BadDistSymbol);
    }
    var dext :- br.Bits(DIST_EXTRA[dsym]);
    var distance := DIST_BASE[dsym] + dext;
    r := Ok((length, distance));
  }

  /** The copy loop: later bytes may come from bytes pushed by the same loop. */
  method CopyMatch(before: seq<Byte>, distance: nat, length: nat) returns (out: seq<Byte>)
    requires 1 <= distance <= |before|
    ensures out == before + CopyOf(before, distance, length)
  {
    out := before;
    var start := |out| - distance;
    for k := 0 to length
      invariant out == before + CopyOf(before, distance, k)
    {
      PeriodicStep(before, distance, k);
      out := out + [out[start + k]];
    }
  }

  lemma PeriodicStep(before: seq<Byte>, distance: nat, k: nat)
    requires 1 <= distance <= |before|
    ensures (before + CopyOf(before, distance, k))[|before| - distance + k] ==
            before[|before| - distance + k % distance]
    ensures CopyOf(before, distance, k + 1) ==
            CopyOf(before, distance, k) + [before[|before| - distance + k % distance]]
  {
    if k >= distance {
      DivUnique(k, distance, (k - distance) / distance + 1, (k - distance) % distance);
    }
  }
}
