/** The DEFLATE format as an encoding (RFC 1951), and the proof that the inflater accepts exactly the
    encodings and returns what they stand for. */
module Deflate {
  import opened BitReading
  import opened Bits
  import opened Huffman
  import opened Inflate
  import opened Results

  // ----- reading and writing agree on the smallest items -----

  lemma DecodeExact(lens: seq<CodeLen>, s: seq<Bit>, p: nat, sym: nat)
    ensures DecodeAt(lens, s, p) == Ok(sym) <==> IsCodeAt(lens, s, p, sym)
  {
    if IsCodeAt(lens, s, p, sym) {
      DecodeFinds(lens, s, p, sym);
    }
  }

  lemma ReadExact(s: seq<Bit>, p: nat, n: nat, v: nat)
    requires p <= |s|
    ensures ReadBits(s, p, n) == Ok(v) <==> v < Pow2(n) && HasAt(s, p, LsbBits(v, n))
  {
    hide LsbVal, LsbBits, Pow2;
    if p + n <= |s| {
      LsbExact(s[p..p + n], v);
    }
  }

  // ----- tokens -----

  predicate TokenOk(lit: seq<CodeLen>, dist: seq<CodeLen>, t: Token) {
    match t
    case Literal(b) => HasCodeWord(lit, b)
    case EndOfBlock => HasCodeWord(lit, 256)
    case Match(li, lext, di, dext) =>
      && li < |LEN_BASE| && di < |DIST_BASE|
      && HasCodeWord(lit, 257 + li) && lext < Pow2(LEN_EXTRA[li])
      && HasCodeWord(dist, di) && dext < Pow2(DIST_EXTRA[di])
  }

  function TokenBits(lit: seq<CodeLen>, dist: seq<CodeLen>, t: Token): seq<Bit>
    requires TokenOk(lit, dist, t)
  {
    match t
    case Literal(b) => CodeWord(lit, b)
    case EndOfBlock => CodeWord(lit, 256)
    case Match(li, _, _, _) => CodeWord(lit, 257 + li) + MatchBits(dist, t)
  }

  function MatchBits(dist: seq<CodeLen>, t: Token): seq<Bit>
    requires t.Match? && t.li < |LEN_BASE| && t.di < |DIST_BASE| && HasCodeWord(dist, t.di)
  {
    LsbBits(t.lext, LEN_EXTRA[t.li]) + (CodeWord(dist, t.di) + LsbBits(t.dext, DIST_EXTRA[t.di]))
  }

  lemma NextMatchExact(dist: seq<CodeLen>, s: seq<Bit>, p: nat, t: Token, q: nat)
    requires p <= |s| && t.Match? && t.li < |LEN_BASE|
    ensures NextMatch(dist, s, p, t.li) == Ok((t, q)) <==>
              && t.di < |DIST_BASE| && HasCodeWord(dist, t.di)
              && t.lext < Pow2(LEN_EXTRA[t.li]) && t.dext < Pow2(DIST_EXTRA[t.di])
              && HasAt(s, p, MatchBits(dist, t)) && q == p + |MatchBits(dist, t)|
  {
    hide IsCodeAt, DecodeAt, Code, CodeWord, Pow2, LsbBits, ReadBits, LEN_BASE, LEN_EXTRA, DIST_BASE, DIST_EXTRA;
    TableSizes();
    var q1 := p + LEN_EXTRA[t.li];
    ReadExact(s, p, LEN_EXTRA[t.li], t.lext);
    if q1 <= |s| {
      MatchTail(dist, s, q1, t);
    }
    if t.di < |DIST_BASE| && HasCodeWord(dist, t.di) {
      var tail := CodeWord(dist, t.di) + LsbBits(t.dext, DIST_EXTRA[t.di]);
      HasAtConcat(s, p, LsbBits(t.lext, LEN_EXTRA[t.li]), tail);
      assert |MatchBits(dist, t)| == LEN_EXTRA[t.li] + (dist[t.di] + DIST_EXTRA[t.di]);
    }
  }

  lemma MatchTail(dist: seq<CodeLen>, s: seq<Bit>, p: nat, t: Token)
    requires p <= |s| && t.Match?
    ensures DecodeAt(dist, s, p) == Ok(t.di) && t.di < |DIST_BASE|
            && ReadBits(s, p + dist[t.di], DIST_EXTRA[t.di]) == Ok(t.dext)
       <==> t.di < |DIST_BASE| && HasCodeWord(dist, t.di) && t.dext < Pow2(DIST_EXTRA[t.di])
            && HasAt(s, p, CodeWord(dist, t.di) + LsbBits(t.dext, DIST_EXTRA[t.di]))
  {
    hide DecodeAt, Code, CodeWord, Pow2, LsbBits, ReadBits, LEN_BASE, LEN_EXTRA, DIST_BASE, DIST_EXTRA;
    TableSizes();
    DecodeExact(dist, s, p, t.di);
    if t.di < |DIST_BASE| && HasCodeWord(dist, t.di) {
      HasAtConcat(s, p, CodeWord(dist, t.di), LsbBits(t.dext, DIST_EXTRA[t.di]));
      if p + dist[t.di] <= |s| {
        ReadExact(s, p + dist[t.di], DIST_EXTRA[t.di], t.dext);
      }
    }
  }

  /** NextToken inverts TokenBits, in both directions. */
  lemma NextTokenExact(lit: seq<CodeLen>, dist: seq<CodeLen>, s: seq<Bit>, p: nat, t: Token, q: nat)
    requires p <= |s|
    ensures NextToken(lit, dist, s, p) == Ok((t, q)) <==>
              && TokenOk(lit, dist, t)
              && HasAt(s, p, TokenBits(lit, dist, t)) && q == p + |TokenBits(lit, dist, t)|
  {
    hide DecodeAt, NextMatch, Code, CodeWord, Pow2, LEN_BASE, LEN_EXTRA, DIST_BASE, DIST_EXTRA;
    TableSizes();
    match t
    case Literal(b) =>
      DecodeExact(lit, s, p, b);
    case EndOfBlock =>
      DecodeExact(lit, s, p, 256);
    case Match(li, _, _, _) =>
      DecodeExact(lit, s, p, 257 + li);
      if li < |LEN_BASE| && IsCodeAt(lit, s, p, 257 + li) {
        NextMatchExact(dist, s, p + lit[257 + li], t, q);
      }
      if TokenOk(lit, dist, t) {
        HasAtConcat(s, p, CodeWord(lit, 257 + li), MatchBits(dist, t));
      }
  }

  // ----- the compressed data of a block -----

  predicate TokensOk(lit: seq<CodeLen>, dist: seq<CodeLen>, ts: seq<Token>) {
    && TokenOk(lit, dist, EndOfBlock)
    && forall i :: 0 <= i < |ts| ==> ts[i] != EndOfBlock && TokenOk(lit, dist, ts[i])
  }

  function TokensBits(lit: seq<CodeLen>, dist: seq<CodeLen>, ts: seq<Token>): seq<Bit>
    requires TokensOk(lit, dist, ts)
  {
    if ts == [] then TokenBits(lit, dist, EndOfBlock)
    else TokenBits(lit, dist, ts[0]) + TokensBits(lit, dist, ts[1..])
  }

  /** The output after a list of tokens: LZ77 expansion. */
  function ApplyAll(out: seq<Byte>, ts: seq<Token>): Result<seq<Byte>, Error>
    decreases |ts|
  {
    if ts == [] then Ok(out)
    else
      var out' :- Apply(out, ts[0]);
      ApplyAll(out', ts[1..])
  }

  lemma {:induction false} TokensComplete(lit: seq<CodeLen>, dist: seq<CodeLen>, s: seq<Bit>, p: nat, out: seq<Byte>,
                                          ts: seq<Token>)
    requires p <= |s| && TokensOk(lit, dist, ts) && HasAt(s, p, TokensBits(lit, dist, ts))
    ensures InflateTokens(lit, dist, s, p, out) ==
            match ApplyAll(out, ts)
            case Ok(out') => Ok((out', p + |TokensBits(lit, dist, ts)|))
            case Err(e) => Err(e)
    decreases |ts|
  {
    hide TokenOk, TokenBits, Apply, NextToken;
    if ts == [] {
      NextTokenExact(lit, dist, s, p, EndOfBlock, p + |TokenBits(lit, dist, EndOfBlock)|);
      EndKeeps(out);
    } else {
      var b := TokenBits(lit, dist, ts[0]);
      HasAtConcat(s, p, b, TokensBits(lit, dist, ts[1..]));
      NextTokenExact(lit, dist, s, p, ts[0], p + |b|);
      match Apply(out, ts[0])
      case Ok(out') => TokensComplete(lit, dist, s, p + |b|, out', ts[1..]);
      case Err(_) =>
    }
  }

  lemma EndKeeps(out: seq<Byte>)
    ensures Apply(out, EndOfBlock) == Ok(out)
  {
  }

  lemma {:induction false} TokensSound(lit: seq<CodeLen>, dist: seq<CodeLen>, s: seq<Bit>, p: nat, out: seq<Byte>)
    returns (ts: seq<Token>)
    requires p <= |s| && InflateTokens(lit, dist, s, p, out).Ok?
    ensures TokensOk(lit, dist, ts) && HasAt(s, p, TokensBits(lit, dist, ts))
    ensures var (out', q) := InflateTokens(lit, dist, s, p, out).value;
            ApplyAll(out, ts) == Ok(out') && q == p + |TokensBits(lit, dist, ts)|
    decreases |s| - p
  {
    hide TokenOk, TokenBits, Apply, NextToken;
    var (t, q) := NextToken(lit, dist, s, p).value;
    NextTokenExact(lit, dist, s, p, t, q);
    if t == EndOfBlock {
      ts := [];
    } else {
      var out' := Apply(out, t).value;
      var rest := TokensSound(lit, dist, s, q, out');
      ts := [t] + rest;
      assert ts[1..] == rest;
      HasAtConcat(s, p, TokenBits(lit, dist, t), TokensBits(lit, dist, rest));
    }
  }

  // ----- the header of a dynamic block -----

  predicate OpOk(cl: seq<CodeLen>, op: ClOp, acc: seq<CodeLen>) {
    match op
    case Len(l) => HasCodeWord(cl, l)
    case Repeat(n) => HasCodeWord(cl, 16) && acc != [] && n < Pow2(2)
    case ZerosShort(n) => HasCodeWord(cl, 17) && n < Pow2(3)
    case ZerosLong(n) => HasCodeWord(cl, 18) && n < Pow2(7)
  }

  function OpBits(cl: seq<CodeLen>, op: ClOp): seq<Bit>
    requires exists acc :: OpOk(cl, op, acc)
  {
    match op
    case Len(l) => CodeWord(cl, l)
    case Repeat(n) => CodeWord(cl, 16) + LsbBits(n, 2)
    case ZerosShort(n) => CodeWord(cl, 17) + LsbBits(n, 3)
    case ZerosLong(n) => CodeWord(cl, 18) + LsbBits(n, 7)
  }

  lemma NextOpExact(cl: seq<CodeLen>, s: seq<Bit>, p: nat, acc: seq<CodeLen>, op: ClOp, q: nat)
    requires p <= |s|
    ensures NextOp(cl, s, p, acc) == Ok((op, q)) <==>
              OpOk(cl, op, acc) && HasAt(s, p, OpBits(cl, op)) && q == p + |OpBits(cl, op)|
  {
    hide DecodeAt, ReadBits, Code, CodeWord, HasAt, LsbBits, Pow2;
    match op
    case Len(l) => DecodeExact(cl, s, p, l);
    case Repeat(n) => SymbolAndExtra(cl, s, p, 16, n, 2);
    case ZerosShort(n) => SymbolAndExtra(cl, s, p, 17, n, 3);
    case ZerosLong(n) => SymbolAndExtra(cl, s, p, 18, n, 7);
  }

  /** A symbol followed by n in w extra bits. */
  lemma SymbolAndExtra(cl: seq<CodeLen>, s: seq<Bit>, p: nat, sym: nat, n: nat, w: nat)
    requires p <= |s|
    ensures DecodeAt(cl, s, p) == Ok(sym) && ReadBits(s, p + cl[sym], w) == Ok(n)
       <==> HasCodeWord(cl, sym) && n < Pow2(w) && HasAt(s, p, CodeWord(cl, sym) + LsbBits(n, w))
    ensures DecodeAt(cl, s, p) == Ok(sym) <==> IsCodeAt(cl, s, p, sym)
  {
    hide DecodeAt, ReadBits, Code, CodeWord, LsbBits, Pow2;
    DecodeExact(cl, s, p, sym);
    if HasCodeWord(cl, sym) {
      HasAtConcat(s, p, CodeWord(cl, sym), LsbBits(n, w));
      if p + cl[sym] <= |s| {
        ReadExact(s, p + cl[sym], w, n);
      }
    }
  }

  predicate OpsOk(cl: seq<CodeLen>, ops: seq<ClOp>, acc: seq<CodeLen>, total: nat)
    decreases |ops|
  {
    if |acc| >= total then |acc| == total && ops == []
    else ops != [] && OpOk(cl, ops[0], acc) && OpsOk(cl, ops[1..], ApplyOp(acc, ops[0]), total)
  }

  function OpsBits(cl: seq<CodeLen>, ops: seq<ClOp>, acc: seq<CodeLen>, total: nat): seq<Bit>
    requires OpsOk(cl, ops, acc, total)
    decreases |ops|
  {
    if ops == [] then []
    else OpBits(cl, ops[0]) + OpsBits(cl, ops[1..], ApplyOp(acc, ops[0]), total)
  }

  /** The code lengths a list of items stands for. */
  function OpsLengths(cl: seq<CodeLen>, ops: seq<ClOp>, acc: seq<CodeLen>, total: nat): (lens: seq<CodeLen>)
    requires OpsOk(cl, ops, acc, total)
    ensures |lens| == total
    decreases |ops|
  {
    if ops == [] then acc else OpsLengths(cl, ops[1..], ApplyOp(acc, ops[0]), total)
  }

  lemma {:induction false} LengthsComplete(cl: seq<CodeLen>, s: seq<Bit>, p: nat, acc: seq<CodeLen>, total: nat,
                                           ops: seq<ClOp>)
    requires p <= |s| && OpsOk(cl, ops, acc, total) && HasAt(s, p, OpsBits(cl, ops, acc, total))
    ensures LengthsFrom(cl, s, p, acc, total) ==
            Ok((OpsLengths(cl, ops, acc, total), p + |OpsBits(cl, ops, acc, total)|))
    decreases |ops|
  {
    hide OpOk, OpBits, NextOp, ApplyOp;
    if ops != [] {
      OpAppends(cl, ops[0], acc);
      var b := OpBits(cl, ops[0]);
      var acc' := ApplyOp(acc, ops[0]);
      HasAtConcat(s, p, b, OpsBits(cl, ops[1..], acc', total));
      NextOpExact(cl, s, p, acc, ops[0], p + |b|);
      LengthsComplete(cl, s, p + |b|, acc', total, ops[1..]);
    }
  }

  lemma OpAppends(cl: seq<CodeLen>, op: ClOp, acc: seq<CodeLen>)
    requires OpOk(cl, op, acc)
    ensures op.Repeat? ==> acc != []
  {
  }

  lemma {:induction false} LengthsSound(cl: seq<CodeLen>, s: seq<Bit>, p: nat, acc: seq<CodeLen>, total: nat)
    returns (ops: seq<ClOp>)
    requires p <= |s| && LengthsFrom(cl, s, p, acc, total).Ok?
    ensures OpsOk(cl, ops, acc, total) && HasAt(s, p, OpsBits(cl, ops, acc, total))
    ensures LengthsFrom(cl, s, p, acc, total).value ==
            (OpsLengths(cl, ops, acc, total), p + |OpsBits(cl, ops, acc, total)|)
    decreases |s| - p
  {
    hide OpOk, OpBits, NextOp, ApplyOp;
    if |acc| >= total {
      ops := [];
    } else {
      var (op, q) := NextOp(cl, s, p, acc).value;
      NextOpExact(cl, s, p, acc, op, q);
      OpAppends(cl, op, acc);
      var acc' := ApplyOp(acc, op);
      var rest := LengthsSound(cl, s, q, acc', total);
      ops := [op] + rest;
      assert ops[1..] == rest;
      HasAtConcat(s, p, OpBits(cl, op), OpsBits(cl, rest, acc', total));
    }
  }

  function ClBits(vals: seq<CodeLen>): (b: seq<Bit>)
    ensures |b| == 3 * |vals|
  {
    if vals == [] then [] else ClBits(vals[..|vals| - 1]) + LsbBits(vals[|vals| - 1], 3)
  }

  predicate ThreeBitValues(vals: seq<CodeLen>) {
    forall i :: 0 <= i < |vals| ==> vals[i] < 8
  }

  lemma {:induction false} ClValsExact(s: seq<Bit>, p: nat, vals: seq<CodeLen>)
    requires p <= |s|
    ensures ReadClVals(s, p, |vals|) == Ok(vals) <==> ThreeBitValues(vals) && HasAt(s, p, ClBits(vals))
  {
    if vals != [] {
      var n := |vals| - 1;
      var (front, v) := (vals[..n], vals[n]);
      ClValsExact(s, p, front);
      HasAtConcat(s, p, ClBits(front), LsbBits(v, 3));
      assert Pow2(3) == 8;
      assert vals == front + [v];
      if p + 3 * n <= |s| {
        ReadExact(s, p + 3 * n, 3, v);
      }
    }
  }

  datatype Header = Header(hlit: nat, hdist: nat, clVals: seq<CodeLen>, ops: seq<ClOp>)

  predicate HeaderOk(h: Header) {
    && 257 <= h.hlit <= 288 && 1 <= h.hdist <= 32
    && 4 <= |h.clVals| <= 19 && ThreeBitValues(h.clVals)
    && OpsOk(ClLengths(h.clVals), h.ops, [], h.hlit + h.hdist)
  }

  function HeaderBits(h: Header): seq<Bit>
    requires HeaderOk(h)
  {
    FieldBits(h) + (ClBits(h.clVals) + OpsBits(ClLengths(h.clVals), h.ops, [], h.hlit + h.hdist))
  }

  function FieldBits(h: Header): (b: seq<Bit>)
    requires h.hlit >= 257 && h.hdist >= 1 && |h.clVals| >= 4
    ensures |b| == 14
  {
    LsbBits(h.hlit - 257, 5) + (LsbBits(h.hdist - 1, 5) + LsbBits(|h.clVals| - 4, 4))
  }

  function HeaderLengths(h: Header): (seq<CodeLen>, seq<CodeLen>)
    requires HeaderOk(h)
  {
    var lens := OpsLengths(ClLengths(h.clVals), h.ops, [], h.hlit + h.hdist);
    (lens[..h.hlit], lens[h.hlit..])
  }

  lemma FieldsExact(s: seq<Bit>, p: nat, h: Header)
    requires p <= |s| && h.hlit >= 257 && h.hdist >= 1 && |h.clVals| >= 4
    ensures && ReadBits(s, p, 5) == Ok(h.hlit - 257)
            && ReadBits(s, p + 5, 5) == Ok(h.hdist - 1)
            && ReadBits(s, p + 10, 4) == Ok(|h.clVals| - 4)
       <==> h.hlit <= 288 && h.hdist <= 32 && |h.clVals| <= 19 && HasAt(s, p, FieldBits(h))
  {
    assert Pow2(5) == 32 && Pow2(4) == 16;
    var a, b, c := LsbBits(h.hlit - 257, 5), LsbBits(h.hdist - 1, 5), LsbBits(|h.clVals| - 4, 4);
    assert FieldBits(h) == a + (b + c);
    hide ReadBits, LsbBits, Pow2, HasAt, FieldBits;
    HasAtConcat(s, p, a, b + c);
    HasAtConcat(s, p + 5, b, c);
    ReadExact(s, p, 5, h.hlit - 257);
    if HasAt(s, p, FieldBits(h)) {
      HasAtFits(s, p, FieldBits(h));
    }
    if p + 10 <= |s| {
      ReadExact(s, p + 5, 5, h.hdist - 1);
      ReadExact(s, p + 10, 4, |h.clVals| - 4);
    }
  }

  lemma HeaderComplete(s: seq<Bit>, p: nat, h: Header)
    requires p <= |s| && HeaderOk(h) && HasAt(s, p, HeaderBits(h))
    ensures var (lit, dist) := HeaderLengths(h);
            DynamicHeader(s, p) == Ok((lit, dist, p + |HeaderBits(h)|))
  {
    hide ReadBits, LengthsFrom, ReadClVals, OpsOk, OpsBits, OpsLengths, ClLengths, FieldBits, HasAt, DynamicHeader;
    var cl, total := ClLengths(h.clVals), h.hlit + h.hdist;
    var ops := OpsBits(cl, h.ops, [], total);
    HasAtConcat(s, p, FieldBits(h), ClBits(h.clVals) + ops);
    HasAtConcat(s, p + 14, ClBits(h.clVals), ops);
    HasAtFits(s, p, HeaderBits(h));
    FieldsExact(s, p, h);
    ClValsExact(s, p + 14, h.clVals);
    LengthsComplete(cl, s, p + 14 + 3 * |h.clVals|, [], total, h.ops);
    HeaderOf(s, p, h.hlit - 257, h.hdist - 1, |h.clVals| - 4, h.clVals);
  }

  lemma HasAtFits(s: seq<Bit>, p: nat, t: seq<Bit>)
    requires HasAt(s, p, t)
    ensures p + |t| <= |s|
  {
  }

  /** The header, from its fields. */
  lemma HeaderOf(s: seq<Bit>, p: nat, hlit: nat, hdist: nat, hclen: nat, vals: seq<CodeLen>)
    requires p + 14 + 3 * (hclen + 4) <= |s| && |vals| == hclen + 4 <= 19
    requires ReadBits(s, p, 5) == Ok(hlit) && ReadBits(s, p + 5, 5) == Ok(hdist) && ReadBits(s, p + 10, 4) == Ok(hclen)
    requires ReadClVals(s, p + 14, hclen + 4) == Ok(vals)
    ensures DynamicHeader(s, p) ==
            match LengthsFrom(ClLengths(vals), s, p + 14 + 3 * (hclen + 4), [], hlit + 257 + hdist + 1)
            case Ok((lens, q)) => Ok((lens[..hlit + 257], lens[hlit + 257..], q))
            case Err(e) => Err(e)
  {
    hide ReadBits, LengthsFrom, ReadClVals, ClLengths;
  }

  lemma HeaderSound(s: seq<Bit>, p: nat) returns (h: Header)
    requires p <= |s| && DynamicHeader(s, p).Ok?
    ensures HeaderOk(h) && HasAt(s, p, HeaderBits(h))
    ensures var (lit, dist) := HeaderLengths(h);
            DynamicHeader(s, p).value == (lit, dist, p + |HeaderBits(h)|)
  {
    hide ReadBits, LengthsFrom, ReadClVals, OpsOk, OpsBits, OpsLengths, ClLengths, FieldBits, HasAt, DynamicHeader;
    var hlit, hdist, vals := HeaderParts(s, p);
    h := Header(hlit + 257, hdist + 1, vals, []);
    FieldsExact(s, p, h);
    ClValsExact(s, p + 14, vals);
    HeaderOf(s, p, hlit, hdist, |vals| - 4, vals);
    var cl, total := ClLengths(vals), hlit + 257 + hdist + 1;
    var ops := LengthsSound(cl, s, p + 14 + 3 * |vals|, [], total);
    h := h.(ops := ops);
    FieldsExact(s, p, h);
    HasAtConcat(s, p, FieldBits(h), ClBits(vals) + OpsBits(cl, ops, [], total));
    HasAtConcat(s, p + 14, ClBits(vals), OpsBits(cl, ops, [], total));
  }

  lemma HeaderParts(s: seq<Bit>, p: nat) returns (hlit: nat, hdist: nat, vals: seq<CodeLen>)
    requires p <= |s| && DynamicHeader(s, p).Ok?
    ensures p + 14 + 3 * |vals| <= |s| && 4 <= |vals| <= 19
    ensures ReadBits(s, p, 5) == Ok(hlit) && ReadBits(s, p + 5, 5) == Ok(hdist)
    ensures ReadBits(s, p + 10, 4) == Ok(|vals| - 4) && ReadClVals(s, p + 14, |vals|) == Ok(vals)
  {
    hide LengthsFrom, ReadClVals, ClLengths;
    hlit, hdist := ReadBits(s, p, 5).value, ReadBits(s, p + 5, 5).value;
    HeaderFieldBounds(s, p);
    vals := ReadClVals(s, p + 14, ReadBits(s, p + 10, 4).value + 4).value;
  }

  // ----- blocks -----

  /** A block after its three header bits. Padding and the length complement of a stored block are part of
      the data, since the inflater skips both unread. */
  datatype Block =
    | Stored(pad: seq<Bit>, nlen: seq<Byte>, payload: seq<Byte>)
    | Fixed(tokens: seq<Token>)
    | Dynamic(header: Header, tokens: seq<Token>)

  function BType(b: Block): nat {
    match b
    case Stored(_, _, _) => 0
    case Fixed(_) => 1
    case Dynamic(_, _) => 2
  }

  predicate BlockOk(b: Block, p: nat) {
    match b
    case Stored(pad, nlen, payload) => (p + |pad|) % 8 == 0 && |pad| < 8 && |nlen| == 2 && |payload| < 0x1_0000
    case Fixed(tokens) => TokensOk(FixedLit(), FixedDist(), tokens)
    case Dynamic(h, tokens) => HeaderOk(h) && TokensOk(HeaderLengths(h).0, HeaderLengths(h).1, tokens)
  }

  function StoredBytes(b: Block): seq<Byte>
    requires b.Stored? && |b.payload| < 0x1_0000
  {
    [|b.payload| % 256, |b.payload| / 256] + b.nlen + b.payload
  }

  function BlockBits(b: Block, p: nat): seq<Bit>
    requires BlockOk(b, p)
  {
    match b
    case Stored(pad, _, _) => pad + BitsOf(StoredBytes(b))
    case Fixed(tokens) => TokensBits(FixedLit(), FixedDist(), tokens)
    case Dynamic(h, tokens) => HeaderBits(h) + TokensBits(HeaderLengths(h).0, HeaderLengths(h).1, tokens)
  }

  function BlockOutput(b: Block, out: seq<Byte>): Result<seq<Byte>, Error> {
    match b
    case Stored(_, _, payload) => Ok(out + payload)
    case Fixed(tokens) => ApplyAll(out, tokens)
    case Dynamic(_, tokens) => ApplyAll(out, tokens)
  }

  /** Whole bytes occur at a byte boundary exactly if they are a slice of the data. */
  lemma BytesAt(data: seq<Byte>, a: nat, x: seq<Byte>)
    ensures HasAt(BitsOf(data), 8 * a, BitsOf(x)) <==> a + |x| <= |data| && data[a..a + |x|] == x
  {
    if a + |x| <= |data| {
      BitsOfSlice(data, a, a + |x|);
      if BitsOf(data[a..a + |x|]) == BitsOf(x) {
        BitsOfInjective(data[a..a + |x|], x);
      }
    }
  }

  lemma StoredComplete(data: seq<Byte>, p: nat, out: seq<Byte>, b: Block)
    requires p <= 8 * |data| && b.Stored? && BlockOk(b, p) && HasAt(BitsOf(data), p, BlockBits(b, p))
    ensures StoredBlock(data, p, out) == Ok((out + b.payload, p + |BlockBits(b, p)|))
  {
    var x := StoredBytes(b);
    var a := (p + 7) / 8;
    assert p + |b.pad| == 8 * a;
    HasAtConcat(BitsOf(data), p, b.pad, BitsOf(x));
    BytesAt(data, a, x);
    var n := |b.payload|;
    assert data[a] == data[a..a + |x|][0] == n % 256;
    assert data[a + 1] == data[a..a + |x|][1] == n / 256;
    assert data[a + 4..a + 4 + n] == data[a..a + |x|][4..] == b.payload;
  }

  lemma StoredSound(data: seq<Byte>, p: nat, out: seq<Byte>) returns (b: Block)
    requires p <= 8 * |data| && StoredBlock(data, p, out).Ok?
    ensures b.Stored? && BlockOk(b, p) && HasAt(BitsOf(data), p, BlockBits(b, p))
    ensures StoredBlock(data, p, out).value == (out + b.payload, p + |BlockBits(b, p)|)
  {
    var a := (p + 7) / 8;
    var n: nat := data[a] as int + 256 * (data[a + 1] as int);
    b := Stored(BitsOf(data)[p..8 * a], data[a + 2..a + 4], data[a + 4..a + 4 + n]);
    var x := StoredBytes(b);
    assert n % 256 == data[a] && n / 256 == data[a + 1];
    assert data[a..a + |x|] == x;
    BytesAt(data, a, x);
    HasAtConcat(BitsOf(data), p, b.pad, BitsOf(x));
  }

  /** Section 3.2.4 of RFC 1951 has the two bytes after the length hold its one's complement; the inflater
      returns the same for every value of them. */
  lemma ComplementUnchecked(data: seq<Byte>, p: nat, out: seq<Byte>, x: Byte, y: Byte)
    requires p <= 8 * |data| && StoredBlock(data, p, out).Ok?
    ensures var a := (p + 7) / 8;
            StoredBlock(data[a + 2 := x][a + 3 := y], p, out) == StoredBlock(data, p, out)
  {
    var a := (p + 7) / 8;
    var n: nat := data[a] as int + 256 * (data[a + 1] as int);
    assert data[a + 2 := x][a + 3 := y][a + 4..a + 4 + n] == data[a + 4..a + 4 + n];
  }

  lemma BlockComplete(data: seq<Byte>, p: nat, out: seq<Byte>, b: Block)
    requires p <= 8 * |data| && BlockOk(b, p) && HasAt(BitsOf(data), p, BlockBits(b, p))
    ensures InflateBlock(data, p, BType(b), out) ==
            match BlockOutput(b, out)
            case Ok(out') => Ok((out', p + |BlockBits(b, p)|))
            case Err(e) => Err(e)
  {
    hide TokensOk, TokensBits, HeaderOk, HeaderBits, HeaderLengths, StoredBlock, InflateTokens, DynamicHeader, ApplyAll,
         BitsOf, StoredBytes;
    var s := BitsOf(data);
    match b
    case Stored(_, _, _) =>
      StoredComplete(data, p, out, b);
    case Fixed(tokens) =>
      TokensComplete(FixedLit(), FixedDist(), s, p, out, tokens);
    case Dynamic(h, tokens) =>
      var (lit, dist) := HeaderLengths(h);
      HasAtConcat(s, p, HeaderBits(h), TokensBits(lit, dist, tokens));
      HeaderComplete(s, p, h);
      TokensComplete(lit, dist, s, p + |HeaderBits(h)|, out, tokens);
  }

  lemma BlockSound(data: seq<Byte>, p: nat, btype: nat, out: seq<Byte>) returns (b: Block)
    requires p <= 8 * |data| && InflateBlock(data, p, btype, out).Ok?
    ensures BType(b) == btype && BlockOk(b, p) && HasAt(BitsOf(data), p, BlockBits(b, p))
    ensures var (out', q) := InflateBlock(data, p, btype, out).value;
            BlockOutput(b, out) == Ok(out') && q == p + |BlockBits(b, p)|
  {
    hide TokensOk, TokensBits, HeaderOk, HeaderBits, HeaderLengths, StoredBlock, InflateTokens, DynamicHeader, ApplyAll,
         BitsOf, StoredBytes;
    var s := BitsOf(data);
    if btype == 0 {
      b := StoredSound(data, p, out);
    } else if btype == 1 {
      var tokens := TokensSound(FixedLit(), FixedDist(), s, p, out);
      b := Fixed(tokens);
    } else {
      var h := HeaderSound(s, p);
      var (lit, dist) := HeaderLengths(h);
      var tokens := TokensSound(lit, dist, s, p + |HeaderBits(h)|, out);
      b := Dynamic(h, tokens);
      HasAtConcat(s, p, HeaderBits(h), TokensBits(lit, dist, tokens));
    }
  }

  // ----- streams -----

  /** A stream that starts at position p: the last block, and only it, has the final bit set. */
  predicate StreamOk(blocks: seq<Block>, p: nat)
    decreases |blocks|
  {
    && blocks != []
    && BlockOk(blocks[0], p + 3)
    && (|blocks| > 1 ==> StreamOk(blocks[1..], p + 3 + |BlockBits(blocks[0], p + 3)|))
  }

  function StreamBits(blocks: seq<Block>, p: nat): seq<Bit>
    requires StreamOk(blocks, p)
    decreases |blocks|
  {
    hide BlockOk, BlockBits;
    var b := BlockBits(blocks[0], p + 3);
    if |blocks| == 1 then HeadBits(1, blocks[0]) + b
    else HeadBits(0, blocks[0]) + (b + StreamBits(blocks[1..], p + 3 + |b|))
  }

  function HeadBits(final: Bit, b: Block): (h: seq<Bit>)
    ensures |h| == 3
  {
    LsbBits(final, 1) + LsbBits(BType(b), 2)
  }

  /** What a stream of blocks stands for. */
  function StreamOutput(blocks: seq<Block>, out: seq<Byte>): Result<seq<Byte>, Error>
    decreases |blocks|
  {
    if blocks == [] then Ok(out)
    else
      var out' :- BlockOutput(blocks[0], out);
      StreamOutput(blocks[1..], out')
  }

  lemma HeadExact(s: seq<Bit>, p: nat, final: Bit, b: Block)
    requires p <= |s|
    ensures ReadBits(s, p, 1) == Ok(final) && ReadBits(s, p + 1, 2) == Ok(BType(b)) <==> HasAt(s, p, HeadBits(final, b))
  {
    assert Pow2(1) == 2 && Pow2(2) == 4;
    HasAtConcat(s, p, LsbBits(final, 1), LsbBits(BType(b), 2));
    ReadExact(s, p, 1, final);
    if p + 1 <= |s| {
      ReadExact(s, p + 1, 2, BType(b));
    }
  }

  /** The inflater decodes every encoding, and fails only as its back-references do. */
  lemma {:induction false} StreamComplete(data: seq<Byte>, p: nat, out: seq<Byte>, blocks: seq<Block>)
    requires p <= 8 * |data| && StreamOk(blocks, p) && HasAt(BitsOf(data), p, StreamBits(blocks, p))
    ensures InflateFrom(data, p, out) == StreamOutput(blocks, out)
    decreases |blocks|
  {
    hide BlockOk, BlockBits, BlockOutput, InflateBlock, BitsOf, ReadBits, HeadBits;
    var s, b, final := BitsOf(data), BlockBits(blocks[0], p + 3), if |blocks| == 1 then 1 else 0;
    var tail := if |blocks| == 1 then b else b + StreamBits(blocks[1..], p + 3 + |b|);
    HasAtConcat(s, p, HeadBits(final, blocks[0]), tail);
    HeadExact(s, p, final, blocks[0]);
    if |blocks| > 1 {
      HasAtConcat(s, p + 3, b, StreamBits(blocks[1..], p + 3 + |b|));
    }
    BlockComplete(data, p + 3, out, blocks[0]);
    match BlockOutput(blocks[0], out)
    case Ok(out') =>
      if |blocks| > 1 {
        StreamComplete(data, p + 3 + |b|, out', blocks[1..]);
      }
    case Err(_) =>
  }

  lemma {:induction false} StreamSound(data: seq<Byte>, p: nat, out: seq<Byte>) returns (blocks: seq<Block>)
    requires p <= 8 * |data| && InflateFrom(data, p, out).Ok?
    ensures StreamOk(blocks, p) && HasAt(BitsOf(data), p, StreamBits(blocks, p))
    ensures StreamOutput(blocks, out) == InflateFrom(data, p, out)
    decreases 8 * |data| - p
  {
    hide BlockOk, BlockBits, BlockOutput, InflateBlock, BitsOf, ReadBits, HeadBits;
    var s := BitsOf(data);
    var final, btype := ReadBits(s, p, 1).value, ReadBits(s, p + 1, 2).value;
    FinalIsBit(s, p);
    var b := BlockSound(data, p + 3, btype, out);
    var bits := BlockBits(b, p + 3);
    var (out', q) := InflateBlock(data, p + 3, btype, out).value;
    HeadExact(s, p, final, b);
    if final == 1 {
      blocks := [b];
      HasAtConcat(s, p, HeadBits(1, b), bits);
    } else {
      var rest := StreamSound(data, q, out');
      blocks := [b] + rest;
      assert blocks[1..] == rest;
      HasAtConcat(s, p + 3, bits, StreamBits(rest, q));
      HasAtConcat(s, p, HeadBits(0, b), bits + StreamBits(rest, q));
    }
  }

  lemma FinalIsBit(s: seq<Bit>, p: nat)
    requires p <= |s| && ReadBits(s, p, 1).Ok?
    ensures ReadBits(s, p, 1).value < 2
  {
    LsbBitsVal(s[p..p + 1]);
    assert Pow2(1) == 2;
  }

  /** `data` starts with an encoding of `blocks`. */
  ghost predicate Encodes(data: seq<Byte>, blocks: seq<Block>) {
    StreamOk(blocks, 0) && HasAt(BitsOf(data), 0, StreamBits(blocks, 0))
  }

  /** The inflater accepts exactly the encodings, and returns exactly what they stand for. */
  lemma InflateExact(data: seq<Byte>, out: seq<Byte>)
    ensures Inflated(data) == Ok(out)
       <==> exists blocks :: Encodes(data, blocks) && StreamOutput(blocks, []) == Ok(out)
  {
    if Inflated(data) == Ok(out) {
      var blocks := StreamSound(data, 0, []);
      assert Encodes(data, blocks);
    }
    if blocks :| Encodes(data, blocks) && StreamOutput(blocks, []) == Ok(out) {
      StreamComplete(data, 0, [], blocks);
    }
  }
}
