/** Two streams given byte by byte, a fixed and a dynamic block, and what the inflater makes of them. */
module KnownStreams {
  import opened Bits
  import opened BitReading
  import opened Deflate
  import opened Huffman
  import opened Inflate
  import opened Lz77
  import opened Results

  // ----- reading a stream as a number -----

  /** The bytes as a number, least significant first. */
  function Number(data: seq<Byte>): nat {
    if data == [] then 0 else data[0] + 256 * Number(data[1..])
  }

  lemma {:induction false} LsbValConcat(a: seq<Bit>, b: seq<Bit>)
    ensures LsbVal(a + b) == LsbVal(a) + Pow2(|a|) * LsbVal(b)
  {
    if a == [] {
      assert a + b == b;
    } else {
      LsbValConcat(a[1..], b);
      assert (a + b)[1..] == a[1..] + b;
      Regroup(2, Pow2(|a| - 1), LsbVal(b));
    }
  }

  lemma Regroup(a: nat, b: nat, c: nat)
    ensures (a * b) * c == a * (b * c)
  {
  }

  lemma {:induction false} NumberOfBits(data: seq<Byte>)
    ensures LsbVal(BitsOf(data)) == Number(data)
  {
    if data != [] {
      NumberOfBits(data[1..]);
      assert data == [data[0]] + data[1..];
      BitsOfConcat([data[0]], data[1..]);
      BitsOfByte([data[0]], 0);
      assert BitsOf([data[0]])[8 * 0..8 * 0 + 8] == BitsOf([data[0]]);
      assert Pow2(8) == 256;
      LsbValBits(data[0], 8);
      LsbValConcat(BitsOf([data[0]]), BitsOf(data[1..]));
    }
  }

  /** From position p on, the stream is the number `rest`. */
  ghost predicate Ahead(s: seq<Bit>, p: nat, rest: nat) {
    p <= |s| && LsbVal(s[p..]) == rest
  }

  /** The stream starts with the number v in n bits, and then `rest'` is ahead. */
  predicate Splits(rest: nat, n: nat, v: nat, rest': nat) {
    rest == v + Pow2(n) * rest'
  }

  lemma Take(s: seq<Bit>, p: nat, rest: nat, bits: seq<Bit>, rest': nat)
    requires Ahead(s, p, rest) && p + |bits| <= |s| && Splits(rest, |bits|, LsbVal(bits), rest')
    ensures HasAt(s, p, bits) && Ahead(s, p + |bits|, rest')
  {
    hide Pow2, LsbVal, LsbBits;
    var n := |bits|;
    var front, back := s[p..p + n], s[p + n..];
    assert s[p..] == front + back;
    LsbValConcat(front, back);
    LsbBitsVal(front);
    LsbBitsVal(bits);
    SplitUnique(Pow2(n), LsbVal(bits), rest', LsbVal(front), LsbVal(back));
  }

  lemma SplitUnique(d: nat, r: nat, q: nat, r': nat, q': nat)
    requires r + d * q == r' + d * q' && r < d && r' < d
    ensures r == r' && q == q'
  {
    DivUnique(r + d * q, d, q, r);
    DivUnique(r + d * q, d, q', r');
  }

  lemma TakeNumber(s: seq<Bit>, p: nat, rest: nat, n: nat, v: nat, rest': nat)
    requires Ahead(s, p, rest) && p + n <= |s| && v < Pow2(n) && Splits(rest, n, v, rest')
    ensures ReadBits(s, p, n) == Ok(v) && Ahead(s, p + n, rest')
  {
    hide Pow2, LsbVal, LsbBits, Ahead, ReadBits, HasAt;
    LsbValBits(v, n);
    Take(s, p, rest, LsbBits(v, n), rest');
    ReadExact(s, p, n, v);
  }

  // ----- single steps -----

  /** The lowest n bits of c in the opposite order: code words start from the most significant bit. */
  function Reversed(c: nat, n: nat): nat {
    if n == 0 then 0 else Reversed(c / 2, n - 1) + c % 2 * Pow2(n - 1)
  }

  lemma {:induction false} ReversedBits(c: nat, n: nat)
    ensures LsbVal(MsbBits(c, n)) == Reversed(c, n)
  {
    if n > 0 {
      ReversedBits(c / 2, n - 1);
      LsbValSnoc(MsbBits(c / 2, n - 1), c % 2);
    }
  }

  /** The code word of a symbol is c, of n bits. */
  ghost predicate IsWord(lens: seq<CodeLen>, sym: nat, c: nat, n: nat) {
    HasCodeWord(lens, sym) && lens[sym] == n && Code(lens, sym) == c
  }

  /** A code word is next. */
  ghost predicate Next(s: seq<Bit>, p: nat, rest: nat, c: nat, n: nat, rest': nat) {
    Ahead(s, p, rest) && p + n <= |s| && Splits(rest, n, Reversed(c, n), rest')
  }

  lemma TakeWord(lens: seq<CodeLen>, sym: nat, s: seq<Bit>, p: nat, rest: nat, c: nat, n: nat, rest': nat)
    requires IsWord(lens, sym, c, n) && Next(s, p, rest, c, n, rest')
    ensures HasCodeWord(lens, sym) && |CodeWord(lens, sym)| == n && HasAt(s, p, CodeWord(lens, sym))
    ensures Ahead(s, p + n, rest') && p + n <= |s|
  {
    hide Ahead, Splits, HasAt, Reversed, Code, MsbBits, LsbVal;
    ReversedBits(c, n);
    Take(s, p, rest, MsbBits(c, n), rest');
  }

  lemma LiteralStep(lit: seq<CodeLen>, dist: seq<CodeLen>, s: seq<Bit>, p: nat, rest: nat, out: seq<Byte>, b: Byte,
                    c: nat, n: nat, rest': nat)
    requires IsWord(lit, b, c, n) && Next(s, p, rest, c, n, rest')
    ensures Ahead(s, p + n, rest') && p + n <= |s|
    ensures InflateTokens(lit, dist, s, p, out) == InflateTokens(lit, dist, s, p + n, out + [b])
  {
    hide Ahead, HasAt, CodeWord, HasCodeWord, Next, IsWord, InflateTokens;
    TakeWord(lit, b, s, p, rest, c, n, rest');
    TokenStep(lit, dist, s, p, out, Literal(b), out + [b]);
  }

  lemma EndStep(lit: seq<CodeLen>, dist: seq<CodeLen>, s: seq<Bit>, p: nat, rest: nat, out: seq<Byte>,
                c: nat, n: nat, rest': nat)
    requires IsWord(lit, 256, c, n) && Next(s, p, rest, c, n, rest')
    ensures InflateTokens(lit, dist, s, p, out) == Ok((out, p + n))
  {
    TakeWord(lit, 256, s, p, rest, c, n, rest');
    hide NextToken, Ahead, HasAt, CodeWord, HasCodeWord, Next, IsWord;
    NextTokenExact(lit, dist, s, p, EndOfBlock, p + n);
  }

  /** Length and distance symbols that need no extra bits. */
  predicate NoExtra(li: nat, length: nat, di: nat, distance: nat) {
    && li < |LEN_BASE| == |LEN_EXTRA| && di < |DIST_BASE| == |DIST_EXTRA|
    && LEN_BASE[li] == length && LEN_EXTRA[li] == 0 && DIST_BASE[di] == distance && DIST_EXTRA[di] == 0
  }

  lemma MatchStep(lit: seq<CodeLen>, dist: seq<CodeLen>, s: seq<Bit>, p: nat, rest: nat, out: seq<Byte>,
                  t: Token, length: nat, c: nat, n: nat, mid: nat, distance: nat, d: nat, k: nat, rest': nat)
    requires t.Match? && t.lext == t.dext == 0 && NoExtra(t.li, length, t.di, distance) && 1 <= distance <= |out|
    requires IsWord(lit, 257 + t.li, c, n) && Next(s, p, rest, c, n, mid)
    requires IsWord(dist, t.di, d, k) && p + n + k <= |s| && Splits(mid, k, Reversed(d, k), rest')
    ensures Ahead(s, p + n + k, rest') && p + n + k <= |s|
    ensures InflateTokens(lit, dist, s, p, out) ==
            InflateTokens(lit, dist, s, p + n + k, out + CopyOf(out, distance, length))
  {
    hide NextToken, Ahead, HasAt, CodeWord, HasCodeWord, NoExtra, IsWord, TokenOk, TokenBits, Apply, CopyOf,
         Splits, Reversed;
    TakeWord(lit, 257 + t.li, s, p, rest, c, n, mid);
    TakeWord(dist, t.di, s, p + n, mid, d, k, rest');
    MatchWord(lit, dist, t, out, length, distance);
    HasAtConcat(s, p, CodeWord(lit, 257 + t.li), CodeWord(dist, t.di));
    TokenStep(lit, dist, s, p, out, t, out + CopyOf(out, distance, length));
  }

  lemma TokenStep(lit: seq<CodeLen>, dist: seq<CodeLen>, s: seq<Bit>, p: nat, out: seq<Byte>, t: Token,
                  out': seq<Byte>)
    requires TokenOk(lit, dist, t) && t != EndOfBlock && Apply(out, t) == Ok(out')
    requires HasAt(s, p, TokenBits(lit, dist, t)) && p + |TokenBits(lit, dist, t)| <= |s|
    ensures InflateTokens(lit, dist, s, p, out) ==
            InflateTokens(lit, dist, s, p + |TokenBits(lit, dist, t)|, out')
  {
    hide NextToken, HasAt, TokenBits, Apply, TokenOk;
    NextTokenExact(lit, dist, s, p, t, p + |TokenBits(lit, dist, t)|);
  }

  lemma MatchWord(lit: seq<CodeLen>, dist: seq<CodeLen>, t: Token, out: seq<Byte>, length: nat, distance: nat)
    requires t.Match? && t.lext == t.dext == 0 && NoExtra(t.li, length, t.di, distance) && 1 <= distance <= |out|
    requires HasCodeWord(lit, 257 + t.li) && HasCodeWord(dist, t.di)
    ensures TokenOk(lit, dist, t) && TokenBits(lit, dist, t) == CodeWord(lit, 257 + t.li) + CodeWord(dist, t.di)
    ensures Apply(out, t) == Ok(out + CopyOf(out, distance, length))
  {
    hide CodeWord, HasCodeWord, LEN_BASE, LEN_EXTRA, DIST_BASE, DIST_EXTRA;
    assert LsbBits(0, 0) == [] && Pow2(0) == 1;
  }

  // ----- a fixed block -----

  /** Literals a, b, c and a copy of length 3 from distance 3. */
  lemma FixedExample()
    ensures Inflated([0x4b, 0x4c, 0x4a, 0x06, 0x22, 0x00]) == Ok([97, 98, 99, 97, 98, 99])
  {
    var data: seq<Byte> := [0x4b, 0x4c, 0x4a, 0x06, 0x22, 0x00];
    FixedNumber(data);
    InflateFixed(data);
  }

  lemma InflateFixed(data: seq<Byte>)
    requires |data| == 6 && Number(data) == 0x22064a4c4b
    ensures Inflated(data) == Ok([97, 98, 99, 97, 98, 99])
  {
    var s := BitsOf(data);
    NumberOfBits(data);
    assert s[0..] == s;
    StartSplits();
    hide BitsOf, Number, InflateTokens, Splits, Inflated, FixedLit, FixedDist, ReadBits;
    TakeNumber(s, 0, 0x22064a4c4b, 1, 1, 0x1103252625);
    TakeNumber(s, 1, 0x1103252625, 2, 1, 0x440c94989);
    FixedTokens(s);
    OneBlock(data, 1, [97, 98, 99, 97, 98, 99], 46);
  }

  lemma StartSplits()
    ensures Splits(0x22064a4c4b, 1, 1, 0x1103252625) && Splits(0x1103252625, 2, 1, 0x440c94989)
    ensures Pow2(1) == 2 && Pow2(2) == 4
  {
    assert Pow2(1) == 2 && Pow2(2) == 4;
    hide Pow2;
  }

  /** A stream of one block. */
  lemma OneBlock(data: seq<Byte>, btype: nat, out: seq<Byte>, q: nat)
    requires ReadBits(BitsOf(data), 0, 1) == Ok(1) && ReadBits(BitsOf(data), 1, 2) == Ok(btype)
    requires 3 <= 8 * |data| && InflateBlock(data, 3, btype, []) == Ok((out, q))
    ensures Inflated(data) == Ok(out)
  {
    hide InflateBlock, ReadBits, BitsOf;
  }

  lemma FixedNumber(data: seq<Byte>)
    requires data == [0x4b, 0x4c, 0x4a, 0x06, 0x22, 0x00]
    ensures Number(data) == 0x22064a4c4b
  {
    assert Number([0x4b, 0x4c, 0x4a, 0x06, 0x22, 0x00]) == 0x22064a4c4b;
  }

  lemma FixedTokens(s: seq<Bit>)
    requires |s| == 48 && Ahead(s, 3, 0x440c94989)
    ensures InflateTokens(FixedLit(), FixedDist(), s, 3, []) == Ok(([97, 98, 99, 97, 98, 99], 46))
  {
    var lit, dist := FixedLit(), FixedDist();
    FixedWords();
    FixedSplits();
    ShortMatch();
    hide InflateTokens, Ahead, IsWord, FixedLit, FixedDist, Splits, Reversed, NoExtra, CopyOf;
    Joins();
    LiteralStep(lit, dist, s, 3, 0x440c94989, [], 97, 145, 8, 0x440c949);
    LiteralStep(lit, dist, s, 11, 0x440c949, [97], 98, 146, 8, 0x440c9);
    LiteralStep(lit, dist, s, 19, 0x440c9, [97, 98], 99, 147, 8, 0x440);
    MatchStep(lit, dist, s, 27, 0x440, [97, 98, 99], Match(0, 0, 2, 0), 3, 1, 7, 8, 3, 2, 5, 0);
    CopyAbc();
    EndStep(lit, dist, s, 39, 0, [97, 98, 99, 97, 98, 99], 0, 7, 0);
  }

  lemma Joins()
    ensures [] + [97] == [97] && [97] + [98] == [97, 98] && [97, 98] + [99] == [97, 98, 99]
  {
  }

  lemma CopyAbc()
    ensures var abc: seq<Byte> := [97, 98, 99];
            abc + CopyOf(abc, 3, 3) == [97, 98, 99, 97, 98, 99]
  {
  }

  lemma ShortMatch()
    ensures NoExtra(0, 3, 2, 3) && NoExtra(0, 3, 0, 1)
  {
    TableSizes();
  }

  lemma FixedSplits()
    ensures Splits(0x440c94989, 8, Reversed(145, 8), 0x440c949) && Splits(0x440c949, 8, Reversed(146, 8), 0x440c9)
    ensures Splits(0x440c9, 8, Reversed(147, 8), 0x440) && Splits(0x440, 7, Reversed(1, 7), 8)
    ensures Splits(8, 5, Reversed(2, 5), 0) && Splits(0, 7, Reversed(0, 7), 0)
  {
    assert Pow2(8) == 256 && Pow2(7) == 128 && Pow2(5) == 32;
  }

  lemma FixedWords()
    ensures IsWord(FixedLit(), 97, 145, 8) && IsWord(FixedLit(), 98, 146, 8) && IsWord(FixedLit(), 99, 147, 8)
    ensures IsWord(FixedLit(), 256, 0, 7) && IsWord(FixedLit(), 257, 1, 7) && IsWord(FixedDist(), 2, 2, 5)
  {
    hide Code, HasCodeWord;
    FixedLitCode(97);
    FixedLitCode(98);
    FixedLitCode(99);
    FixedLitCode(256);
    FixedLitCode(257);
    FixedDistCode(2);
  }

  // ----- a dynamic block -----

  /** A dynamic block whose lengths use all three repeat codes: literals a, b and a copy of length 3 from distance 1. */
  lemma DynamicExample()
    ensures Inflated([0x0d, 0xc0, 0xa7, 0x01, 0x00, 0x00, 0x00, 0x83, 0xb0, 0x5b, 0x3b, 0xfe, 0xf7, 0x12, 0x92, 0x0a])
         == Ok([97, 98, 98, 98, 98])
  {
    var data: seq<Byte> := [0x0d, 0xc0, 0xa7, 0x01, 0x00, 0x00, 0x00, 0x83,
                            0xb0, 0x5b, 0x3b, 0xfe, 0xf7, 0x12, 0x92, 0x0a];
    DynamicNumber(data);
    InflateNumber(data);
  }

  lemma InflateNumber(data: seq<Byte>)
    requires |data| == 16 && Number(data) == 0xa9212f7fe3b5bb08300000001a7c00d
    ensures Inflated(data) == Ok([97, 98, 98, 98, 98])
  {
    var s := BitsOf(data);
    NumberOfBits(data);
    assert s[0..] == s;
    HeadSplits();
    hide BitsOf, Number, InflateTokens, DynamicHeader, Splits, Lens, Inflated, ReadBits;
    TakeNumber(s, 0, 0xa9212f7fe3b5bb08300000001a7c00d, 1, 1, 0x549097bff1dadd84180000000d3e006);
    TakeNumber(s, 1, 0x549097bff1dadd84180000000d3e006, 2, 2, 0x152425effc76b76106000000034f801);
    DynamicLengths(s);
    DynamicWords();
    DynamicTokens(s, Lens()[..258], Lens()[258..]);
    OneBlock(data, 2, [97, 98, 98, 98, 98], 127);
  }

  lemma HeadSplits()
    ensures Splits(0xa9212f7fe3b5bb08300000001a7c00d, 1, 1, 0x549097bff1dadd84180000000d3e006)
    ensures Splits(0x549097bff1dadd84180000000d3e006, 2, 2, 0x152425effc76b76106000000034f801)
    ensures Splits(0x152425effc76b76106000000034f801, 5, 1, 0xa9212f7fe3b5bb08300000001a7c0)
    ensures Splits(0xa9212f7fe3b5bb08300000001a7c0, 5, 0, 0x549097bff1dadd84180000000d3e)
    ensures Splits(0x549097bff1dadd84180000000d3e, 4, 14, 0x549097bff1dadd84180000000d3)
    ensures Pow2(1) == 2 && Pow2(2) == 4 && Pow2(4) == 16 && Pow2(5) == 32
  {
    assert Pow2(1) == 2 && Pow2(2) == 4 && Pow2(4) == 16 && Pow2(5) == 32;
    hide Pow2;
  }

  lemma {:induction false} NumberConcat(a: seq<Byte>, b: seq<Byte>)
    ensures Number(a + b) == Number(a) + Pow2(8 * |a|) * Number(b)
  {
    if a == [] {
      assert a + b == b;
    } else {
      NumberConcat(a[1..], b);
      assert (a + b)[1..] == a[1..] + b;
      assert Pow2(8) == 256;
      hide Pow2;
      Pow2Add(8, 8 * |a| - 8);
      Regroup(256, Pow2(8 * |a| - 8), Number(b));
    }
  }

  lemma DynamicNumber(data: seq<Byte>)
    requires data == [0x0d, 0xc0, 0xa7, 0x01, 0x00, 0x00, 0x00, 0x83, 0xb0, 0x5b, 0x3b, 0xfe, 0xf7, 0x12, 0x92, 0x0a]
    ensures Number(data) == 0xa9212f7fe3b5bb08300000001a7c00d
  {
    var a: seq<Byte> := [0x0d, 0xc0, 0xa7, 0x01, 0x00, 0x00, 0x00, 0x83];
    var b: seq<Byte> := [0xb0, 0x5b, 0x3b, 0xfe, 0xf7, 0x12, 0x92, 0x0a];
    hide Number, Pow2;
    assert data == a + b;
    LowHalf();
    HighHalf();
    BigPowers();
    NumberConcat(a, b);
  }

  lemma LowHalf()
    ensures Number([0x0d, 0xc0, 0xa7, 0x01, 0x00, 0x00, 0x00, 0x83]) == 0x8300000001a7c00d
  {
  }

  lemma HighHalf()
    ensures Number([0xb0, 0x5b, 0x3b, 0xfe, 0xf7, 0x12, 0x92, 0x0a]) == 0xa9212f7fe3b5bb0
  {
  }

  lemma BigPowers()
    ensures Pow2(27) == 0x800_0000 && Pow2(54) == 0x40_0000_0000_0000 && Pow2(64) == 0x1_0000_0000_0000_0000
  {
    assert Pow2(8) == 256 && Pow2(9) == 512;
    hide Pow2;
    Pow2Add(8, 8);
    Pow2Add(16, 16);
    Pow2Add(32, 32);
    Pow2Add(9, 9);
    Pow2Add(9, 18);
    Pow2Add(27, 27);
  }

  /** The code lengths of the block: literals a to d of 3 bits, end of block and length 3 of 2 bits, one distance. */
  function Lens(): (lens: seq<CodeLen>)
    ensures |lens| == 259
  {
    seq(259, i => if i < 97 then 0 else if i < 101 then 3 else if i < 256 then 0 else if i < 258 then 2 else 1)
  }

  /** The lengths of the code-length code. */
  function ClLens(): (cl: seq<CodeLen>)
    ensures |cl| == 19
  {
    [0, 3, 2, 3, 0, 0, 0, 0, 0, 0, 0, 0, 0, 0, 0, 0, 3, 2, 3]
  }

  function ClVals(): (vals: seq<CodeLen>)
    ensures |vals| == 18
  {
    [3, 2, 3, 0, 0, 0, 0, 0, 0, 0, 0, 0, 0, 3, 0, 2, 0, 3]
  }

  // ----- its header -----

  /** Three-bit values as the digits of a number, least significant first. */
  function Digits(vals: seq<CodeLen>): nat {
    if vals == [] then 0 else vals[0] + 8 * Digits(vals[1..])
  }

  lemma {:induction false} DigitsConcat(a: seq<CodeLen>, b: seq<CodeLen>)
    ensures Digits(a + b) == Digits(a) + Pow2(3 * |a|) * Digits(b)
  {
    if a == [] {
      assert a + b == b;
    } else {
      DigitsConcat(a[1..], b);
      assert (a + b)[1..] == a[1..] + b;
      assert Pow2(3) == 8;
      hide Pow2;
      Pow2Add(3, 3 * |a| - 3);
      Regroup(8, Pow2(3 * |a| - 3), Digits(b));
    }
  }

  lemma {:induction false} DigitsOfBits(vals: seq<CodeLen>)
    requires ThreeBitValues(vals)
    ensures LsbVal(ClBits(vals)) == Digits(vals)
  {
    if vals != [] {
      var front, v := vals[..|vals| - 1], vals[|vals| - 1];
      DigitsOfBits(front);
      LsbValConcat(ClBits(front), LsbBits(v, 3));
      assert Pow2(3) == 8;
      LsbValBits(v, 3);
      assert vals == front + [v];
      DigitsConcat(front, [v]);
      assert Digits([v]) == v;
    }
  }

  lemma ClValsStand(s: seq<Bit>)
    requires |s| == 128 && Ahead(s, 17, 0x549097bff1dadd84180000000d3)
    ensures ReadClVals(s, 17, 18) == Ok(ClVals()) && Ahead(s, 71, 0x152425effc76b7)
  {
    hide Ahead, LsbVal, ClBits, HasAt, ReadClVals, ClVals, ThreeBitValues, Digits, Splits;
    ClDigits();
    ClSplits();
    DigitsOfBits(ClVals());
    Take(s, 17, 0x549097bff1dadd84180000000d3, ClBits(ClVals()), 0x152425effc76b7);
    ClValsExact(s, 17, ClVals());
  }

  lemma ClSplits()
    ensures Splits(0x549097bff1dadd84180000000d3, 54, 6827417452675283, 0x152425effc76b7)
  {
    hide Pow2;
    BigPowers();
  }

  lemma ClDigits()
    ensures ThreeBitValues(ClVals()) && Digits(ClVals()) == 6827417452675283
  {
    hide Digits, Pow2, ClVals;
    ClHalves();
    LowDigits();
    HighDigits();
    BigPowers();
    DigitsConcat(ClVals()[..9], ClVals()[9..]);
  }

  lemma ClHalves()
    ensures ClVals()[..9] == [3, 2, 3, 0, 0, 0, 0, 0, 0] && ClVals()[9..] == [0, 0, 0, 0, 3, 0, 2, 0, 3]
    ensures ClVals() == ClVals()[..9] + ClVals()[9..] && ThreeBitValues(ClVals())
  {
  }

  lemma LowDigits()
    ensures Digits([3, 2, 3, 0, 0, 0, 0, 0, 0]) == 211
  {
  }

  lemma HighDigits()
    ensures Digits([0, 0, 0, 0, 3, 0, 2, 0, 3]) == 50868224
  {
  }

  lemma ClLengthsAre()
    ensures ClLengths(ClVals()) == ClLens()
  {
    var cl := ClLengths(ClVals());
    forall sym | 0 <= sym < 19
      ensures cl[sym] == ClLens()[sym]
    {
      ClLengthOf(sym);
    }
  }

  lemma ClLengthOf(sym: nat)
    requires sym < 19
    ensures ClLengths(ClVals())[sym] == ClLens()[sym]
  {
    var i := CL_RANK[sym];
    ClLengthsAt(ClVals(), i);
    hide ClLengths;
    assert CL_ORDER[i] == sym;
  }

  // ----- its code lengths -----

  /** The symbol of an operation, with the width and the value of its extra bits. */
  datatype Coded = Coded(sym: nat, width: nat, extra: nat)

  function Parts(op: ClOp): Coded {
    match op
    case Len(l) => Coded(l, 0, 0)
    case Repeat(n) => Coded(16, 2, n)
    case ZerosShort(n) => Coded(17, 3, n)
    case ZerosLong(n) => Coded(18, 7, n)
  }

  lemma OpStep(cl: seq<CodeLen>, s: seq<Bit>, p: nat, rest: nat, op: ClOp, acc: seq<CodeLen>, acc': seq<CodeLen>,
               total: nat, o: Coded, c: nat, n: nat, mid: nat, rest': nat)
    requires OpOk(cl, op, acc) && o == Parts(op) && IsWord(cl, o.sym, c, n) && Next(s, p, rest, c, n, mid)
    requires p + n + o.width <= |s| && Splits(mid, o.width, o.extra, rest')
    requires |acc| < total && Appends(acc, op, acc')
    ensures Ahead(s, p + n + o.width, rest')
    ensures LengthsFrom(cl, s, p, acc, total) == LengthsFrom(cl, s, p + n + o.width, acc', total)
  {
    hide Ahead, Splits, OpBits, OpOk, HasAt, IsWord, Next, Pow2, Parts, LengthsFrom, Reversed, Appends;
    OpBitsAre(cl, op, acc);
    WordAndExtra(cl, s, p, rest, o, c, n, mid, rest');
    var bits := OpBits(cl, op);
    assert |bits| == n + o.width;
    hide CodeWord, HasCodeWord, LsbBits;
    LengthsStep(cl, s, p, acc, op, bits, total, acc');
  }

  predicate Appends(acc: seq<CodeLen>, op: ClOp, acc': seq<CodeLen>) {
    (op.Repeat? ==> acc != []) && ApplyOp(acc, op) == acc'
  }

  lemma WordAndExtra(cl: seq<CodeLen>, s: seq<Bit>, p: nat, rest: nat, o: Coded, c: nat, n: nat, mid: nat, rest': nat)
    requires IsWord(cl, o.sym, c, n) && Next(s, p, rest, c, n, mid) && o.extra < Pow2(o.width)
    requires p + n + o.width <= |s| && Splits(mid, o.width, o.extra, rest')
    ensures Ahead(s, p + n + o.width, rest') && HasCodeWord(cl, o.sym) && |CodeWord(cl, o.sym)| == n
    ensures HasAt(s, p, CodeWord(cl, o.sym) + LsbBits(o.extra, o.width))
  {
    hide Ahead, Splits, HasAt, CodeWord, HasCodeWord, LsbBits, IsWord, Next, LsbVal, Pow2, Reversed;
    TakeWord(cl, o.sym, s, p, rest, c, n, mid);
    var extra := LsbBits(o.extra, o.width);
    LsbValBits(o.extra, o.width);
    Take(s, p + n, mid, extra, rest');
    HasAtConcat(s, p, CodeWord(cl, o.sym), extra);
  }

  lemma LengthsStep(cl: seq<CodeLen>, s: seq<Bit>, p: nat, acc: seq<CodeLen>, op: ClOp, bits: seq<Bit>, total: nat,
                    acc': seq<CodeLen>)
    requires p + |bits| <= |s| && |acc| < total && OpOk(cl, op, acc) && HasAt(s, p, bits) && bits == OpBits(cl, op)
    requires Appends(acc, op, acc')
    ensures LengthsFrom(cl, s, p, acc, total) == LengthsFrom(cl, s, p + |bits|, acc', total)
  {
    hide NextOp, OpBits, OpOk, HasAt, LengthsFrom, Appends;
    NextOpExact(cl, s, p, acc, op, p + |bits|);
    LengthsUnfold(cl, s, p, acc, op, p + |bits|, total, acc');
  }

  lemma LengthsUnfold(cl: seq<CodeLen>, s: seq<Bit>, p: nat, acc: seq<CodeLen>, op: ClOp, q: nat, total: nat,
                      acc': seq<CodeLen>)
    requires p <= |s| && |acc| < total && NextOp(cl, s, p, acc) == Ok((op, q)) && Appends(acc, op, acc')
    ensures LengthsFrom(cl, s, p, acc, total) == LengthsFrom(cl, s, q, acc', total)
  {
    hide NextOp, ApplyOp;
  }

  lemma OpBitsAre(cl: seq<CodeLen>, op: ClOp, acc: seq<CodeLen>)
    requires OpOk(cl, op, acc)
    ensures HasCodeWord(cl, Parts(op).sym) && Parts(op).extra < Pow2(Parts(op).width)
    ensures OpBits(cl, op) == CodeWord(cl, Parts(op).sym) + LsbBits(Parts(op).extra, Parts(op).width)
  {
    assert Pow2(0) == 1;
    assert LsbBits(0, 0) == [];
    hide HasCodeWord, CodeWord, Pow2;
  }

  lemma OpsStand(s: seq<Bit>)
    requires |s| == 128 && Ahead(s, 71, 0x152425effc76b7)
    ensures LengthsFrom(ClLens(), s, 71, [], 259) == Ok((Lens(), 116)) && Ahead(s, 116, 0xa9)
  {
    FirstOps(s);
    LastOps(s);
    LengthsEnd(s);
    assert Lens()[..0] == [] && Lens()[..259] == Lens();
    hide Lens, ClLens, LengthsFrom;
  }

  lemma FirstOps(s: seq<Bit>)
    requires |s| == 128 && Ahead(s, 71, 0x152425effc76b7)
    ensures LengthsFrom(ClLens(), s, 71, [], 259) == LengthsFrom(ClLens(), s, 99, Lens()[..239], 259)
    ensures Ahead(s, 99, 0x152425e)
  {
    OpWords();
    OpSplits();
    OpsAreOk();
    LensGrow();
    hide Ahead, Splits, OpOk, Appends, IsWord, ClLens, Lens, Reversed, LengthsFrom;
    var cl, lens := ClLens(), Lens();
    OpStep(cl, s, 71, 0x152425effc76b7, ZerosLong(86), [], lens[..97], 259,
           Coded(18, 7, 86), 7, 3, 0x2a484bdff8ed6, 0x549097bff1d);
    OpStep(cl, s, 81, 0x549097bff1d, Len(3), lens[..97], lens[..98], 259,
           Coded(3, 0, 0), 5, 3, 0xa9212f7fe3, 0xa9212f7fe3);
    OpStep(cl, s, 84, 0xa9212f7fe3, Repeat(0), lens[..98], lens[..101], 259,
           Coded(16, 2, 0), 6, 3, 0x152425effc, 0x549097bff);
    OpStep(cl, s, 89, 0x549097bff, ZerosLong(127), lens[..101], lens[..239], 259,
           Coded(18, 7, 127), 7, 3, 0xa9212f7f, 0x152425e);
  }

  lemma LastOps(s: seq<Bit>)
    requires |s| == 128 && Ahead(s, 99, 0x152425e)
    ensures LengthsFrom(ClLens(), s, 99, Lens()[..239], 259) == LengthsFrom(ClLens(), s, 116, Lens()[..259], 259)
    ensures Ahead(s, 116, 0xa9)
  {
    OpWords();
    OpSplits();
    OpsAreOk();
    LensGrow();
    hide Ahead, Splits, OpOk, Appends, IsWord, ClLens, Lens, Reversed, LengthsFrom;
    var cl, lens := ClLens(), Lens();
    OpStep(cl, s, 99, 0x152425e, ZerosShort(7), lens[..239], lens[..249], 259,
           Coded(17, 3, 7), 1, 2, 0x549097, 0xa9212);
    OpStep(cl, s, 104, 0xa9212, ZerosShort(4), lens[..249], lens[..256], 259,
           Coded(17, 3, 4), 1, 2, 0x2a484, 0x5490);
    OpStep(cl, s, 109, 0x5490, Len(2), lens[..256], lens[..257], 259,
           Coded(2, 0, 0), 0, 2, 0x1524, 0x1524);
    OpStep(cl, s, 111, 0x1524, Len(2), lens[..257], lens[..258], 259,
           Coded(2, 0, 0), 0, 2, 0x549, 0x549);
    OpStep(cl, s, 113, 0x549, Len(1), lens[..258], lens[..259], 259,
           Coded(1, 0, 0), 4, 3, 0xa9, 0xa9);
  }

  lemma LengthsEnd(s: seq<Bit>)
    requires |s| == 128
    ensures LengthsFrom(ClLens(), s, 116, Lens(), 259) == Ok((Lens(), 116))
  {
    hide Lens, ClLens;
  }

  lemma OpSplits()
    ensures Splits(0x152425effc76b7, 3, Reversed(7, 3), 0x2a484bdff8ed6)
    ensures Splits(0x2a484bdff8ed6, 7, 86, 0x549097bff1d)
    ensures Splits(0x549097bff1d, 3, Reversed(5, 3), 0xa9212f7fe3) && Splits(0xa9212f7fe3, 0, 0, 0xa9212f7fe3)
    ensures Splits(0xa9212f7fe3, 3, Reversed(6, 3), 0x152425effc) && Splits(0x152425effc, 2, 0, 0x549097bff)
    ensures Splits(0x549097bff, 3, Reversed(7, 3), 0xa9212f7f) && Splits(0xa9212f7f, 7, 127, 0x152425e)
    ensures Splits(0x152425e, 2, Reversed(1, 2), 0x549097) && Splits(0x549097, 3, 7, 0xa9212)
    ensures Splits(0xa9212, 2, Reversed(1, 2), 0x2a484) && Splits(0x2a484, 3, 4, 0x5490)
    ensures Splits(0x5490, 2, Reversed(0, 2), 0x1524) && Splits(0x1524, 0, 0, 0x1524)
    ensures Splits(0x1524, 2, Reversed(0, 2), 0x549) && Splits(0x549, 0, 0, 0x549)
    ensures Splits(0x549, 3, Reversed(4, 3), 0xa9) && Splits(0xa9, 0, 0, 0xa9)
  {
    assert Pow2(0) == 1 && Pow2(2) == 4 && Pow2(3) == 8 && Pow2(7) == 128;
  }

  lemma OpsAreOk()
    ensures OpOk(ClLens(), ZerosLong(86), []) && OpOk(ClLens(), Len(3), Lens()[..97])
    ensures OpOk(ClLens(), Repeat(0), Lens()[..98]) && OpOk(ClLens(), ZerosLong(127), Lens()[..101])
    ensures OpOk(ClLens(), ZerosShort(7), Lens()[..239]) && OpOk(ClLens(), ZerosShort(4), Lens()[..249])
    ensures OpOk(ClLens(), Len(2), Lens()[..256]) && OpOk(ClLens(), Len(2), Lens()[..257])
    ensures OpOk(ClLens(), Len(1), Lens()[..258])
  {
    OpWords();
    hide ClLens, HasCodeWord, Lens;
    assert Pow2(2) == 4 && Pow2(3) == 8 && Pow2(7) == 128;
  }

  /** What each operation appends. */
  lemma LensGrow()
    ensures Appends([], ZerosLong(86), Lens()[..97]) && Appends(Lens()[..97], Len(3), Lens()[..98])
    ensures Appends(Lens()[..98], Repeat(0), Lens()[..101])
    ensures Appends(Lens()[..101], ZerosLong(127), Lens()[..239])
    ensures Appends(Lens()[..239], ZerosShort(7), Lens()[..249])
    ensures Appends(Lens()[..249], ZerosShort(4), Lens()[..256])
    ensures Appends(Lens()[..256], Len(2), Lens()[..257]) && Appends(Lens()[..257], Len(2), Lens()[..258])
    ensures Appends(Lens()[..258], Len(1), Lens()[..259])
  {
  }

  lemma OpWords()
    ensures IsWord(ClLens(), 1, 4, 3) && IsWord(ClLens(), 2, 0, 2) && IsWord(ClLens(), 3, 5, 3)
    ensures IsWord(ClLens(), 16, 6, 3) && IsWord(ClLens(), 17, 1, 2) && IsWord(ClLens(), 18, 7, 3)
  {
    ClCounts();
    ClEntries();
    assert Pow2(2) == 4 && Pow2(3) == 8;
    hide Count, Pow2, ClLens;
    var cl := ClLens();
    assert First(cl, 1) == 0 && First(cl, 2) == 0 && First(cl, 3) == 4;
    assert Code(cl, 3) == 5;
  }

  lemma ClEntries()
    ensures var cl := ClLens();
            cl[1] == 3 && cl[2] == 2 && cl[3] == 3 && cl[16] == 3 && cl[17] == 2 && cl[18] == 3
  {
  }

  lemma ClCounts()
    ensures var cl := ClLens();
            && Count(cl, 1, 19) == 0 && Count(cl, 2, 19) == 2 && Count(cl, 3, 19) == 4
            && Count(cl, 3, 1) == 0 && Count(cl, 2, 2) == 0 && Count(cl, 3, 3) == 1
            && Count(cl, 3, 16) == 2 && Count(cl, 2, 17) == 1 && Count(cl, 3, 18) == 3
  {
    var cl := ClLens();
    CountRun(cl, 1, 4, 16, 0);
    CountRun(cl, 2, 4, 16, 0);
    CountRun(cl, 3, 4, 16, 0);
    assert Count(cl, 1, 4) == 0 && Count(cl, 2, 4) == 1 && Count(cl, 3, 4) == 2;
  }

  // ----- its tokens -----

  lemma DynamicWords()
    ensures IsWord(Lens()[..258], 97, 4, 3) && IsWord(Lens()[..258], 98, 5, 3)
    ensures IsWord(Lens()[..258], 256, 0, 2) && IsWord(Lens()[..258], 257, 1, 2)
    ensures IsWord(Lens()[258..], 0, 0, 1)
  {
    var lit, dist := Lens()[..258], Lens()[258..];
    forall l | 1 <= l <= 3
      ensures Count(lit, l, 97) == 0 && Count(lit, l, 101) == (if l == 3 then 4 else 0)
      ensures Count(lit, l, 256) == (if l == 3 then 4 else 0)
      ensures Count(lit, l, 258) == (if l == 3 then 4 else if l == 2 then 2 else 0)
    {
      CountRun(lit, l, 0, 97, 0);
      CountRun(lit, l, 97, 101, 3);
      CountRun(lit, l, 101, 256, 0);
      CountRun(lit, l, 256, 258, 2);
    }
    assert First(lit, 1) == 0 && First(lit, 2) == 0 && First(lit, 3) == 4;
    assert Pow2(1) == 2 && Pow2(2) == 4 && Pow2(3) == 8;
    assert dist == [1];
  }

  lemma DynamicTokens(s: seq<Bit>, lit: seq<CodeLen>, dist: seq<CodeLen>)
    requires |s| == 128 && Ahead(s, 116, 0xa9)
    requires IsWord(lit, 97, 4, 3) && IsWord(lit, 98, 5, 3) && IsWord(lit, 256, 0, 2) && IsWord(lit, 257, 1, 2)
    requires IsWord(dist, 0, 0, 1)
    ensures InflateTokens(lit, dist, s, 116, []) == Ok(([97, 98, 98, 98, 98], 127))
  {
    hide InflateTokens, Ahead, IsWord, Splits, Reversed, NoExtra, CopyOf;
    TokenSplits();
    ShortMatch();
    Joins();
    LiteralStep(lit, dist, s, 116, 0xa9, [], 97, 4, 3, 0x15);
    LiteralStep(lit, dist, s, 119, 0x15, [97], 98, 5, 3, 2);
    MatchStep(lit, dist, s, 122, 2, [97, 98], Match(0, 0, 0, 0), 3, 1, 2, 0, 1, 0, 1, 0);
    CopyB();
    EndStep(lit, dist, s, 125, 0, [97, 98, 98, 98, 98], 0, 2, 0);
  }

  lemma TokenSplits()
    ensures Splits(0xa9, 3, Reversed(4, 3), 0x15) && Splits(0x15, 3, Reversed(5, 3), 2)
    ensures Splits(2, 2, Reversed(1, 2), 0) && Splits(0, 1, Reversed(0, 1), 0) && Splits(0, 2, Reversed(0, 2), 0)
  {
    assert Pow2(1) == 2 && Pow2(2) == 4 && Pow2(3) == 8;
  }

  lemma CopyB()
    ensures var ab: seq<Byte> := [97, 98];
            ab + CopyOf(ab, 1, 3) == [97, 98, 98, 98, 98]
  {
  }

  lemma DynamicLengths(s: seq<Bit>)
    requires |s| == 128 && Ahead(s, 3, 0x152425effc76b76106000000034f801)
    ensures DynamicHeader(s, 3) == Ok((Lens()[..258], Lens()[258..], 116)) && Ahead(s, 116, 0xa9)
  {
    HeadSplits();
    hide Splits, Ahead, ReadBits, ReadClVals, LengthsFrom, ClLengths, Lens, ClVals, DynamicHeader;
    TakeNumber(s, 3, 0x152425effc76b76106000000034f801, 5, 1, 0xa9212f7fe3b5bb08300000001a7c0);
    TakeNumber(s, 8, 0xa9212f7fe3b5bb08300000001a7c0, 5, 0, 0x549097bff1dadd84180000000d3e);
    TakeNumber(s, 13, 0x549097bff1dadd84180000000d3e, 4, 14, 0x549097bff1dadd84180000000d3);
    ClValsStand(s);
    ClLengthsAre();
    OpsStand(s);
    HeaderOf(s, 3, 1, 0, 14, ClVals());
  }
}
