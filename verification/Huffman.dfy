/** Canonical Huffman codes (section 3.2.2 of RFC 1951): the code of each symbol defined from the
    length list alone, the counting-sort table of the decoder, and the table-driven decoder. */
module Huffman {
  import opened BitReading
  import opened Bits
  import opened Results

  const MAX_BITS := 15

  type CodeLen = l: int | 0 <= l <= 15
  type U16 = x: int | 0 <= x < 0x1_0000
  type I32 = x: int | -0x8000_0000 <= x < 0x8000_0000

  // ----- the code a length list denotes -----

  /** How many of the first n symbols have length l. */
  function Count(lens: seq<CodeLen>, l: nat, n: nat): (c: nat)
    requires n <= |lens|
  {
    if n == 0 then 0 else Count(lens, l, n - 1) + if lens[n - 1] == l then 1 else 0
  }

  function NumCodes(lens: seq<CodeLen>, l: nat): nat {
    Count(lens, l, |lens|)
  }

  /** The smallest code of length l. */
  function First(lens: seq<CodeLen>, l: nat): nat {
    if l <= 1 then 0 else 2 * (First(lens, l - 1) + NumCodes(lens, l - 1))
  }

  /** The code of a symbol: consecutive values, in symbol order, among the symbols of its length. */
  function Code(lens: seq<CodeLen>, sym: nat): nat
    requires sym < |lens|
  {
    First(lens, lens[sym]) + Count(lens, lens[sym], sym)
  }

  /** The symbol is used and its code fits its length. */
  predicate HasCodeWord(lens: seq<CodeLen>, sym: nat) {
    sym < |lens| && lens[sym] > 0 && Code(lens, sym) < Pow2(lens[sym])
  }

  /** Codes are packed starting from the most significant bit (section 3.1.1 of RFC 1951). */
  function CodeWord(lens: seq<CodeLen>, sym: nat): (w: seq<Bit>)
    requires HasCodeWord(lens, sym)
    ensures |w| == lens[sym]
  {
    MsbBits(Code(lens, sym), lens[sym])
  }

  predicate IsCodeAt(lens: seq<CodeLen>, s: seq<Bit>, p: nat, sym: nat) {
    HasCodeWord(lens, sym) && HasAt(s, p, CodeWord(lens, sym))
  }

  /** Decoding, independent of any table: the symbol whose code word starts at p. */
  ghost function DecodeAt(lens: seq<CodeLen>, s: seq<Bit>, p: nat): (r: Result<nat, Error>)
    ensures r.Ok? ==> r.value < |lens| && lens[r.value] > 0 && p + lens[r.value] <= |s|
    ensures r.Ok? ==> IsCodeAt(lens, s, p, r.value)
  {
    if exists sym :: IsCodeAt(lens, s, p, sym) then
      var sym :| IsCodeAt(lens, s, p, sym);
      Ok(sym)
    else if p + MAX_BITS <= |s| then Err(BadSymbol)
    else Err(OutOfBits)
  }

  // ----- counting -----

  /** The symbols of length 1 to l - 1 among the first n. */
  function OffsetIn(lens: seq<CodeLen>, l: nat, n: nat): nat
    requires n <= |lens|
  {
    if l <= 1 then 0 else OffsetIn(lens, l - 1, n) + Count(lens, l - 1, n)
  }

  function Offset(lens: seq<CodeLen>, l: nat): nat {
    OffsetIn(lens, l, |lens|)
  }

  /** The place of a used symbol in the sorted symbol list. */
  function Slot(lens: seq<CodeLen>, sym: nat): nat
    requires sym < |lens|
  {
    Offset(lens, lens[sym]) + Count(lens, lens[sym], sym)
  }

  lemma {:induction false} CountMonotone(lens: seq<CodeLen>, l: nat, m: nat, n: nat)
    requires m <= n <= |lens|
    ensures Count(lens, l, m) <= Count(lens, l, n)
    ensures m < n && lens[m] == l ==> Count(lens, l, m) < Count(lens, l, n)
  {
    if m < n {
      CountMonotone(lens, l, m, n - 1);
    }
  }

  lemma {:induction false} OffsetInStep(lens: seq<CodeLen>, l: nat, n: nat)
    requires n < |lens|
    ensures OffsetIn(lens, l, n + 1) == OffsetIn(lens, l, n) + if 1 <= lens[n] < l then 1 else 0
  {
    if l > 1 {
      OffsetInStep(lens, l - 1, n);
    }
  }

  lemma {:induction false} OffsetInBound(lens: seq<CodeLen>, l: nat, n: nat)
    requires n <= |lens|
    ensures OffsetIn(lens, l, n) <= n
  {
    if n == 0 {
      OffsetInZero(lens, l);
    } else {
      OffsetInBound(lens, l, n - 1);
      OffsetInStep(lens, l, n - 1);
    }
  }

  lemma {:induction false} OffsetInZero(lens: seq<CodeLen>, l: nat)
    ensures OffsetIn(lens, l, 0) == 0
  {
    if l > 1 {
      OffsetInZero(lens, l - 1);
    }
  }

  lemma {:induction false} OffsetMonotone(lens: seq<CodeLen>, k: nat, l: nat)
    requires 1 <= k < l
    ensures Offset(lens, k) + NumCodes(lens, k) <= Offset(lens, l)
  {
    if k < l - 1 {
      OffsetMonotone(lens, k, l - 1);
    }
  }

  /** Slots are in range, and ordered by (length, symbol). */
  lemma SlotOrder(lens: seq<CodeLen>, a: nat, b: nat)
    requires a < |lens| && b < |lens| && lens[a] > 0 && lens[b] > 0
    requires lens[a] < lens[b] || (lens[a] == lens[b] && a < b)
    ensures Slot(lens, a) < Slot(lens, b)
  {
    CountMonotone(lens, lens[a], a, |lens|);
    if lens[a] < lens[b] {
      OffsetMonotone(lens, lens[a], lens[b]);
    } else {
      CountMonotone(lens, lens[a], a, b);
    }
  }

  lemma SlotInRange(lens: seq<CodeLen>, sym: nat)
    requires sym < |lens| && lens[sym] > 0
    ensures Slot(lens, sym) < Offset(lens, 16) <= |lens|
  {
    CountMonotone(lens, lens[sym], sym, |lens|);
    OffsetMonotone(lens, lens[sym], 16);
    OffsetInBound(lens, 16, |lens|);
  }

  /** Every rank below the number of codes of a length belongs to a symbol. */
  lemma {:induction false} SymbolOfRank(lens: seq<CodeLen>, l: nat, n: nat, r: nat) returns (sym: nat)
    requires n <= |lens| && r < Count(lens, l, n)
    ensures sym < n && lens[sym] == l && Count(lens, l, sym) == r
  {
    if r < Count(lens, l, n - 1) {
      sym := SymbolOfRank(lens, l, n - 1, r);
    } else {
      sym := n - 1;
    }
  }

  // ----- the decoder's table -----

  /** `counts[l]` is the number of codes of length l; `symbols` is sorted by (length, symbol). */
  datatype Table = Table(counts: seq<U16>, symbols: seq<U16>)

  ghost predicate IsTable(h: Table, lens: seq<CodeLen>) {
    && |h.counts| == 16
    && (forall l :: 1 <= l < 16 ==> h.counts[l] == NumCodes(lens, l))
    && |h.symbols| == |lens| < 0x1_0000
    && (forall sym :: 0 <= sym < |lens| && lens[sym] > 0 ==>
          Slot(lens, sym) < |h.symbols| && h.symbols[Slot(lens, sym)] == sym)
  }

  /** Builds the table by a counting sort. */
  method New(lengths: seq<CodeLen>) returns (h: Table)
    requires |lengths| < 0x1_0000
    ensures IsTable(h, lengths)
  {
    var counts := new U16[16](_ => 0);
    CountLengths(lengths, counts);
    var offsets := new U16[16](_ => 0);
    SumCounts(lengths, counts, offsets);
    var symbols := new U16[|lengths|](_ => 0);
    PlaceSymbols(lengths, offsets, symbols);
    h := Table(counts[..], symbols[..]);
  }

  method CountLengths(lengths: seq<CodeLen>, counts: array<U16>)
    requires |lengths| < 0x1_0000
    requires counts.Length == 16 && forall l :: 0 <= l < 16 ==> counts[l] == 0
    modifies counts
    ensures counts[0] == 0 && forall l :: 1 <= l < 16 ==> counts[l] == NumCodes(lengths, l)
  {
    for i := 0 to |lengths|
      invariant forall l :: 0 <= l < 16 ==> counts[l] == Count(lengths, l, i) <= i
    {
      counts[lengths[i]] := counts[lengths[i]] + 1;
    }
    counts[0] := 0;
  }

  method SumCounts(lengths: seq<CodeLen>, counts: array<U16>, offsets: array<U16>)
    requires |lengths| < 0x1_0000 && counts.Length == offsets.Length == 16 && counts != offsets
    requires forall l :: 1 <= l < 16 ==> counts[l] == NumCodes(lengths, l)
    modifies offsets
    ensures forall l :: 1 <= l < 16 ==> offsets[l] == Offset(lengths, l)
  {
    var sum: U16 := 0;
    for len := 1 to 16
      invariant sum == Offset(lengths, len)
      invariant forall l :: 1 <= l < len ==> offsets[l] == Offset(lengths, l)
    {
      offsets[len] := sum;
      OffsetInBound(lengths, len + 1, |lengths|);
      sum := sum + counts[len];
    }
  }

  method PlaceSymbols(lengths: seq<CodeLen>, offsets: array<U16>, symbols: array<U16>)
    requires |lengths| < 0x1_0000 && symbols.Length == |lengths|
    requires offsets.Length == 16 && offsets != symbols
    requires forall l :: 1 <= l < 16 ==> offsets[l] == Offset(lengths, l)
    modifies offsets, symbols
    ensures forall a :: 0 <= a < |lengths| && lengths[a] > 0 ==>
              Slot(lengths, a) < |lengths| && symbols[Slot(lengths, a)] == a
  {
    for sym := 0 to |lengths|
      invariant forall l :: 1 <= l < 16 ==> offsets[l] == Offset(lengths, l) + Count(lengths, l, sym)
      invariant forall a :: 0 <= a < sym && lengths[a] > 0 ==>
                  Slot(lengths, a) < |lengths| && symbols[Slot(lengths, a)] == a
    {
      var l := lengths[sym];
      if l != 0 {
        SlotInRange(lengths, sym);
        SlotsDiffer(lengths, sym);
        symbols[offsets[l]] := sym;
        offsets[l] := offsets[l] + 1;
      }
    }
  }

  lemma SlotsDiffer(lens: seq<CodeLen>, sym: nat)
    requires sym < |lens| && lens[sym] > 0
    ensures forall a :: 0 <= a < |lens| && a != sym && lens[a] > 0 ==> Slot(lens, a) != Slot(lens, sym)
  {
    forall a | 0 <= a < |lens| && a != sym && lens[a] > 0
      ensures Slot(lens, a) != Slot(lens, sym)
    {
      if lens[a] < lens[sym] || (lens[a] == lens[sym] && a < sym) {
        SlotOrder(lens, a, sym);
      } else {
        SlotOrder(lens, sym, a);
      }
    }
  }

  /** The symbol list is sorted by (length, symbol) and holds exactly the used symbols. */
  lemma TableSorted(h: Table, lens: seq<CodeLen>)
    requires IsTable(h, lens)
    ensures Offset(lens, 16) <= |h.symbols|
    ensures forall i :: 0 <= i < Offset(lens, 16) ==>
              h.symbols[i] < |lens| && lens[h.symbols[i]] > 0 && Slot(lens, h.symbols[i]) == i
    ensures forall i, j :: 0 <= i < j < Offset(lens, 16) ==>
              var a, b := h.symbols[i], h.symbols[j];
              lens[a] < lens[b] || (lens[a] == lens[b] && a < b)
  {
    OffsetInBound(lens, 16, |lens|);
    forall i | 0 <= i < Offset(lens, 16)
      ensures h.symbols[i] < |lens| && lens[h.symbols[i]] > 0 && Slot(lens, h.symbols[i]) == i
    {
      var sym := SymbolOfSlot(lens, i, 16);
    }
    forall i, j | 0 <= i < j < Offset(lens, 16)
      ensures var a, b := h.symbols[i], h.symbols[j];
              lens[a] < lens[b] || (lens[a] == lens[b] && a < b)
    {
      var a, b := h.symbols[i], h.symbols[j];
      assert a != b;
      if lens[b] < lens[a] || (lens[b] == lens[a] && b < a) {
        SlotOrder(lens, b, a);
      }
    }
  }

  lemma {:induction false} SymbolOfSlot(lens: seq<CodeLen>, i: nat, l: nat) returns (sym: nat)
    requires l <= 16 && i < Offset(lens, l)
    ensures sym < |lens| && lens[sym] > 0 && Slot(lens, sym) == i
  {
    if i < Offset(lens, l - 1) {
      sym := SymbolOfSlot(lens, i, l - 1);
    } else {
      sym := SymbolOfRank(lens, l - 1, |lens|, i - Offset(lens, l - 1));
    }
  }

  // ----- the code is prefix free -----

  /** Codes of a longer length start beyond the shifted codes of a shorter one. */
  lemma {:induction false} FirstBeyond(lens: seq<CodeLen>, k: nat, l: nat)
    requires 1 <= k < l
    ensures First(lens, l) >= (First(lens, k) + NumCodes(lens, k)) * Pow2(l - k)
  {
    if k == l - 1 {
      assert Pow2(1) == 2;
    } else {
      FirstBeyond(lens, k, l - 1);
      DoubleBound(First(lens, k) + NumCodes(lens, k), Pow2(l - 1 - k), First(lens, l - 1));
    }
  }

  /** A code word occurs at p exactly if the bits there, read most significant first, are the code. */
  lemma CodeAtIsValue(lens: seq<CodeLen>, s: seq<Bit>, p: nat, sym: nat)
    requires sym < |lens| && lens[sym] > 0 && p + lens[sym] <= |s|
    ensures IsCodeAt(lens, s, p, sym) <==> MsbVal(s[p..p + lens[sym]]) == Code(lens, sym)
  {
    MsbBitsVal(s[p..p + lens[sym]]);
    if HasCodeWord(lens, sym) {
      MsbValBits(Code(lens, sym), lens[sym]);
    }
  }

  /** No two symbols' code words start at the same place: the code is prefix free, even for an
      over-subscribed length list. */
  lemma PrefixFree(lens: seq<CodeLen>, s: seq<Bit>, p: nat, a: nat, b: nat)
    requires IsCodeAt(lens, s, p, a) && IsCodeAt(lens, s, p, b)
    ensures a == b
  {
    if lens[a] < lens[b] {
      NoShorterCode(lens, s, p, a, b);
    } else if lens[b] < lens[a] {
      NoShorterCode(lens, s, p, b, a);
    } else {
      CodeAtIsValue(lens, s, p, a);
      CodeAtIsValue(lens, s, p, b);
      if a < b {
        CountMonotone(lens, lens[a], a, b);
      } else if b < a {
        CountMonotone(lens, lens[a], b, a);
      }
    }
  }

  lemma NoShorterCode(lens: seq<CodeLen>, s: seq<Bit>, p: nat, a: nat, b: nat)
    requires IsCodeAt(lens, s, p, b)
    requires a < |lens| && 0 < lens[a] < lens[b]
    ensures !IsCodeAt(lens, s, p, a)
  {
    var k, l := lens[a], lens[b];
    var t := s[p..p + l];
    CodeAtIsValue(lens, s, p, a);
    CodeAtIsValue(lens, s, p, b);
    MsbValPrefix(t, k);
    assert t[..k] == s[p..p + k];
    FirstBeyond(lens, k, l);
    DivAtLeast(MsbVal(t), First(lens, k) + NumCodes(lens, k), Pow2(l - k));
    CountMonotone(lens, k, a, |lens|);
  }

  /** Decoding finds the one symbol whose code word starts at p. */
  lemma DecodeFinds(lens: seq<CodeLen>, s: seq<Bit>, p: nat, sym: nat)
    requires IsCodeAt(lens, s, p, sym)
    ensures DecodeAt(lens, s, p) == Ok(sym)
  {
    forall a | IsCodeAt(lens, s, p, a)
      ensures a == sym
    {
      PrefixFree(lens, s, p, a, sym);
    }
  }

  // ----- Kraft's inequality -----

  /** The sum, over the used symbols of length at most l, of 2^(l - length). */
  function KraftSum(lens: seq<CodeLen>, l: nat): nat {
    if l == 0 then 0 else 2 * KraftSum(lens, l - 1) + NumCodes(lens, l)
  }

  lemma {:induction false} KraftIsFirst(lens: seq<CodeLen>, l: nat)
    requires l >= 1
    ensures First(lens, l) + NumCodes(lens, l) == KraftSum(lens, l)
  {
    if l > 1 {
      KraftIsFirst(lens, l - 1);
    }
  }

  lemma {:induction false} KraftGrows(lens: seq<CodeLen>, k: nat, l: nat)
    requires k <= l
    ensures KraftSum(lens, l) >= KraftSum(lens, k) * Pow2(l - k)
  {
    if k < l {
      KraftGrows(lens, k, l - 1);
      DoubleBound(KraftSum(lens, k), Pow2(l - 1 - k), KraftSum(lens, l - 1));
    }
  }

  /** Every used symbol has a code word exactly if the lengths satisfy Kraft's inequality. */
  lemma KraftCharacterises(lens: seq<CodeLen>)
    ensures KraftSum(lens, MAX_BITS) <= Pow2(MAX_BITS)
       <==> forall sym :: 0 <= sym < |lens| && lens[sym] > 0 ==> HasCodeWord(lens, sym)
  {
    if KraftSum(lens, MAX_BITS) <= Pow2(MAX_BITS) {
      forall sym | 0 <= sym < |lens| && lens[sym] > 0
        ensures HasCodeWord(lens, sym)
      {
        KraftGivesCodeWord(lens, sym);
      }
    }
    if forall sym :: 0 <= sym < |lens| && lens[sym] > 0 ==> HasCodeWord(lens, sym) {
      CodeWordsGiveKraft(lens, MAX_BITS);
    }
  }

  lemma KraftGivesCodeWord(lens: seq<CodeLen>, sym: nat)
    requires KraftSum(lens, MAX_BITS) <= Pow2(MAX_BITS)
    requires sym < |lens| && lens[sym] > 0
    ensures HasCodeWord(lens, sym)
  {
    var l := lens[sym];
    KraftIsFirst(lens, l);
    CountMonotone(lens, l, sym, |lens|);
    KraftGrows(lens, l, MAX_BITS);
    Pow2Add(l, MAX_BITS - l);
    if KraftSum(lens, l) > Pow2(l) {
      MulLess(Pow2(l), KraftSum(lens, l), Pow2(MAX_BITS - l));
    }
  }

  lemma MulLess(x: nat, y: nat, k: nat)
    requires x < y && k > 0
    ensures x * k < y * k
  {
  }

  lemma {:induction false} CodeWordsGiveKraft(lens: seq<CodeLen>, l: nat)
    requires forall sym :: 0 <= sym < |lens| && lens[sym] > 0 ==> HasCodeWord(lens, sym)
    ensures KraftSum(lens, l) <= Pow2(l)
  {
    if l > 0 {
      CodeWordsGiveKraft(lens, l - 1);
      if NumCodes(lens, l) > 0 {
        KraftIsFirst(lens, l);
        var sym := SymbolOfRank(lens, l, |lens|, NumCodes(lens, l) - 1);
        assert HasCodeWord(lens, sym);
      }
    }
  }

  // ----- the table-driven decoder -----

  /** Decodes one symbol, one bit at a time. */
  method Decode(h: Table, br: BitReader, ghost lens: seq<CodeLen>) returns (r: Result<nat, Error>)
    requires br.Valid() && IsTable(h, lens)
    modifies br
    ensures br.Valid()
    ensures r == DecodeAt(lens, br.Stream(), old(br.Pos()))
    ensures r.Ok? ==> r.value < |lens| && br.Pos() == old(br.Pos()) + lens[r.value]
  {
    hide *;
    ghost var s, p := br.Stream(), br.Pos();
    br.PosInStream();
    ScanStart(lens, s, p);
    var code: I32, first: I32, index: I32 := 0, 0, 0;
    for len := 1 to 16
      invariant br.Valid() && br.Pos() == p + len - 1
      invariant Scanning(lens, s, p, len, code, first, index)
    {
      br.PosInStream();
      var b := br.Bit();
      if b.Err? {
        NoCode(lens, s, p, len, code, first, index);
        return Err(b.error);
      }
      CountOf(h, lens, len);
      ReadOneMore(lens, s, p, len, code + b.value, first, index);
      code := code + b.value;
      var count := h.counts[len];
      if code - first < count {
        ghost var sym := CodeFound(h, lens, s, p, len, code);
        return Ok(h.symbols[index + (code - first)]);
      }
      NoCodeOfLength(lens, s, p, len, code, first, index);
      index := index + count;
      first := first + count;
      first := 2 * first;
      code := 2 * code;
    }
    br.PosInStream();
    NoCode(lens, s, p, 16, code, first, index);
    r := Err(BadSymbol);
  }

  /** The state of the decoder before it reads bit `len`. */
  ghost predicate Scanning(lens: seq<CodeLen>, s: seq<Bit>, p: nat, len: nat, code: int, first: int, index: int) {
    && 1 <= len && p + len - 1 <= |s|
    && code == 2 * MsbVal(s[p..p + len - 1])
    && first == First(lens, len) <= code
    && index == Offset(lens, len)
    && NoCodeBelow(lens, s, p, len)
  }

  ghost predicate NoCodeBelow(lens: seq<CodeLen>, s: seq<Bit>, p: nat, len: nat) {
    forall sym :: 0 <= sym < |lens| && 0 < lens[sym] < len ==> !IsCodeAt(lens, s, p, sym)
  }

  lemma ScanStart(lens: seq<CodeLen>, s: seq<Bit>, p: nat)
    requires p <= |s|
    ensures Scanning(lens, s, p, 1, 0, 0, 0)
  {
  }

  lemma NoCode(lens: seq<CodeLen>, s: seq<Bit>, p: nat, len: nat, code: int, first: int, index: int)
    requires Scanning(lens, s, p, len, code, first, index) && len <= 16
    requires len == 16 || p + len - 1 == |s|
    ensures DecodeAt(lens, s, p) == Err(if len == 16 then BadSymbol else OutOfBits)
  {
  }

  lemma ReadOneMore(lens: seq<CodeLen>, s: seq<Bit>, p: nat, len: nat, code: int, first: int, index: int)
    requires 1 <= len <= 15 && p + len <= |s|
    requires Scanning(lens, s, p, len, code - s[p + len - 1], first, index)
    ensures code == MsbVal(s[p..p + len])
    ensures 0 <= first == First(lens, len) <= code < 0x8000
    ensures 0 <= index == Offset(lens, len)
  {
    ValueOfOneMore(s, p, len);
  }

  lemma ValueOfOneMore(s: seq<Bit>, p: nat, len: nat)
    requires 1 <= len <= 15 && p + len <= |s|
    ensures MsbVal(s[p..p + len]) == 2 * MsbVal(s[p..p + len - 1]) + s[p + len - 1] < 0x8000
  {
    var t := s[p..p + len];
    assert t[..len - 1] == s[p..p + len - 1];
    MsbBitsVal(t);
    Pow2Monotone(len, 15);
    Pow2Add(8, 7);
    assert Pow2(8) == 256 && Pow2(7) == 128;
  }

  lemma CountOf(h: Table, lens: seq<CodeLen>, len: nat)
    requires IsTable(h, lens) && 1 <= len <= 15
    ensures len < |h.counts| && h.counts[len] == NumCodes(lens, len)
    ensures Offset(lens, len) + h.counts[len] <= |lens| == |h.symbols| < 0x1_0000
  {
    OffsetInBound(lens, len + 1, |lens|);
    assert Offset(lens, len + 1) == Offset(lens, len) + NumCodes(lens, len);
  }

  lemma CodeFound(h: Table, lens: seq<CodeLen>, s: seq<Bit>, p: nat, len: nat, code: int) returns (sym: nat)
    requires 1 <= len <= 15 && p + len <= |s| && code == MsbVal(s[p..p + len])
    requires IsTable(h, lens) && 0 <= code - First(lens, len) < NumCodes(lens, len)
    ensures sym < |lens| && lens[sym] == len && DecodeAt(lens, s, p) == Ok(sym)
    ensures Offset(lens, len) + (code - First(lens, len)) < |h.symbols|
    ensures h.symbols[Offset(lens, len) + (code - First(lens, len))] == sym
  {
    sym := SymbolOfRank(lens, len, |lens|, code - First(lens, len));
    CodeAtIsValue(lens, s, p, sym);
    DecodeFinds(lens, s, p, sym);
    assert Slot(lens, sym) == Offset(lens, len) + (code - First(lens, len));
  }

  lemma NoCodeOfLength(lens: seq<CodeLen>, s: seq<Bit>, p: nat, len: nat, code: int, first: int, index: int)
    requires 1 <= len <= 15 && p + len <= |s| && code == MsbVal(s[p..p + len])
    requires Scanning(lens, s, p, len, code - s[p + len - 1], first, index)
    requires code - first >= NumCodes(lens, len)
    ensures Scanning(lens, s, p, len + 1, 2 * code, 2 * (first + NumCodes(lens, len)), index + NumCodes(lens, len))
  {
    forall sym | 0 <= sym < |lens| && lens[sym] == len
      ensures !IsCodeAt(lens, s, p, sym)
    {
      CodeAtIsValue(lens, s, p, sym);
      CountMonotone(lens, len, sym, |lens|);
    }
  }
}
