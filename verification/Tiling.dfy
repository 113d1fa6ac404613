/** The tiled and threaded drivers of the matrix product: which cells each block of columns writes, and with what. */
module Tiling {
  import opened Gemm

  // ----- writing cells -----

  /** A cell of the product: row and column. */
  type Place = (nat, nat)

  ghost predicate InProduct(p: Operands, trace: seq<Place>) {
    forall i :: 0 <= i < |trace| ==> trace[i].0 < p.m && trace[i].1 < p.n
  }

  /** The memory after each cell of the trace, in order, has been given its value in the product. */
  ghost function Apply(p: Operands, trace: seq<Place>, mem: seq<real>): (after: seq<real>)
    requires p.Valid() && |mem| == p.m * p.n && InProduct(p, trace)
    ensures |after| == |mem|
  {
    if trace == [] then mem
    else
      var last := trace[|trace| - 1];
      assert trace[..|trace| - 1] + [last] == trace;
      Store(p, last.0, last.1, Apply(p, trace[..|trace| - 1], mem))
  }

  ghost function Store(p: Operands, r: nat, c: nat, mem: seq<real>): (after: seq<real>)
    requires p.Valid() && |mem| == p.m * p.n && r < p.m && c < p.n
    ensures |after| == |mem|
  {
    AtInRange(r, c, p.m, p.n);
    mem[At(r, c, p.n) := Cell(p, r, c)]
  }

  /** The trace holds exactly the cells of the first `rows` rows in columns lo .. hi. */
  ghost predicate Region(trace: seq<Place>, rows: nat, lo: nat, hi: nat) {
    forall r: nat, c: nat :: (r, c) in trace <==> r < rows && lo <= c < hi
  }

  /** What a trace does to one cell: it has its final value if the trace holds it, and is untouched otherwise. */
  lemma {:induction false} ApplyAt(p: Operands, trace: seq<Place>, mem: seq<real>, r: nat, c: nat)
    requires p.Valid() && |mem| == p.m * p.n && InProduct(p, trace) && r < p.m && c < p.n
    ensures At(r, c, p.n) < |mem|
    ensures Apply(p, trace, mem)[At(r, c, p.n)]
         == if (r, c) in trace then Cell(p, r, c) else mem[At(r, c, p.n)]
  {
    hide At, Cell;
    AtInRange(r, c, p.m, p.n);
    if trace != [] {
      var last, rest := trace[|trace| - 1], trace[..|trace| - 1];
      assert trace == rest + [last];
      ApplyAt(p, rest, mem, r, c);
      if At(r, c, p.n) == At(last.0, last.1, p.n) {
        AtInjective(r, c, last.0, last.1, p.n);
      }
    }
  }

  lemma {:induction false} ApplyConcat(p: Operands, a: seq<Place>, b: seq<Place>, mem: seq<real>)
    requires p.Valid() && |mem| == p.m * p.n && InProduct(p, a) && InProduct(p, b)
    ensures InProduct(p, a + b)
    ensures Apply(p, a + b, mem) == Apply(p, b, Apply(p, a, mem))
  {
    hide Store;
    if b == [] {
      assert a + b == a;
    } else {
      var rest := b[..|b| - 1];
      ApplyConcat(p, a, rest, mem);
      assert (a + b)[..|a + b| - 1] == a + rest;
    }
  }

  /** The columns lo .. hi of the product, over a memory whose other cells are those of `was`. */
  ghost predicate Columns(p: Operands, mem: seq<real>, was: seq<real>, lo: nat, hi: nat)
    requires p.Valid() && |was| == p.m * p.n && hi <= p.n
  {
    && |mem| == |was|
    && forall r: nat, c: nat :: r < p.m && c < p.n ==>
         At(r, c, p.n) < |mem|
         && mem[At(r, c, p.n)] == if lo <= c < hi then Cell(p, r, c) else was[At(r, c, p.n)]
  }

  lemma RegionInProduct(p: Operands, trace: seq<Place>, lo: nat, hi: nat)
    requires Region(trace, p.m, lo, hi) && hi <= p.n
    ensures InProduct(p, trace)
  {
    forall i | 0 <= i < |trace|
      ensures trace[i].0 < p.m && trace[i].1 < p.n
    {
      assert (trace[i].0, trace[i].1) in trace;
    }
  }

  /** A trace of a block of columns computes that block and leaves every other cell alone. */
  lemma RegionFills(p: Operands, trace: seq<Place>, mem: seq<real>, lo: nat, hi: nat)
    requires p.Valid() && |mem| == p.m * p.n && hi <= p.n && Region(trace, p.m, lo, hi)
    ensures InProduct(p, trace)
    ensures Columns(p, Apply(p, trace, mem), mem, lo, hi)
  {
    hide At, Cell, Apply;
    RegionInProduct(p, trace, lo, hi);
    forall r: nat, c: nat | r < p.m && c < p.n
      ensures At(r, c, p.n) < |mem|
      ensures Apply(p, trace, mem)[At(r, c, p.n)]
           == if lo <= c < hi then Cell(p, r, c) else mem[At(r, c, p.n)]
    {
      ApplyAt(p, trace, mem, r, c);
    }
  }

  // ----- the tiled kernel -----

  /** Four neighbouring cells of row r. */
  function Quad(r: nat, c: nat): seq<Place> {
    [(r, c), (r, c + 1), (r, c + 2), (r, c + 3)]
  }

  /** Stores four neighbouring cells. */
  method StoreQuad(p: Operands, out: array<real>, r: nat, c: nat, vals: seq<real>)
    requires p.Valid() && out.Length == p.m * p.n && r < p.m && c + 4 <= p.n
    requires |vals| == 4 && forall j :: 0 <= j < 4 ==> vals[j] == Cell(p, r, c + j)
    modifies out
    ensures out[..] == Apply(p, Quad(r, c), old(out[..]))
  {
    hide Cell, Apply, InProduct;
    AtInRange(r, c + 3, p.m, p.n);
    ghost var was := out[..];
    var base := r * p.n + c;
    out[base] := vals[0];
    out[base + 1] := vals[1];
    out[base + 2] := vals[2];
    out[base + 3] := vals[3];
    QuadApplied(p, r, c, was);
    assert vals[0] == Cell(p, r, c + 0);
    assert out[..] == was[base := vals[0]][base + 1 := vals[1]][base + 2 := vals[2]][base + 3 := vals[3]];
  }

  lemma QuadStores(p: Operands, r: nat, c: nat, mem: seq<real>)
    requires p.Valid() && |mem| == p.m * p.n && r < p.m && c + 4 <= p.n
    ensures InProduct(p, Quad(r, c))
    ensures Apply(p, Quad(r, c), mem)
         == Store(p, r, c + 3, Store(p, r, c + 2, Store(p, r, c + 1, Store(p, r, c, mem))))
  {
    hide Apply, Store, InProduct;
    var a, b, c0, d := [(r, c)], [(r, c + 1)], [(r, c + 2)], [(r, c + 3)];
    ApplyNone(p, mem);
    ApplySnoc(p, [], (r, c), mem);
    assert [] + a == a;
    ApplySnoc(p, a, (r, c + 1), mem);
    ApplySnoc(p, a + b, (r, c + 2), mem);
    ApplySnoc(p, a + b + c0, (r, c + 3), mem);
    assert Quad(r, c) == a + b + c0 + d;
  }

  lemma QuadApplied(p: Operands, r: nat, c: nat, mem: seq<real>)
    requires p.Valid() && |mem| == p.m * p.n && r < p.m && c + 4 <= p.n
    ensures At(r, c, p.n) + 4 <= |mem| && InProduct(p, Quad(r, c))
    ensures Apply(p, Quad(r, c), mem)
         == mem[At(r, c, p.n) := Cell(p, r, c)][At(r, c, p.n) + 1 := Cell(p, r, c + 1)]
            [At(r, c, p.n) + 2 := Cell(p, r, c + 2)][At(r, c, p.n) + 3 := Cell(p, r, c + 3)]
  {
    hide Cell, Apply, Quad, InProduct;
    AtInRange(r, c + 3, p.m, p.n);
    QuadStores(p, r, c, mem);
    var at := At(r, c, p.n);
    assert At(r, c + 1, p.n) == at + 1 && At(r, c + 2, p.n) == at + 2 && At(r, c + 3, p.n) == at + 3;
  }

  lemma ApplyNone(p: Operands, mem: seq<real>)
    requires p.Valid() && |mem| == p.m * p.n
    ensures InProduct(p, [])
    ensures Apply(p, [], mem) == mem
  {
  }

  lemma ApplySnoc(p: Operands, trace: seq<Place>, x: Place, mem: seq<real>)
    requires p.Valid() && |mem| == p.m * p.n && InProduct(p, trace) && x.0 < p.m && x.1 < p.n
    ensures InProduct(p, trace + [x])
    ensures Apply(p, trace + [x], mem) == Store(p, x.0, x.1, Apply(p, trace, mem))
  {
    assert (trace + [x])[..|trace|] == trace;
  }

  /** The four weight rows of a block of columns. */
  ghost predicate WeightRows(p: Operands, ws: seq<seq<real>>, c: nat)
    requires p.Valid() && c + 4 <= p.n
  {
    FourRows(ws, p.k) && forall j :: 0 <= j < 4 ==> ws[j] == Row(p.weight, p.n, p.k, c + j)
  }

  /** Four rows of four cells through the micro-kernel; the trace so far is extended. */
  method BlockRows(isa: Isa, p: Operands, out: array<real>, ws: seq<seq<real>>, r: nat, c: nat,
                   ghost was: seq<real>, ghost before: seq<Place>) returns (ghost trace: seq<Place>)
    requires p.Valid() && out.Length == p.m * p.n == |was| && r + 4 <= p.m && c + 4 <= p.n && WeightRows(p, ws, c)
    requires Region(before, r, c, c + 4) && InProduct(p, before) && out[..] == Apply(p, before, was)
    modifies out
    ensures Region(trace, r + 4, c, c + 4) && InProduct(p, trace) && out[..] == Apply(p, trace, was)
  {
    hide Row, Dot, At, Apply, Quad, Region, InProduct, Cell;
    var ins := [Row(p.input, p.m, p.k, r), Row(p.input, p.m, p.k, r + 1),
                Row(p.input, p.m, p.k, r + 2), Row(p.input, p.m, p.k, r + 3)];
    var block := Micro4x4(isa, ins, ws, p.k);
    BlockCells(p, ins, ws, block, r, c);
    trace := before;
    for ri := 0 to 4
      invariant Region(trace, r + ri, c, c + 4) && InProduct(p, trace)
      invariant out[..] == Apply(p, trace, was)
    {
      StoreQuad(p, out, r + ri, c, block[ri]);
      trace := NextRow(p, trace, was, r + ri, c);
    }
  }

  /** One remaining row of four cells. */
  method SingleRow(isa: Isa, p: Operands, out: array<real>, ws: seq<seq<real>>, r: nat, c: nat,
                   ghost was: seq<real>, ghost before: seq<Place>) returns (ghost trace: seq<Place>)
    requires p.Valid() && out.Length == p.m * p.n == |was| && r < p.m && c + 4 <= p.n && WeightRows(p, ws, c)
    requires Region(before, r, c, c + 4) && InProduct(p, before) && out[..] == Apply(p, before, was)
    modifies out
    ensures Region(trace, r + 1, c, c + 4) && InProduct(p, trace) && out[..] == Apply(p, trace, was)
  {
    hide Row, Dot, At, Apply, Quad, Region, InProduct, Cell;
    var ir := Row(p.input, p.m, p.k, r);
    var a := Dot4(isa, ir, ws, p.k);
    QuadCells(p, ir, ws, a, r, c);
    StoreQuad(p, out, r, c, a);
    trace := NextRow(p, before, was, r, c);
  }

  method LoadRows(p: Operands, c: nat) returns (ws: seq<seq<real>>)
    requires p.Valid() && c + 4 <= p.n
    ensures WeightRows(p, ws, c)
  {
    hide Row;
    ws := [Row(p.weight, p.n, p.k, c), Row(p.weight, p.n, p.k, c + 1),
           Row(p.weight, p.n, p.k, c + 2), Row(p.weight, p.n, p.k, c + 3)];
  }

  /** Four columns of the product: row blocks of four through the micro-kernel, the remaining rows four dots at a
      time. */
  method QuadColumns(isa: Isa, p: Operands, out: array<real>, c: nat) returns (ghost trace: seq<Place>)
    requires p.Valid() && out.Length == p.m * p.n && c + 4 <= p.n
    modifies out
    ensures Region(trace, p.m, c, c + 4) && InProduct(p, trace)
    ensures out[..] == Apply(p, trace, old(out[..]))
  {
    hide Row, Dot, At, Apply, Quad, Region, InProduct, Cell, WeightRows;
    var m4 := p.m - p.m % 4;
    var ws := LoadRows(p, c);
    ghost var was := out[..];
    trace := [];
    ApplyNone(p, was);
    RegionNone(c, c + 4);
    var r := 0;
    while r < m4
      invariant 0 <= r <= m4 && r % 4 == 0
      invariant Region(trace, r, c, c + 4) && InProduct(p, trace)
      invariant out[..] == Apply(p, trace, was)
    {
      trace := BlockRows(isa, p, out, ws, r, c, was, trace);
      r := r + 4;
    }
    while r < p.m
      invariant m4 <= r <= p.m
      invariant Region(trace, r, c, c + 4) && InProduct(p, trace)
      invariant out[..] == Apply(p, trace, was)
    {
      trace := SingleRow(isa, p, out, ws, r, c, was, trace);
      r := r + 1;
    }
  }

  lemma RegionNone(lo: nat, hi: nat)
    ensures Region([], 0, lo, hi)
  {
  }

  /** The micro-kernel's sixteen values are cells of the product. */
  lemma BlockCells(p: Operands, ins: seq<seq<real>>, ws: seq<seq<real>>, block: seq<seq<real>>, r: nat, c: nat)
    requires p.Valid() && r + 4 <= p.m && c + 4 <= p.n && FourRows(ins, p.k) && WeightRows(p, ws, c)
    requires forall j :: 0 <= j < 4 ==> ins[j] == Row(p.input, p.m, p.k, r + j)
    requires IsBlock(block, ins, ws, p.k)
    ensures forall i :: 0 <= i < 4 ==>
              |block[i]| == 4 && forall j :: 0 <= j < 4 ==> block[i][j] == Cell(p, r + i, c + j)
  {
    hide Row, Dot;
  }

  lemma QuadCells(p: Operands, ir: seq<real>, ws: seq<seq<real>>, a: seq<real>, r: nat, c: nat)
    requires p.Valid() && r < p.m && c + 4 <= p.n && ir == Row(p.input, p.m, p.k, r)
    requires WeightRows(p, ws, c)
    requires |a| == 4 && forall j :: 0 <= j < 4 ==> a[j] == Dot(ir, ws[j], p.k)
    ensures forall j :: 0 <= j < 4 ==> a[j] == Cell(p, r, c + j)
  {
    hide Row, Dot;
  }

  /** One more row of four cells. */
  lemma NextRow(p: Operands, trace: seq<Place>, was: seq<real>, r: nat, c: nat) returns (next: seq<Place>)
    requires p.Valid() && |was| == p.m * p.n && r < p.m && c + 4 <= p.n
    requires Region(trace, r, c, c + 4) && InProduct(p, trace)
    ensures Region(next, r + 1, c, c + 4) && InProduct(p, next)
    ensures InProduct(p, Quad(r, c)) && Apply(p, next, was) == Apply(p, Quad(r, c), Apply(p, trace, was))
  {
    hide Apply;
    ApplyConcat(p, trace, Quad(r, c), was);
    next := trace + Quad(r, c);
  }

  /** One column of the product, a dot product at a time. */
  method SingleColumn(isa: Isa, p: Operands, out: array<real>, c: nat) returns (ghost trace: seq<Place>)
    requires p.Valid() && out.Length == p.m * p.n && c < p.n
    modifies out
    ensures Region(trace, p.m, c, c + 1) && InProduct(p, trace)
    ensures out[..] == Apply(p, trace, old(out[..]))
  {
    hide Row, Dot, Apply;
    var w := Row(p.weight, p.n, p.k, c);
    ghost var was := out[..];
    trace := [];
    ApplyNone(p, was);
    for r := 0 to p.m
      invariant Region(trace, r, c, c + 1) && InProduct(p, trace)
      invariant out[..] == Apply(p, trace, was)
    {
      AtInRange(r, c, p.m, p.n);
      var v := Dot1(isa, Row(p.input, p.m, p.k, r), w, p.k);
      out[r * p.n + c] := v;
      ApplySnoc(p, trace, (r, c), was);
      trace := trace + [(r, c)];
    }
  }

  /** Columns col_start .. col_end of every row, by blocks of four and then one by one. */
  method GemmNcols(isa: Isa, p: Operands, out: array<real>, colStart: nat, colEnd: nat)
    returns (ghost trace: seq<Place>)
    requires p.Valid() && out.Length == p.m * p.n && colStart <= colEnd <= p.n
    modifies out
    ensures Region(trace, p.m, colStart, colEnd) && InProduct(p, trace)
    ensures out[..] == Apply(p, trace, old(out[..]))
    ensures Columns(p, out[..], old(out[..]), colStart, colEnd)
  {
    hide Apply, Columns;
    ghost var was := out[..];
    trace := [];
    ApplyNone(p, was);
    var c := colStart;
    var col4 := colStart + (colEnd - colStart) / 4 * 4;
    while c < col4
      invariant colStart <= c <= col4 && (c - colStart) % 4 == 0
      invariant Region(trace, p.m, colStart, c) && InProduct(p, trace)
      invariant out[..] == Apply(p, trace, was)
    {
      ghost var more := QuadColumns(isa, p, out, c);
      ApplyConcat(p, trace, more, was);
      trace := trace + more;
      c := c + 4;
    }
    while c < colEnd
      invariant col4 <= c <= colEnd
      invariant Region(trace, p.m, colStart, c) && InProduct(p, trace)
      invariant out[..] == Apply(p, trace, was)
    {
      ghost var more := SingleColumn(isa, p, out, c);
      ApplyConcat(p, trace, more, was);
      trace := trace + more;
      c := c + 1;
    }
    RegionFills(p, trace, was, colStart, colEnd);
  }
}
