/** The threaded drivers: how columns and rows are divided among workers, and that no division and no interleaving
    changes the result. */
module Threads {
  import opened Bits
  import opened Gemm
  import opened Tiling
  import opened Interleaving

  // ----- dividing a range -----

  function DivCeil(n: nat, d: nat): nat
    requires d > 0
  {
    (n + d - 1) / d
  }

  function Min(a: nat, b: nat): nat {
    if a <= b then a else b
  }

  /** Where the w-th block of n items begins, `per` items to a block; it ends where the next one begins. */
  function Start(n: nat, per: nat, w: nat): nat {
    Min(w * per, n)
  }

  /** The blocks are disjoint and cover the range: item c lies in block c / per and in no other. */
  lemma BlocksPartition(n: nat, per: nat, w: nat, c: nat)
    requires per > 0 && c < n
    ensures Start(n, per, w) <= c < Start(n, per, w + 1) <==> w == c / per
  {
    var q := c / per;
    assert c == per * q + c % per;
    assert (w + 1) * per == w * per + per;
    if w < q {
      MulMonotone(per, w + 1, q);
    } else if w > q {
      MulMonotone(per, q + 1, w);
    }
  }

  /** With blocks of ceil(n / threads) items, no more blocks begin inside the range than there are threads. */
  lemma EnoughThreads(n: nat, threads: nat, w: nat)
    requires 0 < threads && w * DivCeil(n, threads) < n
    ensures w < threads
  {
    var per := DivCeil(n, threads);
    DivCeilCovers(n, threads);
    if w >= threads {
      MulMonotone(per, threads, w);
    }
  }

  lemma DivCeilCovers(n: nat, d: nat)
    requires d > 0
    ensures d * DivCeil(n, d) >= n && (n > 0 ==> DivCeil(n, d) > 0)
  {
    var q := (n + d - 1) / d;
    assert n + d - 1 == d * q + (n + d - 1) % d;
    if q == 0 {
      assert d * q == 0;
    }
  }

  // ----- the threaded product -----

  /** One program per worker, together one pass over every column: worker w writes the cells of block w. */
  ghost predicate Divided(programs: seq<seq<Place>>, m: nat, n: nat, per: nat) {
    && per > 0
    && Start(n, per, |programs|) == n
    && forall w :: 0 <= w < |programs| ==> Region(programs[w], m, Start(n, per, w), Start(n, per, w + 1))
  }

  /** The product, split over threads by columns. The blocks are run here one after another; the programs returned are
      the cell writes of each, for `AnyInterleaving`. */
  method GemmAbt(isa: Isa, p: Operands, out: array<real>, available: nat)
    returns (ghost programs: seq<seq<Place>>, ghost per: nat)
    requires p.Valid() && out.Length == p.m * p.n
    modifies out
    ensures Columns(p, out[..], old(out[..]), 0, p.n)
    ensures Divided(programs, p.m, p.n, per) && |programs| <= Max(available, 1)
  {
    hide Columns, Region;
    var threads := Min(available, Max(p.n, 1));
    if threads <= 1 || p.n < 8 || p.m == 0 {
      ghost var trace := GemmNcols(isa, p, out, 0, p.n);
      per := Max(p.n, 1);
      programs := [trace];
      assert Start(p.n, per, 0) == 0 && Start(p.n, per, 1) == p.n;
    } else {
      var size := DivCeil(p.n, threads);
      DivCeilCovers(p.n, threads);
      per := size;
      programs := GemmBlocks(isa, p, out, threads, size);
    }
  }

  function Max(a: nat, b: nat): nat {
    if a <= b then b else a
  }

  /** The loop that spawns one worker per block of columns. */
  method GemmBlocks(isa: Isa, p: Operands, out: array<real>, threads: nat, per: nat)
    returns (ghost programs: seq<seq<Place>>)
    requires p.Valid() && out.Length == p.m * p.n && 0 < threads && per == DivCeil(p.n, threads) && per > 0
    modifies out
    ensures Columns(p, out[..], old(out[..]), 0, p.n)
    ensures Divided(programs, p.m, p.n, per) && |programs| <= threads
  {
    hide Columns, Region, DivCeil;
    ghost var was := out[..];
    programs := [];
    var col0 := 0;
    ColumnsNone(p, was);
    while col0 < p.n
      invariant 0 <= col0 <= p.n && col0 == Start(p.n, per, |programs|) && |programs| <= threads
      invariant Columns(p, out[..], was, 0, col0)
      invariant forall w :: 0 <= w < |programs| ==> Region(programs[w], p.m, Start(p.n, per, w), Start(p.n, per, w + 1))
    {
      var col1 := Min(col0 + per, p.n);
      EnoughThreads(p.n, threads, |programs|);
      assert (|programs| + 1) * per == |programs| * per + per;
      ghost var before := out[..];
      ghost var trace := GemmNcols(isa, p, out, col0, col1);
      ColumnsCompose(p, was, before, out[..], 0, col0, col1);
      programs := programs + [trace];
      col0 := col1;
    }
  }

  lemma ColumnsNone(p: Operands, mem: seq<real>)
    requires p.Valid() && |mem| == p.m * p.n
    ensures Columns(p, mem, mem, 0, 0)
  {
    hide At;
    forall r: nat, c: nat | r < p.m && c < p.n
      ensures At(r, c, p.n) < |mem|
    {
      AtInRange(r, c, p.m, p.n);
    }
  }

  lemma ColumnsCompose(p: Operands, a: seq<real>, b: seq<real>, c: seq<real>, lo: nat, mid: nat, hi: nat)
    requires p.Valid() && |a| == |b| == p.m * p.n && lo <= mid <= hi <= p.n
    requires Columns(p, b, a, lo, mid) && Columns(p, c, b, mid, hi)
    ensures Columns(p, c, a, lo, hi)
  {
    hide At, Cell;
  }

  // ----- every interleaving of the column workers -----

  ghost predicate Placed(p: Operands, programs: seq<seq<Place>>) {
    forall w :: 0 <= w < |programs| ==> InProduct(p, programs[w])
  }

  /** A worker's next cell write; a worker that has finished does nothing. */
  ghost function WriteNext(p: Operands, programs: seq<seq<Place>>, w: nat, j: nat, mem: seq<real>): seq<real>
    requires p.Valid()
  {
    if w < |programs| && j < |programs[w]| && programs[w][j].0 < p.m && programs[w][j].1 < p.n
       && |mem| == p.m * p.n then
      Store(p, programs[w][j].0, programs[w][j].1, mem)
    else mem
  }

  ghost function Writers(p: Operands, programs: seq<seq<Place>>): Act<real>
    requires p.Valid()
  {
    (w: nat, j: nat, mem: seq<real>) => WriteNext(p, programs, w, j, mem)
  }

  /** The worker that owns a place in the output: the one whose block has the place's column. */
  ghost function ColumnOwner(n: nat, per: nat): nat -> nat
    requires per > 0
  {
    (i: nat) => if n == 0 then 0 else i % n / per
  }

  lemma OwnerOfCell(r: nat, c: nat, n: nat, per: nat)
    requires c < n && per > 0
    ensures ColumnOwner(n, per)(At(r, c, n)) == c / per
  {
    DivUnique(At(r, c, n), n, r, c);
  }

  lemma DividedPlaced(p: Operands, programs: seq<seq<Place>>, per: nat)
    requires Divided(programs, p.m, p.n, per)
    ensures Placed(p, programs)
  {
    forall w | 0 <= w < |programs|
      ensures InProduct(p, programs[w])
    {
      RegionInProduct(p, programs[w], Start(p.n, per, w), Start(p.n, per, w + 1));
    }
  }

  /** A worker's write falls in its own block. */
  lemma OwnCell(p: Operands, programs: seq<seq<Place>>, per: nat, w: nat, j: nat)
    requires Divided(programs, p.m, p.n, per) && w < |programs| && j < |programs[w]|
    ensures programs[w][j].0 < p.m && programs[w][j].1 < p.n
    ensures ColumnOwner(p.n, per)(At(programs[w][j].0, programs[w][j].1, p.n)) == w
  {
    hide ColumnOwner;
    var lo, hi := Start(p.n, per, w), Start(p.n, per, w + 1);
    assert Region(programs[w], p.m, lo, hi);
    RegionInProduct(p, programs[w], lo, hi);
    var (r, c) := programs[w][j];
    assert (r, c) in programs[w];
    BlocksPartition(p.n, per, w, c);
    OwnerOfCell(r, c, p.n, per);
  }

  lemma WritersLocal(p: Operands, programs: seq<seq<Place>>, per: nat)
    requires p.Valid() && per > 0 && Divided(programs, p.m, p.n, per)
    ensures WritesOwn(Writers(p, programs), ColumnOwner(p.n, per), p.m * p.n)
    ensures ReadsOwn(Writers(p, programs), ColumnOwner(p.n, per), p.m * p.n)
  {
    hide Divided, InProduct, Cell;
    var act, owner, size := Writers(p, programs), ColumnOwner(p.n, per), p.m * p.n;
    forall w: nat, j: nat, mem: seq<real> | |mem| == size
      ensures |act(w, j, mem)| == size
      ensures forall i: nat :: i < size && owner(i) != w ==> act(w, j, mem)[i] == mem[i]
    {
      if w < |programs| && j < |programs[w]| {
        OwnCell(p, programs, per, w, j);
      }
    }
    forall w: nat, j: nat, a: seq<real>, b: seq<real> | |a| == size && Agree(owner, w, a, b)
      ensures Agree(owner, w, act(w, j, a), act(w, j, b))
    {
      if w < |programs| && j < |programs[w]| {
        OwnCell(p, programs, per, w, j);
      }
    }
  }

  /** One worker alone applies its program. */
  lemma {:induction false} SoloApplies(p: Operands, programs: seq<seq<Place>>, w: nat, k: nat, mem: seq<real>)
    requires p.Valid() && |mem| == p.m * p.n && w < |programs| && k <= |programs[w]|
    requires Placed(p, programs)
    ensures Solo(Writers(p, programs), w, k, mem) == Apply(p, programs[w][..k], mem)
  {
    hide Store;
    if k > 0 {
      SoloApplies(p, programs, w, k - 1, mem);
      assert programs[w][..k] == programs[w][..k - 1] + [programs[w][k - 1]];
      ApplySnoc(p, programs[w][..k - 1], programs[w][k - 1], mem);
    }
  }

  /** Safety over every run: at every point of every interleaving, a cell holds its initial value or its final one, and
      its final one as soon as its worker has passed it. */
  lemma AnyPoint(p: Operands, programs: seq<seq<Place>>, per: nat, schedule: seq<nat>, mem: seq<real>, r: nat, c: nat)
    requires p.Valid() && |mem| == p.m * p.n && Divided(programs, p.m, p.n, per)
    requires r < p.m && c < p.n
    requires forall w: nat :: w < |programs| ==> Count(schedule, w) <= |programs[w]|
    ensures var w := c / per;
            var i := At(r, c, p.n);
            && w < |programs| && i < |mem| == |Run(Writers(p, programs), schedule, mem)|
            && Run(Writers(p, programs), schedule, mem)[i]
            == if (r, c) in programs[w][..Count(schedule, w)] then Cell(p, r, c) else mem[i]
  {
    hide Store, At, Cell, WritesOwn, ReadsOwn, ColumnOwner, Region, InProduct, Apply;
    var act, owner, w, i := Writers(p, programs), ColumnOwner(p.n, per), c / per, At(r, c, p.n);
    WritersLocal(p, programs, per);
    AtInRange(r, c, p.m, p.n);
    BlockExists(p.n, per, |programs|, c);
    OwnerOfCell(r, c, p.n, per);
    RunSize(act, owner, schedule, mem);
    Confined(act, owner, schedule, mem, w);
    DividedPlaced(p, programs, per);
    SoloApplies(p, programs, w, Count(schedule, w), mem);
    PrefixInProduct(p, programs[w], Count(schedule, w));
    ApplyAt(p, programs[w][..Count(schedule, w)], mem, r, c);
  }

  lemma PrefixInProduct(p: Operands, trace: seq<Place>, k: nat)
    requires InProduct(p, trace) && k <= |trace|
    ensures InProduct(p, trace[..k])
  {
  }

  lemma BlockExists(n: nat, per: nat, count: nat, c: nat)
    requires per > 0 && c < n && Start(n, per, count) == n
    ensures c / per < count
  {
    var q := c / per;
    assert c == per * q + c % per;
    if count <= q {
      MulMonotone(per, count, q);
    }
  }

  /** Whatever the interleaving, once every worker has finished the memory is the product. */
  lemma AnyInterleaving(p: Operands, programs: seq<seq<Place>>, per: nat, schedule: seq<nat>, mem: seq<real>)
    requires p.Valid() && |mem| == p.m * p.n && Divided(programs, p.m, p.n, per)
    requires forall w: nat :: w < |programs| ==> Count(schedule, w) == |programs[w]|
    ensures Columns(p, Run(Writers(p, programs), schedule, mem), mem, 0, p.n)
  {
    hide At, Cell, Run, Count, Writers, InProduct;
    var end := Run(Writers(p, programs), schedule, mem);
    WritersLocal(p, programs, per);
    RunSize(Writers(p, programs), ColumnOwner(p.n, per), schedule, mem);
    forall r: nat, c: nat | r < p.m && c < p.n
      ensures At(r, c, p.n) < |end| && end[At(r, c, p.n)] == Cell(p, r, c)
    {
      AnyPoint(p, programs, per, schedule, mem, r, c);
      var w := c / per;
      assert programs[w][..|programs[w]|] == programs[w];
      BlocksPartition(p.n, per, w, c);
      assert (r, c) in programs[w];
    }
  }
}
