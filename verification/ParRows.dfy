/** Running one computation per output row, the rows divided among threads. */
module ParRows {
  import opened Bits
  import opened Gemm
  import opened Threads
  import opened Interleaving

  /** What is done to a row: its number and its contents before give its contents after. */
  type Body = (nat, seq<real>) -> seq<real>

  ghost predicate KeepsWidth(body: Body, width: nat) {
    forall r: nat, row: seq<real> :: |row| == width ==> |body(r, row)| == width
  }

  /** A row-major matrix with row r replaced. */
  function SetRow(mem: seq<real>, rows: nat, width: nat, r: nat, row: seq<real>): (after: seq<real>)
    requires |mem| == rows * width && r < rows && |row| == width
    ensures |after| == |mem|
  {
    RowInRange(r, rows, width);
    mem[..r * width] + row + mem[r * width + width..]
  }

  /** Index i of a row-major matrix lies in row i / width. */
  lemma RowIndex(i: nat, r: nat, rows: nat, width: nat)
    requires 0 < width && i < rows * width && r < rows
    ensures i / width < rows
    ensures r * width <= i < r * width + width <==> i / width == r
  {
    var q := i / width;
    assert i == width * q + i % width;
    if q >= rows {
      MulMonotone(width, rows, q);
    }
    if q < r {
      MulMonotone(width, q + 1, r);
    } else if q > r {
      MulMonotone(width, r + 1, q);
    }
  }

  lemma SetRowAt(mem: seq<real>, rows: nat, width: nat, r: nat, row: seq<real>, i: nat)
    requires |mem| == rows * width && r < rows && |row| == width && i < |mem|
    ensures r * width <= i < r * width + width ==> SetRow(mem, rows, width, r, row)[i] == row[i - r * width]
    ensures !(r * width <= i < r * width + width) ==> SetRow(mem, rows, width, r, row)[i] == mem[i]
  {
    RowInRange(r, rows, width);
  }

  lemma RowOfSetRow(mem: seq<real>, rows: nat, width: nat, r: nat, row: seq<real>, q: nat)
    requires |mem| == rows * width && r < rows && |row| == width && q < rows
    ensures Row(SetRow(mem, rows, width, r, row), rows, width, q)
         == if q == r then row else Row(mem, rows, width, q)
  {
    hide SetRow;
    var after := SetRow(mem, rows, width, r, row);
    RowInRange(q, rows, width);
    var goal := if q == r then row else Row(mem, rows, width, q);
    forall j | 0 <= j < width
      ensures after[q * width + j] == goal[j]
    {
      var i := q * width + j;
      RowIndex(i, q, rows, width);
      RowIndex(i, r, rows, width);
      SetRowAt(mem, rows, width, r, row, i);
    }
    assert Row(after, rows, width, q) == goal;
  }

  /** Rows lo .. hi have been computed from their contents in `was`; the others are those of `was`. */
  ghost predicate RowsDone(mem: seq<real>, was: seq<real>, rows: nat, width: nat, body: Body, lo: nat, hi: nat)
    requires |was| == rows * width
  {
    && |mem| == |was|
    && forall r: nat :: r < rows ==>
         Row(mem, rows, width, r)
         == if lo <= r < hi then body(r, Row(was, rows, width, r)) else Row(was, rows, width, r)
  }

  method CopyRow(out: array<real>, base: nat, row: seq<real>)
    requires base + |row| <= out.Length
    modifies out
    ensures forall i :: 0 <= i < out.Length ==>
              out[i] == if base <= i < base + |row| then row[i - base] else old(out[i])
  {
    for j := 0 to |row|
      invariant forall i :: 0 <= i < out.Length ==>
                  out[i] == if base <= i < base + j then row[i - base] else old(out[i])
    {
      out[base + j] := row[j];
    }
  }

  method CopyInto(out: array<real>, rows: nat, width: nat, r: nat, row: seq<real>)
    requires out.Length == rows * width && r < rows && |row| == width
    modifies out
    ensures out[..] == SetRow(old(out[..]), rows, width, r, row)
  {
    RowInRange(r, rows, width);
    ghost var was := out[..];
    var base := r * width;
    CopyRow(out, base, row);
    assert out[..] == was[..base] + row + was[base + width..];
  }

  /** One row of the output through the body. */
  method DoRow(out: array<real>, rows: nat, width: nat, body: Body, r: nat)
    requires out.Length == rows * width && r < rows && KeepsWidth(body, width)
    modifies out
    ensures out[..] == SetRow(old(out[..]), rows, width, r, body(r, Row(old(out[..]), rows, width, r)))
  {
    RowInRange(r, rows, width);
    var row := body(r, out[r * width..r * width + width]);
    assert out[r * width..r * width + width] == Row(out[..], rows, width, r);
    CopyInto(out, rows, width, r, row);
  }

  lemma RowsDoneNext(mem: seq<real>, was: seq<real>, rows: nat, width: nat, body: Body, lo: nat, r: nat)
    requires |was| == rows * width && lo <= r < rows && KeepsWidth(body, width)
    requires RowsDone(mem, was, rows, width, body, lo, r)
    ensures RowsDone(SetRow(mem, rows, width, r, body(r, Row(mem, rows, width, r))), was, rows, width, body, lo, r + 1)
  {
    hide Row, SetRow;
    var row := body(r, Row(mem, rows, width, r));
    forall q: nat | q < rows
      ensures Row(SetRow(mem, rows, width, r, row), rows, width, q) == if q == r then row else Row(mem, rows, width, q)
    {
      RowOfSetRow(mem, rows, width, r, row, q);
    }
  }

  /** A chunk of at most per * width elements is a whole number of rows: per of them, or all that are left. */
  lemma ChunkRows(rows: nat, width: nat, per: nat, base: nat)
    requires 0 < width && base < rows && 0 < per
    ensures base * width <= rows * width
    ensures Min(per * width, rows * width - base * width) / width == Min(per, rows - base) > 0
  {
    var left := rows - base;
    assert left * width == rows * width - base * width;
    if per <= left {
      MulMonotone(width, per, left);
      DivUnique(per * width, width, per, 0);
    } else {
      MulMonotone(width, left, per);
      DivUnique(left * width, width, left, 0);
    }
  }

  /** What one worker does: the rows of the chunk that begins with row `base`. */
  method DoChunk(out: array<real>, rows: nat, width: nat, per: nat, body: Body, base: nat, ghost was: seq<real>)
    returns (chunkRows: nat)
    requires 0 < width && out.Length == rows * width == |was| && KeepsWidth(body, width) && base < rows && 0 < per
    requires RowsDone(out[..], was, rows, width, body, 0, base)
    modifies out
    ensures 0 < chunkRows && base + chunkRows <= rows
    ensures RowsDone(out[..], was, rows, width, body, 0, base + chunkRows)
  {
    hide Row, SetRow, RowsDone, KeepsWidth;
    var chunk := Min(per * width, out.Length - base * width);
    ChunkRows(rows, width, per, base);
    chunkRows := chunk / width;
    for r := 0 to chunkRows
      invariant RowsDone(out[..], was, rows, width, body, 0, base + r)
    {
      RowsDoneNext(out[..], was, rows, width, body, 0, base + r);
      DoRow(out, rows, width, body, base + r);
    }
  }

  /** Every row is computed exactly once from its own contents, for every number of threads. The width is not zero: the
      chunking the rows go through has no chunks of zero elements. */
  method ParallelRows(out: array<real>, rows: nat, width: nat, available: nat, body: Body)
    requires 0 < width && out.Length == rows * width && KeepsWidth(body, width)
    modifies out
    ensures RowsDone(out[..], old(out[..]), rows, width, body, 0, rows)
  {
    ghost var was := out[..];
    assert RowsDone(out[..], was, rows, width, body, 0, 0);
    hide Row, SetRow, RowsDone, DivCeil, KeepsWidth;
    var threads := Min(available, Max(rows, 1));
    if threads <= 1 || rows < 8 {
      for r := 0 to rows
        invariant RowsDone(out[..], was, rows, width, body, 0, r)
      {
        RowsDoneNext(out[..], was, rows, width, body, 0, r);
        DoRow(out, rows, width, body, r);
      }
      return;
    }
    var per := DivCeil(rows, threads);
    DivCeilCovers(rows, threads);
    var base := 0;
    while base < rows
      invariant 0 <= base <= rows
      invariant RowsDone(out[..], was, rows, width, body, 0, base)
    {
      var chunkRows := DoChunk(out, rows, width, per, body, base, was);
      base := base + chunkRows;
    }
  }

  // ----- every interleaving of the row workers -----

  /** Worker w's next row: row w * per + j, as long as it lies in the worker's chunk. */
  ghost function RowNext(rows: nat, width: nat, per: nat, body: Body, w: nat, j: nat, mem: seq<real>): seq<real>
    requires KeepsWidth(body, width)
  {
    var r := Start(rows, per, w) + j;
    if r < Start(rows, per, w + 1) && |mem| == rows * width then
      SetRow(mem, rows, width, r, body(r, Row(mem, rows, width, r)))
    else mem
  }

  ghost function RowWorkers(rows: nat, width: nat, per: nat, body: Body): Act<real>
    requires KeepsWidth(body, width)
  {
    (w: nat, j: nat, mem: seq<real>) => RowNext(rows, width, per, body, w, j, mem)
  }

  ghost function RowOwner(width: nat, per: nat): nat -> nat
    requires width > 0 && per > 0
  {
    (i: nat) => i / width / per
  }

  lemma RowWorkersLocal(rows: nat, width: nat, per: nat, body: Body)
    requires KeepsWidth(body, width) && width > 0 && per > 0
    ensures WritesOwn(RowWorkers(rows, width, per, body), RowOwner(width, per), rows * width)
    ensures ReadsOwn(RowWorkers(rows, width, per, body), RowOwner(width, per), rows * width)
  {
    hide SetRow, Row, Start, Agree;
    var act, owner, size := RowWorkers(rows, width, per, body), RowOwner(width, per), rows * width;
    forall w: nat, j: nat, mem: seq<real> | |mem| == size
      ensures |act(w, j, mem)| == size
      ensures forall i: nat :: i < size && owner(i) != w ==> act(w, j, mem)[i] == mem[i]
    {
      RowNextWrites(rows, width, per, body, w, j, mem);
    }
    forall w: nat, j: nat, a: seq<real>, b: seq<real> | |a| == size && Agree(owner, w, a, b)
      ensures Agree(owner, w, act(w, j, a), act(w, j, b))
    {
      RowNextReads(rows, width, per, body, w, j, a, b);
    }
  }

  lemma RowNextWrites(rows: nat, width: nat, per: nat, body: Body, w: nat, j: nat, mem: seq<real>)
    requires KeepsWidth(body, width) && width > 0 && per > 0 && |mem| == rows * width
    ensures |RowNext(rows, width, per, body, w, j, mem)| == |mem|
    ensures forall i: nat :: i < |mem| && i / width / per != w ==>
              RowNext(rows, width, per, body, w, j, mem)[i] == mem[i]
  {
    hide SetRow, Row;
    var r := Start(rows, per, w) + j;
    if r < Start(rows, per, w + 1) {
      var row := body(r, Row(mem, rows, width, r));
      BlocksPartition(rows, per, w, r);
      forall i: nat | i < |mem| && i / width / per != w
        ensures SetRow(mem, rows, width, r, row)[i] == mem[i]
      {
        RowIndex(i, r, rows, width);
        SetRowAt(mem, rows, width, r, row, i);
      }
    }
  }

  lemma RowNextReads(rows: nat, width: nat, per: nat, body: Body, w: nat, j: nat, a: seq<real>, b: seq<real>)
    requires KeepsWidth(body, width) && width > 0 && per > 0 && |a| == rows * width
    requires Agree(RowOwner(width, per), w, a, b)
    ensures Agree(RowOwner(width, per), w, RowNext(rows, width, per, body, w, j, a),
                  RowNext(rows, width, per, body, w, j, b))
  {
    hide SetRow;
    var owner := RowOwner(width, per);
    var r := Start(rows, per, w) + j;
    if r < Start(rows, per, w + 1) {
      BlocksPartition(rows, per, w, r);
      RowInRange(r, rows, width);
      forall i | r * width <= i < r * width + width
        ensures a[i] == b[i]
      {
        RowIndex(i, r, rows, width);
        assert owner(i) == w;
      }
      assert Row(a, rows, width, r) == Row(b, rows, width, r);
      var row := body(r, Row(a, rows, width, r));
      forall i: nat | i < |a| && owner(i) == w
        ensures SetRow(a, rows, width, r, row)[i] == SetRow(b, rows, width, r, row)[i]
      {
        SetRowAt(a, rows, width, r, row, i);
        SetRowAt(b, rows, width, r, row, i);
      }
    }
  }

  /** One worker alone computes the rows of its chunk, in order. */
  lemma {:induction false} SoloRows(rows: nat, width: nat, per: nat, body: Body, w: nat, k: nat, mem: seq<real>)
    requires KeepsWidth(body, width) && |mem| == rows * width
    requires Start(rows, per, w) + k <= Start(rows, per, w + 1)
    ensures RowsDone(Solo(RowWorkers(rows, width, per, body), w, k, mem), mem, rows, width, body,
                     Start(rows, per, w), Start(rows, per, w) + k)
  {
    hide SetRow, Row;
    if k > 0 {
      SoloRows(rows, width, per, body, w, k - 1, mem);
      RowsDoneNext(Solo(RowWorkers(rows, width, per, body), w, k - 1, mem), mem, rows, width, body,
                   Start(rows, per, w), Start(rows, per, w) + k - 1);
    }
  }

  /** Whatever the interleaving of the row workers, once each has done its chunk every row has been computed from its
      initial contents. */
  lemma AnyRowInterleaving(rows: nat, width: nat, per: nat, body: Body, schedule: seq<nat>, mem: seq<real>)
    requires KeepsWidth(body, width) && width > 0 && per > 0 && |mem| == rows * width
    requires forall w: nat :: Count(schedule, w) == Start(rows, per, w + 1) - Start(rows, per, w)
    ensures RowsDone(Run(RowWorkers(rows, width, per, body), schedule, mem), mem, rows, width, body, 0, rows)
  {
    hide Run, Count, RowWorkers, SetRow, Row, Solo, WritesOwn, ReadsOwn, Start, Agree, RowOwner;
    var act, owner := RowWorkers(rows, width, per, body), RowOwner(width, per);
    var end := Run(act, schedule, mem);
    RowWorkersLocal(rows, width, per, body);
    RunSize(act, owner, schedule, mem);
    forall r: nat | r < rows
      ensures Row(end, rows, width, r) == body(r, Row(mem, rows, width, r))
    {
      var w := r / per;
      BlocksPartition(rows, per, w, r);
      Confined(act, owner, schedule, mem, w);
      var k := Count(schedule, w);
      SoloRows(rows, width, per, body, w, k, mem);
      SameRow(end, Solo(act, w, k, mem), rows, width, per, w, r);
    }
  }

  lemma SameRow(a: seq<real>, b: seq<real>, rows: nat, width: nat, per: nat, w: nat, r: nat)
    requires width > 0 && per > 0 && r < rows && |a| == rows * width && r / per == w
    requires Agree(RowOwner(width, per), w, a, b)
    ensures Row(a, rows, width, r) == Row(b, rows, width, r)
  {
    RowInRange(r, rows, width);
    forall i | r * width <= i < r * width + width
      ensures a[i] == b[i]
    {
      RowIndex(i, r, rows, width);
      assert RowOwner(width, per)(i) == w;
    }
  }
}
