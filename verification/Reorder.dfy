/** Reordering an array of any rank from column-major to row-major storage. */
module Reorder {
  import opened Bits
  import opened Sequences

  // ----- shapes, multi-indices and offsets -----

  function Product(shape: seq<nat>): nat {
    if shape == [] then 1 else shape[0] * Product(shape[1..])
  }

  predicate InShape(idx: seq<nat>, shape: seq<nat>) {
    |idx| == |shape| && forall d :: 0 <= d < |shape| ==> idx[d] < shape[d]
  }

  /** Where a row-major array keeps the element: the last index varies fastest. */
  function RowMajor(shape: seq<nat>, idx: seq<nat>): nat
    requires |idx| == |shape|
  {
    if shape == [] then 0 else idx[0] * Product(shape[1..]) + RowMajor(shape[1..], idx[1..])
  }

  /** Where a column-major array keeps the element: the first index varies fastest. */
  function ColumnMajor(shape: seq<nat>, idx: seq<nat>): nat
    requires |idx| == |shape|
  {
    if shape == [] then 0 else idx[0] + shape[0] * ColumnMajor(shape[1..], idx[1..])
  }

  /** The multi-index at a row-major position: the digits peeled off by dividing by the stride of each dimension. */
  function Digits(shape: seq<nat>, pos: nat): (idx: seq<nat>)
    requires pos < Product(shape)
    ensures |idx| == |shape|
  {
    if shape == [] then []
    else
      var stride := Product(shape[1..]);
      FirstDigit(shape[0], stride, pos);
      [pos / stride] + Digits(shape[1..], pos % stride)
  }

  lemma FirstDigit(top: nat, stride: nat, pos: nat)
    requires pos < top * stride
    ensures stride > 0 && pos / stride < top && pos % stride < stride && pos == (pos / stride) * stride + pos % stride
  {
    MulPositive(top, stride);
    var q := pos / stride;
    if q >= top {
      MulMonotone(stride, top, q);
    }
  }

  /** The multi-index at a column-major position. */
  function ColumnDigits(shape: seq<nat>, pos: nat): (idx: seq<nat>)
    requires pos < Product(shape)
    ensures |idx| == |shape|
  {
    if shape == [] then []
    else
      FirstDigit(Product(shape[1..]), shape[0], pos);
      [pos % shape[0]] + ColumnDigits(shape[1..], pos / shape[0])
  }

  /** Every digit is in range, and the multi-index found is the one that lives there. */
  lemma {:induction false} DigitsPlace(shape: seq<nat>, pos: nat)
    requires pos < Product(shape)
    ensures InShape(Digits(shape, pos), shape) && RowMajor(shape, Digits(shape, pos)) == pos
  {
    if shape != [] {
      var stride := Product(shape[1..]);
      FirstDigit(shape[0], stride, pos);
      DigitsPlace(shape[1..], pos % stride);
      var idx := Digits(shape, pos);
      assert idx[1..] == Digits(shape[1..], pos % stride);
      assert forall d :: 0 < d < |shape| ==> idx[d] == idx[1..][d - 1] && shape[d] == shape[1..][d - 1];
    }
  }

  lemma {:induction false} ColumnDigitsPlace(shape: seq<nat>, pos: nat)
    requires pos < Product(shape)
    ensures InShape(ColumnDigits(shape, pos), shape) && ColumnMajor(shape, ColumnDigits(shape, pos)) == pos
  {
    if shape != [] {
      FirstDigit(Product(shape[1..]), shape[0], pos);
      ColumnDigitsPlace(shape[1..], pos / shape[0]);
      var idx := ColumnDigits(shape, pos);
      assert idx[1..] == ColumnDigits(shape[1..], pos / shape[0]);
      assert forall d :: 0 < d < |shape| ==> idx[d] == idx[1..][d - 1] && shape[d] == shape[1..][d - 1];
    }
  }

  lemma InShapeTail(idx: seq<nat>, shape: seq<nat>)
    requires InShape(idx, shape) && shape != []
    ensures idx[0] < shape[0] && InShape(idx[1..], shape[1..])
  {
  }

  lemma JoinDigit(low: nat, high: nat, d: nat, rest: nat)
    requires d < low && rest < high
    ensures d + low * rest < low * high && (d + low * rest) / low == rest && (d + low * rest) % low == d
  {
    MulMonotone(low, rest + 1, high);
    DivUnique(d + low * rest, low, rest, d);
  }

  /** Both offsets of a multi-index lie inside the array, and each determines the multi-index. */
  lemma {:induction false} RowMajorDigits(shape: seq<nat>, idx: seq<nat>)
    requires InShape(idx, shape)
    ensures RowMajor(shape, idx) < Product(shape) && Digits(shape, RowMajor(shape, idx)) == idx
  {
    if shape != [] {
      InShapeTail(idx, shape);
      RowMajorDigits(shape[1..], idx[1..]);
      var stride, rest := Product(shape[1..]), RowMajor(shape[1..], idx[1..]);
      JoinDigit(stride, shape[0], rest, idx[0]);
      assert idx == [idx[0]] + idx[1..];
    }
  }

  lemma {:induction false} ColumnMajorDigits(shape: seq<nat>, idx: seq<nat>)
    requires InShape(idx, shape)
    ensures ColumnMajor(shape, idx) < Product(shape) && ColumnDigits(shape, ColumnMajor(shape, idx)) == idx
  {
    if shape != [] {
      InShapeTail(idx, shape);
      ColumnMajorDigits(shape[1..], idx[1..]);
      var rest := ColumnMajor(shape[1..], idx[1..]);
      JoinDigit(shape[0], Product(shape[1..]), idx[0], rest);
      assert idx == [idx[0]] + idx[1..];
    }
  }

  // ----- the reordering -----

  /** Where the element at row-major position pos is stored in a column-major array. */
  function SourceOf(shape: seq<nat>, pos: nat): nat
    requires pos < Product(shape)
  {
    ColumnMajor(shape, Digits(shape, pos))
  }

  /** In two dimensions this is the transposition. */
  lemma TwoDimensions(a: nat, b: nat, r: nat, c: nat)
    requires r < a && c < b
    ensures Product([a, b]) == a * b && r * b + c < a * b && SourceOf([a, b], r * b + c) == r + a * c
  {
    PairPositions(a, b, r, c);
    hide Product, RowMajor, ColumnMajor;
    RowMajorDigits([a, b], [r, c]);
  }

  lemma PairPositions(a: nat, b: nat, r: nat, c: nat)
    ensures Product([a, b]) == a * b
    ensures RowMajor([a, b], [r, c]) == r * b + c && ColumnMajor([a, b], [r, c]) == r + a * c
  {
    assert [a, b][1..] == [b] && [r, c][1..] == [c];
    OneDimension(b, c);
    hide Product, RowMajor, ColumnMajor;
    PairUnfolds(a, b, r, c);
  }

  lemma PairUnfolds(a: nat, b: nat, r: nat, c: nat)
    ensures Product([a, b]) == a * Product([b])
    ensures RowMajor([a, b], [r, c]) == r * Product([b]) + RowMajor([b], [c])
    ensures ColumnMajor([a, b], [r, c]) == r + a * ColumnMajor([b], [c])
  {
    assert [a, b][1..] == [b] && [r, c][1..] == [c];
  }

  lemma OneDimension(b: nat, c: nat)
    ensures Product([b]) == b && RowMajor([b], [c]) == c && ColumnMajor([b], [c]) == c
  {
    assert [b][1..] == [] && [c][1..] == [];
  }

  /** The positions are permuted: `SourceOf` stays inside the array and has an inverse there. */
  lemma SourceBijective(shape: seq<nat>, pos: nat)
    requires pos < Product(shape)
    ensures SourceOf(shape, pos) < Product(shape)
    ensures RowMajor(shape, ColumnDigits(shape, SourceOf(shape, pos))) == pos
    ensures RowMajor(shape, ColumnDigits(shape, pos)) < Product(shape)
    ensures SourceOf(shape, RowMajor(shape, ColumnDigits(shape, pos))) == pos
  {
    DigitsPlace(shape, pos);
    ColumnMajorDigits(shape, Digits(shape, pos));
    ColumnDigitsPlace(shape, pos);
    RowMajorDigits(shape, ColumnDigits(shape, pos));
  }

  lemma {:induction false} ProductSnoc(shape: seq<nat>, d: nat)
    requires d < |shape|
    ensures Product(shape[..d + 1]) == Product(shape[..d]) * shape[d]
  {
    if d > 0 {
      ProductSnoc(shape[1..], d - 1);
      assert shape[1..][..d] == shape[..d + 1][1..] && shape[1..][..d - 1] == shape[..d][1..];
      assert shape[0] * (Product(shape[..d][1..]) * shape[d]) == shape[0] * Product(shape[..d][1..]) * shape[d];
    } else {
      assert shape[..1][1..] == [];
    }
  }

  /** The column-major strides: the products of the dimensions before each. */
  method Strides(shape: seq<nat>) returns (fStride: seq<nat>)
    ensures |fStride| == |shape| && forall d :: 0 <= d < |shape| ==> fStride[d] == Product(shape[..d])
  {
    var a := new nat[|shape|](_ => 1);
    var d := 1;
    while d < |shape|
      invariant 1 <= d
      invariant forall e :: 0 <= e < d && e < |shape| ==> a[e] == Product(shape[..e])
    {
      ProductSnoc(shape, d - 1);
      a[d] := a[d - 1] * shape[d - 1];
      d := d + 1;
    }
    fStride := a[..];
  }

  /** One dimension of the offset computation. */
  lemma PeelDigit(shape: seq<nat>, d: nat, rem: nat, f: nat, stride: nat)
    requires d < |shape| && rem < Product(shape[d..]) && stride == Product(shape[..d])
    ensures var sub := Product(shape[d + 1..]);
            && sub > 0 && rem % sub < sub
            && f + stride * SourceOf(shape[d..], rem)
            == f + rem / sub * stride + Product(shape[..d + 1]) * SourceOf(shape[d + 1..], rem % sub)
  {
    var tail, sub := shape[d..], Product(shape[d + 1..]);
    assert tail[0] == shape[d] && tail[1..] == shape[d + 1..];
    FirstDigit(shape[d], sub, rem);
    ProductSnoc(shape, d);
    var digit, rest := rem / sub, SourceOf(shape[d + 1..], rem % sub);
    assert Digits(tail, rem)[1..] == Digits(shape[d + 1..], rem % sub);
    assert SourceOf(tail, rem) == digit + shape[d] * rest;
    Distribute(stride, digit, shape[d], rest);
  }

  lemma Distribute(a: nat, b: nat, c: nat, e: nat)
    ensures a * (b + c * e) == b * a + a * c * e
  {
  }

  /** The offset of one element: the row-major digits, each times its column-major stride. */
  method Offset(shape: seq<nat>, fStride: seq<nat>, pos: nat) returns (fOff: nat)
    requires pos < Product(shape)
    requires |fStride| == |shape| && forall d :: 0 <= d < |shape| ==> fStride[d] == Product(shape[..d])
    ensures fOff == SourceOf(shape, pos)
  {
    hide Product, SourceOf;
    var rem: nat := pos;
    fOff := 0;
    StartOffset(shape, pos);
    for d := 0 to |shape|
      invariant rem < Product(shape[d..])
      invariant fOff + Product(shape[..d]) * SourceOf(shape[d..], rem) == SourceOf(shape, pos)
    {
      PeelDigit(shape, d, rem, fOff, fStride[d]);
      var strideC := Product(shape[d + 1..]);
      var idx := rem / strideC;
      rem := rem % strideC;
      fOff := fOff + idx * fStride[d];
    }
    EndOffset(shape, rem);
  }

  lemma StartOffset(shape: seq<nat>, pos: nat)
    requires pos < Product(shape)
    ensures pos < Product(shape[0..]) && Product(shape[..0]) * SourceOf(shape[0..], pos) == SourceOf(shape, pos)
  {
    assert shape[0..] == shape;
    assert Product(shape[..0]) == 1;
  }

  lemma EndOffset(shape: seq<nat>, rem: nat)
    requires rem < Product(shape[|shape|..])
    ensures SourceOf(shape[|shape|..], rem) == 0
  {
  }

  /** The row-major copy of a column-major array. A zero dimension makes it empty. */
  method FortranToC(src: seq<real>, shape: seq<nat>) returns (out: seq<real>)
    requires Product(shape) <= |src|
    ensures |out| == Product(shape)
    ensures forall pos: nat :: pos < |out| ==> SourceOf(shape, pos) < |src| && out[pos] == src[SourceOf(shape, pos)]
  {
    hide Product, SourceOf;
    var numel := Product(shape);
    var fStride := Strides(shape);
    var slots := new real[numel](_ => 0.0);
    for cPos := 0 to numel
      invariant forall pos: nat :: pos < cPos ==>
                  SourceOf(shape, pos) < |src| && slots[pos] == src[SourceOf(shape, pos)]
    {
      SourceBijective(shape, cPos);
      var fOff := Offset(shape, fStride, cPos);
      slots[cPos] := src[fOff];
    }
    out := slots[..];
  }

  /** Element by element: the copy keeps at its row-major offset what the source has at its column-major offset. */
  lemma ReorderedElement(src: seq<real>, shape: seq<nat>, out: seq<real>, idx: seq<nat>)
    requires Product(shape) <= |src| && |out| == Product(shape) && InShape(idx, shape)
    requires forall pos: nat :: pos < |out| ==> SourceOf(shape, pos) < |src| && out[pos] == src[SourceOf(shape, pos)]
    ensures RowMajor(shape, idx) < |out| && ColumnMajor(shape, idx) < |src|
    ensures out[RowMajor(shape, idx)] == src[ColumnMajor(shape, idx)]
  {
    RowMajorDigits(shape, idx);
    ColumnMajorDigits(shape, idx);
    assert SourceOf(shape, RowMajor(shape, idx)) == ColumnMajor(shape, idx);
  }

  // ----- the result is a permutation -----

  /** p lists every number below its length once. */
  ghost predicate Permutes(p: seq<nat>) {
    && (forall i, j :: 0 <= i < j < |p| ==> p[i] != p[j])
    && (forall v: nat :: v < |p| <==> v in p)
  }

  /** Without its largest entry a permutation is one of the smaller numbers. */
  lemma RemoveLargest(p: seq<nat>, j: nat)
    requires Permutes(p) && j < |p| && p[j] == |p| - 1
    ensures Permutes(RemoveAt(p, j))
  {
    hide RemoveAt;
    var n, q := |p|, RemoveAt(p, j);
    forall v: nat | v < n - 1
      ensures v in q
    {
      assert v in p;
      RemoveAtKeeps(p, j, v);
    }
    forall i | 0 <= i < n - 1
      ensures q[i] < n - 1
    {
      assert q[i] in p;
    }
  }

  lemma {:induction false} PermutedMultiset(s: seq<real>, p: seq<nat>, t: seq<real>)
    requires Permutes(p) && |s| == |t| == |p|
    requires forall i :: 0 <= i < |p| ==> p[i] < |s| && t[i] == s[p[i]]
    ensures multiset(t) == multiset(s)
    decreases |p|
  {
    hide RemoveAt, Permutes;
    if |p| > 0 {
      var n := |p|;
      var j := LargestAt(p);
      RemoveLargest(p, j);
      RemoveAtMultiset(t, j);
      RemoveAtMultiset(s, n - 1);
      BelowLargest(p, j);
      PermutedMultiset(RemoveAt(s, n - 1), RemoveAt(p, j), RemoveAt(t, j));
    }
  }

  lemma LargestAt(p: seq<nat>) returns (j: nat)
    requires Permutes(p) && |p| > 0
    ensures j < |p| && p[j] == |p| - 1
  {
    assert |p| - 1 in p;
    j :| j < |p| && p[j] == |p| - 1;
  }

  lemma BelowLargest(p: seq<nat>, j: nat)
    requires Permutes(p) && j < |p| && p[j] == |p| - 1
    ensures forall i :: 0 <= i < |p| && i != j ==> p[i] < |p| - 1
  {
    forall i | 0 <= i < |p| && i != j
      ensures p[i] < |p| - 1
    {
      assert p[i] in p;
    }
  }

  /** The copy holds the source's elements, each as often. */
  lemma ReorderIsPermutation(src: seq<real>, shape: seq<nat>, out: seq<real>)
    requires |src| == Product(shape) == |out|
    requires forall pos: nat :: pos < |out| ==> SourceOf(shape, pos) < |src| && out[pos] == src[SourceOf(shape, pos)]
    ensures multiset(out) == multiset(src)
  {
    hide SourceOf, Product, RowMajor, ColumnDigits;
    var n := |out|;
    var p := seq(n, pos requires 0 <= pos < n => SourceOf(shape, pos));
    forall i: nat, j: nat | i < j < n
      ensures p[i] != p[j]
    {
      SourceBijective(shape, i);
      SourceBijective(shape, j);
    }
    forall v: nat
      ensures v < n <==> v in p
    {
      if v < n {
        SourceBijective(shape, v);
        assert p[RowMajor(shape, ColumnDigits(shape, v))] == v;
      } else if v in p {
        var i: nat :| i < n && p[i] == v;
        SourceBijective(shape, i);
      }
    }
    PermutedMultiset(src, p, out);
  }
}
