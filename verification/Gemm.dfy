/** The f32 matrix product out[r, c] = sum over i of input[r, i] * weight[c, i], over exact reals: scalar, lane and
    register-tiled kernels against the plain dot product. */
module Gemm {
  // ----- the specification -----

  /** The dot product of the first n elements. */
  function Dot(x: seq<real>, y: seq<real>, n: nat): real
    requires n <= |x| && n <= |y|
  {
    if n == 0 then 0.0 else Dot(x, y, n - 1) + x[n - 1] * y[n - 1]
  }

  /** The operands of a product: input is m rows, weight is n rows, each of k elements, both row-major. */
  datatype Operands = Operands(input: seq<real>, weight: seq<real>, m: nat, n: nat, k: nat) {
    predicate Valid() {
      |input| == m * k && |weight| == n * k
    }
  }

  /** Row r of a row-major matrix with rows of k elements. */
  function Row(a: seq<real>, rows: nat, k: nat, r: nat): (row: seq<real>)
    requires r < rows && |a| == rows * k
    ensures |row| == k
  {
    RowInRange(r, rows, k);
    a[r * k..r * k + k]
  }

  lemma RowInRange(r: nat, m: nat, k: nat)
    requires r < m
    ensures r * k + k <= m * k
  {
    assert (m - r - 1) * k >= 0;
    assert m * k == r * k + k + (m - r - 1) * k;
  }

  /** Cell (r, c) of the product. */
  function Cell(p: Operands, r: nat, c: nat): real
    requires p.Valid() && r < p.m && c < p.n
  {
    Dot(Row(p.input, p.m, p.k, r), Row(p.weight, p.n, p.k, c), p.k)
  }

  // ----- what determines the product -----

  lemma {:induction false} DotCommutes(x: seq<real>, y: seq<real>, n: nat)
    requires n <= |x| && n <= |y|
    ensures Dot(x, y, n) == Dot(y, x, n)
  {
    if n > 0 {
      DotCommutes(x, y, n - 1);
    }
  }

  /** The dot product is linear in each operand. */
  lemma {:induction false} DotLinear(a: real, x: seq<real>, x': seq<real>, z: seq<real>, y: seq<real>, n: nat)
    requires n <= |x| && n <= |x'| && n <= |z| && n <= |y|
    requires forall i :: 0 <= i < n ==> z[i] == a * x[i] + x'[i]
    ensures Dot(z, y, n) == a * Dot(x, y, n) + Dot(x', y, n)
  {
    if n > 0 {
      DotLinear(a, x, x', z, y, n - 1);
      LinearStep(a, Dot(x, y, n - 1), x[n - 1], x'[n - 1], y[n - 1]);
    }
  }

  lemma LinearStep(a: real, d: real, x: real, x': real, y: real)
    ensures (a * x + x') * y == a * (x * y) + x' * y
    ensures a * (d + x * y) == a * d + a * (x * y)
  {
  }

  /** With a unit vector it is one element. */
  lemma {:induction false} DotUnit(x: seq<real>, y: seq<real>, n: nat, j: nat)
    requires n <= |x| && n <= |y| && forall i :: 0 <= i < n ==> y[i] == if i == j then 1.0 else 0.0
    ensures Dot(x, y, n) == if j < n then x[j] else 0.0
  {
    if n > 0 {
      DotUnit(x, y, n - 1, j);
    }
  }

  /** Multiplying by the identity returns the input. */
  lemma IdentityWeights(p: Operands, r: nat, c: nat)
    requires p.Valid() && p.n == p.k && r < p.m && c < p.n
    requires forall i: nat, j: nat :: i < p.n && j < p.k ==>
               Row(p.weight, p.n, p.k, i)[j] == if i == j then 1.0 else 0.0
    ensures r * p.k + c < |p.input| && Cell(p, r, c) == p.input[r * p.k + c]
  {
    RowInRange(r, p.m, p.k);
    DotUnit(Row(p.input, p.m, p.k, r), Row(p.weight, p.n, p.k, c), p.k, c);
  }

  /** The place of cell (r, c) in a row-major matrix with n columns. */
  function At(r: nat, c: nat, n: nat): nat {
    r * n + c
  }

  lemma AtInRange(r: nat, c: nat, m: nat, n: nat)
    requires r < m && c < n
    ensures At(r, c, n) < m * n
  {
    RowInRange(r, m, n);
  }

  lemma AtInjective(r: nat, c: nat, r': nat, c': nat, n: nat)
    requires c < n && c' < n && At(r, c, n) == At(r', c', n)
    ensures r == r' && c == c'
  {
    if r < r' {
      RowInRange(r, r', n);
    } else if r' < r {
      RowInRange(r', r, n);
    }
  }

  // ----- vector registers -----

  function Sum(v: seq<real>, n: nat): real
    requires n <= |v|
  {
    if n == 0 then 0.0 else Sum(v, n - 1) + v[n - 1]
  }

  /** The sum of all lanes. */
  function Lanes(v: seq<real>): real {
    Sum(v, |v|)
  }

  function Zeros(width: nat): (v: seq<real>)
    ensures |v| == width
  {
    seq(width, _ => 0.0)
  }

  /** Fused multiply-add, lane by lane. */
  function Fma(acc: seq<real>, x: seq<real>, y: seq<real>): (v: seq<real>)
    requires |acc| == |x| == |y|
    ensures |v| == |acc|
  {
    seq(|acc|, l requires 0 <= l < |acc| => acc[l] + x[l] * y[l])
  }

  lemma {:induction false} ZerosSum(width: nat, n: nat)
    requires n <= width
    ensures Sum(Zeros(width), n) == 0.0
  {
    if n > 0 {
      ZerosSum(width, n - 1);
    }
  }

  lemma {:induction false} FmaPartial(acc: seq<real>, x: seq<real>, y: seq<real>, i: nat, w: nat, n: nat)
    requires n <= w == |acc| && i + w <= |x| && i + w <= |y|
    ensures Sum(Fma(acc, x[i..i + w], y[i..i + w]), n) == Sum(acc, n) + Dot(x, y, i + n) - Dot(x, y, i)
  {
    if n > 0 {
      FmaPartial(acc, x, y, i, w, n - 1);
      var a, b := x[i..i + w], y[i..i + w];
      assert a[n - 1] == x[i + n - 1] && b[n - 1] == y[i + n - 1];
      FmaLane(acc, a, b, n - 1);
    }
  }

  lemma FmaLane(acc: seq<real>, x: seq<real>, y: seq<real>, l: nat)
    requires l < |acc| == |x| == |y|
    ensures Fma(acc, x, y)[l] == acc[l] + x[l] * y[l]
  {
  }

  /** A multiply-add of w elements from i adds their part of the dot product to the lanes' total. */
  lemma FmaTotal(acc: seq<real>, x: seq<real>, y: seq<real>, i: nat, w: nat)
    requires |acc| == w && i + w <= |x| && i + w <= |y|
    ensures Lanes(Fma(acc, x[i..i + w], y[i..i + w])) == Lanes(acc) + Dot(x, y, i + w) - Dot(x, y, i)
  {
    FmaPartial(acc, x, y, i, w, w);
  }

  lemma {:induction false} AddSum(a: seq<real>, b: seq<real>, n: nat)
    requires n <= |a| == |b|
    ensures Sum(seq(|a|, l requires 0 <= l < |a| => a[l] + b[l]), n) == Sum(a, n) + Sum(b, n)
  {
    if n > 0 {
      AddSum(a, b, n - 1);
    }
  }

  /** `vaddvq_f32`: pairwise sum of four lanes. */
  function AddAcross(v: seq<real>): real
    requires |v| == 4
  {
    (v[0] + v[1]) + (v[2] + v[3])
  }

  lemma AddAcrossIsLanes(v: seq<real>)
    requires |v| == 4
    ensures AddAcross(v) == Lanes(v)
  {
    assert Sum(v, 1) == v[0];
    assert Sum(v, 2) == v[0] + v[1];
    assert Sum(v, 3) == v[0] + v[1] + v[2];
  }

  // ----- single dot products -----

  method Dot1Scalar(inRow: seq<real>, w: seq<real>, k: nat) returns (acc: real)
    requires k <= |inRow| && k <= |w|
    ensures acc == Dot(inRow, w, k)
  {
    acc := 0.0;
    for i := 0 to k
      invariant acc == Dot(inRow, w, i)
    {
      acc := acc + inRow[i] * w[i];
    }
  }

  /** Two 8-lane accumulators, then a horizontal sum and a scalar tail. */
  method Dot1Avx2(inRow: seq<real>, w: seq<real>, k: nat) returns (acc: real)
    requires k <= |inRow| && k <= |w|
    ensures acc == Dot(inRow, w, k)
  {
    var lanes, i := AccumulateLanes(inRow, w, k);
    hide Dot;
    acc := SumLanes(lanes);
    while i < k
      invariant k - k % 16 <= i <= k
      invariant acc == Dot(inRow, w, i)
    {
      DotStep(inRow, w, i);
      acc := acc + inRow[i] * w[i];
      i := i + 1;
    }
  }

  /** The vector part: sixteen elements at a time, and the sum of the two accumulators. */
  method AccumulateLanes(inRow: seq<real>, w: seq<real>, k: nat) returns (lanes: seq<real>, i: nat)
    requires k <= |inRow| && k <= |w|
    ensures |lanes| == 8 && i == k - k % 16 && Sum(lanes, 8) == Dot(inRow, w, i)
  {
    hide Fma, Zeros, Sum, Dot;
    var acc0, acc1 := Zeros(8), Zeros(8);
    ZerosSum(8, 8);
    DotNone(inRow, w);
    var k16 := k - k % 16;
    i := 0;
    while i < k16
      invariant 0 <= i <= k16 && i % 16 == 0 && |acc0| == |acc1| == 8
      invariant Lanes(acc0) + Lanes(acc1) == Dot(inRow, w, i)
    {
      FmaTotal(acc0, inRow, w, i, 8);
      FmaTotal(acc1, inRow, w, i + 8, 8);
      acc0 := Fma(acc0, inRow[i..i + 8], w[i..i + 8]);
      acc1 := Fma(acc1, inRow[i + 8..i + 16], w[i + 8..i + 16]);
      i := i + 16;
    }
    lanes := seq(8, l requires 0 <= l < 8 => acc0[l] + acc1[l]);
    AddSum(acc0, acc1, 8);
  }

  lemma DotNone(x: seq<real>, y: seq<real>)
    ensures Dot(x, y, 0) == 0.0
  {
  }

  method SumLanes(lanes: seq<real>) returns (s: real)
    ensures s == Sum(lanes, |lanes|)
  {
    s := 0.0;
    for l := 0 to |lanes|
      invariant s == Sum(lanes, l)
    {
      s := s + lanes[l];
    }
  }

  /** One 4-lane accumulator. */
  method Dot1Neon(inRow: seq<real>, w: seq<real>, k: nat) returns (a: real)
    requires k <= |inRow| && k <= |w|
    ensures a == Dot(inRow, w, k)
  {
    hide Fma, Zeros, Sum, AddAcross;
    var acc := Zeros(4);
    ZerosSum(4, 4);
    var k4 := k - k % 4;
    var i := 0;
    while i < k4
      invariant 0 <= i <= k4 && i % 4 == 0 && |acc| == 4
      invariant Lanes(acc) == Dot(inRow, w, i)
    {
      FmaTotal(acc, inRow, w, i, 4);
      acc := Fma(acc, inRow[i..i + 4], w[i..i + 4]);
      i := i + 4;
    }
    a := AddAcross(acc);
    AddAcrossIsLanes(acc);
    while i < k
      invariant k4 <= i <= k
      invariant a == Dot(inRow, w, i)
    {
      a := a + inRow[i] * w[i];
      i := i + 1;
    }
  }

  // ----- four dot products at once -----

  /** Four weight rows against one input row. */
  predicate FourRows(ws: seq<seq<real>>, k: nat) {
    |ws| == 4 && forall c :: 0 <= c < 4 ==> |ws[c]| >= k
  }

  method Dot4Scalar(inRow: seq<real>, ws: seq<seq<real>>, k: nat) returns (a: seq<real>)
    requires k <= |inRow| && FourRows(ws, k)
    ensures |a| == 4 && forall c :: 0 <= c < 4 ==> a[c] == Dot(inRow, ws[c], k)
  {
    var a0, a1, a2, a3 := 0.0, 0.0, 0.0, 0.0;
    for i := 0 to k
      invariant a0 == Dot(inRow, ws[0], i) && a1 == Dot(inRow, ws[1], i)
      invariant a2 == Dot(inRow, ws[2], i) && a3 == Dot(inRow, ws[3], i)
    {
      var x := inRow[i];
      a0 := a0 + x * ws[0][i];
      a1 := a1 + x * ws[1][i];
      a2 := a2 + x * ws[2][i];
      a3 := a3 + x * ws[3][i];
    }
    a := [a0, a1, a2, a3];
  }

  /** Sixteen elements into one 4-lane accumulator: four multiply-adds. */
  function Fma16(acc: seq<real>, x: seq<real>, w: seq<real>, i: nat): (v: seq<real>)
    requires |acc| == 4 && i + 16 <= |x| && i + 16 <= |w|
    ensures |v| == 4
  {
    var v0 := Fma(acc, x[i..i + 4], w[i..i + 4]);
    var v1 := Fma(v0, x[i + 4..i + 8], w[i + 4..i + 8]);
    var v2 := Fma(v1, x[i + 8..i + 12], w[i + 8..i + 12]);
    Fma(v2, x[i + 12..i + 16], w[i + 12..i + 16])
  }

  lemma Fma16Total(acc: seq<real>, x: seq<real>, w: seq<real>, i: nat)
    requires |acc| == 4 && i + 16 <= |x| && i + 16 <= |w|
    ensures Lanes(Fma16(acc, x, w, i)) == Lanes(acc) + Dot(x, w, i + 16) - Dot(x, w, i)
  {
    hide Fma, Dot, Lanes;
    var v0 := Fma(acc, x[i..i + 4], w[i..i + 4]);
    var v1 := Fma(v0, x[i + 4..i + 8], w[i + 4..i + 8]);
    var v2 := Fma(v1, x[i + 8..i + 12], w[i + 8..i + 12]);
    FmaTotal(acc, x, w, i, 4);
    FmaTotal(v0, x, w, i + 4, 4);
    FmaTotal(v1, x, w, i + 8, 4);
    FmaTotal(v2, x, w, i + 12, 4);
  }

  method Dot4Neon(inRow: seq<real>, ws: seq<seq<real>>, k: nat) returns (a: seq<real>)
    requires k <= |inRow| && FourRows(ws, k)
    ensures |a| == 4 && forall c :: 0 <= c < 4 ==> a[c] == Dot(inRow, ws[c], k)
  {
    hide Fma16, Zeros, Lanes, AddAcross, Dot;
    var w0, w1, w2, w3 := ws[0], ws[1], ws[2], ws[3];
    var acc0, acc1, acc2, acc3 := Zeros(4), Zeros(4), Zeros(4), Zeros(4);
    ZeroLanes(inRow, w0);
    ZeroLanes(inRow, w1);
    ZeroLanes(inRow, w2);
    ZeroLanes(inRow, w3);
    var k16 := k - k % 16;
    var i := 0;
    while i < k16
      invariant 0 <= i <= k16 && i % 16 == 0 && |acc0| == |acc1| == |acc2| == |acc3| == 4
      invariant Lanes(acc0) == Dot(inRow, w0, i) && Lanes(acc1) == Dot(inRow, w1, i)
      invariant Lanes(acc2) == Dot(inRow, w2, i) && Lanes(acc3) == Dot(inRow, w3, i)
    {
      Fma16Total(acc0, inRow, w0, i);
      Fma16Total(acc1, inRow, w1, i);
      Fma16Total(acc2, inRow, w2, i);
      Fma16Total(acc3, inRow, w3, i);
      acc0 := Fma16(acc0, inRow, w0, i);
      acc1 := Fma16(acc1, inRow, w1, i);
      acc2 := Fma16(acc2, inRow, w2, i);
      acc3 := Fma16(acc3, inRow, w3, i);
      i := i + 16;
    }
    var a0, a1, a2, a3 := AddAcross(acc0), AddAcross(acc1), AddAcross(acc2), AddAcross(acc3);
    AddAcrossIsLanes(acc0);
    AddAcrossIsLanes(acc1);
    AddAcrossIsLanes(acc2);
    AddAcrossIsLanes(acc3);
    while i < k
      invariant k16 <= i <= k
      invariant a0 == Dot(inRow, w0, i) && a1 == Dot(inRow, w1, i)
      invariant a2 == Dot(inRow, w2, i) && a3 == Dot(inRow, w3, i)
    {
      DotStep(inRow, w0, i);
      DotStep(inRow, w1, i);
      DotStep(inRow, w2, i);
      DotStep(inRow, w3, i);
      var x := inRow[i];
      a0 := a0 + x * w0[i];
      a1 := a1 + x * w1[i];
      a2 := a2 + x * w2[i];
      a3 := a3 + x * w3[i];
      i := i + 1;
    }
    a := [a0, a1, a2, a3];
  }

  // ----- the 4 x 4 micro-kernel -----

  /** All sixteen dot products of four input rows and four weight rows. */
  ghost predicate IsBlock(o: seq<seq<real>>, ins: seq<seq<real>>, ws: seq<seq<real>>, k: nat)
    requires FourRows(ins, k) && FourRows(ws, k)
  {
    && |o| == 4
    && forall ri :: 0 <= ri < 4 ==> |o[ri]| == 4 && forall ci :: 0 <= ci < 4 ==> o[ri][ci] == Dot(ins[ri], ws[ci], k)
  }

  method Micro4x4Scalar(ins: seq<seq<real>>, ws: seq<seq<real>>, k: nat) returns (o: seq<seq<real>>)
    requires FourRows(ins, k) && FourRows(ws, k)
    ensures IsBlock(o, ins, ws, k)
  {
    o := [];
    for ri := 0 to 4
      invariant |o| == ri
      invariant forall r :: 0 <= r < ri ==> |o[r]| == 4 && forall c :: 0 <= c < 4 ==> o[r][c] == Dot(ins[r], ws[c], k)
    {
      var row: seq<real> := [];
      for ci := 0 to 4
        invariant |row| == ci && forall c :: 0 <= c < ci ==> row[c] == Dot(ins[ri], ws[c], k)
      {
        var acc := 0.0;
        for t := 0 to k
          invariant acc == Dot(ins[ri], ws[ci], t)
        {
          acc := acc + ins[ri][t] * ws[ci][t];
        }
        row := row + [acc];
      }
      o := o + [row];
    }
  }

  /** The vector part of the micro-kernel: four elements at a time into sixteen accumulators. */
  method AccumulateTile(acc: array2<seq<real>>, ins: seq<seq<real>>, ws: seq<seq<real>>, k: nat) returns (t: nat)
    requires FourRows(ins, k) && FourRows(ws, k) && acc.Length0 == acc.Length1 == 4
    requires forall r, c :: 0 <= r < 4 && 0 <= c < 4 ==> |acc[r, c]| == 4 && Lanes(acc[r, c]) == Dot(ins[r], ws[c], 0)
    modifies acc
    ensures t == k - k % 4
    ensures forall r, c :: 0 <= r < 4 && 0 <= c < 4 ==> |acc[r, c]| == 4 && Lanes(acc[r, c]) == Dot(ins[r], ws[c], t)
  {
    hide Fma, Zeros, Lanes, Dot;
    var k4 := k - k % 4;
    t := 0;
    while t < k4
      invariant 0 <= t <= k4 && t % 4 == 0
      invariant forall ri, ci :: 0 <= ri < 4 && 0 <= ci < 4 ==>
                  |acc[ri, ci]| == 4 && Lanes(acc[ri, ci]) == Dot(ins[ri], ws[ci], t)
    {
      for ri := 0 to 4
        invariant forall r, ci :: 0 <= r < 4 && 0 <= ci < 4 ==>
                    |acc[r, ci]| == 4 && Lanes(acc[r, ci]) == Dot(ins[r], ws[ci], if r < ri then t + 4 else t)
      {
        for ci := 0 to 4
          invariant forall r, c :: 0 <= r < 4 && 0 <= c < 4 ==>
                      |acc[r, c]| == 4
                      && Lanes(acc[r, c]) == Dot(ins[r], ws[c], if r < ri || (r == ri && c < ci) then t + 4 else t)
        {
          FmaTotal(acc[ri, ci], ins[ri], ws[ci], t, 4);
          acc[ri, ci] := Fma(acc[ri, ci], ins[ri][t..t + 4], ws[ci][t..t + 4]);
        }
      }
      t := t + 4;
    }
  }

  /** The horizontal sums of the sixteen accumulators. */
  method ReduceTile(acc: array2<seq<real>>, tile: array2<real>)
    requires acc.Length0 == acc.Length1 == tile.Length0 == tile.Length1 == 4
    requires forall r, c :: 0 <= r < 4 && 0 <= c < 4 ==> |acc[r, c]| == 4
    modifies tile
    ensures forall r, c :: 0 <= r < 4 && 0 <= c < 4 ==> tile[r, c] == Lanes(acc[r, c])
  {
    hide Lanes, AddAcross;
    for ri := 0 to 4
      invariant forall r, c :: 0 <= r < ri && 0 <= c < 4 ==> tile[r, c] == Lanes(acc[r, c])
    {
      for ci := 0 to 4
        invariant forall r, c :: 0 <= r < 4 && 0 <= c < 4 && (r < ri || (r == ri && c < ci)) ==>
                    tile[r, c] == Lanes(acc[r, c])
      {
        AddAcrossIsLanes(acc[ri, ci]);
        tile[ri, ci] := AddAcross(acc[ri, ci]);
      }
    }
  }

  method TileRows(tile: array2<real>) returns (o: seq<seq<real>>)
    requires tile.Length0 == tile.Length1 == 4
    ensures |o| == 4 && forall r :: 0 <= r < 4 ==> |o[r]| == 4 && forall c :: 0 <= c < 4 ==> o[r][c] == tile[r, c]
  {
    o := [[tile[0, 0], tile[0, 1], tile[0, 2], tile[0, 3]],
          [tile[1, 0], tile[1, 1], tile[1, 2], tile[1, 3]],
          [tile[2, 0], tile[2, 1], tile[2, 2], tile[2, 3]],
          [tile[3, 0], tile[3, 1], tile[3, 2], tile[3, 3]]];
  }

  /** Sixteen 4-lane accumulators, horizontal sums, scalar tail. */
  method Micro4x4Neon(ins: seq<seq<real>>, ws: seq<seq<real>>, k: nat) returns (o: seq<seq<real>>)
    requires FourRows(ins, k) && FourRows(ws, k)
    ensures IsBlock(o, ins, ws, k)
  {
    hide Fma, Zeros, Lanes, AddAcross, Dot;
    var acc := new seq<real>[4, 4]((_, _) => Zeros(4));
    forall ri, ci | 0 <= ri < 4 && 0 <= ci < 4
      ensures |acc[ri, ci]| == 4 && Lanes(acc[ri, ci]) == Dot(ins[ri], ws[ci], 0)
    {
      ZeroLanes(ins[ri], ws[ci]);
    }
    var t := AccumulateTile(acc, ins, ws, k);
    var tile := new real[4, 4]((_, _) => 0.0);
    ReduceTile(acc, tile);
    TileTail(tile, ins, ws, t, k);
    o := TileRows(tile);
  }

  /** The scalar tail of the micro-kernel: elements t0 .. k of each dot product. */
  method TileTail(tile: array2<real>, ins: seq<seq<real>>, ws: seq<seq<real>>, t0: nat, k: nat)
    requires FourRows(ins, k) && FourRows(ws, k) && t0 <= k && tile.Length0 == tile.Length1 == 4
    requires forall r, c :: 0 <= r < 4 && 0 <= c < 4 ==> tile[r, c] == Dot(ins[r], ws[c], t0)
    modifies tile
    ensures forall r, c :: 0 <= r < 4 && 0 <= c < 4 ==> tile[r, c] == Dot(ins[r], ws[c], k)
  {
    hide Dot;
    var t := t0;
    while t < k
      invariant t0 <= t <= k
      invariant forall r, c :: 0 <= r < 4 && 0 <= c < 4 ==> tile[r, c] == Dot(ins[r], ws[c], t)
    {
      for ri := 0 to 4
        invariant forall r, c :: 0 <= r < 4 && 0 <= c < 4 ==>
                    tile[r, c] == Dot(ins[r], ws[c], if r < ri then t + 1 else t)
      {
        for ci := 0 to 4
          invariant forall r, c :: 0 <= r < 4 && 0 <= c < 4 ==>
                      tile[r, c] == Dot(ins[r], ws[c], if r < ri || (r == ri && c < ci) then t + 1 else t)
        {
          DotStep(ins[ri], ws[ci], t);
          tile[ri, ci] := tile[ri, ci] + ins[ri][t] * ws[ci][t];
        }
      }
      t := t + 1;
    }
  }

  lemma ZeroLanes(x: seq<real>, y: seq<real>)
    ensures Lanes(Zeros(4)) == Dot(x, y, 0)
  {
    ZerosSum(4, 4);
  }

  lemma DotStep(x: seq<real>, y: seq<real>, t: nat)
    requires t < |x| && t < |y|
    ensures Dot(x, y, t + 1) == Dot(x, y, t) + x[t] * y[t]
  {
  }

  // ----- the instruction sets -----

  /** Which kernels the build selects: `aarch64`, `x86_64` with AVX2 and FMA, or neither. */
  datatype Isa = Neon | Avx2 | Portable

  method Micro4x4(isa: Isa, ins: seq<seq<real>>, ws: seq<seq<real>>, k: nat) returns (o: seq<seq<real>>)
    requires FourRows(ins, k) && FourRows(ws, k)
    ensures IsBlock(o, ins, ws, k)
  {
    if isa.Neon? {
      o := Micro4x4Neon(ins, ws, k);
    } else {
      o := Micro4x4Scalar(ins, ws, k);
    }
  }

  method Dot4(isa: Isa, inRow: seq<real>, ws: seq<seq<real>>, k: nat) returns (a: seq<real>)
    requires k <= |inRow| && FourRows(ws, k)
    ensures |a| == 4 && forall c :: 0 <= c < 4 ==> a[c] == Dot(inRow, ws[c], k)
  {
    if isa.Neon? {
      a := Dot4Neon(inRow, ws, k);
    } else {
      a := Dot4Scalar(inRow, ws, k);
    }
  }

  method Dot1(isa: Isa, inRow: seq<real>, w: seq<real>, k: nat) returns (acc: real)
    requires k <= |inRow| && k <= |w|
    ensures acc == Dot(inRow, w, k)
  {
    match isa
    case Neon => acc := Dot1Neon(inRow, w, k);
    case Avx2 => acc := Dot1Avx2(inRow, w, k);
    case Portable => acc := Dot1Scalar(inRow, w, k);
  }

  // ----- scaled addition -----

  /** The memory after w times the first n elements of v has been added to the first n elements. */
  ghost predicate Added(mem: seq<real>, was: seq<real>, w: real, v: seq<real>, n: nat)
    requires n <= |was| && n <= |v|
  {
    |mem| == |was| && forall i :: 0 <= i < |was| ==> mem[i] == if i < n then was[i] + w * v[i] else was[i]
  }

  /** One multiply-add of d lanes, from and to memory. */
  method AxpyLanes(o: array<real>, w: real, v: seq<real>, i: nat, d: nat, ghost was: seq<real>)
    requires i + d <= o.Length && i + d <= |v| && |was| == o.Length && Added(o[..], was, w, v, i)
    modifies o
    ensures Added(o[..], was, w, v, i + d)
  {
    forall l | 0 <= l < d {
      o[i + l] := w * v[i + l] + o[i + l];
    }
  }

  /** `axpy`: eight elements to a step under AVX2, one to a step otherwise. */
  method Axpy(isa: Isa, o: array<real>, w: real, v: seq<real>, n: nat)
    requires n <= o.Length && n <= |v|
    modifies o
    ensures Added(o[..], old(o[..]), w, v, n)
  {
    ghost var was := o[..];
    assert Added(o[..], was, w, v, 0);
    hide Added;
    var i := 0;
    if isa.Avx2? {
      var n8 := n - n % 8;
      while i < n8
        invariant 0 <= i <= n8 && i % 8 == 0
        invariant Added(o[..], was, w, v, i)
      {
        AxpyLanes(o, w, v, i, 8, was);
        i := i + 8;
      }
    }
    while i < n
      invariant 0 <= i <= n
      invariant Added(o[..], was, w, v, i)
    {
      AxpyLanes(o, w, v, i, 1, was);
      i := i + 1;
    }
  }
}
