/** The two-level asymmetric quantiser shared by Q2_K, Q4_K and Q5_K, over exact reals: what its scales, mins and
    codes are, and how far a weight is from its reconstruction although the scales are themselves rounded. */
module Asymmetric {
  import opened Rounding

  /** `levels` code levels above zero, sub-block factors from 0 to `factors`, `subs` sub-blocks of `size` weights. */
  datatype Shape = Shape(levels: nat, factors: nat, subs: nat, size: nat)

  const Q2K := Shape(3, 15, 16, 16)
  const Q4K := Shape(15, 63, 8, 32)
  const Q5K := Shape(31, 63, 8, 32)

  predicate IsShape(k: Shape) {
    k == Q2K || k == Q4K || k == Q5K
  }

  // ----- what is computed -----

  function MinTo(ws: seq<real>, lo: nat, n: nat): real
    requires lo + n <= |ws|
  {
    if n == 0 then F32_MAX else Min(MinTo(ws, lo, n - 1), ws[lo + n - 1])
  }

  function MaxTo(ws: seq<real>, lo: nat, n: nat): real
    requires lo + n <= |ws|
  {
    if n == 0 then -F32_MAX else Max(MaxTo(ws, lo, n - 1), ws[lo + n - 1])
  }

  /** How far the weights of a sub-block reach below zero. */
  function SubMin(ws: seq<real>, k: Shape, sub: nat): real
    requires IsShape(k) && |ws| == QK_K && sub < k.subs
  {
    var smin := MinTo(ws, sub * k.size, k.size);
    if smin < 0.0 then -smin else 0.0
  }

  function SubScale(ws: seq<real>, k: Shape, sub: nat): real
    requires IsShape(k) && |ws| == QK_K && sub < k.subs
  {
    var range := MaxTo(ws, sub * k.size, k.size) + SubMin(ws, k, sub);
    if range > 0.0 then range / k.levels as real else 0.0
  }

  /** The largest scale of the first n sub-blocks. */
  function TopScale(ws: seq<real>, k: Shape, n: nat): real
    requires IsShape(k) && |ws| == QK_K && n <= k.subs
  {
    if n == 0 then 0.0 else Max(TopScale(ws, k, n - 1), SubScale(ws, k, n - 1))
  }

  function TopMin(ws: seq<real>, k: Shape, n: nat): real
    requires IsShape(k) && |ws| == QK_K && n <= k.subs
  {
    if n == 0 then 0.0 else Max(TopMin(ws, k, n - 1), SubMin(ws, k, n - 1))
  }

  /** One `factors`-th of the largest value. */
  function Unit(top: real, factors: nat): real
    requires factors > 0
  {
    if top > 0.0 then top / factors as real else 0.0
  }

  /** The super-block scale and minimum, before they are stored as f16. */
  function D(ws: seq<real>, k: Shape): real
    requires IsShape(k) && |ws| == QK_K
  {
    Unit(TopScale(ws, k, k.subs), k.factors)
  }

  function DMin(ws: seq<real>, k: Shape): real
    requires IsShape(k) && |ws| == QK_K
  {
    Unit(TopMin(ws, k, k.subs), k.factors)
  }

  /** A nonnegative value as a factor of d: rounded, and clamped above. */
  function Factor(x: real, d: real, factors: nat): int {
    Min(x * Inverse(d) + 0.5, factors as real).Floor
  }

  function ScaleCode(ws: seq<real>, k: Shape, sub: nat): int
    requires IsShape(k) && |ws| == QK_K && sub < k.subs
  {
    Factor(SubScale(ws, k, sub), D(ws, k), k.factors)
  }

  function MinCode(ws: seq<real>, k: Shape, sub: nat): int
    requires IsShape(k) && |ws| == QK_K && sub < k.subs
  {
    Factor(SubMin(ws, k, sub), DMin(ws, k), k.factors)
  }

  /** The scale and the minimum that the weights of a sub-block are quantised with. */
  function EffScale(ws: seq<real>, k: Shape, sub: nat): real
    requires IsShape(k) && |ws| == QK_K && sub < k.subs
  {
    D(ws, k) * ScaleCode(ws, k, sub) as real
  }

  function EffMin(ws: seq<real>, k: Shape, sub: nat): real
    requires IsShape(k) && |ws| == QK_K && sub < k.subs
  {
    DMin(ws, k) * MinCode(ws, k, sub) as real
  }

  /** The code of a shifted weight at an effective scale. */
  function CodeOf(val: real, scale: real, levels: nat): int {
    Clamp(val * Inverse(scale) + 0.5, 0.0, levels as real).Floor
  }

  function Code(ws: seq<real>, k: Shape, i: nat): int
    requires IsShape(k) && |ws| == QK_K && i < QK_K
  {
    CodeOf(ws[i] + EffMin(ws, k, i / k.size), EffScale(ws, k, i / k.size), k.levels)
  }

  /** The code times the effective scale. */
  function Level(ws: seq<real>, k: Shape, i: nat): real
    requires IsShape(k) && |ws| == QK_K && i < QK_K
  {
    EffScale(ws, k, i / k.size) * Code(ws, k, i) as real
  }

  /** The value a weight is reconstructed as, with the unrounded super-block scale and minimum. */
  function Reconstructed(ws: seq<real>, k: Shape, i: nat): real
    requires IsShape(k) && |ws| == QK_K && i < QK_K
  {
    Level(ws, k, i) - EffMin(ws, k, i / k.size)
  }

  // ----- rounding a factor -----

  lemma FactorBounds(x: real, d: real, factors: nat)
    requires x >= 0.0 && d >= 0.0 && factors > 0
    ensures 0 <= Factor(x, d, factors) <= factors
  {
    if d > 0.0 {
      QuotientNonneg(x, d);
    }
  }

  lemma QuotientNonneg(x: real, d: real)
    requires x >= 0.0 && d > 0.0
    ensures x * Inverse(d) >= 0.0
  {
  }

  /** A value of at most `factors` units is within half a unit of its rounded factor. */
  lemma FactorError(x: real, top: real, factors: nat)
    requires 0.0 <= x <= top && factors > 0
    ensures var d := Unit(top, factors);
            d >= 0.0 && Abs(x - d * Factor(x, d, factors) as real) <= d / 2.0
  {
    var d := Unit(top, factors);
    if top > 0.0 {
      UnitPositive(top, factors);
      var r := x * Inverse(d);
      InverseScales(d, x);
      QuotientNonneg(x, d);
      if r > factors as real {
        ScaleStrict(d, factors as real, r);
      }
      var f := Factor(x, d, factors) as real;
      ScaleHalf(d, r - f);
      assert d * (r - f) == d * r - d * f;
    }
  }

  lemma UnitPositive(top: real, factors: nat)
    requires top > 0.0 && factors > 0
    ensures Unit(top, factors) > 0.0 && Unit(top, factors) * factors as real == top
  {
  }

  // ----- rounding a weight -----

  /** p is half a scale from val at most, or an end of the range from 0 to top that val lies beyond. */
  ghost predicate Rounded(val: real, scale: real, p: real, top: real) {
    || Abs(val - p) <= scale / 2.0
    || (p == 0.0 && val <= 0.0)
    || (p == top && val >= top)
    || (p == 0.0 && top == 0.0)
  }

  /** Rounding val to a code: within half the scale inside the code range; below it the code is 0, above it
      the largest. */
  lemma CodeCases(val: real, scale: real, levels: nat, p: real, top: real)
    requires scale >= 0.0 && levels > 0
    requires p == scale * CodeOf(val, scale, levels) as real && top == scale * levels as real
    ensures 0 <= CodeOf(val, scale, levels) <= levels
    ensures Rounded(val, scale, p, top)
  {
    if scale > 0.0 {
      var t, n := val * Inverse(scale), levels as real;
      InverseScales(scale, val);
      var q := CodeOf(val, scale, levels) as real;
      if t < -0.5 {
        ScaleOrder(scale, t, 0.0);
      } else if t > n + 0.5 {
        ScaleOrder(scale, n, t);
      } else {
        WithinHalf(scale, t, q, val, p);
      }
    }
  }

  /** Rounding val at a scale near s: no further off than half the scale, or than the rounding of scale and
      minimum can have moved the range of val. */
  lemma CodeError(val: real, scale: real, s: real, levels: nat, d: real, dmin: real, p: real, reach: real, slack: real)
    requires scale >= 0.0 && levels > 0 && d >= 0.0 && dmin >= 0.0 && Abs(s - scale) <= d / 2.0
    requires p == scale * CodeOf(val, scale, levels) as real
    requires reach == levels as real * s && slack == levels as real * d
    requires -dmin / 2.0 <= val <= reach + dmin / 2.0
    ensures 0 <= CodeOf(val, scale, levels) <= levels
    ensures Abs(val - p) <= Max(scale / 2.0, (slack + dmin) / 2.0)
  {
    hide CodeOf, Rounded, Max;
    var n := levels as real;
    var top := scale * n;
    CodeCases(val, scale, levels, p, top);
    ScaleOrder(n, s, scale + d / 2.0);
    ScaleOrder(n, 0.0, d);
    Spread(n, scale, d);
    LinearError(val, scale, p, top, reach, slack, dmin);
  }

  lemma Spread(n: real, scale: real, d: real)
    ensures n * (scale + d / 2.0) == scale * n + n * d / 2.0
  {
  }

  lemma LinearError(val: real, scale: real, p: real, top: real, reach: real, slack: real, dmin: real)
    requires Rounded(val, scale, p, top) && -dmin / 2.0 <= val <= reach + dmin / 2.0
    requires reach <= top + slack / 2.0 && slack >= 0.0 && dmin >= 0.0
    ensures Abs(val - p) <= Max(scale / 2.0, (slack + dmin) / 2.0)
  {
  }

  // ----- extremes -----

  lemma {:induction false} MinToBound(ws: seq<real>, lo: nat, n: nat, i: nat)
    requires lo + n <= |ws| && lo <= i < lo + n
    ensures MinTo(ws, lo, n) <= ws[i]
  {
    if i < lo + n - 1 {
      MinToBound(ws, lo, n - 1, i);
    }
  }

  lemma {:induction false} MaxToBound(ws: seq<real>, lo: nat, n: nat, i: nat)
    requires lo + n <= |ws| && lo <= i < lo + n
    ensures ws[i] <= MaxTo(ws, lo, n)
  {
    if i < lo + n - 1 {
      MaxToBound(ws, lo, n - 1, i);
    }
  }

  lemma {:induction false} TopBounds(ws: seq<real>, k: Shape, n: nat, sub: nat)
    requires IsShape(k) && |ws| == QK_K && sub < n <= k.subs
    ensures 0.0 <= SubMin(ws, k, sub) <= TopMin(ws, k, n)
    ensures SubScale(ws, k, sub) <= TopScale(ws, k, n)
  {
    hide SubMin, SubScale;
    if sub < n - 1 {
      TopBounds(ws, k, n - 1, sub);
    } else {
      SubMinNonneg(ws, k, sub);
    }
  }

  lemma SubMinNonneg(ws: seq<real>, k: Shape, sub: nat)
    requires IsShape(k) && |ws| == QK_K && sub < k.subs
    ensures SubMin(ws, k, sub) >= 0.0
  {
  }

  /** The weights of a sub-block lie between -SubMin and levels * SubScale - SubMin. */
  lemma SubRange(ws: seq<real>, k: Shape, sub: nat, i: nat)
    requires IsShape(k) && |ws| == QK_K && sub < k.subs && sub * k.size <= i < sub * k.size + k.size
    ensures -SubMin(ws, k, sub) <= ws[i]
    ensures SubScale(ws, k, sub) >= 0.0
    ensures ws[i] <= k.levels as real * SubScale(ws, k, sub) - SubMin(ws, k, sub)
  {
    var lo := sub * k.size;
    MinToBound(ws, lo, k.size, i);
    MaxToBound(ws, lo, k.size, i);
    var range := MaxTo(ws, lo, k.size) + SubMin(ws, k, sub);
    hide MinTo, MaxTo;
    assert range >= 0.0;
  }

  // ----- the error of a weight -----

  /** Half the step of the weight's sub-block, or the reach of the rounding of the factors. */
  function ErrorBound(ws: seq<real>, k: Shape, i: nat): real
    requires IsShape(k) && |ws| == QK_K && i < QK_K
  {
    Max(EffScale(ws, k, i / k.size) / 2.0, (k.levels as real * D(ws, k) + DMin(ws, k)) / 2.0)
  }

  lemma SubOf(k: Shape, i: nat)
    requires IsShape(k) && i < QK_K
    ensures i / k.size < k.subs && i / k.size * k.size <= i < i / k.size * k.size + k.size
  {
  }

  /** Scale and minimum of a sub-block are within half a unit of what is stored for them. */
  lemma FactorsClose(ws: seq<real>, k: Shape, sub: nat)
    requires IsShape(k) && |ws| == QK_K && sub < k.subs
    ensures D(ws, k) >= 0.0 && DMin(ws, k) >= 0.0
    ensures 0 <= ScaleCode(ws, k, sub) <= k.factors && 0 <= MinCode(ws, k, sub) <= k.factors
    ensures EffScale(ws, k, sub) >= 0.0
    ensures Abs(SubScale(ws, k, sub) - EffScale(ws, k, sub)) <= D(ws, k) / 2.0
    ensures Abs(SubMin(ws, k, sub) - EffMin(ws, k, sub)) <= DMin(ws, k) / 2.0
  {
    hide SubMin, SubScale, TopScale, TopMin, Factor, Unit, Abs;
    SubOf(k, sub * k.size);
    SubRange(ws, k, sub, sub * k.size);
    TopBounds(ws, k, k.subs, sub);
    FactorClose(SubScale(ws, k, sub), TopScale(ws, k, k.subs), k.factors, EffScale(ws, k, sub));
    FactorClose(SubMin(ws, k, sub), TopMin(ws, k, k.subs), k.factors, EffMin(ws, k, sub));
  }

  lemma FactorClose(x: real, top: real, factors: nat, eff: real)
    requires 0.0 <= x <= top && factors > 0
    requires eff == Unit(top, factors) * Factor(x, Unit(top, factors), factors) as real
    ensures Unit(top, factors) >= 0.0 && 0 <= Factor(x, Unit(top, factors), factors) <= factors
    ensures eff >= 0.0 && Abs(x - eff) <= Unit(top, factors) / 2.0
  {
    hide Unit, Factor;
    FactorError(x, top, factors);
    FactorBounds(x, Unit(top, factors), factors);
    ScaleOrder(Unit(top, factors), 0.0, Factor(x, Unit(top, factors), factors) as real);
  }

  /** Every weight is within the bound of its reconstruction, for each of the three formats. */
  lemma WeightError(ws: seq<real>, k: Shape, i: nat)
    requires IsShape(k) && |ws| == QK_K && i < QK_K
    ensures i / k.size < k.subs && 0 <= Code(ws, k, i) <= k.levels
    ensures Abs(ws[i] - Reconstructed(ws, k, i)) <= ErrorBound(ws, k, i)
  {
    hide SubMin, SubScale, D, DMin, EffScale, EffMin, CodeOf, Level, Abs, Max, ErrorBound;
    SubOf(k, i);
    var sub := i / k.size;
    SubRange(ws, k, sub, i);
    FactorsClose(ws, k, sub);
    var s, d, dmin, shift := SubScale(ws, k, sub), D(ws, k), DMin(ws, k), EffMin(ws, k, sub);
    LevelIs(ws, k, i);
    var p, reach, slack := Level(ws, k, i), k.levels as real * s, k.levels as real * d;
    ShiftedRange(ws[i], SubMin(ws, k, sub), shift, reach, dmin);
    CodeError(ws[i] + shift, EffScale(ws, k, sub), s, k.levels, d, dmin, p, reach, slack);
    Reassociate(ws[i], p, shift);
    BoundOf(ws, k, i, slack, dmin);
  }

  lemma LevelIs(ws: seq<real>, k: Shape, i: nat)
    requires IsShape(k) && |ws| == QK_K && i < QK_K && i / k.size < k.subs
    ensures Level(ws, k, i) == EffScale(ws, k, i / k.size) *
            CodeOf(ws[i] + EffMin(ws, k, i / k.size), EffScale(ws, k, i / k.size), k.levels) as real
  {
    hide EffScale, EffMin, CodeOf;
  }

  lemma BoundOf(ws: seq<real>, k: Shape, i: nat, slack: real, dmin: real)
    requires IsShape(k) && |ws| == QK_K && i < QK_K && i / k.size < k.subs
    requires slack == k.levels as real * D(ws, k) && dmin == DMin(ws, k)
    ensures ErrorBound(ws, k, i) == Max(EffScale(ws, k, i / k.size) / 2.0, (slack + dmin) / 2.0)
  {
    hide D, DMin, EffScale;
  }

  lemma ShiftedRange(w: real, m: real, shift: real, reach: real, dmin: real)
    requires -m <= w <= reach - m && Abs(m - shift) <= dmin / 2.0
    ensures -dmin / 2.0 <= w + shift <= reach + dmin / 2.0
  {
  }

  lemma Reassociate(w: real, x: real, y: real)
    ensures Abs(w - (x - y)) == Abs(w + y - x)
  {
  }

  // ----- the ranges are tight -----

  lemma {:induction false} MinAttained(ws: seq<real>, lo: nat, n: nat) returns (i: nat)
    requires lo + n <= |ws| && n > 0 && forall j :: lo <= j < lo + n ==> ws[j] <= F32_MAX
    ensures lo <= i < lo + n && MinTo(ws, lo, n) == ws[i]
  {
    hide F32_MAX;
    i := lo + n - 1;
    if n > 1 {
      var j := MinAttained(ws, lo, n - 1);
      if ws[j] <= ws[i] {
        i := j;
      }
    }
  }

  lemma {:induction false} MaxAttained(ws: seq<real>, lo: nat, n: nat) returns (i: nat)
    requires lo + n <= |ws| && n > 0 && forall j :: lo <= j < lo + n ==> -F32_MAX <= ws[j]
    ensures lo <= i < lo + n && MaxTo(ws, lo, n) == ws[i]
  {
    hide F32_MAX;
    i := lo + n - 1;
    if n > 1 {
      var j := MaxAttained(ws, lo, n - 1);
      if ws[j] >= ws[i] {
        i := j;
      }
    }
  }

  /** For finite f32 weights the range of a sub-block is no wider than it need be: its lower end is zero or a weight,
      and its upper end, if it is not empty, a weight. */
  lemma RangeTight(ws: seq<real>, k: Shape, sub: nat) returns (low: nat, high: nat)
    requires IsShape(k) && |ws| == QK_K && sub < k.subs && forall j :: 0 <= j < QK_K ==> -F32_MAX <= ws[j] <= F32_MAX
    ensures sub * k.size <= low < sub * k.size + k.size <= QK_K && sub * k.size <= high < sub * k.size + k.size
    ensures SubMin(ws, k, sub) == 0.0 || SubMin(ws, k, sub) == -ws[low]
    ensures SubScale(ws, k, sub) == 0.0 || k.levels as real * SubScale(ws, k, sub) - SubMin(ws, k, sub) == ws[high]
  {
    SubOf(k, sub * k.size);
    low := MinAttained(ws, sub * k.size, k.size);
    high := MaxAttained(ws, sub * k.size, k.size);
    hide MinTo, MaxTo, F32_MAX;
  }

  // ----- the factors are used in full -----

  lemma {:induction false} TopAttained(ws: seq<real>, k: Shape, n: nat) returns (sub: nat, sub': nat)
    requires IsShape(k) && |ws| == QK_K && 0 < n <= k.subs
    ensures sub < n && (TopScale(ws, k, n) > 0.0 ==> SubScale(ws, k, sub) == TopScale(ws, k, n))
    ensures sub' < n && (TopMin(ws, k, n) > 0.0 ==> SubMin(ws, k, sub') == TopMin(ws, k, n))
  {
    hide SubScale, SubMin;
    sub, sub' := n - 1, n - 1;
    if n > 1 {
      var s, s' := TopAttained(ws, k, n - 1);
      if TopScale(ws, k, n - 1) > SubScale(ws, k, n - 1) {
        sub := s;
      }
      if TopMin(ws, k, n - 1) > SubMin(ws, k, n - 1) {
        sub' := s';
      }
    }
  }

  lemma TopFactor(top: real, factors: nat)
    requires top > 0.0 && factors > 0
    ensures Factor(top, Unit(top, factors), factors) == factors
  {
    UnitPositive(top, factors);
    var d, f := Unit(top, factors), factors as real;
    assert top * Inverse(d) == f by {
      InverseScales(d, top);
      Cancel(d, top * Inverse(d), f);
    }
  }

  /** Some sub-block has the largest scale factor, and some the largest min factor. */
  lemma FullFactors(ws: seq<real>, k: Shape) returns (sub: nat, sub': nat)
    requires IsShape(k) && |ws| == QK_K
    ensures sub < k.subs && (D(ws, k) > 0.0 ==> ScaleCode(ws, k, sub) == if k == Q2K then 15 else 63)
    ensures sub' < k.subs && (DMin(ws, k) > 0.0 ==> MinCode(ws, k, sub') == if k == Q2K then 15 else 63)
  {
    sub, sub' := TopAttained(ws, k, k.subs);
    var top, low := TopScale(ws, k, k.subs), TopMin(ws, k, k.subs);
    hide TopScale, TopMin, SubScale, SubMin, Factor;
    if top > 0.0 {
      TopFactor(top, k.factors);
    }
    if low > 0.0 {
      TopFactor(low, k.factors);
    }
  }

  // ----- the error in terms of the weights -----

  lemma {:induction false} ExtremesWithin(ws: seq<real>, lo: nat, n: nat)
    requires lo + n <= |ws|
    ensures MinTo(ws, lo, n) >= -Peak(ws) && MaxTo(ws, lo, n) <= Peak(ws)
  {
    hide Peak;
    if n > 0 {
      ExtremesWithin(ws, lo, n - 1);
      PeakBound(ws, lo + n - 1);
    }
  }

  lemma SubWithin(ws: seq<real>, k: Shape, sub: nat)
    requires IsShape(k) && |ws| == QK_K && sub < k.subs
    ensures SubMin(ws, k, sub) <= Peak(ws) && k.levels as real * SubScale(ws, k, sub) <= 2.0 * Peak(ws)
  {
    hide Peak, MinTo, MaxTo;
    ExtremesWithin(ws, sub * k.size, k.size);
  }

  lemma {:induction false} TopsWithin(ws: seq<real>, k: Shape, n: nat)
    requires IsShape(k) && |ws| == QK_K && n <= k.subs
    ensures 0.0 <= TopMin(ws, k, n) <= Peak(ws) && TopScale(ws, k, n) >= 0.0
    ensures k.levels as real * TopScale(ws, k, n) <= 2.0 * Peak(ws)
  {
    hide Peak, SubMin, SubScale;
    if n > 0 {
      TopsWithin(ws, k, n - 1);
      SubWithin(ws, k, n - 1);
    }
  }

  /** A unit times its number of factors is the largest value. */
  lemma UnitTotal(top: real, factors: nat)
    requires top >= 0.0 && factors > 0
    ensures Unit(top, factors) >= 0.0 && Unit(top, factors) * factors as real == top
  {
    if top > 0.0 {
      UnitPositive(top, factors);
    }
  }

  /** Every weight is within its largest magnitude over the number of levels. */
  lemma PeakError(ws: seq<real>, k: Shape, i: nat)
    requires IsShape(k) && |ws| == QK_K && i < QK_K
    ensures ErrorBound(ws, k, i) <= Peak(ws) / k.levels as real
    ensures Abs(ws[i] - Reconstructed(ws, k, i)) <= Peak(ws) / k.levels as real
  {
    hide Peak, TopMin, TopScale, D, DMin, EffScale, Code, Abs, Max, ErrorBound, Reconstructed;
    WeightError(ws, k, i);
    SubOf(k, i);
    TopsWithin(ws, k, k.subs);
    UnitsWithin(ws, k, i / k.size);
    var slack, dmin := k.levels as real * D(ws, k), DMin(ws, k);
    BoundOf(ws, k, i, slack, dmin);
    BoundWithin(k, EffScale(ws, k, i / k.size), TopScale(ws, k, k.subs), D(ws, k), TopMin(ws, k, k.subs), dmin, slack,
                Peak(ws));
  }

  lemma UnitsWithin(ws: seq<real>, k: Shape, sub: nat)
    requires IsShape(k) && |ws| == QK_K && sub < k.subs
    ensures D(ws, k) * k.factors as real == TopScale(ws, k, k.subs)
    ensures DMin(ws, k) * k.factors as real == TopMin(ws, k, k.subs)
    ensures 0.0 <= EffScale(ws, k, sub) <= TopScale(ws, k, k.subs)
  {
    hide TopMin, TopScale, D, DMin, ScaleCode, MinCode, SubMin, SubScale, EffScale, EffMin, Abs;
    UnitTotals(ws, k);
    FactorsClose(ws, k, sub);
    EffIs(ws, k, sub);
    EffBelow(D(ws, k), ScaleCode(ws, k, sub), k.factors, TopScale(ws, k, k.subs), EffScale(ws, k, sub));
  }

  lemma EffIs(ws: seq<real>, k: Shape, sub: nat)
    requires IsShape(k) && |ws| == QK_K && sub < k.subs
    ensures EffScale(ws, k, sub) == D(ws, k) * ScaleCode(ws, k, sub) as real
  {
    hide D, ScaleCode;
  }

  lemma UnitTotals(ws: seq<real>, k: Shape)
    requires IsShape(k) && |ws| == QK_K
    ensures D(ws, k) * k.factors as real == TopScale(ws, k, k.subs)
    ensures DMin(ws, k) * k.factors as real == TopMin(ws, k, k.subs)
  {
    hide TopMin, TopScale, Unit, Peak;
    TopsWithin(ws, k, k.subs);
    UnitTotal(TopScale(ws, k, k.subs), k.factors);
    UnitTotal(TopMin(ws, k, k.subs), k.factors);
  }

  lemma EffBelow(d: real, sc: nat, factors: nat, top: real, eff: real)
    requires d >= 0.0 && sc <= factors && d * factors as real == top && eff == d * sc as real
    ensures eff <= top
  {
    ScaleOrder(d, sc as real, factors as real);
  }

  lemma BoundWithin(k: Shape, eff: real, top: real, d: real, topMin: real, dmin: real, slack: real, peak: real)
    requires IsShape(k) && 0.0 <= eff <= top && d * k.factors as real == top && dmin * k.factors as real == topMin
    requires k.levels as real * top <= 2.0 * peak && 0.0 <= topMin <= peak && slack == k.levels as real * d
    ensures Max(eff / 2.0, (slack + dmin) / 2.0) <= peak / k.levels as real
  {
  }

  // ----- stored scales -----

  /** The reconstruction from stored super-block scales d' and dmin', sub-block factors and a code, as the
      dequantisers compute it. */
  function FromStored(d': real, dmin': real, sc: int, mn: int, q: int): real {
    d' * sc as real * q as real - dmin' * mn as real
  }

  /** What storing d' and dmin' for the exact scale and minimum adds to the error. */
  function StorageError(ws: seq<real>, k: Shape, i: nat, d': real, dmin': real): real
    requires IsShape(k) && |ws| == QK_K && i < QK_K
  {
    var sub := i / k.size;
    StorageGap(D(ws, k), d', ScaleCode(ws, k, sub) * Code(ws, k, i))
    + StorageGap(DMin(ws, k), dmin', MinCode(ws, k, sub))
  }

  /** The bound for a stored block: quantisation, plus the rounding of the two f16 values. */
  lemma StoredWeightError(ws: seq<real>, k: Shape, i: nat, d': real, dmin': real)
    requires IsShape(k) && |ws| == QK_K && i < QK_K
    ensures i / k.size < k.subs
    ensures var w := FromStored(d', dmin', ScaleCode(ws, k, i / k.size), MinCode(ws, k, i / k.size), Code(ws, k, i));
            Abs(ws[i] - w) <= ErrorBound(ws, k, i) + StorageError(ws, k, i, d', dmin')
  {
    hide D, DMin, EffScale, EffMin, ScaleCode, MinCode, Code, Level, ErrorBound, StorageError, FromStored, Abs;
    WeightError(ws, k, i);
    FactorsClose(ws, k, i / k.size);
    StoredGap(ws, k, i, d', dmin');
    Triangle(ws[i], Reconstructed(ws, k, i),
             FromStored(d', dmin', ScaleCode(ws, k, i / k.size), MinCode(ws, k, i / k.size), Code(ws, k, i)));
  }

  lemma StoredGap(ws: seq<real>, k: Shape, i: nat, d': real, dmin': real)
    requires IsShape(k) && |ws| == QK_K && i < QK_K && i / k.size < k.subs
    ensures var w := FromStored(d', dmin', ScaleCode(ws, k, i / k.size), MinCode(ws, k, i / k.size), Code(ws, k, i));
            Abs(Reconstructed(ws, k, i) - w) <= StorageError(ws, k, i, d', dmin')
  {
    hide D, DMin, ScaleCode, MinCode, Code;
    var sc, mn, q := ScaleCode(ws, k, i / k.size), MinCode(ws, k, i / k.size), Code(ws, k, i);
    ProductsGap(D(ws, k), d', DMin(ws, k), dmin', sc, mn, q, Reconstructed(ws, k, i), FromStored(d', dmin', sc, mn, q));
  }

  lemma ProductsGap(d: real, d': real, dmin: real, dmin': real, sc: int, mn: int, q: int, r: real, w: real)
    requires r == d * sc as real * q as real - dmin * mn as real
    requires w == d' * sc as real * q as real - dmin' * mn as real
    ensures Abs(r - w) <= StorageGap(d, d', sc * q) + StorageGap(dmin, dmin', mn)
  {
    hide Abs, StorageGap;
    var level, level' := d * sc as real * q as real, d' * sc as real * q as real;
    var shift, shift' := dmin * mn as real, dmin' * mn as real;
    CodesGap(d, d', sc, q, level, level');
    ProductGap(dmin, dmin', mn, shift, shift');
    GapSum(r, w, level, level', shift, shift', StorageGap(d, d', sc * q), StorageGap(dmin, dmin', mn));
  }

  lemma GapSum(r: real, w: real, a: real, a': real, b: real, b': real, e: real, f: real)
    requires r == a - b && w == a' - b' && Abs(a - a') <= e && Abs(b - b') <= f
    ensures Abs(r - w) <= e + f
  {
  }

  /** The bound with both values rounded to f16: a 2048th of the two parts of the reconstruction on top. */
  function HalfBound(ws: seq<real>, k: Shape, i: nat): real
    requires IsShape(k) && |ws| == QK_K && i < QK_K
  {
    ErrorBound(ws, k, i) + (Level(ws, k, i) + EffMin(ws, k, i / k.size)) / 2048.0
  }

  /** With both values rounded to f16 the storage costs a 2048th of the two parts of the reconstruction. */
  lemma HalfStorage(ws: seq<real>, k: Shape, i: nat, half: real -> real)
    requires IsShape(k) && |ws| == QK_K && i < QK_K
    requires HalfPrecision(half, D(ws, k)) && HalfPrecision(half, DMin(ws, k))
    ensures i / k.size < k.subs
    ensures StorageError(ws, k, i, half(D(ws, k)), half(DMin(ws, k)))
         <= (Level(ws, k, i) + EffMin(ws, k, i / k.size)) / 2048.0
  {
    hide D, DMin, ScaleCode, MinCode, Code, SubScale, SubMin, StorageGap, HalfPrecision, ErrorBound, Reconstructed, Abs,
         EffScale, EffMin, Level;
    SubOf(k, i);
    FactorsClose(ws, k, i / k.size);
    WeightError(ws, k, i);
    var sc, mn, q := ScaleCode(ws, k, i / k.size), MinCode(ws, k, i / k.size), Code(ws, k, i);
    LevelParts(ws, k, i);
    PartsGap(half, D(ws, k), DMin(ws, k), sc, mn, q, Level(ws, k, i), EffMin(ws, k, i / k.size));
  }

  lemma LevelParts(ws: seq<real>, k: Shape, i: nat)
    requires IsShape(k) && |ws| == QK_K && i < QK_K && i / k.size < k.subs
    ensures Level(ws, k, i) == D(ws, k) * ScaleCode(ws, k, i / k.size) as real * Code(ws, k, i) as real
    ensures EffMin(ws, k, i / k.size) == DMin(ws, k) * MinCode(ws, k, i / k.size) as real
  {
    hide D, DMin, ScaleCode, MinCode, Code;
  }

  lemma PartsGap(half: real -> real, d: real, dmin: real, sc: nat, mn: nat, q: nat, level: real, shift: real)
    requires d >= 0.0 && dmin >= 0.0 && HalfPrecision(half, d) && HalfPrecision(half, dmin)
    requires level == d * sc as real * q as real && shift == dmin * mn as real
    ensures StorageGap(d, half(d), sc * q) + StorageGap(dmin, half(dmin), mn) <= (level + shift) / 2048.0
  {
    hide StorageGap, HalfPrecision;
    HalfCodes(half, d, sc, q, level);
    HalfGap(half, dmin, mn, shift);
    ScaleOrder(d, 0.0, sc as real);
    ScaleOrder(d * sc as real, 0.0, q as real);
    ScaleOrder(dmin, 0.0, mn as real);
  }

  /** And in terms of the weights alone. */
  lemma HalfWithin(ws: seq<real>, k: Shape, i: nat)
    requires IsShape(k) && |ws| == QK_K && i < QK_K
    ensures HalfBound(ws, k, i) <= Peak(ws) / k.levels as real + 3.0 * Peak(ws) / 2048.0
  {
    hide Peak, TopMin, TopScale, D, DMin, EffScale, EffMin, Code, MinCode, ScaleCode, SubMin, SubScale, Abs, ErrorBound,
         Reconstructed;
    PeakError(ws, k, i);
    WeightError(ws, k, i);
    SubOf(k, i);
    TopsWithin(ws, k, k.subs);
    FactorsClose(ws, k, i / k.size);
    UnitsWithin(ws, k, i / k.size);
    var top := TopScale(ws, k, k.subs);
    LevelWithin(EffScale(ws, k, i / k.size), Code(ws, k, i), k.levels, top, Level(ws, k, i));
    MinIs(ws, k, i / k.size);
    EffBelow(DMin(ws, k), MinCode(ws, k, i / k.size), k.factors, TopMin(ws, k, k.subs), EffMin(ws, k, i / k.size));
    hide Level;
  }

  lemma LevelWithin(eff: real, q: nat, levels: nat, top: real, level: real)
    requires 0.0 <= eff <= top && q <= levels && level == eff * q as real
    ensures level <= levels as real * top
  {
    var n := levels as real;
    ScaleOrder(eff, q as real, n);
    ScaleOrder(n, eff, top);
  }

  lemma MinIs(ws: seq<real>, k: Shape, sub: nat)
    requires IsShape(k) && |ws| == QK_K && sub < k.subs
    ensures EffMin(ws, k, sub) == DMin(ws, k) * MinCode(ws, k, sub) as real
  {
    hide DMin, MinCode;
  }

  // ----- computing the scales -----

  lemma CodesInRange(ws: seq<real>, k: Shape, sub: nat)
    requires IsShape(k) && |ws| == QK_K && sub < k.subs
    ensures 0 <= ScaleCode(ws, k, sub) <= k.factors < 64 && 0 <= MinCode(ws, k, sub) <= k.factors
  {
    FactorsClose(ws, k, sub);
  }

  /** The first two passes over a chunk: extremes of the sub-blocks, super-block units, sub-block factors. */
  method SubBlockFactors(ws: seq<real>, k: Shape) returns (d: real, dmin: real, sc: seq<bv8>, mn: seq<bv8>)
    requires IsShape(k) && |ws| == QK_K
    ensures d == D(ws, k) && dmin == DMin(ws, k) && |sc| == |mn| == k.subs
    ensures forall sub :: 0 <= sub < k.subs ==>
              sc[sub] == ToByte(ScaleCode(ws, k, sub)) && mn[sub] == ToByte(MinCode(ws, k, sub))
  {
    hide SubScale, SubMin, Factor;
    var subScales, subMins := SubBlockRanges(ws, k);
    var maxScale, maxMin := 0.0, 0.0;
    for sub := 0 to k.subs
      invariant maxScale == TopScale(ws, k, sub) && maxMin == TopMin(ws, k, sub)
    {
      maxScale := Max(maxScale, subScales[sub]);
      maxMin := Max(maxMin, subMins[sub]);
    }
    d := if maxScale > 0.0 then maxScale / k.factors as real else 0.0;
    dmin := if maxMin > 0.0 then maxMin / k.factors as real else 0.0;
    sc := ToFactors(subScales, d, k.factors);
    mn := ToFactors(subMins, dmin, k.factors);
  }

  method SubBlockRanges(ws: seq<real>, k: Shape) returns (scales: seq<real>, mins: seq<real>)
    requires IsShape(k) && |ws| == QK_K
    ensures |scales| == |mins| == k.subs
    ensures forall t :: 0 <= t < k.subs ==> scales[t] == SubScale(ws, k, t) && mins[t] == SubMin(ws, k, t)
  {
    hide MinTo, MaxTo;
    scales, mins := [], [];
    for sub := 0 to k.subs
      invariant |scales| == |mins| == sub
      invariant forall t :: 0 <= t < sub ==> scales[t] == SubScale(ws, k, t) && mins[t] == SubMin(ws, k, t)
    {
      SubOf(k, sub * k.size);
      var smin, smax := Extremes(ws, sub * k.size, k.size);
      var subMin := if smin < 0.0 then -smin else 0.0;
      var range := smax + subMin;
      scales := scales + [if range > 0.0 then range / k.levels as real else 0.0];
      mins := mins + [subMin];
    }
  }

  method Extremes(ws: seq<real>, lo: nat, n: nat) returns (smin: real, smax: real)
    requires lo + n <= |ws|
    ensures smin == MinTo(ws, lo, n) && smax == MaxTo(ws, lo, n)
  {
    smin, smax := F32_MAX, -F32_MAX;
    for j := 0 to n
      invariant smin == MinTo(ws, lo, j) && smax == MaxTo(ws, lo, j)
    {
      var v := ws[lo + j];
      if v < smin {
        smin := v;
      }
      if v > smax {
        smax := v;
      }
    }
  }

  method ToFactors(xs: seq<real>, d: real, factors: nat) returns (fs: seq<bv8>)
    ensures |fs| == |xs| && forall t :: 0 <= t < |xs| ==> fs[t] == ToByte(Factor(xs[t], d, factors))
  {
    hide ToByte, Factor;
    var invD := if d > 0.0 then 1.0 / d else 0.0;
    fs := [];
    for sub := 0 to |xs|
      invariant |fs| == sub && forall t :: 0 <= t < sub ==> fs[t] == ToByte(Factor(xs[t], d, factors))
    {
      var f := RoundFactor(xs[sub], d, invD, factors);
      fs := fs + [ToByte(f)];
    }
  }

  method RoundFactor(x: real, ghost d: real, invD: real, factors: nat) returns (f: int)
    requires invD == if d > 0.0 then 1.0 / d else 0.0
    ensures f == Factor(x, d, factors)
  {
    f := Min(x * invD + 0.5, factors as real).Floor;
  }
}
