/** The two-level symmetric quantiser shared by Q3_K and Q6_K, over exact reals, with the exact condition under
    which its error bound holds. */
module Symmetric {
  import opened Rounding

  const SUBS := 16
  const SUB_SIZE := 16

  /** The f32 constant 1e-9, below which an effective scale is not inverted. */
  const GUARD := 9007199.0 / 9007199254740992.0

  /** Codes from -(top + 1) to top, sub-block factors clamped to -low .. factors. */
  datatype Shape = Shape(top: nat, factors: nat, low: nat)

  const Q3K := Shape(3, 7, 8)
  const Q6K := Shape(31, 127, 127)

  predicate IsShape(k: Shape) {
    k == Q3K || k == Q6K
  }

  function ClampInt(x: int, lo: int, hi: int): int {
    if x < lo then lo else if x > hi then hi else x
  }

  // ----- what is computed -----

  function SubMax(ws: seq<real>, sub: nat): (m: real)
    requires |ws| == QK_K && sub < SUBS
    ensures m >= 0.0
  {
    AbsMax(ws, SUB_SIZE * sub, SUB_SIZE)
  }

  function Overall(ws: seq<real>, n: nat): (m: real)
    requires |ws| == QK_K && n <= SUBS
    ensures m >= 0.0
  {
    if n == 0 then 0.0 else Max(Overall(ws, n - 1), SubMax(ws, n - 1))
  }

  /** The super-block scale, before it is stored as f16. */
  function D(ws: seq<real>, k: Shape): real
    requires IsShape(k) && |ws| == QK_K
  {
    if Overall(ws, SUBS) > 0.0 then Overall(ws, SUBS) / (k.top * k.factors) as real else 0.0
  }

  /** A largest magnitude in units of top * d, given the reciprocal of d. */
  function InUnits(max: real, inv: real, k: Shape): real {
    if k.top == 0 then 0.0 else max * inv / k.top as real
  }

  /** A largest magnitude as a multiple of top * d. */
  function FactorOf(max: real, d: real, k: Shape): int {
    ClampInt(Round(InUnits(max, Inverse(d), k)), 0 - k.low, k.factors)
  }

  function Factor(ws: seq<real>, k: Shape, sub: nat): int
    requires IsShape(k) && |ws| == QK_K && sub < SUBS
  {
    FactorOf(SubMax(ws, sub), D(ws, k), k)
  }

  function Eff(ws: seq<real>, k: Shape, sub: nat): real
    requires IsShape(k) && |ws| == QK_K && sub < SUBS
  {
    D(ws, k) * Factor(ws, k, sub) as real
  }

  function GuardedInverse(e: real): real {
    if Abs(e) > GUARD then 1.0 / e else 0.0
  }

  function Quotient(w: real, eff: real): real {
    w * GuardedInverse(eff)
  }

  /** The code from the rounded quotient. */
  function Centred(r: int, top: nat): int {
    ClampInt(r + (top + 1), 0, 2 * top + 1) - (top + 1)
  }

  /** The centred code of a weight at an effective scale. */
  function CodeOf(w: real, eff: real, top: nat): int {
    Centred(Round(Quotient(w, eff)), top)
  }

  function Code(ws: seq<real>, k: Shape, i: nat): int
    requires IsShape(k) && |ws| == QK_K && i < QK_K
  {
    CodeOf(ws[i], Eff(ws, k, i / SUB_SIZE), k.top)
  }

  function Reconstructed(ws: seq<real>, k: Shape, i: nat): real
    requires IsShape(k) && |ws| == QK_K && i < QK_K
  {
    Eff(ws, k, i / SUB_SIZE) * Code(ws, k, i) as real
  }

  /** How far rounding the factor can leave the range of the codes. */
  function Reach(ws: seq<real>, k: Shape): real
    requires IsShape(k) && |ws| == QK_K
  {
    D(ws, k) * (k.top as real / 2.0)
  }

  function ErrorBound(ws: seq<real>, k: Shape, sub: nat): real
    requires IsShape(k) && |ws| == QK_K && sub < SUBS
  {
    Max(Eff(ws, k, sub) / 2.0, Reach(ws, k))
  }

  // ----- extremes -----

  lemma {:induction false} OverallBound(ws: seq<real>, n: nat, sub: nat)
    requires |ws| == QK_K && sub < n <= SUBS
    ensures SubMax(ws, sub) <= Overall(ws, n)
  {
    hide SubMax;
    if sub < n - 1 {
      OverallBound(ws, n - 1, sub);
    }
  }

  // ----- rounding -----

  lemma RoundNear(x: real)
    ensures Abs(x - Round(x) as real) <= 0.5
    ensures x >= 0.0 ==> Round(x) >= 0
    ensures x < 0.0 ==> Round(x) <= 0
  {
  }

  /** The factor of a sub-block is in range, and within half a unit of the largest magnitude. */
  lemma FactorClose(ws: seq<real>, k: Shape, sub: nat)
    requires IsShape(k) && |ws| == QK_K && sub < SUBS
    ensures D(ws, k) >= 0.0 && 0 <= Factor(ws, k, sub) <= k.factors
    ensures Eff(ws, k, sub) >= 0.0 && Reach(ws, k) >= 0.0
    ensures Abs(SubMax(ws, sub) - k.top as real * Eff(ws, k, sub)) <= Reach(ws, k)
    ensures D(ws, k) == 0.0 ==> SubMax(ws, sub) == 0.0 && Factor(ws, k, sub) == 0
  {
    hide SubMax, Overall, FactorOf;
    OverallBound(ws, SUBS, sub);
    UnitFactor(SubMax(ws, sub), Overall(ws, SUBS), D(ws, k), k, Eff(ws, k, sub));
  }

  lemma UnitFactor(max: real, overall: real, d: real, k: Shape, eff: real)
    requires IsShape(k) && 0.0 <= max <= overall
    requires d == if overall > 0.0 then overall / (k.top * k.factors) as real else 0.0
    requires eff == d * FactorOf(max, d, k) as real
    ensures d >= 0.0 && eff >= 0.0 && d * (k.top as real / 2.0) >= 0.0 && 0 <= FactorOf(max, d, k) <= k.factors
    ensures Abs(max - k.top as real * eff) <= d * (k.top as real / 2.0)
    ensures d == 0.0 ==> max == 0.0 && FactorOf(max, d, k) == 0
  {
    hide FactorOf;
    if overall == 0.0 {
      NoScale(max, k);
    } else if k == Q3K {
      FactorQ3(max, overall, d, eff);
    } else {
      FactorQ6(max, overall, d, eff);
    }
  }

  lemma NoScale(max: real, k: Shape)
    requires IsShape(k)
    ensures FactorOf(max, 0.0, k) == 0
  {
    RoundOfZero(InUnits(max, Inverse(0.0), k));
  }

  lemma FactorQ3(max: real, overall: real, d: real, eff: real)
    requires 0.0 <= max <= overall && overall > 0.0 && d == overall / 21.0
    requires eff == d * FactorOf(max, d, Q3K) as real
    ensures 0 <= FactorOf(max, d, Q3K) <= 7 && eff >= 0.0
    ensures Abs(max - 3.0 * eff) <= d * 1.5
  {
    var r, n := InUnits(max, Inverse(d), Q3K), FactorOf(max, d, Q3K);
    UnitsQuotient(max, d, Q3K);
    hide InUnits, Inverse, Round, FactorOf;
    QuotientBound(d, r, 7.0);
    FactorNear(max, d, Q3K);
    ScaledHalf(d, r, n as real, d * r, eff);
  }

  lemma FactorQ6(max: real, overall: real, d: real, eff: real)
    requires 0.0 <= max <= overall && overall > 0.0 && d == overall / 3937.0
    requires eff == d * FactorOf(max, d, Q6K) as real
    ensures 0 <= FactorOf(max, d, Q6K) <= 127 && eff >= 0.0
    ensures Abs(max - 31.0 * eff) <= d * 15.5
  {
    var r, n := InUnits(max, Inverse(d), Q6K), FactorOf(max, d, Q6K);
    UnitsQuotient(max, d, Q6K);
    hide InUnits, Inverse, Round, FactorOf;
    QuotientBound(d, r, 127.0);
    FactorNear(max, d, Q6K);
    ScaledHalf(d, r, n as real, d * r, eff);
  }

  lemma UnitsQuotient(max: real, d: real, k: Shape)
    requires IsShape(k) && d > 0.0 && max >= 0.0
    ensures max == k.top as real * (d * InUnits(max, Inverse(d), k)) && InUnits(max, Inverse(d), k) >= 0.0
  {
    hide Inverse;
    ScaledQuotient(max, d, k.top as real, InUnits(max, Inverse(d), k));
  }

  /** A factor that is in range unrounded is not clamped. */
  lemma FactorNear(max: real, d: real, k: Shape)
    requires IsShape(k) && 0.0 <= InUnits(max, Inverse(d), k) <= k.factors as real
    ensures 0 <= FactorOf(max, d, k) <= k.factors
    ensures Abs(InUnits(max, Inverse(d), k) - FactorOf(max, d, k) as real) <= 0.5
  {
    hide InUnits, Inverse;
    RoundNear(InUnits(max, Inverse(d), k));
  }

  lemma ScaledQuotient(max: real, d: real, top: real, r: real)
    requires d > 0.0 && top > 0.0 && max >= 0.0 && r == max * Inverse(d) / top
    ensures max == top * (d * r) && r >= 0.0
  {
    InverseScales(d, max);
    assert top * r == max * Inverse(d);
    assert top * (d * r) == d * (top * r);
  }

  /** d * r at most bound * d gives r at most bound. */
  lemma QuotientBound(d: real, r: real, bound: real)
    requires d > 0.0 && d * r <= d * bound
    ensures r <= bound
  {
    if r > bound {
      ScaleStrict(d, bound, r);
    }
  }

  lemma ScaledHalf(d: real, r: real, f: real, dr: real, df: real)
    requires d >= 0.0 && Abs(r - f) <= 0.5 && dr == d * r && df == d * f && f >= 0.0
    ensures Abs(dr - df) <= d / 2.0 && df >= 0.0
  {
    ScaleHalf(d, r - f);
    assert d * (r - f) == d * r - d * f;
    ScaleOrder(d, 0.0, f);
  }

  // ----- one weight -----

  /** Above the guard, a weight of magnitude at most top * eff + reach is within half the scale or the reach. */
  lemma CodeClose(w: real, eff: real, top: nat, p: real, span: real, reach: real)
    requires eff > GUARD && p == eff * CodeOf(w, eff, top) as real && span == top as real * eff
    requires Abs(w) <= span + reach && reach >= 0.0
    ensures Abs(w - p) <= Max(eff / 2.0, reach)
  {
    hide Round, Centred, Quotient, Max, Abs, GUARD;
    QuotientScales(w, eff);
    QuotientClose(w, eff, top, Quotient(w, eff), Round(Quotient(w, eff)), p, span, reach);
  }

  lemma QuotientScales(w: real, eff: real)
    requires eff > GUARD
    ensures eff > 0.0 && w == eff * Quotient(w, eff)
  {
    GuardPositive();
    hide GUARD;
    InverseScales(eff, w);
  }

  lemma GuardPositive()
    ensures GUARD > 0.0
  {
  }

  lemma QuotientClose(w: real, eff: real, top: nat, t: real, r: int, p: real, span: real, reach: real)
    requires eff > 0.0 && w == eff * t && r == Round(t)
    requires p == eff * Centred(r, top) as real && span == top as real * eff
    requires Abs(w) <= span + reach && reach >= 0.0
    ensures Abs(w - p) <= Max(eff / 2.0, reach)
  {
    RoundNear(t);
    hide Round, Max;
    MaxAbove(eff / 2.0, reach);
    if r > top {
      HighEnd(eff, top as real, t, w, p, span, reach);
    } else if r < -(top as int + 1) {
      LowEnd(eff, top as real, t, w, p, span, reach);
    } else {
      WithinHalf(eff, t, r as real, w, p);
    }
  }

  lemma MaxAbove(x: real, y: real)
    ensures Max(x, y) >= x && Max(x, y) >= y
  {
  }

  lemma HighEnd(eff: real, top: real, t: real, w: real, p: real, span: real, reach: real)
    requires eff > 0.0 && w == eff * t && p == eff * top && span == top * eff && t >= top
    requires Abs(w) <= span + reach
    ensures Abs(w - p) <= reach
  {
    ScaleOrder(eff, top, t);
  }

  lemma LowEnd(eff: real, top: real, t: real, w: real, p: real, span: real, reach: real)
    requires eff > 0.0 && w == eff * t && p == eff * (-top - 1.0) && span == top * eff && t <= -top - 1.0
    requires Abs(w) <= span + reach
    ensures Abs(w - p) <= reach
  {
    ScaleOrder(eff, t, -top - 1.0);
  }

  /** At or below the guard every weight becomes zero. */
  lemma GuardZeroes(w: real, eff: real, top: nat)
    requires 0.0 <= eff <= GUARD
    ensures CodeOf(w, eff, top) == 0
  {
    hide Round;
    QuotientZero(w, eff);
    RoundOfZero(Quotient(w, eff));
  }

  lemma QuotientZero(w: real, eff: real)
    requires 0.0 <= eff <= GUARD
    ensures Quotient(w, eff) == 0.0
  {
    ProductWithZero(w, GuardedInverse(eff));
  }

  lemma ProductWithZero(w: real, z: real)
    requires z == 0.0
    ensures w * z == 0.0
  {
  }

  lemma RoundOfZero(x: real)
    requires x == 0.0
    ensures Round(x) == 0
  {
  }

  lemma CodeInRange(ws: seq<real>, k: Shape, i: nat)
    requires IsShape(k) && |ws| == QK_K && i < QK_K
    ensures -(k.top as int) - 1 <= Code(ws, k, i) <= k.top
  {
    hide Round, Quotient, Eff;
  }

  // ----- the exact condition -----

  /** The effective scale is zero or inverted, or the guard happens to lose nothing. */
  ghost predicate GuardHarmless(ws: seq<real>, k: Shape, sub: nat)
    requires IsShape(k) && |ws| == QK_K && sub < SUBS
  {
    Factor(ws, k, sub) == 0 || Eff(ws, k, sub) > GUARD || SubMax(ws, sub) == Reach(ws, k)
  }

  lemma InSub(sub: nat, i: nat)
    requires sub < SUBS && SUB_SIZE * sub <= i < SUB_SIZE * sub + SUB_SIZE
    ensures i < QK_K && i / SUB_SIZE == sub
  {
  }

  /** If the guard is harmless, every weight of the sub-block is within the bound. */
  lemma WeightError(ws: seq<real>, k: Shape, i: nat)
    requires IsShape(k) && |ws| == QK_K && i < QK_K && GuardHarmless(ws, k, i / SUB_SIZE)
    ensures Abs(ws[i] - Reconstructed(ws, k, i)) <= ErrorBound(ws, k, i / SUB_SIZE)
  {
    hide D, Factor, Eff, Reach, CodeOf, SubMax;
    var sub := i / SUB_SIZE;
    SubMaxBound(ws, i);
    FactorClose(ws, k, sub);
    var eff, p := Eff(ws, k, sub), Reconstructed(ws, k, i);
    if eff > GUARD {
      var span := k.top as real * eff;
      CodeClose(ws[i], eff, k.top, p, span, Reach(ws, k));
    } else {
      GuardZeroes(ws[i], eff, k.top);
      if Factor(ws, k, sub) == 0 {
        EffOfZero(ws, k, sub);
      }
    }
  }

  lemma SubMaxBound(ws: seq<real>, i: nat)
    requires |ws| == QK_K && i < QK_K
    ensures Abs(ws[i]) <= SubMax(ws, i / SUB_SIZE)
  {
    AbsMaxBound(ws, SUB_SIZE * (i / SUB_SIZE), SUB_SIZE, i);
  }

  lemma EffOfZero(ws: seq<real>, k: Shape, sub: nat)
    requires IsShape(k) && |ws| == QK_K && sub < SUBS && Factor(ws, k, sub) == 0
    ensures Eff(ws, k, sub) == 0.0
  {
    hide D;
  }

  /** If it is not, the largest weight of the sub-block is beyond the bound: all are reconstructed as zero. */
  lemma GuardBreaksBound(ws: seq<real>, k: Shape, sub: nat) returns (i: nat)
    requires IsShape(k) && |ws| == QK_K && sub < SUBS && !GuardHarmless(ws, k, sub)
    ensures i < QK_K && i / SUB_SIZE == sub && Reconstructed(ws, k, i) == 0.0
    ensures Abs(ws[i] - Reconstructed(ws, k, i)) > ErrorBound(ws, k, sub)
  {
    hide D, Factor, Eff, Reach, CodeOf;
    FactorClose(ws, k, sub);
    i := AbsMaxAttained(ws, SUB_SIZE * sub, SUB_SIZE);
    InSub(sub, i);
    GuardZeroes(ws[i], Eff(ws, k, sub), k.top);
    LargestBeyond(ws, k, sub);
  }

  lemma LargestBeyond(ws: seq<real>, k: Shape, sub: nat)
    requires IsShape(k) && |ws| == QK_K && sub < SUBS && !GuardHarmless(ws, k, sub)
    ensures SubMax(ws, sub) > ErrorBound(ws, k, sub)
  {
    hide D, Factor, SubMax, Eff, Reach, Max;
    FactorClose(ws, k, sub);
    EffUnits(ws, k, sub);
    MaxOf(Eff(ws, k, sub) / 2.0, Reach(ws, k));
  }

  lemma EffUnits(ws: seq<real>, k: Shape, sub: nat)
    requires IsShape(k) && |ws| == QK_K && sub < SUBS && Factor(ws, k, sub) >= 1 && D(ws, k) > 0.0
    ensures Reach(ws, k) == D(ws, k) * (if k == Q3K then 1.5 else 15.5)
    ensures Factor(ws, k, sub) == 1 ==> Eff(ws, k, sub) == D(ws, k)
    ensures Factor(ws, k, sub) >= 2 ==> Eff(ws, k, sub) >= 2.0 * D(ws, k)
  {
    hide D, Factor;
    if Factor(ws, k, sub) >= 2 {
      ScaleOrder(D(ws, k), 2.0, Factor(ws, k, sub) as real);
    }
  }

  lemma MaxOf(x: real, y: real)
    ensures Max(x, y) == x || Max(x, y) == y
  {
  }

  /** The bound holds for a whole chunk exactly if the guard is harmless in each of its sub-blocks. */
  lemma BoundExact(ws: seq<real>, k: Shape)
    requires IsShape(k) && |ws| == QK_K
    ensures (forall i :: 0 <= i < QK_K ==> Abs(ws[i] - Reconstructed(ws, k, i)) <= ErrorBound(ws, k, i / SUB_SIZE))
       <==> (forall sub :: 0 <= sub < SUBS ==> GuardHarmless(ws, k, sub))
  {
    hide GuardHarmless, Reconstructed, ErrorBound, Abs;
    if forall sub :: 0 <= sub < SUBS ==> GuardHarmless(ws, k, sub) {
      forall i | 0 <= i < QK_K
        ensures Abs(ws[i] - Reconstructed(ws, k, i)) <= ErrorBound(ws, k, i / SUB_SIZE)
      {
        WeightError(ws, k, i);
      }
    } else {
      var sub :| 0 <= sub < SUBS && !GuardHarmless(ws, k, sub);
      var i := GuardBreaksBound(ws, k, sub);
    }
  }

  // ----- the error in terms of the weights -----

  lemma AbsMaxWithin(ws: seq<real>, lo: nat, n: nat)
    requires lo + n <= |ws|
    ensures AbsMax(ws, lo, n) <= Peak(ws)
  {
    if n > 0 {
      var i := AbsMaxAttained(ws, lo, n);
      PeakBound(ws, i);
    }
  }

  lemma {:induction false} OverallWithin(ws: seq<real>, n: nat)
    requires |ws| == QK_K && n <= SUBS
    ensures Overall(ws, n) <= Peak(ws)
  {
    hide Peak;
    if n > 0 {
      OverallWithin(ws, n - 1);
      AbsMaxWithin(ws, SUB_SIZE * (n - 1), SUB_SIZE);
    }
  }

  lemma EffWithin(ws: seq<real>, k: Shape, sub: nat)
    requires IsShape(k) && |ws| == QK_K && sub < SUBS
    ensures 0.0 <= Eff(ws, k, sub) <= Peak(ws) / k.top as real
    ensures 0.0 <= Reach(ws, k) <= Peak(ws) / (2.0 * k.factors as real)
  {
    hide Overall, Factor, Peak, SubMax, D, Eff, Reach;
    OverallWithin(ws, SUBS);
    FactorClose(ws, k, sub);
    UnitsAre(ws, k, sub);
    var d, factors := D(ws, k), k.factors as real;
    ScaleOrder(d, Factor(ws, k, sub) as real, factors);
    BelowAt(Overall(ws, SUBS), d, Eff(ws, k, sub), d * factors, Reach(ws, k), Peak(ws), k.top as real, factors);
  }

  lemma UnitsAre(ws: seq<real>, k: Shape, sub: nat)
    requires IsShape(k) && |ws| == QK_K && sub < SUBS
    ensures D(ws, k) == if Overall(ws, SUBS) > 0.0 then Overall(ws, SUBS) / (k.top as real * k.factors as real)
                        else 0.0
    ensures Eff(ws, k, sub) == D(ws, k) * Factor(ws, k, sub) as real && Reach(ws, k) == D(ws, k) * (k.top as real / 2.0)
  {
    hide Overall, Factor;
  }

  lemma BelowAt(overall: real, d: real, eff: real, hi: real, reach: real, peak: real, top: real, factors: real)
    requires (top == 3.0 && factors == 7.0) || (top == 31.0 && factors == 127.0)
    requires 0.0 <= overall <= peak && d == (if overall > 0.0 then overall / (top * factors) else 0.0)
    requires eff <= hi == d * factors && reach == d * (top / 2.0)
    ensures eff <= peak / top && reach <= peak / (2.0 * factors)
  {
    if top == 3.0 {
      assert d == overall / 21.0 && hi == d * 7.0 && reach == d * 1.5;
    } else {
      assert d == overall / 3937.0 && hi == d * 127.0 && reach == d * 15.5;
    }
  }

  /** Every weight is within half a level of the largest magnitude, and a guarded one within the guard's reach. */
  lemma PeakError(ws: seq<real>, k: Shape, i: nat)
    requires IsShape(k) && |ws| == QK_K && i < QK_K
    ensures ErrorBound(ws, k, i / SUB_SIZE) <= Peak(ws) / (2.0 * k.top as real)
    ensures Abs(ws[i] - Reconstructed(ws, k, i)) <= Peak(ws) / (2.0 * k.top as real) +
            if GuardHarmless(ws, k, i / SUB_SIZE) then 0.0 else k.top as real * 0.000000001
  {
    hide Peak, D, Factor, Eff, Reach, CodeOf, SubMax, Abs, GUARD;
    var sub := i / SUB_SIZE;
    EffWithin(ws, k, sub);
    WithinHalfLevel(k, Eff(ws, k, sub), Reach(ws, k), Peak(ws));
    if GuardHarmless(ws, k, sub) {
      WeightError(ws, k, i);
    } else {
      FactorClose(ws, k, sub);
      SubMaxBound(ws, i);
      GuardZeroes(ws[i], Eff(ws, k, sub), k.top);
      GuardedWeight(k, ws[i], SubMax(ws, sub), Eff(ws, k, sub), Reach(ws, k));
      assert Reconstructed(ws, k, i) == 0.0;
    }
  }

  lemma WithinHalfLevel(k: Shape, eff: real, reach: real, peak: real)
    requires IsShape(k) && eff <= peak / k.top as real && 0.0 <= reach <= peak / (2.0 * k.factors as real)
    ensures Max(eff / 2.0, reach) <= peak / (2.0 * k.top as real) && reach <= peak / (2.0 * k.top as real)
  {
  }

  lemma GuardedWeight(k: Shape, w: real, max: real, eff: real, reach: real)
    requires IsShape(k) && Abs(w) <= max && 0.0 <= eff <= GUARD && Abs(max - k.top as real * eff) <= reach
    ensures Abs(w - 0.0) <= reach + k.top as real * 0.000000001
  {
  }

  /** A reconstructed weight is at most one level beyond the largest magnitude. */
  lemma ReconstructedWithin(ws: seq<real>, k: Shape, i: nat)
    requires IsShape(k) && |ws| == QK_K && i < QK_K
    ensures 3.0 * Abs(Reconstructed(ws, k, i)) <= 4.0 * Peak(ws)
  {
    hide Peak, Eff, Abs, Code;
    EffWithin(ws, k, i / SUB_SIZE);
    CodeInRange(ws, k, i);
    CodeWithin(k, Eff(ws, k, i / SUB_SIZE), Code(ws, k, i), Reconstructed(ws, k, i), Peak(ws));
  }

  lemma CodeWithin(k: Shape, eff: real, q: int, p: real, peak: real)
    requires IsShape(k) && 0.0 <= eff <= peak / k.top as real && -(k.top as int) - 1 <= q <= k.top
    requires p == eff * q as real
    ensures 3.0 * Abs(p) <= 4.0 * peak
  {
    if k == Q3K {
      assert eff <= peak / 3.0;
      Bounded(eff, q as real, 4.0, p, eff * 4.0);
    } else {
      assert eff <= peak / 31.0;
      Bounded(eff, q as real, 32.0, p, eff * 32.0);
    }
  }

  lemma Bounded(eff: real, x: real, n: real, p: real, hi: real)
    requires eff >= 0.0 && -n <= x <= n && p == eff * x && hi == eff * n
    ensures Abs(p) <= hi
  {
    ScaleOrder(eff, x, n);
    ScaleOrder(eff, -x, n);
    Opposite(eff, x);
  }

  lemma Opposite(a: real, b: real)
    ensures a * -b == -(a * b)
  {
  }

  // ----- the scale in terms of the weights -----

  lemma EqualFactor(v: real, d: real, k: Shape, factors: real)
    requires IsShape(k) && d > 0.0 && factors == k.factors as real && v == d * factors * k.top as real
    ensures FactorOf(v, d, k) == k.factors
  {
    var r := v * Inverse(d) / k.top as real;
    InverseScales(d, v);
    assert d * (r * k.top as real) == d * (factors * k.top as real);
    Cancel(d, r * k.top as real, factors * k.top as real);
    assert r == factors;
  }

  lemma OverallIsPeak(ws: seq<real>)
    requires |ws| == QK_K
    ensures Overall(ws, SUBS) == Peak(ws)
  {
    hide Overall, SubMax, Peak;
    OverallWithin(ws, SUBS);
    var i := PeakAttained(ws);
    SubMaxBound(ws, i);
    OverallBound(ws, SUBS, i / SUB_SIZE);
  }

  /** The scale makes the sub-block of the largest magnitude use the largest factor. */
  lemma FullFactor(ws: seq<real>, k: Shape, i: nat)
    requires IsShape(k) && |ws| == QK_K && i < QK_K && Abs(ws[i]) == Peak(ws) > 0.0
    ensures D(ws, k) == Peak(ws) / (if k == Q3K then 21.0 else 3937.0)
    ensures Factor(ws, k, i / SUB_SIZE) == if k == Q3K then 7 else 127
  {
    hide Overall, SubMax, Peak, FactorOf;
    OverallIsPeak(ws);
    SubMaxBound(ws, i);
    OverallBound(ws, SUBS, i / SUB_SIZE);
    if k == Q3K {
      EqualFactor(Peak(ws), Peak(ws) / 21.0, k, 7.0);
    } else {
      EqualFactor(Peak(ws), Peak(ws) / 3937.0, k, 127.0);
    }
  }
}
