/** The scalar FP8 codecs on f32 bit patterns. A magnitude is an integer multiple of 2^-149, the smallest
    positive f32, so every finite f32 and every FP8 value is exact. */
module Fp8 {
  import opened Bits

  type F32 = x: int | 0 <= x < 0x1_0000_0000

  // ----- f32 -----

  function Negative(x: F32): bool {
    x / 0x8000_0000 == 1
  }

  function Exp(x: F32): nat {
    x / 0x80_0000 % 256
  }

  function Man(x: F32): nat {
    x % 0x80_0000
  }

  predicate IsNan(x: F32) {
    Exp(x) == 255 && Man(x) != 0
  }

  predicate IsInfinite(x: F32) {
    Exp(x) == 255 && Man(x) == 0
  }

  predicate IsFinite(x: F32) {
    Exp(x) != 255
  }

  /** |x| in units of 2^-149. */
  function Mag(x: F32): nat
    requires IsFinite(x)
  {
    if Exp(x) == 0 then Man(x) else (0x80_0000 + Man(x)) * Pow2(Exp(x) - 1)
  }

  /** 1.0 in units of 2^-149. */
  function One(): (u: nat)
    ensures u > 0
  {
    Pow2(149)
  }

  // ----- FP8 formats -----

  /** `mb` mantissa bits; the subnormal step is 2^qe units; the finite codes are 0 to `last`. */
  datatype Format = Format(mb: nat, qe: nat, last: nat)

  const E4M3 := Format(3, 140, 0x7e)
  const E5M2 := Format(2, 133, 0x7b)

  /** The magnitude of a sign-less code. */
  function Value(f: Format, c: nat): nat {
    var m := Pow2(f.mb);
    if c < m then c * Pow2(f.qe) else (m + c % m) * Pow2(c / m - 1 + f.qe)
  }

  function Dist(x: nat, y: nat): nat {
    if x <= y then y - x else x - y
  }

  /** c is the code of the finite value nearest to x, the even code at a tie
      (roundTiesToEven, section 4.3.1 of IEEE 754-2019). */
  ghost predicate NearestEven(f: Format, x: nat, c: nat) {
    && c <= f.last
    && forall c' :: 0 <= c' <= f.last ==>
          && Dist(x, Value(f, c)) <= Dist(x, Value(f, c'))
          && (c' != c && Dist(x, Value(f, c)) == Dist(x, Value(f, c')) ==> c % 2 == 0)
  }

  // ----- the encoders -----

  /** The f32 constant 1e-9, in units of 2^-149: its exact value is 9007199 * 2^-53. */
  function Tolerance(): nat {
    9007199 * Pow2(96)
  }

  /** The subnormal path: `scaled` is the magnitude divided by the subnormal step, in units of 2^-149. */
  function RoundScaled(scaled: nat): nat {
    hide Pow2, One, Tolerance;
    var manInt := scaled / One();
    var frac := scaled % One();
    var half := Pow2(148);
    if frac > half then manInt + 1
    else if Dist(frac, half) < Tolerance() then
      if manInt % 2 == 1 then manInt + 1 else manInt
    else manInt
  }

  function E4M3Encode(x: F32): (b: Byte) {
    if IsNan(x) then 0x7f
    else
      var sign := if Negative(x) then 0x80 else 0;
      if IsInfinite(x) then sign + 0x7e
      else if Mag(x) == 0 then sign
      else if Mag(x) >= 448 * One() then sign + 0x7e
      else sign + E4M3Finite(x)
  }

  /** The code of a nonzero magnitude below 448. */
  function E4M3Finite(x: F32): (c: nat)
    requires IsFinite(x)
    ensures c < 0x80
  {
    var e := Exp(x) - 120;
    if e >= 1 then
      var expClamped := if e < 15 then e else 15;
      var man3 := Man(x) / 0x10_0000;
      var roundBit := Man(x) / 0x8_0000 % 2;
      var stickyBits := Man(x) % 0x8_0000;
      var roundUp := roundBit == 1 && (stickyBits != 0 || man3 % 2 == 1);
      var man3Rounded := if roundUp then man3 + 1 else man3;
      if man3Rounded > 7 then
        var newExp := expClamped + 1;
        if newExp > 15 then 0x7e else 8 * newExp
      else 8 * expClamped + man3Rounded
    else
      var manRounded := RoundScaled(Mag(x) * 512);
      if manRounded >= 8 then 0x08 else manRounded
  }

  function E5M2Encode(x: F32): (b: Byte) {
    if IsNan(x) then 0x7e
    else
      var sign := if Negative(x) then 0x80 else 0;
      if IsInfinite(x) then sign + 0x7c
      else if Mag(x) == 0 then sign
      else if Mag(x) > 57344 * One() then sign + 0x7c
      else sign + E5M2Finite(x)
  }

  /** The code of a nonzero magnitude of at most 57344. */
  function E5M2Finite(x: F32): (c: nat)
    requires IsFinite(x)
    ensures c < 0x80
  {
    var e := Exp(x) - 112;
    if e >= 1 then
      var expClamped := if e < 30 then e else 30;
      var man2 := Man(x) / 0x20_0000;
      var roundBit := Man(x) / 0x10_0000 % 2;
      var stickyBits := Man(x) % 0x10_0000;
      var roundUp := roundBit == 1 && (stickyBits != 0 || man2 % 2 == 1);
      var man2Rounded := if roundUp then man2 + 1 else man2;
      if man2Rounded > 3 then
        var newExp := expClamped + 1;
        if newExp >= 31 then 0x7c else 4 * newExp
      else 4 * expClamped + man2Rounded
    else
      var manRounded := RoundScaled(Mag(x) * 65536);
      if manRounded >= 4 then 0x04 else manRounded
  }

  // ----- the decoders -----

  /** A decoded byte: a finite value is a sign and a magnitude in units of 2^-149. */
  datatype Decoded = NaN | Infinite(neg: bool) | Finite(neg: bool, mag: nat)

  function E4M3Decode(b: Byte): Decoded {
    var neg := b / 0x80 == 1;
    var exp := b / 8 % 16;
    var man := b % 8;
    if exp == 15 && man == 7 then NaN
    else if exp == 0 then Finite(neg, man * Pow2(149 - 6 - 3))
    else Finite(neg, (8 + man) * Pow2(149 + exp - 7 - 3))
  }

  function E5M2Decode(b: Byte): Decoded {
    var neg := b / 0x80 == 1;
    var exp := b / 4 % 32;
    var man := b % 4;
    if exp == 31 then
      if man == 0 then Infinite(neg) else NaN
    else if exp == 0 then Finite(neg, man * Pow2(149 - 14 - 2))
    else Finite(neg, (4 + man) * Pow2(149 + exp - 15 - 2))
  }

  // ----- the grid of representable values -----

  /** The distance from code c to the next. */
  function Gap(f: Format, c: nat): (g: nat)
    ensures g > 0
  {
    var m := Pow2(f.mb);
    if c < m then Pow2(f.qe) else Pow2(c / m - 1 + f.qe)
  }

  lemma ValueStep(f: Format, c: nat)
    ensures Value(f, c + 1) == Value(f, c) + Gap(f, c)
  {
    hide Pow2;
    var m := Pow2(f.mb);
    if c + 1 >= m {
      NextDivMod(c, m);
      if c >= m {
        var e := c / m - 1 + f.qe;
        Pow2Add(1, e);
        PowerOne();
        NextProduct(m, c % m, Pow2(e));
      }
    }
  }

  lemma NextDivMod(c: nat, m: nat)
    requires m > 0
    ensures c % m + 1 < m ==> (c + 1) / m == c / m && (c + 1) % m == c % m + 1
    ensures c % m + 1 >= m ==> (c + 1) / m == c / m + 1 && (c + 1) % m == 0
  {
    if c % m + 1 < m {
      DivUnique(c + 1, m, c / m, c % m + 1);
    } else {
      DivUnique(c + 1, m, c / m + 1, 0);
    }
  }

  lemma NextProduct(m: nat, r: nat, g: nat)
    ensures (m + (r + 1)) * g == (m + r) * g + g
    ensures r + 1 == m ==> m * (2 * g) == (m + r) * g + g
  {
  }

  lemma PowerOne()
    ensures Pow2(1) == 2
  {
  }

  lemma {:induction false} ValueMonotone(f: Format, c: nat, d: nat)
    requires c < d
    ensures Value(f, c) < Value(f, d)
  {
    hide Value, Gap;
    ValueStep(f, d - 1);
    if c < d - 1 {
      ValueMonotone(f, c, d - 1);
    }
  }

  /** Rounding between neighbouring codes picks the nearest of all, with ties to even. */
  lemma NeighbourIsNearest(f: Format, x: nat, c: nat, r: nat)
    requires c <= f.last && Value(f, c) <= x
    requires c < f.last ==> x < Value(f, c + 1)
    requires r == if c < f.last && (2 * (x - Value(f, c)) > Gap(f, c)
                                    || (2 * (x - Value(f, c)) == Gap(f, c) && c % 2 == 1)) then c + 1 else c
    ensures NearestEven(f, x, r)
  {
    hide Value, Gap, Pow2;
    ValueStep(f, c);
    forall c' | 0 <= c' <= f.last
      ensures Dist(x, Value(f, r)) <= Dist(x, Value(f, c'))
      ensures c' != r && Dist(x, Value(f, r)) == Dist(x, Value(f, c')) ==> r % 2 == 0
    {
      if c' < c {
        ValueMonotone(f, c', c);
      } else if c' > c + 1 {
        ValueMonotone(f, c + 1, c');
      }
    }
  }

  /** Rounding to nearest-even is a function and is monotone. */
  lemma NearestMonotone(f: Format, x: nat, y: nat, c: nat, d: nat)
    requires NearestEven(f, x, c) && NearestEven(f, y, d) && x <= y
    ensures c <= d
  {
    hide Value, Gap, Pow2;
    NearestBeats(f, x, c, d);
    NearestBeats(f, y, d, c);
    if d < f.last {
      NearestBeats(f, x, c, d + 1);
      NearestBeats(f, y, d, d + 1);
    }
    if d < c {
      ValueMonotone(f, d, c);
      if d + 1 < c {
        ValueMonotone(f, d, d + 1);
        ValueMonotone(f, d + 1, c);
      }
    }
  }

  lemma NearestBeats(f: Format, x: nat, c: nat, c': nat)
    requires NearestEven(f, x, c) && c' <= f.last
    ensures Dist(x, Value(f, c)) <= Dist(x, Value(f, c'))
    ensures c' != c && Dist(x, Value(f, c)) == Dist(x, Value(f, c')) ==> c % 2 == 0
  {
  }

  /** A representable value is its own rounding. */
  lemma RepresentableRounds(f: Format, x: nat, c: nat, r: nat)
    requires NearestEven(f, x, r) && c <= f.last && x == Value(f, c)
    ensures r == c
  {
    hide Value, Gap, Pow2;
    assert Dist(x, Value(f, r)) <= Dist(x, Value(f, c));
    if r < c {
      ValueMonotone(f, r, c);
    } else if c < r {
      ValueMonotone(f, c, r);
    }
  }

  // ----- f32 magnitudes on the grid -----

  /** A normal-range magnitude (2^23 + w * t + low) * 2^(e-1) lies `low` of w parts above the code 2^mb * k + t,
      where w = 2^(23-mb). */
  lemma NormalOnGrid(f: Format, e: nat, c: nat, k: nat, w: nat, t: nat, low: nat)
    requires c == Pow2(f.mb) * k + t
    requires f.mb <= 23 && w == Pow2(23 - f.mb) && t < Pow2(f.mb) && low < w
    requires k >= 1 && e >= 1 && e - 1 + 23 - f.mb == k - 1 + f.qe
    ensures var p := Pow2(e - 1);
            Gap(f, c) == w * p && (0x80_0000 + (w * t + low)) * p == Value(f, c) + low * p
  {
    hide Pow2, Value, Gap;
    var m, p := Pow2(f.mb), Pow2(e - 1);
    Pow2Add(f.mb, 23 - f.mb);
    TwoTo23();
    ValueAt(f, c, k, t);
    Pow2Add(23 - f.mb, e - 1);
    NormalMag(m, w, t, low, p);
  }

  lemma NormalMag(m: nat, w: nat, t: nat, low: nat, p: nat)
    requires m * w == 0x80_0000
    ensures (0x80_0000 + (w * t + low)) * p == (m + t) * (w * p) + low * p
  {
    assert 0x80_0000 + (w * t + low) == w * (m + t) + low by {
      assert w * (m + t) == w * m + w * t;
    }
    Distribute(w * (m + t), low, p);
    Rearrange(w, m + t, p);
  }

  lemma ValueAt(f: Format, c: nat, k: nat, t: nat)
    requires k >= 1 && t < Pow2(f.mb) && c == Pow2(f.mb) * k + t
    ensures Value(f, c) == (Pow2(f.mb) + t) * Pow2(k - 1 + f.qe) && Gap(f, c) == Pow2(k - 1 + f.qe)
  {
    hide Pow2;
    var m := Pow2(f.mb);
    DivUnique(m * k + t, m, k, t);
    MulMonotone(m, 1, k);
  }

  lemma TwoTo23()
    ensures Pow2(23) == 0x80_0000
  {
    Pow2Add(11, 12);
    assert Pow2(4) == 16;
    assert Pow2(8) == 256;
    assert Pow2(11) == 2048 && Pow2(12) == 4096;
  }

  lemma Distribute(a: nat, b: nat, p: nat)
    ensures (a + b) * p == a * p + b * p
  {
  }

  lemma Rearrange(w: nat, a: nat, p: nat)
    ensures w * a * p == a * (w * p)
  {
  }

  // ----- the subnormal path -----

  /** A magnitude is a 24-bit integer times a power of two. */
  lemma MagShape(x: F32) returns (k: nat, j: nat)
    requires IsFinite(x)
    ensures Mag(x) == k * Pow2(j) && k < 0x100_0000
    ensures j == if Exp(x) == 0 then 0 else Exp(x) - 1
  {
    if Exp(x) == 0 {
      k, j := Man(x), 0;
    } else {
      k, j := 0x80_0000 + Man(x), Exp(x) - 1;
    }
  }

  lemma MultiplesApart(a: nat, b: nat, g: nat)
    requires g > 0 && a != b
    ensures Dist(a * g, b * g) >= g
  {
    if a > b {
      MulAtLeast(g, a - b);
      assert g * (a - b) == a * g - b * g;
    } else {
      MulAtLeast(g, b - a);
      assert g * (b - a) == b * g - a * g;
    }
  }

  /** Splitting a product at a multiple of one factor. */
  lemma ScaledDivMod(a: nat, t: nat, g: nat, tg: nat)
    requires t > 0 && g > 0 && tg == t * g
    ensures tg > 0 && a * g / tg == a / t && a * g % tg == a % t * g
  {
    var q, r := a / t, a % t;
    assert a == t * q + r;
    MulAtLeast(g, t);
    Regroup(a, t, g, tg, q, r);
    MulMonotone(g, r + 1, t);
    assert (r + 1) * g == r * g + g;
    DivUnique(a * g, tg, q, r * g);
  }

  lemma Regroup(a: nat, t: nat, g: nat, tg: nat, q: nat, r: nat)
    requires a == t * q + r && tg == t * g
    ensures a * g == tg * q + r * g
  {
    Distribute(t * q, r, g);
    assert t * q * g == t * g * q;
  }

  lemma ToleranceBounds()
    ensures 0 < Tolerance() < Pow2(120) <= Pow2(147)
  {
    hide Pow2;
    Pow2Add(24, 96);
    TwoTo24();
    Pow2Monotone(120, 147);
    MulLess(9007199, 0x100_0000, Pow2(96));
  }

  lemma TwoTo24()
    ensures Pow2(24) == 0x100_0000
  {
    TwoTo23();
  }

  lemma MulLess(a: nat, b: nat, g: nat)
    requires a < b && g > 0
    ensures a * g < b * g
  {
  }

  /** The tie test of the subnormal path fires exactly at one half: for the scaled magnitude k * 2^n of an f32,
      the fraction is one half or further from it than the tolerance. */
  lemma TieTestExact(k: nat, n: nat)
    requires k < 0x100_0000 && n <= 128
    ensures Dist(k * Pow2(n) % One(), Pow2(148)) < Tolerance() <==> k * Pow2(n) % One() == Pow2(148)
  {
    hide Pow2, Tolerance;
    ToleranceBounds();
    if n >= 120 {
      Pow2Add(149 - n, n);
      Pow2Add(148 - n, n);
      Pow2Monotone(120, n);
      ScaledDivMod(k, Pow2(149 - n), Pow2(n), One());
      if k % Pow2(149 - n) != Pow2(148 - n) {
        MultiplesApart(k % Pow2(149 - n), Pow2(148 - n), Pow2(n));
      }
    } else {
      SmallFraction(k, n);
    }
  }

  lemma SmallFraction(k: nat, n: nat)
    requires k < 0x100_0000 && n < 120
    ensures k * Pow2(n) % One() == k * Pow2(n) < Pow2(147)
    ensures Pow2(148) == 2 * Pow2(147)
  {
    hide Pow2;
    TwoTo24();
    Pow2Add(24, n);
    Pow2Monotone(24 + n, 147);
    Pow2Add(1, 147);
    PowerOne();
    Pow2Monotone(147, 149);
    MulLess(k, 0x100_0000, Pow2(n));
    DivUnique(k * Pow2(n), One(), 0, k * Pow2(n));
  }

  /** The subnormal path rounds to nearest-even. */
  lemma SubnormalNearest(f: Format, x: nat, k: nat, j: nat, sh: nat, r: nat)
    requires f.qe + sh == 149 && sh >= 1 && j + sh <= 128 && 24 + j <= f.qe + f.mb && Pow2(f.mb) < f.last
    requires x == k * Pow2(j) && k < 0x100_0000
    requires r == RoundScaled(x * Pow2(sh))
    ensures r <= Pow2(f.mb) && NearestEven(f, x, r)
  {
    hide Pow2, Tolerance, Value, NearestEven, RoundScaled, Gap;
    var u := Pow2(f.qe);
    SubnormalRange(f, x, k, j);
    SubnormalRounds(u, f.qe, x, k, j, sh, r);
    var c := x / u;
    FloorMod(x, u);
    SubnormalValue(f, c);
    ValueStep(f, c);
    NeighbourIsNearest(f, x, c, r);
  }

  /** The subnormal path rounds the quotient by the unit to nearest, halves to even. */
  lemma SubnormalRounds(u: nat, qe: nat, x: nat, k: nat, j: nat, sh: nat, r: nat)
    requires u == Pow2(qe) && qe + sh == 149 && j + sh <= 128 && x == k * Pow2(j) && k < 0x100_0000
    requires r == RoundScaled(x * Pow2(sh))
    ensures u > 0
    ensures r == if 2 * (x % u) > u || (2 * (x % u) == u && x / u % 2 == 1) then x / u + 1 else x / u
  {
    hide Pow2, Tolerance, RoundScaled;
    var g := Pow2(sh);
    Pow2Add(qe, sh);
    Pow2Add(j, sh);
    Pow2Add(1, 148);
    PowerOne();
    ThreeFactors(k, Pow2(j), g);
    RoundScaledIs(k, j + sh);
    ScaledDivMod(x, u, g, One());
    ScaledCompare(2 * (x % u), u, g);
    ThreeFactors(2, x % u, g);
  }

  lemma FloorMod(x: nat, u: nat)
    requires u > 0
    ensures x / u * u <= x && x - x / u * u == x % u < u
  {
  }

  lemma ThreeFactors(a: nat, b: nat, g: nat)
    ensures a * b * g == a * (b * g)
  {
  }

  lemma RoundScaledIs(k: nat, n: nat)
    requires k < 0x100_0000 && n <= 128
    ensures var q, frac := k * Pow2(n) / One(), k * Pow2(n) % One();
            RoundScaled(k * Pow2(n)) ==
            if frac > Pow2(148) || (frac == Pow2(148) && q % 2 == 1) then q + 1 else q
  {
    hide Pow2, Tolerance;
    TieTestExact(k, n);
  }

  lemma SubnormalValue(f: Format, c: nat)
    requires c < Pow2(f.mb)
    ensures Value(f, c) == c * Pow2(f.qe) && Gap(f, c) == Pow2(f.qe)
  {
  }

  lemma ScaledCompare(a: nat, b: nat, g: nat)
    requires g > 0
    ensures a * g < b * g <==> a < b
    ensures a * g == b * g <==> a == b
  {
    if a < b {
      MulLess(a, b, g);
    } else if b < a {
      MulLess(b, a, g);
    }
  }

  lemma SubnormalRange(f: Format, x: nat, k: nat, j: nat)
    requires x == k * Pow2(j) && k < 0x100_0000 && 24 + j <= f.qe + f.mb
    ensures x / Pow2(f.qe) < Pow2(f.mb)
  {
    hide Pow2;
    Pow2Add(24, j);
    TwoTo24();
    Pow2Add(f.qe, f.mb);
    Pow2Monotone(24 + j, f.qe + f.mb);
    MulLess(k, 0x100_0000, Pow2(j));
    QuotientBound(x, Pow2(f.mb), Pow2(f.qe));
  }

  lemma QuotientBound(x: nat, m: nat, w: nat)
    requires w > 0 && x < w * m
    ensures x / w < m
  {
    if x / w >= m {
      MulMonotone(w, m, x / w);
    }
  }

  // ----- the normal path -----

  lemma NormalNearest(f: Format, x: nat, e: nat, c: nat, k: nat, w: nat, t: nat, low: nat, r: nat)
    requires f.mb <= 23 && w == Pow2(23 - f.mb) && t < Pow2(f.mb) && low < w && c == Pow2(f.mb) * k + t
    requires k >= 1 && e >= 1 && e - 1 + 23 - f.mb == k - 1 + f.qe
    requires x == (0x80_0000 + (w * t + low)) * Pow2(e - 1) < Value(f, f.last)
    requires r == if 2 * low > w || (2 * low == w && c % 2 == 1) then c + 1 else c
    ensures c < f.last && NearestEven(f, x, r)
  {
    hide Pow2, Value, Gap, NearestEven;
    var p := Pow2(e - 1);
    NormalOnGrid(f, e, c, k, w, t, low);
    ScaledCompare(2 * low, w, p);
    ScaledCompare(low, w, p);
    ThreeFactors(2, low, p);
    if c >= f.last {
      ValueMonotoneOrEqual(f, f.last, c);
    }
    ValueStep(f, c);
    NeighbourIsNearest(f, x, c, r);
  }

  lemma ValueMonotoneOrEqual(f: Format, c: nat, d: nat)
    requires c <= d
    ensures Value(f, c) <= Value(f, d)
  {
    hide Value;
    if c < d {
      ValueMonotone(f, c, d);
    }
  }

  // ----- E4M3 -----

  lemma SmallPowers()
    ensures Pow2(1) == 2 && Pow2(2) == 4 && Pow2(3) == 8 && Pow2(5) == 32 && Pow2(10) == 0x400
  {
  }

  lemma E4M3Max()
    ensures Value(E4M3, 0x7e) == 448 * One() && Pow2(3) == 8 && Pow2(20) == 0x10_0000
  {
    hide Pow2;
    SmallPowers();
    Pow2Add(10, 10);
    Pow2Add(5, 149);
    ValueAt(E4M3, 0x7e, 15, 6);
    ThreeFactors(14, 32, One());
  }

  /** Reading the round and sticky bits off the mantissa compares its low part with one half. */
  lemma RoundAndSticky(man: nat, half: nat)
    requires half > 0
    ensures var t, low := man / (2 * half), man % (2 * half);
            (man / half % 2 == 1 && (man % half != 0 || t % 2 == 1)) <==>
            (2 * low > 2 * half || (2 * low == 2 * half && t % 2 == 1))
  {
    var t, low := man / (2 * half), man % (2 * half);
    assert man == 2 * half * t + low;
    var b := if low >= half then 1 else 0;
    assert half * (2 * t + b) == 2 * half * t + b * half;
    DivUnique(man, half, 2 * t + b, low - b * half);
  }

  lemma E4M3FiniteIs(x: F32, c: nat, low: nat)
    requires IsFinite(x) && Exp(x) > 120
    requires c == 8 * (Exp(x) - 120) + Man(x) / 0x10_0000 < 0x7e && low == Man(x) % 0x10_0000
    ensures E4M3Finite(x) == if 2 * low > 0x10_0000 || (2 * low == 0x10_0000 && c % 2 == 1) then c + 1 else c
  {
    RoundAndSticky(Man(x), 0x8_0000);
    assert c % 2 == Man(x) / 0x10_0000 % 2;
  }

  lemma E4M3Normal(x: F32)
    requires IsFinite(x) && Exp(x) > 120 && Mag(x) < 448 * One()
    ensures E4M3Finite(x) <= 0x7e && NearestEven(E4M3, Mag(x), E4M3Finite(x))
  {
    E4M3Max();
    hide Pow2, Value, Gap, NearestEven, One, E4M3Finite;
    var t, low := Man(x) / 0x10_0000, Man(x) % 0x10_0000;
    var k := Exp(x) - 120;
    var c := 8 * k + t;
    var r := if 2 * low > 0x10_0000 || (2 * low == 0x10_0000 && c % 2 == 1) then c + 1 else c;
    NormalNearest(E4M3, Mag(x), Exp(x), c, k, 0x10_0000, t, low, r);
    E4M3FiniteIs(x, c, low);
  }

  lemma E4M3Subnormal(x: F32)
    requires IsFinite(x) && Exp(x) <= 120
    ensures E4M3Finite(x) <= 8 && NearestEven(E4M3, Mag(x), E4M3Finite(x))
  {
    E4M3Max();
    assert Pow2(9) == 512;
    hide Pow2, Value, NearestEven, RoundScaled;
    var k, j := MagShape(x);
    SubnormalNearest(E4M3, Mag(x), k, j, 9, RoundScaled(Mag(x) * 512));
  }

  lemma ZeroNearest(f: Format)
    ensures NearestEven(f, 0, 0)
  {
    hide Pow2, NearestEven;
    ValueStep(f, 0);
    NeighbourIsNearest(f, 0, 0, 0);
  }

  /** E4M3 encoding is correctly rounded on every finite f32: the sign is kept, and the magnitude is the nearest
      finite one, ties to even; from 448 on this is the largest. The NaN code is never produced. */
  lemma E4M3Correct(x: F32)
    requires IsFinite(x)
    ensures var b := E4M3Encode(x);
            && (b / 0x80 == 1 <==> Negative(x))
            && NearestEven(E4M3, Mag(x), b % 0x80)
            && E4M3Decode(b) == Finite(Negative(x), Value(E4M3, b % 0x80))
  {
    hide Pow2, Value, Gap, NearestEven, One, E4M3Finite;
    var c: nat;
    if Mag(x) == 0 {
      c := 0;
      ZeroNearest(E4M3);
    } else if Mag(x) >= 448 * One() {
      c := 0x7e;
      E4M3Max();
      NeighbourIsNearest(E4M3, Mag(x), 0x7e, 0x7e);
    } else if Exp(x) > 120 {
      c := E4M3Finite(x);
      E4M3Normal(x);
    } else {
      c := E4M3Finite(x);
      E4M3Subnormal(x);
    }
    E4M3DecodeIsValue(E4M3Encode(x), c);
  }

  lemma E4M3DecodeIsValue(b: Byte, c: nat)
    requires c <= 0x7e && c == b % 0x80
    ensures E4M3Decode(b) == Finite(b / 0x80 == 1, Value(E4M3, c))
  {
    E4M3Max();
    hide Pow2;
    ByteFields(b, c, 8, 16);
  }

  // ----- E5M2 -----

  lemma E5M2Max()
    ensures Value(E5M2, 0x7b) == 57344 * One() && Pow2(2) == 4 && Pow2(21) == 0x20_0000
  {
    hide Pow2;
    SmallPowers();
    Pow2Add(10, 10);
    Pow2Add(1, 20);
    Pow2Add(3, 10);
    Pow2Add(13, 149);
    ValueAt(E5M2, 0x7b, 30, 3);
    ThreeFactors(7, 8192, One());
  }

  lemma E5M2FiniteIs(x: F32, c: nat, low: nat)
    requires IsFinite(x) && Exp(x) > 112
    requires c == 4 * (Exp(x) - 112) + Man(x) / 0x20_0000 <= 0x7b && low == Man(x) % 0x20_0000
    requires c == 0x7b ==> low == 0
    ensures E5M2Finite(x) == if 2 * low > 0x20_0000 || (2 * low == 0x20_0000 && c % 2 == 1) then c + 1 else c
  {
    RoundAndSticky(Man(x), 0x10_0000);
    assert c % 2 == Man(x) / 0x20_0000 % 2;
  }

  lemma E5M2Normal(x: F32)
    requires IsFinite(x) && Exp(x) > 112 && Mag(x) <= 57344 * One()
    ensures E5M2Finite(x) <= 0x7b && NearestEven(E5M2, Mag(x), E5M2Finite(x))
  {
    E5M2Max();
    hide Pow2, Value, Gap, NearestEven, One, E5M2Finite;
    var t, low := Man(x) / 0x20_0000, Man(x) % 0x20_0000;
    var k := Exp(x) - 112;
    var c := 4 * k + t;
    NormalOnGrid(E5M2, Exp(x), c, k, 0x20_0000, t, low);
    if Mag(x) == 57344 * One() {
      E5M2AtMax(x, c, low);
    } else {
      var r := if 2 * low > 0x20_0000 || (2 * low == 0x20_0000 && c % 2 == 1) then c + 1 else c;
      NormalNearest(E5M2, Mag(x), Exp(x), c, k, 0x20_0000, t, low, r);
      E5M2FiniteIs(x, c, low);
    }
  }

  /** The largest magnitude is a grid value, so it is reached with nothing left to round. */
  lemma E5M2AtMax(x: F32, c: nat, low: nat)
    requires IsFinite(x) && Exp(x) > 112 && Mag(x) == Value(E5M2, 0x7b)
    requires c == 4 * (Exp(x) - 112) + Man(x) / 0x20_0000 && low == Man(x) % 0x20_0000
    requires Mag(x) == Value(E5M2, c) + low * Pow2(Exp(x) - 1) && Gap(E5M2, c) == 0x20_0000 * Pow2(Exp(x) - 1)
    ensures E5M2Finite(x) == 0x7b && NearestEven(E5M2, Mag(x), 0x7b)
  {
    hide Pow2, Value, Gap, NearestEven, E5M2Finite;
    ValueStep(E5M2, c);
    MulLess(low, 0x20_0000, Pow2(Exp(x) - 1));
    if c < 0x7b {
      ValueMonotoneOrEqual(E5M2, c + 1, 0x7b);
    } else if c > 0x7b {
      ValueMonotone(E5M2, 0x7b, c);
    }
    ScaledCompare(0, low, Pow2(Exp(x) - 1));
    E5M2FiniteIs(x, c, low);
    NeighbourIsNearest(E5M2, Mag(x), 0x7b, 0x7b);
  }

  lemma E5M2Subnormal(x: F32)
    requires IsFinite(x) && Exp(x) <= 112
    ensures E5M2Finite(x) <= 4 && NearestEven(E5M2, Mag(x), E5M2Finite(x))
  {
    E5M2Max();
    Pow2Add(8, 8);
    assert Pow2(8) == 256;
    hide Pow2, Value, NearestEven, RoundScaled;
    var k, j := MagShape(x);
    SubnormalNearest(E5M2, Mag(x), k, j, 16, RoundScaled(Mag(x) * 65536));
  }

  lemma E5M2DecodeIsValue(b: Byte, c: nat)
    requires c <= 0x7b && c == b % 0x80
    ensures E5M2Decode(b) == Finite(b / 0x80 == 1, Value(E5M2, c))
  {
    E5M2Max();
    hide Pow2;
    ByteFields(b, c, 4, 32);
  }

  /** The exponent and mantissa fields of a byte are those of the byte without its sign bit. */
  lemma ByteFields(b: Byte, c: nat, m: nat, e: nat)
    requires c == b % 0x80 && ((m == 4 && e == 32) || (m == 8 && e == 16))
    ensures b % m == c % m && b / m % e == c / m
  {
    var s := b / 0x80;
    assert b == 0x80 * s + c && c == m * (c / m) + c % m;
    DivUnique(b, m, e * s + c / m, c % m);
    DivUnique(e * s + c / m, e, s, c / m);
  }

  /** E5M2 encoding is correctly rounded up to 57344 in magnitude, and infinite beyond. */
  lemma E5M2Correct(x: F32)
    requires IsFinite(x)
    ensures var b := E5M2Encode(x);
            && (b / 0x80 == 1 <==> Negative(x))
            && if Mag(x) <= 57344 * One() then
                 && NearestEven(E5M2, Mag(x), b % 0x80)
                 && E5M2Decode(b) == Finite(Negative(x), Value(E5M2, b % 0x80))
               else E5M2Decode(b) == Infinite(Negative(x))
  {
    hide Pow2, Value, Gap, NearestEven, One, E5M2Finite;
    if Mag(x) <= 57344 * One() {
      var c: nat;
      if Mag(x) == 0 {
        c := 0;
        ZeroNearest(E5M2);
      } else if Exp(x) > 112 {
        c := E5M2Finite(x);
        E5M2Normal(x);
      } else {
        c := E5M2Finite(x);
        E5M2Subnormal(x);
      }
      E5M2DecodeIsValue(E5M2Encode(x), c);
    }
  }
}
