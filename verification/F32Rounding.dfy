/** Rounding a real number to f32, as a correctly rounded division does, and what the FP8 codecs make of the result. */
module F32Rounding {
  import opened Bits
  import opened Fp8
  import opened Fp8Laws
  import opened Rounding

  /** From 2^128 - 2^103 on, rounding to the nearest f32 gives infinity (section 4.3.1 of IEEE 754-2019). */
  const OVERFLOW := 340282356779733661637539395458142568448.0

  /** q is t rounded to the nearest f32, the even one at a tie. The sign of a zero that t leaves open is open here. */
  ghost predicate Rounds(q: F32, t: real) {
    && !IsNan(q) && (t < 0.0 ==> Negative(q)) && (t > 0.0 ==> !Negative(q))
    && if IsInfinite(q) then Abs(t) >= OVERFLOW
       else Abs(t) < OVERFLOW && forall x: F32 :: IsFinite(x) ==>
              && Abs(t - F32Real(q)) <= Abs(t - F32Real(x))
              && (Abs(t - F32Real(q)) == Abs(t - F32Real(x)) && F32Real(x) != F32Real(q) ==> q % 2 == 0)
  }

  /** The magnitude of a finite f32 as a real number. */
  function Size(q: F32): real
    requires IsFinite(q)
  {
    Real(Mag(q))
  }

  /** Seen from |t|, the size of q is nearest among the sizes. */
  lemma NearestSize(q: F32, t: real, x: F32)
    requires Rounds(q, t) && IsFinite(q) && IsFinite(x)
    ensures Size(q) >= 0.0 && Abs(t - F32Real(q)) == Abs(Abs(t) - Size(q)) <= Abs(Abs(t) - Size(x))
    ensures Abs(Abs(t) - Size(q)) == Abs(Abs(t) - Size(x)) && Size(q) != Size(x) ==> q % 2 == 0
  {
    hide Real, Mag;
    var y := if Negative(x) == Negative(q) then x else Negate(x);
    SameMagnitude(x);
    MagOfFieldsOnly(x, y);
    SignedSize(q);
    SignedSize(y);
    assert Abs(t - F32Real(q)) <= Abs(t - F32Real(y));
  }

  lemma MagOfFieldsOnly(x: F32, y: F32)
    requires IsFinite(x) && Exp(x) == Exp(y) && Man(x) == Man(y)
    ensures IsFinite(y) && Mag(x) == Mag(y)
  {
  }

  lemma SignedSize(q: F32)
    requires IsFinite(q)
    ensures Size(q) >= 0.0 && F32Real(q) == if Negative(q) then -Size(q) else Size(q)
  {
    hide Mag, One;
    RealDifference(0, Mag(q));
    RealDifference(0, 0);
    RealOrder(0, 1, Mag(q));
  }

  // ----- every real number has a rounding -----

  /** The sizes of the f32 values are those of a format with 23 mantissa bits, so they grow with the bit pattern. */
  const SINGLE := Format(23, 0, 0)

  /** The pattern of infinity; the finite patterns without a sign are those below it. */
  const INFINITY: F32 := 0x7F80_0000

  lemma SizeIsValue(x: F32)
    requires x < INFINITY
    ensures IsFinite(x) && !Negative(x) && Mag(x) == Value(SINGLE, x)
  {
    TwoTo23();
    hide Pow2;
    FieldsOf(x, 0, x / 0x80_0000, x % 0x80_0000);
    Pow2Zero();
  }

  lemma Pow2Zero()
    ensures Pow2(0) == 1
  {
  }

  lemma SizeGrows(x: F32, y: F32)
    requires x < y < INFINITY
    ensures IsFinite(x) && IsFinite(y) && 0.0 <= Size(x) < Size(y)
  {
    hide Value, Mag, Pow2, One;
    SizeIsValue(x);
    SizeIsValue(y);
    ValueMonotone(SINGLE, x, y);
    SignedSize(x);
    RealDifference(Mag(y), Mag(x));
    RealPositive(Mag(y) - Mag(x));
  }

  lemma RealPositive(m: nat)
    requires m > 0
    ensures Real(m) > 0.0
  {
    hide One;
  }

  lemma ZeroSize()
    ensures IsFinite(0) && Size(0) == 0.0 && !Negative(0)
  {
    SizeIsValue(0);
    hide One, Pow2;
    assert Value(SINGLE, 0) == 0;
    RealOfOnes(0);
  }

  /** The largest f32 that is not above a, searched from hi down. */
  lemma {:induction false} FloorF32(a: real, hi: F32) returns (x: F32)
    requires a >= 0.0 && hi < INFINITY && (hi + 1 < INFINITY ==> IsFinite(hi + 1) && a < Size(hi + 1))
    ensures x < INFINITY && IsFinite(x) && Size(x) <= a
    ensures x + 1 < INFINITY ==> IsFinite(x + 1) && a < Size(x + 1)
    decreases hi
  {
    hide Size;
    SizeIsValue(hi);
    if Size(hi) <= a {
      x := hi;
    } else {
      ZeroSize();
      x := FloorF32(a, hi - 1);
    }
  }

  /** Of two neighbours the nearer one, and the even one if they are equally near, is nearest of all. */
  lemma Nearer(a: real, x: F32) returns (q: F32)
    requires a >= 0.0 && x < INFINITY && IsFinite(x) && Size(x) <= a
    requires x + 1 < INFINITY ==> IsFinite(x + 1) && a < Size(x + 1)
    ensures q < INFINITY && IsFinite(q)
    ensures forall y: F32 :: y < INFINITY ==> IsFinite(y) && NoFarther(a, q, y)
  {
    hide Size, NoFarther;
    q := if x + 1 == INFINITY || a - Size(x) < Size(x + 1) - a then x
         else if a - Size(x) > Size(x + 1) - a then x + 1
         else if x % 2 == 0 then x else x + 1;
    SizeIsValue(q);
    forall y: F32 | y < INFINITY
      ensures IsFinite(y) && NoFarther(a, q, y)
    {
      SizeIsValue(y);
      NeighbourBeats(a, x, q, y);
    }
  }

  /** q is at least as near to a as y is, and even if it is just as near without being the same. */
  ghost predicate NoFarther(a: real, q: F32, y: F32)
    requires IsFinite(q) && IsFinite(y)
  {
    && Abs(a - Size(q)) <= Abs(a - Size(y))
    && (Abs(a - Size(q)) == Abs(a - Size(y)) && Size(y) != Size(q) ==> q % 2 == 0)
  }

  lemma NeighbourBeats(a: real, x: F32, q: F32, y: F32)
    requires a >= 0.0 && x < INFINITY && IsFinite(x) && Size(x) <= a
    requires x + 1 < INFINITY ==> IsFinite(x + 1) && a < Size(x + 1)
    requires q == if x + 1 == INFINITY || a - Size(x) < Size(x + 1) - a then x
                  else if a - Size(x) > Size(x + 1) - a then x + 1
                  else if x % 2 == 0 then x else x + 1
    requires y < INFINITY && IsFinite(y)
    ensures IsFinite(q) && NoFarther(a, q, y)
  {
    hide Size;
    if y < x {
      SizeGrows(y, x);
    } else if y > x + 1 {
      SizeGrows(x + 1, y);
    }
    var top := x + 1 == INFINITY;
    NeighbourSizes(a, Size(x), if top then 0.0 else Size(x + 1), Size(q), Size(y), top, q % 2 == 0);
  }

  lemma NeighbourSizes(a: real, lo: real, hi: real, m: real, s: real, top: bool, even: bool)
    requires lo <= a && (!top ==> a < hi) && (s <= lo || (!top && s >= hi))
    requires (m == lo && (top || a - lo < hi - a || (a - lo == hi - a && even)))
             || (m == hi && !top && (hi - a < a - lo || (a - lo == hi - a && even)))
    ensures Abs(a - m) <= Abs(a - s) && (Abs(a - m) == Abs(a - s) && s != m ==> even)
  {
  }

  /** Every real number rounds to some f32: division as the code uses it exists. */
  lemma RoundingExists(t: real) returns (q: F32)
    ensures Rounds(q, t)
  {
    hide Size, F32Real, NoFarther;
    var a := Abs(t);
    var n: F32;
    if a >= OVERFLOW {
      n := INFINITY;
      FieldsOf(n, 0, 255, 0);
    } else {
      var x := FloorF32(a, INFINITY - 1);
      n := Nearer(a, x);
      SizeIsValue(n);
    }
    q := if t < 0.0 then Negate(n) else n;
    SameMagnitude(n);
    if a < OVERFLOW {
      forall x: F32 | IsFinite(x)
        ensures Abs(t - F32Real(q)) <= Abs(t - F32Real(x))
        ensures Abs(t - F32Real(q)) == Abs(t - F32Real(x)) && F32Real(x) != F32Real(q) ==> q % 2 == 0
      {
        NearestWithSign(t, n, q, x);
      }
    }
  }

  lemma NearestWithSign(t: real, n: F32, q: F32, x: F32)
    requires n < INFINITY && IsFinite(n) && !Negative(n) && IsFinite(x)
    requires q == if t < 0.0 then Negate(n) else n
    requires forall y: F32 :: y < INFINITY ==> IsFinite(y) && NoFarther(Abs(t), n, y)
    ensures IsFinite(q) && Abs(t - F32Real(q)) <= Abs(t - F32Real(x))
    ensures Abs(t - F32Real(q)) == Abs(t - F32Real(x)) && F32Real(x) != F32Real(q) ==> q % 2 == 0
  {
    hide Mag, Real, Pow2;
    var y := if Negative(x) then Negate(x) else x;
    SameMagnitude(x);
    SameMagnitude(n);
    UnsignedBelow(y);
    MagOfFieldsOnly(x, y);
    MagOfFieldsOnly(n, q);
    SignedSize(q);
    SignedSize(x);
    assert NoFarther(Abs(t), n, y);
    if Abs(t) == 0.0 {
      ZeroSize();
      assert NoFarther(Abs(t), n, 0);
    }
    SignedDistance(t, Size(q), Size(x), F32Real(q), F32Real(x));
  }

  lemma UnsignedBelow(y: F32)
    requires !Negative(y) && IsFinite(y)
    ensures y < INFINITY
  {
  }

  lemma SignedDistance(t: real, m: real, s: real, v: real, w: real)
    requires m >= 0.0 && s >= 0.0 && v == (if t < 0.0 then -m else m) && (w == s || w == -s)
    requires Abs(Abs(t) - m) <= Abs(Abs(t) - s) && (t == 0.0 ==> m == 0.0)
    ensures Abs(t - v) == Abs(Abs(t) - m) <= Abs(t - w)
    ensures Abs(t - v) == Abs(t - w) && w != v ==> Abs(Abs(t) - m) == Abs(Abs(t) - s) && s != m
  {
  }

  // ----- a nearby f32 -----

  /** The largest f32 not above n units, and how close it is. */
  lemma {:induction false} Below(n: nat, g: nat) returns (x: F32, u: nat)
    requires n < Pow2(24 + g) && g <= 253
    ensures IsFinite(x) && Mag(x) <= n < Mag(x) + u
    ensures u == 1 || 0x80_0000 * u <= Mag(x)
    decreases g
  {
    hide Pow2;
    TwoTo24();
    if g == 0 {
      x, u := n, 1;
      SmallMag(n);
    } else if n < Pow2(23 + g) {
      x, u := Below(n, g - 1);
    } else {
      u := Pow2(g);
      var k, r := n / u, n % u;
      Leading(n, g, k);
      x := g * 0x80_0000 + k;
      FieldsOf(x, 0, g + 1, k - 0x80_0000);
      assert Mag(x) == k * u;
      assert n == u * k + r;
      MulMonotone(u, 0x80_0000, k);
    }
  }

  lemma SmallMag(n: nat)
    requires n < 0x100_0000
    ensures IsFinite(n) && Mag(n) == n
  {
    FieldsOf(n, 0, n / 0x80_0000, n % 0x80_0000);
    assert Pow2(0) == 1;
  }

  lemma Leading(n: nat, g: nat, k: nat)
    requires Pow2(23 + g) <= n < Pow2(24 + g) && k == n / Pow2(g)
    ensures 0x80_0000 <= k < 0x100_0000
  {
    hide Pow2;
    Pow2Add(23, g);
    Pow2Add(24, g);
    TwoTo23();
    TwoTo24();
    var u := Pow2(g);
    assert n == u * k + n % u;
    if k >= 0x100_0000 {
      MulMonotone(u, 0x100_0000, k);
    } else if k < 0x80_0000 {
      MulMonotone(u, k + 1, 0x80_0000);
    }
  }

  /** A real number in units of 2^-149. */
  function Units(a: real): real {
    a * One() as real
  }

  /** The rounding error of a finite result: relative 2^-23 and a tiny absolute part. */
  lemma RoundingClose(q: F32, t: real)
    requires Rounds(q, t) && IsFinite(q)
    ensures Size(q) >= 0.0 && Abs(t - F32Real(q)) == Abs(Abs(t) - Size(q))
    ensures Abs(Abs(t) - Size(q)) <= Abs(t) / 8388608.0 + 0.000000000001
  {
    var a := Abs(t);
    assert 0.0 <= a < OVERFLOW;
    hide Real, Mag, Rounds, Units, Pow2, OVERFLOW, F32Real, Abs;
    var n := Units(a).Floor;
    InRange(a);
    var x, u := Below(n, 253);
    NearestSize(q, t, x);
    CloseBelow(a, n, Mag(x), u);
  }

  lemma OverflowUnits()
    ensures Units(OVERFLOW) <= Pow2(277) as real
  {
    hide Pow2;
    Pow2Add(128, 149);
    TwoTo128();
    ScaleOrder(One() as real, OVERFLOW, Pow2(128) as real);
  }

  lemma UnitsOrder(a: real, b: real)
    requires 0.0 <= a < b
    ensures 0.0 <= Units(a) < Units(b)
  {
    hide One;
    ScaleStrict(One() as real, a, b);
    ScaleOrder(One() as real, 0.0, a);
  }

  lemma TwoTo128()
    ensures Pow2(128) == 340282366920938463463374607431768211456
  {
    hide Pow2;
    assert Pow2(8) == 256 by {
      SmallPower();
    }
    Pow2Add(8, 8);
    Pow2Add(16, 16);
    Pow2Add(32, 32);
    Pow2Add(64, 64);
  }

  lemma SmallPower()
    ensures Pow2(8) == 256
  {
    assert Pow2(4) == 16;
    Pow2Add(4, 4);
  }

  lemma InRange(a: real)
    requires 0.0 <= a < OVERFLOW
    ensures 0 <= Units(a).Floor < Pow2(277)
  {
    hide Units, Pow2, OVERFLOW;
    OverflowUnits();
    UnitsOrder(a, OVERFLOW);
  }

  /** A multiple m of the unit, at most n, and less than u below it: from units to real numbers. */
  lemma CloseBelow(a: real, n: nat, m: nat, u: nat)
    requires a >= 0.0 && n == Units(a).Floor && m <= n < m + u && (u == 1 || 0x80_0000 * u <= m)
    ensures Abs(a - Real(m)) <= a / 8388608.0 + 0.000000000001
  {
    hide One;
    TinyUnit();
    UnitsApart(a, One() as real, m, u);
  }

  lemma TinyUnit()
    ensures One() >= 1_000_000_000_000
  {
    hide Pow2;
    TwoTo128();
    Pow2Monotone(128, 149);
  }

  lemma UnitsApart(a: real, unit: real, m: nat, u: nat)
    requires a >= 0.0 && unit >= 1000000000000.0 && m as real <= a * unit <= (m + u) as real
    requires u == 1 || 0x80_0000 * u <= m
    ensures Abs(a - m as real / unit) <= a / 8388608.0 + 0.000000000001
  {
    var x, y := m as real / unit, u as real / unit;
    assert x * unit == m as real;
    assert y * unit == u as real;
    Descale(unit, x, a, m as real, a * unit);
    assert (x + y) * unit == (m + u) as real;
    Descale(unit, a, x + y, a * unit, (m + u) as real);
    if u == 1 {
      Descale(unit, y, 0.000000000001, 1.0, 0.000000000001 * unit);
    } else {
      assert (8388608.0 * y) * unit == 8388608.0 * u as real;
      Descale(unit, 8388608.0 * y, x, 8388608.0 * u as real, m as real);
    }
  }

  lemma Descale(unit: real, x: real, y: real, xu: real, yu: real)
    requires unit > 0.0 && xu == x * unit && yu == y * unit && xu <= yu
    ensures x <= y
  {
    if x > y {
      ScaleStrict(unit, y, x);
    }
  }

  // ----- E4M3 -----

  /** What a codec returns for the rounding of t, as a real number. */
  function E4M3Value(q: F32): real
    requires E4M3Decode(E4M3Encode(q)).Finite?
  {
    Real(DecodedValue(E4M3Decode(E4M3Encode(q))))
  }

  function E5M2Value(q: F32): real
    requires E5M2Decode(E5M2Encode(q)).Finite?
  {
    Real(DecodedValue(E5M2Decode(E5M2Encode(q))))
  }

  /** The cases of the encoding error: half the subnormal step, with zero for anything up to it; a seventeenth of the
      size; or saturation. */
  lemma E4M3Cases(q: F32) returns (y: real)
    requires IsFinite(q)
    ensures E4M3Decode(E4M3Encode(q)).Finite? && E4M3Value(q) == (if Negative(q) then -y else y) && y >= 0.0
    ensures Size(q) <= 1.0 / 1024.0 ==> y == 0.0
    ensures Abs(Size(q) - y) <= 1.0 / 1024.0 || 17.0 * Abs(Size(q) - y) <= Size(q) || (y == 448.0 && Size(q) >= y)
  {
    hide Pow2, Value, NearestEven, E4M3Encode, E4M3Decode, Mag, One, Real;
    E4M3Correct(q);
    E4M3Error(q);
    var x, c := Mag(q), Value(E4M3, E4M3Encode(q) % 0x80);
    var e := Dist(x, c);
    y := Real(c);
    SameSignDistance(false, x, c);
    SignedReal(Negative(q), c);
    RealOfOnes(0);
    RealOfOnes(1);
    E4M3Zero(q);
    if 1024 * e <= One() {
      RealOrder(e, 1024, One());
    } else if 17 * e <= x {
      RealOrder(e, 17, x);
    } else {
      RealOfOnes(448);
      RealOrder(448 * One(), 1, x);
    }
  }

  /** Up to half the subnormal step everything becomes zero. */
  lemma E4M3Zero(q: F32)
    requires IsFinite(q)
    ensures Size(q) <= 1.0 / 1024.0 ==> Value(E4M3, E4M3Encode(q) % 0x80) == 0
  {
    hide Pow2, E4M3Encode, Mag, One;
    Underflow(q);
    OneInSteps();
    SizeAtMost(q, 1024, Pow2(139));
    SubnormalZero(E4M3);
  }

  lemma E5M2Zero(q: F32)
    requires IsFinite(q) && Mag(q) <= 57344 * One()
    ensures Size(q) <= 1.0 / 131072.0 ==> Value(E5M2, E5M2Encode(q) % 0x80) == 0
  {
    hide Pow2, E5M2Encode, Mag, One;
    Underflow(q);
    OneInSteps();
    SizeAtMost(q, 131072, Pow2(132));
    SubnormalZero(E5M2);
  }

  lemma OneInSteps()
    ensures One() == 1024 * Pow2(139) == 131072 * Pow2(132)
  {
    PowerOne();
    SmallPower();
    hide Pow2;
    Pow2Add(1, 1);
    Pow2Add(8, 2);
    Pow2Add(8, 8);
    Pow2Add(16, 1);
    Pow2Add(10, 139);
    Pow2Add(17, 132);
  }

  /** A size of at most the k-th part of one, in units. */
  lemma SizeAtMost(q: F32, k: nat, p: nat)
    requires IsFinite(q) && k > 0 && One() == k * p
    ensures Size(q) <= 1.0 / k as real <==> Mag(q) <= p
  {
    hide Mag, One;
    var u, r := One() as real, k as real;
    assert u * Size(q) == Mag(q) as real;
    assert u == r * p as real;
    assert 1.0 / r * u == p as real;
    CompareScaled(u, Size(q), 1.0 / r, Mag(q) as real);
  }

  lemma CompareScaled(d: real, x: real, top: real, dx: real)
    requires d > 0.0 && d * x == dx
    ensures x <= top <==> dx <= top * d
  {
    if x <= top {
      ScaleOrder(d, x, top);
    } else {
      ScaleStrict(d, top, x);
    }
  }

  /** The cases of the E5M2 error up to the overflow threshold. */
  lemma E5M2Cases(q: F32) returns (y: real)
    requires IsFinite(q) && Mag(q) <= 57344 * One()
    ensures E5M2Decode(E5M2Encode(q)).Finite? && E5M2Value(q) == (if Negative(q) then -y else y) && y >= 0.0
    ensures Size(q) <= 1.0 / 131072.0 ==> y == 0.0
    ensures Abs(Size(q) - y) <= 1.0 / 131072.0 || 9.0 * Abs(Size(q) - y) <= Size(q)
  {
    hide Pow2, Value, NearestEven, E5M2Encode, E5M2Decode, Mag, One, Real;
    E5M2Correct(q);
    E5M2Error(q);
    var x, c := Mag(q), Value(E5M2, E5M2Encode(q) % 0x80);
    var e := Dist(x, c);
    y := Real(c);
    SameSignDistance(false, x, c);
    SignedReal(Negative(q), c);
    RealOfOnes(0);
    RealOfOnes(1);
    E5M2Zero(q);
    if 131072 * e <= One() {
      RealOrder(e, 131072, One());
    } else {
      RealOrder(e, 9, x);
    }
  }

  /** Rounding to f32 first and to E4M3 then keeps the bound of rounding once: a sixteenth, half the subnormal step, and
      what saturation costs. */
  lemma E4M3Quotient(q: F32, t: real)
    requires Rounds(q, t)
    ensures E4M3Decode(E4M3Encode(q)).Finite?
    ensures Abs(t - E4M3Value(q)) <= Abs(t) / 16.0 + 1.0 / 1024.0 + Max(0.0, Abs(t) - 448.0)
  {
    hide E4M3Value, E4M3Encode, E4M3Decode, Size, F32Real;
    if IsInfinite(q) {
      E4M3OfInfinity(q);
    } else {
      RoundingClose(q, t);
      var y := E4M3Cases(q);
      hide Rounds;
      TwiceRounded(Abs(t), Size(q), y);
      SameSide(q, t, E4M3Value(q), y);
    }
  }

  lemma E4M3OfInfinity(q: F32)
    requires IsInfinite(q)
    ensures E4M3Decode(E4M3Encode(q)).Finite? && E4M3Value(q) == if Negative(q) then -448.0 else 448.0
  {
    hide One, Value;
    var b := E4M3Encode(q);
    assert b % 0x80 == 0x7e && (b / 0x80 == 1 <==> Negative(q));
    E4M3DecodeIsValue(b, 0x7e);
    E4M3Max();
    SignedReal(Negative(q), 448 * One());
    RealOfOnes(448);
  }

  lemma TwiceRounded(a: real, m: real, y: real)
    requires a >= 0.0 && m >= 0.0 && y >= 0.0 && Abs(a - m) <= a / 8388608.0 + 0.000000000001
    requires m <= 1.0 / 1024.0 ==> y == 0.0
    requires Abs(m - y) <= 1.0 / 1024.0 || 17.0 * Abs(m - y) <= m || (y == 448.0 && m >= y)
    ensures Abs(a - y) <= a / 16.0 + 1.0 / 1024.0 + Max(0.0, a - 448.0)
  {
  }

  /** A result on the same side of zero as t is as far from t as its size from |t|. */
  lemma SameSide(q: F32, t: real, v: real, y: real)
    requires (t < 0.0 ==> Negative(q)) && (t > 0.0 ==> !Negative(q)) && y >= 0.0
    requires v == if Negative(q) then -y else y
    ensures Abs(t - v) == Abs(Abs(t) - y)
  {
  }

  lemma SignedReal(neg: bool, c: nat)
    ensures Real(WithSign(neg, c)) == if neg then -Real(c) else Real(c)
    ensures Real(c) >= 0.0
  {
    hide One;
    RealDifference(0, c);
    RealDifference(0, 0);
    RealOrder(0, 1, c);
  }

  // ----- the overflow threshold of E5M2 -----

  /** The f32 57344, the largest E5M2 value, and the next f32 above it. */
  const TOP: F32 := 0x4760_0000
  const NEXT: F32 := 0x4760_0001

  lemma TopFields()
    ensures Exp(TOP) == 142 && Man(TOP) == 0x60_0000 && Exp(NEXT) == 142 && Man(NEXT) == 0x60_0001
  {
  }

  /** 57344 in units of 2^-8. */
  lemma TopUnits()
    ensures 57344 * One() == 0xE0_0000 * Pow2(141) && One() == 256 * Pow2(141)
  {
    SmallPower();
    hide Pow2;
    Pow2Add(8, 141);
  }

  lemma TopAndNext()
    ensures IsFinite(TOP) && Size(TOP) == 57344.0 && IsFinite(NEXT) && Size(NEXT) == 57344.0 + 1.0 / 256.0
  {
    TopFields();
    hide Pow2, One;
    TopUnits();
    assert Mag(TOP) == 57344 * One() && Mag(NEXT) == 57344 * One() + Pow2(141);
    RealOfOnes(57344);
    Quotient256(Pow2(141));
    RealDifference(57344 * One() + Pow2(141), Pow2(141));
  }

  lemma Quotient256(p: nat)
    requires One() == 256 * p
    ensures Real(p) == 1.0 / 256.0
  {
    hide One, Real;
    RealOfOnes(1);
    RealTimes(p, 256);
  }

  lemma RealTimes(a: int, k: int)
    ensures Real(k * a) == k as real * Real(a)
  {
    hide One;
    Associate(k as real, a as real, One() as real);
  }

  lemma Associate(k: real, a: real, u: real)
    requires u > 0.0
    ensures k * a / u == k * (a / u)
  {
  }

  /** No f32 lies between the two, and the next one is odd. */
  lemma AboveTop(q: F32)
    requires IsFinite(q) && Mag(q) > 57344 * One()
    ensures Size(q) >= 57344.0 + 1.0 / 256.0 && (Size(q) == 57344.0 + 1.0 / 256.0 ==> q % 2 == 1)
  {
    hide Pow2, One, Mag;
    TopUnits();
    var p, next := Pow2(141), 0xE0_0001 * Pow2(141);
    AboveTopUnits(q);
    assert next == 57344 * One() + p;
    RealOfOnes(57344);
    Quotient256(p);
    RealDifference(next, p);
    RealOrder(next, 1, Mag(q));
    if Size(q) == Real(next) {
      SameReal(Mag(q), next);
    }
  }

  lemma SameReal(a: int, b: int)
    requires Real(a) == Real(b)
    ensures a == b
  {
    hide One;
    var u := One() as real;
    assert Real(a) * u == a as real && Real(b) * u == b as real;
  }

  lemma AboveTopUnits(q: F32)
    requires IsFinite(q) && Mag(q) > 0xE0_0000 * Pow2(141)
    ensures Mag(q) >= 0xE0_0001 * Pow2(141) && (Mag(q) == 0xE0_0001 * Pow2(141) ==> q % 2 == 1)
  {
    hide Pow2, Mag;
    var k, j := MagShape(q);
    if j <= 140 {
      Pow2Monotone(j, 140);
      MulMonotone(k, Pow2(j), Pow2(140));
      MulMonotone(Pow2(140), k, 0x100_0000);
      Pow2Add(1, 140);
      PowerOne();
    } else if j == 141 {
      MulOrder(Pow2(141), 0xE0_0000, k);
      MantissaParity(q, k);
    } else {
      Pow2Add(j - 141, 141);
      Pow2Add(1, j - 142);
      PowerOne();
      var c := k * Pow2(j - 141);
      ThreeFactors(k, Pow2(j - 141), Pow2(141));
      EvenProduct(k, Pow2(j - 142), c);
      MulOrder(Pow2(141), 0xE0_0000, c);
    }
  }

  lemma EvenProduct(k: nat, h: nat, c: nat)
    requires c == k * (2 * h)
    ensures c % 2 == 0
  {
    assert c == 2 * (k * h);
  }

  lemma MulOrder(p: nat, a: nat, b: nat)
    requires b * p > a * p
    ensures b >= a + 1 && b * p >= (a + 1) * p
    ensures b * p == (a + 1) * p ==> b == a + 1
  {
    if b <= a {
      MulMonotone(p, b, a);
    } else {
      MulMonotone(p, a + 1, b);
      if b > a + 1 {
        MulMonotone(p, a + 2, b);
      }
    }
  }

  lemma MantissaParity(q: F32, k: nat)
    requires IsFinite(q) && Mag(q) == k * Pow2(141) && Exp(q) == 142
    ensures k == 0xE0_0001 ==> q % 2 == 1
  {
    hide Pow2;
    var m := 0x80_0000 + Man(q);
    MulCancel(Pow2(141), m, k);
  }

  lemma MulCancel(p: nat, a: nat, b: nat)
    requires p > 0 && a * p == b * p
    ensures a == b
  {
    if a < b {
      MulMonotone(p, a + 1, b);
    } else if b < a {
      MulMonotone(p, b + 1, a);
    }
  }

  /** The rounding of t is at most 57344 exactly if t does not pass the midpoint to the next f32, which goes down. */
  lemma E5M2Threshold(q: F32, t: real)
    requires Rounds(q, t)
    ensures IsFinite(q) && Mag(q) <= 57344 * One() <==> Abs(t) <= 57344.0 + 1.0 / 512.0
  {
    hide Mag, One, Pow2, F32Real, Real;
    if IsFinite(q) {
      TopAndNext();
      NearestSize(q, t, TOP);
      NearestSize(q, t, NEXT);
      if Mag(q) <= 57344 * One() {
        RealOrder(Mag(q), 1, 57344 * One());
        RealOfOnes(57344);
      } else {
        AboveTop(q);
      }
    }
  }

  /** A result that stays in range keeps the bound of rounding once. */
  lemma E5M2Quotient(q: F32, t: real)
    requires Rounds(q, t) && Abs(t) <= 57344.0 + 1.0 / 512.0
    ensures E5M2Decode(E5M2Encode(q)).Finite?
    ensures Abs(t - E5M2Value(q)) <= Abs(t) / 8.0 + 1.0 / 131072.0
  {
    hide E5M2Value, E5M2Encode, E5M2Decode, Size, F32Real, One, Mag;
    E5M2Threshold(q, t);
    RoundingClose(q, t);
    var y := E5M2Cases(q);
    TwiceRoundedE5M2(Abs(t), Size(q), y);
    SameSide(q, t, E5M2Value(q), y);
  }

  lemma TwiceRoundedE5M2(a: real, m: real, y: real)
    requires a >= 0.0 && m >= 0.0 && y >= 0.0 && Abs(a - m) <= a / 8388608.0 + 0.000000000001
    requires m <= 1.0 / 131072.0 ==> y == 0.0
    requires Abs(m - y) <= 1.0 / 131072.0 || 9.0 * Abs(m - y) <= m
    ensures Abs(a - y) <= a / 8.0 + 1.0 / 131072.0
  {
  }

  /** Beyond it the code is an infinity of the sign of t. */
  lemma E5M2Overflows(q: F32, t: real)
    requires Rounds(q, t) && Abs(t) > 57344.0 + 1.0 / 512.0
    ensures E5M2Decode(E5M2Encode(q)) == Infinite(t < 0.0)
  {
    hide One, Mag, Pow2;
    E5M2Threshold(q, t);
  }
}
