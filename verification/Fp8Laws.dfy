/** Consequences of correct rounding for the FP8 codecs: order, sign, round trips, underflow and overflow
    thresholds, and the error bound of a scaled block. */
module Fp8Laws {
  import opened Bits
  import opened Fp8
  import opened Rounding

  /** The signed value of a finite f32, in units of 2^-149. */
  function Signed(x: F32): int
    requires IsFinite(x)
  {
    WithSign(Negative(x), Mag(x))
  }

  function WithSign(neg: bool, mag: nat): int {
    if neg then 0 - mag else mag
  }

  function DecodedValue(d: Decoded): int
    requires d.Finite?
  {
    WithSign(d.neg, d.mag)
  }

  // ----- order and sign -----

  lemma SubnormalZero(f: Format)
    ensures Value(f, 0) == 0
  {
  }

  lemma NearestUnique(f: Format, x: nat, c: nat, d: nat)
    requires NearestEven(f, x, c) && NearestEven(f, x, d)
    ensures c == d
  {
    hide NearestEven;
    NearestMonotone(f, x, x, c, d);
    NearestMonotone(f, x, x, d, c);
  }

  /** Encoding then decoding preserves the order of finite values. */
  lemma E4M3Monotone(x: F32, y: F32)
    requires IsFinite(x) && IsFinite(y) && Signed(x) <= Signed(y)
    ensures E4M3Decode(E4M3Encode(x)).Finite? && E4M3Decode(E4M3Encode(y)).Finite?
    ensures DecodedValue(E4M3Decode(E4M3Encode(x))) <= DecodedValue(E4M3Decode(E4M3Encode(y)))
  {
    hide NearestEven, Value, E4M3Encode, E4M3Decode, Mag;
    E4M3Correct(x);
    E4M3Correct(y);
    var c, d := E4M3Encode(x) % 0x80, E4M3Encode(y) % 0x80;
    CodesOrdered(E4M3, x, y, c, d);
  }

  lemma E5M2Monotone(x: F32, y: F32)
    requires IsFinite(x) && IsFinite(y) && Signed(x) <= Signed(y)
    requires Mag(x) <= 57344 * One() && Mag(y) <= 57344 * One()
    ensures E5M2Decode(E5M2Encode(x)).Finite? && E5M2Decode(E5M2Encode(y)).Finite?
    ensures DecodedValue(E5M2Decode(E5M2Encode(x))) <= DecodedValue(E5M2Decode(E5M2Encode(y)))
  {
    hide NearestEven, Value, E5M2Encode, E5M2Decode, Mag, One;
    E5M2Correct(x);
    E5M2Correct(y);
    var c, d := E5M2Encode(x) % 0x80, E5M2Encode(y) % 0x80;
    CodesOrdered(E5M2, x, y, c, d);
  }

  lemma CodesOrdered(f: Format, x: F32, y: F32, c: nat, d: nat)
    requires IsFinite(x) && IsFinite(y) && Signed(x) <= Signed(y)
    requires NearestEven(f, Mag(x), c) && NearestEven(f, Mag(y), d)
    ensures WithSign(Negative(x), Value(f, c)) <= WithSign(Negative(y), Value(f, d))
  {
    hide NearestEven, Value, Mag;
    if Mag(x) <= Mag(y) {
      NearestMonotone(f, Mag(x), Mag(y), c, d);
      ValueMonotoneOrEqual(f, c, d);
    }
    if Mag(y) <= Mag(x) {
      NearestMonotone(f, Mag(y), Mag(x), d, c);
      ValueMonotoneOrEqual(f, d, c);
    }
    if Mag(x) == 0 {
      SubnormalZero(f);
      RepresentableRounds(f, 0, 0, c);
    }
    if Mag(y) == 0 {
      SubnormalZero(f);
      RepresentableRounds(f, 0, 0, d);
    }
  }

  function Negate(x: F32): F32 {
    if Negative(x) then x - 0x8000_0000 else x + 0x8000_0000
  }

  /** Encoding is odd: flipping the sign of the input flips the sign bit of the code. */
  lemma EncodeOdd(x: F32)
    requires !IsNan(x)
    ensures E4M3Encode(Negate(x)) == (E4M3Encode(x) + 0x80) % 0x100
    ensures E5M2Encode(Negate(x)) == (E5M2Encode(x) + 0x80) % 0x100
  {
    hide E4M3Encode, E5M2Encode, Negate;
    E4M3Odd(x);
    E5M2Odd(x);
  }

  lemma E4M3Odd(x: F32)
    requires !IsNan(x)
    ensures E4M3Encode(Negate(x)) == (E4M3Encode(x) + 0x80) % 0x100
  {
    hide E4M3Finite, One, Pow2, Negate, Exp, Man;
    SameMagnitude(x);
    FiniteIgnoresSign(x);
  }

  lemma E5M2Odd(x: F32)
    requires !IsNan(x)
    ensures E5M2Encode(Negate(x)) == (E5M2Encode(x) + 0x80) % 0x100
  {
    hide E5M2Finite, One, Pow2, Negate, Exp, Man;
    SameMagnitude(x);
    FiniteIgnoresSign(x);
  }

  lemma SameMagnitude(x: F32)
    ensures Exp(Negate(x)) == Exp(x) && Man(Negate(x)) == Man(x) && Negative(Negate(x)) == !Negative(x)
  {
    var h, m := x / 0x80_0000, x % 0x80_0000;
    var h' := if Negative(x) then h - 256 else h + 256;
    assert Negate(x) == h' * 0x80_0000 + m;
    DivUnique(Negate(x), 0x80_0000, h', m);
  }

  lemma FiniteIgnoresSign(x: F32)
    ensures IsFinite(x) ==> E4M3Finite(x) == E4M3Finite(Negate(x)) && E5M2Finite(x) == E5M2Finite(Negate(x))
  {
    hide RoundScaled, Pow2;
    SameMagnitude(x);
  }

  // ----- NaN, infinities and landmarks -----

  /** Only NaN becomes NaN; an infinity saturates at 448 in E4M3 and stays one in E5M2. */
  lemma Specials(x: F32)
    ensures E4M3Decode(E4M3Encode(x)).NaN? <==> IsNan(x)
    ensures E5M2Decode(E5M2Encode(x)).NaN? <==> IsNan(x)
    ensures IsInfinite(x) ==> E4M3Decode(E4M3Encode(x)) == Finite(Negative(x), 448 * One())
    ensures IsInfinite(x) ==> E5M2Decode(E5M2Encode(x)) == Infinite(Negative(x))
  {
    if IsFinite(x) {
      E4M3Correct(x);
      E5M2Correct(x);
      hide E4M3Encode, E5M2Encode, E4M3Decode, E5M2Decode, NearestEven, Value, Mag, One;
    } else {
      hide E4M3Finite, E5M2Finite, Mag;
      SpecialCodes(x);
    }
  }

  lemma SpecialCodes(x: F32)
    requires !IsFinite(x)
    ensures E4M3Decode(E4M3Encode(x)) == if IsNan(x) then NaN else Finite(Negative(x), 448 * One())
    ensures if IsNan(x) then E5M2Decode(E5M2Encode(x)).NaN? else E5M2Decode(E5M2Encode(x)) == Infinite(Negative(x))
  {
    hide E4M3Finite, E5M2Finite, Pow2, Mag;
    Landmarks();
    hide One;
  }

  /** One, the largest finite value and the smallest positive one of each format. */
  lemma Landmarks()
    ensures E4M3Decode(0x38) == Finite(false, One()) && E5M2Decode(0x3c) == Finite(false, One())
    ensures E4M3Decode(0x7e) == Finite(false, 448 * One()) && E4M3Decode(0xfe) == Finite(true, 448 * One())
    ensures E5M2Decode(0x7b) == Finite(false, 57344 * One())
    ensures E4M3Decode(0x01).Finite? && E4M3Decode(0x01).mag * 512 == One()
    ensures E5M2Decode(0x01).Finite? && E5M2Decode(0x01).mag * 65536 == One()
  {
    hide Pow2, One;
    LandmarkPowers();
  }

  lemma LandmarkPowers()
    ensures 8 * Pow2(146) == One() && 4 * Pow2(147) == One() && Pow2(154) == 32 * One() && Pow2(162) == 8192 * One()
    ensures Pow2(140) * 512 == One() && Pow2(133) * 65536 == One()
  {
    hide Pow2;
    PowerTimes(3, 146, 8);
    PowerTimes(2, 147, 4);
    PowerTimes(5, 149, 32);
    PowerTimes(9, 140, 512);
    PowerTimes(16, 133, 65536);
    PowerTimes(13, 149, 8192);
  }

  lemma PowerTimes(a: nat, b: nat, k: nat)
    requires (a == 2 && k == 4) || (a == 3 && k == 8) || (a == 5 && k == 32) || (a == 9 && k == 512)
             || (a == 13 && k == 8192) || (a == 16 && k == 65536)
    ensures Pow2(a + b) == k * Pow2(b)
  {
    assert Pow2(2) == 4 && Pow2(3) == 8 && Pow2(5) == 32 && Pow2(8) == 256 && Pow2(9) == 512;
    hide Pow2;
    Pow2Add(8, 5);
    Pow2Add(8, 8);
    Pow2Add(a, b);
  }

  // ----- round trips -----

  /** The f32 that the E4M3 decoder returns for a byte that is not a NaN: exponent and mantissa fields. */
  function E4M3Fields(b: Byte): (f: (nat, nat))
    requires b % 0x80 <= 0x7e
    ensures f.0 < 255 && f.1 < 0x80_0000
  {
    var c := b % 0x80;
    if c >= 8 then (c / 8 + 120, c % 8 * 0x10_0000)
    else if c >= 4 then (120, (c - 4) * 0x20_0000)
    else if c >= 2 then (119, (c - 2) * 0x40_0000)
    else if c == 1 then (118, 0)
    else (0, 0)
  }

  function E4M3ToF32(b: Byte): F32
    requires b % 0x80 <= 0x7e
  {
    b / 0x80 * 0x8000_0000 + E4M3Fields(b).0 * 0x80_0000 + E4M3Fields(b).1
  }

  function E5M2Fields(b: Byte): (f: (nat, nat))
    requires b % 0x80 <= 0x7b
    ensures f.0 < 255 && f.1 < 0x80_0000
  {
    var c := b % 0x80;
    if c >= 4 then (c / 4 + 112, c % 4 * 0x20_0000)
    else if c >= 2 then (112, (c - 2) * 0x40_0000)
    else if c == 1 then (111, 0)
    else (0, 0)
  }

  function E5M2ToF32(b: Byte): F32
    requires b % 0x80 <= 0x7b
  {
    b / 0x80 * 0x8000_0000 + E5M2Fields(b).0 * 0x80_0000 + E5M2Fields(b).1
  }

  lemma FieldsOf(x: F32, sign: nat, e: nat, man: nat)
    requires x == sign * 0x8000_0000 + e * 0x80_0000 + man && sign < 2 && e < 256 && man < 0x80_0000
    ensures Exp(x) == e && Man(x) == man && (Negative(x) <==> sign == 1)
  {
    DivUnique(x, 0x80_0000, 256 * sign + e, man);
    DivUnique(256 * sign + e, 256, sign, e);
    DivUnique(x, 0x8000_0000, sign, e * 0x80_0000 + man);
  }

  lemma MagOfFields(x: F32, e: nat, k: nat, g: nat)
    requires IsFinite(x) && e == Exp(x) >= 1 && 0x80_0000 + Man(x) == k * Pow2(g)
    ensures Mag(x) == k * Pow2(g + e - 1)
  {
    hide Pow2;
    Pow2Add(g, e - 1);
    ThreeFactors(k, Pow2(g), Pow2(e - 1));
  }

  lemma Powers()
    ensures Pow2(20) == 0x10_0000 && Pow2(21) == 0x20_0000 && Pow2(22) == 0x40_0000 && Pow2(23) == 0x80_0000
  {
    assert Pow2(10) == 0x400;
    Pow2Add(10, 10);
  }

  lemma E4M3ToF32Value(b: Byte)
    requires b % 0x80 <= 0x7e
    ensures var x := E4M3ToF32(b);
            IsFinite(x) && E4M3Decode(b) == Finite(Negative(x), Mag(x)) && Mag(x) == Value(E4M3, b % 0x80)
            && (Negative(x) <==> b >= 0x80)
  {
    hide Pow2, Value, E4M3Decode, Mag, E4M3Fields;
    var x := E4M3ToF32(b);
    var (e, man) := E4M3Fields(b);
    FieldsOf(x, b / 0x80, e, man);
    E4M3DecodeIsValue(b, b % 0x80);
    E4M3FieldsValue(b, x);
  }

  lemma E4M3FieldsValue(b: Byte, x: F32)
    requires b % 0x80 <= 0x7e && Exp(x) == E4M3Fields(b).0 && Man(x) == E4M3Fields(b).1
    ensures Mag(x) == Value(E4M3, b % 0x80)
  {
    E4M3Max();
    Powers();
    hide Pow2, Value, Mag, Exp, Man;
    var c := b % 0x80;
    if c >= 8 {
      MagOfFields(x, c / 8 + 120, 8 + c % 8, 20);
      ValueAt(E4M3, c, c / 8, c % 8);
    } else {
      SubnormalValue(E4M3, c);
      if c >= 4 {
        MagOfFields(x, 120, c, 21);
      } else if c >= 2 {
        MagOfFields(x, 119, c, 22);
      } else if c == 1 {
        MagOfFields(x, 118, 1, 23);
      } else {
        MagOfZero(x);
      }
    }
  }

  lemma MagOfZero(x: F32)
    requires Exp(x) == 0 && Man(x) == 0
    ensures Mag(x) == 0
  {
  }

  lemma E5M2ToF32Value(b: Byte)
    requires b % 0x80 <= 0x7b
    ensures var x := E5M2ToF32(b);
            IsFinite(x) && E5M2Decode(b) == Finite(Negative(x), Mag(x)) && Mag(x) == Value(E5M2, b % 0x80)
            && (Negative(x) <==> b >= 0x80)
  {
    hide Pow2, Value, E5M2Decode, Mag, E5M2Fields;
    var x := E5M2ToF32(b);
    var (e, man) := E5M2Fields(b);
    FieldsOf(x, b / 0x80, e, man);
    E5M2DecodeIsValue(b, b % 0x80);
    E5M2FieldsValue(b, x);
  }

  lemma E5M2FieldsValue(b: Byte, x: F32)
    requires b % 0x80 <= 0x7b && Exp(x) == E5M2Fields(b).0 && Man(x) == E5M2Fields(b).1
    ensures Mag(x) == Value(E5M2, b % 0x80)
  {
    E5M2Max();
    Powers();
    hide Pow2, Value, Mag, Exp, Man;
    var c := b % 0x80;
    if c >= 4 {
      MagOfFields(x, c / 4 + 112, 4 + c % 4, 21);
      ValueAt(E5M2, c, c / 4, c % 4);
    } else {
      SubnormalValue(E5M2, c);
      if c >= 2 {
        MagOfFields(x, 112, c, 22);
      } else if c == 1 {
        MagOfFields(x, 111, 1, 23);
      } else {
        MagOfZero(x);
      }
    }
  }

  /** Encoding undoes decoding on every finite byte, both zeros included. */
  lemma E4M3RoundTrip(b: Byte)
    requires b % 0x80 <= 0x7e
    ensures E4M3Encode(E4M3ToF32(b)) == b
  {
    hide Pow2, Value, NearestEven, E4M3Encode, E4M3Decode, E4M3ToF32, Mag;
    var x := E4M3ToF32(b);
    E4M3ToF32Value(b);
    E4M3Correct(x);
    RepresentableRounds(E4M3, Mag(x), b % 0x80, E4M3Encode(x) % 0x80);
  }

  lemma E5M2RoundTrip(b: Byte)
    requires b % 0x80 <= 0x7b
    ensures E5M2Encode(E5M2ToF32(b)) == b
  {
    hide Pow2, Value, NearestEven, E5M2Encode, E5M2Decode, E5M2ToF32, Mag, One;
    var x := E5M2ToF32(b);
    E5M2ToF32Value(b);
    E5M2Correct(x);
    E5M2Max();
    ValueMonotoneOrEqual(E5M2, b % 0x80, 0x7b);
    RepresentableRounds(E5M2, Mag(x), b % 0x80, E5M2Encode(x) % 0x80);
  }

  // ----- thresholds -----

  lemma ZeroRegion(f: Format, x: nat, c: nat)
    requires NearestEven(f, x, c) && f.qe >= 1 && f.last >= 1 && f.mb >= 1
    ensures c == 0 <==> x <= Pow2(f.qe - 1)
  {
    hide Pow2;
    Pow2Add(1, f.qe - 1);
    PowerOne();
    Pow2Monotone(1, f.mb);
    SubnormalValue(f, 0);
    SubnormalValue(f, 1);
    ValueStep(f, 0);
    NearestBeats(f, x, c, 1);
    NearestBeats(f, x, c, 0);
    if x <= Pow2(f.qe - 1) {
      NeighbourIsNearest(f, x, 0, 0);
      NearestUnique(f, x, c, 0);
    }
  }

  /** A magnitude becomes zero exactly up to half the subnormal step, 2^-10 and 2^-17, that tie included. */
  lemma Underflow(x: F32)
    requires IsFinite(x)
    ensures E4M3Encode(x) % 0x80 == 0 <==> Mag(x) <= Pow2(139)
    ensures Mag(x) <= 57344 * One() ==> (E5M2Encode(x) % 0x80 == 0 <==> Mag(x) <= Pow2(132))
  {
    hide Pow2, Value, NearestEven, E4M3Encode, E4M3Decode, E5M2Encode, E5M2Decode, Mag, One;
    E4M3Correct(x);
    ZeroRegion(E4M3, Mag(x), E4M3Encode(x) % 0x80);
    E5M2Correct(x);
    if Mag(x) <= 57344 * One() {
      ZeroRegion(E5M2, Mag(x), E5M2Encode(x) % 0x80);
    }
  }

  /** Round-to-nearest-even with the overflow rule of section 4.3.1 of IEEE 754-2019: infinity from
      2^15 * (2 - 2^-3) = 61440 on. */
  ghost predicate E5M2Ieee(x: nat, c: nat) {
    if x >= 61440 * One() then c == 0x7c else NearestEven(E5M2, x, c)
  }

  /** E5M2 encoding follows that rule exactly outside the open interval from 57344 to 61440, where it gives
      infinity too early. */
  lemma E5M2OverflowExact(x: F32)
    requires IsFinite(x)
    ensures E5M2Ieee(Mag(x), E5M2Encode(x) % 0x80) <==> !(57344 * One() < Mag(x) < 61440 * One())
  {
    hide Pow2, Value, E5M2Decode, Mag, One;
    hide E5M2Finite;
    E5M2Correct(x);
  }

  // ----- error bounds -----

  /** The rounding error is at most half the subnormal step, or the value is at least 2^(mb+1) + 1 times the error. */
  lemma NearestError(f: Format, x: nat, c: nat)
    requires NearestEven(f, x, c) && x <= Value(f, f.last)
    ensures var e := Dist(x, Value(f, c));
            2 * e <= Pow2(f.qe) || 2 * (Pow2(f.mb) * e) + e <= x
  {
    hide Pow2, Value, Gap;
    if Value(f, c) <= x {
      if c < f.last {
        NearestBeats(f, x, c, c + 1);
        ValueStep(f, c);
        HalfGap(f, c, x, Dist(x, Value(f, c)));
      }
    } else {
      SubnormalZero(f);
      ValueStep(f, c - 1);
      NearestBeats(f, x, c, c - 1);
      HalfGap(f, c - 1, x, Dist(x, Value(f, c)));
    }
  }

  lemma HalfGap(f: Format, c: nat, x: nat, dist: nat)
    requires Value(f, c) + dist <= x && 2 * dist <= Gap(f, c)
    ensures 2 * dist <= Pow2(f.qe) || 2 * (Pow2(f.mb) * dist) + dist <= x
  {
    hide Pow2;
    var m := Pow2(f.mb);
    if c >= m {
      MulMonotone(m, 2 * dist, Gap(f, c));
      MulMonotone(Gap(f, c), m, m + c % m);
      assert m * (2 * dist) == 2 * (m * dist);
    }
  }

  lemma Units()
    ensures One() == 512 * Pow2(140) == 65536 * Pow2(133)
  {
    hide Pow2;
    Pow2Add(9, 140);
    Pow2Add(16, 133);
    SmallUnits();
  }

  lemma SmallUnits()
    ensures Pow2(9) == 512 && Pow2(16) == 65536
  {
    assert Pow2(8) == 256;
    Pow2Add(8, 8);
  }

  lemma E4M3Error(x: F32)
    requires IsFinite(x)
    ensures var v := Value(E4M3, E4M3Encode(x) % 0x80);
            var e := Dist(Mag(x), v);
            1024 * e <= One() || 17 * e <= Mag(x) || (v == 448 * One() && e == Mag(x) - v)
  {
    hide Pow2, Value, NearestEven, E4M3Encode, E4M3Decode, Mag, One;
    Units();
    E4M3Correct(x);
    E4M3Max();
    var c := E4M3Encode(x) % 0x80;
    if Mag(x) <= 448 * One() {
      NearestError(E4M3, Mag(x), c);
    } else {
      NeighbourIsNearest(E4M3, Mag(x), 0x7e, 0x7e);
      NearestUnique(E4M3, Mag(x), c, 0x7e);
    }
  }

  lemma E5M2Error(x: F32)
    requires IsFinite(x) && Mag(x) <= 57344 * One()
    ensures var e := Dist(Mag(x), Value(E5M2, E5M2Encode(x) % 0x80));
            131072 * e <= One() || 9 * e <= Mag(x)
  {
    hide Pow2, Value, NearestEven, E5M2Encode, E5M2Decode, Mag, One;
    Units();
    E5M2Correct(x);
    E5M2Max();
    NearestError(E5M2, Mag(x), E5M2Encode(x) % 0x80);
  }

  // ----- the weights of a block -----

  /** An integer number of units as a real number. */
  function Real(x: int): real {
    x as real / One() as real
  }

  /** The f32 as a real number. */
  function F32Real(x: F32): real
    requires IsFinite(x)
  {
    Real(Signed(x))
  }

  lemma RealOrder(a: int, k: int, b: int)
    requires k > 0 && k * a <= b
    ensures Real(a) * k as real <= Real(b)
  {
    hide One;
    var u := One() as real;
    assert k as real * a as real <= b as real;
    assert k as real * (a as real / u) == (k as real * a as real) / u;
    DivOrder(k as real * a as real, b as real, u);
  }

  lemma DivOrder(a: real, b: real, u: real)
    requires a <= b && u > 0.0
    ensures a / u <= b / u
  {
  }

  lemma RealDifference(a: int, b: int)
    ensures Real(a - b) == Real(a) - Real(b)
  {
    hide One;
  }

  lemma RealOfOnes(k: int)
    ensures Real(k * One()) == k as real
  {
    hide One;
  }

  /** The distance of two values of the same sign is that of their magnitudes. */
  lemma SameSignDistance(neg: bool, x: nat, y: nat)
    ensures Abs(Real(WithSign(neg, x)) - Real(WithSign(neg, y))) == Real(Dist(x, y))
    ensures Abs(Real(WithSign(neg, x))) == Real(x) >= 0.0
  {
    hide One;
    RealDifference(WithSign(neg, x), WithSign(neg, y));
    RealDifference(0, x);
    RealDifference(0, Dist(x, y));
    RealOrder(0, 1, x);
    RealOrder(0, 1, Dist(x, y));
  }

  /** Rounding error of E4M3, as a real number: relative, subnormal step, saturation. */
  lemma E4M3RealError(q: F32)
    requires IsFinite(q)
    ensures E4M3Decode(E4M3Encode(q)).Finite?
    ensures var w, w' := F32Real(q), Real(DecodedValue(E4M3Decode(E4M3Encode(q))));
            Abs(w - w') <= Abs(w) / 16.0 + 1.0 / 1024.0 + Max(0.0, Abs(w) - 448.0)
  {
    hide Pow2, Value, NearestEven, E4M3Encode, E4M3Decode, Mag, One, Real;
    E4M3Correct(q);
    E4M3Error(q);
    var x, y := Mag(q), Value(E4M3, E4M3Encode(q) % 0x80);
    var e := Dist(x, y);
    SameSignDistance(Negative(q), x, y);
    RealOfOnes(1);
    if 1024 * e <= One() {
      RealOrder(e, 1024, One());
    } else if 17 * e <= x {
      RealOrder(e, 17, x);
    } else {
      RealDifference(x, 448 * One());
      RealOfOnes(448);
    }
  }

  lemma E5M2RealError(q: F32)
    requires IsFinite(q) && Mag(q) <= 57344 * One()
    ensures E5M2Decode(E5M2Encode(q)).Finite?
    ensures var w, w' := F32Real(q), Real(DecodedValue(E5M2Decode(E5M2Encode(q))));
            Abs(w - w') <= Abs(w) / 8.0 + 1.0 / 131072.0
  {
    hide Pow2, Value, NearestEven, E5M2Encode, E5M2Decode, Mag, One, Real;
    E5M2Correct(q);
    E5M2Error(q);
    var x, y := Mag(q), Value(E5M2, E5M2Encode(q) % 0x80);
    var e := Dist(x, y);
    SameSignDistance(Negative(q), x, y);
    RealOfOnes(1);
    if 131072 * e <= One() {
      RealOrder(e, 131072, One());
    } else {
      RealOrder(e, 9, x);
    }
  }

  /** Scaling by s and the triangle inequality. */
  lemma ScaledTriangle(v: real, s: real, w: real, w': real, bound: real)
    requires s > 0.0 && Abs(w - w') <= bound
    ensures Abs(v - s * w') <= Abs(v - s * w) + s * bound
  {
    var d := w - w';
    assert s * w' == s * w - s * d;
    ScaleOrder(s, d, bound);
    ScaleOrder(s, -bound, d);
    assert s * -bound == -(s * bound);
  }

  /** The error of one weight v of an E4M3 block with positive stored scale s, when the quotient encoded is the
      f32 q: rounding, the subnormal step, and saturation when the stored scale was rounded down. The first term
      is the rounding of the division, zero when q is v / s. */
  lemma E4M3BlockError(v: real, s: real, q: F32)
    requires s > 0.0 && IsFinite(q)
    ensures E4M3Decode(E4M3Encode(q)).Finite?
    ensures var w, w' := F32Real(q), Real(DecodedValue(E4M3Decode(E4M3Encode(q))));
            Abs(v - s * w') <= Abs(v - s * w) + s * (Abs(w) / 16.0 + 1.0 / 1024.0 + Max(0.0, Abs(w) - 448.0))
  {
    hide E4M3Encode, E4M3Decode, Mag, Real, Max, Abs;
    E4M3RealError(q);
    var w, w' := F32Real(q), Real(DecodedValue(E4M3Decode(E4M3Encode(q))));
    ScaledTriangle(v, s, w, w', Abs(w) / 16.0 + 1.0 / 1024.0 + Max(0.0, Abs(w) - 448.0));
  }

  /** The error of one weight of an E5M2 block, up to the overflow threshold. */
  lemma E5M2BlockError(v: real, s: real, q: F32)
    requires s > 0.0 && IsFinite(q) && Mag(q) <= 57344 * One()
    ensures E5M2Decode(E5M2Encode(q)).Finite?
    ensures var w, w' := F32Real(q), Real(DecodedValue(E5M2Decode(E5M2Encode(q))));
            Abs(v - s * w') <= Abs(v - s * w) + s * (Abs(w) / 8.0 + 1.0 / 131072.0)
  {
    hide E5M2Encode, E5M2Decode, Mag, Real, Abs, One;
    E5M2RealError(q);
    var w, w' := F32Real(q), Real(DecodedValue(E5M2Decode(E5M2Encode(q))));
    ScaledTriangle(v, s, w, w', Abs(w) / 8.0 + 1.0 / 131072.0);
  }

  // ----- the f32 arithmetic of the subnormal path -----

  /** The values of f32, as magnitudes: 24-bit integers times a power of two, below 2^128. */
  ghost predicate IsF32Magnitude(x: nat) {
    exists k, j :: HasShape(x, k, j)
  }

  ghost predicate HasShape(x: nat, k: nat, j: nat) {
    x == k * Pow2(j) && k < 0x100_0000 && j <= 253
  }

  /** The scaled value and the fraction of the subnormal path are f32 values, so computing them in f32 rounds
      nothing. */
  lemma SubnormalStepsExact(x: F32, sh: nat)
    requires IsFinite(x) && Exp(x) + sh <= 129
    ensures IsF32Magnitude(Mag(x) * Pow2(sh))
    ensures IsF32Magnitude(Mag(x) * Pow2(sh) % One())
  {
    hide Pow2, Mag;
    var k, j := MagShape(x);
    var n := j + sh;
    Pow2Add(j, sh);
    ThreeFactors(k, Pow2(j), Pow2(sh));
    assert HasShape(Mag(x) * Pow2(sh), k, n);
    if n < 120 {
      SmallFraction(k, n);
    } else {
      Pow2Add(149 - n, n);
      ScaledDivMod(k, Pow2(149 - n), Pow2(n), One());
      ModSmaller(k, Pow2(149 - n));
      assert HasShape(Mag(x) * Pow2(sh) % One(), k % Pow2(149 - n), n);
    }
  }

  lemma ModSmaller(k: nat, t: nat)
    requires t > 0
    ensures k % t <= k
  {
  }
}
