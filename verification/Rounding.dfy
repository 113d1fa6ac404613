/** Exact-real counterparts of the f32 rounding and clamping steps of the block quantisers, the largest magnitude of a
    chunk, and what storing a scale as f16 costs. */
module Rounding {
  function Abs(x: real): real {
    if x < 0.0 then -x else x
  }

  function Max(x: real, y: real): real {
    if x < y then y else x
  }

  function Min(x: real, y: real): real {
    if y < x then y else x
  }

  function Clamp(x: real, lo: real, hi: real): (r: real)
    requires lo <= hi
    ensures lo <= r <= hi
  {
    if x < lo then lo else if x > hi then hi else x
  }

  /** `f32::round`: to the nearest integer, halves away from zero. */
  function Round(x: real): int {
    if x >= 0.0 then (x + 0.5).Floor else -((-x + 0.5).Floor)
  }

  /** The integer it rounds to is the only one within one half, and of two equally near the one further from zero. */
  lemma RoundExact(x: real, n: int)
    ensures n == Round(x) <==> Abs(x - n as real) < 0.5 || (Abs(x - n as real) == 0.5 && Abs(n as real) > Abs(x))
  {
    var f := if x >= 0.0 then (x + 0.5).Floor else (-x + 0.5).Floor;
    assert f as real <= Abs(x) + 0.5 < f as real + 1.0;
  }

  /** The reciprocal, or zero for a scale that is not positive. */
  function Inverse(d: real): real {
    if d > 0.0 then 1.0 / d else 0.0
  }

  /** `as u8` of an integral value: saturating. */
  function ToByte(n: int): bv8 {
    if n < 0 then 0 else if n > 255 then 255 else n as bv8
  }

  lemma ToByteInt(n: int)
    requires 0 <= n < 64
    ensures ToByte(n) as int == n
  {
    assert ToByte(n) == n as bv8;
    ByteRoundTrip(n);
  }

  lemma ByteRoundTrip(n: int)
    requires 0 <= n < 64
    ensures (n as bv8) as int == n
  {
  }

  lemma ToByteSmall(n: int)
    requires 0 <= n < 64
    ensures ToByte(n) < 64
    ensures n < 32 ==> ToByte(n) < 32
    ensures n < 16 ==> ToByte(n) <= 0x0F
    ensures n < 4 ==> ToByte(n) <= 0x03
  {
  }

  /** The largest finite f32. */
  const F32_MAX := 340282346638528859811704183484516925440.0

  // ----- multiplication by a scale -----

  lemma ScaleOrder(s: real, a: real, b: real)
    requires s >= 0.0 && a <= b
    ensures s * a <= s * b
  {
  }

  lemma ScaleHalf(s: real, t: real)
    requires s >= 0.0 && Abs(t) <= 0.5
    ensures Abs(s * t) <= s / 2.0
  {
    ScaleOrder(s, t, 0.5);
    ScaleOrder(s, -0.5, t);
  }

  lemma Difference(a: real, b: real, x: real)
    ensures (a - b) * x == a * x - b * x
  {
  }

  /** A quotient t within one half of q: the products with the scale are within half the scale. */
  lemma WithinHalf(scale: real, t: real, q: real, w: real, p: real)
    requires scale >= 0.0 && Abs(t - q) <= 0.5 && w == scale * t && p == scale * q
    ensures Abs(w - p) <= scale / 2.0
  {
    ScaleHalf(scale, t - q);
    Difference(t, q, scale);
  }

  lemma InverseScales(d: real, x: real)
    requires d > 0.0
    ensures d * (x * Inverse(d)) == x
  {
    assert d * Inverse(d) == 1.0;
    assert d * (x * Inverse(d)) == x * (d * Inverse(d));
  }

  lemma ScaleStrict(s: real, a: real, b: real)
    requires s > 0.0 && a < b
    ensures s * a < s * b
  {
  }

  lemma Cancel(d: real, a: real, b: real)
    requires d > 0.0 && d * a == d * b
    ensures a == b
  {
    if a < b {
      ScaleStrict(d, a, b);
    } else if b < a {
      ScaleStrict(d, b, a);
    }
  }

  // ----- super-blocks and their largest magnitudes -----

  /** The weights of a super-block. */
  const QK_K := 256

  /** The largest magnitude of the n weights from lo. */
  function AbsMax(ws: seq<real>, lo: nat, n: nat): (m: real)
    requires lo + n <= |ws|
    ensures m >= 0.0
  {
    if n == 0 then 0.0 else Max(AbsMax(ws, lo, n - 1), Abs(ws[lo + n - 1]))
  }

  lemma {:induction false} AbsMaxBound(ws: seq<real>, lo: nat, n: nat, i: nat)
    requires lo + n <= |ws| && lo <= i < lo + n
    ensures Abs(ws[i]) <= AbsMax(ws, lo, n)
  {
    if i < lo + n - 1 {
      AbsMaxBound(ws, lo, n - 1, i);
    }
  }

  lemma {:induction false} AbsMaxAttained(ws: seq<real>, lo: nat, n: nat) returns (i: nat)
    requires lo + n <= |ws| && n > 0
    ensures lo <= i < lo + n && Abs(ws[i]) == AbsMax(ws, lo, n)
  {
    if n > 1 && AbsMax(ws, lo, n - 1) > Abs(ws[lo + n - 1]) {
      i := AbsMaxAttained(ws, lo, n - 1);
    } else {
      i := lo + n - 1;
    }
  }

  /** The largest magnitude of all the weights. */
  function Peak(ws: seq<real>): (m: real)
    ensures m >= 0.0
  {
    AbsMax(ws, 0, |ws|)
  }

  lemma PeakBound(ws: seq<real>, i: nat)
    requires i < |ws|
    ensures Abs(ws[i]) <= Peak(ws)
  {
    AbsMaxBound(ws, 0, |ws|, i);
  }

  lemma PeakAttained(ws: seq<real>) returns (i: nat)
    requires |ws| > 0
    ensures i < |ws| && Abs(ws[i]) == Peak(ws)
  {
    i := AbsMaxAttained(ws, 0, |ws|);
  }

  method LargestMagnitude(ws: seq<real>) returns (m: real)
    ensures m == Peak(ws)
  {
    m := 0.0;
    for i := 0 to |ws|
      invariant m == AbsMax(ws, 0, i)
    {
      m := Max(m, Abs(ws[i]));
    }
  }

  // ----- storing a scale -----

  /** How far the product with x moves when d' is stored for d. */
  function StorageGap(d: real, d': real, x: int): real {
    Abs(d' - d) * Abs(x as real)
  }

  lemma ProductGap(d: real, d': real, x: int, p: real, p': real)
    requires p == d * x as real && p' == d' * x as real
    ensures Abs(p' - p) == Abs(p - p') == StorageGap(d, d', x)
  {
    Difference(d', d, x as real);
    AbsProduct(d' - d, x as real);
  }

  /** The same for a product of a scale, a factor and a code. */
  lemma CodesGap(d: real, d': real, sc: int, q: int, p: real, p': real)
    requires p == d * sc as real * q as real && p' == d' * sc as real * q as real
    ensures Abs(p - p') == StorageGap(d, d', sc * q)
  {
    hide Abs, StorageGap;
    var x := (sc * q) as real;
    assert x == sc as real * q as real;
    ThreeProduct(d, sc as real, q as real);
    ThreeProduct(d', sc as real, q as real);
    ProductGap(d, d', sc * q, p, p');
  }

  lemma AbsProduct(a: real, b: real)
    ensures Abs(a * b) == Abs(a) * Abs(b)
  {
    if a >= 0.0 && b >= 0.0 {
      Sign(a, b);
    } else if a >= 0.0 {
      Sign(a, -b);
    } else if b >= 0.0 {
      Sign(-a, b);
    } else {
      Sign(-a, -b);
    }
  }

  lemma Sign(a: real, b: real)
    requires a >= 0.0 && b >= 0.0
    ensures a * b >= 0.0
    ensures -a * b == -(a * b) && a * -b == -(a * b) && -a * -b == a * b
  {
  }

  lemma ThreeProduct(d: real, a: real, b: real)
    ensures d * a * b == d * (a * b)
  {
  }

  lemma Triangle(a: real, b: real, c: real)
    ensures Abs(a - c) <= Abs(a - b) + Abs(b - c)
  {
  }

  /** `half` rounds x with the relative error of an 11-bit significand. */
  ghost predicate HalfPrecision(half: real -> real, x: real) {
    Abs(half(x) - x) <= x / 2048.0
  }

  /** Rounding d to f16 moves its product with x by a 2048th at most. */
  lemma HalfGap(half: real -> real, d: real, x: int, product: real)
    requires d >= 0.0 && HalfPrecision(half, d) && product == d * x as real
    ensures StorageGap(d, half(d), x) <= Abs(product) / 2048.0
  {
    var y := Abs(x as real);
    AbsProduct(d, x as real);
    ScaleOrder(y, Abs(half(d) - d), d / 2048.0);
    assert y * (d / 2048.0) == d * y / 2048.0;
  }

  /** The same for a product of a scale, a factor and a code. */
  lemma HalfCodes(half: real -> real, d: real, sc: int, q: int, product: real)
    requires d >= 0.0 && HalfPrecision(half, d) && product == d * sc as real * q as real
    ensures StorageGap(d, half(d), sc * q) <= Abs(product) / 2048.0
  {
    hide StorageGap, HalfPrecision, Abs;
    var x := (sc * q) as real;
    assert x == sc as real * q as real;
    ThreeProduct(d, sc as real, q as real);
    HalfGap(half, d, sc * q, product);
  }
}
