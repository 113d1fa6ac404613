/** Bit strings, their numeric readings in both bit orders, and bytes as LSB-first bit strings
    (section 3.1.1 of RFC 1951). */
module Bits {
  type Byte = b: int | 0 <= b < 256
  type Bit = b: int | 0 <= b < 2

  function Pow2(n: nat): (r: nat)
    ensures r > 0
  {
    if n == 0 then 1 else 2 * Pow2(n - 1)
  }

  lemma {:induction false} Pow2Add(a: nat, b: nat)
    ensures Pow2(a + b) == Pow2(a) * Pow2(b)
  {
    if a > 0 {
      Pow2Add(a - 1, b);
    }
  }

  lemma {:induction false} Pow2Monotone(a: nat, b: nat)
    requires a <= b
    ensures Pow2(a) <= Pow2(b)
  {
    if a < b {
      Pow2Monotone(a, b - 1);
    }
  }

  // ----- the two readings of a bit string -----

  /** The n bits of v, least significant first. */
  function LsbBits(v: nat, n: nat): (s: seq<Bit>)
    ensures |s| == n
  {
    if n == 0 then [] else [v % 2] + LsbBits(v / 2, n - 1)
  }

  function LsbVal(s: seq<Bit>): nat {
    if s == [] then 0 else s[0] + 2 * LsbVal(s[1..])
  }

  /** The n bits of v, most significant first. */
  function MsbBits(v: nat, n: nat): (s: seq<Bit>)
    ensures |s| == n
  {
    if n == 0 then [] else MsbBits(v / 2, n - 1) + [v % 2]
  }

  function MsbVal(s: seq<Bit>): nat {
    if s == [] then 0 else 2 * MsbVal(s[..|s| - 1]) + s[|s| - 1]
  }

  lemma {:induction false} LsbValBits(v: nat, n: nat)
    requires v < Pow2(n)
    ensures LsbVal(LsbBits(v, n)) == v
  {
    if n > 0 {
      LsbValBits(v / 2, n - 1);
      assert LsbBits(v, n)[1..] == LsbBits(v / 2, n - 1);
    }
  }

  lemma {:induction false} LsbBitsVal(s: seq<Bit>)
    ensures LsbVal(s) < Pow2(|s|)
    ensures LsbBits(LsbVal(s), |s|) == s
  {
    if s != [] {
      LsbBitsVal(s[1..]);
    }
  }

  lemma LsbExact(s: seq<Bit>, v: nat)
    ensures LsbVal(s) == v <==> v < Pow2(|s|) && s == LsbBits(v, |s|)
  {
    LsbBitsVal(s);
    if v < Pow2(|s|) {
      LsbValBits(v, |s|);
    }
  }

  lemma {:induction false} LsbValSnoc(s: seq<Bit>, b: Bit)
    ensures LsbVal(s + [b]) == LsbVal(s) + b * Pow2(|s|)
  {
    if s == [] {
      assert [b][1..] == [];
    } else {
      LsbValSnoc(s[1..], b);
      assert (s + [b])[1..] == s[1..] + [b];
    }
  }

  lemma {:induction false} LsbBitsAt(v: nat, n: nat, j: nat)
    requires j < n
    ensures LsbBits(v, n)[j] == (v / Pow2(j)) % 2
  {
    if j > 0 {
      LsbBitsAt(v / 2, n - 1, j - 1);
      DivDiv(v, Pow2(j - 1));
    }
  }

  lemma DivDiv(v: nat, k: nat)
    requires k > 0
    ensures v / 2 / k == v / (2 * k)
  {
    var q, r := v / 2 / k, v / 2 % k;
    assert v / 2 == k * q + r;
    var t := 2 * r + v % 2;
    assert v == (2 * k) * q + t && 0 <= t < 2 * k;
    DivUnique(v, 2 * k, q, t);
  }

  lemma DivUnique(v: int, d: int, q: int, r: int)
    requires d > 0 && v == d * q + r && 0 <= r < d
    ensures v / d == q && v % d == r
  {
    var q', r' := v / d, v % d;
    var k := q - q';
    assert d * k == r' - r by {
      assert d * k == d * q - d * q';
    }
    if k >= 1 {
      MulAtLeast(d, k);
    } else if k <= -1 {
      MulAtMost(d, k);
    }
  }

  lemma MulAtLeast(d: int, k: int)
    requires d > 0 && k >= 1
    ensures d * k >= d
  {
  }

  lemma MulAtMost(d: int, k: int)
    requires d > 0 && k <= -1
    ensures d * k <= -d
  {
  }

  lemma MulPositive(a: nat, b: nat)
    requires a * b > 0
    ensures a > 0 && b > 0
  {
  }

  lemma MulMonotone(d: nat, x: int, y: int)
    requires x <= y
    ensures d * x <= d * y
  {
  }

  lemma DoubleBound(n: nat, w: nat, x: nat)
    requires x >= n * w
    ensures 2 * x >= n * (2 * w)
  {
    assert n * (2 * w) == 2 * (n * w);
  }

  lemma DivAtLeast(v: nat, q: nat, d: nat)
    requires d > 0 && v >= q * d
    ensures v / d >= q
  {
    if v / d < q {
      MulMonotone(d, v / d + 1, q);
    }
  }

  lemma {:induction false} MsbValBits(v: nat, n: nat)
    requires v < Pow2(n)
    ensures MsbVal(MsbBits(v, n)) == v
  {
    if n > 0 {
      MsbValBits(v / 2, n - 1);
      var s := MsbBits(v, n);
      assert s[..|s| - 1] == MsbBits(v / 2, n - 1);
    }
  }

  lemma {:induction false} MsbBitsVal(s: seq<Bit>)
    ensures MsbVal(s) < Pow2(|s|)
    ensures MsbBits(MsbVal(s), |s|) == s
  {
    if s != [] {
      MsbBitsVal(s[..|s| - 1]);
    }
  }

  /** The reading of a prefix is the reading of the whole, shifted right. */
  lemma {:induction false} MsbValPrefix(s: seq<Bit>, k: nat)
    requires k <= |s|
    ensures MsbVal(s[..k]) == MsbVal(s) / Pow2(|s| - k)
  {
    if k == |s| {
      assert s[..k] == s;
    } else {
      var s' := s[..|s| - 1];
      MsbValPrefix(s', k);
      assert s'[..k] == s[..k];
      assert MsbVal(s) / 2 == MsbVal(s');
      DivDiv(MsbVal(s), Pow2(|s'| - k));
    }
  }

  // ----- bytes -----

  /** Bit i of the stream is bit i % 8, counted from the least significant, of byte i / 8. */
  function BitsOf(data: seq<Byte>): (s: seq<Bit>)
    ensures |s| == 8 * |data|
  {
    seq(8 * |data|, i requires 0 <= i < 8 * |data| => (data[i / 8] / Pow2(i % 8)) % 2)
  }

  lemma BitsOfByte(data: seq<Byte>, k: nat)
    requires k < |data|
    ensures BitsOf(data)[8 * k..8 * k + 8] == LsbBits(data[k], 8)
  {
    forall j | 0 <= j < 8
      ensures BitsOf(data)[8 * k..8 * k + 8][j] == LsbBits(data[k], 8)[j]
    {
      LsbBitsAt(data[k], 8, j);
      assert (8 * k + j) / 8 == k && (8 * k + j) % 8 == j;
    }
  }

  lemma BitsOfSlice(data: seq<Byte>, a: nat, b: nat)
    requires a <= b <= |data|
    ensures BitsOf(data)[8 * a..8 * b] == BitsOf(data[a..b])
  {
    forall i | 0 <= i < 8 * (b - a)
      ensures BitsOf(data)[8 * a..8 * b][i] == BitsOf(data[a..b])[i]
    {
      assert (8 * a + i) / 8 == a + i / 8 && (8 * a + i) % 8 == i % 8;
    }
  }

  lemma BitsOfInjective(x: seq<Byte>, y: seq<Byte>)
    requires BitsOf(x) == BitsOf(y)
    ensures x == y
  {
    assert |x| == |y|;
    forall k | 0 <= k < |x|
      ensures x[k] == y[k]
    {
      BitsOfByte(x, k);
      BitsOfByte(y, k);
      assert Pow2(8) == 256;
      LsbValBits(x[k], 8);
      LsbValBits(y[k], 8);
    }
  }

  /** Packs bits into bytes, least significant bit first; a last partial byte is filled with zeros. */
  function ToBytes(s: seq<Bit>): (data: seq<Byte>)
  {
    if s == [] then []
    else
      var n := if |s| < 8 then |s| else 8;
      LsbBitsVal(s[..n]);
      Pow2Monotone(n, 8);
      assert Pow2(8) == 256;
      [LsbVal(s[..n])] + ToBytes(s[n..])
  }

  /** The bits t occur in s at position p. */
  predicate HasAt(s: seq<Bit>, p: nat, t: seq<Bit>) {
    p + |t| <= |s| && s[p..p + |t|] == t
  }

  lemma HasAtConcat(s: seq<Bit>, p: nat, a: seq<Bit>, b: seq<Bit>)
    ensures HasAt(s, p, a + b) <==> HasAt(s, p, a) && HasAt(s, p + |a|, b)
  {
    if p + |a| + |b| <= |s| {
      assert s[p..p + |a + b|] == s[p..p + |a|] + s[p + |a|..p + |a| + |b|];
      if HasAt(s, p, a + b) {
        assert s[p..p + |a|] == s[p..p + |a + b|][..|a|] == a;
        assert s[p + |a|..p + |a| + |b|] == s[p..p + |a + b|][|a|..] == b;
      }
    }
  }

  lemma BitsOfConcat(x: seq<Byte>, y: seq<Byte>)
    ensures BitsOf(x + y) == BitsOf(x) + BitsOf(y)
  {
    BitsOfSlice(x + y, 0, |x|);
    BitsOfSlice(x + y, |x|, |x + y|);
    assert (x + y)[0..|x|] == x && (x + y)[|x|..|x + y|] == y;
  }

  lemma {:induction false} ToBytesHolds(s: seq<Bit>)
    ensures HasAt(BitsOf(ToBytes(s)), 0, s)
    decreases |s|
  {
    if s == [] {
    } else if |s| < 8 {
      assert s[..|s|] == s;
      FirstByteHolds(ToBytes(s)[0], s, []);
    } else {
      var v, rest := ToBytes(s)[0], ToBytes(s[8..]);
      ToBytesHolds(s[8..]);
      FirstByteHolds(v, s[..8], []);
      PrefixOfConcat(BitsOf([v]), BitsOf(rest), s);
      BitsOfConcat([v], rest);
    }
  }

  lemma PrefixOfConcat(x: seq<Bit>, y: seq<Bit>, s: seq<Bit>)
    requires 8 == |x| <= |s| && s[..8] == x
    requires HasAt(y, 0, s[8..])
    ensures HasAt(x + y, 0, s)
  {
    assert s == s[..8] + s[8..];
    assert (x + y)[0..|s|] == x + y[0..|s| - 8];
  }

  lemma FirstByteHolds(v: Byte, s: seq<Bit>, rest: seq<Byte>)
    requires 0 < |s| <= 8 && v == LsbVal(s)
    ensures BitsOf([v] + rest)[..|s|] == s
  {
    var data := [v] + rest;
    BitsOfByte(data, 0);
    LowBitsPrefix(s, 8);
    assert BitsOf(data)[..|s|] == BitsOf(data)[0..8][..|s|];
  }

  /** Writing the value of s with more bits keeps s as the low bits. */
  lemma {:induction false} LowBitsPrefix(s: seq<Bit>, n: nat)
    requires |s| <= n
    ensures LsbBits(LsbVal(s), n)[..|s|] == s
  {
    if s != [] {
      LowBitsPrefix(s[1..], n - 1);
      assert LsbVal(s) / 2 == LsbVal(s[1..]) && LsbVal(s) % 2 == s[0];
    }
  }
}
