/** The layout changes around attention and the image decoder: each is a transposition of rows, undone by the other way
    round. */
module Layouts {
  import opened Blocked
  import opened Gemm
  import opened ParRows
  import opened Results

  /** Seen as an a by b matrix of stretches of w elements, x is the transpose of y. */
  ghost predicate Transposed(x: seq<real>, y: seq<real>, a: nat, b: nat, w: nat) {
    && |x| == a * b * w && |y| == b * a * w
    && forall t: nat, h: nat :: t < a && h < b ==>
         At(t, h, b) < a * b && At(h, t, a) < b * a
         && Row(y, b * a, w, At(h, t, a)) == Row(x, a * b, w, At(t, h, b))
  }

  /** Element by element, with the places written out. */
  lemma TransposedElement(x: seq<real>, y: seq<real>, a: nat, b: nat, w: nat, t: nat, h: nat, j: nat, i: nat, i': nat)
    requires Transposed(x, y, a, b, w) && t < a && h < b && j < w
    requires i == (t * b + h) * w + j && i' == (h * a + t) * w + j
    ensures i < |x| && i' < |y| && y[i'] == x[i]
  {
    var r, r' := t * b + h, h * a + t;
    assert At(t, h, b) == r && At(h, t, a) == r';
    assert r < a * b && r' < b * a && Row(y, b * a, w, r') == Row(x, a * b, w, r);
    hide Row, Transposed;
    ElementAt(x, a * b, w, r, j, i);
    ElementAt(y, b * a, w, r', j, i');
  }

  /** Transposing twice gives the original back. */
  lemma TransposeTwice(x: seq<real>, y: seq<real>, z: seq<real>, a: nat, b: nat, w: nat)
    requires Transposed(x, y, a, b, w) && Transposed(y, z, b, a, w)
    ensures z == x
  {
    hide Row, At;
    forall i: nat | i < |x|
      ensures z[i] == x[i]
    {
      IndexInRange(w, a * b, i);
      var r := i / w;
      IndexInRange(b, a, r);
      var t, h := r / b, r % b;
      CellOf(r, b);
      assert Row(z, a * b, w, At(t, h, b)) == Row(x, a * b, w, At(t, h, b));
      ElementOfRow(x, a * b, w, i);
      ElementOfRow(z, a * b, w, i);
    }
  }

  lemma CellOf(r: nat, n: nat)
    requires n > 0
    ensures At(r / n, r % n, n) == r
  {
  }

  lemma ElementOfRow(x: seq<real>, rows: nat, w: nat, i: nat)
    requires |x| == rows * w && i < |x| && w > 0 && i / w < rows && i % w < w && i == w * (i / w) + i % w
    ensures x[i] == Row(x, rows, w, i / w)[i % w]
  {
    ElementAt(x, rows, w, i / w, i % w, i);
  }

  lemma ElementAt(x: seq<real>, rows: nat, w: nat, r: nat, j: nat, i: nat)
    requires |x| == rows * w && r < rows && j < w && i == w * r + j
    ensures i < |x| && x[i] == Row(x, rows, w, r)[j]
  {
    RowInRange(r, rows, w);
  }

  /** The transposition with the rows that have been copied so far: all of rows below t, and of row t those below h. */
  ghost predicate CopiedSoFar(x: seq<real>, y: seq<real>, a: nat, b: nat, w: nat, t: nat, h: nat) {
    && |x| == a * b * w && |y| == b * a * w
    && forall t': nat, h': nat :: t' < a && h' < b ==>
         At(t', h', b) < a * b && At(h', t', a) < b * a
         && (t' < t || (t' == t && h' < h) ==> Row(y, b * a, w, At(h', t', a)) == Row(x, a * b, w, At(t', h', b)))
  }

  lemma NothingCopied(x: seq<real>, y: seq<real>, a: nat, b: nat, w: nat)
    requires |x| == a * b * w && |y| == b * a * w
    ensures CopiedSoFar(x, y, a, b, w, 0, 0)
  {
    hide At, Row;
    forall t: nat, h: nat | t < a && h < b
      ensures At(t, h, b) < a * b && At(h, t, a) < b * a
    {
      AtInRange(t, h, a, b);
      AtInRange(h, t, b, a);
    }
  }

  lemma CopyOne(x: seq<real>, y: seq<real>, y': seq<real>, a: nat, b: nat, w: nat, t: nat, h: nat)
    requires CopiedSoFar(x, y, a, b, w, t, h) && t < a && h < b
    requires At(t, h, b) < a * b && At(h, t, a) < b * a
    requires y' == SetRow(y, b * a, w, At(h, t, a), Row(x, a * b, w, At(t, h, b)))
    ensures CopiedSoFar(x, y', a, b, w, t, h + 1)
  {
    hide At, Row, SetRow;
    forall t': nat, h': nat | t' < a && h' < b && (t' < t || (t' == t && h' < h + 1))
      ensures At(t', h', b) < a * b && At(h', t', a) < b * a
      ensures Row(y', b * a, w, At(h', t', a)) == Row(x, a * b, w, At(t', h', b))
    {
      assert At(t', h', b) < a * b && At(h', t', a) < b * a;
      RowOfSetRow(y, b * a, w, At(h, t, a), Row(x, a * b, w, At(t, h, b)), At(h', t', a));
      if At(h', t', a) == At(h, t, a) {
        AtInjective(h', t', h, t, a);
      }
    }
  }

  lemma RowCopied(x: seq<real>, y: seq<real>, a: nat, b: nat, w: nat, t: nat)
    requires CopiedSoFar(x, y, a, b, w, t, b)
    ensures CopiedSoFar(x, y, a, b, w, t + 1, 0)
  {
    hide At, Row;
  }

  /** `to_heads` with a = seq and b = num_heads; the last loop of `joint_attention` with a = num_heads and b = seq. */
  method TransposeRows(x: seq<real>, a: nat, b: nat, w: nat) returns (y: seq<real>)
    requires |x| == a * b * w
    ensures Transposed(x, y, a, b, w)
  {
    hide At, Row, SetRow, CopiedSoFar;
    var out := new real[b * a * w](_ => 0.0);
    NothingCopied(x, out[..], a, b, w);
    for t := 0 to a
      invariant CopiedSoFar(x, out[..], a, b, w, t, 0)
    {
      for h := 0 to b
        invariant CopiedSoFar(x, out[..], a, b, w, t, h)
      {
        AtInRange(t, h, a, b);
        AtInRange(h, t, b, a);
        ghost var before := out[..];
        CopyInto(out, b * a, w, At(h, t, a), Row(x, a * b, w, At(t, h, b)));
        CopyOne(x, before, out[..], a, b, w, t, h);
      }
      RowCopied(x, out[..], a, b, w, t);
    }
    y := out[..];
    AllCopied(x, y, a, b, w);
  }

  lemma AllCopied(x: seq<real>, y: seq<real>, a: nat, b: nat, w: nat)
    requires CopiedSoFar(x, y, a, b, w, a, 0)
    ensures Transposed(x, y, a, b, w)
  {
    hide At, Row;
  }

  datatype PipelineError = Shape

  /** The sequence of latents to one plane per channel: the transposition of single elements. */
  method LatentSeqToPackedNchw(latent: seq<real>, seqImg: nat, channels: nat, ph: nat, pw: nat)
    returns (r: Result<seq<real>, PipelineError>)
    ensures r.Err? <==> seqImg != ph * pw || |latent| != seqImg * channels
    ensures r.Ok? ==> Transposed(latent, r.value, seqImg, channels, 1)
  {
    hide At, Row, SetRow, CopiedSoFar;
    if seqImg != ph * pw {
      return Err(Shape);
    }
    if |latent| != seqImg * channels {
      return Err(Shape);
    }
    var plane := ph * pw;
    var packed := new real[channels * plane](_ => 0.0);
    NothingCopied(latent, packed[..], plane, channels, 1);
    for hh := 0 to ph
      invariant CopiedSoFar(latent, packed[..], plane, channels, 1, hh * pw, 0)
    {
      for ww := 0 to pw
        invariant CopiedSoFar(latent, packed[..], plane, channels, 1, hh * pw + ww, 0)
      {
        var s := hh * pw + ww;
        RowInRange(hh, ph, pw);
        for ch := 0 to channels
          invariant CopiedSoFar(latent, packed[..], plane, channels, 1, s, ch)
        {
          AtInRange(ch, s, channels, plane);
          AtInRange(s, ch, plane, channels);
          ghost var before := packed[..];
          StoreElement(packed, latent, channels, plane, ch, s);
          CopyOne(latent, before, packed[..], plane, channels, 1, s, ch);
        }
        RowCopied(latent, packed[..], plane, channels, 1, s);
      }
      assert hh * pw + pw == (hh + 1) * pw;
    }
    AllCopied(latent, packed[..], plane, channels, 1);
    r := Ok(packed[..]);
  }

  method StoreElement(packed: array<real>, latent: seq<real>, channels: nat, plane: nat, ch: nat, s: nat)
    requires ch < channels && s < plane && packed.Length == channels * plane && |latent| == plane * channels
    requires At(ch, s, plane) < channels * plane && At(s, ch, channels) < plane * channels
    modifies packed
    ensures packed[..] == SetRow(old(packed[..]), channels * plane, 1, At(ch, s, plane),
                                 Row(latent, plane * channels, 1, At(s, ch, channels)))
  {
    ghost var was := packed[..];
    packed[ch * plane + s] := latent[s * channels + ch];
    var i := At(ch, s, plane);
    assert Row(latent, plane * channels, 1, At(s, ch, channels)) == [latent[At(s, ch, channels)]];
    assert packed[..] == was[..i] + [latent[At(s, ch, channels)]] + was[i + 1..];
  }
}
