/** The length of a longest common subsequence of two token sequences, by dynamic programming. */
module Lcs {
  type Token = string

  // ----- common subsequences -----

  /** The strictly increasing positions f pick the sequence s out of a. */
  ghost predicate Embeds(f: seq<nat>, s: seq<Token>, a: seq<Token>) {
    && |f| == |s|
    && (forall i, j :: 0 <= i < j < |f| ==> f[i] < f[j])
    && forall i :: 0 <= i < |f| ==> f[i] < |a| && a[f[i]] == s[i]
  }

  ghost predicate Subsequence(s: seq<Token>, a: seq<Token>) {
    exists f: seq<nat> :: Embeds(f, s, a)
  }

  ghost predicate Common(s: seq<Token>, a: seq<Token>, b: seq<Token>) {
    Subsequence(s, a) && Subsequence(s, b)
  }

  // ----- the recurrence -----

  function Last(a: seq<Token>): Token
    requires a != []
  {
    a[|a| - 1]
  }

  function Front(a: seq<Token>): seq<Token>
    requires a != []
  {
    a[..|a| - 1]
  }

  function Length(a: seq<Token>, b: seq<Token>): nat
    decreases |a| + |b|
  {
    if a == [] || b == [] then 0
    else if Last(a) == Last(b) then Length(Front(a), Front(b)) + 1
    else if Length(Front(a), b) < Length(a, Front(b)) then Length(a, Front(b))
    else Length(Front(a), b)
  }

  /** A further token lengthens the common subsequences by at most one. */
  lemma {:induction false} OneMore(a: seq<Token>, b: seq<Token>)
    ensures a != [] ==> Length(Front(a), b) <= Length(a, b) <= Length(Front(a), b) + 1
    ensures b != [] ==> Length(a, Front(b)) <= Length(a, b) <= Length(a, Front(b)) + 1
    decreases |a| + |b|
  {
    if a != [] && b != [] {
      OneMore(Front(a), b);
      OneMore(a, Front(b));
      OneMore(Front(a), Front(b));
    }
  }

  lemma {:induction false} Symmetric(a: seq<Token>, b: seq<Token>)
    ensures Length(a, b) == Length(b, a)
    decreases |a| + |b|
  {
    if a != [] && b != [] {
      Symmetric(Front(a), Front(b));
      Symmetric(Front(a), b);
      Symmetric(a, Front(b));
    }
  }

  lemma {:induction false} AtMostEither(a: seq<Token>, b: seq<Token>)
    ensures Length(a, b) <= |a| && Length(a, b) <= |b|
    decreases |a| + |b|
  {
    if a != [] && b != [] {
      AtMostEither(Front(a), Front(b));
      AtMostEither(Front(a), b);
      AtMostEither(a, Front(b));
    }
  }

  // ----- it is the maximum -----

  /** An embedding that leaves out the last token is one in the front. */
  lemma EmbedsFront(f: seq<nat>, s: seq<Token>, a: seq<Token>)
    requires Embeds(f, s, a) && a != [] && (s == [] || f[|f| - 1] < |a| - 1)
    ensures Embeds(f, s, Front(a))
  {
  }

  lemma EmbedsWithoutLast(f: seq<nat>, s: seq<Token>, a: seq<Token>)
    requires Embeds(f, s, a) && a != [] && s != []
    ensures Embeds(f[..|f| - 1], Front(s), Front(a))
    ensures f[|f| - 1] == |a| - 1 ==> Last(s) == Last(a)
  {
  }

  /** No common subsequence is longer. */
  lemma {:induction false} NoneLonger(s: seq<Token>, f: seq<nat>, g: seq<nat>, a: seq<Token>, b: seq<Token>)
    requires Embeds(f, s, a) && Embeds(g, s, b)
    ensures |s| <= Length(a, b)
    decreases |a| + |b|
  {
    if s != [] {
      assert f[0] < |a| && g[0] < |b|;
      OneMore(a, b);
      if f[|f| - 1] < |a| - 1 {
        EmbedsFront(f, s, a);
        NoneLonger(s, f, g, Front(a), b);
      } else if g[|g| - 1] < |b| - 1 {
        EmbedsFront(g, s, b);
        NoneLonger(s, f, g, a, Front(b));
      } else {
        EmbedsWithoutLast(f, s, a);
        EmbedsWithoutLast(g, s, b);
        NoneLonger(Front(s), f[..|f| - 1], g[..|g| - 1], Front(a), Front(b));
      }
    }
  }

  lemma EmbedsInWhole(f: seq<nat>, s: seq<Token>, a: seq<Token>)
    requires a != [] && Embeds(f, s, Front(a))
    ensures Embeds(f, s, a)
    ensures Embeds(f + [|a| - 1], s + [Last(a)], a)
  {
  }

  /** Some common subsequence is as long. */
  lemma {:induction false} SomeAsLong(a: seq<Token>, b: seq<Token>) returns (s: seq<Token>, f: seq<nat>, g: seq<nat>)
    ensures |s| == Length(a, b) && Embeds(f, s, a) && Embeds(g, s, b)
    decreases |a| + |b|
  {
    if a == [] || b == [] {
      s, f, g := [], [], [];
    } else if Last(a) == Last(b) {
      s, f, g := SomeAsLong(Front(a), Front(b));
      EmbedsInWhole(f, s, a);
      EmbedsInWhole(g, s, b);
      s, f, g := s + [Last(a)], f + [|a| - 1], g + [|b| - 1];
    } else if Length(Front(a), b) < Length(a, Front(b)) {
      s, f, g := SomeAsLong(a, Front(b));
      EmbedsInWhole(g, s, b);
    } else {
      s, f, g := SomeAsLong(Front(a), b);
      EmbedsInWhole(f, s, a);
    }
  }

  /** The recurrence computes the maximum over all common subsequences. */
  lemma LengthIsMaximum(a: seq<Token>, b: seq<Token>)
    ensures exists s :: Common(s, a, b) && |s| == Length(a, b)
    ensures forall s :: Common(s, a, b) ==> |s| <= Length(a, b)
  {
    var s, f, g := SomeAsLong(a, b);
    assert Common(s, a, b);
    forall t | Common(t, a, b)
      ensures |t| <= Length(a, b)
    {
      var h: seq<nat> :| Embeds(h, t, a);
      var k: seq<nat> :| Embeds(k, t, b);
      NoneLonger(t, h, k, a, b);
    }
  }

  // ----- the table -----

  lemma PrefixFront(a: seq<Token>, i: nat)
    requires 0 < i <= |a|
    ensures Front(a[..i]) == a[..i - 1] && Last(a[..i]) == a[i - 1]
  {
  }

  /** `lcs_length` */
  method LcsLength(a: seq<Token>, b: seq<Token>) returns (length: nat)
    ensures length == Length(a, b)
  {
    hide Front, Last;
    var m, n := |a|, |b|;
    if m == 0 || n == 0 {
      return 0;
    }
    var dp := new nat[m + 1, n + 1]((_, _) => 0);
    for i := 1 to m + 1
      invariant forall r: nat, c: nat :: r <= m && c <= n && (r < i || c == 0) ==>
                  dp[r, c] == Length(a[..r], b[..c])
    {
      for j := 1 to n + 1
        invariant forall r: nat, c: nat :: r <= m && c <= n && (r < i || c == 0 || (r == i && c < j)) ==>
                    dp[r, c] == Length(a[..r], b[..c])
      {
        PrefixFront(a, i);
        PrefixFront(b, j);
        if a[i - 1] == b[j - 1] {
          dp[i, j] := dp[i - 1, j - 1] + 1;
        } else {
          dp[i, j] := if dp[i - 1, j] < dp[i, j - 1] then dp[i, j - 1] else dp[i - 1, j];
        }
      }
    }
    assert a[..m] == a && b[..n] == b;
    length := dp[m, n];
  }
}
