/** Greedy exact-match alignment of token sequences, against the multiset intersection. */
module Alignment {
  import opened Sequences

  type Token = string

  /** A matched pair: candidate position, reference position. */
  type Pair = (nat, nat)

  // ----- tokens at distinct positions -----

  ghost predicate Distinct(idxs: seq<nat>, n: nat) {
    && (forall i :: 0 <= i < |idxs| ==> idxs[i] < n)
    && forall i, j :: 0 <= i < j < |idxs| ==> idxs[i] != idxs[j]
  }

  function Pick(s: seq<Token>, idxs: seq<nat>): (t: seq<Token>)
    requires forall i :: 0 <= i < |idxs| ==> idxs[i] < |s|
    ensures |t| == |idxs|
  {
    seq(|idxs|, i requires 0 <= i < |idxs| => s[idxs[i]])
  }

  lemma RemoveAtDistinct(idxs: seq<nat>, n: nat, j: nat)
    requires Distinct(idxs, n + 1) && j < |idxs| && idxs[j] == n
    ensures Distinct(RemoveAt(idxs, j), n)
  {
  }

  lemma PickRemoved(s: seq<Token>, idxs: seq<nat>, j: nat)
    requires Distinct(idxs, |s|) && j < |idxs| && s != [] && idxs[j] == |s| - 1
    ensures Distinct(RemoveAt(idxs, j), |s| - 1)
    ensures multiset(Pick(s, idxs)) == multiset(Pick(s[..|s| - 1], RemoveAt(idxs, j))) + multiset{s[|s| - 1]}
  {
    RemoveAtDistinct(idxs, |s| - 1, j);
    RemoveAtMultiset(Pick(s, idxs), j);
    assert Pick(s[..|s| - 1], RemoveAt(idxs, j)) == RemoveAt(Pick(s, idxs), j);
  }

  lemma PickFront(s: seq<Token>, idxs: seq<nat>)
    requires Distinct(idxs, |s|) && s != [] && |s| - 1 !in idxs
    ensures Distinct(idxs, |s| - 1) && Pick(s[..|s| - 1], idxs) == Pick(s, idxs)
  {
    forall i | 0 <= i < |idxs|
      ensures idxs[i] < |s| - 1
    {
      assert idxs[i] in idxs;
    }
  }

  /** Every occurrence of the token is picked. */
  ghost predicate Covers(s: seq<Token>, idxs: seq<nat>, t: Token) {
    forall i: nat :: i < |s| && s[i] == t ==> i in idxs
  }

  /** Tokens picked at distinct positions are among the sequence's, with their multiplicities; where every occurrence
      of a token is picked, the multiplicities are equal. */
  lemma {:induction false} PickedMultiset(s: seq<Token>, idxs: seq<nat>, t: Token)
    requires Distinct(idxs, |s|)
    ensures multiset(Pick(s, idxs))[t] <= multiset(s)[t]
    ensures Covers(s, idxs, t) ==> multiset(Pick(s, idxs))[t] == multiset(s)[t]
  {
    if s == [] {
      PickNone(s, idxs);
    } else {
      hide Pick, RemoveAt, Distinct;
      var n := |s| - 1;
      assert s == s[..n] + [s[n]];
      if n in idxs {
        var j: nat :| j < |idxs| && idxs[j] == n;
        PickRemoved(s, idxs, j);
        PickedMultiset(s[..n], RemoveAt(idxs, j), t);
        if Covers(s, idxs, t) {
          forall i: nat | i < n && s[i] == t
            ensures i in RemoveAt(idxs, j)
          {
            RemoveAtKeeps(idxs, j, i);
          }
          assert Covers(s[..n], RemoveAt(idxs, j), t);
        }
      } else {
        PickFront(s, idxs);
        PickedMultiset(s[..n], idxs, t);
      }
    }
  }

  lemma PickNone(s: seq<Token>, idxs: seq<nat>)
    requires Distinct(idxs, |s|)
    ensures s == [] ==> Pick(s, idxs) == []
  {
    if idxs != [] {
      assert idxs[0] < |s|;
    }
  }

  // ----- the greedy alignment -----

  /** The first reference position from `from` on that holds the token and is not used; |reference| if there is none. */
  function FirstFree(token: Token, reference: seq<Token>, used: set<nat>, from: nat): (ri: nat)
    requires from <= |reference|
    ensures from <= ri <= |reference|
    ensures ri < |reference| ==> reference[ri] == token && ri !in used
    ensures forall k: nat :: from <= k < ri ==> k in used || reference[k] != token
    decreases |reference| - from
  {
    if from == |reference| then from
    else if from !in used && token == reference[from] then from
    else FirstFree(token, reference, used, from + 1)
  }

  function Used(pairs: seq<Pair>): set<nat> {
    set i | 0 <= i < |pairs| :: pairs[i].1
  }

  /** The alignment of the first n candidate tokens. */
  function Aligned(candidate: seq<Token>, reference: seq<Token>, n: nat): seq<Pair>
    requires n <= |candidate|
  {
    if n == 0 then []
    else
      var before := Aligned(candidate, reference, n - 1);
      var ri := FirstFree(candidate[n - 1], reference, Used(before), 0);
      if ri < |reference| then before + [(n - 1, ri)] else before
  }

  /** `align_tokens` */
  method AlignTokens(candidate: seq<Token>, reference: seq<Token>) returns (out: seq<Pair>)
    ensures out == Aligned(candidate, reference, |candidate|)
  {
    var used := new bool[|reference|](_ => false);
    out := [];
    for ci := 0 to |candidate|
      invariant out == Aligned(candidate, reference, ci)
      invariant forall ri: nat :: ri < |reference| ==> used[ri] == (ri in Used(out))
    {
      var ctok := candidate[ci];
      ghost var goal := FirstFree(ctok, reference, Used(out), 0);
      var ri := 0;
      while ri < |reference|
        invariant 0 <= ri <= |reference|
        invariant FirstFree(ctok, reference, Used(out), ri) == goal
      {
        if !used[ri] && ctok == reference[ri] {
          break;
        }
        ri := ri + 1;
      }
      if ri < |reference| {
        used[ri] := true;
        UsedSnoc(out, (ci, ri));
        out := out + [(ci, ri)];
      }
    }
  }

  lemma UsedSnoc(pairs: seq<Pair>, p: Pair)
    ensures Used(pairs + [p]) == Used(pairs) + {p.1}
  {
    forall v: nat
      ensures v in Used(pairs + [p]) <==> v in Used(pairs) + {p.1}
    {
      if v in Used(pairs) {
        var i :| 0 <= i < |pairs| && pairs[i].1 == v;
        assert (pairs + [p])[i].1 == v;
      }
      if v == p.1 {
        assert (pairs + [p])[|pairs|].1 == v;
      }
    }
  }

  // ----- matchings -----

  /** Each position is used at most once on either side, candidate positions in increasing order, and only equal tokens
      are matched. */
  ghost predicate Matching(m: seq<Pair>, candidate: seq<Token>, reference: seq<Token>, n: nat) {
    && (forall i :: 0 <= i < |m| ==>
          m[i].0 < n <= |candidate| && m[i].1 < |reference| && candidate[m[i].0] == reference[m[i].1])
    && (forall i, j :: 0 <= i < j < |m| ==> m[i].0 < m[j].0 && m[i].1 != m[j].1)
  }

  lemma {:induction false} AlignedIsMatching(candidate: seq<Token>, reference: seq<Token>, n: nat)
    requires n <= |candidate|
    ensures Matching(Aligned(candidate, reference, n), candidate, reference, n)
  {
    if n > 0 {
      AlignedIsMatching(candidate, reference, n - 1);
    }
  }

  function Lefts(m: seq<Pair>): (l: seq<nat>)
    ensures |l| == |m|
  {
    seq(|m|, i requires 0 <= i < |m| => m[i].0)
  }

  function Rights(m: seq<Pair>): (l: seq<nat>)
    ensures |l| == |m|
  {
    seq(|m|, i requires 0 <= i < |m| => m[i].1)
  }

  /** The tokens of a matching, taken from either side, are those of a part of the intersection. */
  lemma MatchingInIntersection(m: seq<Pair>, candidate: seq<Token>, reference: seq<Token>)
    requires Matching(m, candidate, reference, |candidate|)
    ensures Distinct(Lefts(m), |candidate|) && Distinct(Rights(m), |reference|)
    ensures Pick(candidate, Lefts(m)) == Pick(reference, Rights(m))
    ensures multiset(Pick(reference, Rights(m))) <= multiset(candidate) * multiset(reference)
  {
    assert Pick(candidate, Lefts(m)) == Pick(reference, Rights(m));
    forall t: Token
      ensures multiset(Pick(reference, Rights(m)))[t] <= (multiset(candidate) * multiset(reference))[t]
    {
      PickedMultiset(candidate, Lefts(m), t);
      PickedMultiset(reference, Rights(m), t);
    }
  }

  lemma SubMultisetSize<T>(a: multiset<T>, b: multiset<T>)
    requires a <= b
    ensures |a| <= |b|
  {
    assert b == a + (b - a);
  }

  /** No matching is larger than the intersection. */
  lemma MatchingBound(m: seq<Pair>, candidate: seq<Token>, reference: seq<Token>)
    requires Matching(m, candidate, reference, |candidate|)
    ensures |m| <= |multiset(candidate) * multiset(reference)|
  {
    MatchingInIntersection(m, candidate, reference);
    var p := Pick(reference, Rights(m));
    SubMultisetSize(multiset(p), multiset(candidate) * multiset(reference));
    assert |multiset(p)| == |m|;
  }

  lemma RightsAreUsed(m: seq<Pair>, ri: nat)
    ensures ri in Used(m) <==> ri in Rights(m)
  {
    if ri in Used(m) {
      var i :| 0 <= i < |m| && m[i].1 == ri;
      assert Rights(m)[i] == ri;
    }
  }

  lemma MatchedSnoc(before: seq<Pair>, p: Pair, reference: seq<Token>)
    requires Distinct(Rights(before + [p]), |reference|)
    ensures Distinct(Rights(before), |reference|) && p.1 < |reference| && p.1 !in Rights(before)
    ensures Pick(reference, Rights(before + [p])) == Pick(reference, Rights(before)) + [reference[p.1]]
  {
    assert Rights(before + [p]) == Rights(before) + [p.1];
    DistinctPrefix(Rights(before), p.1, |reference|);
  }

  lemma DistinctPrefix(a: seq<nat>, x: nat, n: nat)
    requires Distinct(a + [x], n)
    ensures Distinct(a, n) && x < n && x !in a
  {
    var all := a + [x];
    assert all[|a|] == x;
    forall i | 0 <= i < |a|
      ensures a[i] < n && a[i] != x
      ensures forall j :: i < j < |a| ==> a[i] != a[j]
    {
      assert all[i] == a[i];
      assert forall j :: i < j < |a| ==> all[j] == a[j];
    }
  }

  lemma NoneFree(before: seq<Pair>, reference: seq<Token>, t: Token)
    requires FirstFree(t, reference, Used(before), 0) == |reference|
    ensures Covers(reference, Rights(before), t)
  {
    forall i: nat | i < |reference| && reference[i] == t
      ensures i in Rights(before)
    {
      RightsAreUsed(before, i);
    }
  }

  lemma MatchingRights(m: seq<Pair>, candidate: seq<Token>, reference: seq<Token>, n: nat)
    requires Matching(m, candidate, reference, n)
    ensures Distinct(Rights(m), |reference|)
  {
  }

  /** After n candidate tokens the alignment has matched exactly the intersection of those tokens with the reference. */
  lemma {:induction false} AlignedTokens(candidate: seq<Token>, reference: seq<Token>, n: nat)
    requires n <= |candidate|
    ensures Distinct(Rights(Aligned(candidate, reference, n)), |reference|)
    ensures multiset(Pick(reference, Rights(Aligned(candidate, reference, n))))
         == multiset(candidate[..n]) * multiset(reference)
  {
    var m := Aligned(candidate, reference, n);
    AlignedIsMatching(candidate, reference, n);
    MatchingRights(m, candidate, reference, n);
    if n == 0 {
      assert candidate[..0] == [];
      assert Pick(reference, Rights(m)) == [];
    } else {
      hide Pick, Rights, Distinct, Used, Matching, Covers;
      AlignedTokens(candidate, reference, n - 1);
      var before, t := Aligned(candidate, reference, n - 1), candidate[n - 1];
      assert candidate[..n] == candidate[..n - 1] + [t];
      var ri := FirstFree(t, reference, Used(before), 0);
      if ri < |reference| {
        MatchedSnoc(before, (n - 1, ri), reference);
        StillFree(reference, Rights(before), t, ri);
      } else {
        NoneFree(before, reference, t);
        PickedMultiset(reference, Rights(before), t);
      }
      Intersect(multiset(Pick(reference, Rights(before))), multiset(candidate[..n - 1]), multiset(reference), t);
    }
  }

  /** A free occurrence of the token: fewer have been picked than there are. */
  lemma StillFree(s: seq<Token>, idxs: seq<nat>, t: Token, ri: nat)
    requires Distinct(idxs, |s|) && ri < |s| && s[ri] == t && ri !in idxs
    ensures multiset(Pick(s, idxs))[t] < multiset(s)[t]
  {
    var more := idxs + [ri];
    assert Pick(s, more) == Pick(s, idxs) + [t];
    PickedMultiset(s, more, t);
  }

  /** One more token on the left enlarges an intersection exactly when the right side still has one to spare. */
  lemma Intersect<T>(p: multiset<T>, a: multiset<T>, b: multiset<T>, t: T)
    requires p == a * b
    ensures (a + multiset{t}) * b == if p[t] < b[t] then p + multiset{t} else p
  {
  }

  /** The greedy alignment is a matching of the largest size there is: that of the multiset intersection. */
  lemma GreedyOptimal(candidate: seq<Token>, reference: seq<Token>)
    ensures var m := Aligned(candidate, reference, |candidate|);
            Matching(m, candidate, reference, |candidate|) && |m| == |multiset(candidate) * multiset(reference)|
  {
    AlignedIsMatching(candidate, reference, |candidate|);
    AlignedTokens(candidate, reference, |candidate|);
    assert candidate[..|candidate|] == candidate;
    var p := Pick(reference, Rights(Aligned(candidate, reference, |candidate|)));
    assert |multiset(p)| == |p|;
  }

  /** A sequence is aligned with itself position by position. */
  lemma {:induction false} AlignedWithSelf(s: seq<Token>, n: nat)
    requires n <= |s|
    ensures |Aligned(s, s, n)| == n
    ensures forall i :: 0 <= i < n ==> Aligned(s, s, n)[i] == (i, i)
  {
    if n > 0 {
      AlignedWithSelf(s, n - 1);
      var before := Aligned(s, s, n - 1);
      forall v: nat
        ensures v in Used(before) <==> v < n - 1
      {
        if v < n - 1 {
          assert before[v].1 == v;
        }
      }
    }
  }

  // ----- counting with a map -----

  method CountTokens(a: seq<Token>) returns (counts: map<Token, int>)
    ensures forall t: Token :: Entry(counts, t) == multiset(a)[t]
  {
    counts := map[];
    for i := 0 to |a|
      invariant forall t: Token :: Entry(counts, t) == multiset(a[..i])[t]
    {
      assert a[..i + 1] == a[..i] + [a[i]];
      counts := counts[a[i] := Entry(counts, a[i]) + 1];
    }
    assert a[..|a|] == a;
  }

  /** One more token on the right enlarges the intersection by one exactly when the left side still has one to spare. */
  lemma TakeOne<T>(a: multiset<T>, b: multiset<T>, t: T)
    ensures |a * (b + multiset{t})| == |a * b| + if b[t] < a[t] then 1 else 0
  {
    assert a * (b + multiset{t}) == if b[t] < a[t] then a * b + multiset{t} else a * b;
  }

  /** Takes one occurrence of the token out of the counts, if there is one. */
  method TakeToken(counts: map<Token, int>, t: Token, ghost ma: multiset<Token>, ghost mb: multiset<Token>)
    returns (left: map<Token, int>, found: bool)
    requires forall u: Token :: Entry(counts, u) == Left(ma[u], mb[u])
    ensures forall u: Token :: Entry(left, u) == Left(ma[u], (mb + multiset{t})[u])
    ensures found <==> mb[t] < ma[t]
  {
    var entry := Entry(counts, t);
    found := entry > 0;
    left := counts[t := if found then entry - 1 else entry];
  }

  /** `common_multiset` */
  method CommonMultiset(a: seq<Token>, b: seq<Token>) returns (common: nat)
    ensures common == |multiset(a) * multiset(b)|
  {
    hide Entry, Left;
    var counts := CountTokens(a);
    ghost var ma, mb := multiset(a), multiset{};
    StartCounts(counts, ma);
    common := 0;
    for i := 0 to |b|
      invariant mb == multiset(b[..i])
      invariant forall t: Token :: Entry(counts, t) == Left(ma[t], mb[t])
      invariant common == |ma * mb|
    {
      assert b[..i + 1] == b[..i] + [b[i]];
      TakeOne(ma, mb, b[i]);
      var found;
      counts, found := TakeToken(counts, b[i], ma, mb);
      if found {
        common := common + 1;
      }
      mb := mb + multiset{b[i]};
    }
    assert b[..|b|] == b;
  }

  lemma StartCounts(counts: map<Token, int>, ma: multiset<Token>)
    requires forall t: Token :: Entry(counts, t) == ma[t]
    ensures forall t: Token :: Entry(counts, t) == Left(ma[t], multiset{}[t])
    ensures ma * multiset{} == multiset{}
  {
  }

  /** The count of a token; a token without an entry has none. */
  function Entry(counts: map<Token, int>, t: Token): int {
    if t in counts then counts[t] else 0
  }

  /** What is left of n occurrences after taking k, as far as there are any. */
  function Left(n: nat, k: nat): int {
    if k < n then n - k else 0
  }
}
