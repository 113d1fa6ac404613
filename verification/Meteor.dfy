/** Chunks of an alignment, and the exact values of the METEOR and F1 scores. */
module Meteor {
  import opened Alignment
  import opened Rounding

  // ----- chunks -----

  /** b continues the chunk of a: consecutive on both sides. */
  predicate Continues(a: Pair, b: Pair) {
    b.0 == a.0 + 1 && b.1 == a.1 + 1
  }

  /** The pairs that do not continue the one before them, the first included. */
  function Chunks(m: seq<Pair>): nat {
    if m == [] then 0
    else if |m| == 1 then 1
    else Chunks(m[..|m| - 1]) + if Continues(m[|m| - 2], m[|m| - 1]) then 0 else 1
  }

  /** Insertion behind the pairs with a candidate position that is not greater: the sort is stable. */
  function Insert(sorted: seq<Pair>, p: Pair): seq<Pair> {
    if sorted == [] || sorted[|sorted| - 1].0 <= p.0 then sorted + [p]
    else Insert(sorted[..|sorted| - 1], p) + [sorted[|sorted| - 1]]
  }

  /** `sort_by_key` on the candidate position. */
  function SortByCandidate(m: seq<Pair>): seq<Pair> {
    if m == [] then [] else Insert(SortByCandidate(m[..|m| - 1]), m[|m| - 1])
  }

  ghost predicate InCandidateOrder(m: seq<Pair>) {
    forall i, j :: 0 <= i < j < |m| ==> m[i].0 < m[j].0
  }

  /** An alignment is in candidate order already, and sorting leaves it alone. */
  lemma {:induction false} SortIdle(m: seq<Pair>)
    requires InCandidateOrder(m)
    ensures SortByCandidate(m) == m
  {
    if m != [] {
      SortIdle(m[..|m| - 1]);
    }
  }

  /** `count_chunks` */
  method CountChunks(alignment: seq<Pair>) returns (chunks: nat)
    ensures chunks == Chunks(SortByCandidate(alignment))
  {
    if alignment == [] {
      return 0;
    }
    var sorted := SortByCandidate(alignment);
    SortSize(alignment);
    chunks := 1;
    assert sorted[..1] == [sorted[0]];
    for w := 1 to |sorted|
      invariant chunks == Chunks(sorted[..w])
    {
      assert sorted[..w + 1][..w] == sorted[..w];
      if !Continues(sorted[w - 1], sorted[w]) {
        chunks := chunks + 1;
      }
    }
    assert sorted[..|sorted|] == sorted;
  }

  lemma {:induction false} InsertSize(sorted: seq<Pair>, p: Pair)
    ensures |Insert(sorted, p)| == |sorted| + 1
  {
    if sorted != [] {
      InsertSize(sorted[..|sorted| - 1], p);
    }
  }

  lemma {:induction false} SortSize(m: seq<Pair>)
    ensures |SortByCandidate(m)| == |m|
  {
    if m != [] {
      SortSize(m[..|m| - 1]);
      InsertSize(SortByCandidate(m[..|m| - 1]), m[|m| - 1]);
    }
  }

  /** There is at least one chunk and at most one per match. */
  lemma {:induction false} ChunksBounds(m: seq<Pair>)
    requires m != []
    ensures 1 <= Chunks(m) <= |m|
  {
    if |m| > 1 {
      ChunksBounds(m[..|m| - 1]);
    }
  }

  /** A run: not empty, and consecutive on both sides throughout. */
  ghost predicate IsRun(m: seq<Pair>) {
    m != [] && forall i :: 0 < i < |m| ==> Continues(m[i - 1], m[i])
  }

  function Joined(runs: seq<seq<Pair>>): seq<Pair> {
    if runs == [] then [] else Joined(runs[..|runs| - 1]) + runs[|runs| - 1]
  }

  lemma {:induction false} RunAddsOne(m: seq<Pair>, run: seq<Pair>)
    requires IsRun(run)
    ensures Chunks(m + run) <= Chunks(m) + 1
  {
    var all := m + run;
    if |run| == 1 {
      assert all[..|all| - 1] == m;
    } else {
      var shorter := run[..|run| - 1];
      RunAddsOne(m, shorter);
      assert all[..|all| - 1] == m + shorter;
      assert Continues(run[|run| - 2], run[|run| - 1]);
      assert all[|all| - 2] == run[|run| - 2] && all[|all| - 1] == run[|run| - 1];
    }
  }

  /** Every division of the alignment into runs has at least as many runs as there are chunks. */
  lemma {:induction false} ChunksLeast(runs: seq<seq<Pair>>)
    requires forall i :: 0 <= i < |runs| ==> IsRun(runs[i])
    ensures Chunks(Joined(runs)) <= |runs|
  {
    if runs != [] {
      ChunksLeast(runs[..|runs| - 1]);
      RunAddsOne(Joined(runs[..|runs| - 1]), runs[|runs| - 1]);
    }
  }

  /** And some division has exactly as many. */
  lemma {:induction false} ChunksAttained(m: seq<Pair>) returns (runs: seq<seq<Pair>>)
    ensures forall i :: 0 <= i < |runs| ==> IsRun(runs[i])
    ensures Joined(runs) == m && |runs| == Chunks(m)
  {
    if m == [] {
      runs := [];
    } else {
      var rest, p := m[..|m| - 1], m[|m| - 1];
      runs := ChunksAttained(rest);
      hide IsRun;
      if |m| > 1 && Continues(m[|m| - 2], p) {
        runs := ExtendRun(runs, rest, p);
      } else {
        SingleRun(p);
        runs := runs + [[p]];
        assert runs[..|runs| - 1] + [[p]] == runs;
      }
      assert rest + [p] == m;
    }
  }

  lemma SingleRun(p: Pair)
    ensures IsRun([p])
  {
  }

  lemma ExtendRun(runs: seq<seq<Pair>>, m: seq<Pair>, p: Pair) returns (longer: seq<seq<Pair>>)
    requires forall i :: 0 <= i < |runs| ==> IsRun(runs[i])
    requires Joined(runs) == m && m != [] && Continues(m[|m| - 1], p)
    ensures forall i :: 0 <= i < |longer| ==> IsRun(longer[i])
    ensures Joined(longer) == m + [p] && |longer| == |runs|
  {
    var last := runs[|runs| - 1];
    assert last[|last| - 1] == m[|m| - 1];
    longer := runs[..|runs| - 1] + [last + [p]];
    assert longer[..|longer| - 1] == runs[..|runs| - 1];
    assert Joined(longer) == Joined(runs[..|runs| - 1]) + (last + [p]);
  }

  /** Aligned with itself, a sequence is one chunk. */
  lemma {:induction false} SelfIsOneChunk(m: seq<Pair>)
    requires m != [] && forall i :: 0 <= i < |m| ==> m[i] == (i, i)
    ensures Chunks(m) == 1
  {
    if |m| > 1 {
      SelfIsOneChunk(m[..|m| - 1]);
    }
  }

  // ----- METEOR -----

  /** The weights of the score and the exponent of its penalty, by default 0.9, 0.5 and 3. */
  datatype Config = Config(alpha: real, gamma: real, beta: real)

  datatype Score = Score(score: real, precision: real, recall: real, fragmentation: real)

  /** What any real power has: it is positive between 0 and 1. */
  ghost predicate PositivePower(powf: (real, real) -> real, beta: real) {
    forall x :: 0.0 < x <= 1.0 ==> powf(x, beta) > 0.0
  }

  /** And with an exponent that is not negative it is no more than 1. */
  ghost predicate UnitPower(powf: (real, real) -> real, beta: real) {
    PositivePower(powf, beta) && forall x :: 0.0 < x <= 1.0 ==> powf(x, beta) <= 1.0
  }

  function Penalty(frag: real, cfg: Config, powf: (real, real) -> real): real {
    cfg.gamma * powf(frag, cfg.beta)
  }

  /** The weighted harmonic mean. */
  function FMean(p: real, r: real, alpha: real): real {
    var denom := alpha * p + (1.0 - alpha) * r;
    if denom > 0.0 then p * r / denom else 0.0
  }

  /** The score before it is clamped. */
  function Raw(p: real, r: real, frag: real, cfg: Config, powf: (real, real) -> real): real {
    (1.0 - Penalty(frag, cfg, powf)) * FMean(p, r, cfg.alpha)
  }

  function Ratio(a: nat, b: nat): real
    requires b > 0
  {
    a as real / b as real
  }

  /** The score of two token sequences that share `matches` tokens in `chunks` chunks. */
  function ScoreOf(matches: nat, chunks: nat, candidate: nat, reference: nat, cfg: Config,
                   powf: (real, real) -> real): Score {
    if candidate == 0 && reference == 0 then Score(1.0, 1.0, 1.0, 0.0)
    else if candidate == 0 || reference == 0 || matches == 0 then Score(0.0, 0.0, 0.0, 0.0)
    else
      var p, r, frag := Ratio(matches, candidate), Ratio(matches, reference), Ratio(chunks, matches);
      Score(Clamp(Raw(p, r, frag, cfg, powf), 0.0, 1.0), p, r, Penalty(frag, cfg, powf))
  }

  /** The harmonic mean in whole numbers: the matches over the lengths weighted the other way round. */
  function MeanClosed(matches: nat, candidate: nat, reference: nat, alpha: real): real {
    var weighted := alpha * reference as real + (1.0 - alpha) * candidate as real;
    if weighted > 0.0 then matches as real / weighted else 0.0
  }

  lemma FMeanIs(matches: nat, candidate: nat, reference: nat, alpha: real)
    requires matches > 0 && candidate > 0 && reference > 0
    ensures FMean(Ratio(matches, candidate), Ratio(matches, reference), alpha)
         == MeanClosed(matches, candidate, reference, alpha)
  {
    var m, c, f := matches as real, candidate as real, reference as real;
    var p, r := m / c, m / f;
    var denom, weighted := alpha * p + (1.0 - alpha) * r, alpha * f + (1.0 - alpha) * c;
    assert p * c == m && r * f == m;
    Weighted(p, r, c, f, m, alpha, denom, weighted);
    ScaledSign(denom, c * f, weighted, m);
    if denom > 0.0 {
      var mean := p * r / denom;
      assert mean * denom == p * r;
      MeanTimes(mean, denom, weighted, p, r, c, f, m);
      assert mean == m / weighted;
    }
  }

  lemma Weighted(p: real, r: real, c: real, f: real, m: real, alpha: real, denom: real, weighted: real)
    requires p * c == m && r * f == m && denom == alpha * p + (1.0 - alpha) * r
    requires weighted == alpha * f + (1.0 - alpha) * c
    ensures denom * (c * f) == m * weighted
  {
    assert alpha * p * (c * f) == alpha * f * (p * c);
    assert (1.0 - alpha) * r * (c * f) == (1.0 - alpha) * c * (r * f);
  }

  /** x a == b y with a and b positive: x and y have the same sign. */
  lemma ScaledSign(x: real, a: real, y: real, b: real)
    requires a > 0.0 && b > 0.0 && x * a == b * y
    ensures x > 0.0 <==> y > 0.0
  {
    if x > 0.0 {
      ScaleStrict(a, 0.0, x);
      if y <= 0.0 {
        ScaleOrder(b, y, 0.0);
      }
    } else {
      ScaleOrder(a, x, 0.0);
      if y > 0.0 {
        ScaleStrict(b, 0.0, y);
      }
    }
  }

  lemma MeanTimes(mean: real, denom: real, weighted: real, p: real, r: real, c: real, f: real, m: real)
    requires mean * denom == p * r && p * c == m && r * f == m && denom * (c * f) == m * weighted && m > 0.0
    ensures mean * weighted == m
  {
    var x := mean * weighted;
    assert m * x == mean * (m * weighted);
    assert mean * (denom * (c * f)) == mean * denom * (c * f);
    assert p * r * (c * f) == p * c * (r * f);
    assert m * x == m * m;
    Cancel(m, x, m);
  }

  /** The score from the numbers of matches, chunks and tokens. */
  predicate Closed(s: Score, matches: nat, chunks: nat, candidate: nat, reference: nat, cfg: Config,
                   powf: (real, real) -> real) {
    && candidate > 0 && reference > 0 && matches > 0
    && s.precision * candidate as real == matches as real && s.recall * reference as real == matches as real
    && s.fragmentation == cfg.gamma * powf(chunks as real / matches as real, cfg.beta)
    && s.score == Clamp((1.0 - s.fragmentation) * MeanClosed(matches, candidate, reference, cfg.alpha), 0.0, 1.0)
  }

  lemma RatioTimes(a: nat, b: nat)
    requires b > 0
    ensures Ratio(a, b) * b as real == a as real
  {
  }

  lemma ScoreClosed(matches: nat, chunks: nat, candidate: nat, reference: nat, cfg: Config, powf: (real, real) -> real)
    requires matches > 0 && candidate > 0 && reference > 0
    ensures var s := ScoreOf(matches, chunks, candidate, reference, cfg, powf);
            Closed(s, matches, chunks, candidate, reference, cfg, powf)
  {
    FMeanIs(matches, candidate, reference, cfg.alpha);
    RatioTimes(matches, candidate);
    RatioTimes(matches, reference);
    assert Ratio(chunks, matches) == chunks as real / matches as real;
    hide FMean, MeanClosed, Clamp, Ratio;
  }

  /** Sorting the alignment by candidate position changes nothing; an empty side matches nothing. */
  lemma AlignedSorted(candidate: seq<Token>, reference: seq<Token>)
    ensures var m := Aligned(candidate, reference, |candidate|);
            SortByCandidate(m) == m && (candidate == [] || reference == [] ==> m == [])
  {
    GreedyOptimal(candidate, reference);
    SortIdle(Aligned(candidate, reference, |candidate|));
    MatchesFit(candidate, reference);
  }

  /** `meteor_tokens` */
  method MeteorTokens(candidate: seq<Token>, reference: seq<Token>, cfg: Config, powf: (real, real) -> real)
    returns (score: Score)
    ensures var m := Aligned(candidate, reference, |candidate|);
            score == ScoreOf(|m|, Chunks(m), |candidate|, |reference|, cfg, powf)
    ensures var m := Aligned(candidate, reference, |candidate|);
            if candidate == [] && reference == [] then score == Score(1.0, 1.0, 1.0, 0.0)
            else if m == [] then score == Score(0.0, 0.0, 0.0, 0.0)
            else Closed(score, |m|, Chunks(m), |candidate|, |reference|, cfg, powf)
  {
    hide Raw, Penalty, Clamp, Ratio, Aligned, Chunks, SortByCandidate, Closed;
    AlignedSorted(candidate, reference);
    if candidate == [] && reference == [] {
      return Score(1.0, 1.0, 1.0, 0.0);
    }
    if candidate == [] || reference == [] {
      return Score(0.0, 0.0, 0.0, 0.0);
    }
    var alignment := AlignTokens(candidate, reference);
    var matches := |alignment|;
    if matches == 0 {
      return Score(0.0, 0.0, 0.0, 0.0);
    }
    var p, r := Ratio(matches, |candidate|), Ratio(matches, |reference|);
    var chunks := CountChunks(alignment);
    var frag := Ratio(chunks, matches);
    score := Score(Clamp(Raw(p, r, frag, cfg, powf), 0.0, 1.0), p, r, Penalty(frag, cfg, powf));
    assert score == ScoreOf(matches, chunks, |candidate|, |reference|, cfg, powf);
    ScoreClosed(matches, chunks, |candidate|, |reference|, cfg, powf);
  }

  lemma RatioUnit(a: nat, b: nat)
    requires 0 < a <= b
    ensures 0.0 < Ratio(a, b) <= 1.0
  {
    var x, d := Ratio(a, b), b as real;
    assert x * d == a as real;
    Between(x, d, a as real);
  }

  lemma Between(x: real, d: real, n: real)
    requires d > 0.0 && x * d == n && 0.0 < n <= d
    ensures 0.0 < x <= 1.0
  {
    assert (x - 1.0) * d == n - d;
  }

  lemma UnitProduct(x: real, y: real, z: real)
    requires 0.0 < x <= 1.0 && 0.0 < y <= 1.0 && z == y * x
    ensures 0.0 < z <= y
  {
    ScaleStrict(y, 0.0, x);
    ScaleOrder(y, x, 1.0);
  }

  /** A weighted mean lies between the two values. */
  lemma WeightedMean(p: real, r: real, alpha: real)
    requires 0.0 <= alpha <= 1.0 && p <= r
    ensures p <= alpha * p + (1.0 - alpha) * r <= r
  {
    var d := r - p;
    MeanGap(p, r, alpha, d, d * alpha);
    ScaleOrder(d, 0.0, alpha);
    ScaleOrder(d, alpha, 1.0);
  }

  lemma MeanGap(p: real, r: real, alpha: real, d: real, part: real)
    requires d == r - p && part == d * alpha
    ensures alpha * p + (1.0 - alpha) * r == r - part
  {
    assert part == r * alpha - p * alpha;
  }

  lemma FMeanUnit(p: real, r: real, alpha: real)
    requires 0.0 < p <= 1.0 && 0.0 < r <= 1.0 && 0.0 <= alpha <= 1.0
    ensures 0.0 < FMean(p, r, alpha) <= 1.0
  {
    var denom, x := alpha * p + (1.0 - alpha) * r, p * r;
    MeanAbove(p, r, alpha, denom);
    ProductBelow(p, r, x);
    BelowEither(x, p, r, denom);
    QuotientUnit(x, denom);
  }

  lemma MeanAbove(p: real, r: real, alpha: real, denom: real)
    requires 0.0 <= alpha <= 1.0 && denom == alpha * p + (1.0 - alpha) * r
    ensures denom >= p || denom >= r
  {
    if p <= r {
      WeightedMean(p, r, alpha);
    } else {
      WeightedMean(r, p, 1.0 - alpha);
      assert (1.0 - (1.0 - alpha)) * p == alpha * p;
    }
  }

  lemma ProductBelow(p: real, r: real, x: real)
    requires 0.0 < p <= 1.0 && 0.0 < r <= 1.0 && x == p * r
    ensures 0.0 < x <= p && x <= r
  {
    Commutes(p, r);
    UnitProduct(p, r, x);
    UnitProduct(r, p, x);
  }

  lemma BelowEither(x: real, p: real, r: real, denom: real)
    requires x <= p && x <= r && (denom >= p || denom >= r)
    ensures x <= denom
  {
  }

  lemma QuotientUnit(n: real, d: real)
    requires 0.0 < n <= d
    ensures 0.0 < n / d <= 1.0
  {
    var q := n / d;
    assert q * d == n;
    Between(q, d, n);
  }

  /** With a penalty that is not negative the exact score needs the clamp exactly if the penalty is above 1. */
  lemma ClampExact(p: real, r: real, frag: real, cfg: Config, powf: (real, real) -> real)
    requires 0.0 < p <= 1.0 && 0.0 < r <= 1.0 && 0.0 <= cfg.alpha <= 1.0
    requires Penalty(frag, cfg, powf) >= 0.0
    ensures Clamp(Raw(p, r, frag, cfg, powf), 0.0, 1.0) == Raw(p, r, frag, cfg, powf)
       <==> Penalty(frag, cfg, powf) <= 1.0
  {
    hide FMean, Penalty;
    var rest, mean := 1.0 - Penalty(frag, cfg, powf), FMean(p, r, cfg.alpha);
    FMeanUnit(p, r, cfg.alpha);
    ProductSign(rest, mean);
  }

  lemma ProductSign(x: real, y: real)
    requires x <= 1.0 && 0.0 < y <= 1.0
    ensures 0.0 <= x * y <= 1.0 <==> 0.0 <= x
  {
    if x > 0.0 {
      Commutes(x, y);
      UnitProduct(x, y, x * y);
    } else if x < 0.0 {
      Negative(-x, y);
    }
  }

  lemma Negative(x: real, y: real)
    requires x > 0.0 && y > 0.0
    ensures -x * y < 0.0
  {
  }

  lemma UnitPenalty(gamma: real, power: real)
    requires 0.0 <= gamma <= 1.0 && 0.0 <= power <= 1.0
    ensures gamma * power <= 1.0
  {
    if gamma > 0.0 {
      ScaleOrder(gamma, power, 1.0);
    }
    assert gamma * 1.0 == gamma;
  }

  /** The score of any two token sequences lies in [0, 1]. With weights that are not negative, a match and a real power,
      the clamp acts exactly if the penalty is above 1; it never does with gamma at most 1 and beta not negative, as by
      default. */
  lemma MeteorInRange(candidate: seq<Token>, reference: seq<Token>, cfg: Config, powf: (real, real) -> real)
    ensures var m := Aligned(candidate, reference, |candidate|);
            var s := ScoreOf(|m|, Chunks(m), |candidate|, |reference|, cfg, powf);
            && 0.0 <= s.score <= 1.0
            && (m != [] && 0.0 <= cfg.alpha <= 1.0 && cfg.gamma >= 0.0 && PositivePower(powf, cfg.beta) ==>
                  (s.score == Raw(s.precision, s.recall, Ratio(Chunks(m), |m|), cfg, powf) <==> s.fragmentation <= 1.0))
            && (m != [] && 0.0 <= cfg.gamma <= 1.0 && UnitPower(powf, cfg.beta) ==> s.fragmentation <= 1.0)
  {
    hide Raw, Ratio, Clamp, Chunks;
    var m := Aligned(candidate, reference, |candidate|);
    GreedyOptimal(candidate, reference);
    if m != [] && cfg.gamma >= 0.0 && PositivePower(powf, cfg.beta) {
      MatchesFit(candidate, reference);
      ChunksBounds(m);
      RatioUnit(|m|, |candidate|);
      RatioUnit(|m|, |reference|);
      RatioUnit(Chunks(m), |m|);
      var frag := Ratio(Chunks(m), |m|);
      ScaleOrder(cfg.gamma, 0.0, powf(frag, cfg.beta));
      if cfg.alpha >= 0.0 && cfg.alpha <= 1.0 {
        ClampExact(Ratio(|m|, |candidate|), Ratio(|m|, |reference|), frag, cfg, powf);
      }
      if cfg.gamma <= 1.0 && UnitPower(powf, cfg.beta) {
        UnitPenalty(cfg.gamma, powf(frag, cfg.beta));
      }
    }
  }

  lemma MatchesFit(candidate: seq<Token>, reference: seq<Token>)
    ensures |Aligned(candidate, reference, |candidate|)| <= |candidate|
    ensures |Aligned(candidate, reference, |candidate|)| <= |reference|
  {
    GreedyOptimal(candidate, reference);
    SubMultisetSize(multiset(candidate) * multiset(reference), multiset(candidate));
    SubMultisetSize(multiset(candidate) * multiset(reference), multiset(reference));
  }

  /** A sequence scored against itself falls short of 1 by the penalty of its single chunk, and so reaches 1 exactly if
      gamma is not positive. */
  lemma SelfScore(s: seq<Token>, cfg: Config, powf: (real, real) -> real)
    requires s != [] && PositivePower(powf, cfg.beta)
    ensures var m := Aligned(s, s, |s|);
            var score := ScoreOf(|m|, Chunks(m), |s|, |s|, cfg, powf).score;
            && |m| == |s| && Chunks(m) == 1
            && score == Clamp(1.0 - Penalty(Ratio(1, |s|), cfg, powf), 0.0, 1.0)
            && (score == 1.0 <==> cfg.gamma <= 0.0)
  {
    hide Chunks, Raw, Ratio, Aligned;
    var m := Aligned(s, s, |s|);
    AlignedWithSelf(s, |s|);
    SelfIsOneChunk(m);
    RatioUnit(1, |s|);
    RatioSelf(|s|);
    RawPerfect(Ratio(1, |s|), cfg, powf);
    var power := powf(Ratio(1, |s|), cfg.beta);
    if cfg.gamma <= 0.0 {
      ScaleOrder(power, cfg.gamma, 0.0);
    } else {
      ScaleStrict(power, 0.0, cfg.gamma);
    }
  }

  lemma RatioSelf(n: nat)
    requires n > 0
    ensures Ratio(n, n) == 1.0
  {
  }

  lemma RawPerfect(frag: real, cfg: Config, powf: (real, real) -> real)
    ensures Raw(1.0, 1.0, frag, cfg, powf) == 1.0 - Penalty(frag, cfg, powf)
  {
    hide Penalty;
    assert FMean(1.0, 1.0, cfg.alpha) == 1.0;
  }

  // ----- token F1 -----

  /** The arithmetic of `f1_score`, on the number of common tokens. */
  function F1(common: nat, prediction: nat, reference: nat): real {
    if prediction == 0 && reference == 0 then 1.0
    else if prediction == 0 || reference == 0 || common == 0 then 0.0
    else
      var p, r := Ratio(common, prediction), Ratio(common, reference);
      2.0 * p * r / (p + r)
  }

  /** F1 is twice the common tokens over all tokens. */
  lemma F1Closed(common: nat, prediction: nat, reference: nat)
    requires prediction > 0 && reference > 0
    ensures F1(common, prediction, reference) == Ratio(2 * common, prediction + reference)
  {
    if common > 0 {
      var c, a, b := common as real, prediction as real, reference as real;
      var p, r := c / a, c / b;
      assert p * a == c && r * b == c;
      HarmonicMean(c, a, b, p, r);
    }
  }

  lemma HarmonicMean(c: real, a: real, b: real, p: real, r: real)
    requires c > 0.0 && a > 0.0 && b > 0.0 && p > 0.0 && r > 0.0 && p * a == c && r * b == c
    ensures 2.0 * p * r / (p + r) == 2.0 * c / (a + b)
  {
    Cross(c, a, b, p, r);
    CrossMultiply(2.0 * p * r, p + r, 2.0 * c, a + b);
  }

  lemma Cross(c: real, a: real, b: real, p: real, r: real)
    requires p * a == c && r * b == c
    ensures 2.0 * p * r * (a + b) == 2.0 * c * (p + r)
  {
    assert 2.0 * p * r * (a + b) == 2.0 * (r * (p * a)) + 2.0 * (p * (r * b));
  }

  lemma CrossMultiply(x: real, y: real, u: real, v: real)
    requires y > 0.0 && v > 0.0 && x * v == u * y
    ensures x / y == u / v
  {
    assert x / y * y == x;
    assert u / v * v == u;
    SameQuotient(x / y, u / v, x, y, u, v);
  }

  lemma SameQuotient(q: real, t: real, x: real, y: real, u: real, v: real)
    requires y > 0.0 && v > 0.0 && q * y == x && t * v == u && x * v == u * y
    ensures q == t
  {
    assert (q - t) * (y * v) == q * y * v - t * v * y;
    assert y * v > 0.0;
  }

  /** F1 lies in [0, 1], and is 1 exactly if the two sides hold the same tokens equally often. */
  lemma F1Range(a: seq<Token>, b: seq<Token>)
    ensures var f := F1(|multiset(a) * multiset(b)|, |a|, |b|);
            0.0 <= f <= 1.0 && (f == 1.0 <==> multiset(a) == multiset(b))
  {
    var ma, mb := multiset(a), multiset(b);
    var c := |ma * mb|;
    SubMultisetSize(ma * mb, ma);
    SubMultisetSize(ma * mb, mb);
    SameSizeSame(ma * mb, ma);
    SameSizeSame(ma * mb, mb);
    assert |ma| == |a| && |mb| == |b|;
    if a != [] && b != [] {
      F1Closed(c, |a|, |b|);
      RatioBounds(2 * c, |a| + |b|);
    } else {
      assert ma == mb <==> |a| == |b|;
    }
  }

  lemma SameSizeSame<T>(a: multiset<T>, b: multiset<T>)
    requires a <= b
    ensures |a| == |b| <==> a == b
  {
    assert b == a + (b - a);
  }

  lemma RatioBounds(n: nat, d: nat)
    requires n <= d && d > 0
    ensures 0.0 <= Ratio(n, d) <= 1.0 && (Ratio(n, d) == 1.0 <==> n == d)
  {
    RatioTimes(n, d);
    OneExactly(Ratio(n, d), d as real, n as real);
    if n > 0 {
      RatioUnit(n, d);
    } else {
      Cancel(d as real, Ratio(n, d), 0.0);
    }
  }

  lemma OneExactly(x: real, d: real, n: real)
    requires d > 0.0 && x * d == n
    ensures x == 1.0 <==> n == d
  {
    Commutes(x, d);
    if n == d {
      Cancel(d, x, 1.0);
    }
  }

  lemma Commutes(x: real, y: real)
    ensures x * y == y * x
  {
  }
}
