/** Per-token aggregation (TokenAgg and the recording step of process_batch_result in
    analyze_length_token.py) and how the per-token statistics recombine to the global ones. */
module TokenStats {
  import opened Basics
  import opened Welford
  import opened Reservoir

  /** One scored token: its id and its score. */
  datatype Scored = Scored(token: int, score: real)

  function Scores(h: seq<Scored>): seq<real> {
    if |h| == 0 then [] else Scores(h[..|h| - 1]) + [h[|h| - 1].score]
  }

  function ScoresOf(h: seq<Scored>, token: int): seq<real> {
    if |h| == 0 then []
    else
      var last := h[|h| - 1];
      ScoresOf(h[..|h| - 1], token) + if last.token == token then [last.score] else []
  }

  lemma {:induction false} ScoresAre(h: seq<Scored>)
    ensures |Scores(h)| == |h| && forall i :: 0 <= i < |h| ==> Scores(h)[i] == h[i].score
  {
    if |h| > 0 {
      ScoresAre(h[..|h| - 1]);
    }
  }

  /** The scores of a token are those recorded under its id, in order. */
  lemma {:induction false} ScoresOfAre(h: seq<Scored>, token: int)
    ensures ScoresOf(h, token) == Scores(Filter(h, (e: Scored) => e.token == token))
  {
    if |h| > 0 {
      var front, e := h[..|h| - 1], h[|h| - 1];
      ScoresOfAre(front, token);
      var own := Filter(front, (e: Scored) => e.token == token);
      assert (own + [e])[..|own|] == own;
      assert own + [] == own;
    }
  }

  lemma ScoresOfSnoc(h: seq<Scored>, e: Scored, t: int)
    ensures ScoresOf(h + [e], t) == if e.token == t then ScoresOf(h, t) + [e.score] else ScoresOf(h, t)
  {
    assert (h + [e])[..|h|] == h;
  }

  lemma HistorySnoc(h: seq<Scored>, e: Scored, order: seq<int>)
    requires Covers(order, h) && e.token in order
    ensures Covers(order, h + [e]) && Scores(h + [e]) == Scores(h) + [e.score]
  {
    assert (h + [e])[..|h|] == h;
  }

  function CountAbove(xs: seq<real>, t: real): nat {
    if |xs| == 0 then 0 else CountAbove(xs[..|xs| - 1], t) + if xs[|xs| - 1] > t then 1 else 0
  }

  function CountBelow(xs: seq<real>, t: real): nat {
    if |xs| == 0 then 0 else CountBelow(xs[..|xs| - 1], t) + if xs[|xs| - 1] < t then 1 else 0
  }

  /** How many scores lie beyond the thresholds. */
  lemma {:induction false} CountsAre(xs: seq<real>, t: real)
    ensures CountAbove(xs, t) == |Where(xs, (x: real) => x > t)|
    ensures CountBelow(xs, t) == |Where(xs, (x: real) => x < t)|
  {
    if |xs| > 0 {
      CountsAre(xs[..|xs| - 1], t);
      WhereLast(xs, (x: real) => x > t);
      WhereLast(xs, (x: real) => x < t);
    }
  }

  /** m is a largest (smallest) element of xs; None only for no elements. */
  ghost predicate IsMax(m: Option<real>, xs: seq<real>) {
    match m
    case None => |xs| == 0
    case Some(v) => v in xs && forall i :: 0 <= i < |xs| ==> xs[i] <= v
  }

  ghost predicate IsMin(m: Option<real>, xs: seq<real>) {
    match m
    case None => |xs| == 0
    case Some(v) => v in xs && forall i :: 0 <= i < |xs| ==> v <= xs[i]
  }

  /** The counters and extremes belonging to the scores xs. */
  ghost predicate Exact(xs: seq<real>, lower: real, upper: real, total: nat, above: nat, below: nat,
                        max: Option<real>, min: Option<real>)
  {
    && total == |xs| && above == CountAbove(xs, upper) && below == CountBelow(xs, lower)
    && IsMax(max, xs) && IsMin(min, xs)
  }

  lemma ExactStep(xs: seq<real>, x: real, lower: real, upper: real, total: nat, above: nat, below: nat,
                  max: Option<real>, min: Option<real>)
    requires Exact(xs, lower, upper, total, above, below, max, min)
    ensures Exact(xs + [x], lower, upper, total + 1, if x > upper then above + 1 else above,
                  if x < lower then below + 1 else below,
                  if max.None? || x > max.value then Some(x) else max,
                  if min.None? || x < min.value then Some(x) else min)
  {
    assert (xs + [x])[..|xs|] == xs && (xs + [x])[|xs|] == x;
  }

  class TokenAgg {
    const tokenId: int
    const stats: RunningStats
    const sampler: ReservoirSampler?
    var countTotal: nat
    var countAboveUpper: nat
    var countBelowLower: nat
    var maxScore: Option<real>  // None stands for -inf
    var minScore: Option<real>  // None stands for +inf
    ghost const lower: real
    ghost const upper: real

    ghost predicate Valid()
      reads this, stats, sampler
    {
      && stats.owner == Token(tokenId) && stats.Valid()
      && Exact(stats.xs, lower, upper, countTotal, countAboveUpper, countBelowLower, maxScore, minScore)
      && (sampler != null ==>
            && sampler.owner == Token(tokenId) && sampler.k > 0
            && sampler.Valid() && sampler.stream == stats.xs)
    }

    /** This aggregate summarises exactly the scores xs of token t. */
    ghost predicate Tracks(t: int, low: real, high: real, xs: seq<real>)
      reads this, stats, sampler
    {
      tokenId == t && lower == low && upper == high && Valid() && stats.xs == xs
    }

    /** A reservoir is built for a positive size only. */
    constructor (tokenId: int, ghost lower: real, ghost upper: real, sampleK: int)
      ensures Valid() && fresh(stats) && stats.xs == []
      ensures (sampler != null <==> sampleK > 0) && (sampler != null ==> fresh(sampler) && sampler.k == sampleK)
      ensures this.tokenId == tokenId && this.lower == lower && this.upper == upper
    {
      this.tokenId := tokenId;
      this.lower := lower;
      this.upper := upper;
      countTotal, countAboveUpper, countBelowLower := 0, 0, 0;
      maxScore, minScore := None, None;
      stats := new RunningStats(Token(tokenId));
      if sampleK > 0 {
        sampler := new ReservoirSampler(sampleK, Token(tokenId));
      } else {
        sampler := null;
      }
    }

    method Update(score: real, lowerThreshold: real, upperThreshold: real)
      requires Valid() && lowerThreshold == lower && upperThreshold == upper
      modifies this, stats, sampler
      ensures Valid() && stats.xs == old(stats.xs) + [score]
    {
      stats.Update(score);
      if sampler != null {
        sampler.UpdateRandomly(score);
      }
      Count(score, lowerThreshold, upperThreshold, old(stats.xs));
    }

    /** The counters and the extremes. */
    method Count(score: real, lowerThreshold: real, upperThreshold: real, ghost xs: seq<real>)
      requires lowerThreshold == lower && upperThreshold == upper
      requires Exact(xs, lower, upper, countTotal, countAboveUpper, countBelowLower, maxScore, minScore)
      modifies this`countTotal, this`countAboveUpper, this`countBelowLower, this`maxScore, this`minScore
      ensures Exact(xs + [score], lower, upper, countTotal, countAboveUpper, countBelowLower, maxScore, minScore)
    {
      ExactStep(xs, score, lower, upper, countTotal, countAboveUpper, countBelowLower, maxScore, minScore);
      countTotal := countTotal + 1;
      if score > upperThreshold {
        countAboveUpper := countAboveUpper + 1;
      }
      if score < lowerThreshold {
        countBelowLower := countBelowLower + 1;
      }
      if maxScore.None? || score > maxScore.value {
        maxScore := Some(score);
      }
      if minScore.None? || score < minScore.value {
        minScore := Some(score);
      }
    }
  }

  class ScoreBoard {
    const lower: real
    const upper: real
    const tokenReservoir: int
    const statScore: RunningStats
    const globalSample: ReservoirSampler
    var tokenAggs: map<int, TokenAgg>
    var order: seq<int>  // the insertion order of tokenAggs
    ghost var history: seq<Scored>
    ghost var parts: set<object>  // the aggregates with their statistics and samplers

    ghost predicate Valid()
      reads this, statScore, globalSample, parts
    {
      && GlobalValid(history)
      && Covers(order, history) && Apart()
      && (forall t :: t in tokenAggs <==> t in order) && AllTrack(history)
    }

    /** The global statistics and the global sample are those of all scores. */
    ghost predicate GlobalValid(h: seq<Scored>)
      reads statScore, globalSample
    {
      && statScore.owner == Overall && statScore.Valid() && statScore.xs == Scores(h)
      && globalSample.owner == Overall && globalSample.Valid()
      && globalSample.stream == if globalSample.k == 0 then [] else Scores(h)
    }

    /** Everything Valid says of the aggregates. */
    ghost predicate AllTrack(h: seq<Scored>)
      reads this`tokenAggs, this`parts, parts
    {
      && (forall t :: t in tokenAggs ==>
            && tokenAggs[t] in parts && tokenAggs[t].stats in parts
            && (tokenAggs[t].sampler != null ==> tokenAggs[t].sampler in parts))
      && (forall t :: t in tokenAggs ==> tokenAggs[t].Tracks(t, lower, upper, ScoresOf(h, t)))
    }

    constructor (lower: real, upper: real, globalReservoir: int, tokenReservoir: int)
      ensures Valid() && fresh(statScore) && fresh(globalSample) && parts == {} && history == []
      ensures this.lower == lower && this.upper == upper
      ensures globalSample.k == globalReservoir && this.tokenReservoir == tokenReservoir
    {
      this.lower := lower;
      this.upper := upper;
      this.tokenReservoir := tokenReservoir;
      statScore := new RunningStats(Overall);
      globalSample := new ReservoirSampler(globalReservoir, Overall);
      tokenAggs, order := map[], [];
      history, parts := [], {};
    }

    /** The aggregate of a token, created on first use. */
    method GetTokenAgg(token: int) returns (agg: TokenAgg)
      requires Valid()
      modifies this`tokenAggs, this`order, this`parts
      ensures Valid() && fresh(parts - old(parts))
      ensures token in tokenAggs && tokenAggs[token] == agg
    {
      if token in tokenAggs {
        return tokenAggs[token];
      }
      NoScores(history, token, order);
      agg := NewTokenAgg(token, history);
      order := order + [token];
    }

    method NewTokenAgg(token: int, ghost h: seq<Scored>) returns (agg: TokenAgg)
      requires AllTrack(h) && token !in tokenAggs && ScoresOf(h, token) == []
      modifies this`tokenAggs, this`parts
      ensures AllTrack(h) && tokenAggs == old(tokenAggs)[token := agg]
      ensures old(parts) <= parts && fresh(parts - old(parts))
    {
      agg := new TokenAgg(token, lower, upper, tokenReservoir);
      assert agg.Tracks(token, lower, upper, ScoresOf(h, token));
      tokenAggs := tokenAggs[token := agg];
      ghost var own := {agg, agg.stats} + if agg.sampler != null then {agg.sampler} else {};
      ghost var before := parts;
      parts := parts + own;
      assert parts - before <= own;
    }

    /** Records one score globally and for its token. */
    method Record(token: int, score: real)
      requires Valid()
      modifies this, statScore, globalSample, parts
      ensures Valid() && fresh(parts - old(parts))
      ensures history == old(history) + [Scored(token, score)]
    {
      var agg := GetTokenAgg(token);
      AddTo(agg, score);
    }

    /** The global objects are none of the aggregates'. */
    ghost predicate Apart()
      reads this`parts
    {
      statScore !in parts && globalSample !in parts && this !in parts
    }

    method AddTo(agg: TokenAgg, score: real)
      requires Valid() && agg.tokenId in tokenAggs && tokenAggs[agg.tokenId] == agg
      modifies this`history, statScore, globalSample, agg, agg.stats, agg.sampler
      ensures Valid() && history == old(history) + [Scored(agg.tokenId, score)]
    {
      ghost var h := history;
      var e := Scored(agg.tokenId, score);
      HistorySnoc(h, e, order);
      AddGlobally(e, h);
      AddToAgg(agg, score, h, h + [e]);
    }

    /** stat_score and global_score_sample */
    method AddGlobally(e: Scored, ghost h: seq<Scored>)
      requires GlobalValid(h) && AllTrack(h) && Apart() && history == h
      modifies this`history, statScore, globalSample
      ensures GlobalValid(h + [e]) && AllTrack(h) && history == h + [e]
    {
      assert (h + [e])[..|h|] == h;
      statScore.Update(e.score);
      globalSample.UpdateRandomly(e.score);
      history := h + [e];
    }

    /** The token's own half of AddTo. */
    method AddToAgg(agg: TokenAgg, score: real, ghost h: seq<Scored>, ghost all: seq<Scored>)
      requires AllTrack(h) && Apart() && GlobalValid(all)
      requires agg.tokenId in tokenAggs && tokenAggs[agg.tokenId] == agg
      modifies agg, agg.stats, agg.sampler
      ensures AllTrack(h + [Scored(agg.tokenId, score)]) && GlobalValid(all)
    {
      ghost var token := agg.tokenId;
      assert agg.Tracks(token, lower, upper, ScoresOf(h, token));
      assert statScore != agg.stats && globalSample != agg.sampler;
      agg.Update(score, lower, upper);
      forall t | t in tokenAggs
        ensures tokenAggs[t].Tracks(t, lower, upper, ScoresOf(h + [Scored(token, score)], t))
      {
        ScoresOfSnoc(h, Scored(token, score), t);
        assert old(tokenAggs[t].Tracks(t, lower, upper, ScoresOf(h, t)));
      }
    }

    /** Each reservoir is a sample of exactly the scores of its token, the global one of all scores. */
    lemma Samples(token: int)
      requires Valid() && token in tokenAggs && tokenAggs[token].sampler != null
      ensures var s := tokenAggs[token].sampler;
              tokenAggs[token].sampler in parts && s.k > 0 && Sampled(s.k, ScoresOf(history, token), s.buf, s.draws)
      ensures globalSample.k > 0 ==> Sampled(globalSample.k, Scores(history), globalSample.buf, globalSample.draws)
    {
      assert tokenAggs[token].Tracks(token, lower, upper, ScoresOf(history, token));
    }

    /** The stored fields of the tokens, in table order. */
    ghost function TokenFields(ord: seq<int>): (fs: seq<Fields>)
      requires forall i :: 0 <= i < |ord| ==> ord[i] in tokenAggs && tokenAggs[ord[i]].stats in parts
      reads this, parts
      ensures |fs| == |ord|
      ensures forall i :: 0 <= i < |ord| ==> fs[i] == FieldsOf(tokenAggs[ord[i]].stats)
    {
      if |ord| == 0 then []
      else
        var s := tokenAggs[ord[|ord| - 1]].stats;
        TokenFields(ord[..|ord| - 1]) + [FieldsOf(s)]
    }

    /** At every point of a run the per-token fields recombine to the global ones: counts add up to n,
        count-weighted means to n * mean, and M2 + n * (mean - global mean)^2 to the global M2. */
    lemma Recombination()
      requires Valid()
      ensures forall i :: 0 <= i < |order| ==> order[i] in tokenAggs && tokenAggs[order[i]].stats in parts
      ensures Recombines(TokenFields(order), FieldsOf(statScore))
    {
      forall i | 0 <= i < |order|
        ensures order[i] in tokenAggs && tokenAggs[order[i]].stats in parts
        ensures Holds(FieldsOf(tokenAggs[order[i]].stats), ScoresOf(history, order[i]))
      {
        var t := order[i];
        assert t in order;
        assert tokenAggs[t].Tracks(t, lower, upper, ScoresOf(history, t));
      }
      FieldsRecombine(TokenFields(order), order, history, FieldsOf(statScore));
    }
  }

  datatype Fields = Fields(n: nat, mean: real, m2: real)

  ghost function FieldsOf(s: RunningStats): Fields
    reads s
  {
    Fields(s.n, s.mean, s.M2)
  }

  ghost predicate Holds(f: Fields, xs: seq<real>) {
    f.n == |xs| && Summarises(xs, f.mean, f.m2)
  }

  function Times(n: nat, x: real): real {
    n as real * x
  }

  function TotalCount(fs: seq<Fields>): nat {
    if |fs| == 0 then 0 else TotalCount(fs[..|fs| - 1]) + fs[|fs| - 1].n
  }

  function WeightedMeans(fs: seq<Fields>): real {
    if |fs| == 0 then 0.0 else WeightedMeans(fs[..|fs| - 1]) + Times(fs[|fs| - 1].n, fs[|fs| - 1].mean)
  }

  function TotalSpread(fs: seq<Fields>, m: real): real {
    if |fs| == 0 then 0.0
    else
      var f := fs[|fs| - 1];
      TotalSpread(fs[..|fs| - 1], m) + (f.m2 + Times(f.n, Square(f.mean - m)))
  }

  /** What one token adds to the three totals. */
  ghost predicate Adds(f: Fields, m: real, count: int, weighted: real, spread: real) {
    && count == f.n && weighted == f.n as real * f.mean
    && spread == f.m2 + f.n as real * ((f.mean - m) * (f.mean - m))
  }

  lemma AddsIs(f: Fields, m: real, count: int, weighted: real, spread: real)
    requires Adds(f, m, count, weighted, spread)
    ensures count == f.n && weighted == Times(f.n, f.mean) && spread == f.m2 + Times(f.n, Square(f.mean - m))
  {
  }

  /** The three totals as sums over the tokens. */
  lemma {:induction false} TotalsAre(fs: seq<Fields>, m: real, counts: seq<int>, means: seq<real>, spreads: seq<real>)
    requires |counts| == |means| == |spreads| == |fs|
    requires forall i :: 0 <= i < |fs| ==> Adds(fs[i], m, counts[i], means[i], spreads[i])
    ensures TotalCount(fs) == Total(counts) && WeightedMeans(fs) == Sum(means) && TotalSpread(fs, m) == Sum(spreads)
  {
    if |fs| > 0 {
      var n := |fs| - 1;
      TotalsAre(fs[..n], m, counts[..n], means[..n], spreads[..n]);
      AddsIs(fs[n], m, counts[n], means[n], spreads[n]);
    }
  }

  ghost predicate Recombines(fs: seq<Fields>, all: Fields) {
    && TotalCount(fs) == all.n
    && WeightedMeans(fs) == Times(all.n, all.mean)
    && TotalSpread(fs, all.mean) == all.m2
  }

  /** What a held summary says about n * mean and about the deviation from any m. */
  lemma HeldSum(f: Fields, xs: seq<real>)
    requires Holds(f, xs)
    ensures Times(f.n, f.mean) == Sum(xs) && f.m2 == Deviation(xs, f.mean)
  {
    assert IsMean(f.mean, |xs| as real, Sum(xs));
  }

  lemma HeldSpread(f: Fields, xs: seq<real>, m: real)
    requires Holds(f, xs)
    ensures f.m2 + Times(f.n, Square(f.mean - m)) == Deviation(xs, m)
  {
    var k := |xs| as real;
    assert IsMean(f.mean, k, Sum(xs)) && f.m2 == Deviation(xs, f.mean);
    ParallelAxis(xs, k, f.mean, m);
  }

  lemma {:induction false} TotalsAreGroupSums(fs: seq<Fields>, order: seq<int>, h: seq<Scored>, m: real)
    requires |fs| == |order|
    requires forall i :: 0 <= i < |fs| ==> Holds(fs[i], ScoresOf(h, order[i]))
    ensures TotalCount(fs) == CountOver(order, h)
    ensures WeightedMeans(fs) == SumOver(order, h)
    ensures TotalSpread(fs, m) == DeviationOver(order, h, m)
  {
    if |fs| > 0 {
      var n := |fs| - 1;
      TotalsAreGroupSums(fs[..n], order[..n], h, m);
      HeldSum(fs[n], ScoresOf(h, order[n]));
      HeldSpread(fs[n], ScoresOf(h, order[n]), m);
    }
  }

  lemma FieldsRecombine(fs: seq<Fields>, order: seq<int>, h: seq<Scored>, all: Fields)
    requires Covers(order, h) && |fs| == |order| && Holds(all, Scores(h))
    requires forall i :: 0 <= i < |fs| ==> Holds(fs[i], ScoresOf(h, order[i]))
    ensures Recombines(fs, all)
  {
    TotalsAreGroupSums(fs, order, h, all.mean);
    Partition(order, h, all.mean);
    HeldSum(all, Scores(h));
  }

  lemma {:induction false} NoScores(h: seq<Scored>, token: int, order: seq<int>)
    requires Covers(order, h) && token !in order
    ensures ScoresOf(h, token) == []
  {
    if |h| > 0 {
      NoScores(h[..|h| - 1], token, order);
    }
  }

  /** order lists every token of h exactly once. */
  ghost predicate Covers(order: seq<int>, h: seq<Scored>) {
    Distinct(order) && forall k :: 0 <= k < |h| ==> h[k].token in order
  }

  // ---------------------------------------------------------------- recombination

  /** Contributions of the tokens in order: count, sum, and deviation from a common reference point m. */
  function CountOver(order: seq<int>, h: seq<Scored>): nat {
    if |order| == 0 then 0 else CountOver(order[..|order| - 1], h) + |ScoresOf(h, order[|order| - 1])|
  }

  function SumOver(order: seq<int>, h: seq<Scored>): real {
    if |order| == 0 then 0.0 else SumOver(order[..|order| - 1], h) + Sum(ScoresOf(h, order[|order| - 1]))
  }

  function DeviationOver(order: seq<int>, h: seq<Scored>, m: real): real {
    if |order| == 0 then 0.0
    else DeviationOver(order[..|order| - 1], h, m) + Deviation(ScoresOf(h, order[|order| - 1]), m)
  }

  /** One more scored token changes exactly its own contribution. */
  lemma {:induction false} OverStep(order: seq<int>, h: seq<Scored>, e: Scored, m: real)
    requires Distinct(order)
    ensures CountOver(order, h + [e]) == CountOver(order, h) + if e.token in order then 1 else 0
    ensures SumOver(order, h + [e]) == SumOver(order, h) + if e.token in order then e.score else 0.0
    ensures DeviationOver(order, h + [e], m) ==
              DeviationOver(order, h, m) + if e.token in order then Square(e.score - m) else 0.0
  {
    if |order| > 0 {
      var front, t := order[..|order| - 1], order[|order| - 1];
      OverStep(front, h, e, m);
      assert (h + [e])[..|h|] == h;
      Snoc(ScoresOf(h, t), e.score, m);
      assert ScoresOf(h, t) + [] == ScoresOf(h, t);
      assert e.token in order <==> e.token in front || e.token == t;
      assert t !in front;
    }
  }

  lemma {:induction false} OverNothing(order: seq<int>, m: real)
    ensures CountOver(order, []) == 0 && SumOver(order, []) == 0.0 && DeviationOver(order, [], m) == 0.0
  {
    if |order| > 0 {
      OverNothing(order[..|order| - 1], m);
    }
  }

  /** Grouping by token loses nothing: counts, sums and deviations from any m add up to the global ones. */
  lemma {:induction false} Partition(order: seq<int>, h: seq<Scored>, m: real)
    requires Covers(order, h)
    ensures CountOver(order, h) == |Scores(h)|
    ensures SumOver(order, h) == Sum(Scores(h))
    ensures DeviationOver(order, h, m) == Deviation(Scores(h), m)
  {
    if |h| == 0 {
      OverNothing(order, m);
    } else {
      var front, e := h[..|h| - 1], h[|h| - 1];
      assert h == front + [e];
      Partition(order, front, m);
      OverStep(order, front, e, m);
      Snoc(Scores(front), e.score, m);
    }
  }
}
