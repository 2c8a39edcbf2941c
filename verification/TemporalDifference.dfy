/** The temporal-difference score gamma * p_t - p_{t-1} + (1 - gamma): its telescoping sum, and when it is zero
    everywhere (analyze_length_token.py, eval_first_token_prediction.py, real_sample_tree_value_visualization.py).
    Head outputs are given after the sigmoid, as reals. */
module TemporalDifference {
  import opened Basics

  function Td(gamma: real, cur: real, prev: real): real {
    gamma * cur - prev + (1.0 - gamma)
  }

  function Power(gamma: real, n: nat): real {
    if n == 0 then 1.0 else Power(gamma, n - 1) * gamma
  }

  /** The scores along the values p[0..]. */
  function Scores(gamma: real, p: seq<real>): (s: seq<real>)
    requires |p| > 0
    ensures |s| == |p| - 1
  {
    seq(|p| - 1, t requires 0 <= t < |p| - 1 => Td(gamma, p[t + 1], p[t]))
  }

  /** score_1 + gamma * score_2 + gamma^2 * score_3 + ... */
  function Discounted(gamma: real, scores: seq<real>): real {
    if |scores| == 0 then 0.0
    else Discounted(gamma, scores[..|scores| - 1]) + Power(gamma, |scores| - 1) * scores[|scores| - 1]
  }

  lemma ScoresSnoc(gamma: real, p: seq<real>, cur: real)
    requires |p| > 0
    ensures Scores(gamma, p + [cur]) == Scores(gamma, p) + [Td(gamma, cur, p[|p| - 1])]
  {
  }

  lemma DiscountedSnoc(gamma: real, s: seq<real>, x: real)
    ensures Discounted(gamma, s + [x]) == Discounted(gamma, s) + Power(gamma, |s|) * x
  {
    assert (s + [x])[..|s|] == s;
  }

  /** What is missing from a value at step n, discounted to step 0. */
  function Gap(gamma: real, n: nat, p: real): real {
    Power(gamma, n) * (1.0 - p)
  }

  /** A discounted score is the difference of two neighbouring gaps. */
  lemma ScoreIsGap(gamma: real, n: nat, cur: real, prev: real)
    ensures Power(gamma, n) * Td(gamma, cur, prev) == Gap(gamma, n, prev) - Gap(gamma, n + 1, cur)
  {
    GapArithmetic(gamma, Power(gamma, n), cur, prev);
  }

  lemma GapArithmetic(gamma: real, g: real, cur: real, prev: real)
    ensures g * Td(gamma, cur, prev) == g * (1.0 - prev) - g * gamma * (1.0 - cur)
  {
    assert Td(gamma, cur, prev) == (1.0 - prev) - gamma * (1.0 - cur);
    assert g * (gamma * (1.0 - cur)) == g * gamma * (1.0 - cur);
  }

  lemma OneMoreScore(gamma: real, p: seq<real>, cur: real)
    requires |p| > 0
    ensures var T := |p| - 1;
            Discounted(gamma, Scores(gamma, p + [cur]))
            == Discounted(gamma, Scores(gamma, p)) + (Gap(gamma, T, p[T]) - Gap(gamma, T + 1, cur))
  {
    ScoresSnoc(gamma, p, cur);
    DiscountedSnoc(gamma, Scores(gamma, p), Td(gamma, cur, p[|p| - 1]));
    ScoreIsGap(gamma, |p| - 1, cur, p[|p| - 1]);
  }

  lemma {:induction false} GapsCancel(gamma: real, p: seq<real>)
    requires |p| > 0
    ensures Discounted(gamma, Scores(gamma, p)) == Gap(gamma, 0, p[0]) - Gap(gamma, |p| - 1, p[|p| - 1])
  {
    if |p| > 1 {
      var front, cur := p[..|p| - 1], p[|p| - 1];
      GapsCancel(gamma, front);
      OneMoreScore(gamma, front, cur);
      assert p == front + [cur];
    }
  }

  /** The discounted sum of the scores depends on the first and the last value only. */
  ghost predicate Closed(d: real, g: real, last: real, first: real) {
    d == 1.0 - g + g * last - first
  }

  lemma Telescopes(gamma: real, p: seq<real>)
    requires |p| > 0
    ensures var T := |p| - 1; Closed(Discounted(gamma, Scores(gamma, p)), Power(gamma, T), p[T], p[0])
  {
    GapsCancel(gamma, p);
    ClosedGaps(gamma, Power(gamma, |p| - 1), p[|p| - 1], p[0]);
  }

  lemma ClosedGaps(gamma: real, g: real, last: real, first: real)
    ensures Closed(Power(gamma, 0) * (1.0 - first) - g * (1.0 - last), g, last, first)
  {
  }

  // ---------------------------------------------------------------- zero scores

  /** length_to_sigmoid_p for whole lengths: 1 - gamma^length, clamped; below zero the power exceeds one. */
  function LengthToP(length: int, gamma: real): Result<real, string> {
    if !(0.0 < gamma < 1.0) then Err("gamma must be in (0,1)")
    else if length < 0 then Ok(0.0)
    else
      var p := 1.0 - Power(gamma, length);
      Ok(if p < 0.0 then 0.0 else if p > 1.0 then 1.0 else p)
  }

  lemma {:induction false} PowerBounds(gamma: real, n: nat)
    requires 0.0 < gamma < 1.0
    ensures 0.0 < Power(gamma, n) <= 1.0
    ensures n > 0 ==> Power(gamma, n) < 1.0
  {
    if n > 0 {
      PowerBounds(gamma, n - 1);
      ProductBelow(Power(gamma, n - 1), gamma);
    }
  }

  lemma ProductBelow(x: real, y: real)
    requires 0.0 < x <= 1.0 && 0.0 < y < 1.0
    ensures 0.0 < x * y < 1.0
  {
    assert x * y <= 1.0 * y;
  }

  /** The clamp never acts on a true length. */
  lemma {:induction false} ClampIdle(length: nat, gamma: real)
    requires 0.0 < gamma < 1.0
    ensures LengthToP(length, gamma) == Ok(1.0 - Power(gamma, length))
  {
    PowerBounds(gamma, length);
  }

  /** Lengths below zero get value 0, and a gamma that is no discount is refused. */
  lemma OtherLengths(length: int, gamma: real)
    ensures 0.0 < gamma < 1.0 && length < 0 ==> LengthToP(length, gamma) == Ok(0.0)
    ensures LengthToP(length, gamma).Err? <==> gamma <= 0.0 || gamma >= 1.0
  {
  }

  lemma ZeroScore(gamma: real, cur: real, prev: real)
    ensures Td(gamma, cur, prev) == 0.0 <==> 1.0 - prev == (1.0 - cur) * gamma
  {
    assert (1.0 - cur) * gamma == gamma - gamma * cur;
  }

  ghost predicate AllZero(scores: seq<real>) {
    forall t :: 0 <= t < |scores| ==> scores[t] == 0.0
  }

  /** Value t is that of the last one, steps - t steps earlier. */
  ghost predicate Decays(gamma: real, p: seq<real>) {
    forall t :: 0 <= t < |p| ==> 1.0 - p[t] == (1.0 - p[|p| - 1]) * Power(gamma, |p| - 1 - t)
  }

  lemma PowerStep(x: real, gamma: real, n: nat)
    ensures x * Power(gamma, n) * gamma == x * Power(gamma, n + 1)
  {
    assert x * (Power(gamma, n) * gamma) == x * Power(gamma, n) * gamma;
  }

  /** All scores are zero exactly when the complement 1 - p grows by a factor of 1 / gamma at every step. */
  lemma {:induction false} ZeroMeansDecay(gamma: real, p: seq<real>)
    requires |p| > 0
    ensures AllZero(Scores(gamma, p)) <==> Decays(gamma, p)
  {
    if |p| > 1 {
      ZeroMeansDecay(gamma, p[1..]);
      ShiftZero(gamma, p);
      ShiftDecay(gamma, p);
      if Decays(gamma, p[1..]) {
        FirstDecays(gamma, p);
      }
    } else {
      assert Power(gamma, 0) == 1.0;
    }
  }

  lemma FirstDecays(gamma: real, p: seq<real>)
    requires |p| > 1 && Decays(gamma, p[1..])
    ensures Td(gamma, p[1], p[0]) == 0.0 <==> 1.0 - p[0] == (1.0 - p[|p| - 1]) * Power(gamma, |p| - 1)
  {
    var rest := p[1..];
    assert 1.0 - rest[0] == (1.0 - rest[|rest| - 1]) * Power(gamma, |rest| - 1 - 0);
    ZeroScore(gamma, p[1], p[0]);
    PowerStep(1.0 - p[|p| - 1], gamma, |p| - 2);
  }

  lemma ShiftZero(gamma: real, p: seq<real>)
    requires |p| > 1
    ensures AllZero(Scores(gamma, p)) <==> Td(gamma, p[1], p[0]) == 0.0 && AllZero(Scores(gamma, p[1..]))
  {
    var all, rest := Scores(gamma, p), Scores(gamma, p[1..]);
    assert all[0] == Td(gamma, p[1], p[0]);
    assert forall t :: 0 <= t < |rest| ==> rest[t] == all[t + 1];
    assert forall t :: 1 <= t < |all| ==> all[t] == rest[t - 1];
    if AllZero(all) {
      assert forall t :: 0 <= t < |rest| ==> rest[t] == 0.0;
    }
  }

  lemma ShiftDecay(gamma: real, p: seq<real>)
    requires |p| > 1
    ensures Decays(gamma, p) <==>
              1.0 - p[0] == (1.0 - p[|p| - 1]) * Power(gamma, |p| - 1) && Decays(gamma, p[1..])
  {
    var rest := p[1..];
    forall t | 0 <= t < |rest|
      ensures rest[t] == p[t + 1] && |rest| - 1 - t == |p| - 1 - (t + 1)
    {
    }
    if Decays(gamma, p[1..]) && 1.0 - p[0] == (1.0 - p[|p| - 1]) * Power(gamma, |p| - 1) {
      forall t | 0 <= t < |p|
        ensures 1.0 - p[t] == (1.0 - p[|p| - 1]) * Power(gamma, |p| - 1 - t)
      {
        if t > 0 {
          assert rest[t - 1] == p[t];
        }
      }
    }
  }

  /** p_t is the value of the true remaining length, the number of values after it. */
  ghost predicate TrueValues(gamma: real, p: seq<real>) {
    forall t :: 0 <= t < |p| ==> LengthToP(|p| - 1 - t, gamma) == Ok(p[t])
  }

  /** With the last value at length 0, all scores are zero exactly when every value is that of its true remaining
      length. */
  lemma ZeroMeansTrueLengths(gamma: real, p: seq<real>)
    requires |p| > 0 && 0.0 < gamma < 1.0
    ensures AllZero(Scores(gamma, p)) && p[|p| - 1] == 0.0 <==> TrueValues(gamma, p)
  {
    ZeroMeansDecay(gamma, p);
    var T := |p| - 1;
    assert Power(gamma, 0) == 1.0;
    forall n: nat
      ensures LengthToP(n, gamma) == Ok(1.0 - Power(gamma, n))
    {
      ClampIdle(n, gamma);
    }
    if TrueValues(gamma, p) {
      assert LengthToP(T - T, gamma) == Ok(p[T]);
    }
  }

  // ---------------------------------------------------------------- scoring one sample

  /** The value used for the current token: the head output is replaced by 0 before the sigmoid at the end token,
      which gives one half. */
  function Current(p: real, isEos: bool): real {
    if isEos then 0.5 else p
  }

  /** Tokens and values of a sample, and the positions start..end of its span. */
  datatype Sample = Sample(ids: seq<int>, assistantStart: int, assistantEnd: int)

  predicate ValidSpan(s: Sample, values: seq<real>) {
    && |values| == |s.ids|
    && 0 <= s.assistantStart - 1 < s.assistantEnd - 1 < |s.ids|
  }

  predicate IsEos(s: Sample, eos: Option<int>, i: nat)
    requires i < |s.ids|
  {
    eos.Some? && s.ids[i] == eos.value
  }

  /** The first position from `at` on that holds the end token, before the last one. */
  function FirstEos(s: Sample, eos: Option<int>, at: nat, end: nat): (i: nat)
    requires at <= end < |s.ids|
    ensures at <= i <= end
    ensures forall j :: at <= j < i ==> !IsEos(s, eos, j)
    ensures i < end ==> IsEos(s, eos, i)
    decreases end - at
  {
    if at == end || IsEos(s, eos, at) then at else FirstEos(s, eos, at + 1, end)
  }

  /** The values the scores are taken between: as given, except that an end token in the last place counts one
      half. */
  function Path(s: Sample, values: seq<real>, eos: Option<int>): seq<real>
    requires ValidSpan(s, values)
  {
    var first := s.assistantStart - 1;
    var last := FirstEos(s, eos, first, s.assistantEnd - 1);
    if last == first then [values[first]]
    else values[first..last] + [Current(values[last], IsEos(s, eos, last))]
  }

  /** The state before position cur: no end token so far, and the scores up to there. */
  ghost predicate Scored(gamma: real, s: Sample, values: seq<real>, eos: Option<int>, cur: int, scores: seq<real>)
    requires ValidSpan(s, values)
  {
    && s.assistantStart <= cur <= s.assistantEnd
    && cur - 1 <= FirstEos(s, eos, s.assistantStart - 1, s.assistantEnd - 1)
    && scores == Scores(gamma, Path(s, values, eos))[..cur - s.assistantStart]
  }

  lemma PathShape(s: Sample, values: seq<real>, eos: Option<int>)
    requires ValidSpan(s, values)
    ensures var first, path := s.assistantStart - 1, Path(s, values, eos);
            var last := FirstEos(s, eos, first, s.assistantEnd - 1);
            && |path| == last - first + 1
            && (forall i :: first <= i < last ==> path[i - first] == values[i])
            && (last > first ==> path[last - first] == Current(values[last], IsEos(s, eos, last)))
  {
  }

  lemma ScoredNext(gamma: real, s: Sample, values: seq<real>, eos: Option<int>, cur: int, scores: seq<real>)
    requires ValidSpan(s, values) && cur < s.assistantEnd && Scored(gamma, s, values, eos, cur, scores)
    requires !IsEos(s, eos, cur - 1)
    ensures Scored(gamma, s, values, eos, cur + 1,
                   scores + [Td(gamma, Current(values[cur], IsEos(s, eos, cur)), values[cur - 1])])
  {
    var first, path := s.assistantStart - 1, Path(s, values, eos);
    var last := FirstEos(s, eos, first, s.assistantEnd - 1);
    PathShape(s, values, eos);
    var k := cur - s.assistantStart;
    assert path[k] == values[cur - 1] && path[k + 1] == Current(values[cur], IsEos(s, eos, cur));
    ScoresNext(gamma, path, k);
  }

  lemma ScoresNext(gamma: real, p: seq<real>, k: nat)
    requires k + 1 < |p|
    ensures Scores(gamma, p)[..k + 1] == Scores(gamma, p)[..k] + [Td(gamma, p[k + 1], p[k])]
  {
    PrefixNext(Scores(gamma, p), k);
  }

  lemma StopsAt(gamma: real, s: Sample, values: seq<real>, eos: Option<int>, cur: int, scores: seq<real>)
    requires ValidSpan(s, values) && Scored(gamma, s, values, eos, cur, scores)
    requires cur == s.assistantEnd || IsEos(s, eos, cur - 1)
    ensures scores == Scores(gamma, Path(s, values, eos))
    ensures cur == s.assistantEnd ==> forall i :: s.assistantStart - 1 <= i < s.assistantEnd - 1 ==> !IsEos(s, eos, i)
  {
    PathShape(s, values, eos);
  }

  /** The score of the token at position i: a value of one half stands for the end token. */
  ghost predicate ScoreOfToken(gamma: real, s: Sample, values: seq<real>, eos: Option<int>, i: int, score: real) {
    && 0 < i < |values| == |s.ids|
    && IsScore(gamma, score, if eos == Some(s.ids[i]) then 0.5 else values[i], values[i - 1])
  }

  ghost predicate IsScore(gamma: real, score: real, cur: real, prev: real) {
    score == gamma * cur - prev + (1.0 - gamma)
  }

  /** Score t is that of the token at assistantStart + t, as far as no end token came before it. */
  ghost predicate ScoresOfTokens(gamma: real, s: Sample, values: seq<real>, eos: Option<int>, scores: seq<real>) {
    var start := s.assistantStart;
    && |scores| <= s.assistantEnd - start && 0 < start && s.assistantEnd <= |s.ids|
    && (forall i :: start - 1 <= i < start - 1 + |scores| ==> eos != Some(s.ids[i]))
    && (|scores| < s.assistantEnd - start ==> eos == Some(s.ids[start - 1 + |scores|]))
    && forall t :: 0 <= t < |scores| ==> ScoreOfToken(gamma, s, values, eos, start + t, scores[t])
  }

  lemma PathScore(gamma: real, s: Sample, values: seq<real>, eos: Option<int>, t: nat)
    requires ValidSpan(s, values) && t < |Path(s, values, eos)| - 1
    ensures ScoreOfToken(gamma, s, values, eos, s.assistantStart + t, Scores(gamma, Path(s, values, eos))[t])
  {
    var path, first := Path(s, values, eos), s.assistantStart - 1;
    PathShape(s, values, eos);
    var last := FirstEos(s, eos, first, s.assistantEnd - 1);
    assert path[t] == values[first + t];
    assert first + t + 1 < last ==> !IsEos(s, eos, first + t + 1);
    assert path[t + 1] == Current(values[first + t + 1], IsEos(s, eos, first + t + 1));
    TdIsScore(gamma, path[t + 1], path[t]);
  }

  lemma TdIsScore(gamma: real, cur: real, prev: real)
    ensures IsScore(gamma, Td(gamma, cur, prev), cur, prev)
  {
  }

  lemma PathScores(gamma: real, s: Sample, values: seq<real>, eos: Option<int>)
    requires ValidSpan(s, values)
    ensures ScoresOfTokens(gamma, s, values, eos, Scores(gamma, Path(s, values, eos)))
  {
    var path, first := Path(s, values, eos), s.assistantStart - 1;
    var last := FirstEos(s, eos, first, s.assistantEnd - 1);
    PathShape(s, values, eos);
    forall i | first <= i < last
      ensures eos != Some(s.ids[i])
    {
      assert !IsEos(s, eos, i);
    }
    forall t | 0 <= t < |path| - 1
      ensures ScoreOfToken(gamma, s, values, eos, s.assistantStart + t, Scores(gamma, path)[t])
    {
      PathScore(gamma, s, values, eos, t);
    }
  }

  /** The scores recorded for a sample, and whether it was processed to its end: an end token in the middle stops it
      one position later, after the scores up to that token. */
  method ScoreSample(gamma: real, s: Sample, values: seq<real>, eos: Option<int>) returns (scores: seq<real>, ok: bool)
    ensures !ValidSpan(s, values) ==> !ok && scores == []
    ensures ValidSpan(s, values) ==> scores == Scores(gamma, Path(s, values, eos))
    ensures ValidSpan(s, values) ==> ScoresOfTokens(gamma, s, values, eos, scores)
    ensures ok <==> ValidSpan(s, values) && forall i :: s.assistantStart - 1 <= i < s.assistantEnd - 1 ==>
              !IsEos(s, eos, i)
  {
    scores, ok := [], false;
    if !ValidSpan(s, values) {
      return;
    }
    PathScores(gamma, s, values, eos);
    for cur := s.assistantStart to s.assistantEnd
      invariant Scored(gamma, s, values, eos, cur, scores)
    {
      if IsEos(s, eos, cur - 1) {
        StopsAt(gamma, s, values, eos, cur, scores);
        return;
      }
      var pCur := Current(values[cur], IsEos(s, eos, cur));
      ScoredNext(gamma, s, values, eos, cur, scores);
      scores := scores + [Td(gamma, pCur, values[cur - 1])];
    }
    StopsAt(gamma, s, values, eos, s.assistantEnd, scores);
    ok := true;
  }

  lemma CompletePath(s: Sample, values: seq<real>, eos: Option<int>)
    requires ValidSpan(s, values)
    requires forall i :: s.assistantStart - 1 <= i < s.assistantEnd - 1 ==> !IsEos(s, eos, i)
    ensures var path, last := Path(s, values, eos), s.assistantEnd - 1;
            && |path| == s.assistantEnd - s.assistantStart + 1 && path[0] == values[s.assistantStart - 1]
            && path[|path| - 1] == Current(values[last], IsEos(s, eos, last))
  {
  }

  /** What the recorded scores of a complete sample sum to: the last value counts one half if it is the end token. */
  lemma SampleSum(gamma: real, s: Sample, values: seq<real>, eos: Option<int>)
    requires ValidSpan(s, values)
    requires forall i :: s.assistantStart - 1 <= i < s.assistantEnd - 1 ==> !IsEos(s, eos, i)
    ensures var first, last := s.assistantStart - 1, s.assistantEnd - 1;
            Closed(Discounted(gamma, Scores(gamma, Path(s, values, eos))), Power(gamma, last - first),
                   if eos == Some(s.ids[last]) then 0.5 else values[last], values[first])
  {
    CompletePath(s, values, eos);
    Telescopes(gamma, Path(s, values, eos));
  }

  // ---------------------------------------------------------------- the table of one response

  datatype Row = Row(step: int, remaining: int)

  /** The steps shown: consecutive, each with the number of tokens that follow it; step -1 is the last prompt
      token. */
  ghost predicate Consecutive(rows: seq<Row>, total: int) {
    && (forall i :: 0 <= i < |rows| ==> rows[i].remaining == total - (rows[i].step + 1))
    && (forall i :: 0 <= i < |rows| ==> rows[i].step == rows[0].step + i)
    && (forall i :: 0 <= i < |rows| ==> -1 <= rows[i].step < total)
  }

  method BuildRows(total: nat, startArg: int, maxSteps: Option<int>, includePromptLast: bool, assistantStart: nat)
    returns (rows: seq<Row>)
    ensures Consecutive(rows, total)
    ensures var start := Max(0, Min(startArg, Max(0, total - 1)));
            var prompt := includePromptLast && start == 0 && assistantStart > 0;
            var shown := total - start;
            var steps := if maxSteps.None? || maxSteps.value < 0 then shown else Min(maxSteps.value, shown);
            && |rows| == steps + (if prompt then 1 else 0)
            && (|rows| > 0 ==> rows[0].step == if prompt then -1 else start)
  {
    var start := Max(0, Min(startArg, Max(0, total - 1)));
    var available := Max(0, total - start);
    var steps := if maxSteps.None? || maxSteps.value < 0 then available else Min(maxSteps.value, available);
    rows := [];
    if includePromptLast && start == 0 && assistantStart > 0 {
      rows := [Row(-1, total)];
    }
    ghost var extra := |rows|;
    for k := 0 to steps
      invariant |rows| == extra + k && Consecutive(rows, total)
      invariant |rows| > 0 ==> rows[0].step == start - extra
      invariant extra > 0 ==> |rows| > 0
    {
      var step := start + k;
      rows := rows + [Row(step, total - (step + 1))];
    }
  }

  /** The values the rows are about. */
  function RowValues(rows: seq<Row>, values: seq<real>, assistantStart: int): seq<real>
    requires forall i :: 0 <= i < |rows| ==> 0 <= assistantStart + rows[i].step < |values|
  {
    seq(|rows|, i requires 0 <= i < |rows| => values[assistantStart + rows[i].step])
  }

  /** The dictionary after i rows from step `first` on, whose values are p. */
  ghost predicate Known(byStep: map<int, real>, first: int, i: nat, p: seq<real>)
    requires i <= |p|
  {
    && (forall s :: s in byStep <==> first <= s < first + i)
    && (forall s :: first <= s < first + i ==> byStep[s] == p[s - first])
  }

  function Entry(gamma: real, p: seq<real>, k: nat): real
    requires k < |p|
  {
    if k == 0 then 0.0 else Td(gamma, p[k], p[k - 1])
  }

  /** The first i entries of the column. */
  ghost predicate ColumnIs(gamma: real, column: seq<real>, i: nat, p: seq<real>)
    requires i <= |p|
  {
    |column| == i && forall k :: 0 <= k < i ==> column[k] == Entry(gamma, p, k)
  }

  /** 0 first, and then the score between each value and the one before it. */
  ghost predicate NeighbourScores(gamma: real, column: seq<real>, p: seq<real>) {
    && |column| == |p| && (|p| > 0 ==> column[0] == 0.0)
    && forall k :: 0 < k < |p| ==> IsScore(gamma, column[k], p[k], p[k - 1])
  }

  lemma EntriesAre(gamma: real, column: seq<real>, p: seq<real>)
    requires |p| > 0 && ColumnIs(gamma, column, |p|, p)
    ensures NeighbourScores(gamma, column, p)
  {
  }

  lemma WholeColumn(gamma: real, column: seq<real>, p: seq<real>)
    requires |p| > 0 && ColumnIs(gamma, column, |p|, p)
    ensures column == [0.0] + Scores(gamma, p)
  {
    var want := [0.0] + Scores(gamma, p);
    forall k | 0 <= k < |p|
      ensures column[k] == want[k]
    {
      if k > 0 {
        assert want[k] == Scores(gamma, p)[k - 1];
      }
    }
  }

  /** The table's temporal-difference column: 0 in the first row, then the scores between neighbouring rows, found
      through the dictionary of values by step. */
  method TdColumn(gamma: real, rows: seq<Row>, total: nat, values: seq<real>, assistantStart: int)
    returns (column: seq<real>)
    requires Consecutive(rows, total)
    requires forall i :: 0 <= i < |rows| ==> 0 <= assistantStart + rows[i].step < |values|
    ensures |rows| == 0 ==> column == []
    ensures |rows| > 0 ==> column == [0.0] + Scores(gamma, RowValues(rows, values, assistantStart))
    ensures NeighbourScores(gamma, column, RowValues(rows, values, assistantStart))
  {
    column := [];
    if |rows| == 0 {
      return;
    }
    ghost var p, first := RowValues(rows, values, assistantStart), rows[0].step;
    var byStep: map<int, real> := map[];
    for i := 0 to |rows|
      invariant Known(byStep, first, i, p) && ColumnIs(gamma, column, i, p)
    {
      var step := rows[i].step;
      var pCur := values[assistantStart + step];
      assert step == first + i && pCur == p[i];
      var td := 0.0;
      if step != -1 && step - 1 in byStep {
        assert byStep[step - 1] == p[i - 1];
        td := Td(gamma, pCur, byStep[step - 1]);
      }
      byStep := byStep[step := pCur];
      column := column + [td];
    }
    WholeColumn(gamma, column, p);
    EntriesAre(gamma, column, p);
  }

  /** Every row shows the value of its true remaining length. */
  ghost predicate TrueRows(gamma: real, rows: seq<Row>, p: seq<real>)
    requires |p| == |rows|
  {
    forall i :: 0 <= i < |rows| ==> LengthToP(rows[i].remaining, gamma) == Ok(p[i])
  }

  lemma RowsCountDown(gamma: real, rows: seq<Row>, total: nat, p: seq<real>)
    requires Consecutive(rows, total) && |rows| > 0 && rows[|rows| - 1].remaining == 0 && |p| == |rows|
    ensures TrueRows(gamma, rows, p) <==> TrueValues(gamma, p)
  {
    var n := |rows| - 1;
    assert forall i :: 0 <= i < |rows| ==> rows[i].step == rows[0].step + i;
    assert rows[n].step == rows[0].step + n;
    assert forall i :: 0 <= i < |rows| ==> rows[i].remaining == n - i;
  }

  lemma LeadingZero(scores: seq<real>)
    ensures AllZero([0.0] + scores) <==> AllZero(scores)
  {
    var column := [0.0] + scores;
    assert forall t :: 0 <= t < |scores| ==> scores[t] == column[t + 1];
    assert forall t :: 1 <= t < |column| ==> column[t] == scores[t - 1];
    if AllZero(column) {
      assert forall t :: 0 <= t < |scores| ==> scores[t] == 0.0;
    }
  }

  /** A table that runs to the last token shows zeros only and ends in the value of length 0 exactly when every row
      shows the value of its true remaining length. */
  lemma ZeroColumn(gamma: real, rows: seq<Row>, total: nat, values: seq<real>, assistantStart: int)
    requires 0.0 < gamma < 1.0 && Consecutive(rows, total) && |rows| > 0 && rows[|rows| - 1].remaining == 0
    requires forall i :: 0 <= i < |rows| ==> 0 <= assistantStart + rows[i].step < |values|
    ensures var p := RowValues(rows, values, assistantStart);
            AllZero([0.0] + Scores(gamma, p)) && p[|rows| - 1] == 0.0 <==> TrueRows(gamma, rows, p)
  {
    var p := RowValues(rows, values, assistantStart);
    ZeroMeansTrueLengths(gamma, p);
    LeadingZero(Scores(gamma, p));
    RowsCountDown(gamma, rows, total, p);
  }
}
