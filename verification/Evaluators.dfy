/** The two evaluators and the runs that use them (sample_eval.py, budget_eval.py). */
module Evaluators {
  import opened Basics
  import opened Sorting
  import opened PassAtK
  import opened Responses
  import opened Budget
  import opened Fractions

  // ---------------------------------------------------------------- one question

  method JudgeRows(q: Question, judges: Judges, count: Tokenizer, limit: Limit)
    returns (within: seq<bool>, correct: seq<bool>, capped: seq<int>)
    requires |q.rows| > 0
    ensures within == WithinFlags(q, count, limit)
    ensures correct == CorrectFlags(q, judges, count, limit)
    ensures capped == Capped(q, count, limit)
  {
    within, correct, capped := [], [], [];
    for i := 0 to |q.rows|
      invariant within == WithinFlags(q, count, limit)[..i]
      invariant correct == CorrectFlags(q, judges, count, limit)[..i]
      invariant capped == Capped(q, count, limit)[..i]
    {
      var r := q.rows[i];
      PrefixNext(WithinFlags(q, count, limit), i);
      PrefixNext(CorrectFlags(q, judges, count, limit), i);
      PrefixNext(Capped(q, count, limit), i);
      within := within + [WithinBudget(r, count, limit)];
      correct := correct + [Right(r, q, judges, count, limit)];
      capped := capped + [CappedTokens(r, count, limit)];
    }
  }

  type Sums = map<int, real>

  /** One sum for each k. */
  ghost predicate SumsAre(expected: Sums, first: Sums, ks: seq<int>, qs: seq<Question>, judges: Judges,
                          count: Tokenizer, limit: Limit) {
    && NonEmpty(qs)
    && (forall k :: k in ks <==> k in expected) && (forall k :: k in ks <==> k in first)
    && (forall k :: k in expected ==> expected[k] == Sum(PassExpected(k), qs, judges, count, limit))
    && (forall k :: k in first ==> first[k] == Sum(PassFirst(k), qs, judges, count, limit))
  }

  /** The sums before the question for the k that are still to come, after it for the others. */
  ghost predicate Midway(sums: Sums, before: Sums, ks: seq<int>, j: nat, add: int -> real) {
    && j <= |ks| && (forall k :: k in sums <==> k in ks) && (forall k :: k in before <==> k in ks)
    && (forall i :: 0 <= i < j ==> sums[ks[i]] == before[ks[i]] + add(ks[i]))
    && (forall i :: j <= i < |ks| ==> sums[ks[i]] == before[ks[i]])
  }

  lemma MidwayStep(sums: Sums, before: Sums, ks: seq<int>, j: nat, add: int -> real)
    requires Increasing(ks) && Midway(sums, before, ks, j, add) && j < |ks|
    ensures ks[j] in sums && Midway(sums[ks[j] := sums[ks[j]] + add(ks[j])], before, ks, j + 1, add)
  {
    assert ks[j] in ks;
  }

  lemma MidwayEnd(sums: Sums, before: Sums, ks: seq<int>, add: int -> real)
    requires Midway(sums, before, ks, |ks|, add)
    ensures forall k :: k in ks ==> k in sums && k in before && sums[k] == before[k] + add(k)
  {
  }

  lemma Scores(q: Question, k: int, correct: seq<bool>, judges: Judges, count: Tokenizer, limit: Limit)
    requires |q.rows| > 0 && correct == CorrectFlags(q, judges, count, limit)
    ensures Value(PassExpected(k), q, judges, count, limit) ==
              PassAtK.PassAtK(|correct|, CountTrue(correct), Min(k, |correct|))
    ensures Value(PassFirst(k), q, judges, count, limit) == FirstK(correct, k)
  {
  }

  ghost predicate BothMidway(expected': Sums, expected: Sums, first': Sums, first: Sums, ks: seq<int>, j: nat,
                             correct: seq<bool>) {
    && Midway(expected', expected, ks, j, PassOf(correct))
    && Midway(first', first, ks, j, FirstOf(correct))
  }

  lemma BothStep(expected': Sums, expected: Sums, first': Sums, first: Sums, ks: seq<int>, j: nat, correct: seq<bool>)
    requires Increasing(ks) && BothMidway(expected', expected, first', first, ks, j, correct) && j < |ks|
    ensures ks[j] in expected' && ks[j] in first'
    ensures var k := ks[j];
            BothMidway(expected'[k := expected'[k] + PassOf(correct)(k)], expected,
                       first'[k := first'[k] + FirstOf(correct)(k)], first, ks, j + 1, correct)
  {
    MidwayStep(expected', expected, ks, j, PassOf(correct));
    MidwayStep(first', first, ks, j, FirstOf(correct));
  }

  method AddPass(correct: seq<bool>, ks: seq<int>, j: nat, quotientRaises: bool, ghost expected: Sums,
                 ghost first: Sums, sums: Sums, firsts: Sums)
    returns (sums': Sums, firsts': Sums)
    requires Increasing(ks) && j < |ks| && BothMidway(sums, expected, firsts, first, ks, j, correct)
    ensures BothMidway(sums', expected, firsts', first, ks, j + 1, correct)
  {
    var k, n, c := ks[j], |correct|, CountTrue(correct);
    BothStep(sums, expected, firsts, first, ks, j, correct);
    var p := PassAtKExpected(n, c, Min(k, n), quotientRaises);
    assert p == PassOf(correct)(k) && FirstK(correct, k) == FirstOf(correct)(k);
    sums' := sums[k := sums[k] + p];
    firsts' := firsts[k := firsts[k] + FirstK(correct, k)];
  }

  /** The inner loop over pass_ks. */
  method AddPasses(correct: seq<bool>, ks: seq<int>, quotientRaises: bool, expected: Sums, first: Sums)
    returns (expected': Sums, first': Sums)
    requires Increasing(ks)
    requires (forall k :: k in expected <==> k in ks) && (forall k :: k in first <==> k in ks)
    ensures BothMidway(expected', expected, first', first, ks, |ks|, correct)
  {
    expected', first' := expected, first;
    for j := 0 to |ks|
      invariant BothMidway(expected', expected, first', first, ks, j, correct)
    {
      expected', first' := AddPass(correct, ks, j, quotientRaises, expected, first, expected', first');
    }
  }

  ghost function PassOf(correct: seq<bool>): int -> real {
    k => PassAtK.PassAtK(|correct|, CountTrue(correct), Min(k, |correct|))
  }

  ghost function FirstOf(correct: seq<bool>): int -> real {
    k => FirstK(correct, k)
  }

  // ---------------------------------------------------------------- all questions

  /** The accumulators of an evaluation. */
  datatype State = State(questions: nat, expected: Sums, first: Sums, within: real, capped: real)

  ghost predicate StateIs(st: State, ks: seq<int>, qs: seq<Question>, judges: Judges, count: Tokenizer, limit: Limit) {
    && st.questions == |qs| && SumsAre(st.expected, st.first, ks, qs, judges, count, limit)
    && st.within == Sum(WithinFraction, qs, judges, count, limit)
    && st.capped == Sum(AverageCapped, qs, judges, count, limit)
  }

  lemma SumSnoc(m: Metric, qs: seq<Question>, q: Question, judges: Judges, count: Tokenizer, limit: Limit)
    requires NonEmpty(qs) && |q.rows| > 0
    ensures NonEmpty(qs + [q])
    ensures Sum(m, qs + [q], judges, count, limit) ==
              Sum(m, qs, judges, count, limit) + Value(m, q, judges, count, limit)
  {
    assert (qs + [q])[..|qs|] == qs;
  }

  lemma SumsNext(expected: Sums, first: Sums, expected': Sums, first': Sums, ks: seq<int>, qs: seq<Question>,
                 q: Question, judges: Judges, count: Tokenizer, limit: Limit)
    requires SumsAre(expected, first, ks, qs, judges, count, limit) && |q.rows| > 0
    requires BothMidway(expected', expected, first', first, ks, |ks|, CorrectFlags(q, judges, count, limit))
    ensures SumsAre(expected', first', ks, qs + [q], judges, count, limit)
  {
    var correct := CorrectFlags(q, judges, count, limit);
    MidwayEnd(expected', expected, ks, PassOf(correct));
    MidwayEnd(first', first, ks, FirstOf(correct));
    forall k | k in ks
      ensures expected'[k] == Sum(PassExpected(k), qs + [q], judges, count, limit)
      ensures first'[k] == Sum(PassFirst(k), qs + [q], judges, count, limit)
    {
      Scores(q, k, correct, judges, count, limit);
      SumSnoc(PassExpected(k), qs, q, judges, count, limit);
      SumSnoc(PassFirst(k), qs, q, judges, count, limit);
    }
  }

  /** The body of the loop over questions. */
  method AddQuestion(st: State, q: Question, ks: seq<int>, judges: Judges, count: Tokenizer, limit: Limit,
                     quotientRaises: bool, ghost qs: seq<Question>) returns (st': State)
    requires Increasing(ks) && |q.rows| > 0 && StateIs(st, ks, qs, judges, count, limit)
    ensures StateIs(st', ks, qs + [q], judges, count, limit)
  {
    var within, correct, capped := JudgeRows(q, judges, count, limit);
    var n := |correct|;
    var expected, first := AddPasses(correct, ks, quotientRaises, st.expected, st.first);
    SumsNext(st.expected, st.first, expected, first, ks, qs, q, judges, count, limit);
    SumSnoc(WithinFraction, qs, q, judges, count, limit);
    SumSnoc(AverageCapped, qs, q, judges, count, limit);
    st' := State(st.questions + 1, expected, first,
                 st.within + CountTrue(within) as real / n as real,
                 st.capped + Total(capped) as real / n as real);
  }

  datatype Summary = Summary(questions: nat, passKs: seq<int>, expected: Sums, first: Sums)

  ghost predicate IsSummary(s: Summary, ks: seq<int>, qs: seq<Question>, judges: Judges, count: Tokenizer,
                            limit: Limit) {
    && NonEmpty(qs) && s.questions == |qs| && s.passKs == ks
    && (forall k :: k in s.expected <==> k in ks) && (forall k :: k in s.first <==> k in ks)
    && (forall k :: k in s.expected ==> s.expected[k] == Average(PassExpected(k), qs, judges, count, limit))
    && (forall k :: k in s.first ==> s.first[k] == Average(PassFirst(k), qs, judges, count, limit))
  }

  /** Both kinds of pass@k said in terms of the rows that are right. */
  ghost predicate ReportsFractions(s: Summary, qs: seq<Question>, judges: Judges, count: Tokenizer, limit: Limit) {
    forall k :: k in s.passKs ==>
      && k in s.expected && s.expected[k] == MeanOf(qs, q => Share(q, k, judges, count, limit))
      && k in s.first && s.first[k] == MeanOf(qs, q => FirstShare(q, k, judges, count, limit))
  }

  lemma SummaryMeans(s: Summary, ks: seq<int>, qs: seq<Question>, judges: Judges, count: Tokenizer, limit: Limit)
    requires IsSummary(s, ks, qs, judges, count, limit)
    ensures ReportsFractions(s, qs, judges, count, limit)
  {
    forall k | k in ks
      ensures s.expected[k] == MeanOf(qs, q => Share(q, k, judges, count, limit))
      ensures s.first[k] == MeanOf(qs, q => FirstShare(q, k, judges, count, limit))
    {
      PassMeans(qs, judges, count, limit, k);
    }
  }

  function Averaged(sums: Sums, n: nat): Sums {
    map k | k in sums :: if n > 0 then sums[k] / n as real else 0.0
  }

  lemma SummaryOf(st: State, ks: seq<int>, qs: seq<Question>, judges: Judges, count: Tokenizer, limit: Limit)
    requires StateIs(st, ks, qs, judges, count, limit)
    ensures var s := Summary(st.questions, ks, Averaged(st.expected, st.questions), Averaged(st.first, st.questions));
            IsSummary(s, ks, qs, judges, count, limit)
  {
  }

  method StartState(ks: seq<int>, ghost judges: Judges, ghost count: Tokenizer, ghost limit: Limit) returns (st: State)
    ensures StateIs(st, ks, [], judges, count, limit)
  {
    st := State(0, map k | k in ks :: 0.0, map k | k in ks :: 0.0, 0.0, 0.0);
  }

  lemma QuestionsSnoc(groups: Groups, order: seq<int>, i: nat)
    requires i < |order| && forall j :: 0 <= j < |order| ==> order[j] in groups
    ensures var before := Questions(groups, order[..i]);
            var rows := groups[order[i]];
            Questions(groups, order[..i + 1]) == if rows == [] then before else before + [QuestionOf(rows)]
  {
    assert order[..i + 1][..i] == order[..i];
    assert Questions(groups, order[..i]) + [] == Questions(groups, order[..i]);
  }

  lemma KeysInGroups(groups: Groups, order: seq<int>)
    requires Enumerates(order, groups.Keys)
    ensures forall j :: 0 <= j < |order| ==> order[j] in groups
  {
    forall j | 0 <= j < |order|
      ensures order[j] in groups
    {
      assert order[j] in order;
    }
  }

  method EvalGroup(groups: Groups, order: seq<int>, i: nat, ks: seq<int>, judges: Judges, count: Tokenizer,
                   limit: Limit, quotientRaises: bool, st: State) returns (st': State)
    requires Increasing(ks) && i < |order| && forall j :: 0 <= j < |order| ==> order[j] in groups
    requires StateIs(st, ks, Questions(groups, order[..i]), judges, count, limit)
    ensures StateIs(st', ks, Questions(groups, order[..i + 1]), judges, count, limit)
  {
    var rows := groups[order[i]];
    QuestionsSnoc(groups, order, i);
    if rows == [] {
      st' := st;
    } else {
      QuestionSize(rows);
      st' := AddQuestion(st, QuestionOf(rows), ks, judges, count, limit, quotientRaises, Questions(groups, order[..i]));
    }
  }

  method EvalGroups(groups: Groups, order: seq<int>, ks: seq<int>, judges: Judges, count: Tokenizer, limit: Limit,
                    quotientRaises: bool) returns (st: State)
    requires Increasing(ks) && forall j :: 0 <= j < |order| ==> order[j] in groups
    ensures StateIs(st, ks, Questions(groups, order), judges, count, limit)
  {
    st := StartState(ks, judges, count, limit);
    for i := 0 to |order|
      invariant StateIs(st, ks, Questions(groups, order[..i]), judges, count, limit)
    {
      st := EvalGroup(groups, order, i, ks, judges, count, limit, quotientRaises, st);
    }
    assert order[..|order|] == order;
  }

  // ---------------------------------------------------------------- the two evaluators

  /** eval_budget: one token budget. */
  method EvalBudget(groups: Groups, ghost rows: seq<Row>, budget: int, judges: Judges, count: Tokenizer,
                    passKs: seq<int>, quotientRaises: bool)
    returns (s: Summary, within: real, capped: real)
    requires GroupedAs(groups, OkRows(rows))
    ensures Enumerates(s.passKs, Positive(passKs))
    ensures IsSummary(s, s.passKs, QuestionsIn(rows), judges, count, Tokens(budget))
    ensures within == Average(WithinFraction, QuestionsIn(rows), judges, count, Tokens(budget))
    ensures capped == Average(AverageCapped, QuestionsIn(rows), judges, count, Tokens(budget))
    ensures ReportsFractions(s, QuestionsIn(rows), judges, count, Tokens(budget))
    ensures within == MeanOf(QuestionsIn(rows), q => ShortShare(q, count, budget))
    ensures capped == MeanOf(QuestionsIn(rows), q => CutMean(q, count, budget))
  {
    var ks := NormaliseKs(passKs);
    var order := SortSet(groups.Keys);
    KeysInGroups(groups, order);
    BudgetQuestions(groups, rows, order);
    var st := EvalGroups(groups, order, ks, judges, count, Tokens(budget), quotientRaises);
    SummaryOf(st, ks, QuestionsIn(rows), judges, count, Tokens(budget));
    var n := st.questions;
    s := Summary(n, ks, Averaged(st.expected, n), Averaged(st.first, n));
    within := if n > 0 then st.within / n as real else 0.0;
    capped := if n > 0 then st.capped / n as real else 0.0;
    SummaryMeans(s, ks, QuestionsIn(rows), judges, count, Tokens(budget));
    BudgetMeans(QuestionsIn(rows), judges, count, budget);
  }

  lemma BudgetQuestions(groups: Groups, rows: seq<Row>, order: seq<int>)
    requires GroupedAs(groups, OkRows(rows)) && Enumerates(order, groups.Keys)
    requires forall j :: 0 <= j < |order| ==> order[j] in groups
    ensures Questions(groups, order) == QuestionsIn(rows)
  {
    SameGroups(groups, OkRows(rows), order);
    forall x | x in Indices(OkRows(rows))
      ensures x in groups.Keys
    {
      IndicesHaveRows(OkRows(rows), x);
    }
    OneListOfQuestions(rows, order, groups.Keys);
  }

  function OkGroups(groups: Groups): Groups {
    map idx | idx in groups :: OkRows(groups[idx])
  }

  lemma UnlimitedQuestions(groups: Groups, rows: seq<Row>, order: seq<int>)
    requires GroupedAs(groups, rows) && Enumerates(order, groups.Keys)
    requires forall j :: 0 <= j < |order| ==> order[j] in groups
    ensures Questions(OkGroups(groups), order) == QuestionsIn(rows)
  {
    forall j | 0 <= j < |order|
      ensures OkGroups(groups)[order[j]] == RowsFor(OkRows(rows), order[j])
    {
      FilterThenGroup(rows, order[j]);
    }
    SameGroups(OkGroups(groups), OkRows(rows), order);
    forall x | x in Indices(OkRows(rows))
      ensures x in groups.Keys
    {
      IndicesHaveRows(OkRows(rows), x);
      FilterThenGroup(rows, x);
    }
    OneListOfQuestions(rows, order, groups.Keys);
  }

  /** eval_from_responses: no budget; rows without a usable text are dropped after grouping. */
  method EvalFromResponses(rows: seq<Row>, judges: Judges, count: Tokenizer, passKs: seq<int>, quotientRaises: bool)
    returns (s: Summary)
    ensures Enumerates(s.passKs, if Positive(passKs) == {} then {1} else Positive(passKs))
    ensures IsSummary(s, s.passKs, QuestionsIn(rows), judges, count, Unlimited)
    ensures ReportsFractions(s, QuestionsIn(rows), judges, count, Unlimited)
  {
    var ks := NormaliseKs(passKs);
    if |ks| == 0 {
      EnumerationSize(ks, Positive(passKs));
      ks := [1];
    } else {
      assert ks[0] in ks;
    }
    var all := GroupAll(rows);
    var groups := OkGroups(all);
    var order := SortSet(groups.Keys);
    KeysInGroups(groups, order);
    assert groups.Keys == all.Keys;
    UnlimitedQuestions(all, rows, order);
    var st := EvalGroups(groups, order, ks, judges, count, Unlimited, quotientRaises);
    SummaryOf(st, ks, QuestionsIn(rows), judges, count, Unlimited);
    s := Summary(st.questions, ks, Averaged(st.expected, st.questions), Averaged(st.first, st.questions));
    SummaryMeans(s, ks, QuestionsIn(rows), judges, count, Unlimited);
  }

  // ---------------------------------------------------------------- the list of k from the file

  /** n is the largest number of usable rows of an index, 0 when there is none. */
  ghost predicate MostRows(n: nat, ok: seq<Row>) {
    && (forall idx :: |RowsFor(ok, idx)| <= n)
    && (n > 0 ==> exists idx :: |RowsFor(ok, idx)| == n)
  }

  lemma OneMost(a: nat, b: nat, ok: seq<Row>)
    requires MostRows(a, ok) && MostRows(b, ok)
    ensures a == b
  {
  }

  /** The k list of both runs: the powers of two up to the largest number of usable rows of an index. */
  ghost predicate PowerList(ks: seq<int>, rows: seq<Row>) {
    exists most: nat :: MostRows(most, OkRows(rows)) && PowersUpTo(ks, most)
  }

  method MaxValue(counts: map<int, nat>) returns (n: nat)
    ensures forall idx :: idx in counts ==> counts[idx] <= n
    ensures n > 0 ==> exists idx :: idx in counts && counts[idx] == n
  {
    n := 0;
    var rest := counts.Keys;
    while |rest| > 0
      invariant rest <= counts.Keys
      invariant forall idx :: idx in counts && idx !in rest ==> counts[idx] <= n
      invariant n > 0 ==> exists idx :: idx in counts && counts[idx] == n
      decreases |rest|
    {
      Inhabited(rest);
      var idx :| idx in rest;
      rest := rest - {idx};
      if counts[idx] > n {
        n := counts[idx];
      }
    }
  }

  /** compute_pass_ks_pow2 of budget_eval.py: from the groups. */
  method ComputePassKs(groups: Groups, ghost rows: seq<Row>) returns (ks: seq<int>)
    requires GroupedAs(groups, OkRows(rows))
    ensures PowerList(ks, rows)
  {
    var lengths := map idx | idx in groups :: |groups[idx]|;
    var maxN := MaxValue(lengths);
    ks := Powers(maxN);
    ghost var ok := OkRows(rows);
    assert forall idx :: idx in groups ==> lengths[idx] == |RowsFor(ok, idx)|;
    assert MostRows(maxN, ok);
  }

  ghost predicate CountsAre(counts: map<int, nat>, ok: seq<Row>) {
    forall idx :: (idx in counts <==> RowsFor(ok, idx) != []) && (idx in counts ==> counts[idx] == |RowsFor(ok, idx)|)
  }

  function Bumped(counts: map<int, nat>, idx: int): map<int, nat> {
    counts[idx := (if idx in counts then counts[idx] else 0) + 1]
  }

  lemma CountsSnoc(counts: map<int, nat>, ok: seq<Row>, r: Row)
    requires CountsAre(counts, ok)
    ensures r.idx.Some? ==> CountsAre(Bumped(counts, r.idx.value), ok + [r])
    ensures r.idx.None? ==> CountsAre(counts, ok + [r])
  {
    RowsForSnoc(ok, r);
  }

  /** compute_pass_ks_pow2_from_responses of sample_eval.py: from the lines. */
  method ComputePassKsFromResponses(rows: seq<Row>) returns (ks: seq<int>)
    ensures PowerList(ks, rows)
  {
    var counts: map<int, nat> := map[];
    for i := 0 to |rows|
      invariant CountsAre(counts, OkRows(rows[..i]))
    {
      OkRowsAt(rows, i);
      CountsSnoc(counts, OkRows(rows[..i]), rows[i]);
      if rows[i].idx.Some? && IsOk(rows[i]) {
        counts := Bumped(counts, rows[i].idx.value);
      }
    }
    assert rows[..|rows|] == rows;
    var maxN := MaxValue(counts);
    ks := Powers(maxN);
    ghost var ok := OkRows(rows);
    assert forall idx :: idx in counts ==> counts[idx] == |RowsFor(ok, idx)|;
    assert MostRows(maxN, ok);
  }

  // ---------------------------------------------------------------- whole runs

  lemma OnePowerList(a: seq<int>, b: seq<int>, rows: seq<Row>)
    requires PowerList(a, rows) && PowerList(b, rows)
    ensures a == b
  {
    var m: nat :| MostRows(m, OkRows(rows)) && PowersUpTo(a, m);
    var n: nat :| MostRows(n, OkRows(rows)) && PowersUpTo(b, n);
    OneMost(m, n, OkRows(rows));
    SamePowers(a, b, m);
  }

  lemma SamePowers(a: seq<int>, b: seq<int>, n: int)
    requires PowersUpTo(a, n) && PowersUpTo(b, n)
    ensures a == b
  {
    var members := set k | k in a;
    assert forall k :: k in a <==> k in members;
    assert forall k :: k in b <==> k in members;
    OneEnumeration(a, b, members);
  }

  /** A power list passes through normalisation unchanged. */
  lemma PowersNormal(ks: seq<int>, rows: seq<Row>, normal: seq<int>)
    requires PowerList(ks, rows) && Enumerates(normal, Positive(ks))
    ensures normal == ks && Positive(ks) != {}
  {
    var n: nat :| MostRows(n, OkRows(rows)) && PowersUpTo(ks, n);
    forall k | k in ks
      ensures k > 0
    {
      PowersPositive(k);
    }
    assert IsPowerOfTwo(1);
    assert 1 in Positive(ks);
    OneEnumeration(normal, ks, Positive(ks));
  }

  /** The eval stage of sample_eval.py. */
  method EvalStage(rows: seq<Row>, judges: Judges, count: Tokenizer, quotientRaises: bool) returns (s: Summary)
    ensures PowerList(s.passKs, rows) && IsSummary(s, s.passKs, QuestionsIn(rows), judges, count, Unlimited)
    ensures ReportsFractions(s, QuestionsIn(rows), judges, count, Unlimited)
  {
    var ks := ComputePassKsFromResponses(rows);
    s := EvalFromResponses(rows, judges, count, ks, quotientRaises);
    assert Positive(ks) != {} by {
      PowersNormal(ks, rows, Order(Positive(ks)));
    }
    PowersNormal(ks, rows, s.passKs);
  }

  datatype Report = Report(budget: int, summary: Summary, within: real, capped: real)

  ghost predicate IsReport(r: Report, rows: seq<Row>, judges: Judges, count: Tokenizer) {
    && PowerList(r.summary.passKs, rows)
    && IsSummary(r.summary, r.summary.passKs, QuestionsIn(rows), judges, count, Tokens(r.budget))
    && r.within == Average(WithinFraction, QuestionsIn(rows), judges, count, Tokens(r.budget))
    && r.capped == Average(AverageCapped, QuestionsIn(rows), judges, count, Tokens(r.budget))
  }

  function Itself(budget: int): int {
    budget
  }

  /** main of budget_eval.py: a report for each budget, in increasing order of the budgets. */
  method EvalBudgets(rows: seq<Row>, budgets: seq<int>, judges: Judges, count: Tokenizer, quotientRaises: bool)
    returns (reports: seq<Report>)
    ensures |reports| == |budgets| && multiset(BudgetsOf(reports)) == multiset(budgets)
    ensures forall i, j :: 0 <= i < j < |reports| ==> reports[i].budget <= reports[j].budget
    ensures forall i :: 0 <= i < |reports| ==> IsReport(reports[i], rows, judges, count)
    ensures forall i :: 0 <= i < |reports| ==> Spelled(reports[i], rows, judges, count)
  {
    var groups := LoadAndCountTokens(rows);
    var ks := ComputePassKs(groups, rows);
    var ordered := Sorted(budgets, Itself);
    BudgetOrder(budgets);
    reports := [];
    for i := 0 to |ordered|
      invariant BudgetsOf(reports) == ordered[..i]
      invariant forall j :: 0 <= j < i ==>
                  IsReport(reports[j], rows, judges, count) && Spelled(reports[j], rows, judges, count)
    {
      var s, within, capped := EvalBudget(groups, rows, ordered[i], judges, count, ks, quotientRaises);
      PowersNormal(ks, rows, s.passKs);
      PrefixNext(ordered, i);
      BudgetsSnoc(reports, Report(ordered[i], s, within, capped));
      reports := reports + [Report(ordered[i], s, within, capped)];
    }
    assert ordered[..|ordered|] == ordered;
    assert forall i :: 0 <= i < |reports| ==> reports[i].budget == ordered[i];
  }

  function BudgetsOf(reports: seq<Report>): seq<int> {
    seq(|reports|, i requires 0 <= i < |reports| => reports[i].budget)
  }

  lemma BudgetsSnoc(reports: seq<Report>, r: Report)
    ensures BudgetsOf(reports + [r]) == BudgetsOf(reports) + [r.budget]
  {
  }

  lemma BudgetOrder(budgets: seq<int>)
    ensures var ordered := Sorted(budgets, Itself);
            && |ordered| == |budgets| && multiset(ordered) == multiset(budgets)
            && forall i, j :: 0 <= i < j < |ordered| ==> ordered[i] <= ordered[j]
  {
    var ordered := Sorted(budgets, Itself);
    SortedCorrect(budgets, Itself);
    assert |multiset(ordered)| == |multiset(budgets)|;
    forall i, j | 0 <= i < j < |ordered|
      ensures ordered[i] <= ordered[j]
    {
      assert Itself(ordered[i]) <= Itself(ordered[j]);
    }
  }

  /** The numbers of a report said in terms of the rows. */
  ghost predicate Spelled(r: Report, rows: seq<Row>, judges: Judges, count: Tokenizer) {
    && ReportsFractions(r.summary, QuestionsIn(rows), judges, count, Tokens(r.budget))
    && r.within == MeanOf(QuestionsIn(rows), q => ShortShare(q, count, r.budget))
    && r.capped == MeanOf(QuestionsIn(rows), q => CutMean(q, count, r.budget))
  }

  /** Raising the budget lowers nothing that is reported: no pass@k of either kind, not the fraction within the
      budget, not the average of the capped lengths. */
  lemma ReportsRise(low: Report, high: Report, rows: seq<Row>, judges: Judges, count: Tokenizer)
    requires IsReport(low, rows, judges, count) && IsReport(high, rows, judges, count) && low.budget <= high.budget
    ensures low.summary.passKs == high.summary.passKs && low.summary.questions == high.summary.questions
    ensures forall k :: k in low.summary.passKs ==>
              && k in low.summary.expected && k in high.summary.expected
              && k in low.summary.first && k in high.summary.first
              && low.summary.expected[k] <= high.summary.expected[k] && low.summary.first[k] <= high.summary.first[k]
    ensures low.within <= high.within && low.capped <= high.capped
  {
    var qs := QuestionsIn(rows);
    OnePowerList(low.summary.passKs, high.summary.passKs, rows);
    forall k | k in low.summary.passKs
      ensures low.summary.expected[k] <= high.summary.expected[k] && low.summary.first[k] <= high.summary.first[k]
    {
      BudgetMonotone(PassExpected(k), qs, judges, count, low.budget, high.budget);
      BudgetMonotone(PassFirst(k), qs, judges, count, low.budget, high.budget);
    }
    BudgetMonotone(WithinFraction, qs, judges, count, low.budget, high.budget);
    BudgetMonotone(AverageCapped, qs, judges, count, low.budget, high.budget);
  }

  /** Once the budget covers the longest response, budget_eval's summary is that of the unlimited evaluator: the
      same questions, the same list of k and the same pass@k of both kinds. Rows with a question type are the
      exception, since only the unlimited evaluator has a judge for them. */
  lemma CoveringBudget(r: Report, s: Summary, rows: seq<Row>, judges: Judges, count: Tokenizer)
    requires IsReport(r, rows, judges, count)
    requires PowerList(s.passKs, rows) && IsSummary(s, s.passKs, QuestionsIn(rows), judges, count, Unlimited)
    requires Covers(QuestionsIn(rows), count, r.budget) && RuleJudged(QuestionsIn(rows))
    ensures r.summary == s
  {
    OnePowerList(r.summary.passKs, s.passKs, rows);
    CoveredSums(r.summary, s, s.passKs, QuestionsIn(rows), judges, count, r.budget);
  }

  lemma CoveredSums(s: Summary, t: Summary, ks: seq<int>, qs: seq<Question>, judges: Judges, count: Tokenizer,
                    budget: int)
    requires IsSummary(s, ks, qs, judges, count, Tokens(budget)) && IsSummary(t, ks, qs, judges, count, Unlimited)
    requires Covers(qs, count, budget) && RuleJudged(qs)
    ensures s == t
  {
    forall k | k in ks
      ensures k in s.expected && k in t.expected && s.expected[k] == t.expected[k]
      ensures k in s.first && k in t.first && s.first[k] == t.first[k]
    {
      BudgetCovered(PassExpected(k), qs, judges, count, budget);
      BudgetCovered(PassFirst(k), qs, judges, count, budget);
    }
    EqualSums(s.expected, t.expected, ks);
    EqualSums(s.first, t.first, ks);
  }

  lemma EqualSums(a: Sums, b: Sums, ks: seq<int>)
    requires (forall k :: k in a <==> k in ks) && (forall k :: k in b <==> k in ks)
    requires forall k :: k in ks ==> k in a && k in b && a[k] == b[k]
    ensures a == b
  {
    forall k
      ensures k in a <==> k in b
      ensures k in a ==> a[k] == b[k]
    {
      assert k in a <==> k in ks;
    }
  }
}
