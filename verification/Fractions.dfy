/** What the reported averages say about the rows of the file: which rows make up a question, which of them are
    right, and the fraction of the draws that hold a right one. */
module Fractions {
  import opened Basics
  import opened Combinatorics
  import opened Sorting
  import opened PassAtK
  import opened Responses
  import opened Budget
  import Welford

  // ---------------------------------------------------------------- one question

  /** The rows of a question that a judge accepts, and that keep to the budget when there is one. */
  ghost function RightRows(q: Question, judges: Judges, count: Tokenizer, limit: Limit): set<nat> {
    match limit
    case Unlimited =>
      set i: nat | i < |q.rows| &&
        if q.rows[0].questionType then judges.vista(Said(q.rows[i]), q.rows[0])
        else judges.rule(Said(q.rows[i]), q.gold)
    case Tokens(budget) =>
      set i: nat | i < |q.rows| && Length(q.rows[i], count) <= budget && judges.rule(Said(q.rows[i]), q.gold)
  }

  function Said(r: Row): string {
    match r.text
    case Some(t) => t
    case None => ""
  }

  function Length(r: Row, count: Tokenizer): nat {
    match r.text
    case Some(t) => count(t)
    case None => 0
  }

  /** The number of true flags is the number of positions that hold true. */
  lemma {:induction false} CountTrueIsSize(flags: seq<bool>)
    ensures CountTrue(flags) == |set i: nat | i < |flags| && flags[i]|
  {
    var at := set i: nat | i < |flags| && flags[i];
    if |flags| == 0 {
      assert at == {};
    } else {
      var n := |flags| - 1;
      var front := flags[..n];
      CountTrueIsSize(front);
      var before := set i: nat | i < |front| && front[i];
      assert at == before + if flags[n] then {n as nat} else {};
    }
  }

  lemma RightRowsFlagged(q: Question, judges: Judges, count: Tokenizer, limit: Limit)
    requires |q.rows| > 0
    ensures var flags := CorrectFlags(q, judges, count, limit);
            && RightRows(q, judges, count, limit) == (set i: nat | i < |flags| && flags[i])
            && CountTrue(flags) == |RightRows(q, judges, count, limit)|
            && RightRows(q, judges, count, limit) <= Range(|q.rows|)
  {
    var flags := CorrectFlags(q, judges, count, limit);
    CountTrueIsSize(flags);
    forall i: nat
      ensures i in RightRows(q, judges, count, limit) <==> i < |flags| && flags[i]
    {
      if i < |flags| {
        assert flags[i] == Right(q.rows[i], q, judges, count, limit);
      }
    }
  }

  /** The share of the k-subsets of the rows of q that hold a right one, with k cut down to their number; nothing
      for no draw. */
  ghost function Share(q: Question, k: int, judges: Judges, count: Tokenizer, limit: Limit): real {
    var n := |q.rows|;
    var draw := if k <= n then k else n;
    if draw <= 0 then 0.0
    else
      KSubsetsCount(Range(n), draw);
      RangeSize(n);
      ChooseSmall(n, draw);
      |Hitting(n, RightRows(q, judges, count, limit), draw)| as real / |KSubsets(Range(n), draw)| as real
  }

  /** What a question adds to the expected pass@k is the fraction of its draws that hold a right row. */
  lemma ExpectedIsShare(q: Question, k: int, judges: Judges, count: Tokenizer, limit: Limit)
    requires |q.rows| > 0
    ensures Value(PassExpected(k), q, judges, count, limit) == Share(q, k, judges, count, limit)
  {
    RightRowsFlagged(q, judges, count, limit);
    if k > 0 {
      FractionOfSubsets(|q.rows|, RightRows(q, judges, count, limit), Min(k, |q.rows|));
    }
  }

  /** What it adds to the first-k pass rate: is any of its first k rows right? */
  lemma FirstIsAmongK(q: Question, k: int, judges: Judges, count: Tokenizer, limit: Limit)
    requires |q.rows| > 0
    ensures Value(PassFirst(k), q, judges, count, limit) ==
              if exists i :: i in RightRows(q, judges, count, limit) && i < k then 1.0 else 0.0
  {
    RightRowsFlagged(q, judges, count, limit);
    var flags, m := CorrectFlags(q, judges, count, limit), Max(0, Min(k, |q.rows|));
    if i :| i in RightRows(q, judges, count, limit) && i < k {
      assert flags[..m][i];
    }
    if i :| 0 <= i < |flags[..m]| && flags[..m][i] {
      assert i in RightRows(q, judges, count, limit) && i < k;
    }
  }

  ghost function ShortRows(q: Question, count: Tokenizer, budget: int): set<nat> {
    set i: nat | i < |q.rows| && Length(q.rows[i], count) <= budget
  }

  /** What it adds to the within-budget fraction: the fraction of its rows no longer than the budget. */
  lemma WithinIsFraction(q: Question, judges: Judges, count: Tokenizer, budget: int)
    requires |q.rows| > 0
    ensures Value(WithinFraction, q, judges, count, Tokens(budget)) ==
              |ShortRows(q, count, budget)| as real / |q.rows| as real
  {
    var flags := WithinFlags(q, count, Tokens(budget));
    CountTrueIsSize(flags);
    assert ShortRows(q, count, budget) == (set i: nat | i < |flags| && flags[i]);
  }

  ghost function CutLengths(q: Question, count: Tokenizer, budget: int): seq<int> {
    seq(|q.rows|, i requires 0 <= i < |q.rows| =>
      var length := Length(q.rows[i], count);
      if length > budget then budget else length)
  }

  /** What it adds to the average length: the mean of its lengths, each over the budget counted as the budget. */
  lemma CappedIsMean(q: Question, judges: Judges, count: Tokenizer, budget: int)
    requires |q.rows| > 0
    ensures Value(AverageCapped, q, judges, count, Tokens(budget)) ==
              Total(CutLengths(q, count, budget)) as real / |q.rows| as real
  {
    assert Capped(q, count, Tokens(budget)) == CutLengths(q, count, budget);
  }

  // ---------------------------------------------------------------- all questions

  ghost function FirstShare(q: Question, k: int, judges: Judges, count: Tokenizer, limit: Limit): real {
    if exists i :: i in RightRows(q, judges, count, limit) && i < k then 1.0 else 0.0
  }

  ghost function ShortShare(q: Question, count: Tokenizer, budget: int): real {
    if |q.rows| == 0 then 0.0 else |ShortRows(q, count, budget)| as real / |q.rows| as real
  }

  ghost function CutMean(q: Question, count: Tokenizer, budget: int): real {
    if |q.rows| == 0 then 0.0 else Total(CutLengths(q, count, budget)) as real / |q.rows| as real
  }

  /** The mean of a number per question; 0 without questions. */
  ghost function MeanOf(qs: seq<Question>, f: Question -> real): real {
    Welford.Mean(seq(|qs|, i requires 0 <= i < |qs| => f(qs[i])))
  }

  lemma {:induction false} SumOf(m: Metric, qs: seq<Question>, judges: Judges, count: Tokenizer, limit: Limit,
                                 f: Question -> real)
    requires NonEmpty(qs) && forall i :: 0 <= i < |qs| ==> f(qs[i]) == Value(m, qs[i], judges, count, limit)
    ensures Sum(m, qs, judges, count, limit) == Welford.Sum(seq(|qs|, i requires 0 <= i < |qs| => f(qs[i])))
  {
    if |qs| > 0 {
      var n := |qs| - 1;
      SumOf(m, qs[..n], judges, count, limit, f);
      var values := seq(|qs|, i requires 0 <= i < |qs| => f(qs[i]));
      assert values[..n] == seq(n, i requires 0 <= i < n => f(qs[..n][i]));
    }
  }

  lemma AverageOf(m: Metric, qs: seq<Question>, judges: Judges, count: Tokenizer, limit: Limit, f: Question -> real)
    requires NonEmpty(qs) && forall i :: 0 <= i < |qs| ==> f(qs[i]) == Value(m, qs[i], judges, count, limit)
    ensures Average(m, qs, judges, count, limit) == MeanOf(qs, f)
  {
    SumOf(m, qs, judges, count, limit, f);
  }

  /** The average expected pass@k is the mean over the questions of the fraction of draws with a right row, the
      average first-k pass rate the mean number of questions with a right row among their first k. */
  lemma PassMeans(qs: seq<Question>, judges: Judges, count: Tokenizer, limit: Limit, k: int)
    requires NonEmpty(qs)
    ensures Average(PassExpected(k), qs, judges, count, limit) == MeanOf(qs, q => Share(q, k, judges, count, limit))
    ensures Average(PassFirst(k), qs, judges, count, limit) == MeanOf(qs, q => FirstShare(q, k, judges, count, limit))
  {
    forall i | 0 <= i < |qs|
      ensures Value(PassExpected(k), qs[i], judges, count, limit) == Share(qs[i], k, judges, count, limit)
      ensures Value(PassFirst(k), qs[i], judges, count, limit) == FirstShare(qs[i], k, judges, count, limit)
    {
      ExpectedIsShare(qs[i], k, judges, count, limit);
      FirstIsAmongK(qs[i], k, judges, count, limit);
    }
    AverageOf(PassExpected(k), qs, judges, count, limit, q => Share(q, k, judges, count, limit));
    AverageOf(PassFirst(k), qs, judges, count, limit, q => FirstShare(q, k, judges, count, limit));
  }

  lemma BudgetMeans(qs: seq<Question>, judges: Judges, count: Tokenizer, budget: int)
    requires NonEmpty(qs)
    ensures Average(WithinFraction, qs, judges, count, Tokens(budget)) == MeanOf(qs, q => ShortShare(q, count, budget))
    ensures Average(AverageCapped, qs, judges, count, Tokens(budget)) == MeanOf(qs, q => CutMean(q, count, budget))
  {
    forall i | 0 <= i < |qs|
      ensures Value(WithinFraction, qs[i], judges, count, Tokens(budget)) == ShortShare(qs[i], count, budget)
      ensures Value(AverageCapped, qs[i], judges, count, Tokens(budget)) == CutMean(qs[i], count, budget)
    {
      WithinIsFraction(qs[i], judges, count, budget);
      CappedIsMean(qs[i], judges, count, budget);
    }
    AverageOf(WithinFraction, qs, judges, count, Tokens(budget), q => ShortShare(q, count, budget));
    AverageOf(AverageCapped, qs, judges, count, Tokens(budget), q => CutMean(q, count, budget));
  }

  // ---------------------------------------------------------------- which rows a question has

  /** The rows of the file that count for an index. */
  ghost function RowsOfIndex(rows: seq<Row>, idx: int): seq<Row> {
    Filter(rows, (r: Row) => r.idx == Some(idx) && !r.failed && r.text != None)
  }

  function ChoiceNumber(r: Row): int {
    match r.choiceIdx
    case Some(c) => c
    case None => 0
  }

  /** q is the question of an index: its counted rows by increasing choice number, those of one number in the order
      of the file, with the gold answer of the first of them in the file. */
  ghost predicate AsksAbout(q: Question, rows: seq<Row>, idx: int) {
    var own := RowsOfIndex(rows, idx);
    && |own| > 0 && q.gold == own[0].answer && |q.rows| == |own|
    && (forall i, j :: 0 <= i < j < |q.rows| ==> ChoiceNumber(q.rows[i]) <= ChoiceNumber(q.rows[j]))
    && (forall c :: OfChoice(q.rows, c) == OfChoice(own, c))
  }

  ghost function OfChoice(rows: seq<Row>, c: int): seq<Row> {
    Filter(rows, (r: Row) => ChoiceNumber(r) == c)
  }

  lemma InChoiceOrder(s: seq<Row>)
    requires OrderedBy(s, ChoiceKey)
    ensures forall i, j :: 0 <= i < j < |s| ==> ChoiceNumber(s[i]) <= ChoiceNumber(s[j])
  {
    forall i, j | 0 <= i < j < |s|
      ensures ChoiceNumber(s[i]) <= ChoiceNumber(s[j])
    {
      assert ChoiceKey(s[i]) <= ChoiceKey(s[j]);
    }
  }

  lemma SortedChoices(own: seq<Row>, c: int)
    ensures OfChoice(Sorted(own, ChoiceKey), c) == OfChoice(own, c)
  {
    SortedStable(own, ChoiceKey, c);
    WithKeyKeeps(own, ChoiceKey, c, (r: Row) => ChoiceNumber(r) == c);
    WithKeyKeeps(Sorted(own, ChoiceKey), ChoiceKey, c, (r: Row) => ChoiceNumber(r) == c);
  }

  lemma QuestionAsks(rows: seq<Row>, idx: int)
    requires RowsFor(OkRows(rows), idx) != []
    ensures AsksAbout(QuestionOf(RowsFor(OkRows(rows), idx)), rows, idx)
  {
    var own := RowsFor(OkRows(rows), idx);
    CountedKept(rows, idx);
    QuestionSize(own);
    SortedCorrect(own, ChoiceKey);
    InChoiceOrder(Sorted(own, ChoiceKey));
    forall c
      ensures OfChoice(QuestionOf(own).rows, c) == OfChoice(own, c)
    {
      SortedChoices(own, c);
    }
  }

  /** One question for every index of the list. */
  ghost predicate AskedInOrder(qs: seq<Question>, rows: seq<Row>, order: seq<int>) {
    |qs| == |order| && forall i :: 0 <= i < |order| ==> AsksAbout(qs[i], rows, order[i])
  }

  lemma {:induction false} QuestionsAsk(rows: seq<Row>, order: seq<int>)
    requires forall i :: 0 <= i < |order| ==> RowsFor(OkRows(rows), order[i]) != []
    ensures AskedInOrder(QuestionsAt(OkRows(rows), order), rows, order)
  {
    if |order| > 0 {
      var n := |order| - 1;
      QuestionsAsk(rows, order[..n]);
      QuestionAsks(rows, order[n]);
    }
  }

  /** The questions of a file: one for every index with a counted row, by increasing index. */
  lemma QuestionsOfFile(rows: seq<Row>) returns (order: seq<int>)
    ensures Increasing(order) && AskedInOrder(QuestionsIn(rows), rows, order)
    ensures forall idx :: idx in order <==> RowsOfIndex(rows, idx) != []
  {
    order := Order(Indices(OkRows(rows)));
    forall idx
      ensures idx in Indices(OkRows(rows)) <==> RowsOfIndex(rows, idx) != []
      ensures idx in Indices(OkRows(rows)) <==> RowsFor(OkRows(rows), idx) != []
    {
      IndicesHaveRows(OkRows(rows), idx);
      CountedKept(rows, idx);
    }
    assert forall i :: 0 <= i < |order| ==> order[i] in order;
    QuestionsAsk(rows, order);
  }
}
