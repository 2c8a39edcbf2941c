/** pass@k without a token budget (sample_eval.py) and under one (budget_eval.py). */
module Budget {
  import opened Basics
  import opened Sorting
  import opened PassAtK
  import opened Responses

  // ---------------------------------------------------------------- questions

  datatype Question = Question(gold: string, rows: seq<Row>)

  function QuestionOf(rows: seq<Row>): Question
    requires |rows| > 0
  {
    Question(rows[0].answer, Sorted(rows, ChoiceKey))
  }

  /** The non-empty groups in the order given. */
  function Questions(groups: Groups, order: seq<int>): seq<Question>
    requires forall i :: 0 <= i < |order| ==> order[i] in groups
  {
    if |order| == 0 then []
    else
      var rows := groups[order[|order| - 1]];
      Questions(groups, order[..|order| - 1]) + if rows == [] then [] else [QuestionOf(rows)]
  }

  // The questions of a file, whichever way it was grouped.

  function QuestionsAt(ok: seq<Row>, order: seq<int>): seq<Question> {
    if |order| == 0 then []
    else
      var rows := RowsFor(ok, order[|order| - 1]);
      QuestionsAt(ok, order[..|order| - 1]) + if rows == [] then [] else [QuestionOf(rows)]
  }

  /** The questions with usable rows, in increasing order of index. */
  ghost function QuestionsIn(rows: seq<Row>): seq<Question> {
    QuestionsAt(OkRows(rows), Order(Indices(OkRows(rows))))
  }

  lemma {:induction false} SameGroups(groups: Groups, ok: seq<Row>, order: seq<int>)
    requires forall i :: 0 <= i < |order| ==> order[i] in groups && groups[order[i]] == RowsFor(ok, order[i])
    ensures Questions(groups, order) == QuestionsAt(ok, order)
  {
    if |order| > 0 {
      SameGroups(groups, ok, order[..|order| - 1]);
    }
  }

  function WithRows(ok: seq<Row>, order: seq<int>): seq<int> {
    if |order| == 0 then []
    else
      var idx := order[|order| - 1];
      WithRows(ok, order[..|order| - 1]) + if RowsFor(ok, idx) == [] then [] else [idx]
  }

  lemma {:induction false} SkipEmpty(ok: seq<Row>, order: seq<int>)
    ensures QuestionsAt(ok, order) == QuestionsAt(ok, WithRows(ok, order))
  {
    if |order| > 0 {
      var idx, front := order[|order| - 1], WithRows(ok, order[..|order| - 1]);
      SkipEmpty(ok, order[..|order| - 1]);
      if RowsFor(ok, idx) == [] {
        assert front + [] == front;
      } else {
        assert (front + [idx])[..|front|] == front;
      }
    }
  }

  lemma {:induction false} WithRowsIncreasing(ok: seq<Row>, order: seq<int>)
    requires Increasing(order)
    ensures Increasing(WithRows(ok, order))
    ensures forall x :: x in WithRows(ok, order) <==> x in order && RowsFor(ok, x) != []
  {
    if |order| > 0 {
      var front, idx := order[..|order| - 1], order[|order| - 1];
      WithRowsIncreasing(ok, front);
      var kept := WithRows(ok, front);
      forall i | 0 <= i < |kept|
        ensures kept[i] < idx
      {
        assert kept[i] in kept;
      }
      assert order == front + [idx];
    }
  }

  /** Any increasing list that has every index with usable rows gives the same questions. */
  lemma OneListOfQuestions(rows: seq<Row>, order: seq<int>, members: set<int>)
    requires Enumerates(order, members) && Indices(OkRows(rows)) <= members
    ensures QuestionsAt(OkRows(rows), order) == QuestionsIn(rows)
  {
    var ok := OkRows(rows);
    SkipEmpty(ok, order);
    WithRowsIncreasing(ok, order);
    forall x
      ensures x in WithRows(ok, order) <==> x in Indices(ok)
    {
      IndicesHaveRows(ok, x);
    }
    OneEnumeration(WithRows(ok, order), Order(Indices(ok)), Indices(ok));
  }

  lemma QuestionSize(rows: seq<Row>)
    requires |rows| > 0
    ensures |QuestionOf(rows).rows| == |rows|
    ensures forall r :: r in QuestionOf(rows).rows ==> r in rows
  {
    var sorted := Sorted(rows, ChoiceKey);
    SortedCorrect(rows, ChoiceKey);
    assert |multiset(sorted)| == |multiset(rows)|;
    forall r | r in sorted
      ensures r in rows
    {
      assert r in multiset(sorted);
    }
  }

  lemma {:induction false} QuestionListed(ok: seq<Row>, order: seq<int>, idx: int)
    requires idx in order && RowsFor(ok, idx) != []
    ensures exists i :: 0 <= i < |QuestionsAt(ok, order)| && QuestionsAt(ok, order)[i] == QuestionOf(RowsFor(ok, idx))
  {
    var n := |order| - 1;
    var front, all := QuestionsAt(ok, order[..n]), QuestionsAt(ok, order);
    if order[n] == idx {
      assert all[|front|] == QuestionOf(RowsFor(ok, idx));
    } else {
      QuestionListed(ok, order[..n], idx);
      var i :| 0 <= i < |front| && front[i] == QuestionOf(RowsFor(ok, idx));
      assert all[i] == front[i];
    }
  }

  lemma {:induction false} RowsForFrom(rows: seq<Row>, idx: int)
    ensures forall r :: r in RowsFor(rows, idx) ==> r in rows
  {
    if |rows| > 0 {
      RowsForFrom(rows[..|rows| - 1], idx);
    }
  }

  lemma {:induction false} OkRowsFrom(rows: seq<Row>, r: Row)
    requires r in OkRows(rows)
    ensures r in rows
  {
    var n := |rows| - 1;
    if r != rows[n] {
      OkRowsFrom(rows[..n], r);
    }
  }

  /** Rows without question types give questions for the rule-based judge. */
  lemma {:induction false} UntypedQuestions(ok: seq<Row>, order: seq<int>)
    requires forall r :: r in ok ==> !r.questionType
    ensures RuleJudged(QuestionsAt(ok, order))
  {
    if |order| > 0 {
      var n := |order| - 1;
      UntypedQuestions(ok, order[..n]);
      var rows := RowsFor(ok, order[n]);
      if rows != [] {
        RowsForFrom(ok, order[n]);
        QuestionSize(rows);
        assert QuestionOf(rows).rows[0] in QuestionOf(rows).rows;
      }
    }
  }

  // ---------------------------------------------------------------- scores

  datatype Limit = Unlimited | Tokens(budget: int)

  function Text(r: Row): string {
    if r.text.Some? then r.text.value else ""
  }

  predicate WithinBudget(r: Row, count: Tokenizer, limit: Limit) {
    limit.Unlimited? || TokensOf(r, count) <= limit.budget
  }

  /** Only the unlimited evaluator looks at the question type, and it looks at the first row's. */
  predicate Right(r: Row, q: Question, judges: Judges, count: Tokenizer, limit: Limit)
    requires |q.rows| > 0
  {
    if limit.Unlimited? && q.rows[0].questionType then judges.vista(Text(r), q.rows[0])
    else WithinBudget(r, count, limit) && judges.rule(Text(r), q.gold)
  }

  function WithinFlags(q: Question, count: Tokenizer, limit: Limit): seq<bool> {
    seq(|q.rows|, i requires 0 <= i < |q.rows| => WithinBudget(q.rows[i], count, limit))
  }

  function CorrectFlags(q: Question, judges: Judges, count: Tokenizer, limit: Limit): seq<bool> {
    seq(|q.rows|, i requires 0 <= i < |q.rows| => Right(q.rows[i], q, judges, count, limit))
  }

  function CappedTokens(r: Row, count: Tokenizer, limit: Limit): int {
    if limit.Unlimited? then TokensOf(r, count) else Min(TokensOf(r, count), limit.budget)
  }

  function Capped(q: Question, count: Tokenizer, limit: Limit): seq<int> {
    seq(|q.rows|, i requires 0 <= i < |q.rows| => CappedTokens(q.rows[i], count, limit))
  }

  function CountTrue(flags: seq<bool>): (c: nat)
    ensures c <= |flags|
  {
    if |flags| == 0 then 0 else CountTrue(flags[..|flags| - 1]) + if flags[|flags| - 1] then 1 else 0
  }

  predicate AnyTrue(flags: seq<bool>) {
    exists i :: 0 <= i < |flags| && flags[i]
  }

  function FirstK(flags: seq<bool>, k: int): real {
    if AnyTrue(flags[..Max(0, Min(k, |flags|))]) then 1.0 else 0.0
  }

  datatype Metric = PassExpected(k: int) | PassFirst(k: int) | WithinFraction | AverageCapped

  /** What one question contributes to a metric. */
  function Value(m: Metric, q: Question, judges: Judges, count: Tokenizer, limit: Limit): real
    requires |q.rows| > 0
  {
    var n := |q.rows|;
    match m
    case PassExpected(k) => PassAtK.PassAtK(n, CountTrue(CorrectFlags(q, judges, count, limit)), Min(k, n))
    case PassFirst(k) => FirstK(CorrectFlags(q, judges, count, limit), k)
    case WithinFraction => CountTrue(WithinFlags(q, count, limit)) as real / n as real
    case AverageCapped => Total(Capped(q, count, limit)) as real / n as real
  }

  ghost predicate NonEmpty(qs: seq<Question>) {
    forall i :: 0 <= i < |qs| ==> |qs[i].rows| > 0
  }

  function Sum(m: Metric, qs: seq<Question>, judges: Judges, count: Tokenizer, limit: Limit): real
    requires NonEmpty(qs)
  {
    if |qs| == 0 then 0.0
    else Sum(m, qs[..|qs| - 1], judges, count, limit) + Value(m, qs[|qs| - 1], judges, count, limit)
  }

  function Average(m: Metric, qs: seq<Question>, judges: Judges, count: Tokenizer, limit: Limit): real
    requires NonEmpty(qs)
  {
    if |qs| == 0 then 0.0 else Sum(m, qs, judges, count, limit) / |qs| as real
  }

  // ---------------------------------------------------------------- raising the budget

  lemma {:induction false} MoreFlags(a: seq<bool>, b: seq<bool>)
    requires |a| == |b| && forall i :: 0 <= i < |a| && a[i] ==> b[i]
    ensures CountTrue(a) <= CountTrue(b)
  {
    if |a| > 0 {
      MoreFlags(a[..|a| - 1], b[..|b| - 1]);
    }
  }

  lemma {:induction false} LargerTerms(a: seq<int>, b: seq<int>)
    requires |a| == |b| && forall i :: 0 <= i < |a| ==> a[i] <= b[i]
    ensures Total(a) <= Total(b)
  {
    if |a| > 0 {
      LargerTerms(a[..|a| - 1], b[..|b| - 1]);
    }
  }

  lemma DivideLarger(x: int, y: int, n: nat)
    requires x <= y && n > 0
    ensures x as real / n as real <= y as real / n as real
  {
    DivideReal(x as real, y as real, n as real);
  }

  lemma FirstImproves(a: seq<bool>, b: seq<bool>, k: int)
    requires |a| == |b| && forall i :: 0 <= i < |a| && a[i] ==> b[i]
    ensures FirstK(a, k) <= FirstK(b, k)
  {
    var n := Max(0, Min(k, |a|));
    if i :| 0 <= i < n && a[..n][i] {
      assert b[..n][i];
    }
  }

  lemma QuestionImproves(m: Metric, q: Question, judges: Judges, count: Tokenizer, low: int, high: int)
    requires low <= high && |q.rows| > 0
    ensures Value(m, q, judges, count, Tokens(low)) <= Value(m, q, judges, count, Tokens(high))
  {
    var a, b := CorrectFlags(q, judges, count, Tokens(low)), CorrectFlags(q, judges, count, Tokens(high));
    match m
    case PassExpected(k) =>
      MoreFlags(a, b);
      MonotoneInCorrect(|q.rows|, CountTrue(a), CountTrue(b), Min(k, |q.rows|));
    case PassFirst(k) => FirstImproves(a, b, k);
    case WithinFraction =>
      MoreFlags(WithinFlags(q, count, Tokens(low)), WithinFlags(q, count, Tokens(high)));
      DivideLarger(CountTrue(WithinFlags(q, count, Tokens(low))), CountTrue(WithinFlags(q, count, Tokens(high))),
        |q.rows|);
    case AverageCapped =>
      LargerTerms(Capped(q, count, Tokens(low)), Capped(q, count, Tokens(high)));
      DivideLarger(Total(Capped(q, count, Tokens(low))), Total(Capped(q, count, Tokens(high))), |q.rows|);
  }

  lemma {:induction false} SumImproves(m: Metric, qs: seq<Question>, judges: Judges, count: Tokenizer, low: int,
                                       high: int)
    requires low <= high && NonEmpty(qs)
    ensures Sum(m, qs, judges, count, Tokens(low)) <= Sum(m, qs, judges, count, Tokens(high))
  {
    if |qs| > 0 {
      SumImproves(m, qs[..|qs| - 1], judges, count, low, high);
      QuestionImproves(m, qs[|qs| - 1], judges, count, low, high);
    }
  }

  /** A larger budget lowers no average. */
  lemma BudgetMonotone(m: Metric, qs: seq<Question>, judges: Judges, count: Tokenizer, low: int, high: int)
    requires low <= high && NonEmpty(qs)
    ensures Average(m, qs, judges, count, Tokens(low)) <= Average(m, qs, judges, count, Tokens(high))
  {
    SumImproves(m, qs, judges, count, low, high);
    if |qs| > 0 {
      DivideReal(Sum(m, qs, judges, count, Tokens(low)), Sum(m, qs, judges, count, Tokens(high)), |qs| as real);
    }
  }

  lemma DivideReal(x: real, y: real, n: real)
    requires x <= y && n > 0.0
    ensures x / n <= y / n
  {
    var d := y / n - x / n;
    assert d * n == y - x;
    if d < 0.0 {
      NegativeProduct(d, n);
    }
  }

  lemma NegativeProduct(d: real, n: real)
    requires d < 0.0 && n > 0.0
    ensures d * n < 0.0
  {
  }

  // ---------------------------------------------------------------- more draws

  lemma {:induction false} SomeTrue(flags: seq<bool>)
    ensures CountTrue(flags) > 0 <==> AnyTrue(flags)
  {
    if |flags| > 0 {
      SomeTrue(flags[..|flags| - 1]);
    }
  }

  /** Once k covers all rows of a question, the estimate and the first-k test agree: is any of them correct? */
  lemma AllDrawn(q: Question, judges: Judges, count: Tokenizer, limit: Limit, k: int)
    requires 0 < |q.rows| <= k
    ensures var correct := CorrectFlags(q, judges, count, limit);
            && Value(PassExpected(k), q, judges, count, limit) == Value(PassFirst(k), q, judges, count, limit)
            && Value(PassFirst(k), q, judges, count, limit) == if AnyTrue(correct) then 1.0 else 0.0
  {
    var correct := CorrectFlags(q, judges, count, limit);
    SomeTrue(correct);
    assert correct[..|correct|] == correct;
  }

  lemma FirstMonotone(flags: seq<bool>, k: int, l: int)
    requires k <= l
    ensures FirstK(flags, k) <= FirstK(flags, l)
  {
    var n := Max(0, Min(k, |flags|));
    if i :| 0 <= i < n && flags[..n][i] {
      assert flags[..Max(0, Min(l, |flags|))][i];
    }
  }

  lemma {:induction false} SumDraws(qs: seq<Question>, judges: Judges, count: Tokenizer, limit: Limit, k: int, l: int)
    requires NonEmpty(qs) && k <= l
    ensures Sum(PassExpected(k), qs, judges, count, limit) <= Sum(PassExpected(l), qs, judges, count, limit)
    ensures Sum(PassFirst(k), qs, judges, count, limit) <= Sum(PassFirst(l), qs, judges, count, limit)
  {
    if |qs| > 0 {
      SumDraws(qs[..|qs| - 1], judges, count, limit, k, l);
      var q := qs[|qs| - 1];
      var correct := CorrectFlags(q, judges, count, limit);
      FirstMonotone(correct, k, l);
      MonotoneInDraws(|q.rows|, CountTrue(correct), Min(k, |q.rows|), Min(l, |q.rows|));
    }
  }

  /** Both kinds of pass@k never fall when k grows. */
  lemma DrawsMonotone(qs: seq<Question>, judges: Judges, count: Tokenizer, limit: Limit, k: int, l: int)
    requires NonEmpty(qs) && k <= l
    ensures Average(PassExpected(k), qs, judges, count, limit) <= Average(PassExpected(l), qs, judges, count, limit)
    ensures Average(PassFirst(k), qs, judges, count, limit) <= Average(PassFirst(l), qs, judges, count, limit)
  {
    SumDraws(qs, judges, count, limit, k, l);
    if |qs| > 0 {
      DivideReal(Sum(PassExpected(k), qs, judges, count, limit), Sum(PassExpected(l), qs, judges, count, limit),
        |qs| as real);
      DivideReal(Sum(PassFirst(k), qs, judges, count, limit), Sum(PassFirst(l), qs, judges, count, limit),
        |qs| as real);
    }
  }

  // ---------------------------------------------------------------- a budget that covers every response

  predicate CoversQuestion(q: Question, count: Tokenizer, budget: int) {
    forall i :: 0 <= i < |q.rows| ==> TokensOf(q.rows[i], count) <= budget
  }

  ghost predicate Covers(qs: seq<Question>, count: Tokenizer, budget: int) {
    forall i :: 0 <= i < |qs| ==> CoversQuestion(qs[i], count, budget)
  }

  /** No first row has a question type: both evaluators use the same judge. */
  ghost predicate RuleJudged(qs: seq<Question>) {
    forall i :: 0 <= i < |qs| ==> |qs[i].rows| > 0 && !qs[i].rows[0].questionType
  }

  lemma CoveredQuestion(m: Metric, q: Question, judges: Judges, count: Tokenizer, budget: int)
    requires |q.rows| > 0 && CoversQuestion(q, count, budget) && !q.rows[0].questionType
    ensures Value(m, q, judges, count, Tokens(budget)) == Value(m, q, judges, count, Unlimited)
  {
    assert CorrectFlags(q, judges, count, Tokens(budget)) == CorrectFlags(q, judges, count, Unlimited);
    assert WithinFlags(q, count, Tokens(budget)) == WithinFlags(q, count, Unlimited);
    assert Capped(q, count, Tokens(budget)) == Capped(q, count, Unlimited);
  }

  lemma {:induction false} CoveredSum(m: Metric, qs: seq<Question>, judges: Judges, count: Tokenizer, budget: int)
    requires NonEmpty(qs) && Covers(qs, count, budget) && RuleJudged(qs)
    ensures Sum(m, qs, judges, count, Tokens(budget)) == Sum(m, qs, judges, count, Unlimited)
  {
    if |qs| > 0 {
      CoveredSum(m, qs[..|qs| - 1], judges, count, budget);
      CoveredQuestion(m, qs[|qs| - 1], judges, count, budget);
    }
  }

  /** Once the budget covers the longest response, every average is the unlimited one. */
  lemma BudgetCovered(m: Metric, qs: seq<Question>, judges: Judges, count: Tokenizer, budget: int)
    requires NonEmpty(qs) && Covers(qs, count, budget) && RuleJudged(qs)
    ensures Average(m, qs, judges, count, Tokens(budget)) == Average(m, qs, judges, count, Unlimited)
  {
    CoveredSum(m, qs, judges, count, budget);
  }

  /** The rule-based judge refuses everything, the other one accepts everything. */
  function Opposed(): Judges {
    Judges((text, gold) => false, (text, row) => true)
  }

  lemma OpposedQuestion(q: Question, count: Tokenizer, budget: int)
    requires |q.rows| > 0
    ensures Value(PassFirst(1), q, Opposed(), count, Tokens(budget)) == 0.0
    ensures Value(PassFirst(1), q, Opposed(), count, Unlimited) == if q.rows[0].questionType then 1.0 else 0.0
  {
    var flags, free := CorrectFlags(q, Opposed(), count, Tokens(budget)), CorrectFlags(q, Opposed(), count, Unlimited);
    assert !AnyTrue(flags[..1]);
    assert free[..1][0] == q.rows[0].questionType;
  }

  lemma {:induction false} OpposedSums(qs: seq<Question>, count: Tokenizer, budget: int)
    requires NonEmpty(qs)
    ensures Sum(PassFirst(1), qs, Opposed(), count, Tokens(budget)) == 0.0
    ensures Sum(PassFirst(1), qs, Opposed(), count, Unlimited) >= 0.0
    ensures !RuleJudged(qs) ==> Sum(PassFirst(1), qs, Opposed(), count, Unlimited) >= 1.0
  {
    if |qs| > 0 {
      OpposedSums(qs[..|qs| - 1], count, budget);
      OpposedQuestion(qs[|qs| - 1], count, budget);
    }
  }

  /** The condition on question types is needed: without it there are judges for which no budget gives the
      unlimited pass@1. */
  lemma QuestionTypesMatter(qs: seq<Question>, count: Tokenizer, budget: int)
    requires NonEmpty(qs) && !RuleJudged(qs)
    ensures Average(PassFirst(1), qs, Opposed(), count, Tokens(budget))
          < Average(PassFirst(1), qs, Opposed(), count, Unlimited)
  {
    OpposedSums(qs, count, budget);
    PositiveQuotient(Sum(PassFirst(1), qs, Opposed(), count, Unlimited), |qs| as real);
  }

  lemma PositiveQuotient(x: real, n: real)
    requires x > 0.0 && n > 0.0
    ensures x / n > 0.0 && 0.0 / n == 0.0
  {
    var q := x / n;
    assert q * n == x;
    if q < 0.0 {
      NegativeProduct(q, n);
    }
  }

  lemma {:induction false} AllTrue(flags: seq<bool>)
    ensures CountTrue(flags) == |flags| <==> forall i :: 0 <= i < |flags| ==> flags[i]
  {
    if |flags| > 0 {
      AllTrue(flags[..|flags| - 1]);
    }
  }

  lemma {:induction false} WholeFractions(qs: seq<Question>, judges: Judges, count: Tokenizer, budget: int)
    requires NonEmpty(qs)
    ensures Sum(WithinFraction, qs, judges, count, Tokens(budget)) <= |qs| as real
    ensures Sum(WithinFraction, qs, judges, count, Tokens(budget)) == |qs| as real <==> Covers(qs, count, budget)
  {
    if |qs| > 0 {
      var n := |qs| - 1;
      WholeFractions(qs[..n], judges, count, budget);
      WholeFraction(qs[n], judges, count, budget);
    }
  }

  lemma WholeFraction(q: Question, judges: Judges, count: Tokenizer, budget: int)
    requires |q.rows| > 0
    ensures Value(WithinFraction, q, judges, count, Tokens(budget)) <= 1.0
    ensures Value(WithinFraction, q, judges, count, Tokens(budget)) == 1.0 <==> CoversQuestion(q, count, budget)
  {
    var flags := WithinFlags(q, count, Tokens(budget));
    AllTrue(flags);
    Fraction(CountTrue(flags), |flags|);
    assert forall i :: 0 <= i < |flags| ==> flags[i] == (TokensOf(q.rows[i], count) <= budget);
  }

  lemma Fraction(c: nat, n: nat)
    requires c <= n && n > 0
    ensures c as real / n as real <= 1.0
    ensures c as real / n as real == 1.0 <==> c == n
  {
    RealFraction(c as real, n as real, c as real / n as real);
    DivideReal(c as real, n as real, n as real);
    RealFraction(n as real, n as real, n as real / n as real);
  }

  /** The within-budget fraction is 1 exactly when the budget covers every response. */
  lemma CoveredExactly(qs: seq<Question>, judges: Judges, count: Tokenizer, budget: int)
    requires NonEmpty(qs) && |qs| > 0
    ensures Average(WithinFraction, qs, judges, count, Tokens(budget)) == 1.0 <==> Covers(qs, count, budget)
  {
    WholeFractions(qs, judges, count, budget);
    var sum, n := Sum(WithinFraction, qs, judges, count, Tokens(budget)), |qs| as real;
    RealFraction(sum, n, Average(WithinFraction, qs, judges, count, Tokens(budget)));
  }

  lemma RealFraction(x: real, n: real, q: real)
    requires n > 0.0 && q == x / n
    ensures q == 1.0 <==> x == n
  {
    assert x == q * n;
  }

  // ---------------------------------------------------------------- the lists of k

  function Positive(passKs: seq<int>): set<int> {
    set k | k in passKs && k > 0
  }

  /** sorted({int(k) for k in pass_ks if int(k) > 0}) */
  method NormaliseKs(passKs: seq<int>) returns (ks: seq<int>)
    ensures Enumerates(ks, Positive(passKs))
  {
    ks := SortSet(Positive(passKs));
  }

  predicate IsPowerOfTwo(k: int) {
    k == 1 || (k > 1 && k % 2 == 0 && IsPowerOfTwo(k / 2))
  }

  /** 1, 2, 4, ... up to n; just 1 when n is not positive. */
  ghost predicate PowersUpTo(ks: seq<int>, n: int) {
    Increasing(ks) && forall k :: k in ks <==> IsPowerOfTwo(k) && (k <= n || k == 1)
  }

  lemma {:induction false} NextPower(k: int, p: int)
    requires IsPowerOfTwo(p) && IsPowerOfTwo(k) && p < k
    ensures 2 * p <= k && IsPowerOfTwo(2 * p)
    decreases p
  {
    assert (2 * p) / 2 == p;
    if p > 1 {
      var k', p' := k / 2, p / 2;
      assert k == 2 * k' && p == 2 * p';
      NextPower(k', p');
    }
  }

  lemma {:induction false} PowersPositive(k: int)
    requires IsPowerOfTwo(k)
    ensures k >= 1
  {
  }

  ghost predicate PowersBelow(ks: seq<int>, k: int) {
    && k >= 1 && IsPowerOfTwo(k) && Increasing(ks)
    && forall p :: p in ks <==> IsPowerOfTwo(p) && p < k
  }

  method Powers(n: int) returns (ks: seq<int>)
    ensures PowersUpTo(ks, n)
  {
    if n <= 0 {
      NoPowerBelowOne(n);
      return [1];
    }
    ks := [];
    var k := 1;
    NoPowerBelowOne(0);
    while k <= n
      invariant PowersBelow(ks, k) && forall p :: p in ks ==> p <= n
      decreases n - k
    {
      PowersStep(ks, k);
      ks := ks + [k];
      k := k * 2;
    }
  }

  lemma NoPowerBelowOne(n: int)
    requires n <= 0
    ensures PowersBelow([], 1)
    ensures forall p :: IsPowerOfTwo(p) ==> p > n
  {
    forall p | IsPowerOfTwo(p)
      ensures p >= 1
    {
      PowersPositive(p);
    }
  }

  lemma PowersStep(ks: seq<int>, k: int)
    requires PowersBelow(ks, k)
    ensures PowersBelow(ks + [k], k * 2)
  {
    assert (k * 2) / 2 == k;
    forall i | 0 <= i < |ks|
      ensures ks[i] < k
    {
      assert ks[i] in ks;
    }
    forall p | IsPowerOfTwo(p) && k < p
      ensures p >= k * 2
    {
      NextPower(p, k);
    }
  }

  lemma IncreasingAt(s: seq<int>, i: nat, j: nat)
    requires Increasing(s) && i < |s| && j < |s|
    ensures s[i] < s[j] <==> i < j
  {
  }

  lemma PowersInList(ks: seq<int>, n: int)
    requires PowersUpTo(ks, n)
    ensures |ks| > 0 && ks[0] == 1
    ensures forall i :: 0 <= i < |ks| ==> ks[i] >= 1 && IsPowerOfTwo(ks[i]) && IsPowerOfTwo(2 * ks[i])
  {
    assert 1 in ks by {
      assert IsPowerOfTwo(1);
    }
    forall i | 0 <= i < |ks|
      ensures ks[i] >= 1 && IsPowerOfTwo(ks[i]) && IsPowerOfTwo(2 * ks[i])
    {
      assert ks[i] in ks;
      PowersPositive(ks[i]);
      assert (2 * ks[i]) / 2 == ks[i];
    }
    var j :| 0 <= j < |ks| && ks[j] == 1;
    IncreasingAt(ks, j, 0);
  }

  /** The list starts with 1, doubles at every step, and stops at the last value that n allows. */
  lemma DoublingList(ks: seq<int>, n: int)
    requires PowersUpTo(ks, n)
    ensures |ks| > 0 && ks[0] == 1
    ensures forall i :: 0 <= i < |ks| - 1 ==> ks[i + 1] == 2 * ks[i]
    ensures if n < 1 then |ks| == 1 else ks[|ks| - 1] <= n < 2 * ks[|ks| - 1]
  {
    PowersInList(ks, n);
    forall i | 0 <= i < |ks| - 1
      ensures ks[i + 1] == 2 * ks[i]
    {
      NextInList(ks, n, i);
    }
    var last := ks[|ks| - 1];
    assert last in ks;
    assert 2 * last !in ks;
    assert n < 1 ==> last == 1;
  }

  lemma NextInList(ks: seq<int>, n: int, i: nat)
    requires PowersUpTo(ks, n) && i + 1 < |ks|
    ensures ks[i + 1] == 2 * ks[i]
  {
    PowersInList(ks, n);
    NextPower(ks[i + 1], ks[i]);
    assert ks[i + 1] in ks;
    assert 2 * ks[i] in ks;
    var j :| 0 <= j < |ks| && ks[j] == 2 * ks[i];
    IncreasingAt(ks, i, j);
    IncreasingAt(ks, j, i + 1);
  }
}
