/** Online mean and variance (class RunningStats in analyze_length_token.py and
    eval_first_token_prediction.py) against the two-pass definitions, over exact reals. */
module Welford {
  import opened Basics
  import opened Sorting

  function Sum(xs: seq<real>): real {
    if |xs| == 0 then 0.0 else Sum(xs[..|xs| - 1]) + xs[|xs| - 1]
  }

  function Square(x: real): real {
    x * x
  }

  /** The sum of squared deviations from m. */
  function Deviation(xs: seq<real>, m: real): real {
    if |xs| == 0 then 0.0 else Deviation(xs[..|xs| - 1], m) + Square(xs[|xs| - 1] - m)
  }

  /** The sum of the squares of what is left after subtracting m. */
  lemma {:induction false} DeviationIsSum(xs: seq<real>, m: real, squares: seq<real>)
    requires |squares| == |xs| && forall i :: 0 <= i < |xs| ==> squares[i] == (xs[i] - m) * (xs[i] - m)
    ensures Deviation(xs, m) == Sum(squares)
  {
    if |xs| > 0 {
      DeviationIsSum(xs[..|xs| - 1], m, squares[..|xs| - 1]);
    }
  }

  function Mean(xs: seq<real>): real {
    if |xs| == 0 then 0.0 else Sum(xs) / |xs| as real
  }

  /** statistics.pvariance, with the guard of gt_var: zero for at most one value. */
  function Variance(xs: seq<real>): real {
    if |xs| <= 1 then 0.0 else Deviation(xs, Mean(xs)) / |xs| as real
  }

  /** The population variance is the mean squared deviation from the mean, and 0 for at most one value. */
  lemma VarianceLaw(xs: seq<real>)
    ensures |xs| > 0 ==> Variance(xs) * |xs| as real == Deviation(xs, Mean(xs))
    ensures |xs| <= 1 ==> Variance(xs) == 0.0
  {
    if |xs| == 1 {
      assert Sum(xs) == Sum([]) + xs[0];
      assert Deviation(xs, xs[0]) == Deviation([], xs[0]) + Square(0.0);
    } else if |xs| > 1 {
      QuotientTimes(Deviation(xs, Mean(xs)), |xs| as real);
    }
  }

  lemma QuotientTimes(a: real, b: real)
    requires b != 0.0
    ensures a / b * b == a
  {
  }

  function Shift(d: real, s: real, n: real, c: real, m: real): real {
    d + 2.0 * (c - m) * (s - n * c) + n * Square(c - m)
  }

  /** Moving the reference point from c to m: D(m) == D(c) + 2(c-m)(S - nc) + n(c-m)^2. */
  lemma {:induction false} Recentre(xs: seq<real>, c: real, m: real)
    ensures Deviation(xs, m) == Shift(Deviation(xs, c), Sum(xs), |xs| as real, c, m)
  {
    if |xs| > 0 {
      var front, x := xs[..|xs| - 1], xs[|xs| - 1];
      Recentre(front, c, m);
      ShiftStep(Deviation(front, c), Sum(front), |front| as real, x, c, m);
    }
  }

  lemma ShiftStep(d: real, s: real, n: real, x: real, c: real, m: real)
    ensures Shift(d, s, n, c, m) + Square(x - m) == Shift(d + Square(x - c), s + x, n + 1.0, c, m)
  {
    var e, f := c - m, x - c;
    assert Square(x - m) == f * f + 2.0 * e * f + e * e by {
      assert x - m == f + e;
    }
    assert 2.0 * e * (s + x - (n + 1.0) * c) == 2.0 * e * (s - n * c) + 2.0 * e * f by {
      assert s + x - (n + 1.0) * c == s - n * c + f;
    }
    assert (n + 1.0) * Square(e) == n * Square(e) + e * e;
  }

  /** Parallel axis: the deviation from m is the spread around the mean c plus n times the squared offset. */
  lemma ParallelAxis(xs: seq<real>, n: real, c: real, m: real)
    requires n == |xs| as real && IsMean(c, n, Sum(xs))
    ensures Deviation(xs, m) == Deviation(xs, c) + n * Square(c - m)
  {
    Recentre(xs, c, m);
    ShiftFromMean(Deviation(xs, c), Sum(xs), n, c, m);
  }

  lemma ShiftFromMean(d: real, s: real, n: real, c: real, m: real)
    requires c * n == s
    ensures Shift(d, s, n, c, m) == d + n * Square(c - m)
  {
    assert s - n * c == 0.0;
    assert 2.0 * (c - m) * (s - n * c) == 0.0;
  }

  ghost predicate IsMean(m: real, k: real, sum: real) {
    m * k == sum
  }

  /** mean' is the mean after x, given that mean was the mean of k values. */
  ghost predicate MeanMoves(mean': real, k: real, mean: real, x: real) {
    mean' * (k + 1.0) == mean * k + x
  }

  lemma MeanUpdate(mean: real, x: real, k: real, n: real)
    requires n == k + 1.0 > 0.0
    ensures MeanMoves(mean + (x - mean) / n, k, mean, x)
  {
    var q := (x - mean) / n;
    assert q * (k + 1.0) == x - mean;
  }

  function NextM2(m2: real, x: real, mean: real, mean': real): real {
    m2 + (x - mean) * (x - mean')
  }

  lemma NextM2Splits(m2: real, x: real, mean: real, mean': real, k: real)
    requires MeanMoves(mean', k, mean, x)
    ensures NextM2(m2, x, mean, mean') == m2 + k * Square(mean - mean') + Square(x - mean')
  {
    var q := mean' - mean;
    assert x - mean' == q * k && x - mean == q * k + q by {
      assert mean' * (k + 1.0) == mean' * k + mean';
    }
    var r := q * k;
    assert Square(mean - mean') == q * q;
    assert k * (q * q) == r * q;
    assert (r + q) * r == r * r + r * q;
  }

  lemma Snoc(xs: seq<real>, x: real, m: real)
    ensures Sum(xs + [x]) == Sum(xs) + x
    ensures Deviation(xs + [x], m) == Deviation(xs, m) + Square(x - m)
  {
    assert (xs + [x])[..|xs|] == xs;
  }

  /** One Welford update turns the exact mean and spread of xs into those of xs + [x]. */
  lemma {:induction false} WelfordStep(xs: seq<real>, x: real, k: real, mean: real, mean': real)
    requires k == |xs| as real && IsMean(mean, k, Sum(xs)) && MeanMoves(mean', k, mean, x)
    ensures IsMean(mean', k + 1.0, Sum(xs + [x]))
    ensures NextM2(Deviation(xs, mean), x, mean, mean') == Deviation(xs + [x], mean')
  {
    Snoc(xs, x, mean');
    ParallelAxis(xs, k, mean, mean');
    NextM2Splits(Deviation(xs, mean), x, mean, mean', k);
  }

  lemma UniqueMean(xs: seq<real>, m: real)
    requires |xs| > 0 && IsMean(m, |xs| as real, Sum(xs))
    ensures m == Mean(xs)
  {
  }

  lemma {:induction false} DeviationNonNegative(xs: seq<real>, m: real)
    ensures Deviation(xs, m) >= 0.0
  {
    if |xs| > 0 {
      DeviationNonNegative(xs[..|xs| - 1], m);
      SquareNonNegative(xs[|xs| - 1] - m);
    }
  }

  lemma SquareNonNegative(x: real)
    ensures Square(x) >= 0.0
  {
  }

  /** mean and m2 are the exact mean and sum of squared deviations of xs. The quantifier only keeps the
      arithmetic folded away until a sum is mentioned. */
  ghost predicate Summarises(xs: seq<real>, mean: real, m2: real) {
    forall ys {:trigger Sum(ys)} :: ys == xs ==>
      (|ys| == 0 ==> mean == 0.0) && IsMean(mean, |ys| as real, Sum(ys)) && m2 == Deviation(ys, mean)
  }

  lemma {:induction false} SummarisesStep(xs: seq<real>, x: real, n: nat, mean: real, m2: real, mean': real, m2': real)
    requires Summarises(xs, mean, m2) && n == |xs| + 1
    requires mean' == mean + (x - mean) / n as real
    requires m2' == m2 + (x - mean) * (x - mean')
    ensures Summarises(xs + [x], mean', m2')
  {
    assert m2' == NextM2(m2, x, mean, mean');
    assert m2' == Deviation(xs + [x], mean') && IsMean(mean', n as real, Sum(xs + [x])) by {
      assert IsMean(mean, |xs| as real, Sum(xs));
      MeanUpdate(mean, x, |xs| as real, n as real);
      WelfordStep(xs, x, |xs| as real, mean, mean');
    }
  }

  class RunningStats {
    var n: nat
    var mean: real
    var M2: real
    ghost var xs: seq<real>  // every value seen
    ghost const owner: Owner

    /** The three fields are exactly the two-pass count, mean and sum of squared deviations. */
    ghost predicate Valid()
      reads this
    {
      n == |xs| && Summarises(xs, mean, M2)
    }

    lemma TwoPass()
      requires Valid()
      ensures mean == Mean(xs) && M2 == Deviation(xs, Mean(xs)) && M2 >= 0.0
    {
      assert IsMean(mean, n as real, Sum(xs));
      if n > 0 {
        UniqueMean(xs, mean);
      }
      DeviationNonNegative(xs, mean);
    }

    constructor (ghost owner: Owner := Overall)
      ensures Valid() && xs == [] && this.owner == owner
    {
      n, mean, M2 := 0, 0.0, 0.0;
      xs := [];
      this.owner := owner;
    }

    method Update(x: real)
      requires Valid()
      modifies this
      ensures Valid() && xs == old(xs) + [x]
    {
      n := n + 1;
      var delta := x - mean;
      mean := mean + delta / n as real;
      var delta2 := x - mean;
      M2 := M2 + delta * delta2;
      SummarisesStep(xs, x, n, old(mean), old(M2), mean, M2);
      xs := xs + [x];
    }

    method GetMean() returns (m: real)
      requires Valid()
      ensures m == Mean(xs)
    {
      TwoPass();
      m := if n > 0 then mean else 0.0;
    }

    /** The square of get_std. */
    method GetStdSquared(sample: bool) returns (v: real)
      requires Valid()
      ensures v >= 0.0
      ensures !sample ==> v == Variance(xs)
      ensures !sample && |xs| > 0 ==> v * |xs| as real == Deviation(xs, Mean(xs))
      ensures sample && |xs| > 1 ==> v * (|xs| - 1) as real == Deviation(xs, Mean(xs))
      ensures sample && |xs| <= 1 ==> v == 0.0
    {
      VarianceLaw(xs);
      if n <= 1 {
        return 0.0;
      }
      TwoPass();
      var denom := if sample then n - 1 else n;
      v := M2 / denom as real;
      QuotientNonNegative(M2, denom as real);
    }
  }

  lemma QuotientNonNegative(a: real, b: real)
    requires a >= 0.0 && b > 0.0
    ensures a / b >= 0.0
  {
  }

  // ---------------------------------------------------------------- order of arrival does not matter

  lemma {:induction false} Concat(a: seq<real>, b: seq<real>, m: real)
    ensures Sum(a + b) == Sum(a) + Sum(b)
    ensures Deviation(a + b, m) == Deviation(a, m) + Deviation(b, m)
  {
    if |b| == 0 {
      assert a + b == a;
    } else {
      Concat(a, b[..|b| - 1], m);
      assert (a + b)[..|a + b| - 1] == a + b[..|b| - 1];
    }
  }

  lemma {:induction false} Permuted(a: seq<real>, b: seq<real>, m: real)
    requires multiset(a) == multiset(b)
    ensures |a| == |b| && Sum(a) == Sum(b) && Deviation(a, m) == Deviation(b, m)
  {
    if |a| == 0 {
      assert |multiset(b)| == 0;
    } else {
      var p, q := RemoveMatching(a, b);
      var x := a[|a| - 1];
      Permuted(a[..|a| - 1], p + q, m);
      Concat(p, q, m);
      Concat(p + [x], q, m);
      Snoc(p, x, m);
    }
  }

  /** All values delivered by the batches, in completion order; a batch whose request failed is None. */
  datatype Batch = Failed(size: nat) | Values(xs: seq<real>)

  function Delivered(done: seq<Batch>): seq<real> {
    if |done| == 0 then []
    else
      var last := done[|done| - 1];
      Delivered(done[..|done| - 1]) + if last.Values? then last.xs else []
  }

  function Lost(done: seq<Batch>): nat {
    if |done| == 0 then 0
    else
      var last := done[|done| - 1];
      Lost(done[..|done| - 1]) + if last.Failed? then last.size else 0
  }

  function ValuesOf(b: Batch): seq<real> {
    if b.Values? then b.xs else []
  }

  lemma DeliveredSnoc(a: seq<Batch>, x: Batch)
    ensures Delivered(a + [x]) == Delivered(a) + ValuesOf(x)
    ensures Lost(a + [x]) == Lost(a) + if x.Failed? then x.size else 0
  {
    assert (a + [x])[..|a|] == a;
  }

  /** A completed batch delivers its values and loses nothing; a failed one the other way round. With
      DeliveredConcat this fixes what any sequence of batches delivers and loses. */
  lemma OneBatch(xs: seq<real>, size: nat)
    ensures Delivered([Values(xs)]) == xs && Lost([Values(xs)]) == 0
    ensures Delivered([Failed(size)]) == [] && Lost([Failed(size)]) == size
    ensures Delivered([]) == [] && Lost([]) == 0
  {
    DeliveredSnoc([], Values(xs));
    DeliveredSnoc([], Failed(size));
    assert [] + [Values(xs)] == [Values(xs)] && [] + [Failed(size)] == [Failed(size)];
  }

  lemma {:induction false} DeliveredConcat(a: seq<Batch>, b: seq<Batch>)
    ensures Delivered(a + b) == Delivered(a) + Delivered(b) && Lost(a + b) == Lost(a) + Lost(b)
  {
    if |b| == 0 {
      assert a + b == a;
    } else {
      var front, x := b[..|b| - 1], b[|b| - 1];
      DeliveredConcat(a, front);
      SplitLast(a, b);
      DeliveredSnoc(a + front, x);
      Associative(Delivered(a), Delivered(front), ValuesOf(x));
    }
  }

  lemma {:induction false} DeliveredPermuted(a: seq<Batch>, b: seq<Batch>)
    requires multiset(a) == multiset(b)
    ensures multiset(Delivered(a)) == multiset(Delivered(b)) && Lost(a) == Lost(b)
  {
    if |a| == 0 {
      assert |multiset(b)| == 0;
    } else {
      var p, q := RemoveMatching(a, b);
      var x := a[|a| - 1];
      DeliveredPermuted(a[..|a| - 1], p + q);
      DeliveredMiddle(p, x, q);
    }
  }

  lemma DeliveredMiddle(p: seq<Batch>, x: Batch, q: seq<Batch>)
    ensures multiset(Delivered(p + [x] + q)) == multiset(Delivered(p + q)) + multiset(ValuesOf(x))
    ensures Lost(p + [x] + q) == Lost(p + q) + if x.Failed? then x.size else 0
  {
    DeliveredConcat(p, q);
    DeliveredConcat(p + [x], q);
    DeliveredSnoc(p, x);
  }

  /** The inner loop over the pairs of one finished request. */
  method UpdateAll(stats: RunningStats, xs: seq<real>) returns (sum: real)
    requires stats.Valid()
    modifies stats
    ensures stats.Valid() && stats.xs == old(stats.xs) + xs && sum == Sum(xs)
  {
    sum := 0.0;
    for j := 0 to |xs|
      invariant stats.Valid() && stats.xs == old(stats.xs) + xs[..j] && sum == Sum(xs[..j])
    {
      assert xs[..j + 1][..j] == xs[..j];
      stats.Update(xs[j]);
      sum := sum + xs[j];
    }
    assert xs[..|xs|] == xs;
  }

  /** The loop over completed requests, for one metric: its running sum, its accumulator, and the counters. */
  method Accumulate(done: seq<Batch>) returns (stats: RunningStats, sum: real, used: nat, failed: nat)
    ensures fresh(stats) && stats.Valid() && stats.xs == Delivered(done)
    ensures sum == Sum(Delivered(done)) && used == |Delivered(done)| && failed == Lost(done)
  {
    stats := new RunningStats();
    sum, used, failed := 0.0, 0, 0;
    for i := 0 to |done|
      invariant fresh(stats) && stats.Valid() && stats.xs == Delivered(done[..i])
      invariant sum == Sum(stats.xs) && used == |stats.xs| && failed == Lost(done[..i])
    {
      assert done[..i + 1][..i] == done[..i];
      if done[i].Failed? {
        failed := failed + done[i].size;
      } else {
        Concat(stats.xs, done[i].xs, 0.0);
        var batchSum := UpdateAll(stats, done[i].xs);
        sum := sum + batchSum;
        used := used + |done[i].xs|;
      }
    }
    assert done[..|done|] == done;
  }

  /** Two runs whose batches complete in different orders end in the same accumulator state. */
  lemma OrderIndependent(done: seq<Batch>, done': seq<Batch>, s: RunningStats, s': RunningStats)
    requires multiset(done) == multiset(done')
    requires s.Valid() && s.xs == Delivered(done) && s'.Valid() && s'.xs == Delivered(done')
    ensures s.n == s'.n && s.mean == s'.mean && s.M2 == s'.M2
    ensures Variance(s.xs) == Variance(s'.xs) && Lost(done) == Lost(done')
  {
    DeliveredPermuted(done, done');
    Permuted(s.xs, s'.xs, s.mean);
    s.TwoPass();
    s'.TwoPass();
  }
}
