/** The pass@k estimator of sample_eval.py and budget_eval.py, over exact reals. */
module PassAtK {
  import opened Basics
  import opened Combinatorics

  /** n samples, c of them correct, k drawn; the same early returns and clamps as the source. */
  function PassAtK(n: int, c: int, k: int): real {
    if k <= 0 || n <= 0 then 0.0
    else
      var k' := Min(k, n);
      var c' := Max(0, Min(c, n));
      if c' == 0 then 0.0
      else if n - c' < k' then 1.0
      else
        ChooseSmall(n, k');
        1.0 - Choose(n - c', k') as real / Choose(n, k') as real
  }

  // ---------------------------------------------------------------- the product fallback

  /** C(n,k+1) * (k+1) == C(n,k) * (n-k) */
  lemma {:induction false} ChooseNext(n: nat, k: nat)
    requires k <= n
    ensures Choose(n, k + 1) * (k + 1) == Choose(n, k) * (n - k)
  {
    if n == 0 {
    } else if k == n {
      ChooseSmall(n, n + 1);
    } else {
      ChooseNext(n - 1, k);
      if k == 0 {
        assert Choose(n - 1, 0) == 1;
      } else {
        ChooseNext(n - 1, k - 1);
        ChooseNextStep(Choose(n - 1, k - 1), Choose(n - 1, k), Choose(n - 1, k + 1), n, k);
      }
    }
  }

  lemma ChooseNextStep(p: nat, q: nat, r: nat, n: nat, k: nat)
    requires r * (k + 1) == q * (n - 1 - k)
    requires q * k == p * (n - 1 - (k - 1))
    ensures (q + r) * (k + 1) == (p + q) * (n - k)
  {
  }

  /** ratio is x/y, stated without division. */
  ghost predicate IsRatio(ratio: real, x: nat, y: nat) {
    ratio * y as real == x as real
  }

  function Scaled(ratio: real, u: nat, v: nat): real
    requires v > 0
  {
    ratio * (u as real / v as real)
  }

  lemma ProductAsReal(x: nat, w: nat, p: nat, q: nat)
    requires x * w == p * q
    ensures x as real * w as real == p as real * q as real
  {
    assert (x * w) as real == x as real * w as real;
    assert (p * q) as real == p as real * q as real;
  }

  /** One factor of the product: multiplying by (a-t)/(b-t) moves C(a,t)/C(b,t) to C(a,t+1)/C(b,t+1). */
  lemma ProductStep(a: nat, b: nat, t: nat, ratio: real)
    requires t < a && t < b && IsRatio(ratio, Choose(a, t), Choose(b, t))
    ensures IsRatio(Scaled(ratio, a - t, b - t), Choose(a, t + 1), Choose(b, t + 1))
  {
    ChooseNext(a, t);
    ChooseNext(b, t);
    RatioStepNat(ratio, a - t, b - t, t + 1, Choose(a, t), Choose(b, t), Choose(a, t + 1), Choose(b, t + 1));
  }

  lemma RatioStepNat(ratio: real, u: nat, v: nat, w: nat, x: nat, y: nat, x': nat, y': nat)
    requires v > 0 && w > 0
    requires IsRatio(ratio, x, y) && x' * w == x * u && y' * w == y * v
    ensures IsRatio(Scaled(ratio, u, v), x', y')
  {
    ProductAsReal(x', w, x, u);
    ProductAsReal(y', w, y, v);
    RatioStep(ratio, u as real, v as real, w as real, x as real, y as real, x' as real, y' as real);
  }

  lemma RatioStep(ratio: real, u: real, v: real, w: real, x: real, y: real, x': real, y': real)
    requires v > 0.0 && w > 0.0
    requires ratio * y == x && x' * w == x * u && y' * w == y * v
    ensures ratio * (u / v) * y' == x'
  {
    var z := ratio * (u / v) * y';
    var f := u / v;
    assert f * v == u;
    calc {
      z * w;
      ratio * f * (y' * w);
      ratio * f * (y * v);
      { assert ratio * f * (y * v) == (ratio * y) * (f * v); }
      (ratio * y) * (f * v);
      x * u;
      x' * w;
    }
    assert (z - x') * w == 0.0;
  }

  /** Both ways the source computes the estimate: the binomial quotient, and the product fallback taken
      when that quotient raises. */
  method PassAtKExpected(n: int, c: int, k: int, quotientRaises: bool) returns (r: real)
    ensures r == PassAtK(n, c, k)
  {
    if k <= 0 || n <= 0 {
      return 0.0;
    }
    var kk := Min(k, n);
    var cc := Max(0, Min(c, n));
    if cc == 0 {
      return 0.0;
    }
    if n - cc < kk {
      return 1.0;
    }
    if !quotientRaises {
      ChooseSmall(n, kk);
      return 1.0 - Choose(n - cc, kk) as real / Choose(n, kk) as real;
    }
    var ratio := ProductFallback(n - cc, n, kk);
    r := 1.0 - ratio;
  }

  /** The loop of the except branch: the product of (a-t)/(b-t) for t < k is C(a,k)/C(b,k). */
  method ProductFallback(a: nat, b: nat, k: nat) returns (ratio: real)
    requires k <= a <= b
    ensures Choose(b, k) > 0
    ensures ratio == Choose(a, k) as real / Choose(b, k) as real
  {
    ratio := 1.0;
    for t := 0 to k
      invariant IsRatio(ratio, Choose(a, t), Choose(b, t))
    {
      ProductStep(a, b, t, ratio);
      ratio := Scaled(ratio, a - t, b - t);
    }
    ChooseSmall(b, k);
    DivideOut(ratio, Choose(b, k) as real, Choose(a, k) as real);
  }

  lemma DivideOut(q: real, y: real, x: real)
    requires y > 0.0 && q * y == x
    ensures q == x / y
  {
    assert (q - x / y) * y == 0.0;
  }

  // ---------------------------------------------------------------- what the estimate means

  /** Size-k subsets of the n samples with at least one correct member. */
  ghost function Hitting(n: nat, correct: set<nat>, k: nat): set<set<nat>> {
    set s | s in KSubsets(Range(n), k) && s * correct != {}
  }

  lemma HittingCount(n: nat, correct: set<nat>, c: nat, k: nat)
    requires correct <= Range(n) && |correct| == c <= n
    ensures |Hitting(n, correct, k)| == Choose(n, k) - Choose(n - c, k)
    ensures |KSubsets(Range(n), k)| == Choose(n, k)
  {
    var wrong := Range(n) - correct;
    RangeSize(n);
    KSubsetsCount(Range(n), k);
    KSubsetsCount(wrong, k);
    assert |wrong| == n - c;
    forall s
      ensures s in Hitting(n, correct, k) <==> s in KSubsets(Range(n), k) - KSubsets(wrong, k)
    {
      if s <= Range(n) {
        assert s * correct == {} <==> s <= wrong by {
          assert forall x :: x in s && x in correct ==> x in s * correct;
        }
      }
    }
    assert Hitting(n, correct, k) == KSubsets(Range(n), k) - KSubsets(wrong, k);
    assert KSubsets(wrong, k) <= KSubsets(Range(n), k);
  }

  lemma CorrectAtMost(n: nat, correct: set<nat>)
    requires correct <= Range(n)
    ensures |correct| <= n
  {
    RangeSize(n);
    assert |Range(n) - correct| == n - |correct|;
  }

  /** Away from the clamps, every branch of the source is the one binomial formula. */
  lemma OneFormula(n: nat, c: nat, k: nat)
    requires 0 < k <= n && c <= n
    ensures Choose(n, k) > 0
    ensures PassAtK(n, c, k) == 1.0 - Choose(n - c, k) as real / Choose(n, k) as real
  {
    ChooseSmall(n, k);
    ChooseSmall(n - c, k);
    DivideOut(1.0, Choose(n, k) as real, Choose(n, k) as real);
    DivideOut(0.0, Choose(n, k) as real, 0.0);
  }

  /** pass@k is the fraction of size-k subsets of the n samples that contain a correct one. */
  lemma FractionOfSubsets(n: nat, correct: set<nat>, k: nat)
    requires 0 < k <= n && correct <= Range(n)
    ensures |KSubsets(Range(n), k)| > 0
    ensures PassAtK(n, |correct|, k) == |Hitting(n, correct, k)| as real / |KSubsets(Range(n), k)| as real
  {
    CorrectAtMost(n, correct);
    var c := |correct|;
    HittingCount(n, correct, c, k);
    OneFormula(n, c, k);
    OneMinus(Choose(n, k) as real, Choose(n - c, k) as real);
  }

  /** All other arguments: nothing for no draw or no sample, and otherwise k and c are cut down to what n allows. */
  lemma Clamped(n: int, c: int, k: int)
    ensures k <= 0 || n <= 0 || c <= 0 ==> PassAtK(n, c, k) == 0.0
    ensures k > 0 && n > 0 && c >= n ==> PassAtK(n, c, k) == 1.0
    ensures n > 0 && k > n ==> PassAtK(n, c, k) == PassAtK(n, c, n) == if c > 0 then 1.0 else 0.0
  {
  }

  lemma OneMinus(y: real, x: real)
    requires y > 0.0
    ensures 1.0 - x / y == (y - x) / y
  {
    var q := x / y;
    assert q * y == x;
    DivideOut(1.0 - q, y, y - x);
  }

  lemma DivideMonotone(x: real, x': real, y: real)
    requires y > 0.0 && x <= x'
    ensures x / y <= x' / y
  {
    assert (x' / y - x / y) * y == x' - x;
  }

  /** A probability, for all arguments. */
  lemma Bounded(n: int, c: int, k: int)
    ensures 0.0 <= PassAtK(n, c, k) <= 1.0
  {
    if k > 0 && n > 0 {
      var k', c' := Min(k, n), Max(0, Min(c, n));
      FractionOfSubsets(n, Range(c'), k');
      RangeSize(c');
      SubsetSize(Hitting(n, Range(c'), k'), KSubsets(Range(n), k'));
      var y := |KSubsets(Range(n), k')| as real;
      DivideMonotone(0.0, |Hitting(n, Range(c'), k')| as real, y);
      DivideMonotone(|Hitting(n, Range(c'), k')| as real, y, y);
    }
  }

  /** More correct samples never lower the estimate. */
  lemma MonotoneInCorrect(n: int, c: int, d: int, k: int)
    requires c <= d
    ensures PassAtK(n, c, k) <= PassAtK(n, d, k)
  {
    if k > 0 && n > 0 {
      var k', c', d' := Min(k, n), Max(0, Min(c, n)), Max(0, Min(d, n));
      FractionOfSubsets(n, Range(c'), k');
      FractionOfSubsets(n, Range(d'), k');
      RangeSize(c');
      RangeSize(d');
      assert Range(c') <= Range(d');
      assert Hitting(n, Range(c'), k') <= Hitting(n, Range(d'), k');
      SubsetSize(Hitting(n, Range(c'), k'), Hitting(n, Range(d'), k'));
      DivideMonotone(|Hitting(n, Range(c'), k')| as real, |Hitting(n, Range(d'), k')| as real,
                     |KSubsets(Range(n), k')| as real);
    }
  }

  /** C(a,k+1)/C(n,k+1) <= C(a,k)/C(n,k) when a <= n. */
  lemma RatioShrinks(a: nat, n: nat, k: nat)
    requires a <= n && k < n
    ensures Choose(a, k + 1) * Choose(n, k) <= Choose(a, k) * Choose(n, k + 1)
  {
    var x, y, x', y' := Choose(a, k), Choose(n, k), Choose(a, k + 1), Choose(n, k + 1);
    ChooseNext(n, k);
    if k > a {
      ChooseSmall(a, k);
      ChooseSmall(a, k + 1);
    } else {
      ChooseNext(a, k);
      ShrinkStep(x, y, x', y', k + 1, a - k, n - k);
    }
  }

  lemma ShrinkStep(x: nat, y: nat, x': nat, y': nat, w: nat, u: nat, v: nat)
    requires w > 0 && u <= v && x' * w == x * u && y' * w == y * v
    ensures x' * y <= x * y'
  {
    assert (x' * y) * w == (x * y) * u by {
      assert (x' * y) * w == (x' * w) * y;
    }
    assert (x * y') * w == (x * y) * v by {
      assert (x * y') * w == x * (y' * w);
    }
    assert (x * y) * u <= (x * y) * v;
  }

  lemma CrossDivide(x: real, y: real, x': real, y': real)
    requires y > 0.0 && y' > 0.0 && x' * y <= x * y'
    ensures x' / y' <= x / y
  {
    var p, q := x / y, x' / y';
    assert p * y == x && q * y' == x';
    assert (p - q) * (y * y') == x * y' - x' * y;
    assert y * y' > 0.0;
  }

  lemma MonotoneStep(n: nat, c: nat, k: nat)
    requires 0 < k < n && c <= n
    ensures PassAtK(n, c, k) <= PassAtK(n, c, k + 1)
  {
    OneFormula(n, c, k);
    OneFormula(n, c, k + 1);
    RatioShrinks(n - c, n, k);
    var x, y, x', y' := Choose(n - c, k), Choose(n, k), Choose(n - c, k + 1), Choose(n, k + 1);
    CrossDivideNat(x, y, x', y');
  }

  lemma CrossDivideNat(x: nat, y: nat, x': nat, y': nat)
    requires y > 0 && y' > 0 && x' * y <= x * y'
    ensures x' as real / y' as real <= x as real / y as real
  {
    assert x' as real * y as real == (x' * y) as real && x as real * y' as real == (x * y') as real;
    CrossDivide(x as real, y as real, x' as real, y' as real);
  }

  lemma {:induction false} MonotoneInRange(n: nat, c: nat, k: nat, l: nat)
    requires 0 < k <= l <= n && c <= n
    ensures PassAtK(n, c, k) <= PassAtK(n, c, l)
    decreases l - k
  {
    if k < l {
      MonotoneStep(n, c, k);
      MonotoneInRange(n, c, k + 1, l);
    }
  }

  /** Drawing more samples never lowers the estimate. */
  lemma MonotoneInDraws(n: int, c: int, k: int, l: int)
    requires k <= l
    ensures PassAtK(n, c, k) <= PassAtK(n, c, l)
  {
    Bounded(n, c, l);
    if k > 0 && n > 0 {
      MonotoneInRange(n, Max(0, Min(c, n)), Min(k, n), Min(l, n));
    }
  }

  /** pass@1 is the plain accuracy. */
  lemma PassAtOne(n: nat, c: nat)
    requires c <= n && n > 0
    ensures PassAtK(n, c, 1) == c as real / n as real
  {
    OneFormula(n, c, 1);
    ChooseOne(n);
    ChooseOne(n - c);
    OneMinus(n as real, (n - c) as real);
  }

  lemma {:induction false} ChooseOne(n: nat)
    ensures Choose(n, 1) == n
  {
    if n > 0 {
      ChooseOne(n - 1);
    }
  }
}
