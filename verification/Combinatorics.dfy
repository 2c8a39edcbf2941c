/** Counting: binomials, factorials, k-subsets, and the size of a union of equal-sized disjoint fibres. */
module Combinatorics {

  predicate Below(i: nat, n: nat) {
    i < n
  }

  function Range(n: nat): set<nat> {
    set i: nat | i < n && Below(i, n)
  }

  lemma {:induction false} RangeSize(n: nat)
    ensures |Range(n)| == n
  {
    if n > 0 {
      RangeSize(n - 1);
      assert Range(n) == Range(n - 1) + {n - 1};
    }
  }

  lemma SubsetSize<T>(a: set<T>, b: set<T>)
    requires a <= b
    ensures |a| <= |b|
  {
    assert |b - a| == |b| - |a|;
  }

  function Factorial(n: nat): (f: nat)
    ensures f > 0
  {
    if n == 0 then 1 else n * Factorial(n - 1)
  }

  /** Pascal's triangle; zero when k > n, as math.comb returns. */
  function Choose(n: nat, k: nat): nat {
    if k == 0 then 1
    else if n == 0 then 0
    else Choose(n - 1, k - 1) + Choose(n - 1, k)
  }

  lemma {:induction false} ChooseSmall(n: nat, k: nat)
    ensures k > n ==> Choose(n, k) == 0
    ensures k <= n ==> Choose(n, k) > 0
    ensures k == n ==> Choose(n, k) == 1
  {
    if k > 0 && n > 0 {
      ChooseSmall(n - 1, k - 1);
      ChooseSmall(n - 1, k);
    }
  }

  lemma PascalStep(a: nat, b: nat, f: nat, g: nat, k: nat, m: nat, x: nat)
    requires a * f * (m * g) == x
    requires b * (k * f) * g == x
    ensures (a + b) * (k * f) * (m * g) == (k + m) * x
  {
    assert a * (k * f) * (m * g) == k * (a * f * (m * g)) by {
      assert a * (k * f) == k * (a * f);
    }
    assert b * (k * f) * (m * g) == m * (b * (k * f) * g) by {
      var y := b * (k * f);
      assert y * (m * g) == m * (y * g);
    }
    var p, q := k * f, m * g;
    assert (a + b) * p * q == a * p * q + b * p * q by {
      assert (a + b) * p == a * p + b * p;
    }
  }

  /** C(n,k) * k! * (n-k)! == n! */
  lemma {:induction false} ChooseFactorial(n: nat, k: nat)
    requires k <= n
    ensures Choose(n, k) * Factorial(k) * Factorial(n - k) == Factorial(n)
  {
    if k == 0 {
    } else if k == n {
      ChooseSmall(n, k);
      assert Factorial(n - k) == 1;
    } else {
      ChooseFactorial(n - 1, k - 1);
      ChooseFactorial(n - 1, k);
      var a, b, f, g := Choose(n - 1, k - 1), Choose(n - 1, k), Factorial(k - 1), Factorial(n - k - 1);
      assert Factorial(k) == k * f && Factorial(n - k) == (n - k) * g;
      assert n - 1 - (k - 1) == n - k && n - 1 - k == n - k - 1;
      PascalStep(a, b, f, g, k, n - k, Factorial(n - 1));
    }
  }

  /** The union of the fibres f(a), a in s. */
  ghost function Fibres<A(!new), B(!new)>(s: set<A>, f: A -> set<B>): set<B> {
    set a, b | a in s && b in f(a) :: b
  }

  lemma {:induction false} FibresSize<A(!new), B(!new)>(s: set<A>, f: A -> set<B>, q: nat)
    requires forall a :: a in s ==> |f(a)| == q
    requires forall a, a' :: a in s && a' in s && a != a' ==> f(a) !! f(a')
    ensures |Fibres(s, f)| == |s| * q
    decreases |s|
  {
    if s == {} {
      assert Fibres(s, f) == {};
    } else {
      var a :| a in s;
      var rest := s - {a};
      FibresSize(rest, f, q);
      assert Fibres(s, f) == f(a) + Fibres(rest, f);
      assert f(a) !! Fibres(rest, f);
      assert |s| == |rest| + 1;
      assert (|rest| + 1) * q == |rest| * q + q;
    }
  }

  ghost function Image<A(!new), B(!new)>(s: set<A>, g: A -> B): set<B> {
    set a | a in s :: g(a)
  }

  /** An injective image keeps the size. */
  lemma ImageSize<A(!new), B(!new)>(s: set<A>, g: A -> B)
    requires forall a, a' :: a in s && a' in s && a != a' ==> g(a) != g(a')
    ensures |Image(s, g)| == |s|
  {
    var f := a => {g(a)};
    FibresSize(s, f, 1);
    assert Fibres(s, f) == Image(s, g);
  }

  ghost function KSubsets<T(!new)>(u: set<T>, k: nat): set<set<T>> {
    set s: set<T> | s <= u && |s| == k
  }

  lemma {:induction false} KSubsetsCount<T(!new)>(u: set<T>, k: nat)
    ensures |KSubsets(u, k)| == Choose(|u|, k)
    decreases |u|
  {
    if k == 0 {
      assert KSubsets(u, 0) == {{}};
    } else if u == {} {
      assert KSubsets(u, k) == {};
    } else {
      var x :| x in u;
      var v := u - {x};
      assert |v| == |u| - 1;
      KSubsetsCount(v, k - 1);
      KSubsetsCount(v, k);
      KSubsetsSplit(v, x, k);
      assert v + {x} == u;
    }
  }

  ghost function WithElement<T(!new)>(ss: set<set<T>>, x: T): set<set<T>> {
    set s | s in ss :: s + {x}
  }

  lemma WithElementSize<T(!new)>(ss: set<set<T>>, x: T)
    requires forall s :: s in ss ==> x !in s
    ensures |WithElement(ss, x)| == |ss|
  {
    var g := (s: set<T>) => s + {x};
    forall s, s' | s in ss && s' in ss && s != s'
      ensures g(s) != g(s')
    {
      assert s == g(s) - {x} && s' == g(s') - {x};
    }
    ImageSize(ss, g);
    assert WithElement(ss, x) == Image(ss, g);
  }

  /** The k-subsets of v + {x}: those without x, and the (k-1)-subsets of v extended by x. */
  lemma KSubsetsSplit<T(!new)>(v: set<T>, x: T, k: nat)
    requires x !in v && k > 0
    ensures |KSubsets(v + {x}, k)| == |KSubsets(v, k - 1)| + |KSubsets(v, k)|
  {
    var withX := WithElement(KSubsets(v, k - 1), x);
    WithElementSize(KSubsets(v, k - 1), x);
    forall s
      ensures s in KSubsets(v + {x}, k) <==> s in withX || s in KSubsets(v, k)
    {
      SplitMember(v, x, k, s);
    }
    assert KSubsets(v + {x}, k) == withX + KSubsets(v, k);
    assert withX !! KSubsets(v, k);
  }

  lemma SplitMember<T(!new)>(v: set<T>, x: T, k: nat, s: set<T>)
    requires x !in v && k > 0
    ensures s in KSubsets(v + {x}, k) <==> s in WithElement(KSubsets(v, k - 1), x) || s in KSubsets(v, k)
  {
    if x in s {
      var s' := s - {x};
      assert |s'| == |s| - 1;
      assert s' <= v <==> s <= v + {x};
      assert s' + {x} == s;
      var small := KSubsets(v, k - 1);
      assert s in WithElement(small, x) <==> s' in small by {
        assert s' in small ==> s' + {x} in WithElement(small, x);
        assert forall t :: t in small && s == t + {x} ==> t == s';
      }
    } else {
      assert s <= v <==> s <= v + {x};
    }
  }
}
