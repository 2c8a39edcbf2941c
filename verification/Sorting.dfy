/** Python's sorted(): a stable sort by an integer key. */
module Sorting {
  import opened Basics

  ghost predicate OrderedBy<T>(s: seq<T>, key: T -> int) {
    forall i, j :: 0 <= i < j < |s| ==> key(s[i]) <= key(s[j])
  }

  /** x goes behind every element whose key is not larger. */
  function InsertStable<T>(s: seq<T>, x: T, key: T -> int): seq<T> {
    if |s| == 0 then [x]
    else if key(s[|s| - 1]) <= key(x) then s + [x]
    else InsertStable(s[..|s| - 1], x, key) + [s[|s| - 1]]
  }

  function Sorted<T>(s: seq<T>, key: T -> int): seq<T> {
    if |s| == 0 then [] else InsertStable(Sorted(s[..|s| - 1], key), s[|s| - 1], key)
  }

  lemma {:induction false} InsertStableContents<T>(s: seq<T>, x: T, key: T -> int)
    ensures multiset(InsertStable(s, x, key)) == multiset(s) + multiset{x}
  {
    if |s| > 0 && key(s[|s| - 1]) > key(x) {
      InsertStableContents(s[..|s| - 1], x, key);
      assert s == s[..|s| - 1] + [s[|s| - 1]];
    }
  }

  lemma {:induction false} InsertStableCorrect<T>(s: seq<T>, x: T, key: T -> int)
    requires OrderedBy(s, key)
    ensures OrderedBy(InsertStable(s, x, key), key)
  {
    if |s| > 0 && key(s[|s| - 1]) > key(x) {
      var front, last := s[..|s| - 1], s[|s| - 1];
      InsertStableCorrect(front, x, key);
      InsertStableContents(front, x, key);
      var r := InsertStable(front, x, key);
      forall i | 0 <= i < |r|
        ensures key(r[i]) <= key(last)
      {
        assert r[i] in multiset(r);
      }
    }
  }

  lemma {:induction false} SortedCorrect<T>(s: seq<T>, key: T -> int)
    ensures OrderedBy(Sorted(s, key), key)
    ensures multiset(Sorted(s, key)) == multiset(s)
  {
    if |s| > 0 {
      var front, x := s[..|s| - 1], s[|s| - 1];
      SortedCorrect(front, key);
      InsertStableCorrect(Sorted(front, key), x, key);
      InsertStableContents(Sorted(front, key), x, key);
      assert multiset(s) == multiset(front) + multiset{x} by {
        assert s == front + [x];
      }
    }
  }

  /** The elements of one key, in order. */
  function WithKey<T>(s: seq<T>, key: T -> int, k: int): seq<T> {
    if |s| == 0 then []
    else WithKey(s[..|s| - 1], key, k) + if key(s[|s| - 1]) == k then [s[|s| - 1]] else []
  }

  lemma {:induction false} WithKeyKeeps<T>(s: seq<T>, key: T -> int, k: int, p: T -> bool)
    requires forall x :: p(x) <==> key(x) == k
    ensures WithKey(s, key, k) == Filter(s, p)
  {
    if |s| > 0 {
      WithKeyKeeps(s[..|s| - 1], key, k, p);
    }
  }

  lemma WithKeySnoc<T>(s: seq<T>, x: T, key: T -> int, k: int)
    ensures WithKey(s + [x], key, k) == WithKey(s, key, k) + if key(x) == k then [x] else []
  {
    assert (s + [x])[..|s|] == s;
  }

  lemma {:induction false} InsertBehindEquals<T>(s: seq<T>, x: T, key: T -> int, k: int)
    ensures WithKey(InsertStable(s, x, key), key, k) == WithKey(s, key, k) + if key(x) == k then [x] else []
  {
    if |s| == 0 {
      WithKeySnoc([], x, key, k);
      assert [] + [x] == [x];
    } else if key(s[|s| - 1]) <= key(x) {
      WithKeySnoc(s, x, key, k);
    } else {
      var front, last := s[..|s| - 1], s[|s| - 1];
      InsertBehindEquals(front, x, key, k);
      WithKeySnoc(InsertStable(front, x, key), last, key, k);
      if key(x) == k {
        assert WithKey(s, key, k) == WithKey(front, key, k) + [];
      }
    }
  }

  /** Elements of equal key keep their order. */
  lemma {:induction false} SortedStable<T>(s: seq<T>, key: T -> int, k: int)
    ensures WithKey(Sorted(s, key), key, k) == WithKey(s, key, k)
  {
    if |s| > 0 {
      SortedStable(s[..|s| - 1], key, k);
      InsertBehindEquals(Sorted(s[..|s| - 1], key), s[|s| - 1], key, k);
    }
  }

  /** The last element of a, cut out of a permutation b of a, leaves a permutation of the rest. */
  lemma RemoveMatching<T>(a: seq<T>, b: seq<T>) returns (p: seq<T>, q: seq<T>)
    requires |a| > 0 && multiset(a) == multiset(b)
    ensures b == p + [a[|a| - 1]] + q && multiset(p + q) == multiset(a[..|a| - 1])
  {
    var x := a[|a| - 1];
    assert a == a[..|a| - 1] + [x];
    assert x in multiset(b);
    var i :| 0 <= i < |b| && b[i] == x;
    p, q := b[..i], b[i + 1..];
    assert b == p + [x] + q;
    assert multiset(p + q) == multiset(b) - multiset{x};
  }
}
