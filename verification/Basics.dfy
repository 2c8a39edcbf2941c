/** Shared vocabulary. */
module Basics {

  datatype Option<T> = None | Some(value: T)

  /** What a statistics object belongs to; keeps objects of different owners apart. */
  datatype Owner = Overall | Token(id: int)

  datatype Result<T, E> = Ok(value: T) | Err(error: E)

  function Min(a: int, b: int): int {
    if a <= b then a else b
  }

  function Max(a: int, b: int): int {
    if a <= b then b else a
  }

  function Abs(x: int): nat {
    if x < 0 then -x else x
  }

  ghost predicate Distinct<T>(s: seq<T>) {
    forall i, j :: 0 <= i < j < |s| ==> s[i] != s[j]
  }

  lemma PrefixNext<T>(s: seq<T>, k: nat)
    requires k < |s|
    ensures s[..k + 1] == s[..k] + [s[k]]
  {
  }

  lemma SplitLast<T>(a: seq<T>, b: seq<T>)
    requires |b| > 0
    ensures a + b == a + b[..|b| - 1] + [b[|b| - 1]]
  {
  }

  lemma Associative<T>(a: seq<T>, b: seq<T>, c: seq<T>)
    ensures a + (b + c) == a + b + c
  {
  }

  function Total(xs: seq<int>): int {
    if |xs| == 0 then 0 else Total(xs[..|xs| - 1]) + xs[|xs| - 1]
  }

  lemma {:induction false} TotalConcat(a: seq<int>, b: seq<int>)
    ensures Total(a + b) == Total(a) + Total(b)
  {
    if |b| == 0 {
      assert a + b == a;
    } else {
      TotalConcat(a, b[..|b| - 1]);
      assert (a + b)[..|a + b| - 1] == a + b[..|b| - 1];
    }
  }

  /** The positions at which p holds. */
  ghost function Where<T>(s: seq<T>, p: T -> bool): set<nat> {
    set i: nat | i < |s| && p(s[i])
  }

  lemma WhereLast<T>(s: seq<T>, p: T -> bool)
    requires |s| > 0
    ensures |Where(s, p)| == |Where(s[..|s| - 1], p)| + if p(s[|s| - 1]) then 1 else 0
  {
    var n := |s| - 1;
    assert Where(s, p) == Where(s[..n], p) + if p(s[n]) then {n as nat} else {};
  }

  function Filter<T>(s: seq<T>, p: T -> bool): seq<T> {
    if |s| == 0 then [] else Filter(s[..|s| - 1], p) + if p(s[|s| - 1]) then [s[|s| - 1]] else []
  }

  /** Filtering keeps exactly the elements with p, in order: each stands behind as many as are kept before it. */
  lemma {:induction false} FilterAt<T>(s: seq<T>, p: T -> bool, i: nat)
    requires i < |s|
    ensures |Filter(s, p)| == |Where(s, p)|
    ensures p(s[i]) ==> |Where(s[..i], p)| < |Filter(s, p)| && Filter(s, p)[|Where(s[..i], p)|] == s[i]
  {
    var n := |s| - 1;
    WhereLast(s, p);
    if n == 0 {
      assert Where(s[..n], p) == {};
    } else {
      FilterAt(s[..n], p, if i < n then i else 0);
      assert i < n ==> s[..n][..i] == s[..i];
    }
  }
}
