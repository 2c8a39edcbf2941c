/** Euclidean division facts the solver needs spelled out. */
module Arithmetic {

  lemma Multiple(d: int, t: int)
    requires t > 0
    ensures d > 0 ==> d * t >= t
    ensures d < 0 ==> d * t <= -t
  {
  }

  lemma Divided(x: int, t: nat, q: int, r: nat)
    requires r < t && x == q * t + r
    ensures x / t == q && x % t == r
  {
    var d := q - x / t;
    assert d * t == x % t - r by {
      assert d * t == q * t - x / t * t;
    }
    Multiple(d, t);
  }

  lemma OneMore(k: int, n: int)
    ensures (k + 1) * n == k * n + n
  {
  }
}
