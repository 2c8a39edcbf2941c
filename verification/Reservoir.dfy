/** Streaming reservoir sampling (analyze_length_token.py, class ReservoirSampler).
    The random generator is an explicit sequence of draws: the item at (0-based) stream position m,
    arriving when the reservoir of size k > 0 is full, draws one number from [0, m]. */
module Reservoir {
  import opened Basics
  import opened Combinatorics

  /** The buffer after one more item x, when `seen` items were consumed before it. */
  function Updated<T>(k: int, seen: nat, buf: seq<T>, x: T, draw: nat): seq<T>
    requires k > 0 ==> |buf| <= k
  {
    if k == 0 then buf
    else if k < 0 || |buf| < k then buf + [x]
    else if draw < k then buf[draw := x]
    else buf
  }

  /** Does the (seen+1)-th item consult the random generator? */
  predicate NeedsDraw(k: int, seen: nat) {
    k > 0 && seen >= k
  }

  class ReservoirSampler {
    const k: int
    var nSeen: nat
    var buf: seq<real>
    ghost var stream: seq<real>  // every value passed to Update while enabled
    ghost var draws: seq<nat>    // every number drawn so far
    ghost const owner: Owner

    ghost predicate Valid()
      reads this
    {
      && nSeen == |stream|
      && (k == 0 ==> stream == [] && buf == [] && draws == [])
      && (k < 0 ==> buf == stream)
      && (k > 0 ==> Sampled(k, stream, buf, draws))
    }

    constructor (k: int, ghost owner: Owner := Overall)
      ensures Valid() && this.k == k && this.owner == owner && buf == [] && stream == [] && draws == []
    {
      this.k := k;
      this.owner := owner;
      nSeen := 0;
      buf := [];
      stream := [];
      draws := [];
    }

    /** update with whatever the generator draws. */
    method UpdateRandomly(x: real)
      requires Valid()
      modifies this
      ensures Valid() && stream == if k == 0 then old(stream) else old(stream) + [x]
    {
      var draw: nat :| draw <= nSeen;
      Update(x, draw);
    }

    /** `draw` stands for rng.randrange(n_seen), consulted only when the reservoir is full. */
    method Update(x: real, draw: nat)
      requires Valid()
      requires NeedsDraw(k, nSeen) ==> draw <= nSeen
      modifies this
      ensures Valid()
      ensures stream == if k == 0 then old(stream) else old(stream) + [x]
      ensures draws == if NeedsDraw(k, old(nSeen)) then old(draws) + [draw] else old(draws)
      ensures k > 0 ==> |old(buf)| <= k
      ensures buf == Updated(k, old(nSeen), old(buf), x, draw)
    {
      if k == 0 {
        return;
      }
      if k < 0 {
        buf := buf + [x];
        nSeen := nSeen + 1;
        stream := stream + [x];
        return;
      }
      BufferSize(k, stream, buf, draws);
      nSeen := nSeen + 1;
      if |buf| < k {
        SampledFill(k, stream, buf, draws, x);
        stream, buf := stream + [x], buf + [x];
        return;
      }
      SampledDraw(k, stream, buf, draws, x, draw);
      stream, draws := stream + [x], draws + [draw];
      if draw < k {
        buf := buf[draw := x];
      }
    }
  }

  /** All sequences of draws possible while n items stream through a reservoir of size k. */
  ghost function Draws(k: nat, n: nat): set<seq<nat>> {
    if n <= k || k == 0 then {[]}
    else set d, j | d in Draws(k, n - 1) && j in Range(n) :: d + [j]
  }

  /** The stream positions held by the reservoir after n items, in buffer order. */
  function Positions(k: nat, n: nat, draws: seq<nat>): (p: seq<nat>)
    ensures |p| <= k
    decreases n
  {
    if n == 0 || k == 0 then []
    else if n <= k || |draws| == 0 then
      var before := Positions(k, n - 1, draws);
      Updated(k, n - 1, before, n - 1, k)
    else Updated(k, n - 1, Positions(k, n - 1, draws[..|draws| - 1]), n - 1, draws[|draws| - 1])
  }

  /** The buffer holds the stream's values at the positions these draws select. */
  ghost predicate Sampled(k: nat, stream: seq<real>, buf: seq<real>, draws: seq<nat>) {
    && draws in Draws(k, |stream|) && Holding(stream, buf, Positions(k, |stream|, draws))
  }

  ghost predicate Holding(stream: seq<real>, buf: seq<real>, positions: seq<nat>) {
    |buf| == |positions| && forall i :: 0 <= i < |buf| ==> positions[i] < |stream| && buf[i] == stream[positions[i]]
  }

  lemma HoldingUpdated(k: nat, stream: seq<real>, buf: seq<real>, positions: seq<nat>, x: real, j: nat)
    requires k > 0 && Holding(stream, buf, positions) && |buf| <= k
    ensures Holding(stream + [x], Updated(k, |stream|, buf, x, j), Updated(k, |stream|, positions, |stream|, j))
  {
  }

  lemma BufferSize(k: nat, stream: seq<real>, buf: seq<real>, draws: seq<nat>)
    requires Sampled(k, stream, buf, draws)
    ensures |buf| == if |stream| < k then |stream| else k
  {
    PositionsShape(k, |stream|, draws);
  }

  lemma SampledFill(k: nat, stream: seq<real>, buf: seq<real>, draws: seq<nat>, x: real)
    requires k > 0 && Sampled(k, stream, buf, draws) && |buf| < k
    ensures |stream| < k && Sampled(k, stream + [x], buf + [x], draws)
  {
    PositionsShape(k, |stream|, draws);
    HoldingUpdated(k, stream, buf, Positions(k, |stream|, draws), x, k);
    assert Updated(k, |stream|, buf, x, k) == buf + [x];
    assert Positions(k, |stream| + 1, draws) == Updated(k, |stream|, Positions(k, |stream|, draws), |stream|, k);
  }

  lemma SampledDraw(k: nat, stream: seq<real>, buf: seq<real>, draws: seq<nat>, x: real, j: nat)
    requires k > 0 && Sampled(k, stream, buf, draws) && |buf| >= k && j <= |stream|
    ensures |stream| >= k && |buf| == k
    ensures Sampled(k, stream + [x], Updated(k, |stream|, buf, x, j), draws + [j])
  {
    PositionsShape(k, |stream|, draws);
    HoldingUpdated(k, stream, buf, Positions(k, |stream|, draws), x, j);
    DrawsStep(k, |stream|, draws, j);
    assert (draws + [j])[..|draws|] == draws;
  }

  lemma DrawsStep(k: nat, n: nat, d: seq<nat>, j: nat)
    requires 0 < k <= n
    ensures d in Draws(k, n) && j <= n <==> d + [j] in Draws(k, n + 1)
  {
    if d + [j] in Draws(k, n + 1) {
      var d', j' :| d' in Draws(k, n) && j' in Range(n + 1) && d' + [j'] == d + [j];
      assert d' == (d' + [j'])[..|d'|] && d == (d + [j])[..|d|];
      assert j' == (d' + [j'])[|d'|] && j == (d + [j])[|d|];
    }
  }

  /** Splitting a draw sequence into the draws before item n and the one made for it. */
  lemma DrawsSplit(k: nat, n: nat, draws: seq<nat>) returns (d: seq<nat>, j: nat)
    requires 0 < k < n && draws in Draws(k, n)
    ensures d in Draws(k, n - 1) && j < n && draws == d + [j]
    ensures Positions(k, n, draws) == Updated(k, n - 1, Positions(k, n - 1, d), n - 1, j)
  {
    d, j :| d in Draws(k, n - 1) && j in Range(n) && draws == d + [j];
    assert draws[..|draws| - 1] == d;
  }

  /** Distinct numbers below m. */
  ghost predicate DistinctBelow(s: seq<nat>, m: nat) {
    Distinct(s) && forall p :: p in s ==> p < m
  }

  lemma UpdatedPosition(k: nat, before: seq<nat>, m: nat, j: nat)
    requires k > 0 && |before| <= k && DistinctBelow(before, m)
    ensures |Updated(k, m, before, m, j)| == if |before| < k then |before| + 1 else k
    ensures DistinctBelow(Updated(k, m, before, m, j), m + 1)
  {
    var after := Updated(k, m, before, m, j);
    forall i | 0 <= i < |after|
      ensures after[i] <= m
    {
      assert after[i] == m || (i < |before| && after[i] == before[i]);
      if after[i] != m {
        assert before[i] in before;
      }
    }
    forall i, i' | 0 <= i < i' < |after|
      ensures after[i] != after[i']
    {
      if i < |before| {
        assert before[i] in before;
      }
      if i' < |before| {
        assert before[i'] in before;
      }
    }
  }

  lemma {:induction false} PositionsBelow(k: nat, n: nat, draws: seq<nat>)
    requires draws in Draws(k, n)
    ensures |Positions(k, n, draws)| == if n < k then n else k
    ensures DistinctBelow(Positions(k, n, draws), n)
  {
    if n == 0 || k == 0 {
    } else if n <= k {
      PositionsBelow(k, n - 1, draws);
      UpdatedPosition(k, Positions(k, n - 1, draws), n - 1, k);
    } else {
      var d, j := DrawsSplit(k, n, draws);
      PositionsBelow(k, n - 1, d);
      UpdatedPosition(k, Positions(k, n - 1, d), n - 1, j);
    }
  }

  /** The buffer holds min(k, n) values, taken from distinct stream positions. */
  lemma PositionsShape(k: nat, n: nat, draws: seq<nat>)
    requires draws in Draws(k, n)
    ensures |Positions(k, n, draws)| == if n < k then n else k
    ensures Distinct(Positions(k, n, draws))
    ensures forall p :: p in Positions(k, n, draws) ==> p < n
  {
    PositionsBelow(k, n, draws);
  }

  lemma {:induction false} FillingPhase(k: nat, n: nat)
    requires n <= k
    ensures Positions(k, n, []) == seq(n, i => i)
  {
    if n > 0 {
      FillingPhase(k, n - 1);
    }
  }

  // ---------------------------------------------------------------- counting outcomes

  /** The draw sequences of ds, each extended by one of its admissible next draws. */
  ghost function Extend(ds: set<seq<nat>>, next: seq<nat> -> set<nat>): set<seq<nat>> {
    set d, j | d in ds && j in next(d) :: d + [j]
  }

  lemma AppendInjective(d: seq<nat>, j: nat, d': seq<nat>, j': nat)
    requires d + [j] == d' + [j']
    ensures d == d' && j == j'
  {
    assert d == (d + [j])[..|d|] && d' == (d' + [j'])[..|d'|];
    assert j == (d + [j])[|d|];
  }

  ghost function Appended(d: seq<nat>, js: set<nat>): set<seq<nat>> {
    set j | j in js :: d + [j]
  }

  lemma AppendedSize(d: seq<nat>, js: set<nat>)
    ensures |Appended(d, js)| == |js|
  {
    var g := j => d + [j];
    forall j, j' | j in js && j' in js && j != j'
      ensures g(j) != g(j')
    {
      if g(j) == g(j') {
        AppendInjective(d, j, d, j');
      }
    }
    ImageSize(js, g);
    assert Appended(d, js) == Image(js, g);
  }

  lemma ExtendSize(ds: set<seq<nat>>, next: seq<nat> -> set<nat>, q: nat)
    requires forall d :: d in ds ==> |next(d)| == q
    ensures |Extend(ds, next)| == |ds| * q
  {
    var f := d => Appended(d, next(d));
    forall d | d in ds
      ensures |f(d)| == q
    {
      AppendedSize(d, next(d));
    }
    forall d, d' | d in ds && d' in ds && d != d'
      ensures f(d) !! f(d')
    {
      forall e | e in f(d) && e in f(d')
        ensures false
      {
        var j :| j in next(d) && e == d + [j];
        var j' :| j' in next(d') && e == d' + [j'];
        AppendInjective(d, j, d', j');
      }
    }
    FibresSize(ds, f, q);
    forall d, j | d in ds && j in next(d)
      ensures d + [j] in Fibres(ds, f)
    {
      assert d + [j] in f(d);
    }
    assert Extend(ds, next) == Fibres(ds, f);
  }

  lemma PositionsStep(k: nat, m: nat, d: seq<nat>, j: nat)
    requires 0 < k <= m && d in Draws(k, m) && j <= m
    ensures d + [j] in Draws(k, m + 1)
    ensures Positions(k, m + 1, d + [j]) == Updated(k, m, Positions(k, m, d), m, j)
  {
    DrawsStep(k, m, d, j);
    assert (d + [j])[..|d + [j]| - 1] == d;
  }

  /** Counting a set of outcomes: base are its outcomes before the last item, next(d) its draws for that item. */
  lemma OutcomesSize(k: nat, m: nat, outcomes: set<seq<nat>>, base: set<seq<nat>>, next: seq<nat> -> set<nat>, q: nat)
    requires 0 < k <= m && outcomes <= Draws(k, m + 1) && base <= Draws(k, m)
    requires forall d :: d in base ==> next(d) <= Range(m + 1) && |next(d)| == q
    requires forall d, j :: d in Draws(k, m) && j in Range(m + 1) ==>
               (d + [j] in outcomes <==> d in base && j in next(d))
    ensures |outcomes| == |base| * q
  {
    ExtendSize(base, next, q);
    OutcomesExtend(k, m, outcomes, base, next);
  }

  lemma OutcomesExtend(k: nat, m: nat, outcomes: set<seq<nat>>, base: set<seq<nat>>, next: seq<nat> -> set<nat>)
    requires 0 < k <= m && outcomes <= Draws(k, m + 1) && base <= Draws(k, m)
    requires forall d :: d in base ==> next(d) <= Range(m + 1)
    requires forall d, j :: d in Draws(k, m) && j in Range(m + 1) ==>
               (d + [j] in outcomes <==> d in base && j in next(d))
    ensures outcomes == Extend(base, next)
  {
    forall e | e in outcomes
      ensures e in Extend(base, next)
    {
      var d, j := DrawsSplit(k, m + 1, e);
      assert d in base && j in next(d);
    }
    forall d, j | d in base && j in next(d)
      ensures d + [j] in outcomes
    {
    }
  }

  lemma DrawsRecurrence(k: nat, n: nat)
    requires 0 < k < n
    ensures |Draws(k, n)| == |Draws(k, n - 1)| * n
  {
    var next := (d: seq<nat>) => Range(n);
    RangeSize(n);
    ExtendSize(Draws(k, n - 1), next, n);
    assert Draws(k, n) == Extend(Draws(k, n - 1), next);
  }

  /** There are (k+1) * ... * n == n!/k! equally likely draw sequences. */
  lemma {:induction false} DrawsCount(k: nat, n: nat)
    requires 0 < k <= n
    ensures |Draws(k, n)| * Factorial(k) == Factorial(n)
  {
    if n > k {
      DrawsRecurrence(k, n);
      DrawsCount(k, n - 1);
      Scale(|Draws(k, n - 1)|, Factorial(k), Factorial(n - 1), n);
    }
  }

  lemma Scale(t: nat, f: nat, g: nat, n: nat)
    requires t * f == g
    ensures t * n * f == n * g && n * t * f == n * g
  {
    assert t * n * f == n * (t * f);
  }

  // ---------------------------------------------------------------- every position is equally likely

  /** Outcomes in which stream position p is still in the buffer after n items. */
  ghost function Keeping(k: nat, n: nat, p: nat): set<seq<nat>> {
    set d | d in Draws(k, n) && p in Positions(k, n, d)
  }

  /** The last item survives exactly when its draw is below k. */
  lemma KeepingLast(k: nat, m: nat)
    requires 0 < k <= m
    ensures |Keeping(k, m + 1, m)| == |Draws(k, m)| * k
  {
    var next := (d: seq<nat>) => Range(k);
    RangeSize(k);
    forall d, j | d in Draws(k, m) && j in Range(m + 1)
      ensures d + [j] in Keeping(k, m + 1, m) <==> j in next(d)
    {
      PositionsStep(k, m, d, j);
      PositionsShape(k, m, d);
      if j < k {
        assert Positions(k, m + 1, d + [j])[j] == m;
      }
    }
    OutcomesSize(k, m, Keeping(k, m + 1, m), Draws(k, m), next, k);
  }

  /** The draws among [0, n) that do not overwrite the slot holding p. */
  ghost function Sparing(n: nat, before: seq<nat>, p: nat): set<nat> {
    set j | j in Range(n) && !(j < |before| && before[j] == p)
  }

  lemma SparingSize(n: nat, before: seq<nat>, p: nat)
    requires |before| < n && Distinct(before) && p in before
    ensures |Sparing(n, before, p)| == n - 1
  {
    var i :| 0 <= i < |before| && before[i] == p;
    assert Sparing(n, before, p) == Range(n) - {i};
    RangeSize(n);
  }

  lemma SparingKeeps(k: nat, m: nat, before: seq<nat>, p: nat, j: nat)
    requires k > 0 && |before| == k && Distinct(before) && p < m && j <= m
    ensures p in Updated(k, m, before, m, j) <==> p in before && j in Sparing(m + 1, before, p)
  {
    var after := Updated(k, m, before, m, j);
    if p in before && j in Sparing(m + 1, before, p) {
      var i :| 0 <= i < k && before[i] == p;
      assert after[i] == p;
    }
    if p in after {
      var i :| 0 <= i < k && after[i] == p;
      assert before[i] == p;
    }
  }

  lemma KeepingStep(k: nat, m: nat, p: nat, d: seq<nat>, j: nat)
    requires 0 < k <= m && p < m && d in Draws(k, m) && j <= m
    ensures d + [j] in Keeping(k, m + 1, p) <==> d in Keeping(k, m, p) && j in Sparing(m + 1, Positions(k, m, d), p)
  {
    PositionsStep(k, m, d, j);
    PositionsShape(k, m, d);
    SparingKeeps(k, m, Positions(k, m, d), p, j);
  }

  lemma KeepingSize(k: nat, m: nat, p: nat, d: seq<nat>)
    requires 0 < k <= m && d in Keeping(k, m, p)
    ensures Sparing(m + 1, Positions(k, m, d), p) <= Range(m + 1)
    ensures |Sparing(m + 1, Positions(k, m, d), p)| == m
  {
    PositionsShape(k, m, d);
    SparingSize(m + 1, Positions(k, m, d), p);
  }

  /** An earlier position survives exactly when it was held and the draw does not hit its slot. */
  lemma KeepingEarlier(k: nat, m: nat, p: nat)
    requires 0 < k <= m && p < m
    ensures |Keeping(k, m + 1, p)| == |Keeping(k, m, p)| * m
  {
    var base := Keeping(k, m, p);
    var next := (d: seq<nat>) => Sparing(m + 1, Positions(k, m, d), p);
    forall d | d in base
      ensures next(d) <= Range(m + 1) && |next(d)| == m
    {
      KeepingSize(k, m, p, d);
    }
    forall d, j | d in Draws(k, m) && j in Range(m + 1)
      ensures d + [j] in Keeping(k, m + 1, p) <==> d in base && j in next(d)
    {
      KeepingStep(k, m, p, d, j);
    }
    OutcomesSize(k, m, Keeping(k, m + 1, p), base, next, m);
  }

  lemma InclusionWhenFull(k: nat, p: nat)
    requires 0 < k && p < k
    ensures Keeping(k, k, p) == Draws(k, k)
  {
    FillingPhase(k, k);
    assert Positions(k, k, [])[p] == p;
  }

  /** Every stream position survives in S of the T outcomes with n * S == k * T. */
  lemma {:induction false} UniformInclusion(k: nat, n: nat, p: nat)
    requires 0 < k <= n && p < n
    ensures n * |Keeping(k, n, p)| == k * |Draws(k, n)|
  {
    if n == k {
      InclusionWhenFull(k, p);
    } else {
      DrawsRecurrence(k, n);
      var t, s := |Draws(k, n - 1)|, |Keeping(k, n, p)|;
      if p == n - 1 {
        KeepingLast(k, n - 1);
        InclusionArithmetic(n, k, t, s, 0);
      } else {
        UniformInclusion(k, n - 1, p);
        KeepingEarlier(k, n - 1, p);
        InclusionArithmetic(n, k, t, s, |Keeping(k, n - 1, p)|);
      }
    }
  }

  lemma InclusionArithmetic(n: nat, k: nat, t: nat, s: nat, s': nat)
    requires n > 0
    requires s == t * k || ((n - 1) * s' == k * t && s == s' * (n - 1))
    ensures n * s == k * (t * n)
  {
    assert s == k * t;
    assert n * (k * t) == k * (t * n);
  }

  // ---------------------------------------------------------------- every k-subset is equally likely

  function SetOf<T>(s: seq<T>): set<T> {
    set x | x in s
  }

  lemma {:induction false} SetOfSize<T>(s: seq<T>)
    requires Distinct(s)
    ensures |SetOf(s)| == |s|
  {
    if |s| > 0 {
      var rest := s[..|s| - 1];
      SetOfSize(rest);
      assert s == rest + [s[|s| - 1]];
      assert SetOf(s) == SetOf(rest) + {s[|s| - 1]};
    }
  }

  /** Outcomes whose final buffer holds exactly the positions in b. */
  ghost function Yielding(k: nat, n: nat, b: set<nat>): set<seq<nat>> {
    set d | d in Draws(k, n) && SetOf(Positions(k, n, d)) == b
  }

  lemma YieldingWithoutLastStep(k: nat, m: nat, b: set<nat>, d: seq<nat>, j: nat)
    requires 0 < k <= m && m !in b && d in Draws(k, m) && j <= m
    ensures d + [j] in Yielding(k, m + 1, b) <==> d in Yielding(k, m, b) && j in NotBelow(k, m + 1)
  {
    PositionsStep(k, m, d, j);
    PositionsShape(k, m, d);
    if j < k {
      assert Positions(k, m + 1, d + [j])[j] == m;
      assert m in SetOf(Positions(k, m + 1, d + [j]));
    }
  }

  /** When b lacks the last position: it was the content before, and the last draw was k or more. */
  lemma YieldingWithoutLast(k: nat, m: nat, b: set<nat>, q: nat)
    requires 0 < k <= m && m !in b && q == m + 1 - k
    ensures |Yielding(k, m + 1, b)| == |Yielding(k, m, b)| * q
  {
    var base := Yielding(k, m, b);
    var next := (d: seq<nat>) => NotBelow(k, m + 1);
    NotBelowSize(k, m + 1);
    forall d | d in base
      ensures next(d) <= Range(m + 1) && |next(d)| == q
    {
    }
    forall d, j | d in Draws(k, m) && j in Range(m + 1)
      ensures d + [j] in Yielding(k, m + 1, b) <==> d in base && j in next(d)
    {
      YieldingWithoutLastStep(k, m, b, d, j);
    }
    OutcomesSize(k, m, Yielding(k, m + 1, b), base, next, q);
  }

  ghost function NotBelow(k: nat, n: nat): set<nat> {
    set j | j in Range(n) && j >= k
  }

  lemma NotBelowSize(k: nat, n: nat)
    requires k <= n
    ensures |NotBelow(k, n)| == n - k
  {
    RangeSize(n);
    RangeSize(k);
    assert NotBelow(k, n) == Range(n) - Range(k);
    assert Range(k) <= Range(n);
  }

  /** Outcomes before the last item whose buffer contains all of c. */
  ghost function Covering(k: nat, n: nat, c: set<nat>): set<seq<nat>> {
    set d | d in Draws(k, n) && c <= SetOf(Positions(k, n, d))
  }

  /** Slots of the buffer holding something outside c. */
  ghost function Outside(before: seq<nat>, c: set<nat>): set<nat> {
    set j: nat | j in Range(|before|) && before[j] !in c
  }

  lemma OutsideSingle(before: seq<nat>, c: set<nat>) returns (x: nat, i: nat)
    requires Distinct(before) && c <= SetOf(before) && |c| == |before| - 1
    ensures i < |before| && before[i] == x && x !in c && SetOf(before) == c + {x}
    ensures Outside(before, c) == {i}
  {
    SetOfSize(before);
    var extra := SetOf(before) - c;
    assert |extra| == 1;
    x :| x in extra;
    assert extra == {x} by {
      assert |extra - {x}| == 0;
    }
    assert SetOf(before) == c + {x};
    i :| 0 <= i < |before| && before[i] == x;
    forall j | 0 <= j < |before| && j != i
      ensures before[j] in c
    {
      assert before[j] in SetOf(before) && before[j] != x;
    }
    assert Outside(before, c) == {i};
  }

  /** Overwriting slot j trades its value for m. */
  lemma OverwrittenSet(before: seq<nat>, m: nat, j: nat)
    requires Distinct(before) && j < |before|
    ensures SetOf(before[j := m]) == SetOf(before) - {before[j]} + {m}
  {
    var after := before[j := m];
    forall y
      ensures y in SetOf(after) <==> y == m || (y in SetOf(before) && y != before[j])
    {
      if y in SetOf(after) {
        var i :| 0 <= i < |after| && after[i] == y;
        assert y == m || before[i] == y;
      }
      if y in SetOf(before) && y != before[j] {
        var i :| 0 <= i < |before| && before[i] == y;
        assert after[i] == y;
      }
      assert after[j] == m;
    }
  }

  /** The set of buffer values b, with value v traded for m, is c + {m}. */
  lemma TradeYields(b: set<nat>, v: nat, m: nat, c: set<nat>)
    requires v in b && m !in b && m !in c && |c| == |b| - 1
    ensures b - {v} + {m} == c + {m} <==> c <= b && v !in c
  {
    if c <= b && v !in c {
      SubsetOfSize(c, b - {v});
    }
    if b - {v} + {m} == c + {m} {
      assert c == c + {m} - {m};
      assert b - {v} == b - {v} + {m} - {m};
    }
  }

  lemma SubsetOfSize(a: set<nat>, b: set<nat>)
    requires a <= b && |a| == |b|
    ensures a == b
  {
    assert |b - a| == 0;
  }

  /** Writing m into slot j gives c + {m} exactly when the buffer covers c and slot j lies outside c. */
  lemma OverwriteYields(k: nat, m: nat, before: seq<nat>, c: set<nat>, j: nat)
    requires k > 0 && |before| == k && Distinct(before) && j <= m
    requires (forall p :: p in before ==> p < m) && (forall p :: p in c ==> p < m) && |c| == k - 1
    ensures SetOf(Updated(k, m, before, m, j)) == c + {m}
       <==> c <= SetOf(before) && j in Outside(before, c)
  {
    SetOfSize(before);
    assert m !in SetOf(before) && m !in c;
    if j < k {
      OverwrittenSet(before, m, j);
      TradeYields(SetOf(before), before[j], m, c);
    } else {
      assert m in c + {m};
    }
  }

  lemma YieldingWithLastStep(k: nat, m: nat, c: set<nat>, d: seq<nat>, j: nat)
    requires 0 < k <= m && c <= Range(m) && |c| == k - 1 && d in Draws(k, m) && j <= m
    ensures d + [j] in Yielding(k, m + 1, c + {m})
       <==> d in Covering(k, m, c) && j in Outside(Positions(k, m, d), c)
  {
    PositionsStep(k, m, d, j);
    PositionsShape(k, m, d);
    OverwriteYields(k, m, Positions(k, m, d), c, j);
  }

  lemma CoveringOutside(k: nat, n: nat, c: set<nat>, d: seq<nat>)
    requires 0 < k <= n && |c| == k - 1 && d in Covering(k, n, c)
    ensures |Outside(Positions(k, n, d), c)| == 1 && Outside(Positions(k, n, d), c) <= Range(n + 1)
    ensures exists x :: x in Range(n) - c && d in Yielding(k, n, c + {x})
  {
    PositionsShape(k, n, d);
    var x, i := OutsideSingle(Positions(k, n, d), c);
    assert x in Range(n) - c;
  }

  /** When b has the last position, the rest of b was covered and the one other slot was overwritten. */
  lemma YieldingWithLast(k: nat, m: nat, c: set<nat>)
    requires 0 < k <= m && c <= Range(m) && |c| == k - 1
    ensures |Yielding(k, m + 1, c + {m})| == |Covering(k, m, c)|
  {
    var base := Covering(k, m, c);
    var next := (d: seq<nat>) => Outside(Positions(k, m, d), c);
    forall d | d in base
      ensures next(d) <= Range(m + 1) && |next(d)| == 1
    {
      CoveringOutside(k, m, c, d);
    }
    forall d, j | d in Draws(k, m) && j in Range(m + 1)
      ensures d + [j] in Yielding(k, m + 1, c + {m}) <==> d in base && j in next(d)
    {
      YieldingWithLastStep(k, m, c, d, j);
    }
    OutcomesSize(k, m, Yielding(k, m + 1, c + {m}), base, next, 1);
  }

  /** All k-subsets of the first n positions share the same number q of outcomes. */
  ghost predicate Fair(k: nat, n: nat, q: nat) {
    forall b :: b in KSubsets(Range(n), k) ==> |Yielding(k, n, b)| == q
  }

  lemma OthersSize(n: nat, c: set<nat>)
    requires c <= Range(n)
    ensures |Range(n) - c| == n - |c|
  {
    RangeSize(n);
  }

  /** The outcomes covering c split by the one other position in the buffer. */
  lemma CoveringSplits(k: nat, n: nat, c: set<nat>, q: nat)
    requires 0 < k <= n && c <= Range(n) && |c| == k - 1 && Fair(k, n, q)
    ensures |Covering(k, n, c)| == |Range(n) - c| * q
  {
    var f := (x: nat) => Yielding(k, n, c + {x});
    var others := Range(n) - c;
    forall x | x in others
      ensures |f(x)| == q
    {
      assert c + {x} in KSubsets(Range(n), k);
    }
    forall x, x' | x in others && x' in others && x != x'
      ensures f(x) !! f(x')
    {
      YieldingDisjoint(k, n, c, x, x');
    }
    CoveringFibres(k, n, c, f);
    FibresSize(others, f, q);
  }

  lemma YieldingDisjoint(k: nat, n: nat, c: set<nat>, x: nat, x': nat)
    requires x !in c && x' !in c && x != x'
    ensures Yielding(k, n, c + {x}) !! Yielding(k, n, c + {x'})
  {
    assert x in c + {x} && x !in c + {x'};
  }

  lemma CoveringFibres(k: nat, n: nat, c: set<nat>, f: nat -> set<seq<nat>>)
    requires 0 < k <= n && c <= Range(n) && |c| == k - 1
    requires forall x :: x in Range(n) - c ==> f(x) == Yielding(k, n, c + {x})
    ensures Covering(k, n, c) == Fibres(Range(n) - c, f)
  {
    forall d | d in Covering(k, n, c)
      ensures d in Fibres(Range(n) - c, f)
    {
      CoveringOutside(k, n, c, d);
      var x :| x in Range(n) - c && d in Yielding(k, n, c + {x});
      assert d in f(x);
    }
  }

  lemma FullBuffer(k: nat, b: set<nat>)
    requires 0 < k && b in KSubsets(Range(k), k)
    ensures |Yielding(k, k, b)| == 1
  {
    RangeSize(k);
    FillingPhase(k, k);
    assert b == Range(k) by {
      assert |Range(k) - b| == 0;
    }
    var all := seq(k, i => i);
    assert SetOf(all) == b by {
      forall i | i in Range(k)
        ensures i in all
      {
        assert all[i] == i;
      }
    }
    assert Yielding(k, k, b) == {[]};
  }

  lemma FairStepWith(k: nat, m: nat, q: nat, c: set<nat>)
    requires 0 < k <= m && Fair(k, m, q) && c <= Range(m) && |c| == k - 1
    ensures |Yielding(k, m + 1, c + {m})| == (m - k + 1) * q
  {
    CoveringSplits(k, m, c, q);
    OthersSize(m, c);
    YieldingWithLast(k, m, c);
  }

  lemma FairStepWithout(k: nat, m: nat, q: nat, b: set<nat>)
    requires 0 < k <= m && Fair(k, m, q) && b <= Range(m) && |b| == k
    ensures |Yielding(k, m + 1, b)| == q * (m - k + 1)
  {
    assert b in KSubsets(Range(m), k);
    YieldingWithoutLast(k, m, b, m - k + 1);
  }

  lemma FairStep(k: nat, m: nat, q: nat, b: set<nat>)
    requires 0 < k <= m && Fair(k, m, q) && b in KSubsets(Range(m + 1), k)
    ensures |Yielding(k, m + 1, b)| == (m - k + 1) * q
  {
    if m in b {
      var c := b - {m};
      assert b == c + {m} && c <= Range(m);
      FairStepWith(k, m, q, c);
    } else {
      assert b <= Range(m);
      FairStepWithout(k, m, q, b);
    }
  }

  /** Each k-subset of the n stream positions is the final buffer content in exactly (n-k)! outcomes. */
  lemma {:induction false} SubsetOutcomes(k: nat, n: nat)
    requires 0 < k <= n
    ensures Fair(k, n, Factorial(n - k))
  {
    if n == k {
      forall b | b in KSubsets(Range(k), k)
        ensures |Yielding(k, k, b)| == 1
      {
        FullBuffer(k, b);
      }
    } else {
      SubsetOutcomes(k, n - 1);
      var q := Factorial(n - 1 - k);
      forall b | b in KSubsets(Range(n), k)
        ensures |Yielding(k, n, b)| == (n - k) * q
      {
        FairStep(k, n - 1, q, b);
      }
    }
  }

  /** Uniform sampling without replacement: all C(n,k) contents share the outcomes equally. */
  lemma UniformSubset(k: nat, n: nat, b: set<nat>)
    requires 0 < k <= n && b in KSubsets(Range(n), k)
    ensures |KSubsets(Range(n), k)| * |Yielding(k, n, b)| == |Draws(k, n)|
  {
    SubsetOutcomes(k, n);
    DrawsCount(k, n);
    KSubsetsCount(Range(n), k);
    RangeSize(n);
    ChooseFactorial(n, k);
    Cancel(Choose(n, k), Factorial(n - k), |Draws(k, n)|, Factorial(k));
  }

  lemma Cancel(c: nat, y: nat, t: nat, f: nat)
    requires f > 0 && c * f * y == t * f
    ensures c * y == t
  {
    assert c * f * y == c * y * f;
    assert (c * y - t) * f == 0;
  }
}
