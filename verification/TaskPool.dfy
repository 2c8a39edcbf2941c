/** The bounded task pool of processor.py: a lazy generator that shares the count map, a pool refilled as
    tasks complete in any order, and batched appends to the output file. */
module TaskPool {

  import opened Basics
  import opened Records

  function Count(s: seq<string>, idx: string): nat {
    if |s| == 0 then 0 else (if s[0] == idx then 1 else 0) + Count(s[1..], idx)
  }

  lemma {:induction false} CountIs(s: seq<string>, idx: string)
    ensures Count(s, idx) == multiset(s)[idx]
  {
    if |s| > 0 {
      CountIs(s[1..], idx);
      assert s == [s[0]] + s[1..];
    }
  }

  function Repeat(idx: string, n: nat): seq<string> {
    if n == 0 then [] else [idx] + Repeat(idx, n - 1)
  }

  lemma {:induction false} CountConcat(a: seq<string>, b: seq<string>, idx: string)
    ensures Count(a + b, idx) == Count(a, idx) + Count(b, idx)
  {
    if |a| == 0 {
      assert a + b == b;
    } else {
      CountConcat(a[1..], b, idx);
      assert (a + b)[1..] == a[1..] + b;
    }
  }

  lemma {:induction false} CountRepeat(x: string, n: nat, idx: string)
    ensures Count(Repeat(x, n), idx) == if x == idx then n else 0
  {
    if n > 0 {
      CountRepeat(x, n - 1, idx);
      assert Repeat(x, n)[1..] == Repeat(x, n - 1);
    }
  }

  // ---------------------------------------------------------------- the task generator

  /** Everything task_generator will yield for these samples, given the counts at that moment. Samples are
      their str(lenvm_idx); an empty index is skipped. */
  function Plan(samples: seq<string>, perQuestion: int, counts: Counts): seq<string> {
    if |samples| == 0 then []
    else if samples[0] == "" then Plan(samples[1..], perQuestion, counts)
    else
      var needed := Max(0, perQuestion - Get(counts, samples[0]));
      if needed == 0 then Plan(samples[1..], perQuestion, counts)
      else Repeat(samples[0], needed) + Plan(samples[1..], perQuestion, counts[samples[0] := perQuestion])
  }

  /** Each index is scheduled exactly max(0, perQuestion - existing) times, however often it is listed. */
  lemma {:induction false} PlanCount(samples: seq<string>, perQuestion: int, counts: Counts, idx: string)
    ensures Count(Plan(samples, perQuestion, counts), idx)
         == if idx in samples && idx != "" then Max(0, perQuestion - Get(counts, idx)) else 0
  {
    if |samples| > 0 {
      var s, rest := samples[0], samples[1..];
      assert idx in samples <==> idx == s || idx in rest;
      var needed := Max(0, perQuestion - Get(counts, s));
      if s == "" || needed == 0 {
        PlanCount(rest, perQuestion, counts, idx);
      } else {
        var counts' := counts[s := perQuestion];
        PlanCount(rest, perQuestion, counts', idx);
        CountConcat(Repeat(s, needed), Plan(rest, perQuestion, counts'), idx);
        CountRepeat(s, needed, idx);
      }
    }
  }

  /** Some sample with the index of x comes before every sample with that of y. */
  ghost predicate NotAfter(samples: seq<string>, x: string, y: string) {
    x == y || exists p :: 0 <= p < |samples| && samples[p] == x && y !in samples[..p]
  }

  /** The plan follows the order in which the indices first appear among the samples. */
  ghost predicate InSampleOrder(plan: seq<string>, samples: seq<string>) {
    forall i, j :: 0 <= i < j < |plan| ==> NotAfter(samples, plan[i], plan[j])
  }

  lemma InPlan(samples: seq<string>, perQuestion: int, counts: Counts, idx: string)
    requires idx in Plan(samples, perQuestion, counts)
    ensures idx in samples && idx != "" && perQuestion > Get(counts, idx)
  {
    PlanCount(samples, perQuestion, counts, idx);
    CountIs(Plan(samples, perQuestion, counts), idx);
    assert idx in multiset(Plan(samples, perQuestion, counts));
  }

  lemma NotAfterLater(s: string, rest: seq<string>, x: string, y: string)
    requires NotAfter(rest, x, y) && y != s
    ensures NotAfter([s] + rest, x, y)
  {
    if x != y {
      var p :| 0 <= p < |rest| && rest[p] == x && y !in rest[..p];
      assert ([s] + rest)[p + 1] == x;
      assert ([s] + rest)[..p + 1] == [s] + rest[..p];
    }
  }

  lemma {:induction false} RepeatOnly(idx: string, n: nat)
    ensures |Repeat(idx, n)| == n && forall i :: 0 <= i < n ==> Repeat(idx, n)[i] == idx
  {
    if n > 0 {
      RepeatOnly(idx, n - 1);
    }
  }

  lemma {:induction false} OrderLater(s: string, rest: seq<string>, plan: seq<string>, n: nat)
    requires InSampleOrder(plan, rest) && forall y :: y in plan ==> y != s
    ensures InSampleOrder(Repeat(s, n) + plan, [s] + rest)
  {
    var all := Repeat(s, n) + plan;
    RepeatOnly(s, n);
    forall i, j | 0 <= i < j < |all|
      ensures NotAfter([s] + rest, all[i], all[j])
    {
      if i < n {
        assert ([s] + rest)[0] == s && ([s] + rest)[..0] == [];
      } else {
        assert all[i] == plan[i - n] && all[j] == plan[j - n];
        assert plan[j - n] in plan;
        NotAfterLater(s, rest, all[i], all[j]);
      }
    }
  }

  /** The tasks of one index follow each other, and the indices come in the order of the samples. */
  lemma {:induction false} PlanInOrder(samples: seq<string>, perQuestion: int, counts: Counts)
    ensures InSampleOrder(Plan(samples, perQuestion, counts), samples)
  {
    if |samples| > 0 {
      var s, rest := samples[0], samples[1..];
      var needed := if s == "" then 0 else Max(0, perQuestion - Get(counts, s));
      var counts' := if needed == 0 then counts else counts[s := perQuestion];
      var plan := Plan(rest, perQuestion, counts');
      PlanInOrder(rest, perQuestion, counts');
      forall y | y in plan
        ensures y != s
      {
        InPlan(rest, perQuestion, counts', y);
      }
      OrderLater(s, rest, plan, needed);
      assert samples == [s] + rest;
      assert Repeat(s, 0) + plan == plan;
    }
  }

  /** What the plan from sample `pos` on starts with. */
  lemma PlanAt(samples: seq<string>, pos: nat, perQuestion: int, counts: Counts)
    requires pos < |samples|
    ensures var idx, needed := samples[pos], perQuestion - Get(counts, samples[pos]);
            Plan(samples[pos..], perQuestion, counts) ==
              if idx == "" || needed <= 0 then Plan(samples[pos + 1..], perQuestion, counts)
              else [idx] + (Repeat(idx, needed - 1) + Plan(samples[pos + 1..], perQuestion, counts[idx := perQuestion]))
  {
    assert samples[pos..][1..] == samples[pos + 1..];
  }

  /** Adding the count of a yield that is resumed. */
  lemma Resumed(counts: Counts, idx: string, left: nat, perQuestion: int)
    requires Get(counts, idx) + 1 + left == perQuestion
    ensures var after := counts[idx := Get(counts, idx) + 1];
            && after[idx := perQuestion] == counts[idx := perQuestion]
            && (left == 0 ==> after == counts[idx := perQuestion])
            && forall i :: Get(after, i) == Get(counts, i) + if i == idx then 1 else 0
  {
  }

  /** What is left to yield for a sample, and after it. */
  lemma RepeatAt(idx: string, left: nat, rest: seq<string>)
    ensures Repeat(idx, left) + rest == if left == 0 then rest else [idx] + (Repeat(idx, left - 1) + rest)
  {
  }

  /** The first sample from `pos` on with an index and rows still to make; |samples| when there is none. */
  method NextNeeding(samples: seq<string>, pos: nat, perQuestion: int, counts: Counts) returns (p: nat)
    requires pos <= |samples|
    ensures pos <= p <= |samples|
    ensures Plan(samples[p..], perQuestion, counts) == Plan(samples[pos..], perQuestion, counts)
    ensures p < |samples| ==> samples[p] != "" && perQuestion > Get(counts, samples[p])
  {
    p := pos;
    while p < |samples| && (samples[p] == "" || Max(0, perQuestion - Get(counts, samples[p])) == 0)
      invariant pos <= p <= |samples|
      invariant Plan(samples[p..], perQuestion, counts) == Plan(samples[pos..], perQuestion, counts)
    {
      PlanAt(samples, p, perQuestion, counts);
      p := p + 1;
    }
  }

  class TaskGenerator {
    const samples: seq<string>
    const perQuestion: int
    var counts: Counts    // existing_counts, shared with the caller
    var pos: nat          // the current sample
    var left: nat         // yields still to come in its inner loop
    var suspended: bool   // stopped at a yield, whose count is added on resumption

    ghost predicate Valid()
      reads this
    {
      && pos <= |samples|
      && (suspended ==> pos < |samples| && samples[pos] != "" && Get(counts, samples[pos]) + 1 + left == perQuestion)
    }

    /** What Next is still going to yield. */
    ghost function Remaining(): seq<string>
      requires Valid()
      reads this
    {
      if suspended then
        Repeat(samples[pos], left) + Plan(samples[pos + 1..], perQuestion, counts[samples[pos] := perQuestion])
      else Plan(samples[pos..], perQuestion, counts)
    }

    /** The count map once the pending yield is resumed. */
    ghost function Credited(idx: string): int
      reads this
    {
      Get(counts, idx) + if suspended && pos < |samples| && samples[pos] == idx then 1 else 0
    }

    constructor (samples: seq<string>, perQuestion: int, existing: Counts)
      ensures Valid() && Remaining() == Plan(samples, perQuestion, existing)
      ensures counts == existing && !suspended && this.samples == samples && this.perQuestion == perQuestion
    {
      this.samples := samples;
      this.perQuestion := perQuestion;
      counts := existing;
      pos, left, suspended := 0, 0, false;
      new;
      assert samples[0..] == samples;
    }

    /** Resuming after a yield: the count is added now, and the inner loop either yields again or ends. */
    method Resume() returns (r: Option<string>)
      requires Valid() && suspended
      modifies this`counts, this`left, this`suspended, this`pos
      ensures Valid()
      ensures r.None? ==> !suspended && Remaining() == old(Remaining())
      ensures r.Some? ==> old(Remaining()) == [r.value] + Remaining()
      ensures forall idx :: Credited(idx) == old(Credited(idx)) + if r == Some(idx) then 1 else 0
    {
      var idx := samples[pos];
      ghost var rest := Plan(samples[pos + 1..], perQuestion, counts[idx := perQuestion]);
      RepeatAt(idx, left, rest);
      Resumed(counts, idx, left, perQuestion);
      counts := counts[idx := Get(counts, idx) + 1];
      assert Plan(samples[pos + 1..], perQuestion, counts[idx := perQuestion]) == rest;
      if left > 0 {
        left := left - 1;
        r := Some(idx);
      } else {
        assert counts == counts[idx := perQuestion];
        suspended, pos := false, pos + 1;
        r := None;
      }
    }

    /** Scanning on for the next sample that still needs work. */
    method Advance() returns (r: Option<string>)
      requires Valid() && !suspended
      modifies this`left, this`suspended, this`pos
      ensures Valid()
      ensures r.None? ==> old(Remaining()) == [] && Remaining() == [] && !suspended
      ensures r.Some? ==> old(Remaining()) == [r.value] + Remaining()
      ensures forall idx :: Credited(idx) == old(Credited(idx)) + if r == Some(idx) then 1 else 0
    {
      pos := NextNeeding(samples, pos, perQuestion, counts);
      if pos == |samples| {
        assert samples[pos..] == [];
        return None;
      }
      PlanAt(samples, pos, perQuestion, counts);
      left := perQuestion - Get(counts, samples[pos]) - 1;
      suspended := true;
      r := Some(samples[pos]);
    }

    /** next(task_gen): None is StopIteration. */
    method Next() returns (r: Option<string>)
      requires Valid()
      modifies this
      ensures Valid()
      ensures r.None? ==> old(Remaining()) == [] && Remaining() == [] && !suspended
      ensures r.Some? ==> old(Remaining()) == [r.value] + Remaining()
      ensures forall idx :: Credited(idx) == old(Credited(idx)) + if r == Some(idx) then 1 else 0
    {
      if suspended {
        r := Resume();
        if r.Some? {
          return;
        }
      }
      r := Advance();
    }
  }

  // ---------------------------------------------------------------- the pool

  /** A scheduled generation request; id tells apart requests for the same index. */
  datatype Task = Task(id: nat, idx: string)

  /** What a task came back with: a row of its own index, or None after a final failure. */
  datatype Outcome = Outcome(idx: string, payload: Option<int>)

  function IdxCount(outcomes: seq<Outcome>, idx: string): nat {
    if |outcomes| == 0 then 0
    else IdxCount(outcomes[..|outcomes| - 1], idx) + if outcomes[|outcomes| - 1].idx == idx then 1 else 0
  }

  /** The rows of the successful outcomes, in completion order. */
  function Rows(outcomes: seq<Outcome>): seq<Line> {
    if |outcomes| == 0 then []
    else
      var o := outcomes[|outcomes| - 1];
      Rows(outcomes[..|outcomes| - 1]) + if o.payload.Some? then [Record(o.idx, o.payload.value)] else []
  }

  /** One row for every outcome with a payload: its index and that payload. */
  lemma {:induction false} RowsAre(outcomes: seq<Outcome>)
    ensures var done := Filter(outcomes, (o: Outcome) => o.payload != None);
            && |Rows(outcomes)| == |done|
            && forall i :: 0 <= i < |done| ==>
                 done[i].payload != None && Rows(outcomes)[i] == Record(done[i].idx, done[i].payload.value)
  {
    if |outcomes| > 0 {
      RowsAre(outcomes[..|outcomes| - 1]);
    }
  }

  lemma {:induction false} IdxCountIs(outcomes: seq<Outcome>, idx: string)
    ensures IdxCount(outcomes, idx) == |Where(outcomes, (o: Outcome) => o.idx == idx)|
  {
    if |outcomes| > 0 {
      IdxCountIs(outcomes[..|outcomes| - 1], idx);
      WhereLast(outcomes, (o: Outcome) => o.idx == idx);
    }
  }

  ghost function WithIdx(tasks: set<Task>, idx: string): set<Task> {
    set t | t in tasks && t.idx == idx
  }

  class OutputFile {
    var lines: seq<Line>

    constructor (lines: seq<Line>)
      ensures this.lines == lines
    {
      this.lines := lines;
    }

    /** save_batch, with writes that succeed; the process may be killed between two lines. */
    method SaveBatch(batch: seq<Line>) returns (alive: bool)
      modifies this
      ensures old(lines) <= lines <= old(lines) + batch
      ensures alive ==> lines == old(lines) + batch
    {
      alive := true;
      for i := 0 to |batch|
        invariant alive && lines == old(lines) + batch[..i]
      {
        alive := *;
        if !alive {
          return;
        }
        assert batch[..i + 1] == batch[..i] + [batch[i]];
        lines := lines + [batch[i]];
      }
    }
  }

  /** Every task made so far is recorded, still in the pool, or among the finished ones not yet handled. */
  ghost predicate Accounted(scheduled: seq<string>, outcomes: seq<Outcome>, pending: set<Task>, open: set<Task>) {
    forall idx {:trigger Count(scheduled, idx)} ::
      Count(scheduled, idx) == IdxCount(outcomes, idx) + |WithIdx(pending, idx)| + |WithIdx(open, idx)|
  }

  lemma AccountedSchedule(scheduled: seq<string>, outcomes: seq<Outcome>, pending: set<Task>, open: set<Task>, t: Task)
    requires Accounted(scheduled, outcomes, pending, open) && t !in pending
    ensures Accounted(scheduled + [t.idx], outcomes, pending + {t}, open)
  {
    forall idx
      ensures Count(scheduled + [t.idx], idx) ==
                IdxCount(outcomes, idx) + |WithIdx(pending + {t}, idx)| + |WithIdx(open, idx)|
    {
      CountConcat(scheduled, [t.idx], idx);
      WithIdxAdd(pending, t, idx);
    }
  }

  lemma WithIdxAdd(open: set<Task>, t: Task, idx: string)
    requires t !in open
    ensures |WithIdx(open + {t}, idx)| == |WithIdx(open, idx)| + if t.idx == idx then 1 else 0
  {
    if t.idx == idx {
      assert WithIdx(open + {t}, idx) == WithIdx(open, idx) + {t};
    } else {
      assert WithIdx(open + {t}, idx) == WithIdx(open, idx);
    }
  }

  lemma AccountedFinish(scheduled: seq<string>, outcomes: seq<Outcome>, pending: set<Task>, open: set<Task>, t: Task,
                        o: Outcome)
    requires Accounted(scheduled, outcomes, pending, open) && t in open && o.idx == t.idx
    ensures Accounted(scheduled, outcomes + [o], pending, open - {t})
  {
    forall idx
      ensures Count(scheduled, idx) ==
                IdxCount(outcomes + [o], idx) + |WithIdx(pending, idx)| + |WithIdx(open - {t}, idx)|
    {
      WithIdxAdd(open - {t}, t, idx);
      assert open - {t} + {t} == open;
      assert (outcomes + [o])[..|outcomes|] == outcomes;
    }
  }

  lemma AccountedSplit(scheduled: seq<string>, outcomes: seq<Outcome>, pending: set<Task>, done: set<Task>)
    requires Accounted(scheduled, outcomes, pending, {}) && done <= pending
    ensures Accounted(scheduled, outcomes, pending - done, done)
  {
    forall idx
      ensures Count(scheduled, idx) == IdxCount(outcomes, idx) + |WithIdx(pending - done, idx)| + |WithIdx(done, idx)|
    {
      assert WithIdx(pending, idx) == WithIdx(pending - done, idx) + WithIdx(done, idx);
      assert WithIdx({}, idx) == {};
    }
  }

  /** What happened in a run: tasks in creation order, outcomes in completion order, largest pool size. */
  datatype Report = Report(scheduled: seq<string>, outcomes: seq<Outcome>, peak: nat)

  /** The generator's half of a run's invariant: the plan is split into made and still to come, and the
      count map runs exactly as far behind as the pending yield. */
  ghost predicate OnPlan(gen: TaskGenerator, existing: Counts, scheduled: seq<string>)
    reads gen
  {
    && gen.Valid()
    && Plan(gen.samples, gen.perQuestion, existing) == scheduled + gen.Remaining()
    && forall idx :: gen.Credited(idx) == Get(existing, idx) + Count(scheduled, idx)
  }

  /** The pool's half: every task made is accounted for, the peak is no less than what is in the pool, and the next id
      is unused there. */
  ghost predicate Consistent(run: Report, pending: set<Task>, open: set<Task>, nextId: nat) {
    && Accounted(run.scheduled, run.outcomes, pending, open) && |pending| <= run.peak
    && forall t :: t in pending ==> t.id < nextId
  }

  lemma CountSnoc(s: seq<string>, x: string)
    ensures forall idx :: Count(s + [x], idx) == Count(s, idx) + if x == idx then 1 else 0
  {
    forall idx
      ensures Count(s + [x], idx) == Count(s, idx) + if x == idx then 1 else 0
    {
      CountConcat(s, [x], idx);
    }
  }

  method NextTask(gen: TaskGenerator, ghost existing: Counts, ghost scheduled: seq<string>) returns (r: Option<string>)
    requires OnPlan(gen, existing, scheduled)
    modifies gen
    ensures r.None? ==> OnPlan(gen, existing, scheduled) && gen.Remaining() == [] && !gen.suspended
    ensures r.None? ==> old(gen.Remaining()) == []
    ensures r.Some? ==> OnPlan(gen, existing, scheduled + [r.value]) && old(|gen.Remaining()|) == |gen.Remaining()| + 1
  {
    ghost var plan, coming := Plan(gen.samples, gen.perQuestion, existing), gen.Remaining();
    r := gen.Next();
    if r.Some? {
      ghost var still := gen.Remaining();
      assert plan == scheduled + [r.value] + still by {
        Reassociate(plan, scheduled, coming, r.value, still);
      }
      assert forall idx :: gen.Credited(idx) == Get(existing, idx) + Count(scheduled + [r.value], idx) by {
        CountSnoc(scheduled, r.value);
      }
    }
  }

  lemma Reassociate(plan: seq<string>, made: seq<string>, coming: seq<string>, x: string, still: seq<string>)
    requires plan == made + coming && coming == [x] + still
    ensures plan == made + [x] + still
  {
  }

  /** Up to `limit` times: ask the generator for a task and put it into the pool. */
  method Refill(gen: TaskGenerator, pending: set<Task>, nextId: nat, limit: int,
                ghost existing: Counts, ghost run: Report, ghost open: set<Task>)
    returns (pool: set<Task>, next: nat, ghost after: Report)
    requires OnPlan(gen, existing, run.scheduled) && Consistent(run, pending, open, nextId)
    modifies gen
    ensures OnPlan(gen, existing, after.scheduled) && Consistent(after, pool, open, next)
    ensures after.outcomes == run.outcomes
    ensures pending <= pool && |pool| <= |pending| + Max(0, limit)
    ensures |pool| < |pending| + limit ==> gen.Remaining() == [] && !gen.suspended
    ensures |gen.Remaining()| + |pool| == old(|gen.Remaining()|) + |pending|
    ensures run.peak <= after.peak <= Max(run.peak, |pending| + Max(0, limit))
  {
    pool, next, after := pending, nextId, run;
    var i := 0;
    while i < limit
      invariant OnPlan(gen, existing, after.scheduled) && Consistent(after, pool, open, next)
      invariant after.outcomes == run.outcomes
      invariant pending <= pool && 0 <= i <= Max(0, limit) && |pool| == |pending| + i
      invariant |gen.Remaining()| + |pool| == old(|gen.Remaining()|) + |pending|
      invariant run.peak <= after.peak <= Max(run.peak, |pending| + Max(0, limit))
    {
      var r := NextTask(gen, existing, after.scheduled);
      if r.None? {
        return;
      }
      AccountedSchedule(after.scheduled, after.outcomes, pool, open, Task(next, r.value));
      after := after.(scheduled := after.scheduled + [r.value], peak := Max(after.peak, |pool| + 1));
      pool, next, i := pool + {Task(next, r.value)}, next + 1, i + 1;
    }
  }

  // ---------------------------------------------------------------- the main loop

  /** What reached the file: with batching on, everything but the current batch, which is not full; otherwise
      nothing. */
  ghost predicate Saved(lines: seq<Line>, start: seq<Line>, batch: seq<Line>, outcomes: seq<Outcome>,
                        saveBatchSize: int) {
    if saveBatchSize > 0 then start <= lines && lines + batch == start + Rows(outcomes) && |batch| < saveBatchSize
    else lines == start
  }

  /** What is in the file of a killed run: the first rows of the outcomes, and with batching on all but at most one
      batch of them. */
  ghost predicate Cut(lines: seq<Line>, start: seq<Line>, outcomes: seq<Outcome>, saveBatchSize: int) {
    && start <= lines <= start + Rows(outcomes)
    && (saveBatchSize > 0 ==> |start + Rows(outcomes)| <= |lines| + saveBatchSize)
  }

  lemma SavedCut(lines: seq<Line>, start: seq<Line>, batch: seq<Line>, outcomes: seq<Outcome>, saveBatchSize: int)
    requires Saved(lines, start, batch, outcomes, saveBatchSize)
    ensures Cut(lines, start, outcomes, saveBatchSize)
  {
    assert start <= start + Rows(outcomes);
  }

  /** The handling of one finished task: collect its row, and write the batch once it is full. */
  method Collect(file: OutputFile, batch: seq<Line>, saveBatchSize: int, o: Outcome,
                 ghost start: seq<Line>, ghost outcomes: seq<Outcome>)
    returns (rest: seq<Line>, alive: bool)
    requires Saved(file.lines, start, batch, outcomes, saveBatchSize)
    modifies file
    ensures alive ==> Saved(file.lines, start, rest, outcomes + [o], saveBatchSize)
    ensures !alive ==> Cut(file.lines, start, outcomes + [o], saveBatchSize)
  {
    rest, alive := batch, true;
    ghost var lines := file.lines;
    RowsSnoc(outcomes, o);
    if o.payload.Some? {
      rest := batch + [Record(o.idx, o.payload.value)];
      CollectStep(lines, start, batch, outcomes, saveBatchSize, o);
      if saveBatchSize > 0 && |rest| >= saveBatchSize {
        alive := file.SaveBatch(rest);
        PartlySaved(lines, file.lines, start, rest, outcomes + [o], saveBatchSize);
        rest := [];
      }
    }
  }

  lemma RowsSnoc(outcomes: seq<Outcome>, o: Outcome)
    ensures Rows(outcomes + [o]) == Rows(outcomes) + if o.payload.Some? then [Record(o.idx, o.payload.value)] else []
  {
    assert (outcomes + [o])[..|outcomes|] == outcomes;
  }

  lemma CollectStep(lines: seq<Line>, start: seq<Line>, batch: seq<Line>, outcomes: seq<Outcome>, saveBatchSize: int,
                    o: Outcome)
    requires Saved(lines, start, batch, outcomes, saveBatchSize) && o.payload.Some?
    ensures var rest := batch + [Record(o.idx, o.payload.value)];
            && |rest| == |batch| + 1
            && (saveBatchSize > 0 ==> start <= lines && lines + rest == start + Rows(outcomes + [o]))
  {
    RowsSnoc(outcomes, o);
    var row := [Record(o.idx, o.payload.value)];
    assert start + (Rows(outcomes) + row) == start + Rows(outcomes) + row;
    assert lines + (batch + row) == lines + batch + row;
  }

  /** A save that may have been cut. */
  lemma PartlySaved(before: seq<Line>, after: seq<Line>, start: seq<Line>, batch: seq<Line>, outcomes: seq<Outcome>,
                    saveBatchSize: int)
    requires saveBatchSize > 0 && start <= before && before + batch == start + Rows(outcomes)
    requires |batch| <= saveBatchSize && before <= after <= before + batch
    ensures Cut(after, start, outcomes, saveBatchSize)
    ensures after == before + batch ==> Saved(after, start, [], outcomes, saveBatchSize)
  {
    assert after + [] == after;
  }

  ghost predicate Bounded(run: Report) {
    forall idx :: IdxCount(run.outcomes, idx) <= Count(run.scheduled, idx)
  }

  /** One pass of `for task in done`: tasks finish in any order with any results, each followed by a refill. The
      process may be killed between two of them. */
  method Drain(gen: TaskGenerator, file: OutputFile, pending: set<Task>, done: set<Task>, nextId: nat, maxBuffer: nat,
               batch: seq<Line>, saveBatchSize: int, ghost existing: Counts, ghost run: Report, ghost start: seq<Line>)
    returns (pool: set<Task>, next: nat, rest: seq<Line>, alive: bool, ghost after: Report)
    requires OnPlan(gen, existing, run.scheduled) && Consistent(run, pending, done, nextId)
    requires 0 < maxBuffer && |pending| <= maxBuffer && run.peak <= maxBuffer && done != {}
    requires Saved(file.lines, start, batch, run.outcomes, saveBatchSize)
    modifies gen, file
    ensures OnPlan(gen, existing, after.scheduled) && Bounded(after) && |pool| <= maxBuffer && after.peak <= maxBuffer
    ensures !alive ==> Cut(file.lines, start, after.outcomes, saveBatchSize)
    ensures alive ==> Consistent(after, pool, {}, next) && Saved(file.lines, start, rest, after.outcomes, saveBatchSize)
    ensures alive ==> |gen.Remaining()| + |pool| == old(|gen.Remaining()|) + |pending|
    ensures alive && pool == {} ==> gen.Remaining() == [] && !gen.suspended
  {
    pool, next, rest, after, alive := pending, nextId, batch, run, true;
    var open := done;
    while open != {}
      invariant alive && OnPlan(gen, existing, after.scheduled) && Consistent(after, pool, open, next)
      invariant |pool| <= maxBuffer && after.peak <= maxBuffer
      invariant Saved(file.lines, start, rest, after.outcomes, saveBatchSize)
      invariant |gen.Remaining()| + |pool| == old(|gen.Remaining()|) + |pending|
      invariant pool == {} && open != done ==> gen.Remaining() == [] && !gen.suspended
      invariant open <= done
      decreases open
    {
      alive := *;
      if !alive {
        SavedCut(file.lines, start, rest, after.outcomes, saveBatchSize);
        OutcomesBounded(after, pool, open);
        return;
      }
      var task :| task in open;
      pool, next, rest, alive, after :=
        Finish(gen, file, pool, open, task, next, maxBuffer, rest, saveBatchSize, existing, after, start);
      open := open - {task};
      if !alive {
        OutcomesBounded(after, pool, open);
        return;
      }
    }
    OutcomesBounded(after, pool, {});
  }

  /** One task has finished, with any result: record it, then refill. */
  method Finish(gen: TaskGenerator, file: OutputFile, pending: set<Task>, ghost open: set<Task>, task: Task,
                nextId: nat,
                maxBuffer: nat, batch: seq<Line>, saveBatchSize: int,
                ghost existing: Counts, ghost run: Report, ghost start: seq<Line>)
    returns (pool: set<Task>, next: nat, rest: seq<Line>, alive: bool, ghost after: Report)
    requires OnPlan(gen, existing, run.scheduled) && Consistent(run, pending, open, nextId) && task in open
    requires 0 < maxBuffer && |pending| <= maxBuffer && run.peak <= maxBuffer
    requires Saved(file.lines, start, batch, run.outcomes, saveBatchSize)
    modifies gen, file
    ensures OnPlan(gen, existing, after.scheduled) && Consistent(after, pool, open - {task}, next)
    ensures |pool| <= maxBuffer && after.peak <= maxBuffer
    ensures !alive ==> Cut(file.lines, start, after.outcomes, saveBatchSize)
    ensures alive ==> Saved(file.lines, start, rest, after.outcomes, saveBatchSize)
    ensures |gen.Remaining()| + |pool| == old(|gen.Remaining()|) + |pending|
    ensures alive && pool == {} ==> gen.Remaining() == [] && !gen.suspended
  {
    var payload: Option<int> := *;
    var o := Outcome(task.idx, payload);
    AccountedFinish(run.scheduled, run.outcomes, pending, open, task, o);
    rest, alive := Collect(file, batch, saveBatchSize, o, start, run.outcomes);
    pool, next, after := pending, nextId, run.(outcomes := run.outcomes + [o]);
    if alive {
      pool, next, after :=
        Refill(gen, pending, nextId, Min(100, maxBuffer - |pending|), existing, after, open - {task});
    }
  }

  /** asyncio.wait: some nonempty set of tasks is done, the others stay pending; then the done ones are handled. */
  method Turn(gen: TaskGenerator, file: OutputFile, pending: set<Task>, nextId: nat, maxBuffer: nat, batch: seq<Line>,
              saveBatchSize: int, ghost existing: Counts, ghost run: Report, ghost start: seq<Line>)
    returns (pool: set<Task>, next: nat, rest: seq<Line>, alive: bool, ghost after: Report)
    requires OnPlan(gen, existing, run.scheduled) && Consistent(run, pending, {}, nextId) && pending != {}
    requires 0 < maxBuffer && |pending| <= maxBuffer && run.peak <= maxBuffer
    requires Saved(file.lines, start, batch, run.outcomes, saveBatchSize)
    modifies gen, file
    ensures OnPlan(gen, existing, after.scheduled) && Bounded(after) && |pool| <= maxBuffer && after.peak <= maxBuffer
    ensures !alive ==> Cut(file.lines, start, after.outcomes, saveBatchSize)
    ensures alive ==> Consistent(after, pool, {}, next) && Saved(file.lines, start, rest, after.outcomes, saveBatchSize)
    ensures alive ==> |gen.Remaining()| + |pool| < old(|gen.Remaining()|) + |pending|
    ensures alive && pool == {} ==> gen.Remaining() == [] && !gen.suspended
  {
    var done :| done <= pending && done != {};
    AccountedSplit(run.scheduled, run.outcomes, pending, done);
    FewerLeft(pending, done);
    pool, next, rest, alive, after :=
      Drain(gen, file, pending - done, done, nextId, maxBuffer, batch, saveBatchSize, existing, run, start);
  }

  /** process_dataset, for any completion order, any pattern of failures, and a kill while it waits, between finished
      tasks or inside a save. `counts` is the count map the caller shares. */
  method ProcessDataset(samples: seq<string>, perQuestion: int, existing: Counts, maxConcurrency: int,
                        saveBatchSize: int, file: OutputFile)
    returns (counts: Counts, interrupted: bool, ghost run: Report)
    requires maxConcurrency >= 1
    modifies file
    ensures run.peak <= 2 * maxConcurrency
    ensures forall idx :: IdxCount(run.outcomes, idx) <= Count(run.scheduled, idx)
    ensures run.scheduled <= Plan(samples, perQuestion, existing)
    ensures !interrupted ==>
              && run.scheduled == Plan(samples, perQuestion, existing)
              && (forall idx :: IdxCount(run.outcomes, idx) == Count(run.scheduled, idx))
              && (forall idx :: Get(counts, idx) == Get(existing, idx) + Count(run.scheduled, idx))
              && file.lines == old(file.lines) + if saveBatchSize > 0 then Rows(run.outcomes) else []
    ensures interrupted ==> Cut(file.lines, old(file.lines), run.outcomes, saveBatchSize)
  {
    var gen := new TaskGenerator(samples, perQuestion, existing);
    var batch: seq<Line>;
    interrupted, batch, run := RunPool(gen, maxConcurrency, saveBatchSize, file, existing);
    counts := gen.counts;
    if interrupted {
      return;
    }
    assert run.scheduled == Plan(samples, perQuestion, existing) by {
      assert run.scheduled + [] == run.scheduled;
    }
    assert forall idx :: Get(counts, idx) == Get(existing, idx) + Count(run.scheduled, idx) by {
      assert forall idx :: gen.Credited(idx) == Get(counts, idx);
    }
    if batch != [] && saveBatchSize > 0 {
      ghost var lines := file.lines;
      var alive := file.SaveBatch(batch);
      PartlySaved(lines, file.lines, old(file.lines), batch, run.outcomes, saveBatchSize);
      interrupted := !alive;
    }
  }

  /** The loop of process_dataset. */
  method RunPool(gen: TaskGenerator, maxConcurrency: int, saveBatchSize: int, file: OutputFile, ghost existing: Counts)
    returns (interrupted: bool, batch: seq<Line>, ghost run: Report)
    requires maxConcurrency >= 1 && OnPlan(gen, existing, [])
    modifies gen, file
    ensures OnPlan(gen, existing, run.scheduled) && Bounded(run) && run.peak <= 2 * maxConcurrency
    ensures interrupted ==> Cut(file.lines, old(file.lines), run.outcomes, saveBatchSize)
    ensures !interrupted ==>
              && gen.Remaining() == [] && !gen.suspended
              && Saved(file.lines, old(file.lines), batch, run.outcomes, saveBatchSize)
              && forall idx :: IdxCount(run.outcomes, idx) == Count(run.scheduled, idx)
  {
    interrupted, batch, run := false, [], Report([], [], 0);
    StartConsistent();
    var pending: set<Task> := {};
    var nextId := 0;
    var maxBuffer := Max(1, maxConcurrency * 2);
    pending, nextId, run := Refill(gen, pending, nextId, Min(maxBuffer, maxConcurrency), existing, run, {});
    while pending != {}
      invariant OnPlan(gen, existing, run.scheduled) && Consistent(run, pending, {}, nextId)
      invariant |pending| <= maxBuffer && run.peak <= maxBuffer
      invariant Saved(file.lines, old(file.lines), batch, run.outcomes, saveBatchSize)
      invariant pending == {} ==> gen.Remaining() == [] && !gen.suspended
      decreases |gen.Remaining()| + |pending|
    {
      var stop: bool := *;
      if stop {
        OutcomesBounded(run, pending, {});
        SavedCut(file.lines, old(file.lines), batch, run.outcomes, saveBatchSize);
        return true, batch, run;
      }
      var alive;
      pending, nextId, batch, alive, run :=
        Turn(gen, file, pending, nextId, maxBuffer, batch, saveBatchSize, existing, run, old(file.lines));
      if !alive {
        return true, batch, run;
      }
    }
    OutcomesBounded(run, {}, {});
  }

  lemma FewerLeft<T>(a: set<T>, b: set<T>)
    requires b <= a && b != {}
    ensures |a - b| < |a|
  {
    assert |a - b| == |a| - |b|;
  }

  lemma StartConsistent()
    ensures Consistent(Report([], [], 0), {}, {}, 0)
  {
    forall idx
      ensures Count([], idx) == IdxCount([], idx) + |WithIdx({}, idx)| + |WithIdx({}, idx)|
    {
      assert WithIdx({}, idx) == {};
    }
  }

  lemma OutcomesBounded(run: Report, pending: set<Task>, open: set<Task>)
    requires Accounted(run.scheduled, run.outcomes, pending, open)
    ensures Bounded(run)
    ensures pending == {} && open == {} ==> forall idx :: IdxCount(run.outcomes, idx) == Count(run.scheduled, idx)
  {
    forall idx
      ensures IdxCount(run.outcomes, idx) <= Count(run.scheduled, idx)
      ensures pending == {} && open == {} ==> IdxCount(run.outcomes, idx) == Count(run.scheduled, idx)
    {
      assert Count(run.scheduled, idx) == IdxCount(run.outcomes, idx) + |WithIdx(pending, idx)| + |WithIdx(open, idx)|;
      assert WithIdx({}, idx) == {};
    }
  }
}
