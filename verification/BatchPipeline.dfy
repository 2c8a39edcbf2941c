/** The prepare-and-request loop of analyze_length_token.py with fail-fast off: batches of prepared samples are
    submitted to a bounded pool and handled in whatever order they complete. Which samples can be prepared, which
    requests fail and which samples can be processed is arbitrary. A sample is known by its line. */
module BatchPipeline {
  import opened Basics

  datatype Kind = PrepareFailed | ProcessFailed | RequestFailed

  datatype Failure = Failure(kind: Kind, line: nat)

  /** The lines recorded with a kind of failure. */
  function LinesOf(failures: seq<Failure>, kind: Kind): seq<nat> {
    if |failures| == 0 then []
    else
      var last := failures[|failures| - 1];
      LinesOf(failures[..|failures| - 1], kind) + if last.kind == kind then [last.line] else []
  }

  lemma LinesOfSnoc(failures: seq<Failure>, f: Failure, kind: Kind)
    ensures LinesOf(failures + [f], kind) ==
              if f.kind == kind then LinesOf(failures, kind) + [f.line] else LinesOf(failures, kind)
  {
    assert (failures + [f])[..|failures|] == failures;
  }

  /** A line is listed for a kind as often as it was recorded with it. */
  lemma {:induction false} LinesOfCount(failures: seq<Failure>, kind: Kind, line: nat)
    ensures multiset(LinesOf(failures, kind))[line] == multiset(failures)[Failure(kind, line)]
  {
    if |failures| > 0 {
      var front, last := failures[..|failures| - 1], failures[|failures| - 1];
      LinesOfCount(front, kind, line);
      assert failures == front + [last];
      assert LinesOf(front, kind) + [] == LinesOf(front, kind);
    }
  }

  /** The samples of several batches. */
  function Members(batches: seq<seq<nat>>): multiset<nat> {
    if |batches| == 0 then multiset{} else Members(batches[..|batches| - 1]) + multiset(batches[|batches| - 1])
  }

  lemma MembersSnoc(batches: seq<seq<nat>>, batch: seq<nat>)
    ensures Members(batches + [batch]) == Members(batches) + multiset(batch)
  {
    assert (batches + [batch])[..|batches|] == batches;
  }

  lemma {:induction false} MembersWithout(batches: seq<seq<nat>>, i: nat)
    requires i < |batches|
    ensures Members(batches) == Members(batches[..i] + batches[i + 1..]) + multiset(batches[i])
  {
    var n := |batches| - 1;
    if i < n {
      MembersWithout(batches[..n], i);
      assert batches[..n][..i] == batches[..i];
      assert batches[..i] + batches[i + 1..] == (batches[..n][..i] + batches[..n][i + 1..]) + [batches[n]];
      MembersSnoc(batches[..n][..i] + batches[..n][i + 1..], batches[n]);
    } else {
      assert batches[..i] + batches[i + 1..] == batches[..n];
    }
  }

  // ---------------------------------------------------------------- where the samples are

  datatype Places = Places(current: seq<nat>, flying: seq<seq<nat>>, handled: seq<nat>, succeeded: seq<nat>,
                           failures: seq<Failure>)

  /** In how many places a line is: the batch being filled, a batch in flight, the completed batch being handled,
      the successes, or either kind of failure. */
  function Presence(p: Places, line: nat): nat {
    multiset(p.current)[line] + Members(p.flying)[line] + multiset(p.handled)[line] + multiset(p.succeeded)[line]
    + multiset(LinesOf(p.failures, ProcessFailed))[line] + multiset(LinesOf(p.failures, RequestFailed))[line]
  }

  ghost predicate PlacedOnce(prepared: seq<nat>, p: Places, line: nat) {
    multiset(prepared)[line] == Presence(p, line)
  }

  /** Every prepared sample is in exactly one place, and nothing else is. */
  ghost predicate Placed(prepared: seq<nat>, p: Places) {
    forall line :: PlacedOnce(prepared, p, line)
  }

  ghost predicate ReadOnce(prepared: seq<nat>, unprepared: seq<nat>, n: nat, line: nat) {
    multiset(prepared)[line] + multiset(unprepared)[line] == if line < n then 1 else 0
  }

  /** Each of the first n lines was prepared or found not preparable, once. */
  ghost predicate Read(prepared: seq<nat>, unprepared: seq<nat>, n: nat) {
    forall line :: ReadOnce(prepared, unprepared, n, line)
  }

  lemma Joins(prepared: seq<nat>, p: Places, x: nat)
    requires Placed(prepared, p)
    ensures Placed(prepared + [x], p.(current := p.current + [x]))
  {
    forall line
      ensures PlacedOnce(prepared + [x], p.(current := p.current + [x]), line)
    {
      assert PlacedOnce(prepared, p, line);
    }
  }

  lemma Submits(prepared: seq<nat>, p: Places)
    requires Placed(prepared, p)
    ensures Placed(prepared, p.(current := [], flying := p.flying + [p.current]))
  {
    MembersSnoc(p.flying, p.current);
    forall line
      ensures PlacedOnce(prepared, p.(current := [], flying := p.flying + [p.current]), line)
    {
      assert PlacedOnce(prepared, p, line);
    }
  }

  lemma Completes(prepared: seq<nat>, p: Places, i: nat)
    requires Placed(prepared, p) && p.handled == [] && i < |p.flying|
    ensures Placed(prepared, p.(flying := p.flying[..i] + p.flying[i + 1..], handled := p.flying[i]))
  {
    MembersWithout(p.flying, i);
    var p' := p.(flying := p.flying[..i] + p.flying[i + 1..], handled := p.flying[i]);
    forall line
      ensures PlacedOnce(prepared, p', line)
    {
      assert PlacedOnce(prepared, p, line);
    }
  }

  lemma Succeeds(prepared: seq<nat>, p: Places)
    requires Placed(prepared, p) && |p.handled| > 0
    ensures Placed(prepared, p.(handled := p.handled[1..], succeeded := p.succeeded + [p.handled[0]]))
  {
    assert p.handled == [p.handled[0]] + p.handled[1..];
    forall line
      ensures PlacedOnce(prepared, p.(handled := p.handled[1..], succeeded := p.succeeded + [p.handled[0]]), line)
    {
      assert PlacedOnce(prepared, p, line);
    }
  }

  lemma FailsAt(p: Places, kind: Kind, line: nat)
    requires |p.handled| > 0 && kind != PrepareFailed
    ensures var p' := p.(handled := p.handled[1..], failures := p.failures + [Failure(kind, p.handled[0])]);
            Presence(p', line) == Presence(p, line)
  {
    var f := Failure(kind, p.handled[0]);
    assert p.handled == [p.handled[0]] + p.handled[1..];
    LinesOfSnoc(p.failures, f, ProcessFailed);
    LinesOfSnoc(p.failures, f, RequestFailed);
  }

  lemma Fails(prepared: seq<nat>, p: Places, kind: Kind)
    requires Placed(prepared, p) && |p.handled| > 0 && kind != PrepareFailed
    ensures Placed(prepared, p.(handled := p.handled[1..], failures := p.failures + [Failure(kind, p.handled[0])]))
  {
    var p' := p.(handled := p.handled[1..], failures := p.failures + [Failure(kind, p.handled[0])]);
    forall line
      ensures PlacedOnce(prepared, p', line)
    {
      assert PlacedOnce(prepared, p, line);
      FailsAt(p, kind, line);
    }
  }

  lemma FailsEarly(prepared: seq<nat>, p: Places, x: nat)
    requires Placed(prepared, p)
    ensures Placed(prepared, p.(failures := p.failures + [Failure(PrepareFailed, x)]))
  {
    LinesOfSnoc(p.failures, Failure(PrepareFailed, x), ProcessFailed);
    LinesOfSnoc(p.failures, Failure(PrepareFailed, x), RequestFailed);
    forall line
      ensures PlacedOnce(prepared, p.(failures := p.failures + [Failure(PrepareFailed, x)]), line)
    {
      assert PlacedOnce(prepared, p, line);
    }
  }

  lemma ReadNext(prepared: seq<nat>, unprepared: seq<nat>, n: nat)
    requires Read(prepared, unprepared, n)
    ensures Read(prepared + [n], unprepared, n + 1) && Read(prepared, unprepared + [n], n + 1)
  {
    var m := n + 1;
    forall line
      ensures ReadOnce(prepared + [n], unprepared, m, line) && ReadOnce(prepared, unprepared + [n], m, line)
    {
      assert ReadOnce(prepared, unprepared, n, line);
    }
  }

  /** The lines before n, each once. */
  function Lines(n: nat): multiset<nat> {
    if n == 0 then multiset{} else Lines(n - 1) + multiset{n - 1}
  }

  lemma {:induction false} LinesOnce(n: nat)
    ensures |Lines(n)| == n && forall line: nat :: Lines(n)[line] == if line < n then 1 else 0
  {
    if n > 0 {
      LinesOnce(n - 1);
    }
  }

  lemma ReadSize(prepared: seq<nat>, unprepared: seq<nat>, n: nat)
    requires Read(prepared, unprepared, n)
    ensures |prepared| + |unprepared| == n
  {
    LinesOnce(n);
    var both := multiset(prepared) + multiset(unprepared);
    forall line: nat
      ensures both[line] == Lines(n)[line]
    {
      assert ReadOnce(prepared, unprepared, n, line);
    }
    assert both == Lines(n);
    assert |both| == |multiset(prepared)| + |multiset(unprepared)|;
  }

  lemma PlacedSize(prepared: seq<nat>, p: Places)
    requires Placed(prepared, p) && p.current == [] && p.flying == [] && p.handled == []
    ensures |prepared| == |p.succeeded| + |LinesOf(p.failures, ProcessFailed)| + |LinesOf(p.failures, RequestFailed)|
  {
    var s, q, r := multiset(p.succeeded), multiset(LinesOf(p.failures, ProcessFailed)),
      multiset(LinesOf(p.failures, RequestFailed));
    forall line: nat
      ensures multiset(prepared)[line] == (s + q + r)[line]
    {
      assert PlacedOnce(prepared, p, line);
    }
    assert multiset(prepared) == s + q + r;
    assert |s + q + r| == |s| + |q| + |r|;
  }

  /** After a run each used line is in exactly one of: succeeded, process-failed, request-failed, prepare-failed. */
  lemma ExactlyOnePlace(prepared: seq<nat>, p: Places, n: nat, line: nat)
    requires Placed(prepared, p) && p.current == [] && p.flying == [] && p.handled == []
    requires Read(prepared, LinesOf(p.failures, PrepareFailed), n)
    ensures multiset(p.succeeded)[line] + multiset(LinesOf(p.failures, ProcessFailed))[line]
          + multiset(LinesOf(p.failures, RequestFailed))[line] + multiset(LinesOf(p.failures, PrepareFailed))[line]
         == if line < n then 1 else 0
  {
    assert PlacedOnce(prepared, p, line);
    assert ReadOnce(prepared, LinesOf(p.failures, PrepareFailed), n, line);
  }

  lemma TailOf(batch: seq<nat>, i: nat)
    requires i < |batch|
    ensures batch[i..] == [batch[i]] + batch[i + 1..]
  {
  }

  lemma TailEnds(batch: seq<nat>)
    ensures batch[0..] == batch && batch[|batch|..] == []
  {
  }

  lemma FailureCounts(failures: seq<Failure>, kind: Kind, line: nat)
    ensures var after := failures + [Failure(kind, line)];
            && |LinesOf(after, RequestFailed)|
               == |LinesOf(failures, RequestFailed)| + (if kind == RequestFailed then 1 else 0)
            && LinesOf(after, PrepareFailed)
               == LinesOf(failures, PrepareFailed) + (if kind == PrepareFailed then [line] else [])
  {
    LinesOfSnoc(failures, Failure(kind, line), PrepareFailed);
    LinesOfSnoc(failures, Failure(kind, line), RequestFailed);
  }

  // ---------------------------------------------------------------- the loop

  /** How many lines are used: max_samples of them at most when it is positive. */
  function Taken(total: nat, maxSamples: int): nat {
    if maxSamples > 0 then Min(total, maxSamples) else total
  }

  /** All failures recorded in between are of this kind. */
  ghost predicate FailedAs(kind: Kind, before: seq<Failure>, after: seq<Failure>) {
    before <= after && forall i :: |before| <= i < |after| ==> after[i].kind == kind
  }

  class Pipeline {
    const batchSize: nat
    const maxConc: nat
    var pending: seq<seq<nat>>
    var linesSeen: nat
    var nPrepared: nat
    var nSucceeded: nat
    var nFailedPrepare: nat
    var nFailedRequest: nat
    var failures: seq<Failure>
    ghost var prepared: seq<nat>
    ghost var succeeded: seq<nat>
    ghost var peak: nat   // the most requests that were ever in flight

    /** The counters are right, every prepared sample is in one place, and no more requests are in flight than
        allowed; `handled` are the samples of a completed batch that are still to be handled. */
    ghost predicate Valid(current: seq<nat>, handled: seq<nat>)
      reads this`pending, this`peak, this`nPrepared, this`nSucceeded, this`nFailedPrepare, this`nFailedRequest,
            this`failures, this`prepared, this`succeeded
    {
      && batchSize > 0 && maxConc > 0 && |pending| <= peak <= maxConc
      && (forall i :: 0 <= i < |pending| ==> 0 < |pending[i]| <= batchSize)
      && nPrepared == |prepared| && nSucceeded == |succeeded|
      && nFailedPrepare == |LinesOf(failures, PrepareFailed)|
      && nFailedRequest == |LinesOf(failures, RequestFailed)|
      && Placed(prepared, Places(current, pending, handled, succeeded, failures))
    }

    /** The first n lines were read. */
    ghost predicate ReadUpTo(n: nat)
      reads this`prepared, this`failures
    {
      Read(prepared, LinesOf(failures, PrepareFailed), n)
    }

    constructor (batchSizeArg: int, maxConcArg: int)
      ensures batchSize == Max(1, batchSizeArg) && maxConc == Max(1, maxConcArg)
      ensures Valid([], []) && ReadUpTo(0) && pending == [] && linesSeen == 0
    {
      batchSize, maxConc := Max(1, batchSizeArg), Max(1, maxConcArg);
      pending, failures, prepared, succeeded, peak := [], [], [], [], 0;
      linesSeen, nPrepared, nSucceeded, nFailedPrepare, nFailedRequest := 0, 0, 0, 0, 0;
    }

    /** submit_batch */
    method SubmitBatch(batch: seq<nat>)
      requires Valid(batch, []) && |pending| < maxConc && 0 < |batch| <= batchSize
      modifies this`pending, this`peak
      ensures Valid([], []) && pending == old(pending) + [batch]
      ensures peak == Max(old(peak), |pending|)
    {
      Submits(prepared, Places(batch, pending, [], succeeded, failures));
      pending := pending + [batch];
      peak := Max(peak, |pending|);
    }

    method CountSuccess(line: nat, ghost current: seq<nat>, ghost rest: seq<nat>)
      requires Valid(current, [line] + rest)
      modifies this`nSucceeded, this`succeeded
      ensures Valid(current, rest) && succeeded == old(succeeded) + [line]
    {
      Succeeds(prepared, Places(current, pending, [line] + rest, succeeded, failures));
      nSucceeded, succeeded := nSucceeded + 1, succeeded + [line];
    }

    /** record_failure for a prepared sample. */
    method RecordFailure(kind: Kind, line: nat, ghost current: seq<nat>, ghost rest: seq<nat>)
      requires Valid(current, [line] + rest) && kind != PrepareFailed
      modifies this`nFailedRequest, this`failures
      ensures Valid(current, rest) && LinesOf(failures, PrepareFailed) == old(LinesOf(failures, PrepareFailed))
      ensures failures == old(failures) + [Failure(kind, line)]
    {
      Fails(prepared, Places(current, pending, [line] + rest, succeeded, failures), kind);
      FailureCounts(failures, kind, line);
      failures := failures + [Failure(kind, line)];
      nFailedRequest := if kind == RequestFailed then nFailedRequest + 1 else nFailedRequest;
    }

    /** process_batch_result: each sample is scored or recorded as failed in processing, and nothing else. */
    method ProcessBatchResult(batch: seq<nat>, ghost current: seq<nat>)
      requires Valid(current, batch)
      modifies this`nSucceeded, this`succeeded, this`nFailedRequest, this`failures
      ensures Valid(current, []) && LinesOf(failures, PrepareFailed) == old(LinesOf(failures, PrepareFailed))
      ensures old(succeeded) <= succeeded && FailedAs(ProcessFailed, old(failures), failures)
      ensures |succeeded| + |failures| == old(|succeeded| + |failures|) + |batch|
    {
      TailEnds(batch);
      for i := 0 to |batch|
        invariant Valid(current, batch[i..]) &&
                    LinesOf(failures, PrepareFailed) == old(LinesOf(failures, PrepareFailed))
        invariant old(succeeded) <= succeeded && FailedAs(ProcessFailed, old(failures), failures)
        invariant |succeeded| + |failures| == old(|succeeded| + |failures|) + i
      {
        TailOf(batch, i);
        var processed: bool := *;
        if processed {
          CountSuccess(batch[i], current, batch[i + 1..]);
        } else {
          RecordFailure(ProcessFailed, batch[i], current, batch[i + 1..]);
        }
      }
    }

    /** A request that raised: the whole batch is recorded as failed, in its order. */
    method FailRequest(batch: seq<nat>, ghost current: seq<nat>)
      requires Valid(current, batch)
      modifies this`nFailedRequest, this`failures
      ensures Valid(current, []) && LinesOf(failures, PrepareFailed) == old(LinesOf(failures, PrepareFailed))
      ensures FailedAs(RequestFailed, old(failures), failures)
      ensures |failures| == old(|failures|) + |batch|
    {
      TailEnds(batch);
      for i := 0 to |batch|
        invariant Valid(current, batch[i..]) &&
                    LinesOf(failures, PrepareFailed) == old(LinesOf(failures, PrepareFailed))
        invariant FailedAs(RequestFailed, old(failures), failures) && |failures| == old(|failures|) + i
      {
        TailOf(batch, i);
        RecordFailure(RequestFailed, batch[i], current, batch[i + 1..]);
      }
    }

    /** Any of the futures may be the next one done. */
    method TakeFuture(ghost current: seq<nat>) returns (batch: seq<nat>)
      requires Valid(current, []) && |pending| > 0
      modifies this`pending
      ensures Valid(current, batch) && |pending| == old(|pending|) - 1
    {
      var i: nat :| i < |pending|;
      batch := pending[i];
      Completes(prepared, Places(current, pending, [], succeeded, failures), i);
      pending := pending[..i] + pending[i + 1..];
    }

    /** One completed future, whichever it is. */
    method HandleOne(ghost current: seq<nat>)
      requires Valid(current, []) && |pending| > 0
      modifies this`pending, this`nSucceeded, this`succeeded, this`nFailedRequest, this`failures
      ensures Valid(current, []) && |pending| == old(|pending|) - 1
      ensures LinesOf(failures, PrepareFailed) == old(LinesOf(failures, PrepareFailed))
    {
      var batch := TakeFuture(current);
      var failed: bool := *;
      if failed {
        FailRequest(batch, current);
      } else {
        ProcessBatchResult(batch, current);
      }
    }

    /** wait(pending, FIRST_COMPLETED) and the loop over what it returns, one future or more, until fewer than `bound`
        requests are in flight. */
    method Drain(bound: nat)
      requires Valid([], []) && bound > 0
      modifies this`pending, this`nSucceeded, this`succeeded, this`nFailedRequest, this`failures
      ensures Valid([], []) && |pending| < bound
      ensures LinesOf(failures, PrepareFailed) == old(LinesOf(failures, PrepareFailed))
    {
      var more := false;
      while |pending| >= bound || (more && |pending| > 0)
        invariant Valid([], []) && LinesOf(failures, PrepareFailed) == old(LinesOf(failures, PrepareFailed))
        decreases |pending|
      {
        HandleOne([]);
        more := *;
      }
    }

    /** Between two lines: n lines were read and there is room for a batch. */
    ghost predicate Reading(current: seq<nat>, n: nat)
      reads this`pending, this`peak, this`nPrepared, this`nSucceeded, this`nFailedPrepare, this`nFailedRequest,
            this`failures, this`prepared, this`succeeded
    {
      Valid(current, []) && |pending| < maxConc && |current| < batchSize && ReadUpTo(n)
    }

    /** A prepared line joins the batch; a full batch is submitted, and then the number in flight brought down. */
    method AddPrepared(line: nat, current: seq<nat>) returns (next: seq<nat>)
      requires Reading(current, line)
      modifies this`nPrepared, this`prepared, this`pending, this`peak, this`nSucceeded, this`succeeded,
               this`nFailedRequest, this`failures
      ensures Reading(next, line + 1)
    {
      Joins(prepared, Places(current, pending, [], succeeded, failures), line);
      ReadNext(prepared, LinesOf(failures, PrepareFailed), line);
      nPrepared, prepared := nPrepared + 1, prepared + [line];
      next := current + [line];
      if |next| >= batchSize {
        SubmitBatch(next);
        Drain(maxConc);
        next := [];
      }
    }

    /** record_failure for a line that could not be prepared. */
    method RecordUnprepared(line: nat, ghost current: seq<nat>)
      requires Reading(current, line)
      modifies this`nFailedPrepare, this`failures
      ensures Reading(current, line + 1) && failures == old(failures) + [Failure(PrepareFailed, line)]
    {
      FailsEarly(prepared, Places(current, pending, [], succeeded, failures), line);
      FailureCounts(failures, PrepareFailed, line);
      ReadNext(prepared, LinesOf(failures, PrepareFailed), line);
      nFailedPrepare, failures := nFailedPrepare + 1, failures + [Failure(PrepareFailed, line)];
    }

    /** The loop over the lines. */
    method ReadLines(total: nat, maxSamples: int) returns (current: seq<nat>)
      requires Reading([], 0) && linesSeen == 0
      modifies this
      ensures Reading(current, Taken(total, maxSamples))
      ensures linesSeen == Taken(total, maxSamples) + if maxSamples > 0 && total > maxSamples then 1 else 0
    {
      current := [];
      var line := 0;
      while line < total
        invariant line <= Taken(total, maxSamples) && linesSeen == line && Reading(current, line)
      {
        linesSeen := linesSeen + 1;
        if maxSamples > 0 && linesSeen > maxSamples {
          break;
        }
        var preparable: bool := *;
        if preparable {
          current := AddPrepared(line, current);
        } else {
          RecordUnprepared(line, current);
        }
        line := line + 1;
      }
      assert line == Taken(total, maxSamples);
    }

    /** The whole run: never more than maxConc requests in flight, none at the end, and the lines seen are those
        prepared, those that could not be, and one more when the run was cut off. */
    method Run(total: nat, maxSamples: int)
      requires Valid([], []) && pending == [] && linesSeen == 0 && ReadUpTo(0)
      modifies this
      ensures Valid([], []) && pending == [] && peak <= maxConc && ReadUpTo(Taken(total, maxSamples))
      ensures nPrepared == nSucceeded + |LinesOf(failures, ProcessFailed)| + nFailedRequest
      ensures nPrepared + nFailedPrepare == Taken(total, maxSamples)
      ensures linesSeen == nPrepared + nFailedPrepare + if maxSamples > 0 && total > maxSamples then 1 else 0
      ensures var used := if maxSamples <= 0 || total <= maxSamples then total else maxSamples;
              nPrepared + nFailedPrepare == used && ReadUpTo(used)
    {
      var current := ReadLines(total, maxSamples);
      DrainAll(current, Taken(total, maxSamples));
      FinalCounts(Taken(total, maxSamples));
    }

    /** The last, partial batch, and everything still in flight. */
    method DrainAll(current: seq<nat>, ghost n: nat)
      requires Reading(current, n)
      modifies this`pending, this`peak, this`nSucceeded, this`succeeded, this`nFailedRequest, this`failures
      ensures Valid([], []) && pending == [] && ReadUpTo(n)
    {
      if |current| > 0 {
        SubmitBatch(current);
      }
      Drain(1);
    }

    lemma FinalCounts(n: nat)
      requires Valid([], []) && pending == [] && ReadUpTo(n)
      ensures nPrepared == nSucceeded + |LinesOf(failures, ProcessFailed)| + nFailedRequest
      ensures nPrepared + nFailedPrepare == n
    {
      PlacedSize(prepared, Places([], pending, [], succeeded, failures));
      ReadSize(prepared, LinesOf(failures, PrepareFailed), n);
    }
  }
}
