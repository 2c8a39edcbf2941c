/** Runs of the generator over one output file, each restarting from the counts found in the file. */
module Restarts {
  import opened Basics
  import opened Records
  import opened TaskPool

  /** outcomes is one run's work on a file: for every index at most (if it ran to the end: exactly) as many
      tasks as are missing for that index, none for indices that are not sampled. */
  ghost predicate WorkOf(before: seq<Line>, samples: seq<string>, perQuestion: int, outcomes: seq<Outcome>,
                         ended: bool) {
    forall idx ::
      var missing := if idx in samples && idx != "" then Max(0, perQuestion - RowCount(before, idx)) else 0;
      IdxCount(outcomes, idx) <= missing && (ended ==> IdxCount(outcomes, idx) == missing)
  }

  /** What a run did to the file: if it ran to the end all successful rows are appended in completion order,
      otherwise a prefix of them. */
  ghost predicate RunOf(before: seq<Line>, after: seq<Line>, samples: seq<string>, perQuestion: int,
                        outcomes: seq<Outcome>, ended: bool)
  {
    && WorkOf(before, samples, perQuestion, outcomes, ended)
    && before <= after <= before + Rows(outcomes)
    && (ended ==> after == before + Rows(outcomes))
  }

  /** One start of the program: load the counts, then process the dataset. */
  method Generate(file: OutputFile, samples: seq<string>, perQuestion: int, maxConcurrency: int, saveBatchSize: int)
    returns (ended: bool, ghost outcomes: seq<Outcome>)
    requires maxConcurrency >= 1 && saveBatchSize > 0
    modifies file
    ensures RunOf(old(file.lines), file.lines, samples, perQuestion, outcomes, ended)
    ensures !ended ==> |old(file.lines) + Rows(outcomes)| <= |file.lines| + saveBatchSize
  {
    var existing := LoadExistingData(file.lines);
    var counts, interrupted;
    ghost var run;
    ghost var before := file.lines;
    counts, interrupted, run := ProcessDataset(samples, perQuestion, existing, maxConcurrency, saveBatchSize, file);
    ended := !interrupted;
    outcomes := run.outcomes;
    PlannedWork(before, samples, perQuestion, existing, run, ended);
  }

  /** Outcomes of tasks on the plan are work on the file whose counts the plan was made from. */
  lemma PlannedWork(before: seq<Line>, samples: seq<string>, perQuestion: int, existing: Counts, run: Report,
                    ended: bool)
    requires CountsOf(existing, before) && run.scheduled <= Plan(samples, perQuestion, existing) && Bounded(run)
    requires ended ==> run.scheduled == Plan(samples, perQuestion, existing)
    requires ended ==> forall idx :: IdxCount(run.outcomes, idx) == Count(run.scheduled, idx)
    ensures WorkOf(before, samples, perQuestion, run.outcomes, ended)
  {
    var plan := Plan(samples, perQuestion, existing);
    forall idx
      ensures var missing := if idx in samples && idx != "" then Max(0, perQuestion - RowCount(before, idx)) else 0;
              IdxCount(run.outcomes, idx) <= missing && (ended ==> IdxCount(run.outcomes, idx) == missing)
    {
      PlanCount(samples, perQuestion, existing, idx);
      CountConcat(run.scheduled, plan[|run.scheduled|..], idx);
      assert plan == run.scheduled + plan[|run.scheduled|..];
    }
  }

  ghost predicate FailureFree(outcomes: seq<Outcome>) {
    forall i :: 0 <= i < |outcomes| ==> outcomes[i].payload.Some?
  }

  lemma {:induction false} RowsCount(outcomes: seq<Outcome>, idx: string)
    ensures RowCount(Rows(outcomes), idx) <= IdxCount(outcomes, idx)
    ensures FailureFree(outcomes) ==> RowCount(Rows(outcomes), idx) == IdxCount(outcomes, idx)
  {
    if |outcomes| > 0 {
      var front, o := outcomes[..|outcomes| - 1], outcomes[|outcomes| - 1];
      RowsCount(front, idx);
      if o.payload.Some? {
        RowCountSnoc(Rows(front), Record(o.idx, o.payload.value), idx);
      } else {
        assert Rows(front) + [] == Rows(front);
      }
    }
  }

  /** A run never loses rows, never overshoots, leaves other indices alone, and completes every sampled
      index when nothing fails. */
  lemma RunCounts(before: seq<Line>, after: seq<Line>, samples: seq<string>, perQuestion: int,
                  outcomes: seq<Outcome>, ended: bool, idx: string)
    requires RunOf(before, after, samples, perQuestion, outcomes, ended)
    ensures RowCount(before, idx) <= RowCount(after, idx) <= Max(RowCount(before, idx), perQuestion)
    ensures !(idx in samples && idx != "") ==> RowCount(after, idx) == RowCount(before, idx)
    ensures ended && FailureFree(outcomes) && idx in samples && idx != "" ==>
              RowCount(after, idx) == Max(RowCount(before, idx), perQuestion)
  {
    var added := after[|before|..];
    var all := Rows(outcomes);
    assert after == before + added;
    assert added == all[..|added|];
    assert all == added + all[|added|..];
    RowCountConcat(before, added, idx);
    RowCountConcat(added, all[|added|..], idx);
    RowsCount(outcomes, idx);
  }

  ghost predicate Follows(before: seq<Line>, after: seq<Line>, samples: seq<string>, perQuestion: int) {
    exists outcomes, ended :: RunOf(before, after, samples, perQuestion, outcomes, ended)
  }

  /** A history of the file: every state follows from the previous one by some run, ended or interrupted. */
  ghost predicate History(files: seq<seq<Line>>, samples: seq<string>, perQuestion: int) {
    forall k {:trigger files[k]} :: 0 < k < |files| ==> Follows(files[k - 1], files[k], samples, perQuestion)
  }

  /** Over any number of runs, interruptions and failures included, the row count of every index only grows
      and never exceeds the target (or what was there at the start); rows are only ever appended. */
  lemma {:induction false} HistoryCounts(files: seq<seq<Line>>, samples: seq<string>, perQuestion: int, i: nat,
                                         j: nat, idx: string)
    requires History(files, samples, perQuestion) && i <= j < |files|
    ensures files[i] <= files[j]
    ensures RowCount(files[i], idx) <= RowCount(files[j], idx) <= Max(RowCount(files[i], idx), perQuestion)
    ensures !(idx in samples && idx != "") ==> RowCount(files[j], idx) == RowCount(files[i], idx)
    decreases j - i
  {
    if i < j {
      HistoryCounts(files, samples, perQuestion, i, j - 1, idx);
      var outcomes, ended :| RunOf(files[j - 1], files[j], samples, perQuestion, outcomes, ended);
      RunCounts(files[j - 1], files[j], samples, perQuestion, outcomes, ended, idx);
    }
  }

  /** One failure-free run to the end finishes the job, whatever happened before, and later runs add nothing. */
  lemma CompletedStays(files: seq<seq<Line>>, samples: seq<string>, perQuestion: int, i: nat, j: nat,
                       outcomes: seq<Outcome>, idx: string)
    requires History(files, samples, perQuestion) && 0 < i <= j < |files|
    requires RunOf(files[i - 1], files[i], samples, perQuestion, outcomes, true) && FailureFree(outcomes)
    requires idx in samples && idx != ""
    ensures RowCount(files[j], idx) == Max(RowCount(files[0], idx), perQuestion)
  {
    HistoryCounts(files, samples, perQuestion, 0, i - 1, idx);
    RunCounts(files[i - 1], files[i], samples, perQuestion, outcomes, true, idx);
    HistoryCounts(files, samples, perQuestion, i, j, idx);
  }

  /** The program started again and again over one file, with any interruptions, failures and completion orders. */
  method GenerateRepeatedly(file: OutputFile, samples: seq<string>, perQuestion: int, maxConcurrency: int,
                            saveBatchSize: int, times: nat)
    returns (ghost files: seq<seq<Line>>)
    requires maxConcurrency >= 1 && saveBatchSize > 0
    modifies file
    ensures |files| == times + 1 && files[0] == old(file.lines) && files[times] == file.lines
    ensures History(files, samples, perQuestion) && old(file.lines) <= file.lines
    ensures forall idx ::
              RowCount(old(file.lines), idx) <= RowCount(file.lines, idx) <= Max(RowCount(old(file.lines), idx),
                perQuestion)
  {
    files := [file.lines];
    for n := 0 to times
      invariant |files| == n + 1 && files[0] == old(file.lines) && files[n] == file.lines
      invariant History(files, samples, perQuestion)
    {
      var ended;
      ghost var outcomes;
      ghost var before := file.lines;
      ended, outcomes := Generate(file, samples, perQuestion, maxConcurrency, saveBatchSize);
      HistorySnoc(files, samples, perQuestion, before, file.lines, outcomes, ended);
      files := files + [file.lines];
    }
    forall idx
      ensures RowCount(files[0], idx) <= RowCount(files[times], idx) <= Max(RowCount(files[0], idx), perQuestion)
      ensures files[0] <= files[times]
    {
      HistoryCounts(files, samples, perQuestion, 0, times, idx);
    }
    HistoryCounts(files, samples, perQuestion, 0, times, "");
  }

  lemma HistorySnoc(files: seq<seq<Line>>, samples: seq<string>, perQuestion: int, before: seq<Line>, after: seq<Line>,
                    outcomes: seq<Outcome>, ended: bool)
    requires |files| > 0 && files[|files| - 1] == before && History(files, samples, perQuestion)
    requires RunOf(before, after, samples, perQuestion, outcomes, ended)
    ensures History(files + [after], samples, perQuestion)
  {
    var all := files + [after];
    assert Follows(before, after, samples, perQuestion);
    forall k | 0 < k < |all|
      ensures Follows(all[k - 1], all[k], samples, perQuestion)
    {
      if k < |files| {
        assert all[k] == files[k] && all[k - 1] == files[k - 1];
        assert Follows(files[k - 1], files[k], samples, perQuestion);
      }
    }
  }
}
