/** Histories of resumed runs over one responses file (sample_eval.py): what the file holds for an index, and what
    the evaluators make of it. */
module ResumeHistory {
  import opened Basics
  import opened Responses
  import opened Budget
  import opened ResumeLog

  // ---------------------------------------------------------------- histories of runs

  datatype Config = Config(data: seq<string>, maxQuestions: int, maxConcurrency: int, policy: Policy)

  datatype Run = Run(config: Config, skip: set<int>, blocks: seq<Block>, complete: bool)

  /** How many questions a run considers. */
  function Considered(config: Config): nat {
    Base(|config.data|, config.maxQuestions)
  }

  function Todo(run: Run): seq<int> {
    Remaining(Considered(run.config), run.skip)
  }

  /** The run started from a scan of this file. */
  ghost predicate Resumed(file: seq<Row>, run: Run) {
    && (forall idx :: idx in run.skip <==> Done(file, run.config.policy, idx))
    && RunOf(Todo(run), Workers(run.config.maxConcurrency, |Todo(run)|), run.blocks, run.complete)
    && Answered(run.config.data, run.blocks)
  }

  function FileAfter(start: seq<Row>, runs: seq<Run>): seq<Row> {
    if |runs| == 0 then start else FileAfter(start, runs[..|runs| - 1]) + Rows(runs[|runs| - 1].blocks)
  }

  ghost predicate History(start: seq<Row>, runs: seq<Run>) {
    |runs| > 0 ==>
      && History(start, runs[..|runs| - 1])
      && Resumed(FileAfter(start, runs[..|runs| - 1]), runs[|runs| - 1])
  }

  method ResumeRun(config: Config, file: seq<Row>) returns (out: seq<Row>, ghost run: Run)
    ensures run.config == config && Resumed(file, run) && out == file + Rows(run.blocks)
  {
    var skip := ScanResponses(file, config.policy);
    var complete;
    ghost var blocks;
    out, complete, blocks := RunRequests(config.data, config.maxQuestions, skip, config.maxConcurrency, file);
    run := Run(config, skip, blocks, complete);
  }

  lemma HistorySnoc(start: seq<Row>, runs: seq<Run>, run: Run)
    requires History(start, runs) && Resumed(FileAfter(start, runs), run)
    ensures History(start, runs + [run])
    ensures FileAfter(start, runs + [run]) == FileAfter(start, runs) + Rows(run.blocks)
  {
    assert (runs + [run])[..|runs|] == runs;
  }

  /** The runs so far, with these settings, led to this file. */
  ghost predicate Ran(configs: seq<Config>, start: seq<Row>, runs: seq<Run>, file: seq<Row>) {
    && |runs| <= |configs| && (forall r :: 0 <= r < |runs| ==> runs[r].config == configs[r])
    && History(start, runs) && file == FileAfter(start, runs)
  }

  lemma RanSnoc(configs: seq<Config>, start: seq<Row>, runs: seq<Run>, file: seq<Row>, run: Run)
    requires Ran(configs, start, runs, file) && |runs| < |configs|
    requires run.config == configs[|runs|] && Resumed(file, run)
    ensures Ran(configs, start, runs + [run], file + Rows(run.blocks))
  {
    HistorySnoc(start, runs, run);
  }

  // ---------------------------------------------------------------- one response for each index

  /** The rows of an index that pass a test. */
  function Passing(file: seq<Row>, test: Row -> bool, idx: int): seq<Row> {
    if |file| == 0 then []
    else
      var last := file[|file| - 1];
      Passing(file[..|file| - 1], test, idx) + if last.idx == Some(idx) && test(last) then [last] else []
  }

  lemma {:induction false} PassingKept(file: seq<Row>, test: Row -> bool, idx: int, p: Row -> bool)
    requires forall r :: p(r) <==> r.idx == Some(idx) && test(r)
    ensures Passing(file, test, idx) == Filter(file, p)
  {
    if |file| > 0 {
      PassingKept(file[..|file| - 1], test, idx, p);
    }
  }

  /** The usable rows of an index: those that did not fail and whose text shows something. */
  lemma UsableKeep(file: seq<Row>, idx: int)
    ensures UsableRows(file, idx) ==
              Filter(file, (r: Row) => r.idx == Some(idx) && !r.failed && r.text != None && Visible(r.text.value))
  {
    forall r: Row
      ensures Usable(r) <==> !r.failed && r.text != None && Visible(r.text.value)
    {
      UsableIsVisible(r);
    }
    PassingKept(file, Usable, idx,
                (r: Row) => r.idx == Some(idx) && !r.failed && r.text != None && Visible(r.text.value));
  }

  function UsableRows(file: seq<Row>, idx: int): seq<Row> {
    Passing(file, Usable, idx)
  }

  lemma PassingSnoc(file: seq<Row>, row: Row, test: Row -> bool, idx: int)
    ensures Passing(file + [row], test, idx) ==
              Passing(file, test, idx) + if row.idx == Some(idx) && test(row) then [row] else []
  {
    assert (file + [row])[..|file|] == file;
  }

  lemma {:induction false} PassingConcat(a: seq<Row>, b: seq<Row>, test: Row -> bool, idx: int)
    ensures Passing(a + b, test, idx) == Passing(a, test, idx) + Passing(b, test, idx)
  {
    if |b| == 0 {
      assert a + b == a;
    } else {
      var front, row := b[..|b| - 1], b[|b| - 1];
      PassingConcat(a, front, test, idx);
      SplitLast(a, b);
      PassingSnoc(a + front, row, test, idx);
      Associative(Passing(a, test, idx), Passing(front, test, idx),
                  if row.idx == Some(idx) && test(row) then [row] else []);
    }
  }

  lemma UsableConcat(a: seq<Row>, b: seq<Row>, idx: int)
    ensures UsableRows(a + b, idx) == UsableRows(a, idx) + UsableRows(b, idx)
  {
    PassingConcat(a, b, Usable, idx);
  }

  lemma {:induction false} UsableMeansDone(file: seq<Row>, idx: int)
    ensures UsableRows(file, idx) != [] <==> Done(file, Success, idx)
  {
    if |file| > 0 {
      var k := |file| - 1;
      UsableMeansDone(file[..k], idx);
      DoneSnoc(file[..k], file[k]);
      assert file == file[..k] + [file[k]];
    }
  }

  lemma {:induction false} NonePass(file: seq<Row>, test: Row -> bool, idx: int)
    requires forall r :: 0 <= r < |file| ==> file[r].idx != Some(idx)
    ensures Passing(file, test, idx) == []
  {
    if |file| > 0 {
      NonePass(file[..|file| - 1], test, idx);
    }
  }

  lemma FrontIndices(blocks: seq<Block>)
    requires |blocks| > 0 && Distinct(Asked(blocks))
    ensures Asked(blocks) == Asked(blocks[..|blocks| - 1]) + [blocks[|blocks| - 1].idx]
    ensures Distinct(Asked(blocks[..|blocks| - 1]))
    ensures blocks[|blocks| - 1].idx !in Asked(blocks[..|blocks| - 1])
  {
    var n := |blocks| - 1;
    var front := Asked(blocks[..n]);
    assert forall i :: 0 <= i < n ==> front[i] == Asked(blocks)[i];
    assert Asked(blocks)[n] == blocks[n].idx;
  }

  lemma PassingFront(blocks: seq<Block>, test: Row -> bool, idx: int)
    requires |blocks| > 0
    ensures var n := |blocks| - 1;
            Passing(Rows(blocks), test, idx)
            == Passing(Rows(blocks[..n]), test, idx) + Passing(BlockRows(blocks[n]), test, idx)
  {
    PassingConcat(Rows(blocks[..|blocks| - 1]), BlockRows(blocks[|blocks| - 1]), test, idx);
  }

  lemma OtherBlock(b: Block, test: Row -> bool, idx: int)
    requires b.idx != idx
    ensures Passing(BlockRows(b), test, idx) == []
  {
    NonePass(BlockRows(b), test, idx);
  }

  lemma NotAmong(blocks: seq<Block>, idx: int)
    requires idx !in Asked(blocks)
    ensures forall k :: 0 <= k < |blocks| ==> blocks[k].idx != idx
  {
    forall k | 0 <= k < |blocks|
      ensures blocks[k].idx != idx
    {
      assert Asked(blocks)[k] == blocks[k].idx;
    }
  }

  lemma {:induction false} NoBlock(blocks: seq<Block>, test: Row -> bool, idx: int)
    requires forall k :: 0 <= k < |blocks| ==> blocks[k].idx != idx
    ensures Passing(Rows(blocks), test, idx) == []
  {
    if |blocks| > 0 {
      var n := |blocks| - 1;
      NoBlock(blocks[..n], test, idx);
      PassingFront(blocks, test, idx);
      OtherBlock(blocks[n], test, idx);
    }
  }

  /** The rows of an index in the rows of a run are those of its own block. */
  lemma {:induction false} OwnBlock(blocks: seq<Block>, test: Row -> bool, k: nat)
    requires Distinct(Asked(blocks)) && k < |blocks|
    ensures Passing(Rows(blocks), test, blocks[k].idx) == Passing(BlockRows(blocks[k]), test, blocks[k].idx)
  {
    var n := |blocks| - 1;
    FrontIndices(blocks);
    PassingFront(blocks, test, blocks[k].idx);
    if k == n {
      NotAmong(blocks[..n], blocks[k].idx);
      NoBlock(blocks[..n], test, blocks[k].idx);
    } else {
      assert Asked(blocks[..n])[k] == blocks[k].idx;
      OtherBlock(blocks[n], test, blocks[k].idx);
      OwnBlock(blocks[..n], test, k);
    }
  }

  /** An index that has usable text in the file is not in the queue, whatever the policy. */
  lemma {:induction false} SuccessNotQueued(file: seq<Row>, run: Run, idx: int)
    requires Resumed(file, run) && UsableRows(file, idx) != []
    ensures idx !in Todo(run) && idx !in Asked(run.blocks) && UsableRows(Rows(run.blocks), idx) == []
  {
    UsableMeansDone(file, idx);
    assert Done(file, run.config.policy, idx);
    RemainingExact(Considered(run.config), run.skip);
    assert forall k :: 0 <= k < |run.blocks| ==> run.blocks[k] in run.blocks && run.blocks[k].idx != idx;
    NoBlock(run.blocks, Usable, idx);
  }

  lemma {:induction false} FileGrows(start: seq<Row>, runs: seq<Run>, s: nat)
    requires s <= |runs|
    ensures FileAfter(start, runs[..s]) <= FileAfter(start, runs)
  {
    if s == |runs| {
      assert runs[..s] == runs;
    } else {
      FileGrows(start, runs[..|runs| - 1], s);
      assert runs[..|runs| - 1][..s] == runs[..s];
    }
  }

  lemma {:induction false} HistoryAt(start: seq<Row>, runs: seq<Run>, s: nat)
    requires History(start, runs) && s < |runs|
    ensures Resumed(FileAfter(start, runs[..s]), runs[s])
  {
    if s < |runs| - 1 {
      HistoryAt(start, runs[..|runs| - 1], s);
      assert runs[..|runs| - 1][..s] == runs[..s];
    }
  }

  /** An index with usable text gets no more of it. */
  lemma {:induction false} Frozen(start: seq<Row>, runs: seq<Run>, idx: int)
    requires History(start, runs) && UsableRows(start, idx) != []
    ensures UsableRows(FileAfter(start, runs), idx) == UsableRows(start, idx)
  {
    if |runs| > 0 {
      var front, run := FileAfter(start, runs[..|runs| - 1]), runs[|runs| - 1];
      Frozen(start, runs[..|runs| - 1], idx);
      SuccessNotQueued(front, run, idx);
      UsableConcat(front, Rows(run.blocks), idx);
    }
  }

  /** Any number of resumed runs: no row is lost, and what succeeded stays as it is. */
  method Campaign(configs: seq<Config>, start: seq<Row>) returns (file: seq<Row>, ghost runs: seq<Run>)
    ensures |runs| == |configs| && Ran(configs, start, runs, file)
    ensures start <= file
    ensures forall idx :: UsableRows(start, idx) != [] ==> UsableRows(file, idx) == UsableRows(start, idx)
  {
    file, runs := start, [];
    for r := 0 to |configs|
      invariant |runs| == r && Ran(configs, start, runs, file)
    {
      ghost var run;
      ghost var before := file;
      file, run := ResumeRun(configs[r], file);
      RanSnoc(configs, start, runs, before, run);
      runs := runs + [run];
    }
    FileGrows(start, runs, 0);
    forall idx | UsableRows(start, idx) != []
      ensures UsableRows(file, idx) == UsableRows(start, idx)
    {
      Frozen(start, runs, idx);
    }
  }

  lemma UsableKept(a: seq<Row>, b: seq<Row>, idx: int)
    requires a <= b && UsableRows(a, idx) != []
    ensures UsableRows(b, idx) != []
  {
    UsableConcat(a, b[|a|..], idx);
    assert b == a + b[|a|..];
  }

  /** Once a run has left usable text for an index, no later run asks for that index again. */
  lemma {:induction false} NeverAgain(start: seq<Row>, runs: seq<Run>, r: nat, s: nat, idx: int)
    requires History(start, runs) && r < s < |runs|
    requires UsableRows(Rows(runs[r].blocks), idx) != []
    ensures idx !in Todo(runs[s]) && idx !in Asked(runs[s].blocks)
  {
    var file := FileAfter(start, runs[..r]);
    assert runs[..r + 1][..r] == runs[..r];
    UsableConcat(file, Rows(runs[r].blocks), idx);
    FileGrows(start, runs[..s], r + 1);
    assert runs[..s][..r + 1] == runs[..r + 1];
    UsableKept(FileAfter(start, runs[..r + 1]), FileAfter(start, runs[..s]), idx);
    HistoryAt(start, runs, s);
    SuccessNotQueued(FileAfter(start, runs[..s]), runs[s], idx);
  }

  ghost predicate FromBlock(file: seq<Row>, test: Row -> bool, runs: seq<Run>, r: nat, k: nat, idx: int) {
    && r < |runs| && k < |runs[r].blocks| && runs[r].blocks[k].idx == idx
    && Passing(file, test, idx) == Passing(BlockRows(runs[r].blocks[k]), test, idx)
  }

  /** The rows a run is the first to add for an index are those of one block. */
  lemma FirstRows(file: seq<Row>, test: Row -> bool, run: Run, idx: int) returns (k: nat)
    requires Resumed(file, run) && Passing(file, test, idx) == [] && Passing(Rows(run.blocks), test, idx) != []
    ensures k < |run.blocks| && run.blocks[k].idx == idx
    ensures Passing(file + Rows(run.blocks), test, idx) == Passing(BlockRows(run.blocks[k]), test, idx)
  {
    PassingConcat(file, Rows(run.blocks), test, idx);
    if idx !in Asked(run.blocks) {
      NotAmong(run.blocks, idx);
      NoBlock(run.blocks, test, idx);
      assert false;
    }
    k :| 0 <= k < |run.blocks| && Asked(run.blocks)[k] == idx;
    OwnBlock(run.blocks, test, k);
  }

  /** All the usable rows of an index are rows of one response to one request of one run. */
  lemma {:induction false} OneResponse(start: seq<Row>, runs: seq<Run>, idx: int) returns (r: nat, k: nat)
    requires History(start, runs) && UsableRows(start, idx) == []
    requires UsableRows(FileAfter(start, runs), idx) != []
    ensures FromBlock(FileAfter(start, runs), Usable, runs, r, k, idx)
  {
    var n := |runs| - 1;
    var front, run := FileAfter(start, runs[..n]), runs[n];
    if UsableRows(front, idx) != [] {
      r, k := OneResponse(start, runs[..n], idx);
      SuccessNotQueued(front, run, idx);
      UsableConcat(front, Rows(run.blocks), idx);
    } else {
      UsableConcat(front, Rows(run.blocks), idx);
      r := n;
      k := FirstRows(front, Usable, run, idx);
    }
  }

  // ---------------------------------------------------------------- what the next run retries

  lemma TodoExact(file: seq<Row>, run: Run, idx: int)
    requires Resumed(file, run) && run.config.policy.Success?
    ensures idx in Todo(run) <==>
              0 <= idx < Considered(run.config) && UsableRows(file, idx) == []
  {
    RemainingExact(Considered(run.config), run.skip);
    UsableMeansDone(file, idx);
  }

  /** The next run over the same questions has those that were queued and got no usable text. */
  lemma NextTodo(file: seq<Row>, run: Run, next: Run, idx: int)
    requires Resumed(file, run) && Resumed(file + Rows(run.blocks), next)
    requires run.config.policy.Success? && next.config == run.config
    ensures idx in Todo(next) <==> idx in Todo(run) && UsableRows(Rows(run.blocks), idx) == []
  {
    TodoExact(file, run, idx);
    TodoExact(file + Rows(run.blocks), next, idx);
    UsableConcat(file, Rows(run.blocks), idx);
  }

  /** A run that was not cut short asked every question it had, once. */
  lemma AskedOnce(file: seq<Row>, run: Run)
    requires Resumed(file, run) && run.complete
    ensures forall idx :: multiset(Asked(run.blocks))[idx] == if idx in Todo(run) then 1 else 0
  {
    forall idx
      ensures multiset(Asked(run.blocks))[idx] == if idx in Todo(run) then 1 else 0
    {
      RemainingExact(Considered(run.config), run.skip);
      DistinctCount(Todo(run), idx);
    }
  }

  /** Some text of the response shows something. */
  predicate Answers(o: Outcome) {
    o.Choices? && (Shows(o.first) || exists j :: 0 <= j < |o.others| && Shows(o.others[j]))
  }

  predicate Shows(text: Option<string>) {
    text.Some? && Visible(text.value)
  }

  /** After it, the next run retries a question exactly when the request failed or no text of the response shows
      anything. */
  lemma RetriedExactly(file: seq<Row>, run: Run, next: Run, k: nat)
    requires Resumed(file, run) && Resumed(file + Rows(run.blocks), next)
    requires run.complete && run.config.policy.Success? && next.config == run.config
    requires k < |run.blocks|
    ensures run.blocks[k].idx in Todo(next) <==> !Answers(run.blocks[k].outcome)
  {
    OwnBlock(run.blocks, Usable, k);
    WholeRows(run, k);
    NextTodo(file, run, next, run.blocks[k].idx);
    assert run.blocks[k] in run.blocks;
    AnswersUsable(run.blocks[k]);
  }

  lemma TextsUsable(b: Block, texts: seq<Option<string>>)
    requires AllRows(b) == ChoiceRows(b.idx, b.answer, texts)
    ensures UsableRows(AllRows(b), b.idx) != [] <==> exists j :: 0 <= j < |texts| && Shows(texts[j])
  {
    var rows := AllRows(b);
    SomePasses(rows, Usable, b.idx);
    forall j | 0 <= j < |texts|
      ensures rows[j].idx == Some(b.idx) && (Usable(rows[j]) <==> Shows(texts[j]))
    {
      UsableIsVisible(rows[j]);
    }
  }

  lemma SomeShows(first: Option<string>, others: seq<Option<string>>)
    ensures (exists j :: 0 <= j < |[first] + others| && Shows(([first] + others)[j])) <==>
              Answers(Choices(first, others))
  {
    var texts := [first] + others;
    assert texts[0] == first;
    assert forall j :: 0 <= j < |others| ==> texts[j + 1] == others[j];
    if j :| 0 <= j < |texts| && Shows(texts[j]) {
      assert j == 0 || Shows(others[j - 1]);
    }
  }

  lemma AnswersUsable(b: Block)
    ensures UsableRows(AllRows(b), b.idx) != [] <==> Answers(b.outcome)
  {
    if b.outcome.Choices? {
      TextsUsable(b, [b.outcome.first] + b.outcome.others);
      SomeShows(b.outcome.first, b.outcome.others);
    } else {
      assert AllRows(b)[..0] == [] && Passing([], Usable, b.idx) == [];
    }
  }

  lemma WholeRows(run: Run, k: nat)
    requires RunOf(Todo(run), Workers(run.config.maxConcurrency, |Todo(run)|), run.blocks, true) && k < |run.blocks|
    ensures BlockRows(run.blocks[k]) == AllRows(run.blocks[k])
  {
    assert Whole(run.blocks[k]);
  }

  // ---------------------------------------------------------------- rows the evaluators count

  /** The rows both evaluators use for an index: no error and a text, blank or not. */
  function CountedRows(file: seq<Row>, idx: int): seq<Row> {
    RowsFor(OkRows(file), idx)
  }

  lemma {:induction false} CountedAre(file: seq<Row>, idx: int)
    ensures CountedRows(file, idx) == Passing(file, IsOk, idx)
  {
    if |file| > 0 {
      var front, last := file[..|file| - 1], file[|file| - 1];
      CountedAre(front, idx);
      RowsForSnoc(OkRows(front), last);
      assert OkRows(front) + [] == OkRows(front);
    }
  }

  lemma CountedConcat(a: seq<Row>, b: seq<Row>, idx: int)
    ensures CountedRows(a + b, idx) == CountedRows(a, idx) + CountedRows(b, idx)
  {
    CountedAre(a, idx);
    CountedAre(b, idx);
    CountedAre(a + b, idx);
    PassingConcat(a, b, IsOk, idx);
  }

  /** The counted rows of an index are the rows of its question in every evaluation of the file, so their number is
      the n of its pass@k. */
  lemma CountedByEvaluators(file: seq<Row>, idx: int)
    requires CountedRows(file, idx) != []
    ensures exists i :: 0 <= i < |QuestionsIn(file)| && QuestionsIn(file)[i] == QuestionOf(CountedRows(file, idx))
    ensures |QuestionOf(CountedRows(file, idx)).rows| == |CountedRows(file, idx)|
  {
    var ok := OkRows(file);
    var order := Order(Indices(ok));
    IndicesHaveRows(ok, idx);
    assert idx in order;
    QuestionListed(ok, order, idx);
    var i :| 0 <= i < |QuestionsAt(ok, order)| && QuestionsAt(ok, order)[i] == QuestionOf(RowsFor(ok, idx));
    assert QuestionsIn(file)[i] == QuestionOf(CountedRows(file, idx));
    QuestionSize(CountedRows(file, idx));
  }

  /** The file counts the index, but only with blank text, and the index is among the questions considered. */
  ghost predicate BlankOnly(file: seq<Row>, config: Config, idx: int) {
    0 <= idx < Considered(config) && CountedRows(file, idx) != [] && UsableRows(file, idx) == []
  }

  /** A run added to rows that are already counted. */
  ghost predicate CountedTwice(file: seq<Row>, run: Run, idx: int) {
    CountedRows(file, idx) != [] && CountedRows(Rows(run.blocks), idx) != []
  }

  lemma {:induction false} CountedSeen(file: seq<Row>, idx: int)
    requires CountedRows(file, idx) != []
    ensures Done(file, Any, idx)
  {
    CountedAre(file, idx);
    PassingSeen(file, IsOk, idx);
  }

  lemma {:induction false} PassingSeen(file: seq<Row>, test: Row -> bool, idx: int)
    requires Passing(file, test, idx) != []
    ensures exists r :: 0 <= r < |file| && file[r].idx == Some(idx)
  {
    var n := |file| - 1;
    if file[n].idx != Some(idx) {
      PassingSeen(file[..n], test, idx);
      var r :| 0 <= r < n && file[..n][r].idx == Some(idx);
      assert file[r].idx == Some(idx);
    }
  }

  /** A run that adds counted rows to an index has asked for it. */
  lemma CountedAsked(file: seq<Row>, run: Run, idx: int)
    requires Resumed(file, run) && CountedRows(Rows(run.blocks), idx) != []
    ensures idx in Asked(run.blocks) && idx in Todo(run)
  {
    CountedAre(Rows(run.blocks), idx);
    if idx !in Asked(run.blocks) {
      NotAmong(run.blocks, idx);
      NoBlock(run.blocks, IsOk, idx);
      assert false;
    }
    var k :| 0 <= k < |run.blocks| && Asked(run.blocks)[k] == idx;
    assert run.blocks[k] in run.blocks;
  }

  /** One run: an index is counted from both the file and the run exactly when the policy retries it, the file has
      only blank text for it, and the run brought it some text. */
  lemma CountedTwiceExactly(file: seq<Row>, run: Run, idx: int)
    requires Resumed(file, run)
    ensures CountedTwice(file, run, idx) <==>
              && run.config.policy.Success? && BlankOnly(file, run.config, idx)
              && CountedRows(Rows(run.blocks), idx) != []
  {
    if CountedTwice(file, run, idx) {
      CountedAsked(file, run, idx);
      RemainingExact(Considered(run.config), run.skip);
      CountedSeen(file, idx);
      UsableMeansDone(file, idx);
    }
  }

  /** The response of a whole block has a text. */
  predicate HasText(o: Outcome) {
    o.Choices? && (o.first.Some? || exists j :: 0 <= j < |o.others| && o.others[j].Some?)
  }

  lemma {:induction false} SomePasses(file: seq<Row>, test: Row -> bool, idx: int)
    ensures Passing(file, test, idx) != [] <==> exists r :: 0 <= r < |file| && file[r].idx == Some(idx) && test(file[r])
  {
    if |file| > 0 {
      var n := |file| - 1;
      SomePasses(file[..n], test, idx);
      assert forall r :: 0 <= r < n ==> file[..n][r] == file[r];
    }
  }

  lemma SomeText(first: Option<string>, others: seq<Option<string>>)
    ensures (exists j :: 0 <= j < |[first] + others| && ([first] + others)[j].Some?) <==>
              HasText(Choices(first, others))
  {
    var texts := [first] + others;
    assert texts[0] == first;
    assert forall j :: 0 <= j < |others| ==> texts[j + 1] == others[j];
    if j :| 0 <= j < |texts| && texts[j].Some? {
      assert j == 0 || others[j - 1].Some?;
    }
  }

  lemma ChoicesCounted(b: Block, texts: seq<Option<string>>)
    requires AllRows(b) == ChoiceRows(b.idx, b.answer, texts)
    ensures CountedRows(AllRows(b), b.idx) != [] <==> exists j :: 0 <= j < |texts| && texts[j].Some?
  {
    var rows := AllRows(b);
    CountedAre(rows, b.idx);
    SomePasses(rows, IsOk, b.idx);
    if r :| 0 <= r < |rows| && rows[r].idx == Some(b.idx) && IsOk(rows[r]) {
      assert texts[r].Some?;
    }
    if j :| 0 <= j < |texts| && texts[j].Some? {
      assert rows[j].idx == Some(b.idx) && IsOk(rows[j]);
    }
  }

  lemma TextCounted(b: Block)
    ensures CountedRows(AllRows(b), b.idx) != [] <==> HasText(b.outcome)
  {
    if b.outcome.Choices? {
      ChoicesCounted(b, [b.outcome.first] + b.outcome.others);
      SomeText(b.outcome.first, b.outcome.others);
    } else {
      CountedAre(AllRows(b), b.idx);
      assert AllRows(b)[..0] == [] && Passing([], IsOk, b.idx) == [];
    }
  }

  /** The same for a run that was not cut short, in terms of the response to the index. */
  lemma CountedTwiceAsked(file: seq<Row>, run: Run, k: nat)
    requires Resumed(file, run) && run.complete && k < |run.blocks|
    ensures CountedTwice(file, run, run.blocks[k].idx) <==>
              && run.config.policy.Success? && BlankOnly(file, run.config, run.blocks[k].idx)
              && HasText(run.blocks[k].outcome)
  {
    var idx := run.blocks[k].idx;
    CountedTwiceExactly(file, run, idx);
    CountedAre(Rows(run.blocks), idx);
    OwnBlock(run.blocks, IsOk, k);
    WholeRows(run, k);
    CountedAre(AllRows(run.blocks[k]), idx);
    TextCounted(run.blocks[k]);
  }

  // ---------------------------------------------------------------- and over a history

  /** In how many of the starting file and the runs an index has counted rows. */
  ghost function Sources(start: seq<Row>, runs: seq<Run>, idx: int): nat {
    if |runs| == 0 then if CountedRows(start, idx) == [] then 0 else 1
    else
      var n := |runs| - 1;
      Sources(start, runs[..n], idx) + if CountedRows(Rows(runs[n].blocks), idx) == [] then 0 else 1
  }

  /** Run r retries an index that the file counts with blank text only, and gets a text for it. */
  ghost predicate Retries(start: seq<Row>, runs: seq<Run>, r: nat, idx: int) {
    && r < |runs| && runs[r].config.policy.Success?
    && BlankOnly(FileAfter(start, runs[..r]), runs[r].config, idx)
    && CountedRows(Rows(runs[r].blocks), idx) != []
  }

  ghost predicate SomeRetry(start: seq<Row>, runs: seq<Run>, idx: int) {
    exists r :: Retries(start, runs, r, idx)
  }

  lemma {:induction false} NoSource(start: seq<Row>, runs: seq<Run>, idx: int)
    ensures Sources(start, runs, idx) == 0 <==> CountedRows(FileAfter(start, runs), idx) == []
  {
    if |runs| > 0 {
      var n := |runs| - 1;
      NoSource(start, runs[..n], idx);
      CountedConcat(FileAfter(start, runs[..n]), Rows(runs[n].blocks), idx);
    }
  }

  lemma RetriesSnoc(start: seq<Row>, front: seq<Run>, run: Run, idx: int)
    ensures SomeRetry(start, front + [run], idx) <==>
              SomeRetry(start, front, idx) || Retries(start, front + [run], |front|, idx)
  {
    var runs := front + [run];
    forall r: nat | r < |front|
      ensures Retries(start, runs, r, idx) <==> Retries(start, front, r, idx)
    {
      assert runs[..r] == front[..r];
    }
    if r :| Retries(start, runs, r, idx) {
      assert r == |front| || Retries(start, front, r, idx);
    }
    if r :| Retries(start, front, r, idx) {
      assert Retries(start, runs, r, idx);
    }
  }

  /** There is more than one source exactly when some run retried the index after blank text only. */
  ghost predicate Explained(start: seq<Row>, runs: seq<Run>, idx: int) {
    Sources(start, runs, idx) > 1 <==> SomeRetry(start, runs, idx)
  }

  lemma SourcesSnoc(start: seq<Row>, front: seq<Run>, run: Run, idx: int)
    requires Resumed(FileAfter(start, front), run)
    requires Explained(start, front, idx)
    ensures Explained(start, front + [run], idx)
  {
    var runs := front + [run];
    assert runs[..|front|] == front && runs[|front|] == run;
    NoSource(start, front, idx);
    CountedTwiceExactly(FileAfter(start, front), run, idx);
    RetriesSnoc(start, front, run, idx);
    assert Retries(start, runs, |front|, idx) <==> CountedTwice(FileAfter(start, front), run, idx);
  }

  /** Over any history, the counted rows of an index come from more than one source exactly when some run retried it
      after blank text only. */
  lemma {:induction false} SeveralSources(start: seq<Row>, runs: seq<Run>, idx: int)
    requires History(start, runs)
    ensures Explained(start, runs, idx)
  {
    if |runs| > 0 {
      var n := |runs| - 1;
      SeveralSources(start, runs[..n], idx);
      assert runs == runs[..n] + [runs[n]];
      SourcesSnoc(start, runs[..n], runs[n], idx);
    }
  }

  /** Otherwise all the counted rows of an index are rows of one response to one request, as far as they were not
      there from the start. */
  lemma {:induction false} OneCountedResponse(start: seq<Row>, runs: seq<Run>, idx: int) returns (r: nat, k: nat)
    requires History(start, runs) && CountedRows(start, idx) == []
    requires CountedRows(FileAfter(start, runs), idx) != [] && !SomeRetry(start, runs, idx)
    ensures FromBlock(FileAfter(start, runs), IsOk, runs, r, k, idx)
  {
    var n := |runs| - 1;
    var front, run := FileAfter(start, runs[..n]), runs[n];
    assert runs == runs[..n] + [run];
    RetriesSnoc(start, runs[..n], run, idx);
    CountedConcat(front, Rows(run.blocks), idx);
    if CountedRows(front, idx) != [] {
      CountedOnce(front, run, idx);
      r, k := OneCountedResponse(start, runs[..n], idx);
    } else {
      r := n;
      k := FirstCounted(front, run, idx);
    }
  }

  /** A run that retries nothing leaves the counted rows as they are. */
  lemma CountedOnce(file: seq<Row>, run: Run, idx: int)
    requires Resumed(file, run) && CountedRows(file, idx) != []
    requires !(run.config.policy.Success? && BlankOnly(file, run.config, idx)
               && CountedRows(Rows(run.blocks), idx) != [])
    ensures Passing(file + Rows(run.blocks), IsOk, idx) == Passing(file, IsOk, idx)
  {
    CountedTwiceExactly(file, run, idx);
    CountedAre(Rows(run.blocks), idx);
    PassingConcat(file, Rows(run.blocks), IsOk, idx);
  }

  lemma FirstCounted(file: seq<Row>, run: Run, idx: int) returns (k: nat)
    requires Resumed(file, run) && CountedRows(file, idx) == [] && CountedRows(Rows(run.blocks), idx) != []
    ensures k < |run.blocks| && run.blocks[k].idx == idx
    ensures Passing(file + Rows(run.blocks), IsOk, idx) == Passing(BlockRows(run.blocks[k]), IsOk, idx)
  {
    CountedAre(file, idx);
    CountedAre(Rows(run.blocks), idx);
    k := FirstRows(file, IsOk, run, idx);
  }

  // ---------------------------------------------------------------- blank answers stay

  /** One answer for every question. */
  function OneAnswerEach(data: seq<string>, todo: seq<int>, text: string): seq<Block> {
    seq(|todo|, k requires 0 <= k < |todo| =>
      Block(todo[k], AnswerOf(data, todo[k]), Choices(Some(text), []), 1))
  }

  lemma AnswersRun(data: seq<string>, todo: seq<int>, text: string, workers: nat)
    requires Distinct(todo) && workers > 0
    ensures RunOf(todo, workers, OneAnswerEach(data, todo, text), true)
    ensures Answered(data, OneAnswerEach(data, todo, text))
  {
    var blocks := OneAnswerEach(data, todo, text);
    assert Asked(blocks) == todo;
    forall k | 0 <= k < |blocks|
      ensures Whole(blocks[k]) && blocks[k].idx in todo && blocks[k].idx in todo[..Min(|todo|, k + workers)]
    {
      assert |AllRows(blocks[k])| == 1;
      assert todo[..Min(|todo|, k + workers)][k] == todo[k];
    }
  }

  /** Whenever the file counts a considered index with blank text only, there is a run under the success policy,
      with an answer for everything it asks, after which the index is counted twice. */
  lemma BlankAnswersStay(file: seq<Row>, config: Config, idx: int, text: string) returns (run: Run)
    requires config.policy.Success? && BlankOnly(file, config, idx)
    ensures run.config == config && Resumed(file, run) && run.complete && CountedTwice(file, run, idx)
  {
    var skip := set r | r in file && r.idx.Some? && Usable(r) :: r.idx.value;
    forall i
      ensures i in skip <==> Done(file, config.policy, i)
    {
      if i in skip {
        var r :| r in file && r.idx == Some(i) && Usable(r);
        var k :| 0 <= k < |file| && file[k] == r;
      }
    }
    var todo := Remaining(Considered(config), skip);
    RemainingExact(Considered(config), skip);
    var blocks := OneAnswerEach(config.data, todo, text);
    AnswersRun(config.data, todo, text, Workers(config.maxConcurrency, |todo|));
    run := Run(config, skip, blocks, true);
    UsableMeansDone(file, idx);
    var k :| 0 <= k < |todo| && todo[k] == idx;
    assert blocks[k].idx == idx && HasText(blocks[k].outcome);
    CountedTwiceAsked(file, run, k);
  }

  // ---------------------------------------------------------------- files written by this program

  /** No row carries a question type. */
  ghost predicate Untyped(file: seq<Row>) {
    forall r :: 0 <= r < |file| ==> !file[r].questionType
  }

  lemma {:induction false} RowsUntyped(blocks: seq<Block>)
    ensures Untyped(Rows(blocks))
  {
    if |blocks| > 0 {
      RowsUntyped(blocks[..|blocks| - 1]);
    }
  }

  /** The workers write no question types, so on their files both evaluators use the same judge. */
  lemma {:induction false} WrittenUntyped(start: seq<Row>, runs: seq<Run>)
    requires Untyped(start)
    ensures Untyped(FileAfter(start, runs)) && RuleJudged(QuestionsIn(FileAfter(start, runs)))
  {
    if |runs| > 0 {
      WrittenUntyped(start, runs[..|runs| - 1]);
      RowsUntyped(runs[|runs| - 1].blocks);
    }
    UntypedJudged(FileAfter(start, runs));
  }

  lemma UntypedJudged(file: seq<Row>)
    requires Untyped(file)
    ensures RuleJudged(QuestionsIn(file))
  {
    var ok := OkRows(file);
    forall r | r in ok
      ensures !r.questionType
    {
      OkRowsFrom(file, r);
    }
    UntypedQuestions(ok, Order(Indices(ok)));
  }
}
