/** The request workers of sample_eval.py, the responses file they append to, and the scan that resumes an
    interrupted run. A request's outcome, the moment each worker acts and the moment a run is cut short are
    arbitrary. */
module ResumeLog {
  import opened Basics
  import opened Responses

  predicate Blank(text: string) {
    forall i :: 0 <= i < |text| ==> text[i] in " \t\n\r"
  }

  /** A row with usable text: the scan's test for a success. */
  predicate Usable(r: Row) {
    IsOk(r) && !Blank(r.text.value)
  }

  /** A text that shows something: a character that is no space, tab or line break. */
  predicate Visible(text: string) {
    exists i :: 0 <= i < |text| && text[i] != ' ' && text[i] != '\t' && text[i] != '\n' && text[i] != '\r'
  }

  lemma UsableIsVisible(r: Row)
    ensures Usable(r) <==> !r.failed && r.text != None && Visible(r.text.value)
  {
    var blank := " \t\n\r";
    forall c: char
      ensures c in blank <==> c == ' ' || c == '\t' || c == '\n' || c == '\r'
    {
      assert blank[0] == ' ' && blank[1] == '\t' && blank[2] == '\n' && blank[3] == '\r';
    }
  }

  /** What a request comes back with: nothing, a response without choices, or the texts of its choices. */
  datatype Outcome = Failed(error: bool) | NoChoices | Choices(first: Option<string>, others: seq<Option<string>>)

  function ChoiceRows(idx: int, answer: string, texts: seq<Option<string>>): seq<Row> {
    seq(|texts|, j requires 0 <= j < |texts| => Row(Some(idx), false, texts[j], Some(j), answer, false))
  }

  /** The rows appended for an outcome, none of them with a question type; answer is the gold answer of the
      question. */
  function RowsOf(idx: int, answer: string, o: Outcome): (rows: seq<Row>)
    ensures |rows| > 0
    ensures forall j :: 0 <= j < |rows| ==> rows[j].idx == Some(idx) && !rows[j].questionType
  {
    match o
    case Failed(error) => [Row(Some(idx), error, None, None, answer, false)]
    case NoChoices => [Row(Some(idx), true, None, None, answer, false)]
    case Choices(first, others) => ChoiceRows(idx, answer, [first] + others)
  }

  // ---------------------------------------------------------------- the resume scan

  datatype Policy = Success | Any

  ghost predicate Done(file: seq<Row>, policy: Policy, idx: int) {
    exists r :: 0 <= r < |file| && file[r].idx == Some(idx) && (policy.Any? || Usable(file[r]))
  }

  /** The index has a row, and under the success policy one with a text that shows something. */
  ghost predicate Seen(file: seq<Row>, policy: Policy, idx: int) {
    exists r :: 0 <= r < |file| && file[r].idx == Some(idx) &&
      (policy == Any || (!file[r].failed && file[r].text != None && Visible(file[r].text.value)))
  }

  lemma DoneIsSeen(file: seq<Row>, policy: Policy, idx: int)
    ensures Done(file, policy, idx) <==> Seen(file, policy, idx)
  {
    forall r | 0 <= r < |file|
      ensures Usable(file[r]) <==> !file[r].failed && file[r].text != None && Visible(file[r].text.value)
    {
      UsableIsVisible(file[r]);
    }
  }

  method ScanResponses(file: seq<Row>, policy: Policy) returns (skip: set<int>)
    ensures forall idx :: idx in skip <==> Done(file, policy, idx)
    ensures forall idx :: idx in skip <==> Seen(file, policy, idx)
  {
    var seenAny, seenSuccess := {}, {};
    for r := 0 to |file|
      invariant forall idx :: idx in seenAny <==> Done(file[..r], Any, idx)
      invariant forall idx :: idx in seenSuccess <==> Done(file[..r], Success, idx)
    {
      DoneSnoc(file[..r], file[r]);
      assert file[..r + 1] == file[..r] + [file[r]];
      if file[r].idx.Some? {
        seenAny := seenAny + {file[r].idx.value};
        if Usable(file[r]) {
          seenSuccess := seenSuccess + {file[r].idx.value};
        }
      }
    }
    assert file[..|file|] == file;
    skip := if policy.Any? then seenAny else seenSuccess;
    forall idx
      ensures Done(file, policy, idx) <==> Seen(file, policy, idx)
    {
      DoneIsSeen(file, policy, idx);
    }
  }

  lemma DoneSnoc(file: seq<Row>, row: Row)
    ensures forall policy, idx :: Done(file + [row], policy, idx) <==>
              Done(file, policy, idx) || (row.idx == Some(idx) && (policy.Any? || Usable(row)))
  {
    forall policy, idx
      ensures Done(file + [row], policy, idx) <==>
                Done(file, policy, idx) || (row.idx == Some(idx) && (policy.Any? || Usable(row)))
    {
      assert (file + [row])[|file|] == row;
      assert forall r :: 0 <= r < |file| ==> (file + [row])[r] == file[r];
    }
  }

  // ---------------------------------------------------------------- the queue

  /** data[:max_questions] when max_questions is positive, all of data otherwise. */
  function Base(count: nat, maxQuestions: int): nat {
    if maxQuestions <= 0 then count else Min(count, maxQuestions)
  }

  function Remaining(base: nat, skip: set<int>): seq<int> {
    if base == 0 then [] else Remaining(base - 1, skip) + if base - 1 in skip then [] else [base - 1]
  }

  lemma {:induction false} RemainingExact(base: nat, skip: set<int>)
    ensures Distinct(Remaining(base, skip)) && Increasing(Remaining(base, skip))
    ensures forall i :: i in Remaining(base, skip) <==> 0 <= i < base && i !in skip
  {
    if base > 0 {
      RemainingExact(base - 1, skip);
      var front := Remaining(base - 1, skip);
      forall i | 0 <= i < |front|
        ensures front[i] < base - 1
      {
        assert front[i] in front;
      }
    }
  }

  method FillQueue(count: nat, maxQuestions: int, skip: set<int>) returns (queue: seq<int>)
    ensures queue == Remaining(Base(count, maxQuestions), skip)
  {
    queue := [];
    for i := 0 to Base(count, maxQuestions)
      invariant queue == Remaining(i, skip)
    {
      if i !in skip {
        queue := queue + [i];
      }
    }
  }

  // ---------------------------------------------------------------- the workers

  /** The rows one request left in the file: all of them, or fewer when the run was cut between two appends. */
  datatype Block = Block(idx: int, answer: string, outcome: Outcome, kept: nat)

  /** The gold answer of question idx; data lists them. */
  function AnswerOf(data: seq<string>, idx: int): string {
    if 0 <= idx < |data| then data[idx] else ""
  }

  /** The rows are those of the response as far as it went, with the gold answer of the question. */
  ghost predicate Answered(data: seq<string>, blocks: seq<Block>) {
    forall k :: 0 <= k < |blocks| ==>
      blocks[k].answer == AnswerOf(data, blocks[k].idx) && blocks[k].kept <= |AllRows(blocks[k])|
  }

  /** Everything the request of a block came back with. */
  function AllRows(b: Block): (rows: seq<Row>)
    ensures |rows| > 0
    ensures forall j :: 0 <= j < |rows| ==> rows[j].idx == Some(b.idx) && !rows[j].questionType
  {
    RowsOf(b.idx, b.answer, b.outcome)
  }

  predicate Whole(b: Block) {
    b.kept == |AllRows(b)|
  }

  function BlockRows(b: Block): seq<Row> {
    AllRows(b)[..Min(b.kept, |AllRows(b)|)]
  }

  function Rows(blocks: seq<Block>): seq<Row> {
    if |blocks| == 0 then [] else Rows(blocks[..|blocks| - 1]) + BlockRows(blocks[|blocks| - 1])
  }

  ghost function Asked(blocks: seq<Block>): seq<int> {
    seq(|blocks|, i requires 0 <= i < |blocks| => blocks[i].idx)
  }

  /** How many workers hold index x. */
  function InFlight(busy: seq<Option<int>>, x: int): nat {
    if |busy| == 0 then 0 else InFlight(busy[..|busy| - 1], x) + if busy[|busy| - 1] == Some(x) then 1 else 0
  }

  /** How many workers hold one. */
  function Working(busy: seq<Option<int>>): nat {
    if |busy| == 0 then 0 else Working(busy[..|busy| - 1]) + if busy[|busy| - 1].Some? then 1 else 0
  }

  /** Requests that are finished, in flight or still queued are exactly those of the queue at the start, which is
      taken from in order. */
  ghost predicate Accounted(start: seq<int>, taken: nat, blocks: seq<Block>, busy: seq<Option<int>>, queue: seq<int>) {
    && taken <= |start| && queue == start[taken..] && taken == |blocks| + Working(busy)
    && forall x :: PlacedOnce(start[..taken], Asked(blocks), busy, x)
  }

  ghost predicate PlacedOnce(all: seq<int>, done: seq<int>, busy: seq<Option<int>>, x: int) {
    multiset(done)[x] + InFlight(busy, x) == multiset(all)[x]
  }

  /** The k-th request to finish was among the first k + workers to be queued. */
  ghost predicate NearlyInOrder(start: seq<int>, blocks: seq<Block>, workers: nat) {
    forall k :: 0 <= k < |blocks| ==> blocks[k].idx in start[..Min(|start|, k + workers)]
  }

  /** What a run leaves behind: one block for each request it finished, and when it was not cut short, for each
      request it had. */
  ghost predicate RunOf(todo: seq<int>, workers: nat, blocks: seq<Block>, complete: bool) {
    && Distinct(Asked(blocks)) && (forall b :: b in blocks ==> b.idx in todo)
    && (forall k :: 0 <= k < |blocks| && (complete || k < |blocks| - 1) ==> Whole(blocks[k]))
    && NearlyInOrder(todo, blocks, workers)
    && (complete ==> multiset(Asked(blocks)) == multiset(todo))
  }

  function Workers(maxConcurrency: int, queued: nat): nat {
    Min(Max(1, maxConcurrency), if queued > 0 then queued else 1)
  }

  lemma WorkerSnoc(busy: seq<Option<int>>, slot: Option<int>, x: int)
    ensures InFlight(busy + [slot], x) == InFlight(busy, x) + if slot == Some(x) then 1 else 0
    ensures Working(busy + [slot]) == Working(busy) + if slot.Some? then 1 else 0
  {
    assert (busy + [slot])[..|busy|] == busy;
  }

  lemma {:induction false} WorkersConcat(a: seq<Option<int>>, b: seq<Option<int>>, x: int)
    ensures InFlight(a + b, x) == InFlight(a, x) + InFlight(b, x) && Working(a + b) == Working(a) + Working(b)
  {
    if |b| == 0 {
      assert a + b == a;
    } else {
      WorkersConcat(a, b[..|b| - 1], x);
      SplitLast(a, b);
      WorkerSnoc(a + b[..|b| - 1], b[|b| - 1], x);
    }
  }

  /** Changing one slot changes what is held there and nothing else. */
  lemma SlotChange(busy: seq<Option<int>>, w: nat, to: Option<int>, x: int)
    requires w < |busy|
    ensures InFlight(busy[w := to], x) + (if busy[w] == Some(x) then 1 else 0)
         == InFlight(busy, x) + (if to == Some(x) then 1 else 0)
    ensures Working(busy[w := to]) + (if busy[w].Some? then 1 else 0) == Working(busy) + (if to.Some? then 1 else 0)
  {
    var front, back := busy[..w], busy[w + 1..];
    assert busy == front + [busy[w]] + back && busy[w := to] == front + [to] + back;
    WorkersConcat(front + [busy[w]], back, x);
    WorkersConcat(front + [to], back, x);
    WorkerSnoc(front, busy[w], x);
    WorkerSnoc(front, to, x);
  }

  lemma {:induction false} WorkingSize(busy: seq<Option<int>>)
    ensures Working(busy) <= |busy|
    ensures Working(busy) == 0 ==> forall x :: InFlight(busy, x) == 0
  {
    if |busy| > 0 {
      WorkingSize(busy[..|busy| - 1]);
    }
  }

  lemma {:induction false} AllIdle(busy: seq<Option<int>>)
    requires forall w :: 0 <= w < |busy| ==> busy[w] == None
    ensures Working(busy) == 0
  {
    if |busy| > 0 {
      AllIdle(busy[..|busy| - 1]);
    }
  }

  lemma TakeAccounted(start: seq<int>, taken: nat, blocks: seq<Block>, busy: seq<Option<int>>, queue: seq<int>, w: nat)
    requires Accounted(start, taken, blocks, busy, queue)
    requires |queue| > 0 && w < |busy| && busy[w].None?
    ensures Accounted(start, taken + 1, blocks, busy[w := Some(queue[0])], queue[1..])
    ensures Working(busy[w := Some(queue[0])]) == Working(busy) + 1
  {
    PrefixNext(start, taken);
    SlotChange(busy, w, Some(queue[0]), 0);
    var all, done, busy' := start[..taken + 1], Asked(blocks), busy[w := Some(queue[0])];
    forall x
      ensures PlacedOnce(all, done, busy', x)
    {
      assert PlacedOnce(start[..taken], Asked(blocks), busy, x);
      SlotChange(busy, w, Some(queue[0]), x);
    }
  }

  lemma FinishAccounted(start: seq<int>, taken: nat, blocks: seq<Block>, busy: seq<Option<int>>, queue: seq<int>,
                        w: nat, b: Block)
    requires Accounted(start, taken, blocks, busy, queue)
    requires w < |busy| && busy[w] == Some(b.idx)
    ensures Accounted(start, taken, blocks + [b], busy[w := None], queue)
    ensures Working(busy[w := None]) < Working(busy)
  {
    assert Asked(blocks + [b]) == Asked(blocks) + [b.idx];
    SlotChange(busy, w, None, 0);
    var all, done, busy' := start[..taken], Asked(blocks + [b]), busy[w := None];
    forall x
      ensures PlacedOnce(all, done, busy', x)
    {
      assert PlacedOnce(start[..taken], Asked(blocks), busy, x);
      SlotChange(busy, w, None, x);
    }
  }

  lemma {:induction false} DistinctCount(s: seq<int>, x: int)
    requires Distinct(s)
    ensures multiset(s)[x] == if x in s then 1 else 0
  {
    if |s| > 0 {
      var front, last := s[..|s| - 1], s[|s| - 1];
      DistinctCount(front, x);
      assert s == front + [last];
      assert last !in front;
    }
  }

  /** The finished indices are distinct, queued and not too far ahead. */
  lemma FinishedDistinct(start: seq<int>, taken: nat, blocks: seq<Block>, busy: seq<Option<int>>, queue: seq<int>)
    requires Accounted(start, taken, blocks, busy, queue) && Distinct(start)
    ensures Distinct(Asked(blocks))
    ensures taken <= |blocks| + |busy|
    ensures forall x :: x in Asked(blocks) || InFlight(busy, x) > 0 ==> x in start[..taken]
  {
    WorkingSize(busy);
    var all := Asked(blocks);
    forall i, j | 0 <= i < j < |all|
      ensures all[i] != all[j]
    {
      if all[i] == all[j] {
        assert PlacedOnce(start[..taken], all, busy, all[i]);
        DistinctCount(start[..taken], all[i]);
        CountTwice(all, i, j);
        assert false;
      }
    }
    forall x | x in all || InFlight(busy, x) > 0
      ensures x in start[..taken]
    {
      assert PlacedOnce(start[..taken], all, busy, x);
      assert x in multiset(start[..taken]);
    }
  }

  lemma CountTwice(s: seq<int>, i: nat, j: nat)
    requires i < j < |s| && s[i] == s[j]
    ensures multiset(s)[s[i]] >= 2
  {
    assert s == s[..j] + [s[j]] + s[j + 1..];
    assert s[..j] == s[..i] + [s[i]] + s[i + 1..j];
  }

  /** The state of a run between two steps of its workers. */
  ghost predicate Running(start: seq<int>, taken: nat, workers: nat, blocks: seq<Block>, busy: seq<Option<int>>,
                          queue: seq<int>) {
    && Distinct(start) && |busy| == workers && Accounted(start, taken, blocks, busy, queue)
    && RunOf(start, workers, blocks, false) && (forall b :: b in blocks ==> Whole(b))
  }

  lemma FinishKeeps(start: seq<int>, taken: nat, workers: nat, blocks: seq<Block>, busy: seq<Option<int>>,
                    queue: seq<int>, w: nat, b: Block)
    requires Running(start, taken, workers, blocks, busy, queue)
    requires w < |busy| && busy[w] == Some(b.idx)
    ensures RunOf(start, workers, blocks + [b], false)
    ensures Whole(b) ==> Running(start, taken, workers, blocks + [b], busy[w := None], queue)
    ensures Working(busy[w := None]) < Working(busy)
  {
    SlotChange(busy, w, None, b.idx);
    FinishedDistinct(start, taken, blocks, busy, queue);
    assert b.idx in start[..taken];
    assert b.idx in start[..Min(|start|, |blocks| + workers)];
    FinishAccounted(start, taken, blocks, busy, queue, w, b);
    FinishedDistinct(start, taken, blocks + [b], busy[w := None], queue);
  }

  lemma TakeKeeps(start: seq<int>, taken: nat, workers: nat, blocks: seq<Block>, busy: seq<Option<int>>,
                  queue: seq<int>, w: nat)
    requires Running(start, taken, workers, blocks, busy, queue)
    requires |queue| > 0 && w < |busy| && busy[w].None?
    ensures Running(start, taken + 1, workers, blocks, busy[w := Some(queue[0])], queue[1..])
    ensures Working(busy[w := Some(queue[0])]) == Working(busy) + 1
  {
    TakeAccounted(start, taken, blocks, busy, queue, w);
  }

  /** The appends of one finished request; `*` is the moment the process may be killed. */
  method AppendRows(idx: int, answer: string, o: Outcome, file: seq<Row>)
    returns (out: seq<Row>, alive: bool, kept: nat)
    ensures kept <= |RowsOf(idx, answer, o)| && (alive ==> kept == |RowsOf(idx, answer, o)|)
    ensures out == file + BlockRows(Block(idx, answer, o, kept))
  {
    var rows := RowsOf(idx, answer, o);
    out, alive, kept := file, true, 0;
    while kept < |rows| && alive
      invariant kept <= |rows| && out == file + rows[..kept]
      decreases |rows| - kept, alive
    {
      alive := *;
      if alive {
        out := out + [rows[kept]];
        kept := kept + 1;
      }
    }
  }

  lemma RunningStart(todo: seq<int>, workers: nat, busy: seq<Option<int>>)
    requires Distinct(todo) && |busy| == workers && forall w :: 0 <= w < |busy| ==> busy[w] == None
    ensures Running(todo, 0, workers, [], busy, todo)
  {
    AllIdle(busy);
    WorkingSize(busy);
    assert todo[..0] == [] && Asked([]) == [];
  }

  lemma RunningEnd(todo: seq<int>, taken: nat, workers: nat, blocks: seq<Block>, busy: seq<Option<int>>)
    requires Running(todo, taken, workers, blocks, busy, [])
    requires forall w :: 0 <= w < |busy| ==> busy[w] == None
    ensures RunOf(todo, workers, blocks, true)
  {
    AllIdle(busy);
    WorkingSize(busy);
    assert todo[..taken] == todo;
    forall x
      ensures multiset(Asked(blocks))[x] == multiset(todo)[x]
    {
      assert PlacedOnce(todo[..taken], Asked(blocks), busy, x);
    }
    assert multiset(Asked(blocks)) == multiset(todo);
  }

  ghost predicate AppendedFor(file: seq<Row>, out: seq<Row>, todo: seq<int>) {
    && file <= out
    && forall r :: |file| <= r < |out| ==> out[r].idx.Some? && out[r].idx.value in todo
  }

  ghost predicate Mentioned(rows: seq<Row>, idx: int) {
    exists r :: 0 <= r < |rows| && rows[r].idx == Some(idx)
  }

  lemma {:induction false} BlocksCover(blocks: seq<Block>, todo: seq<int>)
    requires forall b :: b in blocks ==> b.idx in todo
    ensures forall r :: 0 <= r < |Rows(blocks)| ==> Rows(blocks)[r].idx.Some? && Rows(blocks)[r].idx.value in todo
  {
    if |blocks| > 0 {
      var n := |blocks| - 1;
      BlocksCover(blocks[..n], todo);
      assert blocks[n] in blocks;
    }
  }

  lemma {:induction false} BlockMentions(blocks: seq<Block>, k: nat)
    requires k < |blocks| && Whole(blocks[k])
    ensures Mentioned(Rows(blocks), blocks[k].idx)
  {
    var n := |blocks| - 1;
    var front, last := Rows(blocks[..n]), BlockRows(blocks[n]);
    if k < n {
      BlockMentions(blocks[..n], k);
      var r :| 0 <= r < |front| && front[r].idx == Some(blocks[k].idx);
      assert Rows(blocks)[r] == front[r];
    } else {
      assert last[0].idx == Some(blocks[n].idx);
      assert Rows(blocks)[|front|] == last[0];
    }
  }

  /** Every question still queued is mentioned in the rows of a run that was not cut short. */
  lemma AllMentioned(todo: seq<int>, workers: nat, blocks: seq<Block>, idx: int)
    requires RunOf(todo, workers, blocks, true) && idx in todo
    ensures Mentioned(Rows(blocks), idx)
  {
    assert idx in multiset(todo);
    assert idx in multiset(Asked(blocks));
    var k :| 0 <= k < |blocks| && Asked(blocks)[k] == idx;
    BlockMentions(blocks, k);
  }

  // ---------------------------------------------------------------- what is in the file

  /** How many rows an outcome gives. */
  function Size(o: Outcome): nat {
    if o.Choices? then 1 + |o.others| else 1
  }

  /** How many rows the first k blocks left. */
  function Offset(blocks: seq<Block>, k: nat): nat
    requires k <= |blocks|
  {
    if k == 0 then 0 else Offset(blocks, k - 1) + blocks[k - 1].kept
  }

  /** The rows of one request: for a response with choices one row per choice, with its text, its number and the gold
      answer; otherwise one row that has no text. */
  ghost predicate BlockWritten(data: seq<string>, b: Block, rows: seq<Row>) {
    && |rows| == b.kept <= Size(b.outcome) && 0 <= b.idx < |data|
    && (forall j :: 0 <= j < |rows| ==>
          rows[j].idx == Some(b.idx) && rows[j].answer == data[b.idx] && !rows[j].questionType)
    && match b.outcome
       case Choices(first, others) =>
         forall j :: 0 <= j < |rows| ==>
           && !rows[j].failed && rows[j].choiceIdx == Some(j)
           && rows[j].text == if j == 0 then first else others[j - 1]
       case Failed(error) =>
         forall j :: 0 <= j < |rows| ==> rows[j].failed == error && rows[j].text == None && rows[j].choiceIdx == None
       case NoChoices =>
         forall j :: 0 <= j < |rows| ==> rows[j].failed && rows[j].text == None && rows[j].choiceIdx == None
  }

  /** The file after a run: what it held, and behind it the rows of one request after the other. */
  ghost predicate Written(data: seq<string>, file: seq<Row>, blocks: seq<Block>, out: seq<Row>) {
    && |out| == |file| + Offset(blocks, |blocks|) && out[..|file|] == file
    && forall k :: 0 <= k < |blocks| ==> BlockAt(data, |file| + Offset(blocks, k), blocks[k], out)
  }

  ghost predicate BlockAt(data: seq<string>, from: nat, b: Block, out: seq<Row>) {
    from + b.kept <= |out| && BlockWritten(data, b, out[from..][..b.kept])
  }

  lemma BlockSpelled(data: seq<string>, b: Block)
    requires b.answer == AnswerOf(data, b.idx) && 0 <= b.idx < |data| && b.kept <= |AllRows(b)|
    ensures |AllRows(b)| == Size(b.outcome) && BlockWritten(data, b, BlockRows(b))
  {
    if b.outcome.Choices? {
      var texts := [b.outcome.first] + b.outcome.others;
      forall j | 0 <= j < b.kept
        ensures BlockRows(b)[j] == Row(Some(b.idx), false, texts[j], Some(j), data[b.idx], false)
      {
      }
    }
  }

  lemma {:induction false} OffsetPrefix(blocks: seq<Block>, n: nat, k: nat)
    requires k <= n <= |blocks|
    ensures Offset(blocks[..n], k) == Offset(blocks, k)
  {
    if k > 0 {
      OffsetPrefix(blocks, n, k - 1);
    }
  }

  lemma {:induction false} RowsCount(blocks: seq<Block>)
    requires forall k :: 0 <= k < |blocks| ==> blocks[k].kept <= |AllRows(blocks[k])|
    ensures |Rows(blocks)| == Offset(blocks, |blocks|)
  {
    if |blocks| > 0 {
      var n := |blocks| - 1;
      RowsCount(blocks[..n]);
      OffsetPrefix(blocks, n, n);
    }
  }

  lemma {:induction false} RowsSlice(blocks: seq<Block>, k: nat)
    requires k < |blocks| && forall i :: 0 <= i < |blocks| ==> blocks[i].kept <= |AllRows(blocks[i])|
    ensures Offset(blocks, k) + blocks[k].kept <= |Rows(blocks)|
    ensures Rows(blocks)[Offset(blocks, k)..][..blocks[k].kept] == BlockRows(blocks[k])
  {
    var n := |blocks| - 1;
    RowsCount(blocks[..n]);
    OffsetPrefix(blocks, n, k);
    if k < n {
      RowsSlice(blocks[..n], k);
      EarlierSlice(Rows(blocks[..n]), BlockRows(blocks[n]), Offset(blocks, k), blocks[k].kept);
    } else {
      LastSlice(Rows(blocks[..n]), BlockRows(blocks[n]));
    }
  }

  lemma EarlierSlice<T>(a: seq<T>, b: seq<T>, from: nat, size: nat)
    requires from + size <= |a|
    ensures (a + b)[from..][..size] == a[from..][..size]
  {
  }

  lemma LastSlice<T>(a: seq<T>, b: seq<T>)
    ensures (a + b)[|a|..][..|b|] == b
  {
  }

  lemma LaterSlice<T>(a: seq<T>, b: seq<T>, from: nat, size: nat)
    requires from + size <= |b|
    ensures (a + b)[|a| + from..][..size] == b[from..][..size]
  {
  }

  lemma LogBlock(data: seq<string>, file: seq<Row>, blocks: seq<Block>, k: nat)
    requires Answered(data, blocks) && k < |blocks| && 0 <= blocks[k].idx < |data|
    ensures BlockAt(data, |file| + Offset(blocks, k), blocks[k], file + Rows(blocks))
  {
    RowsSlice(blocks, k);
    BlockSpelled(data, blocks[k]);
    LaterSlice(file, Rows(blocks), Offset(blocks, k), blocks[k].kept);
  }

  lemma LogWritten(data: seq<string>, file: seq<Row>, blocks: seq<Block>)
    requires Answered(data, blocks) && forall k :: 0 <= k < |blocks| ==> 0 <= blocks[k].idx < |data|
    ensures Written(data, file, blocks, file + Rows(blocks))
  {
    RowsCount(blocks);
    forall k | 0 <= k < |blocks|
      ensures BlockAt(data, |file| + Offset(blocks, k), blocks[k], file + Rows(blocks))
    {
      LogBlock(data, file, blocks, k);
    }
  }

  /** A question is asked when it is among those considered and not skipped; they are queued in order. */
  ghost predicate Queued(todo: seq<int>, count: nat, maxQuestions: int, skip: set<int>) {
    && Increasing(todo)
    && forall i :: i in todo <==> 0 <= i < count && (maxQuestions > 0 ==> i < maxQuestions) && i !in skip
  }

  /** Only the last block of a run that was cut short may miss rows. */
  ghost predicate CutAtEnd(blocks: seq<Block>, complete: bool) {
    forall k :: 0 <= k < |blocks| && (complete || k < |blocks| - 1) ==> blocks[k].kept == Size(blocks[k].outcome)
  }

  lemma RunWritten(data: seq<string>, todo: seq<int>, workers: nat, blocks: seq<Block>, complete: bool,
                   file: seq<Row>)
    requires RunOf(todo, workers, blocks, complete) && Answered(data, blocks)
    requires forall i :: i in todo ==> 0 <= i < |data|
    ensures Written(data, file, blocks, file + Rows(blocks)) && CutAtEnd(blocks, complete)
  {
    forall k | 0 <= k < |blocks|
      ensures 0 <= blocks[k].idx < |data| && |AllRows(blocks[k])| == Size(blocks[k].outcome)
    {
      assert blocks[k] in blocks;
      BlockSpelled(data, blocks[k]);
    }
    LogWritten(data, file, blocks);
  }

  /** There are as many workers as allowed, but not more than questions, and always one. */
  lemma WorkersExact(maxConcurrency: int, queued: nat)
    ensures var w := Workers(maxConcurrency, queued);
            if maxConcurrency > 1 && queued > 1 then w <= maxConcurrency && w <= queued &&
              (w == maxConcurrency || w == queued) else w == 1
  {
  }

  method RunRequests(data: seq<string>, maxQuestions: int, skip: set<int>, maxConcurrency: int, file: seq<Row>)
    returns (out: seq<Row>, complete: bool, ghost blocks: seq<Block>)
    ensures var todo := Remaining(Base(|data|, maxQuestions), skip);
            && RunOf(todo, Workers(maxConcurrency, |todo|), blocks, complete) && Answered(data, blocks)
            && out == file + Rows(blocks)
    ensures Written(data, file, blocks, out) && CutAtEnd(blocks, complete)
    ensures Queued(Remaining(Base(|data|, maxQuestions), skip), |data|, maxQuestions, skip)
    ensures AppendedFor(file, out, Remaining(Base(|data|, maxQuestions), skip))
    ensures complete ==>
              forall idx :: idx in Remaining(Base(|data|, maxQuestions), skip) ==> Mentioned(out[|file|..], idx)
  {
    var queue := FillQueue(|data|, maxQuestions, skip);
    RemainingExact(Base(|data|, maxQuestions), skip);
    out, complete, blocks := WorkQueue(data, queue, Workers(maxConcurrency, |queue|), file);
    BlocksCover(blocks, queue);
    RunWritten(data, queue, Workers(maxConcurrency, |queue|), blocks, complete, file);
    assert out[|file|..] == Rows(blocks);
    if complete {
      forall idx | idx in queue
        ensures Mentioned(Rows(blocks), idx)
      {
        AllMentioned(queue, Workers(maxConcurrency, |queue|), blocks, idx);
      }
    }
  }

  /** The workers side by side: whichever is picked takes a question when it has none and finishes its request
      when it has one. */
  method WorkQueue(data: seq<string>, todo: seq<int>, workers: nat, file: seq<Row>)
    returns (out: seq<Row>, complete: bool, ghost blocks: seq<Block>)
    requires Distinct(todo) && workers > 0
    ensures RunOf(todo, workers, blocks, complete) && Answered(data, blocks) && out == file + Rows(blocks)
  {
    var queue := todo;
    ghost var taken := 0;
    var busy := seq(workers, _ => None);
    out, blocks, complete := file, [], false;
    RunningStart(todo, workers, busy);
    while |queue| > 0 || exists w :: 0 <= w < |busy| && busy[w].Some?
      invariant Running(todo, taken, workers, blocks, busy, queue) && Logged(data, file, blocks, out)
      decreases 2 * |queue| + Working(busy)
    {
      var w := PickWorker(busy, |queue| > 0);
      if busy[w].None? {
        TakeKeeps(todo, taken, workers, blocks, busy, queue, w);
        busy, queue, taken := busy[w := Some(queue[0])], queue[1..], taken + 1;
      } else {
        var alive;
        ghost var b;
        ghost var before := out;
        out, alive, b := Finish(data, todo, taken, workers, blocks, busy, queue, w, out);
        LoggedSnoc(data, file, blocks, before, b);
        blocks := blocks + [b];
        if !alive {
          return;
        }
        busy := busy[w := None];
      }
    }
    complete := true;
    RunningEnd(todo, taken, workers, blocks, busy);
  }

  method Finish(data: seq<string>, ghost todo: seq<int>, ghost taken: nat, ghost workers: nat,
                ghost blocks: seq<Block>, busy: seq<Option<int>>, ghost queue: seq<int>, w: nat, file: seq<Row>)
    returns (out: seq<Row>, alive: bool, ghost b: Block)
    requires Running(todo, taken, workers, blocks, busy, queue)
    requires w < |busy| && busy[w].Some?
    ensures out == file + BlockRows(b) && b.answer == AnswerOf(data, b.idx) && b.kept <= |AllRows(b)|
    ensures RunOf(todo, workers, blocks + [b], false)
    ensures alive ==> Running(todo, taken, workers, blocks + [b], busy[w := None], queue)
    ensures Working(busy[w := None]) < Working(busy)
  {
    var idx, outcome: Outcome := busy[w].value, *;
    var answer := AnswerOf(data, idx);
    var kept;
    out, alive, kept := AppendRows(idx, answer, outcome, file);
    b := Block(idx, answer, outcome, kept);
    FinishKeeps(todo, taken, workers, blocks, busy, queue, w, b);
  }

  /** The file holds what it held before and the rows of the blocks. */
  ghost predicate Logged(data: seq<string>, before: seq<Row>, blocks: seq<Block>, out: seq<Row>) {
    Answered(data, blocks) && out == before + Rows(blocks)
  }

  lemma LoggedSnoc(data: seq<string>, before: seq<Row>, blocks: seq<Block>, out: seq<Row>, b: Block)
    requires Logged(data, before, blocks, out) && b.answer == AnswerOf(data, b.idx) && b.kept <= |AllRows(b)|
    ensures Logged(data, before, blocks + [b], out + BlockRows(b))
  {
    AnsweredSnoc(data, blocks, b);
    RowsSnoc(blocks, b);
    Associative(before, Rows(blocks), BlockRows(b));
  }

  lemma AnsweredSnoc(data: seq<string>, blocks: seq<Block>, b: Block)
    requires Answered(data, blocks) && b.answer == AnswerOf(data, b.idx) && b.kept <= |AllRows(b)|
    ensures Answered(data, blocks + [b])
  {
  }

  lemma RowsSnoc(blocks: seq<Block>, b: Block)
    ensures Rows(blocks + [b]) == Rows(blocks) + BlockRows(b)
  {
    assert (blocks + [b])[..|blocks|] == blocks;
  }

  method PickWorker(busy: seq<Option<int>>, queued: bool) returns (w: nat)
    requires |busy| > 0 && (queued || exists w :: 0 <= w < |busy| && busy[w].Some?)
    ensures w < |busy| && (queued || busy[w].Some?)
  {
    if queued {
      w :| w < |busy|;
    } else {
      w :| w < |busy| && busy[w].Some?;
    }
  }
}
