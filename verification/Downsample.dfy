/** Downsampling a block-structured dataset (downsampler.py), and the two-file pipeline regroup-then-downsample. */
module Downsample {
  import opened Basics
  import opened Records
  import opened Regroup
  import opened Combinatorics
  import opened Arithmetic

  datatype Error = NotAList | InvalidJson | Empty | GroupSize | NotDivisible | NumQuestions | NumSamples

  datatype Mode = Head | Random

  // ---------------------------------------------------------------- reading

  /** The JSON-lines branch: blank lines are skipped, anything that is not an object is an error. */
  predicate IsObject(l: Line) {
    !l.Malformed? && !l.NotObject?
  }

  /** The first i lines are blank or objects, and these are the objects. */
  ghost predicate ReadUpTo(lines: seq<Line>, i: nat, records: seq<Line>)
    requires i <= |lines|
  {
    records == NonBlank(lines[..i]) && forall k :: 0 <= k < i ==> IsObject(lines[k])
  }

  lemma ReadNext(lines: seq<Line>, i: nat, records: seq<Line>)
    requires i < |lines| && ReadUpTo(lines, i, records) && IsObject(lines[i])
    ensures ReadUpTo(lines, i + 1, if lines[i].Blank? then records else records + [lines[i]])
  {
    Snoc(lines[..i], lines[i]);
    assert lines[..i + 1] == lines[..i] + [lines[i]];
    assert NonBlank(lines[..i]) + [] == NonBlank(lines[..i]);
  }

  method ReadLines(lines: seq<Line>) returns (r: Result<seq<Line>, Error>)
    ensures r.Ok? <==> forall i :: 0 <= i < |lines| ==> IsObject(lines[i])
    ensures r.Ok? ==> r.value == NonBlank(lines)
    ensures r.Err? ==> r.error == InvalidJson
  {
    var records: seq<Line> := [];
    for i := 0 to |lines|
      invariant ReadUpTo(lines, i, records)
    {
      if !IsObject(lines[i]) {
        return Err(InvalidJson);
      }
      ReadNext(lines, i, records);
      if !lines[i].Blank? {
        records := records + [lines[i]];
      }
    }
    assert lines[..|lines|] == lines;
    r := Ok(records);
  }

  /** The whole file parses as one JSON value exactly when it holds one non-blank line that is JSON. Such a
      value is not a list, so a file with a single record is refused. */
  method LoadRecords(lines: seq<Line>) returns (r: Result<seq<Line>, Error>)
    ensures |NonBlank(lines)| == 1 && !NonBlank(lines)[0].Malformed? ==> r == Err(NotAList)
    ensures !(|NonBlank(lines)| == 1 && !NonBlank(lines)[0].Malformed?) ==>
              && (r.Ok? <==> forall i :: 0 <= i < |lines| ==> IsObject(lines[i]))
              && (r.Ok? ==> r.value == NonBlank(lines))
  {
    var all := NonBlank(lines);
    if |all| == 1 && !all[0].Malformed? {
      return Err(NotAList);
    }
    r := ReadLines(lines);
  }

  // ---------------------------------------------------------------- choosing indices

  ghost predicate Choice(s: seq<nat>, count: nat, k: int) {
    |s| == Max(0, Min(k, count)) && Distinct(s) && Inside(s, count)
  }

  /** choose_indices_head */
  function ChooseHead(count: nat, k: int): seq<nat> {
    seq(Max(0, Min(k, count)), i => i)
  }

  /** choose_indices_random: rng.sample draws distinct indices; any outcome is allowed. */
  method ChooseRandom(count: nat, k: int) returns (s: seq<nat>)
    ensures Choice(s, count, k)
  {
    s := [];
    var n := Max(0, Min(k, count));
    ghost var used: set<nat> := {};
    while |s| < n
      invariant |s| <= n && Distinct(s) && Inside(s, count)
      invariant used == (set x | x in s) && |used| == |s|
    {
      SpareIndex(used, count);
      var j: nat :| j < count && j !in s;
      used := used + {j};
      s := s + [j];
    }
  }

  lemma SpareIndex(used: set<nat>, count: nat)
    requires |used| < count
    ensures exists j: nat :: j < count && j !in used
  {
    RangeSize(count);
    if j :| j in Range(count) && j !in used {
    } else {
      SubsetSize(Range(count), used);
      assert false;
    }
  }

  method Choose(mode: Mode, count: nat, k: int) returns (s: seq<nat>)
    ensures Choice(s, count, k)
    ensures mode.Head? ==> s == ChooseHead(count, k)
  {
    if mode.Head? {
      s := ChooseHead(count, k);
    } else {
      s := ChooseRandom(count, k);
    }
  }

  // ---------------------------------------------------------------- selecting

  /** The dataset cut into consecutive blocks of g records. */
  function Cut(data: seq<Line>, g: nat): (blocks: seq<seq<Line>>)
    requires g > 0 && |data| % g == 0
  {
    if |data| == 0 then []
    else
      CutDivides(|data|, g);
      Cut(data[..|data| - g], g) + [data[|data| - g..]]
  }

  lemma CutDivides(total: nat, g: nat)
    requires g > 0 && total % g == 0 && total > 0
    ensures total >= g && (total - g) % g == 0 && (total - g) / g + 1 == total / g
    ensures (total / g - 1) * g == total - g
  {
    var q := total / g;
    assert total == q * g;
    assert (q - 1) * g == q * g - g;
    Divided(total - g, g, q - 1, 0);
  }

  /** Block q is data[q * g..q * g + g]. */
  lemma {:induction false} CutAt(data: seq<Line>, g: nat, q: nat)
    requires g > 0 && |data| % g == 0
    ensures |Cut(data, g)| == |data| / g
    ensures q < |Cut(data, g)| ==> 0 <= q * g <= q * g + g <= |data| && Cut(data, g)[q] == data[q * g..q * g + g]
  {
    if |data| == 0 {
      assert |data| / g == 0;
    } else {
      CutDivides(|data|, g);
      var front := data[..|data| - g];
      CutAt(front, g, q);
      if q < |Cut(front, g)| {
        assert front[q * g..q * g + g] == data[q * g..q * g + g];
      }
    }
  }

  lemma CutSnoc(front: seq<Line>, block: seq<Line>, g: nat)
    requires g > 0 && |front| % g == 0 && |block| == g
    ensures |front + block| % g == 0 && Cut(front + block, g) == Cut(front, g) + [block]
  {
    var q := |front| / g;
    assert |front| == q * g && (q + 1) * g == q * g + g;
    Divided(|front| + g, g, q + 1, 0);
    var all := front + block;
    assert all[..|all| - g] == front && all[|all| - g..] == block;
  }

  lemma {:induction false} CutFlattened(blocks: seq<seq<Line>>, g: nat)
    requires g > 0 && forall i :: 0 <= i < |blocks| ==> |blocks[i]| == g
    ensures |Flatten(blocks)| % g == 0 && Cut(Flatten(blocks), g) == blocks
  {
    if |blocks| > 0 {
      var n := |blocks| - 1;
      CutFlattened(blocks[..n], g);
      CutSnoc(Flatten(blocks[..n]), blocks[n], g);
      assert blocks == blocks[..n] + [blocks[n]];
    }
  }

  predicate Inside(within: seq<nat>, size: nat) {
    forall i :: 0 <= i < |within| ==> within[i] < size
  }

  function Pick(block: seq<Line>, within: seq<nat>): seq<Line>
    requires Inside(within, |block|)
  {
    if |within| == 0 then [] else Pick(block, within[..|within| - 1]) + [block[within[|within| - 1]]]
  }

  ghost predicate Selection(blocks: seq<seq<Line>>, selected: seq<nat>, within: seq<seq<nat>>) {
    && |within| == |selected| && Inside(selected, |blocks|)
    && forall a :: 0 <= a < |selected| ==> Inside(within[a], |blocks[selected[a]]|)
  }

  /** The chosen rows of the chosen blocks, in order. */
  ghost function PickAll(blocks: seq<seq<Line>>, selected: seq<nat>, within: seq<seq<nat>>): seq<Line>
    requires Selection(blocks, selected, within)
  {
    if |selected| == 0 then []
    else
      var n := |selected| - 1;
      PickAll(blocks, selected[..n], within[..n]) + Pick(blocks[selected[n]], within[n])
  }

  method PickFrom(block: seq<Line>, within: seq<nat>, records: seq<Line>) returns (r: seq<Line>)
    requires Inside(within, |block|)
    ensures r == records + Pick(block, within)
  {
    r := records;
    for i := 0 to |within|
      invariant Inside(within[..i], |block|) && r == records + Pick(block, within[..i])
    {
      assert within[..i + 1][..i] == within[..i];
      r := r + [block[within[i]]];
    }
    assert within[..|within|] == within;
  }

  /** num_questions after the convention that a negative value keeps every question. */
  function Kept(m: int, questions: nat): int {
    if m < 0 then questions else m
  }

  function Validate(total: nat, m: int, n: int, g: int): (e: Option<Error>)
    ensures e.None? ==> g > 0 && total % g == 0 && 0 < Kept(m, total / g) <= total / g && 0 < n <= g
  {
    if total == 0 then Some(Empty)
    else if g <= 0 then Some(GroupSize)
    else if total % g != 0 then Some(NotDivisible)
    else if Kept(m, total / g) == 0 || Kept(m, total / g) > total / g then Some(NumQuestions)
    else if n <= 0 || n > g then Some(NumSamples)
    else None
  }

  /** The rows written for the first |within| of the selected blocks. */
  ghost predicate Taken(blocks: seq<seq<Line>>, g: nat, n: nat, byRow: Mode, records: seq<Line>,
                        selected: seq<nat>, within: seq<seq<nat>>) {
    && Selection(blocks, selected, within)
    && (forall a :: 0 <= a < |within| ==> Choice(within[a], g, n) && (byRow.Head? ==> within[a] == ChooseHead(g, n)))
    && records == PickAll(blocks, selected, within)
  }

  /** What a successful run wrote: the rows `within` of the blocks `selected`, both chosen as their modes say. */
  ghost predicate Written(blocks: seq<seq<Line>>, m: nat, n: nat, g: nat, byGroup: Mode, byRow: Mode,
                          records: seq<Line>, selected: seq<nat>, within: seq<seq<nat>>) {
    && Choice(selected, |blocks|, m) && (byGroup.Head? ==> selected == ChooseHead(|blocks|, m))
    && Taken(blocks, g, n, byRow, records, selected, within)
  }

  lemma TakenSnoc(blocks: seq<seq<Line>>, g: nat, n: nat, byRow: Mode, records: seq<Line>,
                  selected: seq<nat>, within: seq<seq<nat>>, q: nat, rows: seq<nat>)
    requires Taken(blocks, g, n, byRow, records, selected, within)
    requires q < |blocks| && Inside(rows, |blocks[q]|)
    requires Choice(rows, g, n) && (byRow.Head? ==> rows == ChooseHead(g, n))
    ensures Taken(blocks, g, n, byRow, records + Pick(blocks[q], rows), selected + [q], within + [rows])
  {
    var k := |selected|;
    assert (selected + [q])[..k] == selected && (within + [rows])[..k] == within;
  }

  /** question_records */
  method BlockAt(data: seq<Line>, g: nat, q: nat) returns (block: seq<Line>)
    requires g > 0 && |data| % g == 0 && q < |data| / g
    ensures |Cut(data, g)| == |data| / g && block == Cut(data, g)[q] && |block| == g
  {
    CutAt(data, g, q);
    var start := q * g;
    block := data[start..start + g];
  }

  method TakeRows(data: seq<Line>, picks: seq<nat>, n: nat, g: nat, byRow: Mode)
    returns (records: seq<Line>, ghost within: seq<seq<nat>>)
    requires g > 0 && |data| % g == 0 && Inside(picks, |data| / g)
    ensures Taken(Cut(data, g), g, n, byRow, records, picks, within)
  {
    records, within := [], [];
    ghost var blocks := Cut(data, g);
    for a := 0 to |picks|
      invariant Taken(blocks, g, n, byRow, records, picks[..a], within)
    {
      var q := picks[a];
      var block := BlockAt(data, g, q);
      var rows := Choose(byRow, g, n);
      TakenSnoc(blocks, g, n, byRow, records, picks[..a], within, q, rows);
      records := PickFrom(block, rows, records);
      assert picks[..a + 1] == picks[..a] + [q];
      within := within + [rows];
    }
    assert picks[..|picks|] == picks;
  }

  // ---------------------------------------------------------------- record by record

  /** The record written at `at` is the one at `from` of the input. */
  ghost predicate CopiedFrom(data: seq<Line>, records: seq<Line>, at: int, from: int) {
    0 <= at < |records| && 0 <= from < |data| && records[at] == data[from]
  }

  /** Row b written for the a-th selected question is its row within[b]. */
  ghost predicate RowsCopied(data: seq<Line>, records: seq<Line>, n: nat, g: nat, a: nat, q: nat, within: seq<nat>) {
    && |within| == n && Distinct(within)
    && forall b :: 0 <= b < n ==> within[b] < g && CopiedFrom(data, records, a * n + b, q * g + within[b])
  }

  /** m different questions of the input, all of them for a negative m, with n different rows of each; in head mode
      the first ones, in order. */
  ghost predicate Sampled(data: seq<Line>, m: int, n: nat, g: nat, byGroup: Mode, byRow: Mode, records: seq<Line>,
                          selected: seq<nat>, within: seq<seq<nat>>)
    requires g > 0
  {
    && |selected| == |within| == (if m < 0 then |data| / g else m) && |records| == |selected| * n
    && Distinct(selected) && (forall a :: 0 <= a < |selected| ==> selected[a] < |data| / g)
    && (forall a :: 0 <= a < |selected| ==> RowsCopied(data, records, n, g, a, selected[a], within[a]))
    && (byGroup == Head ==> forall a :: 0 <= a < |selected| ==> selected[a] == a)
    && (byRow == Head ==> forall a, b :: 0 <= a < |within| && 0 <= b < n && b < |within[a]| ==> within[a][b] == b)
  }

  lemma {:induction false} PickAt(block: seq<Line>, within: seq<nat>, b: nat)
    requires Inside(within, |block|) && b < |within|
    ensures |Pick(block, within)| == |within| && Pick(block, within)[b] == block[within[b]]
  {
    var k := |within| - 1;
    PickSize(block, within[..k]);
    if b < k {
      PickAt(block, within[..k], b);
    }
  }

  lemma {:induction false} RowPlace(a: nat, b: nat, n: nat, k: nat)
    requires a < k && b < n
    ensures a * n + b < k * n
  {
    OneMore(k - 1, n);
    if a < k - 1 {
      RowPlace(a, b, n, k - 1);
    }
  }

  lemma {:induction false} PickAllAt(blocks: seq<seq<Line>>, g: nat, n: nat, byRow: Mode, selected: seq<nat>,
                                     within: seq<seq<nat>>, a: nat, b: nat)
    requires Selection(blocks, selected, within) && n <= g && a < |selected| && b < n
    requires Taken(blocks, g, n, byRow, PickAll(blocks, selected, within), selected, within)
    ensures |within[a]| == n && a * n + b < |PickAll(blocks, selected, within)| == |selected| * n
    ensures PickAll(blocks, selected, within)[a * n + b] == blocks[selected[a]][within[a][b]]
  {
    var k := |selected| - 1;
    TakenFront(blocks, g, n, byRow, selected, within);
    RowsTaken(blocks, g, n, byRow, selected, within);
    RowsTaken(blocks, g, n, byRow, selected[..k], within[..k]);
    RowPlace(a, b, n, |selected|);
    if a < k {
      PickAllAt(blocks, g, n, byRow, selected[..k], within[..k], a, b);
    } else {
      PickAt(blocks[selected[k]], within[k], b);
    }
  }

  lemma BlockRow(data: seq<Line>, g: nat, blocks: seq<seq<Line>>, q: nat, c: nat)
    requires g > 0 && |data| % g == 0 && blocks == Cut(data, g) && q < |blocks| && c < g
    ensures |blocks[q]| == g && 0 <= q * g + c < |data| && blocks[q][c] == data[q * g + c]
  {
    CutAt(data, g, q);
  }

  lemma PickedRow(blocks: seq<seq<Line>>, g: nat, n: nat, byRow: Mode, records: seq<Line>, selected: seq<nat>,
                  within: seq<seq<nat>>, a: nat, b: nat) returns (q: nat, c: nat)
    requires n <= g && a < |selected| && b < n && Taken(blocks, g, n, byRow, records, selected, within)
    ensures |within| == |selected| && q == selected[a] < |blocks| && |within[a]| == n && c == within[a][b] < |blocks[q]|
    ensures c < g && a * n + b < |records| && records[a * n + b] == blocks[q][c]
  {
    assert Choice(within[a], g, n);
    q, c := selected[a], within[a][b];
    PickAllAt(blocks, g, n, byRow, selected, within, a, b);
  }

  lemma RowCopied(data: seq<Line>, n: nat, g: nat, blocks: seq<seq<Line>>, byRow: Mode, records: seq<Line>,
                  selected: seq<nat>, within: seq<seq<nat>>, a: nat, b: nat)
    requires g > 0 && |data| % g == 0 && blocks == Cut(data, g) && n <= g && a < |selected| && b < n
    requires Taken(blocks, g, n, byRow, records, selected, within)
    ensures a < |within| && b < |within[a]| && within[a][b] < g
    ensures CopiedFrom(data, records, a * n + b, selected[a] * g + within[a][b])
  {
    var q, c := PickedRow(blocks, g, n, byRow, records, selected, within, a, b);
    BlockRow(data, g, blocks, q, c);
  }

  lemma BlockRowsCopied(data: seq<Line>, n: nat, g: nat, byRow: Mode, records: seq<Line>, selected: seq<nat>,
                        within: seq<seq<nat>>, a: nat)
    requires g > 0 && |data| % g == 0 && n <= g && a < |selected|
    requires Taken(Cut(data, g), g, n, byRow, records, selected, within)
    ensures RowsCopied(data, records, n, g, a, selected[a], within[a])
  {
    assert Choice(within[a], g, n);
    forall b | 0 <= b < n
      ensures b < |within[a]| && within[a][b] < g
      ensures CopiedFrom(data, records, a * n + b, selected[a] * g + within[a][b])
    {
      RowCopied(data, n, g, Cut(data, g), byRow, records, selected, within, a, b);
    }
  }

  lemma HeadChoice(s: seq<nat>, count: nat, k: nat)
    requires k <= count && s == ChooseHead(count, k)
    ensures |s| == k && forall a :: 0 <= a < k ==> s[a] == a
  {
  }

  lemma WrittenSampled(data: seq<Line>, m: int, n: nat, g: nat, byGroup: Mode, byRow: Mode, records: seq<Line>,
                       selected: seq<nat>, within: seq<seq<nat>>)
    requires g > 0 && |data| % g == 0 && n <= g && 0 < Kept(m, |data| / g) <= |data| / g
    requires Written(Cut(data, g), Kept(m, |data| / g), n, g, byGroup, byRow, records, selected, within)
    ensures Sampled(data, m, n, g, byGroup, byRow, records, selected, within)
  {
    CutAt(data, g, 0);
    RowsTaken(Cut(data, g), g, n, byRow, selected, within);
    forall a | 0 <= a < |selected|
      ensures RowsCopied(data, records, n, g, a, selected[a], within[a])
    {
      BlockRowsCopied(data, n, g, byRow, records, selected, within, a);
    }
    if byGroup == Head {
      HeadChoice(selected, |data| / g, Kept(m, |data| / g));
    }
    forall a | 0 <= a < |within| && byRow == Head
      ensures forall b :: 0 <= b < n ==> b < |within[a]| && within[a][b] == b
    {
      HeadChoice(within[a], g, n);
    }
  }

  /** The checks, in their order. */
  ghost predicate FailsWith(e: Error, total: nat, m: int, n: int, g: int) {
    match e
    case Empty => total == 0
    case GroupSize => total > 0 && g <= 0
    case NotDivisible => total > 0 && g > 0 && total % g != 0
    case NumQuestions => total > 0 && g > 0 && total % g == 0 && (m == 0 || m > total / g)
    case NumSamples => total > 0 && g > 0 && total % g == 0 && m != 0 && m <= total / g && (n < 1 || n > g)
    case _ => false
  }

  method Downsample(data: seq<Line>, m: int, n: int, g: int, byGroup: Mode, byRow: Mode)
    returns (r: Result<seq<Line>, Error>, ghost selected: seq<nat>, ghost within: seq<seq<nat>>)
    ensures r.Err? <==> Validate(|data|, m, n, g).Some?
    ensures r.Err? ==> r.error == Validate(|data|, m, n, g).value
    ensures forall e :: r == Err(e) <==> FailsWith(e, |data|, m, n, g)
    ensures r.Ok? ==> g > 0 && n >= 0 && Sampled(data, m, n, g, byGroup, byRow, r.value, selected, within)
    ensures r.Ok? ==>
              Written(Cut(data, g), Kept(m, |data| / g), n, g, byGroup, byRow, r.value, selected, within)
  {
    selected, within := [], [];
    var problem := Validate(|data|, m, n, g);
    if problem.Some? {
      return Err(problem.value), selected, within;
    }
    var questions := |data| / g;
    CutAt(data, g, 0);
    var picks := Choose(byGroup, questions, Kept(m, questions));
    selected := picks;
    var records;
    records, within := TakeRows(data, picks, n, g, byRow);
    r := Ok(records);
    WrittenSampled(data, m, n, g, byGroup, byRow, records, selected, within);
  }

  // ---------------------------------------------------------------- what a selection keeps

  lemma {:induction false} PickCount(block: seq<Line>, within: seq<nat>, key: string, idx: string)
    requires Inside(within, |block|)
    requires forall j :: 0 <= j < |block| ==> block[j].Record? && block[j].idx == key
    ensures |Pick(block, within)| == |within|
    ensures RowCount(Pick(block, within), idx) == if idx == key then |within| else 0
  {
    if |within| > 0 {
      var k := |within| - 1;
      PickCount(block, within[..k], key, idx);
      RowCountSnoc(Pick(block, within[..k]), block[within[k]], idx);
    }
  }

  /** The keys of the selected blocks. */
  ghost function KeysAt(keys: seq<string>, selected: seq<nat>): seq<string>
    requires Inside(selected, |keys|)
  {
    seq(|selected|, a requires 0 <= a < |selected| => keys[selected[a]])
  }

  lemma TakenFront(blocks: seq<seq<Line>>, g: nat, n: nat, byRow: Mode, selected: seq<nat>, within: seq<seq<nat>>)
    requires |selected| > 0 && Selection(blocks, selected, within)
    requires Taken(blocks, g, n, byRow, PickAll(blocks, selected, within), selected, within)
    ensures var k := |selected| - 1;
            && Selection(blocks, selected[..k], within[..k])
            && Taken(blocks, g, n, byRow, PickAll(blocks, selected[..k], within[..k]), selected[..k], within[..k])
            && Choice(within[k], g, n) && Inside(within[k], |blocks[selected[k]]|)
            && PickAll(blocks, selected, within)
               == PickAll(blocks, selected[..k], within[..k]) + Pick(blocks[selected[k]], within[k])
  {
  }

  lemma {:induction false} RowsTaken(blocks: seq<seq<Line>>, g: nat, n: nat, byRow: Mode,
                                     selected: seq<nat>, within: seq<seq<nat>>)
    requires Selection(blocks, selected, within) && n <= g
    requires Taken(blocks, g, n, byRow, PickAll(blocks, selected, within), selected, within)
    ensures |PickAll(blocks, selected, within)| == |selected| * n
    decreases |selected|
  {
    if |selected| > 0 {
      TakenFront(blocks, g, n, byRow, selected, within);
      var k := |selected| - 1;
      RowsTaken(blocks, g, n, byRow, selected[..k], within[..k]);
      PickSize(blocks[selected[k]], within[k]);
      OneMore(k, n);
    }
  }

  lemma {:induction false} PickSize(block: seq<Line>, within: seq<nat>)
    requires Inside(within, |block|)
    ensures |Pick(block, within)| == |within|
  {
    if |within| > 0 {
      PickSize(block, within[..|within| - 1]);
    }
  }

  lemma KeysSnoc(keys: seq<string>, selected: seq<nat>)
    requires |selected| > 0 && Inside(selected, |keys|) && Distinct(keys) && Distinct(selected)
    ensures var k := |selected| - 1;
            && KeysAt(keys, selected) == KeysAt(keys, selected[..k]) + [keys[selected[k]]]
            && keys[selected[k]] !in KeysAt(keys, selected[..k])
  {
    var k := |selected| - 1;
    assert KeysAt(keys, selected) == KeysAt(keys, selected[..k]) + [keys[selected[k]]];
  }

  /** From blocks of one question each, n rows of every selected question and none of any other. */
  lemma {:induction false} RowsPerQuestion(blocks: seq<seq<Line>>, keys: seq<string>, g: nat, n: nat, byRow: Mode,
                                           selected: seq<nat>, within: seq<seq<nat>>, idx: string)
    requires Keyed(blocks, keys) && Distinct(keys)
    requires Distinct(selected) && Selection(blocks, selected, within) && n <= g
    requires Taken(blocks, g, n, byRow, PickAll(blocks, selected, within), selected, within)
    ensures RowCount(PickAll(blocks, selected, within), idx) == if idx in KeysAt(keys, selected) then n else 0
    decreases |selected|
  {
    if |selected| > 0 {
      TakenFront(blocks, g, n, byRow, selected, within);
      var k := |selected| - 1;
      var q, front := selected[k], selected[..k];
      RowsPerQuestion(blocks, keys, g, n, byRow, front, within[..k], idx);
      PickCount(blocks[q], within[k], keys[q], idx);
      RowCountConcat(PickAll(blocks, front, within[..k]), Pick(blocks[q], within[k]), idx);
      KeysSnoc(keys, selected);
    }
  }

  // ---------------------------------------------------------------- no record is taken twice

  ghost function WeightsAt(w: seq<nat>, at: seq<nat>): seq<nat>
    requires Inside(at, |w|)
  {
    seq(|at|, i requires 0 <= i < |at| => w[at[i]])
  }

  lemma Without(at: seq<nat>, n: nat, j: nat) returns (a: seq<nat>, b: seq<nat>)
    requires j < |at| && at[j] == n && Inside(at, n + 1) && Distinct(at)
    ensures at == a + [n] + b && Distinct(a + b) && Inside(a, n) && Inside(b, n)
  {
    a, b := at[..j], at[j + 1..];
    var rest := a + b;
    assert forall i :: 0 <= i < |rest| ==> rest[i] == at[if i < j then i else i + 1];
    assert forall i :: 0 <= i < |b| ==> b[i] == at[j + 1 + i];
    assert at == a + [n] + b;
  }

  lemma DropWeight(w: seq<nat>, a: seq<nat>, n: nat, b: seq<nat>)
    requires Inside(a, n) && Inside(b, n) && |w| == n + 1
    ensures Inside(a + [n] + b, |w|) && Inside(a + b, n)
    ensures Total(WeightsAt(w, a + [n] + b)) == Total(WeightsAt(w[..n], a + b)) + w[n]
  {
    assert WeightsAt(w[..n], a + b) == WeightsAt(w, a) + WeightsAt(w, b);
    assert WeightsAt(w, a + [n] + b) == WeightsAt(w, a) + [w[n]] + WeightsAt(w, b);
    TotalConcat(WeightsAt(w, a), WeightsAt(w, b));
    TotalConcat(WeightsAt(w, a) + [w[n]], WeightsAt(w, b));
  }

  /** Distinct positions weigh no more than all positions. */
  lemma {:induction false} DistinctPositions(w: seq<nat>, at: seq<nat>)
    requires Inside(at, |w|) && Distinct(at)
    ensures Total(WeightsAt(w, at)) <= Total(w)
    decreases |w|
  {
    if |w| == 0 {
    } else {
      var n := |w| - 1;
      if n in at {
        var j :| 0 <= j < |at| && at[j] == n;
        var a, b := Without(at, n, j);
        DropWeight(w, a, n, b);
        DistinctPositions(w[..n], a + b);
      } else {
        DistinctPositions(w[..n], at);
        assert WeightsAt(w[..n], at) == WeightsAt(w, at);
      }
    }
  }

  ghost function Hits(block: seq<Line>, l: Line): seq<nat> {
    seq(|block|, i requires 0 <= i < |block| => if block[i] == l then 1 else 0)
  }

  lemma {:induction false} HitsTotal(block: seq<Line>, l: Line)
    ensures Total(Hits(block, l)) == multiset(block)[l]
  {
    if |block| > 0 {
      var k := |block| - 1;
      HitsTotal(block[..k], l);
      assert Hits(block, l)[..k] == Hits(block[..k], l);
      assert block == block[..k] + [block[k]];
    }
  }

  lemma {:induction false} PickHits(block: seq<Line>, within: seq<nat>, l: Line)
    requires Inside(within, |block|)
    ensures WeightsAt(Hits(block, l), within) == Hits(Pick(block, within), l)
  {
    if |within| > 0 {
      var k := |within| - 1;
      PickHits(block, within[..k], l);
      var front := Pick(block, within[..k]);
      assert Hits(front + [block[within[k]]], l) == Hits(front, l) + [if block[within[k]] == l then 1 else 0];
      assert WeightsAt(Hits(block, l), within)
          == WeightsAt(Hits(block, l), within[..k]) + [if block[within[k]] == l then 1 else 0];
    }
  }

  lemma PickBag(block: seq<Line>, within: seq<nat>, l: Line)
    requires Inside(within, |block|) && Distinct(within)
    ensures multiset(Pick(block, within))[l] <= multiset(block)[l]
  {
    PickHits(block, within, l);
    HitsTotal(block, l);
    HitsTotal(Pick(block, within), l);
    DistinctPositions(Hits(block, l), within);
  }

  ghost function Bags(blocks: seq<seq<Line>>, l: Line): seq<nat> {
    seq(|blocks|, i requires 0 <= i < |blocks| => multiset(blocks[i])[l])
  }

  lemma {:induction false} BagsTotal(blocks: seq<seq<Line>>, l: Line)
    ensures Total(Bags(blocks, l)) == multiset(Flatten(blocks))[l]
  {
    if |blocks| > 0 {
      var k := |blocks| - 1;
      BagsTotal(blocks[..k], l);
      assert Bags(blocks, l)[..k] == Bags(blocks[..k], l);
    }
  }

  lemma SelectedBags(blocks: seq<seq<Line>>, selected: seq<nat>, l: Line)
    requires |selected| > 0 && Inside(selected, |blocks|)
    ensures var k := |selected| - 1;
            Total(WeightsAt(Bags(blocks, l), selected))
            == Total(WeightsAt(Bags(blocks, l), selected[..k])) + multiset(blocks[selected[k]])[l]
  {
    var k := |selected| - 1;
    assert WeightsAt(Bags(blocks, l), selected)[..k] == WeightsAt(Bags(blocks, l), selected[..k]);
  }

  lemma {:induction false} PickAllBag(blocks: seq<seq<Line>>, g: nat, n: nat, byRow: Mode,
                                      selected: seq<nat>, within: seq<seq<nat>>, l: Line)
    requires Selection(blocks, selected, within)
    requires Taken(blocks, g, n, byRow, PickAll(blocks, selected, within), selected, within)
    ensures multiset(PickAll(blocks, selected, within))[l] <= Total(WeightsAt(Bags(blocks, l), selected))
    decreases |selected|
  {
    if |selected| > 0 {
      TakenFront(blocks, g, n, byRow, selected, within);
      var k := |selected| - 1;
      PickAllBag(blocks, g, n, byRow, selected[..k], within[..k], l);
      PickBag(blocks[selected[k]], within[k], l);
      SelectedBags(blocks, selected, l);
    }
  }

  /** For any dataset, the written records are a part of it: none is invented and none is used twice. */
  lemma NoRecordTwice(blocks: seq<seq<Line>>, m: nat, n: nat, g: nat, byGroup: Mode, byRow: Mode,
                      records: seq<Line>, selected: seq<nat>, within: seq<seq<nat>>)
    requires Written(blocks, m, n, g, byGroup, byRow, records, selected, within)
    ensures multiset(records) <= multiset(Flatten(blocks))
  {
    forall l
      ensures multiset(records)[l] <= multiset(Flatten(blocks))[l]
    {
      PickAllBag(blocks, g, n, byRow, selected, within, l);
      DistinctPositions(Bags(blocks, l), selected);
      BagsTotal(blocks, l);
    }
  }

  /** The cut loses nothing. */
  lemma {:induction false} FlattenCut(data: seq<Line>, g: nat)
    requires g > 0 && |data| % g == 0
    ensures Flatten(Cut(data, g)) == data
  {
    if |data| > 0 {
      CutDivides(|data|, g);
      FlattenCut(data[..|data| - g], g);
    }
  }

  // ---------------------------------------------------------------- regroup, then downsample

  /** Every index has exactly g rows, and every non-blank line has an index. */
  ghost predicate Uniform(input: seq<Line>, g: nat) {
    && Passthrough(input) == []
    && forall idx :: RowCount(input, idx) == 0 || RowCount(input, idx) == g
  }

  lemma {:induction false} NoneBlank(lines: seq<Line>)
    requires forall i :: 0 <= i < |lines| ==> lines[i].Record?
    ensures NonBlank(lines) == lines
  {
    if |lines| > 0 {
      NoneBlank(lines[..|lines| - 1]);
    }
  }

  lemma UniformBlocks(input: seq<Line>, output: seq<Line>, keys: seq<string>, blocks: seq<seq<Line>>, g: nat)
    requires g > 0 && Uniform(input, g) && Regrouped(input, output, keys, blocks)
    ensures output == Flatten(blocks) == NonBlank(output) && Keyed(blocks, keys)
    ensures forall i :: 0 <= i < |output| ==> output[i].Record?
    ensures |output| % g == 0 && Cut(output, g) == blocks && |output| == |NonBlank(input)|
    ensures multiset(output) == multiset(NonBlank(input)) && Distinct(keys)
    ensures |keys| == |output| / g
  {
    assert output == Flatten(blocks);
    AllBlocks(input, output, keys, blocks);
    FlattenKeyed(blocks, keys);
    NoneBlank(output);
    CutFlattened(blocks, g);
    CutAt(output, g, 0);
    Permutation(input, output, keys, blocks);
    assert |multiset(output)| == |multiset(NonBlank(input))|;
  }

  /** The parameters fit a dataset of `total` records. */
  predicate ParametersFit(total: nat, m: int, n: int, g: nat)
    requires g > 0
  {
    total > 0 && 0 < n <= g && m != 0 && m <= total / g
  }

  lemma ValidParameters(total: nat, m: int, n: int, g: nat)
    requires g > 0 && total % g == 0
    ensures Validate(total, m, n, g).None? <==> ParametersFit(total, m, n, g)
  {
    if total > 0 {
      CutDivides(total, g);
      assert (total - g) / g >= 0;
    }
  }

  lemma LoadsUnlessSingle(lines: seq<Line>)
    requires NonBlank(lines) == lines && forall i :: 0 <= i < |lines| ==> lines[i].Record?
    ensures (|NonBlank(lines)| == 1 && !NonBlank(lines)[0].Malformed?) == (|lines| == 1)
  {
  }

  /** What survives: `kept` are the questions, n rows each, every one a row of the input. */
  ghost predicate Survives(input: seq<Line>, records: seq<Line>, kept: seq<string>, n: int) {
    && Distinct(kept) && |records| == |kept| * n
    && multiset(records) <= multiset(NonBlank(input))
    && (forall idx :: RowCount(records, idx) == if idx in kept then n else 0)
  }

  /** Regrouping establishes the contiguous blocks the downsampler takes for granted: when every index has
      exactly g rows, exactly the requested number of questions survives with exactly n of their rows each,
      for any shuffle and either mode. A file of one record is the single exception. */
  method RegroupThenDownsample(input: seq<Line>, m: int, n: int, g: nat, byGroup: Mode, byRow: Mode)
    returns (r: Result<seq<Line>, Error>, ghost kept: seq<string>)
    requires g > 0 && Uniform(input, g)
    ensures r.Ok? <==> |NonBlank(input)| != 1 && ParametersFit(|NonBlank(input)|, m, n, g)
    ensures r.Ok? ==> |kept| == Kept(m, |NonBlank(input)| / g) && Survives(input, r.value, kept, n)
  {
    var output, keys, blocks := GroupShuffle(input);
    UniformBlocks(input, output, keys, blocks, g);
    r, kept := LoadAndDownsample(output, keys, blocks, m, n, g, byGroup, byRow);
  }

  /** The downsampler on a file of uniform blocks. */
  method LoadAndDownsample(data: seq<Line>, ghost keys: seq<string>, ghost blocks: seq<seq<Line>>,
                           m: int, n: int, g: nat, byGroup: Mode, byRow: Mode)
    returns (r: Result<seq<Line>, Error>, ghost kept: seq<string>)
    requires g > 0 && |data| % g == 0 && Cut(data, g) == blocks && Keyed(blocks, keys) && Distinct(keys)
    requires NonBlank(data) == data && forall i :: 0 <= i < |data| ==> data[i].Record?
    ensures r.Ok? <==> |data| != 1 && ParametersFit(|data|, m, n, g)
    ensures r.Ok? ==> |kept| == Kept(m, |data| / g) && Survives(data, r.value, kept, n)
  {
    LoadsUnlessSingle(data);
    var loaded := LoadRecords(data);
    if loaded.Err? {
      return Err(loaded.error), [];
    }
    ValidParameters(|data|, m, n, g);
    r, kept := DownsampleBlocks(data, keys, blocks, m, n, g, byGroup, byRow);
  }

  method DownsampleBlocks(data: seq<Line>, ghost keys: seq<string>, ghost blocks: seq<seq<Line>>,
                          m: int, n: int, g: nat, byGroup: Mode, byRow: Mode)
    returns (r: Result<seq<Line>, Error>, ghost kept: seq<string>)
    requires g > 0 && |data| % g == 0 && Cut(data, g) == blocks && Keyed(blocks, keys) && Distinct(keys)
    requires NonBlank(data) == data
    ensures r.Ok? <==> Validate(|data|, m, n, g).None?
    ensures r.Ok? ==> |kept| == Kept(m, |data| / g) && Survives(data, r.value, kept, n)
  {
    kept := [];
    ghost var selected, within;
    r, selected, within := Downsample(data, m, n, g, byGroup, byRow);
    if r.Ok? {
      CutAt(data, g, 0);
      FlattenCut(data, g);
      kept := KeptQuestions(keys, blocks, Kept(m, |data| / g), n, g, byGroup, byRow, r.value, selected, within);
    }
  }

  lemma KeptQuestions(keys: seq<string>, blocks: seq<seq<Line>>, m: nat, n: nat, g: nat, byGroup: Mode, byRow: Mode,
                      records: seq<Line>, selected: seq<nat>, within: seq<seq<nat>>)
    returns (kept: seq<string>)
    requires Keyed(blocks, keys) && Distinct(keys) && m <= |blocks| && n <= g
    requires Written(blocks, m, n, g, byGroup, byRow, records, selected, within)
    ensures |kept| == m && Distinct(kept) && |records| == m * n
    ensures multiset(records) <= multiset(Flatten(blocks))
    ensures forall idx :: RowCount(records, idx) == if idx in kept then n else 0
  {
    NoRecordTwice(blocks, m, n, g, byGroup, byRow, records, selected, within);
    RowsTaken(blocks, g, n, byRow, selected, within);
    OnlyKept(keys, blocks, n, g, byRow, selected, within);
    kept := KeysAt(keys, selected);
  }

  lemma OnlyKept(keys: seq<string>, blocks: seq<seq<Line>>, n: nat, g: nat, byRow: Mode,
                 selected: seq<nat>, within: seq<seq<nat>>)
    requires Keyed(blocks, keys) && Distinct(keys) && Distinct(selected) && n <= g
    requires Selection(blocks, selected, within)
    requires Taken(blocks, g, n, byRow, PickAll(blocks, selected, within), selected, within)
    ensures var records := PickAll(blocks, selected, within);
            forall idx :: RowCount(records, idx) == if idx in KeysAt(keys, selected) then n else 0
  {
    forall idx
      ensures RowCount(PickAll(blocks, selected, within), idx) == if idx in KeysAt(keys, selected) then n else 0
    {
      RowsPerQuestion(blocks, keys, g, n, byRow, selected, within, idx);
    }
  }
}
