/** Interval lanes of convert_otel_2_perfetto.py: the neighbour-only overlap test and sticky first-fit placement. */
module Lanes {

  datatype Interval = Interval(start: int, end: int)

  /** Tuple order, as bisect compares (start, end) pairs. */
  predicate LexLess(a: Interval, b: Interval) {
    a.start < b.start || (a.start == b.start && a.end < b.end)
  }

  predicate Overlap(a: Interval, b: Interval) {
    a.start < b.end && b.start < a.end
  }

  /** bisect_left(s, (start, -inf)) on a sorted list: the number of leading intervals that start earlier. */
  function BisectStart(s: seq<Interval>, start: int): (i: nat)
    ensures i <= |s|
    ensures forall k :: 0 <= k < i ==> s[k].start < start
    ensures i < |s| ==> s[i].start >= start
  {
    if |s| == 0 || s[0].start >= start then 0 else 1 + BisectStart(s[1..], start)
  }

  /** bisect_left(s, x) on a sorted list. */
  function BisectLeft(s: seq<Interval>, x: Interval): (i: nat)
    ensures i <= |s|
    ensures forall k :: 0 <= k < i ==> LexLess(s[k], x)
    ensures i < |s| ==> !LexLess(s[i], x)
  {
    if |s| == 0 || !LexLess(s[0], x) then 0 else 1 + BisectLeft(s[1..], x)
  }

  /** insort_left */
  function Insort(s: seq<Interval>, x: Interval): seq<Interval> {
    s[..BisectLeft(s, x)] + [x] + s[BisectLeft(s, x)..]
  }

  /** The test of check_overlap: only the two neighbours of the insertion point are looked at. */
  predicate NeighbourTest(s: seq<Interval>, start: int, end: int) {
    var i := BisectStart(s, start);
    (i > 0 && s[i - 1].end > start) || (i < |s| && s[i].start < end)
  }

  /** In tuple order and disjoint. */
  predicate Apart(a: Interval, b: Interval) {
    !LexLess(b, a) && !Overlap(a, b)
  }

  /** A lane: sorted and pairwise disjoint. */
  ghost predicate Laid(s: seq<Interval>) {
    && (forall i :: 0 <= i < |s| ==> s[i].start <= s[i].end)
    && (forall i, j {:trigger Apart(s[i], s[j])} :: 0 <= i < j < |s| ==> Apart(s[i], s[j]))
  }

  lemma LaidGaps(s: seq<Interval>, i: nat, j: nat)
    requires Laid(s) && i < j < |s|
    ensures s[i].end <= s[j].start
  {
    assert Apart(s[i], s[j]);
  }

  /** The query meets some interval of the lane; a query of positive length also meets a zero-length
      interval sitting exactly at its start. */
  ghost predicate Touches(s: seq<Interval>, start: int, end: int) {
    exists i :: 0 <= i < |s| && s[i].start < end && (start < s[i].end || start == s[i].start)
  }

  ghost predicate Positive(s: seq<Interval>) {
    forall i :: 0 <= i < |s| ==> s[i].start < s[i].end
  }

  ghost predicate OverlapsSome(s: seq<Interval>, x: Interval) {
    exists i :: 0 <= i < |s| && Overlap(s[i], x)
  }

  /** Looking at two neighbours decides the question for the whole lane. */
  lemma NeighboursSuffice(s: seq<Interval>, start: int, end: int)
    requires Laid(s) && start <= end
    ensures NeighbourTest(s, start, end) <==> Touches(s, start, end)
    ensures Positive(s) && start < end ==>
              (NeighbourTest(s, start, end) <==> OverlapsSome(s, Interval(start, end)))
  {
    var n := BisectStart(s, start);
    forall i | 0 <= i && i + 1 < n
      ensures s[i].end <= s[n - 1].start
    {
      LaidGaps(s, i, n - 1);
    }
    forall i | n < i < |s|
      ensures s[n].end <= s[i].start
    {
      LaidGaps(s, n, i);
    }
    if NeighbourTest(s, start, end) {
      if n > 0 && s[n - 1].end > start {
        assert s[n - 1].start < end && start < s[n - 1].end;
      } else {
        assert s[n].start < end && (start < s[n].end || start == s[n].start);
      }
    }
    if Positive(s) && start < end && Touches(s, start, end) {
      var i :| 0 <= i < |s| && s[i].start < end && (start < s[i].end || start == s[i].start);
      assert Overlap(s[i], Interval(start, end));
    }
    if OverlapsSome(s, Interval(start, end)) {
      var i :| 0 <= i < |s| && Overlap(s[i], Interval(start, end));
      assert s[i].start < end && start < s[i].end;
    }
  }

  /** Inserting keeps the lane laid exactly when the new interval overlaps nothing on it. */
  lemma InsortLaid(s: seq<Interval>, x: Interval)
    requires Laid(s) && x.start <= x.end
    ensures Laid(Insort(s, x)) <==> !OverlapsSome(s, x)
  {
    var n, r := BisectLeft(s, x), Insort(s, x);
    assert forall i :: 0 <= i < n ==> r[i] == s[i];
    assert forall i :: n < i < |r| ==> r[i] == s[i - 1];
    if !OverlapsSome(s, x) {
      forall i, j | 0 <= i < j < |r|
        ensures Apart(r[i], r[j])
      {
        InsortPair(s, x, i, j);
      }
    } else {
      var i :| 0 <= i < |s| && Overlap(s[i], x);
      if i < n {
        assert !Apart(r[i], r[n]);
      } else {
        assert !Apart(r[n], r[i + 1]);
      }
    }
  }

  lemma InsortPair(s: seq<Interval>, x: Interval, i: nat, j: nat)
    requires Laid(s) && x.start <= x.end && !OverlapsSome(s, x) && i < j <= |s|
    ensures Apart(Insort(s, x)[i], Insort(s, x)[j])
  {
    var n, r := BisectLeft(s, x), Insort(s, x);
    var i', j' := if i < n then i else i - 1, if j < n then j else j - 1;
    if i == n {
      assert r[i] == x && r[j] == s[j'];
      if n < j' {
        assert Apart(s[n], s[j']);
      }
    } else if j == n {
      assert r[j] == x && r[i] == s[i'];
    } else {
      assert r[i] == s[i'] && r[j] == s[j'];
      assert Apart(s[i'], s[j']);
    }
  }

  lemma InsortContents(s: seq<Interval>, x: Interval)
    ensures |Insort(s, x)| == |s| + 1
    ensures multiset(Insort(s, x)) == multiset(s) + multiset{x}
  {
    assert s == s[..BisectLeft(s, x)] + s[BisectLeft(s, x)..];
  }

  // ---------------------------------------------------------------- choosing a line

  /** The first lane at or after `from` without a conflict; |lanes| when there is none. */
  function FirstFree(lanes: seq<seq<Interval>>, from: nat, start: int, end: int): (i: nat)
    requires from <= |lanes|
    ensures from <= i <= |lanes|
    decreases |lanes| - from
  {
    if from == |lanes| || !NeighbourTest(lanes[from], start, end) then from
    else FirstFree(lanes, from + 1, start, end)
  }

  lemma {:induction false} FirstFreeCorrect(lanes: seq<seq<Interval>>, from: nat, start: int, end: int)
    requires from <= |lanes|
    ensures var i := FirstFree(lanes, from, start, end);
            && (forall k :: from <= k < i ==> NeighbourTest(lanes[k], start, end))
            && (i < |lanes| ==> !NeighbourTest(lanes[i], start, end))
    decreases |lanes| - from
  {
    if from < |lanes| && NeighbourTest(lanes[from], start, end) {
      FirstFreeCorrect(lanes, from + 1, start, end);
    }
  }

  /** __find_line for one pid. Lines are numbered from 1; sticky is the line the current room last used
      for this pid, 0 if none. A zero-length span takes the sticky line unchecked. */
  function FindLine(lanes: seq<seq<Interval>>, sticky: nat, start: int, end: int): (line: nat)
    requires sticky <= |lanes|
    ensures 1 <= line <= |lanes| + 1
  {
    if sticky > 0 && (start == end || !NeighbourTest(lanes[sticky - 1], start, end)) then sticky
    else FirstFree(lanes, 0, start, end) + 1
  }

  function Placed(lanes: seq<seq<Interval>>, line: nat, x: Interval): seq<seq<Interval>>
    requires 1 <= line <= |lanes| + 1
  {
    if line > |lanes| then lanes + [Insort([], x)]
    else lanes[line - 1 := Insort(lanes[line - 1], x)]
  }

  /** Either a new room starts, which forgets all sticky lines, or a span arrives. */
  datatype Event = Enter | Arrive(pid: int, span: Interval)

  datatype Layout = Layout(lanes: map<int, seq<seq<Interval>>>, status: map<int, nat>, slots: seq<(int, nat)>) {

    function Of(pid: int): seq<seq<Interval>> {
      if pid in lanes then lanes[pid] else []
    }

    function Sticky(pid: int): nat {
      if pid in status then status[pid] else 0
    }

    predicate Valid() {
      forall pid :: pid in status ==> 1 <= status[pid] <= |Of(pid)|
    }

    function Line(pid: int, x: Interval): (line: nat)
      requires Valid()
      ensures 1 <= line <= |Of(pid)| + 1
    {
      FindLine(Of(pid), Sticky(pid), x.start, x.end)
    }

    function Step(e: Event): (l: Layout)
      requires Valid()
      ensures l.Valid()
    {
      match e
      case Enter => this.(status := map[])
      case Arrive(pid, x) =>
        var line := Line(pid, x);
        Layout(lanes[pid := Placed(Of(pid), line, x)], status[pid := line],
               if line > |Of(pid)| then slots + [(pid, line)] else slots)
    }
  }

  /** The layout between choosing a line and inserting the span: a new line is still empty. */
  ghost function Chosen(l: Layout, pid: int, x: Interval): (c: Layout)
    requires l.Valid()
    ensures c.Valid() && pid in c.lanes && l.Line(pid, x) <= |c.lanes[pid]|
  {
    var line, lanes := l.Line(pid, x), l.Of(pid);
    Layout(l.lanes[pid := if line > |lanes| then lanes + [[]] else lanes], l.status[pid := line],
           if line > |lanes| then l.slots + [(pid, line)] else l.slots)
  }

  /** What choosing an existing line and opening a new one do to the layout. */
  ghost function Used(l: Layout, pid: int, line: nat): Layout {
    l.(status := l.status[pid := line])
  }

  ghost function Opened(l: Layout, pid: int): (o: Layout)
    requires l.Valid()
    ensures o.Valid()
  {
    var line := |l.Of(pid)| + 1;
    Layout(l.lanes[pid := l.Of(pid) + [[]]], l.status[pid := line], l.slots + [(pid, line)])
  }

  lemma ChosenCases(l: Layout, pid: int, x: Interval)
    requires l.Valid()
    ensures var line := l.Line(pid, x);
            Chosen(l, pid, x) == if line > |l.Of(pid)| then Opened(l, pid) else Used(l, pid, line)
  {
    if l.Line(pid, x) <= |l.Of(pid)| {
      assert l.lanes[pid := l.lanes[pid]] == l.lanes;
    }
  }

  ghost function Inserted(l: Layout, pid: int, line: nat, x: Interval): Layout
    requires pid in l.lanes && 1 <= line <= |l.lanes[pid]|
  {
    l.(lanes := l.lanes[pid := l.lanes[pid][line - 1 := Insort(l.lanes[pid][line - 1], x)]])
  }

  lemma ChosenThenInserted(l: Layout, pid: int, x: Interval)
    requires l.Valid()
    ensures var c, line := Chosen(l, pid, x), l.Line(pid, x);
            Inserted(c, pid, line, x) == l.Step(Arrive(pid, x))
  {
    var lanes, line := l.Of(pid), l.Line(pid, x);
    if line > |lanes| {
      assert (lanes + [[]])[|lanes| := Insort([], x)] == lanes + [Insort([], x)];
    }
  }

  function Run(events: seq<Event>): (l: Layout)
    ensures l.Valid()
  {
    if |events| == 0 then Layout(map[], map[], [])
    else Run(events[..|events| - 1]).Step(events[|events| - 1])
  }

  /** Every lane of a pid is sorted and disjoint. */
  ghost predicate AllLaid(lanes: seq<seq<Interval>>) {
    forall i :: 0 <= i < |lanes| ==> Laid(lanes[i])
  }

  /** The one unchecked case: a zero-length span dropped strictly inside an interval of the sticky lane. */
  ghost predicate HiddenPoint(l: Layout, e: Event)
    requires l.Valid()
  {
    && e.Arrive? && e.span.start == e.span.end && e.pid in l.status
    && OverlapsSome(l.Of(e.pid)[l.status[e.pid] - 1], e.span)
  }

  /** The chosen line never holds an overlapping interval, except for a hidden point. */
  lemma ChosenLine(l: Layout, pid: int, x: Interval)
    requires l.Valid() && AllLaid(l.Of(pid)) && x.start <= x.end
    ensures var line := l.Line(pid, x);
            line <= |l.Of(pid)| ==>
              (OverlapsSome(l.Of(pid)[line - 1], x) <==> HiddenPoint(l, Arrive(pid, x)))
  {
    var lanes, line := l.Of(pid), l.Line(pid, x);
    FirstFreeCorrect(lanes, 0, x.start, x.end);
    if line <= |lanes| {
      var lane := lanes[line - 1];
      NeighboursSuffice(lane, x.start, x.end);
      if OverlapsSome(lane, x) {
        var i :| 0 <= i < |lane| && Overlap(lane[i], x);
        assert lane[i].start < x.end && x.start < lane[i].end;
      }
    }
  }

  lemma StepPlaces(l: Layout, pid: int, x: Interval)
    requires l.Valid()
    ensures l.Step(Arrive(pid, x)).Of(pid) == Placed(l.Of(pid), l.Line(pid, x), x)
  {
  }

  lemma StepSpares(l: Layout, e: Event, pid: int)
    requires l.Valid() && (e.Arrive? ==> e.pid != pid)
    ensures l.Step(e).Of(pid) == l.Of(pid)
  {
  }

  lemma PlacedLaid(lanes: seq<seq<Interval>>, line: nat, x: Interval)
    requires AllLaid(lanes) && 1 <= line <= |lanes| + 1 && x.start <= x.end
    ensures AllLaid(Placed(lanes, line, x)) <==> line > |lanes| || !OverlapsSome(lanes[line - 1], x)
  {
    var lane := if line > |lanes| then [] else lanes[line - 1];
    var after := Placed(lanes, line, x);
    InsortLaid(lane, x);
    assert after[line - 1] == Insort(lane, x);
    assert forall i :: 0 <= i < |lanes| && i != line - 1 ==> after[i] == lanes[i];
  }

  /** An arrival of this pid runs forward. */
  ghost predicate Forward(e: Event, pid: int) {
    e.Arrive? && e.pid == pid ==> e.span.start <= e.span.end
  }

  /** The lanes of a pid stay sorted and disjoint over a step if and only if the step is not a hidden point of it. */
  lemma StepLaid(l: Layout, e: Event, pid: int)
    requires l.Valid() && AllLaid(l.Of(pid)) && Forward(e, pid)
    ensures AllLaid(l.Step(e).Of(pid)) <==> !(HiddenPoint(l, e) && e.pid == pid)
  {
    if e.Arrive? && e.pid == pid {
      StepPlaces(l, pid, e.span);
      ChosenLine(l, pid, e.span);
      PlacedLaid(l.Of(pid), l.Line(pid, e.span), e.span);
      if l.Line(pid, e.span) > |l.Of(pid)| {
        NewLineNotHidden(l, pid, e.span);
      }
    } else {
      StepSpares(l, e, pid);
    }
  }

  lemma NewLineNotHidden(l: Layout, pid: int, x: Interval)
    requires l.Valid() && l.Line(pid, x) > |l.Of(pid)|
    ensures !HiddenPoint(l, Arrive(pid, x))
  {
  }

  lemma InsortKeepsFaults(s: seq<Interval>, x: Interval)
    requires !Laid(s)
    ensures !Laid(Insort(s, x))
  {
    var n, r := BisectLeft(s, x), Insort(s, x);
    forall i | 0 <= i < |s|
      ensures r[if i < n then i else i + 1] == s[i]
    {
    }
    if i :| 0 <= i < |s| && s[i].start > s[i].end {
      assert r[if i < n then i else i + 1] == s[i];
    } else {
      var i, j :| 0 <= i < j < |s| && !Apart(s[i], s[j]);
      var i', j' := if i < n then i else i + 1, if j < n then j else j + 1;
      assert r[i'] == s[i] && r[j'] == s[j] && i' < j';
      assert !Apart(r[i'], r[j']);
    }
  }

  /** Broken lanes stay broken. */
  lemma FaultsStay(l: Layout, e: Event, pid: int)
    requires l.Valid() && !AllLaid(l.Of(pid))
    ensures !AllLaid(l.Step(e).Of(pid))
  {
    if e.Arrive? && e.pid == pid {
      StepPlaces(l, pid, e.span);
      PlacedFaults(l.Of(pid), l.Line(pid, e.span), e.span);
    } else {
      StepSpares(l, e, pid);
    }
  }

  lemma PlacedFaults(lanes: seq<seq<Interval>>, line: nat, x: Interval)
    requires !AllLaid(lanes) && 1 <= line <= |lanes| + 1
    ensures !AllLaid(Placed(lanes, line, x))
  {
    var i :| 0 <= i < |lanes| && !Laid(lanes[i]);
    if i == line - 1 {
      InsortKeepsFaults(lanes[i], x);
    }
    assert !Laid(Placed(lanes, line, x)[i]);
  }

  /** No arrival of this pid was a hidden point of the layout it met. */
  ghost predicate NoHiddenPoint(events: seq<Event>, pid: int) {
    |events| == 0 ||
    var front, e := events[..|events| - 1], events[|events| - 1];
    NoHiddenPoint(front, pid) && !(HiddenPoint(Run(front), e) && e.pid == pid)
  }

  /** Over any run, in any arrival order, over any rooms and whatever arrives for other pids: the lanes of a pid
      are sorted and disjoint if and only if no arrival of it was a hidden point. */
  lemma {:induction false} RunLaid(events: seq<Event>, pid: int)
    requires forall k :: 0 <= k < |events| ==> Forward(events[k], pid)
    ensures AllLaid(Run(events).Of(pid)) <==> NoHiddenPoint(events, pid)
  {
    if |events| > 0 {
      var front, last := events[..|events| - 1], events[|events| - 1];
      RunLaid(front, pid);
      if AllLaid(Run(front).Of(pid)) {
        StepLaid(Run(front), last, pid);
      } else {
        FaultsStay(Run(front), last, pid);
      }
    }
  }

  lemma RunAppend(events: seq<Event>, e: Event)
    ensures Run(events + [e]) == Run(events).Step(e)
  {
    assert (events + [e])[..|events|] == events;
  }

  /** The spans of a pid have positive length; nothing is said of other pids. */
  ghost predicate PositiveFor(events: seq<Event>, pid: int) {
    forall k :: 0 <= k < |events| && events[k].Arrive? && events[k].pid == pid ==>
      events[k].span.start < events[k].span.end
  }

  /** In particular for spans of positive length. */
  lemma {:induction false} PositiveRunLaid(events: seq<Event>, pid: int)
    requires PositiveFor(events, pid)
    ensures AllLaid(Run(events).Of(pid))
  {
    RunLaid(events, pid);
    PositiveHidesNothing(events, pid);
  }

  lemma {:induction false} PositiveHidesNothing(events: seq<Event>, pid: int)
    requires PositiveFor(events, pid)
    ensures NoHiddenPoint(events, pid)
  {
    if |events| > 0 {
      PositiveHidesNothing(events[..|events| - 1], pid);
    }
  }

  /** The zero-length shortcut at work: a span, a point strictly inside it, and a later span that starts
      inside it all share line 1, e.g. (0,10), (5,5), (6,7). */
  lemma HiddenPointBreaksLane(pid: int, a: Interval, p: int, c: Interval)
    requires a.start < p < c.start < a.end && c.start < c.end
    ensures var l := Run([Enter, Arrive(pid, a), Arrive(pid, Interval(p, p)), Arrive(pid, c)]);
            l.lanes == map[pid := [[a, Interval(p, p), c]]] && Overlap(a, c) && !AllLaid(l.Of(pid))
  {
    var b := Interval(p, p);
    TwoOnLane(pid, a, b);
    assert !NeighbourTest([a, b], c.start, c.end) by {
      assert [a, b][1..] == [b];
    }
    OneLaneRun([Enter, Arrive(pid, a), Arrive(pid, b)], pid, [a, b], c);
    assert [Enter, Arrive(pid, a), Arrive(pid, b)] + [Arrive(pid, c)]
        == [Enter, Arrive(pid, a), Arrive(pid, b), Arrive(pid, c)];
    assert [a, b] + [c] == [a, b, c];
    BrokenLane([a, b, c]);
    assert !Laid(OneLane(pid, [a, b, c]).Of(pid)[0]);
  }

  lemma TwoOnLane(pid: int, a: Interval, b: Interval)
    requires LexLess(a, b) && (b.start == b.end || !NeighbourTest([a], b.start, b.end))
    ensures Run([Enter, Arrive(pid, a), Arrive(pid, b)]) == OneLane(pid, [a, b])
  {
    FirstRun(pid, a);
    OneLaneRun([Enter, Arrive(pid, a)], pid, [a], b);
    assert [Enter, Arrive(pid, a)] + [Arrive(pid, b)] == [Enter, Arrive(pid, a), Arrive(pid, b)];
    assert [a] + [b] == [a, b];
  }

  lemma FirstRun(pid: int, x: Interval)
    ensures Run([Enter, Arrive(pid, x)]) == OneLane(pid, [x])
  {
    RunAppend([], Enter);
    assert [] + [Enter] == [Enter];
    RunAppend([Enter], Arrive(pid, x));
    assert [Enter] + [Arrive(pid, x)] == [Enter, Arrive(pid, x)];
    FirstLane(pid, x);
  }

  lemma OneLaneRun(events: seq<Event>, pid: int, s: seq<Interval>, x: Interval)
    requires Run(events) == OneLane(pid, s)
    requires forall i :: 0 <= i < |s| ==> LexLess(s[i], x)
    requires x.start == x.end || !NeighbourTest(s, x.start, x.end)
    ensures Run(events + [Arrive(pid, x)]) == OneLane(pid, s + [x])
  {
    RunAppend(events, Arrive(pid, x));
    OneLaneStep(pid, s, x);
  }

  lemma BrokenLane(s: seq<Interval>)
    requires |s| == 3 && Overlap(s[0], s[2])
    ensures !Laid(s)
  {
    assert !Apart(s[0], s[2]);
  }

  function OneLane(pid: int, s: seq<Interval>): Layout {
    Layout(map[pid := [s]], map[pid := 1], [(pid, 1)])
  }

  lemma FirstLane(pid: int, x: Interval)
    ensures Layout(map[], map[], []).Step(Arrive(pid, x)) == OneLane(pid, [x])
  {
    var none: seq<seq<Interval>> := [];
    InsortLast([], x);
    assert [] + [x] == [x];
    assert Placed(none, 1, x) == [[x]];
  }

  lemma OneLaneStep(pid: int, s: seq<Interval>, x: Interval)
    requires forall i :: 0 <= i < |s| ==> LexLess(s[i], x)
    requires x.start == x.end || !NeighbourTest(s, x.start, x.end)
    ensures OneLane(pid, s).Step(Arrive(pid, x)) == OneLane(pid, s + [x])
  {
    InsortLast(s, x);
    assert [s][0 := s + [x]] == [s + [x]];
    assert map[pid := [s]][pid := [s + [x]]] == map[pid := [s + [x]]];
    assert map[pid := 1][pid := 1] == map[pid := 1];
  }

  lemma {:induction false} InsortLast(s: seq<Interval>, x: Interval)
    requires forall i :: 0 <= i < |s| ==> LexLess(s[i], x)
    ensures Insort(s, x) == s + [x]
  {
    assert BisectLeft(s, x) == |s|;
  }
}
