/** Every span is kept, and first-fit over start-ordered spans opens as few lanes as possible. */
module LaneOptimality {
  import opened Basics
  import opened Lanes

  /** The spans of one pid, in arrival order. */
  function SpansOf(events: seq<Event>, pid: int): seq<Interval> {
    if |events| == 0 then []
    else
      var last := events[|events| - 1];
      SpansOf(events[..|events| - 1], pid) + if last.Arrive? && last.pid == pid then [last.span] else []
  }

  /** The arrivals of the pid, none left out, in order. */
  lemma {:induction false} SpansOfAre(events: seq<Event>, pid: int)
    ensures var own := Filter(events, (e: Event) => e.Arrive? && e.pid == pid);
            && |SpansOf(events, pid)| == |own|
            && forall i :: 0 <= i < |own| ==> own[i].Arrive? && SpansOf(events, pid)[i] == own[i].span
  {
    if |events| > 0 {
      SpansOfAre(events[..|events| - 1], pid);
    }
  }

  ghost function Contents(lanes: seq<seq<Interval>>): multiset<Interval> {
    if |lanes| == 0 then multiset{} else Contents(lanes[..|lanes| - 1]) + multiset(lanes[|lanes| - 1])
  }

  lemma {:induction false} ContentsUpdate(lanes: seq<seq<Interval>>, i: nat, lane: seq<Interval>, x: Interval)
    requires i < |lanes| && multiset(lane) == multiset(lanes[i]) + multiset{x}
    ensures Contents(lanes[i := lane]) == Contents(lanes) + multiset{x}
  {
    var n := |lanes| - 1;
    var front, last := Contents(lanes[..n]), multiset(lanes[n]);
    if i == n {
      assert lanes[i := lane][..n] == lanes[..n];
      MoveBag(front, last, last, x);
    } else {
      ContentsUpdate(lanes[..n], i, lane, x);
      assert lanes[i := lane][..n] == lanes[..n][i := lane];
      MoveBag(front, last, last, x);
    }
  }

  lemma MoveBag(a: multiset<Interval>, b: multiset<Interval>, c: multiset<Interval>, x: Interval)
    ensures a + (c + multiset{x}) == a + c + multiset{x}
    ensures a + multiset{x} + b == a + b + multiset{x}
  {
  }

  lemma ContentsSnoc(lanes: seq<seq<Interval>>, lane: seq<Interval>)
    ensures Contents(lanes + [lane]) == Contents(lanes) + multiset(lane)
  {
    assert (lanes + [lane])[..|lanes|] == lanes;
  }

  lemma FirstOfLane(x: Interval)
    ensures multiset(Insort([], x)) == multiset{x}
  {
    InsortContents([], x);
  }

  /** The lanes hold one more span, x. */
  ghost predicate Gained(before: seq<seq<Interval>>, after: seq<seq<Interval>>, x: Interval) {
    forall y :: HeldAfter(before, after, x, y)
  }

  ghost predicate HeldAfter(before: seq<seq<Interval>>, after: seq<seq<Interval>>, x: Interval, y: Interval) {
    Contents(after)[y] == Contents(before)[y] + if y == x then 1 else 0
  }

  lemma BagGained(before: seq<seq<Interval>>, after: seq<seq<Interval>>, x: Interval)
    requires Contents(after) == Contents(before) + multiset{x}
    ensures Gained(before, after, x)
  {
  }

  lemma NewLineContents(lanes: seq<seq<Interval>>, x: Interval)
    ensures Gained(lanes, lanes + [Insort([], x)], x)
  {
    FirstOfLane(x);
    ContentsSnoc(lanes, Insort([], x));
    BagGained(lanes, lanes + [Insort([], x)], x);
  }

  lemma OldLineContents(lanes: seq<seq<Interval>>, i: nat, x: Interval)
    requires i < |lanes|
    ensures Gained(lanes, lanes[i := Insort(lanes[i], x)], x)
  {
    InsortContents(lanes[i], x);
    ContentsUpdate(lanes, i, Insort(lanes[i], x), x);
    BagGained(lanes, lanes[i := Insort(lanes[i], x)], x);
  }

  lemma PlacedContents(lanes: seq<seq<Interval>>, line: nat, x: Interval)
    requires 1 <= line <= |lanes| + 1
    ensures Gained(lanes, Placed(lanes, line, x), x)
  {
    if line > |lanes| {
      NewLineContents(lanes, x);
    } else {
      OldLineContents(lanes, line - 1, x);
    }
  }

  lemma GainedBag(before: seq<seq<Interval>>, after: seq<seq<Interval>>, x: Interval)
    requires Gained(before, after, x)
    ensures Contents(after) == Contents(before) + multiset{x}
  {
    forall y
      ensures Contents(after)[y] == (Contents(before) + multiset{x})[y]
    {
      assert HeldAfter(before, after, x, y);
    }
  }

  /** Every span sits on exactly one lane of its own pid, once. */
  lemma {:induction false} Conservation(events: seq<Event>, pid: int)
    ensures Contents(Run(events).Of(pid)) == multiset(SpansOf(events, pid))
  {
    if |events| > 0 {
      var front, e := events[..|events| - 1], events[|events| - 1];
      Conservation(front, pid);
      if e.Arrive? && e.pid == pid {
        PlacedContents(Run(front).Of(pid), Run(front).Line(pid, e.span), e.span);
        GainedBag(Run(front).Of(pid), Run(events).Of(pid), e.span);
      }
    }
  }

  predicate Alive(x: Interval, t: int) {
    x.start <= t < x.end
  }

  /** How many of the spans are running at instant t. */
  function Depth(s: seq<Interval>, t: int): nat {
    if |s| == 0 then 0 else Depth(s[..|s| - 1], t) + if Alive(s[|s| - 1], t) then 1 else 0
  }

  lemma {:induction false} DepthCounts(s: seq<Interval>, t: int)
    ensures Depth(s, t) == |Where(s, (x: Interval) => x.start <= t < x.end)|
  {
    if |s| > 0 {
      DepthCounts(s[..|s| - 1], t);
      WhereLast(s, (x: Interval) => x.start <= t < x.end);
    }
  }

  lemma {:induction false} DepthConcat(a: seq<Interval>, b: seq<Interval>, t: int)
    ensures Depth(a + b, t) == Depth(a, t) + Depth(b, t)
  {
    if |b| == 0 {
      assert a + b == a;
    } else {
      DepthConcat(a, b[..|b| - 1], t);
      assert (a + b)[..|a + b| - 1] == a + b[..|b| - 1];
    }
  }

  lemma DepthInsort(s: seq<Interval>, x: Interval, t: int)
    ensures Depth(Insort(s, x), t) == Depth(s, t) + Depth([x], t)
  {
    var n := BisectLeft(s, x);
    DepthConcat(s[..n] + [x], s[n..], t);
    DepthConcat(s[..n], [x], t);
    DepthConcat(s[..n], s[n..], t);
    assert s == s[..n] + s[n..];
  }

  lemma {:induction false} DepthPositive(s: seq<Interval>, i: nat, t: int)
    requires i < |s| && Alive(s[i], t)
    ensures Depth(s, t) >= 1
  {
    if i < |s| - 1 {
      DepthPositive(s[..|s| - 1], i, t);
    }
  }

  /** A lane runs at most one span at a time. */
  lemma {:induction false} LaneDepth(s: seq<Interval>, t: int)
    requires Laid(s)
    ensures Depth(s, t) <= 1
  {
    if |s| > 0 {
      var front, x := s[..|s| - 1], s[|s| - 1];
      LaneDepth(front, t);
      if Alive(x, t) {
        NothingAlive(front, t) by {
          forall i | 0 <= i < |front|
            ensures !Alive(front[i], t)
          {
            LaidGaps(s, i, |s| - 1);
          }
        }
      }
    }
  }

  lemma {:induction false} NothingAlive(s: seq<Interval>, t: int)
    requires forall i :: 0 <= i < |s| ==> !Alive(s[i], t)
    ensures Depth(s, t) == 0
  {
    if |s| > 0 {
      NothingAlive(s[..|s| - 1], t);
    }
  }

  function TotalDepth(lanes: seq<seq<Interval>>, t: int): nat {
    if |lanes| == 0 then 0 else TotalDepth(lanes[..|lanes| - 1], t) + Depth(lanes[|lanes| - 1], t)
  }

  lemma {:induction false} TotalUpdate(lanes: seq<seq<Interval>>, i: nat, lane: seq<Interval>, t: int)
    requires i < |lanes|
    ensures TotalDepth(lanes[i := lane], t) == TotalDepth(lanes, t) - Depth(lanes[i], t) + Depth(lane, t)
  {
    var n := |lanes| - 1;
    if i == n {
      assert lanes[i := lane][..n] == lanes[..n];
    } else {
      TotalUpdate(lanes[..n], i, lane, t);
      assert lanes[i := lane][..n] == lanes[..n][i := lane];
    }
  }

  lemma PlacedDepth(lanes: seq<seq<Interval>>, line: nat, x: Interval, t: int)
    requires 1 <= line <= |lanes| + 1
    ensures TotalDepth(Placed(lanes, line, x), t) == TotalDepth(lanes, t) + Depth([x], t)
  {
    if line > |lanes| {
      assert Placed(lanes, line, x)[..|lanes|] == lanes;
      DepthInsort([], x, t);
    } else {
      DepthInsort(lanes[line - 1], x, t);
      TotalUpdate(lanes, line - 1, Insort(lanes[line - 1], x), t);
    }
  }

  lemma {:induction false} DepthConserved(events: seq<Event>, pid: int, t: int)
    ensures TotalDepth(Run(events).Of(pid), t) == Depth(SpansOf(events, pid), t)
  {
    if |events| > 0 {
      var front, e := events[..|events| - 1], events[|events| - 1];
      DepthConserved(front, pid, t);
      if e.Arrive? && e.pid == pid {
        PlacedDepth(Run(front).Of(pid), Run(front).Line(pid, e.span), e.span, t);
        DepthConcat(SpansOf(front, pid), [e.span], t);
      } else {
        assert SpansOf(front, pid) + [] == SpansOf(front, pid);
      }
    }
  }

  lemma {:induction false} TotalBounds(lanes: seq<seq<Interval>>, t: int)
    ensures (forall i :: 0 <= i < |lanes| ==> Depth(lanes[i], t) <= 1) ==> TotalDepth(lanes, t) <= |lanes|
    ensures (forall i :: 0 <= i < |lanes| ==> Depth(lanes[i], t) >= 1) ==> TotalDepth(lanes, t) >= |lanes|
  {
    if |lanes| > 0 {
      TotalBounds(lanes[..|lanes| - 1], t);
    }
  }

  /** At no instant do more spans run than there are lanes. */
  lemma DepthAtMostLanes(events: seq<Event>, pid: int, t: int)
    requires PositiveFor(events, pid)
    ensures Depth(SpansOf(events, pid), t) <= |Run(events).Of(pid)|
  {
    var lanes := Run(events).Of(pid);
    PositiveRunLaid(events, pid);
    forall i | 0 <= i < |lanes|
      ensures Depth(lanes[i], t) <= 1
    {
      LaneDepth(lanes[i], t);
    }
    TotalBounds(lanes, t);
    DepthConserved(events, pid, t);
  }

  /** The spans of pid arrive in start order, as they do when they all come from one sorted room. */
  ghost predicate StartOrder(events: seq<Event>, pid: int) {
    Ascending(SpansOf(events, pid))
  }

  ghost predicate Ascending(s: seq<Interval>) {
    forall i, j :: 0 <= i < j < |s| ==> s[i].start <= s[j].start
  }

  lemma {:induction false} InContents(lanes: seq<seq<Interval>>, i: nat, j: nat)
    requires i < |lanes| && j < |lanes[i]|
    ensures lanes[i][j] in Contents(lanes)
  {
    if i < |lanes| - 1 {
      InContents(lanes[..|lanes| - 1], i, j);
    } else {
      assert lanes[i][j] in multiset(lanes[i]);
    }
  }

  /** A conflict with spans that started no later is a span running at the query's start. */
  lemma LaneBusy(lane: seq<Interval>, x: Interval)
    requires Laid(lane) && x.start < x.end && NeighbourTest(lane, x.start, x.end)
    requires forall j :: 0 <= j < |lane| ==> lane[j].start <= x.start && lane[j].start < lane[j].end
    ensures Depth(lane, x.start) >= 1
  {
    NeighboursSuffice(lane, x.start, x.end);
    var j :| 0 <= j < |lane| && lane[j].start < x.end && (x.start < lane[j].end || x.start == lane[j].start);
    DepthPositive(lane, j, x.start);
  }

  lemma LaneSpan(events: seq<Event>, pid: int, i: nat, j: nat) returns (k: nat)
    requires i < |Run(events).Of(pid)| && j < |Run(events).Of(pid)[i]|
    ensures k < |SpansOf(events, pid)| && SpansOf(events, pid)[k] == Run(events).Of(pid)[i][j]
  {
    var x := Run(events).Of(pid)[i][j];
    Conservation(events, pid);
    InContents(Run(events).Of(pid), i, j);
    assert x in multiset(SpansOf(events, pid));
    k :| 0 <= k < |SpansOf(events, pid)| && SpansOf(events, pid)[k] == x;
  }

  lemma {:induction false} SpansPositive(events: seq<Event>, pid: int)
    requires PositiveFor(events, pid)
    ensures Positive(SpansOf(events, pid))
  {
    if |events| > 0 {
      SpansPositive(events[..|events| - 1], pid);
    }
  }

  /** When an arrival finds no free lane, every lane is busy at its start instant. */
  lemma AllBusy(front: seq<Event>, pid: int, x: Interval)
    requires PositiveFor(front, pid) && x.start < x.end
    requires forall i :: 0 <= i < |SpansOf(front, pid)| ==> SpansOf(front, pid)[i].start <= x.start
    requires Run(front).Line(pid, x) > |Run(front).Of(pid)|
    ensures TotalDepth(Run(front).Of(pid), x.start) >= |Run(front).Of(pid)|
  {
    var lanes := Run(front).Of(pid);
    PositiveRunLaid(front, pid);
    SpansPositive(front, pid);
    FirstFreeCorrect(lanes, 0, x.start, x.end);
    forall i | 0 <= i < |lanes|
      ensures Depth(lanes[i], x.start) >= 1
    {
      forall j | 0 <= j < |lanes[i]|
        ensures lanes[i][j].start <= x.start && lanes[i][j].start < lanes[i][j].end
      {
        var k := LaneSpan(front, pid, i, j);
      }
      LaneBusy(lanes[i], x);
    }
    TotalBounds(lanes, x.start);
  }

  lemma RunSplit(events: seq<Event>) returns (front: seq<Event>, e: Event)
    requires |events| > 0
    ensures events == front + [e] && |front| < |events|
    ensures Run(events) == Run(front).Step(e)
    ensures forall pid ::
              SpansOf(events, pid) == SpansOf(front, pid) + if e.Arrive? && e.pid == pid then [e.span] else []
    ensures forall pid :: PositiveFor(events, pid) ==>
              PositiveFor(front, pid) && (e.Arrive? && e.pid == pid ==> e.span.start < e.span.end)
  {
    front, e := events[..|events| - 1], events[|events| - 1];
  }

  /** First-fit on start-ordered spans opens no lane too many: some instant keeps all of them busy. */
  lemma {:induction false} DepthReached(events: seq<Event>, pid: int) returns (t: int)
    requires PositiveFor(events, pid) && StartOrder(events, pid)
    ensures |Run(events).Of(pid)| > 0 ==> Depth(SpansOf(events, pid), t) == |Run(events).Of(pid)|
    decreases |events|
  {
    t := 0;
    if |events| > 0 {
      var front, e := RunSplit(events);
      if e.Arrive? && e.pid == pid {
        StartOrderFront(front, e, pid);
        if Run(front).Line(pid, e.span) > |Run(front).Of(pid)| {
          t := e.span.start;
          AllBusy(front, pid, e.span);
          DepthConserved(front, pid, t);
        } else {
          t := DepthReached(front, pid);
        }
        DepthConcat(SpansOf(front, pid), [e.span], t);
        DepthAtMostLanes(events, pid, t);
        LanesAfter(Run(front), e);
      } else {
        assert SpansOf(events, pid) == SpansOf(front, pid);
        t := DepthReached(front, pid);
      }
    }
  }

  lemma LanesAfter(l: Layout, e: Event)
    requires l.Valid() && e.Arrive?
    ensures |l.Step(e).Of(e.pid)| == if l.Line(e.pid, e.span) > |l.Of(e.pid)| then |l.Of(e.pid)| + 1 else |l.Of(e.pid)|
  {
  }

  lemma StartOrderFront(front: seq<Event>, e: Event, pid: int)
    requires StartOrder(front + [e], pid) && e.Arrive? && e.pid == pid
    ensures SpansOf(front + [e], pid) == SpansOf(front, pid) + [e.span]
    ensures StartOrder(front, pid)
    ensures forall i :: 0 <= i < |SpansOf(front, pid)| ==> SpansOf(front, pid)[i].start <= e.span.start
  {
    var s := SpansOf(front, pid);
    assert (front + [e])[..|front|] == front;
    assert SpansOf(front + [e], pid) == s + [e.span];
    forall i, j | 0 <= i < j < |s|
      ensures s[i].start <= s[j].start
    {
      assert (s + [e.span])[i].start <= (s + [e.span])[j].start;
    }
    forall i | 0 <= i < |s|
      ensures s[i].start <= e.span.start
    {
      assert (s + [e.span])[i].start <= (s + [e.span])[|s|].start;
    }
  }

  /** The number of lanes of a pid is the maximum number of its spans alive at one instant, whatever arrives for
      other pids. */
  lemma LaneCountOptimal(events: seq<Event>, pid: int)
    requires PositiveFor(events, pid) && StartOrder(events, pid)
    ensures forall t :: Depth(SpansOf(events, pid), t) <= |Run(events).Of(pid)|
    ensures |Run(events).Of(pid)| > 0 ==> exists t :: Depth(SpansOf(events, pid), t) == |Run(events).Of(pid)|
  {
    forall t
      ensures Depth(SpansOf(events, pid), t) <= |Run(events).Of(pid)|
    {
      DepthAtMostLanes(events, pid, t);
    }
    var t := DepthReached(events, pid);
  }

  lemma {:induction false} AllConflict(lanes: seq<seq<Interval>>, from: nat, start: int, end: int)
    requires from <= |lanes| && forall k :: from <= k < |lanes| ==> NeighbourTest(lanes[k], start, end)
    ensures FirstFree(lanes, from, start, end) == |lanes|
    decreases |lanes| - from
  {
    if from < |lanes| {
      AllConflict(lanes, from + 1, start, end);
    }
  }

  lemma OpensLane(l: Layout, pid: int, lanes: seq<seq<Interval>>, x: Interval)
    requires l.Valid() && l.Of(pid) == lanes && x.start < x.end
    requires forall k :: 0 <= k < |lanes| ==> NeighbourTest(lanes[k], x.start, x.end)
    ensures l.Step(Arrive(pid, x)).Of(pid) == lanes + [[x]]
  {
    AllConflict(lanes, 0, x.start, x.end);
    assert Insort([], x) == [x];
  }

  /** Start order matters. With rooms {(0,1), (4,5)} and {(0,3), (2,6)}, which are processed in this order,
      the last span needs a third lane although never more than two spans run at once. */
  lemma TwoRoomsMayWaste(pid: int)
    ensures var a, b, c, d := Interval(0, 1), Interval(4, 5), Interval(0, 3), Interval(2, 6);
            && |Run([Enter, Arrive(pid, a), Arrive(pid, b), Enter, Arrive(pid, c), Arrive(pid, d)]).Of(pid)| == 3
            && forall t :: Depth([a, b, c, d], t) <= 2
  {
    var a, b, c, d := Interval(0, 1), Interval(4, 5), Interval(0, 3), Interval(2, 6);
    var room := [Enter, Arrive(pid, a), Arrive(pid, b)];
    TwoOnLane(pid, a, b);
    assert NeighbourTest([a, b], 0, 3) && NeighbourTest([a, b], 2, 6) by {
      assert [a, b][1..] == [b];
    }
    SecondRoom(room, pid, [a, b], c, d);
    SixEvents(Enter, Arrive(pid, a), Arrive(pid, b), Enter, Arrive(pid, c), Arrive(pid, d));
    forall t
      ensures Depth([a, b, c, d], t) <= 2
    {
      FourDepth(a, b, c, d, t);
    }
  }

  lemma SixEvents(a: Event, b: Event, c: Event, d: Event, e: Event, f: Event)
    ensures [a, b, c] + [d] + [e] + [f] == [a, b, c, d, e, f]
  {
  }

  /** A second room whose two spans both conflict with the lane of the first, and with each other. */
  lemma SecondRoom(room: seq<Event>, pid: int, lane: seq<Interval>, c: Interval, d: Interval)
    requires Run(room) == OneLane(pid, lane) && c.start < c.end && d.start < d.end
    requires NeighbourTest(lane, c.start, c.end) && NeighbourTest(lane, d.start, d.end)
    requires NeighbourTest([c], d.start, d.end)
    ensures |Run(room + [Enter] + [Arrive(pid, c)] + [Arrive(pid, d)]).Of(pid)| == 3
  {
    var entered := room + [Enter];
    RunAppend(room, Enter);
    NextLane(entered, pid, [lane], c);
    var two := [lane] + [[c]];
    assert two[0] == lane && two[1] == [c];
    NextLane(entered + [Arrive(pid, c)], pid, two, d);
  }

  lemma NextLane(events: seq<Event>, pid: int, lanes: seq<seq<Interval>>, x: Interval)
    requires Run(events).Of(pid) == lanes && x.start < x.end
    requires forall k :: 0 <= k < |lanes| ==> NeighbourTest(lanes[k], x.start, x.end)
    ensures Run(events + [Arrive(pid, x)]).Of(pid) == lanes + [[x]]
  {
    RunAppend(events, Arrive(pid, x));
    OpensLane(Run(events), pid, lanes, x);
  }

  lemma FourDepth(a: Interval, b: Interval, c: Interval, d: Interval, t: int)
    ensures Depth([a, b, c, d], t) == (if Alive(a, t) then 1 else 0) + (if Alive(b, t) then 1 else 0)
                                    + (if Alive(c, t) then 1 else 0) + (if Alive(d, t) then 1 else 0)
  {
    assert [a, b, c, d][..3] == [a, b, c] && [a, b, c][..2] == [a, b] && [a, b][..1] == [a] && [a][..0] == [];
    assert Depth([a, b], t) == Depth([a], t) + if Alive(b, t) then 1 else 0;
    assert Depth([a, b, c], t) == Depth([a, b], t) + if Alive(c, t) then 1 else 0;
  }

  // ---------------------------------------------------------------- slot metadata

  function SlotLines(slots: seq<(int, nat)>, pid: int): seq<nat> {
    if |slots| == 0 then []
    else
      var last := slots[|slots| - 1];
      SlotLines(slots[..|slots| - 1], pid) + if last.0 == pid then [last.1] else []
  }

  function FirstLines(n: nat): seq<nat> {
    if n == 0 then [] else FirstLines(n - 1) + [n]
  }

  /** The slots of the pid, none left out, in order. */
  lemma {:induction false} SlotLinesAre(slots: seq<(int, nat)>, pid: int)
    ensures var own := Filter(slots, (s: (int, nat)) => s.0 == pid);
            && |SlotLines(slots, pid)| == |own|
            && forall i :: 0 <= i < |own| ==> own[i].0 == pid && SlotLines(slots, pid)[i] == own[i].1
  {
    if |slots| > 0 {
      SlotLinesAre(slots[..|slots| - 1], pid);
    }
  }

  lemma {:induction false} FirstLinesAre(n: nat)
    ensures |FirstLines(n)| == n && forall i :: 0 <= i < n ==> FirstLines(n)[i] == i + 1
  {
    if n > 0 {
      FirstLinesAre(n - 1);
    }
  }

  lemma SlotLinesAppend(slots: seq<(int, nat)>, slot: (int, nat), pid: int)
    ensures SlotLines(slots + [slot], pid) == SlotLines(slots, pid) + if slot.0 == pid then [slot.1] else []
  {
    assert (slots + [slot])[..|slots|] == slots;
  }

  lemma StepSlots(l: Layout, e: Event, pid: int)
    requires l.Valid()
    ensures || (l.Step(e).slots == l.slots && |l.Step(e).Of(pid)| == |l.Of(pid)|)
            || (e.Arrive? && l.Step(e).slots == l.slots + [(e.pid, |l.Of(e.pid)| + 1)] &&
                |l.Step(e).Of(pid)| == if e.pid == pid then |l.Of(pid)| + 1 else |l.Of(pid)|)
  {
  }

  /** Each lane of a pid is announced exactly once, as line 1, 2, ... in order. */
  lemma {:induction false} SlotsAnnounced(events: seq<Event>, pid: int)
    ensures SlotLines(Run(events).slots, pid) == FirstLines(|Run(events).Of(pid)|)
    decreases |events|
  {
    if |events| > 0 {
      var front, e := RunSplit(events);
      SlotsAnnounced(front, pid);
      StepSlots(Run(front), e, pid);
      if e.Arrive? {
        SlotLinesAppend(Run(front).slots, (e.pid, |Run(front).Of(e.pid)| + 1), pid);
      }
    }
  }
}
