/** What the line of a span is, said about the arrivals and their lines alone: the previous line of the pid in the
    same room while it is free, otherwise the lowest free line. */
module LaneRules {
  import opened Lanes

  /** The line given to each event of a run; 0 where a room starts. */
  function Lines(events: seq<Event>): (lines: seq<nat>)
    ensures |lines| == |events|
  {
    if |events| == 0 then []
    else
      var front, e := events[..|events| - 1], events[|events| - 1];
      Lines(front) + [if e.Arrive? then Run(front).Line(e.pid, e.span) else 0]
  }

  lemma {:induction false} LinesPrefix(events: seq<Event>, k: nat)
    requires k <= |events|
    ensures Lines(events)[..k] == Lines(events[..k])
  {
    if k < |events| {
      LinesPrefix(events[..|events| - 1], k);
      assert events[..|events| - 1][..k] == events[..k];
    } else {
      assert events[..k] == events;
    }
  }

  /** Event i is an arrival of pid that was given this line. */
  predicate On(events: seq<Event>, lines: seq<nat>, pid: int, line: nat, i: nat)
    requires |lines| == |events|
  {
    i < |events| && events[i].Arrive? && events[i].pid == pid && lines[i] == line
  }

  ghost predicate Holds(events: seq<Event>, lines: seq<nat>, pid: int, line: nat, x: Interval)
    requires |lines| == |events|
  {
    exists i: nat :: On(events, lines, pid, line, i) && events[i].span == x
  }

  lemma HoldsSnoc(events: seq<Event>, lines: seq<nat>, e: Event, n: nat, pid: int, line: nat, x: Interval)
    requires |lines| == |events|
    ensures Holds(events + [e], lines + [n], pid, line, x) <==>
              Holds(events, lines, pid, line, x) || (e.Arrive? && e.pid == pid && n == line && e.span == x)
  {
    var events', lines' := events + [e], lines + [n];
    if i: nat :| On(events, lines, pid, line, i) && events[i].span == x {
      assert On(events', lines', pid, line, i) && events'[i].span == x;
    }
    if e.Arrive? && e.pid == pid && n == line && e.span == x {
      assert On(events', lines', pid, line, |events|) && events'[|events|].span == x;
    }
    if i: nat :| On(events', lines', pid, line, i) && events'[i].span == x {
      if i < |events| {
        assert On(events, lines, pid, line, i) && events[i].span == x;
      }
    }
  }

  /** The intervals of line `line`, none for a line that was never opened. */
  function Lane(lanes: seq<seq<Interval>>, line: nat): seq<Interval> {
    if 1 <= line <= |lanes| then lanes[line - 1] else []
  }

  lemma PlacedLane(lanes: seq<seq<Interval>>, at: nat, x: Interval, line: nat, y: Interval)
    requires 1 <= at <= |lanes| + 1
    ensures y in Lane(Placed(lanes, at, x), line) <==> y in Lane(lanes, line) || (line == at && y == x)
  {
    if line == at {
      var lane := Lane(lanes, line);
      assert Lane(Placed(lanes, at, x), line) == Insort(lane, x);
      InsortMembers(lane, x, y);
    }
  }

  lemma InsortMembers(s: seq<Interval>, x: Interval, y: Interval)
    ensures y in Insort(s, x) <==> y in s || y == x
  {
    InsortContents(s, x);
    assert y in Insort(s, x) <==> y in multiset(Insort(s, x));
    assert y in s <==> y in multiset(s);
  }

  /** At any moment a line of a pid holds exactly the spans of that pid that were given that line. */
  lemma {:induction false} LaneHolds(events: seq<Event>, pid: int, line: nat, x: Interval)
    ensures x in Lane(Run(events).Of(pid), line) <==> Holds(events, Lines(events), pid, line, x)
  {
    if |events| > 0 {
      var front, e := events[..|events| - 1], events[|events| - 1];
      LaneHolds(front, pid, line, x);
      assert events == front + [e];
      var n := if e.Arrive? then Run(front).Line(e.pid, e.span) else 0;
      HoldsSnoc(front, Lines(front), e, n, pid, line, x);
      if e.Arrive? && e.pid == pid {
        StepPlaces(Run(front), pid, e.span);
        PlacedLane(Run(front).Of(pid), n, e.span, line, x);
      } else {
        StepSpares(Run(front), e, pid);
      }
    }
  }

  /** Event j is the last arrival of pid in the room that is current after the events. */
  ghost predicate LastInRoom(events: seq<Event>, pid: int, j: nat) {
    && j < |events| && events[j].Arrive? && events[j].pid == pid
    && forall i :: j < i < |events| ==> events[i].Arrive? && events[i].pid != pid
  }

  /** What is remembered for a pid is the line of its last span in the current room. */
  ghost predicate Remembers(sticky: nat, events: seq<Event>, lines: seq<nat>, pid: int)
    requires |lines| == |events|
  {
    && (forall j: nat :: LastInRoom(events, pid, j) ==> 0 < sticky == lines[j])
    && ((forall j: nat :: !LastInRoom(events, pid, j)) ==> sticky == 0)
  }

  lemma RemembersNext(sticky: nat, events: seq<Event>, lines: seq<nat>, e: Event, n: nat, pid: int)
    requires |lines| == |events| && Remembers(sticky, events, lines, pid) && (e.Arrive? ==> n > 0)
    ensures var sticky' := if e.Enter? then 0 else if e.pid == pid then n else sticky;
            Remembers(sticky', events + [e], lines + [n], pid)
  {
    if e.Arrive? && e.pid == pid {
      assert LastInRoom(events + [e], pid, |events|);
    } else if e.Arrive? {
      forall j: nat
        ensures LastInRoom(events + [e], pid, j) <==> LastInRoom(events, pid, j)
      {
        OtherArrival(events, e, pid, j);
      }
    } else {
      forall j: nat
        ensures !LastInRoom(events + [e], pid, j)
      {
        assert (events + [e])[|events|].Enter?;
      }
    }
  }

  lemma OtherArrival(events: seq<Event>, e: Event, pid: int, j: nat)
    requires e.Arrive? && e.pid != pid
    ensures LastInRoom(events + [e], pid, j) <==> LastInRoom(events, pid, j)
  {
    if LastInRoom(events + [e], pid, j) {
      forall i | j < i < |events|
        ensures events[i].Arrive? && events[i].pid != pid
      {
        assert (events + [e])[i] == events[i];
      }
    }
  }

  lemma {:induction false} StickyIsLast(events: seq<Event>, pid: int)
    ensures Remembers(Run(events).Sticky(pid), events, Lines(events), pid)
  {
    if |events| > 0 {
      var front, e := events[..|events| - 1], events[|events| - 1];
      StickyIsLast(front, pid);
      assert events == front + [e];
      RemembersNext(Run(front).Sticky(pid), front, Lines(front), e, Lines(events)[|front|], pid);
    }
  }

  /** The two spans cannot share a line: they overlap, or the new one runs from where the other sits. */
  predicate Meets(y: Interval, x: Interval) {
    y.start < x.end && (x.start < y.end || x.start == y.start)
  }

  /** No earlier span of the pid of arrival k was given this line and meets it. */
  ghost predicate Free(events: seq<Event>, lines: seq<nat>, k: nat, line: nat)
    requires |lines| == |events| && k < |events| && events[k].Arrive?
  {
    forall i: nat :: i < k && On(events, lines, events[k].pid, line, i) ==> !Meets(events[i].span, events[k].span)
  }

  /** Arrival j is the previous one of the pid of arrival k, and in the same room. */
  ghost predicate Previous(events: seq<Event>, j: nat, k: nat)
    requires k < |events| && events[k].Arrive?
  {
    && j < k && events[j].Arrive? && events[j].pid == events[k].pid
    && forall i :: j < i < k ==> events[i].Arrive? && events[i].pid != events[k].pid
  }

  /** A line is free for an arrival exactly when the neighbour test finds nothing on it. */
  lemma FreeMeansNoNeighbour(events: seq<Event>, k: nat, line: nat)
    requires k < |events| && events[k].Arrive? && events[k].span.start <= events[k].span.end
    requires AllLaid(Run(events[..k]).Of(events[k].pid))
    ensures var x := events[k].span;
            Free(events, Lines(events), k, line) <==>
            !NeighbourTest(Lane(Run(events[..k]).Of(events[k].pid), line), x.start, x.end)
  {
    var lines, pid, x := Lines(events), events[k].pid, events[k].span;
    var lane := Lane(Run(events[..k]).Of(pid), line);
    LinesPrefix(events, k);
    NeighboursSuffice(lane, x.start, x.end);
    if i :| 0 <= i < |lane| && Meets(lane[i], x) {
      LaneHolds(events[..k], pid, line, lane[i]);
      var m: nat :| On(events[..k], Lines(events[..k]), pid, line, m) && events[..k][m].span == lane[i];
      assert On(events, lines, pid, line, m);
    }
    forall m: nat | m < k && On(events, lines, pid, line, m)
      ensures events[m].span in lane
    {
      assert On(events[..k], Lines(events[..k]), pid, line, m);
      LaneHolds(events[..k], pid, line, events[m].span);
    }
  }

  /** Line is the lowest one, counted from 1, that is free for arrival k; a line without spans is free. */
  ghost predicate LowestFree(events: seq<Event>, lines: seq<nat>, k: nat, line: nat)
    requires |lines| == |events| && k < |events| && events[k].Arrive?
  {
    line >= 1 && Free(events, lines, k, line) && forall l: nat :: 1 <= l < line ==> !Free(events, lines, k, l)
  }

  lemma {:induction false} LineOfPrefix(events: seq<Event>, k: nat)
    requires k < |events| && events[k].Arrive?
    ensures Lines(events)[k] == Run(events[..k]).Line(events[k].pid, events[k].span)
  {
    if k < |events| - 1 {
      LineOfPrefix(events[..|events| - 1], k);
      assert events[..|events| - 1][..k] == events[..k];
    }
  }

  lemma PreviousIsLast(events: seq<Event>, j: nat, k: nat)
    requires k < |events| && events[k].Arrive?
    ensures Previous(events, j, k) <==> LastInRoom(events[..k], events[k].pid, j)
  {
  }

  predicate Busy(lanes: seq<seq<Interval>>, line: nat, x: Interval) {
    NeighbourTest(Lane(lanes, line), x.start, x.end)
  }

  lemma ChoiceRule(lanes: seq<seq<Interval>>, sticky: nat, x: Interval)
    requires sticky <= |lanes|
    ensures var line, keep := FindLine(lanes, sticky, x.start, x.end),
                              sticky > 0 && (x.start == x.end || !Busy(lanes, sticky, x));
            && (keep ==> line == sticky)
            && (!keep ==> !Busy(lanes, line, x) && forall l: nat :: 1 <= l < line ==> Busy(lanes, l, x))
  {
    FirstFreeCorrect(lanes, 0, x.start, x.end);
  }

  /** A previous span of its pid in the same room hands on its line when that line is free, and to a point in any
      case; otherwise the span goes to the lowest free line. */
  ghost predicate Ruled(events: seq<Event>, lines: seq<nat>, k: nat)
    requires |lines| == |events| && k < |events| && events[k].Arrive?
  {
    var point := events[k].span.start == events[k].span.end;
    && (forall j: nat :: Previous(events, j, k) && (point || Free(events, lines, k, lines[j])) ==> lines[k] == lines[j])
    && ((forall j: nat :: Previous(events, j, k) ==> !point && !Free(events, lines, k, lines[j])) ==>
         LowestFree(events, lines, k, lines[k]))
  }

  /** The line of an arriving span, whatever the events before and after it. */
  lemma LineRule(events: seq<Event>, k: nat)
    requires k < |events| && events[k].Arrive? && events[k].span.start <= events[k].span.end
    requires AllLaid(Run(events[..k]).Of(events[k].pid))
    ensures Ruled(events, Lines(events), k)
  {
    var lines, pid, x := Lines(events), events[k].pid, events[k].span;
    var before := events[..k];
    var lanes, sticky := Run(before).Of(pid), Run(before).Sticky(pid);
    assert lines[k] == FindLine(lanes, sticky, x.start, x.end) by {
      LineOfPrefix(events, k);
    }
    ChoiceRule(lanes, sticky, x);
    forall line: nat
      ensures Free(events, lines, k, line) <==> !Busy(lanes, line, x)
    {
      FreeMeansNoNeighbour(events, k, line);
    }
    assert Sticks(sticky, events, lines, k) by {
      StickyIsLast(before, pid);
      LinesPrefix(events, k);
      RememberedPrevious(sticky, events, lines, k);
    }
  }

  /** The sticky line in terms of the previous arrival. */
  ghost predicate Sticks(sticky: nat, events: seq<Event>, lines: seq<nat>, k: nat)
    requires |lines| == |events| && k < |events| && events[k].Arrive?
  {
    && (forall j: nat :: Previous(events, j, k) ==> 0 < sticky == lines[j])
    && ((forall j: nat :: !Previous(events, j, k)) ==> sticky == 0)
  }

  lemma RememberedPrevious(sticky: nat, events: seq<Event>, lines: seq<nat>, k: nat)
    requires |lines| == |events| && k < |events| && events[k].Arrive?
    requires Remembers(sticky, events[..k], lines[..k], events[k].pid)
    ensures Sticks(sticky, events, lines, k)
  {
    forall j: nat
      ensures Previous(events, j, k) <==> LastInRoom(events[..k], events[k].pid, j)
    {
      PreviousIsLast(events, j, k);
    }
  }

  /** No earlier span of the pid of arrival k was given this line and overlaps it. */
  ghost predicate Clear(events: seq<Event>, lines: seq<nat>, k: nat, line: nat)
    requires |lines| == |events| && k < |events| && events[k].Arrive?
  {
    forall i: nat :: i < k && On(events, lines, events[k].pid, line, i) ==> !Overlap(events[i].span, events[k].span)
  }

  /** For a pid with spans of positive length being free means overlapping nothing. */
  lemma PositiveLineRule(events: seq<Event>, k: nat)
    requires k < |events| && events[k].Arrive? && PositiveFor(events, events[k].pid)
    ensures var lines := Lines(events);
            && (forall j: nat :: Previous(events, j, k) && Clear(events, lines, k, lines[j]) ==> lines[k] == lines[j])
            && ((forall j: nat :: Previous(events, j, k) ==> !Clear(events, lines, k, lines[j])) ==>
                 lines[k] >= 1 && Clear(events, lines, k, lines[k]) &&
                 forall l: nat :: 1 <= l < lines[k] ==> !Clear(events, lines, k, l))
  {
    var lines, pid := Lines(events), events[k].pid;
    PositiveRunLaid(events[..k], pid);
    LineRule(events, k);
    forall line: nat
      ensures Clear(events, lines, k, line) <==> Free(events, lines, k, line)
    {
      ClearIsFree(events, lines, k, line);
    }
  }

  lemma ClearIsFree(events: seq<Event>, lines: seq<nat>, k: nat, line: nat)
    requires |lines| == |events| && k < |events| && events[k].Arrive? && PositiveFor(events, events[k].pid)
    ensures Clear(events, lines, k, line) <==> Free(events, lines, k, line)
  {
    forall i: nat | i < k && On(events, lines, events[k].pid, line, i)
      ensures Overlap(events[i].span, events[k].span) <==> Meets(events[i].span, events[k].span)
    {
      assert events[i].span.start < events[i].span.end;
    }
  }
}
