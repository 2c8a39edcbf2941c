/** The converter's mutable objects: one container per line, and the graph that the placement loop fills. */
module SpanLayouts {
  import opened Basics
  import opened Lanes
  import opened LaneOptimality
  import opened LaneRules
  import opened Sorting

  class SpanLayoutContainer {
    var intervals: seq<Interval>
    ghost const slot: (int, nat)  // the pid and line this container serves

    constructor (ghost slot: (int, nat))
      ensures intervals == [] && this.slot == slot
    {
      intervals := [];
      this.slot := slot;
    }

    method CheckOverlap(start: int, end: int) returns (r: bool)
      ensures r == NeighbourTest(intervals, start, end)
      ensures Laid(intervals) && start <= end ==> (r <==> Touches(intervals, start, end))
      ensures Laid(intervals) && Positive(intervals) && start < end ==>
                (r <==> OverlapsSome(intervals, Interval(start, end)))
    {
      if Laid(intervals) && start <= end {
        NeighboursSuffice(intervals, start, end);
      }
      var idx := BisectStart(intervals, start);
      if idx > 0 {
        if intervals[idx - 1].end > start {
          return true;
        }
      }
      if idx < |intervals| {
        if intervals[idx].start < end {
          return true;
        }
      }
      return false;
    }

    method InsertSpan(start: int, end: int)
      modifies this
      ensures intervals == Insort(old(intervals), Interval(start, end))
    {
      intervals := Insort(intervals, Interval(start, end));
    }
  }

  datatype Span = Span(pid: int, start: int, end: int)

  /** graph, the current room's req_thread_status, and slot_meta_data. graph[pid][i] is the container of line i+1. */
  class SpanLayout {
    var graph: map<int, seq<SpanLayoutContainer>>
    var status: map<int, nat>
    var slots: seq<(int, nat)>
    ghost var model: Layout
    ghost var containers: set<SpanLayoutContainer>

    ghost predicate Valid()
      reads this, containers
    {
      && model.Valid()
      && model.status == status && model.slots == slots && model.lanes.Keys == graph.Keys
      && (forall p :: p in graph ==> |graph[p]| == |model.lanes[p]|)
      && (forall p, i :: p in graph && 0 <= i < |graph[p]| ==>
            graph[p][i] in containers && graph[p][i].slot == (p, i + 1) && graph[p][i].intervals == model.lanes[p][i])
    }

    constructor ()
      ensures Valid() && model == Layout(map[], map[], []) && containers == {}
    {
      containers := {};
      graph := map[];
      status := map[];
      slots := [];
      model := Layout(map[], map[], []);
    }

    method EnterRoom()
      requires Valid()
      modifies this
      ensures Valid() && model == old(model).Step(Enter) && containers == old(containers)
    {
      status := map[];
      model := model.Step(Enter);
    }

    /** Opens the next line of pid with an empty container. */
    method OpenLine(pid: int) returns (line: nat)
      requires Valid()
      modifies this
      ensures Valid() && fresh(containers - old(containers))
      ensures line == |old(model).Of(pid)| + 1
      ensures model == Opened(old(model), pid)
    {
      var lines := if pid in graph then graph[pid] else [];
      line := |lines| + 1;
      var c := new SpanLayoutContainer((pid, line));
      graph := graph[pid := lines + [c]];
      containers := containers + {c};
      status := status[pid := line];
      slots := slots + [(pid, line)];
      model := Opened(model, pid);
      forall p, i | p in graph && 0 <= i < |graph[p]|
        ensures graph[p][i] in containers && graph[p][i].slot == (p, i + 1) &&
                  graph[p][i].intervals == model.lanes[p][i]
      {
        if p == pid && i == |lines| {
          assert graph[p][i] == c;
        } else {
          assert graph[p][i] == old(graph)[p][i];
        }
      }
    }

    /** Makes an existing line the sticky line of pid. */
    method UseLine(pid: int, line: nat)
      requires Valid() && pid in graph && 1 <= line <= |graph[pid]|
      modifies this`status, this`model
      ensures Valid() && model == Used(old(model), pid, line) && containers == old(containers)
    {
      status := status[pid := line];
      model := Used(model, pid, line);
    }

    /** The scan over graph[pid]: the first container without a conflict. */
    method FirstFit(pid: int, start: int, end: int) returns (i: nat)
      requires Valid() && pid in graph
      ensures i == FirstFree(model.lanes[pid], 0, start, end)
    {
      i := 0;
      while i < |graph[pid]|
        invariant 0 <= i <= |graph[pid]|
        invariant FirstFree(model.lanes[pid], 0, start, end) == FirstFree(model.lanes[pid], i, start, end)
      {
        var busy := graph[pid][i].CheckOverlap(start, end);
        if !busy {
          return;
        }
        i := i + 1;
      }
    }

    /** The decision part of __find_line: the sticky line, the first fit, or the next new line. */
    method ChooseLine(pid: int, start: int, end: int) returns (line: nat)
      requires Valid()
      ensures line == model.Line(pid, Interval(start, end))
    {
      if pid in status {
        line := status[pid];
        if start == end {
          return;
        }
        var busy := graph[pid][line - 1].CheckOverlap(start, end);
        if !busy {
          return;
        }
      }
      if pid !in graph {
        return 1;
      }
      var i := FirstFit(pid, start, end);
      line := i + 1;
    }

    method FindLine(pid: int, start: int, end: int) returns (line: nat)
      requires Valid()
      modifies this
      ensures Valid() && fresh(containers - old(containers))
      ensures model == Chosen(old(model), pid, Interval(start, end))
      ensures line == old(model).Line(pid, Interval(start, end))
    {
      line := ChooseLine(pid, start, end);
      ChosenCases(model, pid, Interval(start, end));
      if pid in graph && line <= |graph[pid]| {
        UseLine(pid, line);
      } else {
        line := OpenLine(pid);
      }
    }

    method InsertAt(pid: int, line: nat, x: Interval)
      requires Valid() && pid in graph && 1 <= line <= |graph[pid]|
      modifies this`model, containers
      ensures Valid() && graph == old(graph) && containers == old(containers)
      ensures model == Inserted(old(model), pid, line, x)
    {
      graph[pid][line - 1].InsertSpan(x.start, x.end);
      model := Inserted(model, pid, line, x);
    }

    /** One turn of the placement loop: choose a line, insert, and report the line as the span's tid. */
    method Place(pid: int, start: int, end: int) returns (line: nat)
      requires Valid()
      modifies this, containers
      ensures Valid() && fresh(containers - old(containers))
      ensures line == old(model).Line(pid, Interval(start, end))
      ensures model == old(model).Step(Arrive(pid, Interval(start, end)))
    {
      line := FindLine(pid, start, end);
      InsertAt(pid, line, Interval(start, end));
      ChosenThenInserted(old(model), pid, Interval(start, end));
    }
  }

  // ---------------------------------------------------------------- generate_perfetto_span_layout

  function StartKey(s: Span): int {
    s.start
  }

  function RoomKey(room: seq<Span>): int {
    if |room| == 0 then 0 else room[0].start
  }

  function SortRooms(rooms: seq<seq<Span>>): seq<seq<Span>> {
    if |rooms| == 0 then []
    else SortRooms(rooms[..|rooms| - 1]) + [Sorted(rooms[|rooms| - 1], StartKey)]
  }

  /** The rooms in processing order: spans sorted within each room, then rooms by their first span. */
  function Ordered(rooms: seq<seq<Span>>): seq<seq<Span>> {
    Sorted(SortRooms(rooms), RoomKey)
  }

  function RoomEvents(room: seq<Span>): seq<Event> {
    if |room| == 0 then [Enter]
    else
      var s := room[|room| - 1];
      RoomEvents(room[..|room| - 1]) + [ArrivalOf(s)]
  }

  function Events(rooms: seq<seq<Span>>): seq<Event> {
    if |rooms| == 0 then [] else Events(rooms[..|rooms| - 1]) + RoomEvents(rooms[|rooms| - 1])
  }

  /** The line given to each arriving span. */
  function Tids(events: seq<Event>): seq<nat> {
    if |events| == 0 then []
    else
      var front, e := events[..|events| - 1], events[|events| - 1];
      Tids(front) + if e.Arrive? then [Run(front).Line(e.pid, e.span)] else []
  }

  lemma Snoc(events: seq<Event>, e: Event)
    ensures Run(events + [e]) == Run(events).Step(e)
    ensures Tids(events + [e]) == Tids(events) + if e.Arrive? then [Run(events).Line(e.pid, e.span)] else []
  {
    assert (events + [e])[..|events|] == events;
  }

  /** Fails exactly when some room has no spans, since rooms are ordered by their first span. */
  method GenerateSpanLayout(rooms: seq<seq<Span>>) returns (ok: bool, layout: SpanLayout, tids: seq<nat>)
    ensures ok <==> forall i :: 0 <= i < |rooms| ==> |rooms[i]| > 0
    ensures fresh(layout) && layout.Valid()
    ensures ok ==> layout.model == Run(Events(Ordered(rooms))) && tids == Tids(Events(Ordered(rooms)))
  {
    layout := new SpanLayout();
    tids := [];
    ok := true;
    for i := 0 to |rooms|
      invariant ok <==> forall k :: 0 <= k < i ==> |rooms[k]| > 0
    {
      if |rooms[i]| == 0 {
        ok := false;
      }
    }
    if !ok {
      return;
    }
    tids := PlaceRooms(layout, Ordered(rooms));
  }

  /** The outer loop over the ordered rooms. */
  method PlaceRooms(layout: SpanLayout, order: seq<seq<Span>>) returns (tids: seq<nat>)
    requires layout.Valid() && layout.model == Run([])
    modifies layout, layout.containers
    ensures layout.Valid() && layout.model == Run(Events(order)) && tids == Tids(Events(order))
  {
    tids := [];
    ghost var sofar: seq<Event> := [];
    for i := 0 to |order|
      invariant layout.Valid() && fresh(layout.containers - old(layout.containers))
      invariant sofar == Events(order[..i]) && layout.model == Run(sofar) && tids == Tids(sofar)
    {
      RoomRun(sofar, order[i]);
      RoomTids(sofar, order[i]);
      var lines := PlaceRoom(layout, order[i]);
      sofar := sofar + RoomEvents(order[i]);
      tids := tids + lines;
      assert order[..i + 1][..i] == order[..i];
    }
    assert order[..|order|] == order;
  }

  function ArrivalOf(s: Span): Event {
    Arrive(s.pid, Interval(s.start, s.end))
  }

  /** The layout after a sequence of arrivals, and the lines they were given. */
  function AfterSpans(l: Layout, room: seq<Span>): (r: Layout)
    requires l.Valid()
    ensures r.Valid()
  {
    if |room| == 0 then l else AfterSpans(l, room[..|room| - 1]).Step(ArrivalOf(room[|room| - 1]))
  }

  function LinesGiven(l: Layout, room: seq<Span>): seq<nat>
    requires l.Valid()
  {
    if |room| == 0 then []
    else
      var front, s := room[..|room| - 1], room[|room| - 1];
      LinesGiven(l, front) + [AfterSpans(l, front).Line(s.pid, Interval(s.start, s.end))]
  }

  /** The inner loop: one room starts and its spans are placed in order. */
  method PlaceRoom(layout: SpanLayout, room: seq<Span>) returns (tids: seq<nat>)
    requires layout.Valid()
    modifies layout, layout.containers
    ensures layout.Valid() && fresh(layout.containers - old(layout.containers))
    ensures layout.model == AfterSpans(old(layout.model).Step(Enter), room)
    ensures tids == LinesGiven(old(layout.model).Step(Enter), room)
  {
    layout.EnterRoom();
    ghost var l := layout.model;
    tids := [];
    for j := 0 to |room|
      invariant layout.Valid() && fresh(layout.containers - old(layout.containers))
      invariant layout.model == AfterSpans(l, room[..j]) && tids == LinesGiven(l, room[..j])
    {
      var s := room[j];
      assert room[..j + 1][..j] == room[..j];
      var line := layout.Place(s.pid, s.start, s.end);
      tids := tids + [line];
    }
    assert room[..|room|] == room;
  }

  lemma {:induction false} RoomRun(before: seq<Event>, room: seq<Span>)
    ensures Run(before + RoomEvents(room)) == AfterSpans(Run(before).Step(Enter), room)
  {
    if |room| == 0 {
      Snoc(before, Enter);
    } else {
      var front, e := room[..|room| - 1], ArrivalOf(room[|room| - 1]);
      RoomRun(before, front);
      RoomEventsLast(before, room);
      Snoc(before + RoomEvents(front), e);
    }
  }

  lemma RoomEventsLast(before: seq<Event>, room: seq<Span>)
    requires |room| > 0
    ensures before + RoomEvents(room) == before + RoomEvents(room[..|room| - 1]) + [ArrivalOf(room[|room| - 1])]
  {
  }

  lemma {:induction false} RoomTids(before: seq<Event>, room: seq<Span>)
    ensures Tids(before + RoomEvents(room)) == Tids(before) + LinesGiven(Run(before).Step(Enter), room)
  {
    var l := Run(before).Step(Enter);
    if |room| == 0 {
      Snoc(before, Enter);
    } else {
      var front, s := room[..|room| - 1], room[|room| - 1];
      RoomTids(before, front);
      RoomRun(before, front);
      RoomEventsLast(before, room);
      Snoc(before + RoomEvents(front), ArrivalOf(s));
      var line := AfterSpans(l, front).Line(s.pid, Interval(s.start, s.end));
      Associative(Tids(before), LinesGiven(l, front), [line]);
    }
  }

  // ---------------------------------------------------------------- what the reported lines are

  /** How many spans the first i rooms have. */
  function Offset(order: seq<seq<Span>>, i: nat): nat
    requires i <= |order|
  {
    if i == 0 then 0 else Offset(order, i - 1) + |order[i - 1]|
  }

  /** Where span j of room i stands among the events. */
  function At(order: seq<seq<Span>>, i: nat, j: nat): nat
    requires i < |order|
  {
    Offset(order, i) + i + 1 + j
  }

  lemma {:induction false} RoomEventsAt(room: seq<Span>)
    ensures |RoomEvents(room)| == |room| + 1 && RoomEvents(room)[0] == Enter
    ensures forall j :: 0 <= j < |room| ==> RoomEvents(room)[j + 1] == ArrivalOf(room[j])
  {
    if |room| > 0 {
      RoomEventsAt(room[..|room| - 1]);
    }
  }

  lemma {:induction false} RoomEventsPrefix(room: seq<Span>, j: nat)
    requires j <= |room|
    ensures |RoomEvents(room)| == |room| + 1 && RoomEvents(room)[..j + 1] == RoomEvents(room[..j])
  {
    RoomEventsAt(room);
    RoomEventsAt(room[..j]);
    forall m | 0 <= m < j + 1
      ensures RoomEvents(room)[m] == RoomEvents(room[..j])[m]
    {
      if m > 0 {
        assert RoomEvents(room)[m - 1 + 1] == ArrivalOf(room[m - 1]);
        assert RoomEvents(room[..j])[m - 1 + 1] == ArrivalOf(room[..j][m - 1]);
      }
    }
  }

  lemma {:induction false} OffsetPrefix(order: seq<seq<Span>>, n: nat, i: nat)
    requires i <= n <= |order|
    ensures Offset(order[..n], i) == Offset(order, i)
  {
    if i > 0 {
      OffsetPrefix(order, n, i - 1);
    }
  }

  lemma {:induction false} EventsCount(order: seq<seq<Span>>)
    ensures |Events(order)| == Offset(order, |order|) + |order|
  {
    if |order| > 0 {
      var n := |order| - 1;
      EventsCount(order[..n]);
      OffsetPrefix(order, n, n);
      RoomEventsAt(order[n]);
    }
  }

  lemma {:induction false} EventsSplit(order: seq<seq<Span>>, i: nat) returns (rest: seq<Event>)
    requires i < |order|
    ensures Events(order) == Events(order[..i]) + RoomEvents(order[i]) + rest
  {
    if i == |order| - 1 {
      rest := [];
    } else {
      var n := |order| - 1;
      var front := EventsSplit(order[..n], i);
      assert order[..n][..i] == order[..i];
      rest := front + RoomEvents(order[n]);
      Associative(Events(order[..i]) + RoomEvents(order[i]), front, RoomEvents(order[n]));
    }
  }

  lemma PrefixOfMiddle<T>(a: seq<T>, b: seq<T>, c: seq<T>, j: nat)
    requires j <= |b|
    ensures (a + b + c)[..|a| + j] == a + b[..j]
  {
  }

  /** The events before span j of room i: all earlier rooms, the start of room i, and its first j spans. */
  lemma EventsBefore(order: seq<seq<Span>>, i: nat, j: nat)
    requires i < |order| && j <= |order[i]|
    ensures At(order, i, j) <= |Events(order)|
    ensures Events(order)[..At(order, i, j)] == Events(order[..i]) + RoomEvents(order[i][..j])
  {
    var rest := EventsSplit(order, i);
    EventsCount(order[..i]);
    OffsetPrefix(order, i, i);
    RoomEventsPrefix(order[i], j);
    PrefixOfMiddle(Events(order[..i]), RoomEvents(order[i]), rest, j + 1);
  }

  /** The spans arrive room by room in the order given, each room after the sign that it starts. */
  lemma ArrivalAt(order: seq<seq<Span>>, i: nat, j: nat)
    requires i < |order| && j < |order[i]|
    ensures At(order, i, j) < |Events(order)|
    ensures Events(order)[At(order, i, j)] == Arrive(order[i][j].pid, Interval(order[i][j].start, order[i][j].end))
    ensures Events(order)[Offset(order, i) + i] == Enter
    ensures |Events(order)| == Offset(order, |order|) + |order|
  {
    EventsCount(order);
    EventsCount(order[..i]);
    OffsetPrefix(order, i, i);
    EventsBefore(order, i, j + 1);
    var head, room := Events(order[..i]), order[i][..j + 1];
    RoomEventsAt(room);
    assert (head + RoomEvents(room))[|head|] == RoomEvents(room)[0];
    assert (head + RoomEvents(room))[|head| + j + 1] == RoomEvents(room)[j + 1];
  }

  lemma {:induction false} TidsPrefix(events: seq<Event>, k: nat)
    requires k < |events| && events[k].Arrive?
    ensures |Tids(events[..k])| < |Tids(events)| && Tids(events)[|Tids(events[..k])|] == Lines(events)[k]
  {
    if k < |events| - 1 {
      TidsPrefix(events[..|events| - 1], k);
      assert events[..|events| - 1][..k] == events[..k];
    }
  }

  lemma {:induction false} LinesGivenCount(l: Layout, room: seq<Span>)
    requires l.Valid()
    ensures |LinesGiven(l, room)| == |room|
  {
    if |room| > 0 {
      LinesGivenCount(l, room[..|room| - 1]);
    }
  }

  lemma {:induction false} TidsCount(order: seq<seq<Span>>)
    ensures |Tids(Events(order))| == Offset(order, |order|)
  {
    if |order| > 0 {
      var n := |order| - 1;
      TidsCount(order[..n]);
      OffsetPrefix(order, n, n);
      RoomTids(Events(order[..n]), order[n]);
      LinesGivenCount(Run(Events(order[..n])).Step(Enter), order[n]);
    }
  }

  lemma TidsBefore(order: seq<seq<Span>>, i: nat, j: nat)
    requires i < |order| && j <= |order[i]|
    ensures |Tids(Events(order[..i]) + RoomEvents(order[i][..j]))| == Offset(order, i) + j
  {
    var l := Run(Events(order[..i])).Step(Enter);
    TidsCount(order[..i]);
    OffsetPrefix(order, i, i);
    RoomTids(Events(order[..i]), order[i][..j]);
    LinesGivenCount(l, order[i][..j]);
  }

  /** The tid reported for span j of room i is the line it was given on arrival. */
  lemma TidAt(order: seq<seq<Span>>, i: nat, j: nat)
    requires i < |order| && j < |order[i]|
    ensures At(order, i, j) < |Events(order)| && Offset(order, i) + j < |Tids(Events(order))|
    ensures Tids(Events(order))[Offset(order, i) + j] == Lines(Events(order))[At(order, i, j)]
    ensures |Tids(Events(order))| == Offset(order, |order|)
  {
    TidsCount(order);
    ArrivalAt(order, i, j);
    EventsBefore(order, i, j);
    TidsBefore(order, i, j);
    TidsPrefix(Events(order), At(order, i, j));
  }

  /** In the final layout the line reported for a span holds that span. */
  lemma TidHolds(order: seq<seq<Span>>, i: nat, j: nat)
    requires i < |order| && j < |order[i]|
    ensures var s, events := order[i][j], Events(order);
            && Offset(order, i) + j < |Tids(events)|
            && Interval(s.start, s.end) in Lane(Run(events).Of(s.pid), Tids(events)[Offset(order, i) + j])
  {
    var s, events := order[i][j], Events(order);
    TidAt(order, i, j);
    ArrivalAt(order, i, j);
    var line := Lines(events)[At(order, i, j)];
    assert On(events, Lines(events), s.pid, line, At(order, i, j));
    LaneHolds(events, s.pid, line, Interval(s.start, s.end));
  }

  /** The same spans in another order. */
  ghost predicate SameRoom(a: seq<Span>, b: seq<Span>) {
    multiset(a) == multiset(b)
  }

  ghost predicate SameRooms(a: seq<seq<Span>>, b: seq<seq<Span>>) {
    && |a| == |b|
    && (forall i :: 0 <= i < |a| ==> exists r :: 0 <= r < |b| && SameRoom(a[i], b[r]))
    && (forall r :: 0 <= r < |b| ==> exists i :: 0 <= i < |a| && SameRoom(a[i], b[r]))
  }

  lemma ShuffledRooms(order: seq<seq<Span>>, s: seq<seq<Span>>, rooms: seq<seq<Span>>)
    requires multiset(order) == multiset(s) && |s| == |rooms|
    requires forall r :: 0 <= r < |rooms| ==> SameRoom(s[r], rooms[r])
    ensures SameRooms(order, rooms)
  {
    assert |order| == |multiset(order)| && |s| == |multiset(s)|;
    forall i | 0 <= i < |order|
      ensures exists r :: 0 <= r < |rooms| && SameRoom(order[i], rooms[r])
    {
      assert order[i] in multiset(s);
      var r :| 0 <= r < |s| && order[i] == s[r];
      assert SameRoom(order[i], rooms[r]);
    }
    forall r | 0 <= r < |rooms|
      ensures exists i :: 0 <= i < |order| && SameRoom(order[i], rooms[r])
    {
      assert s[r] in multiset(order);
      var i :| 0 <= i < |order| && order[i] == s[r];
      assert SameRoom(order[i], rooms[r]);
    }
  }

  ghost predicate ByStart(room: seq<Span>) {
    forall a, b :: 0 <= a < b < |room| ==> room[a].start <= room[b].start
  }

  lemma InStartOrder(room: seq<Span>)
    requires OrderedBy(room, StartKey)
    ensures ByStart(room)
  {
    forall a, b | 0 <= a < b < |room|
      ensures room[a].start <= room[b].start
    {
      assert StartKey(room[a]) <= StartKey(room[b]);
    }
  }

  ghost predicate ByFirstStart(order: seq<seq<Span>>) {
    forall i, j :: 0 <= i < j < |order| && |order[i]| > 0 && |order[j]| > 0 ==> order[i][0].start <= order[j][0].start
  }

  lemma InFirstStartOrder(order: seq<seq<Span>>)
    requires OrderedBy(order, RoomKey)
    ensures ByFirstStart(order)
  {
    forall i, j | 0 <= i < j < |order| && |order[i]| > 0 && |order[j]| > 0
      ensures order[i][0].start <= order[j][0].start
    {
      assert RoomKey(order[i]) <= RoomKey(order[j]);
    }
  }

  lemma SameElements(order: seq<seq<Span>>, s: seq<seq<Span>>, i: nat)
    requires multiset(order) == multiset(s) && i < |order|
    ensures order[i] in s
  {
    assert order[i] in multiset(s);
  }

  lemma SortedByStart(room: seq<Span>)
    ensures SameRoom(Sorted(room, StartKey), room) && ByStart(Sorted(room, StartKey))
  {
    SortedCorrect(room, StartKey);
    InStartOrder(Sorted(room, StartKey));
  }

  /** The rooms in an order in which they can be laid out, each a reordering of a given one. */
  ghost predicate Arranged(order: seq<seq<Span>>, rooms: seq<seq<Span>>) {
    SameRooms(order, rooms) && ByFirstStart(order) && forall i :: 0 <= i < |order| ==> ByStart(order[i])
  }

  lemma Arrange(order: seq<seq<Span>>, s: seq<seq<Span>>, rooms: seq<seq<Span>>)
    requires multiset(order) == multiset(s) && OrderedBy(order, RoomKey) && |s| == |rooms|
    requires forall r :: 0 <= r < |rooms| ==> SameRoom(s[r], rooms[r]) && ByStart(s[r])
    ensures Arranged(order, rooms)
  {
    ShuffledRooms(order, s, rooms);
    InFirstStartOrder(order);
    forall i | 0 <= i < |order|
      ensures ByStart(order[i])
    {
      SameElements(order, s, i);
    }
  }

  lemma RoomsByStart(rooms: seq<seq<Span>>)
    ensures |SortRooms(rooms)| == |rooms|
    ensures forall r :: 0 <= r < |rooms| ==> SameRoom(SortRooms(rooms)[r], rooms[r]) && ByStart(SortRooms(rooms)[r])
  {
    SortRoomsAt(rooms);
    forall r | 0 <= r < |rooms|
      ensures SameRoom(SortRooms(rooms)[r], rooms[r]) && ByStart(SortRooms(rooms)[r])
    {
      SortedByStart(rooms[r]);
    }
  }

  /** The processing order: the spans of a room by increasing start, the rooms by increasing first start. */
  lemma ProcessingOrder(rooms: seq<seq<Span>>)
    ensures Arranged(Ordered(rooms), rooms)
  {
    RoomsByStart(rooms);
    SortedCorrect(SortRooms(rooms), RoomKey);
    Arrange(Ordered(rooms), SortRooms(rooms), rooms);
  }

  // ---------------------------------------------------------------- a pid of one room: optimal lanes

  predicate Running(s: Span, pid: int, t: int) {
    s.pid == pid && s.start <= t < s.end
  }

  /** How many spans of pid in a room run at instant t. */
  function Load(room: seq<Span>, pid: int, t: int): nat {
    if |room| == 0 then 0 else Load(room[..|room| - 1], pid, t) + if Running(room[|room| - 1], pid, t) then 1 else 0
  }

  /** The same over all rooms. */
  function TotalLoad(rooms: seq<seq<Span>>, pid: int, t: int): nat {
    if |rooms| == 0 then 0 else TotalLoad(rooms[..|rooms| - 1], pid, t) + Load(rooms[|rooms| - 1], pid, t)
  }

  predicate Hosts(room: seq<Span>, pid: int) {
    exists i :: 0 <= i < |room| && room[i].pid == pid
  }

  /** How many of the rooms have spans of pid. */
  function RoomsOf(rooms: seq<seq<Span>>, pid: int): nat {
    if |rooms| == 0 then 0 else RoomsOf(rooms[..|rooms| - 1], pid) + if Hosts(rooms[|rooms| - 1], pid) then 1 else 0
  }

  ghost function RunningAt(room: seq<Span>, pid: int, t: int): set<nat> {
    Where(room, (s: Span) => s.pid == pid && s.start <= t < s.end)
  }

  lemma {:induction false} LoadCounts(room: seq<Span>, pid: int, t: int)
    ensures Load(room, pid, t) == |RunningAt(room, pid, t)|
  {
    if |room| > 0 {
      LoadCounts(room[..|room| - 1], pid, t);
      WhereLast(room, (s: Span) => s.pid == pid && s.start <= t < s.end);
    }
  }

  /** The load is the number of spans of pid running at t, summed over the rooms. */
  lemma {:induction false} TotalLoadCounts(rooms: seq<seq<Span>>, pid: int, t: int)
    ensures TotalLoad(rooms, pid, t) ==
              Total(seq(|rooms|, i requires 0 <= i < |rooms| => |RunningAt(rooms[i], pid, t)|))
  {
    if |rooms| > 0 {
      var n := |rooms| - 1;
      TotalLoadCounts(rooms[..n], pid, t);
      LoadCounts(rooms[n], pid, t);
      var loads := seq(|rooms|, i requires 0 <= i < |rooms| => |RunningAt(rooms[i], pid, t)|);
      assert loads[..n] == seq(n, i requires 0 <= i < n => |RunningAt(rooms[..n][i], pid, t)|);
    }
  }

  lemma {:induction false} RoomsOfCounts(rooms: seq<seq<Span>>, pid: int)
    ensures RoomsOf(rooms, pid) ==
              |Where(rooms, (room: seq<Span>) => exists i :: 0 <= i < |room| && room[i].pid == pid)|
  {
    if |rooms| > 0 {
      RoomsOfCounts(rooms[..|rooms| - 1], pid);
      WhereLast(rooms, (room: seq<Span>) => exists i :: 0 <= i < |room| && room[i].pid == pid);
    }
  }

  /** The spans of a pid in a room have positive length. */
  ghost predicate PositiveIn(room: seq<Span>, pid: int) {
    forall i :: 0 <= i < |room| && room[i].pid == pid ==> room[i].start < room[i].end
  }

  ghost predicate PositiveRooms(rooms: seq<seq<Span>>, pid: int) {
    forall i :: 0 <= i < |rooms| ==> PositiveIn(rooms[i], pid)
  }

  // Sorting spans and rooms changes neither the loads nor which rooms have spans of a pid.

  lemma {:induction false} LoadConcat(a: seq<Span>, b: seq<Span>, pid: int, t: int)
    ensures Load(a + b, pid, t) == Load(a, pid, t) + Load(b, pid, t)
  {
    if |b| == 0 {
      assert a + b == a;
    } else {
      LoadConcat(a, b[..|b| - 1], pid, t);
      assert (a + b)[..|a + b| - 1] == a + b[..|b| - 1];
    }
  }

  lemma {:induction false} LoadPermuted(a: seq<Span>, b: seq<Span>, pid: int, t: int)
    requires multiset(a) == multiset(b)
    ensures Load(a, pid, t) == Load(b, pid, t)
  {
    if |a| == 0 {
      assert |multiset(b)| == 0;
    } else {
      var x := a[|a| - 1];
      var p, q := RemoveMatching(a, b);
      LoadPermuted(a[..|a| - 1], p + q, pid, t);
      LoadConcat(p, q, pid, t);
      LoadConcat(p + [x], q, pid, t);
      LoadConcat(p, [x], pid, t);
      LoadConcat(a[..|a| - 1], [x], pid, t);
      assert a == a[..|a| - 1] + [x];
    }
  }

  lemma {:induction false} RoomsConcat(a: seq<seq<Span>>, b: seq<seq<Span>>, pid: int, t: int)
    ensures TotalLoad(a + b, pid, t) == TotalLoad(a, pid, t) + TotalLoad(b, pid, t)
    ensures RoomsOf(a + b, pid) == RoomsOf(a, pid) + RoomsOf(b, pid)
  {
    if |b| == 0 {
      assert a + b == a;
    } else {
      RoomsConcat(a, b[..|b| - 1], pid, t);
      assert (a + b)[..|a + b| - 1] == a + b[..|b| - 1];
    }
  }

  lemma RoomsInsert(p: seq<seq<Span>>, x: seq<Span>, q: seq<seq<Span>>, pid: int, t: int)
    ensures TotalLoad(p + [x] + q, pid, t) == TotalLoad(p + q + [x], pid, t)
    ensures RoomsOf(p + [x] + q, pid) == RoomsOf(p + q + [x], pid)
  {
    RoomsConcat(p + [x], q, pid, t);
    RoomsConcat(p, [x], pid, t);
    RoomsConcat(p + q, [x], pid, t);
    RoomsConcat(p, q, pid, t);
  }

  lemma {:induction false} RoomsPermuted(a: seq<seq<Span>>, b: seq<seq<Span>>, pid: int, t: int)
    requires multiset(a) == multiset(b)
    ensures TotalLoad(a, pid, t) == TotalLoad(b, pid, t) && RoomsOf(a, pid) == RoomsOf(b, pid)
  {
    if |a| == 0 {
      assert |multiset(b)| == 0;
    } else {
      var front, x := a[..|a| - 1], a[|a| - 1];
      var p, q := RemoveMatching(a, b);
      RoomsPermuted(front, p + q, pid, t);
      RoomsInsert(p, x, q, pid, t);
      RoomsConcat(front, [x], pid, t);
      RoomsConcat(p + q, [x], pid, t);
      assert a == front + [x];
    }
  }

  lemma SortedRoom(room: seq<Span>, pid: int, t: int)
    ensures var r := Sorted(room, StartKey);
            && Load(r, pid, t) == Load(room, pid, t) && (Hosts(r, pid) <==> Hosts(room, pid))
            && OrderedBy(r, StartKey) && (PositiveIn(room, pid) ==> PositiveIn(r, pid))
  {
    var r := Sorted(room, StartKey);
    SortedCorrect(room, StartKey);
    LoadPermuted(r, room, pid, t);
    SameSpans(room, r, pid);
    SameSpans(r, room, pid);
  }

  lemma SameSpans(a: seq<Span>, b: seq<Span>, pid: int)
    requires multiset(a) == multiset(b)
    ensures Hosts(a, pid) ==> Hosts(b, pid)
    ensures PositiveIn(a, pid) ==> PositiveIn(b, pid)
  {
    if i :| 0 <= i < |a| && a[i].pid == pid {
      assert a[i] in multiset(b);
      var j :| 0 <= j < |b| && b[j] == a[i];
    }
    forall j | 0 <= j < |b|
      ensures b[j] in a
    {
      assert b[j] in multiset(a);
    }
  }

  lemma {:induction false} SortRoomsAt(rooms: seq<seq<Span>>)
    ensures |SortRooms(rooms)| == |rooms|
    ensures forall i :: 0 <= i < |rooms| ==> SortRooms(rooms)[i] == Sorted(rooms[i], StartKey)
  {
    if |rooms| > 0 {
      SortRoomsAt(rooms[..|rooms| - 1]);
    }
  }

  lemma {:induction false} SortedLoads(rooms: seq<seq<Span>>, pid: int, t: int)
    ensures TotalLoad(SortRooms(rooms), pid, t) == TotalLoad(rooms, pid, t)
    ensures RoomsOf(SortRooms(rooms), pid) == RoomsOf(rooms, pid)
  {
    if |rooms| > 0 {
      var n := |rooms| - 1;
      SortedLoads(rooms[..n], pid, t);
      SortedRoom(rooms[n], pid, t);
    }
  }

  lemma SortedRooms(rooms: seq<seq<Span>>, pid: int)
    ensures var r := SortRooms(rooms);
            && (forall i :: 0 <= i < |r| ==> OrderedBy(r[i], StartKey))
            && (PositiveRooms(rooms, pid) ==> PositiveRooms(r, pid))
  {
    SortRoomsAt(rooms);
    forall i | 0 <= i < |rooms|
      ensures OrderedBy(SortRooms(rooms)[i], StartKey)
      ensures PositiveIn(rooms[i], pid) ==> PositiveIn(SortRooms(rooms)[i], pid)
    {
      SortedRoom(rooms[i], pid, 0);
    }
  }

  lemma OrderedRooms(rooms: seq<seq<Span>>, pid: int, t: int)
    ensures var r := Ordered(rooms);
            && TotalLoad(r, pid, t) == TotalLoad(rooms, pid, t) && RoomsOf(r, pid) == RoomsOf(rooms, pid)
            && (forall i :: 0 <= i < |r| ==> OrderedBy(r[i], StartKey))
            && (PositiveRooms(rooms, pid) ==> PositiveRooms(r, pid))
  {
    var s, r := SortRooms(rooms), Ordered(rooms);
    SortedRooms(rooms, pid);
    SortedLoads(rooms, pid, t);
    SortedCorrect(s, RoomKey);
    RoomsPermuted(r, s, pid, t);
    forall i | 0 <= i < |r|
      ensures r[i] in s
    {
      assert r[i] in multiset(s);
    }
  }

  // What the events of the rooms say about one pid.

  lemma SpansOfSnoc(a: seq<Event>, e: Event, pid: int)
    ensures SpansOf(a + [e], pid) == SpansOf(a, pid) + if e.Arrive? && e.pid == pid then [e.span] else []
  {
    assert (a + [e])[..|a|] == a;
  }

  lemma {:induction false} SpansOfConcat(a: seq<Event>, b: seq<Event>, pid: int)
    ensures SpansOf(a + b, pid) == SpansOf(a, pid) + SpansOf(b, pid)
  {
    if |b| == 0 {
      assert a + b == a;
    } else {
      var front, e := b[..|b| - 1], b[|b| - 1];
      SpansOfConcat(a, front, pid);
      SplitLast(a, b);
      SpansOfSnoc(a + front, e, pid);
      Associative(SpansOf(a, pid), SpansOf(front, pid), if e.Arrive? && e.pid == pid then [e.span] else []);
    }
  }

  /** The spans of a pid in a room, in order. */
  function Mine(room: seq<Span>, pid: int): seq<Interval> {
    if |room| == 0 then []
    else
      var s := room[|room| - 1];
      Mine(room[..|room| - 1], pid) + if s.pid == pid then [Interval(s.start, s.end)] else []
  }

  lemma {:induction false} RoomSpans(room: seq<Span>, pid: int)
    ensures SpansOf(RoomEvents(room), pid) == Mine(room, pid)
  {
    if |room| == 0 {
      assert SpansOf([Enter][..0], pid) == [];
    } else {
      var front, s := room[..|room| - 1], room[|room| - 1];
      RoomSpans(front, pid);
      assert RoomEvents(room)[..|RoomEvents(room)| - 1] == RoomEvents(front);
    }
  }

  lemma {:induction false} MineDepth(room: seq<Span>, pid: int, t: int)
    ensures Depth(Mine(room, pid), t) == Load(room, pid, t)
  {
    if |room| > 0 {
      var front, s := room[..|room| - 1], room[|room| - 1];
      MineDepth(front, pid, t);
      DepthConcat(Mine(front, pid), if s.pid == pid then [Interval(s.start, s.end)] else [], t);
      assert Depth([], t) == 0;
    }
  }

  lemma {:induction false} MineAscending(room: seq<Span>, pid: int)
    requires OrderedBy(room, StartKey)
    ensures Ascending(Mine(room, pid))
    ensures forall i :: 0 <= i < |Mine(room, pid)| ==> Mine(room, pid)[i].start <= room[|room| - 1].start
  {
    if |room| > 1 {
      MineAscending(room[..|room| - 1], pid);
      assert StartKey(room[|room| - 2]) <= StartKey(room[|room| - 1]);
    } else if |room| == 1 {
      assert Mine(room[..0], pid) == [];
    }
  }

  lemma {:induction false} NotHosted(room: seq<Span>, pid: int)
    requires !Hosts(room, pid)
    ensures Mine(room, pid) == []
  {
    if |room| > 0 {
      assert !Hosts(room[..|room| - 1], pid) by {
        assert forall i :: 0 <= i < |room| - 1 ==> room[..|room| - 1][i] == room[i];
      }
      NotHosted(room[..|room| - 1], pid);
    }
  }

  lemma LastRoom(rooms: seq<seq<Span>>, pid: int)
    requires |rooms| > 0
    ensures var n := |rooms| - 1;
            SpansOf(Events(rooms), pid) == SpansOf(Events(rooms[..n]), pid) + Mine(rooms[n], pid)
  {
    var n := |rooms| - 1;
    SpansOfConcat(Events(rooms[..n]), RoomEvents(rooms[n]), pid);
    RoomSpans(rooms[n], pid);
  }

  lemma {:induction false} NoRoomHosts(rooms: seq<seq<Span>>, pid: int)
    requires RoomsOf(rooms, pid) == 0
    ensures SpansOf(Events(rooms), pid) == []
  {
    if |rooms| > 0 {
      LastRoom(rooms, pid);
      NoRoomHosts(rooms[..|rooms| - 1], pid);
      NotHosted(rooms[|rooms| - 1], pid);
    }
  }

  /** A pid of at most one room arrives in start order. */
  lemma {:induction false} OneRoomInOrder(rooms: seq<seq<Span>>, pid: int)
    requires RoomsOf(rooms, pid) <= 1 && forall i :: 0 <= i < |rooms| ==> OrderedBy(rooms[i], StartKey)
    ensures StartOrder(Events(rooms), pid)
  {
    if |rooms| > 0 {
      var n := |rooms| - 1;
      LastRoom(rooms, pid);
      if Hosts(rooms[n], pid) {
        NoRoomHosts(rooms[..n], pid);
        MineAscending(rooms[n], pid);
      } else {
        OneRoomInOrder(rooms[..n], pid);
        NotHosted(rooms[n], pid);
      }
    }
  }

  lemma {:induction false} EventsDepth(rooms: seq<seq<Span>>, pid: int, t: int)
    ensures Depth(SpansOf(Events(rooms), pid), t) == TotalLoad(rooms, pid, t)
  {
    if |rooms| > 0 {
      var n := |rooms| - 1;
      EventsDepth(rooms[..n], pid, t);
      LastRoom(rooms, pid);
      DepthConcat(SpansOf(Events(rooms[..n]), pid), Mine(rooms[n], pid), t);
      MineDepth(rooms[n], pid, t);
    }
  }

  lemma {:induction false} RoomPositive(room: seq<Span>, pid: int)
    requires PositiveIn(room, pid)
    ensures PositiveFor(RoomEvents(room), pid)
  {
    if |room| > 0 {
      RoomPositive(room[..|room| - 1], pid);
    }
  }

  lemma {:induction false} EventsPositive(rooms: seq<seq<Span>>, pid: int)
    requires PositiveRooms(rooms, pid)
    ensures PositiveFor(Events(rooms), pid)
  {
    if |rooms| > 0 {
      EventsPositive(rooms[..|rooms| - 1], pid);
      RoomPositive(rooms[|rooms| - 1], pid);
    }
  }

  /** The spans of one pid reach the allocator in start order when at most one room has any, whatever the other
      rooms hold. */
  lemma SingleRoomStartOrder(rooms: seq<seq<Span>>, pid: int)
    requires RoomsOf(rooms, pid) <= 1
    ensures StartOrder(Events(Ordered(rooms)), pid)
  {
    OrderedRooms(rooms, pid, 0);
    OneRoomInOrder(Ordered(rooms), pid);
  }

  /** A pid whose positive-length spans come from a single room gets as many lanes as its spans ever overlap,
      whatever the other rooms and pids hold. */
  lemma SingleRoomOptimal(rooms: seq<seq<Span>>, pid: int)
    requires RoomsOf(rooms, pid) <= 1 && PositiveRooms(rooms, pid)
    ensures var n := |Run(Events(Ordered(rooms))).Of(pid)|;
            && (forall t :: TotalLoad(rooms, pid, t) <= n)
            && (n > 0 ==> exists t :: TotalLoad(rooms, pid, t) == n)
  {
    var events := Events(Ordered(rooms));
    SingleRoomStartOrder(rooms, pid);
    OrderedRooms(rooms, pid, 0);
    EventsPositive(Ordered(rooms), pid);
    LaneCountOptimal(events, pid);
    forall t
      ensures TotalLoad(rooms, pid, t) == Depth(SpansOf(events, pid), t)
    {
      OrderedRooms(rooms, pid, t);
      EventsDepth(Ordered(rooms), pid, t);
    }
    var n := |Run(events).Of(pid)|;
    if n > 0 {
      var t :| Depth(SpansOf(events, pid), t) == n;
      assert TotalLoad(rooms, pid, t) == n;
    }
  }
}
