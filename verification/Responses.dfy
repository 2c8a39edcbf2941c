/** The responses file as both evaluators read it (sample_eval.py, budget_eval.py): grouping by index, and the
    increasing order of the indices. The judges and the tokenizer are arbitrary functions. */
module Responses {
  import opened Basics

  /** One line of the responses file; questionType says whether that field is present. */
  datatype Row = Row(idx: Option<int>, failed: bool, text: Option<string>, choiceIdx: Option<int>, answer: string,
                     questionType: bool)

  /** The rule-based judge of a text against the gold answer, and the one for rows with a question type. */
  datatype Judges = Judges(rule: (string, string) -> bool, vista: (string, Row) -> bool)

  type Tokenizer = string -> nat

  /** A row that both evaluators use. */
  predicate IsOk(r: Row) {
    !r.failed && r.text.Some?
  }

  function TokensOf(r: Row, count: Tokenizer): nat {
    if r.text.Some? then count(r.text.value) else 0
  }

  function ChoiceKey(r: Row): int {
    if r.choiceIdx.Some? then r.choiceIdx.value else 0
  }

  // ---------------------------------------------------------------- grouping

  function OkRows(rows: seq<Row>): seq<Row> {
    if |rows| == 0 then []
    else OkRows(rows[..|rows| - 1]) + if IsOk(rows[|rows| - 1]) then [rows[|rows| - 1]] else []
  }

  function RowsFor(rows: seq<Row>, idx: int): seq<Row> {
    if |rows| == 0 then []
    else RowsFor(rows[..|rows| - 1], idx) + if rows[|rows| - 1].idx == Some(idx) then [rows[|rows| - 1]] else []
  }

  lemma {:induction false} RowsForKeeps(rows: seq<Row>, idx: int)
    ensures RowsFor(rows, idx) == Filter(rows, (r: Row) => r.idx == Some(idx))
  {
    if |rows| > 0 {
      RowsForKeeps(rows[..|rows| - 1], idx);
    }
  }

  /** The counted rows of an index: those of the file that have it, did not fail, and have a text. */
  lemma {:induction false} CountedKept(rows: seq<Row>, idx: int)
    ensures RowsFor(OkRows(rows), idx) ==
              Filter(rows, (r: Row) => r.idx == Some(idx) && !r.failed && r.text != None)
  {
    if |rows| > 0 {
      var front, r := rows[..|rows| - 1], rows[|rows| - 1];
      CountedKept(front, idx);
      RowsForSnoc(OkRows(front), r);
      assert OkRows(front) + [] == OkRows(front);
    }
  }

  type Groups = map<int, seq<Row>>

  ghost predicate GroupedAs(groups: Groups, rows: seq<Row>) {
    forall idx :: (idx in groups <==> RowsFor(rows, idx) != []) && (idx in groups ==> groups[idx] == RowsFor(rows, idx))
  }

  lemma RowsForSnoc(rows: seq<Row>, r: Row)
    ensures forall idx :: RowsFor(rows + [r], idx) == RowsFor(rows, idx) + if r.idx == Some(idx) then [r] else []
    ensures OkRows(rows + [r]) == OkRows(rows) + if IsOk(r) then [r] else []
  {
    assert (rows + [r])[..|rows|] == rows;
  }

  function Appended(groups: Groups, idx: int, r: Row): Groups {
    groups[idx := (if idx in groups then groups[idx] else []) + [r]]
  }

  lemma GroupedSnoc(groups: Groups, rows: seq<Row>, r: Row)
    requires GroupedAs(groups, rows)
    ensures r.idx.Some? ==> GroupedAs(Appended(groups, r.idx.value, r), rows + [r])
    ensures r.idx.None? ==> GroupedAs(groups, rows + [r])
  {
    RowsForSnoc(rows, r);
  }

  /** The unbudgeted evaluator groups all rows of an index. */
  method GroupAll(rows: seq<Row>) returns (groups: Groups)
    ensures GroupedAs(groups, rows)
  {
    groups := map[];
    for i := 0 to |rows|
      invariant GroupedAs(groups, rows[..i])
    {
      GroupedSnoc(groups, rows[..i], rows[i]);
      assert rows[..i + 1] == rows[..i] + [rows[i]];
      if rows[i].idx.Some? {
        groups := Appended(groups, rows[i].idx.value, rows[i]);
      }
    }
    assert rows[..|rows|] == rows;
  }

  lemma OkRowsAt(rows: seq<Row>, i: nat)
    requires i < |rows|
    ensures OkRows(rows[..i + 1]) == if IsOk(rows[i]) then OkRows(rows[..i]) + [rows[i]] else OkRows(rows[..i])
  {
    RowsForSnoc(rows[..i], rows[i]);
    assert rows[..i + 1] == rows[..i] + [rows[i]];
    assert OkRows(rows[..i]) + [] == OkRows(rows[..i]);
  }

  /** load_and_count_tokens groups the usable rows only. */
  method LoadAndCountTokens(rows: seq<Row>) returns (groups: Groups)
    ensures GroupedAs(groups, OkRows(rows))
  {
    groups := map[];
    for i := 0 to |rows|
      invariant GroupedAs(groups, OkRows(rows[..i]))
    {
      OkRowsAt(rows, i);
      if IsOk(rows[i]) {
        GroupedSnoc(groups, OkRows(rows[..i]), rows[i]);
      }
      if rows[i].idx.Some? && IsOk(rows[i]) {
        groups := Appended(groups, rows[i].idx.value, rows[i]);
      }
    }
    assert rows[..|rows|] == rows;
  }

  /** Filtering and grouping commute. */
  lemma {:induction false} FilterThenGroup(rows: seq<Row>, idx: int)
    ensures RowsFor(OkRows(rows), idx) == OkRows(RowsFor(rows, idx))
  {
    if |rows| > 0 {
      var front, r := rows[..|rows| - 1], rows[|rows| - 1];
      FilterThenGroup(front, idx);
      RowsForSnoc(OkRows(front), r);
      RowsForSnoc(RowsFor(front, idx), r);
      assert OkRows(front) + [] == OkRows(front) && RowsFor(front, idx) + [] == RowsFor(front, idx);
    }
  }

  // ---------------------------------------------------------------- the order of the questions

  ghost predicate Increasing(s: seq<int>) {
    forall i, j :: 0 <= i < j < |s| ==> s[i] < s[j]
  }

  /** s lists the members of a set in increasing order. */
  ghost predicate Enumerates(s: seq<int>, members: set<int>) {
    Increasing(s) && forall x :: x in s <==> x in members
  }

  lemma {:induction false} EnumerationSize(a: seq<int>, members: set<int>)
    requires Enumerates(a, members)
    ensures |a| == |members|
  {
    if |a| > 0 {
      assert a[|a| - 1] in a;
      LastOff(a, members);
      EnumerationSize(a[..|a| - 1], members - {a[|a| - 1]});
    } else {
      assert forall x :: x in members ==> x in a;
      assert members == {};
    }
  }

  /** There is only one such list. */
  lemma {:induction false} OneEnumeration(a: seq<int>, b: seq<int>, members: set<int>)
    requires Enumerates(a, members) && Enumerates(b, members)
    ensures a == b
    decreases |a|
  {
    EnumerationSize(a, members);
    EnumerationSize(b, members);
    if |a| > 0 {
      assert a[|a| - 1] in a;
      var x, y := a[|a| - 1], b[|b| - 1];
      assert x == y by {
        assert x in b && y in a;
      }
      LastOff(a, members);
      LastOff(b, members);
      OneEnumeration(a[..|a| - 1], b[..|b| - 1], members - {x});
    }
  }

  lemma LastOff(a: seq<int>, members: set<int>)
    requires |a| > 0 && Enumerates(a, members)
    ensures Enumerates(a[..|a| - 1], members - {a[|a| - 1]})
  {
  }

  lemma EnumerateSnoc(s: seq<int>, members: set<int>, x: int)
    requires Enumerates(s, members) && forall y :: y in members ==> y < x
    ensures Enumerates(s + [x], members + {x})
  {
    forall i | 0 <= i < |s|
      ensures s[i] < x
    {
      assert s[i] in s;
    }
  }

  /** sorted() of a set of integers. */
  method SortSet(members: set<int>) returns (s: seq<int>)
    ensures Enumerates(s, members)
  {
    s := [];
    var rest := members;
    while |rest| > 0
      invariant rest <= members && Enumerates(s, members - rest)
      invariant forall x, y :: x in members - rest && y in rest ==> x < y
      decreases |rest|
    {
      var least := Least(rest);
      EnumerateSnoc(s, members - rest, least);
      assert members - (rest - {least}) == members - rest + {least};
      s := s + [least];
      rest := rest - {least};
    }
    assert members - rest == members;
  }

  lemma Inhabited(s: set<int>)
    requires |s| > 0
    ensures exists x :: x in s
  {
    if forall x :: x !in s {
      assert false;
    }
  }

  method Least(s: set<int>) returns (x: int)
    requires |s| > 0
    ensures x in s && forall y :: y in s ==> x <= y
  {
    Inhabited(s);
    x :| x in s;
    var rest := s - {x};
    while |rest| > 0
      invariant rest <= s && x in s && x !in rest && forall y :: y in s && y !in rest ==> x <= y
      decreases |rest|
    {
      Inhabited(rest);
      var y :| y in rest;
      rest := rest - {y};
      if y < x {
        x := y;
      }
    }
  }

  lemma HasLargest(members: set<int>)
    requires |members| > 0
    ensures exists x :: x in members && forall y :: y in members ==> y <= x
  {
    Inhabited(members);
    var x :| x in members;
    var rest := members - {x};
    assert forall y :: y in members ==> y == x || y in rest;
    if rest != {} {
      HasLargest(rest);
      var z :| z in rest && forall y :: y in rest ==> y <= z;
      var w := if x <= z then z else x;
      assert w in members && forall y :: y in members ==> y <= w;
    } else {
      assert forall y :: y in members ==> y <= x;
    }
  }

  /** The members in increasing order. */
  ghost function Order(members: set<int>): (s: seq<int>)
    ensures Enumerates(s, members)
    decreases |members|
  {
    if |members| == 0 then assert members == {}; []
    else
      HasLargest(members);
      var x :| x in members && forall y :: y in members ==> y <= x;
      EnumerateSnoc(Order(members - {x}), members - {x}, x);
      assert members - {x} + {x} == members;
      Order(members - {x}) + [x]
  }

  function Indices(rows: seq<Row>): set<int> {
    set r | r in rows && r.idx.Some? :: r.idx.value
  }

  lemma {:induction false} IndicesHaveRows(rows: seq<Row>, idx: int)
    ensures idx in Indices(rows) <==> RowsFor(rows, idx) != []
  {
    if |rows| > 0 {
      var front, r := rows[..|rows| - 1], rows[|rows| - 1];
      IndicesHaveRows(front, idx);
      IndicesSnoc(front, r);
      assert rows == front + [r];
    }
  }

  lemma IndicesSnoc(rows: seq<Row>, r: Row)
    ensures Indices(rows + [r]) == Indices(rows) + if r.idx.Some? then {r.idx.value} else {}
  {
    assert forall x :: x in rows + [r] <==> x in rows || x == r;
  }
}
