/** Regrouping a JSONL file by index (utils.py, group_shuffle_jsonl_by_index). Random shuffles are arbitrary
    permutations. A line is identified with the record it holds. */
module Regroup {
  import opened Basics
  import opened Records
  import opened Sorting

  function RowsFor(lines: seq<Line>, idx: string): seq<Line> {
    if |lines| == 0 then []
    else
      var last := lines[|lines| - 1];
      RowsFor(lines[..|lines| - 1], idx) + if last.Record? && last.idx == idx then [last] else []
  }

  /** The lines that carry no index, in their original order. */
  function Passthrough(lines: seq<Line>): seq<Line> {
    if |lines| == 0 then []
    else
      var last := lines[|lines| - 1];
      Passthrough(lines[..|lines| - 1]) + if last.Record? || last.Blank? then [] else [last]
  }

  function NonBlank(lines: seq<Line>): seq<Line> {
    if |lines| == 0 then []
    else
      var last := lines[|lines| - 1];
      NonBlank(lines[..|lines| - 1]) + if last.Blank? then [] else [last]
  }

  /** Which lines each of the three keeps, in their order. */
  lemma {:induction false} LinesKept(lines: seq<Line>, idx: string)
    ensures RowsFor(lines, idx) == Filter(lines, (l: Line) => l.Record? && l.idx == idx)
    ensures Passthrough(lines) == Filter(lines, (l: Line) => l.Malformed? || l.NotObject? || l.NoIndex?)
    ensures NonBlank(lines) == Filter(lines, (l: Line) => l != Blank)
  {
    if |lines| > 0 {
      LinesKept(lines[..|lines| - 1], idx);
    }
  }

  function Flatten(groups: seq<seq<Line>>): seq<Line> {
    if |groups| == 0 then [] else Flatten(groups[..|groups| - 1]) + groups[|groups| - 1]
  }

  /** output is the groups in some order of the keys, followed by the lines without an index. */
  ghost predicate Regrouped(input: seq<Line>, output: seq<Line>, keys: seq<string>, groups: seq<seq<Line>>) {
    && output == Flatten(groups) + Passthrough(input)
    && Distinct(keys) && ShuffledGroups(input, keys, groups)
    && (forall k :: k in keys <==> RowsFor(input, k) != [])
  }

  /** random.shuffle: Fisher-Yates with arbitrary draws. */
  method Shuffle<T>(s: seq<T>) returns (r: seq<T>)
    ensures multiset(r) == multiset(s) && |r| == |s|
  {
    r := s;
    var i := |s| - 1;
    while i > 0
      invariant |r| == |s| && multiset(r) == multiset(s)
    {
      var j :| 0 <= j <= i;
      r := r[i := r[j]][j := r[i]];
      i := i - 1;
    }
  }

  lemma Snoc(lines: seq<Line>, l: Line)
    ensures forall idx ::
              RowsFor(lines + [l], idx) == RowsFor(lines, idx) + if l.Record? && l.idx == idx then [l] else []
    ensures Passthrough(lines + [l]) == Passthrough(lines) + if l.Record? || l.Blank? then [] else [l]
    ensures NonBlank(lines + [l]) == NonBlank(lines) + if l.Blank? then [] else [l]
  {
    assert (lines + [l])[..|lines|] == lines;
  }

  /** The state of the reading loop: groups in first-seen order, and the lines set aside. */
  ghost predicate Grouped(read: seq<Line>, keys: seq<string>, groups: map<string, seq<Line>>, aside: seq<Line>) {
    && aside == Passthrough(read) && Distinct(keys)
    && (forall k :: k in keys <==> k in groups)
    && (forall k :: (k in groups <==> RowsFor(read, k) != []) && (k in groups ==> groups[k] == RowsFor(read, k)))
  }

  method ReadGroups(input: seq<Line>) returns (keys: seq<string>, groups: map<string, seq<Line>>, aside: seq<Line>)
    ensures Grouped(input, keys, groups, aside)
  {
    keys, groups, aside := [], map[], [];
    for i := 0 to |input|
      invariant Grouped(input[..i], keys, groups, aside)
    {
      var line := input[i];
      Snoc(input[..i], line);
      assert input[..i + 1] == input[..i] + [line];
      match line {
        case Blank =>
        case Record(idx, _) =>
          if idx !in groups {
            keys := keys + [idx];
            groups := groups[idx := [line]];
          } else {
            groups := groups[idx := groups[idx] + [line]];
          }
        case _ => aside := aside + [line];
      }
    }
    assert input[..|input|] == input;
  }

  /** Groups and lines are shuffled in any way; the file that is written is the old one up to order and blank lines,
      with equal indices together and the counts unchanged. */
  method GroupShuffle(input: seq<Line>)
    returns (output: seq<Line>, ghost order: seq<string>, ghost blocks: seq<seq<Line>>)
    ensures Regrouped(input, output, order, blocks)
    ensures multiset(output) == multiset(NonBlank(input)) && Contiguous(output)
    ensures forall idx :: RowCount(output, idx) == RowCount(input, idx)
  {
    output, order, blocks := WriteGroups(input);
    Permutation(input, output, order, blocks);
    EqualIndicesAdjacent(input, output, order, blocks);
    forall idx
      ensures RowCount(output, idx) == RowCount(input, idx)
    {
      CountsKept(input, output, order, blocks, idx);
    }
  }

  method WriteGroups(input: seq<Line>)
    returns (output: seq<Line>, ghost order: seq<string>, ghost blocks: seq<seq<Line>>)
    ensures Regrouped(input, output, order, blocks)
  {
    var keys, groups, aside := ReadGroups(input);
    var shuffled := Shuffle(keys);
    SameMembers(keys, shuffled);
    output, blocks := WriteBlocks(input, shuffled, groups);
    output := output + aside;
    order := shuffled;
  }

  /** The loop over the shuffled groups. */
  method WriteBlocks(ghost input: seq<Line>, order: seq<string>, groups: map<string, seq<Line>>)
    returns (output: seq<Line>, ghost blocks: seq<seq<Line>>)
    requires forall k :: k in order ==> k in groups && groups[k] == RowsFor(input, k)
    ensures output == Flatten(blocks) && ShuffledGroups(input, order, blocks)
  {
    output, blocks := [], [];
    for i := 0 to |order|
      invariant output == Flatten(blocks) && ShuffledGroups(input, order[..i], blocks)
    {
      assert order[i] in order;
      var block := Shuffle(groups[order[i]]);
      FlattenSnoc(blocks, block);
      ShuffledSnoc(input, order[..i], blocks, order[i], block);
      PrefixNext(order, i);
      blocks := blocks + [block];
      output := output + block;
    }
    assert order[..|order|] == order;
  }

  /** Block i is a permutation of the rows of key i. */
  ghost predicate ShuffledGroups(input: seq<Line>, keys: seq<string>, blocks: seq<seq<Line>>) {
    |blocks| == |keys| && forall i :: 0 <= i < |keys| ==> SameLines(blocks[i], RowsFor(input, keys[i]))
  }

  ghost predicate SameLines(a: seq<Line>, b: seq<Line>) {
    multiset(a) == multiset(b)
  }

  lemma ShuffledSnoc(input: seq<Line>, keys: seq<string>, blocks: seq<seq<Line>>, key: string, block: seq<Line>)
    requires ShuffledGroups(input, keys, blocks) && SameLines(block, RowsFor(input, key))
    ensures ShuffledGroups(input, keys + [key], blocks + [block])
  {
  }

  lemma FlattenSnoc(blocks: seq<seq<Line>>, block: seq<Line>)
    ensures Flatten(blocks + [block]) == Flatten(blocks) + block
  {
    assert (blocks + [block])[..|blocks|] == blocks;
  }

  lemma SameMembers<T>(a: seq<T>, b: seq<T>)
    requires multiset(a) == multiset(b) && Distinct(a)
    ensures Distinct(b) && forall x :: x in a <==> x in b
  {
    forall x
      ensures x in a <==> x in b
    {
      assert x in multiset(a) <==> x in multiset(b);
    }
    DistinctOnce(a);
    OnceDistinct(b);
  }

  lemma {:induction false} DistinctOnce<T>(a: seq<T>)
    requires Distinct(a)
    ensures forall x :: multiset(a)[x] <= 1
  {
    if |a| > 0 {
      DistinctOnce(a[..|a| - 1]);
      assert a == a[..|a| - 1] + [a[|a| - 1]];
      assert a[|a| - 1] !in a[..|a| - 1];
    }
  }

  lemma {:induction false} OnceDistinct<T>(b: seq<T>)
    requires forall x :: multiset(b)[x] <= 1
    ensures Distinct(b)
  {
    if |b| > 0 {
      var front, last := b[..|b| - 1], b[|b| - 1];
      assert b == front + [last];
      assert multiset(b)[last] == multiset(front)[last] + 1;
      assert last !in front;
      forall x
        ensures multiset(front)[x] <= 1
      {
        assert multiset(b)[x] >= multiset(front)[x];
      }
      OnceDistinct(front);
    }
  }

  // ---------------------------------------------------------------- what regrouping guarantees

  lemma {:induction false} FlattenCount(groups: seq<seq<Line>>, idx: string)
    ensures RowCount(Flatten(groups), idx) == CountIn(groups, idx)
  {
    if |groups| > 0 {
      FlattenCount(groups[..|groups| - 1], idx);
      RowCountConcat(Flatten(groups[..|groups| - 1]), groups[|groups| - 1], idx);
    }
  }

  function CountIn(groups: seq<seq<Line>>, idx: string): nat {
    if |groups| == 0 then 0 else CountIn(groups[..|groups| - 1], idx) + RowCount(groups[|groups| - 1], idx)
  }

  lemma {:induction false} RowCountMultiset(a: seq<Line>, b: seq<Line>, idx: string)
    requires multiset(a) == multiset(b)
    ensures RowCount(a, idx) == RowCount(b, idx)
  {
    if |a| == 0 {
      assert |multiset(b)| == 0;
    } else {
      var p, q := RemoveMatching(a, b);
      RowCountMultiset(a[..|a| - 1], p + q, idx);
      RowCountConcat(p, q, idx);
      RowCountConcat(p + [a[|a| - 1]], q, idx);
      RowCountSnoc(p, a[|a| - 1], idx);
    }
  }

  lemma {:induction false} RowsForAll(lines: seq<Line>, idx: string)
    ensures forall l :: l in RowsFor(lines, idx) ==> l.Record? && l.idx == idx
    ensures |RowsFor(lines, idx)| == RowCount(lines, idx)
  {
    if |lines| > 0 {
      RowsForAll(lines[..|lines| - 1], idx);
    }
  }

  /** Every row of block i carries key i, and there are as many as the input has. */
  lemma BlockRows(input: seq<Line>, output: seq<Line>, keys: seq<string>, groups: seq<seq<Line>>, i: nat)
    requires Regrouped(input, output, keys, groups) && i < |keys|
    ensures forall j :: 0 <= j < |groups[i]| ==> groups[i][j].Record? && groups[i][j].idx == keys[i]
    ensures |groups[i]| == RowCount(input, keys[i]) > 0
  {
    var rows := RowsFor(input, keys[i]);
    RowsForAll(input, keys[i]);
    assert keys[i] in keys;
    assert |multiset(groups[i])| == |multiset(rows)|;
    forall j | 0 <= j < |groups[i]|
      ensures groups[i][j].Record? && groups[i][j].idx == keys[i]
    {
      assert groups[i][j] in multiset(rows);
    }
  }

  /** Block i consists of rows of key i. */
  ghost predicate Keyed(groups: seq<seq<Line>>, keys: seq<string>) {
    && |groups| == |keys|
    && forall i, j :: 0 <= i < |groups| && 0 <= j < |groups[i]| ==> groups[i][j].Record? && groups[i][j].idx == keys[i]
  }

  lemma {:induction false} UniformCount(block: seq<Line>, key: string, idx: string)
    requires forall j :: 0 <= j < |block| ==> block[j].Record? && block[j].idx == key
    ensures RowCount(block, idx) == if idx == key then |block| else 0
  {
    if |block| > 0 {
      UniformCount(block[..|block| - 1], key, idx);
    }
  }

  lemma {:induction false} BlocksCount(groups: seq<seq<Line>>, keys: seq<string>, idx: string)
    requires Distinct(keys)
    requires Keyed(groups, keys)
    ensures forall i :: 0 <= i < |keys| && keys[i] == idx ==> CountIn(groups, idx) == |groups[i]|
    ensures idx !in keys ==> CountIn(groups, idx) == 0
  {
    if |groups| > 0 {
      var n := |groups| - 1;
      BlocksCount(groups[..n], keys[..n], idx);
      UniformCount(groups[n], keys[n], idx);
    }
  }

  lemma {:induction false} PassthroughNoRows(lines: seq<Line>, idx: string)
    ensures RowCount(Passthrough(lines), idx) == 0
    ensures forall l :: l in Passthrough(lines) ==> !l.Record? && !l.Blank?
  {
    if |lines| > 0 {
      var front, last := lines[..|lines| - 1], lines[|lines| - 1];
      PassthroughNoRows(front, idx);
      if last.Record? || last.Blank? {
        assert Passthrough(front) + [] == Passthrough(front);
      } else {
        RowCountSnoc(Passthrough(front), last, idx);
      }
    }
  }

  /** The counts loaded before and after regrouping are the same. */
  lemma {:induction false} CountsKept(input: seq<Line>, output: seq<Line>, keys: seq<string>, groups: seq<seq<Line>>,
                                      idx: string)
    requires Regrouped(input, output, keys, groups)
    ensures RowCount(output, idx) == RowCount(input, idx)
  {
    RowCountConcat(Flatten(groups), Passthrough(input), idx);
    PassthroughNoRows(input, idx);
    FlattenCount(groups, idx);
    AllBlocks(input, output, keys, groups);
    BlocksCount(groups, keys, idx);
    RowsForAll(input, idx);
  }

  lemma AllBlocks(input: seq<Line>, output: seq<Line>, keys: seq<string>, groups: seq<seq<Line>>)
    requires Regrouped(input, output, keys, groups)
    ensures Keyed(groups, keys)
    ensures forall i :: 0 <= i < |keys| ==> |groups[i]| == RowCount(input, keys[i]) > 0
  {
    forall i | 0 <= i < |keys|
      ensures forall j :: 0 <= j < |groups[i]| ==> groups[i][j].Record? && groups[i][j].idx == keys[i]
      ensures |groups[i]| == RowCount(input, keys[i]) > 0
    {
      BlockRows(input, output, keys, groups, i);
    }
  }

  lemma BagOfConcat(a: seq<Line>, b: seq<Line>, l: Line)
    ensures multiset(a + b)[l] == multiset(a)[l] + multiset(b)[l]
  {
  }

  lemma LastBlock(groups: seq<seq<Line>>, l: Line)
    requires |groups| > 0
    ensures var n := |groups| - 1;
            multiset(Flatten(groups))[l] == multiset(Flatten(groups[..n]))[l] + multiset(groups[n])[l]
  {
    BagOfConcat(Flatten(groups[..|groups| - 1]), groups[|groups| - 1], l);
  }

  lemma NotInBlock(block: seq<Line>, key: string, l: Line)
    requires forall j :: 0 <= j < |block| ==> block[j].Record? && block[j].idx == key
    requires !l.Record? || l.idx != key
    ensures multiset(block)[l] == 0
  {
    assert l !in block;
  }

  lemma {:induction false} NoSuchKey(groups: seq<seq<Line>>, keys: seq<string>, l: Line)
    requires Keyed(groups, keys) && (!l.Record? || l.idx !in keys)
    ensures multiset(Flatten(groups))[l] == 0
  {
    if |groups| > 0 {
      var n := |groups| - 1;
      NoSuchKey(groups[..n], keys[..n], l);
      NotInBlock(groups[n], keys[n], l);
      LastBlock(groups, l);
    }
  }

  /** All of a record's copies are in the block of its key. */
  lemma {:induction false} BlocksBag(groups: seq<seq<Line>>, keys: seq<string>, l: Line, i: nat)
    requires Keyed(groups, keys) && Distinct(keys) && i < |keys| && l.Record? && l.idx == keys[i]
    ensures multiset(Flatten(groups))[l] == multiset(groups[i])[l]
  {
    var n := |groups| - 1;
    LastBlock(groups, l);
    if i == n {
      assert keys[n] !in keys[..n];
      NoSuchKey(groups[..n], keys[..n], l);
    } else {
      BlocksBag(groups[..n], keys[..n], l, i);
      NotInBlock(groups[n], keys[n], l);
    }
  }

  lemma {:induction false} InputBag(lines: seq<Line>, l: Line)
    ensures multiset(NonBlank(lines))[l]
         == multiset(Passthrough(lines))[l] + if l.Record? then multiset(RowsFor(lines, l.idx))[l] else 0
  {
    if |lines| > 0 {
      InputBag(lines[..|lines| - 1], l);
    }
  }

  lemma GroupsBag(input: seq<Line>, keys: seq<string>, groups: seq<seq<Line>>, l: Line)
    requires Keyed(groups, keys) && Distinct(keys) && forall k :: k in keys <==> RowsFor(input, k) != []
    requires forall i :: 0 <= i < |keys| ==> multiset(groups[i]) == multiset(RowsFor(input, keys[i]))
    ensures multiset(Flatten(groups))[l] == if l.Record? then multiset(RowsFor(input, l.idx))[l] else 0
  {
    if l.Record? && l.idx in keys {
      var i :| 0 <= i < |keys| && keys[i] == l.idx;
      BlocksBag(groups, keys, l, i);
    } else {
      NoSuchKey(groups, keys, l);
    }
  }

  /** Nothing but blank lines is lost, and nothing is added. */
  lemma {:induction false} Permutation(input: seq<Line>, output: seq<Line>, keys: seq<string>, groups: seq<seq<Line>>)
    requires Regrouped(input, output, keys, groups)
    ensures multiset(output) == multiset(NonBlank(input))
  {
    AllBlocks(input, output, keys, groups);
    var blocks, aside, whole := multiset(Flatten(groups)), multiset(Passthrough(input)), multiset(NonBlank(input));
    assert multiset(output) == blocks + aside;
    forall l
      ensures (blocks + aside)[l] == whole[l]
    {
      GroupsBag(input, keys, groups, l);
      InputBag(input, l);
    }
  }

  /** Rows of the same index are adjacent. */
  ghost predicate Contiguous(lines: seq<Line>) {
    forall i, j, k ::
      0 <= i < j < k < |lines| && lines[i].Record? && lines[k].Record? && lines[i].idx == lines[k].idx ==>
      lines[j].Record? && lines[j].idx == lines[i].idx
  }

  lemma {:induction false} FlattenKeyed(groups: seq<seq<Line>>, keys: seq<string>)
    requires Keyed(groups, keys) && Distinct(keys)
    ensures forall p :: 0 <= p < |Flatten(groups)| ==> Flatten(groups)[p].Record? && Flatten(groups)[p].idx in keys
    ensures Contiguous(Flatten(groups))
  {
    if |groups| > 0 {
      var n := |groups| - 1;
      var front, last := Flatten(groups[..n]), groups[n];
      FlattenKeyed(groups[..n], keys[..n]);
      var all := Flatten(groups);
      assert all == front + last;
      forall p | 0 <= p < |all|
        ensures all[p].Record? && all[p].idx in keys
        ensures p >= |front| ==> all[p].idx == keys[n]
        ensures p < |front| ==> all[p].idx != keys[n]
      {
        if p < |front| {
          assert front[p].idx in keys[..n];
        } else {
          assert last[p - |front|].idx == keys[n];
        }
      }
    }
  }

  /** In the regrouped file equal indices are contiguous, and the lines without an index close the file in
      their original order. */
  lemma EqualIndicesAdjacent(input: seq<Line>, output: seq<Line>, keys: seq<string>, groups: seq<seq<Line>>)
    requires Regrouped(input, output, keys, groups)
    ensures Contiguous(output)
    ensures Passthrough(input) <= output[|Flatten(groups)|..]
    ensures forall p :: |Flatten(groups)| <= p < |output| ==> !output[p].Record?
  {
    AllBlocks(input, output, keys, groups);
    FlattenKeyed(groups, keys);
    var blocks, aside := Flatten(groups), Passthrough(input);
    assert output[|blocks|..] == aside;
    forall p | |blocks| <= p < |output|
      ensures !output[p].Record?
    {
      PassthroughNoRows(input, "");
      assert output[p] == aside[p - |blocks|];
    }
  }
}
