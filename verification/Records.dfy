/** The lines of the generated JSONL files, and the scan that counts finished rows per index
    (utils.py, load_existing_data). */
module Records {
  import opened Basics

  /** A line: blank, not JSON, JSON but not an object, an object without an index, or a row of an index.
      The index is the string form of meta_info.lenvm_idx, or of meta_info.index when that key is absent. */
  datatype Line =
    | Blank
    | Malformed(text: string)
    | NotObject(text: string)
    | NoIndex(text: string)
    | Record(idx: string, payload: int)

  type Counts = map<string, int>

  /** counts.get(idx, 0) */
  function Get(counts: Counts, idx: string): int {
    if idx in counts then counts[idx] else 0
  }

  function RowCount(lines: seq<Line>, idx: string): nat {
    if |lines| == 0 then 0
    else
      var last := lines[|lines| - 1];
      RowCount(lines[..|lines| - 1], idx) + if last.Record? && last.idx == idx then 1 else 0
  }

  /** The number of lines that are rows of the index. */
  lemma {:induction false} RowCountIs(lines: seq<Line>, idx: string)
    ensures RowCount(lines, idx) == |Where(lines, (l: Line) => l.Record? && l.idx == idx)|
  {
    if |lines| > 0 {
      RowCountIs(lines[..|lines| - 1], idx);
      WhereLast(lines, (l: Line) => l.Record? && l.idx == idx);
    }
  }

  lemma {:induction false} RowCountConcat(a: seq<Line>, b: seq<Line>, idx: string)
    ensures RowCount(a + b, idx) == RowCount(a, idx) + RowCount(b, idx)
  {
    if |b| == 0 {
      assert a + b == a;
    } else {
      RowCountConcat(a, b[..|b| - 1], idx);
      assert (a + b)[..|a + b| - 1] == a + b[..|b| - 1];
    }
  }

  lemma RowCountSnoc(a: seq<Line>, l: Line, idx: string)
    ensures RowCount(a + [l], idx) == RowCount(a, idx) + if l.Record? && l.idx == idx then 1 else 0
  {
    assert (a + [l])[..|a|] == a;
  }

  /** The counts loaded from a file: one entry for every index with rows, and nothing else. */
  ghost predicate CountsOf(counts: Counts, lines: seq<Line>) {
    forall idx :: (idx in counts <==> RowCount(lines, idx) > 0) && Get(counts, idx) == RowCount(lines, idx)
  }

  method LoadExistingData(lines: seq<Line>) returns (counts: Counts)
    ensures CountsOf(counts, lines)
  {
    counts := map[];
    for i := 0 to |lines|
      invariant CountsOf(counts, lines[..i])
    {
      assert lines[..i + 1][..i] == lines[..i];
      match lines[i] {
        case Record(idx, _) => counts := counts[idx := Get(counts, idx) + 1];
        case _ =>
      }
    }
    assert lines[..|lines|] == lines;
  }
}
