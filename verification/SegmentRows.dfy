/** The rows that the bytes of a segment hold, for any way of reading one record that is sound. */
module SegmentRows {
  import opened Basics
  import opened Crc32
  import opened Folds
  import opened Streams

  datatype Fault = BadRecord
  type RecordReader = (seq<byte>, nat) -> Outcome<seq<Span>, Fault>

  /** A table row: its provenance columns (segment and record offset) and the span. */
  datatype Row = Row(source: nat, offset: nat, span: Span)

  /** Records make progress inside the file, the end of the file is where the bytes end, and a
      record once complete stays the same when the file grows. */
  ghost predicate Sound(read: RecordReader) {
    && (forall b, p: nat :: read(b, p).Record? ==> p < read(b, p).end <= |b|)
    && (forall b, p: nat :: read(b, p).EndOfFile? <==> p >= |b|)
    && (forall b, x, p: nat {:trigger read(b + x, p)} :: read(b, p).Record? ==> read(b + x, p) == read(b, p))
  }

  function View(read: RecordReader, b: seq<byte>): nat -> Outcome<seq<Span>, Fault> {
    (p: nat) => read(b, p)
  }

  /** Records lie end to end from `i` to exactly `j`. */
  predicate Runs(read: RecordReader, b: seq<byte>, i: nat, j: nat) {
    Reach(View(read, b), i, j)
  }

  /** One row a span, in order. */
  function RecordRows(source: nat, rec: Rec<seq<Span>>): (rows: seq<Row>)
    ensures |rows| == |rec.payload| && forall k :: 0 <= k < |rows| ==> rows[k] == Row(source, rec.start, rec.payload[k])
  {
    seq(|rec.payload|, k requires 0 <= k < |rec.payload| => Row(source, rec.start, rec.payload[k]))
  }

  function RecRows(source: nat): Rec<seq<Span>> -> seq<Row> {
    (rec: Rec<seq<Span>>) => RecordRows(source, rec)
  }

  /** The rows of the records from `i` to `j`, in file order. */
  function RowsOf(read: RecordReader, source: nat, b: seq<byte>, i: nat, j: nat): seq<Row> {
    Expand(RecRows(source), Scan(View(read, b), i, j))
  }

  /** The end of the longest valid prefix. */
  function ValidEnd(read: RecordReader, b: seq<byte>): nat {
    Extent(View(read, b), 0, |b|)
  }

  lemma {:induction false} RunsInside(read: RecordReader, b: seq<byte>, i: nat, j: nat)
    requires Sound(read) && Runs(read, b, i, j) && i <= |b|
    ensures i <= j <= |b|
    decreases j - i
  {
    if i != j {
      var e := View(read, b)(i).end;
      RunsInside(read, b, e, j);
    }
  }

  lemma RunsConcat(read: RecordReader, source: nat, b: seq<byte>, i: nat, j: nat, k: nat)
    requires Runs(read, b, i, j) && Runs(read, b, j, k)
    ensures Runs(read, b, i, k)
    ensures RowsOf(read, source, b, i, k) == RowsOf(read, source, b, i, j) + RowsOf(read, source, b, j, k)
  {
    var v := View(read, b);
    ReachConcat(v, i, j, k);
    ExpandConcat(RecRows(source), Scan(v, i, j), Scan(v, j, k));
  }

  lemma RunsSplit(read: RecordReader, source: nat, b: seq<byte>, i: nat, j: nat, k: nat)
    requires Runs(read, b, i, j) && Runs(read, b, i, k) && j <= k
    ensures Runs(read, b, j, k)
    ensures RowsOf(read, source, b, i, k) == RowsOf(read, source, b, i, j) + RowsOf(read, source, b, j, k)
  {
    ReachSplit(View(read, b), i, j, k);
    RunsConcat(read, source, b, i, j, k);
  }

  lemma EmptyRun(read: RecordReader, source: nat, b: seq<byte>, i: nat)
    requires Sound(read)
    ensures Runs(read, b, i, i) && RowsOf(read, source, b, i, i) == []
  {
    assert !Steps(View(read, b), i, i);
  }

  lemma OneRecord(read: RecordReader, source: nat, b: seq<byte>, i: nat)
    requires Sound(read) && read(b, i).Record?
    ensures var r := read(b, i);
      Runs(read, b, i, r.end) && RowsOf(read, source, b, i, r.end) == RecRows(source)(Rec(i, r.end, r.payload))
  {
    var v, r := View(read, b), read(b, i);
    assert !Steps(v, r.end, r.end);
    assert Scan(v, i, r.end) == [Rec(i, r.end, r.payload)];
    var one := RecRows(source)(Rec(i, r.end, r.payload));
    assert Expand(RecRows(source), [Rec(i, r.end, r.payload)]) == one + [];
  }

  /** Appending bytes leaves every run that was complete, and its rows, as they were. */
  lemma RunsGrow(read: RecordReader, source: nat, b: seq<byte>, x: seq<byte>, i: nat, j: nat)
    requires Sound(read) && Runs(read, b, i, j)
    ensures Runs(read, b + x, i, j) && RowsOf(read, source, b + x, i, j) == RowsOf(read, source, b, i, j)
  {
    ReachAgrees(View(read, b), View(read, b + x), i, j);
  }

  /** A run from the start cannot be continued past the valid end, and stops there when nothing readable follows. */
  lemma RunsToValidEnd(read: RecordReader, source: nat, b: seq<byte>, j: nat)
    requires Sound(read) && Runs(read, b, 0, j)
    ensures j <= ValidEnd(read, b) <= |b| && Runs(read, b, 0, ValidEnd(read, b)) && Runs(read, b, j, ValidEnd(read, b))
    ensures RowsOf(read, source, b, 0, ValidEnd(read, b))
        == RowsOf(read, source, b, 0, j) + RowsOf(read, source, b, j, ValidEnd(read, b))
    ensures !read(b, j).Record? ==> j == ValidEnd(read, b)
  {
    var v := View(read, b);
    RunsInside(read, b, 0, j);
    ExtentIsFurthest(v, 0, j, |b|);
    ExtentReached(v, 0, |b|);
    RunsSplit(read, source, b, 0, j, ValidEnd(read, b));
  }
}
