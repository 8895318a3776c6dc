/** The storage engine as a step machine: WAL segments, Parquet files, the manifest tables and
    the memory of the one worker that holds the storage lifecycle lock.

    Segments and files are named by their position in creation order. Every step is one atomic
    change of disk or manifest, or one record read into memory, so a crash can fall between any
    two. The gateway appends and rotates between any two steps of the worker. */
module StorageModel {
  import opened Basics
  import opened Crc32
  import opened Streams
  import opened SegmentRows
  import opened Sums

  /** A row of `materialized_wal_offsets`. */
  datatype Mark = Mark(maxOffset: nat, full: bool)

  /** A segment with its rows in `materialized_wal_offsets` and `wal_corruption_events`. When the
      file is deleted, `bytes` keeps its last content. `saved` is a history variable: the offset
      up to which the segment's rows were committed to Parquet. */
  datatype Segment = Segment(bytes: seq<byte>, onDisk: bool, mark: Option<Mark>, quarantined: bool, saved: nat) {
    function HighWater(): nat { if mark.Some? then mark.value.maxOffset else 0 }
    predicate Full() { mark.Some? && mark.value.full }
  }

  datatype Content = Absent | Temp(rows: seq<Row>) | Final(rows: seq<Row>)
  /** The status column of `parquet_files`, with `record_count`. */
  datatype Entry = Unlisted | Committed(count: nat) | Compacted(count: nat)
  /** `merged` tells the two kinds of file name apart: flushed, or written by compaction. */
  datatype ParquetFile = ParquetFile(content: Content, entry: Entry, merged: bool) {
    /** Query-visible: listed as COMMITTED and present under its final name. */
    predicate Visible() { entry.Committed? && content.Final? }
  }

  /** Where a running `materialize` is in its list of segments. */
  datatype Cursor = Between(next: nat) | Reading(seg: nat, start: nat, pos: nat)

  datatype Worker =
    | Idle
    | Running(active: nat, rows: seq<Row>, offsets: map<nat, nat>, cursor: Cursor, flight: Option<nat>)
    | Merging(chosen: seq<nat>, file: nat, copied: nat)
    | Unlinking(chosen: seq<nat>, done: nat)

  datatype State = State(segs: seq<Segment>, files: seq<ParquetFile>, worker: Worker)

  const EMPTY_SEGMENT := Segment([], true, None, false, 0)

  /** The gateway has opened its first segment and nothing else has happened. */
  const INITIAL := State([EMPTY_SEGMENT], [], Idle)

  datatype Step =
    // the gateway
    | Append(x: seq<byte>) | Rotate
    // materialize
    | RemoveOrphan(file: nat) | Begin | Open(seg: nat) | Read
    | CreateTemp | FillTemp | Rename | Commit
    | Flag | Leave | Quarantine | End
    // compaction
    | BeginMerge(chosen: seq<nat>) | CopyNext | RenameMerged | CommitMerge | AbortMerge
    | UnlinkNext(ok: bool) | EndMerge
    // WAL cleanup
    | DeleteSegment(seg: nat)
    // the worker process dies, or an exception leaves the operation
    | Crash

  /** Nothing new in a segment that is flagged, or that is not empty. */
  predicate Skipped(s: Segment) {
    s.HighWater() >= |s.bytes| && (s.Full() || |s.bytes| > 0)
  }

  predicate IsOrphan(f: ParquetFile) {
    f.content.Temp? || (f.content.Final? && !f.entry.Committed?)
  }

  /** The offset a run resumes from, or has reached: the pending offset if there is one. */
  function Reached(w: Worker, seg: nat, otherwise: nat): nat
    requires w.Running?
  {
    if seg in w.offsets then w.offsets[seg] else otherwise
  }

  predicate CanRun(w: Worker) { w.Running? && w.flight.None? }

  predicate Enabled(read: RecordReader, st: State, step: Step) {
    var w := st.worker;
    match step
    case Append(_) => st.segs != []
    case Rotate => true
    case RemoveOrphan(f) => w.Idle? && f < |st.files| && IsOrphan(st.files[f])
    case Begin => w.Idle? && st.segs != []
    case Open(i) =>
      && CanRun(w) && w.cursor.Between? && w.cursor.next <= i <= w.active
      && i < |st.segs| && st.segs[i].onDisk && !st.segs[i].quarantined && !Skipped(st.segs[i])
    case Read =>
      && CanRun(w) && w.cursor.Reading? && w.cursor.seg < |st.segs|
      && read(st.segs[w.cursor.seg].bytes, w.cursor.pos).Record?
    case CreateTemp => CanRun(w) && w.rows != []
    case FillTemp =>
      && w.Running? && w.flight.Some? && w.flight.value < |st.files|
      && st.files[w.flight.value].content.Temp?
    case Rename =>
      && w.Running? && w.flight.Some? && w.flight.value < |st.files|
      && st.files[w.flight.value].content == Temp(w.rows)
    case Commit =>
      && w.Running? && w.flight.Some? && w.flight.value < |st.files|
      && st.files[w.flight.value].content.Final?
    case Flag =>
      && CanRun(w) && w.cursor.Reading? && w.cursor.seg < w.active && w.cursor.seg < |st.segs|
      && read(st.segs[w.cursor.seg].bytes, w.cursor.pos).EndOfFile?
      && |st.segs[w.cursor.seg].bytes| == Reached(w, w.cursor.seg, w.cursor.start)
    case Leave =>
      && CanRun(w) && w.cursor.Reading? && w.cursor.seg < |st.segs|
      && read(st.segs[w.cursor.seg].bytes, w.cursor.pos).EndOfFile?
    case Quarantine =>
      && CanRun(w) && w.rows == [] && w.cursor.Reading? && w.cursor.seg < |st.segs|
      && read(st.segs[w.cursor.seg].bytes, w.cursor.pos).Corrupt?
    case End => CanRun(w) && w.rows == [] && w.cursor.Between?
    case BeginMerge(chosen) =>
      && w.Idle? && Distinct(chosen)
      && forall k :: 0 <= k < |chosen| ==> chosen[k] < |st.files| && st.files[chosen[k]].Visible()
    case CopyNext =>
      && w.Merging? && w.copied < |w.chosen| && w.file < |st.files| && st.files[w.file].content.Temp?
      && w.chosen[w.copied] < |st.files| && st.files[w.chosen[w.copied]].content.Final?
    case RenameMerged =>
      && w.Merging? && w.copied == |w.chosen|
      && w.file < |st.files| && st.files[w.file].content.Temp? && st.files[w.file].content.rows != []
    case CommitMerge => w.Merging? && w.file < |st.files| && st.files[w.file].content.Final?
    case AbortMerge => w.Merging? && w.file < |st.files| && st.files[w.file].content.Temp?
    case UnlinkNext(_) => w.Unlinking? && w.done < |w.chosen| && w.chosen[w.done] < |st.files|
    case EndMerge => w.Unlinking? && w.done == |w.chosen|
    case DeleteSegment(i) => w.Idle? && i + 1 < |st.segs| && st.segs[i].Full()
    case Crash => true
  }

  /** What one upsert of the flush transaction does to a segment's row. */
  function Marked(s: Segment, offset: nat): Segment {
    s.(mark := Some(Mark(if s.HighWater() > offset then s.HighWater() else offset, s.Full())), saved := offset)
  }

  function MarkAll(segs: seq<Segment>, offsets: map<nat, nat>): (r: seq<Segment>)
    ensures |r| == |segs|
    ensures forall i :: 0 <= i < |segs| ==> r[i] == if i in offsets then Marked(segs[i], offsets[i]) else segs[i]
  {
    seq(|segs|, i requires 0 <= i < |segs| => if i in offsets then Marked(segs[i], offsets[i]) else segs[i])
  }

  /** The upsert of the fully-processed flag: it sets `max_offset` only when it inserts. */
  function Flagged(s: Segment): Segment {
    s.(mark := Some(Mark(if s.mark.Some? then s.mark.value.maxOffset else |s.bytes|, true)))
  }

  function SetEntry(f: ParquetFile): ParquetFile {
    f.(entry := Compacted(if f.entry.Committed? then f.entry.count else 0))
  }

  /** The single transaction that lists the merged file and retires its sources. */
  function Retire(files: seq<ParquetFile>, chosen: seq<nat>): (r: seq<ParquetFile>)
    ensures |r| == |files|
    ensures forall f :: 0 <= f < |files| ==> r[f] == if f in chosen then SetEntry(files[f]) else files[f]
  {
    seq(|files|, f requires 0 <= f < |files| => if f in chosen then SetEntry(files[f]) else files[f])
  }

  function Apply(read: RecordReader, st: State, step: Step): (next: State)
    requires Enabled(read, st, step)
    ensures |next.segs| >= |st.segs| && |next.files| >= |st.files|
  {
    var w := st.worker;
    match step
    case Append(x) =>
      var last := |st.segs| - 1;
      st.(segs := st.segs[last := st.segs[last].(bytes := st.segs[last].bytes + x)])
    case Rotate => st.(segs := st.segs + [EMPTY_SEGMENT])
    case RemoveOrphan(f) => st.(files := st.files[f := st.files[f].(content := Absent)])
    case Begin => st.(worker := Running(|st.segs| - 1, [], map[], Between(0), None))
    case Open(i) => st.(worker := w.(cursor := Reading(i, st.segs[i].HighWater(), st.segs[i].HighWater())))
    case Read =>
      var i := w.cursor.seg;
      var r := read(st.segs[i].bytes, w.cursor.pos);
      st.(worker := w.(rows := w.rows + RecRows(i)(Rec(w.cursor.pos, r.end, r.payload)),
                       offsets := w.offsets[i := r.end],
                       cursor := w.cursor.(pos := r.end)))
    case CreateTemp =>
      st.(files := st.files + [ParquetFile(Temp([]), Unlisted, false)],
          worker := w.(flight := Some(|st.files|)))
    case FillTemp => st.(files := st.files[w.flight.value := st.files[w.flight.value].(content := Temp(w.rows))])
    case Rename => st.(files := st.files[w.flight.value := st.files[w.flight.value].(content := Final(w.rows))])
    case Commit =>
      st.(files := st.files[w.flight.value := st.files[w.flight.value].(entry := Committed(|w.rows|))],
          segs := MarkAll(st.segs, w.offsets),
          worker := w.(rows := [], offsets := map[], flight := None))
    case Flag =>
      st.(segs := st.segs[w.cursor.seg := Flagged(st.segs[w.cursor.seg])],
          worker := w.(cursor := Between(w.cursor.seg + 1)))
    case Leave => st.(worker := w.(cursor := Between(w.cursor.seg + 1)))
    case Quarantine =>
      st.(segs := st.segs[w.cursor.seg := st.segs[w.cursor.seg].(quarantined := true)],
          worker := w.(cursor := Between(w.cursor.seg + 1)))
    case End => st.(worker := Idle)
    case BeginMerge(chosen) =>
      st.(files := st.files + [ParquetFile(Temp([]), Unlisted, true)],
          worker := Merging(chosen, |st.files|, 0))
    case CopyNext =>
      var f := st.files[w.file];
      st.(files := st.files[w.file := f.(content := Temp(f.content.rows + st.files[w.chosen[w.copied]].content.rows))],
          worker := w.(copied := w.copied + 1))
    case RenameMerged =>
      var f := st.files[w.file];
      st.(files := st.files[w.file := f.(content := Final(f.content.rows))])
    case CommitMerge =>
      var f := st.files[w.file];
      st.(files := Retire(st.files[w.file := f.(entry := Committed(|f.content.rows|))], w.chosen),
          worker := Unlinking(w.chosen, 0))
    case AbortMerge => st.(files := st.files[w.file := st.files[w.file].(content := Absent)], worker := Idle)
    case UnlinkNext(ok) =>
      var f := w.chosen[w.done];
      st.(files := if ok then st.files[f := st.files[f].(content := Absent)] else st.files,
          worker := w.(done := w.done + 1))
    case EndMerge => st.(worker := Idle)
    case DeleteSegment(i) => st.(segs := st.segs[i := st.segs[i].(onDisk := false)])
    case Crash => st.(worker := Idle)
  }

  // ----- Runs

  /** The state after the steps, when each was enabled in its turn. */
  function Run(read: RecordReader, st: State, steps: seq<Step>): Option<State>
    decreases |steps|, 0
  {
    if steps == [] then Some(st) else RunOn(read, st, steps[..|steps| - 1], steps[|steps| - 1])
  }

  function RunOn(read: RecordReader, st: State, steps: seq<Step>, step: Step): Option<State>
    decreases |steps|, 1
  {
    var prior := Run(read, st, steps);
    if prior.Some? && Enabled(read, prior.value, step) then Some(Apply(read, prior.value, step)) else None
  }

  ghost predicate CrashFree(steps: seq<Step>) { forall k :: 0 <= k < |steps| ==> steps[k] != Crash }

  lemma RunSnoc(read: RecordReader, st: State, steps: seq<Step>, step: Step)
    requires Run(read, st, steps).Some? && Enabled(read, Run(read, st, steps).value, step)
    ensures Run(read, st, steps + [step]) == Some(Apply(read, Run(read, st, steps).value, step))
  {
    assert (steps + [step])[..|steps|] == steps;
  }

  // ----- What queries see

  function FileRows(i: nat, f: ParquetFile): multiset<Row> {
    if f.Visible() then multiset(f.content.rows) else multiset{}
  }

  /** The query-visible rows. */
  function Visible(files: seq<ParquetFile>): multiset<Row> { Sum(FileRows, files) }

  /** The sum of `record_count` over COMMITTED entries. */
  function RecordCount(files: seq<ParquetFile>): nat {
    if files == [] then 0
    else
      var e := files[|files| - 1].entry;
      RecordCount(files[..|files| - 1]) + if e.Committed? then e.count else 0
  }

  function SavedRows(read: RecordReader): (nat, Segment) -> multiset<Row> {
    (i: nat, s: Segment) => multiset(RowsOf(read, i, s.bytes, 0, s.saved))
  }

  function MarkedRows(read: RecordReader): (nat, Segment) -> multiset<Row> {
    (i: nat, s: Segment) => multiset(RowsOf(read, i, s.bytes, 0, s.HighWater()))
  }

  function AllRows(read: RecordReader): (nat, Segment) -> multiset<Row> {
    (i: nat, s: Segment) => multiset(RowsOf(read, i, s.bytes, 0, ValidEnd(read, s.bytes)))
  }

  function PendingRows(read: RecordReader, offsets: map<nat, nat>): (nat, Segment) -> multiset<Row> {
    (i: nat, s: Segment) => if i in offsets then multiset(RowsOf(read, i, s.bytes, s.saved, offsets[i])) else multiset{}
  }
}
