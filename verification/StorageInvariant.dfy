/** What every step of the storage engine keeps, crashes included. */
module StorageInvariant {
  import opened Basics
  import opened Crc32
  import opened Streams
  import opened SegmentRows
  import opened Sums
  import opened StorageModel

  // ----- The invariant

  /** Saved and marked offsets are record boundaries; the mark runs ahead of what was saved only
      when the flag was inserted early, and then it stands at the end of the file. */
  ghost predicate SegOk(read: RecordReader, s: Segment, last: bool) {
    && Runs(read, s.bytes, 0, s.saved)
    && Runs(read, s.bytes, 0, s.HighWater())
    && s.saved <= s.HighWater()
    && (s.HighWater() == s.saved || s.HighWater() == |s.bytes|)
    && (!s.Full() ==> s.HighWater() == s.saved)
    && (s.Full() ==> !last && !s.quarantined && Runs(read, s.bytes, 0, |s.bytes|))
    && (!s.onDisk ==> s.Full())
  }

  ghost predicate SegsOk(read: RecordReader, segs: seq<Segment>) {
    segs != [] && forall i :: 0 <= i < |segs| ==> SegOk(read, segs[i], i == |segs| - 1)
  }

  predicate FileOk(f: ParquetFile) {
    f.entry.Committed? ==> f.content.Final? && f.content.rows != [] && f.entry.count == |f.content.rows|
  }

  predicate FilesOk(files: seq<ParquetFile>) {
    forall f :: 0 <= f < |files| ==> FileOk(files[f])
  }

  predicate BeforeCursor(c: Cursor, i: nat) {
    match c
    case Between(next) => i < next
    case Reading(seg, _, _) => i <= seg
  }

  /** The pending offset of a segment: a run of records from what was saved, not yet visible. */
  ghost predicate PendingOk(read: RecordReader, s: Segment, offset: nat) {
    && Runs(read, s.bytes, s.saved, offset)
    && (s.HighWater() == s.saved || s.HighWater() == offset)
  }

  ghost predicate CursorOk(read: RecordReader, segs: seq<Segment>, w: Worker)
    requires w.Running?
  {
    w.cursor.Reading? ==>
      var i, start, pos := w.cursor.seg, w.cursor.start, w.cursor.pos;
      && i <= w.active && i < |segs| && segs[i].onDisk && !segs[i].quarantined
      && Runs(read, segs[i].bytes, start, pos)
      && pos == Reached(w, i, segs[i].HighWater())
  }

  ghost predicate RunningOk(read: RecordReader, segs: seq<Segment>, w: Worker)
    requires w.Running?
  {
    && w.active < |segs|
    && (forall i | i in w.offsets ::
          i < |segs| && i <= w.active && segs[i].onDisk && BeforeCursor(w.cursor, i)
              && PendingOk(read, segs[i], w.offsets[i]))
    && CursorOk(read, segs, w)
  }

  predicate FlightOk(files: seq<ParquetFile>, w: Worker)
    requires w.Running?
  {
    w.flight.Some? ==>
      && w.rows != []
      && w.flight.value < |files| && files[w.flight.value].entry.Unlisted?
      && (files[w.flight.value].content.Temp? || files[w.flight.value].content == Final(w.rows))
  }

  predicate AllFinal(files: seq<ParquetFile>, chosen: seq<nat>) {
    forall k :: 0 <= k < |chosen| ==> chosen[k] < |files| && files[chosen[k]].content.Final?
  }

  predicate AllCommitted(files: seq<ParquetFile>, chosen: seq<nat>) {
    forall k :: 0 <= k < |chosen| ==> chosen[k] < |files| && files[chosen[k]].entry.Committed?
  }

  /** The rows of the chosen files, one file after the other. */
  function Joined(files: seq<ParquetFile>, chosen: seq<nat>): seq<Row>
    requires AllFinal(files, chosen)
  {
    if chosen == [] then [] else Joined(files, chosen[..|chosen| - 1]) + files[chosen[|chosen| - 1]].content.rows
  }

  predicate MergingOk(files: seq<ParquetFile>, w: Worker)
    requires w.Merging?
  {
    && Distinct(w.chosen) && w.copied <= |w.chosen|
    && AllFinal(files, w.chosen) && AllCommitted(files, w.chosen) && w.file !in w.chosen
    && w.file < |files| && files[w.file].entry.Unlisted?
    && (files[w.file].content == Temp(Joined(files, w.chosen[..w.copied]))
        || (w.copied == |w.chosen| && Joined(files, w.chosen) != []
            && files[w.file].content == Final(Joined(files, w.chosen))))
  }

  predicate UnlinkingOk(files: seq<ParquetFile>, w: Worker)
    requires w.Unlinking?
  {
    w.done <= |w.chosen| && forall k :: 0 <= k < |w.chosen| ==>
        w.chosen[k] < |files| && files[w.chosen[k]].entry.Compacted?
  }

  ghost predicate WorkerOk(read: RecordReader, st: State) {
    match st.worker
    case Idle => true
    case Running(_, _, _, _, _) => RunningOk(read, st.segs, st.worker) && FlightOk(st.files, st.worker)
    case Merging(_, _, _) => MergingOk(st.files, st.worker)
    case Unlinking(_, _) => UnlinkingOk(st.files, st.worker)
  }

  /** Visible rows are exactly the rows up to what each segment has saved, and the batch holds
      exactly the rows from there to the pending offsets. */
  ghost predicate Balanced(read: RecordReader, st: State) {
    && Visible(st.files) == Sum(SavedRows(read), st.segs)
    && (st.worker.Running? ==> multiset(st.worker.rows) == Sum(PendingRows(read, st.worker.offsets), st.segs))
  }

  ghost predicate Inv(read: RecordReader, st: State) {
    SegsOk(read, st.segs) && FilesOk(st.files) && WorkerOk(read, st) && Balanced(read, st)
  }

  lemma InitialInv(read: RecordReader)
    requires Sound(read)
    ensures Inv(read, INITIAL)
  {
    EmptyRun(read, 0, [], 0);
    assert INITIAL.segs[..0] == [];
    assert Sum(SavedRows(read), INITIAL.segs) == Sum(SavedRows(read), []) + SavedRows(read)(0, EMPTY_SEGMENT);
  }

  // ----- Segments

  /** A change of one segment that keeps its content, what it has saved, and its pending run. */
  ghost predicate Remarked(read: RecordReader, s: Segment, t: Segment) {
    t.bytes == s.bytes && t.saved == s.saved
  }

  lemma SumsIgnoreMarks(read: RecordReader, segs: seq<Segment>, i: nat, t: Segment, offsets: map<nat, nat>)
    requires i < |segs| && Remarked(read, segs[i], t)
    ensures Sum(SavedRows(read), segs[i := t]) == Sum(SavedRows(read), segs)
    ensures Sum(PendingRows(read, offsets), segs[i := t]) == Sum(PendingRows(read, offsets), segs)
  {
    SumAgrees(SavedRows(read), SavedRows(read), segs[i := t], segs);
    SumAgrees(PendingRows(read, offsets), PendingRows(read, offsets), segs[i := t], segs);
  }

  lemma GrownSegment(read: RecordReader, i: nat, s: Segment, x: seq<byte>)
    requires Sound(read) && SegOk(read, s, true)
    ensures var t := s.(bytes := s.bytes + x);
      && SegOk(read, t, true)
      && SavedRows(read)(i, t) == SavedRows(read)(i, s)
  {
    RunsGrow(read, i, s.bytes, x, 0, s.saved);
    RunsGrow(read, i, s.bytes, x, 0, s.HighWater());
  }

  lemma GrownPending(read: RecordReader, i: nat, s: Segment, x: seq<byte>, offset: nat)
    requires Sound(read) && PendingOk(read, s, offset)
    ensures var t := s.(bytes := s.bytes + x);
      && PendingOk(read, t, offset)
      && RowsOf(read, i, t.bytes, t.saved, offset) == RowsOf(read, i, s.bytes, s.saved, offset)
  {
    RunsGrow(read, i, s.bytes, x, s.saved, offset);
  }

  lemma AppendRunning(read: RecordReader, segs: seq<Segment>, w: Worker, x: seq<byte>, t: Segment)
    requires Sound(read) && w.Running? && segs != [] && RunningOk(read, segs, w)
    requires var s := segs[|segs| - 1]; t == s.(bytes := s.bytes + x)
    ensures RunningOk(read, segs[|segs| - 1 := t], w)
  {
    var last := |segs| - 1;
    if last in w.offsets { GrownPending(read, last, segs[last], x, w.offsets[last]); }
    if w.cursor.Reading? && w.cursor.seg == last {
      RunsGrow(read, last, segs[last].bytes, x, w.cursor.start, w.cursor.pos);
    }
  }

  lemma {:induction false} AppendPending(read: RecordReader, segs: seq<Segment>, w: Worker, x: seq<byte>, t: Segment)
    requires Sound(read) && w.Running? && segs != [] && RunningOk(read, segs, w)
    requires var s := segs[|segs| - 1]; t == s.(bytes := s.bytes + x)
    ensures Sum(PendingRows(read, w.offsets), segs[|segs| - 1 := t]) == Sum(PendingRows(read, w.offsets), segs)
  {
    var last := |segs| - 1;
    if last in w.offsets { GrownPending(read, last, segs[last], x, w.offsets[last]); }
    SumAgrees(PendingRows(read, w.offsets), PendingRows(read, w.offsets), segs[last := t], segs);
  }

  lemma AppendSaved(read: RecordReader, segs: seq<Segment>, x: seq<byte>, t: Segment)
    requires Sound(read) && SegsOk(read, segs)
    requires var s := segs[|segs| - 1]; t == s.(bytes := s.bytes + x)
    ensures SegsOk(read, segs[|segs| - 1 := t])
    ensures Sum(SavedRows(read), segs[|segs| - 1 := t]) == Sum(SavedRows(read), segs)
  {
    var last := |segs| - 1;
    GrownSegment(read, last, segs[last], x);
    ReplaceSegment(read, segs, last, t);
    SumAgrees(SavedRows(read), SavedRows(read), segs[last := t], segs);
  }

  lemma {:induction false} AppendKeeps(read: RecordReader, st: State, x: seq<byte>)
    requires Sound(read) && Inv(read, st) && Enabled(read, st, Append(x))
    ensures Inv(read, Apply(read, st, Append(x)))
  {
    var last := |st.segs| - 1;
    var t := st.segs[last].(bytes := st.segs[last].bytes + x);
    AppendSaved(read, st.segs, x, t);
    if st.worker.Running? {
      AppendRunning(read, st.segs, st.worker, x, t);
      AppendPending(read, st.segs, st.worker, x, t);
    }
    assert Apply(read, st, Append(x)) == st.(segs := st.segs[last := t]);
  }

  lemma RotateKeeps(read: RecordReader, st: State)
    requires Sound(read) && Inv(read, st)
    ensures Inv(read, Apply(read, st, Rotate))
  {
    RotateSegs(read, st.segs);
    SumSnoc(SavedRows(read), st.segs, EMPTY_SEGMENT);
    EmptyRun(read, |st.segs|, [], 0);
    if st.worker.Running? {
      SumSnoc(PendingRows(read, st.worker.offsets), st.segs, EMPTY_SEGMENT);
    }
    assert Apply(read, st, Rotate) == st.(segs := st.segs + [EMPTY_SEGMENT]);
  }

  lemma RotateSegs(read: RecordReader, segs: seq<Segment>)
    requires Sound(read) && SegsOk(read, segs)
    ensures SegsOk(read, segs + [EMPTY_SEGMENT])
  {
    EmptyRun(read, 0, [], 0);
  }

  lemma {:induction false} DeleteKeeps(read: RecordReader, st: State, i: nat)
    requires Inv(read, st) && Enabled(read, st, DeleteSegment(i))
    ensures Inv(read, Apply(read, st, DeleteSegment(i)))
  {
    var t := st.segs[i].(onDisk := false);
    SumsIgnoreMarks(read, st.segs, i, t, map[]);
    ReplaceSegment(read, st.segs, i, t);
    assert Apply(read, st, DeleteSegment(i)) == State(st.segs[i := t], st.files, Idle);
  }

  lemma ReplaceSegment(read: RecordReader, segs: seq<Segment>, i: nat, t: Segment)
    requires SegsOk(read, segs) && i < |segs| && SegOk(read, t, i == |segs| - 1)
    ensures SegsOk(read, segs[i := t])
  {
  }

  /** Leaving segment `i` after changing its marks. */
  lemma LeaveRemarked(read: RecordReader, segs: seq<Segment>, w: Worker, i: nat, t: Segment)
    requires w.Running? && RunningOk(read, segs, w) && w.cursor.Reading? && w.cursor.seg == i && i < |segs|
    requires t.onDisk == segs[i].onDisk && (i in w.offsets ==> PendingOk(read, t, w.offsets[i]))
    ensures RunningOk(read, segs[i := t], w.(cursor := Between(i + 1)))
  {
  }

  lemma {:induction false} RemarkedKeeps(read: RecordReader, st: State, i: nat, t: Segment)
    requires Inv(read, st) && CanRun(st.worker) && st.worker.cursor.Reading? && st.worker.cursor.seg == i
    requires i < |st.segs|
    requires Remarked(read, st.segs[i], t) && t.onDisk == st.segs[i].onDisk && SegOk(read, t, i == |st.segs| - 1)
    requires i in st.worker.offsets ==> PendingOk(read, t, st.worker.offsets[i])
    ensures Inv(read, State(st.segs[i := t], st.files, st.worker.(cursor := Between(i + 1))))
  {
    SumsIgnoreMarks(read, st.segs, i, t, st.worker.offsets);
    ReplaceSegment(read, st.segs, i, t);
    LeaveRemarked(read, st.segs, st.worker, i, t);
  }

  lemma {:induction false} QuarantineKeeps(read: RecordReader, st: State)
    requires Sound(read) && Inv(read, st) && Enabled(read, st, Quarantine)
    ensures Inv(read, Apply(read, st, Quarantine))
  {
    var i := st.worker.cursor.seg;
    if st.segs[i].Full() { CleanIsNotCorrupt(read, st, i); }
    RemarkedKeeps(read, st, i, st.segs[i].(quarantined := true));
  }

  /** The reader meets nothing bad in a segment whose bytes are all whole records. */
  lemma CleanIsNotCorrupt(read: RecordReader, st: State, i: nat)
    requires Sound(read) && SegsOk(read, st.segs) && st.worker.Running? && RunningOk(read, st.segs, st.worker)
    requires st.worker.cursor.Reading? && st.worker.cursor.seg == i
    requires Runs(read, st.segs[i].bytes, 0, |st.segs[i].bytes|)
    ensures !read(st.segs[i].bytes, st.worker.cursor.pos).Corrupt?
  {
    var s, pos := st.segs[i], st.worker.cursor.pos;
    if i in st.worker.offsets {
      RunsConcat(read, i, s.bytes, 0, s.saved, pos);
    }
    RunsToValidEnd(read, i, s.bytes, pos);
    RunsToValidEnd(read, i, s.bytes, |s.bytes|);
    RunsSplit(read, i, s.bytes, 0, pos, |s.bytes|);
  }

  lemma {:induction false} FlagKeeps(read: RecordReader, st: State)
    requires Sound(read) && Inv(read, st) && Enabled(read, st, Flag)
    ensures Inv(read, Apply(read, st, Flag))
  {
    var w := st.worker;
    var i := w.cursor.seg;
    FlaggedIsRead(read, st.segs[i], i in w.offsets, w.cursor.start, w.cursor.pos);
    RemarkedKeeps(read, st, i, Flagged(st.segs[i]));
  }

  lemma FlaggedIsRead(read: RecordReader, s: Segment, pending: bool, start: nat, pos: nat)
    requires Sound(read) && SegOk(read, s, false)
    requires if pending then PendingOk(read, s, pos) && pos == |s.bytes| else pos == s.HighWater() && start == |s.bytes|
    requires !s.quarantined && Runs(read, s.bytes, start, pos)
    ensures pos == |s.bytes| && Runs(read, s.bytes, 0, |s.bytes|) && SegOk(read, Flagged(s), false)
    ensures pending ==> PendingOk(read, Flagged(s), pos)
  {
    RunsInside(read, s.bytes, 0, s.saved);
    if pending {
      RunsConcat(read, 0, s.bytes, 0, s.saved, pos);
    } else {
      RunsInside(read, s.bytes, 0, pos);
      ReachOrder(View(read, s.bytes), start, pos);
    }
  }

  // ----- The worker's memory

  lemma PendingOfNothing(read: RecordReader, segs: seq<Segment>)
    ensures Sum(PendingRows(read, map[]), segs) == multiset{}
  {
    SumEmpty(PendingRows(read, map[]), segs);
  }

  lemma BeginKeeps(read: RecordReader, st: State)
    requires Inv(read, st) && Enabled(read, st, Begin)
    ensures Inv(read, Apply(read, st, Begin))
  {
    PendingOfNothing(read, st.segs);
  }

  lemma {:induction false} OpenKeeps(read: RecordReader, st: State, i: nat)
    requires Sound(read) && Inv(read, st) && Enabled(read, st, Open(i))
    ensures Inv(read, Apply(read, st, Open(i)))
  {
    EmptyRun(read, i, st.segs[i].bytes, st.segs[i].HighWater());
  }

  lemma ReadPending(read: RecordReader, i: nat, s: Segment, pending: bool, pos: nat)
    requires Sound(read) && SegOk(read, s, s.quarantined || !s.Full()) && read(s.bytes, pos).Record?
    requires if pending then PendingOk(read, s, pos) else pos == s.HighWater()
    ensures var r := read(s.bytes, pos);
      && PendingOk(read, s, r.end)
      && RowsOf(read, i, s.bytes, s.saved, r.end)
         == (if pending then RowsOf(read, i, s.bytes, s.saved, pos) else []) + RecRows(i)(Rec(pos, r.end, r.payload))
  {
    var r := read(s.bytes, pos);
    OneRecord(read, i, s.bytes, pos);
    assert pos < |s.bytes|;
    if pending {
      RunsConcat(read, i, s.bytes, s.saved, pos, r.end);
    }
  }

  /** The worker's memory after the record at the cursor has been taken. */
  function AfterRecord(w: Worker, end: nat, added: seq<Row>): Worker
    requires w.Running? && w.cursor.Reading?
  {
    w.(rows := w.rows + added, offsets := w.offsets[w.cursor.seg := end], cursor := w.cursor.(pos := end))
  }

  lemma ReadRunning(read: RecordReader, segs: seq<Segment>, w: Worker, added: seq<Row>)
    requires Sound(read) && SegsOk(read, segs) && w.Running? && RunningOk(read, segs, w) && w.cursor.Reading?
    requires read(segs[w.cursor.seg].bytes, w.cursor.pos).Record?
    ensures RunningOk(read, segs, AfterRecord(w, read(segs[w.cursor.seg].bytes, w.cursor.pos).end, added))
  {
    var i, pos := w.cursor.seg, w.cursor.pos;
    var s := segs[i];
    ReadPending(read, i, s, i in w.offsets, pos);
    OneRecord(read, i, s.bytes, pos);
    RunsConcat(read, i, s.bytes, w.cursor.start, pos, read(s.bytes, pos).end);
  }

  lemma {:induction false} ReadKeeps(read: RecordReader, st: State)
    requires Sound(read) && Inv(read, st) && Enabled(read, st, Read)
    ensures Inv(read, Apply(read, st, Read))
  {
    var w := st.worker;
    var i, pos := w.cursor.seg, w.cursor.pos;
    var r := read(st.segs[i].bytes, pos);
    var added := RecRows(i)(Rec(pos, r.end, r.payload));
    ReadRunning(read, st.segs, w, added);
    ReadPending(read, i, st.segs[i], i in w.offsets, pos);
    PendingGrows(read, st.segs, w.offsets, i, r.end, added);
    assert multiset(w.rows + added) == multiset(w.rows) + multiset(added);
    assert Apply(read, st, Read) == st.(worker := AfterRecord(w, r.end, added));
  }

  lemma PendingGrows(read: RecordReader, segs: seq<Segment>, offsets: map<nat, nat>, i: nat, end: nat, added: seq<Row>)
    requires i < |segs|
    requires RowsOf(read, i, segs[i].bytes, segs[i].saved, end)
             == (if i in offsets then RowsOf(read, i, segs[i].bytes, segs[i].saved, offsets[i]) else []) + added
    ensures Sum(PendingRows(read, offsets[i := end]), segs) == Sum(PendingRows(read, offsets), segs) + multiset(added)
  {
    SumAdds(PendingRows(read, offsets), Share(i, multiset(added)), PendingRows(read, offsets[i := end]), segs, segs);
    SumOfOne(segs, i, multiset(added));
  }

  function Share<T>(i: nat, m: multiset<Row>): (nat, T) -> multiset<Row> {
    (k: nat, s: T) => if k == i then m else multiset{}
  }

  lemma {:induction false} SumOfOne<T>(xs: seq<T>, i: nat, m: multiset<Row>)
    requires i < |xs|
    ensures Sum(Share(i, m), xs) == m
  {
    var n := |xs| - 1;
    if i == n {
      SumEmpty(Share(i, m), xs[..n]);
      assert Sum(Share(i, m), xs) == multiset{} + m;
    } else {
      SumOfOne(xs[..n], i, m);
    }
  }

  lemma {:induction false} LeaveKeeps(read: RecordReader, st: State)
    requires Inv(read, st) && Enabled(read, st, Leave)
    ensures Inv(read, Apply(read, st, Leave))
  {
  }

  // ----- Files

  lemma FileSame(files: seq<ParquetFile>, f: nat, g: ParquetFile)
    requires f < |files| && FileRows(f, files[f]) == FileRows(f, g)
    ensures Visible(files[f := g]) == Visible(files)
  {
    SumAgrees(FileRows, FileRows, files[f := g], files);
  }

  lemma FileAdded(files: seq<ParquetFile>, g: ParquetFile)
    ensures Visible(files + [g]) == Visible(files) + FileRows(|files|, g)
  {
    SumSnoc(FileRows, files, g);
  }

  lemma RemoveOrphanKeeps(read: RecordReader, st: State, f: nat)
    requires Inv(read, st) && Enabled(read, st, RemoveOrphan(f))
    ensures Inv(read, Apply(read, st, RemoveOrphan(f)))
    ensures Visible(Apply(read, st, RemoveOrphan(f)).files) == Visible(st.files)
  {
    FileSame(st.files, f, st.files[f].(content := Absent));
  }

  lemma NewFlight(files: seq<ParquetFile>, w: Worker)
    requires FilesOk(files) && w.Running? && w.rows != []
    ensures var more := files + [ParquetFile(Temp([]), Unlisted, false)];
      FilesOk(more) && FlightOk(more, w.(flight := Some(|files|))) && Visible(more) == Visible(files)
  {
    FileAdded(files, ParquetFile(Temp([]), Unlisted, false));
  }

  lemma CreateTempKeeps(read: RecordReader, st: State)
    requires Inv(read, st) && Enabled(read, st, CreateTemp)
    ensures Inv(read, Apply(read, st, CreateTemp))
    ensures Visible(Apply(read, st, CreateTemp).files) == Visible(st.files)
  {
    var w := st.worker.(flight := Some(|st.files|));
    NewFlight(st.files, st.worker);
    assert RunningOk(read, st.segs, w);
    assert Apply(read, st, CreateTemp)
        == st.(files := st.files + [ParquetFile(Temp([]), Unlisted, false)], worker := w);
  }

  /** Writing or renaming the file in flight. */
  lemma FlightFile(files: seq<ParquetFile>, w: Worker, g: ParquetFile)
    requires w.Running? && FlightOk(files, w) && w.flight.Some? && FilesOk(files)
    requires g.entry.Unlisted? && (g.content.Temp? || g.content == Final(w.rows))
    ensures FlightOk(files[w.flight.value := g], w) && FilesOk(files[w.flight.value := g])
    ensures Visible(files[w.flight.value := g]) == Visible(files)
  {
    FileSame(files, w.flight.value, g);
  }

  lemma {:induction false} FlightKeeps(read: RecordReader, st: State, step: Step)
    requires Inv(read, st) && Enabled(read, st, step) && (step.FillTemp? || step.Rename?)
    ensures Inv(read, Apply(read, st, step))
    ensures Visible(Apply(read, st, step).files) == Visible(st.files)
  {
    var w := st.worker;
    FlightFile(st.files, w,
        st.files[w.flight.value].(content := if step.FillTemp? then Temp(w.rows) else Final(w.rows)));
  }

  lemma CommittedSegment(read: RecordReader, i: nat, s: Segment, offset: nat, last: bool)
    requires Sound(read) && SegOk(read, s, last) && PendingOk(read, s, offset)
    ensures SegOk(read, Marked(s, offset), last)
    ensures Marked(s, offset).HighWater() == offset
    ensures SavedRows(read)(i, Marked(s, offset))
        == SavedRows(read)(i, s) + multiset(RowsOf(read, i, s.bytes, s.saved, offset))
  {
    RunsConcat(read, i, s.bytes, 0, s.saved, offset);
    ReachOrder(View(read, s.bytes), s.saved, offset);
    var a, b := RowsOf(read, i, s.bytes, 0, s.saved), RowsOf(read, i, s.bytes, s.saved, offset);
    assert multiset(a + b) == multiset(a) + multiset(b);
  }

  lemma {:induction false} CommitSegs(read: RecordReader, segs: seq<Segment>, w: Worker)
    requires Sound(read) && SegsOk(read, segs) && w.Running? && RunningOk(read, segs, w)
    ensures SegsOk(read, MarkAll(segs, w.offsets))
    ensures Sum(SavedRows(read), MarkAll(segs, w.offsets))
        == Sum(SavedRows(read), segs) + Sum(PendingRows(read, w.offsets), segs)
  {
    forall i | 0 <= i < |segs|
      ensures SegOk(read, MarkAll(segs, w.offsets)[i], i == |segs| - 1)
      ensures SavedRows(read)(i, MarkAll(segs, w.offsets)[i])
          == SavedRows(read)(i, segs[i]) + PendingRows(read, w.offsets)(i, segs[i])
    {
      if i in w.offsets { CommittedSegment(read, i, segs[i], w.offsets[i], i == |segs| - 1); }
    }
    SumAdds(SavedRows(read), PendingRows(read, w.offsets), SavedRows(read), segs, MarkAll(segs, w.offsets));
  }

  lemma CommitCursor(read: RecordReader, segs: seq<Segment>, w: Worker, w': Worker)
    requires Sound(read) && SegsOk(read, segs) && w.Running? && RunningOk(read, segs, w)
    requires w' == w.(rows := [], offsets := map[], flight := None)
    ensures RunningOk(read, MarkAll(segs, w.offsets), w')
  {
    if w.cursor.Reading? {
      var i := w.cursor.seg;
      if i in w.offsets { CommittedSegment(read, i, segs[i], w.offsets[i], i == |segs| - 1); }
    }
  }

  lemma CommittedIsVisible(files: seq<ParquetFile>, f: nat, g: ParquetFile)
    requires f < |files| && !files[f].entry.Committed? && g.Visible()
    ensures Visible(files[f := g]) == Visible(files) + multiset(g.content.rows)
  {
    SumUpdate(FileRows, files, f, g);
    assert FileRows(f, files[f]) == multiset{};
    assert Visible(files[f := g]) + multiset{} == Visible(files) + multiset(g.content.rows);
  }

  /** The commit makes exactly the batch visible. */
  lemma {:induction false} CommitKeeps(read: RecordReader, st: State)
    requires Sound(read) && Inv(read, st) && Enabled(read, st, Commit)
    ensures Inv(read, Apply(read, st, Commit))
    ensures Visible(Apply(read, st, Commit).files) == Visible(st.files) + multiset(st.worker.rows)
  {
    var w := st.worker;
    var f := w.flight.value;
    var g := st.files[f].(entry := Committed(|w.rows|));
    var w' := w.(rows := [], offsets := map[], flight := None);
    CommitSegs(read, st.segs, w);
    CommitCursor(read, st.segs, w, w');
    CommittedIsVisible(st.files, f, g);
    PendingOfNothing(read, MarkAll(st.segs, w.offsets));
    assert FilesOk(st.files[f := g]);
    assert Apply(read, st, Commit) == State(MarkAll(st.segs, w.offsets), st.files[f := g], w');
  }

  // ----- Compaction

  lemma {:induction false} JoinedSame(files: seq<ParquetFile>, other: seq<ParquetFile>, chosen: seq<nat>)
    requires AllFinal(files, chosen) && |files| <= |other|
    requires forall k :: 0 <= k < |chosen| ==> other[chosen[k]] == files[chosen[k]]
    ensures AllFinal(other, chosen)
    ensures Joined(files, chosen) == Joined(other, chosen)
  {
    if chosen != [] { JoinedSame(files, other, chosen[..|chosen| - 1]); }
  }

  lemma BeginMergeKeeps(read: RecordReader, st: State, chosen: seq<nat>)
    requires Inv(read, st) && Enabled(read, st, BeginMerge(chosen))
    ensures Inv(read, Apply(read, st, BeginMerge(chosen)))
    ensures Visible(Apply(read, st, BeginMerge(chosen)).files) == Visible(st.files)
  {
    FileAdded(st.files, ParquetFile(Temp([]), Unlisted, true));
  }

  /** Writing to the merge target leaves the sources, and what they hold together, alone. */
  lemma MergeTarget(files: seq<ParquetFile>, w: Worker, g: ParquetFile)
    requires w.Merging? && MergingOk(files, w) && FilesOk(files) && g.entry.Unlisted?
    ensures var other := files[w.file := g];
      && FilesOk(other) && Visible(other) == Visible(files)
      && AllFinal(other, w.chosen) && AllCommitted(other, w.chosen)
      && Joined(other, w.chosen) == Joined(files, w.chosen)
  {
    FileSame(files, w.file, g);
    JoinedSame(files, files[w.file := g], w.chosen);
  }

  lemma {:induction false} CopyKeeps(read: RecordReader, st: State)
    requires Inv(read, st) && Enabled(read, st, CopyNext)
    ensures Inv(read, Apply(read, st, CopyNext))
    ensures Visible(Apply(read, st, CopyNext).files) == Visible(st.files)
  {
    var w := st.worker;
    var f := st.files[w.file];
    var g := f.(content := Temp(f.content.rows + st.files[w.chosen[w.copied]].content.rows));
    MergeTarget(st.files, w, g);
    var next := w.chosen[..w.copied + 1];
    assert next[..w.copied] == w.chosen[..w.copied];
    JoinedSame(st.files, st.files[w.file := g], next);
  }

  lemma {:induction false} RenameMergedKeeps(read: RecordReader, st: State)
    requires Inv(read, st) && Enabled(read, st, RenameMerged)
    ensures Inv(read, Apply(read, st, RenameMerged))
    ensures Visible(Apply(read, st, RenameMerged).files) == Visible(st.files)
  {
    var w := st.worker;
    MergeTarget(st.files, w, st.files[w.file].(content := Final(st.files[w.file].content.rows)));
    assert w.chosen[..w.copied] == w.chosen;
  }

  lemma {:induction false} AbortKeeps(read: RecordReader, st: State)
    requires Inv(read, st) && Enabled(read, st, AbortMerge)
    ensures Inv(read, Apply(read, st, AbortMerge))
    ensures Visible(Apply(read, st, AbortMerge).files) == Visible(st.files)
  {
    FileSame(st.files, st.worker.file, Apply(read, st, AbortMerge).files[st.worker.file]);
  }

  function ChosenRows(chosen: seq<nat>): (nat, ParquetFile) -> multiset<Row> {
    (i: nat, f: ParquetFile) => if i in chosen && f.content.Final? then multiset(f.content.rows) else multiset{}
  }

  lemma ChosenLast(chosen: seq<nat>)
    requires Distinct(chosen) && chosen != []
    ensures var n := |chosen| - 1; chosen[n] !in chosen[..n]
    ensures var n := |chosen| - 1; forall i :: i in chosen <==> i == chosen[n] || i in chosen[..n]
  {
    var n := |chosen| - 1;
    assert chosen == chosen[..n] + [chosen[n]];
  }

  lemma {:induction false} ChosenAreJoined(files: seq<ParquetFile>, chosen: seq<nat>)
    requires Distinct(chosen) && AllFinal(files, chosen)
    ensures Sum(ChosenRows(chosen), files) == multiset(Joined(files, chosen))
  {
    if chosen == [] {
      SumEmpty(ChosenRows(chosen), files);
    } else {
      var n := |chosen| - 1;
      var c, init := chosen[n], chosen[..n];
      var rows := files[c].content.rows;
      ChosenAreJoined(files, init);
      ChosenLast(chosen);
      SumAdds(ChosenRows(init), Share(c, multiset(rows)), ChosenRows(chosen), files, files);
      SumOfOne(files, c, multiset(rows));
      assert multiset(Joined(files, init) + rows) == multiset(Joined(files, init)) + multiset(rows);
    }
  }

  /** Retiring distinct visible files takes exactly their rows out of sight. */
  lemma RetireRemoves(files: seq<ParquetFile>, chosen: seq<nat>)
    requires Distinct(chosen) && AllFinal(files, chosen) && AllCommitted(files, chosen)
    ensures Visible(Retire(files, chosen)) + multiset(Joined(files, chosen)) == Visible(files)
  {
    ChosenAreJoined(files, chosen);
    forall i | 0 <= i < |files|
      ensures FileRows(i, files[i])
          == FileRows(i, Retire(files, chosen)[i]) + ChosenRows(chosen)(i, Retire(files, chosen)[i])
    {
    }
    SumAdds(FileRows, ChosenRows(chosen), FileRows, Retire(files, chosen), files);
    SumAgrees(ChosenRows(chosen), ChosenRows(chosen), Retire(files, chosen), files);
  }

  lemma CommitMergeFiles(files: seq<ParquetFile>, w: Worker, g: ParquetFile)
    requires w.Merging? && MergingOk(files, w) && FilesOk(files) && files[w.file].content.Final?
    requires g == files[w.file].(entry := Committed(|files[w.file].content.rows|))
    ensures FilesOk(Retire(files[w.file := g], w.chosen))
    ensures Visible(Retire(files[w.file := g], w.chosen)) == Visible(files)
  {
    var merged := files[w.file := g];
    JoinedSame(files, merged, w.chosen);
    RetireRemoves(merged, w.chosen);
    CommittedIsVisible(files, w.file, g);
    Cancel(Visible(Retire(merged, w.chosen)), Visible(files), multiset(g.content.rows));
  }

  lemma Cancel(a: multiset<Row>, b: multiset<Row>, c: multiset<Row>)
    requires a + c == b + c
    ensures a == b
  {
    forall x ensures a[x] == b[x] { assert (a + c)[x] == (b + c)[x]; }
  }

  lemma {:induction false} CommitMergeKeeps(read: RecordReader, st: State)
    requires Inv(read, st) && Enabled(read, st, CommitMerge)
    ensures Inv(read, Apply(read, st, CommitMerge))
    ensures Visible(Apply(read, st, CommitMerge).files) == Visible(st.files)
  {
    var w := st.worker;
    CommitMergeFiles(st.files, w, st.files[w.file].(entry := Committed(|st.files[w.file].content.rows|)));
  }

  lemma {:induction false} UnlinkKeeps(read: RecordReader, st: State, ok: bool)
    requires Inv(read, st) && Enabled(read, st, UnlinkNext(ok))
    ensures Inv(read, Apply(read, st, UnlinkNext(ok)))
    ensures Visible(Apply(read, st, UnlinkNext(ok)).files) == Visible(st.files)
  {
    var f := st.worker.chosen[st.worker.done];
    FileSame(st.files, f, st.files[f].(content := Absent));
  }

  // ----- Every step

  /** The steps that change files only: orphan removal and compaction. */
  predicate FileStep(step: Step) {
    || step.RemoveOrphan? || step.BeginMerge? || step.CopyNext? || step.RenameMerged? || step.CommitMerge?
    || step.AbortMerge? || step.UnlinkNext? || step.EndMerge?
  }

  lemma {:induction false} FileStepKeepsInv(read: RecordReader, st: State, step: Step)
    requires Inv(read, st) && Enabled(read, st, step) && FileStep(step)
    ensures Inv(read, Apply(read, st, step))
  {
    match step
    case RemoveOrphan(f) => RemoveOrphanKeeps(read, st, f);
    case BeginMerge(chosen) => BeginMergeKeeps(read, st, chosen);
    case CopyNext => CopyKeeps(read, st);
    case RenameMerged => RenameMergedKeeps(read, st);
    case CommitMerge => CommitMergeKeeps(read, st);
    case AbortMerge => AbortKeeps(read, st);
    case UnlinkNext(ok) => UnlinkKeeps(read, st, ok);
    case EndMerge =>
  }

  lemma {:induction false} ReadingStepKeepsInv(read: RecordReader, st: State, step: Step)
    requires Sound(read) && Inv(read, st) && Enabled(read, st, step) && !FileStep(step)
    ensures Inv(read, Apply(read, st, step))
  {
    match step
    case Append(x) => AppendKeeps(read, st, x);
    case Rotate => RotateKeeps(read, st);
    case Begin => BeginKeeps(read, st);
    case Open(i) => OpenKeeps(read, st, i);
    case Read => ReadKeeps(read, st);
    case CreateTemp => CreateTempKeeps(read, st);
    case FillTemp => FlightKeeps(read, st, step);
    case Rename => FlightKeeps(read, st, step);
    case Commit => CommitKeeps(read, st);
    case Flag => FlagKeeps(read, st);
    case Leave => LeaveKeeps(read, st);
    case Quarantine => QuarantineKeeps(read, st);
    case End =>
    case DeleteSegment(i) => DeleteKeeps(read, st, i);
    case Crash =>
  }

  lemma {:induction false} StepKeepsInv(read: RecordReader, st: State, step: Step)
    requires Sound(read) && Inv(read, st) && Enabled(read, st, step)
    ensures Inv(read, Apply(read, st, step))
  {
    if FileStep(step) { FileStepKeepsInv(read, st, step); } else { ReadingStepKeepsInv(read, st, step); }
  }

  lemma {:induction false} RunKeepsInv(read: RecordReader, st: State, steps: seq<Step>)
    requires Sound(read) && Inv(read, st) && Run(read, st, steps).Some?
    ensures Inv(read, Run(read, st, steps).value)
  {
    if steps != [] {
      var init := steps[..|steps| - 1];
      RunKeepsInv(read, st, init);
      StepKeepsInv(read, Run(read, st, init).value, steps[|steps| - 1]);
    }
  }
}
