/** The worker's operations as they run: each change of disk, manifest or memory is an enabled
    step of the storage machine, so what holds of its runs holds at every point of these methods. */
module Materializer {
  import opened Basics
  import opened Crc32
  import opened Folds
  import opened Streams
  import opened SegmentRows
  import opened Sums
  import opened StorageModel
  import opened StorageInvariant
  import opened StorageTheorems
  import opened StorageRecovery
  import opened Compaction
  import opened RunPlan

  /** What flushes since then have done to a segment that was not being read: nothing, or they
      moved its pending offset into its mark. */
  ghost predicate Carried(s: Segment, was: Option<nat>, t: Segment, now: Option<nat>) {
    || (t == s && now == was)
    || (now.None? && t == if was.Some? then Marked(s, was.value) else s)
  }

  function Lookup(offsets: map<nat, nat>, i: nat): Option<nat> {
    if i in offsets then Some(offsets[i]) else None
  }

  /** The offset that a segment has reached, as far as rows are visible or in the batch. */
  function HeldAt(s: Segment, pending: Option<nat>): nat {
    if pending.Some? then pending.value else s.saved
  }

  /** Every row the segment can yield is visible or in the batch. */
  ghost predicate Drained(read: RecordReader, i: nat, s: Segment, pending: Option<nat>) {
    RowsOf(read, i, s.bytes, HeldAt(s, pending), ValidEnd(read, s.bytes)) == []
  }

  /** From index `k` on all rows come from one record. */
  predicate OneRecordFrom(rows: seq<Row>, k: nat) {
    forall j :: k <= j < |rows| ==>
      rows[j].source == rows[|rows| - 1].source && rows[j].offset == rows[|rows| - 1].offset
  }

  /** Without the rows of one record, its last, the file holds fewer than `size` rows. */
  ghost predicate OneRecordOver(rows: seq<Row>, size: nat) {
    exists k: nat :: k <= |rows| && k < size && OneRecordFrom(rows, k)
  }

  /** The files from index `from` on are committed flushes, each at most one record over the batch size. */
  ghost predicate FlushedWithin(files: seq<ParquetFile>, from: nat, size: nat) {
    forall f :: from <= f < |files| ==> files[f].Visible() && OneRecordOver(files[f].content.rows, size)
  }

  /** What flushing may have changed, except in segment `i`,
      since the segments and pending offsets were `was` and `pending`. */
  ghost predicate OthersCarried(was: seq<Segment>, pending: map<nat, nat>, i: nat, now: seq<Segment>,
                                offsets: map<nat, nat>) {
    && |now| == |was|
    && forall j :: 0 <= j < |now| && j != i ==> Carried(was[j], Lookup(pending, j), now[j], Lookup(offsets, j))
  }

  lemma CarriedOn(a: seq<Segment>, oa: map<nat, nat>, b: seq<Segment>, ob: map<nat, nat>, c: seq<Segment>,
                  oc: map<nat, nat>, i: nat)
    requires OthersCarried(a, oa, i, b, ob) && OthersCarried(b, ob, i, c, oc)
    ensures OthersCarried(a, oa, i, c, oc)
  {
    forall j | 0 <= j < |c| && j != i ensures Carried(a[j], Lookup(oa, j), c[j], Lookup(oc, j)) {
      assert Carried(a[j], Lookup(oa, j), b[j], Lookup(ob, j)) && Carried(b[j], Lookup(ob, j), c[j], Lookup(oc, j));
    }
  }

  /** Flushing leaves the flags of the other segments alone. */
  lemma FlagsCarried(was: seq<Segment>, pending: map<nat, nat>, now: seq<Segment>, offsets: map<nat, nat>, i: nat)
    requires OthersCarried(was, pending, i, now, offsets)
    ensures forall j :: 0 <= j < |now| && j != i ==>
              now[j].Full() == was[j].Full() && now[j].quarantined == was[j].quarantined
  {
    forall j | 0 <= j < |now| && j != i
      ensures now[j].Full() == was[j].Full() && now[j].quarantined == was[j].quarantined
    {
      assert Carried(was[j], Lookup(pending, j), now[j], Lookup(offsets, j));
    }
  }

  /** Segment `s` still has its file and flags, and its mark stands where its rows were saved. */
  predicate StillOpen(s: Segment, t: Segment) {
    && t.bytes == s.bytes && t.onDisk == s.onDisk && t.quarantined == s.quarantined && t.Full() == s.Full()
    && t.HighWater() == t.saved
  }

  /** New files since `was`: committed flushes of at most one record over the batch size, `grown` rows in all. */
  ghost predicate FlushedSince(was: seq<ParquetFile>, now: seq<ParquetFile>, size: nat, grown: int) {
    && was <= now && FlushedWithin(now, |was|, size)
    && |Visible(now)| == |Visible(was)| + grown
  }

  lemma FlushedOn(a: seq<ParquetFile>, b: seq<ParquetFile>, c: seq<ParquetFile>, size: nat, m: int, n: int)
    requires FlushedSince(a, b, size, m) && FlushedSince(b, c, size, n)
    ensures FlushedSince(a, c, size, m + n)
  {
    forall f | |a| <= f < |c| ensures c[f].Visible() && OneRecordOver(c[f].content.rows, size) {
      if f < |b| { assert c[f] == b[f]; }
    }
  }

  /** What has happened since the reading of segment `i` began: `m` rows visible, `flushes` full batches written. */
  ghost predicate Progress(s0: seq<Segment>, o0: map<nat, nat>, f0: seq<ParquetFile>, s: seq<Segment>, o: map<nat, nat>,
                           f: seq<ParquetFile>, i: nat, size: nat, m: int, flushes: nat) {
    && i < |s0| && OthersCarried(s0, o0, i, s, o) && StillOpen(s0[i], s[i])
    && FlushedSince(f0, f, size, m)
    && |f| == |f0| + flushes && m >= Batches(flushes, size)
  }

  /** One more record processed: what held since the start of the segment still holds. */
  lemma ProgressOn(
    s0: seq<Segment>, o0: map<nat, nat>, f0: seq<ParquetFile>,
    s1: seq<Segment>, o1: map<nat, nat>, f1: seq<ParquetFile>,
    s2: seq<Segment>, o2: map<nat, nat>, f2: seq<ParquetFile>, i: nat, size: nat,
    m: int, n: int, flushes: nat, more: nat)
    requires Progress(s0, o0, f0, s1, o1, f1, i, size, m, flushes)
    requires Progress(s1, o1, f1, s2, o2, f2, i, size, n, more)
    ensures Progress(s0, o0, f0, s2, o2, f2, i, size, m + n, flushes + more)
  {
    CarriedOn(s0, o0, s1, o1, s2, o2, i);
    FlushedOn(f0, f1, f2, size, m, n);
    BatchesAdd(flushes, more, size);
  }

  lemma FlushedOne(files: seq<ParquetFile>, rows: seq<Row>, size: nat)
    requires OneRecordOver(rows, size)
    ensures FlushedSince(files, files + [ParquetFile(Final(rows), Committed(|rows|), false)], size, |rows|)
  {
    VisibleAppend(files, rows);
  }

  lemma BatchAndRecord(rows: seq<Row>, more: seq<Row>, source: nat, offset: nat, size: nat)
    requires |rows| < size && |rows| <= |more|
    requires forall j :: |rows| <= j < |more| ==> more[j].source == source && more[j].offset == offset
    ensures OneRecordOver(more, size)
  {
    assert OneRecordFrom(more, |rows|);
  }

  lemma SmallBatch(rows: seq<Row>, size: nat)
    requires |rows| < size
    ensures OneRecordOver(rows, size)
  {
    assert OneRecordFrom(rows, |rows|);
  }

  /** The rows of `k` full batches. */
  function Batches(k: nat, size: nat): nat {
    if k == 0 then 0 else Batches(k - 1, size) + size
  }

  lemma {:induction false} BatchesProduct(k: nat, size: nat)
    ensures Batches(k, size) == k * size
  {
    if k > 0 { BatchesProduct(k - 1, size); }
  }

  lemma {:induction false} BatchesAdd(j: nat, k: nat, size: nat)
    ensures Batches(j + k, size) == Batches(j, size) + Batches(k, size)
  {
    if k > 0 { BatchesAdd(j, k - 1, size); }
  }

  lemma VisibleAppend(files: seq<ParquetFile>, rows: seq<Row>)
    ensures Visible(files + [ParquetFile(Final(rows), Committed(|rows|), false)]) == Visible(files) + multiset(rows)
  {
    FileAdded(files, ParquetFile(Final(rows), Committed(|rows|), false));
  }

  /** A segment that a run would open holds nothing unread; any other is as it was. */
  ghost predicate Settled(read: RecordReader, j: nat, was: Segment, now: Segment, pending: Option<nat>) {
    && now.bytes == was.bytes && now.onDisk == was.onDisk
    && if was.onDisk && !was.quarantined && was.HighWater() == was.saved then Drained(read, j, now, pending)
       else now == was && pending.None?
  }

  /** The segments before `i` are settled, those from `i` are untouched. */
  ghost predicate SettledUpTo(read: RecordReader, was: seq<Segment>, i: nat, now: seq<Segment>,
                              offsets: map<nat, nat>) {
    && |now| == |was| && i <= |was|
    && (forall j :: 0 <= j < i ==> Settled(read, j, was[j], now[j], Lookup(offsets, j)))
    && (forall j :: i <= j < |now| ==> now[j] == was[j] && j !in offsets)
  }

  lemma SettledOn(read: RecordReader, was: seq<Segment>, i: nat, s: seq<Segment>, o: map<nat, nat>, t: seq<Segment>,
                  p: map<nat, nat>)
    requires SettledUpTo(read, was, i, s, o) && OthersCarried(s, o, i, t, p)
    requires i < |was| && !was[i].quarantined && Settled(read, i, was[i], t[i], Lookup(p, i))
    ensures SettledUpTo(read, was, i + 1, t, p)
    ensures |NewlyQuarantined(was, t, i + 1)| == |NewlyQuarantined(was, s, i)| + (if t[i].quarantined then 1 else 0)
  {
    forall j | 0 <= j < |s| && j != i
      ensures t[j].quarantined == s[j].quarantined
      ensures j < i ==> Settled(read, j, was[j], t[j], Lookup(p, j))
      ensures j > i ==> t[j] == was[j] && j !in p
    {
      assert Carried(s[j], Lookup(o, j), t[j], Lookup(p, j));
    }
    QuarantinedOn(was, s, t, i);
  }

  lemma SettledByFlush(read: RecordReader, was: seq<Segment>, s: seq<Segment>, o: map<nat, nat>)
    requires |was| == |s| && forall j :: 0 <= j < |s| ==> Settled(read, j, was[j], s[j], Lookup(o, j))
    ensures forall j :: 0 <= j < |s| ==> Settled(read, j, was[j], MarkAll(s, o)[j], None)
  {
    forall j | 0 <= j < |s| ensures Settled(read, j, was[j], MarkAll(s, o)[j], None) {
      assert Settled(read, j, was[j], s[j], Lookup(o, j));
    }
  }

  /** A segment that the run skips has nothing left to read. */
  lemma SkippedIsSettled(read: RecordReader, j: nat, s: Segment, last: bool)
    requires Sound(read) && SegOk(read, s, last)
    requires !s.onDisk || s.quarantined || Skipped(s)
    ensures Settled(read, j, s, s, None)
  {
    if s.onDisk && !s.quarantined && s.HighWater() == s.saved {
      RunsToValidEnd(read, j, s.bytes, s.saved);
      EmptyRun(read, j, s.bytes, s.saved);
    }
  }

  /** When the batch is empty, pending offsets can be dropped. */
  lemma DropPending(read: RecordReader, st: State, j: nat, was: Segment)
    requires Sound(read) && Inv(read, st) && st.worker.Running? && st.worker.rows == [] && j < |st.segs|
    requires Settled(read, j, was, st.segs[j], Lookup(st.worker.offsets, j))
    ensures Settled(read, j, was, st.segs[j], None)
  {
    var s, held := st.segs[j], Held(st, j);
    if j in st.worker.offsets {
      HeldRuns(read, st, j);
      SumContains(PendingRows(read, st.worker.offsets), st.segs, j);
      EmptyMultiset(RowsOf(read, j, s.bytes, s.saved, held));
      RunsToValidEnd(read, j, s.bytes, held);
      RunsConcat(read, j, s.bytes, s.saved, held, ValidEnd(read, s.bytes));
    }
  }

  /** If nothing was unread before a run, nothing new is visible after it. */
  lemma QuietRun(read: RecordReader, before: State, after: State)
    requires Sound(read) && Inv(read, before) && Inv(read, after) && FullyRead(read, before)
    requires |before.segs| == |after.segs|
    requires forall j :: 0 <= j < |after.segs| ==> Settled(read, j, before.segs[j], after.segs[j], None)
    ensures Visible(after.files) == Visible(before.files)
  {
    forall j | 0 <= j < |after.segs| ensures SavedRows(read)(j, before.segs[j]) == SavedRows(read)(j, after.segs[j]) {
      var s, t := before.segs[j], after.segs[j];
      if s.onDisk && !s.quarantined && s.HighWater() == s.saved {
        RunsToValidEnd(read, j, s.bytes, s.saved);
        RunsToValidEnd(read, j, t.bytes, t.saved);
        var x, y := RowsOf(read, j, s.bytes, 0, s.saved), RowsOf(read, j, t.bytes, 0, t.saved);
        assert x + [] == x && y + [] == y;
      }
    }
    SumAgrees(SavedRows(read), SavedRows(read), before.segs, after.segs);
  }

  lemma AllSettled(read: RecordReader, was: seq<Segment>, st: State)
    requires |was| == |st.segs| && forall j :: 0 <= j < |was| ==> Settled(read, j, was[j], st.segs[j], None)
    ensures FullyRead(read, st)
  {
  }

  /** The segments that `now` lists as quarantined and `was` does not. */
  function NewlyQuarantined(was: seq<Segment>, now: seq<Segment>, n: nat): set<nat>
    requires n <= |was| && n <= |now|
  {
    set j: nat | j < n && now[j].quarantined && !was[j].quarantined
  }

  lemma QuarantinedOn(was: seq<Segment>, now: seq<Segment>, later: seq<Segment>, i: nat)
    requires i < |was| == |now| == |later| && !was[i].quarantined
    requires forall j :: 0 <= j < i ==> later[j].quarantined == now[j].quarantined
    ensures |NewlyQuarantined(was, later, i + 1)|
        == |NewlyQuarantined(was, now, i)| + (if later[i].quarantined then 1 else 0)
  {
    assert NewlyQuarantined(was, later, i + 1)
           == NewlyQuarantined(was, now, i) + (if later[i].quarantined then {i} else {});
  }

  lemma FlagStep(read: RecordReader, st: State, i: nat, segs: seq<Segment>, w: Worker)
    requires CanRun(st.worker) && st.worker.cursor.Reading? && st.worker.cursor.seg == i && i < st.worker.active
    requires i < |st.segs| && read(st.segs[i].bytes, st.worker.cursor.pos).EndOfFile?
    requires |st.segs[i].bytes| == Reached(st.worker, i, st.worker.cursor.start)
    requires segs == st.segs[i := Flagged(st.segs[i])] && w == st.worker.(cursor := Between(i + 1))
    ensures Enabled(read, st, Flag) && Apply(read, st, Flag) == State(segs, st.files, w)
  {
  }

  lemma QuarantineStep(read: RecordReader, st: State, i: nat, segs: seq<Segment>, w: Worker)
    requires CanRun(st.worker) && st.worker.rows == [] && st.worker.cursor.Reading? && st.worker.cursor.seg == i
    requires i < |st.segs| && read(st.segs[i].bytes, st.worker.cursor.pos).Corrupt?
    requires segs == st.segs[i := st.segs[i].(quarantined := true)] && w == st.worker.(cursor := Between(i + 1))
    ensures Enabled(read, st, Quarantine) && Apply(read, st, Quarantine) == State(segs, st.files, w)
  {
  }

  /** The files written and the rows made visible since `clean`, over the segments before `i`. */
  ghost predicate Counted(table: seq<Segment>, clean: seq<ParquetFile>, segs: seq<Segment>, files: seq<ParquetFile>,
                          total: nat, flushes: nat, i: nat, size: nat) {
    && i <= |table| == |segs| && total >= Batches(flushes, size)
    && |files| <= |clean| + flushes + |NewlyQuarantined(table, segs, i)|
    && FlushedSince(clean, files, size, total)
  }

  lemma CountedOn(table: seq<Segment>, clean: seq<ParquetFile>, s: seq<Segment>, f: seq<ParquetFile>, t: seq<Segment>,
                  g: seq<ParquetFile>,
                  total: nat, sum: nat, flushes: nat, more: nat, i: nat, size: nat)
    requires Counted(table, clean, s, f, total, flushes, i, size) && i < |table| == |t|
    requires FlushedSince(f, g, size, sum - total) && sum - total >= Batches(more, size)
    requires |g| <= |f| + more + (if t[i].quarantined then 1 else 0)
    requires |NewlyQuarantined(table, t, i + 1)|
        == |NewlyQuarantined(table, s, i)| + (if t[i].quarantined then 1 else 0)
    ensures Counted(table, clean, t, g, sum, flushes + more, i + 1, size)
  {
    FlushedOn(clean, f, g, size, total, sum - total);
    BatchesAdd(flushes, more, size);
  }

  ghost predicate RunSoFar(read: RecordReader, table: seq<Segment>, clean: seq<ParquetFile>, segs: seq<Segment>,
                           files: seq<ParquetFile>,
                           offsets: map<nat, nat>, total: nat, flushes: nat, i: nat, size: nat) {
    SettledUpTo(read, table, i, segs, offsets) && Counted(table, clean, segs, files, total, flushes, i, size)
  }

  /** What reading segment `i` has changed, `sum - total` rows having become visible. */
  ghost predicate SegmentRead(read: RecordReader, s: seq<Segment>, f: seq<ParquetFile>, o: map<nat, nat>,
                              t: seq<Segment>, g: seq<ParquetFile>,
                              p: map<nat, nat>, gained: int, more: nat, i: nat, size: nat) {
    && OthersCarried(s, o, i, t, p) && i < |t|
    && t[i].bytes == s[i].bytes && t[i].onDisk && Drained(read, i, t[i], Lookup(p, i))
    && FlushedSince(f, g, size, gained)
    && |g| <= |f| + more + (if t[i].quarantined then 1 else 0)
    && gained >= Batches(more, size)
  }

  lemma RunSoFarOn(read: RecordReader, table: seq<Segment>, clean: seq<ParquetFile>, s: seq<Segment>,
                   f: seq<ParquetFile>, o: map<nat, nat>,
                   t: seq<Segment>, g: seq<ParquetFile>, p: map<nat, nat>,
                   total: nat, sum: nat, flushes: nat, more: nat, i: nat, size: nat)
    requires RunSoFar(read, table, clean, s, f, o, total, flushes, i, size) && i < |table|
    requires table[i].onDisk && !table[i].quarantined && table[i].HighWater() == table[i].saved
    requires SegmentRead(read, s, f, o, t, g, p, sum - total, more, i, size)
    ensures RunSoFar(read, table, clean, t, g, p, sum, flushes + more, i + 1, size)
  {
    SettledOn(read, table, i, s, o, t, p);
    CountedOn(table, clean, s, f, t, g, total, sum, flushes, more, i, size);
  }

  /** A file that is still temporary, or is in place without being listed as COMMITTED, is gone. */
  function WithoutOrphan(f: ParquetFile): ParquetFile {
    match f.content
    case Absent => f
    case Temp(_) => f.(content := Absent)
    case Final(_) => if f.entry.Committed? then f else f.(content := Absent)
  }

  /** The files among the first `n` that are temporary or not listed as COMMITTED. */
  function Orphans(files: seq<ParquetFile>, n: nat): set<nat>
    requires n <= |files|
  {
    set f: nat | f < n && WithoutOrphan(files[f]) != files[f]
  }

  lemma OrphansOn(files: seq<ParquetFile>, n: nat)
    requires n < |files|
    ensures |Orphans(files, n + 1)| == |Orphans(files, n)| + if IsOrphan(files[n]) then 1 else 0
  {
    assert Orphans(files, n + 1) == Orphans(files, n) + if IsOrphan(files[n]) then {n} else {};
  }

  predicate OrphansRemoved(was: seq<ParquetFile>, now: seq<ParquetFile>) {
    |now| >= |was| && forall f :: 0 <= f < |was| ==> now[f] == WithoutOrphan(was[f])
  }

  /** Neither the gateway's nor a crash. */
  predicate OwnStep(step: Step) { !(step.Append? || step.Rotate? || step.Crash?) }

  /** Present, flagged, and the file system lets go of it. */
  predicate Deletable(segs: seq<Segment>, i: nat, unlinkOk: nat -> bool) {
    i < |segs| && segs[i].onDisk && segs[i].Full() && unlinkOk(i)
  }

  class Store {
    const read: RecordReader
    const batchSize: nat
    var segs: seq<Segment>
    var files: seq<ParquetFile>
    /** The memory of the operation under way, as the machine sees it. */
    ghost var worker: Worker
    /** Every step taken so far. */
    ghost var history: seq<Step>

    ghost function Snapshot(): State
      reads this
    {
      State(segs, files, worker)
    }

    ghost predicate Valid()
      reads this
    {
      && Sound(read) && batchSize > 0
      && Run(read, INITIAL, history) == Some(Snapshot())
    }

    lemma ValidInv()
      requires Valid()
      ensures Inv(read, Snapshot())
    {
      InitialInv(read);
      RunKeepsInv(read, INITIAL, history);
    }

    constructor (read: RecordReader, batchSize: nat)
      requires Sound(read) && batchSize > 0
      ensures Valid() && Snapshot() == INITIAL && this.read == read && this.batchSize == batchSize && history == []
    {
      this.read, this.batchSize := read, batchSize;
      segs, files, worker, history := [EMPTY_SEGMENT], [], Idle, [];
    }

    /** All steps since `before` are the worker's own. */
    ghost predicate Ran(before: seq<Step>)
      reads this
    {
      before <= history && forall k :: |before| <= k < |history| ==> OwnStep(history[k])
    }

    lemma RanOn(start: seq<Step>, middle: seq<Step>)
      requires start <= middle && Ran(middle)
      requires forall k :: |start| <= k < |middle| ==> OwnStep(middle[k])
      ensures Ran(start)
    {
    }

    ghost method Note(before: State, step: Step)
      requires Sound(read) && batchSize > 0 && Run(read, INITIAL, history) == Some(before)
      requires Enabled(read, before, step) && Apply(read, before, step) == Snapshot()
      modifies `history
      ensures Valid() && history == old(history) + [step]
      ensures OwnStep(step) ==> Ran(old(history))
    {
      RunSnoc(read, INITIAL, history, step);
      history := history + [step];
    }

    /** A segment that is worth opening has lost nothing. */
    lemma OpenIsSaved(i: nat)
      requires Valid() && i < |segs| && !Skipped(segs[i])
      ensures segs[i].HighWater() == segs[i].saved
    {
      ValidInv();
    }

    lemma OpenIsRun(i: nat)
      requires Valid() && i < |segs| && !Skipped(segs[i])
      ensures Runs(read, segs[i].bytes, 0, segs[i].HighWater())
    {
      ValidInv();
    }

    // ----- What happens around the worker

    /** The gateway adds bytes at the end of its open segment, whatever they are. */
    method GatewayAppend(x: seq<byte>)
      requires Valid()
      modifies `segs, `history
      ensures Valid() && history == old(history) + [Append(x)]
      ensures var last := |old(segs)| - 1;
        0 <= last && segs == old(segs)[last := old(segs)[last].(bytes := old(segs)[last].bytes + x)]
    {
      ghost var before := Snapshot();
      assert segs != [] by { ValidInv(); }
      segs := segs[|segs| - 1 := segs[|segs| - 1].(bytes := segs[|segs| - 1].bytes + x)];
      Note(before, Append(x));
    }

    method GatewayRotate()
      requires Valid()
      modifies `segs, `history
      ensures Valid() && history == old(history) + [Rotate] && segs == old(segs) + [EMPTY_SEGMENT]
    {
      ghost var before := Snapshot();
      segs := segs + [EMPTY_SEGMENT];
      Note(before, Rotate);
    }

    // ----- Flushing a batch

    /** Writes the batch under a temporary name and renames it. */
    method WriteParquet(rows: seq<Row>)
      requires Valid() && CanRun(worker) && worker.rows == rows && rows != []
      modifies `files, `worker, `history
      ensures Valid() && Ran(old(history))
      ensures files == old(files) + [ParquetFile(Final(rows), Unlisted, false)]
      ensures worker == old(worker).(flight := Some(|old(files)|))
    {
      var f := |files|;
      ghost var before := Snapshot();
      files := files + [ParquetFile(Temp([]), Unlisted, false)];
      worker := worker.(flight := Some(f));
      Note(before, CreateTemp);
      ghost var h1 := history;
      before := Snapshot();
      files := files[f := files[f].(content := Temp(rows))];
      Note(before, FillTemp);
      RanOn(old(history), h1);
      ghost var h2 := history;
      before := Snapshot();
      files := files[f := files[f].(content := Final(rows))];
      Note(before, Rename);
      RanOn(old(history), h2);
    }

    /** The flush transaction: the file becomes COMMITTED and every pending offset is upserted. */
    method CommitManifest(f: nat, rows: seq<Row>, offsets: map<nat, nat>)
      requires Valid() && worker.Running? && worker.rows == rows && worker.offsets == offsets
      requires worker.flight == Some(f)
      requires f < |files| && files[f].content.Final?
      modifies this
      ensures Valid() && Ran(old(history))
      ensures files == old(files)[f := old(files)[f].(entry := Committed(|rows|))]
      ensures segs == MarkAll(old(segs), offsets)
      ensures worker == old(worker).(rows := [], offsets := map[], flight := None)
    {
      ghost var before := Snapshot();
      files := files[f := files[f].(entry := Committed(|rows|))];
      for i := 0 to |segs|
        invariant |segs| == |old(segs)|
        invariant forall k :: 0 <= k < i ==> segs[k] == MarkAll(old(segs), offsets)[k]
        invariant forall k :: i <= k < |segs| ==> segs[k] == old(segs)[k]
        invariant files == old(files)[f := old(files)[f].(entry := Committed(|rows|))]
        invariant worker == old(worker) && history == old(history)
      {
        if i in offsets {
          segs := segs[i := Marked(segs[i], offsets[i])];
        }
      }
      worker := worker.(rows := [], offsets := map[], flight := None);
      Note(before, Commit);
    }

    /** Makes the batch visible and its offsets permanent; an empty batch leaves everything as it is. */
    method FlushBatch(rows: seq<Row>, offsets: map<nat, nat>)
      requires Valid() && CanRun(worker) && worker.rows == rows && worker.offsets == offsets
      modifies this
      ensures Valid() && Ran(old(history))
      ensures rows == [] ==> Snapshot() == old(Snapshot())
      ensures rows != [] ==>
        && files == old(files) + [ParquetFile(Final(rows), Committed(|rows|), false)]
        && segs == MarkAll(old(segs), offsets)
        && worker == old(worker).(rows := [], offsets := map[])
    {
      if rows == [] {
        return;
      }
      var f := |files|;
      WriteParquet(rows);
      ghost var middle := history;
      CommitManifest(f, rows, offsets);
      RanOn(old(history), middle);
    }

    // ----- The steps of a run

    method RemoveFile(f: nat)
      requires Valid() && worker.Idle? && f < |files| && IsOrphan(files[f])
      modifies `files, `history
      ensures Valid() && Ran(old(history))
      ensures files == old(files)[f := old(files)[f].(content := Absent)] && Visible(files) == old(Visible(files))
    {
      ghost var before := Snapshot();
      FileSame(files, f, files[f].(content := Absent));
      files := files[f := files[f].(content := Absent)];
      Note(before, RemoveOrphan(f));
    }

    /** Removes what earlier crashes left: temporary files, and files not listed as COMMITTED. */
    method CleanupOrphans() returns (deleted: nat)
      requires Valid() && worker.Idle?
      modifies `files, `history
      ensures Valid() && Ran(old(history))
      ensures |files| == |old(files)| && Visible(files) == old(Visible(files)) && OrphansRemoved(old(files), files)
      ensures deleted == |Orphans(old(files), |files|)|
    {
      deleted := 0;
      for f := 0 to |files|
        invariant Valid() && Ran(old(history))
        invariant |files| == |old(files)| && Visible(files) == old(Visible(files))
        invariant forall k :: 0 <= k < f ==> files[k] == WithoutOrphan(old(files)[k])
        invariant forall k :: f <= k < |files| ==> files[k] == old(files)[k]
        invariant deleted == |Orphans(old(files), f)|
      {
        OrphansOn(old(files), f);
        if IsOrphan(files[f]) {
          ghost var h := history;
          RemoveFile(f);
          RanOn(old(history), h);
          deleted := deleted + 1;
        }
      }
    }

    ghost method BeginRun()
      requires Valid() && worker.Idle? && segs != []
      modifies `worker, `history
      ensures Valid() && Ran(old(history))
      ensures worker == Running(|segs| - 1, [], map[], Between(0), None)
    {
      var before := Snapshot();
      worker := Running(|segs| - 1, [], map[], Between(0), None);
      Note(before, Begin);
    }

    ghost method EndRun()
      requires Valid() && CanRun(worker) && worker.rows == [] && worker.cursor.Between?
      modifies `worker, `history
      ensures Valid() && Ran(old(history)) && worker.Idle?
    {
      var before := Snapshot();
      worker := Idle;
      Note(before, End);
    }

    ghost method OpenSegment(i: nat)
      requires Valid() && CanRun(worker) && worker.cursor.Between? && worker.cursor.next <= i <= worker.active
      requires i < |segs| && segs[i].onDisk && !segs[i].quarantined && !Skipped(segs[i])
      modifies `worker, `history
      ensures Valid() && Ran(old(history))
      ensures worker == old(worker).(cursor := Reading(i, segs[i].HighWater(), segs[i].HighWater()))
    {
      var before := Snapshot();
      worker := worker.(cursor := Reading(i, segs[i].HighWater(), segs[i].HighWater()));
      Note(before, Open(i));
    }

    /** Adds the rows of the record at `pos` to the batch. */
    method TakeRecord(rows: seq<Row>, offsets: map<nat, nat>, i: nat, pos: nat)
      returns (rows': seq<Row>, offsets': map<nat, nat>, end: nat)
      requires Valid() && CanRun(worker) && worker.rows == rows && worker.offsets == offsets
      requires worker.cursor.Reading? && worker.cursor.seg == i && worker.cursor.pos == pos
      requires i < |segs| && read(segs[i].bytes, pos).Record?
      modifies `worker, `history
      ensures Valid() && Ran(old(history))
      ensures var r := read(segs[i].bytes, pos);
        && rows' == rows + RecRows(i)(Rec(pos, r.end, r.payload)) && offsets' == offsets[i := r.end]
        && end == r.end && pos < end <= |segs[i].bytes|
      ensures worker == old(worker).(rows := rows', offsets := offsets', cursor := old(worker).cursor.(pos := end))
    {
      var r := read(segs[i].bytes, pos);
      rows' := rows + RecRows(i)(Rec(pos, r.end, r.payload));
      offsets' := offsets[i := r.end];
      end := r.end;
      ghost var before := Snapshot();
      worker := worker.(rows := rows', offsets := offsets', cursor := worker.cursor.(pos := end));
      Note(before, Read);
    }

    /** At the end of a segment: flags it when it is sealed and its size is the pending offset, or
        the offset the run started from when there is no pending one. */
    method FinishSegment(active: nat, offsets: map<nat, nat>, i: nat, start: nat)
      requires Valid() && CanRun(worker) && worker.active == active && worker.offsets == offsets
      requires worker.cursor.Reading? && worker.cursor.seg == i && worker.cursor.start == start && i < |segs|
      requires i <= active && read(segs[i].bytes, worker.cursor.pos).EndOfFile?
      modifies `segs, `worker, `history
      ensures Valid() && Ran(old(history))
      ensures segs == if i != active && |old(segs)[i].bytes| == (if i in offsets then offsets[i] else start)
                      then old(segs)[i := Flagged(old(segs)[i])] else old(segs)
      ensures worker == old(worker).(cursor := Between(i + 1))
    {
      ghost var before := Snapshot();
      worker := worker.(cursor := Between(i + 1));
      if i != active && |segs[i].bytes| == (if i in offsets then offsets[i] else start) {
        segs := segs[i := Flagged(segs[i])];
        FlagStep(read, before, i, segs, worker);
        Note(before, Flag);
      } else {
        Note(before, Leave);
      }
    }

    method RecordCorruption(i: nat)
      requires Valid() && CanRun(worker) && worker.rows == [] && worker.cursor.Reading? && worker.cursor.seg == i
      requires i < |segs|
      requires read(segs[i].bytes, worker.cursor.pos).Corrupt?
      modifies `segs, `worker, `history
      ensures Valid() && Ran(old(history))
      ensures segs == old(segs)[i := old(segs)[i].(quarantined := true)]
      ensures worker == old(worker).(cursor := Between(i + 1))
    {
      ghost var before := Snapshot();
      segs := segs[i := segs[i].(quarantined := true)];
      worker := worker.(cursor := Between(i + 1));
      QuarantineStep(read, before, i, segs, worker);
      Note(before, Quarantine);
    }

    /** Where the reader stops, everything readable before it is visible or in the batch. */
    lemma DrainedHere(i: nat)
      requires Valid() && CanRun(worker) && worker.cursor.Reading? && worker.cursor.seg == i && i < |segs|
      requires segs[i].HighWater() == segs[i].saved && !read(segs[i].bytes, worker.cursor.pos).Record?
      ensures Drained(read, i, segs[i], Lookup(worker.offsets, i))
    {
      ValidInv();
      HeldRuns(read, Snapshot(), i);
      var held := Held(Snapshot(), i);
      assert worker.cursor.pos == held;
      RunsToValidEnd(read, i, segs[i].bytes, held);
      EmptyRun(read, i, segs[i].bytes, held);
    }

    // ----- One segment

    /** The worker is reading segment `i` with this batch. */
    ghost predicate At(rows: seq<Row>, offsets: map<nat, nat>, active: nat, i: nat, start: nat, pos: nat)
      reads this
    {
      && CanRun(worker) && worker.rows == rows && worker.offsets == offsets && worker.active == active
      && worker.cursor == Reading(i, start, pos) && i < |segs|
    }

    /** A commit brings the mark of the segment being read to where its rows are saved. */
    lemma MarkedIsSaved(i: nat)
      requires Valid() && CanRun(worker) && i < |segs|
      ensures i in worker.offsets ==> Marked(segs[i], worker.offsets[i]).HighWater() == worker.offsets[i]
    {
      ValidInv();
      if i in worker.offsets { CommittedSegment(read, i, segs[i], worker.offsets[i], i == |segs| - 1); }
    }

    /** Takes one record into the batch, and flushes the batch when it has reached its size. */
    method ProcessRecord(rows: seq<Row>, offsets: map<nat, nat>, total: nat,
                         ghost active: nat, i: nat, ghost start: nat, pos: nat)
      returns (rows': seq<Row>, offsets': map<nat, nat>, total': nat, end: nat, ghost flushes: nat)
      requires Valid() && |rows| < batchSize
      requires At(rows, offsets, active, i, start, pos) && read(segs[i].bytes, pos).Record?
      requires segs[i].HighWater() == segs[i].saved
      modifies this
      ensures Valid() && Ran(old(history))
      ensures At(rows', offsets', active, i, start, end) && pos < end <= |segs[i].bytes| && |rows'| < batchSize
      ensures Progress(old(segs), offsets, old(files), segs, offsets', files, i, batchSize, total' - total, flushes)
      ensures var r := read(old(segs)[i].bytes, pos); var sum := |rows| + |r.payload|;
        && end == r.end && |rows'| == (if sum >= batchSize then 0 else sum)
        && flushes == (if sum >= batchSize then 1 else 0)
        && Lookup(offsets', i) == if sum >= batchSize then None else Some(end)
    {
      rows', offsets', end := TakeRecord(rows, offsets, i, pos);
      total', flushes := total, 0;
      if |rows'| >= batchSize {
        ghost var h := history;
        BatchAndRecord(rows, rows', i, pos, batchSize);
        FlushedOne(files, rows', batchSize);
        MarkedIsSaved(i);
        FlushBatch(rows', offsets');
        RanOn(old(history), h);
        total', flushes := total + |rows'|, 1;
        rows', offsets' := [], map[];
      }
    }

    /** The handler of a corrupt record: flushes what is pending, then records the event. */
    method StopAtCorruption(rows: seq<Row>, offsets: map<nat, nat>, total: nat, ghost active: nat, i: nat,
                            ghost start: nat, pos: nat)
      returns (total': nat, offsets': map<nat, nat>)
      requires Valid() && |rows| < batchSize && At(rows, offsets, active, i, start, pos)
      requires read(segs[i].bytes, pos).Corrupt? && segs[i].HighWater() == segs[i].saved
      modifies this
      ensures Valid() && Ran(old(history))
      ensures worker == Running(active, [], offsets', Between(i + 1), None)
      ensures OthersCarried(old(segs), offsets, i, segs, offsets')
      ensures segs[i].bytes == old(segs)[i].bytes && segs[i].onDisk == old(segs)[i].onDisk
      ensures segs[i].quarantined && segs[i].Full() == old(segs)[i].Full()
      ensures Drained(read, i, segs[i], Lookup(offsets', i))
      ensures FlushedSince(old(files), files, batchSize, total' - total) && total' >= total
      ensures |files| <= |old(files)| + 1
    {
      total', offsets' := total, offsets;
      if rows != [] {
        SmallBatch(rows, batchSize);
        FlushedOne(files, rows, batchSize);
        MarkedIsSaved(i);
        FlushBatch(rows, offsets);
        total', offsets' := total + |rows|, map[];
      }
      ghost var h := history;
      DrainedHere(i);
      RecordCorruption(i);
      RanOn(old(history), h);
    }

    method StopAtEnd(ghost rows: seq<Row>, offsets: map<nat, nat>, active: nat, i: nat, start: nat, ghost pos: nat)
      requires Valid() && At(rows, offsets, active, i, start, pos)
      requires i <= active && read(segs[i].bytes, pos).EndOfFile? && segs[i].HighWater() == segs[i].saved
      modifies `segs, `worker, `history
      ensures Valid() && Ran(old(history))
      ensures worker == Running(active, rows, offsets, Between(i + 1), None)
      ensures OthersCarried(old(segs), offsets, i, segs, offsets)
      ensures segs[i].bytes == old(segs)[i].bytes && segs[i].onDisk == old(segs)[i].onDisk
      ensures segs[i].quarantined == old(segs)[i].quarantined
      ensures segs[i].Full() <==>
              old(segs)[i].Full() || (i != active && |segs[i].bytes| == (if i in offsets then offsets[i] else start))
      ensures Drained(read, i, segs[i], Lookup(offsets, i))
    {
      DrainedHere(i);
      FinishSegment(active, offsets, i, start);
    }

    /** One turn of the reading loop, carrying along what has happened since the segment was opened. */
    method Advance(rows: seq<Row>, offsets: map<nat, nat>, total: nat, ghost active: nat, i: nat, ghost start: nat,
                   pos: nat,
                   ghost s0: seq<Segment>, ghost o0: map<nat, nat>, ghost f0: seq<ParquetFile>,
                   ghost total0: nat, ghost n0: nat, ghost flushes: nat)
      returns (rows': seq<Row>, offsets': map<nat, nat>, total': nat, end: nat, ghost flushes': nat)
      requires Valid() && |rows| < batchSize
      requires At(rows, offsets, active, i, start, pos) && read(segs[i].bytes, pos).Record?
      requires Progress(s0, o0, f0, segs, offsets, files, i, batchSize, total - total0, flushes)
      requires Tallied(read, segs[i].bytes, start, pos, batchSize, n0, |rows|, flushes, Lookup(offsets, i))
      modifies this
      ensures Valid() && Ran(old(history))
      ensures At(rows', offsets', active, i, start, end) && |rows'| < batchSize && segs[i].bytes == old(segs)[i].bytes
      ensures pos < end <= |segs[i].bytes|
      ensures Progress(s0, o0, f0, segs, offsets', files, i, batchSize, total' - total0, flushes')
      ensures Tallied(read, segs[i].bytes, start, end, batchSize, n0, |rows'|, flushes', Lookup(offsets', i))
    {
      TallyOn(read, segs[i].bytes, start, pos, batchSize, n0, |rows|, flushes, Lookup(offsets, i));
      ghost var more;
      rows', offsets', total', end, more := ProcessRecord(rows, offsets, total, active, i, start, pos);
      ProgressOn(s0, o0, f0, old(segs), offsets, old(files), segs, offsets', files, i, batchSize,
                 total - total0, total' - total, flushes, more);
      flushes' := flushes + more;
    }

    /** Reads records into the batch until the end of the segment or the first bad record. */
    method ReadRecords(rows: seq<Row>, offsets: map<nat, nat>, total: nat, ghost active: nat, i: nat, start: nat)
      returns (rows': seq<Row>, offsets': map<nat, nat>, total': nat, pos: nat, ghost flushes: nat)
      requires Valid() && |rows| < batchSize
      requires At(rows, offsets, active, i, start, start) && segs[i].HighWater() == segs[i].saved && i !in offsets
      modifies this
      ensures Valid() && Ran(old(history))
      ensures At(rows', offsets', active, i, start, pos) && |rows'| < batchSize && !read(segs[i].bytes, pos).Record?
      ensures Progress(old(segs), offsets, old(files), segs, offsets', files, i, batchSize, total' - total, flushes)
      ensures Tallied(read, segs[i].bytes, start, pos, batchSize, |rows|, |rows'|, flushes, Lookup(offsets', i))
    {
      rows', offsets', total', pos, flushes := rows, offsets, total, start, 0;
      TallyStart(read, segs[i].bytes, start, batchSize, |rows|);
      while read(segs[i].bytes, pos).Record?
        invariant Valid() && Ran(old(history))
        invariant At(rows', offsets', active, i, start, pos) && |rows'| < batchSize
        invariant Progress(old(segs), offsets, old(files), segs, offsets', files, i, batchSize, total' - total, flushes)
        invariant Tallied(read, segs[i].bytes, start, pos, batchSize, |rows|, |rows'|, flushes, Lookup(offsets', i))
        decreases |segs[i].bytes| - pos
      {
        ghost var h := history;
        rows', offsets', total', pos, flushes :=
          Advance(rows', offsets', total', active, i, start, pos, old(segs), offsets, old(files), total, |rows|,
                  flushes);
        RanOn(old(history), h);
      }
    }

    /** Reads a segment from its stored offset to its end or to the first bad record. */
    method ReadSegment(rows: seq<Row>, offsets: map<nat, nat>, total: nat, active: nat, i: nat)
      returns (rows': seq<Row>, offsets': map<nat, nat>, total': nat, ghost flushes: nat)
      requires Valid() && |rows| < batchSize
      requires worker.Running? && worker == Running(active, rows, offsets, worker.cursor, None)
      requires worker.cursor.Between? && worker.cursor.next <= i <= active
      requires i < |segs| && segs[i].onDisk && !segs[i].quarantined && !Skipped(segs[i]) && i !in offsets
      modifies this
      ensures Valid() && Ran(old(history))
      ensures worker == Running(active, rows', offsets', Between(i + 1), None) && |rows'| < batchSize
      ensures i < |segs| && AsPlanned(read, old(segs)[i], segs[i], i != active, batchSize, |rows|, |rows'|, flushes)
      ensures SegmentRead(read, old(segs), old(files), offsets, segs, files, offsets', total' - total, flushes, i,
          batchSize)
    {
      var start := segs[i].HighWater();
      var pos;
      OpenIsSaved(i);
      OpenIsRun(i);
      OpenedIsNotSkipped(segs[i]);
      OpenSegment(i);
      ghost var h := history;
      rows', offsets', total', pos, flushes := ReadRecords(rows, offsets, total, active, i, start);
      RanOn(old(history), h);
      h := history;
      ghost var s, o, f, t := segs, offsets', files, total';
      TallyAtStop(read, old(segs)[i], pos, batchSize, |rows|, |rows'|, flushes, Lookup(offsets', i));
      if read(segs[i].bytes, pos).EndOfFile? {
        StopAtEnd(rows', offsets', active, i, start, pos);
      } else {
        total', offsets' := StopAtCorruption(rows', offsets', total', active, i, start, pos);
        rows' := [];
        FlushedOn(old(files), f, files, batchSize, t - total, total' - t);
      }
      RanOn(old(history), h);
      CarriedOn(old(segs), offsets, s, o, segs, offsets', i);
    }

    // ----- The whole run

    /** Between two segments of a run over `table`: those before `i` are settled, those from `i` untouched. */
    ghost predicate Midway(table: seq<Segment>, clean: seq<ParquetFile>, active: nat, rows: seq<Row>,
                           offsets: map<nat, nat>,
                           total: nat, flushes: nat, i: nat)
      reads this
    {
      && worker.Running? && worker == Running(active, rows, offsets, worker.cursor, None)
      && worker.cursor.Between? && worker.cursor.next <= i && |rows| < batchSize
      && RunSoFar(read, table, clean, segs, files, offsets, total, flushes, i, batchSize)
      && PlanUpTo(read, table, segs, batchSize, |rows|, flushes, i) && active == |table| - 1
    }

    lemma VisitOn(table: seq<Segment>, clean: seq<ParquetFile>, before: State, o: map<nat, nat>, n: nat, rows: seq<Row>,
                  offsets: map<nat, nat>,
                  total: nat, sum: nat, active: nat, flushes: nat, more: nat, i: nat)
      requires RunSoFar(read, table, clean, before.segs, before.files, o, total, flushes, i, batchSize)
      requires i < |table| && table[i].onDisk && !table[i].quarantined && table[i].HighWater() == table[i].saved
      requires SegmentRead(read, before.segs, before.files, o, segs, files, offsets, sum - total, more, i, batchSize)
      requires worker == Running(active, rows, offsets, Between(i + 1), None) && |rows| < batchSize
      requires PlanUpTo(read, table, before.segs, batchSize, n, flushes, i) && active == |table| - 1
      requires AsPlanned(read, table[i], segs[i], i != active, batchSize, n, |rows|, more)
      ensures Midway(table, clean, active, rows, offsets, sum, flushes + more, i + 1)
    {
      FlagsCarried(before.segs, o, segs, offsets, i);
      PlanOn(read, table, before.segs, segs, batchSize, n, |rows|, flushes, more, i);
      RunSoFarOn(read, table, clean, before.segs, before.files, o, segs, files, offsets, total, sum, flushes, more, i,
                 batchSize);
    }

    method VisitSegment(rows: seq<Row>, offsets: map<nat, nat>, total: nat, active: nat, i: nat,
                        ghost table: seq<Segment>, ghost clean: seq<ParquetFile>, ghost flushes: nat)
      returns (rows': seq<Row>, offsets': map<nat, nat>, total': nat, ghost flushes': nat)
      requires Valid() && i <= active
      requires Midway(table, clean, active, rows, offsets, total, flushes, i)
      requires i < |table| && table[i].onDisk && !table[i].quarantined && !Skipped(table[i])
      modifies this
      ensures Valid() && Ran(old(history))
      ensures Midway(table, clean, active, rows', offsets', total', flushes', i + 1)
    {
      assert table[i].HighWater() == table[i].saved && segs[i] == table[i] by { OpenIsSaved(i); }
      ghost var more;
      rows', offsets', total', more := ReadSegment(rows, offsets, total, active, i);
      flushes' := flushes + more;
      VisitOn(table, clean, old(Snapshot()), offsets, |rows|, rows', offsets', total, total', active, flushes, more, i);
    }

    lemma StartOfRun(table: seq<Segment>, clean: seq<ParquetFile>)
      requires batchSize > 0 && table == segs && clean == files && table != []
      requires worker == Running(|table| - 1, [], map[], Between(0), None)
      ensures Midway(table, clean, |table| - 1, [], map[], 0, 0, 0)
    {
      assert NewlyQuarantined(table, segs, 0) == {};
    }

    /** A segment that is not opened leaves the run as it is. */
    lemma PassBy(table: seq<Segment>, clean: seq<ParquetFile>, active: nat, rows: seq<Row>, offsets: map<nat, nat>,
                 total: nat, flushes: nat, i: nat)
      requires Valid() && Midway(table, clean, active, rows, offsets, total, flushes, i)
      requires i < |table| && (!table[i].onDisk || table[i].quarantined || Skipped(table[i]))
      ensures Midway(table, clean, active, rows, offsets, total, flushes, i + 1)
    {
      assert SegOk(read, segs[i], i == |segs| - 1) by { ValidInv(); }
      SkippedIsSettled(read, i, table[i], i == |segs| - 1);
      OpenedIsNotSkipped(table[i]);
      UnopenedIsAsPlanned(read, table[i], i + 1 < |table|, batchSize, |rows|);
      PlanOn(read, table, segs, segs, batchSize, |rows|, |rows|, flushes, 0, i);
      assert NewlyQuarantined(table, segs, i + 1) == NewlyQuarantined(table, segs, i);
    }

    /** One turn of the loop: skip the segment or read it. */
    method Turn(rows: seq<Row>, offsets: map<nat, nat>, total: nat, active: nat, i: nat,
                table: seq<Segment>, ghost clean: seq<ParquetFile>, ghost flushes: nat, ghost start: seq<Step>)
      returns (rows': seq<Row>, offsets': map<nat, nat>, total': nat, ghost flushes': nat)
      requires Valid() && i <= active && i < |table| && Ran(start)
      requires Midway(table, clean, active, rows, offsets, total, flushes, i)
      modifies this
      ensures Valid() && Ran(start)
      ensures Midway(table, clean, active, rows', offsets', total', flushes', i + 1)
    {
      if table[i].onDisk && !table[i].quarantined && !Skipped(table[i]) {
        rows', offsets', total', flushes' := VisitSegment(rows, offsets, total, active, i, table, clean, flushes);
        RanOn(start, old(history));
      } else {
        PassBy(table, clean, active, rows, offsets, total, flushes, i);
        rows', offsets', total', flushes' := rows, offsets, total, flushes;
      }
    }

    ghost method StartRun()
      requires Valid() && worker.Idle?
      modifies `worker, `history
      ensures Valid() && Ran(old(history))
      ensures segs != [] && Midway(segs, files, |segs| - 1, [], map[], 0, 0, 0)
    {
      assert segs != [] by { ValidInv(); }
      BeginRun();
      StartOfRun(segs, files);
    }

    /** The loop over the segments. */
    method RunOver(table: seq<Segment>, ghost clean: seq<ParquetFile>)
      returns (rows: seq<Row>, offsets: map<nat, nat>, total: nat, ghost flushes: nat)
      requires Valid()
      requires table != [] && Midway(table, clean, |table| - 1, [], map[], 0, 0, 0)
      modifies this
      ensures Valid() && Ran(old(history))
      ensures Midway(table, clean, |table| - 1, rows, offsets, total, flushes, |table|)
    {
      var active := |table| - 1;
      rows, offsets, total, flushes := [], map[], 0, 0;
      for i := 0 to |table|
        invariant Valid() && Ran(old(history))
        invariant Midway(table, clean, active, rows, offsets, total, flushes, i)
      {
        rows, offsets, total, flushes := Turn(rows, offsets, total, active, i, table, clean, flushes, old(history));
      }
    }

    /** After a run over `table` that made `total` rows visible. */
    ghost predicate Finished(table: seq<Segment>, clean: seq<ParquetFile>, total: nat, flushes: nat)
      reads this
    {
      && |segs| == |table| && (forall j :: 0 <= j < |segs| ==> Settled(read, j, table[j], segs[j], None))
      && FlushedSince(clean, files, batchSize, total)
      && |files| <= |clean| + flushes + |NewlyQuarantined(table, segs, |table|)| + 1
      && total >= Batches(flushes, batchSize)
      && FlagsUpTo(read, table, segs, batchSize, |table|) && flushes == FillsBefore(read, table, batchSize, |table|)
    }

    /** The flush of the last, partial batch. */
    method FinishRun(rows: seq<Row>, offsets: map<nat, nat>, total: nat,
                     ghost table: seq<Segment>, ghost clean: seq<ParquetFile>, ghost flushes: nat)
      requires Valid() && table != []
      requires Midway(table, clean, |table| - 1, rows, offsets, total, flushes, |table|)
      modifies this
      ensures Valid() && worker.Idle? && Ran(old(history))
      ensures Finished(table, clean, total + |rows|, flushes)
    {
      ghost var h := history;
      if rows != [] {
        SmallBatch(rows, batchSize);
        FlushedOne(files, rows, batchSize);
        FlushedOn(clean, files, files + [ParquetFile(Final(rows), Committed(|rows|), false)], batchSize, total, |rows|);
        SettledByFlush(read, table, segs, offsets);
        FlushBatch(rows, offsets);
        h := history;
        PlanKept(read, table, old(segs), segs, batchSize, |table|);
        assert NewlyQuarantined(table, segs, |table|) == NewlyQuarantined(table, old(segs), |table|);
      } else {
        ValidInv();
        forall j | 0 <= j < |segs| ensures Settled(read, j, table[j], segs[j], None) {
          DropPending(read, Snapshot(), j, table[j]);
        }
      }
      EndRun();
      RanOn(old(history), h);
    }

    /** What one run has done since `before`: everything readable is visible, `total` rows more than
        before, in files of bounded size and number; with nothing to read, nothing at all. */
    ghost predicate Materialized(before: State, total: nat, flushes: nat)
      reads this
    {
      && |segs| == |before.segs| && (forall j :: 0 <= j < |segs| ==> Settled(read, j, before.segs[j], segs[j], None))
      && FullyRead(read, Snapshot())
      && |Visible(files)| == |Visible(before.files)| + total
      && (FullyRead(read, before) ==> total == 0 && Visible(files) == Visible(before.files))
      && |files| >= |before.files| && FlushedWithin(files, |before.files|, batchSize)
      && |files| <= |before.files| + flushes + |NewlyQuarantined(before.segs, segs, |segs|)| + 1
      && flushes * batchSize <= total
      && OrphansRemoved(before.files, files)
      && FlagsUpTo(read, before.segs, segs, batchSize, |segs|)
      && flushes == FillsBefore(read, before.segs, batchSize, |segs|)
    }

    /** A run that never fills a batch flags every sealed segment in which it found something new
        and which it could read to the end. */
    lemma SmallRunFlags(before: State, total: nat, flushes: nat, i: nat)
      requires Materialized(before, total, flushes) && total < batchSize && i + 1 < |segs|
      requires before.segs[i].onDisk && !before.segs[i].quarantined
      requires before.segs[i].HighWater() < |before.segs[i].bytes| == ValidEnd(read, before.segs[i].bytes)
      ensures segs[i].Full() && !segs[i].quarantined
    {
      if flushes > 0 { BatchesProduct(flushes, batchSize); }
      NoFillNoMiss(read, before.segs, batchSize, |segs|, i);
      assert FlaggedAsPlanned(read, before.segs, segs, batchSize, i);
    }

    lemma {:induction false} Conclude(before: State, clean: seq<ParquetFile>, total: nat, flushes: nat)
      requires Valid() && worker.Idle? && Inv(read, before)
      requires OrphansRemoved(before.files, clean) && |clean| == |before.files|
      requires Visible(clean) == Visible(before.files)
      requires Finished(before.segs, clean, total, flushes)
      ensures Materialized(before, total, flushes)
    {
      AllSettled(read, before.segs, Snapshot());
      NothingNew(before);
      BatchesProduct(flushes, batchSize);
    }

    lemma NothingNew(before: State)
      requires Valid() && Inv(read, before) && |segs| == |before.segs|
      requires forall j :: 0 <= j < |segs| ==> Settled(read, j, before.segs[j], segs[j], None)
      ensures FullyRead(read, before) ==> Visible(files) == Visible(before.files)
    {
      ValidInv();
      if FullyRead(read, before) { QuietRun(read, before, Snapshot()); }
    }

    /** Reads every segment that has something new and flushes in batches; returns the number of
        rows it made visible. `flushes` counts the files written because the batch had reached its size. */
    method Materialize() returns (total: nat, ghost flushes: nat)
      requires Valid() && worker.Idle? 
      modifies this
      ensures Valid() && worker.Idle? && Ran(old(history))
      ensures Materialized(old(Snapshot()), total, flushes)
    {
      ghost var before := Snapshot();
      ValidInv();
      var _ := CleanupOrphans();
      ghost var h, clean := history, files;
      StartRun();
      RanOn(old(history), h);
      h := history;
      var rows: seq<Row>, offsets: map<nat, nat>;
      rows, offsets, total, flushes := RunOver(segs, clean);
      RanOn(old(history), h);
      h := history;
      FinishRun(rows, offsets, total, before.segs, clean, flushes);
      RanOn(old(history), h);
      total := total + |rows|;
      Conclude(before, clean, total, flushes);
    }

    // ----- Compaction

    /** The files a query scans: COMMITTED in the manifest and present on disk, ordered by name. */
    method GetCommittedFiles() returns (names: seq<nat>)
      ensures Listing(files, names)
    {
      names := [];
      for f := 0 to |files|
        invariant forall k: nat :: k in names <==> k < f && files[k].Visible() && !files[k].merged
        invariant forall k :: 0 <= k < |names| ==> names[k] < f && !files[names[k]].merged
        invariant forall j, k :: 0 <= j < k < |names| ==> NameBefore(files, names[j], names[k])
      {
        if files[f].Visible() && !files[f].merged {
          names := names + [f];
        }
      }
      for f := 0 to |files|
        invariant forall k: nat :: k in names <==> k < |files| && files[k].Visible() && (!files[k].merged || k < f)
        invariant forall k :: 0 <= k < |names| ==> names[k] < |files| && (files[names[k]].merged ==> names[k] < f)
        invariant forall j, k :: 0 <= j < k < |names| ==> NameBefore(files, names[j], names[k])
      {
        if files[f].Visible() && files[f].merged {
          names := names + [f];
        }
      }
    }

    method CreateMerged(chosen: seq<nat>) returns (f: nat)
      requires Valid() && worker.Idle? && Distinct(chosen) && AllFinal(files, chosen) && AllCommitted(files, chosen)
      modifies `files, `worker, `history
      ensures Valid() && Ran(old(history)) && f == |old(files)|
      ensures files == old(files) + [ParquetFile(Temp([]), Unlisted, true)] && worker == Merging(chosen, f, 0)
    {
      f := |files|;
      ghost var before := Snapshot();
      files := files + [ParquetFile(Temp([]), Unlisted, true)];
      worker := Merging(chosen, f, 0);
      Note(before, BeginMerge(chosen));
    }

    /** Streams one source file into the merged file. */
    method CopyFile(chosen: seq<nat>, f: nat, k: nat) returns (rows: nat)
      requires Valid() && worker == Merging(chosen, f, k) && k < |chosen| && f < |files| && files[f].content.Temp?
      requires chosen[k] < |files| && files[chosen[k]].content.Final?
      modifies `files, `worker, `history
      ensures Valid() && Ran(old(history)) && worker == Merging(chosen, f, k + 1)
      ensures rows == |old(files)[chosen[k]].content.rows|
      ensures var copied := old(files)[f].content.rows + old(files)[chosen[k]].content.rows;
        files == old(files)[f := old(files)[f].(content := Temp(copied))]
    {
      ghost var before := Snapshot();
      rows := |files[chosen[k]].content.rows|;
      files := files[f := files[f].(content := Temp(files[f].content.rows + files[chosen[k]].content.rows))];
      worker := Merging(chosen, f, k + 1);
      Note(before, CopyNext);
    }

    /** The temporary file is removed: nothing was written, or writing failed. */
    method Abandon(ghost chosen: seq<nat>, f: nat)
      requires Valid() && worker.Merging? && worker.file == f && f < |files| && files[f].content.Temp?
      modifies `files, `worker, `history
      ensures Valid() && Ran(old(history)) && worker.Idle?
      ensures files == old(files)[f := old(files)[f].(content := Absent)]
    {
      ghost var before := Snapshot();
      files := files[f := files[f].(content := Absent)];
      worker := Idle;
      Note(before, AbortMerge);
    }

    /** The rename, then the transaction that lists the merged file and retires its sources. */
    method PublishMerged(chosen: seq<nat>, f: nat, total: nat)
      requires Valid() && worker == Merging(chosen, f, |chosen|) && f < |files|
      requires files[f].content.Temp? && files[f].content.rows != [] && total == |files[f].content.rows|
      modifies `files, `worker, `history
      ensures Valid() && Ran(old(history)) && worker == Unlinking(chosen, 0)
      ensures var merged := ParquetFile(Final(old(files)[f].content.rows), Committed(total), old(files)[f].merged);
        files == Retire(old(files)[f := merged], chosen)
    {
      ghost var before := Snapshot();
      files := files[f := files[f].(content := Final(files[f].content.rows))];
      Note(before, RenameMerged);
      ghost var h := history;
      before := Snapshot();
      files := Retire(files[f := files[f].(entry := Committed(total))], chosen);
      worker := Unlinking(chosen, 0);
      Note(before, CommitMerge);
      RanOn(old(history), h);
    }

    lemma SourceIsRetired(chosen: seq<nat>, k: nat)
      requires Valid() && worker == Unlinking(chosen, k) && k < |chosen|
      ensures chosen[k] < |files| && files[chosen[k]].entry.Compacted?
    {
      ValidInv();
    }

    method UnlinkOne(chosen: seq<nat>, k: nat, ok: bool)
      requires Valid() && worker == Unlinking(chosen, k) && k < |chosen|
      modifies `files, `worker, `history
      ensures Valid() && Ran(old(history)) && worker == Unlinking(chosen, k + 1)
      ensures chosen[k] < |old(files)|
      ensures files == if ok then old(files)[chosen[k] := old(files)[chosen[k]].(content := Absent)] else old(files)
    {
      ghost var before := Snapshot();
      var f := chosen[k];
      SourceIsRetired(chosen, k);
      if ok {
        files := files[f := files[f].(content := Absent)];
      }
      worker := Unlinking(chosen, k + 1);
      Note(before, UnlinkNext(ok));
    }

    /** Removes the retired sources; a failure to unlink is only logged. */
    method UnlinkSources(chosen: seq<nat>, unlinkOk: nat -> bool)
      requires Valid() && worker == Unlinking(chosen, 0)
      modifies `files, `worker, `history
      ensures Valid() && Ran(old(history)) && worker.Idle?
      ensures Unlinked(old(files), files, chosen, unlinkOk)
    {
      for k := 0 to |chosen|
        invariant Valid() && Ran(old(history)) && worker == Unlinking(chosen, k)
        invariant Unlinked(old(files), files, chosen[..k], unlinkOk)
      {
        ghost var h := history;
        assert chosen[..k + 1] == chosen[..k] + [chosen[k]];
        UnlinkOne(chosen, k, unlinkOk(chosen[k]));
        RanOn(old(history), h);
      }
      assert chosen[..|chosen|] == chosen;
      ghost var before, h := Snapshot(), history;
      worker := Idle;
      Note(before, EndMerge);
      RanOn(old(history), h);
    }

    /** Copies the chosen files one by one; `failAt` says which copy raises, if one does. */
    method CopyAll(chosen: seq<nat>, failAt: Option<nat>, ghost was: seq<ParquetFile>) returns (total: nat, copied: nat)
      requires Valid() && worker == Merging(chosen, |was|, 0) && files == was + [ParquetFile(Temp([]), Unlisted, true)]
      requires AllFinal(was, chosen)
      modifies `files, `worker, `history
      ensures Valid() && Ran(old(history)) && worker == Merging(chosen, |was|, copied) && copied <= |chosen|
      ensures files == was + [ParquetFile(Temp(Joined(was, chosen[..copied])), Unlisted, true)]
      ensures total == |Joined(was, chosen[..copied])|
      ensures copied == |chosen| <==> (failAt.Some? ==> failAt.value >= |chosen|)
    {
      total, copied := 0, 0;
      while copied < |chosen| && failAt != Some(copied)
        invariant Valid() && Ran(old(history)) && worker == Merging(chosen, |was|, copied) && copied <= |chosen|
        invariant files == was + [ParquetFile(Temp(Joined(was, chosen[..copied])), Unlisted, true)]
        invariant total == |Joined(was, chosen[..copied])|
        invariant failAt.Some? && failAt.value < |chosen| ==> copied <= failAt.value
      {
        ghost var h := history;
        assert chosen[..copied + 1][..copied] == chosen[..copied];
        var rows := CopyFile(chosen, |files| - 1, copied);
        RanOn(old(history), h);
        total, copied := total + rows, copied + 1;
      }
    }

    /** Merges up to `maxFiles` visible files into one, the first ones in name order. `failAt` is the
        copy that raises, if one does. */
    method Compact(maxFiles: nat, failAt: Option<nat>, unlinkOk: nat -> bool)
      returns (total: nat, raised: bool, ghost names: seq<nat>)
      requires Valid() && worker.Idle?
      modifies `files, `worker, `history
      ensures Valid() && worker.Idle? && Ran(old(history))
      ensures Listing(old(files), names) && AllFinal(old(files), names)
      ensures var n := |names|; var k := if n < maxFiles then n else maxFiles;
        && (raised <==> n > 1 && failAt.Some? && failAt.value < k)
        && (total > 0 <==> n > 1 && maxFiles > 0 && !raised)
        && (if total > 0 then MergedInto(old(files), files, names[..k], total, unlinkOk)
            else files == old(files) || files == old(files) + [ParquetFile(Absent, Unlisted, true)])
        && |VisibleFiles(files)| == (if raised then n else AfterCall(n, maxFiles))
      ensures Visible(files) == Visible(old(files))
    {
      total, raised := 0, false;
      var valid := GetCommittedFiles();
      names := valid;
      ListingIsDistinct(files, valid);
      if |valid| <= 1 {
        return;
      }
      var chosen := valid[..if |valid| < maxFiles then |valid| else maxFiles];
      ghost var first, was := Snapshot(), files;
      ValidInv();
      total, raised := MergeFiles(chosen, failAt, unlinkOk);
      if total > 0 {
        MergeCount(was, files, chosen, total, unlinkOk);
      } else {
        assert VisibleFiles(files) == VisibleFiles(was);
      }
      SameVisible(first);
    }

    /** A complete copy is empty only if there was nothing to copy. */
    lemma NothingToCopy(chosen: seq<nat>)
      requires Valid() && AllFinal(files, chosen) && AllCommitted(files, chosen)
      ensures Joined(files, chosen) == [] <==> chosen == []
    {
      ValidInv();
      if chosen != [] { assert files[chosen[|chosen| - 1]].content.rows != []; }
    }

    /** While the segments stay the same, so does what queries see. */
    lemma SameVisible(first: State)
      requires Valid() && Inv(read, first) && segs == first.segs
      ensures Visible(files) == Visible(first.files)
    {
      ValidInv();
    }

    /** The merged file is complete: publish it, then remove its sources. */
    method FinishMerge(chosen: seq<nat>, total: nat, unlinkOk: nat -> bool, ghost was: seq<ParquetFile>)
      requires Valid() && worker == Merging(chosen, |was|, |chosen|) && AllFinal(was, chosen)
      requires AllCommitted(was, chosen)
      requires files == was + [ParquetFile(Temp(Joined(was, chosen)), Unlisted, true)]
      requires 0 < total == |Joined(was, chosen)|
      modifies `files, `worker, `history
      ensures Valid() && worker.Idle? && Ran(old(history))
      ensures MergedInto(was, files, chosen, total, unlinkOk)
    {
      PublishMerged(chosen, |files| - 1, total);
      ghost var mid, h := files, history;
      UnlinkSources(chosen, unlinkOk);
      RanOn(old(history), h);
      MergedAndUnlinked(was, mid, files, chosen, total, unlinkOk);
    }

    method MergeFiles(chosen: seq<nat>, failAt: Option<nat>, unlinkOk: nat -> bool) returns (total: nat, raised: bool)
      requires Valid() && worker.Idle? && Distinct(chosen) && AllFinal(files, chosen) && AllCommitted(files, chosen)
      modifies `files, `worker, `history
      ensures Valid() && worker.Idle? && Ran(old(history))
      ensures raised <==> failAt.Some? && failAt.value < |chosen|
      ensures total > 0 <==> chosen != [] && !raised
      ensures if total > 0 then MergedInto(old(files), files, chosen, total, unlinkOk)
              else files == old(files) + [ParquetFile(Absent, Unlisted, true)]
    {
      ghost var was := files;
      NothingToCopy(chosen);
      var f := CreateMerged(chosen);
      ghost var h := history;
      var copied;
      total, copied := CopyAll(chosen, failAt, was);
      RanOn(old(history), h);
      h := history;
      raised := copied < |chosen|;
      assert chosen[..|chosen|] == chosen;
      if raised || total == 0 {
        Abandon(chosen, f);
        total := 0;
      } else {
        FinishMerge(chosen, total, unlinkOk, was);
      }
      RanOn(old(history), h);
    }

    // ----- WAL cleanup

    /** Deletes sealed segments that are flagged as fully processed; the last one is never looked at. */
    method CleanupWal(unlinkOk: nat -> bool) returns (deleted: seq<nat>)
      requires Valid() && worker.Idle?
      modifies `segs, `history
      ensures Valid() && Ran(old(history)) && |segs| == |old(segs)|
      ensures forall i :: 0 <= i < |segs| ==>
                segs[i] == if i in deleted then old(segs)[i].(onDisk := false) else old(segs)[i]
      ensures forall i: nat :: i in deleted <==>
                && i + 1 < |segs| && old(segs)[i].onDisk && unlinkOk(i)
                && old(segs)[i].mark.Some? && old(segs)[i].mark.value.full
      ensures CrashFree(history) ==> forall i :: i in deleted ==>
                AllRows(read)(i, segs[i]) <= Visible(files) && ValidEnd(read, segs[i].bytes) == |segs[i].bytes|
    {
      deleted := [];
      var table := segs;
      assert table != [] by { ValidInv(); }
      for i := 0 to |table| - 1
        invariant Valid() && Ran(old(history)) && |segs| == |table|
        invariant forall k :: 0 <= k < |segs| ==>
            segs[k] == if k in deleted then table[k].(onDisk := false) else table[k]
        invariant forall k: nat :: k in deleted <==> k < i && Deletable(table, k, unlinkOk)
      {
        if Deletable(table, i, unlinkOk) {
          ghost var before, h := Snapshot(), history;
          segs := segs[i := segs[i].(onDisk := false)];
          Note(before, DeleteSegment(i));
          RanOn(old(history), h);
          deleted := deleted + [i];
        }
      }
      if CrashFree(history) {
        ExactlyOnce(read, history, Snapshot());
      }
    }
  }
}
