/** What holds of every run of the storage engine, with and without crashes. */
module StorageTheorems {
  import opened Basics
  import opened Crc32
  import opened Streams
  import opened SegmentRows
  import opened Sums
  import opened StorageModel
  import opened StorageInvariant

  // ----- All runs, crashes included

  lemma {:induction false} CountIsVisible(files: seq<ParquetFile>)
    requires FilesOk(files)
    ensures RecordCount(files) == |Visible(files)|
  {
    if files != [] { CountIsVisible(files[..|files| - 1]); }
  }

  /** No run shows a row twice or a row that no segment holds: the visible rows are those up to
      the saved offsets, a part of the rows that the segments hold, and `record_count` is exact. */
  lemma {:induction false} AtMostOnce(read: RecordReader, steps: seq<Step>, st: State)
    requires Sound(read) && Run(read, INITIAL, steps) == Some(st)
    ensures Visible(st.files) == Sum(SavedRows(read), st.segs)
    ensures Visible(st.files) <= Sum(AllRows(read), st.segs)
    ensures RecordCount(st.files) == |Visible(st.files)|
  {
    InitialInv(read);
    RunKeepsInv(read, INITIAL, steps);
    CountIsVisible(st.files);
    SavedWithinAll(read, st);
  }

  lemma SavedWithinAll(read: RecordReader, st: State)
    requires Sound(read) && Inv(read, st)
    ensures Sum(SavedRows(read), st.segs) <= Sum(AllRows(read), st.segs)
  {
    forall i | 0 <= i < |st.segs| ensures SavedRows(read)(i, st.segs[i]) <= AllRows(read)(i, st.segs[i]) {
      RunsToValidEnd(read, i, st.segs[i].bytes, st.segs[i].saved);
    }
    SumMonotone(SavedRows(read), AllRows(read), st.segs);
  }

  /** Only the commit of a flush changes what queries see, and it adds exactly the batch.
      Compaction, cleanup, orphan removal and crashes are invisible at every step. */
  lemma {:induction false} OnlyCommitShows(read: RecordReader, st: State, step: Step)
    requires Sound(read) && Inv(read, st) && Enabled(read, st, step)
    ensures var after := Visible(Apply(read, st, step).files);
      after == if step.Commit? then Visible(st.files) + multiset(st.worker.rows) else Visible(st.files)
  {
    match step
    case RemoveOrphan(f) => RemoveOrphanKeeps(read, st, f);
    case CreateTemp => CreateTempKeeps(read, st);
    case FillTemp => FlightKeeps(read, st, step);
    case Rename => FlightKeeps(read, st, step);
    case Commit => CommitKeeps(read, st);
    case BeginMerge(chosen) => BeginMergeKeeps(read, st, chosen);
    case CopyNext => CopyKeeps(read, st);
    case RenameMerged => RenameMergedKeeps(read, st);
    case CommitMerge => CommitMergeKeeps(read, st);
    case AbortMerge => AbortKeeps(read, st);
    case UnlinkNext(ok) => UnlinkKeeps(read, st, ok);
    case _ =>
  }

  /** No segment of a run is both flagged for deletion and quarantined, the open segment is neither
      flagged nor deleted, and a deleted segment had been flagged. */
  lemma FlagsAreSafe(read: RecordReader, steps: seq<Step>, st: State)
    requires Sound(read) && Run(read, INITIAL, steps) == Some(st)
    ensures forall i :: 0 <= i < |st.segs| ==> !(st.segs[i].Full() && st.segs[i].quarantined)
    ensures forall i :: 0 <= i < |st.segs| && !st.segs[i].onDisk ==> st.segs[i].Full()
    ensures st.segs != [] && st.segs[|st.segs| - 1].onDisk && !st.segs[|st.segs| - 1].Full()
  {
    InitialInv(read);
    RunKeepsInv(read, INITIAL, steps);
  }

  /** The steps of a run can be cut anywhere, and the worker can die there. */
  lemma {:induction false} CrashAnywhere(read: RecordReader, steps: seq<Step>, k: nat)
    requires Sound(read) && Run(read, INITIAL, steps).Some? && k <= |steps|
    ensures Run(read, INITIAL, steps[..k] + [Crash]).Some?
    ensures var st := Run(read, INITIAL, steps[..k] + [Crash]).value; st.worker.Idle? && Inv(read, st)
    decreases |steps|
  {
    if k < |steps| {
      var init := steps[..|steps| - 1];
      assert init[..k] == steps[..k];
      CrashAnywhere(read, init, k);
    } else {
      assert steps[..k] == steps;
      RunSnoc(read, INITIAL, steps, Crash);
      InitialInv(read);
      RunKeepsInv(read, INITIAL, steps + [Crash]);
    }
  }

  // ----- Rows at risk

  /** The offset up to which the rows of a segment are visible or in the running batch. */
  function Held(st: State, i: nat): nat
    requires i < |st.segs|
  {
    if st.worker.Running? && i in st.worker.offsets then st.worker.offsets[i] else st.segs[i].saved
  }

  /** Flagged as fully processed, yet some of its rows are neither visible nor in the batch. */
  ghost predicate AtRisk(read: RecordReader, st: State, i: nat) {
    i < |st.segs| && st.segs[i].Full() && RowsOf(read, i, st.segs[i].bytes, Held(st, i), |st.segs[i].bytes|) != []
  }

  lemma {:induction false} HeldRuns(read: RecordReader, st: State, i: nat)
    requires Sound(read) && Inv(read, st) && i < |st.segs|
    ensures Runs(read, st.segs[i].bytes, 0, Held(st, i)) && st.segs[i].saved <= Held(st, i) <= |st.segs[i].bytes|
    ensures Runs(read, st.segs[i].bytes, st.segs[i].saved, Held(st, i))
  {
    var s := st.segs[i];
    EmptyRun(read, i, s.bytes, s.saved);
    RunsConcat(read, i, s.bytes, 0, s.saved, Held(st, i));
    RunsInside(read, s.bytes, 0, Held(st, i));
    ReachOrder(View(read, s.bytes), s.saved, Held(st, i));
  }

  lemma FlagIsNoRisk(read: RecordReader, st: State, i: nat)
    requires Sound(read) && Inv(read, st) && Enabled(read, st, Flag) && i < |st.segs| && !AtRisk(read, st, i)
    ensures !AtRisk(read, Apply(read, st, Flag), i)
  {
    var s := st.segs[i];
    if i == st.worker.cursor.seg {
      FlaggedIsRead(read, s, i in st.worker.offsets, st.worker.cursor.start, st.worker.cursor.pos);
      if !s.Full() { EmptyRun(read, i, s.bytes, |s.bytes|); }
    }
  }

  lemma {:induction false} ReadIsNoRisk(read: RecordReader, st: State, i: nat)
    requires Sound(read) && Inv(read, st) && Enabled(read, st, Read) && i < |st.segs| && !AtRisk(read, st, i)
    ensures !AtRisk(read, Apply(read, st, Read), i)
  {
    var s, w := st.segs[i], st.worker;
    if i == w.cursor.seg && s.Full() {
      var r := read(s.bytes, w.cursor.pos);
      assert w.cursor.pos == Held(st, i);
      HeldRuns(read, st, i);
      OneRecord(read, i, s.bytes, w.cursor.pos);
      RunsSplit(read, i, s.bytes, 0, Held(st, i), |s.bytes|);
      RunsSplit(read, i, s.bytes, Held(st, i), r.end, |s.bytes|);
    }
  }

  lemma EndIsNoRisk(read: RecordReader, st: State, i: nat)
    requires Sound(read) && Inv(read, st) && Enabled(read, st, End) && i < |st.segs| && !AtRisk(read, st, i)
    ensures !AtRisk(read, Apply(read, st, End), i)
  {
    var s := st.segs[i];
    if s.Full() {
      HeldRuns(read, st, i);
      SumContains(PendingRows(read, st.worker.offsets), st.segs, i);
      EmptyRun(read, i, s.bytes, s.saved);
      assert multiset(RowsOf(read, i, s.bytes, s.saved, Held(st, i))) == multiset{};
      EmptyMultiset(RowsOf(read, i, s.bytes, s.saved, Held(st, i)));
      RunsSplit(read, i, s.bytes, 0, s.saved, |s.bytes|);
      RunsSplit(read, i, s.bytes, 0, Held(st, i), |s.bytes|);
      RunsSplit(read, i, s.bytes, s.saved, Held(st, i), |s.bytes|);
    }
  }

  lemma EmptyMultiset(rows: seq<Row>)
    requires multiset(rows) == multiset{}
    ensures rows == []
  {
    assert |multiset(rows)| == |rows|;
  }

  lemma OtherStepIsNoRisk(read: RecordReader, st: State, step: Step, i: nat)
    requires Enabled(read, st, step) && i < |st.segs| && !AtRisk(read, st, i)
    requires step.Append? || step.Commit? || step.Quarantine? || step.DeleteSegment?
    requires step.Append? ==> !st.segs[|st.segs| - 1].Full()
    ensures !AtRisk(read, Apply(read, st, step), i)
  {
  }

  /** No step but a crash puts a segment's rows at risk. */
  lemma OnlyCrashRisks(read: RecordReader, st: State, step: Step, i: nat)
    requires Sound(read) && Inv(read, st) && Enabled(read, st, step) && step != Crash
    requires i < |st.segs| && !AtRisk(read, st, i)
    ensures !AtRisk(read, Apply(read, st, step), i)
  {
    if step.Flag? {
      FlagIsNoRisk(read, st, i);
    } else if step.Read? {
      ReadIsNoRisk(read, st, i);
    } else if step.End? {
      EndIsNoRisk(read, st, i);
    } else if step.Append? || step.Commit? || step.Quarantine? || step.DeleteSegment? {
      OtherStepIsNoRisk(read, st, step, i);
    } else {
      UntouchedIsNoRisk(read, st, step, i);
    }
  }

  lemma UntouchedIsNoRisk(read: RecordReader, st: State, step: Step, i: nat)
    requires Enabled(read, st, step) && i < |st.segs| && !AtRisk(read, st, i)
    requires !(step.Append? || step.Read? || step.Commit? || step.Flag? || step.Quarantine? || step.End?
               || step.DeleteSegment? || step.Crash?)
    ensures !AtRisk(read, Apply(read, st, step), i)
  {
    assert Apply(read, st, step).segs[i] == st.segs[i];
    assert Held(Apply(read, st, step), i) == Held(st, i);
  }

  /** A crash puts a segment's rows at risk exactly when it was flagged before a flush of rows of
      it that were still in memory, and what is missing then is exactly those pending rows. */
  lemma {:induction false} CrashRisksExactlyPending(read: RecordReader, st: State, i: nat)
    requires Sound(read) && Inv(read, st) && i < |st.segs| && !AtRisk(read, st, i)
    ensures AtRisk(read, Apply(read, st, Crash), i) <==>
            && st.worker.Running? && i in st.worker.offsets && st.segs[i].Full()
            && PendingRows(read, st.worker.offsets)(i, st.segs[i]) != multiset{}
    ensures AtRisk(read, Apply(read, st, Crash), i) ==>
              && Missing(read, Apply(read, st, Crash), i) == PendingRows(read, st.worker.offsets)(i, st.segs[i])
              && PendingRows(read, st.worker.offsets)(i, st.segs[i]) <= multiset(st.worker.rows)
  {
    LostBatch(read, st, i);
    assert Apply(read, st, Crash) == st.(worker := Idle);
  }

  lemma {:induction false} LostBatch(read: RecordReader, st: State, i: nat)
    requires Sound(read) && Inv(read, st) && i < |st.segs| && !AtRisk(read, st, i)
    ensures var lost := st.(worker := Idle);
      && (AtRisk(read, lost, i) <==>
           && st.worker.Running? && i in st.worker.offsets && st.segs[i].Full()
           && PendingRows(read, st.worker.offsets)(i, st.segs[i]) != multiset{})
      && (AtRisk(read, lost, i) ==>
           && Missing(read, lost, i) == PendingRows(read, st.worker.offsets)(i, st.segs[i])
           && PendingRows(read, st.worker.offsets)(i, st.segs[i]) <= multiset(st.worker.rows))
  {
    if st.segs[i].Full() {
      PendingIsMissing(read, st, i);
      assert Missing(read, st.(worker := Idle), i) == Missing(read, st, i);
      if st.worker.Running? { PendingIsBatched(read, st, i); }
    }
  }

  lemma {:induction false} PendingIsBatched(read: RecordReader, st: State, i: nat)
    requires Inv(read, st) && i < |st.segs| && st.worker.Running?
    ensures PendingRows(read, st.worker.offsets)(i, st.segs[i]) <= multiset(st.worker.rows)
  {
    SumContains(PendingRows(read, st.worker.offsets), st.segs, i);
  }

  /** Of a flagged segment that is not at risk, nothing but what is pending is missing. */
  lemma {:induction false} PendingIsMissing(read: RecordReader, st: State, i: nat)
    requires Sound(read) && Inv(read, st) && i < |st.segs| && !AtRisk(read, st, i) && st.segs[i].Full()
    ensures Missing(read, st, i)
            == if st.worker.Running? then PendingRows(read, st.worker.offsets)(i, st.segs[i]) else multiset{}
    ensures Missing(read, st, i) == multiset{} <==>
            RowsOf(read, i, st.segs[i].bytes, st.segs[i].saved, |st.segs[i].bytes|) == []
  {
    var s := st.segs[i];
    HeldSplits(read, st, i);
    EmptyRun(read, i, s.bytes, s.saved);
    var rows := RowsOf(read, i, s.bytes, s.saved, |s.bytes|);
    assert rows == RowsOf(read, i, s.bytes, s.saved, Held(st, i));
    if multiset(rows) == multiset{} { EmptyMultiset(rows); }
  }

  lemma HeldSplits(read: RecordReader, st: State, i: nat)
    requires Sound(read) && Inv(read, st) && i < |st.segs| && st.segs[i].Full()
    ensures var b := st.segs[i].bytes;
      RowsOf(read, i, b, st.segs[i].saved, |b|)
          == RowsOf(read, i, b, st.segs[i].saved, Held(st, i)) + RowsOf(read, i, b, Held(st, i), |b|)
  {
    var s := st.segs[i];
    HeldRuns(read, st, i);
    RunsSplit(read, i, s.bytes, 0, s.saved, |s.bytes|);
    RunsSplit(read, i, s.bytes, s.saved, Held(st, i), |s.bytes|);
  }

  /** The rows of a flagged segment that are not visible. */
  function Missing(read: RecordReader, st: State, i: nat): multiset<Row>
    requires i < |st.segs|
  {
    multiset(RowsOf(read, i, st.segs[i].bytes, st.segs[i].saved, |st.segs[i].bytes|))
  }

  /** Bytes are only appended, saved offsets only advance, and flags are never taken back. */
  predicate Grows(s: Segment, t: Segment) {
    && s.bytes <= t.bytes && s.saved <= t.saved
    && (s.Full() ==> t.Full() && t.bytes == s.bytes)
    && (s.quarantined ==> t.quarantined)
  }

  lemma SegmentsGrow(read: RecordReader, st: State, step: Step, i: nat)
    requires Sound(read) && Inv(read, st) && Enabled(read, st, step) && i < |st.segs|
    ensures Grows(st.segs[i], Apply(read, st, step).segs[i])
  {
    if step.Commit? && i in st.worker.offsets {
      ReachOrder(View(read, st.segs[i].bytes), st.segs[i].saved, st.worker.offsets[i]);
    }
  }

  lemma GrownMissesLess(read: RecordReader, i: nat, s: Segment, t: Segment)
    requires Sound(read) && SegOk(read, s, false) && SegOk(read, t, false) && s.Full() && Grows(s, t)
    ensures multiset(RowsOf(read, i, t.bytes, t.saved, |t.bytes|))
            <= multiset(RowsOf(read, i, s.bytes, s.saved, |s.bytes|))
  {
    var b := s.bytes;
    RunsInside(read, b, 0, t.saved);
    RunsSplit(read, i, b, 0, s.saved, t.saved);
    RunsSplit(read, i, b, 0, t.saved, |b|);
    RunsConcat(read, i, b, s.saved, t.saved, |b|);
    var x, y := RowsOf(read, i, b, s.saved, t.saved), RowsOf(read, i, b, t.saved, |b|);
    assert multiset(x + y) == multiset(x) + multiset(y);
  }

  lemma {:induction false} MissingShrinks(read: RecordReader, st: State, step: Step, i: nat, st': State)
    requires Sound(read) && Inv(read, st) && Enabled(read, st, step) && i < |st.segs| && st.segs[i].Full()
    requires st' == Apply(read, st, step)
    ensures Missing(read, st', i) <= Missing(read, st, i)
  {
    StepKeepsInv(read, st, step);
    SegmentsGrow(read, st, step, i);
    GrownMissesLess(read, i, st.segs[i], st'.segs[i]);
  }

  /** Step `k` is a crash of a run that had flagged segment `i` while the rows `missing` of it
      were still waiting in memory for their flush. */
  ghost predicate CrashBetweenFlagAndFlush(read: RecordReader, steps: seq<Step>, k: nat, i: nat,
                                           missing: multiset<Row>) {
    && k < |steps| && steps[k] == Crash
    && var before := Run(read, INITIAL, steps[..k]);
    && before.Some? && before.value.worker.Running? && i < |before.value.segs|
    && before.value.segs[i].Full() && i in before.value.worker.offsets
    && missing <= PendingRows(read, before.value.worker.offsets)(i, before.value.segs[i])
               <= multiset(before.value.worker.rows)
  }

  lemma CauseCarries(read: RecordReader, steps: seq<Step>, k: nat, i: nat, missing: multiset<Row>, less: multiset<Row>)
    requires steps != [] && CrashBetweenFlagAndFlush(read, steps[..|steps| - 1], k, i, missing) && less <= missing
    ensures CrashBetweenFlagAndFlush(read, steps, k, i, less)
  {
    assert steps[..k] == steps[..|steps| - 1][..k];
  }

  /** In all runs, whatever a flagged segment does not show was pending in memory when a crash
      fell between its flag and its flush. */
  lemma {:induction false} LossHasOneCause(read: RecordReader, steps: seq<Step>, st: State, i: nat) returns (k: nat)
    requires Sound(read) && Run(read, INITIAL, steps) == Some(st) && AtRisk(read, st, i)
    ensures CrashBetweenFlagAndFlush(read, steps, k, i, Missing(read, st, i))
  {
    var n := |steps| - 1;
    if n < 0 {
      assert false;
    } else {
      var prior := Run(read, INITIAL, steps[..n]).value;
      InitialInv(read);
      RunKeepsInv(read, INITIAL, steps[..n]);
      if AtRisk(read, prior, i) {
        k := LossHasOneCause(read, steps[..n], prior, i);
        MissingShrinks(read, prior, steps[n], i, st);
        CauseCarries(read, steps, k, i, Missing(read, prior, i), Missing(read, st, i));
      } else {
        NewLoss(read, prior, steps[n], i, st);
        k := n;
      }
    }
  }

  lemma {:induction false} NewLoss(read: RecordReader, st: State, step: Step, i: nat, st': State)
    requires Sound(read) && Inv(read, st) && Enabled(read, st, step) && st' == Apply(read, st, step)
    requires !AtRisk(read, st, i) && AtRisk(read, st', i)
    ensures step == Crash && st.worker.Running? && i < |st.segs| && st.segs[i].Full() && i in st.worker.offsets
    ensures Missing(read, st', i) <= PendingRows(read, st.worker.offsets)(i, st.segs[i]) <= multiset(st.worker.rows)
  {
    if i >= |st.segs| { NewSegmentIsSafe(read, st, step, i); }
    if step != Crash { OnlyCrashRisks(read, st, step, i); }
    CrashRisksExactlyPending(read, st, i);
  }

  lemma NewSegmentIsSafe(read: RecordReader, st: State, step: Step, i: nat)
    requires Enabled(read, st, step) && i >= |st.segs|
    ensures !AtRisk(read, Apply(read, st, step), i)
  {
  }

  // ----- Crash-free runs

  lemma {:induction false} CrashFreeNoRisk(read: RecordReader, steps: seq<Step>, i: nat)
    requires Sound(read) && CrashFree(steps) && Run(read, INITIAL, steps).Some?
    ensures Inv(read, Run(read, INITIAL, steps).value)
    ensures !AtRisk(read, Run(read, INITIAL, steps).value, i)
  {
    if steps == [] {
      InitialInv(read);
    } else {
      var init, step := steps[..|steps| - 1], steps[|steps| - 1];
      var prior := Run(read, INITIAL, init).value;
      CrashFreeNoRisk(read, init, i);
      StepKeepsInv(read, prior, step);
      if i < |prior.segs| { OnlyCrashRisks(read, prior, step, i); }
    }
  }

  /** All the rows of a flagged segment that no run is reading are visible. */
  lemma FlaggedIsSaved(read: RecordReader, st: State, i: nat)
    requires Sound(read) && Inv(read, st) && !st.worker.Running? && i < |st.segs| && !AtRisk(read, st, i)
    requires st.segs[i].Full()
    ensures SavedRows(read)(i, st.segs[i]) == AllRows(read)(i, st.segs[i])
    ensures SavedRows(read)(i, st.segs[i]) == MarkedRows(read)(i, st.segs[i])
    ensures ValidEnd(read, st.segs[i].bytes) == |st.segs[i].bytes|
  {
    var s := st.segs[i];
    RunsToValidEnd(read, i, s.bytes, |s.bytes|);
    RunsInside(read, s.bytes, 0, s.saved);
    RunsSplit(read, i, s.bytes, 0, s.saved, |s.bytes|);
    assert RowsOf(read, i, s.bytes, 0, |s.bytes|) == RowsOf(read, i, s.bytes, 0, s.saved);
  }

  /** Exactly once. In a crash-free run, whenever no materialization is under way, the visible rows
      are the rows of all records at or below each segment's high-water mark, over every segment
      ever created, and a flagged segment has all its rows visible, deleted or not. */
  lemma {:induction false} ExactlyOnce(read: RecordReader, steps: seq<Step>, st: State)
    requires Sound(read) && CrashFree(steps) && Run(read, INITIAL, steps) == Some(st) && !st.worker.Running?
    ensures Visible(st.files) == Sum(MarkedRows(read), st.segs)
    ensures forall i :: 0 <= i < |st.segs| && st.segs[i].Full() ==> AllRows(read)(i, st.segs[i]) <= Visible(st.files)
    ensures forall i :: 0 <= i < |st.segs| && st.segs[i].Full() ==>
        ValidEnd(read, st.segs[i].bytes) == |st.segs[i].bytes|
  {
    CrashFreeNoRisk(read, steps, 0);
    forall i | 0 <= i < |st.segs|
      ensures SavedRows(read)(i, st.segs[i]) == MarkedRows(read)(i, st.segs[i])
      ensures st.segs[i].Full() ==> AllRows(read)(i, st.segs[i]) <= Visible(st.files)
      ensures st.segs[i].Full() ==> ValidEnd(read, st.segs[i].bytes) == |st.segs[i].bytes|
    {
      CrashFreeNoRisk(read, steps, i);
      if st.segs[i].Full() {
        FlaggedIsSaved(read, st, i);
        SumContains(SavedRows(read), st.segs, i);
      }
    }
    SumAgrees(SavedRows(read), MarkedRows(read), st.segs, st.segs);
  }

  /** Deletion is safe in a crash-free run: what cleanup may delete is never the open segment,
      never quarantined, and has every row visible. */
  lemma DeletionIsSafe(read: RecordReader, steps: seq<Step>, st: State, i: nat)
    requires Sound(read) && CrashFree(steps) && Run(read, INITIAL, steps) == Some(st)
    requires Enabled(read, st, DeleteSegment(i))
    ensures i < |st.segs| - 1 && !st.segs[i].quarantined
    ensures AllRows(read)(i, st.segs[i]) <= Visible(st.files)
    ensures ValidEnd(read, st.segs[i].bytes) == |st.segs[i].bytes|
  {
    CrashFreeNoRisk(read, steps, i);
    ExactlyOnce(read, steps, st);
  }
}
