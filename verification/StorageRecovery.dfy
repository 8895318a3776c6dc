/** What a run shows once everything is read, and what a crash or a quarantine leaves out. */
module StorageRecovery {
  import opened Basics
  import opened Crc32
  import opened Streams
  import opened SegmentRows
  import opened Sums
  import opened StorageModel
  import opened StorageInvariant
  import opened StorageTheorems

  // ----- Everything read

  /** No segment that a run would open holds a row beyond what it has saved. */
  ghost predicate FullyRead(read: RecordReader, st: State) {
    forall i :: (0 <= i < |st.segs| && st.segs[i].onDisk && !st.segs[i].quarantined
                 && st.segs[i].HighWater() == st.segs[i].saved) ==>
      RowsOf(read, i, st.segs[i].bytes, st.segs[i].saved, ValidEnd(read, st.segs[i].bytes)) == []
  }

  /** Rows that no later run will pick up: flagged early and never flushed, or deleted before they were read again. */
  ghost predicate Lost(read: RecordReader, st: State, i: nat) {
    && i < |st.segs| && st.segs[i].Full()
    && RowsOf(read, i, st.segs[i].bytes, st.segs[i].saved, |st.segs[i].bytes|) != []
    && (st.segs[i].HighWater() != st.segs[i].saved || !st.segs[i].onDisk)
  }

  /** The exact condition for a loss. A crash loses rows of a segment for good if and only if rows of
      it are pending while its row of offsets is flagged and stands at the end of the file, that is,
      the flag was inserted before anything of the segment had been flushed. */
  lemma CrashLosesExactly(read: RecordReader, st: State, i: nat)
    requires Sound(read) && Inv(read, st) && i < |st.segs| && !AtRisk(read, st, i)
    ensures Lost(read, Apply(read, st, Crash), i) <==>
            && st.worker.Running? && i in st.worker.offsets && st.segs[i].Full()
            && PendingRows(read, st.worker.offsets)(i, st.segs[i]) != multiset{}
            && st.segs[i].HighWater() == |st.segs[i].bytes|
  {
    CrashRisksExactlyPending(read, st, i);
    var s := st.segs[i];
    if st.worker.Running? && i in st.worker.offsets {
      EmptyRun(read, i, s.bytes, s.saved);
      RunsInside(read, s.bytes, 0, s.saved);
      RunsInside(read, s.bytes, s.saved, st.worker.offsets[i]);
    }
  }

  // ----- Segments that are read again

  /** Flagged, present, and with a mark from an earlier flush: later runs resume from that mark. */
  predicate ReadAgain(s: Segment) { s.onDisk && s.Full() && s.HighWater() == s.saved }

  /** At risk but not lost is the other case: the mark stands where the rows were saved. */
  lemma AtRiskIsLostOrReadAgain(read: RecordReader, st: State, i: nat)
    requires Sound(read) && Inv(read, st) && st.worker.Idle? && AtRisk(read, st, i)
    ensures Lost(read, st, i) <==> !ReadAgain(st.segs[i])
  {
  }

  lemma {:induction false} StaysReadAgain(read: RecordReader, st: State, steps: seq<Step>, i: nat)
    requires Sound(read) && Inv(read, st) && i < |st.segs| && ReadAgain(st.segs[i]) && Run(read, st, steps).Some?
    requires DeleteSegment(i) !in steps
    ensures var st' := Run(read, st, steps).value; i < |st'.segs| && ReadAgain(st'.segs[i])
  {
    if steps != [] {
      var init, step := steps[..|steps| - 1], steps[|steps| - 1];
      StaysReadAgain(read, st, init, i);
      RunKeepsInv(read, st, init);
      assert step in steps;
      StepKeepsReadAgain(read, Run(read, st, init).value, step, i);
    }
  }

  lemma {:induction false} StepKeepsReadAgain(read: RecordReader, st: State, step: Step, i: nat)
    requires Sound(read) && Inv(read, st) && i < |st.segs| && ReadAgain(st.segs[i]) && Enabled(read, st, step)
    requires step != DeleteSegment(i)
    ensures i < |Apply(read, st, step).segs| && ReadAgain(Apply(read, st, step).segs[i])
  {
    if step.Commit? && i in st.worker.offsets {
      CommittedSegment(read, i, st.segs[i], st.worker.offsets[i], i == |st.segs| - 1);
    }
  }

  /** Rows at risk that are not lost come back: whatever else happens, further crashes included, once
      everything is read the segment shows all its rows, provided cleanup has not deleted it first. */
  lemma AtRiskIsRecovered(read: RecordReader, st: State, steps: seq<Step>, after: State, i: nat)
    requires Sound(read) && Inv(read, st) && st.worker.Idle? && AtRisk(read, st, i) && !Lost(read, st, i)
    requires Run(read, st, steps) == Some(after) && DeleteSegment(i) !in steps && after.worker.Idle?
    requires FullyRead(read, after)
    ensures i < |after.segs| && SavedRows(read)(i, after.segs[i]) == AllRows(read)(i, after.segs[i])
  {
    AtRiskIsLostOrReadAgain(read, st, i);
    StaysReadAgain(read, st, steps, i);
    RunKeepsInv(read, st, steps);
    RunGrows(read, st, steps, i);
    NothingUnreadShowsAll(read, after, i);
  }

  /** Cleanup may delete such a segment before it is read again, and then its rows are lost. */
  lemma DeletionLosesAtRisk(read: RecordReader, st: State, i: nat)
    requires Sound(read) && Inv(read, st) && st.worker.Idle? && AtRisk(read, st, i)
    ensures Enabled(read, st, DeleteSegment(i)) && Lost(read, Apply(read, st, DeleteSegment(i)), i)
  {
    assert SegOk(read, st.segs[i], i == |st.segs| - 1);
  }

  lemma NothingUnreadShowsAll(read: RecordReader, st: State, i: nat)
    requires Sound(read) && Inv(read, st) && i < |st.segs| && FullyRead(read, st) && st.segs[i].onDisk
    requires !st.segs[i].quarantined && st.segs[i].HighWater() == st.segs[i].saved
    ensures SavedRows(read)(i, st.segs[i]) == AllRows(read)(i, st.segs[i])
  {
    var s := st.segs[i];
    RunsToValidEnd(read, i, s.bytes, s.saved);
    assert RowsOf(read, i, s.bytes, 0, ValidEnd(read, s.bytes)) == RowsOf(read, i, s.bytes, 0, s.saved);
  }

  /** After any run, crashes included, once everything that can be read has been read, a segment
      shows either all its valid rows or it is quarantined or it has lost rows to a crash. */
  lemma RecoveryBound(read: RecordReader, steps: seq<Step>, st: State, i: nat)
    requires Sound(read) && Run(read, INITIAL, steps) == Some(st) && st.worker.Idle? && FullyRead(read, st)
    requires i < |st.segs|
    ensures
      || SavedRows(read)(i, st.segs[i]) == AllRows(read)(i, st.segs[i])
      || st.segs[i].quarantined || Lost(read, st, i)
  {
    InitialInv(read);
    RunKeepsInv(read, INITIAL, steps);
    var s := st.segs[i];
    RunsToValidEnd(read, i, s.bytes, s.saved);
    if s.Full() { RunsToValidEnd(read, i, s.bytes, |s.bytes|); }
    if !s.quarantined && !Lost(read, st, i) {
      assert RowsOf(read, i, s.bytes, s.saved, ValidEnd(read, s.bytes)) == [];
      assert RowsOf(read, i, s.bytes, 0, ValidEnd(read, s.bytes)) == RowsOf(read, i, s.bytes, 0, s.saved);
    }
  }

  /** Quarantine loses nothing: when it is recorded all the valid rows of the segment are visible,
      and they stay so in every continuation, crashes included, until the segment grows. */
  lemma {:induction false} QuarantineIsLossless(read: RecordReader, st: State, steps: seq<Step>, i: nat, after: State)
    requires Sound(read) && Inv(read, st) && Enabled(read, st, Quarantine) && i == st.worker.cursor.seg
    requires Run(read, Apply(read, st, Quarantine), steps) == Some(after)
    ensures i < |after.segs| && after.segs[i].quarantined
    ensures after.segs[i].bytes == st.segs[i].bytes ==>
        SavedRows(read)(i, after.segs[i]) == AllRows(read)(i, after.segs[i])
  {
    var st' := Apply(read, st, Quarantine);
    NothingPendingAtQuarantine(read, st, i);
    StepKeepsInv(read, st, Quarantine);
    RunKeepsInv(read, st', steps);
    RunGrows(read, st', steps, i);
    if after.segs[i].bytes == st.segs[i].bytes { SavedToTheEnd(read, i, st.segs[i], after.segs[i]); }
  }

  lemma SavedToTheEnd(read: RecordReader, i: nat, s: Segment, t: Segment)
    requires Sound(read) && Runs(read, s.bytes, 0, s.saved) && Runs(read, t.bytes, 0, t.saved)
    requires s.bytes == t.bytes && s.saved <= t.saved
    requires RowsOf(read, i, s.bytes, s.saved, ValidEnd(read, s.bytes)) == []
    ensures SavedRows(read)(i, t) == AllRows(read)(i, t)
  {
    var e := ValidEnd(read, s.bytes);
    RunsToValidEnd(read, i, s.bytes, s.saved);
    RunsToValidEnd(read, i, s.bytes, t.saved);
    RunsSplit(read, i, s.bytes, 0, s.saved, t.saved);
    RunsSplit(read, i, s.bytes, s.saved, t.saved, e);
  }

  lemma {:induction false} NothingPendingAtQuarantine(read: RecordReader, st: State, i: nat)
    requires Sound(read) && Inv(read, st) && Enabled(read, st, Quarantine) && i == st.worker.cursor.seg
    ensures RowsOf(read, i, st.segs[i].bytes, st.segs[i].saved, ValidEnd(read, st.segs[i].bytes)) == []
  {
    var s, w := st.segs[i], st.worker;
    if s.HighWater() != s.saved && i !in w.offsets { CleanIsNotCorrupt(read, st, i); }
    HeldRuns(read, st, i);
    assert w.cursor.pos == Held(st, i);
    RunsToValidEnd(read, i, s.bytes, Held(st, i));
    EmptyRun(read, i, s.bytes, s.saved);
    SumContains(PendingRows(read, w.offsets), st.segs, i);
    assert multiset(RowsOf(read, i, s.bytes, s.saved, Held(st, i))) == multiset{};
    EmptyMultiset(RowsOf(read, i, s.bytes, s.saved, Held(st, i)));
  }

  lemma {:induction false} RunGrows(read: RecordReader, st: State, steps: seq<Step>, i: nat)
    requires Sound(read) && Inv(read, st) && i < |st.segs| && Run(read, st, steps).Some?
    ensures i < |Run(read, st, steps).value.segs|
    ensures Grows(st.segs[i], Run(read, st, steps).value.segs[i])
  {
    if steps != [] {
      var init := steps[..|steps| - 1];
      RunGrows(read, st, init, i);
      RunKeepsInv(read, st, init);
      SegmentsGrow(read, Run(read, st, init).value, steps[|steps| - 1], i);
    }
  }

  /** Segments of whole records are never quarantined. */
  lemma WholeRecordsAreNotQuarantined(read: RecordReader, st: State, i: nat)
    requires Sound(read) && Inv(read, st) && st.worker.Running? && st.worker.cursor.Reading?
    requires i == st.worker.cursor.seg
    requires i < |st.segs| && Runs(read, st.segs[i].bytes, 0, |st.segs[i].bytes|)
    ensures !Enabled(read, st, Quarantine)
  {
    CleanIsNotCorrupt(read, st, i);
  }

  // ----- Why a quarantined segment stops where it does

  /** Step `k` quarantines segment `i`. */
  ghost predicate QuarantinedAt(read: RecordReader, steps: seq<Step>, k: nat, i: nat) {
    && k < |steps| && steps[k] == Quarantine
    && var before := Run(read, INITIAL, steps[..k]);
    && before.Some? && before.value.worker.Running? && before.value.worker.cursor.Reading?
    && before.value.worker.cursor.seg == i < |before.value.segs|
  }

  /** The segment as the quarantine found it. */
  ghost function FoundAt(read: RecordReader, steps: seq<Step>, k: nat, i: nat): Segment
    requires QuarantinedAt(read, steps, k, i)
  {
    Run(read, INITIAL, steps[..k]).value.segs[i]
  }

  /** Nothing is missing of what the segment held when it was quarantined at step `k`. */
  ghost predicate QuarantinedWhole(read: RecordReader, steps: seq<Step>, k: nat, i: nat, s: Segment) {
    && QuarantinedAt(read, steps, k, i)
    && FoundAt(read, steps, k, i).bytes <= s.bytes
    && AllRows(read)(i, FoundAt(read, steps, k, i)) <= SavedRows(read)(i, s)
  }

  lemma GrownShowsMore(read: RecordReader, i: nat, s: Segment, t: Segment)
    requires Sound(read) && Runs(read, s.bytes, 0, s.saved) && Runs(read, t.bytes, 0, t.saved) && Grows(s, t)
    ensures SavedRows(read)(i, s) <= SavedRows(read)(i, t)
  {
    var x := t.bytes[|s.bytes|..];
    assert t.bytes == s.bytes + x;
    RunsGrow(read, i, s.bytes, x, 0, s.saved);
    RunsSplit(read, i, t.bytes, 0, s.saved, t.saved);
  }

  lemma OnlyQuarantineQuarantines(read: RecordReader, st: State, step: Step, i: nat)
    requires Enabled(read, st, step) && i < |Apply(read, st, step).segs| && Apply(read, st, step).segs[i].quarantined
    requires i < |st.segs| ==> !st.segs[i].quarantined
    ensures step == Quarantine && st.worker.cursor.seg == i < |st.segs|
  {
  }

  lemma WholeCarries(read: RecordReader, steps: seq<Step>, k: nat, i: nat, s: Segment, t: Segment)
    requires steps != [] && QuarantinedWhole(read, steps[..|steps| - 1], k, i, s)
    requires Sound(read) && Runs(read, s.bytes, 0, s.saved) && Runs(read, t.bytes, 0, t.saved) && Grows(s, t)
    ensures QuarantinedWhole(read, steps, k, i, t)
  {
    assert steps[..k] == steps[..|steps| - 1][..k];
    GrownShowsMore(read, i, s, t);
  }

  /** In all runs a quarantined segment shows all the rows it held when it was quarantined. */
  lemma {:induction false} QuarantineIsWhole(read: RecordReader, steps: seq<Step>, st: State, i: nat) returns (k: nat)
    requires Sound(read) && Run(read, INITIAL, steps) == Some(st) && i < |st.segs| && st.segs[i].quarantined
    ensures QuarantinedWhole(read, steps, k, i, st.segs[i])
  {
    var n := |steps| - 1;
    if n < 0 {
      assert false;
    } else {
      var prior := Run(read, INITIAL, steps[..n]).value;
      InitialInv(read);
      RunKeepsInv(read, INITIAL, steps[..n]);
      StepKeepsInv(read, prior, steps[n]);
      if i < |prior.segs| && prior.segs[i].quarantined {
        k := QuarantineIsWhole(read, steps[..n], prior, i);
        SegmentsGrow(read, prior, steps[n], i);
        WholeCarries(read, steps, k, i, prior.segs[i], st.segs[i]);
      } else {
        OnlyQuarantineQuarantines(read, prior, steps[n], i);
        WholeAtQuarantine(read, prior, i);
        k := n;
      }
    }
  }

  lemma WholeAtQuarantine(read: RecordReader, st: State, i: nat)
    requires Sound(read) && Inv(read, st) && Enabled(read, st, Quarantine) && i == st.worker.cursor.seg
    ensures var s, t := st.segs[i], Apply(read, st, Quarantine).segs[i];
      s.bytes == t.bytes && AllRows(read)(i, s) == SavedRows(read)(i, t)
  {
    NothingPendingAtQuarantine(read, st, i);
    SavedToTheEnd(read, i, st.segs[i], st.segs[i]);
  }

  /** Crash recovery. After any run, crashes included, that ends with everything readable read, every
      segment shows all its valid rows, or it is quarantined and shows all it held at that moment, or
      what it lacks was pending in memory when a crash fell between its flag and its flush. */
  lemma Recovery(read: RecordReader, steps: seq<Step>, st: State, i: nat)
    requires Sound(read) && Run(read, INITIAL, steps) == Some(st) && st.worker.Idle? && FullyRead(read, st)
    requires i < |st.segs|
    ensures
      || SavedRows(read)(i, st.segs[i]) == AllRows(read)(i, st.segs[i])
      || (st.segs[i].quarantined && exists k: nat :: QuarantinedWhole(read, steps, k, i, st.segs[i]))
      || exists k: nat :: CrashBetweenFlagAndFlush(read, steps, k, i, Missing(read, st, i))
  {
    RecoveryBound(read, steps, st, i);
    if st.segs[i].quarantined {
      var k := QuarantineIsWhole(read, steps, st, i);
    } else if Lost(read, st, i) {
      var k := LossHasOneCause(read, steps, st, i);
    }
  }

  // ----- Schedule independence

  /** A segment quarantined while it was still the open one has not grown since. */
  ghost predicate UngrownSinceQuarantine(read: RecordReader, steps: seq<Step>, st: State) {
    forall k: nat, i: nat {:trigger QuarantinedAt(read, steps, k, i)} ::
      (QuarantinedAt(read, steps, k, i) && i + 1 == |Run(read, INITIAL, steps[..k]).value.segs|) ==>
        (i < |st.segs| && st.segs[i].quarantined ==> st.segs[i].bytes == FoundAt(read, steps, k, i).bytes)
  }

  lemma SealedStays(read: RecordReader, st: State, step: Step, i: nat)
    requires Enabled(read, st, step) && i + 1 < |st.segs|
    ensures i + 1 < |Apply(read, st, step).segs| && Apply(read, st, step).segs[i].bytes == st.segs[i].bytes
  {
  }

  /** A segment that was sealed when it was quarantined never grows. */
  lemma {:induction false} SealedQuarantineStays(read: RecordReader, steps: seq<Step>, k: nat, i: nat)
    requires Run(read, INITIAL, steps).Some? && QuarantinedAt(read, steps, k, i)
    requires i + 1 < |Run(read, INITIAL, steps[..k]).value.segs|
    ensures var st := Run(read, INITIAL, steps).value;
      i + 1 < |st.segs| && st.segs[i].bytes == FoundAt(read, steps, k, i).bytes
    decreases |steps|
  {
    var n := |steps| - 1;
    var prior := Run(read, INITIAL, steps[..n]).value;
    if k < n {
      assert steps[..k] == steps[..n][..k];
      SealedQuarantineStays(read, steps[..n], k, i);
    }
    SealedStays(read, prior, steps[n], i);
  }

  /** A quarantined segment that has not grown shows all its valid rows. */
  lemma UngrownShowsAll(read: RecordReader, steps: seq<Step>, st: State, i: nat)
    requires Sound(read) && Run(read, INITIAL, steps) == Some(st) && i < |st.segs| && st.segs[i].quarantined
    requires UngrownSinceQuarantine(read, steps, st)
    ensures SavedRows(read)(i, st.segs[i]) == AllRows(read)(i, st.segs[i])
  {
    var k := QuarantineIsWhole(read, steps, st, i);
    if i + 1 < |Run(read, INITIAL, steps[..k]).value.segs| { SealedQuarantineStays(read, steps, k, i); }
    assert AllRows(read)(i, FoundAt(read, steps, k, i)) == AllRows(read)(i, st.segs[i]);
    InitialInv(read);
    RunKeepsInv(read, INITIAL, steps);
    RunsToValidEnd(read, i, st.segs[i].bytes, st.segs[i].saved);
  }

  /** However a crash-free run was scheduled and batched, once everything is read it shows what one
      scan of all segments from the start would show, unless a segment grew after its quarantine. */
  lemma FullyReadShowsAll(read: RecordReader, steps: seq<Step>, st: State)
    requires Sound(read) && CrashFree(steps) && Run(read, INITIAL, steps) == Some(st) && st.worker.Idle?
    requires FullyRead(read, st)
    requires UngrownSinceQuarantine(read, steps, st)
    ensures Visible(st.files) == Sum(AllRows(read), st.segs)
  {
    CrashFreeNoRisk(read, steps, 0);
    forall i | 0 <= i < |st.segs| ensures SavedRows(read)(i, st.segs[i]) == AllRows(read)(i, st.segs[i]) {
      if st.segs[i].quarantined {
        UngrownShowsAll(read, steps, st, i);
      } else {
        CrashFreeNoRisk(read, steps, i);
        RecoveryBound(read, steps, st, i);
      }
    }
    SumAgrees(SavedRows(read), AllRows(read), st.segs, st.segs);
  }

  lemma ScheduleIndependence(read: RecordReader, steps: seq<Step>, st: State, other: seq<Step>, st': State)
    requires Sound(read)
    requires CrashFree(steps) && Run(read, INITIAL, steps) == Some(st) && st.worker.Idle? && FullyRead(read, st)
    requires CrashFree(other) && Run(read, INITIAL, other) == Some(st') && st'.worker.Idle? && FullyRead(read, st')
    requires UngrownSinceQuarantine(read, steps, st) && UngrownSinceQuarantine(read, other, st')
    requires |st.segs| == |st'.segs| && forall i :: 0 <= i < |st.segs| ==> st.segs[i].bytes == st'.segs[i].bytes
    ensures Visible(st.files) == Visible(st'.files)
  {
    FullyReadShowsAll(read, steps, st);
    FullyReadShowsAll(read, other, st');
    SumAgrees(AllRows(read), AllRows(read), st.segs, st'.segs);
  }
}
