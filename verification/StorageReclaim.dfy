/** Concrete losing runs, and the segments that are never flagged and so never deleted. */
module StorageReclaim {
  import opened Basics
  import opened Crc32
  import opened Streams
  import opened SegmentRows
  import opened Sums
  import opened StorageModel
  import opened StorageInvariant
  import opened StorageTheorems
  import opened StorageRecovery

  // ----- The losing run, and what is never reclaimed

  /** Lost rows stay lost: no later step, a crash included, ever saves anything of that segment again. */
  lemma LostStaysLost(read: RecordReader, st: State, step: Step, i: nat)
    requires Sound(read) && Inv(read, st) && Enabled(read, st, step) && Lost(read, st, i)
    requires !(st.worker.Running?
        && (i in st.worker.offsets || (st.worker.cursor.Reading? && st.worker.cursor.seg == i)))
    ensures var st' := Apply(read, st, step);
      && Lost(read, st', i) && st'.segs[i].saved == st.segs[i].saved && st'.segs[i].bytes == st.segs[i].bytes
      && !(st'.worker.Running?
          && (i in st'.worker.offsets || (st'.worker.cursor.Reading? && st'.worker.cursor.seg == i)))
  {
  }

  lemma {:induction false} LostForever(read: RecordReader, st: State, steps: seq<Step>, i: nat)
    requires Sound(read) && Inv(read, st) && Lost(read, st, i) && !st.worker.Running? && Run(read, st, steps).Some?
    ensures var st' := Run(read, st, steps).value;
      && Lost(read, st', i) && st'.segs[i].saved == st.segs[i].saved && st'.segs[i].bytes == st.segs[i].bytes
      && !(st'.worker.Running?
          && (i in st'.worker.offsets || (st'.worker.cursor.Reading? && st'.worker.cursor.seg == i)))
  {
    if steps != [] {
      var init := steps[..|steps| - 1];
      LostForever(read, st, init, i);
      RunKeepsInv(read, st, init);
      LostStaysLost(read, Run(read, st, init).value, steps[|steps| - 1], i);
    }
  }

  /** Append, rotate, read the sealed segment, flag it, crash before the flush. */
  function LosingSteps(x: seq<byte>): seq<Step> {
    [Append(x), Rotate, Begin, Open(0), Read, Flag, Crash]
  }

  /** The state after the first `k` of those steps. */
  function LosingState(read: RecordReader, x: seq<byte>, k: nat): State
    requires k <= 7 && read(x, 0).Record?
  {
    var s := EMPTY_SEGMENT.(bytes := x);
    var rows := RecRows(0)(Rec(0, read(x, 0).end, read(x, 0).payload));
    if k == 0 then INITIAL
    else if k == 1 then State([s], [], Idle)
    else if k == 2 then State([s, EMPTY_SEGMENT], [], Idle)
    else if k == 3 then State([s, EMPTY_SEGMENT], [], Running(1, [], map[], Between(0), None))
    else if k == 4 then State([s, EMPTY_SEGMENT], [], Running(1, [], map[], Reading(0, 0, 0), None))
    else if k == 5 then State([s, EMPTY_SEGMENT], [], Running(1, rows, map[0 := |x|], Reading(0, 0, |x|), None))
    else if k == 6 then State([Flagged(s), EMPTY_SEGMENT], [], Running(1, rows, map[0 := |x|], Between(1), None))
    else State([Flagged(s), EMPTY_SEGMENT], [], Idle)
  }

  /** The step is enabled and leads there. */
  ghost predicate Leads(read: RecordReader, st: State, step: Step, next: State) {
    Enabled(read, st, step) && Apply(read, st, step) == next
  }

  lemma LosingStep(read: RecordReader, x: seq<byte>, k: nat)
    requires k < 7 && Sound(read) && read(x, 0).Record? && (k > 3 ==> read(x, 0).end == |x|)
    ensures Leads(read, LosingState(read, x, k), LosingSteps(x)[k], LosingState(read, x, k + 1))
  {
    if k == 0 {
      assert [] + x == x;
      assert INITIAL.segs[0 := EMPTY_SEGMENT.(bytes := x)] == [EMPTY_SEGMENT.(bytes := x)];
    } else if k == 4 {
      var rows := RecRows(0)(Rec(0, |x|, read(x, 0).payload));
      assert [] + rows == rows;
    }
  }

  lemma {:induction false} LosingPrefix(read: RecordReader, x: seq<byte>, k: nat)
    requires k <= 7 && Sound(read) && read(x, 0).Record? && (k > 4 ==> read(x, 0).end == |x|)
    ensures Run(read, INITIAL, LosingSteps(x)[..k]) == Some(LosingState(read, x, k))
  {
    if k > 0 {
      LosingPrefix(read, x, k - 1);
      LosingStep(read, x, k - 1);
      LastOfPrefix(LosingSteps(x), k);
      RunSnoc(read, INITIAL, LosingSteps(x)[..k - 1], LosingSteps(x)[k - 1]);
    }
  }

  lemma LastOfPrefix(steps: seq<Step>, k: nat)
    requires 0 < k <= |steps|
    ensures steps[..k] == steps[..k - 1] + [steps[k - 1]]
  {
  }

  /** The losing run exists for every segment content that is one record with at least one span. */
  lemma LosingRun(read: RecordReader, x: seq<byte>)
    requires Sound(read) && read(x, 0).Record? && read(x, 0).end == |x| && read(x, 0).payload != []
    ensures var r := Run(read, INITIAL, LosingSteps(x));
      && r.Some? && Inv(read, r.value) && r.value.worker.Idle? && Lost(read, r.value, 0)
      && Visible(r.value.files) == multiset{} && AllRows(read)(0, r.value.segs[0]) != multiset{}
  {
    assert LosingSteps(x)[..7] == LosingSteps(x);
    LosingPrefix(read, x, 7);
    InitialInv(read);
    RunKeepsInv(read, INITIAL, LosingSteps(x));
    OneRecord(read, 0, x, 0);
    var rows := RowsOf(read, 0, x, 0, |x|);
    assert rows[0] in multiset(rows);
    RunsToValidEnd(read, 0, x, |x|);
  }

  // ----- A run at risk that loses nothing by the crash

  /** From the point where the segment has been opened: its first record fills a batch and is flushed,
      its second record is read, the segment is flagged, and the worker dies before the next flush. */
  function PartlySavedSteps(): seq<Step> { [Read, CreateTemp, FillTemp, Rename, Commit, Read, Flag, Crash] }

  /** `x` is two records, the first ending at `e`, each with at least one span. */
  predicate TwoRecords(read: RecordReader, x: seq<byte>, e: nat, p: seq<Span>, q: seq<Span>) {
    0 < e < |x| && read(x, 0) == Record(e, p) && read(x, e) == Record(|x|, q) && p != [] && q != []
  }

  /** The first record has been flushed. */
  function HalfSavedState(x: seq<byte>, e: nat, p: seq<Span>): State {
    var first := RecRows(0)(Rec(0, e, p));
    State([EMPTY_SEGMENT.(bytes := x, mark := Some(Mark(e, false)), saved := e), EMPTY_SEGMENT],
          [ParquetFile(Final(first), Committed(|first|), false)],
          Running(1, [], map[], Reading(0, 0, e), None))
  }

  function PartlySavedState(read: RecordReader, x: seq<byte>, e: nat, p: seq<Span>, q: seq<Span>, k: nat): State
    requires k <= 8 && TwoRecords(read, x, e, p, q)
  {
    var first := RecRows(0)(Rec(0, e, p));
    var second := RecRows(0)(Rec(e, |x|, q));
    var s := EMPTY_SEGMENT.(bytes := x);
    var t := s.(mark := Some(Mark(e, false)), saved := e);
    var reading := Running(1, first, map[0 := e], Reading(0, 0, e), None);
    var file := ParquetFile(Final(first), Committed(|first|), false);
    if k == 0 then LosingState(read, x, 4)
    else if k == 1 then State([s, EMPTY_SEGMENT], [], reading)
    else if k == 2 then State([s, EMPTY_SEGMENT], [ParquetFile(Temp([]), Unlisted, false)], reading.(flight := Some(0)))
    else if k == 3 then State([s, EMPTY_SEGMENT], [ParquetFile(Temp(first), Unlisted, false)],
        reading.(flight := Some(0)))
    else if k == 4 then State([s, EMPTY_SEGMENT], [ParquetFile(Final(first), Unlisted, false)],
        reading.(flight := Some(0)))
    else if k == 5 then HalfSavedState(x, e, p)
    else if k == 6 then HalfSavedState(x, e, p).(worker := Running(1, second, map[0 := |x|], Reading(0, 0, |x|), None))
    else
      State([Flagged(t), EMPTY_SEGMENT], [file],
            if k == 7 then Running(1, second, map[0 := |x|], Between(1), None) else Idle)
  }

  /** Reading one record of segment 0 into an empty batch. */
  lemma FirstRead(read: RecordReader, st: State, active: nat, pos: nat)
    requires st.segs != [] && read(st.segs[0].bytes, pos).Record?
    requires st.worker == Running(active, [], map[], Reading(0, 0, pos), None)
    ensures Enabled(read, st, Read)
    ensures var r := read(st.segs[0].bytes, pos);
      Apply(read, st, Read)
      == st.(worker := Running(active, RecRows(0)(Rec(pos, r.end, r.payload)), map[0 := r.end],
                               Reading(0, 0, r.end), None))
  {
    var r := read(st.segs[0].bytes, pos);
    var rows := RecRows(0)(Rec(pos, r.end, r.payload));
    assert [] + rows == rows;
  }

  lemma PartlySavedRead(read: RecordReader, x: seq<byte>, e: nat, p: seq<Span>, q: seq<Span>)
    requires TwoRecords(read, x, e, p, q)
    ensures Leads(read, PartlySavedState(read, x, e, p, q, 0), Read, PartlySavedState(read, x, e, p, q, 1))
  {
    FirstRead(read, PartlySavedState(read, x, e, p, q, 0), 1, 0);
  }

  lemma PartlySavedWrite(read: RecordReader, x: seq<byte>, e: nat, p: seq<Span>, q: seq<Span>, k: nat)
    requires 1 <= k < 4 && TwoRecords(read, x, e, p, q)
    ensures Leads(read, PartlySavedState(read, x, e, p, q, k), PartlySavedSteps()[k],
        PartlySavedState(read, x, e, p, q, k + 1))
  {
  }

  lemma PartlySavedCommit(read: RecordReader, x: seq<byte>, e: nat, p: seq<Span>, q: seq<Span>)
    requires TwoRecords(read, x, e, p, q)
    ensures Leads(read, PartlySavedState(read, x, e, p, q, 4), Commit, PartlySavedState(read, x, e, p, q, 5))
  {
  }

  lemma PartlySavedAgain(read: RecordReader, x: seq<byte>, e: nat, p: seq<Span>, q: seq<Span>)
    requires TwoRecords(read, x, e, p, q)
    ensures Leads(read, PartlySavedState(read, x, e, p, q, 5), Read, PartlySavedState(read, x, e, p, q, 6))
  {
    FirstRead(read, HalfSavedState(x, e, p), 1, e);
  }

  lemma PartlySavedEnd(read: RecordReader, x: seq<byte>, e: nat, p: seq<Span>, q: seq<Span>, k: nat)
    requires 6 <= k < 8 && Sound(read) && TwoRecords(read, x, e, p, q)
    ensures Leads(read, PartlySavedState(read, x, e, p, q, k), PartlySavedSteps()[k],
        PartlySavedState(read, x, e, p, q, k + 1))
  {
  }

  lemma PartlySavedStep(read: RecordReader, x: seq<byte>, e: nat, p: seq<Span>, q: seq<Span>, k: nat)
    requires k < 8 && Sound(read) && TwoRecords(read, x, e, p, q)
    ensures Leads(read, PartlySavedState(read, x, e, p, q, k), PartlySavedSteps()[k],
        PartlySavedState(read, x, e, p, q, k + 1))
  {
    if k == 0 {
      PartlySavedRead(read, x, e, p, q);
    } else if k < 4 {
      PartlySavedWrite(read, x, e, p, q, k);
    } else if k == 4 {
      PartlySavedCommit(read, x, e, p, q);
    } else if k == 5 {
      PartlySavedAgain(read, x, e, p, q);
    } else {
      PartlySavedEnd(read, x, e, p, q, k);
    }
  }

  lemma {:induction false} PartlySavedPrefix(read: RecordReader, x: seq<byte>, e: nat, p: seq<Span>, q: seq<Span>,
                                             k: nat)
    requires k <= 8 && Sound(read) && TwoRecords(read, x, e, p, q)
    ensures Run(read, INITIAL, LosingSteps(x)[..4] + PartlySavedSteps()[..k])
        == Some(PartlySavedState(read, x, e, p, q, k))
  {
    var first := LosingSteps(x)[..4];
    if k == 0 {
      assert first + PartlySavedSteps()[..0] == first;
      LosingPrefix(read, x, 4);
    } else {
      PartlySavedPrefix(read, x, e, p, q, k - 1);
      PartlySavedStep(read, x, e, p, q, k - 1);
      LastOfPrefix(PartlySavedSteps(), k);
      assert first + PartlySavedSteps()[..k] == first + PartlySavedSteps()[..k - 1] + [PartlySavedSteps()[k - 1]];
      RunSnoc(read, INITIAL, first + PartlySavedSteps()[..k - 1], PartlySavedSteps()[k - 1]);
    }
  }

  /** After this run rows of the flagged segment are in no file and no memory, and yet not lost: the
      next run opens the segment again. A cleanup that comes first makes the loss final. */
  lemma PartlySavedRun(read: RecordReader, x: seq<byte>, e: nat, p: seq<Span>, q: seq<Span>)
    requires Sound(read) && TwoRecords(read, x, e, p, q)
    ensures var r := Run(read, INITIAL, LosingSteps(x)[..4] + PartlySavedSteps());
      && r.Some? && Inv(read, r.value) && r.value.worker.Idle? && AtRisk(read, r.value, 0) && !Lost(read, r.value, 0)
      && Enabled(read, Apply(read, r.value, Begin), Open(0))
      && Enabled(read, r.value, DeleteSegment(0)) && Lost(read, Apply(read, r.value, DeleteSegment(0)), 0)
  {
    var steps := LosingSteps(x)[..4] + PartlySavedSteps();
    assert PartlySavedSteps()[..8] == PartlySavedSteps();
    PartlySavedPrefix(read, x, e, p, q, 8);
    InitialInv(read);
    RunKeepsInv(read, INITIAL, steps);
    var st := PartlySavedState(read, x, e, p, q, 8);
    OneRecord(read, 0, x, e);
    assert AtRisk(read, st, 0);
    DeletionLosesAtRisk(read, st, 0);
  }

  // ----- Segments that are never flagged

  /** Sealed, non-empty, saved to its end and not flagged. This is the fate of a segment whose last
      record filled a batch, for the flush clears the pending offset that the flag test looks at, and
      of every segment that was read to its end while it was still the open one. */
  predicate Stranded(st: State, i: nat) {
    && i + 1 < |st.segs| && st.segs[i].mark.Some? && !st.segs[i].Full() && st.segs[i].onDisk
    && 0 < |st.segs[i].bytes| == st.segs[i].HighWater()
    && !(st.worker.Running? && (i in st.worker.offsets || (st.worker.cursor.Reading? && st.worker.cursor.seg == i)))
  }

  /** At the end of a sealed segment the flag is set exactly when part of the segment is still
      pending, or when there was nothing to read; a flush right after its last record prevents it. */
  lemma FlaggedExactlyWhenPending(read: RecordReader, st: State)
    requires Sound(read) && Inv(read, st) && CanRun(st.worker) && st.worker.cursor.Reading?
    requires st.worker.cursor.seg < st.worker.active && Enabled(read, st, Leave)
    ensures var w, i := st.worker, st.worker.cursor.seg;
      Enabled(read, st, Flag) <==> i in w.offsets || w.cursor.start == |st.segs[i].bytes|
  {
    var w, i := st.worker, st.worker.cursor.seg;
    ReachOrder(View(read, st.segs[i].bytes), w.cursor.start, w.cursor.pos);
    RunsInside(read, st.segs[i].bytes, 0, st.segs[i].HighWater());
    if i in w.offsets { RunsInside(read, st.segs[i].bytes, st.segs[i].saved, w.offsets[i]); }
  }

  /** From the point of the losing run where the record is in memory: its rows fill the batch and
      are flushed, the end of the segment is reached, the run ends. */
  function StrandingSteps(): seq<Step> { [CreateTemp, FillTemp, Rename, Commit, Leave, End] }

  function StrandingState(read: RecordReader, x: seq<byte>, k: nat): State
    requires k <= 6 && read(x, 0).Record?
  {
    var s := EMPTY_SEGMENT.(bytes := x);
    var t := s.(mark := Some(Mark(|x|, false)), saved := |x|);
    var rows := RecRows(0)(Rec(0, read(x, 0).end, read(x, 0).payload));
    var reading := Running(1, rows, map[0 := |x|], Reading(0, 0, |x|), None);
    if k == 0 then LosingState(read, x, 5)
    else if k == 1 then State([s, EMPTY_SEGMENT], [ParquetFile(Temp([]), Unlisted, false)], reading.(flight := Some(0)))
    else if k == 2 then State([s, EMPTY_SEGMENT], [ParquetFile(Temp(rows), Unlisted, false)],
        reading.(flight := Some(0)))
    else if k == 3 then State([s, EMPTY_SEGMENT], [ParquetFile(Final(rows), Unlisted, false)],
        reading.(flight := Some(0)))
    else
      State([t, EMPTY_SEGMENT], [ParquetFile(Final(rows), Committed(|rows|), false)],
            if k == 4 then Running(1, [], map[], Reading(0, 0, |x|), None)
            else if k == 5 then Running(1, [], map[], Between(1), None) else Idle)
  }

  lemma StrandingStep(read: RecordReader, x: seq<byte>, k: nat)
    requires k < 6 && Sound(read) && read(x, 0).Record? && read(x, 0).end == |x| && read(x, 0).payload != []
    ensures Leads(read, StrandingState(read, x, k), StrandingSteps()[k], StrandingState(read, x, k + 1))
  {
  }

  lemma {:induction false} StrandingPrefix(read: RecordReader, x: seq<byte>, k: nat)
    requires k <= 6 && Sound(read) && read(x, 0).Record? && read(x, 0).end == |x| && read(x, 0).payload != []
    ensures Run(read, INITIAL, LosingSteps(x)[..5] + StrandingSteps()[..k]) == Some(StrandingState(read, x, k))
  {
    var first := LosingSteps(x)[..5];
    if k == 0 {
      assert first + StrandingSteps()[..0] == first;
      LosingPrefix(read, x, 5);
    } else {
      StrandingPrefix(read, x, k - 1);
      StrandingStep(read, x, k - 1);
      LastOfPrefix(StrandingSteps(), k);
      assert first + StrandingSteps()[..k] == first + StrandingSteps()[..k - 1] + [StrandingSteps()[k - 1]];
      RunSnoc(read, INITIAL, first + StrandingSteps()[..k - 1], StrandingSteps()[k - 1]);
    }
  }

  /** A segment whose only record fills a batch is stranded by the run that reads it: after the
      flush the flag is not set, and the run ends without it. */
  lemma StrandingRun(read: RecordReader, x: seq<byte>)
    requires Sound(read) && read(x, 0).Record? && read(x, 0).end == |x| && read(x, 0).payload != []
    ensures var atEnd := Run(read, INITIAL, LosingSteps(x)[..5] + StrandingSteps()[..4]);
      atEnd.Some? && Enabled(read, atEnd.value, Leave) && !Enabled(read, atEnd.value, Flag)
    ensures var r := Run(read, INITIAL, LosingSteps(x)[..5] + StrandingSteps());
      && r.Some? && Stranded(r.value, 0)
      && |Visible(r.value.files)| == |read(x, 0).payload|
  {
    StrandingPrefix(read, x, 4);
    StrandingPrefix(read, x, 6);
    StrandingStep(read, x, 4);
    assert StrandingSteps()[..6] == StrandingSteps();
    var files := StrandingState(read, x, 6).files;
    assert Visible(files) == Visible(files[..0]) + FileRows(0, files[0]);
  }

  /** A stranded segment is never flagged, hence never deleted, in any continuation. */
  lemma {:induction false} StrandedForever(read: RecordReader, st: State, steps: seq<Step>, i: nat)
    requires Sound(read) && Stranded(st, i) && Run(read, st, steps).Some?
    ensures Stranded(Run(read, st, steps).value, i)
  {
    if steps != [] {
      var init := steps[..|steps| - 1];
      StrandedForever(read, st, init, i);
      StrandedStays(read, Run(read, st, init).value, steps[|steps| - 1], i);
    }
  }

  lemma StrandedStays(read: RecordReader, st: State, step: Step, i: nat)
    requires Stranded(st, i) && Enabled(read, st, step)
    ensures Stranded(Apply(read, st, step), i)
  {
  }

  /** Sealing a segment that has been read to its end strands it. */
  lemma RotationStrands(read: RecordReader, st: State)
    requires Sound(read) && Inv(read, st) && st.worker.Idle?
    requires var s := st.segs[|st.segs| - 1]; 0 < |s.bytes| == s.HighWater()
    ensures Stranded(Apply(read, st, Rotate), |st.segs| - 1)
  {
    var last := |st.segs| - 1;
    assert SegOk(read, st.segs[last], true);
  }

  /** A segment is read to its end while it is open, by a run that flushes it as its last batch, and
      the gateway rotates. */
  function ActiveReadSteps(x: seq<byte>): seq<Step> {
    [Append(x), Begin, Open(0), Read, Leave, CreateTemp, FillTemp, Rename, Commit, End, Rotate]
  }

  function ActiveReadState(read: RecordReader, x: seq<byte>, k: nat): State
    requires k <= 11 && read(x, 0).Record?
  {
    var s := EMPTY_SEGMENT.(bytes := x);
    var t := s.(mark := Some(Mark(|x|, false)), saved := |x|);
    var rows := RecRows(0)(Rec(0, read(x, 0).end, read(x, 0).payload));
    var done := Running(0, rows, map[0 := |x|], Between(1), None);
    var file := ParquetFile(Final(rows), Committed(|rows|), false);
    if k == 0 then INITIAL
    else if k == 1 then State([s], [], Idle)
    else if k == 2 then State([s], [], Running(0, [], map[], Between(0), None))
    else if k == 3 then State([s], [], Running(0, [], map[], Reading(0, 0, 0), None))
    else if k == 4 then State([s], [], done.(cursor := Reading(0, 0, |x|)))
    else if k == 5 then State([s], [], done)
    else if k == 6 then State([s], [ParquetFile(Temp([]), Unlisted, false)], done.(flight := Some(0)))
    else if k == 7 then State([s], [ParquetFile(Temp(rows), Unlisted, false)], done.(flight := Some(0)))
    else if k == 8 then State([s], [ParquetFile(Final(rows), Unlisted, false)], done.(flight := Some(0)))
    else if k == 9 then State([t], [file], Running(0, [], map[], Between(1), None))
    else State(if k == 10 then [t] else [t, EMPTY_SEGMENT], [file], Idle)
  }

  lemma ActiveReadOpen(read: RecordReader, x: seq<byte>, k: nat)
    requires k < 3 && Sound(read) && read(x, 0).Record? && read(x, 0).end == |x| && read(x, 0).payload != []
    ensures Leads(read, ActiveReadState(read, x, k), ActiveReadSteps(x)[k], ActiveReadState(read, x, k + 1))
  {
    assert [] + x == x;
    assert INITIAL.segs[0 := EMPTY_SEGMENT.(bytes := x)] == [EMPTY_SEGMENT.(bytes := x)];
  }

  lemma ActiveReadRecord(read: RecordReader, x: seq<byte>, k: nat)
    requires k == 3 && read(x, 0).Record? && read(x, 0).end == |x|
    ensures Leads(read, ActiveReadState(read, x, k), ActiveReadSteps(x)[k], ActiveReadState(read, x, k + 1))
  {
    FirstRead(read, ActiveReadState(read, x, k), 0, 0);
  }

  lemma ActiveReadLast(read: RecordReader, x: seq<byte>, k: nat)
    requires k == 4 && Sound(read) && read(x, 0).Record? && read(x, 0).end == |x| && read(x, 0).payload != []
    ensures Leads(read, ActiveReadState(read, x, k), ActiveReadSteps(x)[k], ActiveReadState(read, x, k + 1))
  {
  }

  lemma ActiveReadWrite(read: RecordReader, x: seq<byte>, k: nat)
    requires 5 <= k < 8 && Sound(read) && read(x, 0).Record? && read(x, 0).end == |x| && read(x, 0).payload != []
    ensures Leads(read, ActiveReadState(read, x, k), ActiveReadSteps(x)[k], ActiveReadState(read, x, k + 1))
  {
  }

  lemma ActiveReadCommit(read: RecordReader, x: seq<byte>, k: nat)
    requires k == 8 && Sound(read) && read(x, 0).Record? && read(x, 0).end == |x| && read(x, 0).payload != []
    ensures Leads(read, ActiveReadState(read, x, k), ActiveReadSteps(x)[k], ActiveReadState(read, x, k + 1))
  {
  }

  lemma ActiveReadLeave(read: RecordReader, x: seq<byte>, k: nat)
    requires 9 <= k < 11 && Sound(read) && read(x, 0).Record? && read(x, 0).end == |x| && read(x, 0).payload != []
    ensures Leads(read, ActiveReadState(read, x, k), ActiveReadSteps(x)[k], ActiveReadState(read, x, k + 1))
  {
  }

  lemma ActiveReadStep(read: RecordReader, x: seq<byte>, k: nat)
    requires k < 11 && Sound(read) && read(x, 0).Record? && read(x, 0).end == |x| && read(x, 0).payload != []
    ensures Leads(read, ActiveReadState(read, x, k), ActiveReadSteps(x)[k], ActiveReadState(read, x, k + 1))
  {
    if k < 3 {
      ActiveReadOpen(read, x, k);
    } else if k == 3 {
      ActiveReadRecord(read, x, k);
    } else if k == 4 {
      ActiveReadLast(read, x, k);
    } else if k < 8 {
      ActiveReadWrite(read, x, k);
    } else if k == 8 {
      ActiveReadCommit(read, x, k);
    } else {
      ActiveReadLeave(read, x, k);
    }
  }

  lemma {:induction false} ActiveReadPrefix(read: RecordReader, x: seq<byte>, k: nat)
    requires k <= 11 && Sound(read) && read(x, 0).Record? && read(x, 0).end == |x| && read(x, 0).payload != []
    ensures Run(read, INITIAL, ActiveReadSteps(x)[..k]) == Some(ActiveReadState(read, x, k))
  {
    if k > 0 {
      ActiveReadPrefix(read, x, k - 1);
      ActiveReadStep(read, x, k - 1);
      LastOfPrefix(ActiveReadSteps(x), k);
      RunSnoc(read, INITIAL, ActiveReadSteps(x)[..k - 1], ActiveReadSteps(x)[k - 1]);
    }
  }

  /** The ordinary crash-free run above strands its segment, whatever the batch size. */
  lemma ActiveReadRun(read: RecordReader, x: seq<byte>)
    requires Sound(read) && read(x, 0).Record? && read(x, 0).end == |x| && read(x, 0).payload != []
    ensures var r := Run(read, INITIAL, ActiveReadSteps(x));
      CrashFree(ActiveReadSteps(x)) && r.Some? && Stranded(r.value, 0)
  {
    assert ActiveReadSteps(x)[..11] == ActiveReadSteps(x);
    ActiveReadPrefix(read, x, 11);
  }

  // ----- Which segments can still be flagged

  /** Continues a run by reading the rest of the open segment, which is whole records, into the batch. */
  lemma {:induction false} ReadOut(read: RecordReader, st: State, steps: seq<Step>, at: State)
    returns (more: seq<Step>, end: State)
    requires Sound(read) && Run(read, st, steps) == Some(at) && CrashFree(steps)
    requires CanRun(at.worker) && at.worker.cursor.Reading? && at.worker.cursor.seg < |at.segs|
    requires var b := at.segs[at.worker.cursor.seg].bytes;
      at.worker.cursor.pos <= |b| && Runs(read, b, at.worker.cursor.pos, |b|)
    ensures Run(read, st, more) == Some(end) && CrashFree(more) && end.segs == at.segs
    ensures var w, v, i := at.worker, end.worker, at.worker.cursor.seg;
      && CanRun(v) && v.active == w.active && v.cursor == w.cursor.(pos := |at.segs[i].bytes|)
      && if w.cursor.pos == |at.segs[i].bytes| then v.offsets == w.offsets
         else i in v.offsets && v.offsets[i] == |at.segs[i].bytes|
    decreases |at.segs[at.worker.cursor.seg].bytes| - at.worker.cursor.pos
  {
    var w := at.worker;
    var b := at.segs[w.cursor.seg].bytes;
    more, end := steps, at;
    if w.cursor.pos < |b| {
      assert Steps(View(read, b), w.cursor.pos, |b|);
      var next := Apply(read, at, Read);
      RunSnoc(read, st, steps, Read);
      more, end := ReadOut(read, st, steps + [Read], next);
    }
  }

  /** The crash-free steps flag segment `i`. */
  ghost predicate FlagIt(read: RecordReader, st: State, steps: seq<Step>, i: nat) {
    CrashFree(steps) && Run(read, st, steps).Some? && i < |Run(read, st, steps).value.segs|
    && Run(read, st, steps).value.segs[i].Full()
  }

  lemma OpenForRun(read: RecordReader, st: State, i: nat) returns (there: State)
    requires st.worker.Idle? && i < |st.segs| && st.segs[i].onDisk && !st.segs[i].quarantined && !Skipped(st.segs[i])
    ensures Run(read, st, [Begin, Open(i)]) == Some(there) && there.segs == st.segs
    ensures there.worker
            == Running(|st.segs| - 1, [], map[], Reading(i, st.segs[i].HighWater(), st.segs[i].HighWater()), None)
  {
    var begun := Apply(read, st, Begin);
    there := Apply(read, begun, Open(i));
    assert [] + [Begin] == [Begin] && [Begin] + [Open(i)] == [Begin, Open(i)];
    RunSnoc(read, st, [], Begin);
    RunSnoc(read, st, [Begin], Open(i));
  }

  /** A sealed segment with something unread, or with no bytes at all, is flagged by a run that reads it out. */
  lemma UnreadCanBeFlagged(read: RecordReader, st: State, i: nat) returns (steps: seq<Step>)
    requires Sound(read) && Inv(read, st) && st.worker.Idle? && i + 1 < |st.segs|
    requires var s := st.segs[i]; s.onDisk && !s.quarantined && !s.Full() && Runs(read, s.bytes, 0, |s.bytes|)
    requires !(0 < |st.segs[i].bytes| == st.segs[i].HighWater())
    ensures FlagIt(read, st, steps, i)
  {
    var s := st.segs[i];
    assert SegOk(read, s, false);
    RunsInside(read, s.bytes, 0, s.HighWater());
    RunsSplit(read, i, s.bytes, 0, s.HighWater(), |s.bytes|);
    var there := OpenForRun(read, st, i);
    var more, end := ReadOut(read, st, [Begin, Open(i)], there);
    FlagAtEnd(read, st, more, end, i);
    steps := more + [Flag];
  }

  lemma FlagAtEnd(read: RecordReader, st: State, steps: seq<Step>, end: State, i: nat)
    requires Sound(read) && CrashFree(steps) && Run(read, st, steps) == Some(end) && i < |end.segs|
    requires CanRun(end.worker)
    requires var w := end.worker;
      && w.cursor.Reading? && w.cursor.seg == i < w.active && w.cursor.pos == |end.segs[i].bytes|
      && |end.segs[i].bytes| == Reached(w, i, w.cursor.start)
    ensures FlagIt(read, st, steps + [Flag], i)
  {
    RunSnoc(read, st, steps, Flag);
  }

  /** The exact condition for reclaiming. A sealed segment of whole records that is present and not
      yet flagged can still be flagged, and so deleted, if and only if its stored offset is not
      already at the end of its bytes. */
  lemma FlaggableExactlyWhenUnread(read: RecordReader, st: State, i: nat)
    requires Sound(read) && Inv(read, st) && st.worker.Idle? && i + 1 < |st.segs|
    requires var s := st.segs[i]; s.onDisk && !s.quarantined && !s.Full() && Runs(read, s.bytes, 0, |s.bytes|)
    ensures (exists steps :: FlagIt(read, st, steps, i)) <==> !(0 < |st.segs[i].bytes| == st.segs[i].HighWater())
  {
    if 0 < |st.segs[i].bytes| == st.segs[i].HighWater() {
      forall steps ensures !FlagIt(read, st, steps, i) {
        if Run(read, st, steps).Some? { StrandedForever(read, st, steps, i); }
      }
    } else {
      var steps := UnreadCanBeFlagged(read, st, i);
    }
  }
}
