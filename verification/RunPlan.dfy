/** What a run of `materialize` does to the flags, told from the table of segments it starts from. */
module RunPlan {
  import opened Basics
  import opened Crc32
  import opened Streams
  import opened SegmentRows
  import opened StorageModel

  type SpanRecord = Rec<seq<Span>>

  // ----- The batch, as the records are taken into it one by one

  /** The rows left in a batch of `n` rows after the records: taking the last one in empties the
      batch when it has reached its size. */
  function Left(size: nat, n: nat, recs: seq<SpanRecord>): nat
    decreases |recs|, 1
  {
    if recs == [] then n
    else if LastFills(size, n, recs) then 0
    else Left(size, n, recs[..|recs| - 1]) + |recs[|recs| - 1].payload|
  }

  /** The last of the records brings the batch to its size. */
  predicate LastFills(size: nat, n: nat, recs: seq<SpanRecord>)
    decreases |recs|, 0
  {
    recs != [] && Left(size, n, recs[..|recs| - 1]) + |recs[|recs| - 1].payload| >= size
  }

  /** How often the records bring the batch to its size. */
  function Fills(size: nat, n: nat, recs: seq<SpanRecord>): nat {
    if recs == [] then 0
    else Fills(size, n, recs[..|recs| - 1]) + (if LastFills(size, n, recs) then 1 else 0)
  }

  lemma TakeOneMore(size: nat, n: nat, recs: seq<SpanRecord>, rec: SpanRecord)
    ensures LastFills(size, n, recs + [rec]) <==> Left(size, n, recs) + |rec.payload| >= size
    ensures Left(size, n, recs + [rec])
         == if LastFills(size, n, recs + [rec]) then 0 else Left(size, n, recs) + |rec.payload|
    ensures Fills(size, n, recs + [rec])
         == Fills(size, n, recs) + if LastFills(size, n, recs + [rec]) then 1 else 0
  {
    assert (recs + [rec])[..|recs|] == recs;
  }

  /** The records from `start` to `pos` have been taken into a batch of `n` rows. */
  predicate Tallied(read: RecordReader, b: seq<byte>, start: nat, pos: nat, size: nat, n: nat, left: nat, fills: nat,
                    pending: Option<nat>) {
    && Runs(read, b, start, pos)
    && var recs := Scan(View(read, b), start, pos);
       && left == Left(size, n, recs) && fills == Fills(size, n, recs)
       && pending == if recs == [] || LastFills(size, n, recs) then None else Some(pos)
  }

  lemma TallyStart(read: RecordReader, b: seq<byte>, start: nat, size: nat, n: nat)
    requires Sound(read)
    ensures Tallied(read, b, start, start, size, n, n, 0, None)
  {
    assert !Steps(View(read, b), start, start);
  }

  lemma TallyOn(read: RecordReader, b: seq<byte>, start: nat, pos: nat, size: nat, n: nat, left: nat, fills: nat,
                pending: Option<nat>)
    requires Sound(read) && Tallied(read, b, start, pos, size, n, left, fills, pending) && read(b, pos).Record?
    ensures var r, sum := read(b, pos), left + |read(b, pos).payload|;
      Tallied(read, b, start, r.end, size, n, if sum >= size then 0 else sum, fills + (if sum >= size then 1 else 0),
              if sum >= size then None else Some(r.end))
  {
    var v, r := View(read, b), read(b, pos);
    assert !Steps(v, r.end, r.end);
    assert Scan(v, pos, r.end) == [Rec(pos, r.end, r.payload)];
    ReachConcat(v, start, pos, r.end);
    TakeOneMore(size, n, Scan(v, start, pos), Rec(pos, r.end, r.payload));
  }

  // ----- One segment

  /** The run reads this segment: it has bytes past its mark, or none at all and no flag. */
  predicate Opened(s: Segment) {
    && s.onDisk && !s.quarantined
    && match s.mark
       case None => true
       case Some(m) => m.maxOffset < |s.bytes| || (s.bytes == [] && !m.full)
  }

  /** Valid records lie end to end up to the end of the segment. */
  predicate Whole(read: RecordReader, s: Segment) { ValidEnd(read, s.bytes) == |s.bytes| }

  /** The records from the segment's mark on. */
  function Unread(read: RecordReader, s: Segment): seq<SpanRecord> {
    Scan(View(read, s.bytes), if s.mark.Some? then s.mark.value.maxOffset else 0, |s.bytes|)
  }

  function LeftAfter(read: RecordReader, s: Segment, size: nat, n: nat): nat {
    if !Opened(s) then n
    else if !Whole(read, s) then 0
    else Left(size, n, Unread(read, s))
  }

  function FillsIn(read: RecordReader, s: Segment, size: nat, n: nat): nat {
    if Opened(s) then Fills(size, n, Unread(read, s)) else 0
  }

  /** Flagged before, or sealed, read cleanly to the end, and the end still in the batch. */
  predicate EndsFull(read: RecordReader, s: Segment, sealed: bool, size: nat, n: nat) {
    || s.Full()
    || (sealed && Opened(s) && Whole(read, s) && !LastFills(size, n, Unread(read, s)))
  }

  predicate EndsQuarantined(read: RecordReader, s: Segment) { s.quarantined || (Opened(s) && !Whole(read, s)) }

  /** What became of segment `s`, read with `n` rows in the batch. */
  predicate AsPlanned(read: RecordReader, s: Segment, t: Segment, sealed: bool, size: nat, n: nat, left: nat,
                      fills: nat) {
    && (t.Full() <==> EndsFull(read, s, sealed, size, n))
    && (t.quarantined <==> EndsQuarantined(read, s))
    && left == LeftAfter(read, s, size, n) && fills == FillsIn(read, s, size, n)
  }

  /** Where the reader stops, the tally is that of all unread records. */
  lemma TallyAtStop(read: RecordReader, s: Segment, pos: nat, size: nat, n: nat, left: nat, fills: nat,
                    pending: Option<nat>)
    requires Sound(read) && Opened(s) && Runs(read, s.bytes, 0, s.HighWater()) && !read(s.bytes, pos).Record?
    requires Tallied(read, s.bytes, s.HighWater(), pos, size, n, left, fills, pending)
    ensures left == Left(size, n, Unread(read, s)) && fills == Fills(size, n, Unread(read, s))
    ensures Whole(read, s) <==> read(s.bytes, pos).EndOfFile?
    ensures Whole(read, s) ==> (|s.bytes| == (if pending.Some? then pending.value else s.HighWater())
                                <==> !LastFills(size, n, Unread(read, s)))
  {
    var v, start := View(read, s.bytes), s.HighWater();
    RunsConcat(read, 0, s.bytes, 0, start, pos);
    RunsToValidEnd(read, 0, s.bytes, pos);
    ScanStops(v, start, pos, |s.bytes|);
    if Scan(v, start, pos) == [] { assert start == pos; }
  }

  lemma UnopenedIsAsPlanned(read: RecordReader, s: Segment, sealed: bool, size: nat, n: nat)
    requires !Opened(s)
    ensures AsPlanned(read, s, s, sealed, size, n, n, 0)
  {
  }

  lemma OpenedIsNotSkipped(s: Segment)
    ensures Opened(s) <==> s.onDisk && !s.quarantined && !Skipped(s)
  {
  }

  // ----- The whole table

  /** The rows in the batch when the run comes to segment `i`. */
  function LeftBefore(read: RecordReader, table: seq<Segment>, size: nat, i: nat): nat
    requires i <= |table|
  {
    if i == 0 then 0 else LeftAfter(read, table[i - 1], size, LeftBefore(read, table, size, i - 1))
  }

  /** How often the batch has reached its size by then. */
  function FillsBefore(read: RecordReader, table: seq<Segment>, size: nat, i: nat): nat
    requires i <= |table|
  {
    if i == 0 then 0
    else FillsBefore(read, table, size, i - 1) + FillsIn(read, table[i - 1], size, LeftBefore(read, table, size, i - 1))
  }

  predicate FlaggedAsPlanned(read: RecordReader, table: seq<Segment>, now: seq<Segment>, size: nat, j: nat)
    requires j < |table| == |now|
  {
    && (now[j].Full() <==> EndsFull(read, table[j], j + 1 < |table|, size, LeftBefore(read, table, size, j)))
    && (now[j].quarantined <==> EndsQuarantined(read, table[j]))
  }

  /** The segments before `i` carry exactly the flags they should. */
  ghost predicate FlagsUpTo(read: RecordReader, table: seq<Segment>, now: seq<Segment>, size: nat, i: nat) {
    i <= |table| == |now| && forall j :: 0 <= j < i ==> FlaggedAsPlanned(read, table, now, size, j)
  }

  ghost predicate PlanUpTo(read: RecordReader, table: seq<Segment>, now: seq<Segment>, size: nat, left: nat, fills: nat,
                           i: nat) {
    && FlagsUpTo(read, table, now, size, i)
    && left == LeftBefore(read, table, size, i) && fills == FillsBefore(read, table, size, i)
  }

  lemma PlanOn(read: RecordReader, table: seq<Segment>, now: seq<Segment>, later: seq<Segment>, size: nat,
               left: nat, left': nat, fills: nat, more: nat, i: nat)
    requires PlanUpTo(read, table, now, size, left, fills, i) && i < |table| == |later|
    requires forall j :: 0 <= j < i ==> later[j].Full() == now[j].Full() && later[j].quarantined == now[j].quarantined
    requires AsPlanned(read, table[i], later[i], i + 1 < |table|, size, left, left', more)
    ensures PlanUpTo(read, table, later, size, left', fills + more, i + 1)
  {
    forall j | 0 <= j < i + 1 ensures FlaggedAsPlanned(read, table, later, size, j) {
      if j < i { assert FlaggedAsPlanned(read, table, now, size, j); }
    }
  }

  lemma PlanKept(read: RecordReader, table: seq<Segment>, now: seq<Segment>, later: seq<Segment>, size: nat, i: nat)
    requires FlagsUpTo(read, table, now, size, i) && |later| == |now|
    requires forall j :: 0 <= j < i ==> later[j].Full() == now[j].Full() && later[j].quarantined == now[j].quarantined
    ensures FlagsUpTo(read, table, later, size, i)
  {
    forall j | 0 <= j < i ensures FlaggedAsPlanned(read, table, later, size, j) {
      assert FlaggedAsPlanned(read, table, now, size, j);
    }
  }

  /** A batch that was never filled flags every sealed segment it was read from to the end. */
  lemma {:induction false} NoFillNoMiss(read: RecordReader, table: seq<Segment>, size: nat, i: nat, j: nat)
    requires j < i <= |table| && FillsBefore(read, table, size, i) == 0 && Opened(table[j])
    ensures !LastFills(size, LeftBefore(read, table, size, j), Unread(read, table[j]))
  {
    if j < i - 1 {
      NoFillNoMiss(read, table, size, i - 1, j);
    }
  }
}
