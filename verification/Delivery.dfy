/** From the gateway to the query: the reader the materializer really uses, and what becomes of
    the spans that were acknowledged. */
module Delivery {
  import opened Basics
  import opened Crc32
  import opened Folds
  import opened Streams
  import opened WalCodec
  import opened SegmentRows
  import opened Sums
  import opened StorageModel
  import opened StorageInvariant
  import opened StorageTheorems
  import opened StorageRecovery
  import opened Otlp

  /** Protobuf parsing: a request, or nothing when the bytes are malformed. */
  type Decoder = seq<byte> -> Option<Request>

  /** One WAL record read and parsed; malformed protobuf counts as corruption of the record. */
  function ReadDecoded(decode: Decoder, limit: nat, b: seq<byte>, p: nat): Outcome<seq<Span>, Fault> {
    match ReadOne(b, p, limit)
    case EndOfFile => EndOfFile
    case Corrupt(_) => Corrupt(BadRecord)
    case Record(end, payload) =>
      if decode(payload).Some? then Record(end, AllSpans(decode(payload).value)) else Corrupt(BadRecord)
  }

  function DecodedReader(decode: Decoder, limit: nat): RecordReader {
    (b: seq<byte>, p: nat) => ReadDecoded(decode, limit, b, p)
  }

  lemma ReadOneGrows(b: seq<byte>, x: seq<byte>, p: nat, limit: nat)
    requires ReadOne(b, p, limit).Record?
    ensures ReadOne(b + x, p, limit) == ReadOne(b, p, limit)
    ensures p < ReadOne(b, p, limit).end <= |b|
  {
    var start, size := p + HEADER_SIZE, UnpackAt(b, p);
    assert UnpackAt(b + x, p) == size && UnpackAt(b + x, p + 4) == UnpackAt(b, p + 4);
    assert (b + x)[start..start + size] == b[start..start + size];
  }

  /** The real reader is one the storage engine's results apply to. */
  lemma {:induction false} DecodedReaderIsSound(decode: Decoder, limit: nat)
    ensures Sound(DecodedReader(decode, limit))
  {
    var read := DecodedReader(decode, limit);
    forall b, p: nat | read(b, p).Record? ensures p < read(b, p).end <= |b| { ReadOneGrows(b, [], p, limit); }
    forall b, x, p: nat {:trigger read(b + x, p)} | read(b, p).Record? ensures read(b + x, p) == read(b, p) {
      ReadOneGrows(b, x, p, limit);
    }
  }

  /** The bytes from `p` to `e` frame a payload that parses. */
  predicate FramesRequest(decode: Decoder, limit: nat, b: seq<byte>, p: nat, e: nat) {
    IsRecord(b, p, e, limit) && decode(b[p + HEADER_SIZE..e]).Some?
  }

  /** What the real reader yields: the spans of a framed payload that parses; anything else before
      the end of the file is corrupt, a framed payload that does not parse included. */
  lemma {:induction false} DecodedReaderMeaning(decode: Decoder, limit: nat, b: seq<byte>, p: nat)
    ensures ReadDecoded(decode, limit, b, p).EndOfFile? <==> p >= |b|
    ensures forall e: nat :: FramesRequest(decode, limit, b, p, e) <==>
              ReadDecoded(decode, limit, b, p).Record? && ReadDecoded(decode, limit, b, p).end == e
    ensures ReadDecoded(decode, limit, b, p).Record? ==>
              var r := ReadDecoded(decode, limit, b, p);
              p + HEADER_SIZE <= r.end <= |b| && decode(b[p + HEADER_SIZE..r.end]).Some?
              && r.payload == AllSpans(decode(b[p + HEADER_SIZE..r.end]).value)
  {
    var one, r := ReadOne(b, p, limit), ReadDecoded(decode, limit, b, p);
    if one.Record? { ReadIsRecord(b, p, limit); }
    forall e: nat | IsRecord(b, p, e, limit) ensures one == Record(e, b[p + HEADER_SIZE..e]) {
      RecordIsRead(b, p, e, limit);
    }
  }

  // ----- What a segment of acknowledged payloads holds

  /** The gateway acknowledges only what parses, and the reader takes only what is within its limit. */
  predicate Acceptable(decode: Decoder, limit: nat, p: seq<byte>) {
    WritableOne(p, limit) && decode(p).Some?
  }

  predicate AllAcceptable(decode: Decoder, limit: nat, payloads: seq<seq<byte>>) {
    forall k :: 0 <= k < |payloads| ==> Acceptable(decode, limit, payloads[k])
  }

  function SpansOf(decode: Decoder, p: seq<byte>): seq<Span> {
    if decode(p).Some? then AllSpans(decode(p).value) else []
  }

  /** The rows of one acknowledged record of segment `i`. */
  function RowsOfPayload(decode: Decoder, i: nat, rec: WalRec): (rows: seq<Row>)
    ensures |rows| == |SpansOf(decode, rec.payload)|
  {
    RecordRows(i, Rec(rec.start, rec.end, SpansOf(decode, rec.payload)))
  }

  function PayloadRows(decode: Decoder, i: nat): WalRec -> seq<Row> {
    (rec: WalRec) => RowsOfPayload(decode, i, rec)
  }

  lemma {:induction false} TilesAreRows(decode: Decoder, limit: nat, i: nat, b: seq<byte>, from: nat, recs: seq<WalRec>)
    requires Tiles(Reader(b, limit), from, recs)
    requires forall k :: 0 <= k < |recs| ==> decode(recs[k].payload).Some?
    ensures var read := DecodedReader(decode, limit);
      && Runs(read, b, from, EndOf(from, recs))
      && RowsOf(read, i, b, from, EndOf(from, recs)) == Expand(PayloadRows(decode, i), recs)
    decreases |recs|
  {
    var read := DecodedReader(decode, limit);
    DecodedReaderIsSound(decode, limit);
    if recs == [] {
      EmptyRun(read, i, b, from);
    } else {
      var spans := SpansOf(decode, recs[0].payload);
      assert decode(recs[0].payload).Some? && read(b, from) == Record(recs[0].end, spans);
      assert PayloadRows(decode, i)(recs[0]) == RecRows(i)(Rec(from, recs[0].end, spans));
      TilesAreRows(decode, limit, i, b, recs[0].end, recs[1..]);
      assert EndOf(from, recs) == EndOf(recs[0].end, recs[1..]);
      OneRecord(read, i, b, from);
      RunsConcat(read, i, b, from, recs[0].end, EndOf(from, recs));
    }
  }

  lemma FramesTileFile(decode: Decoder, limit: nat, payloads: seq<seq<byte>>)
    requires AllAcceptable(decode, limit, payloads)
    ensures var b, recs := FrameAll(payloads), RecordsAt(0, payloads);
      && Tiles(Reader(b, limit), 0, recs) && EndOf(0, recs) == |b|
      && forall k :: 0 <= k < |recs| ==> decode(recs[k].payload).Some?
  {
    var b, recs := FrameAll(payloads), RecordsAt(0, payloads);
    assert b[0..] == b;
    FramesAreRead(b, 0, payloads, limit);
    PlacedEnd(Frame, 0, payloads);
    forall k | 0 <= k < |recs| ensures decode(recs[k].payload).Some? { PlacedPayload(Frame, 0, payloads, k); }
  }

  lemma {:induction false} FramesAreRows(decode: Decoder, limit: nat, i: nat, payloads: seq<seq<byte>>)
    requires AllAcceptable(decode, limit, payloads)
    ensures var read, b := DecodedReader(decode, limit), FrameAll(payloads);
      && Runs(read, b, 0, |b|) && ValidEnd(read, b) == |b|
      && RowsOf(read, i, b, 0, |b|) == Expand(PayloadRows(decode, i), RecordsAt(0, payloads))
  {
    var read, b, recs := DecodedReader(decode, limit), FrameAll(payloads), RecordsAt(0, payloads);
    FramesTileFile(decode, limit, payloads);
    TilesAreRows(decode, limit, i, b, 0, recs);
    DecodedReaderIsSound(decode, limit);
    RunsToValidEnd(read, i, b, |b|);
  }

  /** The rows that the acknowledged payloads of each segment stand for. */
  function AcknowledgedRows(decode: Decoder): (nat, seq<seq<byte>>) -> multiset<Row> {
    (i: nat, payloads: seq<seq<byte>>) => multiset(Expand(PayloadRows(decode, i), RecordsAt(0, payloads)))
  }

  function SpanCount(decode: Decoder, payloads: seq<seq<byte>>): nat {
    if payloads == [] then 0 else |SpansOf(decode, payloads[0])| + SpanCount(decode, payloads[1..])
  }

  /** The number of spans in all acknowledged payloads of all segments. */
  function TotalSpans(decode: Decoder, acked: seq<seq<seq<byte>>>): nat {
    if acked == [] then 0 else TotalSpans(decode, acked[..|acked| - 1]) + SpanCount(decode, acked[|acked| - 1])
  }

  lemma {:induction false} CountOfRows(decode: Decoder, i: nat, base: nat, payloads: seq<seq<byte>>)
    ensures |Expand(PayloadRows(decode, i), RecordsAt(base, payloads))| == SpanCount(decode, payloads)
    decreases |payloads|
  {
    if payloads != [] {
      var end := base + |Frame(payloads[0])|;
      CountOfRows(decode, i, end, payloads[1..]);
      var first: WalRec := Rec(base, end, payloads[0]);
      assert RecordsAt(base, payloads) == [first] + RecordsAt(end, payloads[1..]);
      assert RecordsAt(base, payloads)[1..] == RecordsAt(end, payloads[1..]);
      assert |PayloadRows(decode, i)(first)| == |SpansOf(decode, payloads[0])|;
    }
  }

  lemma {:induction false} CountOfAll(decode: Decoder, acked: seq<seq<seq<byte>>>)
    ensures |Sum(AcknowledgedRows(decode), acked)| == TotalSpans(decode, acked)
  {
    if acked != [] {
      var n := |acked| - 1;
      CountOfAll(decode, acked[..n]);
      CountOfRows(decode, n, 0, acked[n]);
    }
  }

  // ----- Runs in which every append is a whole acknowledged record

  ghost predicate Framed(decode: Decoder, limit: nat, b: seq<byte>) {
    exists payloads :: AllAcceptable(decode, limit, payloads) && b == FrameAll(payloads)
  }

  predicate WholeAppend(decode: Decoder, limit: nat, step: Step, payload: seq<byte>) {
    step == Append(Frame(payload)) && Acceptable(decode, limit, payload)
  }

  /** Each append of the run puts one whole frame at the end of a segment. */
  ghost predicate WholeAppends(decode: Decoder, limit: nat, steps: seq<Step>) {
    forall k :: 0 <= k < |steps| && steps[k].Append? ==> exists p :: WholeAppend(decode, limit, steps[k], p)
  }

  ghost predicate AllFramed(decode: Decoder, limit: nat, segs: seq<Segment>) {
    forall i :: 0 <= i < |segs| ==> Framed(decode, limit, segs[i].bytes) && !segs[i].quarantined
  }

  lemma FramedGrows(decode: Decoder, limit: nat, b: seq<byte>, p: seq<byte>)
    requires Framed(decode, limit, b) && Acceptable(decode, limit, p)
    ensures Framed(decode, limit, b + Frame(p))
  {
    var payloads :| AllAcceptable(decode, limit, payloads) && b == FrameAll(payloads);
    var more := payloads + [p];
    ExpandLast(Frame, more, |payloads|);
    assert more[..|payloads|] == payloads && more[..|payloads| + 1] == more;
    assert AllAcceptable(decode, limit, more) && b + Frame(p) == FrameAll(more);
  }

  lemma NothingFramed(decode: Decoder, limit: nat)
    ensures Framed(decode, limit, [])
  {
    assert AllAcceptable(decode, limit, []) && [] == FrameAll([]);
  }

  lemma {:induction false} FramedIsNotQuarantined(decode: Decoder, limit: nat, st: State)
    requires Inv(DecodedReader(decode, limit), st) && AllFramed(decode, limit, st.segs)
    ensures !Enabled(DecodedReader(decode, limit), st, Quarantine)
  {
    var read := DecodedReader(decode, limit);
    DecodedReaderIsSound(decode, limit);
    if st.worker.Running? && st.worker.cursor.Reading? && st.worker.cursor.seg < |st.segs| {
      var i := st.worker.cursor.seg;
      assert Framed(decode, limit, st.segs[i].bytes);
      var payloads :| AllAcceptable(decode, limit, payloads) && st.segs[i].bytes == FrameAll(payloads);
      FramesAreRows(decode, limit, i, payloads);
      WholeRecordsAreNotQuarantined(read, st, i);
    }
  }

  lemma FramedAppend(decode: Decoder, limit: nat, st: State, step: Step, p: seq<byte>)
    requires step.Append? && st.segs != [] && AllFramed(decode, limit, st.segs) && WholeAppend(decode, limit, step, p)
    ensures AllFramed(decode, limit, Apply(DecodedReader(decode, limit), st, step).segs)
  {
    FramedGrows(decode, limit, st.segs[|st.segs| - 1].bytes, p);
  }

  lemma FramedRotate(decode: Decoder, limit: nat, st: State)
    requires AllFramed(decode, limit, st.segs)
    ensures AllFramed(decode, limit, Apply(DecodedReader(decode, limit), st, Rotate).segs)
  {
    NothingFramed(decode, limit);
  }

  lemma ContentStays(read: RecordReader, st: State, step: Step)
    requires Enabled(read, st, step) && !(step.Append? || step.Rotate? || step.Quarantine?)
    ensures SameContent(st.segs, Apply(read, st, step).segs)
  {
  }

  ghost predicate SameContent(segs: seq<Segment>, more: seq<Segment>) {
    |segs| == |more| && forall i :: 0 <= i < |segs| ==>
        more[i].bytes == segs[i].bytes && more[i].quarantined == segs[i].quarantined
  }

  lemma SameContentIsFramed(decode: Decoder, limit: nat, segs: seq<Segment>, more: seq<Segment>)
    requires AllFramed(decode, limit, segs) && SameContent(segs, more)
    ensures AllFramed(decode, limit, more)
  {
  }

  lemma {:induction false} FramedStep(decode: Decoder, limit: nat, st: State, step: Step)
    requires Inv(DecodedReader(decode, limit), st) && Enabled(DecodedReader(decode, limit), st, step)
    requires AllFramed(decode, limit, st.segs)
    requires step.Append? ==> exists p :: WholeAppend(decode, limit, step, p)
    ensures AllFramed(decode, limit, Apply(DecodedReader(decode, limit), st, step).segs)
  {
    var read := DecodedReader(decode, limit);
    FramedIsNotQuarantined(decode, limit, st);
    if step.Append? {
      var p :| WholeAppend(decode, limit, step, p);
      FramedAppend(decode, limit, st, step, p);
    } else if step.Rotate? {
      FramedRotate(decode, limit, st);
    } else {
      ContentStays(read, st, step);
      SameContentIsFramed(decode, limit, st.segs, Apply(read, st, step).segs);
    }
  }

  lemma {:induction false} FramedRun(decode: Decoder, limit: nat, steps: seq<Step>)
    requires var read := DecodedReader(decode, limit); Run(read, INITIAL, steps).Some?
    requires WholeAppends(decode, limit, steps)
    ensures AllFramed(decode, limit, Run(DecodedReader(decode, limit), INITIAL, steps).value.segs)
  {
    var read := DecodedReader(decode, limit);
    DecodedReaderIsSound(decode, limit);
    if steps == [] {
      NothingFramed(decode, limit);
    } else {
      var n := |steps| - 1;
      assert forall k :: 0 <= k < n ==> steps[..n][k] == steps[k];
      FramedRun(decode, limit, steps[..n]);
      InitialInv(read);
      RunKeepsInv(read, INITIAL, steps[..n]);
      FramedStep(decode, limit, Run(read, INITIAL, steps[..n]).value, steps[n]);
    }
  }

  /** End to end. Without failures, once everything is read, queries see exactly the spans of every
      payload ever acknowledged, each once, and the number of visible rows, the sum of the committed
      record counts and the number of acknowledged spans are the same. */
  lemma EndToEnd(decode: Decoder, limit: nat, steps: seq<Step>, st: State, acked: seq<seq<seq<byte>>>)
    requires var read := DecodedReader(decode, limit);
      Run(read, INITIAL, steps) == Some(st) && CrashFree(steps) && st.worker.Idle? && FullyRead(read, st)
    requires WholeAppends(decode, limit, steps)
    requires |acked| == |st.segs|
    requires forall i :: 0 <= i < |acked| ==>
        AllAcceptable(decode, limit, acked[i]) && st.segs[i].bytes == FrameAll(acked[i])
    ensures Visible(st.files) == Sum(AcknowledgedRows(decode), acked)
    ensures RecordCount(st.files) == |Visible(st.files)| == TotalSpans(decode, acked)
  {
    var read := DecodedReader(decode, limit);
    DecodedReaderIsSound(decode, limit);
    FramedRun(decode, limit, steps);
    FullyReadShowsAll(read, steps, st);
    forall i | 0 <= i < |acked| ensures AllRows(read)(i, st.segs[i]) == AcknowledgedRows(decode)(i, acked[i]) {
      FramesAreRows(decode, limit, i, acked[i]);
    }
    SumAgrees(AllRows(read), AcknowledgedRows(decode), st.segs, acked);
    AtMostOnce(read, steps, st);
    CountOfAll(decode, acked);
  }
}
