/** The gateway's handler for an export request that has passed routing and authentication:
    acknowledge only what has been appended, and count the spans acknowledged. */
module Gateway {
  import opened Basics
  import opened Crc32
  import opened Otlp
  import opened WalCodec
  import opened WalWriter
  import opened Delivery

  datatype Status = Accepted | Malformed | Unavailable | InternalError

  lemma {:induction false} SpanCountLast(decode: Decoder, payloads: seq<seq<byte>>, p: seq<byte>)
    ensures SpanCount(decode, payloads + [p]) == SpanCount(decode, payloads) + |SpansOf(decode, p)|
  {
    if payloads == [] {
      assert payloads + [p] == [p];
    } else {
      assert (payloads + [p])[1..] == payloads[1..] + [p];
      SpanCountLast(decode, payloads[1..], p);
    }
  }

  /** One more payload in the last segment adds its spans to the total; a new segment adds none. */
  lemma TotalSpansLast(decode: Decoder, acked: seq<seq<seq<byte>>>, p: seq<byte>)
    requires acked != []
    ensures var last := |acked| - 1;
      TotalSpans(decode, acked[last := acked[last] + [p]]) == TotalSpans(decode, acked) + |SpansOf(decode, p)|
    ensures TotalSpans(decode, acked + [[]]) == TotalSpans(decode, acked)
  {
    var last := |acked| - 1;
    assert acked[last := acked[last] + [p]][..last] == acked[..last];
    SpanCountLast(decode, acked[last], p);
    assert (acked + [[]])[..|acked|] == acked;
  }

  predicate NoFailure(files: Files) {
    forall k :: 0 <= k < |files.failed| ==> !files.failed[k]
  }

  /** What is acknowledged parses. */
  predicate AllParse(decode: Decoder, files: Files) {
    forall k, j :: 0 <= k < |files.intact| && 0 <= j < |files.intact[k]| ==> decode(files.intact[k][j]).Some?
  }

  /** While no append has failed, `n` is the number of spans in the acknowledged payloads. */
  predicate Counts(decode: Decoder, files: Files, n: nat) {
    NoFailure(files) ==> n == TotalSpans(decode, files.intact)
  }

  /** The payload's frame is the end of the last segment, and it counts as intact there unless an
      earlier append to that segment had failed. */
  predicate Acknowledged(was: Files, now: Files, payload: seq<byte>) {
    && 0 < |now.disk| == |now.intact| == |now.failed|
    && (now.disk == was.disk + [Frame(payload)]
        || (was.disk != [] && now.disk == was.disk[|was.disk| - 1 := was.disk[|was.disk| - 1] + Frame(payload)]))
    && var last := |now.disk| - 1;
    && (now.failed[last] || (now.intact[last] != [] && now.intact[last][|now.intact[last]| - 1] == payload))
  }

  lemma RotatedCounts(decode: Decoder, files: Files, n: nat)
    requires files.intact != [] && AllParse(decode, files) && Counts(decode, files, n)
    requires |files.failed| == |files.intact|
    ensures AllParse(decode, Rotated(files)) && Counts(decode, Rotated(files), n)
  {
    TotalSpansLast(decode, files.intact, []);
    var more := Rotated(files);
    if NoFailure(more) {
      forall k | 0 <= k < |files.failed| ensures !files.failed[k] { assert more.failed[k] == files.failed[k]; }
    }
  }

  lemma AppendedCounts(decode: Decoder, was: Files, now: Files, payload: seq<byte>, x: seq<byte>, ok: bool, n: nat)
    requires Appended(was, now, payload, x, ok) && decode(payload).Some?
    requires AllParse(decode, was) && Counts(decode, was, n)
    ensures AllParse(decode, now) && Counts(decode, now, n + if ok then |SpansOf(decode, payload)| else 0)
  {
    TotalSpansLast(decode, was.intact, payload);
    AppendedParse(decode, was, now, payload, x, ok);
    if NoFailure(now) {
      forall k | 0 <= k < |was.failed| ensures !was.failed[k] { assert !now.failed[k]; }
      assert !was.failed[|was.failed| - 1];
    }
  }

  lemma AppendedParse(decode: Decoder, was: Files, now: Files, payload: seq<byte>, x: seq<byte>, ok: bool)
    requires Appended(was, now, payload, x, ok) && decode(payload).Some? && AllParse(decode, was)
    ensures AllParse(decode, now)
  {
  }

  lemma AppendedIsAcknowledged(first: Files, rotated: bool, now: Files, payload: seq<byte>, x: seq<byte>)
    requires 0 < |first.disk| == |first.intact| == |first.failed|
    requires Appended(if rotated then Rotated(first) else first, now, payload, x, true)
    ensures Acknowledged(first, now, payload)
  {
    if rotated { assert now.disk == first.disk + [[] + Frame(payload)]; }
    assert [] + Frame(payload) == Frame(payload);
  }

  /** One append, after a rotation if there was one. */
  predicate Logged(was: Files, rotated: bool, now: Files, payload: seq<byte>, x: seq<byte>, ok: bool) {
    Appended(if rotated then Rotated(was) else was, now, payload, x, ok)
  }

  class Server {
    const decode: Decoder
    const writer: Writer
    var acceptedRequests: nat
    var acceptedResourceSpans: nat
    var acceptedSpans: nat
    var rejectedRequests: nat

    ghost predicate Valid()
      reads this, writer
    {
      writer.Valid() && AllParse(decode, writer.Known()) && Counts(decode, writer.Known(), acceptedSpans)
    }

    constructor (decode: Decoder, maxFileBytes: nat, now: nat)
      ensures Valid() && fresh(writer) && this.decode == decode && acceptedSpans == 0 && acceptedRequests == 0
      ensures writer.disk == [[]] && writer.clock == now
    {
      this.decode := decode;
      acceptedRequests, acceptedResourceSpans, acceptedSpans, rejectedRequests := 0, 0, 0, 0;
      writer := new Writer(maxFileBytes, now);
      new;
      assert TotalSpans(decode, [[]]) == TotalSpans(decode, []) + SpanCount(decode, []);
    }

    /** `serializeOk` is whether the response could be rendered; `x` is what reached the log, in a
        new segment if `rotated`. */
    method HandleExport(body: seq<byte>, io: Io, serializeOk: bool)
      returns (status: Status, ghost x: seq<byte>, ghost rotated: bool)
      requires Valid() && writer.clock <= io.now
      modifies this, writer
      ensures Valid()
      ensures status.Malformed? <==> decode(body).None?
      ensures status.Unavailable? <==> decode(body).Some? && !old(writer.WillAppend(body, io))
      ensures status.Accepted? <==> decode(body).Some? && old(writer.WillAppend(body, io)) && serializeOk
      ensures status.InternalError? <==> decode(body).Some? && old(writer.WillAppend(body, io)) && !serializeOk
      ensures status.Malformed? ==> writer.Known() == old(writer.Known()) && writer.clock == old(writer.clock)
      ensures !status.Malformed? ==>
        Logged(old(writer.Known()), rotated, writer.Known(), body, x, status.Accepted? || status.InternalError?)
      // an acknowledgement follows the append
      ensures status.Accepted? || status.InternalError? ==> Acknowledged(old(writer.Known()), writer.Known(), body)
      ensures if status.Accepted? || status.InternalError?
              then acceptedRequests == old(acceptedRequests) + 1
                   && acceptedSpans == old(acceptedSpans) + |SpansOf(decode, body)|
                   && acceptedResourceSpans == old(acceptedResourceSpans) + |decode(body).value|
              else acceptedRequests == old(acceptedRequests) && acceptedSpans == old(acceptedSpans)
                   && acceptedResourceSpans == old(acceptedResourceSpans)
      ensures rejectedRequests == old(rejectedRequests) + if status.Accepted? then 0 else 1
    {
      x, rotated := [], false;
      var request := decode(body);
      if request.None? {
        status := Malformed;
      } else {
        var ok;
        ok, x, rotated := Store(body, io);
        status := if !ok then Unavailable else if serializeOk then Accepted else InternalError;
        if ok {
          CountAccepted(request.value);
        }
      }
      if !status.Accepted? {
        rejectedRequests := rejectedRequests + 1;
      }
    }

    method CountAccepted(request: Request)
      modifies `acceptedRequests, `acceptedResourceSpans, `acceptedSpans
      ensures acceptedRequests == old(acceptedRequests) + 1 && acceptedSpans == old(acceptedSpans) + |AllSpans(request)|
      ensures acceptedResourceSpans == old(acceptedResourceSpans) + |request|
    {
      var spans := CountSpans(request);
      acceptedRequests := acceptedRequests + 1;
      acceptedResourceSpans := acceptedResourceSpans + |request|;
      acceptedSpans := acceptedSpans + spans;
    }

    /** The append, and the count that is right once the spans have been added. */
    method Store(body: seq<byte>, io: Io) returns (ok: bool, ghost x: seq<byte>, ghost rotated: bool)
      requires Valid() && writer.clock <= io.now && decode(body).Some?
      modifies writer
      ensures writer.Valid() && AllParse(decode, writer.Known())
      ensures Counts(decode, writer.Known(), acceptedSpans + if ok then |SpansOf(decode, body)| else 0)
      ensures Logged(old(writer.Known()), rotated, writer.Known(), body, x, ok)
      ensures ok <==> old(writer.WillAppend(body, io))
      ensures ok ==> Acknowledged(old(writer.Known()), writer.Known(), body)
    {
      ghost var was := writer.Known();
      ok, x, rotated := writer.Append(body, io);
      if rotated { RotatedCounts(decode, was, acceptedSpans); }
      AppendedCounts(decode, if rotated then Rotated(was) else was, writer.Known(), body, x, ok, acceptedSpans);
      if ok { AppendedIsAcknowledged(was, rotated, writer.Known(), body, x); }
    }
  }
}
