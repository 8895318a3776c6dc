/** Gateway and materializer together: what is acknowledged, what is returned and what is visible. */
module Pipeline {
  import opened Basics
  import opened Crc32
  import opened Streams
  import opened WalCodec
  import opened WalWriter
  import opened SegmentRows
  import opened Sums
  import opened StorageModel
  import opened StorageInvariant
  import opened StorageTheorems
  import opened StorageRecovery
  import opened Materializer
  import opened Delivery
  import opened Gateway

  /** The materializer's segments hold what the writer has put into its files. */
  predicate Mirrors(segs: seq<Segment>, disk: seq<seq<byte>>) {
    |segs| == |disk| && forall i :: 0 <= i < |segs| ==> segs[i].bytes == disk[i]
  }

  /** The files are the segments with more at the end: at most one file, and growth of the last one. */
  predicate Extends(segs: seq<Segment>, disk: seq<seq<byte>>) {
    && 0 < |segs| <= |disk| <= |segs| + 1
    && (forall i :: 0 <= i < |segs| && i < |disk| - 1 ==> segs[i].bytes == disk[i])
    && (|segs| == |disk| ==> segs[|disk| - 1].bytes <= disk[|disk| - 1])
  }

  /** What the last file holds beyond the segments. */
  function Tail(segs: seq<Segment>, disk: seq<seq<byte>>): seq<byte>
    requires Extends(segs, disk)
  {
    if |segs| == |disk| then disk[|disk| - 1][|segs[|disk| - 1].bytes|..] else disk[|disk| - 1]
  }

  /** No append has failed, and every acknowledged payload is one that the reader accepts. */
  predicate Flawless(files: Files, limit: nat) {
    NoFailure(files) && forall i :: 0 <= i < |files.intact| ==> Writable(files.intact[i], limit)
  }

  /** Every append of the writer, failed or not, is seen by the materializer as at most one new segment
      and growth of the last one, by exactly what reached the file. */
  lemma WriterIsMachine(segs: seq<Segment>, was: Files, rotated: bool, now: Files, payload: seq<byte>, x: seq<byte>,
                        ok: bool)
    requires Mirrors(segs, was.disk) && Logged(was, rotated, now, payload, x, ok) && 0 < |was.disk|
    ensures |now.disk| == |segs| + if rotated then 1 else 0
    ensures Extends(segs, now.disk) && Tail(segs, now.disk) == x
  {
    var last := |now.disk| - 1;
    assert now.disk[last] == (if rotated then [] else was.disk[last]) + x;
  }

  /** Flaws are never repaired, and an append without one is a whole acceptable frame. */
  lemma FlawlessAppend(decode: Decoder, limit: nat, was: Files, rotated: bool, now: Files, payload: seq<byte>,
                       x: seq<byte>, ok: bool)
    requires Logged(was, rotated, now, payload, x, ok) && Flawless(now, limit) && decode(payload).Some?
    requires 0 < |was.disk| == |was.intact| == |was.failed|
    ensures Flawless(was, limit)
    ensures x != [] ==> WholeAppend(decode, limit, StorageModel.Append(x), payload)
  {
    var mid := if rotated then Rotated(was) else was;
    var last := |mid.disk| - 1;
    forall i | 0 <= i < |was.failed| ensures !was.failed[i] { assert !now.failed[i]; }
    assert !mid.failed[last] && !now.failed[last];
    forall i | 0 <= i < |was.intact| ensures Writable(was.intact[i], limit) {
      assert Writable(now.intact[i], limit);
      if i == last && ok { assert now.intact[i][..|was.intact[i]|] == was.intact[i]; }
    }
    if ok {
      var all := now.intact[last];
      assert all == mid.intact[last] + [payload] && all[|all| - 1] == payload;
      assert Writable(all, limit);
    }
  }

  lemma WholeAppendsOn(decode: Decoder, limit: nat, steps: seq<Step>, more: seq<Step>)
    requires WholeAppends(decode, limit, steps) && steps <= more
    requires forall k :: |steps| <= k < |more| && more[k].Append? ==> exists p :: WholeAppend(decode, limit, more[k], p)
    ensures WholeAppends(decode, limit, more)
  {
  }

  class Pipeline {
    const server: Server
    const store: Store
    /** The reader's limit on a record. */
    const limit: nat
    /** The sum of what `materialize` has returned so far. */
    var returned: nat

    /** The materializer is between two calls and has seen these log files. */
    ghost predicate Follows(files: Files)
      reads this, server, store
    {
      && store.Valid() && store.worker.Idle? && CrashFree(store.history)
      && store.read == DecodedReader(server.decode, limit)
      && Mirrors(store.segs, files.disk)
      && returned == |Visible(store.files)|
      && (Flawless(files, limit) ==> WholeAppends(server.decode, limit, store.history))
    }

    ghost predicate Valid()
      reads this, server, server.writer, store
    {
      server.Valid() && Follows(server.writer.Known())
    }

    constructor (decode: Decoder, limit: nat, maxFileBytes: nat, batchSize: nat, now: nat)
      requires batchSize > 0
      ensures Valid() && fresh(server) && fresh(server.writer) && fresh(store)
      ensures server.decode == decode && this.limit == limit && returned == 0 && server.acceptedSpans == 0
    {
      DecodedReaderIsSound(decode, limit);
      server := new Server(decode, maxFileBytes, now);
      store := new Store(DecodedReader(decode, limit), batchSize);
      this.limit, returned := limit, 0;
    }

    /** One request, and the log as the materializer finds it afterwards. */
    method Export(body: seq<byte>, io: Io, serializeOk: bool) returns (status: Status)
      requires Valid() && server.writer.clock <= io.now
      modifies server, server.writer, store
      ensures Valid() && returned == old(returned) && store.files == old(store.files)
      ensures status.Accepted? || status.InternalError?
              <==> server.decode(body).Some? && old(server.writer.WillAppend(body, io))
      ensures server.acceptedSpans
              == old(server.acceptedSpans)
                 + if status.Accepted? || status.InternalError? then |SpansOf(server.decode, body)| else 0
    {
      ghost var was := server.writer.Known();
      ghost var x, rotated;
      status, x, rotated := server.HandleExport(body, io, serializeOk);
      if !status.Malformed? {
        FollowLog(was, rotated, body, x, status.Accepted? || status.InternalError?);
      }
    }

    method FollowLog(ghost was: Files, ghost rotated: bool, ghost body: seq<byte>, ghost x: seq<byte>, ghost ok: bool)
      requires server.Valid() && Follows(was)
      requires Logged(was, rotated, server.writer.Known(), body, x, ok) && server.decode(body).Some?
      requires 0 < |was.disk| == |was.intact| == |was.failed|
      modifies store`segs, store`history
      ensures Valid()
    {
      ghost var h, now := store.history, server.writer.Known();
      WriterIsMachine(store.segs, was, rotated, now, body, x, ok);
      Sync(server.writer.disk);
      GrownHistory(h, was, rotated, now, body, x, ok);
    }

    /** What the gateway has written shows up as growth of the segment files. */
    method Sync(disk: seq<seq<byte>>)
      requires store.Valid() && Extends(store.segs, disk)
      modifies store`segs, store`history
      ensures store.Valid() && Mirrors(store.segs, disk)
      ensures var tail := Tail(old(store.segs), disk);
        store.history == old(store.history) + (if |old(store.segs)| < |disk| then [Rotate] else [])
                                            + (if tail == [] then [] else [StorageModel.Append(tail)])
    {
      ghost var segs := store.segs;
      if |store.segs| < |disk| {
        store.GatewayRotate();
      }
      var last := |store.segs| - 1;
      var tail := disk[last][|store.segs[last].bytes|..];
      assert tail == Tail(segs, disk) && store.segs[last].bytes + tail == disk[last];
      if tail != [] {
        store.GatewayAppend(tail);
      }
    }

    /** The steps that an append adds to the history are whole frames while nothing is flawed. */
    lemma GrownHistory(h: seq<Step>, was: Files, rotated: bool, now: Files, payload: seq<byte>, x: seq<byte>, ok: bool)
      requires Logged(was, rotated, now, payload, x, ok) && server.decode(payload).Some?
      requires 0 < |was.disk| == |was.intact| == |was.failed|
      requires CrashFree(h) && (Flawless(was, limit) ==> WholeAppends(server.decode, limit, h))
      requires store.history
          == h + (if rotated then [Rotate] else []) + (if x == [] then [] else [StorageModel.Append(x)])
      ensures CrashFree(store.history)
      ensures Flawless(now, limit) ==> WholeAppends(server.decode, limit, store.history)
    {
      if Flawless(now, limit) {
        FlawlessAppend(server.decode, limit, was, rotated, now, payload, x, ok);
        WholeAppendsOn(server.decode, limit, h, store.history);
      }
    }

    /** The worker's own steps append nothing and contain no crash. */
    lemma WorkerRan(before: seq<Step>)
      requires store.Ran(before) && CrashFree(before)
      ensures CrashFree(store.history)
      ensures WholeAppends(server.decode, limit, before) ==> WholeAppends(server.decode, limit, store.history)
    {
    }

    method Materialize() returns (total: nat)
      requires Valid()
      modifies `returned, store
      ensures Valid() && returned == old(returned) + total && server.acceptedSpans == old(server.acceptedSpans)
      ensures FullyRead(store.read, store.Snapshot())
    {
      ghost var h := store.history;
      ghost var flushes;
      total, flushes := store.Materialize();
      WorkerRan(h);
      returned := returned + total;
    }

    method Compact(maxFiles: nat, failAt: Option<nat>, unlinkOk: nat -> bool)
      requires Valid()
      modifies store
      ensures Valid() && Visible(store.files) == old(Visible(store.files))
    {
      ghost var h := store.history;
      var _, _, _ := store.Compact(maxFiles, failAt, unlinkOk);
      WorkerRan(h);
    }

    method CleanupWal(unlinkOk: nat -> bool)
      requires Valid()
      modifies store
      ensures Valid() && store.files == old(store.files)
    {
      ghost var h := store.history;
      var _ := store.CleanupWal(unlinkOk);
      WorkerRan(h);
    }

    /** Span conservation. At any point of any interleaving of requests, materializations, compactions
        and cleanups, when no append has failed, every acknowledged payload is non-empty and within the
        reader's limit, and everything is read: the gateway's span counter, the sum of what the
        materializations returned and the sum of the COMMITTED record counts are one number, and the
        visible rows are the spans of the acknowledged payloads, each once. */
    lemma Conservation()
      requires Valid() && Flawless(server.writer.Known(), limit) && FullyRead(store.read, store.Snapshot())
      ensures server.acceptedSpans == returned == RecordCount(store.files)
      ensures Visible(store.files) == Sum(AcknowledgedRows(server.decode), server.writer.intact)
    {
      var acked := server.writer.intact;
      forall i | 0 <= i < |acked|
        ensures AllAcceptable(server.decode, limit, acked[i]) && store.segs[i].bytes == FrameAll(acked[i])
      {
        SegmentAt(server.writer.maxFileBytes, server.writer.disk, acked, server.writer.failed, i);
        assert Writable(acked[i], limit);
      }
      EndToEnd(server.decode, limit, store.history, store.Snapshot(), acked);
    }
  }
}
