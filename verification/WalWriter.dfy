/** The gateway's WAL writer, with every way in which opening, writing and syncing can fail. */
module WalWriter {
  import opened Basics
  import opened Crc32
  import opened CrcRemainder
  import opened Folds
  import opened Streams
  import opened WalCodec
  import opened SegmentNames

  /** What the operating system answers to one append: whether a new segment could be opened, what
      each `write` returns in turn, and whether the sync succeeded. */
  datatype Io = Io(now: nat, openOk: bool, writes: seq<int>, syncOk: bool)

  /** A segment starts with the frames of its intact payloads; without a failure it holds nothing
      else, and it outgrows the limit only with a single record. */
  predicate SegmentOk(max: nat, bytes: seq<byte>, intact: seq<seq<byte>>, failed: bool) {
    && FrameAll(intact) <= bytes && (forall k :: 0 <= k < |intact| ==> |intact[k]| < UINT32_LIMIT)
    && (!failed ==> bytes == FrameAll(intact) && (|bytes| <= max || |intact| == 1))
  }

  /** The last name's timestamp is within what the clock has reached and its sequence number below
      what the counter has reached, and so on for the names before it. */
  predicate NamesOk(names: seq<string>, clock: nat, sequence: nat)
    decreases |names|, 1
  {
    names == [] || LastNameOk(names, clock, sequence)
  }

  predicate LastNameOk(names: seq<string>, clock: nat, sequence: nat)
    requires names != []
    decreases |names|, 0
  {
    var key := ParseWalKey(names[|names| - 1]);
    key.timestamp <= clock && key.sequence < sequence
    && NamesOk(names[..|names| - 1], key.timestamp, key.sequence)
  }

  lemma NextName(names: seq<string>, clock: nat, sequence: nat, now: nat)
    requires NamesOk(names, clock, sequence) && clock <= now
    ensures NamesOk(names, now, sequence + 1)
    ensures NamesOk(names + [WalName(now, sequence)], now, sequence + 1)
  {
    ParseOfWalName(now, sequence);
    assert (names + [WalName(now, sequence)])[..|names|] == names;
    NamesWithin(names, clock, sequence, now, sequence);
  }

  /** Makes the name of the next segment, which sorts behind all earlier ones. */
  method NewName(now: nat, sequence: nat, ghost names: seq<string>, ghost clock: nat) returns (name: string)
    requires NamesOk(names, clock, sequence) && clock <= now
    ensures NamesOk(names, now, sequence + 1) && NamesOk(names + [name], now, sequence + 1)
  {
    name := WalName(now, sequence);
    NextName(names, clock, sequence, now);
  }

  lemma NamesWithin(names: seq<string>, clock: nat, sequence: nat, later: nat, more: nat)
    requires NamesOk(names, clock, sequence) && clock <= later && sequence <= more
    ensures NamesOk(names, later, more)
  {
  }

  /** Every name has a key within the bounds, and earlier names have smaller keys. */
  lemma {:induction false} NamesAreSorted(names: seq<string>, clock: nat, sequence: nat, k: nat)
    requires NamesOk(names, clock, sequence) && k < |names|
    ensures ParseWalKey(names[k]).timestamp <= clock && ParseWalKey(names[k]).sequence < sequence
    ensures k < |names| - 1 ==> KeyLess(ParseWalKey(names[k]), ParseWalKey(names[|names| - 1]))
  {
    if k < |names| - 1 {
      var key := ParseWalKey(names[|names| - 1]);
      NamesAreSorted(names[..|names| - 1], key.timestamp, key.sequence, k);
    }
  }

  lemma FramesNotEmpty(intact: seq<seq<byte>>)
    ensures FrameAll(intact) == [] ==> intact == []
  {
  }

  lemma FrameLast(intact: seq<seq<byte>>, payload: seq<byte>)
    ensures FrameAll(intact + [payload]) == FrameAll(intact) + Frame(payload)
  {
    ExpandConcat(Frame, intact, [payload]);
    assert Expand(Frame, [payload]) == Frame(payload) + [];
  }

  /** Acknowledged bytes extend an unfailed segment by one frame; anything else leaves its intact part alone. */
  lemma SegmentExtended(max: nat, bytes: seq<byte>, intact: seq<seq<byte>>, failed: bool, payload: seq<byte>,
                        x: seq<byte>, ok: bool)
    requires SegmentOk(max, bytes, intact, failed) && (ok ==> x == Frame(payload) && |payload| < UINT32_LIMIT)
    requires failed || bytes == [] || |bytes| + |Frame(payload)| <= max
    ensures SegmentOk(max, bytes + x, if ok && !failed then intact + [payload] else intact, failed || !ok)
  {
    FrameLast(intact, payload);
    FramesNotEmpty(intact);
  }

  predicate SegmentsOk(max: nat, disk: seq<seq<byte>>, intact: seq<seq<seq<byte>>>, failed: seq<bool>)
    decreases |disk|, 1
  {
    |disk| == |intact| == |failed| && (disk == [] || LastSegmentOk(max, disk, intact, failed))
  }

  predicate LastSegmentOk(max: nat, disk: seq<seq<byte>>, intact: seq<seq<seq<byte>>>, failed: seq<bool>)
    requires 0 < |disk| == |intact| == |failed|
    decreases |disk|, 0
  {
    var last := |disk| - 1;
    && SegmentOk(max, disk[last], intact[last], failed[last])
    && SegmentsOk(max, disk[..last], intact[..last], failed[..last])
  }

  lemma {:induction false} SegmentAt(max: nat, disk: seq<seq<byte>>, intact: seq<seq<seq<byte>>>, failed: seq<bool>,
                                     k: nat)
    requires SegmentsOk(max, disk, intact, failed) && k < |disk|
    ensures SegmentOk(max, disk[k], intact[k], failed[k])
  {
    var last := |disk| - 1;
    if k < last { SegmentAt(max, disk[..last], intact[..last], failed[..last], k); }
  }

  /** The files of a writer, and what is known of them. */
  datatype Files = Files(disk: seq<seq<byte>>, intact: seq<seq<seq<byte>>>, failed: seq<bool>)

  /** What one append does, `x` being what reached the last segment. */
  predicate Appended(was: Files, now: Files, payload: seq<byte>, x: seq<byte>, ok: bool) {
    var last := |was.disk| - 1;
    && 0 < |was.disk| == |was.intact| == |was.failed|
    && x <= Frame(payload) && (ok ==> x == Frame(payload))
    && now.disk == was.disk[last := was.disk[last] + x]
    && now.intact == (if ok && !was.failed[last] then was.intact[last := was.intact[last] + [payload]] else was.intact)
    && (if ok then now.failed == was.failed
        else now.failed == was.failed[last := true] || (x == [] && now.failed == was.failed))
  }

  /** The files after `x` has been written to the last segment. */
  function Extended(was: Files, payload: seq<byte>, x: seq<byte>, ok: bool): Files
    requires 0 < |was.disk| == |was.intact| == |was.failed|
  {
    var last := |was.disk| - 1;
    Files(was.disk[last := was.disk[last] + x],
          if ok && !was.failed[last] then was.intact[last := was.intact[last] + [payload]] else was.intact,
          if ok then was.failed else was.failed[last := true])
  }

  lemma LastExtended(max: nat, was: Files, payload: seq<byte>, x: seq<byte>, ok: bool)
    requires 0 < |was.disk| && SegmentsOk(max, was.disk, was.intact, was.failed) && (ok ==> |payload| < UINT32_LIMIT)
    requires x <= Frame(payload) && (ok ==> x == Frame(payload))
    requires var last := |was.disk| - 1;
      was.failed[last] || was.disk[last] == [] || |was.disk[last]| + |Frame(payload)| <= max
    ensures var now := Extended(was, payload, x, ok);
      SegmentsOk(max, now.disk, now.intact, now.failed) && Appended(was, now, payload, x, ok)
  {
    var last, now := |was.disk| - 1, Extended(was, payload, x, ok);
    SegmentExtended(max, was.disk[last], was.intact[last], was.failed[last], payload, x, ok);
    assert now.disk[..last] == was.disk[..last] && now.intact[..last] == was.intact[..last];
    assert now.failed[..last] == was.failed[..last];
  }

  lemma NothingAppended(files: Files, payload: seq<byte>)
    requires 0 < |files.disk| == |files.intact| == |files.failed|
    ensures Appended(files, files, payload, [], false)
  {
    var last := |files.disk| - 1;
    assert files.disk[last] + [] == files.disk[last];
  }

  /** The same files after a new segment has been opened. */
  function Rotated(was: Files): Files {
    Files(was.disk + [[]], was.intact + [[]], was.failed + [false])
  }

  lemma SegmentAdded(max: nat, was: Files)
    requires SegmentsOk(max, was.disk, was.intact, was.failed)
    ensures var now := Rotated(was); SegmentsOk(max, now.disk, now.intact, now.failed)
  {
    var n, now := |was.disk|, Rotated(was);
    assert now.disk[..n] == was.disk && now.intact[..n] == was.intact && now.failed[..n] == was.failed;
  }

  /** A part of the header, or the header and a part of the payload, is a part of the frame. */
  lemma FrameParts(payload: seq<byte>, n: nat, m: nat)
    requires |payload| < UINT32_LIMIT && n <= HEADER_SIZE && m <= |payload|
    ensures |Header(payload)| == HEADER_SIZE && Header(payload)[..n] <= Frame(payload)
    ensures n == HEADER_SIZE ==> Header(payload)[..n] == Header(payload)
    ensures Header(payload) + payload[..m] <= Frame(payload)
    ensures m == |payload| ==> Header(payload) + payload[..m] == Frame(payload)
  {
  }

  lemma Reassociate(a: seq<byte>, b: seq<byte>, c: seq<byte>)
    ensures a + b + c == a + (b + c)
  {
  }

  // ----- What a sequence of write results delivers

  /** The bytes that the first `k` calls report. */
  function Total(results: seq<int>, k: nat): int
    requires k <= |results|
  {
    if k == 0 then 0 else Total(results, k - 1) + results[k - 1]
  }

  predicate AllProgress(results: seq<int>, k: nat)
    requires k <= |results|
  {
    forall c :: 0 <= c < k ==> results[c] > 0
  }

  /** Exactly the first `k` calls are needed for `n` bytes, and each of them makes progress. */
  predicate CallsDeliver(results: seq<int>, k: nat, n: nat) {
    k <= |results| && AllProgress(results, k) && Total(results, k) >= n && (k > 0 ==> Total(results, k - 1) < n)
  }

  ghost predicate Deliver(results: seq<int>, n: nat) {
    exists k: nat :: CallsDeliver(results, k, n)
  }

  /** The calls deliver `n` bytes, and the calls after those deliver `m`. */
  ghost predicate DeliverBoth(results: seq<int>, n: nat, m: nat) {
    exists k: nat :: CallsDeliver(results, k, n) && Deliver(results[k..], m)
  }

  lemma {:induction false} TotalGrows(results: seq<int>, j: nat, k: nat)
    requires j <= k <= |results| && AllProgress(results, k)
    ensures Total(results, j) <= Total(results, k)
  {
    if j < k { TotalGrows(results, j, k - 1); }
  }

  lemma NotDelivered(results: seq<int>, k: nat, n: nat)
    requires k <= |results| && Total(results, k) < n && (k == |results| || results[k] <= 0) && AllProgress(results, k)
    ensures !Deliver(results, n)
  {
    forall j: nat ensures !CallsDeliver(results, j, n) {
      if j <= k { TotalGrows(results, j, k); }
    }
  }

  /** The number of calls needed is determined. */
  lemma OnlyThen(results: seq<int>, k: nat, n: nat, m: nat)
    requires CallsDeliver(results, k, n)
    ensures DeliverBoth(results, n, m) <==> Deliver(results[k..], m)
  {
    forall j: nat | CallsDeliver(results, j, n) ensures j == k {
      if j < k { TotalGrows(results, j, k - 1); } else if k < j { TotalGrows(results, k, j - 1); }
    }
  }

  /** The header of a record: its size and its checksum. */
  method NewHeader(payload: seq<byte>) returns (header: seq<byte>)
    requires |payload| < UINT32_LIMIT
    ensures header == Header(payload) && |header| == HEADER_SIZE
  {
    var buffer := new byte[HEADER_SIZE];
    var checksum := ComputeCrc32(payload);
    WriteLittleEndian(buffer, |payload|, checksum);
    header := buffer[..];
  }

  class Writer {
    const maxFileBytes: nat
    /** The segment files in order of creation, with their names. */
    var disk: seq<seq<byte>>
    var names: seq<string>
    var open: bool
    var currentPath: string
    var currentFileSize: nat
    var sequence: nat

    /** For each segment, the payloads acknowledged before the first failed append to it, and
        whether there was one. */
    ghost var intact: seq<seq<seq<byte>>>
    ghost var failed: seq<bool>
    ghost var clock: nat

    ghost function Known(): Files
      reads this
    {
      Files(disk, intact, failed)
    }

    /** The content of the files, and the size the writer keeps of the open one. */
    ghost predicate ContentOk()
      reads this
    {
      && disk != [] && SegmentsOk(maxFileBytes, disk, intact, failed)
      && (open && !failed[|failed| - 1] ==> currentFileSize == |disk[|disk| - 1]|)
    }

    ghost predicate Valid()
      reads this
    {
      && ContentOk() && |names| == |disk| && NamesOk(names, clock, sequence)
      && (open ==> currentPath == names[|names| - 1])
    }

    constructor (maxFileBytes: nat, now: nat)
      ensures Valid() && open && disk == [[]] && intact == [[]] && failed == [false] && clock == now
    {
      this.maxFileBytes := maxFileBytes;
      disk, names, intact, failed := [[]], [WalName(now, 0)], [[]], [false];
      open, currentPath, currentFileSize := true, WalName(now, 0), 0;
      sequence, clock := 1, now;
      NextName([], 0, 0, now);
      assert [] + [WalName(now, 0)] == [WalName(now, 0)];
    }

    /** Closes the current segment and opens the next one under a new name. A failure leaves no
        segment open, but the number in the name is used up. */
    method OpenNewSegment(now: nat, ok: bool)
      requires Valid() && clock <= now
      modifies this
      ensures Valid() && open == ok && clock == now && (ok ==> currentFileSize == 0)
      ensures Known() == if ok then Rotated(old(Known())) else old(Known())
    {
      SegmentAdded(maxFileBytes, Known());
      open := false;
      currentPath := NewName(now, sequence, names, clock);
      sequence, clock := sequence + 1, now;
      if ok {
        disk, names := disk + [[]], names + [currentPath];
        intact, failed := intact + [[]], failed + [false];
        open, currentFileSize := true, 0;
      }
    }

    /** Writes until nothing remains or a call reports no progress; short writes are continued. */
    method WriteAll(data: seq<byte>, results: seq<int>)
      returns (ok: bool, rest: seq<int>, ghost written: nat, ghost calls: nat)
      requires disk != []
      modifies `disk
      ensures written <= |data| && (ok <==> written == |data|)
      ensures disk == old(disk)[|old(disk)| - 1 := old(disk)[|old(disk)| - 1] + data[..written]]
      ensures ok <==> Deliver(results, |data|)
      ensures ok ==> CallsDeliver(results, calls, |data|) && rest == results[calls..]
    {
      var last := |disk| - 1;
      rest, ok, written, calls := results, true, 0, 0;
      var done: nat := 0;
      assert old(disk)[last] + data[..0] == old(disk)[last];
      while done < |data|
        invariant done <= |data| && |disk| == |old(disk)|
        invariant disk == old(disk)[last := old(disk)[last] + data[..done]]
        invariant calls <= |results| && rest == results[calls..] && AllProgress(results, calls)
        invariant if done < |data| then Total(results, calls) == done else CallsDeliver(results, calls, |data|)
        decreases |rest|
      {
        if rest == [] || rest[0] <= 0 {
          NotDelivered(results, calls, |data|);
          return false, rest, done, calls;
        }
        var n: nat := if rest[0] < |data| - done then rest[0] else |data| - done;
        assert old(disk)[last] + data[..done] + data[done..done + n] == old(disk)[last] + data[..done + n];
        disk := disk[last := disk[last] + data[done..done + n]];
        done, rest := done + n, rest[1..];
        calls := calls + 1;
      }
      written := done;
      assert CallsDeliver(results, calls, |data|);
    }

    /** The header, the payload and the sync; `x` is what reached the file. */
    method WriteRecord(payload: seq<byte>, io: Io) returns (ok: bool, ghost x: seq<byte>)
      requires disk != [] && |payload| < UINT32_LIMIT
      modifies `disk
      ensures disk == old(disk)[|old(disk)| - 1 := old(disk)[|old(disk)| - 1] + x]
      ensures x <= Frame(payload) && (ok ==> x == Frame(payload))
      ensures ok <==> DeliverBoth(io.writes, HEADER_SIZE, |payload|) && io.syncOk
    {
      ghost var first := disk[|disk| - 1];
      var header := NewHeader(payload);
      var rest;
      ghost var n, m, k: nat, l: nat;
      ok, rest, n, k := WriteAll(header, io.writes);
      x := Header(payload)[..n];
      FrameParts(payload, n, 0);
      if ok {
        ok, rest, m, l := WriteAll(payload, rest);
        OnlyThen(io.writes, k, HEADER_SIZE, |payload|);
        Reassociate(first, x, payload[..m]);
        FrameParts(payload, n, m);
        x := x + payload[..m];
        ok := ok && io.syncOk;
      }
    }

    method AppendToOpen(payload: seq<byte>, io: Io) returns (ok: bool, ghost x: seq<byte>)
      requires ContentOk() && open && |payload| < UINT32_LIMIT
      requires currentFileSize == 0 || currentFileSize + HEADER_SIZE + |payload| <= maxFileBytes
      modifies `disk, `intact, `failed, `currentFileSize
      ensures ContentOk()
      ensures Appended(old(Known()), Known(), payload, x, ok)
      ensures ok <==> DeliverBoth(io.writes, HEADER_SIZE, |payload|) && io.syncOk
    {
      ghost var was, last := Known(), |disk| - 1;
      ok, x := WriteRecord(payload, io);
      LastExtended(maxFileBytes, was, payload, x, ok);
      if ok {
        currentFileSize := currentFileSize + HEADER_SIZE + |payload|;
        if !failed[last] { intact := intact[last := intact[last] + [payload]]; }
      } else {
        failed := failed[last := true];
      }
      assert Known() == Extended(was, payload, x, ok);
    }

    /** No segment is open, or the record would make the open one too large. */
    ghost predicate NeedsRoom(recordSize: nat)
      reads this
    {
      !open || (currentFileSize > 0 && currentFileSize + recordSize > maxFileBytes)
    }

    /** While no append to the open segment has failed, it is closed exactly when it holds something
        and the record would bring its file over the limit. */
    lemma RoomMeaning(recordSize: nat)
      requires Valid() && open && !failed[|failed| - 1]
      ensures NeedsRoom(recordSize) <==>
              disk[|disk| - 1] != [] && |disk[|disk| - 1]| + recordSize > maxFileBytes
    {
    }

    /** When an append is acknowledged, in terms of the operating system's answers: the payload has a
        size that fits the header, a segment is open or can be opened, the writes deliver the header
        and then the payload, and the sync succeeds. */
    ghost predicate WillAppend(payload: seq<byte>, io: Io)
      reads this
    {
      && |payload| < UINT32_LIMIT
      && (NeedsRoom(HEADER_SIZE + |payload|) ==> io.openOk)
      && DeliverBoth(io.writes, HEADER_SIZE, |payload|)
      && io.syncOk
    }

    method MakeRoom(recordSize: nat, now: nat, openOk: bool) returns (ghost rotated: bool)
      requires Valid() && clock <= now
      modifies this
      ensures Valid() && Known() == (if rotated then Rotated(old(Known())) else old(Known()))
      ensures rotated <==> old(NeedsRoom(recordSize)) && openOk
      ensures open <==> (old(NeedsRoom(recordSize)) ==> openOk)
      ensures open ==> currentFileSize == 0 || currentFileSize + recordSize <= maxFileBytes
    {
      rotated := false;
      if !open || (currentFileSize > 0 && currentFileSize + recordSize > maxFileBytes) {
        OpenNewSegment(now, openOk);
        rotated := openOk;
      }
    }

    /** Appends a framed record and syncs it; `true` acknowledges the payload. The segment is a new
        one when `rotated`. */
    method Append(payload: seq<byte>, io: Io) returns (ok: bool, ghost x: seq<byte>, ghost rotated: bool)
      requires Valid() && clock <= io.now
      modifies this
      ensures Valid()
      ensures Appended(if rotated then Rotated(old(Known())) else old(Known()), Known(), payload, x, ok)
      ensures ok <==> old(WillAppend(payload, io))
      ensures rotated <==> |payload| < UINT32_LIMIT && old(NeedsRoom(HEADER_SIZE + |payload|)) && io.openOk
    {
      if |payload| < UINT32_LIMIT {
        ok, x, rotated := AppendFitting(payload, io);
      } else {
        ok, x, rotated := false, [], false;
        NothingAppended(Known(), payload);
      }
    }

    /** The append of a payload whose size fits the header. */
    method AppendFitting(payload: seq<byte>, io: Io) returns (ok: bool, ghost x: seq<byte>, ghost rotated: bool)
      requires Valid() && clock <= io.now && |payload| < UINT32_LIMIT
      modifies this
      ensures Valid()
      ensures Appended(if rotated then Rotated(old(Known())) else old(Known()), Known(), payload, x, ok)
      ensures ok <==> (old(NeedsRoom(HEADER_SIZE + |payload|)) ==> io.openOk)
                      && DeliverBoth(io.writes, HEADER_SIZE, |payload|) && io.syncOk
      ensures rotated <==> old(NeedsRoom(HEADER_SIZE + |payload|)) && io.openOk
    {
      ok, x := false, [];
      rotated := MakeRoom(HEADER_SIZE + |payload|, io.now, io.openOk);
      if open {
        ok, x := AppendToOpen(payload, io);
      } else {
        NothingAppended(Known(), payload);
      }
    }

    /** Whatever failed, reading a segment returns the payloads acknowledged before its first failed
        append, in order, as a prefix of its records, up to the first that is empty or over the
        reader's limit, where it stops. Without a failure it returns nothing else. */
    lemma {:induction false} IntactIsReadBack(k: nat, limit: nat, recs: seq<WalRec>)
      requires Valid() && k < |disk|
      requires Tiles(Reader(disk[k], limit), 0, recs) && !Reader(disk[k], limit)(EndOf(0, recs)).Record?
      ensures var n := WritablePrefix(intact[k], limit);
        && RecordsAt(0, intact[k][..n]) <= recs
        && (!failed[k] || n < |intact[k]| ==> recs == RecordsAt(0, intact[k][..n]))
    {
      var n := WritablePrefix(intact[k], limit);
      SegmentAt(maxFileBytes, disk, intact, failed, k);
      ReadsWritablePrefix(disk[k], intact[k], recs, limit);
      if !failed[k] && n == |intact[k]| {
        assert intact[k][..n] == intact[k] && disk[k][0..] == disk[k];
        RoundTrip(disk[k], 0, intact[k], recs, limit);
      }
    }

    /** The open segment is the one whose name sorts last. */
    lemma CurrentSortsLast(k: nat)
      requires Valid() && open && k < |names|
      ensures names[k] == currentPath || KeyLess(ParseWalKey(names[k]), ParseWalKey(currentPath))
    {
      NamesAreSorted(names, clock, sequence, k);
    }

    /** Without a failure a segment stays within the limit unless a single record exceeds it. */
    lemma RotationBound(k: nat)
      requires Valid() && k < |disk| && !failed[k]
      ensures |disk[k]| <= maxFileBytes || |intact[k]| == 1
    {
      SegmentAt(maxFileBytes, disk, intact, failed, k);
    }
  }
}
