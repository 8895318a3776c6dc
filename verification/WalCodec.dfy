/** The record format of a WAL segment: little-endian payload size, little-endian CRC-32, payload. */
module WalCodec {
  import opened Basics
  import opened Crc32
  import opened Folds
  import opened Streams

  const HEADER_SIZE: nat := 8
  const UINT32_LIMIT: nat := 0x1_0000_0000

  // ----- Writing

  function LittleEndian(n: nat): (bytes: seq<byte>)
    ensures |bytes| == 4
  {
    [n % 256, n / 0x100 % 256, n / 0x1_0000 % 256, n / 0x100_0000 % 256]
  }

  function Header(payload: seq<byte>): (h: seq<byte>)
    ensures |h| == HEADER_SIZE
  {
    LittleEndian(|payload|) + LittleEndian(Checksum(payload))
  }

  function Frame(payload: seq<byte>): (f: seq<byte>)
    ensures |f| == HEADER_SIZE + |payload|
  {
    Header(payload) + payload
  }

  function FrameAll(payloads: seq<seq<byte>>): seq<byte> { Expand(Frame, payloads) }

  /** `n >> (8 * k)` */
  function ShiftBytes(n: nat, k: nat): nat
    decreases k
  {
    if k == 0 then n else ShiftBytes(n / 256, k - 1)
  }

  /** Fills the header buffer in place, one byte of the size and one of the checksum at a time. */
  method WriteLittleEndian(buffer: array<byte>, size: nat, checksum: nat)
    requires buffer.Length == HEADER_SIZE
    modifies buffer
    ensures buffer[..] == LittleEndian(size) + LittleEndian(checksum)
    ensures buffer[0] == size % 0x100 && buffer[4] == checksum % 0x100
    ensures buffer[1] == size / 0x100 % 0x100 && buffer[5] == checksum / 0x100 % 0x100
    ensures buffer[2] == size / 0x1_0000 % 0x100 && buffer[6] == checksum / 0x1_0000 % 0x100
    ensures buffer[3] == size / 0x100_0000 % 0x100 && buffer[7] == checksum / 0x100_0000 % 0x100
  {
    for k := 0 to 4
      invariant buffer[..k] == LittleEndian(size)[..k]
      invariant buffer[4..4 + k] == LittleEndian(checksum)[..k]
    {
      ByteOfNumber(size, k);
      ByteOfNumber(checksum, k);
      buffer[k] := ShiftBytes(size, k) % 256;
      buffer[k + 4] := ShiftBytes(checksum, k) % 256;
    }
    assert buffer[..] == buffer[..4] + buffer[4..4 + 4];
  }

  lemma ByteOfNumber(n: nat, k: nat)
    requires k < 4
    ensures LittleEndian(n)[k] == ShiftBytes(n, k) % 256
  {
    assert ShiftBytes(n, 1) == n / 256;
    assert n / 0x100 / 0x100 == n / 0x1_0000 && n / 0x1_0000 / 0x100 == n / 0x100_0000;
    assert ShiftBytes(n, 2) == ShiftBytes(n / 256, 1);
    assert ShiftBytes(n, 3) == ShiftBytes(n / 256, 2) == ShiftBytes(n / 256 / 256, 1);
  }

  // ----- Reading

  datatype Reason = TruncatedHeader | ZeroLength | Oversized | TruncatedPayload | ChecksumMismatch
  type WalOutcome = Outcome<seq<byte>, Reason>

  function Unpack(b0: int, b1: int, b2: int, b3: int): int {
    b0 + 0x100 * b1 + 0x1_0000 * b2 + 0x100_0000 * b3
  }

  function UnpackAt(b: seq<byte>, at: nat): nat
    requires at + 4 <= |b|
  {
    Unpack(b[at], b[at + 1], b[at + 2], b[at + 3])
  }

  /** One turn of the reader's loop, with its tests in their order. */
  function ReadOne(b: seq<byte>, pos: nat, limit: nat): WalOutcome {
    if pos >= |b| then EndOfFile
    else if |b| - pos < HEADER_SIZE then Corrupt(TruncatedHeader)
    else
      var length := UnpackAt(b, pos);
      var expected := UnpackAt(b, pos + 4);
      var start := pos + HEADER_SIZE;
      if length == 0 then Corrupt(ZeroLength)
      else if length > limit then Corrupt(Oversized)
      else if |b| - start < length then Corrupt(TruncatedPayload)
      else if TableChecksum(b[start..start + length]) != expected then Corrupt(ChecksumMismatch)
      else Record(start + length, b[start..start + length])
  }

  lemma {:induction false} UnpackPacked(b: seq<byte>, at: nat, n: nat)
    requires n < UINT32_LIMIT && at + 4 <= |b|
    requires b[at..at + 4] == LittleEndian(n)
    ensures UnpackAt(b, at) == n
  {
    forall k | 0 <= k < 4 ensures b[at + k] == LittleEndian(n)[k] { assert b[at..at + 4][k] == b[at + k]; }
    assert b[at + 0] == n % 256 && b[at + 1] == n / 0x100 % 256;
    assert b[at + 2] == n / 0x1_0000 % 256 && b[at + 3] == n / 0x100_0000 % 256;
    DigitsRecompose(n);
  }

  lemma {:induction false} DigitsRecompose(n: nat)
    requires n < UINT32_LIMIT
    ensures Unpack(n % 256, n / 0x100 % 256, n / 0x1_0000 % 256, n / 0x100_0000 % 256) == n
  {
    var q := n / 0x100;
    var r := q / 0x100;
    assert n / 0x1_0000 == r && n / 0x100_0000 == r / 0x100 && r / 0x100 < 0x100;
  }

  lemma {:induction false} PackUnpacked(b: seq<byte>, at: nat)
    requires at + 4 <= |b|
    ensures UnpackAt(b, at) < UINT32_LIMIT && LittleEndian(UnpackAt(b, at)) == b[at..at + 4]
  {
    var b0: int, b1: int, b2: int, b3: int := b[at], b[at + 1], b[at + 2], b[at + 3];
    var n := Unpack(b0, b1, b2, b3);
    var r := b2 + 0x100 * b3;
    var q := b1 + 0x100 * r;
    assert n == b0 + 0x100 * q && n / 0x100 == q && n % 256 == b0;
    assert q / 0x100 == r && q % 256 == b1 && r % 256 == b2;
    assert n / 0x1_0000 == r && n / 0x100_0000 == r / 0x100 == b3;
    assert b[at..at + 4] == [b[at], b[at + 1], b[at + 2], b[at + 3]];
  }

  /** A valid record occupies `b[s..e]`: those bytes are what the writer emits for a
      non-empty payload within the limit. */
  predicate IsRecord(b: seq<byte>, s: nat, e: nat, limit: nat) {
    && s + HEADER_SIZE < e <= |b|
    && e - s - HEADER_SIZE <= limit
    && e - s - HEADER_SIZE < UINT32_LIMIT
    && b[s..e] == Frame(b[s + HEADER_SIZE..e])
  }

  lemma {:induction false} HeaderMeaning(b: seq<byte>, s: nat, size: nat, checksum: nat)
    requires s + HEADER_SIZE <= |b| && size < UINT32_LIMIT && checksum < UINT32_LIMIT
    ensures UnpackAt(b, s) == size && UnpackAt(b, s + 4) == checksum <==>
            b[s..s + HEADER_SIZE] == LittleEndian(size) + LittleEndian(checksum)
  {
    assert b[s..s + HEADER_SIZE] == b[s..s + 4] + b[s + 4..s + 8];
    ConcatEqual(b[s..s + 4], b[s + 4..s + 8], LittleEndian(size), LittleEndian(checksum));
    PackUnpacked(b, s);
    PackUnpacked(b, s + 4);
    if b[s..s + 4] == LittleEndian(size) { UnpackPacked(b, s, size); }
    if b[s + 4..s + 8] == LittleEndian(checksum) { UnpackPacked(b, s + 4, checksum); }
  }

  lemma {:induction false} FrameMeaning(b: seq<byte>, s: nat, e: nat)
    requires s + HEADER_SIZE <= e <= |b| && e - s - HEADER_SIZE < UINT32_LIMIT
    ensures var p := b[s + HEADER_SIZE..e];
      b[s..e] == Frame(p) <==> UnpackAt(b, s) == |p| && UnpackAt(b, s + 4) == TableChecksum(p)
  {
    var p := b[s + HEADER_SIZE..e];
    assert b[s..e] == b[s..s + HEADER_SIZE] + p;
    ConcatEqual(b[s..s + HEADER_SIZE], p, Header(p), p);
    HeaderMeaning(b, s, |p|, Checksum(p));
    BitLoopIsTableDriven(p);
  }

  lemma {:induction false} ReadIsRecord(b: seq<byte>, pos: nat, limit: nat)
    requires ReadOne(b, pos, limit).Record?
    ensures var r := ReadOne(b, pos, limit); IsRecord(b, pos, r.end, limit) && r.payload == b[pos + HEADER_SIZE..r.end]
  {
    PackUnpacked(b, pos);
    FrameMeaning(b, pos, ReadOne(b, pos, limit).end);
  }

  lemma {:induction false} RecordIsRead(b: seq<byte>, pos: nat, end: nat, limit: nat)
    requires IsRecord(b, pos, end, limit)
    ensures ReadOne(b, pos, limit) == Record(end, b[pos + HEADER_SIZE..end])
  {
    FrameMeaning(b, pos, end);
  }

  /** What one turn of the reader means on arbitrary bytes, in both directions. */
  lemma {:induction false} ReadOneMeaning(b: seq<byte>, pos: nat, limit: nat)
    ensures ReadOne(b, pos, limit).EndOfFile? <==> pos >= |b|
    ensures forall e: nat :: IsRecord(b, pos, e, limit) <==>
              ReadOne(b, pos, limit) == Record(e, if pos + HEADER_SIZE <= e <= |b| then b[pos + HEADER_SIZE..e] else [])
    ensures ReadOne(b, pos, limit).Corrupt? <==> pos < |b| && forall e: nat :: !IsRecord(b, pos, e, limit)
  {
    var r := ReadOne(b, pos, limit);
    if r.Record? { ReadIsRecord(b, pos, limit); }
    forall e: nat | IsRecord(b, pos, e, limit) ensures r == Record(e, b[pos + HEADER_SIZE..e]) {
      RecordIsRead(b, pos, e, limit);
    }
  }

  /** Why a record is refused, told from the bytes: too few for a header, or a header whose first
      four bytes, least significant first, say empty, over the limit or longer than what is left, or
      whose last four do not say the checksum of the payload. */
  lemma RefusalMeaning(b: seq<byte>, pos: nat, limit: nat, size: nat, crc: nat)
    requires pos + HEADER_SIZE <= |b|
    requires var h: seq<int> := b[pos..pos + HEADER_SIZE];
      && size == h[0] + 0x100 * h[1] + 0x1_0000 * h[2] + 0x100_0000 * h[3]
      && crc == h[4] + 0x100 * h[5] + 0x1_0000 * h[6] + 0x100_0000 * h[7]
    ensures ReadOne(b, pos, limit) == Corrupt(ZeroLength) <==> size == 0
    ensures ReadOne(b, pos, limit) == Corrupt(Oversized) <==> 0 < size && limit < size
    ensures ReadOne(b, pos, limit) == Corrupt(TruncatedPayload) <==>
            0 < size <= limit && |b| < pos + HEADER_SIZE + size
    ensures ReadOne(b, pos, limit) == Corrupt(ChecksumMismatch) <==>
            && 0 < size <= limit && pos + HEADER_SIZE + size <= |b|
            && Checksum(b[pos + HEADER_SIZE..pos + HEADER_SIZE + size]) != crc
  {
    if pos + HEADER_SIZE + size <= |b| { BitLoopIsTableDriven(b[pos + HEADER_SIZE..pos + HEADER_SIZE + size]); }
  }

  /** The one reason left: some bytes, but too few for a header. */
  lemma HeaderCutShort(b: seq<byte>, pos: nat, limit: nat)
    ensures ReadOne(b, pos, limit) == Corrupt(TruncatedHeader) <==> pos < |b| < pos + HEADER_SIZE
  {
  }

  // ----- The reader as a stream

  type WalReader = nat -> WalOutcome
  type WalRec = Rec<seq<byte>>
  datatype Corruption = Corruption(offset: nat, reason: Reason)

  function Reader(b: seq<byte>, limit: nat): WalReader { pos => ReadOne(b, pos, limit) }

  /** Reads until the end of the file or the first bad record. */
  method WalRecordsFrom(b: seq<byte>, from: nat, limit: nat) returns (recs: seq<WalRec>, error: Option<Corruption>)
    ensures Tiles(Reader(b, limit), from, recs)
    ensures error.None? ==> Reader(b, limit)(EndOf(from, recs)) == EndOfFile
    ensures error.Some? ==> error.value.offset == EndOf(from, recs)
    ensures error.Some? ==> Reader(b, limit)(EndOf(from, recs)) == Corrupt(error.value.reason)
  {
    recs, error := [], None;
    var pos := from;
    while true
      invariant Tiles(Reader(b, limit), from, recs)
      invariant pos == EndOf(from, recs)
      decreases |b| - pos
    {
      match ReadOne(b, pos, limit) {
        case EndOfFile => return;
        case Corrupt(reason) =>
          error := Some(Corruption(pos, reason));
          return;
        case Record(end, payload) =>
          TilesAppend(Reader(b, limit), from, recs, [Rec(pos, end, payload)]);
          recs, pos := recs + [Rec(pos, end, payload)], end;
      }
    }
  }

  /** On arbitrary bytes and from any offset the reader yields the longest run of valid records:
      each yielded interval holds one framed payload, they lie end to end, no other run of framed
      payloads is longer, and at the error offset stands no framed payload at all. */
  lemma {:induction false} ReaderIsExact(b: seq<byte>, from: nat, limit: nat, recs: seq<WalRec>,
                                         error: Option<Corruption>)
    requires Tiles(Reader(b, limit), from, recs)
    requires error.None? ==> Reader(b, limit)(EndOf(from, recs)) == EndOfFile
    requires error.Some? ==> Reader(b, limit)(EndOf(from, recs)) == Corrupt(error.value.reason)
    ensures AreFramed(b, from, recs, limit)
    ensures forall other :: AreFramed(b, from, other, limit) ==> other <= recs
    ensures error.None? <==> EndOf(from, recs) >= |b|
    ensures forall e: nat :: !IsRecord(b, EndOf(from, recs), e, limit)
  {
    TilesAreFramed(b, from, recs, limit);
    ReadOneMeaning(b, EndOf(from, recs), limit);
    forall other | AreFramed(b, from, other, limit) ensures other <= recs {
      FramedTile(b, from, other, limit);
      MaximalIsLongest(Reader(b, limit), from, recs, other);
    }
  }

  /** Framed payloads lying end to end from `from`. */
  ghost predicate AreFramed(b: seq<byte>, from: nat, recs: seq<WalRec>, limit: nat)
    decreases |recs|
  {
    recs != [] ==>
      && recs[0].start == from
      && IsRecord(b, from, recs[0].end, limit)
      && recs[0].payload == b[from + HEADER_SIZE..recs[0].end]
      && AreFramed(b, recs[0].end, recs[1..], limit)
  }

  lemma {:induction false} TilesAreFramed(b: seq<byte>, from: nat, recs: seq<WalRec>, limit: nat)
    requires Tiles(Reader(b, limit), from, recs)
    ensures AreFramed(b, from, recs, limit)
    decreases |recs|
  {
    if recs != [] {
      ReadIsRecord(b, from, limit);
      TilesAreFramed(b, recs[0].end, recs[1..], limit);
    }
  }

  lemma {:induction false} FramedTile(b: seq<byte>, from: nat, recs: seq<WalRec>, limit: nat)
    requires AreFramed(b, from, recs, limit)
    ensures Tiles(Reader(b, limit), from, recs)
    decreases |recs|
  {
    if recs != [] {
      RecordIsRead(b, from, recs[0].end, limit);
      FramedTile(b, recs[0].end, recs[1..], limit);
    }
  }

  // ----- Round trip and resume

  predicate WritableOne(p: seq<byte>, limit: nat) {
    0 < |p| <= limit && |p| < UINT32_LIMIT
  }

  predicate Writable(payloads: seq<seq<byte>>, limit: nat) {
    forall k :: 0 <= k < |payloads| ==> WritableOne(payloads[k], limit)
  }

  function RecordsAt(base: nat, payloads: seq<seq<byte>>): (recs: seq<WalRec>)
    ensures |recs| == |payloads|
  {
    Placed(Frame, base, payloads)
  }

  lemma FrameIsRead(b: seq<byte>, base: nat, p: seq<byte>, limit: nat)
    requires WritableOne(p, limit)
    requires base <= |b| && Frame(p) <= b[base..]
    ensures base + HEADER_SIZE + |p| <= |b|
    ensures ReadOne(b, base, limit) == Record(base + HEADER_SIZE + |p|, p)
  {
    var end := base + HEADER_SIZE + |p|;
    assert b[base..end] == b[base..][..|Frame(p)|] == Frame(p);
    assert b[base + HEADER_SIZE..end] == b[base..end][HEADER_SIZE..] == Frame(p)[HEADER_SIZE..] == p;
    RecordIsRead(b, base, end, limit);
  }

  lemma {:induction false} FramesRecognised(b: seq<byte>, payloads: seq<seq<byte>>, limit: nat)
    requires Writable(payloads, limit)
    ensures forall p, at: nat {:trigger Frame(p), Reader(b, limit)(at)} ::
              p in payloads && at <= |b| && Frame(p) <= b[at..] ==> Reader(b, limit)(at) == Record(at + |Frame(p)|, p)
  {
    forall p, at: nat {:trigger Frame(p), Reader(b, limit)(at)} | p in payloads && at <= |b| && Frame(p) <= b[at..]
      ensures Reader(b, limit)(at) == Record(at + |Frame(p)|, p)
    {
      FrameIsRead(b, at, p, limit);
    }
  }

  /** Wherever the frames of some payloads stand in a file, the reader finds those payloads there,
      whatever follows them. */
  lemma {:induction false} FramesAreRead(b: seq<byte>, base: nat, payloads: seq<seq<byte>>, limit: nat)
    requires Writable(payloads, limit)
    requires base <= |b| && FrameAll(payloads) <= b[base..]
    ensures Tiles(Reader(b, limit), base, RecordsAt(base, payloads))
  {
    FramesRecognised(b, payloads, limit);
    FramesTile(Reader(b, limit), Frame, b, base, payloads);
  }

  /** Reading what was written returns exactly the payloads with their offsets, also from the
      middle: `base` is any offset from which only the frames of `payloads` follow. */
  lemma RoundTrip(b: seq<byte>, base: nat, payloads: seq<seq<byte>>, recs: seq<WalRec>, limit: nat)
    requires Writable(payloads, limit)
    requires base <= |b| && b[base..] == FrameAll(payloads)
    requires Tiles(Reader(b, limit), base, recs) && !Reader(b, limit)(EndOf(base, recs)).Record?
    ensures recs == RecordsAt(base, payloads) && EndOf(base, recs) == |b|
  {
    FramesRecognised(b, payloads, limit);
    ReadsBack(Reader(b, limit), Frame, b, base, payloads, recs);
  }

  /** The expected records hold the payloads, in order. */
  lemma RecordsHoldPayloads(base: nat, payloads: seq<seq<byte>>, k: nat)
    requires k < |payloads|
    ensures RecordsAt(base, payloads)[k].payload == payloads[k]
    ensures EndOf(base, RecordsAt(base, payloads)) == base + |FrameAll(payloads)|
  {
    PlacedPayload(Frame, base, payloads, k);
    PlacedEnd(Frame, base, payloads);
  }

  lemma {:induction false} YieldedIsWritable(b: seq<byte>, from: nat, recs: seq<WalRec>, limit: nat, k: nat)
    requires Tiles(Reader(b, limit), from, recs) && k < |recs|
    ensures WritableOne(recs[k].payload, limit)
    decreases |recs|
  {
    if k == 0 {
      ReadIsRecord(b, from, limit);
    } else {
      YieldedIsWritable(b, recs[0].end, recs[1..], limit, k - 1);
    }
  }

  /** The writer frames empty and oversized payloads too, but the reader refuses them: everything
      written is read back exactly when every payload is non-empty and within the reader's limit. */
  lemma {:induction false} ReadBackExactlyWhenWritable(b: seq<byte>, payloads: seq<seq<byte>>, recs: seq<WalRec>,
                                                       limit: nat)
    requires b == FrameAll(payloads) && forall k :: 0 <= k < |payloads| ==> |payloads[k]| < UINT32_LIMIT
    requires Tiles(Reader(b, limit), 0, recs) && !Reader(b, limit)(EndOf(0, recs)).Record?
    ensures recs == RecordsAt(0, payloads) <==> Writable(payloads, limit)
  {
    assert b[0..] == b;
    if Writable(payloads, limit) {
      RoundTrip(b, 0, payloads, recs, limit);
    } else if recs == RecordsAt(0, payloads) {
      forall k | 0 <= k < |payloads| ensures WritableOne(payloads[k], limit) {
        RecordsHoldPayloads(0, payloads, k);
        YieldedIsWritable(b, 0, recs, limit, k);
      }
      assert false;
    }
  }

  /** Reading again from the end of any record returns the remaining suffix. */
  lemma ResumeReadsSuffix(done: seq<seq<byte>>, todo: seq<seq<byte>>, b: seq<byte>, from: nat, recs: seq<WalRec>,
                          limit: nat)
    requires Writable(todo, limit)
    requires b == FrameAll(done + todo) && from == EndOf(0, RecordsAt(0, done))
    requires Tiles(Reader(b, limit), from, recs) && !Reader(b, limit)(EndOf(from, recs)).Record?
    ensures RecordsAt(0, done) + recs == RecordsAt(0, done + todo)
  {
    RecordsSplit(done, todo);
    FramesSplit(b, done, todo);
    RoundTrip(b, from, todo, recs, limit);
  }

  lemma RecordsSplit(done: seq<seq<byte>>, todo: seq<seq<byte>>)
    ensures EndOf(0, RecordsAt(0, done)) == |FrameAll(done)|
    ensures RecordsAt(0, done + todo) == RecordsAt(0, done) + RecordsAt(|FrameAll(done)|, todo)
  {
    PlacedEnd(Frame, 0, done);
    PlacedConcat(Frame, 0, done, todo);
  }

  lemma FramesSplit(b: seq<byte>, done: seq<seq<byte>>, todo: seq<seq<byte>>)
    requires b == FrameAll(done + todo)
    ensures |FrameAll(done)| <= |b| && b[|FrameAll(done)|..] == FrameAll(todo)
  {
    ExpandConcat(Frame, done, todo);
    SuffixOfConcat(FrameAll(done), FrameAll(todo));
  }

  // ----- Damage

  lemma DamagedRecord(b: seq<byte>, pos: nat, size: nat, limit: nat)
    requires 0 < size <= limit && pos + HEADER_SIZE + size <= |b|
    requires UnpackAt(b, pos) == size
    requires TableChecksum(b[pos + HEADER_SIZE..pos + HEADER_SIZE + size]) != UnpackAt(b, pos + 4)
    ensures ReadOne(b, pos, limit) == Corrupt(ChecksumMismatch)
  {
  }

  lemma BurstIsSeen(p: seq<byte>, q: seq<byte>, bit: nat)
    requires |p| == |q| && p != q && DifferOnlyWithin(p, q, bit, 32)
    ensures TableChecksum(q) != Checksum(p)
  {
    BurstChangesChecksum(p, q, bit);
    BitLoopIsTableDriven(q);
  }

  lemma {:induction false} BurstAt(b: seq<byte>, pos: nat, p: seq<byte>, q: seq<byte>, bit: nat, limit: nat)
    requires WritableOne(p, limit) && |p| == |q| && p != q && DifferOnlyWithin(p, q, bit, 32)
    requires pos + HEADER_SIZE + |p| <= |b|
    requires b[pos..pos + HEADER_SIZE] == Header(p)
    requires b[pos + HEADER_SIZE..pos + HEADER_SIZE + |p|] == q
    ensures ReadOne(b, pos, limit) == Corrupt(ChecksumMismatch)
  {
    HeaderSays(b, pos, p);
    BurstIsSeen(p, q, bit);
    DamagedRecord(b, pos, |p|, limit);
  }

  lemma {:induction false} HeaderSays(b: seq<byte>, pos: nat, p: seq<byte>)
    requires pos + HEADER_SIZE <= |b| && |p| < UINT32_LIMIT && b[pos..pos + HEADER_SIZE] == Header(p)
    ensures UnpackAt(b, pos) == |p| && UnpackAt(b, pos + 4) == Checksum(p)
  {
    HeaderMeaning(b, pos, |p|, Checksum(p));
  }

  lemma MiddleSlices(b: seq<byte>, front: seq<byte>, head: seq<byte>, q: seq<byte>, rest: seq<byte>)
    requires b == front + (head + q + rest)
    ensures b[|front|..|front| + |head|] == head
    ensures b[|front| + |head|..|front| + |head| + |q|] == q
    ensures front <= b[0..]
  {
  }

  lemma {:induction false} DamageStops(front: seq<byte>, p: seq<byte>, q: seq<byte>, rest: seq<byte>, bit: nat,
                                       b: seq<byte>, limit: nat)
    requires WritableOne(p, limit)
    requires |p| == |q| && p != q && DifferOnlyWithin(p, q, bit, 32)
    requires b == front + (Header(p) + q + rest)
    ensures front <= b[0..] && ReadOne(b, |front|, limit) == Corrupt(ChecksumMismatch)
  {
    MiddleSlices(b, front, Header(p), q, rest);
    BurstAt(b, |front|, p, q, bit, limit);
  }

  lemma {:induction false} StopsBehindFrames(payloads: seq<seq<byte>>, b: seq<byte>, recs: seq<WalRec>, limit: nat)
    requires Writable(payloads, limit) && FrameAll(payloads) <= b[0..]
    requires !Reader(b, limit)(|FrameAll(payloads)|).Record?
    requires Tiles(Reader(b, limit), 0, recs) && !Reader(b, limit)(EndOf(0, recs)).Record?
    ensures recs == RecordsAt(0, payloads) && EndOf(0, recs) == |FrameAll(payloads)|
  {
    FramesRecognised(b, payloads, limit);
    ReadsUpTo(Reader(b, limit), Frame, b, payloads, recs);
  }

  // ----- What the reader refuses of what the writer accepts

  /** How many payloads come before the first that is empty or over the limit. */
  function WritablePrefix(payloads: seq<seq<byte>>, limit: nat): (n: nat)
    ensures n <= |payloads| && Writable(payloads[..n], limit)
    ensures n < |payloads| ==> !WritableOne(payloads[n], limit)
  {
    if payloads == [] || !WritableOne(payloads[0], limit) then 0
    else
      var n := WritablePrefix(payloads[1..], limit);
      assert payloads[..n + 1] == [payloads[0]] + payloads[1..][..n];
      n + 1
  }

  lemma UnwritableIsRefused(b: seq<byte>, pos: nat, p: seq<byte>, limit: nat)
    requires |p| < UINT32_LIMIT && !WritableOne(p, limit) && pos <= |b| && Frame(p) <= b[pos..]
    ensures ReadOne(b, pos, limit).Corrupt?
  {
    assert b[pos..][..HEADER_SIZE] == Frame(p)[..HEADER_SIZE] == Header(p);
    assert b[pos..pos + HEADER_SIZE] == b[pos..][..HEADER_SIZE];
    HeaderSays(b, pos, p);
  }

  lemma {:induction false} FramesBefore(b: seq<byte>, payloads: seq<seq<byte>>, n: nat)
    requires n < |payloads| && FrameAll(payloads) <= b
    ensures var front := FrameAll(payloads[..n]); front <= b && Frame(payloads[n]) <= b[|front|..]
  {
    var front, rest := FrameAll(payloads[..n]), payloads[n..];
    assert payloads == payloads[..n] + rest;
    ExpandConcat(Frame, payloads[..n], rest);
    assert FrameAll(rest) == Frame(payloads[n]) + FrameAll(rest[1..]);
    PrefixSplits(front, FrameAll(rest), b);
    PrefixSplits(Frame(payloads[n]), FrameAll(rest[1..]), b[|front|..]);
  }

  /** Whatever follows, the reader yields the payloads before the first that it refuses, and stops
      at that one if there is one. */
  lemma {:induction false} ReadsWritablePrefix(b: seq<byte>, payloads: seq<seq<byte>>, recs: seq<WalRec>, limit: nat)
    requires FrameAll(payloads) <= b && forall k :: 0 <= k < |payloads| ==> |payloads[k]| < UINT32_LIMIT
    requires Tiles(Reader(b, limit), 0, recs) && !Reader(b, limit)(EndOf(0, recs)).Record?
    ensures var n := WritablePrefix(payloads, limit);
      && RecordsAt(0, payloads[..n]) <= recs
      && (n < |payloads| ==> recs == RecordsAt(0, payloads[..n]))
  {
    var n := WritablePrefix(payloads, limit);
    assert b[0..] == b;
    if n < |payloads| {
      FramesBefore(b, payloads, n);
      UnwritableIsRefused(b, |FrameAll(payloads[..n])|, payloads[n], limit);
      StopsBehindFrames(payloads[..n], b, recs, limit);
    } else {
      assert payloads[..n] == payloads;
      FramesAreRead(b, 0, payloads, limit);
      MaximalIsLongest(Reader(b, limit), 0, recs, RecordsAt(0, payloads));
    }
  }

  /** A payload damaged only inside 32 consecutive bits is refused at its record's offset, after
      the intact records before it; the damaged payload is never yielded. */
  lemma {:induction false} BurstIsRefused(payloads: seq<seq<byte>>, p: seq<byte>, q: seq<byte>, rest: seq<byte>,
                                          bit: nat,
                       b: seq<byte>, recs: seq<WalRec>, limit: nat)
    requires Writable(payloads, limit) && WritableOne(p, limit)
    requires |p| == |q| && p != q && DifferOnlyWithin(p, q, bit, 32)
    requires b == FrameAll(payloads) + (Header(p) + q + rest)
    requires Tiles(Reader(b, limit), 0, recs) && !Reader(b, limit)(EndOf(0, recs)).Record?
    ensures recs == RecordsAt(0, payloads)
    ensures Reader(b, limit)(EndOf(0, recs)) == Corrupt(ChecksumMismatch)
  {
    DamageStops(FrameAll(payloads), p, q, rest, bit, b, limit);
    StopsBehindFrames(payloads, b, recs, limit);
  }
}
