# Verification of the trace pipeline

This project models two parts of the repository and proves what they are for.

**The storage engine.** A gateway appends OTLP payloads to write-ahead-log segments as framed,
checksummed records. A materializer reads the segments, batches the spans of their records into
Parquet files and lists those files in a manifest; compaction merges files; cleanup deletes segments
that are done with. Queries see the rows of the files that are COMMITTED in the manifest and present
on disk. Without failures every acknowledged span becomes visible exactly once, whatever the
interleaving; what crashes can take from that is stated exactly.

**The span tree.** The trace viewer turns a flat list of spans with parent pointers, possibly
dangling or cyclic, into a forest, and the forest into the list of visible rows.

## How it is built

| file | content |
|---|---|
| `Folds`, `Sums`, `Streams` | generic folds, sums over indexed sequences, streams of records read one after the other |
| `Crc32` | the bit-level CRC, the table-driven CRC of RFC 1952 section 8, and detection of bursts |
| `CrcRemainder` | the gateway's nested loops, and the checksum as a remainder of polynomials over GF(2) |
| `WalCodec` | framing, the reader's loop, round trips, damage |
| `SegmentRows` | the rows that a segment's bytes hold, for any reader that is sound |
| `StorageModel` | the storage engine as a step machine: gateway, materializer, compaction, cleanup, crash |
| `StorageInvariant` | what every step keeps |
| `StorageTheorems` | what holds of all runs: at most once, exactly once, which rows are at risk |
| `StorageRecovery` | what a run shows once everything is read, exact losses, quarantine, schedule independence |
| `StorageReclaim` | concrete losing runs, and exactly which segments can still be flagged and deleted |
| `Compaction` | listings, merges, how many calls are needed |
| `RunPlan` | which segments a run will flag or quarantine, told from the table it starts from |
| `Materializer` | class `Store`: the operations in imperative form; every one is a run of the step machine |
| `SegmentNames` | segment names and their sort key |
| `WalWriter` | class `Writer`, with every way in which opening, writing and syncing can fail |
| `Otlp`, `Delivery`, `Gateway` | requests and their spans, from framed payloads to visible rows, class `Server` |
| `Pipeline` | class `Pipeline`: a `Server` and a `Store` over the same log, and span conservation |
| `SpanForest` | index, classification, stable sort, parent chains, building the forest |
| `SpanRows` | flattening, coverage, collapsing, order |

The step machine takes one step per atomic change of disk or manifest, and one per record read into
memory. The gateway may append any bytes or rotate, and the worker may die, between any two steps. A
raised exception that leaves an operation is the same step as a crash. `Store` implements the
operations with loops and mutable fields; each of its methods proves that what it did is a sequence
of machine steps, so the theorems about runs apply to it. Segments and Parquet files are named by
their position in creation order. `saved` (how far a segment's rows were committed), `worker`,
`history`, `intact` and `failed` are history variables: no decision of an operation depends on them.

Assumptions: one gateway process and one holder of the lifecycle lock; a clock that does not run
backwards; SQLite transactions are atomic; generated file names are fresh, and no two files of a
kind are named in the same microsecond, so that name order is creation order; decoding a payload is a
function, defined on what the gateway acknowledged; no bytes change except where a statement
introduces damage. The step machine itself does not assume that the active segment ends in a whole
record; the statements about whole records say so in their premises. Bits within a byte are numbered
from the least significant one, the order in which the CRC consumes them.

## What the code does that its documentation does not say

- The fully-processed flag is committed before the last rows of the segment are flushed
  (`backend/app/materializer.py` lines 523-536 and 574-585). A crash in between leaves those rows in
  no file and no memory. If nothing of the segment had been flushed before, the flag was inserted
  with an offset at the end of the file, no later run opens the segment, and the rows are lost for
  good; otherwise the stored offset is that of the earlier flush, and the next completed run reads
  the rows again, unless cleanup deletes the flagged segment first. `CrashLosesExactly` is the exact
  condition, `AtRiskIsRecovered` and `DeletionLosesAtRisk` are the two ways on, `LosingRun` and
  `PartlySavedRun` are runs for both cases, `LostForever` shows that no later run repairs a loss, and
  `LossHasOneCause` that nothing else loses rows.
- A sealed segment whose stored offset is at the end of its bytes is skipped before its flag is
  looked at (lines 496-497), so it is never flagged or deleted. That happens to every segment that
  was read to its end while it was still the open one, which needs nothing but an ordinary run before
  the rotation (`RotationStrands`, `ActiveReadRun`), and to a sealed segment whose last record fills
  a batch, because the flag test then looks at the offset the run started from
  (`FlaggedExactlyWhenPending`, `StrandingRun`). `FlaggableExactlyWhenUnread` is the exact condition.
- The writer frames empty payloads, and payloads longer than the reader's limit; the reader refuses
  both, and what follows in the segment with them: `ReadBackExactlyWhenWritable`, `ReadsWritablePrefix`.
- With a repeated span id, building the tree can recurse forever: `RepeatedIdNeverEnds`,
  `EndlessWhenRevisited`.

## Model

| member | source | states |
|---|---|---|
| CrcRemainder.ComputeCrc32 | cpp/gateway/src/wal_writer.cpp:23-30 | The nested loops compute the CRC-32 of the payload: the one number below 2^32 that the polynomial definition admits, which is also what the table-driven algorithm yields |
| CrcRemainder.ChecksumIsTheCrc | cpp/gateway/src/wal_writer.cpp:23-30 | A number is the checksum if and only if, bit-reversed and complemented, it is congruent to the message with its first 32 bits complemented, raised by x^32, modulo x^32+x^26+x^23+x^22+x^16+x^12+x^11+x^10+x^8+x^7+x^5+x^4+x^2+x+1 over GF(2), the polynomial being given by its exponents |
| CrcRemainder.RegisterIsRemainder | cpp/gateway/src/wal_writer.cpp:25-28 | Over GF(2), the starting register raised by the number of bits consumed, plus those bits raised by x^32, is a multiple of the polynomial plus the register that results |
| CrcRemainder.RemainderIsUnique | cpp/gateway/src/wal_writer.cpp:29 | For any polynomial of degree 32, the remainder below degree 32 is unique, so the checksum is determined |
| Crc32.BitLoopIsTableDriven | cpp/gateway/src/wal_writer.cpp:23-30 | For every byte string, shift-and-xor bit by bit equals the table-driven CRC of RFC 1952 section 8, which the reader's library call computes |
| Crc32.BurstChangesChecksum | cpp/gateway/src/wal_writer.cpp:23-30 | Two different payloads of equal length, of any length, that differ only inside 32 consecutive bits have different checksums |
| WalCodec.WriteLittleEndian | cpp/gateway/src/wal_writer.cpp:32-38 | The header buffer, filled in place, holds the size and then the checksum, least significant byte first |
| WalCodec.ReadOneMeaning | backend/app/materializer.py:272-316 | On arbitrary bytes one turn of the reader yields a record exactly where the bytes are the writer's frame of a non-empty payload within the limit, ends exactly at the end of the file, and is an error exactly otherwise |
| WalCodec.RefusalMeaning | backend/app/materializer.py:280-313 | With a whole header, each error is told from the header bytes: zero length exactly when they say 0, oversized exactly when they say more than the limit, truncated exactly when they say more than what is left, checksum mismatch exactly when the payload has another checksum |
| WalCodec.HeaderCutShort | backend/app/materializer.py:272-282 | The truncated-header error is raised exactly where some bytes are left, but fewer than a header |
| WalCodec.WalRecordsFrom | backend/app/materializer.py:256-316 | The reader's loop yields records that lie end to end from the start offset, then ends cleanly at the end of the file or with an error at the first offset it could not read |
| WalCodec.ReaderIsExact | backend/app/materializer.py:267-316 | What is yielded is the longest sequence of framed payloads from that offset; it is clean exactly when the bytes are used up, and no framed payload stands at the error offset |
| WalCodec.RoundTrip | cpp/gateway/src/wal_writer.cpp:98-128 | Reading the frames of writable payloads, from wherever they start in the file, returns exactly those payloads with their offsets and ends at the end of the file |
| WalCodec.RecordsHoldPayloads | cpp/gateway/src/wal_writer.cpp:112-114 | The expected records carry the written payloads in order, and end where the bytes end |
| WalCodec.ReadBackExactlyWhenWritable | backend/app/materializer.py:286-297 | Everything written is read back if and only if every payload is non-empty and within the reader's limit |
| WalCodec.ReadsWritablePrefix | backend/app/materializer.py:286-297 | Whatever follows the frames, the reader yields the payloads before the first that is empty or over the limit, and stops at that one if there is one |
| WalCodec.ResumeReadsSuffix | backend/app/materializer.py:268-273 | Reading again from the end of any record returns exactly the records that were still to come |
| WalCodec.BurstIsRefused | backend/app/materializer.py:307-313 | If a payload is altered only inside 32 consecutive bits, the reader yields the records before it and raises a checksum error at its offset |
| StorageInvariant.StepKeepsInv | backend/app/materializer.py:385-421 | Every step, crash included, keeps the invariant that ties visible rows, pending batch, stored offsets, flags and quarantine to the segments' bytes |
| StorageInvariant.RunKeepsInv | backend/app/materializer.py:437-597 | Every run keeps it |
| StorageTheorems.AtMostOnce | backend/app/control.py:68-87 | In every run, crashes included, the visible rows are exactly those up to the saved offsets, so none is duplicated or invented, and the COMMITTED record counts add up to the number of visible rows |
| StorageTheorems.OnlyCommitShows | backend/app/materializer.py:711-738 | Only the commit of a flush changes what queries see, and it adds exactly the batch; every step of compaction, cleanup, orphan removal and every crash is invisible |
| StorageTheorems.FlagsAreSafe | backend/app/materializer.py:523-536 | In every reachable state flagged and quarantined segments are disjoint, a deleted segment had been flagged, and the last segment is neither flagged nor deleted |
| StorageTheorems.CrashAnywhere | backend/app/materializer.py:385-421 | A run may be cut after any step by a crash, and the invariant holds there |
| StorageTheorems.OnlyCrashRisks | backend/app/materializer.py:523-536 | No step other than a crash takes rows of a flagged segment out of both the files and the batch |
| StorageTheorems.CrashRisksExactlyPending | backend/app/materializer.py:523-585 | A crash leaves rows of a flagged segment in no file and no batch if and only if the segment has rows pending in memory, and exactly those rows are then missing |
| StorageRecovery.CrashLosesExactly | backend/app/materializer.py:492-536 | A crash loses rows of a segment for good if and only if it is flagged, has rows pending in memory, and its stored offset is at the end of its bytes, that is, nothing of it had been flushed before |
| StorageRecovery.AtRiskIsRecovered | backend/app/materializer.py:489-500 | Rows at risk that are not lost are visible once everything is read, whatever happens in between, further crashes included, unless cleanup deletes the segment first |
| StorageRecovery.DeletionLosesAtRisk | backend/app/materializer.py:617-627 | Cleanup may delete a segment with rows at risk, and then they are lost |
| StorageReclaim.PartlySavedRun | backend/app/materializer.py:511-536 | For every two-record segment with spans there is a run that crashes after the flag with the second record pending: the rows are at risk, the next run opens the segment again, and a cleanup before it loses them |
| StorageTheorems.LossHasOneCause | backend/app/materializer.py:523-585 | In all runs, whatever a flagged segment does not show was pending in memory when a crash fell between its flag and its flush |
| StorageReclaim.LosingRun | backend/app/materializer.py:523-536 | For every one-record segment with spans, the run append, rotate, read, flag, crash loses its rows |
| StorageReclaim.LostForever | backend/app/materializer.py:492-497 | No continuation, crashes included, ever reads or saves anything of such a segment again |
| StorageRecovery.QuarantineIsWhole | backend/app/materializer.py:548-572 | In all runs, crashes included, a quarantined segment shows all the rows it held when it was quarantined, also after it has grown |
| StorageRecovery.Recovery | backend/app/materializer.py:444-585 | After any run, crashes included, that ends with everything readable read, each segment shows all its valid rows, or is quarantined and shows all it held at that step, or what it lacks was pending in memory at a crash step that fell between its flag and its flush |
| StorageTheorems.ExactlyOnce | backend/app/materializer.py:483-585 | In a crash-free run with no materialization under way, the visible rows are, as a multiset, those of all records at or below each segment's high-water mark, over every segment ever created, and a flagged segment has all its rows visible, deleted or not |
| StorageTheorems.DeletionIsSafe | backend/app/materializer.py:610-627 | In a crash-free run what cleanup may delete is never the open segment, never quarantined, readable to its end, and fully visible |
| StorageRecovery.QuarantineIsLossless | backend/app/materializer.py:548-572 | When a segment is quarantined all its valid rows are visible, and they stay so in every continuation while the file does not grow |
| StorageRecovery.WholeRecordsAreNotQuarantined | backend/app/materializer.py:538-572 | A segment of whole valid records is never quarantined |
| StorageRecovery.FullyReadShowsAll | backend/app/materializer.py:447-459 | However a crash-free run was scheduled and batched, quarantines included, once everything is read it shows what one scan of all segments from offset 0 yields, unless a segment was quarantined while open and grew afterwards |
| StorageRecovery.ScheduleIndependence | backend/app/materializer.py:489-521 | Two such runs over the same bytes show the same multiset of rows, whatever their batches, resumes and quarantines |
| StorageReclaim.FlaggedExactlyWhenPending | backend/app/materializer.py:523-524 | At the end of a sealed segment the flag test succeeds if and only if part of the segment is still pending or there was nothing to read |
| StorageReclaim.StrandingRun | backend/app/materializer.py:511-524 | A segment whose only record fills a batch ends its run saved to the end, visible, and unflagged |
| StorageReclaim.StrandedForever | backend/app/materializer.py:496-497 | Such a segment is never flagged, hence never deleted, in any continuation |
| StorageReclaim.RotationStrands | backend/app/materializer.py:492-497 | Sealing a segment that has been read to its end strands it |
| StorageReclaim.ActiveReadRun | backend/app/materializer.py:574-585 | The ordinary crash-free run that reads the open segment, flushes it as its last batch and is followed by a rotation strands it, whatever the batch size |
| StorageReclaim.FlaggableExactlyWhenUnread | backend/app/materializer.py:489-536 | A sealed, present, unflagged segment of whole records can still be flagged by some crash-free continuation if and only if its stored offset is not already at the end of its bytes |
| Materializer.Store.GatewayAppend | cpp/gateway/src/wal_writer.cpp:112-126 | The gateway's bytes go to the end of the last segment and nothing else changes |
| Materializer.Store.GatewayRotate | cpp/gateway/src/wal_writer.cpp:76-91 | A rotation adds one empty segment |
| Materializer.Store.FlushBatch | backend/app/materializer.py:363-423 | A flush adds one COMMITTED file with exactly the batch and moves every pending offset, as one run of steps; an empty batch changes nothing |
| Materializer.Store.CleanupOrphans | backend/app/materializer.py:323-360 | Exactly the files that are temporary or in place without being COMMITTED are removed, their number is returned, and what queries see stays the same |
| Materializer.Store.ProcessRecord | backend/app/materializer.py:505-521 | A record is added to the batch, which is flushed exactly when it has then reached the batch size, and keeps its pending offset exactly otherwise; a threshold flush holds fewer rows than the batch size without the rows of the record that triggered it |
| Materializer.Store.ReadRecords | backend/app/materializer.py:500-521 | The record loop stops at the end or the first bad record, with every earlier row in the files or in the batch; batch, number of flushes and pending offset are those of the records read one by one |
| Materializer.Store.FinishSegment | backend/app/materializer.py:523-536 | The flag is set exactly for a sealed segment whose size is the pending offset, or the run's start offset when there is none |
| Materializer.Store.StopAtCorruption | backend/app/materializer.py:538-572 | A bad record first flushes what is pending, then quarantines the segment; nothing readable is left out |
| Materializer.Store.Materialize | backend/app/materializer.py:426-597 | A call leaves everything readable read, returns exactly the number of rows it made visible, returns 0 when nothing was unread, removes the orphans, and writes at most rows/batch + newly quarantined segments + 1 files, each with fewer rows than the batch size when the rows of one record are left out. Afterwards a segment is flagged if and only if it was before, or it is sealed, had bytes past its mark or none at all, is readable to its end, and its last new record did not bring the batch to its size; it is quarantined if and only if it was before, or was opened and not readable to its end |
| Materializer.Store.SmallRunFlags | backend/app/materializer.py:523-536 | A call that makes fewer rows visible than the batch size flags every present, unquarantined, sealed segment of whole records that had something unread |
| RunPlan.TallyAtStop | backend/app/materializer.py:500-524 | Where the record loop stops it has taken exactly the records past the mark; if that is the end of the file, the size equals the pending offset, or the start offset when there is none, exactly when the last record did not fill the batch |
| RunPlan.NoFillNoMiss | backend/app/materializer.py:511-524 | If the batch never reaches its size, no opened segment ends with a record that fills it |
| Materializer.QuietRun | backend/app/materializer.py:492-497 | A run over segments with nothing unread leaves the visible multiset as it was |
| Materializer.Store.GetCommittedFiles | backend/app/control.py:68-87 | The list is exactly the COMMITTED files present on disk, each once, in name order |
| Materializer.Store.Compact | backend/app/materializer.py:642-741 | The first files in name order, up to the limit, are retired, exactly those that can be unlinked are gone from disk, and one file holds their rows one after the other; a raised copy leaves every listed file as it was; queries see the same rows; the returned count is that of the merged file |
| Materializer.Store.CleanupWal | backend/app/materializer.py:600-639 | Exactly the segments that are on disk, flagged in the manifest, not the last, and can be unlinked are deleted, and without crashes each had all its rows visible |
| Compaction.ListingIsDistinct | backend/app/control.py:77-87 | A listing names each visible file once |
| Compaction.MergeCount | backend/app/materializer.py:719-728 | Merging k files leaves k - 1 fewer visible ones |
| Compaction.CallsIsCeiling | backend/app/materializer.py:662-671 | n files merged m at a time reach one file in exactly ceil((n-1)/(m-1)) calls |
| SegmentNames.ParseOfWalName | backend/app/materializer.py:125-140 | Parsing a gateway-made name returns its timestamp and sequence number |
| SegmentNames.KeyOfForm | backend/app/materializer.py:133-139 | Two runs of digits in the gateway's pattern are timestamp and sequence number; a single one is the sequence number, with timestamp 0 |
| SegmentNames.KeyOfOther | backend/app/materializer.py:133-140 | A name of neither pattern has timestamp and sequence number 0 |
| SegmentNames.ExampleName | cpp/gateway/src/wal_writer.cpp:81-82 | The name of segment 9, opened at 172, is `wal-172-9.wal` |
| SegmentNames.LaterNameIsGreater | cpp/gateway/src/wal_writer.cpp:78-82 | Under a clock that does not run backwards, a name made later has the greater key |
| WalWriter.Writer.OpenNewSegment | cpp/gateway/src/wal_writer.cpp:76-91 | A new segment is empty and becomes the current one; a failed open leaves the files alone and no segment open |
| WalWriter.Writer.WriteAll | cpp/gateway/src/wal_writer.cpp:40-52 | Whatever each write call answers, a prefix of the data reaches the file; it succeeds if and only if the answers, each positive, add up to the length of the data before they run out, and it uses no more calls than that takes |
| WalWriter.Writer.Append | cpp/gateway/src/wal_writer.cpp:98-128 | A payload is acknowledged if and only if its size fits the header, a segment is open with room or can be opened, the answers deliver the header and then the payload, and the sync succeeds. Then exactly one frame is added to the current segment; a failed append adds a prefix of it and marks the segment as failed. A new segment is opened exactly when none is open or the record does not fit, and opening succeeds |
| WalWriter.Writer.RoomMeaning | cpp/gateway/src/wal_writer.cpp:103 | While no append to the open segment has failed, a rotation is due exactly when its file is not empty and the record would bring it over the limit |
| WalWriter.Writer.IntactIsReadBack | cpp/gateway/src/wal_writer.cpp:114-126 | For any failures, reading a segment returns the payloads acknowledged before its first failed append, in order, as a prefix of its records, up to the first that is empty or over the reader's limit, where reading stops; without a failure it returns nothing else |
| WalWriter.Writer.CurrentSortsLast | backend/app/materializer.py:470-476 | The last file in key order is the one the writer has open |
| WalWriter.Writer.RotationBound | cpp/gateway/src/wal_writer.cpp:100-110 | Without a failure a segment is within the limit or holds a single record |
| Otlp.CountSpans | cpp/gateway/src/http_server.cpp:173-176 | The gateway's nested loops return the sum of the numbers of spans of all scopes of all resources |
| Otlp.RowsOfRequest | backend/app/materializer.py:206-253 | The materializer's nested loops make one row per span: the row of span k of scope j of resource i, with the record's segment and offset, stands behind those of all earlier resources, scopes and spans |
| Otlp.AllSpansAt | backend/app/materializer.py:206-253 | Span k of scope j of resource i stands in the list of all spans at the position given by the lengths before it, and the list is as long as all scopes together |
| Delivery.DecodedReaderIsSound | backend/app/materializer.py:272-316 | Reading and decoding is a reader that the storage theorems apply to: it makes progress, ends with the file, and a complete record survives growth of the file |
| Delivery.DecodedReaderMeaning | backend/app/materializer.py:203-204 | Reading and decoding yields a record exactly where a framed payload that parses stands, with its spans, ends exactly at the end of the file, and is corrupt exactly otherwise, so also where a framed payload does not parse |
| Delivery.FramesAreRows | backend/app/materializer.py:505-509 | A segment of acknowledged payloads holds exactly their rows, with the offsets of their records |
| Delivery.CountOfAll | backend/app/materializer.py:518 | The rows of all acknowledged payloads are as many as their spans |
| Delivery.FramedRun | cpp/gateway/src/wal_writer.cpp:112-126 | In every run whose appends are whole frames of acceptable payloads, every segment stays a concatenation of such frames and none is ever quarantined |
| Delivery.EndToEnd | backend/app/materializer.py:483-597 | In a crash-free run over whole frames, once everything is read, queries see exactly the spans of the framed payloads, each once, and the visible rows, the COMMITTED record counts and those spans are equal in number |
| Pipeline.WriterIsMachine | cpp/gateway/src/wal_writer.cpp:98-128 | Every append of the writer, failed or not, shows to the materializer as at most one new segment and growth of the last one by exactly what reached the file |
| Pipeline.FlawlessAppend | cpp/gateway/src/wal_writer.cpp:98-128 | While no append has failed and all acknowledged payloads are readable, an append adds one whole frame of an acceptable payload, and this was so before as well |
| Gateway.AppendedCounts | cpp/gateway/src/http_server.cpp:165-179 | Adding the spans of an acknowledged request keeps the counter equal to the spans of all acknowledged payloads |
| Gateway.Server.HandleExport | cpp/gateway/src/http_server.cpp:159-187 | The status told from the request and the operating system's answers: malformed exactly when it does not parse, unavailable exactly when the append is not acknowledged, an internal error exactly when the response cannot be rendered afterwards, accepted exactly otherwise. Acknowledged means that the frame is in the log; the accepted counters grow exactly then, also when rendering fails, and the span counter is the number of spans in the log while no append has failed |
| Pipeline.Pipeline.Export | cpp/gateway/src/http_server.cpp:159-187 | A request over the joint state, with the status decided as in the gateway: the materializer's segments follow the log files, the counter grows by the spans of an acknowledged request, and nothing visible changes |
| Pipeline.Pipeline.Materialize | backend/app/materializer.py:426-597 | A call adds what it returns to the running sum, which stays equal to the number of visible rows, and leaves everything readable read |
| Pipeline.Pipeline.Conservation | backend/app/materializer.py:518-597 | At any point of any interleaving of requests, materializations, compactions and cleanups, without a failed append, with readable payloads and everything read: the gateway's accepted-span counter, the sum of all materialize return values and the sum of the COMMITTED record counts are equal, and the visible rows are the spans of the acknowledged payloads, each once |
| SpanForest.BuildIndex | frontend/app/traces/[traceId]/TraceViewer.tsx:112-115 | The loop builds the map from id to span |
| SpanForest.IndexHoldsLast | frontend/app/traces/[traceId]/TraceViewer.tsx:112-115 | The map holds, for every id, the last span that carries it, and nothing for other ids |
| SpanForest.Classify | frontend/app/traces/[traceId]/TraceViewer.tsx:125-138 | The list of roots holds, in input order, the ids of exactly the spans without a parent id, with an empty one or with one that is not in the index; the child list of p holds, in input order, the ids of exactly the spans whose parent id is p, not empty and in the index |
| SpanForest.FiledExactly | frontend/app/traces/[traceId]/TraceViewer.tsx:129-138 | A list holds exactly the ids of the spans that belong there, each once |
| SpanForest.GraphOfIsOk | frontend/app/traces/[traceId]/TraceViewer.tsx:125-138 | With distinct ids no list holds an id twice, and every id in a list has its span filed in that list and no other |
| SpanForest.GraphMeaning | frontend/app/traces/[traceId]/TraceViewer.tsx:129-138 | For any span list, repeated ids included: an id is a root exactly if a span with it names no span of the list, and a child of p exactly if a span with it names p and p is the id of some span |
| SpanForest.SortIsStable | frontend/app/traces/[traceId]/TraceViewer.tsx:143-144 | Sorting orders by start time, keeps every id, and keeps the order of ids that start together |
| SpanForest.DepthBound | frontend/app/traces/[traceId]/TraceViewer.tsx:140-150 | A parent chain that reaches a root is shorter than the number of spans |
| SpanForest.RootsTerminate | frontend/app/traces/[traceId]/TraceViewer.tsx:140-150 | With distinct ids, self-parents and cycles included, the calls for a root nest less deeply than there are spans |
| SpanForest.EndlessWhenRevisited | frontend/app/traces/[traceId]/TraceViewer.tsx:140-150 | For any span list, repeated ids included, the calls for a span never end if and only if following them meets some id twice |
| SpanForest.RepeatedIdNeverEnds | frontend/app/traces/[traceId]/TraceViewer.tsx:140-154 | A root whose id is used again by its own child is built forever |
| SpanRows.Traverse | frontend/app/traces/[traceId]/TraceViewer.tsx:182-189 | The recursive pushes append the subtree's visible rows to the list |
| SpanForest.MakeForestIsBuildForest | frontend/app/traces/[traceId]/TraceViewer.tsx:140-154 | With distinct ids building ends, and what it builds is the forest that the statements about rows describe |
| SpanRows.VisibleRows | frontend/app/traces/[traceId]/TraceViewer.tsx:112-194 | From span list to visible list, for every list on which building ends, repeated ids included, the loops compute the specified rows; with distinct ids a row is at depth 0 if no span is its span's parent, and otherwise it is among the children of an earlier row, one level up, that shows the span with the parent's id and is not collapsed |
| SpanRows.RowsAreWellPlaced | frontend/app/traces/[traceId]/TraceViewer.tsx:129-154 | With distinct ids and whatever is collapsed: depth 0 exactly for a span whose parent id is missing, empty or that of no span; any other row is one of the children of an earlier, uncollapsed row one level higher that shows its parent |
| SpanRows.RowsFollowParents | frontend/app/traces/[traceId]/TraceViewer.tsx:129-194 | With distinct ids and whatever is collapsed, a span has a row if and only if no span is its parent, or its parent has a row and is not collapsed |
| SpanRows.EachSpanOnce | frontend/app/traces/[traceId]/TraceViewer.tsx:125-154 | With nothing collapsed, a span has exactly one row if its parent chain reaches a root, and none otherwise |
| SpanRows.RowsAreSpans | frontend/app/traces/[traceId]/TraceViewer.tsx:145-149 | Every row shows an input span, its depth is the length of the parent chain, and it carries the tree of that span |
| SpanRows.NoRowMeansCycle | frontend/app/traces/[traceId]/TraceViewer.tsx:129-138 | A span has no row if and only if its parent pointers run into a cycle |
| SpanRows.CollapseFilters | frontend/app/traces/[traceId]/TraceViewer.tsx:180-194 | The visible list is the full list without the rows that have a collapsed proper ancestor, in the same order |
| SpanRows.SubtreesAreContiguous | frontend/app/traces/[traceId]/TraceViewer.tsx:182-189 | The rows from any row on begin with its whole visible subtree, which when expanded holds exactly the spans that have it on their parent chain, each once |
| SpanRows.SiblingsInOrder | frontend/app/traces/[traceId]/TraceViewer.tsx:143-154 | Roots, and the children of any one span, appear in the order of their start times, and those that start together in input order, whatever is collapsed |

## Left out

- HTTP parsing, content types, authentication, project scoping, key hashing, settings and deployment: no state that the properties above depend on.
- Protobuf, Arrow, Parquet, zstd, DuckDB and SQLite: a decode function, row sequences and atomic transactions stand for them. A payload that does not decode takes the branch for corrupt records (materializer lines 203-204); the decoder's own exception, which would leave the run, is a crash step.
- Attributes, events, links and the other columns of a row: a row is its segment, its record offset and its span.
- `materialized_wal_records` and `wal_file_lifecycle`: written, but no operation modelled here decides anything by them.
- The `auto_cleanup_wal` branch (materializer lines 587-589), which takes the lifecycle lock a second time: cleanup is modelled as an operation of its own.
- Orphan cleanup by a second process without the lock, and queries that race with compaction between reading the manifest and looking for the files: a query is one atomic snapshot.
- `except sqlite3.Error` and `except Exception` branches that log and return early, and a failed `unlink` of an orphan: an operation that stops early is a crash step.
- Failure of `writer.close()` after compaction has copied everything, which the code swallows: closing is taken to succeed.
- The gateway running inside a method of `Store` or `Pipeline`: each method is proved with the gateway standing still, while the step machine, on which all theorems about runs are stated, lets it append and rotate between any two steps.
- StorageReclaim.FlaggableExactlyWhenUnread: a continuation is any run of the step machine, so one whose batch is never full before the flag counts; which batch sizes set the flag is what `FlaggedExactlyWhenPending` states.
- Power loss after an acknowledged sync: bytes that were written stay written.
- Unicode digits, which the name pattern would also accept, and a trailing newline in a name: digits are `0` to `9`, and the gateway makes no other names.
- Rounding of nanosecond timestamps to floating point in the viewer, which can only merge start times that are close: start times are integers.
- Trace bounds, totals, details panel and rendering in the viewer.
- Materializer.Store.WriteParquet: a file's content is its sequence of rows, so what a partly written temporary file holds is not modelled beyond its being temporary.
