# A verified model of MetricStore

MetricStore is a small time-series engine: samples are logged in a write-ahead
log, buffered in a memtable, flushed into blocks that time shards list, downsampled
by a compactor, expired by a retention sweeper, and answered by range queries.
This project models the engine's packages in Dafny 4.11 and proves what they
promise, alone and together. Each class performs the source's operations in place
and is proved against a function on values; the main results are then proved
about those functions, over all inputs and over whole runs. The command
`dafny verify dfyconfig.toml` checks everything.

| file | models |
|---|---|
| `seqs.dfy`, `bytes.dfy`, `model.dfy` | sequences, machine integers, the shared types and Go's remainder |
| `wal_record.dfy` | record encoding, checksum framing, line scanning, crashes at any byte |
| `wal.dfy` | the log as a value, and the classes `Segment` and `WAL` |
| `wal_properties.dfy`, `wal_runs.dfy`, `torn_log.dfy`, `log_fates.dfy` | replay, truncation, what every run of the log keeps, appends behind a torn tail, and what becomes of one record |
| `memtable.dfy` | sorted upsert, range reads, snapshots |
| `shard.dfy` | shard windows, routing, rotation, archiving |
| `storage.dfy` | blocks, references, archiving and reclaim under any interleaving |
| `aggregate.dfy`, `compact_points.dfy` | the window accumulator and downsampling |
| `labels.dfy`, `series_index.dfy` | the canonical key, its guards, and the bucketed index |
| `engine_state.dfy`, `engine_steps.dfy` | memtable, shards and store as one value; its invariant and every step |
| `engine_flush.dfy`, `flush_loss.dfy` | flushes of any memtable: which succeed, what they leave, when they lose points |
| `engine_queries.dfy`, `engine_runs.dfy`, `engine_answers.dfy`, `answer_history.dfy`, `unit_step.dfy`, `completeness.dfy` | completeness of queries over whole runs, and the settings it needs; what every operation does to answers |
| `bounds.dfy`, `compactor.dfy`, `retention.dfy`, `query.dfy` | the classes that drive blocks and shards |
| `compact_passes.dfy` | when passes over all blocks fail |
| `ingest_state.dfy`, `ingest.dfy` | the write path as a value and in place |
| `recovery.dfy`, `interleaving.dfy`, `lifetimes.dfy` | what replay rebuilds: within one lifetime, in every interleaving of its steps, and across restarts |

Conventions. A value is its 64-bit pattern where it passes through the log and
a real where it is aggregated. The checksum and the hash are arbitrary function
parameters. Clock times are parameters. The order in which a Go map is walked is
arbitrary, and shows as a ghost result where a specification depends on it. Each
method that the source runs under a lock is one atomic step; `storage.dfy` interleaves
such steps of any number of clients, and `interleaving.dfy` those of any number of
appends and flushes.

Where the code and its comments disagree, the model follows the code and the
disagreement is a theorem:

- A record is lost to the line framing when its 36 bytes hold a newline or end in
  a carriage return (`WalRecord.ScanFindsClean`). Recovery is exact only without
  such records (`Recovery.RunRecovers`), and of any 256 consecutive numbers at least
  one is such a record (`Recovery.LowByteUnclean`, `Recovery.LowByteNotRecovered`).
- `TruncateTo` reads the current file before flushing its buffer
  (`WalRuns.TruncateToUnsynced`, `WalRuns.TruncateToLosesUnsynced`).
- Loading segments never raises the numbering to the watermark, so a flush and a
  restart make the next samples invisible to replay (`Lifetimes.RestartWatermark`,
  `Lifetimes.NextSampleRecovered`, `Lifetimes.FlushThenRestartLosesNext`).
- `Append` writes its log record before it takes the lock, so flushes come in between.
  A newline-clean record is replayed if and only if every later flush had a bound
  below its number and found it on disk (`Interleaving.SampleReplayedIff`): a flush
  with a bound at or above it loses the sample if that was still to be written, and a
  flush that an older append triggers can store a sample and replay it as well
  (`Interleaving.OverlappingFlush`).
- A refused sample stays in the log and comes back on recovery
  (`Recovery.RecoveryExact`).
- `Recover` writes without routing: it succeeds for certain only if the samples the
  new window does not refuse lie in one window (`Lifetimes.RecoverSucceedsIff`);
  the order in which a map is walked can decide (`EngineFlush.FlushOrderIff`). When
  it succeeds the refused samples are gone for good (`Lifetimes.RecoverStores`); when
  it fails only the log still holds the samples (`Lifetimes.RecoverFails`).
- `ForceRotate` does not keep a place for timestamps of the window it closes
  (`Sharding.RotateRefusesInFlight`), and a flush drops what rotation left behind
  (`EngineQueries.FlushKeepsAnswers`, `FlushLoss.NoRotationNoLoss`).
- `Latest` hands out the live snapshot, not an immutable one (`Memtable.PinnedMoves`).
- A refused compaction leaves a new block that no shard lists, and its source marked
  as compacting for good (`EngineRuns.CompactOutcomes`). One block left uncompacted
  when its window is rotated away makes every pass over all blocks fail from then on
  (`CompactPasses.PassFailsIff`, `CompactPasses.PassesKeepFailing`).
- A sample overwrites an earlier one at its timestamp only until the next flush
  (`AnswerHistory.AnswersAreHistory`, `AnswerHistory.RewrittenShowsTwice`).
- Queries find everything in every run only if the downsample step divides the shard
  width: otherwise a compacted point can leave its shard's window and be pruned
  (`Completeness.CompleteIff`).
- Label values are not checked for NUL, which the key uses as its separator
  (`Labels.NulCollides`, `Labels.KeyInjectiveIff`).
- The series index is not saved while the log records its ids
  (`SeriesIndex.RestartKeepsIds`, `SeriesIndex.RestartMixesNothing`).

## Model

| member | source | states |
|---|---|---|
| WalRecord.AppendChecksum | internal/wal/crc.go:19-25 | the frame is the payload followed by the little-endian checksum of exactly those bytes, for any checksum function |
| WalRecord.EncodeRecord | internal/wal/wal.go:204-213 | the encoding is the 36-byte frame (sequence, series, two's complement timestamp, value bits, checksum) and one newline |
| WalRecord.DecodeFrame | internal/wal/crc.go:28-35 | decoding a frame with any bytes behind it gives back the record that was encoded |
| WalRecord.RecordLayout | internal/wal/wal.go:204-213 | byte by byte, a line holds number, series, timestamp in two's complement, value and checksum, all little-endian, and ends in byte 10 |
| WalRecord.DecodeIff | internal/wal/crc.go:28-35 | a line is taken for a record exactly if it begins with that record's 36 bytes, checksum included |
| WalRecord.NextRecord | internal/wal/wal.go:301-315 | one scanner line, with a trailing carriage return stripped, decoded, and the bytes behind it |
| WalRecord.ScanRecords | internal/wal/wal.go:297-322 | the loop delivers exactly the decodable records at or above `from`, in file order |
| WalRecord.ScanFindsIff | internal/wal/wal.go:297-322 | on any bytes at all a scan finds a record if and only if some line, less a carriage return at its end, begins with that record's 36 bytes: nothing is made up and nothing that fails its checksum gets through |
| WalRecord.ScanFindsClean | internal/wal/wal.go:204-213 | scanning any concatenation of encoded records yields, in order, exactly those whose 36 bytes hold no newline and do not end in a carriage return |
| WalRecord.ScanFindsCleanFrom | internal/wal/wal.go:297-322 | the same with the lower bound on sequence numbers |
| WalRecord.FragmentsNeverDecode | internal/wal/wal.go:303-308 | the pieces of a record cut by its own newline byte never decode as records, for any checksum |
| WalRecord.CrashScan | internal/wal/wal.go:215-227 | cutting a log after any number of bytes leaves exactly the clean records whose 36 bytes are all present |
| WalRecord.CrashScanIsPrefix | internal/wal/wal.go:297-322 | what a scan finds after a crash at any byte is a prefix of the full scan |
| WalRecord.TornAppend | internal/wal/wal.go:111-149 | appending behind a torn tail: everything whole before it, at most one record out of the tear and the first appended record, then exactly the clean later ones |
| WalRecord.TornLosesNext | internal/wal/wal.go:297-322 | when only the newline of a clean record is missing, that record is found and the next appended one is lost |
| Wal.Segment.Open | internal/wal/wal.go:111-149 | the opened segment's first, last and size are those of the decodable records of the file |
| Wal.Segment.Write | internal/wal/wal.go:215-228 | the record joins the buffer, one full 64 KiB buffer spills to the file even in mid-record, and first, last and size follow |
| Wal.WAL.Open | internal/wal/wal.go:52-61 | the opened log is the value `OpenLog` of the segment files and the checkpoint |
| Wal.WAL.LoadSegments | internal/wal/wal.go:73-109 | segments are loaded in index order and numbering resumes one past the largest last, without regard to the watermark |
| Wal.WAL.Append | internal/wal/wal.go:169-185 | the returned number is the old `nextSeq`, and the log becomes `AppendLog`: rotation when full, then the write, then the increment |
| Wal.WAL.Sync | internal/wal/wal.go:238-242 | only the current segment's buffer moves to its file |
| Wal.WAL.TruncateBefore | internal/wal/wal.go:247-268 | exactly the segments with last below the bound go, and an empty log gets a fresh segment |
| Wal.WAL.TruncateTo | internal/wal/wal.go:386-457 | whole segments with last at most the bound go; the current file is scanned before its buffer is flushed and replaced by the re-encoded survivors |
| Wal.WAL.SetReplayStart | internal/wal/wal.go:334-351 | the watermark never goes back and is persisted on every call |
| Wal.WAL.Replay | internal/wal/wal.go:271-295 | segments in index order, skipped by their last, scanned from their files |
| WalProperties.ReplayIsFilter | internal/wal/wal.go:271-295 | `Replay(from)` is the filter of everything decodable on disk to sequence numbers at least `from`: skipping segments skips nothing |
| WalProperties.CrashAnywhere | internal/wal/wal.go:297-322 | cutting any file, well formed or not, at any byte leaves a prefix of its records |
| WalProperties.TruncateBeforeKeepsReplay | internal/wal/wal.go:247-268 | `TruncateBefore(low)` leaves every replay from `low` on unchanged |
| WalProperties.TruncateToKeepsReplay | internal/wal/wal.go:386-457 | `TruncateTo(upTo)` leaves every replay from above `upTo` unchanged if and only if every record it rewrites is newline-clean |
| LogFates.TruncateToSyncIff | internal/wal/wal.go:386-457 | on any log of a lifetime: every replay from above the bound finds after `TruncateTo` what it finds after syncing first, if and only if every record there is on disk already and none in the rewritten file is lost to the line framing |
| LogFates.TruncateToLeaves | internal/wal/wal.go:386-457 | record by record: above its bound `TruncateTo` leaves exactly what was on disk, except the unclean records of the file it rewrites |
| LogFates.TruncateToDrops | internal/wal/wal.go:386-457 | exactly the segments with something above the bound are left, as they were, and nothing at or below it in the newest; with none, one empty segment |
| LogFates.TruncateBeforeDrops | internal/wal/wal.go:247-268 | exactly the segments with something at or above the bound are left, as they were; with none, one empty segment |
| WalRuns.TruncateToUnsynced | internal/wal/wal.go:386-457 | the same for a current segment of encoded records that is kept, counted out: no clean record above the bound may reach beyond the whole records its file shows |
| WalRuns.TruncateToNeedsSync | internal/wal/wal.go:408-444 | on clean records that is: at most the final newline is still in the buffer |
| WalRuns.TruncateToLosesUnsynced | internal/wal/wal.go:408-444 | the failing input: two samples appended to a fresh log and not synced, of which `TruncateTo(0)` throws a clean second one away |
| WalRuns.AppendWrites | internal/wal/wal.go:169-185 | an append adds exactly its record to the log if that is newline-clean and nothing otherwise, across rotation |
| WalRuns.AppendPlaces | internal/wal/wal.go:169-185 | at every moment of a lifetime: an append goes behind the bytes of the current segment as long as those are fewer than maxSize, and otherwise into a new one, after everything in the full one reached its file |
| WalRuns.SmallestNumber | internal/wal/wal.go:111-149 | the smallest number of a segment: that of the records found on opening, lowered by writes, where 0 counts as none |
| WalRuns.OpenedPlaces | internal/wal/wal.go:111-149 | the same on whatever bytes a restart finds in the newest file |
| WalRuns.SyncedIsDurable | internal/wal/wal.go:238-242 | after `Sync` the files hold everything written |
| WalRuns.CrashLeavesPrefix | internal/wal/wal.go:215-236 | at any moment what is on disk is a prefix of what was written, over all segments |
| WalRuns.ReplayAscends | internal/wal/wal.go:271-295 | replay visits records in strictly ascending sequence order |
| WalRuns.StepKeeps | internal/wal/wal.go:169-202 | every operation keeps the log invariant (framing, ascending numbers below `nextSeq`, only the current segment buffers) and moves neither `nextSeq` nor the watermark back |
| WalRuns.RunKeeps | internal/wal/wal.go:151-202 | the same over every run, with ascending replays and the crash prefix at its end |
| WalRuns.FreshLog | internal/wal/wal.go:52-61 | a log opened on an empty directory satisfies the invariant |
| TimeSearch.LowerBound | internal/storage/block.go:134-145 | binary search finds the first point at or after the timestamp |
| TimeSearch.Slice | internal/storage/block.go:102-111 | whenever the two searches do not cross, they cut out exactly the points in [start, end) |
| TimeSearch.InvertedRange | internal/memtable/memtable.go:44-54 | the cut bounds are in order, and the slice does not panic, if and only if start is at most end or no point lies between them |
| Memtable.UpsertIsUpdate | internal/memtable/memtable.go:96-116 | search and shifted insert are a map update from timestamp to value |
| Memtable.WritesRefineMap | internal/memtable/memtable.go:96-116 | after any writes each series is, as a map, the last value written per timestamp, in strictly ascending order, with exact bounds and count |
| Memtable.AsMapInjective | internal/memtable/memtable.go:96-116 | the sorted list is determined by that map |
| Memtable.SameTableIff | internal/memtable/memtable.go:96-116 | two lists of writes leave the same memtable if and only if they are equally many and agree, series by series, on the last value per timestamp |
| Memtable.WriteKeepsInvariant | internal/memtable/memtable.go:96-116 | a write keeps series sorted and minTS and maxTS exact |
| Memtable.MemTable.Write | internal/memtable/memtable.go:96-116 | the in-place insert is `MemWrite` on the table's value |
| Memtable.MemTable.Flush | internal/memtable/memtable.go:128-135 | the old snapshot is handed out and an empty one takes its place |
| Memtable.MemTable.Read | internal/memtable/memtable.go:146-150 | one series' points in the range, upright or empty; the pin is released |
| Memtable.Snapshot.Range | internal/memtable/memtable.go:44-54 | exactly the series' points in [start, end), for every range on which the source does not panic |
| Memtable.FlushedStaysFixed | internal/memtable/memtable.go:126-135 | a flushed snapshot is unchanged by every later write |
| Memtable.PinnedMoves | internal/memtable/memtable.go:117-123 | a snapshot from `Latest` is the live one: a later write shows in it |
| Sharding.Manager.New | internal/shard/shard.go:85-102 | an error exactly for a width that is not positive, otherwise one active shard whose window is the aligned clock time |
| Sharding.NewShardsCoversNow | internal/shard/shard.go:85-106 | that window contains the clock time if and only if it is non-negative or already aligned: Go's remainder truncates |
| Sharding.NewShardsInvariant | internal/shard/shard.go:85-106 | a new manager satisfies the invariant if and only if the clock does not read a whole window before time zero |
| Sharding.Manager.Route | internal/shard/shard.go:115-141 | refuses exactly before the newest start, otherwise returns the newest shard, sealing everything that ended and opening an aligned window if needed |
| Sharding.RouteContains | internal/shard/shard.go:115-141 | a timestamp is routable if and only if the shard `Route` ends up with contains it, and routing keeps the invariant |
| Sharding.RouteCoversIff | internal/shard/shard.go:104-141 | for any manager, the window a rotating route opens contains the timestamp if and only if it is non-negative or on the grid |
| Sharding.Manager.ForceRotate | internal/shard/rotation.go:7-22 | the newest shard is sealed, and the window opened begins where it ended |
| Sharding.RotateRefusesInFlight | internal/shard/rotation.go:3-22 | after it, timestamps of the window just closed are refused although a shard still covers them |
| Sharding.RotateAdjoins | internal/shard/rotation.go:7-22 | after it exactly the timestamps from the end of the closed window on are taken, by a shard that covers them: no window is skipped |
| Sharding.NextWindowSeals | internal/shard/shard.go:125-140 | opening a window, by a route or by force, seals the shard that was newest and touches no older one |
| Sharding.Manager.ArchiveOlderThan | internal/shard/shard.go:173-184 | exactly the sealed shards that ended by then become archived, and their number is returned |
| Sharding.Manager.ShardsCovering | internal/shard/shard.go:160-170 | exactly the shards whose window overlaps the range, oldest first |
| Sharding.CoversIff | internal/shard/shard.go:160-170 | a shard overlaps a range if and only if some timestamp lies in both |
| Sharding.ReachableShards | internal/shard/shard.go:85-184 | over every run: windows aligned, equally wide, disjoint and ascending, ids consecutive, only the newest active, and the newest start never moves back |
| Storage.Store.Create | internal/storage/store.go:23-31 | a fresh id, an immutable block without readers |
| Storage.Store.Open | internal/storage/store.go:34-47 | nothing for an unknown id, an error for an archived block, otherwise one more reference |
| Storage.Store.Close | internal/storage/store.go:50-52 | the block has one reference less, never below zero, and the store is otherwise as it was, whether or not the block is still filed |
| Storage.Store.MarkArchived | internal/storage/store.go:55-61 | only the archived flag of that block |
| Storage.Store.Reclaim | internal/storage/store.go:65-77 | removes exactly the archived blocks without readers and counts them |
| Storage.ReclaimTakes | internal/storage/store.go:65-77 | every archived block without readers is taken and no other, and the count is exact |
| Storage.RunsReclaim | internal/storage/store.go:65-77 | over every interleaving: what is archived and still stored after a reclaim has an open handle |
| Storage.Block.Range | internal/storage/block.go:96-111 | exactly the series' points in [start, end), for every range on which the source does not panic |
| Storage.RunsAreSafe | internal/storage/store.go:23-77 | over every interleaving of any clients that close each handle once: refs is the number of open handles, held blocks stay, archived blocks gain no references, removed ids never return, ids handed out are held or removed |
| Storage.ActMonotone | internal/storage/block.go:42-92 | one step removes a block only by reclaim, and then it was archived and unheld |
| Aggregation.FoldIsGrouping | internal/query/query.go:99-142 | on time-sorted input the one-pass accumulation is group-by-window: ascending starts, each with the exact sum, minimum, maximum and count of all points of its window |
| Aggregation.CountsAddUp | internal/query/query.go:112-128 | the counts add up to the number of points |
| Aggregation.FoldDependsOnMultiset | internal/query/query.go:71-77 | the windows depend on the multiset of points only |
| Downsample.AggregateWindow | internal/compact/downsample.go:89-119 | the loop with its last accumulator updated in place computes the per-window averages |
| Downsample.CompactedAggregates | internal/compact/downsample.go:89-119 | at any step that is a multiple of the window, compacted points give the same windows, minimum no lower, maximum no higher, average inside the raw bounds, count no larger |
| Downsample.CompactedAverages | internal/compact/downsample.go:89-119 | at exactly the window the averages are equal |
| Downsample.CompactIdempotent | internal/compact/downsample.go:89-119 | downsampling twice is downsampling once |
| Downsample.CompactOfRangeIff | internal/compact/downsample.go:103-113 | reading compacted points is compacting what is read, over every aligned range, if and only if no negative timestamp lies off the window grid |
| Downsample.CompactedQuery | internal/query/query.go:99-142 | over every aligned range and every step that is a multiple of the window, a query of compacted points reports the same windows within the raw bounds, and equal averages at exactly the window, if and only if no negative timestamp lies off the window grid |
| Labels.LabelsKey | internal/model/model.go:25-40 | whatever order the map yields its keys in, the one canonical key results |
| Labels.KeyUnique | internal/model/model.go:25-40 | two sorted renderings of the same name and labels are the same key |
| Labels.FirstDifference | internal/model/model.go:25-40 | the order the keys are sorted in: the first differing character decides, and a proper prefix comes first |
| Labels.ParseInverts | internal/model/model.go:25-40 | a parser gets name and labels back from the key |
| Labels.KeyInjectiveIff | internal/series/labels.go:12-44 | on sanitized series with values over any alphabet, keys are injective if and only if the alphabet lacks NUL, '=' or every label-key character |
| Labels.Cancel | internal/model/model.go:25-40 | from a rendering the text before it and every label can be read back, as long as no value could be taken for another label |
| Labels.NulCollides | internal/model/model.go:25-40 | for every label-key character, two different label sets that pass the guards and share a key |
| Labels.ValidName | internal/series/labels.go:12-25 | accepts exactly the names of the allowed characters |
| Labels.ValidLabelKey | internal/series/labels.go:30-40 | accepts exactly the non-empty keys of at most 64 letters, digits, dots and underscores |
| Labels.SanitizeLabels | internal/series/labels.go:28-44 | fails exactly on a bad key, otherwise trims every value |
| Labels.TrimsBothEnds | internal/series/labels.go:41-41 | trimming takes away all white space at both ends and nothing else |
| Labels.SpacesAre | internal/series/labels.go:41-41 | the 25 characters that count as white space |
| SeriesIndex.Index.Register | internal/series/index.go:39-50 | the flat map gains the key with the next id unless it is there; the result is what a lookup then finds |
| SeriesIndex.Index.Lookup | internal/series/index.go:53-62 | the bucketed lookup is the flat map's |
| SeriesIndex.Index.Len | internal/series/index.go:65-74 | adding up the buckets gives the flat map's size |
| SeriesIndex.Index.Expand | internal/series/index.go:78-97 | refuses a table that is not larger, and changes no lookup otherwise |
| SeriesIndex.Index.MetaByID | internal/series/index.go:108-119 | finds a series for exactly the ids 1..nextID-1, the one registered under that id |
| SeriesIndex.RunsKeepIndex | internal/series/index.go:33-97 | over every run ids are unique and exactly 1..nextID-1, and a series keeps its id |
| SeriesIndex.SameIdSameSeries | internal/series/index.go:39-62 | unambiguous series share an id if and only if they are the same series |
| SeriesIndex.RestartKeepsIds | internal/series/index.go:22-50 | registrations in a new process give every series its former id if and only if their distinct keys, in order of first registration, are a prefix of the former ones |
| SeriesIndex.RestartMixesNothing | internal/series/index.go:22-50 | no id means one series before a restart and another after it if and only if one of the two key lists is a prefix of the other |
| SeriesIndex.RestartRenumbers | internal/series/index.go:22-50 | the failing input: any two series registered in the other order swap ids |
| EngineState.FlushIsPlain | internal/ingest/ingest.go:134-195 | when every buffered point lies below the newest end, a flush never rotates, forms at most one group, never fails to route, and stores exactly the points at or after the newest start, in any map order |
| EngineFlush.FlushSucceedsIff | internal/ingest/ingest.go:134-195 | a flush of any memtable succeeds in every map order if and only if the buffered points at or after the newest start lie in one window |
| EngineFlush.FlushOrderIff | internal/ingest/ingest.go:134-195 | in one given map order it succeeds if and only if the first such point walked lies in the latest of their windows, and then it stores exactly that window's points and silently drops the earlier ones |
| EngineFlush.FlushOneWindow | internal/ingest/ingest.go:134-195 | then it leaves, in every order, exactly those points in one block of the shard that covers them |
| EngineFlush.FailedFlush | internal/ingest/ingest.go:134-163 | a failed flush has emptied the memtable and created one block that no shard lists |
| EngineSteps.AppendKeeps | internal/ingest/ingest.go:111-118 | accepting or refusing a point keeps the engine invariant, in which every buffered point lies below the newest end |
| EngineSteps.FlushKeeps | internal/ingest/ingest.go:134-163 | so does a flush, which then is the plain one and succeeds |
| EngineSteps.CompactedBounds | internal/compact/downsample.go:43-61 | the replacement's bounds are the source's, each rounded down by less than one step |
| EngineSteps.CompactKeeps | internal/compact/downsample.go:30-85 | a compaction keeps the invariant, whatever its outcome, if and only if it is refused or its first downsampled timestamp is not before the newest start |
| EngineSteps.SweepKeeps | internal/retention/retention.go:29-53 | a sweep keeps the invariant, in which an archived shard lists no block that can be opened |
| EngineSteps.SweepArchivesOld | internal/retention/retention.go:35-47 | a sweep newly archives exactly the openable blocks whose points are all at or before the cutoff |
| EngineSteps.SweepTakes | internal/retention/retention.go:35-48 | a sweep removes exactly the blocks without readers that were archived before or are wholly at or before the cutoff |
| EngineSteps.SweepArchivesShards | internal/retention/retention.go:49-49 | a sweep archives exactly the shards ended by its cutoff, except the newest, and changes nothing else about the shards |
| EngineQueries.PruningIsComplete | internal/shard/shard.go:160-170 | pruning by shard window loses no point |
| EngineQueries.QueriesAreComplete | internal/query/query.go:57-70 | a query collects the in-range points of the memtable and of every openable listed block, each block once |
| EngineAnswers.AppendAnswers | internal/ingest/ingest.go:109-118 | an accepted sample joins exactly the answers it belongs to, in place of the buffered sample it overwrites; a refused one changes no answer |
| EngineAnswers.RotateAnswers | internal/shard/rotation.go:7-22 | a forced rotation changes no answer |
| EngineQueries.FlushKeepsAnswers | internal/ingest/ingest.go:134-163 | a flush changes no answer if and only if nothing is buffered or the smallest buffered timestamp is at or after the newest start |
| EngineQueries.SweepKeepsRecent | internal/retention/retention.go:29-53 | a sweep changes no answer about time after its cutoff |
| EngineRuns.NextKeeps | internal/ingest/ingest.go:96-163 | every call of the engine keeps the invariant, except a compaction whose output starts before the shard that is to list it, which does not |
| EngineRuns.RunsAnswerCompletely | internal/query/query.go:57-78 | over every run of Append, Flush, ForceRotate, Compact and Sweep in which no compaction has done that, as none does with a step dividing the shard width, every query is complete and counts no block twice |
| Completeness.CompleteIff | internal/compact/downsample.go:30-85 | queries are complete at every moment of every run of a new engine if and only if the downsample step divides the shard width and the clock does not start a whole window before time zero, or the step is a single nanosecond |
| Completeness.MissingRun | internal/compact/downsample.go:30-85 | the failing input: a sample routed to a window its own downsampled timestamp lies outside of, appended, flushed and compacted, is missing from a later answer |
| FlushLoss.NoRotationNoLoss | internal/ingest/ingest.go:111-163 | over every run, at any clock time and with any downsample step: a flush changes no answer if the newest window still starts where it did after some earlier flush, however long ago |
| FlushLoss.NextFlows | internal/ingest/ingest.go:96-163 | what these runs keep at every call: every buffered point below the newest end, the newest window never back, and nothing falling behind it while it stays |
| EngineRuns.CompactOutcomes | internal/compact/downsample.go:30-85 | success exactly when the source starts in the newest window; then the replacement is openable and listed in the only shard that can have listed the source; on refusal the source keeps its points and can be opened but is no longer immutable, so `CompactAll` passes it over, and the replacement stays behind, openable, immutable and listed nowhere |
| EngineRuns.CompactEmptySource | internal/compact/downsample.go:62-68 | a source without points is archived and nothing replaces it |
| EngineRuns.CompactMissing | internal/compact/downsample.go:33-36 | a block that is gone yields nothing, an archived one an error, and neither changes anything |
| EngineRuns.CompactReclaims | internal/compact/downsample.go:64-81 | a successful compaction leaves no archived block without readers in the store, except its own source |
| EngineRuns.SourceSurvivesReclaim | internal/compact/downsample.go:79-80 | the compactor's own reclaim never takes its source |
| EngineRuns.EarlyExpiryBounded | internal/compact/downsample.go:53-61 | a replacement expires earlier than its source by less than one step and never later |
| EngineAnswers.CompactSwapsAnswers | internal/compact/downsample.go:30-85 | a compaction exchanges, in every answer, exactly the source's in-range points for the downsampled ones; a refused one changes no answer |
| AnswerHistory.AnswersAreHistory | internal/query/query.go:50-78 | over every run of appends, flushes and rotations an answer holds every point as often as there are flush periods in which it was the last sample accepted at its timestamp and not left behind by a rotation, and once more if it is the last one now |
| AnswerHistory.RewrittenShowsTwice | internal/query/query.go:50-78 | the consequence: a timestamp written again after a flush is answered twice |
| Compaction.Compactor.DownsampleTable | internal/compact/downsample.go:40-61 | the loop over every series, in any order, yields the compacted table and its exact bounds |
| Compaction.Compactor.Compact | internal/compact/downsample.go:30-85 | new state and result are `CompactCore` of the old state, on every path and whatever the memtable holds |
| Compaction.Compactor.CompactAll | internal/compact/downsample.go:122-141 | visits each listed block once, compacts those immutable at their turn, stops at the first error, and visits all if there is none |
| CompactPasses.PassOutcome | internal/compact/downsample.go:122-141 | a pass over any blocks in any order fails if and only if one of them is immutable, open and starts before the newest window, and then it has left one more such block |
| CompactPasses.PassFailsIff | internal/compact/downsample.go:122-141 | so a whole pass fails if and only if there is such a block |
| CompactPasses.PassCounts | internal/compact/downsample.go:122-141 | a pass counts exactly the blocks it compacted: those that could be opened before and cannot now |
| CompactPasses.PassesKeepFailing | internal/compact/downsample.go:122-141 | over every run with any downsample step, once a pass fails every later pass in every order does, as long as there is no sweep |
| Retaining.Retention.Sweep | internal/retention/retention.go:29-53 | new state is `SweepCore`; scanned and removed are the exact counts |
| Querying.SortPoints | internal/query/query.go:71-76 | sorted by timestamp then series, and a permutation |
| Querying.Accumulate | internal/query/query.go:112-128 | the loop over mutable accumulators is the fold |
| Querying.FoldAnswers | internal/query/query.go:99-142 | the samples of the fold answer the query: one per non-empty window in order, with the exact aggregate and count of its points |
| Querying.Aggregate | internal/query/query.go:99-142 | computes those samples |
| Querying.Engine.Collect | internal/query/query.go:57-78 | a sorted list of exactly the collected multiset, and no state changed, for every range on which no read panics |
| Querying.InvariantIsSearchable | internal/query/query.go:57-78 | every state under the engine invariant is one that queries may be put to |
| Querying.Engine.QueryRange | internal/query/query.go:50-55 | the answer is exact for the points collected, under the invariant all in-range points of the memtable and every openable listed block, and no state changed, for every range on which no read panics |
| Querying.AnswerDependsOnPoints | internal/query/query.go:71-142 | however the points are spread over memtable and blocks and however ties are sorted, the answer is the same |
| Ingesting.GroupByShard | internal/ingest/ingest.go:167-195 | in any map order, the shards and groups of routing every point in turn, refused points dropped |
| Ingesting.GroupMinMax | internal/ingest/ingest.go:197-212 | the least and greatest timestamp of a group |
| Ingesting.StoreAllGroups | internal/ingest/ingest.go:144-156 | each group becomes a block listed where its smallest timestamp routes, up to the first error |
| Ingesting.Ingest.SeriesOf | internal/ingest/ingest.go:74-92 | a bad name or key changes nothing, otherwise the trimmed series is found or registered |
| Ingesting.SameSeries | internal/ingest/ingest.go:74-92 | two samples reach the same series if and only if names and trimmed labels agree, whatever else was registered, as long as no value could be taken for another label |
| Ingesting.Ingest.FlushLocked | internal/ingest/ingest.go:134-163 | new state is `FlushLockedSys`: the watermark moves and the log is truncated only if every group was stored |
| Ingesting.Ingest.Flush | internal/ingest/ingest.go:124-132 | flushes up to the last number handed out |
| Ingesting.Ingest.LogSample | internal/ingest/ingest.go:103-108 | the first step of an append, outside the lock: only the log changes, and the number handed out is returned |
| Ingesting.Ingest.Finish | internal/ingest/ingest.go:109-122 | the second step, under the lock, from whatever state the calls in between left: `FinishSys`, with the number of the first step; accepted without a flush, it adds exactly its sample |
| IngestState.FinishAdds | internal/ingest/ingest.go:108-119 | a refused second step changes nothing and says so; accepted and below the threshold: the sample is in the memtable under its own series, timestamp and value, every other value is as it was, and the log is untouched |
| IngestState.FinishFlushes | internal/ingest/ingest.go:114-118 | accepted and at the threshold: the memtable is emptied, and if that worked the watermark is past the number of the first step |
| Ingesting.Ingest.Append | internal/ingest/ingest.go:96-122 | the two steps with nothing in between: logged before it is routed, written only if routed, flushed when full; accepted without a flush, the sample is in the memtable under its own series, timestamp and value |
| Ingesting.Ingest.Recover | internal/ingest/ingest.go:247-259 | replays from the watermark into the memtable without routing, then flushes |
| IngestState.ReplayBuffers | internal/ingest/ingest.go:247-256 | replaying records leaves every series with what it held, overwritten by the last value logged at each timestamp |
| Recovery.AppendRecoverable | internal/ingest/ingest.go:96-118 | an append keeps log and memtable in step: the memtable has the accepted samples, the log the clean ones |
| Recovery.FlushRecoverable | internal/ingest/ingest.go:134-163 | a flush of a non-empty memtable succeeds, empties the log and puts the watermark at the next number |
| Recovery.ReopenKeeps | internal/wal/wal.go:73-109 | reopening a synced log keeps its records and watermark, and numbering may fall back |
| Recovery.RecoveredIs | internal/wal/wal.go:379-381 | reopening and replaying a synced log gives exactly the clean samples logged since the memtable was last emptied |
| Recovery.CrashRecoversPrefix | internal/wal/wal.go:215-236 | after a crash at any moment a prefix of them comes back |
| Recovery.RecoveryExact | internal/ingest/ingest.go:104-118 | recovery is exact if and only if the clean samples and the accepted ones end in the same last values and are equally many; with all accepted, if and only if all are newline-clean; with all clean, if and only if none was refused |
| Recovery.RunRecoverable | internal/ingest/ingest.go:96-163 | over every run of the write path, mixed with any other calls, at any clock time and with any downsample step, log and memtable stay in step |
| Recovery.RunRecovers | internal/ingest/ingest.go:247-259 | over every run of a new engine, at every synced moment, the same three equivalences for the samples since the last flush, whatever was logged before |
| Recovery.LowByteUnclean | internal/wal/wal.go:204-213 | a record whose number has the low byte 10 is never newline-clean |
| Recovery.HighChecksumByteUnclean | internal/wal/wal.go:297-322 | nor is one whose checksum has the high byte 13 |
| Recovery.LowByteNotRecovered | internal/wal/wal.go:204-213 | the failing inputs: accepted samples are not recovered exactly once number 10, or any 256 of them, are unflushed |
| Lifetimes.RestartWatermark | internal/wal/wal.go:97-107 | after a restart the watermark is within the numbering if and only if it is at most 1 or the disk shows a record at or after the one before it |
| Lifetimes.NextSampleRecovered | internal/wal/wal.go:97-107 | a sample appended and synced on an empty tail survives a restart if and only if the watermark was not above the numbering |
| Lifetimes.LifetimeReplays | internal/wal/wal.go:97-107 | over a whole lifetime after a restart, in every interleaving: of the records logged exactly the clean ones numbered from the old watermark on, and spared by every flush, are replayed |
| Lifetimes.FlushThenRestartLosesNext | internal/ingest/ingest.go:124-163 | two samples, a flush and a restart suffice: the next synced sample is lost |
| Interleaving.StepsSettle | internal/ingest/ingest.go:134-163 | the stages of a flush, storing, raising the watermark and cutting the log, one after the other are `FlushLocked`, whatever the outcome of the first |
| Interleaving.Uninterrupted | internal/ingest/ingest.go:96-163 | the atomic steps one after the other are the second step of `Append`, and `Flush` |
| Interleaving.StepHolds | internal/ingest/ingest.go:103-162 | what each atomic step, a log record, a second step, the stages of a flush, a sync or any other call, does to one record in the log |
| Interleaving.SampleReplayedIff | internal/ingest/ingest.go:103-162 | over every interleaving of these steps, with any number of appends under way and the run broken off anywhere: a record is replayed after a sync and a restart if and only if it is newline-clean, not numbered below the first watermark, and every later flush had a bound below its number and found it on disk when it cut the log; after a crash it must be on disk then, too |
| Interleaving.AtomicRecoveryExact | internal/ingest/ingest.go:103-162 | over every such interleaving recovery is exact if and only if the clean records still to be replayed, in number order, and the samples written since the memtable was last emptied, in the order of the second steps, are equally many and end in the same last values |
| Interleaving.NewTracked | internal/wal/wal.go:52-61 | an engine on an empty directory, with no append under way, is where such a run can start |
| Interleaving.OverlappingFlush | internal/ingest/ingest.go:109-122 | a flush that an older append triggers: a newer clean record is replayed exactly if it was on disk, even when its sample was in the memtable just flushed |
| Interleaving.InterleavedFlush | internal/ingest/ingest.go:103-132 | with one flush in between, exact if and only if that flush finds nothing buffered |
| Lifetimes.RestartRecoverable | internal/ingest/ingest.go:247-259 | with the watermark within the numbering, replaying puts a new process in step with its log again |
| Lifetimes.RecoverSucceedsIff | internal/ingest/ingest.go:247-259 | `Recover` after a crash at any moment that left something to replay succeeds in every map order if and only if the replayed samples at or after the new window's start lie in one window |
| Lifetimes.RecoverStores | internal/ingest/ingest.go:247-259 | then exactly those samples reach a block, the rest are gone from memtable, store and log, and the process is in step with its log |
| Lifetimes.RecoverFails | internal/ingest/ingest.go:144-156 | otherwise the memtable has been emptied, the one block created is listed nowhere, and only the log still holds the samples |
| TornLog.AppendsAfterCrash | internal/wal/wal.go:111-185 | appends after a crash that may have torn the newest file: everything in whole lines stays, tear and first record together yield at most one record, and of all later appends exactly the clean ones are found; none is an exception if the file was not torn or is full |
| TornLog.LifeAfterCrash | internal/wal/wal.go:111-185 | the same for the log that a crash at any moment of a run leaves, whose whole lines are a prefix of what was written |
| TornLog.UnsyncedLost | internal/wal/wal.go:215-236 | appends to a fresh log that are never synced: a crash loses all of them if and only if they fit the 64 KiB buffer, and otherwise leaves whole buffers |

## Left out

- Files, fsync, rename and I/O errors: a file is a byte sequence, the checkpoint is one value replaced atomically, and no operation fails on I/O.
- The internals of CRC-32C and xxhash: any function to 32 bits, any function to natural numbers.
- The scanner's 1 MiB line limit, which the well-formed lines of at most 36 bytes never reach.
- Directory listing: segments are loaded by index, which agrees with sorted file names below a million segments.
- Floating point: rounding, NaN and infinities; aggregation is over reals.
- Integer wrap-around of block, shard and series ids and of timestamps near the 64-bit limits in window arithmetic; the log's own 64-bit arithmetic is modelled, and runs are taken short of 2^64 records.
- Mutexes and data races: each locked method is one atomic step; `Append` and `Flush` are the several steps of `interleaving.dfy`, in which the shards may change between steps but not within the stage of a flush that stores the memtable.
- Backpressure slots, metrics, `Stats` and the plain getters, `Active`, `shardID`, `Close` of the log.
- `AppendBatch`, `QueryMulti`, `AggDelta`, `SeriesID`, `Eligible` and `Next`, which only repeat or wrap what is modelled.
- The HTTP server, flags, tickers, self-check and console.
- Strings are sequences of characters; UTF-8 encoding and Unicode normalisation are not part of this model.
- The sort of the standard library: `Querying.SortPoints` is an insertion sort, and nothing depends on how ties fall.
- Durability of blocks across restarts: the code has none, so a restart begins with an empty store.
- Querying.Engine.QueryRange: does not model the panic on a range with its end before its start and a point in between, beyond saying exactly when a slice panics (`TimeSearch.InvertedRange`).
