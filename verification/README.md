# ChronoStore storage core, verified

A Dafny model of ChronoStore's storage core: an LSM-style engine for time series with crash recovery, its streaming
write-ahead-log replay, indexed segment files, manifest and byte codecs with CRC32C. The specification of the whole is
one map from series and timestamp to value, in which the last write wins.

`dafny verify dfyconfig.toml` checks everything; no proof needs automatic induction (`--manual-lemma-induction`). The
files form a tower, each layer proved against the one below:

- **Values.** `Model` (tags, series keys, samples and the orders of C++'s defaulted comparisons), `Orders`. Strings are
  byte sequences compared as unsigned bytes; a double is its 64-bit pattern, finite unless the exponent field is all
  ones (section 3.4 of IEEE 754-2019).
- **Bytes.** `Words` and `Crc32c` (the bitwise checksum as a shift register, and what it detects), `CrcRemainder` (that
  this is the polynomial remainder of section 12.1 of RFC 3720), `Sealing` (bytes followed by their checksum),
  `ByteCodec`, `KeyCodec`.
- **Log.** `WalRecord` and `WalRecovery`. `ParseWal` parses a whole file; `ReplayWal` is the chunked loop.
- **Segments.** `SegmentBlocks`, `SegmentFormat`, `SegmentFile` (writer), `SegmentReader` (opening and sparse-index
  search), `SegmentOrder`, `Contents` (what a set of samples means and what each query must answer).
- **Layout.** `FormatTables` states the tables of the format document as facts about single bytes, with every magic,
  offset, width and limit a literal, and each decoder's answer to any bytes.
- **Tables.** `MemTable`, `Chunking`, `Flushable` (exactly which tables fit the file limits), `Manifest`,
  `SegmentNames`, `Overlay` and `OverlayAnswers` (stacked layers as one map).
- **Protocol.** `Disk` is the durable state and what a power failure may do to it. `Protocol` is the engine as a machine
  whose steps are its durable actions: put, sync, flush, compact, recover, the death of the process and the loss of
  power between any two of them. Every opening chooses its durability mode anew. `DurableLog`, `ProtocolInvariant` and
  `ProtocolSteps` show that every step of the machine is a step of an abstract log of puts. `CrashSafety` and
  `Reachable` draw the conclusions for whole runs.
- **Limits of the guarantees.** `BufferedOrder` and `WriteOrder` (when buffered puts come back in order), `FlushRefusal`
  (when a table can be flushed), `DirectorySync` and `DirectoryRuns` (what a directory that is not synced costs).
- **Engine.** `WalFile` (system calls that may fail, write short or be interrupted, and the `WalWriter`), `EngineSteps`,
  `StorageEngine` and `Recovery`: the classes whose methods are the repository's. A volume records, as ghost state, the
  run of the machine that led to its contents; each method is proved to extend that run by its own steps. So the
  theorems about runs hold of the methods. The invariants of reachable states show that no consistency check in recovery
  or compaction can fire: a volume counts its failed system calls, and each method fails exactly when that count goes
  up or a size limit is reached. Removals are best effort; the volume lists those that were refused, so contracts can
  say that every other stale or replaced file is gone. It also knows which files hold bytes that were not synced.

The crash theorem is stated over real log bytes: a torn append is a byte prefix of an encoded record, and what a
recovery reads is what `ParseWal` makes of the bytes that are left.

Three claims that one might expect are false of the code. Each has a concrete run and its exact condition:

- With buffered appends, the survivors of a power failure need not be an earlier state of the database, because `flush`
  publishes its manifest without first syncing the log (`BufferedLosesOrder`). They are one exactly if, among the
  unsynced records, no rewrite of a point that is kept comes before a put to a point that is not, wherever the log is
  cut (`OrderKeptIff`, `FlushKeepsOrderIff`; the converse if repeated puts to a point differ in value). Writing each
  point once is enough, and so is syncing before every flush. Point by point the bound always holds
  (`RegressionIsBounded`).
- Puts that the log accepts may make their table impossible to flush (`TwoPutsRefuseFlush`), for good
  (`RefusedForGood`). `FlushPossibleIff` says exactly when a flush is possible.
- Creating the log file does not sync its directory, and the directory sync after a rename may fail when the rename has
  happened. Where renames and new files are safe only with their directory, a synced put can vanish with its log file
  (`SyncedPutMayVanish`), and a compaction whose directory sync fails can take everything along (`CompactionLost`).
  `StrictSurvive` and `KeptIff` say exactly when a power failure is harmless there. Everything else takes the log file
  to be safe once it exists and a manifest once it is renamed.

## Model

| member | source | states |
|---|---|---|
| `CrashSafety.DurablePutsSurvive` | src/storage_engine.cpp:78-311 | After every run of puts, syncs, flushes, compactions and openings in either durability mode, stopped or cut off from power between any two durable steps any number of times, the database holds exactly the fold of a log that explains the run: every acknowledged put in order, but for buffered ones that a power failure caught before a sync, with some of the puts that were in flight at a stop, each at its place |
| `CrashSafety.NothingAcknowledgedIsLost` | src/storage_engine.cpp:153-182 | If no power failure found a buffered put unsynced, the acknowledged puts are a subsequence of the log that explains the run |
| `CrashSafety.ProcessDeathIsHarmless` | src/storage_engine.cpp:78-311 | Without a power failure no put is ever at risk, in either mode, however often the process dies |
| `CrashSafety.SynchronousIsSafe` | src/wal_file.cpp:205-211 | Nor is any put if every append is synchronous, however often power fails |
| `CrashSafety.FailureAnywhere` | src/storage_engine.cpp:78-311 | The same for a power failure at any moment of a run, so in the middle of any operation or recovery the engine has recorded |
| `CrashSafety.AcknowledgedStays` | src/storage_engine.cpp:153-170 | A log that explains the events gives an acknowledged put as the value of its point unless a later put, finished or in flight, went to the same point; for a buffered put, if no power failure followed |
| `CrashSafety.RegressionIsBounded` | src/storage_engine.cpp:172-235 | In either mode and for each point: a power failure leaves the value a query would have found at some moment since the last sync, a synchronous append included, or that of the put in flight; nothing synced is lost or taken back past the sync |
| `DirectorySync.StrictSurvive` | src/file_io.cpp:122-155 | If creating, renaming and removing files is safe only after a sync of the directory: the database still holds what DurablePutsSurvive says after every run whose power failures were harmless |
| `DirectorySync.KeptIff` | src/file_io.cpp:122-155 | After such a run the next power failure is explained whatever it leaves exactly if it is harmless: the log file is safe in its directory or holds no safe put, and no segment of the manifest that may come back has been removed |
| `DirectoryRuns.SyncedPutMayVanish` | src/storage_engine.cpp:126-130 | There the first put of a new database can be lost although it has been synced |
| `DirectoryRuns.CompactionLost` | src/storage_engine.cpp:91-108 | There any compaction whose directory sync fails can lose the database: the recovery that follows removes the segments that the manifest before still names |
| `DirectoryRuns.SomeCompactionLost` | src/storage_engine.cpp:237-311 | A run of two puts, each flushed and synced, and a compaction that may lose them |
| `WriteOrder.OrderSafeIff` | src/storage_engine.cpp:213-230 | Of one version of the log file: every cut of its unsynced records leaves contents the log passed through, exactly if no published rewrite of a kept point precedes a published put to a point not kept (only if: repeated puts to a point differ in value) |
| `WriteOrder.StateSafeIff` | src/storage_engine.cpp:213-230 | The same of a state of the engine in any phase, running or stopped, over every power failure that can happen in it, with the same condition on the only-if |
| `WriteOrder.OrderKeptIff` | src/storage_engine.cpp:213-230 | At any moment of any run: a power failure takes the whole database back to one moment since the last sync, a synchronous append included, or keeps everything with the put in flight, exactly if that state is safe (only if: repeated puts to a point differ in value) |
| `WriteOrder.FlushKeepsOrderIff` | src/storage_engine.cpp:213-226 | When a flush has published its manifest and no earlier cut of the log is unsynced: order is kept exactly if the log file before the flush was safe, which a caller can see from its records and its synced length (only if: repeated puts to a point differ in value) |
| `WriteOrder.WritingOnceKeepsOrder` | src/storage_engine.cpp:213-230 | If no point is written twice, every state is safe with nothing synced |
| `WriteOrder.SyncedFlushesKeepOrder` | src/storage_engine.cpp:213-230 | If every flush since the last sync, a synchronous append included, published a synced log, a power failure takes the whole database back to one moment since that sync |
| `WriteOrder.PublishedIsDurable` | src/storage_engine.cpp:213-230 | If every flush since the last sync published a synced log, no segment holds a put that is not durable in the log |
| `BufferedOrder.BufferedLosesOrder` | src/storage_engine.cpp:213-230 | A concrete run of three buffered puts, a flush and a power failure before the log is reset ends in contents the database never had |
| `CrashSafety.RunFollows` | src/storage_engine.cpp:78-311 | Every run of the engine is a run of the abstract log of puts, state by state |
| `CrashSafety.DroppableStep` | src/wal_file.cpp:193-236 | Whatever subset of the not yet durable puts is lost, the rest still explains the events; every step keeps this |
| `ProtocolSteps.StepKeeps` | src/storage_engine.cpp:78-311 | Each step of put, sync, flush, compact, recover, a halt or a power failure keeps the invariant and changes the log only as its observed event allows |
| `ProtocolSteps.KeepPutFinish` | src/storage_engine.cpp:153-170 | Finishing an append keeps memtable equal to log replay and the logical count exact, and adds exactly this put |
| `ProtocolSteps.KeepFlushCommit` | src/storage_engine.cpp:217-226 | The window with the manifest published and the log not yet reset: replaying the log over the new segment adds nothing, and the new manifest count is the number of distinct points |
| `ProtocolSteps.KeepFlushCut` | src/wal_file.cpp:227-230 | Cutting the log after publication loses nothing; until the sync, the uncut log may still come back and then adds nothing |
| `ProtocolSteps.KeepFlushFinish` | src/wal_file.cpp:230-235 | The sync after the cut makes everything durable and the memtable may be cleared |
| `ProtocolSteps.KeepCompactCommit` | src/storage_engine.cpp:287-302 | Switching the manifest to the merged segment keeps the contents, and none of the files to be removed is live |
| `ProtocolSteps.KeepCompactRemove` | src/storage_engine.cpp:303-306 | Removing replaced files, wholly or partly, touches nothing live |
| `ProtocolSteps.KeepHalt` | src/wal_file.cpp:77-109 | When the process dies in an append that has written any prefix, the put counts if and only if all of its bytes were written |
| `ProtocolSteps.KeepLosePower` | src/wal_recovery.cpp:109-175 | Whichever version of the log comes back, cut at any byte not before its last sync, and whatever becomes of files the manifest does not name, a recovery reads one of the permitted survivors |
| `ProtocolSteps.KeepTruncate` | src/wal_recovery.cpp:177-220 | Cutting off the incomplete tail loses no record, also when interrupted before its sync and the tail comes back |
| `ProtocolSteps.KeepFinish` | src/storage_engine.cpp:132-145 | Finishing a recovery restores the running invariant, including the exact count |
| `ProtocolSteps.ReplayCounts` | src/storage_engine.cpp:132-141 | Counting during replay only the points not yet present yields the number of distinct points of segments and log together |
| `ProtocolSteps.SegmentForHolds` | src/storage_engine.cpp:209-213 | The file written from a snapshot opens, reads back and holds exactly the points of the snapshot |
| `ProtocolSteps.FreshRelated` | src/manifest.cpp:212-217 | A directory without manifest and log is the empty database |
| `DurableLog.TracksCut` | src/storage_engine.cpp:225-230 | What survives when the log keeps only its first records: a prefix of the puts, then those published puts that the surviving records do not overlay |
| `DurableLog.TracksPublish` | src/storage_engine.cpp:219-226 | A segment that holds everything in the log may be put under the log without changing what both mean |
| `DurableLog.SurvivorPerPoint` | src/storage_engine.cpp:225-230 | Each point's surviving value is its value after some prefix that includes everything durable |
| `ProtocolInvariant.WalAppend` | src/wal_file.cpp:193-216 | Appending the encoded bytes to a clean log adds exactly that record to what it tracks |
| `ProtocolInvariant.VersionCut` | src/wal_recovery.cpp:109-175 | Over real bytes: any cut of any version of the log file at or after the synced length still tracks the segments below it |
| `ProtocolInvariant.PrefixOfReplayed` | src/wal_recovery.cpp:109-175 | Every byte prefix of a log that replays also replays, to a prefix of the records |
| `ProtocolInvariant.LiveNames` | src/storage_engine.cpp:188-197 | A live name is never a temporary and never the next name to be given out |
| `ReachableStates.QuiescentInvariant` | src/storage_engine.cpp:153-235 | In every reachable state: the stored manifest is the one in memory, its count is the number of points in the segments, the logical count is the number of points in segments and memtable; between operations the log is clean and the memtable is its replay |
| `ReachableStates.CompactionCheckPasses` | src/storage_engine.cpp:274-276 | The compacted count can never disagree with the manifest's |
| `ReachableStates.LiveFilesAreSafe` | src/storage_engine.cpp:91-108 | Every live file exists and bears a generation name up to the manifest generation; the next name is not live; nothing that cleanup or compaction removes is live |
| `ReachableStates.RecoveryNeverRefuses` | src/storage_engine.cpp:78-118 | On every reachable disk the manifest loads, each live file opens and reads back, the plausibility check on the count passes, and replay meets no corrupt record |
| `ReachableStates.ImplausibleIff` | src/storage_engine.cpp:114-118 | The plausibility check refuses exactly a count above the physical samples, and any count but zero without segments |
| `ReachableStates.RecoveryCompletes` | src/storage_engine.cpp:78-146 | From every reachable stopped state a recovery of at most three durable steps ends in a running engine that shows what the disk held |
| `ReachableStates.HousekeepingIsInvisible` | src/storage_engine.cpp:199-311 | No step of flush, compact or sync changes the map that queries are answered from |
| `ReachableStates.SyncedSurvives` | src/wal_file.cpp:218-225 | In every reachable state between operations, or stopped, with a log that is synced and no cut of it pending, a power failure takes nothing: whatever it leaves shows what was shown before |
| `Disk.SyncedBytesStay` | src/wal_file.cpp:218-225 | Such a log comes back byte for byte |
| `Disk.AppendMayTear` | src/wal_file.cpp:193-206 | The failure model is no weaker than it should be: an append that was not synced may be torn at any byte |
| `Disk.CutMayComeBack` | src/wal_file.cpp:227-236 | And a cut that was not synced may be undone, in whole or in part |
| `EngineSteps.QuietlyAcknowledgesNothing` | src/storage_engine.cpp:172-311 | What sync, flush, compact and opening record acknowledges no put, has none in flight and is no power failure |
| `StorageEngines.FindInSegments` | src/storage_engine.cpp:31-40 | Searching newest segment first answers as the overlay of all segments |
| `StorageEngines.StorageEngine.Get` | src/storage_engine.cpp:337-356 | The value the abstract map gives; no check inside can fail on a usable engine |
| `StorageEngines.StorageEngine.Latest` | src/storage_engine.cpp:313-335 | The greatest timestamp of the series in the abstract map with its value, ties going to the newer layer |
| `StorageEngines.StorageEngine.Range` | src/storage_engine.cpp:358-387 | Strictly increasing timestamps, exactly the samples of the abstract map from start to before end; refused if and only if end precedes start |
| `StorageEngines.StorageEngine.Series` | src/storage_engine.cpp:389-405 | Exactly the series of the abstract map, by measurement and then by tags, each compared byte by byte at the first difference |
| `StorageEngines.StorageEngine.SampleCount` | src/storage_engine.cpp:407-416 | The maintained count is the number of points of the abstract map |
| `StorageEngines.StorageEngine.Contains` | src/storage_engine.cpp:148-151 | Whether the abstract map has the point |
| `StorageEngines.StorageEngine.HoldsAcknowledgedPuts` | src/storage_engine.cpp:153-170 | In either mode, what a usable engine answers from is the fold of a log that explains everything observed since the database was created |
| `StorageEngines.StorageEngine.Put` | src/storage_engine.cpp:153-170 | Success updates exactly one point and is recorded as acknowledged; in synchronous mode a power failure right after takes nothing. It fails exactly if the record is too large or a system call fails, and then stops the engine, in the second case with this put in flight. No other file is touched |
| `StorageEngines.StorageEngine.Sync` | src/storage_engine.cpp:172-182 | Success makes the whole log durable, so that a power failure right after takes nothing, and changes nothing a query sees; it fails exactly if the system call does, and stops the engine. No other file is touched |
| `StorageEngines.StorageEngine.Flush` | src/storage_engine.cpp:199-235 | Success empties memtable and log into one new segment with the same points, leaves the abstract map and count as they were, and leaves nothing that a power failure could take; segment and manifest are written in full without temporaries. An empty memtable only syncs. Unless a system call fails it succeeds exactly if the table fits a segment and the manifest has room, with an error of its own for each refusal; any failure stops the engine in a state recovery accepts. Whatever happens, no file changes but the segment of the next name, the manifest, the log and temporaries |
| `StorageEngines.StorageEngine.Compact` | src/storage_engine.cpp:237-311 | Success leaves at most one segment, with the contents of all before, and the abstract map as it was; every replaced file is gone unless its removal was refused, segment and manifest are written in full, and every other file is as it was. One segment or none is left alone. It fails exactly if generations are exhausted, the merged table does not fit or a system call fails, and then removes nothing |
| `StorageEngines.StorageEngine.MergedSnapshots` | src/storage_engine.cpp:246-276 | Merging all blocks in order gives a sorted snapshot of exactly the segment contents, and the count check cannot fire |
| `StorageEngines.StorageEngine.NewSegment` | src/storage_engine.cpp:209-213 | The published file holds exactly the snapshot, opens, and bears the next name; a failure leaves at most its temporary or the whole file |
| `StorageEngines.StorageEngine.RemoveObsolete` | src/storage_engine.cpp:303-306 | Every obsolete file is gone unless its removal was refused, every other file is as it was, and the compaction ends |
| `OverlayAnswers.MergeSegments` | src/storage_engine.cpp:246-259 | The nested maps filled oldest to newest are the overlay of all segments |
| `OverlayAnswers.SnapshotTotalIs` | src/storage_engine.cpp:261-272 | The samples counted over the merged snapshots are the distinct points |
| `OverlayAnswers.LatestOverlay` | src/storage_engine.cpp:318-332 | Of two layers' latest samples the later one, the upper on a tie, is the latest of the overlay |
| `OverlayAnswers.RangeOverlay` | src/storage_engine.cpp:367-377 | Overwriting by timestamp gives the range of the overlay |
| `OverlayAnswers.IndexNamesSeries` | src/storage_engine.cpp:394-398 | The series named in an index are exactly those with samples in the segment |
| `Recovery.OpenDatabase` | src/storage_engine.cpp:64-76 | In either mode, whichever mode wrote the database: success is an engine that shows exactly what the disk held; it fails exactly if a system call does, and then leaves what the disk held. Either way only files named segment-*.tmp, or segment-*.cst and not live, are gone; after success all of them are gone that the system lets go. If the log found was missing or had an incomplete tail, success leaves a synced log and a power failure right after takes no replayed record |
| `Recovery.Recover` | src/storage_engine.cpp:78-146 | The rebuilt parts satisfy everything the machine requires of a finished recovery; the log keeps the replayed bytes, synced if anything was cut off or created; only stale files are gone. It fails exactly if a system call does, so no format, count or size check fires |
| `Recovery.LoadSegments` | src/storage_engine.cpp:78-118 | Manifest and live segments load and pass all checks, unless a system call fails; cleanup leaves every file that is not a stale one by its name, and after success no stale one whose removal was not refused |
| `Recovery.CleanUp` | src/storage_engine.cpp:95-112 | A file stays, byte for byte, if its name does not begin with segment- or ends in neither .cst nor .tmp, and if it is a live segment; when the listing is complete, every segment-*.tmp and every segment-*.cst that is not live is gone unless its removal was refused |
| `Recovery.Rebuild` | src/storage_engine.cpp:132-141 | The memtable is the fold of the replayed records and the count counts each new point once |
| `Recovery.RepairLog` | src/wal_recovery.cpp:177-220 | A log without a tail is left alone. Otherwise success leaves exactly the valid bytes, all of them synced, which replay to the same records; no other file is touched |
| `Recovery.CreateLog` | src/storage_engine.cpp:126-130 | A database without a log gets an empty one, synced |
| `WalFile.WalWriter.WriteAll` | src/wal_file.cpp:77-109 | However writes are shortened or interrupted, success appends all bytes and failure some prefix; terminates |
| `WalFile.WalWriter.Append` | src/wal_file.cpp:193-216 | Success appends the encoded record, synced in synchronous mode; failure leaves a prefix and a writer that refuses everything; a record too large leaves the file alone |
| `WalFile.WalWriter.Sync` | src/wal_file.cpp:218-225 | Success makes the whole file durable; failure marks the writer failed |
| `WalFile.WalWriter.Reset` | src/wal_file.cpp:227-236 | Success empties the file durably; failure, exactly if a system call fails, marks the writer failed with the file as it was or cut without being synced |
| `WalFile.Volume.LosePower` | src/storage_engine.cpp:126-146 | Power may fail whatever is running and leave anything the failure model allows, of files not synced anything at all; the recorded run goes on from there |
| `WalFile.Volume.LeavesLive` | src/file_io.cpp:212-242 | Although no byte is taken to be safe that was not synced, manifest and live segments survive every power failure: only temporaries hold such bytes, and no live name is one |
| `WalFile.Volume.ReplaceFile` | src/file_io.cpp:212-242 | Written, synced, renamed, directory synced: whenever the name has been replaced it stands for all the bytes, and these are synced; otherwise only the temporary has been touched; after success the directory is synced too |
| `WalFile.Volume.ReplaceManifest` | src/manifest.cpp:229-232 | The same for the manifest |
| `WalFile.WalWriter.constructor` | src/wal_file.cpp:173-187 | The size known to the writer is the size of the file |
| `WalRecovery.ReplayWal` | src/wal_recovery.cpp:109-175 | For every file and every way the reads split it, the chunked loop gives the records, byte counts or error offset of a one-shot parse |
| `WalRecovery.ReplayFrames` | src/wal_recovery.cpp:109-175 | What a replay is, without the parser: the leading records that decode one after the other, each up to the next offset; it stops where decoding first fails, as the end if the rest is incomplete and as corruption at that offset otherwise |
| `WalRecovery.ReplayAccounts` | src/wal_recovery.cpp:137-160 | Valid and incomplete bytes add up to the file size |
| `WalRecovery.RepairedIsClean` | src/wal_recovery.cpp:177-206 | Truncated to its valid bytes, the file replays to the same records with no tail |
| `WalRecovery.AppendRecord` | src/wal_file.cpp:193-206 | One more append to a clean file adds exactly one record |
| `WalRecovery.TornAppend` | src/wal_file.cpp:77-109 | An append torn at any byte adds no record and is reported as the tail |
| `WalRecovery.ParseAppend` | src/wal_recovery.cpp:109-175 | A file that replays cleanly can be followed by anything, which is then replayed on its own |
| `WalRecord.RoundTrip` | src/wal_record.cpp:168-298 | An encoded record followed by any bytes decodes to itself and its length |
| `WalRecord.VerdictStable` | src/wal_record.cpp:198-298 | Every verdict other than incomplete_record is unchanged by appending bytes |
| `WalRecord.TornRecordIncomplete` | src/wal_record.cpp:168-298 | Every strict prefix of an encoded record is incomplete_record |
| `WalRecord.TornFrameIncomplete` | src/wal_record.cpp:198-298 | Every strict prefix of any accepted frame is incomplete_record, canonical or not |
| `WalRecord.BurstRejected` | src/wal_record.cpp:198-298 | A frame altered only within 32 consecutive bits, beginning at any bit, is rejected; in payload or checksum always as checksum_mismatch |
| `WalRecord.AcceptedIsFrame` | src/wal_record.cpp:198-298 | Accepted bytes are exactly the frame of some payload |
| `WalRecord.CanonicalIffTagsOrdered` | src/wal_record.cpp:126-160 | An accepted payload re-encodes to itself exactly when its tags were already ordered |
| `WalRecord.UnorderedAccepted` | src/wal_record.cpp:126-160 | The order check is missing: a payload that lists two tags out of order is accepted, and re-encodes to other bytes |
| `WalRecord.TagOrderIgnored` | src/wal_record.cpp:126-160 | Payloads that list the same tags in different orders decode to the same record |
| `WalRecord.EncodeWalRecord` | src/wal_record.cpp:168-196 | The writer produces the bytes the format defines, or refuses a payload over 16 MiB |
| `WalRecord.DecodeWalRecord` | src/wal_record.cpp:198-298 | The reader answers as the format defines, for every input |
| `Crc32c.BurstDetected` | src/crc32c.cpp:15-33 | Different messages of one length never share a checksum if their bits agree outside 32 consecutive ones, beginning at any bit |
| `Crc32c.Compute` | src/crc32c.cpp:15-33 | The loop computes the checksum function, eight one-bit steps a byte between two complements |
| `CrcRemainder.ChecksumIsRemainder` | src/crc32c.cpp:15-33 | The definition in section 12.1 of RFC 3720: the checksum is the complement of the remainder of the message polynomial, first 32 bits complemented and 32 zero bits appended, on division by the generator |
| `CrcRemainder.RegisterIsRemainder` | src/crc32c.cpp:17-28 | After any bits the register is the remainder of what has been fed in: dividend = quotient times generator plus register |
| `CrcRemainder.GeneratorOfTheStandard` | src/crc32c.cpp:10 | The reflected constant 0x82F63B78 stands for the generator polynomial of section 12.1 of RFC 3720 |
| `Crc32c.StepLinear` | src/crc32c.cpp:22-28 | The one-bit step is linear over exclusive or |
| `Crc32c.StepInjective` | src/crc32c.cpp:22-28 | The one-bit step can be undone, because the polynomial has its top bit set |
| `Crc32c.BitsAreOneWord` | src/crc32c.cpp:15-33 | Feeding up to 32 bits into a register is as many steps from the register xored with them |
| `Crc32c.AbsorbIsFeeding` | src/crc32c.cpp:15-33 | Feeding bytes is feeding their bits, least significant first |
| `Crc32c.FeedBitsInjective` | src/crc32c.cpp:15-33 | Different registers stay different under the same bits |
| `Sealing.BurstBreaksSeal` | src/crc32c.cpp:15-33 | Changing any of 32 consecutive bits breaks the seal, also in the stored checksum or across its beginning |
| `Sealing.SealedIffResidue` | src/crc32c.cpp:15-33 | Bytes pass the check exactly if feeding all of them, the stored checksum included, leads to one constant register |
| `Sealing.SealIsSealed` | src/crc32c.cpp:15-33 | Bytes followed by their checksum pass the check |
| `Sealing.SealedIsSeal` | src/crc32c.cpp:15-33 | Bytes that pass the check are exactly some bytes followed by their checksum |
| `Sealing.CheckSeal` | src/wal_record.cpp:256-273 | The comparison of stored and computed checksum |
| `ByteCodec.LERoundTrip` | src/byte_codec.cpp:7-65 | Little-endian integers read back |
| `ByteCodec.LECanonical` | src/byte_codec.cpp:7-65 | Bytes read as an integer are the bytes that integer is written as |
| `ByteCodec.ByteWriter.WriteUnsigned` | src/byte_codec.cpp:7-14 | Appends the little-endian bytes |
| `ByteCodec.ByteReader.ReadUnsigned` | src/byte_codec.cpp:44-65 | Reads the little-endian value and advances, or leaves the position if too few bytes are left |
| `KeyCodec.ParseRawKeyEnc` | src/segment_file.cpp:81-135 | A written series key reads back wherever it stands |
| `KeyCodec.ParseRawKeyCanonical` | src/segment_file.cpp:96-135 | A key accepted in strict order was written as exactly those bytes |
| `KeyCodec.ReadRawKey` | src/segment_file.cpp:96-135 | The reading loop accepts exactly what the format defines |
| `KeyCodec.WriteKey` | src/segment_file.cpp:81-94 | The writing loop produces exactly the format |
| `SegmentBlocks.MakeBlock` | src/segment_block.cpp:9-29 | Accepts exactly 1 to 256 strictly increasing samples, with the first failing check as the error |
| `SegmentBlocks.RoundTrip` | src/segment_block_codec.cpp:193-308 | An encoded block followed by any bytes decodes to itself and its length |
| `SegmentBlocks.Canonical` | src/segment_block_codec.cpp:228-308 | Any accepted bytes are exactly the encoding of the block they decode to |
| `SegmentBlocks.EncodeSegmentBlock` | src/segment_block_codec.cpp:193-226 | The writer produces the bytes the format defines |
| `SegmentBlocks.DecodeSegmentBlock` | src/segment_block_codec.cpp:228-308 | The reader answers as the format defines, for every input |
| `SegmentBlocks.LowerBoundSample` | src/segment_file.cpp:574-582 | The first sample not before the timestamp |
| `SegmentFormat.OpensAsWritten` | src/segment_file.cpp:416-500 | Opening written bytes gives exactly the entries of the blocks, and reading them gives exactly the blocks |
| `SegmentFormat.OnlyTheWriterWrites` | src/segment_file.cpp:466-536 | A file that opens and reads back is byte for byte what the writer produces for its blocks |
| `SegmentFormat.EntriesTile` | src/segment_file.cpp:427-447 | The entries of written blocks tile the file from the header to the index without gap or overlap |
| `SegmentFormat.IndexRoundTrip` | src/segment_file.cpp:237-391 | A written index decodes to its entries |
| `SegmentFormat.IndexCanonical` | src/segment_file.cpp:305-391 | An accepted index is exactly the encoding of its entries |
| `SegmentFile.EncodeSegmentFile` | src/segment_file.cpp:416-464 | Appending blocks, index and footer and patching the header gives the file the format defines, or its error |
| `SegmentFile.CheckBlocks` | src/segment_file.cpp:393-412 | Finds the first reason to refuse a block list |
| `SegmentFile.AppendBlocks` | src/segment_file.cpp:422-447 | Succeeds exactly when every block can be encoded; entries carry the running offset |
| `SegmentReaders.OpenSegment` | src/segment_file.cpp:466-500 | Answers as the format defines for every file, with the promised number of samples |
| `SegmentReaders.CheckIndex` | src/segment_file.cpp:270-303 | The loop accepts exactly the indexes whose entries follow each other and tile the body |
| `SegmentReaders.ReadIndex` | src/segment_file.cpp:305-391 | The decoding loop accepts exactly the indexes the format defines |
| `SegmentReaders.ValidIndexSorted` | src/segment_file.cpp:270-303 | Checking neighbours orders every pair of entries |
| `SegmentReaders.LowerBoundEntry` | src/segment_file.cpp:559-566 | Binary search splits the index at the first entry not before the series |
| `SegmentReaders.UpperBoundEntry` | src/segment_file.cpp:539-545 | Binary search splits the index after the last entry of the series |
| `SegmentReaders.SegmentReader.Get` | src/segment_file.cpp:557-587 | The early-exit search answers from the one block that can have the point: it fails exactly if that block cannot be read, and otherwise agrees with every readable block; if all can be read, it answers as a full scan |
| `SegmentReaders.SegmentReader.Latest` | src/segment_file.cpp:538-555 | Reads the last block of the series alone: fails exactly if that cannot be read, and otherwise no readable block has a later sample; if all can be read, it answers as a full scan |
| `SegmentReaders.SegmentReader.Range` | src/segment_file.cpp:589-629 | Fails exactly for a reversed range or an overlapping block that cannot be read; otherwise exactly the samples of the readable blocks from start to before end, in increasing time |
| `SegmentReaders.SegmentReader.AllBlocks` | src/segment_file.cpp:631-640 | All blocks in order, or failure at the first that does not read back |
| `SegmentReaders.SegmentReader.FetchBlock` | src/segment_file.cpp:522-536 | A block is accepted only if it fills its extent and agrees with its entry |
| `SegmentOrder.OrderedPairwise` | src/segment_file.cpp:393-412 | Checking neighbouring blocks orders every pair of them |
| `SegmentOrder.BlocksMapHas` | src/segment_file.cpp:393-412 | In an ordered file a point is present exactly when some block holds it, with one value |
| `Manifest.RoundTrip` | src/manifest.cpp:91-199 | Every valid state within the limits decodes to itself |
| `Manifest.Canonical` | src/manifest.cpp:120-199 | Accepted bytes are exactly the encoding of the state they decode to, whose names are valid and distinct |
| `Manifest.StoredLoads` | src/manifest.cpp:207-232 | A stored manifest passes the size check and loads |
| `Manifest.ValidateState` | src/manifest.cpp:41-53 | Accepts exactly up to 100000 valid, pairwise distinct names |
| `Manifest.EncodeManifest` | src/manifest.cpp:91-118 | The writer produces the bytes the format defines, or its error |
| `Manifest.DecodeManifest` | src/manifest.cpp:120-199 | The reader answers as the format defines, for every input |
| `Manifest.LoadManifest` | src/manifest.cpp:207-227 | A missing file is the empty state; an oversized one is refused unread |
| `SegmentNames.GenerationNameInjective` | src/storage_engine.cpp:188-197 | Zero-padded 20-digit names are distinct for all 64-bit generations |
| `SegmentNames.GenerationNameReads` | src/storage_engine.cpp:188-197 | The name is "segment-", 20 decimal digits that read, most significant first, as the generation, and ".cst" |
| `SegmentNames.GenerationNamesAscend` | src/storage_engine.cpp:188-197 | Of two 64-bit generations the lesser has the name that comes first bytewise, so a sorted listing shows segments oldest first |
| `SegmentNames.KindsByName` | src/storage_engine.cpp:97-101 | What cleanup takes for a segment or a temporary, by the bytes of the name |
| `SegmentNames.TemporaryIsStale` | src/file_io.cpp:122-155 | The temporary a segment is first written to is one that the next cleanup removes |
| `SegmentNames.ValidNameIff` | src/manifest.cpp:31-39 | A manifest may name exactly what ends in ".cst" after at least one byte and has no slash or backslash |
| `SegmentNames.GenerationNameValid` | src/manifest.cpp:31-39 | A generation name is a valid segment name, recognised by cleanup, and no temporary |
| `MemTables.MemTable.Put` | src/memtable.cpp:8-31 | Updates one point and keeps the cached count equal to the number of points |
| `MemTables.MemTable.Get` | src/memtable.cpp:52-66 | The value at a point |
| `MemTables.MemTable.Latest` | src/memtable.cpp:33-50 | The last sample of a series |
| `MemTables.MemTable.Range` | src/memtable.cpp:68-100 | Refuses an end before the start; otherwise exactly the samples from start to before end, increasing |
| `MemTables.MemTable.SeriesList` | src/memtable.cpp:110-119 | Exactly the series present, in key order |
| `MemTables.MemTable.Snapshot` | src/memtable.cpp:121-137 | Everything in the table and nothing else, series by series in key order, samples in time order |
| `MemTables.MemTable.Clear` | src/memtable.cpp:139-142 | Empties the table and its count |
| `MemTables.MemTable.IsEmpty` | src/memtable.cpp:106-108 | The cached count is zero exactly for the empty table |
| `Chunking.BlocksFromSnapshots` | src/storage_engine.cpp:42-60 | The loop produces the chunks of every series in order |
| `Chunking.AppendChunks` | src/storage_engine.cpp:48-56 | What the inner loop appends: n samples give (n + 255) / 256 blocks, and block i holds the samples from 256 i to 256 (i + 1) or the last |
| `Chunking.ChunksCutBy256` | src/storage_engine.cpp:48-56 | The same of the chunks of any series |
| `Chunking.ChunksJoin` | src/storage_engine.cpp:42-60 | A series' chunks concatenate back to its samples |
| `Chunking.ChunksHoldSnapshot` | src/storage_engine.cpp:42-60 | The chunks pass the segment order check and hold exactly the map the snapshot was taken of |
| `Chunking.ChunksEncodable` | src/segment_block_codec.cpp:193-202 | If each key leaves room for 256 samples within 16 MiB, every chunk can be encoded |
| `Chunking.EncodableIff` | src/segment_block_codec.cpp:193-202 | A block can be encoded exactly when key and samples fit the payload limit |
| `Flushable.FlushableIff` | src/segment_file.cpp:393-464 | A snapshot can be written exactly when it is not empty and block count, index size and every block size are within limits |
| `Flushable.AcceptedButNotFlushable` | src/wal_record.cpp:168-196 | Puts that the log accepts one by one but that no block can hold: the log and block limits overlap |
| `Flushable.SomeAcceptedButNotFlushable` | src/segment_block_codec.cpp:193-202 | Such puts exist: with a key of nearly 16 MiB each of two records fits the log, while their block is refused |
| `Flushable.SnapshotUnique` | src/memtable.cpp:121-137 | A table has one snapshot, so whether it fits is a question about the table |
| `Flushable.MoreNeverFits` | src/segment_file.cpp:393-464 | A table with more points fits only if one with fewer does: block count, index size and block sizes are monotone |
| `FlushRefusal.FlushPossibleIff` | src/storage_engine.cpp:207-226 | In every reachable state between operations with a table that is not empty: flush can publish segment and manifest exactly if the table fits a segment, fewer than 100000 segments are live, the generation is below its limit and the count fits 64 bits |
| `FlushRefusal.TwoPutsRefuseFlush` | src/storage_engine.cpp:207-213 | A run of two acknowledged puts after which no flush can publish a segment |
| `FlushRefusal.RefusedForGood` | src/storage_engine.cpp:207-213 | A table too large to flush stays so through all further puts, syncs, compactions, halts and recoveries, and if the log was synced, through power failures |
| `FlushRefusal.ManifestEncodesIff` | src/manifest.cpp:91-118 | In reachable states the manifest of one more segment can be encoded exactly if segment count, generation and sample count leave room |
| `FlushRefusal.CompactedEncodes` | src/storage_engine.cpp:287-296 | While generations last, the manifest of a compaction can be encoded |
| `Overlay.DistinctAtMostPhysical` | src/storage_engine.cpp:114-118 | Distinct points never outnumber the physical samples that recovery compares them with |
| `Overlay.ReaderSize` | src/segment_file.cpp:491-499 | A segment's sample count is the number of its points |
| `Overlay.BlocksSize` | src/segment_file.cpp:393-412 | Ordered blocks never hold a point twice |
| `Overlay.SegmentContentsSnoc` | src/storage_engine.cpp:225 | Pushing a reader lays its points over all before |
| `Model.KeyOrder` | include/chronostore/model.hpp:32-45 | The defaulted comparison of series keys is a strict total order |
| `Model.KeyLessIff` | include/chronostore/model.hpp:32-45 | Keys compare by measurement and then by tags: by the first tag that differs, or by length if there is none |
| `Model.TagLessIff` | include/chronostore/model.hpp:12-29 | Tags compare by key and then by value |
| `Model.StringLessIff` | include/chronostore/model.hpp:20-21 | One string comes before another exactly if at the first byte where they differ it ends or has the numerically smaller byte |
| `Model.TagOrder` | include/chronostore/model.hpp:12-29 | The defaulted comparison of tags is a strict total order |
| `Model.StringOrder` | include/chronostore/model.hpp:20-21 | Strings compare lexicographically as unsigned bytes, a strict total order |
| `Model.KeyIgnoresTagOrder` | src/model.cpp:24-39 | Any permutation of the same tags gives the same key, or the same refusal |
| `Model.KeyAcceptedIff` | src/model.cpp:24-39 | A key is built exactly when the measurement is not empty and no two tags share a key |
| `Model.KeyRefusals` | src/model.cpp:24-39 | The measurement is checked before the tags |
| `Model.KeyOfCanonical` | src/model.cpp:24-39 | A tag list strictly increasing by key is left unchanged |
| `Model.MakeSeriesKey` | src/model.cpp:24-39 | The constructor: sorting, then refusing neighbours with equal keys |
| `Model.BitCastRoundTrip` | src/wal_record.cpp:60-66 | Timestamps survive the cast to unsigned and back, and every pattern is one timestamp |
| `Model.BitCastIsModulo` | src/wal_record.cpp:60-66 | The cast is the timestamp modulo 2^64, in both directions |
| `Model.NotFiniteIff` | src/model.cpp:49-53 | The refused values are the patterns with exponent 2047, whatever the sign and mantissa |
| `Contents.LatestUnique` | src/storage_engine.cpp:313-335 | What latest must answer is determined by the abstract map alone |
| `Contents.RangeUnique` | src/storage_engine.cpp:358-387 | What range must answer is determined by the abstract map alone |
| `Contents.SeriesUnique` | src/storage_engine.cpp:389-405 | What series must answer is determined by the abstract map alone |
| `Orders.InOrder` | src/storage_engine.cpp:389-405 | Iterating an ordered container visits every element once, in order |
| `FormatTables.IntegerTable` | src/byte_codec.cpp:7-65 | The bytes of a two, four or eight byte integer weighted by 1, 256, 65536 and so on add up to it |
| `FormatTables.WalRecordTable` | docs/file-formats.md:40-70 | A record on disk byte by byte: CSWL, version 1, type 1, size and its complement, key, timestamp modulo 2^64, value bits, checksum of all before; refused exactly if the payload exceeds 16777216 bytes |
| `FormatTables.WalVerdict` | src/wal_record.cpp:198-298 | The answer to any bytes, from the numbers at their offsets and in the order of the checks |
| `FormatTables.WalPayloadIff` | src/wal_record.cpp:126-160 | A payload is a record exactly if it spells a key whose measurement and tags the constructors accept, and a sample |
| `FormatTables.KeyTable` | docs/file-formats.md:14-16 | A key byte by byte: measurement, number of tags, keys and values, each with its length in four bytes |
| `FormatTables.SampleTable` | docs/file-formats.md:12-13 | A sample byte by byte: the timestamp modulo 2^64, then the value bits |
| `FormatTables.BlockTable` | docs/file-formats.md:86-110 | A block byte by byte: CSBK, version 1, flags 0, size and its complement, sample count, key, samples, checksum; refused exactly if key and samples exceed 16777216 bytes |
| `FormatTables.BlockVerdict` | src/segment_block_codec.cpp:228-308 | The answer to any bytes, from the numbers at their offsets and in the order of the checks |
| `FormatTables.BlockPayloadIff` | src/segment_block_codec.cpp:228-308 | A payload is a block exactly if it is what the writer spells for it |
| `FormatTables.SegmentFileTable` | docs/file-formats.md:116-181 | A published file byte by byte: CSGF with block count, index offset and size; each block where its entry says; CSIX with the entries; CSFT repeating the three numbers; each part with its checksum |
| `FormatTables.EntryTable` | docs/file-formats.md:150-159 | An index entry byte by byte |
| `FormatTables.IndexOrderIff` | src/segment_file.cpp:270-303 | The accepted indexes, without recursion: blocks end to end from byte 32 to the index, 1 to 256 samples each, by series and then by disjoint times |
| `FormatTables.SegmentHeaderVerdict` | src/segment_file.cpp:163-200 | The answer to any 32 bytes as a header |
| `FormatTables.SegmentFooterVerdict` | src/segment_file.cpp:202-235 | The answer to any 32 bytes as a footer |
| `FormatTables.IndexVerdict` | src/segment_file.cpp:305-391 | The answer to any bytes as an index |
| `FormatTables.OpenVerdict` | src/segment_file.cpp:466-500 | The answer to any file: what header, footer and index say and how they must fit together |
| `FormatTables.SegmentRefusals` | src/segment_file.cpp:393-464 | Why the writer refuses blocks, in order: none, more than 1000000, out of order, one over 16 MiB, an index over 64 MiB |
| `FormatTables.ManifestTable` | docs/file-formats.md:194-211 | A manifest byte by byte: CSMF, version 1, flags 0, generation, sample count, segment count, size and its complement, names, checksum |
| `FormatTables.ManifestVerdict` | src/manifest.cpp:120-227 | The answer to any manifest file, from the numbers at their offsets and in the order of the checks |
| `FormatTables.ManifestRefusals` | src/manifest.cpp:91-118 | Why a manifest is not written, in order |

## Left out

- Standard library algorithms are written out: binary searches as loops, `std::sort` on tags as an insertion sort, ordered containers as maps listed in order. Their running time is not modelled.
- The bytes of an integer are combined by addition of their weighted values instead of shift and bitwise or, which is the same on disjoint bits. The CRC register is a sequence of 32 bits.
- WriteOrder.OrderKeptIff: the only-if direction takes repeated puts to a point to differ in value, because equal values hide how far a log had got. The if direction needs nothing.
- WalFile.WalWriter.WriteAll: the number of interruptions by signals is finite but arbitrary.
- Writing and reading strings and series keys: the four copies in the repository's codecs are one definition with a flag for strict tag order.
- Sample counts and file sizes are unbounded integers, so the overflow checks on them never fire here; the generation is limited to 64 bits, as in the code.
- A power failure keeps a byte prefix of the log. Garbage in place of unsynced bytes is not modelled.
- Outside `DirectorySync` the log file, once created, survives, and a replaced manifest is durable when the rename has happened. There, which directory syncs succeed is an annotation of the machine's runs; the runs that the classes record do not carry it, and a volume only tells whether the directory has changed since its last sync.
- The replay callback: `ReplayWal` returns the sequence of records that the code hands to the callback.
- `SegmentReader` never changes after opening and is a datatype; the file handle and lazy reads are the bytes it holds.
- Locks and threads: a mutation is one operation to every reader, so interleaving appears only as crash points.
- The database directory lock, `src/database.cpp`, the command line, ChronoView, benchmarks and packaging.
- Path handling and Windows branches; file-name validity is an ending and the absence of separators.
- Exception texts, memory exhaustion, and accessors that only return a field.
