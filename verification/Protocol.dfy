/**
  The storage engine as a machine whose steps are its durable actions.

  `Next` lists every step of `put`, `sync`, `flush`, `compact` and `recover`, the death of the process between any
  two of them, and the loss of power at any moment. Each step is labelled with the event a caller can observe.
 */
module Protocol {
  import opened Prelude
  import opened WalRecord
  import opened WalRecovery
  import opened F = SegmentFormat
  import opened Contents
  import opened SegmentReaders
  import opened SegmentNames
  import opened M = Manifest
  import opened MemTables
  import opened Chunking
  import opened Overlay
  import opened Disk

  datatype Durability = Buffered | SyncOnAppend

  /** What the process holds in memory. */
  datatype EngineView = EngineView(
    durability: Durability, memtable: Contents, manifest: ManifestState, segments: seq<SegmentReader>,
    sampleCount: nat, walSize: nat)

  /** How far the operation in progress has got. */
  datatype Phase =
    | Idle
    | Appended(record: WalPutRecord)
    | FlushPublished(name: Name, reader: SegmentReader)
    | FlushCommitted
    | FlushEmptied
    | CompactPublished(name: Name, reader: SegmentReader)
    | CompactCommitted(obsolete: set<Name>)

  datatype System = Running(view: EngineView, phase: Phase, disk: DiskImage) | Stopped(disk: DiskImage)

  /** `Halted` ends the process but not the operating system; the record in flight, if any, is named. */
  datatype Event =
    | Acknowledged(record: WalPutRecord, durability: Durability)
    | Synced
    | Halted(inFlight: Option<WalPutRecord>)
    | PowerLost(inFlight: Option<WalPutRecord>)
    | Internal

  /** Everything the engine would answer queries from. */
  ghost function Visible(v: EngineView): Contents
    requires AllReadable(v.segments)
  {
    SegmentContents(v.segments) + v.memtable
  }

  // ----- put and sync -----

  ghost predicate PutAppend(s: System, r: WalPutRecord, s': System) {
    && s.Running? && s.phase == Idle && s.disk.wal.Some?
    && WalRecord.Encode(r).Success?
    && s' == s.(phase := Appended(r), disk := s.disk.(wal := Some(WalBytes(s.disk) + WalRecord.Encode(r).value)))
  }

  ghost function AfterPut(v: EngineView, r: WalPutRecord, walSize: nat): EngineView
    requires AllReadable(v.segments)
  {
    v.(memtable := v.memtable[PointOf(r) := r.sample.value],
       sampleCount := if PointOf(r) in Visible(v) then v.sampleCount else v.sampleCount + 1,
       walSize := walSize)
  }

  ghost predicate PutFinish(s: System, r: WalPutRecord, durability: Durability, s': System) {
    && s.Running? && s.phase == Appended(r) && AllReadable(s.view.segments) && s.view.durability == durability
    && s' == Running(AfterPut(s.view, r, |WalBytes(s.disk)|), Idle,
                     if durability == SyncOnAppend then AfterSync(s.disk) else s.disk)
  }

  ghost predicate SyncWal(s: System, s': System) {
    && s.Running? && s.phase == Idle
    && s' == s.(disk := AfterSync(s.disk))
  }

  // ----- flush and compact -----

  /** Writing a temporary file, wholly or in part. */
  ghost predicate WriteTemporary(s: System, s': System) {
    && s.Running? && s'.Running?
    && s' == s.(disk := s'.disk) && s'.disk == s.disk.(files := s'.disk.files)
    && (forall n :: n in s.disk.files && !Temporary(n) ==> n in s'.disk.files && s'.disk.files[n] == s.disk.files[n])
    && (forall n :: n in s'.disk.files && !Temporary(n) ==> n in s.disk.files)
  }

  /** `bytes` is the segment file for exactly the points of `m`, and `reader` is that file opened. */
  ghost predicate SegmentFor(m: Contents, bytes: Bytes, reader: SegmentReader) {
    exists snapshots ::
      && SnapshotAnswer(m, snapshots)
      && SegmentBytes(ChunkAll(snapshots)) == Success(bytes)
      && reader.content == bytes && reader.Valid()
  }

  function NextName(m: ManifestState): Name {
    GenerationName(m.generation + 1)
  }

  ghost predicate FlushPublish(s: System, s': System) {
    && s.Running? && s.phase == Idle
    && s.view.memtable != map[] && s.view.manifest.generation < U64_MAX
    && s'.Running? && s'.phase.FlushPublished?
    && var name := NextName(s.view.manifest);
       var reader := s'.phase.reader;
       && SegmentFor(s.view.memtable, reader.content, reader)
       && s' == s.(phase := FlushPublished(name, reader), disk := Publish(s.disk, name, reader.content))
  }

  function FlushedManifest(v: EngineView, name: Name): ManifestState {
    ManifestState(v.manifest.generation + 1, v.sampleCount, v.manifest.segmentFiles + [name])
  }

  ghost predicate FlushCommit(s: System, s': System) {
    && s.Running? && s.phase.FlushPublished?
    && var next := FlushedManifest(s.view, s.phase.name);
       && M.Encode(next).Success?
       && s' == Running(s.view.(manifest := next, segments := s.view.segments + [s.phase.reader]), FlushCommitted,
                        s.disk.(manifest := Some(M.Encode(next).value)))
  }

  /** Emptying the log file; the memtable is emptied with it. */
  ghost predicate FlushCut(s: System, s': System) {
    && s.Running? && s.phase == FlushCommitted
    && s' == Running(s.view.(memtable := map[], walSize := 0), FlushEmptied, Truncate(s.disk, 0))
  }

  /** The sync that follows the cut. */
  ghost predicate FlushFinish(s: System, s': System) {
    && s.Running? && s.phase == FlushEmptied
    && s' == s.(phase := Idle, disk := AfterSync(s.disk))
  }

  ghost predicate CompactPublish(s: System, s': System) {
    && s.Running? && s.phase == Idle
    && |s.view.segments| > 1 && AllReadable(s.view.segments) && s.view.manifest.generation < U64_MAX
    && |SegmentContents(s.view.segments)| == s.view.manifest.logicalSampleCount
    && s'.Running? && s'.phase.CompactPublished?
    && var name := NextName(s.view.manifest);
       var reader := s'.phase.reader;
       && SegmentFor(SegmentContents(s.view.segments), reader.content, reader)
       && s' == s.(phase := CompactPublished(name, reader), disk := Publish(s.disk, name, reader.content))
  }

  function CompactedManifest(v: EngineView, name: Name): ManifestState {
    ManifestState(v.manifest.generation + 1, v.manifest.logicalSampleCount, [name])
  }

  ghost predicate CompactCommit(s: System, s': System) {
    && s.Running? && s.phase.CompactPublished?
    && var next := CompactedManifest(s.view, s.phase.name);
       && M.Encode(next).Success?
       && s' == Running(s.view.(manifest := next, segments := [s.phase.reader]),
                        CompactCommitted(set n | n in s.view.manifest.segmentFiles),
                        s.disk.(manifest := Some(M.Encode(next).value)))
  }

  /** Removal is best effort. */
  ghost predicate CompactRemove(s: System, s': System) {
    && s.Running? && s.phase.CompactCommitted?
    && s'.Running? && s'.phase.CompactCommitted?
    && s'.phase.obsolete <= s.phase.obsolete
    && s' == s.(phase := s'.phase, disk := s.disk.(files := s'.disk.files))
    && s'.disk.files.Keys <= s.disk.files.Keys
    && (forall n :: n in s.disk.files && n !in s.phase.obsolete ==> n in s'.disk.files)
    && (forall n :: n in s'.disk.files ==> s'.disk.files[n] == s.disk.files[n])
  }

  ghost predicate CompactFinish(s: System, s': System) {
    && s.Running? && s.phase.CompactCommitted?
    && s' == s.(phase := Idle)
  }

  // ----- stopping -----

  /** The put that has been appended and not yet acknowledged. */
  function InFlight(s: System): Option<WalPutRecord> {
    if s.Running? && s.phase.Appended? then Some(s.phase.record) else None
  }

  /** An error or a kill between steps; an append may have written any part of its record. */
  ghost predicate Halt(s: System, inFlight: Option<WalPutRecord>, s': System) {
    && s.Running? && s'.Stopped?
    && match s.phase
       case Appended(r) =>
         && inFlight == Some(r) && s.disk.wal.Some? && s'.disk.wal.Some?
         && s'.disk == s.disk.(wal := s'.disk.wal)
         && s.view.walSize <= |WalBytes(s'.disk)| && WalBytes(s'.disk) <= WalBytes(s.disk)
       case _ => inFlight == None && s'.disk == s.disk
  }

  ghost predicate LosePower(s: System, inFlight: Option<WalPutRecord>, s': System) {
    && s'.Stopped? && AfterPowerLoss(s.disk, s'.disk)
    && inFlight == InFlight(s)
  }

  // ----- recovery -----

  /** An orphan segment or a stale temporary. */
  predicate Removable(m: ManifestState, name: Name) {
    (LooksLikeSegment(name) && name !in m.segmentFiles) || LooksLikeTemporary(name)
  }

  ghost predicate RecoverCleanup(s: System, s': System) {
    && s.Stopped? && s'.Stopped? && Load(s.disk.manifest).Success?
    && s'.disk == s.disk.(files := s'.disk.files)
    && s'.disk.files.Keys <= s.disk.files.Keys
    && (forall n :: n in s.disk.files && !Removable(Load(s.disk.manifest).value, n) ==> n in s'.disk.files)
    && (forall n :: n in s'.disk.files ==> s'.disk.files[n] == s.disk.files[n])
  }

  ghost predicate RecoverCreateWal(s: System, s': System) {
    && s.Stopped? && s.disk.wal.None?
    && s' == Stopped(s.disk.(wal := Some([]), synced := 0))
  }

  /** Cutting off the incomplete tail. */
  ghost predicate RecoverTruncate(s: System, s': System) {
    && s.Stopped? && s.disk.wal.Some? && ParseWal(WalBytes(s.disk)).Replayed?
    && ParseWal(WalBytes(s.disk)).tailBytes != 0
    && var valid := ParseWal(WalBytes(s.disk)).validBytes;
       valid <= |WalBytes(s.disk)| && s' == Stopped(Truncate(s.disk, valid))
  }

  /** The sync that follows the cut. A crash in between leaves it out. */
  ghost predicate RecoverSync(s: System, s': System) {
    && s.Stopped? && s.disk.wal.Some? && Clean(WalBytes(s.disk), ParseWal(WalBytes(s.disk)).records)
    && s' == Stopped(AfterSync(s.disk))
  }

  /** The live segments, opened in manifest order. */
  ghost predicate OpensLive(d: DiskImage, m: ManifestState, segments: seq<SegmentReader>) {
    && |segments| == |m.segmentFiles|
    && forall i :: 0 <= i < |segments| ==>
         && m.segmentFiles[i] in d.files
         && segments[i].content == d.files[m.segmentFiles[i]] && segments[i].Valid()
  }

  /** The plausibility check on the stored count. */
  predicate CountPlausible(m: ManifestState, segments: seq<SegmentReader>) {
    !(m.logicalSampleCount > PhysicalSamples(segments) || (segments == [] && m.logicalSampleCount != 0))
  }

  /** Replay counts only points that neither the segments nor the table being rebuilt already hold. */
  function ReplayedCount(stored: nat, base: Contents, rs: seq<WalPutRecord>): nat {
    if rs == [] then stored
    else
      var n := |rs| - 1;
      ReplayedCount(stored, base, rs[..n]) + (if PointOf(rs[n]) in base + Fold(rs[..n]) then 0 else 1)
  }

  ghost predicate RecoverFinish(s: System, s': System) {
    && s.Stopped? && s.disk.wal.Some? && s'.Running? && s'.phase == Idle && s'.disk == s.disk
    && var v := s'.view;
       var replay := ParseWal(WalBytes(s.disk));
       && Load(s.disk.manifest) == Success(v.manifest)
       && OpensLive(s.disk, v.manifest, v.segments) && AllReadable(v.segments)
       && CountPlausible(v.manifest, v.segments)
       && replay.Replayed? && replay.tailBytes == 0
       && v.memtable == Fold(replay.records)
       && v.sampleCount
          == ReplayedCount(v.manifest.logicalSampleCount, SegmentContents(v.segments), replay.records)
       && v.walSize == |WalBytes(s.disk)|
  }

  // ----- the machine -----

  ghost predicate InternalStep(s: System, s': System) {
    || (exists r :: PutAppend(s, r, s'))
    || WriteTemporary(s, s')
    || FlushPublish(s, s') || FlushCommit(s, s') || FlushCut(s, s')
    || CompactPublish(s, s') || CompactCommit(s, s') || CompactRemove(s, s') || CompactFinish(s, s')
    || RecoverCleanup(s, s') || RecoverCreateWal(s, s') || RecoverTruncate(s, s') || RecoverFinish(s, s')
  }

  ghost predicate Next(s: System, e: Event, s': System) {
    match e
    case Acknowledged(r, durability) => PutFinish(s, r, durability, s')
    case Synced => SyncWal(s, s') || FlushFinish(s, s') || RecoverSync(s, s')
    case Halted(f) => Halt(s, f, s')
    case PowerLost(f) => LosePower(s, f, s')
    case Internal => InternalStep(s, s')
  }

  /** A directory that holds no database yet. */
  ghost predicate Fresh(s: System) {
    s.Stopped? && s.disk.wal.None? && s.disk.manifest.None? && s.disk.synced == 0 && s.disk.earlier == []
  }
}
