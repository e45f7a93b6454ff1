/**
  When the engine can flush, and what becomes of a table that it cannot.

  `FlushPossibleIff` is exact for every reachable state. `TwoPutsRefuseFlush` is a run whose two acknowledged puts can
  never be flushed, and `RefusedForGood` shows that no put, no recovery and, once synced, no power failure helps.
 */
module FlushRefusal {
  import opened Prelude
  import opened Model
  import opened KeyCodec
  import opened WalRecord
  import opened WalRecovery
  import B = SegmentBlocks
  import opened F = SegmentFormat
  import opened Contents
  import opened SegmentReaders
  import opened SegmentNames
  import opened M = Manifest
  import opened MemTables
  import opened Chunking
  import opened Flushable
  import opened Overlay
  import opened Disk
  import opened DurableLog
  import opened Protocol
  import opened ProtocolInvariant
  import opened ProtocolSteps
  import opened CrashSafety
  import opened ReachableStates
  import opened BufferedOrder

  // ----- the manifest -----

  /** Room for one more segment. */
  predicate ManifestRoom(v: EngineView) {
    && |v.manifest.segmentFiles| < MAX_MANIFEST_SEGMENTS
    && v.manifest.generation < U64_MAX && v.sampleCount <= U64_MAX
  }

  lemma {:induction false} NamesSize(names: seq<Name>)
    requires forall i :: 0 <= i < |names| ==> |names[i]| == 32
    ensures |EncNames(names)| == 36 * |names|
  {
    if names != [] {
      NamesSize(names[1..]);
    }
  }

  lemma LoadedNames(file: Option<Bytes>)
    requires Load(file).Success?
    ensures |Load(file).value.segmentFiles| <= MAX_MANIFEST_SEGMENTS && DistinctNames(Load(file).value.segmentFiles)
    ensures Load(file).value.logicalSampleCount <= U64_MAX
  {
    hide M.Decode, M.Encode;
    if file.Some? {
      M.Canonical(file.value);
      StorableNames(Load(file).value);
    }
  }

  lemma StorableNames(m: ManifestState)
    requires M.Encode(m).Success?
    ensures |m.segmentFiles| <= MAX_MANIFEST_SEGMENTS && m.logicalSampleCount <= U64_MAX
  {
    hide M.Header, Sealing.Seal;
  }

  /** The manifest of one more segment can be encoded exactly if there is room. */
  lemma ManifestEncodesIff(d: DiskImage, v: EngineView)
    requires Sound(d, v.manifest, v.segments) && v.manifest.generation < U64_MAX
    ensures M.Encode(FlushedManifest(v, NextName(v.manifest))).Success? <==> ManifestRoom(v)
  {
    hide Load, OpensLive, AllReadable, SegmentContents, GenerationName, ValidSegmentFilename, Sealing.Seal, M.Header,
      EncNames, GenerationUpTo, NextName, DistinctNames;
    var name, names := NextName(v.manifest), v.manifest.segmentFiles;
    var next := names + [name];
    LoadedNames(d.manifest);
    LiveNamesAll(v.manifest);
    NextIsValid(v.manifest);
    forall i | 0 <= i < |next|
      ensures ValidSegmentFilename(next[i]) && |next[i]| == 32
    {
      if i < |names| {
        LiveName(v.manifest, i);
      }
    }
    NamesSize(next);
    StillDistinct(names, name);
  }

  /** The manifest of a compaction can always be encoded. */
  lemma CompactedEncodes(d: DiskImage, v: EngineView)
    requires Sound(d, v.manifest, v.segments) && v.manifest.generation < U64_MAX
    ensures M.Encode(CompactedManifest(v, NextName(v.manifest))).Success?
  {
    hide Load, OpensLive, AllReadable, SegmentContents, GenerationName, ValidSegmentFilename, Sealing.Seal, M.Header,
      EncNames, GenerationUpTo, NextName;
    LoadedNames(d.manifest);
    NextIsValid(v.manifest);
    NamesSize([NextName(v.manifest)]);
  }

  lemma NextIsValid(m: ManifestState)
    ensures ValidSegmentFilename(NextName(m)) && |NextName(m)| == 32
  {
    GenerationNameValid(m.generation + 1);
  }

  lemma LiveName(m: ManifestState, i: nat)
    requires i < |m.segmentFiles| && GenerationUpTo(m.segmentFiles[i], m.generation)
    ensures ValidSegmentFilename(m.segmentFiles[i]) && |m.segmentFiles[i]| == 32
  {
    hide GenerationName, ValidSegmentFilename;
    var g: nat :| 1 <= g <= m.generation && m.segmentFiles[i] == GenerationName(g);
    GenerationNameValid(g);
  }

  lemma StillDistinct(names: seq<Name>, name: Name)
    requires DistinctNames(names) && name !in names
    ensures DistinctNames(names + [name])
  {}

  /** A segment is published only while generations last. */
  lemma PublishedBelowLimit(s: System, l: LogState)
    requires Related(s, l) && s.Running? && (s.phase.FlushPublished? || s.phase.CompactPublished?)
    ensures s.view.manifest.generation < U64_MAX
  {
    hide Sound, EarlierTrack, TableOk;
  }

  // ----- flushing -----

  /** From here, a flush can get as far as making its segment live. */
  ghost predicate CanFlush(s: System) {
    exists s1, s2 :: FlushPublish(s, s1) && FlushCommit(s1, s2)
  }

  lemma PublishNeedsFit(s: System, s1: System)
    requires FlushPublish(s, s1)
    ensures TableFits(s.view.memtable) && s.view.manifest.generation < U64_MAX
  {
    hide SnapshotAnswer, SegmentBytes, BlocksFit, NextName, SegmentReader.Valid;
    var m, reader := s.view.memtable, s1.phase.reader;
    SegmentForSnapshot(m, reader.content, reader);
  }

  lemma SegmentForSnapshot(m: Contents, bytes: Bytes, reader: SegmentReader)
    requires SegmentFor(m, bytes, reader)
    ensures TableFits(m)
  {
    hide SnapshotHolds, Has, KeyLess, SegmentBytes, BlocksFit, SegmentReader.Valid;
    var snapshots :| SnapshotAnswer(m, snapshots) && SegmentBytes(ChunkAll(snapshots)) == Success(bytes);
    FlushableIff(m, snapshots);
    assert SnapshotFits(m, snapshots);
  }

  /** The segment of a table that fits. */
  lemma FittingSegment(m: Contents) returns (reader: SegmentReader)
    requires m != map[] && TableFits(m)
    ensures SegmentFor(m, reader.content, reader)
  {
    hide SnapshotHolds, Has, KeyLess, SegmentBytes, BlocksFit, Open, ReadBlocks, EntriesFor, BlocksOrdered;
    var snapshots :| SnapshotFits(m, snapshots);
    FlushableIff(m, snapshots);
    OpensAsWritten(ChunkAll(snapshots));
    var bytes, index := SegmentBytes(ChunkAll(snapshots)).value, EntriesFor(ChunkAll(snapshots), SEGMENT_HEADER_SIZE);
    reader := SegmentReader(bytes, index, TotalSamples(index));
  }

  /**
    In every reachable state between operations, with a table that is not empty: a flush can publish its segment and
    its manifest exactly if the table's blocks and index are within the limits of a segment file, and there is room for
    one more segment and generation in the manifest.
   */
  lemma FlushPossibleIff(s: System)
    requires Reachable(s) && s.Running? && s.phase == Idle && s.view.memtable != map[]
    ensures CanFlush(s) <==> TableFits(s.view.memtable) && ManifestRoom(s.view)
  {
    hide Reachable, Related, TableFits, SegmentFor, M.Encode, Sound, NextName, FlushedManifest;
    var l := ReachableRelated(s);
    var m, segments := SoundHere(s, l);
    var v := s.view;
    if s1, s2 :| FlushPublish(s, s1) && FlushCommit(s1, s2) {
      PublishNeedsFit(s, s1);
      ManifestEncodesIff(s.disk, v);
    }
    if TableFits(v.memtable) && ManifestRoom(v) {
      ManifestEncodesIff(s.disk, v);
      var reader := FittingSegment(v.memtable);
      var name := NextName(v.manifest);
      var next := FlushedManifest(v, name);
      var s1 := Running(v, FlushPublished(name, reader), Publish(s.disk, name, reader.content));
      assert FlushPublish(s, s1);
      assert FlushCommit(s1, Running(v.(manifest := next, segments := v.segments + [reader]), FlushCommitted,
                                     s1.disk.(manifest := Some(M.Encode(next).value))));
    }
  }

  // ----- two puts that cannot be flushed -----

  /** A key so long that a record with it fits the log, and two samples of it do not fit a block. */
  lemma LongPuts() returns (x: WalPutRecord, y: WalPutRecord)
    ensures x.series == y.series && x.sample.timestamp < y.sample.timestamp && Encodes([x, y])
    ensures !BlockFits(B.SegmentBlock(x.series, [x.sample, y.sample]))
  {
    hide WalRecord.Frame, EncKey;
    var series := LongKey(MAX_PAYLOAD_SIZE - ENCODED_SAMPLE_SIZE - 8);
    x, y := WalPutRecord(series, Sample(0, 0)), WalPutRecord(series, Sample(1, 0));
  }

  lemma TwoDoNotFit(x: WalPutRecord, y: WalPutRecord)
    requires x.series == y.series && x.sample.timestamp < y.sample.timestamp
    requires !BlockFits(B.SegmentBlock(x.series, [x.sample, y.sample]))
    ensures Fold([x, y]) != map[] && !TableFits(Fold([x, y]))
  {
    hide BlockFits, SnapshotAnswer, Fold;
    var samples := [x.sample, y.sample];
    TwoFolded(x, y);
    OneSnapshot(x.series, samples);
    OneChunk(x.series, samples);
    TableFitsIff(Fold([x, y]), [SeriesSnapshot(x.series, samples)]);
    assert ChunkAll([SeriesSnapshot(x.series, samples)])[0] == B.SegmentBlock(x.series, samples);
  }

  lemma TwoFolded(x: WalPutRecord, y: WalPutRecord)
    requires x.series == y.series
    ensures Fold([x, y]) == SamplesMap(x.series, [x.sample, y.sample])
    ensures PointOf(y) in Fold([x, y])
  {
    hide Fold, SamplesMap;
    FoldSnoc([], x);
    FoldSnoc([x], y);
    assert [] + [x] == [x] && [x] + [y] == [x, y];
    NothingFolded();
    TwoSamples(x.series, x.sample, y.sample);
  }

  lemma PutRun(states: seq<System>, events: seq<Event>, rs: Log, r: WalPutRecord)
    requires Run(states, events) && states[|events|] == After(rs) && Encodes(rs + [r])
    ensures Run(states + [During(rs, r), After(rs + [r])], events + [Internal, Acknowledged(r, Buffered)])
  {
    hide Next, Fresh, After, During, Encodes;
    PutSteps(rs, r);
    RunSnoc(states, events, Internal, During(rs, r));
    var more, seen := states + [During(rs, r)], events + [Internal];
    RunSnoc(more, seen, Acknowledged(r, Buffered), After(rs + [r]));
    assert more + [After(rs + [r])] == states + [During(rs, r), After(rs + [r])];
    assert seen + [Acknowledged(r, Buffered)] == events + [Internal, Acknowledged(r, Buffered)];
  }

  lemma EmptyRun() returns (states: seq<System>)
    ensures |states| == 3 && states[2] == After([]) && Run(states, [Internal, Internal])
  {
    hide Next, Run, After, OnlyLog;
    StartSteps();
    states := RunOfTwo(Stopped(DiskImage(None, 0, [], None, map[])), Stopped(OnlyLog([])), After([]));
  }

  lemma RunOfTwo(s0: System, s1: System, s2: System) returns (states: seq<System>)
    requires Fresh(s0) && Next(s0, Internal, s1) && Next(s1, Internal, s2)
    ensures |states| == 3 && states[2] == s2 && Run(states, [Internal, Internal])
  {
    hide Next, Fresh;
    states := [s0, s1, s2];
  }

  lemma RunOfPuts(x: WalPutRecord, y: WalPutRecord) returns (states: seq<System>, events: seq<Event>)
    requires Encodes([x, y])
    ensures Run(states, events) && states[|events|] == After([x, y])
    ensures events == [Internal, Internal, Internal, Acknowledged(x, Buffered), Internal, Acknowledged(y, Buffered)]
  {
    hide Run, After, During, WalRecord.Encode;
    assert [] + [x] == [x] && [x] + [y] == [x, y];
    assert WalRecord.Encode([x, y][0]).Success?;
    states := EmptyRun();
    PutRun(states, [Internal, Internal], [], x);
    states, events := states + [During([], x), After([x])],
      [Internal, Internal] + [Internal, Acknowledged(x, Buffered)];
    PutRun(states, events, [x], y);
    states, events := states + [During([x], y), After([x, y])],
      events + [Internal, Acknowledged(y, Buffered)];
  }

  /** Two acknowledged puts, and a table that is not empty and from which no flush can publish a segment. */
  lemma TwoPutsRefuseFlush() returns (states: seq<System>, events: seq<Event>, x: WalPutRecord, y: WalPutRecord)
    ensures Run(states, events)
    ensures events == [Internal, Internal, Internal, Acknowledged(x, Buffered), Internal, Acknowledged(y, Buffered)]
    ensures var s := states[|events|];
            s.Running? && s.phase == Idle && s.view.memtable != map[] && forall s1 :: !FlushPublish(s, s1)
  {
    hide Next, Fresh, Fold, BlockFits, Encodes, FlushPublish, TableFits;
    x, y := LongPuts();
    states, events := RunOfPuts(x, y);
    TwoDoNotFit(x, y);
    forall s1 | FlushPublish(states[|events|], s1)
      ensures false
    {
      PublishNeedsFit(states[|events|], s1);
    }
  }

  // ----- refused for good -----

  /**
    `kept` is a beginning of the log file that nothing but a flush can take away. If it is `safe`, every version of the
    file that a power failure may fall back on has it.
   */
  ghost predicate Pinned(s: System, kept: Bytes, safe: bool) {
    && kept <= WalBytes(s.disk)
    && (s.Running? ==>
          |kept| <= s.view.walSize && !s.phase.FlushPublished? && !s.phase.FlushCommitted? && !s.phase.FlushEmptied?)
    && (safe ==> forall k :: 0 <= k < |Versions(s.disk)| ==> VersionHas(Versions(s.disk)[k], kept))
  }

  predicate VersionHas(v: Version, kept: Bytes) {
    kept <= v.bytes && |kept| <= v.synced
  }

  /** What is recovered from a longer file includes what the kept part holds. */
  lemma KeptInTable(kept: Bytes, records: Log, w: Bytes)
    requires Clean(kept, records) && kept <= w
    ensures ParseWal(w).Replayed? ==> |kept| <= ParseWal(w).validBytes
    ensures Fold(records).Keys <= Fold(ParseWal(w).records).Keys
  {
    hide ParseWal, Fold;
    var more := w[|kept|..];
    assert w == kept + more;
    ParseAppend(kept, records, more);
    FoldConcat(records, ParseWal(more).records);
  }

  lemma StillRefused(s: System, l: LogState, kept: Bytes, records: Log, safe: bool)
    requires Related(s, l) && s.Running? && Pinned(s, kept, safe)
    requires Clean(kept, records) && !TableFits(Fold(records))
    ensures !TableFits(s.view.memtable) && forall s1 :: !FlushPublish(s, s1)
  {
    hide Sound, PhaseOk, EarlierTrack, WalTracks, SegmentContents, AllReadable, Fold, ParseWal, TableFits, Versions;
    var w := Settled(s.view, s.phase, s.disk);
    assert s.view.walSize == |w| && w <= WalBytes(s.disk) && s.view.memtable == Fold(ParseWal(w).records);
    KeptInTable(kept, records, w);
    if TableFits(s.view.memtable) {
      MoreNeverFits(Fold(records), s.view.memtable);
    }
    forall s1
      ensures !FlushPublish(s, s1)
    {
      if FlushPublish(s, s1) {
        PublishNeedsFit(s, s1);
      }
    }
  }

  lemma OneVersion(d: DiskImage)
    requires d.earlier == []
    ensures Versions(d) == [Version(WalBytes(d), d.synced)]
  {}

  /** The same versions, but for more bytes or more synced bytes in the present one. */
  lemma VersionsGrow(d: DiskImage, d': DiskImage, kept: Bytes)
    requires forall k :: 0 <= k < |Versions(d)| ==> VersionHas(Versions(d)[k], kept)
    requires d'.earlier == d.earlier && kept <= WalBytes(d') && d.synced <= d'.synced
    ensures forall k :: 0 <= k < |Versions(d')| ==> VersionHas(Versions(d')[k], kept)
  {
    assert VersionHas(Versions(d)[|d.earlier|], kept);
    forall k | 0 <= k < |Versions(d')|
      ensures VersionHas(Versions(d')[k], kept)
    {
      if k < |d.earlier| {
        assert Versions(d')[k] == Versions(d)[k];
      }
    }
  }

  lemma PinnedSynced(s: System, s': System, kept: Bytes, safe: bool)
    requires Pinned(s, kept, safe) && s'.disk == AfterSync(s.disk)
    requires s'.Running? ==> s'.phase == Idle && |kept| <= s'.view.walSize
    ensures Pinned(s', kept, safe)
  {
    OneVersion(s'.disk);
  }

  lemma PinnedPower(s: System, f: Option<WalPutRecord>, s': System, kept: Bytes)
    requires Pinned(s, kept, true) && LosePower(s, f, s')
    ensures Pinned(s', kept, true)
  {
    hide Temporary;
    var k: nat :| FallsBack(s.disk, WalBytes(s'.disk), k);
    assert VersionHas(Versions(s.disk)[k], kept);
    OneVersion(s'.disk);
  }

  lemma PinnedHalt(s: System, f: Option<WalPutRecord>, s': System, kept: Bytes, safe: bool)
    requires Pinned(s, kept, safe) && Halt(s, f, s')
    ensures Pinned(s', kept, safe)
  {
    if safe {
      VersionsGrow(s.disk, s'.disk, kept);
    }
  }

  lemma PinnedTruncate(s: System, s': System, kept: Bytes, records: Log, safe: bool)
    requires Pinned(s, kept, safe) && Clean(kept, records) && RecoverTruncate(s, s')
    ensures Pinned(s', kept, safe)
  {
    hide ParseWal;
    KeptInTable(kept, records, WalBytes(s.disk));
    if safe {
      var d := s'.disk;
      assert VersionHas(Versions(s.disk)[|s.disk.earlier|], kept);
      forall k | 0 <= k < |Versions(d)|
        ensures VersionHas(Versions(d)[k], kept)
      {
        if k <= |s.disk.earlier| {
          assert Versions(d)[k] == Versions(s.disk)[k];
        }
      }
    }
  }

  /** Steps that leave the log file and the size of the log alone. */
  lemma PinnedElsewhere(s: System, s': System, kept: Bytes, safe: bool)
    requires Pinned(s, kept, safe) && s'.disk.wal == s.disk.wal && s'.disk.synced == s.disk.synced
    requires s'.disk.earlier == s.disk.earlier
    requires s'.Running? ==>
               && |kept| <= s'.view.walSize
               && !s'.phase.FlushPublished? && !s'.phase.FlushCommitted? && !s'.phase.FlushEmptied?
    ensures Pinned(s', kept, safe)
  {
    if safe {
      VersionsGrow(s.disk, s'.disk, kept);
    }
  }

  lemma PinnedPut(s: System, r: WalPutRecord, s': System, kept: Bytes, safe: bool)
    requires Pinned(s, kept, safe) && PutAppend(s, r, s')
    ensures Pinned(s', kept, safe)
  {
    hide WalRecord.Encode;
    if safe {
      VersionsGrow(s.disk, s'.disk, kept);
    }
  }

  lemma PinnedFinish(s: System, r: WalPutRecord, durability: Durability, s': System, kept: Bytes, safe: bool)
    requires Pinned(s, kept, safe) && PutFinish(s, r, durability, s')
    ensures Pinned(s', kept, safe)
  {
    hide AllReadable, Versions, Visible;
    if durability == SyncOnAppend {
      PinnedSynced(s, s', kept, safe);
    } else {
      PinnedElsewhere(s, s', kept, safe);
    }
  }

  lemma PinnedCreate(s: System, s': System, kept: Bytes, safe: bool)
    requires Pinned(s, kept, safe) && RecoverCreateWal(s, s')
    ensures Pinned(s', kept, safe)
  {
    if safe {
      forall k | 0 <= k < |Versions(s'.disk)|
        ensures VersionHas(Versions(s'.disk)[k], kept)
      {
        assert VersionHas(Versions(s.disk)[k], kept);
      }
    }
  }

  lemma PinnedInternal(s: System, s': System, l: LogState, kept: Bytes, records: Log, safe: bool)
    requires Related(s, l) && Pinned(s, kept, safe) && InternalStep(s, s')
    requires Clean(kept, records) && !TableFits(Fold(records))
    ensures Pinned(s', kept, safe)
  {
    hide Related, TableFits, Fold, ParseWal, SegmentFor, M.Encode, Load, Versions, AllReadable, SegmentContents,
      OpensLive, PutAppend, RecoverCreateWal, RecoverTruncate, Removable, Temporary, NextName, ReplayedCount,
      CountPlausible;
    if s.Running? {
      StillRefused(s, l, kept, records, safe);
    }
    if r :| PutAppend(s, r, s') {
      PinnedPut(s, r, s', kept, safe);
    } else if RecoverCreateWal(s, s') {
      PinnedCreate(s, s', kept, safe);
    } else if RecoverTruncate(s, s') {
      PinnedTruncate(s, s', kept, records, safe);
    } else {
      PinnedElsewhere(s, s', kept, safe);
    }
  }

  lemma PinnedStep(s: System, e: Event, s': System, l: LogState, kept: Bytes, records: Log, safe: bool)
    requires Related(s, l) && Pinned(s, kept, safe) && Next(s, e, s') && (e.PowerLost? ==> safe)
    requires Clean(kept, records) && !TableFits(Fold(records))
    ensures Pinned(s', kept, safe)
  {
    hide Related, TableFits, Fold, ParseWal, InternalStep, Halt, LosePower, PutFinish, Versions;
    match e
    case Acknowledged(r, durability) => PinnedFinish(s, r, durability, s', kept, safe);
    case Synced => PinnedSynced(s, s', kept, safe);
    case Halted(f) => PinnedHalt(s, f, s', kept, safe);
    case PowerLost(f) => PinnedPower(s, f, s', kept);
    case Internal => PinnedInternal(s, s', l, kept, records, safe);
  }

  lemma {:induction false} PinnedAlong(states: seq<System>, events: seq<Event>, ls: seq<LogState>, i: nat, n: nat,
                                       kept: Bytes, records: Log, safe: bool)
    requires Follows(states, events, ls) && i <= n <= |events|
    requires Run(states, events)
    requires Pinned(states[i], kept, safe) && Clean(kept, records) && !TableFits(Fold(records))
    requires safe || forall j :: i <= j < n ==> !events[j].PowerLost?
    ensures Pinned(states[n], kept, safe)
    decreases n - i
  {
    hide Next, Fresh, Related, LogNext, Publishes, TableFits, Fold, ParseWal, Pinned;
    if i < n {
      PinnedAlong(states, events, ls, i, n - 1, kept, records, safe);
      PinnedStep(states[n - 1], events[n - 1], states[n], ls[n - 1], kept, records, safe);
    }
  }

  /**
    A table that is too large for a segment can never be flushed: not after further puts, syncs, compactions, halts and
    recoveries, and if the log was synced, not after power failures either.
   */
  lemma RefusedForGood(states: seq<System>, events: seq<Event>, i: nat, n: nat)
    requires Run(states, events) && i <= n <= |events|
    requires states[i].Running? && states[i].phase == Idle && !TableFits(states[i].view.memtable)
    requires WalSynced(states[i].disk) || forall j :: i <= j < n ==> !events[j].PowerLost?
    ensures states[n].Running? ==>
              !TableFits(states[n].view.memtable) && forall s1 :: !FlushPublish(states[n], s1)
  {
    hide Next, Fresh, Related, LogNext, Publishes, TableFits, Fold, FlushPublish, Pinned, ParseWal;
    var ls := RunFollows(states, events);
    var kept, safe := WalBytes(states[i].disk), WalSynced(states[i].disk);
    var records := ParseWal(kept).records;
    WholeLogPinned(states[i], ls[i]);
    PinnedAlong(states, events, ls, i, n, kept, records, safe);
    if states[n].Running? {
      StillRefused(states[n], ls[n], kept, records, safe);
    }
  }

  lemma WholeLogPinned(s: System, l: LogState)
    requires Related(s, l) && s.Running? && s.phase == Idle
    ensures var kept := WalBytes(s.disk);
            && Pinned(s, kept, WalSynced(s.disk)) && Clean(kept, ParseWal(kept).records)
            && s.view.memtable == Fold(ParseWal(kept).records)
  {
    hide Sound, EarlierTrack, WalTracks, SegmentContents, AllReadable, Fold, ParseWal;
    if WalSynced(s.disk) {
      OneVersion(s.disk);
    }
  }
}
