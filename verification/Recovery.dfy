/**
  Opening a database: `StorageEngine::recover` and the constructor.

  On a volume whose run is recorded, opening fails only when the operating system does: no check on the manifest, the
  segments or the write-ahead log can fire. Whatever happens, what the database shows stays the same.
 */
module Recovery {
  import opened Prelude
  import opened WalRecord
  import opened WalRecovery
  import opened F = SegmentFormat
  import opened Contents
  import opened SegmentReaders
  import opened SegmentNames
  import opened M = Manifest
  import opened MemTables
  import opened Overlay
  import opened Disk
  import opened Protocol
  import opened ProtocolInvariant
  import opened CrashSafety
  import opened ReachableStates
  import opened WalFile
  import opened EngineSteps
  import opened StorageEngines

  /** A step of recovery, which leaves what the database shows as it is. */
  ghost method RecordRecovery(volume: Volume, e: Event, s: System)
    requires volume.Recorded() && (e == Internal || e == Synced) && Next(volume.Now(), e, s)
    modifies volume`states, volume`events
    ensures volume.Recorded() && volume.Now() == s && volume.events == old(volume.events) + [e]
    ensures Quietly(old(volume.events), volume.events)
    ensures Keeps(old(volume.Now()), volume.Now())
  {
    hide Run, Next, Shows, Reachable;
    NowReachable(volume.states, volume.events);
    forall c | Shows(volume.Now(), c)
      ensures Shows(s, c)
    {
      StepShows(volume.Now(), e, s, c);
    }
    volume.Record(e, s);
  }

  /** Whatever `s` shows, `s'` shows. */
  ghost predicate Keeps(s: System, s': System) {
    forall c :: Shows(s, c) ==> Shows(s', c)
  }

  // ----- segments -----

  /** Opens the live segments in order. Only reading can fail. */
  method OpenSegments(volume: Volume, manifest: ManifestState, ghost live: seq<SegmentReader>)
    returns (segments: Option<seq<SegmentReader>>, physical: nat)
    requires OpensLive(volume.image, manifest, live)
    modifies volume`faults
    ensures volume.faults == old(volume.faults) + if segments.None? then 1 else 0
    ensures segments.Some? ==> segments.value == live && physical == PhysicalSamples(live)
  {
    hide Open, TotalSamples;
    var readers: seq<SegmentReader> := [];
    physical := 0;
    for i := 0 to |manifest.segmentFiles|
      invariant readers == live[..i] && physical == PhysicalSamples(readers) && volume.faults == old(volume.faults)
    {
      var content := volume.ReadFile(manifest.segmentFiles[i]);
      if content.None? {
        return None, physical;
      }
      var reader := OpenSegment(content.value);
      if reader.Failure? {
        assert false;
      }
      readers := readers + [reader.value];
      assert readers[..i] == live[..i];
      physical := physical + reader.value.sampleCount;
    }
    segments := Some(readers);
  }

  /** What opening may remove, by its bytes: a temporary of a segment, or a segment that is not live. */
  predicate Stale(live: seq<Name>, name: Name) {
    TemporaryByName(name) || (SegmentByName(name) && name !in live)
  }

  lemma StaleIsRemovable(m: ManifestState)
    ensures forall n :: Removable(m, n) <==> Stale(m.segmentFiles, n)
  {
    hide LooksLikeSegment, LooksLikeTemporary, SegmentByName, TemporaryByName;
    forall n
      ensures Removable(m, n) <==> Stale(m.segmentFiles, n)
    {
      KindsByName(n);
    }
  }

  /** Nothing but stale files is gone, and what is there is as it was. */
  ghost predicate OnlyStaleGone(d: DiskImage, d': DiskImage, live: seq<Name>) {
    && d'.manifest == d.manifest
    && (forall n :: n in d'.files ==> n in d.files && d'.files[n] == d.files[n])
    && (forall n :: n in d.files && !Stale(live, n) ==> n in d'.files)
  }

  /** Every stale file is gone but those whose removal was refused. */
  ghost predicate NoStaleLeft(d: DiskImage, live: seq<Name>, refused: seq<Name>) {
    forall n :: n in d.files && Stale(live, n) ==> n in refused
  }

  /** What has been visited is either kept or was stale; what is stale is gone or was refused. */
  ghost predicate SweptUpTo(d: DiskImage, d': DiskImage, live: seq<Name>, remaining: set<Name>, refused: seq<Name>) {
    && d' == d.(files := d'.files) && remaining <= d'.files.Keys && OnlyStaleGone(d, d', live)
    && (forall n :: n in d'.files && n !in remaining && Stale(live, n) ==> n in refused)
    && (forall n :: n in refused ==> n in d'.files && n !in remaining && Stale(live, n))
  }

  /**
    Removes orphan segments and stale temporaries, as far as that is possible. The listing ends early if reading the
    directory fails.
   */
  method CleanUp(volume: Volume, manifest: ManifestState) returns (ok: bool)
    modifies volume`image, volume`faults, volume`refused, volume`loose
    ensures volume.faults == old(volume.faults) + if ok then 0 else 1
    ensures volume.image == old(volume.image).(files := volume.image.files)
    ensures OnlyStaleGone(old(volume.image), volume.image, manifest.segmentFiles)
    ensures old(volume.refused) <= volume.refused
    ensures var refused := volume.refused[|old(volume.refused)|..];
            && (forall n :: n in refused ==> n in volume.image.files && Stale(manifest.segmentFiles, n))
            && (ok ==> NoStaleLeft(volume.image, manifest.segmentFiles, refused))
  {
    hide Removable, Stale;
    StaleIsRemovable(manifest);
    ghost var start := |volume.refused|;
    var remaining := volume.image.files.Keys;
    ok := volume.Call();
    while ok && remaining != {}
      invariant old(volume.refused) <= volume.refused
      invariant SweptUpTo(old(volume.image), volume.image, manifest.segmentFiles, remaining, volume.refused[start..])
      invariant volume.faults == old(volume.faults) + if ok then 0 else 1
      decreases |remaining|
    {
      var name :| name in remaining;
      remaining := remaining - {name};
      ghost var listed := volume.refused;
      if Removable(manifest, name) {
        volume.Remove(name);
        assert (listed + [name])[start..] == listed[start..] + [name];
      }
      ok := volume.Call();
    }
  }

  // ----- the write-ahead log -----

  /** Puts the records back into a memtable, counting those whose point was not there yet. */
  method Rebuild(records: seq<WalPutRecord>, segments: seq<SegmentReader>, stored: nat)
    returns (memtable: MemTable, count: nat)
    requires AllReadable(segments)
    ensures fresh(memtable) && memtable.Valid() && memtable.Points() == Fold(records)
    ensures count == ReplayedCount(stored, SegmentContents(segments), records)
  {
    hide SegmentContents, AllReadable, MemTable.Points, MemTable.Valid;
    memtable := new MemTable();
    count := stored;
    for i := 0 to |records|
      invariant fresh(memtable) && memtable.Valid() && memtable.Points() == Fold(records[..i])
      invariant count == ReplayedCount(stored, SegmentContents(segments), records[..i])
    {
      var r := records[i];
      assert records[..i + 1][..i] == records[..i];
      var known := memtable.Get(r.series, r.sample.timestamp);
      if known.None? {
        known := FindInSegments(segments, r.series, r.sample.timestamp);
      }
      memtable.Put(r.series, r.sample);
      if known.None? {
        count := count + 1;
      }
    }
    assert records[..|records|] == records;
  }

  /** The records replayed are all of the log, and safe if anything had to be cut off or created. */
  ghost predicate Repaired(d: DiskImage, d': DiskImage) {
    var replay := ParseWal(WalBytes(d));
    && replay.Replayed? && replay.validBytes <= |WalBytes(d)|
    && d'.wal == Some(WalBytes(d)[..replay.validBytes])
    && (d.wal.None? || replay.tailBytes != 0 ==> WalSynced(d'))
    && (d.wal.Some? && replay.tailBytes == 0 ==> d'.wal == d.wal && d'.synced == d.synced && d'.earlier == d.earlier)
  }

  /** Cuts off the incomplete tail and syncs. */
  method RepairLog(volume: Volume, replay: Replay) returns (ok: bool)
    requires volume.Recorded() && volume.Now() == Stopped(volume.image) && volume.image.wal.Some?
    requires replay == ParseWal(WalBytes(volume.image)) && replay.Replayed?
    modifies volume`image, volume`faults, volume`loose, volume`states, volume`events
    ensures volume.Recorded() && volume.Now() == Stopped(volume.image) && Quietly(old(volume.events), volume.events)
    ensures volume.faults == old(volume.faults) + if ok then 0 else 1
    ensures Keeps(old(volume.Now()), volume.Now()) && OnlyLogTouched(old(volume.image), volume.image)
    ensures ok ==> Repaired(old(volume.image), volume.image) && Clean(WalBytes(volume.image), replay.records)
    ensures ok && replay.tailBytes != 0 ==>
              WalSynced(volume.image) && volume.events == old(volume.events) + [Internal, Synced]
    ensures replay.tailBytes == 0 ==> ok && volume.image == old(volume.image) && volume.events == old(volume.events)
  {
    hide Run, Shows, ParseWal, InternalStep;
    ghost var d := volume.image;
    RepairedIsClean(WalBytes(d));
    ReplayAccounts(WalBytes(d));
    if replay.tailBytes == 0 {
      assert WalBytes(d)[..replay.validBytes] == WalBytes(d);
      return true;
    }
    if |WalBytes(volume.image)| != replay.validBytes + replay.tailBytes {
      assert false;
    }
    ok := volume.TruncateLog(replay.validBytes);
    if !ok {
      return;
    }
    TruncateStep(d, volume.image);
    RecordRecovery(volume, Internal, Stopped(volume.image));
    ok := volume.OpenLog();
    if !ok {
      return;
    }
    ok := volume.SyncLog();
    if !ok {
      return;
    }
    assert RecoverSync(volume.Now(), Stopped(volume.image));
    ghost var e := volume.events;
    RecordRecovery(volume, Synced, Stopped(volume.image));
    QuietTrans(old(volume.events), e, volume.events);
  }

  lemma TruncateStep(d: DiskImage, d': DiskImage)
    requires d.wal.Some? && ParseWal(WalBytes(d)).Replayed? && ParseWal(WalBytes(d)).tailBytes != 0
    requires var valid := ParseWal(WalBytes(d)).validBytes;
             valid <= |WalBytes(d)| && d' == Truncate(d, valid)
    ensures Next(Stopped(d), Internal, Stopped(d'))
  {
    hide ParseWal;
    assert RecoverTruncate(Stopped(d), Stopped(d'));
  }

  // ----- opening -----

  /** Manifest, live segments and cleanup. */
  method LoadSegments(volume: Volume)
    returns (loaded: Option<(ManifestState, seq<SegmentReader>)>)
    requires volume.Recorded() && volume.Now() == Stopped(volume.image)
    modifies volume`image, volume`faults, volume`refused, volume`loose, volume`states, volume`events
    ensures volume.Recorded() && volume.Now() == Stopped(volume.image) && Quietly(old(volume.events), volume.events)
    ensures volume.faults == old(volume.faults) + if loaded.None? then 1 else 0
    ensures Keeps(old(volume.Now()), volume.Now())
    ensures volume.image == old(volume.image).(files := volume.image.files)
    ensures OnlyStaleGone(old(volume.image), volume.image, LiveFiles(volume.image.manifest))
    ensures old(volume.refused) <= volume.refused
    ensures loaded.Some? ==>
              NoStaleLeft(volume.image, LiveFiles(volume.image.manifest), volume.refused[|old(volume.refused)|..])
    ensures loaded.Some? ==>
              var (manifest, segments) := loaded.value;
              && Load(volume.image.manifest) == Success(manifest) && OpensLive(volume.image, manifest, segments)
              && AllReadable(segments) && CountPlausible(manifest, segments)
              && manifest.logicalSampleCount == |SegmentContents(segments)|
  {
    hide Run, Shows, Load, OpensLive, AllReadable, SegmentContents, PhysicalSamples, Reachable, Stale, ParseWal;
    ghost var d := volume.image;
    NowReachable(volume.states, volume.events);
    ghost var m, live := RecoveryNeverRefuses(volume.Now());
    var stored := volume.ReadManifest();
    if stored.None? {
      return None;
    }
    var manifest := LoadManifest(stored.value);
    if manifest.Failure? {
      assert false;
    }
    var segments, physical := OpenSegments(volume, manifest.value, live);
    if segments.None? {
      return None;
    }
    var ok := CleanUp(volume, manifest.value);
    CleanupStep(d, volume.image, m);
    RecordRecovery(volume, Internal, Stopped(volume.image));
    if !ok {
      return None;
    }
    if manifest.value.logicalSampleCount > physical
       || (segments.value == [] && manifest.value.logicalSampleCount != 0) {
      assert false;
    }
    NowReachable(volume.states, volume.events);
    StillLive(volume.image, m, d, live);
    loaded := Some((manifest.value, segments.value));
  }

  lemma CleanupStep(d: DiskImage, d': DiskImage, m: ManifestState)
    requires Load(d.manifest) == Success(m) && d' == d.(files := d'.files) && OnlyStaleGone(d, d', m.segmentFiles)
    ensures Next(Stopped(d), Internal, Stopped(d'))
  {
    hide Load, Removable, Stale;
    StaleIsRemovable(m);
    assert RecoverCleanup(Stopped(d), Stopped(d'));
  }

  /** Cleanup leaves the live files, so the opened segments are still the live ones. */
  lemma StillLive(d': DiskImage, m: ManifestState, d: DiskImage, live: seq<SegmentReader>)
    requires Reachable(Stopped(d')) && Load(d'.manifest) == Success(m) && OpensLive(d, m, live)
    requires AllReadable(live)
    requires forall n :: n in d'.files && n in d.files ==> d'.files[n] == d.files[n]
    ensures OpensLive(d', m, live) && m.logicalSampleCount == |SegmentContents(live)|
  {
    hide Load, Open, SegmentContents, AllReadable, Reachable, WalTracks, GenerationUpTo;
    var l := ReachableRelated(Stopped(d'));
    var n, segments := SoundHere(Stopped(d'), l);
    forall i | 0 <= i < |live|
      ensures segments[i] == live[i]
    {
      assert segments[i].content == live[i].content;
    }
    assert segments == live;
  }

  /** What recovery has put together before the engine is built. */
  datatype Recovered = Recovered(manifest: ManifestState, segments: seq<SegmentReader>, memtable: MemTable,
                                 sampleCount: nat, walSize: nat)

  ghost predicate Complete(d: DiskImage, v: EngineView) {
    && d.wal.Some? && v.walSize == |WalBytes(d)|
    && Load(d.manifest) == Success(v.manifest) && OpensLive(d, v.manifest, v.segments) && AllReadable(v.segments)
    && CountPlausible(v.manifest, v.segments)
    && Clean(WalBytes(d), ParseWal(WalBytes(d)).records)
    && v.memtable == Fold(ParseWal(WalBytes(d)).records)
    && v.sampleCount == ReplayedCount(v.manifest.logicalSampleCount, SegmentContents(v.segments),
                                      ParseWal(WalBytes(d)).records)
  }

  lemma FinishStep(d: DiskImage, v: EngineView)
    requires Complete(d, v)
    ensures Next(Stopped(d), Internal, Running(v, Idle, d))
  {
    hide Load, OpensLive, AllReadable, SegmentContents, ParseWal, Fold, CountPlausible, ReplayedCount;
    assert RecoverFinish(Stopped(d), Running(v, Idle, d));
  }

  /** A database without a log gets an empty one, synced. */
  method CreateLog(volume: Volume) returns (ok: bool)
    requires volume.Recorded() && volume.Now() == Stopped(volume.image) && volume.image.wal.None?
    modifies volume`image, volume`faults, volume`loose, volume`states, volume`events
    ensures volume.Recorded() && volume.Now() == Stopped(volume.image) && Quietly(old(volume.events), volume.events)
    ensures volume.faults == old(volume.faults) + if ok then 0 else 1
    ensures Keeps(old(volume.Now()), volume.Now()) && OnlyLogTouched(old(volume.image), volume.image)
    ensures ok ==> volume.image.wal == Some([]) && Repaired(old(volume.image), volume.image)
    ensures ok ==> volume.events == old(volume.events) + [Internal, Synced]
  {
    hide Run, Shows;
    CleanEmpty();
    ok := volume.OpenLog();
    if !ok {
      return;
    }
    assert RecoverCreateWal(volume.Now(), Stopped(volume.image));
    RecordRecovery(volume, Internal, Stopped(volume.image));
    ok := volume.SyncLog();
    if ok {
      assert RecoverSync(volume.Now(), Stopped(volume.image));
      ghost var e := volume.events;
      RecordRecovery(volume, Synced, Stopped(volume.image));
      QuietTrans(old(volume.events), e, volume.events);
    }
  }

  /** Replays the log into a new memtable and repairs its tail. */
  method ReplayLog(volume: Volume, manifest: ManifestState, segments: seq<SegmentReader>, ghost durability: Durability)
    returns (recovered: Option<Recovered>)
    requires volume.Recorded() && volume.Now() == Stopped(volume.image) && volume.image.wal.Some?
    requires Load(volume.image.manifest) == Success(manifest) && OpensLive(volume.image, manifest, segments)
    requires AllReadable(segments) && CountPlausible(manifest, segments)
    modifies volume`image, volume`faults, volume`loose, volume`states, volume`events
    ensures volume.Recorded() && volume.Now() == Stopped(volume.image) && Quietly(old(volume.events), volume.events)
    ensures volume.faults == old(volume.faults) + if recovered.None? then 1 else 0
    ensures Keeps(old(volume.Now()), volume.Now()) && OnlyLogTouched(old(volume.image), volume.image)
    ensures recovered.Some? ==> Rebuilt(volume.image, recovered.value, durability) && fresh(recovered.value.memtable)
    ensures recovered.Some? ==> Repaired(old(volume.image), volume.image)
  {
    hide Run, Shows, WalSynced, Load, OpensLive, AllReadable, SegmentContents, ParseWal, Fold, CountPlausible,
      ReplayedCount, MemTable.Points, MemTable.Valid, Reachable;
    NowReachable(volume.states, volume.events);
    ghost var _, _ := RecoveryNeverRefuses(volume.Now());
    var content := volume.ReadLog();
    if content.None? {
      return None;
    }
    var input := new WalInput(content.value);
    var replay := ReplayWal(input);
    if replay.Corrupt? {
      assert false;
    }
    var memtable, count := Rebuild(replay.records, segments, manifest.logicalSampleCount);
    var ok := RepairLog(volume, replay);
    if !ok {
      return None;
    }
    OpensLiveFrame(old(volume.image), volume.image, manifest, segments);
    recovered := Some(Recovered(manifest, segments, memtable, count, replay.validBytes));
  }

  lemma OpensLiveFrame(d: DiskImage, d': DiskImage, m: ManifestState, segments: seq<SegmentReader>)
    requires OpensLive(d, m, segments) && d'.files == d.files
    ensures OpensLive(d', m, segments)
  {}

  ghost predicate Rebuilt(d: DiskImage, r: Recovered, durability: Durability)
    reads r.memtable
  {
    && r.memtable.Valid()
    && Complete(d, EngineView(durability, r.memtable.Points(), r.manifest, r.segments, r.sampleCount, r.walSize))
  }

  method Recover(volume: Volume, ghost durability: Durability) returns (recovered: Option<Recovered>)
    requires volume.Recorded() && volume.Now() == Stopped(volume.image)
    modifies volume`image, volume`faults, volume`refused, volume`loose, volume`states, volume`events
    ensures volume.Recorded() && volume.Now() == Stopped(volume.image) && Quietly(old(volume.events), volume.events)
    ensures volume.faults == old(volume.faults) + if recovered.None? then 1 else 0
    ensures Keeps(old(volume.Now()), volume.Now())
    ensures recovered.Some? ==> Rebuilt(volume.image, recovered.value, durability) && fresh(recovered.value.memtable)
    ensures OnlyStaleGone(old(volume.image), volume.image, LiveFiles(volume.image.manifest))
    ensures old(volume.refused) <= volume.refused
    ensures recovered.Some? ==>
              && Repaired(old(volume.image), volume.image)
              && NoStaleLeft(volume.image, LiveFiles(volume.image.manifest), volume.refused[|old(volume.refused)|..])
  {
    hide Run, Shows, Load, OpensLive, AllReadable, SegmentContents, ParseWal, CountPlausible, ReplayedCount, Quiet,
      MemTable.Points, MemTable.Valid, Stale, LiveFiles, WalSynced;
    var loaded := LoadSegments(volume);
    if loaded.None? {
      return None;
    }
    var (manifest, segments) := loaded.value;
    var found := volume.LogExists();
    if found.None? {
      return None;
    }
    ghost var e, s := volume.events, volume.Now();
    if !found.value {
      var ok := CreateLog(volume);
      QuietTrans(old(volume.events), e, volume.events);
      if !ok {
        return None;
      }
      var memtable := new MemTable();
      OpensLiveFrame(s.disk, volume.image, manifest, segments);
      EmptyReplay(manifest.logicalSampleCount, SegmentContents(segments));
      recovered := Some(Recovered(manifest, segments, memtable, manifest.logicalSampleCount, 0));
    } else {
      recovered := ReplayLog(volume, manifest, segments, durability);
      QuietTrans(old(volume.events), e, volume.events);
    }
  }

  lemma EmptyReplay(stored: nat, base: Contents)
    ensures Clean([], []) && Fold([]) == map[] && ReplayedCount(stored, base, []) == stored
  {
    CleanEmpty();
  }

  /**
    Success is an engine that shows exactly what the disk held. A failure is one of the operating system, and leaves
    what the disk held. Either way only stale files go. After success all of them are gone that the operating system
    lets go, and if the log was incomplete or missing, a power failure right away takes nothing.
   */
  method OpenDatabase(volume: Volume, durability: Durability) returns (r: Result<StorageEngine, EngineError>)
    requires volume.Recorded() && volume.Published() && volume.Now() == Stopped(volume.image)
    modifies volume`image, volume`faults, volume`refused, volume`loose, volume`states, volume`events
    ensures volume.Recorded() && volume.Published() && Quietly(old(volume.events), volume.events)
    ensures volume.faults == old(volume.faults) + if r.Failure? then 1 else 0
    ensures Keeps(old(volume.Now()), volume.Now())
    ensures r.Failure? ==> volume.Now() == Stopped(volume.image)
    ensures r.Success? ==> r.value.Valid() && !r.value.failed && r.value.volume == volume
    ensures r.Success? ==> r.value.wal.durability == durability
    ensures r.Success? ==> fresh(r.value) && fresh(r.value.memtable) && fresh(r.value.wal)
    ensures OnlyStaleGone(old(volume.image), volume.image, LiveFiles(volume.image.manifest))
    ensures old(volume.refused) <= volume.refused
    ensures r.Success? ==>
              && Repaired(old(volume.image), volume.image)
              && NoStaleLeft(volume.image, LiveFiles(volume.image.manifest), volume.refused[|old(volume.refused)|..])
    ensures r.Success? && (old(volume.image).wal.None? || ParseWal(WalBytes(old(volume.image))).tailBytes != 0) ==>
              WalSynced(volume.image) && SurvivesPowerLoss(volume.Now())
  {
    hide Run, Shows, Load, OpensLive, AllReadable, SegmentContents, ParseWal, CountPlausible, ReplayedCount, Quiet,
      MemTable.Points, MemTable.Valid, OnlyStaleGone, NoStaleLeft, LiveFiles, WalSynced, SurvivesPowerLoss, Reachable,
      Clean, Fold, InternalStep, Next, Fresh;
    var recovered := Recover(volume, durability);
    if recovered.None? {
      return Failure(RecoveryFailed);
    }
    var parts := recovered.value;
    var ok := volume.OpenLog();
    if !ok {
      return Failure(RecoveryFailed);
    }
    var writer := new WalWriter(volume, durability);
    if writer.sizeBytes != parts.walSize {
      assert false;
    }
    ghost var e, v := volume.events,
      EngineView(durability, parts.memtable.Points(), parts.manifest, parts.segments, parts.sampleCount, writer.sizeBytes);
    FinishStep(volume.image, v);
    RecordRecovery(volume, Internal, Running(v, Idle, volume.image));
    QuietTrans(old(volume.events), e, volume.events);
    if WalSynced(volume.image) {
      NowReachable(volume.states, volume.events);
      SyncedSurvives(volume.Now());
    }
    var engine := new StorageEngine(volume, parts.memtable, writer, parts.manifest, parts.segments, parts.sampleCount);
    r := Success(engine);
  }
}
