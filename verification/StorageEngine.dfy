/**
  The storage engine.

  Every method is tied to the machine of module `Protocol`: it records on the volume the steps it takes, so whatever
  is proved of all runs holds of the engine. `Points` is the one map that every query is answered from. A method fails
  exactly when a size limit is reached or a system call fails, which the volume's `faults` count.
 */
module StorageEngines {
  import opened Prelude
  import opened Orders
  import opened Model
  import opened WalRecord
  import opened WalRecovery
  import opened F = SegmentFormat
  import opened SegmentFile
  import opened Contents
  import opened SegmentReaders
  import opened SegmentNames
  import opened M = Manifest
  import opened MemTables
  import opened Chunking
  import opened Flushable
  import opened FlushRefusal
  import opened Overlay
  import opened OverlayAnswers
  import opened Disk
  import opened Protocol
  import opened ProtocolInvariant
  import ProtocolSteps
  import opened CrashSafety
  import opened ReachableStates
  import opened WalFile
  import opened EngineSteps

  datatype EngineError =
    | EngineFailed
    | InvalidRange
    | AppendFailed(wal: WalError)
    | SyncFailed
    | GenerationExhausted
    | SegmentTooLarge
    | SegmentNotWritten
    | ManifestRefused
    | ManifestNotStored
    | ResetFailed
    | RecoveryFailed

  /** Why a new segment cannot be had. */
  predicate PublishError(e: EngineError) {
    e == GenerationExhausted || e == SegmentTooLarge || e == SegmentNotWritten
  }

  /** Why it cannot be made live. */
  predicate CommitError(e: EngineError) {
    e == ManifestRefused || e == ManifestNotStored
  }

  /** Newest segment first; `get` and `contains_in_segments` both search this way. */
  method FindInSegments(segments: seq<SegmentReader>, series: SeriesKey, timestamp: i64) returns (r: Option<Sample>)
    requires AllReadable(segments)
    ensures r == GetAnswer(SegmentContents(segments), series, timestamp)
  {
    hide SegmentContents, AllReadable, SegmentReader.Valid, SegmentReader.Readable, SegmentReader.Points, GetAnswer;
    var i := |segments|;
    assert segments[..i] == segments;
    while i > 0
      invariant i <= |segments| && AllReadable(segments[..i])
      invariant GetAnswer(SegmentContents(segments), series, timestamp)
             == GetAnswer(SegmentContents(segments[..i]), series, timestamp)
    {
      i := i - 1;
      OneMoreLayer(segments, i);
      GetOverlay(SegmentContents(segments[..i]), segments[i].Points(), series, timestamp);
      var found := segments[i].Get(series, timestamp);
      if found.value.Some? {
        return found.value;
      }
    }
    NothingToGet(series, timestamp);
    assert segments[..0] == [];
    r := None;
  }

  class StorageEngine {
    const volume: Volume
    const memtable: MemTable
    const wal: WalWriter
    var manifest: ManifestState
    var segments: seq<SegmentReader>
    var sampleCount: nat
    var failed: bool

    ghost function View(): EngineView
      reads this, memtable, wal
    {
      EngineView(wal.durability, memtable.Points(), manifest, segments, sampleCount, wal.sizeBytes)
    }

    ghost predicate Parts()
      reads this, volume, memtable, wal
    {
      && wal.volume == volume && memtable.Valid() && wal.Valid() && volume.Recorded() && volume.Published()
    }

    /** The operation in progress has got to `phase`. */
    ghost predicate At(phase: Phase)
      reads this, volume, memtable, wal
    {
      Parts() && !failed && !wal.failed && volume.Now() == Running(View(), phase, volume.image)
    }

    /** The state is the last one of a recorded run: between operations while usable, stopped once failed. */
    ghost predicate Valid()
      reads this, volume, memtable, wal
    {
      && Parts()
      && (failed ==> volume.Now() == Stopped(volume.image))
      && (!failed ==> At(Idle) && AllReadable(segments))
    }

    ghost function Points(): Contents
      requires AllReadable(segments)
      reads this, memtable, wal
    {
      Visible(View())
    }

    /** Takes over the parts that recovery has rebuilt. */
    constructor (volume: Volume, memtable: MemTable, wal: WalWriter, manifest: ManifestState,
                 segments: seq<SegmentReader>, sampleCount: nat)
      requires wal.volume == volume && memtable.Valid() && wal.Valid() && !wal.failed
      requires volume.Recorded() && volume.Published() && AllReadable(segments)
      requires volume.Now() == Running(EngineView(wal.durability, memtable.Points(), manifest, segments, sampleCount,
                                                  wal.sizeBytes), Idle, volume.image)
      ensures Valid() && !failed && this.volume == volume && this.memtable == memtable && this.wal == wal
      ensures this.segments == segments && View() == volume.Now().view
    {
      this.volume := volume;
      this.memtable := memtable;
      this.wal := wal;
      this.manifest := manifest;
      this.segments := segments;
      this.sampleCount := sampleCount;
      failed := false;
    }

    // ----- queries -----

    method Contains(series: SeriesKey, timestamp: i64) returns (found: bool)
      requires Valid() && !failed
      ensures found <==> (series, timestamp) in Points()
    {
      hide SegmentContents, AllReadable, Run;
      var inMemory := memtable.Get(series, timestamp);
      if inMemory.Some? {
        return true;
      }
      var stored := FindInSegments(segments, series, timestamp);
      found := stored.Some?;
    }

    method Get(series: SeriesKey, timestamp: i64) returns (r: Result<Option<Sample>, EngineError>)
      requires Valid()
      ensures failed ==> r == Failure(EngineFailed)
      ensures !failed ==> r == Success(GetAnswer(Points(), series, timestamp))
    {
      hide SegmentContents, AllReadable, Run;
      if failed {
        return Failure(EngineFailed);
      }
      var inMemory := memtable.Get(series, timestamp);
      if inMemory.Some? {
        return Success(inMemory);
      }
      var stored := FindInSegments(segments, series, timestamp);
      r := Success(stored);
    }

    method Latest(series: SeriesKey) returns (r: Result<Option<Sample>, EngineError>)
      requires Valid()
      ensures failed ==> r == Failure(EngineFailed)
      ensures !failed ==> r.Success? && LatestAnswer(Points(), series, r.value)
    {
      hide SegmentContents, AllReadable, Run, LatestAnswer, SegmentReader.Valid, SegmentReader.Readable,
        SegmentReader.Points;
      if failed {
        return Failure(EngineFailed);
      }
      var result: Option<Sample> := None;
      NoLatest(series);
      assert segments[..0] == [];
      for i := 0 to |segments|
        invariant AllReadable(segments[..i])
        invariant LatestAnswer(SegmentContents(segments[..i]), series, result)
      {
        OneMoreLayer(segments, i);
        var candidate := segments[i].Latest(series);
        LatestOverlay(SegmentContents(segments[..i]), segments[i].Points(), series, result, candidate.value);
        result := Later(result, candidate.value);
      }
      assert segments[..|segments|] == segments;
      var memory := memtable.Latest(series);
      LatestOverlay(SegmentContents(segments), memtable.Points(), series, result, memory);
      r := Success(Later(result, memory));
    }

    /** Half-open. */
    method Range(series: SeriesKey, start: i64, end: i64) returns (r: Result<seq<Sample>, EngineError>)
      requires Valid()
      ensures failed ==> r == Failure(EngineFailed)
      ensures !failed ==> (r == Failure(EngineError.InvalidRange) <==> end < start) && (r.Failure? ==> end < start)
      ensures !failed && start <= end ==> RangeAnswer(Points(), series, start, end, r.value)
    {
      hide SegmentContents, AllReadable, Run, RangeAnswer, RangeMap, SegmentReader.Valid, SegmentReader.Readable,
        SegmentReader.Points;
      if failed {
        return Failure(EngineFailed);
      }
      if end < start {
        return Failure(EngineError.InvalidRange);
      }
      var merged: SamplesByTimestamp := map[];
      NoRange(series, start, end);
      assert segments[..0] == [];
      for i := 0 to |segments|
        invariant AllReadable(segments[..i])
        invariant RangeMap(SegmentContents(segments[..i]), series, start, end, merged)
      {
        OneMoreLayer(segments, i);
        var found := segments[i].Range(series, start, end);
        merged := MergeRange(merged, SegmentContents(segments[..i]), segments[i].Points(), series, start, end,
                             found.value);
      }
      assert segments[..|segments|] == segments;
      var recent := memtable.Range(series, start, end);
      merged := MergeRange(merged, SegmentContents(segments), memtable.Points(), series, start, end, recent.value);
      var samples := SamplesOf(merged);
      RangeMapAnswer(Points(), series, start, end, merged, samples);
      r := Success(samples);
    }

    method Series() returns (r: Result<seq<SeriesKey>, EngineError>)
      requires Valid()
      ensures failed ==> r == Failure(EngineFailed)
      ensures !failed ==> r.Success? && SeriesAnswer(Points(), r.value) && InKeyOrder(r.value)
    {
      hide InKeyOrder, SegmentContents, AllReadable, Run, InSeries, KeyLess, SegmentReader.Valid,
        SegmentReader.Readable, SegmentReader.Points;
      if failed {
        return Failure(EngineFailed);
      }
      var unique: set<SeriesKey> := {};
      NoSeries();
      assert segments[..0] == [];
      for i := 0 to |segments|
        invariant AllReadable(segments[..i])
        invariant forall s :: s in unique <==> InSeries(SegmentContents(segments[..i]), s)
      {
        OneMoreLayer(segments, i);
        ghost var below := unique;
        for k := 0 to |segments[i].index|
          invariant forall s ::
                      s in unique <==> s in below || exists j :: 0 <= j < k && segments[i].index[j].series == s
        {
          unique := unique + {segments[i].index[k].series};
        }
        forall s
          ensures s in unique <==> InSeries(SegmentContents(segments[..i + 1]), s)
        {
          IndexNamesSeries(segments[i], s);
          SeriesOverlay(SegmentContents(segments[..i]), segments[i].Points(), s);
        }
      }
      assert segments[..|segments|] == segments;
      var recent := memtable.SeriesList();
      var all := unique + (set s | s in recent);
      forall s
        ensures s in all <==> InSeries(Points(), s)
      {
        SeriesOverlay(SegmentContents(segments), memtable.Points(), s);
      }
      KeyOrder();
      var ordered := InOrder(KeyLess, all);
      SortedInKeyOrder(ordered);
      r := Success(ordered);
    }

    /** The count kept while writing is the number of distinct points. */
    method SampleCount() returns (r: Result<nat, EngineError>)
      requires Valid()
      ensures failed ==> r == Failure(EngineFailed)
      ensures !failed ==> r == Success(|Points()|)
    {
      hide Run, SegmentContents;
      if failed {
        return Failure(EngineFailed);
      }
      Exact();
      r := Success(sampleCount);
    }

    /** The invariant of all reachable states, seen from the engine. */
    lemma Exact()
      requires At(Idle)
      ensures AllReadable(segments) && sampleCount == |Points()|
      ensures manifest.logicalSampleCount == |SegmentContents(segments)| && manifest.generation <= U64_MAX
      ensures volume.image.wal.Some? && wal.sizeBytes == |WalBytes(volume.image)|
    {
      hide Run, SegmentContents, AllReadable, Reachable, Load, OpensLive, Clean;
      NowReachable(volume.states, volume.events);
      QuiescentInvariant(volume.Now());
      LiveFilesAreSafe(volume.Now());
    }

    /** What queries are answered from is the fold of a log that explains everything recorded. */
    lemma HoldsAcknowledgedPuts() returns (log: seq<WalPutRecord>)
      requires Valid() && !failed
      ensures Explains(volume.events, log, false) && Points() == Fold(log)
    {
      hide Run, SegmentContents, AllReadable, Explains, Fold;
      log := DurablePutsSurvive(volume.states, volume.events);
      ShowsOne(volume.Now(), Points(), Fold(log));
    }

    // ----- put and sync -----

    /** Neither the disk nor the record of events has changed. */
    ghost predicate Untouched(image: DiskImage, events: seq<Event>)
      reads volume
    {
      volume.image == image && volume.events == events
    }

    lemma SafeNow()
      requires At(Idle) && WalSynced(volume.image)
      ensures SurvivesPowerLoss(volume.Now())
    {
      hide Run, SurvivesPowerLoss, Reachable;
      NowReachable(volume.states, volume.events);
      SyncedSurvives(volume.Now());
    }

    /** The next segment name is not in use. */
    lemma NextNameIsNew()
      requires At(Idle)
      ensures manifest.generation <= U64_MAX
      ensures manifest.generation < U64_MAX ==> NextName(manifest) !in manifest.segmentFiles
    {
      hide Run, Reachable, Load, OpensLive, AllReadable, SegmentContents, NextName, GenerationUpTo, Removable;
      NowReachable(volume.states, volume.events);
      QuiescentInvariant(volume.Now());
      LiveFilesAreSafe(volume.Now());
    }

    /** The append of a put. Any failure stops the engine. */
    method AppendToLog(record: WalPutRecord) returns (problem: Option<WalError>)
      requires Valid() && !failed
      modifies this`failed, wal
      modifies volume`image, volume`interrupts, volume`faults, volume`states, volume`events
      ensures volume.faults == old(volume.faults) + if problem == Some(WalError.IoFailed) then 1 else 0
      ensures OnlyLogTouched(old(volume.image), volume.image)
      ensures problem.Some? ==> Valid() && failed
      ensures problem.Some? ==> problem.value == WalError.RecordTooLarge || problem.value == IoFailed
      ensures problem == Some(WalError.RecordTooLarge) <==> WalRecord.Encode(record).Failure?
      ensures problem.Some? ==>
                volume.events == old(volume.events)
                                 + if problem.value == WalError.RecordTooLarge then [Halted(None)]
                                   else [Internal, Halted(Some(record))]
      ensures problem.None? ==>
                && !failed && wal.Valid() && !wal.failed && volume.image.wal.Some?
                && volume.states == old(volume.states) && volume.events == old(volume.events)
                && volume.image == if wal.durability == SyncOnAppend then AfterSync(WithAppended(old(volume.image), record))
                                   else WithAppended(old(volume.image), record)
    {
      hide Volume.Published, Run, WalRecord.Encode, SegmentContents, AllReadable, Torn, MemTable.Points, MemTable.Valid;
      Exact();
      ghost var v, d := View(), volume.image;
      var appended := wal.Append(record);
      if appended.Success? {
        return None;
      }
      failed := true;
      if appended.error == WalError.RecordTooLarge {
        RecordStop(volume);
      } else {
        TearingTouchesLog(d, volume.image, WalRecord.Encode(record).value);
        RecordTorn(volume, v, d, record);
      }
      problem := Some(appended.error);
    }

    /**
      Success acknowledges the put and makes it visible. Any failure stops the engine, with the put in flight unless
      its record was too large to be tried.
     */
    method Put(series: SeriesKey, sample: Sample) returns (r: Result<(), EngineError>)
      requires Valid()
      modifies this, memtable, wal
      modifies volume`image, volume`interrupts, volume`faults, volume`states, volume`events
      ensures volume.faults == old(volume.faults) + if r == Failure(AppendFailed(WalError.IoFailed)) then 1 else 0
      ensures Valid()
      ensures OnlyLogTouched(old(volume.image), volume.image)
      ensures manifest == old(manifest) && segments == old(segments)
      ensures old(failed) ==> r == Failure(EngineFailed) && failed && Untouched(old(volume.image), old(volume.events))
      ensures !old(failed) && r.Success? && wal.durability == SyncOnAppend ==> SurvivesPowerLoss(volume.Now())
      ensures !old(failed) && r.Success? ==>
                && !failed && Points() == old(Points())[(series, sample.timestamp) := sample.value]
                && volume.events
                == old(volume.events) + [Internal, Acknowledged(WalPutRecord(series, sample), wal.durability)]
      ensures !old(failed) && r.Failure? ==>
                && failed
                && volume.events == old(volume.events)
                                    + if r.error == AppendFailed(WalError.RecordTooLarge) then [Halted(None)]
                                      else [Internal, Halted(Some(WalPutRecord(series, sample)))]
      ensures !old(failed) && r.Failure? ==>
                r.error == AppendFailed(WalError.RecordTooLarge) || r.error == AppendFailed(IoFailed)
      ensures r.Failure? ==> memtable.Points() == old(memtable.Points()) && sampleCount == old(sampleCount)
      ensures !old(failed) ==> (r == Failure(AppendFailed(WalError.RecordTooLarge))
                                <==> WalRecord.Encode(WalPutRecord(series, sample)).Failure?)
    {
      hide Volume.Published, Run, WalRecord.Encode, SegmentContents, AllReadable, AfterPut, Visible, MemTable.Points,
        MemTable.Valid, SurvivesPowerLoss, Reachable;
      if failed {
        return Failure(EngineFailed);
      }
      var known := Contains(series, sample.timestamp);
      var record := WalPutRecord(series, sample);
      ghost var v, d := View(), volume.image;
      var problem := AppendToLog(record);
      if problem.Some? {
        return Failure(AppendFailed(problem.value));
      }
      RecordPut(volume, v, d, record);
      memtable.Put(series, sample);
      if !known {
        sampleCount := sampleCount + 1;
      }
      PutView(v, View(), record);
      if wal.durability == SyncOnAppend {
        SafeNow();
      }
      r := Success(());
    }

    /** Makes every acknowledged put durable. */
    method Sync() returns (r: Result<(), EngineError>)
      requires Valid()
      modifies this`failed, wal, volume`image, volume`faults, volume`states, volume`events
      ensures volume.faults == old(volume.faults) + if r == Failure(SyncFailed) then 1 else 0
      ensures Valid()
      ensures OnlyLogTouched(old(volume.image), volume.image) && WalBytes(volume.image) == WalBytes(old(volume.image))
      ensures old(failed) ==> r == Failure(EngineFailed) && failed && Untouched(old(volume.image), old(volume.events))
      ensures !old(failed) && r.Success? ==>
                && !failed && Points() == old(Points()) && WalSynced(volume.image) && SurvivesPowerLoss(volume.Now())
                && volume.events == old(volume.events) + [Synced]
      ensures !old(failed) && r.Failure? ==>
                r == Failure(SyncFailed) && failed && volume.events == old(volume.events) + [Halted(None)]
    {
      hide Volume.Published, Run, SegmentContents, AllReadable, MemTable.Points, MemTable.Valid, SurvivesPowerLoss,
        Reachable;
      if failed {
        return Failure(EngineFailed);
      }
      ghost var v, d := View(), volume.image;
      var synced := wal.Sync();
      if synced.Failure? {
        failed := true;
        RecordStop(volume);
        return Failure(SyncFailed);
      }
      RecordSync(volume, v, d);
      SafeNow();
      r := Success(());
    }

    // ----- flush -----

    /** Writes the segment of a snapshot of `m` and opens it. */
    method NewSegment(snapshots: seq<SeriesSnapshot>, ghost m: Contents)
      returns (name: Name, reader: Result<SegmentReader, EngineError>, ghost replaced: bool, ghost made: SegmentReader)
      requires SnapshotAnswer(m, snapshots) && m != map[] && manifest.generation < U64_MAX && volume.Published()
      modifies volume`image, volume`faults, volume`unsynced, volume`loose
      ensures volume.Published() && (reader.Success? ==> !volume.loose)
      ensures volume.faults == old(volume.faults) + if reader == Failure(SegmentNotWritten) then 1 else 0
      ensures name == NextName(manifest)
      ensures replaced ==>
                SegmentFor(m, made.content, made) && volume.image == Publish(old(volume.image), name, made.content)
      ensures !replaced ==> OnlyTemporary(old(volume.image), volume.image, TemporaryOf(name))
      ensures reader.Success? ==> replaced && reader.value == made
      ensures reader == Failure(SegmentTooLarge) <==> !TableFits(m)
      ensures reader.Failure? ==> reader.error == SegmentTooLarge || reader.error == SegmentNotWritten
      ensures SegmentTouched(old(volume.image), volume.image, name)
    {
      hide Volume.Published, SnapshotHolds, SnapshotAnswer, SegmentFor, SegmentBytes, GenerationName, Open, TemporaryOf,
        BlocksFit, TableFits;
      name := NextName(manifest);
      replaced := false;
      made := WrittenOpens(m, snapshots, []);
      FlushableIff(m, snapshots);
      TableFitsIff(m, snapshots);
      var blocks := BlocksFromSnapshots(snapshots);
      var bytes := EncodeSegmentFile(blocks);
      if bytes.Failure? {
        return name, Failure(SegmentTooLarge), false, made;
      }
      var ok: bool;
      ok, replaced := volume.ReplaceFile(name, bytes.value);
      made := WrittenOpens(m, snapshots, bytes.value);
      if !ok {
        return name, Failure(SegmentNotWritten), replaced, made;
      }
      var content := volume.ReadFile(name);
      if content.None? {
        return name, Failure(SegmentNotWritten), replaced, made;
      }
      var result := OpenSegment(content.value);
      reader := Success(result.value);
    }

    method StoreManifest(next: ManifestState) returns (problem: Option<EngineError>, ghost replaced: bool)
      requires volume.Published()
      modifies volume`image, volume`faults, volume`unsynced, volume`loose
      ensures volume.Published() && (problem.None? ==> !volume.loose)
      ensures volume.faults == old(volume.faults) + if problem == Some(ManifestNotStored) then 1 else 0
      ensures problem == Some(ManifestRefused) <==> M.Encode(next).Failure?
      ensures problem.Some? ==> problem.value == ManifestRefused || problem.value == ManifestNotStored
      ensures problem.None? ==> replaced
      ensures replaced ==> ManifestReplaced(old(volume.image), volume.image, next)
      ensures !replaced ==> OnlyTemporary(old(volume.image), volume.image, MANIFEST_TEMPORARY)
      ensures ManifestTouched(old(volume.image), volume.image)
    {
      hide Volume.Published, M.Encode;
      var encoded := EncodeManifest(next);
      if encoded.Failure? {
        return Some(ManifestRefused), false;
      }
      var ok: bool;
      ok, replaced := volume.ReplaceManifest(encoded.value);
      problem := if ok then None else Some(ManifestNotStored);
    }

    /** First part of a flush: the segment of the memtable. */
    method PublishTable() returns (name: Name, reader: Result<SegmentReader, EngineError>)
      requires At(Idle) && AllReadable(segments) && memtable.Points() != map[]
      modifies this`failed
      modifies volume`image, volume`faults, volume`unsynced, volume`loose, volume`states, volume`events
      ensures volume.faults == old(volume.faults) + if reader == Failure(SegmentNotWritten) then 1 else 0
      ensures Quietly(old(volume.events), volume.events)
      ensures reader == Failure(GenerationExhausted) <==> manifest.generation == U64_MAX
      ensures reader == Failure(SegmentTooLarge) <==> manifest.generation < U64_MAX && !TableFits(memtable.Points())
      ensures manifest.generation <= U64_MAX
      ensures reader.Failure? ==> Valid() && failed && PublishError(reader.error)
      ensures reader.Success? ==>
                && At(FlushPublished(name, reader.value)) && name == NextName(manifest)
                && SegmentFor(memtable.Points(), reader.value.content, reader.value)
                && volume.image == Publish(old(volume.image), name, reader.value.content)
      ensures SegmentTouched(old(volume.image), volume.image, NextName(manifest))
    {
      hide Quietly, Volume.Published, Run, SegmentFor, SnapshotAnswer, NextName, AllReadable, MemTable.Points,
        MemTable.Valid, Temporary, TemporaryOf, Quiet, OnlyTemporary, Publish, SegmentContents, TableFits;
      Exact();
      Quieter(volume.events);
      ghost var v, d := View(), volume.image;
      var snapshots := memtable.Snapshot();
      if manifest.generation == U64_MAX {
        failed := true;
        RecordStop(volume);
        return [], Failure(GenerationExhausted);
      }
      ghost var replaced: bool, made: SegmentReader;
      name, reader, replaced, made := NewSegment(snapshots, v.memtable);
      if replaced {
        RecordFlushPublished(volume, v, d, made);
      } else {
        TemporaryOfTemporary(name);
        RecordTemporary(volume, v, Idle, d, TemporaryOf(name));
      }
      if reader.Failure? {
        failed := true;
        RecordStop(volume);
      }
    }

    lemma RoomIsEnough(name: Name, reader: SegmentReader)
      requires At(FlushPublished(name, reader)) && name == NextName(manifest)
      ensures M.Encode(FlushedManifest(View(), name)).Success? <==> ManifestRoom(View())
    {
      hide Next, Fresh, Related, Sound, M.Encode, NextName, FlushedManifest, ManifestRoom, Reachable;
      NowReachable(volume.states, volume.events);
      var l := ReachableRelated(volume.Now());
      var m, live := SoundHere(volume.Now(), l);
      PublishedBelowLimit(volume.Now(), l);
      ManifestEncodesIff(volume.image, View());
    }

    /** Second part: the manifest that makes the segment live. */
    method CommitTable(name: Name, reader: SegmentReader) returns (problem: Option<EngineError>)
      requires At(FlushPublished(name, reader)) && name == NextName(manifest)
      modifies this`failed, this`manifest, this`segments
      modifies volume`image, volume`faults, volume`unsynced, volume`loose, volume`states, volume`events
      ensures volume.faults == old(volume.faults) + if problem == Some(ManifestNotStored) then 1 else 0
      ensures Quietly(old(volume.events), volume.events)
      ensures problem == Some(ManifestRefused) <==> !ManifestRoom(old(View()))
      ensures problem.Some? ==> Valid() && failed && CommitError(problem.value)
      ensures problem.None? ==>
                && At(FlushCommitted)
                && View() == old(View()).(manifest := FlushedManifest(old(View()), name),
                                          segments := old(segments) + [reader])
                && ManifestReplaced(old(volume.image), volume.image, manifest) && !volume.loose
      ensures ManifestTouched(old(volume.image), volume.image)
    {
      hide Volume.Published, Run, MemTable.Points, MemTable.Valid, M.Encode, AllReadable, Quiet, Temporary, NextName,
        ManifestRoom;
      ghost var v, d := View(), volume.image;
      Quieter(volume.events);
      QuieterStill(volume.events);
      RoomIsEnough(name, reader);
      ghost var replaced: bool;
      var next := ManifestState(manifest.generation + 1, sampleCount, manifest.segmentFiles + [name]);
      problem, replaced := StoreManifest(next);
      if replaced {
        RecordFlushCommitted(volume, v, name, reader, d);
      } else {
        ManifestTemporaryIs();
        RecordTemporary(volume, v, FlushPublished(name, reader), d, MANIFEST_TEMPORARY);
      }
      if problem.Some? {
        failed := true;
        RecordStop(volume);
        return;
      }
      segments := segments + [reader];
      manifest := next;
    }

    /** Last part: the write-ahead log and the memtable start over. */
    method EmptyLog() returns (ok: bool)
      requires At(FlushCommitted)
      modifies this`failed, volume`image, volume`faults, volume`states, volume`events, wal, memtable
      ensures volume.faults == old(volume.faults) + if ok then 0 else 1
      ensures Quietly(old(volume.events), volume.events)
      ensures OnlyLogTouched(old(volume.image), volume.image)
      ensures !ok ==> Valid() && failed
      ensures ok ==>
                && At(Idle) && View() == old(View()).(memtable := map[], walSize := 0)
                && WalBytes(volume.image) == [] && WalSynced(volume.image)
    {
      hide Volume.Published, Run, MemTable.Points, MemTable.Valid, AllReadable, Quiet;
      ghost var v, d := View(), volume.image;
      Quieter(volume.events);
      QuieterStill(volume.events);
      var reset := wal.Reset();
      if reset.Failure? {
        failed := true;
        if volume.image == Truncate(d, 0) {
          RecordCut(volume, v, d);
        }
        RecordStop(volume);
        return false;
      }
      RecordCut(volume, v, d);
      RecordSettled(volume, Started(v), Truncate(d, 0));
      memtable.Clear();
      ok := true;
    }

    /**
      Moves the memtable into a new segment. Nothing a query sees changes, and no file but the new segment, the manifest
      and their temporaries.
     */
    method Flush() returns (r: Result<(), EngineError>)
      requires Valid()
      modifies this, memtable, wal
      modifies volume`image, volume`faults, volume`unsynced, volume`loose, volume`states, volume`events
      ensures Valid() && Quietly(old(volume.events), volume.events)
      ensures old(failed) ==> r == Failure(EngineFailed) && failed && Untouched(old(volume.image), old(volume.events))
      ensures !old(failed) ==> (r.Success? <==> !failed)
      ensures !old(failed) && r.Success? ==>
                && Points() == old(Points()) && memtable.Points() == map[] && sampleCount == old(sampleCount)
                && WalSynced(volume.image) && SurvivesPowerLoss(volume.Now())
      ensures !old(failed) && r.Success? && old(memtable.Points()) == map[] ==>
                segments == old(segments) && manifest == old(manifest)
      ensures !old(failed) && old(memtable.Points()) == map[] ==> OnlyLogTouched(old(volume.image), volume.image)
      ensures !old(failed) && r.Success? && old(memtable.Points()) != map[] ==>
                && |segments| == |old(segments)| + 1 && segments[..|old(segments)|] == old(segments)
                && segments[|old(segments)|].Readable() && segments[|old(segments)|].Points() == old(memtable.Points())
                && manifest == FlushedManifest(old(View()), NextName(old(manifest)))
                && WalBytes(volume.image) == [] && !volume.loose
                && Stored(volume.image, NextName(old(manifest)), segments[|old(segments)|].content, manifest)
      ensures !old(failed) && old(memtable.Points()) != map[] ==>
                FilesAlike(old(volume.image), volume.image, Touchable(NextName(old(manifest)), {}))
      ensures !old(failed) && old(memtable.Points()) == map[] ==>
                && (r == Failure(SyncFailed) <==> volume.faults > old(volume.faults))
                && (r.Failure? ==> r.error == SyncFailed)
      ensures !old(failed) && old(memtable.Points()) != map[] ==>
                && (r == Failure(GenerationExhausted) <==> old(manifest).generation == U64_MAX)
                && (r == Failure(SegmentTooLarge) <==>
                      old(manifest).generation < U64_MAX && !TableFits(old(memtable.Points())))
                && (r == Failure(ManifestRefused) ==> !ManifestRoom(old(View())))
                && (r == Failure(ManifestNotStored) || r == Failure(ResetFailed) || r.Success? ==>
                      TableFits(old(memtable.Points())) && ManifestRoom(old(View())))
                && (r == Failure(SegmentNotWritten) || r == Failure(ManifestNotStored) || r == Failure(ResetFailed) <==>
                      volume.faults > old(volume.faults))
                && (r.Failure? ==> PublishError(r.error) || CommitError(r.error) || r.error == ResetFailed)
      ensures !old(failed) && old(memtable.Points()) != map[] && volume.faults == old(volume.faults) ==>
                (r.Success? <==> TableFits(old(memtable.Points())) && ManifestRoom(old(View())))
    {
      hide Quietly, Volume.Published, Run, MemTable.Points, MemTable.Valid, AllReadable, SegmentContents, SegmentFor,
        SegmentReader.Valid, SegmentReader.Readable, SegmentReader.Points, NextName, FlushedManifest, Quiet, WalSynced,
        TableFits, SurvivesPowerLoss, Reachable, Publish, ManifestReplaced, Stored, FilesAlike, Touchable, TemporaryOf;
      Quieter(volume.events);
      if failed {
        return Failure(EngineFailed);
      }
      var empty := memtable.IsEmpty();
      if empty {
        r := Sync();
        return;
      }
      ghost var v, d0 := View(), volume.image;
      var name, reader := PublishTable();
      ghost var d1 := volume.image;
      SegmentOnly(d0, d1, NextName(v.manifest));
      if reader.Failure? {
        return Failure(reader.error);
      }
      FlushedPoints(v, reader.value);
      ghost var e1 := volume.events;
      var problem := CommitTable(name, reader.value);
      ghost var d2 := volume.image;
      QuietTrans(old(volume.events), e1, volume.events);
      ThenManifest(d0, d1, d2, NextName(v.manifest));
      if problem.Some? {
        return Failure(problem.value);
      }
      StoredInFull(d0, d1, d2, v.manifest, reader.value.content, manifest);
      ghost var e2 := volume.events;
      var ok := EmptyLog();
      QuietTrans(old(volume.events), e2, volume.events);
      SameFiles(d0, d2, volume.image, NextName(v.manifest), reader.value.content, FlushedManifest(v, name));
      if !ok {
        return Failure(ResetFailed);
      }
      SafeNow();
      r := Success(());
    }

    // ----- compact -----

    /** The merged samples of all segments, counted against the manifest: the counts cannot disagree. */
    method MergedSnapshots() returns (snapshots: seq<SeriesSnapshot>)
      requires At(Idle) && AllReadable(segments)
      ensures SnapshotAnswer(SegmentContents(segments), snapshots)
    {
      hide Run, SnapshotAnswer, AllReadable, SegmentContents, Flatten, SnapshotTotal;
      Exact();
      var merged := MergeSegments(segments);
      snapshots := SnapshotsOf(merged);
      var compacted := CountSnapshots(snapshots);
      SnapshotTotalIs(SegmentContents(segments), snapshots);
      if compacted != manifest.logicalSampleCount {
        assert false;
      }
    }

    /** Writes the segment that is to replace all others, and opens it. */
    method PublishMerged() returns (name: Name, reader: Result<SegmentReader, EngineError>)
      requires At(Idle) && AllReadable(segments) && |segments| > 1
      modifies this`failed
      modifies volume`image, volume`faults, volume`unsynced, volume`loose, volume`states, volume`events
      ensures volume.faults == old(volume.faults) + if reader == Failure(SegmentNotWritten) then 1 else 0
      ensures Quietly(old(volume.events), volume.events)
      ensures reader == Failure(GenerationExhausted) <==> manifest.generation == U64_MAX
      ensures reader == Failure(SegmentTooLarge) <==>
                manifest.generation < U64_MAX && !TableFits(SegmentContents(segments))
      ensures reader.Failure? ==> Valid() && failed && PublishError(reader.error)
      ensures reader.Success? ==>
                && At(CompactPublished(name, reader.value)) && name == NextName(manifest)
                && SegmentFor(SegmentContents(segments), reader.value.content, reader.value)
                && volume.image == Publish(old(volume.image), name, reader.value.content)
      ensures SegmentTouched(old(volume.image), volume.image, NextName(manifest))
    {
      hide Quietly, Volume.Published, Run, SegmentFor, SnapshotAnswer, NextName, AllReadable, MemTable.Points,
        MemTable.Valid, Temporary, TemporaryOf, Quiet, SegmentContents, OnlyTemporary, Publish, TableFits;
      Exact();
      Quieter(volume.events);
      SegmentsHoldPoints(segments);
      ghost var v, d := View(), volume.image;
      var snapshots := MergedSnapshots();
      if manifest.generation == U64_MAX {
        failed := true;
        RecordStop(volume);
        return [], Failure(GenerationExhausted);
      }
      ghost var replaced: bool, made: SegmentReader;
      name, reader, replaced, made := NewSegment(snapshots, SegmentContents(segments));
      if replaced {
        RecordCompactPublished(volume, v, d, made);
      } else {
        TemporaryOfTemporary(name);
        RecordTemporary(volume, v, Idle, d, TemporaryOf(name));
      }
      if reader.Failure? {
        failed := true;
        RecordStop(volume);
      }
    }

    lemma MergedIsEnough(name: Name, reader: SegmentReader)
      requires At(CompactPublished(name, reader)) && name == NextName(manifest)
      ensures M.Encode(CompactedManifest(View(), name)).Success?
    {
      hide Next, Fresh, Related, Sound, M.Encode, NextName, CompactedManifest, Reachable;
      NowReachable(volume.states, volume.events);
      var l := ReachableRelated(volume.Now());
      var m, live := SoundHere(volume.Now(), l);
      PublishedBelowLimit(volume.Now(), l);
      CompactedEncodes(volume.image, View());
    }

    /** The manifest that replaces all segments by the merged one; only the operating system can refuse it. */
    method CommitMerged(name: Name, reader: SegmentReader) returns (problem: Option<EngineError>)
      requires At(CompactPublished(name, reader)) && name == NextName(manifest)
      modifies this`failed, this`manifest, this`segments
      modifies volume`image, volume`faults, volume`unsynced, volume`loose, volume`states, volume`events
      ensures volume.faults == old(volume.faults) + if problem == Some(ManifestNotStored) then 1 else 0
      ensures Quietly(old(volume.events), volume.events)
      ensures problem.Some? ==> Valid() && failed && problem == Some(ManifestNotStored)
      ensures problem.None? ==>
                && At(CompactCommitted(set n | n in old(manifest).segmentFiles))
                && View() == old(View()).(manifest := CompactedManifest(old(View()), name), segments := [reader])
                && ManifestReplaced(old(volume.image), volume.image, manifest) && !volume.loose
      ensures ManifestTouched(old(volume.image), volume.image)
    {
      hide Volume.Published, Run, MemTable.Points, MemTable.Valid, M.Encode, AllReadable, Quiet, Temporary, NextName;
      ghost var v, d := View(), volume.image;
      Quieter(volume.events);
      QuieterStill(volume.events);
      MergedIsEnough(name, reader);
      ghost var replaced: bool;
      var next := ManifestState(manifest.generation + 1, manifest.logicalSampleCount, [name]);
      problem, replaced := StoreManifest(next);
      if replaced {
        RecordCompactCommitted(volume, v, name, reader, d);
      } else {
        ManifestTemporaryIs();
        RecordTemporary(volume, v, CompactPublished(name, reader), d, MANIFEST_TEMPORARY);
      }
      if problem.Some? {
        failed := true;
        RecordStop(volume);
        return;
      }
      segments := [reader];
      manifest := next;
    }

    /** Best-effort removal of the files that are no longer live: one stays only if its removal is refused. */
    method RemoveObsolete(obsolete: seq<Name>)
      requires At(CompactCommitted(set n | n in obsolete))
      modifies volume`image, volume`refused, volume`loose, volume`states, volume`events
      ensures At(Idle) && Quietly(old(volume.events), volume.events)
      ensures old(volume.refused) <= volume.refused
      ensures RemovedBut(old(volume.image), volume.image, (set n | n in obsolete),
                         volume.refused[|old(volume.refused)|..])
    {
      hide Volume.Published, Run, MemTable.Points, MemTable.Valid, Quiet;
      ghost var v, d, names, start := View(), volume.image, set n | n in obsolete, |volume.refused|;
      QuieterStill(volume.events);
      for i := 0 to |obsolete|
        invariant old(volume.refused) <= volume.refused
        invariant RemovedSoFar(d, volume.image, names, (set n | n in obsolete[..i]), volume.refused[start..])
        invariant volume.states == old(volume.states) && volume.events == old(volume.events)
      {
        ghost var listed := volume.refused;
        volume.Remove(obsolete[i]);
        assert (listed + [obsolete[i]])[start..] == listed[start..] + [obsolete[i]];
      }
      assert obsolete[..|obsolete|] == obsolete;
      RecordRemoved(volume, v, d, names);
    }

    /**
      Replaces all segments by one that means the same. Nothing a query sees changes. The replaced files go unless their
      removal is refused; no others do.
     */
    method Compact() returns (r: Result<(), EngineError>)
      requires Valid()
      modifies this
      modifies volume`image, volume`faults, volume`refused, volume`unsynced, volume`loose, volume`states, volume`events
      ensures Valid() && Quietly(old(volume.events), volume.events) && old(volume.refused) <= volume.refused
      ensures old(failed) ==> r == Failure(EngineFailed) && failed && Untouched(old(volume.image), old(volume.events))
      ensures !old(failed) ==> (r.Success? <==> !failed)
      ensures !old(failed) && r.Success? ==>
                && Points() == old(Points()) && SegmentContents(segments) == old(SegmentContents(segments))
                && |segments| <= 1 && sampleCount == old(sampleCount)
      ensures !old(failed) && |old(segments)| <= 1 ==>
                r.Success? && manifest == old(manifest) && Untouched(old(volume.image), old(volume.events))
      ensures !old(failed) && |old(segments)| > 1 ==>
                && (r == Failure(GenerationExhausted) <==> old(manifest).generation == U64_MAX)
                && (r == Failure(SegmentTooLarge) <==>
                      old(manifest).generation < U64_MAX && !TableFits(old(SegmentContents(segments))))
                && (r == Failure(SegmentNotWritten) || r == Failure(ManifestNotStored) <==>
                      volume.faults > old(volume.faults))
                && (r.Failure? ==> PublishError(r.error) || r.error == ManifestNotStored)
      ensures !old(failed) && |old(segments)| > 1 && r.Success? ==>
                && |segments| == 1 && manifest == CompactedManifest(old(View()), NextName(old(manifest)))
                && Compacted(old(volume.image), volume.image, old(manifest), segments[0].content, manifest,
                             volume.refused[|old(volume.refused)|..])
      ensures r.Failure? ==>
                && volume.refused == old(volume.refused)
                && FilesAlike(old(volume.image), volume.image, Touchable(NextName(old(manifest)), {}))
      ensures WalBytes(volume.image) == WalBytes(old(volume.image))
    {
      hide Quietly, Volume.Published, Run, MemTable.Points, MemTable.Valid, AllReadable, SegmentContents, SegmentFor,
        NextName, CompactedManifest, Quiet, TableFits, Publish, ManifestReplaced, Stored, FilesAlike, Touchable,
        TemporaryOf, RemovedBut, Compacted;
      Quieter(volume.events);
      SameAlike(volume.image, Touchable(NextName(manifest), {}));
      if failed {
        return Failure(EngineFailed);
      }
      if |segments| <= 1 {
        return Success(());
      }
      ghost var before, v, d0 := SegmentContents(segments), View(), volume.image;
      var replaced := manifest.segmentFiles;
      NextNameIsNew();
      var name, reader := PublishMerged();
      ghost var d1 := volume.image;
      SegmentOnly(d0, d1, NextName(v.manifest));
      if reader.Failure? {
        return Failure(reader.error);
      }
      MergedPoints(before, reader.value);
      ghost var e1 := volume.events;
      var problem := CommitMerged(name, reader.value);
      ghost var d2 := volume.image;
      QuietTrans(old(volume.events), e1, volume.events);
      ThenManifest(d0, d1, d2, NextName(v.manifest));
      if problem.Some? {
        return Failure(problem.value);
      }
      StoredInFull(d0, d1, d2, v.manifest, reader.value.content, manifest);
      ghost var e2 := volume.events;
      RemoveObsolete(replaced);
      QuietTrans(old(volume.events), e2, volume.events);
      ThenRemoved(d0, d2, volume.image, v.manifest, reader.value.content, manifest,
                  volume.refused[|old(volume.refused)|..]);
      r := Success(());
    }
  }

  lemma MergedPoints(m: Contents, reader: SegmentReader)
    requires SegmentFor(m, reader.content, reader)
    ensures AllReadable([reader]) && SegmentContents([reader]) == m
  {
    hide SegmentFor, SegmentReader.Valid, SegmentReader.Readable, SegmentReader.Points, SegmentContents;
    ProtocolSteps.SegmentForHolds(m, reader.content, reader);
    SegmentContentsOne(reader);
  }

  lemma FlushedPoints(v: EngineView, reader: SegmentReader)
    requires AllReadable(v.segments) && SegmentFor(v.memtable, reader.content, reader)
    ensures reader.Readable() && reader.Points() == v.memtable && AllReadable(v.segments + [reader])
    ensures SegmentContents(v.segments + [reader]) + map[] == Visible(v)
  {
    hide SegmentFor, SegmentReader.Valid, SegmentReader.Readable, SegmentReader.Points, SegmentContents;
    ProtocolSteps.SegmentForHolds(v.memtable, reader.content, reader);
    SegmentContentsSnoc(v.segments, reader);
    ProtocolSteps.PlusNothing(SegmentContents(v.segments + [reader]));
  }

  lemma QuieterStill(events: seq<Event>)
    ensures Quietly(events, events + [Internal, Internal])
    ensures Quietly(events, events + [Internal, Internal] + [Halted(None)])
    ensures Quietly(events, events + [Internal] + [Synced])
  {}

  lemma QuietTrans(a: seq<Event>, b: seq<Event>, c: seq<Event>)
    requires Quietly(a, b) && Quietly(b, c)
    ensures Quietly(a, c)
  {
    hide Quiet;
    forall i | |a| <= i < |c|
      ensures Quiet(c[i])
    {
      if i < |b| {
        assert c[i] == b[i];
      }
    }
  }

  lemma Quieter(events: seq<Event>)
    ensures Quietly(events, events)
    ensures Quietly(events, events + [Halted(None)])
    ensures Quietly(events, events + [Internal]) && Quietly(events, events + [Internal] + [Halted(None)])
    ensures Quietly(events, events + [Synced])
  {}

  lemma PutView(v: EngineView, v': EngineView, r: WalPutRecord)
    requires AllReadable(v.segments)
    requires v' == v.(memtable := v'.memtable, sampleCount := v'.sampleCount, walSize := v'.walSize)
    requires v'.memtable == v.memtable[(r.series, r.sample.timestamp) := r.sample.value]
    requires v'.sampleCount == if (r.series, r.sample.timestamp) in Visible(v) then v.sampleCount else v.sampleCount + 1
    ensures v' == AfterPut(v, r, v'.walSize)
    ensures Visible(v') == Visible(v)[(r.series, r.sample.timestamp) := r.sample.value]
  {
    hide SegmentContents, AllReadable;
  }

  method MergeRange(merged: SamplesByTimestamp, ghost below: Contents, ghost above: Contents, series: SeriesKey,
                    start: i64, end: i64, samples: seq<Sample>) returns (r: SamplesByTimestamp)
    requires RangeMap(below, series, start, end, merged) && RangeAnswer(above, series, start, end, samples)
    ensures RangeMap(below + above, series, start, end, r)
  {
    r := MergeSamples(merged, samples);
    RangeOverlay(below, above, series, start, end, merged, samples, r);
  }

  lemma NoLatest(series: SeriesKey)
    ensures AllReadable([]) && LatestAnswer(SegmentContents([]), series, None)
  {
    NoSegments();
  }

  lemma NoRange(series: SeriesKey, start: i64, end: i64)
    ensures AllReadable([]) && RangeMap(SegmentContents([]), series, start, end, map[])
  {
    NoSegments();
  }

  lemma NoSeries()
    ensures AllReadable([]) && forall s :: !InSeries(SegmentContents([]), s)
  {
    NoSegments();
  }
}
