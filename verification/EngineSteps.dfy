/** The machine's steps as the engine's methods take them: from what a call did to the volume to the step it was. */
module EngineSteps {
  import opened Prelude
  import opened Model
  import opened WalRecord
  import opened F = SegmentFormat
  import opened Contents
  import opened SegmentReaders
  import opened SegmentNames
  import opened M = Manifest
  import opened MemTables
  import opened Chunking
  import opened Overlay
  import opened Disk
  import opened Protocol
  import opened CrashSafety
  import opened ReachableStates
  import opened WalFile

  /** Events that neither acknowledge nor may add a put. */
  predicate Quiet(e: Event) {
    e == Internal || e == Synced || e == Halted(None)
  }

  ghost predicate Quietly(before: seq<Event>, after: seq<Event>) {
    before <= after && forall i :: |before| <= i < |after| ==> Quiet(after[i])
  }

  /** Nothing that happened quietly is about a put. */
  lemma {:induction false} QuietlyAcknowledgesNothing(before: seq<Event>, after: seq<Event>)
    requires Quietly(before, after)
    ensures AcknowledgedPuts(after) == AcknowledgedPuts(before)
    ensures forall i :: |before| <= i < |after| ==> PutOf(after[i]) == None && !after[i].PowerLost?
    decreases |after|
  {
    if |after| > |before| {
      var n := |after| - 1;
      assert Quiet(after[n]);
      QuietlyAcknowledgesNothing(before, after[..n]);
    } else {
      assert after == before;
    }
  }

  // ----- put -----

  ghost function WithAppended(d: DiskImage, r: WalPutRecord): DiskImage
    requires WalRecord.Encode(r).Success?
  {
    WithWal(d, WalBytes(d) + WalRecord.Encode(r).value)
  }

  lemma Appends(v: EngineView, d: DiskImage, r: WalPutRecord)
    requires d.wal.Some? && WalRecord.Encode(r).Success?
    ensures Next(Running(v, Idle, d), Internal, Running(v, Appended(r), WithAppended(d, r)))
  {
    hide WalRecord.Encode;
    assert PutAppend(Running(v, Idle, d), r, Running(v, Appended(r), WithAppended(d, r)));
  }

  lemma Finishes(v: EngineView, d: DiskImage, r: WalPutRecord)
    requires AllReadable(v.segments)
    ensures Next(Running(v, Appended(r), d), Acknowledged(r, v.durability),
                 Running(AfterPut(v, r, |WalBytes(d)|), Idle, if v.durability == SyncOnAppend then AfterSync(d) else d))
  {}

  lemma Tears(v: EngineView, d: DiskImage, d': DiskImage, r: WalPutRecord, k: nat)
    requires d.wal.Some? && WalRecord.Encode(r).Success? && TornAt(d, d', WalRecord.Encode(r).value, k)
    requires v.walSize == |WalBytes(d)|
    ensures Next(Running(v, Appended(r), WithAppended(d, r)), Halted(Some(r)), Stopped(d'))
  {
    hide WalRecord.Encode;
    var e := WalRecord.Encode(r).value;
    assert WalBytes(d) + e[..k] <= WalBytes(d) + e;
  }

  // ----- stopping and temporaries -----

  lemma Stops(v: EngineView, phase: Phase, d: DiskImage)
    requires !phase.Appended?
    ensures Next(Running(v, phase, d), Halted(None), Stopped(d))
  {}

  lemma TouchesTemporary(v: EngineView, phase: Phase, d: DiskImage, d': DiskImage, name: Name)
    requires OnlyTemporary(d, d', name) && Temporary(name)
    ensures Next(Running(v, phase, d), Internal, Running(v, phase, d'))
  {
    hide Temporary;
    assert WriteTemporary(Running(v, phase, d), Running(v, phase, d'));
  }

  // ----- segments -----

  /** The bytes written open as a segment. */
  lemma WrittenOpens(m: Contents, snapshots: seq<SeriesSnapshot>, bytes: Bytes) returns (reader: SegmentReader)
    requires SnapshotAnswer(m, snapshots)
    ensures AllIncreasing(snapshots)
    ensures SegmentBytes(ChunkAll(snapshots)) == Success(bytes) ==>
              && reader.content == bytes && reader.Valid() && Open(bytes).Success?
              && SegmentFor(m, bytes, reader)
  {
    hide SnapshotHolds, Has, KeyLess, SegmentBytes, Open, ReadBlocks, EntriesFor, BlocksOrdered, BlocksMap;
    reader := SegmentReader([], [], 0);
    if SegmentBytes(ChunkAll(snapshots)) == Success(bytes) {
      OpensAsWritten(ChunkAll(snapshots));
      var index := EntriesFor(ChunkAll(snapshots), SEGMENT_HEADER_SIZE);
      reader := SegmentReader(bytes, index, TotalSamples(index));
    }
  }

  lemma PublishesFlush(v: EngineView, d: DiskImage, reader: SegmentReader)
    requires v.memtable != map[] && v.manifest.generation < U64_MAX
    requires SegmentFor(v.memtable, reader.content, reader)
    ensures var name := NextName(v.manifest);
            Next(Running(v, Idle, d), Internal,
                 Running(v, FlushPublished(name, reader), Publish(d, name, reader.content)))
  {
    hide SegmentFor, NextName;
    var name := NextName(v.manifest);
    assert FlushPublish(Running(v, Idle, d), Running(v, FlushPublished(name, reader), Publish(d, name, reader.content)));
  }

  lemma PublishesCompaction(v: EngineView, d: DiskImage, reader: SegmentReader)
    requires |v.segments| > 1 && AllReadable(v.segments) && v.manifest.generation < U64_MAX
    requires |SegmentContents(v.segments)| == v.manifest.logicalSampleCount
    requires SegmentFor(SegmentContents(v.segments), reader.content, reader)
    ensures var name := NextName(v.manifest);
            Next(Running(v, Idle, d), Internal,
                 Running(v, CompactPublished(name, reader), Publish(d, name, reader.content)))
  {
    hide SegmentFor, NextName, SegmentContents, AllReadable;
    var name := NextName(v.manifest);
    assert CompactPublish(Running(v, Idle, d),
                          Running(v, CompactPublished(name, reader), Publish(d, name, reader.content)));
  }

  // ----- manifest -----

  ghost function WithManifest(d: DiskImage, next: ManifestState): DiskImage
    requires M.Encode(next).Success?
  {
    d.(manifest := Some(M.Encode(next).value))
  }

  lemma CommitsFlush(v: EngineView, name: Name, reader: SegmentReader, d: DiskImage)
    requires M.Encode(FlushedManifest(v, name)).Success?
    ensures Next(Running(v, FlushPublished(name, reader), d), Internal,
                 Running(v.(manifest := FlushedManifest(v, name), segments := v.segments + [reader]), FlushCommitted,
                         WithManifest(d, FlushedManifest(v, name))))
  {
    hide M.Encode;
    assert FlushCommit(Running(v, FlushPublished(name, reader), d),
                       Running(v.(manifest := FlushedManifest(v, name), segments := v.segments + [reader]),
                               FlushCommitted, WithManifest(d, FlushedManifest(v, name))));
  }

  lemma CommitsCompaction(v: EngineView, name: Name, reader: SegmentReader, d: DiskImage)
    requires M.Encode(CompactedManifest(v, name)).Success?
    ensures Next(Running(v, CompactPublished(name, reader), d), Internal,
                 Running(v.(manifest := CompactedManifest(v, name), segments := [reader]),
                         CompactCommitted(set n | n in v.manifest.segmentFiles),
                         WithManifest(d, CompactedManifest(v, name))))
  {
    hide M.Encode;
    assert CompactCommit(Running(v, CompactPublished(name, reader), d),
                         Running(v.(manifest := CompactedManifest(v, name), segments := [reader]),
                                 CompactCommitted(set n | n in v.manifest.segmentFiles),
                                 WithManifest(d, CompactedManifest(v, name))));
  }

  function Started(v: EngineView): EngineView {
    v.(memtable := map[], walSize := 0)
  }

  lemma Cuts(v: EngineView, d: DiskImage)
    ensures Next(Running(v, FlushCommitted, d), Internal, Running(Started(v), FlushEmptied, Truncate(d, 0)))
  {
    assert FlushCut(Running(v, FlushCommitted, d), Running(Started(v), FlushEmptied, Truncate(d, 0)));
  }

  lemma Settles(v: EngineView, d: DiskImage)
    ensures Next(Running(v, FlushEmptied, d), Synced, Running(v, Idle, AfterSync(d)))
  {}

  lemma Syncs(v: EngineView, d: DiskImage)
    ensures Next(Running(v, Idle, d), Synced, Running(v, Idle, AfterSync(d)))
  {}

  // ----- which files an operation touches -----

  /** Writing the segment `name`, whether or not that works. */
  ghost predicate SegmentTouched(d: DiskImage, d': DiskImage, name: Name) {
    d' == d.(files := d'.files) && FilesAlike(d, d', {name, TemporaryOf(name)})
  }

  /** Replacing the manifest, whether or not that works. */
  ghost predicate ManifestTouched(d: DiskImage, d': DiskImage) {
    d' == d.(files := d'.files, manifest := d'.manifest) && FilesAlike(d, d', {MANIFEST_TEMPORARY})
  }

  ghost predicate OnlyLogTouched(d: DiskImage, d': DiskImage) {
    d'.manifest == d.manifest && d'.files == d.files
  }

  /** What writing a segment, replacing the manifest and a removal may touch. */
  function Touchable(name: Name, obsolete: set<Name>): set<Name> {
    {name, TemporaryOf(name), MANIFEST_TEMPORARY} + obsolete
  }

  /** The segment and the manifest have been written in full and no temporary is left. */
  ghost predicate Stored(d: DiskImage, name: Name, content: Bytes, m: ManifestState) {
    && name in d.files && d.files[name] == content && TemporaryOf(name) !in d.files && MANIFEST_TEMPORARY !in d.files
    && M.Encode(m).Success? && d.manifest == Some(M.Encode(m).value)
  }

  lemma NamesApart(m: ManifestState)
    ensures NextName(m) != MANIFEST_TEMPORARY && NextName(m) != TemporaryOf(NextName(m))
  {
    assert NextName(m)[0] == 115;
  }

  lemma StoredInFull(d: DiskImage, d1: DiskImage, d2: DiskImage, m: ManifestState, content: Bytes, next: ManifestState)
    requires d1 == Publish(d, NextName(m), content) && ManifestReplaced(d1, d2, next)
    ensures Stored(d2, NextName(m), content, next) && FilesAlike(d, d2, Touchable(NextName(m), {}))
  {
    hide M.Encode, NextName, TemporaryOf;
    NamesApart(m);
  }

  lemma TearingTouchesLog(d: DiskImage, d': DiskImage, record: Bytes)
    requires Torn(d, d', record)
    ensures OnlyLogTouched(d, d')
  {}

  lemma SameAlike(d: DiskImage, names: set<Name>)
    ensures FilesAlike(d, d, names)
  {}

  lemma SegmentOnly(d: DiskImage, d': DiskImage, name: Name)
    requires SegmentTouched(d, d', name)
    ensures FilesAlike(d, d', Touchable(name, {}))
  {
    hide TemporaryOf;
  }

  lemma ThenManifest(d: DiskImage, d1: DiskImage, d2: DiskImage, name: Name)
    requires SegmentTouched(d, d1, name) && ManifestTouched(d1, d2)
    ensures FilesAlike(d, d2, Touchable(name, {})) && d2 == d.(files := d2.files, manifest := d2.manifest)
  {
    hide TemporaryOf;
  }

  /**
    After a compaction: the new segment and manifest are there, the files replaced are gone but those whose removal was
    refused, and all others are as they were.
   */
  ghost predicate Compacted(d: DiskImage, d': DiskImage, m: ManifestState, content: Bytes, next: ManifestState,
                            refused: seq<Name>) {
    && Stored(d', NextName(m), content, next)
    && (forall n :: n in d'.files && n in m.segmentFiles ==> n in refused)
    && (forall n :: n in refused ==> n in m.segmentFiles)
    && FilesAlike(d, d', Touchable(NextName(m), set n | n in m.segmentFiles))
  }

  lemma ThenRemoved(d: DiskImage, d2: DiskImage, d3: DiskImage, m: ManifestState, content: Bytes, next: ManifestState,
                    refused: seq<Name>)
    requires FilesAlike(d, d2, Touchable(NextName(m), {})) && Stored(d2, NextName(m), content, next)
    requires RemovedBut(d2, d3, (set n | n in m.segmentFiles), refused) && NextName(m) !in m.segmentFiles
    ensures Compacted(d, d3, m, content, next, refused) && WalBytes(d3) == WalBytes(d2)
  {
    hide TemporaryOf, NextName, M.Encode;
  }

  lemma SameFiles(d: DiskImage, d2: DiskImage, d3: DiskImage, name: Name, content: Bytes, next: ManifestState)
    requires OnlyLogTouched(d2, d3) && FilesAlike(d, d2, Touchable(name, {})) && Stored(d2, name, content, next)
    ensures FilesAlike(d, d3, Touchable(name, {})) && Stored(d3, name, content, next)
  {
    hide TemporaryOf, M.Encode, Touchable;
  }

  /** Some of the obsolete files are gone. */
  ghost predicate Removed(d: DiskImage, d': DiskImage, obsolete: set<Name>) {
    && d' == d.(files := d'.files) && d'.files.Keys <= d.files.Keys
    && (forall n :: n in d.files && n !in obsolete ==> n in d'.files)
    && (forall n :: n in d'.files ==> d'.files[n] == d.files[n])
  }

  /** The same after the files `done` have been tried, which are some of `names`. */
  ghost predicate RemovedSoFar(d: DiskImage, d': DiskImage, names: set<Name>, done: set<Name>, refused: seq<Name>) {
    done <= names && RemovedBut(d, d', done, refused)
  }

  lemma Removes(v: EngineView, d: DiskImage, d': DiskImage, obsolete: set<Name>)
    requires Removed(d, d', obsolete)
    ensures Next(Running(v, CompactCommitted(obsolete), d), Internal, Running(v, CompactCommitted(obsolete), d'))
    ensures Next(Running(v, CompactCommitted(obsolete), d'), Internal, Running(v, Idle, d'))
  {
    assert CompactRemove(Running(v, CompactCommitted(obsolete), d), Running(v, CompactCommitted(obsolete), d'));
    assert CompactFinish(Running(v, CompactCommitted(obsolete), d'), Running(v, Idle, d'));
  }

  // ----- recording what a method did -----

  ghost method RecordPut(volume: Volume, v: EngineView, d: DiskImage, r: WalPutRecord)
    requires volume.Recorded() && volume.Now() == Running(v, Idle, d) && d.wal.Some? && AllReadable(v.segments)
    requires WalRecord.Encode(r).Success?
    requires volume.image == if v.durability == SyncOnAppend then AfterSync(WithAppended(d, r)) else WithAppended(d, r)
    modifies volume`states, volume`events
    ensures volume.Recorded()
    ensures volume.Now() == Running(AfterPut(v, r, |WalBytes(volume.image)|), Idle, volume.image)
    ensures volume.events == old(volume.events) + [Internal, Acknowledged(r, v.durability)]
  {
    hide Run, Next, WalRecord.Encode, AllReadable;
    Appends(v, d, r);
    Finishes(v, WithAppended(d, r), r);
    volume.Record(Internal, Running(v, Appended(r), WithAppended(d, r)));
    volume.Record(Acknowledged(r, v.durability), Running(AfterPut(v, r, |WalBytes(volume.image)|), Idle, volume.image));
  }

  ghost method RecordTorn(volume: Volume, v: EngineView, d: DiskImage, r: WalPutRecord)
    requires volume.Recorded() && volume.Now() == Running(v, Idle, d) && d.wal.Some? && v.walSize == |WalBytes(d)|
    requires WalRecord.Encode(r).Success?
    requires Torn(d, volume.image, WalRecord.Encode(r).value)
    modifies volume`states, volume`events
    ensures volume.Recorded() && volume.Now() == Stopped(volume.image)
    ensures volume.events == old(volume.events) + [Internal, Halted(Some(r))]
  {
    hide Run, Next, WalRecord.Encode;
    var k: nat :| TornAt(d, volume.image, WalRecord.Encode(r).value, k);
    Appends(v, d, r);
    Tears(v, d, volume.image, r, k);
    volume.Record(Internal, Running(v, Appended(r), WithAppended(d, r)));
    volume.Record(Halted(Some(r)), Stopped(volume.image));
  }

  ghost method RecordSync(volume: Volume, v: EngineView, d: DiskImage)
    requires volume.Recorded() && volume.Now() == Running(v, Idle, d) && volume.image == AfterSync(d)
    modifies volume`states, volume`events
    ensures volume.Recorded() && volume.Now() == Running(v, Idle, volume.image)
    ensures volume.events == old(volume.events) + [Synced]
  {
    hide Run, Next;
    Syncs(v, d);
    volume.Record(Synced, Running(v, Idle, volume.image));
  }

  /** The machine may stop wherever no append is under way. */
  ghost method RecordStop(volume: Volume)
    requires volume.Recorded() && volume.Now().Running? && !volume.Now().phase.Appended?
    requires volume.Now().disk == volume.image
    modifies volume`states, volume`events
    ensures volume.Recorded() && volume.Now() == Stopped(volume.image)
    ensures volume.events == old(volume.events) + [Halted(None)]
  {
    hide Run, Next;
    Stops(volume.Now().view, volume.Now().phase, volume.image);
    volume.Record(Halted(None), Stopped(volume.image));
  }

  /** A file that was to be replaced is as it was; only its temporary has been touched. */
  ghost method RecordTemporary(volume: Volume, v: EngineView, phase: Phase, d: DiskImage, name: Name)
    requires volume.Recorded() && volume.Now() == Running(v, phase, d)
    requires OnlyTemporary(d, volume.image, name) && Temporary(name)
    modifies volume`states, volume`events
    ensures volume.Recorded() && volume.Now() == Running(v, phase, volume.image)
    ensures volume.events == old(volume.events) + [Internal]
  {
    hide Run, Next, Temporary;
    TouchesTemporary(v, phase, d, volume.image, name);
    volume.Record(Internal, Running(v, phase, volume.image));
  }

  /** The new segment of a flush is there. */
  ghost method RecordFlushPublished(volume: Volume, v: EngineView, d: DiskImage, reader: SegmentReader)
    requires volume.Recorded() && volume.Now() == Running(v, Idle, d)
    requires v.memtable != map[] && v.manifest.generation < U64_MAX && SegmentFor(v.memtable, reader.content, reader)
    requires volume.image == Publish(d, NextName(v.manifest), reader.content)
    modifies volume`states, volume`events
    ensures volume.Recorded()
    ensures volume.Now() == Running(v, FlushPublished(NextName(v.manifest), reader), volume.image)
    ensures volume.events == old(volume.events) + [Internal]
  {
    hide Run, Next, SegmentFor, NextName;
    PublishesFlush(v, d, reader);
    volume.Record(Internal, Running(v, FlushPublished(NextName(v.manifest), reader), volume.image));
  }

  /** The new segment of a compaction is there. */
  ghost method RecordCompactPublished(volume: Volume, v: EngineView, d: DiskImage, reader: SegmentReader)
    requires volume.Recorded() && volume.Now() == Running(v, Idle, d)
    requires |v.segments| > 1 && AllReadable(v.segments) && v.manifest.generation < U64_MAX
    requires |SegmentContents(v.segments)| == v.manifest.logicalSampleCount
    requires SegmentFor(SegmentContents(v.segments), reader.content, reader)
    requires volume.image == Publish(d, NextName(v.manifest), reader.content)
    modifies volume`states, volume`events
    ensures volume.Recorded()
    ensures volume.Now() == Running(v, CompactPublished(NextName(v.manifest), reader), volume.image)
    ensures volume.events == old(volume.events) + [Internal]
  {
    hide Run, Next, SegmentFor, NextName, SegmentContents, AllReadable;
    PublishesCompaction(v, d, reader);
    volume.Record(Internal, Running(v, CompactPublished(NextName(v.manifest), reader), volume.image));
  }

  /** What replacing the manifest does to the volume. */
  ghost predicate ManifestReplaced(d: DiskImage, d': DiskImage, next: ManifestState) {
    M.Encode(next).Success?
    && d' == d.(manifest := Some(M.Encode(next).value), files := d.files - {MANIFEST_TEMPORARY})
  }

  function Swept(d: DiskImage): DiskImage {
    d.(files := d.files - {MANIFEST_TEMPORARY})
  }

  lemma Sweeps(v: EngineView, phase: Phase, d: DiskImage)
    ensures Next(Running(v, phase, d), Internal, Running(v, phase, Swept(d)))
  {
    hide Next;
    ManifestTemporaryIs();
    TouchesTemporary(v, phase, d, Swept(d), MANIFEST_TEMPORARY);
  }

  ghost method RecordFlushCommitted(volume: Volume, v: EngineView, name: Name, reader: SegmentReader, d: DiskImage)
    requires volume.Recorded() && volume.Now() == Running(v, FlushPublished(name, reader), d)
    requires ManifestReplaced(d, volume.image, FlushedManifest(v, name))
    modifies volume`states, volume`events
    ensures volume.Recorded()
    ensures volume.Now() == Running(v.(manifest := FlushedManifest(v, name), segments := v.segments + [reader]),
                                    FlushCommitted, volume.image)
    ensures volume.events == old(volume.events) + [Internal, Internal]
  {
    hide Run, Next, M.Encode;
    Sweeps(v, FlushPublished(name, reader), d);
    volume.Record(Internal, Running(v, FlushPublished(name, reader), Swept(d)));
    CommitsFlush(v, name, reader, Swept(d));
    volume.Record(Internal, Running(v.(manifest := FlushedManifest(v, name), segments := v.segments + [reader]),
                                    FlushCommitted, volume.image));
  }

  ghost method RecordCompactCommitted(volume: Volume, v: EngineView, name: Name, reader: SegmentReader, d: DiskImage)
    requires volume.Recorded() && volume.Now() == Running(v, CompactPublished(name, reader), d)
    requires ManifestReplaced(d, volume.image, CompactedManifest(v, name))
    modifies volume`states, volume`events
    ensures volume.Recorded()
    ensures volume.Now() == Running(v.(manifest := CompactedManifest(v, name), segments := [reader]),
                                    CompactCommitted(set n | n in v.manifest.segmentFiles), volume.image)
    ensures volume.events == old(volume.events) + [Internal, Internal]
  {
    hide Run, Next, M.Encode;
    Sweeps(v, CompactPublished(name, reader), d);
    volume.Record(Internal, Running(v, CompactPublished(name, reader), Swept(d)));
    CommitsCompaction(v, name, reader, Swept(d));
    volume.Record(Internal, Running(v.(manifest := CompactedManifest(v, name), segments := [reader]),
                                    CompactCommitted(set n | n in v.manifest.segmentFiles), volume.image));
  }

  /** The log file has been emptied, and then perhaps synced. */
  ghost method RecordCut(volume: Volume, v: EngineView, d: DiskImage)
    requires volume.Recorded() && volume.Now() == Running(v, FlushCommitted, d)
    modifies volume`states, volume`events
    ensures volume.Recorded() && volume.Now() == Running(Started(v), FlushEmptied, Truncate(d, 0))
    ensures volume.events == old(volume.events) + [Internal]
  {
    hide Run, Next;
    Cuts(v, d);
    volume.Record(Internal, Running(Started(v), FlushEmptied, Truncate(d, 0)));
  }

  ghost method RecordSettled(volume: Volume, v: EngineView, d: DiskImage)
    requires volume.Recorded() && volume.Now() == Running(v, FlushEmptied, d) && volume.image == AfterSync(d)
    modifies volume`states, volume`events
    ensures volume.Recorded() && volume.Now() == Running(v, Idle, volume.image)
    ensures volume.events == old(volume.events) + [Synced]
  {
    hide Run, Next;
    Settles(v, d);
    volume.Record(Synced, Running(v, Idle, volume.image));
  }

  ghost method RecordRemoved(volume: Volume, v: EngineView, d: DiskImage, obsolete: set<Name>)
    requires volume.Recorded() && volume.Now() == Running(v, CompactCommitted(obsolete), d)
    requires Removed(d, volume.image, obsolete)
    modifies volume`states, volume`events
    ensures volume.Recorded() && volume.Now() == Running(v, Idle, volume.image)
    ensures volume.events == old(volume.events) + [Internal, Internal]
  {
    hide Run, Next;
    Removes(v, d, volume.image, obsolete);
    volume.Record(Internal, Running(v, CompactCommitted(obsolete), volume.image));
    volume.Record(Internal, Running(v, Idle, volume.image));
  }
}
