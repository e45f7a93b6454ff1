/**
  Runs in which a directory that has not been synced costs acknowledged puts: the first put of a new database, and any
  compaction that dies after its manifest was renamed and before the directory was synced.
 */
module DirectoryRuns {
  import opened Prelude
  import opened Model
  import opened KeyCodec
  import opened WalRecord
  import opened WalRecovery
  import opened Contents
  import opened SegmentReaders
  import opened SegmentNames
  import opened M = Manifest
  import opened Flushable
  import opened Overlay
  import opened OverlayAnswers
  import opened Disk
  import opened Protocol
  import opened ProtocolInvariant
  import opened ProtocolSteps
  import opened CrashSafety
  import opened ReachableStates
  import opened BufferedOrder
  import opened FlushRefusal
  import opened DirectorySync

  datatype History = History(states: seq<System>, dirs: seq<Directory>, events: seq<Event>)

  /** A strict run without a power failure that ends in `s` with the directory `dir`. */
  ghost predicate Leads(h: History, s: System, dir: Directory) {
    && StrictRun(h.states, h.dirs, h.events) && h.states[|h.events|] == s && h.dirs[|h.events|] == dir
    && forall i :: 0 <= i < |h.events| ==> !h.events[i].PowerLost?
  }

  lemma Go(h: History, s: System, dir: Directory, e: Event, s': System, dir': Directory) returns (more: History)
    requires Leads(h, s, dir) && !e.PowerLost? && Next(s, e, s') && DirectoryStep(s, dir, e, s', dir')
    ensures Leads(more, s', dir') && more.events == h.events + [e]
  {
    hide Next, DirectoryStep, StrictLoss, Fresh;
    more := History(h.states + [s'], h.dirs + [dir'], h.events + [e]);
  }

  lemma LeadsReachable(h: History, s: System, dir: Directory)
    requires Leads(h, s, dir)
    ensures Reachable(s)
  {
    hide StrictRun, Like, LiveFiles, Shadow;
    StrictLengths(h.states, h.dirs, h.events);
    StrictTracked(h.states, h.dirs, h.events, |h.events|);
    LikeReachable(h.events[..|h.events|], s);
  }

  lemma LeadsKeptIff(h: History, s: System, dir: Directory)
    requires Leads(h, s, dir)
    ensures Kept(h.events, s, dir) <==> Harmless(h.events, s, dir)
  {
    hide StrictRun, Kept, Harmless;
    StrictLengths(h.states, h.dirs, h.events);
    KeptIff(h.states, h.dirs, h.events);
  }

  // ----- puts -----

  lemma Begin(s: System) returns (h: History)
    requires Fresh(s)
    ensures Leads(h, s, DirectoryOf(s.disk)) && h.events == []
  {
    h := History([s], [DirectoryOf(s.disk)], []);
  }

  lemma Opens(s0: System, s1: System, s2: System) returns (h: History)
    requires Fresh(s0) && s1.Stopped? && Next(s0, Internal, s1) && Next(s1, Internal, s2)
    ensures Leads(h, s2, DirectoryOf(s0.disk)) && h.events == [Internal, Internal]
  {
    hide Next, Leads, GoesOn;
    var dir := DirectoryOf(s0.disk);
    h := Begin(s0);
    StoppedStaysBehind(s0, s1);
    StoppedStaysBehind(s1, s2);
    h := Go(h, s0, dir, Internal, s1, dir);
    h := Go(h, s1, dir, Internal, s2, dir);
  }

  /** A new database, opened for the first time. */
  lemma NewDatabase() returns (h: History)
    ensures Leads(h, After([]), Directory(false, None, map[])) && h.events == [Internal, Internal]
  {
    hide Next, Leads, After, OnlyLog;
    StartSteps();
    h := Opens(Stopped(DiskImage(None, 0, [], None, map[])), Stopped(OnlyLog([])), After([]));
  }

  lemma StoppedStaysBehind(s: System, s': System)
    requires s.Stopped?
    ensures !GoesOn(s, s')
  {}

  lemma AppendGoes(s: System, r: WalPutRecord, s1: System)
    requires PutAppend(s, r, s1)
    ensures Next(s, Internal, s1) && !GoesOn(s, s1)
  {
    hide PutAppend, FlushCommit, FlushCut, CompactCommit, CompactRemove, CompactFinish;
    IdlePut(s, r, s1);
    NotGoingOn(s, s1);
  }

  lemma IdlePut(s: System, r: WalPutRecord, s1: System)
    requires PutAppend(s, r, s1)
    ensures s.Running? && s.phase == Idle
  {}

  lemma PutFrom(s: System, r: WalPutRecord) returns (s1: System, s': System)
    requires Reachable(s) && s.Running? && s.phase == Idle && WalRecord.Encode(r).Success?
    ensures Next(s, Internal, s1) && !GoesOn(s, s1) && Next(s1, Acknowledged(r, s.view.durability), s')
    ensures AllReadable(s.view.segments) && s'.Running? && s'.phase == Idle
    ensures s'.view == AfterPut(s.view, r, s'.view.walSize) && s'.disk.manifest == s.disk.manifest
  {
    hide WalRecord.Encode, AllReadable, SegmentContents, Reachable, InternalStep, GoesOn, Load, ParseWal, OpensLive;
    QuiescentInvariant(s);
    var grown := s.disk.(wal := Some(WalBytes(s.disk) + WalRecord.Encode(r).value));
    s1 := s.(phase := Appended(r), disk := grown);
    s' := Running(AfterPut(s.view, r, |WalBytes(grown)|), Idle,
                  if s.view.durability == SyncOnAppend then AfterSync(grown) else grown);
    AppendGoes(s, r, s1);
  }

  lemma PutGoes(h: History, s: System, dir: Directory, r: WalPutRecord) returns (more: History, s': System)
    requires Leads(h, s, dir) && s.Running? && s.phase == Idle && WalRecord.Encode(r).Success?
    ensures Leads(more, s', dir) && more.events == h.events + [Internal, Acknowledged(r, s.view.durability)]
    ensures AllReadable(s.view.segments) && s'.Running? && s'.phase == Idle
    ensures s'.view == AfterPut(s.view, r, s'.view.walSize) && s'.disk.manifest == s.disk.manifest
  {
    hide Leads, WalRecord.Encode, AllReadable, SegmentContents, Reachable, Next, GoesOn, AfterPut;
    LeadsReachable(h, s, dir);
    var s1: System;
    s1, s' := PutFrom(s, r);
    var h1 := Go(h, s, dir, Internal, s1, dir);
    more := Go(h1, s1, dir, Acknowledged(r, s.view.durability), s', dir);
    assert h.events + [Internal] + [Acknowledged(r, s.view.durability)]
        == h.events + [Internal, Acknowledged(r, s.view.durability)];
  }

  /** The first put of a new database may vanish although it has been synced. */
  lemma SyncedPutMayVanish(x: WalPutRecord) returns (h: History, s: System, dir: Directory)
    requires WalRecord.Encode(x).Success?
    ensures Leads(h, s, dir) && h.events == [Internal, Internal, Internal, Acknowledged(x, Buffered), Synced]
    ensures !Kept(h.events, s, dir)
  {
    hide Leads, Kept, WalRecord.Encode, Fold, LogBytesOf, AllReadable, SegmentContents;
    dir := Directory(false, None, map[]);
    var h0 := NewDatabase();
    var h1, s1 := PutGoes(h0, After([]), dir, x);
    LeadsReachable(h1, s1, dir);
    HasLog(s1);
    s := s1.(disk := AfterSync(s1.disk));
    assert SyncWal(s1, s);
    h := Go(h1, s1, dir, Synced, s, dir);
    LeadsKeptIff(h, s, dir);
    SyncedPutIsSafe(h.events, x);
  }

  lemma SyncedPutIsSafe(events: seq<Event>, x: WalPutRecord)
    requires events == [Internal, Internal, Internal, Acknowledged(x, Buffered), Synced]
    ensures !AllAtRisk(events, true)
  {
    var puts := [Internal, Internal, Internal, Acknowledged(x, Buffered)];
    assert events[..4] == puts;
    assert !AllAtRisk(puts, false);
  }

  // ----- flushes -----

  lemma FlushGoes(h: History, s: System, dir: Directory) returns (more: History, s': System, dir': Directory)
    requires Leads(h, s, dir) && s.Running? && s.phase == Idle && s.view.memtable != map[]
    requires TableFits(s.view.memtable) && ManifestRoom(s.view)
    ensures Leads(more, s', dir') && more.events == h.events + [Internal, Internal, Internal, Synced]
    ensures s'.Running? && s'.phase == Idle && AllReadable(s.view.segments) && AllReadable(s'.view.segments)
    ensures s'.view.memtable == map[] && s'.view.sampleCount == s.view.sampleCount
    ensures |s'.view.segments| == |s.view.segments| + 1
    ensures |s'.view.manifest.segmentFiles| == |s.view.manifest.segmentFiles| + 1
    ensures s'.view.manifest.generation == s.view.manifest.generation + 1
    ensures SegmentContents(s'.view.segments) == SegmentContents(s.view.segments) + s.view.memtable
  {
    hide Leads, TableFits, FlushPublish, FlushCommit, Reachable, GoesOn, InSync, AllReadable, SegmentContents;
    LeadsReachable(h, s, dir);
    FlushPossibleIff(s);
    var s1, s2 :| FlushPublish(s, s1) && FlushCommit(s1, s2);
    FlushParts(s, s1, s2);
    var s3 := Running(s2.view.(memtable := map[], walSize := 0), FlushEmptied, Truncate(s2.disk, 0));
    s' := s3.(phase := Idle, disk := AfterSync(s3.disk));
    dir' := DirectoryOf(s2.disk);
    NotGoingOn(s, s1);
    assert InSync(DirectoryOf(s1.disk), s1.disk) by { OwnDirectoryInSync(s1.disk); }
    assert InSync(dir', s2.disk) by { OwnDirectoryInSync(s2.disk); }
    var h1 := Go(h, s, dir, Internal, s1, DirectoryOf(s1.disk));
    var h2 := Go(h1, s1, DirectoryOf(s1.disk), Internal, s2, dir');
    assert FlushCut(s2, s3) && FlushFinish(s3, s');
    var h3 := Go(h2, s2, dir', Internal, s3, dir');
    more := Go(h3, s3, dir', Synced, s', dir');
    assert more.events == h.events + [Internal, Internal, Internal, Synced];
  }

  lemma OwnDirectoryInSync(d: DiskImage)
    ensures InSync(DirectoryOf(d), d)
  {}

  lemma NotGoingOn(s: System, s': System)
    requires s.Running? && s.phase == Idle
    ensures !GoesOn(s, s')
  {}

  lemma FlushParts(s: System, s1: System, s2: System)
    requires Reachable(s) && FlushPublish(s, s1) && FlushCommit(s1, s2)
    ensures s2.Running? && s2.phase == FlushCommitted
    ensures AllReadable(s.view.segments) && AllReadable(s2.view.segments)
    ensures s2.view.sampleCount == s.view.sampleCount && |s2.view.segments| == |s.view.segments| + 1
    ensures |s2.view.manifest.segmentFiles| == |s.view.manifest.segmentFiles| + 1
    ensures s2.view.manifest.generation == s.view.manifest.generation + 1
    ensures SegmentContents(s2.view.segments) == SegmentContents(s.view.segments) + s.view.memtable
  {
    hide Reachable, SegmentFor, M.Encode, AllReadable, SegmentContents, SegmentReader.Valid, SegmentReader.Readable,
      SegmentReader.Points;
    QuiescentInvariant(s);
    var reader := s1.phase.reader;
    SegmentForHolds(s.view.memtable, reader.content, reader);
    SegmentContentsSnoc(s.view.segments, reader);
  }

  // ----- a compaction that dies before its directory sync -----

  /** What recovery leaves when it removes every file that the manifest does not name. */
  ghost function CleanedUp(d: DiskImage, removed: seq<Name>): DiskImage {
    d.(files := map n | n in d.files && n !in removed :: d.files[n])
  }

  /** The manifest is renamed, the directory sync fails, and the engine stops. */
  lemma CompactionDies(h: History, s: System, dir: Directory) returns (more: History, s2: System, dir': Directory)
    requires Leads(h, s, dir) && s.Running? && s.phase == Idle && |s.view.segments| > 1
    requires AllReadable(s.view.segments) && TableFits(SegmentContents(s.view.segments))
    requires s.view.manifest.generation < U64_MAX
    ensures Leads(more, Stopped(s2.disk), dir') && more.events == h.events + [Internal, Internal, Halted(None)]
    ensures Reachable(s2) && s2.Running? && s2.view.manifest.segmentFiles == [NextName(s.view.manifest)]
    ensures dir'.manifest == s.disk.manifest
  {
    hide Leads, TableFits, Reachable, GoesOn, InSync, AllReadable, SegmentContents, CompactPublish, CompactCommit,
      NextName, Halt;
    LeadsReachable(h, s, dir);
    var s1: System;
    s1, s2 := CompactionSteps(s);
    dir' := DirectoryOf(s1.disk);
    NotGoingOn(s, s1);
    OwnDirectoryInSync(s1.disk);
    var h1 := Go(h, s, dir, Internal, s1, dir');
    var h2 := Go(h1, s1, dir', Internal, s2, dir');
    LeadsReachable(h2, s2, dir');
    HaltHere(s2);
    more := Go(h2, s2, dir', Halted(None), Stopped(s2.disk), dir');
    assert more.events == h.events + [Internal, Internal, Halted(None)];
  }

  lemma HaltHere(s: System)
    requires s.Running? && s.phase.CompactCommitted?
    ensures Halt(s, None, Stopped(s.disk))
  {}

  /**
    Whenever a compaction is possible: if the directory sync after its manifest fails, the engine stops, and the
    recovery that follows removes the replaced segments, which the manifest before may still name after a power failure.
   */
  lemma CompactionLost(h: History, s: System, dir: Directory) returns (more: History, s': System, dir': Directory)
    requires Leads(h, s, dir) && s.Running? && s.phase == Idle && |s.view.segments| > 1
    requires AllReadable(s.view.segments) && TableFits(SegmentContents(s.view.segments))
    requires s.view.manifest.generation < U64_MAX
    ensures Leads(more, s', dir') && more.events == h.events + [Internal, Internal, Halted(None), Internal]
    ensures s'.Stopped? && !Kept(more.events, s', dir')
  {
    hide Leads, TableFits, Reachable, GoesOn, AllReadable, SegmentContents, RecoverCleanup, Kept, LiveFiles, NextName,
      DirectoryStep;
    var dead, s2: System;
    dead, s2, dir' := CompactionDies(h, s, dir);
    LeadsReachable(h, s, dir);
    var s3 := Stopped(s2.disk);
    LeadsReachable(dead, s3, dir');
    s' := Stopped(CleanedUp(s3.disk, s.view.manifest.segmentFiles));
    ReplacedAreRemovable(s, s2, s3);
    CleanupGoes(s3, s', dir');
    more := Go(dead, s3, dir', Internal, s', dir');
    assert more.events == h.events + [Internal, Internal, Halted(None), Internal];
    SegmentGone(s, s', dir');
    LeadsKeptIff(more, s', dir');
  }

  lemma CleanupGoes(s: System, s': System, dir: Directory)
    requires RecoverCleanup(s, s')
    ensures Next(s, Internal, s') && DirectoryStep(s, dir, Internal, s', dir)
  {
    hide Load, Removable;
    StoppedStaysBehind(s, s');
  }

  lemma CompactionPublishes(s: System) returns (reader: SegmentReader, s1: System)
    requires Reachable(s) && s.Running? && s.phase == Idle && |s.view.segments| > 1
    requires AllReadable(s.view.segments) && TableFits(SegmentContents(s.view.segments))
    requires s.view.manifest.generation < U64_MAX
    ensures CompactPublish(s, s1)
    ensures s1 == Running(s.view, CompactPublished(NextName(s.view.manifest), reader), s1.disk)
    ensures s1.disk.manifest == s.disk.manifest
  {
    hide TableFits, Reachable, AllReadable, SegmentContents, SegmentFor, NextName, Load, OpensLive, ParseWal;
    QuiescentInvariant(s);
    SegmentsHoldPoints(s.view.segments);
    reader := FittingSegment(SegmentContents(s.view.segments));
    var name := NextName(s.view.manifest);
    s1 := Running(s.view, CompactPublished(name, reader), Publish(s.disk, name, reader.content));
  }

  lemma CompactionEncodes(s: System)
    requires Reachable(s) && s.Running? && s.view.manifest.generation < U64_MAX
    ensures M.Encode(CompactedManifest(s.view, NextName(s.view.manifest))).Success?
  {
    hide Reachable, M.Encode, Sound, NextName, CompactedManifest, Related;
    var l := ReachableRelated(s);
    var m, segments := SoundHere(s, l);
    CompactedEncodes(s.disk, s.view);
  }

  lemma CompactionSteps(s: System) returns (s1: System, s2: System)
    requires Reachable(s) && s.Running? && s.phase == Idle && |s.view.segments| > 1
    requires AllReadable(s.view.segments) && TableFits(SegmentContents(s.view.segments))
    requires s.view.manifest.generation < U64_MAX
    ensures CompactPublish(s, s1) && CompactCommit(s1, s2)
    ensures s1.Running? && s1.disk.manifest == s.disk.manifest
    ensures s2.Running? && s2.phase.CompactCommitted? && s2.view.manifest.segmentFiles == [NextName(s.view.manifest)]
  {
    hide TableFits, Reachable, AllReadable, SegmentContents, M.Encode, NextName, CompactPublish, CompactedManifest;
    var reader: SegmentReader;
    reader, s1 := CompactionPublishes(s);
    CompactionEncodes(s);
    var next := CompactedManifest(s.view, NextName(s.view.manifest));
    CompactedNames(s.view, NextName(s.view.manifest));
    s2 := Running(s.view.(manifest := next, segments := [reader]),
                  CompactCommitted(set n | n in s.view.manifest.segmentFiles),
                  s1.disk.(manifest := Some(M.Encode(next).value)));
  }

  lemma CompactedNames(v: EngineView, name: Name)
    ensures CompactedManifest(v, name).segmentFiles == [name]
  {}

  lemma ReplacedAreRemovable(s: System, s2: System, s3: System)
    requires Reachable(s) && Reachable(s3) && s.Running? && s2.Running? && s3 == Stopped(s2.disk) && Reachable(s2)
    requires s2.view.manifest.segmentFiles == [NextName(s.view.manifest)] && s.view.manifest.generation < U64_MAX
    ensures RecoverCleanup(s3, Stopped(CleanedUp(s3.disk, s.view.manifest.segmentFiles)))
  {
    hide Reachable, Load, NextName, LooksLikeSegment, LooksLikeTemporary, GenerationUpTo, AllReadable, SegmentContents;
    QuiescentInvariant(s);
    QuiescentInvariant(s2);
    LiveHere(s);
    forall n | n in s.view.manifest.segmentFiles
      ensures Removable(s2.view.manifest, n)
    {
      LiveNames(s.view.manifest, n);
    }
  }

  lemma SegmentGone(s: System, s': System, dir: Directory)
    requires Reachable(s) && s.Running? && |s.view.segments| > 1 && dir.manifest == s.disk.manifest
    requires forall n :: n in s.view.manifest.segmentFiles ==> n !in s'.disk.files
    ensures exists n :: n in LiveFiles(dir.manifest) && n !in s'.disk.files
  {
    hide Reachable, Load, AllReadable, SegmentContents;
    QuiescentInvariant(s);
    assert s.view.manifest.segmentFiles[0] in LiveFiles(dir.manifest);
  }

  // ----- such a compaction exists -----

  lemma OneSample(x: WalPutRecord)
    requires |EncKey(x.series)| < 1000
    ensures TableFits(map[PointOf(x) := x.sample.value])
  {
    hide EncKey, SegmentFor, TableFits, SamplesMap;
    var reader := SmallSegment(x.series, [x.sample]);
    SegmentForSnapshot(SamplesMap(x.series, [x.sample]), reader.content, reader);
    OneSampleMap(x.series, x.sample);
  }

  lemma OneSampleMap(series: SeriesKey, x: Sample)
    ensures SamplesMap(series, [x]) == map[(series, x.timestamp) := x.value]
  {
    assert [x][..0] == [];
    assert SamplesMap(series, []) == map[];
  }

  lemma TwoSamplesFit(x: WalPutRecord, y: WalPutRecord)
    requires x.series == y.series && x.sample.timestamp < y.sample.timestamp && |EncKey(x.series)| < 1000
    ensures TableFits(map[PointOf(x) := x.sample.value] + map[PointOf(y) := y.sample.value])
  {
    hide EncKey, SegmentFor, TableFits, SamplesMap;
    var reader := SmallSegment(x.series, [x.sample, y.sample]);
    SegmentForSnapshot(SamplesMap(x.series, [x.sample, y.sample]), reader.content, reader);
    TwoSamples(x.series, x.sample, y.sample);
    assert map[PointOf(x) := x.sample.value][PointOf(y) := y.sample.value]
        == map[PointOf(x) := x.sample.value] + map[PointOf(y) := y.sample.value];
  }

  /** One put and a flush that makes it a segment. */
  lemma PutAndFlush(h: History, s: System, dir: Directory, x: WalPutRecord)
    returns (more: History, s': System, dir': Directory)
    requires Leads(h, s, dir) && s.Running? && s.phase == Idle && s.view.memtable == map[]
    requires WalRecord.Encode(x).Success? && |EncKey(x.series)| < 1000
    requires |s.view.manifest.segmentFiles| < 100 && s.view.manifest.generation < 100 && s.view.sampleCount < 100
    ensures Leads(more, s', dir') && s'.Running? && s'.phase == Idle && s'.view.memtable == map[]
    ensures AcknowledgedPuts(more.events) == AcknowledgedPuts(h.events) + [x] && SafePut(more.events)
    ensures |s'.view.manifest.segmentFiles| == |s.view.manifest.segmentFiles| + 1
    ensures s'.view.manifest.generation == s.view.manifest.generation + 1
    ensures s'.view.sampleCount <= s.view.sampleCount + 1 && |s'.view.segments| == |s.view.segments| + 1
    ensures AllReadable(s.view.segments) && AllReadable(s'.view.segments)
    ensures SegmentContents(s'.view.segments) == SegmentContents(s.view.segments) + map[PointOf(x) := x.sample.value]
  {
    hide Leads, WalRecord.Encode, EncKey, TableFits, AllReadable, SegmentContents, AllAtRisk, AcknowledgedPuts, SafePut;
    var h1, s1 := PutGoes(h, s, dir, x);
    assert s1.view.memtable == map[PointOf(x) := x.sample.value];
    OneSample(x);
    more, s', dir' := FlushGoes(h1, s1, dir);
    FlushedEvents(h.events, x, s.view.durability);
  }

  /** Some acknowledged put would survive a power failure, whatever has been synced since. */
  predicate SafePut(events: seq<Event>) {
    !AllAtRisk(events, true) && !AllAtRisk(events, false)
  }

  lemma OneMoreEvent(events: seq<Event>, e: Event)
    ensures AcknowledgedPuts(events + [e]) == AcknowledgedPuts(events) + if e.Acknowledged? then [e.record] else []
    ensures !e.Acknowledged? && SafePut(events) ==> SafePut(events + [e])
    ensures e == Synced && !AllAtRisk(events, false) ==> SafePut(events + [e])
    ensures e == Internal && !AllAtRisk(events, false) ==> !AllAtRisk(events + [e], false)
    ensures e.Acknowledged? ==> !AllAtRisk(events + [e], false)
  {
    assert (events + [e])[..|events|] == events;
  }

  lemma FlushedEvents(events: seq<Event>, x: WalPutRecord, durability: Durability)
    ensures var all := events + [Internal, Acknowledged(x, durability)] + [Internal, Internal, Internal, Synced];
            AcknowledgedPuts(all) == AcknowledgedPuts(events) + [x] && SafePut(all)
  {
    hide AllAtRisk, AcknowledgedPuts, SafePut;
    var e1 := events + [Internal];
    var e2 := e1 + [Acknowledged(x, durability)];
    var e3 := e2 + [Internal];
    var e4 := e3 + [Internal];
    var e5 := e4 + [Internal];
    OneMoreEvent(events, Internal);
    OneMoreEvent(e1, Acknowledged(x, durability));
    OneMoreEvent(e2, Internal);
    OneMoreEvent(e3, Internal);
    OneMoreEvent(e4, Internal);
    OneMoreEvent(e5, Synced);
    assert events + [Internal, Acknowledged(x, durability)] + [Internal, Internal, Internal, Synced] == e5 + [Synced];
  }

  lemma StoppedEvents(events: seq<Event>)
    requires SafePut(events)
    ensures var all := events + [Internal, Internal, Halted(None), Internal];
            AcknowledgedPuts(all) == AcknowledgedPuts(events) && SafePut(all)
  {
    hide AllAtRisk, AcknowledgedPuts, SafePut;
    var e1 := events + [Internal];
    var e2 := e1 + [Internal];
    var e3 := e2 + [Halted(None)];
    OneMoreEvent(events, Internal);
    OneMoreEvent(e1, Internal);
    OneMoreEvent(e2, Halted(None));
    OneMoreEvent(e3, Internal);
    assert events + [Internal, Internal, Halted(None), Internal] == e3 + [Internal];
  }

  lemma StartView()
    ensures var s := After([]);
            && s.Running? && s.phase == Idle && s.view.memtable == map[] && s.view.manifest == ManifestState(0, 0, [])
            && s.view.segments == [] && s.view.sampleCount == 0
    ensures AcknowledgedPuts([Internal, Internal]) == []
  {
    assert [Internal, Internal][..1] == [Internal] && [Internal][..0] == [];
  }

  lemma ExampleEncodes(x: WalPutRecord, z: WalPutRecord, y: WalPutRecord)
    requires Encodes([x, z, y])
    ensures WalRecord.Encode(x).Success? && WalRecord.Encode(y).Success?
  {
    hide WalRecord.Encode;
    assert WalRecord.Encode([x, z, y][0]).Success? && WalRecord.Encode([x, z, y][2]).Success?;
  }

  lemma NothingBelow(m: Contents)
    ensures SegmentContents([]) + m == m
  {
    NoSegments();
  }

  /** Two puts, both flushed and synced, and a compaction that may lose them. */
  lemma SomeCompactionLost() returns (h: History, s: System, dir: Directory, x: WalPutRecord, y: WalPutRecord)
    ensures Leads(h, s, dir) && !Kept(h.events, s, dir)
    ensures AcknowledgedPuts(h.events) == [x, y] && PointOf(x) != PointOf(y) && SafePut(h.events)
  {
    hide Leads, Kept, AllAtRisk, WalRecord.Encode, EncKey, TableFits, Encodes, AllReadable, SegmentContents, After,
      AcknowledgedPuts, SafePut;
    var z: WalPutRecord;
    x, z, y := ExampleRecords();
    ExampleEncodes(x, z, y);
    var h0 := NewDatabase();
    var start := After([]);
    StartView();
    var h1, s1, d1 := PutAndFlush(h0, start, Directory(false, None, map[]), x);
    var h2, s2, d2 := PutAndFlush(h1, s1, d1, y);
    NothingBelow(map[PointOf(x) := x.sample.value]);
    TwoSamplesFit(x, y);
    h, s, dir := CompactionLost(h2, s2, d2);
    StoppedEvents(h2.events);
  }
}
