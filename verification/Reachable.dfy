/** What holds of every state the engine can reach, and what every recovery from such a state achieves. */
module ReachableStates {
  import opened Prelude
  import opened WalRecovery
  import opened Contents
  import opened SegmentReaders
  import opened SegmentNames
  import opened M = Manifest
  import opened Overlay
  import opened Disk
  import opened DurableLog
  import opened Protocol
  import opened ProtocolInvariant
  import opened ProtocolSteps
  import opened CrashSafety

  ghost predicate Reachable(s: System) {
    exists states, events :: Run(states, events) && states[|events|] == s
  }

  lemma NowReachable(states: seq<System>, events: seq<Event>)
    requires Run(states, events)
    ensures Reachable(states[|events|])
  {
    hide Next, Fresh;
  }

  lemma ReachableRelated(s: System) returns (l: LogState)
    requires Reachable(s)
    ensures Related(s, l)
  {
    hide Next, Fresh, Related, LogNext, Publishes;
    var states, events :| Run(states, events) && states[|events|] == s;
    var ls := RunFollows(states, events);
    l := ls[|events|];
  }

  // ----- between operations -----

  /**
    Between operations: the memtable is the replay of the write-ahead log, the stored manifest is the one in memory,
    and both sample counts are the numbers of distinct points.
   */
  lemma QuiescentInvariant(s: System)
    requires Reachable(s) && s.Running?
    ensures AllReadable(s.view.segments) && OpensLive(s.disk, s.view.manifest, s.view.segments)
    ensures Load(s.disk.manifest) == Success(s.view.manifest)
    ensures s.view.manifest.logicalSampleCount == |SegmentContents(s.view.segments)|
    ensures s.view.sampleCount == |Visible(s.view)|
    ensures s.phase == Idle ==>
              && s.disk.wal.Some? && s.view.walSize == |WalBytes(s.disk)|
              && Clean(WalBytes(s.disk), ParseWal(WalBytes(s.disk)).records)
              && s.view.memtable == Fold(ParseWal(WalBytes(s.disk)).records)
  {
    hide Load, AllReadable, SegmentContents, ParseWal, WalTracks, EarlierTrack, Fold, PhaseOk, GenerationUpTo,
      OpensLive;
    var l := ReachableRelated(s);
  }

  /** The count check of compaction compares equal numbers in every reachable state. */
  lemma CompactionCheckPasses(s: System)
    requires Reachable(s) && s.Running?
    ensures AllReadable(s.view.segments)
    ensures |SegmentContents(s.view.segments)| == s.view.manifest.logicalSampleCount
  {
    hide Reachable, SegmentContents, AllReadable;
    QuiescentInvariant(s);
  }

  // ----- names -----

  /**
    Every live name was given out for a generation up to the manifest's, and its file is there. The next name is not
    live, and nothing that recovery or compaction removes is.
   */
  lemma LiveFilesAreSafe(s: System)
    requires Reachable(s)
    ensures Load(s.disk.manifest).Success?
    ensures var m := Load(s.disk.manifest).value;
            && m.generation <= U64_MAX
            && (m.generation < U64_MAX ==> NextName(m) !in m.segmentFiles)
            && (forall n :: n in m.segmentFiles ==>
                  && n in s.disk.files && GenerationUpTo(n, m.generation) && !Removable(m, n) && !Temporary(n)
                  && n != TemporaryOf(NextName(m)))
            && (s.Running? && s.phase.CompactCommitted? ==> forall n :: n in s.phase.obsolete ==> n !in m.segmentFiles)
  {
    hide Load, SegmentReader.Valid, AllReadable, SegmentContents, WalTracks, EarlierTrack, TableOk, GenerationUpTo,
      NextName;
    var l := ReachableRelated(s);
    var m, segments := SoundHere(s, l);
    LiveNamesAll(m);
    TemporaryOfTemporary(NextName(m));
    forall n | n in m.segmentFiles
      ensures n in s.disk.files
    {
      var i :| 0 <= i < |m.segmentFiles| && m.segmentFiles[i] == n;
      assert m.segmentFiles[i] in s.disk.files;
    }
  }

  lemma SoundHere(s: System, l: LogState) returns (m: ManifestState, segments: seq<SegmentReader>)
    requires Related(s, l)
    ensures Sound(s.disk, m, segments)
    ensures s.Running? ==> m == s.view.manifest && segments == s.view.segments
    ensures s.Stopped? ==> DiskOk(s.disk, m, segments, l)
  {
    hide Sound, TableOk, WalTracks, EarlierTrack;
    match s
    case Running(v, _, _) => m, segments := v.manifest, v.segments;
    case Stopped(d) => m, segments :| DiskOk(d, m, segments, l);
  }

  // ----- recovery -----

  /**
    Recovery never refuses a reachable disk: the manifest loads, every live file opens and reads back, the stored
    count passes the plausibility check, and the write-ahead log holds no corrupt record.
   */
  lemma RecoveryNeverRefuses(s: System) returns (m: ManifestState, segments: seq<SegmentReader>)
    requires Reachable(s) && s.Stopped?
    ensures Load(s.disk.manifest) == Success(m) && OpensLive(s.disk, m, segments) && AllReadable(segments)
    ensures CountPlausible(m, segments)
    ensures m.logicalSampleCount <= PhysicalSamples(segments) && (segments == [] ==> m.logicalSampleCount == 0)
    ensures ParseWal(WalBytes(s.disk)).Replayed?
  {
    hide Load, OpensLive, AllReadable, SegmentContents, ParseWal, Tracks, EarlierTrack, GenerationUpTo,
      PhysicalSamples;
    var l := ReachableRelated(s);
    m, segments := SoundHere(s, l);
    DistinctAtMostPhysical(segments);
    if segments == [] {
      NoSegments();
    }
  }

  /** What the plausibility check refuses. */
  lemma ImplausibleIff(m: ManifestState, segments: seq<SegmentReader>)
    ensures !CountPlausible(m, segments) <==>
            m.logicalSampleCount > PhysicalSamples(segments) || (|segments| == 0 && m.logicalSampleCount > 0)
  {
    hide PhysicalSamples;
  }

  /** Once the tail is repaired, recovery ends in a running engine that shows what the disk held, in any mode. */
  lemma RecoveryFinishes(s: System, c: Contents, durability: Durability) returns (s': System)
    requires Reachable(s) && s.Stopped? && s.disk.wal.Some? && Shows(s, c)
    requires ParseWal(WalBytes(s.disk)).Replayed? && ParseWal(WalBytes(s.disk)).tailBytes == 0
    ensures RecoverFinish(s, s') && s'.Running? && s'.view.durability == durability && Shows(s', c)
  {
    hide Load, OpensLive, AllReadable, SegmentContents, ParseWal, GenerationUpTo, CountPlausible, Fold, Related;
    var m, segments := RecoveryNeverRefuses(s);
    var records := ParseWal(WalBytes(s.disk)).records;
    var count := ReplayedCount(m.logicalSampleCount, SegmentContents(segments), records);
    s' := Running(EngineView(durability, Fold(records), m, segments, count, |WalBytes(s.disk)|), Idle, s.disk);
    var l := ReachableRelated(s);
    assert InternalStep(s, s');
    var l' := InternalKeeps(s, s', l);
    RelatedShows(s, l);
    RelatedShows(s', l');
    ShowsOne(s, c, Fold(l.log));
  }

  /** A recovery interrupted by nothing: create or repair the log, sync it, finish. */
  lemma RecoveryCompletes(s: System, c: Contents, durability: Durability) returns (path: seq<System>)
    requires Reachable(s) && s.Stopped? && Shows(s, c)
    ensures 2 <= |path| <= 4 && path[0] == s
    ensures forall i :: 0 <= i < |path| - 1 ==> Next(path[i], Internal, path[i + 1]) || RecoverSync(path[i], path[i + 1])
    ensures path[|path| - 1].Running? && Shows(path[|path| - 1], c)
    ensures path[|path| - 1].view.durability == durability
  {
    hide Reachable, Shows, RecoverFinish, ParseWal;
    if s.disk.wal.None? {
      var s1 := Stopped(s.disk.(wal := Some([]), synced := 0));
      assert InternalStep(s, s1);
      StepReaches(s, Internal, s1);
      StepShows(s, Internal, s1, c);
      CleanEmpty();
      var s2 := RecoveryFinishes(s1, c, durability);
      assert InternalStep(s1, s2);
      path := [s, s1, s2];
    } else {
      var _, _ := RecoveryNeverRefuses(s);
      var w := WalBytes(s.disk);
      if ParseWal(w).tailBytes == 0 {
        var s1 := RecoveryFinishes(s, c, durability);
        assert InternalStep(s, s1);
        path := [s, s1];
      } else {
        RepairedIsClean(w);
        var valid := ParseWal(w).validBytes;
        var s1 := Stopped(Truncate(s.disk, valid));
        assert RecoverTruncate(s, s1) && InternalStep(s, s1);
        StepReaches(s, Internal, s1);
        StepShows(s, Internal, s1, c);
        var s2 := Stopped(AfterSync(s1.disk));
        assert RecoverSync(s1, s2);
        StepReaches(s1, Synced, s2);
        StepShows(s1, Synced, s2, c);
        var s3 := RecoveryFinishes(s2, c, durability);
        assert InternalStep(s2, s3);
        path := [s, s1, s2, s3];
      }
    }
  }

  lemma StepReaches(s: System, e: Event, s': System)
    requires Reachable(s) && Next(s, e, s')
    ensures Reachable(s')
  {
    hide Next, Fresh;
    var states, events :| Run(states, events) && states[|events|] == s;
    assert Run(states + [s'], events + [e]);
    assert (states + [s'])[|events + [e]|] == s';
  }

  // ----- nothing but puts and failures is visible -----

  lemma StepShows(s: System, e: Event, s': System, c: Contents)
    requires Reachable(s) && Next(s, e, s') && (e == Internal || e == Synced) && Shows(s, c)
    ensures Shows(s', c)
  {
    hide Next, Reachable, Related, Shows, Fold;
    var l := ReachableRelated(s);
    var l' := StepKeeps(s, e, s', l);
    RelatedShows(s, l);
    RelatedShows(s', l');
    ShowsOne(s, c, Fold(l.log));
  }

  /** Flushing, compacting, syncing and recovering leave the answer of every query as it was. */
  lemma HousekeepingIsInvisible(s: System, e: Event, s': System)
    requires Reachable(s) && Next(s, e, s') && (e == Internal || e == Synced)
    requires s.Running? && s'.Running?
    ensures AllReadable(s.view.segments) && AllReadable(s'.view.segments)
    ensures Visible(s'.view) == Visible(s.view)
  {
    hide Next, Reachable, SegmentContents, AllReadable;
    QuiescentInvariant(s);
    StepShows(s, e, s', Visible(s.view));
  }

  // ----- a synced log -----

  /** Losing power right now takes nothing away: the next recovery reads back what is shown at present. */
  ghost predicate SurvivesPowerLoss(s: System) {
    forall c, d :: Shows(s, c) && AfterPowerLoss(s.disk, d) ==> Shows(Stopped(d), c)
  }

  /** The log file comes back byte by byte if all of it was synced and no cut was pending. */
  lemma SyncedBytesStay(d: DiskImage, d': DiskImage)
    requires WalSynced(d) && AfterPowerLoss(d, d')
    ensures WalBytes(d') == WalBytes(d)
  {
    hide LiveFiles;
    var k: nat :| FallsBack(d, WalBytes(d'), k);
    assert Versions(d) == [Version(WalBytes(d), d.synced)];
  }

  lemma SyncedSurvives(s: System)
    requires Reachable(s) && (s.Running? ==> s.phase == Idle) && WalSynced(s.disk)
    ensures SurvivesPowerLoss(s)
  {
    forall c, d | Shows(s, c) && AfterPowerLoss(s.disk, d)
      ensures Shows(Stopped(d), c)
    {
      ShownAfterPowerLoss(s, c, d);
    }
  }

  lemma ShownAfterPowerLoss(s: System, c: Contents, d: DiskImage)
    requires Reachable(s) && (s.Running? ==> s.phase == Idle) && WalSynced(s.disk)
    requires Shows(s, c) && AfterPowerLoss(s.disk, d)
    ensures Shows(Stopped(d), c)
  {
    hide Reachable, Load, AllReadable, SegmentContents, ParseWal, Fold, FallsBack;
    SyncedBytesStay(s.disk, d);
    var m, segments := ManifestState(0, 0, []), [];
    match s {
      case Running(v, _, _) =>
        QuiescentInvariant(s);
        m, segments := v.manifest, v.segments;
      case Stopped(e) =>
        m, segments :| Load(e.manifest) == Success(m) && OpensLive(e, m, segments) && AllReadable(segments)
                       && c == SegmentContents(segments) + Fold(ParseWal(WalBytes(e)).records);
    }
    assert OpensLive(d, m, segments);
  }
}
