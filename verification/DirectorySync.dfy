/**
  The guarantee on a file system where creating, renaming or removing a file is safe only once its directory is synced.

  The other modules take the log file to be safe once it exists and the manifest once it is renamed. But creating the
  log file does not sync the directory (`src/storage_engine.cpp:126-130`), and the sync that follows each rename
  (`src/file_io.cpp:122-155`) may fail when the rename has happened already. `Directory` is what the last sync of the
  directory has made safe. `StrictSurvive` and `KeptIff` say exactly when a power failure is still harmless.
 */
module DirectorySync {
  import opened Prelude
  import opened WalRecord
  import opened WalRecovery
  import opened SegmentNames
  import opened M = Manifest
  import opened Contents
  import opened Overlay
  import opened Disk
  import opened DurableLog
  import opened Protocol
  import opened ProtocolInvariant
  import opened ProtocolSteps
  import opened CrashSafety
  import opened ReachableStates

  // ----- the directory -----

  /** The directory as it was synced last: whether it has a log file, and the other files under their names. */
  datatype Directory = Directory(hasLog: bool, manifest: Option<Bytes>, files: map<Name, Bytes>)

  function DirectoryOf(d: DiskImage): Directory {
    Directory(d.wal.Some?, d.manifest, d.files)
  }

  /** The file under the name is safe as it is. */
  predicate Safe(d: DiskImage, dir: Directory, n: Name) {
    n in d.files && n in dir.files && dir.files[n] == d.files[n]
  }

  ghost predicate InSync(dir: Directory, d: DiskImage) {
    && dir.hasLog == d.wal.Some? && dir.manifest == d.manifest
    && forall n :: n in d.files && !Temporary(n) ==> Safe(d, dir, n)
  }

  /** The steps that rename a file and then try to sync the directory. */
  ghost predicate Renames(s: System, s': System) {
    FlushPublish(s, s') || FlushCommit(s, s') || CompactPublish(s, s') || CompactCommit(s, s')
  }

  /** The steps that are taken only if the sync after the rename before has succeeded. */
  ghost predicate GoesOn(s: System, s': System) {
    FlushCommit(s, s') || FlushCut(s, s') || CompactCommit(s, s') || CompactRemove(s, s') || CompactFinish(s, s')
  }

  ghost predicate DirectoryStep(s: System, dir: Directory, e: Event, s': System, dir': Directory) {
    && (dir' == dir || (e == Internal && Renames(s, s') && dir' == DirectoryOf(s'.disk)))
    && (e == Internal && GoesOn(s, s') ==> InSync(dir, s.disk))
  }

  /**
    Of the directory, what was synced is safe; of what has happened to it since, any part may be lost. The log file
    itself loses bytes as before.
   */
  ghost predicate StrictLoss(s: System, dir: Directory, f: Option<WalPutRecord>, s': System) {
    && s'.Stopped? && f == InFlight(s)
    && var (d, d') := (s.disk, s'.disk);
       && (d'.manifest == d.manifest || d'.manifest == dir.manifest)
       && (d'.wal.None? ==> d.wal.None? || !dir.hasLog)
       && (d'.wal.Some? ==> d.wal.Some? && exists k: nat :: FallsBack(d, WalBytes(d'), k))
       && d'.synced == |WalBytes(d')| && d'.earlier == []
       && forall n :: Safe(d, dir, n) && !Temporary(n) ==> n in d'.files && d'.files[n] == d.files[n]
  }

  ghost predicate StrictNext(s: System, dir: Directory, e: Event, s': System, dir': Directory) {
    if e.PowerLost? then StrictLoss(s, dir, e.inFlight, s') && dir' == DirectoryOf(s'.disk)
    else Next(s, e, s') && DirectoryStep(s, dir, e, s', dir')
  }

  ghost predicate StrictRun(states: seq<System>, dirs: seq<Directory>, events: seq<Event>) {
    && |states| == |dirs| == |events| + 1 && Fresh(states[0]) && dirs[0] == DirectoryOf(states[0].disk)
    && forall i :: 0 <= i < |events| ==> StrictNext(states[i], dirs[i], events[i], states[i + 1], dirs[i + 1])
  }

  // ----- when nothing can go wrong -----

  /** No acknowledged put would be safe from a power failure now. */
  predicate AllAtRisk(events: seq<Event>, atRisk: bool) {
    if events == [] then true
    else
      var init, e := events[..|events| - 1], events[|events| - 1];
      MayBeMissing(e, atRisk) && AllAtRisk(init, RiskBefore(e, atRisk))
  }

  /**
    The log file is safe in its directory or holds nothing safe; and whichever manifest comes back, its segments have
    not been removed.
   */
  ghost predicate Harmless(events: seq<Event>, s: System, dir: Directory) {
    && (s.disk.wal.None? || dir.hasLog || AllAtRisk(events, true))
    && forall n :: n in LiveFiles(dir.manifest) ==> n in s.disk.files
  }

  ghost predicate FailuresHarmless(states: seq<System>, dirs: seq<Directory>, events: seq<Event>)
    requires |states| == |dirs| == |events| + 1
  {
    forall i :: 0 <= i < |events| && events[i].PowerLost? ==> Harmless(events[..i], states[i], dirs[i])
  }

  ghost predicate ExplainedBy(events: seq<Event>, s: System, log: Log) {
    Explains(events, log, false) && Shows(s, Fold(log))
  }

  /** Whatever the next power failure leaves is explained as `DurablePutsSurvive` has it. */
  ghost predicate Kept(events: seq<Event>, s: System, dir: Directory) {
    forall s' :: StrictLoss(s, dir, InFlight(s), s') ==>
      exists log :: ExplainedBy(events + [PowerLost(InFlight(s))], s', log)
  }

  // ----- histories without puts that are safe -----

  lemma {:induction false} NothingExplains(events: seq<Event>, atRisk: bool)
    ensures Explains(events, [], atRisk) <==> AllAtRisk(events, atRisk)
    decreases |events|
  {
    if events != [] {
      NothingExplains(events[..|events| - 1], RiskBefore(events[|events| - 1], atRisk));
    }
  }

  lemma LostAtRisk(events: seq<Event>, f: Option<WalPutRecord>, atRisk: bool)
    ensures AllAtRisk(events + [PowerLost(f)], atRisk) <==> AllAtRisk(events, true)
  {
    var all := events + [PowerLost(f)];
    assert all[..|all| - 1] == events;
  }

  /** After a power failure that left nothing, only what follows needs explaining. */
  lemma {:induction false} ExplainsAfter(before: seq<Event>, after: seq<Event>, log: Log, atRisk: bool)
    requires before != [] && before[|before| - 1].PowerLost? && AllAtRisk(before, false)
    requires Explains(after, log, atRisk)
    ensures Explains(before + after, log, atRisk)
    decreases |after|
  {
    var all := before + after;
    if after == [] {
      assert all == before && before == before[..|before| - 1] + [before[|before| - 1]];
      LostAtRisk(before[..|before| - 1], before[|before| - 1].inFlight, false);
      LostAtRisk(before[..|before| - 1], before[|before| - 1].inFlight, atRisk);
      NothingExplains(before, atRisk);
    } else {
      var init, e := after[..|after| - 1], after[|after| - 1];
      assert all[..|all| - 1] == before + init;
      if MayBeMissing(e, atRisk) && Explains(init, log, RiskBefore(e, atRisk)) {
        ExplainsAfter(before, init, log, RiskBefore(e, atRisk));
      } else {
        ExplainsAfter(before, init, log[..|log| - 1], RiskBefore(e, atRisk));
      }
    }
  }

  // ----- the ordinary run behind a strict one -----

  /** An ordinary run with the same events since `k`, when nothing was left. */
  ghost predicate LikeFrom(events: seq<Event>, s: System, k: nat, states: seq<System>) {
    && k <= |events| && (k > 0 ==> events[k - 1].PowerLost? && AllAtRisk(events[..k], false))
    && Run(states, events[k..]) && states[|events| - k] == s
  }

  ghost predicate Like(events: seq<Event>, s: System) {
    exists k: nat, states :: LikeFrom(events, s, k, states)
  }

  lemma LikeReachable(events: seq<Event>, s: System)
    requires Like(events, s)
    ensures Reachable(s)
  {
    hide Run, AllAtRisk;
    var k: nat, states :| LikeFrom(events, s, k, states);
    RunLength(states, events[k..]);
    assert states[|events[k..]|] == s;
  }

  lemma LikeExplained(events: seq<Event>, s: System) returns (log: Log)
    requires Like(events, s)
    ensures ExplainedBy(events, s, log)
  {
    hide Run, AllAtRisk, Explains, Shows, Fold;
    var k: nat, states :| LikeFrom(events, s, k, states);
    log := DurablePutsSurvive(states, events[k..]);
    assert events == events[..k] + events[k..];
    if k > 0 {
      ExplainsAfter(events[..k], events[k..], log, false);
    }
  }

  lemma LikeStep(events: seq<Event>, s: System, e: Event, s': System)
    requires Like(events, s) && Next(s, e, s')
    ensures Like(events + [e], s')
  {
    hide Run, AllAtRisk, Next;
    var k: nat, states :| LikeFrom(events, s, k, states);
    var more, all := states + [s'], events + [e];
    RunLength(states, events[k..]);
    RunSnoc(states, events[k..], e, s');
    assert all[k..] == events[k..] + [e] && all[..k] == events[..k];
    assert LikeFrom(all, s', k, more);
  }

  lemma LikeFresh(events: seq<Event>, f: Option<WalPutRecord>, s: System)
    requires AllAtRisk(events, true) && Fresh(s)
    ensures Like(events + [PowerLost(f)], s)
  {
    hide AllAtRisk;
    var all := events + [PowerLost(f)];
    LostAtRisk(events, f, false);
    assert all[..|all|] == all && all[|all|..] == [];
    assert LikeFrom(all, s, |all|, [s]);
  }

  // ----- the invariant of strict runs -----

  /**
    `t` is `s` as it would be if the rename of its manifest had not happened: the same log file, over the manifest that
    the directory still has.
   */
  ghost predicate Shadow(s: System, t: System, dir: Directory) {
    && t.disk.manifest == dir.manifest
    && t.disk.wal == s.disk.wal && t.disk.synced == s.disk.synced && t.disk.earlier == s.disk.earlier
    && (forall n :: n in LiveFiles(dir.manifest) ==> KeptName(s.disk, t.disk, dir, n))
    && t.Running? == s.Running?
    && (s.Running? ==> SamePhase(s.view, s.phase, t.view, t.phase))
  }

  /** The segment is the synced one, unless it has been removed; no new segment will take its name. */
  ghost predicate KeptName(d: DiskImage, t: DiskImage, dir: Directory, n: Name) {
    && n in t.files && n in dir.files && dir.files[n] == t.files[n]
    && (n in d.files ==> d.files[n] == t.files[n])
    && (Load(d.manifest).Success? && Load(d.manifest).value.generation < U64_MAX ==>
          n != NextName(Load(d.manifest).value))
  }

  ghost predicate SamePhase(v: EngineView, phase: Phase, u: EngineView, other: Phase) {
    && u.durability == v.durability && u.walSize == v.walSize && !phase.FlushEmptied?
    && (phase.Appended? || other.Appended? ==> other == phase)
    && (phase == Idle ==> other == Idle)
  }

  ghost predicate Tracked(events: seq<Event>, s: System, dir: Directory) {
    && Like(events, s)
    && (dir.hasLog ==> s.disk.wal.Some?)
    && (!dir.hasLog ==> s.disk.manifest.None? && dir.manifest.None?)
    && (forall n :: n in LiveFiles(s.disk.manifest) ==> Safe(s.disk, dir, n))
    && (dir.manifest != s.disk.manifest ==> exists t :: Like(events, t) && Shadow(s, t, dir))
  }

  /** Live segments exist, bear earlier generations' names, and are no temporaries. */
  lemma LiveHere(s: System)
    requires Reachable(s)
    ensures Load(s.disk.manifest).Success?
    ensures forall n :: n in LiveFiles(s.disk.manifest) ==> n in s.disk.files && !Temporary(n)
    ensures var m := Load(s.disk.manifest).value;
            && m.generation <= U64_MAX
            && forall i :: 0 <= i < |m.segmentFiles| ==> GenerationUpTo(m.segmentFiles[i], m.generation)
  {
    hide Load, AllReadable, SegmentContents, GenerationUpTo, Related, Reachable;
    var l := ReachableRelated(s);
    var m, segments := SoundHere(s, l);
    LiveNamesAll(m);
    LiveFilesAreSafe(s);
  }

  // ----- one step -----

  lemma LogStays(s: System, e: Event, s': System)
    requires Next(s, e, s') && !e.PowerLost? && s.disk.wal.Some?
    ensures s'.disk.wal.Some?
  {
    hide M.Encode, WalRecord.Encode, Load, ParseWal, SegmentFor, AllReadable, ReplayedCount, CountPlausible;
  }

  lemma ManifestStays(s: System, e: Event, s': System)
    requires Next(s, e, s') && !e.PowerLost?
    requires !(e == Internal && (FlushCommit(s, s') || CompactCommit(s, s')))
    ensures s'.disk.manifest == s.disk.manifest
  {
    hide M.Encode, WalRecord.Encode, Load, ParseWal, SegmentFor, AllReadable, ReplayedCount, CountPlausible;
  }

  lemma CommitOnly(s: System, s': System)
    requires FlushCommit(s, s') || CompactCommit(s, s')
    ensures s'.disk == s.disk.(manifest := s'.disk.manifest) && s.Running? && s'.Running?
  {
    hide M.Encode;
  }

  /** A name that is not the next one keeps its bytes as long as it is there. */
  lemma BytesStay(s: System, e: Event, s': System, n: Name)
    requires Reachable(s) && Next(s, e, s') && !e.PowerLost? && !Temporary(n)
    requires var m := Load(s.disk.manifest);
             m.Success? && m.value.generation < U64_MAX ==> n != NextName(m.value)
    ensures n in s'.disk.files ==> n in s.disk.files && s'.disk.files[n] == s.disk.files[n]
  {
    hide FlushPublish, CompactPublish, M.Encode, WalRecord.Encode, Load, ParseWal, AllReadable, ReplayedCount,
      CountPlausible, Reachable, NextName, Temporary, SegmentContents, Removable;
    if e == Internal && (FlushPublish(s, s') || CompactPublish(s, s')) {
      PublishedBytes(s, s', n);
    }
  }

  lemma PublishedBytes(s: System, s': System, n: Name)
    requires Reachable(s) && (FlushPublish(s, s') || CompactPublish(s, s'))
    requires var m := Load(s.disk.manifest);
             m.Success? && m.value.generation < U64_MAX ==> n != NextName(m.value)
    ensures n in s'.disk.files ==> n in s.disk.files && s'.disk.files[n] == s.disk.files[n]
  {
    hide SegmentFor, AllReadable, Load, Reachable, NextName, TemporaryOf, SegmentContents;
    QuiescentInvariant(s);
  }

  /** The unrenamed manifest's state takes a step with every one of the others, though it may be to stay as it is. */
  lemma ShadowStep(s: System, e: Event, s': System, t: System, dir: Directory) returns (t': System)
    requires Reachable(s) && Reachable(t) && Shadow(s, t, dir) && Next(s, e, s') && !e.PowerLost?
    requires !(e == Internal && GoesOn(s, s'))
    ensures Next(t, e, t') && Shadow(s', t', dir)
  {
    hide Next, Reachable, Load, LiveFiles, KeptName, SamePhase;
    ManifestStays(s, e, s');
    t' := Follow(s, e, s', t, dir);
    LiveHere(t);
    forall n | n in LiveFiles(dir.manifest)
      ensures KeptName(s'.disk, t'.disk, dir, n)
    {
      NameStays(s, e, s', t, t', dir, n);
    }
  }

  lemma NameStays(s: System, e: Event, s': System, t: System, t': System, dir: Directory, n: Name)
    requires Reachable(s) && Next(s, e, s') && !e.PowerLost? && !Temporary(n)
    requires KeptName(s.disk, t.disk, dir, n)
    requires s'.disk.manifest == s.disk.manifest && t'.disk.files == t.disk.files
    ensures KeptName(s'.disk, t'.disk, dir, n)
  {
    hide Next, Reachable, Load, NextName, Temporary;
    BytesStay(s, e, s', n);
  }

  /** The parts of the relation but for the names. */
  ghost predicate Alike(s: System, t: System) {
    && t.disk.wal == s.disk.wal && t.disk.synced == s.disk.synced && t.disk.earlier == s.disk.earlier
    && t.Running? == s.Running?
    && (s.Running? ==> SamePhase(s.view, s.phase, t.view, t.phase))
  }

  lemma Follow(s: System, e: Event, s': System, t: System, dir: Directory) returns (t': System)
    requires Reachable(s) && Reachable(t) && Alike(s, t) && Next(s, e, s') && !e.PowerLost?
    requires !(e == Internal && GoesOn(s, s'))
    ensures Next(t, e, t') && Alike(s', t')
    ensures t'.disk.manifest == t.disk.manifest && t'.disk.files == t.disk.files
  {
    hide GoesOn, Reachable, InternalStep, PutFinish, SyncWal, FlushFinish, RecoverSync, Halt, Alike;
    match e
    case Acknowledged(r, durability) => t' := FollowPut(s, r, durability, s', t);
    case Synced => t' := FollowSync(s, s', t);
    case Halted(f) => t' := FollowHalt(s, f, s', t);
    case Internal => t' := FollowInternal(s, s', t);
  }

  lemma FollowPut(s: System, r: WalPutRecord, durability: Durability, s': System, t: System) returns (t': System)
    requires Reachable(t) && Alike(s, t) && PutFinish(s, r, durability, s')
    ensures PutFinish(t, r, durability, t') && Alike(s', t')
    ensures t'.disk.manifest == t.disk.manifest && t'.disk.files == t.disk.files
  {
    hide AllReadable, SegmentContents, Reachable;
    QuiescentInvariant(t);
    t' := Running(AfterPut(t.view, r, |WalBytes(t.disk)|), Idle,
                  if durability == SyncOnAppend then AfterSync(t.disk) else t.disk);
  }

  lemma FollowSync(s: System, s': System, t: System) returns (t': System)
    requires Alike(s, t) && (SyncWal(s, s') || FlushFinish(s, s') || RecoverSync(s, s'))
    ensures (SyncWal(t, t') || RecoverSync(t, t')) && Alike(s', t')
    ensures t'.disk.manifest == t.disk.manifest && t'.disk.files == t.disk.files
  {
    hide ParseWal;
    t' := if t.Running? then t.(disk := AfterSync(t.disk)) else Stopped(AfterSync(t.disk));
  }

  lemma FollowHalt(s: System, f: Option<WalPutRecord>, s': System, t: System) returns (t': System)
    requires Alike(s, t) && Halt(s, f, s')
    ensures Halt(t, f, t') && Alike(s', t')
    ensures t'.disk.manifest == t.disk.manifest && t'.disk.files == t.disk.files
  {
    t' := Stopped(t.disk.(wal := s'.disk.wal));
  }

  lemma FollowInternal(s: System, s': System, t: System) returns (t': System)
    requires Reachable(s) && Reachable(t) && Alike(s, t) && InternalStep(s, s') && !GoesOn(s, s')
    ensures InternalStep(t, t') && Alike(s', t')
    ensures t'.disk.manifest == t.disk.manifest && t'.disk.files == t.disk.files
  {
    hide Reachable, PutAppend, WriteTemporary, FlushPublish, FlushCommit, FlushCut, CompactPublish, CompactCommit,
      CompactRemove, CompactFinish, RecoverCleanup, RecoverCreateWal, RecoverTruncate, RecoverFinish, Alike;
    if r :| PutAppend(s, r, s') {
      t' := FollowAppend(s, r, s', t);
    } else if RecoverCreateWal(s, s') {
      t' := FollowCreate(s, s', t);
    } else if RecoverTruncate(s, s') {
      t' := FollowTruncate(s, s', t);
    } else if RecoverFinish(s, s') {
      t' := FollowFinish(s, s', t);
    } else {
      t' := t;
      Stutter(s, s', t);
    }
  }

  lemma FollowAppend(s: System, r: WalPutRecord, s': System, t: System) returns (t': System)
    requires Alike(s, t) && PutAppend(s, r, s')
    ensures PutAppend(t, r, t') && Alike(s', t')
    ensures t'.disk.manifest == t.disk.manifest && t'.disk.files == t.disk.files
  {
    hide WalRecord.Encode;
    t' := t.(phase := Appended(r), disk := t.disk.(wal := s'.disk.wal));
  }

  lemma FollowCreate(s: System, s': System, t: System) returns (t': System)
    requires Alike(s, t) && RecoverCreateWal(s, s')
    ensures RecoverCreateWal(t, t') && Alike(s', t')
    ensures t'.disk.manifest == t.disk.manifest && t'.disk.files == t.disk.files
  {
    t' := Stopped(t.disk.(wal := Some([]), synced := 0));
  }

  lemma FollowTruncate(s: System, s': System, t: System) returns (t': System)
    requires Alike(s, t) && RecoverTruncate(s, s')
    ensures RecoverTruncate(t, t') && Alike(s', t')
    ensures t'.disk.manifest == t.disk.manifest && t'.disk.files == t.disk.files
  {
    hide ParseWal;
    t' := Stopped(Truncate(t.disk, ParseWal(WalBytes(t.disk)).validBytes));
  }

  lemma FollowFinish(s: System, s': System, t: System) returns (t': System)
    requires Reachable(t) && Alike(s, t) && RecoverFinish(s, s')
    ensures RecoverFinish(t, t') && Alike(s', t')
    ensures t'.disk == t.disk
  {
    hide Reachable, Load, OpensLive, AllReadable, SegmentContents, ParseWal, CountPlausible, ReplayedCount, Fold;
    var m, segments := RecoveryNeverRefuses(t);
    var records := ParseWal(WalBytes(t.disk)).records;
    t' := Running(EngineView(s'.view.durability, Fold(records), m, segments,
                             ReplayedCount(m.logicalSampleCount, SegmentContents(segments), records),
                             |WalBytes(t.disk)|), Idle, t.disk);
  }

  /** The other steps that are possible here leave the log file alone. */
  lemma Stutter(s: System, s': System, t: System)
    requires Reachable(t) && Alike(s, t) && !GoesOn(s, s')
    requires WriteTemporary(s, s') || FlushPublish(s, s') || CompactPublish(s, s') || RecoverCleanup(s, s')
    ensures InternalStep(t, t) && Alike(s', t)
  {
    hide Reachable, Load, SegmentFor, SegmentContents, AllReadable, NextName, GoesOn, Removable, TemporaryOf;
    LiveFilesAreSafe(t);
    if t.Running? {
      assert WriteTemporary(t, t);
    } else {
      assert RecoverCleanup(t, t);
    }
  }

  // ----- the invariant is kept -----

  /** A rename of the manifest that is not synced: the state before it is the shadow. */
  lemma ShadowStarts(s: System, s': System, dir: Directory)
    requires Reachable(s) && Reachable(s') && (FlushCommit(s, s') || CompactCommit(s, s')) && InSync(dir, s.disk)
    ensures WriteTemporary(s, s) && Shadow(s', s, dir)
  {
    hide Reachable, Load, FlushCommit, CompactCommit, Temporary, KeptName, LiveFiles;
    CommitOnly(s, s');
    CommitPhases(s, s');
    LiveHere(s);
    forall n | n in LiveFiles(dir.manifest)
      ensures KeptName(s'.disk, s.disk, dir, n)
    {
      OldNameKept(s, s', dir, n);
    }
  }

  lemma CommitPhases(s: System, s': System)
    requires FlushCommit(s, s') || CompactCommit(s, s')
    ensures s.Running? && s'.Running? && SamePhase(s'.view, s'.phase, s.view, s.phase)
  {
    hide M.Encode;
  }

  lemma OldNameKept(s: System, s': System, dir: Directory, n: Name)
    requires Reachable(s) && Reachable(s') && (FlushCommit(s, s') || CompactCommit(s, s')) && InSync(dir, s.disk)
    requires s'.disk == s.disk.(manifest := s'.disk.manifest) && n in LiveFiles(s.disk.manifest)
    ensures KeptName(s'.disk, s.disk, dir, n)
  {
    hide Reachable, Load, NextName, Temporary, GenerationUpTo, FlushCommit, CompactCommit;
    LiveHere(s);
    CommitGeneration(s, s');
    var m := Load(s'.disk.manifest).value;
    if m.generation < U64_MAX {
      NeverGivenAgain(Load(s.disk.manifest).value, m, n);
    }
  }

  /** The name given out after the next one is none of the old ones either. */
  lemma NeverGivenAgain(m: ManifestState, next: ManifestState, n: Name)
    requires n in m.segmentFiles && next.generation == m.generation + 1 && next.generation < U64_MAX
    requires forall i :: 0 <= i < |m.segmentFiles| ==> GenerationUpTo(m.segmentFiles[i], m.generation)
    ensures n != NextName(next)
  {
    hide GenerationUpTo, NextName;
    var later := m.(generation := next.generation);
    forall i | 0 <= i < |later.segmentFiles|
      ensures GenerationUpTo(later.segmentFiles[i], later.generation)
    {
      UpToLater(later.segmentFiles[i], m.generation);
    }
    LiveNamesAll(later);
    SameNextName(later, next);
  }

  lemma UpToLater(n: Name, g: nat)
    requires GenerationUpTo(n, g)
    ensures GenerationUpTo(n, g + 1)
  {
    hide GenerationName;
  }

  lemma SameNextName(a: ManifestState, b: ManifestState)
    requires a.generation == b.generation
    ensures NextName(a) == NextName(b)
  {}

  lemma CommitGeneration(s: System, s': System)
    requires Reachable(s) && Reachable(s') && (FlushCommit(s, s') || CompactCommit(s, s'))
    ensures Load(s.disk.manifest).Success? && Load(s'.disk.manifest).Success?
    ensures Load(s'.disk.manifest).value.generation == Load(s.disk.manifest).value.generation + 1
  {
    hide Reachable, Load, M.Encode, SegmentContents, AllReadable;
    QuiescentInvariant(s);
    QuiescentInvariant(s');
  }

  lemma HasLog(s: System)
    requires Reachable(s) && s.Running?
    ensures s.disk.wal.Some?
  {
    hide Reachable, Sound, PhaseOk, EarlierTrack, TableOk, Settled;
    var l := ReachableRelated(s);
  }

  lemma RenamesRunning(s: System, s': System)
    requires Renames(s, s')
    ensures s.Running? && s'.Running?
  {
    hide M.Encode, SegmentFor;
  }

  ghost predicate Commits(s: System, e: Event, s': System) {
    e == Internal && (FlushCommit(s, s') || CompactCommit(s, s'))
  }

  lemma CommitGoesOn(s: System, e: Event, s': System)
    requires Commits(s, e, s')
    ensures GoesOn(s, s') && s.Running? && s'.disk == s.disk.(manifest := s'.disk.manifest)
  {
    hide FlushCommit, CompactCommit;
    CommitOnly(s, s');
  }

  lemma LogTracked(events: seq<Event>, s: System, dir: Directory, e: Event, s': System)
    requires Tracked(events, s, dir) && !e.PowerLost? && Next(s, e, s') && DirectoryStep(s, dir, e, s', dir)
    ensures dir.hasLog ==> s'.disk.wal.Some?
    ensures !dir.hasLog ==> s'.disk.manifest.None?
  {
    hide Next, Like, Reachable, Shadow, Renames, GoesOn, LiveFiles, FlushCommit, CompactCommit;
    if dir.hasLog {
      LogStays(s, e, s');
    }
    if Commits(s, e, s') {
      CommitGoesOn(s, e, s');
      LikeReachable(events, s);
      HasLog(s);
    } else {
      ManifestStays(s, e, s');
    }
  }

  lemma LiveTracked(events: seq<Event>, s: System, dir: Directory, e: Event, s': System)
    requires Tracked(events, s, dir) && !e.PowerLost? && Next(s, e, s') && DirectoryStep(s, dir, e, s', dir)
    requires Reachable(s')
    ensures forall n :: n in LiveFiles(s'.disk.manifest) ==> Safe(s'.disk, dir, n)
  {
    hide Next, Like, Reachable, Shadow, Renames, GoesOn, FlushCommit, CompactCommit, Load, NextName, Temporary,
      GenerationUpTo;
    LikeReachable(events, s);
    LiveHere(s);
    LiveHere(s');
    if Commits(s, e, s') {
      CommitGoesOn(s, e, s');
    } else {
      ManifestStays(s, e, s');
      LiveNamesAll(Load(s.disk.manifest).value);
      forall n | n in LiveFiles(s'.disk.manifest)
        ensures Safe(s'.disk, dir, n)
      {
        BytesStay(s, e, s', n);
      }
    }
  }

  lemma ShadowTracked(events: seq<Event>, s: System, dir: Directory, e: Event, s': System)
    requires Tracked(events, s, dir) && !e.PowerLost? && Next(s, e, s') && DirectoryStep(s, dir, e, s', dir)
    requires Reachable(s') && dir.manifest != s'.disk.manifest
    ensures exists t :: Like(events + [e], t) && Shadow(s', t, dir)
  {
    hide Next, Like, Reachable, Shadow, Renames, GoesOn, FlushCommit, CompactCommit, LiveFiles, InSync, WriteTemporary;
    LikeReachable(events, s);
    if dir.manifest == s.disk.manifest {
      if !Commits(s, e, s') {
        ManifestStays(s, e, s');
      }
      CommitGoesOn(s, e, s');
      ShadowStarts(s, s', dir);
      StutterIsStep(s);
      LikeStep(events, s, Internal, s);
    } else {
      var t :| Like(events, t) && Shadow(s, t, dir);
      LikeReachable(events, t);
      NotInSync(s, dir);
      var t' := ShadowStep(s, e, s', t, dir);
      LikeStep(events, t, e, t');
    }
  }

  lemma StutterIsStep(s: System)
    requires WriteTemporary(s, s)
    ensures Next(s, Internal, s)
  {}

  lemma NotInSync(s: System, dir: Directory)
    requires dir.manifest != s.disk.manifest
    ensures !InSync(dir, s.disk)
  {}

  /** Each step that is not a power failure keeps the invariant. */
  lemma StepTracked(events: seq<Event>, s: System, dir: Directory, e: Event, s': System, dir': Directory)
    requires Tracked(events, s, dir) && !e.PowerLost? && StrictNext(s, dir, e, s', dir')
    ensures Tracked(events + [e], s', dir')
  {
    hide Next, Like, Reachable, Shadow, Renames, GoesOn, LiveFiles, InSync;
    LikeReachable(events, s);
    LikeStep(events, s, e, s');
    LikeReachable(events + [e], s');
    if dir' == dir {
      LogTracked(events, s, dir, e, s');
      LiveTracked(events, s, dir, e, s');
      if dir.manifest != s'.disk.manifest {
        ShadowTracked(events, s, dir, e, s');
      }
    } else {
      RenamesRunning(s, s');
      HasLog(s');
      LiveHere(s');
    }
  }

  // ----- a power failure -----

  /** In a harmless moment, a power failure leaves what an ordinary one may leave, or a new database and no loss. */
  lemma FailureLike(events: seq<Event>, s: System, dir: Directory, f: Option<WalPutRecord>, s': System)
    requires Tracked(events, s, dir) && Harmless(events, s, dir) && StrictLoss(s, dir, f, s')
    ensures Like(events + [PowerLost(f)], s')
  {
    hide Like, Reachable, LiveFiles, Shadow, AllAtRisk, Safe, Temporary, FallsBack;
    LikeReachable(events, s);
    if s'.disk.wal.None? && s.disk.wal.Some? {
      LikeFresh(events, f, s');
    } else if s'.disk.manifest == s.disk.manifest {
      CurrentManifest(s, dir, f, s');
      LikeStep(events, s, PowerLost(f), s');
    } else {
      var t :| Like(events, t) && Shadow(s, t, dir);
      LikeReachable(events, t);
      OldManifest(s, t, dir, f, s');
      LikeStep(events, t, PowerLost(f), s');
    }
  }

  lemma CurrentManifest(s: System, dir: Directory, f: Option<WalPutRecord>, s': System)
    requires Reachable(s) && StrictLoss(s, dir, f, s') && s'.disk.manifest == s.disk.manifest
    requires s.disk.wal.None? <==> s'.disk.wal.None?
    requires forall n :: n in LiveFiles(s.disk.manifest) ==> Safe(s.disk, dir, n)
    ensures Next(s, PowerLost(f), s')
  {
    hide Reachable, LiveFiles, Temporary;
    LiveHere(s);
    if s.disk.wal.None? {
      NothingToCut(s);
    }
  }

  lemma NothingToCut(s: System)
    requires Reachable(s) && s.disk.wal.None?
    ensures FallsBack(s.disk, [], 0)
  {
    hide Reachable, Sound, EarlierTrack, PhaseOk, TableOk, ParseWal, Tracks;
    var l := ReachableRelated(s);
    if s.Running? {
      HasLog(s);
    } else {
      var m, segments := SoundHere(s, l);
    }
  }

  lemma OldManifest(s: System, t: System, dir: Directory, f: Option<WalPutRecord>, s': System)
    requires Reachable(t) && Shadow(s, t, dir) && StrictLoss(s, dir, f, s') && s'.disk.manifest == dir.manifest
    requires s.disk.wal.Some? && s'.disk.wal.Some?
    requires forall n :: n in LiveFiles(dir.manifest) ==> n in s.disk.files
    ensures Next(t, PowerLost(f), s')
  {
    hide Reachable, LiveFiles, Temporary, Load, NextName;
    LiveHere(t);
    assert InFlight(t) == InFlight(s);
    var k: nat :| FallsBack(s.disk, WalBytes(s'.disk), k);
    assert FallsBack(t.disk, WalBytes(s'.disk), k);
  }

  lemma FailureTracked(events: seq<Event>, s: System, dir: Directory, f: Option<WalPutRecord>, s': System)
    requires Tracked(events, s, dir) && Harmless(events, s, dir) && StrictLoss(s, dir, f, s')
    ensures Tracked(events + [PowerLost(f)], s', DirectoryOf(s'.disk))
  {
    hide Like, Reachable, LiveFiles, Shadow, AllAtRisk, FallsBack;
    FailureLike(events, s, dir, f, s');
    LikeReachable(events + [PowerLost(f)], s');
    LiveHere(s');
  }

  // ----- strict runs -----

  lemma {:induction false} StrictTracked(states: seq<System>, dirs: seq<Directory>, events: seq<Event>, n: nat)
    requires StrictRun(states, dirs, events) && FailuresHarmless(states, dirs, events) && n <= |events|
    ensures Tracked(events[..n], states[n], dirs[n])
  {
    hide Tracked, Next, StrictLoss, DirectoryStep, Harmless;
    if n == 0 {
      FreshTracked(states[0]);
    } else {
      var i := n - 1;
      StrictTracked(states, dirs, events, i);
      assert StrictNext(states[i], dirs[i], events[i], states[i + 1], dirs[i + 1]);
      assert events[..n] == events[..i] + [events[i]];
      if events[i].PowerLost? {
        FailureTracked(events[..i], states[i], dirs[i], events[i].inFlight, states[n]);
      } else {
        StepTracked(events[..i], states[i], dirs[i], events[i], states[n], dirs[n]);
      }
    }
  }

  lemma FreshTracked(s: System)
    requires Fresh(s)
    ensures Tracked([], s, DirectoryOf(s.disk))
  {
    hide LiveFiles;
    var none: seq<Event> := [];
    assert none[0..] == none;
    assert LikeFrom([], s, 0, [s]);
    LikeReachable([], s);
    LiveHere(s);
  }

  /**
    If every power failure came at a harmless moment, the database holds what `DurablePutsSurvive` says: all that was
    acknowledged and safe, in order.
   */
  lemma StrictSurvive(states: seq<System>, dirs: seq<Directory>, events: seq<Event>) returns (log: Log)
    requires StrictRun(states, dirs, events) && FailuresHarmless(states, dirs, events)
    ensures Explains(events, log, false) && Shows(states[|events|], Fold(log))
  {
    hide StrictRun, FailuresHarmless, Like, LiveFiles, Shadow, Explains, Shows, Fold;
    StrictLengths(states, dirs, events);
    StrictTracked(states, dirs, events, |events|);
    assert events[..|events|] == events;
    log := LikeExplained(events, states[|events|]);
  }

  lemma StrictLengths(states: seq<System>, dirs: seq<Directory>, events: seq<Event>)
    requires StrictRun(states, dirs, events)
    ensures |states| == |dirs| == |events| + 1
  {}

  // ----- and only then -----

  lemma PutsFold(log: Log)
    ensures log != [] ==> Fold(log) != map[]
  {
    if log != [] {
      var n := |log| - 1;
      assert PointOf(log[n]) in Fold(log);
    }
  }

  /** Without a manifest and a log the database is a new one. */
  lemma NothingLeft(d: DiskImage)
    requires d.wal.None? && d.manifest.None?
    ensures Shows(Stopped(d), Fold([]))
  {
    CleanEmpty();
    NoSegments();
    PlusNothing(SegmentContents([]));
    assert OpensLive(d, ManifestState(0, 0, []), []);
  }

  lemma EmptyMeansNothing(events: seq<Event>, d: DiskImage, log: Log)
    requires d.wal.None? && d.manifest.None? && ExplainedBy(events, Stopped(d), log)
    ensures log == []
  {
    hide Explains, Shows;
    NothingLeft(d);
    ShowsOne(Stopped(d), Fold(log), Fold([]));
    PutsFold(log);
  }

  /** A log file that vanishes with safe puts in it takes them along. */
  lemma LostLog(events: seq<Event>, s: System, dir: Directory)
    requires s.disk.wal.Some? && !dir.hasLog && s.disk.manifest.None? && !AllAtRisk(events, true)
    ensures !Kept(events, s, dir)
  {
    hide Explains, Shows, AllAtRisk, Temporary;
    var f, gone := InFlight(s), Stopped(DiskImage(None, 0, [], None, s.disk.files));
    var all := events + [PowerLost(f)];
    assert StrictLoss(s, dir, f, gone);
    NothingExplains(all, false);
    LostAtRisk(events, f, false);
    forall log | ExplainedBy(all, gone, log)
      ensures false
    {
      EmptyMeansNothing(all, gone.disk, log);
    }
  }

  /** A manifest that comes back without one of its segments cannot be opened. */
  lemma LostSegment(events: seq<Event>, s: System, dir: Directory, n: Name)
    requires Reachable(s) && s.disk.wal.Some? && n in LiveFiles(dir.manifest) && n !in s.disk.files
    ensures !Kept(events, s, dir)
  {
    hide Explains, Reachable, Temporary, SegmentContents, AllReadable, ParseWal, Fold, Load, FallsBack;
    var d := s.disk;
    var broken := Stopped(DiskImage(d.wal, |WalBytes(d)|, [], dir.manifest, d.files));
    WholeFallsBack(s);
    assert FallsBack(d, WalBytes(broken.disk), |d.earlier|);
    assert StrictLoss(s, dir, InFlight(s), broken);
    forall c | Shows(broken, c)
      ensures false
    {
      NotOpened(broken.disk, c, n);
    }
  }

  lemma NotOpened(d: DiskImage, c: Contents, n: Name)
    requires Shows(Stopped(d), c)
    ensures n in LiveFiles(d.manifest) ==> n in d.files
  {
    hide SegmentContents, AllReadable, ParseWal, Fold, Load;
    var m, segments :| Load(d.manifest) == Success(m) && OpensLive(d, m, segments);
    if n in m.segmentFiles {
      var i :| 0 <= i < |m.segmentFiles| && m.segmentFiles[i] == n;
      assert m.segmentFiles[i] in d.files;
    }
  }

  lemma WholeFallsBack(s: System)
    requires Reachable(s)
    ensures FallsBack(s.disk, WalBytes(s.disk), |s.disk.earlier|)
  {
    hide Reachable, Sound, EarlierTrack, ParseWal, Tracks, SegmentContents;
    var l := ReachableRelated(s);
    var m, segments := WholeWal(s, l);
  }

  /** With all earlier failures harmless, the next one is explained whatever it leaves exactly if it is harmless. */
  lemma KeptIff(states: seq<System>, dirs: seq<Directory>, events: seq<Event>)
    requires StrictRun(states, dirs, events) && FailuresHarmless(states, dirs, events)
    ensures Kept(events, states[|events|], dirs[|events|]) <==> Harmless(events, states[|events|], dirs[|events|])
  {
    hide StrictRun, FailuresHarmless, Like, LiveFiles, Shadow, ExplainedBy, StrictLoss, AllAtRisk, Safe;
    StrictLengths(states, dirs, events);
    StrictTracked(states, dirs, events, |events|);
    assert events[..|events|] == events;
    var s, dir := states[|events|], dirs[|events|];
    LikeReachable(events, s);
    if Harmless(events, s, dir) {
      forall s' | StrictLoss(s, dir, InFlight(s), s')
        ensures exists log :: ExplainedBy(events + [PowerLost(InFlight(s))], s', log)
      {
        FailureLike(events, s, dir, InFlight(s), s');
        var log := LikeExplained(events + [PowerLost(InFlight(s))], s');
      }
    } else if s.disk.wal.Some? && !dir.hasLog && !AllAtRisk(events, true) {
      LostLog(events, s, dir);
    } else {
      var n :| n in LiveFiles(dir.manifest) && n !in s.disk.files;
      NoLogNoManifest(events, s, dir);
      LostSegment(events, s, dir, n);
    }
  }

  lemma NoLogNoManifest(events: seq<Event>, s: System, dir: Directory)
    requires Tracked(events, s, dir) && LiveFiles(dir.manifest) != []
    ensures s.disk.wal.Some?
  {
    hide Like, Shadow;
  }
}
