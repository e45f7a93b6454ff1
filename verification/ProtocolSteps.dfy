/**
  Every step of the engine keeps the invariant, and changes the log of puts only as the observed event allows.

  One lemma per step; `StepKeeps` puts them together.
 */
module ProtocolSteps {
  import opened Prelude
  import opened Model
  import opened WalRecord
  import opened WalRecovery
  import opened F = SegmentFormat
  import opened Contents
  import opened SegmentReaders
  import opened SegmentNames
  import opened M = Manifest
  import opened MemTables
  import opened Chunking
  import opened Overlay
  import opened Disk
  import opened DurableLog
  import opened Protocol
  import opened ProtocolInvariant

  // ----- segments -----

  /** A segment written from a snapshot opens, reads back, and holds exactly the snapshot's points. */
  lemma SegmentForHolds(m: Contents, bytes: Bytes, reader: SegmentReader)
    requires SegmentFor(m, bytes, reader)
    ensures reader.Valid() && reader.Readable() && reader.Points() == m
  {
    hide SnapshotHolds, Has, KeyLess, SegmentBytes, Open, ReadBlocks, EntriesFor, BlocksOrdered, BlocksMap;
    var snapshots :| SnapshotAnswer(m, snapshots) && SegmentBytes(ChunkAll(snapshots)) == Success(bytes);
    OpensAsWritten(ChunkAll(snapshots));
    ChunksHoldSnapshot(m, snapshots);
  }

  // ----- put and sync -----

  lemma RunningRelated(v: EngineView, phase: Phase, d: DiskImage, l: LogState)
    requires Sound(d, v.manifest, v.segments) && AllReadable(v.segments) && d.wal.Some? && PhaseOk(v, phase, d)
    requires EarlierTrack(d.earlier, SegmentContents(v.segments), l)
    requires TableOk(v, SegmentContents(v.segments), Settled(v, phase, d), d.synced, l)
    ensures Related(Running(v, phase, d), l)
  {
    hide Sound, TableOk, PhaseOk, Settled, SegmentContents, EarlierTrack;
  }

  lemma KeepPutAppend(s: System, r: WalPutRecord, s': System, l: LogState)
    requires Related(s, l) && PutAppend(s, r, s')
    ensures Related(s', l)
  {
    hide WalRecord.Encode, Load, OpensLive, AllReadable, SegmentContents, WalTracks, EarlierTrack, ParseWal, Fold;
    var w, e := WalBytes(s.disk), WalRecord.Encode(r).value;
    assert (w + e)[..|w|] == w && (w + e)[|w|..] == e;
    SoundFrame(s.disk, s'.disk, s.view.manifest, s.view.segments);
  }

  lemma KeepPutFinish(s: System, r: WalPutRecord, durability: Durability, s': System, l: LogState)
    returns (l': LogState)
    requires Related(s, l) && PutFinish(s, r, durability, s')
    ensures LogNext(l, Acknowledged(r, durability), l') && Related(s', l')
  {
    hide WalRecord.Encode, Load, OpensLive, AllReadable, SegmentContents, WalTracks, EarlierTrack, ParseWal, Fold,
      LogNext;
    var v, d := s.view, s.disk;
    var base := SegmentContents(v.segments);
    var w := Settled(v, s.phase, d);
    assert WalBytes(d) == w + WalRecord.Encode(r).value;
    WalAppend(w, d.synced, base, l, r);
    EarlierAppend(d.earlier, base, l, r);
    l' := l.(log := l.log + [r]);
    FoldSnoc(ParseWal(w).records, r);
    PutVisible(base, v.memtable, PointOf(r), r.sample.value);
    SoundFrame(d, s'.disk, v.manifest, v.segments);
    if durability == SyncOnAppend {
      WalSync(WalBytes(d), d.synced, base, l');
      l' := AllSafe(l'.log);
      NoEarlier(base, l'.log);
    }
    Acknowledges(durability, l, r, l');
  }

  lemma NoEarlier(base: Contents, log: Log)
    ensures EarlierTrack([], base, AllSafe(log))
  {}

  lemma Acknowledges(durability: Durability, l: LogState, r: WalPutRecord, l': LogState)
    requires l' == if durability == SyncOnAppend then AllSafe(l.log + [r]) else l.(log := l.log + [r])
    ensures LogNext(l, Acknowledged(r, durability), l')
  {}

  lemma PutVisible(base: Contents, memtable: Contents, p: Point, value: Value)
    ensures base + memtable[p := value] == (base + memtable)[p := value]
    ensures |base + memtable[p := value]| == |base + memtable| + if p in base + memtable then 0 else 1
  {
    OverlayPut(base, memtable, p, value);
    PutSize(base + memtable, p, value);
  }

  lemma OverlayPut(base: Contents, memtable: Contents, p: Point, value: Value)
    ensures base + memtable[p := value] == (base + memtable)[p := value]
  {}

  lemma PutSize(m: Contents, p: Point, value: Value)
    ensures |m[p := value]| == |m| + if p in m then 0 else 1
  {
    assert m[p := value].Keys == m.Keys + {p};
    KeysSize(m);
    KeysSize(m[p := value]);
  }

  lemma KeepSync(s: System, s': System, l: LogState)
    requires Related(s, l) && SyncWal(s, s')
    ensures Related(s', AllSafe(l.log))
  {
    hide WalRecord.Encode, Load, OpensLive, AllReadable, SegmentContents, WalTracks, EarlierTrack, ParseWal, Fold;
    WalSync(WalBytes(s.disk), s.disk.synced, SegmentContents(s.view.segments), l);
    NoEarlier(SegmentContents(s.view.segments), l.log);
    SoundFrame(s.disk, s'.disk, s.view.manifest, s.view.segments);
  }

  // ----- flush -----

  lemma KeepWriteTemporary(s: System, s': System, l: LogState)
    requires Related(s, l) && WriteTemporary(s, s')
    ensures Related(s', l)
  {
    hide WalRecord.Encode, Load, SegmentReader.Valid, SegmentReader.Readable, SegmentReader.Points, AllReadable,
      SegmentContents, TableOk, EarlierTrack, GenerationUpTo, Temporary, GenerationName, Visible;
    LiveNamesAll(s.view.manifest);
    SoundFrame(s.disk, s'.disk, s.view.manifest, s.view.segments);
    NotTemporary(s.view.manifest.generation + 1);
  }

  lemma PublishFrame(d: DiskImage, m: ManifestState, segments: seq<SegmentReader>, bytes: Bytes)
    requires Sound(d, m, segments) && m.generation < U64_MAX
    ensures Sound(Publish(d, NextName(m), bytes), m, segments)
  {
    hide Load, SegmentReader.Valid, AllReadable, SegmentContents, GenerationUpTo, GenerationName, NextName;
    LiveNamesAll(m);
    TemporaryOfTemporary(NextName(m));
    SoundFrame(d, Publish(d, NextName(m), bytes), m, segments);
  }

  lemma KeepFlushPublish(s: System, s': System, l: LogState)
    requires Related(s, l) && FlushPublish(s, s')
    ensures Related(s', l)
  {
    hide WalRecord.Encode, Sound, SegmentReader.Valid, SegmentReader.Readable, SegmentReader.Points, AllReadable,
      SegmentContents, TableOk, EarlierTrack, GenerationName, SegmentFor;
    var v, reader := s.view, s'.phase.reader;
    assert AllReadable(v.segments) by { SoundParts(s.disk, v.manifest, v.segments); }
    PublishFrame(s.disk, v.manifest, v.segments, reader.content);
    SegmentForHolds(v.memtable, reader.content, reader);
  }

  lemma SoundParts(d: DiskImage, m: ManifestState, segments: seq<SegmentReader>)
    requires Sound(d, m, segments)
    ensures AllReadable(segments) && m.generation <= U64_MAX && OpensLive(d, m, segments)
    ensures Load(d.manifest) == Success(m) && m.logicalSampleCount == |SegmentContents(segments)|
  {}

  /** Publishing the manifest of one more segment. */
  lemma CommitSound(d: DiskImage, v: EngineView, name: Name, reader: SegmentReader)
    requires Sound(d, v.manifest, v.segments) && NewSegment(v, name, reader, d)
    requires |SegmentContents(v.segments) + reader.Points()| == v.sampleCount
    requires M.Encode(FlushedManifest(v, name)).Success?
    ensures Sound(d.(manifest := Some(M.Encode(FlushedManifest(v, name)).value)), FlushedManifest(v, name),
                  v.segments + [reader])
    ensures SegmentContents(v.segments + [reader]) == SegmentContents(v.segments) + reader.Points()
  {
    hide M.Encode, Load, SegmentReader.Valid, SegmentReader.Readable, SegmentReader.Points, SegmentContents,
      AllReadable, GenerationName;
    var next := FlushedManifest(v, name);
    StoredLoads(next);
    SegmentContentsSnoc(v.segments, reader);
    forall i | 0 <= i < |next.segmentFiles|
      ensures GenerationUpTo(next.segmentFiles[i], next.generation)
    {
      if i < |v.manifest.segmentFiles| {
        assert GenerationUpTo(v.manifest.segmentFiles[i], v.manifest.generation);
        var g: nat :| 1 <= g <= v.manifest.generation && v.manifest.segmentFiles[i] == GenerationName(g);
        assert 1 <= g <= next.generation && next.segmentFiles[i] == GenerationName(g);
      } else {
        assert next.segmentFiles[i] == GenerationName(next.generation);
      }
    }
  }

  lemma TablePublish(v: EngineView, v': EngineView, base: Contents, w: Bytes, synced: nat, earlier: seq<Version>,
                     l: LogState)
    requires TableOk(v, base, w, synced, l) && EarlierTrack(earlier, base, l)
    requires v'.memtable == v.memtable && v'.sampleCount == v.sampleCount && v'.walSize == v.walSize
    ensures TableOk(v', base + v.memtable, w, synced, l.(published := |l.log|))
    ensures EarlierTrack(earlier, base + v.memtable, l.(published := |l.log|))
    ensures v.sampleCount == |base + v.memtable| && (base + v.memtable) + v.memtable == base + v.memtable
  {
    hide ParseWal, WalTracks, EarlierTrack, Fold;
    WalPublish(w, synced, earlier, base, l);
    PlusTwice(base, v.memtable);
  }

  lemma TableFrame(v: EngineView, v': EngineView, base: Contents, w: Bytes, synced: nat, l: LogState)
    requires TableOk(v, base, w, synced, l)
    requires v'.memtable == v.memtable && v'.sampleCount == v.sampleCount && v'.walSize == v.walSize
    ensures TableOk(v', base, w, synced, l)
  {
    hide ParseWal, WalTracks, Fold;
  }

  lemma KeepFlushCommit(s: System, s': System, l: LogState)
    requires Related(s, l) && FlushCommit(s, s')
    ensures Related(s', l.(published := |l.log|))
  {
    hide M.Encode, Sound, NewSegment, SegmentReader.Points, SegmentContents, AllReadable, TableOk, EarlierTrack,
      FlushedManifest;
    var v := s.view;
    SoundParts(s.disk, v.manifest, v.segments);
    TablePublish(v, s'.view, SegmentContents(v.segments), WalBytes(s.disk), s.disk.synced, s.disk.earlier, l);
    CommitSound(s.disk, v, s.phase.name, s.phase.reader);
    SoundParts(s'.disk, s'.view.manifest, s'.view.segments);
    RunningRelated(s'.view, s'.phase, s'.disk, l.(published := |l.log|));
  }

  /** The emptied file holds no put, and the uncut one may still come back. */
  lemma KeepFlushCut(s: System, s': System, l: LogState)
    requires Related(s, l) && FlushCut(s, s')
    ensures Related(s', Emptied(l))
  {
    hide Load, OpensLive, AllReadable, SegmentContents, WalTracks, EarlierTrack, ParseWal, GenerationUpTo, Tracks;
    var v, w := s.view, WalBytes(s.disk);
    var base := SegmentContents(v.segments);
    WalMeaning(w, s.disk.synced, base, l);
    LogBounds(w, s.disk.synced, base, l);
    WalEmpty(base, WithVersion(l));
    EarlierCut(s.disk.earlier, w, s.disk.synced, base, l);
    StartAnywhere(s'.disk.earlier, base, WithVersion(l), |l.log|);
    assert w[..0] == [];
    assert base + map[] == base;
    SoundFrame(s.disk, s'.disk, v.manifest, v.segments);
  }

  lemma LogBounds(w: Bytes, synced: nat, base: Contents, l: LogState)
    requires WalTracks(w, synced, base, l)
    ensures l.durable <= l.start <= |l.log| && l.published <= |l.log|
  {
    hide ParseWal;
  }

  lemma StartAnywhere(earlier: seq<Version>, base: Contents, l: LogState, start: nat)
    requires EarlierTrack(earlier, base, l) && earlier != []
    ensures EarlierTrack(earlier, base, l.(start := start))
  {
    hide Tracks, ParseWal;
  }

  lemma KeepFlushFinish(s: System, s': System, l: LogState)
    requires Related(s, l) && FlushFinish(s, s')
    ensures Related(s', AllSafe(l.log))
  {
    hide WalRecord.Encode, Load, OpensLive, AllReadable, SegmentContents, WalTracks, EarlierTrack, ParseWal, Fold;
    WalSync(WalBytes(s.disk), s.disk.synced, SegmentContents(s.view.segments), l);
    NoEarlier(SegmentContents(s.view.segments), l.log);
    SoundFrame(s.disk, s'.disk, s.view.manifest, s.view.segments);
  }

  // ----- compact -----

  lemma KeepCompactPublish(s: System, s': System, l: LogState)
    requires Related(s, l) && CompactPublish(s, s')
    ensures Related(s', l)
  {
    hide WalRecord.Encode, Sound, SegmentReader.Valid, SegmentReader.Readable, SegmentReader.Points, AllReadable,
      SegmentContents, TableOk, EarlierTrack, GenerationName, SegmentFor;
    var v, reader := s.view, s'.phase.reader;
    PublishFrame(s.disk, v.manifest, v.segments, reader.content);
    SegmentForHolds(SegmentContents(v.segments), reader.content, reader);
  }

  lemma ReplaceSound(d: DiskImage, v: EngineView, name: Name, reader: SegmentReader)
    requires Sound(d, v.manifest, v.segments) && NewSegment(v, name, reader, d)
    requires reader.Points() == SegmentContents(v.segments)
    requires M.Encode(CompactedManifest(v, name)).Success?
    ensures Sound(d.(manifest := Some(M.Encode(CompactedManifest(v, name)).value)), CompactedManifest(v, name), [reader])
    ensures SegmentContents([reader]) == SegmentContents(v.segments)
  {
    hide M.Encode, Load, SegmentReader.Valid, SegmentReader.Readable, SegmentReader.Points, SegmentContents,
      AllReadable, GenerationName;
    var next := CompactedManifest(v, name);
    StoredLoads(next);
    SegmentContentsOne(reader);
    assert 1 <= next.generation && name == GenerationName(next.generation);
  }

  /** The new name is live and none of the replaced ones is. */
  lemma KeepCompactCommit(s: System, s': System, l: LogState)
    requires Related(s, l) && CompactCommit(s, s')
    ensures Related(s', l)
  {
    hide M.Encode, Sound, NewSegment, SegmentReader.Points, SegmentContents, AllReadable, TableOk, EarlierTrack,
      CompactedManifest;
    var v := s.view;
    SoundParts(s.disk, v.manifest, v.segments);
    TableFrame(v, s'.view, SegmentContents(v.segments), WalBytes(s.disk), s.disk.synced, l);
    ReplaceSound(s.disk, v, s.phase.name, s.phase.reader);
    SoundParts(s'.disk, s'.view.manifest, s'.view.segments);
    NewIsNotObsolete(s.disk, v, s.phase.name, s.phase.reader);
    Replaces(v, s.phase.name);
    RunningRelated(s'.view, s'.phase, s'.disk, l);
  }

  lemma Replaces(v: EngineView, name: Name)
    ensures CompactedManifest(v, name).segmentFiles == [name]
  {}

  lemma NewIsNotObsolete(d: DiskImage, v: EngineView, name: Name, reader: SegmentReader)
    requires Sound(d, v.manifest, v.segments) && NewSegment(v, name, reader, d)
    ensures name !in v.manifest.segmentFiles
  {
    hide Load, OpensLive, SegmentContents, AllReadable, GenerationUpTo, NextName;
    LiveNamesAll(v.manifest);
  }

  lemma KeepCompactRemove(s: System, s': System, l: LogState)
    requires Related(s, l) && CompactRemove(s, s')
    ensures Related(s', l)
  {
    hide Load, SegmentReader.Valid, SegmentContents, AllReadable, TableOk, EarlierTrack, GenerationUpTo;
    SoundFrame(s.disk, s'.disk, s.view.manifest, s.view.segments);
  }

  lemma KeepCompactFinish(s: System, s': System, l: LogState)
    requires Related(s, l) && CompactFinish(s, s')
    ensures Related(s', l)
  {
    hide Sound, TableOk, EarlierTrack;
  }

  // ----- stopping -----

  /** The record in flight counts if and only if all of its bytes were written. */
  lemma WalTail(w: Bytes, synced: nat, base: Contents, l: LogState, r: WalPutRecord, k: nat) returns (l': LogState)
    requires WalTracks(w, synced, base, l) && Clean(w, ParseWal(w).records)
    requires WalRecord.Encode(r).Success? && k <= |WalRecord.Encode(r).value|
    ensures WalTracks(w + WalRecord.Encode(r).value[..k], synced, base, l')
    ensures MaybeMore(l.log, Some(r), l'.log) && l' == l.(log := l'.log)
    ensures k == |WalRecord.Encode(r).value| ==> l'.log == l.log + [r]
  {
    hide WalTracks, WalRecord.Encode, ParseWal;
    var e := WalRecord.Encode(r).value;
    if k == |e| {
      assert e[..k] == e;
      WalAppend(w, synced, base, l, r);
      l' := l.(log := l.log + [r]);
    } else {
      TornAppend(w, ParseWal(w).records, r, k);
      WalTorn(w, synced, base, l, e[..k]);
      l' := l;
    }
  }

  lemma DiskRelated(d: DiskImage, m: ManifestState, segments: seq<SegmentReader>, l: LogState)
    requires DiskOk(d, m, segments, l)
    ensures Related(Stopped(d), l)
  {
    hide DiskOk;
  }

  lemma CutAfter<T>(whole: seq<T>, cut: seq<T>, n: nat)
    requires cut <= whole && n <= |cut|
    ensures whole == whole[..n] + whole[n..] && cut == whole[..n] + whole[n..][..|cut| - n]
  {
    assert cut == whole[..|cut|];
  }

  /** What the relation says of the log file of a running engine. */
  lemma LogParts(v: EngineView, phase: Phase, d: DiskImage, l: LogState)
    requires Related(Running(v, phase, d), l)
    ensures AllReadable(v.segments)
    ensures var base, w := SegmentContents(v.segments), Settled(v, phase, d);
            && WalTracks(w, d.synced, base, l) && EarlierTrack(d.earlier, base, l)
            && Clean(w, ParseWal(w).records) && v.walSize == |w| <= |WalBytes(d)|
            && (!phase.Appended? ==> w == WalBytes(d))
            && (phase.Appended? ==>
                  w == WalBytes(d)[..v.walSize] && WalRecord.Encode(phase.record).Success?
                  && WalBytes(d)[v.walSize..] == WalRecord.Encode(phase.record).value)
  {
    hide WalRecord.Encode, Sound, SegmentContents, WalTracks, EarlierTrack, ParseWal, Fold;
    SoundParts(d, v.manifest, v.segments);
  }

  /** Where the file may end once the process is gone: anywhere past what has been acknowledged. */
  lemma CutWal(v: EngineView, phase: Phase, d: DiskImage, l: LogState, cut: Bytes) returns (l': LogState)
    requires Related(Running(v, phase, d), l)
    requires cut <= WalBytes(d) && v.walSize <= |cut|
    ensures AllReadable(v.segments) && WalTracks(cut, d.synced, SegmentContents(v.segments), l')
    ensures EarlierTrack(d.earlier, SegmentContents(v.segments), l')
    ensures MaybeMore(l.log, InFlight(Running(v, phase, d)), l'.log) && l' == l.(log := l'.log)
    ensures cut == WalBytes(d) && phase.Appended? ==> l'.log == l.log + [phase.record]
  {
    hide Related, Settled, WalRecord.Encode, SegmentContents, WalTracks, EarlierTrack, ParseWal;
    LogParts(v, phase, d, l);
    var base, w := SegmentContents(v.segments), Settled(v, phase, d);
    if phase.Appended? {
      CutAfter(WalBytes(d), cut, v.walSize);
      l' := WalTail(w, d.synced, base, l, phase.record, |cut| - |w|);
      if l' != l {
        EarlierAppend(d.earlier, base, l, phase.record);
      }
    } else {
      assert cut == w;
      l' := l;
    }
  }

  lemma KeepHalt(s: System, f: Option<WalPutRecord>, s': System, l: LogState) returns (l': LogState)
    requires Related(s, l) && Halt(s, f, s')
    ensures LogNext(l, Halted(f), l') && Related(s', l')
  {
    hide WalRecord.Encode, Sound, SegmentContents, WalTracks, EarlierTrack, ParseWal, Fold;
    var v := s.view;
    WalHere(s, l);
    l' := CutWal(v, s.phase, s.disk, l, WalBytes(s'.disk));
    SoundKeeps(s.disk, s'.disk, v.manifest, v.segments);
    DiskRelated(s'.disk, v.manifest, v.segments, l');
  }

  lemma WalHere(s: System, l: LogState)
    requires s.Running? && Related(s, l)
    ensures !s.phase.Appended? ==> s.view.walSize == |WalBytes(s.disk)|
    ensures s.disk.synced <= s.view.walSize <= |WalBytes(s.disk)|
  {
    hide Sound, ParseWal, WalRecord.Encode;
  }

  lemma SoundKeeps(d: DiskImage, d': DiskImage, m: ManifestState, segments: seq<SegmentReader>)
    requires Sound(d, m, segments) && d'.manifest == d.manifest
    requires forall n :: n in LiveFiles(d.manifest) && n in d.files ==> n in d'.files && d'.files[n] == d.files[n]
    ensures Sound(d', m, segments)
  {
    hide Load, SegmentReader.Valid, AllReadable, SegmentContents, GenerationUpTo;
    SoundFrame(d, d', m, segments);
  }

  /** The put in flight, as a log. */
  function Pending(s: System): Log {
    if InFlight(s).Some? then [InFlight(s).value] else []
  }

  /** The log of puts with the one in flight. */
  function Grown(s: System, l: LogState): LogState {
    l.(log := l.log + Pending(s))
  }

  /** The whole log file against the log of puts, the one in flight included. */
  lemma WholeWal(s: System, l: LogState) returns (m: ManifestState, segments: seq<SegmentReader>)
    requires Related(s, l)
    ensures Sound(s.disk, m, segments) && AllReadable(segments)
    ensures var grown, base := Grown(s, l), SegmentContents(segments);
            && WalTracks(WalBytes(s.disk), s.disk.synced, base, grown)
            && EarlierTrack(s.disk.earlier, base, grown)
  {
    hide Sound, SegmentContents, WalTracks, EarlierTrack, ParseWal, Fold, WalRecord.Encode;
    match s
    case Running(v, phase, d) =>
      WalHere(s, l);
      m, segments := v.manifest, v.segments;
      var grown := CutWal(v, phase, d, l, WalBytes(d));
      assert l.log + [] == l.log;
    case Stopped(d) =>
      m, segments :| DiskOk(d, m, segments, l);
      SoundParts(d, m, segments);
      assert l.log + [] == l.log;
  }

  /** A version of the log file that may come back, against the puts it holds. */
  lemma VersionOf(s: System, base: Contents, l: LogState, k: nat) returns (span: Span)
    requires WalTracks(WalBytes(s.disk), s.disk.synced, base, l) && EarlierTrack(s.disk.earlier, base, l)
    requires k < |Versions(s.disk)|
    ensures VersionTracks(Versions(s.disk)[k], base, l, span)
  {
    hide VersionTracks;
    span := if k < |s.disk.earlier| then l.spans[k] else Current(l);
  }

  lemma KeepLosePower(s: System, f: Option<WalPutRecord>, s': System, l: LogState) returns (l': LogState)
    requires Related(s, l) && LosePower(s, f, s')
    ensures LogNext(l, PowerLost(f), l') && Related(s', l')
  {
    hide Related, Sound, SegmentContents, WalTracks, EarlierTrack, VersionTracks, ParseWal, Fold, Survives;
    var m, segments := WholeWal(s, l);
    var base, grown := SegmentContents(segments), Grown(s, l);
    var k: nat :| FallsBack(s.disk, WalBytes(s'.disk), k);
    var span := VersionOf(s, base, grown, k);
    var after := VersionCut(Versions(s.disk)[k], base, grown, span, WalBytes(s'.disk));
    l' := AllSafe(after);
    assert MaybeMore(l.log, f, grown.log) by { assert l.log + [] == l.log; }
    NoEarlier(base, after);
    SoundKeeps(s.disk, s'.disk, m, segments);
    DiskRelated(s'.disk, m, segments, l');
  }

  // ----- recovery -----

  lemma KeepCleanup(s: System, s': System, l: LogState)
    requires Related(s, l) && RecoverCleanup(s, s')
    ensures Related(s', l)
  {
    hide Load, OpensLive, AllReadable, SegmentContents, GenerationUpTo, WalTracks, EarlierTrack, LooksLikeSegment,
      EndsWith;
    var m, segments :| DiskOk(s.disk, m, segments, l);
    LiveNamesAll(m);
    SoundFrame(s.disk, s'.disk, m, segments);
    DiskRelated(s'.disk, m, segments, l);
  }

  lemma KeepCreateWal(s: System, s': System, l: LogState)
    requires Related(s, l) && RecoverCreateWal(s, s')
    ensures Related(s', l)
  {
    hide Load, OpensLive, AllReadable, SegmentContents, GenerationUpTo, ParseWal, Tracks, EarlierTrack;
    var m, segments :| DiskOk(s.disk, m, segments, l);
    SoundFrame(s.disk, s'.disk, m, segments);
    DiskRelated(s'.disk, m, segments, l);
  }

  lemma KeepTruncate(s: System, s': System, l: LogState)
    requires Related(s, l) && RecoverTruncate(s, s')
    ensures Related(s', WithVersion(l))
  {
    hide Load, OpensLive, AllReadable, SegmentContents, GenerationUpTo, ParseWal, WalTracks, EarlierTrack;
    var m, segments :| DiskOk(s.disk, m, segments, l);
    SoundFrame(s.disk, s'.disk, m, segments);
    WalRepair(WalBytes(s.disk), s.disk.synced, SegmentContents(segments), l);
    EarlierCut(s.disk.earlier, WalBytes(s.disk), s.disk.synced, SegmentContents(segments), l);
    DiskRelated(s'.disk, m, segments, WithVersion(l));
  }

  lemma KeepRecoverSync(s: System, s': System, l: LogState)
    requires Related(s, l) && RecoverSync(s, s')
    ensures Related(s', AllSafe(l.log))
  {
    hide Load, OpensLive, AllReadable, SegmentContents, GenerationUpTo, ParseWal, WalTracks, EarlierTrack;
    var m, segments :| DiskOk(s.disk, m, segments, l);
    SoundFrame(s.disk, s'.disk, m, segments);
    WalSync(WalBytes(s.disk), s.disk.synced, SegmentContents(segments), l);
    NoEarlier(SegmentContents(segments), l.log);
    DiskRelated(s'.disk, m, segments, AllSafe(l.log));
  }

  /** The live files determine the opened segments. */
  lemma OpensSame(d: DiskImage, m: ManifestState, a: seq<SegmentReader>, b: seq<SegmentReader>)
    requires OpensLive(d, m, a) && OpensLive(d, m, b)
    ensures a == b
  {
    hide Open;
    forall i | 0 <= i < |a|
      ensures a[i] == b[i]
    {
      assert a[i].content == b[i].content;
    }
  }

  /** Counting only new points while replaying gives the number of distinct points. */
  lemma {:induction false} ReplayCounts(base: Contents, rs: seq<WalPutRecord>)
    ensures ReplayedCount(|base|, base, rs) == |base + Fold(rs)|
  {
    if rs == [] {
      PlusNothing(base);
    } else {
      var n := |rs| - 1;
      ReplayCounts(base, rs[..n]);
      FoldLast(rs);
      hide Fold;
      PutVisible(base, Fold(rs[..n]), PointOf(rs[n]), rs[n].sample.value);
    }
  }

  lemma PlusNothing(base: Contents)
    ensures base + map[] == base
  {}

  lemma FoldLast(rs: seq<WalPutRecord>)
    requires rs != []
    ensures var n := |rs| - 1; Fold(rs) == Fold(rs[..n])[PointOf(rs[n]) := rs[n].sample.value]
  {}

  lemma KeepFinish(s: System, s': System, l: LogState)
    requires Related(s, l) && RecoverFinish(s, s')
    ensures Related(s', l)
  {
    hide Load, OpensLive, AllReadable, SegmentContents, GenerationUpTo, ParseWal, WalTracks, EarlierTrack, Fold,
      CountPlausible, ReplayedCount;
    var m, segments :| DiskOk(s.disk, m, segments, l);
    OpensSame(s.disk, m, segments, s'.view.segments);
    var records := ParseWal(WalBytes(s.disk)).records;
    ReplayAccounts(WalBytes(s.disk));
    ReplayCounts(SegmentContents(segments), records);
    RunningRelated(s'.view, Idle, s.disk, l);
  }

  // ----- every step -----

  /** Exactly the publication of a flush puts unsafe puts into a segment. */
  ghost predicate Publishes(s: System, e: Event, s': System, l: LogState, l': LogState) {
    e == Internal ==> l'.published == if FlushCommit(s, s') then |l.log| else l.published
  }

  lemma InternalKeeps(s: System, s': System, l: LogState) returns (l': LogState)
    requires Related(s, l) && InternalStep(s, s')
    ensures LogNext(l, Internal, l') && Related(s', l')
    ensures Publishes(s, Internal, s', l, l')
  {
    hide Related, PutAppend, WriteTemporary, FlushPublish, FlushCommit, FlushCut, CompactPublish, CompactCommit,
      CompactRemove, CompactFinish, RecoverCleanup, RecoverCreateWal, RecoverTruncate, RecoverFinish;
    l' := l;
    if FlushCommit(s, s') {
      KeepFlushCommit(s, s', l);
      l' := l.(published := |l.log|);
    } else if r :| PutAppend(s, r, s') {
      KeepPutAppend(s, r, s', l);
    } else if WriteTemporary(s, s') {
      KeepWriteTemporary(s, s', l);
    } else if FlushPublish(s, s') {
      KeepFlushPublish(s, s', l);
    } else if FlushCut(s, s') {
      KeepFlushCut(s, s', l);
      l' := Emptied(l);
    } else if CompactPublish(s, s') {
      KeepCompactPublish(s, s', l);
    } else if CompactCommit(s, s') {
      KeepCompactCommit(s, s', l);
    } else if CompactRemove(s, s') {
      KeepCompactRemove(s, s', l);
    } else if CompactFinish(s, s') {
      KeepCompactFinish(s, s', l);
    } else if RecoverCleanup(s, s') {
      KeepCleanup(s, s', l);
    } else if RecoverCreateWal(s, s') {
      KeepCreateWal(s, s', l);
    } else if RecoverTruncate(s, s') {
      KeepTruncate(s, s', l);
      l' := WithVersion(l);
    } else {
      KeepFinish(s, s', l);
    }
  }

  lemma SyncedKeeps(s: System, s': System, l: LogState) returns (l': LogState)
    requires Related(s, l) && Next(s, Synced, s')
    ensures LogNext(l, Synced, l') && Related(s', l')
  {
    hide Related, SyncWal, FlushFinish, RecoverSync;
    l' := AllSafe(l.log);
    if SyncWal(s, s') {
      KeepSync(s, s', l);
    } else if FlushFinish(s, s') {
      KeepFlushFinish(s, s', l);
    } else {
      KeepRecoverSync(s, s', l);
    }
  }

  /** The simulation: every step of the engine is a step of the log. */
  lemma StepKeeps(s: System, e: Event, s': System, l: LogState) returns (l': LogState)
    requires Related(s, l) && Next(s, e, s')
    ensures LogNext(l, e, l') && Related(s', l') && Publishes(s, e, s', l, l')
  {
    hide Related, FlushCommit, PutFinish, Halt, LosePower, InternalStep, SyncWal, FlushFinish, RecoverSync, Survives,
      MaybeMore;
    match e
    case Acknowledged(r, durability) => l' := KeepPutFinish(s, r, durability, s', l);
    case Synced => l' := SyncedKeeps(s, s', l);
    case Halted(f) => l' := KeepHalt(s, f, s', l);
    case PowerLost(f) => l' := KeepLosePower(s, f, s', l);
    case Internal => l' := InternalKeeps(s, s', l);
  }

  /** A directory without a database reflects no puts. */
  lemma FreshRelated(s: System)
    requires Fresh(s)
    ensures Related(s, AllSafe([]))
  {
    hide Tracks;
    NoSegments();
    CleanEmpty();
    WalEmpty(map[], AllSafe([]));
    NoEarlier(map[], []);
    var m := ManifestState(0, 0, []);
    assert OpensLive(s.disk, m, []);
    DiskRelated(s.disk, m, [], AllSafe([]));
  }
}
