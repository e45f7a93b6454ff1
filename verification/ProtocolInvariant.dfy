/**
  What every reachable state of the engine satisfies, and that every step keeps it.

  A state is related to the log of puts it reflects and to how many of them are durable. `StepKeeps` is the
  simulation: whatever step the machine takes, the log may change only as `LogNext` allows for the observed event.
 */
module ProtocolInvariant {
  import opened Prelude
  import opened WalRecord
  import opened WalRecovery
  import opened Contents
  import opened SegmentReaders
  import opened SegmentNames
  import opened M = Manifest
  import opened Overlay
  import opened Disk
  import opened DurableLog
  import opened Protocol

  // ----- the log that callers see -----

  /** What an event may do to the log, to its durable part and to what the newest segment holds of the rest. */
  ghost predicate LogNext(l: LogState, e: Event, l': LogState) {
    match e
    case Acknowledged(r, durability) =>
      l' == if durability == SyncOnAppend then AllSafe(l.log + [r]) else l.(log := l.log + [r])
    case Synced => l' == AllSafe(l.log)
    case Halted(f) => MaybeMore(l.log, f, l'.log) && l' == l.(log := l'.log)
    case PowerLost(f) =>
      && l' == AllSafe(l'.log)
      && exists grown :: MaybeMore(l.log, f, grown) && Survives(l.(log := grown), l'.log)
    case Internal =>
      l'.log == l.log && l'.durable == l.durable && (l'.published == l.published || l'.published == |l.log|)
  }

  /** The put in flight may or may not have made it. */
  ghost predicate MaybeMore(log: Log, inFlight: Option<WalPutRecord>, grown: Log) {
    grown == log || (inFlight.Some? && grown == log + [inFlight.value])
  }

  // ----- the write-ahead log against the log of puts -----

  /** Records complete within the first `k` bytes. */
  function RecordsIn(w: Bytes, k: nat): nat
    requires k <= |w|
  {
    |ParseWal(w[..k]).records|
  }

  /** A version of the log file, cut or not, against the stretch of the log of puts that it holds unsynced. */
  ghost predicate VersionTracks(v: Version, base: Contents, l: LogState, span: Span) {
    && v.synced <= |v.bytes| && ParseWal(v.bytes).Replayed? && l.durable <= span.start
    && Tracks(base, ParseWal(v.bytes).records, RecordsIn(v.bytes, v.synced), l.log, span, l.published)
  }

  /** The same for all earlier versions. Without any, what has left the log file is safe. */
  ghost predicate EarlierTrack(earlier: seq<Version>, base: Contents, l: LogState) {
    && |earlier| == |l.spans| && (earlier == [] ==> l.durable == l.start)
    && forall k :: 0 <= k < |earlier| ==> VersionTracks(earlier[k], base, l, l.spans[k])
  }

  /** The present log file. */
  ghost predicate WalTracks(w: Bytes, synced: nat, base: Contents, l: LogState) {
    VersionTracks(Version(w, synced), base, l, Current(l))
  }

  lemma WalMeaning(w: Bytes, synced: nat, base: Contents, l: LogState)
    requires WalTracks(w, synced, base, l)
    ensures base + Fold(ParseWal(w).records) == Fold(l.log)
  {
    hide Tracks;
    TracksMeaning(base, ParseWal(w).records, RecordsIn(w, synced), l.log, Current(l), l.published);
  }

  /** A prefix of a log that replays also replays, to a prefix of the records. */
  lemma {:induction false} PrefixOfReplayed(b: Bytes, k: nat)
    requires ParseWal(b).Replayed? && k <= |b|
    ensures ParseWal(b[..k]).Replayed? && ParseWal(b[..k]).records <= ParseWal(b).records
    decreases |b|
  {
    hide WalRecord.Decode;
    var rest := b[k..];
    assert b == b[..k] + rest;
    if WalRecord.Decode(b).Decoded? {
      var n := WalRecord.Decode(b).bytesConsumed;
      DecodedSize(b);
      if k < n {
        TornFrameIncomplete(b, k);
      } else {
        PrefixOfReplayed(b[n..], k - n);
        FirstRecordClean(b);
        assert b[..k] == b[..n] + b[n..][..k - n];
        ParseAppend(b[..n], [WalRecord.Decode(b).record], b[n..][..k - n]);
      }
    } else if WalRecord.Decode(b[..k]) != Rejected(IncompleteRecord) {
      VerdictStable(b[..k], rest);
    }
  }

  lemma RecordsMonotone(w: Bytes, j: nat, k: nat)
    requires ParseWal(w).Replayed? && j <= k <= |w|
    ensures RecordsIn(w, j) <= RecordsIn(w, k) <= |ParseWal(w).records|
    ensures ParseWal(w[..k]).records == ParseWal(w).records[..RecordsIn(w, k)]
  {
    PrefixOfReplayed(w, k);
    PrefixOfReplayed(w[..k], j);
    assert w[..k][..j] == w[..j];
  }

  /** Power is lost: a prefix no shorter than the synced one remains, and is durable from now on. */
  lemma VersionCut(v: Version, base: Contents, l: LogState, span: Span, wal: Bytes) returns (after: Log)
    requires VersionTracks(v, base, l, span) && v.synced <= |wal| && wal <= v.bytes
    ensures Survives(l, after)
    ensures WalTracks(wal, |wal|, base, AllSafe(after))
  {
    hide Tracks, Survives, ParseWal;
    var w, k := v.bytes, |wal|;
    assert wal == w[..k];
    var rs, u := ParseWal(w).records, RecordsIn(w, v.synced);
    RecordsMonotone(w, v.synced, k);
    PrefixOfReplayed(w, k);
    var i := RecordsIn(w, k);
    after := TracksCut(base, rs, u, l, span, i);
    assert w[..k][..k] == w[..k];
  }

  lemma WalSync(w: Bytes, synced: nat, base: Contents, l: LogState)
    requires WalTracks(w, synced, base, l)
    ensures WalTracks(w, |w|, base, AllSafe(l.log))
  {
    hide Tracks, ParseWal;
    TracksSync(base, ParseWal(w).records, RecordsIn(w, synced), l.log, Current(l), l.published);
    assert w[..|w|] == w;
  }

  /** The log grows by bytes that bring no record. */
  lemma WalTorn(w: Bytes, synced: nat, base: Contents, l: LogState, more: Bytes)
    requires WalTracks(w, synced, base, l)
    requires ParseWal(w + more).Replayed? && ParseWal(w + more).records == ParseWal(w).records
    ensures WalTracks(w + more, synced, base, l)
  {
    hide Tracks, ParseWal;
    assert (w + more)[..synced] == w[..synced];
  }

  lemma WalAppend(w: Bytes, synced: nat, base: Contents, l: LogState, r: WalPutRecord)
    requires WalTracks(w, synced, base, l) && Clean(w, ParseWal(w).records) && WalRecord.Encode(r).Success?
    ensures var w' := w + WalRecord.Encode(r).value;
            && Clean(w', ParseWal(w).records + [r])
            && WalTracks(w', synced, base, l.(log := l.log + [r]))
  {
    hide Tracks, WalRecord.Encode, ParseWal;
    var rs, u := ParseWal(w).records, RecordsIn(w, synced);
    var w' := w + WalRecord.Encode(r).value;
    AppendRecord(w, rs, r);
    assert w'[..synced] == w[..synced];
    TracksAppend(base, rs, u, l.log, Current(l), l.published, r);
  }

  lemma EarlierAppend(earlier: seq<Version>, base: Contents, l: LogState, r: WalPutRecord)
    requires EarlierTrack(earlier, base, l)
    ensures EarlierTrack(earlier, base, l.(log := l.log + [r]))
  {
    hide Tracks, ParseWal;
    forall k | 0 <= k < |earlier|
      ensures VersionTracks(earlier[k], base, l.(log := l.log + [r]), l.spans[k])
    {
      var v := earlier[k];
      TracksMore(base, ParseWal(v.bytes).records, RecordsIn(v.bytes, v.synced), l.log, l.spans[k], l.published, r);
    }
  }

  /** The present version joins the earlier ones. */
  function WithVersion(l: LogState): LogState {
    l.(spans := l.spans + [Current(l)])
  }

  lemma EarlierCut(earlier: seq<Version>, w: Bytes, synced: nat, base: Contents, l: LogState)
    requires EarlierTrack(earlier, base, l) && WalTracks(w, synced, base, l)
    ensures EarlierTrack(earlier + [Version(w, synced)], base, WithVersion(l))
  {
    hide Tracks, ParseWal;
  }

  /** What is left of the synced bytes when the reported tail is cut off. */
  function SyncedLeft(w: Bytes, synced: nat): nat
    requires ParseWal(w).Replayed?
  {
    var v := ParseWal(w).validBytes;
    if synced < v then synced else v
  }

  lemma RepairedRecords(w: Bytes, synced: nat)
    requires ParseWal(w).Replayed? && synced <= |w|
    ensures var v := ParseWal(w).validBytes;
            && v <= |w| && Clean(w[..v], ParseWal(w).records)
            && RecordsIn(w[..v], SyncedLeft(w, synced)) == RecordsIn(w, synced)
  {
    hide ParseWal;
    RepairedIsClean(w);
    var v := ParseWal(w).validBytes;
    if synced < v {
      assert w[..v][..synced] == w[..synced];
    } else {
      RecordsMonotone(w, v, synced);
      assert w[..v][..v] == w[..v];
    }
  }

  /** Truncating the reported tail loses no record. */
  lemma WalRepair(w: Bytes, synced: nat, base: Contents, l: LogState)
    requires WalTracks(w, synced, base, l)
    ensures var v := ParseWal(w).validBytes;
            && v <= |w| && Clean(w[..v], ParseWal(w).records)
            && WalTracks(w[..v], SyncedLeft(w, synced), base, WithVersion(l))
  {
    hide Tracks, ParseWal, RecordsIn;
    RepairedRecords(w, synced);
  }

  /** The log of puts once the log file has been emptied. */
  function Emptied(l: LogState): LogState {
    l.(start := |l.log|, spans := l.spans + [Current(l)])
  }

  lemma WalEmpty(base: Contents, l: LogState)
    requires base == Fold(l.log) && l.published <= |l.log| && l.durable <= |l.log|
    ensures Clean([], []) && WalTracks([], 0, base, l.(start := |l.log|))
  {
    hide Tracks;
    CleanEmpty();
    TracksReset(base, l.log, l.published);
    var none: Bytes := [];
    assert none[..0] == none;
  }

  /** A published segment that holds everything in the write-ahead log changes nothing. */
  lemma VersionPublish(v: Version, base: Contents, l: LogState, span: Span)
    requires VersionTracks(v, base, l, span)
    ensures VersionTracks(v, Fold(l.log), l.(published := |l.log|), span)
  {
    hide Tracks, ParseWal, Fold;
    TracksPublish(base, ParseWal(v.bytes).records, RecordsIn(v.bytes, v.synced), l.log, span, l.published);
  }

  lemma WalPublish(w: Bytes, synced: nat, earlier: seq<Version>, base: Contents, l: LogState)
    requires WalTracks(w, synced, base, l) && EarlierTrack(earlier, base, l)
    ensures base + Fold(ParseWal(w).records) == Fold(l.log)
    ensures WalTracks(w, synced, Fold(l.log), l.(published := |l.log|))
    ensures EarlierTrack(earlier, Fold(l.log), l.(published := |l.log|))
  {
    hide Tracks, ParseWal, Fold;
    WalMeaning(w, synced, base, l);
    VersionPublish(Version(w, synced), base, l, Current(l));
    forall k | 0 <= k < |earlier|
      ensures VersionTracks(earlier[k], Fold(l.log), l.(published := |l.log|), l.spans[k])
    {
      VersionPublish(earlier[k], base, l, l.spans[k]);
    }
  }

  /** A log file that has been synced to its end holds no put that is not safe. */
  lemma NothingUnsynced(w: Bytes, base: Contents, l: LogState)
    requires WalTracks(w, |w|, base, l)
    ensures l.start == |l.log|
  {
    assert w[..|w|] == w;
    NoUnsyncedPut(base, ParseWal(w).records, l);
  }

  lemma NoUnsyncedPut(base: Contents, rs: Log, l: LogState)
    requires Tracks(base, rs, |rs|, l.log, Current(l), l.published)
    ensures l.start == |l.log|
  {
    assert rs[|rs|..] == [];
    assert |l.log[l.start..|l.log|]| == |l.log| - l.start;
  }

  // ----- manifest and live segments -----

  ghost predicate GenerationUpTo(name: Name, generation: nat) {
    exists g: nat :: 1 <= g <= generation && name == GenerationName(g)
  }

  ghost predicate Sound(d: DiskImage, m: ManifestState, segments: seq<SegmentReader>) {
    && Load(d.manifest) == Success(m) && m.generation <= U64_MAX
    && OpensLive(d, m, segments) && AllReadable(segments)
    && (forall i :: 0 <= i < |m.segmentFiles| ==> GenerationUpTo(m.segmentFiles[i], m.generation))
    && m.logicalSampleCount == |SegmentContents(segments)|
  }

  /** Only the manifest and the live files matter. */
  lemma SoundFrame(d: DiskImage, d': DiskImage, m: ManifestState, segments: seq<SegmentReader>)
    requires Sound(d, m, segments)
    requires d'.manifest == d.manifest
    requires forall n :: n in m.segmentFiles ==> n in d.files ==> n in d'.files && d'.files[n] == d.files[n]
    ensures Sound(d', m, segments)
  {
    hide Load, SegmentReader.Valid, SegmentContents, AllReadable, GenerationUpTo;
  }

  /** A live name is never a temporary and never the next name. */
  lemma LiveNames(m: ManifestState, n: Name)
    requires n in m.segmentFiles && m.generation <= U64_MAX
    requires forall i :: 0 <= i < |m.segmentFiles| ==> GenerationUpTo(m.segmentFiles[i], m.generation)
    ensures !Temporary(n)
    ensures LooksLikeSegment(n) && ValidSegmentFilename(n)
    ensures m.generation < U64_MAX ==> n != NextName(m)
  {
    hide GenerationName, LooksLikeSegment, ValidSegmentFilename;
    var i :| 0 <= i < |m.segmentFiles| && m.segmentFiles[i] == n;
    var g: nat :| 1 <= g <= m.generation && n == GenerationName(g);
    GenerationNameValid(g);
    NotTemporary(g);
    if m.generation < U64_MAX && n == NextName(m) {
      GenerationNameInjective(g, m.generation + 1);
    }
  }

  lemma NotTemporary(g: nat)
    ensures !Temporary(GenerationName(g))
  {
    var name := GenerationName(g);
    assert name[28..] == EXTENSION;
    assert name[28..][1] == EXTENSION[1] != TEMPORARY[1];
  }

  lemma LiveNamesAll(m: ManifestState)
    requires m.generation <= U64_MAX
    requires forall i :: 0 <= i < |m.segmentFiles| ==> GenerationUpTo(m.segmentFiles[i], m.generation)
    ensures forall n :: n in m.segmentFiles ==> !Temporary(n) && (m.generation < U64_MAX ==> n != NextName(m))
  {
    forall n | n in m.segmentFiles
      ensures !Temporary(n) && (m.generation < U64_MAX ==> n != NextName(m))
    {
      LiveNames(m, n);
    }
  }

  // ----- the relation -----

  ghost predicate PhaseOk(v: EngineView, phase: Phase, d: DiskImage)
    requires AllReadable(v.segments)
  {
    match phase
    case Idle => true
    case Appended(r) =>
      WalRecord.Encode(r).Success? && |WalBytes(d)| == v.walSize + |WalRecord.Encode(r).value|
      && WalBytes(d)[v.walSize..] == WalRecord.Encode(r).value
    case FlushPublished(name, reader) => NewSegment(v, name, reader, d) && reader.Points() == v.memtable
    case FlushCommitted => Visible(v) == SegmentContents(v.segments)
    case FlushEmptied => true
    case CompactPublished(name, reader) =>
      NewSegment(v, name, reader, d) && reader.Points() == SegmentContents(v.segments)
    case CompactCommitted(obsolete) => forall n :: n in obsolete ==> n !in v.manifest.segmentFiles
  }

  ghost predicate NewSegment(v: EngineView, name: Name, reader: SegmentReader, d: DiskImage) {
    && v.manifest.generation < U64_MAX && name == NextName(v.manifest)
    && name in d.files && d.files[name] == reader.content
    && reader.Valid() && reader.Readable()
  }

  /** The part of the write-ahead log that holds acknowledged records. */
  function Settled(v: EngineView, phase: Phase, d: DiskImage): Bytes {
    if phase.Appended? && v.walSize <= |WalBytes(d)| then WalBytes(d)[..v.walSize] else WalBytes(d)
  }

  /** Above segments holding `base`: the memtable is the replay of the write-ahead log, and the count is exact. */
  ghost predicate TableOk(v: EngineView, base: Contents, w: Bytes, synced: nat, l: LogState) {
    && v.walSize == |w| && Clean(w, ParseWal(w).records)
    && WalTracks(w, synced, base, l)
    && v.memtable == Fold(ParseWal(w).records)
    && v.sampleCount == |base + v.memtable|
  }

  ghost predicate RunningOk(v: EngineView, phase: Phase, d: DiskImage, l: LogState) {
    && Sound(d, v.manifest, v.segments) && d.wal.Some?
    && PhaseOk(v, phase, d)
    && EarlierTrack(d.earlier, SegmentContents(v.segments), l)
    && TableOk(v, SegmentContents(v.segments), Settled(v, phase, d), d.synced, l)
  }

  ghost predicate DiskOk(d: DiskImage, m: ManifestState, segments: seq<SegmentReader>, l: LogState) {
    && Sound(d, m, segments) && (d.wal.None? ==> d.earlier == [])
    && EarlierTrack(d.earlier, SegmentContents(segments), l)
    && WalTracks(WalBytes(d), d.synced, SegmentContents(segments), l)
  }

  ghost predicate Related(s: System, l: LogState) {
    match s
    case Running(v, phase, d) => RunningOk(v, phase, d, l)
    case Stopped(d) => exists m, segments :: DiskOk(d, m, segments, l)
  }
}
