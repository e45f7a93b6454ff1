/**
  With buffered appends the survivors of a power failure need not be any earlier state of the database: a flush
  publishes its manifest before the write-ahead log is synced, so old records can come to lie over the new segment.
  Module `WriteOrder` says exactly when they are.
 */
module BufferedOrder {
  import opened Prelude
  import opened Model
  import opened KeyCodec
  import opened WalRecord
  import opened WalRecovery
  import opened B = SegmentBlocks
  import opened F = SegmentFormat
  import opened Contents
  import opened SegmentOrder
  import opened SegmentReaders
  import opened SegmentNames
  import opened M = Manifest
  import opened MemTables
  import opened Chunking
  import opened Flushable
  import opened Overlay
  import opened Disk
  import opened DurableLog
  import opened Protocol
  import opened ProtocolSteps
  import opened CrashSafety

  // ----- a database that has only taken puts -----

  function LogBytes(rs: Log): Bytes
    requires Encodes(rs)
  {
    if rs == [] then [] else LogBytes(rs[..|rs| - 1]) + WalRecord.Encode(rs[|rs| - 1]).value
  }

  predicate Encodes(rs: Log) {
    forall i :: 0 <= i < |rs| ==> WalRecord.Encode(rs[i]).Success?
  }

  ghost function Plain(rs: Log): EngineView {
    EngineView(Buffered, Fold(rs), ManifestState(0, 0, []), [], |Fold(rs)|, |LogBytesOf(rs)|)
  }

  ghost function LogBytesOf(rs: Log): Bytes {
    if Encodes(rs) then LogBytes(rs) else []
  }

  ghost function OnlyLog(rs: Log): DiskImage {
    DiskImage(Some(LogBytesOf(rs)), 0, [], None, map[])
  }

  ghost function After(rs: Log): System {
    Running(Plain(rs), Idle, OnlyLog(rs))
  }

  ghost function During(rs: Log, r: WalPutRecord): System {
    Running(Plain(rs), Appended(r), OnlyLog(rs + [r]))
  }

  lemma PutSteps(rs: Log, r: WalPutRecord)
    requires Encodes(rs + [r])
    ensures Next(After(rs), Internal, During(rs, r))
    ensures Next(During(rs, r), Acknowledged(r, Buffered), After(rs + [r]))
  {
    hide WalRecord.Encode, Fold;
    var all := rs + [r];
    assert all[..|rs|] == rs && all[|rs|] == r;
    assert Encodes(rs);
    assert LogBytes(all) == LogBytes(rs) + WalRecord.Encode(r).value;
    assert PutAppend(After(rs), r, During(rs, r));
    NoSegments();
    PlusNothingBelow(Fold(rs));
    FoldSnoc(rs, r);
    PutSize(Fold(rs), PointOf(r), r.sample.value);
  }

  lemma PlusNothingBelow(c: Contents)
    ensures map[] + c == c
  {}

  lemma PlainShows(rs: Log, phase: Phase, d: DiskImage, c: Contents)
    requires Shows(Running(Plain(rs), phase, d), c)
    ensures c == Fold(rs)
  {
    hide Fold;
    NoSegments();
    PlusNothingBelow(Fold(rs));
  }

  // ----- flushing one series of a few samples -----

  lemma OneSnapshot(series: SeriesKey, samples: seq<Sample>)
    requires samples != [] && B.Increasing(samples)
    ensures SnapshotAnswer(SamplesMap(series, samples), [SeriesSnapshot(series, samples)])
  {
    hide B.Increasing, SamplesMap, Has;
    var snapshots := [SeriesSnapshot(series, samples)];
    forall s, x
      ensures SnapshotHolds(snapshots, s, x) <==> Has(SamplesMap(series, samples), s, x)
    {
      SamplesMapHas(series, samples, s, x);
      if s == series && x in samples {
        assert snapshots[0].series == s && x in snapshots[0].samples;
      }
    }
  }

  lemma OneChunk(series: SeriesKey, samples: seq<Sample>)
    requires 1 <= |samples| < MAX_SAMPLES_PER_SEGMENT_BLOCK && B.Increasing(samples)
    ensures ChunkAll([SeriesSnapshot(series, samples)]) == [SegmentBlock(series, samples)]
  {
    var one := [SeriesSnapshot(series, samples)];
    assert one[1..] == [] && samples[..|samples|] == samples && samples[|samples|..] == [];
    assert ChunkSeries(series, samples) == [SegmentBlock(series, samples)] + ChunkSeries(series, []);
  }

  lemma SmallSegment(series: SeriesKey, samples: seq<Sample>) returns (reader: SegmentReader)
    requires 1 <= |samples| < MAX_SAMPLES_PER_SEGMENT_BLOCK && B.Increasing(samples)
    requires |EncKey(series)| < 1000
    ensures SegmentFor(SamplesMap(series, samples), reader.content, reader)
  {
    hide B.Increasing, EncKey, SamplesMap, SnapshotAnswer, Open, EntriesFor, ReadBlocks, BlocksOrdered;
    var m, snapshots := SamplesMap(series, samples), [SeriesSnapshot(series, samples)];
    OneSnapshot(series, samples);
    OneChunk(series, samples);
    FlushableIff(m, snapshots);
    OneBlock(SegmentBlock(series, samples));
    SamplesMapHas(series, samples, series, samples[0]);
    var blocks := ChunkAll(snapshots);
    OpensAsWritten(blocks);
    var bytes, index := SegmentBytes(blocks).value, EntriesFor(blocks, SEGMENT_HEADER_SIZE);
    reader := SegmentReader(bytes, index, TotalSamples(index));
  }

  lemma OneBlock(b: SegmentBlock)
    requires |EncKey(b.series)| < 1000
    ensures IndexSize([b]) <= MAX_INDEX_PAYLOAD_SIZE && BlockFits(b)
  {
    assert [b][1..] == [];
  }

  lemma FirstManifest(name: Name, count: u64)
    requires ValidSegmentFilename(name) && |name| == 32
    ensures M.Encode(ManifestState(1, count, [name])).Success?
  {
    hide ValidSegmentFilename, Sealing.Seal, M.Header;
    assert [name][1..] == [];
    assert EncNames([name]) == EncString(name) + EncNames([]);
  }

  // ----- the run -----

  ghost function Publishing(rs: Log, reader: SegmentReader): System {
    var name := GenerationName(1);
    Running(Plain(rs), FlushPublished(name, reader), Publish(OnlyLog(rs), name, reader.content))
  }

  ghost function Published(rs: Log, reader: SegmentReader): System {
    var next := ManifestState(1, |Fold(rs)|, [GenerationName(1)]);
    if M.Encode(next).Failure? then Publishing(rs, reader)
    else
      Running(Plain(rs).(manifest := next, segments := [reader]), FlushCommitted,
              Publishing(rs, reader).disk.(manifest := Some(M.Encode(next).value)))
  }

  lemma FlushSteps(rs: Log, reader: SegmentReader)
    requires Fold(rs) != map[] && |Fold(rs)| <= U64_MAX && SegmentFor(Fold(rs), reader.content, reader)
    ensures Next(After(rs), Internal, Publishing(rs, reader))
    ensures Next(Publishing(rs, reader), Internal, Published(rs, reader))
    ensures Published(rs, reader).phase == FlushCommitted
  {
    hide Fold, SegmentFor, GenerationName, ValidSegmentFilename, M.Encode, OnlyLog;
    GenerationNameValid(1);
    FirstManifest(GenerationName(1), |Fold(rs)|);
    assert FlushPublish(After(rs), Publishing(rs, reader));
    assert [] + [GenerationName(1)] == [GenerationName(1)] && [] + [reader] == [reader];
    assert FlushCommit(Publishing(rs, reader), Published(rs, reader));
  }

  ghost function Crashed(rs: Log, reader: SegmentReader, wal: Bytes): System {
    Stopped(Published(rs, reader).disk.(wal := Some(wal), synced := |wal|))
  }

  /** Only the first record of the log survives; everything else is in the published segment. */
  lemma CrashStep(rs: Log, reader: SegmentReader)
    requires rs != [] && Encodes(rs) && Fold(rs) != map[] && |Fold(rs)| <= U64_MAX
    requires SegmentFor(Fold(rs), reader.content, reader)
    ensures var wal := WalRecord.Encode(rs[0]).value;
            Next(Published(rs, reader), PowerLost(None), Crashed(rs, reader, wal))
  {
    hide Fold, SegmentFor, GenerationName, M.Encode, WalRecord.Encode, Publishing, Published, Crashed;
    FlushSteps(rs, reader);
    FirstRecordFirst(rs);
    PublishedLog(rs, reader);
    LosesTail(Published(rs, reader), WalRecord.Encode(rs[0]).value);
  }

  lemma PublishedLog(rs: Log, reader: SegmentReader)
    ensures var s := Published(rs, reader);
            && s.Running? && !s.phase.Appended? && s.disk.wal == Some(LogBytesOf(rs)) && s.disk.synced == 0
    ensures forall wal :: Crashed(rs, reader, wal)
                       == Stopped(Published(rs, reader).disk.(wal := Some(wal), synced := |wal|))
    ensures Published(rs, reader).disk.earlier == []
  {
    hide Fold, GenerationName, M.Encode, LogBytesOf;
  }

  lemma LosesTail(s: System, wal: Bytes)
    requires s.Running? && !s.phase.Appended? && s.disk.wal.Some? && s.disk.synced == 0 && s.disk.earlier == []
    requires wal <= WalBytes(s.disk)
    ensures Next(s, PowerLost(None), Stopped(s.disk.(wal := Some(wal), synced := |wal|)))
  {
    var d' := s.disk.(wal := Some(wal), synced := |wal|);
    assert WalBytes(d') == wal && Versions(s.disk)[0] == Version(WalBytes(s.disk), 0);
    assert FallsBack(s.disk, WalBytes(d'), 0);
  }

  lemma CrashShows(rs: Log, reader: SegmentReader)
    requires rs != [] && Encodes(rs) && Fold(rs) != map[] && |Fold(rs)| <= U64_MAX
    requires SegmentFor(Fold(rs), reader.content, reader)
    ensures Shows(Crashed(rs, reader, WalRecord.Encode(rs[0]).value), Fold(rs) + Fold([rs[0]]))
  {
    hide Fold, SegmentFor, GenerationName, ValidSegmentFilename, M.Encode, Load, WalRecord.Encode, ParseWal,
      SegmentReader.Valid, SegmentReader.Readable, SegmentReader.Points, SegmentContents, AllReadable;
    var wal := WalRecord.Encode(rs[0]).value;
    var next := ManifestState(1, |Fold(rs)|, [GenerationName(1)]);
    FlushSteps(rs, reader);
    GenerationNameValid(1);
    FirstManifest(GenerationName(1), |Fold(rs)|);
    StoredLoads(next);
    SegmentForHolds(Fold(rs), reader.content, reader);
    SegmentContentsOne(reader);
    CleanEmpty();
    AppendRecord([], [], rs[0]);
    assert [] + wal == wal && [] + [rs[0]] == [rs[0]];
    var s' := Crashed(rs, reader, wal);
    assert OpensLive(s'.disk, next, [reader]);
  }

  lemma {:induction false} FirstRecordFirst(rs: Log)
    requires rs != [] && Encodes(rs)
    ensures WalRecord.Encode(rs[0]).value <= LogBytes(rs)
  {
    hide WalRecord.Encode;
    if |rs| == 1 {
      assert rs[..0] == [];
    } else {
      FirstRecordFirst(rs[..|rs| - 1]);
    }
  }

  lemma FlushingShows(rs: Log, reader: SegmentReader, c: Contents)
    requires Fold(rs) != map[] && |Fold(rs)| <= U64_MAX && SegmentFor(Fold(rs), reader.content, reader)
    requires Shows(Publishing(rs, reader), c) || Shows(Published(rs, reader), c)
    ensures c == Fold(rs)
  {
    hide Fold, SegmentFor, GenerationName, M.Encode, SegmentReader.Valid, SegmentReader.Readable, SegmentReader.Points,
      OnlyLog, SegmentContents;
    if Shows(Publishing(rs, reader), c) {
      PlainShows(rs, Publishing(rs, reader).phase, Publishing(rs, reader).disk, c);
    } else {
      FlushSteps(rs, reader);
      SegmentForHolds(Fold(rs), reader.content, reader);
      SegmentContentsOne(reader);
      PlusTwice(map[], Fold(rs));
      PlusNothingBelow(Fold(rs));
    }
  }

  lemma ExampleRecords() returns (a: WalPutRecord, b: WalPutRecord, c: WalPutRecord)
    ensures PointOf(a) == PointOf(b) != PointOf(c) && a.sample.value != b.sample.value
    ensures a.series == c.series && a.sample.timestamp < c.sample.timestamp && |EncKey(a.series)| < 1000
    ensures Encodes([a, b, c])
  {
    hide WalRecord.Frame, EncKey;
    var series := LongKey(1);
    a, b, c := WalPutRecord(series, Sample(0, 1)), WalPutRecord(series, Sample(0, 2)), WalPutRecord(series, Sample(1, 1));
  }

  /** What the puts leave, and that the first record over all of them is something else. */
  lemma ExampleFolds(a: WalPutRecord, b: WalPutRecord, c: WalPutRecord)
    requires PointOf(a) == PointOf(b) != PointOf(c) && a.series == c.series && a.sample.value != b.sample.value
    ensures Fold([a, b, c]) == SamplesMap(a.series, [b.sample, c.sample])
    ensures Fold([a, b, c]) != map[] && |Fold([a, b, c])| == 2
    ensures var mixed := Fold([a, b, c]) + Fold([a]);
            mixed != Fold([]) && mixed != Fold([a]) && mixed != Fold([a, b]) && mixed != Fold([a, b, c])
  {
    hide Fold, SamplesMap;
    FoldSnoc([], a);
    FoldSnoc([a], b);
    FoldSnoc([a, b], c);
    assert [] + [a] == [a] && [a] + [b] == [a, b] && [a, b] + [c] == [a, b, c];
    NothingFolded();
    TwoSamples(a.series, b.sample, c.sample);
    PutSize(map[], PointOf(b), b.sample.value);
    PutSize(map[PointOf(b) := b.sample.value], PointOf(c), c.sample.value);
    var mixed := Fold([a, b, c]) + Fold([a]);
    assert mixed[PointOf(a)] == a.sample.value && PointOf(c) in mixed;
  }

  lemma NothingFolded()
    ensures Fold([]) == map[]
  {}

  lemma TwoSamples(series: SeriesKey, x: Sample, y: Sample)
    ensures SamplesMap(series, [x, y])
         == map[(series, x.timestamp) := x.value][(series, y.timestamp) := y.value]
  {
    var two, one := [x, y], [x];
    assert two[..1] == one && one[..0] == [];
    assert SamplesMap(series, one) == SamplesMap(series, [])[(series, x.timestamp) := x.value];
    assert SamplesMap(series, two) == SamplesMap(series, one)[(series, y.timestamp) := y.value];
  }

  lemma StartSteps()
    ensures Next(Stopped(DiskImage(None, 0, [], None, map[])), Internal, Stopped(OnlyLog([])))
    ensures Next(Stopped(OnlyLog([])), Internal, After([]))
    ensures Shows(Stopped(DiskImage(None, 0, [], None, map[])), Fold([])) && Shows(Stopped(OnlyLog([])), Fold([]))
  {
    CleanEmpty();
    NoSegments();
    PlusNothingBelow(map[]);
    var s0, s, s' := Stopped(DiskImage(None, 0, [], None, map[])), Stopped(OnlyLog([])), After([]);
    assert RecoverCreateWal(s0, s);
    assert OpensLive(s0.disk, ManifestState(0, 0, []), []) && OpensLive(s.disk, ManifestState(0, 0, []), []);
    assert RecoverFinish(s, s');
  }

  /** A run so far that has never shown `c`. */
  ghost predicate NeverShown(states: seq<System>, events: seq<Event>, c: Contents) {
    Run(states, events) && forall n :: 0 <= n < |states| ==> !Shows(states[n], c)
  }

  lemma Extend(states: seq<System>, events: seq<Event>, e: Event, s': System, c: Contents)
    returns (more: seq<System>, events': seq<Event>)
    requires NeverShown(states, events, c)
    requires Next(states[|events|], e, s') && !Shows(s', c)
    ensures NeverShown(more, events', c) && |more| == |events'| + 1 && more[|events'|] == s'
  {
    hide Next, Shows, Fresh;
    more, events' := states + [s'], events + [e];
  }

  lemma NotFolded(rs: Log, phase: Phase, d: DiskImage, c: Contents)
    requires c != Fold(rs)
    ensures !Shows(Running(Plain(rs), phase, d), c)
  {
    hide Plain, Shows, Fold;
    if Shows(Running(Plain(rs), phase, d), c) {
      PlainShows(rs, phase, d, c);
    }
  }

  lemma ExtendPut(states: seq<System>, events: seq<Event>, rs: Log, r: WalPutRecord, c: Contents)
    returns (more: seq<System>, events': seq<Event>)
    requires NeverShown(states, events, c) && |states| == |events| + 1 && states[|events|] == After(rs)
    requires Encodes(rs + [r]) && c != Fold(rs) && c != Fold(rs + [r])
    ensures NeverShown(more, events', c) && |more| == |events'| + 1 && more[|events'|] == After(rs + [r])
  {
    hide Next, Shows, Fold, Plain, OnlyLog, Encodes, NeverShown;
    PutSteps(rs, r);
    NotFolded(rs, Appended(r), OnlyLog(rs + [r]), c);
    NotFolded(rs + [r], Idle, OnlyLog(rs + [r]), c);
    more, events' := Extend(states, events, Internal, During(rs, r), c);
    more, events' := Extend(more, events', Acknowledged(r, Buffered), After(rs + [r]), c);
  }

  lemma ExtendFlush(states: seq<System>, events: seq<Event>, rs: Log, reader: SegmentReader, c: Contents)
    returns (more: seq<System>, events': seq<Event>)
    requires NeverShown(states, events, c) && |states| == |events| + 1 && states[|events|] == After(rs)
    requires Fold(rs) != map[] && |Fold(rs)| <= U64_MAX && SegmentFor(Fold(rs), reader.content, reader)
    requires c != Fold(rs)
    ensures NeverShown(more, events', c) && |more| == |events'| + 1 && more[|events'|] == Published(rs, reader)
  {
    hide Next, Shows, Fold, After, Publishing, Published, SegmentFor, NeverShown;
    FlushSteps(rs, reader);
    if Shows(Publishing(rs, reader), c) || Shows(Published(rs, reader), c) {
      FlushingShows(rs, reader, c);
    }
    more, events' := Extend(states, events, Internal, Publishing(rs, reader), c);
    more, events' := Extend(more, events', Internal, Published(rs, reader), c);
  }

  lemma ThreePuts(x: WalPutRecord, y: WalPutRecord, z: WalPutRecord, c: Contents)
    returns (states: seq<System>, events: seq<Event>)
    requires Encodes([x, y, z])
    requires c != Fold([]) && c != Fold([x]) && c != Fold([x, y]) && c != Fold([x, y, z])
    ensures NeverShown(states, events, c) && |states| == |events| + 1 && states[|events|] == After([x, y, z])
  {
    hide NeverShown, Fold, After, Encodes;
    states, events := Start(c);
    assert [] + [x] == [x] && [x] + [y] == [x, y] && [x, y] + [z] == [x, y, z];
    EncodesPrefixes(x, y, z);
    states, events := ExtendPut(states, events, [], x, c);
    states, events := ExtendPut(states, events, [x], y, c);
    states, events := ExtendPut(states, events, [x, y], z, c);
  }

  lemma LastStep(states: seq<System>, events: seq<Event>, e: Event, s: System, c: Contents)
    returns (more: seq<System>, events': seq<Event>)
    requires NeverShown(states, events, c) && Next(states[|events|], e, s)
    ensures Run(more, events') && events' == events + [e] && more[|events'|] == s
    ensures forall n :: 0 <= n < |events'| ==> !Shows(more[n], c)
  {
    hide Next, Shows, Fresh;
    more, events' := states + [s], events + [e];
  }

  /** A run with buffered appends that ends, after a power failure, in contents it never had before. */
  lemma BufferedLosesOrder() returns (states: seq<System>, events: seq<Event>, c: Contents)
    ensures Run(states, events) && events != [] && events[|events| - 1] == PowerLost(None)
    ensures Shows(states[|events|], c)
    ensures forall n :: 0 <= n < |events| ==> !Shows(states[n], c)
  {
    hide Next, Run, Shows, NeverShown, Fold, After, Published, Crashed, SegmentFor, SamplesMap, Encodes;
    var x, y, z := ExampleRecords();
    ExampleFolds(x, y, z);
    var reader := SmallSegment(x.series, [y.sample, z.sample]);
    c := Fold([x, y, z]) + Fold([x]);
    states, events := ThreePuts(x, y, z, c);
    states, events := ExtendFlush(states, events, [x, y, z], reader, c);
    EncodesPrefixes(x, y, z);
    CrashStep([x, y, z], reader);
    CrashShows([x, y, z], reader);
    var last := Crashed([x, y, z], reader, WalRecord.Encode([x, y, z][0]).value);
    states, events := LastStep(states, events, PowerLost(None), last, c);
  }

  lemma EncodesPrefixes(x: WalPutRecord, y: WalPutRecord, z: WalPutRecord)
    requires Encodes([x, y, z])
    ensures Encodes([x]) && Encodes([x, y]) && WalRecord.Encode([x, y, z][0]).Success?
  {
    hide WalRecord.Encode;
    assert WalRecord.Encode([x, y, z][0]).Success? && WalRecord.Encode([x, y, z][1]).Success?;
  }

  lemma Start(c: Contents) returns (states: seq<System>, events: seq<Event>)
    requires c != Fold([])
    ensures NeverShown(states, events, c) && |states| == |events| + 1 && states[|events|] == After([])
  {
    hide Next, Shows, Fold, Plain, OnlyLog;
    var s0 := Stopped(DiskImage(None, 0, [], None, map[]));
    StartSteps();
    if Shows(s0, c) {
      ShowsOne(s0, c, Fold([]));
    }
    if Shows(Stopped(OnlyLog([])), c) {
      ShowsOne(Stopped(OnlyLog([])), c, Fold([]));
    }
    NotFolded([], Idle, OnlyLog([]), c);
    states, events := [s0], [];
    states, events := Extend(states, events, Internal, Stopped(OnlyLog([])), c);
    states, events := Extend(states, events, Internal, After([]), c);
  }
}
