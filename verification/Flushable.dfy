/**
  Exactly which tables can be flushed. A put is refused only if its own record is too large, so a table can hold puts
  whose block or index is too large to write. Module `FlushRefusal` has the runs.
 */
module Flushable {
  import opened Prelude
  import opened Model
  import opened KeyCodec
  import opened WalRecord
  import opened B = SegmentBlocks
  import opened F = SegmentFormat
  import opened Orders
  import opened Contents
  import opened MemTables
  import opened Chunking
  import opened Overlay

  /** The size of the index of these blocks. */
  function IndexSize(blocks: seq<SegmentBlock>): nat {
    if blocks == [] then 0 else ENTRY_FIXED_SIZE + |EncKey(blocks[0].series)| + IndexSize(blocks[1..])
  }

  predicate BlockFits(b: SegmentBlock) {
    |EncKey(b.series)| + ENCODED_SAMPLE_SIZE * |b.samples| <= MAX_SEGMENT_BLOCK_PAYLOAD_SIZE
  }

  /** Everything a segment file limits: the number of blocks, the size of the index, and the size of each block. */
  predicate BlocksFit(blocks: seq<SegmentBlock>) {
    && |blocks| <= MAX_SEGMENT_BLOCK_COUNT && IndexSize(blocks) <= MAX_INDEX_PAYLOAD_SIZE
    && forall k :: 0 <= k < |blocks| ==> BlockFits(blocks[k])
  }

  lemma {:induction false} IndexSizeIs(blocks: seq<SegmentBlock>, offset: nat)
    requires Encodable(blocks)
    ensures |EncEntries(EntriesFor(blocks, offset))| == IndexSize(blocks)
  {
    hide B.Encode, EncExtent, EncSpan, EncKey, FirstTimestamp, LastTimestamp;
    if blocks != [] {
      FixedSizes(EntryFor(blocks[0], offset));
      IndexSizeIs(blocks[1..], offset + |B.Encode(blocks[0]).value|);
    }
  }

  /** The file for a snapshot can be written exactly when the snapshot is not empty and every size limit is met. */
  lemma FlushableIff(m: Contents, snapshots: seq<SeriesSnapshot>)
    requires SnapshotAnswer(m, snapshots)
    ensures AllIncreasing(snapshots)
    ensures SegmentBytes(ChunkAll(snapshots)).Success? <==>
              m != map[] && BlocksFit(ChunkAll(snapshots))
  {
    hide B.Encode, EntriesFor, EncEntries, BlocksMap, BlocksOrdered, Assemble, Body, ChunkAll, B.Increasing, KeyLess,
      SnapshotHolds, Has, EncKey;
    var blocks := ChunkAll(snapshots);
    ChunksHoldSnapshot(m, snapshots);
    NoBlocksNoPoints(blocks);
    forall k | 0 <= k < |blocks|
      ensures BlockFits(blocks[k]) <==> B.Encode(blocks[k]).Success?
    {
      EncodableIff(blocks[k]);
    }
    if Encodable(blocks) {
      IndexSizeIs(blocks, SEGMENT_HEADER_SIZE);
    }
  }

  lemma NoBlocksNoPoints(blocks: seq<SegmentBlock>)
    ensures blocks == [] <==> BlocksMap(blocks) == map[]
  {
    if blocks != [] {
      var last := blocks[|blocks| - 1];
      assert (last.series, last.samples[|last.samples| - 1].timestamp) in BlocksMap(blocks);
    }
  }

  /** Puts that the write-ahead log accepts one by one, and that no block can hold together. */
  lemma AcceptedButNotFlushable(series: SeriesKey, samples: seq<Sample>)
    requires 1 <= |samples| <= MAX_SAMPLES_PER_SEGMENT_BLOCK && B.Increasing(samples)
    requires |EncKey(series)| + ENCODED_SAMPLE_SIZE <= MAX_PAYLOAD_SIZE
    requires |EncKey(series)| + ENCODED_SAMPLE_SIZE * |samples| > MAX_SEGMENT_BLOCK_PAYLOAD_SIZE
    ensures forall i :: 0 <= i < |samples| ==> WalRecord.Encode(WalPutRecord(series, samples[i])).Success?
    ensures B.Encode(SegmentBlock(series, samples)).Failure?
  {
    hide EncKey, EncSample, EncSamples, WalRecord.Frame, B.Frame;
    EncodableIff(SegmentBlock(series, samples));
  }

  /** Such puts exist: one key of nearly 16 MiB and two timestamps. */
  lemma SomeAcceptedButNotFlushable() returns (series: SeriesKey, samples: seq<Sample>)
    ensures |samples| == 2
    ensures forall i :: 0 <= i < |samples| ==> WalRecord.Encode(WalPutRecord(series, samples[i])).Success?
    ensures B.BlockOf(series, samples).Success? && B.Encode(B.BlockOf(series, samples).value).Failure?
  {
    hide WalRecord.Encode, B.Encode, EncKey;
    series := LongKey(MAX_PAYLOAD_SIZE - ENCODED_SAMPLE_SIZE - 8);
    samples := [Sample(0, 0), Sample(1, 0)];
    AcceptedButNotFlushable(series, samples);
    B.BlockOfBlock(SegmentBlock(series, samples));
  }

  lemma LongKey(n: nat) returns (series: SeriesKey)
    requires 0 < n
    ensures |EncKey(series)| == n + 8
  {
    var measurement: Bytes := seq(n, _ => 0);
    series := SeriesKey(measurement, []);
    assert EncTags([]) == [];
  }

  // ----- a map has exactly one snapshot -----

  lemma {:induction false} Listing<T(!new)>(lt: (T, T) -> bool, keys: set<T>) returns (s: seq<T>)
    requires StrictTotal(lt)
    ensures Sorted(lt, s) && forall x :: x in s <==> x in keys
    decreases keys
  {
    s := [];
    if keys != {} {
      LeastExists(lt, keys);
      var x :| x in keys && forall y :: y in keys ==> x == y || lt(x, y);
      var rest := Listing(lt, keys - {x});
      s := [x] + rest;
    }
  }

  /** The samples of one series, in order. */
  lemma SeriesSamples(m: Contents, series: SeriesKey) returns (samples: seq<Sample>)
    ensures B.Increasing(samples) && forall x :: x in samples <==> Has(m, series, x)
    ensures InSeries(m, series) ==> samples != []
  {
    TimeOrder();
    var times := Listing(TimeLess, set p | p in m && p.0 == series :: p.1);
    assert forall t: i64 :: (series, t) in m ==> (series, t).1 in times;
    forall t | t in times
      ensures (series, t) in m
    {
      var p :| p in m && p.0 == series && p.1 == t;
      assert p == (series, t);
    }
    samples := seq(|times|, i requires 0 <= i < |times| => Sample(times[i], m[(series, times[i])]));
    forall x
      ensures x in samples <==> Has(m, series, x)
    {
      if Has(m, series, x) {
        var i :| 0 <= i < |times| && times[i] == x.timestamp;
        assert samples[i] == x;
      }
    }
    if t: i64 :| (series, t) in m {
      assert Has(m, series, Sample(t, m[(series, t)]));
    }
  }

  lemma {:induction false} SnapshotsOfSeries(m: Contents, keys: seq<SeriesKey>) returns (snapshots: seq<SeriesSnapshot>)
    requires Sorted(KeyLess, keys) && forall s :: s in keys ==> InSeries(m, s)
    ensures |snapshots| == |keys| && SnapshotsSorted(snapshots)
    ensures forall i :: 0 <= i < |keys| ==> snapshots[i].series == keys[i]
    ensures forall i, x :: 0 <= i < |keys| ==> (x in snapshots[i].samples <==> Has(m, keys[i], x))
  {
    hide KeyLess, B.Increasing, Has, InSeries;
    snapshots := [];
    for k := 0 to |keys|
      invariant |snapshots| == k
      invariant forall i :: 0 <= i < k ==> snapshots[i].series == keys[i]
      invariant forall i :: 0 <= i < k ==> snapshots[i].samples != [] && B.Increasing(snapshots[i].samples)
      invariant forall i, x :: 0 <= i < k ==> (x in snapshots[i].samples <==> Has(m, keys[i], x))
    {
      var samples := SeriesSamples(m, keys[k]);
      snapshots := snapshots + [SeriesSnapshot(keys[k], samples)];
    }
  }

  lemma SnapshotExists(m: Contents) returns (snapshots: seq<SeriesSnapshot>)
    ensures SnapshotAnswer(m, snapshots)
  {
    hide KeyLess, B.Increasing;
    KeyOrder();
    var keys := Listing(KeyLess, set p | p in m :: p.0);
    forall s
      ensures s in keys <==> InSeries(m, s)
    {
      if p :| p in m && p.0 == s {
        assert p == (s, p.1);
      }
      if t: i64 :| (s, t) in m {
        assert (s, t).0 in keys;
      }
    }
    snapshots := SnapshotsOfSeries(m, keys);
    forall s, x
      ensures SnapshotHolds(snapshots, s, x) <==> Has(m, s, x)
    {
      if Has(m, s, x) {
        assert InSeries(m, s);
        var i :| 0 <= i < |keys| && keys[i] == s;
        assert snapshots[i].series == s && x in snapshots[i].samples;
      }
    }
  }

  function SeriesOf(snapshots: seq<SeriesSnapshot>): (keys: seq<SeriesKey>)
    ensures |keys| == |snapshots|
  {
    seq(|snapshots|, i requires 0 <= i < |snapshots| => snapshots[i].series)
  }

  lemma NamedIffHeld(m: Contents, snapshots: seq<SeriesSnapshot>, s: SeriesKey)
    requires SnapshotAnswer(m, snapshots)
    ensures s in SeriesOf(snapshots) <==> exists x :: Has(m, s, x)
  {
    hide KeyLess, B.Increasing, Has;
    if s in SeriesOf(snapshots) {
      var i :| 0 <= i < |snapshots| && SeriesOf(snapshots)[i] == s;
      assert snapshots[i].series == s && snapshots[i].samples[0] in snapshots[i].samples;
      assert SnapshotHolds(snapshots, s, snapshots[i].samples[0]);
    }
    if x :| Has(m, s, x) {
      assert SnapshotHolds(snapshots, s, x);
      var i :| 0 <= i < |snapshots| && snapshots[i].series == s && x in snapshots[i].samples;
      assert SeriesOf(snapshots)[i] == s;
    }
  }

  lemma SamplesAt(m: Contents, snapshots: seq<SeriesSnapshot>, i: nat, x: Sample)
    requires SnapshotAnswer(m, snapshots) && i < |snapshots|
    ensures x in snapshots[i].samples <==> Has(m, snapshots[i].series, x)
  {
    KeyOrder();
    hide KeyLess, B.Increasing, Has;
    if Has(m, snapshots[i].series, x) {
      assert SnapshotHolds(snapshots, snapshots[i].series, x);
      var j :| 0 <= j < |snapshots| && snapshots[j].series == snapshots[i].series && x in snapshots[j].samples;
    }
  }

  lemma SnapshotUnique(m: Contents, a: seq<SeriesSnapshot>, b: seq<SeriesSnapshot>)
    requires SnapshotAnswer(m, a) && SnapshotAnswer(m, b)
    ensures a == b
  {
    hide KeyLess, B.Increasing, Has, SnapshotHolds;
    KeyOrder();
    forall s
      ensures s in SeriesOf(a) <==> s in SeriesOf(b)
    {
      NamedIffHeld(m, a, s);
      NamedIffHeld(m, b, s);
    }
    SortedUnique(KeyLess, SeriesOf(a), SeriesOf(b));
    forall i | 0 <= i < |a|
      ensures a[i] == b[i]
    {
      assert SeriesOf(a)[i] == SeriesOf(b)[i];
      forall x
        ensures x in a[i].samples <==> x in b[i].samples
      {
        SamplesAt(m, a, i, x);
        SamplesAt(m, b, i, x);
      }
      IncreasingUnique(a[i].samples, b[i].samples);
    }
  }

  // ----- tables that fit a segment -----

  /** The blocks that a flush would write. */
  ghost predicate TableFits(m: Contents) {
    exists snapshots :: SnapshotFits(m, snapshots)
  }

  ghost predicate SnapshotFits(m: Contents, snapshots: seq<SeriesSnapshot>) {
    SnapshotAnswer(m, snapshots) && BlocksFit(ChunkAll(snapshots))
  }

  lemma TableFitsIff(m: Contents, snapshots: seq<SeriesSnapshot>)
    requires SnapshotAnswer(m, snapshots)
    ensures TableFits(m) <==> SnapshotFits(m, snapshots)
  {
    hide SnapshotAnswer, BlocksFit;
    if other :| SnapshotFits(m, other) {
      SnapshotUnique(m, snapshots, other);
    }
  }

  lemma {:induction false} IndexSizeConcat(a: seq<SegmentBlock>, b: seq<SegmentBlock>)
    ensures IndexSize(a + b) == IndexSize(a) + IndexSize(b)
  {
    hide EncKey;
    if a == [] {
      assert a + b == b;
    } else {
      IndexSizeConcat(a[1..], b);
      assert (a + b)[1..] == a[1..] + b;
    }
  }

  predicate AllFit(blocks: seq<SegmentBlock>) {
    forall k :: 0 <= k < |blocks| ==> BlockFits(blocks[k])
  }

  /** `a` needs no more than `b`, in every respect that is limited. */
  predicate NoLarger(a: seq<SegmentBlock>, b: seq<SegmentBlock>) {
    |a| <= |b| && IndexSize(a) <= IndexSize(b) && (AllFit(b) ==> AllFit(a))
  }

  lemma AllFitConcat(a: seq<SegmentBlock>, b: seq<SegmentBlock>)
    ensures AllFit(a + b) <==> AllFit(a) && AllFit(b)
  {
    hide BlockFits;
    var all := a + b;
    if AllFit(all) {
      forall k | 0 <= k < |a|
        ensures BlockFits(a[k])
      {
        assert all[k] == a[k];
      }
      forall k | 0 <= k < |b|
        ensures BlockFits(b[k])
      {
        assert all[|a| + k] == b[k];
      }
    }
  }

  lemma NoLargerConcat(a: seq<SegmentBlock>, b: seq<SegmentBlock>, c: seq<SegmentBlock>, d: seq<SegmentBlock>)
    requires NoLarger(a, b) && NoLarger(c, d)
    ensures NoLarger(a + c, b + d)
  {
    hide AllFit;
    IndexSizeConcat(a, c);
    IndexSizeConcat(b, d);
    AllFitConcat(a, c);
    AllFitConcat(b, d);
  }

  lemma NothingIsNoLarger(b: seq<SegmentBlock>)
    ensures NoLarger([], b)
  {}

  lemma OneNoLarger(a: SegmentBlock, b: SegmentBlock)
    requires a.series == b.series && |a.samples| <= |b.samples|
    ensures NoLarger([a], [b])
  {
    hide EncKey;
    assert [a][1..] == [] && [b][1..] == [];
    assert AllFit([b]) ==> BlockFits([b][0]);
  }

  /** A series with more samples needs at least as much, although its blocks are cut elsewhere. */
  lemma {:induction false} ChunksNoLarger(series: SeriesKey, a: seq<Sample>, b: seq<Sample>)
    requires B.Increasing(a) && B.Increasing(b) && |a| <= |b|
    ensures NoLarger(ChunkSeries(series, a), ChunkSeries(series, b))
    decreases |a|
  {
    hide NoLarger;
    if a == [] {
      NothingIsNoLarger(ChunkSeries(series, b));
    } else {
      var m, n := ChunkSize(|a|), ChunkSize(|b|);
      ChunksNoLarger(series, a[m..], b[n..]);
      var first: SegmentBlock, other: SegmentBlock := SegmentBlock(series, a[..m]), SegmentBlock(series, b[..n]);
      OneNoLarger(first, other);
      NoLargerConcat([first], [other], ChunkSeries(series, a[m..]), ChunkSeries(series, b[n..]));
    }
  }

  /** Every series of `a` is in `b` with at least as many samples. */
  ghost predicate Embeds(a: seq<SeriesSnapshot>, b: seq<SeriesSnapshot>) {
    forall i :: 0 <= i < |a| ==> Embedded(a[i], b)
  }

  ghost predicate Embedded(x: SeriesSnapshot, b: seq<SeriesSnapshot>) {
    exists j :: 0 <= j < |b| && b[j].series == x.series && |x.samples| <= |b[j].samples|
  }

  lemma EmbeddedLater(x: SeriesSnapshot, b: seq<SeriesSnapshot>)
    requires Embedded(x, b) && b != [] && b[0].series != x.series
    ensures Embedded(x, b[1..])
  {
    var j :| 0 <= j < |b| && b[j].series == x.series && |x.samples| <= |b[j].samples|;
    assert b[1..][j - 1] == b[j];
  }

  lemma SortedTail(a: seq<SeriesSnapshot>)
    requires SnapshotsSorted(a) && a != []
    ensures SnapshotsSorted(a[1..]) && B.Increasing(a[0].samples)
    ensures forall i :: 0 < i < |a| ==> a[i].series != a[0].series
  {
    KeyOrder();
    hide KeyLess, B.Increasing;
  }

  lemma {:induction false} SnapshotsNoLarger(a: seq<SeriesSnapshot>, b: seq<SeriesSnapshot>)
    requires SnapshotsSorted(a) && SnapshotsSorted(b) && Embeds(a, b)
    ensures NoLarger(ChunkAll(a), ChunkAll(b))
    decreases |b|
  {
    hide NoLarger, KeyLess, B.Increasing, Embedded, ChunkSeries;
    if a == [] {
      NothingIsNoLarger(ChunkAll(b));
    } else {
      assert Embedded(a[0], b);
      EmbeddedSomewhere(a[0], b);
      SortedTail(a);
      SortedTail(b);
      if a[0].series == b[0].series {
        SameSeriesFirst(a[0], b);
        forall i | 0 <= i < |a[1..]|
          ensures Embedded(a[1..][i], b[1..])
        {
          EmbeddedLater(a[i + 1], b);
        }
        SnapshotsNoLarger(a[1..], b[1..]);
        ChunksNoLarger(a[0].series, a[0].samples, b[0].samples);
        NoLargerConcat(ChunkSeries(a[0].series, a[0].samples), ChunkSeries(b[0].series, b[0].samples),
                       ChunkAll(a[1..]), ChunkAll(b[1..]));
      } else {
        NotFirst(a, b);
        forall i | 0 <= i < |a|
          ensures Embedded(a[i], b[1..])
        {
          EmbeddedLater(a[i], b);
        }
        SnapshotsNoLarger(a, b[1..]);
        NothingIsNoLarger(ChunkSeries(b[0].series, b[0].samples));
        NoLargerConcat([], ChunkSeries(b[0].series, b[0].samples), ChunkAll(a), ChunkAll(b[1..]));
        assert [] + ChunkAll(a) == ChunkAll(a);
      }
    }
  }

  lemma EmbeddedSomewhere(x: SeriesSnapshot, b: seq<SeriesSnapshot>)
    requires Embedded(x, b)
    ensures b != []
  {}

  lemma SameSeriesFirst(x: SeriesSnapshot, b: seq<SeriesSnapshot>)
    requires Embedded(x, b) && SnapshotsSorted(b) && b != [] && b[0].series == x.series
    ensures |x.samples| <= |b[0].samples|
  {
    SortedTail(b);
  }

  /** If the first series of `b` is not the first of `a`, it is none of `a`. */
  lemma NotFirst(a: seq<SeriesSnapshot>, b: seq<SeriesSnapshot>)
    requires SnapshotsSorted(a) && SnapshotsSorted(b) && a != [] && b != [] && a[0].series != b[0].series
    requires Embedded(a[0], b)
    ensures forall i :: 0 <= i < |a| ==> a[i].series != b[0].series
  {
    KeyOrder();
    hide KeyLess, B.Increasing;
    var j :| 0 <= j < |b| && b[j].series == a[0].series && |a[0].samples| <= |b[j].samples|;
    assert KeyLess(b[0].series, a[0].series);
    forall i | 0 < i < |a|
      ensures a[i].series != b[0].series
    {
      assert KeyLess(a[0].series, a[i].series);
    }
  }

  lemma EmbeddedByPoints(m: Contents, a: seq<SeriesSnapshot>, m': Contents, b: seq<SeriesSnapshot>, i: nat)
    requires SnapshotAnswer(m, a) && SnapshotAnswer(m', b) && m.Keys <= m'.Keys && i < |a|
    ensures Embedded(a[i], b)
  {
    hide KeyLess, SnapshotHolds, SamplesMap;
    var series, x := a[i].series, a[i].samples[0];
    SamplesAt(m, a, i, x);
    assert Has(m', series, Sample(x.timestamp, m'[(series, x.timestamp)]));
    NamedIffHeld(m', b, series);
    var j :| 0 <= j < |b| && SeriesOf(b)[j] == series;
    forall p | p in SamplesMap(series, a[i].samples)
      ensures p in SamplesMap(series, b[j].samples)
    {
      SamplesMapHolds(series, a[i].samples, p);
      var k :| 0 <= k < |a[i].samples| && a[i].samples[k].timestamp == p.1;
      SamplesAt(m, a, i, a[i].samples[k]);
      var y := Sample(p.1, m'[(series, p.1)]);
      SamplesAt(m', b, j, y);
      var n :| 0 <= n < |b[j].samples| && b[j].samples[n] == y;
      SamplesMapHolds(series, b[j].samples, p);
    }
    SamplesSize(series, a[i].samples);
    SamplesSize(series, b[j].samples);
    KeysSize(SamplesMap(series, a[i].samples));
    KeysSize(SamplesMap(series, b[j].samples));
    SubsetSize(SamplesMap(series, a[i].samples).Keys, SamplesMap(series, b[j].samples).Keys);
  }

  /** A table that does not fit never fits again, whatever is put into it. */
  lemma MoreNeverFits(m: Contents, m': Contents)
    requires m.Keys <= m'.Keys && TableFits(m')
    ensures TableFits(m)
  {
    hide KeyLess, B.Increasing, SnapshotHolds, Has, Embedded, ChunkAll;
    var b :| SnapshotFits(m', b);
    var a := SnapshotExists(m);
    forall i | 0 <= i < |a|
      ensures Embedded(a[i], b)
    {
      EmbeddedByPoints(m, a, m', b, i);
    }
    SnapshotsNoLarger(a, b);
    FitsNoLarger(ChunkAll(a), ChunkAll(b));
    assert SnapshotFits(m, a);
  }

  lemma FitsNoLarger(a: seq<SegmentBlock>, b: seq<SegmentBlock>)
    requires NoLarger(a, b) && BlocksFit(b)
    ensures BlocksFit(a)
  {
    hide BlockFits;
  }
}
