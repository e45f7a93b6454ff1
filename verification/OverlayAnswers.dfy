/** How the answers of a layer and of what lies below it combine into the answer of both. */
module OverlayAnswers {
  import opened Prelude
  import opened Model
  import opened SegmentBlocks
  import opened F = SegmentFormat
  import opened Contents
  import opened SegmentOrder
  import opened SegmentReaders
  import opened MemTables
  import opened Chunking
  import opened Overlay

  // ----- prefixes of the stack of segments -----

  lemma FirstLayers(segments: seq<SegmentReader>, i: nat)
    requires AllReadable(segments) && i <= |segments|
    ensures AllReadable(segments[..i])
  {
    hide SegmentReader.Valid, SegmentReader.Readable;
  }

  lemma OneMoreLayer(segments: seq<SegmentReader>, i: nat)
    requires AllReadable(segments) && i < |segments|
    ensures AllReadable(segments[..i]) && AllReadable(segments[..i + 1])
    ensures segments[i].Valid() && segments[i].Readable()
    ensures SegmentContents(segments[..i + 1]) == SegmentContents(segments[..i]) + segments[i].Points()
  {
    hide SegmentReader.Valid, SegmentReader.Readable, SegmentReader.Points, SegmentContents;
    FirstLayers(segments, i);
    SegmentContentsSnoc(segments[..i], segments[i]);
    assert segments[..i + 1] == segments[..i] + [segments[i]];
  }

  // ----- get -----

  lemma GetOverlay(a: Contents, b: Contents, series: SeriesKey, timestamp: i64)
    ensures GetAnswer(a + b, series, timestamp)
         == if GetAnswer(b, series, timestamp).Some? then GetAnswer(b, series, timestamp)
            else GetAnswer(a, series, timestamp)
  {}

  lemma NothingToGet(series: SeriesKey, timestamp: i64)
    ensures AllReadable([]) && GetAnswer(SegmentContents([]), series, timestamp) == None
  {
    NoSegments();
  }

  // ----- latest -----

  /** Of two layers' latest samples the later one, and the upper layer's if they tie. */
  function Later(below: Option<Sample>, above: Option<Sample>): Option<Sample> {
    if above.Some? && (below.None? || above.value.timestamp >= below.value.timestamp) then above else below
  }

  lemma LatestOverlay(a: Contents, b: Contents, series: SeriesKey, below: Option<Sample>, above: Option<Sample>)
    requires LatestAnswer(a, series, below) && LatestAnswer(b, series, above)
    ensures LatestAnswer(a + b, series, Later(below, above))
  {
    var r := Later(below, above);
    forall t: i64 | (series, t) in a + b
      ensures r.Some? && t <= r.value.timestamp
    {
      assert (series, t) in a || (series, t) in b;
    }
    if r.Some? && r != above {
      assert (series, r.value.timestamp) !in b;
    }
  }

  // ----- range -----

  /** A map from timestamps that holds exactly the samples of the series in the range. */
  ghost predicate RangeMap(m: Contents, series: SeriesKey, start: i64, end: i64, merged: SamplesByTimestamp) {
    forall t: i64 ::
      && (t in merged <==> (series, t) in m && start <= t < end)
      && (t in merged ==> merged[t] == m[(series, t)])
  }

  /** Later samples replace earlier ones at the same timestamp. */
  method MergeSamples(merged: SamplesByTimestamp, samples: seq<Sample>) returns (r: SamplesByTimestamp)
    requires Increasing(samples)
    ensures forall t: i64 :: t in r <==> t in merged || exists i :: 0 <= i < |samples| && samples[i].timestamp == t
    ensures forall i :: 0 <= i < |samples| ==> samples[i].timestamp in r && r[samples[i].timestamp] == samples[i].value
    ensures forall t :: t in merged && (forall i :: 0 <= i < |samples| ==> samples[i].timestamp != t) ==>
              t in r && r[t] == merged[t]
  {
    r := merged;
    for k := 0 to |samples|
      invariant forall t: i64 :: t in r <==> t in merged || exists i :: 0 <= i < k && samples[i].timestamp == t
      invariant forall i :: 0 <= i < k ==> samples[i].timestamp in r && r[samples[i].timestamp] == samples[i].value
      invariant forall t :: t in merged && (forall i :: 0 <= i < k ==> samples[i].timestamp != t) ==>
                  t in r && r[t] == merged[t]
    {
      r := r[samples[k].timestamp := samples[k].value];
    }
  }

  lemma RangeOverlay(a: Contents, b: Contents, series: SeriesKey, start: i64, end: i64,
                     merged: SamplesByTimestamp, samples: seq<Sample>, r: SamplesByTimestamp)
    requires RangeMap(a, series, start, end, merged) && RangeAnswer(b, series, start, end, samples)
    requires forall t: i64 :: t in r <==> t in merged || exists i :: 0 <= i < |samples| && samples[i].timestamp == t
    requires forall i :: 0 <= i < |samples| ==> samples[i].timestamp in r && r[samples[i].timestamp] == samples[i].value
    requires forall t :: t in merged && (forall i :: 0 <= i < |samples| ==> samples[i].timestamp != t) ==>
               t in r && r[t] == merged[t]
    ensures RangeMap(a + b, series, start, end, r)
  {
    hide Increasing;
    forall t: i64
      ensures t in r <==> (series, t) in a + b && start <= t < end
      ensures t in r ==> r[t] == (a + b)[(series, t)]
    {
      if (series, t) in b && start <= t < end {
        assert Sample(t, b[(series, t)]) in samples;
      }
      if i :| 0 <= i < |samples| && samples[i].timestamp == t {
        assert samples[i] in samples;
      }
    }
  }

  lemma RangeMapAnswer(m: Contents, series: SeriesKey, start: i64, end: i64, merged: SamplesByTimestamp,
                       r: seq<Sample>)
    requires RangeMap(m, series, start, end, merged) && Increasing(r)
    requires forall x: Sample :: x in r <==> x.timestamp in merged && merged[x.timestamp] == x.value
    ensures RangeAnswer(m, series, start, end, r)
  {}

  // ----- series -----

  /** The series of a segment are those its index names. */
  lemma IndexNamesSeries(segment: SegmentReader, series: SeriesKey)
    requires segment.Valid() && segment.Readable()
    ensures InSeries(segment.Points(), series)
       <==> exists k :: 0 <= k < |segment.index| && segment.index[k].series == series
  {
    hide Open, ReadBlock, ReadBlocks, BlocksMap, PairwiseOrdered, IndexSorted;
    segment.Facts();
    var index, blocks := segment.index, segment.Blocks();
    if k :| 0 <= k < |index| && index[k].series == series {
      assert Matches(blocks[k], index[k]);
      SampleIsPoint(blocks, k, blocks[k].samples[0]);
      assert (series, blocks[k].samples[0].timestamp) in segment.Points();
    }
    if t: i64 :| (series, t) in segment.Points() {
      var x := PointHolds(blocks, series, t);
      var k :| 0 <= k < |blocks| && blocks[k].series == series && x in blocks[k].samples;
      assert Matches(blocks[k], index[k]);
    }
  }

  /** No segment is empty, so neither is any stack of them. */
  lemma SegmentsHoldPoints(segments: seq<SegmentReader>)
    requires AllReadable(segments) && segments != []
    ensures SegmentContents(segments) != map[]
  {
    hide SegmentReader.Readable, SegmentReader.Points, SegmentContents, Open;
    var n := |segments| - 1;
    var top := segments[n];
    OneMoreLayer(segments, n);
    assert segments[..n + 1] == segments;
    OpenedNotEmpty(top.content);
    var series := top.index[0].series;
    IndexNamesSeries(top, series);
    SeriesOverlay(SegmentContents(segments[..n]), top.Points(), series);
  }

  lemma SeriesOverlay(a: Contents, b: Contents, series: SeriesKey)
    ensures InSeries(a + b, series) <==> InSeries(a, series) || InSeries(b, series)
  {
    if t: i64 :| (series, t) in a {
      assert (series, t) in a + b;
    }
    if t: i64 :| (series, t) in b {
      assert (series, t) in a + b;
    }
  }

  // ----- merging whole segments -----

  type Table = map<SeriesKey, SamplesByTimestamp>

  ghost predicate NoEmptySeries(m: Table) {
    forall s :: s in m ==> m[s] != map[]
  }

  method MergeBlock(merged: Table, block: SegmentBlock) returns (r: Table)
    requires NoEmptySeries(merged)
    ensures NoEmptySeries(r)
    ensures Flatten(r) == Flatten(merged) + SamplesMap(block.series, block.samples)
  {
    hide Flatten;
    var series, samples := block.series, block.samples;
    r := merged;
    ghost var base := Flatten(merged);
    assert samples[..0] == [] && base + map[] == base;
    for k := 0 to |samples|
      invariant NoEmptySeries(r)
      invariant Flatten(r) == base + SamplesMap(series, samples[..k])
    {
      var inner := if series in r then r[series] else map[];
      FlattenPut(r, series, inner, samples[k]);
      assert samples[..k + 1][..k] == samples[..k];
      OverlayOnePut(base, SamplesMap(series, samples[..k]), (series, samples[k].timestamp), samples[k].value);
      r := r[series := inner[samples[k].timestamp := samples[k].value]];
    }
    assert samples[..|samples|] == samples;
  }

  lemma OverlayOnePut(a: Contents, b: Contents, p: Point, value: Value)
    ensures (a + b)[p := value] == a + b[p := value]
  {}

  method MergeBlocks(merged: Table, blocks: seq<SegmentBlock>) returns (r: Table)
    requires NoEmptySeries(merged)
    ensures NoEmptySeries(r)
    ensures Flatten(r) == Flatten(merged) + BlocksMap(blocks)
  {
    hide Flatten, SamplesMap, NoEmptySeries;
    r := merged;
    ghost var base := Flatten(merged);
    assert blocks[..0] == [] && base + map[] == base;
    for k := 0 to |blocks|
      invariant NoEmptySeries(r)
      invariant Flatten(r) == base + BlocksMap(blocks[..k])
    {
      assert blocks[..k + 1][..k] == blocks[..k];
      PlusRegroup(base, BlocksMap(blocks[..k]), SamplesMap(blocks[k].series, blocks[k].samples));
      r := MergeBlock(r, blocks[k]);
    }
    assert blocks[..|blocks|] == blocks;
  }

  lemma PlusRegroup(a: Contents, b: Contents, c: Contents)
    ensures (a + b) + c == a + (b + c)
  {}

  /** Merging oldest to newest gives the contents of the whole stack. */
  method MergeSegments(segments: seq<SegmentReader>) returns (merged: Table)
    requires AllReadable(segments)
    ensures NoEmptySeries(merged) && Flatten(merged) == SegmentContents(segments)
  {
    hide Flatten, SegmentContents, AllReadable, NoEmptySeries, SegmentReader.Valid, ReadBlocks;
    merged := map[];
    NothingMerged();
    assert segments[..0] == [];
    for k := 0 to |segments|
      invariant AllReadable(segments[..k])
      invariant NoEmptySeries(merged) && Flatten(merged) == SegmentContents(segments[..k])
    {
      OneMoreLayer(segments, k);
      var blocks := segments[k].AllBlocks();
      merged := MergeBlocks(merged, blocks.value);
    }
    assert segments[..|segments|] == segments;
  }

  lemma NothingMerged()
    ensures NoEmptySeries(map[]) && Flatten(map[]) == map[]
    ensures AllReadable([]) && SegmentContents([]) == map[]
  {}

  // ----- the number of merged samples -----

  function SnapshotTotal(snapshots: seq<SeriesSnapshot>): nat {
    if snapshots == [] then 0
    else SnapshotTotal(snapshots[..|snapshots| - 1]) + |snapshots[|snapshots| - 1].samples|
  }

  method CountSnapshots(snapshots: seq<SeriesSnapshot>) returns (total: nat)
    ensures total == SnapshotTotal(snapshots)
  {
    total := 0;
    for i := 0 to |snapshots|
      invariant total == SnapshotTotal(snapshots[..i])
    {
      assert snapshots[..i + 1][..i] == snapshots[..i];
      total := total + |snapshots[i].samples|;
    }
    assert snapshots[..|snapshots|] == snapshots;
  }

  /** One snapshot's share of the points. */
  ghost function SnapshotMap(snapshots: seq<SeriesSnapshot>): Contents {
    if snapshots == [] then map[]
    else
      var n := |snapshots| - 1;
      SnapshotMap(snapshots[..n]) + SamplesMap(snapshots[n].series, snapshots[n].samples)
  }

  lemma {:induction false} SnapshotMapHas(snapshots: seq<SeriesSnapshot>, series: SeriesKey, x: Sample)
    requires SnapshotsSorted(snapshots)
    ensures Has(SnapshotMap(snapshots), series, x) <==> SnapshotHolds(snapshots, series, x)
    ensures (series, x.timestamp) in SnapshotMap(snapshots) ==>
              exists i :: 0 <= i < |snapshots| && snapshots[i].series == series
  {
    hide SamplesMap, Increasing, KeyLess;
    if snapshots != [] {
      var n := |snapshots| - 1;
      var init, last := snapshots[..n], snapshots[n];
      var p := (series, x.timestamp);
      SnapshotMapHas(init, series, x);
      SamplesMapHas(last.series, last.samples, series, x);
      SamplesMapHolds(last.series, last.samples, p);
      SeriesDistinct(snapshots);
      if i :| 0 <= i < n && init[i].series == series {
        assert snapshots[i].series == series != last.series;
      }
      if SnapshotHolds(init, series, x) {
        var i :| 0 <= i < n && init[i].series == series && x in init[i].samples;
        assert snapshots[i] == init[i];
      }
      if SnapshotHolds(snapshots, series, x) {
        var i :| 0 <= i < |snapshots| && snapshots[i].series == series && x in snapshots[i].samples;
        if i < n {
          assert init[i] == snapshots[i];
        }
      }
    }
  }

  lemma SeriesDistinct(snapshots: seq<SeriesSnapshot>)
    requires SnapshotsSorted(snapshots)
    ensures forall i, j :: 0 <= i < j < |snapshots| ==> snapshots[i].series != snapshots[j].series
  {
    KeyOrder();
    hide KeyLess, Increasing;
  }

  lemma {:induction false} SnapshotMapSize(snapshots: seq<SeriesSnapshot>)
    requires SnapshotsSorted(snapshots)
    ensures |SnapshotMap(snapshots)| == SnapshotTotal(snapshots)
  {
    hide SamplesMap, Increasing, KeyLess;
    if snapshots != [] {
      var n := |snapshots| - 1;
      var init, last := snapshots[..n], snapshots[n];
      SnapshotMapSize(init);
      SamplesSize(last.series, last.samples);
      SeriesDistinct(snapshots);
      forall p | p in SnapshotMap(init)
        ensures p !in SamplesMap(last.series, last.samples)
      {
        SnapshotMapHas(init, p.0, Sample(p.1, SnapshotMap(init)[p]));
        var i :| 0 <= i < n && init[i].series == p.0;
        assert snapshots[i].series == p.0;
        SamplesMapHolds(last.series, last.samples, p);
      }
      DisjointSize(SnapshotMap(init), SamplesMap(last.series, last.samples));
    }
  }

  /** The samples counted while merging are the distinct points. */
  lemma SnapshotTotalIs(m: Contents, snapshots: seq<SeriesSnapshot>)
    requires SnapshotAnswer(m, snapshots)
    ensures SnapshotTotal(snapshots) == |m|
  {
    hide Has, SnapshotHolds, SnapshotsSorted;
    forall s, x
      ensures Has(SnapshotMap(snapshots), s, x) <==> Has(m, s, x)
    {
      SnapshotMapHas(snapshots, s, x);
    }
    SameHas(SnapshotMap(snapshots), m);
    SnapshotMapSize(snapshots);
  }
}
