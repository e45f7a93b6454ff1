/** Logs of puts and stacks of segments as maps, and the counting the engine relies on. */
module Overlay {
  import opened Prelude
  import opened Model
  import opened WalRecord
  import opened SegmentBlocks
  import opened F = SegmentFormat
  import opened Contents
  import opened SegmentOrder
  import opened SegmentReaders

  // ----- logs -----

  function PointOf(r: WalPutRecord): Point {
    (r.series, r.sample.timestamp)
  }

  /** The meaning of a log: the last put to a point wins. */
  function Fold(log: seq<WalPutRecord>): Contents {
    if log == [] then map[]
    else
      var n := |log| - 1;
      Fold(log[..n])[PointOf(log[n]) := log[n].sample.value]
  }

  lemma FoldSnoc(log: seq<WalPutRecord>, r: WalPutRecord)
    ensures Fold(log + [r]) == Fold(log)[PointOf(r) := r.sample.value]
  {
    assert (log + [r])[..|log|] == log;
  }

  lemma PlusUpdate(a: Contents, b: Contents, p: Point, v: Value)
    ensures (a + b)[p := v] == a + b[p := v]
  {}

  lemma {:induction false} FoldConcat(a: seq<WalPutRecord>, b: seq<WalPutRecord>)
    ensures Fold(a + b) == Fold(a) + Fold(b)
  {
    if b == [] {
      assert a + b == a;
    } else {
      hide Fold;
      var init, last := b[..|b| - 1], b[|b| - 1];
      assert a + b == a + init + [last] && b == init + [last];
      FoldConcat(a, init);
      FoldSnoc(a + init, last);
      FoldSnoc(init, last);
      PlusUpdate(Fold(a), Fold(init), PointOf(last), last.sample.value);
    }
  }

  /** The log without the puts to any point of `points`. */
  function Without(log: seq<WalPutRecord>, points: set<Point>): seq<WalPutRecord> {
    if log == [] then []
    else
      var n := |log| - 1;
      Without(log[..n], points) + (if PointOf(log[n]) in points then [] else [log[n]])
  }

  lemma {:induction false} FoldWithout(log: seq<WalPutRecord>, points: set<Point>)
    ensures Fold(Without(log, points)) == Fold(log) - points
  {
    if log != [] {
      var n := |log| - 1;
      FoldWithout(log[..n], points);
      if PointOf(log[n]) in points {
        assert Without(log, points) == Without(log[..n], points);
      } else {
        FoldSnoc(Without(log[..n], points), log[n]);
      }
    }
  }

  ghost predicate Submap(a: Contents, b: Contents) {
    forall p :: p in a ==> p in b && a[p] == b[p]
  }

  function Lookup(m: Contents, p: Point): Option<Value> {
    if p in m then Some(m[p]) else None
  }

  // ----- stacks of segments, oldest first -----

  function Merge(layers: seq<Contents>): Contents {
    if layers == [] then map[] else Merge(layers[..|layers| - 1]) + layers[|layers| - 1]
  }

  lemma MergeSnoc(layers: seq<Contents>, top: Contents)
    ensures Merge(layers + [top]) == Merge(layers) + top
  {
    assert (layers + [top])[..|layers|] == layers;
  }

  lemma MergeOne(layer: Contents)
    ensures Merge([layer]) == layer
  {
    MergeSnoc([], layer);
    assert [] + [layer] == [layer];
  }

  ghost predicate AllReadable(segments: seq<SegmentReader>) {
    forall i :: 0 <= i < |segments| ==> segments[i].Valid() && segments[i].Readable()
  }

  ghost function Layers(segments: seq<SegmentReader>): (layers: seq<Contents>)
    requires AllReadable(segments)
    ensures |layers| == |segments|
  {
    seq(|segments|, i requires 0 <= i < |segments| => segments[i].Points())
  }

  ghost function SegmentContents(segments: seq<SegmentReader>): Contents
    requires AllReadable(segments)
  {
    Merge(Layers(segments))
  }

  lemma SegmentContentsSnoc(segments: seq<SegmentReader>, top: SegmentReader)
    requires AllReadable(segments) && top.Valid() && top.Readable()
    ensures AllReadable(segments + [top])
    ensures SegmentContents(segments + [top]) == SegmentContents(segments) + top.Points()
  {
    hide SegmentReader.Valid, SegmentReader.Readable, SegmentReader.Points, Merge;
    var all := segments + [top];
    assert AllReadable(all);
    assert Layers(all) == Layers(segments) + [top.Points()];
    MergeSnoc(Layers(segments), top.Points());
  }

  lemma SegmentContentsOne(segment: SegmentReader)
    requires segment.Valid() && segment.Readable()
    ensures AllReadable([segment]) && SegmentContents([segment]) == segment.Points()
  {
    hide SegmentReader.Valid, SegmentReader.Readable, SegmentReader.Points, Merge;
    assert Layers([segment]) == [segment.Points()];
    MergeOne(segment.Points());
  }

  // ----- counting -----

  lemma {:induction false} DisjointSize(a: Contents, b: Contents)
    requires a.Keys !! b.Keys
    ensures |a + b| == |a| + |b|
  {
    assert (a + b).Keys == a.Keys + b.Keys;
    assert |(a + b).Keys| == |a.Keys| + |b.Keys|;
  }

  lemma MergedSize(a: Contents, b: Contents)
    ensures |a + b| <= |a| + |b|
  {
    var rest := a - b.Keys;
    WithoutOverlap(a, b);
    DisjointSize(rest, b);
    KeysSize(a);
    KeysSize(rest);
    SubsetSize(rest.Keys, a.Keys);
  }

  lemma WithoutOverlap(a: Contents, b: Contents)
    ensures a + b == (a - b.Keys) + b
    ensures (a - b.Keys).Keys !! b.Keys && (a - b.Keys).Keys <= a.Keys
  {}

  lemma KeysSize(a: Contents)
    ensures |a| == |a.Keys|
  {}

  lemma {:induction false} SubsetSize<T>(a: set<T>, b: set<T>)
    requires a <= b
    ensures |a| <= |b|
  {
    if a != {} {
      var x :| x in a;
      SubsetSize(a - {x}, b - {x});
    }
  }

  lemma {:induction false} SamplesSize(series: SeriesKey, samples: seq<Sample>)
    requires Increasing(samples)
    ensures |SamplesMap(series, samples)| == |samples|
  {
    if samples != [] {
      var n := |samples| - 1;
      SamplesSize(series, samples[..n]);
      SamplesMapHolds(series, samples[..n], (series, samples[n].timestamp));
      assert forall i :: 0 <= i < n ==> samples[..n][i].timestamp < samples[n].timestamp;
    }
  }

  function SampleTotal(blocks: seq<SegmentBlock>): nat {
    if blocks == [] then 0 else SampleTotal(blocks[..|blocks| - 1]) + |blocks[|blocks| - 1].samples|
  }

  lemma {:induction false} BlocksSize(blocks: seq<SegmentBlock>)
    requires PairwiseOrdered(blocks)
    ensures |BlocksMap(blocks)| == SampleTotal(blocks)
  {
    hide Before, SamplesMap, ValidBlock;
    if blocks != [] {
      var n := |blocks| - 1;
      var init, last := blocks[..n], blocks[n];
      assert PairwiseOrdered(init) by {
        assert forall i, j :: 0 <= i < j < n ==> init[i] == blocks[i] && init[j] == blocks[j];
      }
      BlocksSize(init);
      BlockIncreasing(last);
      SamplesSize(last.series, last.samples);
      LastIsDisjoint(blocks);
      DisjointSize(BlocksMap(init), SamplesMap(last.series, last.samples));
    }
  }

  lemma BlockIncreasing(b: SegmentBlock)
    ensures Increasing(b.samples)
  {}

  lemma LastIsDisjoint(blocks: seq<SegmentBlock>)
    requires PairwiseOrdered(blocks) && blocks != []
    ensures var n := |blocks| - 1;
            BlocksMap(blocks[..n]).Keys !! SamplesMap(blocks[n].series, blocks[n].samples).Keys
  {
    hide Before, SamplesMap, BlocksMap, ValidBlock, Increasing;
    var n := |blocks| - 1;
    var init, last := blocks[..n], blocks[n];
    var lower, upper := BlocksMap(init), SamplesMap(last.series, last.samples);
    assert PairwiseOrdered(init) by {
      assert forall i, j :: 0 <= i < j < n ==> init[i] == blocks[i] && init[j] == blocks[j];
    }
    BlockIncreasing(last);
    forall p | p in lower
      ensures p !in upper
    {
      var x := PointHolds(init, p.0, p.1);
      var k :| 0 <= k < n && init[k].series == p.0 && x in init[k].samples;
      assert init[k] == blocks[k];
      NotInLast(blocks[k], last, x);
      assert p == (p.0, p.1);
    }
  }

  lemma NotInLast(a: SegmentBlock, b: SegmentBlock, x: Sample)
    requires Before(a, b) && x in a.samples
    ensures (a.series, x.timestamp) !in SamplesMap(b.series, b.samples)
  {
    hide Before, SamplesMap;
    SamplesMapHolds(b.series, b.samples, (a.series, x.timestamp));
    forall y | y in b.samples
      ensures !(a.series == b.series && x.timestamp == y.timestamp)
    {
      Disjoint(a, b, x, y);
    }
  }

  lemma {:induction false} TotalsAgree(index: seq<IndexEntry>, blocks: seq<SegmentBlock>)
    requires |blocks| == |index| && forall k :: 0 <= k < |index| ==> Matches(blocks[k], index[k])
    ensures TotalSamples(index) == SampleTotal(blocks)
  {
    if index != [] {
      var n := |index| - 1;
      TotalsAgree(index[..n], blocks[..n]);
      assert Matches(blocks[n], index[n]);
    }
  }

  /** A reader's physical sample count is the number of points it holds. */
  lemma ReaderSize(segment: SegmentReader)
    requires segment.Valid() && segment.Readable()
    ensures segment.sampleCount == |segment.Points()|
  {
    hide Open, ReadBlocks, ReadBlock, PairwiseOrdered, IndexSorted, Matches, BlocksMap;
    segment.Facts();
    TotalsAgree(segment.index, segment.Blocks());
    BlocksSize(segment.Blocks());
  }

  function PhysicalSamples(segments: seq<SegmentReader>): nat {
    if segments == [] then 0
    else PhysicalSamples(segments[..|segments| - 1]) + segments[|segments| - 1].sampleCount
  }

  lemma NoSegments()
    ensures AllReadable([]) && SegmentContents([]) == map[]
  {}

  /** Distinct points never outnumber physical samples, so the recovery sanity check passes on honest manifests. */
  lemma {:induction false} DistinctAtMostPhysical(segments: seq<SegmentReader>)
    requires AllReadable(segments)
    ensures |SegmentContents(segments)| <= PhysicalSamples(segments)
  {
    hide SegmentReader.Valid, SegmentReader.Readable, SegmentReader.Points, Layers, Merge;
    if segments == [] {
      NoSegments();
    } else {
      var n := |segments| - 1;
      DistinctAtMostPhysical(segments[..n]);
      ReaderSize(segments[n]);
      SegmentContentsSnoc(segments[..n], segments[n]);
      assert segments == segments[..n] + [segments[n]];
      MergedSize(SegmentContents(segments[..n]), segments[n].Points());
    }
  }
}
