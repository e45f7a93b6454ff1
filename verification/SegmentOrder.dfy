/** What the order of blocks in a segment means for the samples it holds. */
module SegmentOrder {
  import opened Prelude
  import opened Model
  import opened SegmentBlocks
  import opened F = SegmentFormat
  import opened Contents

  /** Every point of `a` comes before every point of `b`. */
  predicate Before(a: SegmentBlock, b: SegmentBlock) {
    KeyLess(a.series, b.series) || (a.series == b.series && LastTimestamp(a) < FirstTimestamp(b))
  }

  ghost predicate PairwiseOrdered(blocks: seq<SegmentBlock>) {
    forall i, j :: 0 <= i < j < |blocks| ==> Before(blocks[i], blocks[j])
  }

  lemma FollowsIsBefore(a: SegmentBlock, b: SegmentBlock)
    ensures BlockFollows(a, b) <==> Before(a, b)
  {
    KeyOrder();
    hide KeyLess;
    assert a.series == b.series || KeyLess(a.series, b.series) || KeyLess(b.series, a.series);
    assert !KeyLess(a.series, a.series);
    assert KeyLess(a.series, b.series) && KeyLess(b.series, a.series) ==> KeyLess(a.series, a.series);
  }

  lemma BeforeTransitive(a: SegmentBlock, b: SegmentBlock, c: SegmentBlock)
    requires Before(a, b) && Before(b, c)
    ensures Before(a, c)
  {
    KeyOrder();
    hide KeyLess;
    BlockTimes(b);
    assert KeyLess(a.series, b.series) && KeyLess(b.series, c.series) ==> KeyLess(a.series, c.series);
  }

  /** The adjacent check implies the order of all pairs. */
  lemma {:induction false} OrderedPairwise(blocks: seq<SegmentBlock>)
    requires BlocksOrdered(blocks)
    ensures PairwiseOrdered(blocks)
  {
    hide Before, BlockFollows;
    if blocks != [] {
      var n := |blocks| - 1;
      var init := blocks[..n];
      assert BlocksOrdered(init) by {
        forall i | 0 < i < n
          ensures BlockFollows(init[i - 1], init[i])
        {
          assert BlockFollows(blocks[i - 1], blocks[i]);
        }
      }
      OrderedPairwise(init);
      forall i | 0 <= i < n
        ensures Before(blocks[i], blocks[n])
      {
        assert BlockFollows(blocks[n - 1], blocks[n]);
        FollowsIsBefore(blocks[n - 1], blocks[n]);
        if i < n - 1 {
          assert Before(init[i], init[n - 1]);
          BeforeTransitive(blocks[i], blocks[n - 1], blocks[n]);
        }
      }
      forall i, j | 0 <= i < j < |blocks|
        ensures Before(blocks[i], blocks[j])
      {
        if j < n {
          assert Before(init[i], init[j]);
        }
      }
    }
  }

  lemma Disjoint(a: SegmentBlock, b: SegmentBlock, x: Sample, y: Sample)
    requires Before(a, b) && x in a.samples && y in b.samples
    ensures !(a.series == b.series && x.timestamp == y.timestamp)
  {
    KeyOrder();
    hide KeyLess;
    InSpan(a, x);
    InSpan(b, y);
  }

  lemma InSpan(b: SegmentBlock, x: Sample)
    requires x in b.samples
    ensures FirstTimestamp(b) <= x.timestamp <= LastTimestamp(b)
  {
    var i :| 0 <= i < |b.samples| && b.samples[i] == x;
    assert i > 0 ==> b.samples[0].timestamp < b.samples[i].timestamp;
    assert i < |b.samples| - 1 ==> b.samples[i].timestamp < b.samples[|b.samples| - 1].timestamp;
  }

  ghost predicate Holds(blocks: seq<SegmentBlock>, series: SeriesKey, x: Sample) {
    exists k :: 0 <= k < |blocks| && blocks[k].series == series && x in blocks[k].samples
  }

  lemma SamplesMapHas(series: SeriesKey, samples: seq<Sample>, s: SeriesKey, x: Sample)
    requires Increasing(samples)
    ensures Has(SamplesMap(series, samples), s, x) <==> s == series && x in samples
  {
    SamplesMapHolds(series, samples, (s, x.timestamp));
  }

  /** The points of an ordered segment are exactly the samples of its blocks. */
  lemma {:induction false} BlocksMapHas(blocks: seq<SegmentBlock>, series: SeriesKey, x: Sample)
    requires PairwiseOrdered(blocks)
    ensures Has(BlocksMap(blocks), series, x) <==> Holds(blocks, series, x)
  {
    hide Before, SamplesMap, Increasing, FirstTimestamp, LastTimestamp;
    if blocks != [] {
      var n := |blocks| - 1;
      var init, last := blocks[..n], blocks[n];
      var p := (series, x.timestamp);
      assert PairwiseOrdered(init) by {
        assert forall i, j :: 0 <= i < j < n ==> init[i] == blocks[i] && init[j] == blocks[j];
      }
      BlocksMapHas(init, series, x);
      SamplesMapHas(last.series, last.samples, series, x);
      if Has(BlocksMap(blocks), series, x) {
        if p in SamplesMap(last.series, last.samples) {
          assert blocks[n].series == series && x in blocks[n].samples;
        } else {
          var k :| 0 <= k < n && init[k].series == series && x in init[k].samples;
          assert blocks[k] == init[k];
        }
      }
      if Holds(blocks, series, x) {
        var k :| 0 <= k < |blocks| && blocks[k].series == series && x in blocks[k].samples;
        if k < n {
          assert init[k] == blocks[k];
          if p in SamplesMap(last.series, last.samples) {
            var y := Sample(x.timestamp, SamplesMap(last.series, last.samples)[p]);
            SamplesMapHas(last.series, last.samples, series, y);
            Disjoint(blocks[k], last, x, y);
          }
        }
      }
    }
  }

  lemma PointHolds(blocks: seq<SegmentBlock>, series: SeriesKey, t: i64) returns (x: Sample)
    requires PairwiseOrdered(blocks)
    requires (series, t) in BlocksMap(blocks)
    ensures x.timestamp == t && Holds(blocks, series, x) && Has(BlocksMap(blocks), series, x)
  {
    hide PairwiseOrdered;
    x := Sample(t, BlocksMap(blocks)[(series, t)]);
    BlocksMapHas(blocks, series, x);
  }
}
