/** Cutting snapshots into segment blocks of at most 256 samples, which loses, adds and reorders nothing. */
module Chunking {
  import opened Prelude
  import opened Model
  import opened KeyCodec
  import opened B = SegmentBlocks
  import opened F = SegmentFormat
  import opened Contents
  import opened SegmentOrder
  import opened MemTables

  function ChunkSize(remaining: nat): nat {
    if remaining < MAX_SAMPLES_PER_SEGMENT_BLOCK then remaining else MAX_SAMPLES_PER_SEGMENT_BLOCK
  }

  function ChunkSeries(series: SeriesKey, samples: seq<Sample>): seq<SegmentBlock>
    requires Increasing(samples)
    decreases |samples|
  {
    if samples == [] then []
    else
      var n := ChunkSize(|samples|);
      [SegmentBlock(series, samples[..n])] + ChunkSeries(series, samples[n..])
  }

  ghost predicate AllIncreasing(snapshots: seq<SeriesSnapshot>) {
    forall i :: 0 <= i < |snapshots| ==> Increasing(snapshots[i].samples)
  }

  function ChunkAll(snapshots: seq<SeriesSnapshot>): seq<SegmentBlock>
    requires AllIncreasing(snapshots)
  {
    if snapshots == [] then []
    else ChunkSeries(snapshots[0].series, snapshots[0].samples) + ChunkAll(snapshots[1..])
  }

  method BlocksFromSnapshots(snapshots: seq<SeriesSnapshot>) returns (blocks: seq<SegmentBlock>)
    requires AllIncreasing(snapshots)
    ensures blocks == ChunkAll(snapshots)
  {
    hide ChunkSeries, Increasing;
    blocks := [];
    for i := 0 to |snapshots|
      invariant blocks + ChunkAll(snapshots[i..]) == ChunkAll(snapshots)
    {
      assert snapshots[i..] == [snapshots[i]] + snapshots[i + 1..];
      ghost var before := blocks;
      blocks := AppendChunks(blocks, snapshots[i]);
      ghost var chunks := ChunkSeries(snapshots[i].series, snapshots[i].samples);
      assert before + (chunks + ChunkAll(snapshots[i + 1..])) == before + chunks + ChunkAll(snapshots[i + 1..]);
    }
    assert snapshots[|snapshots|..] == [] && blocks + [] == blocks;
  }

  lemma NextChunk(series: SeriesKey, samples: seq<Sample>, begin: nat)
    requires Increasing(samples) && begin < |samples|
    ensures var end := begin + ChunkSize(|samples| - begin);
            && begin < end <= |samples| && ValidBlock(SegmentBlock(series, samples[begin..end]))
            && ChunkSeries(series, samples[begin..])
            == [SegmentBlock(series, samples[begin..end])] + ChunkSeries(series, samples[end..])
  {
    var rest, count := samples[begin..], ChunkSize(|samples| - begin);
    assert rest[..count] == samples[begin..begin + count] && rest[count..] == samples[begin + count..];
  }

  /** Where chunk number `i` of `n` samples ends. */
  function ChunkEnd(n: nat, i: nat): nat {
    if 256 * (i + 1) < n then 256 * (i + 1) else n
  }

  /** Every 256 samples one block, the last one with what is left. */
  ghost predicate CutBy256(series: SeriesKey, samples: seq<Sample>, blocks: seq<SegmentBlock>) {
    && |blocks| == (|samples| + 255) / 256
    && forall i :: 0 <= i < |blocks| ==>
         && blocks[i].series == series && 256 * i < ChunkEnd(|samples|, i)
         && blocks[i].samples == samples[256 * i..ChunkEnd(|samples|, i)]
  }

  lemma {:induction false} ChunksCutBy256(series: SeriesKey, samples: seq<Sample>)
    requires Increasing(samples)
    ensures CutBy256(series, samples, ChunkSeries(series, samples))
    decreases |samples|
  {
    hide Increasing, ValidBlock;
    if samples != [] {
      var n := ChunkSize(|samples|);
      var rest := samples[n..];
      SliceIncreases(samples, n);
      ChunksCutBy256(series, rest);
      var blocks := ChunkSeries(series, samples);
      CutOnce(series, samples, n, blocks[0], ChunkSeries(series, rest));
      assert blocks == [blocks[0]] + ChunkSeries(series, rest);
    }
  }

  /** One block in front of those of what follows. */
  lemma CutOnce(series: SeriesKey, samples: seq<Sample>, n: nat, first: SegmentBlock, later: seq<SegmentBlock>)
    requires samples != [] && n == ChunkEnd(|samples|, 0) && CutBy256(series, samples[n..], later)
    requires first.series == series && first.samples == samples[..n]
    ensures CutBy256(series, samples, [first] + later)
  {
    hide Increasing, ValidBlock;
    var blocks, rest := [first] + later, samples[n..];
    forall i | 0 <= i < |blocks|
      ensures blocks[i].series == series && 256 * i < ChunkEnd(|samples|, i)
      ensures blocks[i].samples == samples[256 * i..ChunkEnd(|samples|, i)]
    {
      if i > 0 {
        assert n == 256 && ChunkEnd(|samples|, i) == 256 + ChunkEnd(|rest|, i - 1);
        assert blocks[i].samples == rest[256 * (i - 1)..ChunkEnd(|rest|, i - 1)];
      }
    }
  }

  lemma SliceIncreases(samples: seq<Sample>, n: nat)
    requires Increasing(samples) && n <= |samples|
    ensures Increasing(samples[n..])
  {}

  /** The inner loop of `blocks_from_snapshots`. */
  method AppendChunks(blocks: seq<SegmentBlock>, snapshot: SeriesSnapshot) returns (r: seq<SegmentBlock>)
    requires Increasing(snapshot.samples)
    ensures r == blocks + ChunkSeries(snapshot.series, snapshot.samples)
    ensures CutBy256(snapshot.series, snapshot.samples, r[|blocks|..])
  {
    hide CutBy256, ChunkSeries, ChunkSize;
    ChunksCutBy256(snapshot.series, snapshot.samples);
    r := blocks;
    var samples := snapshot.samples;
    var begin := 0;
    assert samples[0..] == samples;
    while begin < |samples|
      invariant begin <= |samples|
      invariant r + ChunkSeries(snapshot.series, samples[begin..]) == blocks + ChunkSeries(snapshot.series, samples)
    {
      NextChunk(snapshot.series, samples, begin);
      var count := ChunkSize(|samples| - begin);
      var block: SegmentBlock := SegmentBlock(snapshot.series, samples[begin..begin + count]);
      Regroup(r, block, ChunkSeries(snapshot.series, samples[begin + count..]));
      r := r + [block];
      begin := begin + count;
    }
    NoMoreChunks(snapshot.series, samples[begin..]);
    Behind(r, blocks, ChunkSeries(snapshot.series, samples));
  }

  lemma NoMoreChunks(series: SeriesKey, samples: seq<Sample>)
    requires samples == []
    ensures Increasing(samples) && ChunkSeries(series, samples) == []
  {}

  lemma Behind<T>(all: seq<T>, front: seq<T>, back: seq<T>)
    requires all + [] == front + back
    ensures all == front + back && all[|front|..] == back
  {
    assert all + [] == all;
  }

  // ----- per series -----

  function JoinSamples(blocks: seq<SegmentBlock>): seq<Sample> {
    if blocks == [] then [] else blocks[0].samples + JoinSamples(blocks[1..])
  }

  /** The chunks of a series concatenate back to its samples. */
  lemma {:induction false} ChunksJoin(series: SeriesKey, samples: seq<Sample>)
    requires Increasing(samples)
    ensures JoinSamples(ChunkSeries(series, samples)) == samples
    ensures forall i :: 0 <= i < |ChunkSeries(series, samples)| ==> ChunkSeries(series, samples)[i].series == series
    decreases |samples|
  {
    hide ValidBlock;
    if samples != [] {
      var n := ChunkSize(|samples|);
      ChunksJoin(series, samples[n..]);
      assert samples == samples[..n] + samples[n..];
      assert ChunkSeries(series, samples)[1..] == ChunkSeries(series, samples[n..]);
    }
  }

  lemma {:induction false} JoinHolds(blocks: seq<SegmentBlock>, series: SeriesKey, x: Sample)
    requires forall i :: 0 <= i < |blocks| ==> blocks[i].series == series
    ensures Holds(blocks, series, x) <==> x in JoinSamples(blocks)
  {
    if blocks != [] {
      var rest := blocks[1..];
      JoinHolds(rest, series, x);
      if Holds(blocks, series, x) {
        var k :| 0 <= k < |blocks| && blocks[k].series == series && x in blocks[k].samples;
        if k > 0 {
          assert rest[k - 1] == blocks[k];
        }
      }
      if x in JoinSamples(rest) {
        var k :| 0 <= k < |rest| && rest[k].series == series && x in rest[k].samples;
        assert blocks[k + 1] == rest[k];
      }
      if x in blocks[0].samples {
        assert blocks[0].series == series;
      }
    }
  }

  lemma {:induction false} ChunksOrdered(series: SeriesKey, samples: seq<Sample>)
    requires Increasing(samples)
    ensures PairwiseOrdered(ChunkSeries(series, samples))
    decreases |samples|
  {
    hide KeyLess;
    if samples != [] {
      var n := ChunkSize(|samples|);
      var rest := ChunkSeries(series, samples[n..]);
      var chunks := ChunkSeries(series, samples);
      ChunksOrdered(series, samples[n..]);
      ChunksJoin(series, samples[n..]);
      forall j | 0 <= j < |rest|
        ensures Before(chunks[0], rest[j])
      {
        var x := rest[j].samples[0];
        assert rest[j].series == series;
        assert Holds(rest, series, x);
        JoinHolds(rest, series, x);
        var i :| 0 <= i < |samples[n..]| && samples[n..][i] == x;
        assert samples[n - 1].timestamp < samples[n + i].timestamp;
      }
      PairwiseCons(chunks[0], rest);
    }
  }

  lemma PairwiseCons(block: SegmentBlock, rest: seq<SegmentBlock>)
    requires PairwiseOrdered(rest)
    requires forall j :: 0 <= j < |rest| ==> Before(block, rest[j])
    ensures PairwiseOrdered([block] + rest)
  {
    hide Before;
  }

  // ----- all series -----

  ghost predicate Names(snapshots: seq<SeriesSnapshot>, series: SeriesKey) {
    exists i :: 0 <= i < |snapshots| && snapshots[i].series == series
  }

  lemma {:induction false} AllSeries(snapshots: seq<SeriesSnapshot>)
    requires AllIncreasing(snapshots)
    ensures forall k :: 0 <= k < |ChunkAll(snapshots)| ==> Names(snapshots, ChunkAll(snapshots)[k].series)
  {
    hide Increasing, ValidBlock, ChunkSeries;
    if snapshots != [] {
      var first, rest := ChunkSeries(snapshots[0].series, snapshots[0].samples), ChunkAll(snapshots[1..]);
      ChunksJoin(snapshots[0].series, snapshots[0].samples);
      AllSeries(snapshots[1..]);
      var all: seq<SegmentBlock> := ChunkAll(snapshots);
      forall k | 0 <= k < |all|
        ensures Names(snapshots, all[k].series)
      {
        if k < |first| {
          assert snapshots[0].series == all[k].series;
        } else {
          var i :| 0 <= i < |snapshots[1..]| && snapshots[1..][i].series == rest[k - |first|].series;
          assert snapshots[i + 1].series == all[k].series;
        }
      }
    }
  }

  lemma {:induction false} AllOrdered(snapshots: seq<SeriesSnapshot>)
    requires SnapshotsSorted(snapshots)
    ensures PairwiseOrdered(ChunkAll(snapshots))
  {
    hide Increasing, KeyLess, ChunkSeries, ValidBlock;
    if snapshots != [] {
      var tail := snapshots[1..];
      var first, rest := ChunkSeries(snapshots[0].series, snapshots[0].samples), ChunkAll(tail);
      ChunksOrdered(snapshots[0].series, snapshots[0].samples);
      ChunksJoin(snapshots[0].series, snapshots[0].samples);
      AllOrdered(tail);
      AllSeries(tail);
      forall i, j | 0 <= i < |first| && 0 <= j < |rest|
        ensures Before(first[i], rest[j])
      {
        var k :| 0 <= k < |tail| && tail[k].series == rest[j].series;
        assert KeyLess(snapshots[0].series, snapshots[k + 1].series);
      }
      PairwiseConcat(first, rest);
    }
  }

  lemma PairwiseConcat(a: seq<SegmentBlock>, b: seq<SegmentBlock>)
    requires PairwiseOrdered(a) && PairwiseOrdered(b)
    requires forall i, j :: 0 <= i < |a| && 0 <= j < |b| ==> Before(a[i], b[j])
    ensures PairwiseOrdered(a + b)
  {
    hide Before;
    var all := a + b;
    forall i, j | 0 <= i < j < |all|
      ensures Before(all[i], all[j])
    {
      if j < |a| {
        assert Before(a[i], a[j]);
      } else if i < |a| {
        assert Before(a[i], b[j - |a|]);
      } else {
        assert Before(b[i - |a|], b[j - |a|]);
      }
    }
  }

  lemma HoldsConcat(a: seq<SegmentBlock>, b: seq<SegmentBlock>, series: SeriesKey, x: Sample)
    ensures Holds(a + b, series, x) <==> Holds(a, series, x) || Holds(b, series, x)
  {
    var all := a + b;
    if Holds(all, series, x) {
      var k :| 0 <= k < |all| && all[k].series == series && x in all[k].samples;
      if k < |a| {
        assert a[k] == all[k];
      } else {
        assert b[k - |a|] == all[k];
      }
    }
    if Holds(a, series, x) {
      var k :| 0 <= k < |a| && a[k].series == series && x in a[k].samples;
      assert all[k] == a[k];
    }
    if Holds(b, series, x) {
      var k :| 0 <= k < |b| && b[k].series == series && x in b[k].samples;
      assert all[|a| + k] == b[k];
    }
  }

  lemma {:induction false} AllHolds(snapshots: seq<SeriesSnapshot>, series: SeriesKey, x: Sample)
    requires AllIncreasing(snapshots)
    ensures Holds(ChunkAll(snapshots), series, x) <==> SnapshotHolds(snapshots, series, x)
  {
    hide Increasing, ChunkSeries, ValidBlock, Holds;
    if snapshots == [] {
      NothingHeld(series, x);
    } else {
      var first, rest := snapshots[0], snapshots[1..];
      var chunks := ChunkSeries(first.series, first.samples);
      AllHolds(rest, series, x);
      HoldsConcat(chunks, ChunkAll(rest), series, x);
      ChunksJoin(first.series, first.samples);
      if first.series == series {
        JoinHolds(chunks, series, x);
      } else {
        OtherSeries(chunks, first.series, series, x);
      }
      if SnapshotHolds(snapshots, series, x) {
        var i :| 0 <= i < |snapshots| && snapshots[i].series == series && x in snapshots[i].samples;
        if i > 0 {
          assert rest[i - 1] == snapshots[i];
        }
      }
      if SnapshotHolds(rest, series, x) {
        var i :| 0 <= i < |rest| && rest[i].series == series && x in rest[i].samples;
        assert snapshots[i + 1] == rest[i];
      }
    }
  }

  lemma NothingHeld(series: SeriesKey, x: Sample)
    ensures !Holds([], series, x)
  {}

  lemma OtherSeries(blocks: seq<SegmentBlock>, own: SeriesKey, series: SeriesKey, x: Sample)
    requires own != series && forall i :: 0 <= i < |blocks| ==> blocks[i].series == own
    ensures !Holds(blocks, series, x)
  {}

  lemma SameHas(a: Contents, b: Contents)
    requires forall s, x :: Has(a, s, x) <==> Has(b, s, x)
    ensures a == b
  {
    forall p: Point
      ensures p in a <==> p in b
      ensures p in a ==> a[p] == b[p]
    {
      if p in a {
        assert Has(a, p.0, Sample(p.1, a[p]));
      }
      if p in b {
        assert Has(b, p.0, Sample(p.1, b[p]));
      }
    }
  }

  lemma PairwiseIsOrdered(blocks: seq<SegmentBlock>)
    requires PairwiseOrdered(blocks)
    ensures BlocksOrdered(blocks)
  {
    hide Before, BlockFollows;
    forall i | 0 < i < |blocks|
      ensures BlockFollows(blocks[i - 1], blocks[i])
    {
      FollowsIsBefore(blocks[i - 1], blocks[i]);
    }
  }

  /** The blocks cut from a snapshot of `m` are in segment order and hold exactly `m`. */
  lemma ChunksHoldSnapshot(m: Contents, snapshots: seq<SeriesSnapshot>)
    requires SnapshotAnswer(m, snapshots)
    ensures BlocksOrdered(ChunkAll(snapshots))
    ensures BlocksMap(ChunkAll(snapshots)) == m
    ensures ChunkAll(snapshots) == [] ==> m == map[]
  {
    hide PairwiseOrdered, BlockFollows, Holds, SnapshotHolds, Has, Increasing, KeyLess, ChunkAll;
    AllOrdered(snapshots);
    var blocks := ChunkAll(snapshots);
    PairwiseIsOrdered(blocks);
    forall s, x
      ensures Has(BlocksMap(blocks), s, x) <==> Has(m, s, x)
    {
      BlocksMapHas(blocks, s, x);
      AllHolds(snapshots, s, x);
    }
    SameHas(BlocksMap(blocks), m);
  }

  // ----- size limits -----

  /** A block can be encoded exactly when its key and its samples fit the payload. */
  lemma EncodableIff(b: SegmentBlock)
    ensures B.Encode(b).Success?
       <==> |EncKey(b.series)| + ENCODED_SAMPLE_SIZE * |b.samples| <= MAX_SEGMENT_BLOCK_PAYLOAD_SIZE
  {
    hide Frame, EncKey, EncSamples;
  }

  /** If every key leaves room for a full block, every chunk can be encoded. */
  lemma ChunksEncodable(snapshots: seq<SeriesSnapshot>)
    requires AllIncreasing(snapshots)
    requires forall i :: 0 <= i < |snapshots| ==>
               |EncKey(snapshots[i].series)| + ENCODED_SAMPLE_SIZE * MAX_SAMPLES_PER_SEGMENT_BLOCK
               <= MAX_SEGMENT_BLOCK_PAYLOAD_SIZE
    ensures Encodable(ChunkAll(snapshots))
  {
    hide Increasing, EncKey, B.Encode;
    var blocks := ChunkAll(snapshots);
    AllSeries(snapshots);
    forall k | 0 <= k < |blocks|
      ensures B.Encode(blocks[k]).Success?
    {
      EncodableIff(blocks[k]);
      BlockTimes(blocks[k]);
      var i :| 0 <= i < |snapshots| && snapshots[i].series == blocks[k].series;
    }
  }
}
