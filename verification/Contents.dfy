/**
  What a set of samples means: a map from series and timestamp to value, where a later write replaces an earlier one.
  The `...Answer` definitions fix what each query must return for such a map; every layer's queries are proved
  against them.
 */
module Contents {
  import opened Prelude
  import opened Orders
  import opened Model
  import opened SegmentBlocks

  type Point = (SeriesKey, i64)
  type Contents = map<Point, Value>

  // ----- folding samples and blocks, later ones winning -----

  function SamplesMap(series: SeriesKey, samples: seq<Sample>): Contents {
    if samples == [] then map[]
    else
      var n := |samples| - 1;
      SamplesMap(series, samples[..n])[(series, samples[n].timestamp) := samples[n].value]
  }

  function BlocksMap(blocks: seq<SegmentBlock>): Contents {
    if blocks == [] then map[]
    else
      var n := |blocks| - 1;
      BlocksMap(blocks[..n]) + SamplesMap(blocks[n].series, blocks[n].samples)
  }

  lemma {:induction false} SamplesMapHolds(series: SeriesKey, samples: seq<Sample>, p: Point)
    requires Increasing(samples)
    ensures p in SamplesMap(series, samples) <==>
            p.0 == series && exists i :: 0 <= i < |samples| && samples[i].timestamp == p.1
    ensures forall i :: 0 <= i < |samples| && series == p.0 && samples[i].timestamp == p.1 ==>
              p in SamplesMap(series, samples) && SamplesMap(series, samples)[p] == samples[i].value
  {
    if samples != [] {
      var n := |samples| - 1;
      var init := samples[..n];
      SamplesMapHolds(series, init, p);
      if p in SamplesMap(series, init) {
        var i :| 0 <= i < n && init[i].timestamp == p.1;
        assert samples[i].timestamp == p.1;
      }
      if i :| 0 <= i < n && samples[i].timestamp == p.1 {
        assert init[i].timestamp == p.1;
      }
    }
  }

  // ----- query answers -----

  datatype QueryError = InvalidRange | BlockUnreadable

  function GetAnswer(m: Contents, series: SeriesKey, timestamp: i64): Option<Sample> {
    if (series, timestamp) in m then Some(Sample(timestamp, m[(series, timestamp)])) else None
  }

  /** The sample `x` of `series` is in the map. */
  predicate Has(m: Contents, series: SeriesKey, x: Sample) {
    (series, x.timestamp) in m && m[(series, x.timestamp)] == x.value
  }

  ghost predicate LatestAnswer(m: Contents, series: SeriesKey, r: Option<Sample>) {
    && (forall t: i64 :: (series, t) in m ==> r.Some? && t <= r.value.timestamp)
    && (r.Some? ==> Has(m, series, r.value))
  }

  ghost predicate RangeAnswer(m: Contents, series: SeriesKey, start: i64, end: i64, r: seq<Sample>) {
    && Increasing(r)
    && forall x :: x in r <==> Has(m, series, x) && start <= x.timestamp < end
  }

  ghost predicate InSeries(m: Contents, series: SeriesKey) {
    exists t: i64 :: (series, t) in m
  }

  ghost predicate SeriesAnswer(m: Contents, r: seq<SeriesKey>) {
    && Sorted(KeyLess, r)
    && forall s :: s in r <==> InSeries(m, s)
  }

  /** By measurement first, bytewise; then by tags. */
  ghost predicate InKeyOrder(r: seq<SeriesKey>) {
    forall i, j :: 0 <= i < j < |r| ==>
      KeyBefore(r[i], r[j]) && (r[i].measurement == r[j].measurement || ComesBefore(r[i].measurement, r[j].measurement))
  }

  lemma SortedInKeyOrder(r: seq<SeriesKey>)
    requires Sorted(KeyLess, r)
    ensures InKeyOrder(r)
  {
    hide KeyLess, ComesBefore;
    forall i, j | 0 <= i < j < |r|
      ensures KeyBefore(r[i], r[j])
    {
      KeyLessIff(r[i], r[j]);
    }
  }

  // ----- each answer is determined by the map -----

  lemma LatestUnique(m: Contents, series: SeriesKey, a: Option<Sample>, b: Option<Sample>)
    requires LatestAnswer(m, series, a) && LatestAnswer(m, series, b)
    ensures a == b
  {
    if a.Some? {
      assert (series, a.value.timestamp) in m;
    }
    if b.Some? {
      assert (series, b.value.timestamp) in m;
    }
  }

  predicate SampleBefore(a: Sample, b: Sample) {
    a.timestamp < b.timestamp || (a.timestamp == b.timestamp && a.value < b.value)
  }

  lemma IncreasingUnique(a: seq<Sample>, b: seq<Sample>)
    requires Increasing(a) && Increasing(b)
    requires forall x :: x in a <==> x in b
    ensures a == b
  {
    SortedUnique(SampleBefore, a, b);
  }

  lemma RangeUnique(m: Contents, series: SeriesKey, start: i64, end: i64, a: seq<Sample>, b: seq<Sample>)
    requires RangeAnswer(m, series, start, end, a) && RangeAnswer(m, series, start, end, b)
    ensures a == b
  {
    assert forall x :: x in a <==> x in b;
    IncreasingUnique(a, b);
  }

  lemma SeriesUnique(m: Contents, a: seq<SeriesKey>, b: seq<SeriesKey>)
    requires SeriesAnswer(m, a) && SeriesAnswer(m, b)
    ensures a == b
  {
    KeyOrder();
    assert forall x :: x in a <==> x in b;
    SortedUnique(KeyLess, a, b);
  }
}
