/** The mutable, ordered, in-memory table of recent samples. */
module MemTables {
  import opened Prelude
  import opened Orders
  import opened Model
  import opened SegmentBlocks
  import opened Contents

  type SamplesByTimestamp = map<i64, Value>

  /** The nested maps as one map from points. */
  ghost function Flatten(m: map<SeriesKey, SamplesByTimestamp>): Contents {
    map s, t | s in m && t in m[s] :: (s, t) := m[s][t]
  }

  lemma FlattenHas(m: map<SeriesKey, SamplesByTimestamp>, s: SeriesKey, x: Sample)
    ensures (s, x.timestamp) in Flatten(m) <==> s in m && x.timestamp in m[s]
    ensures Has(Flatten(m), s, x) <==> s in m && x.timestamp in m[s] && m[s][x.timestamp] == x.value
  {}

  lemma FlattenAt(m: map<SeriesKey, SamplesByTimestamp>, p: Point)
    ensures p in Flatten(m) <==> p.0 in m && p.1 in m[p.0]
    ensures p in Flatten(m) ==> Flatten(m)[p] == m[p.0][p.1]
  {
    assert p == (p.0, p.1);
  }

  lemma FlattenPut(m: map<SeriesKey, SamplesByTimestamp>, key: SeriesKey, inner: SamplesByTimestamp, x: Sample)
    requires inner == if key in m then m[key] else map[]
    ensures Flatten(m[key := inner[x.timestamp := x.value]]) == Flatten(m)[(key, x.timestamp) := x.value]
    ensures (key, x.timestamp) in Flatten(m) <==> x.timestamp in inner
  {
    hide Flatten;
    var m' := m[key := inner[x.timestamp := x.value]];
    var a, b := Flatten(m'), Flatten(m)[(key, x.timestamp) := x.value];
    FlattenAt(m, (key, x.timestamp));
    forall p: Point
      ensures p in a <==> p in b
      ensures p in a ==> a[p] == b[p]
    {
      FlattenAt(m', p);
      FlattenAt(m, p);
    }
  }

  datatype SeriesSnapshot = SeriesSnapshot(series: SeriesKey, samples: seq<Sample>)

  ghost predicate SnapshotHolds(snapshots: seq<SeriesSnapshot>, series: SeriesKey, x: Sample) {
    exists i :: 0 <= i < |snapshots| && snapshots[i].series == series && x in snapshots[i].samples
  }

  ghost predicate SnapshotsSorted(snapshots: seq<SeriesSnapshot>) {
    && (forall i :: 0 <= i < |snapshots| ==> snapshots[i].samples != [] && Increasing(snapshots[i].samples))
    && (forall i, j :: 0 <= i < j < |snapshots| ==> KeyLess(snapshots[i].series, snapshots[j].series))
  }

  /** Everything in the map, series by series and time by time, and nothing else. */
  ghost predicate SnapshotAnswer(m: Contents, snapshots: seq<SeriesSnapshot>) {
    && SnapshotsSorted(snapshots)
    && forall s, x :: SnapshotHolds(snapshots, s, x) <==> Has(m, s, x)
  }

  predicate TimeLess(a: i64, b: i64) { a < b }

  lemma TimeOrder()
    ensures StrictTotal(TimeLess)
  {}

  /** The entries of an inner map, oldest first. */
  method SamplesOf(samples: SamplesByTimestamp) returns (r: seq<Sample>)
    ensures Increasing(r) && |r| == |samples|
    ensures forall x: Sample :: x in r <==> x.timestamp in samples && samples[x.timestamp] == x.value
  {
    TimeOrder();
    var times := InOrder(TimeLess, samples.Keys);
    r := [];
    for i := 0 to |times|
      invariant |r| == i
      invariant forall j :: 0 <= j < i ==> r[j] == Sample(times[j], samples[times[j]])
    {
      assert times[i] in times;
      r := r + [Sample(times[i], samples[times[i]])];
    }
    forall x: Sample
      ensures x in r <==> x.timestamp in samples && samples[x.timestamp] == x.value
    {
      if x.timestamp in samples && samples[x.timestamp] == x.value {
        assert x.timestamp in times;
        var j :| 0 <= j < |times| && times[j] == x.timestamp;
        assert r[j] == x;
      }
    }
  }

  lemma SliceBetween(samples: seq<Sample>, first: nat, at: nat, start: i64, end: i64)
    requires Increasing(samples) && first <= at <= |samples|
    requires forall i :: 0 <= i < first ==> samples[i].timestamp < start
    requires forall i :: first <= i < |samples| ==> start <= samples[i].timestamp
    requires at > first ==> samples[at - 1].timestamp < end
    requires at < |samples| ==> end <= samples[at].timestamp
    ensures var slice := samples[first..at];
            Increasing(slice) && forall x :: x in slice <==> x in samples && start <= x.timestamp < end
  {
    assert forall i :: 0 <= i < |samples| ==> (first <= i < at <==> start <= samples[i].timestamp < end);
    SliceMembers(samples, first, at, start, end);
  }

  /** `lower_bound` on the start, then a walk up to the end. */
  method Between(samples: seq<Sample>, start: i64, end: i64) returns (r: seq<Sample>)
    requires Increasing(samples)
    ensures Increasing(r)
    ensures forall x :: x in r <==> x in samples && start <= x.timestamp < end
  {
    hide Increasing;
    var first := LowerBoundSample(samples, 0, start);
    var at := first;
    r := [];
    while at < |samples|
      invariant first <= at <= |samples|
      invariant r == samples[first..at]
      invariant at > first ==> samples[at - 1].timestamp < end
    {
      if !(samples[at].timestamp < end) {
        break;
      }
      r := r + [samples[at]];
      at := at + 1;
    }
    SliceBetween(samples, first, at, start, end);
  }

  class MemTable {
    var series: map<SeriesKey, SamplesByTimestamp>
    var sampleCount: nat

    ghost predicate Valid()
      reads this
    {
      && (forall s :: s in series ==> series[s] != map[])
      && sampleCount == |Points()|
    }

    ghost function Points(): Contents
      reads this
    {
      Flatten(series)
    }

    constructor ()
      ensures Valid() && Points() == map[]
    {
      series := map[];
      sampleCount := 0;
    }

    method Put(key: SeriesKey, sample: Sample)
      requires Valid()
      modifies this
      ensures Valid()
      ensures Points() == old(Points())[(key, sample.timestamp) := sample.value]
    {
      hide Flatten;
      var samples := if key in series then series[key] else map[];
      FlattenPut(series, key, samples, sample);
      if sample.timestamp !in samples {
        sampleCount := sampleCount + 1;
      }
      series := series[key := samples[sample.timestamp := sample.value]];
    }

    method Clear()
      modifies this
      ensures Valid() && Points() == map[]
    {
      series := map[];
      sampleCount := 0;
    }

    method Get(key: SeriesKey, timestamp: i64) returns (r: Option<Sample>)
      ensures r == GetAnswer(Points(), key, timestamp)
    {
      if key !in series {
        return None;
      }
      if timestamp !in series[key] {
        return None;
      }
      r := Some(Sample(timestamp, series[key][timestamp]));
    }

    method Latest(key: SeriesKey) returns (r: Option<Sample>)
      requires Valid()
      ensures LatestAnswer(Points(), key, r)
    {
      if key !in series {
        return None;
      }
      var samples := SamplesOf(series[key]);
      if samples == [] {
        EmptyMap(series[key]);
        return None;
      }
      var last := samples[|samples| - 1];
      assert last in samples;
      forall t: i64 | (key, t) in Points()
        ensures t <= last.timestamp
      {
        assert Sample(t, series[key][t]) in samples;
      }
      r := Some(last);
    }

    lemma EmptyMap(m: SamplesByTimestamp)
      requires |m| == 0
      ensures m == map[]
    {}

    /** Half-open: `start` included, `end` excluded. */
    method Range(key: SeriesKey, start: i64, end: i64) returns (r: Result<seq<Sample>, QueryError>)
      ensures end < start ==> r == Failure(InvalidRange)
      ensures start <= end ==> r.Success? && RangeAnswer(Points(), key, start, end, r.value)
    {
      hide Flatten;
      if end < start {
        return Failure(InvalidRange);
      }
      forall x: Sample
        ensures Has(Points(), key, x)
           <==> key in series && x.timestamp in series[key] && series[key][x.timestamp] == x.value
      {
        FlattenHas(series, key, x);
      }
      if key !in series {
        return Success([]);
      }
      var samples := SamplesOf(series[key]);
      var between := Between(samples, start, end);
      r := Success(between);
    }

    method IsEmpty() returns (empty: bool)
      requires Valid()
      ensures empty <==> Points() == map[]
    {
      empty := sampleCount == 0;
    }

    method SeriesList() returns (r: seq<SeriesKey>)
      requires Valid()
      ensures SeriesAnswer(Points(), r) && InKeyOrder(r)
    {
      hide InKeyOrder, KeyLess;
      KeyOrder();
      r := InOrder(KeyLess, series.Keys);
      SortedInKeyOrder(r);
      forall s
        ensures s in r <==> InSeries(Points(), s)
      {
        if s in series {
          var t :| t in series[s];
          assert (s, t) in Points();
        }
      }
    }

    method Snapshot() returns (r: seq<SeriesSnapshot>)
      requires Valid()
      ensures SnapshotAnswer(Points(), r)
    {
      r := SnapshotsOf(series);
    }
  }

  /** All samples of one series, in order. */
  ghost predicate SnapshotOf(m: Contents, key: SeriesKey, snapshot: SeriesSnapshot) {
    && snapshot.series == key && snapshot.samples != [] && Increasing(snapshot.samples)
    && forall x :: x in snapshot.samples <==> Has(m, key, x)
  }

  method SnapshotSeries(series: map<SeriesKey, SamplesByTimestamp>, key: SeriesKey) returns (r: SeriesSnapshot)
    requires key in series && series[key] != map[]
    ensures SnapshotOf(Flatten(series), key, r)
  {
    hide Flatten, Increasing, Has;
    var samples := SamplesOf(series[key]);
    NonEmptySamples(series[key], samples);
    forall x
      ensures x in samples <==> Has(Flatten(series), key, x)
    {
      FlattenHas(series, key, x);
    }
    r := SeriesSnapshot(key, samples);
  }

  lemma SnapshotsAnswer(series: map<SeriesKey, SamplesByTimestamp>, keys: seq<SeriesKey>, r: seq<SeriesSnapshot>)
    requires Sorted(KeyLess, keys) && |r| == |keys| && forall s :: s in series ==> s in keys
    requires forall j :: 0 <= j < |r| ==> SnapshotOf(Flatten(series), keys[j], r[j])
    ensures SnapshotAnswer(Flatten(series), r)
  {
    hide Flatten, KeyLess, Increasing, Has;
    var points := Flatten(series);
    forall s, x
      ensures SnapshotHolds(r, s, x) <==> Has(points, s, x)
    {
      FlattenHas(series, s, x);
      if Has(points, s, x) {
        var j :| 0 <= j < |keys| && keys[j] == s;
        assert r[j].series == s && x in r[j].samples;
      }
    }
  }

  /** Every series with its samples, both in order. */
  method SnapshotsOf(series: map<SeriesKey, SamplesByTimestamp>) returns (r: seq<SeriesSnapshot>)
    requires forall s :: s in series ==> series[s] != map[]
    ensures SnapshotAnswer(Flatten(series), r)
  {
    hide Flatten, KeyLess, SnapshotOf, SnapshotAnswer;
    KeyOrder();
    var keys := InOrder(KeyLess, series.Keys);
    r := [];
    for i := 0 to |keys|
      invariant |r| == i
      invariant forall j :: 0 <= j < i ==> SnapshotOf(Flatten(series), keys[j], r[j])
    {
      assert keys[i] in keys;
      var snapshot := SnapshotSeries(series, keys[i]);
      r := r + [snapshot];
    }
    SnapshotsAnswer(series, keys, r);
  }

  lemma NonEmptySamples(m: SamplesByTimestamp, samples: seq<Sample>)
    requires |samples| == |m|
    ensures samples == [] ==> m == map[]
  {}
}
