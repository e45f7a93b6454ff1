/**
  When a power failure takes the database back to one earlier state, and when it mixes states.

  A flush may publish puts whose log records are not yet safe. If some of these records are then lost, the ones that
  remain lie over a segment that already knows better. `OrderSafe` says when that does no harm; `OrderKeptIff` is the
  theorem for runs, and `FlushKeepsOrderIff` what a caller could look at before flushing.
 */
module WriteOrder {
  import opened Prelude
  import opened WalRecord
  import opened WalRecovery
  import opened Contents
  import opened SegmentReaders
  import opened M = Manifest
  import opened Overlay
  import opened Disk
  import opened DurableLog
  import opened Protocol
  import opened ProtocolInvariant
  import opened ProtocolSteps
  import opened CrashSafety

  // ----- logs -----

  predicate Touches(s: Log, p: Point) {
    exists i :: 0 <= i < |s| && PointOf(s[i]) == p
  }

  /**
    `held` are the puts that the newest segment holds although the first of them are only the unsynced records of `rs`,
    from number `u` on. Whichever records are kept: once a put that they lack rewrites a point that they have, so do all
    later ones.
   */
  predicate OrderSafe(rs: Log, u: nat, held: Log) {
    forall i, a, b :: u <= i <= |rs| && i - u <= a < b < |held| ==> Ordered(rs[..i], held[a], held[b])
  }

  predicate Ordered(kept: Log, earlier: WalPutRecord, later: WalPutRecord) {
    Touches(kept, PointOf(earlier)) ==> Touches(kept, PointOf(later))
  }

  /** Repeated puts to a point differ in value, so that contents tell how far a log had got. */
  predicate DistinctPuts(log: Log) {
    forall x, y :: 0 <= x < y < |log| && PointOf(log[x]) == PointOf(log[y]) ==> log[x].sample.value != log[y].sample.value
  }

  /** Contents that the log passed through, having got at least to `low`. */
  ghost predicate Passed(c: Contents, log: Log, low: nat) {
    exists q: nat :: low <= q <= |log| && c == Fold(log[..q])
  }

  ghost predicate CutsKeepOrder(base: Contents, rs: Log, u: nat, log: Log, low: nat) {
    forall i :: u <= i <= |rs| ==> Passed(base + Fold(rs[..i]), log, low)
  }

  function Held(log: Log, span: Span, published: nat): Log
    requires published <= |log|
  {
    if span.start < published then log[span.start..published] else []
  }

  lemma {:induction false} TouchesFold(s: Log, p: Point)
    ensures Touches(s, p) <==> p in Fold(s)
  {
    if s != [] {
      var n := |s| - 1;
      TouchesFold(s[..n], p);
      if Touches(s, p) && PointOf(s[n]) != p {
        var i :| 0 <= i < |s| && PointOf(s[i]) == p;
        assert s[..n][i] == s[i];
      }
      if Touches(s[..n], p) {
        var i :| 0 <= i < n && PointOf(s[..n][i]) == p;
        assert PointOf(s[i]) == p;
      }
    }
  }

  /** A point's value comes from the last put to it. */
  lemma {:induction false} LastPut(s: Log, p: Point) returns (x: nat)
    requires p in Fold(s)
    ensures x < |s| && PointOf(s[x]) == p && Fold(s)[p] == s[x].sample.value
    ensures forall y :: x < y < |s| ==> PointOf(s[y]) != p
  {
    var n := |s| - 1;
    if PointOf(s[n]) == p {
      x := n;
    } else {
      x := LastPut(s[..n], p);
      assert forall y :: x < y < n ==> s[..n][y] == s[y];
    }
  }

  // ----- safe logs -----

  /** Where the dropped puts begin to rewrite kept points, and from then on do nothing else. */
  lemma {:induction false} Split(kept: Log, dropped: Log) returns (x: nat)
    requires forall a, b :: 0 <= a < b < |dropped| ==> Ordered(kept, dropped[a], dropped[b])
    ensures x <= |dropped|
    ensures forall a :: 0 <= a < x ==> !Touches(kept, PointOf(dropped[a]))
    ensures forall a :: x <= a < |dropped| ==> Touches(kept, PointOf(dropped[a]))
  {
    hide Touches;
    if dropped == [] || Touches(kept, PointOf(dropped[0])) {
      x := 0;
      assert forall a :: 0 < a < |dropped| ==> Ordered(kept, dropped[0], dropped[a]);
    } else {
      var rest := dropped[1..];
      forall a, b | 0 <= a < b < |rest|
        ensures Ordered(kept, rest[a], rest[b])
      {
        assert Ordered(kept, dropped[a + 1], dropped[b + 1]);
      }
      var y := Split(kept, rest);
      x := y + 1;
      assert forall a :: 0 < a < |dropped| ==> dropped[a] == rest[a - 1];
    }
  }

  lemma KeysDisjoint(kept: Log, s: Log)
    requires forall a :: 0 <= a < |s| ==> !Touches(kept, PointOf(s[a]))
    ensures Fold(kept).Keys !! Fold(s).Keys
  {
    hide Fold;
    forall p | p in Fold(s)
      ensures p !in Fold(kept)
    {
      TouchesFold(s, p);
      TouchesFold(kept, p);
    }
  }

  lemma KeysWithin(kept: Log, s: Log)
    requires forall a :: 0 <= a < |s| ==> Touches(kept, PointOf(s[a]))
    ensures Fold(s).Keys <= Fold(kept).Keys
  {
    hide Fold;
    forall p | p in Fold(s)
      ensures p in Fold(kept)
    {
      TouchesFold(s, p);
      TouchesFold(kept, p);
    }
  }

  lemma PlusBack(a: Contents, x: Contents, y: Contents, k: Contents)
    requires Submap(k, a) && y.Keys <= k.Keys && k.Keys !! x.Keys
    ensures ((a + x) + y) + k == a + x
  {}

  /** With a safe log, what a cut leaves is what the log had passed through. */
  lemma SafeCut(base: Contents, rs: Log, u: nat, log: Log, span: Span, published: nat, i: nat)
    requires Tracks(base, rs, u, log, span, published) && u <= i <= |rs|
    requires OrderSafe(rs, u, Held(log, span, published))
    ensures Passed(base + Fold(rs[..i]), log, span.start)
  {
    hide Fold, Touches;
    var j := KeptUpTo(u, span, i);
    assert |rs| - u == span.end - span.start;
    if published <= j {
      CutPastPublication(base, rs, u, log, span, published, i);
    } else {
      CutAgrees(rs, u, log, span, i);
      var kept, dropped := rs[..i], log[j..published];
      var held := Held(log, span, published);
      forall a, b | 0 <= a < b < |dropped|
        ensures Ordered(kept, dropped[a], dropped[b])
      {
        assert Ordered(rs[..i], held[i - u + a], held[i - u + b]);
      }
      var x := Split(kept, dropped);
      KeysDisjoint(kept, dropped[..x]);
      KeysWithin(kept, dropped[x..]);
      assert log[..j + x] == log[..j] + dropped[..x] && log[..published] == log[..j + x] + dropped[x..];
      FoldConcat(log[..j], dropped[..x]);
      FoldConcat(log[..j + x], dropped[x..]);
      PlusBack(Fold(log[..j]), Fold(dropped[..x]), Fold(dropped[x..]), Fold(kept));
      assert base + Fold(kept) == Fold(log[..j + x]);
    }
  }

  // ----- unsafe logs -----

  /** Where a safe order is violated, the contents after the cut are none that the log ever passed through. */
  lemma UnsafeCut(base: Contents, rs: Log, u: nat, log: Log, span: Span, published: nat, i: nat, a: nat, b: nat)
    requires Tracks(base, rs, u, log, span, published) && DistinctPuts(log)
    requires u <= i <= |rs| && i - u <= a < b < |Held(log, span, published)|
    requires !Ordered(rs[..i], Held(log, span, published)[a], Held(log, span, published)[b])
    ensures !Passed(base + Fold(rs[..i]), log, 0)
  {
    hide Fold, Touches, DistinctPuts;
    var kept, c := rs[..i], base + Fold(rs[..i]);
    var first, second := span.start + a, span.start + b;
    CutAgrees(rs, u, log, span, i);
    TouchesFold(kept, PointOf(log[first]));
    TouchesFold(kept, PointOf(log[second]));
    forall q: nat | q <= |log|
      ensures c != Fold(log[..q])
    {
      if q <= first {
        LaterMissing(log, published, second, q);
      } else {
        EarlierKept(log, KeptUpTo(u, span, i), first, q);
      }
    }
  }

  /** Having got to `j`, a point that is put at `first` has another value than after that put. */
  lemma EarlierKept(log: Log, j: nat, first: nat, q: nat)
    requires j <= first < q <= |log| && DistinctPuts(log)
    requires PointOf(log[first]) in Fold(log[..j])
    ensures Lookup(Fold(log[..j]), PointOf(log[first])) != Lookup(Fold(log[..q]), PointOf(log[first]))
  {
    hide Fold;
    var p := PointOf(log[first]);
    var x := LastPut(log[..j], p);
    assert log[..q][first] == log[first] && Touches(log[..q], p);
    TouchesFold(log[..q], p);
    var y := LastPut(log[..q], p);
    assert log[x] == log[..j][x] && log[y] == log[..q][y];
    assert y >= first;
  }

  /** A put at `second` is missing from everything before it. */
  lemma LaterMissing(log: Log, published: nat, second: nat, q: nat)
    requires q <= second < published <= |log| && DistinctPuts(log)
    ensures Lookup(Fold(log[..published]), PointOf(log[second])) != Lookup(Fold(log[..q]), PointOf(log[second]))
  {
    hide Fold;
    var p := PointOf(log[second]);
    assert log[..published][second] == log[second] && Touches(log[..published], p);
    TouchesFold(log[..published], p);
    var y := LastPut(log[..published], p);
    assert y >= second && log[y] == log[..published][y];
    if p in Fold(log[..q]) {
      var z := LastPut(log[..q], p);
      assert log[z] == log[..q][z];
    }
  }

  /** A version of the log file keeps the order of the log whatever it loses, exactly when it is safe. */
  lemma OrderSafeIff(base: Contents, rs: Log, u: nat, log: Log, span: Span, published: nat)
    requires Tracks(base, rs, u, log, span, published)
    ensures OrderSafe(rs, u, Held(log, span, published)) ==> CutsKeepOrder(base, rs, u, log, span.start)
    ensures DistinctPuts(log) && CutsKeepOrder(base, rs, u, log, 0) ==> OrderSafe(rs, u, Held(log, span, published))
  {
    hide Fold, Ordered, DistinctPuts, Held, Passed, Submap;
    var held := Held(log, span, published);
    if OrderSafe(rs, u, held) {
      forall i | u <= i <= |rs|
        ensures Passed(base + Fold(rs[..i]), log, span.start)
      {
        SafeCut(base, rs, u, log, span, published, i);
      }
    } else if DistinctPuts(log) {
      var i, a, b :| u <= i <= |rs| && i - u <= a < b < |held| && !Ordered(rs[..i], held[a], held[b]);
      UnsafeCut(base, rs, u, log, span, published, i, a, b);
    }
  }

  // ----- states of the engine -----

  function SpanOf(l: LogState, k: nat): Span {
    if k < |l.spans| then l.spans[k] else Current(l)
  }

  /** The file's version is safe with respect to what the segments hold. */
  predicate VersionSafe(v: Version, l: LogState, span: Span) {
    && v.synced <= |v.bytes| && l.published <= |l.log|
    && OrderSafe(ParseWal(v.bytes).records, RecordsIn(v.bytes, v.synced), Held(l.log, span, l.published))
  }

  ghost predicate StateSafe(s: System, l: LogState) {
    forall k :: 0 <= k < |Versions(s.disk)| ==> VersionSafe(Versions(s.disk)[k], Grown(s, l), SpanOf(Grown(s, l), k))
  }

  /** Whatever a power failure leaves, the log had passed through it. */
  ghost predicate FailureKeepsOrder(s: System, log: Log, low: nat) {
    forall f, s', c :: LosePower(s, f, s') && Shows(s', c) ==> Passed(c, log, low)
  }

  lemma SpanTracks(s: System, base: Contents, l: LogState, k: nat)
    requires WalTracks(WalBytes(s.disk), s.disk.synced, base, l) && EarlierTrack(s.disk.earlier, base, l)
    requires k < |Versions(s.disk)|
    ensures VersionTracks(Versions(s.disk)[k], base, l, SpanOf(l, k))
  {
    hide VersionTracks;
  }

  /** Every boundary between records is a place where the file may be cut. */
  lemma {:induction false} Boundary(b: Bytes, i: nat) returns (k: nat)
    requires ParseWal(b).Replayed? && i <= |ParseWal(b).records|
    ensures k <= |b| && ParseWal(b[..k]).records == ParseWal(b).records[..i]
    decreases |b|
  {
    hide WalRecord.Decode;
    if i == 0 {
      k := 0;
      assert b[..0] == [];
      CleanEmpty();
    } else {
      var n := WalRecord.Decode(b).bytesConsumed;
      DecodedSize(b);
      var j := Boundary(b[n..], i - 1);
      k := n + j;
      FirstRecordClean(b);
      assert b[..k] == b[..n] + b[n..][..j];
      ParseAppend(b[..n], [WalRecord.Decode(b).record], b[n..][..j]);
    }
  }

  lemma CutAt(v: Version, i: nat) returns (wal: Bytes)
    requires v.synced <= |v.bytes| && ParseWal(v.bytes).Replayed?
    requires RecordsIn(v.bytes, v.synced) <= i <= |ParseWal(v.bytes).records|
    ensures v.synced <= |wal| && wal <= v.bytes && ParseWal(wal).records == ParseWal(v.bytes).records[..i]
  {
    hide ParseWal;
    var k := Boundary(v.bytes, i);
    if k < v.synced {
      RecordsMonotone(v.bytes, k, v.synced);
      k := v.synced;
    }
    RecordsMonotone(v.bytes, k, |v.bytes|);
    wal := v.bytes[..k];
  }

  /** What a power failure leaves is the segments with some of the records of some version over them. */
  lemma FailureCuts(s: System, f: Option<WalPutRecord>, s': System, c: Contents, m: ManifestState,
                    segments: seq<SegmentReader>, l: LogState) returns (k: nat, i: nat)
    requires Sound(s.disk, m, segments) && LosePower(s, f, s') && Shows(s', c)
    requires WalTracks(WalBytes(s.disk), s.disk.synced, SegmentContents(segments), l)
    requires EarlierTrack(s.disk.earlier, SegmentContents(segments), l)
    ensures k < |Versions(s.disk)|
    ensures var v := Versions(s.disk)[k];
            && VersionTracks(v, SegmentContents(segments), l, SpanOf(l, k))
            && RecordsIn(v.bytes, v.synced) <= i <= |ParseWal(v.bytes).records|
            && c == SegmentContents(segments) + Fold(ParseWal(v.bytes).records[..i])
  {
    hide Sound, SegmentContents, WalTracks, EarlierTrack, ParseWal, Fold, Tracks, Versions, Shows;
    SoundParts(s.disk, m, segments);
    k :| FallsBack(s.disk, WalBytes(s'.disk), k);
    SpanTracks(s, SegmentContents(segments), l, k);
    var v, wal := Versions(s.disk)[k], WalBytes(s'.disk);
    assert wal == v.bytes[..|wal|];
    RecordsMonotone(v.bytes, v.synced, |wal|);
    i := RecordsIn(v.bytes, |wal|);
    SoundKeeps(s.disk, s'.disk, m, segments);
    StoppedShows(s'.disk, m, segments);
    ShowsOne(s', c, SegmentContents(segments) + Fold(ParseWal(wal).records));
  }

  lemma StoppedShows(d: DiskImage, m: ManifestState, segments: seq<SegmentReader>)
    requires Sound(d, m, segments)
    ensures Shows(Stopped(d), SegmentContents(segments) + Fold(ParseWal(WalBytes(d)).records))
  {
    hide Load, OpensLive, AllReadable, SegmentContents, ParseWal, Fold, GenerationUpTo;
  }

  /** And any number of them may be left. */
  lemma CutHappens(s: System, m: ManifestState, segments: seq<SegmentReader>, k: nat, i: nat)
    returns (f: Option<WalPutRecord>, s': System)
    requires Sound(s.disk, m, segments) && s.disk.wal.Some? && k < |Versions(s.disk)|
    requires var v := Versions(s.disk)[k];
             && v.synced <= |v.bytes| && ParseWal(v.bytes).Replayed?
             && RecordsIn(v.bytes, v.synced) <= i <= |ParseWal(v.bytes).records|
    ensures LosePower(s, f, s')
    ensures Shows(s', SegmentContents(segments) + Fold(ParseWal(Versions(s.disk)[k].bytes).records[..i]))
  {
    hide Sound, SegmentContents, ParseWal, Fold, Versions, Shows;
    var wal := CutAt(Versions(s.disk)[k], i);
    f := InFlight(s);
    s' := Stopped(s.disk.(wal := Some(wal), synced := |wal|, earlier := []));
    assert FallsBack(s.disk, WalBytes(s'.disk), k);
    SoundKeeps(s.disk, s'.disk, m, segments);
    StoppedShows(s'.disk, m, segments);
  }

  /** In any state: a power failure cannot mix states if every version of the log file is safe, and only then. */
  lemma StateSafeIff(s: System, l: LogState)
    requires Related(s, l)
    ensures StateSafe(s, l) ==> FailureKeepsOrder(s, Grown(s, l).log, l.durable)
    ensures DistinctPuts(Grown(s, l).log) && FailureKeepsOrder(s, Grown(s, l).log, 0) ==> StateSafe(s, l)
  {
    hide Related, Sound, SegmentContents, WalTracks, EarlierTrack, ParseWal, Fold, OrderSafe, DistinctPuts, Held,
      Shows, LosePower, Passed, Versions, Tracks, FailureKeepsOrder;
    var m, segments := WholeWal(s, l);
    var base, all := SegmentContents(segments), Grown(s, l);
    if StateSafe(s, l) {
      SafeKeeps(s, l, m, segments);
    }
    if DistinctPuts(all.log) && FailureKeepsOrder(s, all.log, 0) {
      forall k | 0 <= k < |Versions(s.disk)|
        ensures VersionSafe(Versions(s.disk)[k], all, SpanOf(all, k))
      {
        if s.disk.wal.Some? {
          KeepsSafe(s, l, m, segments, k);
        } else {
          NoFileSafe(s, l, base, k);
        }
      }
    }
  }

  /** Without a log file there is nothing to lose. */
  lemma NoFileSafe(s: System, l: LogState, base: Contents, k: nat)
    requires Related(s, l) && s.disk.wal.None? && k < |Versions(s.disk)|
    requires WalTracks([], s.disk.synced, base, Grown(s, l))
    ensures VersionSafe(Versions(s.disk)[k], Grown(s, l), SpanOf(Grown(s, l), k))
  {
    hide Sound, OrderSafe, Submap, Fold;
    NoFile(s, l);
    var all := Grown(s, l);
    CleanEmpty();
    assert |all.log[all.start..|all.log|]| == |all.log| - all.start;
    assert Held(all.log, Current(all), all.published) == [];
    assert |l.spans| == 0;
    NothingHeldIsSafe([], 0);
  }

  lemma NothingHeldIsSafe(rs: Log, u: nat)
    ensures OrderSafe(rs, u, [])
  {}

  lemma NoFile(s: System, l: LogState)
    requires Related(s, l) && s.disk.wal.None?
    ensures s.disk.earlier == [] && l.spans == [] && s.disk.synced == 0
  {
    hide Sound, Tracks, ParseWal;
  }

  lemma SafeKeeps(s: System, l: LogState, m: ManifestState, segments: seq<SegmentReader>)
    requires StateSafe(s, l) && Sound(s.disk, m, segments)
    requires WalTracks(WalBytes(s.disk), s.disk.synced, SegmentContents(segments), Grown(s, l))
    requires EarlierTrack(s.disk.earlier, SegmentContents(segments), Grown(s, l))
    ensures FailureKeepsOrder(s, Grown(s, l).log, l.durable)
  {
    hide Sound, SegmentContents, WalTracks, EarlierTrack, ParseWal, Fold, OrderSafe, Held, Shows, LosePower, Versions,
      Tracks;
    SoundParts(s.disk, m, segments);
    var base, all := SegmentContents(segments), Grown(s, l);
    forall f, s', c | LosePower(s, f, s') && Shows(s', c)
      ensures Passed(c, all.log, l.durable)
    {
      var k, i := FailureCuts(s, f, s', c, m, segments, all);
      var v := Versions(s.disk)[k];
      assert VersionSafe(v, all, SpanOf(all, k));
      SafeCut(base, ParseWal(v.bytes).records, RecordsIn(v.bytes, v.synced), all.log, SpanOf(all, k), l.published, i);
    }
  }

  lemma KeepsSafe(s: System, l: LogState, m: ManifestState, segments: seq<SegmentReader>, k: nat)
    requires FailureKeepsOrder(s, Grown(s, l).log, 0) && DistinctPuts(Grown(s, l).log)
    requires Sound(s.disk, m, segments) && s.disk.wal.Some? && k < |Versions(s.disk)|
    requires WalTracks(WalBytes(s.disk), s.disk.synced, SegmentContents(segments), Grown(s, l))
    requires EarlierTrack(s.disk.earlier, SegmentContents(segments), Grown(s, l))
    ensures VersionSafe(Versions(s.disk)[k], Grown(s, l), SpanOf(Grown(s, l), k))
  {
    hide Sound, SegmentContents, WalTracks, EarlierTrack, ParseWal, Fold, OrderSafe, DistinctPuts, Held, Shows,
      LosePower, Versions, Submap, Passed;
    SoundParts(s.disk, m, segments);
    var base, all, v := SegmentContents(segments), Grown(s, l), Versions(s.disk)[k];
    SpanTracks(s, base, all, k);
    var rs, u := ParseWal(v.bytes).records, RecordsIn(v.bytes, v.synced);
    forall i | u <= i <= |rs|
      ensures Passed(base + Fold(rs[..i]), all.log, 0)
    {
      var f, s' := CutHappens(s, m, segments, k, i);
    }
    OrderSafeIff(base, rs, u, all.log, SpanOf(all, k), l.published);
  }

  // ----- runs -----

  /** The contents once the put in flight, if any, has been added. */
  function WithInFlight(c: Contents, f: Option<WalPutRecord>): Contents {
    if f.Some? then c[PointOf(f.value) := f.value.sample.value] else c
  }

  /** `c` is what the database held at one moment of the steps `i` to `k`, or then with the put in flight. */
  ghost predicate HeldBefore(states: seq<System>, i: nat, k: nat, f: Option<WalPutRecord>, c: Contents)
    requires i <= k < |states|
  {
    exists n: nat, e :: i <= n <= k && HeldAt(states, n, e) && (c == e || (n == k && c == WithInFlight(e, f)))
  }

  ghost predicate HeldAt(states: seq<System>, n: nat, e: Contents)
    requires n < |states|
  {
    Shows(states[n], e)
  }

  /** If power fails now, the whole database is back at one moment since step `i`. */
  ghost predicate BackToAMoment(states: seq<System>, i: nat, k: nat)
    requires i <= k < |states|
  {
    forall f, s', c :: LosePower(states[k], f, s') && Shows(s', c) ==> HeldBefore(states, i, k, f, c)
  }

  lemma MomentOfPrefix(states: seq<System>, events: seq<Event>, ls: seq<LogState>, i: nat, k: nat,
                       f: Option<WalPutRecord>, c: Contents)
    requires Follows(states, events, ls) && i <= k <= |events| && SyncPoint(events, i)
    requires forall j :: i <= j < k ==> !events[j].PowerLost?
    requires Passed(c, Grown(states[k], ls[k]).log, ls[k].durable)
    requires f == InFlight(states[k])
    ensures HeldBefore(states, i, k, f, c)
  {
    hide Related, Publishes, LogNext, Shows, Fold;
    LogGrows(states, events, ls, i, k);
    DurableSince(states, events, ls, i, k);
    var log, all := ls[k].log, Grown(states[k], ls[k]).log;
    var q: nat :| ls[k].durable <= q <= |all| && c == Fold(all[..q]);
    var n := k;
    RelatedShows(states[k], ls[k]);
    if q <= |log| {
      assert all[..q] == log[..q];
      n := Moment(states, events, ls, i, k, q);
      RelatedShows(states[n], ls[n]);
      assert HeldAt(states, n, Fold(ls[n].log)) && c == Fold(ls[n].log);
    } else {
      assert all[..q] == log + [f.value];
      FoldSnoc(log, f.value);
      assert HeldAt(states, k, Fold(log)) && c == WithInFlight(Fold(log), f);
    }
  }

  lemma PrefixOfMoment(states: seq<System>, events: seq<Event>, ls: seq<LogState>, i: nat, k: nat,
                       f: Option<WalPutRecord>, c: Contents)
    requires Follows(states, events, ls) && i <= k <= |events|
    requires forall j :: i <= j < k ==> !events[j].PowerLost?
    requires f == InFlight(states[k])
    requires HeldBefore(states, i, k, f, c)
    ensures Passed(c, Grown(states[k], ls[k]).log, 0)
  {
    hide Related, Publishes, LogNext, Shows, Fold;
    var log, all := ls[k].log, Grown(states[k], ls[k]).log;
    var n: nat, e :| i <= n <= k && HeldAt(states, n, e) && (c == e || (n == k && c == WithInFlight(e, f)));
    LogGrows(states, events, ls, n, k);
    RelatedShows(states[n], ls[n]);
    ShowsOne(states[n], e, Fold(ls[n].log));
    if c == e {
      assert all[..|ls[n].log|] == ls[n].log;
    } else {
      FoldSnoc(log, f.value);
      assert all[..|all|] == log + [f.value];
    }
  }

  /**
    At any moment of a run, with the last sync at step `i`: a power failure takes the whole database back to one moment
    since that sync, or keeps everything including the put in flight, if what the log file may lose is safe with
    respect to what has been published; and if repeated puts to a point differ in value, only if it is.
   */
  lemma OrderKeptIff(states: seq<System>, events: seq<Event>, ls: seq<LogState>, i: nat, k: nat)
    requires Follows(states, events, ls) && i <= k <= |events| && SyncPoint(events, i)
    requires forall j :: i <= j < k ==> !events[j].PowerLost?
    ensures StateSafe(states[k], ls[k]) ==> BackToAMoment(states, i, k)
    ensures DistinctPuts(Grown(states[k], ls[k]).log) && BackToAMoment(states, i, k) ==> StateSafe(states[k], ls[k])
  {
    hide Related, Publishes, LogNext, Shows, Fold, StateSafe, DistinctPuts, Grown, Passed, HeldBefore, SyncPoint,
      AfterPowerLoss;
    var s, l := states[k], ls[k];
    StateSafeIff(s, l);
    if StateSafe(s, l) {
      forall f, s', c | LosePower(s, f, s') && Shows(s', c)
        ensures HeldBefore(states, i, k, f, c)
      {
        MomentOfPrefix(states, events, ls, i, k, f, c);
      }
    }
    if BackToAMoment(states, i, k) {
      forall f, s', c | LosePower(s, f, s') && Shows(s', c)
        ensures Passed(c, Grown(s, l).log, 0)
      {
        PrefixOfMoment(states, events, ls, i, k, f, c);
      }
    }
  }

  // ----- what a caller can rely on, or look at -----

  /** Of the write-ahead log alone: once an unsynced put rewrites a point that is kept, so do all later ones. */
  predicate LogSafe(rs: Log, u: nat) {
    forall i, a, b :: u <= i <= a < b < |rs| ==> Ordered(rs[..i], rs[a], rs[b])
  }

  lemma LogSafeIs(rs: Log, u: nat)
    requires u <= |rs|
    ensures LogSafe(rs, u) <==> OrderSafe(rs, u, rs[u..])
  {
    hide Ordered;
    var held := rs[u..];
    if LogSafe(rs, u) {
      forall i, a, b | u <= i <= |rs| && i - u <= a < b < |held|
        ensures Ordered(rs[..i], held[a], held[b])
      {
        assert Ordered(rs[..i], rs[u + a], rs[u + b]);
      }
    }
    if OrderSafe(rs, u, held) {
      forall i, a, b | u <= i <= a < b < |rs|
        ensures Ordered(rs[..i], rs[a], rs[b])
      {
        assert Ordered(rs[..i], held[a - u], held[b - u]);
      }
    }
  }

  /**
    As soon as a flush has published its manifest, and unless an earlier cut of the log is unsynced: order is kept
    exactly if the log, as it was before the flush, is safe.
   */
  lemma FlushKeepsOrderIff(states: seq<System>, events: seq<Event>, ls: seq<LogState>, i: nat, k: nat)
    requires Follows(states, events, ls) && i < k <= |events| && SyncPoint(events, i)
    requires forall j :: i <= j < k ==> !events[j].PowerLost?
    requires events[k - 1] == Internal && FlushCommit(states[k - 1], states[k]) && states[k].disk.earlier == []
    ensures states[k - 1].disk.wal == states[k].disk.wal && states[k - 1].disk.synced <= |WalBytes(states[k - 1].disk)|
    ensures var w, synced := WalBytes(states[k - 1].disk), states[k - 1].disk.synced;
            && (LogSafe(ParseWal(w).records, RecordsIn(w, synced)) ==> BackToAMoment(states, i, k))
            && (DistinctPuts(ls[k].log) && BackToAMoment(states, i, k) ==>
                  LogSafe(ParseWal(w).records, RecordsIn(w, synced)))
  {
    hide Related, Publishes, LogNext, Shows, Fold, DistinctPuts, StateSafe, OrderSafe, LogSafe, BackToAMoment,
      SyncPoint, ParseWal, M.Encode;
    OrderKeptIff(states, events, ls, i, k);
    assert Publishes(states[k - 1], events[k - 1], states[k], ls[k - 1], ls[k]);
    assert LogNext(ls[k - 1], events[k - 1], ls[k]);
    AllPublished(ls[k - 1], ls[k], states[k - 1], states[k]);
    assert ls[k].log + [] == ls[k].log;
    OneVersionSafe(states[k], ls[k]);
  }

  lemma AllPublished(l: LogState, l': LogState, s: System, s': System)
    requires Publishes(s, Internal, s', l, l') && LogNext(l, Internal, l') && FlushCommit(s, s')
    ensures l'.published == |l'.log|
  {
    hide FlushCommit;
  }

  lemma OneVersionSafe(s: System, l: LogState)
    requires Related(s, l) && s.disk.earlier == [] && l.published == |l.log| && Pending(s) == []
    ensures s.disk.synced <= |WalBytes(s.disk)|
    ensures StateSafe(s, l) <==> LogSafe(ParseWal(WalBytes(s.disk)).records, RecordsIn(WalBytes(s.disk), s.disk.synced))
  {
    hide Related, Sound, SegmentContents, OrderSafe, LogSafe, Fold, ParseWal, Submap;
    var m, segments := WholeWal(s, l);
    var all, w := Grown(s, l), WalBytes(s.disk);
    assert all == l by { assert l.log + [] == l.log; }
    var rs, u := ParseWal(w).records, RecordsIn(w, s.disk.synced);
    LogSafeIs(rs, u);
    assert rs[u..] == l.log[l.start..|l.log|];
    assert Versions(s.disk) == [Version(w, s.disk.synced)] && SpanOf(l, 0) == Current(l);
    assert StateSafe(s, l) <==> VersionSafe(Version(w, s.disk.synced), l, Current(l));
    if l.start < |l.log| {
      assert Held(l.log, Current(l), l.published) == rs[u..];
    } else {
      assert Held(l.log, Current(l), l.published) == [] && rs[u..] == [];
    }
  }

  /** Puts that never go to the same point twice are always safe, with nothing synced. */
  lemma WritingOnceKeepsOrder(s: System, l: LogState)
    requires Related(s, l)
    requires var all := Grown(s, l).log; forall x, y :: 0 <= x < y < |all| ==> PointOf(all[x]) != PointOf(all[y])
    ensures StateSafe(s, l)
  {
    hide Related, Sound, SegmentContents, WalTracks, EarlierTrack, Fold, ParseWal, Versions, Touches;
    var m, segments := WholeWal(s, l);
    var base, all := SegmentContents(segments), Grown(s, l);
    forall k | 0 <= k < |Versions(s.disk)|
      ensures VersionSafe(Versions(s.disk)[k], all, SpanOf(all, k))
    {
      SpanTracks(s, base, all, k);
      var v, span := Versions(s.disk)[k], SpanOf(all, k);
      var rs, u := ParseWal(v.bytes).records, RecordsIn(v.bytes, v.synced);
      var held := Held(all.log, span, all.published);
      forall i, a, b | u <= i <= |rs| && i - u <= a < b < |held|
        ensures Ordered(rs[..i], held[a], held[b])
      {
        NeverRewritten(base, rs, u, all.log, span, all.published, i, a);
      }
    }
  }

  lemma NeverRewritten(base: Contents, rs: Log, u: nat, log: Log, span: Span, published: nat, i: nat, a: nat)
    requires Tracks(base, rs, u, log, span, published)
    requires forall x, y :: 0 <= x < y < |log| ==> PointOf(log[x]) != PointOf(log[y])
    requires u <= i <= |rs| && i - u <= a < |Held(log, span, published)|
    ensures !Touches(rs[..i], PointOf(Held(log, span, published)[a]))
  {
    hide Fold, Touches;
    var first, j := span.start + a, KeptUpTo(u, span, i);
    CutAgrees(rs, u, log, span, i);
    TouchesFold(rs[..i], PointOf(log[first]));
    NotBefore(log, j, first);
  }

  lemma NotBefore(log: Log, j: nat, first: nat)
    requires j <= first < |log| && forall x, y :: 0 <= x < y < |log| ==> PointOf(log[x]) != PointOf(log[y])
    ensures PointOf(log[first]) !in Fold(log[..j])
  {
    hide Fold;
    assert forall x :: 0 <= x < j ==> log[..j][x] == log[x];
    TouchesFold(log[..j], PointOf(log[first]));
  }

  /** Every flush published between the steps `i` and `k` found the write-ahead log synced. */
  ghost predicate PublishesSynced(states: seq<System>, i: nat, k: nat) {
    forall j :: i < j <= k && j < |states| && FlushCommit(states[j - 1], states[j]) ==> WalSynced(states[j - 1].disk)
  }

  lemma {:induction false} PublishedIsDurable(states: seq<System>, events: seq<Event>, ls: seq<LogState>, i: nat, k: nat)
    requires Follows(states, events, ls) && i <= k <= |events| && SyncPoint(events, i) && PublishesSynced(states, i, k)
    requires forall j :: i <= j < k ==> !events[j].PowerLost?
    ensures ls[k].published <= ls[k].durable <= |ls[k].log|
    decreases k - i
  {
    hide Related, FlushCommit, Survives;
    if i == k {
      assert i > 0 ==> LogNext(ls[i - 1], events[i - 1], ls[i]);
    } else {
      PublishedIsDurable(states, events, ls, i, k - 1);
      assert LogNext(ls[k - 1], events[k - 1], ls[k]);
      assert Publishes(states[k - 1], events[k - 1], states[k], ls[k - 1], ls[k]);
      if events[k - 1] == Internal && FlushCommit(states[k - 1], states[k]) {
        NoPutPending(states[k - 1], states[k]);
        SyncedIsDurable(states[k - 1], ls[k - 1]);
      }
    }
  }

  lemma NoPutPending(s: System, s': System)
    requires FlushCommit(s, s')
    ensures Pending(s) == []
  {}

  lemma SyncedIsDurable(s: System, l: LogState)
    requires Related(s, l) && WalSynced(s.disk) && Pending(s) == []
    ensures l.durable == |l.log|
  {
    hide Related, Sound, SegmentContents, Tracks, ParseWal;
    var m, segments := WholeWal(s, l);
    assert l.log + [] == l.log;
    NothingUnsynced(WalBytes(s.disk), SegmentContents(segments), l);
  }

  /** In particular order is kept if every flush since the last sync publishes a synced log. */
  lemma SyncedFlushesKeepOrder(states: seq<System>, events: seq<Event>, i: nat, k: nat)
    requires Run(states, events) && i <= k <= |events| && SyncPoint(events, i) && PublishesSynced(states, i, k)
    requires forall j :: i <= j < k ==> !events[j].PowerLost?
    ensures BackToAMoment(states, i, k)
  {
    hide Run, Related, Publishes, LogNext, BackToAMoment, PublishesSynced, StateSafe, DistinctPuts, SyncPoint;
    var ls := RunFollows(states, events);
    PublishedIsDurable(states, events, ls, i, k);
    NothingPublishedIsSafe(states[k], ls[k]);
    OrderKeptIff(states, events, ls, i, k);
  }

  lemma NothingPublishedIsSafe(s: System, l: LogState)
    requires Related(s, l) && l.published <= l.durable
    ensures StateSafe(s, l)
  {
    hide Related, Sound, SegmentContents, WalTracks, EarlierTrack, ParseWal, Versions, OrderSafe, Submap, Fold;
    var m, segments := WholeWal(s, l);
    var base, all := SegmentContents(segments), Grown(s, l);
    forall k | 0 <= k < |Versions(s.disk)|
      ensures VersionSafe(Versions(s.disk)[k], all, SpanOf(all, k))
    {
      SpanTracks(s, base, all, k);
      var v := Versions(s.disk)[k];
      NothingHeldIsSafe(ParseWal(v.bytes).records, RecordsIn(v.bytes, v.synced));
    }
  }
}
