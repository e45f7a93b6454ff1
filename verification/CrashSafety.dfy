/**
  Whole runs of the engine: any sequence of puts, syncs, flushes and compactions, with the process dying or the power
  failing between any two durable steps, including during recovery.

  Every opening may choose its durability anew. `DurablePutsSurvive` says which puts the database holds after any run,
  `RegressionIsBounded` how far a power failure may set back a single point.
 */
module CrashSafety {
  import opened Prelude
  import opened WalRecord
  import opened WalRecovery
  import opened Contents
  import opened M = Manifest
  import opened Overlay
  import opened Disk
  import opened DurableLog
  import opened Protocol
  import opened ProtocolInvariant
  import opened ProtocolSteps

  // ----- runs -----

  ghost predicate Run(states: seq<System>, events: seq<Event>) {
    && |states| == |events| + 1 && Fresh(states[0])
    && forall i :: 0 <= i < |events| ==> Next(states[i], events[i], states[i + 1])
  }

  lemma RunLength(states: seq<System>, events: seq<Event>)
    requires Run(states, events)
    ensures |states| == |events| + 1
  {}

  /** What the database holds: what queries are answered from, or what a recovery would read back. */
  ghost predicate Shows(s: System, c: Contents) {
    match s
    case Running(v, _, _) => AllReadable(v.segments) && c == Visible(v)
    case Stopped(d) =>
      exists m, segments ::
        && Load(d.manifest) == Success(m) && OpensLive(d, m, segments) && AllReadable(segments)
        && c == SegmentContents(segments) + Fold(ParseWal(WalBytes(d)).records)
  }

  lemma ShowsOne(s: System, a: Contents, b: Contents)
    requires Shows(s, a) && Shows(s, b)
    ensures a == b
  {
    hide Load, OpensLive, AllReadable, SegmentContents, ParseWal, Fold;
    if s.Stopped? {
      var d := s.disk;
      var m, x :| Load(d.manifest) == Success(m) && OpensLive(d, m, x) && AllReadable(x)
                  && a == SegmentContents(x) + Fold(ParseWal(WalBytes(d)).records);
      var n, y :| Load(d.manifest) == Success(n) && OpensLive(d, n, y) && AllReadable(y)
                  && b == SegmentContents(y) + Fold(ParseWal(WalBytes(d)).records);
      OpensSame(d, m, x, y);
    }
  }

  lemma RelatedShows(s: System, l: LogState)
    requires Related(s, l)
    ensures Shows(s, Fold(l.log))
  {
    hide Load, OpensLive, AllReadable, SegmentContents, ParseWal, Fold, WalTracks, EarlierTrack, GenerationUpTo,
      PhaseOk;
    match s
    case Running(v, phase, d) =>
      WalMeaning(Settled(v, phase, d), d.synced, SegmentContents(v.segments), l);
    case Stopped(d) =>
      var m, segments :| DiskOk(d, m, segments, l);
      WalMeaning(WalBytes(d), d.synced, SegmentContents(segments), l);
  }

  // ----- the log along a run -----

  ghost predicate Follows(states: seq<System>, events: seq<Event>, ls: seq<LogState>) {
    && |ls| == |states| == |events| + 1 && ls[0] == AllSafe([])
    && (forall i :: 0 <= i < |ls| ==> Related(states[i], ls[i]))
    && (forall i :: 0 <= i < |events| ==> LogNext(ls[i], events[i], ls[i + 1]))
    && (forall i :: 0 <= i < |events| ==> Publishes(states[i], events[i], states[i + 1], ls[i], ls[i + 1]))
  }

  lemma RunPrefix(states: seq<System>, events: seq<Event>, n: nat)
    requires Run(states, events) && n <= |events|
    ensures Run(states[..n + 1], events[..n])
  {
    hide Next, Fresh;
  }

  /** Every run is a run of the log. */
  lemma {:induction false} RunFollows(states: seq<System>, events: seq<Event>)
    returns (ls: seq<LogState>)
    requires Run(states, events)
    ensures Follows(states, events, ls)
    decreases |events|
  {
    hide Next, Related, LogNext, Publishes, Fresh;
    if events == [] {
      ls := [AllSafe([])];
      FreshRelated(states[0]);
    } else {
      var n := |events| - 1;
      RunPrefix(states, events, n);
      var init := RunFollows(states[..n + 1], events[..n]);
      var last := StepKeeps(states[n], events[n], states[n + 1], init[n]);
      ls := init + [last];
      forall i | 0 <= i < |events|
        ensures LogNext(ls[i], events[i], ls[i + 1])
        ensures Publishes(states[i], events[i], states[i + 1], ls[i], ls[i + 1])
      {
        if i < n {
          assert LogNext(init[i], events[..n][i], init[i + 1]);
          assert Publishes(states[..n + 1][i], events[..n][i], states[..n + 1][i + 1], init[i], init[i + 1]);
        }
      }
    }
  }

  // ----- what the database holds after a run -----

  /** The put an event is about, finished or in flight. */
  function PutOf(e: Event): Option<WalPutRecord> {
    match e
    case Acknowledged(r, _) => Some(r)
    case Halted(f) => f
    case PowerLost(f) => f
    case _ => None
  }

  /** Whether unsynced puts are in danger before `e`, given that they are after it. */
  predicate RiskBefore(e: Event, atRisk: bool) {
    match e
    case PowerLost(_) => true
    case Synced => false
    case Acknowledged(_, durability) => durability == Buffered && atRisk
    case _ => atRisk
  }

  /** An acknowledged put may be missing only if it was buffered and power failed before the next sync. */
  predicate MayBeMissing(e: Event, atRisk: bool) {
    e.Acknowledged? ==> e.durability == Buffered && atRisk
  }

  /** The log has the puts of the events, in order, but for some that may be missing. */
  predicate Explains(events: seq<Event>, log: Log, atRisk: bool) {
    if events == [] then log == []
    else
      var init, e := events[..|events| - 1], events[|events| - 1];
      || (MayBeMissing(e, atRisk) && Explains(init, log, RiskBefore(e, atRisk)))
      || (log != [] && PutOf(e) == Some(log[|log| - 1]) && Explains(init, log[..|log| - 1], RiskBefore(e, atRisk)))
  }

  predicate Subsequence(a: Log, b: Log) {
    if b == [] then a == []
    else
      var n := |b| - 1;
      Subsequence(a, b[..n]) || (a != [] && a[|a| - 1] == b[n] && Subsequence(a[..|a| - 1], b[..n]))
  }

  /** Whatever subset of the puts that are not yet durable gets lost, the rest still explains the events. */
  ghost predicate Droppable(events: seq<Event>, l: LogState) {
    && l.durable <= |l.log|
    && Explains(events, l.log, false)
    && forall t :: Subsequence(t, l.log[l.durable..]) ==> Explains(events, l.log[..l.durable] + t, true)
  }

  lemma {:induction false} SubsequenceSelf(a: Log)
    ensures Subsequence(a, a)
  {
    if a != [] {
      SubsequenceSelf(a[..|a| - 1]);
    }
  }

  lemma {:induction false} WithoutSubsequence(a: Log, b: Log, points: set<Point>)
    ensures Subsequence(a + Without(b, points), a + b)
  {
    if b == [] {
      assert a + b == a && a + Without(b, points) == a;
      SubsequenceSelf(a);
    } else {
      var n := |b| - 1;
      WithoutSubsequence(a, b[..n], points);
      assert (a + b)[..|a + b| - 1] == a + b[..n];
      if PointOf(b[n]) !in points {
        var kept := a + Without(b, points);
        assert kept[..|kept| - 1] == a + Without(b[..n], points);
      } else {
        assert Without(b, points) == Without(b[..n], points);
      }
    }
  }

  lemma {:induction false} SubsequencePrefix(a: Log, b: Log, m: nat)
    requires m <= |b| && Subsequence(a, b[..m])
    ensures Subsequence(a, b)
    decreases |b| - m
  {
    if m < |b| {
      assert b[..m + 1][..m] == b[..m];
      SubsequencePrefix(a, b, m + 1);
    } else {
      assert b[..m] == b;
    }
  }

  lemma {:induction false} RiskAllowsMore(events: seq<Event>, log: Log)
    requires Explains(events, log, false)
    ensures Explains(events, log, true)
  {
    if events != [] {
      var init, e := events[..|events| - 1], events[|events| - 1];
      if !RiskBefore(e, false) && RiskBefore(e, true) {
        if Explains(init, log, false) {
          RiskAllowsMore(init, log);
        }
        if log != [] && Explains(init, log[..|log| - 1], false) {
          RiskAllowsMore(init, log[..|log| - 1]);
        }
      }
    }
  }

  lemma AllDurable(events: seq<Event>, log: Log)
    requires Explains(events, log, false)
    ensures Droppable(events, AllSafe(log))
  {
    hide Explains;
    RiskAllowsMore(events, log);
    assert log[|log|..] == [] && log[..|log|] == log;
    forall t | Subsequence(t, [])
      ensures log + t == log
    {}
  }

  /** A put that may be lost: in flight when the engine stopped, or acknowledged by a buffered append. */
  ghost predicate Soft(e: Event, f: Option<WalPutRecord>) {
    e == Halted(f) || e == PowerLost(f) || (f.Some? && e == Acknowledged(f.value, Buffered))
  }

  lemma DropSoft(events: seq<Event>, e: Event, l: LogState, f: Option<WalPutRecord>, grown: Log)
    requires Droppable(events, l) && MaybeMore(l.log, f, grown) && Soft(e, f)
    ensures forall t :: Subsequence(t, grown[l.durable..]) ==> Explains(events + [e], grown[..l.durable] + t, true)
  {
    hide Explains, Subsequence, Soft;
    forall t | Subsequence(t, grown[l.durable..])
      ensures Explains(events + [e], grown[..l.durable] + t, true)
    {
      DropSome(events, e, l, f, grown, t);
    }
  }

  /** Of the puts that are not durable, those of `t` are left. */
  lemma DropSome(events: seq<Event>, e: Event, l: LogState, f: Option<WalPutRecord>, grown: Log, t: Log)
    requires Droppable(events, l) && MaybeMore(l.log, f, grown) && Soft(e, f) && Subsequence(t, grown[l.durable..])
    ensures Explains(events + [e], grown[..l.durable] + t, true)
  {
    hide Explains, Subsequence, Soft;
    var safe, tail := l.log[..l.durable], l.log[l.durable..];
    assert grown[..l.durable] == safe;
    if grown == l.log {
      SkipSoft(events, e, f, safe + t);
    } else {
      var n := |t| - 1;
      assert grown[l.durable..] == tail + [f.value];
      LastOrNot(t, tail, f.value);
      if Subsequence(t, tail) {
        SkipSoft(events, e, f, safe + t);
      } else {
        assert safe + t == (safe + t[..n]) + [f.value];
        AddSoft(events, e, f, safe + t[..n]);
      }
    }
  }

  lemma LastOrNot(t: Log, tail: Log, r: WalPutRecord)
    requires Subsequence(t, tail + [r])
    ensures Subsequence(t, tail) || (t != [] && t[|t| - 1] == r && Subsequence(t[..|t| - 1], tail))
  {
    assert (tail + [r])[..|tail|] == tail;
  }

  lemma SkipSoft(events: seq<Event>, e: Event, f: Option<WalPutRecord>, log: Log)
    requires Soft(e, f) && Explains(events, log, true)
    ensures Explains(events + [e], log, true)
  {
    assert (events + [e])[..|events|] == events;
  }

  lemma AddSoft(events: seq<Event>, e: Event, f: Option<WalPutRecord>, log: Log)
    requires Soft(e, f) && f.Some? && Explains(events, log, true)
    ensures Explains(events + [e], log + [f.value], true)
  {
    assert (events + [e])[..|events|] == events && (log + [f.value])[..|log|] == log;
  }

  lemma DroppableMore(events: seq<Event>, e: Event, l: LogState, f: Option<WalPutRecord>, grown: Log)
    requires Droppable(events, l) && MaybeMore(l.log, f, grown)
    requires e == Halted(f) || (f.Some? && e == Acknowledged(f.value, Buffered) && grown == l.log + [f.value])
    ensures Droppable(events + [e], l.(log := grown))
  {
    DropSoft(events, e, l, f, grown);
    hide Subsequence;
    var all := events + [e];
    assert all[..|all| - 1] == events;
    if grown != l.log {
      assert grown[..|grown| - 1] == l.log;
    }
    assert Explains(all, grown, false);
  }

  lemma SurvivorExplained(events: seq<Event>, l: LogState, f: Option<WalPutRecord>, grown: Log, after: Log)
    requires Droppable(events, l) && MaybeMore(l.log, f, grown) && Survives(l.(log := grown), after)
    ensures Explains(events + [PowerLost(f)], after, false)
  {
    DropSoft(events, PowerLost(f), l, f, grown);
    hide Without, Subsequence, Survives;
    var all := events + [PowerLost(f)];
    assert all[..|events|] == events;
    var kept := SurvivorKeeps(l.(log := grown), after);
    assert Explains(all, grown[..l.durable] + kept, true);
  }

  lemma SurvivorKeeps(l: LogState, after: Log) returns (kept: Log)
    requires Survives(l, after) && l.durable <= |l.log|
    ensures Subsequence(kept, l.log[l.durable..]) && after == l.log[..l.durable] + kept
  {
    hide Without, Subsequence;
    var j: nat, points: set<Point> :| SurvivesAs(l, after, j, points);
    var tail := l.log[l.durable..];
    var k := j - l.durable;
    assert l.log[..j] == l.log[..l.durable] + tail[..k];
    if j < l.published {
      var m := l.published - l.durable;
      assert l.log[j..l.published] == tail[k..m] && tail[..m] == tail[..k] + tail[k..m];
      kept := tail[..k] + Without(tail[k..m], points);
      WithoutSubsequence(tail[..k], tail[k..m], points);
      SubsequencePrefix(kept, tail, m);
    } else {
      kept := tail[..k];
      SubsequenceSelf(kept);
      SubsequencePrefix(kept, tail, k);
    }
  }

  lemma DroppableStep(events: seq<Event>, l: LogState, e: Event, l': LogState)
    requires Droppable(events, l) && LogNext(l, e, l')
    ensures Droppable(events + [e], l')
  {
    hide Survives, Subsequence, MaybeMore;
    var all := events + [e];
    assert all[..|events|] == events;
    match e
    case Acknowledged(r, durability) =>
      assert (l.log + [r])[..|l.log|] == l.log;
      if durability == SyncOnAppend {
        AllDurable(all, l'.log);
      } else {
        Appending(l.log, r);
        DroppableMore(events, e, l, Some(r), l'.log);
      }
    case Synced => AllDurable(all, l'.log);
    case Halted(f) => DroppableMore(events, e, l, f, l'.log);
    case PowerLost(f) =>
      var grown :| MaybeMore(l.log, f, grown) && Survives(l.(log := grown), l'.log);
      SurvivorExplained(events, l, f, grown, l'.log);
      AllDurable(all, l'.log);
    case Internal => KeepsDroppable(events, l, l');
  }

  lemma Appending(log: Log, r: WalPutRecord)
    ensures MaybeMore(log, Some(r), log + [r])
  {}

  lemma KeepsDroppable(events: seq<Event>, l: LogState, l': LogState)
    requires Droppable(events, l) && l'.log == l.log && l'.durable == l.durable
    ensures Droppable(events + [Internal], l')
  {
    hide Subsequence;
    assert (events + [Internal])[..|events|] == events;
  }

  lemma {:induction false} RunDroppable(states: seq<System>, events: seq<Event>, ls: seq<LogState>, n: nat)
    requires Follows(states, events, ls) && n <= |events|
    ensures Droppable(events[..n], ls[n])
  {
    hide Related, LogNext, Publishes, Droppable;
    if n == 0 {
      AllDurable([], []);
    } else {
      RunDroppable(states, events, ls, n - 1);
      DroppableStep(events[..n - 1], ls[n - 1], events[n - 1], ls[n]);
      assert events[..n] == events[..n - 1] + [events[n - 1]];
    }
  }

  /**
    After any run the database holds exactly the fold of a log of puts that explains the run: every acknowledged put in
    order, except buffered ones that a power failure caught before a sync, and some of the puts that were in flight
    when the engine stopped, each at its own place.
   */
  lemma DurablePutsSurvive(states: seq<System>, events: seq<Event>) returns (log: Log)
    requires Run(states, events)
    ensures Explains(events, log, false) && Shows(states[|events|], Fold(log))
  {
    hide Explains, Related, LogNext, Publishes, Shows, Subsequence, Fold;
    var ls := RunFollows(states, events);
    RunDroppable(states, events, ls, |events|);
    assert events[..|events|] == events;
    log := ls[|events|].log;
    RelatedShows(states[|events|], ls[|events|]);
  }

  // ----- what that means for the puts -----

  /** The acknowledged puts, in order. */
  function AcknowledgedPuts(events: seq<Event>): Log {
    if events == [] then []
    else
      var init, e := events[..|events| - 1], events[|events| - 1];
      AcknowledgedPuts(init) + if e.Acknowledged? then [e.record] else []
  }

  /** No acknowledged put was ever waiting for a sync when power failed. */
  predicate NoneAtRisk(events: seq<Event>, atRisk: bool) {
    if events == [] then true
    else
      var init, e := events[..|events| - 1], events[|events| - 1];
      && (e.Acknowledged? && e.durability == Buffered ==> !atRisk)
      && NoneAtRisk(init, RiskBefore(e, atRisk))
  }

  /** Unless power fails on unsynced buffered puts, every acknowledged put is in the log, in order. */
  lemma {:induction false} NothingAcknowledgedIsLost(events: seq<Event>, log: Log, atRisk: bool)
    requires Explains(events, log, atRisk) && NoneAtRisk(events, atRisk)
    ensures Subsequence(AcknowledgedPuts(events), log)
    decreases |events|
  {
    if events != [] {
      var init, e := events[..|events| - 1], events[|events| - 1];
      var risk := RiskBefore(e, atRisk);
      var puts := AcknowledgedPuts(events);
      if !e.Acknowledged? && Explains(init, log, risk) {
        NothingAcknowledgedIsLost(init, log, risk);
        assert puts == AcknowledgedPuts(init);
      } else {
        NothingAcknowledgedIsLost(init, log[..|log| - 1], risk);
        if e.Acknowledged? {
          assert puts[..|puts| - 1] == AcknowledgedPuts(init);
        } else {
          assert puts == AcknowledgedPuts(init);
        }
      }
    }
  }

  /** The death of the process alone loses nothing acknowledged, in either mode, however often it happens. */
  lemma {:induction false} ProcessDeathIsHarmless(events: seq<Event>)
    requires forall i :: 0 <= i < |events| ==> !events[i].PowerLost?
    ensures NoneAtRisk(events, false)
  {
    if events != [] {
      ProcessDeathIsHarmless(events[..|events| - 1]);
    }
  }

  /** Nor does anything, if every append is synchronous. */
  lemma {:induction false} SynchronousIsSafe(events: seq<Event>, atRisk: bool)
    requires forall i :: 0 <= i < |events| && events[i].Acknowledged? ==> events[i].durability == SyncOnAppend
    ensures NoneAtRisk(events, atRisk)
  {
    if events != [] {
      SynchronousIsSafe(events[..|events| - 1], true);
      SynchronousIsSafe(events[..|events| - 1], false);
    }
  }

  /** The same after a power failure in the middle of anything: at any moment of a run, between any two of its steps. */
  lemma FailureAnywhere(states: seq<System>, events: seq<Event>, i: nat, f: Option<WalPutRecord>, d: DiskImage)
    returns (log: Log)
    requires Run(states, events) && i <= |events| && LosePower(states[i], f, Stopped(d))
    ensures Explains(events[..i] + [PowerLost(f)], log, false) && Shows(Stopped(d), Fold(log))
  {
    hide Explains, Shows, Fold, Fresh, LosePower;
    RunPrefix(states, events, i);
    var cut, seen := states[..i + 1] + [Stopped(d)], events[..i] + [PowerLost(f)];
    assert Next(states[i], PowerLost(f), Stopped(d));
    RunSnoc(states[..i + 1], events[..i], PowerLost(f), Stopped(d));
    log := DurablePutsSurvive(cut, seen);
  }

  lemma RunSnoc(states: seq<System>, events: seq<Event>, e: Event, s: System)
    requires Run(states, events) && Next(states[|events|], e, s)
    ensures Run(states + [s], events + [e])
  {
    hide Next, Fresh;
  }

  /** An acknowledged put that is not at risk stays until another put to the same point. */
  lemma {:induction false} AcknowledgedStays(events: seq<Event>, log: Log, i: nat, r: WalPutRecord)
    requires Explains(events, log, false) && i < |events|
    requires events[i] == Acknowledged(r, SyncOnAppend)
          || (events[i] == Acknowledged(r, Buffered) && forall j :: i < j < |events| ==> !events[j].PowerLost?)
    requires forall j :: i < j < |events| ==> !Puts(events[j], PointOf(r))
    ensures Lookup(Fold(log), PointOf(r)) == Some(r.sample.value)
  {
    StaysAtRisk(events, log, i, r, false);
  }

  lemma {:induction false} StaysAtRisk(events: seq<Event>, log: Log, i: nat, r: WalPutRecord, atRisk: bool)
    requires Explains(events, log, atRisk) && i < |events|
    requires events[i] == Acknowledged(r, SyncOnAppend)
          || (events[i] == Acknowledged(r, Buffered) && !atRisk && forall j :: i < j < |events| ==> !events[j].PowerLost?)
    requires forall j :: i < j < |events| ==> !Puts(events[j], PointOf(r))
    ensures Lookup(Fold(log), PointOf(r)) == Some(r.sample.value)
    decreases |events|
  {
    hide Fold;
    var n := |events| - 1;
    var init, e := events[..n], events[n];
    if log != [] {
      assert log == log[..|log| - 1] + [log[|log| - 1]];
      FoldSnoc(log[..|log| - 1], log[|log| - 1]);
    }
    if i < n {
      var risk := RiskBefore(e, atRisk);
      if Explains(init, log, risk) {
        StaysAtRisk(init, log, i, r, risk);
      } else {
        StaysAtRisk(init, log[..|log| - 1], i, r, risk);
      }
    }
  }

  /** The event is a put to `p`, finished or in flight. */
  predicate Puts(e: Event, p: Point) {
    PutOf(e).Some? && PointOf(PutOf(e).value) == p
  }

  // ----- both modes: what a power failure may take back -----

  /** Everything is durable after the event: an append may be its own sync, and what survives a failure is safe. */
  predicate MakesDurable(e: Event) {
    e.Synced? || e.PowerLost? || (e.Acknowledged? && e.durability == SyncOnAppend)
  }

  /** Everything before step `i` is durable. */
  predicate SyncPoint(events: seq<Event>, i: nat)
    requires i <= |events|
  {
    i == 0 || MakesDurable(events[i - 1])
  }

  /** Without a power failure the log only grows, by at most one put a step. */
  lemma {:induction false} LogGrows(states: seq<System>, events: seq<Event>, ls: seq<LogState>, i: nat, k: nat)
    requires Follows(states, events, ls) && i <= k <= |events|
    requires forall j :: i <= j < k ==> !events[j].PowerLost?
    ensures ls[i].log <= ls[k].log
    decreases k - i
  {
    hide Related, Publishes;
    if i < k {
      LogGrows(states, events, ls, i, k - 1);
      assert LogNext(ls[k - 1], events[k - 1], ls[k]);
    }
  }

  /** And what was durable stays so. */
  lemma {:induction false} DurableSince(states: seq<System>, events: seq<Event>, ls: seq<LogState>, i: nat, k: nat)
    requires Follows(states, events, ls) && i <= k <= |events| && SyncPoint(events, i)
    requires forall j :: i <= j < k ==> !events[j].PowerLost?
    ensures |ls[i].log| <= ls[k].durable
    decreases k - i
  {
    hide Related, Publishes;
    if i == k {
      assert i > 0 ==> LogNext(ls[i - 1], events[i - 1], ls[i]);
    } else {
      DurableSince(states, events, ls, i, k - 1);
      LogGrows(states, events, ls, i, k - 1);
      assert LogNext(ls[k - 1], events[k - 1], ls[k]);
    }
  }

  /** Every length in between was the log at some moment. */
  lemma {:induction false} Moment(states: seq<System>, events: seq<Event>, ls: seq<LogState>,
                                  i: nat, k: nat, q: nat) returns (n: nat)
    requires Follows(states, events, ls) && i <= k <= |events|
    requires forall j :: i <= j < k ==> !events[j].PowerLost?
    requires ls[i].log <= ls[k].log && |ls[i].log| <= q <= |ls[k].log|
    ensures i <= n <= k && ls[n].log == ls[k].log[..q]
    decreases k - i
  {
    hide Related, Publishes;
    if q == |ls[k].log| {
      n := k;
      assert ls[k].log[..q] == ls[k].log;
    } else {
      assert i < k;
      assert LogNext(ls[k - 1], events[k - 1], ls[k]);
      assert ls[k - 1].log <= ls[k].log && q <= |ls[k - 1].log|;
      PrefixBelow(ls[i].log, ls[k - 1].log, ls[k].log);
      n := Moment(states, events, ls, i, k - 1, q);
    }
  }

  lemma PrefixBelow(a: Log, b: Log, c: Log)
    requires a <= c && b <= c && |a| <= |b|
    ensures a <= b
  {
    assert a == c[..|a|] && b == c[..|b|];
  }

  /**
    In either mode, a power failure leaves each point as a query would have found it at some moment since the last
    sync, or with the value of the put that was in flight: no synced write is lost, and no point falls back behind
    the sync.
   */
  lemma RegressionIsBounded(states: seq<System>, events: seq<Event>, i: nat, k: nat,
                            f: Option<WalPutRecord>, p: Point, c: Contents)
    returns (n: nat, earlier: Contents)
    requires Run(states, events) && i <= k < |events| && SyncPoint(events, i)
    requires forall j :: i <= j < k ==> !events[j].PowerLost?
    requires events[k] == PowerLost(f) && Shows(states[k + 1], c)
    ensures i <= n <= k && Shows(states[n], earlier)
    ensures Lookup(c, p) == Lookup(earlier, p)
         || (f.Some? && PointOf(f.value) == p && Lookup(c, p) == Some(f.value.sample.value))
  {
    hide Run, Related, Publishes, Shows, Survives, Fold;
    var ls := RunFollows(states, events);
    LogGrows(states, events, ls, i, k);
    DurableSince(states, events, ls, i, k);
    RelatedShows(states[k + 1], ls[k + 1]);
    ShowsOne(states[k + 1], c, Fold(ls[k + 1].log));
    assert LogNext(ls[k], events[k], ls[k + 1]);
    var grown :| MaybeMore(ls[k].log, f, grown) && Survives(ls[k].(log := grown), ls[k + 1].log);
    var q := SurvivorPerPoint(ls[k].(log := grown), ls[k + 1].log, p);
    n := k;
    if q <= |ls[k].log| {
      assert grown[..q] == ls[k].log[..q];
      n := Moment(states, events, ls, i, k, q);
    } else {
      assert grown[..q] == ls[k].log + [f.value];
      FoldSnoc(ls[k].log, f.value);
    }
    earlier := Fold(ls[n].log);
    RelatedShows(states[n], ls[n]);
  }
}
