/**
  What a power failure may do to a log of puts, without bytes or disks.

  A `LogState` is every put the database reflects, in order, with how many of them are durable. `Survives` says which
  logs a power failure may leave behind. `Tracks` relates the log to what is stored: the merged segments `base` and
  the records `rs` of a version of the write-ahead log, of which the first `u` have been synced.
 */
module DurableLog {
  import opened Prelude
  import opened Contents
  import opened WalRecord
  import opened Overlay

  type Log = seq<WalPutRecord>

  /** A stretch of the log of puts. */
  datatype Span = Span(start: nat, end: nat)

  /**
    The first `durable` puts are safe. The newest segment may hold more of them, up to `published`, while the log
    records of these are not yet safe. The unsynced records of the present log file are the puts from `start` on;
    `spans` are those of its earlier versions.
   */
  datatype LogState = LogState(log: Log, durable: nat, published: nat, start: nat, spans: seq<Span>)

  function AllSafe(log: Log): LogState {
    LogState(log, |log|, |log|, |log|, [])
  }

  function Current(l: LogState): Span {
    Span(l.start, |l.log|)
  }

  /**
    A prefix that contains everything durable. If it is shorter than what was published, it is followed by those of
    the remaining published puts that do not touch `points`: the segment saved them although their records were lost.
   */
  ghost predicate SurvivesAs(l: LogState, after: Log, j: nat, points: set<Point>) {
    && l.durable <= j <= |l.log| && l.published <= |l.log|
    && after == if j < l.published then l.log[..j] + Without(l.log[j..l.published], points) else l.log[..j]
  }

  ghost predicate Survives(l: LogState, after: Log) {
    exists j: nat, points: set<Point> :: SurvivesAs(l, after, j, points)
  }

  /** How many of the unsynced records the newest segment was published with. */
  function Ahead(span: Span, published: nat): nat {
    if span.start < published then published - span.start else 0
  }

  /**
    The unsynced records are the puts of `span`. The newest segment was published when `published` puts had been
    applied, unless the log file has been emptied or synced since.
   */
  ghost predicate Tracks(base: Contents, rs: Log, u: nat, log: Log, span: Span, published: nat) {
    && u <= |rs| && span.start <= span.end <= |log| && published <= |log|
    && rs[u..] == log[span.start..span.end]
    && Submap(Fold(rs[..u]), Fold(log[..span.start]))
    && (span.start < published ==> base == Fold(log[..published]))
    && (published <= span.end ==>
          base + Fold(rs[..u + Ahead(span, published)]) == Fold(log[..span.start + Ahead(span, published)]))
  }

  lemma TracksMeaning(base: Contents, rs: Log, u: nat, log: Log, span: Span, published: nat)
    requires Tracks(base, rs, u, log, span, published) && span.end == |log|
    ensures base + Fold(rs) == Fold(log)
  {
    hide Fold, Submap;
    var ahead := Ahead(span, published);
    var k, m := u + ahead, span.start + ahead;
    FoldConcat(rs[..k], rs[k..]);
    FoldConcat(log[..m], log[m..]);
    assert log[span.start..span.end] == log[span.start..];
    assert rs == rs[..k] + rs[k..] && log == log[..m] + log[m..];
    assert rs[k..] == rs[u..][ahead..] == log[span.start..][ahead..] == log[m..];
    PlusAssociative(base, Fold(rs[..k]), Fold(rs[k..]));
  }

  lemma PlusAssociative(a: Contents, b: Contents, c: Contents)
    ensures (a + b) + c == a + (b + c)
  {}

  /** A put appended to the present log file. */
  lemma TracksAppend(base: Contents, rs: Log, u: nat, log: Log, span: Span, published: nat, r: WalPutRecord)
    requires Tracks(base, rs, u, log, span, published) && span.end == |log|
    ensures Tracks(base, rs + [r], u, log + [r], Span(span.start, |log| + 1), published)
  {
    hide Fold, Submap;
    var rs', log', ahead := rs + [r], log + [r], Ahead(span, published);
    assert |rs| - u == |log| - span.start;
    assert log'[span.start..|log'|] == log[span.start..span.end] + [r] && rs'[u..] == rs[u..] + [r];
    assert rs'[..u] == rs[..u] && log'[..span.start] == log[..span.start] && log'[..published] == log[..published];
    assert rs'[..u + ahead] == rs[..u + ahead] && log'[..span.start + ahead] == log[..span.start + ahead];
  }

  /** A put that a version of the log file knows nothing of. */
  lemma TracksMore(base: Contents, rs: Log, u: nat, log: Log, span: Span, published: nat, r: WalPutRecord)
    requires Tracks(base, rs, u, log, span, published)
    ensures Tracks(base, rs, u, log + [r], span, published)
  {
    hide Fold, Submap;
    var log', ahead := log + [r], Ahead(span, published);
    assert log'[span.start..span.end] == log[span.start..span.end];
    assert log'[..span.start] == log[..span.start] && log'[..published] == log[..published];
    if published <= span.end {
      assert log'[..span.start + ahead] == log[..span.start + ahead];
    }
  }

  /** A sync makes everything durable. */
  lemma TracksSync(base: Contents, rs: Log, u: nat, log: Log, span: Span, published: nat)
    requires Tracks(base, rs, u, log, span, published) && span.end == |log|
    ensures Tracks(base, rs, |rs|, log, Span(|log|, |log|), |log|)
  {
    TracksMeaning(base, rs, u, log, span, published);
    TracksAll(base, rs, log);
  }

  /** A log file whose records are all synced. */
  lemma TracksAll(base: Contents, rs: Log, log: Log)
    requires base + Fold(rs) == Fold(log)
    ensures Tracks(base, rs, |rs|, log, Span(|log|, |log|), |log|)
  {
    hide Fold;
    assert rs[..|rs|] == rs && log[..|log|] == log && rs[|rs|..] == log[|log|..|log|];
    PlusUpper(base, Fold(rs), Fold(log));
  }

  lemma PlusUpper(a: Contents, b: Contents, c: Contents)
    requires a + b == c
    ensures Submap(b, c)
  {}

  /** Publishing a segment so that the segments hold every put. */
  lemma TracksPublish(base: Contents, rs: Log, u: nat, log: Log, span: Span, published: nat)
    requires Tracks(base, rs, u, log, span, published)
    ensures Tracks(Fold(log), rs, u, log, span, |log|)
  {
    hide Fold, Submap, Ahead;
    Whole(log);
    if |log| <= span.end {
      PublishedAll(rs, u, log, span);
    }
  }

  lemma Whole<T>(s: seq<T>)
    ensures s[..|s|] == s
  {}

  lemma PublishedAll(rs: Log, u: nat, log: Log, span: Span)
    requires u <= |rs| && span.start <= span.end == |log| && rs[u..] == log[span.start..span.end]
    requires Submap(Fold(rs[..u]), Fold(log[..span.start]))
    ensures var ahead := Ahead(span, |log|);
            u + ahead == |rs| && Fold(log) + Fold(rs[..u + ahead]) == Fold(log[..span.start + ahead])
  {
    hide Fold, Submap;
    CutAgrees(rs, u, log, span, |rs|);
    assert |rs[u..]| == |log[span.start..span.end]|;
    Whole(rs);
    Whole(log);
    PlusOwn(Fold(log), Fold(rs));
  }

  lemma PlusOwn(a: Contents, b: Contents)
    requires Submap(b, a)
    ensures a + b == a
  {}

  lemma PlusTwice(a: Contents, b: Contents)
    ensures (a + b) + b == a + b
  {}

  /** Emptying the write-ahead log once the segments hold everything. */
  lemma TracksReset(base: Contents, log: Log, published: nat)
    requires base == Fold(log) && published <= |log|
    ensures Tracks(base, [], 0, log, Span(|log|, |log|), published)
  {
    Whole(log);
    assert [][0..] == log[|log|..|log|];
    NothingTracked(base, log);
  }

  lemma NothingTracked(base: Contents, log: Log)
    ensures Fold([]) == map[] && Submap(map[], Fold(log)) && base + map[] == base
  {}

  /** The prefix of the log that a file with its first `i` records has kept. */
  function KeptUpTo(u: nat, span: Span, i: nat): nat
    requires u <= i
  {
    span.start + (i - u)
  }

  /** A power failure that keeps `i` records of a version leaves a surviving log, all of it durable. */
  lemma TracksCut(base: Contents, rs: Log, u: nat, l: LogState, span: Span, i: nat) returns (after: Log)
    requires Tracks(base, rs, u, l.log, span, l.published) && l.durable <= span.start
    requires u <= i <= |rs|
    ensures Survives(l, after)
    ensures Tracks(base, rs[..i], i, after, Span(|after|, |after|), |after|)
  {
    var log, m := l.log, l.published;
    var j := KeptUpTo(u, span, i);
    assert |rs| - u == span.end - span.start;
    CutAgrees(rs, u, log, span, i);
    if m <= j {
      after := log[..j];
      assert SurvivesAs(l, after, j, {});
      CutPastPublication(base, rs, u, log, span, m, i);
    } else {
      var points := Fold(rs[..i]).Keys;
      after := log[..j] + Without(log[j..m], points);
      assert SurvivesAs(l, after, j, points);
      CutBeforePublication(base, rs, log, i, j, m);
    }
    CutClose(base, rs, i, after);
  }

  lemma CutClose(base: Contents, rs: Log, i: nat, after: Log)
    requires i <= |rs| && base + Fold(rs[..i]) == Fold(after)
    ensures Tracks(base, rs[..i], i, after, Span(|after|, |after|), |after|)
  {
    TracksAll(base, rs[..i], after);
  }

  /** The first `i` records agree with the puts they came from. */
  lemma CutAgrees(rs: Log, u: nat, log: Log, span: Span, i: nat)
    requires u <= i <= |rs| && span.start <= span.end <= |log| && rs[u..] == log[span.start..span.end]
    requires Submap(Fold(rs[..u]), Fold(log[..span.start]))
    ensures KeptUpTo(u, span, i) <= span.end
    ensures Submap(Fold(rs[..i]), Fold(log[..KeptUpTo(u, span, i)]))
  {
    hide Fold;
    var j, stretch := KeptUpTo(u, span, i), log[span.start..span.end];
    assert |rs| - u == span.end - span.start;
    assert rs[..i] == rs[..u] + rs[u..][..i - u] && log[..j] == log[..span.start] + stretch[..i - u];
    FoldConcat(rs[..u], rs[u..][..i - u]);
    FoldConcat(log[..span.start], stretch[..i - u]);
  }

  lemma CutPastPublication(base: Contents, rs: Log, u: nat, log: Log, span: Span, published: nat, i: nat)
    requires Tracks(base, rs, u, log, span, published)
    requires u <= i <= |rs| && published <= KeptUpTo(u, span, i) <= span.end
    ensures base + Fold(rs[..i]) == Fold(log[..KeptUpTo(u, span, i)])
  {
    hide Fold, Submap;
    var ahead := Ahead(span, published);
    var j, k, m := KeptUpTo(u, span, i), u + ahead, span.start + ahead;
    SameStretch(rs, u, log, span, ahead, i - u);
    Joined(rs, k, i);
    Joined(log, m, j);
    FoldConcat(rs[..k], rs[k..i]);
    FoldConcat(log[..m], log[m..j]);
    PlusAssociative(base, Fold(rs[..k]), Fold(rs[k..i]));
  }

  lemma Joined<T>(s: seq<T>, i: nat, j: nat)
    requires i <= j <= |s|
    ensures s[..i] + s[i..j] == s[..j]
  {}

  lemma SameStretch(rs: Log, u: nat, log: Log, span: Span, i: nat, j: nat)
    requires u <= |rs| && span.start <= span.end <= |log| && rs[u..] == log[span.start..span.end]
    requires i <= j && u + j <= |rs|
    ensures span.start + j <= span.end && rs[u + i..u + j] == log[span.start + i..span.start + j]
  {
    assert |rs[u..]| == |log[span.start..span.end]|;
    var a, b := rs[u + i..u + j], log[span.start + i..span.start + j];
    forall k | 0 <= k < j - i
      ensures a[k] == b[k]
    {
      assert rs[u..][i + k] == log[span.start..span.end][i + k];
    }
  }

  lemma CutBeforePublication(base: Contents, rs: Log, log: Log, i: nat, j: nat, m: nat)
    requires i <= |rs| && j <= m <= |log|
    requires base == Fold(log[..m])
    requires Submap(Fold(rs[..i]), Fold(log[..j]))
    ensures base + Fold(rs[..i]) == Fold(log[..j] + Without(log[j..m], Fold(rs[..i]).Keys))
  {
    hide Fold, Without;
    var lost := Fold(rs[..i]);
    assert log[..m] == log[..j] + log[j..m];
    FoldConcat(log[..j], log[j..m]);
    FoldConcat(log[..j], Without(log[j..m], lost.Keys));
    FoldWithout(log[j..m], lost.Keys);
    PlusSubmap(Fold(log[..j]), Fold(log[j..m]), lost);
  }

  lemma PlusSubmap(a: Contents, b: Contents, c: Contents)
    requires Submap(c, a)
    ensures (a + b) + c == a + (b - c.Keys)
  {}

  // ----- what survival means for one point -----

  lemma WithoutOther(s: Log, points: set<Point>, p: Point)
    ensures Lookup(Fold(Without(s, points)), p) == if p in points then None else Lookup(Fold(s), p)
  {
    FoldWithout(s, points);
  }

  /** Each point's surviving value is its value after some prefix that contains everything durable. */
  lemma SurvivorPerPoint(l: LogState, after: Log, p: Point) returns (k: nat)
    requires Survives(l, after)
    ensures l.durable <= k <= |l.log| && Lookup(Fold(after), p) == Lookup(Fold(l.log[..k]), p)
  {
    hide Fold, Without;
    var j: nat, points: set<Point> :| SurvivesAs(l, after, j, points);
    var log, m := l.log, l.published;
    k := j;
    if j < m {
      FoldConcat(log[..j], Without(log[j..m], points));
      WithoutOther(log[j..m], points, p);
      assert log[..m] == log[..j] + log[j..m];
      FoldConcat(log[..j], log[j..m]);
      k := if p in points then j else m;
    }
  }
}
