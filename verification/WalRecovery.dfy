/**
  Replaying a write-ahead log.

  `ParseWal` parses a whole file at once. `ReplayWal` reads it chunk by chunk through a sliding buffer and is proved
  to give the same answer for every file and every way the operating system splits it.
 */
module WalRecovery {
  import opened Prelude
  import opened WalRecord

  const READ_CHUNK_SIZE: nat := 64 * 1024

  /** Records are the ones handed to the callback, in order, also when a corrupt record ends the replay. */
  datatype Replay =
    | Replayed(records: seq<WalPutRecord>, validBytes: nat, tailBytes: nat)
    | Corrupt(records: seq<WalPutRecord>, offset: nat, error: WalDecodeError)

  /** The replay of what follows `bytes` bytes holding `records`. */
  function Prepended(records: seq<WalPutRecord>, bytes: nat, rest: Replay): Replay {
    match rest
    case Replayed(more, valid, tail) => Replayed(records + more, bytes + valid, tail)
    case Corrupt(more, offset, error) => Corrupt(records + more, bytes + offset, error)
  }

  function ParseWal(b: Bytes): Replay {
    match Decode(b)
    case Decoded(r, n) =>
      DecodedSize(b);
      Prepended([r], n, ParseWal(b[n..]))
    case Rejected(e) => if e == IncompleteRecord then Replayed([], 0, |b|) else Corrupt([], 0, e)
  }

  /** Complete valid records and nothing else. */
  predicate Clean(b: Bytes, records: seq<WalPutRecord>) {
    ParseWal(b) == Replayed(records, |b|, 0)
  }

  lemma PrependTwice(x: seq<WalPutRecord>, m: nat, y: seq<WalPutRecord>, n: nat, rest: Replay)
    ensures Prepended(x, m, Prepended(y, n, rest)) == Prepended(x + y, m + n, rest)
  {
    var more := rest.records;
    assert x + (y + more) == x + y + more;
  }

  lemma PrependNothing(rest: Replay)
    ensures Prepended([], 0, rest) == rest
  {}

  lemma CleanEmpty()
    ensures Clean([], [])
  {}

  // ----- what a replay is -----

  /** The records stand one after the other between the offsets `cuts`, and each decodes by itself. */
  ghost predicate FramesBetween(b: Bytes, records: seq<WalPutRecord>, cuts: seq<nat>) {
    && |cuts| == |records| + 1 && cuts[0] == 0
    && forall i :: 0 <= i < |records| ==> FrameBetween(b, cuts[i], cuts[i + 1], records[i])
  }

  predicate FrameBetween(b: Bytes, from: nat, to: nat, r: WalPutRecord) {
    from < to <= |b| && Decode(b[from..]) == Decoded(r, to - from)
  }

  /**
    A replay yields the leading records that decode, one after the other. It stops where decoding first fails: that is
    the end if the rest is incomplete, and corruption at that offset otherwise.
   */
  lemma {:induction false} ReplayFrames(b: Bytes) returns (cuts: seq<nat>)
    ensures FramesBetween(b, ParseWal(b).records, cuts)
    ensures var end := cuts[|cuts| - 1];
            && end <= |b| && Decode(b[end..]).Rejected?
            && ParseWal(b) == match Decode(b[end..]).error
                              case IncompleteRecord => Replayed(ParseWal(b).records, end, |b| - end)
                              case e => Corrupt(ParseWal(b).records, end, e)
  {
    hide Decode, FrameBetween;
    if Decode(b).Rejected? {
      cuts := [0];
      assert b[0..] == b;
      assert FramesBetween(b, [], cuts);
    } else {
      DecodedSize(b);
      var n := Decode(b).bytesConsumed;
      var rest := ReplayFrames(b[n..]);
      cuts := [0] + Shifted(rest, n);
      FramesPrepend(b, ParseWal(b[n..]).records, rest);
      assert b[n..][rest[|rest| - 1]..] == b[cuts[|cuts| - 1]..];
    }
  }

  function Shifted(cuts: seq<nat>, n: nat): (shifted: seq<nat>)
    ensures |shifted| == |cuts|
  {
    seq(|cuts|, i requires 0 <= i < |cuts| => n + cuts[i])
  }

  /** One more frame in front. */
  lemma FramesPrepend(b: Bytes, records: seq<WalPutRecord>, cuts: seq<nat>)
    requires Decode(b).Decoded? && 0 < Decode(b).bytesConsumed <= |b|
    requires FramesBetween(b[Decode(b).bytesConsumed..], records, cuts)
    ensures FramesBetween(b, [Decode(b).record] + records, [0] + Shifted(cuts, Decode(b).bytesConsumed))
  {
    hide Decode;
    var n := Decode(b).bytesConsumed;
    var all, ends := [Decode(b).record] + records, [0] + Shifted(cuts, n);
    assert b[0..] == b;
    forall i | 0 <= i < |all|
      ensures FrameBetween(b, ends[i], ends[i + 1], all[i])
    {
      if i > 0 {
        assert FrameBetween(b[n..], cuts[i - 1], cuts[i], records[i - 1]);
        assert b[n..][cuts[i - 1]..] == b[ends[i]..];
      }
    }
  }

  // ----- replay accounts for every byte, and repair is consistent with it -----

  lemma {:induction false} ReplayAccounts(b: Bytes)
    requires ParseWal(b).Replayed?
    ensures ParseWal(b).validBytes + ParseWal(b).tailBytes == |b|
  {
    hide Decode;
    if Decode(b).Decoded? {
      DecodedSize(b);
      ReplayAccounts(b[Decode(b).bytesConsumed..]);
    }
  }

  /** Bytes that replay cleanly can be followed by anything. */
  lemma {:induction false} ParseAppend(b: Bytes, records: seq<WalPutRecord>, more: Bytes)
    requires Clean(b, records)
    ensures ParseWal(b + more) == Prepended(records, |b|, ParseWal(more))
    decreases |b|
  {
    hide Decode;
    if b == [] {
      CleanEmpty();
      assert b + more == more;
      PrependNothing(ParseWal(more));
    } else {
      EmptyIncomplete(b);
      var n := Decode(b).bytesConsumed;
      var rest := ParseWal(b[n..]);
      DecodedSize(b);
      VerdictStable(b, more);
      assert (b + more)[n..] == b[n..] + more;
      ParseAppend(b[n..], rest.records, more);
      PrependTwice([Decode(b).record], n, rest.records, |b| - n, ParseWal(more));
    }
  }

  lemma EmptyIncomplete(b: Bytes)
    requires ParseWal(b).Replayed? && ParseWal(b).tailBytes == 0 && b != []
    ensures Decode(b).Decoded?
  {
    hide Decode;
  }

  /** Cutting off the reported tail leaves a file that replays to the same records with no tail. */
  lemma {:induction false} RepairedIsClean(b: Bytes)
    requires ParseWal(b).Replayed?
    ensures ParseWal(b).validBytes <= |b|
    ensures Clean(b[..ParseWal(b).validBytes], ParseWal(b).records)
  {
    hide Decode;
    ReplayAccounts(b);
    if Decode(b).Decoded? {
      var n := Decode(b).bytesConsumed;
      var v := ParseWal(b[n..]).validBytes;
      DecodedSize(b);
      RepairedIsClean(b[n..]);
      ReplayAccounts(b[n..]);
      assert b[..n + v] == b[..n] + b[n..][..v];
      FirstRecordClean(b);
      ParseAppend(b[..n], [Decode(b).record], b[n..][..v]);
    } else {
      assert b[..0] == [];
      CleanEmpty();
    }
  }

  lemma FirstRecordClean(b: Bytes)
    requires Decode(b).Decoded?
    ensures Decode(b).bytesConsumed <= |b|
    ensures Clean(b[..Decode(b).bytesConsumed], [Decode(b).record])
  {
    hide Decode;
    DecodedSize(b);
    var n := Decode(b).bytesConsumed;
    var first := b[..n];
    FrameAlone(b);
    assert first[n..] == [];
    CleanEmpty();
  }

  /** One more append adds exactly one record. */
  lemma AppendRecord(b: Bytes, records: seq<WalPutRecord>, r: WalPutRecord)
    requires Clean(b, records) && Encode(r).Success?
    ensures Clean(b + Encode(r).value, records + [r])
  {
    hide Decode, Encode;
    var e := Encode(r).value;
    RoundTrip(r, []);
    assert e + [] == e;
    FirstRecordClean(e);
    assert e[..|e|] == e;
    ParseAppend(b, records, e);
  }

  /** An append torn anywhere adds no record and is reported as the tail. */
  lemma TornAppend(b: Bytes, records: seq<WalPutRecord>, r: WalPutRecord, k: nat)
    requires Clean(b, records) && Encode(r).Success? && k < |Encode(r).value|
    ensures ParseWal(b + Encode(r).value[..k]) == Replayed(records, |b|, k)
  {
    hide Decode, Encode;
    var torn := Encode(r).value[..k];
    TornRecordIncomplete(r, k);
    ParseAppend(b, records, torn);
    assert records + [] == records;
  }

  // ----- the streaming loop -----

  /** A file opened for reading. How many bytes each read returns is up to the operating system. */
  class WalInput {
    const content: Bytes
    var position: nat

    ghost predicate Valid()
      reads this
    {
      position <= |content|
    }

    constructor (content: Bytes)
      ensures Valid() && this.content == content && position == 0
    {
      this.content := content;
      position := 0;
    }

    /** End of file may be noticed together with the last bytes or by an empty read after them. */
    method ReadNextChunk(limit: nat) returns (chunk: Bytes, endOfFile: bool)
      requires Valid() && limit > 0
      modifies this
      ensures Valid() && old(position) <= position <= old(position) + limit
      ensures chunk == content[old(position)..position]
      ensures endOfFile ==> position == |content|
      ensures !endOfFile ==> old(position) < position
    {
      var unread := |content| - position;
      var count: nat :| count <= unread && count <= limit && (count == 0 ==> unread == 0);
      chunk := content[position..position + count];
      position := position + count;
      var noticed: bool := *;
      endOfFile := count == 0 || (position == |content| && noticed);
    }
  }

  method ReplayWal(input: WalInput) returns (result: Replay)
    requires input.Valid() && input.position == 0
    modifies input
    ensures result == ParseWal(input.content)
  {
    hide Decode, ParseWal, Prepended;
    var buffer: Bytes := [];
    var consumed: nat := 0;
    var reachedEnd := false;
    var records: seq<WalPutRecord> := [];
    var validBytes: nat := 0;
    assert input.content[0..] == input.content;
    PrependNothing(ParseWal(input.content));
    while true
      invariant input.Valid() && consumed <= |buffer| && validBytes <= input.position
      invariant buffer[consumed..] == input.content[validBytes..input.position]
      invariant reachedEnd ==> input.position == |input.content|
      invariant ParseWal(input.content) == Prepended(records, validBytes, ParseWal(input.content[validBytes..]))
      decreases |input.content| - validBytes, |input.content| - input.position + (if reachedEnd then 0 else 1)
    {
      ghost var rest := input.content[validBytes..];
      if consumed < |buffer| {
        var available := buffer[consumed..];
        var decoded := DecodeWalRecord(available);
        ghost var unread := input.content[input.position..];
        assert available + unread == rest;
        if decoded.Decoded? {
          DecodedSize(available);
          VerdictStable(available, unread);
          StepRecord(records, validBytes, rest);
          assert rest[decoded.bytesConsumed..] == input.content[validBytes + decoded.bytesConsumed..];
          assert available[decoded.bytesConsumed..] == buffer[consumed + decoded.bytesConsumed..];
          records := records + [decoded.record];
          consumed := consumed + decoded.bytesConsumed;
          validBytes := validBytes + decoded.bytesConsumed;
          if consumed == |buffer| {
            buffer := [];
            consumed := 0;
          }
          continue;
        }
        if decoded.error != IncompleteRecord {
          VerdictStable(available, unread);
          StopAt(records, validBytes, rest);
          return Corrupt(records, validBytes, decoded.error);
        }
        if reachedEnd {
          assert available == rest;
          StopAt(records, validBytes, rest);
          return Replayed(records, validBytes, |buffer| - consumed);
        }
      } else if reachedEnd {
        assert rest == [];
        StopAtEnd(records, validBytes);
        return Replayed(records, validBytes, 0);
      }
      buffer := buffer[consumed..];
      consumed := 0;
      var chunk, endOfFile := input.ReadNextChunk(READ_CHUNK_SIZE);
      buffer := buffer + chunk;
      reachedEnd := endOfFile;
    }
  }

  lemma StepRecord(records: seq<WalPutRecord>, bytes: nat, rest: Bytes)
    requires Decode(rest).Decoded?
    ensures Decode(rest).bytesConsumed <= |rest|
    ensures Prepended(records, bytes, ParseWal(rest))
         == Prepended(records + [Decode(rest).record], bytes + Decode(rest).bytesConsumed,
                  ParseWal(rest[Decode(rest).bytesConsumed..]))
  {
    DecodedSize(rest);
    hide Decode;
    var n := Decode(rest).bytesConsumed;
    PrependTwice(records, bytes, [Decode(rest).record], n, ParseWal(rest[n..]));
  }

  lemma StopAt(records: seq<WalPutRecord>, bytes: nat, rest: Bytes)
    requires Decode(rest).Rejected?
    ensures Prepended(records, bytes, ParseWal(rest)) ==
            if Decode(rest).error == IncompleteRecord then Replayed(records, bytes, |rest|)
            else Corrupt(records, bytes, Decode(rest).error)
  {
    hide Decode;
    assert records + [] == records;
  }

  lemma StopAtEnd(records: seq<WalPutRecord>, bytes: nat)
    ensures Prepended(records, bytes, ParseWal([])) == Replayed(records, bytes, 0)
  {
    assert records + [] == records;
  }
}
