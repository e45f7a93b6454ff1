/**
  Length-prefixed strings and series keys, the part of the layout that WAL records, segment blocks, segment indexes
  and manifests share.

  `Enc...` functions are the bytes written; `Parse...` functions are what the readers accept at a position. Each pair
  is connected in both directions: parsing what was written returns it, and what parses is what would be written.
 */
module KeyCodec {
  import opened Prelude
  import opened Model
  import opened ByteCodec

  datatype Parsed<+T> = Parsed(value: T, next: nat)

  /** The bytes `x` stand in `b` at `pos`. */
  predicate At(b: Bytes, pos: nat, x: Bytes) {
    pos + |x| <= |b| && b[pos..pos + |x|] == x
  }

  lemma AtConcat(b: Bytes, pos: nat, x: Bytes, y: Bytes)
    ensures At(b, pos, x + y) <==> At(b, pos, x) && At(b, pos + |x|, y)
  {
    if At(b, pos, x + y) {
      var whole := b[pos..pos + |x + y|];
      assert b[pos..pos + |x|] == whole[..|x|];
      assert b[pos + |x|..pos + |x| + |y|] == whole[|x|..];
    }
    if At(b, pos, x) && At(b, pos + |x|, y) {
      assert b[pos..pos + |x + y|] == b[pos..pos + |x|] + b[pos + |x|..pos + |x| + |y|];
    }
  }

  lemma AtWhole(b: Bytes)
    ensures At(b, 0, b)
  {}

  // ----- integers -----

  function ParseInt(b: Bytes, pos: nat, width: nat): Option<Parsed<nat>> {
    if pos + width <= |b| then Some(Parsed(FromLE(b[pos..pos + width]), pos + width)) else None
  }

  lemma ParseIntEnc(b: Bytes, pos: nat, n: nat, width: nat)
    requires At(b, pos, LE(n, width))
    requires n < Pow256(width)
    ensures ParseInt(b, pos, width) == Some(Parsed(n, pos + width))
  {
    LERoundTrip(n, width);
  }

  lemma ParseIntCanonical(b: Bytes, pos: nat, width: nat)
    requires ParseInt(b, pos, width).Some?
    ensures At(b, pos, LE(ParseInt(b, pos, width).value.value, width))
    ensures ParseInt(b, pos, width).value.value < Pow256(width)
  {
    hide LE;
    LECanonical(b[pos..pos + width]);
  }

  // ----- strings -----

  function EncString(s: Bytes): Bytes {
    LE(|s|, 4) + s
  }

  function ParseString(b: Bytes, pos: nat): Option<Parsed<Bytes>> {
    match ParseInt(b, pos, 4)
    case None => None
    case Some(n) =>
      if n.value > |b| - n.next then None
      else Some(Parsed(b[n.next..n.next + n.value], n.next + n.value))
  }

  lemma ParseStringEnc(b: Bytes, pos: nat, s: Bytes)
    requires |s| <= U32_MAX && At(b, pos, EncString(s))
    ensures ParseString(b, pos) == Some(Parsed(s, pos + |EncString(s)|))
  {
    AtConcat(b, pos, LE(|s|, 4), s);
    Pow256Values();
    ParseIntEnc(b, pos, |s|, 4);
  }

  lemma ParseStringCanonical(b: Bytes, pos: nat)
    requires ParseString(b, pos).Some?
    ensures var p := ParseString(b, pos).value;
            |p.value| <= U32_MAX && At(b, pos, EncString(p.value)) && p.next == pos + |EncString(p.value)|
  {
    Pow256Values();
    var p := ParseString(b, pos).value;
    ParseIntCanonical(b, pos, 4);
    AtConcat(b, pos, LE(|p.value|, 4), p.value);
  }

  method WriteString(writer: ByteWriter, s: Bytes) returns (ok: bool)
    modifies writer
    ensures ok <==> |s| <= U32_MAX
    ensures ok ==> writer.data == old(writer.data) + EncString(s)
  {
    if |s| > U32_MAX {
      return false;
    }
    writer.WriteU32(|s|);
    ghost var prefixed := writer.data;
    for i := 0 to |s|
      invariant writer.data == prefixed + s[..i]
    {
      Pow256Values();
      writer.WriteU8(s[i]);
      assert LE(s[i], 1) == [s[i]];
    }
    assert s[..|s|] == s;
    ok := true;
  }

  method ReadString(reader: ByteReader) returns (s: Option<Bytes>)
    requires reader.Valid()
    modifies reader
    ensures reader.Valid()
    ensures match ParseString(reader.data, old(reader.position))
            case None => s.None?
            case Some(p) => s == Some(p.value) && reader.position == p.next
  {
    var length := reader.ReadU32();
    if length.None? || length.value > reader.Remaining() {
      return None;
    }
    ghost var start := reader.position;
    var decoded: Bytes := [];
    for index := 0 to length.value
      invariant reader.position == start + index
      invariant reader.Valid() && start + length.value <= |reader.data|
      invariant decoded == reader.data[start..start + index]
    {
      var byte := reader.ReadU8();
      decoded := decoded + [byte.value];
    }
    s := Some(decoded);
  }

  // ----- tags -----

  lemma Regroup<T>(before: seq<T>, x: T, after: seq<T>)
    ensures before + [x] + after == before + ([x] + after)
    ensures ([x] + after)[1..] == after
  {}

  function EncTag(t: Tag): Bytes {
    EncString(t.key) + EncString(t.value)
  }

  function EncTags(tags: seq<Tag>): Bytes {
    if tags == [] then [] else EncTag(tags[0]) + EncTags(tags[1..])
  }

  predicate TagFits(t: Tag) {
    |t.key| <= U32_MAX && |t.value| <= U32_MAX
  }

  predicate TagsFit(tags: seq<Tag>) {
    forall i :: 0 <= i < |tags| ==> TagFits(tags[i])
  }

  /** One key and value; an empty key is refused by the Tag constructor. */
  function ParseTag(b: Bytes, pos: nat): Option<Parsed<Tag>> {
    match ParseString(b, pos)
    case None => None
    case Some(k) =>
      match ParseString(b, k.next)
      case None => None
      case Some(v) => if k.value == [] then None else Some(Parsed(Tag(k.value, v.value), v.next))
  }

  lemma ParseTagEnc(b: Bytes, pos: nat, t: Tag)
    requires TagFits(t) && At(b, pos, EncTag(t))
    ensures ParseTag(b, pos) == Some(Parsed(t, pos + |EncTag(t)|))
  {
    AtConcat(b, pos, EncString(t.key), EncString(t.value));
    ParseStringEnc(b, pos, t.key);
    ParseStringEnc(b, pos + |EncString(t.key)|, t.value);
  }

  lemma ParseTagCanonical(b: Bytes, pos: nat)
    requires ParseTag(b, pos).Some?
    ensures var p := ParseTag(b, pos).value;
            TagFits(p.value) && At(b, pos, EncTag(p.value)) && p.next == pos + |EncTag(p.value)|
  {
    var t := ParseTag(b, pos).value.value;
    ParseStringCanonical(b, pos);
    ParseStringCanonical(b, ParseString(b, pos).value.next);
    AtConcat(b, pos, EncString(t.key), EncString(t.value));
  }

  /**
    The decoders of segment files insist that each key lies above the one before it; the WAL decoder does not.
    No key is empty, so an empty `last` stands for the start of the list.
   */
  predicate MayFollow(last: Bytes, t: Tag, ordered: bool) {
    ordered && last != [] ==> StringLess(last, t.key)
  }

  function ParseTags(b: Bytes, pos: nat, count: nat, last: Bytes, ordered: bool): Option<Parsed<seq<Tag>>>
    decreases count
  {
    if count == 0 then Some(Parsed([], pos))
    else
      match ParseTag(b, pos)
      case None => None
      case Some(t) =>
        if !MayFollow(last, t.value, ordered) then None
        else
          match ParseTags(b, t.next, count - 1, t.value.key, ordered)
          case None => None
          case Some(rest) => Some(Parsed([t.value] + rest.value, rest.next))
  }

  /** The order check, tag by tag. */
  predicate Chained(last: Bytes, tags: seq<Tag>, ordered: bool)
    decreases |tags|
  {
    tags == [] || (MayFollow(last, tags[0], ordered) && Chained(tags[0].key, tags[1..], ordered))
  }

  lemma {:induction false} ChainedIsAdjacent(last: Bytes, tags: seq<Tag>, ordered: bool)
    ensures Chained(last, tags, ordered) <==>
            (ordered ==>
               && (tags != [] && last != [] ==> StringLess(last, tags[0].key))
               && forall i :: 0 < i < |tags| ==> StringLess(tags[i - 1].key, tags[i].key))
    decreases |tags|
  {
    if tags != [] {
      var rest := tags[1..];
      ChainedIsAdjacent(tags[0].key, rest, ordered);
      if ordered && Chained(last, tags, ordered) {
        forall i | 0 < i < |tags|
          ensures StringLess(tags[i - 1].key, tags[i].key)
        {
          assert tags[i] == rest[i - 1];
          assert i > 1 ==> tags[i - 1] == rest[i - 2];
        }
      }
      if ordered && !Chained(last, tags, ordered) && MayFollow(last, tags[0], ordered) {
        assert rest != [] ==> rest[0] == tags[1];
        assert forall i :: 0 < i < |rest| ==> rest[i - 1] == tags[i] && rest[i] == tags[i + 1];
      }
    }
  }

  lemma ChainedIsStrict(tags: seq<Tag>)
    ensures Chained([], tags, true) <==> StrictTags(tags)
    ensures Chained([], tags, false)
  {
    ChainedIsAdjacent([], tags, true);
    ChainedIsAdjacent([], tags, false);
    if Chained([], tags, true) {
      StrictFromAdjacent(tags);
    }
  }

  lemma {:induction false} ParseTagsEnc(b: Bytes, pos: nat, tags: seq<Tag>, last: Bytes, ordered: bool)
    requires TagsFit(tags) && At(b, pos, EncTags(tags))
    requires Chained(last, tags, ordered)
    ensures ParseTags(b, pos, |tags|, last, ordered) == Some(Parsed(tags, pos + |EncTags(tags)|))
    decreases |tags|
  {
    hide At, EncTag, EncString, ParseTag, TagFits, MayFollow;
    if tags != [] {
      var t, rest := tags[0], tags[1..];
      AtConcat(b, pos, EncTag(t), EncTags(rest));
      ParseTagEnc(b, pos, t);
      ParseTagsEnc(b, pos + |EncTag(t)|, rest, t.key, ordered);
      assert tags == [t] + rest;
    }
  }

  lemma {:induction false} ParseTagsCanonical(b: Bytes, pos: nat, count: nat, last: Bytes, ordered: bool)
    requires pos <= |b|
    requires ParseTags(b, pos, count, last, ordered).Some?
    ensures var p := ParseTags(b, pos, count, last, ordered).value;
            && |p.value| == count && TagsFit(p.value) && Chained(last, p.value, ordered)
            && At(b, pos, EncTags(p.value)) && p.next == pos + |EncTags(p.value)|
    decreases count
  {
    hide EncTag, EncString, ParseTag, MayFollow, TagFits;
    if count > 0 {
      hide At;
      var t := ParseTag(b, pos).value;
      ParseTagCanonical(b, pos);
      AtBound(b, pos, EncTag(t.value));
      ParseTagsCanonical(b, t.next, count - 1, t.value.key, ordered);
      var tags := ParseTags(b, pos, count, last, ordered).value.value;
      assert tags[0] == t.value && tags[1..] == ParseTags(b, t.next, count - 1, t.value.key, ordered).value.value;
      AtConcat(b, pos, EncTag(t.value), EncTags(tags[1..]));
    }
  }

  lemma AtBound(b: Bytes, pos: nat, x: Bytes)
    requires At(b, pos, x)
    ensures pos + |x| <= |b|
  {}

  method ReadTag(reader: ByteReader) returns (t: Option<Tag>)
    requires reader.Valid()
    modifies reader
    ensures reader.Valid()
    ensures match ParseTag(reader.data, old(reader.position))
            case None => t.None?
            case Some(p) => t == Some(p.value) && reader.position == p.next
  {
    var key := ReadString(reader);
    if key.None? {
      return None;
    }
    var value := ReadString(reader);
    if value.None? || key.value == [] {
      return None;
    }
    t := Some(Tag(key.value, value.value));
  }

  // ----- series keys -----

  function EncKey(k: RawSeriesKey): Bytes {
    EncString(k.measurement) + LE(|k.tags|, 4) + EncTags(k.tags)
  }

  predicate KeyFits(k: RawSeriesKey) {
    |k.measurement| <= U32_MAX && |k.tags| <= U32_MAX && TagsFit(k.tags)
  }

  const MINIMUM_ENCODED_TAG_SIZE: nat := 8

  /**
    A measurement and its tags as they stand in the bytes. With `ordered`, the decoders of segment files also refuse
    a tag count for which there is no room before the last `reserve` bytes.
   */
  function ParseRawKey(b: Bytes, pos: nat, ordered: bool, reserve: nat): Option<Parsed<RawSeriesKey>> {
    match ParseString(b, pos)
    case None => None
    case Some(m) =>
      match ParseInt(b, m.next, 4)
      case None => None
      case Some(n) =>
        var remaining := |b| - n.next;
        if ordered && (reserve > remaining || n.value > (remaining - reserve) / MINIMUM_ENCODED_TAG_SIZE) then None
        else
          match ParseTags(b, n.next, n.value, [], ordered)
          case None => None
          case Some(tags) => Some(Parsed(SeriesKey(m.value, tags.value), tags.next))
  }

  lemma {:induction false} EncTagsLength(tags: seq<Tag>)
    ensures |EncTags(tags)| >= MINIMUM_ENCODED_TAG_SIZE * |tags|
  {
    if tags != [] {
      EncTagsLength(tags[1..]);
    }
  }

  lemma ParseRawKeyEnc(b: Bytes, pos: nat, k: RawSeriesKey, ordered: bool, reserve: nat)
    requires ordered ==> StrictTags(k.tags)
    requires KeyFits(k) && At(b, pos, EncKey(k)) && pos + |EncKey(k)| + reserve <= |b|
    ensures ParseRawKey(b, pos, ordered, reserve) == Some(Parsed(k, pos + |EncKey(k)|))
  {
    hide At, EncString, ParseString, ParseInt;
    var head := EncString(k.measurement);
    AtConcat(b, pos, head + LE(|k.tags|, 4), EncTags(k.tags));
    AtConcat(b, pos, head, LE(|k.tags|, 4));
    ParseStringEnc(b, pos, k.measurement);
    Pow256Values();
    ParseIntEnc(b, pos + |head|, |k.tags|, 4);
    EncTagsLength(k.tags);
    ChainedIsStrict(k.tags);
    ParseTagsEnc(b, pos + |head| + 4, k.tags, [], ordered);
  }

  lemma ParseRawKeyCanonical(b: Bytes, pos: nat, ordered: bool, reserve: nat)
    requires ParseRawKey(b, pos, ordered, reserve).Some?
    ensures var p := ParseRawKey(b, pos, ordered, reserve).value;
            && KeyFits(p.value) && At(b, pos, EncKey(p.value)) && p.next == pos + |EncKey(p.value)|
            && (ordered ==> StrictTags(p.value.tags))
  {
    hide At, EncString, ParseString, ParseInt, StrictTags;
    var m := ParseString(b, pos).value;
    var n := ParseInt(b, m.next, 4).value;
    var head, middle := EncString(m.value), LE(n.value, 4);
    ParseStringCanonical(b, pos);
    ParseIntCanonical(b, m.next, 4);
    Pow256Values();
    AtConcat(b, pos, head, middle);
    AtBound(b, pos, head + middle);
    var nextIs: nat := n.next;
    assert n.next == pos + |head + middle| by {
      IntNext(b, m.next, 4);
    }
    ParseTagsCanonical(b, n.next, n.value, [], ordered);
    var tags := ParseTags(b, n.next, n.value, [], ordered).value.value;
    AtConcat(b, pos, head + middle, EncTags(tags));
    ChainedIsStrict(tags);
  }

  lemma IntNext(b: Bytes, pos: nat, width: nat)
    requires ParseInt(b, pos, width).Some?
    ensures ParseInt(b, pos, width).value.next == pos + width
  {}

  method WriteTag(writer: ByteWriter, t: Tag) returns (ok: bool)
    modifies writer
    ensures ok <==> TagFits(t)
    ensures ok ==> writer.data == old(writer.data) + EncTag(t)
  {
    ok := WriteString(writer, t.key);
    if ok {
      ok := WriteString(writer, t.value);
      if ok {
        assert old(writer.data) + EncString(t.key) + EncString(t.value) == old(writer.data) + EncTag(t);
      }
    }
  }

  method WriteTags(writer: ByteWriter, tags: seq<Tag>) returns (ok: bool)
    modifies writer
    ensures ok <==> TagsFit(tags)
    ensures ok ==> writer.data == old(writer.data) + EncTags(tags)
  {
    for i := 0 to |tags|
      invariant forall j :: 0 <= j < i ==> TagFits(tags[j])
      invariant writer.data + EncTags(tags[i..]) == old(writer.data) + EncTags(tags)
    {
      hide EncTag, TagFits;
      Regroup(tags[..i], tags[i], tags[i + 1..]);
      assert tags[i..] == [tags[i]] + tags[i + 1..];
      ghost var before := writer.data;
      ok := WriteTag(writer, tags[i]);
      if !ok {
        return;
      }
      assert before + (EncTag(tags[i]) + EncTags(tags[i + 1..])) == writer.data + EncTags(tags[i + 1..]);
    }
    assert tags[|tags|..] == [];
    ok := true;
  }

  method WriteKey(writer: ByteWriter, k: SeriesKey) returns (ok: bool)
    modifies writer
    ensures ok <==> KeyFits(k)
    ensures ok ==> writer.data == old(writer.data) + EncKey(k)
  {
    hide LE, EncString, EncTags, TagsFit, CanonicalKey;
    ok := WriteString(writer, k.measurement);
    if !ok || |k.tags| > U32_MAX {
      return false;
    }
    writer.WriteU32(|k.tags|);
    ok := WriteTags(writer, k.tags);
    if ok {
      assert old(writer.data) + EncString(k.measurement) + LE(|k.tags|, 4) + EncTags(k.tags)
          == old(writer.data) + EncKey(k);
    }
  }

  lemma NoTags(b: Bytes, pos: nat, last: Bytes, ordered: bool)
    ensures ParseTags(b, pos, 0, last, ordered) == Some(Parsed([], pos))
  {}

  lemma NextTag(b: Bytes, pos: nat, count: nat, last: Bytes, ordered: bool)
    requires count > 0
    ensures ParseTags(b, pos, count, last, ordered)
         == match ParseTag(b, pos)
            case None => None
            case Some(t) =>
              if !MayFollow(last, t.value, ordered) then None
              else
                match ParseTags(b, t.next, count - 1, t.value.key, ordered)
                case None => None
                case Some(rest) => Some(Parsed([t.value] + rest.value, rest.next))
  {}

  method ReadTags(reader: ByteReader, count: nat, ordered: bool) returns (r: Option<seq<Tag>>)
    requires reader.Valid()
    modifies reader
    ensures reader.Valid()
    ensures match ParseTags(reader.data, old(reader.position), count, [], ordered)
            case None => r.None?
            case Some(p) => r == Some(p.value) && reader.position == p.next
  {
    hide ParseTags, ParseTag, MayFollow;
    var tags: seq<Tag> := [];
    var last: Bytes := [];
    ghost var all := ParseTags(reader.data, reader.position, count, [], ordered);
    if all.Some? {
      assert [] + all.value.value == all.value.value;
    }
    for index := 0 to count
      invariant reader.Valid()
      invariant match ParseTags(reader.data, reader.position, count - index, last, ordered)
                case None => all.None?
                case Some(p) => all == Some(Parsed(tags + p.value, p.next))
    {
      NextTag(reader.data, reader.position, count - index, last, ordered);
      var t := ReadTag(reader);
      if t.None? || !MayFollow(last, t.value, ordered) {
        return None;
      }
      ghost var rest := ParseTags(reader.data, reader.position, count - index - 1, t.value.key, ordered);
      if rest.Some? {
        Regroup(tags, t.value, rest.value.value);
      }
      tags := tags + [t.value];
      last := t.value.key;
    }
    NoTags(reader.data, reader.position, last, ordered);
    assert tags + [] == tags;
    r := Some(tags);
  }

  method ReadRawKey(reader: ByteReader, ordered: bool, reserve: nat) returns (k: Option<RawSeriesKey>)
    requires reader.Valid()
    modifies reader
    ensures reader.Valid()
    ensures match ParseRawKey(reader.data, old(reader.position), ordered, reserve)
            case None => k.None?
            case Some(p) => k == Some(p.value) && reader.position == p.next
  {
    hide ParseString, ParseTags;
    var measurement := ReadString(reader);
    if measurement.None? {
      return None;
    }
    var tagCount := reader.ReadU32();
    if tagCount.None? {
      return None;
    }
    var remaining := reader.Remaining();
    if ordered && (reserve > remaining || tagCount.value > (remaining - reserve) / MINIMUM_ENCODED_TAG_SIZE) {
      return None;
    }
    var tags := ReadTags(reader, tagCount.value, ordered);
    if tags.None? {
      return None;
    }
    k := Some(SeriesKey(measurement.value, tags.value));
  }

  /** A key whose encoding is small has only short strings. */
  lemma SmallKeyFits(k: RawSeriesKey)
    requires |EncKey(k)| <= U32_MAX
    ensures KeyFits(k)
  {
    EncTagsLength(k.tags);
    SmallTagsFit(k.tags);
  }

  lemma {:induction false} SmallTagsFit(tags: seq<Tag>)
    requires |EncTags(tags)| <= U32_MAX
    ensures TagsFit(tags)
  {
    if tags != [] {
      SmallTagsFit(tags[1..]);
      assert tags == [tags[0]] + tags[1..];
    }
  }

  lemma AtEverything(b: Bytes, x: Bytes)
    requires At(b, 0, x) && |x| == |b|
    ensures b == x
  {}

  // ----- samples -----

  const ENCODED_SAMPLE_SIZE: nat := 16

  function EncSample(s: Sample): (b: Bytes)
    ensures |b| == ENCODED_SAMPLE_SIZE
  {
    LE(ToBits(s.timestamp), 8) + LE(s.value, 8)
  }

  function ParseSample(b: Bytes, pos: nat): Option<Parsed<Sample>> {
    match ParseInt(b, pos, 8)
    case None => None
    case Some(t) =>
      match ParseInt(b, t.next, 8)
      case None => None
      case Some(v) =>
        if t.value > U64_MAX || v.value > U64_MAX then None
        else if !Finite(v.value) then None
        else Some(Parsed(Sample(FromBits(t.value), v.value), v.next))
  }

  lemma ParseSampleEnc(b: Bytes, pos: nat, s: Sample)
    requires At(b, pos, EncSample(s))
    ensures ParseSample(b, pos) == Some(Parsed(s, pos + ENCODED_SAMPLE_SIZE))
  {
    hide At, LE, ParseInt;
    AtConcat(b, pos, LE(ToBits(s.timestamp), 8), LE(s.value, 8));
    Pow256Values();
    ParseIntEnc(b, pos, ToBits(s.timestamp), 8);
    ParseIntEnc(b, pos + 8, s.value, 8);
    BitCastRoundTrip(s.timestamp, s.value);
  }

  lemma ParseSampleCanonical(b: Bytes, pos: nat)
    requires ParseSample(b, pos).Some?
    ensures var p := ParseSample(b, pos).value;
            At(b, pos, EncSample(p.value)) && p.next == pos + ENCODED_SAMPLE_SIZE
  {
    hide At, LE, ParseInt;
    var t := ParseInt(b, pos, 8).value;
    ParseIntCanonical(b, pos, 8);
    ParseIntCanonical(b, t.next, 8);
    IntNext(b, pos, 8);
    IntNext(b, t.next, 8);
    BitCastRoundTrip(0, t.value);
    AtConcat(b, pos, LE(t.value, 8), LE(ParseInt(b, t.next, 8).value.value, 8));
  }

  method WriteSample(writer: ByteWriter, s: Sample)
    modifies writer
    ensures writer.data == old(writer.data) + EncSample(s)
  {
    hide LE;
    writer.WriteU64(ToBits(s.timestamp));
    writer.WriteU64(s.value);
    ghost var start, t, v := old(writer.data), LE(ToBits(s.timestamp), 8), LE(s.value, 8);
    assert start + t + v == start + (t + v);
  }

  method ReadSample(reader: ByteReader) returns (s: Option<Sample>)
    requires reader.Valid()
    modifies reader
    ensures reader.Valid()
    ensures match ParseSample(reader.data, old(reader.position))
            case None => s.None?
            case Some(p) => s == Some(p.value) && reader.position == p.next
  {
    hide FromLE;
    Pow256Values();
    var timestampBits := reader.ReadU64();
    if timestampBits.None? {
      return None;
    }
    var valueBits := reader.ReadU64();
    if valueBits.None? || !Finite(valueBits.value) {
      return None;
    }
    s := Some(Sample(FromBits(timestampBits.value), valueBits.value));
  }
}
