/**
  The layout tables of docs/file-formats.md, as facts about single bytes.

  Numbers are read here by their byte sums (`Number2`, `Number4`, `Number8`), magics are spelled, and every offset,
  width and limit is a literal, so that nothing depends on how the encoders and decoders are put together.
 */
module FormatTables {
  import opened Prelude
  import opened Model
  import opened ByteCodec
  import opened KeyCodec
  import opened Crc32c
  import opened Sealing
  import W = WalRecord
  import B = SegmentBlocks
  import F = SegmentFormat
  import R = SegmentReaders
  import opened SegmentNames
  import M = Manifest

  // ----- integers -----

  function Number2(b: seq<int>, at: nat): int
    requires at + 2 <= |b|
  {
    b[at] + 0x100 * b[at + 1]
  }

  function Number4(b: seq<int>, at: nat): int
    requires at + 4 <= |b|
  {
    b[at] + 0x100 * b[at + 1] + 0x1_0000 * b[at + 2] + 0x100_0000 * b[at + 3]
  }

  function Number8(b: seq<int>, at: nat): int
    requires at + 8 <= |b|
  {
    Number4(b, at) + 0x1_0000_0000 * Number4(b, at + 4)
  }

  lemma SplitStep(first: nat, rest: nat, p: nat, n: nat)
    ensures first + 256 * (rest + p * n) == first + 256 * rest + 256 * p * n
  {
    assert 256 * (p * n) == 256 * p * n;
  }

  /** The bytes after the first `|x|` count that many places more. */
  lemma {:induction false} FromLESplit(x: Bytes, y: Bytes)
    ensures FromLE(x + y) == FromLE(x) + Pow256(|x|) * FromLE(y)
  {
    if x == [] {
      assert x + y == y;
    } else {
      var p := Pow256(|x| - 1);
      assert Pow256(|x|) == 256 * p && FromLE(x) == x[0] + 256 * FromLE(x[1..]);
      assert FromLE(x + y) == x[0] + 256 * FromLE(x[1..] + y) by {
        assert (x + y)[1..] == x[1..] + y;
      }
      hide FromLE, Pow256;
      FromLESplit(x[1..], y);
      SplitStep(x[0], FromLE(x[1..]), p, FromLE(y));
    }
  }

  lemma ReadsTwo(b: Bytes, at: nat)
    requires at + 2 <= |b|
    ensures FromLE(b[at..at + 2]) == Number2(b, at)
  {
    var x, y := b[at..at + 1], b[at + 1..at + 2];
    assert b[at..at + 2] == x + y && x == [b[at]] && y == [b[at + 1]];
    FromLESplit(x, y);
    Pow256Values();
  }

  lemma ReadsFour(b: Bytes, at: nat)
    requires at + 4 <= |b|
    ensures FromLE(b[at..at + 4]) == Number4(b, at)
  {
    hide FromLE;
    assert b[at..at + 4] == b[at..at + 2] + b[at + 2..at + 4];
    FromLESplit(b[at..at + 2], b[at + 2..at + 4]);
    ReadsTwo(b, at);
    ReadsTwo(b, at + 2);
    Pow256Values();
  }

  lemma ReadsEight(b: Bytes, at: nat)
    requires at + 8 <= |b|
    ensures FromLE(b[at..at + 8]) == Number8(b, at)
  {
    hide FromLE;
    assert b[at..at + 8] == b[at..at + 4] + b[at + 4..at + 8];
    FromLESplit(b[at..at + 4], b[at + 4..at + 8]);
    ReadsFour(b, at);
    ReadsFour(b, at + 4);
    Pow256Values();
  }

  /** What the writer puts down for a number of two, four or eight bytes. */
  lemma IntegerTable(n: nat)
    ensures n < 0x1_0000 ==> Number2(LE(n, 2), 0) == n
    ensures n < 0x1_0000_0000 ==> Number4(LE(n, 4), 0) == n
    ensures n < 0x1_0000_0000_0000_0000 ==> Number8(LE(n, 8), 0) == n
  {
    hide LE, FromLE;
    LEFits(n);
    ReadsTwo(LE(n, 2), 0);
    ReadsFour(LE(n, 4), 0);
    ReadsEight(LE(n, 8), 0);
    assert LE(n, 2)[0..2] == LE(n, 2) && LE(n, 4)[0..4] == LE(n, 4) && LE(n, 8)[0..8] == LE(n, 8);
  }

  lemma Number4At(b: Bytes, at: nat, n: nat)
    requires At(b, at, LE(n, 4)) && n < 0x1_0000_0000
    ensures at + 4 <= |b| && Number4(b, at) == n
  {
    hide LE, FromLE;
    LEFits(n);
    ReadsFour(b, at);
  }

  lemma Number8At(b: Bytes, at: nat, n: nat)
    requires At(b, at, LE(n, 8)) && n < 0x1_0000_0000_0000_0000
    ensures at + 8 <= |b| && Number8(b, at) == n
  {
    hide LE, FromLE;
    LEFits(n);
    ReadsEight(b, at);
  }

  /** Four given bytes stand at `at` just when the number there is theirs. */
  lemma MagicAt(b: Bytes, at: nat, magic: Bytes)
    requires at + 4 <= |b| && |magic| == 4
    ensures b[at..at + 4] == magic <==> FromLE(b[at..at + 4]) == Number4(magic, 0)
  {
    hide FromLE;
    ReadsFour(b, at);
    ReadsFour(magic, 0);
    assert magic[0..4] == magic;
    if FromLE(b[at..at + 4]) == Number4(magic, 0) {
      FromLEInjective(b[at..at + 4], magic);
    }
  }

  // ----- strings, keys and samples -----

  /** A string: its length in four bytes, then its bytes, up to `end`. */
  predicate StringAt(b: Bytes, at: nat, s: Bytes, end: nat) {
    end == at + 4 + |s| && end <= |b| && Number4(b, at) == |s| && b[at + 4..end] == s
  }

  ghost predicate TagsAt(b: Bytes, at: nat, tags: seq<Tag>, end: nat)
    decreases |tags|
  {
    if tags == [] then end == at
    else
      var middle := at + 4 + |tags[0].key|;
      var next := middle + 4 + |tags[0].value|;
      && StringAt(b, at, tags[0].key, middle) && StringAt(b, middle, tags[0].value, next)
      && TagsAt(b, next, tags[1..], end)
  }

  /** A series key: the measurement, the number of tags, the tags. */
  ghost predicate KeyAt(b: Bytes, at: nat, k: RawSeriesKey, end: nat) {
    var count := at + 4 + |k.measurement|;
    && StringAt(b, at, k.measurement, count)
    && count + 4 <= |b| && Number4(b, count) == |k.tags| && TagsAt(b, count + 4, k.tags, end)
  }

  /** A sample: the timestamp modulo 2^64, then the bits of the value. */
  predicate SampleAt(b: Bytes, at: nat, s: Sample) {
    at + 16 <= |b| && Number8(b, at) == s.timestamp % 0x1_0000_0000_0000_0000 && Number8(b, at + 8) == s.value
  }

  lemma StringTable(b: Bytes, at: nat, s: Bytes)
    requires At(b, at, EncString(s)) && |s| <= 0xFFFF_FFFF
    ensures StringAt(b, at, s, at + |EncString(s)|)
  {
    hide LE;
    AtConcat(b, at, LE(|s|, 4), s);
    Number4At(b, at, |s|);
  }

  lemma {:induction false} TagsTable(b: Bytes, at: nat, tags: seq<Tag>)
    requires At(b, at, EncTags(tags)) && TagsFit(tags)
    ensures TagsAt(b, at, tags, at + |EncTags(tags)|)
    decreases |tags|
  {
    hide At, LE;
    if tags != [] {
      var key, value, rest := EncString(tags[0].key), EncString(tags[0].value), EncTags(tags[1..]);
      assert TagFits(tags[0]);
      AtConcat(b, at, key + value, rest);
      AtConcat(b, at, key, value);
      StringTable(b, at, tags[0].key);
      StringTable(b, at + |key|, tags[0].value);
      TagsTable(b, at + |key| + |value|, tags[1..]);
    }
  }

  lemma KeyTable(b: Bytes, at: nat, k: RawSeriesKey)
    requires At(b, at, EncKey(k)) && KeyFits(k)
    ensures KeyAt(b, at, k, at + |EncKey(k)|)
  {
    hide At, EncString, EncTags, LE, TagsAt, StringAt;
    var head, count, tags := EncString(k.measurement), LE(|k.tags|, 4), EncTags(k.tags);
    AtConcat(b, at, head + count, tags);
    AtConcat(b, at, head, count);
    StringTable(b, at, k.measurement);
    StringLength(k.measurement);
    Number4At(b, at + |head|, |k.tags|);
    TagsTable(b, at + |head| + 4, k.tags);
  }

  lemma StringLength(s: Bytes)
    ensures |EncString(s)| == 4 + |s|
  {}

  lemma SampleTable(b: Bytes, at: nat, s: Sample)
    requires At(b, at, EncSample(s))
    ensures SampleAt(b, at, s)
  {
    hide At, LE;
    AtConcat(b, at, LE(ToBits(s.timestamp), 8), LE(s.value, 8));
    Number8At(b, at, ToBits(s.timestamp));
    Number8At(b, at + 8, s.value);
    BitCastIsModulo(s.timestamp, 0);
  }

  ghost predicate SamplesAt(b: Bytes, at: nat, samples: seq<Sample>) {
    forall i :: 0 <= i < |samples| ==> SampleAt(b, at + 16 * i, samples[i])
  }

  lemma {:induction false} SamplesTable(b: Bytes, at: nat, samples: seq<Sample>)
    requires At(b, at, B.EncSamples(samples))
    ensures SamplesAt(b, at, samples)
    decreases |samples|
  {
    hide At, EncSample, SampleAt;
    if samples != [] {
      AtConcat(b, at, EncSample(samples[0]), B.EncSamples(samples[1..]));
      SampleTable(b, at, samples[0]);
      SamplesTable(b, at + 16, samples[1..]);
      forall i | 0 <= i < |samples|
        ensures SampleAt(b, at + 16 * i, samples[i])
      {
        if i > 0 {
          assert samples[1..][i - 1] == samples[i];
          assert at + 16 + 16 * (i - 1) == at + 16 * i;
        }
      }
    }
  }

  // ----- checksums -----

  /** The last four bytes are the checksum of all that precede them. */
  ghost predicate EndsInChecksum(b: Bytes) {
    |b| >= 4 && Number4(b, |b| - 4) == Checksum(b[..|b| - 4])
  }

  lemma ChecksumTable(b: Bytes)
    ensures Sealed(b) <==> EndsInChecksum(b)
  {
    hide Checksum, FromLE;
    if |b| >= 4 {
      assert b[|b| - 4..|b| - 4 + 4] == b[|b| - 4..];
      ReadsFour(b, |b| - 4);
    }
  }

  // ----- write-ahead-log records -----

  /** "CSWL", version 1, type 1, the payload size twice; then the payload, and the checksum of it all. */
  ghost predicate WalFrameTable(b: Bytes, payloadSize: nat) {
    && |b| == 18 + payloadSize && b[0..4] == [67, 83, 87, 76] && b[4] == 1 && b[5] == 1
    && Number4(b, 6) == payloadSize && Number4(b, 10) == 0xFFFF_FFFF - payloadSize
    && EndsInChecksum(b)
  }

  lemma WalFrameBytes(payload: Bytes)
    requires |payload| <= 16_777_216
    ensures var b := W.Frame(payload);
            WalFrameTable(b, |payload|) && b[14..14 + |payload|] == payload
  {
    hide LE, FromLE, Checksum, Seal, Sealed, W.Header, W.ParseHeader;
    var b, n := W.Frame(payload), |payload|;
    W.FrameShape(payload, []);
    assert b + [] == b;
    W.HeaderFields(n);
    WalHeaderReads(b);
    MagicAt(b, 0, [67, 83, 87, 76]);
    W.FrameIsSealed(payload);
    ChecksumTable(b);
  }

  lemma WalHeaderReads(b: Bytes)
    requires |b| >= 14
    ensures W.ParseHeader(b[..14]) == W.WalHeader(FromLE(b[0..4]), b[4], b[5], Number4(b, 6), Number4(b, 10))
  {
    hide FromLE;
    var h := b[..14];
    assert h[0..4] == b[0..4] && h[6..10] == b[6..10] && h[10..14] == b[10..14];
    ReadsFour(b, 6);
    ReadsFour(b, 10);
  }

  /** A record on disk: the frame, and inside it the series key and the sample. */
  lemma WalRecordTable(r: W.WalPutRecord)
    ensures W.Encode(r).Failure? <==> |EncKey(r.series)| + 16 > 16_777_216
    ensures W.Encode(r).Success? ==>
              var b := W.Encode(r).value;
              && |b| >= 34 && WalFrameTable(b, |b| - 18)
              && KeyAt(b, 14, r.series, |b| - 20) && SampleAt(b, |b| - 20, r.sample)
  {
    hide At, EncKey, EncSample, KeyAt, SampleAt, KeyFits, WalFrameTable, W.Frame;
    if W.Encode(r).Success? {
      var b, key, sample := W.Encode(r).value, EncKey(r.series), EncSample(r.sample);
      WalFrameBytes(key + sample);
      FrameTableSize(b, |key + sample|);
      BodyAt(b, 14, key + sample);
      AtConcat(b, 14, key, sample);
      SmallKeyFits(r.series);
      KeyTable(b, 14, r.series);
      SampleTable(b, 14 + |key|, r.sample);
    }
  }

  lemma FrameTableSize(b: Bytes, n: nat)
    requires WalFrameTable(b, n)
    ensures |b| == 18 + n
  {}

  /** What the decoder says of any bytes, in the order in which it looks at them. */
  lemma WalVerdict(b: Bytes)
    ensures W.Decode(b)
         == if |b| < 14 then W.Rejected(W.IncompleteRecord)
            else if b[0..4] != [67, 83, 87, 76] then W.Rejected(W.InvalidMagic)
            else if Number4(b, 6) + Number4(b, 10) != 0xFFFF_FFFF then W.Rejected(W.InvalidLength)
            else if Number4(b, 6) > 16_777_216 then W.Rejected(W.InvalidLength)
            else if |b| < 18 + Number4(b, 6) then W.Rejected(W.IncompleteRecord)
            else
              var frame := b[..18 + Number4(b, 6)];
              if !EndsInChecksum(frame) then W.Rejected(W.ChecksumMismatch)
              else if b[4] != 1 then W.Rejected(W.UnsupportedVersion)
              else if b[5] != 1 then W.Rejected(W.UnsupportedRecordType)
              else if W.ParsePayload(frame[14..|frame| - 4]).None? then W.Rejected(W.InvalidPayload)
              else W.Decoded(W.ParsePayload(frame[14..|frame| - 4]).value, |frame|)
  {
    hide FromLE, Sealed, EndsInChecksum, W.ParsePayload, W.ParseHeader;
    if |b| >= 14 {
      WalHeaderReads(b);
      MagicAt(b, 0, [67, 83, 87, 76]);
      var n := Number4(b, 6);
      if |b| >= 18 + n {
        ChecksumTable(b[..18 + n]);
      }
    }
  }

  /** A payload is a record just when it spells a key that the constructors accept, and a sample. */
  lemma WalPayloadIff(payload: Bytes, r: W.WalPutRecord)
    requires |payload| <= 16_777_216
    ensures W.ParsePayload(payload) == Some(r) <==>
            exists raw: RawSeriesKey ::
              payload == EncKey(raw) + EncSample(r.sample) && KeyOf(raw.measurement, raw.tags) == Success(r.series)
  {
    hide EncKey, EncSample, KeyOf, ParseRawKey, ParseSample;
    if W.ParsePayload(payload) == Some(r) {
      W.PayloadBytes(payload);
    }
    if raw: RawSeriesKey :|
      payload == EncKey(raw) + EncSample(r.sample) && KeyOf(raw.measurement, raw.tags) == Success(r.series)
    {
      assert raw == SeriesKey(raw.measurement, raw.tags);
      W.TagOrderIgnored(raw.measurement, raw.tags, r.sample);
    }
  }

  // ----- segment blocks -----

  /** "CSBK", version 1, flags 0, the payload size twice, the number of samples; and the checksum at the end. */
  ghost predicate BlockFrameTable(b: Bytes, payloadSize: nat, sampleCount: nat) {
    && |b| == 24 + payloadSize && b[0..4] == [67, 83, 66, 75] && Number2(b, 4) == 1 && Number2(b, 6) == 0
    && Number4(b, 8) == payloadSize && Number4(b, 12) == 0xFFFF_FFFF - payloadSize && Number4(b, 16) == sampleCount
    && EndsInChecksum(b)
  }

  lemma BlockHeaderReads(b: Bytes)
    requires |b| >= 20
    ensures B.ParseHeader(b[..20])
         == B.BlockHeader(FromLE(b[0..4]), Number2(b, 4), Number2(b, 6), Number4(b, 8), Number4(b, 12), Number4(b, 16))
  {
    hide FromLE;
    var h := b[..20];
    assert h[0..4] == b[0..4] && h[4..6] == b[4..6] && h[6..8] == b[6..8] && h[8..12] == b[8..12];
    assert h[12..16] == b[12..16] && h[16..20] == b[16..20];
    ReadsTwo(b, 4);
    ReadsTwo(b, 6);
    ReadsFour(b, 8);
    ReadsFour(b, 12);
    ReadsFour(b, 16);
  }

  lemma BlockFrameBytes(payload: Bytes, count: nat)
    requires |payload| <= 16_777_216 && count <= 256
    ensures var b := B.Frame(payload, count);
            BlockFrameTable(b, |payload|, count) && b[20..20 + |payload|] == payload
  {
    hide LE, FromLE, Checksum, Seal, Sealed, B.Header, B.ParseHeader;
    var b := B.Frame(payload, count);
    B.FrameShape(payload, count, []);
    assert b + [] == b;
    B.HeaderFields(|payload|, count);
    BlockHeaderReads(b);
    MagicAt(b, 0, [67, 83, 66, 75]);
    SealIsSealed(B.Header(|payload|, count) + payload);
    ChecksumTable(b);
  }

  /** A block on disk: the frame, and inside it the series key and the samples. */
  lemma BlockTable(block: B.SegmentBlock)
    ensures B.Encode(block).Failure? <==> |EncKey(block.series)| + 16 * |block.samples| > 16_777_216
    ensures B.Encode(block).Success? ==>
              var b, n := B.Encode(block).value, |block.samples|;
              && 1 <= n <= 256 && |b| >= 24 + 16 * n && BlockFrameTable(b, |b| - 24, n)
              && KeyAt(b, 20, block.series, |b| - 4 - 16 * n) && SamplesAt(b, |b| - 4 - 16 * n, block.samples)
  {
    hide At, EncKey, B.EncSamples, KeyAt, SamplesAt, KeyFits, BlockFrameTable, B.Frame;
    if B.Encode(block).Success? {
      var b, key, samples := B.Encode(block).value, EncKey(block.series), B.EncSamples(block.samples);
      BlockFrameBytes(key + samples, |block.samples|);
      BlockFrameSize(b, |key + samples|, |block.samples|);
      BodyAt(b, 20, key + samples);
      AtConcat(b, 20, key, samples);
      SmallKeyFits(block.series);
      KeyTable(b, 20, block.series);
      SamplesTable(b, 20 + |key|, block.samples);
    }
  }

  lemma BlockFrameSize(b: Bytes, n: nat, count: nat)
    requires BlockFrameTable(b, n, count)
    ensures |b| == 24 + n
  {}

  lemma BodyAt(b: Bytes, at: nat, x: Bytes)
    requires at + |x| <= |b| && b[at..at + |x|] == x
    ensures At(b, at, x)
  {}

  lemma BlockVerdict(b: Bytes)
    ensures B.Decode(b)
         == if |b| < 20 then B.Rejected(B.IncompleteBlock)
            else if b[0..4] != [67, 83, 66, 75] then B.Rejected(B.InvalidMagic)
            else if Number4(b, 8) + Number4(b, 12) != 0xFFFF_FFFF || Number4(b, 8) > 16_777_216
            then B.Rejected(B.InvalidLength)
            else if |b| < 24 + Number4(b, 8) then B.Rejected(B.IncompleteBlock)
            else
              var frame := b[..24 + Number4(b, 8)];
              if !EndsInChecksum(frame) then B.Rejected(B.ChecksumMismatch)
              else if Number2(b, 4) != 1 then B.Rejected(B.UnsupportedVersion)
              else if Number2(b, 6) != 0 then B.Rejected(B.UnsupportedFlags)
              else if !(1 <= Number4(b, 16) <= 256) then B.Rejected(B.InvalidSampleCount)
              else
                match B.ParsePayload(frame[20..|frame| - 4], Number4(b, 16))
                case None => B.Rejected(B.InvalidPayload)
                case Some(block) => B.Decoded(block, |frame|)
  {
    hide FromLE, Sealed, EndsInChecksum, B.ParsePayload, B.ParseHeader, B.ValidBlock;
    if |b| >= 20 {
      BlockHeaderReads(b);
      MagicAt(b, 0, [67, 83, 66, 75]);
      var n := Number4(b, 8);
      if |b| >= 24 + n {
        ChecksumTable(b[..24 + n]);
      }
    }
  }

  /** A payload is a block just when it is what the writer spells for it. */
  lemma BlockPayloadIff(payload: Bytes, block: B.SegmentBlock)
    requires |payload| <= 16_777_216
    ensures B.ParsePayload(payload, |block.samples|) == Some(block) <==>
            payload == EncKey(block.series) + B.EncSamples(block.samples)
  {
    hide EncKey, B.EncSamples, B.ParsePayload;
    if B.ParsePayload(payload, |block.samples|) == Some(block) {
      B.PayloadCanonical(payload, |block.samples|);
    }
    if payload == EncKey(block.series) + B.EncSamples(block.samples) {
      B.PayloadRoundTrip(block);
    }
  }

  // ----- segment files: header, footer and index -----

  /** A magic, version 1, flags 0. */
  predicate PreambleTable(b: Bytes, magic: Bytes) {
    |b| >= 8 && b[0..4] == magic && Number2(b, 4) == 1 && Number2(b, 6) == 0
  }

  lemma SupportedReads(b: Bytes)
    requires |b| >= 8
    ensures F.Supported(b) <==> Number2(b, 4) == 1 && Number2(b, 6) == 0
  {
    hide FromLE;
    ReadsTwo(b, 4);
    ReadsTwo(b, 6);
  }

  /** "CSGF": the number of blocks, where the index stands and how long it is. */
  lemma SegmentHeaderVerdict(b: Bytes)
    requires |b| == 32
    ensures F.ParseHeader(b)
         == if b[0..4] != [67, 83, 71, 70] then Failure(F.SegmentFormatError.InvalidMagic)
            else if !EndsInChecksum(b) then Failure(F.SegmentFormatError.ChecksumMismatch)
            else if !(Number2(b, 4) == 1 && Number2(b, 6) == 0) then Failure(F.Unsupported)
            else if !(1 <= Number4(b, 8) <= 1_000_000) then Failure(F.InvalidBlockCount)
            else Success(F.Envelope(Number4(b, 8), Number8(b, 12), Number8(b, 20)))
  {
    hide FromLE, Sealed, EndsInChecksum, F.Supported;
    MagicAt(b, 0, [67, 83, 71, 70]);
    ChecksumTable(b);
    SupportedReads(b);
    ReadsFour(b, 8);
    ReadsEight(b, 12);
    ReadsEight(b, 20);
  }

  /** "CSFT": the same three numbers in another order. */
  lemma SegmentFooterVerdict(b: Bytes)
    requires |b| == 32
    ensures F.ParseFooter(b)
         == if b[0..4] != [67, 83, 70, 84] then Failure(F.SegmentFormatError.InvalidMagic)
            else if !EndsInChecksum(b) then Failure(F.SegmentFormatError.ChecksumMismatch)
            else if !(Number2(b, 4) == 1 && Number2(b, 6) == 0) then Failure(F.Unsupported)
            else Success(F.Envelope(Number4(b, 24), Number8(b, 8), Number8(b, 16)))
  {
    hide FromLE, Sealed, EndsInChecksum, F.Supported;
    MagicAt(b, 0, [67, 83, 70, 84]);
    ChecksumTable(b);
    SupportedReads(b);
    ReadsEight(b, 8);
    ReadsEight(b, 16);
    ReadsFour(b, 24);
  }

  lemma IndexHeaderReads(b: Bytes)
    requires |b| >= 20
    ensures F.ParseIndexHeader(b[..20]) == F.IndexFields(FromLE(b[0..4]), Number4(b, 8), Number4(b, 12), Number4(b, 16))
    ensures F.Supported(b[..20]) <==> Number2(b, 4) == 1 && Number2(b, 6) == 0
  {
    hide FromLE;
    var h := b[..20];
    SupportedReads(h);
    assert h[0..4] == b[0..4] && h[8..12] == b[8..12] && h[12..16] == b[12..16] && h[16..20] == b[16..20];
    ReadsFour(b, 8);
    ReadsFour(b, 12);
    ReadsFour(b, 16);
  }

  /** "CSIX": the number of entries, and the size of all entries twice. */
  lemma IndexVerdict(b: Bytes, expectedCount: nat, indexOffset: nat)
    ensures F.DecodeIndex(b, expectedCount, indexOffset)
         == if |b| < 24 then Failure(F.IndexIncomplete)
            else if !PreambleTable(b, [67, 83, 73, 88]) then Failure(F.Unsupported)
            else if Number4(b, 8) != expectedCount || !(1 <= Number4(b, 8) <= 1_000_000)
                    || Number4(b, 12) + Number4(b, 16) != 0xFFFF_FFFF || Number4(b, 12) > 67_108_864
                    || |b| != 24 + Number4(b, 12)
            then Failure(F.SegmentFormatError.InvalidIndexMetadata)
            else if !EndsInChecksum(b) then Failure(F.SegmentFormatError.ChecksumMismatch)
            else
              match F.ParseEntries(b[20..|b| - 4], 0, Number4(b, 8))
              case None => Failure(F.InvalidIndexEntry)
              case Some(p) =>
                if p.next != |b| - 24 then Failure(F.TrailingIndexBytes)
                else if !F.ValidIndex(p.value, 32, indexOffset) then Failure(F.IndexNotValid)
                else Success(p.value)
  {
    hide FromLE, Sealed, EndsInChecksum, F.Supported, F.ParseIndexHeader, F.ParseEntries, F.ValidIndex;
    if |b| >= 24 {
      IndexHeaderReads(b);
      MagicAt(b, 0, [67, 83, 73, 88]);
      ChecksumTable(b);
    }
  }

  /** An entry: offset, size and number of samples of the block, its first and last timestamp, its series. */
  ghost predicate EntryAt(b: Bytes, at: nat, e: F.IndexEntry, end: nat) {
    && at + 32 <= |b|
    && Number8(b, at) == e.blockOffset && Number4(b, at + 8) == e.blockSize && Number4(b, at + 12) == e.sampleCount
    && Number8(b, at + 16) == e.firstTimestamp % 0x1_0000_0000_0000_0000
    && Number8(b, at + 24) == e.lastTimestamp % 0x1_0000_0000_0000_0000
    && KeyAt(b, at + 32, e.series, end)
  }

  lemma EntryTable(b: Bytes, at: nat, e: F.IndexEntry)
    requires At(b, at, F.EncEntry(e)) && F.EntryFits(e)
    ensures EntryAt(b, at, e, at + |F.EncEntry(e)|)
  {
    hide At, LE, EncKey, KeyAt, KeyFits;
    var o, s, n, f, l, k := LE(e.blockOffset, 8), LE(e.blockSize, 4), LE(e.sampleCount, 4),
                            LE(ToBits(e.firstTimestamp), 8), LE(ToBits(e.lastTimestamp), 8), EncKey(e.series);
    AtConcat(b, at, o + s + n + (f + l), k);
    AtConcat(b, at, o + s + n, f + l);
    AtConcat(b, at, o + s, n);
    AtConcat(b, at, o, s);
    AtConcat(b, at + 16, f, l);
    Number8At(b, at, e.blockOffset);
    Number4At(b, at + 8, e.blockSize);
    Number4At(b, at + 12, e.sampleCount);
    Number8At(b, at + 16, ToBits(e.firstTimestamp));
    Number8At(b, at + 24, ToBits(e.lastTimestamp));
    BitCastIsModulo(e.firstTimestamp, 0);
    BitCastIsModulo(e.lastTimestamp, 0);
    KeyTable(b, at + 32, e.series);
  }

  ghost predicate EntriesAt(b: Bytes, at: nat, entries: seq<F.IndexEntry>, end: nat)
    decreases |entries|
  {
    if entries == [] then end == at
    else exists next: nat :: EntryAt(b, at, entries[0], next) && EntriesAt(b, next, entries[1..], end)
  }

  lemma {:induction false} EntriesTable(b: Bytes, at: nat, entries: seq<F.IndexEntry>)
    requires At(b, at, F.EncEntries(entries)) && F.EntriesFit(entries)
    ensures EntriesAt(b, at, entries, at + |F.EncEntries(entries)|)
    decreases |entries|
  {
    hide At, F.EncEntry, F.EntryFits, EntryAt;
    if entries != [] {
      AtConcat(b, at, F.EncEntry(entries[0]), F.EncEntries(entries[1..]));
      EntryTable(b, at, entries[0]);
      EntriesTable(b, at + |F.EncEntry(entries[0])|, entries[1..]);
    }
  }

  /** The blocks lie end to end from byte 32 to the index, in the order of their series and then of time. */
  ghost predicate IndexOrder(entries: seq<F.IndexEntry>, from: nat, indexOffset: nat) {
    && (forall i :: 0 <= i < |entries| ==> LaidOut(entries, i, from, indexOffset))
    && (forall i :: 0 < i < |entries| ==> EntryAfter(entries[i - 1], entries[i]))
    && indexOffset == if entries == [] then from else EntryEnd(entries[|entries| - 1])
  }

  predicate LaidOut(entries: seq<F.IndexEntry>, i: nat, from: nat, indexOffset: nat)
    requires i < |entries|
  {
    var e := entries[i];
    && e.blockOffset == (if i == 0 then from else EntryEnd(entries[i - 1])) && EntryEnd(e) <= indexOffset
    && e.blockSize > 0 && 1 <= e.sampleCount <= 256 && e.firstTimestamp <= e.lastTimestamp
  }

  function EntryEnd(e: F.IndexEntry): nat {
    e.blockOffset + e.blockSize
  }

  ghost predicate EntryAfter(previous: F.IndexEntry, e: F.IndexEntry) {
    || KeyBefore(previous.series, e.series)
    || (previous.series == e.series && previous.lastTimestamp < e.firstTimestamp)
  }

  lemma EntryAfterIff(previous: F.IndexEntry, e: F.IndexEntry)
    ensures F.EntryFollows(previous, e) <==> EntryAfter(previous, e)
  {
    hide KeyLess, KeyBefore;
    KeyOrder();
    KeyLessIff(previous.series, e.series);
    KeyLessIff(e.series, previous.series);
  }

  lemma {:induction false} IndexOrderIff(entries: seq<F.IndexEntry>, from: nat, indexOffset: nat)
    ensures F.ValidIndex(entries, from, indexOffset) <==> IndexOrder(entries, from, indexOffset)
  {
    hide F.EntryFollows, EntryAfter;
    if entries != [] {
      var rest, next := entries[1..], from + entries[0].blockSize;
      IndexOrderIff(rest, next, indexOffset);
      if |entries| > 1 {
        EntryAfterIff(entries[0], entries[1]);
      }
      if F.ValidIndex(entries, from, indexOffset) {
        OrderExtends(entries, from, indexOffset);
      }
      if IndexOrder(entries, from, indexOffset) {
        OrderRestricts(entries, from, indexOffset);
        FirstInRange(entries, from, indexOffset);
      }
    }
  }

  lemma OrderExtends(entries: seq<F.IndexEntry>, from: nat, indexOffset: nat)
    requires entries != [] && F.EntryInRange(entries[0], from, indexOffset)
    requires |entries| > 1 ==> EntryAfter(entries[0], entries[1])
    requires IndexOrder(entries[1..], from + entries[0].blockSize, indexOffset)
    ensures IndexOrder(entries, from, indexOffset)
  {
    hide EntryAfter;
    var rest := entries[1..];
    forall i | 0 <= i < |entries|
      ensures LaidOut(entries, i, from, indexOffset)
    {
      if i > 0 {
        assert LaidOut(rest, i - 1, from + entries[0].blockSize, indexOffset);
      }
    }
    forall i | 0 < i < |entries|
      ensures EntryAfter(entries[i - 1], entries[i])
    {
      if i > 1 {
        assert EntryAfter(rest[i - 2], rest[i - 1]);
      }
    }
  }

  lemma OrderRestricts(entries: seq<F.IndexEntry>, from: nat, indexOffset: nat)
    requires entries != [] && IndexOrder(entries, from, indexOffset)
    ensures IndexOrder(entries[1..], from + entries[0].blockSize, indexOffset)
  {
    hide EntryAfter, LaidOut, EntryEnd;
    var rest, next := entries[1..], from + entries[0].blockSize;
    assert LaidOut(entries, 0, from, indexOffset);
    forall i | 0 <= i < |rest|
      ensures LaidOut(rest, i, next, indexOffset)
    {
      assert LaidOut(entries, i + 1, from, indexOffset);
      LaidOutNext(entries, i, from, indexOffset);
    }
    forall i | 0 < i < |rest|
      ensures EntryAfter(rest[i - 1], rest[i])
    {
      assert EntryAfter(entries[i], entries[i + 1]);
    }
    LastEnd(entries, from, indexOffset);
  }

  lemma LaidOutNext(entries: seq<F.IndexEntry>, i: nat, from: nat, indexOffset: nat)
    requires i + 1 < |entries| && LaidOut(entries, 0, from, indexOffset) && LaidOut(entries, i + 1, from, indexOffset)
    ensures LaidOut(entries[1..], i, from + entries[0].blockSize, indexOffset)
  {}

  lemma LastEnd(entries: seq<F.IndexEntry>, from: nat, indexOffset: nat)
    requires entries != [] && LaidOut(entries, 0, from, indexOffset)
    ensures |entries| == 1 ==> EntryEnd(entries[0]) == from + entries[0].blockSize
  {}

  lemma FirstInRange(entries: seq<F.IndexEntry>, from: nat, indexOffset: nat)
    requires entries != [] && IndexOrder(entries, from, indexOffset)
    ensures F.EntryInRange(entries[0], from, indexOffset) && (|entries| > 1 ==> EntryAfter(entries[0], entries[1]))
  {
    hide EntryAfter;
    assert LaidOut(entries, 0, from, indexOffset);
  }

  lemma IndexTable(x: Bytes, count: nat, indexOffset: nat)
    requires F.DecodeIndex(x, count, indexOffset).Success?
    ensures var entries := F.DecodeIndex(x, count, indexOffset).value;
            |entries| == count && IndexLayout(x, entries) && IndexOrder(entries, 32, indexOffset)
  {
    hide At, LE, FromLE, Checksum, Sealed, EndsInChecksum, EntriesAt, IndexOrder, F.DecodeIndex, F.EntriesFit,
      F.EncEntries, F.IndexHeader, F.ValidIndex, F.ParseEntries, F.ParseIndexHeader, F.Supported;
    var entries := F.DecodeIndex(x, count, indexOffset).value;
    var payload := F.EncEntries(entries);
    IndexVerdict(x, count, indexOffset);
    F.IndexCanonical(x, count, indexOffset);
    IndexOrderIff(entries, 32, indexOffset);
    F.IndexHeaderFields(count, |payload|);
    var head := F.IndexHeader(count, |payload|);
    F.Slices(head, payload, LE(Checksum(head + payload), CHECKSUM_SIZE));
    BodyAt(x, 20, payload);
    EntriesTable(x, 20, entries);
  }

  /** A block goes behind another of an earlier series, or of the same series and an earlier time. */
  ghost predicate BlockAfter(previous: B.SegmentBlock, block: B.SegmentBlock) {
    || KeyBefore(previous.series, block.series)
    || (previous.series == block.series
        && previous.samples[|previous.samples| - 1].timestamp < block.samples[0].timestamp)
  }

  lemma BlockAfterIff(previous: B.SegmentBlock, block: B.SegmentBlock)
    ensures F.BlockFollows(previous, block) <==> BlockAfter(previous, block)
  {
    hide KeyLess, KeyBefore, B.Increasing;
    KeyOrder();
    KeyLessIff(previous.series, block.series);
    KeyLessIff(block.series, previous.series);
  }

  ghost predicate AllAfter(blocks: seq<B.SegmentBlock>) {
    forall i :: 0 < i < |blocks| ==> BlockAfter(blocks[i - 1], blocks[i])
  }

  lemma OrderedIff(blocks: seq<B.SegmentBlock>)
    ensures F.BlocksOrdered(blocks) <==> AllAfter(blocks)
  {
    hide BlockAfter, F.BlockFollows;
    forall i | 0 < i < |blocks|
      ensures F.BlockFollows(blocks[i - 1], blocks[i]) <==> BlockAfter(blocks[i - 1], blocks[i])
    {
      BlockAfterIff(blocks[i - 1], blocks[i]);
    }
  }

  /** Why the segment writer refuses blocks, in order. */
  lemma SegmentRefusals(blocks: seq<B.SegmentBlock>)
    ensures (if F.SegmentBytes(blocks).Failure? then Some(F.SegmentBytes(blocks).error) else None)
         == if |blocks| == 0 then Some(F.EmptySegment)
            else if |blocks| > 1_000_000 then Some(F.TooManyBlocks)
            else if !AllAfter(blocks) then Some(F.BlocksNotOrdered)
            else if exists i :: 0 <= i < |blocks| && B.Encode(blocks[i]).Failure? then Some(F.BlockTooLarge)
            else if |F.EncEntries(F.EntriesFor(blocks, 32))| > 67_108_864 then Some(F.IndexTooLarge)
            else None
  {
    hide B.Encode, F.BlocksOrdered, AllAfter, F.EncEntries, F.EntriesFor, F.Assemble, F.Body;
    OrderedIff(blocks);
  }

  /** What opening says of any file: what the three parts say, and how they must fit together. */
  lemma OpenVerdict(b: Bytes)
    ensures F.Open(b)
         == if |b| < 88 then Failure(F.FileTooSmall)
            else
              match (F.ParseHeader(b[..32]), F.ParseFooter(b[|b| - 32..]))
              case (Failure(e), _) => Failure(e)
              case (Success(_), Failure(e)) => Failure(e)
              case (Success(head), Success(foot)) =>
                if head != foot then Failure(F.HeaderFooterDisagree)
                else if !(32 <= head.indexOffset && 24 <= head.indexSize <= 67_108_888
                          && head.indexOffset + head.indexSize + 32 == |b|) then Failure(F.InvalidIndexBounds)
                else F.DecodeIndex(b[head.indexOffset..|b| - 32], head.blockCount, head.indexOffset)
  {
    hide F.ParseHeader, F.ParseFooter, F.DecodeIndex;
  }

  /** Entry `i` of the index says where block `i` is, and the bytes there are its encoding. */
  ghost predicate BlockAtEntry(b: Bytes, block: B.SegmentBlock, e: F.IndexEntry) {
    && e.series == block.series && e.sampleCount == |block.samples|
    && e.firstTimestamp == block.samples[0].timestamp
    && e.lastTimestamp == block.samples[|block.samples| - 1].timestamp
    && EntryEnd(e) <= |b| && B.Encode(block) == Success(b[e.blockOffset..EntryEnd(e)])
  }

  /** A segment file: "CSGF" in front, blocks up to the index "CSIX", "CSFT" at the end. */
  ghost predicate SegmentLayout(b: Bytes, entries: seq<F.IndexEntry>) {
    && |b| >= 88 && PreambleTable(b, [67, 83, 71, 70]) && EndsInChecksum(b[..32]) && Number4(b, 8) == |entries|
    && var offset, size := Number8(b, 12), Number8(b, 20);
       && offset >= 32 && size >= 24 && |b| == offset + size + 32 && IndexOrder(entries, 32, offset)
       && IndexLayout(b[offset..offset + size], entries)
       && FooterLayout(b[offset + size..], |entries|, offset, size)
  }

  ghost predicate IndexLayout(x: Bytes, entries: seq<F.IndexEntry>) {
    && |x| >= 24 && PreambleTable(x, [67, 83, 73, 88]) && EndsInChecksum(x) && Number4(x, 8) == |entries|
    && Number4(x, 12) == |x| - 24 && Number4(x, 16) == 0xFFFF_FFFF - (|x| - 24) && EntriesAt(x, 20, entries, |x| - 4)
  }

  ghost predicate FooterLayout(f: Bytes, count: nat, offset: nat, size: nat) {
    && |f| == 32 && PreambleTable(f, [67, 83, 70, 84]) && EndsInChecksum(f)
    && Number8(f, 8) == offset && Number8(f, 16) == size && Number4(f, 24) == count
  }

  /** Every file that the writer publishes, with the index it carries. */
  lemma SegmentFileTable(blocks: seq<B.SegmentBlock>) returns (entries: seq<F.IndexEntry>)
    requires F.SegmentBytes(blocks).Success?
    ensures SegmentLayout(F.SegmentBytes(blocks).value, entries) && |entries| == |blocks|
    ensures forall i :: 0 <= i < |blocks| ==> BlockAtEntry(F.SegmentBytes(blocks).value, blocks[i], entries[i])
  {
    hide F.ParseHeader, F.ParseFooter, F.DecodeIndex, F.SegmentBytes, F.EntriesFor, F.ReadBlocks, EndsInChecksum,
      EntriesAt, IndexOrder, BlockAtEntry, F.Encodable;
    var b := F.SegmentBytes(blocks).value;
    F.OpensAsWritten(blocks);
    entries := F.EntriesFor(blocks, 32);
    OpenVerdict(b);
    var e := F.ParseHeader(b[..32]).value;
    assert b[|b| - 32..] == b[e.indexOffset + e.indexSize..];
    HeaderTable(b);
    SegmentFooterVerdict(b[|b| - 32..]);
    IndexTable(b[e.indexOffset..e.indexOffset + e.indexSize], e.blockCount, e.indexOffset);
    R.ReadsMatch(b, entries);
    forall i | 0 <= i < |blocks|
      ensures BlockAtEntry(b, blocks[i], entries[i])
    {
      EntryPoints(b, blocks[i], entries[i]);
    }
  }

  lemma HeaderTable(b: Bytes)
    requires |b| >= 32 && F.ParseHeader(b[..32]).Success?
    ensures PreambleTable(b, [67, 83, 71, 70]) && EndsInChecksum(b[..32])
    ensures F.ParseHeader(b[..32]).value == F.Envelope(Number4(b, 8), Number8(b, 12), Number8(b, 20))
  {
    hide F.ParseHeader, EndsInChecksum;
    SegmentHeaderVerdict(b[..32]);
    assert b[..32][0..4] == b[0..4];
  }

  lemma EntryPoints(b: Bytes, block: B.SegmentBlock, e: F.IndexEntry)
    requires F.ReadBlock(b, e) == Some(block)
    ensures BlockAtEntry(b, block, e)
  {
    hide B.Encode, B.Decode;
    F.BlockBytesCanonical(b, e);
  }

  // ----- manifests -----

  lemma ManifestHeaderReads(b: Bytes)
    requires |b| >= 36
    ensures M.ParseHeader(b[..36])
         == M.ManifestHeader(FromLE(b[0..4]), Number2(b, 4), Number2(b, 6), Number8(b, 8), Number8(b, 16),
                             Number4(b, 24), Number4(b, 28), Number4(b, 32))
  {
    hide FromLE;
    var h := b[..36];
    assert h[0..4] == b[0..4] && h[4..6] == b[4..6] && h[6..8] == b[6..8] && h[8..16] == b[8..16];
    assert h[16..24] == b[16..24] && h[24..28] == b[24..28] && h[28..32] == b[28..32] && h[32..36] == b[32..36];
    ReadsTwo(b, 4);
    ReadsTwo(b, 6);
    ReadsEight(b, 8);
    ReadsEight(b, 16);
    ReadsFour(b, 24);
    ReadsFour(b, 28);
    ReadsFour(b, 32);
  }

  ghost predicate NamesAt(b: Bytes, at: nat, names: seq<Name>, end: nat)
    decreases |names|
  {
    if names == [] then end == at
    else
      var next := at + 4 + |names[0]|;
      StringAt(b, at, names[0], next) && NamesAt(b, next, names[1..], end)
  }

  lemma {:induction false} NamesTable(b: Bytes, at: nat, names: seq<Name>)
    requires At(b, at, M.EncNames(names)) && forall i :: 0 <= i < |names| ==> |names[i]| <= 0xFFFF_FFFF
    ensures NamesAt(b, at, names, at + |M.EncNames(names)|)
    decreases |names|
  {
    hide At, EncString, StringAt;
    if names != [] {
      AtConcat(b, at, EncString(names[0]), M.EncNames(names[1..]));
      StringTable(b, at, names[0]);
      StringLength(names[0]);
      NamesTable(b, at + 4 + |names[0]|, names[1..]);
    }
  }

  /** "CSMF", version 1, flags 0, generation, sample count, segment count, the size of the names twice, the names. */
  lemma ManifestTable(s: M.ManifestState)
    requires M.Encode(s).Success?
    ensures var b := M.Encode(s).value;
            && 40 <= |b| <= 16_777_216 + 40 && PreambleTable(b, [67, 83, 77, 70])
            && Number8(b, 8) == s.generation && Number8(b, 16) == s.logicalSampleCount
            && Number4(b, 24) == |s.segmentFiles| <= 100_000
            && Number4(b, 28) == |b| - 40 && Number4(b, 32) == 0xFFFF_FFFF - (|b| - 40)
            && NamesAt(b, 36, s.segmentFiles, |b| - 4) && EndsInChecksum(b)
  {
    hide At, LE, FromLE, Checksum, Sealed, M.Header, M.ParseHeader, M.EncNames, ValidSegmentFilename, NamesAt,
      EndsInChecksum, M.DistinctNames;
    var b, payload := M.Encode(s).value, M.EncNames(s.segmentFiles);
    var head := M.Header(s, |payload|);
    M.HeaderFields(s, |payload|);
    M.Slices(head, payload, LE(Checksum(head + payload), CHECKSUM_SIZE));
    M.Slices([], head, payload + LE(Checksum(head + payload), CHECKSUM_SIZE));
    assert b[..36] == head;
    ManifestHeaderReads(b);
    MagicAt(b, 0, [67, 83, 77, 70]);
    SealIsSealed(head + payload);
    ChecksumTable(b);
    BodyAt(b, 36, payload);
    M.SmallNames(s.segmentFiles);
    NamesTable(b, 36, s.segmentFiles);
  }

  /** What loading says of a manifest file, in order. */
  lemma ManifestVerdict(b: Bytes)
    ensures M.Load(None) == Success(M.ManifestState(0, 0, []))
    ensures M.Load(Some(b))
         == if |b| > 16_777_256 then Failure(M.TooLarge)
            else if |b| < 40 then Failure(M.Incomplete)
            else if b[0..4] != [67, 83, 77, 70] then Failure(M.ManifestFormatError.InvalidMagic)
            else if !(Number2(b, 4) == 1 && Number2(b, 6) == 0) then Failure(M.ManifestFormatError.Unsupported)
            else if Number4(b, 24) > 100_000 || Number4(b, 28) > 16_777_216
                    || Number4(b, 28) + Number4(b, 32) != 0xFFFF_FFFF then Failure(M.InvalidMetadata)
            else if |b| != 40 + Number4(b, 28) then Failure(M.InconsistentSize)
            else if !EndsInChecksum(b) then Failure(M.ManifestFormatError.ChecksumMismatch)
            else
              match M.ParseNames(b[36..|b| - 4], 0, Number4(b, 24))
              case None => Failure(M.IncompleteFilename)
              case Some(names) =>
                if names.next != |b| - 40 then Failure(M.TrailingBytes)
                else if !M.ValidNames(names.value) then Failure(M.InvalidState)
                else Success(M.ManifestState(Number8(b, 8), Number8(b, 16), names.value))
  {
    hide FromLE, Sealed, EndsInChecksum, M.ParseHeader, M.ParseNames, M.ValidNames;
    if |b| >= 40 {
      ManifestHeaderReads(b);
      MagicAt(b, 0, [67, 83, 77, 70]);
      ChecksumTable(b);
    }
  }

  /** Why a manifest is not written, in order. */
  lemma ManifestRefusals(s: M.ManifestState)
    ensures (if M.Encode(s).Failure? then Some(M.Encode(s).error) else None)
         == if |s.segmentFiles| > 100_000 then Some(M.TooManySegments)
            else if exists i :: 0 <= i < |s.segmentFiles| && !ValidSegmentFilename(s.segmentFiles[i])
            then Some(M.InvalidSegmentFilename)
            else if exists i, j :: 0 <= i < j < |s.segmentFiles| && s.segmentFiles[i] == s.segmentFiles[j]
            then Some(M.InvalidSegmentFilename)
            else if |M.EncNames(s.segmentFiles)| > 16_777_216 then Some(M.ManifestEncodeError.PayloadTooLarge)
            else if s.generation > 0xFFFF_FFFF_FFFF_FFFF || s.logicalSampleCount > 0xFFFF_FFFF_FFFF_FFFF
            then Some(M.NumberTooLarge)
            else None
  {
    hide ValidSegmentFilename, M.EncNames, M.Header;
  }
}
