/** Segment blocks, one series and 1 to 256 strictly increasing samples, and their canonical framed encoding. */
module SegmentBlocks {
  import opened Prelude
  import opened Words
  import opened Model
  import opened ByteCodec
  import opened KeyCodec
  import opened Crc32c
  import opened Sealing

  const MAX_SAMPLES_PER_SEGMENT_BLOCK: nat := 256

  datatype RawBlock = SegmentBlock(series: SeriesKey, samples: seq<Sample>)

  ghost predicate Increasing(samples: seq<Sample>) {
    forall i, j :: 0 <= i < j < |samples| ==> samples[i].timestamp < samples[j].timestamp
  }

  ghost predicate ValidBlock(b: RawBlock) {
    1 <= |b.samples| <= MAX_SAMPLES_PER_SEGMENT_BLOCK && Increasing(b.samples)
  }

  type SegmentBlock = b: RawBlock | ValidBlock(b) witness SegmentBlock(SeriesKey([0], []), [Sample(0, 0)])

  function FirstTimestamp(b: SegmentBlock): i64 {
    b.samples[0].timestamp
  }

  function LastTimestamp(b: SegmentBlock): i64 {
    b.samples[|b.samples| - 1].timestamp
  }

  // ----- the constructor -----

  datatype BlockError = EmptyBlock | TooManySamples | NotIncreasing

  predicate AdjacentIncreasing(samples: seq<Sample>) {
    forall i :: 0 < i < |samples| ==> samples[i - 1].timestamp < samples[i].timestamp
  }

  lemma {:induction false} AdjacentIsIncreasing(samples: seq<Sample>)
    ensures AdjacentIncreasing(samples) <==> Increasing(samples)
  {
    if samples != [] {
      var n := |samples| - 1;
      AdjacentIsIncreasing(samples[..n]);
      if AdjacentIncreasing(samples) {
        assert AdjacentIncreasing(samples[..n]);
        forall i, j | 0 <= i < j < |samples|
          ensures samples[i].timestamp < samples[j].timestamp
        {
          if j == n {
            assert samples[n - 1].timestamp < samples[n].timestamp;
            assert i < n - 1 ==> samples[..n][i].timestamp < samples[..n][n - 1].timestamp;
          } else {
            assert samples[..n][i].timestamp < samples[..n][j].timestamp;
          }
        }
      }
    }
  }

  function BlockOf(series: SeriesKey, samples: seq<Sample>): Result<SegmentBlock, BlockError> {
    if samples == [] then Failure(EmptyBlock)
    else if |samples| > MAX_SAMPLES_PER_SEGMENT_BLOCK then Failure(TooManySamples)
    else if !AdjacentIncreasing(samples) then Failure(NotIncreasing)
    else
      AdjacentIsIncreasing(samples);
      Success(SegmentBlock(series, samples))
  }

  method MakeBlock(series: SeriesKey, samples: seq<Sample>) returns (r: Result<SegmentBlock, BlockError>)
    ensures r == BlockOf(series, samples)
    ensures r.Success? <==> ValidBlock(SegmentBlock(series, samples))
    ensures r == Failure(EmptyBlock) <==> |samples| == 0
    ensures r == Failure(TooManySamples) <==> |samples| > 256
    ensures r == Failure(NotIncreasing) <==> 1 <= |samples| <= 256 && !Increasing(samples)
  {
    AdjacentIsIncreasing(samples);
    if samples == [] {
      return Failure(EmptyBlock);
    }
    if |samples| > MAX_SAMPLES_PER_SEGMENT_BLOCK {
      return Failure(TooManySamples);
    }
    for index := 1 to |samples|
      invariant forall i :: 0 < i < index ==> samples[i - 1].timestamp < samples[i].timestamp
    {
      if samples[index].timestamp <= samples[index - 1].timestamp {
        return Failure(NotIncreasing);
      }
    }
    r := Success(SegmentBlock(series, samples));
  }

  lemma BlockOfBlock(b: SegmentBlock)
    ensures BlockOf(b.series, b.samples) == Success(b)
  {
    AdjacentIsIncreasing(b.samples);
  }

  // ----- samples -----

  function EncSamples(samples: seq<Sample>): (b: Bytes)
    ensures |b| == ENCODED_SAMPLE_SIZE * |samples|
  {
    if samples == [] then [] else EncSample(samples[0]) + EncSamples(samples[1..])
  }

  function ParseSamples(b: Bytes, pos: nat, count: nat): Option<Parsed<seq<Sample>>>
    decreases count
  {
    if count == 0 then Some(Parsed([], pos))
    else
      match ParseSample(b, pos)
      case None => None
      case Some(s) =>
        match ParseSamples(b, s.next, count - 1)
        case None => None
        case Some(rest) => Some(Parsed([s.value] + rest.value, rest.next))
  }

  lemma {:induction false} ParseSamplesEnc(b: Bytes, pos: nat, samples: seq<Sample>)
    requires At(b, pos, EncSamples(samples))
    ensures ParseSamples(b, pos, |samples|) == Some(Parsed(samples, pos + |EncSamples(samples)|))
    decreases |samples|
  {
    hide At, EncSample, ParseSample;
    if samples != [] {
      var s, rest := samples[0], samples[1..];
      AtConcat(b, pos, EncSample(s), EncSamples(rest));
      ParseSampleEnc(b, pos, s);
      ParseSamplesEnc(b, pos + ENCODED_SAMPLE_SIZE, rest);
      assert samples == [s] + rest;
    }
  }

  lemma {:induction false} ParseSamplesCanonical(b: Bytes, pos: nat, count: nat)
    requires pos <= |b| && ParseSamples(b, pos, count).Some?
    ensures var p := ParseSamples(b, pos, count).value;
            && |p.value| == count && At(b, pos, EncSamples(p.value)) && p.next == pos + |EncSamples(p.value)|
    decreases count
  {
    hide EncSample, ParseSample;
    if count > 0 {
      hide At;
      var s := ParseSample(b, pos).value;
      ParseSampleCanonical(b, pos);
      AtBound(b, pos, EncSample(s.value));
      ParseSamplesCanonical(b, s.next, count - 1);
      var rest := ParseSamples(b, s.next, count - 1).value.value;
      var samples := ParseSamples(b, pos, count).value.value;
      assert samples[0] == s.value && samples[1..] == rest;
      AtConcat(b, pos, EncSample(s.value), EncSamples(rest));
    }
  }

  /** `std::lower_bound` over samples by timestamp, from a given position on. */
  method LowerBoundSample(samples: seq<Sample>, from: nat, timestamp: i64) returns (at: nat)
    requires Increasing(samples) && from <= |samples|
    ensures from <= at <= |samples|
    ensures forall i :: from <= i < at ==> samples[i].timestamp < timestamp
    ensures forall i :: at <= i < |samples| ==> timestamp <= samples[i].timestamp
  {
    at := from;
    var high := |samples|;
    while at < high
      invariant from <= at <= high <= |samples|
      invariant forall i :: from <= i < at ==> samples[i].timestamp < timestamp
      invariant forall i :: high <= i < |samples| ==> timestamp <= samples[i].timestamp
    {
      var middle := at + (high - at) / 2;
      if samples[middle].timestamp < timestamp {
        at := middle + 1;
      } else {
        high := middle;
      }
    }
  }

  lemma SliceMembers(samples: seq<Sample>, from: nat, to: nat, start: i64, end: i64)
    requires from <= to <= |samples|
    requires forall i :: 0 <= i < |samples| ==> (from <= i < to <==> start <= samples[i].timestamp < end)
    ensures forall x :: x in samples[from..to] <==> x in samples && start <= x.timestamp < end
  {
    forall x | x in samples && start <= x.timestamp < end
      ensures x in samples[from..to]
    {
      var i :| 0 <= i < |samples| && samples[i] == x;
      assert samples[from..to][i - from] == x;
    }
  }

  // ----- the frame -----

  const SEGMENT_BLOCK_MAGIC: u32 := 0x4B42_5343
  const SEGMENT_BLOCK_VERSION: u16 := 1
  const SEGMENT_BLOCK_FLAGS: u16 := 0
  const MAX_SEGMENT_BLOCK_PAYLOAD_SIZE: nat := 16 * 1024 * 1024
  const SEGMENT_BLOCK_HEADER_SIZE: nat := 20

  datatype BlockEncodeError = PayloadTooLarge

  datatype BlockDecodeError =
    | IncompleteBlock | InvalidMagic | InvalidLength | ChecksumMismatch
    | UnsupportedVersion | UnsupportedFlags | InvalidSampleCount | InvalidPayload

  datatype BlockDecodeResult = Decoded(block: SegmentBlock, bytesConsumed: nat) | Rejected(error: BlockDecodeError)

  function Payload(b: SegmentBlock): Bytes {
    EncKey(b.series) + EncSamples(b.samples)
  }

  function Header(payloadSize: nat, sampleCount: nat): Bytes
    requires payloadSize <= U32_MAX
  {
    LE(SEGMENT_BLOCK_MAGIC, 4) + LE(SEGMENT_BLOCK_VERSION, 2) + LE(SEGMENT_BLOCK_FLAGS, 2)
    + LE(payloadSize, 4) + LE(U32_MAX - payloadSize, 4) + LE(sampleCount, 4)
  }

  function Frame(payload: Bytes, sampleCount: nat): Bytes
    requires |payload| <= MAX_SEGMENT_BLOCK_PAYLOAD_SIZE
  {
    Seal(Header(|payload|, sampleCount) + payload)
  }

  function Encode(b: SegmentBlock): Result<Bytes, BlockEncodeError> {
    var payload := Payload(b);
    if |payload| > MAX_SEGMENT_BLOCK_PAYLOAD_SIZE then Failure(PayloadTooLarge)
    else Success(Frame(payload, |b.samples|))
  }

  datatype BlockHeader =
    BlockHeader(magic: nat, version: nat, flags: nat, length: nat, inverted: nat, sampleCount: nat)

  function ParseHeader(h: Bytes): BlockHeader
    requires |h| == SEGMENT_BLOCK_HEADER_SIZE
  {
    BlockHeader(FromLE(h[0..4]), FromLE(h[4..6]), FromLE(h[6..8]), FromLE(h[8..12]), FromLE(h[12..16]),
                FromLE(h[16..20]))
  }

  function ParsePayload(payload: Bytes, sampleCount: nat): Option<SegmentBlock> {
    match ParseRawKey(payload, 0, true, ENCODED_SAMPLE_SIZE * sampleCount)
    case None => None
    case Some(key) =>
      match ParseSamples(payload, key.next, sampleCount)
      case None => None
      case Some(samples) =>
        if samples.next != |payload| then None else AssembleBlock(key.value, samples.value)
  }

  function AssembleBlock(key: RawSeriesKey, samples: seq<Sample>): Option<SegmentBlock> {
    match KeyOf(key.measurement, key.tags)
    case Failure(_) => None
    case Success(series) =>
      match BlockOf(series, samples)
      case Failure(_) => None
      case Success(block) => Some(block)
  }

  function Decode(b: Bytes): BlockDecodeResult {
    if |b| < SEGMENT_BLOCK_HEADER_SIZE then Rejected(IncompleteBlock)
    else
      var h := ParseHeader(b[..SEGMENT_BLOCK_HEADER_SIZE]);
      if h.magic != SEGMENT_BLOCK_MAGIC then Rejected(InvalidMagic)
      else if h.inverted != U32_MAX - h.length || h.length > MAX_SEGMENT_BLOCK_PAYLOAD_SIZE then Rejected(InvalidLength)
      else
        var total := SEGMENT_BLOCK_HEADER_SIZE + h.length + CHECKSUM_SIZE;
        if |b| < total then Rejected(IncompleteBlock) else DecodeFrame(b[..total], h)
  }

  function DecodeFrame(frame: Bytes, h: BlockHeader): BlockDecodeResult
    requires |frame| == SEGMENT_BLOCK_HEADER_SIZE + h.length + CHECKSUM_SIZE
  {
    if !Sealed(frame) then Rejected(ChecksumMismatch)
    else if h.version != SEGMENT_BLOCK_VERSION then Rejected(UnsupportedVersion)
    else if h.flags != SEGMENT_BLOCK_FLAGS then Rejected(UnsupportedFlags)
    else if h.sampleCount == 0 || h.sampleCount > MAX_SAMPLES_PER_SEGMENT_BLOCK then Rejected(InvalidSampleCount)
    else
      match ParsePayload(frame[SEGMENT_BLOCK_HEADER_SIZE..SEGMENT_BLOCK_HEADER_SIZE + h.length], h.sampleCount)
      case None => Rejected(InvalidPayload)
      case Some(block) => Decoded(block, |frame|)
  }

  lemma HeaderFields(n: nat, count: nat)
    requires n <= U32_MAX && count <= U32_MAX
    ensures |Header(n, count)| == SEGMENT_BLOCK_HEADER_SIZE
    ensures ParseHeader(Header(n, count))
         == BlockHeader(SEGMENT_BLOCK_MAGIC, SEGMENT_BLOCK_VERSION, SEGMENT_BLOCK_FLAGS, n, U32_MAX - n, count)
  {
    hide LE, FromLE;
    var h := Header(n, count);
    LEFits(SEGMENT_BLOCK_MAGIC);
    LEFits(SEGMENT_BLOCK_VERSION);
    LEFits(SEGMENT_BLOCK_FLAGS);
    LEFits(n);
    LEFits(U32_MAX - n);
    LEFits(count);
    var front := LE(SEGMENT_BLOCK_MAGIC, 4) + LE(SEGMENT_BLOCK_VERSION, 2) + LE(SEGMENT_BLOCK_FLAGS, 2)
                 + LE(n, 4) + LE(U32_MAX - n, 4);
    assert h == front + LE(count, 4) && |front| == 16;
    assert h[0..4] == LE(SEGMENT_BLOCK_MAGIC, 4);
    assert h[4..6] == LE(SEGMENT_BLOCK_VERSION, 2);
    assert h[6..8] == LE(SEGMENT_BLOCK_FLAGS, 2);
    assert h[8..12] == LE(n, 4);
    assert h[12..16] == LE(U32_MAX - n, 4);
    assert h[16..20] == LE(count, 4);
  }

  lemma HeaderCanonical(h: Bytes)
    requires |h| == SEGMENT_BLOCK_HEADER_SIZE
    requires var f := ParseHeader(h);
             f.magic == SEGMENT_BLOCK_MAGIC && f.version == SEGMENT_BLOCK_VERSION && f.flags == SEGMENT_BLOCK_FLAGS
             && f.inverted == U32_MAX - f.length
    ensures ParseHeader(h).length <= U32_MAX
    ensures h == Header(ParseHeader(h).length, ParseHeader(h).sampleCount)
  {
    hide LE, FromLE;
    var f := ParseHeader(h);
    LECanonical(h[0..4]);
    LECanonical(h[4..6]);
    LECanonical(h[6..8]);
    LECanonical(h[8..12]);
    LECanonical(h[12..16]);
    LECanonical(h[16..20]);
    assert f.inverted >= 0;
    assert h == h[0..4] + h[4..6] + h[6..8] + h[8..12] + h[12..16] + h[16..20];
  }

  // ----- both directions -----

  lemma PayloadRoundTrip(b: SegmentBlock)
    requires |Payload(b)| <= MAX_SEGMENT_BLOCK_PAYLOAD_SIZE
    ensures ParsePayload(Payload(b), |b.samples|) == Some(b)
  {
    hide At, EncKey, EncSamples, ParseRawKey, ParseSamples, KeyFits, KeyOf, BlockOf;
    var p := Payload(b);
    var key, samples := EncKey(b.series), EncSamples(b.samples);
    SmallKeyFits(b.series);
    SeriesKeyStrict(b.series);
    AtWhole(p);
    AtConcat(p, 0, key, samples);
    ParseRawKeyEnc(p, 0, b.series, true, ENCODED_SAMPLE_SIZE * |b.samples|);
    ParseSamplesEnc(p, |key|, b.samples);
    KeyOfCanonical(b.series);
    BlockOfBlock(b);
  }

  lemma PayloadCanonical(payload: Bytes, count: nat)
    requires ParsePayload(payload, count).Some?
    ensures var b := ParsePayload(payload, count).value;
            payload == Payload(b) && |b.samples| == count
  {
    hide At, EncKey, EncSamples, ParseRawKey, ParseSamples, KeyFits, KeyOf;
    var k := ParseRawKey(payload, 0, true, ENCODED_SAMPLE_SIZE * count).value;
    var s := ParseSamples(payload, k.next, count).value;
    ParseRawKeyCanonical(payload, 0, true, ENCODED_SAMPLE_SIZE * count);
    AtBound(payload, 0, EncKey(k.value));
    ParseSamplesCanonical(payload, k.next, count);
    KeyOfStrict(k.value);
    AtConcat(payload, 0, EncKey(k.value), EncSamples(s.value));
    AtEverything(payload, EncKey(k.value) + EncSamples(s.value));
  }

  lemma FrameShape(payload: Bytes, count: nat, suffix: Bytes)
    requires |payload| <= MAX_SEGMENT_BLOCK_PAYLOAD_SIZE && count <= U32_MAX
    ensures var f := Frame(payload, count);
            && |f| == SEGMENT_BLOCK_HEADER_SIZE + |payload| + CHECKSUM_SIZE
            && (f + suffix)[..|f|] == f
            && (f + suffix)[..SEGMENT_BLOCK_HEADER_SIZE] == Header(|payload|, count)
            && f[SEGMENT_BLOCK_HEADER_SIZE..SEGMENT_BLOCK_HEADER_SIZE + |payload|] == payload
  {
    hide LE, Checksum, Header;
    HeaderFields(|payload|, count);
    var f := Frame(payload, count);
    var m := Header(|payload|, count) + payload;
    assert f == m + f[|m|..];
    assert f[..SEGMENT_BLOCK_HEADER_SIZE] == Header(|payload|, count);
  }

  /** Decoding an encoded block, whatever follows it, returns the block and exactly its length. */
  lemma RoundTrip(b: SegmentBlock, suffix: Bytes)
    requires Encode(b).Success?
    ensures Decode(Encode(b).value + suffix) == Decoded(b, |Encode(b).value|)
  {
    hide Header, Sealed, ParseHeader, ParsePayload, Seal, Payload, Increasing;
    var payload := Payload(b);
    FrameShape(payload, |b.samples|, suffix);
    HeaderFields(|payload|, |b.samples|);
    SealIsSealed(Header(|payload|, |b.samples|) + payload);
    PayloadRoundTrip(b);
  }

  /** Accepted bytes are exactly the encoding of the block they decode to. */
  lemma Canonical(bytes: Bytes)
    requires Decode(bytes).Decoded?
    ensures Decode(bytes).bytesConsumed <= |bytes|
    ensures Encode(Decode(bytes).block) == Success(bytes[..Decode(bytes).bytesConsumed])
  {
    hide ParsePayload, Sealed, ParseHeader, Header, Seal, Payload, Increasing;
    var n := Decode(bytes).bytesConsumed;
    var f := bytes[..n];
    var h := f[..SEGMENT_BLOCK_HEADER_SIZE];
    assert h == bytes[..SEGMENT_BLOCK_HEADER_SIZE];
    var payload := f[SEGMENT_BLOCK_HEADER_SIZE..n - CHECKSUM_SIZE];
    HeaderCanonical(h);
    PayloadCanonical(payload, ParseHeader(h).sampleCount);
    SealedIsSeal(f);
    assert f[..n - CHECKSUM_SIZE] == h + payload;
  }

  // ----- the encoder and decoder -----

  method WriteSamples(writer: ByteWriter, samples: seq<Sample>)
    modifies writer
    ensures writer.data == old(writer.data) + EncSamples(samples)
  {
    for i := 0 to |samples|
      invariant writer.data + EncSamples(samples[i..]) == old(writer.data) + EncSamples(samples)
    {
      hide EncSample;
      assert samples[i..] == [samples[i]] + samples[i + 1..];
      ghost var before := writer.data;
      WriteSample(writer, samples[i]);
      assert before + (EncSample(samples[i]) + EncSamples(samples[i + 1..]))
          == writer.data + EncSamples(samples[i + 1..]);
    }
    assert samples[|samples|..] == [];
  }

  method ReadSamples(reader: ByteReader, count: nat) returns (r: Option<seq<Sample>>)
    requires reader.Valid()
    modifies reader
    ensures reader.Valid()
    ensures match ParseSamples(reader.data, old(reader.position), count)
            case None => r.None?
            case Some(p) => r == Some(p.value) && reader.position == p.next
  {
    hide ParseSample;
    var samples: seq<Sample> := [];
    ghost var all := ParseSamples(reader.data, reader.position, count);
    if all.Some? {
      assert [] + all.value.value == all.value.value;
    }
    for index := 0 to count
      invariant reader.Valid()
      invariant match ParseSamples(reader.data, reader.position, count - index)
                case None => all.None?
                case Some(p) => all == Some(Parsed(samples + p.value, p.next))
    {
      ghost var rest := ParseSamples(reader.data, reader.position, count - index);
      var s := ReadSample(reader);
      if s.None? {
        return None;
      }
      if rest.Some? {
        Regroup(samples, s.value, rest.value.value[1..]);
      }
      samples := samples + [s.value];
    }
    assert samples + [] == samples;
    r := Some(samples);
  }

  method EncodePayload(b: SegmentBlock) returns (payload: Option<Bytes>)
    ensures payload == if KeyFits(b.series) then Some(Payload(b)) else None
  {
    hide EncKey, KeyFits, EncSamples;
    var writer := new ByteWriter();
    var ok := WriteKey(writer, b.series);
    if !ok {
      return None;
    }
    assert [] + EncKey(b.series) == EncKey(b.series);
    WriteSamples(writer, b.samples);
    payload := Some(writer.data);
  }

  method EncodeSegmentBlock(b: SegmentBlock) returns (encoded: Result<Bytes, BlockEncodeError>)
    ensures encoded == Encode(b)
  {
    hide KeyFits, Payload, LE, Checksum;
    var payload := EncodePayload(b);
    if payload.None? || |payload.value| > MAX_SEGMENT_BLOCK_PAYLOAD_SIZE {
      if payload.None? {
        LargeKeyLargePayload(b);
      }
      return Failure(PayloadTooLarge);
    }
    var writer := new ByteWriter();
    writer.WriteU32(SEGMENT_BLOCK_MAGIC);
    writer.WriteU16(SEGMENT_BLOCK_VERSION);
    writer.WriteU16(SEGMENT_BLOCK_FLAGS);
    writer.WriteU32(|payload.value|);
    writer.WriteU32(Inverted(|payload.value|));
    writer.WriteU32(|b.samples|);
    assert writer.data == Header(|payload.value|, |b.samples|);
    writer.WriteBytes(payload.value);
    var checksum := Compute(writer.data);
    writer.WriteU32(checksum);
    encoded := Success(writer.data);
  }

  lemma LargeKeyLargePayload(b: SegmentBlock)
    requires !KeyFits(b.series)
    ensures |Payload(b)| > MAX_SEGMENT_BLOCK_PAYLOAD_SIZE
  {
    if |Payload(b)| <= MAX_SEGMENT_BLOCK_PAYLOAD_SIZE {
      SmallKeyFits(b.series);
    }
  }

  method DecodePayload(payload: Bytes, sampleCount: nat) returns (block: Option<SegmentBlock>)
    ensures block == ParsePayload(payload, sampleCount)
  {
    hide ParseRawKey, KeyOf, ParseSamples, BlockOf, ValidBlock;
    var reader := new ByteReader(payload);
    var key := ReadRawKey(reader, true, ENCODED_SAMPLE_SIZE * sampleCount);
    if key.None? {
      return None;
    }
    var samples := ReadSamples(reader, sampleCount);
    if samples.None? || reader.Remaining() != 0 {
      return None;
    }
    var series := MakeSeriesKey(key.value.measurement, key.value.tags);
    if series.Failure? {
      return None;
    }
    var made := MakeBlock(series.value, samples.value);
    block := if made.Success? then Some(made.value) else None;
  }

  method DecodeSegmentBlock(bytes: Bytes) returns (result: BlockDecodeResult)
    ensures result == Decode(bytes)
  {
    hide ParsePayload, FromLE, Checksum, Inverted;
    if |bytes| < SEGMENT_BLOCK_HEADER_SIZE {
      return Rejected(IncompleteBlock);
    }
    FrameFields(bytes);
    var reader := new ByteReader(bytes);
    var magic := reader.ReadU32();
    var version := reader.ReadU16();
    var flags := reader.ReadU16();
    var length := reader.ReadU32();
    var inverted := reader.ReadU32();
    var sampleCount := reader.ReadU32();
    if magic.value != SEGMENT_BLOCK_MAGIC {
      return Rejected(InvalidMagic);
    }
    if inverted.value != Inverted(length.value) || length.value > MAX_SEGMENT_BLOCK_PAYLOAD_SIZE {
      return Rejected(InvalidLength);
    }
    var protectedSize := SEGMENT_BLOCK_HEADER_SIZE + length.value;
    var total := protectedSize + CHECKSUM_SIZE;
    if |bytes| < total {
      return Rejected(IncompleteBlock);
    }
    var intact := CheckSeal(bytes[..total]);
    if !intact {
      return Rejected(ChecksumMismatch);
    }
    if version.value != SEGMENT_BLOCK_VERSION {
      return Rejected(UnsupportedVersion);
    }
    if flags.value != SEGMENT_BLOCK_FLAGS {
      return Rejected(UnsupportedFlags);
    }
    if sampleCount.value == 0 || sampleCount.value > MAX_SAMPLES_PER_SEGMENT_BLOCK {
      return Rejected(InvalidSampleCount);
    }
    assert bytes[..total][SEGMENT_BLOCK_HEADER_SIZE..protectedSize] == bytes[SEGMENT_BLOCK_HEADER_SIZE..protectedSize];
    var block := DecodePayload(bytes[SEGMENT_BLOCK_HEADER_SIZE..protectedSize], sampleCount.value);
    result := if block.None? then Rejected(InvalidPayload) else Decoded(block.value, total);
  }

  lemma FrameFields(f: Bytes)
    requires |f| >= SEGMENT_BLOCK_HEADER_SIZE
    ensures ParseHeader(f[..SEGMENT_BLOCK_HEADER_SIZE])
         == BlockHeader(FromLE(f[0..4]), FromLE(f[4..6]), FromLE(f[6..8]), FromLE(f[8..12]), FromLE(f[12..16]),
                        FromLE(f[16..20]))
  {
    hide FromLE;
    var h := f[..SEGMENT_BLOCK_HEADER_SIZE];
    assert h[0..4] == f[0..4] && h[4..6] == f[4..6] && h[6..8] == f[6..8];
    assert h[8..12] == f[8..12] && h[12..16] == f[12..16] && h[16..20] == f[16..20];
  }
}
