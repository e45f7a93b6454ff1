/**
  One write-ahead-log record: a self-delimiting frame around a PUT payload.

  `Frame` and `Decode` say what the encoder writes and what the decoder answers; the methods are proved to compute
  them. The decoder's verdict depends only on the frame itself (`VerdictStable`), a torn frame is always recognised
  as incomplete (`TornFrameIncomplete`), and a burst of damage is never taken for a record (`BurstRejected`).
 */
module WalRecord {
  import opened Prelude
  import opened Words
  import opened Model
  import opened ByteCodec
  import opened KeyCodec
  import opened Crc32c
  import opened Sealing

  const WAL_MAGIC: u32 := 0x4C57_5343
  const WAL_VERSION: u8 := 1
  const PUT_RECORD: u8 := 1
  const MAX_PAYLOAD_SIZE: nat := 16 * 1024 * 1024
  const WAL_HEADER_SIZE: nat := 14

  datatype WalPutRecord = WalPutRecord(series: SeriesKey, sample: Sample)

  datatype WalDecodeError =
    | IncompleteRecord | InvalidMagic | UnsupportedVersion | UnsupportedRecordType
    | InvalidLength | ChecksumMismatch | InvalidPayload

  datatype WalDecodeResult = Decoded(record: WalPutRecord, bytesConsumed: nat) | Rejected(error: WalDecodeError)

  datatype WalEncodeError = PayloadTooLarge

  // ----- encoding -----

  function Payload(r: WalPutRecord): Bytes {
    EncKey(r.series) + EncSample(r.sample)
  }

  function Header(payloadSize: nat): Bytes
    requires payloadSize <= U32_MAX
  {
    LE(WAL_MAGIC, 4) + LE(WAL_VERSION, 1) + LE(PUT_RECORD, 1) + LE(payloadSize, 4) + LE(U32_MAX - payloadSize, 4)
  }

  function Frame(payload: Bytes): Bytes
    requires |payload| <= MAX_PAYLOAD_SIZE
  {
    Seal(Header(|payload|) + payload)
  }

  function Encode(r: WalPutRecord): Result<Bytes, WalEncodeError> {
    if |Payload(r)| > MAX_PAYLOAD_SIZE then Failure(PayloadTooLarge) else Success(Frame(Payload(r)))
  }

  // ----- decoding -----

  datatype WalHeader = WalHeader(magic: nat, version: nat, recordType: nat, length: nat, inverted: nat)

  function ParseHeader(h: Bytes): WalHeader
    requires |h| == WAL_HEADER_SIZE
  {
    WalHeader(FromLE(h[0..4]), h[4], h[5], FromLE(h[6..10]), FromLE(h[10..14]))
  }

  function ParsePayload(payload: Bytes): Option<WalPutRecord> {
    match ParseRawKey(payload, 0, false, 0)
    case None => None
    case Some(key) =>
      match ParseSample(payload, key.next)
      case None => None
      case Some(sample) =>
        if sample.next != |payload| then None
        else
          match KeyOf(key.value.measurement, key.value.tags)
          case Failure(_) => None
          case Success(series) => Some(WalPutRecord(series, sample.value))
  }

  function Decode(b: Bytes): WalDecodeResult {
    if |b| < WAL_HEADER_SIZE then Rejected(IncompleteRecord)
    else
      var h := ParseHeader(b[..WAL_HEADER_SIZE]);
      if h.magic != WAL_MAGIC then Rejected(InvalidMagic)
      else if h.inverted != U32_MAX - h.length then Rejected(InvalidLength)
      else if h.length > MAX_PAYLOAD_SIZE then Rejected(InvalidLength)
      else
        var total := WAL_HEADER_SIZE + h.length + CHECKSUM_SIZE;
        if |b| < total then Rejected(IncompleteRecord) else DecodeFrame(b[..total], h)
  }

  /** A frame of the announced size. */
  function DecodeFrame(frame: Bytes, h: WalHeader): WalDecodeResult
    requires |frame| == WAL_HEADER_SIZE + h.length + CHECKSUM_SIZE
  {
    if !Sealed(frame) then Rejected(ChecksumMismatch)
    else if h.version != WAL_VERSION then Rejected(UnsupportedVersion)
    else if h.recordType != PUT_RECORD then Rejected(UnsupportedRecordType)
    else
      match ParsePayload(frame[WAL_HEADER_SIZE..WAL_HEADER_SIZE + h.length])
      case None => Rejected(InvalidPayload)
      case Some(r) => Decoded(r, |frame|)
  }

  // ----- the frame, field by field -----

  lemma HeaderFields(n: nat)
    requires n <= U32_MAX
    ensures |Header(n)| == WAL_HEADER_SIZE
    ensures ParseHeader(Header(n)) == WalHeader(WAL_MAGIC, WAL_VERSION, PUT_RECORD, n, U32_MAX - n)
  {
    hide LE, FromLE;
    var h := Header(n);
    LEFits(WAL_MAGIC);
    LEFits(n);
    LEFits(U32_MAX - n);
    assert h[0..4] == LE(WAL_MAGIC, 4);
    assert h[6..10] == LE(n, 4);
    assert h[10..14] == LE(U32_MAX - n, 4);
    assert h[4] == LE(WAL_VERSION, 1)[0] && h[5] == LE(PUT_RECORD, 1)[0];
    OneByte(WAL_VERSION);
    OneByte(PUT_RECORD);
  }

  lemma OneByte(n: u8)
    ensures LE(n, 1) == [n]
  {}

  lemma HeaderCanonical(h: Bytes)
    requires |h| == WAL_HEADER_SIZE
    requires var f := ParseHeader(h);
             f.magic == WAL_MAGIC && f.version == WAL_VERSION && f.recordType == PUT_RECORD
             && f.inverted == U32_MAX - f.length
    ensures ParseHeader(h).length <= U32_MAX
    ensures h == Header(ParseHeader(h).length)
  {
    hide LE, FromLE;
    var f := ParseHeader(h);
    LECanonical(h[0..4]);
    LECanonical(h[6..10]);
    LECanonical(h[10..14]);
    OneByte(h[4]);
    OneByte(h[5]);
    assert f.inverted >= 0;
    assert h == h[0..4] + [h[4]] + [h[5]] + h[6..10] + h[10..14];
  }

  // ----- round trip -----

  /** Any order of the same tags decodes to the record with the canonical key. */
  lemma TagOrderIgnored(measurement: Bytes, tags: seq<Tag>, sample: Sample)
    requires KeyOf(measurement, tags).Success?
    requires |EncKey(SeriesKey(measurement, tags)) + EncSample(sample)| <= MAX_PAYLOAD_SIZE
    ensures ParsePayload(EncKey(SeriesKey(measurement, tags)) + EncSample(sample))
         == Some(WalPutRecord(KeyOf(measurement, tags).value, sample))
  {
    hide At, EncKey, ParseRawKey, ParseSample, EncSample, KeyFits, KeyOf;
    var raw := SeriesKey(measurement, tags);
    var key := EncKey(raw);
    var p := key + EncSample(sample);
    SmallKeyFits(raw);
    AtWhole(p);
    AtConcat(p, 0, key, EncSample(sample));
    ParseRawKeyEnc(p, 0, raw, false, 0);
    ParseSampleEnc(p, |key|, sample);
  }

  lemma PayloadRoundTrip(r: WalPutRecord)
    requires |Payload(r)| <= MAX_PAYLOAD_SIZE
    ensures ParsePayload(Payload(r)) == Some(r)
  {
    hide ParsePayload, EncKey, KeyOf;
    KeyOfCanonical(r.series);
    TagOrderIgnored(r.series.measurement, r.series.tags, r.sample);
  }

  lemma FrameShape(payload: Bytes, suffix: Bytes)
    requires |payload| <= MAX_PAYLOAD_SIZE
    ensures var b := Frame(payload) + suffix;
            && |Frame(payload)| == WAL_HEADER_SIZE + |payload| + CHECKSUM_SIZE
            && b[..|Frame(payload)|] == Frame(payload)
            && b[..WAL_HEADER_SIZE] == Header(|payload|)
            && Frame(payload)[WAL_HEADER_SIZE..WAL_HEADER_SIZE + |payload|] == payload
  {
    hide LE, Checksum, Header;
    HeaderFields(|payload|);
    var f := Frame(payload);
    var m := Header(|payload|) + payload;
    assert f == m + f[|m|..];
    assert f[..WAL_HEADER_SIZE] == Header(|payload|);
  }

  /** Decoding an encoded record, whatever follows it, returns the record and exactly its length. */
  lemma RoundTrip(r: WalPutRecord, suffix: Bytes)
    requires Encode(r).Success?
    ensures Decode(Encode(r).value + suffix) == Decoded(r, |Encode(r).value|)
  {
    hide Header, Frame, Sealed, ParseHeader, ParsePayload, Payload;
    var payload := Payload(r);
    FrameDecodes(payload, suffix);
    PayloadRoundTrip(r);
  }

  lemma FrameDecodes(payload: Bytes, suffix: Bytes)
    requires |payload| <= MAX_PAYLOAD_SIZE
    ensures Decode(Frame(payload) + suffix) ==
            match ParsePayload(payload)
            case None => Rejected(InvalidPayload)
            case Some(r) => Decoded(r, |Frame(payload)|)
  {
    hide Header, Sealed, ParseHeader, ParsePayload, Seal;
    FrameShape(payload, suffix);
    HeaderFields(|payload|);
    SealIsSealed(Header(|payload|) + payload);
  }

  // ----- the verdict depends only on the frame -----

  lemma DecodedSize(b: Bytes)
    requires Decode(b).Decoded?
    ensures WAL_HEADER_SIZE + CHECKSUM_SIZE <= Decode(b).bytesConsumed <= |b|
  {}

  /** The consumed bytes alone decode to the same record. */
  lemma FrameAlone(b: Bytes)
    requires Decode(b).Decoded?
    ensures Decode(b).bytesConsumed <= |b|
    ensures Decode(b[..Decode(b).bytesConsumed]) == Decode(b)
  {
    hide ParseHeader, ParsePayload, Sealed;
    var n := Decode(b).bytesConsumed;
    var first := b[..n];
    assert first[..WAL_HEADER_SIZE] == b[..WAL_HEADER_SIZE];
    assert first[..n] == first;
  }

  /** Any verdict other than incomplete is unchanged by further bytes. */
  lemma VerdictStable(b: Bytes, more: Bytes)
    requires Decode(b) != Rejected(IncompleteRecord)
    ensures Decode(b + more) == Decode(b)
  {
    hide ParseHeader, Sealed, ParsePayload;
    var all := b + more;
    assert all[..WAL_HEADER_SIZE] == b[..WAL_HEADER_SIZE];
    var total := WAL_HEADER_SIZE + ParseHeader(b[..WAL_HEADER_SIZE]).length + CHECKSUM_SIZE;
    if total <= |b| {
      assert all[..total] == b[..total];
    }
  }

  /** Every strict prefix of an accepted frame, the empty one included, is reported as incomplete. */
  lemma TornFrameIncomplete(b: Bytes, k: nat)
    requires Decode(b).Decoded? && k < Decode(b).bytesConsumed
    ensures Decode(b[..k]) == Rejected(IncompleteRecord)
  {
    hide ParseHeader, Sealed, ParsePayload;
    if k >= WAL_HEADER_SIZE {
      assert b[..k][..WAL_HEADER_SIZE] == b[..WAL_HEADER_SIZE];
    }
  }

  lemma TornRecordIncomplete(r: WalPutRecord, k: nat)
    requires Encode(r).Success? && k < |Encode(r).value|
    ensures Decode(Encode(r).value[..k]) == Rejected(IncompleteRecord)
  {
    hide Decode, Encode;
    var e := Encode(r).value;
    RoundTrip(r, []);
    assert e + [] == e;
    TornFrameIncomplete(e, k);
  }

  // ----- damage -----

  lemma InvertedBits(length: Bytes, inverted: Bytes)
    requires |length| == |inverted| == 4
    requires FromLE(inverted) == U32_MAX - FromLE(length)
    ensures forall j :: 0 <= j < WIDTH ==> BitsOfBytes(inverted)[j] == !BitsOfBytes(length)[j]
  {
    hide FromLE, BitsOfBytes, ValueOf;
    var bits := BitsOfBytes(length);
    var flipped := seq(WIDTH, j requires 0 <= j < WIDTH => !bits[j]);
    Pow2Values();
    ComplementValue(bits, flipped);
    ValueOfByteBits(length);
    ValueOfByteBits(inverted);
    BitsOfValue(flipped);
    BitsOfValue(BitsOfBytes(inverted));
  }

  lemma BitsOfSlice(b: Bytes, from: nat, to: nat)
    requires from <= to <= |b|
    ensures BitsOfBytes(b[from..to]) == BitsOfBytes(b)[8 * from..8 * to]
  {
    hide BitsOfBytes;
    var front, middle, back := b[..from], b[from..to], b[to..];
    assert b == front + middle + back;
    BitsOfBytesConcat(front + middle, back);
    BitsOfBytesConcat(front, middle);
    InTheMiddle(BitsOfBytes(front), BitsOfBytes(middle), BitsOfBytes(back));
  }

  lemma InTheMiddle<T>(front: seq<T>, middle: seq<T>, back: seq<T>)
    ensures (front + middle + back)[|front|..|front| + |middle|] == middle
  {}

  /** A length and its inverse lie 32 bits apart, so no burst can change both consistently. */
  lemma BurstBreaksLength(e: Bytes, d: Bytes, start: nat)
    requires |e| >= WAL_HEADER_SIZE && |d| == |e| && AgreeOutside(e, d, start)
    requires FromLE(e[10..14]) == U32_MAX - FromLE(e[6..10])
    requires FromLE(d[10..14]) == U32_MAX - FromLE(d[6..10])
    ensures e[6..10] == d[6..10] && e[10..14] == d[10..14]
  {
    hide FromLE, BitsOfBytes;
    InvertedBits(e[6..10], e[10..14]);
    InvertedBits(d[6..10], d[10..14]);
    BitsOfSlice(e, 6, 10);
    BitsOfSlice(e, 10, 14);
    BitsOfSlice(d, 6, 10);
    BitsOfSlice(d, 10, 14);
    var le, ie, ld, id := BitsOfBytes(e[6..10]), BitsOfBytes(e[10..14]), BitsOfBytes(d[6..10]), BitsOfBytes(d[10..14]);
    forall j | 0 <= j < WIDTH
      ensures le[j] == ld[j] && ie[j] == id[j]
    {
      if start <= 48 + j {
        assert BitsOfBytes(e)[80 + j] == BitsOfBytes(d)[80 + j];
      } else {
        assert BitsOfBytes(e)[48 + j] == BitsOfBytes(d)[48 + j];
      }
    }
    BitsOfBytesInjective(e[6..10], d[6..10]);
    BitsOfBytesInjective(e[10..14], d[10..14]);
  }

  /**
    A frame with damage inside any 32 consecutive bits is never decoded as a record, whatever follows it, and which
    field was hit decides the verdict. In particular damage to the payload is a checksum mismatch.
   */
  lemma BurstRejected(payload: Bytes, damaged: Bytes, start: nat, suffix: Bytes)
    requires |payload| <= MAX_PAYLOAD_SIZE
    requires AgreeOutside(Frame(payload), damaged, start) && damaged != Frame(payload)
    ensures |damaged| == WAL_HEADER_SIZE + |payload| + CHECKSUM_SIZE
    ensures Decode(damaged + suffix) == Rejected(
              if damaged[0..4] != Frame(payload)[0..4] then InvalidMagic
              else if damaged[6..14] != Frame(payload)[6..14] then InvalidLength
              else ChecksumMismatch)
  {
    hide Frame, Header, Sealed, ParsePayload, FromLE, BitsOfBytes;
    var e := Frame(payload);
    var b := damaged + suffix;
    assert |BitsOfBytes(e)| == 8 * |e| && |BitsOfBytes(damaged)| == 8 * |damaged|;
    FrameShape(payload, []);
    assert e + [] == e;
    HeaderFields(|payload|);
    FrameFields(e);
    FrameFields(damaged);
    FrameIsSealed(payload);
    assert b[..WAL_HEADER_SIZE] == damaged[..WAL_HEADER_SIZE];
    if damaged[0..4] != e[0..4] {
      if FromLE(damaged[0..4]) == WAL_MAGIC {
        FromLEInjective(damaged[0..4], e[0..4]);
      }
    } else if FromLE(damaged[10..14]) == U32_MAX - FromLE(damaged[6..10]) {
      BurstBreaksLength(e, damaged, start);
      assert damaged[6..14] == damaged[6..10] + damaged[10..14];
      assert e[6..14] == e[6..10] + e[10..14];
      BurstBreaksSeal(e, damaged, start);
      assert b[..|damaged|] == damaged;
    } else {
      assert damaged[6..10] == damaged[6..14][0..4] && damaged[10..14] == damaged[6..14][4..8];
      assert e[6..10] == e[6..14][0..4] && e[10..14] == e[6..14][4..8];
    }
  }

  lemma FrameIsSealed(payload: Bytes)
    requires |payload| <= MAX_PAYLOAD_SIZE
    ensures Sealed(Frame(payload))
  {
    hide Sealed, Seal, Header;
    SealIsSealed(Header(|payload|) + payload);
  }

  lemma FrameFields(f: Bytes)
    requires |f| >= WAL_HEADER_SIZE
    ensures var h := ParseHeader(f[..WAL_HEADER_SIZE]);
            && h.magic == FromLE(f[0..4]) && h.length == FromLE(f[6..10]) && h.inverted == FromLE(f[10..14])
  {
    hide FromLE;
    var h := f[..WAL_HEADER_SIZE];
    assert h[0..4] == f[0..4] && h[6..10] == f[6..10] && h[10..14] == f[10..14];
  }

  // ----- what the decoder accepts -----

  /** Accepted bytes are a frame around the payload they contain. */
  lemma AcceptedIsFrame(b: Bytes) returns (payload: Bytes)
    requires Decode(b).Decoded?
    ensures |payload| <= MAX_PAYLOAD_SIZE
    ensures b[..Decode(b).bytesConsumed] == Frame(payload)
    ensures ParsePayload(payload) == Some(Decode(b).record)
  {
    hide ParsePayload, Sealed, ParseHeader, Header, Seal;
    var n := Decode(b).bytesConsumed;
    var f := b[..n];
    var h := f[..WAL_HEADER_SIZE];
    assert h == b[..WAL_HEADER_SIZE];
    payload := f[WAL_HEADER_SIZE..n - CHECKSUM_SIZE];
    HeaderCanonical(h);
    SealedIsSeal(f);
    assert f[..n - CHECKSUM_SIZE] == h + payload;
  }

  /**
    The decoder is not canonical: an accepted payload is the one the encoder writes for its record if and only if
    its tags already stand in strictly increasing key order.
   */
  lemma CanonicalIffTagsOrdered(payload: Bytes)
    requires |payload| <= MAX_PAYLOAD_SIZE
    requires ParsePayload(payload).Some?
    ensures ParseRawKey(payload, 0, false, 0).Some?
    ensures payload == Payload(ParsePayload(payload).value)
       <==> StrictTags(ParseRawKey(payload, 0, false, 0).value.value.tags)
  {
    hide At, EncKey, ParseRawKey, ParseSample, EncSample, KeyFits, KeyOf, StrictTags;
    var r := ParsePayload(payload).value;
    var k := ParseRawKey(payload, 0, false, 0).value;
    var raw := k.value;
    PayloadBytes(payload);
    if StrictTags(raw.tags) {
      KeyOfStrict(raw);
    }
    if payload == Payload(r) {
      SmallKeyFits(r.series);
      AtWhole(payload);
      AtConcat(payload, 0, EncKey(r.series), EncSample(r.sample));
      SeriesKeyStrict(r.series);
      ParseRawKeyEnc(payload, 0, r.series, false, 0);
    }
  }

  /** Two tags out of order: accepted, and not what the encoder writes for the record. */
  lemma UnorderedAccepted() returns (payload: Bytes, r: WalPutRecord)
    ensures |payload| <= MAX_PAYLOAD_SIZE
    ensures Decode(Frame(payload)) == Decoded(r, |Frame(payload)|)
    ensures payload != Payload(r)
  {
    var first: Tag, second: Tag := Tag([2], []), Tag([1], []);
    var tags, sample := [first, second], Sample(0, 0);
    var raw := SeriesKey([1], tags);
    payload := EncKey(raw) + EncSample(sample);
    assert tags[1..] == [second] && [second][1..] == [];
    assert EncTags([second]) == EncTag(second) + EncTags([]);
    assert EncTags(tags) == EncTag(first) + EncTags([second]);
    hide At, EncKey, ParseRawKey, ParseSample, EncSample, KeyFits, KeyOf, Frame, EncTags;
    TwoTags(tags);
    SmallKeyFits(raw);
    TagOrderIgnored([1], tags, sample);
    r := WalPutRecord(KeyOf([1], tags).value, sample);
    FrameDecodes(payload, []);
    assert Frame(payload) + [] == Frame(payload);
    AtWhole(payload);
    AtConcat(payload, 0, EncKey(raw), EncSample(sample));
    ParseRawKeyEnc(payload, 0, raw, false, 0);
    CanonicalIffTagsOrdered(payload);
  }

  lemma TwoTags(tags: seq<Tag>)
    requires |tags| == 2 && tags[0].key == [2] && tags[1].key == [1]
    ensures KeyOf([1], tags).Success? && !StrictTags(tags)
  {
    hide KeyOf;
    KeyAcceptedIff([1], tags);
    assert !StringLess(tags[0].key, tags[1].key);
  }

  /** An accepted payload spells its raw key and then its sample. */
  lemma PayloadBytes(payload: Bytes)
    requires ParsePayload(payload).Some?
    ensures var raw := ParseRawKey(payload, 0, false, 0).value.value;
            payload == EncKey(raw) + EncSample(ParsePayload(payload).value.sample)
  {
    hide At, EncKey, ParseRawKey, ParseSample, EncSample, KeyFits, KeyOf;
    var k := ParseRawKey(payload, 0, false, 0).value;
    var sample := ParsePayload(payload).value.sample;
    ParseRawKeyCanonical(payload, 0, false, 0);
    ParseSampleCanonical(payload, k.next);
    AtConcat(payload, 0, EncKey(k.value), EncSample(sample));
    AtEverything(payload, EncKey(k.value) + EncSample(sample));
  }

  // ----- the encoder and decoder -----

  method EncodePayload(record: WalPutRecord) returns (payload: Option<Bytes>)
    ensures payload == if KeyFits(record.series) then Some(Payload(record)) else None
  {
    hide EncKey, KeyFits, EncSample;
    var writer := new ByteWriter();
    var ok := WriteKey(writer, record.series);
    if !ok {
      return None;
    }
    assert [] + EncKey(record.series) == EncKey(record.series);
    WriteSample(writer, record.sample);
    payload := Some(writer.data);
  }

  method EncodeWalRecord(record: WalPutRecord) returns (encoded: Result<Bytes, WalEncodeError>)
    ensures encoded == Encode(record)
  {
    hide KeyFits, Payload, LE, Checksum;
    var payload := EncodePayload(record);
    if payload.None? || |payload.value| > MAX_PAYLOAD_SIZE {
      if payload.None? {
        LargeKeyLargePayload(record);
      }
      return Failure(PayloadTooLarge);
    }
    var writer := new ByteWriter();
    writer.WriteU32(WAL_MAGIC);
    writer.WriteU8(WAL_VERSION);
    writer.WriteU8(PUT_RECORD);
    writer.WriteU32(|payload.value|);
    writer.WriteU32(Inverted(|payload.value|));
    assert writer.data == Header(|payload.value|);
    writer.WriteBytes(payload.value);
    var checksum := Compute(writer.data);
    writer.WriteU32(checksum);
    encoded := Success(writer.data);
  }

  lemma LargeKeyLargePayload(record: WalPutRecord)
    requires !KeyFits(record.series)
    ensures |Payload(record)| > MAX_PAYLOAD_SIZE
  {
    if |Payload(record)| <= MAX_PAYLOAD_SIZE {
      SmallKeyFits(record.series);
    }
  }

  method DecodePayload(payload: Bytes) returns (record: Option<WalPutRecord>)
    ensures record == ParsePayload(payload)
  {
    hide ParseRawKey, KeyOf, ParseSample;
    var reader := new ByteReader(payload);
    var key := ReadRawKey(reader, false, 0);
    if key.None? {
      return None;
    }
    var sample := ReadSample(reader);
    if sample.None? || reader.Remaining() != 0 {
      return None;
    }
    var series := MakeSeriesKey(key.value.measurement, key.value.tags);
    if series.Failure? {
      return None;
    }
    record := Some(WalPutRecord(series.value, sample.value));
  }

  method DecodeWalRecord(bytes: Bytes) returns (result: WalDecodeResult)
    ensures result == Decode(bytes)
  {
    hide ParsePayload, FromLE, Checksum;
    if |bytes| < WAL_HEADER_SIZE {
      return Rejected(IncompleteRecord);
    }
    FrameFields(bytes);
    var reader := new ByteReader(bytes);
    var magic := reader.ReadU32();
    var version := reader.ReadU8();
    var recordType := reader.ReadU8();
    var length := reader.ReadU32();
    var inverted := reader.ReadU32();
    if magic.value != WAL_MAGIC {
      return Rejected(InvalidMagic);
    }
    if inverted.value != Inverted(length.value) {
      return Rejected(InvalidLength);
    }
    if length.value > MAX_PAYLOAD_SIZE {
      return Rejected(InvalidLength);
    }
    var protectedSize := WAL_HEADER_SIZE + length.value;
    var total := protectedSize + CHECKSUM_SIZE;
    if |bytes| < total {
      return Rejected(IncompleteRecord);
    }
    var intact := CheckSeal(bytes[..total]);
    if !intact {
      return Rejected(ChecksumMismatch);
    }
    if version.value != WAL_VERSION {
      return Rejected(UnsupportedVersion);
    }
    if recordType.value != PUT_RECORD {
      return Rejected(UnsupportedRecordType);
    }
    assert bytes[..total][WAL_HEADER_SIZE..protectedSize] == bytes[WAL_HEADER_SIZE..protectedSize];
    var record := DecodePayload(bytes[WAL_HEADER_SIZE..protectedSize]);
    result := if record.None? then Rejected(InvalidPayload) else Decoded(record.value, total);
  }
}
