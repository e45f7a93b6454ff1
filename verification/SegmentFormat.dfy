/**
  The layout of a segment file: a header, blocks laid end to end, a checksummed sparse index with one entry per
  block, and a footer that repeats the header.

  Writing and reading are inverse in both directions. `OpensAsWritten` and `BlocksReadBack` say that what the writer
  publishes opens and yields the blocks given; `OnlyTheWriterWrites` says that a file which opens and whose blocks
  all read back is, byte for byte, what the writer produces for those blocks.
 */
module SegmentFormat {
  import opened Prelude
  import opened Model
  import opened ByteCodec
  import opened KeyCodec
  import opened Crc32c
  import opened Sealing
  import B = SegmentBlocks

  const SEGMENT_FILE_MAGIC: u32 := 0x4647_5343
  const SEGMENT_FOOTER_MAGIC: u32 := 0x5446_5343
  const SEGMENT_INDEX_MAGIC: u32 := 0x5849_5343
  const SEGMENT_FILE_VERSION: u16 := 1
  const SEGMENT_FILE_FLAGS: u16 := 0
  const SEGMENT_HEADER_SIZE: nat := 32
  const SEGMENT_FOOTER_SIZE: nat := 32
  const SEGMENT_INDEX_HEADER_SIZE: nat := 20
  const MAX_INDEX_PAYLOAD_SIZE: nat := 64 * 1024 * 1024
  const MAX_SEGMENT_BLOCK_COUNT: nat := 1_000_000

  datatype SegmentWriteError = EmptySegment | TooManyBlocks | BlocksNotOrdered | BlockTooLarge | IndexTooLarge

  datatype SegmentFormatError =
    | FileTooSmall | InvalidMagic | ChecksumMismatch | Unsupported | InvalidBlockCount | HeaderFooterDisagree
    | InvalidIndexBounds | IndexIncomplete | InvalidIndexMetadata | InvalidIndexEntry | TrailingIndexBytes
    | IndexNotValid | BlockMismatch

  // ----- header and footer -----

  datatype Envelope = Envelope(blockCount: nat, indexOffset: nat, indexSize: nat)

  predicate EnvelopeFits(e: Envelope) {
    1 <= e.blockCount <= MAX_SEGMENT_BLOCK_COUNT && e.indexOffset <= U64_MAX && e.indexSize <= U64_MAX
  }

  function Preamble(magic: u32): Bytes {
    LE(magic, 4) + LE(SEGMENT_FILE_VERSION, 2) + LE(SEGMENT_FILE_FLAGS, 2)
  }

  function EncHeader(e: Envelope): Bytes {
    Seal(Preamble(SEGMENT_FILE_MAGIC) + LE(e.blockCount, 4) + LE(e.indexOffset, 8) + LE(e.indexSize, 8))
  }

  function EncFooter(e: Envelope): Bytes {
    Seal(Preamble(SEGMENT_FOOTER_MAGIC) + LE(e.indexOffset, 8) + LE(e.indexSize, 8) + LE(e.blockCount, 4))
  }

  predicate Supported(b: Bytes)
    requires |b| >= 8
  {
    FromLE(b[4..6]) == SEGMENT_FILE_VERSION && FromLE(b[6..8]) == SEGMENT_FILE_FLAGS
  }

  function ParseHeader(b: Bytes): Result<Envelope, SegmentFormatError>
    requires |b| == SEGMENT_HEADER_SIZE
  {
    if FromLE(b[0..4]) != SEGMENT_FILE_MAGIC then Failure(InvalidMagic)
    else if !Sealed(b) then Failure(ChecksumMismatch)
    else if !Supported(b) then Failure(Unsupported)
    else if FromLE(b[8..12]) == 0 || FromLE(b[8..12]) > MAX_SEGMENT_BLOCK_COUNT then Failure(InvalidBlockCount)
    else Success(Envelope(FromLE(b[8..12]), FromLE(b[12..20]), FromLE(b[20..28])))
  }

  function ParseFooter(b: Bytes): Result<Envelope, SegmentFormatError>
    requires |b| == SEGMENT_FOOTER_SIZE
  {
    if FromLE(b[0..4]) != SEGMENT_FOOTER_MAGIC then Failure(InvalidMagic)
    else if !Sealed(b) then Failure(ChecksumMismatch)
    else if !Supported(b) then Failure(Unsupported)
    else Success(Envelope(FromLE(b[24..28]), FromLE(b[8..16]), FromLE(b[16..24])))
  }

  lemma PreambleFields(magic: u32, rest: Bytes)
    ensures |Preamble(magic)| == 8
    ensures var b := Preamble(magic) + rest;
            FromLE(b[0..4]) == magic && Supported(b) && b[8..] == rest
  {
    hide LE, FromLE;
    var b := Preamble(magic) + rest;
    LEFits(magic);
    LEFits(SEGMENT_FILE_VERSION);
    LEFits(SEGMENT_FILE_FLAGS);
    assert b[0..4] == LE(magic, 4) && b[4..6] == LE(SEGMENT_FILE_VERSION, 2) && b[6..8] == LE(SEGMENT_FILE_FLAGS, 2);
  }

  lemma PreambleCanonical(b: Bytes, magic: u32)
    requires |b| >= 8 && FromLE(b[0..4]) == magic && Supported(b)
    ensures b[..8] == Preamble(magic)
  {
    hide LE, FromLE;
    LECanonical(b[0..4]);
    LECanonical(b[4..6]);
    LECanonical(b[6..8]);
    assert b[..8] == b[0..4] + b[4..6] + b[6..8];
  }

  lemma HeaderRoundTrip(e: Envelope)
    requires EnvelopeFits(e)
    ensures |EncHeader(e)| == SEGMENT_HEADER_SIZE && ParseHeader(EncHeader(e)) == Success(e)
  {
    hide LE, FromLE, Preamble, Supported, Sealed, Checksum;
    var count, offset, size := LE(e.blockCount, 4), LE(e.indexOffset, 8), LE(e.indexSize, 8);
    var m := Preamble(SEGMENT_FILE_MAGIC) + count + offset + size;
    var b := EncHeader(e);
    var c := LE(Checksum(m), 4);
    SealIsSealed(m);
    LEFits(e.blockCount);
    LEFits(e.indexOffset);
    LEFits(e.indexSize);
    var rest := count + offset + size + c;
    PreambleFields(SEGMENT_FILE_MAGIC, rest);
    assert b == Preamble(SEGMENT_FILE_MAGIC) + rest;
    assert b[8..12] == count && b[12..20] == offset && b[20..28] == size;
  }

  lemma FooterRoundTrip(e: Envelope)
    requires EnvelopeFits(e)
    ensures |EncFooter(e)| == SEGMENT_FOOTER_SIZE && ParseFooter(EncFooter(e)) == Success(e)
  {
    hide LE, FromLE, Preamble, Supported, Sealed, Checksum;
    var count, offset, size := LE(e.blockCount, 4), LE(e.indexOffset, 8), LE(e.indexSize, 8);
    var m := Preamble(SEGMENT_FOOTER_MAGIC) + offset + size + count;
    var b := EncFooter(e);
    var c := LE(Checksum(m), 4);
    SealIsSealed(m);
    LEFits(e.blockCount);
    LEFits(e.indexOffset);
    LEFits(e.indexSize);
    var rest := offset + size + count + c;
    PreambleFields(SEGMENT_FOOTER_MAGIC, rest);
    assert b == Preamble(SEGMENT_FOOTER_MAGIC) + rest;
    assert b[8..16] == offset && b[16..24] == size && b[24..28] == count;
  }

  lemma HeaderCanonical(b: Bytes)
    requires |b| == SEGMENT_HEADER_SIZE && ParseHeader(b).Success?
    ensures b == EncHeader(ParseHeader(b).value) && EnvelopeFits(ParseHeader(b).value)
  {
    hide LE, FromLE, Preamble, Supported, Sealed, Seal;
    Pow256Values();
    PreambleCanonical(b, SEGMENT_FILE_MAGIC);
    LECanonical(b[8..12]);
    LECanonical(b[12..20]);
    LECanonical(b[20..28]);
    SealedIsSeal(b);
    assert b[..28] == b[..8] + b[8..12] + b[12..20] + b[20..28];
  }

  lemma FooterCanonical(b: Bytes)
    requires |b| == SEGMENT_FOOTER_SIZE && ParseFooter(b).Success?
    ensures b == EncFooter(ParseFooter(b).value)
  {
    hide LE, FromLE, Preamble, Supported, Sealed, Seal;
    PreambleCanonical(b, SEGMENT_FOOTER_MAGIC);
    LECanonical(b[8..16]);
    LECanonical(b[16..24]);
    LECanonical(b[24..28]);
    SealedIsSeal(b);
    assert b[..28] == b[..8] + b[8..16] + b[16..24] + b[24..28];
  }

  // ----- index entries -----

  datatype IndexEntry = IndexEntry(
    series: SeriesKey, firstTimestamp: i64, lastTimestamp: i64, blockOffset: nat, blockSize: nat, sampleCount: nat)

  predicate EntryFits(e: IndexEntry) {
    KeyFits(e.series) && e.blockOffset <= U64_MAX && e.blockSize <= U32_MAX && e.sampleCount <= U32_MAX
  }

  function EncExtent(e: IndexEntry): Bytes {
    LE(e.blockOffset, 8) + LE(e.blockSize, 4) + LE(e.sampleCount, 4)
  }

  function EncSpan(e: IndexEntry): Bytes {
    LE(ToBits(e.firstTimestamp), 8) + LE(ToBits(e.lastTimestamp), 8)
  }

  function EncEntry(e: IndexEntry): Bytes {
    EncExtent(e) + EncSpan(e) + EncKey(e.series)
  }

  function EncEntries(entries: seq<IndexEntry>): Bytes {
    if entries == [] then [] else EncEntry(entries[0]) + EncEntries(entries[1..])
  }

  const ENTRY_FIXED_SIZE: nat := 32

  function ParseEntry(b: Bytes, pos: nat): Option<Parsed<IndexEntry>> {
    if pos + ENTRY_FIXED_SIZE > |b| then None
    else
      match ParseRawKey(b, pos + ENTRY_FIXED_SIZE, true, 0)
      case None => None
      case Some(key) =>
        match KeyOf(key.value.measurement, key.value.tags)
        case Failure(_) => None
        case Success(series) => Some(Parsed(EntryAt(b, pos, series), key.next))
  }

  function EntryAt(b: Bytes, pos: nat, series: SeriesKey): IndexEntry
    requires pos + ENTRY_FIXED_SIZE <= |b|
  {
    Pow256Values();
    IndexEntry(series, FromBits(FromLE(b[pos + 16..pos + 24])), FromBits(FromLE(b[pos + 24..pos + 32])),
               FromLE(b[pos..pos + 8]), FromLE(b[pos + 8..pos + 12]), FromLE(b[pos + 12..pos + 16]))
  }

  function ParseEntries(b: Bytes, pos: nat, count: nat): Option<Parsed<seq<IndexEntry>>>
    decreases count
  {
    if count == 0 then Some(Parsed([], pos))
    else
      match ParseEntry(b, pos)
      case None => None
      case Some(e) =>
        match ParseEntries(b, e.next, count - 1)
        case None => None
        case Some(rest) => Some(Parsed([e.value] + rest.value, rest.next))
  }

  lemma FixedFieldsEnc(b: Bytes, pos: nat, e: IndexEntry)
    requires EntryFits(e) && At(b, pos, EncExtent(e)) && At(b, pos + 16, EncSpan(e))
    ensures pos + ENTRY_FIXED_SIZE <= |b| && EntryAt(b, pos, e.series) == e
  {
    hide LE, FromLE;
    var o, s, n, f, l := LE(e.blockOffset, 8), LE(e.blockSize, 4), LE(e.sampleCount, 4),
                         LE(ToBits(e.firstTimestamp), 8), LE(ToBits(e.lastTimestamp), 8);
    AtConcat(b, pos, o + s, n);
    AtConcat(b, pos, o, s);
    AtConcat(b, pos + 16, f, l);
    LEFits(e.blockOffset);
    LEFits(e.blockSize);
    LEFits(e.sampleCount);
    LEFits(ToBits(e.firstTimestamp));
    LEFits(ToBits(e.lastTimestamp));
    BitCastRoundTrip(e.firstTimestamp, 0);
    BitCastRoundTrip(e.lastTimestamp, 0);
  }

  lemma ParseEntryEnc(b: Bytes, pos: nat, e: IndexEntry)
    requires EntryFits(e) && At(b, pos, EncEntry(e))
    ensures ParseEntry(b, pos) == Some(Parsed(e, pos + |EncEntry(e)|))
  {
    hide At, EncExtent, EncSpan, EncKey, ParseRawKey, KeyOf, EntryAt, KeyFits;
    var extent, span, key := EncExtent(e), EncSpan(e), EncKey(e.series);
    FixedSizes(e);
    AtConcat(b, pos, extent + span, key);
    AtConcat(b, pos, extent, span);
    AtBound(b, pos + ENTRY_FIXED_SIZE, key);
    FixedFieldsEnc(b, pos, e);
    SeriesKeyStrict(e.series);
    ParseRawKeyEnc(b, pos + ENTRY_FIXED_SIZE, e.series, true, 0);
    KeyOfCanonical(e.series);
  }

  lemma FixedSizes(e: IndexEntry)
    ensures |EncExtent(e)| == 16 && |EncSpan(e)| == 16
  {}

  lemma FixedFieldsCanonical(b: Bytes, pos: nat, series: SeriesKey)
    requires pos + ENTRY_FIXED_SIZE <= |b|
    ensures var e := EntryAt(b, pos, series);
            && At(b, pos, EncExtent(e)) && At(b, pos + 16, EncSpan(e))
            && e.blockOffset <= U64_MAX && e.blockSize <= U32_MAX && e.sampleCount <= U32_MAX
  {
    hide LE, FromLE;
    Pow256Values();
    var e := EntryAt(b, pos, series);
    LECanonical(b[pos..pos + 8]);
    LECanonical(b[pos + 8..pos + 12]);
    LECanonical(b[pos + 12..pos + 16]);
    LECanonical(b[pos + 16..pos + 24]);
    LECanonical(b[pos + 24..pos + 32]);
    BitCastRoundTrip(0, FromLE(b[pos + 16..pos + 24]));
    BitCastRoundTrip(0, FromLE(b[pos + 24..pos + 32]));
    AtConcat(b, pos, LE(e.blockOffset, 8), LE(e.blockSize, 4));
    AtConcat(b, pos, LE(e.blockOffset, 8) + LE(e.blockSize, 4), LE(e.sampleCount, 4));
    AtConcat(b, pos + 16, LE(ToBits(e.firstTimestamp), 8), LE(ToBits(e.lastTimestamp), 8));
  }

  lemma ParseEntryCanonical(b: Bytes, pos: nat)
    requires ParseEntry(b, pos).Some?
    ensures var p := ParseEntry(b, pos).value;
            EntryFits(p.value) && At(b, pos, EncEntry(p.value)) && p.next == pos + |EncEntry(p.value)|
  {
    hide At, EncExtent, EncSpan, EncKey, ParseRawKey, KeyOf, KeyFits;
    var raw := ParseRawKey(b, pos + ENTRY_FIXED_SIZE, true, 0).value;
    var e := ParseEntry(b, pos).value.value;
    ParseRawKeyCanonical(b, pos + ENTRY_FIXED_SIZE, true, 0);
    KeyOfStrict(raw.value);
    FixedFieldsCanonical(b, pos, e.series);
    FixedSizes(e);
    AtConcat(b, pos, EncExtent(e), EncSpan(e));
    AtConcat(b, pos, EncExtent(e) + EncSpan(e), EncKey(e.series));
  }

  predicate EntriesFit(entries: seq<IndexEntry>) {
    forall i :: 0 <= i < |entries| ==> EntryFits(entries[i])
  }

  lemma {:induction false} ParseEntriesEnc(b: Bytes, pos: nat, entries: seq<IndexEntry>)
    requires EntriesFit(entries) && At(b, pos, EncEntries(entries))
    ensures ParseEntries(b, pos, |entries|) == Some(Parsed(entries, pos + |EncEntries(entries)|))
    decreases |entries|
  {
    hide At, EncEntry, ParseEntry, EntryFits;
    if entries != [] {
      var e, rest := entries[0], entries[1..];
      AtConcat(b, pos, EncEntry(e), EncEntries(rest));
      ParseEntryEnc(b, pos, e);
      ParseEntriesEnc(b, pos + |EncEntry(e)|, rest);
      assert entries == [e] + rest;
    }
  }

  lemma {:induction false} ParseEntriesCanonical(b: Bytes, pos: nat, count: nat)
    requires pos <= |b| && ParseEntries(b, pos, count).Some?
    ensures var p := ParseEntries(b, pos, count).value;
            && |p.value| == count && EntriesFit(p.value)
            && At(b, pos, EncEntries(p.value)) && p.next == pos + |EncEntries(p.value)|
    decreases count
  {
    hide EncEntry, ParseEntry, EntryFits;
    if count > 0 {
      hide At;
      var e := ParseEntry(b, pos).value;
      ParseEntryCanonical(b, pos);
      AtBound(b, pos, EncEntry(e.value));
      ParseEntriesCanonical(b, e.next, count - 1);
      var rest := ParseEntries(b, e.next, count - 1).value.value;
      var entries := ParseEntries(b, pos, count).value.value;
      assert entries[0] == e.value && entries[1..] == rest;
      AtConcat(b, pos, EncEntry(e.value), EncEntries(rest));
    }
  }

  // ----- the index -----

  function IndexHeader(count: nat, payloadSize: nat): Bytes
    requires payloadSize <= U32_MAX
  {
    Preamble(SEGMENT_INDEX_MAGIC) + LE(count, 4) + LE(payloadSize, 4) + LE(U32_MAX - payloadSize, 4)
  }

  function EncIndex(entries: seq<IndexEntry>): Bytes
    requires |EncEntries(entries)| <= MAX_INDEX_PAYLOAD_SIZE
  {
    Seal(IndexHeader(|entries|, |EncEntries(entries)|) + EncEntries(entries))
  }

  /** Strictly ordered by series, and by disjoint time spans within a series. */
  predicate EntryFollows(previous: IndexEntry, current: IndexEntry) {
    !KeyLess(current.series, previous.series) &&
    !(current.series == previous.series && current.firstTimestamp <= previous.lastTimestamp)
  }

  predicate EntryInRange(e: IndexEntry, expectedOffset: nat, indexOffset: nat) {
    && e.blockOffset == expectedOffset && e.blockOffset <= indexOffset
    && e.blockSize != 0 && e.sampleCount != 0 && e.sampleCount <= B.MAX_SAMPLES_PER_SEGMENT_BLOCK
    && e.firstTimestamp <= e.lastTimestamp
    && e.blockSize <= indexOffset - e.blockOffset
  }

  /** The entries tile the bytes from `expectedOffset` to the index. */
  predicate ValidIndex(entries: seq<IndexEntry>, expectedOffset: nat, indexOffset: nat)
    decreases |entries|
  {
    if entries == [] then expectedOffset == indexOffset
    else
      && EntryInRange(entries[0], expectedOffset, indexOffset)
      && (|entries| > 1 ==> EntryFollows(entries[0], entries[1]))
      && ValidIndex(entries[1..], expectedOffset + entries[0].blockSize, indexOffset)
  }

  datatype IndexFields = IndexFields(magic: nat, entryCount: nat, payloadSize: nat, invertedSize: nat)

  function ParseIndexHeader(b: Bytes): IndexFields
    requires |b| == SEGMENT_INDEX_HEADER_SIZE
  {
    IndexFields(FromLE(b[0..4]), FromLE(b[8..12]), FromLE(b[12..16]), FromLE(b[16..20]))
  }

  function DecodeIndex(b: Bytes, expectedCount: nat, indexOffset: nat): Result<seq<IndexEntry>, SegmentFormatError> {
    if |b| < SEGMENT_INDEX_HEADER_SIZE + CHECKSUM_SIZE then Failure(IndexIncomplete)
    else
      var head := b[..SEGMENT_INDEX_HEADER_SIZE];
      var h := ParseIndexHeader(head);
      if h.magic != SEGMENT_INDEX_MAGIC || !Supported(head) then Failure(Unsupported)
      else if h.entryCount != expectedCount || h.entryCount == 0 || h.entryCount > MAX_SEGMENT_BLOCK_COUNT
              || h.invertedSize != U32_MAX - h.payloadSize || h.payloadSize > MAX_INDEX_PAYLOAD_SIZE
      then Failure(InvalidIndexMetadata)
      else if |b| != SEGMENT_INDEX_HEADER_SIZE + h.payloadSize + CHECKSUM_SIZE then Failure(InvalidIndexMetadata)
      else if !Sealed(b) then Failure(ChecksumMismatch)
      else
        DecodeEntries(b[SEGMENT_INDEX_HEADER_SIZE..SEGMENT_INDEX_HEADER_SIZE + h.payloadSize], h.entryCount, indexOffset)
  }

  function DecodeEntries(payload: Bytes, count: nat, indexOffset: nat): Result<seq<IndexEntry>, SegmentFormatError> {
    match ParseEntries(payload, 0, count)
    case None => Failure(InvalidIndexEntry)
    case Some(p) =>
      if p.next != |payload| then Failure(TrailingIndexBytes)
      else if !ValidIndex(p.value, SEGMENT_HEADER_SIZE, indexOffset) then Failure(IndexNotValid)
      else Success(p.value)
  }

  lemma IndexHeaderFields(count: nat, n: nat)
    requires count <= U32_MAX && n <= U32_MAX
    ensures |IndexHeader(count, n)| == SEGMENT_INDEX_HEADER_SIZE
    ensures ParseIndexHeader(IndexHeader(count, n)) == IndexFields(SEGMENT_INDEX_MAGIC, count, n, U32_MAX - n)
    ensures Supported(IndexHeader(count, n))
  {
    hide LE, FromLE, Preamble, Supported;
    var b := IndexHeader(count, n);
    var rest := LE(count, 4) + LE(n, 4) + LE(U32_MAX - n, 4);
    PreambleFields(SEGMENT_INDEX_MAGIC, rest);
    assert b == Preamble(SEGMENT_INDEX_MAGIC) + rest;
    LEFits(count);
    LEFits(n);
    LEFits(U32_MAX - n);
    assert b[8..12] == LE(count, 4) && b[12..16] == LE(n, 4) && b[16..20] == LE(U32_MAX - n, 4);
  }

  lemma IndexHeaderCanonical(b: Bytes)
    requires |b| == SEGMENT_INDEX_HEADER_SIZE && Supported(b)
    requires var h := ParseIndexHeader(b); h.magic == SEGMENT_INDEX_MAGIC && h.invertedSize == U32_MAX - h.payloadSize
    ensures ParseIndexHeader(b).payloadSize <= U32_MAX
    ensures b == IndexHeader(ParseIndexHeader(b).entryCount, ParseIndexHeader(b).payloadSize)
  {
    hide LE, FromLE, Preamble, Supported;
    PreambleCanonical(b, SEGMENT_INDEX_MAGIC);
    LECanonical(b[8..12]);
    LECanonical(b[12..16]);
    LECanonical(b[16..20]);
    assert ParseIndexHeader(b).invertedSize >= 0;
    assert b == b[..8] + b[8..12] + b[12..16] + b[16..20];
  }

  lemma Slices(x: Bytes, y: Bytes, z: Bytes)
    ensures (x + y + z)[..|x|] == x
    ensures (x + y + z)[|x|..|x| + |y|] == y
    ensures (x + y + z)[|x| + |y|..] == z
  {}

  lemma IndexRoundTrip(entries: seq<IndexEntry>, indexOffset: nat)
    requires EntriesFit(entries) && 1 <= |entries| <= MAX_SEGMENT_BLOCK_COUNT
    requires |EncEntries(entries)| <= MAX_INDEX_PAYLOAD_SIZE
    requires ValidIndex(entries, SEGMENT_HEADER_SIZE, indexOffset)
    ensures |EncIndex(entries)| == SEGMENT_INDEX_HEADER_SIZE + |EncEntries(entries)| + CHECKSUM_SIZE
    ensures DecodeIndex(EncIndex(entries), |entries|, indexOffset) == Success(entries)
  {
    hide At, LE, Checksum, IndexHeader, ParseIndexHeader, Supported, Sealed, EncEntries, EntriesFit, ValidIndex;
    var payload := EncEntries(entries);
    var head := IndexHeader(|entries|, |payload|);
    var b := EncIndex(entries);
    IndexHeaderFields(|entries|, |payload|);
    SealIsSealed(head + payload);
    AtWhole(payload);
    ParseEntriesEnc(payload, 0, entries);
    Slices(head, payload, LE(Checksum(head + payload), CHECKSUM_SIZE));
  }

  lemma IndexCanonical(b: Bytes, expectedCount: nat, indexOffset: nat)
    requires DecodeIndex(b, expectedCount, indexOffset).Success?
    ensures var entries := DecodeIndex(b, expectedCount, indexOffset).value;
            && EntriesFit(entries) && |entries| == expectedCount && 1 <= |entries| <= MAX_SEGMENT_BLOCK_COUNT
            && |EncEntries(entries)| <= MAX_INDEX_PAYLOAD_SIZE
            && ValidIndex(entries, SEGMENT_HEADER_SIZE, indexOffset)
            && b == EncIndex(entries)
  {
    hide At, IndexHeader, ParseIndexHeader, Supported, Sealed, Seal, EncEntries, EntriesFit, ValidIndex, ParseEntries;
    var head := b[..SEGMENT_INDEX_HEADER_SIZE];
    var h := ParseIndexHeader(head);
    var payload := b[SEGMENT_INDEX_HEADER_SIZE..SEGMENT_INDEX_HEADER_SIZE + h.payloadSize];
    var entries := ParseEntries(payload, 0, h.entryCount).value.value;
    IndexHeaderCanonical(head);
    ParseEntriesCanonical(payload, 0, h.entryCount);
    AtEverything(payload, EncEntries(entries));
    SealedIsSeal(b);
    assert b[..|b| - CHECKSUM_SIZE] == head + payload;
  }

  // ----- the whole file -----

  predicate Encodable(blocks: seq<B.SegmentBlock>) {
    forall i :: 0 <= i < |blocks| ==> B.Encode(blocks[i]).Success?
  }

  /** Strictly ordered by series, and by disjoint time spans within a series. */
  predicate BlockFollows(previous: B.SegmentBlock, current: B.SegmentBlock) {
    !KeyLess(current.series, previous.series) &&
    !(current.series == previous.series && B.FirstTimestamp(current) <= B.LastTimestamp(previous))
  }

  predicate BlocksOrdered(blocks: seq<B.SegmentBlock>) {
    forall i :: 0 < i < |blocks| ==> BlockFollows(blocks[i - 1], blocks[i])
  }

  function Body(blocks: seq<B.SegmentBlock>): Bytes
    requires Encodable(blocks)
  {
    if blocks == [] then [] else B.Encode(blocks[0]).value + Body(blocks[1..])
  }

  function EntryFor(block: B.SegmentBlock, offset: nat): IndexEntry
    requires B.Encode(block).Success?
  {
    IndexEntry(block.series, B.FirstTimestamp(block), B.LastTimestamp(block), offset,
               |B.Encode(block).value|, |block.samples|)
  }

  function EntriesFor(blocks: seq<B.SegmentBlock>, offset: nat): seq<IndexEntry>
    requires Encodable(blocks)
  {
    if blocks == [] then []
    else [EntryFor(blocks[0], offset)] + EntriesFor(blocks[1..], offset + |B.Encode(blocks[0]).value|)
  }

  function Assemble(entries: seq<IndexEntry>, body: Bytes): Bytes
    requires |EncEntries(entries)| <= MAX_INDEX_PAYLOAD_SIZE
  {
    var index := EncIndex(entries);
    var e := Envelope(|entries|, SEGMENT_HEADER_SIZE + |body|, |index|);
    EncHeader(e) + body + index + EncFooter(e)
  }

  function ValidateBlocks(blocks: seq<B.SegmentBlock>): Option<SegmentWriteError> {
    if blocks == [] then Some(EmptySegment)
    else if |blocks| > MAX_SEGMENT_BLOCK_COUNT then Some(TooManyBlocks)
    else if !BlocksOrdered(blocks) then Some(BlocksNotOrdered)
    else None
  }

  /** What the writer publishes, or why it refuses. */
  function SegmentBytes(blocks: seq<B.SegmentBlock>): Result<Bytes, SegmentWriteError> {
    var invalid := ValidateBlocks(blocks);
    if invalid.Some? then Failure(invalid.value)
    else if !Encodable(blocks) then Failure(BlockTooLarge)
    else
      var entries := EntriesFor(blocks, SEGMENT_HEADER_SIZE);
      if |EncEntries(entries)| > MAX_INDEX_PAYLOAD_SIZE then Failure(IndexTooLarge)
      else Success(Assemble(entries, Body(blocks)))
  }

  const MINIMUM_FILE_SIZE: nat :=
    SEGMENT_HEADER_SIZE + SEGMENT_FOOTER_SIZE + SEGMENT_INDEX_HEADER_SIZE + CHECKSUM_SIZE

  predicate IndexBoundsValid(e: Envelope, fileSize: nat) {
    && e.indexOffset >= SEGMENT_HEADER_SIZE
    && SEGMENT_INDEX_HEADER_SIZE + CHECKSUM_SIZE <= e.indexSize
    && e.indexSize <= MAX_INDEX_PAYLOAD_SIZE + SEGMENT_INDEX_HEADER_SIZE + CHECKSUM_SIZE
    && e.indexOffset <= fileSize && e.indexSize <= fileSize - e.indexOffset
    && e.indexOffset + e.indexSize + SEGMENT_FOOTER_SIZE == fileSize
  }

  /** What opening a segment file answers: its index. Blocks are not looked at. */
  function Open(b: Bytes): Result<seq<IndexEntry>, SegmentFormatError> {
    if |b| < MINIMUM_FILE_SIZE then Failure(FileTooSmall)
    else
      var header := ParseHeader(b[..SEGMENT_HEADER_SIZE]);
      var footer := ParseFooter(b[|b| - SEGMENT_FOOTER_SIZE..]);
      if header.Failure? then Failure(header.error)
      else if footer.Failure? then Failure(footer.error)
      else if header.value != footer.value then Failure(HeaderFooterDisagree)
      else if !IndexBoundsValid(header.value, |b|) then Failure(InvalidIndexBounds)
      else
        var e := header.value;
        DecodeIndex(b[e.indexOffset..e.indexOffset + e.indexSize], e.blockCount, e.indexOffset)
  }

  predicate Matches(block: B.SegmentBlock, e: IndexEntry) {
    && block.series == e.series && |block.samples| == e.sampleCount
    && B.FirstTimestamp(block) == e.firstTimestamp && B.LastTimestamp(block) == e.lastTimestamp
  }

  /** A block as a query reads it: it must fill its extent and agree with its entry. */
  function ReadBlock(b: Bytes, e: IndexEntry): Option<B.SegmentBlock> {
    if e.blockOffset + e.blockSize > |b| then None
    else
      match B.Decode(b[e.blockOffset..e.blockOffset + e.blockSize])
      case Rejected(_) => None
      case Decoded(block, n) => if n == e.blockSize && Matches(block, e) then Some(block) else None
  }

  function ReadBlocks(b: Bytes, entries: seq<IndexEntry>): Option<seq<B.SegmentBlock>> {
    if entries == [] then Some([])
    else
      match ReadBlock(b, entries[0])
      case None => None
      case Some(block) =>
        match ReadBlocks(b, entries[1..])
        case None => None
        case Some(rest) => Some([block] + rest)
  }

  // ----- what is written opens and reads back -----

  lemma BlockSizes(block: B.SegmentBlock)
    requires B.Encode(block).Success?
    ensures 0 < |B.Encode(block).value| <= B.MAX_SEGMENT_BLOCK_PAYLOAD_SIZE + 24
    ensures KeyFits(block.series)
  {
    hide KeyFits, Checksum, LE, EncKey, B.EncSamples;
    B.FrameShape(B.Payload(block), |block.samples|, []);
    SmallKeyFits(block.series);
  }

  lemma BlockTimes(block: B.SegmentBlock)
    ensures B.FirstTimestamp(block) <= B.LastTimestamp(block)
    ensures 1 <= |block.samples| <= B.MAX_SAMPLES_PER_SEGMENT_BLOCK
  {}

  lemma {:induction false} BodyBound(blocks: seq<B.SegmentBlock>)
    requires Encodable(blocks)
    ensures |Body(blocks)| <= (B.MAX_SEGMENT_BLOCK_PAYLOAD_SIZE + 24) * |blocks|
  {
    hide B.Encode;
    if blocks != [] {
      BlockSizes(blocks[0]);
      BodyBound(blocks[1..]);
    }
  }

  lemma {:induction false} EntriesTile(blocks: seq<B.SegmentBlock>, offset: nat)
    requires Encodable(blocks) && BlocksOrdered(blocks)
    requires offset + |Body(blocks)| <= U64_MAX
    ensures |EntriesFor(blocks, offset)| == |blocks|
    ensures EntriesFit(EntriesFor(blocks, offset))
    ensures ValidIndex(EntriesFor(blocks, offset), offset, offset + |Body(blocks)|)
  {
    hide B.Encode, B.FirstTimestamp, B.LastTimestamp, KeyFits;
    if blocks != [] {
      var rest, size := blocks[1..], |B.Encode(blocks[0]).value|;
      var entries := EntriesFor(blocks, offset);
      BlockSizes(blocks[0]);
      BlockTimes(blocks[0]);
      assert BlocksOrdered(rest) by {
        forall i | 0 < i < |rest|
          ensures BlockFollows(rest[i - 1], rest[i])
        {
          assert BlockFollows(blocks[i], blocks[i + 1]);
        }
      }
      EntriesTile(rest, offset + size);
      assert entries[1..] == EntriesFor(rest, offset + size);
      if |blocks| > 1 {
        assert BlockFollows(blocks[0], blocks[1]);
      }
    }
  }

  lemma {:induction false} BodyReadsBack(b: Bytes, blocks: seq<B.SegmentBlock>, offset: nat)
    requires Encodable(blocks) && At(b, offset, Body(blocks))
    ensures ReadBlocks(b, EntriesFor(blocks, offset)) == Some(blocks)
  {
    hide At, B.Encode, ReadBlock;
    if blocks != [] {
      var code := B.Encode(blocks[0]).value;
      AtConcat(b, offset, code, Body(blocks[1..]));
      BlockReadsBack(b, blocks[0], offset);
      BodyReadsBack(b, blocks[1..], offset + |code|);
      assert blocks == [blocks[0]] + blocks[1..];
      assert EntriesFor(blocks, offset)[1..] == EntriesFor(blocks[1..], offset + |code|);
    }
  }

  lemma BlockReadsBack(b: Bytes, block: B.SegmentBlock, offset: nat)
    requires B.Encode(block).Success? && At(b, offset, B.Encode(block).value)
    ensures ReadBlock(b, EntryFor(block, offset)) == Some(block)
  {
    hide B.Encode, B.Decode;
    var code := B.Encode(block).value;
    B.RoundTrip(block, []);
    assert code + [] == code;
  }

  lemma FileShape(header: Bytes, body: Bytes, index: Bytes, footer: Bytes)
    requires |header| == SEGMENT_HEADER_SIZE && |footer| == SEGMENT_FOOTER_SIZE
    ensures var b := header + body + index + footer;
            var offset := SEGMENT_HEADER_SIZE + |body|;
            && |b| == offset + |index| + SEGMENT_FOOTER_SIZE
            && b[..SEGMENT_HEADER_SIZE] == header && b[|b| - SEGMENT_FOOTER_SIZE..] == footer
            && At(b, SEGMENT_HEADER_SIZE, body) && b[offset..offset + |index|] == index
  {
    var b := header + body + index + footer;
    assert b == header + (body + index + footer);
    assert b[SEGMENT_HEADER_SIZE..SEGMENT_HEADER_SIZE + |body|] == body;
  }

  lemma AssembleOpens(entries: seq<IndexEntry>, body: Bytes)
    requires EntriesFit(entries) && 1 <= |entries| <= MAX_SEGMENT_BLOCK_COUNT
    requires |EncEntries(entries)| <= MAX_INDEX_PAYLOAD_SIZE
    requires SEGMENT_HEADER_SIZE + |body| <= U64_MAX
    requires ValidIndex(entries, SEGMENT_HEADER_SIZE, SEGMENT_HEADER_SIZE + |body|)
    ensures Open(Assemble(entries, body)) == Success(entries)
    ensures At(Assemble(entries, body), SEGMENT_HEADER_SIZE, body)
  {
    hide At, EncHeader, EncFooter, ParseHeader, ParseFooter, DecodeIndex, EncIndex, EntriesFit, ValidIndex, EncEntries;
    IndexRoundTrip(entries, SEGMENT_HEADER_SIZE + |body|);
    var index := EncIndex(entries);
    var e := Envelope(|entries|, SEGMENT_HEADER_SIZE + |body|, |index|);
    HeaderRoundTrip(e);
    FooterRoundTrip(e);
    FileShape(EncHeader(e), body, index, EncFooter(e));
  }

  /** A written file opens with exactly the entries of its blocks, and reads back exactly those blocks. */
  lemma OpensAsWritten(blocks: seq<B.SegmentBlock>)
    requires SegmentBytes(blocks).Success?
    ensures Encodable(blocks)
    ensures Open(SegmentBytes(blocks).value) == Success(EntriesFor(blocks, SEGMENT_HEADER_SIZE))
    ensures ReadBlocks(SegmentBytes(blocks).value, EntriesFor(blocks, SEGMENT_HEADER_SIZE)) == Some(blocks)
  {
    hide At, B.Encode, EntriesFit, ValidIndex, Open, Assemble, EncEntries, ReadBlocks, BlockFollows;
    BodyBound(blocks);
    EntriesTile(blocks, SEGMENT_HEADER_SIZE);
    AssembleOpens(EntriesFor(blocks, SEGMENT_HEADER_SIZE), Body(blocks));
    BodyReadsBack(SegmentBytes(blocks).value, blocks, SEGMENT_HEADER_SIZE);
  }

  // ----- and nothing else does -----

  lemma BlockBytesCanonical(b: Bytes, e: IndexEntry)
    requires ReadBlock(b, e).Some?
    ensures e.blockOffset + e.blockSize <= |b|
    ensures B.Encode(ReadBlock(b, e).value) == Success(b[e.blockOffset..e.blockOffset + e.blockSize])
    ensures EntryFor(ReadBlock(b, e).value, e.blockOffset) == e
  {
    hide B.Encode, B.Decode;
    var bytes := b[e.blockOffset..e.blockOffset + e.blockSize];
    B.Canonical(bytes);
    assert bytes[..|bytes|] == bytes;
  }

  lemma {:induction false} BodyCanonical(b: Bytes, entries: seq<IndexEntry>, offset: nat, indexOffset: nat)
    requires ValidIndex(entries, offset, indexOffset) && offset <= indexOffset <= |b|
    requires ReadBlocks(b, entries).Some?
    ensures var blocks := ReadBlocks(b, entries).value;
            && |blocks| == |entries| && Encodable(blocks) && BlocksOrdered(blocks)
            && EntriesFor(blocks, offset) == entries && Body(blocks) == b[offset..indexOffset]
  {
    hide B.Encode, B.FirstTimestamp, B.LastTimestamp, ReadBlock, KeyLess;
    if entries != [] {
      var e, size := entries[0], entries[0].blockSize;
      var blocks, rest := ReadBlocks(b, entries).value, ReadBlocks(b, entries[1..]).value;
      BlockBytesCanonical(b, e);
      BodyCanonical(b, entries[1..], offset + size, indexOffset);
      assert blocks[0] == ReadBlock(b, e).value && blocks[1..] == rest;
      assert b[offset..indexOffset] == b[offset..offset + size] + b[offset + size..indexOffset];
      assert entries == [e] + entries[1..];
      OrderedCons(blocks[0], rest) by {
        if rest != [] {
          assert entries[1] == EntryFor(rest[0], offset + size);
        }
      }
      assert blocks == [blocks[0]] + rest;
    }
  }

  lemma OrderedCons(block: B.SegmentBlock, rest: seq<B.SegmentBlock>)
    requires BlocksOrdered(rest) && (rest != [] ==> BlockFollows(block, rest[0]))
    ensures BlocksOrdered([block] + rest)
  {
    var all := [block] + rest;
    forall i | 0 < i < |all|
      ensures BlockFollows(all[i - 1], all[i])
    {
      if i > 1 {
        assert BlockFollows(rest[i - 2], rest[i - 1]);
      }
    }
  }

  /** A file that opens and whose blocks all read back is exactly what the writer publishes for those blocks. */
  lemma OnlyTheWriterWrites(b: Bytes)
    requires Open(b).Success? && ReadBlocks(b, Open(b).value).Some?
    ensures SegmentBytes(ReadBlocks(b, Open(b).value).value) == Success(b)
  {
    hide At, B.Encode, EncHeader, EncFooter, ParseHeader, ParseFooter, DecodeIndex, EncIndex, EntriesFit, ValidIndex,
      BlocksOrdered, Body, EntriesFor, Encodable, ReadBlocks;
    var e := ParseHeader(b[..SEGMENT_HEADER_SIZE]).value;
    var indexEnd := e.indexOffset + e.indexSize;
    var entries := Open(b).value;
    HeaderCanonical(b[..SEGMENT_HEADER_SIZE]);
    FooterCanonical(b[|b| - SEGMENT_FOOTER_SIZE..]);
    IndexCanonical(b[e.indexOffset..indexEnd], e.blockCount, e.indexOffset);
    BodyCanonical(b, entries, SEGMENT_HEADER_SIZE, e.indexOffset);
    assert b == b[..SEGMENT_HEADER_SIZE] + b[SEGMENT_HEADER_SIZE..e.indexOffset] + b[e.indexOffset..indexEnd]
                + b[indexEnd..];
  }
}
