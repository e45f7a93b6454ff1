/**
  Opening and searching segment files.

  A `SegmentReader` is the immutable result of opening a file: its bytes and its validated index. Queries search the
  sparse index and read only candidate blocks. If every block can be read, they answer as a full scan would; in any file
  they answer from the blocks that can be read, and give up exactly if a block they need cannot.
 */
module SegmentReaders {
  import opened Prelude
  import opened Words
  import opened Model
  import opened ByteCodec
  import opened KeyCodec
  import opened Sealing
  import opened B = SegmentBlocks
  import opened F = SegmentFormat
  import opened Contents
  import opened SegmentOrder

  // ----- opening -----

  method ReadHeader(b: Bytes) returns (e: Result<Envelope, SegmentFormatError>)
    requires |b| == SEGMENT_HEADER_SIZE
    ensures e == F.ParseHeader(b)
  {
    hide FromLE, Sealed;
    var reader := new ByteReader(b);
    var magic := reader.ReadU32();
    var version := reader.ReadU16();
    var flags := reader.ReadU16();
    var blockCount := reader.ReadU32();
    var indexOffset := reader.ReadU64();
    var indexSize := reader.ReadU64();
    if magic.value != SEGMENT_FILE_MAGIC {
      return Failure(SegmentFormatError.InvalidMagic);
    }
    var intact := CheckSeal(b);
    if !intact {
      return Failure(SegmentFormatError.ChecksumMismatch);
    }
    if version.value != SEGMENT_FILE_VERSION || flags.value != SEGMENT_FILE_FLAGS {
      return Failure(Unsupported);
    }
    if blockCount.value == 0 || blockCount.value > MAX_SEGMENT_BLOCK_COUNT {
      return Failure(InvalidBlockCount);
    }
    e := Success(Envelope(blockCount.value, indexOffset.value, indexSize.value));
  }

  method ReadFooter(b: Bytes) returns (e: Result<Envelope, SegmentFormatError>)
    requires |b| == SEGMENT_FOOTER_SIZE
    ensures e == ParseFooter(b)
  {
    hide FromLE, Sealed;
    var reader := new ByteReader(b);
    var magic := reader.ReadU32();
    var version := reader.ReadU16();
    var flags := reader.ReadU16();
    var indexOffset := reader.ReadU64();
    var indexSize := reader.ReadU64();
    var blockCount := reader.ReadU32();
    if magic.value != SEGMENT_FOOTER_MAGIC {
      return Failure(SegmentFormatError.InvalidMagic);
    }
    var intact := CheckSeal(b);
    if !intact {
      return Failure(SegmentFormatError.ChecksumMismatch);
    }
    if version.value != SEGMENT_FILE_VERSION || flags.value != SEGMENT_FILE_FLAGS {
      return Failure(Unsupported);
    }
    e := Success(Envelope(blockCount.value, indexOffset.value, indexSize.value));
  }

  /** `validate_index`. */
  method CheckIndex(entries: seq<IndexEntry>, indexOffset: nat) returns (ok: bool)
    ensures ok <==> ValidIndex(entries, SEGMENT_HEADER_SIZE, indexOffset)
  {
    hide EntryFollows;
    var expectedOffset: nat := SEGMENT_HEADER_SIZE;
    for index := 0 to |entries|
      invariant ValidIndex(entries, SEGMENT_HEADER_SIZE, indexOffset) <==>
                && (0 < index < |entries| ==> EntryFollows(entries[index - 1], entries[index]))
                && ValidIndex(entries[index..], expectedOffset, indexOffset)
    {
      var entry := entries[index];
      ghost var rest := entries[index..];
      assert rest[0] == entry && rest[1..] == entries[index + 1..];
      if !EntryInRange(entry, expectedOffset, indexOffset) {
        return false;
      }
      if index != 0 && !EntryFollows(entries[index - 1], entry) {
        return false;
      }
      expectedOffset := expectedOffset + entry.blockSize;
    }
    assert entries[|entries|..] == [];
    ok := expectedOffset == indexOffset;
  }

  method ReadEntry(reader: ByteReader) returns (e: Option<IndexEntry>)
    requires reader.Valid()
    modifies reader
    ensures reader.Valid()
    ensures match ParseEntry(reader.data, old(reader.position))
            case None => e.None?
            case Some(p) => e == Some(p.value) && reader.position == p.next
  {
    hide FromLE, ParseRawKey, KeyOf;
    if reader.Remaining() < ENTRY_FIXED_SIZE {
      return None;
    }
    var blockOffset := reader.ReadU64();
    var blockSize := reader.ReadU32();
    var sampleCount := reader.ReadU32();
    var first := reader.ReadU64();
    var last := reader.ReadU64();
    var key := ReadRawKey(reader, true, 0);
    if key.None? {
      return None;
    }
    var series := MakeSeriesKey(key.value.measurement, key.value.tags);
    if series.Failure? {
      return None;
    }
    e := Some(IndexEntry(series.value, FromBits(first.value), FromBits(last.value), blockOffset.value,
                         blockSize.value, sampleCount.value));
  }

  method ReadEntries(reader: ByteReader, count: nat) returns (r: Option<seq<IndexEntry>>)
    requires reader.Valid()
    modifies reader
    ensures reader.Valid()
    ensures match ParseEntries(reader.data, old(reader.position), count)
            case None => r.None?
            case Some(p) => r == Some(p.value) && reader.position == p.next
  {
    hide ParseEntry;
    var entries: seq<IndexEntry> := [];
    ghost var all := ParseEntries(reader.data, reader.position, count);
    if all.Some? {
      assert [] + all.value.value == all.value.value;
    }
    for index := 0 to count
      invariant reader.Valid()
      invariant match ParseEntries(reader.data, reader.position, count - index)
                case None => all.None?
                case Some(p) => all == Some(Parsed(entries + p.value, p.next))
    {
      ghost var rest := ParseEntries(reader.data, reader.position, count - index);
      var e := ReadEntry(reader);
      if e.None? {
        return None;
      }
      if rest.Some? {
        Regroup(entries, e.value, rest.value.value[1..]);
      }
      entries := entries + [e.value];
    }
    assert entries + [] == entries;
    r := Some(entries);
  }

  method ReadIndex(b: Bytes, expectedCount: nat, indexOffset: nat)
    returns (index: Result<seq<IndexEntry>, SegmentFormatError>)
    ensures index == DecodeIndex(b, expectedCount, indexOffset)
  {
    hide FromLE, Sealed, ParseEntries, ValidIndex, Inverted;
    if |b| < SEGMENT_INDEX_HEADER_SIZE + CHECKSUM_SIZE {
      return Failure(IndexIncomplete);
    }
    IndexFieldsAt(b);
    var reader := new ByteReader(b);
    var magic := reader.ReadU32();
    var version := reader.ReadU16();
    var flags := reader.ReadU16();
    var entryCount := reader.ReadU32();
    var payloadSize := reader.ReadU32();
    var invertedSize := reader.ReadU32();
    if magic.value != SEGMENT_INDEX_MAGIC || version.value != SEGMENT_FILE_VERSION || flags.value != SEGMENT_FILE_FLAGS {
      return Failure(Unsupported);
    }
    if entryCount.value != expectedCount || entryCount.value == 0 || entryCount.value > MAX_SEGMENT_BLOCK_COUNT
       || invertedSize.value != Inverted(payloadSize.value) || payloadSize.value > MAX_INDEX_PAYLOAD_SIZE {
      return Failure(InvalidIndexMetadata);
    }
    if |b| != SEGMENT_INDEX_HEADER_SIZE + payloadSize.value + CHECKSUM_SIZE {
      return Failure(InvalidIndexMetadata);
    }
    var intact := CheckSeal(b);
    if !intact {
      return Failure(SegmentFormatError.ChecksumMismatch);
    }
    var payloadReader :=
      new ByteReader(b[SEGMENT_INDEX_HEADER_SIZE..SEGMENT_INDEX_HEADER_SIZE + payloadSize.value]);
    var entries := ReadEntries(payloadReader, entryCount.value);
    if entries.None? {
      return Failure(InvalidIndexEntry);
    }
    if payloadReader.Remaining() != 0 {
      return Failure(TrailingIndexBytes);
    }
    var ok := CheckIndex(entries.value, indexOffset);
    index := if ok then Success(entries.value) else Failure(IndexNotValid);
  }

  lemma IndexFieldsAt(b: Bytes)
    requires |b| >= SEGMENT_INDEX_HEADER_SIZE
    ensures var head := b[..SEGMENT_INDEX_HEADER_SIZE];
            && ParseIndexHeader(head)
            == IndexFields(FromLE(b[0..4]), FromLE(b[8..12]), FromLE(b[12..16]), FromLE(b[16..20]))
            && (Supported(head) <==> FromLE(b[4..6]) == SEGMENT_FILE_VERSION && FromLE(b[6..8]) == SEGMENT_FILE_FLAGS)
  {
    hide FromLE;
    var h := b[..SEGMENT_INDEX_HEADER_SIZE];
    assert h[0..4] == b[0..4] && h[4..6] == b[4..6] && h[6..8] == b[6..8];
    assert h[8..12] == b[8..12] && h[12..16] == b[12..16] && h[16..20] == b[16..20];
  }

  /** The samples the index promises. */
  function TotalSamples(index: seq<IndexEntry>): nat {
    if index == [] then 0 else TotalSamples(index[..|index| - 1]) + index[|index| - 1].sampleCount
  }

  method OpenSegment(b: Bytes) returns (r: Result<SegmentReader, SegmentFormatError>)
    ensures match Open(b)
            case Failure(e) => r == Failure(e)
            case Success(index) => r == Success(SegmentReader(b, index, TotalSamples(index)))
  {
    hide F.ParseHeader, ParseFooter, DecodeIndex;
    if |b| < MINIMUM_FILE_SIZE {
      return Failure(FileTooSmall);
    }
    var header := ReadHeader(b[..SEGMENT_HEADER_SIZE]);
    if header.Failure? {
      return Failure(header.error);
    }
    var footer := ReadFooter(b[|b| - SEGMENT_FOOTER_SIZE..]);
    if footer.Failure? {
      return Failure(footer.error);
    }
    if header.value != footer.value {
      return Failure(HeaderFooterDisagree);
    }
    var e := header.value;
    if !IndexBoundsValid(e, |b|) {
      return Failure(InvalidIndexBounds);
    }
    var index := ReadIndex(b[e.indexOffset..e.indexOffset + e.indexSize], e.blockCount, e.indexOffset);
    if index.Failure? {
      return Failure(index.error);
    }
    var total := 0;
    for i := 0 to |index.value|
      invariant total == TotalSamples(index.value[..i])
    {
      total := total + index.value[i].sampleCount;
      assert index.value[..i + 1][..i] == index.value[..i];
    }
    assert index.value[..|index.value|] == index.value;
    r := Success(SegmentReader(b, index.value, total));
  }

  // ----- the order of the index -----

  predicate EntryBefore(a: IndexEntry, b: IndexEntry) {
    KeyLess(a.series, b.series) || (a.series == b.series && a.lastTimestamp < b.firstTimestamp)
  }

  ghost predicate IndexSorted(index: seq<IndexEntry>) {
    && (forall i :: 0 <= i < |index| ==> index[i].firstTimestamp <= index[i].lastTimestamp)
    && (forall i, j :: 0 <= i < j < |index| ==> EntryBefore(index[i], index[j]))
  }

  lemma {:induction false} ValidIndexSorted(index: seq<IndexEntry>, from: nat, to: nat)
    requires ValidIndex(index, from, to)
    ensures IndexSorted(index)
  {
    if index != [] {
      KeyOrder();
      hide KeyLess;
      var rest := index[1..];
      ValidIndexSorted(rest, from + index[0].blockSize, to);
      forall j | 0 < j < |index|
        ensures EntryBefore(index[0], index[j])
      {
        assert EntryFollows(index[0], rest[0]);
        assert EntryBefore(index[0], rest[0]);
        if j > 1 {
          assert EntryBefore(rest[0], rest[j - 1]);
        }
      }
      forall i, j | 0 <= i < j < |index|
        ensures EntryBefore(index[i], index[j])
      {
        if i > 0 {
          assert EntryBefore(rest[i - 1], rest[j - 1]);
        }
      }
      forall i | 0 <= i < |index|
        ensures index[i].firstTimestamp <= index[i].lastTimestamp
      {
        if i > 0 {
          assert rest[i - 1].firstTimestamp <= rest[i - 1].lastTimestamp;
        }
      }
    }
  }

  lemma OpenedSorted(b: Bytes)
    requires Open(b).Success?
    ensures IndexSorted(Open(b).value)
  {
    hide F.ParseHeader, ParseFooter, DecodeIndex, IndexSorted, ValidIndex, EntriesFit;
    var e := F.ParseHeader(b[..SEGMENT_HEADER_SIZE]).value;
    IndexCanonical(b[e.indexOffset..e.indexOffset + e.indexSize], e.blockCount, e.indexOffset);
    ValidIndexSorted(Open(b).value, SEGMENT_HEADER_SIZE, e.indexOffset);
  }

  lemma OpenedNotEmpty(b: Bytes)
    requires Open(b).Success?
    ensures Open(b).value != []
  {
    hide F.ParseHeader, ParseFooter, DecodeIndex, ValidIndex, EntriesFit;
    var e := F.ParseHeader(b[..SEGMENT_HEADER_SIZE]).value;
    IndexCanonical(b[e.indexOffset..e.indexOffset + e.indexSize], e.blockCount, e.indexOffset);
  }

  lemma {:induction false} ReadsMatch(b: Bytes, index: seq<IndexEntry>)
    requires ReadBlocks(b, index).Some?
    ensures var blocks := ReadBlocks(b, index).value;
            && |blocks| == |index|
            && forall k :: 0 <= k < |index| ==> ReadBlock(b, index[k]) == Some(blocks[k]) && Matches(blocks[k], index[k])
  {
    hide B.Decode;
    if index != [] {
      ReadsMatch(b, index[1..]);
    }
  }

  lemma SortedBlocks(index: seq<IndexEntry>, blocks: seq<SegmentBlock>)
    requires IndexSorted(index) && |blocks| == |index|
    requires forall k :: 0 <= k < |index| ==> Matches(blocks[k], index[k])
    ensures PairwiseOrdered(blocks)
  {
    hide KeyLess, FirstTimestamp, LastTimestamp;
    forall i, j | 0 <= i < j < |blocks|
      ensures Before(blocks[i], blocks[j])
    {
      assert EntryBefore(index[i], index[j]);
      assert Matches(blocks[i], index[i]) && Matches(blocks[j], index[j]);
    }
  }

  // ----- binary searches -----

  /** `std::lower_bound` over the index by series. */
  method LowerBoundEntry(index: seq<IndexEntry>, series: SeriesKey) returns (at: nat)
    requires IndexSorted(index)
    ensures at <= |index|
    ensures forall i :: 0 <= i < at ==> KeyLess(index[i].series, series)
    ensures forall i :: at <= i < |index| ==> !KeyLess(index[i].series, series)
  {
    KeyOrder();
    hide KeyLess;
    at := 0;
    var high := |index|;
    while at < high
      invariant at <= high <= |index|
      invariant forall i :: 0 <= i < at ==> KeyLess(index[i].series, series)
      invariant forall i :: high <= i < |index| ==> !KeyLess(index[i].series, series)
    {
      var middle := at + (high - at) / 2;
      assert forall i :: 0 <= i < middle ==> EntryBefore(index[i], index[middle]);
      assert forall i :: middle < i < |index| ==> EntryBefore(index[middle], index[i]);
      if KeyLess(index[middle].series, series) {
        at := middle + 1;
      } else {
        high := middle;
      }
    }
  }

  /** `std::upper_bound` over the index by series. */
  method UpperBoundEntry(index: seq<IndexEntry>, series: SeriesKey) returns (at: nat)
    requires IndexSorted(index)
    ensures at <= |index|
    ensures forall i :: 0 <= i < at ==> !KeyLess(series, index[i].series)
    ensures forall i :: at <= i < |index| ==> KeyLess(series, index[i].series)
  {
    KeyOrder();
    hide KeyLess;
    at := 0;
    var high := |index|;
    while at < high
      invariant at <= high <= |index|
      invariant forall i :: 0 <= i < at ==> !KeyLess(series, index[i].series)
      invariant forall i :: high <= i < |index| ==> KeyLess(series, index[i].series)
    {
      var middle := at + (high - at) / 2;
      assert forall i :: 0 <= i < middle ==> EntryBefore(index[i], index[middle]);
      assert forall i :: middle < i < |index| ==> EntryBefore(index[middle], index[i]);
      if KeyLess(series, index[middle].series) {
        high := middle;
      } else {
        at := middle + 1;
      }
    }
  }

  // ----- what the index says about blocks -----

  lemma SampleIsPoint(blocks: seq<SegmentBlock>, k: nat, x: Sample)
    requires PairwiseOrdered(blocks) && k < |blocks| && x in blocks[k].samples
    ensures Has(BlocksMap(blocks), blocks[k].series, x)
  {
    hide PairwiseOrdered;
    BlocksMapHas(blocks, blocks[k].series, x);
  }

  ghost predicate FacesBlocks(content: Bytes, index: seq<IndexEntry>, blocks: seq<SegmentBlock>) {
    && IndexSorted(index) && PairwiseOrdered(blocks) && |blocks| == |index|
    && forall k :: 0 <= k < |index| ==> ReadBlock(content, index[k]) == Some(blocks[k]) && Matches(blocks[k], index[k])
  }

  /** The block of the entry cannot be read. */
  predicate Unreadable(content: Bytes, e: IndexEntry) {
    ReadBlock(content, e).None?
  }

  /** The block of the entry reads back and has the sample. */
  predicate BlockHas(content: Bytes, e: IndexEntry, series: SeriesKey, x: Sample) {
    var block := ReadBlock(content, e);
    block.Some? && block.value.series == series && x in block.value.samples
  }

  lemma EntrySpans(content: Bytes, e: IndexEntry, series: SeriesKey, x: Sample)
    requires BlockHas(content, e, series, x)
    ensures e.series == series && e.firstTimestamp <= x.timestamp <= e.lastTimestamp
  {
    hide B.Decode, FirstTimestamp, LastTimestamp;
    InSpan(ReadBlock(content, e).value, x);
  }

  lemma BlockFacts(content: Bytes, e: IndexEntry)
    requires ReadBlock(content, e).Some?
    ensures var b := ReadBlock(content, e).value;
            b.series == e.series && b.samples != [] && Increasing(b.samples)
            && b.samples[|b.samples| - 1].timestamp == e.lastTimestamp
  {
    hide B.Decode;
  }

  predicate Covers(e: IndexEntry, series: SeriesKey, t: i64) {
    e.series == series && e.firstTimestamp <= t <= e.lastTimestamp
  }

  /** No two entries cover the same point. */
  lemma OneCovers(index: seq<IndexEntry>, j: nat, k: nat, series: SeriesKey, t: i64)
    requires IndexSorted(index) && j < |index| && k < |index|
    requires Covers(index[j], series, t) && Covers(index[k], series, t)
    ensures j == k
  {
    KeyOrder();
    hide KeyLess;
  }

  predicate Overlaps(e: IndexEntry, series: SeriesKey, start: i64, end: i64) {
    e.series == series && start <= e.lastTimestamp && e.firstTimestamp < end
  }

  predicate LastOf(index: seq<IndexEntry>, k: nat, series: SeriesKey)
    requires k < |index|
  {
    index[k].series == series && forall j :: k < j < |index| ==> index[j].series != series
  }

  /** What a range scan has collected from the first `upto` entries. */
  ghost predicate Collected(content: Bytes, index: seq<IndexEntry>, series: SeriesKey, start: i64, end: i64, upto: nat,
                            r: seq<Sample>)
    requires upto <= |index|
  {
    && Increasing(r)
    && forall x :: x in r <==> FoundBefore(content, index, upto, series, x) && start <= x.timestamp < end
  }

  predicate FoundBefore(content: Bytes, index: seq<IndexEntry>, upto: nat, series: SeriesKey, x: Sample)
    requires upto <= |index|
  {
    exists k :: 0 <= k < upto && BlockHas(content, index[k], series, x)
  }

  /** An entry with nothing to give leaves the collection as it is. */
  lemma CollectNothing(content: Bytes, index: seq<IndexEntry>, series: SeriesKey, start: i64, end: i64, k: nat,
                       r: seq<Sample>)
    requires k < |index| && Collected(content, index, series, start, end, k, r)
    requires !Overlaps(index[k], series, start, end)
    ensures Collected(content, index, series, start, end, k + 1, r)
  {
    hide Increasing, BlockHas;
    forall x
      ensures x in r <==> FoundBefore(content, index, k + 1, series, x) && start <= x.timestamp < end
    {
      if BlockHas(content, index[k], series, x) {
        EntrySpans(content, index[k], series, x);
      }
    }
  }

  lemma CollectNothingFurther(content: Bytes, index: seq<IndexEntry>, series: SeriesKey, start: i64, end: i64, from: nat,
                              k: nat, r: seq<Sample>)
    requires from <= k <= |index| && Collected(content, index, series, start, end, from, r)
    requires forall j :: from <= j < k ==> !Overlaps(index[j], series, start, end)
    ensures Collected(content, index, series, start, end, k, r)
    decreases k - from
  {
    hide Collected, Overlaps;
    if from < k {
      CollectNothing(content, index, series, start, end, from, r);
      CollectNothingFurther(content, index, series, start, end, from + 1, k, r);
    }
  }

  lemma CollectSlice(content: Bytes, index: seq<IndexEntry>, series: SeriesKey, start: i64, end: i64, k: nat,
                     r: seq<Sample>, block: SegmentBlock, from: nat, to: nat)
    requires IndexSorted(index) && k < |index| && Collected(content, index, series, start, end, k, r)
    requires ReadBlock(content, index[k]) == Some(block) && block.series == series
    requires from <= to <= |block.samples|
    requires forall i :: 0 <= i < |block.samples| ==>
               (from <= i < to <==> start <= block.samples[i].timestamp < end)
    ensures Collected(content, index, series, start, end, k + 1, r + block.samples[from..to])
  {
    hide ReadBlock, KeyLess, FirstTimestamp, LastTimestamp, BlockHas, IndexSorted;
    var samples := block.samples;
    var slice := samples[from..to];
    var grown := r + slice;
    SliceMembers(samples, from, to, start, end);
    forall x
      ensures x in grown <==> FoundBefore(content, index, k + 1, series, x) && start <= x.timestamp < end
    {
      HasOf(content, index[k], series, x);
    }
    BlockFacts(content, index[k]);
    forall i, j | 0 <= i < j < |grown|
      ensures grown[i].timestamp < grown[j].timestamp
    {
      if i < |r| <= j {
        assert grown[i] in r && grown[j] in slice;
        HasOf(content, index[k], series, grown[j]);
        EarlierEntry(content, index, series, k, grown[i], grown[j]);
      }
    }
  }

  lemma HasOf(content: Bytes, e: IndexEntry, series: SeriesKey, x: Sample)
    requires ReadBlock(content, e).Some? && ReadBlock(content, e).value.series == series
    ensures BlockHas(content, e, series, x) <==> x in ReadBlock(content, e).value.samples
  {
    hide ReadBlock;
  }

  lemma EarlierEntry(content: Bytes, index: seq<IndexEntry>, series: SeriesKey, k: nat, x: Sample, y: Sample)
    requires IndexSorted(index) && k < |index|
    requires FoundBefore(content, index, k, series, x) && BlockHas(content, index[k], series, y)
    ensures x.timestamp < y.timestamp
  {
    hide BlockHas;
    var j :| 0 <= j < k && BlockHas(content, index[j], series, x);
    EntrySpans(content, index[j], series, x);
    EntrySpans(content, index[k], series, y);
    KeyOrder();
    hide KeyLess;
    assert EntryBefore(index[j], index[k]);
  }

  // ----- the reader -----

  datatype SegmentReader = SegmentReader(content: Bytes, index: seq<IndexEntry>, sampleCount: nat) {

    ghost predicate Valid() {
      Open(content) == Success(index) && sampleCount == TotalSamples(index)
    }

    /** Every block reads back and agrees with its entry. */
    ghost predicate Readable() {
      ReadBlocks(content, index).Some?
    }

    ghost function Blocks(): seq<SegmentBlock>
      requires Readable()
    {
      ReadBlocks(content, index).value
    }

    ghost function Points(): Contents
      requires Readable()
    {
      BlocksMap(Blocks())
    }

    lemma Facts()
      requires Valid()
      ensures IndexSorted(index)
      ensures Readable() ==> FacesBlocks(content, index, Blocks())
    {
      hide Open, ReadBlock, Matches, IndexSorted, PairwiseOrdered;
      OpenedSorted(content);
      if Readable() {
        ReadsMatch(content, index);
        SortedBlocks(index, Blocks());
      }
    }

    method FetchBlock(e: IndexEntry) returns (block: Option<SegmentBlock>)
      ensures block == ReadBlock(content, e)
    {
      hide B.Decode;
      if e.blockOffset + e.blockSize > |content| {
        return None;
      }
      var bytes := content[e.blockOffset..e.blockOffset + e.blockSize];
      var decoded := DecodeSegmentBlock(bytes);
      if decoded.Rejected? || decoded.bytesConsumed != |bytes| || !Matches(decoded.block, e) {
        return None;
      }
      block := Some(decoded.block);
    }

    /** A sample that some readable block of the file holds. */
    predicate Found(series: SeriesKey, x: Sample) {
      exists k :: 0 <= k < |index| && BlockHas(content, index[k], series, x)
    }

    /** With every block readable, these are the points of the file. */
    lemma FoundIsPoint(series: SeriesKey, x: Sample)
      requires Valid() && Readable()
      ensures Found(series, x) <==> Has(Points(), series, x)
      ensures forall k :: 0 <= k < |index| ==> !Unreadable(content, index[k])
    {
      hide Open, ReadBlock, ReadBlocks, BlocksMap, PairwiseOrdered, IndexSorted, Matches;
      Facts();
      BlocksMapHas(Blocks(), series, x);
      if Holds(Blocks(), series, x) {
        var k :| 0 <= k < |Blocks()| && Blocks()[k].series == series && x in Blocks()[k].samples;
        assert BlockHas(content, index[k], series, x);
      }
      if Found(series, x) {
        var k :| 0 <= k < |index| && BlockHas(content, index[k], series, x);
        assert Blocks()[k].series == series && x in Blocks()[k].samples;
      }
    }

    /** The last entry of the series is read, and no other: it alone decides. */
    ghost predicate LatestSearched(series: SeriesKey, r: Result<Option<Sample>, QueryError>) {
      && (r.Failure? ==> r.error == BlockUnreadable)
      && (r.Failure? <==> exists k :: 0 <= k < |index| && LastOf(index, k, series) && Unreadable(content, index[k]))
      && (r.Success? && r.value.Some? ==> Found(series, r.value.value))
      && (r.Success? ==> forall y :: Found(series, y) ==> r.value.Some? && y.timestamp <= r.value.value.timestamp)
    }

    lemma LatestSearchedAll(series: SeriesKey, r: Result<Option<Sample>, QueryError>)
      requires Valid() && Readable() && LatestSearched(series, r)
      ensures r.Success? && LatestAnswer(Points(), series, r.value)
    {
      hide Open, ReadBlocks, ReadBlock, BlocksMap, BlockHas, Found, LastOf, Unreadable, SegmentReader.Valid,
        SegmentReader.Readable, SegmentReader.Points;
      FoundIsPoint(series, Sample(0, 0));
      forall t: i64 | (series, t) in Points()
        ensures r.value.Some? && t <= r.value.value.timestamp
      {
        FoundIsPoint(series, Sample(t, Points()[(series, t)]));
      }
      if r.value.Some? {
        FoundIsPoint(series, r.value.value);
      }
    }

    method Latest(series: SeriesKey) returns (r: Result<Option<Sample>, QueryError>)
      requires Valid()
      ensures LatestSearched(series, r)
      ensures Readable() ==> r.Success? && LatestAnswer(Points(), series, r.value)
    {
      hide SegmentReader.Valid, SegmentReader.Readable, SegmentReader.Points, LatestAnswer,
        SegmentReader.LatestSearched;
      r := SearchLatest(series);
      if Readable() {
        LatestSearchedAll(series, r);
      }
    }

    method SearchLatest(series: SeriesKey) returns (r: Result<Option<Sample>, QueryError>)
      requires Valid()
      ensures LatestSearched(series, r)
    {
      hide SegmentReader.Valid, SegmentReader.Readable, SegmentReader.LatestSearched, IndexSorted, ReadBlock, LastOf,
        KeyLess;
      Facts();
      var end := UpperBoundEntry(index, series);
      LatestEntry(index, series, end);
      if end == 0 || index[end - 1].series != series {
        NoEntry(series);
        return Success(None);
      }
      var block := FetchBlock(index[end - 1]);
      if block.None? {
        LastUnreadable(series, end - 1);
        return Failure(BlockUnreadable);
      }
      BlockFacts(content, index[end - 1]);
      LastDecides(series, end - 1, block.value.samples);
      r := Success(Some(block.value.samples[|block.value.samples| - 1]));
    }

    lemma NoEntry(series: SeriesKey)
      requires forall k :: 0 <= k < |index| ==> index[k].series != series
      ensures LatestSearched(series, Success(None))
    {
      hide BlockHas;
      forall y | Found(series, y)
        ensures false
      {
        var k :| 0 <= k < |index| && BlockHas(content, index[k], series, y);
        EntrySpans(content, index[k], series, y);
      }
    }

    lemma LastUnreadable(series: SeriesKey, k: nat)
      requires k < |index| && LastOf(index, k, series) && ReadBlock(content, index[k]).None?
      ensures LatestSearched(series, Failure(BlockUnreadable))
    {
      assert Unreadable(content, index[k]);
    }

    lemma LastDecides(series: SeriesKey, k: nat, samples: seq<Sample>)
      requires IndexSorted(index) && k < |index| && LastOf(index, k, series)
      requires ReadBlock(content, index[k]).Some? && ReadBlock(content, index[k]).value.samples == samples
      requires samples != []
      ensures LatestSearched(series, Success(Some(samples[|samples| - 1])))
    {
      hide ReadBlock, BlockHas, IndexSorted;
      var last := samples[|samples| - 1];
      BlockFacts(content, index[k]);
      HasLast(content, index[k], series, last);
      forall j | 0 <= j < |index| && LastOf(index, j, series)
        ensures j == k
      {}
      forall y | Found(series, y)
        ensures y.timestamp <= last.timestamp
      {
        var j :| 0 <= j < |index| && BlockHas(content, index[j], series, y);
        EntrySpans(content, index[j], series, y);
        EntriesAscend(index, j, k);
      }
    }

    /** Only an entry that covers the timestamp is read, and there is at most one. */
    ghost predicate PointSearched(series: SeriesKey, timestamp: i64, r: Result<Option<Sample>, QueryError>) {
      && (r.Failure? ==> r.error == BlockUnreadable)
      && (r.Failure? <==>
            exists k :: 0 <= k < |index| && Covers(index[k], series, timestamp) && Unreadable(content, index[k]))
      && (r.Success? && r.value.Some? ==> r.value.value.timestamp == timestamp)
      && (r.Success? ==> forall x: Sample :: x.timestamp == timestamp ==> (r.value == Some(x) <==> Found(series, x)))
    }

    lemma PointSearchedAll(series: SeriesKey, timestamp: i64, r: Result<Option<Sample>, QueryError>)
      requires Valid() && Readable() && PointSearched(series, timestamp, r)
      ensures r == Success(GetAnswer(Points(), series, timestamp))
    {
      hide Open, ReadBlocks, ReadBlock, BlocksMap, BlockHas, Found, Covers, Unreadable, SegmentReader.Valid,
        SegmentReader.Readable, SegmentReader.Points;
      FoundIsPoint(series, Sample(timestamp, 0));
      if (series, timestamp) in Points() {
        FoundIsPoint(series, Sample(timestamp, Points()[(series, timestamp)]));
      }
      if r.value.Some? {
        FoundIsPoint(series, r.value.value);
      }
    }

    method Get(series: SeriesKey, timestamp: i64) returns (r: Result<Option<Sample>, QueryError>)
      requires Valid()
      ensures PointSearched(series, timestamp, r)
      ensures Readable() ==> r == Success(GetAnswer(Points(), series, timestamp))
    {
      hide SegmentReader.Valid, SegmentReader.Readable, SegmentReader.Points, GetAnswer, SegmentReader.PointSearched;
      r := SearchPoint(series, timestamp);
      if Readable() {
        PointSearchedAll(series, timestamp, r);
      }
    }

    method SearchPoint(series: SeriesKey, timestamp: i64) returns (r: Result<Option<Sample>, QueryError>)
      requires Valid()
      ensures PointSearched(series, timestamp, r)
    {
      hide SegmentReader.Valid, SegmentReader.Readable, SegmentReader.PointSearched, IndexSorted, ReadBlock, KeyLess;
      Facts();
      var entry := LowerBoundEntry(index, series);
      assert forall i :: 0 <= i < entry ==> !Covers(index[i], series, timestamp) by {
        KeyOrder();
      }
      while entry < |index| && index[entry].series == series
        invariant entry <= |index|
        invariant forall i :: 0 <= i < entry ==> !Covers(index[i], series, timestamp)
        invariant forall i :: entry <= i < |index| ==> !KeyLess(index[i].series, series)
      {
        if timestamp < index[entry].firstTimestamp {
          NoneCovers(index, series, timestamp, entry);
          NothingFound(series, timestamp);
          return Success(None);
        }
        if timestamp > index[entry].lastTimestamp {
          entry := entry + 1;
          continue;
        }
        var block := FetchBlock(index[entry]);
        if block.None? {
          CannotTell(series, timestamp, entry);
          return Failure(BlockUnreadable);
        }
        var found := FindSample(block.value, timestamp);
        OnlyHere(series, timestamp, entry, block.value, found);
        return Success(found);
      }
      NoneCovers(index, series, timestamp, entry);
      NothingFound(series, timestamp);
      r := Success(None);
    }

    /** The search within the block. */
    method FindSample(block: SegmentBlock, timestamp: i64) returns (r: Option<Sample>)
      ensures r.Some? ==> r.value in block.samples && r.value.timestamp == timestamp
      ensures r.None? ==> forall i :: 0 <= i < |block.samples| ==> block.samples[i].timestamp != timestamp
    {
      hide FirstTimestamp, LastTimestamp;
      var samples := block.samples;
      var at := LowerBoundSample(samples, 0, timestamp);
      if at < |samples| && samples[at].timestamp == timestamp {
        return Some(samples[at]);
      }
      r := None;
    }

    lemma CannotTell(series: SeriesKey, timestamp: i64, entry: nat)
      requires entry < |index| && Covers(index[entry], series, timestamp) && ReadBlock(content, index[entry]).None?
      ensures PointSearched(series, timestamp, Failure(BlockUnreadable))
    {
      assert Unreadable(content, index[entry]);
    }

    lemma NothingFound(series: SeriesKey, timestamp: i64)
      requires forall k :: 0 <= k < |index| ==> !Covers(index[k], series, timestamp)
      ensures PointSearched(series, timestamp, Success(None))
    {
      hide BlockHas, Covers;
      forall x: Sample | x.timestamp == timestamp && Found(series, x)
        ensures false
      {
        var k :| 0 <= k < |index| && BlockHas(content, index[k], series, x);
        EntrySpans(content, index[k], series, x);
        CoversWhen(index[k], series, timestamp);
      }
    }

    /** The block that covers the timestamp settles whether there is such a sample. */
    lemma OnlyHere(series: SeriesKey, timestamp: i64, entry: nat, block: SegmentBlock, r: Option<Sample>)
      requires IndexSorted(index) && entry < |index| && Covers(index[entry], series, timestamp)
      requires ReadBlock(content, index[entry]) == Some(block)
      requires r.Some? ==> r.value in block.samples && r.value.timestamp == timestamp
      requires r.None? ==> forall i :: 0 <= i < |block.samples| ==> block.samples[i].timestamp != timestamp
      ensures PointSearched(series, timestamp, Success(r))
    {
      hide ReadBlock, IndexSorted, Covers, FirstTimestamp, LastTimestamp;
      BlockFacts(content, index[entry]);
      forall k | 0 <= k < |index| && Covers(index[k], series, timestamp)
        ensures !Unreadable(content, index[k])
      {
        OneCovers(index, k, entry, series, timestamp);
      }
      forall x: Sample | x.timestamp == timestamp
        ensures r == Some(x) <==> Found(series, x)
      {
        CoveringSeries(index[entry], series, timestamp);
        if r == Some(x) {
          assert BlockHas(content, index[entry], series, x);
        }
        if Found(series, x) {
          var k :| 0 <= k < |index| && BlockHas(content, index[k], series, x);
          EntrySpans(content, index[k], series, x);
          CoversWhen(index[k], series, timestamp);
          OneCovers(index, k, entry, series, timestamp);
          SameTime(block.samples, x, r);
        }
      }
    }

    predicate OverlapsUnreadable(k: nat, series: SeriesKey, start: i64, end: i64)
      requires k < |index|
    {
      Overlaps(index[k], series, start, end) && Unreadable(content, index[k])
    }

    /** Only entries that overlap the half-open range are read. */
    ghost predicate RangeSearched(series: SeriesKey, start: i64, end: i64, r: Result<seq<Sample>, QueryError>) {
      && (r.Failure? ==> r.error == InvalidRange || r.error == BlockUnreadable)
      && (r == Failure(InvalidRange) <==> end < start)
      && (r == Failure(BlockUnreadable) <==>
            start < end && exists k :: 0 <= k < |index| && OverlapsUnreadable(k, series, start, end))
      && (r.Success? ==>
            Increasing(r.value) && forall x :: x in r.value <==> Found(series, x) && start <= x.timestamp < end)
    }

    lemma RangeSearchedAll(series: SeriesKey, start: i64, end: i64, r: Result<seq<Sample>, QueryError>)
      requires Valid() && Readable() && RangeSearched(series, start, end, r) && start <= end
      ensures r.Success? && RangeAnswer(Points(), series, start, end, r.value)
    {
      hide Open, ReadBlocks, ReadBlock, BlocksMap, BlockHas, Found, Overlaps, Unreadable, Increasing, Has,
        SegmentReader.Valid, SegmentReader.Readable, SegmentReader.Points;
      FoundIsPoint(series, Sample(start, 0));
      forall x
        ensures x in r.value <==> Has(Points(), series, x) && start <= x.timestamp < end
      {
        FoundIsPoint(series, x);
      }
    }

    /** Half-open: `start` included, `end` excluded. */
    method Range(series: SeriesKey, start: i64, end: i64) returns (r: Result<seq<Sample>, QueryError>)
      requires Valid()
      ensures RangeSearched(series, start, end, r)
      ensures end < start <==> r == Failure(InvalidRange)
      ensures start <= end && Readable() ==> r.Success? && RangeAnswer(Points(), series, start, end, r.value)
    {
      hide SegmentReader.Valid, SegmentReader.Readable, SegmentReader.Points, RangeAnswer;
      r := SearchRange(series, start, end);
      if start <= end && Readable() {
        RangeSearchedAll(series, start, end, r);
      }
    }

    method SearchRange(series: SeriesKey, start: i64, end: i64) returns (r: Result<seq<Sample>, QueryError>)
      requires Valid()
      ensures RangeSearched(series, start, end, r)
    {
      hide SegmentReader.Valid, SegmentReader.Readable, SegmentReader.RangeSearched, IndexSorted, ReadBlock, Collected,
        KeyLess, Increasing;
      if end <= start {
        NothingBetween(series, start, end);
        return if end < start then Failure(InvalidRange) else Success([]);
      }
      Facts();
      var entry := LowerBoundEntry(index, series);
      var result: seq<Sample> := [];
      NothingCollected(content, index, series, start, end);
      assert forall i :: 0 <= i < entry ==> !Overlaps(index[i], series, start, end) by {
        KeyOrder();
      }
      CollectNothingFurther(content, index, series, start, end, 0, entry, result);
      while entry < |index| && index[entry].series == series
        invariant entry <= |index|
        invariant forall i :: entry <= i < |index| ==> !KeyLess(index[i].series, series)
        invariant Collected(content, index, series, start, end, entry, result)
        invariant forall k :: 0 <= k < entry ==> !OverlapsUnreadable(k, series, start, end)
      {
        if index[entry].lastTimestamp < start {
          CollectNothing(content, index, series, start, end, entry, result);
          entry := entry + 1;
          continue;
        }
        if index[entry].firstTimestamp >= end {
          break;
        }
        var block := FetchBlock(index[entry]);
        if block.None? {
          CannotCollect(series, start, end, entry);
          return Failure(BlockUnreadable);
        }
        BlockFacts(content, index[entry]);
        var samples := block.value.samples;
        var first := LowerBoundSample(samples, 0, start);
        var last := LowerBoundSample(samples, first, end);
        CollectSlice(content, index, series, start, end, entry, result, block.value, first, last);
        result := result + samples[first..last];
        entry := entry + 1;
      }
      NothingBeyond(index, series, start, end, entry);
      CollectNothingFurther(content, index, series, start, end, entry, |index|, result);
      AllCollected(series, start, end, result);
      r := Success(result);
    }

    lemma NothingBetween(series: SeriesKey, start: i64, end: i64)
      requires end <= start
      ensures RangeSearched(series, start, end, if end < start then Failure(InvalidRange) else Success([]))
    {
      hide ReadBlock, BlockHas;
    }

    lemma CannotCollect(series: SeriesKey, start: i64, end: i64, k: nat)
      requires start < end && k < |index| && Overlaps(index[k], series, start, end) && ReadBlock(content, index[k]).None?
      ensures RangeSearched(series, start, end, Failure(BlockUnreadable))
    {
      hide ReadBlock, BlockHas;
      assert OverlapsUnreadable(k, series, start, end);
    }

    lemma AllCollected(series: SeriesKey, start: i64, end: i64, r: seq<Sample>)
      requires start < end && Collected(content, index, series, start, end, |index|, r)
      requires forall k :: 0 <= k < |index| ==> !OverlapsUnreadable(k, series, start, end)
      ensures RangeSearched(series, start, end, Success(r))
    {
      hide ReadBlock, BlockHas, Increasing;
    }

    method AllBlocks() returns (r: Option<seq<SegmentBlock>>)
      ensures r == ReadBlocks(content, index)
    {
      hide ReadBlock;
      var result: seq<SegmentBlock> := [];
      ghost var all := ReadBlocks(content, index);
      assert index[0..] == index;
      if all.Some? {
        assert [] + all.value == all.value;
      }
      for i := 0 to |index|
        invariant match ReadBlocks(content, index[i..])
                  case None => all.None?
                  case Some(rest) => all == Some(result + rest)
      {
        ghost var rest := ReadBlocks(content, index[i..]);
        assert index[i..][1..] == index[i + 1..];
        var block := FetchBlock(index[i]);
        if block.None? {
          return None;
        }
        if rest.Some? {
          Regroup(result, block.value, rest.value[1..]);
        }
        result := result + [block.value];
      }
      assert result + [] == result;
      r := Some(result);
    }
  }

  lemma LatestEntry(index: seq<IndexEntry>, series: SeriesKey, end: nat)
    requires IndexSorted(index) && end <= |index|
    requires forall i :: 0 <= i < end ==> !KeyLess(series, index[i].series)
    requires forall i :: end <= i < |index| ==> KeyLess(series, index[i].series)
    ensures forall k :: 0 <= k < |index| && LastOf(index, k, series) ==> k == end - 1
    ensures forall k :: 0 <= k < |index| && index[k].series == series ==>
              end > 0 && k <= end - 1 && index[end - 1].series == series && LastOf(index, end - 1, series)
  {
    KeyOrder();
    hide KeyLess;
    forall k | 0 <= k < |index| && index[k].series == series
      ensures end > 0 && k <= end - 1 && index[end - 1].series == series
    {
      if k < end - 1 {
        assert EntryBefore(index[k], index[end - 1]);
      }
    }
  }

  lemma HasLast(content: Bytes, e: IndexEntry, series: SeriesKey, last: Sample)
    requires ReadBlock(content, e).Some? && e.series == series
    requires var samples := ReadBlock(content, e).value.samples; samples != [] && last == samples[|samples| - 1]
    ensures BlockHas(content, e, series, last)
  {
    hide ReadBlock;
    BlockFacts(content, e);
  }

  lemma EntriesAscend(index: seq<IndexEntry>, j: nat, k: nat)
    requires IndexSorted(index) && j <= k < |index| && index[j].series == index[k].series
    ensures index[j].lastTimestamp <= index[k].lastTimestamp
  {
    KeyOrder();
    hide KeyLess;
    if j < k {
      assert EntryBefore(index[j], index[k]);
    }
  }

  lemma NoneCovers(index: seq<IndexEntry>, series: SeriesKey, t: i64, entry: nat)
    requires IndexSorted(index) && entry <= |index|
    requires forall i :: 0 <= i < entry ==> !Covers(index[i], series, t)
    requires forall i :: entry <= i < |index| ==> !KeyLess(index[i].series, series)
    requires entry < |index| ==> index[entry].series != series || t < index[entry].firstTimestamp
    ensures forall k :: 0 <= k < |index| ==> !Covers(index[k], series, t)
  {
    KeyOrder();
    hide KeyLess;
    forall k | entry <= k < |index|
      ensures !Covers(index[k], series, t)
    {
      if k > entry {
        assert EntryBefore(index[entry], index[k]);
      }
    }
  }

  lemma CoveringSeries(e: IndexEntry, series: SeriesKey, t: i64)
    requires Covers(e, series, t)
    ensures e.series == series
  {}

  lemma CoversWhen(e: IndexEntry, series: SeriesKey, t: i64)
    requires e.series == series && e.firstTimestamp <= t <= e.lastTimestamp
    ensures Covers(e, series, t)
  {}

  lemma SameTime(samples: seq<Sample>, x: Sample, r: Option<Sample>)
    requires Increasing(samples) && x in samples
    requires r.Some? ==> r.value in samples && r.value.timestamp == x.timestamp
    requires r.None? ==> forall i :: 0 <= i < |samples| ==> samples[i].timestamp != x.timestamp
    ensures r == Some(x)
  {
    var i :| 0 <= i < |samples| && samples[i] == x;
    if r.Some? {
      var j :| 0 <= j < |samples| && samples[j] == r.value;
    }
  }

  lemma NothingCollected(content: Bytes, index: seq<IndexEntry>, series: SeriesKey, start: i64, end: i64)
    ensures Collected(content, index, series, start, end, 0, [])
  {}

  lemma NothingBeyond(index: seq<IndexEntry>, series: SeriesKey, start: i64, end: i64, entry: nat)
    requires IndexSorted(index) && entry <= |index|
    requires forall i :: entry <= i < |index| ==> !KeyLess(index[i].series, series)
    requires entry < |index| ==> index[entry].series != series || end <= index[entry].firstTimestamp
    ensures forall j :: entry <= j < |index| ==> !Overlaps(index[j], series, start, end)
  {
    KeyOrder();
    hide KeyLess;
    forall j | entry <= j < |index|
      ensures !Overlaps(index[j], series, start, end)
    {
      if j > entry {
        assert EntryBefore(index[entry], index[j]);
      }
    }
  }
}
