/** Writing segment files: the bytes built step by step are those that `SegmentFormat.SegmentBytes` describes. */
module SegmentFile {
  import opened Prelude
  import opened Words
  import opened Model
  import opened ByteCodec
  import opened KeyCodec
  import opened Crc32c
  import opened B = SegmentBlocks
  import opened F = SegmentFormat

  // ----- writing -----

  method CheckBlocks(blocks: seq<SegmentBlock>) returns (problem: Option<SegmentWriteError>)
    ensures problem == ValidateBlocks(blocks)
  {
    hide BlockFollows;
    if blocks == [] {
      return Some(EmptySegment);
    }
    if |blocks| > MAX_SEGMENT_BLOCK_COUNT {
      return Some(TooManyBlocks);
    }
    for index := 1 to |blocks|
      invariant forall i :: 0 < i < index ==> BlockFollows(blocks[i - 1], blocks[i])
    {
      if !BlockFollows(blocks[index - 1], blocks[index]) {
        return Some(BlocksNotOrdered);
      }
    }
    problem := None;
  }

  method WriteHeader(e: Envelope) returns (bytes: Bytes)
    requires EnvelopeFits(e)
    ensures bytes == EncHeader(e)
  {
    hide LE, Checksum;
    var writer := new ByteWriter();
    writer.WriteU32(SEGMENT_FILE_MAGIC);
    writer.WriteU16(SEGMENT_FILE_VERSION);
    writer.WriteU16(SEGMENT_FILE_FLAGS);
    writer.WriteU32(e.blockCount);
    writer.WriteU64(e.indexOffset);
    writer.WriteU64(e.indexSize);
    assert writer.data == Preamble(SEGMENT_FILE_MAGIC) + LE(e.blockCount, 4) + LE(e.indexOffset, 8) + LE(e.indexSize, 8);
    var checksum := Compute(writer.data);
    writer.WriteU32(checksum);
    bytes := writer.data;
  }

  method WriteFooter(e: Envelope) returns (bytes: Bytes)
    requires EnvelopeFits(e)
    ensures bytes == EncFooter(e)
  {
    hide LE, Checksum;
    var writer := new ByteWriter();
    writer.WriteU32(SEGMENT_FOOTER_MAGIC);
    writer.WriteU16(SEGMENT_FILE_VERSION);
    writer.WriteU16(SEGMENT_FILE_FLAGS);
    writer.WriteU64(e.indexOffset);
    writer.WriteU64(e.indexSize);
    writer.WriteU32(e.blockCount);
    assert writer.data == Preamble(SEGMENT_FOOTER_MAGIC) + LE(e.indexOffset, 8) + LE(e.indexSize, 8) + LE(e.blockCount, 4);
    var checksum := Compute(writer.data);
    writer.WriteU32(checksum);
    bytes := writer.data;
  }

  method WriteEntry(writer: ByteWriter, e: IndexEntry)
    requires EntryFits(e)
    modifies writer
    ensures writer.data == old(writer.data) + EncEntry(e)
  {
    hide LE, KeyFits, EncKey;
    ghost var start := writer.data;
    writer.WriteU64(e.blockOffset);
    writer.WriteU32(e.blockSize);
    writer.WriteU32(e.sampleCount);
    assert writer.data == start + EncExtent(e);
    writer.WriteU64(ToBits(e.firstTimestamp));
    writer.WriteU64(ToBits(e.lastTimestamp));
    assert writer.data == start + EncExtent(e) + EncSpan(e);
    var ok := WriteKey(writer, e.series);
    assert writer.data == start + EncEntry(e);
  }

  method WriteEntries(entries: seq<IndexEntry>) returns (bytes: Bytes)
    requires EntriesFit(entries)
    ensures bytes == EncEntries(entries)
  {
    hide EncEntry, EntryFits;
    var payload := new ByteWriter();
    for i := 0 to |entries|
      invariant payload.data + EncEntries(entries[i..]) == EncEntries(entries)
    {
      assert entries[i..] == [entries[i]] + entries[i + 1..];
      ghost var before := payload.data;
      WriteEntry(payload, entries[i]);
      assert before + (EncEntry(entries[i]) + EncEntries(entries[i + 1..]))
          == payload.data + EncEntries(entries[i + 1..]);
    }
    assert entries[|entries|..] == [] && payload.data + [] == payload.data;
    bytes := payload.data;
  }

  method WriteIndex(entries: seq<IndexEntry>) returns (bytes: Option<Bytes>)
    requires EntriesFit(entries) && |entries| <= MAX_SEGMENT_BLOCK_COUNT
    ensures bytes == if |EncEntries(entries)| > MAX_INDEX_PAYLOAD_SIZE then None else Some(EncIndex(entries))
  {
    hide LE, Checksum, EncEntries, EntriesFit;
    var payload := WriteEntries(entries);
    if |payload| > MAX_INDEX_PAYLOAD_SIZE {
      return None;
    }
    var writer := new ByteWriter();
    writer.WriteU32(SEGMENT_INDEX_MAGIC);
    writer.WriteU16(SEGMENT_FILE_VERSION);
    writer.WriteU16(SEGMENT_FILE_FLAGS);
    writer.WriteU32(|entries|);
    writer.WriteU32(|payload|);
    writer.WriteU32(Inverted(|payload|));
    assert writer.data == IndexHeader(|entries|, |payload|);
    writer.WriteBytes(payload);
    var checksum := Compute(writer.data);
    writer.WriteU32(checksum);
    bytes := Some(writer.data);
  }

  /** Room for the header, which is written last. */
  function Placeholder(): (zeros: Bytes)
    ensures |zeros| == SEGMENT_HEADER_SIZE
  {
    seq(SEGMENT_HEADER_SIZE, _ => 0)
  }

  method AppendBlocks(blocks: seq<SegmentBlock>) returns (ok: bool, fileBytes: Bytes, entries: seq<IndexEntry>)
    ensures ok <==> Encodable(blocks)
    ensures ok ==> fileBytes == Placeholder() + Body(blocks) && entries == EntriesFor(blocks, SEGMENT_HEADER_SIZE)
  {
    hide B.Encode, EntryFor, Placeholder, FirstTimestamp, LastTimestamp, Body, EntriesFor;
    fileBytes := Placeholder();
    entries := [];
    var i := 0;
    while i < |blocks|
      invariant i <= |blocks|
      invariant forall j :: 0 <= j < i ==> B.Encode(blocks[j]).Success?
      invariant Encodable(blocks) ==>
                  && fileBytes + Body(blocks[i..]) == Placeholder() + Body(blocks)
                  && entries + EntriesFor(blocks[i..], |fileBytes|) == EntriesFor(blocks, SEGMENT_HEADER_SIZE)
    {
      var encoded := EncodeSegmentBlock(blocks[i]);
      if encoded.Failure? {
        return false, fileBytes, entries;
      }
      var entry := IndexEntry(blocks[i].series, FirstTimestamp(blocks[i]), LastTimestamp(blocks[i]),
                              |fileBytes|, |encoded.value|, |blocks[i].samples|);
      if Encodable(blocks) {
        EntryIs(blocks[i], |fileBytes|);
        NextBody(blocks, i, fileBytes);
        NextEntries(blocks, i, |fileBytes|, entries, entry);
      }
      entries := entries + [entry];
      fileBytes := fileBytes + encoded.value;
      i := i + 1;
    }
    assert blocks[i..] == [];
    NoBlocks(|fileBytes|);
    assert fileBytes + [] == fileBytes && entries + [] == entries;
    ok := true;
  }

  lemma NoBlocks(offset: nat)
    ensures Encodable([]) && Body([]) == [] && EntriesFor([], offset) == []
  {}

  /** What remains to be written after block `i`. */
  lemma NextBody(blocks: seq<SegmentBlock>, i: nat, fileBytes: Bytes)
    requires i < |blocks| && Encodable(blocks)
    ensures Encodable(blocks[i..]) && Encodable(blocks[i + 1..])
    ensures fileBytes + Body(blocks[i..]) == (fileBytes + B.Encode(blocks[i]).value) + Body(blocks[i + 1..])
  {
    hide B.Encode, Body, EntriesFor, EntryFor;
    var tail, rest := blocks[i..], blocks[i + 1..];
    assert tail[0] == blocks[i] && tail[1..] == rest;
    Unfold(tail, 0);
    var encoded := B.Encode(blocks[i]).value;
    assert fileBytes + (encoded + Body(rest)) == (fileBytes + encoded) + Body(rest);
  }

  lemma NextEntries(blocks: seq<SegmentBlock>, i: nat, offset: nat, entries: seq<IndexEntry>, entry: IndexEntry)
    requires i < |blocks| && Encodable(blocks) && entry == EntryFor(blocks[i], offset)
    ensures Encodable(blocks[i..]) && Encodable(blocks[i + 1..])
    ensures entries + EntriesFor(blocks[i..], offset)
         == (entries + [entry]) + EntriesFor(blocks[i + 1..], offset + |B.Encode(blocks[i]).value|)
  {
    hide B.Encode, EntryFor, Body, EntriesFor;
    var tail, rest := blocks[i..], blocks[i + 1..];
    assert tail[0] == blocks[i] && tail[1..] == rest;
    Unfold(tail, offset);
    Regroup(entries, entry, EntriesFor(rest, offset + |B.Encode(blocks[i]).value|));
  }

  lemma Unfold(blocks: seq<SegmentBlock>, offset: nat)
    requires blocks != [] && Encodable(blocks)
    ensures Encodable(blocks[1..]) && Body(blocks) == B.Encode(blocks[0]).value + Body(blocks[1..])
    ensures EntriesFor(blocks, offset)
         == [EntryFor(blocks[0], offset)] + EntriesFor(blocks[1..], offset + |B.Encode(blocks[0]).value|)
  {
    hide B.Encode, EntryFor;
  }

  /** Appends index and footer and fills in the header. */
  method SealFile(placed: Bytes, entries: seq<IndexEntry>, ghost body: Bytes)
    returns (file: Result<Bytes, SegmentWriteError>)
    requires placed == Placeholder() + body && |placed| <= U64_MAX
    requires EntriesFit(entries) && 1 <= |entries| <= MAX_SEGMENT_BLOCK_COUNT
    requires ValidIndex(entries, SEGMENT_HEADER_SIZE, |placed|)
    ensures file == if |EncEntries(entries)| > MAX_INDEX_PAYLOAD_SIZE then Failure(IndexTooLarge)
                    else Success(Assemble(entries, body))
  {
    hide EncHeader, EncFooter, EncIndex, EncEntries, EntriesFit, ValidIndex, Placeholder;
    var index := WriteIndex(entries);
    if index.None? {
      return Failure(IndexTooLarge);
    }
    IndexRoundTrip(entries, |placed|);
    var e := Envelope(|entries|, |placed|, |index.value|);
    HeaderRoundTrip(e);
    var footer := WriteFooter(e);
    var header := WriteHeader(e);
    var fileBytes := placed + index.value + footer;
    Patch(Placeholder(), header, body, index.value, footer);
    file := Success(header + fileBytes[SEGMENT_HEADER_SIZE..]);
  }

  /** Builds the file in memory; publication is the disk's business. */
  method EncodeSegmentFile(blocks: seq<SegmentBlock>) returns (file: Result<Bytes, SegmentWriteError>)
    ensures file == SegmentBytes(blocks)
  {
    hide B.Encode, EntryFor, EncEntries, EntriesFit, ValidIndex, BlockFollows, Body, EntriesFor, Encodable,
      Placeholder, Assemble;
    var problem := CheckBlocks(blocks);
    if problem.Some? {
      return Failure(problem.value);
    }
    var ok, fileBytes, entries := AppendBlocks(blocks);
    if !ok {
      return Failure(BlockTooLarge);
    }
    BodyBound(blocks);
    EntriesTile(blocks, SEGMENT_HEADER_SIZE);
    file := SealFile(fileBytes, entries, Body(blocks));
  }

  /** Overwriting the placeholder. */
  lemma Patch(zeros: Bytes, header: Bytes, body: Bytes, index: Bytes, footer: Bytes)
    requires |zeros| == |header|
    ensures header + (zeros + body + index + footer)[|zeros|..] == header + body + index + footer
  {}

  lemma EntryIs(block: SegmentBlock, offset: nat)
    requires B.Encode(block).Success?
    ensures EntryFor(block, offset)
         == IndexEntry(block.series, FirstTimestamp(block), LastTimestamp(block), offset,
                       |B.Encode(block).value|, |block.samples|)
  {}
}
