/** The manifest: which segments are live, in order, and how many distinct points they hold. */
module Manifest {
  import opened Prelude
  import opened Words
  import opened ByteCodec
  import opened KeyCodec
  import opened Crc32c
  import opened Sealing
  import opened SegmentNames

  const MANIFEST_MAGIC: u32 := 0x464D_5343
  const MANIFEST_VERSION: u16 := 1
  const MANIFEST_FLAGS: u16 := 0
  const MANIFEST_HEADER_SIZE: nat := 36
  const MAX_MANIFEST_PAYLOAD_SIZE: nat := 16 * 1024 * 1024
  const MAX_MANIFEST_SEGMENTS: nat := 100_000

  datatype ManifestState = ManifestState(generation: nat, logicalSampleCount: nat, segmentFiles: seq<Name>)

  datatype ManifestEncodeError = TooManySegments | InvalidSegmentFilename | PayloadTooLarge | NumberTooLarge

  datatype ManifestFormatError =
    | Incomplete | InvalidMagic | Unsupported | InvalidMetadata | InconsistentSize | ChecksumMismatch
    | IncompleteFilename | TrailingBytes | InvalidState | TooLarge | InconsistentCount

  ghost predicate DistinctNames(names: seq<Name>) {
    forall i, j :: 0 <= i < j < |names| ==> names[i] != names[j]
  }

  ghost predicate ValidNames(names: seq<Name>) {
    && |names| <= MAX_MANIFEST_SEGMENTS
    && (forall i :: 0 <= i < |names| ==> ValidSegmentFilename(names[i]))
    && DistinctNames(names)
  }

  function EncNames(names: seq<Name>): Bytes {
    if names == [] then [] else EncString(names[0]) + EncNames(names[1..])
  }

  function Header(s: ManifestState, payloadSize: nat): Bytes
    requires payloadSize <= U32_MAX
  {
    LE(MANIFEST_MAGIC, 4) + LE(MANIFEST_VERSION, 2) + LE(MANIFEST_FLAGS, 2)
    + LE(s.generation, 8) + LE(s.logicalSampleCount, 8) + LE(|s.segmentFiles|, 4)
    + LE(payloadSize, 4) + LE(U32_MAX - payloadSize, 4)
  }

  ghost function Encode(s: ManifestState): Result<Bytes, ManifestEncodeError> {
    var payload := EncNames(s.segmentFiles);
    if |s.segmentFiles| > MAX_MANIFEST_SEGMENTS then Failure(TooManySegments)
    else if !ValidNames(s.segmentFiles) then Failure(InvalidSegmentFilename)
    else if |payload| > MAX_MANIFEST_PAYLOAD_SIZE then Failure(PayloadTooLarge)
    else if s.generation > U64_MAX || s.logicalSampleCount > U64_MAX then Failure(NumberTooLarge)
    else Success(Seal(Header(s, |payload|) + payload))
  }

  datatype ManifestHeader = ManifestHeader(
    magic: nat, version: nat, flags: nat, generation: nat, count: nat, segmentCount: nat,
    payloadSize: nat, invertedSize: nat)

  function ParseHeader(h: Bytes): ManifestHeader
    requires |h| == MANIFEST_HEADER_SIZE
  {
    ManifestHeader(FromLE(h[0..4]), FromLE(h[4..6]), FromLE(h[6..8]), FromLE(h[8..16]), FromLE(h[16..24]),
                   FromLE(h[24..28]), FromLE(h[28..32]), FromLE(h[32..36]))
  }

  function ParseNames(b: Bytes, pos: nat, count: nat): Option<Parsed<seq<Name>>>
    decreases count
  {
    if count == 0 then Some(Parsed([], pos))
    else
      match ParseString(b, pos)
      case None => None
      case Some(n) =>
        match ParseNames(b, n.next, count - 1)
        case None => None
        case Some(rest) => Some(Parsed([n.value] + rest.value, rest.next))
  }

  ghost function Decode(b: Bytes): Result<ManifestState, ManifestFormatError> {
    if |b| < MANIFEST_HEADER_SIZE + CHECKSUM_SIZE then Failure(Incomplete)
    else
      var h := ParseHeader(b[..MANIFEST_HEADER_SIZE]);
      if h.magic != MANIFEST_MAGIC then Failure(InvalidMagic)
      else if h.version != MANIFEST_VERSION || h.flags != MANIFEST_FLAGS then Failure(Unsupported)
      else if h.segmentCount > MAX_MANIFEST_SEGMENTS || h.payloadSize > MAX_MANIFEST_PAYLOAD_SIZE
              || h.invertedSize != U32_MAX - h.payloadSize then Failure(InvalidMetadata)
      else if |b| != MANIFEST_HEADER_SIZE + h.payloadSize + CHECKSUM_SIZE then Failure(InconsistentSize)
      else if !Sealed(b) then Failure(ChecksumMismatch)
      else DecodeState(b[MANIFEST_HEADER_SIZE..MANIFEST_HEADER_SIZE + h.payloadSize], h)
  }

  ghost function DecodeState(payload: Bytes, h: ManifestHeader): Result<ManifestState, ManifestFormatError> {
    match ParseNames(payload, 0, h.segmentCount)
    case None => Failure(IncompleteFilename)
    case Some(names) =>
      if names.next != |payload| then Failure(TrailingBytes)
      else if !ValidNames(names.value) then Failure(InvalidState)
      else Success(ManifestState(h.generation, h.count, names.value))
  }

  // ----- both directions -----

  lemma {:induction false} ParseNamesEnc(b: Bytes, pos: nat, names: seq<Name>)
    requires At(b, pos, EncNames(names))
    requires forall i :: 0 <= i < |names| ==> |names[i]| <= U32_MAX
    ensures ParseNames(b, pos, |names|) == Some(Parsed(names, pos + |EncNames(names)|))
    decreases |names|
  {
    hide At, EncString, ParseString;
    if names != [] {
      var n, rest := names[0], names[1..];
      AtConcat(b, pos, EncString(n), EncNames(rest));
      ParseStringEnc(b, pos, n);
      ParseNamesEnc(b, pos + |EncString(n)|, rest);
      assert names == [n] + rest;
    }
  }

  lemma {:induction false} ParseNamesCanonical(b: Bytes, pos: nat, count: nat)
    requires pos <= |b| && ParseNames(b, pos, count).Some?
    ensures var p := ParseNames(b, pos, count).value;
            && |p.value| == count && At(b, pos, EncNames(p.value)) && p.next == pos + |EncNames(p.value)|
    decreases count
  {
    hide EncString, ParseString;
    if count > 0 {
      hide At;
      var n := ParseString(b, pos).value;
      ParseStringCanonical(b, pos);
      AtBound(b, pos, EncString(n.value));
      ParseNamesCanonical(b, n.next, count - 1);
      var rest := ParseNames(b, n.next, count - 1).value.value;
      var names := ParseNames(b, pos, count).value.value;
      assert names[0] == n.value && names[1..] == rest;
      AtConcat(b, pos, EncString(n.value), EncNames(rest));
    }
  }

  lemma {:induction false} SmallNames(names: seq<Name>)
    ensures forall i :: 0 <= i < |names| ==> |names[i]| <= |EncNames(names)|
  {
    if names != [] {
      SmallNames(names[1..]);
      assert names == [names[0]] + names[1..];
    }
  }

  lemma HeaderFields(s: ManifestState, n: nat)
    requires n <= U32_MAX && s.generation <= U64_MAX && s.logicalSampleCount <= U64_MAX
    requires |s.segmentFiles| <= MAX_MANIFEST_SEGMENTS
    ensures |Header(s, n)| == MANIFEST_HEADER_SIZE
    ensures ParseHeader(Header(s, n))
         == ManifestHeader(MANIFEST_MAGIC, MANIFEST_VERSION, MANIFEST_FLAGS, s.generation, s.logicalSampleCount,
                           |s.segmentFiles|, n, U32_MAX - n)
  {
    hide LE, FromLE;
    var h := Header(s, n);
    var front := LE(MANIFEST_MAGIC, 4) + LE(MANIFEST_VERSION, 2) + LE(MANIFEST_FLAGS, 2)
                 + LE(s.generation, 8) + LE(s.logicalSampleCount, 8);
    var back := LE(|s.segmentFiles|, 4) + LE(n, 4) + LE(U32_MAX - n, 4);
    LEFits(MANIFEST_MAGIC);
    LEFits(MANIFEST_VERSION);
    LEFits(MANIFEST_FLAGS);
    LEFits(s.generation);
    LEFits(s.logicalSampleCount);
    LEFits(|s.segmentFiles|);
    LEFits(n);
    LEFits(U32_MAX - n);
    assert h == front + back;
    assert h[0..4] == front[0..4] == LE(MANIFEST_MAGIC, 4);
    assert h[4..6] == front[4..6] == LE(MANIFEST_VERSION, 2);
    assert h[6..8] == front[6..8] == LE(MANIFEST_FLAGS, 2);
    assert h[8..16] == front[8..16] == LE(s.generation, 8);
    assert h[16..24] == front[16..24] == LE(s.logicalSampleCount, 8);
    assert h[24..28] == back[0..4] == LE(|s.segmentFiles|, 4);
    assert h[28..32] == back[4..8] == LE(n, 4);
    assert h[32..36] == back[8..12] == LE(U32_MAX - n, 4);
  }

  lemma HeaderCanonical(h: Bytes, names: seq<Name>)
    requires |h| == MANIFEST_HEADER_SIZE
    requires var f := ParseHeader(h);
             && f.magic == MANIFEST_MAGIC && f.version == MANIFEST_VERSION && f.flags == MANIFEST_FLAGS
             && f.invertedSize == U32_MAX - f.payloadSize && f.segmentCount == |names|
    ensures var f := ParseHeader(h);
            && f.payloadSize <= U32_MAX && f.generation <= U64_MAX && f.count <= U64_MAX
            && h == Header(ManifestState(f.generation, f.count, names), f.payloadSize)
  {
    hide LE, FromLE;
    Pow256Values();
    var f := ParseHeader(h);
    LECanonical(h[0..4]);
    LECanonical(h[4..6]);
    LECanonical(h[6..8]);
    LECanonical(h[8..16]);
    LECanonical(h[16..24]);
    LECanonical(h[24..28]);
    LECanonical(h[28..32]);
    LECanonical(h[32..36]);
    assert f.invertedSize >= 0;
    assert h == h[0..4] + h[4..6] + h[6..8] + h[8..16] + h[16..24] + h[24..28] + h[28..32] + h[32..36];
  }

  lemma Slices(x: Bytes, y: Bytes, z: Bytes)
    ensures (x + y + z)[..|x|] == x
    ensures (x + y + z)[|x|..|x| + |y|] == y
  {}

  /** Every state that can be stored loads again as itself. */
  lemma RoundTrip(s: ManifestState)
    requires Encode(s).Success?
    ensures Decode(Encode(s).value) == Success(s)
  {
    hide At, LE, Checksum, Header, ParseHeader, Sealed, EncNames, ParseNames, ValidSegmentFilename, DistinctNames;
    var payload := EncNames(s.segmentFiles);
    var head := Header(s, |payload|);
    HeaderFields(s, |payload|);
    SealIsSealed(head + payload);
    SmallNames(s.segmentFiles);
    AtWhole(payload);
    ParseNamesEnc(payload, 0, s.segmentFiles);
    Slices(head, payload, LE(Checksum(head + payload), CHECKSUM_SIZE));
  }

  /** Every accepted byte string is exactly the encoding of the state it decodes to. */
  lemma Canonical(b: Bytes)
    requires Decode(b).Success?
    ensures Encode(Decode(b).value) == Success(b)
    ensures DistinctNames(Decode(b).value.segmentFiles)
  {
    hide At, Header, ParseHeader, Sealed, Seal, EncNames, ParseNames, ValidSegmentFilename, DistinctNames;
    var head := b[..MANIFEST_HEADER_SIZE];
    var h := ParseHeader(head);
    var payload := b[MANIFEST_HEADER_SIZE..MANIFEST_HEADER_SIZE + h.payloadSize];
    var names := ParseNames(payload, 0, h.segmentCount).value.value;
    ParseNamesCanonical(payload, 0, h.segmentCount);
    AtEverything(payload, EncNames(names));
    HeaderCanonical(head, names);
    SealedIsSeal(b);
    assert b[..|b| - CHECKSUM_SIZE] == head + payload;
  }

  // ----- loading -----

  /** A missing manifest is the empty database. */
  ghost function Load(file: Option<Bytes>): Result<ManifestState, ManifestFormatError> {
    match file
    case None => Success(ManifestState(0, 0, []))
    case Some(b) =>
      if |b| > MAX_MANIFEST_PAYLOAD_SIZE + MANIFEST_HEADER_SIZE + CHECKSUM_SIZE then Failure(TooLarge) else Decode(b)
  }

  /** The segments that the manifest file names. */
  ghost function LiveFiles(file: Option<Bytes>): seq<Name> {
    if Load(file).Success? then Load(file).value.segmentFiles else []
  }

  lemma StoredLoads(s: ManifestState)
    requires Encode(s).Success?
    ensures Load(Some(Encode(s).value)) == Success(s)
  {
    hide Decode, LE, Checksum, EncNames, ValidNames;
    RoundTrip(s);
    HeaderFields(s, |EncNames(s.segmentFiles)|);
  }

  // ----- the encoder and decoder -----

  method ValidateState(names: seq<Name>) returns (problem: Option<ManifestEncodeError>)
    ensures problem == if |names| > MAX_MANIFEST_SEGMENTS then Some(TooManySegments)
                       else if !ValidNames(names) then Some(InvalidSegmentFilename) else None
  {
    hide ValidSegmentFilename;
    if |names| > MAX_MANIFEST_SEGMENTS {
      return Some(TooManySegments);
    }
    var uniqueNames: set<Name> := {};
    for i := 0 to |names|
      invariant forall n :: n in uniqueNames <==> n in names[..i]
      invariant forall j :: 0 <= j < i ==> ValidSegmentFilename(names[j])
      invariant DistinctNames(names[..i])
    {
      if !ValidSegmentFilename(names[i]) {
        return Some(InvalidSegmentFilename);
      }
      if names[i] in uniqueNames {
        Repeated(names, i);
        return Some(InvalidSegmentFilename);
      }
      uniqueNames := uniqueNames + {names[i]};
      assert names[..i + 1] == names[..i] + [names[i]];
    }
    assert names[..|names|] == names;
    problem := None;
  }

  lemma Repeated(names: seq<Name>, i: nat)
    requires i < |names| && names[i] in names[..i]
    ensures !DistinctNames(names)
  {
    var j :| 0 <= j < i && names[..i][j] == names[i];
  }

  method WriteManifest(s: ManifestState, payload: Bytes) returns (bytes: Bytes)
    requires |payload| <= U32_MAX && |s.segmentFiles| <= U32_MAX
    requires s.generation <= U64_MAX && s.logicalSampleCount <= U64_MAX
    ensures bytes == Seal(Header(s, |payload|) + payload)
  {
    hide LE, Checksum;
    var writer := new ByteWriter();
    writer.WriteU32(MANIFEST_MAGIC);
    writer.WriteU16(MANIFEST_VERSION);
    writer.WriteU16(MANIFEST_FLAGS);
    writer.WriteU64(s.generation);
    writer.WriteU64(s.logicalSampleCount);
    writer.WriteU32(|s.segmentFiles|);
    writer.WriteU32(|payload|);
    writer.WriteU32(Inverted(|payload|));
    assert writer.data == Header(s, |payload|);
    writer.WriteBytes(payload);
    var checksum := Compute(writer.data);
    writer.WriteU32(checksum);
    bytes := writer.data;
  }

  method EncodeManifest(s: ManifestState) returns (encoded: Result<Bytes, ManifestEncodeError>)
    ensures encoded == Encode(s)
  {
    hide Header, Seal, EncString, ValidNames;
    var problem := ValidateState(s.segmentFiles);
    if problem.Some? {
      return Failure(problem.value);
    }
    var payload := EncodeNames(s.segmentFiles);
    if payload.None? || |payload.value| > MAX_MANIFEST_PAYLOAD_SIZE {
      if payload.None? {
        SmallNames(s.segmentFiles);
      }
      return Failure(PayloadTooLarge);
    }
    if s.generation > U64_MAX || s.logicalSampleCount > U64_MAX {
      return Failure(NumberTooLarge);
    }
    var bytes := WriteManifest(s, payload.value);
    encoded := Success(bytes);
  }

  method EncodeNames(names: seq<Name>) returns (payload: Option<Bytes>)
    ensures payload.Some? <==> forall i :: 0 <= i < |names| ==> |names[i]| <= U32_MAX
    ensures payload.Some? ==> payload.value == EncNames(names)
  {
    hide EncString;
    var writer := new ByteWriter();
    for i := 0 to |names|
      invariant forall j :: 0 <= j < i ==> |names[j]| <= U32_MAX
      invariant writer.data + EncNames(names[i..]) == EncNames(names)
    {
      assert names[i..] == [names[i]] + names[i + 1..];
      ghost var before := writer.data;
      var ok := WriteString(writer, names[i]);
      if !ok {
        return None;
      }
      assert before + (EncString(names[i]) + EncNames(names[i + 1..])) == writer.data + EncNames(names[i + 1..]);
    }
    assert names[|names|..] == [] && writer.data + [] == writer.data;
    payload := Some(writer.data);
  }

  method ReadNames(reader: ByteReader, count: nat) returns (r: Option<seq<Name>>)
    requires reader.Valid()
    modifies reader
    ensures reader.Valid()
    ensures match ParseNames(reader.data, old(reader.position), count)
            case None => r.None?
            case Some(p) => r == Some(p.value) && reader.position == p.next
  {
    hide ParseString;
    var names: seq<Name> := [];
    ghost var all := ParseNames(reader.data, reader.position, count);
    if all.Some? {
      assert [] + all.value.value == all.value.value;
    }
    for index := 0 to count
      invariant reader.Valid()
      invariant match ParseNames(reader.data, reader.position, count - index)
                case None => all.None?
                case Some(p) => all == Some(Parsed(names + p.value, p.next))
    {
      ghost var rest := ParseNames(reader.data, reader.position, count - index);
      var n := ReadString(reader);
      if n.None? {
        return None;
      }
      if rest.Some? {
        Regroup(names, n.value, rest.value.value[1..]);
      }
      names := names + [n.value];
    }
    assert names + [] == names;
    r := Some(names);
  }

  method ReadHeader(b: Bytes) returns (h: ManifestHeader)
    requires |b| >= MANIFEST_HEADER_SIZE
    ensures h == ParseHeader(b[..MANIFEST_HEADER_SIZE])
  {
    hide FromLE;
    HeaderAt(b);
    var reader := new ByteReader(b);
    var magic := reader.ReadU32();
    var version := reader.ReadU16();
    var flags := reader.ReadU16();
    var generation := reader.ReadU64();
    var count := reader.ReadU64();
    var segmentCount := reader.ReadU32();
    var payloadSize := reader.ReadU32();
    var invertedSize := reader.ReadU32();
    h := ManifestHeader(magic.value, version.value, flags.value, generation.value, count.value, segmentCount.value,
                        payloadSize.value, invertedSize.value);
  }

  method ReadState(payload: Bytes, h: ManifestHeader) returns (r: Result<ManifestState, ManifestFormatError>)
    ensures r == DecodeState(payload, h)
  {
    hide ParseNames, ValidNames;
    var reader := new ByteReader(payload);
    var names := ReadNames(reader, h.segmentCount);
    if names.None? {
      return Failure(IncompleteFilename);
    }
    if reader.Remaining() != 0 {
      return Failure(TrailingBytes);
    }
    var problem := ValidateState(names.value);
    if problem.Some? {
      assert !ValidNames(names.value) by {
        TooManyInvalid(names.value);
      }
      return Failure(InvalidState);
    }
    r := Success(ManifestState(h.generation, h.count, names.value));
  }

  method DecodeManifest(b: Bytes) returns (r: Result<ManifestState, ManifestFormatError>)
    ensures r == Decode(b)
  {
    hide ParseHeader, DecodeState, Sealed, Inverted;
    if |b| < MANIFEST_HEADER_SIZE + CHECKSUM_SIZE {
      return Failure(Incomplete);
    }
    var h := ReadHeader(b);
    if h.magic != MANIFEST_MAGIC {
      return Failure(InvalidMagic);
    }
    if h.version != MANIFEST_VERSION || h.flags != MANIFEST_FLAGS {
      return Failure(Unsupported);
    }
    if h.segmentCount > MAX_MANIFEST_SEGMENTS || h.payloadSize > MAX_MANIFEST_PAYLOAD_SIZE
       || h.invertedSize != Inverted(h.payloadSize) {
      return Failure(InvalidMetadata);
    }
    if |b| != MANIFEST_HEADER_SIZE + h.payloadSize + CHECKSUM_SIZE {
      return Failure(InconsistentSize);
    }
    var intact := CheckSeal(b);
    if !intact {
      return Failure(ChecksumMismatch);
    }
    r := ReadState(b[MANIFEST_HEADER_SIZE..MANIFEST_HEADER_SIZE + h.payloadSize], h);
  }

  method LoadManifest(file: Option<Bytes>) returns (r: Result<ManifestState, ManifestFormatError>)
    ensures r == Load(file)
  {
    if file.None? {
      return Success(ManifestState(0, 0, []));
    }
    if |file.value| > MAX_MANIFEST_PAYLOAD_SIZE + MANIFEST_HEADER_SIZE + CHECKSUM_SIZE {
      return Failure(TooLarge);
    }
    r := DecodeManifest(file.value);
  }

  lemma TooManyInvalid(names: seq<Name>)
    ensures |names| > MAX_MANIFEST_SEGMENTS ==> !ValidNames(names)
  {}

  lemma HeaderAt(b: Bytes)
    requires |b| >= MANIFEST_HEADER_SIZE
    ensures ParseHeader(b[..MANIFEST_HEADER_SIZE])
         == ManifestHeader(FromLE(b[0..4]), FromLE(b[4..6]), FromLE(b[6..8]), FromLE(b[8..16]), FromLE(b[16..24]),
                           FromLE(b[24..28]), FromLE(b[28..32]), FromLE(b[32..36]))
  {
    hide FromLE;
    var h := b[..MANIFEST_HEADER_SIZE];
    assert h[0..4] == b[0..4] && h[4..6] == b[4..6] && h[6..8] == b[6..8] && h[8..16] == b[8..16];
    assert h[16..24] == b[16..24] && h[24..28] == b[24..28] && h[28..32] == b[28..32] && h[32..36] == b[32..36];
  }
}
