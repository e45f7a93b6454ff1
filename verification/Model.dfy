/**
  The values the database stores: tags, series keys, timestamps and samples, with the order that C++'s defaulted
  three-way comparisons give them.

  Strings are byte sequences compared as unsigned bytes. A double is its 64-bit pattern.
 */
module Model {
  import opened Prelude
  import opened Orders

  // ----- strings and tags -----

  predicate ByteLess(a: u8, b: u8) { a < b }

  predicate StringLess(a: Bytes, b: Bytes) {
    LexLess(ByteLess, a, b)
  }

  datatype RawTag = Tag(key: Bytes, value: Bytes)

  /** Keys are non-empty; values may be empty. */
  type Tag = t: RawTag | t.key != [] witness Tag([0], [])

  predicate TagLess(a: Tag, b: Tag) {
    StringLess(a.key, b.key) || (a.key == b.key && StringLess(a.value, b.value))
  }

  lemma StringOrder()
    ensures StrictTotal(StringLess)
  {
    assert StrictTotal(ByteLess);
    forall a: Bytes
      ensures !StringLess(a, a)
    {
      LexIrreflexive(ByteLess, a);
    }
    forall a: Bytes, b: Bytes, c: Bytes | StringLess(a, b) && StringLess(b, c)
      ensures StringLess(a, c)
    {
      LexTransitive(ByteLess, a, b, c);
    }
    forall a: Bytes, b: Bytes
      ensures a == b || StringLess(a, b) || StringLess(b, a)
    {
      LexConnected(ByteLess, a, b);
    }
  }

  lemma TagOrder()
    ensures StrictTotal(TagLess)
  {
    StringOrder();
  }

  /** Strings compare byte by byte, as unsigned numbers. */
  lemma StringLessIff(a: Bytes, b: Bytes)
    ensures StringLess(a, b) <==> ComesBefore(a, b)
  {
    LexLessIff(ByteLess, a, b);
    if StringLess(a, b) {
      var k: nat :| FirstDifference(ByteLess, a, b, k);
      assert DiffersAt(a, b, k);
    }
    if ComesBefore(a, b) {
      var k: nat :| DiffersAt(a, b, k);
      assert FirstDifference(ByteLess, a, b, k);
    }
  }

  /** Tags compare by key, then by value. */
  ghost predicate TagBefore(a: Tag, b: Tag) {
    ComesBefore(a.key, b.key) || (a.key == b.key && ComesBefore(a.value, b.value))
  }

  lemma TagLessIff(a: Tag, b: Tag)
    ensures TagLess(a, b) <==> TagBefore(a, b)
  {
    hide StringLess, ComesBefore;
    StringLessIff(a.key, b.key);
    StringLessIff(a.value, b.value);
  }

  // ----- series keys -----

  datatype RawSeriesKey = SeriesKey(measurement: Bytes, tags: seq<Tag>)

  /** Tags strictly increase by key. */
  ghost predicate StrictTags(tags: seq<Tag>) {
    forall i, j :: 0 <= i < j < |tags| ==> StringLess(tags[i].key, tags[j].key)
  }

  ghost predicate CanonicalKey(k: RawSeriesKey) {
    k.measurement != [] && StrictTags(k.tags)
  }

  type SeriesKey = k: RawSeriesKey | CanonicalKey(k) witness SeriesKey([0], [])

  predicate KeyLess(a: SeriesKey, b: SeriesKey) {
    StringLess(a.measurement, b.measurement) ||
    (a.measurement == b.measurement && LexLess(TagLess, a.tags, b.tags))
  }

  /** Tag lists compare by their first differing tag; a proper prefix comes first. */
  ghost predicate TagsDifferAt(a: seq<Tag>, b: seq<Tag>, k: nat) {
    k <= |a| && k < |b| && a[..k] == b[..k] && (k < |a| ==> TagBefore(a[k], b[k]))
  }

  /** Series keys compare by measurement, then by tags. */
  ghost predicate KeyBefore(a: SeriesKey, b: SeriesKey) {
    || ComesBefore(a.measurement, b.measurement)
    || (a.measurement == b.measurement && exists k: nat :: TagsDifferAt(a.tags, b.tags, k))
  }

  lemma KeyLessIff(a: SeriesKey, b: SeriesKey)
    ensures KeyLess(a, b) <==> KeyBefore(a, b)
  {
    hide StringLess, ComesBefore, TagLess, TagBefore, LexLess;
    StringLessIff(a.measurement, b.measurement);
    LexLessIff(TagLess, a.tags, b.tags);
    if k: nat :| FirstDifference(TagLess, a.tags, b.tags, k) {
      DifferAtIff(a.tags, b.tags, k);
    }
    if k: nat :| TagsDifferAt(a.tags, b.tags, k) {
      DifferAtIff(a.tags, b.tags, k);
    }
  }

  lemma DifferAtIff(a: seq<Tag>, b: seq<Tag>, k: nat)
    ensures FirstDifference(TagLess, a, b, k) <==> TagsDifferAt(a, b, k)
  {
    hide TagLess, TagBefore;
    if k < |a| && k < |b| {
      TagLessIff(a[k], b[k]);
    }
  }

  lemma {:induction false} TagsLexOrder()
    ensures StrictTotal((a: seq<Tag>, b: seq<Tag>) => LexLess(TagLess, a, b))
  {
    TagOrder();
    forall a: seq<Tag>
      ensures !LexLess(TagLess, a, a)
    {
      LexIrreflexive(TagLess, a);
    }
    forall a: seq<Tag>, b: seq<Tag>, c: seq<Tag> | LexLess(TagLess, a, b) && LexLess(TagLess, b, c)
      ensures LexLess(TagLess, a, c)
    {
      LexTransitive(TagLess, a, b, c);
    }
    forall a: seq<Tag>, b: seq<Tag>
      ensures a == b || LexLess(TagLess, a, b) || LexLess(TagLess, b, a)
    {
      LexConnected(TagLess, a, b);
    }
  }

  /** Series keys are strictly totally ordered: every sorted index and map below relies on it. */
  lemma KeyOrder()
    ensures StrictTotal(KeyLess)
  {
    StringOrder();
    TagsLexOrder();
    var tagsLess := (a: seq<Tag>, b: seq<Tag>) => LexLess(TagLess, a, b);
    forall a: SeriesKey
      ensures !KeyLess(a, a)
    {
      assert !tagsLess(a.tags, a.tags);
    }
    forall a: SeriesKey, b: SeriesKey, c: SeriesKey | KeyLess(a, b) && KeyLess(b, c)
      ensures KeyLess(a, c)
    {
      assert tagsLess(a.tags, b.tags) && tagsLess(b.tags, c.tags) ==> tagsLess(a.tags, c.tags);
    }
    forall a: SeriesKey, b: SeriesKey
      ensures a == b || KeyLess(a, b) || KeyLess(b, a)
    {
      assert a.tags == b.tags || tagsLess(a.tags, b.tags) || tagsLess(b.tags, a.tags);
    }
  }

  // ----- the SeriesKey constructor -----

  datatype ModelError = EmptyMeasurement | EmptyTagKey | DuplicateTagKey | NonFiniteValue

  ghost predicate TagsAscend(tags: seq<Tag>) {
    forall i, j :: 0 <= i < j < |tags| ==> !TagLess(tags[j], tags[i])
  }

  function InsertTag(t: Tag, tags: seq<Tag>): seq<Tag> {
    if tags == [] || !TagLess(tags[0], t) then [t] + tags else [tags[0]] + InsertTag(t, tags[1..])
  }

  /** `std::sort` on tags. */
  function SortTags(tags: seq<Tag>): seq<Tag> {
    if tags == [] then [] else InsertTag(tags[0], SortTags(tags[1..]))
  }

  predicate HasDuplicateKey(tags: seq<Tag>) {
    exists i :: 0 < i < |tags| && tags[i - 1].key == tags[i].key
  }

  function KeyOf(measurement: Bytes, tags: seq<Tag>): Result<SeriesKey, ModelError> {
    var sorted := SortTags(tags);
    if measurement == [] then Failure(EmptyMeasurement)
    else if HasDuplicateKey(sorted) then Failure(DuplicateTagKey)
    else
      SortedTags(tags);
      DistinctKeysStrict(sorted);
      Success(SeriesKey(measurement, sorted))
  }

  method MakeSeriesKey(measurement: Bytes, tags: seq<Tag>) returns (r: Result<SeriesKey, ModelError>)
    ensures r == KeyOf(measurement, tags)
  {
    if measurement == [] {
      return Failure(EmptyMeasurement);
    }
    var sorted := SortTags(tags);
    var index := 1;
    while index < |sorted|
      invariant forall i :: 0 < i < index && i < |sorted| ==> sorted[i - 1].key != sorted[i].key
    {
      if sorted[index - 1].key == sorted[index].key {
        return Failure(DuplicateTagKey);
      }
      index := index + 1;
    }
    SortedTags(tags);
    DistinctKeysStrict(sorted);
    r := Success(SeriesKey(measurement, sorted));
  }

  lemma {:induction false} InsertMultiset(t: Tag, tags: seq<Tag>)
    ensures multiset(InsertTag(t, tags)) == multiset(tags) + multiset{t}
  {
    if tags != [] && TagLess(tags[0], t) {
      InsertMultiset(t, tags[1..]);
      assert tags == [tags[0]] + tags[1..];
    }
  }

  lemma {:induction false} InsertAscends(t: Tag, tags: seq<Tag>)
    requires TagsAscend(tags)
    ensures TagsAscend(InsertTag(t, tags))
    ensures forall x :: x in InsertTag(t, tags) ==> x == t || x in tags
  {
    TagOrder();
    hide TagLess;
    if tags != [] && TagLess(tags[0], t) {
      var rest := InsertTag(t, tags[1..]);
      InsertAscends(t, tags[1..]);
      forall i | 0 <= i < |rest|
        ensures !TagLess(rest[i], tags[0])
      {
        assert rest[i] in rest;
      }
    } else if tags != [] {
      assert forall i :: 0 <= i < |tags| ==> !TagLess(tags[i], t);
    }
  }

  lemma {:induction false} SortedTags(tags: seq<Tag>)
    ensures TagsAscend(SortTags(tags))
    ensures multiset(SortTags(tags)) == multiset(tags)
  {
    if tags != [] {
      SortedTags(tags[1..]);
      InsertAscends(tags[0], SortTags(tags[1..]));
      InsertMultiset(tags[0], SortTags(tags[1..]));
      assert tags == [tags[0]] + tags[1..];
    }
  }

  lemma DistinctKeysStrict(sorted: seq<Tag>)
    requires TagsAscend(sorted) && !HasDuplicateKey(sorted)
    ensures StrictTags(sorted)
  {
    StringOrder();
    var byKey := (a: Tag, b: Tag) => StringLess(a.key, b.key);
    forall i | 0 < i < |sorted|
      ensures StringLess(sorted[i - 1].key, sorted[i].key)
    {
      assert !TagLess(sorted[i], sorted[i - 1]);
    }
    StrictFromAdjacent(sorted);
  }

  /** The adjacent check of the decoders: every key strictly above its predecessor. */
  lemma {:induction false} StrictFromAdjacent(tags: seq<Tag>)
    requires forall i :: 0 < i < |tags| ==> StringLess(tags[i - 1].key, tags[i].key)
    ensures StrictTags(tags)
  {
    if tags != [] {
      StringOrder();
      var n := |tags| - 1;
      StrictFromAdjacent(tags[..n]);
      forall i | 0 <= i < n
        ensures StringLess(tags[i].key, tags[n].key)
      {
        assert StringLess(tags[n - 1].key, tags[n].key);
        assert i < n - 1 ==> StringLess(tags[..n][i].key, tags[..n][n - 1].key);
      }
    }
  }

  // ----- canonical identity -----

  ghost predicate KeysDistinct(tags: seq<Tag>) {
    forall i, j :: 0 <= i < j < |tags| ==> tags[i].key != tags[j].key
  }

  lemma {:induction false} InsertKeepsDistinct(t: Tag, tags: seq<Tag>)
    ensures KeysDistinct(InsertTag(t, tags)) <==> KeysDistinct([t] + tags)
    ensures forall x :: x in InsertTag(t, tags) <==> x == t || x in tags
  {
    if tags != [] && TagLess(tags[0], t) {
      var rest := InsertTag(t, tags[1..]);
      InsertKeepsDistinct(t, tags[1..]);
      assert tags == [tags[0]] + tags[1..];
      DistinctCons(tags[0], rest);
      DistinctCons(t, tags);
      DistinctCons(tags[0], tags[1..]);
      DistinctCons(t, tags[1..]);
    }
  }

  lemma DistinctCons(t: Tag, tags: seq<Tag>)
    ensures KeysDistinct([t] + tags) <==> KeysDistinct(tags) && forall x :: x in tags ==> x.key != t.key
  {
    var all := [t] + tags;
    if KeysDistinct(all) {
      forall i, j | 0 <= i < j < |tags|
        ensures tags[i].key != tags[j].key
      {
        assert all[i + 1].key != all[j + 1].key;
      }
      forall x | x in tags
        ensures x.key != t.key
      {
        var i :| 0 <= i < |tags| && tags[i] == x;
        assert all[0].key != all[i + 1].key;
      }
    }
  }

  lemma {:induction false} SortKeepsDistinct(tags: seq<Tag>)
    ensures KeysDistinct(SortTags(tags)) <==> KeysDistinct(tags)
    ensures forall x :: x in SortTags(tags) <==> x in tags
  {
    if tags != [] {
      var rest := SortTags(tags[1..]);
      SortKeepsDistinct(tags[1..]);
      InsertKeepsDistinct(tags[0], rest);
      assert tags == [tags[0]] + tags[1..];
      DistinctCons(tags[0], rest);
      DistinctCons(tags[0], tags[1..]);
    }
  }

  /** A key is built exactly when the measurement is non-empty and no two tags share a key. */
  lemma KeyAcceptedIff(measurement: Bytes, tags: seq<Tag>)
    ensures KeyOf(measurement, tags).Success? <==> measurement != [] && KeysDistinct(tags)
  {
    SortKeepsDistinct(tags);
    SortedTags(tags);
    StringOrder();
    var sorted := SortTags(tags);
    if !HasDuplicateKey(sorted) {
      DistinctKeysStrict(sorted);
      assert KeysDistinct(sorted);
    } else {
      assert !KeysDistinct(sorted);
    }
  }

  /** The measurement is checked first. */
  lemma KeyRefusals(measurement: Bytes, tags: seq<Tag>)
    ensures KeyOf(measurement, tags) == Failure(EmptyMeasurement) <==> measurement == []
    ensures KeyOf(measurement, tags) == Failure(DuplicateTagKey) <==> measurement != [] && !KeysDistinct(tags)
  {
    hide SortTags, KeysDistinct, HasDuplicateKey;
    KeyAcceptedIff(measurement, tags);
  }

  lemma {:induction false} AscendingUnique(a: seq<Tag>, b: seq<Tag>)
    requires TagsAscend(a) && TagsAscend(b) && multiset(a) == multiset(b)
    ensures a == b
  {
    assert |a| == |multiset(a)| == |multiset(b)| == |b|;
    if a != [] {
      TagOrder();
      assert a[0] in multiset(b) && b[0] in multiset(a);
      assert a[0] == b[0];
      assert a == [a[0]] + a[1..] && b == [b[0]] + b[1..];
      assert multiset(a[1..]) == multiset(a) - multiset{a[0]};
      assert multiset(b[1..]) == multiset(b) - multiset{b[0]};
      AscendingUnique(a[1..], b[1..]);
    }
  }

  /** Series identity does not depend on the order in which the tags were given. */
  lemma KeyIgnoresTagOrder(measurement: Bytes, a: seq<Tag>, b: seq<Tag>)
    requires multiset(a) == multiset(b)
    ensures KeyOf(measurement, a) == KeyOf(measurement, b)
  {
    SortedTags(a);
    SortedTags(b);
    AscendingUnique(SortTags(a), SortTags(b));
  }

  /** A canonical tag list is kept as it is, which the block and index decoders rely on. */
  lemma KeyOfCanonical(k: SeriesKey)
    ensures KeyOf(k.measurement, k.tags) == Success(k)
  {
    StringOrder();
    SortedTags(k.tags);
    assert TagsAscend(k.tags);
    AscendingUnique(SortTags(k.tags), k.tags);
    assert !HasDuplicateKey(k.tags);
  }

  lemma SeriesKeyStrict(k: SeriesKey)
    ensures StrictTags(k.tags) && k.measurement != []
  {}

  lemma KeyOfStrict(raw: RawSeriesKey)
    requires StrictTags(raw.tags) && KeyOf(raw.measurement, raw.tags).Success?
    ensures KeyOf(raw.measurement, raw.tags).value == raw
  {
    hide KeyOf;
    KeyAcceptedIff(raw.measurement, raw.tags);
    KeyOfCanonical(raw);
  }

  // ----- samples -----

  /** Finite means that the exponent field of the binary64 pattern is not all ones. */
  predicate Finite(bits: u64) {
    bits / 0x10_0000_0000_0000 % 0x800 != 0x7FF
  }

  type Value = bits: u64 | Finite(bits) witness 0

  datatype Sample = Sample(timestamp: i64, value: Value)

  /** `std::bit_cast` between signed and unsigned 64-bit integers. */
  function ToBits(t: i64): u64 {
    if t < 0 then t + 0x1_0000_0000_0000_0000 else t
  }

  function FromBits(b: u64): i64 {
    if b >= 0x8000_0000_0000_0000 then b - 0x1_0000_0000_0000_0000 else b
  }

  /** Reinterpreting the bits keeps the number modulo 2^64. */
  lemma BitCastIsModulo(t: i64, b: u64)
    ensures ToBits(t) == t % 0x1_0000_0000_0000_0000
    ensures (FromBits(b) - b) % 0x1_0000_0000_0000_0000 == 0
  {}

  /** The patterns that are not finite: any sign, exponent 2047, any mantissa. */
  lemma NotFiniteIff(bits: u64)
    ensures !Finite(bits) <==>
            exists sign, mantissa ::
              0 <= sign < 2 && 0 <= mantissa < 0x10_0000_0000_0000 && IsPattern(bits, sign, mantissa)
  {
    var sign, mantissa := bits / 0x8000_0000_0000_0000, bits % 0x10_0000_0000_0000;
    if !Finite(bits) {
      assert IsPattern(bits, sign, mantissa);
    }
  }

  /** Not a number, or infinite. */
  predicate IsPattern(bits: u64, sign: int, mantissa: int) {
    bits == sign * 0x8000_0000_0000_0000 + 2047 * 0x10_0000_0000_0000 + mantissa
  }

  lemma BitCastRoundTrip(t: i64, b: u64)
    ensures FromBits(ToBits(t)) == t
    ensures ToBits(FromBits(b)) == b
  {}
}
