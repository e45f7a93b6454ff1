/** Segment file names: which ones a manifest may hold, and the generation names the engine gives out. */
module SegmentNames {
  import opened Prelude

  type Name = Bytes

  const SLASH: u8 := 47
  const BACKSLASH: u8 := 92
  const ZERO: u8 := 48

  /** "segment-" */
  const PREFIX: Name := [115, 101, 103, 109, 101, 110, 116, 45]

  /** ".cst" */
  const EXTENSION: Name := [46, 99, 115, 116]

  /** ".tmp" */
  const TEMPORARY: Name := [46, 116, 109, 112]

  predicate EndsWith(name: Name, suffix: Name) {
    |suffix| <= |name| && name[|name| - |suffix|..] == suffix
  }

  /** A non-empty stem before the extension, so that `path::extension` reports it. */
  predicate HasExtension(name: Name, extension: Name) {
    |extension| < |name| && EndsWith(name, extension)
  }

  predicate StartsWithPrefix(name: Name) {
    PREFIX <= name
  }

  /** A leaf name with the extension of a segment. */
  predicate ValidSegmentFilename(name: Name) {
    HasExtension(name, EXTENSION) && SLASH !in name && BACKSLASH !in name
  }

  predicate LooksLikeSegment(name: Name) {
    StartsWithPrefix(name) && HasExtension(name, EXTENSION)
  }

  predicate LooksLikeTemporary(name: Name) {
    StartsWithPrefix(name) && HasExtension(name, TEMPORARY)
  }

  /** What the two kinds of names are, byte by byte: "segment-" in front, and ".cst" or ".tmp" at the end. */
  predicate SegmentByName(name: Name) {
    |name| >= 12 && name[..8] == [115, 101, 103, 109, 101, 110, 116, 45] && name[|name| - 4..] == [46, 99, 115, 116]
  }

  predicate TemporaryByName(name: Name) {
    |name| >= 12 && name[..8] == [115, 101, 103, 109, 101, 110, 116, 45] && name[|name| - 4..] == [46, 116, 109, 112]
  }

  lemma KindsByName(name: Name)
    ensures LooksLikeSegment(name) <==> SegmentByName(name)
    ensures LooksLikeTemporary(name) <==> TemporaryByName(name)
  {
    if 8 <= |name| < 12 {
      assert name[|name| - 4..][0] == name[|name| - 4];
      assert |name| == 8 || |name| == 9 || |name| == 10 || |name| == 11;
      assert 46 !in PREFIX;
      if |name| - 4 < 8 {
        assert name[..8][|name| - 4] == name[|name| - 4];
      }
    }
  }

  /** What a manifest may name: anything before ".cst", without a slash or a backslash. */
  lemma ValidNameIff(name: Name)
    ensures ValidSegmentFilename(name) <==>
            && |name| > 4 && name[|name| - 4..] == [46, 99, 115, 116]
            && forall i :: 0 <= i < |name| ==> name[i] != 47 && name[i] != 92
  {}

  /** The name `atomic_write_file` writes to first. */
  function TemporaryOf(name: Name): Name {
    name + TEMPORARY
  }

  /** The temporary of a generation's segment has ".tmp" appended, and is one that recovery removes. */
  lemma TemporaryIsStale(n: nat)
    ensures TemporaryOf(GenerationName(n)) == GenerationName(n) + [46, 116, 109, 112]
    ensures TemporaryByName(TemporaryOf(GenerationName(n)))
  {
    hide Digits;
    var name := TemporaryOf(GenerationName(n));
    assert name[..8] == PREFIX && name[|name| - 4..] == TEMPORARY;
  }

  // ----- generation names -----

  function Pow10(k: nat): nat {
    if k == 0 then 1 else 10 * Pow10(k - 1)
  }

  /** `k` decimal digits, zero-padded on the left. */
  function Digits(n: nat, k: nat): (d: Name)
    ensures |d| == k
    ensures forall i :: 0 <= i < k ==> ZERO <= d[i] < ZERO + 10
  {
    if k == 0 then [] else Digits(n / 10, k - 1) + [ZERO + n % 10]
  }

  const DIGIT_COUNT: nat := 20

  function GenerationName(generation: nat): Name {
    PREFIX + Digits(generation, DIGIT_COUNT) + EXTENSION
  }

  lemma {:induction false} DigitsInjective(m: nat, n: nat, k: nat)
    requires m < Pow10(k) && n < Pow10(k)
    requires Digits(m, k) == Digits(n, k)
    ensures m == n
  {
    if k > 0 {
      var a, b := Digits(m, k), Digits(n, k);
      assert a[..k - 1] == Digits(m / 10, k - 1) && b[..k - 1] == Digits(n / 10, k - 1);
      assert a[k - 1] == ZERO + m % 10 && b[k - 1] == ZERO + n % 10;
      DigitsInjective(m / 10, n / 10, k - 1);
    }
  }

  /** A decimal number, most significant digit first; '0' is byte 48. */
  function DecimalValue(digits: Name): int {
    if digits == [] then 0
    else
      var n := |digits| - 1;
      10 * DecimalValue(digits[..n]) - 48 + digits[n]
  }

  lemma {:induction false} DigitsValue(n: nat, k: nat)
    requires n < Pow10(k)
    ensures DecimalValue(Digits(n, k)) == n
  {
    if k > 0 {
      var d := Digits(n, k);
      DigitsValue(n / 10, k - 1);
      assert d[..k - 1] == Digits(n / 10, k - 1) && d[k - 1] == ZERO + n % 10;
    }
  }

  /** Padded to one length, decimal numbers compare as strings as they do as numbers. */
  lemma {:induction false} DigitsOrder(m: nat, n: nat, k: nat) returns (i: nat)
    requires m < n < Pow10(k)
    ensures i < k && DiffersAt(Digits(m, k), Digits(n, k), i)
  {
    var a, b := Digits(m, k), Digits(n, k);
    assert k > 0;
    var c, d := Digits(m / 10, k - 1), Digits(n / 10, k - 1);
    assert a == c + [ZERO + m % 10] && b == d + [ZERO + n % 10];
    if m / 10 == n / 10 {
      i := k - 1;
      assert a[..i] == c && b[..i] == d;
    } else {
      i := DigitsOrder(m / 10, n / 10, k - 1);
      assert a[..i] == c[..i] && b[..i] == d[..i];
    }
  }

  lemma TwentyDigitsHoldU64()
    ensures U64_MAX < Pow10(DIGIT_COUNT)
  {
    assert Pow10(4) == 10_000;
    assert Pow10(8) == 100_000_000;
    assert Pow10(12) == 1_000_000_000_000;
    assert Pow10(16) == 10_000_000_000_000_000;
    assert Pow10(20) == 100_000_000_000_000_000_000;
  }

  /** Every 64-bit generation has its own name. */
  lemma GenerationNameInjective(m: u64, n: u64)
    requires GenerationName(m) == GenerationName(n)
    ensures m == n
  {
    var a, b := GenerationName(m), GenerationName(n);
    TwentyDigitsHoldU64();
    assert Digits(m, DIGIT_COUNT) == a[8..28] && Digits(n, DIGIT_COUNT) == b[8..28];
    DigitsInjective(m, n, DIGIT_COUNT);
  }

  /** "segment-", the generation as 20 decimal digits with leading zeros, ".cst". */
  lemma GenerationNameReads(n: u64)
    ensures var name := GenerationName(n);
            && |name| == 32 && name[..8] == [115, 101, 103, 109, 101, 110, 116, 45] && name[28..] == [46, 99, 115, 116]
            && (forall i :: 8 <= i < 28 ==> 48 <= name[i] <= 57) && DecimalValue(name[8..28]) == n
  {
    hide DecimalValue, Digits;
    var name, d := GenerationName(n), Digits(n, DIGIT_COUNT);
    TwentyDigitsHoldU64();
    DigitsValue(n, DIGIT_COUNT);
    assert name[8..28] == d;
    forall i | 8 <= i < 28
      ensures 48 <= name[i] <= 57
    {
      assert name[i] == d[i - 8];
    }
  }

  /** Later generations have later names, so a directory listing shows segments oldest first. */
  lemma GenerationNamesAscend(m: u64, n: u64)
    requires m < n
    ensures ComesBefore(GenerationName(m), GenerationName(n))
  {
    TwentyDigitsHoldU64();
    var a, b := GenerationName(m), GenerationName(n);
    var i := DigitsOrder(m, n, DIGIT_COUNT);
    var c, d := Digits(m, DIGIT_COUNT), Digits(n, DIGIT_COUNT);
    hide Digits;
    assert a[..8 + i] == PREFIX + c[..i] && b[..8 + i] == PREFIX + d[..i];
    assert a[8 + i] == c[i] && b[8 + i] == d[i];
    assert DiffersAt(a, b, 8 + i);
  }

  lemma GenerationNameValid(n: nat)
    ensures ValidSegmentFilename(GenerationName(n))
    ensures LooksLikeSegment(GenerationName(n))
    ensures !LooksLikeTemporary(GenerationName(n))
    ensures |GenerationName(n)| == 32
  {
    var name, d := GenerationName(n), Digits(n, DIGIT_COUNT);
    assert name[28..] == EXTENSION;
    assert name[..8] == PREFIX;
    forall i | 0 <= i < |name|
      ensures name[i] != SLASH && name[i] != BACKSLASH
    {
      if 8 <= i < 28 {
        assert name[i] == d[i - 8];
      } else if i < 8 {
        assert name[i] == PREFIX[i];
      } else {
        assert name[i] == EXTENSION[i - 28];
      }
    }
    assert name[28..][1] == EXTENSION[1] != TEMPORARY[1];
  }
}
