/**
  Byte strings that end in the CRC32C of everything before: the outer shape of WAL records, segment blocks, segment
  headers, footers and indexes, and the manifest.
 */
module Sealing {
  import opened Prelude
  import opened Words
  import opened ByteCodec
  import opened Crc32c

  const CHECKSUM_SIZE: nat := 4

  function Seal(message: Bytes): Bytes {
    message + LE(Checksum(message), CHECKSUM_SIZE)
  }

  predicate Sealed(b: Bytes) {
    |b| >= CHECKSUM_SIZE &&
    FromLE(b[|b| - CHECKSUM_SIZE..]) == Checksum(b[..|b| - CHECKSUM_SIZE])
  }

  lemma SealIsSealed(message: Bytes)
    ensures Sealed(Seal(message))
    ensures Seal(message)[..|Seal(message)| - CHECKSUM_SIZE] == message
  {
    hide Checksum, LE;
    var n := Checksum(message);
    LEFits(n);
    var b := Seal(message);
    assert b[..|message|] == message && b[|message|..] == LE(n, 4);
  }

  lemma SealedIsSeal(b: Bytes)
    requires Sealed(b)
    ensures b == Seal(b[..|b| - CHECKSUM_SIZE])
  {
    hide Checksum;
    LECanonical(b[|b| - CHECKSUM_SIZE..]);
  }

  /** Reads the stored checksum and compares it with the one of the bytes before it. */
  method CheckSeal(b: Bytes) returns (intact: bool)
    requires |b| >= CHECKSUM_SIZE
    ensures intact <==> Sealed(b)
  {
    hide Checksum, FromLE;
    var n := |b| - CHECKSUM_SIZE;
    var reader := new ByteReader(b[n..]);
    var stored := reader.ReadU32();
    assert b[n..][0..4] == b[n..];
    var calculated := Compute(b[..n]);
    intact := stored.value == calculated;
  }

  // ----- the stored checksum, as register bits -----

  lemma Double(a: nat, b: nat)
    ensures 2 * (a * b) == (2 * a) * b
  {}

  lemma {:induction false} ValueOfBitsThen(n: nat, k: nat, rest: seq<bool>)
    requires n < Pow2(k)
    ensures ValueOf(BitsOf(n, k) + rest) == n + Pow2(k) * ValueOf(rest)
  {
    var bits := BitsOf(n, k);
    if k == 0 {
      assert bits + rest == rest;
    } else {
      assert (bits + rest)[1..] == BitsOf(n / 2, k - 1) + rest;
      ValueOfBitsThen(n / 2, k - 1, rest);
      Double(Pow2(k - 1), ValueOf(rest));
    }
  }

  lemma {:induction false} ValueOfByteBits(b: Bytes)
    ensures ValueOf(BitsOfBytes(b)) == FromLE(b)
  {
    if b != [] {
      Pow2Values();
      ValueOfByteBits(b[1..]);
      ValueOfBitsThen(b[0], 8, BitsOfBytes(b[1..]));
    }
  }

  lemma FromLEInjective(c: Bytes, d: Bytes)
    requires |c| == |d| && FromLE(c) == FromLE(d)
    ensures c == d
  {
    LECanonical(c);
    LECanonical(d);
  }

  lemma ChecksumBits(p: Word, m: Bytes, c: Bytes)
    requires |c| == 4
    ensures FromLE(c) == ChecksumBy(p, m) <==> BitsOfBytes(c) == Xor(Absorb(p, AllOnes(), m), AllOnes())
  {
    hide Xor, Absorb;
    var w := Xor(Absorb(p, AllOnes(), m), AllOnes());
    ValueOfByteBits(c);
    BitsOfValue(BitsOfBytes(c));
    BitsOfValue(w);
  }

  /** What the register holds after any sealed byte string, its checksum included. */
  function Residue(p: Word): Word {
    Steps(p, AllOnes(), WIDTH)
  }

  /** Only its complement takes a register to the residue. */
  lemma ComplementToResidue(p: Word, s: Word, t: Word)
    requires p[31]
    ensures FeedBits(p, s, t) == Residue(p) <==> t == Xor(s, AllOnes())
  {
    hide FeedBits, Steps, Xor;
    assert t + Zeros(0) == t;
    BitsAreOneWord(p, s, t, WIDTH);
    if FeedBits(p, s, t) == Residue(p) {
      StepsInjective(p, Xor(s, t), AllOnes(), WIDTH);
    }
    ComplementIs(s, t);
  }

  lemma ComplementIs(s: Word, t: Word)
    ensures Xor(s, t) == AllOnes() <==> t == Xor(s, AllOnes())
  {
    if Xor(s, t) == AllOnes() {
      forall i | 0 <= i < WIDTH
        ensures t[i] == Xor(s, AllOnes())[i]
      {
        assert Xor(s, t)[i];
      }
    }
  }

  /** Sealed byte strings are those that lead to the residue. */
  lemma SealedIffResidue(b: Bytes)
    requires |b| >= CHECKSUM_SIZE
    ensures var p := ToWord(REFLECTED_POLYNOMIAL);
            Sealed(b) <==> FeedBits(p, AllOnes(), BitsOfBytes(b)) == Residue(p)
  {
    hide FeedBits, Absorb, BitsOfBytes, Residue, Xor, FromLE, ToWord;
    var p, n := ToWord(REFLECTED_POLYNOMIAL), |b| - CHECKSUM_SIZE;
    var m, c := b[..n], b[n..];
    assert b == m + c;
    BitsOfBytesConcat(m, c);
    FeedBitsConcat(p, AllOnes(), BitsOfBytes(m), BitsOfBytes(c));
    AbsorbIsFeeding(p, AllOnes(), m);
    PolynomialTopBit();
    ComplementToResidue(p, Absorb(p, AllOnes(), m), BitsOfBytes(c));
    ChecksumBits(p, m, c);
  }

  // ----- the burst theorem for sealed byte strings -----

  /** The bytes agree but for 32 consecutive bits, least significant bit of each byte first. */
  ghost predicate AgreeOutside(x: Bytes, y: Bytes, start: nat) {
    BurstAt(BitsOfBytes(x), BitsOfBytes(y), start)
  }

  /**
    Changing any of 32 consecutive bits of a sealed byte string, the stored checksum included, always breaks the seal.
   */
  lemma BurstBreaksSeal(x: Bytes, y: Bytes, start: nat)
    requires Sealed(x) && x != y && AgreeOutside(x, y, start)
    ensures !Sealed(y)
  {
    hide Sealed, FeedBits, BitsOfBytes, Residue, ToWord;
    var p := ToWord(REFLECTED_POLYNOMIAL);
    assert |BitsOfBytes(x)| == 8 * |x| && |BitsOfBytes(y)| == 8 * |y|;
    SealedLong(x);
    SealedIffResidue(x);
    SealedIffResidue(y);
    if Sealed(y) {
      PolynomialTopBit();
      BurstChangesRegister(p, AllOnes(), BitsOfBytes(x), BitsOfBytes(y), start);
      BitsOfBytesInjective(x, y);
    }
  }

  lemma SealedLong(b: Bytes)
    requires Sealed(b)
    ensures |b| >= CHECKSUM_SIZE
  {}
}
