/**
  The bitwise reflected CRC32C loop, and what it detects.

  Feeding one byte is eight applications of the one-bit step, and the same as feeding its bits one by one. The step is
  injective and distributes over exclusive-or, and from these two facts follows the burst theorem `BurstDetected`:
  changing any bits among 32 consecutive ones always changes the checksum. Everything but the last few members holds
  for any polynomial `p` whose top bit is set.
 */
module Crc32c {
  import opened Prelude
  import opened Words

  const REFLECTED_POLYNOMIAL: u32 := 0x82F6_3B78
  const BITS_PER_BYTE: nat := 8

  /** One turn of the inner loop. */
  function Step(p: Word, s: Word): Word {
    if s[0] then Xor(ShiftRight(s), p) else ShiftRight(s)
  }

  function Steps(p: Word, s: Word, n: nat): Word
    decreases n
  {
    if n == 0 then s else Steps(p, Step(p, s), n - 1)
  }

  function Feed(p: Word, s: Word, b: u8): Word {
    Steps(p, Xor(s, ToWord(b)), BITS_PER_BYTE)
  }

  function Absorb(p: Word, s: Word, bytes: Bytes): Word
    decreases |bytes|
  {
    if bytes == [] then s else Absorb(p, Feed(p, s, bytes[0]), bytes[1..])
  }

  function ChecksumBy(p: Word, bytes: Bytes): u32 {
    FromWord(Xor(Absorb(p, AllOnes(), bytes), AllOnes()))
  }

  function Checksum(bytes: Bytes): u32 {
    ChecksumBy(ToWord(REFLECTED_POLYNOMIAL), bytes)
  }

  method Compute(bytes: Bytes) returns (r: u32)
    ensures r == Checksum(bytes)
  {
    r := ComputeBy(ToWord(REFLECTED_POLYNOMIAL), bytes);
  }

  method ComputeBy(p: Word, bytes: Bytes) returns (r: u32)
    ensures r == ChecksumBy(p, bytes)
  {
    var checksum := AllOnes();
    ghost var target := Absorb(p, checksum, bytes);
    for i := 0 to |bytes|
      invariant Absorb(p, checksum, bytes[i..]) == target
    {
      assert bytes[i..][1..] == bytes[i + 1..];
      checksum := FeedByte(p, checksum, bytes[i]);
    }
    r := FromWord(Xor(checksum, AllOnes()));
  }

  /** The inner loop. */
  method FeedByte(p: Word, s: Word, b: u8) returns (checksum: Word)
    ensures checksum == Feed(p, s, b)
  {
    hide ToWord, Xor;
    checksum := Xor(s, ToWord(b));
    ghost var fed := checksum;
    for bit := 0 to BITS_PER_BYTE
      invariant Steps(p, checksum, BITS_PER_BYTE - bit) == Steps(p, fed, BITS_PER_BYTE)
    {
      var lowestBitIsSet := checksum[0];
      checksum := ShiftRight(checksum);
      if lowestBitIsSet {
        checksum := Xor(checksum, p);
      }
    }
  }

  // ----- the step is linear and invertible -----

  lemma XorLaws(a: Word, b: Word, c: Word)
    ensures Xor(Xor(a, b), c) == Xor(a, Xor(b, c))
    ensures Xor(a, c) == Xor(b, c) ==> a == b
    ensures Xor(c, a) == Xor(c, b) ==> a == b
  {
    if Xor(a, c) == Xor(b, c) {
      forall i | 0 <= i < WIDTH
        ensures a[i] == b[i]
      {
        assert Xor(a, c)[i] == Xor(b, c)[i];
      }
    }
    if Xor(c, a) == Xor(c, b) {
      forall i | 0 <= i < WIDTH
        ensures a[i] == b[i]
      {
        assert Xor(c, a)[i] == Xor(c, b)[i];
      }
    }
  }

  lemma StepLinear(p: Word, a: Word, b: Word)
    ensures Step(p, Xor(a, b)) == Xor(Step(p, a), Step(p, b))
  {}

  /** A polynomial whose top bit is set records in that bit whether it was applied. */
  lemma StepInjective(p: Word, a: Word, b: Word)
    requires p[31]
    requires Step(p, a) == Step(p, b)
    ensures a == b
  {
    assert Step(p, a)[31] == a[0] && Step(p, b)[31] == b[0];
    forall i | 0 <= i < WIDTH
      ensures a[i] == b[i]
    {
      if i > 0 {
        assert Step(p, a)[i - 1] == (a[i] != (a[0] && p[i - 1]));
        assert Step(p, b)[i - 1] == (b[i] != (b[0] && p[i - 1]));
      }
    }
  }

  lemma {:induction false} StepsInjective(p: Word, a: Word, b: Word, n: nat)
    requires p[31]
    requires Steps(p, a, n) == Steps(p, b, n)
    ensures a == b
    decreases n
  {
    if n > 0 {
      StepsInjective(p, Step(p, a), Step(p, b), n - 1);
      StepInjective(p, a, b);
    }
  }

  // ----- bits -----

  function BitsOfBytes(window: Bytes): (bits: seq<bool>)
    ensures |bits| == 8 * |window|
  {
    if window == [] then [] else BitsOf(window[0], 8) + BitsOfBytes(window[1..])
  }

  lemma {:induction false} BitsPadded(n: nat, k: nat, m: nat)
    requires n < Pow2(k) && k <= m
    ensures BitsOf(n, m) == BitsOf(n, k) + Zeros(m - k)
  {
    if k == 0 {
      if m > 0 {
        BitsPadded(0, 0, m - 1);
      }
    } else {
      BitsPadded(n / 2, k - 1, m - 1);
    }
  }

  lemma ByteBits(b: u8)
    ensures ToWord(b) == BitsOf(b, 8) + Zeros(WIDTH - 8)
  {
    Pow2Values();
    BitsPadded(b, 8, WIDTH);
  }

  /** A message bit enters at the leading end of the register, which then takes one step. */
  function FeedBit(p: Word, s: Word, b: bool): Word {
    Step(p, s[0 := s[0] != b])
  }

  function FeedBits(p: Word, s: Word, bits: seq<bool>): Word
    decreases |bits|
  {
    if bits == [] then s else FeedBits(p, FeedBit(p, s, bits[0]), bits[1..])
  }

  lemma StepOfEven(p: Word, s: Word)
    requires !s[0]
    ensures Step(p, s) == ShiftRight(s)
  {}

  /** Up to 32 bits entering a register are as many steps from the register xor-ed with them. */
  lemma {:induction false} BitsAreOneWord(p: Word, s: Word, t: seq<bool>, k: nat)
    requires k == |t| <= WIDTH
    ensures Steps(p, Xor(s, t + Zeros(WIDTH - k)), k) == FeedBits(p, s, t)
    decreases k
  {
    hide Step;
    if k > 0 {
      var first, rest: seq<bool> := s[0 := s[0] != t[0]], t[1..];
      var fed := Xor(s, t + Zeros(WIDTH - k));
      var below: Word := [false] + rest + Zeros(WIDTH - k);
      assert fed == Xor(first, below);
      StepLinear(p, first, below);
      StepOfEven(p, below);
      assert ShiftRight(below) == rest + Zeros(WIDTH - (k - 1));
      BitsAreOneWord(p, Step(p, first), rest, k - 1);
    } else {
      assert Xor(s, t + Zeros(WIDTH)) == s;
    }
  }

  lemma {:induction false} FeedBitsConcat(p: Word, s: Word, a: seq<bool>, b: seq<bool>)
    ensures FeedBits(p, s, a + b) == FeedBits(p, FeedBits(p, s, a), b)
    decreases |a|
  {
    hide FeedBit;
    if a == [] {
      assert a + b == b;
    } else {
      assert (a + b)[1..] == a[1..] + b;
      FeedBitsConcat(p, FeedBit(p, s, a[0]), a[1..], b);
    }
  }

  /** Bytes enter with their least significant bit first. */
  lemma {:induction false} AbsorbIsFeeding(p: Word, s: Word, bytes: Bytes)
    ensures Absorb(p, s, bytes) == FeedBits(p, s, BitsOfBytes(bytes))
    decreases |bytes|
  {
    hide FeedBits, BitsOf, Steps, ToWord;
    if bytes == [] {
      NoBits(p, s);
    } else {
      var first := BitsOf(bytes[0], 8);
      ByteBits(bytes[0]);
      BitsAreOneWord(p, s, first, 8);
      FeedBitsConcat(p, s, first, BitsOfBytes(bytes[1..]));
      AbsorbIsFeeding(p, Feed(p, s, bytes[0]), bytes[1..]);
    }
  }

  lemma NoBits(p: Word, s: Word)
    ensures FeedBits(p, s, []) == s
  {}

  lemma {:induction false} BitsOfBytesInjective(v: Bytes, w: Bytes)
    requires |v| == |w| && BitsOfBytes(v) == BitsOfBytes(w)
    ensures v == w
  {
    if v != [] {
      assert BitsOf(v[0], 8) == BitsOfBytes(v)[..8] && BitsOf(w[0], 8) == BitsOfBytes(w)[..8];
      assert BitsOfBytes(v[1..]) == BitsOfBytes(v)[8..] && BitsOfBytes(w[1..]) == BitsOfBytes(w)[8..];
      BitsOfBytesInjective(v[1..], w[1..]);
      Pow2Values();
      ValueOfBits(v[0], 8);
      ValueOfBits(w[0], 8);
    }
  }

  lemma {:induction false} BitsOfBytesConcat(x: Bytes, y: Bytes)
    ensures BitsOfBytes(x + y) == BitsOfBytes(x) + BitsOfBytes(y)
  {
    if x == [] {
      assert x + y == y;
    } else {
      assert (x + y)[1..] == x[1..] + y;
      BitsOfBytesConcat(x[1..], y);
    }
  }

  // ----- bursts -----

  /** Different registers stay different under the same bits. */
  lemma {:induction false} FeedBitsInjective(p: Word, s: Word, t: Word, bits: seq<bool>)
    requires p[31]
    requires FeedBits(p, s, bits) == FeedBits(p, t, bits)
    ensures s == t
    decreases |bits|
  {
    hide Step;
    if bits != [] {
      var b := bits[0];
      var u: Word, v: Word := s[0 := s[0] != b], t[0 := t[0] != b];
      FeedBitsInjective(p, FeedBit(p, s, b), FeedBit(p, t, b), bits[1..]);
      StepInjective(p, u, v);
      SameBesides(s, t, b);
    }
  }

  lemma SameBesides(s: Word, t: Word, b: bool)
    requires s[0 := s[0] != b] == t[0 := t[0] != b]
    ensures s == t
  {
    var u, v := s[0 := s[0] != b], t[0 := t[0] != b];
    forall i | 0 <= i < WIDTH
      ensures s[i] == t[i]
    {
      assert u[i] == v[i];
    }
  }

  /** From one register, different words lead to different registers. */
  lemma WordInjective(p: Word, s: Word, a: seq<bool>, b: seq<bool>)
    requires p[31] && |a| == |b| <= WIDTH && FeedBits(p, s, a) == FeedBits(p, s, b)
    ensures a == b
  {
    hide FeedBits, Xor;
    var n := |a|;
    var x: Word, y: Word := a + Zeros(WIDTH - n), b + Zeros(WIDTH - n);
    BitsAreOneWord(p, s, a, n);
    BitsAreOneWord(p, s, b, n);
    StepsInjective(p, Xor(s, x), Xor(s, y), n);
    XorLaws(x, y, s);
    assert a == x[..n] && b == y[..n];
  }

  /** The bits agree but for 32 consecutive ones. */
  ghost predicate BurstAt(x: seq<bool>, y: seq<bool>, start: nat) {
    |x| == |y| && forall i :: 0 <= i < |x| && !(start <= i < start + WIDTH) ==> x[i] == y[i]
  }

  /** A burst always changes the register. */
  lemma BurstChangesRegister(p: Word, s: Word, x: seq<bool>, y: seq<bool>, start: nat)
    requires p[31] && BurstAt(x, y, start) && FeedBits(p, s, x) == FeedBits(p, s, y)
    ensures x == y
  {
    hide FeedBits;
    var lo := if start < |x| then start else |x|;
    var hi := if start + WIDTH < |x| then start + WIDTH else |x|;
    var before, after := x[..lo], x[hi..];
    assert x == (before + x[lo..hi]) + after && y == (before + y[lo..hi]) + after;
    FeedBitsConcat(p, s, before + x[lo..hi], after);
    FeedBitsConcat(p, s, before + y[lo..hi], after);
    FeedBitsConcat(p, s, before, x[lo..hi]);
    FeedBitsConcat(p, s, before, y[lo..hi]);
    var r := FeedBits(p, s, before);
    FeedBitsInjective(p, FeedBits(p, r, x[lo..hi]), FeedBits(p, r, y[lo..hi]), after);
    WordInjective(p, r, x[lo..hi], y[lo..hi]);
  }

  // ----- the CRC32C polynomial -----

  lemma {:induction false} TopBit(n: nat, k: nat)
    requires k > 0 && Pow2(k - 1) <= n < Pow2(k)
    ensures BitsOf(n, k)[k - 1]
  {
    if k > 1 {
      TopBit(n / 2, k - 1);
    }
  }

  lemma PolynomialTopBit()
    ensures ToWord(REFLECTED_POLYNOMIAL)[31]
  {
    Pow2Values();
    TopBit(REFLECTED_POLYNOMIAL, WIDTH);
  }

  lemma ChecksumInjective(p: Word, x: Bytes, y: Bytes)
    requires ChecksumBy(p, x) == ChecksumBy(p, y)
    ensures Absorb(p, AllOnes(), x) == Absorb(p, AllOnes(), y)
  {
    hide Absorb;
    var a, b := Absorb(p, AllOnes(), x), Absorb(p, AllOnes(), y);
    WordValue(0, Xor(a, AllOnes()));
    WordValue(0, Xor(b, AllOnes()));
    XorLaws(a, b, AllOnes());
  }

  /**
    Two different messages of one length never share a checksum if their bits agree outside 32 consecutive ones, at
    whatever bit these begin.
   */
  lemma BurstDetected(x: Bytes, y: Bytes, start: nat)
    requires x != y && BurstAt(BitsOfBytes(x), BitsOfBytes(y), start)
    ensures Checksum(x) != Checksum(y)
  {
    hide Absorb, FeedBits, BitsOfBytes, ChecksumBy;
    var p := ToWord(REFLECTED_POLYNOMIAL);
    if Checksum(x) == Checksum(y) {
      PolynomialTopBit();
      ChecksumInjective(p, x, y);
      AbsorbIsFeeding(p, AllOnes(), x);
      AbsorbIsFeeding(p, AllOnes(), y);
      BurstChangesRegister(p, AllOnes(), BitsOfBytes(x), BitsOfBytes(y), start);
      BitsOfBytesInjective(x, y);
    }
  }
}
