/**
  The CRC register as a polynomial remainder.

  Polynomials over the integers modulo 2 are the sets of exponents whose coefficient is one. `ChecksumIsRemainder` is
  the definition of section 12.1 of RFC 3720: the checksum is the complement of the remainder that the message, its
  first 32 bits complemented and 32 zero bits appended, leaves when divided by the generator.
 */
module CrcRemainder {
  import opened Prelude
  import opened Words
  import opened Crc32c

  type Poly = set<nat>

  function Add(a: Poly, b: Poly): Poly {
    (a - b) + (b - a)
  }

  function TimesX(a: Poly): Poly {
    set e | e in a :: e + 1
  }

  /** The first bit has the highest exponent. In a reflected register that is the least significant one. */
  function PolyOf(bits: seq<bool>): Poly {
    set i | 0 <= i < |bits| && bits[i] :: |bits| - 1 - i
  }

  function One(bit: bool, exponent: nat): Poly {
    if bit then {exponent} else {}
  }

  /** The generator of which the register holds all but the leading coefficient. */
  function Generator(p: Word): Poly {
    PolyOf(p) + {WIDTH}
  }

  /** Multiplication by the generator, the factor given by its coefficients from the highest on. */
  function Product(q: seq<bool>, g: Poly): Poly {
    if q == [] then {}
    else
      var n := |q| - 1;
      Add(TimesX(Product(q[..n], g)), if q[n] then g else {})
  }

  // ----- laws -----

  lemma AddLaws(a: Poly, b: Poly, c: Poly)
    ensures Add(a, b) == Add(b, a)
    ensures Add(Add(a, b), c) == Add(a, Add(b, c))
    ensures Add(a, {}) == a && Add({}, a) == a && Add(a, a) == {}
  {}

  lemma InTimesX(a: Poly, e: nat)
    ensures e in TimesX(a) <==> e > 0 && e - 1 in a
  {
    if e > 0 && e - 1 in a {
      assert (e - 1) + 1 in TimesX(a);
    }
  }

  lemma TimesXAdds(a: Poly, b: Poly)
    ensures TimesX(Add(a, b)) == Add(TimesX(a), TimesX(b))
  {
    hide TimesX;
    forall e: nat
      ensures e in TimesX(Add(a, b)) <==> e in Add(TimesX(a), TimesX(b))
    {
      InTimesX(Add(a, b), e);
      InTimesX(a, e);
      InTimesX(b, e);
    }
  }

  lemma InPolyOf(bits: seq<bool>, e: nat)
    ensures e in PolyOf(bits) <==> e < |bits| && bits[|bits| - 1 - e]
  {
    if e < |bits| && bits[|bits| - 1 - e] {
      assert |bits| - 1 - (|bits| - 1 - e) in PolyOf(bits);
    }
  }

  lemma PolyXor(a: seq<bool>, b: seq<bool>, c: seq<bool>)
    requires |a| == |b| == |c| && forall i :: 0 <= i < |a| ==> c[i] == (a[i] != b[i])
    ensures PolyOf(c) == Add(PolyOf(a), PolyOf(b))
  {
    hide PolyOf;
    forall e: nat
      ensures e in PolyOf(c) <==> e in Add(PolyOf(a), PolyOf(b))
    {
      InPolyOf(a, e);
      InPolyOf(b, e);
      InPolyOf(c, e);
    }
  }

  // ----- one bit -----

  lemma PolyShift(s: Word)
    ensures TimesX(PolyOf(s)) == Add(One(s[0], WIDTH), PolyOf(ShiftRight(s)))
  {
    hide PolyOf, TimesX;
    forall e: nat
      ensures e in TimesX(PolyOf(s)) <==> e in Add(One(s[0], WIDTH), PolyOf(ShiftRight(s)))
    {
      InTimesX(PolyOf(s), e);
      InPolyOf(ShiftRight(s), e);
      if e > 0 {
        InPolyOf(s, e - 1);
      }
    }
  }

  lemma GeneratorIs(p: Word)
    ensures Generator(p) == Add({WIDTH}, PolyOf(p))
  {
    hide PolyOf;
    InPolyOf(p, WIDTH);
  }

  /** A step multiplies by x and takes the generator away if that overflows. */
  lemma StepDivides(p: Word, s: Word)
    ensures TimesX(PolyOf(s)) == Add(if s[0] then Generator(p) else {}, PolyOf(Step(p, s)))
  {
    hide PolyOf, TimesX, Generator;
    PolyShift(s);
    var shifted := PolyOf(ShiftRight(s));
    if s[0] {
      GeneratorIs(p);
      PolyXor(ShiftRight(s), p, Step(p, s));
      AddTwice({WIDTH}, PolyOf(p), shifted);
    }
  }

  lemma AddTwice(a: Poly, b: Poly, c: Poly)
    ensures Add(Add(a, b), Add(c, b)) == Add(a, c)
  {}

  lemma FlipFirstBit(s: Word, b: bool)
    ensures PolyOf(s[0 := s[0] != b]) == Add(PolyOf(s), One(b, WIDTH - 1))
  {
    hide PolyOf;
    var t: Word := s[0 := s[0] != b];
    forall e: nat
      ensures e in PolyOf(t) <==> e in Add(PolyOf(s), One(b, WIDTH - 1))
    {
      InPolyOf(s, e);
      InPolyOf(t, e);
    }
  }

  /** So does feeding a bit, which adds the bit at the overflowing place. */
  lemma FeedBitDivides(p: Word, s: Word, b: bool)
    ensures Add(TimesX(PolyOf(s)), One(b, WIDTH))
         == Add(if s[0] != b then Generator(p) else {}, PolyOf(FeedBit(p, s, b)))
  {
    hide PolyOf, Generator, Step;
    var t: Word := s[0 := s[0] != b];
    FlipFirstBit(s, b);
    TimesXAdds(PolyOf(s), One(b, WIDTH - 1));
    assert TimesX(One(b, WIDTH - 1)) == One(b, WIDTH) by {
      assert b ==> WIDTH - 1 + 1 in TimesX({WIDTH - 1});
    }
    StepDivides(p, t);
  }

  // ----- all bits -----

  /** What is divided: the register's first value, then the message bits entering 32 places below its end. */
  function Dividend(s: Word, bits: seq<bool>): Poly {
    if bits == [] then PolyOf(s)
    else
      var n := |bits| - 1;
      Add(TimesX(Dividend(s, bits[..n])), One(bits[n], WIDTH))
  }

  lemma {:induction false} FeedSnoc(p: Word, s: Word, bits: seq<bool>, b: bool)
    ensures FeedBits(p, s, bits + [b]) == FeedBit(p, FeedBits(p, s, bits), b)
    decreases |bits|
  {
    hide FeedBit;
    var all := bits + [b];
    if bits == [] {
      assert all[1..] == [];
    } else {
      assert all[1..] == bits[1..] + [b];
      FeedSnoc(p, FeedBit(p, s, bits[0]), bits[1..], b);
    }
  }

  /** After any bits, the register is the remainder. */
  lemma {:induction false} RegisterIsRemainder(p: Word, s: Word, bits: seq<bool>) returns (q: seq<bool>)
    ensures Dividend(s, bits) == Add(Product(q, Generator(p)), PolyOf(FeedBits(p, s, bits)))
  {
    hide PolyOf, Generator, FeedBit, TimesX;
    if bits == [] {
      q := [];
    } else {
      var n := |bits| - 1;
      var init, b, g := bits[..n], bits[n], Generator(p);
      var r := FeedBits(p, s, init);
      var front := RegisterIsRemainder(p, s, init);
      var c := r[0] != b;
      q := front + [c];
      assert q[..|front|] == front && bits == init + [b];
      FeedSnoc(p, s, init, b);
      TimesXAdds(Product(front, g), PolyOf(r));
      FeedBitDivides(p, r, b);
      var top, last := TimesX(Product(front, g)), PolyOf(FeedBit(p, r, b));
      var part := if c then g else {};
      AddLaws(top, TimesX(PolyOf(r)), One(b, WIDTH));
      AddLaws(top, part, last);
      hide Add;
    }
  }

  // ----- the message of the standard -----

  /** The message followed by 32 zero bits, the first 32 of all complemented. */
  function Complemented(bits: seq<bool>): (c: seq<bool>)
    ensures |c| == |bits| + WIDTH
  {
    var padded := bits + Zeros(WIDTH);
    seq(|padded|, i requires 0 <= i < |padded| => if i < WIDTH then !padded[i] else padded[i])
  }

  lemma InDividend(bits: seq<bool>, e: nat)
    ensures e in Dividend(AllOnes(), bits) <==>
              (WIDTH <= e < |bits| + WIDTH && bits[|bits| + WIDTH - 1 - e]) != (|bits| <= e < |bits| + WIDTH)
  {
    if bits == [] {
      InPolyOf(AllOnes(), e);
    } else {
      hide PolyOf, TimesX;
      var n := |bits| - 1;
      InTimesX(Dividend(AllOnes(), bits[..n]), e);
      if e > 0 {
        InDividend(bits[..n], e - 1);
      }
    }
  }

  lemma DividendIsMessage(bits: seq<bool>)
    ensures Dividend(AllOnes(), bits) == PolyOf(Complemented(bits))
  {
    hide Dividend, PolyOf;
    forall e: nat
      ensures e in Dividend(AllOnes(), bits) <==> e in PolyOf(Complemented(bits))
    {
      InDividend(bits, e);
      InPolyOf(Complemented(bits), e);
    }
  }

  lemma NextBit(n: nat, k: nat)
    ensures BitsOf(n, k + 1) == [n % 2 == 1] + BitsOf(n / 2, k)
  {}

  lemma NextFour(n: nat, k: nat)
    ensures var bits := BitsOf(n, k + 4);
            && bits[0..4] == [n % 2 == 1, n / 2 % 2 == 1, n / 2 / 2 % 2 == 1, n / 2 / 2 / 2 % 2 == 1]
            && bits[4..] == BitsOf(n / 2 / 2 / 2 / 2, k)
  {
    hide BitsOf;
    NextBit(n, k + 3);
    NextBit(n / 2, k + 2);
    NextBit(n / 2 / 2, k + 1);
    NextBit(n / 2 / 2 / 2, k);
  }

  lemma PolynomialBits() returns (p: Word)
    ensures p == ToWord(REFLECTED_POLYNOMIAL)
    ensures p[0..4] == [false, false, false, true] && p[4..8] == [true, true, true, false]
    ensures p[8..12] == [true, true, false, true] && p[12..16] == [true, true, false, false]
    ensures p[16..20] == [false, true, true, false] && p[20..24] == [true, true, true, true]
    ensures p[24..28] == [false, true, false, false] && p[28..32] == [false, false, false, true]
  {
    hide BitsOf;
    p := BitsOf(REFLECTED_POLYNOMIAL, WIDTH);
    NextFour(0x82F63B78, 28);
    NextFour(0x82F63B7, 24);
    NextFour(0x82F63B, 20);
    NextFour(0x82F63, 16);
    NextFour(0x82F6, 12);
    NextFour(0x82F, 8);
    NextFour(0x82, 4);
    NextFour(0x8, 0);
  }

  /** The generator is the one of section 12.1 of RFC 3720. */
  lemma GeneratorOfTheStandard()
    ensures Generator(ToWord(REFLECTED_POLYNOMIAL))
         == {32, 28, 27, 26, 25, 23, 22, 20, 19, 18, 14, 13, 11, 10, 9, 8, 6, 0}
  {
    hide PolyOf, ToWord, BitsOf;
    var p := PolynomialBits();
    forall e: nat
      ensures e in Generator(p) <==> e in {32, 28, 27, 26, 25, 23, 22, 20, 19, 18, 14, 13, 11, 10, 9, 8, 6, 0}
    {
      InPolyOf(p, e);
    }
  }

  /** The complement of the checksum is the remainder of the message by the generator. */
  lemma ChecksumIsRemainder(bytes: Bytes) returns (q: seq<bool>)
    ensures PolyOf(Complemented(BitsOfBytes(bytes)))
         == Add(Product(q, Generator(ToWord(REFLECTED_POLYNOMIAL))),
                PolyOf(Xor(ToWord(Checksum(bytes)), AllOnes())))
  {
    hide PolyOf, Product, Generator, Absorb, FeedBits, Dividend, ToWord, Complemented;
    var p := ToWord(REFLECTED_POLYNOMIAL);
    var s := Absorb(p, AllOnes(), bytes);
    AbsorbIsFeeding(p, AllOnes(), bytes);
    q := RegisterIsRemainder(p, AllOnes(), BitsOfBytes(bytes));
    DividendIsMessage(BitsOfBytes(bytes));
    WordValue(0, Xor(s, AllOnes()));
    assert Xor(Xor(s, AllOnes()), AllOnes()) == s;
  }
}
