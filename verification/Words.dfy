/** 32-bit words as their bits, least significant first: the exclusive-or and shift the source applies to `uint32_t`. */
module Words {
  import opened Prelude

  const WIDTH: nat := 32

  type Word = s: seq<bool> | |s| == WIDTH witness seq(WIDTH, _ => false)

  function Pow2(n: nat): nat
    ensures Pow2(n) > 0
  {
    if n == 0 then 1 else 2 * Pow2(n - 1)
  }

  lemma Pow2Values()
    ensures Pow2(8) == 0x100
    ensures Pow2(31) == 0x8000_0000
    ensures Pow2(32) == 0x1_0000_0000
  {
    assert Pow2(4) == 0x10;
    assert Pow2(12) == 0x1000 by {
      assert Pow2(8) == 0x100;
    }
    assert Pow2(16) == 0x1_0000;
    assert Pow2(20) == 0x10_0000;
    assert Pow2(24) == 0x100_0000;
    assert Pow2(28) == 0x1000_0000;
  }

  function BitsOf(n: nat, k: nat): (bits: seq<bool>)
    ensures |bits| == k
  {
    if k == 0 then [] else [n % 2 == 1] + BitsOf(n / 2, k - 1)
  }

  function ValueOf(bits: seq<bool>): (n: nat)
    ensures n < Pow2(|bits|)
  {
    if bits == [] then 0 else (if bits[0] then 1 else 0) + 2 * ValueOf(bits[1..])
  }

  /** 0xFFFF_FFFF. */
  function AllOnes(): (w: Word)
    ensures forall i :: 0 <= i < WIDTH ==> w[i]
  {
    seq(WIDTH, _ => true)
  }

  function ToWord(n: nat): Word {
    BitsOf(n, WIDTH)
  }

  function FromWord(w: Word): u32 {
    Pow2Values();
    ValueOf(w)
  }

  function Zeros(n: nat): (z: seq<bool>)
    ensures |z| == n && forall i :: 0 <= i < n ==> !z[i]
  {
    seq(n, _ => false)
  }

  function Xor(a: Word, b: Word): (c: Word)
    ensures forall i :: 0 <= i < WIDTH ==> c[i] == (a[i] != b[i])
  {
    seq(WIDTH, i requires 0 <= i < WIDTH => a[i] != b[i])
  }

  function ShiftRight(s: Word): Word {
    s[1..] + [false]
  }

  lemma {:induction false} ValueOfBits(n: nat, k: nat)
    requires n < Pow2(k)
    ensures ValueOf(BitsOf(n, k)) == n
  {
    if k > 0 {
      ValueOfBits(n / 2, k - 1);
      assert BitsOf(n, k)[1..] == BitsOf(n / 2, k - 1);
    }
  }

  lemma {:induction false} BitsOfValue(bits: seq<bool>)
    ensures BitsOf(ValueOf(bits), |bits|) == bits
  {
    if bits != [] {
      BitsOfValue(bits[1..]);
      var rest := ValueOf(bits[1..]);
      assert ValueOf(bits) / 2 == rest;
      assert bits == [bits[0]] + bits[1..];
    }
  }

  /** The words and the values 0 .. 2^32 - 1 correspond one to one. */
  lemma WordValue(n: u32, w: Word)
    ensures FromWord(ToWord(n)) == n
    ensures ToWord(FromWord(w)) == w
  {
    Pow2Values();
    ValueOfBits(n, WIDTH);
    BitsOfValue(w);
  }

  lemma {:induction false} ComplementValue(bits: seq<bool>, flipped: seq<bool>)
    requires |flipped| == |bits|
    requires forall i :: 0 <= i < |bits| ==> flipped[i] == !bits[i]
    ensures ValueOf(flipped) == Pow2(|bits|) - 1 - ValueOf(bits)
  {
    if bits != [] {
      ComplementValue(bits[1..], flipped[1..]);
    }
  }

  /** A length field xor-ed with all ones is its distance from the largest 32-bit value. */
  lemma InvertIsXor(n: u32)
    ensures FromWord(Xor(ToWord(n), AllOnes())) == U32_MAX - n
  {
    Pow2Values();
    ComplementValue(ToWord(n), Xor(ToWord(n), AllOnes()));
    WordValue(n, AllOnes());
  }

  /** How frame headers store a length a second time. */
  function Inverted(n: u32): (r: u32)
    ensures r == U32_MAX - n
  {
    InvertIsXor(n);
    FromWord(Xor(ToWord(n), AllOnes()))
  }
}
