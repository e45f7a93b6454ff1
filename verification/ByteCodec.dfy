/** Little-endian integers, the growing `ByteWriter` and the bounds-checked `ByteReader`. */
module ByteCodec {
  import opened Prelude

  function Pow256(k: nat): nat
    ensures Pow256(k) > 0
  {
    if k == 0 then 1 else 256 * Pow256(k - 1)
  }

  /** The `k` low bytes of `n`, least significant first. */
  function LE(n: nat, k: nat): (b: Bytes)
    ensures |b| == k
  {
    if k == 0 then [] else [n % 256] + LE(n / 256, k - 1)
  }

  function FromLE(b: Bytes): (n: nat)
    ensures n < Pow256(|b|)
  {
    if b == [] then 0 else b[0] + 256 * FromLE(b[1..])
  }

  lemma Pow256Values()
    ensures Pow256(1) == 0x100
    ensures Pow256(2) == 0x1_0000
    ensures Pow256(4) == 0x1_0000_0000
    ensures Pow256(8) == 0x1_0000_0000_0000_0000
  {
    assert Pow256(3) == 0x100_0000;
    assert Pow256(5) == 0x100_0000_0000;
    assert Pow256(6) == 0x1_0000_0000_0000;
    assert Pow256(7) == 0x100_0000_0000_0000;
  }

  /** Writing keeps `n` modulo 256^k, so a value that fits survives. */
  lemma {:induction false} LERoundTrip(n: nat, k: nat)
    requires n < Pow256(k)
    ensures FromLE(LE(n, k)) == n
  {
    if k > 0 {
      LERoundTrip(n / 256, k - 1);
      assert LE(n, k)[1..] == LE(n / 256, k - 1);
    }
  }

  /** No two byte strings of one width read as the same number. */
  lemma {:induction false} LECanonical(b: Bytes)
    ensures LE(FromLE(b), |b|) == b
  {
    if b != [] {
      var rest := FromLE(b[1..]);
      LECanonical(b[1..]);
      assert FromLE(b) / 256 == rest && FromLE(b) % 256 == b[0];
      assert b == [b[0]] + b[1..];
    }
  }

  lemma LEFits(n: nat)
    ensures n < 0x1_0000 ==> FromLE(LE(n, 2)) == n
    ensures n < 0x1_0000_0000 ==> FromLE(LE(n, 4)) == n
    ensures n < 0x1_0000_0000_0000_0000 ==> FromLE(LE(n, 8)) == n
  {
    Pow256Values();
    if n < 0x1_0000 { LERoundTrip(n, 2); }
    if n < 0x1_0000_0000 { LERoundTrip(n, 4); }
    if n < 0x1_0000_0000_0000_0000 { LERoundTrip(n, 8); }
  }

  lemma {:induction false} FromLEAppend(b: Bytes, x: u8)
    ensures FromLE(b + [x]) == FromLE(b) + Pow256(|b|) * x
  {
    if b == [] {
      assert b + [x] == [x];
    } else {
      assert (b + [x])[1..] == b[1..] + [x];
      FromLEAppend(b[1..], x);
      assert 256 * (Pow256(|b| - 1) * x) == Pow256(|b|) * x;
    }
  }

  class ByteWriter {
    var data: Bytes

    constructor ()
      ensures data == []
    {
      data := [];
    }

    method WriteUnsigned(value: nat, byteCount: nat)
      modifies this
      ensures data == old(data) + LE(value, byteCount)
    {
      var rest := value;
      for index := 0 to byteCount
        invariant data + LE(rest, byteCount - index) == old(data) + LE(value, byteCount)
      {
        ghost var before := data;
        ghost var tail := LE(rest / 256, byteCount - index - 1);
        assert before + LE(rest, byteCount - index) == before + [rest % 256] + tail;
        data := data + [rest % 256];
        rest := rest / 256;
      }
      assert data + [] == data;
    }

    method WriteU8(value: u8)
      modifies this
      ensures data == old(data) + LE(value, 1)
    {
      WriteUnsigned(value, 1);
    }

    method WriteU16(value: u16)
      modifies this
      ensures data == old(data) + LE(value, 2)
    {
      WriteUnsigned(value, 2);
    }

    method WriteU32(value: u32)
      modifies this
      ensures data == old(data) + LE(value, 4)
    {
      WriteUnsigned(value, 4);
    }

    method WriteU64(value: u64)
      modifies this
      ensures data == old(data) + LE(value, 8)
    {
      WriteUnsigned(value, 8);
    }

    method WriteBytes(bytes: Bytes)
      modifies this
      ensures data == old(data) + bytes
    {
      for i := 0 to |bytes|
        invariant data == old(data) + bytes[..i]
      {
        data := data + [bytes[i]];
      }
    }
  }

  class ByteReader {
    const data: Bytes
    var position: nat

    ghost predicate Valid()
      reads this
    {
      position <= |data|
    }

    constructor (data: Bytes)
      ensures Valid() && this.data == data && position == 0
    {
      this.data := data;
      position := 0;
    }

    function Remaining(): nat
      requires Valid()
      reads this
    {
      |data| - position
    }

    predicate CanRead(count: nat)
      requires Valid()
      reads this
    {
      count <= Remaining()
    }

    /** Reads nothing and moves nothing unless all the bytes are there. */
    method ReadUnsigned(byteCount: nat) returns (value: Option<nat>)
      requires Valid()
      modifies this
      ensures Valid()
      ensures value.Some? <==> byteCount <= 8 && old(position) + byteCount <= |data|
      ensures value.Some? ==> position == old(position) + byteCount
                              && value.value == FromLE(data[old(position)..position])
      ensures value.None? ==> position == old(position)
    {
      if byteCount > 8 || !CanRead(byteCount) {
        return None;
      }
      var decoded: nat := 0;
      var weight: nat := 1;
      for index := 0 to byteCount
        invariant position == old(position)
        invariant weight == Pow256(index)
        invariant decoded == FromLE(data[position..position + index])
      {
        FromLEAppend(data[position..position + index], data[position + index]);
        assert data[position..position + index + 1] == data[position..position + index] + [data[position + index]];
        decoded := decoded + weight * data[position + index];
        weight := 256 * weight;
      }
      position := position + byteCount;
      value := Some(decoded);
    }

    method ReadU8() returns (value: Option<u8>)
      requires Valid()
      modifies this
      ensures Valid()
      ensures value.Some? <==> old(position) + 1 <= |data|
      ensures value.Some? ==> position == old(position) + 1 && value.value == data[old(position)]
      ensures value.None? ==> position == old(position)
    {
      Pow256Values();
      var decoded := ReadUnsigned(1);
      value := if decoded.Some? then Some(decoded.value) else None;
    }

    method ReadU16() returns (value: Option<u16>)
      requires Valid()
      modifies this
      ensures Valid()
      ensures value.Some? <==> old(position) + 2 <= |data|
      ensures value.Some? ==> position == old(position) + 2 && value.value == FromLE(data[old(position)..position])
      ensures value.None? ==> position == old(position)
    {
      Pow256Values();
      var decoded := ReadUnsigned(2);
      value := if decoded.Some? then Some(decoded.value) else None;
    }

    method ReadU32() returns (value: Option<u32>)
      requires Valid()
      modifies this
      ensures Valid()
      ensures value.Some? <==> old(position) + 4 <= |data|
      ensures value.Some? ==> position == old(position) + 4 && value.value == FromLE(data[old(position)..position])
      ensures value.None? ==> position == old(position)
    {
      Pow256Values();
      var decoded := ReadUnsigned(4);
      value := if decoded.Some? then Some(decoded.value) else None;
    }

    method ReadU64() returns (value: Option<u64>)
      requires Valid()
      modifies this
      ensures Valid()
      ensures value.Some? <==> old(position) + 8 <= |data|
      ensures value.Some? ==> position == old(position) + 8 && value.value == FromLE(data[old(position)..position])
      ensures value.None? ==> position == old(position)
    {
      Pow256Values();
      var decoded := ReadUnsigned(8);
      value := if decoded.Some? then Some(decoded.value) else None;
    }
  }
}
