// Fixed-width words and the big-endian byte codec of the protocol.
module Words {

  type byte = x: int | 0 <= x < 0x100
  type u16 = x: int | 0 <= x < 0x1_0000
  type u32 = x: int | 0 <= x < 0x1_0000_0000
  type u64 = x: int | 0 <= x < 0x1_0000_0000_0000_0000

  function Min(a: nat, b: nat): nat { if a < b then a else b }

  /** 256 to the power `size`: one more than the biggest value of `size` bytes. */
  function Span(size: nat): (r: nat)
    ensures r > 0
  {
    if size == 0 then 1 else 256 * Span(size - 1)
  }

  /** The `size` low-order bytes of `value`, most significant first. */
  function EncodeBe(value: nat, size: nat): (r: seq<byte>)
    ensures |r| == size
  {
    if size == 0 then [] else EncodeBe(value / 256, size - 1) + [value % 256]
  }

  /** The number whose base-256 digits are `bytes`, most significant first. */
  function DecodeBe(bytes: seq<byte>): (r: nat)
  {
    if bytes == [] then 0 else 256 * DecodeBe(bytes[..|bytes| - 1]) + bytes[|bytes| - 1]
  }

  lemma {:induction false} DecodeBound(bytes: seq<byte>)
    ensures DecodeBe(bytes) < Span(|bytes|)
  {
    if bytes != [] {
      DecodeBound(bytes[..|bytes| - 1]);
    }
  }

  lemma {:induction false} DecodeEncode(value: nat, size: nat)
    requires value < Span(size)
    ensures DecodeBe(EncodeBe(value, size)) == value
  {
    if size > 0 {
      DecodeEncode(value / 256, size - 1);
      assert EncodeBe(value, size)[..size - 1] == EncodeBe(value / 256, size - 1);
    }
  }

  lemma {:induction false} EncodeDecode(bytes: seq<byte>)
    ensures EncodeBe(DecodeBe(bytes), |bytes|) == bytes
  {
    if bytes != [] {
      EncodeDecode(bytes[..|bytes| - 1]);
    }
  }

  lemma Spans()
    ensures Span(2) == 0x1_0000 && Span(4) == 0x1_0000_0000 && Span(8) == 0x1_0000_0000_0000_0000
  {
    assert Span(8) == 256 * Span(7) && Span(7) == 256 * Span(6) && Span(6) == 256 * Span(5) && Span(5) == 256 * Span(4);
    assert Span(4) == 256 * Span(3) && Span(3) == 256 * Span(2) && Span(2) == 256 * Span(1) && Span(1) == 256 * Span(0);
  }

  function Word16(bytes: seq<byte>): u16
    requires |bytes| == 2
  {
    Spans();
    DecodeBound(bytes);
    DecodeBe(bytes)
  }

  function Word32(bytes: seq<byte>): u32
    requires |bytes| == 4
  {
    Spans();
    DecodeBound(bytes);
    DecodeBe(bytes)
  }

  function Word64(bytes: seq<byte>): u64
    requires |bytes| == 8
  {
    Spans();
    DecodeBound(bytes);
    DecodeBe(bytes)
  }

  lemma TwoBytes(n: u16)
    ensures EncodeBe(n, 2) == [n / 256, n % 256]
  {
    assert EncodeBe(n, 2) == EncodeBe(n / 256, 1) + [n % 256];
    assert EncodeBe(n / 256, 1) == EncodeBe(n / 256 / 256, 0) + [n / 256 % 256];
  }

  lemma DecodeFront(bytes: seq<byte>, last: byte)
    ensures DecodeBe(bytes + [last]) == 256 * DecodeBe(bytes) + last
  {
    assert (bytes + [last])[..|bytes|] == bytes;
  }

  /** The first byte read is the most significant one, whatever the width. */
  lemma {:induction false} MostSignificantFirst(first: byte, bytes: seq<byte>)
    ensures DecodeBe([first] + bytes) == first * Span(|bytes|) + DecodeBe(bytes)
  {
    if bytes == [] {
      DecodeFront([], first);
      assert [first] + bytes == [] + [first];
    } else {
      var n := |bytes| - 1;
      MostSignificantFirst(first, bytes[..n]);
      DecodeFront([first] + bytes[..n], bytes[n]);
      assert [first] + bytes == ([first] + bytes[..n]) + [bytes[n]];
      assert 256 * (first * Span(n)) == first * (256 * Span(n));
    }
  }
}
