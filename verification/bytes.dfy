/** Octets and the fixed-width integers of the tracker wire format, with
    their big-endian ("network order") byte layouts. */
module Bytes {

  /** One octet on the wire. */
  type Byte = b: int | 0 <= b < 0x100

  type Int16 = x: int | -0x8000 <= x < 0x8000
  type UInt16 = x: int | 0 <= x < 0x1_0000
  type UInt32 = x: int | 0 <= x < 0x1_0000_0000

  /** The unsigned number a byte string denotes when its first byte is the
      most significant one. This is the reference meaning of "network order". */
  function BigEndianValue(s: seq<Byte>): nat
  {
    if |s| == 0 then 0 else BigEndianValue(s[..|s| - 1]) * 0x100 + s[|s| - 1]
  }

  /** The 16-bit two's-complement pattern of a signed value, read as unsigned:
      the unique 16-bit number congruent to `x` modulo 2^16. */
  function Bits16(x: Int16): (u: UInt16)
    ensures u % 0x1_0000 == x % 0x1_0000
  {
    if x < 0 then x + 0x1_0000 else x
  }

  /** The signed value whose two's-complement pattern is `u`. */
  function Signed16(u: UInt16): (x: Int16)
    ensures x % 0x1_0000 == u
    ensures Bits16(x) == u
  {
    if u < 0x8000 then u else u - 0x1_0000
  }

  /** Two signed values with the same 16-bit pattern are equal. */
  lemma Bits16Injective(x: Int16, y: Int16)
    requires Bits16(x) == Bits16(y)
    ensures x == y
  {
  }

  /** A 16-bit unsigned value, most significant byte first. */
  function ToBigEndian16(u: UInt16): (r: seq<Byte>)
    ensures |r| == 2 && BigEndianValue(r) == u
  {
    var r := [u / 0x100, u % 0x100];
    assert r[..1][..0] == [];
    assert BigEndianValue(r[..1]) == r[0];
    r
  }

  /** Reads two network-order bytes; the inverse of `ToBigEndian16`. */
  function FromBigEndian16(s: seq<Byte>): (u: UInt16)
    requires |s| == 2
    ensures u == BigEndianValue(s)
    ensures ToBigEndian16(u) == s
  {
    assert s[..1][..0] == [];
    assert BigEndianValue(s[..1]) == s[0];
    s[0] as int * 0x100 + s[1] as int
  }

  /** Appending two bytes shifts the value read so far by 16 bits. */
  lemma BigEndianValueAppend2(a: seq<Byte>, b: seq<Byte>)
    requires |b| == 2
    ensures BigEndianValue(a + b) == BigEndianValue(a) * 0x1_0000 + BigEndianValue(b)
  {
    var ab := a + b;
    assert ab[..|ab| - 1] == a + [b[0]];
    assert (a + [b[0]])[..|a|] == a;
    assert b[..1][..0] == [];
    var va := BigEndianValue(a);
    assert BigEndianValue(a + [b[0]]) == va * 0x100 + b[0];
    assert BigEndianValue(ab) == (va * 0x100 + b[0]) * 0x100 + b[1];
    assert BigEndianValue(b[..1]) == b[0];
    assert BigEndianValue(b) == b[0] as int * 0x100 + b[1] as int;
  }

  /** A 32-bit unsigned value, most significant byte first: the high half,
      then the low half. */
  function ToBigEndian32(u: UInt32): (r: seq<Byte>)
    ensures |r| == 4 && BigEndianValue(r) == u
  {
    BigEndianValueAppend2(ToBigEndian16(u / 0x1_0000), ToBigEndian16(u % 0x1_0000));
    ToBigEndian16(u / 0x1_0000) + ToBigEndian16(u % 0x1_0000)
  }

  /** Reads four network-order bytes; the inverse of `ToBigEndian32`. */
  function FromBigEndian32(s: seq<Byte>): (u: UInt32)
    requires |s| == 4
    ensures u == BigEndianValue(s)
    ensures ToBigEndian32(u) == s
  {
    var hi, lo := FromBigEndian16(s[..2]), FromBigEndian16(s[2..]);
    assert s == s[..2] + s[2..];
    BigEndianValueAppend2(s[..2], s[2..]);
    assert (hi * 0x1_0000 + lo) / 0x1_0000 == hi && (hi * 0x1_0000 + lo) % 0x1_0000 == lo;
    hi * 0x1_0000 + lo
  }

  /** Big-endian encoding loses nothing: equal encodings come from equal values. */
  lemma ToBigEndian32Injective(u: UInt32, v: UInt32)
    requires ToBigEndian32(u) == ToBigEndian32(v)
    ensures u == v
  {
    assert BigEndianValue(ToBigEndian32(u)) == u;
  }
}
