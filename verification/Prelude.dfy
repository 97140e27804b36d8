/** Stock result types and the fixed-width integers of the packet format. */
module Prelude {

  datatype Option<+T> = None | Some(value: T)

  datatype Result<+T, +E> = Ok(value: T) | Err(error: E)

  type Byte = x: int | 0 <= x < 0x100
  type U16 = x: int | 0 <= x < 0x1_0000
  type U32 = x: int | 0 <= x < 0x1_0000_0000

  const TWO_POW_32: nat := 0x1_0000_0000

  /** Sixteen octets in network order. */
  type Ipv6Addr = s: seq<Byte> | |s| == 16 witness seq(16, _ => 0)

  function Min(a: nat, b: nat): nat {
    if a <= b then a else b
  }

  function Zeros(n: nat): (bs: seq<Byte>)
    ensures |bs| == n
  {
    seq(n, _ => 0)
  }

  /** The big-endian 16-bit word of two octets. */
  function Word(high: Byte, low: Byte): U16 {
    (high as int) * 0x100 + low
  }

  // Big-endian decoding and encoding. The source converts a slice of exactly the
  // right size and panics on any other, so its callers owe the length.

  function U16FromBe(data: seq<Byte>): U16
    requires |data| == 2
  {
    Word(data[0], data[1])
  }

  function U16ToBe(v: U16): (bs: seq<Byte>)
    ensures |bs| == 2
  {
    [v / 0x100, v % 0x100]
  }

  function U32FromBe(data: seq<Byte>): U32
    requires |data| == 4
  {
    (U16FromBe(data[..2]) as int) * 0x1_0000 + U16FromBe(data[2..])
  }

  function U32ToBe(v: U32): (bs: seq<Byte>)
    ensures |bs| == 4
  {
    U16ToBe(v / 0x1_0000) + U16ToBe(v % 0x1_0000)
  }

  lemma U16RoundTrip(v: U16)
    ensures U16FromBe(U16ToBe(v)) == v
  {
  }

  lemma U16Reprint(data: seq<Byte>)
    requires |data| == 2
    ensures U16ToBe(U16FromBe(data)) == data
  {
  }

  lemma U32RoundTrip(v: U32)
    ensures U32FromBe(U32ToBe(v)) == v
  {
    assert U32ToBe(v)[..2] == U16ToBe(v / 0x1_0000);
    assert U32ToBe(v)[2..] == U16ToBe(v % 0x1_0000);
    U16RoundTrip(v / 0x1_0000);
    U16RoundTrip(v % 0x1_0000);
  }

  lemma U32Injective(a: seq<Byte>, b: seq<Byte>)
    requires |a| == 4 && |b| == 4
    requires U32FromBe(a) == U32FromBe(b)
    ensures a == b
  {
    assert U16FromBe(a[..2]) == U16FromBe(b[..2]) && U16FromBe(a[2..]) == U16FromBe(b[2..]);
  }

  lemma U32Reprint(data: seq<Byte>)
    requires |data| == 4
    ensures U32ToBe(U32FromBe(data)) == data
  {
    U32RoundTrip(U32FromBe(data));
    U32Injective(U32ToBe(U32FromBe(data)), data);
  }
}
