/** Fixed-width unsigned integers, big-endian byte conversions and bit access
    (utils.go). Go's `uint8`/`uint16`/`uint32` become subset types of `int`;
    every wrap-around the router relies on is written out where it happens. */
module Bytes {

  type u8 = x: int | 0 <= x < 0x100
  type u16 = x: int | 0 <= x < 0x1_0000
  type u32 = x: int | 0 <= x < 0x1_0000_0000
  type u64 = x: int | 0 <= x < 0x1_0000_0000_0000_0000

  /** A 6-byte Ethernet address (`[6]uint8`). */
  type MacAddr = s: seq<u8> | |s| == 6 witness [0, 0, 0, 0, 0, 0]

  /** A 16-byte IPv6 address (`[16]byte`). */
  type Ipv6Addr = s: seq<u8> | |s| == 16 witness [0, 0, 0, 0, 0, 0, 0, 0, 0, 0, 0, 0, 0, 0, 0, 0]

  const ZERO_MAC: MacAddr := [0, 0, 0, 0, 0, 0]
  const BROADCAST_MAC: MacAddr := [0xff, 0xff, 0xff, 0xff, 0xff, 0xff]
  const ZERO_IPV6: Ipv6Addr := [0, 0, 0, 0, 0, 0, 0, 0, 0, 0, 0, 0, 0, 0, 0, 0]

  /** `binary.BigEndian.Uint16`: reads the first two bytes, most significant first. */
  function BytesToU16(s: seq<u8>): u16
    requires |s| >= 2
  {
    s[0] as int * 0x100 + s[1] as int
  }

  /** `binary.BigEndian.Uint32`: reads the first four bytes, most significant first. */
  function BytesToU32(s: seq<u8>): u32
    requires |s| >= 4
  {
    BytesToU16(s[..2]) * 0x1_0000 + BytesToU16(s[2..4])
  }

  /** `uint16ToByte`: exactly two bytes that read back as `x`. */
  function U16ToBytes(x: u16): (r: seq<u8>)
    ensures |r| == 2 && BytesToU16(r) == x
  {
    [x / 0x100, x % 0x100]
  }

  /** `uint32ToByte`: exactly four bytes that read back as `x`. */
  function U32ToBytes(x: u32): (r: seq<u8>)
    ensures |r| == 4 && BytesToU32(r) == x
    ensures r[..2] == U16ToBytes(x / 0x1_0000) && r[2..] == U16ToBytes(x % 0x1_0000)
  {
    U16ToBytes(x / 0x1_0000) + U16ToBytes(x % 0x1_0000)
  }

  /** Reading two bytes and writing them back gives the same two bytes. */
  lemma U16BytesInverse(s: seq<u8>)
    requires |s| >= 2
    ensures U16ToBytes(BytesToU16(s)) == s[..2]
  {
  }

  /** Reading four bytes and writing them back gives the same four bytes. */
  lemma U32BytesInverse(s: seq<u8>)
    requires |s| >= 4
    ensures U32ToBytes(BytesToU32(s)) == s[..4]
  {
    U16BytesInverse(s[..2]);
    U16BytesInverse(s[2..4]);
    WordSplit(BytesToU16(s[..2]), BytesToU16(s[2..4]));
    assert s[..4] == s[..2] + s[2..4];
  }

  /** A word made of a high and a low half splits back into the halves. */
  lemma WordSplit(hi: u16, lo: u16)
    ensures (hi * 0x1_0000 + lo) / 0x1_0000 == hi && (hi * 0x1_0000 + lo) % 0x1_0000 == lo
  {
  }

  /** The first byte of a word's encoding is its top 8 bits. */
  lemma U32TopByte(x: u32)
    ensures U32ToBytes(x)[0] == x / 0x100_0000
  {
    assert U32ToBytes(x)[0] == (x / 0x1_0000) / 0x100;
  }

  /** Bit `i` counted from the most significant end, 1-based:
      Go's `x >> (32 - i) & 1 == 1`. */
  predicate Bit(x: u32, i: nat)
    requires 1 <= i <= 32
  {
    (x as bv32 >> (32 - i)) & 1 == 1
  }
}
