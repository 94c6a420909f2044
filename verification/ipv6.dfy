/** The IPv6 fixed header (section 3 of RFC 8200) as ipv6.go and nat64.go use
    it, and the `ipv6Input` receive guards, which parse and then do nothing. */
module Ipv6 {
  import opened Bytes
  import opened Wrappers
  import opened Net

  const IPV6_HEADER_LEN := 40

  /** The ICMPv6 next-header number (section 2.1 of RFC 4443). The Go
      constant `IP_PROTOCOL_NUM_ICMPv6` is not part of this model. */
  const IP_PROTOCOL_NUM_ICMPV6: u8 := 58

  /** `ipv6Header`. `trafficClass` holds the whole first 32-bit word as
      ipv6.go reads it; `headerLen` is the payload length. The addresses
      are the 16 bytes nat64.go stores (ipv6.go converts them to 64-bit
      numbers only to log them). */
  datatype Ipv6Header = Ipv6Header(
    version: u8,
    trafficClass: u32,
    flowLabel: u32,
    headerLen: u16,
    nextHeader: u8,
    hoplimit: u8,
    srcAddr: Ipv6Addr,
    destAddr: Ipv6Addr)

  /** The decode of `ipv6Input`: version from the high nibble of byte 0,
      the first word whole, payload length, next header, hop limit and the
      two addresses at offsets 8 and 24. */
  function Parse(p: seq<u8>): (h: Ipv6Header)
    requires |p| >= IPV6_HEADER_LEN
    ensures h.version == p[0] / 16 && h.version == h.trafficClass / 0x1000_0000
    ensures h.flowLabel == 0
  {
    Ipv6Header(p[0] / 16, BytesToU32(p[0..4]), 0, BytesToU16(p[4..6]), p[6], p[7], p[8..24], p[24..40])
  }

  /** The 40-byte layout of section 3 of RFC 8200 with the first word taken
      from `trafficClass`, as `Parse` reads it. (`ipv6Header.ToPacket` is
      not part of this model; this is the reference layout.) */
  function Layout(h: Ipv6Header): (r: seq<u8>)
    ensures |r| == IPV6_HEADER_LEN
  {
    U32ToBytes(h.trafficClass) + U16ToBytes(h.headerLen) + [h.nextHeader, h.hoplimit] + h.srcAddr + h.destAddr
  }

  /** A header as `Parse` produces it: the version is the top nibble of the
      first word and no separate flow label is kept. */
  predicate Parsed(h: Ipv6Header)
  {
    h.version == h.trafficClass / 0x1000_0000 && h.flowLabel == 0
  }

  /** The version nibble of a word's encoding is its top 4 bits. */
  lemma TopNibble(x: u32)
    ensures U32ToBytes(x)[0] / 16 == x / 0x1000_0000
  {
    U32TopByte(x);
  }

  /** Parsing the layout of a parsed-form header gives the header back. */
  lemma LayoutParse(h: Ipv6Header)
    requires Parsed(h)
    ensures Parse(Layout(h)) == h
  {
    var a := U32ToBytes(h.trafficClass) + U16ToBytes(h.headerLen) + [h.nextHeader, h.hoplimit];
    assert |a| == 8;
    var r := a + h.srcAddr + h.destAddr;
    assert r == Layout(h);
    assert r[0..4] == U32ToBytes(h.trafficClass);
    assert r[4..6] == U16ToBytes(h.headerLen);
    assert r[6] == h.nextHeader;
    assert r[7] == h.hoplimit;
    assert r[8..24] == h.srcAddr;
    assert r[24..40] == h.destAddr;
    TopNibble(h.trafficClass);
  }

  /** Parsing 40 bytes and laying the header out again gives the same bytes. */
  lemma ParseLayout(p: seq<u8>)
    requires |p| >= IPV6_HEADER_LEN
    ensures Parsed(Parse(p))
    ensures Layout(Parse(p)) == p[..IPV6_HEADER_LEN]
  {
    U32BytesInverse(p[0..4]);
    U16BytesInverse(p[4..6]);
    assert p[..IPV6_HEADER_LEN] == p[0..4] + p[4..6] + [p[6], p[7]] + p[8..24] + p[24..40];
  }

  /** `ipv6Input`: a device without an IPv4 address and a packet shorter
      than the fixed header are ignored (`None`); otherwise the header is
      parsed and only logged. Nothing is ever sent. */
  function Ipv6Input(inputdev: NetDevice, packet: seq<u8>): (r: Option<Ipv6Header>)
    ensures r.None? <==> inputdev.ipdev.address == 0 || |packet| < IPV6_HEADER_LEN
    ensures r.Some? ==> Layout(r.value) == packet[..IPV6_HEADER_LEN]
  {
    if inputdev.ipdev.address == 0 then None
    else if |packet| < IPV6_HEADER_LEN then None
    else
      ParseLayout(packet);
      Some(Parse(packet))
  }
}
