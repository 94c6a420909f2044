/** The transport-layer codecs of packet_header.go: the 12-byte IPv4
    pseudo-header used for TCP and UDP checksums (RFC 768, RFC 793), the
    8-byte UDP header, and the TCP header with its options and data. */
module Transport {
  import opened Bytes

  const DUMMY_HEADER_LEN := 12
  const UDP_HEADER_LEN := 8
  const TCP_HEADER_LEN := 20

  /** `dummyHeader`: source, destination, protocol and length. */
  datatype DummyHeader = DummyHeader(srcAddr: u32, destAddr: u32, protocol: u16, length: u16)

  /** `dummyHeader.ToPacket`: 12 big-endian bytes in field order. */
  function DummyToPacket(h: DummyHeader): (r: seq<u8>)
    ensures |r| == DUMMY_HEADER_LEN
    ensures BytesToU32(r[0..4]) == h.srcAddr && BytesToU32(r[4..8]) == h.destAddr
    ensures BytesToU16(r[8..10]) == h.protocol && BytesToU16(r[10..12]) == h.length
  {
    var r := U32ToBytes(h.srcAddr) + U32ToBytes(h.destAddr) + U16ToBytes(h.protocol) + U16ToBytes(h.length);
    assert r[0..4] == U32ToBytes(h.srcAddr);
    assert r[4..8] == U32ToBytes(h.destAddr);
    assert r[8..10] == U16ToBytes(h.protocol);
    assert r[10..12] == U16ToBytes(h.length);
    r
  }

  /** `udpHeader`. */
  datatype UdpHeader = UdpHeader(srcPort: u16, destPort: u16, length: u16, checksum: u16)

  /** `udpHeader.ToPacket` (`binary.Write` of the struct, big-endian): the
      four fields in order, 8 bytes. */
  function UdpToPacket(h: UdpHeader): (r: seq<u8>)
    ensures |r| == UDP_HEADER_LEN
    ensures UdpParsePacket(r) == h
  {
    var r := U16ToBytes(h.srcPort) + U16ToBytes(h.destPort) + U16ToBytes(h.length) + U16ToBytes(h.checksum);
    assert r[0..2] == U16ToBytes(h.srcPort);
    assert r[2..4] == U16ToBytes(h.destPort);
    assert r[4..6] == U16ToBytes(h.length);
    assert r[6..8] == U16ToBytes(h.checksum);
    r
  }

  /** `udpHeader.ParsePacket`. */
  function UdpParsePacket(p: seq<u8>): UdpHeader
    requires |p| >= UDP_HEADER_LEN
  {
    UdpHeader(BytesToU16(p[0..2]), BytesToU16(p[2..4]), BytesToU16(p[4..6]), BytesToU16(p[6..8]))
  }

  /** Parsing the first 8 bytes and writing the header back gives those bytes. */
  lemma UdpParseInverse(p: seq<u8>)
    requires |p| >= UDP_HEADER_LEN
    ensures UdpToPacket(UdpParsePacket(p)) == p[..UDP_HEADER_LEN]
  {
    U16BytesInverse(p[0..2]);
    U16BytesInverse(p[2..4]);
    U16BytesInverse(p[4..6]);
    U16BytesInverse(p[6..8]);
    assert p[..UDP_HEADER_LEN] == p[0..2] + p[2..4] + p[4..6] + p[6..8];
  }

  /** `tcpHeader`, with its options and payload. `offset` is the whole byte
      12 (data offset in the high nibble). */
  datatype TcpHeader = TcpHeader(
    srcPort: u16,
    destPort: u16,
    seqNum: u32,
    ackseq: u32,
    offset: u8,
    tcpflag: u8,
    window: u16,
    checksum: u16,
    urgPointer: u16,
    options: seq<u8>,
    tcpdata: seq<u8>)

  /** The 20 fixed bytes of `tcpHeader.ToPacket`. */
  function TcpFixedBytes(h: TcpHeader): (r: seq<u8>)
    ensures |r| == TCP_HEADER_LEN
    ensures BytesToU16(r[0..2]) == h.srcPort && BytesToU16(r[2..4]) == h.destPort
    ensures BytesToU32(r[4..8]) == h.seqNum && BytesToU32(r[8..12]) == h.ackseq
    ensures r[12] == h.offset && r[13] == h.tcpflag
    ensures BytesToU16(r[14..16]) == h.window && BytesToU16(r[16..18]) == h.checksum
    ensures BytesToU16(r[18..20]) == h.urgPointer
  {
    var a := U16ToBytes(h.srcPort) + U16ToBytes(h.destPort) + U32ToBytes(h.seqNum) + U32ToBytes(h.ackseq);
    var b := [h.offset, h.tcpflag] + U16ToBytes(h.window) + U16ToBytes(h.checksum) + U16ToBytes(h.urgPointer);
    assert a[0..2] == U16ToBytes(h.srcPort);
    assert a[2..4] == U16ToBytes(h.destPort);
    assert a[4..8] == U32ToBytes(h.seqNum);
    assert a[8..12] == U32ToBytes(h.ackseq);
    assert b[2..4] == U16ToBytes(h.window);
    assert b[4..6] == U16ToBytes(h.checksum);
    assert b[6..8] == U16ToBytes(h.urgPointer);
    var r := a + b;
    assert r[0..12] == a && r[12..20] == b;
    assert r[0..2] == a[0..2] && r[2..4] == a[2..4] && r[4..8] == a[4..8] && r[8..12] == a[8..12];
    assert r[14..16] == b[2..4] && r[16..18] == b[4..6] && r[18..20] == b[6..8];
    r
  }

  /** `tcpHeader.ToPacket`: the fixed header, then the options, then the
      data (each written only when non-empty, which appends the same bytes). */
  function TcpToPacket(h: TcpHeader): (r: seq<u8>)
    ensures |r| == TCP_HEADER_LEN + |h.options| + |h.tcpdata|
    ensures r[..TCP_HEADER_LEN] == TcpFixedBytes(h)
    ensures r[TCP_HEADER_LEN..TCP_HEADER_LEN + |h.options|] == h.options
    ensures r[TCP_HEADER_LEN + |h.options|..] == h.tcpdata
  {
    var withOptions := if |h.options| != 0 then TcpFixedBytes(h) + h.options else TcpFixedBytes(h);
    if |h.tcpdata| != 0 then withOptions + h.tcpdata else withOptions
  }

  /** `offset >> 2`: the header length in bytes when the low nibble of the
      offset byte is clear. */
  function HeaderLength(offset: u8): nat
  {
    offset / 4
  }

  /** What `tcpHeader.ParsePacket` needs: the fixed header, and the options it
      slices out must lie within the packet. */
  predicate TcpParsable(p: seq<u8>)
  {
    |p| >= TCP_HEADER_LEN && (TCP_HEADER_LEN < HeaderLength(p[12]) ==> HeaderLength(p[12]) <= |p|)
  }

  /** `tcpHeader.ParsePacket`: the fixed fields at offsets 0..19, the options
      between byte 20 and the header length when it exceeds 20, and the data
      from the header length on when anything follows it. */
  function TcpParsePacket(p: seq<u8>): (h: TcpHeader)
    requires TcpParsable(p)
    ensures TcpFixedBytes(h) == p[..TCP_HEADER_LEN]
    ensures |h.options| == if TCP_HEADER_LEN < HeaderLength(p[12]) then HeaderLength(p[12]) - TCP_HEADER_LEN else 0
    ensures h.options == p[TCP_HEADER_LEN..TCP_HEADER_LEN + |h.options|]
    ensures h.tcpdata == if HeaderLength(p[12]) < |p| then p[HeaderLength(p[12])..] else []
  {
    var hl := HeaderLength(p[12]);
    var h := TcpHeader(
      BytesToU16(p[0..2]), BytesToU16(p[2..4]), BytesToU32(p[4..8]), BytesToU32(p[8..12]),
      p[12], p[13], BytesToU16(p[14..16]), BytesToU16(p[16..18]), BytesToU16(p[18..20]),
      if TCP_HEADER_LEN < hl then p[TCP_HEADER_LEN..hl] else [],
      if hl < |p| then p[hl..] else []);
    TcpFixedInverse(p);
    h
  }

  /** The fixed bytes of the header parsed from `p` are the first 20 bytes of `p`. */
  lemma TcpFixedInverse(p: seq<u8>)
    requires |p| >= TCP_HEADER_LEN
    ensures TcpFixedBytes(TcpHeader(
      BytesToU16(p[0..2]), BytesToU16(p[2..4]), BytesToU32(p[4..8]), BytesToU32(p[8..12]),
      p[12], p[13], BytesToU16(p[14..16]), BytesToU16(p[16..18]), BytesToU16(p[18..20]), [], []))
      == p[..TCP_HEADER_LEN]
  {
    U16BytesInverse(p[0..2]);
    U16BytesInverse(p[2..4]);
    U32BytesInverse(p[4..8]);
    U32BytesInverse(p[8..12]);
    U16BytesInverse(p[14..16]);
    U16BytesInverse(p[16..18]);
    U16BytesInverse(p[18..20]);
    assert p[..TCP_HEADER_LEN] == p[0..2] + p[2..4] + p[4..8] + p[8..12] + [p[12], p[13]]
      + p[14..16] + p[16..18] + p[18..20];
  }

  /** Two headers with the same fixed bytes have the same fixed fields. */
  lemma TcpFixedInjective(g: TcpHeader, h: TcpHeader)
    requires TcpFixedBytes(g) == TcpFixedBytes(h)
    ensures g.(options := h.options, tcpdata := h.tcpdata) == h
  {
    var r := TcpFixedBytes(g);
    assert g.srcPort == BytesToU16(r[0..2]) == h.srcPort;
    assert g.seqNum == BytesToU32(r[4..8]) == h.seqNum;
  }

  /** Writing a header whose offset announces exactly its options, then
      parsing the bytes, gives the header back. */
  lemma TcpRoundTrip(h: TcpHeader)
    requires HeaderLength(h.offset) == TCP_HEADER_LEN + |h.options|
    ensures TcpParsable(TcpToPacket(h))
    ensures TcpParsePacket(TcpToPacket(h)) == h
  {
    var p := TcpToPacket(h);
    assert p[12] == TcpFixedBytes(h)[12] == h.offset;
    var g := TcpParsePacket(p);
    TcpFixedInjective(g, h);
  }

  /** Parsing bytes whose header length lies between 20 and the packet length,
      and writing the header back, gives the bytes back. */
  lemma TcpParseInverse(p: seq<u8>)
    requires |p| >= TCP_HEADER_LEN && TCP_HEADER_LEN <= HeaderLength(p[12]) <= |p|
    ensures TcpToPacket(TcpParsePacket(p)) == p
  {
    var h := TcpParsePacket(p);
    var hl := HeaderLength(p[12]);
    assert p == p[..TCP_HEADER_LEN] + p[TCP_HEADER_LEN..hl] + p[hl..];
  }
}
