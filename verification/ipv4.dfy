/** The IPv4 header (ip.go, section 3.1 of RFC 791), the address helpers, and
    the send paths: to a host on a connected network, to a next hop, by
    route lookup, and with a freshly built header. Each send path returns the
    `Outcome` of trying to send one packet; the ARP table is only read. */
module Ipv4 {
  import opened Bytes
  import opened Wrappers
  import opened Net
  import Checksum
  import Ethernet
  import Radix
  import Arp

  const IP_HEADER_LEN := 20
  const IP_ADDRESS_LIMITED_BROADCAST: u32 := 0xffff_ffff
  const IP_PROTOCOL_NUM_ICMP: u8 := 0x01
  const IP_PROTOCOL_NUM_TCP: u8 := 0x06
  const IP_PROTOCOL_NUM_UDP: u8 := 0x11

  /** `ipHeader`; `headerLen` counts 32-bit words (the IHL field). */
  datatype IpHeader = IpHeader(
    version: u8,
    headerLen: u8,
    tos: u8,
    totalLen: u16,
    identify: u16,
    fragOffset: u16,
    ttl: u8,
    protocol: u8,
    headerChecksum: u16,
    srcAddr: u32,
    destAddr: u32)

  /** A header whose version and length fit their 4-bit fields. */
  predicate Representable(h: IpHeader)
  {
    h.version < 16 && h.headerLen < 16
  }

  /** The 20 bytes `ipHeader.ToPacket` writes before any checksum is set:
      byte 0 is `version<<4 + headerLen` in 8-bit arithmetic, then the other
      fields in order, big-endian. */
  function Serialize(h: IpHeader): (r: seq<u8>)
    ensures |r| == IP_HEADER_LEN
    ensures Representable(h) ==> Parse(r) == h
  {
    var b0: u8 := (h.version * 16 % 0x100 + h.headerLen) % 0x100;
    var r: seq<u8> := [b0, h.tos] + U16ToBytes(h.totalLen)
      + U16ToBytes(h.identify) + U16ToBytes(h.fragOffset) + [h.ttl, h.protocol]
      + U16ToBytes(h.headerChecksum) + U32ToBytes(h.srcAddr) + U32ToBytes(h.destAddr);
    FirstByteFields(h.version, h.headerLen);
    assert r[2..4] == U16ToBytes(h.totalLen);
    assert r[4..6] == U16ToBytes(h.identify);
    assert r[6..8] == U16ToBytes(h.fragOffset);
    assert r[10..12] == U16ToBytes(h.headerChecksum);
    assert r[12..16] == U32ToBytes(h.srcAddr);
    assert r[16..20] == U32ToBytes(h.destAddr);
    r
  }

  /** Byte 0 carries the version in its high nibble and the length in its
      low one. */
  lemma FirstByteFields(version: u8, headerLen: u8)
    ensures version < 16 && headerLen < 16 ==>
      var b0 := (version * 16 % 0x100 + headerLen) % 0x100;
      b0 / 16 == version && b0 % 16 == headerLen
  {
    if version < 16 && headerLen < 16 {
      assert version * 16 <= 15 * 16;
      assert version * 16 % 0x100 == version * 16;
      assert (version * 16 + headerLen) / 16 == version;
    }
  }

  /** Parsing reads only the first 20 bytes. */
  lemma ParseReadsHeader(p: seq<u8>)
    requires |p| >= IP_HEADER_LEN
    ensures Parse(p) == Parse(p[..IP_HEADER_LEN])
  {
    var q := p[..IP_HEADER_LEN];
    assert p[2..4] == q[2..4] && p[4..6] == q[4..6] && p[6..8] == q[6..8] && p[10..12] == q[10..12];
    assert p[12..16] == q[12..16] && p[16..20] == q[16..20];
  }

  /** The header fields read from the first 20 bytes, with the 4-bit IHL in
      `headerLen`. (ip.go:127 keeps only 3 bits of it; see `HeaderLenAsWritten`.) */
  function Parse(p: seq<u8>): IpHeader
    requires |p| >= IP_HEADER_LEN
  {
    IpHeader(p[0] / 16, p[0] % 16, p[1], BytesToU16(p[2..4]), BytesToU16(p[4..6]), BytesToU16(p[6..8]),
      p[8], p[9], BytesToU16(p[10..12]), BytesToU32(p[12..16]), BytesToU32(p[16..20]))
  }

  /** Parsing 20 bytes and writing the header back gives the same bytes. */
  lemma SerializeParse(p: seq<u8>)
    requires |p| >= IP_HEADER_LEN
    ensures Serialize(Parse(p)) == p[..IP_HEADER_LEN]
  {
    U16BytesInverse(p[2..4]);
    U16BytesInverse(p[4..6]);
    U16BytesInverse(p[6..8]);
    U16BytesInverse(p[10..12]);
    U32BytesInverse(p[12..16]);
    U32BytesInverse(p[16..20]);
    assert p[..IP_HEADER_LEN] == [p[0], p[1]] + p[2..4] + p[4..6] + p[6..8] + [p[8], p[9]]
      + p[10..12] + p[12..16] + p[16..20];
  }

  /** `packet[0] << 5 >> 5` on a byte, as written at ip.go:127: the low three
      bits of byte 0. */
  function HeaderLenAsWritten(b0: u8): (r: u8)
    ensures r < 8 && r == b0 % 8
  {
    (b0 * 32 % 0x100) / 32
  }

  /** The as-written header length loses the top bit of the IHL: a header of
      13 words (byte 0 = 0x4d, 32 bytes of options) reads as 5 words and
      passes the "no options" test `20 < headerLen * 4`, while the IHL read
      in full, as `Parse` does, is 13 and fails it. */
  lemma OptionsHeaderPassesAsWritten()
    ensures HeaderLenAsWritten(0x4d) == 5 && !(20 < HeaderLenAsWritten(0x4d) * 4)
    ensures var p: seq<u8> := [0x4d] + seq(19, _ => 0); Parse(p).headerLen == 13 && 20 < Parse(p).headerLen * 4
  {
  }

  /** Every representable header length comes back from a serialized header
      unchanged, which the as-written reading guarantees only below 8. */
  lemma HeaderLenRoundTrip(h: IpHeader)
    requires Representable(h)
    ensures Parse(Serialize(h)).headerLen == h.headerLen
    ensures HeaderLenAsWritten(Serialize(h)[0]) == h.headerLen <==> h.headerLen < 8
  {
  }

  /** `ipHeader.ToPacket(calc)`: the serialized header; with `calc` (`withChecksum`), bytes 10
      and 11 are then overwritten with the checksum of those 20 bytes,
      whatever the checksum field held. */
  function ToPacket(h: IpHeader, withChecksum: bool): (r: seq<u8>)
    ensures |r| == IP_HEADER_LEN
    ensures !withChecksum ==> r == Serialize(h)
    ensures withChecksum ==> r[..10] == Serialize(h)[..10] && r[12..] == Serialize(h)[12..]
    ensures withChecksum ==> r[10..12] == Checksum.CalcChecksum(Serialize(h))
  {
    var b := Serialize(h);
    if withChecksum then Checksum.Splice(b, 10, Checksum.CalcChecksum(b)) else b
  }

  /** A header serialized with a zero checksum field and `calc` set passes the
      receiver's checksum test exactly when one carry fold of its word sum
      leaves no carry; in that case checksumming it again gives zero. */
  lemma ToPacketVerifies(h: IpHeader)
    requires h.headerChecksum == 0
    ensures Checksum.Verifies(ToPacket(h, true)) <==> Checksum.OneFoldSuffices(Serialize(h))
    ensures Checksum.OneFoldSuffices(Serialize(h)) ==> Checksum.CalcChecksum(ToPacket(h, true)) == [0, 0]
  {
    var b := Serialize(h);
    assert b[10..12] == U16ToBytes(0);
    Checksum.CalcChecksumVerifies(b, 10);
    if Checksum.OneFoldSuffices(b) {
      Checksum.ChecksumVerifiesWithoutSecondCarry(b, 10);
    }
  }

  /** Setting the checksum field of a header writes its two bytes at offset
      10 and changes nothing else. */
  lemma SerializeWithChecksum(h: IpHeader, c: u16)
    ensures Serialize(h)[10..12] == U16ToBytes(h.headerChecksum)
    ensures Serialize(h.(headerChecksum := c)) == Checksum.Splice(Serialize(h), 10, U16ToBytes(c))
  {
    var b0: u8 := (h.version * 16 % 0x100 + h.headerLen) % 0x100;
    var front: seq<u8> := [b0, h.tos] + U16ToBytes(h.totalLen) + U16ToBytes(h.identify)
      + U16ToBytes(h.fragOffset) + [h.ttl, h.protocol];
    var back := U32ToBytes(h.srcAddr) + U32ToBytes(h.destAddr);
    assert |front| == 10;
    assert Serialize(h) == front + U16ToBytes(h.headerChecksum) + back;
    assert Serialize(h.(headerChecksum := c)) == front + U16ToBytes(c) + back;
    assert Serialize(h)[..10] == front;
    assert Serialize(h)[12..] == back;
  }

  /** Parsing what `ToPacket(h, true)` wrote gives a representable `h` back
      with its checksum field set to the computed checksum. */
  lemma ToPacketParse(h: IpHeader)
    ensures Representable(h) ==> Parse(ToPacket(h, true)) == h.(headerChecksum := BytesToU16(Checksum.CalcChecksum(Serialize(h))))
  {
    var b := Serialize(h);
    var r := ToPacket(h, true);
    assert r[..10] == b[..10];
    assert r[12..] == b[12..];
    assert r[2..4] == b[2..4] && r[4..6] == b[4..6] && r[6..8] == b[6..8];
    assert r[12..16] == b[12..16] && r[16..20] == b[16..20];
  }

  /** `IsPrefixLen(netmask, n)`: the first `n` bits of the mask are ones and
      bit `n + 1`, if there is one, is zero. */
  predicate IsPrefixLen(netmask: u32, n: nat)
  {
    n <= 32 && (forall i :: 1 <= i <= n ==> Bit(netmask, i)) && (n < 32 ==> !Bit(netmask, n + 1))
  }

  /** A mask has exactly one prefix length. */
  lemma PrefixLenUnique(netmask: u32, m: nat, n: nat)
    requires IsPrefixLen(netmask, m) && IsPrefixLen(netmask, n)
    ensures m == n
  {
  }

  /** `subnetToPrefixLen`: counts the leading one bits of the mask, stopping
      at the first zero. */
  method SubnetToPrefixLen(netmask: u32) returns (prefixlen: u32)
    ensures IsPrefixLen(netmask, prefixlen)
  {
    prefixlen := 0;
    while prefixlen < 32
      invariant prefixlen <= 32
      invariant forall i :: 1 <= i <= prefixlen ==> Bit(netmask, i)
    {
      if !Bit(netmask, prefixlen + 1) {
        break;
      }
      prefixlen := prefixlen + 1;
    }
  }

  /** The mask 0xffffff00 has prefix length 24. */
  lemma Slash24PrefixLen()
    ensures IsPrefixLen(0xffff_ff00, 24)
  {
    var m: u32 := 0xffff_ff00;
    assert Bit(m, 1) && Bit(m, 2) && Bit(m, 3) && Bit(m, 4) && Bit(m, 5) && Bit(m, 6);
    assert Bit(m, 7) && Bit(m, 8) && Bit(m, 9) && Bit(m, 10) && Bit(m, 11) && Bit(m, 12);
    assert Bit(m, 13) && Bit(m, 14) && Bit(m, 15) && Bit(m, 16) && Bit(m, 17) && Bit(m, 18);
    assert Bit(m, 19) && Bit(m, 20) && Bit(m, 21) && Bit(m, 22) && Bit(m, 23) && Bit(m, 24);
    assert !Bit(m, 25);
    forall i | 1 <= i <= 24 ensures Bit(m, i) {
      assert i in {1, 2, 3, 4, 5, 6, 7, 8, 9, 10, 11, 12, 13, 14, 15, 16, 17, 18, 19, 20, 21, 22, 23, 24};
    }
  }

  /** The directed broadcast address of `getIPdevice`, `address | ^netmask`,
      on 32-bit words: it keeps the network bits of the address and sets
      every host bit. */
  function DirectedBroadcast(address: bv32, netmask: bv32): (r: bv32)
    ensures r & netmask == address & netmask
    ensures r | netmask == 0xffff_ffff
  {
    address | !netmask
  }

  /** Those two facts pin the broadcast address down: it is the only address
      with the device's network bits and all host bits set. */
  lemma BroadcastUnique(address: bv32, netmask: bv32, b: bv32)
    requires b & netmask == address & netmask
    requires b | netmask == 0xffff_ffff
    ensures b == DirectedBroadcast(address, netmask)
  {
  }

  /** `DirectedBroadcast` on the router's integer addresses. */
  function Broadcast(address: u32, netmask: u32): u32
  {
    DirectedBroadcast(address as bv32, netmask as bv32) as int
  }

  /** `ipPacketOutputToHost`: with an ARP entry for the destination the packet
      goes out in a frame to that MAC; without one only an ARP request is
      sent. A nil device is dereferenced on either path. */
  function OutputToHost(arp: Arp.ArpTable, dev: Option<NetDevice>, destAddr: u32, packet: seq<u8>): (r: Outcome)
    ensures dev.None? ==> r == NilDevice
    ensures dev.Some? && Arp.SearchArpTableEntry(arp, destAddr).0 == ZERO_MAC ==> r == ArpRequest(dev.value, destAddr)
    ensures dev.Some? && Arp.SearchArpTableEntry(arp, destAddr).0 != ZERO_MAC ==>
      && r.Transmit? && r.dev == dev.value
      && |r.frame| == Ethernet.ETHERNET_HEADER_LEN + |packet|
      && Ethernet.Parse(r.frame) == Ethernet.EthernetHeader(Arp.SearchArpTableEntry(arp, destAddr).0, dev.value.macaddr, Ethernet.ETHER_TYPE_IP)
      && r.frame[Ethernet.ETHERNET_HEADER_LEN..] == packet
  {
    var (destMacAddr, _) := Arp.SearchArpTableEntry(arp, destAddr);
    match dev
    case None => NilDevice
    case Some(d) =>
      if destMacAddr == ZERO_MAC then ArpRequest(d, destAddr)
      else Transmit(d, Ethernet.EthernetOutput(d, destMacAddr, packet, Ethernet.ETHER_TYPE_IP))
  }

  /** `ipPacketOutputToNetxhop`: with an ARP entry for the next hop the packet
      goes out on the device that entry was learned on; without one, an ARP
      request is sent only when the next hop itself has a connected route. */
  function OutputToNexthop(arp: Arp.ArpTable, routes: Radix.Trie, nextHop: u32, packet: seq<u8>): (r: Outcome)
    ensures Arp.SearchArpTableEntry(arp, nextHop).0 != ZERO_MAC ==>
      && r.Transmit?
      && Some(r.dev) == Arp.SearchArpTableEntry(arp, nextHop).1
      && |r.frame| == Ethernet.ETHERNET_HEADER_LEN + |packet|
      && Ethernet.Parse(r.frame) == Ethernet.EthernetHeader(Arp.SearchArpTableEntry(arp, nextHop).0, r.dev.macaddr, Ethernet.ETHER_TYPE_IP)
      && r.frame[Ethernet.ETHERNET_HEADER_LEN..] == packet
    ensures Arp.SearchArpTableEntry(arp, nextHop).0 == ZERO_MAC ==>
      var route := Radix.Search(routes, nextHop);
      && (route == ZERO_ROUTE || route.iptype != Connected ==> r == Drop)
      && (route != ZERO_ROUTE && route.iptype == Connected ==>
            r == if route.netdev.Some? then ArpRequest(route.netdev.value, nextHop) else NilDevice)
  {
    var (destMacAddr, dev) := Arp.SearchArpTableEntry(arp, nextHop);
    if destMacAddr == ZERO_MAC then
      var routeToNexthop := Radix.Search(routes, nextHop);
      if routeToNexthop == ZERO_ROUTE || routeToNexthop.iptype != Connected then Drop
      else match routeToNexthop.netdev
        case None => NilDevice
        case Some(d) => ArpRequest(d, nextHop)
    else
      match dev
      case Some(d) => Transmit(d, Ethernet.EthernetOutput(d, destMacAddr, packet, Ethernet.ETHER_TYPE_IP))
      case None => NilDevice
  }

  /** `ipPacketOutput`: a connected route, and also no route at all (the zero
      entry has type `connected`), takes the host path on `outputdev`; a
      network route takes the next-hop path, resolving the destination
      itself rather than the route's next hop. */
  function IpPacketOutput(arp: Arp.ArpTable, routes: Radix.Trie, outputdev: NetDevice, destAddr: u32, packet: seq<u8>): (r: Outcome)
    ensures Radix.Search(routes, destAddr).iptype == Connected ==> r == OutputToHost(arp, Some(outputdev), destAddr, packet)
    ensures Radix.Search(routes, destAddr).iptype == Network ==> r == OutputToNexthop(arp, routes, destAddr, packet)
  {
    var route := Radix.Search(routes, destAddr);
    if route.iptype == Connected then OutputToHost(arp, Some(outputdev), destAddr, packet)
    else OutputToNexthop(arp, routes, destAddr, packet)
  }

  /** A destination with no route is still sent on the host path. */
  lemma NoRouteIsNotDropped(arp: Arp.ArpTable, routes: Radix.Trie, outputdev: NetDevice, destAddr: u32, packet: seq<u8>)
    requires Radix.Search(routes, destAddr) == ZERO_ROUTE
    ensures IpPacketOutput(arp, routes, outputdev, destAddr, packet) != Drop
  {
  }

  /** The header `ipPacketEncapsulateOutput` builds: version 4, 5 words, the
      total length in 16 bits, identification 0xf80c, don't-fragment
      (`2 << 13`), TTL 64. */
  function EncapsulationHeader(destAddr: u32, srcAddr: u32, payloadLen: nat, protocolType: u8): IpHeader
  {
    IpHeader(4, IP_HEADER_LEN / 4, 0, (IP_HEADER_LEN + payloadLen) % 0x1_0000, 0xf80c, 2 * 0x2000, 0x40,
      protocolType, 0, srcAddr, destAddr)
  }

  /** A header written with `ToPacket(h, true)` from a zero checksum field,
      then a payload: the header verifies exactly when one carry fold
      suffices for it, parses back to `h` apart from the checksum field, and
      the payload follows it unchanged. */
  function Packet(h: IpHeader, payload: seq<u8>): (ip: seq<u8>)
    requires Representable(h) && h.headerChecksum == 0
    ensures |ip| == IP_HEADER_LEN + |payload|
    ensures Checksum.Verifies(ip[..IP_HEADER_LEN]) <==> Checksum.OneFoldSuffices(Serialize(h))
    ensures Parse(ip).(headerChecksum := 0) == h
    ensures ip[IP_HEADER_LEN..] == payload
  {
    ToPacketVerifies(h);
    ToPacketParse(h);
    var ip := ToPacket(h, true) + payload;
    assert ip[..IP_HEADER_LEN] == ToPacket(h, true);
    ParseReadsHeader(ip);
    ip
  }

  /** The IP packet `ipPacketEncapsulateOutput` builds: the encapsulation
      header with its checksum set, then the payload. The header verifies
      exactly when one carry fold suffices for it. */
  function EncapsulatedPacket(destAddr: u32, srcAddr: u32, payload: seq<u8>, protocolType: u8): (ip: seq<u8>)
    ensures |ip| == IP_HEADER_LEN + |payload|
    ensures Checksum.Verifies(ip[..IP_HEADER_LEN])
      <==> Checksum.OneFoldSuffices(Serialize(EncapsulationHeader(destAddr, srcAddr, |payload|, protocolType)))
    ensures Parse(ip).(headerChecksum := 0) == EncapsulationHeader(destAddr, srcAddr, |payload|, protocolType)
    ensures ip[IP_HEADER_LEN..] == payload
  {
    Packet(EncapsulationHeader(destAddr, srcAddr, |payload|, protocolType), payload)
  }

  /** `ipPacketEncapsulateOutput`: sends the encapsulated packet on
      `inputdev` to the destination's MAC, or sends an ARP request when the
      destination is not in the table. */
  function IpPacketEncapsulateOutput(arp: Arp.ArpTable, inputdev: NetDevice, destAddr: u32, srcAddr: u32,
                                     payload: seq<u8>, protocolType: u8): (r: Outcome)
    ensures Arp.SearchArpTableEntry(arp, destAddr).0 == ZERO_MAC ==> r == ArpRequest(inputdev, destAddr)
    ensures Arp.SearchArpTableEntry(arp, destAddr).0 != ZERO_MAC ==>
      && r.Transmit? && r.dev == inputdev
      && |r.frame| == Ethernet.ETHERNET_HEADER_LEN + IP_HEADER_LEN + |payload|
      && Ethernet.Parse(r.frame) == Ethernet.EthernetHeader(Arp.SearchArpTableEntry(arp, destAddr).0, inputdev.macaddr, Ethernet.ETHER_TYPE_IP)
      && r.frame[Ethernet.ETHERNET_HEADER_LEN..] == EncapsulatedPacket(destAddr, srcAddr, payload, protocolType)
  {
    var ipPacket := EncapsulatedPacket(destAddr, srcAddr, payload, protocolType);
    var (destMacAddr, _) := Arp.SearchArpTableEntry(arp, destAddr);
    if destMacAddr != ZERO_MAC then Transmit(inputdev, Ethernet.EthernetOutput(inputdev, destMacAddr, ipPacket, Ethernet.ETHER_TYPE_IP))
    else ArpRequest(inputdev, destAddr)
  }

  /** The encapsulation header announces the full packet length whenever it
      fits in 16 bits. */
  lemma EncapsulationTotalLen(destAddr: u32, srcAddr: u32, payloadLen: nat, protocolType: u8)
    requires IP_HEADER_LEN + payloadLen < 0x1_0000
    ensures EncapsulationHeader(destAddr, srcAddr, payloadLen, protocolType).totalLen == IP_HEADER_LEN + payloadLen
    ensures Parse(Serialize(EncapsulationHeader(destAddr, srcAddr, payloadLen, protocolType))).headerLen * 4 == IP_HEADER_LEN
  {
  }
}
