/** NAT64 for ICMP echo (nat64.go), a simplified form of sections 4.1 and 5.1
    of RFC 7915: the header translations in both directions and the two
    translation paths, IPv6 to IPv4 for requests and IPv4 to IPv6 for
    replies, which meet in the NAT64 entry table.

    Functions nat64.go calls but that are not part of this model are
    parameters: the random identification (`rand.Intn`), `ToICMPv4Packet`,
    `getIcmpv4Identify`, `byteToUint64`, `radixTreeSearchv6`,
    `ipv6Header.ToPacket`, `ToICMPv6ReplayPacket` and `ipv6PacketOutputToHost`
    (whose call is returned instead of made). */
module Nat64 {
  import opened Bytes
  import opened Wrappers
  import opened Net
  import opened Nat64Table
  import Ipv4
  import Ipv6
  import Icmp
  import Icmpv6
  import Arp
  import Radix
  import Checksum
  import Ethernet

  /** `ipv6HeaderToipv4Header`: version 4, five words, no TOS or fragment
      bits, zero checksum; the total length is the payload length plus 20
      and the TTL the hop limit minus 1, both in their own width; the
      protocol is ICMP for ICMPv6 and 0 for anything else. `identify` is the
      random identification. */
  function Ipv6HeaderToIpv4Header(h6: Ipv6.Ipv6Header, srcAddr: u32, destAddr: u32, identify: u16): (h4: Ipv4.IpHeader)
    ensures Ipv4.Representable(h4) && h4.headerChecksum == 0 && h4.identify == identify
    ensures h4.srcAddr == srcAddr && h4.destAddr == destAddr
    ensures h4.protocol == Ipv4.IP_PROTOCOL_NUM_ICMP <==> h6.nextHeader == Ipv6.IP_PROTOCOL_NUM_ICMPV6
  {
    Ipv4.IpHeader(4, 20 / 4, 0, (h6.headerLen + 20) % 0x1_0000, identify, 0, (h6.hoplimit - 1) % 0x100,
      if h6.nextHeader == Ipv6.IP_PROTOCOL_NUM_ICMPV6 then Ipv4.IP_PROTOCOL_NUM_ICMP else 0,
      0, srcAddr, destAddr)
  }

  /** `ipv4HeaderToipv6Header`: version 6, zero traffic class and flow
      label, payload length the total length minus 20 and hop limit the TTL
      minus 1, both in their own width; the next header is ICMPv6 for ICMP
      and 0 for anything else. */
  function Ipv4HeaderToIpv6Header(h4: Ipv4.IpHeader, srcAddr: Ipv6Addr, destAddr: Ipv6Addr): (h6: Ipv6.Ipv6Header)
    ensures h6.version == 6 && h6.trafficClass == 0 && h6.flowLabel == 0
    ensures h6.srcAddr == srcAddr && h6.destAddr == destAddr
    ensures h6.nextHeader == Ipv6.IP_PROTOCOL_NUM_ICMPV6 <==> h4.protocol == Ipv4.IP_PROTOCOL_NUM_ICMP
  {
    Ipv6.Ipv6Header(6, 0, 0, (h4.totalLen - 20) % 0x1_0000,
      if h4.protocol == Ipv4.IP_PROTOCOL_NUM_ICMP then Ipv6.IP_PROTOCOL_NUM_ICMPV6 else 0,
      (h4.ttl - 1) % 0x100, srcAddr, destAddr)
  }

  /** Translating IPv6 to IPv4 and back restores the payload length and
      whether the payload is ICMP, and lowers the hop limit by exactly two
      (mod 256). */
  lemma V6ToV4ToV6(h6: Ipv6.Ipv6Header, s4: u32, d4: u32, identify: u16, s6: Ipv6Addr, d6: Ipv6Addr)
    ensures var back := Ipv4HeaderToIpv6Header(Ipv6HeaderToIpv4Header(h6, s4, d4, identify), s6, d6);
      && back.headerLen == h6.headerLen
      && back.hoplimit == (h6.hoplimit - 2) % 0x100
      && (back.nextHeader == Ipv6.IP_PROTOCOL_NUM_ICMPV6 <==> h6.nextHeader == Ipv6.IP_PROTOCOL_NUM_ICMPV6)
  {
    var h4 := Ipv6HeaderToIpv4Header(h6, s4, d4, identify);
    assert (h4.totalLen - 20) % 0x1_0000 == h6.headerLen by {
      assert h4.totalLen == (h6.headerLen + 20) % 0x1_0000;
    }
    assert (h4.ttl - 1) % 0x100 == (h6.hoplimit - 2) % 0x100 by {
      assert h4.ttl == (h6.hoplimit - 1) % 0x100;
    }
  }

  /** Translating IPv4 to IPv6 and back restores the total length and
      whether the payload is ICMP, and lowers the TTL by exactly two. */
  lemma V4ToV6ToV4(h4: Ipv4.IpHeader, s6: Ipv6Addr, d6: Ipv6Addr, s4: u32, d4: u32, identify: u16)
    ensures var back := Ipv6HeaderToIpv4Header(Ipv4HeaderToIpv6Header(h4, s6, d6), s4, d4, identify);
      && back.totalLen == h4.totalLen
      && back.ttl == (h4.ttl - 2) % 0x100
      && (back.protocol == Ipv4.IP_PROTOCOL_NUM_ICMP <==> h4.protocol == Ipv4.IP_PROTOCOL_NUM_ICMP)
  {
    var h6 := Ipv4HeaderToIpv6Header(h4, s6, d6);
    assert (h6.headerLen + 20) % 0x1_0000 == h4.totalLen by {
      assert h6.headerLen == (h4.totalLen - 20) % 0x1_0000;
    }
    assert (h6.hoplimit - 1) % 0x100 == (h4.ttl - 2) % 0x100 by {
      assert h6.hoplimit == (h4.ttl - 1) % 0x100;
    }
  }

  /** The ICMPv6 message `natICMP6to4` decodes: header and echo body. */
  datatype Icmpv6Message = Icmpv6Message(icmpType: u8, icmpCode: u8, checksum: u16, echo: Icmpv6.Echo)

  /** The zero message, left as it is when the payload is not ICMPv6. */
  const ZERO_ICMPV6_MESSAGE := Icmpv6Message(0, 0, 0, Icmpv6.Echo(0, 0, []))

  /** The IPv4 destination embedded in an IPv6 destination: its last 4 bytes. */
  function EmbeddedIpv4(addr: Ipv6Addr): u32
  {
    BytesToU32(addr[12..16])
  }

  /** The effect of one `natICMP6to4` call: the NAT64 table of the outgoing
      device after it (`Some` only when an entry was created in it) and what
      is sent. */
  datatype Nat6to4Step = Nat6to4Step(table: Option<Nat64EntryList>, outcome: Outcome)

  /** `natICMP6to4`: routes on the embedded IPv4 destination (no route drops
      the packet and records nothing), builds the IPv4 header with the
      outgoing device's address as source and the translated ICMP message
      after it, and with an ARP entry for the destination records the
      exchange in the device's NAT64 table and sends the packet; without
      one it only sends an ARP request. A nil device or table is
      dereferenced (`NilDevice`), and an ICMPv6 payload shorter than the
      echo header is sliced past its end (`OutOfRange`). */
  function NatIcmp6to4(routes: Radix.Trie, arp: Arp.ArpTable, h6: Ipv6.Ipv6Header, packet: seq<u8>, identify: u16,
                       toIcmpv4: Icmpv6Message -> seq<u8>, icmpv4Identify: Icmpv6Message -> u16): (r: Nat6to4Step)
    ensures Radix.Search(routes, EmbeddedIpv4(h6.destAddr)) == ZERO_ROUTE ==> r == Nat6to4Step(None, Drop)
    ensures (Radix.Search(routes, EmbeddedIpv4(h6.destAddr)) != ZERO_ROUTE
      && Radix.Search(routes, EmbeddedIpv4(h6.destAddr)).netdev.None?) ==> r == Nat6to4Step(None, NilDevice)
    ensures (Radix.Search(routes, EmbeddedIpv4(h6.destAddr)).netdev.Some?
      && h6.nextHeader == Ipv6.IP_PROTOCOL_NUM_ICMPV6 && |packet| < Icmpv6.ECHO_FIXED_LEN) ==> r == Nat6to4Step(None, OutOfRange)
    ensures (Radix.Search(routes, EmbeddedIpv4(h6.destAddr)) != ZERO_ROUTE
      && Radix.Search(routes, EmbeddedIpv4(h6.destAddr)).netdev.Some?
      && (h6.nextHeader == Ipv6.IP_PROTOCOL_NUM_ICMPV6 ==> |packet| >= Icmpv6.ECHO_FIXED_LEN)) ==>
      var dev := Radix.Search(routes, EmbeddedIpv4(h6.destAddr)).netdev.value;
      && (Arp.SearchArpTableEntry(arp, EmbeddedIpv4(h6.destAddr)).0 == ZERO_MAC ==>
            r == Nat6to4Step(None, ArpRequest(dev, EmbeddedIpv4(h6.destAddr))))
      && (Arp.SearchArpTableEntry(arp, EmbeddedIpv4(h6.destAddr)).0 != ZERO_MAC && dev.ipdev.natdev.nat64Entry.None? ==>
            r == Nat6to4Step(None, NilDevice))
      && (Arp.SearchArpTableEntry(arp, EmbeddedIpv4(h6.destAddr)).0 != ZERO_MAC && dev.ipdev.natdev.nat64Entry.Some? ==>
            && r.table == Some(CreateNat64IcmpEntry(dev.ipdev.natdev.nat64Entry.value,
                 Nat64Entry(EmbeddedIpv4(h6.destAddr), h6.srcAddr, h6.destAddr, icmpv4Identify(MessageOf(h6, packet)))).0)
            && r.outcome.Transmit? && r.outcome.dev == dev)
    ensures r.table.Some? ==> r.outcome.Transmit? && Arp.SearchArpTableEntry(arp, EmbeddedIpv4(h6.destAddr)).0 != ZERO_MAC
    ensures r.outcome.Transmit? ==>
      && Radix.Search(routes, EmbeddedIpv4(h6.destAddr)).netdev == Some(r.outcome.dev)
      && (h6.nextHeader == Ipv6.IP_PROTOCOL_NUM_ICMPV6 ==> |packet| >= Icmpv6.ECHO_FIXED_LEN)
      && |r.outcome.frame| >= Ethernet.ETHERNET_HEADER_LEN
      && Ethernet.Parse(r.outcome.frame).destAddr == Arp.SearchArpTableEntry(arp, EmbeddedIpv4(h6.destAddr)).0
      && r.outcome.frame[Ethernet.ETHERNET_HEADER_LEN..] == TranslatedRequest(h6, r.outcome.dev, packet, identify, toIcmpv4)
  {
    var destIpv4Addr := EmbeddedIpv4(h6.destAddr);
    var route := Radix.Search(routes, destIpv4Addr);
    if route == ZERO_ROUTE then Nat6to4Step(None, Drop)
    else match route.netdev
      case None => Nat6to4Step(None, NilDevice)
      case Some(dev) =>
        if h6.nextHeader == Ipv6.IP_PROTOCOL_NUM_ICMPV6 && |packet| < Icmpv6.ECHO_FIXED_LEN then Nat6to4Step(None, OutOfRange)
        else
          var icmpmsg := MessageOf(h6, packet);
          var ipPacket := TranslatedRequest(h6, dev, packet, identify, toIcmpv4);
          var destMacAddr := Arp.SearchArpTableEntry(arp, destIpv4Addr).0;
          if destMacAddr != ZERO_MAC then
            match dev.ipdev.natdev.nat64Entry
            case None => Nat6to4Step(None, NilDevice)
            case Some(t) =>
              var e := Nat64Entry(destIpv4Addr, h6.srcAddr, h6.destAddr, icmpv4Identify(icmpmsg));
              Nat6to4Step(Some(CreateNat64IcmpEntry(t, e).0),
                Transmit(dev, Ethernet.EthernetOutput(dev, destMacAddr, ipPacket, Ethernet.ETHER_TYPE_IP)))
          else Nat6to4Step(None, ArpRequest(dev, destIpv4Addr))
  }

  /** The ICMPv6 echo message of an ICMPv6 payload, or the zero message. */
  function MessageOf(h6: Ipv6.Ipv6Header, packet: seq<u8>): Icmpv6Message
    requires h6.nextHeader == Ipv6.IP_PROTOCOL_NUM_ICMPV6 ==> |packet| >= Icmpv6.ECHO_FIXED_LEN
  {
    if h6.nextHeader == Ipv6.IP_PROTOCOL_NUM_ICMPV6 then
      Icmpv6Message(packet[0], packet[1], BytesToU16(packet[2..4]), Icmpv6.EchoOf(packet))
    else ZERO_ICMPV6_MESSAGE
  }

  /** The IPv4 packet `natICMP6to4` builds for device `dev`: the translated
      header with its checksum set, then the translated ICMP message. */
  function TranslatedRequest(h6: Ipv6.Ipv6Header, dev: NetDevice, packet: seq<u8>, identify: u16,
                             toIcmpv4: Icmpv6Message -> seq<u8>): seq<u8>
    requires h6.nextHeader == Ipv6.IP_PROTOCOL_NUM_ICMPV6 ==> |packet| >= Icmpv6.ECHO_FIXED_LEN
  {
    Ipv4.Packet(Ipv6HeaderToIpv4Header(h6, dev.ipdev.address, EmbeddedIpv4(h6.destAddr), identify), toIcmpv4(MessageOf(h6, packet)))
  }

  /** A translated request leaves as an IPv4 packet from the outgoing
      device's address to the embedded destination, with a header checksum
      that verifies exactly when one carry fold suffices, its TTL one below the hop limit, the protocol ICMP exactly
      when the payload was ICMPv6, and the translated ICMP message after the
      header. */
  lemma TranslatedRequestHeader(h6: Ipv6.Ipv6Header, dev: NetDevice, packet: seq<u8>, identify: u16,
                                toIcmpv4: Icmpv6Message -> seq<u8>)
    requires h6.nextHeader == Ipv6.IP_PROTOCOL_NUM_ICMPV6 ==> |packet| >= Icmpv6.ECHO_FIXED_LEN
    ensures var ip := TranslatedRequest(h6, dev, packet, identify, toIcmpv4);
      && |ip| >= Ipv4.IP_HEADER_LEN
      && (Checksum.Verifies(ip[..Ipv4.IP_HEADER_LEN])
          <==> Checksum.OneFoldSuffices(Ipv4.Serialize(Ipv6HeaderToIpv4Header(h6, dev.ipdev.address, EmbeddedIpv4(h6.destAddr), identify))))
      && Ipv4.Parse(ip).srcAddr == dev.ipdev.address
      && Ipv4.Parse(ip).destAddr == EmbeddedIpv4(h6.destAddr)
      && Ipv4.Parse(ip).ttl == (h6.hoplimit - 1) % 0x100
      && (Ipv4.Parse(ip).protocol == Ipv4.IP_PROTOCOL_NUM_ICMP <==> h6.nextHeader == Ipv6.IP_PROTOCOL_NUM_ICMPV6)
      && ip[Ipv4.IP_HEADER_LEN..] == toIcmpv4(MessageOf(h6, packet))
  {
    var h4 := Ipv6HeaderToIpv4Header(h6, dev.ipdev.address, EmbeddedIpv4(h6.destAddr), identify);
    var ip := TranslatedRequest(h6, dev, packet, identify, toIcmpv4);
    assert Ipv4.Parse(ip).(headerChecksum := 0) == h4;
  }

  /** What `natICMP4to6` makes the router do: nothing, a nil dereference,
      or a call of `ipv6PacketOutputToHost(dev, header, packet)`. */
  datatype V6Output =
    | V6Drop
    | V6NilDevice
    | V6OutputToHost(dev: Option<NetDevice>, header: Ipv6.Ipv6Header, packet: seq<u8>)

  /** `natICMP4to6`: looks the reply up by its IPv4 source and ICMP
      identifier in the receiving device's NAT64 table, routes on the first
      8 bytes of the recorded IPv6 source (no route drops), and on a
      connected route sends an IPv6 packet back from the recorded IPv6
      destination to the recorded IPv6 source. A missing entry is not a
      drop: the empty entry is used. A network route sends nothing. */
  function NatIcmp4to6(inputdev: NetDevice, h4: Ipv4.IpHeader, icmpmsg: Icmp.IcmpMessage,
                       byteToUint64: seq<u8> -> u64, searchv6: u64 -> RouteEntry,
                       ipv6ToPacket: Ipv6.Ipv6Header -> seq<u8>,
                       toIcmpv6Reply: (Icmp.IcmpMessage, Ipv6Addr, Ipv6Addr) -> seq<u8>): (r: V6Output)
    ensures inputdev.ipdev.natdev.nat64Entry.None? ==> r == V6NilDevice
    ensures inputdev.ipdev.natdev.nat64Entry.Some? ==>
      var e := GetNat64IcmpEntry(inputdev.ipdev.natdev.nat64Entry.value, h4.srcAddr, icmpmsg.icmpEcho.identify);
      var route := searchv6(byteToUint64(e.srcipv6Addr[0..8]));
      && (route == ZERO_ROUTE || route.iptype != Connected ==> r == V6Drop)
      && (route != ZERO_ROUTE && route.iptype == Connected ==> r.V6OutputToHost? && r.dev == route.netdev)
    ensures r.V6OutputToHost? ==>
      var e := GetNat64IcmpEntry(inputdev.ipdev.natdev.nat64Entry.value, h4.srcAddr, icmpmsg.icmpEcho.identify);
      && r.header == Ipv4HeaderToIpv6Header(h4, e.destipv6Addr, e.srcipv6Addr)
      && r.packet == ipv6ToPacket(r.header) + toIcmpv6Reply(icmpmsg, e.destipv6Addr, e.srcipv6Addr)
      && searchv6(byteToUint64(e.srcipv6Addr[0..8])).iptype == Connected
      && searchv6(byteToUint64(e.srcipv6Addr[0..8])).netdev == r.dev
  {
    match inputdev.ipdev.natdev.nat64Entry
    case None => V6NilDevice
    case Some(t) =>
      var nat64entry := GetNat64IcmpEntry(t, h4.srcAddr, icmpmsg.icmpEcho.identify);
      var route := searchv6(byteToUint64(nat64entry.srcipv6Addr[0..8]));
      if route == ZERO_ROUTE then V6Drop
      else
        var ipv6header := Ipv4HeaderToIpv6Header(h4, nat64entry.destipv6Addr, nat64entry.srcipv6Addr);
        var ipv6Packet := ipv6ToPacket(ipv6header) + toIcmpv6Reply(icmpmsg, nat64entry.destipv6Addr, nat64entry.srcipv6Addr);
        if route.iptype == Connected then V6OutputToHost(route.netdev, ipv6header, ipv6Packet)
        else V6Drop
  }

  /** The two paths meet: when a request is sent out and recorded in a table
      with a free slot and no entry for the same IPv4 destination and
      identifier, a reply from that destination carrying that identifier,
      arriving on a device holding the updated table, is sent back, whenever
      the requester's network has a connected IPv6 route, on that route's
      device to the IPv6 host that sent the request, from the address it
      sent it to. */
  lemma ReplyReturnsToRequester(routes: Radix.Trie, arp: Arp.ArpTable, h6: Ipv6.Ipv6Header, packet: seq<u8>, identify: u16,
                                toIcmpv4: Icmpv6Message -> seq<u8>, icmpv4Identify: Icmpv6Message -> u16,
                                t: Nat64EntryList, inputdev: NetDevice, h4: Ipv4.IpHeader, icmpmsg: Icmp.IcmpMessage,
                                byteToUint64: seq<u8> -> u64, searchv6: u64 -> RouteEntry,
                                ipv6ToPacket: Ipv6.Ipv6Header -> seq<u8>,
                                toIcmpv6Reply: (Icmp.IcmpMessage, Ipv6Addr, Ipv6Addr) -> seq<u8>)
    requires h6.nextHeader == Ipv6.IP_PROTOCOL_NUM_ICMPV6 ==> |packet| >= Icmpv6.ECHO_FIXED_LEN
    requires Radix.Search(routes, EmbeddedIpv4(h6.destAddr)).netdev.Some?
    requires Radix.Search(routes, EmbeddedIpv4(h6.destAddr)).netdev.value.ipdev.natdev.nat64Entry == Some(t)
    requires var id := icmpv4Identify(MessageOf(h6, packet));
      && (exists j :: 0 <= j < |t.icmp| && t.icmp[j].None?)
      && (forall j :: 0 <= j < |t.icmp| ==> !Matches(t.icmp[j], EmbeddedIpv4(h6.destAddr), id))
    requires NatIcmp6to4(routes, arp, h6, packet, identify, toIcmpv4, icmpv4Identify).table.Some?
    requires inputdev.ipdev.natdev.nat64Entry == NatIcmp6to4(routes, arp, h6, packet, identify, toIcmpv4, icmpv4Identify).table
    requires h4.srcAddr == EmbeddedIpv4(h6.destAddr) && icmpmsg.icmpEcho.identify == icmpv4Identify(MessageOf(h6, packet))
    requires searchv6(byteToUint64(h6.srcAddr[0..8])) != ZERO_ROUTE && searchv6(byteToUint64(h6.srcAddr[0..8])).iptype == Connected
    ensures var out := NatIcmp4to6(inputdev, h4, icmpmsg, byteToUint64, searchv6, ipv6ToPacket, toIcmpv6Reply);
      && out.V6OutputToHost?
      && out.dev == searchv6(byteToUint64(h6.srcAddr[0..8])).netdev
      && out.header.destAddr == h6.srcAddr && out.header.srcAddr == h6.destAddr
  {
    var e := Nat64Entry(EmbeddedIpv4(h6.destAddr), h6.srcAddr, h6.destAddr, icmpv4Identify(MessageOf(h6, packet)));
    CreatedEntryIsFound(t, e);
  }
}
