/** The IPv4 receive path of ip.go: `ipInput` checks the packet, learns the
    sender's MAC address, and either hands the packet to `ipInputToOurs` or
    forwards it with its TTL decremented, translating it first when the
    receiving device does NAPT.

    nat.go's `natExec` is not part of this model: it is a parameter that
    returns the rewritten IP header and transport bytes, or an error. */
module IpInput {
  import opened Bytes
  import opened Wrappers
  import opened Net
  import opened Nat
  import opened Ipv4
  import Arp
  import Radix
  import Checksum
  import Ethernet
  import Icmp

  /** What `natExec` returns: the header it rewrote in place and the new
      transport bytes, or an error. */
  datatype NatResult = NatOk(header: IpHeader, packet: seq<u8>) | NatErr

  /** `natExec(ipheader, packet, natdev, protocol, direction)`. */
  type NatExec = (IpHeader, seq<u8>, NatDevice, NatProtocol, NatDirection) -> NatResult

  /** The global state `ipInput` reads: the device list, the ARP table and
      the routing trie. */
  datatype Router = Router(devices: seq<NetDevice>, arp: Arp.ArpTable, routes: Radix.Trie)

  /** The router owns `dest`: the limited broadcast address, the receiving
      device's address, or the address or directed broadcast address of any
      device. */
  predicate IsOurs(devices: seq<NetDevice>, inputdev: NetDevice, dest: u32)
  {
    || dest == IP_ADDRESS_LIMITED_BROADCAST
    || inputdev.ipdev.address == dest
    || exists i :: 0 <= i < |devices| && (devices[i].ipdev.address == dest || devices[i].ipdev.broadcast == dest)
  }

  /** A device that translates for `dest`: it is configured, does NAT, and
      `dest` is its outside address. */
  predicate TranslatesFor(dev: NetDevice, dest: u32)
  {
    dev.ipdev != ZERO_IPDEV && dev.ipdev.natdev != ZERO_NATDEV && dev.ipdev.natdev.outsideIpAddr == dest
  }

  /** The first device at or after `lo` that translates for `dest`. */
  function NatDeviceFor(devices: seq<NetDevice>, dest: u32, lo: nat): (r: Option<NetDevice>)
    requires lo <= |devices|
    ensures r.None? <==> forall j :: lo <= j < |devices| ==> !TranslatesFor(devices[j], dest)
    ensures r.Some? ==>
      exists i :: lo <= i < |devices| && devices[i] == r.value && TranslatesFor(r.value, dest)
        && forall j :: lo <= j < i ==> !TranslatesFor(devices[j], dest)
    decreases |devices| - lo
  {
    if lo == |devices| then None
    else if TranslatesFor(devices[lo], dest) then Some(devices[lo])
    else NatDeviceFor(devices, dest, lo + 1)
  }

  /** The NAPT protocol for an IP protocol number, when NAPT handles it. */
  function TransportOf(protocol: u8): (r: Option<NatProtocol>)
    ensures r == Some(Udp) <==> protocol == IP_PROTOCOL_NUM_UDP
    ensures r == Some(Tcp) <==> protocol == IP_PROTOCOL_NUM_TCP
    ensures r.None? <==> protocol != IP_PROTOCOL_NUM_UDP && protocol != IP_PROTOCOL_NUM_TCP
  {
    if protocol == IP_PROTOCOL_NUM_UDP then Some(Udp)
    else if protocol == IP_PROTOCOL_NUM_TCP then Some(Tcp)
    else None
  }

  /** `ipInputToOurs`: a UDP or TCP packet sent to a NAT device's outside
      address is translated back (an error drops it) and sent on that device
      with its header as rewritten and its checksum field as it stands. Any
      other packet is consumed by the router: ICMP goes to `icmpInput`, which
      sends nothing but reads the echo header without checking the length
      (a payload under 16 bytes is `OutOfRange`), and UDP, TCP and other
      protocols are only logged. */
  function InputToOurs(st: Router, h: IpHeader, payload: seq<u8>, natExec: NatExec): (r: Outcome)
    ensures NatDeviceFor(st.devices, h.destAddr, 0).None? || TransportOf(h.protocol).None? ==>
      r == if h.protocol == IP_PROTOCOL_NUM_ICMP && |payload| < Icmp.ICMP_ECHO_FIXED_LEN then OutOfRange else DeliverLocal
    ensures r.Transmit? || r.ArpRequest? ==>
      var dev := NatDeviceFor(st.devices, h.destAddr, 0);
      && dev.Some? && TransportOf(h.protocol).Some?
      && var back := natExec(h, payload, dev.value.ipdev.natdev, TransportOf(h.protocol).value, Incoming);
      && back.NatOk?
      && (r.Transmit? ==> |r.frame| >= Ethernet.ETHERNET_HEADER_LEN
                          && r.frame[Ethernet.ETHERNET_HEADER_LEN..] == ToPacket(back.header, false) + back.packet)
  {
    var dev := NatDeviceFor(st.devices, h.destAddr, 0);
    var proto := TransportOf(h.protocol);
    if dev.Some? && proto.Some? then
      match natExec(h, payload, dev.value.ipdev.natdev, proto.value, Incoming)
      case NatErr => Drop
      case NatOk(h1, destPacket) =>
        IpPacketOutput(st.arp, st.routes, dev.value, h1.destAddr, ToPacket(h1, false) + destPacket)
    else if h.protocol == IP_PROTOCOL_NUM_ICMP && |payload| < Icmp.ICMP_ECHO_FIXED_LEN then
      OutOfRange
    else
      DeliverLocal
  }

  /** The header with the TTL one lower and the checksum field zeroed: what
      the forwarding path checksums. */
  function Decremented(h: IpHeader): IpHeader
    requires h.ttl >= 1
  {
    h.(ttl := h.ttl - 1, headerChecksum := 0)
  }

  /** The forwarded header: TTL one less, checksum zeroed, then the checksum
      field set to the checksum of the header written with `calc`, and the
      header written with `calc` again. The second checksum is 0 when one
      carry fold suffices for the zeroed header and 0xffff when it does not,
      and either way the last pass writes the first checksum back: the
      result is the zeroed header written once with `calc`. So it passes the
      receiver test exactly when one carry fold suffices
      (`ForwardedCarryFailsVerification` shows a header for which it does
      not). */
  function ForwardHeader(h: IpHeader): (r: seq<u8>)
    requires h.ttl >= 1
    ensures |r| == IP_HEADER_LEN
    ensures r == ToPacket(Decremented(h), true)
    ensures Checksum.Verifies(r) <==> Checksum.OneFoldSuffices(Serialize(Decremented(h)))
    ensures Representable(h) ==> Parse(r).(headerChecksum := h.headerChecksum) == h.(ttl := h.ttl - 1)
  {
    var h2 := Decremented(h);
    var c2 := Checksum.CalcChecksum(ToPacket(h2, true));
    var h3 := h2.(headerChecksum := BytesToU16(c2));
    ForwardIsOnePass(h2);
    ToPacketVerifies(h2);
    ToPacketParse(h2);
    ToPacket(h3, true)
  }

  /** The byte-level step of `ForwardHeader`: for a header with a zero
      checksum field, writing it with `calc`, storing the checksum of that
      in the field and writing it with `calc` again gives the same bytes as
      the first write. */
  lemma ForwardIsOnePass(h2: IpHeader)
    requires h2.headerChecksum == 0
    ensures ToPacket(h2.(headerChecksum := BytesToU16(Checksum.CalcChecksum(ToPacket(h2, true)))), true)
         == ToPacket(h2, true)
  {
    var b := Serialize(h2);
    var c1 := Checksum.CalcChecksum(b);
    var c2 := Checksum.CalcChecksum(ToPacket(h2, true));
    var h3 := h2.(headerChecksum := BytesToU16(c2));
    SerializeWithChecksum(h2, BytesToU16(c2));
    assert b[10..12] == [0, 0];
    assert b[10] == 0 && b[11] == 0;
    assert Checksum.Sum16(b) < Checksum.WORD * Checksum.WORD by {
      Checksum.Sum16Bound(b);
    }
    assert ToPacket(h2, true) == Checksum.Splice(b, 10, c1);
    Checksum.RechecksumIsStable(b, 10);
    U16BytesInverse(c2);
    assert Serialize(h3) == Checksum.Splice(b, 10, c2);
    Checksum.SpliceTwice(b, 10, c2, c1);
  }

  /** The received header 45 00 00 14 6f 3f 40 00 41 01 fe fe 0a 00 00 01
      c0 a8 01 02: TTL 0x41, ICMP, 10.0.0.1 to 192.168.1.2, and a valid
      checksum. */
  const CARRY_SAMPLE := IpHeader(4, 5, 0, 0x14, 0x6f3f, 0x4000, 0x41, IP_PROTOCOL_NUM_ICMP, 0xfefe, 0x0a00_0001, 0xc0a8_0102)

  /** The sample with the TTL lowered, and the checksum field zeroed
      (`CARRY_SAMPLE_ZEROED`) or all ones (`CARRY_SAMPLE_ONES`). */
  const CARRY_SAMPLE_ZEROED: seq<u8> :=
    [0x45, 0x00, 0x00, 0x14, 0x6f, 0x3f, 0x40, 0x00, 0x40, 0x01,
     0x00, 0x00, 0x0a, 0x00, 0x00, 0x01, 0xc0, 0xa8, 0x01, 0x02]
  const CARRY_SAMPLE_ONES: seq<u8> :=
    [0x45, 0x00, 0x00, 0x14, 0x6f, 0x3f, 0x40, 0x00, 0x40, 0x01,
     0xff, 0xff, 0x0a, 0x00, 0x00, 0x01, 0xc0, 0xa8, 0x01, 0x02]

  /** The fields of the sample written out, big-endian. */
  lemma CarrySampleFields()
    ensures U16ToBytes(0x14) == [0x00, 0x14] && U16ToBytes(0x6f3f) == [0x6f, 0x3f]
    ensures U16ToBytes(0x4000) == [0x40, 0x00] && U16ToBytes(0) == [0x00, 0x00] && U16ToBytes(0xffff) == [0xff, 0xff]
    ensures U32ToBytes(0x0a00_0001) == [0x0a, 0x00, 0x00, 0x01] && U32ToBytes(0xc0a8_0102) == [0xc0, 0xa8, 0x01, 0x02]
  {
    assert U16ToBytes(0x0a00) == [0x0a, 0x00] && U16ToBytes(0x0001) == [0x00, 0x01];
    assert U16ToBytes(0xc0a8) == [0xc0, 0xa8] && U16ToBytes(0x0102) == [0x01, 0x02];
  }

  lemma CarrySampleBytes()
    ensures Serialize(Decremented(CARRY_SAMPLE)) == CARRY_SAMPLE_ZEROED
    ensures Serialize(Decremented(CARRY_SAMPLE).(headerChecksum := 0xffff)) == CARRY_SAMPLE_ONES
  {
    CarrySampleZeroedBytes();
    CarrySampleOnesBytes();
  }

  lemma CarrySampleZeroedBytes()
    ensures Serialize(Decremented(CARRY_SAMPLE)) == CARRY_SAMPLE_ZEROED
  {
    SerializeSample(0);
    assert Decremented(CARRY_SAMPLE).(headerChecksum := 0) == Decremented(CARRY_SAMPLE);
    assert U16ToBytes(0) == [0x00, 0x00];
  }

  lemma CarrySampleOnesBytes()
    ensures Serialize(Decremented(CARRY_SAMPLE).(headerChecksum := 0xffff)) == CARRY_SAMPLE_ONES
  {
    SerializeSample(0xffff);
    assert U16ToBytes(0xffff) == [0xff, 0xff];
  }

  /** The lowered sample with checksum field `c`, written out. */
  lemma SerializeSample(c: u16)
    ensures Serialize(Decremented(CARRY_SAMPLE).(headerChecksum := c))
      == [0x45, 0x00, 0x00, 0x14, 0x6f, 0x3f, 0x40, 0x00, 0x40, 0x01] + U16ToBytes(c) + [0x0a, 0x00, 0x00, 0x01, 0xc0, 0xa8, 0x01, 0x02]
  {
    var h := Decremented(CARRY_SAMPLE).(headerChecksum := c);
    assert h == IpHeader(4, 5, 0, 0x14, 0x6f3f, 0x4000, 0x40, IP_PROTOCOL_NUM_ICMP, c, 0x0a00_0001, 0xc0a8_0102);
    CarrySampleFields();
    assert Serialize(h) == [0x45, 0x00] + U16ToBytes(0x14) + U16ToBytes(0x6f3f) + U16ToBytes(0x4000) + [0x40, 0x01]
      + U16ToBytes(c) + U32ToBytes(0x0a00_0001) + U32ToBytes(0xc0a8_0102);
  }

  lemma CarrySampleSplice()
    ensures Checksum.Splice(CARRY_SAMPLE_ZEROED, 10, [0xff, 0xff]) == CARRY_SAMPLE_ONES
  {
    var z := CARRY_SAMPLE_ZEROED;
    assert z[..10] == CARRY_SAMPLE_ONES[..10];
    assert z[12..] == CARRY_SAMPLE_ONES[12..];
    assert CARRY_SAMPLE_ONES == CARRY_SAMPLE_ONES[..10] + [0xff, 0xff] + CARRY_SAMPLE_ONES[12..];
  }

  lemma CarrySampleZeroedSum()
    ensures Checksum.Sum16(CARRY_SAMPLE_ZEROED) == 0x1_ffff
  {
    var p := CARRY_SAMPLE_ZEROED;
    assert p[0] == 0x45;
    assert p[1] == 0x00;
    assert p[2] == 0x00;
    assert p[3] == 0x14;
    assert p[4] == 0x6f;
    assert p[5] == 0x3f;
    assert p[6] == 0x40;
    assert p[7] == 0x00;
    assert p[8] == 0x40;
    assert p[9] == 0x01;
    assert p[10] == 0x00;
    assert p[11] == 0x00;
    assert p[12] == 0x0a;
    assert p[13] == 0x00;
    assert p[14] == 0x00;
    assert p[15] == 0x01;
    assert p[16] == 0xc0;
    assert p[17] == 0xa8;
    assert p[18] == 0x01;
    assert p[19] == 0x02;
    assert p[20..] == [];
    Checksum.Sum16Suffix(p, 18);
    assert Checksum.Sum16(p[18..]) == 0x102;
    Checksum.Sum16Suffix(p, 16);
    assert Checksum.Sum16(p[16..]) == 0xc1aa;
    Checksum.Sum16Suffix(p, 14);
    assert Checksum.Sum16(p[14..]) == 0xc1ab;
    Checksum.Sum16Suffix(p, 12);
    assert Checksum.Sum16(p[12..]) == 0xcbab;
    Checksum.Sum16Suffix(p, 10);
    assert Checksum.Sum16(p[10..]) == 0xcbab;
    Checksum.Sum16Suffix(p, 8);
    assert Checksum.Sum16(p[8..]) == 0x10bac;
    Checksum.Sum16Suffix(p, 6);
    assert Checksum.Sum16(p[6..]) == 0x14bac;
    Checksum.Sum16Suffix(p, 4);
    assert Checksum.Sum16(p[4..]) == 0x1baeb;
    Checksum.Sum16Suffix(p, 2);
    assert Checksum.Sum16(p[2..]) == 0x1baff;
    Checksum.Sum16Suffix(p, 0);
    assert Checksum.Sum16(p[0..]) == 0x1ffff;
    assert p[0..] == p;
  }

  lemma CarrySampleOnesSum()
    ensures Checksum.Sum16(CARRY_SAMPLE_ONES) == 0x2_fffe
  {
    var p := CARRY_SAMPLE_ONES;
    assert p[0] == 0x45;
    assert p[1] == 0x00;
    assert p[2] == 0x00;
    assert p[3] == 0x14;
    assert p[4] == 0x6f;
    assert p[5] == 0x3f;
    assert p[6] == 0x40;
    assert p[7] == 0x00;
    assert p[8] == 0x40;
    assert p[9] == 0x01;
    assert p[10] == 0xff;
    assert p[11] == 0xff;
    assert p[12] == 0x0a;
    assert p[13] == 0x00;
    assert p[14] == 0x00;
    assert p[15] == 0x01;
    assert p[16] == 0xc0;
    assert p[17] == 0xa8;
    assert p[18] == 0x01;
    assert p[19] == 0x02;
    assert p[20..] == [];
    Checksum.Sum16Suffix(p, 18);
    assert Checksum.Sum16(p[18..]) == 0x102;
    Checksum.Sum16Suffix(p, 16);
    assert Checksum.Sum16(p[16..]) == 0xc1aa;
    Checksum.Sum16Suffix(p, 14);
    assert Checksum.Sum16(p[14..]) == 0xc1ab;
    Checksum.Sum16Suffix(p, 12);
    assert Checksum.Sum16(p[12..]) == 0xcbab;
    Checksum.Sum16Suffix(p, 10);
    assert Checksum.Sum16(p[10..]) == 0x1cbaa;
    Checksum.Sum16Suffix(p, 8);
    assert Checksum.Sum16(p[8..]) == 0x20bab;
    Checksum.Sum16Suffix(p, 6);
    assert Checksum.Sum16(p[6..]) == 0x24bab;
    Checksum.Sum16Suffix(p, 4);
    assert Checksum.Sum16(p[4..]) == 0x2baea;
    Checksum.Sum16Suffix(p, 2);
    assert Checksum.Sum16(p[2..]) == 0x2bafe;
    Checksum.Sum16Suffix(p, 0);
    assert Checksum.Sum16(p[0..]) == 0x2fffe;
    assert p[0..] == p;
  }

  /** A word sum of 0x1ffff or 0x2fffe folds once to exactly 0x10000, which
      truncates to 0: the single-fold checksum is ff ff. */
  lemma CarryChecksum(p: seq<u8>)
    requires |p| % 2 == 0 && (Checksum.Sum16(p) == 0x1_ffff || Checksum.Sum16(p) == 0x2_fffe)
    ensures Checksum.CalcChecksum(p) == [0xff, 0xff]
  {
    var s := Checksum.Sum16(p);
    assert s % Checksum.WORD + s / Checksum.WORD == Checksum.WORD;
    assert Checksum.Fold1(s) % Checksum.WORD == 0;
    assert U16ToBytes(0xffff) == [0xff, 0xff];
  }

  /** With the TTL lowered and the checksum zeroed, the words of
      `CARRY_SAMPLE` sum to 0x1ffff: one fold leaves a carry, the forwarded
      header carries ff ff, and it fails the receiver test. */
  lemma ForwardedCarryFailsVerification()
    ensures !Checksum.OneFoldSuffices(Serialize(Decremented(CARRY_SAMPLE)))
    ensures ForwardHeader(CARRY_SAMPLE) == CARRY_SAMPLE_ONES
    ensures !Checksum.Verifies(ForwardHeader(CARRY_SAMPLE))
  {
    assert !Checksum.OneFoldSuffices(Serialize(Decremented(CARRY_SAMPLE))) by {
      CarrySampleBytes();
      CarrySampleZeroedSum();
      assert Checksum.Fold1(0x1_ffff) == 0x1_0000;
    }
    assert !Checksum.Verifies(CARRY_SAMPLE_ONES) by {
      CarrySampleOnesSum();
      assert Checksum.FullFold(0x2_fffe) == Checksum.FullFold(0x1_0000) == 1;
    }
    CarrySampleForwarded();
  }

  /** Both passes of the forwarding path write ff ff into the sample. */
  lemma CarrySampleForwarded()
    ensures ForwardHeader(CARRY_SAMPLE) == CARRY_SAMPLE_ONES
  {
    var h2 := Decremented(CARRY_SAMPLE);
    CarrySampleBytes();
    CarrySampleSplice();
    CarrySampleZeroedSum();
    CarrySampleOnesSum();
    CarryChecksum(CARRY_SAMPLE_ZEROED);
    CarryChecksum(CARRY_SAMPLE_ONES);
    assert ToPacket(h2, true) == CARRY_SAMPLE_ONES;
    var h3 := h2.(headerChecksum := 0xffff);
    assert ForwardHeader(CARRY_SAMPLE) == ToPacket(h3, true);
  }

  /** The header and transport bytes that get forwarded: translated outwards
      by `natExec` when the receiving device does NAT and the packet is UDP
      or TCP; with NAT on and another protocol, the header alone (the Go
      `natPacket` stays nil); without NAT, the packet unchanged. */
  function Outbound(inputdev: NetDevice, h: IpHeader, payload: seq<u8>, natExec: NatExec): (r: NatResult)
    ensures inputdev.ipdev.natdev == ZERO_NATDEV ==> r == NatOk(h, payload)
    ensures inputdev.ipdev.natdev != ZERO_NATDEV && TransportOf(h.protocol).None? ==> r == NatOk(h, [])
  {
    if inputdev.ipdev.natdev == ZERO_NATDEV then NatOk(h, payload)
    else match TransportOf(h.protocol)
      case Some(proto) => natExec(h, payload, inputdev.ipdev.natdev, proto, Outgoing)
      case None => NatOk(h, [])
  }

  /** The forwarding half of `ipInput`: translate, look up the route (none
      drops), drop when the TTL is 1 or less, and send the rebuilt packet to
      the destination on a connected route or to the route's next hop. */
  function Forward(st: Router, inputdev: NetDevice, h: IpHeader, payload: seq<u8>, natExec: NatExec): (r: Outcome)
    ensures r.Transmit? || r.ArpRequest? ==>
      var out := Outbound(inputdev, h, payload, natExec);
      && out.NatOk?
      && Radix.Search(st.routes, out.header.destAddr) != ZERO_ROUTE
      && out.header.ttl > 1
      && (r.Transmit? ==> |r.frame| >= Ethernet.ETHERNET_HEADER_LEN
                          && r.frame[Ethernet.ETHERNET_HEADER_LEN..] == ForwardHeader(out.header) + out.packet)
  {
    match Outbound(inputdev, h, payload, natExec)
    case NatErr => Drop
    case NatOk(h1, body) =>
      var route := Radix.Search(st.routes, h1.destAddr);
      if route == ZERO_ROUTE then Drop
      else if h1.ttl <= 1 then Drop
      else
        var forwardPacket := ForwardHeader(h1) + body;
        if route.iptype == Connected then OutputToHost(st.arp, route.netdev, h1.destAddr, forwardPacket)
        else OutputToNexthop(st.arp, st.routes, route.nexthop, forwardPacket)
  }

  /** The ARP learning step: an unknown sender address is added with the
      frame's source MAC. */
  function Learn(arp: Arp.ArpTable, inputdev: NetDevice, srcAddr: u32, srcMac: MacAddr): Arp.ArpTable
  {
    if Arp.SearchArpTableEntry(arp, srcAddr).0 == ZERO_MAC then Arp.AddArpTableEntry(arp, inputdev, srcAddr, srcMac)
    else arp
  }

  /** The header as `ipInput` reads it: every field as `Parse` reads it
      except the header length, of which `packet[0] << 5 >> 5` keeps only
      the low three bits. */
  function HeaderAsRead(packet: seq<u8>): IpHeader
    requires |packet| >= IP_HEADER_LEN
  {
    Parse(packet).(headerLen := HeaderLenAsWritten(packet[0]))
  }

  /** `ipInput` past its address and length checks, on a header `h` read
      from the packet and the bytes after the first 20: learn the sender,
      drop anything but version 4 and any header longer than 20 bytes, then
      hand the packet to `ipInputToOurs` or forward it. */
  function Checked(st: Router, inputdev: NetDevice, srcMac: MacAddr, h: IpHeader, payload: seq<u8>, natExec: NatExec): (Arp.ArpTable, Outcome)
  {
    var st1 := st.(arp := Learn(st.arp, inputdev, h.srcAddr, srcMac));
    if h.version != 4 then (st1.arp, Drop)
    else if IP_HEADER_LEN < h.headerLen * 4 then (st1.arp, Drop)
    else if IsOurs(st.devices, inputdev, h.destAddr) then (st1.arp, InputToOurs(st1, h, payload, natExec))
    else (st1.arp, Forward(st1, inputdev, h, payload, natExec))
  }

  /** `ipInput` on a packet received on `inputdev` in a frame from `srcMac`:
      the new ARP table and what the router does. A device without an
      address and a packet shorter than a header are dropped before anything
      is learned; after learning the sender, anything but version 4 and any
      header whose length, read from three bits, exceeds 20 bytes is
      dropped. */
  function IpInput(st: Router, inputdev: NetDevice, srcMac: MacAddr, packet: seq<u8>, natExec: NatExec): (r: (Arp.ArpTable, Outcome))
    ensures inputdev.ipdev.address == 0 || |packet| < IP_HEADER_LEN ==> r == (st.arp, Drop)
    ensures inputdev.ipdev.address != 0 && |packet| >= IP_HEADER_LEN ==>
      r.0 == Learn(st.arp, inputdev, Parse(packet).srcAddr, srcMac)
  {
    if inputdev.ipdev.address == 0 then (st.arp, Drop)
    else if |packet| < IP_HEADER_LEN then (st.arp, Drop)
    else Checked(st, inputdev, srcMac, HeaderAsRead(packet), packet[IP_HEADER_LEN..], natExec)
  }

  /** `ipInput` with the header length read from all four IHL bits, as
      section 3.1 of RFC 791 defines the field: the corrected receive path,
      otherwise the same. */
  function IpInputCorrected(st: Router, inputdev: NetDevice, srcMac: MacAddr, packet: seq<u8>, natExec: NatExec): (r: (Arp.ArpTable, Outcome))
    ensures inputdev.ipdev.address == 0 || |packet| < IP_HEADER_LEN ==> r == (st.arp, Drop)
    ensures inputdev.ipdev.address != 0 && |packet| >= IP_HEADER_LEN ==>
      r.0 == Learn(st.arp, inputdev, Parse(packet).srcAddr, srcMac)
  {
    if inputdev.ipdev.address == 0 then (st.arp, Drop)
    else if |packet| < IP_HEADER_LEN then (st.arp, Drop)
    else Checked(st, inputdev, srcMac, Parse(packet), packet[IP_HEADER_LEN..], natExec)
  }

  /** A packet `ipInput` will process past its checks: received on an
      addressed device, long enough, version 4, and a header length, as
      read from three bits, of at most 20 bytes. */
  predicate Accepted(inputdev: NetDevice, packet: seq<u8>)
  {
    inputdev.ipdev.address != 0 && |packet| >= IP_HEADER_LEN
      && Parse(packet).version == 4 && HeaderLenAsWritten(packet[0]) * 4 <= IP_HEADER_LEN
  }

  /** Every packet that is not accepted is dropped. */
  lemma RejectedIsDropped(st: Router, inputdev: NetDevice, srcMac: MacAddr, packet: seq<u8>, natExec: NatExec)
    requires !Accepted(inputdev, packet)
    ensures IpInput(st, inputdev, srcMac, packet, natExec).1 == Drop
  {
  }

  /** On the corrected path every header with options (IHL above 5) is
      dropped. */
  lemma OptionsAreDropped(st: Router, inputdev: NetDevice, srcMac: MacAddr, packet: seq<u8>, natExec: NatExec)
    requires |packet| >= IP_HEADER_LEN && packet[0] % 16 > 5
    ensures IpInputCorrected(st, inputdev, srcMac, packet, natExec).1 == Drop
  {
  }

  /** As written, a header of 13 words (byte 0 = 0x4d, 32 bytes of options)
      addressed to the router passes the options check and reaches
      `ipInputToOurs`, where the corrected path drops it. */
  lemma OptionsPassAsWritten(st: Router, inputdev: NetDevice, srcMac: MacAddr, packet: seq<u8>, natExec: NatExec)
    requires inputdev.ipdev.address != 0 && |packet| >= IP_HEADER_LEN && packet[0] == 0x4d
    requires IsOurs(st.devices, inputdev, Parse(packet).destAddr)
    ensures Accepted(inputdev, packet)
    ensures IpInput(st, inputdev, srcMac, packet, natExec).1
      == InputToOurs(st.(arp := IpInput(st, inputdev, srcMac, packet, natExec).0), HeaderAsRead(packet), packet[IP_HEADER_LEN..], natExec)
    ensures IpInputCorrected(st, inputdev, srcMac, packet, natExec).1 == Drop
  {
  }

  /** A packet for one of the router's addresses is never forwarded: unless
      it is UDP or TCP for a NAT device's outside address it is consumed,
      except that an ICMP payload too short for the echo header makes
      `icmpInput` slice out of range. */
  lemma OursIsNotForwarded(st: Router, inputdev: NetDevice, srcMac: MacAddr, packet: seq<u8>, natExec: NatExec)
    requires Accepted(inputdev, packet)
    requires IsOurs(st.devices, inputdev, Parse(packet).destAddr)
    ensures var h := Parse(packet);
      NatDeviceFor(st.devices, h.destAddr, 0).None? || TransportOf(h.protocol).None? ==>
        IpInput(st, inputdev, srcMac, packet, natExec).1
          == if h.protocol == IP_PROTOCOL_NUM_ICMP && |packet| < IP_HEADER_LEN + Icmp.ICMP_ECHO_FIXED_LEN then OutOfRange
             else DeliverLocal
  {
  }

  /** The sender is learned: a packet from an address the table does not
      know, in a frame whose source MAC no row holds, leaves the table
      resolving that address to the frame's MAC on the receiving device. */
  lemma SenderIsLearned(st: Router, inputdev: NetDevice, srcMac: MacAddr, packet: seq<u8>, natExec: NatExec)
    requires inputdev.ipdev.address != 0 && |packet| >= IP_HEADER_LEN
    requires forall i :: 0 <= i < |st.arp| ==> st.arp[i].ipAddr != Parse(packet).srcAddr && st.arp[i].macAddr != srcMac
    ensures Arp.SearchArpTableEntry(IpInput(st, inputdev, srcMac, packet, natExec).0, Parse(packet).srcAddr)
      == (srcMac, Some(inputdev))
  {
    Arp.AddNewAddressResolves(st.arp, inputdev, Parse(packet).srcAddr, srcMac);
  }

  /** Learning never changes what an already known address resolves to. */
  lemma LearningKeepsKnownAddresses(st: Router, inputdev: NetDevice, srcMac: MacAddr, packet: seq<u8>, natExec: NatExec, q: u32)
    requires exists i :: 0 <= i < |st.arp| && st.arp[i].ipAddr == q
    ensures Arp.SearchArpTableEntry(IpInput(st, inputdev, srcMac, packet, natExec).0, q) == Arp.SearchArpTableEntry(st.arp, q)
  {
    if inputdev.ipdev.address != 0 && |packet| >= IP_HEADER_LEN {
      var h := Parse(packet);
      if Arp.SearchArpTableEntry(st.arp, h.srcAddr).0 == ZERO_MAC {
        Arp.AddKeepsLookup(st.arp, inputdev, h.srcAddr, srcMac, q);
      }
    }
  }

  /** A forwarded packet: without NAT, a packet for someone else that has a
      route and a TTL above 1 leaves as the header as read with the TTL one
      less, followed by every byte after the first 20 (option bytes
      included); on a connected route it goes to the destination's MAC,
      otherwise to the next hop's. Its header passes the receiver test
      exactly when one carry fold suffices for it. */
  lemma ForwardDecrementsTtl(st: Router, inputdev: NetDevice, srcMac: MacAddr, packet: seq<u8>, natExec: NatExec)
    requires Accepted(inputdev, packet) && inputdev.ipdev.natdev == ZERO_NATDEV
    requires !IsOurs(st.devices, inputdev, Parse(packet).destAddr)
    requires Radix.Search(st.routes, Parse(packet).destAddr) != ZERO_ROUTE
    requires Parse(packet).ttl > 1
    ensures var r := IpInput(st, inputdev, srcMac, packet, natExec);
      var h := HeaderAsRead(packet);
      var route := Radix.Search(st.routes, h.destAddr);
      var fwd := ForwardHeader(h) + packet[IP_HEADER_LEN..];
      && (route.iptype == Connected ==> r.1 == OutputToHost(r.0, route.netdev, h.destAddr, fwd))
      && (route.iptype == Network ==> r.1 == OutputToNexthop(r.0, st.routes, route.nexthop, fwd))
      && (Checksum.Verifies(fwd[..IP_HEADER_LEN]) <==> Checksum.OneFoldSuffices(Serialize(Decremented(h))))
      && Parse(fwd).(headerChecksum := h.headerChecksum) == h.(ttl := h.ttl - 1)
      && fwd[IP_HEADER_LEN..] == packet[IP_HEADER_LEN..]
  {
    var h := HeaderAsRead(packet);
    var body := packet[IP_HEADER_LEN..];
    var st1 := st.(arp := Learn(st.arp, inputdev, h.srcAddr, srcMac));
    assert IpInput(st, inputdev, srcMac, packet, natExec) == (st1.arp, Forward(st1, inputdev, h, body, natExec));
    assert Outbound(inputdev, h, body, natExec) == NatOk(h, body);
    var fwd := ForwardHeader(h) + body;
    assert fwd[..IP_HEADER_LEN] == ForwardHeader(h);
    ParseReadsHeader(fwd);
  }

  /** A packet for someone else that NAPT leaves alone, because the
      receiving device does no NAT or the protocol is neither UDP nor TCP,
      is dropped when its TTL is 1 or 0 or it has no route. (A translated
      packet is judged by its rewritten header: `NatForwardIsTranslated`.) */
  lemma ExpiredOrUnroutableIsDropped(st: Router, inputdev: NetDevice, srcMac: MacAddr, packet: seq<u8>, natExec: NatExec)
    requires Accepted(inputdev, packet)
    requires inputdev.ipdev.natdev == ZERO_NATDEV || TransportOf(Parse(packet).protocol).None?
    requires !IsOurs(st.devices, inputdev, Parse(packet).destAddr)
    requires Parse(packet).ttl <= 1 || Radix.Search(st.routes, Parse(packet).destAddr) == ZERO_ROUTE
    ensures IpInput(st, inputdev, srcMac, packet, natExec).1 == Drop
  {
  }

  /** With NAT on the receiving device, a UDP or TCP packet the translation
      rejects is dropped, and an ICMP packet is forwarded without its
      payload. */
  lemma NatOutboundCases(st: Router, inputdev: NetDevice, srcMac: MacAddr, packet: seq<u8>, natExec: NatExec)
    requires Accepted(inputdev, packet) && inputdev.ipdev.natdev != ZERO_NATDEV
    requires !IsOurs(st.devices, inputdev, Parse(packet).destAddr)
    ensures var h := HeaderAsRead(packet);
      (TransportOf(h.protocol).Some?
        && natExec(h, packet[IP_HEADER_LEN..], inputdev.ipdev.natdev, TransportOf(h.protocol).value, Outgoing) == NatErr)
      ==> IpInput(st, inputdev, srcMac, packet, natExec).1 == Drop
    ensures var h := HeaderAsRead(packet);
      var r := IpInput(st, inputdev, srcMac, packet, natExec);
      var route := Radix.Search(st.routes, h.destAddr);
      h.protocol == IP_PROTOCOL_NUM_ICMP && route != ZERO_ROUTE && route.iptype == Connected && h.ttl > 1 ==>
        r.1 == OutputToHost(r.0, route.netdev, h.destAddr, ForwardHeader(h))
  {
    var h := HeaderAsRead(packet);
    var body := packet[IP_HEADER_LEN..];
    var st1 := st.(arp := Learn(st.arp, inputdev, h.srcAddr, srcMac));
    assert IpInput(st, inputdev, srcMac, packet, natExec) == (st1.arp, Forward(st1, inputdev, h, body, natExec));
    if TransportOf(h.protocol).Some?
       && natExec(h, body, inputdev.ipdev.natdev, TransportOf(h.protocol).value, Outgoing) == NatErr {
      assert Outbound(inputdev, h, body, natExec) == NatErr;
      assert Forward(st1, inputdev, h, body, natExec) == Drop;
    }
    if h.protocol == IP_PROTOCOL_NUM_ICMP && h.ttl > 1 {
      assert Outbound(inputdev, h, body, natExec) == NatOk(h, []);
      assert ForwardHeader(h) + [] == ForwardHeader(h);
    }
  }

  /** Source NAT on the forwarding path: when the receiving device does NAT
      and `natExec` translates a UDP or TCP packet outwards, the route and
      the TTL test are taken from the rewritten header, and what leaves is
      that header with the TTL one lower followed by the translated
      transport bytes. */
  lemma NatForwardIsTranslated(st: Router, inputdev: NetDevice, srcMac: MacAddr, packet: seq<u8>, natExec: NatExec,
                               h1: IpHeader, body: seq<u8>)
    requires Accepted(inputdev, packet) && inputdev.ipdev.natdev != ZERO_NATDEV
    requires !IsOurs(st.devices, inputdev, Parse(packet).destAddr)
    requires TransportOf(Parse(packet).protocol).Some?
    requires natExec(HeaderAsRead(packet), packet[IP_HEADER_LEN..], inputdev.ipdev.natdev,
                     TransportOf(Parse(packet).protocol).value, Outgoing) == NatOk(h1, body)
    ensures var r := IpInput(st, inputdev, srcMac, packet, natExec);
      var route := Radix.Search(st.routes, h1.destAddr);
      && (route == ZERO_ROUTE || h1.ttl <= 1 ==> r.1 == Drop)
      && (route != ZERO_ROUTE && h1.ttl > 1 && route.iptype == Connected ==>
            r.1 == OutputToHost(r.0, route.netdev, h1.destAddr, ForwardHeader(h1) + body))
      && (route != ZERO_ROUTE && h1.ttl > 1 && route.iptype == Network ==>
            r.1 == OutputToNexthop(r.0, st.routes, route.nexthop, ForwardHeader(h1) + body))
  {
  }

  /** Destination NAT on the local path: a UDP or TCP packet for one of our
      addresses that is also the outside address of a NAT device is
      translated back by `natExec`; an error drops it, and otherwise the
      rewritten header, written without a new checksum, and the translated
      transport bytes are sent through that device towards the rewritten
      destination. */
  lemma NatReturnIsTranslated(st: Router, inputdev: NetDevice, srcMac: MacAddr, packet: seq<u8>, natExec: NatExec)
    requires Accepted(inputdev, packet)
    requires IsOurs(st.devices, inputdev, Parse(packet).destAddr)
    requires NatDeviceFor(st.devices, Parse(packet).destAddr, 0).Some?
    requires TransportOf(Parse(packet).protocol).Some?
    ensures var r := IpInput(st, inputdev, srcMac, packet, natExec);
      var dev := NatDeviceFor(st.devices, Parse(packet).destAddr, 0).value;
      var back := natExec(HeaderAsRead(packet), packet[IP_HEADER_LEN..], dev.ipdev.natdev,
                          TransportOf(Parse(packet).protocol).value, Incoming);
      && (back == NatErr ==> r.1 == Drop)
      && (back.NatOk? ==>
            r.1 == IpPacketOutput(r.0, st.routes, dev, back.header.destAddr, ToPacket(back.header, false) + back.packet))
  {
  }
}
