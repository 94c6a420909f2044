/** ICMPv6 as icmpv6.go handles it (section 2.1 of RFC 4443, sections 4.3,
    4.4 and 4.6 of RFC 4861): the Neighbor Advertisement body, the echo
    reply and advertisement builders with their pseudo-header checksum, and
    the `icmpv6Input` dispatch.

    `ipv6DummyHeader.ToPacket` is not part of this model: the pseudo-header
    bytes are a parameter. So is `ipv6PacketEncapsulateOutput`: the input
    handler returns the arguments it would be called with. */
module Icmpv6 {
  import opened Bytes
  import opened Net
  import Checksum
  import Ethernet
  import Ipv6

  const ICMPV6_TYPE_ECHO_REQUEST: u8 := 128
  const ICMPV6_TYPE_ECHO_REPLY: u8 := 129
  const ICMPV6_TYPE_NEIGHBOR_SOLICITATION: u8 := 135
  const ICMPV6_TYPE_NEIGHBOR_ADVERTISEMENT: u8 := 136

  /** The Neighbor Advertisement body: flags word, target, one option. */
  const NA_BODY_LEN := 28
  /** A Neighbor Solicitation with one link-layer option, header included. */
  const NS_PACKET_LEN := 32
  /** Type, code, checksum, identifier and sequence of an echo message. */
  const ECHO_FIXED_LEN := 8

  /** `optNeighborDiscovery`: type, length in 8-byte units, and a MAC. */
  datatype OptNeighborDiscovery = OptNeighborDiscovery(opttype: u8, length: u8, macaddr: MacAddr)

  /** `icmpv6NeighborAdvertisement`: the R, S and O flags, the 29 bits below
      them, the target and the option. */
  datatype NeighborAdvertisement = NeighborAdvertisement(
    flagRouter: bool,
    flagSolicited: bool,
    flagOverRide: bool,
    reserved: u32,
    targetAddr: Ipv6Addr,
    optnd: OptNeighborDiscovery)

  /** `icmpv6NeighborSolicitation`. */
  datatype NeighborSolicitation = NeighborSolicitation(reserved: u32, targetAddr: Ipv6Addr, optnd: OptNeighborDiscovery)

  /** The echo body: identifier, sequence and data. */
  datatype Echo = Echo(identify: u16, sequence: u16, data: seq<u8>)

  /** The value the three flags add to the top byte of the flags word. */
  function FlagBits(na: NeighborAdvertisement): nat
  {
    (if na.flagRouter then 128 else 0) + (if na.flagSolicited then 64 else 0) + (if na.flagOverRide then 32 else 0)
  }

  /** `icmpv6NeighborAdvertisement.ToPacket`: the reserved word with the
      flags added to its top byte (in 8-bit arithmetic), the target, the
      option type and length, and the MAC. */
  function NaToPacket(na: NeighborAdvertisement): (r: seq<u8>)
    ensures |r| == NA_BODY_LEN
    ensures r[1..4] == U32ToBytes(na.reserved)[1..]
    ensures r[4..20] == na.targetAddr
    ensures r[20] == na.optnd.opttype && r[21] == na.optnd.length
    ensures r[22..28] == Ethernet.MacToBytes(na.optnd.macaddr)
  {
    var flagsbytes := U32ToBytes(na.reserved);
    var b0: u8 := (flagsbytes[0] + FlagBits(na)) % 0x100;
    [b0] + flagsbytes[1..] + na.targetAddr + [na.optnd.opttype, na.optnd.length] + Ethernet.MacToBytes(na.optnd.macaddr)
  }

  /** The Neighbor Advertisement body read back by the layout of section 4.4
      of RFC 4861: the flags are the top three bits, the reserved field the
      29 bits below them. */
  function NaParse(p: seq<u8>): NeighborAdvertisement
    requires |p| >= NA_BODY_LEN
  {
    NeighborAdvertisement(
      p[0] / 128 % 2 == 1, p[0] / 64 % 2 == 1, p[0] / 32 % 2 == 1,
      BytesToU32([p[0] % 32] + p[1..4]),
      p[4..20],
      OptNeighborDiscovery(p[20], p[21], Ethernet.SetMacAddr(p[22..28])))
  }

  /** An advertisement whose reserved field fits its 29 bits comes back from
      its bytes unchanged: adding the flags never carries into them. */
  lemma NaRoundTrip(na: NeighborAdvertisement)
    requires na.reserved < 0x2000_0000
    ensures NaParse(NaToPacket(na)) == na
  {
    var r := NaToPacket(na);
    var f := U32ToBytes(na.reserved);
    U32TopByte(na.reserved);
    assert f[0] < 32;
    assert r[0] == f[0] + FlagBits(na);
    assert r[0] % 32 == f[0];
    assert [r[0] % 32] + r[1..4] == f;
    Ethernet.MacRoundTrip(Ethernet.MacToBytes(na.optnd.macaddr));
    assert Ethernet.SetMacAddr(r[22..28]) == na.optnd.macaddr;
  }

  /** `ipv6DummyHeader.ToPacket(srcAddr, destAddr, length, protocol)`. */
  type PseudoHeader = (Ipv6Addr, Ipv6Addr, u32, u32) -> seq<u8>

  /** The pseudo-header of a message of `len` bytes between the two
      addresses (`uint32(len(...))` wraps). */
  function PseudoFor(pseudo: PseudoHeader, src: Ipv6Addr, dst: Ipv6Addr, len: nat): seq<u8>
  {
    pseudo(src, dst, len % 0x1_0000_0000, Ipv6.IP_PROTOCOL_NUM_ICMPV6 as u32)
  }

  /** The checksum is taken over whole 16-bit words: the pseudo-header and a
      message of `len` bytes both have even length. */
  predicate Checksummable(pseudo: PseudoHeader, src: Ipv6Addr, dst: Ipv6Addr, len: nat)
  {
    |PseudoFor(pseudo, src, dst, len)| % 2 == 0 && len % 2 == 0
  }

  /** The message with its checksum field, bytes 2 and 3, zeroed: what the
      sender checksums. */
  function Unchecksummed(r: seq<u8>): seq<u8>
    requires |r| >= 4
  {
    Checksum.Splice(r, 2, [0, 0])
  }

  /** A message built with a zero checksum field, with bytes 2 and 3 then set
      from `calcChecksum` of the pseudo-header followed by the message;
      nothing else changes. The receiver's check over the same pseudo-header
      passes when one carry fold suffices, and, for anything up to 0x10000
      words, only then. */
  function WithChecksum(pseudo: PseudoHeader, src: Ipv6Addr, dst: Ipv6Addr, m: seq<u8>): (r: seq<u8>)
    requires |m| >= 4 && m[2] == 0 && m[3] == 0 && Checksummable(pseudo, src, dst, |m|)
    ensures |r| == |m| && r[..2] == m[..2] && r[4..] == m[4..] && Unchecksummed(r) == m
    ensures r[2..4] == Checksum.CalcChecksum(PseudoFor(pseudo, src, dst, |m|) + m)
    ensures Checksum.OneFoldSuffices(PseudoFor(pseudo, src, dst, |m|) + m) ==> Checksum.Verifies(PseudoFor(pseudo, src, dst, |r|) + r)
    ensures |PseudoFor(pseudo, src, dst, |m|)| + |m| <= 2 * Checksum.WORD ==>
      (Checksum.Verifies(PseudoFor(pseudo, src, dst, |r|) + r) <==> Checksum.OneFoldSuffices(PseudoFor(pseudo, src, dst, |m|) + m))
  {
    var d := PseudoFor(pseudo, src, dst, |m|);
    var r := Checksum.Splice(m, 2, Checksum.CalcChecksum(d + m));
    assert d + r == Checksum.Splice(d + m, |d| + 2, Checksum.CalcChecksum(d + m));
    assert (d + m)[|d| + 2] == 0 && (d + m)[|d| + 3] == 0;
    Checksum.CalcChecksumVerifies(d + m, |d| + 2);
    assert Unchecksummed(r) == m;
    r
  }

  /** The echo body of an echo message. */
  function EchoOf(p: seq<u8>): Echo
    requires |p| >= ECHO_FIXED_LEN
  {
    Echo(BytesToU16(p[4..6]), BytesToU16(p[6..8]), p[8..])
  }

  /** `Replyv6Packet`: type 129, code 0, the identifier, sequence and data
      of the request, with the pseudo-header checksum set. */
  function Replyv6Packet(echo: Echo, src: Ipv6Addr, dst: Ipv6Addr, pseudo: PseudoHeader): (r: seq<u8>)
    requires Checksummable(pseudo, src, dst, ECHO_FIXED_LEN + |echo.data|)
    ensures |r| == ECHO_FIXED_LEN + |echo.data|
    ensures r[0] == ICMPV6_TYPE_ECHO_REPLY && r[1] == 0
    ensures EchoOf(r) == echo
    ensures Checksum.OneFoldSuffices(PseudoFor(pseudo, src, dst, |r|) + Unchecksummed(r)) ==> Checksum.Verifies(PseudoFor(pseudo, src, dst, |r|) + r)
  {
    var m := [ICMPV6_TYPE_ECHO_REPLY, 0, 0, 0] + U16ToBytes(echo.identify) + U16ToBytes(echo.sequence) + echo.data;
    assert m[4..6] == U16ToBytes(echo.identify) && m[6..8] == U16ToBytes(echo.sequence) && m[8..] == echo.data;
    var r := WithChecksum(pseudo, src, dst, m);
    assert r[0] == r[..2][0] == m[..2][0] && r[1] == r[..2][1] == m[..2][1];
    var tail := r[4..];
    assert tail == m[4..];
    assert r[4..6] == tail[..2] == m[4..6];
    assert r[6..8] == tail[2..4] == m[6..8];
    assert r[8..] == tail[4..] == m[8..];
    r
  }

  /** The advertisement `ReplyNeighborAdvertisement` answers with: S and O
      set, R clear, reserved 0, the solicited target, and a target
      link-layer address option (type 2, one 8-byte unit) with `mac`. */
  function AdvertisementFor(targetAddr: Ipv6Addr, mac: MacAddr): NeighborAdvertisement
  {
    NeighborAdvertisement(false, true, true, 0, targetAddr, OptNeighborDiscovery(2, 1, mac))
  }

  /** `ReplyNeighborAdvertisement`: type 136, code 0, then the advertisement
      body, with the pseudo-header checksum set. */
  function ReplyNeighborAdvertisement(targetAddr: Ipv6Addr, src: Ipv6Addr, dst: Ipv6Addr, mac: MacAddr,
                                      pseudo: PseudoHeader): (r: seq<u8>)
    requires Checksummable(pseudo, src, dst, 4 + NA_BODY_LEN)
    ensures |r| == 4 + NA_BODY_LEN
    ensures r[0] == ICMPV6_TYPE_NEIGHBOR_ADVERTISEMENT && r[1] == 0
    ensures NaParse(r[4..]) == AdvertisementFor(targetAddr, mac)
    ensures Checksum.OneFoldSuffices(PseudoFor(pseudo, src, dst, |r|) + Unchecksummed(r)) ==> Checksum.Verifies(PseudoFor(pseudo, src, dst, |r|) + r)
  {
    var m := [ICMPV6_TYPE_NEIGHBOR_ADVERTISEMENT, 0, 0, 0] + NaToPacket(AdvertisementFor(targetAddr, mac));
    NaRoundTrip(AdvertisementFor(targetAddr, mac));
    assert m[4..] == NaToPacket(AdvertisementFor(targetAddr, mac));
    WithChecksum(pseudo, src, dst, m)
  }

  /** A Neighbor Solicitation with one option laid out as section 4.3 of
      RFC 4861 shows it: type 135, code 0, checksum, reserved word, target,
      then the option's type, length and MAC. */
  function NsToPacket(ns: NeighborSolicitation, checksum: u16): (r: seq<u8>)
    ensures |r| == NS_PACKET_LEN
  {
    [ICMPV6_TYPE_NEIGHBOR_SOLICITATION, 0] + U16ToBytes(checksum) + U32ToBytes(ns.reserved) + ns.targetAddr
      + [ns.optnd.opttype, ns.optnd.length] + Ethernet.MacToBytes(ns.optnd.macaddr)
  }

  /** The solicitation decode as written at icmpv6.go:187-195: the option
      type and length are read from bytes 25 and 26, one byte late, while the
      MAC is read from its right place, bytes 26 to 31. */
  function NsParseAsWritten(p: seq<u8>): NeighborSolicitation
    requires |p| >= NS_PACKET_LEN
  {
    NeighborSolicitation(BytesToU32(p[4..8]), p[8..24],
      OptNeighborDiscovery(p[25], p[26], Ethernet.SetMacAddr(p[26..32])))
  }

  /** The solicitation decode with the option type and length read from
      bytes 24 and 25. */
  function NsParse(p: seq<u8>): NeighborSolicitation
    requires |p| >= NS_PACKET_LEN
  {
    NeighborSolicitation(BytesToU32(p[4..8]), p[8..24],
      OptNeighborDiscovery(p[24], p[25], Ethernet.SetMacAddr(p[26..32])))
  }

  /** The corrected decode reads back every field of a solicitation. */
  lemma NsRoundTrip(ns: NeighborSolicitation, checksum: u16)
    ensures NsParse(NsToPacket(ns, checksum)) == ns
  {
    var r := NsToPacket(ns, checksum);
    assert r[4..8] == U32ToBytes(ns.reserved);
    assert r[8..24] == ns.targetAddr;
    assert r[26..32] == Ethernet.MacToBytes(ns.optnd.macaddr);
    Ethernet.MacRoundTrip(Ethernet.MacToBytes(ns.optnd.macaddr));
  }

  /** The as-written decode misreads the option of an ordinary solicitation:
      a source link-layer option (type 1, length 1) for MAC 02:00:00:00:00:01
      reads as type 1 (the length byte) and length 2 (the first MAC byte). */
  lemma NsAsWrittenMisreadsOption()
    ensures var ns := NeighborSolicitation(0, ZERO_IPV6, OptNeighborDiscovery(1, 1, [2, 0, 0, 0, 0, 1]));
      && NsParseAsWritten(NsToPacket(ns, 0)).optnd == OptNeighborDiscovery(1, 2, [2, 0, 0, 0, 0, 1])
      && NsParseAsWritten(NsToPacket(ns, 0)) != ns
  {
    var ns := NeighborSolicitation(0, ZERO_IPV6, OptNeighborDiscovery(1, 1, [2, 0, 0, 0, 0, 1]));
    var r := NsToPacket(ns, 0);
    assert r[26..32] == [2, 0, 0, 0, 0, 1];
  }

  /** Both decodes read the same target, so the advertisement sent in reply
      does not depend on the misread option fields. */
  lemma NsDecodesAgreeOnTarget(p: seq<u8>)
    requires |p| >= NS_PACKET_LEN
    ensures NsParseAsWritten(p).targetAddr == NsParse(p).targetAddr
    ensures NsParseAsWritten(p).optnd.macaddr == NsParse(p).optnd.macaddr
  {
  }

  /** What `icmpv6Input` makes the router do: nothing, or a call of
      `ipv6PacketEncapsulateOutput(dev, srcAddr, destAddr, payload, protocol)`. */
  datatype Icmpv6Output =
    | NoOutput
    | EncapsulateOutput(dev: NetDevice, srcAddr: Ipv6Addr, destAddr: Ipv6Addr, payload: seq<u8>, protocol: u8)

  /** What `icmpv6Input` reads without checking: the 4-byte header (its
      length check only logs), the echo header of an echo request, and the
      whole solicitation; and the checksum of a reply covers whole words. */
  predicate Icmpv6Readable(p: seq<u8>, src: Ipv6Addr, dst: Ipv6Addr, pseudo: PseudoHeader)
  {
    && |p| >= 4
    && (p[0] == ICMPV6_TYPE_ECHO_REQUEST ==> |p| >= ECHO_FIXED_LEN && Checksummable(pseudo, src, dst, |p|))
    && (p[0] == ICMPV6_TYPE_NEIGHBOR_SOLICITATION ==> |p| >= NS_PACKET_LEN && Checksummable(pseudo, src, dst, 4 + NA_BODY_LEN))
  }

  /** `icmpv6Input`: an echo request is answered with an echo reply and a
      Neighbor Solicitation with a Neighbor Advertisement carrying the
      device's MAC, both handed to `ipv6PacketEncapsulateOutput` with the
      addresses as received; every other type, echo replies included, is
      only logged. */
  function Icmpv6Input(inputdev: NetDevice, src: Ipv6Addr, dst: Ipv6Addr, p: seq<u8>, pseudo: PseudoHeader): (r: Icmpv6Output)
    requires Icmpv6Readable(p, src, dst, pseudo)
    ensures r.EncapsulateOutput? <==> p[0] == ICMPV6_TYPE_ECHO_REQUEST || p[0] == ICMPV6_TYPE_NEIGHBOR_SOLICITATION
    ensures r.EncapsulateOutput? ==>
      r.dev == inputdev && r.srcAddr == src && r.destAddr == dst && r.protocol == Ipv6.IP_PROTOCOL_NUM_ICMPV6
    ensures p[0] == ICMPV6_TYPE_ECHO_REQUEST ==>
      r.EncapsulateOutput? && |p| >= ECHO_FIXED_LEN && |r.payload| == |p| && r.payload[0] == ICMPV6_TYPE_ECHO_REPLY && EchoOf(r.payload) == EchoOf(p)
    ensures p[0] == ICMPV6_TYPE_NEIGHBOR_SOLICITATION ==>
      r.EncapsulateOutput? && |p| >= NS_PACKET_LEN && |r.payload| == 4 + NA_BODY_LEN && r.payload[0] == ICMPV6_TYPE_NEIGHBOR_ADVERTISEMENT
      && NaParse(r.payload[4..]) == AdvertisementFor(p[8..24], inputdev.macaddr)
    ensures r.EncapsulateOutput? ==> |r.payload| >= 4
    ensures r.EncapsulateOutput? && Checksum.OneFoldSuffices(PseudoFor(pseudo, src, dst, |r.payload|) + Unchecksummed(r.payload))
      ==> Checksum.Verifies(PseudoFor(pseudo, src, dst, |r.payload|) + r.payload)
  {
    if p[0] == ICMPV6_TYPE_ECHO_REQUEST then
      var r := EchoRequestReceived(inputdev, src, dst, p, pseudo);
      assert |r.payload| >= 4;
      r
    else if p[0] == ICMPV6_TYPE_NEIGHBOR_SOLICITATION then
      var r := SolicitationReceived(inputdev, src, dst, p, pseudo);
      assert |r.payload| >= 4;
      r
    else NoOutput
  }

  /** The echo request branch of `icmpv6Input`. */
  function EchoRequestReceived(inputdev: NetDevice, src: Ipv6Addr, dst: Ipv6Addr, p: seq<u8>, pseudo: PseudoHeader): (r: Icmpv6Output)
    requires |p| >= ECHO_FIXED_LEN && Checksummable(pseudo, src, dst, |p|)
    ensures r.EncapsulateOutput? && r == EncapsulateOutput(inputdev, src, dst, r.payload, Ipv6.IP_PROTOCOL_NUM_ICMPV6)
    ensures |r.payload| == |p| && r.payload[0] == ICMPV6_TYPE_ECHO_REPLY && EchoOf(r.payload) == EchoOf(p)
    ensures Checksum.OneFoldSuffices(PseudoFor(pseudo, src, dst, |r.payload|) + Unchecksummed(r.payload))
      ==> Checksum.Verifies(PseudoFor(pseudo, src, dst, |r.payload|) + r.payload)
  {
    EncapsulateOutput(inputdev, src, dst, Replyv6Packet(EchoOf(p), src, dst, pseudo), Ipv6.IP_PROTOCOL_NUM_ICMPV6)
  }

  /** The Neighbor Solicitation branch of `icmpv6Input`. */
  function SolicitationReceived(inputdev: NetDevice, src: Ipv6Addr, dst: Ipv6Addr, p: seq<u8>, pseudo: PseudoHeader): (r: Icmpv6Output)
    requires |p| >= NS_PACKET_LEN && Checksummable(pseudo, src, dst, 4 + NA_BODY_LEN)
    ensures r.EncapsulateOutput? && r == EncapsulateOutput(inputdev, src, dst, r.payload, Ipv6.IP_PROTOCOL_NUM_ICMPV6)
    ensures |r.payload| == 4 + NA_BODY_LEN && r.payload[0] == ICMPV6_TYPE_NEIGHBOR_ADVERTISEMENT
    ensures NaParse(r.payload[4..]) == AdvertisementFor(p[8..24], inputdev.macaddr)
    ensures Checksum.OneFoldSuffices(PseudoFor(pseudo, src, dst, |r.payload|) + Unchecksummed(r.payload))
      ==> Checksum.Verifies(PseudoFor(pseudo, src, dst, |r.payload|) + r.payload)
  {
    EncapsulateOutput(inputdev, src, dst,
      ReplyNeighborAdvertisement(NsParse(p).targetAddr, src, dst, inputdev.macaddr, pseudo), Ipv6.IP_PROTOCOL_NUM_ICMPV6)
  }

  /** A solicitation for any target, laid out on the wire, is answered with
      an advertisement for that same target: the round trip from the
      solicitation the neighbour sent to the advertisement it receives. */
  lemma SolicitationIsAnswered(inputdev: NetDevice, src: Ipv6Addr, dst: Ipv6Addr, ns: NeighborSolicitation,
                               checksum: u16, pseudo: PseudoHeader)
    requires Checksummable(pseudo, src, dst, 4 + NA_BODY_LEN)
    ensures var p := NsToPacket(ns, checksum);
      && Icmpv6Readable(p, src, dst, pseudo)
      && NaParse(Icmpv6Input(inputdev, src, dst, p, pseudo).payload[4..]).targetAddr == ns.targetAddr
      && NaParse(Icmpv6Input(inputdev, src, dst, p, pseudo).payload[4..]).optnd.macaddr == inputdev.macaddr
  {
    NsRoundTrip(ns, checksum);
  }
}
