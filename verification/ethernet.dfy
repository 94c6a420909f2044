/** Ethernet II framing (ethernet.go): the 14-byte header codec, the MAC
    helpers, the receive filter and the send-side frame assembly. The
    dispatch to ARP and IPv4 is in module `Router`. */
module Ethernet {
  import opened Bytes
  import opened Net

  const ETHER_TYPE_IP: u16 := 0x0800
  const ETHER_TYPE_ARP: u16 := 0x0806
  const ETHER_TYPE_IPV6: u16 := 0x86dd
  const ETHERNET_ADDRESS_LEN := 6
  const ETHERNET_HEADER_LEN := 14

  datatype EthernetHeader = EthernetHeader(destAddr: MacAddr, srcAddr: MacAddr, etherType: u16)

  /** `macToByte`: the six address bytes in order. */
  function MacToBytes(mac: MacAddr): (r: seq<u8>)
    ensures |r| == 6 && forall i :: 0 <= i < 6 ==> r[i] == mac[i]
  {
    mac
  }

  /** `setMacAddr`: copies up to six bytes into a zeroed address. The source
      indexes past the array for longer input (a run-time panic). */
  function SetMacAddr(b: seq<u8>): (r: MacAddr)
    requires |b| <= 6
    ensures forall i :: 0 <= i < |b| ==> r[i] == b[i]
    ensures forall i :: |b| <= i < 6 ==> r[i] == 0
  {
    b + ZERO_MAC[|b|..]
  }

  /** Copying six bytes into an address and writing it out gives them back. */
  lemma MacRoundTrip(b: seq<u8>)
    requires |b| == 6
    ensures MacToBytes(SetMacAddr(b)) == b
  {
  }

  /** `ethernetHeader.ToPacket`: destination, source, then the ethertype big-endian. */
  function ToPacket(h: EthernetHeader): (r: seq<u8>)
    ensures |r| == ETHERNET_HEADER_LEN
    ensures Parse(r) == h
  {
    MacToBytes(h.destAddr) + MacToBytes(h.srcAddr) + U16ToBytes(h.etherType)
  }

  /** The header fields as `ethernetInput` reads them (ethernet.go:77-79). */
  function Parse(frame: seq<u8>): EthernetHeader
    requires |frame| >= ETHERNET_HEADER_LEN
  {
    EthernetHeader(SetMacAddr(frame[0..6]), SetMacAddr(frame[6..12]), BytesToU16(frame[12..14]))
  }

  /** Parsing the first 14 bytes of a frame and writing the header back gives
      those 14 bytes. */
  lemma ParseInverse(frame: seq<u8>)
    requires |frame| >= ETHERNET_HEADER_LEN
    ensures ToPacket(Parse(frame)) == frame[..ETHERNET_HEADER_LEN]
  {
    U16BytesInverse(frame[12..14]);
  }

  /** The receive filter: a frame is accepted only when addressed to the
      device's own MAC or to the broadcast address. */
  predicate Accepts(dev: NetDevice, h: EthernetHeader)
  {
    h.destAddr == dev.macaddr || h.destAddr == BROADCAST_MAC
  }

  /** `ethernetOutput`: the frame sent on `dev` is the header (destination,
      the device's own MAC, type) followed by the payload. */
  function EthernetOutput(dev: NetDevice, destAddr: MacAddr, packet: seq<u8>, ethType: u16): (r: seq<u8>)
    ensures |r| == ETHERNET_HEADER_LEN + |packet|
    ensures Parse(r) == EthernetHeader(destAddr, dev.macaddr, ethType)
    ensures r[ETHERNET_HEADER_LEN..] == packet
  {
    ToPacket(EthernetHeader(destAddr, dev.macaddr, ethType)) + packet
  }
}
