/** The receive entry point of ethernet.go: `ethernetInput` filters a frame
    by its destination MAC and hands the payload to ARP or IPv4 by its
    ethertype. Everything else, IPv6 frames included, is dropped. */
module Router {
  import opened Bytes
  import opened Net
  import Ethernet
  import Arp
  import IpInput

  /** `ethernetInput` on a frame received by `dev`: the ARP table left
      behind and what the router does. The frame's header is what the
      source stores in the device's `etheHeader`; `ipInput` reads the
      source MAC from it. The source reads 14 header bytes unchecked. */
  function EthernetInput(st: IpInput.Router, dev: NetDevice, frame: seq<u8>, natExec: IpInput.NatExec): (r: (Arp.ArpTable, Outcome))
    requires |frame| >= Ethernet.ETHERNET_HEADER_LEN
    ensures !Ethernet.Accepts(dev, Ethernet.Parse(frame)) ==> r == (st.arp, Drop)
    ensures Ethernet.Parse(frame).etherType != Ethernet.ETHER_TYPE_ARP && Ethernet.Parse(frame).etherType != Ethernet.ETHER_TYPE_IP
      ==> r == (st.arp, Drop)
    ensures Ethernet.Accepts(dev, Ethernet.Parse(frame)) && Ethernet.Parse(frame).etherType == Ethernet.ETHER_TYPE_ARP
      ==> r == Arp.ArpInput(st.arp, dev, frame[Ethernet.ETHERNET_HEADER_LEN..])
    ensures Ethernet.Accepts(dev, Ethernet.Parse(frame)) && Ethernet.Parse(frame).etherType == Ethernet.ETHER_TYPE_IP
      ==> r == IpInput.IpInput(st, dev, Ethernet.Parse(frame).srcAddr, frame[Ethernet.ETHERNET_HEADER_LEN..], natExec)
  {
    var etheHeader := Ethernet.Parse(frame);
    if !Ethernet.Accepts(dev, etheHeader) then (st.arp, Drop)
    else if etheHeader.etherType == Ethernet.ETHER_TYPE_ARP then Arp.ArpInput(st.arp, dev, frame[Ethernet.ETHERNET_HEADER_LEN..])
    else if etheHeader.etherType == Ethernet.ETHER_TYPE_IP then
      IpInput.IpInput(st, dev, etheHeader.srcAddr, frame[Ethernet.ETHERNET_HEADER_LEN..], natExec)
    else (st.arp, Drop)
  }

  /** An IPv4 packet that one device sends to another's MAC reaches the
      IPv4 receive path of the other intact, with the sender's MAC as the
      address to learn. */
  lemma IpFrameReachesIpInput(st: IpInput.Router, sender: NetDevice, dev: NetDevice, packet: seq<u8>, natExec: IpInput.NatExec)
    ensures var frame := Ethernet.EthernetOutput(sender, dev.macaddr, packet, Ethernet.ETHER_TYPE_IP);
      EthernetInput(st, dev, frame, natExec) == IpInput.IpInput(st, dev, sender.macaddr, packet, natExec)
  {
  }

  /** An ARP request broadcast by one device reaches the ARP handler of
      every other device intact. */
  lemma ArpRequestReachesArpInput(st: IpInput.Router, sender: NetDevice, dev: NetDevice, target: u32, natExec: IpInput.NatExec)
    ensures var frame := Arp.SendArpRequest(sender, target);
      EthernetInput(st, dev, frame, natExec) == Arp.ArpInput(st.arp, dev, frame[Ethernet.ETHERNET_HEADER_LEN..])
  {
  }

  /** A frame for another station's MAC is ignored, even one carrying
      IPv4. */
  lemma ForeignFrameIgnored(st: IpInput.Router, sender: NetDevice, dev: NetDevice, other: MacAddr, packet: seq<u8>,
                            natExec: IpInput.NatExec)
    requires other != dev.macaddr && other != BROADCAST_MAC
    ensures EthernetInput(st, dev, Ethernet.EthernetOutput(sender, other, packet, Ethernet.ETHER_TYPE_IP), natExec) == (st.arp, Drop)
  {
  }

  /** IPv6 frames are never handed to the IPv6 receive path: they are
      dropped like any other unknown ethertype. */
  lemma Ipv6FramesDropped(st: IpInput.Router, sender: NetDevice, dev: NetDevice, packet: seq<u8>, natExec: IpInput.NatExec)
    ensures EthernetInput(st, dev, Ethernet.EthernetOutput(sender, dev.macaddr, packet, Ethernet.ETHER_TYPE_IPV6), natExec) == (st.arp, Drop)
  {
  }
}
