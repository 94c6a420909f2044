/** ARP for IPv4 over Ethernet (arp.go, RFC 826): the 28-byte message codec,
    the ARP table with its add and first-match lookup, and the handling of
    received requests and replies. The table is a value: handlers return the
    table they leave behind. */
module Arp {
  import opened Bytes
  import opened Wrappers
  import opened Net
  import Ethernet

  const ARP_OPERATION_CODE_REQUEST: u16 := 1
  const ARP_OPERATION_CODE_REPLY: u16 := 2
  const ARP_HTYPE_ETHERNET: u16 := 1
  const ARP_PACKET_LEN := 28
  const IP_ADDRESS_LEN: u8 := 4

  /** `arpIPToEthernet`: an ARP message for IPv4 over Ethernet. */
  datatype ArpMsg = ArpMsg(
    hardwareType: u16,
    protocolType: u16,
    hardwareLen: u8,
    protocolLen: u8,
    opcode: u16,
    senderHardwareAddr: MacAddr,
    senderIPAddr: u32,
    targetHardwareAddr: MacAddr,
    targetIPAddr: u32)

  /** `arpIPToEthernet.ToPacket`: the nine fields in order, big-endian, 28 bytes. */
  function ToPacket(m: ArpMsg): (r: seq<u8>)
    ensures |r| == ARP_PACKET_LEN
    ensures Parse(r) == m
  {
    var r := U16ToBytes(m.hardwareType) + U16ToBytes(m.protocolType) + [m.hardwareLen, m.protocolLen]
      + U16ToBytes(m.opcode) + Ethernet.MacToBytes(m.senderHardwareAddr) + U32ToBytes(m.senderIPAddr)
      + Ethernet.MacToBytes(m.targetHardwareAddr) + U32ToBytes(m.targetIPAddr);
    assert r[0..2] == U16ToBytes(m.hardwareType);
    assert r[2..4] == U16ToBytes(m.protocolType);
    assert r[6..8] == U16ToBytes(m.opcode);
    assert r[8..14] == m.senderHardwareAddr;
    assert r[14..18] == U32ToBytes(m.senderIPAddr);
    assert r[18..24] == m.targetHardwareAddr;
    assert r[24..28] == U32ToBytes(m.targetIPAddr);
    r
  }

  /** The message as `arpInput` reads it (arp.go:64-74). */
  function Parse(p: seq<u8>): ArpMsg
    requires |p| >= ARP_PACKET_LEN
  {
    ArpMsg(
      BytesToU16(p[0..2]), BytesToU16(p[2..4]), p[4], p[5], BytesToU16(p[6..8]),
      Ethernet.SetMacAddr(p[8..14]), BytesToU32(p[14..18]),
      Ethernet.SetMacAddr(p[18..24]), BytesToU32(p[24..28]))
  }

  /** Parsing the first 28 bytes and writing the message back gives those bytes. */
  lemma ParseInverse(p: seq<u8>)
    requires |p| >= ARP_PACKET_LEN
    ensures ToPacket(Parse(p)) == p[..ARP_PACKET_LEN]
  {
    U16BytesInverse(p[0..2]);
    U16BytesInverse(p[2..4]);
    U16BytesInverse(p[6..8]);
    U32BytesInverse(p[14..18]);
    U32BytesInverse(p[24..28]);
    assert p[..ARP_PACKET_LEN] == p[0..2] + p[2..4] + [p[4], p[5]] + p[6..8] + p[8..14]
      + p[14..18] + p[18..24] + p[24..28];
  }

  /** `arpTableEntry`. */
  datatype ArpEntry = ArpEntry(macAddr: MacAddr, ipAddr: u32, netdev: NetDevice)

  /** `ArpTableEntryList`, in insertion order. */
  type ArpTable = seq<ArpEntry>

  /** One iteration of the loop in `addArpTableEntry`. The two "updates"
      assign to the loop's copy of the row, so they only decide whether the
      third test returns; the row stored in the table is never changed. */
  predicate RowStopsAdd(row: ArpEntry, ipaddr: u32, macaddr: MacAddr)
  {
    var c1 := if row.ipAddr == ipaddr && row.macAddr != macaddr then row.(macAddr := macaddr) else row;
    var c2 := if c1.macAddr == macaddr && c1.ipAddr != ipaddr then c1.(ipAddr := ipaddr) else c1;
    c2.macAddr == macaddr && c2.ipAddr == ipaddr
  }

  /** The loop returns at a row exactly when that row has the address or the MAC. */
  lemma RowStopsAddIff(row: ArpEntry, ipaddr: u32, macaddr: MacAddr)
    ensures RowStopsAdd(row, ipaddr, macaddr) <==> row.ipAddr == ipaddr || row.macAddr == macaddr
  {
  }

  /** Whether the loop of `addArpTableEntry` returns early. */
  function AddStopsEarly(table: ArpTable, ipaddr: u32, macaddr: MacAddr): (r: bool)
    ensures r <==> exists i :: 0 <= i < |table| && (table[i].ipAddr == ipaddr || table[i].macAddr == macaddr)
  {
    if |table| == 0 then false
    else
      RowStopsAddIff(table[0], ipaddr, macaddr);
      assert forall i :: 1 <= i < |table| ==> table[i] == table[1..][i - 1];
      RowStopsAdd(table[0], ipaddr, macaddr) || AddStopsEarly(table[1..], ipaddr, macaddr)
  }

  /** `addArpTableEntry`: appends the row for (`ipaddr`, `macaddr`) unless some
      row already has that address or that MAC; existing rows are kept as
      they are. */
  function AddArpTableEntry(table: ArpTable, netdev: NetDevice, ipaddr: u32, macaddr: MacAddr): (r: ArpTable)
    ensures |table| <= |r| <= |table| + 1 && r[..|table|] == table
    ensures |r| == |table| + 1 <==> forall i :: 0 <= i < |table| ==> table[i].ipAddr != ipaddr && table[i].macAddr != macaddr
    ensures |r| == |table| + 1 ==> r[|table|] == ArpEntry(macaddr, ipaddr, netdev)
    ensures exists i :: 0 <= i < |r| && (r[i].ipAddr == ipaddr || r[i].macAddr == macaddr)
  {
    if AddStopsEarly(table, ipaddr, macaddr) then table else table + [ArpEntry(macaddr, ipaddr, netdev)]
  }

  /** No two rows share an IPv4 address, and no two share a MAC. */
  predicate Unique(table: ArpTable)
  {
    forall i, j :: 0 <= i < j < |table| ==> table[i].ipAddr != table[j].ipAddr && table[i].macAddr != table[j].macAddr
  }

  /** Because a row is added only when neither its address nor its MAC is
      present, the table never maps one address or one MAC twice. */
  lemma AddPreservesUnique(table: ArpTable, netdev: NetDevice, ipaddr: u32, macaddr: MacAddr)
    requires Unique(table)
    ensures Unique(AddArpTableEntry(table, netdev, ipaddr, macaddr))
  {
  }

  /** `searchArpTableEntry`: the MAC and device of the first row with the
      address, or the zero MAC and nil. */
  function SearchArpTableEntry(table: ArpTable, ipaddr: u32): (r: (MacAddr, Option<NetDevice>))
    ensures (exists i :: 0 <= i < |table| && table[i].ipAddr == ipaddr) ==>
      exists i :: 0 <= i < |table| && table[i].ipAddr == ipaddr && r == (table[i].macAddr, Some(table[i].netdev))
        && forall j :: 0 <= j < i ==> table[j].ipAddr != ipaddr
    ensures (forall i :: 0 <= i < |table| ==> table[i].ipAddr != ipaddr) ==> r == (ZERO_MAC, None)
  {
    if |table| == 0 then (ZERO_MAC, None)
    else if table[0].ipAddr == ipaddr then (table[0].macAddr, Some(table[0].netdev))
    else
      var r := SearchArpTableEntry(table[1..], ipaddr);
      assert forall i :: 1 <= i < |table| ==> table[i] == table[1..][i - 1];
      assert (exists i :: 0 <= i < |table[1..]| && table[1..][i].ipAddr == ipaddr) ==>
        exists i :: 1 <= i < |table| && table[i].ipAddr == ipaddr && r == (table[i].macAddr, Some(table[i].netdev))
          && forall j :: 0 <= j < i ==> table[j].ipAddr != ipaddr;
      r
  }

  /** The result of a lookup is found again after any add: an add only
      appends, so the first row for an address stays first. */
  lemma AddKeepsLookup(table: ArpTable, netdev: NetDevice, ipaddr: u32, macaddr: MacAddr, q: u32)
    requires exists i :: 0 <= i < |table| && table[i].ipAddr == q
    ensures SearchArpTableEntry(AddArpTableEntry(table, netdev, ipaddr, macaddr), q) == SearchArpTableEntry(table, q)
  {
    var r := AddArpTableEntry(table, netdev, ipaddr, macaddr);
    var i :| 0 <= i < |table| && table[i].ipAddr == q
      && SearchArpTableEntry(table, q) == (table[i].macAddr, Some(table[i].netdev))
      && forall j :: 0 <= j < i ==> table[j].ipAddr != q;
    assert r[i] == table[i];
    var k :| 0 <= k < |r| && r[k].ipAddr == q
      && SearchArpTableEntry(r, q) == (r[k].macAddr, Some(r[k].netdev))
      && forall j :: 0 <= j < k ==> r[j].ipAddr != q;
    assert k == i;
  }

  /** An address that is not in the table yet resolves to the MAC and device
      just added for it, unless its MAC was already known for another
      address, in which case nothing is added and it stays unresolved. */
  lemma AddNewAddressResolves(table: ArpTable, netdev: NetDevice, ipaddr: u32, macaddr: MacAddr)
    requires forall i :: 0 <= i < |table| ==> table[i].ipAddr != ipaddr
    ensures (forall i :: 0 <= i < |table| ==> table[i].macAddr != macaddr) ==>
      SearchArpTableEntry(AddArpTableEntry(table, netdev, ipaddr, macaddr), ipaddr) == (macaddr, Some(netdev))
    ensures (exists i :: 0 <= i < |table| && table[i].macAddr == macaddr) ==>
      SearchArpTableEntry(AddArpTableEntry(table, netdev, ipaddr, macaddr), ipaddr) == (ZERO_MAC, None)
  {
    var r := AddArpTableEntry(table, netdev, ipaddr, macaddr);
    if |r| == |table| + 1 {
      assert r[|table|].ipAddr == ipaddr;
    }
  }

  /** An address already in the table keeps its first MAC: a later add with a
      different MAC does not replace it. */
  lemma AddNeverRebinds(table: ArpTable, netdev: NetDevice, ipaddr: u32, macaddr: MacAddr)
    requires exists i :: 0 <= i < |table| && table[i].ipAddr == ipaddr
    ensures AddArpTableEntry(table, netdev, ipaddr, macaddr) == table
  {
  }

  /** The reply `arpRequestArrives` builds for device `dev` to message `m`. */
  function ReplyFor(dev: NetDevice, m: ArpMsg): ArpMsg
  {
    ArpMsg(ARP_HTYPE_ETHERNET, Ethernet.ETHER_TYPE_IP, Ethernet.ETHERNET_ADDRESS_LEN, IP_ADDRESS_LEN,
      ARP_OPERATION_CODE_REPLY, dev.macaddr, dev.ipdev.address, m.senderHardwareAddr, m.senderIPAddr)
  }

  /** `arpRequestArrives`: a device with an IPv4 address that is the target
      answers the requester with a reply sent to the requester's MAC; nothing
      is sent otherwise. */
  function ArpRequestArrives(dev: NetDevice, m: ArpMsg): (r: Outcome)
    ensures r == Drop || r.Transmit?
    ensures r.Transmit? <==> dev.ipdev.address != 0 && dev.ipdev.address == m.targetIPAddr
    ensures r.Transmit? ==>
      && r.dev == dev
      && |r.frame| == Ethernet.ETHERNET_HEADER_LEN + ARP_PACKET_LEN
      && Ethernet.Parse(r.frame) == Ethernet.EthernetHeader(m.senderHardwareAddr, dev.macaddr, Ethernet.ETHER_TYPE_ARP)
      && Parse(r.frame[Ethernet.ETHERNET_HEADER_LEN..]).opcode == ARP_OPERATION_CODE_REPLY
      && Parse(r.frame[Ethernet.ETHERNET_HEADER_LEN..]).senderIPAddr == m.targetIPAddr
      && Parse(r.frame[Ethernet.ETHERNET_HEADER_LEN..]).senderHardwareAddr == dev.macaddr
      && Parse(r.frame[Ethernet.ETHERNET_HEADER_LEN..]).targetHardwareAddr == m.senderHardwareAddr
      && Parse(r.frame[Ethernet.ETHERNET_HEADER_LEN..]).targetIPAddr == m.senderIPAddr
  {
    if dev.ipdev.address != 0 && dev.ipdev.address == m.targetIPAddr then
      Transmit(dev, Ethernet.EthernetOutput(dev, m.senderHardwareAddr, ToPacket(ReplyFor(dev, m)), Ethernet.ETHER_TYPE_ARP))
    else Drop
  }

  /** `arpReplyArrives`: a device with an IPv4 address learns the sender's
      mapping; a device without one leaves the table alone. */
  function ArpReplyArrives(table: ArpTable, dev: NetDevice, m: ArpMsg): (r: ArpTable)
    ensures dev.ipdev.address == 0 ==> r == table
    ensures dev.ipdev.address != 0 ==> r == AddArpTableEntry(table, dev, m.senderIPAddr, m.senderHardwareAddr)
  {
    if dev.ipdev.address != 0 then AddArpTableEntry(table, dev, m.senderIPAddr, m.senderHardwareAddr) else table
  }

  /** The request `sendArpRequest` builds. */
  function RequestFor(dev: NetDevice, targetip: u32): ArpMsg
  {
    ArpMsg(ARP_HTYPE_ETHERNET, Ethernet.ETHER_TYPE_IP, Ethernet.ETHERNET_ADDRESS_LEN, IP_ADDRESS_LEN,
      ARP_OPERATION_CODE_REQUEST, dev.macaddr, dev.ipdev.address, BROADCAST_MAC, targetip)
  }

  /** `sendArpRequest`: the broadcast frame asking for `targetip`. */
  function SendArpRequest(dev: NetDevice, targetip: u32): (frame: seq<u8>)
    ensures |frame| == Ethernet.ETHERNET_HEADER_LEN + ARP_PACKET_LEN
    ensures Ethernet.Parse(frame) == Ethernet.EthernetHeader(BROADCAST_MAC, dev.macaddr, Ethernet.ETHER_TYPE_ARP)
    ensures Parse(frame[Ethernet.ETHERNET_HEADER_LEN..]) == RequestFor(dev, targetip)
  {
    Ethernet.EthernetOutput(dev, BROADCAST_MAC, ToPacket(RequestFor(dev, targetip)), Ethernet.ETHER_TYPE_ARP)
  }

  /** The checks `arpInput` applies before handing a message on. */
  predicate Acceptable(m: ArpMsg)
  {
    m.protocolType == Ethernet.ETHER_TYPE_IP && m.hardwareLen == Ethernet.ETHERNET_ADDRESS_LEN
      && m.protocolLen == IP_ADDRESS_LEN
  }

  /** `arpInput`: short packets and anything but IPv4-over-Ethernet are
      ignored; opcode 1 is a request and every other opcode a reply. Returns
      the table left behind and what is sent. */
  function ArpInput(table: ArpTable, dev: NetDevice, packet: seq<u8>): (r: (ArpTable, Outcome))
    ensures r.1 == Drop || r.1.Transmit?
    ensures (|packet| < ARP_PACKET_LEN || !Acceptable(Parse(packet))) ==> r == (table, Drop)
    ensures r.1.Transmit? <==>
      && |packet| >= ARP_PACKET_LEN && Acceptable(Parse(packet))
      && Parse(packet).opcode == ARP_OPERATION_CODE_REQUEST
      && dev.ipdev.address != 0 && dev.ipdev.address == Parse(packet).targetIPAddr
    ensures r.0 != table ==>
      && |packet| >= ARP_PACKET_LEN && Acceptable(Parse(packet))
      && Parse(packet).opcode != ARP_OPERATION_CODE_REQUEST && dev.ipdev.address != 0
      && r.0 == table + [ArpEntry(Parse(packet).senderHardwareAddr, Parse(packet).senderIPAddr, dev)]
  {
    if |packet| < ARP_PACKET_LEN then (table, Drop)
    else
      var m := Parse(packet);
      if !Acceptable(m) then (table, Drop)
      else if m.opcode == ARP_OPERATION_CODE_REQUEST then (table, ArpRequestArrives(dev, m))
      else (ArpReplyArrives(table, dev, m), Drop)
  }

  /** A request broadcast by `asker` for the address of `owner` is answered
      by `owner`, and the answer, received back by `asker`, teaches it the
      owner's MAC whenever it knew neither that address nor that MAC. */
  lemma RequestReplyExchange(asker: NetDevice, owner: NetDevice, t0: ArpTable, t1: ArpTable)
    requires asker.ipdev.address != 0 && owner.ipdev.address != 0
    requires forall i :: 0 <= i < |t0| ==> t0[i].ipAddr != owner.ipdev.address && t0[i].macAddr != owner.macaddr
    ensures var req := SendArpRequest(asker, owner.ipdev.address)[Ethernet.ETHERNET_HEADER_LEN..];
      var answer := ArpInput(t1, owner, req).1;
      && answer.Transmit?
      && var rep := answer.frame[Ethernet.ETHERNET_HEADER_LEN..];
      && Ethernet.Parse(answer.frame).destAddr == asker.macaddr
      && SearchArpTableEntry(ArpInput(t0, asker, rep).0, owner.ipdev.address) == (owner.macaddr, Some(asker))
  {
    var req := SendArpRequest(asker, owner.ipdev.address)[Ethernet.ETHERNET_HEADER_LEN..];
    assert Parse(req) == RequestFor(asker, owner.ipdev.address);
    var answer := ArpInput(t1, owner, req).1;
    var rep := answer.frame[Ethernet.ETHERNET_HEADER_LEN..];
    assert rep == ToPacket(ReplyFor(owner, Parse(req)));
    AddNewAddressResolves(t0, asker, owner.ipdev.address, owner.macaddr);
  }
}
