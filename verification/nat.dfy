/** The NAPT slot tables of nat.go: one fixed-size table per protocol, where
    the slot index determines the global port (or ICMP identifier) that the
    slot hands out. Lookups by global port read one slot; lookups by local
    address scan the table; allocation takes the first free slot. The
    translation itself (`natExec`) is not part of this module. */
module Nat {
  import opened Bytes
  import opened Wrappers

  const NAT_GLOBAL_PORT_MIN: nat := 20000
  const NAT_GLOBAL_PORT_MAX: nat := 59999
  const NAT_GLOBAL_PORT_SIZE: nat := NAT_GLOBAL_PORT_MAX - NAT_GLOBAL_PORT_MIN + 1
  const NAT_ICMP_ID_SIZE: nat := 0xffff

  datatype NatProtocol = Tcp | Udp | Icmp
  datatype NatDirection = Incoming | Outgoing

  /** `natEntry`: a translation between a local and a global (address, port). */
  datatype NatEntry = NatEntry(globalIpAddr: u32, localIpAddr: u32, globalPort: u16, localPort: u16)

  /** The zero `natEntry{}` returned for "not found". */
  const ZERO_ENTRY: NatEntry := NatEntry(0, 0, 0, 0)

  /** `natEntryList`: the three slot tables. */
  datatype NatEntryList = NatEntryList(icmp: seq<NatEntry>, tcp: seq<NatEntry>, udp: seq<NatEntry>)

  /** The table a protocol uses. */
  function Slots(l: NatEntryList, proto: NatProtocol): seq<NatEntry>
  {
    match proto
    case Tcp => l.tcp
    case Udp => l.udp
    case Icmp => l.icmp
  }

  /** The table of `proto` replaced by `s`. */
  function WithSlots(l: NatEntryList, proto: NatProtocol, s: seq<NatEntry>): (r: NatEntryList)
    ensures Slots(r, proto) == s
    ensures forall q :: q != proto ==> Slots(r, q) == Slots(l, q)
  {
    match proto
    case Tcp => l.(tcp := s)
    case Udp => l.(udp := s)
    case Icmp => l.(icmp := s)
  }

  /** How many slots the loops of nat.go walk for a protocol. */
  function PoolSize(proto: NatProtocol): nat
  {
    if proto == Icmp then NAT_ICMP_ID_SIZE else NAT_GLOBAL_PORT_SIZE
  }

  /** Tables of the sizes the loops of nat.go walk. */
  predicate Valid(l: NatEntryList)
  {
    |l.icmp| == NAT_ICMP_ID_SIZE && |l.tcp| == NAT_GLOBAL_PORT_SIZE && |l.udp| == NAT_GLOBAL_PORT_SIZE
  }

  /** The slot a global port selects: `port - NAT_GLOBAL_PORT_MIN` in 16-bit
      arithmetic for TCP and UDP, the identifier itself for ICMP. */
  function SlotOf(proto: NatProtocol, port: u16): nat
  {
    if proto == Icmp then port else (port - NAT_GLOBAL_PORT_MIN) % 0x1_0000
  }

  /** A port whose slot exists; any other port makes the source index past the table. */
  predicate InPool(proto: NatProtocol, port: u16)
  {
    SlotOf(proto, port) < PoolSize(proto)
  }

  /** The global port allocation gives slot `i`: `NAT_GLOBAL_PORT_MIN + i`,
      or `i` for ICMP. */
  function PortOf(proto: NatProtocol, i: nat): u16
    requires i < PoolSize(proto)
  {
    if proto == Icmp then i else NAT_GLOBAL_PORT_MIN + i
  }

  /** The port of a slot selects that slot, and a port in the pool is the
      port of the slot it selects. */
  lemma PortSlotInverse(proto: NatProtocol, i: nat, port: u16)
    requires i < PoolSize(proto)
    ensures SlotOf(proto, PortOf(proto, i)) == i
    ensures InPool(proto, port) ==> PortOf(proto, SlotOf(proto, port)) == port
  {
  }

  /** A TCP or UDP port is in the pool exactly when it lies in 20000..59999. */
  lemma TransportPoolRange(proto: NatProtocol, port: u16)
    requires proto != Icmp
    ensures InPool(proto, port) <==> NAT_GLOBAL_PORT_MIN <= port <= NAT_GLOBAL_PORT_MAX
  {
  }

  /** `getNatEntryByGlobal`: only the slot the port selects is examined, and it
      is returned when both its global address and port match. */
  function GetNatEntryByGlobal(l: NatEntryList, proto: NatProtocol, ipaddr: u32, port: u16): (r: NatEntry)
    requires Valid(l) && InPool(proto, port)
    ensures r == ZERO_ENTRY || (r.globalIpAddr == ipaddr && r.globalPort == port)
    ensures r != ZERO_ENTRY ==> r == Slots(l, proto)[SlotOf(proto, port)]
  {
    var e := Slots(l, proto)[SlotOf(proto, port)];
    if e.globalIpAddr == ipaddr && e.globalPort == port then e else ZERO_ENTRY
  }

  /** Global lookup finds every slot that holds its own port: a slot `i` whose
      global port is `PortOf(proto, i)` is returned for its address and port. */
  lemma GlobalLookupFindsSlot(l: NatEntryList, proto: NatProtocol, i: nat)
    requires Valid(l) && i < PoolSize(proto)
    requires Slots(l, proto)[i].globalPort == PortOf(proto, i)
    ensures InPool(proto, PortOf(proto, i))
    ensures GetNatEntryByGlobal(l, proto, Slots(l, proto)[i].globalIpAddr, PortOf(proto, i)) == Slots(l, proto)[i]
  {
    PortSlotInverse(proto, i, PortOf(proto, i));
  }

  predicate LocalMatch(e: NatEntry, ipaddr: u32, port: u16)
  {
    e.localIpAddr == ipaddr && e.localPort == port
  }

  /** `getNatEntryByLocal`: the lowest slot whose local address and port
      match, or the zero entry when none does. */
  method GetNatEntryByLocal(l: NatEntryList, proto: NatProtocol, ipaddr: u32, port: u16) returns (r: NatEntry)
    requires Valid(l)
    ensures (exists i :: 0 <= i < PoolSize(proto) && LocalMatch(Slots(l, proto)[i], ipaddr, port)) ==>
      exists i :: 0 <= i < PoolSize(proto) && LocalMatch(Slots(l, proto)[i], ipaddr, port) && r == Slots(l, proto)[i]
        && forall j :: 0 <= j < i ==> !LocalMatch(Slots(l, proto)[j], ipaddr, port)
    ensures (forall i :: 0 <= i < PoolSize(proto) ==> !LocalMatch(Slots(l, proto)[i], ipaddr, port)) ==>
      r == ZERO_ENTRY
  {
    var s := Slots(l, proto);
    var n := PoolSize(proto);
    var i := 0;
    while i < n
      invariant 0 <= i <= n
      invariant forall j :: 0 <= j < i ==> !LocalMatch(s[j], ipaddr, port)
    {
      if LocalMatch(s[i], ipaddr, port) {
        return s[i];
      }
      i := i + 1;
    }
    return ZERO_ENTRY;
  }

  /** The lowest index at or after `lo` whose global address is 0. */
  function FirstFreeFrom(s: seq<NatEntry>, lo: nat): (r: Option<nat>)
    requires lo <= |s|
    ensures r.Some? ==>
      && lo <= r.value < |s| && s[r.value].globalIpAddr == 0
      && forall j :: lo <= j < r.value ==> s[j].globalIpAddr != 0
    ensures r.None? ==> forall j :: lo <= j < |s| ==> s[j].globalIpAddr != 0
    decreases |s| - lo
  {
    if lo == |s| then None
    else if s[lo].globalIpAddr == 0 then Some(lo)
    else FirstFreeFrom(s, lo + 1)
  }

  /** Two tables with the same global addresses have the same first free slot. */
  lemma {:induction false} FirstFreeFromSameAddresses(s: seq<NatEntry>, t: seq<NatEntry>, lo: nat)
    requires lo <= |s| == |t|
    requires forall j :: 0 <= j < |s| ==> s[j].globalIpAddr == t[j].globalIpAddr
    ensures FirstFreeFrom(s, lo) == FirstFreeFrom(t, lo)
    decreases |s| - lo
  {
    if lo < |s| && s[lo].globalIpAddr != 0 {
      FirstFreeFromSameAddresses(s, t, lo + 1);
    }
  }

  /** `createNatEntry`: the lowest slot whose global address is 0 gets the
      global port of its index; everything else is left as it was, and a full
      table is left unchanged. */
  function CreateNatEntry(l: NatEntryList, proto: NatProtocol): (r: NatEntryList)
    requires Valid(l)
    ensures Valid(r)
    ensures forall q :: q != proto ==> Slots(r, q) == Slots(l, q)
    ensures FirstFreeFrom(Slots(l, proto), 0).None? ==> r == l
    ensures FirstFreeFrom(Slots(l, proto), 0).Some? ==>
      var i := FirstFreeFrom(Slots(l, proto), 0).value;
      && |Slots(r, proto)| == |Slots(l, proto)|
      && Slots(r, proto)[i].globalPort == PortOf(proto, i)
      && (forall j :: 0 <= j < |Slots(l, proto)| && j != i ==> Slots(r, proto)[j] == Slots(l, proto)[j])
      && Slots(r, proto)[i] == Slots(l, proto)[i].(globalPort := Slots(r, proto)[i].globalPort)
  {
    var s := Slots(l, proto);
    match FirstFreeFrom(s, 0)
    case None => l
    case Some(i) => WithSlots(l, proto, s[i := s[i].(globalPort := PortOf(proto, i))])
  }

  /** `createNatEntry` never sets a global address, so calling it again picks
      the same slot and changes nothing more. */
  lemma CreateNatEntryIdempotent(l: NatEntryList, proto: NatProtocol)
    requires Valid(l)
    ensures CreateNatEntry(CreateNatEntry(l, proto), proto) == CreateNatEntry(l, proto)
  {
    var r := CreateNatEntry(l, proto);
    FirstFreeFromSameAddresses(Slots(l, proto), Slots(r, proto), 0);
  }

  /** A slot holds its own port when its global port is 0 or the port of its index. */
  predicate PortsInPlace(l: NatEntryList, proto: NatProtocol)
    requires Valid(l)
  {
    forall i :: 0 <= i < PoolSize(proto) ==>
      Slots(l, proto)[i].globalPort == 0 || Slots(l, proto)[i].globalPort == PortOf(proto, i)
  }

  /** Allocation keeps every slot holding its own port, and the slot it
      allocates is then found by global lookup under the port it was given. */
  lemma CreateNatEntryFoundByGlobal(l: NatEntryList, proto: NatProtocol)
    requires Valid(l) && PortsInPlace(l, proto)
    ensures PortsInPlace(CreateNatEntry(l, proto), proto)
    ensures FirstFreeFrom(Slots(l, proto), 0).Some? ==>
      var i := FirstFreeFrom(Slots(l, proto), 0).value;
      var r := CreateNatEntry(l, proto);
      InPool(proto, PortOf(proto, i)) && GetNatEntryByGlobal(r, proto, 0, PortOf(proto, i)) == Slots(r, proto)[i]
  {
    var r := CreateNatEntry(l, proto);
    var f := FirstFreeFrom(Slots(l, proto), 0);
    if f.Some? {
      GlobalLookupFindsSlot(r, proto, f.value);
    }
  }
}
