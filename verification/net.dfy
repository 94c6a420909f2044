/** The records every layer of the router shares (net.go, ip.go, nat.go): the
    network device with its IPv4 configuration, the route entry stored in the
    routing trie, and the outcome of handling one received frame.

    A device is referred to by value where the source keeps a pointer to it;
    a nil pointer is `None`. */
module Net {
  import opened Bytes
  import opened Wrappers
  import opened Nat
  import opened Nat64Table

  /** `natDevice`: the address inside hosts are translated to and the NAPT
      and NAT64 tables (nil pointers are `None`). nat.go and nat64.go each
      show one of the two table fields; the record carries both. */
  datatype NatDevice = NatDevice(outsideIpAddr: u32, natEntry: Option<NatEntryList>, nat64Entry: Option<Nat64EntryList>)

  /** The zero `natDevice{}`: NAT is off on the device. */
  const ZERO_NATDEV: NatDevice := NatDevice(0, None, None)

  /** `ipDevice`: the IPv4 configuration of a device; address 0 means the
      device has no IPv4 address. */
  datatype IpDevice = IpDevice(address: u32, netmask: u32, broadcast: u32, natdev: NatDevice)

  /** The zero `ipDevice{}`. */
  const ZERO_IPDEV: IpDevice := IpDevice(0, 0, 0, ZERO_NATDEV)

  /** `netDevice`, without its socket (transmission is the outcome below). */
  datatype NetDevice = NetDevice(name: string, macaddr: MacAddr, ipdev: IpDevice)

  /** `ipRouteType`: `connected` is the zero value. */
  datatype RouteType = Connected | Network

  /** `ipRouteEntry`: a directly connected network (with its device) or a
      network reached via `nexthop`. */
  datatype RouteEntry = RouteEntry(iptype: RouteType, netdev: Option<NetDevice>, nexthop: u32)

  /** The zero `ipRouteEntry{}`, which the trie uses for "no route". */
  const ZERO_ROUTE: RouteEntry := RouteEntry(Connected, None, 0)

  /** What handling one frame makes the router do.
      - `Drop`: nothing is sent (the frame is ignored or dropped).
      - `DeliverLocal`: the packet is for the router itself and nothing is sent.
      - `Transmit(dev, frame)`: `frame` is sent on `dev`.
      - `ArpRequest(dev, target)`: an ARP request for `target` is broadcast on
        `dev` and the packet that needed it is dropped.
      - `NilDevice`: the source dereferences a nil device here (a run-time panic).
      - `OutOfRange`: the source indexes or slices a byte slice past its end
        here (a run-time panic). */
  datatype Outcome =
    | Drop
    | DeliverLocal
    | Transmit(dev: NetDevice, frame: seq<u8>)
    | ArpRequest(dev: NetDevice, target: u32)
    | NilDevice
    | OutOfRange
}
