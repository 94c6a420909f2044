/** The NAT64 entry table of nat64.go (ICMP only): a fixed number of slots,
    each empty (a nil pointer) or holding the mapping of one echo exchange. */
module Nat64Table {
  import opened Bytes
  import opened Wrappers

  /** `nat64Entry`: the IPv4 destination and ICMP identifier a reply comes
      back with, and the IPv6 addresses it must be sent back between. */
  datatype Nat64Entry = Nat64Entry(destipv4Addr: u32, srcipv6Addr: Ipv6Addr, destipv6Addr: Ipv6Addr, icmpIdentify: u16)

  /** The fresh `&nat64Entry{}` returned when nothing is created or found. */
  const EMPTY_ENTRY: Nat64Entry := Nat64Entry(0, ZERO_IPV6, ZERO_IPV6, 0)

  /** `nat64EntryList`: `None` is a nil slot. */
  datatype Nat64EntryList = Nat64EntryList(icmp: seq<Option<Nat64Entry>>)

  /** The lowest nil slot at or after `lo`. */
  function FirstEmptyFrom(s: seq<Option<Nat64Entry>>, lo: nat): (r: Option<nat>)
    requires lo <= |s|
    ensures r.Some? ==> lo <= r.value < |s| && s[r.value].None? && forall j :: lo <= j < r.value ==> s[j].Some?
    ensures r.None? ==> forall j :: lo <= j < |s| ==> s[j].Some?
    decreases |s| - lo
  {
    if lo == |s| then None
    else if s[lo].None? then Some(lo)
    else FirstEmptyFrom(s, lo + 1)
  }

  /** `createNat64IcmpEntry`: stores `e` in the lowest nil slot and returns it;
      a full table is left unchanged and the empty entry is returned. */
  function CreateNat64IcmpEntry(l: Nat64EntryList, e: Nat64Entry): (r: (Nat64EntryList, Nat64Entry))
    ensures |r.0.icmp| == |l.icmp|
    ensures (forall j :: 0 <= j < |l.icmp| ==> l.icmp[j].Some?) ==> r == (l, EMPTY_ENTRY)
    ensures (exists j :: 0 <= j < |l.icmp| && l.icmp[j].None?) ==>
      exists i :: 0 <= i < |l.icmp| && l.icmp[i].None? && r.0.icmp[i] == Some(e) && r.1 == e
        && (forall j :: 0 <= j < i ==> l.icmp[j].Some?)
        && (forall j :: 0 <= j < |l.icmp| && j != i ==> r.0.icmp[j] == l.icmp[j])
  {
    match FirstEmptyFrom(l.icmp, 0)
    case None => (l, EMPTY_ENTRY)
    case Some(i) => (Nat64EntryList(l.icmp[i := Some(e)]), e)
  }

  predicate Matches(v: Option<Nat64Entry>, ipaddr: u32, identify: u16)
  {
    v.Some? && v.value.destipv4Addr == ipaddr && v.value.icmpIdentify == identify
  }

  /** The first occupied slot at or after `lo` matching the address and identifier. */
  function GetFrom(s: seq<Option<Nat64Entry>>, ipaddr: u32, identify: u16, lo: nat): (r: Nat64Entry)
    requires lo <= |s|
    ensures (exists j :: lo <= j < |s| && Matches(s[j], ipaddr, identify)) ==>
      exists i :: lo <= i < |s| && Matches(s[i], ipaddr, identify) && r == s[i].value
        && forall j :: lo <= j < i ==> !Matches(s[j], ipaddr, identify)
    ensures (forall j :: lo <= j < |s| ==> !Matches(s[j], ipaddr, identify)) ==> r == EMPTY_ENTRY
    decreases |s| - lo
  {
    if lo == |s| then EMPTY_ENTRY
    else if Matches(s[lo], ipaddr, identify) then s[lo].value
    else GetFrom(s, ipaddr, identify, lo + 1)
  }

  /** `getNat64IcmpEntry`: the first occupied slot whose IPv4 address and
      identifier match, or the empty entry; the table is only read. */
  function GetNat64IcmpEntry(l: Nat64EntryList, ipaddr: u32, identify: u16): (r: Nat64Entry)
    ensures (exists j :: 0 <= j < |l.icmp| && Matches(l.icmp[j], ipaddr, identify)) ==>
      exists i :: 0 <= i < |l.icmp| && Matches(l.icmp[i], ipaddr, identify) && r == l.icmp[i].value
        && forall j :: 0 <= j < i ==> !Matches(l.icmp[j], ipaddr, identify)
    ensures (forall j :: 0 <= j < |l.icmp| ==> !Matches(l.icmp[j], ipaddr, identify)) ==> r == EMPTY_ENTRY
  {
    GetFrom(l.icmp, ipaddr, identify, 0)
  }

  /** What an echo request records is what its reply finds: after creating
      `e` in a table that has a nil slot and no entry for the same address and
      identifier, looking those up returns `e`. */
  lemma CreatedEntryIsFound(l: Nat64EntryList, e: Nat64Entry)
    requires exists j :: 0 <= j < |l.icmp| && l.icmp[j].None?
    requires forall j :: 0 <= j < |l.icmp| ==> !Matches(l.icmp[j], e.destipv4Addr, e.icmpIdentify)
    ensures CreateNat64IcmpEntry(l, e).1 == e
    ensures GetNat64IcmpEntry(CreateNat64IcmpEntry(l, e).0, e.destipv4Addr, e.icmpIdentify) == e
  {
    var r := CreateNat64IcmpEntry(l, e).0;
    var i :| 0 <= i < |l.icmp| && l.icmp[i].None? && r.icmp[i] == Some(e)
      && (forall j :: 0 <= j < |l.icmp| && j != i ==> r.icmp[j] == l.icmp[j]);
    assert Matches(r.icmp[i], e.destipv4Addr, e.icmpIdentify);
  }
}
