# go-curo packet core in Dafny

This project models the pure packet logic of go-curo. go-curo is a small
software router written in Go. The model covers these parts:

- The Internet checksum and big-endian byte helpers (`utils.go`).
- Encoders and decoders for Ethernet, ARP, IPv4, UDP, TCP, the TCP/UDP
  pseudo header, ICMP, ICMPv6 and the IPv6 fixed header.
- The binary radix trie used as the IPv4 routing table (`radix_tree.go`).
- The ARP table and ARP request/reply handling (`arp.go`).
- The IPv4 receive pipeline `ipInput`, its local-delivery half
  `ipInputToOurs`, and the output helpers (`ip.go`).
- The NAPT slot tables (`nat.go`).
- NAT64 header translation, the NAT64 ICMP entry table, and the two NAT64
  ICMP paths (`nat64.go`).
- The receive dispatch `icmpv6Input`, `ipv6Input`, `icmpInput` and
  `ethernetInput`.

Global state is passed explicitly. The state is the ARP table, the device
list and the route trie, which together form `IpInput.Router`. Each receive
function returns the state it leaves behind together with an `Outcome`:
- dropped;
- consumed locally;
- a frame transmitted on a device;
- an ARP request sent instead;
- a nil dereference in the Go code (`NilDevice`);
- a slice read past its end in the Go code (`OutOfRange`).

Go functions that the modelled code calls but that are not shown become
function parameters. These are `natExec`, `ipv6DummyHeader.ToPacket`,
`ToICMPv4Packet`, `getIcmpv4Identify`, `ToICMPv6ReplayPacket`,
`radixTreeSearchv6`, `ipv6Header.ToPacket` and `byteToUint64`.

Modules, one per file: `Wrappers`, `Bytes`, `Checksum`, `Net`, `Ethernet`,
`Arp`, `Radix`, `Transport`, `Icmp`, `Ipv4`, `IpInput`, `Ipv6`, `Icmpv6`,
`Nat`, `Nat64Table`, `Nat64`, `Router`.

The model follows the code, including its three defects (see Findings).
Every sender writes the single-fold `calcChecksum`, so a header or message
it builds passes the receiver test when one carry fold suffices, and for any
message that fits in a frame only then (`Checksum.CalcChecksumVerifies`).
`IpInput.IpInput` reads the IPv4 header length from three bits, as
ip.go:127 does. The Neighbor Solicitation option is decoded one byte late,
which changes nothing that is sent: the reply uses only the target address
(`Icmpv6.NsDecodesAgreeOnTarget`). The corrected versions are separate
members: `Checksum.FullFoldChecksum`, `IpInput.IpInputCorrected` and
`Icmpv6.NsParse` (see `Icmpv6.NsRoundTrip`).

In four places the code does not do what its comments, names or callers
suggest. The model follows the code:
- ARP rows are never updated in place. The comments at arp.go:108-117 say a
  row is updated, but `addArpTableEntry` assigns to the loop copy of the
  row, so a known address keeps its first MAC for good.
- `natICMP4to6` does not drop a reply that has no NAT64 entry. It goes on
  with the empty entry.
- `ethernetInput` never hands IPv6 frames to `ipv6Input`. They fall through
  the ethertype switch.
- `ipInputToOurs` calls `icmpInput` with four arguments at ip.go:291
  (the device, both addresses and the payload). The function shown at
  icmp.go:42 takes three (both addresses and the ICMP bytes), and reads
  only the ICMP bytes. The model passes the payload.

## Model

| member | source | states |
|---|---|---|
| Bytes.U16ToBytes | utils.go:43-47 | the two bytes written decode back to the same 16-bit value |
| Bytes.U32ToBytes | utils.go:49-53 | the four bytes decode back to the same 32-bit value; the high half comes first |
| Bytes.U16BytesInverse | utils.go:35-47 | encoding a decoded 16-bit value gives back the first two bytes |
| Bytes.U32BytesInverse | utils.go:39-53 | encoding a decoded 32-bit value gives back the first four bytes |
| Bytes.U32TopByte | utils.go:49-53 | the first byte written is the value's top 8 bits |
| Checksum.Sum16Suffix | utils.go:9-16 | a suffix's word sum is its first word plus the sum of the rest |
| Checksum.SumByteArr | utils.go:9-16 | the loop that adds at every even index computes the sum of the big-endian 16-bit words |
| Checksum.Sum16Append | utils.go:9-16 | the word sum of a concatenation of even-length parts is the sum of the parts' sums |
| Checksum.Sum16AtWord | utils.go:9-16 | the word sum is the sum before an aligned word, plus that word, plus the sum after it |
| Checksum.Sum16Splice | utils.go:9-16 | overwriting one aligned word changes the sum by exactly the difference of the words |
| Checksum.CalcChecksum | utils.go:18-25 | the result is 2 bytes whose value is the ones' complement of the once-folded sum |
| Checksum.FullFold | utils.go:22 | the end-around-carry fold is below 2^16, congruent to the sum mod 0xffff, and zero only for a zero sum |
| Checksum.ChecksumVerifiesWithoutSecondCarry | utils.go:18-25 | when one fold leaves no carry, writing the checksum into a zeroed field gives a message that passes the receiver test, and whose own checksum is zero |
| Checksum.Sum16Bound | utils.go:9-16 | the word sum is at most 0xffff per word |
| Checksum.CarryBreaksChecksum | utils.go:18-25 | when the single fold leaves a carry, the message with the as-written checksum in its zeroed field sums to something that folds to 1, so it fails the receiver test |
| Checksum.CalcChecksumVerifies | utils.go:18-25 | with the as-written checksum in a zeroed field the receiver test passes when one fold suffices and, for messages up to 0x10000 words, only then |
| Checksum.FullFoldChecksum | utils.go:18-25 | the corrected checksum is 2 bytes whose value added to the fully folded sum is 0xffff |
| Checksum.FullFoldChecksumVerifies | utils.go:18-25 | writing the corrected checksum into a zeroed aligned field always gives a message that passes the receiver test |
| Checksum.FullFoldAgreesWithSingleFold | utils.go:18-25 | the as-written and corrected checksums agree whenever one fold leaves no carry |
| Checksum.FullFoldOfSmallFold | utils.go:22 | a single fold that fits in 16 bits is already the full fold |
| Checksum.VerifiedHasZeroChecksum | utils.go:18-25 | recomputing the checksum of a message that passes the receiver test gives zero |
| Checksum.SingleFoldCounterexample | utils.go:22 | an 8-byte message whose as-written checksum 0xffff fails the receiver test, while the corrected checksum is 0xfffe |
| Checksum.SpliceTwice | utils.go:18-25 | writing a 2-byte field twice leaves only the second write |
| Checksum.CarryRefold | utils.go:22 | for a two-word sum whose single fold carries, adding the as-written checksum folds to exactly 0x10000, and adding 0xffff folds to the same value as the sum |
| Checksum.RechecksumAfterCarry | utils.go:18-25 | when the single fold carries, the checksum recomputed over the message carrying its checksum is ff ff, and writing ff ff back in gives the original checksum again |
| Checksum.RechecksumIsStable | utils.go:18-25 | recomputing over a message carrying its checksum gives 00 00 without a carry and ff ff with one; either way a third pass writes the original checksum back |
| Checksum.CalcChecksumTestVector | utils.go:18-25 | a sample 20-byte IPv4 header has checksum c6 5c under both folds |
| Ethernet.MacToBytes | ethernet.go:47-52 | the six bytes are the MAC address's bytes in order |
| Ethernet.SetMacAddr | ethernet.go:31-37 | the given bytes are copied to the front and the rest of the address is zero |
| Ethernet.MacRoundTrip | ethernet.go:31-52 | six bytes made into a MAC address and written out again are unchanged |
| Ethernet.ToPacket | ethernet.go:23-29 | the header is 14 bytes and decodes, as `ethernetInput` reads it, to the same header |
| Ethernet.ParseInverse | ethernet.go:77-79 | re-encoding the decoded header gives back the first 14 bytes of the frame |
| Ethernet.EthernetOutput | ethernet.go:102-117 | the frame is 14 bytes longer than the payload, carries the given destination, the device's MAC and the type, and then the payload unchanged |
| Arp.ToPacket | arp.go:36-50 | the message is 28 bytes and decodes, as `arpInput` reads it, to the same message |
| Arp.ParseInverse | arp.go:64-74 | re-encoding a decoded message gives back the first 28 bytes |
| Arp.RowStopsAddIff | arp.go:106-132 | a row stops the add exactly when it already holds the address or the MAC |
| Arp.AddStopsEarly | arp.go:106-132 | the add stops before appending exactly when some row has that address or that MAC |
| Arp.AddArpTableEntry | arp.go:106-132 | existing rows are kept in order; one row is appended exactly when no row has the address or the MAC; afterwards some row has one of them |
| Arp.AddPreservesUnique | arp.go:106-132 | a table that maps no address and no MAC twice keeps that property after an add |
| Arp.SearchArpTableEntry | arp.go:137-146 | a known address yields the MAC and device of a row holding it; an unknown one yields the zero MAC and no device |
| Arp.AddKeepsLookup | arp.go:106-146 | an add never changes what an address already in the table resolves to |
| Arp.AddNewAddressResolves | arp.go:106-146 | after adding a new address, it resolves to the new MAC, unless that MAC was already known for another address, in which case it stays unresolved |
| Arp.AddNeverRebinds | arp.go:106-132 | adding a known address with any MAC leaves the table unchanged |
| Arp.ArpRequestArrives | arp.go:152-172 | a reply is sent exactly when the request targets the device's non-zero address; it goes to the requester's MAC, with sender and target swapped and the device's MAC filled in |
| Arp.ArpReplyArrives | arp.go:178-185 | a device without an address ignores the reply; otherwise the sender mapping is added |
| Arp.SendArpRequest | arp.go:191-207 | the frame is broadcast with the ARP ethertype and carries a request from the device for the target address |
| Arp.ArpInput | arp.go:56-100 | short or malformed messages are ignored; a frame is sent exactly for a request to this device; the table grows by the sender only on a reply received on a device with an address |
| Arp.RequestReplyExchange | arp.go:56-207 | a request broadcast by one device is answered by the owner of the address, and the answer teaches the asker the owner's MAC |
| Radix.Path | radix_tree.go:13-41 | the first n address bits, from the most significant, form the path of length n |
| Radix.SubAtAppend | radix_tree.go:13-64 | walking one more bit moves to that child |
| Radix.SubAtNil | radix_tree.go:43-64 | every walk from an empty subtree stays empty |
| Radix.PathStep | radix_tree.go:43-64 | the path of length n+1 is the path of length n followed by bit n+1 |
| Radix.LongestBelowNil | radix_tree.go:43-64 | below an empty subtree no route is found |
| Radix.SearchFromIsLongest | radix_tree.go:43-64 | the search loop from depth i returns the deepest stored entry on the address's path at or below i, or the entry already held |
| Radix.SearchIsLongestFrom | radix_tree.go:43-64 | `radixTreeSearch` equals the deepest-entry-on-path reference definition |
| Radix.LongestFromCharacterized | radix_tree.go:43-64 | the reference result is either no route or the entry at some depth below 32, with nothing stored deeper on the path |
| Radix.SearchIsLongestMatch | radix_tree.go:43-64 | a search returns either no route or the entry at the longest prefix of the address that holds one |
| Radix.LongestFromOfDeepest | radix_tree.go:43-64 | when depth k holds the deepest entry on the path, the reference result is that entry |
| Radix.LongestPrefixWins | radix_tree.go:43-64 | the longest matching stored prefix wins the search |
| Radix.EmptyHoldsNothing | radix_tree.go:4-11 | the empty root stores no entry at any path |
| Radix.DataAtStep | radix_tree.go:43-64 | the entry at a path is the entry at its tail below the first child |
| Radix.AddFromChild | radix_tree.go:13-41 | one insertion step: the child on the prefix's next bit is the insertion one level down, and every other child is unchanged |
| Radix.PathSuffixStep | radix_tree.go:13-41 | a path lies on the prefix's path from depth i exactly when its first bit is the prefix's next bit and the rest lies on the path from depth i+1 |
| Radix.AddFromDataAt | radix_tree.go:13-41 | an insertion from depth i changes only the entry at the prefix path, which becomes the new entry |
| Radix.AddDataAt | radix_tree.go:13-41 | `radixTreeAdd` stores the entry at exactly the prefix's path and changes no other path |
| Radix.AddFromIgnoresLowBits | radix_tree.go:13-41 | an insertion from depth i reads no prefix bits beyond the prefix length |
| Radix.AddIgnoresLowBits | radix_tree.go:13-41 | two prefixes that agree on their first prefixLen bits give the same trie |
| Radix.LongestFromUnchanged | radix_tree.go:43-64 | the search depends only on the entries along the address's path |
| Radix.SlashThirtyTwoIsInvisible | radix_tree.go:13-64 | a /32 route is stored at depth 32, which the search never examines, so it never changes a result |
| Radix.ZeroEntryIsNoRoute | radix_tree.go:13-64 | storing the zero entry where none was stored changes no search |
| Radix.PathsAgree | radix_tree.go:43-64 | addresses that agree on their first n bits take the same path to depth n |
| Radix.PathToTwoFive | radix_tree.go:43-64 | 192.168.2.5 takes the path of 192.168.2.0/24 |
| Radix.PathToFiveFive | radix_tree.go:43-64 | 192.168.5.5 takes the path of 192.168.0.0/16 |
| Radix.CoveredTrieData | radix_tree.go:13-41 | the two-route sample trie stores exactly 192.168.2.0/24 and 192.168.0.0/16 |
| Radix.CoveredTrieMoreSpecific | radix_tree.go:43-64 | 192.168.2.5 is routed by the /24, not the covering /16 |
| Radix.CoveredTrieCovering | radix_tree.go:43-64 | 192.168.5.5 falls back to the covering /16 |
| Radix.FirstBitSeparates | radix_tree.go:43-64 | addresses differing in the top bit have no common non-empty path |
| Radix.CoveredTrieMissesTen | radix_tree.go:43-64 | no entry on the path of 10.0.0.1 is stored in the sample trie |
| Radix.CoveredTrieNoRoute | radix_tree.go:43-64 | 10.0.0.1 has no route in the sample trie |
| Transport.DummyToPacket | packet_header.go:37-45 | the pseudo header is 12 bytes holding source, destination, protocol and length at their offsets |
| Transport.UdpToPacket | packet_header.go:47-52 | the UDP header is 8 bytes and decodes to the same header |
| Transport.UdpParseInverse | packet_header.go:79-86 | re-encoding a decoded UDP header gives back the first 8 bytes |
| Transport.TcpFixedBytes | packet_header.go:54-77 | each fixed TCP field sits at its offset in the 20 fixed bytes |
| Transport.TcpToPacket | packet_header.go:54-77 | the segment is the fixed bytes, then the options, then the data |
| Transport.TcpParsePacket | packet_header.go:88-112 | the decoded fixed fields are the first 20 bytes; options run to the data offset; data follows |
| Transport.TcpFixedInverse | packet_header.go:54-112 | the fixed fields decoded from 20 bytes encode back to them |
| Transport.TcpFixedInjective | packet_header.go:54-77 | headers with the same fixed bytes differ only in options and data |
| Transport.TcpRoundTrip | packet_header.go:54-112 | a header whose data offset matches its options decodes back to itself |
| Transport.TcpParseInverse | packet_header.go:54-112 | a segment whose data offset lies within it is re-encoded byte for byte |
| Icmp.Decode | icmp.go:48-60 | an 8-byte timestamp is read, and the data is everything after the 16 fixed bytes |
| Icmp.Encode | icmp.go:48-60 | the encoding is 16 bytes longer than the data |
| Icmp.DecodeEncode | icmp.go:48-60 | decoding an encoded message gives back the message |
| Icmp.EncodeDecode | icmp.go:48-60 | encoding a decoded message gives back the bytes |
| Icmp.IcmpInput | icmp.go:42-69 | an echo reply is only logged, and an echo request is recognised but not answered |
| Ipv4.Serialize | ip.go:50-63 | the header is 20 bytes and, when version and length fit in 4 bits, decodes to the same header |
| Ipv4.FirstByteFields | ip.go:53 | the first byte carries the version in its high nibble and the header length in its low nibble |
| Ipv4.ParseReadsHeader | ip.go:125-137 | decoding reads only the first 20 bytes |
| Ipv4.SerializeParse | ip.go:50-63 | re-encoding a decoded header gives back the first 20 bytes |
| Ipv4.HeaderLenAsWritten | ip.go:127 | the as-written header length keeps only the low 3 bits of byte 0 |
| Ipv4.OptionsHeaderPassesAsWritten | ip.go:127 | a header with IHL 13 reads as length 5 as written, so the options test passes it |
| Ipv4.HeaderLenRoundTrip | ip.go:127 | the corrected read gives back every 4-bit header length, while the as-written one does so only below 8 |
| Ipv4.ToPacket | ip.go:50-76 | without `calc` the bytes are the plain encoding; with it only bytes 10-11 change, and they hold the single-fold `calcChecksum` of the plain encoding |
| Ipv4.ToPacketVerifies | ip.go:64-70 | a header written with `calc` and a zero checksum field passes the receiver test exactly when one carry fold suffices, and its checksum is then zero |
| Ipv4.ToPacketParse | ip.go:50-76 | a header written with `calc` decodes to the same header carrying the single-fold checksum of its plain encoding |
| Ipv4.SerializeWithChecksum | ip.go:50-76 | bytes 10-11 of the encoding are the checksum field, and changing only that field overwrites only those two bytes |
| Ipv4.PrefixLenUnique | ip.go:100-108 | a netmask has at most one prefix length |
| Ipv4.SubnetToPrefixLen | ip.go:100-108 | the result counts the leading one bits of the mask, up to the first zero bit |
| Ipv4.Slash24PrefixLen | ip.go:98-108 | 0xffffff00 has prefix length 24 |
| Ipv4.DirectedBroadcast | ip.go:86-87 | the directed broadcast keeps the network bits of the address and sets every host bit |
| Ipv4.BroadcastUnique | ip.go:86-87 | it is the only address with those two properties |
| Ipv4.OutputToHost | ip.go:306-318 | a nil device is dereferenced; an unknown MAC sends an ARP request for the destination; a known MAC sends the packet on that device to that MAC as IPv4 |
| Ipv4.OutputToNexthop | ip.go:323-342 | a known next-hop MAC sends the packet to it on the device recorded in the next hop's ARP entry; an unknown one asks ARP for the next hop |
| Ipv4.IpPacketOutput | ip.go:347-361 | a connected route sends to the host, a network route to the next hop |
| Ipv4.NoRouteIsNotDropped | ip.go:347-361 | with no route the zero entry is read as connected, so the packet is not silently dropped |
| Ipv4.Packet | ip.go:367-391 | the datagram is the header followed by the payload; the header decodes to the requested one and passes the checksum test exactly when one carry fold suffices |
| Ipv4.EncapsulatedPacket | ip.go:367-391 | the same, for the header `ipPacketEncapsulateOutput` builds |
| Ipv4.IpPacketEncapsulateOutput | ip.go:367-391 | an unknown destination MAC asks ARP; a known one sends the encapsulated datagram on the input device to that MAC |
| Ipv4.EncapsulationTotalLen | ip.go:367-391 | the total length is 20 plus the payload length, and the header has no options |
| IpInput.NatDeviceFor | ip.go:254-256 | no device is found exactly when none translates for the address; a found one translates for it and comes from the list |
| IpInput.TransportOf | ip.go:188-203 | UDP and TCP map to their translation protocols, and every other number to none |
| IpInput.ForwardHeader | ip.go:221-229 | the second checksum pass writes the same bytes as a single pass, so the forwarded header is the received header with the TTL one lower, carrying the single-fold checksum of its zero-checksum form; it passes the checksum test exactly when one carry fold suffices for that form |
| IpInput.ForwardIsOnePass | ip.go:221-229 | writing a zero-checksum header with `calc`, taking its checksum and writing it with `calc` again gives the bytes of the first write |
| IpInput.ForwardedCarryFailsVerification | ip.go:221-229 | a valid received header whose lowered, zero-checksum form sums to 0x1ffff is forwarded carrying ff ff and fails the checksum test |
| IpInput.CarrySampleForwarded | ip.go:221-229 | both checksum passes write ff ff into that header |
| IpInput.CarryChecksum | utils.go:18-25 | a word sum of 0x1ffff or 0x2fffe gets the single-fold checksum ff ff |
| IpInput.Outbound | ip.go:183-204 | without NAT the packet passes unchanged; with NAT and neither UDP nor TCP, only the header goes on |
| IpInput.InputToOurs | ip.go:251-300 | without a NAT device for the address or with a protocol other than UDP and TCP, the packet is consumed locally, or slices out of range for an ICMP payload under 16 bytes; anything sent was translated back by `natExec`, and the frame carries the rewritten header and the translated bytes |
| IpInput.Forward | ip.go:183-244 | anything sent or asked for by ARP had a translation, a route for the rewritten destination and a TTL above 1; a sent frame carries the rewritten header with the TTL one lower, followed by the translated bytes |
| IpInput.IpInput | ip.go:114-146 | a device without an address or a short packet is dropped with the table unchanged; otherwise the sender is learned |
| IpInput.IpInputCorrected | ip.go:114-146 | the same receive path with the header length read from four bits: the same drops before learning, and the sender is learned |
| IpInput.RejectedIsDropped | ip.go:114-163 | a packet failing the address, length, version or options check, the last with the length read from three bits, is dropped |
| IpInput.OptionsAreDropped | ip.go:159-163 | with the corrected read, every header carrying options is dropped |
| IpInput.OptionsPassAsWritten | ip.go:127-181 | as written, a header of 13 words for one of our addresses passes the checks and reaches `ipInputToOurs`, while the corrected path drops it |
| IpInput.OursIsNotForwarded | ip.go:165-181 | a packet for one of our addresses or broadcasts, with no NAT translation back, is consumed locally, except that an ICMP payload under 16 bytes makes `icmpInput` slice out of range |
| IpInput.SenderIsLearned | ip.go:142-146 | an unknown sender with an unknown MAC resolves afterwards to that MAC on the receiving device |
| IpInput.LearningKeepsKnownAddresses | ip.go:142-146 | learning never changes what a known address resolves to |
| IpInput.ForwardDecrementsTtl | ip.go:206-244 | without NAT, a routed packet with TTL above 1 goes out via host or next hop; its header is the header as read with the TTL one lower, passing the checksum test exactly when one carry fold suffices, and every byte after the first 20 follows unchanged |
| IpInput.ExpiredOrUnroutableIsDropped | ip.go:183-219 | a packet for someone else that NAPT leaves alone (no NAT on the receiving device, or neither UDP nor TCP) is dropped when it has no route or a TTL of at most 1 |
| IpInput.NatOutboundCases | ip.go:183-244 | with NAT, a translation error drops the packet, and ICMP is forwarded as its header alone |
| IpInput.NatForwardIsTranslated | ip.go:183-244 | with NAT, a UDP or TCP packet that `natExec` translates outwards is routed and TTL-tested by its rewritten header; it is dropped without a route or with a TTL of at most 1, and otherwise leaves as the rewritten header with the TTL one lower, followed by the translated bytes |
| IpInput.NatReturnIsTranslated | ip.go:251-281 | a UDP or TCP packet for a NAT device's outside address is dropped when `natExec` fails to translate it back; otherwise the rewritten header, with no new checksum, and the translated bytes go out through that device towards the rewritten destination |
| Ipv6.Parse | ipv6.go:18-40 | the version is the high nibble of byte 0 and the top nibble of the first word |
| Ipv6.Layout | ipv6.go:29-37 | the fixed header is 40 bytes |
| Ipv6.TopNibble | ipv6.go:30-31 | the top nibble of the first byte is the top nibble of the first word |
| Ipv6.LayoutParse | ipv6.go:18-40 | decoding the layout of a decoded-form header gives it back |
| Ipv6.ParseLayout | ipv6.go:18-40 | the layout of the decoded header is the first 40 bytes |
| Ipv6.Ipv6Input | ipv6.go:18-40 | nothing is parsed exactly when the device has no address or the packet is shorter than 40 bytes; otherwise the header parsed is the first 40 bytes |
| Icmpv6.NaToPacket | icmpv6.go:60-79 | the advertisement body is 28 bytes holding the low 3 bytes of the flag word, the target, the option type and length, and the MAC |
| Icmpv6.NaRoundTrip | icmpv6.go:60-79 | an advertisement whose reserved bits fit in 29 bits decodes back to itself |
| Icmpv6.WithChecksum | icmpv6.go:81-114 | filling the checksum field changes only bytes 2-3, which get the single-fold checksum of pseudo header and message; the receiver test then passes when one carry fold suffices and, up to 0x10000 words, only then |
| Icmpv6.Replyv6Packet | icmpv6.go:81-114 | the reply is an echo reply with code 0 and the request's identifier, sequence and data; its checksum verifies when one carry fold suffices |
| Icmpv6.ReplyNeighborAdvertisement | icmpv6.go:116-157 | the answer is a neighbor advertisement for the target with the solicited and override flags and the device's MAC; its checksum verifies when one carry fold suffices |
| Icmpv6.NsToPacket | icmpv6.go:37-58 | a solicitation is written as 32 bytes |
| Icmpv6.NsRoundTrip | icmpv6.go:187-195 | the corrected decode gives back every encoded solicitation |
| Icmpv6.NsAsWrittenMisreadsOption | icmpv6.go:191-192 | a solicitation with option type 1, length 1 decodes as written to type 1, length 2 |
| Icmpv6.NsDecodesAgreeOnTarget | icmpv6.go:187-195 | both decodes read the same target address and MAC |
| Icmpv6.Icmpv6Input | icmpv6.go:159-199 | a packet is sent exactly for an echo request or a solicitation: an echo reply or an advertisement for the target, whose checksum verifies when one carry fold suffices |
| Icmpv6.EchoRequestReceived | icmpv6.go:176-184 | an echo request is answered with a reply of the same length and body, sent on the input device |
| Icmpv6.SolicitationReceived | icmpv6.go:185-197 | a solicitation is answered with an advertisement for its target carrying the device's MAC |
| Icmpv6.SolicitationIsAnswered | icmpv6.go:185-197 | any encoded solicitation is answered with an advertisement for its own target |
| Nat.WithSlots | nat.go:38-42 | replacing one protocol's slots leaves the other protocols' slots unchanged |
| Nat.PortSlotInverse | nat.go:62-82 | slot index and global port convert into each other |
| Nat.TransportPoolRange | nat.go:19-24 | for UDP and TCP, a port is in the pool exactly when it lies in the global port range |
| Nat.GetNatEntryByGlobal | nat.go:62-82 | the result is the zero entry, or the slot's entry with that global address and port |
| Nat.GlobalLookupFindsSlot | nat.go:62-82 | an entry stored at its own port's slot is found by its global address and port |
| Nat.GetNatEntryByLocal | nat.go:87-117 | a matching local address and port yields a matching entry, and no match yields the zero entry |
| Nat.FirstFreeFrom | nat.go:122-152 | the first slot without a global address is found, or none is free |
| Nat.FirstFreeFromSameAddresses | nat.go:122-152 | the free-slot search depends only on the global addresses |
| Nat.CreateNatEntry | nat.go:122-152 | the first free slot gets its port and the other protocols are untouched; a full table is unchanged |
| Nat.CreateNatEntryIdempotent | nat.go:122-152 | creating twice gives the same table as creating once |
| Nat.CreateNatEntryFoundByGlobal | nat.go:62-152 | a freshly created entry is found by its global port |
| Nat64Table.FirstEmptyFrom | nat64.go:124-134 | the first empty slot is found, or none |
| Nat64Table.CreateNat64IcmpEntry | nat64.go:124-134 | the entry goes into the first empty slot and nothing else changes; a full table returns the empty entry |
| Nat64Table.GetNat64IcmpEntry | nat64.go:136-144 | the first matching slot's entry is returned, and the empty entry when nothing matches |
| Nat64Table.CreatedEntryIsFound | nat64.go:124-144 | a created entry is found again by its IPv4 destination and identifier |
| Nat64.Ipv6HeaderToIpv4Header | nat64.go:37-55 | the IPv4 header has the given addresses and identifier and a zero checksum, and is ICMP exactly when the IPv6 packet was ICMPv6 |
| Nat64.Ipv4HeaderToIpv6Header | nat64.go:57-72 | the IPv6 header has version 6 and the given addresses, and is ICMPv6 exactly when the IPv4 packet was ICMP |
| Nat64.V6ToV4ToV6 | nat64.go:37-72 | translating there and back restores the payload length and the ICMP protocol, and lowers the hop limit by two |
| Nat64.V4ToV6ToV4 | nat64.go:37-72 | translating there and back restores the total length and the ICMP protocol, and lowers the TTL by two |
| Nat64.NatIcmp6to4 | nat64.go:74-122 | no route drops; a nil device is dereferenced; a short ICMPv6 payload is sliced out of range; an unknown MAC asks ARP for the embedded IPv4 address; a known one records the exchange in the device's NAT64 table and sends the translated request on the route's device, or dereferences a nil table |
| Nat64.TranslatedRequestHeader | nat64.go:74-122 | the translated request comes from the device to the embedded IPv4 address with the hop limit one lower, and its checksum verifies exactly when one carry fold suffices |
| Nat64.NatIcmp4to6 | nat64.go:146-164 | without a table the nil table is dereferenced; with one, the reply's entry is looked up, no or a non-connected IPv6 route drops it, and a connected one sends it on the route's device from the recorded IPv6 destination to the recorded source |
| Nat64.ReplyReturnsToRequester | nat64.go:74-164 | a reply to a recorded request, when the requester has a connected IPv6 route, is sent on that route's device to the IPv6 host that sent the request |
| Router.EthernetInput | ethernet.go:75-99 | frames not addressed to us, and unknown ethertypes, are dropped; ARP goes to `arpInput` and IPv4 to `ipInput` with the sender MAC |
| Router.IpFrameReachesIpInput | ethernet.go:75-117 | an IPv4 frame one device sends to another reaches its `ipInput` intact |
| Router.ArpRequestReachesArpInput | ethernet.go:75-99 | a broadcast ARP request reaches `arpInput` |
| Router.ForeignFrameIgnored | ethernet.go:82-85 | a frame for another MAC is ignored |
| Router.Ipv6FramesDropped | ethernet.go:88-98 | IPv6 frames are dropped |

## Left out

- Raw sockets, epoll, device discovery and `netDeviceTransmit`: I/O.
  Transmission is the `Transmit` outcome.
- `getIPdevice` address parsing (ParseCIDR). Only the broadcast arithmetic
  at ip.go:87 is modelled.
- Logging and `printIPAddr`/`printMacAddr`.
- The chapter 1 and 2 programs, `main.go`, the tests, and the files under
  `checksum/`, including incremental checksum update (RFC 1624).
- `configureIPNat` and `configureIPNat64`: set-up code.
- Random identification numbers: the value is a parameter.
- `natExec`, `ipv6DummyHeader.ToPacket`, `ToICMPv4Packet`,
  `getIcmpv4Identify`, `ToICMPv6ReplayPacket`, `radixTreeSearchv6`,
  `ipv6Header.ToPacket`, `ipv6PacketEncapsulateOutput` and
  `ipv6PacketOutputToHost` are not part of this model. They are parameters
  or outcomes.
- IpInput.InputToOurs: the changes `natExec` makes to the NAT tables are
  not modelled, because `natExec` is a parameter.
- Transport.TcpParsePacket: a data offset beyond the segment is excluded by
  a precondition. There the source does not panic: a Go slice may be
  re-sliced up to its capacity, and the segment lies inside the 1500-byte
  receive buffer of net.go:44. So it reads the stale buffer bytes after the
  segment as options and returns no data. The model has no receive buffer
  to read them from.
- Nat64.MessageOf, Nat64.TranslatedRequest: an ICMPv6 payload under 8 bytes
  is excluded by a precondition. `Nat64.NatIcmp6to4` returns `OutOfRange`
  for it before either is reached, as the source panics at nat64.go:95-99.
- Icmpv6.WithChecksum: when one carry fold leaves a carry, the message
  fails the receiver test only for messages up to 0x10000 words
  (`Checksum.CarryBreaksChecksum`). Longer ones are not covered; an ICMPv6
  message that long does not fit in an Ethernet frame.
- Checksum.SumByteArr: Go's `uint` wrap-around is not modelled, because it
  needs more than 2^48 bytes.
- Checksum.Sum16 and every caller: odd-length input is excluded by a
  precondition, because the source reads past the slice there.
- Icmp.IcmpInput, Icmpv6.Icmpv6Input: packets shorter than the fixed part
  are excluded by preconditions. The source only logs "too short" and then
  reads past the slice.
- Ethernet.SetMacAddr: input longer than 6 bytes is excluded, because the
  source indexes past the array there.
- Nat.GetNatEntryByGlobal: a port without a slot is excluded by the `InPool`
  precondition. These are UDP and TCP ports outside 20000-59999 and ICMP
  identifier 0xffff. There nat.go:66-77 indexes past the 40000-entry or
  0xffff-entry table, a run-time panic.
- Ipv6.Ipv6Input: IPv6 addresses are kept as 16 bytes. The source converts
  them to 64-bit numbers only to log them.
- Ipv6.IP_PROTOCOL_NUM_ICMPV6 is taken as 58 (section 2.1 of RFC 4443). The
  Go constant is not part of this model.
- Nat64.NatIcmp4to6: a network route sends nothing, as in the code.
- Radix.SlashThirtyTwoIsInvisible states the source's behaviour:
  `radixTreeSearch` stops before depth 32.
- Router.EthernetInput: frames shorter than 14 bytes are excluded by a
  precondition. In the source, `packet[0:14]` (ethernet.go:77-79) re-slices
  within the capacity of the 1500-byte receive buffer (net.go:44), so it reads
  stale bytes rather than panicking; `packet[14:]` on the ARP branch
  (ethernet.go:91) and on the IPv4 branch (ethernet.go:97) panics for such a
  frame.
- The `natDevice` struct has NAT and NAT64 variants. Both are one record
  here, with optional tables.

## Findings

| source | as written | input that shows it | evidently intended | confidence | as-written member | corrected member |
|---|---|---|---|---|---|---|
| utils.go:22 | folds the carry once: `(sum & 0xffff) + sum>>16` can itself exceed 0xffff, and the cast to `uint16` drops the second carry | the forwarded header 45 00 00 14 6f 3f 40 00 40 01 .. .. 0a 00 00 01 c0 a8 01 02 sums to 0x1ffff; it leaves carrying ff ff and fails verification | fold until the sum fits in 16 bits, which gives checksum 0xfffe | not executed | IpInput.ForwardedCarryFailsVerification | Checksum.FullFoldChecksumVerifies |
| ip.go:127 | the header length is `packet[0] << 5 >> 5`, only the low 3 bits of the IHL | first byte 0x4d (IHL 13, with options) is read as length 5 and passes the options check at ip.go:160 | read the low 4 bits (`& 0x0f`), so every header with options is dropped | not executed | IpInput.OptionsPassAsWritten | IpInput.OptionsAreDropped |
| icmpv6.go:191-192 | the NS option type and length are read from offsets 25 and 26, one byte late | a solicitation with source-link-layer option type 1, length 1, MAC 02:00:00:00:00:01 is read as type 1, length 2 | read type at 24 and length at 25 (section 4.3 of RFC 4861) | not executed | Icmpv6.NsAsWrittenMisreadsOption | Icmpv6.NsRoundTrip |
