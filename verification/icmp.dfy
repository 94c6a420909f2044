/** ICMP for IPv4 (icmp.go, RFC 792): the message as the router decodes it
    and the receive dispatch, which answers nothing. */
module Icmp {
  import opened Bytes

  const ICMP_TYPE_ECHO_REPLY: u8 := 0
  const ICMP_TYPE_DESTINATION_UNREACHABLE: u8 := 3
  const ICMP_TYPE_ECHO_REQUEST: u8 := 8
  const ICMP_TYPE_TIME_EXCEEDED: u8 := 11

  /** The bytes the decoder reads before the data: header, identifier,
      sequence and an 8-byte timestamp. */
  const ICMP_ECHO_FIXED_LEN := 16

  datatype IcmpHeader = IcmpHeader(icmpType: u8, icmpCode: u8, checksum: u16)

  /** `icmpEcho`: identifier, sequence, timestamp and data. */
  datatype IcmpEcho = IcmpEcho(identify: u16, sequence: u16, timestamp: seq<u8>, data: seq<u8>)

  /** `icmpMessage` as `icmpInput` fills it: the header and the echo body
      (the other bodies are never filled in). */
  datatype IcmpMessage = IcmpMessage(icmpHeader: IcmpHeader, icmpEcho: IcmpEcho)

  /** The decode of `icmpInput`. Its length check only logs, so the
      slicing up to byte 16 needs at least 16 bytes. */
  function Decode(p: seq<u8>): (m: IcmpMessage)
    requires |p| >= ICMP_ECHO_FIXED_LEN
    ensures |m.icmpEcho.timestamp| == 8
    ensures |m.icmpEcho.data| == |p| - ICMP_ECHO_FIXED_LEN
  {
    IcmpMessage(
      IcmpHeader(p[0], p[1], BytesToU16(p[2..4])),
      IcmpEcho(BytesToU16(p[4..6]), BytesToU16(p[6..8]), p[8..16], p[16..]))
  }

  /** The wire layout the decoder reads, field by field. */
  function Encode(m: IcmpMessage): (r: seq<u8>)
    requires |m.icmpEcho.timestamp| == 8
    ensures |r| == ICMP_ECHO_FIXED_LEN + |m.icmpEcho.data|
  {
    [m.icmpHeader.icmpType, m.icmpHeader.icmpCode] + U16ToBytes(m.icmpHeader.checksum)
      + U16ToBytes(m.icmpEcho.identify) + U16ToBytes(m.icmpEcho.sequence)
      + m.icmpEcho.timestamp + m.icmpEcho.data
  }

  /** Decoding reads every field from the offset the layout puts it at. */
  lemma DecodeEncode(m: IcmpMessage)
    requires |m.icmpEcho.timestamp| == 8
    ensures Decode(Encode(m)) == m
  {
    var r := Encode(m);
    assert r[2..4] == U16ToBytes(m.icmpHeader.checksum);
    assert r[4..6] == U16ToBytes(m.icmpEcho.identify);
    assert r[6..8] == U16ToBytes(m.icmpEcho.sequence);
    assert r[8..16] == m.icmpEcho.timestamp;
    assert r[16..] == m.icmpEcho.data;
  }

  /** Decoding loses nothing: the bytes are written back unchanged. */
  lemma EncodeDecode(p: seq<u8>)
    requires |p| >= ICMP_ECHO_FIXED_LEN
    ensures Encode(Decode(p)) == p
  {
    U16BytesInverse(p[2..4]);
    U16BytesInverse(p[4..6]);
    U16BytesInverse(p[6..8]);
    assert p == [p[0], p[1]] + p[2..4] + p[4..6] + p[6..8] + p[8..16] + p[16..];
  }

  /** What `icmpInput` does with a message: an echo reply is only logged, an
      echo request is left as a to-do, and every other type is ignored. */
  datatype IcmpAction = LogEchoReply | EchoRequestUnanswered | Ignored

  /** `icmpInput`: decodes the message and picks the action by type; no
      action sends anything. */
  function IcmpInput(p: seq<u8>): (r: IcmpAction)
    requires |p| >= ICMP_ECHO_FIXED_LEN
    ensures r == LogEchoReply <==> p[0] == ICMP_TYPE_ECHO_REPLY
    ensures r == EchoRequestUnanswered <==> p[0] == ICMP_TYPE_ECHO_REQUEST
  {
    var m := Decode(p);
    if m.icmpHeader.icmpType == ICMP_TYPE_ECHO_REPLY then LogEchoReply
    else if m.icmpHeader.icmpType == ICMP_TYPE_ECHO_REQUEST then EchoRequestUnanswered
    else Ignored
  }
}
