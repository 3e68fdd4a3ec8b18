/**
 The NTP datagrams of the clock program: the client request it sends and the
 checks it applies to a reply before taking the server's transmit timestamp
 (RFC 5905, section 7.3 for the header layout, section 7.4 for stratum 0,
 the kiss-o'-death code).
 */
module NtpWire {

  import opened MachineInts
  import Arith

  const NtpPort: int := 123
  const NtpPacketLen: int := 48

  /** Byte offset of the seconds half of the transmit timestamp. */
  const TransmitOffset: int := 40

  /** Association modes (the low three bits of byte 0). */
  const ModeClient: int := 3
  const ModeServer: int := 4

  /** Byte 0 of the request: leap indicator 0, version 3, mode 3 (client). */
  const RequestHeader: byte := 0x1B

  /** The three fields packed into byte 0 of an NTP header:
      LI in bits 7-6, VN in bits 5-3, Mode in bits 2-0. */
  function LeapIndicator(b0: byte): int { b0 / 64 }
  function Version(b0: byte): int { b0 / 8 % 8 }
  function Mode(b0: byte): int { b0 % 8 }

  function PackHeader(li: int, vn: int, mode: int): (b0: byte)
    requires 0 <= li < 4 && 0 <= vn < 8 && 0 <= mode < 8
    ensures LeapIndicator(b0) == li && Version(b0) == vn && Mode(b0) == mode
  {
    li * 64 + vn * 8 + mode
  }

  /** `ntp_request`: the 48-byte payload of a version 3 client request. */
  function Request(): (p: seq<byte>)
    ensures |p| == NtpPacketLen
    ensures p[0] == RequestHeader
    ensures LeapIndicator(p[0]) == 0 && Version(p[0]) == 3 && Mode(p[0]) == ModeClient
    ensures forall i :: 1 <= i < |p| ==> p[i] == 0
  {
    [PackHeader(0, 3, ModeClient)] + seq(NtpPacketLen - 1, _ => 0)
  }

  /** The unsigned 32-bit value of four bytes, most significant first.  The
      source shifts the bytes in `int` and stores the result in a `uint32_t`,
      which gives this value also when byte 0 is 128 or more. */
  function BigEndian32(b: seq<byte>): (v: uint32)
    requires |b| == 4
  {
    ((b[0] as int * 0x100 + b[1]) * 0x100 + b[2]) * 0x100 + b[3]
  }

  /** The four bytes, most significant first, of an unsigned 32-bit value. */
  function ToBigEndian32(v: uint32): (b: seq<byte>)
    ensures |b| == 4
  {
    var v1 := v / 0x100;
    var v2 := v1 / 0x100;
    [v2 / 0x100, v2 % 0x100, v1 % 0x100, v % 0x100]
  }

  lemma BigEndian32RoundTrip(v: uint32)
    ensures BigEndian32(ToBigEndian32(v)) == v
  {
    var v1 := v / 0x100;
    var v2 := v1 / 0x100;
    assert v2 == (v2 / 0x100) * 0x100 + v2 % 0x100;
    assert v1 == v2 * 0x100 + v1 % 0x100;
    assert v == v1 * 0x100 + v % 0x100;
  }

  lemma ToBigEndian32RoundTrip(b: seq<byte>)
    requires |b| == 4
    ensures ToBigEndian32(BigEndian32(b)) == b
  {
    var v := BigEndian32(b);
    var w2 := b[0] as int * 0x100 + b[1];
    var w1 := w2 * 0x100 + b[2];
    assert v == w1 * 0x100 + b[3];
    Arith.DivModUnique(v, 0x100, w1, b[3]);
    Arith.DivModUnique(w1, 0x100, w2, b[2]);
    Arith.DivModUnique(w2, 0x100, b[0], b[1]);
  }

  /** A UDP datagram as the receive callback sees it: the sender's port and
      the whole payload (`tot_len` is its length). */
  datatype Datagram = Datagram(port: uint16, payload: seq<byte>)

  /** `pbuf_get_at`: the byte at an offset, or 0 past the end of the buffer. */
  function ByteAt(p: seq<byte>, i: nat): byte {
    if i < |p| then p[i] else 0
  }

  /** The checks `ntpcb_recv` applies before trusting a datagram: sent from
      port 123, exactly 48 bytes, server mode, and a stratum other than 0. */
  predicate Acceptable(d: Datagram) {
    && d.port == NtpPort
    && |d.payload| == NtpPacketLen
    && Mode(ByteAt(d.payload, 0)) == ModeServer
    && ByteAt(d.payload, 1) != 0
  }

  /** The transmit timestamp (seconds since 1900) `ntpcb_recv` takes from a
      datagram, or None when the datagram fails the checks. */
  function ReplyTime(d: Datagram): (t: Option<uint32>)
    ensures t.Some? <==> d.port == NtpPort && |d.payload| == NtpPacketLen
                         && d.payload[0] % 8 == ModeServer && d.payload[1] != 0
    ensures t.Some? ==> ToBigEndian32(t.value) == d.payload[TransmitOffset..TransmitOffset + 4]
  {
    if Acceptable(d) then
      var ts := d.payload[TransmitOffset..TransmitOffset + 4];
      ToBigEndian32RoundTrip(ts);
      Some(BigEndian32(ts))
    else None
  }

  /** A value that may be absent. */
  datatype Option<+T> = None | Some(value: T)

  /** A 48-byte server packet with the given header, stratum and transmit
      seconds; every other byte is 0. */
  function ServerPacket(li: int, vn: int, mode: int, stratum: byte, transmit: uint32): (p: seq<byte>)
    requires 0 <= li < 4 && 0 <= vn < 8 && 0 <= mode < 8
    ensures |p| == NtpPacketLen
  {
    [PackHeader(li, vn, mode), stratum] + seq(TransmitOffset - 2, _ => 0)
      + ToBigEndian32(transmit) + seq(NtpPacketLen - TransmitOffset - 4, _ => 0)
  }

  /** A server packet from port 123 is accepted exactly when it is in server
      mode with a stratum other than 0, and then yields its transmit seconds. */
  lemma ServerPacketDecodes(li: int, vn: int, mode: int, stratum: byte, transmit: uint32)
    requires 0 <= li < 4 && 0 <= vn < 8 && 0 <= mode < 8
    ensures var d := Datagram(NtpPort, ServerPacket(li, vn, mode, stratum, transmit));
            && (ReplyTime(d).Some? <==> mode == ModeServer && stratum != 0)
            && (ReplyTime(d).Some? ==> ReplyTime(d).value == transmit)
  {
    var p := ServerPacket(li, vn, mode, stratum, transmit);
    assert p[TransmitOffset..TransmitOffset + 4] == ToBigEndian32(transmit);
    var d := Datagram(NtpPort, p);
    if ReplyTime(d).Some? {
      BigEndian32RoundTrip(transmit);
      ToBigEndian32RoundTrip(p[TransmitOffset..TransmitOffset + 4]);
    }
  }

  /** The program's own request, echoed back from port 123, is not taken for a reply. */
  lemma RequestIsNotAReply()
    ensures ReplyTime(Datagram(NtpPort, Request())).None?
  {
  }

  /** A stratum-0 (kiss-o'-death) packet is never accepted, whatever else it holds. */
  lemma KissOfDeathIgnored(d: Datagram)
    requires |d.payload| >= 2 && d.payload[1] == 0
    ensures ReplyTime(d).None?
  {
  }

  /** Any 48-byte server-mode packet from port 123 with a non-zero stratum
      and a zero transmit timestamp is accepted, whatever its leap indicator
      and version, and decodes to second 0 of the NTP era: the value of the
      timestamp is never checked. */
  lemma ZeroTimestampAccepted(d: Datagram)
    requires d.port == NtpPort && |d.payload| == NtpPacketLen
    requires d.payload[0] % 8 == ModeServer && d.payload[1] != 0
    requires forall i :: TransmitOffset <= i < TransmitOffset + 4 ==> d.payload[i] == 0
    ensures ReplyTime(d) == Some(0)
  {
    assert d.payload[TransmitOffset..TransmitOffset + 4] == [0, 0, 0, 0];
    BigEndian32RoundTrip(0);
  }
}
