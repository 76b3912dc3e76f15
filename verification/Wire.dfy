/**
 Byte layouts of the packets of kernel/net/network.h, in network byte order, and the byte-order helpers
 with which the code produces them on a little-endian machine.
 */
module Wire {
  import opened Basics
  import opened InternetChecksum

  type Mac = m: seq<byte> | |m| == 6 witness [0, 0, 0, 0, 0, 0]

  const ETHERNET_HEADER: nat := 14
  const IP_HEADER: nat := 20
  const ARP_PACKET: nat := 28
  const TYPE_IP: uint16 := 0x0800
  const TYPE_ARP: uint16 := 0x0806
  const PROTO_ICMP: byte := 1
  const ARP_REQUEST: uint16 := 1
  const ARP_REPLY: uint16 := 2

  // ---------------------------------------------------------------- byte order

  function Big16(v: uint16): (b: seq<byte>)
    ensures |b| == 2
  {
    [v / 256, v % 256]
  }

  function Big32(v: uint32): (b: seq<byte>)
    ensures |b| == 4
  {
    [v / 0x100_0000, v / 0x1_0000 % 256, v / 0x100 % 256, v % 256]
  }

  function FourBytes(a: byte, b: byte, c: byte, d: byte): uint32 {
    0x100_0000 * (a as nat) + 0x1_0000 * (b as nat) + 0x100 * (c as nat) + d as nat
  }

  function Read16(b: seq<byte>, o: nat): uint16
    requires o + 2 <= |b|
  {
    256 * (b[o] as nat) + b[o + 1] as nat
  }

  function Read32(b: seq<byte>, o: nat): uint32
    requires o + 4 <= |b|
  {
    FourBytes(b[o], b[o + 1], b[o + 2], b[o + 3])
  }

  /** ntohl and htonl */
  function Swap32(n: uint32): uint32 {
    FourBytes(n % 256, n / 0x100 % 256, n / 0x1_0000 % 256, n / 0x100_0000)
  }

  /** Little-endian loads and stores of the machine. */
  function Little16(v: uint16): seq<byte> {
    [v % 256, v / 256]
  }

  function Little32(v: uint32): seq<byte> {
    [v % 256, v / 0x100 % 256, v / 0x1_0000 % 256, v / 0x100_0000]
  }

  lemma FourBytesSplit(a: byte, b: byte, c: byte, d: byte)
    ensures var v := FourBytes(a, b, c, d);
            v / 0x100_0000 == a && v / 0x1_0000 % 256 == b && v / 0x100 % 256 == c && v % 256 == d
  {
    var v := FourBytes(a, b, c, d);
    assert v == 0x100 * (0x1_0000 * (a as nat) + 0x100 * (b as nat) + c as nat) + d as nat;
    assert v / 0x100 == 0x100 * (0x100 * (a as nat) + b as nat) + c as nat;
    assert v / 0x1_0000 == v / 0x100 / 0x100 == 0x100 * (a as nat) + b as nat;
  }

  lemma FourBytesJoin(v: uint32)
    ensures v == FourBytes(v / 0x100_0000, v / 0x1_0000 % 256, v / 0x100 % 256, v % 256)
  {
    assert v / 0x1_0000 == v / 0x100 / 0x100 && v / 0x100_0000 == v / 0x100 / 0x100 / 0x100;
  }

  /** htonl followed by a native store puts the most significant byte first. */
  lemma Swap32StoresBig(v: uint32)
    ensures Little32(Swap32(v)) == Big32(v)
  {
    hide FourBytes;
    FourBytesSplit(v % 256, v / 0x100 % 256, v / 0x1_0000 % 256, v / 0x100_0000);
  }

  lemma SwapStoresBig(v: uint16)
    ensures Little16(Swap(v)) == Big16(v)
  {
    TwoDigits(v % 256, v / 256);
  }

  lemma Swap32IsInvolution(v: uint32)
    ensures Swap32(Swap32(v)) == v
  {
    hide FourBytes;
    FourBytesSplit(v % 256, v / 0x100 % 256, v / 0x1_0000 % 256, v / 0x100_0000);
    FourBytesJoin(v);
  }

  /** ntohl of a native load is the big-endian value. */
  lemma Swap32LoadsBig(a: byte, b: byte, c: byte, d: byte)
    ensures Swap32(FourBytes(d, c, b, a)) == FourBytes(a, b, c, d)
  {
    FourBytesSplit(d, c, b, a);
  }

  lemma ReadBig32(v: uint32, b: seq<byte>, o: nat)
    requires o + 4 <= |b| && b[o..o + 4] == Big32(v)
    ensures Read32(b, o) == v
  {
    FourBytesJoin(v);
    assert b[o] == b[o..o + 4][0] && b[o + 1] == b[o..o + 4][1];
    assert b[o + 2] == b[o..o + 4][2] && b[o + 3] == b[o..o + 4][3];
  }

  // ---------------------------------------------------------------- formats

  function EthernetFrame(dst: Mac, src: Mac, kind: uint16, data: seq<byte>): (f: seq<byte>)
    ensures |f| == ETHERNET_HEADER + |data|
  {
    dst + src + Big16(kind) + data
  }

  function ArpPacket(op: uint16, senderMac: Mac, senderIp: uint32, targetMac: Mac, targetIp: uint32): (p: seq<byte>)
    ensures |p| == ARP_PACKET
  {
    [0, 1, 8, 0, 6, 4] + Big16(op) + senderMac + Big32(senderIp) + targetMac + Big32(targetIp)
  }

  /** The IPv4 header of section 3.1 of RFC 791 as the code builds it, with a zero checksum field. */
  function BlankIpHeader(total: uint16, protocol: byte, src: uint32, dst: uint32): (p: seq<byte>)
    ensures |p| == IP_HEADER && p[10] == 0 && p[11] == 0
  {
    [0x45, 0] + Big16(total) + [0, 1, 0, 0, 64, protocol, 0, 0] + Big32(src) + Big32(dst)
  }

  function IpPacket(protocol: byte, src: uint32, dst: uint32, data: seq<byte>): (p: seq<byte>)
    requires IP_HEADER + |data| < 0x1_0000
    ensures |p| == IP_HEADER + |data|
  {
    Fill(BlankIpHeader(IP_HEADER + |data|, protocol, src, dst), 10) + data
  }

  function PingPayload(): (p: seq<byte>)
    ensures |p| == 56
  {
    seq(56, i requires 0 <= i < 56 => i)
  }

  function BlankEchoRequest(id: uint16, sequence: uint16): (p: seq<byte>)
    ensures |p| == 64 && p[2] == 0 && p[3] == 0
  {
    [8, 0, 0, 0] + Big16(id) + Big16(sequence) + PingPayload()
  }

  function EchoRequest(id: uint16, sequence: uint16): (p: seq<byte>)
    ensures |p| == 64
  {
    Fill(BlankEchoRequest(id, sequence), 2)
  }

  /**
   The reply made in place out of the first len of the received bytes: type, code and checksum are
   rewritten even where a short len leaves them out, the rest is kept.
   */
  function EchoReply(bytes: seq<byte>, len: nat): (p: seq<byte>)
    requires 4 <= |bytes| && len <= |bytes|
    ensures |p| == len
  {
    var blank := bytes[0 := 0][1 := 0][2 := 0][3 := 0];
    PutChecksum(blank, Checksum(blank[..len]))[..len]
  }

  /** The checksum field of an ICMP message, stored natively. */
  function PutChecksum(bytes: seq<byte>, c: uint16): (p: seq<byte>)
    requires 4 <= |bytes|
    ensures |p| == |bytes|
  {
    bytes[2 := c % 256][3 := c / 256]
  }

  // ---------------------------------------------------------------- decoding what was encoded

  lemma FrameFields(dst: Mac, src: Mac, kind: uint16, data: seq<byte>)
    ensures var f := EthernetFrame(dst, src, kind, data);
            f[..6] == dst && f[6..12] == src && Read16(f, 12) == kind && f[14..] == data
  {
    var f := EthernetFrame(dst, src, kind, data);
    assert f[12] == kind / 256 && f[13] == kind % 256;
  }

  lemma ArpFields(op: uint16, senderMac: Mac, senderIp: uint32, targetMac: Mac, targetIp: uint32)
    ensures var p := ArpPacket(op, senderMac, senderIp, targetMac, targetIp);
            && Read16(p, 0) == 1 && Read16(p, 2) == TYPE_IP && p[4] == 6 && p[5] == 4
            && Read16(p, 6) == op && p[8..14] == senderMac && Read32(p, 14) == senderIp
            && p[18..24] == targetMac && Read32(p, 24) == targetIp
  {
    var p := ArpPacket(op, senderMac, senderIp, targetMac, targetIp);
    assert p[6] == op / 256 && p[7] == op % 256;
    assert p[14..18] == Big32(senderIp);
    assert p[24..28] == Big32(targetIp);
    ReadBig32(senderIp, p, 14);
    ReadBig32(targetIp, p, 24);
  }

  /** Every header the code builds verifies, in native and in network order, and decodes to its arguments. */
  lemma IpFields(protocol: byte, src: uint32, dst: uint32, data: seq<byte>)
    requires IP_HEADER + |data| < 0x1_0000
    ensures var p := IpPacket(protocol, src, dst, data);
            && Checksum(p[..20]) == 0 && RfcChecksum(p[..20]) == 0
            && p[0] == 0x45 && p[1] == 0 && Read16(p, 2) == IP_HEADER + |data|
            && Read16(p, 4) == 1 && Read16(p, 6) == 0 && p[8] == 64 && p[9] == protocol
            && Read32(p, 12) == src && Read32(p, 16) == dst && p[20..] == data
  {
    var total := IP_HEADER + |data|;
    var blank := BlankIpHeader(total, protocol, src, dst);
    FilledMessageVerifies(blank, 10);
    var p := IpPacket(protocol, src, dst, data);
    assert p[..20] == Fill(blank, 10);
    assert p[2] == blank[2] == total / 256 && p[3] == blank[3] == total % 256;
    assert p[4..10] == blank[4..10] == [0, 1, 0, 0, 64, protocol];
    assert p[4] == 0 && p[5] == 1 && p[6] == 0 && p[7] == 0 && p[8] == 64 && p[9] == protocol;
    assert p[12..16] == blank[12..16] == Big32(src);
    assert p[16..20] == blank[16..20] == Big32(dst);
    ReadBig32(src, p, 12);
    ReadBig32(dst, p, 16);
  }

  /** A ping carries the 56 bytes 0, 1, 2 and so on. */
  lemma PingPayloadCounts(i: nat)
    requires i < 56
    ensures |PingPayload()| == 56 && PingPayload()[i] == i
  {
  }

  lemma EchoRequestFields(id: uint16, sequence: uint16)
    ensures var p := EchoRequest(id, sequence);
            && p[0] == 8 && p[1] == 0 && Read16(p, 4) == id && Read16(p, 6) == sequence && p[8..] == PingPayload()
            && Checksum(p) == 0 && RfcChecksum(p) == 0
  {
    var blank := BlankEchoRequest(id, sequence);
    FilledMessageVerifies(blank, 2);
    var p := EchoRequest(id, sequence);
    assert p[4] == blank[4] == id / 256 && p[5] == blank[5] == id % 256;
    assert p[6] == blank[6] == sequence / 256 && p[7] == blank[7] == sequence % 256;
    assert p[8..] == blank[8..] == PingPayload();
  }

  /** Echo reply of RFC 792: type 0, the request's identifier, sequence and data, and a fresh checksum. */
  lemma EchoReplyFields(bytes: seq<byte>, len: nat)
    requires 4 <= len <= |bytes|
    ensures var p := EchoReply(bytes, len);
            && p[0] == 0 && p[1] == 0 && p[4..] == bytes[4..len] && Checksum(p) == 0 && RfcChecksum(p) == 0
  {
    var blank := bytes[0 := 0][1 := 0][2 := 0][3 := 0];
    FilledMessageVerifies(blank[..len], 2);
    assert EchoReply(bytes, len) == Fill(blank[..len], 2);
  }
}
