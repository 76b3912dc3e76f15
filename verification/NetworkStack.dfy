/**
 The code of kernel/net/network.c: packets are built field by field in 1514-byte buffers with native
 little-endian stores, and received packets are read, and for echo replies rewritten, in place.
 */
module NetworkStack {
  import opened Basics
  import opened InternetChecksum
  import opened Wire
  import opened Network

  /** The static state of network.c on one host; sent lists the frames handed to the network card. */
  class Stack {
    const mac: Mac
    const ip: uint32
    const arpTable: array<ArpEntry>
    var arpCount: nat
    var pingIp: uint32
    var pingId: uint16
    var pingSequence: uint16
    var pingWaiting: bool
    var sent: seq<seq<byte>>

    ghost predicate Valid()
      reads this
    {
      arpTable.Length == ARP_TABLE_SIZE && arpCount <= ARP_TABLE_SIZE
    }

    ghost function State(): Host
      reads this, arpTable
      requires Valid()
    {
      Host(mac, ip, arpTable[..arpCount], Ping(pingIp, pingId, pingSequence, pingWaiting), sent)
    }

    constructor (mac: Mac, ip: uint32)
      ensures Valid() && fresh(arpTable) && State() == Host(mac, ip, [], Ping(0, 0, 0, false), [])
    {
      this.mac := mac;
      this.ip := ip;
      arpTable := new ArpEntry[ARP_TABLE_SIZE](_ => ArpEntry(0, NO_MAC));
      arpCount := 0;
      pingIp, pingId, pingSequence, pingWaiting := 0, 0, 0, false;
      sent := [];
    }

    // -------------------------------------------------------------- native loads and stores

    static method Store16(buf: array<byte>, o: nat, v: uint16)
      requires o + 2 <= buf.Length
      modifies buf
      ensures buf[..o + 2] == old(buf[..o]) + Little16(v) && buf[o + 2..] == old(buf[o + 2..])
    {
      buf[o] := v % 256;
      buf[o + 1] := v / 256;
    }

    static method Store32(buf: array<byte>, o: nat, v: uint32)
      requires o + 4 <= buf.Length
      modifies buf
      ensures buf[..o + 4] == old(buf[..o]) + Little32(v) && buf[o + 4..] == old(buf[o + 4..])
    {
      buf[o] := v % 256;
      buf[o + 1] := v / 0x100 % 256;
      buf[o + 2] := v / 0x1_0000 % 256;
      buf[o + 3] := v / 0x100_0000;
    }

    /** A copying loop. */
    static method CopyBytes(buf: array<byte>, o: nat, data: seq<byte>)
      requires o + |data| <= buf.Length
      modifies buf
      ensures buf[..o + |data|] == old(buf[..o]) + data && buf[o + |data|..] == old(buf[o + |data|..])
    {
      var i := 0;
      while i < |data|
        invariant 0 <= i <= |data|
        invariant forall k :: 0 <= k < buf.Length ==> buf[k] == if o <= k < o + i then data[k - o] else old(buf[k])
      {
        buf[o + i] := data[i];
        i := i + 1;
      }
    }

    /** ntohs of a native 16-bit load. */
    static method Load16(buf: array<byte>, o: nat) returns (v: uint16)
      requires o + 2 <= buf.Length
      ensures v == Read16(buf[..], o)
    {
      var native: uint16 := buf[o] as nat + 256 * (buf[o + 1] as nat);
      TwoDigits(buf[o + 1], buf[o]);
      v := Swap(native);
    }

    /** ntohl of a native 32-bit load. */
    static method Load32(buf: array<byte>, o: nat) returns (v: uint32)
      requires o + 4 <= buf.Length
      ensures v == Read32(buf[..], o)
    {
      var native := FourBytes(buf[o + 3], buf[o + 2], buf[o + 1], buf[o]);
      Swap32LoadsBig(buf[o], buf[o + 1], buf[o + 2], buf[o + 3]);
      v := Swap32(native);
    }

    // -------------------------------------------------------------- sending

    /** ethernet_send */
    method SendFrame(dst: Mac, kind: uint16, data: seq<byte>)
      requires Valid() && |data| <= 1500
      modifies this`sent
      ensures Valid() && State() == EthernetSend(old(State()), dst, kind, data)
    {
      hide Swap;
      var buffer := new byte[1514];
      var i := 0;
      while i < 6
        invariant 0 <= i <= 6 && sent == old(sent)
        invariant buffer[..i] == dst[..i] && buffer[6..6 + i] == mac[..i]
      {
        buffer[i] := dst[i];
        buffer[6 + i] := mac[i];
        i := i + 1;
      }
      assert buffer[..12] == dst + mac;
      SwapStoresBig(kind);
      Store16(buffer, 12, Swap(kind));
      assert buffer[..14] == dst + mac + Big16(kind);
      CopyBytes(buffer, 14, data);
      var frame := buffer[..14 + |data|];
      assert frame == EthernetFrame(dst, mac, kind, data);
      sent := sent + [frame];
    }

    /** arp_lookup */
    method Resolve(dst: uint32) returns (r: Option<Mac>)
      requires Valid()
      ensures r == Lookup(State().table, dst)
    {
      var i := 0;
      while i < arpCount
        invariant 0 <= i <= arpCount
        invariant Lookup(arpTable[..arpCount], dst) == Lookup(arpTable[..arpCount][i..], dst)
      {
        if arpTable[i].ip == dst {
          return Some(arpTable[i].mac);
        }
        assert arpTable[..arpCount][i..][1..] == arpTable[..arpCount][i + 1..];
        i := i + 1;
      }
      return None;
    }

    /** The 28-byte packet arp_request and arp_handler fill in. */
    method BuildArp(op: uint16, targetMac: Mac, targetIp: uint32) returns (p: seq<byte>)
      ensures p == ArpPacket(op, mac, ip, targetMac, targetIp)
    {
      hide Swap, Swap32, Big16, Big32, Little16, Little32;
      var buffer := new byte[ARP_PACKET];
      ArpPrefix();
      Store16(buffer, 0, Swap(1));
      assert buffer[..2] == Little16(Swap(1));
      Store16(buffer, 2, Swap(0x0800));
      ghost var types := buffer[..4];
      assert types == Little16(Swap(1)) + Little16(Swap(0x0800));
      buffer[4], buffer[5] := 6, 4;
      assert buffer[..4] == types;
      assert buffer[..6] == types + [6, 4];
      SwapStoresBig(op);
      Store16(buffer, 6, Swap(op));
      CopyBytes(buffer, 8, mac);
      Swap32StoresBig(ip);
      Store32(buffer, 14, Swap32(ip));
      CopyBytes(buffer, 18, targetMac);
      Swap32StoresBig(targetIp);
      Store32(buffer, 24, Swap32(targetIp));
      p := buffer[..];
      assert p == buffer[..28];
    }

    lemma ArpPrefix()
      ensures Little16(Swap(1)) + Little16(Swap(0x0800)) + [6, 4] == [0, 1, 8, 0, 6, 4]
    {
    }

    /** arp_request */
    method RequestArp(target: uint32)
      requires Valid()
      modifies this`sent
      ensures Valid() && State() == SendArpRequest(old(State()), target)
    {
      var p := BuildArp(ARP_REQUEST, NO_MAC, target);
      SendFrame(BROADCAST, TYPE_ARP, p);
    }

    /** The header fields ipv4_send stores, before the checksum. */
    method BuildBlankHeader(buffer: array<byte>, total: uint16, protocol: byte, dst: uint32)
      requires buffer.Length == 1514
      modifies buffer
      ensures buffer[..20] == BlankIpHeader(total, protocol, ip, dst)
    {
      hide Swap, Swap32, Big16, Big32, Little16, Little32;
      HeaderMiddle(protocol);
      buffer[0], buffer[1] := 0x45, 0;
      assert buffer[..2] == [0x45, 0];
      SwapStoresBig(total);
      Store16(buffer, 2, Swap(total));
      ghost var prefix := buffer[..4];
      Store16(buffer, 4, Swap(1));
      Store16(buffer, 6, 0);
      ghost var before := buffer[..8];
      assert before == prefix + Little16(Swap(1)) + Little16(0);
      buffer[8], buffer[9] := 64, protocol;
      assert buffer[..8] == before;
      assert buffer[..10] == before + [64, protocol];
      Store16(buffer, 10, 0);
      assert buffer[..12] == prefix + (Little16(Swap(1)) + Little16(0) + [64, protocol] + Little16(0));
      Swap32StoresBig(ip);
      Store32(buffer, 12, Swap32(ip));
      Swap32StoresBig(dst);
      Store32(buffer, 16, Swap32(dst));
    }

    lemma HeaderMiddle(protocol: byte)
      ensures Little16(Swap(1)) + Little16(0) + [64, protocol] + Little16(0) == [0, 1, 0, 0, 64, protocol, 0, 0]
    {
    }

    /** ipv4_send */
    method SendIpv4(dst: uint32, protocol: byte, data: seq<byte>)
      requires Valid() && |data| <= 1480
      modifies this`sent
      ensures Valid() && State() == Ipv4Send(old(State()), dst, protocol, data)
    {
      hide BlankIpHeader, Checksum, Lookup, EthernetFrame, ArpPacket;
      var buffer := new byte[1514];
      BuildBlankHeader(buffer, 20 + |data|, protocol, dst);
      ghost var blank := buffer[..20];
      ghost var rest := buffer[12..];
      var c := ComputeChecksum(buffer[..20]);
      Store16(buffer, 10, c);
      HeaderFilled(buffer[..], blank, buffer[..12], rest, c);
      CopyBytes(buffer, 20, data);
      assert buffer[..20 + |data|] == IpPacket(protocol, ip, dst, data);
      var dstMac := Resolve(dst);
      match dstMac
      case None =>
        RequestArp(dst);
      case Some(m) =>
        SendFrame(m, TYPE_IP, buffer[..20 + |data|]);
    }

    lemma HeaderFilled(now: seq<byte>, blank: seq<byte>, head: seq<byte>, rest: seq<byte>, c: uint16)
      requires |blank| == 20 && now == head + rest && |rest| >= 8 && c == Checksum(blank)
      requires head == blank[..10] + Little16(c) && rest[..8] == blank[12..]
      ensures now[..20] == Fill(blank, 10)
    {
      assert now[..20] == head + rest[..8];
      StoredChecksumFills(blank, 10, c, now[..20]);
    }

    /** The 64 bytes icmp_send_request fills in, before the checksum. */
    method BuildBlankRequest(packet: array<byte>, id: uint16, sequence: uint16)
      requires packet.Length == 64
      modifies packet
      ensures packet[..] == BlankEchoRequest(id, sequence)
    {
      hide Swap, Big16, Little16, PingPayload;
      ZeroWord();
      packet[0], packet[1] := 8, 0;
      assert packet[..2] == [8, 0];
      Store16(packet, 2, 0);
      assert packet[..4] == [8, 0, 0, 0];
      SwapStoresBig(id);
      Store16(packet, 4, Swap(id));
      SwapStoresBig(sequence);
      Store16(packet, 6, Swap(sequence));
      ghost var header := packet[..8];
      var i := 0;
      while i < 56
        invariant 0 <= i <= 56
        invariant packet[..8] == header
        invariant forall k :: 8 <= k < 8 + i ==> packet[k] == k - 8
      {
        packet[8 + i] := i;
        i := i + 1;
      }
      PayloadBytes(packet[8..]);
      assert packet[..] == packet[..8] + packet[8..];
    }

    lemma ZeroWord()
      ensures Little16(0) == [0, 0]
    {
    }

    lemma PayloadBytes(p: seq<byte>)
      requires |p| == 56 && forall k :: 0 <= k < 56 ==> p[k] == k
      ensures p == PingPayload()
    {
    }

    /** icmp_send_request */
    method SendRequest(dst: uint32, id: uint16, sequence: uint16)
      requires Valid()
      modifies this`sent
      ensures Valid() && State() == SendEchoRequest(old(State()), dst, id, sequence)
    {
      hide Checksum, Ipv4Send, BlankEchoRequest, Little16;
      var packet := new byte[64];
      BuildBlankRequest(packet, id, sequence);
      ghost var blank := packet[..];
      var c := ComputeChecksum(packet[..]);
      Store16(packet, 2, c);
      StoredChecksumFills(blank, 2, c, packet[..]);
      SendIpv4(dst, PROTO_ICMP, packet[..]);
    }

    /** Storing the checksum natively at k is what Fill means. */
    lemma StoredChecksumFills(m: seq<byte>, k: nat, c: uint16, r: seq<byte>)
      requires k + 2 <= |m| == |r| && c == Checksum(m)
      requires r[..k + 2] == m[..k] + Little16(c) && r[k + 2..] == m[k + 2..]
      ensures r == Fill(m, k)
    {
      var f := Fill(m, k);
      forall i | 0 <= i < |m|
        ensures r[i] == f[i]
      {
        if i < k + 2 {
          assert r[i] == r[..k + 2][i];
        } else {
          assert r[i] == r[k + 2..][i - k - 2];
        }
      }
    }

    // -------------------------------------------------------------- receiving

    /** icmp_send_reply: the received bytes themselves, from offset at to end, become the reply. */
    method SendReply(packet: array<byte>, at: nat, end: nat, src: uint32, len: nat)
      requires Valid() && at + 4 <= end <= packet.Length && at + len <= end && len <= 1480
      modifies this`sent, packet
      ensures Valid() && State() == Ipv4Send(old(State()), src, PROTO_ICMP, EchoReply(old(packet[at..end]), len))
    {
      hide Checksum, Ipv4Send, Little16, PutChecksum;
      ghost var request := packet[at..end];
      ghost var blank := request[0 := 0][1 := 0][2 := 0][3 := 0];
      ClearFields(packet, at);
      FieldsCleared(packet[..], at, end, request);
      SlicePrefix(packet[..], at, end, len);
      var c := ComputeChecksum(packet[at..at + len]);
      Store16(packet, at + 2, c);
      ChecksumStored(packet[..], at, end, blank, c);
      SlicePrefix(packet[..], at, end, len);
      SendIpv4(src, PROTO_ICMP, packet[at..at + len]);
    }

    /** The first three stores of icmp_send_reply. */
    method ClearFields(packet: array<byte>, at: nat)
      requires at + 4 <= packet.Length
      modifies packet
      ensures packet[..at + 4] == old(packet[..at]) + [0, 0, 0, 0] && packet[at + 4..] == old(packet[at + 4..])
    {
      packet[at], packet[at + 1] := 0, 0;
      ghost var head := packet[..at + 2];
      Store16(packet, at + 2, 0);
    }

    lemma FieldsCleared(now: seq<byte>, at: nat, end: nat, request: seq<byte>)
      requires at + 4 <= end <= |now| && |request| == end - at
      requires now[..at + 4][at..] == [0, 0, 0, 0] && now[at + 4..][..end - at - 4] == request[4..]
      ensures now[at..end] == request[0 := 0][1 := 0][2 := 0][3 := 0]
    {
      assert now[at..end] == now[..at + 4][at..] + now[at + 4..][..end - at - 4];
    }

    lemma SlicePrefix(b: seq<byte>, at: nat, end: nat, n: nat)
      requires at + n <= end <= |b|
      ensures b[at..at + n] == b[at..end][..n]
    {
    }

    lemma ChecksumStored(now: seq<byte>, at: nat, end: nat, blank: seq<byte>, c: uint16)
      requires at + 4 <= end <= |now| && |blank| == end - at && blank[..2] == [0, 0]
      requires now[..at + 4][at..] == [0, 0] + Little16(c) && now[at + 4..][..end - at - 4] == blank[4..]
      ensures now[at..end] == PutChecksum(blank, c)
    {
      assert now[at..end] == now[..at + 4][at..] + now[at + 4..][..end - at - 4];
    }

    /** icmp_handler */
    method OnIcmp(packet: array<byte>, at: nat, end: nat, src: uint32, len: nat)
      requires Valid() && at <= end <= packet.Length && IcmpSized(packet[at..end], len)
      modifies this, packet
      ensures Valid() && State() == HandleIcmp(old(State()), old(packet[at..end]), len, src)
    {
      hide Ipv4Send, EchoReply;
      if packet[at] == 8 {
        SendReply(packet, at, end, src, len);
      } else if packet[at] == 0 {
        if pingWaiting && src == pingIp {
          pingWaiting := false;
        }
      }
    }

    /** The ARP table update of arp_handler. */
    method LearnSender(senderIp: uint32, senderMac: Mac)
      requires Valid()
      modifies this`arpCount, arpTable
      ensures Valid() && State() == old(State()).(table := Learn(old(State()).table, senderIp, senderMac))
    {
      if arpCount < 16 {
        arpTable[arpCount] := ArpEntry(senderIp, senderMac);
        arpCount := arpCount + 1;
      }
    }

    /** arp_handler on the 28 bytes from offset at on. */
    method OnArp(packet: array<byte>, at: nat)
      requires Valid() && at + ARP_PACKET <= packet.Length
      modifies this, arpTable
      ensures Valid() && State() == HandleArp(old(State()), packet[at..at + ARP_PACKET])
    {
      hide Read16, FourBytes, Learn, ArpPacket, EthernetFrame, SendEchoRequest, Swap32;
      ghost var p := packet[at..at + ARP_PACKET];
      SameReads(packet[..], at, ARP_PACKET, 6);
      SameReads(packet[..], at, ARP_PACKET, 14);
      SameReads(packet[..], at, ARP_PACKET, 24);
      var op := Load16(packet, at + 6);
      var senderIp := Load32(packet, at + 14);
      var targetIp := Load32(packet, at + 24);
      var senderMac := packet[at + 8..at + 14];
      assert senderMac == p[8..14];
      LearnSender(senderIp, senderMac);
      if op == ARP_REQUEST && targetIp == ip {
        var reply := BuildArp(ARP_REPLY, senderMac, senderIp);
        SendFrame(senderMac, TYPE_ARP, reply);
      }
      if op == ARP_REPLY && pingWaiting && senderIp == pingIp {
        SendRequest(Swap32(senderIp), pingId, pingSequence);
      }
    }

    lemma SameReads(b: seq<byte>, at: nat, n: nat, o: nat)
      requires at + n <= |b| && o + 4 <= n
      ensures Read16(b[at..at + n], o) == Read16(b, at + o) && Read32(b[at..at + n], o) == Read32(b, at + o)
    {
    }

    /** ipv4_handler on the packet of len bytes that starts at offset at. */
    method OnIpv4(packet: array<byte>, at: nat, len: nat)
      requires Valid() && at + len <= packet.Length && IpSized(State(), packet[at..at + len])
      modifies this, packet
      ensures Valid() && State() == HandleIpv4(old(State()), old(packet[at..at + len]))
    {
      hide Read16, FourBytes, HandleIcmp;
      ghost var p := packet[at..at + len];
      SameReads(packet[..], at, len, 16);
      SameReads(packet[..], at, len, 2);
      SameReads(packet[..], at, len, 12);
      var destIp := Load32(packet, at + 16);
      if destIp != ip && destIp != 0xFFFF_FFFF {
        return;
      }
      var total := Load16(packet, at + 2);
      var dataLength: uint16 := (total as int - 20) % 0x1_0000;
      if packet[at + 9] == PROTO_ICMP {
        var src := Load32(packet, at + 12);
        assert packet[at + 20..at + len] == p[20..];
        OnIcmp(packet, at + 20, at + len, src, dataLength);
      }
    }

    /** ethernet_handler on the first len bytes of the receive buffer. */
    method OnFrame(packet: array<byte>, len: nat)
      requires Valid() && len <= packet.Length && Sized(State(), packet[..len])
      modifies this, arpTable, packet
      ensures Valid() && State() == HandleFrame(old(State()), old(packet[..len]))
    {
      hide Read16, FourBytes, HandleArp, HandleIpv4, IpSized;
      ghost var f := packet[..len];
      FirstBytes(packet[..], len, 12);
      var kind := Load16(packet, 12);
      if kind == TYPE_ARP {
        assert packet[14..14 + ARP_PACKET] == f[14..42];
        OnArp(packet, 14);
      } else if kind == TYPE_IP {
        assert packet[14..14 + (len - 14)] == f[14..];
        OnIpv4(packet, 14, len - 14);
      }
    }

    lemma FirstBytes(b: seq<byte>, n: nat, o: nat)
      requires o + 2 <= n <= |b|
      ensures Read16(b[..n], o) == Read16(b, o)
    {
    }
  }
}
