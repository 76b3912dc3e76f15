/**
 A host of kernel/net/network.c on values: its addresses, ARP table, outstanding ping and the frames it
 has put on the wire.  The theorems are about exchanges between two such hosts and about runs of one.
 */
module Network {
  import opened Basics
  import opened InternetChecksum
  import opened Wire

  const ARP_TABLE_SIZE: nat := 16
  const BROADCAST: Mac := [0xFF, 0xFF, 0xFF, 0xFF, 0xFF, 0xFF]
  const NO_MAC: Mac := [0, 0, 0, 0, 0, 0]

  datatype ArpEntry = ArpEntry(ip: uint32, mac: Mac)
  datatype Ping = Ping(ip: uint32, id: uint16, sequence: uint16, waiting: bool)
  datatype Host = Host(mac: Mac, ip: uint32, table: seq<ArpEntry>, ping: Ping, sent: seq<seq<byte>>)

  // ---------------------------------------------------------------- sending

  function EthernetSend(h: Host, dst: Mac, kind: uint16, data: seq<byte>): Host {
    h.(sent := h.sent + [EthernetFrame(dst, h.mac, kind, data)])
  }

  /** The first entry for ip. */
  function Lookup(table: seq<ArpEntry>, ip: uint32): Option<Mac> {
    if table == [] then None
    else if table[0].ip == ip then Some(table[0].mac)
    else Lookup(table[1..], ip)
  }

  function SendArpRequest(h: Host, ip: uint32): Host {
    EthernetSend(h, BROADCAST, TYPE_ARP, ArpPacket(ARP_REQUEST, h.mac, h.ip, NO_MAC, ip))
  }

  /** Without a known MAC the packet is dropped and an ARP request goes out instead. */
  function Ipv4Send(h: Host, dst: uint32, protocol: byte, data: seq<byte>): Host
    requires IP_HEADER + |data| < 0x1_0000
  {
    match Lookup(h.table, dst)
    case None => SendArpRequest(h, dst)
    case Some(mac) => EthernetSend(h, mac, TYPE_IP, IpPacket(protocol, h.ip, dst, data))
  }

  function SendEchoRequest(h: Host, dst: uint32, id: uint16, sequence: uint16): Host {
    Ipv4Send(h, dst, PROTO_ICMP, EchoRequest(id, sequence))
  }

  // ---------------------------------------------------------------- receiving

  function Learn(table: seq<ArpEntry>, ip: uint32, mac: Mac): seq<ArpEntry> {
    if |table| < ARP_TABLE_SIZE then table + [ArpEntry(ip, mac)] else table
  }

  function HandleArp(h: Host, p: seq<byte>): Host
    requires |p| == ARP_PACKET
  {
    var op, senderMac, senderIp, targetIp := Read16(p, 6), p[8..14], Read32(p, 14), Read32(p, 24);
    var h1 := h.(table := Learn(h.table, senderIp, senderMac));
    var h2 := if op == ARP_REQUEST && targetIp == h.ip
              then EthernetSend(h1, senderMac, TYPE_ARP, ArpPacket(ARP_REPLY, h.mac, h.ip, senderMac, senderIp))
              else h1;
    if op == ARP_REPLY && h.ping.waiting && senderIp == h.ping.ip
    then SendEchoRequest(h2, Swap32(senderIp), h.ping.id, h.ping.sequence)
    else h2
  }

  /** The data length of an IP packet, as a 16-bit number: totals below 20 wrap. */
  function DataLength(total: uint16): uint16 {
    (total - IP_HEADER) % 0x1_0000
  }

  /** icmp holds the bytes from the ICMP header on, len is the length the IP header claims for them. */
  predicate IcmpSized(icmp: seq<byte>, len: nat) {
    |icmp| >= 1 && (icmp[0] == 8 ==> 4 <= |icmp| && len <= |icmp| && len <= 1480)
  }

  function HandleIcmp(h: Host, icmp: seq<byte>, len: nat, src: uint32): Host
    requires IcmpSized(icmp, len)
  {
    if icmp[0] == 8 then Ipv4Send(h, src, PROTO_ICMP, EchoReply(icmp, len))
    else if icmp[0] == 0 && h.ping.waiting && src == h.ping.ip then h.(ping := h.ping.(waiting := false))
    else h
  }

  /** The IP packet is addressed to this host and carries ICMP. */
  predicate IcmpForUs(h: Host, p: seq<byte>)
    requires |p| >= IP_HEADER
  {
    (Read32(p, 16) == h.ip || Read32(p, 16) == 0xFFFF_FFFF) && p[9] == PROTO_ICMP
  }

  /** Every byte the handlers load is there, and an echo reply fits the 1514-byte send buffers. */
  predicate IpSized(h: Host, p: seq<byte>) {
    |p| >= IP_HEADER && (IcmpForUs(h, p) ==> IcmpSized(p[20..], DataLength(Read16(p, 2))))
  }

  /** f is a received frame, or the whole receive buffer: the handlers never look at the frame's length. */
  predicate Sized(h: Host, f: seq<byte>) {
    && |f| >= ETHERNET_HEADER
    && (Read16(f, 12) == TYPE_ARP ==> |f| >= ETHERNET_HEADER + ARP_PACKET)
    && (Read16(f, 12) == TYPE_IP ==> IpSized(h, f[14..]))
  }

  function HandleIpv4(h: Host, p: seq<byte>): Host
    requires IpSized(h, p)
  {
    if IcmpForUs(h, p) then HandleIcmp(h, p[20..], DataLength(Read16(p, 2)), Read32(p, 12)) else h
  }

  function HandleFrame(h: Host, f: seq<byte>): Host
    requires Sized(h, f)
  {
    if Read16(f, 12) == TYPE_ARP then HandleArp(h, f[14..42])
    else if Read16(f, 12) == TYPE_IP then HandleIpv4(h, f[14..])
    else h
  }

  // ---------------------------------------------------------------- single frames

  lemma IpFrameIsDelivered(h: Host, dst: Mac, src: Mac, from: uint32, data: seq<byte>)
    requires |data| <= 1480 && IcmpSized(data, |data|)
    ensures var f := EthernetFrame(dst, src, TYPE_IP, IpPacket(PROTO_ICMP, from, h.ip, data));
            Sized(h, f) && HandleFrame(h, f) == HandleIcmp(h, data, |data|, from)
  {
    hide IpPacket, EthernetFrame, Read16, Read32;
    var p := IpPacket(PROTO_ICMP, from, h.ip, data);
    FrameFields(dst, src, TYPE_IP, p);
    IpFields(PROTO_ICMP, from, h.ip, data);
    assert DataLength(Read16(p, 2)) == |data|;
  }

  lemma ArpFrameIsDelivered(h: Host, dst: Mac, src: Mac, op: uint16, senderMac: Mac, senderIp: uint32,
                            targetMac: Mac, targetIp: uint32)
    ensures var p := ArpPacket(op, senderMac, senderIp, targetMac, targetIp);
            var f := EthernetFrame(dst, src, TYPE_ARP, p);
            Sized(h, f) && f[..6] == dst && HandleFrame(h, f) == HandleArp(h, p)
  {
    var p := ArpPacket(op, senderMac, senderIp, targetMac, targetIp);
    FrameFields(dst, src, TYPE_ARP, p);
    assert EthernetFrame(dst, src, TYPE_ARP, p)[14..42] == p;
  }

  // ---------------------------------------------------------------- echo

  /** Read as raw bytes, f carries a ping message of the given type from one address to another. */
  predicate IsEchoFrame(f: seq<byte>, kind: byte, dst: Mac, src: Mac, from: uint32, to: uint32,
                        id: uint16, sequence: uint16)
  {
    && |f| == 98 && f[..6] == dst && f[6..12] == src && Read16(f, 12) == TYPE_IP
    && Checksum(f[14..34]) == 0 && RfcChecksum(f[14..34]) == 0
    && Read16(f, 16) == 84 && f[23] == PROTO_ICMP && Read32(f, 26) == from && Read32(f, 30) == to
    && f[34] == kind && f[35] == 0 && Checksum(f[34..]) == 0 && RfcChecksum(f[34..]) == 0
    && Read16(f, 38) == id && Read16(f, 40) == sequence && f[42..] == PingPayload()
  }

  lemma EchoFrameDecodes(kind: byte, dst: Mac, src: Mac, from: uint32, to: uint32, id: uint16, sequence: uint16,
                         m: seq<byte>)
    requires |m| == 64 && m[0] == kind && m[1] == 0 && Checksum(m) == 0 && RfcChecksum(m) == 0
    requires Read16(m, 4) == id && Read16(m, 6) == sequence && m[8..] == PingPayload()
    ensures IsEchoFrame(EthernetFrame(dst, src, TYPE_IP, IpPacket(PROTO_ICMP, from, to, m)),
                        kind, dst, src, from, to, id, sequence)
  {
    hide IpPacket, EthernetFrame, Checksum, RfcChecksum;
    var p := IpPacket(PROTO_ICMP, from, to, m);
    var f := EthernetFrame(dst, src, TYPE_IP, p);
    IpFields(PROTO_ICMP, from, to, m);
    FrameFields(dst, src, TYPE_IP, p);
    assert forall i :: 0 <= i < |p| ==> f[14 + i] == f[14..][i];
    assert forall i :: 0 <= i < |m| ==> p[20 + i] == p[20..][i];
    assert f[14..34] == p[..20];
    assert f[34..] == m;
    assert f[42..] == m[8..];
  }

  /** The frame with the echo request, and the one with the reply to it. */
  lemma RequestFrameDecodes(dst: Mac, src: Mac, from: uint32, to: uint32, id: uint16, sequence: uint16)
    ensures IsEchoFrame(EthernetFrame(dst, src, TYPE_IP, IpPacket(PROTO_ICMP, from, to, EchoRequest(id, sequence))),
                        8, dst, src, from, to, id, sequence)
  {
    hide EchoRequest, IpPacket, EthernetFrame, IsEchoFrame, Checksum, RfcChecksum;
    EchoRequestFields(id, sequence);
    EchoFrameDecodes(8, dst, src, from, to, id, sequence, EchoRequest(id, sequence));
  }

  lemma ReplyFrameDecodes(dst: Mac, src: Mac, from: uint32, to: uint32, id: uint16, sequence: uint16)
    ensures var m := EchoReply(EchoRequest(id, sequence), 64);
            IsEchoFrame(EthernetFrame(dst, src, TYPE_IP, IpPacket(PROTO_ICMP, from, to, m)),
                        0, dst, src, from, to, id, sequence)
  {
    hide EchoRequest, EchoReply, IpPacket, EthernetFrame, IsEchoFrame, Checksum, RfcChecksum;
    var q := EchoRequest(id, sequence);
    var m := EchoReply(q, 64);
    EchoRequestFields(id, sequence);
    EchoReplyFields(q, 64);
    assert forall i :: 4 <= i < 64 ==> m[i] == m[4..][i - 4] && q[i] == q[4..64][i - 4];
    assert m[8..] == q[8..];
    EchoFrameDecodes(0, dst, src, from, to, id, sequence, m);
  }

  /**
   The echo exchange, when each host's table binds the other: the request makes b send exactly one frame,
   that frame is the matching reply with checksums that verify, and it clears a's waiting flag if a was
   waiting for b.
   */
  lemma EchoRoundTrip(a: Host, b: Host, id: uint16, sequence: uint16)
    requires Lookup(a.table, b.ip) == Some(b.mac) && Lookup(b.table, a.ip) == Some(a.mac)
    ensures var a1 := SendEchoRequest(a, b.ip, id, sequence);
            && |a1.sent| == |a.sent| + 1 && a1 == a.(sent := a.sent + [a1.sent[|a.sent|]])
            && Sized(b, a1.sent[|a.sent|])
            && var b1 := HandleFrame(b, a1.sent[|a.sent|]);
            && |b1.sent| == |b.sent| + 1 && b1 == b.(sent := b.sent + [b1.sent[|b.sent|]])
            && IsEchoFrame(b1.sent[|b.sent|], 0, a.mac, b.mac, b.ip, a.ip, id, sequence)
            && Sized(a1, b1.sent[|b.sent|])
            && HandleFrame(a1, b1.sent[|b.sent|])
               == a1.(ping := a.ping.(waiting := a.ping.waiting && a.ping.ip != b.ip))
  {
    hide EchoRequest, EchoReply, IpPacket, EthernetFrame, HandleFrame, Sized, IsEchoFrame, Lookup;
    var q := EchoRequest(id, sequence);
    var a1 := SendEchoRequest(a, b.ip, id, sequence);
    assert a1.sent[|a.sent|] == EthernetFrame(b.mac, a.mac, TYPE_IP, IpPacket(PROTO_ICMP, a.ip, b.ip, q));
    EchoRequestFields(id, sequence);
    IpFrameIsDelivered(b, b.mac, a.mac, a.ip, q);
    var b1 := HandleFrame(b, a1.sent[|a.sent|]);
    ReplyFrameDecodes(a.mac, b.mac, b.ip, a.ip, id, sequence);
    EchoReplyFields(q, 64);
    IpFrameIsDelivered(a1, a.mac, b.mac, b.ip, EchoReply(q, 64));
  }

  // ---------------------------------------------------------------- ARP

  lemma {:induction false} LookupAppend(t: seq<ArpEntry>, u: seq<ArpEntry>, ip: uint32)
    ensures Lookup(t + u, ip) == if Lookup(t, ip).Some? then Lookup(t, ip) else Lookup(u, ip)
    decreases |t|
  {
    if t == [] {
      assert t + u == u;
    } else {
      assert (t + u)[1..] == t[1..] + u;
      LookupAppend(t[1..], u, ip);
    }
  }

  /** What a table answers after learning a pair: an earlier binding wins, and a full table learns nothing. */
  lemma LookupAfterLearn(t: seq<ArpEntry>, ip: uint32, mac: Mac)
    ensures Lookup(Learn(t, ip, mac), ip)
         == if Lookup(t, ip).Some? then Lookup(t, ip) else if |t| < ARP_TABLE_SIZE then Some(mac) else None
  {
    LookupAppend(t, [ArpEntry(ip, mac)], ip);
  }

  /**
   A asks for B's address and B answers: B learns A and replies to it, A learns B.  Each then resolves
   the other to its MAC exactly unless it had an earlier, different binding or no room.
   */
  lemma ArpExchange(a: Host, b: Host)
    ensures var a1 := SendArpRequest(a, b.ip);
            && |a1.sent| == |a.sent| + 1 && Sized(b, a1.sent[|a.sent|]) && a1.sent[|a.sent|][..6] == BROADCAST
            && var b1 := HandleFrame(b, a1.sent[|a.sent|]);
            && |b1.sent| == |b.sent| + 1 && Sized(a1, b1.sent[|b.sent|]) && b1.sent[|b.sent|][..6] == a.mac
            && b1 == b.(table := Learn(b.table, a.ip, a.mac), sent := b.sent + [b1.sent[|b.sent|]])
            && (Lookup(b1.table, a.ip) == Some(a.mac) <==>
                Lookup(b.table, a.ip) == Some(a.mac) || (Lookup(b.table, a.ip) == None && |b.table| < ARP_TABLE_SIZE))
            && var a2 := HandleFrame(a1, b1.sent[|b.sent|]);
            && a2.table == Learn(a.table, b.ip, b.mac)
            && (Lookup(a2.table, b.ip) == Some(b.mac) <==>
                Lookup(a.table, b.ip) == Some(b.mac) || (Lookup(a.table, b.ip) == None && |a.table| < ARP_TABLE_SIZE))
  {
    hide ArpPacket, EthernetFrame, HandleFrame, Sized, Lookup, Learn, Read16, Read32, SendEchoRequest;
    var a1 := SendArpRequest(a, b.ip);
    ArpFrameIsDelivered(b, BROADCAST, a.mac, ARP_REQUEST, a.mac, a.ip, NO_MAC, b.ip);
    ArpFields(ARP_REQUEST, a.mac, a.ip, NO_MAC, b.ip);
    var b1 := HandleFrame(b, a1.sent[|a.sent|]);
    ArpFrameIsDelivered(a1, a.mac, b.mac, ARP_REPLY, b.mac, b.ip, a.mac, a.ip);
    ArpFields(ARP_REPLY, b.mac, b.ip, a.mac, a.ip);
    LookupAfterLearn(b.table, a.ip, a.mac);
    LookupAfterLearn(a.table, b.ip, b.mac);
    SendingKeepsTable(a1.(table := Learn(a.table, b.ip, b.mac)), Swap32(b.ip), a.ping.id, a.ping.sequence);
  }

  lemma SendingKeepsTable(h: Host, dst: uint32, id: uint16, sequence: uint16)
    ensures SendEchoRequest(h, dst, id, sequence).table == h.table
  {
  }

  // ---------------------------------------------------------------- the ping sent on an ARP reply

  /** A dotted address that reads the same from both ends. */
  predicate Palindrome(ip: uint32) {
    ip / 0x100_0000 == ip % 256 && ip / 0x1_0000 % 256 == ip / 0x100 % 256
  }

  lemma SwapKeepsIff(ip: uint32)
    ensures Swap32(ip) == ip <==> Palindrome(ip)
  {
    hide FourBytes;
    FourBytesJoin(ip);
    FourBytesSplit(ip % 256, ip / 0x100 % 256, ip / 0x1_0000 % 256, ip / 0x100_0000);
  }

  /** The ARP reply of a host, as any receiver gets it. */
  function ArpReplyFrame(dst: Mac, replierMac: Mac, replierIp: uint32, targetMac: Mac, targetIp: uint32): seq<byte> {
    EthernetFrame(dst, replierMac, TYPE_ARP, ArpPacket(ARP_REPLY, replierMac, replierIp, targetMac, targetIp))
  }

  /** To the awaited ARP reply a host sends one frame: a ping to the byte-swapped address, or an ARP request for it. */
  lemma DeferredPingIsOneFrame(h: Host, dst: Mac, replierMac: Mac, replierIp: uint32, targetMac: Mac, targetIp: uint32)
    requires h.ping.waiting && h.ping.ip == replierIp
    ensures var f := ArpReplyFrame(dst, replierMac, replierIp, targetMac, targetIp);
            var table, to := Learn(h.table, replierIp, replierMac), Swap32(replierIp);
            && Sized(h, f)
            && var h1 := HandleFrame(h, f);
            && |h1.sent| == |h.sent| + 1 && h1 == h.(table := table, sent := h.sent + [h1.sent[|h.sent|]])
            && var out := h1.sent[|h.sent|];
            match Lookup(table, to)
            case None =>
              out == EthernetFrame(BROADCAST, h.mac, TYPE_ARP, ArpPacket(ARP_REQUEST, h.mac, h.ip, NO_MAC, to))
            case Some(mac) => IsEchoFrame(out, 8, mac, h.mac, h.ip, to, h.ping.id, h.ping.sequence)
  {
    hide ArpPacket, EthernetFrame, HandleFrame, Sized, Lookup, Learn, Read16, Read32;
    hide EchoRequest, IpPacket, Swap32, IsEchoFrame;
    ArpFrameIsDelivered(h, dst, replierMac, ARP_REPLY, replierMac, replierIp, targetMac, targetIp);
    ArpFields(ARP_REPLY, replierMac, replierIp, targetMac, targetIp);
    match Lookup(Learn(h.table, replierIp, replierMac), Swap32(replierIp))
    case None =>
    case Some(mac) => RequestFrameDecodes(mac, h.mac, h.ip, Swap32(replierIp), h.ping.id, h.ping.sequence);
  }

  /**
   The exact condition under which the ping waiting for an ARP reply is sent to the replier: its address
   reads the same from both ends, and it is bound already or there is room to bind it.
   */
  lemma DeferredPingReachesReplierIff(h: Host, dst: Mac, replierMac: Mac, replierIp: uint32,
                                      targetMac: Mac, targetIp: uint32)
    requires h.ping.waiting && h.ping.ip == replierIp
    ensures var f := ArpReplyFrame(dst, replierMac, replierIp, targetMac, targetIp);
            && Sized(h, f)
            && var h1 := HandleFrame(h, f);
            && |h1.sent| == |h.sent| + 1 && h.sent < h1.sent
            && ((exists mac: Mac ::
                   IsEchoFrame(h1.sent[|h.sent|], 8, mac, h.mac, h.ip, replierIp, h.ping.id, h.ping.sequence))
                <==> Palindrome(replierIp) && (Lookup(h.table, replierIp).Some? || |h.table| < ARP_TABLE_SIZE))
  {
    hide HandleFrame, Sized, ArpPacket, EthernetFrame, Lookup, Learn, Palindrome, Swap32, ArpReplyFrame;
    DeferredPingIsOneFrame(h, dst, replierMac, replierIp, targetMac, targetIp);
    SwapKeepsIff(replierIp);
    LookupAfterLearn(h.table, replierIp, replierMac);
    FrameFields(BROADCAST, h.mac, TYPE_ARP, ArpPacket(ARP_REQUEST, h.mac, h.ip, NO_MAC, Swap32(replierIp)));
  }

  /** A host waiting for the gateway 10.0.2.2 answers its ARP reply with a ping to, or an ARP request for, 2.2.0.10. */
  lemma DeferredPingMissesGateway(h: Host, dst: Mac, gatewayMac: Mac, targetMac: Mac, targetIp: uint32)
    requires h.ping.waiting && h.ping.ip == 0x0A00_0202
    ensures var f := ArpReplyFrame(dst, gatewayMac, 0x0A00_0202, targetMac, targetIp);
            && Sized(h, f)
            && var h1 := HandleFrame(h, f);
            && |h1.sent| == |h.sent| + 1 && h.sent < h1.sent
            && var out := h1.sent[|h.sent|];
            match Lookup(h.table, 0x0202_000A)
            case None =>
              out == EthernetFrame(BROADCAST, h.mac, TYPE_ARP, ArpPacket(ARP_REQUEST, h.mac, h.ip, NO_MAC, 0x0202_000A))
            case Some(mac) => IsEchoFrame(out, 8, mac, h.mac, h.ip, 0x0202_000A, h.ping.id, h.ping.sequence)
  {
    hide HandleFrame, Sized, ArpPacket, EthernetFrame, ArpReplyFrame, IsEchoFrame, FourBytes;
    FourBytesSplit(10, 0, 2, 2);
    GatewayOctets();
    assert Swap32(0x0A00_0202) == 0x0202_000A;
    DeferredPingIsOneFrame(h, dst, gatewayMac, 0x0A00_0202, targetMac, targetIp);
    LookupAppend(h.table, [ArpEntry(0x0A00_0202, gatewayMac)], 0x0202_000A);
  }

  lemma GatewayOctets()
    ensures FourBytes(10, 0, 2, 2) == 0x0A00_0202 && FourBytes(2, 2, 0, 10) == 0x0202_000A
  {
  }

  // ---------------------------------------------------------------- runs of one host

  ghost predicate AllSized(h: Host, fs: seq<seq<byte>>)
    decreases |fs|
  {
    fs != [] ==> Sized(h, fs[0]) && AllSized(HandleFrame(h, fs[0]), fs[1..])
  }

  ghost function HandleAll(h: Host, fs: seq<seq<byte>>): Host
    requires AllSized(h, fs)
    decreases |fs|
  {
    if fs == [] then h else HandleAll(HandleFrame(h, fs[0]), fs[1..])
  }

  /** The sender pairs of the ARP frames among fs, in order. */
  function Senders(fs: seq<seq<byte>>): seq<ArpEntry>
    decreases |fs|
  {
    if fs == [] then []
    else if |fs[0]| >= ETHERNET_HEADER + ARP_PACKET && Read16(fs[0], 12) == TYPE_ARP
    then [ArpEntry(Read32(fs[0], 28), fs[0][22..28])] + Senders(fs[1..])
    else Senders(fs[1..])
  }

  function FirstEntries(t: seq<ArpEntry>): seq<ArpEntry> {
    if |t| <= 16 then t else t[..16]
  }

  lemma FrameTeachesSender(h: Host, f: seq<byte>)
    requires Sized(h, f)
    ensures HandleFrame(h, f).table ==
            if Read16(f, 12) == TYPE_ARP then Learn(h.table, Read32(f, 28), f[22..28]) else h.table
  {
    if Read16(f, 12) == TYPE_ARP {
      var p := f[14..42];
      assert p[8..14] == f[22..28];
      assert Read32(p, 14) == Read32(f, 28);
    }
  }

  /** Over any sequence of frames the table is what it was, extended by the ARP senders, cut at 16 entries. */
  lemma {:induction false} TableIsFirstSenders(h: Host, fs: seq<seq<byte>>)
    requires |h.table| <= ARP_TABLE_SIZE && AllSized(h, fs)
    ensures HandleAll(h, fs).table == FirstEntries(h.table + Senders(fs))
    decreases |fs|
  {
    hide Read16, Read32;
    if fs != [] {
      var h1 := HandleFrame(h, fs[0]);
      FrameTeachesSender(h, fs[0]);
      TableIsFirstSenders(h1, fs[1..]);
      if Read16(fs[0], 12) == TYPE_ARP {
        var e := ArpEntry(Read32(fs[0], 28), fs[0][22..28]);
        assert Senders(fs) == [e] + Senders(fs[1..]);
        assert h.table + Senders(fs) == h.table + [e] + Senders(fs[1..]);
      }
    } else {
      assert h.table + Senders(fs) == h.table;
    }
  }

  /** Once a lookup succeeds its answer never changes, whatever frames arrive. */
  lemma BindingsAreStable(h: Host, fs: seq<seq<byte>>, ip: uint32)
    requires |h.table| <= ARP_TABLE_SIZE && AllSized(h, fs) && Lookup(h.table, ip).Some?
    ensures Lookup(HandleAll(h, fs).table, ip) == Lookup(h.table, ip)
  {
    TableIsFirstSenders(h, fs);
    var t := HandleAll(h, fs).table;
    assert t == h.table + t[|h.table|..];
    LookupAppend(h.table, t[|h.table|..], ip);
  }

  // The frames that matter, as raw bytes.

  /** An ARP request for this host's address. */
  predicate IsArpRequestForUs(h: Host, f: seq<byte>) {
    |f| >= 42 && f[12..14] == [8, 6] && f[20..22] == [0, 1] && f[38..42] == Big32(h.ip)
  }

  /** The ARP reply of the host a ping is waiting for. */
  predicate IsAwaitedArpReply(h: Host, f: seq<byte>) {
    |f| >= 42 && f[12..14] == [8, 6] && f[20..22] == [0, 2] && h.ping.waiting && f[28..32] == Big32(h.ping.ip)
  }

  /** An ICMP message of the given type, addressed to this host or to everyone. */
  predicate IsIcmpForUs(h: Host, f: seq<byte>, kind: byte) {
    && |f| >= 35 && f[12..14] == [8, 0] && (f[30..34] == Big32(h.ip) || f[30..34] == [255, 255, 255, 255])
    && f[23] == 1 && f[34] == kind
  }

  /** An ICMP echo reply, addressed to this host, from the host it is waiting for. */
  predicate IsAwaitedReply(h: Host, f: seq<byte>) {
    IsIcmpForUs(h, f, 0) && f[26..30] == Big32(h.ping.ip)
  }

  /** A field holds a number exactly if its bytes are the number's, most significant first. */
  lemma Reads32(b: seq<byte>, o: nat, v: uint32)
    requires o + 4 <= |b|
    ensures Read32(b, o) == v <==> b[o..o + 4] == Big32(v)
    ensures Big32(Read32(b, o)) == b[o..o + 4]
  {
    FourBytesSplit(b[o], b[o + 1], b[o + 2], b[o + 3]);
    if b[o..o + 4] == Big32(v) {
      ReadBig32(v, b, o);
    }
  }

  lemma Reads16(b: seq<byte>, o: nat, hi: byte, lo: byte)
    requires o + 2 <= |b|
    ensures Read16(b, o) == 256 * (hi as nat) + lo as nat <==> b[o..o + 2] == [hi, lo]
  {
    TwoDigits(b[o], b[o + 1]);
    TwoDigits(hi, lo);
  }

  /** h1 has sent at most n frames more than h, and is otherwise the same host up to its table and waiting flag. */
  predicate SentAtMost(h: Host, h1: Host, n: nat) {
    && h.sent <= h1.sent && |h1.sent| <= |h.sent| + n
    && h1.mac == h.mac && h1.ip == h.ip && h1.ping.(waiting := h.ping.waiting) == h.ping
    && (h1.ping.waiting ==> h.ping.waiting)
  }

  /** The same for a field of a window of the frame. */
  lemma WindowReads32(f: seq<byte>, from: nat, to: nat, o: nat, v: uint32)
    requires from <= to <= |f| && o + 4 <= to - from
    ensures Read32(f[from..to], o) == v <==> f[from + o..from + o + 4] == Big32(v)
    ensures Big32(Read32(f[from..to], o)) == f[from + o..from + o + 4]
  {
    Reads32(f, from + o, v);
    assert Read32(f[from..to], o) == Read32(f, from + o);
  }

  lemma WindowReads16(f: seq<byte>, from: nat, to: nat, o: nat, hi: byte, lo: byte)
    requires from <= to <= |f| && o + 2 <= to - from
    ensures Read16(f[from..to], o) == 256 * (hi as nat) + lo as nat <==> f[from + o..from + o + 2] == [hi, lo]
  {
    Reads16(f, from + o, hi, lo);
    assert Read16(f[from..to], o) == Read16(f, from + o);
  }

  /** The fields the handlers load agree with the raw bytes of these predicates. */
  lemma ArpFrameIsClassified(h: Host, f: seq<byte>)
    requires Sized(h, f)
    ensures Read16(f, 12) == TYPE_ARP <==> f[12..14] == [8, 6]
    ensures Read16(f, 12) == TYPE_ARP ==>
              var p := f[14..42];
              && (IsArpRequestForUs(h, f) <==> Read16(p, 6) == ARP_REQUEST && Read32(p, 24) == h.ip)
              && (IsAwaitedArpReply(h, f) <==>
                  Read16(p, 6) == ARP_REPLY && h.ping.waiting && Read32(p, 14) == h.ping.ip)
              && p[8..14] == f[22..28] && Big32(Read32(p, 14)) == f[28..32]
  {
    hide Big32, Read16, Read32, IpSized;
    Reads16(f, 12, 8, 6);
    if Read16(f, 12) == TYPE_ARP {
      WindowReads16(f, 14, 42, 6, 0, 1);
      WindowReads16(f, 14, 42, 6, 0, 2);
      WindowReads32(f, 14, 42, 24, h.ip);
      WindowReads32(f, 14, 42, 14, h.ping.ip);
      assert f[14..42][8..14] == f[22..28];
    }
  }

  lemma IcmpFrameIsClassified(h: Host, f: seq<byte>, kind: byte)
    requires Sized(h, f)
    ensures Read16(f, 12) == TYPE_IP <==> f[12..14] == [8, 0]
    ensures Read16(f, 12) == TYPE_IP ==>
              var p := f[14..];
              && (IsIcmpForUs(h, f, kind) <==> IcmpForUs(h, p) && p[20] == kind)
              && (IsAwaitedReply(h, f) <==> IcmpForUs(h, p) && p[20] == 0 && Read32(p, 12) == h.ping.ip)
              && Big32(Read32(p, 12)) == f[26..30]
  {
    hide Read16, Read32, Big32;
    Reads16(f, 12, 8, 0);
    if Read16(f, 12) == TYPE_IP {
      var p := f[14..];
      assert p == f[14..|f|];
      WindowReads32(f, 14, |f|, 16, h.ip);
      WindowReads32(f, 14, |f|, 16, 0xFFFF_FFFF);
      WindowReads32(f, 14, |f|, 12, h.ping.ip);
      EveryoneBytes();
      assert p[9] == f[23];
      if |p| > 20 {
        assert p[20] == f[34];
      }
      assert IcmpForUs(h, p) ==> |p[20..]| >= 1;
    }
  }

  lemma EveryoneBytes()
    ensures Big32(0xFFFF_FFFF) == [255, 255, 255, 255]
  {
  }

  /** A frame makes the host send at most one frame, and only an awaited reply ends the wait for a ping. */
  lemma FrameIsAnsweredOnce(h: Host, f: seq<byte>)
    requires Sized(h, f)
    ensures SentAtMost(h, HandleFrame(h, f), 1)
    ensures h.ping.waiting ==> (!HandleFrame(h, f).ping.waiting <==> IsAwaitedReply(h, f))
    ensures IsAwaitedReply(h, f) ==> HandleFrame(h, f).sent == h.sent
  {
    hide EthernetFrame, ArpPacket, IpPacket, EchoRequest, EchoReply, Learn, Swap32, Read16, Read32, Big32;
    hide IsArpRequestForUs, IsAwaitedArpReply, IsIcmpForUs, IsAwaitedReply;
    ArpFrameIsClassified(h, f);
    IcmpFrameIsClassified(h, f, 0);
    AwaitedReplyIsIp(h, f);
  }

  lemma AwaitedReplyIsIp(h: Host, f: seq<byte>)
    requires |f| >= 14
    ensures IsAwaitedReply(h, f) ==> f[12..14] == [8, 0]
  {
  }

  /**
   When a host sends something on receiving a frame: exactly for an ARP request for its own address, the
   ARP reply its ping is waiting for, and an echo request addressed to it or to everyone.
   */
  lemma FrameIsAnsweredIff(h: Host, f: seq<byte>)
    requires Sized(h, f)
    ensures HandleFrame(h, f).sent != h.sent
            <==> IsArpRequestForUs(h, f) || IsAwaitedArpReply(h, f) || IsIcmpForUs(h, f, 8)
  {
    hide EthernetFrame, ArpPacket, IpPacket, EchoRequest, EchoReply, Learn, Swap32, Read16, Read32, Big32, IpSized;
    ArpFrameIsClassified(h, f);
    IcmpFrameIsClassified(h, f, 8);
    if f[12..14] == [8, 6] {
      ArpIsAnsweredIff(h, f[14..42]);
    } else if f[12..14] == [8, 0] {
      IcmpIsAnsweredIff(h, f[14..]);
    }
  }

  lemma IcmpIsAnsweredIff(h: Host, p: seq<byte>)
    requires IpSized(h, p)
    ensures HandleIpv4(h, p).sent != h.sent <==> IcmpForUs(h, p) && p[20] == 8
  {
    hide EthernetFrame, ArpPacket, IpPacket, EchoReply, Read16, Read32;
    if IcmpForUs(h, p) {
      assert |p[20..]| >= 1 && p[20..][0] == p[20];
    }
  }

  lemma ArpIsAnsweredIff(h: Host, p: seq<byte>)
    requires |p| == ARP_PACKET
    ensures HandleArp(h, p).sent != h.sent
            <==> (Read16(p, 6) == ARP_REQUEST && Read32(p, 24) == h.ip)
                 || (Read16(p, 6) == ARP_REPLY && h.ping.waiting && Read32(p, 14) == h.ping.ip)
  {
    hide EthernetFrame, ArpPacket, IpPacket, EchoRequest, Learn, Swap32, Read16, Read32;
  }

  // ---------------------------------------------------------------- what is sent, as raw bytes

  /** An ARP request on the wire: to everyone, for the address, from this host, with an empty target MAC. */
  lemma ArpRequestBytes(h: Host, ip: uint32)
    ensures SendArpRequest(h, ip).sent
         == h.sent + [[255, 255, 255, 255, 255, 255] + h.mac + [8, 6] + [0, 1, 8, 0, 6, 4, 0, 1]
                      + h.mac + Big32(h.ip) + [0, 0, 0, 0, 0, 0] + Big32(ip)]
  {
    hide Big32, Big16;
    TypeBytes();
    var p := ArpPacket(ARP_REQUEST, h.mac, h.ip, NO_MAC, ip);
    assert EthernetFrame(BROADCAST, h.mac, TYPE_ARP, p)
        == [255, 255, 255, 255, 255, 255] + h.mac + [8, 6] + [0, 1, 8, 0, 6, 4, 0, 1]
           + h.mac + Big32(h.ip) + [0, 0, 0, 0, 0, 0] + Big32(ip);
  }

  lemma TypeBytes()
    ensures Big16(TYPE_ARP) == [8, 6] && Big16(TYPE_IP) == [8, 0]
    ensures Big16(ARP_REQUEST) == [0, 1] && Big16(ARP_REPLY) == [0, 2]
  {
  }

  /** The answer to an ARP request for this host: back to the requester, with its own MAC and address as the target. */
  lemma ArpRequestIsAnswered(h: Host, f: seq<byte>)
    requires Sized(h, f) && IsArpRequestForUs(h, f)
    ensures HandleFrame(h, f).sent
         == h.sent + [f[22..28] + h.mac + [8, 6] + [0, 1, 8, 0, 6, 4, 0, 2]
                      + h.mac + Big32(h.ip) + f[22..28] + f[28..32]]
  {
    hide Big32, Read16, Read32, Learn, IpSized, Big16, SendEchoRequest, IsArpRequestForUs, IsAwaitedArpReply;
    ArpFrameIsClassified(h, f);
    TypeBytes();
    ArpRequestIsArp(h, f);
    var p := f[14..42];
    var reply := ArpPacket(ARP_REPLY, h.mac, h.ip, p[8..14], Read32(p, 14));
    assert HandleFrame(h, f).sent == h.sent + [EthernetFrame(p[8..14], h.mac, TYPE_ARP, reply)];
    assert EthernetFrame(p[8..14], h.mac, TYPE_ARP, reply)
        == f[22..28] + h.mac + [8, 6] + [0, 1, 8, 0, 6, 4, 0, 2] + h.mac + Big32(h.ip) + f[22..28] + f[28..32];
  }

  lemma ArpRequestIsArp(h: Host, f: seq<byte>)
    requires IsArpRequestForUs(h, f)
    ensures |f| >= 42 && f[12..14] == [8, 6]
  {
  }

  /**
   The answer to an echo request: to its sender, whose MAC the table gives, the same message with type and
   code 0 and fresh checksums; or an ARP request for the sender where the table has none.
   */
  lemma EchoRequestIsAnswered(h: Host, f: seq<byte>, src: uint32)
    requires Sized(h, f) && IsIcmpForUs(h, f, 8) && f[26..30] == Big32(src)
    requires 256 * (f[16] as nat) + f[17] as nat >= 28
    ensures var total := 256 * (f[16] as nat) + f[17] as nat;
            && |HandleFrame(h, f).sent| == |h.sent| + 1 && h.sent < HandleFrame(h, f).sent && 14 + total <= |f|
            && var out := HandleFrame(h, f).sent[|h.sent|];
            match Lookup(h.table, src)
            case None => HandleFrame(h, f) == SendArpRequest(h, src)
            case Some(m) =>
              && |out| == 14 + total && out[..6] == m && out[6..12] == h.mac && out[12..14] == [8, 0]
              && out[14..16] == [0x45, 0] && out[16..18] == f[16..18] && out[23] == 1
              && out[26..30] == Big32(h.ip) && out[30..34] == f[26..30] && RfcChecksum(out[14..34]) == 0
              && out[34] == 0 && out[35] == 0 && out[38..] == f[38..14 + total] && RfcChecksum(out[34..]) == 0
  {
    hide Read32, Read16, EthernetFrame, IpPacket, EchoReply, Checksum, RfcChecksum, Lookup, SendArpRequest;
    IcmpFrameIsClassified(h, f, 8);
    var total := 256 * (f[16] as nat) + f[17] as nat;
    var p := f[14..];
    assert p == f[14..|f|] && f[16..18] == [f[16], f[17]];
    WindowReads32(f, 14, |f|, 12, src);
    WindowReads16(f, 14, |f|, 2, f[16], f[17]);
    assert DataLength(Read16(p, 2)) == total - 20;
    match Lookup(h.table, src)
    case None =>
      ArpRequestBytes(h, src);
    case Some(m) =>
      ReplyBytes(h, m, src, p[20..], total, f[16], f[17]);
      assert p[20..][4..total - 20] == f[38..14 + total];
  }

  lemma ReplyBytes(h: Host, m: Mac, src: uint32, icmp: seq<byte>, total: uint16, hi: byte, lo: byte)
    requires 28 <= total <= 1500 && total - 20 <= |icmp| && total == 256 * (hi as nat) + lo as nat
    ensures var out := EthernetFrame(m, h.mac, TYPE_IP, IpPacket(PROTO_ICMP, h.ip, src, EchoReply(icmp, total - 20)));
            && |out| == 14 + total && out[..6] == m && out[6..12] == h.mac && out[12..14] == [8, 0]
            && out[14..16] == [0x45, 0] && out[16..18] == [hi, lo] && out[23] == 1
            && out[26..30] == Big32(h.ip) && out[30..34] == Big32(src) && RfcChecksum(out[14..34]) == 0
            && out[34] == 0 && out[35] == 0 && out[38..] == icmp[4..total - 20] && RfcChecksum(out[34..]) == 0
  {
    hide EthernetFrame, IpPacket, EchoReply, Checksum, RfcChecksum, Read16, Read32, Big32;
    var r := EchoReply(icmp, total - 20);
    var p := IpPacket(PROTO_ICMP, h.ip, src, r);
    var out := EthernetFrame(m, h.mac, TYPE_IP, p);
    EchoReplyFields(icmp, total - 20);
    IpFields(PROTO_ICMP, h.ip, src, r);
    FrameFields(m, h.mac, TYPE_IP, p);
    Reads16(out, 12, 8, 0);
    Reads16(p, 2, hi, lo);
    Reads32(p, 12, h.ip);
    Reads32(p, 16, src);
    assert forall i :: 0 <= i < |p| ==> out[14 + i] == out[14..][i];
    assert forall i :: 0 <= i < |r| ==> p[20 + i] == p[20..][i];
    assert out[14..34] == p[..20] && out[34..] == r && out[38..] == r[4..];
    assert out[26..30] == p[12..16] && out[30..34] == p[16..20] && out[16..18] == p[2..4];
  }

  /** So no traffic can make a host send more frames than it receives. */
  lemma {:induction false} NoMoreAnswersThanFrames(h: Host, fs: seq<seq<byte>>)
    requires AllSized(h, fs)
    ensures SentAtMost(h, HandleAll(h, fs), |fs|)
    decreases |fs|
  {
    hide HandleFrame, Sized;
    if fs != [] {
      FrameIsAnsweredOnce(h, fs[0]);
      NoMoreAnswersThanFrames(HandleFrame(h, fs[0]), fs[1..]);
    }
  }
}
