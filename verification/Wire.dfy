/** The responder as a peer sees it: which frames it takes and which bytes it sends back,
    in the numbers and offsets of the standards. What is said of a frame and its reply is
    said of their bytes, not through the codecs, their named constants or the automaton. */
module Wire {
  import opened Types
  import opened Decoder
  import opened Responder
  import opened Replies
  import opened Runs
  import Checksum
  import Ethernet
  import Arp
  import Ipv4
  import Icmp
  import Tcp

  // ---- The frames that are taken ----

  function HeaderLen(f: Bytes): nat
    requires |f| >= 15
  {
    f[14] % 0x10 * 4
  }

  /** An IPv4 datagram in an Ethernet frame: options, fragments, any TTL and padding allowed. */
  predicate IsDatagram(f: Bytes) {
    && |f| >= 34 && f[12] == 0x08 && f[13] == 0x00 && f[14] / 0x10 == 4
    && 20 <= HeaderLen(f) <= Rd16(f, 16) <= |f| - 14
    && Checksum.WordSum(f[14..14 + HeaderLen(f)]) % 0xFFFF == 0
  }

  function Body(f: Bytes): Bytes
    requires IsDatagram(f)
  {
    f[14 + HeaderLen(f)..14 + Rd16(f, 16) as int]
  }

  predicate IsArp(f: Bytes) {
    |f| >= 42 && f[12] == 0x08 && f[13] == 0x06 && f[18] == 6 && f[19] == 4
  }

  /** An ICMP message of any type whose words, not all zero, sum to zero. */
  predicate IsMessage(f: Bytes) {
    && IsDatagram(f) && f[23] == 1 && |Body(f)| >= 8
    && Checksum.WordSum(Body(f)) > 0 && Checksum.WordSum(Body(f)) % 0xFFFF == 0
  }

  function DataOffset(body: Bytes): nat
    requires |body| >= 20
  {
    body[12] / 0x10 * 4
  }

  /** A TCP segment, options allowed, whose words with the two addresses, the protocol number
      and the length sum to zero. */
  predicate IsSegment(f: Bytes) {
    && IsDatagram(f) && f[23] == 6 && |Body(f)| >= 20
    && 20 <= DataOffset(Body(f)) <= |Body(f)|
    && (Checksum.WordSum(f[26..34]) + 6 + |Body(f)| + Checksum.WordSum(Body(f))) % 0xFFFF == 0
  }

  /** The fields of the IPv4 header, each at its offset. */
  predicate ReadsIp(f: Bytes, ip: Ipv4.Header)
    requires IsDatagram(f)
  {
    ip == Ipv4.Header(4, HeaderLen(f), f[15], Rd16(f, 16), Rd16(f, 18), Rd16(f, 20), f[22], f[23], Rd16(f, 24),
                      Rd32(f, 26), Rd32(f, 30), Body(f))
  }

  predicate ReadsTcp(b: Bytes, tcp: Tcp.Header)
    requires |b| >= 20 && DataOffset(b) <= |b|
  {
    tcp == Tcp.Header(Rd16(b, 0), Rd16(b, 2), Rd32(b, 4), Rd32(b, 8), DataOffset(b), b[13] % 0x40, Rd16(b, 14),
                      Rd16(b, 16), Rd16(b, 18), b[DataOffset(b)..])
  }

  lemma ReadTail16(f: Bytes, n: nat, i: nat)
    requires n + i + 2 <= |f|
    ensures Rd16(f[n..], i) == Rd16(f, n + i)
  {
  }

  lemma ReadTail32(f: Bytes, n: nat, i: nat)
    requires n + i + 4 <= |f|
    ensures Rd32(f[n..], i) == Rd32(f, n + i)
  {
  }

  lemma HeaderSumPositive(header: Bytes)
    requires |header| > 0 && header[0] > 0
    ensures Checksum.WordSum(header) > 0
  {
    Checksum.WordSumZero(header);
  }

  /** The IPv4 layer of the chain passes exactly the datagrams. */
  lemma DatagramIff(f: Bytes)
    requires |f| >= 14 && f[12] == 0x08 && f[13] == 0x00
    ensures var ip := Ipv4.Parse(f[14..]);
            && (ip.Some? ==> ip.value.ihl <= |f[14..]|)
            && (ip.Some? && Ipv4.ChecksumValid(f[14..], ip.value.ihl) <==> IsDatagram(f))
            && (IsDatagram(f) ==> ReadsIp(f, ip.value))
  {
    hide Checksum.WordSum, Checksum.Accum, Rd16, Rd32;
    var data := f[14..];
    if |f| >= 34 {
      ReadTail16(f, 14, 2);
      ReadTail16(f, 14, 4);
      ReadTail16(f, 14, 6);
      ReadTail16(f, 14, 10);
      ReadTail32(f, 14, 12);
      ReadTail32(f, 14, 16);
      var ihl := HeaderLen(f);
      if 20 <= ihl <= Rd16(f, 16) <= |f| - 14 && f[14] / 0x10 == 4 {
        SliceOfTail(f, 14, 0, ihl);
        SliceOfTail(f, 14, ihl, Rd16(f, 16));
        var header := f[14..14 + ihl];
        assert data[..ihl] == header;
        HeaderSumPositive(header);
        Checksum.PacketFits(header, 0);
        Checksum.ValidatesIff(header, 0);
      }
    }
  }

  lemma AddressWords(f: Bytes)
    requires |f| >= 34
    ensures Checksum.WordSum(f[26..34]) == Tcp.Halves(Rd32(f, 26)) + Tcp.Halves(Rd32(f, 30))
  {
    hide Checksum.WordSum, Rd32;
    assert f[26..34] == f[26..30] + f[30..34];
    WriteRead32(f, 26);
    WriteRead32(f, 30);
    Checksum.WordSum32(Rd32(f, 26));
    Checksum.WordSum32(Rd32(f, 30));
    Checksum.WordSumAppend(f[26..30], f[30..34]);
  }

  lemma SegmentIff(f: Bytes)
    requires IsDatagram(f) && f[23] == 6
    ensures var tcp := Tcp.Parse(Body(f));
            && (tcp.Some? && Tcp.ChecksumValid(Rd32(f, 26), Rd32(f, 30), Body(f)) <==> IsSegment(f))
            && (IsSegment(f) ==> ReadsTcp(Body(f), tcp.value))
  {
    hide Checksum.WordSum, Checksum.Accum, Rd16, Rd32, IsDatagram;
    var b := Body(f);
    if |b| >= 20 {
      BodyLength(f);
      AddressWords(f);
      var seed := Tcp.Seed(Rd32(f, 26), Rd32(f, 30), |b|);
      Checksum.PacketFits(b, seed);
      Checksum.ValidatesIff(b, seed);
    }
  }

  lemma BodyLength(f: Bytes)
    requires IsDatagram(f)
    ensures |f| >= 34 && |Body(f)| == Rd16(f, 16) - HeaderLen(f) <= 0xFFFF
  {
  }

  lemma MessageIff(f: Bytes)
    requires IsDatagram(f) && f[23] == 1
    ensures Icmp.Parse(Body(f)).Some? <==> IsMessage(f)
  {
    hide Checksum.WordSum, Checksum.Accum, IsDatagram;
    BodyLength(f);
    var b := Body(f);
    Checksum.PacketFits(b, 0);
    Checksum.ValidatesIff(b, 0);
  }

  lemma EthernetReads(f: Bytes)
    requires |f| >= 14
    ensures Ethernet.Parse(f) == Some(Ethernet.Frame(f[..6], f[6..12], Rd16(f, 12), f[14..]))
    ensures Rd16(f, 12) == 0x0800 <==> f[12] == 0x08 && f[13] == 0x00
    ensures Rd16(f, 12) == 0x0806 <==> f[12] == 0x08 && f[13] == 0x06
  {
  }

  /** Completeness of the chain: a frame is taken as a segment, as an ICMP message or as an
      ARP packet if and only if its bytes are those of one, and every field is read from
      its place. */
  lemma TakenIff(f: Bytes)
    ensures Decode(f).Some? <==> IsArp(f) || IsMessage(f) || IsSegment(f)
    ensures Decode(f).Some? ==>
              && Decode(f).value.dst == f[..6] && Decode(f).value.src == f[6..12]
              && match Decode(f).value
                 case ArpPacket(_, _, arp) =>
                   && IsArp(f)
                   && arp == Arp.Packet(Rd16(f, 14), Rd16(f, 16), 6, 4, Rd16(f, 20), f[22..28], Rd32(f, 28), f[32..38], Rd32(f, 38))
                 case EchoPacket(_, _, ip, echo) =>
                   && IsMessage(f) && ReadsIp(f, ip)
                   && var b := Body(f); echo == Icmp.Echo(b[0], b[1], Rd16(b, 2), Rd16(b, 4), Rd16(b, 6), b[8..])
                 case TcpPacket(_, _, ip, tcp) => IsSegment(f) && ReadsIp(f, ip) && ReadsTcp(Body(f), tcp)
  {
    hide Checksum.WordSum, Checksum.Accum, Rd16, Rd32, Ipv4.Parse, Ipv4.ChecksumValid, Tcp.Parse, Tcp.ChecksumValid;
    if |f| >= 14 {
      EthernetReads(f);
      if f[12] == 0x08 && f[13] == 0x00 {
        TakenDatagramIff(f);
      } else if f[12] == 0x08 && f[13] == 0x06 {
        TakenArpIff(f);
      }
    }
  }

  lemma TakenArpIff(f: Bytes)
    requires |f| >= 14
    ensures var arp := Arp.Parse(f[14..]);
            && (arp.Some? <==> |f| >= 42 && f[18] == 6 && f[19] == 4)
            && (arp.Some? ==>
                  arp.value == Arp.Packet(Rd16(f, 14), Rd16(f, 16), 6, 4, Rd16(f, 20), f[22..28], Rd32(f, 28), f[32..38], Rd32(f, 38)))
  {
    hide Rd16, Rd32;
    if |f| >= 42 {
      ReadTail16(f, 14, 0);
      ReadTail16(f, 14, 2);
      ReadTail16(f, 14, 6);
      ReadTail32(f, 14, 14);
      ReadTail32(f, 14, 24);
      SliceOfTail(f, 14, 8, 14);
      SliceOfTail(f, 14, 18, 24);
    }
  }

  lemma TakenDatagramIff(f: Bytes)
    requires |f| >= 14 && f[12] == 0x08 && f[13] == 0x00
    ensures var p := DecodeIpv4(Ethernet.Frame(f[..6], f[6..12], 0x0800, f[14..]));
            && (p.Some? <==> IsMessage(f) || IsSegment(f))
            && (p.Some? ==>
                  && p.value.dst == f[..6] && p.value.src == f[6..12]
                  && match p.value
                     case ArpPacket(_, _, _) => false
                     case EchoPacket(_, _, ip, echo) =>
                       && IsMessage(f) && ReadsIp(f, ip)
                       && var b := Body(f); echo == Icmp.Echo(b[0], b[1], Rd16(b, 2), Rd16(b, 4), Rd16(b, 6), b[8..])
                     case TcpPacket(_, _, ip, tcp) => IsSegment(f) && ReadsIp(f, ip) && ReadsTcp(Body(f), tcp))
  {
    hide Checksum.WordSum, Checksum.Accum, Rd16, Rd32, Ipv4.Parse, Ipv4.ChecksumValid, Tcp.Parse, Tcp.ChecksumValid, ReadsTcp;
    DatagramIff(f);
    if IsDatagram(f) {
      if f[23] == 6 {
        SegmentIff(f);
      } else if f[23] == 1 {
        MessageIff(f);
      }
    }
  }

  // ---- The frames that are answered ----

  predicate IsFor(mac: Mac, f: Bytes) {
    |f| >= 6 && (f[..6] == mac || f[..6] == [0xFF, 0xFF, 0xFF, 0xFF, 0xFF, 0xFF])
  }

  function Data(b: Bytes): Bytes
    requires |b| >= 20 && DataOffset(b) <= |b|
  {
    b[DataOffset(b)..]
  }

  /** A frame is answered if and only if it is addressed to the stack or to all, the buffer has
      room, and it is an ARP request or a ping for the stack's own IPv4 address, a segment for
      a closed port, a SYN for the listening port, or a FIN or data for an open connection. */
  lemma AnsweredIff(s: State, f: Bytes, cap: nat)
    ensures Step(s, f, cap).reply != []
            <==> && IsFor(s.mac, f)
                 && ((IsArp(f) && Rd16(f, 20) == 1 && Rd32(f, 38) == s.ip && cap >= 42)
                     || (IsMessage(f) && Body(f)[0] == 8 && Rd32(f, 30) == s.ip && cap >= 34 + |Body(f)|)
                     || (IsSegment(f) &&
                         var b := Body(f);
                         if Rd16(b, 2) != s.conn.localPort then cap >= 54
                         else if s.conn.state == Listen then b[13] / 0x02 % 2 == 1 && cap >= 54
                         else && s.conn.state == Established
                              && if b[13] % 2 == 1 then cap >= 54 else Data(b) != [] && cap >= 54 + |Data(b)|))
  {
    hide Step, Decode, IsDatagram, Rd16, Rd32, Checksum.WordSum;
    TakenIff(f);
    RepliesExactlyWhenWanted(s, f, cap);
    KindsAreDistinct(f);
    if Decode(f).Some? && Decode(f).value.TcpPacket? {
      FlagBit(Body(f)[13]);
    }
  }

  lemma KindsAreDistinct(f: Bytes)
    ensures !(IsArp(f) && IsMessage(f)) && !(IsArp(f) && IsSegment(f)) && !(IsMessage(f) && IsSegment(f))
  {
  }

  /** The bits of the flags byte, as RFC 793, section 3.1, places them. */
  lemma FlagBit(flags: uint8)
    ensures Tcp.Has(flags % 0x40, Tcp.FIN) <==> flags % 2 == 1
    ensures Tcp.Has(flags % 0x40, Tcp.SYN) <==> flags / 0x02 % 2 == 1
    ensures Tcp.Has(flags % 0x40, Tcp.ACK) <==> flags / 0x10 % 2 == 1
  {
    var (q, m) := (flags / 0x40, flags % 0x40);
    assert flags == 0x40 * q + m;
    assert flags / 0x02 == 0x20 * q + m / 0x02;
    assert flags / 0x10 == 0x04 * q + m / 0x10;
  }

  // ---- The replies, byte for byte ----

  lemma WordBytes(f: Bytes, i: nat)
    requires i + 2 <= |f|
    ensures Be16(Rd16(f, i)) == f[i..i + 2]
  {
    WriteRead16(f, i);
  }

  /** An ARP reply: who-has answered in full, to the sender named in the request. */
  lemma ArpReplyBytes(s: State, f: Bytes, cap: nat)
    requires Step(s, f, cap).reply != [] && IsArp(f)
    ensures Step(s, f, cap).reply
            == f[22..28] + s.mac + [0x08, 0x06]
               + [0x00, 0x01, 0x08, 0x00, 6, 4, 0x00, 0x02] + s.mac + Be32(s.ip) + f[22..28] + f[28..32]
  {
    hide Decode, IsDatagram, Be32, Rd32, Checksum.WordSum;
    TakenIff(f);
    KindsAreDistinct(f);
    WriteRead32(f, 28);
  }

  /** The IPv4 header of a reply, but for the checksum that `IsDatagram` requires: five words,
      the stack's identification, don't-fragment, TTL 64, from the stack to the requester. */
  predicate RepliesIp(s: State, f: Bytes, r: Bytes, protocol: uint8) {
    && |f| >= 34 && 34 <= |r| <= 0xFFFF + 14
    && r[..14] == f[6..12] + s.mac + [0x08, 0x00]
    && r[14..24] == [0x45, 0x00] + Be16(|r| - 14) + Be16(s.ipId) + [0x40, 0x00, 64, protocol]
    && r[26..34] == Be32(s.ip) + f[26..30]
  }

  lemma TypeBytes()
    ensures Be16(Ethernet.TYPE_IPV4) == [0x08, 0x00]
  {
  }

  lemma FrameReplies(s: State, f: Bytes, protocol: uint8, body: Bytes)
    requires |f| >= 34 && |body| <= 0xFFFF - 20
    ensures var r := Ipv4Frame(f[6..12], s.mac, s.ip, Rd32(f, 26), protocol, s.ipId, body);
            RepliesIp(s, f, r, protocol) && r[34..] == body
  {
    hide Checksum.Accum, Be32, Be16, Rd32, Ipv4.Print;
    TypeBytes();
    var header := Ipv4.Print(s.ip, Rd32(f, 26), protocol, |body|, s.ipId, 64);
    PrintedBytes(s.ip, Rd32(f, 26), protocol, |body|, s.ipId);
    WriteRead32(f, 26);
    var r := Ipv4Frame(f[6..12], s.mac, s.ip, Rd32(f, 26), protocol, s.ipId, body);
    assert r[14..34] == header;
    assert r[14..24] == header[..10] && r[26..34] == header[12..];
  }

  lemma PrintedBytes(src: uint32, dst: uint32, protocol: uint8, len: uint16, id: uint16)
    requires 20 + len <= 0xFFFF
    ensures var h := Ipv4.Print(src, dst, protocol, len, id, 64);
            && h[..10] == [0x45, 0x00] + Be16(20 + len) + Be16(id) + [0x40, 0x00, 64, protocol]
            && h[12..] == Be32(src) + Be32(dst)
  {
    hide Checksum.Accum;
    var blank := Ipv4.Blank(src, dst, protocol, len, id, 64);
    assert blank[..10] == [0x45, 0x00] + Be16(20 + len) + Be16(id) + [0x40, 0x00, 64, protocol];
    assert blank[12..] == Be32(src) + Be32(dst);
  }

  /** A ping's reply: type and code zero, everything behind the checksum as in the request. */
  lemma EchoReplyBytes(s: State, f: Bytes, cap: nat)
    requires Step(s, f, cap).reply != [] && IsMessage(f)
    ensures var r := Step(s, f, cap).reply;
            && RepliesIp(s, f, r, 1) && IsMessage(r)
            && r[34..36] == [0x00, 0x00] && r[38..] == Body(f)[4..]
  {
    hide Step, Decode, Ipv4Frame, IsDatagram, RepliesIp, Icmp.Print, Be16, Be32, Rd16, Rd32, Checksum.WordSum;
    TakenIff(f);
    KindsAreDistinct(f);
    var p := Decode(f).value;
    var (b, r) := (Body(f), Step(s, f, cap).reply);
    BodyLength(f);
    ReplyIsValid(s, f, cap);
    TakenIff(r);
    var message := Icmp.Print(0, p.echo.id, p.echo.seqNo, p.echo.payload);
    EchoFrame(s, f, cap);
    FrameReplies(s, f, 1, message);
    EchoMessageBytes(p.echo.id, p.echo.seqNo, p.echo.payload);
    WordBytes(b, 4);
    WordBytes(b, 6);
    assert r[34..36] == r[34..][..2] && r[38..] == r[34..][4..];
    assert b[4..] == b[4..6] + b[6..8] + b[8..];
  }

  lemma EchoFrame(s: State, f: Bytes, cap: nat)
    requires Step(s, f, cap).reply != [] && Decode(f).Some? && Decode(f).value.EchoPacket?
    ensures var p := Decode(f).value;
            Step(s, f, cap).reply
            == Ipv4Frame(p.src, s.mac, s.ip, p.ip.src, 1, s.ipId, Icmp.Print(0, p.echo.id, p.echo.seqNo, p.echo.payload))
  {
    hide Decode, Ipv4Frame, Icmp.Print;
  }

  lemma EchoMessageBytes(id: uint16, seqNo: uint16, payload: Bytes)
    ensures var m := Icmp.Print(0, id, seqNo, payload);
            m[..2] == [0x00, 0x00] && m[4..] == Be16(id) + Be16(seqNo) + payload
  {
    hide Checksum.Accum;
    var blank := Icmp.Blank(0, id, seqNo, payload);
    assert blank[..2] == [0x00, 0x00] && blank[4..] == Be16(id) + Be16(seqNo) + payload;
  }

  /** The segment in `r` answers `b` with these numbers, flags and data: ports swapped, five
      words, window 4096, no urgent pointer. */
  predicate RepliesTcp(r: Bytes, b: Bytes, seqNo: uint32, ackNo: uint32, flags: uint8, data: Bytes)
    requires |b| >= 4
  {
    && |r| == 54 + |data| && r[34..38] == b[2..4] + b[0..2]
    && r[38..50] == Be32(seqNo) + Be32(ackNo) + [0x50, flags] + [0x10, 0x00]
    && r[52..] == [0x00, 0x00] + data
  }

  /** A segment's reply carries the numbers, flags and data of the event. A closed port answers RST|ACK with the numbers of
      the request; opening, FIN and data are answered SYN|ACK, FIN|ACK and PSH|ACK from the
      connection's own counter, acknowledging one octet, one octet and the data. */
  lemma SegmentReplyBytes(s: State, f: Bytes, cap: nat)
    requires Step(s, f, cap).reply != [] && IsSegment(f)
    ensures var b, c, r := Body(f), s.conn, Step(s, f, cap).reply;
            var past := (Rd32(b, 4) + 1) % 0x1_0000_0000;
            && RepliesIp(s, f, r, 6) && IsSegment(r)
            && if Rd16(b, 2) != c.localPort then RepliesTcp(r, b, Rd32(b, 8), past, 0x14, [])
               else if c.state == Listen then RepliesTcp(r, b, c.iss, past, 0x12, [])
               else if b[13] % 2 == 1 then RepliesTcp(r, b, c.sndNxt, past, 0x11, [])
               else RepliesTcp(r, b, c.sndNxt, (Rd32(b, 4) + |Data(b)|) % 0x1_0000_0000, 0x18, Data(b))
  {
    hide RepliesTcp, Step, Decode, Ipv4Frame, IsDatagram, RepliesIp, Tcp.Print, Be16, Be32, Rd16, Rd32, Checksum.WordSum, Decide;
    TakenIff(f);
    KindsAreDistinct(f);
    var p := Decode(f).value;
    var (b, r) := (Body(f), Step(s, f, cap).reply);
    BodyLength(f);
    ReplyIsValid(s, f, cap);
    TakenIff(r);
    FlagBit(b[13]);
    RepliesExactlyWhenWanted(s, f, cap);
    DecideSends(s.conn, p.ip.src, p.tcp);
    var send := Decide(s.conn, p.ip.src, p.tcp).1.value;
    var segment := Tcp.Print(s.ip, p.ip.src, p.tcp.dstPort, p.tcp.srcPort, send.seqNo, send.ackNo, send.flags, 4096, send.payload);
    SegmentFrame(s, f, cap);
    FrameReplies(s, f, 6, segment);
    assert r[34..] == segment;
    SegmentBytes(s.ip, p.ip.src, b, send, r);
  }

  lemma SegmentFrame(s: State, f: Bytes, cap: nat)
    requires Step(s, f, cap).reply != [] && Decode(f).Some? && Decode(f).value.TcpPacket?
    ensures var p := Decode(f).value;
            var send := Decide(s.conn, p.ip.src, p.tcp).1;
            && send.Some?
            && Step(s, f, cap).reply
               == Ipv4Frame(p.src, s.mac, s.ip, p.ip.src, 6, s.ipId,
                            Tcp.Print(s.ip, p.ip.src, p.tcp.dstPort, p.tcp.srcPort, send.value.seqNo, send.value.ackNo,
                                      send.value.flags, 4096, send.value.payload))
  {
    hide Decode, Ipv4Frame, Tcp.Print, Decide;
  }

  lemma SegmentBytes(srcIp: uint32, dstIp: uint32, b: Bytes, send: Send, r: Bytes)
    requires |b| >= 20 && |r| >= 34
    requires r[34..] == Tcp.Print(srcIp, dstIp, Rd16(b, 2), Rd16(b, 0), send.seqNo, send.ackNo, send.flags, 4096, send.payload)
    ensures RepliesTcp(r, b, send.seqNo, send.ackNo, send.flags, send.payload)
  {
    hide Checksum.Accum, Be32, Rd16;
    var blank := Tcp.Blank(Rd16(b, 2), Rd16(b, 0), send.seqNo, send.ackNo, send.flags, 4096, send.payload);
    WordBytes(b, 0);
    WordBytes(b, 2);
    assert blank[..4] == b[2..4] + b[0..2];
    assert blank[4..16] == Be32(send.seqNo) + Be32(send.ackNo) + [0x50, send.flags] + [0x10, 0x00];
    assert blank[18..] == [0x00, 0x00] + send.payload;
    assert r[34..38] == r[34..][..4] && r[38..50] == r[34..][4..16] && r[52..] == r[34..][18..];
  }

  lemma DecideSends(c: Conn, srcIp: uint32, tcp: Tcp.Header)
    requires |tcp.payload| <= 0xFFFF
    ensures var send := Decide(c, srcIp, tcp).1;
            send.Some? ==>
              send.value == if tcp.dstPort != c.localPort then Send(tcp.ackNo, (tcp.seqNo + 1) % 0x1_0000_0000, 0x14, [])
                            else if c.state == Listen then Send(c.iss, (tcp.seqNo + 1) % 0x1_0000_0000, 0x12, [])
                            else if Tcp.Has(tcp.flags, Tcp.FIN) then Send(c.sndNxt, (tcp.seqNo + 1) % 0x1_0000_0000, 0x11, [])
                            else Send(c.sndNxt, (tcp.seqNo + |tcp.payload|) % 0x1_0000_0000, 0x18, tcp.payload)
  {
  }

  // ---- What a frame does to the connection ----

  /** The whole new connection, from the bytes of the frame. Only a segment for the listening
      port, addressed to the stack or to all, moves it. */
  lemma ConnectionAfter(s: State, f: Bytes, cap: nat)
    ensures var c, next := s.conn, Step(s, f, cap).state.conn;
            if !(IsFor(s.mac, f) && IsSegment(f) && Rd16(Body(f), 2) == c.localPort) then next == c
            else
              var b := Body(f);
              var past, flags, data := (Rd32(b, 4) + 1) % 0x1_0000_0000, b[13], Data(b);
              match c.state
              case Listen =>
                next == if flags / 0x02 % 2 == 1
                        then c.(state := SynReceived, remoteIp := Rd32(f, 26), remotePort := Rd16(b, 0),
                                rcvNxt := past, sndNxt := (c.iss + 1) % 0x1_0000_0000)
                        else c
              case SynReceived => next == if flags / 0x10 % 2 == 1 then c.(state := Established) else c
              case Established =>
                next == if flags % 2 == 1 then c.(state := LastAck, rcvNxt := past)
                        else if data == [] then c
                        else c.(rcvNxt := (Rd32(b, 4) + |data|) % 0x1_0000_0000,
                                sndNxt := (c.sndNxt + |data|) % 0x1_0000_0000,
                                bytesReceived := (c.bytesReceived + |data|) % 0x1_0000_0000_0000_0000)
              case LastAck => next == if flags / 0x10 % 2 == 1 then c.(state := Closed) else c
              case _ => next == c
  {
    hide Step, Decode, Decide, IsDatagram, Rd16, Rd32, Checksum.WordSum, Tcp.Has;
    TakenIff(f);
    KindsAreDistinct(f);
    StepOnConnection(s, f, cap);
    if IsSegment(f) && Rd16(Body(f), 2) == s.conn.localPort {
      BodyLength(f);
      FlagBit(Body(f)[13]);
      DecideMoves(s.conn, Rd32(f, 26), Decode(f).value.tcp);
    }
  }

  lemma DecideMoves(c: Conn, srcIp: uint32, tcp: Tcp.Header)
    requires tcp.dstPort == c.localPort && |tcp.payload| <= 0xFFFF
    ensures var past, n := (tcp.seqNo + 1) % 0x1_0000_0000, |tcp.payload|;
            Decide(c, srcIp, tcp).0
            == match c.state
               case Listen =>
                 if Tcp.Has(tcp.flags, Tcp.SYN)
                 then c.(state := SynReceived, remoteIp := srcIp, remotePort := tcp.srcPort,
                         rcvNxt := past, sndNxt := (c.iss + 1) % 0x1_0000_0000)
                 else c
               case SynReceived => if Tcp.Has(tcp.flags, Tcp.ACK) then c.(state := Established) else c
               case Established =>
                 if Tcp.Has(tcp.flags, Tcp.FIN) then c.(state := LastAck, rcvNxt := past)
                 else if n == 0 then c
                 else c.(rcvNxt := (tcp.seqNo + n) % 0x1_0000_0000, sndNxt := (c.sndNxt + n) % 0x1_0000_0000,
                         bytesReceived := (c.bytesReceived + n) % 0x1_0000_0000_0000_0000)
               case LastAck => if Tcp.Has(tcp.flags, Tcp.ACK) then c.(state := Closed) else c
               case _ => c
  {
    hide Tcp.Has;
  }
}
