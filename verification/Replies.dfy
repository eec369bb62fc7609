/** Properties of a single reply: it is a valid frame that says what the automaton
    chose, it fits wherever the request fitted, and it does not start a new exchange,
    except for the reset. */
module Replies {
  import opened Types
  import opened Decoder
  import opened Responder
  import Checksum
  import Ethernet
  import Arp
  import Ipv4
  import Icmp
  import Tcp

  /** The packet is one the stack answers, judged by its fields alone. */
  predicate Wants(s: State, p: Packet) {
    Addressed(s.mac, p.dst) &&
    match p
    case ArpPacket(_, _, arp) => arp.opcode == 1 && arp.targetIp == s.ip
    case EchoPacket(_, _, ip, echo) => echo.kind == 8 && ip.dst == s.ip
    case TcpPacket(_, _, _, tcp) =>
      || tcp.dstPort != s.conn.localPort
      || (s.conn.state == Listen && Tcp.Has(tcp.flags, Tcp.SYN))
      || (s.conn.state == Established && (Tcp.Has(tcp.flags, Tcp.FIN) || tcp.payload != []))
  }

  /** The IPv4 header of every reply: five words, no fragments, TTL 64, the stack's own address
      and current identification, and the requester's address. */
  predicate AnswersIp(s: State, request: Ipv4.Header, answer: Ipv4.Header) {
    && answer.version == 4 && answer.ihl == 20 && answer.dscpEcn == 0
    && answer.totalLen == 20 + |answer.payload| && answer.flagsFrag == 0x4000 && answer.ttl == 64 && answer.protocol == request.protocol
    && answer.id == s.ipId && answer.src == s.ip && answer.dst == request.src
  }

  /** `answer` is what a receiver must read in the reply to `p`. */
  predicate Answers(s: State, p: Packet, answer: Packet) {
    match p
    case ArpPacket(_, _, req) =>
      && answer.ArpPacket? && answer.dst == req.senderMac && answer.src == s.mac
      && answer.arp.hwType == 1 && answer.arp.protoType == 0x0800 && answer.arp.opcode == 2
      && answer.arp.senderMac == s.mac && answer.arp.senderIp == s.ip
      && answer.arp.targetMac == req.senderMac && answer.arp.targetIp == req.senderIp
    case EchoPacket(_, from, ip, echo) =>
      && answer.EchoPacket? && answer.dst == from && answer.src == s.mac
      && AnswersIp(s, ip, answer.ip)
      && answer.echo.kind == 0 && answer.echo.code == 0
      && answer.echo.id == echo.id && answer.echo.seqNo == echo.seqNo && answer.echo.payload == echo.payload
    case TcpPacket(_, from, ip, tcp) =>
      && answer.TcpPacket? && answer.dst == from && answer.src == s.mac
      && AnswersIp(s, ip, answer.ip)
      && answer.tcp.srcPort == tcp.dstPort && answer.tcp.dstPort == tcp.srcPort
      && answer.tcp.dataOffset == 20 && answer.tcp.window == 4096 && answer.tcp.urgent == 0
      && Decide(s.conn, ip.src, tcp).1
         == Some(Send(answer.tcp.seqNo, answer.tcp.ackNo, answer.tcp.flags, answer.tcp.payload))
  }

  /** Sizes on every reachable path: no 16-bit cast of a length truncates, and each
      reply is no longer than the headers and payload that were received. */
  lemma PayloadBounds(frame: Bytes)
    requires Decode(frame).Some?
    ensures match Decode(frame).value
            case ArpPacket(_, _, _) => |frame| >= 42
            case EchoPacket(_, _, _, echo) => |echo.payload| <= 0xFFFF - 28 && |frame| >= 42 + |echo.payload|
            case TcpPacket(_, _, _, tcp) => |tcp.payload| <= 0xFFFF - 40 && |frame| >= 54 + |tcp.payload|
  {
    match Decode(frame).value
    case ArpPacket(_, _, _) =>
    case EchoPacket(_, _, _, _) => EchoPayloadSlice(frame);
    case TcpPacket(_, _, _, _) => TcpPayloadSlice(frame);
  }

  lemma DecideSend(c: Conn, srcIp: uint32, tcp: Tcp.Header)
    ensures var send := Decide(c, srcIp, tcp).1;
            send.Some? ==> send.value.flags < 0x40 && |send.value.payload| <= |tcp.payload|
  {
  }

  /** The frame that gcs_stack_emit_tcp builds decodes to what it was asked to send. */
  lemma EmittedDecodes(s: State, to: Mac, ip: Ipv4.Header, tcp: Tcp.Header, send: Send, cap: nat)
    requires send.flags < 0x40 && |send.payload| <= 0xFFFF - 40 && cap >= 54 + |send.payload|
    ensures var answer := Decode(EmitTcp(s, to, ip, tcp, send, cap).reply);
            && answer.Some? && answer.value.TcpPacket?
            && answer.value.dst == to && answer.value.src == s.mac
            && AnswersIp(s, ip.(protocol := Ipv4.PROTO_TCP), answer.value.ip)
            && answer.value.tcp.srcPort == tcp.dstPort && answer.value.tcp.dstPort == tcp.srcPort
            && answer.value.tcp.dataOffset == Tcp.MIN_HEADER_LEN && answer.value.tcp.window == WINDOW && answer.value.tcp.urgent == 0
            && Send(answer.value.tcp.seqNo, answer.value.tcp.ackNo, answer.value.tcp.flags, answer.value.tcp.payload) == send
  {
    hide Decode, Ipv4Frame, Tcp.Print;
    DecodeSentTcp(to, s.mac, s.ip, ip.src, s.ipId, tcp.dstPort, tcp.srcPort, send.seqNo, send.ackNo,
                  send.flags, WINDOW, send.payload, []);
    var reply := EmitTcp(s, to, ip, tcp, send, cap).reply;
    assert reply + [] == reply;
  }

  lemma EchoReplyDecodes(s: State, from: Mac, ip: Ipv4.Header, echo: Icmp.Echo, cap: nat)
    requires |echo.payload| <= 0xFFFF - 28 && HandleEcho(s, from, ip, echo, cap).reply != []
    requires ip.protocol == Ipv4.PROTO_ICMP
    ensures var answer := Decode(HandleEcho(s, from, ip, echo, cap).reply);
            answer.Some? && Answers(s, EchoPacket(s.mac, from, ip, echo), answer.value)
  {
    hide Decode, Ipv4Frame, Icmp.Print;
    DecodeSentEcho(from, s.mac, s.ip, ip.src, s.ipId, Icmp.ECHO_REPLY, echo.id, echo.seqNo, echo.payload, []);
    var reply := HandleEcho(s, from, ip, echo, cap).reply;
    assert reply + [] == reply;
  }

  lemma ArpReplyDecodes(s: State, from: Mac, request: Arp.Packet, cap: nat)
    requires HandleArp(s, request, cap).reply != []
    ensures var answer := Decode(HandleArp(s, request, cap).reply);
            answer.Some? && Answers(s, ArpPacket(s.mac, from, request), answer.value)
  {
    hide Decode, Arp.Print, Ethernet.Header;
    DecodeSentArp(request.senderMac, s.mac, ArpReply(s, request), []);
    var reply := HandleArp(s, request, cap).reply;
    assert reply + [] == reply;
  }

  /** End to end: every reply passes the repository's own parsers and checksum validators
      at every layer and reads as the answer to the packet that was received. */
  lemma ReplyIsValid(s: State, frame: Bytes, cap: nat)
    ensures var p, reply := Decode(frame), Step(s, frame, cap).reply;
            reply != [] ==>
              && p.Some? && Wants(s, p.value)
              && Decode(reply).Some? && Answers(s, p.value, Decode(reply).value)
  {
    hide Decode, Ipv4Frame;
    if Step(s, frame, cap).reply != [] {
      PayloadBounds(frame);
      match Decode(frame).value
      case ArpPacket(_, src, arp) => ArpReplyDecodes(s, src, arp, cap);
      case EchoPacket(_, src, ip, echo) =>
        DecodedProtocol(frame);
        EchoReplyDecodes(s, src, ip, echo, cap);
      case TcpPacket(_, src, ip, tcp) =>
        DecodedProtocol(frame);
        DecideSend(s.conn, ip.src, tcp);
        var (conn, send) := Decide(s.conn, ip.src, tcp);
        EmittedDecodes(s.(conn := conn), src, ip, tcp, send.value, cap);
    }
  }

  /** The length of the answer to a wanted packet: only an echoed segment and a ping carry
      their payload back. */
  function ReplySize(s: State, p: Packet): nat {
    match p
    case ArpPacket(_, _, _) => 42
    case EchoPacket(_, _, _, echo) => 42 + |echo.payload|
    case TcpPacket(_, _, _, tcp) =>
      if tcp.dstPort == s.conn.localPort && s.conn.state == Established && !Tcp.Has(tcp.flags, Tcp.FIN)
      then 54 + |tcp.payload| else 54
  }

  /** A reply is sent exactly when the packet is wanted and the buffer has room for it, and
      a frame of the request's own length is always room enough. */
  lemma RepliesExactlyWhenWanted(s: State, frame: Bytes, cap: nat)
    ensures Step(s, frame, cap).reply != []
            <==> Decode(frame).Some? && Wants(s, Decode(frame).value) && cap >= ReplySize(s, Decode(frame).value)
    ensures Step(s, frame, cap).reply != [] ==> |Step(s, frame, cap).reply| == ReplySize(s, Decode(frame).value)
    ensures Decode(frame).Some? ==> ReplySize(s, Decode(frame).value) <= |frame|
  {
    hide Decode, Ipv4Frame;
    if Decode(frame).Some? {
      PayloadBounds(frame);
      match Decode(frame).value
      case ArpPacket(_, _, _) =>
      case EchoPacket(_, _, _, _) =>
      case TcpPacket(_, _, ip, tcp) => DecideSend(s.conn, ip.src, tcp);
    }
  }

  /** A frame for neither the stack's own nor the broadcast address changes nothing. */
  lemma ForeignFrameIgnored(s: State, frame: Bytes, cap: nat)
    requires |frame| >= 6 && frame[..6] != s.mac && exists i :: 0 <= i < 6 && frame[i] != 0xFF
    ensures Step(s, frame, cap) == Outcome(s, [])
  {
    hide Decode, HandleTcp, HandleEcho, HandleArp;
    if Decode(frame).Some? {
      DecodedAddresses(frame);
      var i :| 0 <= i < 6 && frame[i] != 0xFF;
      assert frame[..6][i] == frame[i] && BROADCAST[i] == 0xFF;
    }
  }

  /** The flags that a receiver reads tell what happened: a reply to a segment always
      acknowledges; it is a reset exactly for a closed port, a SYN exactly for the
      segment that opens the connection, a FIN exactly for the one that closes it, and
      PSH exactly with data. No other flag is ever set. */
  lemma FlagsTellTheEvent(s: State, frame: Bytes, cap: nat)
    ensures var p, reply := Decode(frame), Step(s, frame, cap).reply;
            p.Some? && p.value.TcpPacket? && reply != [] ==>
              && Decode(reply).Some? && Decode(reply).value.TcpPacket?
              && var asked, sent, open := p.value.tcp.flags, Decode(reply).value.tcp, p.value.tcp.dstPort == s.conn.localPort;
                 && Tcp.Has(sent.flags, Tcp.ACK)
                 && (Tcp.Has(sent.flags, Tcp.RST) <==> !open)
                 && (Tcp.Has(sent.flags, Tcp.SYN) <==> open && s.conn.state == Listen)
                 && (Tcp.Has(sent.flags, Tcp.FIN) <==> open && s.conn.state == Established && Tcp.Has(asked, Tcp.FIN))
                 && (Tcp.Has(sent.flags, Tcp.PSH) <==> sent.payload != [])
                 && sent.flags == if !open then 0x14 else if s.conn.state == Listen then 0x12
                                  else if Tcp.Has(asked, Tcp.FIN) then 0x11 else 0x18
  {
    hide Decode, Step, Add32;
    ReplyIsValid(s, frame, cap);
  }

  /** The size of the reply buffer never changes what happens to the connection, and any
      two buffers with room for the request give the same step. */
  lemma CapacityOnlySuppresses(s: State, frame: Bytes, cap: nat, cap': nat)
    ensures Step(s, frame, cap).state.conn == Step(s, frame, cap').state.conn
    ensures cap >= |frame| && cap' >= |frame| ==> Step(s, frame, cap) == Step(s, frame, cap')
    ensures Step(s, frame, cap).reply in {[], Step(s, frame, |frame|).reply}
  {
    hide Decode, Ipv4Frame;
    if Decode(frame).Some? {
      PayloadBounds(frame);
      if Decode(frame).value.TcpPacket? {
        DecideSend(s.conn, Decode(frame).value.ip.src, Decode(frame).value.tcp);
      }
    }
  }

  /** A corrupted packet changes nothing and draws no reply (see CorruptionDetected). */
  lemma CorruptionIgnored(s: State, frame: Bytes, i: nat, b: uint8, cap: nat)
    requires Decode(frame).Some? && !Decode(frame).value.ArpPacket?
    requires 14 <= i < 14 + Decode(frame).value.ip.totalLen as int
    requires i < |frame| && b != frame[i]
    ensures Step(s, frame[i := b], cap) == Outcome(s, [])
  {
    hide Decode;
    CorruptionDetected(frame, i, b);
  }

  /** Bytes behind the IPv4 total length, or behind an ARP packet, never matter. */
  lemma PaddingIgnored(s: State, f: Bytes, g: Bytes, cap: nat)
    requires |f| >= 18
    requires Rd16(f, 12) == Ethernet.TYPE_IPV4 || Rd16(f, 12) == Ethernet.TYPE_ARP
    requires var n := if Rd16(f, 12) == Ethernet.TYPE_ARP then 42
                      else if Rd16(f, 16) < 4 then 18 else 14 + Rd16(f, 16) as int;
             n <= |f| && n <= |g| && f[..n] == g[..n]
    ensures Step(s, f, cap) == Step(s, g, cap)
  {
    hide Decode, HandleDecoded;
    if Rd16(f, 12) == Ethernet.TYPE_IPV4 {
      Ipv4PaddingIgnored(f, g);
    } else {
      ArpPaddingIgnored(f, g);
    }
  }

  /** The ICMP message in the reply to any ping is the request's, byte for byte, but for the
      type, the code, which becomes zero, and the checksum: the new one is the old one plus
      0x0800 and the code modulo 65535, and all ones exactly for the all-zero ping. Only the
      type and the checksum differ exactly if the ping had code 0. */
  lemma PingReplyIsIncremental(s: State, frame: Bytes, cap: nat)
    ensures var p, reply := Decode(frame), Step(s, frame, cap).reply;
            p.Some? && p.value.EchoPacket? && reply != [] ==>
              var request, message, code := p.value.ip.payload, reply[34..], p.value.echo.code;
              && 8 <= |request| == |message|
              && message == Checksum.Store(request[0 := Icmp.ECHO_REPLY][1 := 0], 2, Rd16(message, 2))
              && (message == Checksum.Store(request[0 := Icmp.ECHO_REPLY], 2, Rd16(message, 2)) <==> code == 0)
              && Rd16(message, 2) % 0xFFFF == (Rd16(request, 2) + 0x0800 + code) % 0xFFFF
              && (Rd16(message, 2) == 0xFFFF <==> Icmp.AllZero(p.value.echo))
  {
    hide Decode, DecodeIpv4, DecodeTransport, Icmp.Parse, Icmp.Print, Icmp.AllZero, Ipv4.Parse, Ipv4.ChecksumValid,
         Ethernet.Parse, Ipv4Frame;
    if Decode(frame).Some? && Decode(frame).value.EchoPacket? && Step(s, frame, cap).reply != [] {
      var p := Decode(frame).value;
      DecodedDatagram(frame);
      ParsedBounds(frame[14..]);
      SegmentOf(p);
      EchoParts(p.ip.payload);
      Icmp.ReplyIsIncremental(p.ip.payload);
      MessageOfReply(s, p.src, p.ip, p.echo, cap);
    }
  }

  lemma EchoParts(data: Bytes)
    requires Icmp.Parse(data).Some?
    ensures var e := Icmp.Parse(data).value;
            |data| >= 8 && e.kind == data[0] && e.code == data[1] && e.checksum == Rd16(data, 2)
  {
  }

  lemma MessageOfReply(s: State, from: Mac, ip: Ipv4.Header, echo: Icmp.Echo, cap: nat)
    requires HandleEcho(s, from, ip, echo, cap).reply != []
    ensures HandleEcho(s, from, ip, echo, cap).reply[34..]
            == Icmp.Print(Icmp.ECHO_REPLY, echo.id, echo.seqNo, echo.payload)
  {
  }

  // ---- Two stacks facing each other ----

  /** An ARP or ICMP reply of one stack is ignored by any stack, including itself. */
  lemma RepliesAreQuiescent(s: State, t: State, frame: Bytes, cap: nat, cap': nat)
    ensures var p, reply := Decode(frame), Step(s, frame, cap).reply;
            p.Some? && !p.value.TcpPacket? ==> Step(t, reply, cap') == Outcome(t, [])
  {
    hide Decode;
    DecodeNothing();
    ReplyIsValid(s, frame, cap);
  }

  /** The frame sent for a closed port. */
  lemma ResetFrame(s: State, frame: Bytes, cap: nat)
    requires Decode(frame).Some? && Decode(frame).value.TcpPacket? && cap >= 54
    requires Addressed(s.mac, Decode(frame).value.dst) && Decode(frame).value.tcp.dstPort != s.conn.localPort
    ensures var p, reply := Decode(frame).value, Step(s, frame, cap).reply;
            && |reply| == 54 && Decode(reply).Some? && Decode(reply).value.TcpPacket?
            && var q := Decode(reply).value;
               && q.dst == p.src && q.src == s.mac
               && q.tcp.srcPort == p.tcp.dstPort && q.tcp.dstPort == p.tcp.srcPort
               && q.tcp.flags == 0x14 && q.tcp.payload == []
  {
    hide Decode;
    RepliesExactlyWhenWanted(s, frame, cap);
    ReplyIsValid(s, frame, cap);
  }

  /** Two-stack quiescence for every TCP reply: the second stack answers it exactly if it is
      addressed and has its port closed, or both listen (a SYN|ACK opens the second), or both
      are established (echoed data is echoed again, a FIN is answered by a FIN). */
  lemma TcpReplyIsAnsweredIff(s: State, t: State, frame: Bytes, cap: nat, cap': nat)
    ensures var p, reply := Decode(frame), Step(s, frame, cap).reply;
            p.Some? && p.value.TcpPacket? && reply != [] && cap' >= |reply| ==>
              var tcp := p.value.tcp;
              Step(t, reply, cap').reply != []
              <==> Addressed(t.mac, p.value.src)
                   && (tcp.srcPort != t.conn.localPort
                       || (tcp.dstPort == s.conn.localPort && s.conn.state == t.conn.state
                           && s.conn.state in {Listen, Established}))
  {
    hide Decode, Step, ReplySize, Tcp.Has, Add32;
    var p, reply := Decode(frame), Step(s, frame, cap).reply;
    if p.Some? && p.value.TcpPacket? && reply != [] {
      ReplyIsValid(s, frame, cap);
      FlagsTellTheEvent(s, frame, cap);
      RepliesExactlyWhenWanted(t, reply, cap');
    }
  }

  /** For the reset of a closed port this says: it is left unanswered exactly when the other
      stack is not the addressee or listens on the port that the reset goes to. */
  lemma ResetIsAnsweredIff(s: State, t: State, frame: Bytes, cap: nat, cap': nat)
    requires cap >= 54 && cap' >= 54
    ensures var p := Decode(frame);
            p.Some? && p.value.TcpPacket? && Addressed(s.mac, p.value.dst) && p.value.tcp.dstPort != s.conn.localPort ==>
              (Step(t, Step(s, frame, cap).reply, cap').reply == []
               <==> !Addressed(t.mac, p.value.src) || p.value.tcp.srcPort == t.conn.localPort)
  {
    hide Decode, Step;
    var p := Decode(frame);
    if p.Some? && p.value.TcpPacket? && Addressed(s.mac, p.value.dst) && p.value.tcp.dstPort != s.conn.localPort {
      ResetFrame(s, frame, cap);
      TcpReplyIsAnsweredIff(s, t, frame, cap, cap');
    }
  }

  /** The n-th frame on the wire when `frame` is delivered to `a` and every reply to the
      other side. */
  function Volley(a: State, b: State, frame: Bytes, cap: nat, n: nat): Bytes
    decreases n
  {
    if n == 0 then frame
    else
      var o := Step(a, frame, cap);
      Volley(b, o.state, o.reply, cap, n - 1)
  }

  /** A segment that `a` accepts and the reply to which goes to `b`. */
  predicate Between(a: State, b: State, frame: Bytes) {
    && Decode(frame).Some? && Decode(frame).value.TcpPacket?
    && Addressed(a.mac, Decode(frame).value.dst) && Addressed(b.mac, Decode(frame).value.src)
  }

  /** The segment is for a port that `a` does not serve, from one that `b` does not. */
  predicate Stray(a: State, b: State, frame: Bytes) {
    && Between(a, b, frame)
    && var p := Decode(frame).value;
       && p.tcp.dstPort != a.conn.localPort && p.tcp.srcPort != b.conn.localPort
  }

  /** Between two stacks, one stray segment sets off resets without end: every later
      frame is a reset, whichever side it comes from. The two numbers of the segment take
      turns as sequence number and acknowledgment, and each acknowledgment adds one. */
  lemma {:induction false} ResetVolleyNeverEnds(a: State, b: State, frame: Bytes, cap: nat, n: nat)
    requires Stray(a, b, frame) && cap >= 54 && n > 0
    ensures var (tcp, k) := (Decode(frame).value.tcp, n / 2);
            if n % 2 == 1 then IsReset(Volley(a, b, frame, cap, n), Add32(tcp.ackNo, k), Add32(tcp.seqNo, k + 1))
            else IsReset(Volley(a, b, frame, cap, n), Add32(tcp.seqNo, k), Add32(tcp.ackNo, k))
    decreases n
  {
    hide Step, Decode, Add32;
    var next, reply := StrayIsAnswered(a, b, frame, cap);
    var tcp := Decode(frame).value.tcp;
    assert Volley(a, b, frame, cap, n) == Volley(b, next, reply, cap, n - 1);
    Add32Zero(tcp.ackNo);
    if n > 1 {
      ResetVolleyNeverEnds(b, next, reply, cap, n - 1);
      Add32Assoc(tcp.seqNo, 1, (n - 1) / 2);
    }
  }

  /** A segment without data, with RST|ACK and these numbers. */
  predicate IsReset(frame: Bytes, seqNo: uint32, ackNo: uint32) {
    && Decode(frame).Some? && Decode(frame).value.TcpPacket?
    && var tcp := Decode(frame).value.tcp;
       tcp.flags == 0x14 && tcp.payload == [] && tcp.seqNo == seqNo && tcp.ackNo == ackNo
  }

  /** The numbers of the reset: those of the segment, exchanged, and one octet acknowledged,
      whatever the segment carries. */
  lemma ResetNumbers(s: State, frame: Bytes, cap: nat)
    ensures var p, reply := Decode(frame), Step(s, frame, cap).reply;
            p.Some? && p.value.TcpPacket? && p.value.tcp.dstPort != s.conn.localPort && reply != [] ==>
              IsReset(reply, p.value.tcp.ackNo, (p.value.tcp.seqNo + 1) % 0x1_0000_0000)
  {
    hide Decode, Step;
    ReplyIsValid(s, frame, cap);
  }

  lemma StrayIsAnswered(a: State, b: State, frame: Bytes, cap: nat) returns (next: State, reply: Bytes)
    requires Stray(a, b, frame) && cap >= 54
    ensures Step(a, frame, cap) == Outcome(next, reply)
    ensures Stray(b, next, reply)
    ensures var tcp := Decode(frame).value.tcp; IsReset(reply, tcp.ackNo, Add32(tcp.seqNo, 1))
  {
    hide Decode;
    var p := Decode(frame).value;
    var o := HandleTcp(a, p.src, p.ip, p.tcp, cap);
    assert Step(a, frame, cap) == o;
    ResetFrame(a, frame, cap);
    ResetNumbers(a, frame, cap);
    next, reply := o.state, o.reply;
  }

  /** Data without FIN from the port of one established stack to that of the other. */
  predicate Echoing(a: State, b: State, frame: Bytes, data: Bytes) {
    && a.conn.state == Established && b.conn.state == Established
    && Between(a, b, frame)
    && var p := Decode(frame).value;
       && p.tcp.dstPort == a.conn.localPort && p.tcp.srcPort == b.conn.localPort
       && !Tcp.Has(p.tcp.flags, Tcp.FIN) && p.tcp.payload == data != []
  }

  predicate Carries(frame: Bytes, data: Bytes) {
    Decode(frame).Some? && Decode(frame).value.TcpPacket? && Decode(frame).value.tcp.payload == data
  }

  /** Two established stacks echo the same data to each other without end. */
  lemma {:induction false} EchoVolleyNeverEnds(a: State, b: State, frame: Bytes, data: Bytes, cap: nat, n: nat)
    requires Echoing(a, b, frame, data) && cap >= 54 + |data|
    ensures Carries(Volley(a, b, frame, cap, n), data)
    decreases n
  {
    hide Step, Decode, Tcp.Has;
    if n > 0 {
      var next, reply := EchoIsEchoed(a, b, frame, data, cap);
      EchoVolleyNeverEnds(b, next, reply, data, cap, n - 1);
    }
  }

  lemma EchoIsEchoed(a: State, b: State, frame: Bytes, data: Bytes, cap: nat) returns (next: State, reply: Bytes)
    requires Echoing(a, b, frame, data) && cap >= 54 + |data|
    ensures Step(a, frame, cap) == Outcome(next, reply)
    ensures Echoing(b, next, reply, data)
  {
    hide Decode, Ipv4Frame, Tcp.Print, Add32, Tcp.Has;
    var p := Decode(frame).value;
    var o := HandleTcp(a, p.src, p.ip, p.tcp, cap);
    assert Step(a, frame, cap) == o;
    RepliesExactlyWhenWanted(a, frame, cap);
    ReplyIsValid(a, frame, cap);
    FlagsTellTheEvent(a, frame, cap);
    next, reply := o.state, o.reply;
  }

  /** The segment that starts an endless exchange. */
  predicate Endless(a: State, b: State, frame: Bytes) {
    Stray(a, b, frame) || (Between(a, b, frame) && Echoing(a, b, frame, Decode(frame).value.tcp.payload))
  }

  /** The exact condition: whatever two stacks and whatever frame, the exchange either falls
      silent within two replies or never does, and it never does exactly for a stray segment
      and for data between two established ports. */
  lemma ExchangeIsEndlessIff(a: State, b: State, frame: Bytes, cap: nat, n: nat)
    requires cap >= |frame| && n >= 3
    ensures Volley(a, b, frame, cap, n) != [] <==> Endless(a, b, frame)
  {
    hide Step, Decode, Echoing;
    var first := Step(a, frame, cap);
    var second := Step(b, first.reply, cap);
    var third := Step(first.state, second.reply, cap);
    assert Volley(a, b, frame, cap, n) == Volley(b, first.state, first.reply, cap, n - 1)
        == Volley(first.state, second.state, second.reply, cap, n - 2)
        == Volley(second.state, third.state, third.reply, cap, n - 3);
    ThirdReplyIff(a, b, frame, cap);
    DecodeNothing();
    if Endless(a, b, frame) {
      PayloadBounds(frame);
      if Stray(a, b, frame) {
        ResetVolleyNeverEnds(a, b, frame, cap, n);
      } else {
        EchoVolleyNeverEnds(a, b, frame, Decode(frame).value.tcp.payload, cap, n);
      }
    } else {
      SilenceStays(second.state, third.state, cap, n - 3);
    }
  }

  lemma {:induction false} SilenceStays(a: State, b: State, cap: nat, n: nat)
    ensures Volley(a, b, [], cap, n) == []
    decreases n
  {
    hide Decode;
    DecodeNothing();
    if n > 0 {
      SilenceStays(b, a, cap, n - 1);
    }
  }

  lemma ThirdReplyIff(a: State, b: State, frame: Bytes, cap: nat)
    requires cap >= |frame|
    ensures var first := Step(a, frame, cap);
            var second := Step(b, first.reply, cap);
            Step(first.state, second.reply, cap).reply != [] <==> Endless(a, b, frame)
  {
    hide Step, Decode, Tcp.Has;
    var p := Decode(frame);
    var first := Step(a, frame, cap);
    var second := Step(b, first.reply, cap);
    DecodeNothing();
    NothingIsIgnored(b, cap);
    NothingIsIgnored(first.state, cap);
    RepliesExactlyWhenWanted(a, frame, cap);
    if first.reply != [] {
      ReplyIsValid(a, frame, cap);
      if p.value.TcpPacket? {
        RepliesExactlyWhenWanted(b, first.reply, cap);
        TcpReplyIsAnsweredIff(a, b, frame, cap, cap);
        TcpReplyIsAnsweredIff(b, first.state, first.reply, cap, cap);
        StateAfter(a, frame, cap);
      } else {
        RepliesAreQuiescent(a, b, frame, cap, cap);
      }
    }
  }

  lemma NothingIsIgnored(s: State, cap: nat)
    ensures Step(s, [], cap) == Outcome(s, [])
  {
    hide Decode;
    DecodeNothing();
  }

  /** A segment for the listening port that was answered has moved the connection on, unless
      it was data for an established one. */
  lemma StateAfter(s: State, frame: Bytes, cap: nat)
    requires Decode(frame).Some? && Decode(frame).value.TcpPacket? && Step(s, frame, cap).reply != []
    ensures var tcp, next := Decode(frame).value.tcp, Step(s, frame, cap).state;
            && next.mac == s.mac && next.conn.localPort == s.conn.localPort
            && (tcp.dstPort == s.conn.localPort ==>
                  if s.conn.state == Established && !Tcp.Has(tcp.flags, Tcp.FIN) then next.conn.state == Established
                  else next.conn.state in {SynReceived, LastAck})
  {
    hide Decode, Ipv4Frame, Tcp.Print, Add32, Tcp.Has;
  }

  // ---- The closed-port reply against RFC 793, section 3.4 ----

  /** SEG.LEN of RFC 793, section 3.3: SYN and FIN occupy one sequence number each. */
  function SegLen(tcp: Tcp.Header): nat {
    |tcp.payload| + (if Tcp.Has(tcp.flags, Tcp.SYN) then 1 else 0) + (if Tcp.Has(tcp.flags, Tcp.FIN) then 1 else 0)
  }

  /** The reset of RFC 793, section 3.4, group 1. */
  function StandardReset(tcp: Tcp.Header): Option<Send> {
    if Tcp.Has(tcp.flags, Tcp.RST) then None
    else if Tcp.Has(tcp.flags, Tcp.ACK) then Some(Send(tcp.ackNo, 0, Tcp.RST, []))
    else Some(Send(0, Add32(tcp.seqNo, SegLen(tcp)), RST_ACK, []))
  }

  /** The code sends the standard's reset exactly for a segment without RST and ACK that
      occupies one sequence number and has a zero acknowledgment field, as a plain SYN. */
  lemma ResetIsStandardIff(c: Conn, srcIp: uint32, tcp: Tcp.Header)
    requires tcp.dstPort != c.localPort && |tcp.payload| <= 0xFFFF
    ensures Decide(c, srcIp, tcp).1 == StandardReset(tcp)
            <==> !Tcp.Has(tcp.flags, Tcp.RST) && !Tcp.Has(tcp.flags, Tcp.ACK) && tcp.ackNo == 0 && SegLen(tcp) == 1
  {
  }

  lemma Add32Injective(x: uint32, a: nat, b: nat)
    requires a < 0x1_0000_0000 && b < 0x1_0000_0000
    ensures Add32(x, a) == Add32(x, b) <==> a == b
  {
  }
}
