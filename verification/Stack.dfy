/** The code of src/gcs_stack.c: objects updated in place and a reply buffer that is
    filled back to front, refining the step function of `Responder`. */
module StackCode {
  import opened Types
  import opened Responder
  import Decoder
  import Ethernet
  import Arp
  import Ipv4
  import Icmp
  import Tcp

  /** The buffer holds the reply, and everything behind the reply is as it was. */
  ghost predicate Holds(out: Bytes, n: nat, reply: Bytes, before: Bytes) {
    n == |reply| <= |before| && out == reply + before[n..]
  }

  lemma NothingSent(out: Bytes)
    ensures Holds(out, 0, [], out)
  {
  }

  lemma FrameInPlace(before: Bytes, out: Bytes, eth: Bytes, header: Bytes, body: Bytes)
    requires |eth| == 14 && |header| == 20 && 34 + |body| <= |before|
    requires out == Splice(Splice(Splice(before, 34, body), 14, header), 0, eth)
    ensures Holds(out, 34 + |body|, eth + header + body, before)
  {
    SpliceBefore(before, 14, header, body);
    SpliceBefore(before, 0, eth, header + body);
    assert eth + (header + body) == eth + header + body;
  }

  /** gcs_tcp_connection_t */
  class TcpConnection {
    var state: TcpState
    var localIp: uint32
    var remoteIp: uint32
    var localPort: uint16
    var remotePort: uint16
    var sndNxt: uint32
    var rcvNxt: uint32
    var iss: uint32
    var bytesReceived: uint64

    ghost function View(): Conn
      reads this
    {
      Conn(state, localIp, remoteIp, localPort, remotePort, sndNxt, rcvNxt, iss, bytesReceived)
    }

    /** gcs_tcp_connection_init */
    constructor (ip: uint32, port: uint16)
      ensures View() == InitConn(ip, port)
    {
      remoteIp, remotePort, sndNxt, rcvNxt, bytesReceived := 0, 0, 0, 0, 0;
      state := Listen;
      localIp := ip;
      localPort := port;
      iss := ISS;
    }
  }

  /** gcs_stack_t */
  class Stack {
    var mac: Mac
    var ip: uint32
    var ipId: uint16
    const conn: TcpConnection

    ghost function View(): State
      reads this, conn
    {
      State(mac, ip, conn.View(), ipId)
    }

    /** gcs_stack_init */
    constructor (mac: Mac, ip: uint32, port: uint16)
      ensures View() == Init(mac, ip, port) && fresh(conn)
    {
      this.mac := mac;
      this.ip := ip;
      ipId := 1;
      conn := new TcpConnection(ip, port);
    }

    /** `stack->ip_id++`: the value before the increment. */
    method NextIpId() returns (id: uint16)
      modifies this`ipId
      ensures id == old(ipId) && ipId == (old(ipId) + 1) % 0x1_0000
    {
      id := ipId;
      ipId := (ipId + 1) % 0x1_0000;
    }

    /** gcs_stack_handle_arp, after the packet has been parsed */
    method HandleArpFrame(req: Arp.Packet, out: array<uint8>) returns (n: nat)
      modifies out
      ensures var o := HandleArp(View(), req, out.Length);
              View() == old(View()) == o.state && Holds(out[..], n, o.reply, old(out[..]))
    {
      if req.opcode != Arp.OP_REQUEST {
        return 0;
      }
      if req.targetIp != ip {
        return 0;
      }
      if out.Length < Ethernet.HEADER_LEN + Arp.HEADER_LEN {
        return 0;
      }
      ghost var before := out[..];
      var okEth := Ethernet.WriteHeader(out, req.senderMac, mac, Ethernet.TYPE_ARP);
      var reply := Arp.Packet(Arp.HW_ETHERNET, Ethernet.TYPE_IPV4, 6, 4, Arp.OP_REPLY, mac, ip,
                              req.senderMac, req.senderIp);
      var okArp := Arp.Write(out, Ethernet.HEADER_LEN, reply);
      SpliceAfter(before, 0, Ethernet.Header(req.senderMac, mac, Ethernet.TYPE_ARP), Arp.Print(reply));
      n := Ethernet.HEADER_LEN + Arp.HEADER_LEN;
    }

    /** gcs_stack_handle_icmp, after the message has been parsed */
    method HandleIcmpFrame(from: Mac, header: Ipv4.Header, echo: Icmp.Echo, out: array<uint8>) returns (n: nat)
      modifies this`ipId, out
      ensures var o := HandleEcho(old(View()), from, header, echo, out.Length);
              View() == o.state && Holds(out[..], n, o.reply, old(out[..]))
    {
      hide Icmp.Print, Tcp.Print, Ipv4.Print, Ethernet.Header, Splice, Holds;
      NothingSent(out[..]);
      if echo.kind != Icmp.ECHO_REQUEST || header.dst != ip {
        return 0;
      }
      var icmpOff := Ethernet.HEADER_LEN + Ipv4.MIN_HEADER_LEN;
      if out.Length < icmpOff + Icmp.HEADER_LEN + |echo.payload| {
        return 0;
      }
      ghost var before := out[..];
      var icmpLen := Icmp.BuildEchoReply(out, icmpOff, echo);
      var id := NextIpId();
      var okIp := Ipv4.WriteHeader(out, Ethernet.HEADER_LEN, ip, header.src, Ipv4.PROTO_ICMP,
                                   icmpLen % 0x1_0000, id, 64);
      var okEth := Ethernet.WriteHeader(out, from, mac, Ethernet.TYPE_IPV4);
      FrameInPlace(before, out[..], Ethernet.Header(from, mac, Ethernet.TYPE_IPV4),
                   Ipv4.Print(ip, header.src, Ipv4.PROTO_ICMP, icmpLen % 0x1_0000, id, 64),
                   Icmp.Print(Icmp.ECHO_REPLY, echo.id, echo.seqNo, echo.payload));
      n := icmpOff + icmpLen;
    }

    /** gcs_stack_emit_tcp */
    method EmitSegment(to: Mac, header: Ipv4.Header, tcp: Tcp.Header, seqNo: uint32, ackNo: uint32, flags: uint8,
                       payload: Bytes, out: array<uint8>) returns (n: nat)
      modifies this`ipId, out
      ensures var o := EmitTcp(old(View()), to, header, tcp, Send(seqNo, ackNo, flags, payload), out.Length);
              View() == o.state && Holds(out[..], n, o.reply, old(out[..]))
    {
      hide Icmp.Print, Tcp.Print, Ipv4.Print, Ethernet.Header, Splice, Holds;
      NothingSent(out[..]);
      var tcpOff := Ethernet.HEADER_LEN + Ipv4.MIN_HEADER_LEN;
      if out.Length < tcpOff + Tcp.MIN_HEADER_LEN + |payload| {
        return 0;
      }
      ghost var before := out[..];
      var segLen := Tcp.BuildSegment(out, tcpOff, ip, header.src, tcp.dstPort, tcp.srcPort,
                                     seqNo, ackNo, flags, WINDOW, payload);
      var id := NextIpId();
      var okIp := Ipv4.WriteHeader(out, Ethernet.HEADER_LEN, ip, header.src, Ipv4.PROTO_TCP,
                                   segLen % 0x1_0000, id, 64);
      var okEth := Ethernet.WriteHeader(out, to, mac, Ethernet.TYPE_IPV4);
      FrameInPlace(before, out[..], Ethernet.Header(to, mac, Ethernet.TYPE_IPV4),
                   Ipv4.Print(ip, header.src, Ipv4.PROTO_TCP, segLen % 0x1_0000, id, 64),
                   Tcp.Print(ip, header.src, tcp.dstPort, tcp.srcPort, seqNo, ackNo, flags, WINDOW, payload));
      n := tcpOff + segLen;
    }

    /** gcs_stack_handle_tcp, after the segment has been parsed and validated */
    method HandleSegment(from: Mac, header: Ipv4.Header, tcp: Tcp.Header, out: array<uint8>) returns (n: nat)
      modifies this`ipId, conn, out
      ensures var o := HandleTcp(old(View()), from, header, tcp, out.Length);
              View() == o.state && Holds(out[..], n, o.reply, old(out[..]))
    {
      hide Tcp.Print, Decoder.Ipv4Frame, Add32, Tcp.Has, Holds;
      NothingSent(out[..]);
      if tcp.dstPort != conn.localPort {
        n := EmitSegment(from, header, tcp, tcp.ackNo, Add32(tcp.seqNo, 1), RST_ACK, [], out);
        return;
      }
      match conn.state
      case Listen =>
        if !Tcp.Has(tcp.flags, Tcp.SYN) {
          return 0;
        }
        conn.remoteIp := header.src;
        conn.remotePort := tcp.srcPort;
        conn.rcvNxt := Add32(tcp.seqNo, 1);
        conn.sndNxt := Add32(conn.iss, 1);
        conn.state := SynReceived;
        n := EmitSegment(from, header, tcp, conn.iss, conn.rcvNxt, SYN_ACK, [], out);
      case SynReceived =>
        if !Tcp.Has(tcp.flags, Tcp.ACK) {
          return 0;
        }
        conn.state := Established;
        n := 0;
      case Established =>
        if Tcp.Has(tcp.flags, Tcp.FIN) {
          conn.rcvNxt := Add32(tcp.seqNo, 1);
          conn.state := LastAck;
          n := EmitSegment(from, header, tcp, conn.sndNxt, conn.rcvNxt, FIN_ACK, [], out);
          return;
        }
        if |tcp.payload| == 0 {
          return 0;
        }
        conn.rcvNxt := Add32(tcp.seqNo, |tcp.payload| % 0x1_0000_0000);
        conn.bytesReceived := (conn.bytesReceived + |tcp.payload|) % 0x1_0000_0000_0000_0000;
        n := EmitSegment(from, header, tcp, conn.sndNxt, conn.rcvNxt, PSH_ACK, tcp.payload, out);
        conn.sndNxt := Add32(conn.sndNxt, |tcp.payload| % 0x1_0000_0000);
      case LastAck =>
        if Tcp.Has(tcp.flags, Tcp.ACK) {
          conn.state := Closed;
        }
        n := 0;
      case Closed =>
        n := 0;
      case CloseWait =>
        n := 0;
    }

    /** gcs_stack_handle_frame. The frame and the reply buffer are separate, as in
        app/gcs_replay.c:82-83. */
    method HandleFrame(frame: array<uint8>, len: nat, out: array<uint8>) returns (n: nat)
      requires len <= frame.Length && frame != out
      modifies this`ipId, conn, out
      ensures var o := Step(old(View()), frame[..len], out.Length);
              View() == o.state && Holds(out[..], n, o.reply, old(out[..]))
    {
      hide HandleTcp, HandleEcho, HandleArp, Ipv4.Parse, Arp.Parse, Decoder.DecodeTransport;
      if Decoder.Decode(frame[..len]).Some? {
        Decoder.DecodedAddresses(frame[..len]);
      }
      match Ethernet.Parse(frame[..len])
      case None =>
        n := 0;
      case Some(eth) =>
        if eth.dst != mac && eth.dst != BROADCAST {
          return 0;
        }
        if eth.ethertype == Ethernet.TYPE_ARP {
          match Arp.Parse(eth.payload)
          case None => n := 0;
          case Some(req) => n := HandleArpFrame(req, out);
        } else if eth.ethertype == Ethernet.TYPE_IPV4 {
          match Ipv4.Parse(eth.payload)
          case None => n := 0;
          case Some(header) =>
            n := HandleDatagram(eth, header, out);
        } else {
          n := 0;
        }
    }

    /** The IPv4 branch of gcs_stack_handle_frame. */
    method HandleDatagram(eth: Ethernet.Frame, header: Ipv4.Header, out: array<uint8>) returns (n: nat)
      requires Ipv4.Parse(eth.payload) == Some(header)
      modifies this`ipId, conn, out
      ensures var o := HandleDecoded(old(View()), Decoder.DecodeIpv4(eth), out.Length);
              View() == o.state && Holds(out[..], n, o.reply, old(out[..]))
    {
      hide HandleTcp, HandleEcho, HandleArp, Tcp.Parse, Icmp.Parse, Ipv4.Parse, Tcp.ChecksumValid, Ipv4.ChecksumValid;
      Decoder.ParsedBounds(eth.payload);
      var ok := Ipv4.CheckChecksum(eth.payload, header.ihl);
      if !ok {
        return 0;
      }
      if header.protocol == Ipv4.PROTO_ICMP {
        var echo := Icmp.ParseEcho(header.payload);
        match echo
        case None => n := 0;
        case Some(echo) => n := HandleIcmpFrame(eth.src, header, echo, out);
      } else if header.protocol == Ipv4.PROTO_TCP {
        match Tcp.Parse(header.payload)
        case None => n := 0;
        case Some(tcp) =>
          var valid := Tcp.CheckChecksum(header.src, header.dst, header.payload);
          if !valid {
            return 0;
          }
          n := HandleSegment(eth.src, header, tcp, out);
      } else {
        n := 0;
      }
    }
  }
}
