/** The responder as a step function on values (src/gcs_stack.c).

    `Decide` is the TCP automaton on its own; `Step` is one call of
    gcs_stack_handle_frame: the next state and the reply frame, empty for no reply. */
module Responder {
  import opened Types
  import opened Decoder
  import Ethernet
  import Arp
  import Ipv4
  import Icmp
  import Tcp

  const ISS: uint32 := 0x00C0_FFEE
  const WINDOW: uint16 := 4096

  const SYN_ACK: uint8 := Tcp.SYN + Tcp.ACK
  const FIN_ACK: uint8 := Tcp.FIN + Tcp.ACK
  const PSH_ACK: uint8 := Tcp.PSH + Tcp.ACK
  const RST_ACK: uint8 := Tcp.RST + Tcp.ACK

  datatype TcpState = Closed | Listen | SynReceived | Established | CloseWait | LastAck

  /** gcs_tcp_connection_t */
  datatype Conn = Conn(
    state: TcpState, localIp: uint32, remoteIp: uint32, localPort: uint16, remotePort: uint16,
    sndNxt: uint32, rcvNxt: uint32, iss: uint32, bytesReceived: uint64)

  /** gcs_stack_t, without the logging switch */
  datatype State = State(mac: Mac, ip: uint32, conn: Conn, ipId: uint16)

  /** What the automaton asks to be sent back to the segment's sender. */
  datatype Send = Send(seqNo: uint32, ackNo: uint32, flags: uint8, payload: Bytes)

  datatype Outcome = Outcome(state: State, reply: Bytes)

  function InitConn(ip: uint32, port: uint16): Conn {
    Conn(Listen, ip, 0, port, 0, 0, 0, ISS, 0)
  }

  /** gcs_stack_init */
  function Init(mac: Mac, ip: uint32, port: uint16): State {
    State(mac, ip, InitConn(ip, port), 1)
  }

  /** The body of gcs_stack_handle_tcp for an accepted segment. */
  function Decide(c: Conn, srcIp: uint32, tcp: Tcp.Header): (Conn, Option<Send>) {
    if tcp.dstPort != c.localPort then
      (c, Some(Send(tcp.ackNo, Add32(tcp.seqNo, 1), RST_ACK, [])))
    else
      match c.state
      case Listen =>
        if !Tcp.Has(tcp.flags, Tcp.SYN) then (c, None)
        else
          var next := c.(remoteIp := srcIp, remotePort := tcp.srcPort, rcvNxt := Add32(tcp.seqNo, 1),
                         sndNxt := Add32(c.iss, 1), state := SynReceived);
          (next, Some(Send(c.iss, next.rcvNxt, SYN_ACK, [])))
      case SynReceived =>
        if !Tcp.Has(tcp.flags, Tcp.ACK) then (c, None) else (c.(state := Established), None)
      case Established =>
        if Tcp.Has(tcp.flags, Tcp.FIN) then
          var next := c.(rcvNxt := Add32(tcp.seqNo, 1), state := LastAck);
          (next, Some(Send(c.sndNxt, next.rcvNxt, FIN_ACK, [])))
        else if |tcp.payload| == 0 then (c, None)
        else
          var len32: uint32 := |tcp.payload| % 0x1_0000_0000;
          var next := c.(rcvNxt := Add32(tcp.seqNo, len32), sndNxt := Add32(c.sndNxt, len32),
                         bytesReceived := (c.bytesReceived + |tcp.payload|) % 0x1_0000_0000_0000_0000);
          (next, Some(Send(c.sndNxt, next.rcvNxt, PSH_ACK, tcp.payload)))
      case LastAck =>
        (if Tcp.Has(tcp.flags, Tcp.ACK) then c.(state := Closed) else c, None)
      case Closed => (c, None)
      case CloseWait => (c, None)
  }

  /** gcs_stack_emit_tcp: nothing is sent, and no IP id is used, if the buffer is too small. */
  function EmitTcp(s: State, to: Mac, ip: Ipv4.Header, tcp: Tcp.Header, send: Send, cap: nat): Outcome {
    if cap < 54 + |send.payload| then Outcome(s, [])
    else
      var segment := Tcp.Print(s.ip, ip.src, tcp.dstPort, tcp.srcPort, send.seqNo, send.ackNo, send.flags,
                               WINDOW, send.payload);
      Outcome(s.(ipId := (s.ipId + 1) % 0x1_0000),
              Ipv4Frame(to, s.mac, s.ip, ip.src, Ipv4.PROTO_TCP, s.ipId, segment))
  }

  function HandleTcp(s: State, from: Mac, ip: Ipv4.Header, tcp: Tcp.Header, cap: nat): Outcome {
    var (conn, send) := Decide(s.conn, ip.src, tcp);
    match send
    case None => Outcome(s.(conn := conn), [])
    case Some(send) => EmitTcp(s.(conn := conn), from, ip, tcp, send, cap)
  }

  function HandleEcho(s: State, from: Mac, ip: Ipv4.Header, echo: Icmp.Echo, cap: nat): Outcome {
    if echo.kind != Icmp.ECHO_REQUEST || ip.dst != s.ip || cap < 42 + |echo.payload| then Outcome(s, [])
    else
      var message := Icmp.Print(Icmp.ECHO_REPLY, echo.id, echo.seqNo, echo.payload);
      Outcome(s.(ipId := (s.ipId + 1) % 0x1_0000),
              Ipv4Frame(from, s.mac, s.ip, ip.src, Ipv4.PROTO_ICMP, s.ipId, message))
  }

  function ArpReply(s: State, request: Arp.Packet): Arp.Packet {
    Arp.Packet(Arp.HW_ETHERNET, Ethernet.TYPE_IPV4, 6, 4, Arp.OP_REPLY, s.mac, s.ip,
               request.senderMac, request.senderIp)
  }

  /** An ARP reply goes to the sender named in the request, not to the frame's source. */
  function HandleArp(s: State, request: Arp.Packet, cap: nat): Outcome {
    if request.opcode != Arp.OP_REQUEST || request.targetIp != s.ip || cap < 42 then Outcome(s, [])
    else
      Outcome(s, Ethernet.Header(request.senderMac, s.mac, Ethernet.TYPE_ARP) + Arp.Print(ArpReply(s, request)))
  }

  predicate Addressed(mac: Mac, dst: Mac) {
    dst == mac || dst == BROADCAST
  }

  /** The dispatch on a decoded packet that is addressed to the stack. */
  function HandleDecoded(s: State, packet: Option<Packet>, cap: nat): Outcome {
    match packet
    case None => Outcome(s, [])
    case Some(ArpPacket(_, _, arp)) => HandleArp(s, arp, cap)
    case Some(EchoPacket(_, src, ip, echo)) => HandleEcho(s, src, ip, echo, cap)
    case Some(TcpPacket(_, src, ip, tcp)) => HandleTcp(s, src, ip, tcp, cap)
  }

  /** gcs_stack_handle_frame */
  function Step(s: State, frame: Bytes, cap: nat): Outcome {
    var packet := Decode(frame);
    if packet.Some? && !Addressed(s.mac, packet.value.dst) then Outcome(s, [])
    else HandleDecoded(s, packet, cap)
  }
}
