/** Frames on which expectations that the documentation may raise fail. Each is built by the
    generator and delivered to a stack that the generator's own handshake has brought up;
    the exact conditions are proved in `Replies`, `Stream` and `InOrder`. */
module Limits {
  import opened Types
  import opened Decoder
  import opened Responder
  import opened Replies
  import opened Runs
  import opened Stream
  import opened InOrder
  import opened Generator
  import opened Session
  import Icmp
  import Ipv4
  import Tcp
  import Checksum

  /** The run up to the end of the handshake, and what it leaves behind. */
  function Handshake(sport: uint16, port: uint16, isn: uint32): seq<Event> {
    Upload(sport, port, isn, [])
  }

  function AfterHandshake(sport: uint16, port: uint16, isn: uint32): State {
    Run(Init(STACK_MAC, STACK_ADDR, port), Handshake(sport, port, isn))
  }

  lemma HandshakeLeaves(sport: uint16, port: uint16, isn: uint32)
    ensures var s0, evs, s := Init(STACK_MAC, STACK_ADDR, port), Handshake(sport, port, isn), AfterHandshake(sport, port, isn);
            && s.mac == STACK_MAC && s.conn.localPort == port && s.conn.state == Established
            && s.conn.rcvNxt == Add32(isn, 1) && s.conn.sndNxt == Add32(ISS, 1) && s.conn.bytesReceived == 0
            && Accepted(s0, evs) == [] && WireStream(RepliesOf(s0, evs)) == []
            && DataFits(s0, evs) && InSync(s0, evs)
  {
    hide Step, Decode, Upload, Run, RepliesOf, WireStream, Opening, PeerInOrder, InSync, Add32;
    var s0 := Init(STACK_MAC, STACK_ADDR, port);
    UploadIsAccepted(sport, port, isn, []);
    UploadIsInOrder(sport, port, isn, []);
    UploadIsRoomy(sport, port, isn, []);
    ReceiverFollowsPeer(STACK_MAC, STACK_ADDR, port, Handshake(sport, port, isn));
    InvariantHolds(STACK_MAC, STACK_ADDR, port, Handshake(sport, port, isn));
    RoomyDataFits(s0, Handshake(sport, port, isn));
    EchoConservation(s0, Handshake(sport, port, isn));
    BytesAreCounted(s0, Handshake(sport, port, isn));
  }

  /** What an established stack answers to a generated segment with data or FIN. */
  lemma EstablishedAnswers(s: State, sport: uint16, port: uint16, seqNo: uint32, ack: uint32, flags: uint8, data: Bytes, cap: nat)
    requires s.mac == STACK_MAC && s.conn.localPort == port && s.conn.state == Established
    requires flags < 0x40 && |data| <= 0xFFFF - 40 && cap >= 54 + |data|
    requires Tcp.Has(flags, Tcp.FIN) || data != []
    ensures var answer := Decode(Step(s, TcpFrame(sport, port, seqNo, ack, flags, data, 0x2000), cap).reply);
            && answer.Some? && answer.value.TcpPacket?
            && answer.value.ip.dst == CLIENT_ADDR && answer.value.tcp.dstPort == sport
            && answer.value.tcp.seqNo == s.conn.sndNxt
            && answer.value.tcp.ackNo == Add32(seqNo, if Tcp.Has(flags, Tcp.FIN) then 1 else |data|)
            && answer.value.tcp.payload == if Tcp.Has(flags, Tcp.FIN) then [] else data
  {
    hide Decode, Step, TcpFrame, Tcp.Has, Add32;
    var frame := TcpFrame(sport, port, seqNo, ack, flags, data, 0x2000);
    GeneratedTcpDecodes(sport, port, seqNo, ack, flags, data, 0x2000);
    RepliesExactlyWhenWanted(s, frame, cap);
    ReplyIsValid(s, frame, cap);
  }

  /** A FIN with three bytes of data: the reply acknowledges one octet instead of four, and
      the data is neither counted nor echoed. */
  lemma FinDataIsLost(sport: uint16, port: uint16, isn: uint32, cap: nat)
    requires cap >= 57
    ensures var s := AfterHandshake(sport, port, isn);
            var frame := TcpFrame(sport, port, Add32(isn, 1), Add32(ISS, 1), FIN + ACK, [1, 2, 3], 0x2000);
            var o := Step(s, frame, cap);
            && Arrival(s, frame).Some? && SegLen(Arrival(s, frame).value.tcp) == 4
            && Decode(o.reply).Some? && Decode(o.reply).value.TcpPacket?
            && Decode(o.reply).value.tcp.ackNo == Add32(isn, 2) != Add32(Add32(isn, 1), 4)
            && Decode(o.reply).value.tcp.payload == [] && o.state.conn.bytesReceived == 0
  {
    hide Decode, Step, TcpFrame, Tcp.Has, Add32, Run, Upload, Handshake;
    var s := AfterHandshake(sport, port, isn);
    HandshakeLeaves(sport, port, isn);
    Flags();
    EstablishedAnswers(s, sport, port, Add32(isn, 1), Add32(ISS, 1), FIN + ACK, [1, 2, 3], cap);
    GeneratedTcpDecodes(sport, port, Add32(isn, 1), Add32(ISS, 1), FIN + ACK, [1, 2, 3], 0x2000);
    StepOnConnection(s, TcpFrame(sport, port, Add32(isn, 1), Add32(ISS, 1), FIN + ACK, [1, 2, 3], 0x2000), cap);
    Add32Assoc(isn, 1, 1);
    Add32Assoc(isn, 1, 4);
    Add32Injective(isn, 2, 5);
  }

  /** Three bytes of data with a reply buffer of 54 bytes. */
  function Suppressed(sport: uint16, port: uint16, isn: uint32): Event {
    Event(TcpFrame(sport, port, Add32(isn, 1), Add32(ISS, 1), PSH + ACK, [1, 2, 3], 0x2000), 54)
  }

  /** They are accepted and counted, but never read by a receiver; and the reply to the next
      segment, with room, starts three octets beyond what the receiver has read. */
  lemma SuppressedDataIsLost(sport: uint16, port: uint16, isn: uint32, cap: nat)
    requires cap >= 55
    ensures var s0, evs := Init(STACK_MAC, STACK_ADDR, port), Handshake(sport, port, isn) + [Suppressed(sport, port, isn)];
            var s := Run(s0, evs);
            var next := Step(s, TcpFrame(sport, port, Add32(isn, 4), Add32(ISS, 1), PSH + ACK, [4], 0x2000), cap).reply;
            && Accepted(s0, evs) == [1, 2, 3] && s.conn.bytesReceived == 3
            && WireStream(RepliesOf(s0, evs)) == [] && !DataFits(s0, evs)
            && Decode(next).Some? && Decode(next).value.TcpPacket?
            && Decode(next).value.tcp.payload == [4]
            && Decode(next).value.tcp.seqNo == Add32(ISS, 4) != Add32(ISS, 1)
  {
    hide Decode, Step, TcpFrame, Tcp.Has, Add32, Run, Upload, Handshake, RepliesOf, WireStream, Accepted, DataFits, WireData;
    var s0, evs := Init(STACK_MAC, STACK_ADDR, port), Handshake(sport, port, isn);
    var (e, before) := (Suppressed(sport, port, isn), AfterHandshake(sport, port, isn));
    HandshakeLeaves(sport, port, isn);
    Flags();
    SendSteps(before, sport, port, Add32(isn, 1), Add32(ISS, 1), PSH + ACK, [1, 2, 3]);
    StepOnConnection(before, e.frame, e.cap);
    StepEchoes(before, e.frame, e.cap);
    RunSnoc(s0, evs, e);
    RepliesSnoc(s0, evs, e);
    EchoConservation(s0, evs + [e]);
    EstablishedAnswers(Run(s0, evs + [e]), sport, port, Add32(isn, 4), Add32(ISS, 1), PSH + ACK, [4], cap);
    Add32Assoc(ISS, 1, 3);
    Add32Injective(ISS, 4, 1);
  }

  lemma RepliesSnoc(s: State, evs: seq<Event>, e: Event)
    ensures WireStream(RepliesOf(s, evs + [e]))
            == WireStream(RepliesOf(s, evs)) + WireData(Step(Run(s, evs), e.frame, e.cap).reply)
  {
    hide Step, WireData, Run;
    assert Front(evs + [e]) == evs;
    WireStreamSnoc(RepliesOf(s, evs), Step(Run(s, evs), e.frame, e.cap).reply);
  }

  /** A bare ACK to a closed port: the standard's reset carries RST alone, the code's also
      acknowledges. */
  lemma AckDrawsNonstandardReset(s: State, cap: nat)
    requires s.mac == STACK_MAC && s.conn.localPort != 9999 && cap >= 54
    ensures var frame := TcpFrame(40002, 9999, 500, 700, ACK, [], 0x2005);
            var p, answer := Decode(frame), Decode(Step(s, frame, cap).reply);
            && p.Some? && p.value.TcpPacket? && StandardReset(p.value.tcp) == Some(Send(700, 0, 0x04, []))
            && answer.Some? && answer.value.TcpPacket?
            && answer.value.tcp.seqNo == 700 && answer.value.tcp.ackNo == 501 && answer.value.tcp.flags == 0x14
  {
    hide Decode, Step, TcpFrame, Tcp.Has;
    var frame := TcpFrame(40002, 9999, 500, 700, ACK, [], 0x2005);
    GeneratedTcpDecodes(40002, 9999, 500, 700, ACK, [], 0x2005);
    Flags();
    RepliesExactlyWhenWanted(s, frame, cap);
    ReplyIsValid(s, frame, cap);
  }

  /** One byte of data a thousand octets ahead of the expected one: the code takes it, and the
      receiver is no longer in step with the sender. */
  lemma GapBreaksSync(sport: uint16, port: uint16, isn: uint32)
    ensures var e := SegmentEvent(sport, port, Add32(isn, 1001), Add32(ISS, 1), PSH + ACK, [1]);
            var s0, evs := Init(STACK_MAC, STACK_ADDR, port), Handshake(sport, port, isn) + [e];
            !InSync(s0, evs) && Run(s0, evs).conn.rcvNxt == Add32(isn, 1002)
  {
    hide Decode, Step, TcpFrame, SegmentEvent, Tcp.Has, Add32, Run, Upload, Handshake, InSync;
    var s0, evs := Init(STACK_MAC, STACK_ADDR, port), Handshake(sport, port, isn);
    var e := SegmentEvent(sport, port, Add32(isn, 1001), Add32(ISS, 1), PSH + ACK, [1]);
    HandshakeLeaves(sport, port, isn);
    Flags();
    SendSteps(Run(s0, evs), sport, port, Add32(isn, 1001), Add32(ISS, 1), PSH + ACK, [1]);
    RunSnoc(s0, evs, e);
    InSyncIff(STACK_MAC, STACK_ADDR, port, evs + [e]);
    assert Front(evs + [e]) == evs;
    Add32Assoc(isn, 1001, 1);
    Add32Injective(isn, 1001, 1);
  }

  /** A segment from a port that took no part in the handshake is served: its data is echoed
      to that port, while the connection still names the opener. */
  lemma StrangerIsServed(sport: uint16, stranger: uint16, port: uint16, isn: uint32, cap: nat)
    requires stranger != sport && cap >= 55
    ensures var s := AfterHandshake(sport, port, isn);
            var o := Step(s, TcpFrame(stranger, port, Add32(isn, 1), Add32(ISS, 1), PSH + ACK, [7], 0x2000), cap);
            && Decode(o.reply).Some? && Decode(o.reply).value.TcpPacket?
            && Decode(o.reply).value.tcp.dstPort == stranger && Decode(o.reply).value.tcp.payload == [7]
            && o.state.conn.remotePort == sport && o.state.conn.bytesReceived == 1
  {
    hide Decode, Step, TcpFrame, Tcp.Has, Add32, Run, Upload, Handshake, Opening;
    var s := AfterHandshake(sport, port, isn);
    HandshakeLeaves(sport, port, isn);
    HandshakeOpener(sport, port, isn);
    Flags();
    EstablishedAnswers(s, stranger, port, Add32(isn, 1), Add32(ISS, 1), PSH + ACK, [7], cap);
    GeneratedTcpDecodes(stranger, port, Add32(isn, 1), Add32(ISS, 1), PSH + ACK, [7], 0x2000);
    StepOnConnection(s, TcpFrame(stranger, port, Add32(isn, 1), Add32(ISS, 1), PSH + ACK, [7], 0x2000), cap);
  }

  lemma HandshakeOpener(sport: uint16, port: uint16, isn: uint32)
    ensures AfterHandshake(sport, port, isn).conn.remotePort == sport
  {
    hide Accepted, AcceptedBy, Step, Decode, SegmentEvent, TcpFrame, Tcp.Has, Add32;
    var s0 := Init(STACK_MAC, STACK_ADDR, port);
    var syn := SegmentEvent(sport, port, isn, 0, SYN, []);
    var ack := SegmentEvent(sport, port, Add32(isn, 1), Add32(ISS, 1), ACK, []);
    Flags();
    RunSnoc(s0, [], syn);
    RunSnoc(s0, [syn], ack);
    assert [] + [syn] == [syn] && [syn] + [ack] == [syn, ack];
    SendSteps(s0, sport, port, isn, 0, SYN, []);
    SendSteps(Run(s0, [syn]), sport, port, Add32(isn, 1), Add32(ISS, 1), ACK, []);
  }

  /** A handshake whose ACK carries three bytes. */
  function EagerHandshake(sport: uint16, port: uint16, isn: uint32): seq<Event> {
    [SegmentEvent(sport, port, isn, 0, SYN, []),
     SegmentEvent(sport, port, Add32(isn, 1), Add32(ISS, 1), ACK, [1, 2, 3])]
  }

  /** Every buffer has room and the stack agrees with its own count, and yet the data never
      comes back, and rcv_nxt is three octets behind the sender. */
  lemma HandshakeDataIsLost(sport: uint16, port: uint16, isn: uint32)
    ensures var s0, evs := Init(STACK_MAC, STACK_ADDR, port), EagerHandshake(sport, port, isn);
            var c := Run(s0, evs).conn;
            && Roomy(evs) && DataFits(s0, evs) && InSync(s0, evs) && c.state == Established
            && Offered(s0, evs) == [1, 2, 3] && !Timely(s0, evs) && WireStream(RepliesOf(s0, evs)) == []
            && Opening(s0, evs).Some? && Opening(s0, evs).value.tcp.seqNo == isn && Sent(s0, evs) == 4
            && c.rcvNxt == Add32(isn, 1) && !InStep(s0, evs)
  {
    hide Step, Decode, SegmentEvent, TcpFrame, Tcp.Has, Add32, Init, Run, RepliesOf, WireStream, Accepted, Offered,
         Timely, DataFits, InSync, InStep, Sent, Opening, AllStartAtNext, AllFollow;
    var s0, evs := Init(STACK_MAC, STACK_ADDR, port), EagerHandshake(sport, port, isn);
    var syn := SegmentEvent(sport, port, isn, 0, SYN, []);
    var ack := SegmentEvent(sport, port, Add32(isn, 1), Add32(ISS, 1), ACK, [1, 2, 3]);
    FreshListens(port);
    Flags();
    SegmentEventIsRoomy(sport, port, isn, 0, SYN, []);
    SegmentEventIsRoomy(sport, port, Add32(isn, 1), Add32(ISS, 1), ACK, [1, 2, 3]);
    NothingYet(s0);
    assert [] + [syn] == [syn] && [syn] + [ack] == evs;
    SendSteps(s0, sport, port, isn, 0, SYN, []);
    RunSnoc(s0, [], syn);
    OneMore(s0, [], syn);
    SendSteps(Run(s0, [syn]), sport, port, Add32(isn, 1), Add32(ISS, 1), ACK, [1, 2, 3]);
    RunSnoc(s0, [syn], ack);
    OneMore(s0, [syn], ack);
    RoomyDataFits(s0, evs);
    EchoConservation(s0, evs);
    TakesTimelyData(s0, evs);
    InSyncIff(STACK_MAC, STACK_ADDR, port, evs);
    InStepIff(STACK_MAC, STACK_ADDR, port, evs);
  }

  lemma NothingYet(s: State)
    ensures Run(s, []) == s && Accepted(s, []) == [] == Offered(s, []) && Sent(s, []) == 0
    ensures Timely(s, []) && AllStartAtNext(s, []) && AllFollow(s, [])
  {
  }

  lemma OneMore(s: State, evs: seq<Event>, e: Event)
    ensures var before, more := Run(s, evs), evs + [e];
            var arrival := Arrival(before, e.frame);
            && Offered(s, more) == Offered(s, evs) + OfferedBy(before, e.frame)
            && Sent(s, more) == Sent(s, evs) + SpaceUsed(before, e.frame)
            && (arrival.Some? && Opens(before.conn, arrival.value.tcp) ==> Opening(s, more) == arrival)
            && (arrival.Some? && !Opens(before.conn, arrival.value.tcp) ==> Opening(s, more) == Opening(s, evs))
            && (Timely(s, more) <==> Timely(s, evs) && InTime(before, e.frame))
            && (arrival.Some? ==>
                  && (AllStartAtNext(s, more) <==> AllStartAtNext(s, evs) && StartsAtNext(before.conn, arrival.value.tcp))
                  && (AllFollow(s, more) <==> AllFollow(s, evs) && Follows(before.conn, arrival.value.tcp)))
  {
    hide Step, Arrival, OfferedBy, SpaceUsed, Opens, InTime, StartsAtNext, Follows;
    assert Front(evs + [e]) == evs;
  }

  lemma FreshListens(port: uint16)
    ensures var s := Init(STACK_MAC, STACK_ADDR, port);
            s.mac == STACK_MAC && s.conn.localPort == port && s.conn.state == Listen
  {
  }

  /** A ping with a code other than zero is answered, but with code zero: more changes than
      the type and the checksum. */
  lemma PingCodeIsCleared(s: State, from: Mac, src: uint32, id: uint16, code: uint8, echoId: uint16, seqNo: uint16,
                          payload: Bytes, cap: nat)
    requires code != 0 && |payload| <= 0xFFFF - 28 && cap >= 42 + |payload|
    ensures var request := Icmp.Coded(Icmp.ECHO_REQUEST, code, echoId, seqNo, payload);
            var reply := Step(s, Ipv4Frame(s.mac, from, src, s.ip, Ipv4.PROTO_ICMP, id, request), cap).reply;
            && Decode(reply).Some? && Decode(reply).value.EchoPacket? && Decode(reply).value.echo.code == 0
            && Decode(reply).value.echo.payload == payload
            && |reply| == 34 + |request| && reply[35] == 0 != request[1] == code
  {
    hide Decode, Step, Ipv4Frame, Icmp.Coded, Icmp.Parse, Checksum.Store, Icmp.AllZero;
    var request := Icmp.Coded(Icmp.ECHO_REQUEST, code, echoId, seqNo, payload);
    var frame := Ipv4Frame(s.mac, from, src, s.ip, Ipv4.PROTO_ICMP, id, request);
    Icmp.CodedIsAccepted(Icmp.ECHO_REQUEST, code, echoId, seqNo, payload);
    DecodeSent(s.mac, from, src, s.ip, Ipv4.PROTO_ICMP, id, request, []);
    assert frame + [] == frame;
    RepliesExactlyWhenWanted(s, frame, cap);
    ReplyIsValid(s, frame, cap);
    PingReplyIsIncremental(s, frame, cap);
    Icmp.CodedLayout(Icmp.ECHO_REQUEST, code, echoId, seqNo, payload);
    var message := Step(s, frame, cap).reply[34..];
    Icmp.StoreKeepsByte(request[0 := Icmp.ECHO_REPLY][1 := 0], 2, Rd16(message, 2), 1);
    assert message[1] == Step(s, frame, cap).reply[35];
  }

  // ---- Two stacks ----

  /** A segment without data to any stack, from a third party. */
  function Knock(mac: Mac, ip: uint32, port: uint16, flags: uint8): Event {
    Event(Ipv4Frame(mac, STACK_MAC, STACK_ADDR, ip, Ipv4.PROTO_TCP, 1,
                    Tcp.Print(STACK_ADDR, ip, 8080, port, 0, 0, flags, WINDOW, [])), 54)
  }

  lemma KnockArrives(s: State, port: uint16, flags: uint8)
    requires s.conn.localPort == port && flags < 0x40
    ensures var e := Knock(s.mac, s.ip, port, flags);
            var next := Step(s, e.frame, e.cap).state;
            && Arrival(s, e.frame).Some? && Arrival(s, e.frame).value.tcp.flags == flags
            && next.conn == Decide(s.conn, STACK_ADDR, Arrival(s, e.frame).value.tcp).0
            && next.mac == s.mac && next.ip == s.ip
  {
    hide Step, Decode, Decide, Ipv4Frame, Tcp.Print;
    var e := Knock(s.mac, s.ip, port, flags);
    var segment := Tcp.Print(STACK_ADDR, s.ip, 8080, port, 0, 0, flags, WINDOW, []);
    DecodeSentTcp(s.mac, STACK_MAC, STACK_ADDR, s.ip, 1, 8080, port, 0, 0, flags, WINDOW, [], []);
    assert e.frame + [] == e.frame;
    StepOnConnection(s, e.frame, e.cap);
  }

  /** Any stack can be brought to ESTABLISHED. */
  function Opened(mac: Mac, ip: uint32, port: uint16): State {
    Run(Init(mac, ip, port), [Knock(mac, ip, port, SYN), Knock(mac, ip, port, ACK)])
  }

  lemma OpenedIsEstablished(mac: Mac, ip: uint32, port: uint16)
    ensures var s := Opened(mac, ip, port);
            s.mac == mac && s.conn.localPort == port && s.conn.state == Established
  {
    hide Step, Decode, Knock, Tcp.Has, Add32;
    var s0 := Init(mac, ip, port);
    var syn, ack := Knock(mac, ip, port, SYN), Knock(mac, ip, port, ACK);
    Flags();
    KnockArrives(s0, port, SYN);
    assert [] + [syn] == [syn] && [syn] + [ack] == [syn, ack];
    RunSnoc(s0, [], syn);
    RunSnoc(s0, [syn], ack);
    KnockArrives(Run(s0, [syn]), port, ACK);
  }

  /** Data between two reachable stacks, one brought up by the generator and one at the
      generator's address, starts an endless exchange in which every frame carries it. */
  lemma DataSetsOffEchoes(sport: uint16, port: uint16, isn: uint32, data: Bytes, cap: nat, n: nat)
    requires 0 < |data| <= 0xFFFF - 40 && cap >= 54 + |data|
    ensures var a, b := AfterHandshake(sport, port, isn), Opened(CLIENT_MAC, CLIENT_ADDR, sport);
            var frame := TcpFrame(sport, port, Add32(isn, 1), Add32(ISS, 1), PSH + ACK, data, 0x2000);
            Echoing(a, b, frame, data) && Carries(Volley(a, b, frame, cap, n), data)
  {
    hide Decode, TcpFrame, Tcp.Has, Add32, Run, Upload, Echoing, Opened, Volley;
    var a, b := AfterHandshake(sport, port, isn), Opened(CLIENT_MAC, CLIENT_ADDR, sport);
    HandshakeEstablishes(sport, port, isn);
    OpenedIsEstablished(CLIENT_MAC, CLIENT_ADDR, sport);
    DataIsEchoing(a, b, sport, port, Add32(isn, 1), Add32(ISS, 1), data);
    EchoVolleyNeverEnds(a, b, TcpFrame(sport, port, Add32(isn, 1), Add32(ISS, 1), PSH + ACK, data, 0x2000), data, cap, n);
  }

  lemma DataIsEchoing(a: State, b: State, sport: uint16, port: uint16, seqNo: uint32, ack: uint32, data: Bytes)
    requires a.mac == STACK_MAC && a.conn.localPort == port && a.conn.state == Established
    requires b.mac == CLIENT_MAC && b.conn.localPort == sport && b.conn.state == Established
    requires 0 < |data| <= 0xFFFF - 40
    ensures Echoing(a, b, TcpFrame(sport, port, seqNo, ack, PSH + ACK, data, 0x2000), data)
  {
    hide Decode, TcpFrame, Tcp.Has;
    Flags();
    GeneratedTcpDecodes(sport, port, seqNo, ack, PSH + ACK, data, 0x2000);
  }
}
