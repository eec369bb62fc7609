/** A whole session from generated frames, composed as in tools/gcs_make_sample.py:63-66:
    handshake, any number of data segments, FIN, and the last ACK that the sample leaves
    out. It drives a fresh stack from LISTEN to CLOSED and brings every byte back. */
module Session {
  import opened Types
  import opened Decoder
  import opened Responder
  import opened Replies
  import opened Runs
  import opened Stream
  import opened InOrder
  import opened NonInterference
  import opened Generator
  import Wire
  import Checksum
  import Icmp
  import Tcp
  import Arp

  function SegmentEvent(sport: uint16, port: uint16, seqNo: uint32, ack: uint32, flags: uint8, data: Bytes): Event
    requires |data| <= 0xFFFF - 40
  {
    var frame := TcpFrame(sport, port, seqNo, ack, flags, data, 0x2000);
    Event(frame, |frame|)
  }

  predicate Sendable(chunks: seq<Bytes>) {
    forall i :: 0 <= i < |chunks| ==> 0 < |chunks[i]| <= 0xFFFF - 40
  }

  function Concat(chunks: seq<Bytes>): Bytes
    decreases |chunks|
  {
    if chunks == [] then [] else Concat(Front(chunks)) + Last(chunks)
  }

  /** Handshake and data; each segment starts where the data so far ends, modulo 2^32. */
  function Upload(sport: uint16, port: uint16, isn: uint32, chunks: seq<Bytes>): seq<Event>
    requires Sendable(chunks)
    decreases |chunks|
  {
    if chunks == [] then
      [SegmentEvent(sport, port, isn, 0, SYN, []),
       SegmentEvent(sport, port, Add32(isn, 1), Add32(ISS, 1), ACK, [])]
    else
      Upload(sport, port, isn, Front(chunks))
      + [SegmentEvent(sport, port, Add32(isn, 1 + |Concat(Front(chunks))|), Add32(ISS, 1), PSH + ACK, Last(chunks))]
  }

  /** The upload and the FIN, where the sample stops. */
  function UntilFin(sport: uint16, port: uint16, isn: uint32, chunks: seq<Bytes>): seq<Event>
    requires Sendable(chunks)
  {
    var end := Add32(isn, 1 + |Concat(chunks)|);
    Upload(sport, port, isn, chunks) + [SegmentEvent(sport, port, end, Add32(ISS, 1), FIN + ACK, [])]
  }

  function WholeSession(sport: uint16, port: uint16, isn: uint32, chunks: seq<Bytes>): seq<Event>
    requires Sendable(chunks)
  {
    var end := Add32(isn, 1 + |Concat(chunks)|);
    UntilFin(sport, port, isn, chunks) + [SegmentEvent(sport, port, Add32(end, 1), Add32(ISS, 2), ACK, [])]
  }

  /** What a generated segment does to a stack that runs at the generator's address. */
  lemma SendSteps(s: State, sport: uint16, port: uint16, seqNo: uint32, ack: uint32, flags: uint8, data: Bytes)
    requires s.mac == STACK_MAC && s.conn.localPort == port && |data| <= 0xFFFF - 40
    ensures var e := SegmentEvent(sport, port, seqNo, ack, flags, data);
            var arrival := Arrival(s, e.frame);
            && arrival.Some? && arrival.value.srcIp == CLIENT_ADDR
            && arrival.value.tcp.srcPort == sport && arrival.value.tcp.dstPort == port
            && arrival.value.tcp.seqNo == seqNo && (flags < 0x40 ==> arrival.value.tcp.flags == flags)
            && arrival.value.tcp.payload == data
            && Step(s, e.frame, e.cap).state.conn == Decide(s.conn, CLIENT_ADDR, arrival.value.tcp).0
            && Step(s, e.frame, e.cap).state.mac == s.mac
  {
    hide Decode, Step, Decide, TcpFrame;
    GeneratedTcpDecodes(sport, port, seqNo, ack, flags, data, 0x2000);
    var e := SegmentEvent(sport, port, seqNo, ack, flags, data);
    StepOnConnection(s, e.frame, e.cap);
  }

  lemma RunSnoc(s: State, evs: seq<Event>, e: Event)
    ensures Run(s, evs + [e]) == Step(Run(s, evs), e.frame, e.cap).state
    ensures Accepted(s, evs + [e]) == Accepted(s, evs) + AcceptedBy(Run(s, evs), e.frame)
  {
    hide Step, AcceptedBy;
    assert Front(evs + [e]) == evs;
  }

  lemma Flags()
    ensures Tcp.Has(SYN, Tcp.SYN) && Tcp.Has(ACK, Tcp.ACK) && Tcp.Has(FIN + ACK, Tcp.FIN)
    ensures !Tcp.Has(PSH + ACK, Tcp.FIN) && !Tcp.Has(ACK, Tcp.FIN) && !Tcp.Has(SYN, Tcp.FIN)
    ensures !Tcp.Has(PSH + ACK, Tcp.SYN) && !Tcp.Has(ACK, Tcp.SYN) && !Tcp.Has(FIN + ACK, Tcp.SYN)
    ensures Tcp.Has(FIN + ACK, Tcp.ACK) && !Tcp.Has(ACK, Tcp.RST)
  {
  }

  lemma HandshakeEstablishes(sport: uint16, port: uint16, isn: uint32)
    ensures var s0, evs := Init(STACK_MAC, STACK_ADDR, port), Upload(sport, port, isn, []);
            var s := Run(s0, evs);
            && s.conn.state == Established && s.mac == STACK_MAC && s.conn.localPort == port
            && Accepted(s0, evs) == []
  {
    hide Step, Decode, SegmentEvent, TcpFrame, Tcp.Has, Add32;
    var s0 := Init(STACK_MAC, STACK_ADDR, port);
    var syn := SegmentEvent(sport, port, isn, 0, SYN, []);
    var ack := SegmentEvent(sport, port, Add32(isn, 1), Add32(ISS, 1), ACK, []);
    Flags();
    RunSnoc(s0, [], syn);
    RunSnoc(s0, [syn], ack);
    assert [] + [syn] == [syn] && [syn] + [ack] == [syn, ack];
    SendSteps(s0, sport, port, isn, 0, SYN, []);
    SendSteps(Run(s0, [syn]), sport, port, Add32(isn, 1), Add32(ISS, 1), ACK, []);
  }

  lemma {:induction false} UploadIsAccepted(sport: uint16, port: uint16, isn: uint32, chunks: seq<Bytes>)
    requires Sendable(chunks)
    ensures var s0, evs := Init(STACK_MAC, STACK_ADDR, port), Upload(sport, port, isn, chunks);
            var s := Run(s0, evs);
            && s.conn.state == Established && s.mac == STACK_MAC && s.conn.localPort == port
            && Accepted(s0, evs) == Concat(chunks)
    decreases |chunks|
  {
    hide Step, Decode, SegmentEvent, TcpFrame, Tcp.Has, Add32;
    if chunks == [] {
      HandshakeEstablishes(sport, port, isn);
    } else {
      var s0 := Init(STACK_MAC, STACK_ADDR, port);
      var before := Upload(sport, port, isn, Front(chunks));
      var seqNo := Add32(isn, 1 + |Concat(Front(chunks))|);
      var e := SegmentEvent(sport, port, seqNo, Add32(ISS, 1), PSH + ACK, Last(chunks));
      UploadIsAccepted(sport, port, isn, Front(chunks));
      Flags();
      RunSnoc(s0, before, e);
      SendSteps(Run(s0, before), sport, port, seqNo, Add32(ISS, 1), PSH + ACK, Last(chunks));
    }
  }

  lemma {:induction false} UploadIsRoomy(sport: uint16, port: uint16, isn: uint32, chunks: seq<Bytes>)
    requires Sendable(chunks)
    ensures Roomy(Upload(sport, port, isn, chunks))
    decreases |chunks|
  {
    hide TcpFrame;
    if chunks != [] {
      UploadIsRoomy(sport, port, isn, Front(chunks));
    }
  }

  lemma UntilFinLeaves(sport: uint16, port: uint16, isn: uint32, chunks: seq<Bytes>)
    requires Sendable(chunks)
    ensures var s0, evs := Init(STACK_MAC, STACK_ADDR, port), UntilFin(sport, port, isn, chunks);
            var s := Run(s0, evs);
            && s.conn.state == LastAck && s.mac == STACK_MAC && s.conn.localPort == port
            && Accepted(s0, evs) == Concat(chunks) && Roomy(evs)
  {
    hide Step, Decode, SegmentEvent, TcpFrame, Tcp.Has, Add32, Concat, Upload;
    var s0, up := Init(STACK_MAC, STACK_ADDR, port), Upload(sport, port, isn, chunks);
    var end := Add32(isn, 1 + |Concat(chunks)|);
    UploadIsAccepted(sport, port, isn, chunks);
    UploadIsRoomy(sport, port, isn, chunks);
    Flags();
    RunSnoc(s0, up, SegmentEvent(sport, port, end, Add32(ISS, 1), FIN + ACK, []));
    SendSteps(Run(s0, up), sport, port, end, Add32(ISS, 1), FIN + ACK, []);
    SegmentEventIsRoomy(sport, port, end, Add32(ISS, 1), FIN + ACK, []);
  }

  lemma WholeSessionLeaves(sport: uint16, port: uint16, isn: uint32, chunks: seq<Bytes>)
    requires Sendable(chunks)
    ensures var s0, evs := Init(STACK_MAC, STACK_ADDR, port), WholeSession(sport, port, isn, chunks);
            Run(s0, evs).conn.state == Closed && Accepted(s0, evs) == Concat(chunks) && Roomy(evs)
  {
    hide Step, Decode, SegmentEvent, TcpFrame, Tcp.Has, Add32, Concat, UntilFin;
    var s0, until := Init(STACK_MAC, STACK_ADDR, port), UntilFin(sport, port, isn, chunks);
    var past := Add32(Add32(isn, 1 + |Concat(chunks)|), 1);
    UntilFinLeaves(sport, port, isn, chunks);
    Flags();
    RunSnoc(s0, until, SegmentEvent(sport, port, past, Add32(ISS, 2), ACK, []));
    SendSteps(Run(s0, until), sport, port, past, Add32(ISS, 2), ACK, []);
    SegmentEventIsRoomy(sport, port, past, Add32(ISS, 2), ACK, []);
  }

  /** For every client port, listening port, initial sequence number and list of data
      segments, the session closes the connection and the replies carry back exactly the
      data that was sent. That is so amid any other traffic: for every trace that carries
      the session's segments to the port, in any IP datagrams and with any padding, and
      otherwise whatever it likes, with reply buffers as large as the frames. */
  lemma SessionEchoesAndCloses(sport: uint16, port: uint16, isn: uint32, chunks: seq<Bytes>, evs: seq<Event>)
    requires Sendable(chunks) && Roomy(evs)
    requires Segments(STACK_MAC, port, evs) == Segments(STACK_MAC, port, WholeSession(sport, port, isn, chunks))
    ensures var s0 := Init(STACK_MAC, STACK_ADDR, port);
            && Run(s0, evs).conn.state == Closed
            && Run(s0, evs).conn.bytesReceived == |Concat(chunks)| % 0x1_0000_0000_0000_0000
            && WireStream(RepliesOf(s0, evs)) == Concat(chunks)
  {
    hide Run, Accepted, RepliesOf, WireStream, DataFits, Roomy, Segments, WholeSession;
    var s0 := Init(STACK_MAC, STACK_ADDR, port);
    WholeSessionLeaves(sport, port, isn, chunks);
    RunIsAutomaton(s0, WholeSession(sport, port, isn, chunks));
    RunIsAutomaton(s0, evs);
    RoomyDataFits(s0, evs);
    EchoConservation(s0, evs);
    BytesAreCounted(s0, evs);
  }

  /** The session on its own is such a trace. */
  lemma SessionAlone(sport: uint16, port: uint16, isn: uint32, chunks: seq<Bytes>)
    requires Sendable(chunks)
    ensures var s0, evs := Init(STACK_MAC, STACK_ADDR, port), WholeSession(sport, port, isn, chunks);
            && Run(s0, evs).conn.state == Closed
            && Run(s0, evs).conn.bytesReceived == |Concat(chunks)| % 0x1_0000_0000_0000_0000
            && WireStream(RepliesOf(s0, evs)) == Concat(chunks)
  {
    hide Run, RepliesOf, WireStream, Segments, WholeSession;
    WholeSessionLeaves(sport, port, isn, chunks);
    SessionEchoesAndCloses(sport, port, isn, chunks, WholeSession(sport, port, isn, chunks));
  }

  // ---- The sample ----

  const PING_DATA: Bytes := [0x61, 0x62, 0x63, 0x64, 0x65, 0x66, 0x67, 0x68]

  /** The frames of tools/gcs_make_sample.py:59-68, with any data. */
  function Sample(data: Bytes): seq<Bytes>
    requires |data| <= 0xFFFF - 40
  {
    [ArpRequest(), IcmpEcho(0x1234, 1, PING_DATA), IcmpEcho(0x1234, 2, PING_DATA),
     TcpFrame(40001, 8080, 1000, 0, SYN, [], 0x2001),
     TcpFrame(40001, 8080, 1001, 0x00C0_FFEF, ACK, [], 0x2002),
     TcpFrame(40001, 8080, 1001, 0x00C0_FFEF, PSH + ACK, data, 0x2003),
     TcpFrame(40001, 8080, 1001 + |data|, 0x00C0_FFEF, FIN + ACK, [], 0x2004),
     TcpFrame(40002, 9999, 500, 0, SYN, [], 0x2005)]
  }

  /** The identification of the datagram does not reach the connection. */
  lemma IdentIsInvisible(port: uint16, sport: uint16, dport: uint16, seqNo: uint32, ack: uint32, flags: uint8, data: Bytes,
                         ident: uint16, ident': uint16)
    requires |data| <= 0xFFFF - 40
    ensures SegmentIn(STACK_MAC, port, TcpFrame(sport, dport, seqNo, ack, flags, data, ident))
            == SegmentIn(STACK_MAC, port, TcpFrame(sport, dport, seqNo, ack, flags, data, ident'))
    ensures dport != port ==> SegmentIn(STACK_MAC, port, TcpFrame(sport, dport, seqNo, ack, flags, data, ident)) == []
  {
    hide Decode, Eth, Ipv4Packet, Generator.Segment, Ipv4Frame, Tcp.Print, Padding;
    var seg := Generator.Segment(sport, dport, seqNo, ack, flags, data);
    TcpPrintersAgree(sport, dport, seqNo, ack, flags, data);
    EthIsFrame(6, seg, ident);
    EthIsFrame(6, seg, ident');
    var padding := Padding(34 + |seg|);
    DecodeSentTcp(STACK_MAC, CLIENT_MAC, CLIENT_ADDR, STACK_ADDR, ident, sport, dport, seqNo, ack, flags, 4096,
                  data, padding);
    DecodeSentTcp(STACK_MAC, CLIENT_MAC, CLIENT_ADDR, STACK_ADDR, ident', sport, dport, seqNo, ack, flags, 4096,
                  data, padding);
  }

  lemma SegmentsTake(mac: Mac, port: uint16, evs: seq<Event>, i: nat)
    requires i < |evs|
    ensures Segments(mac, port, evs[..i + 1]) == Segments(mac, port, evs[..i]) + SegmentIn(mac, port, evs[i].frame)
  {
    hide SegmentIn;
    assert Front(evs[..i + 1]) == evs[..i] && Last(evs[..i + 1]) == evs[i];
  }

  predicate IsSample(evs: seq<Event>, data: Bytes)
    requires |data| <= 0xFFFF - 40
  {
    |evs| == 8 && forall i :: 0 <= i < 8 ==> evs[i].frame == Sample(data)[i]
  }

  lemma UntilFinEvents(sport: uint16, port: uint16, isn: uint32, data: Bytes)
    requires 0 < |data| <= 0xFFFF - 40
    ensures Concat([data]) == data
    ensures UntilFin(sport, port, isn, [data])
            == [SegmentEvent(sport, port, isn, 0, SYN, []),
                SegmentEvent(sport, port, Add32(isn, 1), Add32(ISS, 1), ACK, []),
                SegmentEvent(sport, port, Add32(isn, 1), Add32(ISS, 1), PSH + ACK, data),
                SegmentEvent(sport, port, Add32(isn, 1 + |data|), Add32(ISS, 1), FIN + ACK, [])]
  {
    hide SegmentEvent, Add32;
    var chunks := [data];
    assert Front(chunks) == [] && Last(chunks) == data;
    assert Upload(sport, port, isn, chunks)
        == Upload(sport, port, isn, [])
           + [SegmentEvent(sport, port, Add32(isn, 1 + |Concat([])|), Add32(ISS, 1), PSH + ACK, data)];
  }

  /** The segments of the sample's session, in the generator's session. */
  lemma UntilFinSegments(data: Bytes)
    requires 0 < |data| <= 0xFFFF - 40
    ensures Segments(STACK_MAC, 8080, UntilFin(40001, 8080, 1000, [data]))
            == SegmentIn(STACK_MAC, 8080, Sample(data)[3]) + SegmentIn(STACK_MAC, 8080, Sample(data)[4])
               + SegmentIn(STACK_MAC, 8080, Sample(data)[5]) + SegmentIn(STACK_MAC, 8080, Sample(data)[6])
  {
    hide SegmentIn, TcpFrame, IcmpEcho, ArpRequest, UntilFin, Segments;
    var evs := UntilFin(40001, 8080, 1000, [data]);
    UntilFinEvents(40001, 8080, 1000, data);
    SegmentsOfNothing();
    IdentIsInvisible(8080, 40001, 8080, 1000, 0, SYN, [], 0x2000, 0x2001);
    IdentIsInvisible(8080, 40001, 8080, 1001, 0x00C0_FFEF, ACK, [], 0x2000, 0x2002);
    IdentIsInvisible(8080, 40001, 8080, 1001, 0x00C0_FFEF, PSH + ACK, data, 0x2000, 0x2003);
    IdentIsInvisible(8080, 40001, 8080, 1001 + |data|, 0x00C0_FFEF, FIN + ACK, [], 0x2000, 0x2004);
    assert |evs| == 4 && evs[..4] == evs && evs[..0] == [];
    SegmentsTake(STACK_MAC, 8080, evs, 0);
    SegmentsTake(STACK_MAC, 8080, evs, 1);
    SegmentsTake(STACK_MAC, 8080, evs, 2);
    SegmentsTake(STACK_MAC, 8080, evs, 3);
  }

  lemma SampleSegments(evs: seq<Event>, data: Bytes)
    requires 0 < |data| <= 0xFFFF - 40 && IsSample(evs, data)
    ensures Segments(STACK_MAC, 8080, evs) == Segments(STACK_MAC, 8080, UntilFin(40001, 8080, 1000, [data]))
  {
    hide SegmentIn, TcpFrame, IcmpEcho, ArpRequest, UntilFin, Segments;
    UntilFinSegments(data);
    PlainFramesCarryNone(8080);
    IdentIsInvisible(8080, 40002, 9999, 500, 0, SYN, [], 0x2005, 0x2005);
    assert evs[..8] == evs;
    SegmentsOfNothing();
    SegmentsTake(STACK_MAC, 8080, evs, 0);
    SegmentsTake(STACK_MAC, 8080, evs, 1);
    SegmentsTake(STACK_MAC, 8080, evs, 2);
    SegmentsTake(STACK_MAC, 8080, evs, 3);
    SegmentsTake(STACK_MAC, 8080, evs, 4);
    SegmentsTake(STACK_MAC, 8080, evs, 5);
    SegmentsTake(STACK_MAC, 8080, evs, 6);
    SegmentsTake(STACK_MAC, 8080, evs, 7);
  }

  lemma SegmentsOfNothing()
    ensures Segments(STACK_MAC, 8080, []) == []
  {
  }

  lemma PlainFramesCarryNone(port: uint16)
    ensures SegmentIn(STACK_MAC, port, ArpRequest()) == []
    ensures SegmentIn(STACK_MAC, port, IcmpEcho(0x1234, 1, PING_DATA)) == []
    ensures SegmentIn(STACK_MAC, port, IcmpEcho(0x1234, 2, PING_DATA)) == []
  {
    hide Decode, ArpRequest, IcmpEcho;
    GeneratedArpDecodes();
    GeneratedEchoDecodes(0x1234, 1, PING_DATA);
    GeneratedEchoDecodes(0x1234, 2, PING_DATA);
  }

  /** The repository's sample, with any data, replayed through buffers as large as the frames:
      amid ARP, pings and the segment for the closed port, the data comes back exactly, and
      the connection waits for its last ACK. */
  lemma SampleIsEchoed(evs: seq<Event>, data: Bytes)
    requires 0 < |data| <= 0xFFFF - 40 && IsSample(evs, data) && Roomy(evs)
    ensures var s0 := Init(STACK_MAC, STACK_ADDR, 8080);
            && Run(s0, evs).conn.state == LastAck
            && Run(s0, evs).conn.bytesReceived == |data|
            && WireStream(RepliesOf(s0, evs)) == data
  {
    hide Run, Accepted, RepliesOf, WireStream, DataFits, Roomy, Segments, UntilFin, IsSample, SegmentEvent, Add32, Concat,
         DecideAll, Taken;
    var s0 := Init(STACK_MAC, STACK_ADDR, 8080);
    UntilFinEvents(40001, 8080, 1000, data);
    UntilFinLeaves(40001, 8080, 1000, [data]);
    SampleSegments(evs, data);
    RunIsAutomaton(s0, UntilFin(40001, 8080, 1000, [data]));
    RunIsAutomaton(s0, evs);
    RoomyDataFits(s0, evs);
    EchoConservation(s0, evs);
    BytesAreCounted(s0, evs);
  }

  /** The segment that docs/guide.md:165 prints for the sample's SYN: from port 8080 to 40001,
      seq 12648430, ack 1001, SYN|ACK, window 4096, checksum 0xcb66. */
  const DOCUMENTED_SEGMENT: Bytes :=
    [0x1F, 0x90, 0x9C, 0x41, 0x00, 0xC0, 0xFF, 0xEE, 0x00, 0x00, 0x03, 0xE9, 0x50, 0x12, 0x10, 0x00, 0xCB, 0x66, 0x00, 0x00]

  /** A listening stack, however many datagrams it has sent, answers with exactly those bytes. */
  lemma DocumentedReply(data: Bytes, id: uint16, cap: nat)
    requires |data| <= 0xFFFF - 40 && cap >= 54
    ensures var s := Init(STACK_MAC, STACK_ADDR, 8080).(ipId := id);
            var r := Step(s, Sample(data)[3], cap).reply;
            |r| == 54 && r[34..] == DOCUMENTED_SEGMENT
  {
    hide Decode, Decide, Step, TcpFrame, ArpRequest, IcmpEcho, Ipv4Frame, Tcp.Print, Tcp.Has;
    var s := Init(STACK_MAC, STACK_ADDR, 8080).(ipId := id);
    var f := TcpFrame(40001, 8080, 1000, 0, SYN, [], 0x2001);
    GeneratedTcpDecodes(40001, 8080, 1000, 0, SYN, [], 0x2001);
    RepliesExactlyWhenWanted(s, f, cap);
    SynIsWanted(s, Decode(f).value);
    Wire.SegmentFrame(s, f, cap);
    DocumentedBytes();
    FrameTail(CLIENT_MAC, STACK_MAC, STACK_ADDR, CLIENT_ADDR, 6, id, DOCUMENTED_SEGMENT);
  }

  lemma SynIsWanted(s: State, p: Packet)
    requires s.conn == InitConn(STACK_ADDR, 8080) && p.TcpPacket? && Addressed(s.mac, p.dst)
    requires p.tcp.dstPort == 8080 && p.tcp.seqNo == 1000 && p.tcp.flags == SYN
    ensures Wants(s, p) && Decide(s.conn, p.ip.src, p.tcp).1 == Some(Send(0x00C0_FFEE, 1001, 0x12, []))
  {
  }

  lemma FrameTail(dst: Mac, src: Mac, srcIp: uint32, dstIp: uint32, protocol: uint8, id: uint16, body: Bytes)
    ensures Ipv4Frame(dst, src, srcIp, dstIp, protocol, id, body)[34..] == body
  {
  }

  lemma DocumentedBytes()
    ensures Tcp.Print(STACK_ADDR, CLIENT_ADDR, 8080, 40001, 0x00C0_FFEE, 1001, 0x12, 4096, []) == DOCUMENTED_SEGMENT
  {
    hide Checksum.Accum, Tcp.Blank, Tcp.Seed;
    DocumentedBlank();
    DocumentedSum();
  }

  lemma DocumentedBlank()
    ensures Tcp.Blank(8080, 40001, 0x00C0_FFEE, 1001, 0x12, 4096, []) == DOCUMENTED_BLANK
  {
  }

  lemma DocumentedSum()
    ensures Checksum.Accum(DOCUMENTED_BLANK, Tcp.Seed(STACK_ADDR, CLIENT_ADDR, 20)) == 0xCB66
  {
    hide Checksum.WordSum, Checksum.Fold;
    DocumentedWords();
    Checksum.FoldUnique(0x2_3497, 0x3499, 2);
  }

  const DOCUMENTED_BLANK: Bytes :=
    [0x1F, 0x90, 0x9C, 0x41, 0x00, 0xC0, 0xFF, 0xEE, 0x00, 0x00, 0x03, 0xE9, 0x50, 0x12, 0x10, 0x00, 0x00, 0x00, 0x00, 0x00]

  lemma DocumentedWords()
    ensures Checksum.WordSum(DOCUMENTED_BLANK) == 0x2_207A
  {
    hide Checksum.WordSum;
    var b := DOCUMENTED_BLANK;
    var ports: Bytes := [0x1F, 0x90, 0x9C, 0x41];
    FourBytes(0x1F, 0x90, 0x9C, 0x41);
    FourBytes(0x00, 0xC0, 0xFF, 0xEE);
    FourBytes(0x00, 0x00, 0x03, 0xE9);
    FourBytes(0x50, 0x12, 0x10, 0x00);
    FourBytes(0x00, 0x00, 0x00, 0x00);
    assert b == ports + ([0x00, 0xC0, 0xFF, 0xEE] + ([0x00, 0x00, 0x03, 0xE9] + ([0x50, 0x12, 0x10, 0x00] + [0x00, 0x00, 0x00, 0x00])));
    Checksum.WordSumAppend([0x50, 0x12, 0x10, 0x00], [0x00, 0x00, 0x00, 0x00]);
    Checksum.WordSumAppend([0x00, 0x00, 0x03, 0xE9], [0x50, 0x12, 0x10, 0x00] + [0x00, 0x00, 0x00, 0x00]);
    Checksum.WordSumAppend([0x00, 0xC0, 0xFF, 0xEE],
                           [0x00, 0x00, 0x03, 0xE9] + ([0x50, 0x12, 0x10, 0x00] + [0x00, 0x00, 0x00, 0x00]));
    Checksum.WordSumAppend(ports, [0x00, 0xC0, 0xFF, 0xEE]
                                  + ([0x00, 0x00, 0x03, 0xE9] + ([0x50, 0x12, 0x10, 0x00] + [0x00, 0x00, 0x00, 0x00])));
  }

  lemma FourBytes(a: uint8, b: uint8, c: uint8, d: uint8)
    ensures Checksum.WordSum([a, b, c, d]) == (a as int + c) * 0x100 + b + d
  {
    var s: Bytes, t: Bytes := [a, b, c, d], [c, d];
    assert t[2..] == [];
    assert Checksum.WordSum(t) == c as int * 0x100 + d;
    assert s[2..] == t;
  }

  lemma SegmentEventIsRoomy(sport: uint16, port: uint16, seqNo: uint32, ack: uint32, flags: uint8, data: Bytes)
    requires |data| <= 0xFFFF - 40
    ensures var e := SegmentEvent(sport, port, seqNo, ack, flags, data); e.cap == |e.frame|
  {
  }

  lemma InOrderSnoc(s: State, evs: seq<Event>, e: Event)
    ensures var before := Run(s, evs);
            var arrival := Arrival(before, e.frame);
            && (PeerInOrder(s, evs) && (arrival.Some? ==> WellBehaved(before.conn, arrival.value.tcp))
                ==> PeerInOrder(s, evs + [e]))
            && Opening(s, evs + [e]) == if arrival.Some? && Opens(before.conn, arrival.value.tcp) then arrival
                                        else Opening(s, evs)
  {
    hide Step, Arrival, WellBehaved, Opens;
    assert Front(evs + [e]) == evs;
  }

  lemma HandshakeIsInOrder(sport: uint16, port: uint16, isn: uint32)
    ensures var s0, evs := Init(STACK_MAC, STACK_ADDR, port), Upload(sport, port, isn, []);
            PeerInOrder(s0, evs) && Opening(s0, evs).Some? && Opening(s0, evs).value.tcp.seqNo == isn
  {
    hide Step, Decode, SegmentEvent, TcpFrame, Tcp.Has, Add32;
    var s0 := Init(STACK_MAC, STACK_ADDR, port);
    var syn := SegmentEvent(sport, port, isn, 0, SYN, []);
    var ack := SegmentEvent(sport, port, Add32(isn, 1), Add32(ISS, 1), ACK, []);
    Flags();
    RunSnoc(s0, [], syn);
    SendSteps(s0, sport, port, isn, 0, SYN, []);
    SendSteps(Run(s0, [syn]), sport, port, Add32(isn, 1), Add32(ISS, 1), ACK, []);
    InOrderSnoc(s0, [], syn);
    assert [] + [syn] == [syn] && [syn] + [ack] == [syn, ack];
    InOrderSnoc(s0, [syn], ack);
  }

  /** The session is one of an in-order peer, so that hypothesis of `InOrder` is met by
      uploads of any length, however often the sequence numbers wrap. */
  lemma {:induction false} UploadIsInOrder(sport: uint16, port: uint16, isn: uint32, chunks: seq<Bytes>)
    requires Sendable(chunks)
    ensures var s0, evs := Init(STACK_MAC, STACK_ADDR, port), Upload(sport, port, isn, chunks);
            PeerInOrder(s0, evs) && Opening(s0, evs).Some? && Opening(s0, evs).value.tcp.seqNo == isn
    decreases |chunks|
  {
    hide Step, Decode, SegmentEvent, TcpFrame, Tcp.Has, Add32, PeerInOrder, Opening;
    if chunks == [] {
      HandshakeIsInOrder(sport, port, isn);
    } else {
      var s0 := Init(STACK_MAC, STACK_ADDR, port);
      var before := Upload(sport, port, isn, Front(chunks));
      var seqNo := Add32(isn, 1 + |Concat(Front(chunks))|);
      var e := SegmentEvent(sport, port, seqNo, Add32(ISS, 1), PSH + ACK, Last(chunks));
      UploadIsInOrder(sport, port, isn, Front(chunks));
      UploadIsAccepted(sport, port, isn, Front(chunks));
      ReceiverFollowsPeer(STACK_MAC, STACK_ADDR, port, before);
      Flags();
      SendSteps(Run(s0, before), sport, port, seqNo, Add32(ISS, 1), PSH + ACK, Last(chunks));
      InOrderSnoc(s0, before, e);
    }
  }

  /** So is the whole session, and at its end the stack expects the octet after the FIN. */
  lemma WholeSessionIsInOrder(sport: uint16, port: uint16, isn: uint32, chunks: seq<Bytes>)
    requires Sendable(chunks)
    ensures var s0, evs := Init(STACK_MAC, STACK_ADDR, port), WholeSession(sport, port, isn, chunks);
            PeerInOrder(s0, evs) && Run(s0, evs).conn.rcvNxt == Add32(isn, 2 + |Concat(chunks)|)
  {
    hide Step, Decode, SegmentEvent, TcpFrame, Tcp.Has, Add32, Concat, Upload, PeerInOrder, Opening;
    var s0 := Init(STACK_MAC, STACK_ADDR, port);
    var end := Add32(isn, 1 + |Concat(chunks)|);
    var up := Upload(sport, port, isn, chunks);
    var fin := SegmentEvent(sport, port, end, Add32(ISS, 1), FIN + ACK, []);
    var ack := SegmentEvent(sport, port, Add32(end, 1), Add32(ISS, 2), ACK, []);
    UploadIsAccepted(sport, port, isn, chunks);
    UploadIsInOrder(sport, port, isn, chunks);
    ReceiverFollowsPeer(STACK_MAC, STACK_ADDR, port, up);
    Flags();
    RunSnoc(s0, up, fin);
    SendSteps(Run(s0, up), sport, port, end, Add32(ISS, 1), FIN + ACK, []);
    InOrderSnoc(s0, up, fin);
    SendSteps(Run(s0, up + [fin]), sport, port, Add32(end, 1), Add32(ISS, 2), ACK, []);
    RunSnoc(s0, up + [fin], ack);
    InOrderSnoc(s0, up + [fin], ack);
    Add32Assoc(isn, 1 + |Concat(chunks)|, 1);
  }

  /** The sample's segment for the closed port 9999 is such a stray segment: delivered between
      two stacks it sets off the endless volley of `ResetVolleyNeverEnds`. */
  lemma SampleSegmentIsStray(port: uint16, port': uint16)
    requires port != 9999 && port' != 40002
    ensures Stray(Init(STACK_MAC, STACK_ADDR, port), Init(CLIENT_MAC, CLIENT_ADDR, port'),
                  TcpFrame(40002, 9999, 500, 0, SYN, [], 0x2005))
  {
    hide Decode, TcpFrame;
    GeneratedTcpDecodes(40002, 9999, 500, 0, SYN, [], 0x2005);
  }

  /** A generated ping is answered with the same identifier, sequence number and data. */
  lemma PingIsAnswered(s: State, ident: uint16, seqNo: uint16, data: Bytes, cap: nat)
    requires s.mac == STACK_MAC && s.ip == STACK_ADDR
    requires |data| <= 0xFFFF - 28 && 0x1000 + seqNo <= 0xFFFF && cap >= |IcmpEcho(ident, seqNo, data)|
    ensures var answer := Decode(Step(s, IcmpEcho(ident, seqNo, data), cap).reply);
            && answer.Some? && answer.value.EchoPacket? && answer.value.dst == CLIENT_MAC
            && answer.value.ip.src == STACK_ADDR && answer.value.ip.dst == CLIENT_ADDR
            && answer.value.echo.kind == Icmp.ECHO_REPLY
            && answer.value.echo.id == ident && answer.value.echo.seqNo == seqNo && answer.value.echo.payload == data
  {
    hide Decode, Step, IcmpEcho;
    GeneratedEchoDecodes(ident, seqNo, data);
    RepliesExactlyWhenWanted(s, IcmpEcho(ident, seqNo, data), cap);
    ReplyIsValid(s, IcmpEcho(ident, seqNo, data), cap);
  }

  /** The generated ARP request is answered with the stack's own addresses. */
  lemma ArpIsAnswered(s: State, cap: nat)
    requires s.ip == STACK_ADDR && cap >= |ArpRequest()|
    ensures var answer := Decode(Step(s, ArpRequest(), cap).reply);
            && answer.Some? && answer.value.ArpPacket? && answer.value.dst == CLIENT_MAC
            && answer.value.arp.opcode == Arp.OP_REPLY
            && answer.value.arp.senderMac == s.mac && answer.value.arp.senderIp == STACK_ADDR
            && answer.value.arp.targetMac == CLIENT_MAC && answer.value.arp.targetIp == CLIENT_ADDR
  {
    hide Decode, Step, ArpRequest;
    GeneratedArpDecodes();
    RepliesExactlyWhenWanted(s, ArpRequest(), cap);
    ReplyIsValid(s, ArpRequest(), cap);
  }
}
