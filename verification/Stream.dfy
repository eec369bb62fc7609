/** What the echo service does to the byte stream over a whole run
    (src/gcs_stack.c:258-289). */
module Stream {
  import opened Types
  import opened Decoder
  import opened Responder
  import opened Replies
  import opened Runs
  import Tcp

  /** The data a frame adds to the stream: the payload of a segment for the listening
      port without FIN that finds the connection established. */
  function AcceptedBy(s: State, frame: Bytes): Bytes {
    match Arrival(s, frame)
    case None => []
    case Some(a) => TakenBy(s.conn, a.tcp)
  }

  function TakenBy(c: Conn, tcp: Tcp.Header): Bytes {
    if c.state == Established && !Tcp.Has(tcp.flags, Tcp.FIN) then tcp.payload else []
  }

  function Accepted(s: State, evs: seq<Event>): Bytes
    decreases |evs|
  {
    if evs == [] then [] else Accepted(s, Front(evs)) + AcceptedBy(Run(s, Front(evs)), Last(evs).frame)
  }

  /** The TCP data that a receiver reads in one reply frame. */
  function WireData(reply: Bytes): Bytes {
    match Decode(reply)
    case Some(TcpPacket(_, _, _, tcp)) => tcp.payload
    case _ => []
  }

  function WireStream(replies: seq<Bytes>): Bytes
    decreases |replies|
  {
    if replies == [] then [] else WireStream(Front(replies)) + WireData(Last(replies))
  }

  lemma WireStreamSnoc(replies: seq<Bytes>, reply: Bytes)
    ensures WireStream(replies + [reply]) == WireStream(replies) + WireData(reply)
  {
  }

  /** The reply carries the data that the frame added, if the buffer has room for it. */
  lemma StepEchoes(s: State, frame: Bytes, cap: nat)
    ensures WireData(Step(s, frame, cap).reply)
            == if cap >= 54 + |AcceptedBy(s, frame)| then AcceptedBy(s, frame) else []
    ensures AcceptedBy(s, frame) != [] ==> 54 + |AcceptedBy(s, frame)| <= |frame|
  {
    hide Decode, Step, Decide;
    DecodeNothing();
    RepliesExactlyWhenWanted(s, frame, cap);
    if Step(s, frame, cap).reply != [] {
      ReplyIsValid(s, frame, cap);
      match Decode(frame).value
      case ArpPacket(_, _, _) =>
      case EchoPacket(_, _, _, _) =>
      case TcpPacket(_, _, ip, tcp) => SentData(s.conn, ip.src, tcp);
    }
  }

  lemma SentData(c: Conn, srcIp: uint32, tcp: Tcp.Header)
    ensures var send := Decide(c, srcIp, tcp).1;
            send.Some? ==>
              send.value.payload == if tcp.dstPort == c.localPort then TakenBy(c, tcp) else []
  {
  }

  /** Each reply buffer has room for the data that its frame adds. */
  predicate DataFits(s: State, evs: seq<Event>)
    decreases |evs|
  {
    evs == [] ||
    (DataFits(s, Front(evs)) &&
     var data := AcceptedBy(Run(s, Front(evs)), Last(evs).frame);
     data != [] ==> Last(evs).cap >= 54 + |data|)
  }

  /** Conservation: over every run, what a receiver reads in all replies together is
      the data of the accepted segments, in order, nothing lost or doubled, exactly if
      each data reply had room; a suppressed reply is never made up for. */
  lemma {:induction false} EchoConservation(s: State, evs: seq<Event>)
    ensures WireStream(RepliesOf(s, evs)) == Accepted(s, evs) <==> DataFits(s, evs)
    ensures |WireStream(RepliesOf(s, evs))| <= |Accepted(s, evs)|
    ensures !DataFits(s, evs) ==> |WireStream(RepliesOf(s, evs))| < |Accepted(s, evs)|
    decreases |evs|
  {
    hide Step, WireData, AcceptedBy;
    if evs != [] {
      var before, event := Run(s, Front(evs)), Last(evs);
      EchoConservation(s, Front(evs));
      StepEchoes(before, event.frame, event.cap);
      WireStreamSnoc(RepliesOf(s, Front(evs)), Step(before, event.frame, event.cap).reply);
    }
  }

  /** Buffers as large as the frames they answer are large enough. */
  lemma {:induction false} RoomyDataFits(s: State, evs: seq<Event>)
    requires Roomy(evs)
    ensures DataFits(s, evs)
    decreases |evs|
  {
    hide Step, AcceptedBy;
    if evs != [] {
      RoomyDataFits(s, Front(evs));
      StepEchoes(Run(s, Front(evs)), Last(evs).frame, Last(evs).cap);
    }
  }

  // ---- What was offered ----

  /** The data that a peer puts into its segments for the listening port, whatever becomes of it. */
  function OfferedBy(s: State, frame: Bytes): Bytes {
    match Arrival(s, frame)
    case None => []
    case Some(a) => a.tcp.payload
  }

  function Offered(s: State, evs: seq<Event>): Bytes
    decreases |evs|
  {
    if evs == [] then [] else Offered(s, Front(evs)) + OfferedBy(Run(s, Front(evs)), Last(evs).frame)
  }

  /** Data comes neither before the connection is established, nor on the FIN, nor after it. */
  predicate InTime(s: State, frame: Bytes) {
    match Arrival(s, frame)
    case None => true
    case Some(a) => a.tcp.payload != [] ==> s.conn.state == Established && !Tcp.Has(a.tcp.flags, Tcp.FIN)
  }

  predicate Timely(s: State, evs: seq<Event>)
    decreases |evs|
  {
    evs == [] || (Timely(s, Front(evs)) && InTime(Run(s, Front(evs)), Last(evs).frame))
  }

  /** The code takes the data offered exactly if all of it comes in time, else strictly less. */
  lemma {:induction false} TakesTimelyData(s: State, evs: seq<Event>)
    ensures if Timely(s, evs) then Accepted(s, evs) == Offered(s, evs)
            else |Accepted(s, evs)| < |Offered(s, evs)|
    decreases |evs|
  {
    hide Step, Arrival;
    if evs != [] {
      TakesTimelyData(s, Front(evs));
    }
  }

  /** The echo service: over every run, what a receiver reads in all replies is what the
      peers offered, in order, if and only if all data came in time and found room for
      its reply. Otherwise some is lost for good. */
  lemma OfferedIsEchoedIff(s: State, evs: seq<Event>)
    ensures WireStream(RepliesOf(s, evs)) == Offered(s, evs) <==> DataFits(s, evs) && Timely(s, evs)
    ensures !(DataFits(s, evs) && Timely(s, evs)) ==> |WireStream(RepliesOf(s, evs))| < |Offered(s, evs)|
  {
    hide RepliesOf, WireStream, Accepted, Offered, DataFits, Timely;
    EchoConservation(s, evs);
    TakesTimelyData(s, evs);
  }

  // ---- Counting ----

  lemma StepCounts(s: State, frame: Bytes, cap: nat)
    ensures Step(s, frame, cap).state.conn.bytesReceived
            == (s.conn.bytesReceived + |AcceptedBy(s, frame)|) % 0x1_0000_0000_0000_0000
  {
    hide Step, Decode;
    StepOnConnection(s, frame, cap);
  }

  /** The byte counter is the length of the accepted stream modulo 2^64, whether or not
      the replies found room. */
  lemma {:induction false} BytesAreCounted(s: State, evs: seq<Event>)
    ensures Run(s, evs).conn.bytesReceived
            == (s.conn.bytesReceived + |Accepted(s, evs)|) % 0x1_0000_0000_0000_0000
    decreases |evs|
  {
    hide Step, AcceptedBy;
    if evs != [] {
      var before, event := Run(s, Front(evs)), Last(evs);
      BytesAreCounted(s, Front(evs));
      StepCounts(before, event.frame, event.cap);
      AddModulo64(s.conn.bytesReceived + |Accepted(s, Front(evs))|, |AcceptedBy(before, event.frame)|);
    }
  }

  lemma AddModulo64(a: nat, b: nat)
    ensures (a % 0x1_0000_0000_0000_0000 + b) % 0x1_0000_0000_0000_0000 == (a + b) % 0x1_0000_0000_0000_0000
  {
  }

  lemma CountModulo32(base: uint32, n: nat)
    ensures Add32(base, 1 + n % 0x1_0000_0000_0000_0000) == Add32(base, 1 + n)
  {
  }

  // ---- Sequence numbers on the wire ----

  lemma DecideSequence(s: State, mac: Mac, ip: uint32, port: uint16, a: Segment)
    requires Reachable(s, mac, ip, port) && a.tcp.dstPort == port
    ensures var send := Decide(s.conn, a.srcIp, a.tcp).1;
            send.Some? ==> send.value.seqNo == if s.conn.state == Listen then ISS else Add32(ISS, 1 + s.conn.bytesReceived)
  {
  }

  /** Every reply to the peer starts where the accepted stream ends: the SYN at the initial
      sequence number, and each data segment and the FIN at iss + 1 plus the number of bytes
      accepted before, modulo 2^32, whether or not those were echoed. */
  lemma RepliesStartAfterAccepted(mac: Mac, ip: uint32, port: uint16, evs: seq<Event>, i: nat)
    requires i < |evs|
    ensures var s0 := Init(mac, ip, port);
            var s, reply := Run(s0, evs[..i]), RepliesOf(s0, evs)[i];
            Arrival(s, evs[i].frame).Some? && reply != [] ==>
              && Decode(reply).Some? && Decode(reply).value.TcpPacket?
              && var tcp := Decode(reply).value.tcp;
                 && tcp.payload == AcceptedBy(s, evs[i].frame)
                 && tcp.seqNo == if s.conn.state == Listen then ISS
                                 else Add32(ISS, 1 + |Accepted(s0, evs[..i])|)
  {
    hide Step, Decide, Decode, Add32;
    var s0 := Init(mac, ip, port);
    var s := Run(s0, evs[..i]);
    var arrival := Arrival(s, evs[i].frame);
    ReplyAt(s0, evs, i);
    if arrival.Some? && RepliesOf(s0, evs)[i] != [] {
      ReplyIsValid(s, evs[i].frame, evs[i].cap);
      InvariantHolds(mac, ip, port, evs[..i]);
      DecideSequence(s, mac, ip, port, arrival.value);
      SentData(s.conn, arrival.value.srcIp, arrival.value.tcp);
      BytesAreCounted(s0, evs[..i]);
      CountModulo32(ISS, |Accepted(s0, evs[..i])|);
    }
  }

  /** On the wire: each reply outside LISTEN starts at iss + 1 plus the number of bytes that a
      receiver has read in the replies before it, so that data and FIN tile the sequence space
      without gap or overlap, if every earlier data reply had room; in general exactly if the
      bytes that were suppressed are a multiple of 2^32. */
  lemma RepliesTileSequenceSpace(mac: Mac, ip: uint32, port: uint16, evs: seq<Event>, i: nat)
    requires i < |evs|
    ensures var s0 := Init(mac, ip, port);
            var s, reply, past := Run(s0, evs[..i]), RepliesOf(s0, evs)[i], RepliesOf(s0, evs[..i]);
            var suppressed := |Accepted(s0, evs[..i])| - |WireStream(past)|;
            Arrival(s, evs[i].frame).Some? && reply != [] && s.conn.state != Listen ==>
              && Decode(reply).Some? && Decode(reply).value.TcpPacket?
              && (Decode(reply).value.tcp.seqNo == Add32(ISS, 1 + |WireStream(past)|)
                  <==> suppressed % 0x1_0000_0000 == 0)
              && (DataFits(s0, evs[..i]) ==> suppressed == 0)
  {
    hide Step, Run, RepliesOf, WireStream, Accepted, DataFits, Arrival, Decode, Add32, Init;
    var s0 := Init(mac, ip, port);
    RepliesStartAfterAccepted(mac, ip, port, evs, i);
    EchoConservation(s0, evs[..i]);
    SameOffsetIff(ISS, |Accepted(s0, evs[..i])|, |WireStream(RepliesOf(s0, evs[..i]))|);
  }

  lemma SameOffsetIff(base: uint32, a: nat, b: nat)
    ensures Add32(base, 1 + a) == Add32(base, 1 + b) <==> (a - b) % 0x1_0000_0000 == 0
  {
    var (m, p, q) := (0x1_0000_0000, (base + 1 + a) / 0x1_0000_0000, (base + 1 + b) / 0x1_0000_0000);
    assert base + 1 + a == m * p + Add32(base, 1 + a) && base + 1 + b == m * q + Add32(base, 1 + b);
    if Add32(base, 1 + a) == Add32(base, 1 + b) {
      assert a - b == m * (p - q);
    }
    if (a - b) % m == 0 {
      SameResidue(base + 1 + a, base + 1 + b, (a - b) / m);
    }
  }
}
