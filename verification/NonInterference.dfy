/** What a TCP peer observes does not depend on other traffic: ARP, ICMP, segments for
    closed ports, malformed and foreign frames (src/gcs_stack.c:214-222, 311-390). */
module NonInterference {
  import opened Types
  import opened Decoder
  import opened Responder
  import opened Replies
  import opened Runs
  import opened Stream
  import Ethernet
  import Ipv4
  import Tcp

  predicate Relevant(mac: Mac, port: uint16, frame: Bytes) {
    LocalSegment(mac, port, frame).Some?
  }

  /** The trace with every irrelevant frame deleted. */
  function Relevants(mac: Mac, port: uint16, evs: seq<Event>): seq<Event>
    decreases |evs|
  {
    if evs == [] then []
    else
      var rest := Relevants(mac, port, Front(evs));
      if Relevant(mac, port, Last(evs).frame) then rest + [Last(evs)] else rest
  }

  /** What the relevant frames brought about: the connection after each, and the reply. */
  datatype Observation = Observation(conn: Conn, reply: Bytes)

  function Observed(s: State, evs: seq<Event>): seq<Observation>
    decreases |evs|
  {
    if evs == [] then []
    else
      var before, rest := Run(s, Front(evs)), Observed(s, Front(evs));
      var o := Step(before, Last(evs).frame, Last(evs).cap);
      if Relevant(s.mac, s.conn.localPort, Last(evs).frame) then rest + [Observation(o.state.conn, o.reply)] else rest
  }

  /** Two replies agree except in the IP identification and the IP header checksum. */
  predicate SameButId(a: Bytes, b: Bytes) {
    |a| == |b| && forall i :: 0 <= i < |a| && i !in {18, 19, 24, 25} ==> a[i] == b[i]
  }

  predicate SameButIds(a: seq<Observation>, b: seq<Observation>) {
    |a| == |b| && forall k :: 0 <= k < |a| ==> a[k].conn == b[k].conn && SameButId(a[k].reply, b[k].reply)
  }

  predicate Twins(s: State, t: State) {
    s == t.(ipId := s.ipId)
  }

  lemma HeadersDifferInId(src: uint32, dst: uint32, protocol: uint8, len: uint16, id: uint16, id': uint16)
    ensures var h, h' := Ipv4.Print(src, dst, protocol, len, id, 64), Ipv4.Print(src, dst, protocol, len, id', 64);
            forall i :: 0 <= i < 20 && i !in {4, 5, 10, 11} ==> h[i] == h'[i]
  {
  }

  lemma TwinsEmitAlike(s: State, t: State, to: Mac, ip: Ipv4.Header, tcp: Tcp.Header, send: Send, cap: nat)
    requires Twins(s, t)
    ensures var a, b := EmitTcp(s, to, ip, tcp, send, cap), EmitTcp(t, to, ip, tcp, send, cap);
            Twins(a.state, b.state) && SameButId(a.reply, b.reply)
  {
    hide Tcp.Print, Ipv4.Print, Ethernet.Header;
    var n := (Tcp.MIN_HEADER_LEN + |send.payload|) % 0x1_0000;
    HeadersDifferInId(s.ip, ip.src, Ipv4.PROTO_TCP, n, s.ipId, t.ipId);
  }

  lemma RelevantStep(s: State, t: State, frame: Bytes, cap: nat)
    requires Twins(s, t) && Relevant(s.mac, s.conn.localPort, frame)
    ensures var a, b := Step(s, frame, cap), Step(t, frame, cap);
            Twins(a.state, b.state) && SameButId(a.reply, b.reply)
  {
    hide Decode, Decide, EmitTcp;
    var p := Decode(frame).value;
    var (conn, send) := Decide(s.conn, p.ip.src, p.tcp);
    if send.Some? {
      TwinsEmitAlike(s.(conn := conn), t.(conn := conn), p.src, p.ip, p.tcp, send.value, cap);
    }
  }

  lemma IrrelevantStep(s: State, frame: Bytes, cap: nat)
    requires !Relevant(s.mac, s.conn.localPort, frame)
    ensures Twins(Step(s, frame, cap).state, s)
  {
    hide Decode, Ipv4Frame, Tcp.Print;
  }

  lemma {:induction false} AddressesStay(s: State, evs: seq<Event>)
    ensures var t := Run(s, evs); t.mac == s.mac && t.ip == s.ip && t.conn.localPort == s.conn.localPort
    decreases |evs|
  {
    hide Step, Decode;
    if evs != [] {
      AddressesStay(s, Front(evs));
      StepOnConnection(Run(s, Front(evs)), Last(evs).frame, Last(evs).cap);
    }
  }

  /** Deleting all irrelevant frames from a run changes neither the final state, nor the
      connection after any relevant frame, nor any byte of a reply to one, except the IP
      identification and the IP header checksum that covers it. */
  lemma {:induction false} OtherTrafficDoesNotInterfere(s: State, t: State, evs: seq<Event>)
    requires Twins(s, t)
    ensures var kept := Relevants(s.mac, s.conn.localPort, evs);
            && Twins(Run(s, evs), Run(t, kept))
            && SameButIds(Observed(s, evs), Observed(t, kept))
    decreases |evs|
  {
    hide Step, Relevant, SameButId;
    if evs != [] {
      var before, event := Run(s, Front(evs)), Last(evs);
      var rest := Relevants(s.mac, s.conn.localPort, Front(evs));
      OtherTrafficDoesNotInterfere(s, t, Front(evs));
      AddressesStay(s, Front(evs));
      if Relevant(s.mac, s.conn.localPort, event.frame) {
        assert Front(rest + [event]) == rest;
        RelevantStep(before, Run(t, rest), event.frame, event.cap);
      } else {
        IrrelevantStep(before, event.frame, event.cap);
      }
    }
  }

  // ---- The run as the automaton sees it ----

  function SegmentIn(mac: Mac, port: uint16, frame: Bytes): seq<Segment> {
    match LocalSegment(mac, port, frame)
    case None => []
    case Some(a) => [a]
  }

  /** The accepted segments for the listening port, in order, stripped of their frames. */
  function Segments(mac: Mac, port: uint16, evs: seq<Event>): seq<Segment>
    decreases |evs|
  {
    if evs == [] then [] else Segments(mac, port, Front(evs)) + SegmentIn(mac, port, Last(evs).frame)
  }

  function DecideAll(c: Conn, segments: seq<Segment>): Conn
    decreases |segments|
  {
    if segments == [] then c
    else Decide(DecideAll(c, Front(segments)), Last(segments).srcIp, Last(segments).tcp).0
  }

  function Taken(c: Conn, segments: seq<Segment>): Bytes
    decreases |segments|
  {
    if segments == [] then []
    else Taken(c, Front(segments)) + TakenBy(DecideAll(c, Front(segments)), Last(segments).tcp)
  }

  /** Over every run the connection and the accepted stream are those of the bare automaton
      fed with the segments: Ethernet addresses, IP headers, padding, buffer sizes and all
      other traffic have no influence. */
  lemma {:induction false} RunIsAutomaton(s: State, evs: seq<Event>)
    ensures var segments := Segments(s.mac, s.conn.localPort, evs);
            && Run(s, evs).conn == DecideAll(s.conn, segments)
            && Accepted(s, evs) == Taken(s.conn, segments)
    decreases |evs|
  {
    hide Step, Decide, LocalSegment, TakenBy;
    if evs != [] {
      var before, event := Run(s, Front(evs)), Last(evs);
      var rest := Segments(s.mac, s.conn.localPort, Front(evs));
      RunIsAutomaton(s, Front(evs));
      AddressesStay(s, Front(evs));
      StepOnConnection(before, event.frame, event.cap);
      match LocalSegment(s.mac, s.conn.localPort, event.frame)
      case None =>
        assert Segments(s.mac, s.conn.localPort, evs) == rest;
      case Some(a) =>
        assert Segments(s.mac, s.conn.localPort, evs) == rest + [a];
        assert Front(rest + [a]) == rest;
    }
  }
}
