/** The closed loop with a peer whose segments arrive in order: the code performs no
    acceptability test (src/gcs_stack.c:224-300), so order is the peer's obligation. */
module InOrder {
  import opened Types
  import opened Decoder
  import opened Responder
  import opened Replies
  import opened Runs
  import opened Stream
  import Tcp

  /** The acknowledgment number names the octet after the segment, as RFC 793, section
      3.3, requires. For a segment to the listening port the code gets this right in
      exactly these cases. */
  predicate AckableIn(c: Conn, tcp: Tcp.Header) {
    match c.state
    case Listen => tcp.payload == [] && !Tcp.Has(tcp.flags, Tcp.FIN)
    case Established => !Tcp.Has(tcp.flags, Tcp.SYN) && (Tcp.Has(tcp.flags, Tcp.FIN) ==> tcp.payload == [])
    case _ => true
  }

  lemma AckIsStandardIff(c: Conn, srcIp: uint32, tcp: Tcp.Header)
    requires tcp.dstPort == c.localPort && |tcp.payload| <= 0xFFFF
    requires Decide(c, srcIp, tcp).1.Some?
    ensures Decide(c, srcIp, tcp).1.value.ackNo == Add32(tcp.seqNo, SegLen(tcp)) <==> AckableIn(c, tcp)
    ensures Decide(c, srcIp, tcp).1.value.ackNo == Decide(c, srcIp, tcp).0.rcvNxt
  {
    hide Add32, Tcp.Has;
    assert Tcp.Has(tcp.flags, Tcp.FIN) || !Tcp.Has(tcp.flags, Tcp.FIN);
    Add32Injective(tcp.seqNo, 1, SegLen(tcp));
    Add32Injective(tcp.seqNo, |tcp.payload|, SegLen(tcp));
  }

  /** What an in-order peer may send in each state: it starts at the octet that is
      expected, its SYN, handshake ACK and FIN carry no data, and it is silent but for
      acknowledgments after its FIN. */
  predicate WellBehaved(c: Conn, tcp: Tcp.Header) {
    match c.state
    case Listen => Tcp.Has(tcp.flags, Tcp.SYN) ==> tcp.payload == [] && !Tcp.Has(tcp.flags, Tcp.FIN)
    case SynReceived => tcp.seqNo == c.rcvNxt && SegLen(tcp) == 0
    case Established =>
      && tcp.seqNo == c.rcvNxt && !Tcp.Has(tcp.flags, Tcp.SYN)
      && (Tcp.Has(tcp.flags, Tcp.FIN) ==> tcp.payload == [])
    case _ => SegLen(tcp) == 0
  }

  predicate PeerInOrder(s: State, evs: seq<Event>)
    decreases |evs|
  {
    evs == [] ||
    (PeerInOrder(s, Front(evs)) &&
     var before := Run(s, Front(evs));
     var arrival := Arrival(before, Last(evs).frame);
     arrival.Some? ==> WellBehaved(before.conn, arrival.value.tcp))
  }

  /** A segment that finds the connection listening counts only if it opens it. */
  predicate Opens(c: Conn, tcp: Tcp.Header) {
    c.state == Listen && Tcp.Has(tcp.flags, Tcp.SYN)
  }

  function SpaceUsed(s: State, frame: Bytes): nat {
    match Arrival(s, frame)
    case Some(a) => if s.conn.state != Listen || Opens(s.conn, a.tcp) then SegLen(a.tcp) else 0
    case None => 0
  }

  /** The peer's own count of the sequence numbers it has used. */
  function Sent(s: State, evs: seq<Event>): nat
    decreases |evs|
  {
    if evs == [] then 0 else Sent(s, Front(evs)) + SpaceUsed(Run(s, Front(evs)), Last(evs).frame)
  }

  /** The SYN segment that opened the connection. */
  function Opening(s: State, evs: seq<Event>): Option<Segment>
    decreases |evs|
  {
    if evs == [] then None
    else
      var before := Run(s, Front(evs));
      match Arrival(before, Last(evs).frame)
      case Some(a) => if Opens(before.conn, a.tcp) then Some(a) else Opening(s, Front(evs))
      case None => Opening(s, Front(evs))
  }

  // ---- The stack's count of the bytes taken ----

  function FinTaken(c: Conn): nat {
    if c.state == LastAck || c.state == Closed then 1 else 0
  }

  /** The next expected octet is irs + 1, plus the bytes of data, plus one once the FIN is taken. */
  predicate ExpectsNext(c: Conn, opening: Option<Segment>, data: nat) {
    c.state != Listen ==>
      opening.Some? && c.rcvNxt == Add32(opening.value.tcp.seqNo, 1 + data + FinTaken(c))
  }

  /** That is so after every prefix of the run. */
  predicate InSync(s: State, evs: seq<Event>)
    decreases |evs|
  {
    && (evs == [] || InSync(s, Front(evs)))
    && ExpectsNext(Run(s, evs).conn, Opening(s, evs), |Accepted(s, evs)|)
  }

  /** A segment that an established connection acts on begins at the octet that is expected.
      Nothing is asked of any other segment. */
  predicate StartsAtNext(c: Conn, tcp: Tcp.Header) {
    c.state == Established && (Tcp.Has(tcp.flags, Tcp.FIN) || tcp.payload != []) ==> tcp.seqNo == c.rcvNxt
  }

  predicate AllStartAtNext(s: State, evs: seq<Event>)
    decreases |evs|
  {
    evs == [] ||
    (AllStartAtNext(s, Front(evs)) &&
     var before := Run(s, Front(evs));
     var arrival := Arrival(before, Last(evs).frame);
     arrival.Some? ==> StartsAtNext(before.conn, arrival.value.tcp))
  }

  lemma Add32Cancels(x: uint32, y: uint32, n: nat)
    ensures Add32(x, n) == Add32(y, n) <==> x == y
  {
    var (m, p, q) := (0x1_0000_0000, (x + n) / 0x1_0000_0000, (y + n) / 0x1_0000_0000);
    assert x + n == m * p + Add32(x, n) && y + n == m * q + Add32(y, n);
  }

  lemma DecideKeepsSyncIff(c: Conn, a: Segment, opening: Option<Segment>, data: nat)
    requires c.state != CloseWait && a.tcp.dstPort == c.localPort && |a.tcp.payload| <= 0xFFFF
    requires ExpectsNext(c, opening, data) && (c.state == Listen ==> data == 0)
    ensures ExpectsNext(Decide(c, a.srcIp, a.tcp).0, if Opens(c, a.tcp) then Some(a) else opening,
                        data + |TakenBy(c, a.tcp)|)
            <==> StartsAtNext(c, a.tcp)
  {
    hide Add32, Tcp.Has;
    if c.state == Established {
      var n := if Tcp.Has(a.tcp.flags, Tcp.FIN) then 1 else |a.tcp.payload|;
      Add32Assoc(opening.value.tcp.seqNo, 1 + data, n);
      Add32Cancels(a.tcp.seqNo, c.rcvNxt, n);
    }
  }

  /** Nothing is accepted while the connection listens. */
  lemma {:induction false} ListeningAcceptsNothing(mac: Mac, ip: uint32, port: uint16, evs: seq<Event>)
    ensures Run(Init(mac, ip, port), evs).conn.state == Listen ==> Accepted(Init(mac, ip, port), evs) == []
    decreases |evs|
  {
    hide Step, Decode, Decide;
    if evs != [] {
      var before, event := Run(Init(mac, ip, port), Front(evs)), Last(evs);
      ListeningAcceptsNothing(mac, ip, port, Front(evs));
      InvariantHolds(mac, ip, port, Front(evs));
      RankStep(before, event.frame, event.cap);
    }
  }

  /** The exact condition for the bytes taken: over every run, across any wraparound, rcv_nxt
      agrees with them after every prefix if and only if each segment that an established
      connection acts on begins at the expected octet. Data on the SYN, the handshake ACK or the FIN
      does not matter for this. */
  lemma {:induction false} InSyncIff(mac: Mac, ip: uint32, port: uint16, evs: seq<Event>)
    ensures InSync(Init(mac, ip, port), evs) <==> AllStartAtNext(Init(mac, ip, port), evs)
    decreases |evs|
  {
    hide Step, StartsAtNext, ExpectsNext, Arrival, AcceptedBy, Opens, Init;
    var s0 := Init(mac, ip, port);
    if evs == [] {
      ListeningExpects(mac, ip, port);
    } else {
      var before, event := Run(s0, Front(evs)), Last(evs);
      InSyncIff(mac, ip, port, Front(evs));
      InvariantHolds(mac, ip, port, Front(evs));
      ListeningAcceptsNothing(mac, ip, port, Front(evs));
      if InSync(s0, Front(evs)) {
        StepKeepsSyncIff(before, event.frame, event.cap, Opening(s0, Front(evs)), |Accepted(s0, Front(evs))|);
      }
    }
  }

  lemma StepKeepsSyncIff(s: State, frame: Bytes, cap: nat, opening: Option<Segment>, data: nat)
    requires s.conn.state != CloseWait && (s.conn.state == Listen ==> data == 0)
    requires ExpectsNext(s.conn, opening, data)
    ensures var arrival := Arrival(s, frame);
            ExpectsNext(Step(s, frame, cap).state.conn,
                        if arrival.Some? && Opens(s.conn, arrival.value.tcp) then arrival else opening,
                        data + |AcceptedBy(s, frame)|)
            <==> (arrival.Some? ==> StartsAtNext(s.conn, arrival.value.tcp))
  {
    hide Step, Decode, Decide, StartsAtNext, ExpectsNext, Opens;
    StepOnConnection(s, frame, cap);
    if Arrival(s, frame).Some? {
      ArrivalBounds(s, frame);
      DecideKeepsSyncIff(s.conn, Arrival(s, frame).value, opening, data);
    }
  }

  lemma ListeningExpects(mac: Mac, ip: uint32, port: uint16)
    ensures ExpectsNext(Init(mac, ip, port).conn, None, 0)
  {
  }

  lemma ArrivalBounds(s: State, frame: Bytes)
    requires Arrival(s, frame).Some?
    ensures |Arrival(s, frame).value.tcp.payload| <= 0xFFFF
    ensures Arrival(s, frame).value.tcp.dstPort == s.conn.localPort
  {
    hide Decode;
    PayloadBounds(frame);
  }

  // ---- The sender's own count ----

  /** The next expected octet is irs plus what the peer has sent. */
  predicate ExpectsAfter(c: Conn, opening: Option<Segment>, sent: nat) {
    c.state != Listen ==> opening.Some? && c.rcvNxt == Add32(opening.value.tcp.seqNo, sent)
  }

  /** That is so after every prefix of the run. */
  predicate InStep(s: State, evs: seq<Event>)
    decreases |evs|
  {
    && (evs == [] || InStep(s, Front(evs)))
    && ExpectsAfter(Run(s, evs).conn, Opening(s, evs), Sent(s, evs))
  }

  /** The code counts a segment as its sender does. The SYN that opens the connection carries
      neither data nor FIN. An established connection ignores the octets of a SYN or, with a
      FIN, of data, so the segment must start that much late; without data and FIN it ignores
      the segment, which may then take up no sequence number, as in every other state. */
  predicate Follows(c: Conn, tcp: Tcp.Header) {
    match c.state
    case Listen => Tcp.Has(tcp.flags, Tcp.SYN) ==> SegLen(tcp) == 1
    case Established =>
      if Tcp.Has(tcp.flags, Tcp.FIN) then tcp.seqNo == Add32(c.rcvNxt, SegLen(tcp) - 1)
      else if tcp.payload != [] then tcp.seqNo == Add32(c.rcvNxt, SegLen(tcp) - |tcp.payload|)
      else SegLen(tcp) == 0
    case _ => SegLen(tcp) == 0
  }

  predicate AllFollow(s: State, evs: seq<Event>)
    decreases |evs|
  {
    evs == [] ||
    (AllFollow(s, Front(evs)) &&
     var before := Run(s, Front(evs));
     var arrival := Arrival(before, Last(evs).frame);
     arrival.Some? ==> Follows(before.conn, arrival.value.tcp))
  }

  lemma DecideKeepsStepIff(c: Conn, a: Segment, opening: Option<Segment>, sent: nat)
    requires c.state != CloseWait && a.tcp.dstPort == c.localPort && |a.tcp.payload| <= 0xFFFF
    requires ExpectsAfter(c, opening, sent) && (c.state == Listen ==> sent == 0)
    ensures var used := if c.state != Listen || Opens(c, a.tcp) then SegLen(a.tcp) else 0;
            ExpectsAfter(Decide(c, a.srcIp, a.tcp).0, if Opens(c, a.tcp) then Some(a) else opening, sent + used)
            <==> Follows(c, a.tcp)
  {
    hide Add32, Tcp.Has;
    if c.state == Listen {
      Add32Injective(a.tcp.seqNo, 1, SegLen(a.tcp));
    } else {
      var n := SegLen(a.tcp);
      Add32Assoc(opening.value.tcp.seqNo, sent, n);
      if c.state == Established && (Tcp.Has(a.tcp.flags, Tcp.FIN) || a.tcp.payload != []) {
        var taken := if Tcp.Has(a.tcp.flags, Tcp.FIN) then 1 else |a.tcp.payload|;
        Add32Assoc(c.rcvNxt, n - taken, taken);
        Add32Cancels(a.tcp.seqNo, Add32(c.rcvNxt, n - taken), taken);
      } else {
        Add32Zero(c.rcvNxt);
        Add32Injective(c.rcvNxt, 0, n);
      }
    }
  }

  lemma StepKeepsStepIff(s: State, frame: Bytes, cap: nat, opening: Option<Segment>, sent: nat)
    requires s.conn.state != CloseWait && (s.conn.state == Listen ==> sent == 0)
    requires ExpectsAfter(s.conn, opening, sent)
    ensures var arrival := Arrival(s, frame);
            ExpectsAfter(Step(s, frame, cap).state.conn,
                         if arrival.Some? && Opens(s.conn, arrival.value.tcp) then arrival else opening,
                         sent + SpaceUsed(s, frame))
            <==> (arrival.Some? ==> Follows(s.conn, arrival.value.tcp))
  {
    hide Step, Decode, Decide, Follows, ExpectsAfter, Opens, SegLen;
    StepOnConnection(s, frame, cap);
    if Arrival(s, frame).Some? {
      ArrivalBounds(s, frame);
      DecideKeepsStepIff(s.conn, Arrival(s, frame).value, opening, sent);
    }
  }

  /** Nothing is sent on a connection that still listens. */
  lemma {:induction false} ListeningCountsNothing(mac: Mac, ip: uint32, port: uint16, evs: seq<Event>)
    ensures Run(Init(mac, ip, port), evs).conn.state == Listen ==> Sent(Init(mac, ip, port), evs) == 0
    decreases |evs|
  {
    hide Step, Decode, SegLen;
    if evs != [] {
      var before, event := Run(Init(mac, ip, port), Front(evs)), Last(evs);
      ListeningCountsNothing(mac, ip, port, Front(evs));
      InvariantHolds(mac, ip, port, Front(evs));
      RankStep(before, event.frame, event.cap);
      StepOnConnection(before, event.frame, event.cap);
    }
  }

  /** The exact condition for the sender's count: over every run, across any wraparound,
      rcv_nxt is irs plus all sequence numbers that peers have used, after every prefix, if
      and only if the code counts every single segment as its sender does. */
  lemma {:induction false} InStepIff(mac: Mac, ip: uint32, port: uint16, evs: seq<Event>)
    ensures InStep(Init(mac, ip, port), evs) <==> AllFollow(Init(mac, ip, port), evs)
    decreases |evs|
  {
    hide Step, Follows, ExpectsAfter, Arrival, SpaceUsed, Opens, Init;
    var s0 := Init(mac, ip, port);
    if evs == [] {
      ListeningExpectsAfter(mac, ip, port);
    } else {
      var before, event := Run(s0, Front(evs)), Last(evs);
      InStepIff(mac, ip, port, Front(evs));
      InvariantHolds(mac, ip, port, Front(evs));
      ListeningCountsNothing(mac, ip, port, Front(evs));
      if InStep(s0, Front(evs)) {
        StepKeepsStepIff(before, event.frame, event.cap, Opening(s0, Front(evs)), Sent(s0, Front(evs)));
      }
    }
  }

  lemma ListeningExpectsAfter(mac: Mac, ip: uint32, port: uint16)
    ensures ExpectsAfter(Init(mac, ip, port).conn, None, 0)
  {
  }

  // ---- The peer that is served ----

  /** Whatever the peers do, the connection outside LISTEN belongs to the sender of the SYN
      that opened it. */
  lemma {:induction false} RemoteIsOpener(mac: Mac, ip: uint32, port: uint16, evs: seq<Event>)
    ensures var s0 := Init(mac, ip, port);
            var c, opening := Run(s0, evs).conn, Opening(s0, evs);
            && (c.state == Listen <==> opening == None)
            && (opening.Some? ==> c.remoteIp == opening.value.srcIp && c.remotePort == opening.value.tcp.srcPort)
    decreases |evs|
  {
    hide Step, Decode, Add32, Tcp.Has;
    if evs != [] {
      var s0 := Init(mac, ip, port);
      RemoteIsOpener(mac, ip, port, Front(evs));
      InvariantHolds(mac, ip, port, Front(evs));
      StepOnConnection(Run(s0, Front(evs)), Last(evs).frame, Last(evs).cap);
    }
  }

  /** A reply outside LISTEN goes to the recorded peer exactly if the segment it answers came
      from there: the code serves whoever sends, and answers the sender. */
  lemma ReplyGoesToOpenerIff(mac: Mac, ip: uint32, port: uint16, evs: seq<Event>, i: nat)
    requires i < |evs|
    ensures var s0 := Init(mac, ip, port);
            var opening, arrival := Opening(s0, evs[..i]), Arrival(Run(s0, evs[..i]), evs[i].frame);
            var reply := RepliesOf(s0, evs)[i];
            opening.Some? && arrival.Some? && reply != [] ==>
              && Decode(reply).Some? && Decode(reply).value.TcpPacket?
              && var q := Decode(reply).value;
                 (q.ip.dst == opening.value.srcIp && q.tcp.dstPort == opening.value.tcp.srcPort
                  <==> arrival.value.srcIp == opening.value.srcIp
                       && arrival.value.tcp.srcPort == opening.value.tcp.srcPort)
  {
    hide Step, Run, Opening, Decide, Decode;
    var s0 := Init(mac, ip, port);
    ReplyAt(s0, evs, i);
    ReplyIsValid(Run(s0, evs[..i]), evs[i].frame, evs[i].cap);
  }

  // ---- A well-behaved peer ----

  lemma {:induction false} InOrderStartsAtNext(s: State, evs: seq<Event>)
    requires PeerInOrder(s, evs)
    ensures AllStartAtNext(s, evs) && AllFollow(s, evs)
    decreases |evs|
  {
    hide Step, Arrival, WellBehaved, StartsAtNext, Follows;
    if evs != [] {
      var before := Run(s, Front(evs));
      InOrderStartsAtNext(s, Front(evs));
      match Arrival(before, Last(evs).frame)
      case None =>
      case Some(a) => WellBehavedFollows(before.conn, a.tcp);
    }
  }

  lemma WellBehavedFollows(c: Conn, tcp: Tcp.Header)
    requires WellBehaved(c, tcp)
    ensures StartsAtNext(c, tcp) && Follows(c, tcp)
  {
    hide Tcp.Has;
  }

  /** The peer's count of sequence numbers is the data received plus one each for SYN and FIN. */
  predicate CountsData(c: Conn, sent: nat, data: nat) {
    sent == if c.state == Listen then 0 else 1 + data + FinTaken(c)
  }

  lemma DecideKeepsCount(c: Conn, a: Segment, sent: nat, data: nat)
    requires c.state != CloseWait && a.tcp.dstPort == c.localPort && (c.state == Listen ==> data == 0)
    requires WellBehaved(c, a.tcp) && CountsData(c, sent, data)
    ensures var used := if c.state != Listen || Opens(c, a.tcp) then SegLen(a.tcp) else 0;
            CountsData(Decide(c, a.srcIp, a.tcp).0, sent + used, data + |TakenBy(c, a.tcp)|)
  {
    hide Add32, Tcp.Has;
  }

  lemma {:induction false} PeerCountsData(mac: Mac, ip: uint32, port: uint16, evs: seq<Event>)
    requires PeerInOrder(Init(mac, ip, port), evs)
    ensures var s0 := Init(mac, ip, port);
            CountsData(Run(s0, evs).conn, Sent(s0, evs), |Accepted(s0, evs)|)
    decreases |evs|
  {
    hide Step, Decode, Decide, WellBehaved, CountsData, Arrival;
    var s0 := Init(mac, ip, port);
    if evs == [] {
      ListeningCounts(s0.conn);
    } else {
      var before, event := Run(s0, Front(evs)), Last(evs);
      PeerCountsData(mac, ip, port, Front(evs));
      InvariantHolds(mac, ip, port, Front(evs));
      ListeningAcceptsNothing(mac, ip, port, Front(evs));
      StepOnConnection(before, event.frame, event.cap);
      if Arrival(before, event.frame).Some? {
        ArrivalBounds(before, event.frame);
        DecideKeepsCount(before.conn, Arrival(before, event.frame).value,
                         Sent(s0, Front(evs)), |Accepted(s0, Front(evs))|);
      }
    }
  }

  lemma ListeningCounts(c: Conn)
    requires c.state == Listen
    ensures CountsData(c, 0, 0)
  {
  }

  /** With an in-order peer both counts agree, exactly and not only modulo 2^32: the octet
      that the receiver expects next is irs plus what the peer has sent, which is the bytes
      taken and one each for SYN and FIN. */
  lemma ReceiverFollowsPeer(mac: Mac, ip: uint32, port: uint16, evs: seq<Event>)
    requires PeerInOrder(Init(mac, ip, port), evs)
    ensures var s0 := Init(mac, ip, port);
            var c, opening, sent := Run(s0, evs).conn, Opening(s0, evs), Sent(s0, evs);
            && InSync(s0, evs) && InStep(s0, evs)
            && (c.state != Listen ==>
                  && opening.Some? && c.rcvNxt == Add32(opening.value.tcp.seqNo, sent)
                  && sent == 1 + |Accepted(s0, evs)| + FinTaken(c))
  {
    hide Run, PeerInOrder, AllStartAtNext, AllFollow, Opening, Sent, Accepted, Add32;
    var s0 := Init(mac, ip, port);
    InOrderStartsAtNext(s0, evs);
    InSyncIff(mac, ip, port, evs);
    InStepIff(mac, ip, port, evs);
    PeerCountsData(mac, ip, port, evs);
  }

  /** Every acknowledgment such a peer reads on the wire is SEG.SEQ + SEG.LEN of the
      segment it answers, with SYN and FIN counting one. */
  lemma AcksAreStandard(mac: Mac, ip: uint32, port: uint16, evs: seq<Event>, i: nat)
    requires i < |evs| && PeerInOrder(Init(mac, ip, port), evs)
    ensures var s0 := Init(mac, ip, port);
            var arrival, reply := Arrival(Run(s0, evs[..i]), evs[i].frame), RepliesOf(s0, evs)[i];
            arrival.Some? && reply != [] ==>
              && Decode(reply).Some? && Decode(reply).value.TcpPacket?
              && var ackNo, tcp := Decode(reply).value.tcp.ackNo, arrival.value.tcp;
                 ackNo == Add32(tcp.seqNo, SegLen(tcp)) == Run(s0, evs[..i + 1]).conn.rcvNxt
  {
    hide Step, Run, RepliesOf, PeerInOrder, Decode, Add32, WellBehaved, Arrival;
    var s0 := Init(mac, ip, port);
    var s := Run(s0, evs[..i]);
    ReplyAt(s0, evs, i);
    RunNext(s0, evs, i);
    PrefixInOrder(s0, evs, i);
    AckOfStep(s, evs[i].frame, evs[i].cap);
  }

  lemma AckOfStep(s: State, frame: Bytes, cap: nat)
    ensures var arrival, o := Arrival(s, frame), Step(s, frame, cap);
            arrival.Some? && WellBehaved(s.conn, arrival.value.tcp) && o.reply != [] ==>
              && Decode(o.reply).Some? && Decode(o.reply).value.TcpPacket?
              && var ackNo, tcp := Decode(o.reply).value.tcp.ackNo, arrival.value.tcp;
                 ackNo == Add32(tcp.seqNo, SegLen(tcp)) == o.state.conn.rcvNxt
  {
    hide Step, Decide, Decode, Add32, WellBehaved, SegLen;
    var arrival := Arrival(s, frame);
    if arrival.Some? && WellBehaved(s.conn, arrival.value.tcp) && Step(s, frame, cap).reply != [] {
      ReplyIsValid(s, frame, cap);
      ArrivalBounds(s, frame);
      AckIsStandardIff(s.conn, arrival.value.srcIp, arrival.value.tcp);
      SendsOnlyWhenAckable(s.conn, arrival.value);
      StepOnConnection(s, frame, cap);
    }
  }

  lemma SendsOnlyWhenAckable(c: Conn, a: Segment)
    requires WellBehaved(c, a.tcp) && a.tcp.dstPort == c.localPort && Decide(c, a.srcIp, a.tcp).1.Some?
    ensures AckableIn(c, a.tcp)
  {
  }

  lemma {:induction false} PrefixInOrder(s: State, evs: seq<Event>, i: nat)
    requires i < |evs| && PeerInOrder(s, evs)
    ensures var before := Run(s, evs[..i]);
            var arrival := Arrival(before, evs[i].frame);
            arrival.Some? ==> WellBehaved(before.conn, arrival.value.tcp)
    decreases |evs|
  {
    hide Step, Arrival, WellBehaved;
    if i == |evs| - 1 {
      assert Front(evs) == evs[..i];
    } else {
      PrefixInOrder(s, Front(evs), i);
      assert Front(evs)[..i] == evs[..i];
    }
  }
}
