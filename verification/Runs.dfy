/** Whole runs of the responder: the read-handle-write loop of app/gcs_replay.c:90-108
    as a fold of steps, and the properties that hold after any number of frames. */
module Runs {
  import opened Types
  import opened Decoder
  import opened Responder
  import opened Replies
  import Tcp

  /** One turn of the loop: the frame that was read and the size of the reply buffer. */
  datatype Event = Event(frame: Bytes, cap: nat)

  function Last<T>(s: seq<T>): T
    requires s != []
  {
    s[|s| - 1]
  }

  function Front<T>(s: seq<T>): (f: seq<T>)
    requires s != []
    ensures |f| == |s| - 1
  {
    s[..|s| - 1]
  }

  function Run(s: State, evs: seq<Event>): State
    decreases |evs|
  {
    if evs == [] then s else Step(Run(s, Front(evs)), Last(evs).frame, Last(evs).cap).state
  }

  /** The reply to each event, empty where nothing was sent. */
  function RepliesOf(s: State, evs: seq<Event>): (r: seq<Bytes>)
    ensures |r| == |evs|
    decreases |evs|
  {
    if evs == [] then []
    else RepliesOf(s, Front(evs)) + [Step(Run(s, Front(evs)), Last(evs).frame, Last(evs).cap).reply]
  }

  /** Every reply buffer has room for the frame it answers. */
  predicate Roomy(evs: seq<Event>) {
    forall i :: 0 <= i < |evs| ==> evs[i].cap >= |evs[i].frame|
  }

  lemma {:induction false} ReplyAt(s: State, evs: seq<Event>, i: nat)
    requires i < |evs|
    ensures RepliesOf(s, evs)[i] == Step(Run(s, evs[..i]), evs[i].frame, evs[i].cap).reply
    decreases |evs|
  {
    hide Step;
    if i == |evs| - 1 {
      assert Front(evs) == evs[..i];
    } else {
      ReplyAt(s, Front(evs), i);
      assert Front(evs)[..i] == evs[..i];
    }
  }

  lemma RunNext(s: State, evs: seq<Event>, i: nat)
    requires i < |evs|
    ensures Run(s, evs[..i + 1]) == Step(Run(s, evs[..i]), evs[i].frame, evs[i].cap).state
  {
    hide Step;
    assert Front(evs[..i + 1]) == evs[..i] && Last(evs[..i + 1]) == evs[i];
  }

  // ---- One step as the connection sees it ----

  datatype Segment = Segment(srcIp: uint32, tcp: Tcp.Header)

  /** The frame is an accepted TCP segment for the listening port. */
  function LocalSegment(mac: Mac, port: uint16, frame: Bytes): Option<Segment> {
    match Decode(frame)
    case Some(TcpPacket(dst, _, ip, tcp)) =>
      if Addressed(mac, dst) && tcp.dstPort == port then Some(Segment(ip.src, tcp)) else None
    case _ => None
  }

  function Arrival(s: State, frame: Bytes): Option<Segment> {
    LocalSegment(s.mac, s.conn.localPort, frame)
  }

  /** Only segments for the listening port move the connection; nothing moves the addresses. */
  lemma StepOnConnection(s: State, frame: Bytes, cap: nat)
    ensures var next := Step(s, frame, cap).state;
            && next.mac == s.mac && next.ip == s.ip
            && next.conn == match Arrival(s, frame)
                            case None => s.conn
                            case Some(a) => Decide(s.conn, a.srcIp, a.tcp).0
  {
    hide Ipv4Frame;
  }

  // ---- Lifecycle ----

  function Rank(state: TcpState): nat {
    match state
    case Listen => 0
    case SynReceived => 1
    case Established => 2
    case LastAck => 3
    case Closed => 4
    case CloseWait => 5
  }

  /** What holds of every reachable state. */
  predicate Reachable(s: State, mac: Mac, ip: uint32, port: uint16) {
    && s.mac == mac && s.ip == ip
    && s.conn.localIp == ip && s.conn.localPort == port && s.conn.iss == ISS
    && s.conn.state != CloseWait
    && (s.conn.state == Listen ==> s.conn == InitConn(ip, port))
    && (s.conn.state == SynReceived ==> s.conn.bytesReceived == 0)
    && (s.conn.state != Listen ==> s.conn.sndNxt == Add32(ISS, 1 + s.conn.bytesReceived))
  }

  /** uint32_t and uint64_t counters that advance together stay congruent. */
  lemma CountersAgree(base: uint32, count: nat, n: nat)
    ensures Add32(Add32(base, 1 + count), n % 0x1_0000_0000)
            == Add32(base, 1 + (count + n) % 0x1_0000_0000_0000_0000)
  {
    var (m, w) := (0x1_0000_0000, 0x1_0000_0000_0000_0000);
    var x := base + 1 + count;
    assert Add32(base, 1 + count) == x - m * (x / m);
    assert n % m == n - m * (n / m);
    var t := count + n;
    assert t % w == t - w * (t / w);
    SameResidue(Add32(base, 1 + count) + n % m, x + n, -(x / m) - n / m);
    SameResidue(base + 1 + t % w, x + n, -(0x1_0000_0000 * (t / w)));
  }

  lemma SameResidue(a: int, b: int, k: int)
    requires a == b + 0x1_0000_0000 * k
    ensures a % 0x1_0000_0000 == b % 0x1_0000_0000
  {
  }

  lemma DecideKeepsInvariant(s: State, mac: Mac, ip: uint32, port: uint16, a: Segment)
    requires Reachable(s, mac, ip, port) && a.tcp.dstPort == port
    ensures Reachable(s.(conn := Decide(s.conn, a.srcIp, a.tcp).0), mac, ip, port)
  {
    CountersAgree(ISS, s.conn.bytesReceived, |a.tcp.payload|);
  }

  lemma {:induction false} InvariantHolds(mac: Mac, ip: uint32, port: uint16, evs: seq<Event>)
    ensures Reachable(Run(Init(mac, ip, port), evs), mac, ip, port)
    decreases |evs|
  {
    hide Step, Decode;
    if evs != [] {
      var s := Run(Init(mac, ip, port), Front(evs));
      InvariantHolds(mac, ip, port, Front(evs));
      StepOnConnection(s, Last(evs).frame, Last(evs).cap);
      match Arrival(s, Last(evs).frame)
      case None =>
      case Some(a) => DecideKeepsInvariant(s, mac, ip, port, a);
    }
  }

  lemma RankStep(s: State, frame: Bytes, cap: nat)
    requires s.conn.state != CloseWait
    ensures Rank(s.conn.state) <= Rank(Step(s, frame, cap).state.conn.state) <= Rank(s.conn.state) + 1
    ensures s.conn.state == Closed ==> Step(s, frame, cap).state.conn == s.conn
  {
    hide Step, Decode;
    StepOnConnection(s, frame, cap);
  }

  /** An edge of the automaton as docs/guide.md:113-122 draws it, with the flag on it (SYN 0x02,
      ACK 0x10, FIN 0x01). */
  datatype Edge = Edge(from: TcpState, to: TcpState, flag: uint8)

  const DIAGRAM: set<Edge> := {
    Edge(Listen, SynReceived, 0x02),
    Edge(SynReceived, Established, 0x10),
    Edge(Established, LastAck, 0x01),
    Edge(LastAck, Closed, 0x10)
  }

  /** A frame changes the state exactly along an edge of the documented diagram: it does so
      if and only if it is a segment for the listening port that carries the edge's flag,
      whatever the buffer size. */
  lemma FollowsDiagram(s: State, frame: Bytes, cap: nat, to: TcpState)
    requires to != s.conn.state
    ensures var arrival := Arrival(s, frame);
            Step(s, frame, cap).state.conn.state == to
            <==> arrival.Some? && exists e :: e in DIAGRAM && e.from == s.conn.state && e.to == to
                                              && e.flag > 0 && Tcp.Has(arrival.value.tcp.flags, e.flag)
  {
    hide Step, Decode, Tcp.Has, Add32;
    StepOnConnection(s, frame, cap);
    assert Edge(Listen, SynReceived, 0x02) in DIAGRAM && Edge(SynReceived, Established, 0x10) in DIAGRAM;
    assert Edge(Established, LastAck, 0x01) in DIAGRAM && Edge(LastAck, Closed, 0x10) in DIAGRAM;
  }

  /** Over every run the state moves only forward, by at most one state a frame, never
      through CLOSE_WAIT, and a closed connection is frozen. */
  lemma {:induction false} Lifecycle(mac: Mac, ip: uint32, port: uint16, evs: seq<Event>, i: nat)
    requires i <= |evs|
    ensures var early, late := Run(Init(mac, ip, port), evs[..i]).conn, Run(Init(mac, ip, port), evs).conn;
            && Rank(early.state) <= Rank(late.state) <= Rank(early.state) + |evs| - i
            && Rank(late.state) <= 4
            && (early.state == Closed ==> late == early)
    decreases |evs|
  {
    hide Step;
    var s0 := Init(mac, ip, port);
    InvariantHolds(mac, ip, port, evs);
    if i == |evs| {
      assert evs[..i] == evs;
    } else {
      assert Front(evs)[..i] == evs[..i];
      Lifecycle(mac, ip, port, Front(evs), i);
      InvariantHolds(mac, ip, port, Front(evs));
      RankStep(Run(s0, Front(evs)), Last(evs).frame, Last(evs).cap);
    }
  }

  // ---- IP identification ----

  /** The identification a reply carries on the wire; ARP replies and empty slots carry none. */
  function WireId(reply: Bytes): seq<uint16> {
    match Decode(reply)
    case None => []
    case Some(ArpPacket(_, _, _)) => []
    case Some(EchoPacket(_, _, ip, _)) => [ip.id]
    case Some(TcpPacket(_, _, ip, _)) => [ip.id]
  }

  function WireIds(replies: seq<Bytes>): seq<uint16>
    decreases |replies|
  {
    if replies == [] then [] else WireIds(Front(replies)) + WireId(Last(replies))
  }

  lemma StepOnIpId(s: State, frame: Bytes, cap: nat)
    ensures var o := Step(s, frame, cap);
            if WireId(o.reply) == [] then o.state.ipId == s.ipId
            else WireId(o.reply) == [s.ipId] && o.state.ipId == (s.ipId + 1) % 0x1_0000
  {
    hide Decode, Ipv4Frame, Tcp.Print;
    DecodeNothing();
    ReplyIsValid(s, frame, cap);
  }

  predicate CountsFrom(ids: seq<uint16>, first: uint16) {
    forall k :: 0 <= k < |ids| ==> ids[k] == (first + k) % 0x1_0000
  }

  /** The identifications count up modulo 2^16 from the initial value, one per IPv4 reply. */
  lemma {:induction false} IdsAreConsecutive(s: State, evs: seq<Event>)
    ensures CountsFrom(WireIds(RepliesOf(s, evs)), s.ipId)
    ensures Run(s, evs).ipId == (s.ipId + |WireIds(RepliesOf(s, evs))|) % 0x1_0000
    decreases |evs|
  {
    hide Step, WireId;
    if evs != [] {
      IdsAreConsecutive(s, Front(evs));
      var more := LastTurnOnIds(s, evs);
      OneMoreId(WireIds(RepliesOf(s, Front(evs))), more, s.ipId, Run(s, Front(evs)).ipId, Run(s, evs).ipId);
    }
  }

  lemma LastTurnOnIds(s: State, evs: seq<Event>) returns (more: seq<uint16>)
    requires evs != []
    ensures WireIds(RepliesOf(s, evs)) == WireIds(RepliesOf(s, Front(evs))) + more
    ensures var before, after := Run(s, Front(evs)).ipId, Run(s, evs).ipId;
            if more == [] then after == before else more == [before] && after == (before + 1) % 0x1_0000
  {
    hide Step, WireId;
    var before, event := Run(s, Front(evs)), Last(evs);
    var o := Step(before, event.frame, event.cap);
    StepOnIpId(before, event.frame, event.cap);
    WireIdsSnoc(RepliesOf(s, Front(evs)), o.reply);
    more := WireId(o.reply);
  }

  lemma WireIdsSnoc(replies: seq<Bytes>, reply: Bytes)
    ensures WireIds(replies + [reply]) == WireIds(replies) + WireId(reply)
  {
  }

  lemma OneMoreId(ids: seq<uint16>, more: seq<uint16>, first: uint16, before: uint16, after: uint16)
    requires CountsFrom(ids, first) && before == (first + |ids|) % 0x1_0000
    requires if more == [] then after == before else more == [before] && after == (before + 1) % 0x1_0000
    ensures CountsFrom(ids + more, first) && after == (first + |ids + more|) % 0x1_0000
  {
  }

  /** From a fresh stack the k-th IPv4 reply carries k modulo 2^16, so any 65536
      consecutive ones are pairwise distinct. */
  lemma IdsAreDistinct(mac: Mac, ip: uint32, port: uint16, evs: seq<Event>, j: nat, k: nat)
    requires j < k < |WireIds(RepliesOf(Init(mac, ip, port), evs))| && k < j + 0x1_0000
    ensures var ids := WireIds(RepliesOf(Init(mac, ip, port), evs));
            ids[k] == (k + 1) % 0x1_0000 && ids[j] != ids[k]
  {
    hide Step, RepliesOf, WireIds;
    IdsAreConsecutive(Init(mac, ip, port), evs);
    DistinctResidues(j + 1, k + 1);
  }

  lemma DistinctResidues(j: nat, k: nat)
    requires j < k < j + 0x1_0000
    ensures j % 0x1_0000 != k % 0x1_0000
  {
  }
}
