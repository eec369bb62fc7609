/** The chain of parsers and validators that gcs_stack_handle_frame runs on a frame
    (src/gcs_stack.c:311-374), without the filter on the addressee.

    A frame decodes to a packet exactly when every parser on its path accepts it and
    every checksum on its path validates. */
module Decoder {
  import opened Types
  import Checksum
  import Ethernet
  import Arp
  import Ipv4
  import Icmp
  import Tcp

  datatype Packet =
    | ArpPacket(dst: Mac, src: Mac, arp: Arp.Packet)
    | EchoPacket(dst: Mac, src: Mac, ip: Ipv4.Header, echo: Icmp.Echo)
    | TcpPacket(dst: Mac, src: Mac, ip: Ipv4.Header, tcp: Tcp.Header)

  function Decode(frame: Bytes): Option<Packet> {
    match Ethernet.Parse(frame)
    case None => None
    case Some(eth) =>
      if eth.ethertype == Ethernet.TYPE_ARP then DecodeArp(eth)
      else if eth.ethertype == Ethernet.TYPE_IPV4 then DecodeIpv4(eth)
      else None
  }

  function DecodeArp(eth: Ethernet.Frame): Option<Packet> {
    match Arp.Parse(eth.payload)
    case None => None
    case Some(arp) => Some(ArpPacket(eth.dst, eth.src, arp))
  }

  function DecodeIpv4(eth: Ethernet.Frame): Option<Packet> {
    match Ipv4.Parse(eth.payload)
    case None => None
    case Some(ip) =>
      if Ipv4.ChecksumValid(eth.payload, ip.ihl) then DecodeTransport(eth.dst, eth.src, ip) else None
  }

  function DecodeTransport(dst: Mac, src: Mac, ip: Ipv4.Header): Option<Packet> {
    if ip.protocol == Ipv4.PROTO_ICMP then
      match Icmp.Parse(ip.payload)
      case None => None
      case Some(echo) => Some(EchoPacket(dst, src, ip, echo))
    else if ip.protocol == Ipv4.PROTO_TCP then
      match Tcp.Parse(ip.payload)
      case None => None
      case Some(tcp) =>
        if Tcp.ChecksumValid(ip.src, ip.dst, ip.payload) then Some(TcpPacket(dst, src, ip, tcp)) else None
    else None
  }

  /** What the IPv4 layer of a decoded datagram looked like. */
  lemma DecodedDatagram(frame: Bytes)
    requires Decode(frame).Some? && !Decode(frame).value.ArpPacket?
    ensures Ethernet.Parse(frame).Some?
    ensures var eth, ip := Ethernet.Parse(frame).value, Decode(frame).value.ip;
            && eth.ethertype == Ethernet.TYPE_IPV4 && eth.payload == frame[14..] && |frame| >= 14
            && DecodeIpv4(eth) == Decode(frame)
            && Ipv4.Parse(eth.payload) == Some(ip)
            && Ipv4.ChecksumValid(eth.payload, ip.ihl)
            && DecodeTransport(eth.dst, eth.src, ip) == Decode(frame)
            && Decode(frame).value.dst == eth.dst && Decode(frame).value.src == eth.src
  {
  }

  lemma DecodedProtocol(frame: Bytes)
    requires Decode(frame).Some? && !Decode(frame).value.ArpPacket?
    ensures Decode(frame).value.ip.protocol
            == if Decode(frame).value.TcpPacket? then Ipv4.PROTO_TCP else Ipv4.PROTO_ICMP
  {
    hide Ipv4.Parse, Ipv4.ChecksumValid, Icmp.Parse, Tcp.Parse, Tcp.ChecksumValid;
  }

  lemma DecodeNothing()
    ensures Decode([]) == None
  {
  }

  /** Decoding never changes the Ethernet addresses. */
  lemma DecodedAddresses(frame: Bytes)
    requires Decode(frame).Some?
    ensures Ethernet.Parse(frame).Some?
    ensures Decode(frame).value.dst == Ethernet.Parse(frame).value.dst
    ensures Decode(frame).value.src == Ethernet.Parse(frame).value.src
  {
    hide Checksum.Accum, Rd16, Rd32, Ipv4.Parse, Arp.Parse, Icmp.Parse, Tcp.Parse;
  }

  lemma ParsedBounds(data: Bytes)
    requires Ipv4.Parse(data).Some?
    ensures var ip := Ipv4.Parse(data).value;
            && 20 <= ip.ihl <= ip.totalLen <= |data|
            && ip.ihl == data[0] % 0x10 * 4 && ip.totalLen == Rd16(data, 2)
            && ip.payload == data[ip.ihl..ip.totalLen]
  {
  }

  // ---- Where the nested payloads lie ----

  /** The payload of a decoded segment is exactly the stretch of the frame between its
      headers and the IPv4 total length; Ethernet padding is never part of it. */
  lemma TcpPayloadSlice(frame: Bytes)
    requires Decode(frame).Some? && Decode(frame).value.TcpPacket?
    ensures var p := Decode(frame).value;
            var start := 14 + p.ip.ihl as int + p.tcp.dataOffset;
            && 54 <= start <= 14 + p.ip.totalLen as int <= |frame|
            && p.tcp.payload == frame[start..14 + p.ip.totalLen as int]
  {
    hide Decode, DecodeIpv4, DecodeTransport, Ipv4.Parse, Ethernet.Parse;
    var p := Decode(frame).value;
    DecodedDatagram(frame);
    ParsedBounds(frame[14..]);
    SegmentOf(p);
    TailOfSlice(frame[14..], p.ip.ihl, p.ip.totalLen, p.tcp.dataOffset);
    SliceOfTail(frame, 14, p.ip.ihl as int + p.tcp.dataOffset, p.ip.totalLen);
  }

  lemma SegmentOf(p: Packet)
    requires !p.ArpPacket? && DecodeTransport(p.dst, p.src, p.ip) == Some(p)
    ensures p.TcpPacket? ==> 20 <= p.tcp.dataOffset <= |p.ip.payload| && p.tcp.payload == p.ip.payload[p.tcp.dataOffset..]
    ensures p.EchoPacket? ==>
              && 8 <= |p.ip.payload| && p.echo.payload == p.ip.payload[8..]
              && Icmp.Parse(p.ip.payload) == Some(p.echo)
  {
  }

  lemma EchoPayloadSlice(frame: Bytes)
    requires Decode(frame).Some? && Decode(frame).value.EchoPacket?
    ensures var p := Decode(frame).value;
            var start := 14 + p.ip.ihl as int + Icmp.HEADER_LEN;
            && 42 <= start <= 14 + p.ip.totalLen as int <= |frame|
            && p.echo.payload == frame[start..14 + p.ip.totalLen as int]
  {
    hide Decode, DecodeIpv4, DecodeTransport, Ipv4.Parse, Ethernet.Parse;
    var p := Decode(frame).value;
    DecodedDatagram(frame);
    ParsedBounds(frame[14..]);
    SegmentOf(p);
    TailOfSlice(frame[14..], p.ip.ihl, p.ip.totalLen, Icmp.HEADER_LEN);
    SliceOfTail(frame, 14, p.ip.ihl as int + Icmp.HEADER_LEN, p.ip.totalLen);
  }

  // ---- Padding ----

  /** Two frames that agree up to the IPv4 total length decode alike, whatever trails.
      (Eighteen bytes are needed for the length field itself to be shared.) */
  lemma Ipv4PaddingIgnored(f: Bytes, g: Bytes)
    requires |f| >= 18 && Rd16(f, 12) == Ethernet.TYPE_IPV4
    requires var n := if Rd16(f, 16) < 4 then 18 else 14 + Rd16(f, 16) as int;
             n <= |f| && n <= |g| && f[..n] == g[..n]
    ensures Decode(f) == Decode(g)
  {
    var total := Rd16(f, 16);
    var n := if total < 4 then 18 else 14 + total as int;
    var (p, q) := (f[14..], g[14..]);
    var shared := f[..n];
    assert shared <= f && shared <= g;
    ReadPrefix16(f, shared, 12);
    ReadPrefix16(g, shared, 12);
    assert f[..6] == shared[..6] == g[..6] && f[6..12] == shared[6..12] == g[6..12];
    assert Rd16(p, 2) == total == Rd16(q, 2) by {
      ReadPrefix16(f, shared, 16);
      ReadPrefix16(g, shared, 16);
    }
    if total >= 20 {
      SharedPacketParsesAlike(p, q, total);
    }
  }

  lemma SharedPacketParsesAlike(p: Bytes, q: Bytes, total: nat)
    requires 20 <= total <= |p| && total <= |q| && p[..total] == q[..total]
    requires Rd16(p, 2) == total
    ensures Ipv4.Parse(p) == Ipv4.Parse(q)
    ensures Ipv4.Parse(p).Some? ==>
              var ihl := Ipv4.Parse(p).value.ihl;
              ihl <= |p| && ihl <= |q| && p[..ihl] == q[..ihl]
  {
    var shared := p[..total];
    ReadPrefix16(q, shared, 2);
    ReadPrefix16(q, shared, 4);
    ReadPrefix16(q, shared, 6);
    ReadPrefix16(q, shared, 10);
    ReadPrefix32(q, shared, 12);
    ReadPrefix32(q, shared, 16);
    assert forall i :: 0 <= i < total ==> p[i] == shared[i] == q[i];
    assert forall i, j :: 0 <= i <= j <= total ==> p[i..j] == q[i..j];
  }

  lemma ArpPaddingIgnored(f: Bytes, g: Bytes)
    requires |f| >= 42 && |g| >= 42 && f[..42] == g[..42]
    requires Rd16(f, 12) == Ethernet.TYPE_ARP
    ensures Decode(f) == Decode(g)
  {
    hide Arp.Parse, Rd16;
    var shared := f[..42];
    assert shared <= f && shared <= g;
    var (p, q) := (f[14..], g[14..]);
    var arp := shared[14..];
    assert arp <= p && arp <= q;
    assert f[..6] == shared[..6] == g[..6] && f[6..12] == shared[6..12] == g[6..12];
    ReadPrefix16(f, shared, 12);
    ReadPrefix16(g, shared, 12);
    ArpParsesItsPrefix(p, arp);
    ArpParsesItsPrefix(q, arp);
  }

  lemma ArpParsesItsPrefix(p: Bytes, arp: Bytes)
    requires arp <= p && |arp| == 28
    ensures Arp.Parse(p) == Arp.Parse(arp)
  {
    assert p[8..14] == arp[8..14] && p[18..24] == arp[18..24];
  }

  // ---- Corruption ----

  /** The header checksum notices any changed header byte that leaves the length nibble alone. */
  lemma HeaderCorruptionDetected(data: Bytes, i: nat, b: uint8)
    requires Ipv4.Parse(data).Some?
    requires var ihl := Ipv4.Parse(data).value.ihl; Ipv4.ChecksumValid(data, ihl) && i < ihl
    requires b != data[i] && (i == 0 ==> b % 0x10 == data[0] % 0x10)
    ensures var parsed := Ipv4.Parse(data[i := b]);
            parsed.Some? ==> !Ipv4.ChecksumValid(data[i := b], parsed.value.ihl)
  {
    hide Checksum.Accum, Rd16, Rd32;
    var ihl := Ipv4.Parse(data).value.ihl;
    var changed := data[i := b];
    assert changed[0] % 0x10 == data[0] % 0x10;
    assert changed[..ihl] == data[..ihl][i := b];
    Checksum.ByteChangeDetected(data[..ihl], i, b, 0);
  }

  lemma TransportCorruptionDetected(dst: Mac, src: Mac, ip: Ipv4.Header, k: nat, b: uint8)
    requires DecodeTransport(dst, src, ip).Some?
    requires k < |ip.payload| <= 0xFFFF && b != ip.payload[k]
    ensures DecodeTransport(dst, src, ip.(payload := ip.payload[k := b])) == None
  {
    hide Checksum.Accum;
    if ip.protocol == Ipv4.PROTO_ICMP {
      Checksum.ByteChangeDetected(ip.payload, k, b, 0);
    } else {
      Checksum.ByteChangeDetected(ip.payload, k, b, Tcp.Seed(ip.src, ip.dst, |ip.payload|));
    }
  }

  /** A byte changed behind the header leaves every header field as it was. */
  lemma PayloadChangeKeepsHeader(data: Bytes, i: nat, b: uint8)
    requires Ipv4.Parse(data).Some?
    requires var ip := Ipv4.Parse(data).value; ip.ihl <= i < ip.totalLen
    ensures var ip := Ipv4.Parse(data).value;
            && Ipv4.Parse(data[i := b]) == Some(ip.(payload := ip.payload[i - ip.ihl := b]))
            && Ipv4.ChecksumValid(data[i := b], ip.ihl) == Ipv4.ChecksumValid(data, ip.ihl)
  {
    hide Checksum.Accum;
    var ip := Ipv4.Parse(data).value;
    var (ihl, changed) := (ip.ihl, data[i := b]);
    var header := data[..ihl];
    assert changed[..ihl] == header;
    assert changed[ihl..ip.totalLen] == data[ihl..ip.totalLen][i - ihl := b];
    assert forall j :: 0 <= j < 20 ==> changed[j] == data[j];
  }

  /** The words that a header gains by growing from `from` to `to` bytes, or loses by shrinking. */
  function WordsGained(data: Bytes, from: nat, to: nat): int
    requires from <= |data| && to <= |data|
  {
    if from <= to then Checksum.WordSum(data[from..to]) else 0 - Checksum.WordSum(data[to..from]) as int
  }

  lemma WordsGainedSum(data: Bytes, from: nat, to: nat)
    requires from <= |data| && to <= |data| && from % 2 == 0 && to % 2 == 0
    ensures Checksum.WordSum(data[..to]) == Checksum.WordSum(data[..from]) + WordsGained(data, from, to)
    ensures Checksum.WordSum(data[from..]) == Checksum.WordSum(data[to..]) + WordsGained(data, from, to)
  {
    hide Checksum.WordSum;
    if from <= to {
      assert data[..to] == data[..from] + data[from..to];
      assert data[from..] == data[from..to] + data[to..];
      Checksum.WordSumAppend(data[..from], data[from..to]);
      Checksum.WordSumAppend(data[from..to], data[to..]);
    } else {
      assert data[..from] == data[..to] + data[to..from];
      assert data[to..] == data[to..from] + data[from..];
      Checksum.WordSumAppend(data[..to], data[to..from]);
      Checksum.WordSumAppend(data[to..from], data[from..]);
    }
  }

  /** Why the header check alone is not enough: a new header length passes it exactly when
      the words gained or lost cancel the change of the length nibble. */
  lemma LengthNibbleUndetectedIff(data: Bytes, b: uint8)
    requires Ipv4.Parse(data).Some? && Ipv4.ChecksumValid(data, Ipv4.Parse(data).value.ihl)
    requires b / 0x10 == 4 && 20 <= b % 0x10 * 4 <= Ipv4.Parse(data).value.totalLen
    ensures var ihl, ihl' := Ipv4.Parse(data).value.ihl, b % 0x10 * 4;
            Ipv4.ChecksumValid(data[0 := b], ihl')
            <==> ((b - data[0]) as int * 0x100 + WordsGained(data, ihl, ihl')) % 0xFFFF == 0
  {
    hide Checksum.WordSum, Checksum.Accum, WordsGained, Rd16, Rd32;
    var ihl, ihl' := Ipv4.Parse(data).value.ihl, b % 0x10 * 4;
    ParsedBounds(data);
    var before, after := data[..ihl], data[0 := b][..ihl'];
    assert after == data[..ihl'][0 := b];
    WordsGainedSum(data, ihl, ihl');
    Checksum.WordSumByte(data[..ihl'], 0, b);
    Checksum.PacketFits(before, 0);
    Checksum.PacketFits(after, 0);
    Checksum.ValidatesIff(before, 0);
    Checksum.ValidatesIff(after, 0);
    Checksum.AddCongruent(Checksum.WordSum(before), 0,
                          (b - data[0]) as int * 0x100 + WordsGained(data, ihl, ihl'));
    Checksum.WordSumZero(after);
    assert after[0] == b;
  }

  /** The sum that the transport check adds to the payload's words. */
  function TransportSeed(ip: Ipv4.Header): uint32 {
    if ip.protocol == Ipv4.PROTO_ICMP then 0 else Tcp.Seed(ip.src, ip.dst, |ip.payload|)
  }

  /** An accepted payload sums to a multiple of 65535, whichever check it passed. */
  lemma AcceptedTransportSum(dst: Mac, src: Mac, ip: Ipv4.Header)
    requires DecodeTransport(dst, src, ip).Some? && |ip.payload| <= 0xFFFF
    ensures (TransportSeed(ip) + Checksum.WordSum(ip.payload)) % 0xFFFF == 0
    ensures ip.protocol == Ipv4.PROTO_ICMP || ip.protocol == Ipv4.PROTO_TCP
  {
    hide Checksum.Accum, Checksum.WordSum;
    Checksum.PacketFits(ip.payload, TransportSeed(ip));
    Checksum.ValidatesIff(ip.payload, TransportSeed(ip));
  }

  /** A changed length nibble moves the boundary and nothing else. */
  lemma NibbleChangeReparses(data: Bytes, b: uint8)
    requires Ipv4.Parse(data).Some? && Ipv4.Parse(data[0 := b]).Some?
    ensures var ihl' := b % 0x10 * 4;
            && b / 0x10 == 4 == data[0] / 0x10 && 20 <= ihl' <= Ipv4.Parse(data).value.totalLen
            && Ipv4.Parse(data[0 := b])
               == Some(Ipv4.Parse(data).value.(ihl := ihl', payload := data[ihl'..Ipv4.Parse(data).value.totalLen]))
  {
    var (total, ihl') := (Ipv4.Parse(data).value.totalLen, b % 0x10 * 4);
    var changed := data[0 := b];
    assert forall j :: 1 <= j < |data| ==> changed[j] == data[j];
    assert ihl' <= total ==> changed[ihl'..total] == data[ihl'..total];
  }

  /** Moving the boundary by k words that sum to w moves the header sum by 256k + w, and the
      transport sum by -w for ICMP or -w - 4k for TCP, whose pseudo-header counts the
      length. At most ten words can move, so both sums cannot stay multiples of 65535. */
  lemma NibbleArithmetic(k: int, w: int, header: int, transport: int, tcp: bool)
    requires -10 <= k <= 10 && k != 0
    requires header % 0xFFFF == 0 && transport % 0xFFFF == 0
    ensures !((header + 0x100 * k + w) % 0xFFFF == 0
              && (transport - w - (if tcp then 4 * k else 0)) % 0xFFFF == 0)
  {
    var drift := if tcp then 252 * k else 256 * k;
    var h, t := header + 0x100 * k + w, transport - w - (if tcp then 4 * k else 0);
    assert h + t == header + (transport + drift);
    Checksum.AddCongruent(header, 0, transport + drift);
    Checksum.AddCongruent(transport, 0, drift);
    assert drift % 0xFFFF != 0;
    if h % 0xFFFF == 0 {
      Checksum.AddCongruent(h, 0, t);
    }
  }

  /** What a moved boundary leaves to the transport check is rejected there, if the header
      check has let it pass. */
  lemma LengthNibbleChangeDetected(dst: Mac, src: Mac, data: Bytes, b: uint8)
    requires |data| > 0
    requires Ipv4.Parse(data).Some? && Ipv4.Parse(data[0 := b]).Some? && b != data[0]
    requires Ipv4.ChecksumValid(data, Ipv4.Parse(data).value.ihl)
    requires DecodeTransport(dst, src, Ipv4.Parse(data).value).Some?
    ensures var ip' := Ipv4.Parse(data[0 := b]).value;
            Ipv4.ChecksumValid(data[0 := b], ip'.ihl) ==> DecodeTransport(dst, src, ip') == None
  {
    hide Ipv4.Parse, Ipv4.ChecksumValid, DecodeTransport, TransportSeed, WordsGained, Checksum.WordSum, Rd16;
    ParsedBounds(data);
    var ip, ip' := Ipv4.Parse(data).value, Ipv4.Parse(data[0 := b]).value;
    NibbleChangeReparses(data, b);
    if Ipv4.ChecksumValid(data[0 := b], ip'.ihl) && DecodeTransport(dst, src, ip').Some? {
      var w := WordsGained(data, ip.ihl, ip'.ihl);
      LengthNibbleUndetectedIff(data, b);
      PayloadSumMoves(data, ip.totalLen, ip.ihl, ip'.ihl);
      AcceptedTransportSum(dst, src, ip);
      AcceptedTransportSum(dst, src, ip');
      SeedMoves(ip, ip');
      NibbleArithmetic(b as int - data[0], w, 0, TransportSeed(ip) + Checksum.WordSum(ip.payload),
                       ip.protocol == Ipv4.PROTO_TCP);
      assert false;
    }
  }

  lemma PayloadSumMoves(data: Bytes, total: nat, from: nat, to: nat)
    requires from <= total <= |data| && to <= total && from % 2 == 0 && to % 2 == 0
    ensures Checksum.WordSum(data[from..total]) == Checksum.WordSum(data[to..total]) + WordsGained(data, from, to)
  {
    hide WordsGained, Checksum.WordSum;
    WordsGainedSum(data[..total], from, to);
    WordsGainedWithin(data, total, from, to);
    TailOfPrefix(data, total, from);
    TailOfPrefix(data, total, to);
  }

  lemma SeedMoves(ip: Ipv4.Header, ip': Ipv4.Header)
    requires ip.protocol == ip'.protocol && ip.src == ip'.src && ip.dst == ip'.dst
    requires ip.protocol == Ipv4.PROTO_ICMP || ip.protocol == Ipv4.PROTO_TCP
    requires |ip.payload| <= 0xFFFF && |ip'.payload| <= 0xFFFF
    ensures TransportSeed(ip') - TransportSeed(ip)
            == if ip.protocol == Ipv4.PROTO_TCP then |ip'.payload| - |ip.payload| else 0
  {
  }

  lemma WordsGainedWithin(data: Bytes, n: nat, from: nat, to: nat)
    requires from <= n <= |data| && to <= n
    ensures WordsGained(data[..n], from, to) == WordsGained(data, from, to)
  {
    assert from <= to ==> data[..n][from..to] == data[from..to];
    assert to <= from ==> data[..n][to..from] == data[to..from];
  }

  lemma TailOfPrefix(data: Bytes, n: nat, from: nat)
    requires from <= n <= |data|
    ensures data[..n][from..] == data[from..n]
  {
  }

  /** Changing any one byte of an accepted IPv4 packet, in the header or behind it, makes
      the chain reject the frame. A flipped bit is a special case. */
  lemma CorruptionDetected(frame: Bytes, i: nat, b: uint8)
    requires Decode(frame).Some? && !Decode(frame).value.ArpPacket?
    requires 14 <= i < 14 + Decode(frame).value.ip.totalLen as int
    requires i < |frame| && b != frame[i]
    ensures Decode(frame[i := b]) == None
  {
    hide DecodeArp, Ethernet.Parse, Ipv4.Parse, DecodeIpv4;
    var eth := Ethernet.Parse(frame).value;
    DecodedDatagram(frame);
    ParseWithChangedPayload(frame, i, b);
    PacketCorruptionDetected(eth, i - 14, b);
  }

  lemma ParseWithChangedPayload(frame: Bytes, i: nat, b: uint8)
    requires 14 <= i < |frame|
    ensures var eth := Ethernet.Parse(frame).value;
            Ethernet.Parse(frame[i := b]) == Some(eth.(payload := eth.payload[i - 14 := b]))
  {
  }

  lemma PacketCorruptionDetected(eth: Ethernet.Frame, k: nat, b: uint8)
    requires DecodeIpv4(eth).Some?
    requires k < Ipv4.Parse(eth.payload).value.totalLen && b != eth.payload[k]
    ensures DecodeIpv4(eth.(payload := eth.payload[k := b])) == None
  {
    hide Ipv4.Parse, Ipv4.ChecksumValid, DecodeTransport, Rd16;
    var ip := Ipv4.Parse(eth.payload).value;
    ParsedBounds(eth.payload);
    if k == 0 {
      if Ipv4.Parse(eth.payload[0 := b]).Some? {
        LengthNibbleChangeDetected(eth.dst, eth.src, eth.payload, b);
      }
    } else if k < ip.ihl {
      HeaderCorruptionDetected(eth.payload, k, b);
    } else {
      PayloadChangeKeepsHeader(eth.payload, k, b);
      TransportCorruptionDetected(eth.dst, eth.src, ip, k - ip.ihl, b);
    }
  }

  /** A family of inputs on which the header check alone fails: a header without options
      whose payload begins FE FF 00 00 still validates when its length grows to six words. */
  lemma HeaderCheckAloneFails(src: uint32, dst: uint32, protocol: uint8, rest: Bytes, id: uint16, ttl: uint8)
    requires |rest| <= 0xFFFF - 24
    ensures var payload: Bytes := [0xFE, 0xFF, 0, 0] + rest;
            var data := Ipv4.Print(src, dst, protocol, |payload|, id, ttl) + payload;
            && Ipv4.Parse(data).Some? && Ipv4.ChecksumValid(data, Ipv4.Parse(data).value.ihl)
            && data[0] == 0x45 && Ipv4.ChecksumValid(data[0 := 0x46], 24)
  {
    hide Ipv4.Print, Ipv4.Parse, Ipv4.ChecksumValid;
    var drawn: Bytes := [0xFE, 0xFF, 0, 0];
    var payload := drawn + rest;
    var header := Ipv4.Print(src, dst, protocol, |payload|, id, ttl);
    var data := header + payload;
    Ipv4.RoundTrip(src, dst, protocol, payload, id, ttl, []);
    assert data + [] == data;
    Ipv4.PrintedFields(src, dst, protocol, |payload|, id, ttl);
    assert data[20..24] == drawn;
    assert drawn[2..] == [0, 0] && drawn[2..][2..] == [];
    assert Checksum.WordSum(drawn) == 0xFEFF;
    LengthNibbleUndetectedIff(data, 0x46);
  }

  // ---- Frames built by the printers ----

  /** An IPv4 datagram as both the stack and the sample generator send it. */
  function Ipv4Frame(dst: Mac, src: Mac, srcIp: uint32, dstIp: uint32, protocol: uint8, id: uint16, body: Bytes): (f: Bytes)
    ensures |f| == 34 + |body|
  {
    Ethernet.Header(dst, src, Ethernet.TYPE_IPV4)
    + Ipv4.Print(srcIp, dstIp, protocol, |body| % 0x1_0000, id, 64)
    + body
  }

  /** What the IPv4 header of such a datagram parses to. */
  function SentHeader(srcIp: uint32, dstIp: uint32, protocol: uint8, id: uint16, body: Bytes): Ipv4.Header
    requires |body| <= 0xFFFF - Ipv4.MIN_HEADER_LEN
  {
    Ipv4.Header(4, Ipv4.MIN_HEADER_LEN, 0, Ipv4.MIN_HEADER_LEN + |body|, id, Ipv4.DONT_FRAGMENT, 64, protocol,
                Rd16(Ipv4.Print(srcIp, dstIp, protocol, |body|, id, 64), 10), srcIp, dstIp, body)
  }

  lemma DecodeSent(dst: Mac, src: Mac, srcIp: uint32, dstIp: uint32, protocol: uint8, id: uint16, body: Bytes, padding: Bytes)
    requires |body| <= 0xFFFF - Ipv4.MIN_HEADER_LEN
    ensures Decode(Ipv4Frame(dst, src, srcIp, dstIp, protocol, id, body) + padding)
            == DecodeTransport(dst, src, SentHeader(srcIp, dstIp, protocol, id, body))
  {
    hide DecodeTransport, Ethernet.Header, Ipv4.Print, Ipv4.Parse, Ethernet.Parse, Ipv4.ChecksumValid;
    var eth := Ethernet.Header(dst, src, Ethernet.TYPE_IPV4);
    var datagram := Ipv4.Print(srcIp, dstIp, protocol, |body|, id, 64) + body + padding;
    assert Ipv4Frame(dst, src, srcIp, dstIp, protocol, id, body) + padding == eth + datagram;
    Ethernet.RoundTrip(dst, src, Ethernet.TYPE_IPV4, datagram);
    Ipv4.RoundTrip(srcIp, dstIp, protocol, body, id, 64, padding);
  }

  lemma DecodeSentTcp(dst: Mac, src: Mac, srcIp: uint32, dstIp: uint32, id: uint16,
                      srcPort: uint16, dstPort: uint16, seqNo: uint32, ackNo: uint32, flags: uint8, window: uint16,
                      payload: Bytes, padding: Bytes)
    requires |payload| <= 0xFFFF - 40
    ensures var s := Tcp.Print(srcIp, dstIp, srcPort, dstPort, seqNo, ackNo, flags, window, payload);
            Decode(Ipv4Frame(dst, src, srcIp, dstIp, Ipv4.PROTO_TCP, id, s) + padding)
            == Some(TcpPacket(dst, src, SentHeader(srcIp, dstIp, Ipv4.PROTO_TCP, id, s),
                              Tcp.Header(srcPort, dstPort, seqNo, ackNo, Tcp.MIN_HEADER_LEN, flags % 0x40, window,
                                         Rd16(s, 16), 0, payload)))
  {
    hide Decode, Ipv4Frame;
    var s := Tcp.Print(srcIp, dstIp, srcPort, dstPort, seqNo, ackNo, flags, window, payload);
    DecodeSent(dst, src, srcIp, dstIp, Ipv4.PROTO_TCP, id, s, padding);
    Tcp.RoundTrip(srcIp, dstIp, srcPort, dstPort, seqNo, ackNo, flags, window, payload);
  }

  lemma DecodeSentEcho(dst: Mac, src: Mac, srcIp: uint32, dstIp: uint32, id: uint16,
                       kind: uint8, echoId: uint16, seqNo: uint16, payload: Bytes, padding: Bytes)
    requires |payload| <= 0xFFFF - 28
    ensures var m := Icmp.Print(kind, echoId, seqNo, payload);
            Decode(Ipv4Frame(dst, src, srcIp, dstIp, Ipv4.PROTO_ICMP, id, m) + padding)
            == Some(EchoPacket(dst, src, SentHeader(srcIp, dstIp, Ipv4.PROTO_ICMP, id, m),
                               Icmp.Echo(kind, 0, Rd16(m, 2), echoId, seqNo, payload)))
  {
    hide Decode, Ipv4Frame, Icmp.Print, Icmp.Parse;
    var m := Icmp.Print(kind, echoId, seqNo, payload);
    DecodeSent(dst, src, srcIp, dstIp, Ipv4.PROTO_ICMP, id, m, padding);
    Icmp.RoundTrip(kind, echoId, seqNo, payload);
  }

  lemma DecodeSentArp(dst: Mac, src: Mac, p: Arp.Packet, padding: Bytes)
    requires p.hwLen == 6 && p.protoLen == 4
    ensures Decode(Ethernet.Header(dst, src, Ethernet.TYPE_ARP) + Arp.Print(p) + padding)
            == Some(ArpPacket(dst, src, p))
  {
    var eth := Ethernet.Header(dst, src, Ethernet.TYPE_ARP);
    assert eth + Arp.Print(p) + padding == eth + (Arp.Print(p) + padding);
    Ethernet.RoundTrip(dst, src, Ethernet.TYPE_ARP, Arp.Print(p) + padding);
    Arp.RoundTrip(p, padding);
  }
}
