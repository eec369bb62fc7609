/** The sample generator (tools/gcs_make_sample.py): a second, independent printer of the
    same formats, with an unbounded checksum.

    Arguments outside a field's range are excluded here because struct.pack raises on them. */
module Generator {
  import opened Types
  import opened Decoder
  import Checksum
  import Ethernet
  import Arp
  import Ipv4
  import Icmp
  import Tcp

  const CLIENT_MAC: Mac := [0xAA, 0xBB, 0xCC, 0xDD, 0xEE, 0x01]
  const STACK_MAC: Mac := [0x0A, 0, 0, 0, 0, 0x02]
  const CLIENT_IP: Bytes := [10, 0, 0, 1]
  const STACK_IP: Bytes := [10, 0, 0, 2]

  const CLIENT_ADDR: uint32 := 0x0A00_0001
  const STACK_ADDR: uint32 := 0x0A00_0002

  const FIN: uint8 := 0x01
  const SYN: uint8 := 0x02
  const RST: uint8 := 0x04
  const PSH: uint8 := 0x08
  const ACK: uint8 := 0x10

  /** checksum, on unbounded integers */
  function Sum(data: Bytes, seed: nat): uint16 {
    0xFFFF - Checksum.Fold(seed + Checksum.WordSum(data))
  }

  method ComputeSum(data: Bytes, seed: nat) returns (r: uint16)
    ensures r == Sum(data, seed)
  {
    hide Checksum.Fold, Checksum.WordSum;
    var total: nat := seed;
    var padded := if |data| % 2 == 1 then data + [0] else data;
    if |data| % 2 == 1 {
      PaddingKeepsSum(data);
    }
    assert |padded| % 2 == 0;
    assert padded[0..] == padded;
    var i := 0;
    while i < |padded|
      invariant 0 <= i <= |padded| && i % 2 == 0
      invariant total + Checksum.WordSum(padded[i..]) == seed + Checksum.WordSum(padded)
    {
      NextWord(padded, i);
      total := total + Rd16(padded, i);
      i := i + 2;
    }
    NoWords(padded[i..]);
    while total / 0x1_0000 != 0
      invariant Checksum.Fold(total) == Checksum.Fold(seed + Checksum.WordSum(data))
      decreases total
    {
      Checksum.FoldOnceShrinks(total);
      FoldStep(total);
      total := total % 0x1_0000 + total / 0x1_0000;
    }
    FoldStep(total);
    r := 0xFFFF - total;
  }

  lemma NextWord(data: Bytes, i: nat)
    requires i + 2 <= |data|
    ensures Checksum.WordSum(data[i..]) == Rd16(data, i) + Checksum.WordSum(data[i + 2..])
  {
    assert data[i..][2..] == data[i + 2..];
  }

  lemma NoWords(data: Bytes)
    requires data == []
    ensures Checksum.WordSum(data) == 0
  {
  }

  lemma FoldStep(s: nat)
    ensures Checksum.Fold(s) == if s < 0x1_0000 then s else Checksum.Fold(Checksum.FoldOnce(s))
  {
  }

  lemma {:induction false} PaddingKeepsSum(data: Bytes)
    requires |data| % 2 == 1
    ensures Checksum.WordSum(data + [0]) == Checksum.WordSum(data)
    decreases |data|
  {
    if |data| == 1 {
      assert (data + [0])[2..] == [];
    } else {
      assert (data + [0])[2..] == data[2..] + [0];
      PaddingKeepsSum(data[2..]);
    }
  }

  /** The unbounded and the 32-bit checksum agree wherever the latter does not wrap. */
  lemma SumsAgree(data: Bytes, seed: uint32)
    requires Checksum.Fits(data, seed)
    ensures Sum(data, seed) == Checksum.Accum(data, seed)
  {
    hide Checksum.Fold, Checksum.WordSum;
  }

  function Zeros(n: nat): (z: Bytes)
    ensures |z| == n
  {
    seq(n, _ => 0)
  }

  function Padding(len: nat): Bytes {
    if len < 60 then Zeros(60 - len) else []
  }

  /** eth: frames are padded to 60 bytes */
  function Eth(dst: Mac, src: Mac, ethertype: uint16, payload: Bytes): Bytes {
    dst + src + Be16(ethertype) + payload + Padding(14 + |payload|)
  }

  /** A frame is never shorter than 60 bytes, and zeros follow its packet. */
  lemma EthIsPadded(dst: Mac, src: Mac, ethertype: uint16, payload: Bytes)
    ensures var f, n := Eth(dst, src, ethertype, payload), 14 + |payload|;
            && |f| == (if n < 60 then 60 else n)
            && f[..n] == dst + src + Be16(ethertype) + payload
            && forall i :: n <= i < |f| ==> f[i] == 0
  {
  }

  function ArpRequest(): Bytes {
    Eth(BROADCAST, CLIENT_MAC, 0x0806,
        Be16(1) + Be16(0x0800) + [6] + [4] + Be16(1) + CLIENT_MAC + CLIENT_IP + Zeros(6) + STACK_IP)
  }

  /** The bytes of the first frame in data/sample.pcap, up to the zeros of the padding. */
  lemma ArpRequestBytes()
    ensures |ArpRequest()| == 60
    ensures ArpRequest()[..14] == [0xFF, 0xFF, 0xFF, 0xFF, 0xFF, 0xFF, 0xAA, 0xBB, 0xCC, 0xDD, 0xEE, 0x01, 0x08, 0x06]
    ensures ArpRequest()[14..32] == [0x00, 0x01, 0x08, 0x00, 6, 4, 0x00, 0x01, 0xAA, 0xBB, 0xCC, 0xDD, 0xEE, 0x01, 10, 0, 0, 1]
    ensures ArpRequest()[32..42] == [0x00, 0x00, 0x00, 0x00, 0x00, 0x00, 10, 0, 0, 2]
  {
    hide Eth, Padding;
    var start := Be16(1) + Be16(0x0800) + [6] + [4] + Be16(1) + CLIENT_MAC + CLIENT_IP;
    var body := start + Zeros(6) + STACK_IP;
    EthIsPadded(BROADCAST, CLIENT_MAC, 0x0806, body);
    var head := BROADCAST + CLIENT_MAC + Be16(0x0806);
    assert ArpRequest()[..42] == head + body;
    assert ArpRequest()[..14] == head && ArpRequest()[14..32] == start && ArpRequest()[32..42] == Zeros(6) + STACK_IP;
  }

  function Ipv4Header(proto: uint8, len: nat, ident: uint16): (h: Bytes)
    requires 20 + len <= 0xFFFF
    ensures |h| == 20
  {
    [0x45] + [0] + Be16(20 + len) + Be16(ident) + Be16(0x4000) + [64] + [proto] + Be16(0) + CLIENT_IP + STACK_IP
  }

  /** ipv4 */
  function Ipv4Packet(proto: uint8, payload: Bytes, ident: uint16): Bytes
    requires 20 + |payload| <= 0xFFFF
  {
    var hdr := Ipv4Header(proto, |payload|, ident);
    hdr[..10] + Be16(Sum(hdr, 0)) + hdr[12..] + payload
  }

  function EchoMessage(ident: uint16, seqNo: uint16, data: Bytes): (m: Bytes)
    ensures |m| == 8 + |data|
  {
    [8] + [0] + Be16(0) + Be16(ident) + Be16(seqNo) + data
  }

  /** icmp_echo */
  function IcmpEcho(ident: uint16, seqNo: uint16, data: Bytes): Bytes
    requires |data| <= 0xFFFF - 28 && 0x1000 + seqNo <= 0xFFFF
  {
    var msg := EchoMessage(ident, seqNo, data);
    Eth(STACK_MAC, CLIENT_MAC, 0x0800,
        Ipv4Packet(1, msg[..2] + Be16(Sum(msg, 0)) + msg[4..], 0x1000 + seqNo))
  }

  function BlankSegment(sport: uint16, dport: uint16, seqNo: uint32, ack: uint32, flags: uint8, data: Bytes): (s: Bytes)
    ensures |s| == 20 + |data|
  {
    Be16(sport) + Be16(dport) + Be32(seqNo) + Be32(ack) + [0x50] + [flags] + Be16(4096) + Be16(0) + Be16(0) + data
  }

  function Segment(sport: uint16, dport: uint16, seqNo: uint32, ack: uint32, flags: uint8, data: Bytes): (s: Bytes)
    requires |data| <= 0xFFFF - 20
    ensures |s| == 20 + |data|
  {
    var seg := BlankSegment(sport, dport, seqNo, ack, flags, data);
    var pseudo := CLIENT_IP + STACK_IP + [0] + [6] + Be16(|seg|);
    seg[..16] + Be16(Sum(pseudo + seg, 0)) + seg[18..]
  }

  /** tcp */
  function TcpFrame(sport: uint16, dport: uint16, seqNo: uint32, ack: uint32, flags: uint8, data: Bytes, ident: uint16): Bytes
    requires |data| <= 0xFFFF - 40
  {
    Eth(STACK_MAC, CLIENT_MAC, 0x0800, Ipv4Packet(6, Segment(sport, dport, seqNo, ack, flags, data), ident))
  }

  /** The Ethernet header of the TCP and ICMP frames there. */
  lemma UnicastHeaderBytes(payload: Bytes)
    ensures Eth(STACK_MAC, CLIENT_MAC, 0x0800, payload)[..14]
            == [0x0A, 0x00, 0x00, 0x00, 0x00, 0x02, 0xAA, 0xBB, 0xCC, 0xDD, 0xEE, 0x01, 0x08, 0x00]
  {
  }

  // ---- The two printers agree byte for byte ----

  lemma AddressBytes()
    ensures CLIENT_IP == Be32(CLIENT_ADDR) && STACK_IP == Be32(STACK_ADDR)
  {
  }

  lemma Ipv4PrintersAgree(proto: uint8, payload: Bytes, ident: uint16)
    requires 20 + |payload| <= 0xFFFF
    ensures Ipv4Packet(proto, payload, ident)
            == Ipv4.Print(CLIENT_ADDR, STACK_ADDR, proto, |payload|, ident, 64) + payload
  {
    hide Checksum.Accum, Sum, Be32, Be16;
    AddressBytes();
    var hdr := Ipv4Header(proto, |payload|, ident);
    assert hdr == Ipv4.Blank(CLIENT_ADDR, STACK_ADDR, proto, |payload|, ident, 64);
    Checksum.PacketFits(hdr, 0);
    SumsAgree(hdr, 0);
  }

  lemma EchoPrintersAgree(ident: uint16, seqNo: uint16, data: Bytes)
    requires |data| <= 0xFFFF - 28
    ensures var msg := EchoMessage(ident, seqNo, data);
            msg[..2] + Be16(Sum(msg, 0)) + msg[4..] == Icmp.Print(Icmp.ECHO_REQUEST, ident, seqNo, data)
  {
    hide Checksum.Accum, Sum, Be16;
    var msg := EchoMessage(ident, seqNo, data);
    Checksum.PacketFits(msg, 0);
    SumsAgree(msg, 0);
  }

  lemma TcpPrintersAgree(sport: uint16, dport: uint16, seqNo: uint32, ack: uint32, flags: uint8, data: Bytes)
    requires |data| <= 0xFFFF - 20
    ensures Segment(sport, dport, seqNo, ack, flags, data)
            == Tcp.Print(CLIENT_ADDR, STACK_ADDR, sport, dport, seqNo, ack, flags, 4096, data)
  {
    hide Checksum.Accum, Checksum.WordSum, Checksum.Fold, Sum, Be16, Be32;
    AddressBytes();
    var seg := BlankSegment(sport, dport, seqNo, ack, flags, data);
    var pseudo := CLIENT_IP + STACK_IP + [0] + [6] + Be16(|seg|);
    assert pseudo == Checksum.PseudoHeader(CLIENT_ADDR, STACK_ADDR, 6, |seg|);
    Checksum.PseudoHeaderEquivalence(CLIENT_ADDR, STACK_ADDR, 6, |seg|, seg);
    PseudoFits(CLIENT_ADDR, STACK_ADDR, |seg|, seg);
    SumsAgree(pseudo + seg, 0);
    assert seg == Tcp.Blank(sport, dport, seqNo, ack, flags, 4096, data);
  }

  lemma PseudoFits(src: uint32, dst: uint32, len: uint16, seg: Bytes)
    requires |seg| <= 0xFFFF
    ensures Checksum.Fits(Checksum.PseudoHeader(src, dst, 6, len) + seg, 0)
  {
    hide Checksum.PseudoHeader, Checksum.WordSum;
    Checksum.PseudoSumIsWordSum(src, dst, 6, len);
    Checksum.WordSumAppend(Checksum.PseudoHeader(src, dst, 6, len), seg);
    Checksum.PacketFits(seg, Checksum.PseudoSum(src, dst, 6, len));
  }

  // ---- Generated frames pass the whole chain ----

  lemma EthIsFrame(proto: uint8, body: Bytes, ident: uint16)
    requires 20 + |body| <= 0xFFFF
    ensures Eth(STACK_MAC, CLIENT_MAC, 0x0800, Ipv4Packet(proto, body, ident))
            == Ipv4Frame(STACK_MAC, CLIENT_MAC, CLIENT_ADDR, STACK_ADDR, proto, ident, body) + Padding(34 + |body|)
  {
    hide Ipv4Packet, Ipv4.Print, Padding, Be16;
    Ipv4PrintersAgree(proto, body, ident);
    var header := Ipv4.Print(CLIENT_ADDR, STACK_ADDR, proto, |body|, ident, 64);
    assert Ethernet.Header(STACK_MAC, CLIENT_MAC, 0x0800) + (header + body) + Padding(34 + |body|)
        == Ethernet.Header(STACK_MAC, CLIENT_MAC, 0x0800) + header + body + Padding(34 + |body|);
  }

  /** Every generated TCP frame is accepted at every layer and gives back every field, the
      flags as far as the parser keeps them, and exactly the data, the padding stripped. */
  lemma GeneratedTcpDecodes(sport: uint16, dport: uint16, seqNo: uint32, ack: uint32, flags: uint8, data: Bytes, ident: uint16)
    requires |data| <= 0xFFFF - 40
    ensures var p := Decode(TcpFrame(sport, dport, seqNo, ack, flags, data, ident));
            && p.Some? && p.value.TcpPacket?
            && p.value.dst == STACK_MAC && p.value.src == CLIENT_MAC
            && p.value.ip.src == CLIENT_ADDR && p.value.ip.dst == STACK_ADDR && p.value.ip.id == ident
            && p.value.tcp.srcPort == sport && p.value.tcp.dstPort == dport
            && p.value.tcp.seqNo == seqNo && p.value.tcp.ackNo == ack && p.value.tcp.flags == flags % 0x40
            && p.value.tcp.window == 4096 && p.value.tcp.urgent == 0 && p.value.tcp.payload == data
  {
    hide Decode, Ipv4Frame, Eth, Ipv4Packet, Segment, Tcp.Print, Padding;
    TcpPrintersAgree(sport, dport, seqNo, ack, flags, data);
    var seg := Segment(sport, dport, seqNo, ack, flags, data);
    EthIsFrame(6, seg, ident);
    DecodeSentTcp(STACK_MAC, CLIENT_MAC, CLIENT_ADDR, STACK_ADDR, ident, sport, dport, seqNo, ack, flags, 4096, data,
                  Padding(34 + |seg|));
  }

  lemma GeneratedEchoDecodes(ident: uint16, seqNo: uint16, data: Bytes)
    requires |data| <= 0xFFFF - 28 && 0x1000 + seqNo <= 0xFFFF
    ensures var p := Decode(IcmpEcho(ident, seqNo, data));
            && p.Some? && p.value.EchoPacket?
            && p.value.dst == STACK_MAC && p.value.src == CLIENT_MAC
            && p.value.ip.src == CLIENT_ADDR && p.value.ip.dst == STACK_ADDR && p.value.ip.id == 0x1000 + seqNo
            && p.value.echo.kind == Icmp.ECHO_REQUEST && p.value.echo.code == 0
            && p.value.echo.id == ident && p.value.echo.seqNo == seqNo && p.value.echo.payload == data
  {
    hide Decode, Ipv4Frame, Eth, Ipv4Packet, Icmp.Print, Padding;
    EchoPrintersAgree(ident, seqNo, data);
    var msg := Icmp.Print(Icmp.ECHO_REQUEST, ident, seqNo, data);
    EthIsFrame(1, msg, 0x1000 + seqNo);
    DecodeSentEcho(STACK_MAC, CLIENT_MAC, CLIENT_ADDR, STACK_ADDR, 0x1000 + seqNo, Icmp.ECHO_REQUEST, ident, seqNo, data,
                   Padding(34 + |msg|));
  }

  lemma GeneratedArpDecodes()
    ensures Decode(ArpRequest())
            == Some(ArpPacket(BROADCAST, CLIENT_MAC,
                              Arp.Packet(1, 0x0800, 6, 4, Arp.OP_REQUEST, CLIENT_MAC, CLIENT_ADDR, Zeros(6), STACK_ADDR)))
  {
    hide Decode, Be16, Be32, Zeros, Padding;
    AddressBytes();
    var p := Arp.Packet(1, 0x0800, 6, 4, Arp.OP_REQUEST, CLIENT_MAC, CLIENT_ADDR, Zeros(6), STACK_ADDR);
    DecodeSentArp(BROADCAST, CLIENT_MAC, p, Padding(42));
    assert ArpRequest() == Ethernet.Header(BROADCAST, CLIENT_MAC, Ethernet.TYPE_ARP) + Arp.Print(p) + Padding(42);
  }
}
