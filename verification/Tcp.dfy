/** TCP segments (src/gcs_tcp.c; RFC 793, section 3.1). */
module Tcp {
  import opened Types
  import opened Checksum
  import Ipv4

  const MIN_HEADER_LEN := 20

  const FIN: uint8 := 0x01
  const SYN: uint8 := 0x02
  const RST: uint8 := 0x04
  const PSH: uint8 := 0x08
  const ACK: uint8 := 0x10

  datatype Header = Header(
    srcPort: uint16, dstPort: uint16, seqNo: uint32, ackNo: uint32, dataOffset: uint8, flags: uint8,
    window: uint16, checksum: uint16, urgent: uint16, payload: Bytes)

  /** A single-bit mask test, `flags & bit`. */
  predicate Has(flags: uint8, bit: uint8)
    requires bit > 0
  {
    flags / bit % 2 == 1
  }

  /** A mask picks one bit of the flags byte, as RFC 793, section 3.1, places it, whatever the others. */
  lemma HasIsOneBit(urg: bool, ack: bool, psh: bool, rst: bool, syn: bool, fin: bool)
    ensures var flags: uint8 := (if urg then 0x20 else 0) + (if ack then 0x10 else 0) + (if psh then 0x08 else 0)
                                + (if rst then 0x04 else 0) + (if syn then 0x02 else 0) + (if fin then 0x01 else 0);
            && (Has(flags, FIN) <==> fin) && (Has(flags, SYN) <==> syn) && (Has(flags, RST) <==> rst)
            && (Has(flags, PSH) <==> psh) && (Has(flags, ACK) <==> ack)
  {
  }

  /** gcs_tcp_parse. The flags are masked to six bits. */
  function Parse(data: Bytes): Option<Header> {
    if |data| < MIN_HEADER_LEN then None
    else
      var dataOffset := data[12] / 0x10 * 4;
      if dataOffset < MIN_HEADER_LEN || dataOffset > |data| then None
      else Some(Header(Rd16(data, 0), Rd16(data, 2), Rd32(data, 4), Rd32(data, 8), dataOffset,
                       data[13] % 0x40, Rd16(data, 14), Rd16(data, 16), Rd16(data, 18),
                       data[dataOffset..]))
  }

  /** The seed that covers the pseudo-header; the length is cast to 16 bits. */
  function Seed(src: uint32, dst: uint32, segmentLen: nat): uint32 {
    PseudoSum(src, dst, Ipv4.PROTO_TCP, segmentLen % 0x1_0000)
  }

  /** gcs_tcp_checksum_valid */
  predicate ChecksumValid(src: uint32, dst: uint32, segment: Bytes) {
    |segment| >= MIN_HEADER_LEN && Validates(segment, Seed(src, dst, |segment|))
  }

  /** The segment with a zero checksum field. */
  function Blank(srcPort: uint16, dstPort: uint16, seqNo: uint32, ackNo: uint32, flags: uint8,
                 window: uint16, payload: Bytes): (s: Bytes)
    ensures |s| == MIN_HEADER_LEN + |payload|
  {
    Be16(srcPort) + Be16(dstPort) + Be32(seqNo) + Be32(ackNo) + [0x50] + [flags]
    + Be16(window) + Be16(0) + Be16(0) + payload
  }

  function Print(srcIp: uint32, dstIp: uint32, srcPort: uint16, dstPort: uint16, seqNo: uint32, ackNo: uint32,
                 flags: uint8, window: uint16, payload: Bytes): (s: Bytes)
    ensures |s| == MIN_HEADER_LEN + |payload|
  {
    var blank := Blank(srcPort, dstPort, seqNo, ackNo, flags, window, payload);
    Store(blank, 16, Accum(blank, Seed(srcIp, dstIp, |blank|)))
  }

  lemma BlankLayout(srcPort: uint16, dstPort: uint16, seqNo: uint32, ackNo: uint32, flags: uint8,
                    window: uint16, payload: Bytes)
    ensures var s := Blank(srcPort, dstPort, seqNo, ackNo, flags, window, payload);
            && s[0..2] == Be16(srcPort) && s[2..4] == Be16(dstPort)
            && s[4..8] == Be32(seqNo) && s[8..12] == Be32(ackNo)
            && s[12] == 0x50 && s[13] == flags && s[14..16] == Be16(window)
            && s[16..18] == Be16(0) && s[18..20] == Be16(0) && s[20..] == payload
  {
  }

  lemma BlankFields(srcPort: uint16, dstPort: uint16, seqNo: uint32, ackNo: uint32, flags: uint8,
                    window: uint16, payload: Bytes)
    ensures var s := Blank(srcPort, dstPort, seqNo, ackNo, flags, window, payload);
            && Rd16(s, 0) == srcPort && Rd16(s, 2) == dstPort && Rd32(s, 4) == seqNo && Rd32(s, 8) == ackNo
            && s[12] == 0x50 && s[13] == flags && Rd16(s, 14) == window
            && Rd16(s, 16) == 0 && Rd16(s, 18) == 0 && s[20..] == payload
  {
    var s := Blank(srcPort, dstPort, seqNo, ackNo, flags, window, payload);
    BlankLayout(srcPort, dstPort, seqNo, ackNo, flags, window, payload);
    ReadWrite16(s, 0, srcPort);
    ReadWrite16(s, 2, dstPort);
    ReadWrite32(s, 4, seqNo);
    ReadWrite32(s, 8, ackNo);
    ReadWrite16(s, 14, window);
    ReadWrite16(s, 16, 0);
    ReadWrite16(s, 18, 0);
  }

  /** Filling in the checksum changes nothing that the parser reads elsewhere. */
  lemma ParseStored(s: Bytes, v: uint16)
    requires Parse(s).Some?
    ensures Parse(Store(s, 16, v)) == Some(Parse(s).value.(checksum := v))
  {
    var stored := Store(s, 16, v);
    assert stored[16..18] == Be16(v);
    ReadWrite16(stored, 16, v);
    assert forall i :: 0 <= i < 16 || 18 <= i < |s| ==> stored[i] == s[i];
    var n := Parse(s).value.dataOffset;
    assert stored[n..] == s[n..];
  }

  /** Print then parse is the identity on every field, but for the two flag bits that the
      parser drops, and the segment validates for the addresses it was printed with. */
  lemma RoundTrip(srcIp: uint32, dstIp: uint32, srcPort: uint16, dstPort: uint16, seqNo: uint32, ackNo: uint32,
                  flags: uint8, window: uint16, payload: Bytes)
    requires MIN_HEADER_LEN + |payload| <= 0xFFFF
    ensures var s := Print(srcIp, dstIp, srcPort, dstPort, seqNo, ackNo, flags, window, payload);
            && Parse(s) == Some(Header(srcPort, dstPort, seqNo, ackNo, MIN_HEADER_LEN, flags % 0x40, window,
                                       Rd16(s, 16), 0, payload))
            && ChecksumValid(srcIp, dstIp, s)
            && Rd16(s, 16) != 0xFFFF
  {
    hide Blank, Accum;
    var blank := Blank(srcPort, dstPort, seqNo, ackNo, flags, window, payload);
    var seed := Seed(srcIp, dstIp, |blank|);
    BlankFields(srcPort, dstPort, seqNo, ackNo, flags, window, payload);
    ParseStored(blank, Accum(blank, seed));
    StoredSumIsUnique(blank, 16, seed, Accum(blank, seed));
    PacketFits(blank, seed);
    AllOnesOnlyForZero(blank, seed);
  }

  /** The other direction: an accepted segment without options, urgent pointer or
      reserved bits is printed back byte for byte, except that a checksum field of all
      ones comes back as zero. */
  lemma PrintParsed(srcIp: uint32, dstIp: uint32, s: Bytes)
    requires |s| <= 0xFFFF && Parse(s).Some? && ChecksumValid(srcIp, dstIp, s)
    requires s[12] == 0x50 && s[13] < 0x40 && Rd16(s, 18) == 0
    ensures var t := Parse(s).value;
            Print(srcIp, dstIp, t.srcPort, t.dstPort, t.seqNo, t.ackNo, t.flags, t.window, t.payload)
            == if t.checksum == 0xFFFF then Store(s, 16, 0) else s
  {
    var t := Parse(s).value;
    var blank := Blank(t.srcPort, t.dstPort, t.seqNo, t.ackNo, t.flags, t.window, t.payload);
    BlankOfParsed(s);
    assert Store(blank, 16, t.checksum) == s by {
      WriteRead16(s, 16);
    }
    BlankFields(t.srcPort, t.dstPort, t.seqNo, t.ackNo, t.flags, t.window, t.payload);
    var seed := Seed(srcIp, dstIp, |s|);
    StoredSumIsUnique(blank, 16, seed, t.checksum);
    PacketFits(blank, seed);
    AllOnesOnlyForZero(blank, seed);
  }

  lemma BlankOfParsed(s: Bytes)
    requires Parse(s).Some? && s[12] == 0x50 && s[13] < 0x40 && Rd16(s, 18) == 0
    ensures var t := Parse(s).value;
            Blank(t.srcPort, t.dstPort, t.seqNo, t.ackNo, t.flags, t.window, t.payload) == Store(s, 16, 0)
  {
    hide Rd16, Rd32;
    WriteRead16(s, 0);
    WriteRead16(s, 2);
    WriteRead32(s, 4);
    WriteRead32(s, 8);
    WriteRead16(s, 14);
    WriteRead16(s, 18);
    assert s == s[0..2] + s[2..4] + s[4..8] + s[8..12] + s[12..13] + s[13..14] + s[14..16]
                + s[16..18] + s[18..20] + s[20..];
  }

  /** The fixed part of any header. The parser drops the reserved nibble and the two flag
      bits above the sixth. */
  function Fixed(t: Header, reserved: uint8, high: uint8): (b: Bytes)
    requires t.dataOffset <= 60 && reserved < 0x10 && high < 4 && t.flags < 0x40
    ensures |b| == MIN_HEADER_LEN
  {
    Be16(t.srcPort) + Be16(t.dstPort) + Be32(t.seqNo) + Be32(t.ackNo)
    + [t.dataOffset / 4 * 0x10 + reserved] + [high * 0x40 + t.flags]
    + Be16(t.window) + Be16(t.checksum) + Be16(t.urgent)
  }

  predicate IsLayout(data: Bytes, t: Header, reserved: uint8, high: uint8, options: Bytes) {
    && t.dataOffset % 4 == 0 && t.dataOffset <= 60 && t.dataOffset == MIN_HEADER_LEN + |options|
    && t.flags < 0x40 && reserved < 0x10 && high < 4
    && data == Fixed(t, reserved, high) + options + t.payload
  }

  /** The parser accepts exactly the segments: data parses to `t` if and only if it is laid
      out as `t` with some options, whatever the bits that the parser drops. */
  lemma ParsesIff(data: Bytes, t: Header)
    ensures Parse(data) == Some(t)
            <==> exists reserved: uint8, high: uint8, options :: IsLayout(data, t, reserved, high, options)
  {
    hide Parse, IsLayout;
    if Parse(data) == Some(t) {
      ParsedIsLayout(data);
    }
    if exists reserved: uint8, high: uint8, options :: IsLayout(data, t, reserved, high, options) {
      var reserved: uint8, high: uint8, options :| IsLayout(data, t, reserved, high, options);
      LayoutParses(data, t, reserved, high, options);
    }
  }

  lemma ParsedIsLayout(data: Bytes)
    requires Parse(data).Some?
    ensures var t := Parse(data).value;
            20 <= t.dataOffset <= |data|
            && IsLayout(data, t, data[12] % 0x10, data[13] / 0x40, data[20..t.dataOffset])
  {
    hide Fixed;
    var t := Parse(data).value;
    FixedOfParsed(data);
    assert data == data[..20] + data[20..t.dataOffset] + data[t.dataOffset..];
  }

  lemma FixedOfParsed(data: Bytes)
    requires Parse(data).Some?
    ensures var t := Parse(data).value;
            |data| >= 20 && t.dataOffset <= 60 && t.flags < 0x40
            && Fixed(t, data[12] % 0x10, data[13] / 0x40) == data[..20]
  {
    hide Rd16, Rd32, Be16, Be32;
    WriteRead16(data, 0);
    WriteRead16(data, 2);
    WriteRead32(data, 4);
    WriteRead32(data, 8);
    WriteRead16(data, 14);
    WriteRead16(data, 16);
    WriteRead16(data, 18);
    assert data[..20] == data[0..2] + data[2..4] + data[4..8] + data[8..12] + data[12..13] + data[13..14]
                         + data[14..16] + data[16..18] + data[18..20];
  }

  lemma LayoutParses(data: Bytes, t: Header, reserved: uint8, high: uint8, options: Bytes)
    requires IsLayout(data, t, reserved, high, options)
    ensures Parse(data) == Some(t)
  {
    hide Fixed, Rd16, Rd32;
    var fixed := Fixed(t, reserved, high);
    FixedFields(t, reserved, high);
    assert fixed <= data;
    assert data[t.dataOffset..] == t.payload;
    ReadPrefix16(data, fixed, 0);
    ReadPrefix16(data, fixed, 2);
    ReadPrefix32(data, fixed, 4);
    ReadPrefix32(data, fixed, 8);
    ReadPrefix16(data, fixed, 14);
    ReadPrefix16(data, fixed, 16);
    ReadPrefix16(data, fixed, 18);
  }

  lemma FixedFields(t: Header, reserved: uint8, high: uint8)
    requires t.dataOffset <= 60 && reserved < 0x10 && high < 4 && t.flags < 0x40
    ensures var b := Fixed(t, reserved, high);
            && Rd16(b, 0) == t.srcPort && Rd16(b, 2) == t.dstPort && Rd32(b, 4) == t.seqNo && Rd32(b, 8) == t.ackNo
            && b[12] == t.dataOffset / 4 * 0x10 + reserved && b[13] == high * 0x40 + t.flags
            && Rd16(b, 14) == t.window && Rd16(b, 16) == t.checksum && Rd16(b, 18) == t.urgent
  {
    hide Be16, Be32, Rd16, Rd32;
    var b := Fixed(t, reserved, high);
    assert b[0..2] == Be16(t.srcPort) && b[2..4] == Be16(t.dstPort);
    assert b[4..8] == Be32(t.seqNo) && b[8..12] == Be32(t.ackNo);
    assert b[14..16] == Be16(t.window) && b[16..18] == Be16(t.checksum) && b[18..20] == Be16(t.urgent);
    ReadWrite16(b, 0, t.srcPort);
    ReadWrite16(b, 2, t.dstPort);
    ReadWrite32(b, 4, t.seqNo);
    ReadWrite32(b, 8, t.ackNo);
    ReadWrite16(b, 14, t.window);
    ReadWrite16(b, 16, t.checksum);
    ReadWrite16(b, 18, t.urgent);
  }

  /** Validity does not depend on which end is the sender. */
  lemma ValidEitherWay(a: uint32, b: uint32, s: Bytes)
    ensures ChecksumValid(a, b, s) <==> ChecksumValid(b, a, s)
  {
  }

  /** When damaged addresses go unnoticed: exactly if the halves of the new ones have the same
      sum modulo 65535 as those of the old ones. A swap is one such change. */
  lemma AddressChangeUnnoticedIff(src: uint32, dst: uint32, src': uint32, dst': uint32, s: Bytes)
    requires |s| <= 0xFFFF && ChecksumValid(src, dst, s)
    ensures ChecksumValid(src', dst', s)
            <==> (Halves(src') + Halves(dst')) % 0xFFFF == (Halves(src) + Halves(dst)) % 0xFFFF
  {
    hide Accum, WordSum;
    var seed, seed' := Seed(src, dst, |s|), Seed(src', dst', |s|);
    PacketFits(s, seed);
    PacketFits(s, seed');
    ValidatesIff(s, seed);
    ValidatesIff(s, seed');
    var rest := Ipv4.PROTO_TCP as int + |s| + WordSum(s);
    SumsCongruent(Halves(src) + Halves(dst), Halves(src') + Halves(dst'), rest);
  }

  function Halves(address: uint32): nat {
    address / 0x1_0000 + address % 0x1_0000
  }

  lemma SumsCongruent(a: int, b: int, rest: int)
    requires (a + rest) % 0xFFFF == 0
    ensures (b + rest) % 0xFFFF == 0 <==> b % 0xFFFF == a % 0xFFFF
  {
    if b % 0xFFFF == a % 0xFFFF {
      AddCongruent(b, a, rest);
    }
    if (b + rest) % 0xFFFF == 0 {
      AddCongruent(b + rest, a + rest, -rest);
    }
  }

  /** gcs_tcp_checksum_valid, with both sums computed by the code's loops */
  method CheckChecksum(src: uint32, dst: uint32, segment: Bytes) returns (ok: bool)
    ensures ok <==> ChecksumValid(src, dst, segment)
  {
    if |segment| < MIN_HEADER_LEN {
      return false;
    }
    var seed := ComputePseudoSum(src, dst, Ipv4.PROTO_TCP, |segment| % 0x1_0000);
    var c := ComputeAccum(segment, seed);
    ok := c == 0;
  }

  /** The part of gcs_tcp_build_segment before the checksum is filled in. */
  method WriteBlank(out: array<uint8>, off: nat, srcPort: uint16, dstPort: uint16, seqNo: uint32, ackNo: uint32,
                    flags: uint8, window: uint16, payload: Bytes)
    requires off + MIN_HEADER_LEN + |payload| <= out.Length
    modifies out
    ensures out[..] == Splice(old(out[..]), off, Blank(srcPort, dstPort, seqNo, ackNo, flags, window, payload))
  {
    ghost var before := out[..];
    ghost var done := Be16(srcPort);
    Wr16(out, off, srcPort);
    SpliceAfter(before, off, done, Be16(dstPort));
    done := done + Be16(dstPort);
    Wr16(out, off + 2, dstPort);
    SpliceAfter(before, off, done, Be32(seqNo));
    done := done + Be32(seqNo);
    Wr32(out, off + 4, seqNo);
    SpliceAfter(before, off, done, Be32(ackNo));
    done := done + Be32(ackNo);
    Wr32(out, off + 8, ackNo);
    SpliceAfter(before, off, done, [0x50]);
    done := done + [0x50];
    Wr8(out, off + 12, MIN_HEADER_LEN / 4 * 0x10);
    SpliceAfter(before, off, done, [flags]);
    done := done + [flags];
    Wr8(out, off + 13, flags);
    SpliceAfter(before, off, done, Be16(window));
    done := done + Be16(window);
    Wr16(out, off + 14, window);
    SpliceAfter(before, off, done, Be16(0));
    done := done + Be16(0);
    Wr16(out, off + 16, 0);
    SpliceAfter(before, off, done, Be16(0));
    done := done + Be16(0);
    Wr16(out, off + 18, 0);
    SpliceAfter(before, off, done, payload);
    if |payload| > 0 {
      Copy(out, off + MIN_HEADER_LEN, payload);
    } else {
      SpliceNothing(out[..], off + MIN_HEADER_LEN);
    }
  }

  /** gcs_tcp_build_segment, at an offset into the frame buffer */
  method BuildSegment(out: array<uint8>, off: nat, srcIp: uint32, dstIp: uint32, srcPort: uint16, dstPort: uint16,
                      seqNo: uint32, ackNo: uint32, flags: uint8, window: uint16, payload: Bytes) returns (n: nat)
    requires off <= out.Length
    modifies out
    ensures n == if out.Length - off < MIN_HEADER_LEN + |payload| then 0 else MIN_HEADER_LEN + |payload|
    ensures out[..] == if n == 0 then old(out[..])
                       else Splice(old(out[..]), off, Print(srcIp, dstIp, srcPort, dstPort, seqNo, ackNo, flags, window, payload))
  {
    n := MIN_HEADER_LEN + |payload|;
    if out.Length - off < n {
      return 0;
    }
    ghost var before := out[..];
    WriteBlank(out, off, srcPort, dstPort, seqNo, ackNo, flags, window, payload);
    ghost var blank := Blank(srcPort, dstPort, seqNo, ackNo, flags, window, payload);
    SpliceSlice(before, off, blank);
    var seed := ComputePseudoSum(srcIp, dstIp, Ipv4.PROTO_TCP, n % 0x1_0000);
    var c := ComputeAccum(out[off..off + n], seed);
    Wr16(out, off + 16, c);
    SpliceWithin(before, off, blank, 16, Be16(c));
  }
}
