/** The IPv4 header (src/gcs_ipv4.c; RFC 791, section 3.1). */
module Ipv4 {
  import opened Types
  import opened Checksum

  const MIN_HEADER_LEN := 20
  const PROTO_ICMP: uint8 := 1
  const PROTO_TCP: uint8 := 6
  const DONT_FRAGMENT: uint16 := 0x4000

  datatype Header = Header(
    version: uint8, ihl: uint8, dscpEcn: uint8, totalLen: uint16, id: uint16, flagsFrag: uint16,
    ttl: uint8, protocol: uint8, checksum: uint16, src: uint32, dst: uint32, payload: Bytes)

  /** gcs_ipv4_header_parse. The frame may be padded, so totalLen may be less than |data|. */
  function Parse(data: Bytes): Option<Header> {
    if |data| < MIN_HEADER_LEN then None
    else
      var ihl := data[0] % 0x10 * 4;
      if data[0] / 0x10 != 4 || ihl < MIN_HEADER_LEN || ihl > |data| then None
      else
        var totalLen := Rd16(data, 2);
        if totalLen < ihl || totalLen > |data| then None
        else Some(Header(data[0] / 0x10, ihl, data[1], totalLen, Rd16(data, 4), Rd16(data, 6),
                         data[8], data[9], Rd16(data, 10), Rd32(data, 12), Rd32(data, 16),
                         data[ihl..totalLen]))
  }

  /** gcs_ipv4_checksum_valid */
  predicate ChecksumValid(data: Bytes, ihl: nat)
    requires ihl <= |data|
  {
    ihl >= MIN_HEADER_LEN && Validates(data[..ihl], 0)
  }

  /** The header with a zero checksum field. */
  function Blank(src: uint32, dst: uint32, protocol: uint8, payloadLen: uint16, id: uint16, ttl: uint8): (h: Bytes)
    ensures |h| == MIN_HEADER_LEN
  {
    [0x45] + [0] + Be16((MIN_HEADER_LEN + payloadLen) % 0x1_0000) + Be16(id) + Be16(DONT_FRAGMENT)
    + [ttl] + [protocol] + Be16(0) + Be32(src) + Be32(dst)
  }

  function Print(src: uint32, dst: uint32, protocol: uint8, payloadLen: uint16, id: uint16, ttl: uint8): (h: Bytes)
    ensures |h| == MIN_HEADER_LEN
  {
    var blank := Blank(src, dst, protocol, payloadLen, id, ttl);
    Store(blank, 10, Sum(blank))
  }

  /** Where each field of the printed header stands. */
  lemma BlankLayout(src: uint32, dst: uint32, protocol: uint8, payloadLen: uint16, id: uint16, ttl: uint8)
    ensures var h := Blank(src, dst, protocol, payloadLen, id, ttl);
            && h[0] == 0x45 && h[1] == 0 && h[8] == ttl && h[9] == protocol
            && h[2..4] == Be16((MIN_HEADER_LEN + payloadLen) % 0x1_0000)
            && h[4..6] == Be16(id) && h[6..8] == Be16(DONT_FRAGMENT)
            && h[10..12] == Be16(0) && h[12..16] == Be32(src) && h[16..20] == Be32(dst)
  {
  }

  /** The printed header validates, and its checksum field is never all ones. */
  lemma PrintedValidates(src: uint32, dst: uint32, protocol: uint8, payloadLen: uint16, id: uint16, ttl: uint8)
    ensures Validates(Print(src, dst, protocol, payloadLen, id, ttl), 0)
    ensures Rd16(Print(src, dst, protocol, payloadLen, id, ttl), 10) != 0xFFFF
  {
    var blank := Blank(src, dst, protocol, payloadLen, id, ttl);
    var c := Sum(blank);
    BlankLayout(src, dst, protocol, payloadLen, id, ttl);
    ReadWrite16(blank, 10, 0);
    StoredSumIsUnique(blank, 10, 0, c);
    LengthFits(blank, 0);
    AllOnesOnlyForZero(blank, 0);
    assert Store(blank, 10, c)[10..12] == Be16(c);
    ReadWrite16(Store(blank, 10, c), 10, c);
  }

  lemma PrintedFields(src: uint32, dst: uint32, protocol: uint8, payloadLen: uint16, id: uint16, ttl: uint8)
    ensures var h := Print(src, dst, protocol, payloadLen, id, ttl);
            && h[0] == 0x45 && h[1] == 0 && h[8] == ttl && h[9] == protocol
            && Rd16(h, 2) == (MIN_HEADER_LEN + payloadLen) % 0x1_0000
            && Rd16(h, 4) == id && Rd16(h, 6) == DONT_FRAGMENT
            && Rd32(h, 12) == src && Rd32(h, 16) == dst
  {
    var blank := Blank(src, dst, protocol, payloadLen, id, ttl);
    var h := Print(src, dst, protocol, payloadLen, id, ttl);
    BlankLayout(src, dst, protocol, payloadLen, id, ttl);
    ReadWrite16(blank, 2, (MIN_HEADER_LEN + payloadLen) % 0x1_0000);
    ReadWrite16(blank, 4, id);
    ReadWrite16(blank, 6, DONT_FRAGMENT);
    ReadWrite32(blank, 12, src);
    ReadWrite32(blank, 16, dst);
    assert forall i :: 0 <= i < 10 || 12 <= i < 20 ==> h[i] == blank[i];
  }

  /** Print then parse is the identity on every field, and the payload is recovered
      exactly, with any padding behind it stripped. */
  lemma RoundTrip(src: uint32, dst: uint32, protocol: uint8, payload: Bytes, id: uint16, ttl: uint8, padding: Bytes)
    requires |payload| <= 0xFFFF - MIN_HEADER_LEN
    ensures var h := Print(src, dst, protocol, |payload|, id, ttl);
            && Parse(h + payload + padding)
               == Some(Header(4, MIN_HEADER_LEN, 0, MIN_HEADER_LEN + |payload|, id, DONT_FRAGMENT,
                              ttl, protocol, Rd16(h, 10), src, dst, payload))
            && ChecksumValid(h + payload + padding, MIN_HEADER_LEN)
  {
    var h := Print(src, dst, protocol, |payload|, id, ttl);
    var data := h + payload + padding;
    PrintedFields(src, dst, protocol, |payload|, id, ttl);
    PrintedValidates(src, dst, protocol, |payload|, id, ttl);
    assert data[..20] == h && data[20..20 + |payload|] == payload;
    ReadPrefix16(data, h, 2);
    ReadPrefix16(data, h, 4);
    ReadPrefix16(data, h, 6);
    ReadPrefix16(data, h, 10);
    ReadPrefix32(data, h, 12);
    ReadPrefix32(data, h, 16);
  }

  /** The other direction: an accepted header of the printed form (no options, no service
      bits, don't-fragment) is printed back byte for byte, except that a checksum field of
      all ones comes back as zero. */
  lemma PrintParsed(data: Bytes)
    requires Parse(data).Some? && ChecksumValid(data, Parse(data).value.ihl)
    requires data[0] == 0x45 && data[1] == 0 && Rd16(data, 6) == DONT_FRAGMENT
    ensures var h := Parse(data).value;
            Print(h.src, h.dst, h.protocol, |h.payload|, h.id, h.ttl)
            == if h.checksum == 0xFFFF then Store(data[..20], 10, 0) else data[..20]
  {
    hide Accum, Blank, Rd16, Rd32;
    var h := Parse(data).value;
    var header := data[..20];
    var blank := Blank(h.src, h.dst, h.protocol, |h.payload|, h.id, h.ttl);
    BlankOfParsed(data);
    ChecksumStoredBack(data, blank);
    BlankLayout(h.src, h.dst, h.protocol, |h.payload|, h.id, h.ttl);
    ReadWrite16(blank, 10, 0);
    StoredSumIsUnique(blank, 10, 0, h.checksum);
    PacketFits(blank, 0);
    AllOnesOnlyForZero(blank, 0);
  }

  lemma ChecksumStoredBack(data: Bytes, blank: Bytes)
    requires |data| >= 20 && blank == Store(data[..20], 10, 0)
    ensures Store(blank, 10, Rd16(data, 10)) == data[..20]
  {
    hide Rd16;
    WriteRead16(data, 10);
  }

  lemma BlankOfParsed(data: Bytes)
    requires Parse(data).Some? && data[0] == 0x45 && data[1] == 0 && Rd16(data, 6) == DONT_FRAGMENT
    ensures var h := Parse(data).value;
            Blank(h.src, h.dst, h.protocol, |h.payload|, h.id, h.ttl) == Store(data[..20], 10, 0)
  {
    hide Rd16, Rd32, Be16, Be32;
    WriteRead16(data, 2);
    WriteRead16(data, 4);
    WriteRead16(data, 6);
    WriteRead32(data, 12);
    WriteRead32(data, 16);
    assert data[..20] == data[0..1] + data[1..2] + data[2..4] + data[4..6] + data[6..8] + data[8..9]
                         + data[9..10] + data[10..12] + data[12..16] + data[16..20];
  }

  /** The fixed part of any header, options and all field values included. */
  function Fixed(h: Header): (b: Bytes)
    requires h.ihl <= 60
    ensures |b| == MIN_HEADER_LEN
  {
    [0x40 + h.ihl / 4] + [h.dscpEcn] + Be16(h.totalLen) + Be16(h.id) + Be16(h.flagsFrag)
    + [h.ttl] + [h.protocol] + Be16(h.checksum) + Be32(h.src) + Be32(h.dst)
  }

  /** The data is the header `h` with these options, its payload, and padding. */
  predicate IsLayout(data: Bytes, h: Header, options: Bytes, padding: Bytes) {
    && h.version == 4 && h.ihl % 4 == 0 && h.ihl <= 60 && h.ihl == MIN_HEADER_LEN + |options|
    && h.totalLen == h.ihl + |h.payload|
    && data == Fixed(h) + options + h.payload + padding
  }

  /** The parser accepts exactly the datagrams: data parses to `h` if and only if it is
      laid out as `h` with some options and some padding. */
  lemma ParsesIff(data: Bytes, h: Header)
    ensures Parse(data) == Some(h) <==> exists options, padding :: IsLayout(data, h, options, padding)
  {
    hide Parse, IsLayout;
    if Parse(data) == Some(h) {
      ParsedIsLayout(data);
    }
    if exists options, padding :: IsLayout(data, h, options, padding) {
      var options, padding :| IsLayout(data, h, options, padding);
      LayoutParses(data, h, options, padding);
    }
  }

  lemma ParsedIsLayout(data: Bytes)
    requires Parse(data).Some?
    ensures var h := Parse(data).value;
            h.ihl <= |data| && h.totalLen <= |data| && 20 <= h.ihl
            && IsLayout(data, h, data[20..h.ihl], data[h.totalLen..])
  {
    var h := Parse(data).value;
    FixedOfParsed(data);
    assert data == data[..20] + data[20..h.ihl] + data[h.ihl..h.totalLen] + data[h.totalLen..];
  }

  lemma FixedOfParsed(data: Bytes)
    requires Parse(data).Some?
    ensures Parse(data).value.ihl <= 60 && |data| >= 20 && Fixed(Parse(data).value) == data[..20]
  {
    hide Rd16, Rd32, Be16, Be32;
    WriteRead16(data, 2);
    WriteRead16(data, 4);
    WriteRead16(data, 6);
    WriteRead16(data, 10);
    WriteRead32(data, 12);
    WriteRead32(data, 16);
    assert data[..20] == data[0..1] + data[1..2] + data[2..4] + data[4..6] + data[6..8] + data[8..9]
                         + data[9..10] + data[10..12] + data[12..16] + data[16..20];
  }

  lemma LayoutParses(data: Bytes, h: Header, options: Bytes, padding: Bytes)
    requires IsLayout(data, h, options, padding)
    ensures Parse(data) == Some(h)
  {
    hide Fixed, Rd16, Rd32;
    var fixed := Fixed(h);
    FixedFields(h);
    assert fixed <= data;
    assert data[h.ihl..h.totalLen] == h.payload;
    ReadPrefix16(data, fixed, 2);
    ReadPrefix16(data, fixed, 4);
    ReadPrefix16(data, fixed, 6);
    ReadPrefix16(data, fixed, 10);
    ReadPrefix32(data, fixed, 12);
    ReadPrefix32(data, fixed, 16);
  }

  lemma FixedFields(h: Header)
    requires h.ihl <= 60
    ensures var b := Fixed(h);
            && b[0] == 0x40 + h.ihl / 4 && b[1] == h.dscpEcn && b[8] == h.ttl && b[9] == h.protocol
            && Rd16(b, 2) == h.totalLen && Rd16(b, 4) == h.id && Rd16(b, 6) == h.flagsFrag
            && Rd16(b, 10) == h.checksum && Rd32(b, 12) == h.src && Rd32(b, 16) == h.dst
  {
    hide Be16, Be32, Rd16, Rd32;
    var b := Fixed(h);
    assert b[2..4] == Be16(h.totalLen) && b[4..6] == Be16(h.id) && b[6..8] == Be16(h.flagsFrag);
    assert b[10..12] == Be16(h.checksum) && b[12..16] == Be32(h.src) && b[16..20] == Be32(h.dst);
    ReadWrite16(b, 2, h.totalLen);
    ReadWrite16(b, 4, h.id);
    ReadWrite16(b, 6, h.flagsFrag);
    ReadWrite16(b, 10, h.checksum);
    ReadWrite32(b, 12, h.src);
    ReadWrite32(b, 16, h.dst);
  }

  /** gcs_ipv4_checksum_valid, with the checksum computed by the code's loop */
  method CheckChecksum(data: Bytes, ihl: nat) returns (ok: bool)
    requires ihl <= |data|
    ensures ok <==> ChecksumValid(data, ihl)
  {
    if ihl < MIN_HEADER_LEN {
      return false;
    }
    var c := ComputeAccum(data[..ihl], 0);
    ok := c == 0;
  }

  /** gcs_ipv4_write_header, at an offset into the frame buffer */
  method WriteHeader(out: array<uint8>, off: nat, src: uint32, dst: uint32, protocol: uint8,
                     payloadLen: uint16, id: uint16, ttl: uint8) returns (ok: bool)
    requires off <= out.Length
    modifies out
    ensures ok <==> out.Length - off >= MIN_HEADER_LEN
    ensures out[..] == if ok then Splice(old(out[..]), off, Print(src, dst, protocol, payloadLen, id, ttl))
                       else old(out[..])
  {
    if out.Length - off < MIN_HEADER_LEN {
      return false;
    }
    ghost var before := out[..];
    var total: uint16 := (MIN_HEADER_LEN + payloadLen) % 0x1_0000;
    ghost var done: Bytes := [0x45];
    Wr8(out, off, 0x45);
    SpliceAfter(before, off, done, [0]);
    done := done + [0];
    Wr8(out, off + 1, 0);
    SpliceAfter(before, off, done, Be16(total));
    done := done + Be16(total);
    Wr16(out, off + 2, total);
    SpliceAfter(before, off, done, Be16(id));
    done := done + Be16(id);
    Wr16(out, off + 4, id);
    SpliceAfter(before, off, done, Be16(DONT_FRAGMENT));
    done := done + Be16(DONT_FRAGMENT);
    Wr16(out, off + 6, DONT_FRAGMENT);
    SpliceAfter(before, off, done, [ttl]);
    done := done + [ttl];
    Wr8(out, off + 8, ttl);
    SpliceAfter(before, off, done, [protocol]);
    done := done + [protocol];
    Wr8(out, off + 9, protocol);
    SpliceAfter(before, off, done, Be16(0));
    done := done + Be16(0);
    Wr16(out, off + 10, 0);
    SpliceAfter(before, off, done, Be32(src));
    done := done + Be32(src);
    Wr32(out, off + 12, src);
    SpliceAfter(before, off, done, Be32(dst));
    done := done + Be32(dst);
    Wr32(out, off + 16, dst);

    SpliceSlice(before, off, done);
    var c := ComputeAccum(out[off..off + MIN_HEADER_LEN], 0);
    Wr16(out, off + 10, c);
    SpliceWithin(before, off, done, 10, Be16(c));
    ok := true;
  }
}
