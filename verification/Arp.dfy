/** ARP over Ethernet and IPv4 (src/gcs_arp.c; RFC 826). */
module Arp {
  import opened Types

  const HEADER_LEN := 28
  const HW_ETHERNET: uint16 := 1
  const OP_REQUEST: uint16 := 1
  const OP_REPLY: uint16 := 2

  datatype Packet = Packet(
    hwType: uint16, protoType: uint16, hwLen: uint8, protoLen: uint8, opcode: uint16,
    senderMac: Mac, senderIp: uint32, targetMac: Mac, targetIp: uint32)

  /** gcs_arp_parse */
  function Parse(data: Bytes): Option<Packet> {
    if |data| < HEADER_LEN then None
    else if data[4] != 6 || data[5] != 4 then None
    else Some(Packet(Rd16(data, 0), Rd16(data, 2), data[4], data[5], Rd16(data, 6),
                     data[8..14], Rd32(data, 14), data[18..24], Rd32(data, 24)))
  }

  function Print(p: Packet): (b: Bytes)
    ensures |b| == HEADER_LEN
  {
    Be16(p.hwType) + Be16(p.protoType) + [p.hwLen] + [p.protoLen] + Be16(p.opcode)
    + p.senderMac + Be32(p.senderIp) + p.targetMac + Be32(p.targetIp)
  }

  /** Whatever follows the packet, it parses to itself. */
  lemma RoundTrip(p: Packet, padding: Bytes)
    requires p.hwLen == 6 && p.protoLen == 4
    ensures Parse(Print(p) + padding) == Some(p)
  {
    var b := Print(p) + padding;
    assert b[0..2] == Be16(p.hwType);
    assert b[2..4] == Be16(p.protoType);
    assert b[6..8] == Be16(p.opcode);
    assert b[8..14] == p.senderMac;
    assert b[14..18] == Be32(p.senderIp);
    assert b[18..24] == p.targetMac;
    assert b[24..28] == Be32(p.targetIp);
    ReadWrite16(b, 0, p.hwType);
    ReadWrite16(b, 2, p.protoType);
    ReadWrite16(b, 6, p.opcode);
    ReadWrite32(b, 14, p.senderIp);
    ReadWrite32(b, 24, p.targetIp);
  }

  /** An accepted packet is printed back byte for byte. */
  lemma PrintParsed(data: Bytes)
    requires Parse(data).Some?
    ensures Print(Parse(data).value) == data[..HEADER_LEN]
  {
    WriteRead16(data, 0);
    WriteRead16(data, 2);
    WriteRead16(data, 6);
    WriteRead32(data, 14);
    WriteRead32(data, 24);
    var p := Parse(data).value;
    assert Be16(p.hwType) + Be16(p.protoType) + [p.hwLen] + [p.protoLen] == data[..6];
    assert data[..6] + Be16(p.opcode) + p.senderMac == data[..14];
    assert data[..14] + Be32(p.senderIp) + p.targetMac + Be32(p.targetIp) == data[..28];
  }

  /** Data parses to a packet exactly if it begins with the packet's printed form and the
      packet is for Ethernet and IPv4. */
  lemma ParsesIff(data: Bytes, p: Packet)
    ensures Parse(data) == Some(p) <==> Print(p) <= data && p.hwLen == 6 && p.protoLen == 4
  {
    hide Parse, Print;
    if Parse(data) == Some(p) {
      PrintParsed(data);
      ParsedLengths(data);
    }
    if Print(p) <= data && p.hwLen == 6 && p.protoLen == 4 {
      RoundTrip(p, data[HEADER_LEN..]);
      assert data == Print(p) + data[HEADER_LEN..];
    }
  }

  lemma ParsedLengths(data: Bytes)
    requires Parse(data).Some?
    ensures |data| >= HEADER_LEN && Parse(data).value.hwLen == 6 && Parse(data).value.protoLen == 4
  {
  }

  /** gcs_arp_write, at an offset into the frame buffer */
  method Write(out: array<uint8>, off: nat, p: Packet) returns (ok: bool)
    requires off <= out.Length
    modifies out
    ensures ok <==> out.Length - off >= HEADER_LEN
    ensures out[..] == if ok then Splice(old(out[..]), off, Print(p)) else old(out[..])
  {
    if out.Length - off < HEADER_LEN {
      return false;
    }
    ghost var before := out[..];
    ghost var done := Be16(p.hwType);
    Wr16(out, off, p.hwType);
    SpliceAfter(before, off, done, Be16(p.protoType));
    done := done + Be16(p.protoType);
    Wr16(out, off + 2, p.protoType);
    SpliceAfter(before, off, done, [p.hwLen]);
    done := done + [p.hwLen];
    Wr8(out, off + 4, p.hwLen);
    SpliceAfter(before, off, done, [p.protoLen]);
    done := done + [p.protoLen];
    Wr8(out, off + 5, p.protoLen);
    SpliceAfter(before, off, done, Be16(p.opcode));
    done := done + Be16(p.opcode);
    Wr16(out, off + 6, p.opcode);
    SpliceAfter(before, off, done, p.senderMac);
    done := done + p.senderMac;
    Copy(out, off + 8, p.senderMac);
    SpliceAfter(before, off, done, Be32(p.senderIp));
    done := done + Be32(p.senderIp);
    Wr32(out, off + 14, p.senderIp);
    SpliceAfter(before, off, done, p.targetMac);
    done := done + p.targetMac;
    Copy(out, off + 18, p.targetMac);
    SpliceAfter(before, off, done, Be32(p.targetIp));
    done := done + Be32(p.targetIp);
    Wr32(out, off + 24, p.targetIp);
    ok := true;
  }
}
