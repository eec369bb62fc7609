/** Ethernet II framing (src/gcs_ethernet.c). */
module Ethernet {
  import opened Types

  const HEADER_LEN := 14
  const TYPE_IPV4: uint16 := 0x0800
  const TYPE_ARP: uint16 := 0x0806

  datatype Frame = Frame(dst: Mac, src: Mac, ethertype: uint16, payload: Bytes)

  /** gcs_eth_parse */
  function Parse(data: Bytes): Option<Frame> {
    if |data| < HEADER_LEN then None
    else Some(Frame(data[..6], data[6..12], Rd16(data, 12), data[14..]))
  }

  function Header(dst: Mac, src: Mac, ethertype: uint16): (h: Bytes)
    ensures |h| == HEADER_LEN
  {
    dst + src + Be16(ethertype)
  }

  lemma RoundTrip(dst: Mac, src: Mac, ethertype: uint16, payload: Bytes)
    ensures Parse(Header(dst, src, ethertype) + payload) == Some(Frame(dst, src, ethertype, payload))
  {
    var data := Header(dst, src, ethertype) + payload;
    assert data[..6] == dst && data[6..12] == src && data[14..] == payload;
    assert data[12..14] == Be16(ethertype);
    ReadWrite16(data, 12, ethertype);
  }

  /** A frame parses to given fields exactly if it is their header followed by the payload. */
  lemma ParsesIff(data: Bytes, f: Frame)
    ensures Parse(data) == Some(f) <==> data == Header(f.dst, f.src, f.ethertype) + f.payload
  {
    if |data| >= HEADER_LEN {
      WriteRead16(data, 12);
    }
    RoundTrip(f.dst, f.src, f.ethertype, f.payload);
  }

  /** gcs_eth_write_header */
  method WriteHeader(out: array<uint8>, dst: Mac, src: Mac, ethertype: uint16) returns (ok: bool)
    modifies out
    ensures ok <==> out.Length >= HEADER_LEN
    ensures out[..] == if ok then Splice(old(out[..]), 0, Header(dst, src, ethertype)) else old(out[..])
  {
    if out.Length < HEADER_LEN {
      return false;
    }
    ghost var before := out[..];
    Copy(out, 0, dst);
    Copy(out, 6, src);
    SpliceAfter(before, 0, dst, src);
    Wr16(out, 12, ethertype);
    SpliceAfter(before, 0, dst + src, Be16(ethertype));
    ok := true;
  }
}
