/** ICMP echo messages (src/gcs_icmp.c; RFC 792, "Echo or Echo Reply Message"). */
module Icmp {
  import opened Types
  import opened Checksum

  const HEADER_LEN := 8
  const ECHO_REPLY: uint8 := 0
  const ECHO_REQUEST: uint8 := 8

  datatype Echo = Echo(kind: uint8, code: uint8, checksum: uint16, id: uint16, seqNo: uint16, payload: Bytes)

  /** gcs_icmp_parse_echo */
  function Parse(data: Bytes): Option<Echo> {
    if |data| < HEADER_LEN || Sum(data) != 0 then None
    else Some(Echo(data[0], data[1], Rd16(data, 2), Rd16(data, 4), Rd16(data, 6), data[8..]))
  }

  /** A code-0 message with a zero checksum field. */
  function Blank(kind: uint8, id: uint16, seqNo: uint16, payload: Bytes): (m: Bytes)
    ensures |m| == HEADER_LEN + |payload|
  {
    [kind] + [0] + Be16(0) + Be16(id) + Be16(seqNo) + payload
  }

  function Print(kind: uint8, id: uint16, seqNo: uint16, payload: Bytes): (m: Bytes)
    ensures |m| == HEADER_LEN + |payload|
  {
    var blank := Blank(kind, id, seqNo, payload);
    Store(blank, 2, Sum(blank))
  }

  lemma BlankLayout(kind: uint8, id: uint16, seqNo: uint16, payload: Bytes)
    ensures var m := Blank(kind, id, seqNo, payload);
            && m[0] == kind && m[1] == 0 && Rd16(m, 2) == 0 && Rd16(m, 4) == id && Rd16(m, 6) == seqNo
            && m[8..] == payload
  {
  }

  lemma PrintLayout(kind: uint8, id: uint16, seqNo: uint16, payload: Bytes)
    ensures var m := Print(kind, id, seqNo, payload);
            && m[0] == kind && m[1] == 0 && Rd16(m, 2) == Sum(Blank(kind, id, seqNo, payload))
            && Rd16(m, 4) == id && Rd16(m, 6) == seqNo && m[8..] == payload
  {
  }

  /** A printed message of any IPv4 size is accepted and gives its fields back. */
  lemma RoundTrip(kind: uint8, id: uint16, seqNo: uint16, payload: Bytes)
    requires HEADER_LEN + |payload| <= 0xFFFF
    ensures var m := Print(kind, id, seqNo, payload);
            Parse(m) == Some(Echo(kind, 0, Rd16(m, 2), id, seqNo, payload))
  {
    var blank := Blank(kind, id, seqNo, payload);
    BlankLayout(kind, id, seqNo, payload);
    PrintLayout(kind, id, seqNo, payload);
    StoredSumIsUnique(blank, 2, 0, Sum(blank));
  }

  /** The parser accepts exactly the valid messages of eight bytes or more, of any type and
      code: data parses to `e` if and only if it is laid out as `e` and its checksum holds. */
  lemma ParsesIff(data: Bytes, e: Echo)
    ensures Parse(data) == Some(e)
            <==> Sum(data) == 0
                 && data == [e.kind] + [e.code] + Be16(e.checksum) + Be16(e.id) + Be16(e.seqNo) + e.payload
  {
    hide Sum, Be16, Rd16;
    var layout := [e.kind] + [e.code] + Be16(e.checksum) + Be16(e.id) + Be16(e.seqNo) + e.payload;
    if |data| >= 8 {
      WriteRead16(data, 2);
      WriteRead16(data, 4);
      WriteRead16(data, 6);
      assert data == data[0..1] + data[1..2] + data[2..4] + data[4..6] + data[6..8] + data[8..];
    }
    if data == layout {
      assert data[2..4] == Be16(e.checksum) && data[4..6] == Be16(e.id) && data[6..8] == Be16(e.seqNo);
      ReadWrite16(data, 2, e.checksum);
      ReadWrite16(data, 4, e.id);
      ReadWrite16(data, 6, e.seqNo);
      assert data[8..] == e.payload;
    }
  }

  // ---- The reply against the request ----

  lemma WordSumOfBlank(kind: uint8, id: uint16, seqNo: uint16, payload: Bytes)
    ensures WordSum(Blank(kind, id, seqNo, payload)) == kind as int * 0x100 + id + seqNo + WordSum(payload)
  {
    var start: Bytes := [kind] + [0];
    assert start[2..] == [];
    assert WordSum(start) == kind as int * 0x100;
    WordSum16(0);
    WordSum16(id);
    WordSum16(seqNo);
    WordSumAppend(start, Be16(0));
    WordSumAppend(start + Be16(0), Be16(id));
    WordSumAppend(start + Be16(0) + Be16(id), Be16(seqNo));
    WordSumAppend(start + Be16(0) + Be16(id) + Be16(seqNo), payload);
  }

  /** The message with the given code, its checksum filled in. */
  function Coded(kind: uint8, code: uint8, id: uint16, seqNo: uint16, payload: Bytes): (m: Bytes)
    ensures |m| == HEADER_LEN + |payload|
  {
    var blank := Blank(kind, id, seqNo, payload)[1 := code];
    Store(blank, 2, Sum(blank))
  }

  lemma CodedLayout(kind: uint8, code: uint8, id: uint16, seqNo: uint16, payload: Bytes)
    ensures var m := Coded(kind, code, id, seqNo, payload); m[0] == kind && m[1] == code
  {
  }

  /** It is accepted as well, whatever the code. */
  lemma CodedIsAccepted(kind: uint8, code: uint8, id: uint16, seqNo: uint16, payload: Bytes)
    requires HEADER_LEN + |payload| <= 0xFFFF
    ensures var m := Coded(kind, code, id, seqNo, payload);
            Parse(m) == Some(Echo(kind, code, Rd16(m, 2), id, seqNo, payload))
  {
    hide Accum, Blank;
    var blank := Blank(kind, id, seqNo, payload);
    BlankLayout(kind, id, seqNo, payload);
    var coded := blank[1 := code];
    assert forall i :: 2 <= i < |blank| ==> coded[i] == blank[i];
    assert Rd16(coded, 2) == Rd16(blank, 2);
    StoredSumIsUnique(coded, 2, 0, Sum(coded));
    var m := Coded(kind, code, id, seqNo, payload);
    assert forall i :: 4 <= i < |m| ==> m[i] == blank[i];
    assert m[8..] == blank[8..];
  }

  /** An accepted message is its own printed form with its own code and checksum. */
  lemma AcceptedIsBlankPlusSum(data: Bytes)
    requires Parse(data).Some?
    ensures var e := Parse(data).value;
            data == Store(Blank(e.kind, e.id, e.seqNo, e.payload), 2, e.checksum)[1 := e.code]
  {
  }

  /** The all-zero echo has the second representation of zero for its reply's checksum. */
  predicate AllZero(e: Echo) {
    e.id == 0 && e.seqNo == 0 && forall i :: 0 <= i < |e.payload| ==> e.payload[i] == 0
  }

  /** The incremental law of RFC 1624, section 3, for the reply to any accepted echo request:
      the reply is the request with the type, the code and the checksum changed, and the new
      checksum is the old one plus 0x0800 and the code, modulo 65535. So only the type and
      the checksum change exactly for code 0. Of the two representations of zero the code
      writes all ones exactly when identifier, sequence number and payload are all zero. */
  lemma ReplyIsIncremental(request: Bytes)
    requires |request| <= 0xFFFF
    requires Parse(request).Some? && request[0] == ECHO_REQUEST
    ensures var e := Parse(request).value;
            var reply := Print(ECHO_REPLY, e.id, e.seqNo, e.payload);
            && reply == Store(request[0 := ECHO_REPLY][1 := 0], 2, Rd16(reply, 2))
            && (reply == Store(request[0 := ECHO_REPLY], 2, Rd16(reply, 2)) <==> e.code == 0)
            && Rd16(reply, 2) % 0xFFFF == (e.checksum + 0x0800 + e.code) % 0xFFFF
            && (Rd16(reply, 2) == 0xFFFF <==> AllZero(e))
  {
    hide Accum, Blank, Print, Store, AllZero;
    var e := Parse(request).value;
    AcceptedIsBlankPlusSum(request);
    PrintLayout(ECHO_REPLY, e.id, e.seqNo, e.payload);
    ReplyDiffersInThreeFields(e, request);
    RequestSum(e);
    ReplySum(e);
  }

  lemma RequestSum(e: Echo)
    requires HEADER_LEN + |e.payload| <= 0xFFFF
    requires Sum(Store(Blank(ECHO_REQUEST, e.id, e.seqNo, e.payload), 2, e.checksum)[1 := e.code]) == 0
    ensures (0x0800 + e.code + e.checksum + (e.id + e.seqNo + WordSum(e.payload))) % 0xFFFF == 0
  {
    hide Fold, WordSum, Accum, Blank, Store, Be16;
    var asked := Blank(ECHO_REQUEST, e.id, e.seqNo, e.payload);
    var stored := Store(asked, 2, e.checksum);
    BlankLayout(ECHO_REQUEST, e.id, e.seqNo, e.payload);
    WordSumStore(asked, 2, e.checksum);
    WordSumOfBlank(ECHO_REQUEST, e.id, e.seqNo, e.payload);
    StoreKeepsByte(asked, 2, e.checksum, 1);
    WordSumByte(stored, 1, e.code);
    PacketFits(stored[1 := e.code], 0);
    ValidatesIff(stored[1 := e.code], 0);
  }

  lemma StoreKeepsByte(data: Bytes, at: nat, v: uint16, i: nat)
    requires at + 2 <= |data| && i < at
    ensures Store(data, at, v)[i] == data[i]
  {
  }

  lemma ReplySum(e: Echo)
    requires HEADER_LEN + |e.payload| <= 0xFFFF
    requires (0x0800 + e.code + e.checksum + (e.id + e.seqNo + WordSum(e.payload))) % 0xFFFF == 0
    ensures var c := Sum(Blank(ECHO_REPLY, e.id, e.seqNo, e.payload));
            && c % 0xFFFF == (e.checksum + 0x0800 + e.code) % 0xFFFF
            && (c == 0xFFFF <==> AllZero(e))
  {
    hide Fold, WordSum, Blank;
    var blank := Blank(ECHO_REPLY, e.id, e.seqNo, e.payload);
    WordSumOfBlank(ECHO_REPLY, e.id, e.seqNo, e.payload);
    PacketFits(blank, 0);
    Complement(WordSum(blank), e.checksum + 0x0800 + e.code);
    WordSumZero(e.payload);
  }

  lemma ReplyDiffersInThreeFields(e: Echo, request: Bytes)
    requires request == Store(Blank(ECHO_REQUEST, e.id, e.seqNo, e.payload), 2, e.checksum)[1 := e.code]
    ensures var reply := Print(ECHO_REPLY, e.id, e.seqNo, e.payload);
            && reply == Store(request[0 := ECHO_REPLY][1 := 0], 2, Rd16(reply, 2))
            && (reply == Store(request[0 := ECHO_REPLY], 2, Rd16(reply, 2)) <==> e.code == 0)
  {
    hide Be16, Sum, Rd16;
    var (asked, blank) := (Blank(ECHO_REQUEST, e.id, e.seqNo, e.payload), Blank(ECHO_REPLY, e.id, e.seqNo, e.payload));
    PrintLayout(ECHO_REPLY, e.id, e.seqNo, e.payload);
    assert forall i :: 1 <= i < |blank| ==> blank[i] == asked[i];
    var retyped := request[0 := ECHO_REPLY];
    StoreOver(retyped[1 := 0], blank, Sum(blank));
    StoreKeepsByte(retyped, 2, Sum(blank), 1);
    assert e.code == 0 ==> retyped[1 := 0] == retyped;
  }

  /** What a stored word overwrites does not matter. */
  lemma StoreOver(a: Bytes, b: Bytes, v: uint16)
    requires |a| == |b| >= 4 && forall i :: 0 <= i < |a| && i !in {2, 3} ==> a[i] == b[i]
    ensures Store(a, 2, v) == Store(b, 2, v)
  {
  }

  /** If c + s is zero modulo 65535, the complement of s is c. */
  lemma Complement(s: nat, c: nat)
    requires (c + s) % 0xFFFF == 0
    ensures (0xFFFF - Fold(s)) % 0xFFFF == c % 0xFFFF
    ensures 0xFFFF - Fold(s) == 0xFFFF <==> s == 0
  {
    hide Fold;
    var k := FoldQuotient(s);
    var n := (c + s) / 0xFFFF;
    assert c + s == 0xFFFF * n;
    Congruent(0xFFFF - Fold(s), c, 1 + k - n);
  }

  // ---- The code ----

  /** gcs_icmp_parse_echo, with the checksum computed by the code's loop */
  method ParseEcho(data: Bytes) returns (r: Option<Echo>)
    ensures r == Parse(data)
  {
    if |data| < HEADER_LEN {
      return None;
    }
    var c := ComputeAccum(data, 0);
    if c != 0 {
      return None;
    }
    r := Some(Echo(data[0], data[1], Rd16(data, 2), Rd16(data, 4), Rd16(data, 6), data[8..]));
  }

  /** gcs_icmp_build_echo_reply, at an offset into the frame buffer. A reply always
      carries code 0. */
  method BuildEchoReply(out: array<uint8>, off: nat, request: Echo) returns (n: nat)
    requires off <= out.Length
    modifies out
    ensures n == if out.Length - off < HEADER_LEN + |request.payload| then 0
                 else HEADER_LEN + |request.payload|
    ensures out[..] == if n == 0 then old(out[..])
                       else Splice(old(out[..]), off, Print(ECHO_REPLY, request.id, request.seqNo, request.payload))
  {
    n := HEADER_LEN + |request.payload|;
    if out.Length - off < n {
      return 0;
    }
    ghost var before := out[..];
    ghost var done: Bytes := [ECHO_REPLY];
    Wr8(out, off, ECHO_REPLY);
    SpliceAfter(before, off, done, [0]);
    done := done + [0];
    Wr8(out, off + 1, 0);
    SpliceAfter(before, off, done, Be16(0));
    done := done + Be16(0);
    Wr16(out, off + 2, 0);
    SpliceAfter(before, off, done, Be16(request.id));
    done := done + Be16(request.id);
    Wr16(out, off + 4, request.id);
    SpliceAfter(before, off, done, Be16(request.seqNo));
    done := done + Be16(request.seqNo);
    Wr16(out, off + 6, request.seqNo);
    SpliceAfter(before, off, done, request.payload);
    if |request.payload| > 0 {
      Copy(out, off + HEADER_LEN, request.payload);
    } else {
      SpliceNothing(out[..], off + HEADER_LEN);
    }
    done := done + request.payload;

    SpliceSlice(before, off, done);
    var c := ComputeAccum(out[off..off + n], 0);
    Wr16(out, off + 2, c);
    SpliceWithin(before, off, done, 2, Be16(c));
  }
}
