/** Fixed-width integers, byte strings and the big-endian readers and writers
    (include/gcstcpip/gcs_types.h).

    A read-only pointer with a length is a value of type `Bytes`. A pointer that is
    written through is an array with an offset, and a write is specified by `Splice`
    on the array's contents. */
module Types {
  type uint8 = x: int | 0 <= x < 0x100
  type uint16 = x: int | 0 <= x < 0x1_0000
  type uint32 = x: int | 0 <= x < 0x1_0000_0000
  type uint64 = x: int | 0 <= x < 0x1_0000_0000_0000_0000

  type Bytes = seq<uint8>

  type Mac = m: Bytes | |m| == 6 witness [0, 0, 0, 0, 0, 0]

  const BROADCAST: Mac := [0xFF, 0xFF, 0xFF, 0xFF, 0xFF, 0xFF]

  datatype Option<+T> = None | Some(value: T)

  /** uint32_t addition; it wraps. */
  function Add32(a: uint32, b: int): (r: uint32)
    ensures 0 <= a + b < 0x1_0000_0000 ==> r == a + b
  {
    (a + b) % 0x1_0000_0000
  }

  lemma Add32Assoc(x: uint32, a: nat, b: nat)
    ensures Add32(Add32(x, a), b) == Add32(x, a + b)
  {
  }

  lemma Add32Zero(x: uint32)
    ensures Add32(x, 0) == x
  {
  }

  // ---- Big-endian words ----

  function Rd16(p: Bytes, i: nat): uint16
    requires i + 2 <= |p|
  {
    p[i] as int * 0x100 + p[i + 1]
  }

  function Rd32(p: Bytes, i: nat): uint32
    requires i + 4 <= |p|
  {
    p[i] as int * 0x100_0000 + p[i + 1] as int * 0x1_0000 + p[i + 2] as int * 0x100 + p[i + 3]
  }

  function Be16(v: uint16): (b: Bytes)
    ensures |b| == 2
  {
    [v / 0x100, v % 0x100]
  }

  function Be32(v: uint32): (b: Bytes)
    ensures |b| == 4
  {
    [v / 0x100_0000, v / 0x1_0000 % 0x100, v / 0x100 % 0x100, v % 0x100]
  }

  /** Reading a written 16-bit word gives it back, wherever it stands. */
  lemma ReadWrite16(p: Bytes, i: nat, v: uint16)
    requires i + 2 <= |p| && p[i..i + 2] == Be16(v)
    ensures Rd16(p, i) == v
  {
  }

  lemma ReadWrite32(p: Bytes, i: nat, v: uint32)
    requires i + 4 <= |p| && p[i..i + 4] == Be32(v)
    ensures Rd32(p, i) == v
  {
    var q := p[i..i + 4];
    assert p[i] == q[0] && p[i + 1] == q[1] && p[i + 2] == q[2] && p[i + 3] == q[3];
    Digits32(v);
  }

  lemma Digits32(v: uint32)
    ensures v == v / 0x100_0000 * 0x100_0000 + v / 0x1_0000 % 0x100 * 0x1_0000 + v / 0x100 % 0x100 * 0x100 + v % 0x100
  {
    var (x, y) := (v / 0x100, v / 0x1_0000);
    assert v == 0x100 * x + v % 0x100;
    assert x == 0x100 * y + x % 0x100;
    assert y == 0x100 * (v / 0x100_0000) + y % 0x100;
  }

  /** Writing a word that was read gives the same bytes back. */
  lemma WriteRead16(p: Bytes, i: nat)
    requires i + 2 <= |p|
    ensures Be16(Rd16(p, i)) == p[i..i + 2]
  {
  }

  lemma WriteRead32(p: Bytes, i: nat)
    requires i + 4 <= |p|
    ensures Be32(Rd32(p, i)) == p[i..i + 4]
  {
    var v := Rd32(p, i);
    assert v / 0x100_0000 == p[i];
    assert v / 0x1_0000 == Rd16(p, i);
    assert v / 0x100 == Rd16(p, i) as int * 0x100 + p[i + 2];
  }

  lemma ReadPrefix16(p: Bytes, q: Bytes, i: nat)
    requires q <= p && i + 2 <= |q|
    ensures Rd16(p, i) == Rd16(q, i)
  {
  }

  lemma ReadPrefix32(p: Bytes, q: Bytes, i: nat)
    requires q <= p && i + 4 <= |q|
    ensures Rd32(p, i) == Rd32(q, i)
  {
  }

  // ---- Overwriting part of a buffer ----

  function Splice(s: Bytes, off: nat, b: Bytes): (r: Bytes)
    requires off + |b| <= |s|
    ensures |r| == |s|
    ensures forall i :: 0 <= i < |s| ==> r[i] == if off <= i < off + |b| then b[i - off] else s[i]
  {
    s[..off] + b + s[off + |b|..]
  }

  lemma SpliceAfter(s: Bytes, off: nat, a: Bytes, b: Bytes)
    requires off + |a| + |b| <= |s|
    ensures Splice(Splice(s, off, a), off + |a|, b) == Splice(s, off, a + b)
  {
  }

  lemma SpliceBefore(s: Bytes, off: nat, a: Bytes, b: Bytes)
    requires off + |a| + |b| <= |s|
    ensures Splice(Splice(s, off + |a|, b), off, a) == Splice(s, off, a + b)
  {
  }

  lemma SpliceWithin(s: Bytes, off: nat, a: Bytes, at: nat, b: Bytes)
    requires off + |a| <= |s| && at + |b| <= |a|
    ensures Splice(Splice(s, off, a), off + at, b) == Splice(s, off, Splice(a, at, b))
  {
  }

  lemma SpliceSlice(s: Bytes, off: nat, b: Bytes)
    requires off + |b| <= |s|
    ensures Splice(s, off, b)[off..off + |b|] == b
  {
  }

  lemma SliceOfTail<T>(s: seq<T>, n: nat, a: nat, b: nat)
    requires n + b <= |s| && a <= b
    ensures s[n..][a..b] == s[n + a..n + b]
  {
  }

  lemma TailOfSlice<T>(s: seq<T>, a: nat, b: nat, c: nat)
    requires a + c <= b <= |s|
    ensures s[a..b][c..] == s[a + c..b]
  {
  }

  lemma SpliceNothing(s: Bytes, off: nat)
    requires off <= |s|
    ensures Splice(s, off, []) == s
  {
  }

  method Wr16(out: array<uint8>, off: nat, v: uint16)
    requires off + 2 <= out.Length
    modifies out
    ensures out[..] == Splice(old(out[..]), off, Be16(v))
  {
    out[off] := v / 0x100;
    out[off + 1] := v % 0x100;
  }

  method Wr32(out: array<uint8>, off: nat, v: uint32)
    requires off + 4 <= out.Length
    modifies out
    ensures out[..] == Splice(old(out[..]), off, Be32(v))
  {
    out[off] := v / 0x100_0000;
    out[off + 1] := v / 0x1_0000 % 0x100;
    out[off + 2] := v / 0x100 % 0x100;
    out[off + 3] := v % 0x100;
  }

  method Wr8(out: array<uint8>, off: nat, v: uint8)
    requires off < out.Length
    modifies out
    ensures out[..] == Splice(old(out[..]), off, [v])
  {
    out[off] := v;
  }

  /** memcpy from a read-only buffer. */
  method Copy(out: array<uint8>, off: nat, src: Bytes)
    requires off + |src| <= out.Length
    modifies out
    ensures out[..] == Splice(old(out[..]), off, src)
  {
    forall i | 0 <= i < |src| {
      out[off + i] := src[i];
    }
  }
}
