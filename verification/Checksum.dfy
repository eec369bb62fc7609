/** The Internet checksum (src/gcs_checksum.c; RFC 1071, section 2).

    `Fold` and `WordSum` describe the deferred-carry arithmetic of the code;
    `OnesSum` is the standard's own reading, one end-around carry per word. */
module Checksum {
  import opened Types

  const TWO_32 := 0x1_0000_0000

  /** Sum of the big-endian 16-bit words; an odd last byte is padded on the right. */
  function WordSum(data: Bytes): nat {
    if |data| == 0 then 0
    else if |data| == 1 then data[0] as int * 0x100
    else Rd16(data, 0) + WordSum(data[2..])
  }

  function FoldOnce(s: nat): nat {
    s % 0x1_0000 + s / 0x1_0000
  }

  /** Add the high half to the low half until nothing is left above 16 bits. */
  function Fold(s: nat): uint16 {
    if s < 0x1_0000 then s
    else
      FoldOnceShrinks(s);
      Fold(FoldOnce(s))
  }

  lemma FoldOnceShrinks(s: nat)
    requires s >= 0x1_0000
    ensures s == 0xFFFF * (s / 0x1_0000) + FoldOnce(s)
    ensures 0 < FoldOnce(s) < s
  {
  }

  /** gcs_checksum_accum: the accumulator is a uint32_t and wraps. */
  function Accum(data: Bytes, seed: uint32): uint16 {
    0xFFFF - Fold((seed + WordSum(data)) % TWO_32)
  }

  /** gcs_checksum */
  function Sum(data: Bytes): uint16 {
    Accum(data, 0)
  }

  /** No carry is lost: the true sum fits the 32-bit accumulator. */
  ghost predicate Fits(data: Bytes, seed: uint32) {
    seed + WordSum(data) < TWO_32
  }

  // ---- The code's loops ----

  method Finish(sum: uint32) returns (r: uint16)
    ensures r == 0xFFFF - Fold(sum)
  {
    var s: uint32 := sum;
    while s / 0x1_0000 != 0
      invariant Fold(s) == Fold(sum)
      decreases s
    {
      s := s % 0x1_0000 + s / 0x1_0000;
    }
    r := 0xFFFF - s;
  }

  method ComputeAccum(data: Bytes, seed: uint32) returns (r: uint16)
    ensures r == Accum(data, seed)
  {
    var sum: uint32 := seed;
    var i := 0;
    ghost var total: nat := seed;
    while i + 1 < |data|
      invariant 0 <= i <= |data|
      invariant sum == total % TWO_32
      invariant total + WordSum(data[i..]) == seed + WordSum(data)
      decreases |data| - i
    {
      assert data[i..][2..] == data[i + 2..];
      WrapAbsorbs(total, Rd16(data, i));
      total := total + Rd16(data, i);
      sum := Add32(sum, Rd16(data, i));
      i := i + 2;
    }
    if i < |data| {
      WrapAbsorbs(total, data[i] as int * 0x100);
      sum := Add32(sum, data[i] as int * 0x100);
    }
    r := Finish(sum);
  }

  lemma WrapAbsorbs(a: nat, b: nat)
    ensures (a % TWO_32 + b) % TWO_32 == (a + b) % TWO_32
  {
  }

  // ---- Fold ----

  /** Folding takes multiples of 65535 away and reaches zero only from zero. */
  lemma {:induction false} FoldQuotient(s: nat) returns (k: nat)
    ensures s == 0xFFFF * k + Fold(s)
    ensures Fold(s) == 0 <==> s == 0
    decreases s
  {
    if s < 0x1_0000 {
      k := 0;
    } else {
      FoldOnceShrinks(s);
      k := FoldQuotient(FoldOnce(s));
      k := k + s / 0x1_0000;
    }
  }

  /** Those two facts determine the folded value. */
  lemma FoldUnique(s: int, r: uint16, k: int)
    requires s >= 0
    requires s == 0xFFFF * k + r
    requires r == 0 <==> s == 0
    ensures Fold(s) == r
  {
    hide Fold;
    var j := FoldQuotient(s);
    assert -1 <= j - k <= 1;
  }

  /** Folding to all ones: the sum is a positive multiple of 65535. */
  lemma FoldsToAllOnesIff(s: nat)
    ensures Fold(s) == 0xFFFF <==> s > 0 && s % 0xFFFF == 0
  {
    hide Fold;
    var k := FoldQuotient(s);
    if Fold(s) == 0xFFFF {
      Multiple(s, k + 1);
    }
    if s > 0 && s % 0xFFFF == 0 {
      assert s == 0xFFFF * (s / 0xFFFF);
      FoldUnique(s, 0xFFFF, s / 0xFFFF - 1);
    }
  }

  lemma Multiple(s: int, k: int)
    requires s == 0xFFFF * k
    ensures s % 0xFFFF == 0
  {
  }

  /** A 32-bit accumulator is folded in at most two rounds. */
  lemma FoldInTwoRounds(s: uint32)
    ensures Fold(s) == FoldOnce(FoldOnce(s)) < 0x1_0000
  {
  }

  // ---- Refinement of RFC 1071 ----

  /** One's complement addition: a carry out of bit 15 comes back in at bit 0. */
  function EndAroundAdd(a: uint16, b: uint16): uint16 {
    if a + b > 0xFFFF then a + b - 0xFFFF else a + b
  }

  /** Left fold of end-around additions over the padded words. */
  function OnesSum(acc: uint16, data: Bytes): uint16
    decreases |data|
  {
    if |data| == 0 then acc
    else if |data| == 1 then EndAroundAdd(acc, Rd16([data[0], 0], 0))
    else OnesSum(EndAroundAdd(acc, Rd16(data, 0)), data[2..])
  }

  lemma FoldAddsAround(s: nat, w: uint16)
    ensures Fold(s + w) == EndAroundAdd(Fold(s), w)
  {
    hide Fold;
    var k := FoldQuotient(s);
    var f := Fold(s);
    FoldUnique(s + w, EndAroundAdd(f, w), if f + w > 0xFFFF then k + 1 else k);
  }

  lemma {:induction false} FoldOfSum(s: nat, data: Bytes)
    ensures Fold(s + WordSum(data)) == OnesSum(Fold(s), data)
    decreases |data|
  {
    if |data| == 0 {
    } else if |data| == 1 {
      FoldAddsAround(s, Rd16([data[0], 0], 0));
    } else {
      FoldAddsAround(s, Rd16(data, 0));
      FoldOfSum(s + Rd16(data, 0), data[2..]);
    }
  }

  lemma {:induction false} WordSumBound(data: Bytes)
    ensures WordSum(data) <= 0xFFFF * ((|data| + 1) / 2)
    decreases |data|
  {
    if |data| >= 2 {
      WordSumBound(data[2..]);
    }
  }

  /** Deferring the carries is sound whenever the sum fits the accumulator. */
  lemma AccumRefinesOnesSum(data: Bytes, seed: uint32)
    requires Fits(data, seed)
    ensures Accum(data, seed) == 0xFFFF - OnesSum(Fold(seed), data)
  {
    hide Fold, WordSum, OnesSum;
    FoldOfSum(seed, data);
  }

  /** The bound on the length alone; it covers every IPv4 payload with any pseudo-header. */
  lemma LengthFits(data: Bytes, seed: uint32)
    requires seed + 0xFFFF * ((|data| + 1) / 2) < TWO_32
    ensures Fits(data, seed)
  {
    WordSumBound(data);
  }

  lemma PacketFits(data: Bytes, seed: uint32)
    requires |data| <= 0xFFFF && seed <= 6 * 0xFFFF
    ensures Fits(data, seed)
  {
    WordSumBound(data);
  }

  lemma FoldsAgree(s: nat, t: nat)
    ensures Fold(s) == Fold(t) <==> s % 0xFFFF == t % 0xFFFF && (s == 0 <==> t == 0)
  {
    hide Fold;
    var j := FoldQuotient(s);
    var k := FoldQuotient(t);
    if Fold(s) == Fold(t) {
      Congruent(s, t, j as int - k);
    }
    if s % 0xFFFF == t % 0xFFFF && (s == 0 <==> t == 0) {
      var d := t / 0xFFFF - s / 0xFFFF;
      assert t == s + 0xFFFF * d;
      FoldUnique(t, Fold(s), j + d);
    }
  }

  lemma Congruent(s: int, t: int, k: int)
    requires s == t + 0xFFFF * k
    ensures s % 0xFFFF == t % 0xFFFF
  {
  }

  lemma ResidueUnchanged(q: nat, rest: nat)
    ensures (q + rest) % 0xFFFF == rest % 0xFFFF <==> q % 0xFFFF == 0
  {
  }

  /** 2^32 is one modulo 65535. */
  lemma WrapResidue(q: nat, rest: nat)
    ensures (TWO_32 * q + rest) % 0xFFFF == (q + rest) % 0xFFFF
  {
  }

  /** Exactly when the 32-bit accumulator still gives the standard's value although
      it has wrapped q times: 65535 divides q, and no non-zero sum has wrapped to zero. */
  lemma WrapExactness(data: Bytes, seed: uint32)
    ensures var total := seed + WordSum(data);
            Accum(data, seed) == 0xFFFF - OnesSum(Fold(seed), data)
            <==> total / TWO_32 % 0xFFFF == 0 && (total % TWO_32 == 0 ==> total == 0)
  {
    hide Fold, WordSum, OnesSum;
    var total := seed + WordSum(data);
    var q, rest := total / TWO_32, total % TWO_32;
    FoldOfSum(seed, data);
    FoldsAgree(rest, total);
    WrapResidue(q, rest);
    ResidueUnchanged(q, rest);
  }

  /** A wrapping input on which the code and the standard differ. */
  lemma WrapLosesCarry()
    ensures Accum([0, 2], 0xFFFF_FFFF) == 0xFFFE
    ensures 0xFFFF - OnesSum(Fold(0xFFFF_FFFF), [0, 2]) == 0xFFFD
  {
    var d: Bytes := [0, 2];
    assert d[2..] == [];
    assert WordSum(d) == 2;
    FoldUnique(0xFFFF_FFFF, 0xFFFF, 0x1_0000);
    assert Rd16(d, 0) == 2;
    assert OnesSum(0xFFFF, d) == OnesSum(2, d[2..]) == 2;
  }

  // ---- Word sums of composed and edited buffers ----

  lemma {:induction false} WordSumAppend(a: Bytes, b: Bytes)
    requires |a| % 2 == 0
    ensures WordSum(a + b) == WordSum(a) + WordSum(b)
    decreases |a|
  {
    if |a| == 0 {
      assert a + b == b;
    } else {
      assert (a + b)[2..] == a[2..] + b;
      WordSumAppend(a[2..], b);
    }
  }

  lemma {:induction false} WordSumByte(data: Bytes, i: nat, b: uint8)
    requires i < |data|
    ensures WordSum(data[i := b])
            == WordSum(data) + if i % 2 == 0 then (b - data[i]) as int * 0x100 else b - data[i]
    decreases |data|
  {
    var changed := data[i := b];
    if i >= 2 {
      assert changed[2..] == data[2..][i - 2 := b];
      WordSumByte(data[2..], i - 2, b);
    } else if |data| >= 2 {
      assert changed[2..] == data[2..];
    }
  }

  /** The buffer with a 16-bit word stored at an offset. */
  function Store(data: Bytes, at: nat, v: uint16): (r: Bytes)
    requires at + 2 <= |data|
    ensures |r| == |data|
  {
    Splice(data, at, Be16(v))
  }

  lemma StoreIsTwoBytes(data: Bytes, at: nat, v: uint16)
    requires at + 2 <= |data|
    ensures Store(data, at, v) == data[at := v / 0x100][at + 1 := v % 0x100]
  {
  }

  lemma WordSumStore(data: Bytes, at: nat, v: uint16)
    requires at % 2 == 0 && at + 2 <= |data|
    ensures WordSum(Store(data, at, v)) == WordSum(data) - Rd16(data, at) + v
  {
    hide WordSum, Store, Splice;
    var (hi, lo) := (v / 0x100, v % 0x100);
    var high := data[at := hi];
    WordSumByte(data, at, hi);
    assert WordSum(high) == WordSum(data) + (hi - data[at]) as int * 0x100;
    WordSumByte(high, at + 1, lo);
    assert WordSum(high[at + 1 := lo]) == WordSum(high) + (lo - data[at + 1]);
    StoreIsTwoBytes(data, at, v);
    assert hi as int * 0x100 + lo == v;
  }

  // ---- Validation ----

  /** The receiver's test: the sum with the checksum field included folds to all ones. */
  predicate Validates(data: Bytes, seed: uint32) {
    Accum(data, seed) == 0
  }

  /** No content of this length can overflow the accumulator. */
  predicate Bounded(len: nat, seed: uint32) {
    seed + 0xFFFF * ((len + 1) / 2) < TWO_32
  }

  lemma ValidatesIff(data: Bytes, seed: uint32)
    requires Fits(data, seed)
    ensures Validates(data, seed)
            <==> seed + WordSum(data) > 0 && (seed + WordSum(data)) % 0xFFFF == 0
  {
    hide Fold, WordSum;
    FoldsToAllOnesIff(seed + WordSum(data));
  }

  /** Zero the field, sum, store: the stored value validates, and no other value of
      the field does, except that all ones is accepted where zero was written. */
  lemma StoredSumIsUnique(data: Bytes, at: nat, seed: uint32, v: uint16)
    requires at % 2 == 0 && at + 2 <= |data| && Rd16(data, at) == 0
    requires Bounded(|data|, seed)
    ensures var c := Accum(data, seed);
            Validates(Store(data, at, v), seed) <==> v == c || (c == 0 && v == 0xFFFF)
  {
    hide Fold, WordSum, Splice, Be16, Store;
    var stored := Store(data, at, v);
    WordSumStore(data, at, v);
    LengthFits(data, seed);
    LengthFits(stored, seed);
    ValidatesIff(stored, seed);
    FillingSum(seed + WordSum(data), v);
  }

  lemma FillingSum(s: nat, v: uint16)
    ensures var c := 0xFFFF - Fold(s);
            s + v > 0 && (s + v) % 0xFFFF == 0 <==> v == c || (c == 0 && v == 0xFFFF)
  {
    hide Fold;
    var k := FoldQuotient(s);
    var f := Fold(s);
    if v == 0xFFFF - f {
      Multiple(s + v, k + 1);
    }
    if f == 0xFFFF && v == 0xFFFF {
      Multiple(s + v, k + 2);
    }
    if s + v > 0 && (s + v) % 0xFFFF == 0 {
      var n := (s + v) / 0xFFFF;
      assert f + v == 0xFFFF * (n - k);
      assert 0 < f + v <= 2 * 0xFFFF;
    }
  }

  lemma AddCongruent(a: int, b: int, c: int)
    requires a % 0xFFFF == b % 0xFFFF
    ensures (a + c) % 0xFFFF == (b + c) % 0xFFFF
  {
  }

  /** All ones is computed only for a buffer whose seeded sum is zero. */
  lemma AllOnesOnlyForZero(data: Bytes, seed: uint32)
    requires Fits(data, seed)
    ensures Accum(data, seed) == 0xFFFF <==> seed == 0 && forall i :: 0 <= i < |data| ==> data[i] == 0
  {
    hide Fold, WordSum;
    var k := FoldQuotient(seed + WordSum(data));
    WordSumZero(data);
  }

  lemma {:induction false} WordSumZero(data: Bytes)
    ensures WordSum(data) == 0 <==> forall i :: 0 <= i < |data| ==> data[i] == 0
    decreases |data|
  {
    if |data| >= 2 {
      WordSumZero(data[2..]);
      assert forall i :: 2 <= i < |data| ==> data[i] == data[2..][i - 2];
    }
  }

  /** Replacing one aligned word of a valid buffer goes unnoticed exactly when it swaps
      the two representations of zero and the sum stays positive. */
  lemma WordChangeUnnoticedIff(data: Bytes, at: nat, seed: uint32, v: uint16)
    requires at % 2 == 0 && at + 2 <= |data| && Bounded(|data|, seed)
    requires Validates(data, seed)
    ensures var w := Rd16(data, at);
            Validates(Store(data, at, v), seed)
            <==> v == w || (w == 0 && v == 0xFFFF)
                 || (w == 0xFFFF && v == 0 && seed + WordSum(data) > 0xFFFF)
  {
    hide Fold, WordSum, Accum, Store;
    WordSumStore(data, at, v);
    LengthFits(data, seed);
    LengthFits(Store(data, at, v), seed);
    ValidatesIff(data, seed);
    ValidatesIff(Store(data, at, v), seed);
    var s, w := seed + WordSum(data), Rd16(data, at);
    AddCongruent(s, 0, v - w);
  }

  /** Changing any one byte of a valid buffer is noticed, in any position. */
  lemma ByteChangeDetected(data: Bytes, i: nat, b: uint8, seed: uint32)
    requires i < |data| && b != data[i] && Bounded(|data|, seed)
    requires Validates(data, seed)
    ensures !Validates(data[i := b], seed)
  {
    hide Fold, WordSum, Accum;
    WordSumByte(data, i, b);
    LengthFits(data, seed);
    LengthFits(data[i := b], seed);
    ValidatesIff(data, seed);
    ValidatesIff(data[i := b], seed);
    var s, t := seed + WordSum(data), seed + WordSum(data[i := b]);
    AddCongruent(s, 0, t - s);
  }

  // ---- Pseudo-header ----

  /** gcs_pseudo_header_sum */
  function PseudoSum(src: uint32, dst: uint32, protocol: uint8, len: uint16): uint32 {
    src / 0x1_0000 + src % 0x1_0000 + dst / 0x1_0000 + dst % 0x1_0000 + protocol + len
  }

  method ComputePseudoSum(src: uint32, dst: uint32, protocol: uint8, len: uint16) returns (sum: uint32)
    ensures sum == PseudoSum(src, dst, protocol, len)
  {
    sum := 0;
    sum := Add32(sum, src / 0x1_0000 % 0x1_0000);
    sum := Add32(sum, src % 0x1_0000);
    sum := Add32(sum, dst / 0x1_0000 % 0x1_0000);
    sum := Add32(sum, dst % 0x1_0000);
    sum := Add32(sum, protocol);
    sum := Add32(sum, len);
  }

  /** The 12 bytes of the pseudo-header of RFC 793, section 3.1. */
  function PseudoHeader(src: uint32, dst: uint32, protocol: uint8, len: uint16): (h: Bytes)
    ensures |h| == 12
  {
    Be32(src) + Be32(dst) + [0, protocol] + Be16(len)
  }

  lemma PseudoSumIsWordSum(src: uint32, dst: uint32, protocol: uint8, len: uint16)
    ensures PseudoSum(src, dst, protocol, len) == WordSum(PseudoHeader(src, dst, protocol, len))
  {
    WordSum32(src);
    WordSum32(dst);
    WordSum16(len);
    var tail: Bytes := [0, protocol];
    assert tail[2..] == [];
    assert WordSum(tail) == protocol;
    WordSumAppend(Be32(src), Be32(dst));
    WordSumAppend(Be32(src) + Be32(dst), tail);
    WordSumAppend(Be32(src) + Be32(dst) + tail, Be16(len));
  }

  lemma WordSum16(v: uint16)
    ensures WordSum(Be16(v)) == v
  {
  }

  lemma WordSum32(v: uint32)
    ensures WordSum(Be32(v)) == v / 0x1_0000 + v % 0x1_0000
  {
    var (hi, lo) := (v / 0x1_0000, v % 0x1_0000);
    Halves32(v);
    WordSum16(hi);
    WordSum16(lo);
    WordSumAppend(Be16(hi), Be16(lo));
  }

  lemma Halves32(v: uint32)
    ensures Be32(v) == Be16(v / 0x1_0000) + Be16(v % 0x1_0000)
  {
    var (hi, lo) := (v / 0x1_0000, v % 0x1_0000);
    assert v == 0x1_0000 * hi + lo;
    assert v / 0x100 == 0x100 * hi + lo / 0x100;
    assert v / 0x100_0000 == hi / 0x100;
    assert lo % 0x100 == v % 0x100;
  }

  lemma AccumAfterPrefix(prefix: Bytes, data: Bytes)
    requires |prefix| % 2 == 0 && WordSum(prefix) < TWO_32
    ensures Accum(data, WordSum(prefix)) == Sum(prefix + data)
  {
    hide WordSum, Fold;
    WordSumAppend(prefix, data);
  }

  /** Seeding with the pseudo-header sum is the plain checksum over the pseudo-header
      followed by the segment, for a segment of any length and parity. */
  lemma PseudoHeaderEquivalence(src: uint32, dst: uint32, protocol: uint8, len: uint16, segment: Bytes)
    ensures Accum(segment, PseudoSum(src, dst, protocol, len))
            == Sum(PseudoHeader(src, dst, protocol, len) + segment)
  {
    hide WordSum, Accum, PseudoHeader, PseudoSum;
    var header := PseudoHeader(src, dst, protocol, len);
    PseudoSumIsWordSum(src, dst, protocol, len);
    AccumAfterPrefix(header, segment);
  }
}
