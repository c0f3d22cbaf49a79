/** Byte-packed bit strings, as the trie stores and reads them: bit 0 is the most
    significant bit of byte 0. */
module Bits {

  /** A bit string, as the path that leads to it: the empty string, or a string and one more bit. */
  datatype Path = Top | Down(up: Path, bit: bool)

  function Len(p: Path): nat {
    match p
    case Top => 0
    case Down(up, _) => 1 + Len(up)
  }

  predicate IsPrefix(p: Path, q: Path) {
    p == q || (q.Down? && IsPrefix(p, q.up))
  }

  /** The same bits as a sequence. */
  function ToSeq(p: Path): (s: seq<bool>)
    ensures |s| == Len(p)
  {
    match p
    case Top => []
    case Down(up, bit) => ToSeq(up) + [bit]
  }

  /** Bytes needed for a number of bits. */
  function PrefixSize(bits: nat): nat {
    bits / 8 + if bits % 8 != 0 then 1 else 0
  }

  /** Bit `i` of a byte, counted from the most significant end. */
  predicate ByteBit(b: bv8, i: nat)
    requires i < 8
  {
    b & (1 << (7 - i)) != 0
  }

  predicate CheckBit(prefix: seq<bv8>, offset: nat)
    requires offset / 8 < |prefix|
  {
    ByteBit(prefix[offset / 8], offset % 8)
  }

  /** The bit string that the first `bits` bits of a buffer denote. */
  ghost function PathOf(prefix: seq<bv8>, bits: nat): (p: Path)
    requires PrefixSize(bits) <= |prefix|
    ensures Len(p) == bits
  {
    if bits == 0 then Top else Down(PathOf(prefix, bits - 1), CheckBit(prefix, bits - 1))
  }

  /** A buffer holds exactly the bits of a string, followed by zero bits up to the end of its last byte. */
  ghost predicate Packs(bytes: seq<bv8>, p: Path) {
    && |bytes| == PrefixSize(Len(p))
    && PathOf(bytes, Len(p)) == p
    && forall i :: Len(p) <= i < 8 * |bytes| ==> !CheckBit(bytes, i)
  }

  // ----- paths and sequences of bits

  lemma {:induction false} ToSeqPathOf(prefix: seq<bv8>, bits: nat)
    requires PrefixSize(bits) <= |prefix|
    ensures forall i :: 0 <= i < bits ==> ToSeq(PathOf(prefix, bits))[i] == CheckBit(prefix, i)
  {
    if bits > 0 {
      ToSeqPathOf(prefix, bits - 1);
    }
  }

  /** Prefixes of paths are prefixes of bit sequences. */
  lemma {:induction false} PrefixIsPrefix(p: Path, q: Path)
    ensures IsPrefix(p, q) <==> ToSeq(p) <= ToSeq(q)
  {
    if p != q && q.Down? {
      PrefixIsPrefix(p, q.up);
      if ToSeq(p) <= ToSeq(q) && Len(p) == Len(q) {
        ToSeqIsInjective(p, q);
      }
    } else if q.Top? && ToSeq(p) <= ToSeq(q) {
      ToSeqIsInjective(p, q);
    }
  }

  lemma {:induction false} ToSeqIsInjective(p: Path, q: Path)
    requires ToSeq(p) == ToSeq(q)
    ensures p == q
  {
    if p.Down? && q.Down? {
      assert ToSeq(p)[..Len(p) - 1] == ToSeq(p.up) && ToSeq(q)[..Len(q) - 1] == ToSeq(q.up);
      ToSeqIsInjective(p.up, q.up);
      assert ToSeq(p)[Len(p) - 1] == p.bit && ToSeq(q)[Len(q) - 1] == q.bit;
    }
  }

  /** What one buffer denotes is a prefix of what another denotes exactly when it has no more bits and those agree. */
  lemma PrefixOfBuffers(a: seq<bv8>, m: nat, b: seq<bv8>, n: nat)
    requires PrefixSize(m) <= |a| && PrefixSize(n) <= |b|
    ensures IsPrefix(PathOf(a, m), PathOf(b, n)) <==> m <= n && forall i :: 0 <= i < m ==> CheckBit(a, i) == CheckBit(b, i)
  {
    hide ByteBit, IsPrefix, PathOf;
    var p, q := ToSeq(PathOf(a, m)), ToSeq(PathOf(b, n));
    ToSeqPathOf(a, m);
    ToSeqPathOf(b, n);
    PrefixIsPrefix(PathOf(a, m), PathOf(b, n));
    assert p <= q <==> m <= n && forall i :: 0 <= i < m ==> p[i] == q[i];
  }

  lemma {:induction false} PrefixLen(p: Path, q: Path)
    requires IsPrefix(p, q)
    ensures Len(p) <= Len(q) && (Len(p) == Len(q) ==> p == q)
  {
    if p != q {
      PrefixLen(p, q.up);
    }
  }

  lemma {:induction false} PrefixTransitive(p: Path, q: Path, r: Path)
    requires IsPrefix(p, q) && IsPrefix(q, r)
    ensures IsPrefix(p, r)
  {
    if q != r {
      PrefixTransitive(p, q, r.up);
    }
  }

  /** The prefixes of what a buffer denotes are what shorter stretches of it denote. */
  lemma {:induction false} PrefixesOfBuffer(prefix: seq<bv8>, bits: nat, k: Path)
    requires PrefixSize(bits) <= |prefix| && IsPrefix(k, PathOf(prefix, bits))
    ensures Len(k) <= bits && PrefixSize(Len(k)) <= |prefix| && k == PathOf(prefix, Len(k))
  {
    if k != PathOf(prefix, bits) {
      PrefixesOfBuffer(prefix, bits - 1, k);
    }
  }

  lemma {:induction false} BufferPrefix(prefix: seq<bv8>, bits: nat, d: nat)
    requires d <= bits && PrefixSize(bits) <= |prefix|
    ensures IsPrefix(PathOf(prefix, d), PathOf(prefix, bits))
  {
    if d < bits {
      BufferPrefix(prefix, bits - 1, d);
    }
  }

  /** The mask that keeps the `keep` most significant bits of a byte, built bit by bit. */
  method EndMask(keep: nat) returns (mask: bv8)
    requires keep < 8
    ensures forall i :: 0 <= i < 8 ==> (ByteBit(mask, i) <==> i < keep)
  {
    mask := 0;
    for i := 0 to keep
      invariant forall j :: 0 <= j < 8 ==> (ByteBit(mask, j) <==> j < i)
    {
      var wider := mask | (1 << (7 - i));
      forall j | 0 <= j < 8
        ensures ByteBit(wider, j) <==> j < i + 1
      {
        OrBit(mask, i, j);
      }
      mask := wider;
    }
  }

  /** Bit 0 is the most significant one, and the others follow it downwards. */
  lemma BitOrder(b: bv8, i: nat)
    requires i < 7
    ensures ByteBit(b, 0) <==> b >= 128
    ensures ByteBit(b, i + 1) <==> ByteBit(b << 1, i)
  {
  }

  lemma OrBit(mask: bv8, i: nat, j: nat)
    requires i < 8 && j < 8
    ensures ByteBit(mask | (1 << (7 - i)), j) <==> (j == i || ByteBit(mask, j))
  {
  }

  lemma AndBit(a: bv8, b: bv8, i: nat)
    requires i < 8
    ensures ByteBit(a & b, i) <==> ByteBit(a, i) && ByteBit(b, i)
  {
  }

  lemma SameBitsSameByte(a: bv8, b: bv8)
    requires forall i :: 0 <= i < 8 ==> ByteBit(a, i) == ByteBit(b, i)
    ensures a == b
  {
    assert ByteBit(a, 0) == ByteBit(b, 0) && ByteBit(a, 1) == ByteBit(b, 1);
    assert ByteBit(a, 2) == ByteBit(b, 2) && ByteBit(a, 3) == ByteBit(b, 3);
    assert ByteBit(a, 4) == ByteBit(b, 4) && ByteBit(a, 5) == ByteBit(b, 5);
    assert ByteBit(a, 6) == ByteBit(b, 6) && ByteBit(a, 7) == ByteBit(b, 7);
  }

  lemma {:induction false} SamePathSameBits(a: seq<bv8>, b: seq<bv8>, bits: nat)
    requires PrefixSize(bits) <= |a| && PrefixSize(bits) <= |b|
    ensures PathOf(a, bits) == PathOf(b, bits) <==> forall i :: 0 <= i < bits ==> CheckBit(a, i) == CheckBit(b, i)
  {
    if bits > 0 {
      SamePathSameBits(a, b, bits - 1);
    }
  }

  lemma BitOfByte(a: seq<bv8>, k: nat, i: nat)
    requires k < |a| && i < 8
    ensures (8 * k + i) / 8 == k && CheckBit(a, 8 * k + i) == ByteBit(a[k], i)
  {
  }

  /** A bit string has one packed form: two buffers that pack the same string are the same bytes. */
  lemma PackedFormIsUnique(a: seq<bv8>, b: seq<bv8>, p: Path)
    requires Packs(a, p) && Packs(b, p)
    ensures a == b
  {
    hide ByteBit, CheckBit, PathOf;
    SamePathSameBits(a, b, Len(p));
    forall k | 0 <= k < |a|
      ensures a[k] == b[k]
    {
      forall i | 0 <= i < 8
        ensures ByteBit(a[k], i) == ByteBit(b[k], i)
      {
        BitOfByte(a, k, i);
        BitOfByte(b, k, i);
      }
      SameBitsSameByte(a[k], b[k]);
    }
  }

  /** Copying the bytes that cover `bits` bits and masking the last one packs the bit string. */
  method PackPrefix(prefix: seq<bv8>, bits: nat) returns (bytes: seq<bv8>)
    requires PrefixSize(bits) <= |prefix|
    ensures Packs(bytes, PathOf(prefix, bits))
  {
    bytes := prefix[..PrefixSize(bits)];
    if bits % 8 != 0 {
      var mask := EndMask(bits % 8);
      var last := |bytes| - 1;
      bytes := bytes[last := bytes[last] & mask];
      forall i | 0 <= i < 8 * |bytes|
        ensures CheckBit(bytes, i) == (i < bits && CheckBit(prefix, i))
      {
        AndBit(prefix[last], mask, i % 8);
      }
    }
    SamePathSameBits(bytes, prefix, bits);
  }
}
