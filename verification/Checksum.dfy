/** The Internet checksum: ones' complement sums of bytes (section 2 of RFC 1071), the partial sums that
    stand for them in 32 bits, and the word-at-a-time routine that computes them. */
module Checksum {
  import opened Wrappers

  type Word = w: int | 0 <= w < 0x1_0000_0000
  type Sum16 = s: int | 0 <= s < 0x1_0000

  const WORD := 0x1_0000_0000

  // ----- reference: the sum of 16-bit words, the last byte padded with zero

  /** Words are read as the host does, low byte first. */
  ghost function WordSum(a: seq<Byte>): nat {
    if a == [] then 0
    else if |a| == 1 then a[0]
    else a[0] + 256 * a[1] + WordSum(a[2..])
  }

  /** A sum brought into 16 bits by adding carries back in: zero only for zero. */
  function Ones(n: nat): Sum16 {
    if n == 0 then 0 else 1 + (n - 1) % 0xffff
  }

  /** The checksum of some bytes. */
  ghost function InternetChecksum(a: seq<Byte>): Sum16 {
    0xffff - Ones(WordSum(a))
  }

  /** Equal up to end-around carries. */
  ghost predicate Congruent(x: int, y: int) {
    (x - y) % 0xffff == 0
  }

  /** `c` stands for the sum of some bytes. */
  ghost predicate Represents(c: nat, a: seq<Byte>) {
    Congruent(c, WordSum(a)) && (c == 0 <==> WordSum(a) == 0)
  }

  // ----- congruence

  lemma Quotient(x: int, y: int) returns (k: int)
    requires Congruent(x, y)
    ensures x - y == 0xffff * k
  {
    k := (x - y) / 0xffff;
  }

  lemma FromQuotient(x: int, y: int, k: int)
    requires x - y == 0xffff * k
    ensures Congruent(x, y)
  {
  }

  lemma CongruentReflexive(x: int)
    ensures Congruent(x, x)
  {
  }

  lemma CongruentSymmetric(x: int, y: int)
    requires Congruent(x, y)
    ensures Congruent(y, x)
  {
    var k := Quotient(x, y);
    FromQuotient(y, x, -k);
  }

  lemma CongruentAdd(x: int, y: int, x': int, y': int)
    requires Congruent(x, y) && Congruent(x', y')
    ensures Congruent(x + x', y + y')
  {
    var k := Quotient(x, y);
    var k' := Quotient(x', y');
    FromQuotient(x + x', y + y', k + k');
  }

  lemma CongruentShift(x: int, y: int)
    requires Congruent(x, y)
    ensures Congruent(256 * x, 256 * y)
  {
    var k := Quotient(x, y);
    FromQuotient(256 * x, 256 * y, 256 * k);
  }

  lemma CongruentTransitive(x: int, y: int, z: int)
    requires Congruent(x, y) && Congruent(y, z)
    ensures Congruent(x, z)
  {
    var k := Quotient(x, y);
    var k' := Quotient(y, z);
    FromQuotient(x, z, k + k');
  }

  /** Sixteen bits are enough to tell sums apart. */
  lemma OnesIsUnique(r: int, n: nat)
    requires 0 <= r <= 0xffff && Congruent(r, n) && (r == 0 <==> n == 0)
    ensures r == Ones(n)
  {
    var k := Quotient(r, n);
    if n > 0 {
      assert n - 1 == r - 1 + 0xffff * (-k);
    }
  }

  lemma OnesIsCongruent(n: nat)
    ensures Congruent(Ones(n), n) && (Ones(n) == 0 <==> n == 0)
  {
    if n > 0 {
      FromQuotient(Ones(n), n, -((n - 1) / 0xffff));
    }
  }

  // ----- sums of concatenations

  lemma {:induction false} SumEven(a: seq<Byte>, b: seq<Byte>)
    requires |a| % 2 == 0
    ensures WordSum(a + b) == WordSum(a) + WordSum(b)
  {
    if a == [] {
      assert a + b == b;
    } else {
      SumEven(a[2..], b);
      assert (a + b)[2..] == a[2..] + b;
    }
  }

  /** Behind an odd number of bytes, every byte changes places within its word. */
  lemma {:induction false} SumOdd(a: seq<Byte>, b: seq<Byte>)
    requires |a| % 2 == 1
    ensures Congruent(WordSum(a + b), WordSum(a) + 256 * WordSum(b))
    decreases |a| + |b|
  {
    if |a| > 1 {
      SumOdd(a[2..], b);
      assert (a + b)[2..] == a[2..] + b;
    } else if b == [] {
      assert a + b == a;
    } else if |b| == 1 {
    } else {
      var c := [b[1]];
      SumOdd(c, b[2..]);
      assert (a + b)[2..] == c + b[2..];
      var k := Quotient(WordSum(c + b[2..]), b[1] + 256 * WordSum(b[2..]));
      FromQuotient(WordSum(a + b), WordSum(a) + 256 * WordSum(b), k - b[1]);
    }
  }

  lemma {:induction false} SumIsZero(a: seq<Byte>, b: seq<Byte>)
    ensures WordSum(a + b) == 0 <==> WordSum(a) == 0 && WordSum(b) == 0
    decreases |a| + |b|
  {
    if a == [] {
      assert a + b == b;
    } else if |a| > 1 {
      SumIsZero(a[2..], b);
      assert (a + b)[2..] == a[2..] + b;
    } else if |b| > 1 {
      SumIsZero([b[1]], b[2..]);
      assert (a + b)[2..] == [b[1]] + b[2..];
    } else if b == [] {
      assert a + b == a;
    }
  }

  // ----- checksum.h

  /** Adds the upper half of a word to the lower half. */
  function FoldOnce(x: Word): Word {
    x % 0x1_0000 + x / 0x1_0000
  }

  function From32To16(x: Word): Sum16 {
    FoldOnce(FoldOnce(x)) % 0x1_0000
  }

  /** Two folds bring any word into 16 bits, without loss. */
  lemma FoldTwice(x: Word)
    ensures From32To16(x) == FoldOnce(FoldOnce(x)) == Ones(x)
  {
    var h, l := x / 0x1_0000, x % 0x1_0000;
    var y := FoldOnce(x);
    SplitHalves(x, h, l);
    var h', l' := y / 0x1_0000, y % 0x1_0000;
    SplitHalves(y, h', l');
    FromQuotient(h' + l', x, -h - h');
    OnesIsUnique(h' + l', x);
  }

  lemma SplitHalves(x: Word, h: int, l: int)
    requires h == x / 0x1_0000 && l == x % 0x1_0000
    ensures x == 0x1_0000 * h + l && 0 <= h < 0x1_0000 && 0 <= l < 0x1_0000
    ensures FoldOnce(x) == h + l
    ensures x <= 0x1_fffe ==> h <= 1 && h + l <= 0xffff
  {
  }

  function CsumFold(c: Word): Sum16 {
    0xffff - From32To16(c)
  }

  /** Addition in 32 bits, with the carry added back in. */
  function CsumAdd(c: Word, addend: Word): Word {
    var res := (c + addend) % WORD;
    (res + if res < addend then 1 else 0) % WORD
  }

  function CsumSub(c: Word, addend: Word): Word {
    CsumAdd(c, WORD - 1 - addend)
  }

  /** Every second byte of a word. */
  function EvenBytes(x: Word): Word {
    x % 256 + x / 0x1_0000 % 256 * 0x1_0000
  }

  /** Changes the places of the bytes in both halves of a word. */
  function SwapBytes(x: Word): Word {
    (EvenBytes(x) * 256 + EvenBytes(x / 256)) % WORD
  }

  function CsumBlockAdd(c: Word, c2: Word, offset: int): Word {
    CsumAdd(c, if offset % 2 == 1 then SwapBytes(c2) else c2)
  }

  function CsumBlockSub(c: Word, c2: Word, offset: int): Word {
    CsumSub(c, if offset % 2 == 1 then SwapBytes(c2) else c2)
  }

  /** No carry is lost, and none is added twice: this is addition modulo 2^32 - 1. */
  lemma AddIsEndAround(c: Word, d: Word)
    ensures CsumAdd(c, d) == if c + d < WORD then c + d else c + d - (WORD - 1)
    ensures CsumAdd(c, d) == 0 <==> c == 0 && d == 0
    ensures Congruent(CsumAdd(c, d), c + d)
  {
    if c + d >= WORD {
      assert (c + d) % WORD == c + d - WORD;
      FromQuotient(c + d - (WORD - 1), c + d, -0x1_0001);
    }
  }

  /** Subtraction cancels addition, except that zero may come back as its other form, all ones. */
  lemma SubCancelsAdd(c: Word, d: Word)
    ensures CsumSub(CsumAdd(c, d), d) == if c == 0 then WORD - 1 else c
  {
    AddIsEndAround(c, d);
    AddIsEndAround(CsumAdd(c, d), WORD - 1 - d);
  }

  lemma SwapShifts(x: Word)
    ensures Congruent(SwapBytes(x), 256 * x) && (SwapBytes(x) == 0 <==> x == 0)
    ensures Congruent(256 * SwapBytes(x), x)
  {
    var b0, b1, b2, b3 := x % 256, x / 256 % 256, x / 0x1_0000 % 256, x / 0x100_0000;
    FourBytes(x, b0, b1, b2, b3);
    FromQuotient(SwapBytes(x), 256 * x, -b1 - 0x1_0000 * b3);
    FromQuotient(256 * SwapBytes(x), x, b0 + 0x1_0000 * b2);
  }

  lemma FourBytes(x: Word, b0: int, b1: int, b2: int, b3: int)
    requires b0 == x % 256 && b1 == x / 256 % 256 && b2 == x / 0x1_0000 % 256 && b3 == x / 0x100_0000
    ensures x == b0 + 256 * b1 + 0x1_0000 * b2 + 0x100_0000 * b3
    ensures 0 <= b0 < 256 && 0 <= b1 < 256 && 0 <= b2 < 256 && 0 <= b3 < 256
    ensures SwapBytes(x) == b1 + 256 * b0 + 0x1_0000 * b3 + 0x100_0000 * b2
  {
    var y, z := x / 256, x / 0x1_0000;
    assert x == 256 * y + b0;
    assert z == y / 256 && y == 256 * z + b1;
    assert b3 == z / 256 && z == 256 * b3 + b2;
    assert y / 0x1_0000 == b3;
    assert EvenBytes(x) == b0 + 0x1_0000 * b2 && EvenBytes(y) == b1 + 0x1_0000 * b3;
  }

  // ----- what the folded sums of blocks are

  lemma FoldIsChecksum(c: Word, a: seq<Byte>)
    requires Represents(c, a)
    ensures CsumFold(c) == InternetChecksum(a)
  {
    Folded(c, a);
  }

  /** What a block's sum contributes when the block starts behind `offset` bytes. */
  lemma Aligned(a: seq<Byte>, b: seq<Byte>, c2: Word)
    requires Represents(c2, b)
    ensures var d := if |a| % 2 == 1 then SwapBytes(c2) else c2;
      && Congruent(WordSum(a) + d, WordSum(a + b))
      && (d == 0 <==> WordSum(b) == 0)
  {
    hide SwapBytes, Congruent, WordSum;
    CongruentReflexive(WordSum(a));
    if |a| % 2 == 1 {
      SwapShifts(c2);
      CongruentShift(c2, WordSum(b));
      CongruentTransitive(SwapBytes(c2), 256 * c2, 256 * WordSum(b));
      CongruentAdd(WordSum(a), WordSum(a), SwapBytes(c2), 256 * WordSum(b));
      SumOdd(a, b);
      CongruentSymmetric(WordSum(a + b), WordSum(a) + 256 * WordSum(b));
      CongruentTransitive(WordSum(a) + SwapBytes(c2), WordSum(a) + 256 * WordSum(b), WordSum(a + b));
    } else {
      SumEven(a, b);
      CongruentAdd(WordSum(a), WordSum(a), c2, WordSum(b));
    }
  }

  /** Partial sums of two blocks combine into a partial sum of both, wherever the second block starts. */
  lemma BlockAddRepresents(a: seq<Byte>, b: seq<Byte>, c1: Word, c2: Word)
    requires Represents(c1, a) && Represents(c2, b)
    ensures Represents(CsumBlockAdd(c1, c2, |a|), a + b)
  {
    var d := if |a| % 2 == 1 then SwapBytes(c2) else c2;
    Aligned(a, b, c2);
    AddIsEndAround(c1, d);
    CongruentAdd(c1, WordSum(a), d, d);
    CongruentTransitive(CsumAdd(c1, d), c1 + d, WordSum(a) + d);
    CongruentTransitive(CsumAdd(c1, d), WordSum(a) + d, WordSum(a + b));
    SumIsZero(a, b);
  }

  /** The checksum of two blocks comes from their partial sums. */
  lemma BlockAddChecksum(a: seq<Byte>, b: seq<Byte>, c1: Word, c2: Word)
    requires Represents(c1, a) && Represents(c2, b)
    ensures CsumFold(CsumBlockAdd(c1, c2, |a|)) == InternetChecksum(a + b)
  {
    BlockAddRepresents(a, b, c1, c2);
    FoldIsChecksum(CsumBlockAdd(c1, c2, |a|), a + b);
  }

  /** Taking the second block out again gives the checksum of the first exactly when the first is not all
      zero: subtraction leaves zero in its form of all ones, which folds differently. */
  lemma BlockSubChecksum(a: seq<Byte>, b: seq<Byte>, c: Word, c2: Word)
    requires Represents(c, a + b) && Represents(c2, b)
    ensures CsumFold(CsumBlockSub(c, c2, |a|)) == InternetChecksum(a) <==> WordSum(a) != 0
  {
    hide SwapBytes, WordSum, Congruent, CsumAdd, From32To16, Ones;
    var d := if |a| % 2 == 1 then SwapBytes(c2) else c2;
    var r := CsumBlockSub(c, c2, |a|);
    Aligned(a, b, c2);
    SumIsZero(a, b);
    AddIsEndAround(c, WORD - 1 - d);
    CongruentSymmetric(WordSum(a) + d, WordSum(a + b));
    CongruentTransitive(c, WordSum(a + b), WordSum(a) + d);
    var k := Quotient(c, WordSum(a) + d);
    var k' := Quotient(r, c + (WORD - 1 - d));
    FromQuotient(r, WordSum(a), k + k' + 0x1_0001);
    assert r != 0;
    FoldTwice(r);
    OnesIsCongruent(r);
    CongruentTransitive(Ones(r), r, WordSum(a));
    OnesIsCongruent(WordSum(a));
    if WordSum(a) != 0 {
      OnesIsUnique(Ones(r), WordSum(a));
    }
  }

  /** A block of zeros comes back with the wrong checksum. */
  lemma BlockSubLosesZero()
    ensures CsumBlockSub(1, 1, 2) == WORD - 1 && CsumFold(WORD - 1) == 0 && InternetChecksum([0, 0]) == 0xffff
    ensures Represents(1, [0, 0] + [1, 0]) && Represents(1, [1, 0])
  {
    assert [0, 0][2..] == [] && [1, 0][2..] == [] && ([0, 0] + [1, 0])[2..] == [1, 0];
  }

  // ----- the pseudo-header

  /** The sum of the pseudo-header fields and `sum`, before any carry is added back. */
  function PseudoHeaderSum(saddr: Word, daddr: Word, len: Sum16, proto: Sum16, sum: Word): nat {
    sum + saddr + daddr + (proto + len) * 256
  }

  function CsumTcpUdpNofold(saddr: Word, daddr: Word, len: Sum16, proto: Sum16, sum: Word): Word {
    var s := PseudoHeaderSum(saddr, daddr, len, proto, sum);
    (s + s / WORD) % WORD
  }

  /** Adding the carries back in can carry once more, and that last carry is dropped. */
  lemma PseudoHeaderCarry(saddr: Word, daddr: Word, len: Sum16, proto: Sum16, sum: Word)
    ensures
      var s := PseudoHeaderSum(saddr, daddr, len, proto, sum);
      Congruent(CsumTcpUdpNofold(saddr, daddr, len, proto, sum), s) <==> s % WORD + s / WORD < WORD
  {
    var s := PseudoHeaderSum(saddr, daddr, len, proto, sum);
    var h, l := s / WORD, s % WORD;
    assert s == WORD * h + l && 0 <= h <= 3;
    if h + l < WORD {
      assert (s + h) % WORD == h + l;
      FromQuotient(h + l, s, -0x1_0001 * h);
    } else {
      assert (s + h) % WORD == h + l - WORD;
      if Congruent(h + l - WORD, s) {
        var k := Quotient(h + l - WORD, s);
        assert false;
      }
    }
  }

  /** An input on which the carry is lost. */
  lemma PseudoHeaderLosesCarry()
    ensures CsumTcpUdpNofold(0xffff_ffff, 0xffff_fe00, 1, 1, 0) == 0
    ensures !Congruent(0, PseudoHeaderSum(0xffff_ffff, 0xffff_fe00, 1, 1, 0))
  {
    hide Congruent;
    var s := PseudoHeaderSum(0xffff_ffff, 0xffff_fe00, 1, 1, 0);
    assert s == 0x1_ffff_ffff && s / WORD == 1 && s % WORD == 0xffff_ffff;
    assert (s + 1) % WORD == 0;
    PseudoHeaderCarry(0xffff_ffff, 0xffff_fe00, 1, 1, 0);
  }

  /** A 16-bit number in network order. */
  function Net16(n: Sum16): (s: seq<Byte>)
    ensures |s| == 2
  {
    [n / 256, n % 256]
  }

  /** The pseudo-header as it would be sent: both addresses, the protocol and the length. */
  function PseudoHeader(src: seq<Byte>, dst: seq<Byte>, len: Sum16, proto: Sum16): (h: seq<Byte>)
    requires |src| == 4 && |dst| == 4
    ensures |h| == 12
  {
    src + dst + Net16(proto) + Net16(len)
  }

  lemma SumOfFour(a: seq<Byte>)
    requires |a| == 4
    ensures Congruent(FullWord(a, 0), WordSum(a)) && (FullWord(a, 0) == 0 <==> WordSum(a) == 0)
  {
    var b2: int, b3: int := a[2], a[3];
    assert a[2..][2..] == [] && WordSum(a[2..]) == b2 + 256 * b3;
    FromQuotient(FullWord(a, 0), WordSum(a), b2 + 256 * b3);
  }

  lemma SumOfNet16(n: Sum16)
    ensures Congruent(256 * n, WordSum(Net16(n))) && (n == 0 <==> WordSum(Net16(n)) == 0)
  {
    var h, l := n / 256, n % 256;
    assert n == 256 * h + l && Net16(n)[2..] == [];
    assert WordSum(Net16(n)) == h + 256 * l;
    FromQuotient(256 * n, h + 256 * l, h);
  }

  /** The sum of the pseudo-header fields stands for the pseudo-header and the data behind it. */
  lemma PseudoHeaderRepresents(src: seq<Byte>, dst: seq<Byte>, len: Sum16, proto: Sum16, data: seq<Byte>, sum: Word)
    requires |src| == 4 && |dst| == 4 && Represents(sum, data)
    ensures Represents(PseudoHeaderSum(FullWord(src, 0), FullWord(dst, 0), len, proto, sum),
                       PseudoHeader(src, dst, len, proto) + data)
  {
    hide Congruent, WordSum, FullWord, Net16;
    var s, d, p, l := FullWord(src, 0), FullWord(dst, 0), Net16(proto), Net16(len);
    SumOfFour(src);
    SumOfFour(dst);
    SumOfNet16(proto);
    SumOfNet16(len);
    CongruentAdd(s, WordSum(src), d, WordSum(dst));
    CongruentAdd(s + d, WordSum(src) + WordSum(dst), 256 * proto, WordSum(p));
    CongruentAdd(s + d + 256 * proto, WordSum(src) + WordSum(dst) + WordSum(p), 256 * len, WordSum(l));
    CongruentAdd(s + d + 256 * proto + 256 * len, WordSum(src) + WordSum(dst) + WordSum(p) + WordSum(l),
                 sum, WordSum(data));
    SumEven(src, dst);
    SumEven(src + dst, p);
    SumEven(src + dst + p, l);
    SumEven(PseudoHeader(src, dst, len, proto), data);
  }

  /** The folded sum is the checksum of the pseudo-header and the data exactly when no carry is lost. */
  lemma PseudoHeaderChecksum(src: seq<Byte>, dst: seq<Byte>, len: Sum16, proto: Sum16, data: seq<Byte>, sum: Word)
    requires |src| == 4 && |dst| == 4 && Represents(sum, data)
    ensures
      var s, all := PseudoHeaderSum(FullWord(src, 0), FullWord(dst, 0), len, proto, sum),
                    PseudoHeader(src, dst, len, proto) + data;
      var folded := CsumFold(CsumTcpUdpNofold(FullWord(src, 0), FullWord(dst, 0), len, proto, sum));
      folded == InternetChecksum(all) <==> s % WORD + s / WORD < WORD
  {
    hide Congruent, WordSum, FullWord, PseudoHeader, From32To16, Ones, PseudoHeaderSum;
    var s := PseudoHeaderSum(FullWord(src, 0), FullWord(dst, 0), len, proto, sum);
    var r := CsumTcpUdpNofold(FullWord(src, 0), FullWord(dst, 0), len, proto, sum);
    var all := PseudoHeader(src, dst, len, proto) + data;
    PseudoHeaderRepresents(src, dst, len, proto, data, sum);
    PseudoHeaderCarry(FullWord(src, 0), FullWord(dst, 0), len, proto, sum);
    FoldTwice(r);
    OnesIsCongruent(r);
    OnesIsCongruent(WordSum(all));
    if s % WORD + s / WORD < WORD {
      CarriedZero(s);
      CongruentTransitive(r, s, WordSum(all));
      FoldIsChecksum(r, all);
    } else if Ones(r) == Ones(WordSum(all)) {
      CongruentSymmetric(Ones(r), r);
      CongruentTransitive(r, Ones(r), WordSum(all));
      CongruentSymmetric(s, WordSum(all));
      CongruentTransitive(r, WordSum(all), s);
    }
  }

  lemma CarriedZero(s: nat)
    requires s % WORD + s / WORD < WORD
    ensures (s + s / WORD) % WORD == 0 <==> s == 0
  {
    var h, l := s / WORD, s % WORD;
    assert s + h == WORD * h + (h + l);
    assert (s + h) % WORD == h + l;
  }

  // ----- checksum.c: sums a word at a time, on a little-endian host

  lemma AddByte(n: nat, x: seq<Byte>, b: Byte)
    requires Represents(n, x) && |x| % 2 == 0
    ensures Represents(n + b, x + [b])
  {
    SumEven(x, [b]);
    CongruentReflexive(b);
    CongruentAdd(n, WordSum(x), b, b);
  }

  lemma AddHalf(n: nat, x: seq<Byte>, b0: Byte, b1: Byte)
    requires Represents(n, x) && |x| % 2 == 0
    ensures Represents(n + b0 + 256 * b1, x + [b0, b1])
  {
    SumEven(x, [b0, b1]);
    assert [b0, b1][2..] == [];
    CongruentReflexive(b0 + 256 * b1);
    CongruentAdd(n, WordSum(x), b0 + 256 * b1, b0 + 256 * b1);
  }

  /** A word with its carry added back stands for four more bytes. */
  lemma AddWord(n: Word, x: seq<Byte>, b0: Byte, b1: Byte, b2: Byte, b3: Byte)
    requires Represents(n, x) && |x| % 2 == 0
    ensures Represents(CsumAdd(n, b0 + 256 * b1 + 0x1_0000 * b2 + 0x100_0000 * b3), x + [b0, b1, b2, b3])
  {
    var w := b0 + 256 * b1 + 0x1_0000 * b2 + 0x100_0000 * b3;
    var h := b0 + 256 * b1 + b2 + 256 * b3;
    AddHalf(n, x, b0, b1);
    AddHalf(n + b0 + 256 * b1, x + [b0, b1], b2, b3);
    assert x + [b0, b1] + [b2, b3] == x + [b0, b1, b2, b3];
    AddIsEndAround(n, w);
    FromQuotient(n + w, n + h, b2 + 256 * b3);
    CongruentTransitive(CsumAdd(n, w), n + w, n + h);
    CongruentTransitive(CsumAdd(n, w), n + h, WordSum(x + [b0, b1, b2, b3]));
  }

  function Half(buf: seq<Byte>, at: nat): Word
    requires at + 2 <= |buf|
  {
    var b0: int, b1: int := buf[at], buf[at + 1];
    b0 + 256 * b1
  }

  function FullWord(buf: seq<Byte>, at: nat): Word
    requires at + 4 <= |buf|
  {
    var b2: int, b3: int := buf[at + 2], buf[at + 3];
    Half(buf, at) + 0x1_0000 * b2 + 0x100_0000 * b3
  }

  lemma TakeWord(n: Word, buf: seq<Byte>, at: nat, pad: seq<Byte>)
    requires at + 4 <= |buf| && (|pad| + at) % 2 == 0 && Represents(n, pad + buf[..at])
    ensures Represents(CsumAdd(n, FullWord(buf, at)), pad + buf[..at + 4])
  {
    AddWord(n, pad + buf[..at], buf[at], buf[at + 1], buf[at + 2], buf[at + 3]);
    assert pad + buf[..at + 4] == pad + buf[..at] + [buf[at], buf[at + 1], buf[at + 2], buf[at + 3]];
  }

  /** A carry that is kept apart and added later makes the same sum. */
  lemma DelayedCarry(n: Word, w: Word)
    ensures n % WORD == n
    ensures var res := (n + w) % WORD; res + (if w > res then 1 else 0) == CsumAdd(n, w)
  {
    AddIsEndAround(n, w);
  }

  /** Adds up whole words, keeping the carry of each addition for the next. */
  method SumWords(buf: seq<Byte>, start: nat, words: nat, initial: Word, ghost pad: seq<Byte>)
      returns (result: Word, at: nat)
    requires words > 0 && start + 4 * words <= |buf| && (|pad| + start) % 2 == 0
    requires Represents(initial, pad + buf[..start])
    ensures at == start + 4 * words && Represents(result, pad + buf[..at]) && result <= 0x1_fffe
  {
    hide WordSum, Congruent, CsumAdd, Represents, FullWord, FoldOnce;
    result, at := initial, start;
    var count, carry := words, 0;
    while true
      invariant 0 < count <= words && at == start + 4 * (words - count) && (|pad| + at) % 2 == 0
      invariant 0 <= carry <= 1 && result + carry < WORD && Represents(result + carry, pad + buf[..at])
      decreases count
    {
      var w := FullWord(buf, at);
      TakeWord(result + carry, buf, at, pad);
      DelayedCarry(result + carry, w);
      count := count - 1;
      at := at + 4;
      result := (result + carry) % WORD;
      result := (result + w) % WORD;
      carry := if w > result then 1 else 0;
      assert Represents(result + carry, pad + buf[..at]);
      if count == 0 {
        break;
      }
    }
    DelayedCarry(result + carry, 0);
    result := (result + carry) % WORD;
    FoldKeeps(result, pad + buf[..at]);
    result := FoldOnce(result);
  }

  lemma FoldKeeps(n: Word, x: seq<Byte>)
    requires Represents(n, x)
    ensures Represents(FoldOnce(n), x) && FoldOnce(n) <= 0x1_fffe
  {
    var h, l := n / 0x1_0000, n % 0x1_0000;
    SplitHalves(n, h, l);
    FromQuotient(h + l, n, -h);
    CongruentTransitive(h + l, n, WordSum(x));
  }

  lemma Quarters(len: nat)
    ensures len / 2 / 2 == len / 4 && 4 * (len / 4) + (if len % 4 >= 2 then 2 else 0) + len % 2 == len
  {
    var q, r := len / 4, len % 4;
    assert len == 4 * q + r;
    assert len / 2 == 2 * q + r / 2 && len % 2 == r % 2;
  }

  /** Adds all remaining pairs of bytes, `count` of them: words first, then a half word. */
  method SumPairs(buf: seq<Byte>, start: nat, count: nat, initial: Word, ghost pad: seq<Byte>) returns (result: Word, at: nat)
    requires start <= |buf| && count == (|buf| - start) / 2 && (|pad| + start) % 2 == 0 && initial <= 0x1_fffe
    requires Represents(initial, pad + buf[..start])
    ensures at == |buf| - (|buf| - start) % 2 && (|pad| + at) % 2 == 0 && result <= 0x2_fffd
    ensures Represents(result, pad + buf[..at])
  {
    hide Congruent, WordSum, Represents;
    result, at := initial, start;
    var len, words := |buf| - start, count / 2;
    Quarters(len);
    if words != 0 {
      result, at := SumWords(buf, at, words, result, pad);
    }
    if len % 4 >= 2 {
      result, at := TakeHalf(buf, at, result, pad);
    }
  }

  /** Adds the rest of a buffer from an even place on: a half word up to a word boundary, words, a half word, a byte. */
  method SumRest(buf: seq<Byte>, start: nat, align: nat, initial: Word, ghost pad: seq<Byte>) returns (result: Word)
    requires start <= |buf| && (|pad| + start) % 2 == 0 && initial <= 0xffff
    requires Represents(initial, pad + buf[..start])
    ensures Represents(result, pad + buf)
  {
    hide Congruent, WordSum, Represents;
    result := initial;
    var len, at := |buf| - start, start;
    var count := len / 2;
    if count != 0 {
      if (align + at) / 2 % 2 == 1 {
        result, at := TakeHalf(buf, at, result, pad);
        count := count - 1;
        len := len - 2;
      }
      result, at := SumPairs(buf, at, count, result, pad);
    }
    if len % 2 == 1 {
      AddByte(result, pad + buf[..at], buf[at]);
      assert pad + buf[..at + 1] == pad + buf[..at] + [buf[at]];
      result := result + buf[at];
      at := at + 1;
    }
    assert buf[..at] == buf;
  }

  /** The ones' complement sum of a buffer of any length at any alignment (its address modulo 4). */
  method DoCsum(buf: seq<Byte>, align: nat) returns (result: Word)
    requires align < 4
    ensures result == Ones(WordSum(buf))
  {
    hide Congruent, From32To16, Ones;
    result := 0;
    OnesIsCongruent(0);
    if |buf| == 0 {
      return;
    }
    var at := 0;
    var odd := align % 2 == 1;
    ghost var pad: seq<Byte> := [];
    CongruentReflexive(0);
    if odd {
      var first: int := buf[0];
      result := result + first * 256;
      at, pad := 1, [0];
      AddHalf(0, [], 0, buf[0]);
      assert pad + buf[..1] == [] + [0, buf[0]];
    }
    result := SumRest(buf, at, align, result, pad);
    Folded(result, pad + buf);
    result := From32To16(result);
    if odd {
      Unshift(buf, result);
      result := (result / 256) % 256 + (result % 256) * 256;
    } else {
      assert pad + buf == buf;
    }
  }

  /** Adds the next half word. */
  method TakeHalf(buf: seq<Byte>, at: nat, n: Word, ghost pad: seq<Byte>) returns (result: Word, next: nat)
    requires at + 2 <= |buf| && (|pad| + at) % 2 == 0 && n <= 0x1_fffe && Represents(n, pad + buf[..at])
    ensures next == at + 2 && Represents(result, pad + buf[..next]) && result <= n + 0xffff
  {
    AddHalf(n, pad + buf[..at], buf[at], buf[at + 1]);
    assert pad + buf[..at + 2] == pad + buf[..at] + [buf[at], buf[at + 1]];
    result := n + Half(buf, at);
    next := at + 2;
  }

  lemma Folded(n: Word, x: seq<Byte>)
    requires Represents(n, x)
    ensures From32To16(n) == Ones(WordSum(x))
  {
    FoldTwice(n);
    OnesIsCongruent(n);
    CongruentTransitive(Ones(n), n, WordSum(x));
    OnesIsUnique(Ones(n), WordSum(x));
  }

  /** A sum taken one byte out of place is put right by changing the places of its two bytes. */
  lemma Unshift(buf: seq<Byte>, r: Sum16)
    requires r == Ones(WordSum([0] + buf))
    ensures (r / 256) % 256 + (r % 256) * 256 == Ones(WordSum(buf))
  {
    hide Ones, WordSum, Congruent;
    var w, b0, b1 := WordSum(buf), r % 256, r / 256;
    SumOdd([0], buf);
    SumIsZero([0], buf);
    OnesIsCongruent(WordSum([0] + buf));
    assert WordSum([0]) == 0 by { ZeroByte(); }
    CongruentTransitive(r, WordSum([0] + buf), 256 * w);
    var k := Quotient(r, 256 * w);
    FromQuotient(b1 + 256 * b0, w, -b1 + 256 * k + w);
    OnesIsUnique(b1 + 256 * b0, w);
  }

  lemma ZeroByte()
    ensures WordSum([0]) == 0
  {
  }

  /** The checksum of a buffer. */
  method IpComputeCsum(buf: seq<Byte>, align: nat) returns (sum: Sum16)
    requires align < 4
    ensures sum == InternetChecksum(buf)
  {
    var s := DoCsum(buf, align);
    sum := 0xffff - s;
  }

  /** Adds the sum of a buffer to a partial sum of what comes before it. */
  method CsumPartial(buf: seq<Byte>, align: nat, sum: Word, ghost before: seq<Byte>) returns (result: Word)
    requires align < 4 && |before| % 2 == 0 && Represents(sum, before)
    ensures Represents(result, before + buf)
  {
    hide Congruent, WordSum, Ones;
    result := DoCsum(buf, align);
    OnesIsCongruent(WordSum(buf));
    BlockAddRepresents(before, buf, sum, result);
    AddIsEndAround(sum, result);
    result := (result + sum) % WORD;
    if sum > result {
      result := (result + 1) % WORD;
    }
  }
}
