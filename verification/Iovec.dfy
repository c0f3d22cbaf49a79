/** Scatter/gather copies between a buffer and a vector of memory segments. */
module Iovec {
  import opened Wrappers

  /** A segment of memory. */
  datatype Segment = Segment(base: nat, len: nat)

  /** Lengths are compared as 32-bit numbers. */
  const LEN_MODULUS := 0x1_0000_0000

  /** How many bytes a length asks for: a negative one asks for none. */
  function Count(len: int): nat {
    if len < 0 then 0 else len
  }

  // ----- what a vector denotes: addresses, in the order in which they are used

  ghost function Range(base: nat, len: nat): (r: seq<nat>)
    ensures |r| == len
  {
    seq(len, i => base + i)
  }

  ghost function Addresses(v: seq<Segment>): seq<nat> {
    if v == [] then [] else Range(v[0].base, v[0].len) + Addresses(v[1..])
  }

  /** All addresses lie in memory. */
  ghost predicate Within(addrs: seq<nat>, size: nat) {
    forall i :: 0 <= i < |addrs| ==> addrs[i] < size
  }

  /** Memory after bytes were written one after another. */
  ghost function Written(m: seq<Byte>, addrs: seq<nat>, bytes: seq<Byte>): (r: seq<Byte>)
    requires |addrs| == |bytes| && Within(addrs, |m|)
    ensures |r| == |m|
    decreases addrs
  {
    if addrs == [] then m else Written(m[addrs[0] := bytes[0]], addrs[1..], bytes[1..])
  }

  ghost function ReadBack(m: seq<Byte>, addrs: seq<nat>): seq<Byte>
    requires Within(addrs, |m|)
  {
    seq(|addrs|, i requires 0 <= i < |addrs| => m[addrs[i]])
  }

  lemma {:induction false} WrittenSplits(m: seq<Byte>, a: seq<nat>, b: seq<nat>, bytes: seq<Byte>, bytes': seq<Byte>)
    requires |a| == |bytes| && |b| == |bytes'| && Within(a, |m|) && Within(b, |m|)
    ensures Within(a + b, |m|)
    ensures Written(m, a + b, bytes + bytes') == Written(Written(m, a, bytes), b, bytes')
    decreases a
  {
    if a == [] {
      assert a + b == b && bytes + bytes' == bytes';
    } else {
      assert (a + b)[1..] == a[1..] + b && (bytes + bytes')[1..] == bytes[1..] + bytes';
      WrittenSplits(m[a[0] := bytes[0]], a[1..], b, bytes[1..], bytes');
    }
  }

  /** Writing elsewhere leaves a byte alone. */
  lemma {:induction false} WrittenElsewhere(m: seq<Byte>, addrs: seq<nat>, bytes: seq<Byte>, x: nat)
    requires |addrs| == |bytes| && Within(addrs, |m|) && x < |m| && x !in addrs
    ensures Written(m, addrs, bytes)[x] == m[x]
    decreases addrs
  {
    if addrs != [] {
      WrittenElsewhere(m[addrs[0] := bytes[0]], addrs[1..], bytes[1..], x);
    }
  }

  /** Bytes written to some addresses are found there afterwards. */
  ghost predicate RoundTrips(m: seq<Byte>, addrs: seq<nat>, bytes: seq<Byte>)
    requires |addrs| == |bytes| && Within(addrs, |m|)
  {
    ReadBack(Written(m, addrs, bytes), addrs) == bytes
  }

  lemma {:induction false} DifferentAddressesRoundTrip(m: seq<Byte>, addrs: seq<nat>, bytes: seq<Byte>)
    requires |addrs| == |bytes| && Within(addrs, |m|) && NoDup(addrs)
    ensures RoundTrips(m, addrs, bytes)
    decreases addrs
  {
    if addrs != [] {
      var m' := m[addrs[0] := bytes[0]];
      assert addrs[0] !in addrs[1..];
      WrittenElsewhere(m', addrs[1..], bytes[1..], addrs[0]);
      assert NoDup(addrs[1..]) by {
        forall i, j | 0 <= i < j < |addrs[1..]|
          ensures addrs[1..][i] != addrs[1..][j]
        {
          assert addrs[i + 1] != addrs[j + 1];
        }
      }
      DifferentAddressesRoundTrip(m', addrs[1..], bytes[1..]);
      var r := ReadBack(Written(m, addrs, bytes), addrs);
      assert r[1..] == ReadBack(Written(m', addrs[1..], bytes[1..]), addrs[1..]);
      assert r == [r[0]] + r[1..];
    }
  }

  /** A vector gives back whatever is written through it exactly when its segments do not overlap. */
  lemma RoundTripsIffDisjoint(m: seq<Byte>, addrs: seq<nat>)
    requires Within(addrs, |m|)
    ensures NoDup(addrs) <==> forall bytes: seq<Byte> :: |addrs| == |bytes| ==> RoundTrips(m, addrs, bytes)
  {
    if NoDup(addrs) {
      forall bytes: seq<Byte> | |addrs| == |bytes|
        ensures RoundTrips(m, addrs, bytes)
      {
        DifferentAddressesRoundTrip(m, addrs, bytes);
      }
    } else {
      var i, j :| 0 <= i < j < |addrs| && addrs[i] == addrs[j];
      var bytes: seq<Byte> := seq(|addrs|, k => if k == i then 0 else 1);
      assert !RoundTrips(m, addrs, bytes) by {
        SameAddressSameByte(Written(m, addrs, bytes), addrs, i, j);
        assert bytes[i] == 0 && bytes[j] == 1;
      }
    }
  }

  lemma SameAddressSameByte(m: seq<Byte>, addrs: seq<nat>, i: nat, j: nat)
    requires Within(addrs, |m|) && i < |addrs| && j < |addrs| && addrs[i] == addrs[j]
    ensures ReadBack(m, addrs)[i] == ReadBack(m, addrs)[j]
  {
  }

  // ----- stretches of memory

  lemma {:induction false} WrittenRange(m: seq<Byte>, base: nat, bytes: seq<Byte>)
    requires base + |bytes| <= |m|
    ensures Within(Range(base, |bytes|), |m|)
    ensures Written(m, Range(base, |bytes|), bytes) == m[..base] + bytes + m[base + |bytes|..]
    decreases bytes
  {
    if bytes != [] {
      var addrs := Range(base, |bytes|);
      assert addrs[1..] == Range(base + 1, |bytes| - 1);
      WrittenRange(m[base := bytes[0]], base + 1, bytes[1..]);
    } else {
      assert m == m[..base] + [] + m[base..];
    }
  }

  lemma RangeSplits(base: nat, len: nat, k: nat)
    requires k <= len
    ensures Range(base, len) == Range(base, k) + Range(base + k, len - k)
  {
  }

  lemma {:induction false} AddressesSplit(v: seq<Segment>, i: nat)
    requires i <= |v|
    ensures Addresses(v) == Addresses(v[..i]) + Addresses(v[i..])
  {
    if i == 0 {
      assert v[..0] == [] && v[0..] == v;
    } else {
      AddressesSplit(v[1..], i - 1);
      assert v[..i][1..] == v[1..][..i - 1] && v[1..][i - 1..] == v[i..];
    }
  }

  /** The segments before `i` have been used up. */
  ghost predicate Passed(v: seq<Segment>, i: nat) {
    i <= |v| && Addresses(v[..i]) == []
  }

  lemma ConcatParts<T>(x: seq<T>, y: seq<T>)
    ensures (x + y)[..|x|] == x && (x + y)[|x|..] == y
  {
  }

  /** An empty segment has no addresses to pass. */
  lemma PassEmpty(v: seq<Segment>, i: nat)
    requires i < |v| && Passed(v, i) && v[i].len == 0
    ensures Passed(v, i + 1)
  {
    hide Addresses, Range;
    var w := v[..i + 1];
    AddressesSplit(w, i);
    HeadSegment(w, i);
    assert w[..i] == v[..i] && w[i + 1..] == [];
    NoAddresses();
  }

  lemma FromHere(v: seq<Segment>, i: nat)
    requires i < |v| && Passed(v, i)
    ensures Addresses(v) == Range(v[i].base, v[i].len) + Addresses(v[i + 1..])
  {
    hide Addresses, Range;
    AddressesSplit(v, i);
    HeadSegment(v, i);
    assert [] + Addresses(v[i..]) == Addresses(v[i..]);
  }

  lemma Associative<T>(x: seq<T>, y: seq<T>, z: seq<T>)
    ensures (x + y) + z == x + (y + z)
  {
  }

  /** Changing a segment leaves the others as they are. */
  lemma WithSegment(v: seq<Segment>, i: nat, seg: Segment)
    requires i < |v| && Passed(v, i)
    ensures Passed(v[i := seg], i)
    ensures Addresses(v[i := seg]) == Range(seg.base, seg.len) + Addresses(v[i + 1..])
  {
    var v' := v[i := seg];
    assert v'[..i] == v[..i] && v'[i + 1..] == v[i + 1..];
    FromHere(v', i);
  }

  /** The addresses left once `k` bytes of segment `i`, the first one with any left, have been used. */
  lemma Advance(v: seq<Segment>, i: nat, k: nat, v': seq<Segment>)
    requires i < |v| && Passed(v, i) && k <= v[i].len
    requires v' == v[i := Segment(v[i].base + k, v[i].len - k)]
    ensures Addresses(v) == Range(v[i].base, k) + Addresses(v') && Passed(v', i)
  {
    hide Addresses, Range, Passed;
    WithSegment(v, i, Segment(v[i].base + k, v[i].len - k));
    FromHere(v, i);
    RangeSplits(v[i].base, v[i].len, k);
    Associative(Range(v[i].base, k), Range(v[i].base + k, v[i].len - k), Addresses(v[i + 1..]));
  }

  lemma NoAddresses()
    ensures Addresses([]) == []
  {
  }

  lemma HeadSegment(v: seq<Segment>, i: nat)
    requires i < |v|
    ensures Addresses(v[i..]) == Range(v[i].base, v[i].len) + Addresses(v[i + 1..])
  {
    assert v[i..][1..] == v[i + 1..];
  }

  /** Nothing has been passed at first; while addresses are left, there is a segment left; and an empty
      segment has no addresses to pass. */
  lemma Passing(v: seq<Segment>, i: nat)
    ensures Passed(v, 0)
    ensures Passed(v, i) && Addresses(v) != [] ==> i < |v|
    ensures Passed(v, i) && i < |v| && v[i].len == 0 ==> Passed(v, i + 1)
  {
    assert v[..0] == [] && v[..|v|] == v;
    if Passed(v, i) && i < |v| && v[i].len == 0 {
      PassEmpty(v, i);
    }
  }

  // ----- how much of a segment the copies see

  /** The segments as the copies see them: the lower 32 bits of each length. */
  ghost function Seen(v: seq<Segment>): seq<Segment> {
    seq(|v|, i requires 0 <= i < |v| => Segment(v[i].base, v[i].len % LEN_MODULUS))
  }

  /** The addresses that copies through a vector use, in order. */
  ghost function Offered(v: seq<Segment>): seq<nat> {
    Addresses(Seen(v))
  }

  lemma LowerBits(len: nat, k: nat)
    requires k <= len % LEN_MODULUS
    ensures k <= len && (len - k) % LEN_MODULUS == len % LEN_MODULUS - k
  {
    var q, r := len / LEN_MODULUS, len % LEN_MODULUS;
    assert len - k == q * LEN_MODULUS + (r - k);
  }

  function Least(a: nat, b: nat): nat {
    if a < b then a else b
  }

  function Moved(seg: Segment, k: nat): Segment
    requires k <= seg.len
  {
    Segment(seg.base + k, seg.len - k)
  }

  /** The vector after `n` bytes were copied. */
  ghost function Advanced(v: seq<Segment>, n: nat): seq<Segment> {
    if v == [] || n == 0 then v else
      var k := Least(v[0].len % LEN_MODULUS, n);
      [Moved(v[0], k)] + Advanced(v[1..], n - k)
  }

  lemma AdvancedStep(v: seq<Segment>, i: nat, n: nat, v': seq<Segment>)
    requires i < |v| && n > 0 && v' == v[i := Moved(v[i], Least(v[i].len % LEN_MODULUS, n))]
    ensures v'[..i + 1] + Advanced(v'[i + 1..], n - Least(v[i].len % LEN_MODULUS, n)) == v[..i] + Advanced(v[i..], n)
  {
    var k := Least(v[i].len % LEN_MODULUS, n);
    assert v[i..][0] == v[i] && v[i..][1..] == v[i + 1..] == v'[i + 1..];
    assert v'[..i + 1] == v[..i] + [Moved(v[i], k)];
    Associative(v[..i], [Moved(v[i], k)], Advanced(v[i + 1..], n - k));
  }

  lemma AdvancedEnds(v: seq<Segment>, i: nat, n: nat)
    requires i <= |v|
    ensures v[..0] + Advanced(v[0..], n) == Advanced(v, n)
    ensures v[..i] + Advanced(v[i..], 0) == v
  {
    assert v[0..] == v && v[..0] == [];
  }

  // ----- when the copies use the whole of every segment

  /** Reference: the vector moved past its first `n` bytes. */
  ghost function Dropped(v: seq<Segment>, n: nat): seq<Segment> {
    if v == [] || n == 0 then v else
      var k := Least(v[0].len, n);
      [Moved(v[0], k)] + Dropped(v[1..], n - k)
  }

  lemma DropPast(used: seq<nat>, head: seq<nat>, rest: seq<nat>, n: nat)
    requires |used| <= n <= |used + (head + rest)| && (head == [] || n == |used|)
    ensures (used + (head + rest))[n..] == head + rest[n - |used|..]
  {
  }

  lemma {:induction false} DroppedAddresses(v: seq<Segment>, n: nat)
    requires n <= |Addresses(v)|
    ensures Addresses(Dropped(v, n)) == Addresses(v)[n..]
  {
    hide Range;
    if n > 0 {
      var k, rest, d := Least(v[0].len, n), Addresses(v[1..]), Dropped(v, n);
      var used, head := Range(v[0].base, k), Range(v[0].base + k, v[0].len - k);
      DroppedAddresses(v[1..], n - k);
      assert d[0] == Moved(v[0], k) && d[1..] == Dropped(v[1..], n - k);
      assert Addresses(d) == head + rest[n - k..];
      RangeSplits(v[0].base, v[0].len, k);
      Associative(used, head, rest);
      DropPast(used, head, rest, n);
    }
  }

  /** Each segment that is reached is shorter than 2^32, or has as many bytes in its lower 32 bits as are
      still wanted. */
  predicate Fits(v: seq<Segment>, n: nat) {
    v == [] || n == 0 ||
    ((v[0].len < LEN_MODULUS || n <= v[0].len % LEN_MODULUS) && Fits(v[1..], n - Least(v[0].len, n)))
  }

  /** Copies move a vector past exactly its first `n` bytes if and only if it fits. */
  lemma {:induction false} AdvancedIffFits(v: seq<Segment>, n: nat)
    ensures Advanced(v, n) == Dropped(v, n) <==> Fits(v, n)
  {
    if v != [] && n > 0 {
      var k, k' := Least(v[0].len % LEN_MODULUS, n), Least(v[0].len, n);
      if k == k' {
        AdvancedIffFits(v[1..], n - k);
        assert Advanced(v, n)[1..] == Advanced(v[1..], n - k) && Dropped(v, n)[1..] == Dropped(v[1..], n - k);
      } else {
        assert Advanced(v, n)[0] == Moved(v[0], k) && Dropped(v, n)[0] == Moved(v[0], k');
      }
    }
  }

  lemma TakeRange(base: nat, len: nat, rest: seq<nat>, n: nat)
    requires n <= len + |rest|
    ensures (Range(base, len) + rest)[..n] == Range(base, Least(len, n)) + rest[..n - Least(len, n)]
  {
  }

  /** And then the addresses they use are the first `n` that the vector denotes. */
  lemma {:induction false} FitsUsesAll(v: seq<Segment>, n: nat)
    requires Fits(v, n) && n <= |Addresses(v)|
    ensures n <= |Offered(v)| && Offered(v)[..n] == Addresses(v)[..n]
  {
    hide Range;
    if n > 0 {
      var k, seen := Least(v[0].len, n), v[0].len % LEN_MODULUS;
      assert Seen(v)[0] == Segment(v[0].base, seen) && Seen(v)[1..] == Seen(v[1..]);
      FitsUsesAll(v[1..], n - k);
      TakeRange(v[0].base, v[0].len, Addresses(v[1..]), n);
      TakeRange(v[0].base, seen, Offered(v[1..]), n);
    }
  }

  lemma {:induction false} ShortSegmentsFit(v: seq<Segment>, n: nat)
    requires forall seg <- v :: seg.len < LEN_MODULUS
    ensures Fits(v, n)
  {
    if v != [] {
      assert v[0] in v && forall seg <- v[1..] :: seg in v;
      ShortSegmentsFit(v[1..], n - Least(v[0].len, n));
    }
  }

  /** A segment one byte longer than 2^32 gets one byte out of ten, and the next segment the other nine. */
  lemma LongSegmentIsCut(base: nat)
    ensures var v := [Segment(0, 0x1_0000_0001), Segment(base, 9)];
      && Advanced(v, 10) == [Segment(1, 0x1_0000_0000), Segment(base + 9, 0)]
      && Dropped(v, 10) == [Segment(10, 0xffff_fff7), Segment(base, 9)] && !Fits(v, 10)
  {
    var v := [Segment(0, LEN_MODULUS + 1), Segment(base, 9)];
    assert v[1..] == [Segment(base, 9)] && v[1..][1..] == [];
    assert (LEN_MODULUS + 1) % LEN_MODULUS == 1;
    assert Advanced(v[1..], 9) == [Segment(base + 9, 0)];
  }

  // ----- the copies

  /** Moves segment `i`, the first one with addresses left, past its first `k` bytes. */
  method Consume(iov: array<Segment>, i: nat, k: nat)
    requires i < iov.Length && Passed(Seen(iov[..]), i) && k <= iov[i].len % LEN_MODULUS
    modifies iov
    ensures iov[..] == old(iov[..])[i := Moved(old(iov[i]), k)]
    ensures old(Offered(iov[..])) == Range(old(iov[i].base), k) + Offered(iov[..])
    ensures k == old(iov[i].len) % LEN_MODULUS ==> Passed(Seen(iov[..]), i + 1)
  {
    hide Passed, Addresses, Range;
    ghost var v := Seen(iov[..]);
    LowerBits(iov[i].len, k);
    Advance(v, i, k, v[i := Moved(v[i], k)]);
    iov[i] := Moved(iov[i], k);
    assert iov[..] == old(iov[..])[i := Moved(old(iov[i]), k)];
    assert Seen(iov[..]) == v[i := Moved(v[i], k)];
    if iov[i].len % LEN_MODULUS == 0 {
      PassEmpty(Seen(iov[..]), i);
    }
  }

  /** The first `done` bytes have been copied: what memory holds now, and which addresses are left. */
  ghost predicate Copied(m: seq<Byte>, a: seq<nat>, from: seq<Byte>, done: nat, now: seq<Byte>, left: seq<nat>) {
    && done <= |a| && done <= |from| && Within(a, |m|)
    && left == a[done..] && Within(left, |now|)
    && now == Written(m, a[..done], from[..done])
  }

  lemma CopiedMore(m: seq<Byte>, a: seq<nat>, from: seq<Byte>, done: nat, copy: nat,
                   now: seq<Byte>, left: seq<nat>, now': seq<Byte>, left': seq<nat>)
    requires Copied(m, a, from, done, now, left) && copy <= |left| && done + copy <= |from|
    requires now' == Written(now, left[..copy], from[done..done + copy]) && left' == left[copy..]
    ensures Copied(m, a, from, done + copy, now', left')
  {
    assert a[..done] + left[..copy] == a[..done + copy];
    assert from[..done] + from[done..done + copy] == from[..done + copy];
    WrittenSplits(m, a[..done], left[..copy], from[..done], from[done..done + copy]);
  }

  lemma CopiedFacts(m: seq<Byte>, a: seq<nat>, from: seq<Byte>, done: nat, now: seq<Byte>, left: seq<nat>)
    ensures Within(a, |m|) ==> Copied(m, a, from, 0, m, a)
    ensures Copied(m, a, from, done, now, left) ==>
      && done <= |a| && done <= |from| && |left| == |a| - done && Within(left, |now|)
      && Within(a[..done], |m|) && left == a[done..] && now == Written(m, a[..done], from[..done])
  {
    assert a[..0] == [] && from[..0] == [] && a[0..] == a;
  }

  /** Copies bytes to the start of segment `i`, and moves it past them. */
  method CopyOut(mem: array<Byte>, iov: array<Segment>, i: nat, bytes: seq<Byte>)
    requires i < iov.Length && Passed(Seen(iov[..]), i) && |bytes| <= iov[i].len % LEN_MODULUS
    requires Within(Offered(iov[..]), mem.Length)
    modifies mem, iov
    ensures iov[..] == old(iov[..])[i := Moved(old(iov[i]), |bytes|)]
    ensures var a := old(Offered(iov[..]));
      && |bytes| <= |a| && Within(a[..|bytes|], mem.Length)
      && mem[..] == Written(old(mem[..]), a[..|bytes|], bytes)
      && Offered(iov[..]) == a[|bytes|..]
    ensures |bytes| == old(iov[i].len) % LEN_MODULUS ==> Passed(Seen(iov[..]), i + 1)
  {
    hide Passed, Addresses, Range, Written;
    ghost var a := Offered(iov[..]);
    var base := iov[i].base;
    Consume(iov, i, |bytes|);
    ConcatParts(Range(base, |bytes|), Offered(iov[..]));
    StoreRange(mem, base, bytes, a);
  }

  /** Copies bytes out to the segments of a vector, and moves the vector past what was written. */
  method ToIovec(mem: array<Byte>, iov: array<Segment>, from: seq<Byte>, len: int)
    requires len <= |from| && len <= |Offered(iov[..])| && Within(Offered(iov[..]), mem.Length)
    modifies mem, iov
    ensures iov[..] == Advanced(old(iov[..]), Count(len)) && Offered(iov[..]) == old(Offered(iov[..]))[Count(len)..]
    ensures mem[..] == Written(old(mem[..]), old(Offered(iov[..]))[..Count(len)], from[..Count(len)])
  {
    hide Copied, Addresses, Written, Range, Passed, Advanced, Seen;
    ghost var m, a, end := mem[..], Offered(iov[..]), Advanced(iov[..], Count(len));
    var left, done, i := len, 0, 0;
    CopiedFacts(m, a, from, 0, m, a);
    PassingSeen(iov[..], 0);
    AdvancedEnds(iov[..], 0, Count(len));
    while left > 0
      invariant (left < 0 ==> left == len) && done == Count(len) - Count(left) && i <= iov.Length
      invariant Copied(m, a, from, done, mem[..], Offered(iov[..])) && (left > 0 ==> Passed(Seen(iov[..]), i))
      invariant iov[..i] + Advanced(iov[i..], Count(left)) == end
      decreases Count(left), iov.Length - i
    {
      ghost var now, addrs, v := mem[..], Offered(iov[..]), iov[..];
      CopiedFacts(m, a, from, done, now, addrs);
      PassingSeen(v, i);
      ghost var k := Least(v[i].len % LEN_MODULUS, left);
      AdvancedStep(v, i, left, v[i := Moved(v[i], k)]);
      if iov[i].len != 0 {
        var copy := Least(iov[i].len % LEN_MODULUS, left);
        CopyOut(mem, iov, i, from[done..done + copy]);
        CopiedMore(m, a, from, done, copy, now, addrs, mem[..], Offered(iov[..]));
        done := done + copy;
        left := left - copy;
      }
      assert iov[..] == v[i := Moved(v[i], k)];
      i := i + 1;
    }
    CopiedFacts(m, a, from, done, mem[..], Offered(iov[..]));
    AdvancedEnds(iov[..], i, 0);
  }

  lemma PassingSeen(v: seq<Segment>, i: nat)
    ensures |Seen(v)| == |v| && Passed(Seen(v), 0)
    ensures Passed(Seen(v), i) && Offered(v) != [] ==> i < |v|
    ensures Passed(Seen(v), i) && i < |v| && v[i].len == 0 ==> Passed(Seen(v), i + 1)
  {
    Passing(Seen(v), i);
  }

  /** The first `done` bytes have been read, and these addresses are left. */
  ghost predicate HasRead(m: seq<Byte>, a: seq<nat>, done: nat, to: seq<Byte>, left: seq<nat>) {
    done <= |a| && Within(a, |m|) && left == a[done..] && to == ReadBack(m, a[..done])
  }

  lemma HasReadMore(m: seq<Byte>, a: seq<nat>, done: nat, to: seq<Byte>, left: seq<nat>, copy: nat)
    requires HasRead(m, a, done, to, left) && copy <= |left|
    ensures Within(left[..copy], |m|)
    ensures HasRead(m, a, done + copy, to + ReadBack(m, left[..copy]), left[copy..])
  {
    assert a[..done] + left[..copy] == a[..done + copy];
  }

  lemma HasReadFacts(m: seq<Byte>, a: seq<nat>, done: nat, to: seq<Byte>, left: seq<nat>)
    ensures Within(a, |m|) ==> HasRead(m, a, 0, [], a)
    ensures HasRead(m, a, done, to, left) ==>
      && done <= |a| && |left| == |a| - done && Within(left, |m|)
      && Within(a[..done], |m|) && left == a[done..] && to == ReadBack(m, a[..done])
  {
    assert a[..0] == [] && a[0..] == a;
  }

  /** Copies bytes from the start of segment `i`, and moves it past them. */
  method CopyIn(mem: array<Byte>, iov: array<Segment>, i: nat, copy: nat) returns (bytes: seq<Byte>)
    requires i < iov.Length && Passed(Seen(iov[..]), i) && copy <= iov[i].len % LEN_MODULUS
    requires Within(Offered(iov[..]), mem.Length)
    modifies iov
    ensures iov[..] == old(iov[..])[i := Moved(old(iov[i]), copy)]
    ensures var a := old(Offered(iov[..]));
      && copy <= |a| && Within(a[..copy], mem.Length)
      && bytes == ReadBack(mem[..], a[..copy]) && Offered(iov[..]) == a[copy..]
    ensures copy == old(iov[i].len) % LEN_MODULUS ==> Passed(Seen(iov[..]), i + 1)
  {
    hide Passed, Addresses;
    ghost var a := Offered(iov[..]);
    var base := iov[i].base;
    Consume(iov, i, copy);
    ConcatParts(Range(base, copy), Offered(iov[..]));
    bytes := [];
    if copy > 0 {
      assert a[copy - 1] == Range(base, copy)[copy - 1];
      bytes := mem[base..base + copy];
    }
  }

  /** Copies bytes in from the segments of a vector, and moves the vector past what was read. */
  method FromIovec(mem: array<Byte>, iov: array<Segment>, len: int) returns (to: seq<Byte>)
    requires len <= |Offered(iov[..])| && Within(Offered(iov[..]), mem.Length)
    modifies iov
    ensures iov[..] == Advanced(old(iov[..]), Count(len)) && Offered(iov[..]) == old(Offered(iov[..]))[Count(len)..]
    ensures to == ReadBack(mem[..], old(Offered(iov[..]))[..Count(len)])
  {
    hide HasRead, Addresses, ReadBack, Range, Passed, Advanced, Seen;
    ghost var m, a, end, done := mem[..], Offered(iov[..]), Advanced(iov[..], Count(len)), 0;
    var left, i := len, 0;
    to := [];
    HasReadFacts(m, a, 0, to, a);
    PassingSeen(iov[..], 0);
    AdvancedEnds(iov[..], 0, Count(len));
    while left > 0
      invariant (left < 0 ==> left == len) && done == Count(len) - Count(left) && i <= iov.Length
      invariant HasRead(m, a, done, to, Offered(iov[..])) && (left > 0 ==> Passed(Seen(iov[..]), i))
      invariant iov[..i] + Advanced(iov[i..], Count(left)) == end
      decreases Count(left), iov.Length - i
    {
      ghost var addrs, v := Offered(iov[..]), iov[..];
      HasReadFacts(m, a, done, to, addrs);
      PassingSeen(v, i);
      ghost var k := Least(v[i].len % LEN_MODULUS, left);
      AdvancedStep(v, i, left, v[i := Moved(v[i], k)]);
      if iov[i].len != 0 {
        var copy := Least(iov[i].len % LEN_MODULUS, left);
        var bytes := CopyIn(mem, iov, i, copy);
        HasReadMore(m, a, done, to, addrs, copy);
        to := to + bytes;
        left := left - copy;
        done := done + copy;
      }
      assert iov[..] == v[i := Moved(v[i], k)];
      i := i + 1;
    }
    HasReadFacts(m, a, done, to, Offered(iov[..]));
    AdvancedEnds(iov[..], i, 0);
  }

  /** Copies bytes to one stretch of memory. */
  method StoreRange(mem: array<Byte>, base: nat, bytes: seq<Byte>, ghost a: seq<nat>)
    requires |bytes| <= |a| && a[..|bytes|] == Range(base, |bytes|) && Within(a, mem.Length)
    modifies mem
    ensures mem[..] == Written(old(mem[..]), a[..|bytes|], bytes)
  {
    if |bytes| == 0 {
      return;
    }
    assert Range(base, |bytes|)[|bytes| - 1] == a[|bytes| - 1];
    forall k | 0 <= k < |bytes| {
      mem[base + k] := bytes[k];
    }
    WrittenRange(old(mem[..]), base, bytes);
    assert mem[..] == old(mem[..])[..base] + bytes + old(mem[..])[base + |bytes|..];
  }

  /** Copying bytes out through a vector and back in through another copy of it returns them, if the
      addresses used do not overlap, whatever the lengths of the segments. */
  method OutAndBack(mem: array<Byte>, out: array<Segment>, back: array<Segment>, from: seq<Byte>)
      returns (to: seq<Byte>)
    requires out != back && out[..] == back[..] && |from| <= |Offered(out[..])|
    requires Within(Offered(out[..]), mem.Length) && NoDup(Offered(out[..])[..|from|])
    modifies mem, out, back
    ensures to == from && out[..] == back[..]
  {
    hide Offered, Written, ReadBack, NoDup, Advanced;
    ghost var a, m := Offered(out[..]), mem[..];
    assert from[..|from|] == from && Within(a[..|from|], |m|);
    ToIovec(mem, out, from, |from|);
    assert Offered(back[..]) == a by { assert back[..] == old(back[..]); }
    to := FromIovec(mem, back, |from|);
    DifferentAddressesRoundTrip(m, a[..|from|], from);
  }
}
