/** Time values on 32-bit hosts: seconds and nanoseconds packed into one 64-bit number, which is added and
    subtracted as a whole and then put right.  Signed overflow wraps around. */
module Ktime {
  import opened Division

  const TWO31 := 0x8000_0000
  const TWO32 := 0x1_0000_0000
  const TWO63 := 0x8000_0000_0000_0000
  const TWO64 := 0x1_0000_0000_0000_0000
  const NSEC_PER_SEC := 1_000_000_000

  type S64 = x: int | -0x8000_0000_0000_0000 <= x < 0x8000_0000_0000_0000
  type S32 = x: int | -0x8000_0000 <= x < 0x8000_0000

  function Wrap64(x: int): S64 {
    if x % TWO64 >= TWO63 then x % TWO64 - TWO64 else x % TWO64
  }

  function Wrap32(x: int): S32 {
    if x % TWO32 >= TWO31 then x % TWO32 - TWO32 else x % TWO32
  }

  predicate Fits32(x: int) {
    -TWO31 <= x < TWO31
  }

  // ----- the two halves of a packed value

  function Sec(t: S64): S32 {
    t / TWO32
  }

  function Nsec(t: S64): S32 {
    Wrap32(t % TWO32)
  }

  function Pack(sec: S32, nsec: S32): S64 {
    sec * TWO32 + nsec % TWO32
  }

  /** The nanoseconds are less than a second; negative times have negative seconds only. */
  predicate Normal(t: S64) {
    0 <= Nsec(t) < NSEC_PER_SEC
  }

  function ToNs(t: S64): S64 {
    Sec(t) * NSEC_PER_SEC + Nsec(t)
  }

  lemma HalvesAreUnique(h: int, l: int, h': int, l': int)
    requires TWO32 * h + l == TWO32 * h' + l' && 0 <= l < TWO32 && 0 <= l' < TWO32
    ensures h == h' && l == l'
  {
  }

  /** Wrapping in 64 bits wraps the upper half in 32 bits and keeps the lower half. */
  lemma WrapHalves(x: int, h: int, l: int)
    requires x == TWO32 * h + l && 0 <= l < TWO32
    ensures Wrap64(x) == TWO32 * Wrap32(h) + l
    ensures Sec(Wrap64(x)) == Wrap32(h) && Wrap64(x) % TWO32 == l
  {
    var q, m := h / TWO32, h % TWO32;
    assert h == TWO32 * q + m;
    assert x == TWO64 * q + (TWO32 * m + l) && 0 <= TWO32 * m + l < TWO64;
    assert x % TWO64 == TWO32 * m + l;
    var t := Wrap64(x);
    assert t == TWO32 * Wrap32(h) + l;
    HalvesAreUnique(t / TWO32, t % TWO32, Wrap32(h), l);
  }

  lemma PackHalves(sec: S32, nsec: S32)
    requires nsec >= 0
    ensures Sec(Pack(sec, nsec)) == sec && Nsec(Pack(sec, nsec)) == nsec && Pack(sec, nsec) == TWO32 * sec + nsec
  {
    var t := Pack(sec, nsec);
    HalvesAreUnique(t / TWO32, t % TWO32, sec, nsec);
  }

  lemma NormalHalves(t: S64)
    requires Normal(t)
    ensures t == TWO32 * Sec(t) + Nsec(t) && t == Pack(Sec(t), Nsec(t))
  {
    assert t == TWO32 * (t / TWO32) + t % TWO32;
  }

  // ----- arithmetic

  function Add(a: S64, b: S64): S64 {
    var res := Wrap64(a + b);
    if Nsec(res) >= NSEC_PER_SEC then Wrap64(res + (TWO32 - NSEC_PER_SEC)) else res
  }

  function Sub(a: S64, b: S64): S64 {
    var res := Wrap64(a - b);
    if Nsec(res) < 0 then Pack(Sec(res), Nsec(res) + NSEC_PER_SEC) else res
  }

  lemma AddHalves(a: S64, b: S64)
    requires Normal(a) && Normal(b)
    ensures var n, s := Nsec(a) + Nsec(b), Sec(a) + Sec(b);
      Add(a, b) == if n >= NSEC_PER_SEC then Pack(Wrap32(s + 1), n - NSEC_PER_SEC) else Pack(Wrap32(s), n)
  {
    hide Wrap64, Wrap32, Pack, Sec;
    var n, s := Nsec(a) + Nsec(b), Sec(a) + Sec(b);
    NormalHalves(a);
    NormalHalves(b);
    WrapHalves(a + b, s, n);
    SmallWrap(n);
    if n >= NSEC_PER_SEC {
      CarryHalves(Wrap64(a + b), s, n);
    } else {
      PackHalves(Wrap32(s), n);
    }
  }

  lemma SmallWrap(n: int)
    requires 0 <= n < TWO31
    ensures Wrap32(n) == n
  {
  }

  /** Adding the complement of a second to the whole value takes a second off the lower half and carries. */
  lemma CarryHalves(res: S64, s: int, n: int)
    requires NSEC_PER_SEC <= n < TWO31 && res == TWO32 * Wrap32(s) + n
    ensures Wrap64(res + (TWO32 - NSEC_PER_SEC)) == Pack(Wrap32(s + 1), n - NSEC_PER_SEC)
  {
    WrapHalves(res + (TWO32 - NSEC_PER_SEC), Wrap32(s) + 1, n - NSEC_PER_SEC);
    WrapTwice(s, 1);
  }

  lemma SubHalves(a: S64, b: S64)
    requires Normal(a) && Normal(b)
    ensures var n, s := Nsec(a) - Nsec(b), Sec(a) - Sec(b);
      Sub(a, b) == if n < 0 then Pack(Wrap32(s - 1), n + NSEC_PER_SEC) else Pack(Wrap32(s), n)
  {
    var n, s := Nsec(a) - Nsec(b), Sec(a) - Sec(b);
    NormalHalves(a);
    NormalHalves(b);
    hide Wrap64, Wrap32, Pack, Sec;
    if n < 0 {
      WrapHalves(a - b, s - 1, n + TWO32);
      NegativeWrap(n);
    } else {
      WrapHalves(a - b, s, n);
      SmallWrap(n);
      PackHalves(Wrap32(s), n);
    }
  }

  lemma NegativeWrap(n: int)
    requires -TWO31 <= n < 0
    ensures Wrap32(n + TWO32) == n
  {
  }

  lemma WrapTwice(x: int, y: int)
    ensures Wrap32(Wrap32(x) + y) == Wrap32(x + y)
  {
    var k := (x - Wrap32(x)) / TWO32;
    assert x == Wrap32(x) + TWO32 * k;
    SameRemainder(Wrap32(x) + y, k);
  }

  lemma SameRemainder(x: int, k: int)
    ensures (x + TWO32 * k) % TWO32 == x % TWO32
  {
    var y := x + TWO32 * k;
    HalvesAreUnique(y / TWO32, y % TWO32, x / TWO32 + k, x % TWO32);
  }

  lemma WrapIsIdentityIffFits(x: int)
    ensures Wrap32(x) == x <==> Fits32(x)
  {
  }

  /** The sum is normal, and is the exact sum in nanoseconds exactly when its seconds fit. */
  lemma AddIsExact(a: S64, b: S64)
    requires Normal(a) && Normal(b)
    ensures Normal(Add(a, b))
    ensures ToNs(Add(a, b)) == ToNs(a) + ToNs(b) <==> Fits32((ToNs(a) + ToNs(b)) / NSEC_PER_SEC)
  {
    var n, s := Nsec(a) + Nsec(b), Sec(a) + Sec(b);
    var carry := if n >= NSEC_PER_SEC then 1 else 0;
    AddHalves(a, b);
    PackHalves(Wrap32(s + carry), n - carry * NSEC_PER_SEC);
    WrapIsIdentityIffFits(s + carry);
    Seconds(ToNs(a) + ToNs(b), s + carry, n - carry * NSEC_PER_SEC);
  }

  /** The difference is normal, and is the exact difference exactly when its seconds fit. */
  lemma SubIsExact(a: S64, b: S64)
    requires Normal(a) && Normal(b)
    ensures Normal(Sub(a, b))
    ensures ToNs(Sub(a, b)) == ToNs(a) - ToNs(b) <==> Fits32((ToNs(a) - ToNs(b)) / NSEC_PER_SEC)
  {
    var n, s := Nsec(a) - Nsec(b), Sec(a) - Sec(b);
    var borrow := if n < 0 then 1 else 0;
    SubHalves(a, b);
    PackHalves(Wrap32(s - borrow), n + borrow * NSEC_PER_SEC);
    WrapIsIdentityIffFits(s - borrow);
    Seconds(ToNs(a) - ToNs(b), s - borrow, n + borrow * NSEC_PER_SEC);
  }

  /** A number of nanoseconds has one normal form. */
  lemma Seconds(ns: int, s: int, n: int)
    requires ns == s * NSEC_PER_SEC + n && 0 <= n < NSEC_PER_SEC
    ensures ns / NSEC_PER_SEC == s && ns % NSEC_PER_SEC == n
  {
  }

  /** Packed values compare as the times they stand for. */
  lemma OrderIsTimeOrder(a: S64, b: S64)
    requires Normal(a) && Normal(b)
    ensures a < b <==> ToNs(a) < ToNs(b)
  {
    hide Sec, Nsec;
    NormalHalves(a);
    NormalHalves(b);
  }

  /** Whether two packed values are equal as numbers. */
  predicate Equal(a: S64, b: S64) {
    a == b
  }

  lemma EqualIsSameTime(a: S64, b: S64)
    requires Normal(a) && Normal(b)
    ensures Equal(a, b) <==> ToNs(a) == ToNs(b)
  {
    OrderIsTimeOrder(a, b);
    OrderIsTimeOrder(b, a);
  }

  /** The latest time that a timeout may have. */
  function Latest(): S64 {
    Pack(TWO31 - 1, 0)
  }

  /** It is 2^31 - 1 seconds after the start, and no whole number of seconds that can be packed is later. */
  lemma LatestIsLatest(t: S64)
    requires Normal(t) && Nsec(t) == 0
    ensures Normal(Latest()) && ToNs(Latest()) == 0x7fff_ffff * 1_000_000_000 && ToNs(t) <= ToNs(Latest())
  {
    PackHalves(TWO31 - 1, 0);
  }

  function AddSafe(a: S64, b: S64): S64 {
    var res := Add(a, b);
    if res < 0 || res < a || res < b then Latest() else res
  }

  lemma SignIsTimeSign(t: S64)
    requires Normal(t)
    ensures t < 0 <==> ToNs(t) < 0
  {
    NormalHalves(t);
  }

  lemma SumBelow(a: S64, b: S64)
    requires Normal(a) && Normal(b) && !Fits32((ToNs(a) + ToNs(b)) / NSEC_PER_SEC)
    ensures ToNs(a) >= 0 && ToNs(b) >= 0 ==> Add(a, b) < 0
    ensures ToNs(a) < 0 <==> ToNs(b) < 0
    ensures ToNs(a) < 0 ==> Add(a, b) >= 0
  {
    hide Add, Pack, Sec, Nsec, Wrap32;
    var n, s := Nsec(a) + Nsec(b), Sec(a) + Sec(b);
    var carry := if n >= NSEC_PER_SEC then 1 else 0;
    AddHalves(a, b);
    PackHalves(Wrap32(s + carry), n - carry * NSEC_PER_SEC);
    Seconds(ToNs(a) + ToNs(b), s + carry, n - carry * NSEC_PER_SEC);
    WrapFlips(s + carry);
  }

  lemma WrapFlips(x: int)
    requires -TWO32 <= x < TWO32 && !Fits32(x)
    ensures Wrap32(x) < 0 <==> x >= 0
  {
  }

  /** The safe sum is the exact sum where both times are non-negative and the seconds fit, and the latest
      time otherwise; except that two times so early that their sum does not fit wrap around unnoticed. */
  lemma AddSafeIsCapped(a: S64, b: S64)
    requires Normal(a) && Normal(b)
    ensures var ns := ToNs(a) + ToNs(b);
      && (ToNs(a) >= 0 && ToNs(b) >= 0 && Fits32(ns / NSEC_PER_SEC) ==>
            Normal(AddSafe(a, b)) && ToNs(AddSafe(a, b)) == ns)
      && (ToNs(a) >= 0 && ToNs(b) >= 0 && !Fits32(ns / NSEC_PER_SEC) ==> AddSafe(a, b) == Latest())
      && (ToNs(a) < 0 || ToNs(b) < 0 ==>
            AddSafe(a, b) == if Fits32(ns / NSEC_PER_SEC) then Latest() else Add(a, b))
  {
    hide Add, ToNs, Normal, Pack;
    var res, ns := Add(a, b), ToNs(a) + ToNs(b);
    AddIsExact(a, b);
    SignIsTimeSign(a);
    SignIsTimeSign(b);
    if Fits32(ns / NSEC_PER_SEC) {
      OrderIsTimeOrder(res, a);
      OrderIsTimeOrder(res, b);
      SignIsTimeSign(res);
    } else {
      SumBelow(a, b);
    }
  }

  /** Two times two thousand million seconds before the start: their safe sum is the start itself. */
  lemma EarlyTimesWrap()
    ensures var a := Pack(-TWO31, 0); Normal(a) && ToNs(a) + ToNs(a) < 0 && AddSafe(a, a) == 0
  {
    PackHalves(-TWO31, 0);
    AddHalves(Pack(-TWO31, 0), Pack(-TWO31, 0));
  }

  // ----- nanoseconds and timespecs

  /** Nanoseconds as a packed value; seconds that do not fit wrap around. */
  method FromNs(nsec: U64) returns (t: S64)
    ensures Normal(t) && t == Pack(Wrap32(nsec / NSEC_PER_SEC), nsec % NSEC_PER_SEC)
    ensures ToNs(t) == nsec <==> Fits32(nsec / NSEC_PER_SEC)
  {
    ghost var q, r := nsec / NSEC_PER_SEC, nsec % NSEC_PER_SEC;
    PackHalves(Wrap32(q), r);
    WrapIsIdentityIffFits(q);
    if nsec < NSEC_PER_SEC {
      t := nsec;
    } else {
      var sec, rem := DoDiv(nsec, NSEC_PER_SEC);
      t := Pack(Wrap32(sec), rem);
    }
  }

  lemma WrapAgrees(x: int, y: int, q: int)
    requires y - x == Wrap32(q) - q || y - x == q - Wrap32(q)
    ensures Wrap32(x) == Wrap32(y)
  {
    var k := (q - Wrap32(q)) / TWO32;
    assert q == Wrap32(q) + TWO32 * k;
    SameRemainder(x, k);
    SameRemainder(x, -k);
  }

  /** Adds nanoseconds: the result is exact exactly when its seconds fit, whether or not those of the
      nanoseconds alone do. */
  method AddNs(kt: S64, nsec: U64) returns (t: S64)
    requires Normal(kt)
    ensures Normal(t)
    ensures ToNs(t) == ToNs(kt) + nsec <==> Fits32((ToNs(kt) + nsec) / NSEC_PER_SEC)
  {
    var tmp := FromNs(nsec);
    t := Add(kt, tmp);
    ghost var q, r := nsec / NSEC_PER_SEC, nsec % NSEC_PER_SEC;
    AddedSeconds(kt, q, r);
  }

  lemma AddedSeconds(kt: S64, q: nat, r: nat)
    requires Normal(kt) && r < NSEC_PER_SEC
    ensures var t, ns := Add(kt, Pack(Wrap32(q), r)), ToNs(kt) + q * NSEC_PER_SEC + r;
      Normal(t) && (ToNs(t) == ns <==> Fits32(ns / NSEC_PER_SEC))
  {
    var n := Nsec(kt) + r;
    var carry := if n >= NSEC_PER_SEC then 1 else 0;
    var s := Sec(kt) + q + carry;
    PackHalves(Wrap32(q), r);
    AddHalves(kt, Pack(Wrap32(q), r));
    WrapAgrees(Sec(kt) + Wrap32(q) + carry, s, q);
    PackHalves(Wrap32(s), n - carry * NSEC_PER_SEC);
    Seconds(ToNs(kt) + q * NSEC_PER_SEC + r, s, n - carry * NSEC_PER_SEC);
    WrapIsIdentityIffFits(s);
  }

  /** Subtracts nanoseconds, exactly when the seconds of the result fit. */
  method SubNs(kt: S64, nsec: U64) returns (t: S64)
    requires Normal(kt)
    ensures Normal(t)
    ensures ToNs(t) == ToNs(kt) - nsec <==> Fits32((ToNs(kt) - nsec) / NSEC_PER_SEC)
  {
    var tmp := FromNs(nsec);
    t := Sub(kt, tmp);
    ghost var q, r := nsec / NSEC_PER_SEC, nsec % NSEC_PER_SEC;
    SubtractedSeconds(kt, q, r);
  }

  lemma SubtractedSeconds(kt: S64, q: nat, r: nat)
    requires Normal(kt) && r < NSEC_PER_SEC
    ensures var t, ns := Sub(kt, Pack(Wrap32(q), r)), ToNs(kt) - q * NSEC_PER_SEC - r;
      Normal(t) && (ToNs(t) == ns <==> Fits32(ns / NSEC_PER_SEC))
  {
    var n := Nsec(kt) - r;
    var borrow := if n < 0 then 1 else 0;
    var s := Sec(kt) - q - borrow;
    PackHalves(Wrap32(q), r);
    SubHalves(kt, Pack(Wrap32(q), r));
    WrapAgrees(Sec(kt) - Wrap32(q) - borrow, s, q);
    PackHalves(Wrap32(s), n + borrow * NSEC_PER_SEC);
    Seconds(ToNs(kt) - q * NSEC_PER_SEC - r, s, n + borrow * NSEC_PER_SEC);
    WrapIsIdentityIffFits(s);
  }

  function Abs(x: int): nat {
    if x < 0 then -x else x
  }

  /** Division as C does it, towards zero. */
  function TruncDiv(x: int, y: int): int
    requires y != 0
  {
    var q := Abs(x) / Abs(y);
    if (x < 0) == (y < 0) then q else -q
  }

  /** Signed division through unsigned division; the one quotient that does not fit wraps around. */
  method DivS64Rem(dividend: S64, divisor: S32) returns (quotient: S64, remainder: S32)
    requires divisor != 0
    ensures quotient == Wrap64(TruncDiv(dividend, divisor))
    ensures dividend == TruncDiv(dividend, divisor) * divisor + remainder
    ensures Abs(remainder) < Abs(divisor) && (remainder != 0 ==> (remainder < 0 <==> dividend < 0))
  {
    var q: int, r: int := DoDiv(Abs(dividend), Abs(divisor));
    assert Abs(dividend) == q * Abs(divisor) + r;
    if dividend < 0 {
      remainder := -r;
      quotient := Wrap64(if divisor > 0 then -q else q);
    } else {
      remainder := r;
      quotient := Wrap64(if divisor < 0 then -q else q);
    }
  }

  datatype Timespec = Timespec(sec: S32, nsec: S32)

  /** Nanoseconds as a timespec: normal for negative times too, and exact exactly when the seconds fit. */
  method NsToTimespec(nsec: S64) returns (ts: Timespec)
    ensures ts == Timespec(Wrap32(nsec / NSEC_PER_SEC), nsec % NSEC_PER_SEC)
    ensures ts.sec * NSEC_PER_SEC + ts.nsec == nsec <==> Fits32(nsec / NSEC_PER_SEC)
  {
    WrapIsIdentityIffFits(nsec / NSEC_PER_SEC);
    if nsec == 0 {
      return Timespec(0, 0);
    }
    var q, rem := DivS64Rem(nsec, NSEC_PER_SEC);
    ghost var exact := TruncDiv(nsec, NSEC_PER_SEC);
    assert q == exact;
    var sec: int := Wrap32(q);
    if rem < 0 {
      WrapTwice(q, -1);
      Seconds(nsec, exact - 1, rem + NSEC_PER_SEC);
      sec := Wrap32(sec - 1);
      rem := rem + NSEC_PER_SEC;
    } else {
      Seconds(nsec, exact, rem);
    }
    ts := Timespec(sec, rem);
  }

  /** A packed time, taken to nanoseconds and on to a timespec, packs to itself. */
  method TimespecRoundTrip(t: S64) returns (r: S64)
    requires Normal(t)
    ensures r == t
  {
    var ts := NsToTimespec(ToNs(t));
    Seconds(ToNs(t), Sec(t), Nsec(t));
    WrapIsIdentityIffFits(Sec(t));
    NormalHalves(t);
    r := Pack(ts.sec, ts.nsec);
  }
}
