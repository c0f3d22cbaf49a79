/** Division of a 64-bit number by a 32-bit one on a host that divides 32 bits at a time: the divisor is
    doubled up to the dividend, then subtracted and halved down again. */
module Division {

  type U64 = x: int | 0 <= x < 0x1_0000_0000_0000_0000
  type U32 = x: int | 0 <= x < 0x1_0000_0000

  const HALF := 0x1_0000_0000

  ghost predicate PowerOfTwo(d: nat) {
    d == 1 || (d > 1 && d % 2 == 0 && PowerOfTwo(d / 2))
  }

  lemma SameQuotient(base: nat, q: nat, r: nat, q': nat, r': nat)
    requires base * q + r == base * q' + r' && r < base && r' < base
    ensures q == q'
  {
    if q < q' {
      Gap(base, q, q');
    } else if q' < q {
      Gap(base, q', q);
    }
  }

  lemma {:induction false} Gap(base: nat, x: nat, y: nat)
    requires x < y
    ensures base * y >= base * x + base
  {
    assert base * y == base * (y - 1) + base;
    if x < y - 1 {
      Gap(base, x, y - 1);
    }
  }

  /** A quotient and a remainder are determined by what they make up. */
  lemma QuotientIsUnique(n: nat, base: nat, q: nat, r: nat)
    requires base > 0 && n == base * q + r && r < base
    ensures q == n / base && r == n % base
  {
    SameQuotient(base, q, r, n / base, n % base);
  }

  lemma HalfOfProduct(base: nat, d: nat, b: nat)
    requires b == base * d && d % 2 == 0
    ensures b / 2 == base * (d / 2) && b % 2 == 0
  {
    assert d == 2 * (d / 2);
    assert b == 2 * (base * (d / 2));
  }

  lemma MulLess(base: nat, x: nat, n: nat)
    requires base > 0 && base * x <= n
    ensures x <= n
  {
    assert base * x == x + (base - 1) * x;
  }

  /** The division so far: what has been taken out, what remains, and the current multiple of the divisor. */
  ghost predicate Dividing(n: nat, base: nat, res: nat, rem: nat, b: nat, d: nat) {
    n == base * res + rem && b == base * d && PowerOfTwo(d) && rem < 2 * b
  }

  /** Subtracting the current multiple, where it fits, takes out as much as it puts into the quotient. */
  lemma Subtract(n: nat, base: nat, res: nat, rem: nat, b: nat, d: nat)
    requires base > 0 && Dividing(n, base, res, rem, b, d)
    ensures rem >= b ==> res + d <= n && Dividing(n, base, res + d, rem - b, b, d) && rem - b < b
  {
    if rem >= b {
      assert base * (res + d) == base * res + b;
      MulLess(base, res + d, n);
    }
  }

  lemma Halve(n: nat, base: nat, res: nat, rem: nat, b: nat, d: nat)
    requires Dividing(n, base, res, rem, b, d) && rem < b
    ensures d > 1 ==> Dividing(n, base, res, rem, b / 2, d / 2)
    ensures d == 1 ==> n == base * res + rem && rem < base
  {
    if d > 1 {
      HalfOfProduct(base, d, b);
    }
  }

  /** Takes whole multiples of the divisor out of the upper half. */
  method ReduceHigh(n: U64, base: U32) returns (rem: U64, res: U64)
    requires base > 0
    ensures n == base * res + rem
  {
    rem, res := n, 0;
    var high: U32 := n / HALF;
    if high >= base {
      var q: U32 := high / base;
      assert high == base * q + high % base;
      MulLess(base, q, high);
      var product: U32 := q * base;
      res := q * HALF;
      assert product * HALF <= high * HALF <= n;
      rem := rem - product * HALF;
      assert base * res == product * HALF;
    }
  }

  /** Doubles the divisor until it covers the remainder or has its top bit set. */
  method DoubleUp(base: U32, rem: U64) returns (b: U64, d: U64)
    requires base > 0
    ensures b == base * d && PowerOfTwo(d) && rem < 2 * b
  {
    b, d := base, 1;
    while 0 < b < 0x8000_0000_0000_0000 && b < rem
      invariant b == base * d && b > 0 && PowerOfTwo(d) && d <= b
      decreases rem - b
    {
      b := b + b;
      d := d + d;
    }
  }

  /** Quotient and remainder by subtracting and halving. */
  method Div64By32(n: U64, base: U32) returns (quotient: U64, remainder: U32)
    requires base > 0
    ensures quotient == n / base && remainder == n % base
  {
    var rem, res := ReduceHigh(n, base);
    var b, d := DoubleUp(base, rem);
    assert Dividing(n, base, res, rem, b, d);
    hide Dividing;
    while true
      invariant Dividing(n, base, res, rem, b, d) && d > 0
      decreases d
    {
      Subtract(n, base, res, rem, b, d);
      if rem >= b {
        rem := rem - b;
        res := res + d;
      }
      Halve(n, base, res, rem, b, d);
      b := b / 2;
      d := d / 2;
      if d == 0 {
        break;
      }
    }
    QuotientIsUnique(n, base, res, rem);
    quotient, remainder := res, rem;
  }

  /** Division that takes the short way when the upper half is empty. */
  method DoDiv(n: U64, base: U32) returns (quotient: U64, remainder: U32)
    requires base > 0
    ensures quotient == n / base && remainder == n % base
  {
    if n / HALF == 0 {
      var low: U32 := n;
      remainder := low % base;
      quotient := low / base;
    } else {
      quotient, remainder := Div64By32(n, base);
    }
  }
}
