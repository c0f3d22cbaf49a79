/** Dotted-quad addresses: the printer, and the parser that is its exact inverse. */
module Inet {
  import opened Wrappers

  const DIGITS := "0123456789"
  const AF_INET := 2

  function Digit(n: nat): char
    requires n < 10
  {
    DIGITS[n]
  }

  /** The place of a character among the digits. */
  function DigitOf(c: char): (r: Option<nat>)
    ensures r.Some? ==> r.value < 10 && Digit(r.value) == c
    ensures forall n :: 0 <= n < 10 && Digit(n) == c ==> r == Some(n)
  {
    if '0' <= c <= '9' then Some((c as int) - ('0' as int)) else None
  }

  function Decimal(n: nat): string {
    if n < 10 then [Digit(n)] else Decimal(n / 10) + [Digit(n % 10)]
  }

  function Quad(ip: seq<Byte>): string
    requires |ip| == 4
  {
    Decimal(ip[0]) + "." + Decimal(ip[1]) + "." + Decimal(ip[2]) + "." + Decimal(ip[3])
  }

  lemma DecimalLength(n: Byte)
    ensures 1 <= |Decimal(n)| <= 3
  {
    if n >= 10 {
      var m := n / 10;
      assert m < 26 && m / 10 < 10;
      assert |Decimal(m)| <= 2;
    }
  }

  /** Prints an address, given room for the longest one and its terminator. */
  function InetNtop(af: int, ip: seq<Byte>, size: nat): (r: Option<string>)
    requires |ip| == 4
    ensures r.Some? <==> af == AF_INET && size >= 16
    ensures r.Some? ==> |r.value| + 1 <= size && Parse(r.value, [], None) == Some(ip)
  {
    if size < 16 || af != AF_INET then None else
      DecimalLength(ip[0]);
      DecimalLength(ip[1]);
      DecimalLength(ip[2]);
      DecimalLength(ip[3]);
      ParsesQuad(ip);
      Some(Quad(ip))
  }

  /** Parses the rest of a string, after some finished octets and perhaps part of the next one. */
  function Parse(s: string, done: seq<Byte>, cur: Option<Byte>): (r: Option<seq<Byte>>)
    requires |done| <= 3
    ensures r.Some? ==> |r.value| == 4
    decreases s
  {
    if s == [] then
      if |done| == 3 && cur.Some? then Some(done + [cur.value]) else None
    else
      var digit := DigitOf(s[0]);
      if digit.Some? then
        var val := (if cur.Some? then cur.value * 10 else 0) + digit.value;
        if cur == Some(0) || val > 255 then None else Parse(s[1..], done, Some(val))
      else if s[0] == '.' && cur.Some? && |done| < 3 then Parse(s[1..], done + [cur.value], None)
      else None
  }

  // ----- the parser undoes the printer

  /** One more digit, after a number that is none or not zero. */
  lemma ParsesDigit(d: nat, rest: string, done: seq<Byte>, cur: Option<Byte>, val: Byte)
    requires |done| <= 3 && d < 10 && cur != Some(0)
    requires val == (if cur.Some? then cur.value as int * 10 else 0) + d
    ensures Parse([Digit(d)] + rest, done, cur) == Parse(rest, done, Some(val))
  {
    var s := [Digit(d)] + rest;
    assert s[0] == Digit(d) && s[1..] == rest && DigitOf(s[0]) == Some(d);
  }

  lemma {:induction false} ParsesDecimal(n: Byte, rest: string, done: seq<Byte>)
    requires |done| <= 3
    ensures Parse(Decimal(n) + rest, done, None) == Parse(rest, done, Some(n))
  {
    hide Parse, DigitOf, Digit;
    if n < 10 {
      ParsesDigit(n, rest, done, None, n);
    } else {
      var last := [Digit(n % 10)];
      ParsesDecimal(n / 10, last + rest, done);
      ParsesDigit(n % 10, rest, done, Some(n / 10), n);
      assert Decimal(n / 10) + (last + rest) == Decimal(n) + rest;
    }
  }

  lemma ParsesField(n: Byte, rest: string, done: seq<Byte>)
    requires |done| < 3
    ensures Parse(Decimal(n) + ("." + rest), done, None) == Parse(rest, done + [n], None)
  {
    ParsesDecimal(n, "." + rest, done);
    assert ("." + rest)[1..] == rest;
  }

  lemma ParsesQuad(ip: seq<Byte>)
    requires |ip| == 4
    ensures Parse(Quad(ip), [], None) == Some(ip)
  {
    hide Decimal, Parse;
    var a, b, c, d := ip[0], ip[1], ip[2], ip[3];
    var r3 := Decimal(d) + "";
    var r2 := Decimal(c) + ("." + r3);
    var r1 := Decimal(b) + ("." + r2);
    assert Quad(ip) == Decimal(a) + ("." + r1);
    ParsesField(a, r1, []);
    assert [] + [a] == [a];
    ParsesField(b, r2, [a]);
    assert [a] + [b] == [a, b];
    ParsesField(c, r3, [a, b]);
    assert [a, b] + [c] == [a, b, c];
    ParsesDecimal(d, "", [a, b, c]);
    ParsesEnd([a, b, c], d);
    assert [a, b, c] + [d] == ip;
  }

  lemma ParsesEnd(done: seq<Byte>, n: Byte)
    requires |done| == 3
    ensures Parse("", done, Some(n)) == Some(done + [n])
  {
  }

  // ----- and accepts nothing else

  /** What has been read when some octets are finished and part of the next one is known. */
  function Read(done: seq<Byte>, cur: Option<Byte>): string
    decreases |done|
  {
    (if done == [] then "" else Read(done[..|done| - 1], Some(done[|done| - 1])) + ".")
    + if cur.Some? then Decimal(cur.value) else ""
  }

  lemma ReadQuad(ip: seq<Byte>)
    requires |ip| == 4
    ensures Read(ip[..3], Some(ip[3])) == Quad(ip)
  {
    hide Decimal;
    assert ip[..3][..2] == ip[..2] && ip[..2][..1] == ip[..1] && ip[..1][..0] == [];
    assert Read([], Some(ip[0])) == Decimal(ip[0]);
    assert Read(ip[..1], Some(ip[1])) == Decimal(ip[0]) + "." + Decimal(ip[1]);
    assert Read(ip[..2], Some(ip[2])) == Decimal(ip[0]) + "." + Decimal(ip[1]) + "." + Decimal(ip[2]);
  }

  lemma ReadDigit(done: seq<Byte>, cur: Option<Byte>, c: char, val: Byte)
    requires DigitOf(c).Some? && cur != Some(0)
    requires val == (if cur.Some? then cur.value as int * 10 else 0) + DigitOf(c).value
    ensures Read(done, Some(val)) == Read(done, cur) + [c]
  {
    if cur.Some? {
      assert val / 10 == cur.value && val % 10 == DigitOf(c).value;
      assert Decimal(val) == Decimal(cur.value) + [c];
    }
  }

  lemma ReadDot(done: seq<Byte>, n: Byte)
    ensures Read(done + [n], None) == Read(done, Some(n)) + "."
  {
    assert (done + [n])[..|done|] == done;
  }

  lemma {:induction false} AcceptsOnlyPrinted(s: string, done: seq<Byte>, cur: Option<Byte>)
    requires |done| <= 3 && Parse(s, done, cur).Some?
    ensures Read(done, cur) + s == Quad(Parse(s, done, cur).value)
    decreases s
  {
    hide Read, Decimal, Quad;
    if s == [] {
      var ip := done + [cur.value];
      assert ip[..3] == done;
      ReadQuad(ip);
      assert Read(done, cur) + s == Read(done, cur);
    } else if DigitOf(s[0]).Some? {
      var val: Byte := (if cur.Some? then cur.value as int * 10 else 0) + DigitOf(s[0]).value;
      AcceptsOnlyPrinted(s[1..], done, Some(val));
      ReadDigit(done, cur, s[0], val);
      assert Read(done, cur) + s == Read(done, cur) + [s[0]] + s[1..];
    } else {
      AcceptsOnlyPrinted(s[1..], done + [cur.value], None);
      ReadDot(done, cur.value);
      assert Read(done, cur) + s == Read(done, cur) + "." + s[1..];
    }
  }

  /** A string is accepted, with some address, exactly when it is that address printed. */
  lemma ParseInvertsPrint(s: string, ip: seq<Byte>)
    requires |ip| == 4
    ensures Parse(s, [], None) == Some(ip) <==> s == Quad(ip)
  {
    ParsesQuad(ip);
    if Parse(s, [], None).Some? {
      AcceptsOnlyPrinted(s, [], None);
      assert Read([], None) + s == s;
    }
  }

  /** One pass over the characters before the terminator. */
  method Scan(src: string) returns (r: Option<seq<Byte>>)
    ensures r == Parse(src, [], None)
  {
    var sawDigit, octets, at := false, 0, 0;
    var tmp := new Byte[4](_ => 0);
    var i := 0;
    while i < |src|
      invariant i <= |src| && at <= 3 && octets == at + (if sawDigit then 1 else 0) && (!sawDigit ==> tmp[at] == 0)
      invariant Parse(src, [], None) == Parse(src[i..], tmp[..at], if sawDigit then Some(tmp[at]) else None)
    {
      var ch := src[i];
      assert src[i..][0] == ch && src[i..][1..] == src[i + 1..];
      i := i + 1;
      var pch := DigitOf(ch);
      if pch.Some? {
        var val: nat := tmp[at] as int * 10 + pch.value;
        if sawDigit && tmp[at] == 0 {
          return None;
        }
        if val > 255 {
          return None;
        }
        tmp[at] := val;
        if !sawDigit {
          octets := octets + 1;
          if octets > 4 {
            return None;
          }
          sawDigit := true;
        }
      } else if ch == '.' && sawDigit {
        if octets == 4 {
          return None;
        }
        assert tmp[..at + 1] == tmp[..at] + [tmp[at]];
        at := at + 1;
        tmp[at] := 0;
        sawDigit := false;
      } else {
        return None;
      }
    }
    if octets < 4 {
      return None;
    }
    assert tmp[..] == tmp[..3] + [tmp[3]];
    return Some(tmp[..]);
  }

  /** The parser: the address whose printed form the string is, and nothing for any other string. */
  method InetPton(src: string) returns (r: Option<seq<Byte>>)
    ensures r.Some? ==> |r.value| == 4 && src == Quad(r.value)
    ensures r.None? ==> forall ip: seq<Byte> :: |ip| == 4 ==> src != Quad(ip)
  {
    r := Scan(src);
    forall ip: seq<Byte> | |ip| == 4
      ensures r == Some(ip) <==> src == Quad(ip)
    {
      ParseInvertsPrint(src, ip);
    }
  }
}
