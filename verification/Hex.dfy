/** Service identifiers as hexadecimal text: the printer, the parser, and what the parser's length limit does. */
module Hex {
  import opened Wrappers

  /** One more than the largest length. */
  const SIZE := 0x1_0000_0000_0000_0000
  const SERVICE_ID_SIZE := 32

  // ----- digits

  /** A character with the bit that tells lower case from upper case set. */
  function LowerBit(c: Byte): Byte {
    if c / 32 % 2 == 1 then c else c + 32
  }

  /** The value of a hexadecimal digit of either case, or -1. */
  function HexToByte(c: Byte): (r: int)
    ensures -1 <= r < 16
  {
    if 48 <= c <= 57 then c - 48
    else
      var d := LowerBit(c);
      if 97 <= d <= 102 then d - 97 + 10 else -1
  }

  predicate IsHex(c: Byte) {
    48 <= c <= 57 || 65 <= c <= 70 || 97 <= c <= 102
  }

  function HexDigit(n: nat): Byte
    requires n < 16
  {
    if n < 10 then 48 + n else 87 + n
  }

  /** A letter in lower case. */
  function Lower(c: Byte): Byte {
    if 65 <= c <= 70 then c + 32 else c
  }

  /** Exactly the digits and the letters of both cases have a value. */
  lemma DigitValues(c: Byte)
    ensures HexToByte(c) >= 0 <==> IsHex(c)
    ensures IsHex(c) ==> HexDigit(HexToByte(c)) == Lower(c)
  {
  }

  lemma ValueOfDigit(n: nat)
    requires n < 16
    ensures HexToByte(HexDigit(n)) == n && IsHex(HexDigit(n)) && Lower(HexDigit(n)) == HexDigit(n)
  {
  }

  // ----- reference: printing, and reading within limits

  function Encode(bytes: seq<Byte>): (t: seq<Byte>)
    ensures |t| == 2 * |bytes|
  {
    if bytes == [] then [] else [HexDigit(bytes[0] / 16), HexDigit(bytes[0] % 16)] + Encode(bytes[1..])
  }

  /** What a parser wrote, and whether it succeeded. */
  datatype Parsed = Parsed(ok: bool, bytes: seq<Byte>) {
    function After(b: Byte): Parsed {
      Parsed(ok, [b] + bytes)
    }
  }

  /** Reads text into at most `room` bytes; a last digit without partner is the upper half of its byte. */
  function Decode(t: seq<Byte>, room: nat): Parsed {
    if t == [] || room == 0 then Parsed(true, [])
    else if HexToByte(t[0]) < 0 then Parsed(false, [])
    else if |t| == 1 then Parsed(true, [16 * HexToByte(t[0])])
    else if HexToByte(t[1]) < 0 then Parsed(false, [])
    else Decode(t[2..], room - 1).After(16 * HexToByte(t[0]) + HexToByte(t[1]))
  }

  function Min(a: nat, b: nat): nat {
    if a < b then a else b
  }

  /** Reading undoes printing, as far as there is room. */
  lemma {:induction false} DecodeUndoesEncode(bytes: seq<Byte>, room: nat)
    ensures Decode(Encode(bytes), room) == Parsed(true, bytes[..Min(|bytes|, room)])
  {
    if bytes != [] && room > 0 {
      var t := Encode(bytes);
      ValueOfDigit(bytes[0] / 16);
      ValueOfDigit(bytes[0] % 16);
      assert t[2..] == Encode(bytes[1..]);
      DecodeUndoesEncode(bytes[1..], room - 1);
    }
  }

  /** Reading fails exactly when one of the characters that there is room for is not a digit. */
  lemma {:induction false} DecodeFailsIff(t: seq<Byte>, room: nat)
    ensures Decode(t, room).ok <==> forall i :: 0 <= i < Min(|t|, 2 * room) ==> IsHex(t[i])
  {
    if t != [] && room > 0 {
      DigitValues(t[0]);
      if |t| > 1 {
        DigitValues(t[1]);
        DecodeFailsIff(t[2..], room - 1);
        var n := Min(|t|, 2 * room);
        assert forall i :: 2 <= i < n ==> t[i] == t[2..][i - 2];
        assert forall i :: 0 <= i < n - 2 ==> t[2..][i] == t[i + 2];
      }
    }
  }

  function Lowered(t: seq<Byte>): seq<Byte> {
    seq(|t|, i requires 0 <= i < |t| => Lower(t[i]))
  }

  /** Printing what was read from whole digit pairs gives the text in lower case. */
  lemma {:induction false} EncodeUndoesDecode(t: seq<Byte>, room: nat)
    requires |t| % 2 == 0 && |t| <= 2 * room && forall i :: 0 <= i < |t| ==> IsHex(t[i])
    ensures Decode(t, room).ok && |Decode(t, room).bytes| == |t| / 2
    ensures Encode(Decode(t, room).bytes) == Lowered(t)
  {
    if t != [] {
      DigitValues(t[0]);
      DigitValues(t[1]);
      EncodeUndoesDecode(t[2..], room - 1);
      var r := Decode(t, room).bytes;
      assert r[1..] == Decode(t[2..], room - 1).bytes;
      assert r[0] / 16 == HexToByte(t[0]) && r[0] % 16 == HexToByte(t[1]);
      assert Lowered(t) == [Lower(t[0]), Lower(t[1])] + Lowered(t[2..]);
    }
  }

  // ----- the parser's own limit

  /** What the parser does: where the limit is reached in the middle of a digit pair, counting it down once
      more wraps it around to the largest length, and reading goes on. */
  function HexToN(t: seq<Byte>, limit: nat, room: nat): Parsed
    decreases |t|
  {
    if t == [] || room == 0 || limit == 0 then Parsed(true, [])
    else if HexToByte(t[0]) < 0 then Parsed(false, [])
    else if |t| == 1 then Parsed(true, [16 * HexToByte(t[0])])
    else if limit == 1 then HexToN(t[1..], SIZE - 1, room - 1).After(16 * HexToByte(t[0]))
    else if HexToByte(t[1]) < 0 then Parsed(false, [])
    else HexToN(t[2..], limit - 2, room - 1).After(16 * HexToByte(t[0]) + HexToByte(t[1]))
  }

  ghost predicate AllHex(t: seq<Byte>) {
    forall i :: 0 <= i < |t| ==> IsHex(t[i])
  }

  /** When the parser keeps within its limit. */
  ghost predicate LimitHolds(t: seq<Byte>, limit: nat, room: nat) {
    limit % 2 == 0 || |t| <= limit || 2 * room <= limit + 1 || !AllHex(t[..limit])
  }

  lemma LimitOfOne(t: seq<Byte>, room: nat)
    requires |t| > 1 && room > 0
    ensures HexToN(t, 1, room) == Decode(t[..1], room) <==> LimitHolds(t, 1, room)
  {
    DigitValues(t[0]);
    assert t[..1] == [t[0]];
    if HexToByte(t[0]) >= 0 {
      var rest := HexToN(t[1..], SIZE - 1, room - 1);
      assert rest == Parsed(true, []) <==> room == 1;
      AfterIsInjective(16 * HexToByte(t[0]), rest, Parsed(true, []));
    }
  }

  /** Two digits further on, the same question is asked of the rest. */
  lemma LimitStep(t: seq<Byte>, limit: nat, room: nat)
    requires |t| > 1 && limit > 1 && room > 0 && IsHex(t[0]) && IsHex(t[1])
    ensures HexToN(t, limit, room) == Decode(t[..Min(|t|, limit)], room)
      <==> HexToN(t[2..], limit - 2, room - 1) == Decode(t[2..][..Min(|t| - 2, limit - 2)], room - 1)
  {
    hide HexToN, HexToByte, Decode;
    var cut := t[..Min(|t|, limit)];
    DigitValues(t[0]);
    DigitValues(t[1]);
    assert cut[0] == t[0] && cut[1] == t[1] && cut[2..] == t[2..][..Min(|t| - 2, limit - 2)];
    HexStep(t, limit, room);
    DecodeStep(cut, room);
    AfterIsInjective(16 * HexToByte(t[0]) + HexToByte(t[1]),
                     HexToN(t[2..], limit - 2, room - 1), Decode(cut[2..], room - 1));
  }

  lemma DecodeStep(t: seq<Byte>, room: nat)
    requires |t| > 1 && room > 0 && HexToByte(t[0]) >= 0 && HexToByte(t[1]) >= 0
    ensures Decode(t, room) == Decode(t[2..], room - 1).After(16 * HexToByte(t[0]) + HexToByte(t[1]))
  {
  }

  lemma HoldsStep(t: seq<Byte>, limit: nat, room: nat)
    requires |t| > 1 && limit > 1 && room > 0 && IsHex(t[0]) && IsHex(t[1])
    ensures LimitHolds(t, limit, room) <==> LimitHolds(t[2..], limit - 2, room - 1)
  {
    hide AllHex;
    if limit < |t| {
      AllHexSplits(t, limit);
    }
  }

  lemma LimitAtNonDigit(t: seq<Byte>, limit: nat, room: nat)
    requires |t| > 1 && limit > 1 && room > 0 && !(IsHex(t[0]) && IsHex(t[1]))
    ensures HexToN(t, limit, room) == Decode(t[..Min(|t|, limit)], room) && LimitHolds(t, limit, room)
  {
    var cut := t[..Min(|t|, limit)];
    DigitValues(t[0]);
    DigitValues(t[1]);
    assert cut[0] == t[0] && cut[1] == t[1];
    if limit < |t| {
      AllHexSplits(t, limit);
    }
  }

  /** The parser keeps within its limit exactly when the limit is even, or the text or the room ends first,
      or a character within the limit is not a digit. */
  lemma {:induction false} LimitIsKept(t: seq<Byte>, limit: nat, room: nat)
    ensures HexToN(t, limit, room) == Decode(t[..Min(|t|, limit)], room) <==> LimitHolds(t, limit, room)
    decreases |t|
  {
    if |t| <= 1 || room == 0 || limit == 0 {
      assert t[..|t|] == t;
    } else if limit == 1 {
      LimitOfOne(t, room);
    } else if IsHex(t[0]) && IsHex(t[1]) {
      LimitStep(t, limit, room);
      HoldsStep(t, limit, room);
      LimitIsKept(t[2..], limit - 2, room - 1);
    } else {
      LimitAtNonDigit(t, limit, room);
    }
  }

  /** With a limit of one digit, the text "12" is read past the limit: each digit makes a byte. */
  lemma OddLimitOverruns()
    ensures HexToN([49, 50], 1, 2) == Parsed(true, [16, 32]) && Decode([49], 2) == Parsed(true, [16])
  {
    var t: seq<Byte> := [49, 50];
    assert t[1..] == [50] && [50][1..] == [];
    assert HexToByte(49) == 1 && HexToByte(50) == 2;
    assert HexToN([50], SIZE - 1, 1) == Parsed(true, [32]);
  }

  lemma AfterIsInjective(b: Byte, p: Parsed, q: Parsed)
    ensures p.After(b) == q.After(b) <==> p == q
  {
    assert ([b] + p.bytes)[1..] == p.bytes && ([b] + q.bytes)[1..] == q.bytes;
  }

  lemma AllHexSplits(t: seq<Byte>, limit: nat)
    requires 2 <= limit < |t|
    ensures AllHex(t[..limit]) <==> IsHex(t[0]) && IsHex(t[1]) && AllHex(t[2..][..limit - 2])
  {
    var a, b := t[..limit], t[2..][..limit - 2];
    assert forall i :: 2 <= i < limit ==> a[i] == b[i - 2];
    assert forall i :: 0 <= i < limit - 2 ==> b[i] == a[i + 2];
    assert a[0] == t[0] && a[1] == t[1];
  }

  // ----- the loops

  /** The characters of a C string: everything before the first zero. */
  function Text(src: seq<Byte>): (t: seq<Byte>)
    requires 0 in src
    ensures |t| < |src| && src[|t|] == 0 && t == src[..|t|] && 0 !in t
  {
    if src[0] == 0 then [] else
      assert src[1..][|Text(src[1..])|] == 0;
      [src[0]] + Text(src[1..])
  }

  /** The whole result, when some bytes have been written and the rest of the text is still to be read. */
  ghost predicate Parsing(whole: Parsed, written: seq<Byte>, rest: Parsed) {
    whole == Parsed(rest.ok, written + rest.bytes)
  }

  lemma ParsingMore(whole: Parsed, written: seq<Byte>, rest: Parsed, b: Byte, rest': Parsed)
    requires Parsing(whole, written, rest) && rest == rest'.After(b)
    ensures Parsing(whole, written + [b], rest')
  {
    assert written + [b] + rest'.bytes == written + ([b] + rest'.bytes);
  }

  lemma ParsingEnds(whole: Parsed, written: seq<Byte>, rest: Parsed)
    ensures Parsing(whole, [], whole)
    ensures Parsing(whole, written, rest) && rest.bytes == [] ==> whole == Parsed(rest.ok, written)
  {
    assert [] + whole.bytes == whole.bytes && written + [] == written;
  }

  lemma {:induction false} FitsRoom(t: seq<Byte>, limit: nat, room: nat)
    ensures |HexToN(t, limit, room).bytes| <= room
    decreases |t|
  {
    if t != [] && room > 0 && limit > 0 && |t| > 1 {
      FitsRoom(t[1..], SIZE - 1, room - 1);
      if limit > 1 {
        FitsRoom(t[2..], limit - 2, room - 1);
      }
    }
  }

  /** Reads up to two digits from place `at`: their value or -1, where to go on, and what is left of the limit. */
  method ReadByte(src: seq<Byte>, at: nat, limit: nat, ghost room: nat) returns (value: int, next: nat, left: nat)
    requires 0 in src && at < |Text(src)| && limit > 0 && room > 0
    ensures -1 <= value < 256 && at < next <= |Text(src)|
    ensures var t := Text(src)[at..];
      HexToN(t, limit, room)
      == if value == -1 then Parsed(false, []) else HexToN(Text(src)[next..], left, room - 1).After(value)
  {
    hide HexToN, HexToByte;
    ghost var t := Text(src)[at..];
    HexStep(t, limit, room);
    assert t[1..] == Text(src)[at + 1..];
    assert |t| > 1 ==> t[2..] == Text(src)[at + 2..];
    left := limit - 1;
    value := HexToByte(src[at]);
    next := at + 1;
    if value == -1 {
      return;
    }
    value := value * 16;
    if src[next] != 0 {
      if left != 0 {
        left := left - 1;
        var ret := HexToByte(src[next]);
        next := next + 1;
        value := if ret == -1 then -1 else value + ret;
      } else {
        left := SIZE - 1;
      }
    }
  }

  /** The parser's loop over a string and into a buffer. */
  method ParseHex(src: seq<Byte>, srcLen: nat, dst: array<Byte>, dstLen: nat) returns (ok: bool)
    requires 0 in src && |src| < SIZE && srcLen < SIZE && dstLen <= dst.Length
    modifies dst
    ensures var r := HexToN(Text(src), srcLen, dstLen);
      && ok == r.ok && |r.bytes| <= dstLen
      && dst[..] == r.bytes + old(dst[..])[|r.bytes|..]
  {
    hide HexToN, HexToByte, Parsing, Text;
    ghost var text := Text(src);
    ghost var whole := HexToN(text, srcLen, dstLen);
    FitsRoom(text, srcLen, dstLen);
    var at: nat, written: nat, limit: nat, room: nat := 0, 0, srcLen, dstLen;
    assert text[0..] == text && dst[..0] == [];
    ParsingEnds(whole, [], whole);
    while src[at] != 0 && room != 0 && limit != 0
      invariant at <= |text| && written + room == dstLen
      invariant forall k :: written <= k < dst.Length ==> dst[k] == old(dst[k])
      invariant Parsing(whole, dst[..written], HexToN(text[at..], limit, room))
      decreases |text| - at
    {
      ghost var was := HexToN(text[at..], limit, room);
      var value, next, left := ReadByte(src, at, limit, room);
      if value == -1 {
        ParsingEnds(whole, dst[..written], was);
        return false;
      }
      at, limit, room := next, left, room - 1;
      ParsingMore(whole, dst[..written], was, value, HexToN(text[at..], limit, room));
      dst[written] := value;
      assert dst[..written + 1] == dst[..written] + [value];
      written := written + 1;
    }
    Stopped(text[at..], limit, room);
    ParsingEnds(whole, dst[..written], Parsed(true, []));
    return true;
  }

  /** One round of the parser, by what it reads. */
  lemma HexStep(t: seq<Byte>, limit: nat, room: nat)
    requires t != [] && limit > 0 && room > 0
    ensures var r, high := HexToN(t, limit, room), HexToByte(t[0]);
      && (high < 0 ==> r == Parsed(false, []))
      && (high >= 0 && |t| == 1 ==> r == HexToN([], limit - 1, room - 1).After(16 * high) && t[1..] == [])
      && (high >= 0 && |t| > 1 && limit == 1 ==> r == HexToN(t[1..], SIZE - 1, room - 1).After(16 * high))
      && (high >= 0 && |t| > 1 && limit > 1 && HexToByte(t[1]) < 0 ==> r == Parsed(false, []))
      && (high >= 0 && |t| > 1 && limit > 1 && HexToByte(t[1]) >= 0 ==>
            r == HexToN(t[2..], limit - 2, room - 1).After(16 * high + HexToByte(t[1])))
  {
  }

  lemma Stopped(t: seq<Byte>, limit: nat, room: nat)
    requires t == [] || limit == 0 || room == 0
    ensures HexToN(t, limit, room) == Parsed(true, [])
  {
  }

  /** The printer's loop: as many digits as there is room for, and a terminator if there is any room. */
  method PrintHex(src: seq<Byte>, dst: array<Byte>, dstLen: nat)
    requires dstLen <= dst.Length
    modifies dst
    ensures dstLen == 0 ==> dst[..] == old(dst[..])
    ensures dstLen > 0 ==>
      var t := Encode(src)[..Min(2 * |src|, dstLen - 1)];
      dst[..] == t + [0] + old(dst[..])[|t| + 1..]
  {
    hide Encode, HexDigit;
    ghost var whole := Encode(src);
    var at: nat, written: nat, room: nat := 0, 0, dstLen;
    while at < |src| && room > 1
      invariant at <= |src| && written + room == dstLen && written <= 2 * |src|
      invariant dstLen > 0 ==> room > 0
      invariant written == 2 * at || (written == 2 * at - 1 && room == 1)
      invariant forall k :: 0 <= k < written ==> dst[k] == whole[k]
      invariant forall k :: written <= k < dst.Length ==> dst[k] == old(dst[k])
      decreases |src| - at
    {
      EncodeAt(src, at);
      dst[written] := HexDigit(src[at] / 16);
      written := written + 1;
      room := room - 1;
      if room > 1 {
        dst[written] := HexDigit(src[at] % 16);
        written := written + 1;
        room := room - 1;
      }
      at := at + 1;
    }
    if room != 0 {
      dst[written] := 0;
      assert written == Min(2 * |src|, dstLen - 1);
      assert dst[..] == whole[..written] + [0] + old(dst[..])[written + 1..];
    }
  }

  lemma {:induction false} EncodeAt(bytes: seq<Byte>, i: nat)
    requires i < |bytes|
    ensures Encode(bytes)[2 * i] == HexDigit(bytes[i] / 16) && Encode(bytes)[2 * i + 1] == HexDigit(bytes[i] % 16)
  {
    if i > 0 {
      EncodeAt(bytes[1..], i - 1);
    }
  }

  /** The digits of a byte stand side by side, the upper half first. */
  lemma EncodeDigits(bytes: seq<Byte>, i: nat)
    requires i < |bytes|
    ensures HexToByte(Encode(bytes)[2 * i]) == bytes[i] / 16 && HexToByte(Encode(bytes)[2 * i + 1]) == bytes[i] % 16
  {
    EncodeAt(bytes, i);
    ValueOfDigit(bytes[i] / 16);
    ValueOfDigit(bytes[i] % 16);
  }

  /** A service identifier printed into a buffer that holds it all is read back as it was. */
  method ServiceIdRoundTrip(id: seq<Byte>, buf: array<Byte>, dst: array<Byte>) returns (ok: bool)
    requires |id| == SERVICE_ID_SIZE && 2 * SERVICE_ID_SIZE < buf.Length < SIZE && buf != dst
    requires dst.Length == SERVICE_ID_SIZE
    modifies buf, dst
    ensures ok && dst[..] == id
  {
    PrintHex(id, buf, buf.Length);
    ghost var t := Encode(id);
    assert buf[..] == t + [0] + buf[..][|t| + 1..];
    assert buf[..][|t|] == 0;
    EncodedIsHex(id);
    assert 0 !in t by { assert !IsHex(0); }
    TextOf(buf[..], t);
    LimitIsKept(t, 64, SERVICE_ID_SIZE);
    assert t[..64] == t;
    DecodeUndoesEncode(id, SERVICE_ID_SIZE);
    ok := ParseHex(buf[..], 64, dst, SERVICE_ID_SIZE);
    assert id[..SERVICE_ID_SIZE] == id;
  }

  lemma {:induction false} EncodedIsHex(bytes: seq<Byte>)
    ensures AllHex(Encode(bytes))
  {
    if bytes != [] {
      ValueOfDigit(bytes[0] / 16);
      ValueOfDigit(bytes[0] % 16);
      EncodedIsHex(bytes[1..]);
    }
  }

  lemma TextOf(src: seq<Byte>, t: seq<Byte>)
    requires |t| < |src| && src[..|t|] == t && src[|t|] == 0 && 0 !in t
    ensures 0 in src && Text(src) == t
  {
  }
}
