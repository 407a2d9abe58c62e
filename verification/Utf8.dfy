// UTF-8 and hexadecimal, as the mount-point names use them: the encoder, a strict decoder that
// refuses overlong forms, surrogates and stray continuation bytes, the byte order mark it drops
// or keeps, and the two digits of each byte. What one direction writes the other reads back,
// for every string and every list of bytes.
module Utf8 {
  import opened Basics

  const BYTE_ORDER_MARK: char := '\U{FEFF}'

  function EncodeChar(c: char): (bs: seq<byte>)
    ensures bs != []
  {
    var n := c as int;
    if n < 0x80 then [n as byte]
    else if n < 0x800 then [(0xC0 + n / 64) as byte, (0x80 + n % 64) as byte]
    else if n < 0x1_0000 then [(0xE0 + n / 4096) as byte, (0x80 + n / 64 % 64) as byte, (0x80 + n % 64) as byte]
    else [(0xF0 + n / 262144) as byte, (0x80 + n / 4096 % 64) as byte, (0x80 + n / 64 % 64) as byte, (0x80 + n % 64) as byte]
  }

  function Encode(s: string): seq<byte> {
    if s == "" then [] else EncodeChar(s[0]) + Encode(s[1..])
  }

  predicate Continues(b: byte) { 0x80 <= b < 0xC0 }

  function Tail(b: byte): int { b as int - 0x80 }

  datatype Scalar = Scalar(value: char, size: nat)

  // The character at the front of the bytes, shortest forms of scalar values only.
  function DecodeChar(bs: seq<byte>): (r: Option<Scalar>)
    requires bs != []
    ensures r.Some? ==> 0 < r.value.size <= |bs|
  {
    var b := bs[0] as int;
    if b < 0x80 then Some(Scalar(b as char, 1))
    else if 0xC2 <= b < 0xE0 && |bs| >= 2 && Continues(bs[1]) then
      Some(Scalar(((b - 0xC0) * 64 + Tail(bs[1])) as char, 2))
    else if 0xE0 <= b < 0xF0 && |bs| >= 3 && Continues(bs[1]) && Continues(bs[2]) then
      var n := (b - 0xE0) * 4096 + Tail(bs[1]) * 64 + Tail(bs[2]);
      if 0x800 <= n && !(0xD800 <= n < 0xE000) then Some(Scalar(n as char, 3)) else None
    else if 0xF0 <= b < 0xF5 && |bs| >= 4 && Continues(bs[1]) && Continues(bs[2]) && Continues(bs[3]) then
      var n := (b - 0xF0) * 262144 + Tail(bs[1]) * 4096 + Tail(bs[2]) * 64 + Tail(bs[3]);
      if 0x1_0000 <= n < 0x11_0000 then Some(Scalar(n as char, 4)) else None
    else None
  }

  function DecodeStrict(bs: seq<byte>): Option<string>
    decreases |bs|
  {
    if bs == [] then Some("")
    else match DecodeChar(bs)
      case None => None
      case Some(first) =>
        match DecodeStrict(bs[first.size..])
        case None => None
        case Some(rest) => Some([first.value] + rest)
  }

  // A fatal text decoder: malformed bytes give nothing, and a leading byte order mark is
  // dropped unless it is to be kept.
  function Decode(bs: seq<byte>, keepMark: bool): Option<string> {
    if !keepMark && [0xEF, 0xBB, 0xBF] <= bs then DecodeStrict(bs[3..]) else DecodeStrict(bs)
  }

  lemma ThreeByteDigits(n: int)
    requires 0 <= n < 0x1_0000
    ensures n / 4096 * 4096 + n / 64 % 64 * 64 + n % 64 == n
  {
    assert n / 64 / 64 == n / 4096;
  }

  lemma FourByteDigits(n: int)
    requires 0 <= n < 0x11_0000
    ensures n / 262144 * 262144 + n / 4096 % 64 * 4096 + n / 64 % 64 * 64 + n % 64 == n
  {
    assert n / 64 / 64 == n / 4096;
    assert n / 4096 / 64 == n / 262144;
  }

  lemma DecodeEncodeChar(c: char, rest: seq<byte>)
    ensures DecodeChar(EncodeChar(c) + rest) == Some(Scalar(c, |EncodeChar(c)|))
  {
    var n := c as int;
    if 0x800 <= n < 0x1_0000 {
      ThreeByteDigits(n);
    } else if 0x1_0000 <= n {
      FourByteDigits(n);
    }
  }

  // The four forms of section 3 of RFC 3629: how many bytes a character takes, how they are
  // marked, and that their other bits are its number.
  lemma EncodedForm(c: char)
    ensures var n, bs := c as int, EncodeChar(c);
      && (|bs| == 1 <==> n < 0x80)
      && (|bs| == 2 <==> 0x80 <= n < 0x800)
      && (|bs| == 3 <==> 0x800 <= n < 0x1_0000)
      && (|bs| == 4 <==> 0x1_0000 <= n)
      && (forall i :: 0 < i < |bs| ==> 0x80 <= bs[i] < 0xC0)
      && (|bs| == 1 ==> bs[0] as int == n)
      && (|bs| == 2 ==> 0xC0 <= bs[0] < 0xE0 && n == (bs[0] as int - 0xC0) * 64 + Tail(bs[1]))
      && (|bs| == 3 ==> 0xE0 <= bs[0] < 0xF0 && n == (bs[0] as int - 0xE0) * 4096 + Tail(bs[1]) * 64 + Tail(bs[2]))
      && (|bs| == 4 ==> 0xF0 <= bs[0] < 0xF5 && n == (bs[0] as int - 0xF0) * 262144 + Tail(bs[1]) * 4096 + Tail(bs[2]) * 64 + Tail(bs[3]))
  {
    var n := c as int;
    if 0x800 <= n < 0x1_0000 {
      ThreeByteDigits(n);
    } else if 0x1_0000 <= n {
      FourByteDigits(n);
    }
  }

  lemma {:induction false} DecodeEncode(s: string)
    ensures DecodeStrict(Encode(s)) == Some(s)
  {
    if s != "" {
      DecodeEncodeChar(s[0], Encode(s[1..]));
      assert Encode(s)[|EncodeChar(s[0])|..] == Encode(s[1..]);
      DecodeEncode(s[1..]);
      assert s == [s[0]] + s[1..];
    }
  }

  lemma TwoDigits(a: int, b: int)
    requires 0 <= b < 64
    ensures (a * 64 + b) / 64 == a && (a * 64 + b) % 64 == b
  {
  }

  lemma ThreeDigits(a: int, b: int, c: int)
    requires 0 <= b < 64 && 0 <= c < 64
    ensures var n := a * 4096 + b * 64 + c; n / 4096 == a && n / 64 % 64 == b && n % 64 == c
  {
    var n := a * 4096 + b * 64 + c;
    TwoDigits(a * 64 + b, c);
    TwoDigits(a, b);
    assert n == (a * 64 + b) * 64 + c && n / 64 / 64 == n / 4096;
  }

  lemma FourDigits(a: int, b: int, c: int, d: int)
    requires 0 <= b < 64 && 0 <= c < 64 && 0 <= d < 64
    ensures var n := a * 262144 + b * 4096 + c * 64 + d;
      n / 262144 == a && n / 4096 % 64 == b && n / 64 % 64 == c && n % 64 == d
  {
    var n := a * 262144 + b * 4096 + c * 64 + d;
    ThreeDigits(a * 64 + b, c, d);
    TwoDigits(a, b);
    assert n == (a * 64 + b) * 4096 + c * 64 + d && n / 4096 / 64 == n / 262144;
  }

  // What is read is the encoding of what it is read as.
  lemma DecodedIsEncoded(bs: seq<byte>)
    requires bs != [] && DecodeChar(bs).Some?
    ensures var r := DecodeChar(bs).value; EncodeChar(r.value) == bs[..r.size]
  {
    var b := bs[0] as int;
    if b >= 0xF0 {
      FourDigits(b - 0xF0, Tail(bs[1]), Tail(bs[2]), Tail(bs[3]));
    } else if b >= 0xE0 {
      ThreeDigits(b - 0xE0, Tail(bs[1]), Tail(bs[2]));
    } else if b >= 0x80 {
      TwoDigits(b - 0xC0, Tail(bs[1]));
    }
  }

  // The decoder accepts exactly what the encoder writes.
  lemma {:induction false} DecodeExact(bs: seq<byte>, s: string)
    ensures DecodeStrict(bs) == Some(s) <==> bs == Encode(s)
    decreases |bs|
  {
    if bs == Encode(s) {
      DecodeEncode(s);
    }
    if DecodeStrict(bs) == Some(s) && bs != [] {
      var first := DecodeChar(bs).value;
      DecodedIsEncoded(bs);
      DecodeExact(bs[first.size..], s[1..]);
      assert bs == bs[..first.size] + bs[first.size..];
      assert s == [first.value] + s[1..];
    }
  }

  // A decoder that drops the mark loses exactly a leading U+FEFF.
  lemma DecodeEncodeText(s: string, keepMark: bool)
    ensures Decode(Encode(s), keepMark) ==
      Some(if !keepMark && s != "" && s[0] == BYTE_ORDER_MARK then s[1..] else s)
  {
    DecodeEncode(s);
    if s != "" {
      DecodeEncodeChar(s[0], Encode(s[1..]));
      if s[0] == BYTE_ORDER_MARK {
        assert EncodeChar(s[0]) == [0xEF, 0xBB, 0xBF];
        assert Encode(s)[3..] == Encode(s[1..]);
        DecodeEncode(s[1..]);
      } else if [0xEF, 0xBB, 0xBF] <= Encode(s) {
        MarkIsFirst(s);
      }
    }
  }

  lemma MarkIsFirst(s: string)
    requires s != "" && [0xEF, 0xBB, 0xBF] <= Encode(s)
    ensures s[0] == BYTE_ORDER_MARK
  {
    var bs := Encode(s);
    DecodeEncodeChar(s[0], Encode(s[1..]));
    assert bs[0] == 0xEF && bs[1] == 0xBB && bs[2] == 0xBF;
    assert DecodeChar(bs) == Some(Scalar(BYTE_ORDER_MARK, 3));
  }

  // ---------------------------------------------------------------- hexadecimal

  function HexDigit(n: int): char
    requires 0 <= n < 16
  {
    if n < 10 then (48 + n) as char else (87 + n) as char
  }

  function Hex(bs: seq<byte>): (s: string)
    ensures |s| == 2 * |bs|
  {
    if bs == [] then "" else [HexDigit(bs[0] as int / 16), HexDigit(bs[0] as int % 16)] + Hex(bs[1..])
  }

  predicate IsHexDigit(c: char) {
    '0' <= c <= '9' || 'a' <= c <= 'f' || 'A' <= c <= 'F'
  }

  function HexValue(c: char): (n: int)
    requires IsHexDigit(c)
    ensures 0 <= n < 16
  {
    if c <= '9' then c as int - 48 else if c <= 'F' then c as int - 55 else c as int - 87
  }

  predicate IsHex(s: string) {
    |s| % 2 == 0 && forall c :: c in s ==> IsHexDigit(c)
  }

  function ParseHex(s: string): seq<byte>
    requires IsHex(s)
  {
    if s == "" then [] else [(HexValue(s[0]) * 16 + HexValue(s[1])) as byte] + ParseHex(s[2..])
  }

  lemma {:induction false} ParseHexOfHex(bs: seq<byte>)
    ensures IsHex(Hex(bs)) && ParseHex(Hex(bs)) == bs
  {
    if bs != [] {
      ParseHexOfHex(bs[1..]);
      assert Hex(bs)[2..] == Hex(bs[1..]);
    }
  }
}
