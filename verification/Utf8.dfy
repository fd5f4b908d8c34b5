/** UTF-8 as the platform's text encoder and decoder use it. */
module Utf8 {

  newtype byte = x: int | 0 <= x < 256

  function EncodeChar(ch: char): (r: seq<byte>)
    ensures 1 <= |r| <= 4
  {
    var c := ch as int;
    if c < 0x80 then [c as byte]
    else if c < 0x800 then [(0xc0 + c / 64) as byte, (0x80 + c % 64) as byte]
    else if c < 0x10000 then [(0xe0 + c / 4096) as byte, (0x80 + c / 64 % 64) as byte, (0x80 + c % 64) as byte]
    else [(0xf0 + c / 262144) as byte, (0x80 + c / 4096 % 64) as byte, (0x80 + c / 64 % 64) as byte,
          (0x80 + c % 64) as byte]
  }

  function Encode(s: string): seq<byte> {
    if s == [] then [] else EncodeChar(s[0]) + Encode(s[1..])
  }

  const REPLACEMENT: char := '\U{FFFD}'
  const BOM: char := '\U{FEFF}'

  predicate Continuation(b: byte) { 0x80 <= b < 0xc0 }

  predicate Scalar(n: int) { 0 <= n < 0xd800 || 0xe000 <= n < 0x110000 }

  /** The code point of a well-formed sequence at the front of `b`, and its length;
      a replacement character for one byte of anything else. */
  function DecodeFirst(b: seq<byte>): (r: (char, nat))
    requires b != []
    ensures 1 <= r.1 <= |b|
  {
    var b0 := b[0] as int;
    if b0 < 0x80 then (b0 as char, 1)
    else if 0xc2 <= b0 < 0xe0 && |b| >= 2 && Continuation(b[1]) then
      (((b0 - 0xc0) * 64 + (b[1] as int - 0x80)) as char, 2)
    else if 0xe0 <= b0 < 0xf0 && |b| >= 3 && Continuation(b[1]) && Continuation(b[2]) then
      var n := (b0 - 0xe0) * 4096 + (b[1] as int - 0x80) * 64 + (b[2] as int - 0x80);
      if n >= 0x800 && Scalar(n) then (n as char, 3) else (REPLACEMENT, 1)
    else if 0xf0 <= b0 < 0xf5 && |b| >= 4 && Continuation(b[1]) && Continuation(b[2]) && Continuation(b[3]) then
      var n := (b0 - 0xf0) * 262144 + (b[1] as int - 0x80) * 4096 + (b[2] as int - 0x80) * 64 + (b[3] as int - 0x80);
      if n >= 0x10000 && Scalar(n) then (n as char, 4) else (REPLACEMENT, 1)
    else (REPLACEMENT, 1)
  }

  function DecodeAll(b: seq<byte>): string
    decreases |b|
  {
    if b == [] then [] else
      var (c, n) := DecodeFirst(b);
      [c] + DecodeAll(b[n..])
  }

  /** `new TextDecoder().decode(b)`: a leading byte order mark is dropped. */
  function Decode(b: seq<byte>): string { StripBom(DecodeAll(b)) }

  function StripBom(s: string): string {
    if s != [] && s[0] == BOM then s[1..] else s
  }

  lemma SplitThree(c: int)
    requires 0x800 <= c < 0x10000
    ensures 0 <= c / 4096 < 16 && 0 <= c / 64 % 64 < 64 && c / 4096 * 4096 + c / 64 % 64 * 64 + c % 64 == c
  {
    assert c / 64 / 64 == c / 4096;
    assert c / 64 == c / 4096 * 64 + c / 64 % 64;
  }

  lemma SplitFour(c: int)
    requires 0x10000 <= c < 0x110000
    ensures 0 <= c / 262144 < 5 && 0 <= c / 4096 % 64 < 64 && 0 <= c / 64 % 64 < 64
    ensures c / 262144 * 262144 + c / 4096 % 64 * 4096 + c / 64 % 64 * 64 + c % 64 == c
  {
    assert c / 4096 / 64 == c / 262144;
    assert c / 64 / 64 == c / 4096;
    assert c / 64 == c / 4096 * 64 + c / 64 % 64;
    assert c / 4096 == c / 262144 * 64 + c / 4096 % 64;
  }

  predicate InTable(b: byte, lead: int, span: int) { lead <= b as int < lead + span }

  /** The table of section 3 of RFC 3629: the lead byte tells the length, every further byte carries
      six bits, and the payload is the code point. */
  lemma EncodedForm(ch: char)
    ensures var c, b := ch as int, EncodeChar(ch);
      && (c < 0x80 ==> b == [c as byte])
      && (0x80 <= c < 0x800 ==>
            |b| == 2 && InTable(b[0], 0xc0, 32) && InTable(b[1], 0x80, 64)
            && (b[0] as int - 0xc0) * 64 + (b[1] as int - 0x80) == c)
      && (0x800 <= c < 0x10000 ==>
            |b| == 3 && InTable(b[0], 0xe0, 16) && InTable(b[1], 0x80, 64) && InTable(b[2], 0x80, 64)
            && (b[0] as int - 0xe0) * 4096 + (b[1] as int - 0x80) * 64 + (b[2] as int - 0x80) == c)
      && (0x10000 <= c ==>
            |b| == 4 && InTable(b[0], 0xf0, 8) && InTable(b[1], 0x80, 64) && InTable(b[2], 0x80, 64)
            && InTable(b[3], 0x80, 64)
            && (b[0] as int - 0xf0) * 262144 + (b[1] as int - 0x80) * 4096 + (b[2] as int - 0x80) * 64
               + (b[3] as int - 0x80) == c)
  {
    var c := ch as int;
    if 0x800 <= c < 0x10000 { SplitThree(c); }
    if 0x10000 <= c { SplitFour(c); }
  }

  /** Every character is read back from its own bytes, whatever follows. */
  lemma DecodeFirstEncoded(ch: char, rest: seq<byte>)
    ensures DecodeFirst(EncodeChar(ch) + rest) == (ch, |EncodeChar(ch)|)
  {
    var c := ch as int;
    var b := EncodeChar(ch) + rest;
    if c < 0x80 {
    } else if c < 0x800 {
      assert b[0] == (0xc0 + c / 64) as byte && b[1] == (0x80 + c % 64) as byte;
    } else if c < 0x10000 {
      SplitThree(c);
      assert b[0] == (0xe0 + c / 4096) as byte && b[1] == (0x80 + c / 64 % 64) as byte
        && b[2] == (0x80 + c % 64) as byte;
    } else {
      SplitFour(c);
      assert b[0] == (0xf0 + c / 262144) as byte && b[1] == (0x80 + c / 4096 % 64) as byte;
      assert b[2] == (0x80 + c / 64 % 64) as byte && b[3] == (0x80 + c % 64) as byte;
    }
  }

  lemma {:induction false} DecodeAllEncoded(s: string)
    ensures DecodeAll(Encode(s)) == s
  {
    if s != [] {
      hide EncodeChar, DecodeFirst;
      DecodeFirstEncoded(s[0], Encode(s[1..]));
      var b := Encode(s);
      assert b[|EncodeChar(s[0])|..] == Encode(s[1..]);
      DecodeAllEncoded(s[1..]);
    }
  }

  /** Text survives encoding and decoding exactly when it does not start with a byte order mark. */
  lemma TextRoundTrip(s: string)
    ensures Decode(Encode(s)) == StripBom(s)
    ensures Decode(Encode(s)) == s <==> s == [] || s[0] != BOM
  {
    DecodeAllEncoded(s);
  }
}
