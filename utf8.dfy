/**
 * UTF-8 as in RFC 3629: Encoding.UTF8 turns a string into bytes (BinaryWriter's
 * string payload, StreamWriter's text) and back (BinaryReader.ReadString,
 * StreamReader, Encoding.UTF8.GetString). Dafny characters are Unicode scalar
 * values, so every character has an encoding.
 */
module Utf8 {
  import opened Text

  /** U+FFFD, what the decoder yields for an ill-formed byte. */
  const Replacement: char := '\U{FFFD}'

  /** The one to four bytes that encode `c` (RFC 3629, section 3). */
  function EncodeChar(c: char): (b: seq<byte>)
    ensures 1 <= |b| <= 4
    ensures (|b| == 1) == (c as int < 0x80)
  {
    var v := c as int;
    if v < 0x80 then [v]
    else if v < 0x800 then [0xC0 + v / 64, 0x80 + v % 64]
    else if v < 0x10000 then [0xE0 + v / 4096, 0x80 + (v / 64) % 64, 0x80 + v % 64]
    else [0xF0 + v / 262144, 0x80 + (v / 4096) % 64, 0x80 + (v / 64) % 64, 0x80 + v % 64]
  }

  function Encode(s: string): seq<byte>
  {
    if |s| == 0 then [] else EncodeChar(s[0]) + Encode(s[1..])
  }

  predicate IsContinuation(b: byte)
  {
    0x80 <= b < 0xC0
  }

  /**
   * Decodes the well-formed sequence at the start of `b` (RFC 3629, section 4),
   * returning the character and the number of bytes it takes; an ill-formed
   * lead byte decodes as U+FFFD and takes one byte.
   */
  function DecodeOne(b: seq<byte>): (r: (char, nat))
    requires |b| > 0
    ensures 1 <= r.1 <= |b| && r.1 <= 4
  {
    var b0: int := b[0];
    if b0 < 0x80 then
      (b0 as char, 1)
    else if 0xC2 <= b0 <= 0xDF && |b| >= 2 && IsContinuation(b[1]) then
      (Value2(b0, b[1]) as char, 2)
    else if 0xE0 <= b0 <= 0xEF && |b| >= 3 && IsContinuation(b[1]) && IsContinuation(b[2])
         && (b0 != 0xE0 || b[1] >= 0xA0) && (b0 != 0xED || b[1] < 0xA0) then
      (Value3(b0, b[1], b[2]) as char, 3)
    else if 0xF0 <= b0 <= 0xF4 && |b| >= 4 && IsContinuation(b[1]) && IsContinuation(b[2])
         && IsContinuation(b[3]) && (b0 != 0xF0 || b[1] >= 0x90) && (b0 != 0xF4 || b[1] < 0x90) then
      (Value4(b0, b[1], b[2], b[3]) as char, 4)
    else
      (Replacement, 1)
  }

  /** The scalar value of a two-byte sequence. */
  function Value2(b0: int, b1: int): int
  {
    (b0 - 0xC0) * 64 + (b1 - 0x80)
  }

  /** The scalar value of a three-byte sequence. */
  function Value3(b0: int, b1: int, b2: int): int
  {
    (b0 - 0xE0) * 4096 + (b1 - 0x80) * 64 + (b2 - 0x80)
  }

  /** The scalar value of a four-byte sequence. */
  function Value4(b0: int, b1: int, b2: int, b3: int): int
  {
    (b0 - 0xF0) * 262144 + (b1 - 0x80) * 4096 + (b2 - 0x80) * 64 + (b3 - 0x80)
  }

  function Decode(b: seq<byte>): string
    decreases |b|
  {
    if |b| == 0 then [] else var (c, k) := DecodeOne(b); [c] + Decode(b[k..])
  }

  /** Decoding the encoding of a character gives it back and consumes exactly its bytes. */
  lemma DecodeOneEncodeChar(c: char, rest: seq<byte>)
    ensures DecodeOne(EncodeChar(c) + rest) == (c, |EncodeChar(c)|)
  {
    var v := c as int;
    if v < 0x80 {
    } else if v < 0x800 {
      DecodeTwo(c, rest);
    } else if v < 0x10000 {
      DecodeThree(c, rest);
    } else {
      DecodeFour(c, rest);
    }
  }

  lemma DecodeTwo(c: char, rest: seq<byte>)
    requires 0x80 <= c as int < 0x800
    ensures DecodeOne(EncodeChar(c) + rest) == (c, 2)
  {
    var v := c as int;
    var b := EncodeChar(c) + rest;
    assert b[0] == 0xC0 + v / 64 && b[1] == 0x80 + v % 64;
    assert Value2(b[0], b[1]) == v;
  }

  lemma DecodeThree(c: char, rest: seq<byte>)
    requires 0x800 <= c as int < 0x10000
    ensures DecodeOne(EncodeChar(c) + rest) == (c, 3)
  {
    var v := c as int;
    var b := EncodeChar(c) + rest;
    var hi, mid, lo := v / 4096, (v / 64) % 64, v % 64;
    assert b[0] == 0xE0 + hi && b[1] == 0x80 + mid && b[2] == 0x80 + lo;
    assert v / 64 == hi * 64 + mid;
    assert Value3(b[0], b[1], b[2]) == hi * 4096 + mid * 64 + lo == v;
    assert hi == 0 ==> mid >= 32;
    assert hi == 13 ==> mid < 32;
  }

  lemma DecodeFour(c: char, rest: seq<byte>)
    requires 0x10000 <= c as int
    ensures DecodeOne(EncodeChar(c) + rest) == (c, 4)
  {
    var v := c as int;
    var b := EncodeChar(c) + rest;
    var top, hi, mid, lo := v / 262144, (v / 4096) % 64, (v / 64) % 64, v % 64;
    assert b[0] == 0xF0 + top && b[1] == 0x80 + hi && b[2] == 0x80 + mid && b[3] == 0x80 + lo;
    assert v / 64 == (v / 4096) * 64 + mid;
    assert v / 4096 == top * 64 + hi;
    assert Value4(b[0], b[1], b[2], b[3]) == top * 262144 + hi * 4096 + mid * 64 + lo == v;
    assert top == 0 ==> hi >= 16;
    assert top == 4 ==> hi < 16;
  }

  /** Encoding distributes over concatenation. */
  lemma {:induction false} EncodeAppend(s: string, t: string)
    ensures Encode(s + t) == Encode(s) + Encode(t)
    decreases |s|
  {
    if s == [] {
      assert s + t == t;
    } else {
      assert (s + t)[0] == s[0] && (s + t)[1..] == s[1..] + t;
      EncodeAppend(s[1..], t);
    }
  }

  /** Decoding undoes encoding: every string survives the round trip through its UTF-8 bytes. */
  lemma {:induction false} DecodeEncode(s: string)
    ensures Decode(Encode(s)) == s
    decreases |s|
  {
    if s != [] {
      var e := EncodeChar(s[0]);
      DecodeOneEncodeChar(s[0], Encode(s[1..]));
      assert (e + Encode(s[1..]))[|e|..] == Encode(s[1..]);
      DecodeEncode(s[1..]);
    }
  }

  predicate IsAscii(s: string)
  {
    forall i :: 0 <= i < |s| ==> s[i] < '\U{0080}'
  }

  /** The byte-per-character image of an ASCII string. */
  function AsciiBytes(s: string): (b: seq<byte>)
    requires IsAscii(s)
    ensures |b| == |s|
  {
    seq(|s|, i requires 0 <= i < |s| => s[i] as int)
  }

  /** On ASCII text UTF-8 is one byte per character. */
  lemma {:induction false} EncodeAscii(s: string)
    requires IsAscii(s)
    ensures Encode(s) == AsciiBytes(s)
    decreases |s|
  {
    if s != [] {
      EncodeAscii(s[1..]);
      assert AsciiBytes(s) == [s[0] as int] + AsciiBytes(s[1..]);
    }
  }

  /** On bytes below 0x80 the decoder is one character per byte. */
  lemma {:induction false} DecodeAscii(s: string)
    requires IsAscii(s)
    ensures Decode(AsciiBytes(s)) == s
  {
    EncodeAscii(s);
    DecodeEncode(s);
  }

  /**
   * Bytes that do not start with a continuation byte cannot complete a
   * sequence left open before them: the decoder reads the first character
   * of `x + y` from `x` alone.
   */
  lemma DecodeOneAppend(x: seq<byte>, y: seq<byte>)
    requires |x| > 0
    requires |y| == 0 || !IsContinuation(y[0])
    ensures DecodeOne(x + y) == DecodeOne(x)
  {
    var b := x + y;
    assert b[0] == x[0];
    if |x| < 4 && |y| > 0 {
      assert b[|x|] == y[0];
    }
  }

  /** Decoding splits at any byte that is not a continuation byte. */
  lemma {:induction false} DecodeAppend(x: seq<byte>, y: seq<byte>)
    requires |y| == 0 || !IsContinuation(y[0])
    ensures Decode(x + y) == Decode(x) + Decode(y)
    decreases |x|
  {
    if |x| == 0 {
      assert x + y == y;
    } else {
      DecodeOneAppend(x, y);
      var k := DecodeOne(x).1;
      assert (x + y)[k..] == x[k..] + y;
      DecodeAppend(x[k..], y);
    }
  }
}
