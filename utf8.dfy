/**
 * UTF-8, as Python's `bytes.decode()` applies it by default (well-formed sequences as in
 * table 3-7 of chapter 3 of the Unicode Standard; anything else is a UnicodeDecodeError).
 */
module Utf8 {
  import opened Wrappers

  newtype byte = x: int | 0 <= x < 256

  predicate IsContinuation(b: byte) { 0x80 <= b <= 0xBF }

  /** Length of the well-formed sequence that starts `bs`, or 0 when `bs` starts ill-formed. */
  function SequenceLength(bs: seq<byte>): (n: nat)
    requires |bs| > 0
    ensures n <= 4 && n <= |bs|
  {
    var b0 := bs[0];
    if b0 <= 0x7F then 1
    else if 0xC2 <= b0 <= 0xDF then
      if |bs| >= 2 && IsContinuation(bs[1]) then 2 else 0
    else if 0xE0 <= b0 <= 0xEF then
      if |bs| >= 3 && SecondByteOk(b0, bs[1]) && IsContinuation(bs[2]) then 3 else 0
    else if 0xF0 <= b0 <= 0xF4 then
      if |bs| >= 4 && SecondByteOk(b0, bs[1]) && IsContinuation(bs[2]) && IsContinuation(bs[3])
      then 4 else 0
    else 0
  }

  /** The narrowed second-byte ranges that exclude overlong forms, surrogates and code points past U+10FFFF. */
  predicate SecondByteOk(b0: byte, b1: byte) {
    if b0 == 0xE0 then 0xA0 <= b1 <= 0xBF
    else if b0 == 0xED then 0x80 <= b1 <= 0x9F
    else if b0 == 0xF0 then 0x90 <= b1 <= 0xBF
    else if b0 == 0xF4 then 0x80 <= b1 <= 0x8F
    else IsContinuation(b1)
  }

  /** A Unicode scalar value: a code point that is not a surrogate. */
  predicate IsScalar(cp: int) {
    0 <= cp < 0xD800 || 0xE000 <= cp < 0x11_0000
  }

  /** The code point a well-formed sequence of `n` bytes encodes. */
  function CodePoint(bs: seq<byte>, n: nat): (cp: int)
    requires |bs| > 0 && n == SequenceLength(bs) && n > 0
    ensures IsScalar(cp)
  {
    if n == 1 then bs[0] as int
    else if n == 2 then (bs[0] as int - 0xC0) * 64 + (bs[1] as int - 0x80)
    else if n == 3 then
      (bs[0] as int - 0xE0) * 4096 + (bs[1] as int - 0x80) * 64 + (bs[2] as int - 0x80)
    else
      (bs[0] as int - 0xF0) * 262144 + (bs[1] as int - 0x80) * 4096
      + (bs[2] as int - 0x80) * 64 + (bs[3] as int - 0x80)
  }

  /** `bs.decode()`: the decoded text, or None where Python raises UnicodeDecodeError. */
  function Decode(bs: seq<byte>): Option<string>
    decreases |bs|
  {
    if |bs| == 0 then Some("")
    else
      var n := SequenceLength(bs);
      if n == 0 then None
      else
        match Decode(bs[n..])
        case None => None
        case Some(rest) => Some([CodePoint(bs, n) as char] + rest)
  }

  /** The UTF-8 encoding of one character, six bits per continuation byte. */
  function EncodeChar(c: char): (bs: seq<byte>)
    ensures 1 <= |bs| <= 4
  {
    var cp := c as int;
    var q := cp / 64;
    var q2 := q / 64;
    if cp < 0x80 then [cp as byte]
    else if cp < 0x800 then [(0xC0 + q) as byte, (0x80 + cp % 64) as byte]
    else if cp < 0x1_0000 then
      [(0xE0 + q2) as byte, (0x80 + q % 64) as byte, (0x80 + cp % 64) as byte]
    else
      [(0xF0 + q2 / 64) as byte, (0x80 + q2 % 64) as byte, (0x80 + q % 64) as byte, (0x80 + cp % 64) as byte]
  }

  /** `s.encode()`. */
  function Encode(s: string): seq<byte> {
    if |s| == 0 then [] else EncodeChar(s[0]) + Encode(s[1..])
  }

  /** The bytes of one encoded character are read back as exactly that character. */
  lemma EncodeCharDecodes(c: char, rest: seq<byte>)
    ensures SequenceLength(EncodeChar(c) + rest) == |EncodeChar(c)|
    ensures CodePoint(EncodeChar(c) + rest, |EncodeChar(c)|) == c as int
  {
    var cp := c as int;
    if cp < 0x80 {
    } else if cp < 0x800 {
      TwoByteDecodes(c, rest);
    } else if cp < 0x1_0000 {
      ThreeByteDecodes(c, rest);
    } else {
      FourByteDecodes(c, rest);
    }
  }

  lemma TwoByteDecodes(c: char, rest: seq<byte>)
    requires 0x80 <= c as int < 0x800
    ensures SequenceLength(EncodeChar(c) + rest) == |EncodeChar(c)| == 2
    ensures CodePoint(EncodeChar(c) + rest, 2) == c as int
  {
    var cp := c as int;
    var q := cp / 64;
    var bs := EncodeChar(c) + rest;
    assert cp == q * 64 + cp % 64;
    assert bs[0] as int == 0xC0 + q && bs[1] as int == 0x80 + cp % 64;
  }

  lemma ThreeByteDecodes(c: char, rest: seq<byte>)
    requires 0x800 <= c as int < 0x1_0000
    ensures SequenceLength(EncodeChar(c) + rest) == |EncodeChar(c)| == 3
    ensures CodePoint(EncodeChar(c) + rest, 3) == c as int
  {
    var cp := c as int;
    var q := cp / 64;
    var q2 := q / 64;
    var bs := EncodeChar(c) + rest;
    assert cp == q * 64 + cp % 64 && q == q2 * 64 + q % 64;
    assert bs[0] as int == 0xE0 + q2 && bs[1] as int == 0x80 + q % 64 && bs[2] as int == 0x80 + cp % 64;
    assert SecondByteOk(bs[0], bs[1]);
  }

  lemma FourByteDecodes(c: char, rest: seq<byte>)
    requires 0x1_0000 <= c as int
    ensures SequenceLength(EncodeChar(c) + rest) == |EncodeChar(c)| == 4
    ensures CodePoint(EncodeChar(c) + rest, 4) == c as int
  {
    var cp := c as int;
    var q := cp / 64;
    var q2 := q / 64;
    var bs := EncodeChar(c) + rest;
    assert cp == q * 64 + cp % 64 && q == q2 * 64 + q % 64;
    assert q2 == q2 / 64 * 64 + q2 % 64;
    assert bs[0] as int == 0xF0 + q2 / 64 && bs[1] as int == 0x80 + q2 % 64;
    assert bs[2] as int == 0x80 + q % 64 && bs[3] as int == 0x80 + cp % 64;
    assert SecondByteOk(bs[0], bs[1]);
  }

  /** Decoding undoes encoding. */
  lemma {:induction false} DecodeEncode(s: string)
    ensures Decode(Encode(s)) == Some(s)
  {
    if |s| > 0 {
      var e := EncodeChar(s[0]);
      DecodeEncode(s[1..]);
      EncodeCharDecodes(s[0], Encode(s[1..]));
      assert (e + Encode(s[1..]))[|e|..] == Encode(s[1..]);
      assert [s[0]] + s[1..] == s;
    }
  }

  /** Bytes below 0x80 decode one character each, to the character with that code. */
  lemma {:induction false} DecodeAscii(bs: seq<byte>)
    requires forall i :: 0 <= i < |bs| ==> bs[i] < 0x80
    ensures Decode(bs).Some? && |Decode(bs).value| == |bs|
    ensures forall i :: 0 <= i < |bs| ==> Decode(bs).value[i] as int == bs[i] as int
  {
    if |bs| > 0 {
      DecodeAscii(bs[1..]);
    }
  }
}
