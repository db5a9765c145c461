/** UTF-8 as `symEncrypt` and `symDecrypt` use it: `new TextEncoder().encode`
    on the way in and `new TextDecoder().decode` on the way out. The decoder
    follows the UTF-8 decoder of the WHATWG Encoding Standard (section 9.1.1):
    each malformed sequence becomes one U+FFFD, and a leading byte order mark
    is removed because the default decoder does not ignore it. */
module Utf8 {
  import opened Basics

  const Replacement: char := '\U{FFFD}'
  const ByteOrderMark: char := '\U{FEFF}'

  /** The bytes of one Unicode scalar value (RFC 3629 section 3): the value's
      base-64 digits, most significant first, each under its byte marker. */
  function EncodeChar(c: char): (bs: seq<Byte>)
    ensures 1 <= |bs| <= 4
  {
    var v := c as int;
    var q1 := v / 64;
    var q2 := q1 / 64;
    if v < 0x80 then [v]
    else if v < 0x800 then [0xC0 + q1, 0x80 + v % 64]
    else if v < 0x10000 then [0xE0 + q2, 0x80 + q1 % 64, 0x80 + v % 64]
    else [0xF0 + q2 / 64, 0x80 + q2 % 64, 0x80 + q1 % 64, 0x80 + v % 64]
  }

  /** `new TextEncoder().encode(s)`. */
  function Encode(s: string): (bs: seq<Byte>)
    ensures |s| <= |bs| <= 4 * |s|
  {
    if |s| == 0 then [] else EncodeChar(s[0]) + Encode(s[1..])
  }

  predicate IsContinuation(b: Byte, lo: int, hi: int) {
    lo <= b <= hi
  }

  /** One decoded character and the number of bytes it took. */
  datatype Step = Step(c: char, used: nat)

  /** Decodes the character at the front of `bs`. A lead byte fixes how many
      continuation bytes follow and the range the first of them must lie in;
      the first byte outside its range (or the end of input) ends the sequence
      with U+FFFD, and that byte is decoded afresh. */
  function DecodeStep(bs: seq<Byte>): (st: Step)
    requires |bs| > 0
    ensures 1 <= st.used <= |bs|
  {
    var b0: int := bs[0];
    if b0 < 0x80 then Step(b0 as char, 1)
    else if 0xC2 <= b0 <= 0xDF then
      if |bs| < 2 || !IsContinuation(bs[1], 0x80, 0xBF) then Step(Replacement, 1)
      else Step(((b0 - 0xC0) * 64 + (bs[1] as int - 0x80)) as char, 2)
    else if 0xE0 <= b0 <= 0xEF then
      var lo := if b0 == 0xE0 then 0xA0 else 0x80;
      var hi := if b0 == 0xED then 0x9F else 0xBF;
      if |bs| < 2 || !IsContinuation(bs[1], lo, hi) then Step(Replacement, 1)
      else if |bs| < 3 || !IsContinuation(bs[2], 0x80, 0xBF) then Step(Replacement, 2)
      else Step(((b0 - 0xE0) * 4096 + (bs[1] as int - 0x80) * 64 + (bs[2] as int - 0x80)) as char, 3)
    else if 0xF0 <= b0 <= 0xF4 then
      var lo := if b0 == 0xF0 then 0x90 else 0x80;
      var hi := if b0 == 0xF4 then 0x8F else 0xBF;
      if |bs| < 2 || !IsContinuation(bs[1], lo, hi) then Step(Replacement, 1)
      else if |bs| < 3 || !IsContinuation(bs[2], 0x80, 0xBF) then Step(Replacement, 2)
      else if |bs| < 4 || !IsContinuation(bs[3], 0x80, 0xBF) then Step(Replacement, 3)
      else Step(((b0 - 0xF0) * 262144 + (bs[1] as int - 0x80) * 4096 + (bs[2] as int - 0x80) * 64 + (bs[3] as int - 0x80)) as char, 4)
    else Step(Replacement, 1)
  }

  /** The decoder's stream of characters, before byte order mark handling. */
  function DecodeChars(bs: seq<Byte>): (s: string)
    ensures |s| <= |bs|
    decreases |bs|
  {
    if |bs| == 0 then ""
    else
      var st := DecodeStep(bs);
      [st.c] + DecodeChars(bs[st.used..])
  }

  /** `s` without its first character when that character is U+FEFF. */
  function WithoutBom(s: string): string {
    if |s| > 0 && s[0] == ByteOrderMark then s[1..] else s
  }

  /** `new TextDecoder().decode(bs)`: never fails. */
  function Decode(bs: seq<Byte>): string {
    WithoutBom(DecodeChars(bs))
  }

  /** The decoder reads back exactly the character the encoder wrote, and no
      byte of what follows. */
  lemma DecodeStepEncodeChar(c: char, rest: seq<Byte>)
    ensures DecodeStep(EncodeChar(c) + rest) == Step(c, |EncodeChar(c)|)
  {
    var v := c as int;
    var bs := EncodeChar(c) + rest;
    var q1 := v / 64;
    var q2 := q1 / 64;
    if v < 0x80 {
    } else if v < 0x800 {
      assert bs[0] == 0xC0 + q1 && bs[1] == 0x80 + v % 64;
      assert (bs[0] - 0xC0) * 64 + (bs[1] as int - 0x80) == v;
    } else if v < 0x10000 {
      DecodeThree(v, q1, q2, bs);
    } else {
      DecodeFour(v, q1, q2, bs);
    }
  }

  lemma DecodeThree(v: int, q1: int, q2: int, bs: seq<Byte>)
    requires 0x800 <= v < 0x10000 && !(0xD800 <= v < 0xE000)
    requires q1 == v / 64 && q2 == q1 / 64
    requires |bs| >= 3
    requires bs[0] == 0xE0 + q2 && bs[1] == 0x80 + q1 % 64 && bs[2] == 0x80 + v % 64
    ensures DecodeStep(bs) == Step(v as char, 3)
  {
    assert v == q1 * 64 + v % 64 && q1 == q2 * 64 + q1 % 64;
    assert (bs[0] - 0xE0) * 4096 + (bs[1] as int - 0x80) * 64 + (bs[2] as int - 0x80) == v;
    assert bs[0] == 0xE0 ==> bs[1] >= 0xA0;
    assert bs[0] == 0xED ==> bs[1] <= 0x9F;
  }

  lemma DecodeFour(v: int, q1: int, q2: int, bs: seq<Byte>)
    requires 0x10000 <= v < 0x110000
    requires q1 == v / 64 && q2 == q1 / 64
    requires |bs| >= 4
    requires bs[0] == 0xF0 + q2 / 64 && bs[1] == 0x80 + q2 % 64
    requires bs[2] == 0x80 + q1 % 64 && bs[3] == 0x80 + v % 64
    ensures DecodeStep(bs) == Step(v as char, 4)
  {
    assert v == q1 * 64 + v % 64 && q1 == q2 * 64 + q1 % 64 && q2 == q2 / 64 * 64 + q2 % 64;
    assert (bs[0] - 0xF0) * 262144 + (bs[1] as int - 0x80) * 4096 + (bs[2] as int - 0x80) * 64
           + (bs[3] as int - 0x80) == v;
    assert bs[0] == 0xF0 ==> bs[1] >= 0x90;
    assert bs[0] == 0xF4 ==> bs[1] <= 0x8F;
  }

  /** Every string survives encoding followed by the decoder's character stream. */
  lemma {:induction false} DecodeCharsEncode(s: string)
    ensures DecodeChars(Encode(s)) == s
    decreases |s|
  {
    if |s| > 0 {
      var head, rest := EncodeChar(s[0]), Encode(s[1..]);
      assert Encode(s) == head + rest;
      DecodeStepEncodeChar(s[0], rest);
      assert (head + rest)[|head|..] == rest;
      DecodeCharsEncode(s[1..]);
      assert s == [s[0]] + s[1..];
    }
  }

  /** `TextDecoder` undoes `TextEncoder` except for a leading U+FEFF, which it
      treats as a byte order mark and drops. */
  lemma DecodeEncode(s: string)
    ensures Decode(Encode(s)) == WithoutBom(s)
    ensures |s| == 0 || s[0] != ByteOrderMark ==> Decode(Encode(s)) == s
  {
    DecodeCharsEncode(s);
  }
}
