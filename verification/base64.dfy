/** The base64 text encoding Node's `Buffer` uses to carry keys, ciphertexts and
    envelopes as strings (`arrayBufferToBase64` / `base64ToArrayBuffer`):
    the standard alphabet of RFC 4648 section 4, with `=` padding. */
module Base64 {
  import opened Basics

  /** The character for a 6-bit value: A-Z, a-z, 0-9, '+', '/'. */
  function Letter(x: int): (c: char)
    requires 0 <= x < 64
  {
    if x < 26 then (x + 65) as char
    else if x < 52 then (x - 26 + 97) as char
    else if x < 62 then (x - 52 + 48) as char
    else if x == 62 then '+'
    else '/'
  }

  /** The 6-bit value of an alphabet character; `None` for anything else,
      including the padding character. */
  function Sextet(c: char): (r: Option<int>)
    ensures r.Some? ==> 0 <= r.value < 64 && Letter(r.value) == c
  {
    if 'A' <= c <= 'Z' then Some(c as int - 65)
    else if 'a' <= c <= 'z' then Some(c as int - 97 + 26)
    else if '0' <= c <= '9' then Some(c as int - 48 + 52)
    else if c == '+' then Some(62)
    else if c == '/' then Some(63)
    else None
  }

  lemma SextetOfLetter(x: int)
    requires 0 <= x < 64
    ensures Sextet(Letter(x)) == Some(x)
  {
  }

  /** Four characters for the three bytes `a`, `b`, `c`. */
  function Quad3(a: Byte, b: Byte, c: Byte): string {
    [Letter(a / 4), Letter(a % 4 * 16 + b / 16), Letter(b % 16 * 4 + c / 64), Letter(c % 64)]
  }

  /** Four characters for a final group of two bytes: one padding character. */
  function Quad2(a: Byte, b: Byte): string {
    [Letter(a / 4), Letter(a % 4 * 16 + b / 16), Letter(b % 16 * 4), '=']
  }

  /** Four characters for a final single byte: two padding characters. */
  function Quad1(a: Byte): string {
    [Letter(a / 4), Letter(a % 4 * 16), '=', '=']
  }

  /** `Buffer.from(bytes).toString("base64")`. Every group of three bytes becomes
      four characters, so the text is 4 * ceil(n / 3) characters long. */
  function Encode(b: seq<Byte>): (s: string)
    ensures |s| == 4 * ((|b| + 2) / 3)
    decreases |b|
  {
    if |b| == 0 then ""
    else if |b| == 1 then Quad1(b[0])
    else if |b| == 2 then Quad2(b[0], b[1])
    else Quad3(b[0], b[1], b[2]) + Encode(b[3..])
  }

  /** Decodes one group of four characters; padding is accepted only in the
      final group (`last`), and only in canonical form (the unused low bits of
      the last significant character are zero). */
  function DecodeQuad(q: string, last: bool): (r: Option<seq<Byte>>)
    requires |q| == 4
    ensures r.Some? ==> 1 <= |r.value| <= 3
    ensures r.Some? && !last ==> |r.value| == 3
  {
    var a := Sextet(q[0]);
    var b := Sextet(q[1]);
    if a.None? || b.None? then None
    else if last && q[2] == '=' && q[3] == '=' then
      if b.value % 16 == 0 then Some([a.value * 4 + b.value / 16]) else None
    else
      var c := Sextet(q[2]);
      if c.None? then None
      else if last && q[3] == '=' then
        if c.value % 4 == 0
        then Some([a.value * 4 + b.value / 16, b.value % 16 * 16 + c.value / 4])
        else None
      else
        var d := Sextet(q[3]);
        if d.None? then None
        else Some([a.value * 4 + b.value / 16, b.value % 16 * 16 + c.value / 4, c.value % 4 * 64 + d.value])
  }

  /** Decodes canonical base64 text; `None` for any other text. */
  function Decode(s: string): (r: Option<seq<Byte>>)
    decreases |s|
  {
    if |s| == 0 then Some([])
    else if |s| < 4 then None
    else
      match DecodeQuad(s[..4], |s| == 4)
      case None => None
      case Some(head) =>
        if |s| == 4 then Some(head)
        else
          match Decode(s[4..])
          case None => None
          case Some(tail) => Some(head + tail)
  }

  /** Splitting `hi * 16 + lo` by 16 gives back both parts. */
  lemma Split16(hi: int, lo: int)
    requires 0 <= hi && 0 <= lo < 16
    ensures (hi * 16 + lo) / 16 == hi && (hi * 16 + lo) % 16 == lo
  {
  }

  /** Splitting `hi * 4 + lo` by 4 gives back both parts. */
  lemma Split4(hi: int, lo: int)
    requires 0 <= hi && 0 <= lo < 4
    ensures (hi * 4 + lo) / 4 == hi && (hi * 4 + lo) % 4 == lo
  {
  }

  lemma DecodeQuad3(a: Byte, b: Byte, c: Byte, last: bool)
    ensures DecodeQuad(Quad3(a, b, c), last) == Some([a, b, c])
  {
    var x0, x1, x2, x3 := a / 4, a % 4 * 16 + b / 16, b % 16 * 4 + c / 64, c % 64;
    SextetOfLetter(x0);
    SextetOfLetter(x1);
    SextetOfLetter(x2);
    SextetOfLetter(x3);
    Split16(a % 4, b / 16);
    Split4(b % 16, c / 64);
    assert x0 * 4 + x1 / 16 == a;
    assert x1 % 16 * 16 + x2 / 4 == b;
    assert x2 % 4 * 64 + x3 == c;
    var q := Quad3(a, b, c);
    assert q[2] != '=' && q[3] != '=';
  }

  lemma DecodeQuad2(a: Byte, b: Byte)
    ensures DecodeQuad(Quad2(a, b), true) == Some([a, b])
  {
    var x0, x1, x2 := a / 4, a % 4 * 16 + b / 16, b % 16 * 4;
    SextetOfLetter(x0);
    SextetOfLetter(x1);
    SextetOfLetter(x2);
    Split16(a % 4, b / 16);
    Split4(b % 16, 0);
    assert x0 * 4 + x1 / 16 == a;
    assert x1 % 16 * 16 + x2 / 4 == b;
    assert Quad2(a, b)[2] != '=';
  }

  lemma DecodeQuad1(a: Byte)
    ensures DecodeQuad(Quad1(a), true) == Some([a])
  {
    SextetOfLetter(a / 4);
    SextetOfLetter(a % 4 * 16);
    Split16(a % 4, 0);
  }

  /** A final group on its own decodes as a final group. */
  lemma DecodeLast(q: string)
    requires |q| == 4
    ensures Decode(q) == DecodeQuad(q, true)
  {
    assert q[..4] == q;
  }

  /** A full group followed by more text decodes group by group. */
  lemma DecodeJoin(q: string, t: string)
    requires |q| == 4 && |t| > 0
    requires DecodeQuad(q, false).Some? && Decode(t).Some?
    ensures Decode(q + t) == Some(DecodeQuad(q, false).value + Decode(t).value)
  {
    var s := q + t;
    assert s[..4] == q;
    assert s[4..] == t;
  }

  /** Three or more bytes: the first three become a full group. */
  lemma EncodeFirstGroup(b: seq<Byte>)
    requires |b| >= 3
    ensures Encode(b) == Quad3(b[0], b[1], b[2]) + Encode(b[3..])
  {
  }

  /** The round trip for a final group of one byte. */
  lemma DecodeEncodeOne(b: seq<Byte>)
    requires |b| == 1
    ensures Decode(Encode(b)) == Some(b)
  {
    assert Encode(b) == Quad1(b[0]);
    DecodeQuad1(b[0]);
    DecodeLast(Quad1(b[0]));
    assert b == [b[0]];
  }

  /** The round trip for a final group of two bytes. */
  lemma DecodeEncodeTwo(b: seq<Byte>)
    requires |b| == 2
    ensures Decode(Encode(b)) == Some(b)
  {
    assert Encode(b) == Quad2(b[0], b[1]);
    DecodeQuad2(b[0], b[1]);
    DecodeLast(Quad2(b[0], b[1]));
    assert b == [b[0], b[1]];
  }

  /** The round trip for a final group of three bytes. */
  lemma DecodeEncodeThree(b: seq<Byte>)
    requires |b| == 3
    ensures Decode(Encode(b)) == Some(b)
  {
    EncodeFirstGroup(b);
    assert Encode(b[3..]) == "";
    assert Encode(b) == Quad3(b[0], b[1], b[2]);
    DecodeQuad3(b[0], b[1], b[2], true);
    DecodeLast(Quad3(b[0], b[1], b[2]));
    assert b == [b[0], b[1], b[2]];
  }

  /** Decoding undoes encoding: every byte string survives the round trip. */
  lemma {:induction false} DecodeEncode(b: seq<Byte>)
    ensures Decode(Encode(b)) == Some(b)
    decreases |b|
  {
    if |b| == 0 {
    } else if |b| == 1 {
      DecodeEncodeOne(b);
    } else if |b| == 2 {
      DecodeEncodeTwo(b);
    } else if |b| == 3 {
      DecodeEncodeThree(b);
    } else {
      DecodeEncode(b[3..]);
      DecodeEncodeMore(b);
    }
  }

  /** The round trip for a full group followed by more bytes, given the round
      trip for the rest. */
  lemma DecodeEncodeMore(b: seq<Byte>)
    requires |b| > 3 && Decode(Encode(b[3..])) == Some(b[3..])
    ensures Decode(Encode(b)) == Some(b)
  {
    FirstGroup(b);
    EncodeFirstGroup(b);
    DecodeQuad3(b[0], b[1], b[2], false);
    DecodeJoin(Quad3(b[0], b[1], b[2]), Encode(b[3..]));
  }

  lemma FirstGroup(b: seq<Byte>)
    requires |b| >= 3
    ensures b == [b[0], b[1], b[2]] + b[3..]
  {
  }

  /** The only group that decodes to given bytes is the group that encodes them. */
  lemma EncodeOfDecodeQuad(q: string, last: bool)
    requires |q| == 4
    requires DecodeQuad(q, last).Some?
    ensures var r := DecodeQuad(q, last).value;
      if |r| == 1 then last && Quad1(r[0]) == q
      else if |r| == 2 then last && Quad2(r[0], r[1]) == q
      else |r| == 3 && Quad3(r[0], r[1], r[2]) == q
  {
    var a := Sextet(q[0]).value;
    var b := Sextet(q[1]).value;
    var r := DecodeQuad(q, last).value;
    if last && q[2] == '=' && q[3] == '=' {
      assert r[0] / 4 == a && r[0] % 4 * 16 == b;
      assert Quad1(r[0]) == q;
    } else {
      var c := Sextet(q[2]).value;
      if last && q[3] == '=' {
        assert r[0] / 4 == a && r[0] % 4 * 16 + r[1] / 16 == b && r[1] % 16 * 4 == c;
        assert Quad2(r[0], r[1]) == q;
      } else {
        var d := Sextet(q[3]).value;
        assert r[0] / 4 == a && r[0] % 4 * 16 + r[1] / 16 == b;
        assert r[1] % 16 * 4 + r[2] / 64 == c && r[2] % 64 == d;
        assert Quad3(r[0], r[1], r[2]) == q;
      }
    }
  }

  /** Decoding accepts only canonical text: whatever decodes re-encodes to the
      very same characters. With `DecodeEncode`, `Decode(s) == Some(b)` holds
      exactly when `s == Encode(b)`. */
  lemma {:induction false} EncodeDecode(s: string)
    requires Decode(s).Some?
    ensures Encode(Decode(s).value) == s
    decreases |s|
  {
    if |s| == 0 {
    } else {
      var head := DecodeQuad(s[..4], |s| == 4).value;
      EncodeOfDecodeQuad(s[..4], |s| == 4);
      if |s| == 4 {
        assert s[..4] == s;
      } else {
        var tail := Decode(s[4..]).value;
        EncodeDecode(s[4..]);
        assert |head| == 3;
        var b := head + tail;
        assert b[3..] == tail;
        assert Encode(b) == Quad3(b[0], b[1], b[2]) + Encode(tail);
        assert s == s[..4] + s[4..];
      }
    }
  }
}
