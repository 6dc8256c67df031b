/**
 * UTF-8 as defined by section 3 of RFC 3629: what `str.encode('utf-8')` and
 * the strict `bytes.decode('utf-8')` do to the envelope's JSON text.
 *
 * A Dafny `char` is a Unicode scalar value (never a surrogate), so every
 * string can be encoded; decoding rejects everything RFC 3629 forbids:
 * stray continuation bytes, the lead bytes C0, C1 and F5..FF, truncated
 * sequences, overlong forms, encoded surrogates and values above U+10FFFF.
 */
module Utf8 {
  import opened Wrappers

  type byte = b: int | 0 <= b < 0x100

  predicate IsContinuation(b: byte) {
    0x80 <= b < 0xC0
  }

  predicate IsScalar(v: int) {
    0 <= v < 0xD800 || 0xE000 <= v < 0x11_0000
  }

  /** The one to four octets of one character (the table of section 3). */
  function EncodeChar(c: char): (bs: seq<byte>)
    ensures 1 <= |bs| <= 4
    ensures bs[0] < 0x80 <==> |bs| == 1
    ensures forall i :: 1 <= i < |bs| ==> IsContinuation(bs[i])
  {
    var v := c as int;
    if v < 0x80 then [v]
    else if v < 0x800 then [0xC0 + v / 64, 0x80 + v % 64]
    else if v < 0x1_0000 then [0xE0 + v / 4096, 0x80 + v / 64 % 64, 0x80 + v % 64]
    else [0xF0 + v / 262144, 0x80 + v / 4096 % 64, 0x80 + v / 64 % 64, 0x80 + v % 64]
  }

  /** `str.encode('utf-8')`: each character takes one to four octets. */
  function Encode(s: string): (r: seq<byte>)
    ensures |s| <= |r| <= 4 * |s|
  {
    if s == [] then [] else EncodeChar(s[0]) + Encode(s[1..])
  }

  /** `v` split into a quotient and remainder by 64, the width of a continuation payload. */
  lemma Split64(v: int, q: int, r: int)
    requires 0 <= r < 64 && v == q * 64 + r
    ensures v / 64 == q && v % 64 == r
  {
  }

  function DecodeTwo(b0: byte, b1: byte): (c: char)
    requires 0xC2 <= b0 < 0xE0 && IsContinuation(b1)
    ensures EncodeChar(c) == [b0, b1]
  {
    var v := (b0 as int - 0xC0) * 64 + (b1 as int - 0x80);
    Split64(v, b0 as int - 0xC0, b1 as int - 0x80);
    v as char
  }

  function DecodeThree(b0: byte, b1: byte, b2: byte): (r: Option<char>)
    requires 0xE0 <= b0 < 0xF0 && IsContinuation(b1) && IsContinuation(b2)
    ensures r.Some? ==> EncodeChar(r.value) == [b0, b1, b2]
  {
    var hi := (b0 as int - 0xE0) * 64 + (b1 as int - 0x80);
    var v := hi * 64 + (b2 as int - 0x80);
    if v < 0x800 || 0xD800 <= v < 0xE000 then None
    else
      Split64(v, hi, b2 as int - 0x80);
      Split64(hi, b0 as int - 0xE0, b1 as int - 0x80);
      assert v / 4096 == hi / 64;
      Some(v as char)
  }

  function DecodeFour(b0: byte, b1: byte, b2: byte, b3: byte): (r: Option<char>)
    requires 0xF0 <= b0 < 0xF5 && IsContinuation(b1) && IsContinuation(b2) && IsContinuation(b3)
    ensures r.Some? ==> EncodeChar(r.value) == [b0, b1, b2, b3]
  {
    var top := (b0 as int - 0xF0) * 64 + (b1 as int - 0x80);
    var hi := top * 64 + (b2 as int - 0x80);
    var v := hi * 64 + (b3 as int - 0x80);
    if v < 0x1_0000 || 0x11_0000 <= v then None
    else
      Split64(v, hi, b3 as int - 0x80);
      Split64(hi, top, b2 as int - 0x80);
      Split64(top, b0 as int - 0xF0, b1 as int - 0x80);
      assert v / 4096 == top;
      assert v / 262144 == b0 as int - 0xF0;
      Some(v as char)
  }

  /**
   * Decodes the character at the head of `bs`, giving it with the number of
   * octets it occupies. Only the shortest form of a scalar value is accepted,
   * so whatever is decoded re-encodes to exactly the octets it came from.
   */
  function DecodeChar(bs: seq<byte>): (r: Option<(char, nat)>)
    ensures r.Some? ==> 1 <= r.value.1 <= |bs| && EncodeChar(r.value.0) == bs[..r.value.1]
  {
    if bs == [] then None
    else if bs[0] < 0x80 then
      Some((bs[0] as char, 1))
    else if 0xC2 <= bs[0] < 0xE0 then
      if |bs| < 2 || !IsContinuation(bs[1]) then None
      else Some((DecodeTwo(bs[0], bs[1]), 2))
    else if 0xE0 <= bs[0] < 0xF0 then
      if |bs| < 3 || !IsContinuation(bs[1]) || !IsContinuation(bs[2]) then None
      else
        match DecodeThree(bs[0], bs[1], bs[2])
        case None => None
        case Some(c) => Some((c, 3))
    else if 0xF0 <= bs[0] < 0xF5 then
      if |bs| < 4 || !IsContinuation(bs[1]) || !IsContinuation(bs[2]) || !IsContinuation(bs[3]) then None
      else
        match DecodeFour(bs[0], bs[1], bs[2], bs[3])
        case None => None
        case Some(c) => Some((c, 4))
    else
      None
  }

  /** Strict decoding: `None` is Python's UnicodeDecodeError. Each character comes from one to four octets. */
  function Decode(bs: seq<byte>): (r: Option<string>)
    ensures r.Some? ==> |r.value| <= |bs| <= 4 * |r.value|
    decreases |bs|
  {
    if bs == [] then Some([])
    else
      match DecodeChar(bs)
      case None => None
      case Some((c, n)) =>
        match Decode(bs[n..])
        case None => None
        case Some(s) => Some([c] + s)
  }

  lemma DecodeEncodeTwo(c: char)
    requires 0x80 <= c as int < 0x800
    ensures var bs := EncodeChar(c); DecodeTwo(bs[0], bs[1]) == c
  {
    var v := c as int;
    var q, r := v / 64, v % 64;
    assert v == q * 64 + r;
  }

  lemma DecodeEncodeThree(c: char)
    requires 0x800 <= c as int < 0x1_0000
    ensures var bs := EncodeChar(c); DecodeThree(bs[0], bs[1], bs[2]) == Some(c)
  {
    var v := c as int;
    var hi, r := v / 64, v % 64;
    var top, m := hi / 64, hi % 64;
    assert v == hi * 64 + r && hi == top * 64 + m;
    assert v / 4096 == top;
  }

  lemma DecodeEncodeFour(c: char)
    requires 0x1_0000 <= c as int
    ensures var bs := EncodeChar(c); DecodeFour(bs[0], bs[1], bs[2], bs[3]) == Some(c)
  {
    var v := c as int;
    var hi, r := v / 64, v % 64;
    var top, m := hi / 64, hi % 64;
    var lead, n := top / 64, top % 64;
    assert v == hi * 64 + r && hi == top * 64 + m && top == lead * 64 + n;
    assert v / 4096 == top && v / 262144 == lead;
  }

  lemma DecodeEncodeChar(c: char, rest: seq<byte>)
    ensures DecodeChar(EncodeChar(c) + rest) == Some((c, |EncodeChar(c)|))
  {
    var v := c as int;
    if 0x80 <= v < 0x800 {
      DecodeEncodeTwo(c);
    } else if 0x800 <= v < 0x1_0000 {
      DecodeEncodeThree(c);
    } else if 0x1_0000 <= v {
      DecodeEncodeFour(c);
    }
  }

  /** ASCII text is encoded one octet per character, each octet the character's code. */
  lemma {:induction false} EncodeAscii(s: string)
    requires forall i :: 0 <= i < |s| ==> s[i] as int < 0x80
    ensures |Encode(s)| == |s|
    ensures forall i :: 0 <= i < |s| ==> Encode(s)[i] == s[i] as int
  {
    if s != [] {
      EncodeAscii(s[1..]);
      assert Encode(s) == [s[0] as int] + Encode(s[1..]);
    }
  }

  /** Decoding inverts encoding. */
  lemma {:induction false} DecodeEncode(s: string)
    ensures Decode(Encode(s)) == Some(s)
  {
    if s != [] {
      var head := EncodeChar(s[0]);
      DecodeEncodeChar(s[0], Encode(s[1..]));
      assert (head + Encode(s[1..]))[|head|..] == Encode(s[1..]);
      DecodeEncode(s[1..]);
      assert [s[0]] + s[1..] == s;
    }
  }

  /** A decoded non-empty input is its first character's octets followed by a decoded rest. */
  lemma DecodeFirst(bs: seq<byte>) returns (c: char, n: nat, tail: string)
    requires bs != [] && Decode(bs).Some?
    ensures 1 <= n <= |bs| && EncodeChar(c) == bs[..n]
    ensures Decode(bs[n..]) == Some(tail) && Decode(bs).value == [c] + tail
  {
    var head := DecodeChar(bs).value;
    c, n := head.0, head.1;
    tail := Decode(bs[n..]).value;
  }

  /** Encoding a text that starts with `c` starts with `c`'s octets. */
  lemma EncodeCons(s: string, c: char, tail: string)
    requires s == [c] + tail
    ensures Encode(s) == EncodeChar(c) + Encode(tail)
  {
    assert s[0] == c && s[1..] == tail;
  }

  /** Whatever octets decode are the encoding of the text they decode to. */
  lemma {:induction false} EncodeDecode(bs: seq<byte>, s: string)
    requires Decode(bs) == Some(s)
    ensures Encode(s) == bs
    decreases |bs|
  {
    if bs != [] {
      var c, n, tail := DecodeFirst(bs);
      EncodeDecode(bs[n..], tail);
      EncodeCons(s, c, tail);
      assert bs == bs[..n] + bs[n..];
    }
  }

  /** Decoding accepts only what encoding produces: the codec is a bijection. */
  lemma DecodeIffEncode(bs: seq<byte>, s: string)
    ensures Decode(bs) == Some(s) <==> Encode(s) == bs
  {
    if Decode(bs) == Some(s) {
      EncodeDecode(bs, s);
    }
    if Encode(s) == bs {
      DecodeEncode(s);
    }
  }
}
