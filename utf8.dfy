/** UTF-8 as defined in section 3 of RFC 3629. `encodeURIComponent` followed
    by `unescape` turns a string into the octets of its UTF-8 form, and
    `escape` followed by `decodeURIComponent` turns octets back into a
    string, failing (a `URIError`) unless they are well-formed UTF-8. */
module Utf8 {
  import opened Wrappers
  import opened Bytes

  predicate IsContinuation(b: byte) { 0x80 <= b < 0xC0 }

  /** The one to four octets that encode one scalar value. */
  function EncodeChar(c: char): (bs: seq<byte>)
    ensures 1 <= |bs| <= 4
  {
    var n := c as int;
    if n < 0x80 then [n]
    else if n < 0x800 then [0xC0 + n / 64, 0x80 + n % 64]
    else if n < 0x10000 then [0xE0 + n / 4096, 0x80 + (n / 64) % 64, 0x80 + n % 64]
    else [0xF0 + n / 262144, 0x80 + (n / 4096) % 64, 0x80 + (n / 64) % 64, 0x80 + n % 64]
  }

  function Encode(s: string): seq<byte> {
    if s == [] then [] else EncodeChar(s[0]) + Encode(s[1..])
  }

  /** One decoded scalar value and the number of octets it took. */
  datatype Decoded = Decoded(c: char, len: nat)

  /** Decode the sequence at the head of `bs`, rejecting overlong forms,
      surrogates and values above U+10FFFF, as the table in section 4 of
      RFC 3629 demands. */
  function DecodeFirst(bs: seq<byte>): (r: Option<Decoded>)
    requires bs != []
    ensures r.Some? ==> 1 <= r.value.len <= |bs| && r.value.len <= 4
  {
    var b0 := bs[0] as int;
    if b0 < 0x80 then Some(Decoded(b0 as char, 1))
    else if 0xC2 <= b0 <= 0xDF then
      if |bs| >= 2 && IsContinuation(bs[1]) then
        Some(Decoded(((b0 - 0xC0) * 64 + (bs[1] as int - 0x80)) as char, 2))
      else None
    else if 0xE0 <= b0 <= 0xEF then
      if |bs| >= 3 && IsContinuation(bs[1]) && IsContinuation(bs[2]) then
        var n := (b0 - 0xE0) * 4096 + (bs[1] as int - 0x80) * 64 + (bs[2] as int - 0x80);
        if 0x800 <= n && !(0xD800 <= n <= 0xDFFF) then Some(Decoded(n as char, 3)) else None
      else None
    else if 0xF0 <= b0 <= 0xF4 then
      if |bs| >= 4 && IsContinuation(bs[1]) && IsContinuation(bs[2]) && IsContinuation(bs[3]) then
        var n := (b0 - 0xF0) * 262144 + (bs[1] as int - 0x80) * 4096 + (bs[2] as int - 0x80) * 64 + (bs[3] as int - 0x80);
        if 0x10000 <= n <= 0x10FFFF then Some(Decoded(n as char, 4)) else None
      else None
    else None
  }

  function Decode(bs: seq<byte>): Option<string>
    decreases |bs|
  {
    if bs == [] then Some([])
    else match DecodeFirst(bs)
      case None => None
      case Some(d) =>
        match Decode(bs[d.len..])
        case None => None
        case Some(rest) => Some([d.c] + rest)
  }

  lemma Split64(n: int)
    requires n >= 0
    ensures n == (n / 64) * 64 + n % 64
    ensures n / 4096 == (n / 64) / 64
    ensures n / 262144 == (n / 4096) / 64
  {
  }

  /** The head of an encoding decodes to the character it encodes. */
  lemma DecodeFirstEncodeChar(c: char, rest: seq<byte>)
    ensures DecodeFirst(EncodeChar(c) + rest) == Some(Decoded(c, |EncodeChar(c)|))
  {
    var n := c as int;
    if n < 0x80 {
    } else if n < 0x800 {
      DecodeFirstEncode2(c, rest);
    } else if n < 0x10000 {
      DecodeFirstEncode3(c, rest);
    } else {
      DecodeFirstEncode4(c, rest);
    }
  }

  lemma DecodeFirstEncode2(c: char, rest: seq<byte>)
    requires 0x80 <= c as int < 0x800
    ensures DecodeFirst(EncodeChar(c) + rest) == Some(Decoded(c, 2))
  {
    var n := c as int;
    var bs := EncodeChar(c) + rest;
    Split64(n);
    assert (bs[0] as int - 0xC0) * 64 + (bs[1] as int - 0x80) == n;
  }

  lemma DecodeFirstEncode3(c: char, rest: seq<byte>)
    requires 0x800 <= c as int < 0x10000
    ensures DecodeFirst(EncodeChar(c) + rest) == Some(Decoded(c, 3))
  {
    var n := c as int;
    var bs := EncodeChar(c) + rest;
    Split64(n);
    Split64(n / 64);
    assert (bs[0] as int - 0xE0) * 4096 + (bs[1] as int - 0x80) * 64 + (bs[2] as int - 0x80) == n;
  }

  lemma DecodeFirstEncode4(c: char, rest: seq<byte>)
    requires 0x10000 <= c as int
    ensures DecodeFirst(EncodeChar(c) + rest) == Some(Decoded(c, 4))
  {
    var n := c as int;
    var bs := EncodeChar(c) + rest;
    Split64(n);
    Split64(n / 64);
    Split64(n / 4096);
    assert (bs[0] as int - 0xF0) * 262144 + (bs[1] as int - 0x80) * 4096 + (bs[2] as int - 0x80) * 64 + (bs[3] as int - 0x80) == n;
  }

  /** Decoding the UTF-8 form of a string gives the string back. */
  lemma {:induction false} DecodeEncode(s: string)
    ensures Decode(Encode(s)) == Some(s)
  {
    if s != [] {
      var e := EncodeChar(s[0]);
      DecodeFirstEncodeChar(s[0], Encode(s[1..]));
      assert (e + Encode(s[1..]))[|e|..] == Encode(s[1..]);
      DecodeEncode(s[1..]);
      assert s == [s[0]] + s[1..];
    }
  }

  /** What the head decoder accepts is exactly the encoding of what it returns. */
  lemma EncodeCharDecodeFirst(bs: seq<byte>)
    requires bs != [] && DecodeFirst(bs).Some?
    ensures EncodeChar(DecodeFirst(bs).value.c) == bs[..DecodeFirst(bs).value.len]
  {
    var b0 := bs[0] as int;
    if b0 < 0x80 {
    } else if b0 <= 0xDF {
      EncodeCharDecode2(bs);
    } else if b0 <= 0xEF {
      EncodeCharDecode3(bs);
    } else {
      EncodeCharDecode4(bs);
    }
  }

  lemma EncodeCharDecode2(bs: seq<byte>)
    requires bs != [] && 0x80 <= bs[0] <= 0xDF && DecodeFirst(bs).Some?
    ensures EncodeChar(DecodeFirst(bs).value.c) == bs[..2]
  {
    Recombine2(bs[0] as int - 0xC0, bs[1] as int - 0x80);
  }

  lemma EncodeCharDecode3(bs: seq<byte>)
    requires bs != [] && 0xE0 <= bs[0] <= 0xEF && DecodeFirst(bs).Some?
    ensures EncodeChar(DecodeFirst(bs).value.c) == bs[..3]
  {
    Recombine3(bs[0] as int - 0xE0, bs[1] as int - 0x80, bs[2] as int - 0x80);
  }

  lemma EncodeCharDecode4(bs: seq<byte>)
    requires bs != [] && 0xF0 <= bs[0] && DecodeFirst(bs).Some?
    ensures EncodeChar(DecodeFirst(bs).value.c) == bs[..4]
  {
    Recombine4(bs[0] as int - 0xF0, bs[1] as int - 0x80, bs[2] as int - 0x80, bs[3] as int - 0x80);
  }

  lemma Recombine2(a: int, x: int)
    requires 0 <= a && 0 <= x < 64
    ensures (a * 64 + x) / 64 == a && (a * 64 + x) % 64 == x
  {
  }

  lemma Recombine3(a: int, x: int, y: int)
    requires 0 <= a && 0 <= x < 64 && 0 <= y < 64
    ensures var n := a * 4096 + x * 64 + y;
      n / 4096 == a && (n / 64) % 64 == x && n % 64 == y
  {
    var n := a * 4096 + x * 64 + y;
    Recombine2(a * 64 + x, y);
    assert n == (a * 64 + x) * 64 + y;
    Recombine2(a, x);
    Split64(n);
  }

  lemma Recombine4(a: int, x: int, y: int, z: int)
    requires 0 <= a && 0 <= x < 64 && 0 <= y < 64 && 0 <= z < 64
    ensures var n := a * 262144 + x * 4096 + y * 64 + z;
      n / 262144 == a && (n / 4096) % 64 == x && (n / 64) % 64 == y && n % 64 == z
  {
    var n := a * 262144 + x * 4096 + y * 64 + z;
    var m := a * 4096 + x * 64 + y;
    assert n == m * 64 + z;
    Recombine2(m, z);
    Recombine3(a, x, y);
    Split64(n);
    Split64(n / 64);
  }

  /** Decoding accepts only canonical UTF-8: whatever it accepts is the
      encoding of its result. */
  lemma {:induction false} EncodeDecode(bs: seq<byte>)
    requires Decode(bs).Some?
    ensures Encode(Decode(bs).value) == bs
    decreases |bs|
  {
    if bs != [] {
      DecodeCons(bs);
      var d := DecodeFirst(bs).value;
      var tail := bs[d.len..];
      var rest := Decode(tail).value;
      calc {
        Encode(Decode(bs).value);
        Encode([d.c] + rest);
        { EncodeCons(d.c, rest); }
        EncodeChar(d.c) + Encode(rest);
        { EncodeCharDecodeFirst(bs); EncodeDecode(tail); }
        bs[..d.len] + bs[d.len..];
        bs;
      }
    }
  }

  /** A successful decode is the head character followed by the decoded tail. */
  lemma DecodeCons(bs: seq<byte>)
    requires bs != [] && Decode(bs).Some?
    ensures DecodeFirst(bs).Some? && Decode(bs[DecodeFirst(bs).value.len..]).Some?
    ensures Decode(bs).value == [DecodeFirst(bs).value.c] + Decode(bs[DecodeFirst(bs).value.len..]).value
  {
  }

  lemma EncodeCons(c: char, rest: string)
    ensures Encode([c] + rest) == EncodeChar(c) + Encode(rest)
  {
    assert ([c] + rest)[0] == c && ([c] + rest)[1..] == rest;
  }
}
