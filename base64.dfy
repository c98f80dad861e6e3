/** Base64 as defined in section 4 of RFC 4648, in the form the browser's
    `btoa` produces and `atob` accepts. `atob` follows the "forgiving-base64
    decode" of the WHATWG Infra standard: ASCII whitespace is removed, one or
    two trailing `=` are dropped when the length is a multiple of four, a
    length of 1 modulo 4 is an error, and leftover bits are discarded. */
module Base64 {
  import opened Wrappers
  import opened Bytes
  import opened Text

  type sextet = x: int | 0 <= x < 64

  /** The alphabet of Table 1 of RFC 4648: A-Z, a-z, 0-9, '+', '/'. */
  function Symbol(x: sextet): char {
    if x < 26 then (('A' as int) + x) as char
    else if x < 52 then (('a' as int) + x - 26) as char
    else if x < 62 then (('0' as int) + x - 52) as char
    else if x == 62 then '+'
    else '/'
  }

  predicate IsSymbol(c: char) {
    ('A' <= c <= 'Z') || ('a' <= c <= 'z') || ('0' <= c <= '9') || c == '+' || c == '/'
  }

  function SymbolValue(c: char): sextet
    requires IsSymbol(c)
  {
    if 'A' <= c <= 'Z' then (c as int) - ('A' as int)
    else if 'a' <= c <= 'z' then (c as int) - ('a' as int) + 26
    else if '0' <= c <= '9' then (c as int) - ('0' as int) + 52
    else if c == '+' then 62
    else 63
  }

  lemma SymbolValueOfSymbol(x: sextet)
    ensures IsSymbol(Symbol(x)) && SymbolValue(Symbol(x)) == x && Symbol(x) != '='
  {
  }

  /** The four sextets of a full group of three octets. */
  function Quad(b0: byte, b1: byte, b2: byte): seq<sextet> {
    [b0 / 4, (b0 % 4) * 16 + b1 / 16, (b1 % 16) * 4 + b2 / 64, b2 % 64]
  }

  /** The three octets packed into four sextets. */
  function Triple(x0: sextet, x1: sextet, x2: sextet, x3: sextet): seq<byte> {
    [x0 as int * 4 + x1 / 16, (x1 % 16) * 16 + x2 / 4, (x2 % 4) * 64 + x3]
  }

  /** Each group of three octets becomes four sextets; a final group of one
      or two octets becomes two or three, zero-filled on the right. */
  function Sextets(bs: seq<byte>): (xs: seq<sextet>)
    ensures |xs| == |bs| / 3 * 4 + (if |bs| % 3 == 0 then 0 else |bs| % 3 + 1)
    decreases |bs|
  {
    if |bs| == 0 then []
    else if |bs| < 3 then
      var b1: byte := if |bs| == 2 then bs[1] else 0;
      Quad(bs[0], b1, 0)[..|bs| + 1]
    else Quad(bs[0], bs[1], bs[2]) + Sextets(bs[3..])
  }

  /** The octets packed into a run of sextets, leftover bits discarded. */
  function Octets(xs: seq<sextet>): seq<byte>
    requires |xs| % 4 != 1
    decreases |xs|
  {
    if |xs| == 0 then []
    else if |xs| < 4 then
      var x2: sextet := if |xs| == 3 then xs[2] else 0;
      Triple(xs[0], xs[1], x2, 0)[..|xs| - 1]
    else Triple(xs[0], xs[1], xs[2], xs[3]) + Octets(xs[4..])
  }

  function Padding(n: nat): string {
    if n % 3 == 1 then "==" else if n % 3 == 2 then "=" else ""
  }

  /** `btoa` applied to a string whose characters are the octets `bs`. */
  function Encode(bs: seq<byte>): (s: string)
    ensures |s| % 4 == 0
  {
    Symbols(Sextets(bs)) + Padding(|bs|)
  }

  function Symbols(xs: seq<sextet>): (s: string)
    ensures |s| == |xs|
    ensures forall k | 0 <= k < |s| :: IsSymbol(s[k]) && s[k] != '='
  {
    if xs == [] then [] else
      SymbolValueOfSymbol(xs[0]);
      [Symbol(xs[0])] + Symbols(xs[1..])
  }

  function Values(d: string): (xs: seq<sextet>)
    requires forall k | 0 <= k < |d| :: IsSymbol(d[k])
    ensures |xs| == |d|
  {
    if d == [] then [] else [SymbolValue(d[0])] + Values(d[1..])
  }

  lemma {:induction false} ValuesSymbols(xs: seq<sextet>)
    ensures Values(Symbols(xs)) == xs
  {
    if xs != [] {
      SymbolValueOfSymbol(xs[0]);
      ValuesSymbols(xs[1..]);
      assert Symbols(xs)[1..] == Symbols(xs[1..]);
    }
  }

  /** The ASCII whitespace of the Infra standard: TAB, LF, FF, CR, SPACE. */
  predicate IsAsciiWhitespace(c: char) {
    var n := c as int; n == 0x09 || n == 0x0A || n == 0x0C || n == 0x0D || n == 0x20
  }

  function RemoveAsciiWhitespace(s: string): (r: string)
    ensures forall k | 0 <= k < |r| :: !IsAsciiWhitespace(r[k])
  {
    if s == [] then []
    else if IsAsciiWhitespace(s[0]) then RemoveAsciiWhitespace(s[1..])
    else [s[0]] + RemoveAsciiWhitespace(s[1..])
  }

  function DropPadding(d: string): string {
    if |d| % 4 == 0 && EndsWith(d, "==") then d[..|d| - 2]
    else if |d| % 4 == 0 && EndsWith(d, "=") then d[..|d| - 1]
    else d
  }

  /** `atob`: `None` where the browser throws `InvalidCharacterError`. */
  function Decode(s: string): Option<seq<byte>> {
    var d := DropPadding(RemoveAsciiWhitespace(s));
    if |d| % 4 == 1 then None
    else if exists k | 0 <= k < |d| :: !IsSymbol(d[k]) then None
    else Some(Octets(Values(d)))
  }

  lemma GroupRoundTrip(b0: byte, b1: byte, b2: byte)
    ensures var q := Quad(b0, b1, b2); Triple(q[0], q[1], q[2], q[3]) == [b0, b1, b2]
  {
  }

  /** Packing the sextets of `bs` gives back `bs`. */
  lemma {:induction false} OctetsSextets(bs: seq<byte>)
    ensures |Sextets(bs)| % 4 != 1
    ensures Octets(Sextets(bs)) == bs
    decreases |bs|
  {
    if |bs| >= 3 {
      var rest := Sextets(bs[3..]);
      OctetsSextets(bs[3..]);
      assert Sextets(bs) == Quad(bs[0], bs[1], bs[2]) + rest;
      OctetsOfGroup(bs[0], bs[1], bs[2], rest);
      assert bs == [bs[0], bs[1], bs[2]] + bs[3..];
    } else if |bs| >= 1 {
      var b1: byte := if |bs| == 2 then bs[1] else 0;
      GroupRoundTrip(bs[0], b1, 0);
    }
  }

  /** A full group in front of the sextets packs back to its three octets. */
  lemma OctetsOfGroup(b0: byte, b1: byte, b2: byte, rest: seq<sextet>)
    requires |rest| % 4 != 1
    ensures |Quad(b0, b1, b2) + rest| % 4 != 1
    ensures Octets(Quad(b0, b1, b2) + rest) == [b0, b1, b2] + Octets(rest)
  {
    var q := Quad(b0, b1, b2);
    var xs := q + rest;
    GroupRoundTrip(b0, b1, b2);
    assert xs[0] == q[0] && xs[1] == q[1] && xs[2] == q[2] && xs[3] == q[3];
    assert xs[4..] == rest;
  }

  lemma NoWhitespaceKept(s: string)
    requires forall k | 0 <= k < |s| :: !IsAsciiWhitespace(s[k])
    ensures RemoveAsciiWhitespace(s) == s
  {
    if s != [] {
      NoWhitespaceKept(s[1..]);
      assert s == [s[0]] + s[1..];
    }
  }

  lemma DropPaddingOfEncode(bs: seq<byte>)
    ensures DropPadding(Encode(bs)) == Symbols(Sextets(bs))
  {
    var syms := Symbols(Sextets(bs));
    var e := Encode(bs);
    if |bs| % 3 == 1 {
      assert e[..|e| - 2] == syms;
    } else if |bs| % 3 == 2 {
      assert e[..|e| - 1] == syms;
      assert e[|e| - 2] == syms[|syms| - 1];
    } else if |syms| > 0 {
      assert e == syms;
      assert e[|e| - 1] == syms[|syms| - 1];
    }
  }

  /** `atob(btoa(x)) == x` for every string `x` of octets. */
  lemma DecodeEncode(bs: seq<byte>)
    ensures Decode(Encode(bs)) == Some(bs)
  {
    var xs := Sextets(bs);
    var e := Encode(bs);
    assert forall k | 0 <= k < |e| :: !IsAsciiWhitespace(e[k]);
    NoWhitespaceKept(e);
    DropPaddingOfEncode(bs);
    OctetsSextets(bs);
    ValuesSymbols(xs);
  }
}
