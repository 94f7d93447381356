/**
 * `encodeURIComponent` as ECMAScript defines it: the characters of uriUnescaped
 * (ASCII letters, digits and `- _ . ! ~ * ' ( )`) are kept, and every other
 * code point becomes the `%XY` escapes of its UTF-8 bytes, with upper-case hex
 * digits. `DecodeUriComponent` is the reverse reading, used to state that the
 * encoding loses nothing.
 */
module UriComponent {
  import opened Wrappers

  type Byte = x: int | 0 <= x < 256

  /** The characters `encodeURIComponent` leaves unescaped. */
  predicate IsUnescaped(c: char) {
    ('A' <= c <= 'Z') || ('a' <= c <= 'z') || ('0' <= c <= '9')
    || c == '-' || c == '_' || c == '.' || c == '!' || c == '~' || c == '*'
    || c == '\'' || c == '(' || c == ')'
  }

  /** The UTF-8 encoding of one code point. */
  function Utf8(c: char): seq<Byte>
  {
    var cp := c as int;
    if cp < 0x80 then [cp]
    else if cp < 0x800 then [0xC0 + cp / 64, 0x80 + cp % 64]
    else if cp < 0x10000 then [0xE0 + cp / 4096, 0x80 + (cp / 64) % 64, 0x80 + cp % 64]
    else [0xF0 + cp / 262144, 0x80 + (cp / 4096) % 64, 0x80 + (cp / 64) % 64, 0x80 + cp % 64]
  }

  /** The upper-case hexadecimal digit for `n`: `0`-`9`, then `A`-`F`. */
  function HexDigit(n: nat): char
    requires n < 16
  {
    if n < 10 then ('0' as int + n) as char else ('A' as int + n - 10) as char
  }

  /** Each byte as `%` followed by two upper-case hex digits. */
  function PercentEncode(bytes: seq<Byte>): string
  {
    if bytes == [] then ""
    else ['%', HexDigit(bytes[0] / 16), HexDigit(bytes[0] % 16)] + PercentEncode(bytes[1..])
  }

  function EncodeChar(c: char): string
  {
    if IsUnescaped(c) then [c] else PercentEncode(Utf8(c))
  }

  /** `encodeURIComponent`. */
  function EncodeUriComponent(s: string): string
  {
    if s == [] then "" else EncodeChar(s[0]) + EncodeUriComponent(s[1..])
  }

  // ---------------------------------------------------------------------------
  // Reading an encoded component back
  // ---------------------------------------------------------------------------

  function HexValue(c: char): (r: Option<nat>)
    ensures r.Some? ==> r.value < 16
  {
    if '0' <= c <= '9' then Some(c as int - '0' as int)
    else if 'A' <= c <= 'F' then Some(c as int - 'A' as int + 10)
    else if 'a' <= c <= 'f' then Some(c as int - 'a' as int + 10)
    else None
  }

  /** The byte written as `%XY` at index `i` of `u`. */
  function PercentByteAt(u: string, i: nat): Option<Byte>
  {
    if i + 3 <= |u| && u[i] == '%' then
      match (HexValue(u[i + 1]), HexValue(u[i + 2]))
      case (Some(h), Some(l)) => Some(h * 16 + l)
      case _ => None
    else None
  }

  /** How many continuation bytes a UTF-8 lead byte announces, and the code point bits it carries. */
  function LeadByte(b: Byte): Option<(nat, nat)>
  {
    if b < 0x80 then Some((0, b))
    else if 0xC0 <= b < 0xE0 then Some((1, b - 0xC0))
    else if 0xE0 <= b < 0xF0 then Some((2, b - 0xE0))
    else if 0xF0 <= b < 0xF8 then Some((3, b - 0xF0))
    else None
  }

  /** Reads `n` escaped continuation bytes from index `i`, adding six bits of each to `acc`. */
  function ReadContinuation(u: string, i: nat, n: nat, acc: int): Option<int>
    decreases n
  {
    if n == 0 then Some(acc)
    else match PercentByteAt(u, i)
      case Some(b) =>
        if 0x80 <= b < 0xC0 then ReadContinuation(u, i + 3, n - 1, acc * 64 + (b - 0x80)) else None
      case None => None
  }

  /** The smallest code point that needs 1, 2, 3 or 4 bytes; shorter forms are rejected. */
  function MinCodePoint(continuations: nat): nat {
    if continuations == 0 then 0 else if continuations == 1 then 0x80
    else if continuations == 2 then 0x800 else 0x10000
  }

  predicate IsScalarValue(cp: int) {
    0 <= cp < 0xD800 || 0xE000 <= cp < 0x11_0000
  }

  /** The first character read from `u`, with the number of characters of `u` it took. */
  function DecodeFirst(u: string): (r: Option<(char, nat)>)
    requires |u| > 0
    ensures r.Some? ==> 0 < r.value.1 <= |u|
  {
    if u[0] != '%' then Some((u[0], 1))
    else match PercentByteAt(u, 0)
      case None => None
      case Some(b0) =>
        match LeadByte(b0)
        case None => None
        case Some((n, bits)) =>
          match ReadContinuation(u, 3, n, bits)
          case None => None
          case Some(cp) =>
            if MinCodePoint(n) <= cp && IsScalarValue(cp) && 3 + 3 * n <= |u|
            then Some((cp as char, 3 + 3 * n)) else None
  }

  /** `decodeURIComponent`, `None` standing for a thrown `URIError`. */
  function DecodeUriComponent(u: string): Option<string>
    decreases |u|
  {
    if u == [] then Some("")
    else match DecodeFirst(u)
      case None => None
      case Some((c, n)) =>
        match DecodeUriComponent(u[n..])
        case None => None
        case Some(rest) => Some([c] + rest)
  }

  // ---------------------------------------------------------------------------
  // Properties
  // ---------------------------------------------------------------------------

  lemma HexRoundTrip(b: Byte)
    ensures HexValue(HexDigit(b / 16)) == Some(b / 16)
    ensures HexValue(HexDigit(b % 16)) == Some(b % 16)
  {
  }

  /** The three characters that escape byte `j` of `bytes`. */
  lemma {:induction false} PercentEncodeAt(bytes: seq<Byte>, j: nat)
    requires j < |bytes|
    ensures |PercentEncode(bytes)| == 3 * |bytes|
    ensures PercentEncode(bytes)[3 * j] == '%'
    ensures PercentEncode(bytes)[3 * j + 1] == HexDigit(bytes[j] / 16)
    ensures PercentEncode(bytes)[3 * j + 2] == HexDigit(bytes[j] % 16)
  {
    PercentEncodeLength(bytes);
    if j > 0 {
      var t := ['%', HexDigit(bytes[0] / 16), HexDigit(bytes[0] % 16)];
      var v := PercentEncode(bytes[1..]);
      PercentEncodeAt(bytes[1..], j - 1);
      assert PercentEncode(bytes) == t + v;
      var k := 3 * (j - 1);
      assert 3 * j == k + 3;
      assert (t + v)[k + 3] == v[k] && (t + v)[k + 4] == v[k + 1] && (t + v)[k + 5] == v[k + 2];
    }
  }

  lemma PercentByteOfEncoded(bytes: seq<Byte>, rest: string, j: nat)
    requires j < |bytes|
    ensures |PercentEncode(bytes)| == 3 * |bytes|
    ensures PercentByteAt(PercentEncode(bytes) + rest, 3 * j) == Some(bytes[j])
  {
    var e := PercentEncode(bytes);
    PercentEncodeAt(bytes, j);
    HexRoundTrip(bytes[j]);
    var u := e + rest;
    assert u[3 * j] == '%' && u[3 * j + 1] == e[3 * j + 1] && u[3 * j + 2] == e[3 * j + 2];
  }

  lemma {:induction false} PercentEncodeLength(bytes: seq<Byte>)
    ensures |PercentEncode(bytes)| == 3 * |bytes|
  {
    if bytes != [] {
      PercentEncodeLength(bytes[1..]);
    }
  }

  lemma {:induction false} PercentEncodeAlphabet(bytes: seq<Byte>)
    ensures forall i :: 0 <= i < |PercentEncode(bytes)| ==>
      PercentEncode(bytes)[i] == '%' || IsUnescaped(PercentEncode(bytes)[i])
  {
    if bytes != [] {
      PercentEncodeAlphabet(bytes[1..]);
    }
  }

  /** `DecodeFirst` once the escaped lead byte and its continuation bytes have been read. */
  lemma DecodeFirstOfLead(u: string, b0: Byte, n: nat, bits: nat, cp: int)
    requires |u| >= 3 + 3 * n && u[0] == '%'
    requires PercentByteAt(u, 0) == Some(b0) && LeadByte(b0) == Some((n, bits))
    requires ReadContinuation(u, 3, n, bits) == Some(cp)
    requires MinCodePoint(n) <= cp && IsScalarValue(cp)
    ensures DecodeFirst(u) == Some((cp as char, 3 + 3 * n))
  {
  }

  lemma DecodeOneByte(c: char, rest: string)
    requires c as int < 0x80
    ensures |PercentEncode(Utf8(c))| == 3
    ensures DecodeFirst(PercentEncode(Utf8(c)) + rest) == Some((c, 3))
  {
    var bs := Utf8(c);
    PercentEncodeLength(bs);
    PercentByteOfEncoded(bs, rest, 0);
    DecodeFirstOfLead(PercentEncode(bs) + rest, bs[0], 0, c as int, c as int);
  }

  /** One continuation byte read by `ReadContinuation`. */
  lemma ReadContinuationStep(u: string, i: nat, n: nat, acc: int, b: Byte)
    requires n > 0 && PercentByteAt(u, i) == Some(b) && 0x80 <= b < 0xC0
    ensures ReadContinuation(u, i, n, acc) == ReadContinuation(u, i + 3, n - 1, acc * 64 + (b - 0x80))
  {
  }

  /** Six bits split off the bottom of a number. */
  lemma SplitSixBits(x: nat)
    ensures x == (x / 64) * 64 + x % 64
    ensures x / 64 / 64 == x / 4096 && x / 4096 / 64 == x / 262144
  {
  }

  /** A two-byte character: its lead byte, its continuation byte, and the value they carry. */
  lemma Utf8TwoBytes(c: char)
    requires 0x80 <= c as int < 0x800
    ensures var bs := Utf8(c);
      && |bs| == 2 && LeadByte(bs[0]) == Some((1, c as int / 64))
      && 0x80 <= bs[1] < 0xC0
      && c as int / 64 * 64 + (bs[1] - 0x80) == c as int
  {
    SplitSixBits(c as int);
  }

  /** A three-byte character: its lead byte, its continuation bytes, and the value they carry. */
  lemma Utf8ThreeBytes(c: char)
    requires 0x800 <= c as int < 0x10000
    ensures var bs := Utf8(c);
      && |bs| == 3 && LeadByte(bs[0]) == Some((2, c as int / 4096))
      && 0x80 <= bs[1] < 0xC0 && 0x80 <= bs[2] < 0xC0
      && (c as int / 4096 * 64 + (bs[1] - 0x80)) * 64 + (bs[2] - 0x80) == c as int
  {
    var cp := c as int;
    SplitSixBits(cp);
    SplitSixBits(cp / 64);
  }

  /** A four-byte character: its lead byte, its continuation bytes, and the value they carry. */
  lemma Utf8FourBytes(c: char)
    requires 0x10000 <= c as int
    ensures var bs := Utf8(c);
      && |bs| == 4 && LeadByte(bs[0]) == Some((3, c as int / 262144))
      && 0x80 <= bs[1] < 0xC0 && 0x80 <= bs[2] < 0xC0 && 0x80 <= bs[3] < 0xC0
      && ((c as int / 262144 * 64 + (bs[1] - 0x80)) * 64 + (bs[2] - 0x80)) * 64 + (bs[3] - 0x80) == c as int
  {
    var cp := c as int;
    SplitSixBits(cp);
    SplitSixBits(cp / 64);
    SplitSixBits(cp / 4096);
    assert cp / 262144 < 8;
  }

  /** `DecodeFirst` of two escaped bytes. */
  lemma DecodeTwoEscapes(u: string, b0: Byte, b1: Byte, bits: nat, cp: int)
    requires |u| >= 6 && u[0] == '%'
    requires PercentByteAt(u, 0) == Some(b0) && PercentByteAt(u, 3) == Some(b1)
    requires LeadByte(b0) == Some((1, bits)) && 0x80 <= b1 < 0xC0
    requires bits * 64 + (b1 - 0x80) == cp && 0x80 <= cp && IsScalarValue(cp)
    ensures DecodeFirst(u) == Some((cp as char, 6))
  {
    ReadContinuationStep(u, 3, 1, bits, b1);
    DecodeFirstOfLead(u, b0, 1, bits, cp);
  }

  /** `DecodeFirst` of three escaped bytes. */
  lemma DecodeThreeEscapes(u: string, b0: Byte, b1: Byte, b2: Byte, bits: nat, cp: int)
    requires |u| >= 9 && u[0] == '%'
    requires PercentByteAt(u, 0) == Some(b0) && PercentByteAt(u, 3) == Some(b1) && PercentByteAt(u, 6) == Some(b2)
    requires LeadByte(b0) == Some((2, bits)) && 0x80 <= b1 < 0xC0 && 0x80 <= b2 < 0xC0
    requires (bits * 64 + (b1 - 0x80)) * 64 + (b2 - 0x80) == cp && 0x800 <= cp && IsScalarValue(cp)
    ensures DecodeFirst(u) == Some((cp as char, 9))
  {
    var acc1 := bits * 64 + (b1 - 0x80);
    ReadContinuationStep(u, 3, 2, bits, b1);
    ReadContinuationStep(u, 6, 1, acc1, b2);
    DecodeFirstOfLead(u, b0, 2, bits, cp);
  }

  /** `DecodeFirst` of four escaped bytes. */
  lemma DecodeFourEscapes(u: string, b0: Byte, b1: Byte, b2: Byte, b3: Byte, bits: nat, cp: int)
    requires |u| >= 12 && u[0] == '%'
    requires PercentByteAt(u, 0) == Some(b0) && PercentByteAt(u, 3) == Some(b1)
    requires PercentByteAt(u, 6) == Some(b2) && PercentByteAt(u, 9) == Some(b3)
    requires LeadByte(b0) == Some((3, bits)) && 0x80 <= b1 < 0xC0 && 0x80 <= b2 < 0xC0 && 0x80 <= b3 < 0xC0
    requires ((bits * 64 + (b1 - 0x80)) * 64 + (b2 - 0x80)) * 64 + (b3 - 0x80) == cp
    requires 0x10000 <= cp && IsScalarValue(cp)
    ensures DecodeFirst(u) == Some((cp as char, 12))
  {
    var acc1 := bits * 64 + (b1 - 0x80);
    var acc2 := acc1 * 64 + (b2 - 0x80);
    ReadContinuationStep(u, 3, 3, bits, b1);
    ReadContinuationStep(u, 6, 2, acc1, b2);
    ReadContinuationStep(u, 9, 1, acc2, b3);
    DecodeFirstOfLead(u, b0, 3, bits, cp);
  }

  /** `DecodeFirst` of the escapes of a two-byte sequence. */
  lemma DecodeTwoByteSequence(bs: seq<Byte>, rest: string, bits: nat, cp: int)
    requires |bs| == 2 && LeadByte(bs[0]) == Some((1, bits)) && 0x80 <= bs[1] < 0xC0
    requires bits * 64 + (bs[1] - 0x80) == cp && 0x80 <= cp && IsScalarValue(cp)
    ensures |PercentEncode(bs)| == 6
    ensures DecodeFirst(PercentEncode(bs) + rest) == Some((cp as char, 6))
  {
    PercentByteOfEncoded(bs, rest, 0);
    PercentByteOfEncoded(bs, rest, 1);
    DecodeTwoEscapes(PercentEncode(bs) + rest, bs[0], bs[1], bits, cp);
  }

  /** `DecodeFirst` of the escapes of a three-byte sequence. */
  lemma DecodeThreeByteSequence(bs: seq<Byte>, rest: string, bits: nat, cp: int)
    requires |bs| == 3 && LeadByte(bs[0]) == Some((2, bits)) && 0x80 <= bs[1] < 0xC0 && 0x80 <= bs[2] < 0xC0
    requires (bits * 64 + (bs[1] - 0x80)) * 64 + (bs[2] - 0x80) == cp && 0x800 <= cp && IsScalarValue(cp)
    ensures |PercentEncode(bs)| == 9
    ensures DecodeFirst(PercentEncode(bs) + rest) == Some((cp as char, 9))
  {
    PercentByteOfEncoded(bs, rest, 0);
    PercentByteOfEncoded(bs, rest, 1);
    PercentByteOfEncoded(bs, rest, 2);
    DecodeThreeEscapes(PercentEncode(bs) + rest, bs[0], bs[1], bs[2], bits, cp);
  }

  /** `DecodeFirst` of the escapes of a four-byte sequence. */
  lemma DecodeFourByteSequence(bs: seq<Byte>, rest: string, bits: nat, cp: int)
    requires |bs| == 4 && LeadByte(bs[0]) == Some((3, bits))
    requires 0x80 <= bs[1] < 0xC0 && 0x80 <= bs[2] < 0xC0 && 0x80 <= bs[3] < 0xC0
    requires ((bits * 64 + (bs[1] - 0x80)) * 64 + (bs[2] - 0x80)) * 64 + (bs[3] - 0x80) == cp
    requires 0x10000 <= cp && IsScalarValue(cp)
    ensures |PercentEncode(bs)| == 12
    ensures DecodeFirst(PercentEncode(bs) + rest) == Some((cp as char, 12))
  {
    PercentByteOfEncoded(bs, rest, 0);
    PercentByteOfEncoded(bs, rest, 1);
    PercentByteOfEncoded(bs, rest, 2);
    PercentByteOfEncoded(bs, rest, 3);
    DecodeFourEscapes(PercentEncode(bs) + rest, bs[0], bs[1], bs[2], bs[3], bits, cp);
  }

  lemma DecodeTwoBytes(c: char, rest: string)
    requires 0x80 <= c as int < 0x800
    ensures |PercentEncode(Utf8(c))| == 6
    ensures DecodeFirst(PercentEncode(Utf8(c)) + rest) == Some((c, 6))
  {
    Utf8TwoBytes(c);
    DecodeTwoByteSequence(Utf8(c), rest, c as int / 64, c as int);
  }

  lemma DecodeThreeBytes(c: char, rest: string)
    requires 0x800 <= c as int < 0x10000
    ensures |PercentEncode(Utf8(c))| == 9
    ensures DecodeFirst(PercentEncode(Utf8(c)) + rest) == Some((c, 9))
  {
    Utf8ThreeBytes(c);
    DecodeThreeByteSequence(Utf8(c), rest, c as int / 4096, c as int);
  }

  lemma DecodeFourBytes(c: char, rest: string)
    requires 0x10000 <= c as int
    ensures |PercentEncode(Utf8(c))| == 12
    ensures DecodeFirst(PercentEncode(Utf8(c)) + rest) == Some((c, 12))
  {
    Utf8FourBytes(c);
    DecodeFourByteSequence(Utf8(c), rest, c as int / 262144, c as int);
  }

  /** Decoding the escapes of a character's UTF-8 bytes yields that character. */
  lemma DecodeFirstOfEncoded(c: char, rest: string)
    ensures |EncodeChar(c)| > 0
    ensures DecodeFirst(EncodeChar(c) + rest) == Some((c, |EncodeChar(c)|))
  {
    if IsUnescaped(c) {
      assert EncodeChar(c) + rest == [c] + rest;
    } else {
      var cp := c as int;
      assert EncodeChar(c) == PercentEncode(Utf8(c));
      if cp < 0x80 {
        DecodeOneByte(c, rest);
      } else if cp < 0x800 {
        DecodeTwoBytes(c, rest);
      } else if cp < 0x10000 {
        DecodeThreeBytes(c, rest);
      } else {
        DecodeFourBytes(c, rest);
      }
    }
  }

  /** Every string is recovered from its encoding. */
  lemma {:induction false} DecodeEncodeRoundTrip(s: string)
    ensures DecodeUriComponent(EncodeUriComponent(s)) == Some(s)
  {
    if s != [] {
      var e := EncodeChar(s[0]);
      var tail := EncodeUriComponent(s[1..]);
      DecodeFirstOfEncoded(s[0], tail);
      DecodeEncodeRoundTrip(s[1..]);
      assert (e + tail)[|e|..] == tail;
      assert [s[0]] + s[1..] == s;
    }
  }

  /**
   * The encoding contains only unescaped characters and `%`, so no `&`, `#`,
   * `=`, `+`, `/`, `?` or space can end the query parameter it is put into.
   */
  lemma {:induction false} EncodedCharactersAreSafe(s: string)
    ensures forall i :: 0 <= i < |EncodeUriComponent(s)| ==>
      IsUnescaped(EncodeUriComponent(s)[i]) || EncodeUriComponent(s)[i] == '%'
  {
    if s != [] {
      EncodedCharactersAreSafe(s[1..]);
      if !IsUnescaped(s[0]) {
        PercentEncodeAlphabet(Utf8(s[0]));
      }
    }
  }

  /** A string of unescaped characters only, such as a plain font family name, is its own encoding. */
  lemma {:induction false} UnescapedStringUnchanged(s: string)
    requires forall i :: 0 <= i < |s| ==> IsUnescaped(s[i])
    ensures EncodeUriComponent(s) == s
  {
    if s != [] {
      UnescapedStringUnchanged(s[1..]);
      assert [s[0]] + s[1..] == s;
    }
  }
}
