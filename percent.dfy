/** `urllib.parse.quote(text)` with its default arguments (`safe='/'`, UTF-8):
    the text is encoded as UTF-8 (RFC 3629) and every byte outside the
    unreserved characters of RFC 3986 section 2.3 and `/` is written as a
    percent-encoded octet, `%` and two upper-case hexadecimal digits
    (RFC 3986 section 2.1). A decoder for both layers shows that no
    information is lost. */
module PercentEncoding {
  import opened Wrappers

  type Byte = b: int | 0 <= b < 256

  // ---------------------------------------------------------------------------
  // UTF-8
  // ---------------------------------------------------------------------------

  /** UTF-8 encoding of one Unicode scalar value. */
  function EncodeChar(c: char): (r: seq<Byte>)
    ensures 1 <= |r| <= 4
    ensures |r| == 1 <==> c as int < 0x80
  {
    var cp := c as int;
    if cp < 0x80 then [cp]
    else if cp < 0x800 then [0xC0 + cp / 0x40, 0x80 + cp % 0x40]
    else if cp < 0x1_0000 then [0xE0 + cp / 0x1000, 0x80 + (cp / 0x40) % 0x40, 0x80 + cp % 0x40]
    else [0xF0 + cp / 0x4_0000, 0x80 + (cp / 0x1000) % 0x40, 0x80 + (cp / 0x40) % 0x40, 0x80 + cp % 0x40]
  }

  /** `text.encode('utf-8')`. */
  function Utf8(text: string): seq<Byte>
  {
    if text == [] then [] else EncodeChar(text[0]) + Utf8(text[1..])
  }

  predicate IsContinuation(b: Byte) { 0x80 <= b < 0xC0 }

  /** One decoded character and the number of bytes it took. */
  datatype Decoded = Decoded(c: char, width: nat)

  /** Decodes the character at the front of `bs`; `None` for anything that is
      not the shortest encoding of a Unicode scalar value. */
  function DecodeChar(bs: seq<Byte>): (r: Option<Decoded>)
    requires |bs| > 0
    ensures r.Some? ==> 1 <= r.value.width <= |bs|
  {
    var b0: int := bs[0];
    if b0 < 0x80 then Some(Decoded(b0 as char, 1))
    else if 0xC0 <= b0 < 0xE0 && |bs| >= 2 && IsContinuation(bs[1]) then
      var cp := Combine2(b0 - 0xC0, bs[1] - 0x80);
      if 0x80 <= cp then Some(Decoded(cp as char, 2)) else None
    else if 0xE0 <= b0 < 0xF0 && |bs| >= 3 && IsContinuation(bs[1]) && IsContinuation(bs[2]) then
      var cp := Combine3(b0 - 0xE0, bs[1] - 0x80, bs[2] - 0x80);
      if 0x800 <= cp && !(0xD800 <= cp < 0xE000) then Some(Decoded(cp as char, 3)) else None
    else if 0xF0 <= b0 < 0xF8 && |bs| >= 4 && IsContinuation(bs[1]) && IsContinuation(bs[2]) && IsContinuation(bs[3]) then
      var cp := Combine4(b0 - 0xF0, bs[1] - 0x80, bs[2] - 0x80, bs[3] - 0x80);
      if 0x1_0000 <= cp < 0x11_0000 then Some(Decoded(cp as char, 4)) else None
    else None
  }

  /** The code point carried by the payload bits of a 2-, 3- or 4-byte sequence. */
  function Combine2(lead: int, c1: int): int { lead * 0x40 + c1 }
  function Combine3(lead: int, c1: int, c2: int): int { lead * 0x1000 + c1 * 0x40 + c2 }
  function Combine4(lead: int, c1: int, c2: int, c3: int): int { lead * 0x4_0000 + c1 * 0x1000 + c2 * 0x40 + c3 }

  /** `bs.decode('utf-8')`, with `None` for malformed input. */
  function Utf8Decode(bs: seq<Byte>): Option<string>
    decreases |bs|
  {
    if bs == [] then Some([])
    else
      var d :- DecodeChar(bs);
      var rest :- Utf8Decode(bs[d.width..]);
      Some([d.c] + rest)
  }

  lemma DecodeEncodedChar(c: char, rest: seq<Byte>)
    ensures DecodeChar(EncodeChar(c) + rest) == Some(Decoded(c, |EncodeChar(c)|))
  {
    var cp := c as int;
    if 0x80 <= cp < 0x800 {
      Split2(cp);
    } else if 0x800 <= cp < 0x1_0000 {
      Split3(cp);
    } else if 0x1_0000 <= cp {
      Split4(cp);
    }
  }

  lemma Split2(cp: int)
    requires 0x80 <= cp < 0x800
    ensures Combine2(cp / 0x40, cp % 0x40) == cp
  {
  }

  lemma Split3(cp: int)
    requires 0x800 <= cp < 0x1_0000
    ensures Combine3(cp / 0x1000, (cp / 0x40) % 0x40, cp % 0x40) == cp
  {
    var q := cp / 0x40;
    assert cp == q * 0x40 + cp % 0x40;
    assert q == (q / 0x40) * 0x40 + q % 0x40;
    assert q / 0x40 == cp / 0x1000;
  }

  lemma Split4(cp: int)
    requires 0x1_0000 <= cp < 0x11_0000
    ensures Combine4(cp / 0x4_0000, (cp / 0x1000) % 0x40, (cp / 0x40) % 0x40, cp % 0x40) == cp
  {
    var q := cp / 0x40;
    var q2 := q / 0x40;
    assert cp == q * 0x40 + cp % 0x40;
    assert q == q2 * 0x40 + q % 0x40;
    assert q2 == (q2 / 0x40) * 0x40 + q2 % 0x40;
    assert q2 == cp / 0x1000;
    assert q2 / 0x40 == cp / 0x4_0000;
  }

  /** Decoding undoes `encode('utf-8')`. */
  lemma {:induction false} Utf8RoundTrip(text: string)
    ensures Utf8Decode(Utf8(text)) == Some(text)
  {
    if text != [] {
      var e := EncodeChar(text[0]);
      var bs := Utf8(text);
      DecodeEncodedChar(text[0], Utf8(text[1..]));
      assert bs[|e|..] == Utf8(text[1..]);
      Utf8RoundTrip(text[1..]);
      assert [text[0]] + text[1..] == text;
    }
  }

  // ---------------------------------------------------------------------------
  // Percent-encoding of the bytes
  // ---------------------------------------------------------------------------

  /** The characters `quote` never encodes: the unreserved characters of
      RFC 3986 section 2.3 (`_ALWAYS_SAFE`) and the default `safe='/'`. */
  predicate IsSafe(c: char) {
    || ('A' <= c <= 'Z') || ('a' <= c <= 'z') || ('0' <= c <= '9')
    || c == '_' || c == '.' || c == '-' || c == '~' || c == '/'
  }

  function HexDigit(d: int): (c: char)
    requires 0 <= d < 16
    ensures IsSafe(c)
  {
    "0123456789ABCDEF"[d]
  }

  predicate IsHex(c: char) {
    ('0' <= c <= '9') || ('A' <= c <= 'F') || ('a' <= c <= 'f')
  }

  function HexValue(c: char): (d: int)
    requires IsHex(c)
    ensures 0 <= d < 16
  {
    if '0' <= c <= '9' then c as int - '0' as int
    else if 'A' <= c <= 'F' then c as int - 'A' as int + 10
    else c as int - 'a' as int + 10
  }

  /** One byte as `quote_from_bytes` writes it. */
  function QuoteByte(b: Byte): string
  {
    if IsSafe(b as char) then [b as char] else ['%', HexDigit(b / 16), HexDigit(b % 16)]
  }

  /** `quote_from_bytes(bs, safe='/')`. */
  function QuoteBytes(bs: seq<Byte>): string
  {
    if bs == [] then "" else QuoteByte(bs[0]) + QuoteBytes(bs[1..])
  }

  /** `urllib.parse.quote(text)`. */
  function Quote(text: string): string
  {
    QuoteBytes(Utf8(text))
  }

  /** Percent-decoding per RFC 3986 section 2.1: `%` and two hexadecimal
      digits stand for one octet, any other ASCII character for itself. */
  function PercentDecode(s: string): Option<seq<Byte>>
  {
    if s == [] then Some([])
    else if s[0] == '%' then
      if |s| >= 3 && IsHex(s[1]) && IsHex(s[2]) then
        var rest :- PercentDecode(s[3..]);
        Some([HexValue(s[1]) * 16 + HexValue(s[2])] + rest)
      else None
    else if s[0] as int < 0x80 then
      var rest :- PercentDecode(s[1..]);
      Some([s[0] as int] + rest)
    else None
  }

  lemma HexDigitValue(d: int)
    requires 0 <= d < 16
    ensures IsHex(HexDigit(d)) && HexValue(HexDigit(d)) == d
  {
  }

  lemma DecodeQuotedByte(b: Byte, rest: string)
    ensures PercentDecode(QuoteByte(b) + rest) ==
              match PercentDecode(rest)
              case Some(bs) => Some([b] + bs)
              case None => None
  {
    var s := QuoteByte(b) + rest;
    if IsSafe(b as char) {
      assert s[1..] == rest;
    } else {
      HexDigitValue(b / 16);
      HexDigitValue(b % 16);
      assert s[3..] == rest;
    }
  }

  /** Percent-decoding undoes `quote_from_bytes`. */
  lemma {:induction false} PercentRoundTrip(bs: seq<Byte>)
    ensures PercentDecode(QuoteBytes(bs)) == Some(bs)
  {
    if bs != [] {
      DecodeQuotedByte(bs[0], QuoteBytes(bs[1..]));
      PercentRoundTrip(bs[1..]);
      assert [bs[0]] + bs[1..] == bs;
    }
  }

  /** `quote` loses nothing: its output decodes back to the text. */
  lemma QuoteRoundTrip(text: string)
    ensures match PercentDecode(Quote(text))
            case Some(bs) => Utf8Decode(bs) == Some(text)
            case None => false
  {
    PercentRoundTrip(Utf8(text));
    Utf8RoundTrip(text);
  }

  /** Distinct texts quote differently. */
  lemma QuoteInjective(a: string, b: string)
    requires Quote(a) == Quote(b)
    ensures a == b
  {
    QuoteRoundTrip(a);
    QuoteRoundTrip(b);
  }

  /** Every character `quote` writes is a safe character or `%`; in particular
      none of the query delimiters `&`, `=`, `#` or `?` ever appears. */
  lemma {:induction false} QuoteBytesAlphabet(bs: seq<Byte>)
    ensures forall k :: 0 <= k < |QuoteBytes(bs)| ==> IsSafe(QuoteBytes(bs)[k]) || QuoteBytes(bs)[k] == '%'
  {
    if bs != [] {
      QuoteBytesAlphabet(bs[1..]);
      var q := QuoteByte(bs[0]);
      var t := QuoteBytes(bs[1..]);
      assert forall k :: |q| <= k < |q| + |t| ==> (q + t)[k] == t[k - |q|];
    }
  }

  lemma QuoteAlphabet(text: string)
    ensures forall k :: 0 <= k < |Quote(text)| ==> IsSafe(Quote(text)[k]) || Quote(text)[k] == '%'
  {
    QuoteBytesAlphabet(Utf8(text));
  }

  /** A text made only of safe characters is returned unchanged. */
  lemma {:induction false} QuoteOfSafe(text: string)
    requires forall k :: 0 <= k < |text| ==> IsSafe(text[k])
    ensures Quote(text) == text
  {
    if text != [] {
      QuoteOfSafe(text[1..]);
      assert Utf8(text) == [text[0] as int] + Utf8(text[1..]);
      assert Utf8(text)[1..] == Utf8(text[1..]);
      assert [text[0]] + text[1..] == text;
    }
  }
}
