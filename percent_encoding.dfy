/**
 * `urllib.parse.quote(s)` with its default `safe='/'`: the percent-encoding
 * of section 2.1 of RFC 3986.  A character is kept when it is unreserved
 * (section 2.3 of RFC 3986: letters, digits, `-`, `.`, `_`, `~`) or `/`;
 * every other character is encoded in UTF-8 and each byte written as `%`
 * followed by two upper-case hexadecimal digits.
 */
module PercentEncoding {
  import opened Results

  type Byte = x: int | 0 <= x < 256

  /** Unreserved characters of section 2.3 of RFC 3986. */
  predicate IsUnreserved(c: char)
  {
    ('A' <= c <= 'Z') || ('a' <= c <= 'z') || ('0' <= c <= '9')
    || c == '-' || c == '.' || c == '_' || c == '~'
  }

  /** The characters `quote` leaves as they are. */
  predicate KeptByQuote(c: char)
  {
    IsUnreserved(c) || c == '/'
  }

  /** UTF-8 encoding of one Unicode scalar value. */
  function Utf8Char(c: char): (bs: seq<Byte>)
    ensures 1 <= |bs| <= 4
    ensures |bs| == 1 <==> c as int < 0x80
    ensures |bs| == 1 ==> bs[0] == c as int
  {
    var n := c as int;
    if n < 0x80 then [n]
    else if n < 0x800 then [0xC0 + n / 64, 0x80 + n % 64]
    else if n < 0x10000 then [0xE0 + n / 4096, 0x80 + (n / 64) % 64, 0x80 + n % 64]
    else [0xF0 + n / 262144, 0x80 + (n / 4096) % 64, 0x80 + (n / 64) % 64, 0x80 + n % 64]
  }

  /** UTF-8 encoding of a string. */
  function Utf8(s: string): seq<Byte>
  {
    if s == [] then [] else Utf8Char(s[0]) + Utf8(s[1..])
  }

  function HexDigit(d: nat): (c: char)
    requires d < 16
    ensures c == '%' ==> false
  {
    if d < 10 then ('0' as int + d) as char else ('A' as int + d - 10) as char
  }

  function HexValue(c: char): (r: Option<nat>)
    ensures r.Some? ==> r.value < 16
  {
    if '0' <= c <= '9' then Some(c as int - '0' as int)
    else if 'A' <= c <= 'F' then Some(c as int - 'A' as int + 10)
    else if 'a' <= c <= 'f' then Some(c as int - 'a' as int + 10)
    else None
  }

  /** `%XX` for one byte. */
  function EscapeByte(b: Byte): (r: string)
    ensures |r| == 3 && r[0] == '%' && IsUnreserved(r[1]) && IsUnreserved(r[2])
  {
    ['%', HexDigit(b / 16), HexDigit(b % 16)]
  }

  function EscapeBytes(bs: seq<Byte>): (r: string)
    ensures forall i :: 0 <= i < |r| ==> KeptByQuote(r[i]) || r[i] == '%'
  {
    if bs == [] then "" else EscapeByte(bs[0]) + EscapeBytes(bs[1..])
  }

  function QuoteChar(c: char): string
  {
    if KeptByQuote(c) then [c] else EscapeBytes(Utf8Char(c))
  }

  /**
   * `quote(s)`.  Every character of the result is one `quote` keeps or the
   * escape character `%`; in particular no `:`, `@`, `?`, `&` or `#` can
   * appear, so the result cannot end a URL's user-information part.
   */
  function Quote(s: string): (r: string)
    ensures forall i :: 0 <= i < |r| ==> KeptByQuote(r[i]) || r[i] == '%'
  {
    if s == [] then ""
    else
      var head := QuoteChar(s[0]);
      assert forall i :: 0 <= i < |head| ==> KeptByQuote(head[i]) || head[i] == '%';
      head + Quote(s[1..])
  }

  /** `Some(bs + rest)` when `o` is `Some(rest)`. */
  function Prepend(bs: seq<Byte>, o: Option<seq<Byte>>): Option<seq<Byte>>
  {
    match o
    case Some(rest) => Some(bs + rest)
    case None => None
  }

  /** Reading percent-encoded text back into bytes; `None` when it is malformed. */
  function PercentDecode(t: string): Option<seq<Byte>>
  {
    if t == [] then Some([])
    else if t[0] == '%' then
      if |t| < 3 || HexValue(t[1]).None? || HexValue(t[2]).None? then None
      else Prepend([HexValue(t[1]).value * 16 + HexValue(t[2]).value], PercentDecode(t[3..]))
    else if t[0] as int < 0x80 then Prepend([t[0] as int], PercentDecode(t[1..]))
    else None
  }

  lemma PrependPrepend(a: seq<Byte>, b: seq<Byte>, o: Option<seq<Byte>>)
    ensures Prepend(a, Prepend(b, o)) == Prepend(a + b, o)
  {
    if o.Some? {
      assert a + (b + o.value) == (a + b) + o.value;
    }
  }

  lemma PrependEmpty(o: Option<seq<Byte>>)
    ensures Prepend([], o) == o
  {
    if o.Some? {
      assert [] + o.value == o.value;
    }
  }

  lemma HexRoundTrip(d: nat)
    requires d < 16
    ensures HexValue(HexDigit(d)) == Some(d)
  {
  }

  lemma {:induction false} DecodeEscapedBytes(bs: seq<Byte>, rest: string)
    ensures PercentDecode(EscapeBytes(bs) + rest) == Prepend(bs, PercentDecode(rest))
  {
    if bs != [] {
      var b := bs[0];
      DecodeEscapedBytes(bs[1..], rest);
      HexRoundTrip(b / 16);
      HexRoundTrip(b % 16);
      var t := EscapeBytes(bs) + rest;
      assert t == EscapeByte(b) + (EscapeBytes(bs[1..]) + rest);
      assert t[3..] == EscapeBytes(bs[1..]) + rest;
      assert t[0] == '%' && t[1] == HexDigit(b / 16) && t[2] == HexDigit(b % 16);
      assert (b / 16) * 16 + b % 16 == b;
      assert PercentDecode(t) == Prepend([b], PercentDecode(t[3..]));
      assert PercentDecode(t[3..]) == Prepend(bs[1..], PercentDecode(rest));
      PrependPrepend([b], bs[1..], PercentDecode(rest));
      assert bs == [b] + bs[1..];
    } else {
      assert EscapeBytes(bs) + rest == rest;
      PrependEmpty(PercentDecode(rest));
    }
  }

  lemma {:induction false} DecodeQuoteChar(c: char, rest: string)
    ensures PercentDecode(QuoteChar(c) + rest) == Prepend(Utf8Char(c), PercentDecode(rest))
  {
    if KeptByQuote(c) {
      assert ([c] + rest)[1..] == rest;
    } else {
      DecodeEscapedBytes(Utf8Char(c), rest);
    }
  }

  /**
   * Decoding a quoted string yields exactly the UTF-8 bytes of the input, so
   * `quote` loses nothing: two passwords with the same encoding are equal as
   * byte strings.
   */
  lemma {:induction false} DecodeQuote(s: string)
    ensures PercentDecode(Quote(s)) == Some(Utf8(s))
  {
    if s != [] {
      DecodeQuote(s[1..]);
      DecodeQuoteChar(s[0], Quote(s[1..]));
    }
  }

  /** A string made only of characters `quote` keeps is returned unchanged. */
  lemma {:induction false} QuoteKeepsSafeText(s: string)
    requires forall i :: 0 <= i < |s| ==> KeptByQuote(s[i])
    ensures Quote(s) == s
  {
    if s != [] {
      QuoteKeepsSafeText(s[1..]);
      assert s == [s[0]] + s[1..];
    }
  }

  /** `/` survives quoting: it is in the output exactly when it is in the input. */
  lemma {:induction false} QuoteKeepsSlash(s: string)
    ensures '/' in Quote(s) <==> '/' in s
  {
    if s != [] {
      QuoteKeepsSlash(s[1..]);
      var head := QuoteChar(s[0]);
      if !KeptByQuote(s[0]) {
        assert forall i :: 0 <= i < |head| ==> head[i] != '/' by {
          assert forall i :: 0 <= i < |head| ==> KeptByQuote(head[i]) || head[i] == '%';
          EscapeBytesNoSlash(Utf8Char(s[0]));
        }
      }
      assert Quote(s) == head + Quote(s[1..]);
      assert s == [s[0]] + s[1..];
    }
  }

  lemma {:induction false} EscapeBytesNoSlash(bs: seq<Byte>)
    ensures '/' !in EscapeBytes(bs)
  {
    if bs != [] {
      EscapeBytesNoSlash(bs[1..]);
    }
  }
}
