/** Percent-encoding of a search query the way `urllib.parse.quote(s)` does it
    with its default `safe='/'`: the text is encoded as UTF-8 (RFC 3629) and
    every byte outside the unreserved set of section 2.3 of RFC 3986 and "/"
    becomes "%" and two upper-case hexadecimal digits (section 2.1 of RFC
    3986). `Unquote`, the counterpart of `urllib.parse.unquote`, is the
    partner that recovers the text. */
module PercentEncoding {

  newtype byte = x: int | 0 <= x < 256

  // ---------------------------------------------------------------------
  // UTF-8

  /** The UTF-8 bytes of one Unicode scalar value. */
  function Utf8Char(c: char): (bs: seq<byte>)
    ensures 1 <= |bs| <= 4
    ensures (|bs| == 1) <==> (c as int < 0x80)
    ensures bs[0] as int == c as int || 0x80 <= bs[0] as int
  {
    var n := c as int;
    if n < 0x80 then [n as byte]
    else if n < 0x800 then [(0xC0 + n / 64) as byte, (0x80 + n % 64) as byte]
    else if n < 0x1_0000 then
      [(0xE0 + n / 4096) as byte, (0x80 + n / 64 % 64) as byte, (0x80 + n % 64) as byte]
    else
      [(0xF0 + n / 262144) as byte, (0x80 + n / 4096 % 64) as byte,
       (0x80 + n / 64 % 64) as byte, (0x80 + n % 64) as byte]
  }

  /** `s.encode("utf-8")` */
  function Utf8(s: string): seq<byte> {
    if s == [] then [] else Utf8Char(s[0]) + Utf8(s[1..])
  }

  predicate IsContinuation(b: byte) {
    0x80 <= b < 0xC0
  }

  predicate IsScalarValue(n: int) {
    (0 <= n < 0xD800) || (0xE000 <= n < 0x11_0000)
  }

  /** Decodes the character at the front of `bs`, with the number of bytes
      it takes; `None` for a byte sequence that is not UTF-8 (a stray or
      missing continuation byte, an over-long form, a surrogate, a value past
      U+10FFFF). */
  function DecodeChar(bs: seq<byte>): Option<(char, nat)>
    requires bs != []
  {
    var b0 := bs[0] as int;
    if b0 < 0x80 then Some((b0 as char, 1))
    else if 0xC2 <= b0 < 0xE0 && 2 <= |bs| && IsContinuation(bs[1]) then
      Some((((b0 - 0xC0) * 64 + (bs[1] as int - 0x80)) as char, 2))
    else if 0xE0 <= b0 < 0xF0 && 3 <= |bs| && IsContinuation(bs[1]) && IsContinuation(bs[2]) then
      var n := (b0 - 0xE0) * 4096 + (bs[1] as int - 0x80) * 64 + (bs[2] as int - 0x80);
      if 0x800 <= n && IsScalarValue(n) then Some((n as char, 3)) else None
    else if 0xF0 <= b0 < 0xF5 && 4 <= |bs| && IsContinuation(bs[1]) && IsContinuation(bs[2])
            && IsContinuation(bs[3]) then
      var n := (b0 - 0xF0) * 262144 + (bs[1] as int - 0x80) * 4096
               + (bs[2] as int - 0x80) * 64 + (bs[3] as int - 0x80);
      if 0x1_0000 <= n < 0x11_0000 then Some((n as char, 4)) else None
    else None
  }

  /** `bs.decode("utf-8")`, or `None` where Python would raise. */
  function Utf8Decode(bs: seq<byte>): Option<string>
    decreases |bs|
  {
    if bs == [] then Some([])
    else match DecodeChar(bs)
      case None => None
      case Some((c, k)) =>
        if k <= |bs| then
          match Utf8Decode(bs[k..])
          case None => None
          case Some(rest) => Some([c] + rest)
        else None
  }

  lemma DecodeEncodedChar(c: char, rest: seq<byte>)
    ensures DecodeChar(Utf8Char(c) + rest) == Some((c, |Utf8Char(c)|))
  {
    var n := c as int;
    if n < 0x80 {
    } else if n < 0x800 {
      DecodeTwoBytes(c, rest);
    } else if n < 0x1_0000 {
      DecodeThreeBytes(c, rest);
    } else {
      DecodeFourBytes(c, rest);
    }
  }

  lemma DecodeTwoBytes(c: char, rest: seq<byte>)
    requires 0x80 <= c as int < 0x800
    ensures DecodeChar(Utf8Char(c) + rest) == Some((c, 2))
  {
    var n := c as int;
    var bs := Utf8Char(c) + rest;
    var hi, lo := n / 64, n % 64;
    assert n == hi * 64 + lo;
    assert bs[0] as int == 0xC0 + hi && bs[1] as int == 0x80 + lo;
  }

  lemma DecodeThreeBytes(c: char, rest: seq<byte>)
    requires 0x800 <= c as int < 0x1_0000
    ensures DecodeChar(Utf8Char(c) + rest) == Some((c, 3))
  {
    var n := c as int;
    var bs := Utf8Char(c) + rest;
    var hi, mid, lo := n / 4096, n / 64 % 64, n % 64;
    assert n / 64 == hi * 64 + mid;
    assert n == hi * 4096 + mid * 64 + lo;
    assert bs[0] as int == 0xE0 + hi && bs[1] as int == 0x80 + mid && bs[2] as int == 0x80 + lo;
  }

  lemma DecodeFourBytes(c: char, rest: seq<byte>)
    requires 0x1_0000 <= c as int
    ensures DecodeChar(Utf8Char(c) + rest) == Some((c, 4))
  {
    var n := c as int;
    var bs := Utf8Char(c) + rest;
    var top, hi, mid, lo := n / 262144, n / 4096 % 64, n / 64 % 64, n % 64;
    assert n / 4096 == top * 64 + hi;
    assert n / 64 == (top * 64 + hi) * 64 + mid;
    assert n == top * 262144 + hi * 4096 + mid * 64 + lo;
    assert bs[0] as int == 0xF0 + top && bs[1] as int == 0x80 + hi
        && bs[2] as int == 0x80 + mid && bs[3] as int == 0x80 + lo;
  }

  /** Decoding undoes encoding. */
  lemma {:induction false} Utf8RoundTrip(s: string)
    ensures Utf8Decode(Utf8(s)) == Some(s)
    decreases |s|
  {
    if s != [] {
      var bs := Utf8(s);
      DecodeEncodedChar(s[0], Utf8(s[1..]));
      assert bs[|Utf8Char(s[0])|..] == Utf8(s[1..]);
      Utf8RoundTrip(s[1..]);
      assert [s[0]] + s[1..] == s;
    }
  }

  // ---------------------------------------------------------------------
  // Percent-encoding

  /** The bytes `quote` never escapes with `safe='/'`: ASCII letters and
      digits, "_.-~" and "/". */
  predicate IsSafeByte(b: byte) {
    ('A' as byte <= b <= 'Z' as byte) || ('a' as byte <= b <= 'z' as byte)
    || ('0' as byte <= b <= '9' as byte)
    || b == '_' as byte || b == '.' as byte || b == '-' as byte || b == '~' as byte
    || b == '/' as byte
  }

  predicate IsSafeChar(c: char) {
    c as int < 0x80 && IsSafeByte(c as int as byte)
  }

  const HexDigits: string := "0123456789ABCDEF"

  /** The characters a quoted text can contain. */
  predicate IsQuotedChar(c: char) {
    IsSafeChar(c) || c == '%' || c in HexDigits
  }

  /** Every "%" of `r` starts an escape: two upper-case hexadecimal digits
      follow it. */
  predicate WellEscaped(r: string) {
    forall k :: 0 <= k < |r| && r[k] == '%' ==> k + 2 < |r| && r[k + 1] in HexDigits && r[k + 2] in HexDigits
  }

  /** One byte as `quote` writes it: a safe byte as its own character, any
      other as "%" and the two upper-case hexadecimal digits of its value. */
  function QuoteByte(b: byte): (r: string)
    ensures forall k :: 0 <= k < |r| ==> IsQuotedChar(r[k])
    ensures IsSafeByte(b) ==> |r| == 1 && r[0] as int == b as int && r[0] != '%'
    ensures !IsSafeByte(b) ==>
      |r| == 3 && r[0] == '%' && r[1] in HexDigits && r[2] in HexDigits
      && IsHexDigit(r[1]) && IsHexDigit(r[2]) && HexValue(r[1]) * 16 + HexValue(r[2]) == b as int
  {
    if IsSafeByte(b) then [b as int as char]
    else
      HexDigitsRoundTrip(b as int / 16);
      HexDigitsRoundTrip(b as int % 16);
      ['%', HexDigits[b / 16], HexDigits[b % 16]]
  }

  /** `urllib.parse.quote_from_bytes(bs, safe='/')` */
  function QuoteBytes(bs: seq<byte>): (r: string)
    ensures forall k :: 0 <= k < |r| ==> IsQuotedChar(r[k])
    ensures WellEscaped(r)
  {
    if bs == [] then []
    else
      var head, rest := QuoteByte(bs[0]), QuoteBytes(bs[1..]);
      QuoteByteEscaped(bs[0]);
      EscapedConcat(head, rest);
      head + rest
  }

  lemma QuoteByteEscaped(b: byte)
    ensures WellEscaped(QuoteByte(b))
  {
  }

  /** Texts whose escapes are complete can be joined without breaking one. */
  lemma EscapedConcat(a: string, b: string)
    requires WellEscaped(a) && WellEscaped(b)
    ensures WellEscaped(a + b)
  {
    forall k | 0 <= k < |a + b| && (a + b)[k] == '%'
      ensures k + 2 < |a + b| && (a + b)[k + 1] in HexDigits && (a + b)[k + 2] in HexDigits
    {
      if k < |a| {
        assert a[k] == '%';
      } else {
        assert b[k - |a|] == '%';
      }
    }
  }

  /** `urllib.parse.quote(s)`: never produces a space, and every "%" in it
      starts an escape of two upper-case hexadecimal digits. */
  function Quote(s: string): (r: string)
    ensures forall k :: 0 <= k < |r| ==> IsQuotedChar(r[k]) && r[k] != ' '
    ensures WellEscaped(r)
  {
    QuoteBytes(Utf8(s))
  }

  predicate IsHexDigit(c: char) {
    ('0' <= c <= '9') || ('A' <= c <= 'F') || ('a' <= c <= 'f')
  }

  function HexValue(c: char): (v: nat)
    requires IsHexDigit(c)
    ensures v < 16
  {
    if '0' <= c <= '9' then c as int - '0' as int
    else if 'A' <= c <= 'F' then c as int - 'A' as int + 10
    else c as int - 'a' as int + 10
  }

  /** `urllib.parse.unquote_to_bytes(s)`: "%" and two hexadecimal digits of
      either case give one byte; every other character gives its UTF-8
      bytes, a "%" that does not start an escape included. */
  function PercentDecode(s: string): seq<byte> {
    if s == [] then []
    else if s[0] == '%' && 3 <= |s| && IsHexDigit(s[1]) && IsHexDigit(s[2]) then
      [(HexValue(s[1]) * 16 + HexValue(s[2])) as byte] + PercentDecode(s[3..])
    else Utf8Char(s[0]) + PercentDecode(s[1..])
  }

  /** `urllib.parse.unquote(s)`, with `None` where Python would substitute
      U+FFFD for bytes that are not UTF-8. */
  function Unquote(s: string): Option<string> {
    Utf8Decode(PercentDecode(s))
  }

  lemma HexDigitsRoundTrip(d: nat)
    requires d < 16
    ensures IsHexDigit(HexDigits[d]) && HexValue(HexDigits[d]) == d
  {
  }

  lemma {:induction false} PercentDecodeQuoted(bs: seq<byte>)
    ensures PercentDecode(QuoteBytes(bs)) == bs
    decreases |bs|
  {
    if bs != [] {
      QuoteByteDecoded(bs[0], QuoteBytes(bs[1..]));
      PercentDecodeQuoted(bs[1..]);
      assert [bs[0]] + bs[1..] == bs;
    }
  }

  /** Decoding reads one quoted byte back, whatever follows it. */
  lemma QuoteByteDecoded(b: byte, rest: string)
    ensures PercentDecode(QuoteByte(b) + rest) == [b] + PercentDecode(rest)
  {
    if IsSafeByte(b) {
      SafeByteDecoded(b, rest);
    } else {
      EscapedByteDecoded(b, rest);
    }
  }

  lemma SafeByteDecoded(b: byte, rest: string)
    requires IsSafeByte(b)
    ensures PercentDecode(QuoteByte(b) + rest) == [b] + PercentDecode(rest)
  {
    var s := QuoteByte(b) + rest;
    assert s[0] == b as int as char && s[1..] == rest;
  }

  lemma EscapedByteDecoded(b: byte, rest: string)
    requires !IsSafeByte(b)
    ensures PercentDecode(QuoteByte(b) + rest) == [b] + PercentDecode(rest)
  {
    var hi, lo := b as int / 16, b as int % 16;
    var c1, c2 := HexDigits[hi], HexDigits[lo];
    assert QuoteByte(b) + rest == ['%', c1, c2] + rest;
    HexDigitsRoundTrip(hi);
    HexDigitsRoundTrip(lo);
    EscapeDecoded(c1, c2, rest);
    assert (HexValue(c1) * 16 + HexValue(c2)) as byte == b;
  }

  /** An escape at the front gives its byte, whatever follows it. */
  lemma EscapeDecoded(c1: char, c2: char, rest: string)
    requires IsHexDigit(c1) && IsHexDigit(c2)
    ensures PercentDecode(['%', c1, c2] + rest)
      == [(HexValue(c1) * 16 + HexValue(c2)) as byte] + PercentDecode(rest)
  {
    var s := ['%', c1, c2] + rest;
    assert s[0] == '%' && s[1] == c1 && s[2] == c2 && s[3..] == rest;
  }

  /** Unquoting the quoted text gives the text back, so the search URL
      carries the query without loss. */
  lemma QuoteRoundTrip(s: string)
    ensures Unquote(Quote(s)) == Some(s)
  {
    PercentDecodeQuoted(Utf8(s));
    Utf8RoundTrip(s);
  }

  lemma {:induction false} QuoteConcat(a: seq<byte>, b: seq<byte>)
    ensures QuoteBytes(a + b) == QuoteBytes(a) + QuoteBytes(b)
    decreases |a|
  {
    if a != [] {
      assert (a + b)[1..] == a[1..] + b;
      QuoteConcat(a[1..], b);
    } else {
      assert a + b == b;
    }
  }

  lemma {:induction false} Utf8Concat(a: string, b: string)
    ensures Utf8(a + b) == Utf8(a) + Utf8(b)
    decreases |a|
  {
    if a == [] {
      assert a + b == b;
    } else {
      assert (a + b)[0] == a[0] && (a + b)[1..] == a[1..] + b;
      Utf8Concat(a[1..], b);
    }
  }

  /** Texts are quoted piece by piece. */
  lemma QuoteAppend(a: string, b: string)
    ensures Quote(a + b) == Quote(a) + Quote(b)
  {
    Utf8Concat(a, b);
    QuoteConcat(Utf8(a), Utf8(b));
  }

  /** `quote` leaves a text unchanged exactly when every character of it is
      safe. */
  lemma {:induction false} QuoteUnchangedIff(s: string)
    ensures Quote(s) == s <==> forall k :: 0 <= k < |s| ==> IsSafeChar(s[k])
    decreases |s|
  {
    if s != [] {
      QuoteFirstChar(s);
      QuoteUnchangedIff(s[1..]);
      AllSafeFirstChar(s);
      if IsSafeChar(s[0]) {
        SafeCharQuoted(s[0]);
        KeepFirstIff(s[0], Quote(s[1..]), s[1..]);
      } else {
        UnsafeCharQuoted(s[0]);
        QuoteLength(s[1..]);
      }
    }
  }

  /** The quoted text is the quoted first character followed by the quoted
      rest. */
  lemma QuoteFirstChar(s: string)
    requires s != []
    ensures Quote(s) == QuoteBytes(Utf8Char(s[0])) + Quote(s[1..])
  {
    QuoteConcat(Utf8Char(s[0]), Utf8(s[1..]));
  }

  lemma SafeCharQuoted(c: char)
    requires IsSafeChar(c)
    ensures QuoteBytes(Utf8Char(c)) == [c]
  {
  }

  lemma UnsafeCharQuoted(c: char)
    requires !IsSafeChar(c)
    ensures |QuoteBytes(Utf8Char(c))| >= 3
  {
    assert QuoteBytes(Utf8Char(c)) == QuoteByte(Utf8Char(c)[0]) + QuoteBytes(Utf8Char(c)[1..]);
  }

  lemma AllSafeFirstChar(s: string)
    requires s != []
    ensures (forall k :: 0 <= k < |s| ==> IsSafeChar(s[k]))
      <==> IsSafeChar(s[0]) && forall k :: 0 <= k < |s[1..]| ==> IsSafeChar(s[1..][k])
  {
    forall k | 0 <= k < |s[1..]| ensures s[1..][k] == s[k + 1] { }
    if IsSafeChar(s[0]) && forall k :: 0 <= k < |s[1..]| ==> IsSafeChar(s[1..][k]) {
      forall k | 0 < k < |s| ensures IsSafeChar(s[k]) {
        assert s[k] == s[1..][k - 1];
      }
    }
  }

  lemma KeepFirstIff(c: char, x: string, y: string)
    ensures [c] + x == [c] + y <==> x == y
  {
    if [c] + x == [c] + y {
      assert ([c] + x)[1..] == x && ([c] + y)[1..] == y;
    }
  }

  /** A quoted text is never shorter than the text. */
  lemma {:induction false} QuoteLength(s: string)
    ensures |Quote(s)| >= |s|
    decreases |s|
  {
    if s != [] {
      QuoteFirstChar(s);
      QuoteCharNonEmpty(s[0]);
      QuoteLength(s[1..]);
    }
  }

  lemma QuoteCharNonEmpty(c: char)
    ensures |QuoteBytes(Utf8Char(c))| >= 1
  {
    assert QuoteBytes(Utf8Char(c)) == QuoteByte(Utf8Char(c)[0]) + QuoteBytes(Utf8Char(c)[1..]);
  }

  datatype Option<+T> = None | Some(value: T)
}
