/**
 * `urllib.parse.quote(name)` as the magnet builder calls it (safe="/"):
 * the name is encoded as UTF-8 (RFC 3629) and every byte that is not an
 * unreserved character (section 2.3 of RFC 3986) or "/" becomes a
 * percent-encoded octet "%XX" with upper-case hex digits (section 2.1 of
 * RFC 3986). `Unquote` is the inverse a reader of the link applies.
 */
module UrlQuote {
  import opened Wrappers

  type byte = x: int | 0 <= x < 256

  // ---------------------------------------------------------------------
  // UTF-8
  // ---------------------------------------------------------------------

  /** The UTF-8 encoding of one Unicode scalar value. */
  function Utf8Char(c: char): (bs: seq<byte>)
    ensures 1 <= |bs| <= 4
  {
    var n := c as int;
    var n1 := n / 64;
    var n2 := n1 / 64;
    var n3 := n2 / 64;
    if n < 0x80 then [n]
    else if n < 0x800 then [0xC0 + n1, 0x80 + n % 64]
    else if n < 0x10000 then [0xE0 + n2, 0x80 + n1 % 64, 0x80 + n % 64]
    else [0xF0 + n3, 0x80 + n2 % 64, 0x80 + n1 % 64, 0x80 + n % 64]
  }

  /** `s.encode("utf-8")`. */
  function Utf8(s: string): seq<byte> {
    if s == [] then [] else Utf8Char(s[0]) + Utf8(s[1..])
  }

  predicate IsContinuation(b: byte) {
    0x80 <= b < 0xC0
  }

  predicate IsScalar(v: int) {
    0 <= v < 0xD800 || 0xE000 <= v < 0x110000
  }

  /** The scalar value at the front of `bs` and the number of bytes it takes; None when ill-formed. */
  function DecodeOne(bs: seq<byte>): (r: Option<(char, nat)>)
    requires bs != []
    ensures r.Some? ==> 1 <= r.value.1 <= |bs|
  {
    var b0: int := bs[0];
    var b1: int := if |bs| >= 2 then bs[1] else 0;
    var b2: int := if |bs| >= 3 then bs[2] else 0;
    var b3: int := if |bs| >= 4 then bs[3] else 0;
    if b0 < 0x80 then Some((b0 as char, 1))
    else if 0xC0 <= b0 < 0xE0 && |bs| >= 2 && IsContinuation(bs[1]) then
      var v := (b0 - 0xC0) * 64 + (b1 - 0x80);
      if v >= 0x80 then Some((v as char, 2)) else None
    else if 0xE0 <= b0 < 0xF0 && |bs| >= 3 && IsContinuation(bs[1]) && IsContinuation(bs[2]) then
      var v := ((b0 - 0xE0) * 64 + (b1 - 0x80)) * 64 + (b2 - 0x80);
      if v >= 0x800 && IsScalar(v) then Some((v as char, 3)) else None
    else if 0xF0 <= b0 < 0xF8 && |bs| >= 4 && IsContinuation(bs[1]) && IsContinuation(bs[2])
      && IsContinuation(bs[3]) then
      var v := (((b0 - 0xF0) * 64 + (b1 - 0x80)) * 64 + (b2 - 0x80)) * 64 + (b3 - 0x80);
      if 0x10000 <= v < 0x110000 then Some((v as char, 4)) else None
    else None
  }

  /** `bs.decode("utf-8")` in strict mode; None where Python raises UnicodeDecodeError. */
  function Utf8Decode(bs: seq<byte>): Option<string>
    decreases |bs|
  {
    if bs == [] then Some("")
    else match DecodeOne(bs)
      case None => None
      case Some((c, k)) =>
        match Utf8Decode(bs[k..])
        case None => None
        case Some(rest) => Some([c] + rest)
  }

  lemma DecodeOneOfUtf8Char(c: char, rest: seq<byte>)
    ensures DecodeOne(Utf8Char(c) + rest) == Some((c, |Utf8Char(c)|))
  {
    var n := c as int;
    if n < 0x80 {
    } else if n < 0x800 {
      DecodeTwoBytes(c, rest);
    } else if n < 0x10000 {
      DecodeThreeBytes(c, rest);
    } else {
      DecodeFourBytes(c, rest);
    }
  }

  lemma DecodeTwoBytes(c: char, rest: seq<byte>)
    requires 0x80 <= c as int < 0x800
    ensures DecodeOne(Utf8Char(c) + rest) == Some((c, 2))
  {
    var n := c as int;
    var n1 := n / 64;
    var bs := Utf8Char(c) + rest;
    assert bs[0] == 0xC0 + n1 && bs[1] == 0x80 + n % 64;
    assert IsContinuation(bs[1]);
    assert n == n1 * 64 + n % 64;
  }

  lemma DecodeThreeBytes(c: char, rest: seq<byte>)
    requires 0x800 <= c as int < 0x10000
    ensures DecodeOne(Utf8Char(c) + rest) == Some((c, 3))
  {
    var n := c as int;
    var n1 := n / 64;
    var n2 := n1 / 64;
    var bs := Utf8Char(c) + rest;
    assert bs[0] == 0xE0 + n2 && bs[1] == 0x80 + n1 % 64 && bs[2] == 0x80 + n % 64;
    assert IsContinuation(bs[1]) && IsContinuation(bs[2]);
    DecodeThree(n, n1, n2);
  }

  lemma DecodeFourBytes(c: char, rest: seq<byte>)
    requires 0x10000 <= c as int
    ensures DecodeOne(Utf8Char(c) + rest) == Some((c, 4))
  {
    var n := c as int;
    var n1 := n / 64;
    var n2 := n1 / 64;
    var n3 := n2 / 64;
    var bs := Utf8Char(c) + rest;
    assert bs[0] == 0xF0 + n3 && bs[1] == 0x80 + n2 % 64 && bs[2] == 0x80 + n1 % 64 && bs[3] == 0x80 + n % 64;
    assert IsContinuation(bs[1]) && IsContinuation(bs[2]) && IsContinuation(bs[3]);
    DecodeFour(n, n1, n2, n3);
  }

  lemma DecodeThree(n: int, n1: int, n2: int)
    requires 0 <= n && n1 == n / 64 && n2 == n1 / 64
    ensures ((n2 * 64) + (n1 % 64)) * 64 + (n % 64) == n
  {
    assert n == n1 * 64 + n % 64;
    assert n1 == n2 * 64 + n1 % 64;
  }

  lemma DecodeFour(n: int, n1: int, n2: int, n3: int)
    requires 0 <= n && n1 == n / 64 && n2 == n1 / 64 && n3 == n2 / 64
    ensures (((n3 * 64) + (n2 % 64)) * 64 + (n1 % 64)) * 64 + (n % 64) == n
  {
    assert n == n1 * 64 + n % 64;
    assert n1 == n2 * 64 + n1 % 64;
    assert n2 == n3 * 64 + n2 % 64;
  }

  /** Decoding the UTF-8 encoding of a string gives the string back. */
  lemma {:induction false} Utf8RoundTrip(s: string)
    ensures Utf8Decode(Utf8(s)) == Some(s)
  {
    if s != [] {
      var head, rest := Utf8Char(s[0]), Utf8(s[1..]);
      DecodeOneOfUtf8Char(s[0], rest);
      assert (head + rest)[|head|..] == rest;
      Utf8RoundTrip(s[1..]);
      assert s == [s[0]] + s[1..];
    }
  }

  // ---------------------------------------------------------------------
  // Percent-encoding
  // ---------------------------------------------------------------------

  /** The characters `quote` leaves alone: ALPHA, DIGIT, "-", ".", "_", "~", and the safe "/". */
  predicate IsSafe(c: char) {
    'a' <= c <= 'z' || 'A' <= c <= 'Z' || '0' <= c <= '9' || c in "-._~/"
  }

  function HexDigit(d: nat): (c: char)
    requires d < 16
  {
    if d < 10 then ('0' as int + d) as char else ('A' as int + d - 10) as char
  }

  predicate IsHexDigit(c: char) {
    '0' <= c <= '9' || 'A' <= c <= 'F' || 'a' <= c <= 'f'
  }

  function HexValue(c: char): (d: nat)
    requires IsHexDigit(c)
    ensures d < 16
  {
    if c <= '9' then c as int - '0' as int
    else if c <= 'F' then c as int - 'A' as int + 10
    else c as int - 'a' as int + 10
  }

  /** One byte, kept as its character or written as "%XX". */
  function QuoteByte(b: byte): string {
    if b < 0x80 && IsSafe(b as char) then [b as char] else ['%', HexDigit(b / 16), HexDigit(b % 16)]
  }

  function QuoteBytes(bs: seq<byte>): string {
    if bs == [] then "" else QuoteByte(bs[0]) + QuoteBytes(bs[1..])
  }

  /** `urllib.parse.quote(s)`. */
  function Quote(s: string): string {
    QuoteBytes(Utf8(s))
  }

  /** Turns every "%XX" back into its byte; None for a stray "%" or a character outside ASCII. */
  function PercentDecode(t: string): Option<seq<byte>>
    decreases |t|
  {
    if t == [] then Some([])
    else if t[0] == '%' then
      if |t| >= 3 && IsHexDigit(t[1]) && IsHexDigit(t[2]) then
        match PercentDecode(t[3..])
        case None => None
        case Some(rest) => Some([HexValue(t[1]) * 16 + HexValue(t[2])] + rest)
      else None
    else if t[0] as int < 0x80 then
      match PercentDecode(t[1..])
      case None => None
      case Some(rest) => Some([t[0] as int] + rest)
    else None
  }

  /** Reads a quoted string back: percent-decoding, then UTF-8 decoding. */
  function Unquote(t: string): Option<string> {
    match PercentDecode(t)
    case None => None
    case Some(bs) => Utf8Decode(bs)
  }

  lemma PercentDecodeQuoteByte(b: byte, rest: string)
    ensures PercentDecode(QuoteByte(b) + rest) ==
            match PercentDecode(rest)
            case None => None
            case Some(bs) => Some([b] + bs)
  {
    var q := QuoteByte(b);
    if b < 0x80 && IsSafe(b as char) {
      assert (q + rest)[0] == b as char && (q + rest)[1..] == rest;
    } else {
      assert (q + rest)[0] == '%' && (q + rest)[3..] == rest;
      assert HexValue(HexDigit(b / 16)) * 16 + HexValue(HexDigit(b % 16)) == b;
    }
  }

  lemma {:induction false} PercentDecodeQuoteBytes(bs: seq<byte>)
    ensures PercentDecode(QuoteBytes(bs)) == Some(bs)
  {
    if bs != [] {
      PercentDecodeQuoteBytes(bs[1..]);
      PercentDecodeQuoteByte(bs[0], QuoteBytes(bs[1..]));
      assert bs == [bs[0]] + bs[1..];
    }
  }

  /** The dn value of a magnet link decodes to the exact display name it was built from. */
  lemma UnquoteQuote(s: string)
    ensures Unquote(Quote(s)) == Some(s)
  {
    PercentDecodeQuoteBytes(Utf8(s));
    Utf8RoundTrip(s);
  }

  /** What `quote` writes is made only of safe characters and "%": hex digits are safe characters. */
  lemma {:induction false} QuoteBytesAlphabet(bs: seq<byte>)
    ensures forall i :: 0 <= i < |QuoteBytes(bs)| ==> IsSafe(QuoteBytes(bs)[i]) || QuoteBytes(bs)[i] == '%'
  {
    if bs != [] {
      QuoteBytesAlphabet(bs[1..]);
      var q, t := QuoteByte(bs[0]), QuoteBytes(bs[1..]);
      assert QuoteBytes(bs) == q + t;
      forall i | 0 <= i < |q + t|
        ensures IsSafe((q + t)[i]) || (q + t)[i] == '%'
      {
        if i >= |q| {
          assert (q + t)[i] == t[i - |q|];
        }
      }
    }
  }

  /**
   * Every character `quote` writes is a safe one or "%": no reserved
   * character ("&", "=", "#", "?", ...) survives into a query value.
   */
  lemma QuoteAlphabet(s: string)
    ensures forall i :: 0 <= i < |Quote(s)| ==> IsSafe(Quote(s)[i]) || Quote(s)[i] == '%'
  {
    QuoteBytesAlphabet(Utf8(s));
  }

  /** In particular no "&" and no "#", which would end a query parameter or the query. */
  lemma QuoteNoDelimiters(s: string)
    ensures forall i :: 0 <= i < |Quote(s)| ==> Quote(s)[i] != '&' && Quote(s)[i] != '#'
  {
    QuoteAlphabet(s);
    assert !IsSafe('&') && !IsSafe('#');
  }

  /** Characters that are safe are kept as they are: `quote` of plain ASCII text is the identity. */
  lemma {:induction false} QuoteSafe(s: string)
    requires forall i :: 0 <= i < |s| ==> IsSafe(s[i])
    ensures Quote(s) == s
  {
    if s != [] {
      QuoteSafe(s[1..]);
      assert Utf8Char(s[0]) == [s[0] as int];
      assert s == [s[0]] + s[1..];
    }
  }
}
