/**
 * The pieces of Python's string and number built-ins that the normalisers
 * lean on: `str.lower()`, `sub in s`, `str.strip()`, `int(str)`,
 * `float(str)`, `str(int)` and the `.2f` format, all over ASCII.
 */
module PyText {
  import opened Wrappers

  // ---------------------------------------------------------------------
  // Characters
  // ---------------------------------------------------------------------

  /** `str.isspace()` on ASCII: \t \n \v \f \r, the separators \x1c-\x1f and the space. */
  predicate IsSpace(c: char) {
    9 <= c as int <= 13 || 28 <= c as int <= 32
  }

  predicate IsDigit(c: char) {
    '0' <= c <= '9'
  }

  /** The ASCII part of the regular-expression class `\w`. */
  predicate IsWordChar(c: char) {
    'a' <= c <= 'z' || 'A' <= c <= 'Z' || IsDigit(c) || c == '_'
  }

  function LowerChar(c: char): char {
    if 'A' <= c <= 'Z' then (c as int + 32) as char else c
  }

  /** `s.lower()`, on ASCII letters. */
  function Lower(s: string): string {
    seq(|s|, i requires 0 <= i < |s| => LowerChar(s[i]))
  }

  /** `sub in s`: some window of `s` equals `sub`. */
  predicate Contains(s: string, sub: string)
    decreases |s|
  {
    sub <= s || (|s| > 0 && Contains(s[1..], sub))
  }

  lemma {:induction false} ContainsAt(s: string, sub: string, i: nat)
    requires i + |sub| <= |s| && s[i..i + |sub|] == sub
    ensures Contains(s, sub)
    decreases i
  {
    if i > 0 {
      assert s[1..][i - 1..i - 1 + |sub|] == s[i..i + |sub|];
      ContainsAt(s[1..], sub, i - 1);
    }
  }

  lemma LowerAppend(a: string, b: string)
    ensures Lower(a + b) == Lower(a) + Lower(b)
  {
  }

  lemma LowerIdempotent(s: string)
    ensures Lower(Lower(s)) == Lower(s)
  {
  }

  /** Where `sub in s` holds, a window of `s` equal to `sub`. */
  lemma {:induction false} ContainsWitness(s: string, sub: string) returns (i: nat)
    requires Contains(s, sub)
    ensures i + |sub| <= |s| && s[i..i + |sub|] == sub
    decreases |s|
  {
    if sub <= s {
      i := 0;
    } else {
      var k := ContainsWitness(s[1..], sub);
      assert s[1..][k..k + |sub|] == s[k + 1..k + 1 + |sub|];
      i := k + 1;
    }
  }

  /** A text that contains `sub` still does once more text is put before or after it. */
  lemma ContainsAppend(a: string, b: string, sub: string)
    ensures Contains(a, sub) ==> Contains(a + b, sub)
    ensures Contains(b, sub) ==> Contains(a + b, sub)
  {
    if Contains(a, sub) {
      var i := ContainsWitness(a, sub);
      assert (a + b)[i..i + |sub|] == a[i..i + |sub|];
      ContainsAt(a + b, sub, i);
    }
    if Contains(b, sub) {
      var i := ContainsWitness(b, sub);
      assert (a + b)[|a| + i..|a| + i + |sub|] == b[i..i + |sub|];
      ContainsAt(a + b, sub, |a| + i);
    }
  }

  /** Every character of a text it contains occurs in the text. */
  lemma ContainsChars(s: string, sub: string, c: char)
    ensures Contains(s, sub) && c in sub ==> c in s
  {
    if Contains(s, sub) && c in sub {
      var i := ContainsWitness(s, sub);
      var k :| 0 <= k < |sub| && sub[k] == c;
      assert s[i + k] == c;
    }
  }

  // ---------------------------------------------------------------------
  // Whitespace stripping (as int() and float() do it)
  // ---------------------------------------------------------------------

  function StripLeft(s: string): (r: string)
    ensures |r| <= |s|
    ensures r == [] || !IsSpace(r[0])
  {
    if |s| > 0 && IsSpace(s[0]) then StripLeft(s[1..]) else s
  }

  function StripRight(s: string): (r: string)
    ensures |r| <= |s|
    ensures r == [] || !IsSpace(r[|r| - 1])
  {
    if |s| > 0 && IsSpace(s[|s| - 1]) then StripRight(s[..|s| - 1]) else s
  }

  /** What `lstrip()` leaves is a suffix of the text. */
  lemma {:induction false} StripLeftSuffix(s: string)
    ensures StripLeft(s) == s[|s| - |StripLeft(s)|..]
  {
    if |s| > 0 && IsSpace(s[0]) {
      StripLeftSuffix(s[1..]);
    }
  }

  /** What `rstrip()` leaves is a prefix of the text. */
  lemma {:induction false} StripRightPrefix(s: string)
    ensures StripRight(s) == s[..|StripRight(s)|]
  {
    if |s| > 0 && IsSpace(s[|s| - 1]) {
      StripRightPrefix(s[..|s| - 1]);
    }
  }

  /** `s.strip()`. */
  function Strip(s: string): string {
    StripRight(StripLeft(s))
  }

  /** A text that neither starts nor ends with whitespace is left as it is. */
  lemma StripUnspaced(s: string)
    requires s != [] && !IsSpace(s[0]) && !IsSpace(s[|s| - 1])
    ensures Strip(s) == s
  {
    assert StripLeft(s) == s;
    assert StripRight(s) == s;
  }

  // ---------------------------------------------------------------------
  // Decimal digits
  // ---------------------------------------------------------------------

  function DigitValue(c: char): nat
    requires IsDigit(c)
  {
    c as int - '0' as int
  }

  function DigitChar(d: nat): (c: char)
    requires d < 10
    ensures IsDigit(c) && DigitValue(c) == d
  {
    ('0' as int + d) as char
  }

  predicate AllDigits(s: string) {
    forall i :: 0 <= i < |s| ==> IsDigit(s[i])
  }

  /** A non-empty run of decimal digits. */
  predicate IsDecimal(s: string) {
    |s| > 0 && AllDigits(s)
  }

  /** The number a run of decimal digits denotes. */
  function DigitsValue(s: string): nat
    requires AllDigits(s)
  {
    if s == [] then 0 else DigitsValue(s[..|s| - 1]) * 10 + DigitValue(s[|s| - 1])
  }

  function Pow10(n: nat): (p: nat)
    ensures p >= 1
  {
    if n == 0 then 1 else 10 * Pow10(n - 1)
  }

  /** `str(n)` for a natural number: its shortest decimal numeral. */
  function NatToString(n: nat): (s: string)
    ensures IsDecimal(s)
    ensures |s| > 1 ==> s[0] != '0'
  {
    if n < 10 then [DigitChar(n)] else NatToString(n / 10) + [DigitChar(n % 10)]
  }

  /** A number below 10^k has at most k digits. */
  lemma {:induction false} NatToStringLength(n: nat, k: nat)
    ensures 1 <= k && n < Pow10(k) ==> |NatToString(n)| <= k
  {
    if 1 <= k && n < Pow10(k) && n >= 10 {
      NatToStringLength(n / 10, k - 1);
    }
  }

  /** `str(i)` for an integer. */
  function IntToString(i: int): string {
    if i < 0 then "-" + NatToString(-i) else NatToString(i)
  }

  /** Reading back the numeral `str(n)` gives `n`. */
  lemma {:induction false} NatToStringValue(n: nat)
    ensures DigitsValue(NatToString(n)) == n
  {
    var s := NatToString(n);
    if n >= 10 {
      NatToStringValue(n / 10);
      assert s[..|s| - 1] == NatToString(n / 10);
    }
  }

  // ---------------------------------------------------------------------
  // int() and float() of a string
  // ---------------------------------------------------------------------

  /**
   * `int(s)` for a string: surrounding whitespace, an optional sign and at
   * least one decimal digit; None where Python raises ValueError.
   */
  function ParseInt(s: string): Option<int> {
    ParseStrippedInt(Strip(s))
  }

  /** `int()` of a text already stripped of surrounding whitespace. */
  function ParseStrippedInt(t: string): Option<int> {
    if |t| > 0 && (t[0] == '+' || t[0] == '-') then
      if IsDecimal(t[1..]) then
        Some(if t[0] == '-' then -(DigitsValue(t[1..]) as int) else DigitsValue(t[1..]))
      else None
    else if IsDecimal(t) then Some(DigitsValue(t))
    else None
  }

  /** A text without a single digit is no integer: `int()` raises ValueError on it. */
  lemma ParseIntNeedsDigit(s: string)
    requires forall i :: 0 <= i < |s| ==> !IsDigit(s[i])
    ensures ParseInt(s) == None
  {
    var t := Strip(s);
    var k := StripInside(s);
    forall i | 0 <= i < |t| ensures !IsDigit(t[i]) {
      assert t[i] == s[k + i];
    }
    NoDigitsNoInt(t);
  }

  /** What `strip()` leaves is a slice of the text. */
  lemma StripInside(s: string) returns (k: nat)
    ensures k + |Strip(s)| <= |s| && Strip(s) == s[k..k + |Strip(s)|]
  {
    var l := StripLeft(s);
    k := |s| - |l|;
    var t := StripRight(l);
    StripLeftSuffix(s);
    StripRightPrefix(l);
    assert t == l[..|t|];
  }

  lemma NoDigitsNoInt(t: string)
    requires forall i :: 0 <= i < |t| ==> !IsDigit(t[i])
    ensures !IsDecimal(t)
    ensures |t| > 0 ==> !IsDecimal(t[1..])
  {
    if |t| > 0 {
      assert !IsDigit(t[0]);
    }
    if |t| > 1 {
      assert t[1..][0] == t[1] && !IsDigit(t[1]);
    }
  }

  /** `int(str(i)) == i`: the numeral of every integer parses back to it. */
  lemma ParseIntOfIntToString(i: int)
    ensures ParseInt(IntToString(i)) == Some(i)
  {
    var n: nat := if i < 0 then -i else i;
    var d := NatToString(n);
    NatToStringValue(n);
    if i < 0 {
      assert IntToString(i) == "-" + d;
      ParseIntOfNegativeDigits(d);
    } else {
      assert IntToString(i) == d;
      ParseIntOfDigits(d);
    }
  }

  lemma ParseIntOfDigits(d: string)
    requires IsDecimal(d)
    ensures ParseInt(d) == Some(DigitsValue(d))
  {
    assert IsDigit(d[0]) && IsDigit(d[|d| - 1]);
    StripUnspaced(d);
    assert ParseStrippedInt(d) == Some(DigitsValue(d));
  }

  lemma ParseIntOfNegativeDigits(d: string)
    requires IsDecimal(d)
    ensures ParseInt("-" + d) == Some(-(DigitsValue(d) as int))
  {
    var m := "-" + d;
    assert m[0] == '-' && m[|m| - 1] == d[|d| - 1] && IsDigit(d[|d| - 1]);
    StripUnspaced(m);
    assert m[1..] == d;
    assert ParseStrippedInt(m) == Some(-(DigitsValue(d) as int));
  }

  function IndexOf(s: string, c: char): (r: Option<nat>)
    ensures r.Some? ==> r.value < |s| && s[r.value] == c
    ensures r.None? ==> c !in s
  {
    if s == [] then None
    else if s[0] == c then Some(0)
    else match IndexOf(s[1..], c)
      case None => None
      case Some(k) => Some(k + 1)
  }

  /** An unsigned decimal: `ddd`, `ddd.`, `.ddd` or `ddd.ddd`. */
  function DecimalReal(b: string): Option<real> {
    match IndexOf(b, '.')
    case None =>
      if IsDecimal(b) then Some(DigitsValue(b) as real) else None
    case Some(k) =>
      var whole, frac := b[..k], b[k + 1..];
      if AllDigits(whole) && AllDigits(frac) && |whole| + |frac| > 0 then
        Some(DigitsValue(whole) as real + DigitsValue(frac) as real / Pow10(|frac|) as real)
      else None
  }

  /**
   * `float(s)` for a string, as an exact value: surrounding whitespace, an
   * optional sign and an unsigned decimal; None where Python raises ValueError.
   */
  function ParseFloat(s: string): Option<real> {
    ParseStrippedFloat(Strip(s))
  }

  /** `float()` of a text already stripped of surrounding whitespace. */
  function ParseStrippedFloat(t: string): Option<real> {
    if |t| > 0 && (t[0] == '+' || t[0] == '-') then
      match DecimalReal(t[1..])
      case None => None
      case Some(x) => Some(if t[0] == '-' then -x else x)
    else DecimalReal(t)
  }

  /** Every whole number's numeral is read by float() as that number. */
  lemma ParseFloatOfIntToString(i: int)
    ensures ParseFloat(IntToString(i)) == Some(i as real)
  {
    var n: nat := if i < 0 then -i else i;
    var d := NatToString(n);
    DecimalRealOfNumeral(n);
    if i < 0 {
      assert IntToString(i) == "-" + d;
      ParseFloatOfNegativeDigits(d, n);
    } else {
      assert IntToString(i) == d;
      ParseFloatOfDigits(d, n);
    }
  }

  /** A run of digits is read by float() as its value. */
  lemma ParseFloatOfDigits(d: string, v: nat)
    requires IsDecimal(d) && DecimalReal(d) == Some(v as real)
    ensures ParseFloat(d) == Some(v as real)
  {
    assert IsDigit(d[0]) && IsDigit(d[|d| - 1]);
    StripUnspaced(d);
    assert ParseStrippedFloat(d) == Some(v as real);
  }

  /** A run of digits behind a minus sign is read by float() as its value negated. */
  lemma ParseFloatOfNegativeDigits(d: string, v: nat)
    requires IsDecimal(d) && DecimalReal(d) == Some(v as real)
    ensures ParseFloat("-" + d) == Some(-(v as real))
  {
    var m := "-" + d;
    assert m[0] == '-' && m[|m| - 1] == d[|d| - 1] && IsDigit(d[|d| - 1]);
    StripUnspaced(m);
    assert m[1..] == d;
    assert ParseStrippedFloat(m) == Some(-(v as real));
  }

  lemma DecimalRealOfNumeral(n: nat)
    ensures DecimalReal(NatToString(n)) == Some(n as real)
  {
    NatToStringValue(n);
    var d := NatToString(n);
    assert IndexOf(d, '.') == None by {
      assert !IsDigit('.');
    }
  }

  // ---------------------------------------------------------------------
  // The `.2f` format
  // ---------------------------------------------------------------------

  /** Rounds to the nearest integer, ties to the even one. */
  function RoundHalfEven(y: real): (q: int)
    ensures y >= 0.0 ==> q >= 0
    ensures q as real - 0.5 <= y <= q as real + 0.5
  {
    var f := y.Floor;
    var frac := y - f as real;
    if frac < 0.5 then f else if frac > 0.5 then f + 1 else if f % 2 == 0 then f else f + 1
  }

  function Fixed2Magnitude(x: real): string
    requires x >= 0.0
  {
    var q := RoundHalfEven(x * 100.0);
    NatToString(q / 100) + "." + [DigitChar(q % 100 / 10), DigitChar(q % 10)]
  }

  /**
   * `f"{x:.2f}"`: the value rounded half-to-even to two decimals, a minus
   * sign kept for every negative value (Python prints -0.001 as "-0.00").
   */
  function Fixed2(x: real): string {
    if x < 0.0 then "-" + Fixed2Magnitude(-x) else Fixed2Magnitude(x)
  }
}
