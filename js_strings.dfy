/**
 * The few ECMAScript string built-ins both scripts rely on: `Number.parseInt(s, 10)`,
 * `String.prototype.split` (first two fields), `String.prototype.replace` with a
 * string pattern, and the decimal rendering of a non-negative integer.
 */
module JsStrings {
  import opened Wrappers

  /**
   * Truthiness of a string that may be null (None): only a non-empty string is truthy.
   * It is also `field && field.value` for a field that may be missing.
   */
  predicate Present(v: Option<string>) {
    v.Some? && v.value != ""
  }

  /** StrWhiteSpaceChar: the WhiteSpace and LineTerminator code points `parseInt` skips. */
  predicate IsWhiteSpace(c: char) {
    || c == '\t' || c == '\U{000B}' || c == '\U{000C}' || c == ' ' || c == '\U{00A0}' || c == '\U{FEFF}'
    || c == '\U{1680}' || ('\U{2000}' <= c <= '\U{200A}') || c == '\U{202F}' || c == '\U{205F}' || c == '\U{3000}'
    || c == '\n' || c == '\r' || c == '\U{2028}' || c == '\U{2029}'
  }

  predicate IsDigit(c: char) {
    '0' <= c <= '9'
  }

  function DigitValue(c: char): (d: nat)
    requires IsDigit(c)
    ensures d < 10
  {
    (c as int) - ('0' as int)
  }

  function DigitChar(d: nat): (c: char)
    requires d < 10
    ensures IsDigit(c) && DigitValue(c) == d
  {
    (('0' as int) + d) as char
  }

  predicate AllDigits(s: string) {
    forall i :: 0 <= i < |s| ==> IsDigit(s[i])
  }

  /** The string with its leading white space removed. */
  function TrimStart(s: string): (r: string)
    ensures |r| <= |s| && r == s[|s| - |r|..]
    ensures forall i :: 0 <= i < |s| - |r| ==> IsWhiteSpace(s[i])
    ensures r == [] || !IsWhiteSpace(r[0])
  {
    if s != [] && IsWhiteSpace(s[0]) then TrimStart(s[1..]) else s
  }

  /** The longest prefix of `s` made of decimal digits. */
  function LeadingDigits(s: string): (r: string)
    ensures |r| <= |s| && r == s[..|r|]
    ensures AllDigits(r)
    ensures |r| == |s| || !IsDigit(s[|r|])
  {
    if s != [] && IsDigit(s[0]) then [s[0]] + LeadingDigits(s[1..]) else []
  }

  /** The value of a string of decimal digits, most significant first. */
  function DigitsValue(s: string): nat
    requires AllDigits(s)
  {
    if s == [] then 0 else DigitsValue(s[..|s| - 1]) * 10 + DigitValue(s[|s| - 1])
  }

  /**
   * `Number.parseInt(s, 10)`: skip leading white space, read an optional sign and the
   * longest run of decimal digits; None stands for NaN (no digit at all).
   */
  function ParseInt(s: string): Option<int> {
    ParseSigned(TrimStart(s))
  }

  /** `parseInt` of a string that does not start with white space. */
  function ParseSigned(t: string): Option<int> {
    var negative := t != [] && t[0] == '-';
    var unsigned := if t != [] && (t[0] == '-' || t[0] == '+') then t[1..] else t;
    var digits := LeadingDigits(unsigned);
    var magnitude: int := DigitsValue(digits);
    if digits == [] then None else Some(if negative then -magnitude else magnitude)
  }

  /** The decimal form JavaScript gives a non-negative integer Number. */
  function NatToString(n: nat): (s: string)
    ensures s != [] && AllDigits(s)
    ensures DigitsValue(s) == n
    ensures |s| > 1 ==> s[0] != '0'
  {
    if n < 10 then [DigitChar(n)]
    else
      var s := NatToString(n / 10) + [DigitChar(n % 10)];
      assert s[..|s| - 1] == NatToString(n / 10);
      s
  }

  /** Index of the first occurrence of `c` in `s`. */
  function IndexOf(s: string, c: char): (r: Option<nat>)
    ensures r.None? <==> c !in s
    ensures r.Some? ==> r.value < |s| && s[r.value] == c && c !in s[..r.value]
  {
    if s == [] then None
    else if s[0] == c then Some(0)
    else
      match IndexOf(s[1..], c)
      case None => None
      case Some(i) =>
        assert s[..i + 1] == [s[0]] + s[1..][..i];
        Some(i + 1)
  }

  /** The first occurrence is the one no earlier character matches. */
  lemma IndexOfIs(s: string, c: char, i: nat)
    requires i < |s| && s[i] == c && c !in s[..i]
    ensures IndexOf(s, c) == Some(i)
  {
  }

  /**
   * The first two elements of `s.split(sep)` as a destructuring `[a, b] = ...` sees them:
   * the text before the first separator (all of `s` when there is none), and the text
   * between the first and the second separator, or to the end (None: `undefined`).
   */
  function FirstTwoFields(s: string, sep: char): (r: (string, Option<string>))
    ensures sep !in r.0 && |r.0| <= |s| && s[..|r.0|] == r.0
    ensures r.1.None? <==> sep !in s
    ensures r.1.None? ==> r.0 == s
    ensures r.1.Some? ==>
      var a, b := |r.0|, |r.0| + 1 + |r.1.value|;
      && sep !in r.1.value && b <= |s| && s[a] == sep && s[a + 1..b] == r.1.value
      && (b == |s| || s[b] == sep)
  {
    match IndexOf(s, sep)
    case None => (s, None)
    case Some(i) =>
      var rest := s[i + 1..];
      match IndexOf(rest, sep)
      case None => (s[..i], Some(rest))
      case Some(j) => (s[..i], Some(rest[..j]))
  }

  /**
   * `s.replace(from, to)` with a one-character string pattern: only the FIRST match is
   * replaced, and a string without a match is returned as it is.
   */
  function ReplaceFirst(s: string, from: char, to: char): (r: string)
    ensures |r| == |s|
    ensures IndexOf(s, from).None? ==> r == s
    ensures IndexOf(s, from).Some? ==> r == s[..IndexOf(s, from).value] + [to] + s[IndexOf(s, from).value + 1..]
  {
    if s == [] then []
    else if s[0] == from then [to] + s[1..]
    else
      var rest := ReplaceFirst(s[1..], from, to);
      match IndexOf(s[1..], from)
      case None => [s[0]] + rest
      case Some(k) =>
        ReplaceFirstStep(s, to, k, rest);
        [s[0]] + rest
  }

  /** The step of `ReplaceFirst` past a first character that does not match. */
  lemma ReplaceFirstStep(s: string, to: char, k: nat, rest: string)
    requires s != [] && k + 1 < |s|
    requires rest == s[1..][..k] + [to] + s[1..][k + 1..]
    ensures [s[0]] + rest == s[..k + 1] + [to] + s[k + 2..]
  {
    assert s[..k + 1] == [s[0]] + s[1..][..k];
    assert s[k + 2..] == s[1..][k + 1..];
  }

  /** Character by character: only the first occurrence of `from` is changed. */
  lemma ReplaceFirstPointwise(s: string, from: char, to: char, i: nat)
    requires i < |s|
    ensures ReplaceFirst(s, from, to)[i] == if s[i] == from && from !in s[..i] then to else s[i]
  {
    if from in s {
      var k := IndexOf(s, from).value;
      if i > k {
        assert s[k] in s[..i];
      }
    } else {
      assert s[i] in s;
    }
  }

  /** Reading back the decimal form of a natural number gives the number. */
  lemma ParseIntOfNatToString(n: nat)
    ensures ParseInt(NatToString(n)) == Some(n)
  {
    ParseIntOfDigits(NatToString(n));
  }

  /** A run of digits reads back as its value. */
  lemma ParseIntOfDigits(digits: string)
    requires digits != [] && AllDigits(digits)
    ensures ParseInt(digits) == Some(DigitsValue(digits))
  {
    DigitIsNotBlank(digits[0]);
    assert TrimStart(digits) == digits;
    AllDigitsAreLeading(digits);
  }

  lemma DigitIsNotBlank(c: char)
    requires IsDigit(c)
    ensures !IsWhiteSpace(c) && c != '-' && c != '+'
  {
  }

  /** A run of digits after a minus sign reads back as the negated value. */
  lemma ParseIntOfNegatedDigits(digits: string)
    requires digits != [] && AllDigits(digits)
    ensures ParseInt("-" + digits) == Some(0 - DigitsValue(digits) as int)
  {
    SignedTrimmed(digits);
    SignedNegated("-" + digits, digits);
  }

  lemma SignedNegated(signed: string, digits: string)
    requires signed != [] && signed[0] == '-' && signed[1..] == digits
    requires digits != [] && AllDigits(digits)
    ensures ParseSigned(signed) == Some(0 - DigitsValue(digits) as int)
  {
    AllDigitsAreLeading(digits);
  }

  lemma SignedTrimmed(digits: string)
    ensures TrimStart("-" + digits) == "-" + digits && ("-" + digits)[1..] == digits
  {
    var signed := "-" + digits;
    assert signed[0] == '-';
    assert !IsWhiteSpace('-');
  }

  /** A string of digits is its own longest digit prefix. */
  lemma {:induction false} AllDigitsAreLeading(s: string)
    requires AllDigits(s)
    ensures LeadingDigits(s) == s
  {
    if s != [] {
      AllDigitsAreLeading(s[1..]);
    }
  }

  /** `parseInt` of a string without any decimal digit is NaN. */
  lemma NoDigitNoNumber(s: string)
    requires forall i :: 0 <= i < |s| ==> !IsDigit(s[i])
    ensures ParseInt(s) == None
  {
  }
}
