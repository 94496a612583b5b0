/**
 * Character and string helpers with PHP's meaning: decimal digits, the
 * integer-to-string conversion, the leading-digit `(int)` cast, ASCII
 * `strtolower`/`strtoupper`, `strpos(...) === 0` and `trim`.
 */
module Text {

  predicate IsDigit(c: char) {
    '0' <= c <= '9'
  }

  predicate AllDigits(s: string) {
    forall i :: 0 <= i < |s| ==> IsDigit(s[i])
  }

  function DigitValue(c: char): nat
    requires IsDigit(c)
  {
    (c as int) - ('0' as int)
  }

  function DigitChar(d: nat): (c: char)
    requires d < 10
    ensures IsDigit(c) && DigitValue(c) == d
  {
    (('0' as int) + d) as char
  }

  /** The decimal rendering of `n`, as PHP writes an integer into a string. */
  function DecimalString(n: nat): (s: string)
    ensures |s| > 0 && AllDigits(s)
  {
    if n < 10 then [DigitChar(n)] else DecimalString(n / 10) + [DigitChar(n % 10)]
  }

  /** PHP's rendering of any integer: a minus sign before the digits of a negative one. */
  function IntString(n: int): string {
    if n < 0 then "-" + DecimalString(-n) else DecimalString(n)
  }

  /** The value of a run of decimal digits, most significant first. */
  function DigitsValue(d: string): nat
    requires AllDigits(d)
  {
    if d == [] then 0 else DigitsValue(d[..|d| - 1]) * 10 + DigitValue(d[|d| - 1])
  }

  /** The longest prefix of `s` made of decimal digits. */
  function LeadingDigits(s: string): (p: string)
    ensures |p| <= |s| && p == s[..|p|] && AllDigits(p)
    ensures |p| < |s| ==> !IsDigit(s[|p|])
  {
    if s == [] || !IsDigit(s[0]) then [] else [s[0]] + LeadingDigits(s[1..])
  }

  /** PHP's `(int)` cast of a string, taken as the value of its leading digits (0 when none). */
  function LeadingInt(s: string): nat {
    DigitsValue(LeadingDigits(s))
  }

  lemma {:induction false} DecimalStringValue(n: nat)
    ensures DigitsValue(DecimalString(n)) == n
  {
    if n >= 10 {
      var s := DecimalString(n);
      assert s[..|s| - 1] == DecimalString(n / 10);
      DecimalStringValue(n / 10);
    }
  }

  lemma {:induction false} LeadingDigitsOfDigits(d: string, rest: string)
    requires AllDigits(d)
    requires rest == [] || !IsDigit(rest[0])
    ensures LeadingDigits(d + rest) == d
  {
    if d != [] {
      assert (d + rest)[1..] == d[1..] + rest;
      LeadingDigitsOfDigits(d[1..], rest);
    }
  }

  /** The `(int)` cast reads back the number a decimal rendering wrote, whatever non-digit follows. */
  lemma LeadingIntOfDecimal(n: nat, rest: string)
    requires rest == [] || !IsDigit(rest[0])
    ensures LeadingInt(DecimalString(n) + rest) == n
  {
    LeadingDigitsOfDigits(DecimalString(n), rest);
    DecimalStringValue(n);
  }

  /** Distinct numbers render as distinct strings. */
  lemma DecimalStringInjective(m: nat, n: nat)
    requires DecimalString(m) == DecimalString(n)
    ensures m == n
  {
    DecimalStringValue(m);
    DecimalStringValue(n);
  }

  lemma IntStringInjective(m: int, n: int)
    requires IntString(m) == IntString(n)
    ensures m == n
  {
    var sm, sn := IntString(m), IntString(n);
    assert IsDigit(DecimalString(if m < 0 then -m else m)[0]);
    assert sm[0] == '-' <==> m < 0;
    if m < 0 && n < 0 {
      assert sm[1..] == DecimalString(-m) && sn[1..] == DecimalString(-n);
      DecimalStringInjective(-m, -n);
    } else if m >= 0 && n >= 0 {
      DecimalStringInjective(m, n);
    }
  }

  function LowerChar(c: char): char {
    if 'A' <= c <= 'Z' then ((c as int) + 32) as char else c
  }

  function UpperChar(c: char): char {
    if 'a' <= c <= 'z' then ((c as int) - 32) as char else c
  }

  /** ASCII `strtolower`. */
  function Lower(s: string): (r: string)
    ensures |r| == |s| && forall i :: 0 <= i < |s| ==> r[i] == LowerChar(s[i])
  {
    seq(|s|, i requires 0 <= i < |s| => LowerChar(s[i]))
  }

  /** ASCII `strtoupper`. */
  function Upper(s: string): (r: string)
    ensures |r| == |s| && forall i :: 0 <= i < |s| ==> r[i] == UpperChar(s[i])
  {
    seq(|s|, i requires 0 <= i < |s| => UpperChar(s[i]))
  }

  /** Upper-casing never produces a character that is not a letter and was not there. */
  lemma UpperKeepsAbsentSymbol(s: string, c: char)
    requires c !in s && !('A' <= c <= 'Z')
    ensures c !in Upper(s)
  {
  }

  /** Lower-casing forgets whatever case a string was written in. */
  lemma LowerForgetsCase(s: string)
    ensures Lower(Upper(s)) == Lower(s)
    ensures Lower(Lower(s)) == Lower(s)
  {
    assert forall i :: 0 <= i < |s| ==> LowerChar(UpperChar(s[i])) == LowerChar(s[i]);
  }

  /** `strpos(s, p) === 0`: `s` begins with `p`. */
  predicate StartsWith(s: string, p: string) {
    |p| <= |s| && s[..|p|] == p
  }

  /** The characters PHP's `trim` strips by default: space, tab, LF, CR, NUL and vertical tab. */
  predicate IsTrimChar(c: char) {
    c == ' ' || c == '\t' || c == '\n' || c == '\r' || c == '\0' || c == 11 as char
  }

  /** How many strip characters `s` starts with. */
  function LeadingStrip(s: string): (n: nat)
    ensures n <= |s| && forall k :: 0 <= k < n ==> IsTrimChar(s[k])
    ensures n == |s| || !IsTrimChar(s[n])
  {
    if s != [] && IsTrimChar(s[0]) then 1 + LeadingStrip(s[1..]) else 0
  }

  function TrimRight(s: string): (r: string)
    ensures |r| <= |s| && r == s[..|r|]
    ensures forall i :: |r| <= i < |s| ==> IsTrimChar(s[i])
    ensures r == [] || !IsTrimChar(r[|r| - 1])
  {
    if s != [] && IsTrimChar(s[|s| - 1]) then TrimRight(s[..|s| - 1]) else s
  }

  /**
   * PHP's `trim`: strip the default characters from both ends. The result
   * is the slice of `s` that starts after its leading strip characters and
   * leaves only strip characters behind it.
   */
  function Trim(s: string): (r: string)
    ensures r == [] || (!IsTrimChar(r[0]) && !IsTrimChar(r[|r| - 1]))
    ensures r == [] <==> forall i :: 0 <= i < |s| ==> IsTrimChar(s[i])
    ensures var i := LeadingStrip(s);
      i + |r| <= |s| && r == s[i..i + |r|] && forall k :: i + |r| <= k < |s| ==> IsTrimChar(s[k])
  {
    TrimIsSlice(s);
    TrimEndsKept(s);
    TrimEmptyWhenAllStrip(s);
    TrimRight(s[LeadingStrip(s)..])
  }

  /** What is left after both strips is a slice of `s` followed only by strip characters. */
  lemma TrimIsSlice(s: string)
    ensures var i := LeadingStrip(s); var r := TrimRight(s[i..]);
      i + |r| <= |s| && r == s[i..i + |r|] && forall k :: i + |r| <= k < |s| ==> IsTrimChar(s[k])
  {
    var i := LeadingStrip(s);
    var t := s[i..];
    var r := TrimRight(t);
    assert r == t[..|r|] == s[i..i + |r|];
    forall k | i + |r| <= k < |s|
      ensures IsTrimChar(s[k])
    {
      assert s[k] == t[k - i];
    }
  }

  /** Neither end of a non-empty result is a strip character. */
  lemma TrimEndsKept(s: string)
    ensures var r := TrimRight(s[LeadingStrip(s)..]);
      r == [] || (!IsTrimChar(r[0]) && !IsTrimChar(r[|r| - 1]))
  {
    var i := LeadingStrip(s);
    var r := TrimRight(s[i..]);
    if r != [] {
      assert r[0] == s[i..][0] == s[i];
    }
  }

  /** The result is empty exactly when every character of `s` is stripped. */
  lemma TrimEmptyWhenAllStrip(s: string)
    ensures TrimRight(s[LeadingStrip(s)..]) == [] <==> forall k :: 0 <= k < |s| ==> IsTrimChar(s[k])
  {
    var i := LeadingStrip(s);
    var t := s[i..];
    // an empty remainder means the leading strip already reached the end
    assert t != [] ==> t[0] == s[i];
  }

  lemma TrimUnpadded(s: string)
    requires s != [] && !IsTrimChar(s[0]) && !IsTrimChar(s[|s| - 1])
    ensures Trim(s) == s
  {
  }
}
