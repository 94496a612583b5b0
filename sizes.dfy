/**
 * `toBytes`: the conversion of a PHP ini size setting such as "128M",
 * "2g" or "512" into a number of bytes.
 */
module Sizes {
  import opened Text

  const KiB: nat := 1024
  const MiB: nat := 1048576
  const GiB: nat := 1073741824

  /**
   * Trim, look at the last character: a digit means the whole string is the
   * number, anything else is a unit letter after it. An empty setting reads
   * the character at offset -1 as "" and gives 0.
   */
  function ToBytes(str: string): (r: nat)
    ensures Trim(str) == [] ==> r == 0
  {
    var s := Trim(str);
    if s == [] then 0 else
    var last := LowerChar(s[|s| - 1]);
    var val := if IsDigit(last) then LeadingInt(s) else LeadingInt(s[..|s| - 1]);
    Scaled(val, UpperChar(last))
  }

  /**
   * Whatever the setting: the number before the last character (the whole
   * string when that is a digit) scaled by the unit the last character
   * names in either case, or unscaled; the cases exclude each other, so
   * exactly one factor applies.
   */
  lemma ToBytesScales(str: string)
    ensures var s := Trim(str); s != [] ==>
      var c := s[|s| - 1];
      var val := if IsDigit(c) then LeadingInt(s) else LeadingInt(s[..|s| - 1]);
      (c in "gG" ==> ToBytes(str) == val * GiB) &&
      (c in "mM" ==> ToBytes(str) == val * MiB) &&
      (c in "kK" ==> ToBytes(str) == val * KiB) &&
      (c !in "gGmMkK" ==> ToBytes(str) == val)
  {
    var s := Trim(str);
    if s != [] {
      ToBytesUnfolds(str);
      CaseFoldedUnit(s[|s| - 1]);
    }
  }

  lemma ToBytesUnfolds(str: string)
    ensures var s := Trim(str); s != [] ==>
      var c := s[|s| - 1];
      ToBytes(str) == Scaled(if IsDigit(c) then LeadingInt(s) else LeadingInt(s[..|s| - 1]), UpperChar(LowerChar(c)))
  {
    var s := Trim(str);
    if s != [] {
      UnitOfCase(s[|s| - 1]);
    }
  }

  /** The three unit tests of `toBytes`, run one after the other on the upper-cased unit; at most one matches. */
  function Scaled(val: nat, unit: char): (r: nat)
    ensures unit == 'G' ==> r == val * GiB
    ensures unit == 'M' ==> r == val * MiB
    ensures unit == 'K' ==> r == val * KiB
    ensures unit != 'G' && unit != 'M' && unit != 'K' ==> r == val
  {
    var afterG := if unit == 'G' then val * GiB else val;
    var afterM := if unit == 'M' then afterG * MiB else afterG;
    if unit == 'K' then afterM * KiB else afterM
  }

  lemma UnitOfCase(c: char)
    ensures IsDigit(LowerChar(c)) == IsDigit(c)
  {
  }

  /** Which of the upper-case unit letters `toBytes` tests a character folds to. */
  lemma CaseFoldedUnit(c: char)
    ensures c in "gG" <==> UpperChar(LowerChar(c)) == 'G'
    ensures c in "mM" <==> UpperChar(LowerChar(c)) == 'M'
    ensures c in "kK" <==> UpperChar(LowerChar(c)) == 'K'
  {
  }

  /** The factor a trailing character stands for: the unit letters in either case, 1 otherwise. */
  function UnitFactor(c: char): (f: nat)
    ensures f in {1, KiB, MiB, GiB}
    ensures f != 1 <==> c in "kKmMgG"
  {
    if c == 'g' || c == 'G' then GiB
    else if c == 'm' || c == 'M' then MiB
    else if c == 'k' || c == 'K' then KiB
    else 1
  }

  /** A bare number is read unscaled. */
  lemma ToBytesOfNumber(n: nat)
    ensures ToBytes(DecimalString(n)) == n
  {
    var s := DecimalString(n);
    TrimUnpadded(s);
    LeadingIntOfDecimal(n, []);
    assert s + [] == s;
  }

  /**
   * A number followed by one non-digit character: the unit letters k, m, g
   * (either case) scale by 1024, 1048576, 1073741824; any other character is
   * dropped and the number is read unscaled. Exactly one factor applies.
   */
  lemma ToBytesOfNumberWithUnit(n: nat, unit: char)
    requires !IsDigit(unit) && !IsTrimChar(unit)
    ensures ToBytes(DecimalString(n) + [unit]) == n * UnitFactor(unit)
  {
    var s := DecimalString(n) + [unit];
    TrimUnpadded(s);
    assert s[..|s| - 1] == DecimalString(n) + [];
    LeadingIntOfDecimal(n, []);
    ToBytesScales(s);
    assert !IsDigit(unit);
  }
}
