/**
 * Decimal rendering of 64-bit ids, as strconv.FormatInt(x, 10) does it:
 * an optional '-' and the digits of the magnitude, with no leading zero,
 * no '+' and no other decoration. Ids are compared against the caller's
 * string in this form, so the set of strings it can produce, and the
 * value each of them stands for, are stated here.
 */
module Decimal {

  /** Go's int64: the type of gid and uid in the wire records. */
  newtype int64 = x: int | -0x8000_0000_0000_0000 <= x < 0x8000_0000_0000_0000

  predicate IsDigit(c: char) {
    '0' <= c <= '9'
  }

  predicate AllDigits(s: string) {
    forall k :: 0 <= k < |s| ==> IsDigit(s[k])
  }

  function DigitValue(c: char): (d: nat)
    requires IsDigit(c)
    ensures d < 10
  {
    (c as int) - ('0' as int)
  }

  function DigitChar(d: nat): (c: char)
    requires d < 10
    ensures IsDigit(c) && DigitValue(c) == d
  {
    (('0' as int) + d) as char
  }

  /** A canonical unsigned numeral: one or more digits, and "0" is the only one starting with '0'. */
  predicate IsNumeral(s: string) {
    |s| >= 1 && AllDigits(s) && (s[0] == '0' ==> |s| == 1)
  }

  /** The strings FormatInt can produce: a numeral, or '-' before a numeral other than "0". */
  predicate IsCanonicalInt(s: string) {
    IsNumeral(s) || (|s| >= 2 && s[0] == '-' && IsNumeral(s[1..]) && s[1..] != "0")
  }

  /** The value of a string of decimal digits, most significant first. */
  function NumeralValue(s: string): nat
    requires AllDigits(s)
  {
    if s == [] then 0 else NumeralValue(s[..|s| - 1]) * 10 + DigitValue(s[|s| - 1])
  }

  /** The value a canonical integer string stands for. */
  function IntValue(s: string): int
    requires IsCanonicalInt(s)
  {
    if s[0] == '-' then -(NumeralValue(s[1..]) as int) else NumeralValue(s) as int
  }

  /** The decimal digits of n. */
  function FormatNat(n: nat): (s: string)
    ensures IsNumeral(s) && NumeralValue(s) == n
  {
    if n < 10 then
      [DigitChar(n)]
    else
      var s := FormatNat(n / 10) + [DigitChar(n % 10)];
      assert s[..|s| - 1] == FormatNat(n / 10);
      s
  }

  /**
   * strconv.FormatInt(x, 10). The magnitude of the most negative int64 is
   * not an int64, so it is taken in unbounded int arithmetic.
   */
  function FormatInt(x: int64): (s: string)
    ensures IsCanonicalInt(s) && IntValue(s) == x as int
  {
    if x < 0 then
      var s := "-" + FormatNat(-(x as int));
      assert s[1..] == FormatNat(-(x as int));
      s
    else
      FormatNat(x as int)
  }

  lemma {:induction false} NumeralPositive(s: string)
    requires IsNumeral(s) && s != "0"
    ensures NumeralValue(s) > 0
    decreases |s|
  {
    if |s| > 1 {
      NumeralPositive(s[..|s| - 1]);
    } else {
      assert s == [s[0]];
    }
  }

  /** Rendering the value of a canonical numeral gives the numeral back. */
  lemma {:induction false} FormatNatOfNumeral(s: string)
    requires IsNumeral(s)
    ensures FormatNat(NumeralValue(s)) == s
    decreases |s|
  {
    var n := NumeralValue(s);
    if |s| == 1 {
      assert s == [s[0]];
      assert NumeralValue(s[..0]) == 0;
      assert DigitChar(DigitValue(s[0])) == s[0];
    } else {
      var t := s[..|s| - 1];
      var d := DigitValue(s[|s| - 1]);
      NumeralPositive(t);
      FormatNatOfNumeral(t);
      assert n == NumeralValue(t) * 10 + d;
      assert n / 10 == NumeralValue(t) && n % 10 == d;
      assert DigitChar(d) == s[|s| - 1];
      assert s == t + [s[|s| - 1]];
    }
  }

  /**
   * FormatInt(x) is exactly the canonical string that denotes x: every
   * other spelling of the same value ("007", "+7", "-0") differs from it.
   */
  lemma FormatIntExact(x: int64, s: string)
    ensures FormatInt(x) == s <==> IsCanonicalInt(s) && IntValue(s) == x as int
  {
    if IsCanonicalInt(s) && IntValue(s) == x as int {
      if s[0] == '-' {
        FormatNatOfNumeral(s[1..]);
        assert s == "-" + s[1..];
        NumeralPositive(s[1..]);
      } else {
        FormatNatOfNumeral(s);
      }
    }
  }

  /** Distinct ids render distinctly, and a rendering never has a leading zero or a '+'. */
  lemma FormatIntInjective(x: int64, y: int64)
    ensures FormatInt(x) == FormatInt(y) <==> x == y
    ensures |FormatInt(x)| > 1 ==> FormatInt(x)[0] != '0'
    ensures FormatInt(x)[0] != '+'
  {
  }
}
