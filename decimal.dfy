/** Decimal text of integers: Long.toString, Long.parseLong and Integer.parseInt. */
module Decimal {
  import opened Wrappers
  import opened JavaMath

  /** An ASCII decimal digit. */
  predicate IsDigit(c: char) {
    '0' <= c <= '9'
  }

  predicate AllDigits(s: string) {
    forall i :: 0 <= i < |s| ==> IsDigit(s[i])
  }

  function DigitChar(d: int): (c: char)
    requires 0 <= d < 10
    ensures IsDigit(c)
  {
    ('0' as int + d) as char
  }

  /** The value of a run of ASCII digits, read left to right. */
  function DigitsValue(s: string): nat
    requires AllDigits(s)
  {
    if s == [] then 0 else DigitsValue(s[..|s| - 1]) * 10 + (s[|s| - 1] as int - '0' as int)
  }

  /** The decimal digits of n, without leading zeros. */
  function NatToString(n: nat): (s: string)
    ensures |s| >= 1 && AllDigits(s)
    ensures |s| > 1 ==> s[0] != '0'
  {
    if n < 10 then [DigitChar(n)] else NatToString(n / 10) + [DigitChar(n % 10)]
  }

  /** Long.toString / String.valueOf(long): a minus sign for negatives, then the digits. */
  function FromInt(n: int): string {
    if n < 0 then "-" + NatToString(-n) else NatToString(n)
  }

  /** Reading the digits of n gives n back. */
  lemma {:induction false} DigitsValueOfNat(n: nat)
    ensures DigitsValue(NatToString(n)) == n
  {
    var s := NatToString(n);
    if n >= 10 {
      DigitsValueOfNat(n / 10);
      assert s[..|s| - 1] == NatToString(n / 10);
    }
  }

  /**
   * Parsing an optionally signed run of ASCII digits into [lo, hi], as
   * Long.parseLong(s) and Integer.parseInt(s) do: an empty string, a lone sign,
   * a non-digit or a value out of range throws NumberFormatException.
   */
  function ParseSigned(s: string, lo: int, hi: int): (r: Result<int>)
    ensures r.Success? ==> lo <= r.value <= hi
  {
    if s == [] then Failure(NumberFormat)
    else
      var signed := s[0] == '-' || s[0] == '+';
      var digits := if signed then s[1..] else s;
      if digits == [] || !AllDigits(digits) then Failure(NumberFormat)
      else
        var m: int := DigitsValue(digits);
        var v := if s[0] == '-' then -m else m;
        if lo <= v <= hi then Success(v) else Failure(NumberFormat)
  }

  /** Long.parseLong(s). */
  function ParseLong(s: string): (r: Result<int>)
    ensures r.Success? ==> IsLong(r.value)
  {
    ParseSigned(s, LONG_MIN, LONG_MAX)
  }

  /** Integer.parseInt(s). */
  function ParseInt(s: string): (r: Result<int>)
    ensures r.Success? ==> -INT_MAX - 1 <= r.value <= INT_MAX
  {
    ParseSigned(s, -INT_MAX - 1, INT_MAX)
  }

  /** Long.parseLong(Long.toString(n)) == n for every long n. */
  lemma ParseLongFromInt(n: int)
    requires IsLong(n)
    ensures ParseLong(FromInt(n)) == Success(n)
  {
    DigitsValueOfNat(if n < 0 then -n else n);
    if n < 0 {
      assert FromInt(n)[1..] == NatToString(-n);
    }
  }

  /** The text of a long uses only digits and a leading minus sign. */
  lemma FromIntChars(n: int)
    ensures |FromInt(n)| >= 1
    ensures forall i :: 0 <= i < |FromInt(n)| ==> IsDigit(FromInt(n)[i]) || (i == 0 && FromInt(n)[i] == '-')
  {
  }
}
