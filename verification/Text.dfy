/**
  Decimal numerals, as `Display` prints them and `u32::from_str` reads them: printing a tag and parsing it
  back is the identity, and a leading plus sign is accepted.
*/
module Text {
  import opened Bytes

  function Digit(n: nat): (c: char)
    requires n < 10
    ensures IsDigit(c) && DigitValue(c) == n
  {
    '0' + n as char
  }

  predicate IsDigit(c: char) { '0' <= c <= '9' }

  function DigitValue(c: char): (n: nat)
    requires IsDigit(c)
    ensures n < 10
  {
    c as int - '0' as int
  }

  /** The numeral of `n`, without leading zeros. */
  function Decimal(n: nat): (s: string)
    ensures s != [] && forall i :: 0 <= i < |s| ==> IsDigit(s[i])
  {
    if n < 10 then [Digit(n)] else Decimal(n / 10) + [Digit(n % 10)]
  }

  predicate AllDigits(s: string) { forall i :: 0 <= i < |s| ==> IsDigit(s[i]) }

  /** The value of a string of digits. */
  function DigitsValue(s: string): (n: nat)
    requires AllDigits(s)
  {
    if s == [] then 0 else 10 * DigitsValue(s[..|s| - 1]) + DigitValue(s[|s| - 1])
  }

  /** `u32::from_str`: an optional plus sign, then digits, in range. */
  function ParseU32(s: string): (n: Option<U32>) {
    var digits := if s != [] && s[0] == '+' then s[1..] else s;
    if digits != [] && AllDigits(digits) && DigitsValue(digits) < 0x1_0000_0000 then Some(DigitsValue(digits)) else None
  }

  lemma {:induction false} DecimalValue(n: nat)
    ensures DigitsValue(Decimal(n)) == n
  {
    if n >= 10 {
      DecimalValue(n / 10);
      var s := Decimal(n);
      assert s[..|s| - 1] == Decimal(n / 10);
    }
  }

  /** Printing a tag and reading it back. */
  lemma {:induction false} DecimalInverts(n: U32)
    ensures ParseU32(Decimal(n)) == Some(n)
  {
    DecimalValue(n);
    assert IsDigit(Decimal(n)[0]);
  }

  /** A number too large for a tag is none, and a plus sign in front changes nothing. */
  lemma {:induction false} Numerals(n: nat)
    ensures ParseU32(Decimal(n)) == if n < 0x1_0000_0000 then Some(n) else None
    ensures ParseU32("+" + Decimal(n)) == ParseU32(Decimal(n))
  {
    DecimalValue(n);
    assert IsDigit(Decimal(n)[0]);
    assert ("+" + Decimal(n))[1..] == Decimal(n);
  }

  /** Nothing but digits: no sign but one plus in front, and at least one digit. */
  lemma {:induction false} NoNumerals(s: string, i: nat)
    requires i < |s| && !('0' <= s[i] <= '9') && (i > 0 || s[0] != '+')
    ensures ParseU32(s) == None && ParseU32("") == None && ParseU32("+") == None
  {
    var digits, k := if s[0] == '+' then s[1..] else s, if s[0] == '+' then i - 1 else i;
    assert !IsDigit(digits[k]);
  }
}
