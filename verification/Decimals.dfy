/** Decimal digits and the decimal text of natural numbers, which the epoch texts and the
    numbered bind markers share. A text of digits stands for its value, and the text made for a
    number stands for that number.

    Only ASCII digits count. */
module Decimals {

  predicate IsDigit(c: char) {
    '0' <= c <= '9'
  }

  predicate Digits(s: string) {
    forall k | 0 <= k < |s| :: IsDigit(s[k])
  }

  function Value(s: string): (v: int)
    requires Digits(s)
    ensures v >= 0
  {
    if s == "" then 0 else 10 * Value(s[..|s| - 1]) + (s[|s| - 1] as int - '0' as int)
  }

  function Digit(d: int): (c: char)
    requires 0 <= d < 10
    ensures IsDigit(c) && c as int - '0' as int == d
  {
    ('0' as int + d) as char
  }

  /** `strconv.FormatInt` of a non-negative number. */
  function Decimal(n: nat): (s: string)
    ensures s != "" && Digits(s) && Value(s) == n
  {
    if n < 10 then [Digit(n)]
    else
      var s := Decimal(n / 10) + [Digit(n % 10)];
      assert s[..|s| - 1] == Decimal(n / 10);
      s
  }
}
