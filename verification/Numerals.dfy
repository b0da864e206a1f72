/** Decimal numerals as the string class writes and reads them. */
module Numerals {
  import opened Texts

  const MINUS: QChar := 45
  const PLUS: QChar := 43
  const INT_MAX := 0x7fffffff

  predicate IsDigit(c: QChar) {
    48 <= c <= 57
  }

  predicate AllDigits(s: Text) {
    forall i :: 0 <= i < |s| ==> IsDigit(s[i])
  }

  function Value(s: Text): nat
    requires AllDigits(s)
  {
    if s == [] then 0 else 10 * Value(s[..|s| - 1]) + (s[|s| - 1] as int - 48)
  }

  function Decimal(n: nat): (s: Text)
    ensures s != [] && AllDigits(s) && Value(s) == n
  {
    var last := [(48 + n % 10) as QChar];
    if n < 10 then last
    else
      var front := Decimal(n / 10);
      assert (front + last)[..|front|] == front;
      front + last
  }

  function Number(n: int): Text {
    if n < 0 then [MINUS] + Decimal(-n) else Decimal(n)
  }

  /** The number a text reads as: digits after at most one sign, and within 32 bits; any
      other text reads as zero. */
  function ToInt(s: Text): int {
    var digits := if s != [] && (s[0] == MINUS || s[0] == PLUS) then s[1..] else s;
    if digits == [] || !AllDigits(digits) then 0
    else
      var n := if s[0] == MINUS then 0 - Value(digits) else Value(digits);
      if -INT_MAX - 1 <= n <= INT_MAX then n else 0
  }

  /** The text is a decimal numeral of `n`, with a minus sign if that is negative. */
  predicate IsNumeral(s: Text, n: int) {
    if n < 0 then |s| > 1 && s[0] == 45 && AllDigits(s[1..]) && Value(s[1..]) == -n
    else s != [] && AllDigits(s) && Value(s) == n
  }

  lemma NumberIsNumeral(n: int)
    ensures IsNumeral(Number(n), n)
  {
    if n < 0 { assert Number(n)[1..] == Decimal(-n); }
  }

  /** Any numeral within 32 bits reads as its number. */
  lemma NumeralReads(s: Text, n: int)
    requires IsNumeral(s, n) && -INT_MAX - 1 <= n <= INT_MAX
    ensures ToInt(s) == n
  {
    if n >= 0 { assert IsDigit(s[0]); }
  }

  /** A 32-bit number is read back as written. */
  lemma NumberReads(n: int)
    requires -INT_MAX - 1 <= n <= INT_MAX
    ensures ToInt(Number(n)) == n
  {
    NumberIsNumeral(n);
    NumeralReads(Number(n), n);
  }
}
