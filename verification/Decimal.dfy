// `str(n)`, `str.isdigit` and `int(s)` on ASCII decimal text.
module Decimal {

  predicate IsDigit(c: char) { '0' <= c <= '9' }

  predicate IsDigits(s: string) { s != "" && forall c :: c in s ==> IsDigit(c) }

  function DigitValue(c: char): (d: nat)
    requires IsDigit(c)
    ensures d < 10
  {
    (c as int) - ('0' as int)
  }

  function DigitChar(d: nat): (c: char)
    requires d < 10
    ensures IsDigit(c) && DigitValue(c) == d
  {
    (('0' as int) + d) as char
  }

  function ToDecimal(n: nat): (s: string)
    ensures IsDigits(s)
  {
    if n < 10 then [DigitChar(n)] else ToDecimal(n / 10) + [DigitChar(n % 10)]
  }

  // The text of a possibly negative integer.
  function IntText(n: int): string { if n < 0 then "-" + ToDecimal(-n) else ToDecimal(n) }

  function FromDecimal(s: string): nat
    requires forall c :: c in s ==> IsDigit(c)
  {
    if s == "" then 0
    else
      assert s[|s| - 1] in s;
      10 * FromDecimal(s[..|s| - 1]) + DigitValue(s[|s| - 1])
  }

  predicate PositiveDigits(text: string) { IsDigits(text) && FromDecimal(text) > 0 }

  lemma {:induction false} RoundTrip(n: nat)
    ensures FromDecimal(ToDecimal(n)) == n
  {
    var s := ToDecimal(n);
    if n < 10 {
      assert s[..|s| - 1] == "";
    } else {
      assert s[..|s| - 1] == ToDecimal(n / 10);
      RoundTrip(n / 10);
    }
  }

  lemma NegativeIsNotDigits(n: int)
    ensures IsDigits(IntText(n)) <==> n >= 0
  {
    if n < 0 {
      assert IntText(n)[0] == '-' && '-' in IntText(n);
    }
  }

  // The digits are the usual ones, and a number ends in its last one.
  lemma DecimalExact(n: nat)
    ensures n < 10 ==> ToDecimal(n) == ["0123456789"[n]]
    ensures n >= 10 ==> ToDecimal(n) == ToDecimal(n / 10) + ["0123456789"[n % 10]]
    ensures IntText(n) == ToDecimal(n)
    ensures n > 0 ==> IntText(0 - n) == "-" + ToDecimal(n)
  {
    assert forall d: nat :: d < 10 ==> DigitChar(d) == "0123456789"[d];
  }
}
