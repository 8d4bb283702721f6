/** Decimal numerals, as `str(n)` prints and `int(s)` reads them. */
module Decimal {
  predicate IsDigit(c: char) {
    '0' <= c <= '9'
  }

  predicate AllDigits(s: string) {
    forall i :: 0 <= i < |s| ==> IsDigit(s[i])
  }

  function DigitChar(d: nat): (c: char)
    requires d < 10
    ensures IsDigit(c) && c as int == '0' as int + d
  {
    ('0' as int + d) as char
  }

  function DigitValue(c: char): (d: nat)
    requires IsDigit(c)
    ensures d < 10 && c as int == '0' as int + d
  {
    (c as int) - ('0' as int)
  }

  /** The canonical numeral: digits only, no leading zero but for "0" itself. */
  function Print(n: nat): (s: string)
    ensures s != "" && AllDigits(s)
    ensures s[0] == '0' ==> n == 0 && s == "0"
  {
    if n < 10 then [DigitChar(n)] else Print(n / 10) + [DigitChar(n % 10)]
  }

  function Value(s: string): nat
    requires AllDigits(s)
  {
    if s == "" then 0 else Value(s[..|s| - 1]) * 10 + DigitValue(s[|s| - 1])
  }

  /** Reading a printed number gives the number back. */
  lemma {:induction false} ReadPrinted(n: nat)
    ensures Value(Print(n)) == n
  {
    if n < 10 {
      assert Print(n)[..0] == "";
    } else {
      ReadPrinted(n / 10);
      var s := Print(n / 10) + [DigitChar(n % 10)];
      assert s[..|s| - 1] == Print(n / 10);
    }
  }

  /** The printed numeral is the shortest spelling of its value. */
  lemma {:induction false} PrintIsShortest(s: string)
    requires AllDigits(s) && s != ""
    ensures |Print(Value(s))| <= |s|
  {
    if |s| > 1 {
      PrintIsShortest(s[..|s| - 1]);
    }
  }

  lemma {:induction false} PrintedLength(n: nat)
    ensures n < 1000 ==> |Print(n)| <= 3
  {
    if 10 <= n < 1000 {
      assert |Print(n / 10)| <= 2;
    }
  }
}
