/** Decimal text of a natural number and its reading back. */
module Decimal {

  predicate IsDigit(c: char) { '0' <= c <= '9' }

  predicate AllDigits(s: string) {
    forall i :: 0 <= i < |s| ==> IsDigit(s[i])
  }

  function Digit(d: nat): char
    requires d < 10
  {
    "0123456789"[d]
  }

  function DigitValue(c: char): nat
    requires IsDigit(c)
  {
    (c - '0') as int
  }

  function Print(n: nat): string {
    if n < 10 then [Digit(n)] else Print(n / 10) + [Digit(n % 10)]
  }

  function Value(s: string): nat
    requires AllDigits(s)
  {
    if s == "" then 0 else Value(s[..|s| - 1]) * 10 + DigitValue(s[|s| - 1])
  }

  lemma DigitRoundTrip(d: nat)
    requires d < 10
    ensures IsDigit(Digit(d)) && DigitValue(Digit(d)) == d
  {}

  lemma {:induction false} PrintRoundTrip(n: nat)
    ensures Print(n) != "" && AllDigits(Print(n)) && Value(Print(n)) == n
  {
    var s := Print(n);
    DigitRoundTrip(n % 10);
    if n < 10 {
      assert s[..|s| - 1] == "";
    } else {
      PrintRoundTrip(n / 10);
      assert s[..|s| - 1] == Print(n / 10);
    }
  }

  lemma PrintInjective(m: nat, n: nat)
    requires Print(m) == Print(n)
    ensures m == n
  {
    PrintRoundTrip(m);
    PrintRoundTrip(n);
  }

  /** The digits, and what they are worth. */
  lemma DigitsExactly(c: char)
    ensures IsDigit(c) <==> c in "0123456789"
    ensures forall d: nat :: d < 10 ==> Digit(d) == "0123456789"[d]
  {}

  lemma PrintExample()
    ensures Print(1024) == "1024"
  {
    assert Print(1024) == Print(102) + "4" && Print(102) == Print(10) + "2" && Print(10) == Print(1) + "0";
  }
}
