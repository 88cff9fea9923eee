/** Decimal rendering of non-negative integers, together with the parser that
    inverts it. For integral values below 10^21, which include every percent
    the component renders (0 to 100), this is the text JavaScript's
    number-to-string conversion produces; from 10^21 on, JavaScript switches
    to exponent notation, which is not modelled. */
module Decimal {

  predicate IsDigit(c: char) {
    '0' <= c <= '9'
  }

  predicate AllDigits(s: string) {
    forall i | 0 <= i < |s| :: IsDigit(s[i])
  }

  /** A canonical decimal numeral: non-empty, digits only, no leading zero. */
  predicate IsCanonical(s: string) {
    |s| > 0 && AllDigits(s) && (|s| > 1 ==> s[0] != '0')
  }

  function DigitValue(c: char): (d: nat)
    requires IsDigit(c)
    ensures d < 10
  {
    c as int - '0' as int
  }

  function DigitChar(d: nat): (c: char)
    requires d < 10
    ensures IsDigit(c) && DigitValue(c) == d
  {
    ('0' as int + d) as char
  }

  /** The decimal numeral of `n`, most significant digit first. */
  function FromNat(n: nat): (s: string)
    ensures IsCanonical(s)
    decreases n
  {
    if n < 10 then [DigitChar(n)] else FromNat(n / 10) + [DigitChar(n % 10)]
  }

  /** The number a string of digits denotes. */
  function Value(s: string): nat
    requires AllDigits(s)
    decreases |s|
  {
    if |s| == 0 then 0 else 10 * Value(s[..|s| - 1]) + DigitValue(s[|s| - 1])
  }

  /** Reading back a rendered number gives the number. */
  lemma {:induction false} ValueOfFromNat(n: nat)
    ensures Value(FromNat(n)) == n
    decreases n
  {
    var s := FromNat(n);
    if n >= 10 {
      ValueOfFromNat(n / 10);
      assert s[..|s| - 1] == FromNat(n / 10);
    }
  }

  /** A canonical numeral with a non-zero first digit denotes a positive number. */
  lemma {:induction false} LeadingDigitPositive(s: string)
    requires |s| > 0 && AllDigits(s) && s[0] != '0'
    ensures Value(s) > 0
    decreases |s|
  {
    if |s| > 1 {
      LeadingDigitPositive(s[..|s| - 1]);
    }
  }

  /** Rendering the value of a canonical numeral gives the numeral back. */
  lemma {:induction false} FromNatOfValue(s: string)
    requires IsCanonical(s)
    ensures FromNat(Value(s)) == s
    decreases |s|
  {
    if |s| > 1 {
      var front := s[..|s| - 1];
      LeadingDigitPositive(front);
      FromNatOfValue(front);
      var d := DigitValue(s[|s| - 1]);
      assert Value(s) == 10 * Value(front) + d;
      assert Value(s) / 10 == Value(front) && Value(s) % 10 == d;
      assert DigitChar(d) == s[|s| - 1];
      assert s == front + [s[|s| - 1]];
    } else {
      assert s == [DigitChar(DigitValue(s[0]))];
    }
  }
}
