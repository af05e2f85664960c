/** Decimal numerals, as `%d` and `strconv` write and read them. */
module Decimal {
  function Digit(n: nat): (r: char)
    requires n < 10
    ensures IsDigit(r) && DigitValue(r) == n
  {
    ('0' as int + n) as char
  }

  predicate IsDigit(ch: char) {
    '0' <= ch <= '9'
  }

  function DigitValue(ch: char): (r: nat)
    requires IsDigit(ch)
    ensures r < 10
  {
    ch as int - '0' as int
  }

  /** The decimal numeral of n. */
  function Text(n: nat): (r: string)
    ensures |r| > 0
  {
    if n < 10 then [Digit(n)] else Text(n / 10) + [Digit(n % 10)]
  }

  predicate AllDigits(s: string) {
    forall i :: 0 <= i < |s| ==> IsDigit(s[i])
  }

  /** The number a string of digits denotes. */
  function Value(s: string): nat
    requires AllDigits(s)
  {
    if s == [] then 0 else Value(s[..|s| - 1]) * 10 + DigitValue(s[|s| - 1])
  }

  /** A numeral without a superfluous leading zero. */
  predicate Canonical(s: string) {
    s != [] && AllDigits(s) && (|s| > 1 ==> s[0] != '0')
  }

  /** Reading what was written gives the number back, and numerals are canonical. */
  lemma {:induction false} ValueOfText(n: nat)
    ensures Canonical(Text(n)) && Value(Text(n)) == n
    ensures n > 0 ==> Text(n)[0] != '0'
  {
    if n >= 10 {
      ValueOfText(n / 10);
      assert Text(n)[..|Text(n)| - 1] == Text(n / 10);
    } else {
      assert Text(n)[..0] == [];
    }
  }

  lemma TextSnoc(n: nat, d: nat)
    requires n > 0 && d < 10
    ensures Text(n * 10 + d) == Text(n) + [Digit(d)]
  {
    assert (n * 10 + d) / 10 == n && (n * 10 + d) % 10 == d;
  }

  /** Writing what was read gives the canonical numeral back. */
  lemma {:induction false} TextOfValue(s: string)
    requires Canonical(s)
    ensures Text(Value(s)) == s
    ensures s[0] != '0' ==> Value(s) > 0
  {
    var init, last := s[..|s| - 1], s[|s| - 1];
    assert s == init + [last];
    if init != [] {
      TextOfValue(init);
      TextSnoc(Value(init), DigitValue(last));
    }
  }

  /** Numerals are decimal: one digit below ten, and otherwise the numeral of the tenth part and one digit more. */
  lemma TextIs(n: nat)
    ensures n < 10 ==> Text(n) == [(48 + n) as char]
    ensures n >= 10 ==> Text(n) == Text(n / 10) + [(48 + n % 10) as char]
  {
  }
}
