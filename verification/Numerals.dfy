/** Decimal numerals: how a number is written, and what a string of digits says. */
module Numerals {
  import opened Words

  function Digit(d: nat): char
    requires d < 10
  {
    '0' + d as char
  }

  function DigitValue(c: char): nat {
    if '0' <= c <= '9' then (c - '0') as nat else 0
  }

  function Whole(m: nat): (s: string)
    ensures |s| >= 1
  {
    if m < 10 then [Digit(m)] else Whole(m / 10) + [Digit(m % 10)]
  }

  /** Reading a numeral from the left; anything but a digit counts as zero. */
  function Number(s: string): nat {
    if s == [] then 0 else Number(s[..|s| - 1]) * 10 + DigitValue(s[|s| - 1])
  }

  function Pow10(n: nat): (r: nat)
    ensures r >= 1
  {
    if n == 0 then 1 else 10 * Pow10(n - 1)
  }

  predicate AllDigits(s: string) {
    forall i | 0 <= i < |s| :: '0' <= s[i] <= '9'
  }

  lemma {:induction false} WholeReads(m: nat)
    ensures AllDigits(Whole(m)) && Number(Whole(m)) == m
  {
    if m < 10 {
      assert [Digit(m)][..0] == [];
    } else {
      WholeReads(m / 10);
      assert Whole(m)[..|Whole(m)| - 1] == Whole(m / 10);
    }
  }

  /** A numeral is positional: its characters are the base-10 digits of its number, most significant first. */
  lemma {:induction false} NumberDigits(s: string, i: nat)
    requires AllDigits(s) && i < |s|
    ensures s[i] == Digit(Number(s) / Pow10(|s| - 1 - i) % 10)
  {
    var n := |s| - 1;
    LastDigit(s);
    hide Number;
    if i < n {
      NumberDigits(s[..n], i);
      DivTwice(Number(s), 10, Pow10(n - 1 - i));
    } else {
      assert Pow10(0) == 1;
    }
  }

  lemma LastDigit(s: string)
    requires AllDigits(s) && s != []
    ensures Number(s) / 10 == Number(s[..|s| - 1]) && s[|s| - 1] == Digit(Number(s) % 10)
  {
    var n := |s| - 1;
    RemainderUnique(Number(s), 10, Number(s[..n]), DigitValue(s[n]));
  }

  /** And the number is below the power of ten with one digit more. */
  lemma {:induction false} NumberBound(s: string)
    ensures Number(s) < Pow10(|s|)
  {
    if s != [] {
      NumberBound(s[..|s| - 1]);
    }
  }
}
