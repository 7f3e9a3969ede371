/** Decimal digit strings and the numbers they denote. */
module Decimal {

  predicate IsDigit(c: char) {
    '0' <= c <= '9'
  }

  predicate AllDigits(s: string) {
    forall i | 0 <= i < |s| :: IsDigit(s[i])
  }

  function DigitValue(c: char): (d: nat)
    requires IsDigit(c)
    ensures d <= 9
  {
    c as int - '0' as int
  }

  function Pow10(n: nat): (p: nat)
    ensures p >= 1
  {
    if n == 0 then 1 else 10 * Pow10(n - 1)
  }

  /** The number a digit string denotes; the empty string denotes zero. */
  function Denotes(s: string): nat
    requires AllDigits(s)
  {
    if s == "" then 0 else 10 * Denotes(s[..|s| - 1]) + DigitValue(s[|s| - 1])
  }

  /** `%u` and `%d` of a non-negative number. */
  function Digits(n: nat): (s: string)
    ensures s != "" && AllDigits(s)
  {
    if n < 10 then [('0' as int + n) as char] else Digits(n / 10) + [('0' as int + n % 10) as char]
  }

  lemma {:induction false} DigitsDenote(n: nat)
    ensures Denotes(Digits(n)) == n
  {
    if n >= 10 {
      DigitsDenote(n / 10);
      assert Digits(n)[..|Digits(n)| - 1] == Digits(n / 10);
    } else {
      assert Digits(n)[..0] == "";
    }
  }

  lemma DigitsInjective(m: nat, n: nat)
    requires Digits(m) == Digits(n)
    ensures m == n
  {
    DigitsDenote(m);
    DigitsDenote(n);
  }

  /** No leading zero: a number has one such digit string, and this is it. */
  lemma {:induction false} DigitsCanonical(n: nat)
    ensures if n == 0 then Digits(n) == "0" else Digits(n)[0] != '0'
  {
    if n >= 10 {
      DigitsCanonical(n / 10);
    }
  }

  lemma {:induction false} DigitsUnique(s: string)
    requires s != "" && AllDigits(s) && (|s| > 1 ==> s[0] != '0')
    ensures Digits(Denotes(s)) == s
  {
    var front, last := s[..|s| - 1], DigitValue(s[|s| - 1]);
    if front != "" {
      assert front[0] == s[0];
      DigitsUnique(front);
      assert Denotes(s) == 10 * Denotes(front) + last;
      assert Denotes(front) != 0;
      assert Denotes(s) / 10 == Denotes(front) && Denotes(s) % 10 == last;
      assert s == front + [s[|s| - 1]];
    } else {
      assert Denotes(front) == 0;
    }
  }

  lemma {:induction false} DenotesBound(s: string)
    requires AllDigits(s)
    ensures Denotes(s) < Pow10(|s|)
  {
    if s != "" {
      DenotesBound(s[..|s| - 1]);
    }
  }

  lemma MulTen(a: nat, b: nat)
    ensures a * (10 * b) == 10 * (a * b)
  {
  }

  lemma {:induction false} DenotesAppend(s: string, t: string)
    requires AllDigits(s) && AllDigits(t)
    ensures AllDigits(s + t)
    ensures Denotes(s + t) == Denotes(s) * Pow10(|t|) + Denotes(t)
  {
    if t == "" {
      assert s + t == s;
      assert Denotes(s) * Pow10(0) == Denotes(s);
    } else {
      var u, d := t[..|t| - 1], DigitValue(t[|t| - 1]);
      DenotesAppend(s, u);
      assert (s + t)[..|s + t| - 1] == s + u && (s + t)[|s + t| - 1] == t[|t| - 1];
      assert Denotes(s + t) == 10 * Denotes(s + u) + d;
      assert Denotes(t) == 10 * Denotes(u) + d;
      MulTen(Denotes(s), Pow10(|u|));
      assert Pow10(|t|) == 10 * Pow10(|u|);
    }
  }

  lemma DenotesLeadingDigit(s: string)
    requires s != "" && AllDigits(s)
    ensures Denotes(s) == DigitValue(s[0]) * Pow10(|s| - 1) + Denotes(s[1..])
  {
    assert s == s[..1] + s[1..];
    DenotesAppend(s[..1], s[1..]);
    assert s[..1][..0] == "";
    assert Denotes(s[..1]) == DigitValue(s[0]);
  }

  lemma {:induction false} Pow10Monotone(m: nat, n: nat)
    requires m <= n
    ensures Pow10(m) <= Pow10(n)
  {
    if m < n {
      Pow10Monotone(m, n - 1);
    }
  }
}
