/** Decimal numerals: writing numbers as text and reading digit strings back. */
module Decimals {

  predicate IsDigit(c: char) {
    '0' <= c <= '9'
  }

  predicate AreDigits(s: string) {
    forall i :: 0 <= i < |s| ==> IsDigit(s[i])
  }

  function DigitValue(c: char): nat
    requires IsDigit(c)
  {
    c as int - '0' as int
  }

  function DigitChar(d: nat): char
    requires d < 10
  {
    '0' + d as char
  }

  /** The number a digit string denotes; leading zeros are allowed. */
  function Number(s: string): nat
    requires AreDigits(s)
  {
    if s == "" then 0 else 10 * Number(s[..|s| - 1]) + DigitValue(s[|s| - 1])
  }

  function Decimal(n: nat): string {
    if n < 10 then [DigitChar(n)] else Decimal(n / 10) + [DigitChar(n % 10)]
  }

  /** `{}` of a signed integer. */
  function IntText(n: int): string {
    if n < 0 then "-" + Decimal(-n) else Decimal(n)
  }

  /** `{:+}` of a signed integer. */
  function SignedText(n: int): string {
    if n < 0 then "-" + Decimal(-n) else "+" + Decimal(n)
  }

  lemma {:induction false} DecimalDenotes(n: nat)
    ensures AreDigits(Decimal(n)) && Decimal(n) != "" && Number(Decimal(n)) == n
  {
    if n < 10 {
      assert Decimal(n)[..0] == "";
    } else {
      DecimalDenotes(n / 10);
      assert Decimal(n)[..|Decimal(n)| - 1] == Decimal(n / 10);
    }
  }

  lemma DecimalInjective(a: nat, b: nat)
    requires Decimal(a) == Decimal(b)
    ensures a == b
  {
    DecimalDenotes(a);
    DecimalDenotes(b);
  }

  lemma IntTextInjective(a: int, b: int)
    requires IntText(a) == IntText(b)
    ensures a == b
  {
    DecimalDenotes(if a < 0 then -a else a);
    DecimalDenotes(if b < 0 then -b else b);
    assert a < 0 ==> IntText(a)[0] == '-' && IntText(a)[1..] == Decimal(-a);
    assert b < 0 ==> IntText(b)[0] == '-' && IntText(b)[1..] == Decimal(-b);
    assert a >= 0 ==> IsDigit(IntText(a)[0]);
    assert b >= 0 ==> IsDigit(IntText(b)[0]);
  }

  lemma SignedTextInjective(a: int, b: int)
    requires SignedText(a) == SignedText(b)
    ensures a == b
  {
    DecimalDenotes(if a < 0 then -a else a);
    DecimalDenotes(if b < 0 then -b else b);
    assert SignedText(a)[1..] == Decimal(if a < 0 then -a else a);
    assert SignedText(b)[1..] == Decimal(if b < 0 then -b else b);
  }

  /** Digit strings without a leading zero are equal when their numbers are. */
  lemma {:induction false} NumberInjective(s: string, t: string)
    requires AreDigits(s) && AreDigits(t) && Number(s) == Number(t)
    requires s != "" ==> s[0] != '0'
    requires t != "" ==> t[0] != '0'
    ensures s == t
    decreases |s| + |t|
  {
    if s != "" {
      NumberPositive(s);
    }
    if t != "" {
      NumberPositive(t);
    }
    if s != "" && t != "" {
      var m, n := |s| - 1, |t| - 1;
      NumberInjective(s[..m], t[..n]);
      assert s == s[..m] + [s[m]] && t == t[..n] + [t[n]];
    }
  }

  lemma {:induction false} NumberPositive(s: string)
    requires AreDigits(s) && s != "" && s[0] != '0'
    ensures Number(s) > 0
  {
    if |s| > 1 {
      NumberPositive(s[..|s| - 1]);
    }
  }
}
