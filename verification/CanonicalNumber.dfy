/** The Manager's normal form of decimal number tokens, which its digests use. */
module CanonicalNumber {
  import opened Common
  import opened Decimals

  // ----- JSON number tokens

  /** The parts of a token: sign, whole digits, fraction digits and exponent, with the exponent's own spelling. */
  datatype Parts = Parts(
    negative: bool,
    whole: string, fraction: Option<string>,
    exponent: Option<Exponent>)

  datatype Exponent = Exponent(capital: bool, sign: Option<bool>, digits: string)

  predicate IsToken(p: Parts) {
    && AreDigits(p.whole) && p.whole != ""
    && (p.fraction.Some? ==> AreDigits(p.fraction.value) && p.fraction.value != "")
    && (p.exponent.Some? ==> AreDigits(p.exponent.value.digits) && p.exponent.value.digits != "")
  }

  function ExponentText(e: Exponent): string {
    (if e.capital then "E" else "e") + SignText(e.sign) + e.digits
  }

  function SignText(sign: Option<bool>): string {
    match sign case None => "" case Some(negative) => if negative then "-" else "+"
  }

  function Mantissa(p: Parts): string {
    p.whole + (if p.fraction.Some? then "." + p.fraction.value else "")
  }

  function Sign(negative: bool): string {
    if negative then "-" else ""
  }

  /** How the token is spelled. */
  function Spelling(p: Parts): string {
    Sign(p.negative) + Mantissa(p)
    + (if p.exponent.Some? then ExponentText(p.exponent.value) else "")
  }

  // ----- the value of a token: sign * coefficient * 10^scale

  function Fraction(p: Parts): string {
    if p.fraction.Some? then p.fraction.value else ""
  }

  function Coefficient(p: Parts): nat
    requires IsToken(p)
  {
    Number(p.whole + Fraction(p))
  }

  function ExponentValue(p: Parts): int
    requires IsToken(p)
  {
    match p.exponent
    case None => 0
    case Some(e) => if e.sign == Some(true) then 0 - Number(e.digits) else Number(e.digits)
  }

  function Scale(p: Parts): int
    requires IsToken(p)
  {
    ExponentValue(p) - |Fraction(p)|
  }

  function Pow10(n: nat): nat {
    if n == 0 then 1 else 10 * Pow10(n - 1)
  }

  /** a * 10^d == b * 10^e, without fractions. */
  predicate SameMagnitude(a: nat, d: int, b: nat, e: int) {
    if d <= e then a == b * Pow10(e - d) else a * Pow10(d - e) == b
  }

  /** The two tokens denote the same rational; the two zeros coincide. */
  predicate SameRational(p: Parts, q: Parts)
    requires IsToken(p) && IsToken(q)
  {
    && SameMagnitude(Coefficient(p), Scale(p), Coefficient(q), Scale(q))
    && (Coefficient(p) != 0 ==> p.negative == q.negative)
  }

  // ----- the normal form

  function Lower(c: char): char {
    if 'A' <= c <= 'Z' then c + ('a' - 'A') else c
  }

  function LowerAll(s: string): string {
    seq(|s|, i requires 0 <= i < |s| => Lower(s[i]))
  }

  /** `split_once(c)`; without `c`, the whole string and nothing. */
  function SplitOnce(s: string, c: char): (string, Option<string>) {
    if s == "" then ("", None)
    else if s[0] == c then ("", Some(s[1..]))
    else
      var rest := SplitOnce(s[1..], c);
      ([s[0]] + rest.0, rest.1)
  }

  function TrimZerosStart(s: string): string {
    if s != "" && s[0] == '0' then TrimZerosStart(s[1..]) else s
  }

  function TrimZerosEnd(s: string): string {
    if s != "" && s[|s| - 1] == '0' then TrimZerosEnd(s[..|s| - 1]) else s
  }

  /** `str::parse::<i64>` of an exponent, as an unbounded integer. */
  function ParseInt(s: string): Option<int> {
    var negative := s != "" && s[0] == '-';
    var digits := if s != "" && (s[0] == '-' || s[0] == '+') then s[1..] else s;
    if digits == "" || !AreDigits(digits) then None
    else Some(if negative then 0 - Number(digits) else Number(digits))
  }

  /** Sign, digits without outer zeros, and the power of ten of the last digit; zero has no digits. */
  datatype Normal = Normal(negative: bool, digits: string, exponent: int)

  function NormalText(n: Normal): string {
    if n.digits == "" then "0e+0"
    else Sign(n.negative) + n.digits + "e" + SignedText(n.exponent)
  }

  /** `normalized_canonical_float`; None when the exponent is not an integer. */
  function Normalize(token: string): Option<Normal> {
    var lower := LowerAll(token);
    var negative := lower != "" && lower[0] == '-';
    var unsigned := if negative then lower[1..] else lower;
    var (mantissa, exponentText) := SplitOnce(unsigned, 'e');
    var exponent := if exponentText.Some? then ParseInt(exponentText.value) else Some(0);
    if exponent.None? then None
    else
      var (whole, fractionText) := SplitOnce(mantissa, '.');
      var fraction := if fractionText.Some? then fractionText.value else "";
      var significant := TrimZerosStart(whole + fraction);
      var digits := TrimZerosEnd(significant);
      if significant == "" then Some(Normal(false, "", 0))
      else Some(Normal(negative, digits, exponent.value - |fraction| + (|significant| - |digits|)))
  }

  function NormalizedFloat(token: string): Option<string> {
    match Normalize(token)
    case None => None
    case Some(n) => Some(NormalText(n))
  }

  // ----- reading a spelling back into its parts

  lemma {:induction false} SplitOnceAt(a: string, c: char, b: string)
    requires c !in a
    ensures SplitOnce(a, c) == (a, None)
    ensures SplitOnce(a + [c] + b, c) == (a, Some(b))
  {
    if a == "" {
      assert ("" + [c] + b)[1..] == b;
    } else {
      assert c !in a[1..];
      SplitOnceAt(a[1..], c, b);
      assert (a + [c] + b)[1..] == a[1..] + [c] + b;
      assert [a[0]] + a[1..] == a;
    }
  }

  lemma LowerFixes(s: string)
    requires forall i :: 0 <= i < |s| ==> !('A' <= s[i] <= 'Z')
    ensures LowerAll(s) == s
  {
  }

  lemma LowerJoins(s: string, t: string)
    ensures LowerAll(s + t) == LowerAll(s) + LowerAll(t)
  {
  }

  function LowerExponentText(e: Exponent): string {
    "e" + SignText(e.sign) + e.digits
  }

  /** The lowered token after its sign. */
  function Unsigned(p: Parts): string {
    Mantissa(p) + (if p.exponent.Some? then LowerExponentText(p.exponent.value) else "")
  }

  lemma LowerSpelling(p: Parts)
    requires IsToken(p)
    ensures LowerAll(Spelling(p)) == Sign(p.negative) + Unsigned(p)
  {
    var head := Sign(p.negative) + Mantissa(p);
    HeadHasNoCapitals(p);
    LowerFixes(head);
    if p.exponent.Some? {
      var tail := ExponentText(p.exponent.value);
      LowerJoins(head, tail);
      LowerExponent(p.exponent.value);
      hide LowerAll, Mantissa, ExponentText, LowerExponentText;
      assert head + LowerAll(tail) == Sign(p.negative) + Unsigned(p);
    } else {
      hide LowerAll, Mantissa;
      assert Spelling(p) == head && head == Sign(p.negative) + Unsigned(p);
    }
  }

  lemma HeadHasNoCapitals(p: Parts)
    requires IsToken(p)
    ensures var head := Sign(p.negative) + Mantissa(p);
            forall i :: 0 <= i < |head| ==> !('A' <= head[i] <= 'Z')
  {
    MantissaDigits(p);
    hide Mantissa;
  }

  // A mantissa has no sign and no exponent mark, and starts with a digit.
  lemma MantissaDigits(p: Parts)
    requires IsToken(p)
    ensures var m := Mantissa(p);
            && m != "" && IsDigit(m[0])
            && forall i :: 0 <= i < |m| ==> IsDigit(m[i]) || m[i] == '.'
  {
  }

  lemma LowerExponent(e: Exponent)
    requires AreDigits(e.digits)
    ensures LowerAll(ExponentText(e)) == LowerExponentText(e)
  {
    var mark, rest := if e.capital then "E" else "e", SignText(e.sign) + e.digits;
    LowerJoins(mark, rest);
    LowerFixes(rest);
    assert ExponentText(e) == mark + rest && LowerExponentText(e) == "e" + rest;
  }

  lemma ParseExponent(p: Parts)
    requires IsToken(p) && p.exponent.Some?
    ensures var e := p.exponent.value; ParseInt(SignText(e.sign) + e.digits) == Some(ExponentValue(p))
  {
    var e := p.exponent.value;
    var s := SignText(e.sign) + e.digits;
    hide Number;
    if e.sign.Some? {
      assert s[1..] == e.digits;
    } else {
      assert s == e.digits && IsDigit(s[0]);
    }
  }

  /** What the normal form of a token is, in terms of its parts. */
  lemma NormalizeSpelling(p: Parts)
    requires IsToken(p)
    ensures var significant := TrimZerosStart(p.whole + Fraction(p));
            var digits := TrimZerosEnd(significant);
            Normalize(Spelling(p)) ==
              Some(if significant == "" then Normal(false, "", 0)
                   else Normal(p.negative, digits, Scale(p) + (|significant| - |digits|)))
  {
    LowerSpelling(p);
    UnsignedHead(p);
    SplitMantissa(p);
    SplitFraction(p);
    if p.exponent.Some? {
      ParseExponent(p);
    }
    var text := if p.exponent.Some? then Some(SignText(p.exponent.value.sign) + p.exponent.value.digits) else None;
    assert p.exponent.None? ==> ExponentValue(p) == 0;
    hide *;
    SignSplits(p.negative, Unsigned(p), LowerAll(Spelling(p)));
    NormalizeFrom(Spelling(p), p.negative, Unsigned(p), Mantissa(p), text, ExponentValue(p), p.whole, p.fraction);
    ScaleIs(p);
  }

  lemma UnsignedHead(p: Parts)
    requires IsToken(p)
    ensures Unsigned(p) != "" && Unsigned(p)[0] != '-'
  {
    MantissaDigits(p);
    hide Mantissa, LowerExponentText;
    assert Unsigned(p)[0] == Mantissa(p)[0];
  }

  lemma ScaleIs(p: Parts)
    requires IsToken(p)
    ensures Scale(p) == ExponentValue(p) - |Fraction(p)|
    ensures Fraction(p) == if p.fraction.Some? then p.fraction.value else ""
  {
  }

  lemma SignSplits(negative: bool, unsigned: string, lower: string)
    requires lower == Sign(negative) + unsigned && unsigned != "" && unsigned[0] != '-'
    ensures lower != "" && negative == (lower[0] == '-') && unsigned == if negative then lower[1..] else lower
  {
  }

  // The steps of Normalize, one intermediate value at a time.
  lemma NormalizeFrom(token: string, negative: bool, unsigned: string, mantissa: string, exponentText: Option<string>,
                      exponent: int, whole: string, fractionText: Option<string>)
    requires var lower := LowerAll(token);
             lower != "" && negative == (lower[0] == '-') && unsigned == if negative then lower[1..] else lower
    requires SplitOnce(unsigned, 'e') == (mantissa, exponentText)
    requires if exponentText.Some? then ParseInt(exponentText.value) == Some(exponent) else exponent == 0
    requires SplitOnce(mantissa, '.') == (whole, fractionText)
    ensures var fraction := if fractionText.Some? then fractionText.value else "";
            var significant := TrimZerosStart(whole + fraction);
            var digits := TrimZerosEnd(significant);
            Normalize(token) ==
              Some(if significant == "" then Normal(false, "", 0)
                   else Normal(negative, digits, exponent - |fraction| + (|significant| - |digits|)))
  {
    hide LowerAll, SplitOnce, ParseInt, TrimZerosStart, TrimZerosEnd;
  }

  lemma SplitMantissa(p: Parts)
    requires IsToken(p)
    ensures SplitOnce(Unsigned(p), 'e') ==
              (Mantissa(p),
               if p.exponent.Some? then Some(SignText(p.exponent.value.sign) + p.exponent.value.digits) else None)
  {
    hide *;
    NoMarkInMantissa(p);
    UnsignedIs(p);
    SplitOnceAt(Mantissa(p), 'e',
                if p.exponent.Some? then SignText(p.exponent.value.sign) + p.exponent.value.digits else "");
  }

  lemma NoMarkInMantissa(p: Parts)
    requires IsToken(p)
    ensures 'e' !in Mantissa(p)
  {
    MantissaDigits(p);
    hide Mantissa;
  }

  lemma UnsignedIs(p: Parts)
    ensures p.exponent.None? ==> Unsigned(p) == Mantissa(p)
    ensures p.exponent.Some? ==>
        Unsigned(p) == Mantissa(p) + ['e'] + (SignText(p.exponent.value.sign) + p.exponent.value.digits)
  {
    hide Mantissa, SignText;
    if p.exponent.Some? {
      var e := p.exponent.value;
      assert LowerExponentText(e) == ['e'] + (SignText(e.sign) + e.digits);
    }
  }

  lemma SplitFraction(p: Parts)
    requires IsToken(p)
    ensures SplitOnce(Mantissa(p), '.') == (p.whole, p.fraction)
  {
    SplitOnceAt(p.whole, '.', Fraction(p));
    if p.fraction.Some? {
      assert Mantissa(p) == p.whole + ['.'] + p.fraction.value;
    } else {
      assert Mantissa(p) == p.whole;
    }
  }

  // ----- the normal form decides the rational

  /** Digits with no zero at either end and a power of ten, or zero. */
  ghost predicate IsNormal(n: Normal) {
    && AreDigits(n.digits)
    && (n.digits == "" ==> n == Normal(false, "", 0))
    && (n.digits != "" ==> n.digits[0] != '0' && n.digits[|n.digits| - 1] != '0')
  }

  lemma {:induction false} TrimStartNumber(s: string)
    requires AreDigits(s)
    ensures var t := TrimZerosStart(s); AreDigits(t) && Number(t) == Number(s) && (t != "" ==> t[0] != '0')
  {
    if s != "" && s[0] == '0' {
      DropLeadingZero(s);
      TrimStartNumber(s[1..]);
    }
  }

  lemma {:induction false} DropLeadingZero(s: string)
    requires AreDigits(s) && s != "" && s[0] == '0'
    ensures Number(s[1..]) == Number(s)
  {
    var n := |s| - 1;
    if n > 0 {
      DropLeadingZero(s[..n]);
      assert s[1..][..n - 1] == s[..n][1..];
    } else {
      assert s[..0] == "" && s[1..] == "";
    }
  }

  lemma {:induction false} TrimEndNumber(s: string)
    requires AreDigits(s)
    ensures var t := TrimZerosEnd(s);
            && AreDigits(t) && |t| <= |s| && Number(s) == Number(t) * Pow10(|s| - |t|)
            && (t != "" ==> t[|t| - 1] != '0' && t[0] == s[0])
  {
    if s != "" && s[|s| - 1] == '0' {
      var n := |s| - 1;
      TrimEndNumber(s[..n]);
      var t := TrimZerosEnd(s[..n]);
      Pow10Step(|s| - |t|);
      TenOut(Number(t), Pow10(n - |t|));
    }
  }

  lemma {:induction false} NonZeroDigits(s: string)
    requires AreDigits(s) && s != "" && s[0] != '0'
    ensures TrimZerosEnd(s) != ""
  {
    if |s| > 1 && s[|s| - 1] == '0' {
      NonZeroDigits(s[..|s| - 1]);
    }
  }

  /** Normalising keeps the rational: the coefficient is the normal digits times a power of ten. */
  lemma NormalizeDenotes(p: Parts)
    requires IsToken(p)
    ensures Normalize(Spelling(p)).Some?
    ensures var n := Normalize(Spelling(p)).value;
            && IsNormal(n) && (n.digits == "" <==> Coefficient(p) == 0)
            && (n.digits != "" ==>
                  n.negative == p.negative && n.exponent >= Scale(p)
                  && Coefficient(p) == Number(n.digits) * Pow10(n.exponent - Scale(p)))
  {
    NormalizeSpelling(p);
    var all := p.whole + Fraction(p);
    var significant := TrimZerosStart(all);
    var digits := TrimZerosEnd(significant);
    TrimStartNumber(all);
    TrimEndNumber(significant);
    if significant != "" {
      NonZeroDigits(significant);
      NumberPositive(significant);
    }
    hide TrimZerosStart, TrimZerosEnd, Normalize, Spelling;
  }

  lemma {:induction false} Pow10Adds(a: nat, b: nat)
    ensures Pow10(a + b) == Pow10(a) * Pow10(b) && Pow10(a) > 0
    decreases a
  {
    if a > 0 {
      Pow10Adds(a - 1, b);
    }
  }

  // Numerals whose last digit is not zero are not multiples of ten, so powers of ten decide.
  lemma SameNormal(s: string, d: int, t: string, e: int)
    requires AreDigits(s) && s != "" && s[0] != '0' && s[|s| - 1] != '0'
    requires AreDigits(t) && t != "" && t[0] != '0' && t[|t| - 1] != '0'
    requires d <= e
    ensures Number(s) == Number(t) * Pow10(e - d) <==> s == t && d == e
  {
    hide Number, Pow10, AreDigits;
    if d < e {
      LastDigit(s);
      MultipleOfTen(Number(t), e - d);
    } else {
      Pow10Zero();
      if Number(s) == Number(t) {
        NumberInjective(s, t);
      }
    }
  }

  lemma Pow10Zero()
    ensures Pow10(0) == 1
  {
  }

  lemma Pow10Step(n: nat)
    requires n > 0
    ensures Pow10(n) == 10 * Pow10(n - 1)
  {
  }

  lemma MultipleOfTen(a: nat, n: nat)
    requires n > 0
    ensures a * Pow10(n) % 10 == 0
  {
    hide *;
    var k := Pow10(n - 1);
    calc {
      a * Pow10(n);
      { Pow10Step(n); }
      a * (10 * k);
      { TenOut(a, k); }
      10 * (a * k);
    }
    TenTimes(a * k);
  }

  lemma TenOut(a: nat, k: nat)
    ensures a * (10 * k) == 10 * (a * k)
  {
  }

  lemma TenTimes(k: nat)
    ensures 10 * k % 10 == 0
  {
  }

  lemma LastDigit(s: string)
    requires AreDigits(s) && s != "" && s[|s| - 1] != '0'
    ensures Number(s) % 10 != 0
  {
  }

  // Both sides of a magnitude equation may be expressed at a lower scale.
  lemma SameMagnitudeScaled(a: nat, d: int, b: nat, e: int, d': int, e': int)
    requires d' <= d && e' <= e
    ensures SameMagnitude(a * Pow10(d - d'), d', b * Pow10(e - e'), e') <==> SameMagnitude(a, d, b, e)
  {
    if d' <= e' {
      ScaledLeft(a, d, b, e, d', e');
    } else {
      SameMagnitudeSymmetric(a * Pow10(d - d'), d', b * Pow10(e - e'), e');
      SameMagnitudeSymmetric(a, d, b, e);
      ScaledLeft(b, e, a, d, e', d');
    }
  }

  lemma SameMagnitudeSymmetric(a: nat, d: int, b: nat, e: int)
    ensures SameMagnitude(a, d, b, e) <==> SameMagnitude(b, e, a, d)
  {
  }

  lemma ScaledLeft(a: nat, d: int, b: nat, e: int, d': int, e': int)
    requires d' <= d && e' <= e && d' <= e'
    ensures SameMagnitude(a * Pow10(d - d'), d', b * Pow10(e - e'), e') <==> SameMagnitude(a, d, b, e)
  {
    hide Pow10;
    var x, y, k := Pow10(e - e'), Pow10(e' - d'), Pow10(d - d');
    Pow10Adds(e - e', e' - d');
    Regroup(b, x, y);
    if d <= e {
      Pow10Adds(e - d, d - d');
      Pow10Adds(d - d', 0);
      Regroup(b, Pow10(e - d), k);
      CancelFactor(a, b * Pow10(e - d), k);
    } else {
      Pow10Adds(d - e, e - d');
      Pow10Adds(e - d', 0);
      Regroup(a, Pow10(d - e), x * y);
      CancelFactor(a * Pow10(d - e), b, x * y);
    }
  }

  lemma Regroup(b: nat, x: nat, y: nat)
    ensures b * x * y == b * (x * y)
  {
  }

  lemma CancelFactor(a: nat, b: nat, k: nat)
    requires k > 0
    ensures a * k == b * k <==> a == b
  {
  }

  /** Two tokens have the same normal form exactly when they denote the same rational. */
  lemma SameNormalIffSameRational(p: Parts, q: Parts)
    requires IsToken(p) && IsToken(q)
    ensures Normalize(Spelling(p)) == Normalize(Spelling(q)) <==> SameRational(p, q)
  {
    hide Normalize, Spelling, Coefficient, Scale, IsNormal, Number, Pow10, SameMagnitude, IsToken;
    NormalizeDenotes(p);
    NormalizeDenotes(q);
    NormalsDecide(Normalize(Spelling(p)).value, Normalize(Spelling(q)).value, Coefficient(p), Scale(p), p.negative,
                  Coefficient(q), Scale(q), q.negative);
  }

  /** `n` is the normal form of `a` times ten to the `d`, with the sign. */
  ghost predicate Denotes(n: Normal, a: nat, d: int, negative: bool) {
    && IsNormal(n) && (n.digits == "" <==> a == 0)
    && (n.digits != "" ==> n.negative == negative && n.exponent >= d && a == Number(n.digits) * Pow10(n.exponent - d))
  }

  lemma NormalsDecide(m: Normal, n: Normal, a: nat, d: int, minus: bool, b: nat, e: int, minusToo: bool)
    requires Denotes(m, a, d, minus) && Denotes(n, b, e, minusToo)
    ensures m == n <==> SameMagnitude(a, d, b, e) && (a != 0 ==> minus == minusToo)
  {
    hide Number, Pow10, SameMagnitude, AreDigits;
    if m.digits == "" || n.digits == "" {
      ZeroMagnitude(a, d, b, e);
    } else {
      SameMagnitudeScaled(Number(m.digits), m.exponent, Number(n.digits), n.exponent, d, e);
      DigitsDecide(m, n);
    }
  }

  lemma DigitsDecide(m: Normal, n: Normal)
    requires IsNormal(m) && IsNormal(n) && m.digits != "" && n.digits != ""
    ensures SameMagnitude(Number(m.digits), m.exponent, Number(n.digits), n.exponent) <==>
            m.digits == n.digits && m.exponent == n.exponent
  {
    hide Number, Pow10, AreDigits;
    if m.exponent <= n.exponent {
      SameNormal(m.digits, m.exponent, n.digits, n.exponent);
    } else {
      SameNormal(n.digits, n.exponent, m.digits, m.exponent);
    }
  }

  lemma ZeroMagnitude(a: nat, d: int, b: nat, e: int)
    ensures a == 0 || b == 0 ==> (SameMagnitude(a, d, b, e) <==> a == b)
  {
    if d <= e {
      Pow10Adds(e - d, 0);
      CancelFactor(b, 0, Pow10(e - d));
    } else {
      Pow10Adds(d - e, 0);
      CancelFactor(a, 0, Pow10(d - e));
    }
  }

  lemma NormalTextInjective(m: Normal, n: Normal)
    requires IsNormal(m) && IsNormal(n) && NormalText(m) == NormalText(n)
    ensures m == n
  {
    hide NormalText;
    TextHead(m);
    TextHead(n);
    if m.digits != "" && n.digits != "" {
      TextParts(m);
      TextParts(n);
      SignedTextInjective(m.exponent, n.exponent);
    }
  }

  lemma TextHead(n: Normal)
    requires IsNormal(n)
    ensures NormalText(n) != "" && (NormalText(n)[0] == '0' <==> n.digits == "")
  {
  }

  // The text splits back at its sign and its exponent mark.
  lemma TextParts(n: Normal)
    requires IsNormal(n) && n.digits != ""
    ensures var t := NormalText(n);
            && n.negative == (t[0] == '-')
            && SplitOnce(if n.negative then t[1..] else t, 'e') == (n.digits, Some(SignedText(n.exponent)))
  {
    hide SplitOnce, SignedText;
    var body := n.digits + ['e'] + SignedText(n.exponent);
    SplitOnceAt(n.digits, 'e', SignedText(n.exponent));
    assert NormalText(n) == Sign(n.negative) + body;
    assert body[0] == n.digits[0];
    SignSplits(n.negative, body, NormalText(n));
  }

  /** The digest text of two decimal tokens agrees exactly when they denote the same rational. */
  lemma NormalizedFloatIsExact(p: Parts, q: Parts)
    requires IsToken(p) && IsToken(q)
    ensures NormalizedFloat(Spelling(p)).Some?
    ensures NormalizedFloat(Spelling(p)) == NormalizedFloat(Spelling(q)) <==> SameRational(p, q)
  {
    NormalizeDenotes(p);
    NormalizeDenotes(q);
    SameNormalIffSameRational(p, q);
    var m, n := Normalize(Spelling(p)).value, Normalize(Spelling(q)).value;
    hide Normalize, Spelling, SameRational, NormalText, IsNormal;
    if NormalText(m) == NormalText(n) {
      NormalTextInjective(m, n);
    }
  }
}
