/**
 Decimal numerals: what `%u` prints, how a row of digits is read back, and why the two are inverses.
 */
module Decimal {

  predicate IsDigit(c: char) {
    '0' <= c <= '9'
  }

  /** Meaningful for digits; total so that laws about rows of digits need no side condition. */
  function DigitValue(c: char): int {
    c as int - '0' as int
  }

  function DigitChar(d: int): (c: char)
    requires 0 <= d < 10
    ensures IsDigit(c) && DigitValue(c) == d
  {
    (d + '0' as int) as char
  }

  predicate AllDigits(s: string) {
    forall i :: 0 <= i < |s| ==> IsDigit(s[i])
  }

  /** The number a row of digits denotes, most significant digit first. */
  function Value(s: string): int {
    if s == [] then 0 else 10 * Value(s[..|s| - 1]) + DigitValue(s[|s| - 1])
  }

  /** The numeral that `%u` prints. */
  function Numeral(n: nat): string {
    if n < 10 then [DigitChar(n)] else Numeral(n / 10) + [DigitChar(n % 10)]
  }

  function Pow10(k: nat): (p: int)
    ensures p >= 1
  {
    if k == 0 then 1 else 10 * Pow10(k - 1)
  }

  /** No superfluous leading zero. */
  predicate IsCanonical(s: string) {
    s != [] && AllDigits(s) && (s[0] == '0' ==> |s| == 1)
  }

  lemma ValueSnoc(s: string, c: char)
    ensures Value(s + [c]) == 10 * Value(s) + DigitValue(c)
  {
    assert (s + [c])[..|s|] == s;
  }

  lemma {:induction false} ValueConcat(s: string, t: string)
    ensures Value(s + t) == Value(s) * Pow10(|t|) + Value(t)
  {
    if t == [] {
      assert s + t == s;
    } else {
      var u, c := t[..|t| - 1], t[|t| - 1];
      assert s + t == (s + u) + [c] && t == u + [c];
      ValueSnoc(s + u, c);
      ValueConcat(s, u);
      var p := Pow10(|u|);
      assert 10 * (Value(s) * p) == Value(s) * (10 * p);
    }
  }

  lemma {:induction false} ValueBounds(s: string)
    requires AllDigits(s)
    ensures 0 <= Value(s) < Pow10(|s|)
  {
    if s != [] {
      ValueBounds(s[..|s| - 1]);
    }
  }

  /** Printing then reading gives the number back, and no leading zero is printed. */
  lemma {:induction false} NumeralRoundTrip(n: nat)
    ensures Value(Numeral(n)) == n
    ensures IsCanonical(Numeral(n))
    ensures n > 0 ==> Numeral(n)[0] != '0'
  {
    if n >= 10 {
      NumeralRoundTrip(n / 10);
      ValueSnoc(Numeral(n / 10), DigitChar(n % 10));
    }
  }

  /** Reading a canonical numeral then printing gives the numeral back. */
  lemma {:induction false} CanonicalRoundTrip(s: string)
    requires IsCanonical(s)
    ensures Value(s) >= 0 && Numeral(Value(s)) == s
    ensures s[0] != '0' ==> Value(s) > 0
  {
    ValueBounds(s);
    var u, c := s[..|s| - 1], s[|s| - 1];
    assert s == u + [c];
    if u != [] {
      CanonicalRoundTrip(u);
      assert Value(s) / 10 == Value(u) && Value(s) % 10 == DigitValue(c);
    } else {
      assert Value(u) == 0;
    }
    assert DigitChar(DigitValue(c)) == c;
  }

  /** Comparing printed numbers is comparing numbers. */
  lemma NumeralInjective(m: nat, n: nat)
    ensures Numeral(m) == Numeral(n) <==> m == n
  {
    NumeralRoundTrip(m);
    NumeralRoundTrip(n);
  }

  lemma {:induction false} NumeralLength(n: nat, k: nat)
    requires k >= 1
    ensures |Numeral(n)| <= k <==> n < Pow10(k)
  {
    if n < 10 {
      assert Pow10(k) == 10 * Pow10(k - 1);
    } else if k == 1 {
      assert Pow10(1) == 10 * Pow10(0);
      assert |Numeral(n / 10)| >= 1;
    } else {
      NumeralLength(n / 10, k - 1);
      assert Pow10(k) == 10 * Pow10(k - 1);
    }
  }

  lemma {:induction false} NumeralLengthMonotone(m: nat, n: nat)
    requires m <= n
    ensures |Numeral(m)| <= |Numeral(n)|
  {
    if m >= 10 {
      NumeralLengthMonotone(m / 10, n / 10);
    }
  }

  lemma {:induction false} NumeralDigits(n: nat)
    ensures AllDigits(Numeral(n)) && |Numeral(n)| >= 1
    ensures '\0' !in Numeral(n) && ' ' !in Numeral(n) && '.' !in Numeral(n)
  {
    NumeralRoundTrip(n);
  }
}
