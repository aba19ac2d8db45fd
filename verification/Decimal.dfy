/** Canonical decimal text of natural numbers. */
module Decimal {

  function Digit(d: nat): char
    requires d < 10
  {
    (48 + d) as char
  }

  predicate IsDigit(c: char) { '0' <= c <= '9' }

  function DigitValue(c: char): nat
    requires IsDigit(c)
  {
    c as int - 48
  }

  /** `String(n)`. */
  function Print(n: nat): (s: string) {
    if n < 10 then [Digit(n)] else Print(n / 10) + [Digit(n % 10)]
  }

  predicate AllDigits(s: string) {
    forall i :: 0 <= i < |s| ==> IsDigit(s[i])
  }

  /** `0`, or digits without a leading zero. */
  predicate Canonical(s: string) {
    |s| > 0 && AllDigits(s) && (s[0] == '0' ==> |s| == 1)
  }

  function Value(s: string): nat
    requires AllDigits(s)
  {
    if s == [] then 0 else 10 * Value(s[..|s| - 1]) + DigitValue(s[|s| - 1])
  }

  lemma {:induction false} PrintCanonical(n: nat)
    ensures Canonical(Print(n)) && Value(Print(n)) == n
    ensures n > 0 ==> Print(n)[0] != '0'
  {
    if n >= 10 {
      PrintCanonical(n / 10);
      assert Print(n)[..|Print(n)| - 1] == Print(n / 10);
    } else {
      assert [Digit(n)][..0] == [];
    }
  }

  lemma {:induction false} ValuePrints(s: string)
    requires Canonical(s)
    ensures Print(Value(s)) == s
    ensures s[0] != '0' ==> Value(s) > 0
  {
    var init := s[..|s| - 1];
    if init != [] {
      ValuePrints(init);
      assert s == init + [s[|s| - 1]];
      assert Value(s) / 10 == Value(init) && Value(s) % 10 == DigitValue(s[|s| - 1]);
    }
  }

  /** Digits stand in their usual order and the last one is written last. */
  lemma PrintDigits(n: nat, d: nat)
    requires d < 10
    ensures Print(d) == ["0123456789"[d]]
    ensures n > 0 ==> Print(10 * n + d) == Print(n) + ["0123456789"[d]]
  {
    assert "0123456789"[d] == Digit(d);
  }

  lemma PrintInjective(a: nat, b: nat)
    requires Print(a) == Print(b)
    ensures a == b
  {
    PrintCanonical(a);
    PrintCanonical(b);
  }

  function Power(n: nat): nat {
    if n == 0 then 1 else 10 * Power(n - 1)
  }

  /** A canonical text of `n` digits lies between two powers of ten. */
  lemma {:induction false} ValueRange(s: string)
    requires Canonical(s)
    ensures Value(s) < Power(|s|)
    ensures |s| > 1 ==> Value(s) >= Power(|s| - 1)
  {
    var init := s[..|s| - 1];
    if init != [] {
      ValueRange(init);
      if |init| == 1 {
        ValuePrints(init);
      }
    }
  }

  lemma {:induction false} PowerGrows(a: nat, b: nat)
    requires a <= b
    ensures Power(a) <= Power(b)
  {
    if a < b {
      PowerGrows(a, b - 1);
    }
  }

  /** A number below a power of ten prints in at most that many digits. */
  lemma PrintLength(n: nat, k: nat)
    requires k > 0
    ensures |Print(n)| <= k <==> n < Power(k)
  {
  }

  const UINT64: nat := 18446744073709551615

  /** 64-bit numbers print in at most twenty digits. */
  lemma PrintShort(n: nat)
    requires n <= UINT64
    ensures |Print(n)| <= 20
  {
    assert Power(20) == 100000000000000000000 by {
      assert Power(5) == 100000;
      assert Power(10) == 100000 * Power(5);
      assert Power(15) == 100000 * Power(10);
      assert Power(20) == 100000 * Power(15);
    }
    PrintLength(n, 20);
  }

  /** Digits end at the first character that is not one. */
  lemma {:induction false} DigitsEnd(c: char, x: string, y: string, x': string, y': string)
    requires !IsDigit(c) && AllDigits(x) && AllDigits(x') && x + [c] + y == x' + [c] + y'
    ensures x == x' && y == y'
  {
    var s, t := x + [c] + y, x' + [c] + y';
    assert s[0] == t[0] && s[1..] == t[1..];
    if x != [] && x' != [] {
      assert s[1..] == x[1..] + [c] + y && t[1..] == x'[1..] + [c] + y';
      DigitsEnd(c, x[1..], y, x'[1..], y');
      assert x == [x[0]] + x[1..] && x' == [x'[0]] + x'[1..];
    } else {
      assert x == x' == [];
      assert s[1..] == y && t[1..] == y';
    }
  }
}
