/** Numbers as text: what the printer writes and the parser reads. */
module Numerals {
  import opened Arithmetic

  const DIGITS: string := "0123456789abcdef"

  /** `n` in base `b`, most significant digit first, without leading zeros. */
  function Numeral(n: nat, b: nat): (s: string)
    requires 2 <= b <= 16
    ensures s != []
    decreases n
  {
    if n < b then [DIGITS[n]] else Smaller(n, b); Numeral(n / b, b) + [DIGITS[n % b]]
  }

  lemma Smaller(n: nat, b: nat)
    requires 2 <= b <= n
    ensures 0 < n / b < n
  {
  }

  lemma LastDigit(n: nat, b: nat)
    requires b >= 2
    ensures 0 <= n % b < b && n / b >= 0 && (n < b <==> n / b == 0) && (n < b ==> n % b == n) && (n >= b ==> n / b < n)
  {
    DivNonneg(n, b);
    if n < b {
      DivModUnique(n, b, 0, n);
    } else {
      Smaller(n, b);
    }
  }

  /** A numeral is that of the quotient and one more digit. */
  lemma {:induction false} NumeralStep(n: nat, b: nat)
    requires 2 <= b <= 16
    ensures 0 <= n % b < b && n / b >= 0 && (n / b > 0 ==> n / b < n)
    ensures Numeral(n, b) == (if n / b > 0 then Numeral(n / b, b) else []) + [DIGITS[n % b]]
  {
    LastDigit(n, b);
  }

  predicate IsDigit(c: char) {
    '0' <= c <= '9'
  }

  function DigitValue(c: char): nat
    requires IsDigit(c)
  {
    (c - '0') as nat
  }

  predicate AllDigits(s: string) {
    forall i :: 0 <= i < |s| ==> IsDigit(s[i])
  }

  /** The number a decimal text stands for. */
  function Value(s: string): nat
    requires AllDigits(s)
  {
    if s == [] then 0 else Value(s[..|s| - 1]) * 10 + DigitValue(s[|s| - 1])
  }

  lemma ValueAppend(s: string, c: char)
    requires AllDigits(s) && IsDigit(c)
    ensures AllDigits(s + [c]) && Value(s + [c]) == Value(s) * 10 + DigitValue(c)
  {
  }

  lemma DigitChars(d: nat)
    requires d < 10
    ensures IsDigit(DIGITS[d]) && DigitValue(DIGITS[d]) == d
  {
  }

  /** Reading a decimal numeral gives the number back. */
  lemma {:induction false} NumeralValue(n: nat)
    ensures AllDigits(Numeral(n, 10)) && Value(Numeral(n, 10)) == n
    decreases n
  {
    if n < 10 {
      DigitChars(n);
      assert Numeral(n, 10) == [] + [DIGITS[n]];
      ValueAppend([], DIGITS[n]);
    } else {
      NumeralValue(n / 10);
      DigitChars(n % 10);
      ValueAppend(Numeral(n / 10, 10), DIGITS[n % 10]);
    }
  }

  function Pow8(k: nat): nat {
    if k == 0 then 1 else 8 * Pow8(k - 1)
  }

  /** A number below `8^k` has at most `k` digits in base 8 or larger. */
  lemma {:induction false} NumeralLength(n: nat, b: nat, k: nat)
    requires 8 <= b <= 16 && k >= 1 && n < Pow8(k)
    ensures |Numeral(n, b)| <= k
    decreases k
  {
    if n >= b {
      Smaller(n, b);
      var q := n / b;
      assert n == q * b + n % b;
      MulMono(8, b, q);
      if k > 1 {
        NumeralLength(q, b, k - 1);
      }
    }
  }

  /** In base 8 it has more than `k` digits from `8^k` on. */
  lemma {:induction false} NumeralLong(n: nat, k: nat)
    requires n >= Pow8(k)
    ensures |Numeral(n, 8)| > k
    decreases k
  {
    if k > 0 {
      assert Pow8(k - 1) >= 1 by {
        Pow8Positive(k - 1);
      }
      NumeralLong(n / 8, k - 1);
    }
  }

  lemma {:induction false} Pow8Positive(k: nat)
    ensures Pow8(k) >= 1
  {
    if k > 0 {
      Pow8Positive(k - 1);
    }
  }

  /** Octal digits of a 64-bit number: at most 22, and sometimes 22. */
  lemma OctalDigits()
    ensures Pow8(21) == 0x8000_0000_0000_0000 && Pow8(22) == 4 * 0x1_0000_0000_0000_0000
    ensures |Numeral(0xffff_ffff_ffff_ffff, 8)| == 22
  {
    assert Pow8(4) == 4096 && Pow8(8) == 4096 * 4096 && Pow8(12) == 4096 * 4096 * 4096;
    assert Pow8(16) == 4096 * Pow8(12) && Pow8(20) == 4096 * Pow8(16);
    NumeralLong(0xffff_ffff_ffff_ffff, 21);
    NumeralLength(0xffff_ffff_ffff_ffff, 8, 22);
  }
}
