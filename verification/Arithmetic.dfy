/** Facts about products and quotients, for proofs in which the solver treats them as atoms. */
module Arithmetic {
  function Abs(x: int): nat {
    if x < 0 then -x else x
  }

  lemma MulNonneg(a: int, b: int)
    requires a >= 0 && b >= 0
    ensures a * b >= 0
  {
  }

  lemma MulMono(a: int, b: int, c: int)
    requires a <= b && c >= 0
    ensures a * c <= b * c
  {
  }

  lemma MulAdd(a: int, b: int, c: int)
    ensures (a + b) * c == a * c + b * c
    ensures c * (a + b) == c * a + c * b
  {
  }

  lemma MulSub(a: int, b: int, c: int)
    ensures (a - b) * c == a * c - b * c
  {
  }

  lemma MulAssoc(a: int, b: int, c: int)
    ensures (a * b) * c == a * (b * c)
  {
  }

  /** A digit times a number split at weight `p`. */
  lemma MulSplit(q: int, a: int, p: int, b: int)
    ensures q * (a * p + b) == (q * a) * p + q * b
  {
  }

  lemma MulAtLeast(k: int, y: int)
    requires k >= 1 && y >= 0
    ensures k * y >= y
  {
  }

  /** Quotient and remainder are the only numbers that fit. */
  lemma DivModUnique(x: int, y: int, q: int, r: int)
    requires y > 0 && x == q * y + r && 0 <= r < y
    ensures x / y == q && x % y == r
  {
    var q', r' := x / y, x % y;
    assert x == q' * y + r' && 0 <= r' < y;
    if q' < q {
      assert (q - q') * y == q * y - q' * y;
      MulAtLeast(q - q', y);
    } else if q' > q {
      assert (q' - q) * y == q' * y - q * y;
      MulAtLeast(q' - q, y);
    }
  }

  lemma DivNonneg(x: int, y: int)
    requires x >= 0 && y > 0
    ensures x / y >= 0
  {
  }

  lemma MulMod(c: int, p: int)
    requires p > 0
    ensures (c * p) % p == 0 && (c * p) / p == c
  {
    DivModUnique(c * p, p, c, 0);
  }
}
