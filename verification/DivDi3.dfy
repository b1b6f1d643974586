/** Signed 64-bit division, common/gcc-millicode/divdi3.c and moddi3.c, over the unsigned one. */
module DivDi3 {
  import opened Arithmetic
  import opened Digits
  import opened MulDi3
  import QDivRem

  /** Division that truncates toward zero: the quotient of the magnitudes with the sign of the operands. */
  ghost predicate Truncates(a: int, b: int, q: int) {
    Abs(q) * Abs(b) <= Abs(a) < (Abs(q) + 1) * Abs(b) && (q != 0 ==> ((q < 0) <==> ((a < 0) != (b < 0))))
  }

  lemma TruncatesUnique(a: int, b: int, q: int, q': int)
    requires b != 0 && Truncates(a, b, q) && Truncates(a, b, q')
    ensures q == q'
  {
    MulAdd(Abs(q), 1, Abs(b));
    MulAdd(Abs(q'), 1, Abs(b));
    DivModUnique(Abs(a), Abs(b), Abs(q), Abs(a) - Abs(q) * Abs(b));
    DivModUnique(Abs(a), Abs(b), Abs(q'), Abs(a) - Abs(q') * Abs(b));
  }

  /** The magnitude of a `long long`, as the sign tests of the source compute it. */
  lemma MagnitudeIs(a: int)
    requires IsSigned(a)
    ensures Negated(a < 0, Quad(a)) == Abs(a) <= 0 - MIN
  {
  }

  lemma QuotientOfMagnitudes(a: int, b: int, u: nat, m: nat, q: int, r: int)
    requires b != 0 && Abs(a) == u * Abs(b) + m && m < Abs(b)
    requires q == Magnitude((a < 0) != (b < 0), u) && r == Magnitude(a < 0, m)
    ensures Truncates(a, b, q) && a == q * b + r
  {
  }

  lemma QuotientBound(u: nat, y: nat, x: nat)
    requires y > 0 && u * y <= x
    ensures u <= x && (y > 1 ==> 2 * u <= x)
  {
  }

  /** The quotient fits but for the smallest number divided by minus one. */
  lemma QuotientFits(a: int, b: int, u: nat, m: nat, q: int)
    requires IsSigned(a) && IsSigned(b) && b != 0 && Abs(a) == u * Abs(b) + m && m < Abs(b)
    requires q == Magnitude((a < 0) != (b < 0), u)
    ensures u < QUAD && (IsSigned(q) <==> !(a == MIN && b == -1))
  {
    QuotientBound(u, Abs(b), Abs(a));
    assert Abs(b) == 1 ==> u == Abs(a);
  }

  lemma Wraps(a: int, b: int, x: int, q: int)
    requires b != 0 && Truncates(a, b, x) && (IsSigned(x) <==> !(a == MIN && b == -1))
    requires IsSigned(q) && Quad(q) == Quad(x) && (IsSigned(x) ==> q == x)
    ensures Truncates(a, b, q) <==> !(a == MIN && b == -1)
    ensures a == MIN && b == -1 ==> q == MIN
  {
  }

  /** From the unsigned quotient to the signed one. */
  lemma DivResult(a: int, b: int, u: nat, m: nat, w: nat)
    requires IsSigned(a) && IsSigned(b) && b != 0 && Abs(a) == u * Abs(b) + m && m < Abs(b)
    requires u < QUAD && w == Negated((a < 0) != (b < 0), u)
    ensures IsSigned(Signed(w)) && (Truncates(a, b, Signed(w)) <==> !(a == MIN && b == -1))
    ensures a == MIN && b == -1 ==> Signed(w) == MIN
  {
    hide Quad, Truncates;
    var neg := (a < 0) != (b < 0);
    var x := Magnitude(neg, u);
    QuotientOfMagnitudes(a, b, u, m, x, Magnitude(a < 0, m));
    QuotientFits(a, b, u, m, x);
    QuadSmall(u);
    NegatedIs(neg, u, u);
    SignedResult(w, x);
    Wraps(a, b, x, Signed(w));
  }

  /** `__divdi3` truncates toward zero, but for the one quotient that does not fit, which wraps. */
  method Div(a: int, b: int) returns (q: int)
    requires IsSigned(a) && IsSigned(b) && b != 0
    ensures IsSigned(q)
    ensures Truncates(a, b, q) <==> !(a == MIN && b == -1)
    ensures a == MIN && b == -1 ==> q == MIN
  {
    var ua, ub, neg := Quad(a), Quad(b), false;
    if a < 0 {
      ua, neg := Negated(true, ua), !neg;
    }
    if b < 0 {
      ub, neg := Negated(true, ub), !neg;
    }
    MagnitudeIs(a);
    MagnitudeIs(b);
    assert ua == Abs(a) && ub == Abs(b) && neg == ((a < 0) != (b < 0));
    hide Quad, Truncates, Signed, Negated;
    var uq, ur := QDivRem.QDivRem(ua, ub);
    DivResult(a, b, uq, ur, Negated(neg, uq));
    q := Signed(Negated(neg, uq));
  }

  /** From the unsigned remainder to the signed one. */
  lemma ModResult(a: int, b: int, u: nat, m: nat, w: nat)
    requires IsSigned(a) && IsSigned(b) && b != 0 && Abs(a) == u * Abs(b) + m && m < Abs(b)
    requires u < QUAD && w == Negated(a < 0, m)
    ensures IsSigned(Signed(w)) && Signed(w) == Magnitude(a < 0, m)
    ensures forall q :: Truncates(a, b, q) ==> a == q * b + Signed(w)
  {
    hide Quad, Truncates;
    var x, y := Magnitude((a < 0) != (b < 0), u), Magnitude(a < 0, m);
    QuotientOfMagnitudes(a, b, u, m, x, y);
    forall q | Truncates(a, b, q)
      ensures q == x
    {
      TruncatesUnique(a, b, q, x);
    }
    QuadSmall(m);
    NegatedIs(a < 0, m, m);
    SignedResult(w, y);
  }

  /** `__moddi3`: below the divisor in magnitude, of the sign of the dividend, and what the truncated
      quotient leaves. */
  method Mod(a: int, b: int) returns (r: int)
    requires IsSigned(a) && IsSigned(b) && b != 0
    ensures IsSigned(r) && Abs(r) < Abs(b) && (r != 0 ==> (r < 0 <==> a < 0))
    ensures forall q :: Truncates(a, b, q) ==> a == q * b + r
  {
    var ua, ub, neg := Quad(a), Quad(b), false;
    if a < 0 {
      ua, neg := Negated(true, ua), !neg;
    }
    if b < 0 {
      ub := Negated(true, ub);
    }
    MagnitudeIs(a);
    MagnitudeIs(b);
    assert ua == Abs(a) && ub == Abs(b) && neg == (a < 0);
    hide Quad, Truncates, Signed, Negated;
    var uq, ur := QDivRem.QDivRem(ua, ub);
    ModResult(a, b, uq, ur, Negated(neg, ur));
    r := Signed(Negated(neg, ur));
  }
}
