/** Shifting a number of 16-bit digits in place, common/gcc-millicode/qdivrem.c: `shl`, and the loop
    that shifts the remainder back. */
module Shifts {
  import opened Arithmetic
  import opened Basics
  import opened Digits

  const HALF_BITS: nat := 16

  /** The parts of a digit at a shift of `sh` bits: `S` and `T` are the weights on either side. */
  ghost predicate Split(sh: nat, S: int, T: int) {
    0 < sh < HALF_BITS && S == Pow2(sh) && T == Pow2(HALF_BITS - sh)
  }

  lemma {:induction false} Pow2Add(k: nat, l: nat)
    ensures Pow2(k + l) == Pow2(k) * Pow2(l)
  {
    if k > 0 {
      Pow2Add(k - 1, l);
      MulAssoc(2, Pow2(k - 1), Pow2(l));
    }
  }

  lemma SplitProduct(sh: nat, S: int, T: int)
    requires Split(sh, S, T)
    ensures S * T == B && S >= 2 && T >= 2 && S < B && T < B
  {
    Pow2Add(sh, HALF_BITS - sh);
    Pow2Half();
    assert S == 2 * Pow2(sh - 1) && T == 2 * Pow2(HALF_BITS - sh - 1);
    MulMono(2, T, S);
    MulMono(2, S, T);
  }

  /** A digit shifted up: what falls out at the top and what stays. */
  lemma ShiftedDigit(a: int, S: int, T: int)
    requires 0 <= a < B && S * T == B && 1 <= S < B && T >= 1
    ensures LHALF(Word(a * S)) == (a % T) * S && a * S == (a / T) * B + (a % T) * S && 0 <= a / T < S
    ensures 0 <= (a % T) * S <= B - S
  {
    var h, l := a / T, a % T;
    assert a == h * T + l;
    assert h < S by {
      if h >= S {
        MulMono(S, h, T);
      }
    }
    MulAdd(h * T, l, S);
    assert (h * T) * S == h * B by {
      MulAssoc(h, T, S);
    }
    MulMono(l, T - 1, S);
    MulSub(T, 1, S);
    MulNonneg(l, S);
    MulNonneg(a, S);
    MulMono(a, B - 1, S);
    assert Word(a * S) == a * S;
    DivModUnique(a * S, B, h, l * S);
  }

  /** One digit of `shl`: the low bits of `a` shifted up, the high bits of `b` shifted down. */
  function Left(a: nat, b: nat, sh: nat): nat
    requires sh <= HALF_BITS
  {
    DivNonneg(b, Pow2(HALF_BITS - sh));
    BitOr(LHALF(Word(a * Pow2(sh))), b / Pow2(HALF_BITS - sh))
  }

  lemma LeftLast(a: nat, sh: nat)
    requires sh <= HALF_BITS
    ensures Left(a, 0, sh) == LHALF(Word(a * Pow2(sh)))
  {
  }

  lemma LeftIs(a: nat, b: nat, sh: nat, S: int, T: int)
    requires a < B && b < B && Split(sh, S, T)
    ensures Left(a, b, sh) == a * S - (a / T) * B + b / T && Left(a, b, sh) < B
  {
    SplitProduct(sh, S, T);
    ShiftedDigit(a, S, T);
    ShiftedDigit(b, S, T);
    MulMod(a % T, S);
    BitOrDisjoint((a % T) * S, b / T, sh);
  }

  /** What `shl` leaves; the digits come in from the right, zeros first. */
  function ShiftLeft(ds: seq<int>, sh: nat): (r: seq<int>)
    requires sh <= HALF_BITS && AllDigits(ds)
    ensures |r| == |ds|
  {
    if ds == [] then [] else [Left(ds[0], if |ds| > 1 then ds[1] else 0, sh)] + ShiftLeft(ds[1..], sh)
  }

  function Top(ds: seq<int>): int {
    if ds == [] then 0 else ds[0]
  }

  lemma LeftStep(x: int, x': int, S: int, c: int, c': int, P: int, v: int, v': int)
    requires x' == x * S - c * B + c' && v' == v * S - c' * P
    ensures x' * P + v' == (x * P + v) * S - c * (B * P)
  {
  }

  /** `shl` multiplies by a power of two, less the bits that fall out of the top digit. */
  lemma {:induction false} ShiftLeftExact(ds: seq<int>, sh: nat, S: int, T: int)
    requires AllDigits(ds) && Split(sh, S, T)
    ensures AllDigits(ShiftLeft(ds, sh))
    ensures Val(ShiftLeft(ds, sh)) == Val(ds) * S - (Top(ds) / T) * Pow(|ds|)
  {
    SplitProduct(sh, S, T);
    if ds == [] {
      assert Val(ds) == 0 && Top(ds) / T == 0;
    } else {
      var x, rest := ds[0], ds[1..];
      assert ds == [x] + rest;
      var y := Top(rest);
      var x' := Left(x, y, sh);
      ShiftLeftExact(rest, sh, S, T);
      LeftIs(x, y, sh, S, T);
      ValCons(x, rest);
      ValCons(x', ShiftLeft(rest, sh));
      LeftStep(x, x', S, x / T, y / T, Pow(|rest|), Val(rest), Val(ShiftLeft(rest, sh)));
    }
  }

  lemma {:induction false} ShiftLeftAt(ds: seq<int>, sh: nat, i: nat)
    requires sh <= HALF_BITS && AllDigits(ds) && i < |ds|
    ensures ShiftLeft(ds, sh)[i] == Left(ds[i], if i + 1 < |ds| then ds[i + 1] else 0, sh)
    decreases |ds|
  {
    hide Left;
    if i > 0 {
      ShiftLeftAt(ds[1..], sh, i - 1);
    }
  }

  /** `shl` has written the first `i` digits. */
  ghost predicate ShiftedTo(a: seq<int>, lo: nat, len: nat, sh: nat, i: nat, p: seq<int>)
    requires lo + len < |a| && sh <= HALF_BITS && AllDigits(a) && i <= len + 1
  {
    p == a[..lo] + ShiftLeft(a[lo..lo + len + 1], sh)[..i] + a[lo + i..]
  }

  lemma {:induction false} ShiftedStep(a: seq<int>, lo: nat, len: nat, sh: nat, i: nat, p: seq<int>)
    requires lo + len < |a| && sh <= HALF_BITS && AllDigits(a) && i <= len && ShiftedTo(a, lo, len, sh, i, p)
    ensures |p| == |a| && p[lo + i] == a[lo + i] && (i < len ==> p[lo + i + 1] == a[lo + i + 1])
    ensures ShiftedTo(a, lo, len, sh, i + 1, p[lo + i := Left(a[lo + i], if i < len then a[lo + i + 1] else 0, sh)])
  {
    hide Left, ShiftLeft;
    ShiftLeftAt(a[lo..lo + len + 1], sh, i);
  }

  /** `shl`: shift `p[lo .. lo + len]` left by `sh` bits. */
  method Shl(p: array<int>, lo: nat, len: nat, sh: nat)
    requires lo + len < p.Length && sh <= HALF_BITS && AllDigits(p[..])
    modifies p
    ensures p[..] == old(p[..])[..lo] + ShiftLeft(old(p[..])[lo..lo + len + 1], sh) + old(p[..])[lo + len + 1..]
  {
    hide Left, ShiftLeft;
    var i := 0;
    ghost var a := p[..];
    while i < len
      invariant 0 <= i <= len
      invariant ShiftedTo(a, lo, len, sh, i, p[..])
    {
      ghost var p1 := p[..];
      ShiftedStep(a, lo, len, sh, i, p1);
      hide ShiftedTo;
      p[lo + i] := Left(p[lo + i], p[lo + i + 1], sh);
      assert p[..] == p1[lo + i := Left(a[lo + i], a[lo + i + 1], sh)];
      i := i + 1;
    }
    ghost var p1 := p[..];
    ShiftedStep(a, lo, len, sh, i, p1);
    LeftLast(a[lo + i], sh);
    p[lo + i] := LHALF(Word(p[lo + i] * Pow2(sh)));
    assert p[..] == p1[lo + i := Left(a[lo + i], 0, sh)];
  }

  // ---------------------------------------------------------------------------------------
  // Shifting the remainder back
  // ---------------------------------------------------------------------------------------

  /** One digit of the right shift: `b` shifted down, the low bits of its left neighbour `a` above it. */
  function Right(a: nat, b: nat, sh: nat): nat
    requires sh <= HALF_BITS
  {
    DivNonneg(b, Pow2(sh));
    BitOr(b / Pow2(sh), LHALF(Word(a * Pow2(HALF_BITS - sh))))
  }

  lemma {:induction false} BitOrSymmetric(a: nat, b: nat)
    ensures BitOr(a, b) == BitOr(b, a)
    decreases a + b
  {
    if a > 0 && b > 0 {
      BitOrSymmetric(a / 2, b / 2);
    }
  }

  lemma RightParts(a: nat, b: nat, sh: nat, S: int, T: int)
    requires a < B && b < B && Split(sh, S, T)
    ensures S > 0 && Right(a, b, sh) == (a % S) * T + b / S && Right(a, b, sh) < B
  {
    SplitProduct(sh, S, T);
    assert T * S == B;
    ShiftedDigit(a, T, S);
    ShiftedDigit(b, T, S);
    MulMod(a % S, T);
    BitOrDisjoint((a % S) * T, b / S, HALF_BITS - sh);
    BitOrSymmetric((a % S) * T, b / S);
  }

  lemma RightIs(a: nat, b: nat, sh: nat, S: int, T: int)
    requires a < B && b < B && Split(sh, S, T)
    ensures S > 0 && S * Right(a, b, sh) == b - b % S + (a % S) * B && Right(a, b, sh) < B
  {
    hide Right;
    RightParts(a, b, sh, S, T);
    SplitProduct(sh, S, T);
    hide *;
    var h, k := a % S, b / S;
    MulAdd(h * T, k, S);
    assert S * (h * T) == h * (S * T);
    assert b == S * k + b % S;
  }

  function Last(top: int, ds: seq<int>): int {
    if ds == [] then top else ds[|ds| - 1]
  }

  /** What the remainder shift leaves below the digit `top`. */
  function ShiftRight(top: nat, ds: seq<int>, sh: nat): (r: seq<int>)
    requires sh <= HALF_BITS && AllDigits(ds)
    ensures |r| == |ds|
  {
    if ds == [] then []
    else
      var rest := ds[..|ds| - 1];
      ShiftRight(top, rest, sh) + [Right(Last(top, rest), ds[|ds| - 1], sh)]
  }

  lemma RightStep(v: int, v': int, x: int, x': int, S: int, c: int, l: int, r: int, P: int)
    requires S * v' == v + c * P - l && S * x' == x - r + l * B
    ensures S * (v' * B + x') == (v * B + x) + c * (B * P) - r
  {
  }

  /** The shift divides: what it drops is the low bits of the last digit. */
  lemma {:induction false} ShiftRightExact(top: nat, ds: seq<int>, sh: nat, S: int, T: int)
    requires top < B && AllDigits(ds) && Split(sh, S, T)
    ensures AllDigits(ShiftRight(top, ds, sh)) && S > 0
    ensures S * Val(ShiftRight(top, ds, sh)) == Val(ds) + (top % S) * Pow(|ds|) - Last(top, ds) % S
    decreases |ds|
  {
    SplitProduct(sh, S, T);
    if ds == [] {
      assert Val(ds) == 0 && Val(ShiftRight(top, ds, sh)) == 0;
    } else {
      var rest, x := ds[..|ds| - 1], ds[|ds| - 1];
      assert ds == rest + [x];
      var l := Last(top, rest);
      var x' := Right(l, x, sh);
      ShiftRightExact(top, rest, sh, S, T);
      RightIs(l, x, sh, S, T);
      ValAppend(rest, x);
      ValAppend(ShiftRight(top, rest, sh), x');
      RightStep(Val(rest), Val(ShiftRight(top, rest, sh)), x, x', S, top % S, l % S, x % S, Pow(|rest|));
    }
  }

  /** Overwriting the last digit still to do, in an array `head + ds[..i] + done + tail`. */
  lemma Retreat(p: seq<int>, head: seq<int>, ds: seq<int>, i: nat, done: seq<int>, tail: seq<int>, x: int)
    requires 0 < i <= |ds| && p == head + ds[..i] + (done + tail)
    ensures p[|head| + i - 1] == ds[i - 1]
    ensures i > 1 ==> p[|head| + i - 2] == ds[i - 2]
    ensures i == 1 && head != [] ==> p[|head| - 1] == head[|head| - 1]
    ensures p[|head| + i - 1 := x] == head + ds[..i - 1] + (([x] + done) + tail)
  {
  }

  lemma ShiftRightRetreat(top: nat, ds: seq<int>, i: nat, done: seq<int>, sh: nat)
    requires sh <= HALF_BITS && AllDigits(ds) && 0 < i <= |ds|
    requires ShiftRight(top, ds[..i], sh) + done == ShiftRight(top, ds, sh)
    ensures Last(top, ds[..i - 1]) >= 0
    ensures ShiftRight(top, ds[..i - 1], sh) + ([Right(Last(top, ds[..i - 1]), ds[i - 1], sh)] + done)
         == ShiftRight(top, ds, sh)
  {
    assert ds[..i][..i - 1] == ds[..i - 1];
  }

  lemma ClearTop(u: seq<int>, head: seq<int>, done: seq<int>, tail: seq<int>)
    requires head != [] && u == head + [] + (done + tail)
    ensures u[|head| - 1 := 0] == head[..|head| - 1] + [0] + done + tail
  {
  }

  /** The remainder shift on the digits `u[lo + 1 .. lo + n]`, from the right. */
  method Shr(u: array<int>, lo: nat, n: nat, sh: nat)
    requires lo + n < u.Length && sh <= HALF_BITS && AllDigits(u[..])
    modifies u
    ensures u[..] == old(u[..])[..lo] + [0] + ShiftRight(old(u[lo]), old(u[..])[lo + 1..lo + n + 1], sh) +
                     old(u[..])[lo + n + 1..]
  {
    hide Right, ShiftRight;
    var i := n;
    ghost var head, ds, tail := u[..][..lo + 1], u[..][lo + 1..lo + n + 1], u[..][lo + n + 1..];
    ghost var top: int := u[lo];
    ghost var done: seq<int> := [];
    assert ds[..n] == ds && head[..lo] == u[..][..lo] && u[..] == head + ds + ([] + tail);
    while i > 0
      invariant 0 <= i <= n
      invariant u[..] == head + ds[..i] + (done + tail)
      invariant ShiftRight(top, ds[..i], sh) + done == ShiftRight(top, ds, sh)
    {
      ghost var u1 := u[..];
      ShiftRightRetreat(top, ds, i, done, sh);
      ghost var x := Right(Last(top, ds[..i - 1]), ds[i - 1], sh);
      Retreat(u1, head, ds, i, done, tail, x);
      assert u1[lo + i] == ds[i - 1] && u1[lo + i - 1] == Last(top, ds[..i - 1]);
      u[lo + i] := Right(u[lo + i - 1], u[lo + i], sh);
      assert u[..] == u1[lo + i := x];
      done := [x] + done;
      i := i - 1;
    }
    ghost var u1 := u[..];
    assert ds[..0] == [];
    assert done == ShiftRight(top, ds, sh) by {
      assert ShiftRight(top, [], sh) == [];
    }
    u[lo + i] := 0;
    assert u[..] == u1[lo := 0];
    ClearTop(u1, head, done, tail);
  }
}
