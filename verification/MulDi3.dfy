/** 64-bit multiplication on 32-bit words, common/gcc-millicode/muldi3.c: the three-product split of
    Knuth, volume 2, section 4.3.3. */
module MulDi3 {
  import opened Arithmetic
  import opened Digits

  const MIN: int := -0x8000_0000_0000_0000

  /** `x` as an `unsigned long long`. */
  function Quad(x: int): (w: nat)
    ensures w < QUAD
  {
    x % QUAD
  }

  /** 64 bits read as a `long long`. */
  function Signed(w: nat): int
    requires w < QUAD
  {
    if w < QUAD / 2 then w else w - QUAD
  }

  predicate IsSigned(x: int) {
    MIN <= x < -MIN
  }

  predicate IsWord(x: int) {
    0 <= x < WORD
  }

  function LHUP(x: nat): (w: nat)
    ensures w < WORD
  {
    Word(x * B)
  }

  /** Two words as one number. */
  function Pair(h: int, l: int): int {
    h * WORD + l
  }

  lemma QuadUnique(x: int, w: int, k: int)
    requires 0 <= w < QUAD && x == w + k * QUAD
    ensures Quad(x) == w
  {
  }

  lemma QuadSum(x: int, y: int)
    ensures Quad(Quad(x) + y) == Quad(x + y) && Quad(Quad(x) - y) == Quad(x - y)
  {
  }

  /** A word shifted up by half a word. */
  lemma ShiftedUp(m: nat)
    requires m < WORD
    ensures m * B == HHALF(m) * WORD + LHUP(m)
  {
  }

  /** Adding with the carry seen as "the low word went down". */
  lemma AddWithCarry(h: int, l: int, x: int, y: int)
    requires IsWord(h) && IsWord(l) && 0 <= x && IsWord(y)
    ensures var l' := Word(l + y);
      var h' := Word(h + (x + if l' < l then 1 else 0));
      Pair(h', l') == Quad(Pair(h, l) + Pair(x, y))
  {
    var l' := Word(l + y);
    var c := if l' < l then 1 else 0;
    assert l + y == l' + c * WORD;
    var s := h + x + c;
    var k := s / WORD;
    assert s == k * WORD + Word(s);
    QuadUnique(Pair(h, l) + Pair(x, y), Pair(Word(s), l'), k);
  }

  /** Subtracting with the borrow seen as "the low word went up". */
  lemma SubtractWithBorrow(h: int, l: int, x: int, y: int)
    requires IsWord(h) && IsWord(l) && 0 <= x && IsWord(y)
    ensures var l' := Word(l - y);
      var h' := Word(h - (x + if l' > l then 1 else 0));
      Pair(h', l') == Quad(Pair(h, l) - Pair(x, y))
  {
    var l' := Word(l - y);
    var c := if l' > l then 1 else 0;
    assert l - y == l' - c * WORD;
    var s := h - (x + c);
    var k := s / WORD;
    assert s == k * WORD + Word(s);
    QuadUnique(Pair(h, l) - Pair(x, y), Pair(Word(s), l'), k);
  }

  /** Three products of half-size numbers make the whole product (base `b`). */
  lemma ThreeProducts(u1: int, u0: int, v1: int, v0: int, b: int)
    ensures (u1 * b + u0) * (v1 * b + v0)
         == (u1 * v1) * (b * b) + (u1 * v1) * b + ((u1 - u0) * (v0 - v1)) * b + (u0 * v0) * b + u0 * v0
  {
  }

  /** A product of two magnitudes with its sign on the side. */
  function Magnitude(neg: bool, m: int): int {
    if neg then -m else m
  }

  lemma Differences(u1: int, u0: int, v1: int, v0: int, udiff: int, vdiff: int, neg: bool)
    requires udiff == (if u1 >= u0 then u1 - u0 else u0 - u1) && vdiff == (if v0 >= v1 then v0 - v1 else v1 - v0)
    requires neg == ((u1 < u0) != (v0 < v1))
    ensures (u1 - u0) * (v0 - v1) == Magnitude(neg, udiff * vdiff)
  {
  }

  lemma HalfProduct(a: int, b: int)
    requires 0 <= a < B && 0 <= b < B
    ensures 0 <= a * b <= (B - 1) * (B - 1)
  {
    MulNonneg(a, b);
    MulMono(a, B - 1, b);
  }

  lemma WordProduct(u: int, v: int)
    requires IsWord(u) && IsWord(v)
    ensures 0 <= u * v < QUAD
  {
    MulNonneg(u, v);
    MulMono(u, WORD - 1, v);
  }

  lemma CarryEither(l: int, y: int)
    requires IsWord(l) && IsWord(y)
    ensures Word(l + y) < l <==> Word(l + y) < y
  {
  }

  /** Add or subtract `mid << N` in two words. */
  method AddMiddle(prodh: nat, prodl: nat, mid: nat, neg: bool) returns (h: nat, l: nat)
    requires IsWord(prodh) && IsWord(prodl) && IsWord(mid)
    ensures IsWord(h) && IsWord(l) && Pair(h, l) == Quad(Pair(prodh, prodl) + Magnitude(neg, mid * B))
  {
    ShiftedUp(mid);
    hide Word, Quad, HHALF, LHUP;
    if neg {
      SubtractWithBorrow(prodh, prodl, HHALF(mid), LHUP(mid));
      l := Word(prodl - LHUP(mid));
      h := Word(prodh - (HHALF(mid) + if l > prodl then 1 else 0));
    } else {
      AddWithCarry(prodh, prodl, HHALF(mid), LHUP(mid));
      l := Word(prodl + LHUP(mid));
      h := Word(prodh + (HHALF(mid) + if l < prodl then 1 else 0));
    }
  }

  /** The accumulated words are the product: each step was exact modulo 2^64 and the product fits. */
  lemma Accumulated(p0: int, p1: int, p2: int, p3: int, h: int, m: int, l: int, P: int)
    requires p0 == Quad(h * WORD + h * B) && p1 == Quad(p0 + m * B) && p2 == Quad(p1 + l * B) && p3 == Quad(p2 + l)
    requires P == h * WORD + h * B + m * B + l * B + l && 0 <= P < QUAD
    ensures p3 == P
  {
    QuadSum(h * WORD + h * B, m * B);
    QuadSum(h * WORD + h * B + m * B, l * B);
    QuadSum(h * WORD + h * B + m * B + l * B, l);
    QuadUnique(P, P, 0);
  }

  /** `__lmulq`: the product of two words, exact although every intermediate sum wraps. */
  method LMulQ(u: nat, v: nat) returns (h: nat, l: nat)
    requires IsWord(u) && IsWord(v)
    ensures IsWord(h) && IsWord(l) && Pair(h, l) == u * v
  {
    var u1, u0, v1, v0 := HHALF(u), LHALF(u), HHALF(v), LHALF(v);
    assert u == u1 * B + u0 && v == v1 * B + v0;
    HalfProduct(u0, v0);
    var low := u0 * v0;
    if u1 == 0 && v1 == 0 {
      return 0, low;
    }
    var udiff, vdiff, neg;
    if u1 >= u0 {
      udiff, neg := u1 - u0, false;
    } else {
      udiff, neg := u0 - u1, true;
    }
    if v0 >= v1 {
      vdiff := v0 - v1;
    } else {
      vdiff, neg := v1 - v0, !neg;
    }
    HalfProduct(udiff, vdiff);
    HalfProduct(u1, v1);
    var mid, high := udiff * vdiff, u1 * v1;
    Differences(u1, u0, v1, v0, udiff, vdiff, neg);
    h, l := Assemble(high, mid, low, neg, u * v) by {
      ThreeProducts(u1, u0, v1, v0, B);
      WordProduct(u, v);
    }
  }

  lemma StartProduct(high: nat)
    requires IsWord(high)
    ensures Pair(Word(high + HHALF(high)), LHUP(high)) == Quad(high * WORD + high * B)
  {
    ShiftedUp(high);
    AddWithCarry(high, 0, HHALF(high), LHUP(high));
    assert Word(0 + LHUP(high)) == LHUP(high);
  }

  lemma AddLow(h: int, l: int, low: int)
    requires IsWord(h) && IsWord(l) && IsWord(low)
    ensures var l' := Word(l + low);
      Pair(if l' < low then Word(h + 1) else h, l') == Quad(Pair(h, l) + low)
  {
    AddWithCarry(h, l, 0, low);
    CarryEither(l, low);
  }

  /** The last part of `__lmulq`: prodh and prodl step by step. */
  method Assemble(high: nat, mid: nat, low: nat, neg: bool, ghost P: int) returns (prodh: nat, prodl: nat)
    requires IsWord(high) && IsWord(mid) && IsWord(low) && 0 <= P < QUAD
    requires P == high * WORD + high * B + Magnitude(neg, mid) * B + low * B + low
    ensures IsWord(prodh) && IsWord(prodl) && Pair(prodh, prodl) == P
  {
    hide Word, Quad, HHALF, LHUP, Pair;
    prodh, prodl := Word(high + HHALF(high)), LHUP(high);
    StartProduct(high);
    ghost var p0 := Pair(prodh, prodl);
    prodh, prodl := AddMiddle(prodh, prodl, mid, neg);
    ghost var p1 := Pair(prodh, prodl);
    assert Magnitude(neg, mid * B) == Magnitude(neg, mid) * B;
    prodh, prodl := AddMiddle(prodh, prodl, low, false);
    ghost var p2 := Pair(prodh, prodl);
    AddLow(prodh, prodl, low);
    prodl := Word(prodl + low);
    if prodl < low {
      prodh := Word(prodh + 1);
    }
    Accumulated(p0, p1, p2, Pair(prodh, prodl), high, Magnitude(neg, mid), low, P);
  }

  /** The middle word of the product of two pairs, modulo 2^32. */
  lemma MiddleWord(u1: int, u0: int, v1: int, v0: int, s: int, lowh: int, lowl: int)
    requires s == (u1 - u0) * (v0 - v1) && u0 * v0 == Pair(lowh, lowl)
    ensures u1 * v0 + u0 * v1 + lowh == u1 * v1 + s + lowl + lowh + lowh * WORD
  {
  }

  /** Sums of wrapped words agree with the sum they stand for. */
  lemma WrappedSum(h: int, m: int, neg: bool, x: int, y: int)
    ensures Word(Word(h) + Magnitude(neg, Word(m)) + x + y) == Word(h + Magnitude(neg, m) + x + y)
  {
  }

  /** Only the low half of the high part of the product survives. */
  lemma HighWord(u1: int, u0: int, v1: int, v0: int, lowh: int, lowl: int, H: int)
    requires IsWord(lowl) && u0 * v0 == Pair(lowh, lowl) && H == Word(u1 * v0 + u0 * v1 + lowh)
    ensures Quad(Pair(u1, u0) * Pair(v1, v0)) == Pair(H, lowl)
  {
    var m := u1 * v0 + u0 * v1 + lowh;
    var k := m / WORD;
    assert m == k * WORD + H;
    var hh := u1 * v1;
    assert Pair(u1, u0) * Pair(v1, v0) == hh * QUAD + (u1 * v0 + u0 * v1) * WORD + u0 * v0;
    QuadUnique(Pair(u1, u0) * Pair(v1, v0), Pair(H, lowl), hh + k);
  }

  lemma QuadSmall(x: int)
    requires 0 <= x < QUAD
    ensures Quad(x) == x
  {
  }

  lemma SignOfProduct(a: int, b: int, u: int, v: int, neg: bool)
    requires u == Abs(a) && v == Abs(b) && neg == ((a < 0) != (b < 0))
    ensures a * b == Magnitude(neg, u * v)
  {
  }

  /** The unsigned core of `__muldi3`. */
  method Multiply(u: nat, v: nat) returns (prod: nat)
    requires u < QUAD && v < QUAD
    ensures prod == Quad(u * v)
  {
    var u1, u0, v1, v0 := u / WORD, u % WORD, v / WORD, v % WORD;
    assert u == Pair(u1, u0) && v == Pair(v1, v0);
    var lowh, lowl := LMulQ(u0, v0);
    if u1 == 0 && v1 == 0 {
      prod := Pair(lowh, lowl);
      QuadUnique(u * v, prod, 0);
    } else {
      var udiff, vdiff, negmid;
      if u1 >= u0 {
        negmid, udiff := false, u1 - u0;
      } else {
        negmid, udiff := true, u0 - u1;
      }
      if v0 >= v1 {
        vdiff := v0 - v1;
      } else {
        vdiff, negmid := v1 - v0, !negmid;
      }
      var mid, high := Word(udiff * vdiff), Word(u1 * v1);
      var prodh := Word(high + Magnitude(negmid, mid) + lowl + lowh);
      prod := Pair(prodh, lowl);
      MultiplyExact(u1, u0, v1, v0, udiff, vdiff, negmid, lowh, lowl, prodh);
    }
  }

  lemma MultiplyExact(u1: int, u0: int, v1: int, v0: int, udiff: int, vdiff: int, neg: bool, lowh: int, lowl: int,
                      H: int)
    requires udiff == (if u1 >= u0 then u1 - u0 else u0 - u1) && vdiff == (if v0 >= v1 then v0 - v1 else v1 - v0)
    requires neg == ((u1 < u0) != (v0 < v1)) && IsWord(lowl) && u0 * v0 == Pair(lowh, lowl)
    requires H == Word(Word(u1 * v1) + Magnitude(neg, Word(udiff * vdiff)) + lowl + lowh)
    ensures Quad(Pair(u1, u0) * Pair(v1, v0)) == Pair(H, lowl)
  {
    hide Word, Quad, Pair;
    Differences(u1, u0, v1, v0, udiff, vdiff, neg);
    WrappedSum(u1 * v1, udiff * vdiff, neg, lowl, lowh);
    var s := (u1 - u0) * (v0 - v1);
    MiddleWord(u1, u0, v1, v0, s, lowh, lowl);
    var t := u1 * v1 + s + lowl + lowh;
    WordShift(t, lowh);
    HighWord(u1, u0, v1, v0, lowh, lowl, H);
  }

  lemma WordShift(t: int, k: int)
    ensures Word(t + k * WORD) == Word(t)
  {
  }

  /** The 64 bits of `x`, or of its negation. */
  function Negated(neg: bool, w: nat): (r: nat)
    requires w < QUAD
    ensures r < QUAD
  {
    if neg then Quad(0 - w) else w
  }

  lemma NegatedIs(neg: bool, w: nat, x: int)
    requires w == Quad(x)
    ensures Negated(neg, w) == Quad(Magnitude(neg, x))
  {
  }

  lemma SignedResult(w: nat, x: int)
    requires w == Quad(x)
    ensures IsSigned(Signed(w)) && Quad(Signed(w)) == Quad(x) && (IsSigned(x) ==> Signed(w) == x)
  {
  }

  /** `__muldi3`: the product modulo 2^64, for every pair of signs. */
  method Mul(a: int, b: int) returns (r: int)
    requires IsSigned(a) && IsSigned(b)
    ensures IsSigned(r) && Quad(r) == Quad(a * b)
    ensures IsSigned(a * b) ==> r == a * b
  {
    hide Quad, Negated;
    var u, v, negall;
    if a >= 0 {
      u, negall := Quad(a), false;
    } else {
      u, negall := Quad(-a), true;
    }
    if b >= 0 {
      v := Quad(b);
    } else {
      v, negall := Quad(-b), !negall;
    }
    QuadSmall(Abs(a));
    QuadSmall(Abs(b));
    SignOfProduct(a, b, u, v, negall);
    var prod := Multiply(u, v);
    NegatedIs(negall, prod, u * v);
    SignedResult(Negated(negall, prod), a * b);
    r := Signed(Negated(negall, prod));
  }
}
