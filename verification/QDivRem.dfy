/** Unsigned 64-bit division, common/gcc-millicode/qdivrem.c: Algorithm D of Knuth, volume 2,
    section 4.3.1, on 16-bit digits with wrapping 32-bit intermediate words. The digit loops are
    written for any number of digits. */
module QDivRem {
  import opened Arithmetic
  import opened Basics
  import opened Digits
  import opened Shifts

  // ---------------------------------------------------------------------------------------
  // One digit in any base
  // ---------------------------------------------------------------------------------------

  /** The largest digit `q` of base `b` with `q * v <= u`. */
  ghost predicate IsTrial(b: int, q: int, u: int, v: int) {
    0 <= q < b && q * v <= u && (q < b - 1 ==> u < (q + 1) * v)
  }

  predicate IsDigit(x: int) {
    0 <= x < B
  }

  predicate Below(b: int, x: int) {
    0 <= x < b
  }

  /** `q` and `r` divide the leading two digits in base `b`, and no digit above `q` fits three digits. */
  ghost predicate Guess(b: int, q: int, r: int, nn: int, u2: int, v1: int, v2: int) {
    Below(b, q) && nn == q * v1 + r && r >= 0 && (q < b - 1 ==> nn * b + u2 < (q + 1) * (v1 * b + v2))
  }

  lemma GuessDown(b: int, q: int, r: int, nn: int, u2: int, v1: int, v2: int)
    requires Guess(b, q, r, nn, u2, v1, v2) && Below(b, u2) && Below(b, v2) && v1 >= 0 && v2 * q > r * b + u2
    ensures q > 0 && Guess(b, q - 1, r + v1, nn, u2, v1, v2)
  {
    MulNonneg(r, b);
    MulSplit(q, v1, b, v2);
    MulAdd(q * v1, r, b);
    MulSub(q, 1, v1);
  }

  lemma GuessIsTrial(b: int, q: int, r: int, nn: int, u2: int, v1: int, v2: int, U3: int, V2: int)
    requires Guess(b, q, r, nn, u2, v1, v2) && Below(b, v2) && Below(b, u2) && (r >= b || v2 * q <= r * b + u2)
    requires U3 == nn * b + u2 && V2 == v1 * b + v2
    ensures IsTrial(b, q, U3, V2)
  {
    MulSplit(q, v1, b, v2);
    MulAdd(q * v1, r, b);
    if r >= b {
      MulMono(v2, b, q);
      MulMono(q, b, b);
      MulMono(b, r, b);
    }
  }

  lemma GuessFull(b: int, u1: int, nn: int, u2: int, v1: int, v2: int)
    requires Below(b, u1) && v1 > 0 && nn == v1 * b + u1
    ensures Guess(b, b - 1, u1 + v1, nn, u2, v1, v2)
  {
    MulSub(b, 1, v1);
  }

  lemma GuessQuotient(b: int, u0: int, u1: int, nn: int, u2: int, v1: int, v2: int)
    requires Below(b, u0) && Below(b, u1) && Below(b, u2) && Below(b, v1) && Below(b, v2)
    requires u0 < v1 && nn == u0 * b + u1
    ensures Guess(b, nn / v1, nn % v1, nn, u2, v1, v2)
  {
    MulNonneg(u0, b);
    var q, r := nn / v1, nn % v1;
    DivNonneg(nn, v1);
    assert nn == q * v1 + r;
    MulMono(u0 + 1, v1, b);
    MulAdd(u0, 1, b);
    if q >= b {
      MulMono(b, q, v1);
    }
    MulAdd(q, 1, v1);
    MulMono(nn + 1, (q + 1) * v1, b);
    MulAdd(nn, 1, b);
    MulSplit(q + 1, v1, b, v2);
    MulNonneg(q + 1, v2);
  }

  lemma GuessRange(b: int, q: int, r: int, nn: int, u2: int, v1: int, v2: int)
    requires Guess(b, q, r, nn, u2, v1, v2)
    ensures Below(b, q) && r >= 0
  {
  }

  /** In any base, the estimate from the leading digits is the true quotient digit or one more. `W = U3 * P + wl` is the
      dividend window, `V = V2 * P + vl` the divisor, `P` the weight of the digits the estimate did not look at. */
  lemma TrialClose(b: int, q: int, U3: int, V2: int, P: int, wl: int, vl: int, W: int, V: int)
    requires IsTrial(b, q, U3, V2) && P >= 1 && 0 <= wl < P && 0 <= vl < P && V2 >= b
    requires W == U3 * P + wl && V == V2 * P + vl && W < b * V
    ensures V > 0 && (W / V == q || W / V == q - 1)
  {
    MulMono(b, V2, P);
    MulMono(1, b, P);
    assert (q - 1) * V <= W by {
      MulSplit(q, V2, P, vl);
      MulMono(q * V2, U3, P);
      MulMono(q, b, vl);
      MulMono(vl, P, b);
      MulSub(q, 1, V);
    }
    assert W < (q + 1) * V by {
      if q < b - 1 {
        MulSplit(q + 1, V2, P, vl);
        MulMono(U3 + 1, (q + 1) * V2, P);
        MulAdd(U3, 1, P);
        MulNonneg(q + 1, vl);
      }
    }
    MulAdd(q, 1, V);
    MulSub(q, 1, V);
    if q * V <= W {
      DivModUnique(W, V, q, W - q * V);
    } else {
      DivModUnique(W, V, q - 1, W - (q - 1) * V);
    }
  }

  /** With the right digit the subtraction leaves the remainder and no borrow. */
  lemma RightDigit(w0: int, u: int, V: int, q: int, c: int, d: int, P: int, W: int)
    requires 0 <= d < P && 0 < V < P && W == w0 * P + u
    requires d == u - q * V + c * P && W / V == q
    ensures w0 == c && d == W % V
  {
    assert W == q * V + W % V;
    MulSub(w0, c, P);
    assert (w0 - c) * P + d == W % V;
    if w0 > c {
      MulMono(1, w0 - c, P);
    } else if w0 < c {
      MulMono(w0 - c, -1, P);
    }
  }

  /** With one too many there is a borrow, and adding the divisor back repairs it. */
  lemma OneTooMany(w0: int, u: int, V: int, q: int, c: int, d: int, P: int, W: int, k: int, e: int)
    requires 0 <= d < P && 0 <= e < P && 0 < V < P && 0 <= k <= 1 && W == w0 * P + u
    requires d == u - q * V + c * P && W / V == q - 1 && e == d + V - k * P
    ensures w0 == c - 1 && k == 1 && e == W % V
  {
    assert W == (q - 1) * V + W % V;
    MulSub(q, 1, V);
    MulSub(w0, c, P);
    assert (w0 - c) * P + d == W % V - V;
    if w0 >= c {
      MulNonneg(w0 - c, P);
    } else if w0 < c - 1 {
      MulMono(w0 - c, -2, P);
    }
  }

  /** One round of Algorithm D in any base `b`. The window `W` has top digit `w0` and rest `u`, `P` the weight of the
      top digit; D3 has estimated `q` from the digits above weight `K`; D4 leaves `d` with borrow `c`. Then the borrow
      tells exactly whether the estimate was one too many, and `d`, with the divisor added back in that case, is the
      remainder. */
  lemma DigitStep(b: int, q: int, U3: int, V2: int, K: int, wl: int, vl: int, W: int, V: int,
                  w0: int, u: int, P: int, c: int, d: int)
    requires IsTrial(b, q, U3, V2) && K >= 1 && 0 <= wl < K && 0 <= vl < K && V2 >= b
    requires W == U3 * K + wl && V == V2 * K + vl && W < b * V
    requires W == w0 * P + u && V < P && 0 <= d < P && d == u - q * V + c * P
    ensures V > 0 && (c == w0 || c == w0 + 1)
    ensures c == w0 ==> W / V == q && W % V == d
    ensures c == w0 + 1 ==> W / V == q - 1 && W % V == d + V - P
  {
    TrialClose(b, q, U3, V2, K, wl, vl, W, V);
    if W / V == q {
      RightDigit(w0, u, V, q, c, d, P, W);
    } else {
      var k := if d + V >= P then 1 else 0;
      OneTooMany(w0, u, V, q, c, d, P, W, k, d + V - k * P);
    }
  }

  // ---------------------------------------------------------------------------------------
  // D3: estimating a quotient digit
  // ---------------------------------------------------------------------------------------

  lemma DigitProduct(a: int, b: int)
    requires IsDigit(a) && IsDigit(b)
    ensures 0 <= a * b <= (B - 1) * (B - 1)
  {
    MulNonneg(a, b);
    MulMono(a, B - 1, b);
  }

  /** The loop test of D3, in machine words. */
  predicate Overshoots(q: int, r: int, u2: int, v2: int)
    requires IsDigit(q) && IsDigit(r) && IsDigit(u2) && IsDigit(v2)
  {
    MulNonneg(v2, q);
    Word(v2 * q) > COMBINE(r, u2)
  }

  lemma OvershootsIs(q: int, r: int, u2: int, v2: int)
    requires IsDigit(q) && IsDigit(r) && IsDigit(u2) && IsDigit(v2)
    ensures Overshoots(q, r, u2, v2) <==> v2 * q > r * B + u2
  {
    DigitProduct(v2, q);
    CombineIs(r, u2);
  }

  /** The estimate from three dividend digits and two divisor digits is exact for those digits. */
  method Estimate(u0: int, u1: int, u2: int, v1: int, v2: int, ghost U3: int, ghost V2: int) returns (qhat: int)
    requires IsDigit(u0) && IsDigit(u1) && IsDigit(u2) && IsDigit(v1) && IsDigit(v2)
    requires v1 > 0 && u0 <= v1 && U3 == (u0 * B + u1) * B + u2 && V2 == v1 * B + v2
    ensures IsTrial(B, qhat, U3, V2)
  {
    hide Overshoots, COMBINE, Guess, IsTrial;
    var rhat: int;
    ghost var nn := u0 * B + u1;
    if u0 == v1 {
      GuessFull(B, u1, nn, u2, v1, v2);
      qhat, rhat := B - 1, u1 + v1;
    } else {
      CombineIs(u0, u1);
      GuessQuotient(B, u0, u1, nn, u2, v1, v2);
      qhat, rhat := COMBINE(u0, u1) / v1, COMBINE(u0, u1) % v1;
    }
    GuessRange(B, qhat, rhat, nn, u2, v1, v2);
    while rhat < B && Overshoots(qhat, rhat, u2, v2)
      invariant Guess(B, qhat, rhat, nn, u2, v1, v2) && IsDigit(qhat) && rhat >= 0
      decreases qhat
    {
      OvershootsIs(qhat, rhat, u2, v2);
      GuessDown(B, qhat, rhat, nn, u2, v1, v2);
      qhat, rhat := qhat - 1, rhat + v1;
    }
    if rhat < B {
      OvershootsIs(qhat, rhat, u2, v2);
    }
    GuessIsTrial(B, qhat, rhat, nn, u2, v1, v2, U3, V2);
  }

  // ---------------------------------------------------------------------------------------
  // D4 and D6: subtracting a multiple of the divisor, adding it back
  // ---------------------------------------------------------------------------------------

  /** One digit of D4: the wrapped word splits into the new digit and the exact borrow. */
  lemma BorrowExact(u: int, p: int, c: int)
    requires IsDigit(u) && 0 <= p <= (B - 1) * (B - 1) && IsDigit(c)
    ensures var t := Word(u - p - c);
      var c' := (B - HHALF(t)) % B;
      IsDigit(c') && u - p - c == LHALF(t) - c' * B
  {
  }

  /** What D4 computes: digits of `us - q * vs` and the borrow out of the top digit. */
  function SubtractMultiple(us: seq<int>, vs: seq<int>, q: int): (r: (seq<int>, int))
    requires |us| == |vs|
    ensures |r.0| == |us|
  {
    if us == [] then ([], 0)
    else
      var (ds, c) := SubtractMultiple(us[1..], vs[1..], q);
      var w := Word(us[0] - vs[0] * q - c);
      ([LHALF(w)] + ds, (B - HHALF(w)) % B)
  }

  /** What D6 computes: digits of `us + vs` and the carry out of the top digit. */
  function Add(us: seq<int>, vs: seq<int>): (r: (seq<int>, int))
    requires |us| == |vs| && AllDigits(us) && AllDigits(vs)
    ensures |r.0| == |us| && AllDigits(r.0) && 0 <= r.1 <= 1
  {
    if us == [] then ([], 0)
    else
      var (ds, c) := Add(us[1..], vs[1..]);
      var w := us[0] + vs[0] + c;
      ([LHALF(w)] + ds, HHALF(w))
  }

  lemma SubStep(x: int, y: int, q: int, c: int, x': int, c': int, P: int, u: int, v: int, d: int)
    requires d == u - q * v + c * P && x - y * q - c == x' - c' * B
    ensures x' * P + d == (x * P + u) - q * (y * P + v) + c' * (B * P)
  {
  }

  lemma {:induction false} SubtractHead(us: seq<int>, vs: seq<int>, q: int, us': seq<int>, vs': seq<int>)
    requires |us| == |vs| > 0 && us' == us[1..] && vs' == vs[1..]
    ensures var r := SubtractMultiple(us', vs', q);
      var w := Word(us[0] - vs[0] * q - r.1);
      SubtractMultiple(us, vs, q) == ([LHALF(w)] + r.0, (B - HHALF(w)) % B)
  {
  }

  /** D4 is exact modulo a power of the base. */
  lemma {:induction false} SubtractExact(us: seq<int>, vs: seq<int>, q: int)
    requires |us| == |vs| && AllDigits(us) && AllDigits(vs) && IsDigit(q)
    ensures var (ds, c) := SubtractMultiple(us, vs, q);
      AllDigits(ds) && IsDigit(c) && Val(ds) == Val(us) - q * Val(vs) + c * Pow(|us|)
  {
    if us != [] {
      var x, us', y, vs' := us[0], us[1..], vs[0], vs[1..];
      SubtractExact(us', vs', q);
      assert us == [x] + us' && vs == [y] + vs';
      SubtractHead(us, vs, q, us', vs');
      SubtractCons(x, us', y, vs', q);
    }
  }

  lemma {:induction false} SubtractCons(x: int, us: seq<int>, y: int, vs: seq<int>, q: int)
    requires |us| == |vs| && IsDigit(x) && IsDigit(y) && IsDigit(q)
    requires var (ds, c) := SubtractMultiple(us, vs, q);
      AllDigits(ds) && IsDigit(c) && Val(ds) == Val(us) - q * Val(vs) + c * Pow(|us|)
    ensures var r := SubtractMultiple(us, vs, q);
      var w := Word(x - y * q - r.1);
      var ds, c := [LHALF(w)] + r.0, (B - HHALF(w)) % B;
      AllDigits(ds) && IsDigit(c) && Val(ds) == Val([x] + us) - q * Val([y] + vs) + c * Pow(|us| + 1)
  {
    hide SubtractMultiple, Val;
    var r := SubtractMultiple(us, vs, q);
    DigitProduct(y, q);
    BorrowExact(x, y * q, r.1);
    var w := Word(x - y * q - r.1);
    hide Word, HHALF, LHALF;
    ValCons(x, us);
    ValCons(y, vs);
    ValCons(LHALF(w), r.0);
    SubStep(x, y, q, r.1, LHALF(w), (B - HHALF(w)) % B, Pow(|us|), Val(us), Val(vs), Val(r.0));
  }

  lemma AddStep(x: int, y: int, c: int, x': int, c': int, P: int, u: int, v: int, d: int)
    requires d == u + v - c * P && x + y + c == x' + c' * B
    ensures x' * P + d == (x * P + u) + (y * P + v) - c' * (B * P)
  {
  }

  lemma {:induction false} AddHead(us: seq<int>, vs: seq<int>, us': seq<int>, vs': seq<int>)
    requires |us| == |vs| > 0 && AllDigits(us) && AllDigits(vs) && us' == us[1..] && vs' == vs[1..]
    ensures AllDigits(us') && AllDigits(vs')
    ensures var r := Add(us', vs');
      var w := us[0] + vs[0] + r.1;
      w >= 0 && Add(us, vs) == ([LHALF(w)] + r.0, HHALF(w))
  {
  }

  lemma {:induction false} AddExact(us: seq<int>, vs: seq<int>)
    requires |us| == |vs| && AllDigits(us) && AllDigits(vs)
    ensures Val(Add(us, vs).0) == Val(us) + Val(vs) - Add(us, vs).1 * Pow(|us|)
  {
    if us != [] {
      var x, us', y, vs' := us[0], us[1..], vs[0], vs[1..];
      AddExact(us', vs');
      var (ds, c) := Add(us', vs');
      var w := x + y + c;
      assert us == [x] + us' && vs == [y] + vs';
      ValCons(x, us');
      ValCons(y, vs');
      ValCons(LHALF(w), ds);
      AddStep(x, y, c, LHALF(w), HHALF(w), Pow(|us'|), Val(us'), Val(vs'), Val(ds));
    }
  }

  /** Overwriting the digit just left of those already done. */
  lemma Replace(p: seq<int>, a: seq<int>, k: nat, done: seq<int>, tail: seq<int>, x: int)
    requires k < |a| && p == a[..k + 1] + done + tail
    ensures p[k] == a[k] && p[k := x] == a[..k] + ([x] + done) + tail
  {
  }

  /** D4 has reached digit `i`: `u` and the borrow `t`, from the dividend digits `a` and divisor digits `b`. */
  ghost predicate Subtracted(a: seq<int>, lo: nat, b: seq<int>, vlo: nat, n: nat, q: int, i: nat, u: seq<int>, t: int)
    requires lo + n < |a| && vlo + n < |b| && i <= n
  {
    var r := SubtractMultiple(a[lo + i + 1..lo + n + 1], b[vlo + i + 1..vlo + n + 1], q);
    t == r.1 && u == a[..lo + i + 1] + r.0 + a[lo + n + 1..]
  }

  lemma {:induction false} SubtractedStep(a: seq<int>, lo: nat, b: seq<int>, vlo: nat, n: nat, q: int, i: nat,
                                          u: seq<int>, t: int)
    requires lo + n < |a| && vlo + n < |b| && 0 < i <= n && Subtracted(a, lo, b, vlo, n, q, i, u, t)
    ensures |u| == |a| && u[lo + i] == a[lo + i]
    ensures var w := Word(a[lo + i] - b[vlo + i] * q - t);
      Subtracted(a, lo, b, vlo, n, q, i - 1, u[lo + i := LHALF(w)], (B - HHALF(w)) % B)
  {
    hide SubtractMultiple, Word, HHALF, LHALF;
    var us, vs := a[lo + i..lo + n + 1], b[vlo + i..vlo + n + 1];
    var us', vs' := a[lo + i + 1..lo + n + 1], b[vlo + i + 1..vlo + n + 1];
    SubtractHead(us, vs, q, us', vs');
    var w := Word(a[lo + i] - b[vlo + i] * q - t);
    Replace(u, a, lo + i, SubtractMultiple(us', vs', q).0, a[lo + n + 1..], LHALF(w));
  }

  lemma {:induction false} SubtractedStart(a: seq<int>, lo: nat, b: seq<int>, vlo: nat, n: nat, q: int)
    requires lo + n < |a| && vlo + n < |b|
    ensures Subtracted(a, lo, b, vlo, n, q, n, a, 0)
  {
  }

  /** D4 on the digits `u[lo + 1 .. lo + n]`; returns the borrow. */
  method MultiplySubtract(u: array<int>, lo: nat, v: array<int>, vlo: nat, n: nat, q: int) returns (t: int)
    requires u != v && lo + n < u.Length && vlo + n < v.Length
    modifies u
    ensures Subtracted(old(u[..]), lo, v[..], vlo, n, q, 0, u[..], t)
  {
    hide Subtracted, Word, HHALF, LHALF;
    t := 0;
    var i := n;
    ghost var u0, v0 := u[..], v[..];
    SubtractedStart(u0, lo, v0, vlo, n, q);
    while i > 0
      invariant 0 <= i <= n && v[..] == v0
      invariant Subtracted(u0, lo, v0, vlo, n, q, i, u[..], t)
    {
      ghost var u1 := u[..];
      SubtractedStep(u0, lo, v0, vlo, n, q, i, u1, t);
      var w := Word(u[lo + i] - v[vlo + i] * q - t);
      u[lo + i] := LHALF(w);
      t := (B - HHALF(w)) % B;
      assert u[..] == u1[lo + i := LHALF(w)];
      i := i - 1;
    }
  }

  /** D6 has reached digit `i`. */
  ghost predicate Added(a: seq<int>, lo: nat, b: seq<int>, vlo: nat, n: nat, i: nat, u: seq<int>, t: int)
    requires lo + n < |a| && vlo + n < |b| && i <= n && AllDigits(a) && AllDigits(b)
  {
    var r := Add(a[lo + i + 1..lo + n + 1], b[vlo + i + 1..vlo + n + 1]);
    t == r.1 && u == a[..lo + i + 1] + r.0 + a[lo + n + 1..]
  }

  lemma {:induction false} AddedStep(a: seq<int>, lo: nat, b: seq<int>, vlo: nat, n: nat, i: nat, u: seq<int>, t: int)
    requires lo + n < |a| && vlo + n < |b| && 0 < i <= n && AllDigits(a) && AllDigits(b)
    requires Added(a, lo, b, vlo, n, i, u, t)
    ensures |u| == |a| && u[lo + i] == a[lo + i]
    ensures var w := t + a[lo + i] + b[vlo + i];
      w >= 0 && Added(a, lo, b, vlo, n, i - 1, u[lo + i := LHALF(w)], HHALF(w))
  {
  }

  lemma {:induction false} AddedStart(a: seq<int>, lo: nat, b: seq<int>, vlo: nat, n: nat)
    requires lo + n < |a| && vlo + n < |b| && AllDigits(a) && AllDigits(b)
    ensures Added(a, lo, b, vlo, n, n, a, 0)
  {
  }

  /** D6 on the digits `u[lo + 1 .. lo + n]`; returns the carry. */
  method AddBack(u: array<int>, lo: nat, v: array<int>, vlo: nat, n: nat) returns (t: int)
    requires u != v && lo + n < u.Length && vlo + n < v.Length && AllDigits(u[..]) && AllDigits(v[..])
    modifies u
    ensures Added(old(u[..]), lo, v[..], vlo, n, 0, u[..], t)
  {
    hide *;
    t := 0;
    var i := n;
    ghost var u0, v0 := u[..], v[..];
    AddedStart(u0, lo, v0, vlo, n);
    while i > 0
      invariant 0 <= i <= n && v[..] == v0
      invariant Added(u0, lo, v0, vlo, n, i, u[..], t)
    {
      ghost var u1 := u[..];
      AddedStep(u0, lo, v0, vlo, n, i, u1, t);
      t := t + u[lo + i] + v[vlo + i];
      u[lo + i] := LHALF(t);
      assert u[..] == u1[lo + i := LHALF(t)];
      t := HHALF(t);
      i := i - 1;
    }
  }

  // ---------------------------------------------------------------------------------------
  // One quotient digit
  // ---------------------------------------------------------------------------------------

  lemma TopTwo(vs: seq<int>, k: nat, V2: int)
    requires |vs| == k + 2 && V2 == vs[0] * B + vs[1]
    ensures Val(vs) == V2 * Pow(k) + Val(vs[2..])
  {
    hide Val, Pow;
    assert vs == vs[..2] + vs[2..];
    ValConcat(vs[..2], vs[2..]);
    assert vs[..2] == [vs[0]] + [vs[1]];
    ValAppend([vs[0]], vs[1]);
    ValOne(vs[0]);
  }

  lemma ValOne(x: int)
    ensures Val([x]) == x
  {
    assert [x][..0] == [];
  }

  lemma TopThree(ws: seq<int>, k: nat, U3: int)
    requires |ws| == k + 3 && U3 == (ws[0] * B + ws[1]) * B + ws[2]
    ensures Val(ws) == U3 * Pow(k) + Val(ws[3..])
  {
    assert ws == ws[..3] + ws[3..];
    ValConcat(ws[..3], ws[3..]);
    assert ws[..3] == ws[..2] + [ws[2]];
    ValAppend(ws[..2], ws[2]);
    TopTwo(ws[..2], 0, ws[0] * B + ws[1]);
    assert ws[..2][2..] == [];
  }

  /** The leading digit of a smaller number is no larger. */
  lemma TopDigit(a: int, x: seq<int>, b: int, y: seq<int>)
    requires |x| == |y| && AllDigits(x) && AllDigits(y) && Val([a] + x) < Val([b] + y)
    ensures a <= b
  {
    ValCons(a, x);
    ValCons(b, y);
    ValBound(x);
    ValBound(y);
    if a > b {
      MulMono(b + 1, a, Pow(|x|));
      MulAdd(b, 1, Pow(|x|));
    }
  }

  lemma WindowBound(ws: seq<int>, vs: seq<int>)
    requires |ws| == |vs| + 1 && AllDigits(ws) && Val(ws[..|vs|]) < Val(vs)
    ensures Val(ws) < B * Val(vs)
  {
  }

  /** The D3 estimate for a window `ws` below `B` times the divisor `vs` is its quotient or one more. */
  lemma EstimateClose(ws: seq<int>, vs: seq<int>, q: int, U3: int, V2: int)
    requires |vs| >= 2 && |ws| == |vs| + 1 && AllDigits(ws) && AllDigits(vs) && vs[0] > 0
    requires Val(ws[..|vs|]) < Val(vs)
    requires U3 == (ws[0] * B + ws[1]) * B + ws[2] && V2 == vs[0] * B + vs[1] && IsTrial(B, q, U3, V2)
    ensures var V := Val(vs);
      V > 0 && (Val(ws) / V == q || Val(ws) / V == q - 1)
  {
    var k := |vs| - 2;
    TopTwo(vs, k, V2);
    TopThree(ws, k, U3);
    ValBound(ws[3..]);
    ValBound(vs[2..]);
    WindowBound(ws, vs);
    TrialClose(B, q, U3, V2, Pow(k), Val(ws[3..]), Val(vs[2..]), Val(ws), Val(vs));
  }

  /** What D4 and D6 leave when the estimate is right, or when it is one too many (`over`): the
      remainder `R`, and a borrow out of D4 in the second case only. */
  ghost predicate Outcome(w0: int, us: seq<int>, vs: seq<int>, q: int, over: bool, R: int)
    requires |us| == |vs| && AllDigits(vs)
  {
    var r := SubtractMultiple(us, vs, q);
    AllDigits(r.0) && IsDigit(r.1) &&
    if over then r.1 == w0 + 1 && Add(r.0, vs).1 == 1 && Val(Add(r.0, vs).0) == R
    else r.1 == w0 && Val(r.0) == R
  }

  lemma OutcomeRight(w0: int, us: seq<int>, vs: seq<int>, q: int, W: int, V: int)
    requires |us| == |vs| && AllDigits(us) && AllDigits(vs) && IsDigit(w0) && IsDigit(q)
    requires W == w0 * Pow(|us|) + Val(us) && V == Val(vs) && V > 0 && W / V == q
    ensures Outcome(w0, us, vs, q, false, W % V)
  {
    var r := SubtractMultiple(us, vs, q);
    SubtractExact(us, vs, q);
    ValBound(vs);
    ValBound(r.0);
    RightDigit(w0, Val(us), V, q, r.1, Val(r.0), Pow(|us|), W);
  }

  lemma OutcomeOver(w0: int, us: seq<int>, vs: seq<int>, q: int, W: int, V: int)
    requires |us| == |vs| && AllDigits(us) && AllDigits(vs) && IsDigit(w0) && IsDigit(q)
    requires W == w0 * Pow(|us|) + Val(us) && V == Val(vs) && V > 0 && W / V == q - 1
    ensures Outcome(w0, us, vs, q, true, W % V)
  {
    var r := SubtractMultiple(us, vs, q);
    SubtractExact(us, vs, q);
    ValBound(vs);
    ValBound(r.0);
    AddExact(r.0, vs);
    var a := Add(r.0, vs);
    ValBound(a.0);
    OneTooMany(w0, Val(us), V, q, r.1, Val(r.0), Pow(|us|), W, a.1, Val(a.0));
  }

  /** The borrow test of D5 and the top digit it leaves. */
  lemma TopWord(w0: int)
    requires IsDigit(w0)
    ensures HHALF(Word(w0 - w0)) == 0 && LHALF(Word(w0 - w0)) == 0
    ensures HHALF(Word(w0 - (w0 + 1))) != 0 && LHALF(Word(w0 - (w0 + 1))) == B - 1 && LHALF(B) == 0
  {
  }

  /** `a` with the digits `lo .. lo + n` replaced by a zero and `ds`. */
  function Cleared(a: seq<int>, lo: nat, n: nat, ds: seq<int>): (b: seq<int>)
    requires lo + n < |a| && |ds| == n
    ensures |b| == |a|
  {
    a[..lo] + [0] + ds + a[lo + n + 1..]
  }

  lemma {:induction false} CorrectRight(a: seq<int>, lo: nat, b: seq<int>, vlo: nat, n: nat, q: int, R: int,
                                        u: seq<int>, t: int)
    requires lo + n < |a| && vlo + n < |b| && AllDigits(a) && AllDigits(b)
    requires Outcome(a[lo], a[lo + 1..lo + n + 1], b[vlo + 1..vlo + n + 1], q, false, R)
    requires Subtracted(a, lo, b, vlo, n, q, 0, u, t)
    ensures |u| == |a| && u[lo] == a[lo] && t == a[lo]
    ensures exists ds :: |ds| == n && AllDigits(ds) && Val(ds) == R && u[lo := 0] == Cleared(a, lo, n, ds)
  {
    hide SubtractMultiple, Val;
    var ds := SubtractMultiple(a[lo + 1..lo + n + 1], b[vlo + 1..vlo + n + 1], q).0;
    assert u[lo := 0] == Cleared(a, lo, n, ds);
  }

  lemma {:induction false} CorrectOver(a: seq<int>, lo: nat, b: seq<int>, vlo: nat, n: nat, q: int, R: int,
                                       u: seq<int>, t: int)
    requires lo + n < |a| && vlo + n < |b| && AllDigits(a) && AllDigits(b)
    requires Outcome(a[lo], a[lo + 1..lo + n + 1], b[vlo + 1..vlo + n + 1], q, true, R)
    requires Subtracted(a, lo, b, vlo, n, q, 0, u, t)
    ensures |u| == |a| && u[lo] == a[lo] && t == a[lo] + 1 && AllDigits(u[lo := B - 1])
  {
  }

  lemma {:induction false} AddedOver(a: seq<int>, lo: nat, b: seq<int>, vlo: nat, n: nat, q: int, R: int,
                                     u: seq<int>, t: int, u': seq<int>, k: int)
    requires lo + n < |a| == |u| && vlo + n < |b| && AllDigits(a) && AllDigits(b) && AllDigits(u[lo := B - 1])
    requires Outcome(a[lo], a[lo + 1..lo + n + 1], b[vlo + 1..vlo + n + 1], q, true, R)
    requires Subtracted(a, lo, b, vlo, n, q, 0, u, t)
    requires Added(u[lo := B - 1], lo, b, vlo, n, 0, u', k)
    ensures |u'| == |a| && k == 1 && u'[lo] == B - 1
    ensures exists ds :: |ds| == n && AllDigits(ds) && Val(ds) == R && u'[lo := 0] == Cleared(a, lo, n, ds)
  {
    hide SubtractMultiple, Val, Add;
    var vs := b[vlo + 1..vlo + n + 1];
    var r := SubtractMultiple(a[lo + 1..lo + n + 1], vs, q);
    var a' := u[lo := B - 1];
    assert a' == a[..lo] + [B - 1] + r.0 + a[lo + n + 1..];
    assert a'[lo + 1..lo + n + 1] == r.0;
    var ds := Add(r.0, vs).0;
    assert u'[lo := 0] == Cleared(a, lo, n, ds);
  }

  /** D4 to D6. */
  method Correct(u: array<int>, lo: nat, v: array<int>, vlo: nat, n: nat, q: int, ghost over: bool, ghost R: int)
    returns (qhat: int)
    requires u != v && lo + n < u.Length && vlo + n < v.Length && AllDigits(u[..]) && AllDigits(v[..])
    requires Outcome(u[..][lo], u[..][lo + 1..lo + n + 1], v[..][vlo + 1..vlo + n + 1], q, over, R)
    modifies u
    ensures qhat == (if over then q - 1 else q)
    ensures exists ds :: |ds| == n && AllDigits(ds) && Val(ds) == R && u[..] == Cleared(old(u[..]), lo, n, ds)
  {
    hide Outcome, Subtracted, Added, Word, HHALF, LHALF, Cleared, Val;
    qhat := q;
    ghost var u0, v0 := u[..], v[..];
    var t := MultiplySubtract(u, lo, v, vlo, n, qhat);
    ghost var u1, t1 := u[..], t;
    if over {
      CorrectOver(u0, lo, v0, vlo, n, q, R, u1, t1);
    } else {
      CorrectRight(u0, lo, v0, vlo, n, q, R, u1, t1);
    }
    TopWord(u0[lo]);
    t := Word(u[lo] - t);
    u[lo] := LHALF(t);
    assert u[..] == u1[lo := LHALF(t)];
    if HHALF(t) != 0 {
      qhat := qhat - 1;
      t := AddBack(u, lo, v, vlo, n);
      ghost var u2 := u[..];
      AddedOver(u0, lo, v0, vlo, n, q, R, u1, t1, u2, t);
      u[lo] := LHALF(u[lo] + t);
      assert u[..] == u2[lo := 0];
    }
  }

  /** The leading digit of the window is at most that of the divisor. */
  lemma LeadingDigit(ws: seq<int>, vs: seq<int>)
    requires |vs| >= 2 && |ws| == |vs| + 1 && AllDigits(ws) && AllDigits(vs) && Val(ws[..|vs|]) < Val(vs)
    ensures ws[0] <= vs[0]
  {
    var x := ws[..|vs|];
    assert x == [ws[0]] + x[1..] && vs == [vs[0]] + vs[1..];
    TopDigit(ws[0], x[1..], vs[0], vs[1..]);
  }

  lemma OutcomeEither(w0: int, us: seq<int>, vs: seq<int>, q: int, W: int, V: int)
    requires |us| == |vs| && AllDigits(us) && AllDigits(vs) && IsDigit(w0) && IsDigit(q)
    requires W == w0 * Pow(|us|) + Val(us) && V == Val(vs) && V > 0 && (W / V == q || W / V == q - 1)
    ensures Outcome(w0, us, vs, q, W / V != q, W % V)
  {
    if W / V == q {
      OutcomeRight(w0, us, vs, q, W, V);
    } else {
      OutcomeOver(w0, us, vs, q, W, V);
    }
  }

  /** The estimate for a window, and what follows from it. */
  lemma EstimateOutcome(w0: int, us: seq<int>, ws: seq<int>, vs: seq<int>, q: int, W: int, V: int, U3: int, V2: int)
    requires |vs| >= 2 && |us| == |vs| && AllDigits(ws) && AllDigits(vs) && vs[0] > 0 && ws == [w0] + us
    requires W == Val(ws) && V == Val(vs) && Val(ws[..|vs|]) < V
    requires U3 == (ws[0] * B + ws[1]) * B + ws[2] && V2 == vs[0] * B + vs[1] && IsTrial(B, q, U3, V2)
    ensures V > 0 && (W / V == q || W / V == q - 1) && IsDigit(W / V)
    ensures Outcome(w0, us, vs, q, W / V != q, W % V)
  {
    EstimateClose(ws, vs, q, U3, V2);
    ValBound(ws);
    DivNonneg(W, V);
    ValCons(w0, us);
    assert us == ws[1..] && w0 == ws[0];
    OutcomeEither(w0, us, vs, q, W, V);
  }

  ghost predicate SameOutside(a: seq<int>, b: seq<int>, lo: int, hi: int) {
    |a| == |b| && forall k :: 0 <= k < |a| && !(lo <= k <= hi) ==> b[k] == a[k]
  }

  lemma ClearedDigits(a: seq<int>, b: seq<int>, lo: nat, n: nat, ds: seq<int>)
    requires lo + n < |a| && |ds| == n && AllDigits(a) && AllDigits(ds) && b == Cleared(a, lo, n, ds)
    ensures AllDigits(b) && b[lo] == 0 && b[lo + 1..lo + n + 1] == ds && SameOutside(a, b, lo, lo + n)
  {
  }

  /** D3 to D6: one digit of the quotient. The window `u[lo .. lo + n]` is replaced by its remainder. */
  method QuotientDigit(u: array<int>, lo: nat, v: array<int>, vlo: nat, n: nat, ghost W: int, ghost V: int)
    returns (qhat: int)
    requires u != v && n >= 2 && lo + n < u.Length && vlo + n < v.Length
    requires AllDigits(u[..]) && AllDigits(v[..]) && v[vlo + 1] > 0
    requires W == Val(u[..][lo..lo + n + 1]) && V == Val(v[..][vlo + 1..vlo + n + 1]) && Val(u[..][lo..lo + n]) < V
    modifies u
    ensures V > 0 && IsDigit(qhat) && qhat == W / V
    ensures AllDigits(u[..]) && u[..][lo] == 0 && Val(u[..][lo + 1..lo + n + 1]) == W % V
    ensures SameOutside(old(u[..]), u[..], lo, lo + n)
  {
    hide Val, IsTrial, Outcome, Cleared, SameOutside;
    ghost var u0, v0 := u[..], v[..];
    ghost var ws, vs := u0[lo..lo + n + 1], v0[vlo + 1..vlo + n + 1];
    assert ws[..n] == u0[lo..lo + n] && ws[1..] == u0[lo + 1..lo + n + 1] && ws == [ws[0]] + ws[1..];
    LeadingDigit(ws, vs);
    ghost var U3, V2 := (ws[0] * B + ws[1]) * B + ws[2], vs[0] * B + vs[1];
    qhat := Estimate(u[lo], u[lo + 1], u[lo + 2], v[vlo + 1], v[vlo + 2], U3, V2);
    EstimateOutcome(ws[0], ws[1..], ws, vs, qhat, W, V, U3, V2);
    qhat := Correct(u, lo, v, vlo, n, qhat, W / V != qhat, W % V);
    ghost var ds :| |ds| == n && AllDigits(ds) && Val(ds) == W % V && u[..] == Cleared(u0, lo, n, ds);
    ClearedDigits(u0, u[..], lo, n, ds);
  }

  // ---------------------------------------------------------------------------------------
  // Long division
  // ---------------------------------------------------------------------------------------

  /** Bringing down the digit `d`. */
  lemma BringDown(U: int, d: int, V: int, W: int)
    requires V > 0 && W == (U % V) * B + d
    ensures (U * B + d) / V == (U / V) * B + W / V && (U * B + d) % V == W % V
  {
    var q, r := U / V, U % V;
    assert U == q * V + r;
    MulAdd(q * V, r, B);
    assert (q * V) * B == (q * B) * V;
    MulAdd(q * B, W / V, V);
    assert W == (W / V) * V + W % V;
    DivModUnique(U * B + d, V, q * B + W / V, W % V);
  }

  /** Long division has worked through the leading digits `us` of the dividend. */
  ghost predicate Divided(us: seq<int>, V: int, qs: seq<int>, rs: seq<int>) {
    V > 0 && Val(qs) == Val(us) / V && Val(rs) == Val(us) % V
  }

  lemma DividedStep(us: seq<int>, d: int, V: int, qs: seq<int>, rs: seq<int>, W: int, qhat: int, rs': seq<int>)
    requires Divided(us, V, qs, rs) && W == Val(rs + [d]) && qhat == W / V && Val(rs') == W % V
    ensures Divided(us + [d], V, qs + [qhat], rs')
  {
    ValAppend(rs, d);
    ValAppend(us, d);
    ValAppend(qs, qhat);
    BringDown(Val(us), d, V, W);
  }

  lemma DividedStart(us: seq<int>, V: int)
    requires 0 <= Val(us) < V
    ensures Divided(us, V, [], us)
  {
  }

  lemma RemainderBelow(us: seq<int>, V: int, qs: seq<int>, rs: seq<int>)
    requires Divided(us, V, qs, rs)
    ensures Val(rs) < V
  {
  }

  /** D3 to D7 for one digit of a long division. */
  method NextDigit(u: array<int>, lo: nat, v: array<int>, vlo: nat, n: nat, ghost V: int, ghost us: seq<int>,
                   ghost qs: seq<int>)
    returns (qhat: int)
    requires u != v && n >= 2 && lo + n < u.Length && vlo + n < v.Length
    requires AllDigits(u[..]) && AllDigits(v[..]) && v[vlo + 1] > 0
    requires V == Val(v[..][vlo + 1..vlo + n + 1]) && Divided(us, V, qs, u[..][lo..lo + n])
    modifies u
    ensures IsDigit(qhat) && AllDigits(u[..]) && u[..][lo] == 0
    ensures Divided(us + [old(u[..])[lo + n]], V, qs + [qhat], u[..][lo + 1..lo + n + 1])
    ensures SameOutside(old(u[..]), u[..], lo, lo + n)
  {
    ghost var u0 := u[..];
    ghost var rs, d := u0[lo..lo + n], u0[lo + n];
    RemainderBelow(us, V, qs, rs);
    ghost var W := Val(u0[lo..lo + n + 1]);
    assert u0[lo..lo + n + 1] == rs + [d];
    hide Val, Divided, SameOutside;
    qhat := QuotientDigit(u, lo, v, vlo, n, W, V);
    DividedStep(us, d, V, qs, rs, W, qhat, u[..][lo + 1..lo + n + 1]);
  }

  /** After `j` digits: `a` and `p` are the dividend and quotient arrays now, `a0` and `p0` at the start. */
  ghost predicate Progress(a0: seq<int>, a: seq<int>, lo: nat, n: nat, j: nat, p0: seq<int>, p: seq<int>, qlo: nat,
                           V: int)
    requires lo + j + n <= |a| == |a0| && qlo + j <= |p| == |p0|
  {
    Divided(a0[lo..lo + j + n], V, p[qlo..qlo + j], a[lo + j..lo + j + n]) &&
    (forall k :: lo <= k < lo + j ==> a[k] == 0) &&
    (forall k :: 0 <= k < |a| && !(lo <= k < lo + j + n) ==> a[k] == a0[k]) &&
    (forall k :: 0 <= k < |p| && !(qlo <= k < qlo + j) ==> p[k] == p0[k])
  }

  lemma SliceAppend(a: seq<int>, lo: nat, hi: nat)
    requires lo <= hi < |a|
    ensures a[lo..hi + 1] == a[lo..hi] + [a[hi]]
  {
  }

  lemma SliceUpdate(a: seq<int>, lo: nat, hi: nat, x: int)
    requires lo <= hi < |a|
    ensures a[hi := x][lo..hi] == a[lo..hi]
  {
  }

  lemma ProgressStart(a: seq<int>, lo: nat, n: nat, p: seq<int>, qlo: nat, V: int)
    requires lo + n <= |a| && qlo <= |p| && AllDigits(a) && Val(a[lo..lo + n]) < V
    ensures Progress(a, a, lo, n, 0, p, p, qlo, V)
  {
    hide Divided;
    ValBound(a[lo..lo + n]);
    DividedStart(a[lo..lo + n], V);
    assert p[qlo..qlo] == [];
  }

  lemma ProgressDivided(a0: seq<int>, a: seq<int>, lo: nat, n: nat, j: nat, p0: seq<int>, p: seq<int>, qlo: nat, V: int)
    requires lo + j + n <= |a| == |a0| && qlo + j <= |p| == |p0| && Progress(a0, a, lo, n, j, p0, p, qlo, V)
    ensures Divided(a0[lo..lo + j + n], V, p[qlo..qlo + j], a[lo + j..lo + j + n])
  {
  }

  lemma ProgressStep(a0: seq<int>, a: seq<int>, b: seq<int>, lo: nat, n: nat, j: nat, p0: seq<int>, p: seq<int>,
                     qlo: nat, V: int, qhat: int)
    requires lo + j + n < |a| == |a0| == |b| && qlo + j < |p| == |p0| && Progress(a0, a, lo, n, j, p0, p, qlo, V)
    requires b[lo + j] == 0 && SameOutside(a, b, lo + j, lo + j + n)
    requires Divided(a0[lo..lo + j + n] + [a[lo + j + n]], V, p[qlo..qlo + j] + [qhat], b[lo + j + 1..lo + j + n + 1])
    ensures Progress(a0, b, lo, n, j + 1, p0, p[qlo + j := qhat], qlo, V)
  {
    hide Divided;
    SliceAppend(a0, lo, lo + j + n);
    SliceAppend(p[qlo + j := qhat], qlo, qlo + j);
    SliceUpdate(p, qlo, qlo + j, qhat);
  }

  /** D2 to D7: the digits `q[qlo .. qlo + m]` of the quotient of `u[lo .. lo + m + n]` by `v[vlo + 1 ..]`. */
  method DigitLoop(u: array<int>, lo: nat, v: array<int>, vlo: nat, n: nat, m: nat, q: array<int>, qlo: nat,
                   ghost V: int)
    requires u != v && u != q && v != q && n >= 2
    requires lo + m + n < u.Length && vlo + n < v.Length && qlo + m < q.Length
    requires AllDigits(u[..]) && AllDigits(v[..]) && AllDigits(q[..]) && v[vlo + 1] > 0
    requires V == Val(v[..][vlo + 1..vlo + n + 1]) && Val(u[..][lo..lo + n]) < V
    modifies u, q
    ensures AllDigits(u[..]) && AllDigits(q[..])
    ensures Progress(old(u[..]), u[..], lo, n, m + 1, old(q[..]), q[..], qlo, V)
  {
    hide Val, Progress, SameOutside, Divided;
    ghost var u0, v0, q0 := u[..], v[..], q[..];
    var j := 0;
    ProgressStart(u0, lo, n, q0, qlo, V);
    while j <= m
      invariant 0 <= j <= m + 1 && v[..] == v0
      invariant AllDigits(u[..]) && AllDigits(q[..])
      invariant Progress(u0, u[..], lo, n, j, q0, q[..], qlo, V)
    {
      ghost var u1, q1 := u[..], q[..];
      ProgressDivided(u0, u1, lo, n, j, q0, q1, qlo, V);
      var qhat := NextDigit(u, lo + j, v, vlo, n, V, u0[lo..lo + j + n], q1[qlo..qlo + j]);
      ProgressStep(u0, u1, u[..], lo, n, j, q0, q1, qlo, V, qhat);
      q[qlo + j] := qhat;
      assert q[..] == q1[qlo + j := qhat];
      j := j + 1;
    }
  }

  // ---------------------------------------------------------------------------------------
  // D1: normalisation, and undoing it
  // ---------------------------------------------------------------------------------------

  lemma Double(v: int, d: nat)
    requires v >= 1
    ensures v * Pow2(d + 1) == 2 * (v * Pow2(d)) && Pow2(d) <= v * Pow2(d)
  {
  }

  /** D1: the multiplier `2^d` that brings the leading divisor digit to at least `B / 2`. */
  method Normaliser(v1: int) returns (d: nat)
    requires 0 < v1 < B
    ensures d < HALF_BITS && B / 2 <= v1 * Pow2(d) < B
  {
    d := 0;
    var t := v1;
    assert v1 * Pow2(0) == v1;
    hide Pow2;
    while t < B / 2
      invariant d < HALF_BITS && t == v1 * Pow2(d) && 0 < t < B
      decreases B - t
    {
      Double(v1, d);
      assert d < HALF_BITS - 1 by {
        if d == HALF_BITS - 1 {
          Pow2Below();
        }
      }
      t := t * 2;
      d := d + 1;
    }
  }

  lemma Pow2Below()
    ensures Pow2(HALF_BITS - 1) == B / 2
  {
    Pow2Half();
  }

  /** `b` is `a` with the digits `lo .. hi - 1` multiplied by `S`. */
  ghost predicate Scaled(a: seq<int>, b: seq<int>, lo: nat, hi: nat, S: int) {
    lo <= hi <= |a| == |b| && AllDigits(b) && Val(b[lo..hi]) == Val(a[lo..hi]) * S &&
    a[..lo] == b[..lo] && a[hi..] == b[hi..]
  }

  lemma Unscaled(a: seq<int>, lo: nat, hi: nat)
    requires lo <= hi <= |a| && AllDigits(a)
    ensures Scaled(a, a, lo, hi, Pow2(0))
  {
  }

  /** `shl` scales a number when nothing falls out of its top digit. */
  lemma ShlScales(a: seq<int>, lo: nat, hi: nat, sh: nat, b: seq<int>, S: int)
    requires lo < hi <= |a| && AllDigits(a) && 0 < sh < HALF_BITS && S == Pow2(sh) && a[lo] * S < B
    requires b == a[..lo] + ShiftLeft(a[lo..hi], sh) + a[hi..]
    ensures Scaled(a, b, lo, hi, S) && b[lo] >= a[lo] * S
  {
    var ds := a[lo..hi];
    var T := Pow2(HALF_BITS - sh);
    assert Split(sh, S, T);
    ShiftLeftExact(ds, sh, S, T);
    assert b[lo..hi] == ShiftLeft(ds, sh);
    SplitProduct(sh, S, T);
    assert ds[0] / T == 0 by {
      if ds[0] >= T {
        MulMono(T, ds[0], S);
      }
      DivModUnique(ds[0], T, 0, ds[0]);
    }
    var y := if |ds| > 1 then ds[1] else 0;
    LeftIs(ds[0], y, sh, S, T);
    DivNonneg(y, T);
    assert b[lo] == ShiftLeft(ds, sh)[0] == Left(ds[0], y, sh);
    DigitsJoin(a[..lo], ShiftLeft(ds, sh), a[hi..]);
  }

  lemma DigitsJoin(a: seq<int>, b: seq<int>, c: seq<int>)
    requires AllDigits(a) && AllDigits(b) && AllDigits(c)
    ensures AllDigits(a + b + c)
  {
  }

  /** D1: scale dividend and divisor alike. */
  method Normalise(u: array<int>, lo: nat, m: nat, v: array<int>, vlo: nat, n: nat) returns (d: nat)
    requires u != v && n >= 2 && lo + m + n < u.Length && vlo + n < v.Length
    requires AllDigits(u[..]) && AllDigits(v[..]) && u[lo] == 0 && v[vlo + 1] > 0
    modifies u, v
    ensures d < HALF_BITS && Scaled(old(u[..]), u[..], lo, lo + m + n + 1, Pow2(d))
    ensures Scaled(old(v[..]), v[..], vlo + 1, vlo + n + 1, Pow2(d)) && v[vlo + 1] > 0
  {
    ghost var u0, v0 := u[..], v[..];
    Unscaled(u0, lo, lo + m + n + 1);
    Unscaled(v0, vlo + 1, vlo + n + 1);
    d := Normaliser(v[vlo + 1]);
    hide Scaled, Pow2, ShiftLeft, AllDigits;
    if d > 0 {
      Shl(u, lo, m + n, d);
      ShlScales(u0, lo, lo + m + n + 1, d, u[..], Pow2(d));
      Shl(v, vlo + 1, n - 1, d);
      assert vlo + 1 + (n - 1) + 1 == vlo + n + 1;
      ShlScales(v0, vlo + 1, vlo + n + 1, d, v[..], Pow2(d));
      assert v[..][vlo + 1] == v[vlo + 1];
    }
  }

  lemma {:induction false} PowAdd(k: nat, l: nat)
    ensures Pow(k + l) == Pow(k) * Pow(l)
  {
    if k > 0 {
      PowAdd(k - 1, l);
      MulAssoc(B, Pow(k - 1), Pow(l));
    }
  }

  /** A number with a nonzero leading digit is at least its weight. */
  lemma ValAtLeast(vs: seq<int>)
    requires vs != [] && AllDigits(vs) && vs[0] > 0
    ensures Val(vs) >= Pow(|vs| - 1)
  {
  }

  lemma ValLeadingZero(us: seq<int>)
    requires us != [] && AllDigits(us) && us[0] == 0
    ensures 0 <= Val(us) < Pow(|us| - 1) && Val(us) == Val(us[1..])
  {
    assert us == [0] + us[1..];
    ValCons(0, us[1..]);
    ValBound(us[1..]);
  }

  lemma DividendBound(us: seq<int>, k: nat, l: nat)
    requires |us| == k + l + 1 && AllDigits(us) && us[0] == 0
    ensures 0 <= Val(us) < Pow(k) * Pow(l)
  {
    hide Val, Pow;
    ValLeadingZero(us);
    assert |us| - 1 == k + l;
    PowAdd(k, l);
  }

  lemma WindowSplit(us: seq<int>, n: nat, k: nat)
    requires |us| == n + k && AllDigits(us)
    ensures Val(us) == Val(us[..n]) * Pow(k) + Val(us[n..]) && Val(us[n..]) >= 0
  {
    hide Val, Pow;
    assert us == us[..n] + us[n..] && |us[n..]| == k;
    ValConcat(us[..n], us[n..]);
    ValBound(us[n..]);
  }

  lemma FirstWindowScaled(W: int, x: int, y: int, U: int, V: int, VS: int, S: int, M: int, N: int)
    requires W == x * M + y && W == U * S && VS == V * S
    requires y >= 0 && 0 <= U < M * N && N <= V && S > 0 && M > 0
    ensures x < VS
  {
  }

  lemma FirstWindowParts(us: seq<int>, us': seq<int>, vs: seq<int>, m: nat, n: nat)
    requires |vs| == n >= 2 && |us| == |us'| == m + n + 1
    requires AllDigits(us) && AllDigits(us') && AllDigits(vs) && us[0] == 0 && vs[0] > 0
    ensures Val(us') == Val(us'[..n]) * Pow(m + 1) + Val(us'[n..]) && Val(us'[n..]) >= 0
    ensures 0 <= Val(us) < Pow(m + 1) * Pow(n - 1) && Pow(n - 1) <= Val(vs)
  {
    hide Val, Pow;
    WindowSplit(us', n, m + 1);
    DividendBound(us, m + 1, n - 1);
    ValAtLeast(vs);
  }

  /** Before the first digit the leading `n` digits of the scaled dividend are below the scaled divisor. */
  lemma FirstWindow(us: seq<int>, us': seq<int>, vs: seq<int>, vs': seq<int>, S: int, m: nat, n: nat)
    requires |vs| == n >= 2 && |us| == |us'| == m + n + 1 && S > 0
    requires AllDigits(us) && AllDigits(us') && AllDigits(vs) && us[0] == 0 && vs[0] > 0
    requires Val(us') == Val(us) * S && Val(vs') == Val(vs) * S
    ensures Val(us'[..n]) < Val(vs')
  {
    hide *;
    FirstWindowParts(us, us', vs, m, n);
    FirstWindowScaled(Val(us'), Val(us'[..n]), Val(us'[n..]), Val(us), Val(vs), Val(vs'), S, Pow(m + 1), Pow(n - 1));
  }

  /** Scaling both leaves the quotient alone and scales the remainder. */
  lemma ScaledDivision(U: int, V: int, S: int)
    requires V > 0 && S > 0
    ensures V * S > 0 && (U * S) / (V * S) == U / V && (U * S) % (V * S) == (U % V) * S
  {
    var q, r := U / V, U % V;
    assert U == q * V + r;
    MulAdd(q * V, r, S);
    MulAssoc(q, V, S);
    MulMono(r, V - 1, S);
    MulSub(V, 1, S);
    MulNonneg(r, S);
    DivModUnique(U * S, V * S, q, r * S);
  }

  /** Shifting a multiple of `S` right gives the exact quotient. */
  lemma Unscale(S: int, x: int, R: int, l: int)
    requires S > 0 && S * x == R * S - l && 0 <= l < S
    ensures x == R
  {
    MulSub(R, x, S);
    if R > x {
      MulAtLeast(R - x, S);
    } else if R < x {
      MulMono(R - x, -1, S);
    }
  }

  lemma ShiftedRemainder(rs: seq<int>, d: nat, R: int, S: int)
    requires AllDigits(rs) && 0 < d < HALF_BITS && S == Pow2(d) && Val(rs) == R * S
    ensures AllDigits(ShiftRight(0, rs, d)) && Val(ShiftRight(0, rs, d)) == R
  {
    var T := Pow2(HALF_BITS - d);
    ShiftRightExact(0, rs, d, S, T);
    DivModUnique(0, S, 0, 0);
    Unscale(S, Val(ShiftRight(0, rs, d)), R, Last(0, rs) % S);
  }

  // ---------------------------------------------------------------------------------------
  // The whole division
  // ---------------------------------------------------------------------------------------

  lemma ZeroPrefix(a: seq<int>, k: nat)
    requires k <= |a| && forall i :: 0 <= i < k ==> a[i] == 0
    ensures Val(a) == Val(a[k..])
  {
    assert a == a[..k] + a[k..];
    ValConcat(a[..k], a[k..]);
    ValZeros(a[..k]);
  }

  /** Undo D1 on the remainder. */
  method Denormalise(u: array<int>, lo: nat, n: nat, d: nat, ghost R: int)
    requires lo + n + 1 == u.Length && d < HALF_BITS && AllDigits(u[..]) && u[lo] == 0
    requires Val(u[..][lo + 1..]) == R * Pow2(d)
    modifies u
    ensures AllDigits(u[..]) && u[..][..lo + 1] == old(u[..])[..lo + 1] && Val(u[..][lo + 1..]) == R
  {
    if d != 0 {
      hide Val, Pow2, ShiftRight;
      ghost var u0 := u[..];
      ghost var rs := u0[lo + 1..lo + n + 1];
      assert rs == u0[lo + 1..] && u0[lo + n + 1..] == [];
      Shr(u, lo, n, d);
      ShiftedRemainder(rs, d, R, Pow2(d));
      ghost var out := ShiftRight(0, rs, d);
      assert u[..] == u0[..lo] + [0] + out;
      DigitsJoin(u0[..lo], [0], out);
      assert u0[..lo + 1] == u0[..lo] + [0];
      assert u[..][lo + 1..] == out;
    }
  }

  /** What is known when the digit loop ends, in terms of the numbers before normalisation. */
  lemma LongExact(U: int, V: int, S: int, u1: seq<int>, u2: seq<int>, lo: nat, n: nat, m: nat, q0: seq<int>,
                  q: seq<int>, qlo: nat)
    requires |u1| == |u2| == lo + m + n + 1 && |q0| == |q| == qlo + m + 1 && V > 0 && S > 0
    requires Progress(u1, u2, lo, n, m + 1, q0, q, qlo, V * S)
    requires Val(u1[lo..]) == U * S
    requires forall k :: 0 <= k < qlo ==> q0[k] == 0
    requires forall k :: 0 <= k < lo ==> u1[k] == 0
    ensures Val(q) == U / V && Val(u2[lo + m + 1..]) == (U % V) * S
    ensures forall k :: 0 <= k <= lo + m ==> u2[k] == 0
    ensures forall k :: 0 <= k < qlo ==> q[k] == 0
  {
    assert u1[lo..lo + (m + 1) + n] == u1[lo..] && q[qlo..qlo + (m + 1)] == q[qlo..];
    assert u2[lo + (m + 1)..lo + (m + 1) + n] == u2[lo + m + 1..];
    hide Val;
    ScaledDivision(U, V, S);
    ZeroPrefix(q, qlo);
  }

  /** D1 to D8 on whole arrays: `u` becomes the remainder and `q` the quotient. */
  method Long(u: array<int>, lo: nat, v: array<int>, vlo: nat, n: nat, m: nat, q: array<int>, qlo: nat, ghost U: int,
              ghost V: int)
    requires u != v && u != q && v != q && n >= 2
    requires u.Length == lo + m + n + 1 && v.Length == vlo + n + 1 && q.Length == qlo + m + 1
    requires AllDigits(u[..]) && AllDigits(v[..]) && AllDigits(q[..]) && v[vlo + 1] > 0
    requires U == Val(u[..][lo..]) && V == Val(v[..][vlo + 1..])
    requires forall k :: 0 <= k <= lo ==> u[..][k] == 0
    requires forall k :: 0 <= k < qlo ==> q[..][k] == 0
    modifies u, v, q
    ensures AllDigits(u[..]) && AllDigits(q[..])
    ensures V > 0 && Val(q[..]) == U / V && Val(u[..]) == U % V
    ensures u[0] == 0 && (qlo > 0 ==> q[0] == 0)
  {
    hide Val, Pow2, Progress;
    ghost var u0, v0, q0 := u[..], v[..], q[..];
    var d := Normalise(u, lo, m, v, vlo, n);
    ghost var S, u1, v1 := Pow2(d), u[..], v[..];
    assert u0[lo..lo + m + n + 1] == u0[lo..] && u1[lo..lo + m + n + 1] == u1[lo..];
    assert v0[vlo + 1..vlo + n + 1] == v0[vlo + 1..] && v1[vlo + 1..vlo + n + 1] == v1[vlo + 1..];
    FirstWindow(u0[lo..], u1[lo..], v0[vlo + 1..], v1[vlo + 1..], S, m, n);
    assert u1[lo..][..n] == u1[lo..lo + n];
    DigitLoop(u, lo, v, vlo, n, m, q, qlo, V * S);
    ValAtLeast(v0[vlo + 1..]);
    LongExact(U, V, S, u1, u[..], lo, n, m, q0, q[..], qlo);
    Denormalise(u, lo + m, n, d, U % V);
    ZeroPrefix(u[..], lo + m + 1);
  }

  lemma FourDigits(a: seq<int>)
    requires |a| == 4
    ensures Val(a) == ((a[0] * B + a[1]) * B + a[2]) * B + a[3]
  {
    assert a == a[..3] + [a[3]] && a[..3] == a[..2] + [a[2]] && a[..2] == a[..1] + [a[1]] && a[..1] == [] + [a[0]];
    ValAppend(a[..3], a[3]);
    ValAppend(a[..2], a[2]);
    ValAppend(a[..1], a[1]);
    ValAppend([], a[0]);
  }

  /** The `union uu` read as four digits below a zero. */
  method Unpack(x: nat) returns (a: array<int>)
    requires x < QUAD
    ensures fresh(a) && a.Length == 5 && AllDigits(a[..]) && a[0] == 0 && Val(a[..]) == x
  {
    var h, l := x / WORD, x % WORD;
    a := new int[5][0, HHALF(h), LHALF(h), HHALF(l), LHALF(l)];
    assert x == h * WORD + l && h == HHALF(h) * B + LHALF(h) && l == HHALF(l) * B + LHALF(l);
    FourDigits(a[..][1..]);
    ZeroPrefix(a[..], 1);
  }

  /** Two words made of four digits. */
  method Pack(a: int, b: int, c: int, d: int) returns (x: nat)
    requires IsDigit(a) && IsDigit(b) && IsDigit(c) && IsDigit(d)
    ensures x == Val([a, b, c, d]) < QUAD
  {
    CombineIs(a, b);
    CombineIs(c, d);
    FourDigits([a, b, c, d]);
    ValBound([a, b, c, d]);
    x := COMBINE(a, b) * WORD + COMBINE(c, d);
  }

  /** In short division the remainder so far is below `t`, so the quotient digit fits. */
  lemma ShortQuotient(r: int, d: int, t: int, x: int)
    requires IsDigit(d) && 0 <= r < t && x == r * B + d
    ensures IsDigit(x / t) && 0 <= x % t < t
  {
  }

  lemma ShortStep(us: seq<int>, d: int, t: int, qs: seq<int>, r: int, x: int, q: int, r': int)
    requires Divided(us, t, qs, [r]) && x == r * B + d && q == x / t && r' == x % t
    ensures Divided(us + [d], t, qs + [q], [r'])
  {
    ValOne(r);
    ValOne(r');
    ValAppend([r], d);
    DividedStep(us, d, t, qs, [r], x, q, [r']);
  }

  /** One digit of short division. */
  method ShortDigit(r: int, d: int, t: int, ghost us: seq<int>, ghost qs: seq<int>) returns (q: int, r': int)
    requires IsDigit(d) && 0 <= r < t < B && Divided(us, t, qs, [r])
    ensures IsDigit(q) && 0 <= r' < t && Divided(us + [d], t, qs + [q], [r'])
  {
    hide Divided;
    var rbj := COMBINE(r, d);
    CombineIs(r, d);
    ShortQuotient(r, d, t, rbj);
    q, r' := LHALF(rbj / t), rbj % t;
    ShortStep(us, d, t, qs, r, rbj, q, r');
  }

  /** A divisor of one digit: short division (exercise 16 of Knuth's section). */
  method Short(u: array<int>, t: int) returns (q: nat, r: nat)
    requires u.Length == 5 && AllDigits(u[..]) && u[0] == 0 && 0 < t < B
    ensures q == Val(u[..]) / t && r == Val(u[..]) % t && q < QUAD
  {
    var q1, q2, q3, q4, r1, r2, r3, r4;
    assert Divided([], t, [], [0]) by {
      ValOne(0);
      DivModUnique(0, t, 0, 0);
    }
    q1, r1 := ShortDigit(0, u[1], t, [], []);
    q2, r2 := ShortDigit(r1, u[2], t, [] + [u[1]], [] + [q1]);
    q3, r3 := ShortDigit(r2, u[3], t, [] + [u[1]] + [u[2]], [] + [q1] + [q2]);
    q4, r4 := ShortDigit(r3, u[4], t, [] + [u[1]] + [u[2]] + [u[3]], [] + [q1] + [q2] + [q3]);
    ShortResult(u[..], t, q1, q2, q3, q4, r4);
    q := Pack(q1, q2, q3, q4);
    r := r4;
  }

  lemma ShortResult(a: seq<int>, t: int, q1: int, q2: int, q3: int, q4: int, r: int)
    requires |a| == 5 && a[0] == 0
    requires Divided([] + [a[1]] + [a[2]] + [a[3]] + [a[4]], t, [] + [q1] + [q2] + [q3] + [q4], [r])
    ensures t > 0 && Val([q1, q2, q3, q4]) == Val(a) / t && r == Val(a) % t
  {
    assert [] + [a[1]] + [a[2]] + [a[3]] + [a[4]] == a[1..];
    assert [] + [q1] + [q2] + [q3] + [q4] == [q1, q2, q3, q4];
    ZeroPrefix(a, 1);
    ValOne(r);
  }

  lemma {:induction false} PowMono(k: nat, l: nat)
    requires k <= l
    ensures Pow(k) <= Pow(l)
    decreases l
  {
    if k < l {
      PowMono(k, l - 1);
    }
  }

  /** A number of at least `n` digits does not have too many leading zeros. */
  lemma EnoughDigits(a: seq<int>, k: nat, n: nat)
    requires k < |a| && n >= 1 && AllDigits(a) && Val(a) >= Pow(n - 1) && forall i :: 0 <= i <= k ==> a[i] == 0
    ensures k + n < |a|
  {
    ZeroPrefix(a, k + 1);
    ValBound(a[k + 1..]);
    if |a| - k - 1 <= n - 1 {
      PowMono(|a| - k - 1, n - 1);
    }
  }

  /** The digits of an array of five, the first of them zero, as a number. */
  method PackDigits(a: array<int>) returns (x: nat)
    requires a.Length == 5 && AllDigits(a[..]) && a[0] == 0
    ensures x == Val(a[..]) && x < QUAD
  {
    x := Pack(a[1], a[2], a[3], a[4]);
    assert a[..][1..] == [a[1], a[2], a[3], a[4]];
    ZeroPrefix(a[..], 1);
  }

  /** A divisor of `n >= 2` digits. */
  method LongCase(u: array<int>, v: array<int>, vo: nat, n: nat, ghost U: int, ghost V: int) returns (q: nat, r: nat)
    requires u != v && u.Length == 5 && v.Length == 5 && vo + n == 4 && n >= 2 && AllDigits(u[..]) && AllDigits(v[..])
    requires u[0] == 0 && v[vo + 1] > 0 && forall k :: 0 <= k <= vo ==> v[..][k] == 0
    requires U == Val(u[..]) && V == Val(v[..]) && U >= V
    modifies u, v
    ensures V > 0 && q == U / V && r == U % V && q < QUAD
  {
    hide Val;
    ZeroPrefix(v[..], vo + 1);
    ValAtLeast(v[..][vo + 1..]);
    var m, uo := 4 - n, 0;
    ghost var u0 := u[..];
    while u[uo + 1] == 0
      invariant uo + m + n == 4 && m >= 0 && 0 <= uo && u[..] == u0 && v[..] == old(v[..])
      invariant forall k :: 0 <= k <= uo ==> u0[k] == 0
      decreases m
    {
      EnoughDigits(u0, uo + 1, n);
      m := m - 1;
      uo := uo + 1;
    }
    ZeroPrefix(u0, uo);
    var qspace := new int[5](_ => 0);
    Long(u, uo, v, vo, n, m, qspace, 4 - m, U, V);
    r := PackDigits(u);
    q := PackDigits(qspace);
  }

  /** `__qdivrem`: for every dividend and every nonzero divisor, the quotient and the remainder. */
  method QDivRem(ull: nat, vll: nat) returns (q: nat, r: nat)
    requires ull < QUAD && 0 < vll < QUAD
    ensures ull == q * vll + r && r < vll && q < QUAD
  {
    hide Val;
    if ull < vll {
      DivModUnique(ull, vll, 0, ull);
      return 0, ull;
    }
    var uspace := Unpack(ull);
    var vspace := Unpack(vll);
    var n, vo := 4, 0;
    ghost var u0, v0 := uspace[..], vspace[..];
    while vspace[vo + 1] == 0
      invariant vo == 4 - n && 2 <= n <= 4 && uspace[..] == u0 && vspace[..] == v0
      invariant forall k :: 0 <= k <= vo ==> v0[k] == 0
      decreases n
    {
      n := n - 1;
      if n == 1 {
        ZeroPrefix(v0, 4);
        assert v0[4..] == [v0[4]];
        ValOne(v0[4]);
        q, r := Short(uspace, vspace[vo + 2]);
        return;
      }
      vo := vo + 1;
    }
    q, r := LongCase(uspace, vspace, vo, n, ull, vll);
  }
}
