/** Numbers as sequences of 16-bit digits, most significant first, and the 32-bit words that the
    64-bit library routines of common/gcc-millicode compute with. */
module Digits {
  import opened Arithmetic
  import opened Basics

  const B: nat := 0x1_0000
  const WORD: nat := 0x1_0000_0000
  const QUAD: nat := 0x1_0000_0000_0000_0000

  function HHALF(x: nat): nat {
    x / B
  }

  function LHALF(x: nat): nat {
    x % B
  }

  /** `x` as an `unsigned int`. */
  function Word(x: int): (w: nat)
    ensures w < WORD
  {
    x % WORD
  }

  /** Two digits side by side: a shift and a bitwise "or". */
  function COMBINE(a: nat, b: nat): nat {
    BitOr(Word(a * B), b)
  }

  predicate AllDigits(a: seq<int>) {
    forall i :: 0 <= i < |a| ==> 0 <= a[i] < B
  }

  function Pow(k: nat): (p: nat)
    ensures p >= 1
  {
    if k == 0 then 1 else B * Pow(k - 1)
  }

  function Val(a: seq<int>): int {
    if a == [] then 0 else Val(a[..|a| - 1]) * B + a[|a| - 1]
  }

  /** Numbers with no bit in common: "or" adds them. */
  lemma {:induction false} BitOrDisjoint(a: nat, b: nat, k: nat)
    requires a % Pow2(k) == 0 && b < Pow2(k)
    ensures BitOr(a, b) == a + b
    decreases k
  {
    if k > 0 && a > 0 && b > 0 {
      var p := Pow2(k - 1);
      var c := a / Pow2(k);
      assert a == 2 * (c * p) by {
        assert a == c * (2 * p);
      }
      assert (a / 2) % p == 0 by {
        assert a / 2 == c * p;
        MulMod(c, p);
      }
      BitOrDisjoint(a / 2, b / 2, k - 1);
    }
  }

  lemma Pow2Half()
    ensures Pow2(16) == B
  {
    assert Pow2(4) == 16 && Pow2(8) == 256 && Pow2(12) == 4096;
  }

  lemma CombineIs(a: nat, b: nat)
    requires a < B && b < B
    ensures COMBINE(a, b) == a * B + b && COMBINE(a, b) < WORD
  {
    Pow2Half();
    BitOrDisjoint(a * B, b, 16);
  }

  lemma ValAppend(a: seq<int>, d: int)
    ensures Val(a + [d]) == Val(a) * B + d
  {
  }

  lemma {:induction false} ValConcat(a: seq<int>, b: seq<int>)
    ensures Val(a + b) == Val(a) * Pow(|b|) + Val(b)
    decreases |b|
  {
    if b == [] {
      assert a + b == a;
    } else {
      var c, d := b[..|b| - 1], b[|b| - 1];
      assert a + b == (a + c) + [d];
      ValAppend(a + c, d);
      ValConcat(a, c);
      assert (Val(a) * Pow(|c|)) * B == Val(a) * (B * Pow(|c|));
    }
  }

  lemma ValCons(x: int, b: seq<int>)
    ensures Val([x] + b) == x * Pow(|b|) + Val(b)
  {
    ValConcat([x], b);
    assert Val([x]) == x by {
      assert [x][..0] == [];
    }
  }

  lemma {:induction false} ValBound(a: seq<int>)
    requires AllDigits(a)
    ensures 0 <= Val(a) < Pow(|a|)
    decreases |a|
  {
    if a != [] {
      ValBound(a[..|a| - 1]);
    }
  }

  lemma {:induction false} ValZeros(a: seq<int>)
    requires forall i :: 0 <= i < |a| ==> a[i] == 0
    ensures Val(a) == 0
    decreases |a|
  {
    if a != [] {
      ValZeros(a[..|a| - 1]);
    }
  }
}
