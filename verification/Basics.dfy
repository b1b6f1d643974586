/** Small vocabulary shared by the models: options, searching and deleting in sequences,
    and bitwise "or" on natural numbers. */
module Basics {

  datatype Option<+T> = None | Some(value: T)

  /** The null pointer, where pointers into a table are indices. */
  const NULL: int := -1

  /** The last node of a list, null for the empty list. */
  function LastOf(l: seq<nat>): int {
    if l == [] then NULL else l[|l| - 1]
  }

  ghost predicate Distinct<T>(xs: seq<T>) {
    forall i, j :: 0 <= i < j < |xs| ==> xs[i] != xs[j]
  }

  /** The first of different elements is not among the others. */
  lemma Uncons<T>(xs: seq<T>)
    requires xs != [] && Distinct(xs)
    ensures xs == [xs[0]] + xs[1..] && Distinct(xs[1..]) && xs[0] !in xs[1..]
    ensures forall x :: x in xs <==> x in xs[1..] || x == xs[0]
  {
  }

  lemma FirstIn<T>(xs: seq<T>)
    ensures xs != [] ==> xs[0] in xs
  {
  }

  /** The lowest index that holds `x`, or the length when there is none. */
  function IndexOf<T(==)>(xs: seq<T>, x: T): (i: nat)
    ensures i <= |xs|
    ensures i < |xs| <==> x in xs
    ensures i < |xs| ==> xs[i] == x
    ensures forall j :: 0 <= j < i ==> xs[j] != x
  {
    if xs == [] then 0 else if xs[0] == x then 0 else 1 + IndexOf(xs[1..], x)
  }

  /** `xs` without the element at `k`, order kept. */
  function DeleteAt<T>(xs: seq<T>, k: nat): seq<T>
    requires k < |xs|
  {
    xs[..k] + xs[k + 1..]
  }

  lemma DeleteAtFacts<T>(xs: seq<T>, k: nat)
    requires k < |xs| && Distinct(xs)
    ensures Distinct(DeleteAt(xs, k))
    ensures forall x :: x in DeleteAt(xs, k) <==> x in xs && x != xs[k]
  {
  }

  /** `xs` without the first `x`. */
  function Remove<T(==)>(xs: seq<T>, x: T): seq<T> {
    if x in xs then DeleteAt(xs, IndexOf(xs, x)) else xs
  }

  lemma RemoveCons<T>(a: T, rest: seq<T>, x: T)
    ensures Remove([a] + rest, x) == if a == x then rest else [a] + Remove(rest, x)
  {
    var xs := [a] + rest;
    var k := IndexOf(xs, x);
    if a == x {
      assert xs[0] == x;
    } else if x in rest {
      var j := IndexOf(rest, x);
      assert xs[j + 1] == x;
      assert k == j + 1 by {
        assert k > 0 && rest[k - 1] == x;
      }
    } else {
      assert forall i :: 0 <= i < |xs| ==> xs[i] != x;
    }
  }

  /** `xs` without the elements of `drop`, order kept. */
  function Without<T(==)>(xs: seq<T>, drop: set<T>): seq<T> {
    if xs == [] then []
    else if xs[0] in drop then Without(xs[1..], drop)
    else [xs[0]] + Without(xs[1..], drop)
  }

  lemma {:induction false} WithoutFacts<T>(xs: seq<T>, drop: set<T>)
    requires Distinct(xs)
    ensures Distinct(Without(xs, drop))
    ensures forall x :: x in Without(xs, drop) <==> x in xs && x !in drop
  {
    if xs != [] {
      var a, rest := xs[0], xs[1..];
      assert Distinct(rest) && a !in rest && xs == [a] + rest;
      WithoutFacts(rest, drop);
    }
  }

  lemma {:induction false} WithoutNone<T>(xs: seq<T>)
    ensures Without(xs, {}) == xs
  {
    if xs != [] {
      WithoutNone(xs[1..]);
    }
  }

  /** Dropping one more element removes it from what is left. */
  lemma {:induction false} WithoutStep<T>(xs: seq<T>, drop: set<T>, x: T)
    requires Distinct(xs) && x !in drop
    ensures Without(xs, drop + {x}) == Remove(Without(xs, drop), x)
  {
    if xs != [] {
      var a, rest := xs[0], xs[1..];
      assert Distinct(rest) && a !in rest;
      WithoutStep(rest, drop, x);
      var r := Without(rest, drop);
      if a == x {
        WithoutFacts(rest, drop);
        assert x !in r && Without(xs, drop) == [x] + r;
        RemoveCons(x, r, x);
      } else if a !in drop {
        assert Without(xs, drop) == [a] + r;
        RemoveCons(a, r, x);
      }
    }
  }

  /** Overwriting one element does not matter to a search for anything but the old and the new one. */
  lemma UpdateOther<T>(xs: seq<T>, i: nat, x: T, y: T)
    requires i < |xs| && y != xs[i]
    ensures y in xs[i := x] <==> y == x || y in xs
    ensures y != x ==> IndexOf(xs[i := x], y) == IndexOf(xs, y)
  {
    var xs' := xs[i := x];
    if y in xs {
      var j :| 0 <= j < |xs| && xs[j] == y;
      assert xs'[j] == y;
    }
    assert xs'[i] == x;
    if y != x {
      var a, b := IndexOf(xs, y), IndexOf(xs', y);
      assert a < |xs| ==> xs'[a] == y;
      assert b < |xs| ==> xs[b] == y;
    }
  }

  /** Bitwise "or". */
  function BitOr(a: nat, b: nat): nat
    decreases a + b
  {
    if a == 0 then b else if b == 0 then a
    else (if a % 2 == 1 || b % 2 == 1 then 1 else 0) + 2 * BitOr(a / 2, b / 2)
  }

  function Pow2(k: nat): (p: nat)
    ensures p >= 1
  {
    if k == 0 then 1 else 2 * Pow2(k - 1)
  }
}
