/** Singly linked lists in memory: `next` maps the address of a node to the link stored in it, and the
    null pointer is -1. */
module Chains {
  import opened Basics

  /** Following the links from `head` visits the nodes `l` and then ends. */
  ghost predicate Chain(next: map<int, int>, head: int, l: seq<nat>)
    decreases |l|
  {
    if l == [] then head == NULL
    else head == l[0] && head in next && Chain(next, next[head], l[1..])
  }

  /** Links outside the list do not matter to it. */
  lemma {:induction false} ChainFrame(next: map<int, int>, next': map<int, int>, head: int, l: seq<nat>)
    requires Chain(next, head, l)
    requires forall x :: x in l && x in next ==> x in next' && next'[x] == next[x]
    ensures Chain(next', head, l)
    decreases |l|
  {
    if l != [] {
      ChainFrame(next, next', next[head], l[1..]);
    }
  }

  lemma ChainCons(next: map<int, int>, head: int, l: seq<nat>, x: nat)
    requires Chain(next, head, l) && x !in l
    ensures Chain(next[x := head], x, [x] + l)
  {
    ChainFrame(next, next[x := head], head, l);
    assert ([x] + l)[1..] == l;
  }

  /** The list after the node behind `a` was bypassed by writing one link. */
  function Bypass(next: map<int, int>, a: seq<nat>, link: int): map<int, int> {
    if a == [] then next else next[LastOf(a) := link]
  }

  lemma DistinctTail(h: nat, t: seq<nat>)
    requires Distinct([h] + t)
    ensures Distinct(t) && h !in t
  {
    var l := [h] + t;
    assert forall i :: 0 <= i < |t| ==> l[i + 1] == t[i];
    assert l[0] == h;
  }

  lemma ChainHead(next: map<int, int>, head: int, h: nat, t: seq<nat>)
    ensures Chain(next, head, [h] + t) <==> head == h && head in next && Chain(next, next[head], t)
  {
  }

  /** Redirecting the link that leads to `x` takes `x` out and keeps the rest. */
  lemma {:induction false} ChainRemove(next: map<int, int>, head: int, a: seq<nat>, x: nat, b: seq<nat>)
    requires Chain(next, head, a + ([x] + b)) && Distinct(a + ([x] + b))
    ensures x in next && Chain(Bypass(next, a, next[x]), if a == [] then next[x] else head, a + b)
    decreases |a|
  {
    hide Chain;
    if a == [] {
      assert a + ([x] + b) == [x] + b && a + b == b;
      ChainHead(next, head, x, b);
    } else {
      var h, a' := a[0], a[1..];
      var rest := a' + ([x] + b);
      assert a + ([x] + b) == [h] + rest && a + b == [h] + (a' + b);
      ChainHead(next, head, h, rest);
      DistinctTail(h, rest);
      ChainRemove(next, next[head], a', x, b);
      var next' := Bypass(next, a, next[x]);
      ChainHead(next', head, h, a' + b);
      if a' == [] {
        assert a' + b == b && [x] + b == rest;
        ChainFrame(next, next', next[x], b);
      } else {
        assert LastOf(a) == LastOf(a') && LastOf(a') in rest;
      }
    }
  }

  /** A step of a walk: the current node is the first of what is left. */
  lemma ChainStep(next: map<int, int>, cur: int, rest: seq<nat>)
    requires Chain(next, cur, rest)
    ensures rest == [] <==> cur == NULL
    ensures rest != [] ==> cur == rest[0] && cur in next && Chain(next, next[cur], rest[1..])
  {
  }
}
