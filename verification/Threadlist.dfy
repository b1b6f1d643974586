/** The doubly linked thread lists of kern/thread/threadlist.c: list nodes live in the threads, and each list
    has a bookend node at either end. A pointer to a node is its number; the null pointer is -1. */
module Threadlist {
  import opened Basics

  /** `tln_next` and `tln_prev` of every node. */
  datatype Links = Links(next: map<nat, int>, prev: map<nat, int>)

  /** The nodes `l`, bookends included, are linked both ways. */
  ghost predicate Linked(m: Links, l: seq<nat>) {
    |l| >= 2 && Distinct(l) && (forall x :: x in l ==> x in m.next && x in m.prev) &&
    m.prev[l[0]] == NULL && m.next[l[|l| - 1]] == NULL &&
    forall i, j :: 0 <= i < j < |l| && j == i + 1 ==> m.next[l[i]] == l[j] && m.prev[l[j]] == l[i]
  }

  /** Neighbours of a node by position. */
  lemma Neighbours(m: Links, l: seq<nat>, i: nat)
    requires Linked(m, l) && i < |l|
    ensures l[i] in m.next && l[i] in m.prev
    ensures m.next[l[i]] == (if i + 1 < |l| then l[i + 1] else NULL)
    ensures m.prev[l[i]] == (if i > 0 then l[i - 1] else NULL)
  {
  }

  /** A node on no list. */
  ghost predicate Loose(m: Links, t: nat) {
    t in m.next && t in m.prev && m.next[t] == NULL && m.prev[t] == NULL
  }

  /** Links written to put `t` between neighbours `a` and `b`. */
  function Insert(m: Links, a: nat, t: nat, b: nat): Links {
    Links(m.next[t := b][a := t], m.prev[t := a][b := t])
  }

  /** Links written to take out a node between `a` and `b`. */
  function Bypass(m: Links, a: nat, t: nat, b: nat): Links {
    Links(m.next[a := b][t := NULL], m.prev[b := a][t := NULL])
  }

  lemma InsertOk(m: Links, l: seq<nat>, k: nat, t: nat)
    requires Linked(m, l) && 0 < k < |l| && t !in l
    ensures Linked(Insert(m, l[k - 1], t, l[k]), l[..k] + [t] + l[k..])
  {
    var m', l' := Insert(m, l[k - 1], t, l[k]), l[..k] + [t] + l[k..];
    forall i, j | 0 <= i < j < |l'| && j == i + 1
      ensures m'.next[l'[i]] == l'[j] && m'.prev[l'[j]] == l'[i]
    {
      if j < k {
        Neighbours(m, l, i);
        Neighbours(m, l, j);
      } else if i > k {
        Neighbours(m, l, i - 1);
        Neighbours(m, l, j - 1);
      }
    }
  }

  /** The four writes of `threadlist_removenode`. */
  function Unlink(m: Links, t: nat): Links
    requires t in m.next && t in m.prev && m.prev[t] >= 0 && m.next[t] >= 0
  {
    var m1 := m.(next := m.next[m.prev[t] := m.next[t]]);
    var m2 := m1.(prev := m1.prev[m1.next[t] := m1.prev[t]]);
    Links(m2.next[t := NULL], m2.prev[t := NULL])
  }

  lemma UnlinkIs(m: Links, t: nat)
    requires t in m.next && t in m.prev && m.prev[t] >= 0 && m.next[t] >= 0 && m.prev[t] != t && m.next[t] != t
    ensures Unlink(m, t) == Bypass(m, m.prev[t], t, m.next[t])
  {
  }

  lemma BypassOk(m: Links, l: seq<nat>, k: nat)
    requires Linked(m, l) && 0 < k < |l| - 1
    ensures var m' := Bypass(m, l[k - 1], l[k], l[k + 1]);
      Linked(m', DeleteAt(l, k)) && Loose(m', l[k])
  {
    var m', l' := Bypass(m, l[k - 1], l[k], l[k + 1]), DeleteAt(l, k);
    DeleteAtFacts(l, k);
    assert m'.prev[l'[0]] == NULL && m'.next[l'[|l'| - 1]] == NULL;
    forall i, j | 0 <= i < j < |l'| && j == i + 1
      ensures m'.next[l'[i]] == l'[j] && m'.prev[l'[j]] == l'[i]
    {
      if j < k {
        Neighbours(m, l, i);
        Neighbours(m, l, j);
      } else if i >= k {
        Neighbours(m, l, i + 1);
        Neighbours(m, l, j + 1);
      }
    }
  }

  /** Nodes outside `l` keep their links. */
  ghost predicate SameElsewhere(m: Links, m': Links, l: seq<nat>) {
    (forall x :: x !in l && x in m.next ==> x in m'.next && m'.next[x] == m.next[x]) &&
    (forall x :: x !in l && x in m.prev ==> x in m'.prev && m'.prev[x] == m.prev[x])
  }

  lemma InsertElsewhere(m: Links, l: seq<nat>, k: nat, t: nat)
    requires 0 < k < |l|
    ensures SameElsewhere(m, Insert(m, l[k - 1], t, l[k]), [t] + l)
  {
  }

  lemma BypassElsewhere(m: Links, l: seq<nat>, k: nat)
    requires 0 < k < |l| - 1
    ensures SameElsewhere(m, Bypass(m, l[k - 1], l[k], l[k + 1]), l)
  {
  }

  /** What the four writes do to a list that has the node between its bookends. */
  lemma UnlinkOk(m: Links, l: seq<nat>, k: nat, t: nat)
    requires Linked(m, l) && 0 < k < |l| - 1 && l[k] == t
    ensures t in m.next && t in m.prev && m.prev[t] >= 0 && m.next[t] >= 0
    ensures Linked(Unlink(m, t), DeleteAt(l, k)) && Loose(Unlink(m, t), t) && SameElsewhere(m, Unlink(m, t), l)
  {
    assert l[k - 1] != l[k] && l[k + 1] != l[k];
    hide DeleteAt, Loose, SameElsewhere, Unlink, Bypass;
    Neighbours(m, l, k);
    UnlinkIs(m, t);
    BypassOk(m, l, k);
    BypassElsewhere(m, l, k);
  }

  /** So a list none of whose nodes is in `l` is as it was. */
  lemma OtherList(m: Links, m': Links, l: seq<nat>, k: seq<nat>)
    requires Linked(m, k) && SameElsewhere(m, m', l) && forall x :: x in k ==> x !in l
    ensures Linked(m', k)
  {
  }

  /** All list nodes of the kernel. */
  class Nodes {
    var m: Links
  }

  class List {
    const nodes: Nodes
    const head: nat
    const tail: nat
    var count: nat
    ghost var items: seq<nat>

    ghost function All(): seq<nat>
      reads this
    {
      [head] + items + [tail]
    }

    ghost predicate Valid()
      reads this, nodes
    {
      Linked(nodes.m, All()) && count == |items|
    }

    /** `threadlist_init` */
    constructor (nodes: Nodes, head: nat, tail: nat)
      requires head != tail
      modifies nodes
      ensures Valid() && items == [] && this.nodes == nodes && this.head == head && this.tail == tail
      ensures SameElsewhere(old(nodes.m), nodes.m, [head, tail])
    {
      this.nodes, this.head, this.tail, count, items := nodes, head, tail, 0, [];
      new;
      nodes.m := Links(nodes.m.next[head := tail][tail := NULL], nodes.m.prev[head := NULL][tail := head]);
      assert All() == [head, tail];
    }

    /** Insert `t` as item `k`, between its neighbours to be. */
    ghost method Inserted(before: Links, k: nat, t: nat)
      requires Linked(before, All()) && k <= |items| && t !in All()
      requires nodes.m == Insert(before, All()[k], t, All()[k + 1]) && count == |items| + 1
      modifies this`items
      ensures items == old(items)[..k] + [t] + old(items)[k..] && Valid()
      ensures SameElsewhere(before, nodes.m, [t] + old(All()))
    {
      hide Linked;
      var l, was := All(), items;
      InsertOk(before, l, k + 1, t);
      InsertElsewhere(before, l, k + 1, t);
      items := was[..k] + [t] + was[k..];
      assert [head] + items + [tail] == ([head] + was + [tail])[..k + 1] + [t] + ([head] + was + [tail])[k + 1..];
    }

    /** `threadlist_addhead` */
    method AddHead(t: nat)
      requires Valid() && t !in All() && Loose(nodes.m, t)
      modifies this, nodes
      ensures Valid() && items == [t] + old(items) && SameElsewhere(old(nodes.m), nodes.m, [t] + old(All()))
    {
      InsertAfter(head, t, 0);
    }

    /** `threadlist_addtail` */
    method AddTail(t: nat)
      requires Valid() && t !in All() && Loose(nodes.m, t)
      modifies this, nodes
      ensures Valid() && items == old(items) + [t] && SameElsewhere(old(nodes.m), nodes.m, [t] + old(All()))
    {
      InsertBefore(t, tail, |items|);
    }

    /** `threadlist_insertafternode` with the count: `onlist` is the node before item `k`. */
    method InsertAfter(onlist: nat, t: nat, ghost k: nat)
      requires Valid() && t !in All() && Loose(nodes.m, t) && k <= |items| && All()[k] == onlist
      modifies this, nodes
      ensures Valid() && items == old(items)[..k] + [t] + old(items)[k..]
      ensures SameElsewhere(old(nodes.m), nodes.m, [t] + old(All()))
    {
      ghost var m0, l := nodes.m, All();
      Neighbours(m0, l, k);
      assert l[k + 1] in l && l[k] in l;
      var m := nodes.m;
      var next := m.next[onlist];
      m := Links(m.next[t := next], m.prev[t := onlist]);
      m := m.(next := m.next[m.prev[t] := t]);
      m := m.(prev := m.prev[m.next[t] := t]);
      nodes.m := m;
      count := count + 1;
      Inserted(m0, k, t);
    }

    /** `threadlist_insertbeforenode` with the count: `onlist` is item `k` or the tail, which the new item goes in front
        of. */
    method InsertBefore(t: nat, onlist: nat, ghost k: nat)
      requires Valid() && t !in All() && Loose(nodes.m, t) && k <= |items| && All()[k + 1] == onlist
      modifies this, nodes
      ensures Valid() && items == old(items)[..k] + [t] + old(items)[k..]
      ensures SameElsewhere(old(nodes.m), nodes.m, [t] + old(All()))
    {
      ghost var m0, l := nodes.m, All();
      Neighbours(m0, l, k + 1);
      assert l[k + 1] in l && l[k] in l;
      var m := nodes.m;
      var prev := m.prev[onlist];
      m := Links(m.next[t := onlist], m.prev[t := prev]);
      m := m.(next := m.next[m.prev[t] := t]);
      m := m.(prev := m.prev[m.next[t] := t]);
      nodes.m := m;
      count := count + 1;
      Inserted(m0, k, t);
    }

    /** `threadlist_removenode` with the count: take out item `k`. */
    method RemoveNode(t: nat, ghost k: nat)
      requires Valid() && k < |items| && items[k] == t
      modifies this, nodes
      ensures Valid() && items == DeleteAt(old(items), k) && Loose(nodes.m, t)
      ensures SameElsewhere(old(nodes.m), nodes.m, old(All()))
    {
      hide Linked, Loose, SameElsewhere, Unlink;
      ghost var l := All();
      UnlinkOk(nodes.m, l, k + 1, t);
      nodes.m := Unlink(nodes.m, t);
      count := count - 1;
      items := DeleteAt(items, k);
      assert All() == DeleteAt(l, k + 1);
    }

    /** `threadlist_remhead`: the first item, or null when the list is empty. */
    method RemHead() returns (r: int)
      requires Valid()
      modifies this, nodes
      ensures Valid() && SameElsewhere(old(nodes.m), nodes.m, old(All()))
      ensures old(items) == [] ==> r == NULL && items == []
      ensures old(items) != [] ==> r == old(items)[0] && items == old(items)[1..] && Loose(nodes.m, r)
    {
      ghost var l := All();
      Neighbours(nodes.m, l, 0);
      Neighbours(nodes.m, l, 1);
      var tln := nodes.m.next[head];
      if nodes.m.next[tln] == NULL {
        return NULL;
      }
      RemoveNode(tln, 0);
      r := tln;
    }

    /** `threadlist_remtail`: the last item, or null when the list is empty. */
    method RemTail() returns (r: int)
      requires Valid()
      modifies this, nodes
      ensures Valid() && SameElsewhere(old(nodes.m), nodes.m, old(All()))
      ensures old(items) == [] ==> r == NULL && items == []
      ensures old(items) != [] ==>
        r == old(items)[|old(items)| - 1] && items == old(items)[..|old(items)| - 1] && Loose(nodes.m, r)
    {
      ghost var l := All();
      Neighbours(nodes.m, l, |l| - 1);
      Neighbours(nodes.m, l, |l| - 2);
      var tln := nodes.m.prev[tail];
      if nodes.m.prev[tln] == NULL {
        return NULL;
      }
      RemoveNode(tln, |items| - 1);
      r := tln;
    }
  }
}
