/** The deadlock detector of kern/thread/hangman.c. Actors and lockables are numbers; an actor that waits
    for nothing is not in `waiting`, a lockable that nobody holds is not in `holding`. */
module Hangman {
  import opened Basics

  datatype Graph = Graph(waiting: map<nat, nat>, holding: map<nat, nat>)

  /** The actor that `a` waits for, through the lockable it wants. */
  function Blocker(g: Graph, a: nat): Option<nat> {
    if a in g.waiting && g.waiting[a] in g.holding then Some(g.holding[g.waiting[a]]) else None
  }

  /** `k` steps through the waits-for graph. */
  function Walk(g: Graph, a: nat, k: nat): Option<nat>
    decreases k
  {
    if k == 0 then Some(a)
    else match Blocker(g, a)
      case None => None
      case Some(b) => Walk(g, b, k - 1)
  }

  ghost predicate Acyclic(g: Graph) {
    forall a: nat, k: nat :: k > 0 ==> Walk(g, a, k) != Some(a)
  }

  /** The holder of `l` waits, directly or not, for `a`. */
  ghost predicate WaitsFor(g: Graph, l: nat, a: nat) {
    l in g.holding && exists k: nat :: Walk(g, g.holding[l], k) == Some(a)
  }

  lemma {:induction false} WalkAdd(g: Graph, a: nat, i: nat, j: nat)
    requires Walk(g, a, i).Some?
    ensures Walk(g, a, i + j) == Walk(g, Walk(g, a, i).value, j)
    decreases i
  {
    if i > 0 {
      WalkAdd(g, Blocker(g, a).value, i - 1, j);
    }
  }

  /** A walk that has a next step is not over before it. */
  lemma WalkBefore(g: Graph, a: nat, i: nat, k: nat)
    requires i <= k && Walk(g, a, k).Some?
    ensures Walk(g, a, i).Some?
    decreases k
  {
    if i > 0 {
      WalkBefore(g, Blocker(g, a).value, i - 1, k - 1);
    }
  }

  /** A walk that never leaves from `x` is the same in a graph that differs in `x` only. */
  lemma {:induction false} SameWalk(g: Graph, g': Graph, x: nat, a: nat, k: nat)
    requires forall b :: b != x ==> Blocker(g', b) == Blocker(g, b)
    requires forall i :: 0 <= i < k ==> Walk(g, a, i) != Some(x)
    ensures Walk(g', a, k) == Walk(g, a, k)
    decreases k
  {
    if k > 0 {
      assert Walk(g, a, 0) == Some(a);
      if Blocker(g, a).Some? {
        var b := Blocker(g, a).value;
        forall i | 0 <= i < k - 1
          ensures Walk(g, b, i) != Some(x)
        {
          assert Walk(g, a, i + 1) == Walk(g, b, i);
        }
        SameWalk(g, g', x, b, k - 1);
      }
    }
  }

  /** The first time a walk meets `x`. */
  lemma FirstVisit(g: Graph, a: nat, k: nat, x: nat) returns (m: nat)
    requires Walk(g, a, k) == Some(x)
    ensures m <= k && Walk(g, a, m) == Some(x) && forall i :: 0 <= i < m ==> Walk(g, a, i) != Some(x)
  {
    m := 0;
    while Walk(g, a, m) != Some(x)
      invariant m <= k && forall i :: 0 <= i < m ==> Walk(g, a, i) != Some(x)
      decreases k - m
    {
      m := m + 1;
    }
  }

  function Wait(g: Graph, a: nat, l: nat): Graph {
    g.(waiting := g.waiting[a := l])
  }

  function Acquire(g: Graph, a: nat, l: nat): Graph {
    Graph(g.waiting - {a}, g.holding[l := a])
  }

  function Release(g: Graph, l: nat): Graph {
    g.(holding := g.holding - {l})
  }

  /** A cycle in the graph with the new edge passes through the actor that begins to wait. */
  lemma NewCycle(g: Graph, a: nat, l: nat, x: nat, k: nat)
    requires Acyclic(g) && a !in g.waiting && k > 0 && Walk(Wait(g, a, l), x, k) == Some(x)
    ensures exists j :: 0 <= j < k && Walk(Wait(g, a, l), x, j) == Some(a)
  {
    var g' := Wait(g, a, l);
    if forall j :: 0 <= j < k ==> Walk(g', x, j) != Some(a) {
      SameWalk(g', g, a, x, k);
    }
  }

  /** So the holder of what it wants already waited for it. */
  lemma CycleMeansWaiting(g: Graph, a: nat, l: nat, x: nat, k: nat)
    requires Acyclic(g) && a !in g.waiting && k > 0 && Walk(Wait(g, a, l), x, k) == Some(x)
    ensures WaitsFor(g, l, a)
  {
    var g' := Wait(g, a, l);
    NewCycle(g, a, l, x, k);
    var j :| 0 <= j < k && Walk(g', x, j) == Some(a);
    WalkAdd(g', x, j, k - j);
    WalkAdd(g', a, k - j, j);
    assert Walk(g', a, k) == Some(a);
    var h := g.holding[l];
    assert Walk(g', h, k - 1) == Some(a);
    var m := FirstVisit(g', h, k - 1, a);
    SameWalk(g', g, a, h, m);
  }

  /** The check is exact: the wait closes a cycle if and only if the holder already waits for the actor. */
  lemma WaitExact(g: Graph, a: nat, l: nat)
    requires Acyclic(g) && a !in g.waiting
    ensures Acyclic(Wait(g, a, l)) <==> !WaitsFor(g, l, a)
  {
    var g' := Wait(g, a, l);
    if WaitsFor(g, l, a) {
      var h := g.holding[l];
      var k :| Walk(g, h, k) == Some(a);
      var m := FirstVisit(g, h, k, a);
      SameWalk(g, g', a, h, m);
      assert Walk(g', a, m + 1) == Some(a);
    } else {
      forall x: nat, k: nat | k > 0
        ensures Walk(g', x, k) != Some(x)
      {
        if Walk(g', x, k) == Some(x) {
          CycleMeansWaiting(g, a, l, x, k);
        }
      }
    }
  }

  /** Getting what one waited for: the new edges lead to an actor that waits for nothing. */
  lemma AcquireAcyclic(g: Graph, a: nat, l: nat)
    requires Acyclic(g) && l !in g.holding
    ensures Acyclic(Acquire(g, a, l))
  {
    var g' := Acquire(g, a, l);
    forall x: nat, k: nat | k > 0 && Walk(g', x, k) == Some(x)
      ensures false
    {
      AcquireWalk(g, a, l, x, k);
    }
  }

  /** A walk that goes on meets the new holder only at its end. */
  lemma {:induction false} AcquireWalk(g: Graph, a: nat, l: nat, x: nat, k: nat)
    requires l !in g.holding && Walk(Acquire(g, a, l), x, k).Some?
    ensures Walk(Acquire(g, a, l), x, k) == Some(a) || Walk(g, x, k) == Walk(Acquire(g, a, l), x, k)
    decreases k
  {
    var g' := Acquire(g, a, l);
    if k > 0 {
      var b := Blocker(g', x).value;
      AcquireWalk(g, a, l, b, k - 1);
    }
  }

  lemma {:induction false} ReleaseWalk(g: Graph, l: nat, x: nat, k: nat)
    requires Walk(Release(g, l), x, k).Some?
    ensures Walk(g, x, k) == Walk(Release(g, l), x, k)
    decreases k
  {
    if k > 0 {
      ReleaseWalk(g, l, Blocker(Release(g, l), x).value, k - 1);
    }
  }

  lemma ReleaseAcyclic(g: Graph, l: nat)
    requires Acyclic(g)
    ensures Acyclic(Release(g, l))
  {
    forall x: nat, k: nat | k > 0 && Walk(Release(g, l), x, k) == Some(x)
      ensures false
    {
      ReleaseWalk(g, l, x, k);
    }
  }

  // ---------------------------------------------------------------------------------------
  // Every run
  // ---------------------------------------------------------------------------------------

  datatype Event = WaitFor(a: nat, l: nat) | Got(a: nat, l: nat) | LetGo(a: nat, l: nat)

  /** The event does not panic. The detector's own lock is ignored. */
  ghost predicate Passes(g: Graph, self: nat, e: Event) {
    e.l == self ||
    match e
    case WaitFor(a, l) => a !in g.waiting && !WaitsFor(g, l, a)
    case Got(a, l) => a in g.waiting && g.waiting[a] == l && l !in g.holding
    case LetGo(a, l) => a !in g.waiting && l in g.holding && g.holding[l] == a
  }

  function Step(g: Graph, self: nat, e: Event): Graph {
    if e.l == self then g
    else match e
      case WaitFor(a, l) => Wait(g, a, l)
      case Got(a, l) => Acquire(g, a, l)
      case LetGo(a, l) => Release(g, l)
  }

  ghost predicate Run(g: Graph, self: nat, events: seq<Event>, g': Graph)
    decreases |events|
  {
    if events == [] then g' == g
    else Passes(g, self, events[0]) && Run(Step(g, self, events[0]), self, events[1..], g')
  }

  lemma StepAcyclic(g: Graph, self: nat, e: Event)
    requires Acyclic(g) && Passes(g, self, e)
    ensures Acyclic(Step(g, self, e))
  {
    if e.l != self {
      match e
      case WaitFor(a, l) => WaitExact(g, a, l);
      case Got(a, l) => AcquireAcyclic(g, a, l);
      case LetGo(a, l) => ReleaseAcyclic(g, l);
    }
  }

  /** Over every run without a panic the waits-for graph has no cycle. */
  lemma {:induction false} RunAcyclic(g: Graph, self: nat, events: seq<Event>, g': Graph)
    requires Acyclic(g) && Run(g, self, events, g')
    ensures Acyclic(g')
    decreases |events|
  {
    if events != [] {
      StepAcyclic(g, self, events[0]);
      RunAcyclic(Step(g, self, events[0]), self, events[1..], g');
    }
  }

  /** Who does not wait and gets a free lock uncontended can let it go, and leaves no trace in the graph. */
  lemma TakeAndLeave(g: Graph, self: nat, a: nat, l: nat)
    requires l != self && a !in g.waiting && l !in g.holding
    ensures Run(g, self, [WaitFor(a, l), Got(a, l), LetGo(a, l)], g)
    ensures Run(g, self, [WaitFor(a, l), Got(a, l)], g.(holding := g.holding[l := a]))
  {
    var g1 := Wait(g, a, l);
    var g2 := Acquire(g1, a, l);
    assert g2.waiting == g.waiting && Release(g2, l).holding == g.holding;
    assert Release(g2, l) == g;
    var rest := [Got(a, l), LetGo(a, l)];
    assert [WaitFor(a, l), Got(a, l), LetGo(a, l)][1..] == rest && rest[1..] == [LetGo(a, l)];
    assert Run(g2, self, [LetGo(a, l)], g);
    assert Run(g1, self, rest, g);
    assert [WaitFor(a, l), Got(a, l)][1..] == [Got(a, l)];
  }

  lemma StartAcyclic()
    ensures Acyclic(Graph(map[], map[]))
  {
  }

  // ---------------------------------------------------------------------------------------
  // The code
  // ---------------------------------------------------------------------------------------

  /** A walk in a graph without cycles does not come back. */
  lemma NoReturn(g: Graph, a: nat, i: nat, k: nat)
    requires Acyclic(g) && i < k && Walk(g, a, i).Some? && Walk(g, a, k).Some?
    ensures Walk(g, a, i) != Walk(g, a, k)
  {
    WalkAdd(g, a, i, k - i);
  }

  /** `hangman_check`: follows holders and what they wait for. It ends because the graph has no cycle. */
  method Check(g: Graph, start: nat, target: nat) returns (found: bool)
    requires Acyclic(g)
    ensures found <==> WaitsFor(g, start, target)
  {
    if start !in g.holding {
      return false;
    }
    ghost var h, n := g.holding[start], 0;
    ghost var left := g.holding.Values;
    var cur := g.holding[start];
    while true
      invariant Walk(g, h, n) == Some(cur) && cur in left && left <= g.holding.Values
      invariant forall i :: 0 <= i < n ==> Walk(g, h, i).Some? && Walk(g, h, i) != Some(target)
      invariant forall x :: x in g.holding.Values && x !in left ==> exists i :: 0 <= i < n && Walk(g, h, i) == Some(x)
      decreases left
    {
      if cur == target {
        return true;
      }
      WalkAdd(g, h, n, 1);
      if cur !in g.waiting || g.waiting[cur] !in g.holding {
        forall k: nat
          ensures Walk(g, h, k) != Some(target)
        {
          if k > n && Walk(g, h, k).Some? {
            WalkBefore(g, h, n + 1, k);
          }
        }
        return false;
      }
      ghost var next := g.holding[g.waiting[cur]];
      forall i | 0 <= i <= n
        ensures Walk(g, h, i) != Some(next)
      {
        NoReturn(g, h, i, n + 1);
      }
      left := left - {cur};
      cur := g.holding[g.waiting[cur]];
      n := n + 1;
    }
  }

  /** The detector; `self` is the lockable of its own spinlock. A panic is a result. */
  class Detector {
    const self: nat
    var waiting: map<nat, nat>
    var holding: map<nat, nat>

    function G(): Graph
      reads this
    {
      Graph(waiting, holding)
    }

    constructor (self: nat)
      ensures this.self == self && G() == Graph(map[], map[]) && Acyclic(G())
    {
      this.self, waiting, holding := self, map[], map[];
      new;
      StartAcyclic();
    }

    /** `hangman_wait` */
    method HangmanWait(a: nat, l: nat) returns (panicked: bool)
      requires Acyclic(G())
      modifies this`waiting
      ensures panicked <==> !Passes(old(G()), self, WaitFor(a, l))
      ensures G() == if panicked then old(G()) else Step(old(G()), self, WaitFor(a, l))
      ensures Acyclic(G())
      ensures l != self && a !in old(waiting) ==> (panicked <==> !Acyclic(Wait(old(G()), a, l)))
    {
      if l == self {
        return false;
      }
      if a in waiting {
        return true;
      }
      WaitExact(G(), a, l);
      panicked := Check(G(), l, a);
      if !panicked {
        waiting := waiting[a := l];
      }
    }

    /** `hangman_acquire` */
    method HangmanAcquire(a: nat, l: nat) returns (panicked: bool)
      requires Acyclic(G())
      modifies this
      ensures panicked <==> !Passes(old(G()), self, Got(a, l))
      ensures G() == if panicked then old(G()) else Step(old(G()), self, Got(a, l))
      ensures Acyclic(G())
    {
      if l == self {
        return false;
      }
      if a !in waiting || waiting[a] != l || l in holding {
        return true;
      }
      AcquireAcyclic(G(), a, l);
      holding := holding[l := a];
      waiting := waiting - {a};
      panicked := false;
    }

    /** `hangman_release` */
    method HangmanRelease(a: nat, l: nat) returns (panicked: bool)
      requires Acyclic(G())
      modifies this`holding
      ensures panicked <==> !Passes(old(G()), self, LetGo(a, l))
      ensures G() == if panicked then old(G()) else Step(old(G()), self, LetGo(a, l))
      ensures Acyclic(G())
    {
      if l == self {
        return false;
      }
      if a in waiting || l !in holding || holding[l] != a {
        return true;
      }
      ReleaseAcyclic(G(), l);
      holding := holding - {l};
      panicked := false;
    }
  }
}
