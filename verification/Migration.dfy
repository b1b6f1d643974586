/** Run-queue migration, kern/thread/thread.c. Run queues are sequences of threads, head first; between its
    locked sections other CPUs run, which is the parameter `env`. */
module Migration {
  import opened Basics

  /** The run queues by CPU, and `t_cpu` of every thread. */
  datatype Cpus = Cpus(queues: seq<seq<nat>>, cpu: map<nat, nat>)

  /** A moment of a migration: the queues and the threads taken off our queue so far. */
  datatype Snapshot = Snapshot(s: Cpus, victims: seq<nat>)

  ghost predicate QueueOk(s: Cpus, c: nat)
    requires c < |s.queues|
  {
    Distinct(s.queues[c]) && forall t :: t in s.queues[c] ==> t in s.cpu && s.cpu[t] == c
  }

  /** Every thread is in one place, and `t_cpu` of a queued thread names its queue. */
  ghost predicate Ok(me: nat, a: Snapshot) {
    me < |a.s.queues| && (forall c :: 0 <= c < |a.s.queues| ==> QueueOk(a.s, c)) && Distinct(a.victims) &&
    (forall t :: t in a.victims ==> t in a.s.cpu && a.s.cpu[t] == me && t !in a.s.queues[me])
  }

  /** All threads queued or in our hands. */
  ghost predicate Present(a: Snapshot, t: nat) {
    t in a.victims || exists c :: 0 <= c < |a.s.queues| && t in a.s.queues[c]
  }

  /** What other CPUs may do between our locked sections: anything to their queues, and append to ours. They
      do not touch the threads in our hands. */
  ghost predicate Others(me: nat, a: Snapshot, b: Snapshot) {
    Ok(me, b) && b.victims == a.victims && |b.s.queues| == |a.s.queues| && me < |a.s.queues| &&
    a.s.queues[me] <= b.s.queues[me]
  }

  /** What a locked section of ours may do: no thread is lost or made, no destination grows beyond its share,
      and the current thread stays on this CPU. */
  ghost predicate Ours(me: nat, cur: nat, share: nat, a: Snapshot, b: Snapshot) {
    Ok(me, b) && |b.s.queues| == |a.s.queues| && (forall t :: Present(a, t) <==> Present(b, t)) &&
    (forall c :: 0 <= c < |a.s.queues| && c != me ==> a.s.queues[c] <= b.s.queues[c]) &&
    (forall c :: 0 <= c < |a.s.queues| && c != me && |b.s.queues[c]| > |a.s.queues[c]| ==> |b.s.queues[c]| <= share) &&
    (forall c :: 0 <= c < |a.s.queues| && c != me && cur in b.s.queues[c] ==> cur in a.s.queues[c])
  }

  lemma OthersChain(me: nat, a: Snapshot, b: Snapshot, c: Snapshot)
    requires Others(me, a, b) && Others(me, b, c)
    ensures Others(me, a, c)
  {
  }

  lemma OursChain(me: nat, cur: nat, share: nat, a: Snapshot, b: Snapshot, c: Snapshot)
    requires Ours(me, cur, share, a, b) && Ours(me, cur, share, b, c)
    ensures Ours(me, cur, share, a, c)
  {
  }

  lemma OursNone(me: nat, cur: nat, share: nat, a: Snapshot)
    requires Ok(me, a)
    ensures Ours(me, cur, share, a, a)
  {
  }

  // ---------------------------------------------------------------------------------------
  // The four moves
  // ---------------------------------------------------------------------------------------

  /** Our last thread becomes the first victim. */
  function Take(me: nat, a: Snapshot): Snapshot
    requires me < |a.s.queues| && a.s.queues[me] != []
  {
    var q := a.s.queues[me];
    Snapshot(a.s.(queues := a.s.queues[me := q[..|q| - 1]]), [q[|q| - 1]] + a.victims)
  }

  /** The first victim goes to CPU `c`. */
  function Send(c: nat, a: Snapshot): Snapshot
    requires c < |a.s.queues| && a.victims != []
  {
    var t := a.victims[0];
    Snapshot(Cpus(a.s.queues[c := a.s.queues[c] + [t]], a.s.cpu[t := c]), a.victims[1..])
  }

  /** The first victim becomes the last. */
  function Skip(a: Snapshot): Snapshot
    requires a.victims != []
  {
    a.(victims := a.victims[1..] + [a.victims[0]])
  }

  lemma Tail(q: seq<nat>)
    requires q != [] && Distinct(q)
    ensures q == q[..|q| - 1] + [q[|q| - 1]] && Distinct(q[..|q| - 1]) && q[|q| - 1] !in q[..|q| - 1]
    ensures forall t :: t in q <==> t in q[..|q| - 1] || t == q[|q| - 1]
  {
  }

  lemma TakeOk(me: nat, cur: nat, share: nat, a: Snapshot)
    requires Ok(me, a) && a.s.queues[me] != []
    ensures Ours(me, cur, share, a, Take(me, a))
  {
    var q, b := a.s.queues[me], Take(me, a);
    assert QueueOk(a.s, me);
    Tail(q);
    hide Distinct;
    DistinctCons(q[|q| - 1], a.victims);
    assert Ok(me, b) by {
      forall c | 0 <= c < |b.s.queues|
        ensures QueueOk(b.s, c)
      {
        assert QueueOk(a.s, c);
      }
    }
    forall t
      ensures Present(a, t) <==> Present(b, t)
    {
      if Present(a, t) && t !in a.victims {
        var c :| 0 <= c < |a.s.queues| && t in a.s.queues[c];
        assert c != me ==> t in b.s.queues[c];
        assert c == me ==> t in b.s.queues[me] || t in b.victims;
      }
      if Present(b, t) && t !in b.victims {
        var c :| 0 <= c < |b.s.queues| && t in b.s.queues[c];
        assert t in a.s.queues[c];
      }
    }
  }

  lemma DistinctCons(x: nat, l: seq<nat>)
    requires Distinct(l) && x !in l
    ensures Distinct([x] + l) && Distinct(l + [x])
  {
  }

  lemma SendOk(me: nat, cur: nat, share: nat, c: nat, a: Snapshot)
    requires Ok(me, a) && c < |a.s.queues| && a.victims != []
    requires c != me ==> |a.s.queues[c]| < share && a.victims[0] != cur
    ensures Ours(me, cur, share, a, Send(c, a))
  {
    var t0, b := a.victims[0], Send(c, a);
    assert QueueOk(a.s, c) && t0 in a.victims;
    Uncons(a.victims);
    hide Distinct;
    DistinctCons(t0, a.s.queues[c]);
    assert Ok(me, b) by {
      forall d | 0 <= d < |b.s.queues|
        ensures QueueOk(b.s, d)
      {
        assert QueueOk(a.s, d);
      }
    }
    forall t
      ensures Present(a, t) <==> Present(b, t)
    {
      assert t0 in b.s.queues[c];
      if Present(a, t) && t !in a.victims {
        var d :| 0 <= d < |a.s.queues| && t in a.s.queues[d];
        assert t in b.s.queues[d];
      }
      if Present(b, t) && t !in b.victims {
        var d :| 0 <= d < |b.s.queues| && t in b.s.queues[d];
        assert t in a.s.queues[d] || t == t0;
      }
    }
  }

  lemma SkipOk(me: nat, cur: nat, share: nat, a: Snapshot)
    requires Ok(me, a) && a.victims != []
    ensures Ours(me, cur, share, a, Skip(a))
  {
  }

  // ---------------------------------------------------------------------------------------
  // The code
  // ---------------------------------------------------------------------------------------

  /** An environment that keeps to what other CPUs may do. */
  ghost predicate EnvOk(me: nat, env: (nat, Snapshot) -> Cpus) {
    forall n: nat, a: Snapshot :: Ok(me, a) ==> Others(me, a, Snapshot(env(n, a), a.victims))
  }

  /** A run: every step is one of the other CPUs or one of our locked sections. */
  ghost predicate Trace(me: nat, cur: nat, share: nat, tr: seq<Snapshot>) {
    tr != [] &&
    forall i, j :: 0 <= i < j < |tr| && j == i + 1 ==>
      Others(me, tr[i], tr[j]) || Ours(me, cur, share, tr[i], tr[j])
  }

  lemma TraceStep(me: nat, cur: nat, share: nat, tr: seq<Snapshot>, b: Snapshot)
    requires Trace(me, cur, share, tr) && (Others(me, tr[|tr| - 1], b) || Ours(me, cur, share, tr[|tr| - 1], b))
    ensures Trace(me, cur, share, tr + [b])
  {
  }

  /** On this CPU: on its run queue or in its hands. */
  ghost predicate Here(me: nat, a: Snapshot, t: nat) {
    me < |a.s.queues| && (t in a.s.queues[me] || t in a.victims)
  }

  lemma StaysHere(me: nat, cur: nat, share: nat, a: Snapshot, b: Snapshot)
    requires Ok(me, a) && (Others(me, a, b) || Ours(me, cur, share, a, b)) && Here(me, a, cur)
    ensures Ok(me, b) && Here(me, b, cur)
  {
    if !Others(me, a, b) {
      assert Present(a, cur) && Present(b, cur);
      if cur !in b.victims {
        var c :| 0 <= c < |b.s.queues| && cur in b.s.queues[c];
        assert QueueOk(a.s, c) && QueueOk(a.s, me);
      }
    }
  }

  /** However the other CPUs behave, a current thread found on our run queue is there again at the end. */
  lemma {:induction false} CurrentStays(me: nat, cur: nat, share: nat, tr: seq<Snapshot>, k: nat)
    requires Trace(me, cur, share, tr) && Ok(me, tr[0]) && Here(me, tr[0], cur) && k < |tr|
    ensures Ok(me, tr[k]) && Here(me, tr[k], cur)
  {
    if k > 0 {
      CurrentStays(me, cur, share, tr, k - 1);
      StaysHere(me, cur, share, tr[k - 1], tr[k]);
    }
  }

  function DivRoundUp(a: nat, b: nat): nat
    requires b > 0
  {
    (a + b - 1) / b
  }

  /** How many victims are left to send: all of them, or all but the current thread, which was put last. */
  ghost predicate Pending(victims: seq<nat>, to_send: nat, cur: nat) {
    |victims| == to_send || (|victims| == to_send + 1 && victims[|victims| - 1] == cur)
  }

  class Scheduler {
    var queues: seq<seq<nat>>
    var cpu: map<nat, nat>

    function St(): Cpus
      reads this
    {
      Cpus(queues, cpu)
    }

    /** Other CPUs run. */
    method Interfere(me: nat, env: (nat, Snapshot) -> Cpus, n: nat, victims: seq<nat>)
      requires EnvOk(me, env) && Ok(me, Snapshot(St(), victims))
      modifies this
      ensures Others(me, Snapshot(old(St()), victims), Snapshot(St(), victims))
    {
      var s := env(n, Snapshot(St(), victims));
      queues, cpu := s.queues, s.cpu;
    }

    /** The first loop: queue lengths, each read under its own lock. */
    method CountThreads(me: nat, env: (nat, Snapshot) -> Cpus) returns (my_count: nat, total_count: nat)
      requires EnvOk(me, env) && Ok(me, Snapshot(St(), []))
      modifies this
      ensures Others(me, Snapshot(old(St()), []), Snapshot(St(), []))
      ensures my_count <= |queues[me]| && my_count <= total_count
    {
      my_count, total_count := 0, 0;
      var i := 0;
      while i < |queues|
        invariant 0 <= i <= |queues| && Others(me, Snapshot(old(St()), []), Snapshot(St(), []))
        invariant my_count <= |queues[me]| && my_count <= total_count
        decreases |old(queues)| - i
      {
        ghost var s := Snapshot(St(), []);
        Interfere(me, env, i, []);
        OthersChain(me, Snapshot(old(St()), []), s, Snapshot(St(), []));
        total_count := total_count + |queues[i]|;
        if i == me {
          my_count := |queues[i]|;
        }
        i := i + 1;
      }
    }

    /** The victims come off the tail of our queue, which holds enough of them. */
    method TakeVictims(me: nat, cur: nat, share: nat, to_send: nat) returns (victims: seq<nat>)
      requires Ok(me, Snapshot(St(), [])) && to_send <= |queues[me]|
      modifies this
      ensures Ours(me, cur, share, Snapshot(old(St()), []), Snapshot(St(), victims)) && |victims| == to_send
    {
      victims := [];
      ghost var a := Snapshot(St(), []);
      OursNone(me, cur, share, a);
      var i := 0;
      while i < to_send
        invariant 0 <= i <= to_send && |victims| == i && Ours(me, cur, share, a, Snapshot(St(), victims))
        invariant me < |queues| && |queues[me]| == |old(queues)[me]| - i
      {
        ghost var b := Snapshot(St(), victims);
        TakeOk(me, cur, share, b);
        OursChain(me, cur, share, a, b, Take(me, b));
        hide Ours, Ok;
        var q := queues[me];
        queues := queues[me := q[..|q| - 1]];
        victims := [q[|q| - 1]] + victims;
        i := i + 1;
      }
    }

    /** One destination: victims go to its tail while it has less than its share. */
    method Fill(me: nat, cur: nat, share: nat, c: nat, v: seq<nat>, n: nat) returns (victims: seq<nat>, to_send: nat)
      requires Ok(me, Snapshot(St(), v)) && c < |queues| && c != me && Pending(v, n, cur)
      modifies this
      ensures Ours(me, cur, share, Snapshot(old(St()), v), Snapshot(St(), victims))
      ensures Pending(victims, to_send, cur) && to_send <= n
    {
      victims, to_send := v, n;
      ghost var a := Snapshot(St(), v);
      OursNone(me, cur, share, a);
      while |queues[c]| < share && to_send > 0
        invariant c < |queues| && Ours(me, cur, share, a, Snapshot(St(), victims))
        invariant Pending(victims, to_send, cur) && to_send <= n
        decreases to_send
      {
        ghost var b := Snapshot(St(), victims);
        assert Ok(me, b);
        var t := victims[0];
        if t == cur {
          SkipOk(me, cur, share, b);
          OursChain(me, cur, share, a, b, Skip(b));
          victims := victims[1..] + [t];
        } else {
          SendOk(me, cur, share, c, b);
          OursChain(me, cur, share, a, b, Send(c, b));
          victims := victims[1..];
          cpu := cpu[t := c];
          queues := queues[c := queues[c] + [t]];
        }
        to_send := to_send - 1;
      }
    }

    /** Leftovers go back to the tail of our own queue. */
    method PutBack(me: nat, cur: nat, share: nat, v: seq<nat>)
      requires Ok(me, Snapshot(St(), v))
      modifies this
      ensures Ours(me, cur, share, Snapshot(old(St()), v), Snapshot(St(), []))
    {
      var victims := v;
      ghost var a := Snapshot(St(), v);
      OursNone(me, cur, share, a);
      while victims != []
        invariant me < |queues| && Ours(me, cur, share, a, Snapshot(St(), victims))
        decreases |victims|
      {
        ghost var b := Snapshot(St(), victims);
        SendOk(me, cur, share, me, b);
        OursChain(me, cur, share, a, b, Send(me, b));
        assert victims[0] in victims;
        assert cpu[victims[0] := me] == cpu;
        hide Ours;
        queues := queues[me := queues[me] + [victims[0]]];
        victims := victims[1..];
      }
    }

    /** `thread_consider_migration` on CPU `me`, whose current thread is `cur`. */
    method ConsiderMigration(me: nat, cur: nat, env: (nat, Snapshot) -> Cpus)
      returns (ghost tr: seq<Snapshot>, ghost share: nat)
      requires EnvOk(me, env) && Ok(me, Snapshot(St(), []))
      modifies this
      ensures Trace(me, cur, share, tr) && tr[0] == Snapshot(old(St()), []) && tr[|tr| - 1] == Snapshot(St(), [])
      ensures Ok(me, Snapshot(St(), []))
      ensures me < |old(queues)| && (cur in old(queues)[me] ==> cur in queues[me])
    {
      ghost var a := Snapshot(St(), []);
      var my_count, total_count := CountThreads(me, env);
      var numcpus := |queues|;
      var one_share := DivRoundUp(total_count, numcpus);
      share, tr := one_share, [a, Snapshot(St(), [])];
      if my_count < one_share {
        assert a.s.queues[me] <= queues[me];
        return;
      }
      var to_send := my_count - one_share;
      Interfere(me, env, numcpus, []);
      TraceStep(me, cur, share, tr, Snapshot(St(), []));
      tr := tr + [Snapshot(St(), [])];
      var victims := TakeVictims(me, cur, one_share, to_send);
      TraceStep(me, cur, share, tr, Snapshot(St(), victims));
      tr := tr + [Snapshot(St(), victims)];
      var i := 0;
      while i < numcpus && to_send > 0
        invariant 0 <= i <= numcpus == |queues| && Trace(me, cur, share, tr) && tr[0] == a
        invariant tr[|tr| - 1] == Snapshot(St(), victims)
        invariant Ok(me, Snapshot(St(), victims)) && Pending(victims, to_send, cur) && share == one_share
      {
        if i != me {
          hide Trace;
          Interfere(me, env, numcpus + 1 + i, victims);
          TraceStep(me, cur, share, tr, Snapshot(St(), victims));
          tr := tr + [Snapshot(St(), victims)];
          victims, to_send := Fill(me, cur, one_share, i, victims, to_send);
          TraceStep(me, cur, share, tr, Snapshot(St(), victims));
          tr := tr + [Snapshot(St(), victims)];
        }
        i := i + 1;
      }
      if victims != [] {
        hide Trace;
        Interfere(me, env, 2 * numcpus + 1, victims);
        TraceStep(me, cur, share, tr, Snapshot(St(), victims));
        tr := tr + [Snapshot(St(), victims)];
        PutBack(me, cur, one_share, victims);
        TraceStep(me, cur, share, tr, Snapshot(St(), []));
        tr := tr + [Snapshot(St(), [])];
      }
      if cur in a.s.queues[me] {
        CurrentStays(me, cur, share, tr, |tr| - 1);
      }
    }
  }
}
