/** Which page is evicted: over every run, the one that has been in memory longest. */
module Residence {
  import opened Basics
  import opened PageTable
  import opened Paging
  import opened Tlb
  import opened DemandPaging

  /** `birth[f]` is the time the page in frame `f` came in; the queue is in that order, all before `now`. */
  ghost predicate Aged(q: seq<nat>, birth: map<nat, nat>, now: nat) {
    (forall f :: f in q ==> f in birth && birth[f] < now) &&
    forall i, j :: 0 <= i < j < |q| ==> q[i] in q && q[j] in q && birth[q[i]] < birth[q[j]]
  }

  lemma AgedTail(q: seq<nat>, birth: map<nat, nat>, now: nat)
    requires Aged(q, birth, now) && q != []
    ensures Aged(q[1..], birth, now) && forall f :: f in q[1..] ==> f in q && birth[q[0]] < birth[f]
  {
  }

  lemma {:induction false} AgedWithout(q: seq<nat>, drop: set<nat>, birth: map<nat, nat>, now: nat)
    requires Aged(q, birth, now)
    ensures Aged(Without(q, drop), birth, now) && forall f :: f in Without(q, drop) ==> f in q
  {
    if q != [] {
      AgedTail(q, birth, now);
      AgedWithout(q[1..], drop, birth, now);
      var r := Without(q[1..], drop);
      assert forall f :: f in r ==> f in q[1..] && birth[q[0]] < birth[f];
    }
  }

  /** The frame a memory access brings a page into, if it has to. */
  ghost function LandedAt(s: Vm, addr: nat): Option<nat>
    requires VmOk(s) && s.cur.Some?
  {
    AlwaysFaultReady(s, s.cur.value);
    var k := Key(s.cur.value, PageOf(addr));
    if Probe(s.tlb.entries, k.vaddr) < 0 && Access(s, addr).Done? && ScanAddr(s.mem.frames.owners, k) == 0
    then Some(TakeFrame(s.mem).frame) else None
  }

  lemma PageInQueue(m: Mem, f: nat, k: Key)
    requires f < |m.frames.owners| == |m.ram| && |m.swap.pages| == |m.swap.slots|
    requires k.pid in m.spaces && k.pid in m.flags && FlagsOk(m.spaces[k.pid], m.flags[k.pid])
    requires !SegmentOf(m.spaces[k.pid], k.vaddr).Nowhere?
    ensures PageIn(m, f, k).frames.fifo == m.frames.fifo + [f]
  {
  }

  /** A frame is taken from the head of the queue, or was not in it. */
  lemma TakeFrameQueue(m: Mem)
    requires MemOk(m)
    ensures EvictReady(m)
    ensures var g, q := TakeFrame(m), m.frames.fifo;
      g.Got? ==> if g.victim.None? then g.frame !in q && g.mem.frames.fifo == q
                 else q != [] && g.frame == q[0] && g.mem.frames.fifo == q[1..]
  {
    AlwaysEvictReady(m);
    var i, q := LowestRun(m.frames.owners, 1), m.frames.fifo;
    if i != -1 {
      assert TrulyFree(m.frames.owners, i);
    } else if q != [] && Evict(m).Some? {
      assert IndexOf(q, q[0]) == 0;
    }
  }

  /** What an access does to the queue. */
  lemma AccessQueue(s: Vm, addr: nat)
    requires VmOk(s) && s.cur.Some? && Access(s, addr).Done?
    ensures var q, q', l := s.mem.frames.fifo, Access(s, addr).vm.mem.frames.fifo, LandedAt(s, addr);
      if l.None? then q' == q
      else (q' == q + [l.value] && l.value !in q) || (q != [] && q' == q[1..] + [q[0]] && l.value == q[0])
  {
    var k := Key(s.cur.value, PageOf(addr));
    AlwaysFaultReady(s, k.pid);
    if Probe(s.tlb.entries, k.vaddr) < 0 && ScanAddr(s.mem.frames.owners, k) == 0 {
      TakeFrameQueue(s.mem);
      var g := TakeFrame(s.mem);
      hide VmOk, MemOk;
      PageInQueue(g.mem, g.frame, k);
    }
  }

  /** The frame an event brings a page into. */
  ghost function Landed(s: Vm, e: Event): Option<nat>
    requires VmOk(s)
  {
    if (e.Load? || e.Store?) && s.cur.Some? then LandedAt(s, e.addr) else None
  }

  ghost function Births(s: Vm, e: Event, birth: map<nat, nat>, now: nat): map<nat, nat>
    requires VmOk(s)
  {
    if Landed(s, e).Some? then birth[Landed(s, e).value := now] else birth
  }

  lemma AgedLater(q: seq<nat>, birth: map<nat, nat>, now: nat)
    requires Aged(q, birth, now)
    ensures Aged(q, birth, now + 1)
  {
  }

  lemma AgedAccess(q: seq<nat>, q': seq<nat>, f: nat, birth: map<nat, nat>, now: nat)
    requires Aged(q, birth, now) && Distinct(q)
    requires (q' == q + [f] && f !in q) || (q != [] && q' == q[1..] + [q[0]] && f == q[0])
    ensures Aged(q', birth[f := now], now + 1)
  {
  }

  /** Time passes, and the queue stays in order of age. */
  lemma StepAged(s: Vm, e: Event, birth: map<nat, nat>, now: nat)
    requires VmOk(s) && Legal(s, e) && Step(s, e).Done? && Aged(s.mem.frames.fifo, birth, now)
    ensures Aged(Step(s, e).vm.mem.frames.fifo, Births(s, e, birth, now), now + 1)
  {
    var q := s.mem.frames.fifo;
    assert Distinct(q);
    AgedLater(q, birth, now);
    if (e.Load? || e.Store?) && s.cur.Some? {
      AccessAged(s, e, birth, now);
    } else if e.Exit? {
      AgedWithout(q, FramesOf(s.mem.frames.owners, e.pid, |s.mem.frames.owners|), birth, now);
      hide VmOk, Legal, Aged, Without;
    } else {
      hide VmOk, Aged;
    }
  }

  lemma AccessAged(s: Vm, e: Event, birth: map<nat, nat>, now: nat)
    requires VmOk(s) && Legal(s, e) && Step(s, e).Done? && Aged(s.mem.frames.fifo, birth, now)
    requires (e.Load? || e.Store?) && s.cur.Some?
    ensures Aged(Step(s, e).vm.mem.frames.fifo, Births(s, e, birth, now), now + 1)
  {
    var q := s.mem.frames.fifo;
    assert Distinct(q);
    AgedLater(q, birth, now);
    if Access(s, e.addr).Done? {
      AccessQueue(s, e.addr);
      var q' := Access(s, e.addr).vm.mem.frames.fifo;
      if LandedAt(s, e.addr).Some? {
        AgedAccess(q, q', LandedAt(s, e.addr).value, birth, now);
      }
      assert Step(s, e).vm.mem.frames.fifo == q';
    }
  }

  /** The times of arrival along a run. */
  ghost function BirthsAfter(s: Vm, es: seq<Event>, i: nat, birth: map<nat, nat>, now: nat): map<nat, nat>
    requires VmOk(s) && Run(s, es).Trace? && i <= |es|
    decreases i
  {
    if i == 0 then birth
    else
      StepOk(s, es[0]);
      BirthsAfter(Step(s, es[0]).vm, es[1..], i - 1, Births(s, es[0], birth, now), now + 1)
  }

  lemma {:induction false} RunAged(s: Vm, es: seq<Event>, i: nat, birth: map<nat, nat>, now: nat)
    requires VmOk(s) && Run(s, es).Trace? && i <= |es| && Aged(s.mem.frames.fifo, birth, now)
    ensures Aged(Run(s, es).states[i].mem.frames.fifo, BirthsAfter(s, es, i, birth, now), now + i)
    decreases i
  {
    hide VmOk, Aged, Legal, Step, Births;
    if i > 0 {
      StepOk(s, es[0]);
      StepAged(s, es[0], birth, now);
      RunAged(Step(s, es[0]).vm, es[1..], i - 1, Births(s, es[0], birth, now), now + 1);
    }
  }

  /** In every state of every run after boot, the page the next eviction takes came in before every other resident
      page. */
  lemma EvictsLongestResident(s: Vm, es: seq<Event>, i: nat, f: nat)
    requires Booted(s) && VmOk(s) && Run(s, es).Trace? && i <= |es|
    ensures var m, birth := Run(s, es).states[i].mem, BirthsAfter(s, es, i, map[], 0);
      EvictReady(m) &&
      (TakeFrame(m).Got? && TakeFrame(m).victim.Some? && f < |m.frames.owners| && m.frames.owners[f].User? ==>
        TakeFrame(m).frame in birth && f in birth && birth[TakeFrame(m).frame] <= birth[f])
  {
    var m, birth := Run(s, es).states[i].mem, BirthsAfter(s, es, i, map[], 0);
    assert s.mem.frames.fifo == [] by {
      FirstIn(s.mem.frames.fifo);
    }
    RunAged(s, es, i, map[], 0);
    RunInvariant(s, es, i);
    TakeFrameQueue(m);
    var q := m.frames.fifo;
    if f < |m.frames.owners| && m.frames.owners[f].User? {
      assert f in q;
      AgedTail(q, birth, i);
      assert f == q[0] || f in q[1..];
    }
  }
}
