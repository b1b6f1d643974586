/** Whole runs of the paging system: what every step keeps, and that paging is invisible. */
module DemandPaging {
  import opened Basics
  import opened PageTable
  import opened Paging
  import opened Tlb

  /** `cur` is the process whose address space is in use, if any. */
  datatype Vm = Vm(mem: Mem, tlb: TlbState, cur: Option<nat>, stats: Counters)

  datatype Reason = NoFrame | SwapFull

  // ---------------------------------------------------------------------------------------
  // Allocating a frame
  // ---------------------------------------------------------------------------------------

  ghost function LowestRunFrom(owners: seq<Owner>, n: nat, i: nat): (r: int)
    requires i <= |owners|
    requires NoRunBefore(owners, i, n)
    ensures r == -1 ==> NoRunBefore(owners, |owners|, n)
    ensures r != -1 ==> FreeRun(owners, r, n) && NoRunBefore(owners, r, n)
    decreases |owners| - i
  {
    if i == |owners| then -1 else if FreeRun(owners, i, n) then i else LowestRunFrom(owners, n, i + 1)
  }

  /** The start of the lowest run of `n` free frames, or -1. */
  ghost function LowestRun(owners: seq<Owner>, n: nat): (r: int)
    ensures n > 0 && r == -1 ==> forall i :: !FreeRun(owners, i, n)
    ensures r != -1 ==> FreeRun(owners, r, n) && NoRunBefore(owners, r, n)
    ensures n == 0 ==> r == -1
  {
    if n == 0 then -1 else LowestRunFrom(owners, n, 0)
  }

  lemma LowestRunUnique(owners: seq<Owner>, n: nat, r: int)
    requires n == 0 ==> r == -1
    requires n > 0 && r == -1 ==> NoRunBefore(owners, |owners|, n)
    requires r != -1 ==> FreeRun(owners, r, n) && NoRunBefore(owners, r, n)
    ensures r == LowestRun(owners, n)
  {
  }

  /** allocuserpage up to the moment its frame is known; `victim` is the page that had to go. */
  datatype Allocated = Got(mem: Mem, frame: nat, victim: Option<Key>) | Failed(why: Reason)

  ghost predicate EvictReady(m: Mem) {
    |m.ram| == |m.frames.owners| && |m.swap.pages| == |m.swap.slots| &&
    (m.frames.fifo != [] ==> m.frames.fifo[0] < |m.frames.owners| && m.frames.owners[m.frames.fifo[0]].User?)
  }

  lemma AlwaysEvictReady(m: Mem)
    requires FramesOk(m.frames) && |m.ram| == |m.frames.owners| && |m.swap.pages| == |m.swap.slots|
    ensures EvictReady(m)
  {
    assert m.frames.fifo != [] ==> m.frames.fifo[0] in m.frames.fifo;
  }

  ghost function TakeFrame(m: Mem): (g: Allocated)
    requires EvictReady(m)
    ensures g.Got? ==> g.mem.spaces == m.spaces && g.mem.flags == m.flags && g.mem.ram == m.ram
    ensures g.Got? ==> g.frame < |g.mem.frames.owners| == |g.mem.ram| && |g.mem.swap.pages| == |g.mem.swap.slots|
  {
    var i := LowestRun(m.frames.owners, 1);
    if i != -1 then Got(m, i, None)
    else if m.frames.fifo == [] then Failed(NoFrame)
    else
      var f := m.frames.fifo[0];
      match Evict(m)
      case None => Failed(SwapFull)
      case Some(m') => Got(m', f, Some(m.frames.owners[f].key))
  }

  /** The frame is free, every page reads as before, and the victim was the longest resident. */
  lemma TakeFrameOk(m: Mem)
    requires MemOk(m)
    ensures EvictReady(m)
    ensures TakeFrame(m).Got? ==>
      MemOk(TakeFrame(m).mem) && SameView(m, TakeFrame(m).mem) &&
      TrulyFree(TakeFrame(m).mem.frames.owners, TakeFrame(m).frame)
    ensures TakeFrame(m) == Failed(NoFrame) <==>
      forall f :: 0 <= f < |m.ram| ==> !TrulyFree(m.frames.owners, f) && !m.frames.owners[f].User?
    ensures TakeFrame(m) == Failed(SwapFull) ==> None !in m.swap.slots
  {
    AlwaysEvictReady(m);
    var i := LowestRun(m.frames.owners, 1);
    if i != -1 {
      assert TrulyFree(m.frames.owners, i);
    } else {
      forall f | 0 <= f < |m.ram|
        ensures !TrulyFree(m.frames.owners, f)
      {
        assert !FreeRun(m.frames.owners, f, 1);
      }
      if m.frames.fifo != [] {
        EvictOk(m);
        assert m.frames.owners[m.frames.fifo[0]].User?;
      } else {
        assert forall f: nat :: f < |m.ram| ==> f !in m.frames.fifo;
      }
    }
  }

  // ---------------------------------------------------------------------------------------
  // Faults and accesses
  // ---------------------------------------------------------------------------------------

  datatype Outcome = Done(vm: Vm) | BadAddress | Stopped(why: Reason)

  /** The counters a page-in bumps: from swap space, from the ELF file, or zeroed. */
  function PageInStats(a: AddrSpace, fl: Flags, vaddr: nat, c: Counters): Counters
    requires FlagsOk(a, fl) && !SegmentOf(a, vaddr).Nowhere?
  {
    if IsLoaded(a, fl, vaddr) then Bump(Bump(c, PAGEFAULTDISK), PAGEFAULTSWAP)
    else if !Seg(a, SegmentOf(a, vaddr)).stack then Bump(Bump(c, PAGEFAULTDISK), PAGEFAULTELF)
    else Bump(c, PAGEFAULTZERO)
  }

  predicate Writable(a: AddrSpace, vaddr: nat) {
    !SegmentOf(a, vaddr).Nowhere? && Seg(a, SegmentOf(a, vaddr)).writable
  }

  function DropVictim(t: TlbState, victim: Option<Key>): TlbState {
    if victim.None? then t else DropPage(t, victim.value.vaddr)
  }

  function VictimStats(c: Counters, victim: Option<Key>): Counters {
    if victim.None? then c else Bump(c, SWAPWRITE)
  }

  ghost predicate FaultReady(s: Vm, pid: nat) {
    EvictReady(s.mem) && Shape(s.tlb) && pid in s.mem.spaces && pid in s.mem.flags &&
    FlagsOk(s.mem.spaces[pid], s.mem.flags[pid])
  }

  /** vm_fault for a read or write fault of process `pid` on the page at `vaddr`. */
  ghost function Fault(s: Vm, pid: nat, vaddr: nat): Outcome
    requires FaultReady(s, pid)
  {
    var a := s.mem.spaces[pid];
    var k := Key(pid, vaddr);
    if SegmentOf(a, vaddr).Nowhere? then BadAddress
    else
      var c := Bump(s.stats, TLBFAULT);
      var addr := ScanAddr(s.mem.frames.owners, k);
      if addr != 0 then
        Done(Vm(s.mem, Enter(s.tlb, pid, vaddr, addr / PAGE_SIZE, Writable(a, vaddr)), s.cur,
                Bump(Bump(c, TLBRELOAD), FaultKind(s.tlb))))
      else
        match TakeFrame(s.mem)
        case Failed(why) => Stopped(why)
        case Got(m, f, victim) =>
          var t := DropVictim(s.tlb, victim);
          Done(Vm(PageIn(m, f, k), Enter(t, pid, vaddr, f, Writable(a, vaddr)), s.cur,
                  Bump(PageInStats(a, m.flags[pid], vaddr, VictimStats(c, victim)), FaultKind(t))))
  }

  lemma FaultHit(s: Vm, k: Key)
    requires FaultReady(s, k.pid) && !SegmentOf(s.mem.spaces[k.pid], k.vaddr).Nowhere?
    requires ScanAddr(s.mem.frames.owners, k) != 0
    ensures var addr := ScanAddr(s.mem.frames.owners, k);
      Fault(s, k.pid, k.vaddr) ==
      Done(Vm(s.mem, Enter(s.tlb, k.pid, k.vaddr, addr / PAGE_SIZE, Writable(s.mem.spaces[k.pid], k.vaddr)), s.cur,
              Bump(Bump(Bump(s.stats, TLBFAULT), TLBRELOAD), FaultKind(s.tlb))))
  {
  }

  lemma FaultMiss(s: Vm, k: Key)
    requires FaultReady(s, k.pid) && !SegmentOf(s.mem.spaces[k.pid], k.vaddr).Nowhere?
    requires ScanAddr(s.mem.frames.owners, k) == 0
    ensures var g := TakeFrame(s.mem);
      var a, fl := s.mem.spaces[k.pid], s.mem.flags[k.pid];
      Fault(s, k.pid, k.vaddr) ==
      if g.Failed? then Stopped(g.why)
      else
        var t := DropVictim(s.tlb, g.victim);
        Done(Vm(PageIn(g.mem, g.frame, k), Enter(t, k.pid, k.vaddr, g.frame, Writable(a, k.vaddr)), s.cur,
                Bump(PageInStats(a, fl, k.vaddr, VictimStats(Bump(s.stats, TLBFAULT), g.victim)), FaultKind(t))))
  {
  }

  /** Every translation of a live process is the page table's, with the segment's permission;
      no page is translated twice; and only the current process has translations. */
  ghost predicate TlbOk(t: TlbState, m: Mem, cur: Option<nat>) {
    Shape(t) && TlbUnique(t) && TlbSound(t, m) && (cur.Some? && cur.value != t.lastpid ==> TlbEmpty(t))
  }

  ghost predicate TlbUnique(t: TlbState) {
    forall i, j :: 0 <= i < j < |t.entries| && t.entries[i].Valid? && t.entries[j].Valid? ==>
      t.entries[i].vaddr != t.entries[j].vaddr
  }

  ghost predicate EntrySound(e: Entry, m: Mem, pid: nat)
    requires pid in m.spaces
  {
    e.Valid? ==> e.frame < |m.frames.owners| && m.frames.owners[e.frame] == User(Key(pid, e.vaddr)) &&
                 e.writable == Writable(m.spaces[pid], e.vaddr)
  }

  ghost predicate TlbSound(t: TlbState, m: Mem) {
    t.lastpid in m.spaces ==> forall i :: 0 <= i < |t.entries| ==> EntrySound(t.entries[i], m, t.lastpid)
  }

  ghost predicate TlbEmpty(t: TlbState) {
    forall i :: 0 <= i < |t.entries| ==> t.entries[i].Invalid?
  }

  ghost predicate VmOk(s: Vm) {
    MemOk(s.mem) && TlbOk(s.tlb, s.mem, s.cur) && Balanced(s.stats) && (s.cur.Some? ==> s.cur.value in s.mem.spaces)
  }

  lemma EvictTlb(t: TlbState, m: Mem, cur: Option<nat>)
    requires MemOk(m) && m.frames.fifo != [] && Evict.requires(m) && Evict(m).Some? && TlbOk(t, m, cur)
    ensures TlbOk(DropPage(t, m.frames.owners[m.frames.fifo[0]].key.vaddr), Evict(m).value, cur)
  {
    var f := m.frames.fifo[0];
    var k := m.frames.owners[f].key;
    var t' := DropPage(t, k.vaddr);
    var m' := Evict(m).value;
    var p := Probe(t.entries, k.vaddr);
    forall i | 0 <= i < |t.entries| && t'.entries[i].Valid?
      ensures t'.entries[i] == t.entries[i] && t'.entries[i].vaddr != k.vaddr
    {
    }
    if t.lastpid in m.spaces {
      forall i | 0 <= i < |t.entries|
        ensures EntrySound(t'.entries[i], m', t.lastpid)
      {
        assert EntrySound(t.entries[i], m, t.lastpid);
      }
    }
  }

  lemma EnterTlb(t: TlbState, m: Mem, cur: Option<nat>, pid: nat, vaddr: nat, f: nat)
    requires TlbOk(t, m, cur) && cur == Some(pid) && pid in m.spaces
    requires f < |m.frames.owners| && m.frames.owners[f] == User(Key(pid, vaddr))
    requires Probe(t.entries, vaddr) < 0
    ensures TlbOk(Enter(t, pid, vaddr, f, Writable(m.spaces[pid], vaddr)), m, cur)
    ensures Probe(Enter(t, pid, vaddr, f, Writable(m.spaces[pid], vaddr)).entries, vaddr) >= 0
  {
    var t' := Enter(t, pid, vaddr, f, Writable(m.spaces[pid], vaddr));
    assert Maps(t'.entries[Target(t)], vaddr);
    forall i | 0 <= i < |t'.entries|
      ensures EntrySound(t'.entries[i], m, pid)
    {
      assert t.lastpid == pid ==> EntrySound(t.entries[i], m, pid);
    }
  }

  /** Page-in changes the owner of one free frame only. */
  lemma PageInTlb(t: TlbState, m: Mem, cur: Option<nat>, f: nat, k: Key)
    requires MemOk(m) && TlbOk(t, m, cur) && Live(m, k) && TrulyFree(m.frames.owners, f)
    ensures TlbOk(t, PageIn(m, f, k), cur)
  {
    var m' := PageIn(m, f, k);
    if t.lastpid in m.spaces {
      forall i | 0 <= i < |t.entries|
        ensures EntrySound(t.entries[i], m', t.lastpid)
      {
        assert EntrySound(t.entries[i], m, t.lastpid);
      }
    }
  }

  /** Frame 0 belongs to the kernel, so address 0 can stand for "not resident". */
  lemma ScanZero(m: Mem, k: Key)
    requires MemOk(m)
    ensures ScanAddr(m.frames.owners, k) == 0 <==> !Resident(m, k)
    ensures Resident(m, k) ==> ScanAddr(m.frames.owners, k) / PAGE_SIZE == IndexOf(m.frames.owners, User(k))
  {
  }

  lemma TakeFrameResident(m: Mem, k: Key)
    requires MemOk(m) && EvictReady(m) && TakeFrame(m).Got? && Live(m, k) && !Resident(m, k)
    ensures Live(TakeFrame(m).mem, k) && !Resident(TakeFrame(m).mem, k)
  {
  }

  lemma TakeFrameTlb(t: TlbState, m: Mem, cur: Option<nat>, vaddr: nat)
    requires MemOk(m) && EvictReady(m) && TakeFrame(m).Got? && TlbOk(t, m, cur) && Probe(t.entries, vaddr) < 0
    ensures TlbOk(DropVictim(t, TakeFrame(m).victim), TakeFrame(m).mem, cur)
    ensures Probe(DropVictim(t, TakeFrame(m).victim).entries, vaddr) < 0
  {
    TakeFrameOk(m);
    if TakeFrame(m).victim.Some? {
      EvictOk(m);
      EvictTlb(t, m, cur);
      var t' := DropVictim(t, TakeFrame(m).victim);
      assert forall i :: 0 <= i < |t.entries| ==> !Maps(t'.entries[i], vaddr);
    }
  }

  /** The fault path of a page that is not resident. */
  lemma MissOk(s: Vm, vaddr: nat, k: Key)
    requires VmOk(s) && s.cur == Some(k.pid) && vaddr == k.vaddr && Live(s.mem, k) && !Resident(s.mem, k)
    requires Probe(s.tlb.entries, vaddr) < 0 && EvictReady(s.mem) && TakeFrame(s.mem).Got?
    ensures FaultReady(s, k.pid)
    ensures var r := Fault(s, k.pid, vaddr);
      r.Done? && MemOk(r.vm.mem) && SameView(s.mem, r.vm.mem) && TlbOk(r.vm.tlb, r.vm.mem, s.cur) &&
      Probe(r.vm.tlb.entries, vaddr) >= 0
  {
    var m := s.mem;
    AlwaysFaultReady(s, k.pid);
    ScanZero(m, k);
    TakeFrameOk(m);
    TakeFrameResident(m, k);
    TakeFrameTlb(s.tlb, m, s.cur, vaddr);
    var g := TakeFrame(m);
    var t := DropVictim(s.tlb, g.victim);
    PageInTlb(t, g.mem, s.cur, g.frame, k);
    PageInOk(g.mem, g.frame, k);
    var m' := PageIn(g.mem, g.frame, k);
    EnterTlb(t, m', s.cur, k.pid, vaddr, g.frame);
    assert SameView(m, m');
  }

  lemma PageInBalanced(a: AddrSpace, fl: Flags, vaddr: nat, c: Counters, slot: Stat)
    requires FlagsOk(a, fl) && !SegmentOf(a, vaddr).Nowhere? && Balanced(c)
    requires slot == TLBFAULTWITHFREE || slot == TLBFAULTWITHREPLACE
    ensures Balanced(Bump(PageInStats(a, fl, vaddr, Bump(c, TLBFAULT)), slot))
  {
    hide Balanced;
    var source := if !IsLoaded(a, fl, vaddr) && Seg(a, SegmentOf(a, vaddr)).stack then PAGEFAULTZERO else PAGEFAULTDISK;
    FaultBalanced(c, slot, source, if IsLoaded(a, fl, vaddr) then PAGEFAULTSWAP else PAGEFAULTELF);
  }

  /** Saving a page is counted apart from the fault. */
  lemma VictimBalanced(c: Counters, victim: Option<Key>)
    requires Balanced(c)
    ensures Balanced(VictimStats(c, victim))
    ensures VictimStats(Bump(c, TLBFAULT), victim) == Bump(VictimStats(c, victim), TLBFAULT)
  {
  }

  lemma FaultStats(s: Vm, vaddr: nat)
    requires VmOk(s) && s.cur.Some? && vaddr % PAGE_SIZE == 0
    requires FaultReady(s, s.cur.value) && Fault(s, s.cur.value, vaddr).Done?
    ensures Balanced(Fault(s, s.cur.value, vaddr).vm.stats)
  {
    var m, k := s.mem, Key(s.cur.value, vaddr);
    assert !SegmentOf(m.spaces[k.pid], vaddr).Nowhere?;
    hide MemOk, TlbOk, Balanced, Fault, PageIn, TakeFrame;
    if ScanAddr(m.frames.owners, k) != 0 {
      FaultHit(s, k);
      FaultBalanced(s.stats, FaultKind(s.tlb), TLBRELOAD, PAGEFAULTELF);
    } else {
      FaultMiss(s, k);
      var victim := TakeFrame(m).victim;
      VictimBalanced(s.stats, victim);
      PageInBalanced(m.spaces[k.pid], m.flags[k.pid], vaddr, VictimStats(s.stats, victim),
                     FaultKind(DropVictim(s.tlb, victim)));
    }
  }

  lemma AlwaysFaultReady(s: Vm, pid: nat)
    requires VmOk(s) && pid in s.mem.spaces
    ensures FaultReady(s, pid)
  {
    AlwaysEvictReady(s.mem);
  }

  /** A fault keeps every invariant, changes what no page reads, and leaves the faulting page
      translated; it fails only outside the segments, without memory, or with swap space full. */
  lemma FaultOk(s: Vm, vaddr: nat)
    requires VmOk(s) && s.cur.Some? && vaddr % PAGE_SIZE == 0 && Probe(s.tlb.entries, vaddr) < 0
    ensures FaultReady(s, s.cur.value)
    ensures var r := Fault(s, s.cur.value, vaddr);
      r.BadAddress? <==> SegmentOf(s.mem.spaces[s.cur.value], vaddr).Nowhere?
    ensures var r := Fault(s, s.cur.value, vaddr);
      r.Done? ==> VmOk(r.vm) && r.vm.cur == s.cur && SameView(s.mem, r.vm.mem) && Probe(r.vm.tlb.entries, vaddr) >= 0
  {
    var pid := s.cur.value;
    AlwaysFaultReady(s, pid);
    var m := s.mem;
    var k := Key(pid, vaddr);
    var r := Fault(s, pid, vaddr);
    if r.Done? {
      assert Live(m, k);
      ScanZero(m, k);
      if ScanAddr(m.frames.owners, k) != 0 {
        EnterTlb(s.tlb, m, s.cur, pid, vaddr, IndexOf(m.frames.owners, User(k)));
      } else {
        MissOk(s, vaddr, k);
      }
      FaultStats(s, vaddr);
    }
  }

  // ---------------------------------------------------------------------------------------
  // Runs
  // ---------------------------------------------------------------------------------------

  /** What can happen: processes start, are switched to, access memory and exit; the CPU runs a
      thread without address space; the kernel allocates, frees and writes its own pages. */
  datatype Event =
    | Spawn(pid: nat, space: AddrSpace)
    | Activate(pid: nat)
    | Idle
    | Load(addr: nat)
    | Store(addr: nat, value: int)
    | Exit(pid: nat)
    | KAlloc(npages: nat)
    | KFree(frame: nat)
    | KWrite(frame: nat, contents: Page)

  /** What the rest of the kernel guarantees. A process id may be reused while the TLB still names
      it as last writer only if the TLB is empty; frame 0 holds the exception handlers. */
  ghost predicate Legal(s: Vm, e: Event) {
    match e
    case Spawn(pid, a) =>
      pid > 0 && pid !in s.mem.spaces && SpaceOk(a) && (pid == s.tlb.lastpid ==> TlbEmpty(s.tlb))
    case Activate(pid) => pid in s.mem.spaces
    case Exit(pid) => pid in s.mem.spaces
    case KAlloc(n) => n > 0 && LowestRun(s.mem.frames.owners, n) != -1
    case KFree(f) => 0 < f < |s.mem.frames.owners| && s.mem.frames.owners[f].Kernel?
    case KWrite(f, _) => f < |s.mem.ram| && InExtent(s.mem.frames.owners, f)
    case _ => true
  }

  function PageOf(addr: nat): (p: nat)
    ensures p % PAGE_SIZE == 0
  {
    addr - addr % PAGE_SIZE
  }

  /** The machine makes sure the page is translated, faulting if it is not. */
  ghost function Access(s: Vm, addr: nat): Outcome
    requires VmOk(s) && s.cur.Some?
  {
    if Probe(s.tlb.entries, PageOf(addr)) >= 0 then Done(s)
    else
      AlwaysFaultReady(s, s.cur.value);
      Fault(s, s.cur.value, PageOf(addr))
  }

  lemma AccessOk(s: Vm, addr: nat)
    requires VmOk(s) && s.cur.Some?
    ensures var r := Access(s, addr);
      var k := Key(s.cur.value, PageOf(addr));
      (r.BadAddress? <==> SegmentOf(s.mem.spaces[k.pid], k.vaddr).Nowhere?) &&
      (r.Done? ==>
        VmOk(r.vm) && r.vm.cur == s.cur && SameView(s.mem, r.vm.mem) && Live(s.mem, k) && Resident(r.vm.mem, k) &&
        var i := Probe(r.vm.tlb.entries, k.vaddr);
        i >= 0 && r.vm.tlb.entries[i].frame == IndexOf(r.vm.mem.frames.owners, User(k)) &&
        r.vm.tlb.entries[i].writable == Writable(s.mem.spaces[k.pid], k.vaddr) &&
        r.vm.mem.ram[r.vm.tlb.entries[i].frame] == View(s.mem, k))
  {
    var k := Key(s.cur.value, PageOf(addr));
    var r := Access(s, addr);
    if Probe(s.tlb.entries, k.vaddr) < 0 {
      FaultOk(s, k.vaddr);
    }
    if r.Done? {
      TranslationOk(r.vm, k);
    }
  }

  /** A translation the current process can use leads to the frame that holds its page. */
  lemma TranslationOk(s: Vm, k: Key)
    requires VmOk(s) && Probe(s.tlb.entries, k.vaddr) >= 0
    requires s.cur == Some(k.pid) || (s.tlb.lastpid == k.pid && k.pid in s.mem.spaces)
    ensures Resident(s.mem, k) && Live(s.mem, k)
    ensures var e := s.tlb.entries[Probe(s.tlb.entries, k.vaddr)];
      e.frame == IndexOf(s.mem.frames.owners, User(k)) && e.frame < |s.mem.ram| &&
      e.writable == Writable(s.mem.spaces[k.pid], k.vaddr) && s.mem.ram[e.frame] == View(s.mem, k)
  {
    var i := Probe(s.tlb.entries, k.vaddr);
    assert s.tlb.entries[i].Valid? && s.tlb.lastpid == k.pid;
    assert EntrySound(s.tlb.entries[i], s.mem, k.pid);
    assert Resident(s.mem, k);
  }

  function Spawned(s: Vm, pid: nat, a: AddrSpace): Vm {
    s.(mem := Start(s.mem, pid, a))
  }

  function Activated(s: Vm, pid: nat): Vm {
    s.(tlb := Flush(s.tlb, pid), cur := Some(pid),
       stats := if pid == s.tlb.lastpid then s.stats else Bump(s.stats, TLBINVALIDATION))
  }

  function Exited(s: Vm, pid: nat): Vm {
    s.(mem := Release(s.mem, pid), cur := if s.cur == Some(pid) then None else s.cur)
  }

  /** The lowest run of `n` free frames becomes a kernel extent ... */
  ghost function Granted(s: Vm, n: nat): Vm
    requires n > 0 && LowestRun(s.mem.frames.owners, n) != -1
  {
    s.(mem := s.mem.(frames := MarkKernel(s.mem.frames, LowestRun(s.mem.frames.owners, n), n)))
  }

  /** ... and ends when its head frame is freed. */
  function TakenBack(s: Vm, f: nat): Vm
    requires f < |s.mem.frames.owners|
  {
    s.(mem := s.mem.(frames := UnmarkKernel(s.mem.frames, f)))
  }

  ghost function Step(s: Vm, e: Event): Outcome
    requires VmOk(s) && Legal(s, e)
  {
    match e
    case Spawn(pid, a) => Done(Spawned(s, pid, a))
    case Activate(pid) => Done(Activated(s, pid))
    case Idle => Done(s.(cur := None))
    case Load(addr) => if s.cur.None? then Done(s) else (match Access(s, addr) case BadAddress => Done(s) case r => r)
    case Store(addr, v) =>
      if s.cur.None? then Done(s)
      else
        (match Access(s, addr)
         case BadAddress => Done(s)
         case Stopped(why) => Stopped(why)
         case Done(s') => AccessOk(s, addr); Done(StoreAt(s', addr, v)))
    case Exit(pid) => Done(Exited(s, pid))
    case KAlloc(n) => Done(Granted(s, n))
    case KFree(f) => Done(TakenBack(s, f))
    case KWrite(f, c) => Done(s.(mem := s.mem.(ram := s.mem.ram[f := c])))
  }

  /** A store through the TLB; without write permission the process is terminated instead. */
  ghost function StoreAt(s: Vm, addr: nat, v: int): Vm
    requires VmOk(s) && Probe(s.tlb.entries, PageOf(addr)) >= 0
    requires s.tlb.entries[Probe(s.tlb.entries, PageOf(addr))].frame < |s.mem.ram|
  {
    var e := s.tlb.entries[Probe(s.tlb.entries, PageOf(addr))];
    if e.writable then s.(mem := s.mem.(ram := s.mem.ram[e.frame := s.mem.ram[e.frame][addr % PAGE_SIZE := v]]))
    else s.(cur := None)
  }

  /** The byte in the frame the TLB leads to. */
  function Translated(s: Vm, addr: nat): Option<int> {
    var i := Probe(s.tlb.entries, PageOf(addr));
    if i >= 0 && s.tlb.entries[i].frame < |s.mem.ram|
    then Some(s.mem.ram[s.tlb.entries[i].frame][addr % PAGE_SIZE]) else None
  }

  /** What a load delivers. */
  ghost function Observe(s: Vm, e: Event): Option<int>
    requires VmOk(s)
  {
    if e.Load? && s.cur.Some? && Access(s, e.addr).Done? then Translated(Access(s, e.addr).vm, e.addr) else None
  }

  // ---------------------------------------------------------------------------------------
  // The flat memory every process believes in
  // ---------------------------------------------------------------------------------------

  /** `written[k]` is the contents of page `k` once the process has written to it. */
  datatype Flat = Flat(spaces: map<nat, AddrSpace>, written: map<Key, Page>, cur: Option<nat>)

  function FlatRead(fl: Flat, k: Key): Page
    requires k.pid in fl.spaces && !SegmentOf(fl.spaces[k.pid], k.vaddr).Nowhere?
  {
    if k in fl.written then fl.written[k] else FirstLoad(fl.spaces[k.pid], k.vaddr)
  }

  predicate FlatHas(fl: Flat, addr: nat) {
    fl.cur.Some? && fl.cur.value in fl.spaces && !SegmentOf(fl.spaces[fl.cur.value], PageOf(addr)).Nowhere?
  }

  function FlatStep(fl: Flat, e: Event): Flat {
    match e
    case Spawn(pid, a) => fl.(spaces := fl.spaces[pid := a])
    case Activate(pid) => fl.(cur := Some(pid))
    case Idle => fl.(cur := None)
    case Store(addr, v) =>
      if !FlatHas(fl, addr) then fl
      else
        var k := Key(fl.cur.value, PageOf(addr));
        if Writable(fl.spaces[k.pid], k.vaddr) then
          fl.(written := fl.written[k := FlatRead(fl, k)[addr % PAGE_SIZE := v]])
        else fl.(cur := None)
    case Exit(pid) =>
      Flat(fl.spaces - {pid}, map k | k in fl.written && k.pid != pid :: fl.written[k],
           if fl.cur == Some(pid) then None else fl.cur)
    case _ => fl
  }

  function FlatObserve(fl: Flat, e: Event): Option<int> {
    if e.Load? && FlatHas(fl, e.addr) then Some(FlatRead(fl, Key(fl.cur.value, PageOf(e.addr)))[e.addr % PAGE_SIZE])
    else None
  }

  /** Every page of every live process reads as the flat memory says. */
  ghost predicate Shows(m: Mem, fl: Flat)
    requires MemOk(m)
  {
    fl.spaces == m.spaces && (forall k :: k in fl.written ==> k.pid in fl.spaces) &&
    (forall k :: Live(m, k) ==> View(m, k) == FlatRead(fl, k))
  }

  ghost predicate Agree(s: Vm, fl: Flat) {
    VmOk(s) && fl.cur == s.cur && Shows(s.mem, fl)
  }

  // ---------------------------------------------------------------------------------------
  // Every step keeps the invariant, and its effect on what pages read
  // ---------------------------------------------------------------------------------------

  lemma TlbFrame(t: TlbState, m: Mem, m': Mem, cur: Option<nat>)
    requires TlbOk(t, m, cur) && |m'.frames.owners| == |m.frames.owners|
    requires t.lastpid in m'.spaces ==> t.lastpid in m.spaces && m'.spaces[t.lastpid] == m.spaces[t.lastpid]
    requires forall f ::
      0 <= f < |m.frames.owners| && OwnedBy(m.frames.owners[f], t.lastpid) && t.lastpid in m'.spaces ==>
      m'.frames.owners[f] == m.frames.owners[f]
    ensures TlbOk(t, m', cur)
  {
  }

  /** Starting a process keeps the TLB sound exactly if it does not inherit a predecessor's entries. */
  lemma SpawnTlbExact(s: Vm, pid: nat, a: AddrSpace)
    requires VmOk(s) && pid > 0 && pid !in s.mem.spaces
    ensures TlbOk(s.tlb, Start(s.mem, pid, a), s.cur) <==> (pid == s.tlb.lastpid ==> TlbEmpty(s.tlb))
    ensures TlbSound(s.tlb, Start(s.mem, pid, a)) <==> (pid == s.tlb.lastpid ==> TlbEmpty(s.tlb))
  {
    var m' := Start(s.mem, pid, a);
    if pid == s.tlb.lastpid && !TlbEmpty(s.tlb) {
      var i :| 0 <= i < |s.tlb.entries| && s.tlb.entries[i].Valid?;
      assert !Resident(s.mem, Key(pid, s.tlb.entries[i].vaddr));
      assert !EntrySound(s.tlb.entries[i], m', pid);
    } else if s.tlb.lastpid in m'.spaces {
      forall i | 0 <= i < |s.tlb.entries|
        ensures EntrySound(s.tlb.entries[i], m', s.tlb.lastpid)
      {
        assert s.tlb.lastpid in s.mem.spaces ==> EntrySound(s.tlb.entries[i], s.mem, s.tlb.lastpid);
      }
    }
  }

  lemma SpawnOk(s: Vm, pid: nat, a: AddrSpace)
    requires VmOk(s) && Legal(s, Spawn(pid, a))
    ensures VmOk(Step(s, Spawn(pid, a)).vm)
  {
    StartOk(s.mem, pid, a);
    SpawnTlbExact(s, pid, a);
  }

  /** The process takes over the id of one that just exited and is switched to. */
  function Reborn(s: Vm, pid: nat, a: AddrSpace): Vm {
    Activated(Spawned(Exited(s, pid), pid, a), pid)
  }

  function FlatReborn(fl: Flat, pid: nat, a: AddrSpace): Flat {
    FlatStep(FlatStep(FlatStep(fl, Exit(pid)), Spawn(pid, a)), Activate(pid))
  }

  /** An exit leaves the TLB alone and the switch does not flush it, so a load by the new process through a translation
      of its predecessor delivers the predecessor's byte. */
  lemma ReusedPid(s: Vm, fl: Flat, pid: nat, a: AddrSpace, addr: nat)
    requires Agree(s, fl) && SpaceOk(a) && pid in s.mem.spaces && s.tlb.lastpid == pid
    requires Probe(s.tlb.entries, PageOf(addr)) >= 0
    ensures var k := Key(pid, PageOf(addr));
      Live(s.mem, k) && Translated(Reborn(s, pid, a), addr) == Some(FlatRead(fl, k)[addr % PAGE_SIZE])
    ensures FlatObserve(FlatReborn(fl, pid, a), Load(addr)) ==
      if SegmentOf(a, PageOf(addr)).Nowhere? then None else Some(FirstLoad(a, PageOf(addr))[addr % PAGE_SIZE])
    ensures VmOk(Exited(s, pid)) && pid !in Exited(s, pid).mem.spaces && !VmOk(Reborn(s, pid, a))
  {
    assert pid > 0 && pid !in Exited(s, pid).mem.spaces;
    hide MemOk, View, TlbSound, FlatRead, FlatReborn, FirstLoad, Release;
    TranslationOk(s, Key(pid, PageOf(addr)));
    ExitOk(s, pid);
    SpawnTlbExact(Exited(s, pid), pid, a);
    FlatRebornLoad(fl, pid, a, addr);
  }

  lemma FlatRebornLoad(fl: Flat, pid: nat, a: AddrSpace, addr: nat)
    ensures FlatObserve(FlatReborn(fl, pid, a), Load(addr)) ==
      if SegmentOf(a, PageOf(addr)).Nowhere? then None else Some(FirstLoad(a, PageOf(addr))[addr % PAGE_SIZE])
  {
    assert Key(pid, PageOf(addr)) !in FlatReborn(fl, pid, a).written;
  }

  /** So for every such translation there is a program whose load is answered wrongly. */
  lemma ReusedPidWrong(s: Vm, fl: Flat, pid: nat, addr: nat)
    requires Agree(s, fl) && pid in s.mem.spaces && s.tlb.lastpid == pid && Probe(s.tlb.entries, PageOf(addr)) >= 0
    ensures exists a :: SpaceOk(a) && Translated(Reborn(s, pid, a), addr).Some? &&
              FlatObserve(FlatReborn(fl, pid, a), Load(addr)).Some? &&
              Translated(Reborn(s, pid, a), addr) != FlatObserve(FlatReborn(fl, pid, a), Load(addr))
  {
    hide MemOk, View, TlbOk, FlatRead, FlatReborn, FlatObserve, Translated, Reborn;
    var k := Key(pid, PageOf(addr));
    TranslationOk(s, k);
    var b := if FlatRead(fl, k)[addr % PAGE_SIZE] == 0 then 1 else 0;
    var page: Page := seq(PAGE_SIZE, _ => b);
    var none := Segment(0, 0, false, false, _ => ZEROS, 0);
    var a := AddrSpace(Segment(k.vaddr, 1, false, true, _ => page, 0), none, none.(stack := true));
    ReusedPid(s, fl, pid, a, addr);
    assert FirstLoad(a, k.vaddr) == page;
  }

  lemma SpawnShows(m: Mem, fl: Flat, pid: nat, a: AddrSpace)
    requires MemOk(m) && Shows(m, fl) && SpaceOk(a) && pid > 0 && pid !in m.spaces
    ensures MemOk(Start(m, pid, a)) && Shows(Start(m, pid, a), FlatStep(fl, Spawn(pid, a)))
  {
    StartOk(m, pid, a);
    var m', fl' := Start(m, pid, a), FlatStep(fl, Spawn(pid, a));
    forall k | Live(m', k)
      ensures View(m', k) == FlatRead(fl', k)
    {
      assert k.pid != pid ==> Live(m, k);
    }
  }

  lemma ExitOk(s: Vm, pid: nat)
    requires VmOk(s) && Legal(s, Exit(pid))
    ensures VmOk(Step(s, Exit(pid)).vm)
  {
    ReleaseOk(s.mem, pid);
    TlbFrame(s.tlb, s.mem, Release(s.mem, pid), s.cur);
  }

  lemma ExitShows(m: Mem, fl: Flat, pid: nat)
    requires MemOk(m) && Shows(m, fl)
    ensures MemOk(Release(m, pid)) && Shows(Release(m, pid), FlatStep(fl, Exit(pid)))
  {
    ReleaseOk(m, pid);
    var m', fl' := Release(m, pid), FlatStep(fl, Exit(pid));
    assert forall k :: k in fl'.written <==> k in fl.written && k.pid != pid;
    forall k | Live(m', k)
      ensures View(m', k) == FlatRead(fl', k)
    {
      assert Live(m, k) && k.pid != pid;
      assert FlatRead(fl', k) == FlatRead(fl, k);
    }
  }

  /** Kernel steps change neither the owner nor the contents of any user frame. */
  lemma KernelMemOk(m: Mem, e: Event, s: Vm)
    requires VmOk(s) && m == s.mem && Legal(s, e) && (e.KAlloc? || e.KFree? || e.KWrite?)
    ensures var m' := Step(s, e).vm.mem;
      MemOk(m') && SameView(m, m') && |m'.frames.owners| == |m.frames.owners| &&
      forall f :: 0 <= f < |m.frames.owners| && m.frames.owners[f].User? ==> m'.frames.owners[f] == m.frames.owners[f]
  {
    var m' := Step(s, e).vm.mem;
    match e {
      case KAlloc(n) =>
        var f := LowestRun(m.frames.owners, n);
        assert TrulyFree(m.frames.owners, f);
        MarkKernelOk(m.frames, f, n);
      case KFree(f) =>
        UnmarkKernelOk(m.frames, f);
      case KWrite(f, _) =>
        var h :| 0 <= h < |m.ram| && m.frames.owners[h].Kernel? && h <= f < h + m.frames.owners[h].npages;
        assert !m.frames.owners[f].User?;
    }
    KernelOk(m, m');
  }

  lemma SameViewShows(m: Mem, m': Mem, fl: Flat)
    requires MemOk(m) && MemOk(m') && Shows(m, fl) && SameView(m, m')
    ensures Shows(m', fl)
  {
    forall k | Live(m', k)
      ensures View(m', k) == FlatRead(fl, k)
    {
      assert Live(m, k);
    }
  }

  lemma StoreAtOk(s: Vm, addr: nat, v: int)
    requires VmOk(s) && s.cur.Some? && Probe(s.tlb.entries, PageOf(addr)) >= 0
    ensures var k := Key(s.cur.value, PageOf(addr));
      Live(s.mem, k) && s.tlb.entries[Probe(s.tlb.entries, PageOf(addr))].frame < |s.mem.ram| &&
      var s' := StoreAt(s, addr, v);
      VmOk(s') && s'.mem.spaces == s.mem.spaces &&
      s'.cur == (if Writable(s.mem.spaces[k.pid], k.vaddr) then s.cur else None) &&
      forall j :: Live(s.mem, j) ==>
        View(s'.mem, j) ==
        if j == k && Writable(s.mem.spaces[k.pid], k.vaddr) then View(s.mem, k)[addr % PAGE_SIZE := v]
        else View(s.mem, j)
  {
    var k := Key(s.cur.value, PageOf(addr));
    TranslationOk(s, k);
    var e := s.tlb.entries[Probe(s.tlb.entries, k.vaddr)];
    if e.writable {
      StoreOk(s.mem, k, s.mem.ram[e.frame][addr % PAGE_SIZE := v]);
      TlbFrame(s.tlb, s.mem, StoreAt(s, addr, v).mem, s.cur);
    }
  }

  lemma StoreShows(m: Mem, m': Mem, fl: Flat, addr: nat, v: int)
    requires MemOk(m) && MemOk(m') && Shows(m, fl) && FlatHas(fl, addr) && m'.spaces == m.spaces
    requires var k := Key(fl.cur.value, PageOf(addr));
      forall j :: Live(m, j) ==>
        View(m', j) ==
        if j == k && Writable(m.spaces[k.pid], k.vaddr) then View(m, j)[addr % PAGE_SIZE := v] else View(m, j)
    ensures Shows(m', FlatStep(fl, Store(addr, v)))
  {
    hide View, MemOk;
    var k := Key(fl.cur.value, PageOf(addr));
    var fl' := FlatStep(fl, Store(addr, v));
    if Writable(m.spaces[k.pid], k.vaddr) {
      assert Live(m, k);
      assert fl'.written == fl.written[k := View(m, k)[addr % PAGE_SIZE := v]];
    }
    forall j | Live(m', j)
      ensures View(m', j) == FlatRead(fl', j)
    {
      assert Live(m, j);
      assert j != k ==> FlatRead(fl', j) == FlatRead(fl, j);
    }
  }

  /** Load and store: first the access, then the effect. */
  lemma StoreStepOk(s: Vm, addr: nat, v: int)
    requires VmOk(s) && Step(s, Store(addr, v)).Done?
    ensures VmOk(Step(s, Store(addr, v)).vm)
  {
    if s.cur.Some? {
      AccessOk(s, addr);
      if Access(s, addr).Done? {
        StoreAtOk(Access(s, addr).vm, addr, v);
      }
    }
  }

  lemma StoreStepAgrees(s: Vm, fl: Flat, addr: nat, v: int)
    requires Agree(s, fl) && Step(s, Store(addr, v)).Done?
    ensures Agree(Step(s, Store(addr, v)).vm, FlatStep(fl, Store(addr, v)))
  {
    StoreStepOk(s, addr, v);
    if s.cur.Some? {
      AccessOk(s, addr);
      if Access(s, addr).Done? {
        var s1 := Access(s, addr).vm;
        StoreAtOk(s1, addr, v);
        SameViewShows(s.mem, s1.mem, fl);
        StoreShows(s1.mem, StoreAt(s1, addr, v).mem, fl, addr, v);
      }
    }
  }

  lemma LoadAgrees(s: Vm, fl: Flat, addr: nat)
    requires Agree(s, fl) && Step(s, Load(addr)).Done?
    ensures Agree(Step(s, Load(addr)).vm, fl)
    ensures Observe(s, Load(addr)) == FlatObserve(fl, Load(addr))
  {
    if s.cur.Some? {
      AccessOk(s, addr);
      if Access(s, addr).Done? {
        SameViewShows(s.mem, Access(s, addr).vm.mem, fl);
      }
    }
  }

  lemma SpawnAgrees(s: Vm, fl: Flat, pid: nat, a: AddrSpace)
    requires Agree(s, fl) && Legal(s, Spawn(pid, a))
    ensures Agree(Step(s, Spawn(pid, a)).vm, FlatStep(fl, Spawn(pid, a)))
  {
    SpawnOk(s, pid, a);
    SpawnShows(s.mem, fl, pid, a);
  }

  lemma ExitAgrees(s: Vm, fl: Flat, pid: nat)
    requires Agree(s, fl) && Legal(s, Exit(pid))
    ensures Agree(Step(s, Exit(pid)).vm, FlatStep(fl, Exit(pid)))
  {
    ExitOk(s, pid);
    ExitShows(s.mem, fl, pid);
  }

  lemma ActivateOk(s: Vm, pid: nat)
    requires VmOk(s) && Legal(s, Activate(pid))
    ensures VmOk(Step(s, Activate(pid)).vm)
  {
    hide MemOk;
  }

  /** Every translation in the TLB is one of the process. */
  ghost predicate OnlyOf(s: Vm, pid: nat) {
    forall i :: 0 <= i < |s.tlb.entries| && s.tlb.entries[i].Valid? ==>
      s.tlb.entries[i].frame < |s.mem.frames.owners| &&
      s.mem.frames.owners[s.tlb.entries[i].frame] == User(Key(pid, s.tlb.entries[i].vaddr))
  }

  /** After a switch the TLB holds nothing of another process. */
  lemma ActivatedOnly(s: Vm, pid: nat)
    requires VmOk(s) && pid in s.mem.spaces
    ensures OnlyOf(Activated(s, pid), pid)
  {
    if pid == s.tlb.lastpid {
      forall i | 0 <= i < |s.tlb.entries|
        ensures EntrySound(s.tlb.entries[i], s.mem, pid)
      {
      }
    }
  }

  lemma ActivateAgrees(s: Vm, fl: Flat, pid: nat)
    requires Agree(s, fl) && Legal(s, Activate(pid))
    ensures Agree(Step(s, Activate(pid)).vm, FlatStep(fl, Activate(pid)))
  {
    hide MemOk, TlbOk, Balanced;
    ActivateOk(s, pid);
  }

  lemma KernelAgrees(s: Vm, fl: Flat, e: Event)
    requires Agree(s, fl) && Legal(s, e) && (e.KAlloc? || e.KFree? || e.KWrite?)
    ensures Agree(Step(s, e).vm, fl)
  {
    KernelMemOk(s.mem, e, s);
    TlbFrame(s.tlb, s.mem, Step(s, e).vm.mem, s.cur);
    SameViewShows(s.mem, Step(s, e).vm.mem, fl);
  }

  lemma KernelStepOk(s: Vm, e: Event)
    requires VmOk(s) && Legal(s, e) && (e.KAlloc? || e.KFree? || e.KWrite?)
    ensures Step(s, e).Done? && VmOk(Step(s, e).vm)
  {
    KernelMemOk(s.mem, e, s);
    TlbFrame(s.tlb, s.mem, Step(s, e).vm.mem, s.cur);
  }

  /** Every legal step that does not stop the system keeps the invariant. */
  lemma StepOk(s: Vm, e: Event)
    requires VmOk(s) && Legal(s, e) && Step(s, e).Done?
    ensures VmOk(Step(s, e).vm)
  {
    hide MemOk, TlbSound, Balanced;
    match e {
      case Spawn(pid, a) => SpawnOk(s, pid, a);
      case Activate(pid) => ActivateOk(s, pid);
      case Idle =>
      case Load(addr) => if s.cur.Some? { AccessOk(s, addr); }
      case Store(addr, v) => StoreStepOk(s, addr, v);
      case Exit(pid) => ExitOk(s, pid);
      case _ => KernelStepOk(s, e);
    }
  }

  /** Every step does to the flat memory what it should, and loads deliver what it holds. */
  lemma StepAgrees(s: Vm, fl: Flat, e: Event)
    requires Agree(s, fl) && Legal(s, e) && Step(s, e).Done?
    ensures Agree(Step(s, e).vm, FlatStep(fl, e))
    ensures Observe(s, e) == FlatObserve(fl, e)
  {
    hide MemOk, TlbSound, Balanced;
    match e {
      case Spawn(pid, a) => SpawnAgrees(s, fl, pid, a);
      case Activate(pid) => ActivateAgrees(s, fl, pid);
      case Idle =>
      case Load(addr) => LoadAgrees(s, fl, addr);
      case Store(addr, v) => StoreStepAgrees(s, fl, addr, v);
      case Exit(pid) => ExitAgrees(s, fl, pid);
      case _ => KernelAgrees(s, fl, e);
    }
  }

  // ---------------------------------------------------------------------------------------
  // Whole runs
  // ---------------------------------------------------------------------------------------

  /** The state after boot. */
  ghost predicate Booted(s: Vm) {
    FramesOk(s.mem.frames) && |s.mem.ram| == |s.mem.frames.owners| > 0 && s.mem.frames.owners[0].Kernel? &&
    (forall f :: 0 <= f < |s.mem.ram| ==> !s.mem.frames.owners[f].User?) &&
    SwapOk(s.mem.swap) && (forall i :: 0 <= i < |s.mem.swap.slots| ==> s.mem.swap.slots[i].None?) &&
    s.mem.spaces == map[] && s.mem.flags == map[] && Shape(s.tlb) && TlbEmpty(s.tlb) &&
    s.cur == None && s.stats == NO_EVENTS
  }

  const NO_MEMORY: Flat := Flat(map[], map[], None)

  lemma BootOk(s: Vm)
    requires Booted(s)
    ensures Agree(s, NO_MEMORY)
  {
  }

  /** The states and loaded values of a run, unless an event was not legal or the system stopped
      for want of frames or swap space. */
  datatype Trace = Trace(states: seq<Vm>, loads: seq<Option<int>>) | Ended

  ghost function Run(s: Vm, es: seq<Event>): (r: Trace)
    requires VmOk(s)
    ensures r.Trace? ==> |r.states| == |es| + 1 && r.states[0] == s
    decreases |es|
  {
    if es == [] then Trace([s], [])
    else if !Legal(s, es[0]) || !Step(s, es[0]).Done? then Ended
    else
      StepOk(s, es[0]);
      match Run(Step(s, es[0]).vm, es[1..])
      case Ended => Ended
      case Trace(ss, ls) => Trace([s] + ss, [Observe(s, es[0])] + ls)
  }

  function FlatLoads(fl: Flat, es: seq<Event>): seq<Option<int>>
    decreases |es|
  {
    if es == [] then [] else [FlatObserve(fl, es[0])] + FlatLoads(FlatStep(fl, es[0]), es[1..])
  }

  function FlatAfter(fl: Flat, es: seq<Event>): Flat
    decreases |es|
  {
    if es == [] then fl else FlatAfter(FlatStep(fl, es[0]), es[1..])
  }

  lemma {:induction false} RunAgrees(s: Vm, fl: Flat, es: seq<Event>)
    requires Agree(s, fl)
    ensures var r := Run(s, es);
      r.Trace? ==> r.loads == FlatLoads(fl, es) && Agree(r.states[|es|], FlatAfter(fl, es))
    decreases |es|
  {
    if es != [] && Run(s, es).Trace? {
      StepAgrees(s, fl, es[0]);
      RunAgrees(Step(s, es[0]).vm, FlatStep(fl, es[0]), es[1..]);
    }
  }

  /** Paging is transparent: over every run after boot, every load delivers the value last stored
      there by the same process, or the first-load contents; and at the end every page of every
      live process, wherever it is, holds exactly that. */
  lemma PagingIsTransparent(s: Vm, es: seq<Event>)
    requires Booted(s)
    ensures VmOk(s)
    ensures var r := Run(s, es);
      r.Trace? ==> r.loads == FlatLoads(NO_MEMORY, es) && Agree(r.states[|es|], FlatAfter(NO_MEMORY, es))
  {
    BootOk(s);
    RunAgrees(s, NO_MEMORY, es);
  }

  /** Page table, residency, TLB and counter invariants hold in every state of every run. */
  lemma {:induction false} RunInvariant(s: Vm, es: seq<Event>, i: nat)
    requires VmOk(s) && Run(s, es).Trace? && i <= |es|
    ensures VmOk(Run(s, es).states[i])
    decreases |es|
  {
    if es != [] && i > 0 {
      StepOk(s, es[0]);
      RunInvariant(Step(s, es[0]).vm, es[1..], i - 1);
    }
  }

  // ---------------------------------------------------------------------------------------
  // TLB writes counted as free
  // ---------------------------------------------------------------------------------------

  /** The TLB just before the event writes to it, if it does. */
  ghost function WriteState(s: Vm, e: Event): Option<TlbState>
    requires VmOk(s)
  {
    if !(e.Load? || e.Store?) || s.cur.None? || Probe(s.tlb.entries, PageOf(e.addr)) >= 0 || !Access(s, e.addr).Done?
    then None
    else if ScanAddr(s.mem.frames.owners, Key(s.cur.value, PageOf(e.addr))) != 0 then Some(s.tlb)
    else
      AlwaysEvictReady(s.mem);
      match TakeFrame(s.mem)
      case Got(_, _, victim) => Some(DropVictim(s.tlb, victim))
      case Failed(_) => None
  }

  /** Whether the index has wrapped since the last flush, after the event. */
  ghost predicate WrappedBy(s: Vm, e: Event, wrapped: bool)
    requires VmOk(s)
  {
    (e.Activate? ==> e.pid == s.tlb.lastpid) &&
    (wrapped || (WriteState(s, e).Some? && Wraps(WriteState(s, e).value)))
  }

  /** Whether it has wrapped since the last flush, before event `i`. */
  ghost predicate WrappedAt(s: Vm, es: seq<Event>, i: nat, wrapped: bool)
    requires VmOk(s) && Run(s, es).Trace? && i <= |es|
    decreases |es|
  {
    if i == 0 then wrapped
    else
      StepOk(s, es[0]);
      WrappedAt(Step(s, es[0]).vm, es[1..], i - 1, WrappedBy(s, es[0], wrapped))
  }

  /** No hole is left between two events. */
  ghost predicate NoHole(t: TlbState, wrapped: bool) {
    Filled(t, wrapped) && t.invalidated < 0 && |t.entries| < WORD
  }

  lemma EmptyNoHole(n: nat)
    requires 0 < n
    ensures n < WORD ==> NoHole(TlbState(AllInvalid(n), 0, -1, 0), false)
  {
  }

  lemma WriteFilled(s: Vm, e: Event, wrapped: bool)
    requires VmOk(s) && NoHole(s.tlb, wrapped) && WriteState(s, e).Some?
    ensures Filled(WriteState(s, e).value, wrapped) && Shape(WriteState(s, e).value)
    ensures |WriteState(s, e).value.entries| == |s.tlb.entries|
  {
    if WriteState(s, e).value != s.tlb {
      AlwaysEvictReady(s.mem);
      DropFilled(s.tlb, wrapped, TakeFrame(s.mem).victim.value.vaddr);
    }
  }

  lemma AccessFilled(s: Vm, e: Event, wrapped: bool)
    requires VmOk(s) && (e.Load? || e.Store?) && s.cur.Some? && Access(s, e.addr).Done? && NoHole(s.tlb, wrapped)
    ensures NoHole(Access(s, e.addr).vm.tlb, WrappedBy(s, e, wrapped))
  {
    var k := Key(s.cur.value, PageOf(e.addr));
    AlwaysFaultReady(s, k.pid);
    hide MemOk, TlbOk, Filled, Fault, TakeFrame, PageIn, Probe;
    if Probe(s.tlb.entries, PageOf(e.addr)) < 0 {
      var owners, w := s.mem.frames.owners, Writable(s.mem.spaces[k.pid], k.vaddr);
      WriteFilled(s, e, wrapped);
      var t := WriteState(s, e).value;
      if ScanAddr(owners, k) != 0 {
        FaultHit(s, k);
        EnterFilled(t, wrapped, k.pid, k.vaddr, ScanAddr(owners, k) / PAGE_SIZE, w);
      } else {
        FaultMiss(s, k);
        EnterFilled(t, wrapped, k.pid, k.vaddr, TakeFrame(s.mem).frame, w);
      }
    }
  }

  lemma StepFilled(s: Vm, e: Event, wrapped: bool)
    requires VmOk(s) && Legal(s, e) && Step(s, e).Done? && NoHole(s.tlb, wrapped)
    ensures NoHole(Step(s, e).vm.tlb, WrappedBy(s, e, wrapped))
  {
    if e.Activate? {
      FlushFilled(s.tlb, wrapped, e.pid);
    } else if (e.Load? || e.Store?) && s.cur.Some? && Access(s, e.addr).Done? {
      AccessFilled(s, e, wrapped);
    }
  }

  /** Over every run: a write counted as one that found a free slot replaces a valid entry exactly if the TLB is full,
      and that is exactly if the 32-bit index has wrapped since the last flush and the write fills no hole. */
  lemma {:induction false} FreeWritesExact(s: Vm, es: seq<Event>, i: nat, wrapped: bool)
    requires VmOk(s) && NoHole(s.tlb, wrapped) && Run(s, es).Trace? && i < |es|
    ensures VmOk(Run(s, es).states[i])
    ensures var t := WriteState(Run(s, es).states[i], es[i]);
      t.Some? && CountsAsFree(t.value) ==>
        t.value.invalidated < |t.value.entries| &&
        (t.value.entries[Target(t.value)].Valid? <==> Full(t.value)) &&
        (Full(t.value) <==> WrappedAt(s, es, i, wrapped) && t.value.invalidated < 0)
    decreases |es|
  {
    hide VmOk, Filled, WriteState, Full;
    if i > 0 {
      StepOk(s, es[0]);
      StepFilled(s, es[0], wrapped);
      FreeWritesExact(Step(s, es[0]).vm, es[1..], i - 1, WrappedBy(s, es[0], wrapped));
    } else {
      var t := WriteState(s, es[0]);
      if t.Some? && CountsAsFree(t.value) {
        WriteFilled(s, es[0], wrapped);
        FreeWriteExact(t.value, wrapped);
      }
    }
  }

  lemma {:induction false} NeverWrapped(s: Vm, es: seq<Event>, i: nat)
    requires VmOk(s) && Run(s, es).Trace? && i <= |es|
    requires forall j :: 0 <= j < i ==> Run(s, es).states[j].tlb.index < WORD - 1
    ensures !WrappedAt(s, es, i, false)
    decreases |es|
  {
    hide MemOk, TlbOk, Balanced;
    if i > 0 {
      StepOk(s, es[0]);
      assert s == Run(s, es).states[0];
      var s' := Step(s, es[0]).vm;
      assert forall j :: 0 <= j < i - 1 ==> Run(s', es[1..]).states[j] == Run(s, es).states[j + 1];
      NeverWrapped(s', es[1..], i - 1);
    }
  }

  /** In particular none does before the index first reaches its maximum. */
  lemma FreeWritesNeverOverwrite(s: Vm, es: seq<Event>, i: nat)
    requires VmOk(s) && NoHole(s.tlb, false) && Run(s, es).Trace? && i < |es|
    requires forall j :: 0 <= j < i ==> Run(s, es).states[j].tlb.index < WORD - 1
    ensures VmOk(Run(s, es).states[i])
    ensures var t := WriteState(Run(s, es).states[i], es[i]);
      t.Some? && CountsAsFree(t.value) ==>
        t.value.invalidated < |t.value.entries| && t.value.entries[Target(t.value)].Invalid?
  {
    FreeWritesExact(s, es, i, false);
    NeverWrapped(s, es, i);
  }

  /** Nor does printvmstats ever warn, as it is or as it is meant. */
  lemma NeverWarns(s: Vm, es: seq<Event>, i: nat)
    requires VmOk(s) && Run(s, es).Trace? && i <= |es|
    ensures Warnings(Run(s, es).states[i].stats) == WarningsMeant(Run(s, es).states[i].stats) == [false, false, false]
  {
    RunInvariant(s, es, i);
    BalancedQuiet(Run(s, es).states[i].stats);
  }
}
