/** The imperative paging code: coremap.c, vm_fault, as_destroy and as_activate, over the page
    table, swap, TLB and counter objects, each method proved against the step it stands for. */
module Machine {
  import opened Basics
  import opened PageTable
  import opened Paging
  import opened Tlb
  import opened SwapFile
  import opened DemandPaging

  datatype AllocResult = Frame(paddr: nat) | Panic(why: Reason)

  datatype FaultResult = Zero | EFAULT | Halt(why: Reason)

  /** Why getfreeppages panics: no user page to evict, swap space full, or its spinlock not held at the end. */
  datatype KernelPanic = NoSpace | NoSwap | NotHeld

  datatype KernelResult = Pages(paddr: nat) | Panicked(why: KernelPanic)

  /** A page goes to swap space and out of the TLB; false when swap space is full. */
  method SavePage(swap: SwapDevice, tlb: TlbUnit, stats: VmStats, k: Key, contents: Page) returns (ok: bool)
    requires swap.Valid() && stats.Valid()
    modifies swap, swap.swappagesmap, swap.file, tlb, tlb.entries, stats.counter
    ensures swap.Valid() && stats.Valid()
    ensures ok == SwapIn(old(swap.Model()), k, contents).Some?
    ensures ok ==> swap.Model() == SwapIn(old(swap.Model()), k, contents).value
    ensures ok ==> tlb.Model() == DropPage(old(tlb.Model()), k.vaddr)
    ensures ok ==> stats.Model() == Bump(old(stats.Model()), SWAPWRITE)
  {
    ok := swap.SwapInPage(k.pid, k.vaddr, contents);
    if ok {
      stats.Incr(SWAPWRITE);
      tlb.InvalidatePage(k.pid, k.vaddr);
    }
  }

  /** The victim of allocuserpage is saved to swap space, dropped from the TLB and freed. */
  method EvictFirst(table: Table, ram: array<Page>, swap: SwapDevice, tlb: TlbUnit, stats: VmStats)
    returns (ok: bool, f: nat, k: Key)
    requires table.Valid() && swap.Valid() && stats.Valid() && table.fifo != [] && ram.Length == table.pt.Length
    requires ram != swap.file && table.hashed as object != stats.counter
    modifies table, table.pt, table.hashed, swap, swap.swappagesmap, swap.file, tlb, tlb.entries, stats.counter
    ensures table.Valid() && swap.Valid() && stats.Valid()
    ensures var t := old(table.Model());
      f == t.fifo[0] && f < |t.owners| && f in t.fifo && t.owners[f] == User(k) && f < ram.Length
    ensures ok == SwapIn(old(swap.Model()), k, old(ram[f])).Some?
    ensures ok ==> swap.Model() == SwapIn(old(swap.Model()), k, old(ram[f])).value
    ensures ok ==> table.Model() == Uninstall(old(table.Model()), f)
    ensures ok ==> tlb.Model() == DropPage(old(tlb.Model()), k.vaddr)
    ensures ok ==> stats.Model() == Bump(old(stats.Model()), SWAPWRITE)
  {
    var pid, vaddr, readfrom;
    f, pid, vaddr, readfrom := table.Victim();
    k := Key(pid, vaddr);
    var i := readfrom / PAGE_SIZE;
    assert i == f;
    ok := SavePage(swap, tlb, stats, k, ram[i]);
    if ok {
      var found := table.FreeUser(pid, vaddr);
    }
  }

  /** A free frame if there is one, else the longest-resident page makes room for the new one. */
  method FindFrame(table: Table, ram: array<Page>, swap: SwapDevice, tlb: TlbUnit, stats: VmStats, ghost m: Mem,
                   ghost g: Allocated)
    returns (r: AllocResult)
    requires table.Valid() && swap.Valid() && stats.Valid() && ram.Length == table.pt.Length
    requires ram != swap.file && table.hashed as object != stats.counter
    requires m.frames == table.Model() && m.ram == ram[..] && m.swap == swap.Model() && EvictReady(m)
    requires g == TakeFrame(m)
    modifies table, table.pt, table.hashed, swap, swap.swappagesmap, swap.file, tlb, tlb.entries, stats.counter
    ensures table.Valid() && swap.Valid() && stats.Valid()
    ensures r.Panic? <==> g.Failed?
    ensures r.Panic? ==> r.why == g.why
    ensures r.Frame? ==> r.paddr == g.frame * PAGE_SIZE
    ensures r.Frame? ==> table.Model() == g.mem.frames && swap.Model() == g.mem.swap
    ensures r.Frame? ==> tlb.Model() == DropVictim(old(tlb.Model()), g.victim)
    ensures r.Frame? ==> stats.Model() == VictimStats(old(stats.Model()), g.victim)
  {
    var ind := GetFreeFrames(table.pt, 1);
    LowestRunUnique(m.frames.owners, 1, ind);
    if ind != -1 {
      return Frame(ind * PAGE_SIZE);
    }
    if table.firstvictim == NULL {
      return Panic(NoFrame);
    }
    var ok, f, k := EvictFirst(table, ram, swap, tlb, stats);
    return if ok then Frame(f * PAGE_SIZE) else Panic(SwapFull);
  }

  /** allocuserpage. */
  method AllocUserPage(table: Table, ram: array<Page>, swap: SwapDevice, tlb: TlbUnit, stats: VmStats, k: Key,
                       ghost m: Mem, ghost g: Allocated)
    returns (r: AllocResult)
    requires table.Valid() && swap.Valid() && stats.Valid() && ram.Length == table.pt.Length
    requires ram != swap.file && table.hashed as object != stats.counter
    requires m.frames == table.Model() && m.ram == ram[..] && m.swap == swap.Model() && EvictReady(m)
    requires g == TakeFrame(m)
    requires k.pid > 0
    requires g.Got? ==> TrulyFree(g.mem.frames.owners, g.frame)
    requires g.Got? ==> User(k) !in g.mem.frames.owners
    modifies table, table.pt, table.hashed, swap, swap.swappagesmap, swap.file, tlb, tlb.entries, stats.counter
    ensures table.Valid() && swap.Valid() && stats.Valid()
    ensures r.Panic? <==> g.Failed?
    ensures r.Panic? ==> r.why == g.why
    ensures r.Frame? ==> r.paddr == g.frame * PAGE_SIZE
    ensures r.Frame? ==> table.Model() == Install(g.mem.frames, g.frame, k)
    ensures r.Frame? ==> swap.Model() == g.mem.swap
    ensures r.Frame? ==> tlb.Model() == DropVictim(old(tlb.Model()), g.victim)
    ensures r.Frame? ==> stats.Model() == VictimStats(old(stats.Model()), g.victim)
  {
    r := FindFrame(table, ram, swap, tlb, stats, m, g);
    if r.Frame? {
      var ind := r.paddr / PAGE_SIZE;
      assert ind == g.frame;
      table.SetPtEntry(ind, 1, k.pid, k.vaddr);
    }
  }

  /** The page comes back from swap space, if it is there. */
  method FillFromSwap(ram: array<Page>, swap: SwapDevice, stats: VmStats, k: Key, f: nat)
    requires swap.Valid() && stats.Valid() && ram != swap.file && f < ram.Length
    modifies ram, swap.swappagesmap, stats.counter
    ensures swap.Valid() && stats.Valid()
    ensures var w := old(swap.Model());
      var i := IndexOf(w.slots, Some(k));
      if i == |w.slots| then ram[..] == old(ram[..]) && swap.Model() == w
      else ram[..] == old(ram[..])[f := w.pages[i]] && swap.Model() == w.(slots := w.slots[i := None])
    ensures stats.Model() == Bump(Bump(old(stats.Model()), PAGEFAULTDISK), PAGEFAULTSWAP)
  {
    var page := swap.SwapOutPage(k.pid, k.vaddr);
    if page.Some? {
      ram[f] := page.value;
    }
    stats.Incr(PAGEFAULTDISK);
    stats.Incr(PAGEFAULTSWAP);
  }

  /** The first load of a page: its part of the ELF file, or zeros. */
  method FillFirst(ram: array<Page>, swap: SwapDevice, stats: VmStats, a: AddrSpace, vaddr: nat, f: nat)
    requires swap.Valid() && stats.Valid() && ram != swap.file && f < ram.Length && !SegmentOf(a, vaddr).Nowhere?
    modifies ram, stats.counter
    ensures swap.Valid() && stats.Valid() && swap.Model() == old(swap.Model())
    ensures ram[..] == old(ram[..])[f := FirstLoad(a, vaddr)]
    ensures stats.Model() ==
      if Seg(a, SegmentOf(a, vaddr)).stack then Bump(old(stats.Model()), PAGEFAULTZERO)
      else Bump(Bump(old(stats.Model()), PAGEFAULTDISK), PAGEFAULTELF)
  {
    if !Seg(a, SegmentOf(a, vaddr)).stack {
      var e := Seg(a, ElfSegmentOf(a, vaddr));
      ram[f] := e.file(vaddr - e.base + e.offset);
      stats.Incr(PAGEFAULTDISK);
      stats.Incr(PAGEFAULTELF);
    } else {
      ram[f] := ZEROS;
      stats.Incr(PAGEFAULTZERO);
    }
  }

  /** The parts of memory after a page-in, by where the page comes from. */
  lemma PageInParts(m: Mem, f: nat, k: Key)
    requires PageIn.requires(m, f, k)
    ensures var a, fl, m', i := m.spaces[k.pid], m.flags[k.pid], PageIn(m, f, k), IndexOf(m.swap.slots, Some(k));
      if !IsLoaded(a, fl, k.vaddr) then
        m'.ram == m.ram[f := FirstLoad(a, k.vaddr)] && m'.swap == m.swap &&
        m'.flags == m.flags[k.pid := SetLoaded(a, fl, k.vaddr)]
      else
        m'.flags == m.flags[k.pid := fl] &&
        (i == |m.swap.slots| ==> m'.ram == m.ram && m'.swap == m.swap) &&
        (i < |m.swap.slots| ==>
          m'.ram == m.ram[f := m.swap.pages[i]] && m'.swap == m.swap.(slots := m.swap.slots[i := None]))
  {
    assert m.flags[k.pid := m.flags[k.pid]] == m.flags;
  }

  /** Brings the contents of page `k` into frame `f`: the middle part of vm_fault. */
  method FillFrame(ram: array<Page>, swap: SwapDevice, stats: VmStats, a: AddrSpace, fl: Flags, k: Key, f: nat,
                   ghost m: Mem)
    returns (fl': Flags)
    requires swap.Valid() && stats.Valid() && ram != swap.file && f < ram.Length
    requires FlagsOk(a, fl) && !SegmentOf(a, k.vaddr).Nowhere?
    requires m.ram == ram[..] && m.swap == swap.Model() && |m.frames.owners| == |m.ram|
    requires k.pid in m.spaces && k.pid in m.flags && m.spaces[k.pid] == a && m.flags[k.pid] == fl
    modifies ram, swap.swappagesmap, stats.counter
    ensures swap.Valid() && stats.Valid()
    ensures ram[..] == PageIn(m, f, k).ram && swap.Model() == PageIn(m, f, k).swap
    ensures PageIn(m, f, k).flags == m.flags[k.pid := fl']
    ensures stats.Model() == PageInStats(a, fl, k.vaddr, old(stats.Model()))
  {
    PageInParts(m, f, k);
    hide PageIn, FirstLoad, SetLoaded, IsLoaded, Bump;
    fl' := fl;
    if IsLoaded(a, fl, k.vaddr) {
      FillFromSwap(ram, swap, stats, k, f);
    } else {
      FillFirst(ram, swap, stats, a, k.vaddr, f);
      fl' := SetLoaded(a, fl, k.vaddr);
    }
  }

  /** The part of vm_fault for a page that is not resident: `m` becomes `m'`. */
  method ServeMiss(table: Table, ram: array<Page>, swap: SwapDevice, tlb: TlbUnit, stats: VmStats,
                   a: AddrSpace, fl: Flags, k: Key, ghost m: Mem, ghost g: Allocated, ghost m': Mem)
    returns (r: AllocResult, fl': Flags)
    requires table.Valid() && swap.Valid() && stats.Valid() && ram.Length == table.pt.Length
    requires ram != swap.file && table.hashed as object != stats.counter
    requires m.frames == table.Model() && m.ram == ram[..] && m.swap == swap.Model()
    requires EvictReady(m) && g == TakeFrame(m) && k.pid > 0 && FlagsOk(a, fl) && !SegmentOf(a, k.vaddr).Nowhere?
    requires g.Got? ==> TrulyFree(g.mem.frames.owners, g.frame) && User(k) !in g.mem.frames.owners
    requires k.pid in m.spaces && k.pid in m.flags && m.spaces[k.pid] == a && m.flags[k.pid] == fl
    requires g.Got? ==> PageIn.requires(g.mem, g.frame, k) && m' == PageIn(g.mem, g.frame, k)
    modifies table, table.pt, table.hashed, ram, swap, swap.swappagesmap, swap.file, tlb, tlb.entries, stats.counter
    ensures table.Valid() && swap.Valid() && stats.Valid()
    ensures r.Panic? <==> g.Failed?
    ensures r.Panic? ==> r.why == g.why
    ensures r.Frame? ==> r.paddr == g.frame * PAGE_SIZE
    ensures r.Frame? ==> table.Model() == m'.frames && ram[..] == m'.ram && swap.Model() == m'.swap
    ensures r.Frame? ==> m.flags[k.pid := fl'] == m'.flags && m.spaces == m'.spaces
    ensures r.Frame? ==> tlb.Model() == DropVictim(old(tlb.Model()), g.victim)
    ensures r.Frame? ==> stats.Model() == PageInStats(a, fl, k.vaddr, VictimStats(old(stats.Model()), g.victim))
  {
    fl' := fl;
    r := AllocUserPage(table, ram, swap, tlb, stats, k, m, g);
    if r.Frame? {
      var f := r.paddr / PAGE_SIZE;
      assert f == g.frame;
      fl' := FillFrame(ram, swap, stats, a, fl, k, f, g.mem);
    }
  }

  /** The rest of vm_fault for a page that is not resident: page in, then enter it in the TLB. */
  method MissAndEnter(table: Table, ram: array<Page>, swap: SwapDevice, tlb: TlbUnit, stats: VmStats,
                      a: AddrSpace, fl: Flags, k: Key, ghost m: Mem, ghost g: Allocated, ghost m': Mem)
    returns (r: FaultResult, fl': Flags)
    requires table.Valid() && swap.Valid() && stats.Valid() && ram.Length == table.pt.Length
    requires ram != swap.file && table.hashed as object != stats.counter && Shape(tlb.Model())
    requires m.frames == table.Model() && m.ram == ram[..] && m.swap == swap.Model()
    requires EvictReady(m) && g == TakeFrame(m) && k.pid > 0 && FlagsOk(a, fl) && !SegmentOf(a, k.vaddr).Nowhere?
    requires g.Got? ==> TrulyFree(g.mem.frames.owners, g.frame) && User(k) !in g.mem.frames.owners
    requires k.pid in m.spaces && k.pid in m.flags && m.spaces[k.pid] == a && m.flags[k.pid] == fl
    requires g.Got? ==> PageIn.requires(g.mem, g.frame, k) && m' == PageIn(g.mem, g.frame, k)
    modifies table, table.pt, table.hashed, ram, swap, swap.swappagesmap, swap.file, tlb, tlb.entries, stats.counter
    ensures table.Valid() && swap.Valid() && stats.Valid()
    ensures g.Failed? ==> r == Halt(g.why)
    ensures g.Got? ==> r == Zero
    ensures g.Got? ==> table.Model() == m'.frames && ram[..] == m'.ram && swap.Model() == m'.swap
    ensures g.Got? ==> m.flags[k.pid := fl'] == m'.flags && m.spaces == m'.spaces
    ensures g.Got? ==>
      tlb.Model() == Enter(DropVictim(old(tlb.Model()), g.victim), k.pid, k.vaddr, g.frame, Writable(a, k.vaddr))
    ensures g.Got? ==>
      stats.Model() == Bump(PageInStats(a, fl, k.vaddr, VictimStats(old(stats.Model()), g.victim)),
                            FaultKind(DropVictim(old(tlb.Model()), g.victim)))
  {
    hide Table.Valid, Table.Model, SwapDevice.Valid, SwapDevice.Model, TakeFrame, PageIn, PageInStats;
    var q;
    q, fl' := ServeMiss(table, ram, swap, tlb, stats, a, fl, k, m, g, m');
    if q.Panic? {
      return Halt(q.why), fl';
    }
    var f := q.paddr / PAGE_SIZE;
    assert f == g.frame;
    tlb.Write(k.pid, k.vaddr, f, Writable(a, k.vaddr), stats);
    r := Zero;
  }

  /** What vm_fault relies on: a page that is not resident is nowhere in the table, and the frame
      it would get is free. */
  ghost predicate CanFault(s: Vm, k: Key) {
    FaultReady(s, k.pid) && k.pid > 0 &&
    (!SegmentOf(s.mem.spaces[k.pid], k.vaddr).Nowhere? && ScanAddr(s.mem.frames.owners, k) == 0 ==>
      var g := TakeFrame(s.mem);
      g.Got? ==> TrulyFree(g.mem.frames.owners, g.frame) && User(k) !in g.mem.frames.owners)
  }

  lemma FaultBad(s: Vm, k: Key)
    requires FaultReady(s, k.pid)
    ensures Fault(s, k.pid, k.vaddr).BadAddress? <==> SegmentOf(s.mem.spaces[k.pid], k.vaddr).Nowhere?
  {
  }

  /** In every state of every run the current process can fault. */
  lemma AlwaysCanFault(s: Vm, k: Key)
    requires VmOk(s) && k.pid in s.mem.spaces && k.vaddr % PAGE_SIZE == 0
    ensures CanFault(s, k)
  {
    AlwaysFaultReady(s, k.pid);
    if !SegmentOf(s.mem.spaces[k.pid], k.vaddr).Nowhere? && ScanAddr(s.mem.frames.owners, k) == 0 {
      ScanZero(s.mem, k);
      TakeFrameOk(s.mem);
      if TakeFrame(s.mem).Got? {
        TakeFrameResident(s.mem, k);
      }
    }
  }

  /** The fault is counted and the page looked up. */
  method LookUp(table: Table, stats: VmStats, k: Key) returns (paddr: nat)
    requires table.Valid() && stats.Valid() && k.pid > 0 && table.hashed as object != stats.counter
    modifies stats.counter
    ensures table.Valid() && table.Model() == old(table.Model())
    ensures paddr == ScanAddr(table.Model().owners, k) && stats.Model() == Bump(old(stats.Model()), TLBFAULT)
  {
    stats.Incr(TLBFAULT);
    paddr := table.PageAddr(k.pid, k.vaddr);
  }

  /** A page that is resident only has to be entered in the TLB again. */
  method HitAndEnter(table: Table, tlb: TlbUnit, stats: VmStats, k: Key, f: nat, w: bool)
    requires table.Valid() && stats.Valid() && Shape(tlb.Model()) && table.hashed as object != stats.counter
    modifies tlb, tlb.entries, stats.counter
    ensures table.Valid() && table.Model() == old(table.Model())
    ensures tlb.Model() == Enter(old(tlb.Model()), k.pid, k.vaddr, f, w)
    ensures stats.Model() == Bump(Bump(old(stats.Model()), TLBRELOAD), FaultKind(old(tlb.Model())))
  {
    stats.Incr(TLBRELOAD);
    tlb.Write(k.pid, k.vaddr, f, w, stats);
  }

  /** The whole of vm_fault for a page of a segment. */
  method ServeFault(table: Table, ram: array<Page>, swap: SwapDevice, tlb: TlbUnit, stats: VmStats,
                    a: AddrSpace, fl: Flags, k: Key, ghost s: Vm, ghost o: Outcome)
    returns (r: FaultResult, fl': Flags)
    requires table.Valid() && swap.Valid() && stats.Valid() && ram.Length == table.pt.Length
    requires ram != swap.file && table.hashed as object != stats.counter
    requires s.mem.frames == table.Model() && s.mem.ram == ram[..] && s.mem.swap == swap.Model()
    requires s.tlb == tlb.Model() && s.stats == stats.Model()
    requires CanFault(s, k) && a == s.mem.spaces[k.pid] && fl == s.mem.flags[k.pid]
    requires !SegmentOf(a, k.vaddr).Nowhere? && o == Fault(s, k.pid, k.vaddr)
    modifies table, table.pt, table.hashed, ram, swap, swap.swappagesmap, swap.file, tlb, tlb.entries, stats.counter
    ensures table.Valid() && swap.Valid() && stats.Valid()
    ensures o.Stopped? ==> r == Halt(o.why)
    ensures o.Done? ==> r == Zero && o.vm.cur == s.cur && o.vm.tlb == tlb.Model() && o.vm.stats == stats.Model()
    ensures o.Done? ==> o.vm.mem.frames == table.Model() && o.vm.mem.ram == ram[..] && o.vm.mem.swap == swap.Model()
    ensures o.Done? ==> o.vm.mem.spaces == s.mem.spaces && o.vm.mem.flags == s.mem.flags[k.pid := fl']
  {
    hide TakeFrame, PageIn, Enter, Fault, PageInStats, DropVictim, VictimStats, Bump, Writable;
    hide Table.Valid, SwapDevice.Valid, TlbUnit.Model, SwapDevice.Model, Table.Model;
    var paddr := LookUp(table, stats, k);
    if paddr == 0 {
      ghost var g := TakeFrame(s.mem);
      r, fl' := MissAndEnter(table, ram, swap, tlb, stats, a, fl, k, s.mem, g,
                             if g.Got? then PageIn(g.mem, g.frame, k) else s.mem);
      FaultMiss(s, k);
    } else {
      HitAndEnter(table, tlb, stats, k, paddr / PAGE_SIZE, Writable(a, k.vaddr));
      fl' := fl;
      r := Zero;
      FaultHit(s, k);
      assert s.mem.flags[k.pid := fl] == s.mem.flags;
    }
  }

  /** removeptentries: frees every frame of the process, one freeuser at a time. */
  method RemovePtEntries(table: Table, pid: nat)
    requires table.Valid() && pid > 0
    modifies table, table.pt, table.hashed
    ensures table.Valid() && table.Model() == ReleaseFrames(old(table.Model()), pid, table.pt.Length)
  {
    ghost var t := table.Model();
    ReleaseFramesNone(t, pid);
    for i := 0 to table.pt.Length
      invariant table.Valid() && table.Model() == ReleaseFrames(t, pid, i)
    {
      ReleaseRound(t, pid, i);
      if table.pt[i].pid == pid {
        var found := table.FreeUser(pid, table.pt[i].vaddr);
      }
    }
  }

  /** One round frees frame `i` if the process owns it, and nothing else. */
  lemma ReleaseRound(t: Frames, pid: nat, i: nat)
    requires FramesOk(t) && i < |t.owners|
    ensures var t' := ReleaseFrames(t, pid, i);
      t'.owners[i] == t.owners[i] &&
      (!OwnedBy(t.owners[i], pid) ==> ReleaseFrames(t, pid, i + 1) == t') &&
      (OwnedBy(t.owners[i], pid) ==>
        IndexOf(t'.owners, t.owners[i]) == i && i in t'.fifo && ReleaseFrames(t, pid, i + 1) == Uninstall(t', i))
  {
    ReleaseFramesOk(t, pid, i);
    ReleaseFramesStep(t, pid, i);
  }

  /** The state that boot sets up. */
  lemma BootState(s: Vm, ptsize: nat, firstfree: nat, ntlb: nat)
    requires 0 < firstfree <= ptsize == |s.mem.ram| && ntlb > 0
    requires s.mem.frames == Frames(seq(ptsize, i => if i < firstfree then Kernel(1) else Free), [])
    requires |s.mem.swap.pages| == |s.mem.swap.slots| > 0 && s.mem.swap.maxind == 0
    requires forall i :: 0 <= i < |s.mem.swap.slots| ==> s.mem.swap.slots[i].None?
    requires s.tlb == TlbState(AllInvalid(ntlb), 0, -1, 0)
    requires s.mem.spaces == map[] && s.mem.flags == map[] && s.cur == None && s.stats == NO_EVENTS
    ensures Booted(s)
  {
  }

  class Vmm {
    const table: Table
    const ram: array<Page>
    const swap: SwapDevice
    const tlb: TlbUnit
    const stats: VmStats
    var spaces: map<nat, AddrSpace>
    var flags: map<nat, Flags>
    var cur: Option<nat>

    /** The parts do not share storage, and each is well formed. */
    ghost predicate Valid()
      reads this, table, table.pt, table.hashed, swap, swap.swappagesmap, stats.counter
    {
      ram != swap.file && ram.Length == table.pt.Length &&
      table.hashed as object != stats.counter &&
      table.Valid() && swap.Valid() && stats.Valid()
    }

    ghost function Memory(): Mem
      reads this, table, table.pt, ram, swap, swap.swappagesmap, swap.file
    {
      Mem(table.Model(), ram[..], swap.Model(), spaces, flags)
    }

    ghost function Model(): Vm
      requires Valid()
      reads this, table, table.pt, table.hashed, ram, swap, swap.swappagesmap, swap.file, tlb, tlb.entries,
            stats.counter
    {
      Vm(Memory(), tlb.Model(), cur, stats.Model())
    }

    /** vm_bootstrap: frames below `firstfree` belong to the kernel, everything else is empty. */
    constructor (ptsize: nat, hashedptsize: nat, firstfree: nat, swappages: nat, ntlb: nat)
      requires hashedptsize > 0 && 0 < firstfree <= ptsize && swappages > 0 && ntlb > 0
      ensures Valid() && Booted(Model()) && (ntlb < WORD ==> NoHole(Model().tlb, false))
    {
      table := new Table(ptsize, hashedptsize, firstfree);
      ram := new Page[ptsize](_ => ZEROS);
      swap := new SwapDevice(swappages);
      tlb := new TlbUnit(ntlb);
      stats := new VmStats();
      spaces, flags, cur := map[], map[], None;
      new;
      hide NoHole, Table.Valid, Table.Model, TlbUnit.Model, Booted;
      EmptyNoHole(ntlb);
      BootState(Model(), ptsize, firstfree, ntlb);
    }

    /** pageaddr: 0 stands for "not resident". */
    method PageAddr(pid: nat, addr: nat) returns (paddr: nat)
      requires Valid() && pid > 0
      ensures paddr == ScanAddr(Memory().frames.owners, Key(pid, addr))
    {
      paddr := table.PageAddr(pid, addr);
    }

    /** vm_fault for a read or write fault of the current process. */
    method VmFault(faultaddress: nat) returns (r: FaultResult)
      requires Valid() && cur.Some? && CanFault(Model(), Key(cur.value, PageOf(faultaddress)))
      modifies this, table, table.pt, table.hashed, ram, swap, swap.swappagesmap, swap.file, tlb, tlb.entries,
               stats.counter
      ensures Valid()
      ensures match Fault(old(Model()), old(cur).value, PageOf(faultaddress)) {
        case Done(vm) => r == Zero && Model() == vm
        case BadAddress => r == EFAULT && Model() == old(Model())
        case Stopped(why) => r == Halt(why)
      }
    {
      ghost var s := Model();
      var pid := cur.value;
      var k := Key(pid, PageOf(faultaddress));
      FaultBad(s, k);
      hide Fault, TakeFrame, Table.Valid, Table.Model, SwapDevice.Valid, SwapDevice.Model, TlbUnit.Model;
      var a, fl := spaces[pid], flags[pid];
      if SegmentOf(a, k.vaddr).Nowhere? {
        return EFAULT;
      }
      var fl';
      r, fl' := ServeFault(table, ram, swap, tlb, stats, a, fl, k, s, Fault(s, pid, k.vaddr));
      flags := flags[pid := fl'];
    }

    /** getfreeppages: the lowest run of free frames becomes a kernel extent. Without one the kernel never gets its
        pages: the eviction branch goes on with index -1 and releases a spinlock it has already released. */
    method GetFreePpages(npages: nat) returns (r: KernelResult)
      requires Valid()
      modifies table, table.pt, table.hashed, swap, swap.swappagesmap, swap.file, tlb, tlb.entries, stats.counter
      ensures Valid()
      ensures var m := old(Memory());
        var ind := LowestRun(m.frames.owners, npages);
        if ind != -1 then
          r == Pages(ind * PAGE_SIZE) && Memory() == m.(frames := MarkKernel(m.frames, ind, npages)) &&
          tlb.Model() == old(tlb.Model()) && stats.Model() == old(stats.Model())
        else r == Panicked(if m.frames.fifo == [] then NoSpace else if None in m.swap.slots then NotHeld else NoSwap)
    {
      ghost var m := Memory();
      var ind := GetFreeFrames(table.pt, npages);
      LowestRunUnique(m.frames.owners, npages, ind);
      if ind == -1 {
        if table.firstvictim == NULL {
          return Panicked(NoSpace);
        }
        var ok, _, _ := EvictFirst(table, ram, swap, tlb, stats);
        return Panicked(if ok then NotHeld else NoSwap);
      }
      table.SetPtEntry(ind, npages, 0, ind * PAGE_SIZE);
      return Pages(ind * PAGE_SIZE);
    }

    /** free_kpages on the head of a kernel extent. */
    method FreeKpages(paddr: nat)
      requires Valid() && paddr / PAGE_SIZE < table.pt.Length && Memory().frames.owners[paddr / PAGE_SIZE].Kernel?
      modifies table.pt
      ensures Valid() && Memory() == old(Memory()).(frames := UnmarkKernel(old(Memory()).frames, paddr / PAGE_SIZE))
    {
      table.FreeKernel(paddr / PAGE_SIZE);
    }

    /** as_activate: the TLB is flushed unless `pid` filled it. */
    method AsActivate(pid: nat)
      requires Valid()
      modifies this, tlb, tlb.entries, stats.counter
      ensures Valid() && Model() == Activated(old(Model()), pid)
      ensures VmOk(old(Model())) && pid in spaces ==> VmOk(Model()) && OnlyOf(Model(), pid)
    {
      hide VmOk, Table.Valid, Table.Model, SwapDevice.Valid, SwapDevice.Model, OnlyOf;
      ghost var s := Model();
      tlb.Invalidate(pid, stats);
      cur := Some(pid);
      if VmOk(s) && pid in s.mem.spaces {
        ActivateOk(s, pid);
        ActivatedOnly(s, pid);
      }
    }

    /** as_destroy: flags, frames and swap slots of the process go; the TLB is left alone. */
    method AsDestroy(pid: nat)
      requires Valid() && pid > 0
      modifies this, table, table.pt, table.hashed, swap.swappagesmap
      ensures Valid() && Memory() == Release(old(Memory()), pid)
      ensures cur == if old(cur) == Some(pid) then None else old(cur)
    {
      RemovePtEntries(table, pid);
      swap.RemoveSwapEntries(pid);
      spaces, flags := spaces - {pid}, flags - {pid};
      if cur == Some(pid) {
        cur := None;
      }
    }
  }
}
