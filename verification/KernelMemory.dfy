/** The kernel heap on top of the paging system: kmalloc takes its pages from the page table that also holds the
    frames of the processes (kern/vm/kmalloc.c over kern/vm/coremap.c). */
module KernelMemory {
  import opened Basics
  import PageTable
  import Tlb
  import Paging
  import D = DemandPaging
  import H = Heap

  datatype World = World(heap: H.State, vm: D.Vm)

  /** `User` is anything the paging system does on its own; the rest of the kernel uses pages, too. */
  datatype Event =
    | Kmalloc(sz: nat)
    | Kfree(ptr: nat)
    | OtherAlloc(npages: nat)
    | OtherFree(frame: nat)
    | User(e: D.Event)

  /** The extents the heap knows of are those of the page table, and it does not use frame 0. */
  ghost predicate Tied(w: World) {
    w.heap.h.ext == H.KernelExtents(w.vm.mem.frames.owners) && !H.Owned(w.heap.h, H.FIRST_PAGE) &&
    forall ptr :: ptr in w.heap.live && w.heap.live[ptr].InPages? ==> ptr / H.PAGE_SIZE != H.FIRST_PAGE
  }

  ghost predicate Ok(w: World) {
    H.Ok(w.heap) && D.VmOk(w.vm) && Tied(w)
  }

  // ---------------------------------------------------------------------------------------
  // The page allocator
  // ---------------------------------------------------------------------------------------

  /** Page number of the pages that getfreeppages hands out for `n` pages. */
  ghost function PageFor(vm: D.Vm, n: nat): nat
    requires D.VmOk(vm) && D.Legal(vm, D.KAlloc(n))
  {
    H.FIRST_PAGE + D.LowestRun(vm.mem.frames.owners, n)
  }

  ghost function Grab(vm: D.Vm, n: nat): D.Vm
    requires D.VmOk(vm) && D.Legal(vm, D.KAlloc(n))
  {
    D.Granted(vm, n)
  }

  /** What getfreeppages hands out is a fresh extent, and the table then has exactly that one more. */
  lemma GrabOk(vm: D.Vm, n: nat)
    requires D.VmOk(vm) && D.Legal(vm, D.KAlloc(n))
    ensures D.VmOk(Grab(vm, n))
    ensures var ext := H.KernelExtents(vm.mem.frames.owners);
      H.FreshExtent(ext, PageFor(vm, n), n) && PageFor(vm, n) != H.FIRST_PAGE &&
      H.KernelExtents(Grab(vm, n).mem.frames.owners) == ext[PageFor(vm, n) := n]
  {
    hide D.VmOk, D.Legal, H.KernelExtents, H.FreshExtent, PageTable.FreeRun, D.Step, D.LowestRun;
    RunFound(vm, n);
    GrabStep(vm, n);
    D.KernelStepOk(vm, D.KAlloc(n));
    H.KernelExtentsMark(vm.mem.frames, D.LowestRun(vm.mem.frames.owners, n), n);
  }

  lemma RunFound(vm: D.Vm, n: nat)
    requires D.VmOk(vm) && D.Legal(vm, D.KAlloc(n))
    ensures var f := D.LowestRun(vm.mem.frames.owners, n);
      n > 0 && f > 0 && f < |vm.mem.frames.owners| && PageTable.FreeRun(vm.mem.frames.owners, f, n)
  {
    var f := D.LowestRun(vm.mem.frames.owners, n);
    assert PageTable.TrulyFree(vm.mem.frames.owners, f) && vm.mem.frames.owners[0].Kernel?;
  }

  lemma GrabStep(vm: D.Vm, n: nat)
    requires D.VmOk(vm) && D.Legal(vm, D.KAlloc(n))
    ensures D.Step(vm, D.KAlloc(n)) == D.Done(Grab(vm, n))
  {
  }

  lemma Heads(owners: seq<PageTable.Owner>, a: nat)
    ensures a in H.KernelExtents(owners) <==> H.IsHead(owners, a)
  {
  }

  ghost function Return(vm: D.Vm, a: nat): D.Vm
    requires D.VmOk(vm) && a > H.FIRST_PAGE && H.IsHead(vm.mem.frames.owners, a)
  {
    D.TakenBack(vm, a - H.FIRST_PAGE)
  }

  lemma ReturnStep(vm: D.Vm, a: nat)
    requires D.VmOk(vm) && a > H.FIRST_PAGE && H.IsHead(vm.mem.frames.owners, a)
    ensures D.Legal(vm, D.KFree(a - H.FIRST_PAGE))
    ensures D.Step(vm, D.KFree(a - H.FIRST_PAGE)) == D.Done(Return(vm, a))
  {
  }

  lemma ReturnOk(vm: D.Vm, a: nat)
    requires D.VmOk(vm) && a > H.FIRST_PAGE && H.IsHead(vm.mem.frames.owners, a)
    ensures D.VmOk(Return(vm, a))
    ensures H.KernelExtents(Return(vm, a).mem.frames.owners) == H.KernelExtents(vm.mem.frames.owners) - {a}
  {
    hide D.VmOk, D.Legal, H.KernelExtents, D.Step;
    ReturnStep(vm, a);
    D.KernelStepOk(vm, D.KFree(a - H.FIRST_PAGE));
    H.KernelExtentsUnmark(vm.mem.frames, a - H.FIRST_PAGE);
  }

  // ---------------------------------------------------------------------------------------
  // What processes do leaves kernel extents alone
  // ---------------------------------------------------------------------------------------

  ghost predicate SameKernel(o: seq<PageTable.Owner>, o': seq<PageTable.Owner>) {
    |o'| == |o| && forall f :: 0 <= f < |o| && (o[f].Kernel? || o'[f].Kernel?) ==> o'[f] == o[f]
  }

  lemma SameExtents(o: seq<PageTable.Owner>, o': seq<PageTable.Owner>)
    requires SameKernel(o, o')
    ensures H.KernelExtents(o') == H.KernelExtents(o)
  {
    forall a
      ensures H.IsHead(o', a) <==> H.IsHead(o, a)
    {
    }
  }

  lemma TakeFrameKernel(m: Paging.Mem)
    requires Paging.MemOk(m) && D.EvictReady(m) && D.TakeFrame(m).Got?
    ensures SameKernel(m.frames.owners, D.TakeFrame(m).mem.frames.owners)
  {
  }

  lemma PageInKernel(m: Paging.Mem, f: nat, k: PageTable.Key)
    requires Paging.PageIn.requires(m, f, k) && m.frames.owners[f].Free?
    ensures SameKernel(m.frames.owners, Paging.PageIn(m, f, k).frames.owners)
  {
  }

  lemma AccessKernel(vm: D.Vm, addr: nat)
    requires D.VmOk(vm) && vm.cur.Some? && D.Access(vm, addr).Done?
    ensures SameKernel(vm.mem.frames.owners, D.Access(vm, addr).vm.mem.frames.owners)
  {
    var k := PageTable.Key(vm.cur.value, D.PageOf(addr));
    D.AlwaysFaultReady(vm, k.pid);
    if Tlb.Probe(vm.tlb.entries, k.vaddr) < 0 && PageTable.ScanAddr(vm.mem.frames.owners, k) == 0 {
      assert !Paging.SegmentOf(vm.mem.spaces[k.pid], k.vaddr).Nowhere?;
      D.FaultMiss(vm, k);
      D.TakeFrameOk(vm.mem);
      var g := D.TakeFrame(vm.mem);
      TakeFrameKernel(vm.mem);
      hide D.VmOk, D.Fault, D.TakeFrame, Paging.PageIn;
      PageInKernel(g.mem, g.frame, k);
    }
  }

  predicate ByProcesses(e: D.Event) {
    !e.KAlloc? && !e.KFree?
  }

  lemma UserKernel(vm: D.Vm, e: D.Event)
    requires D.VmOk(vm) && D.Legal(vm, e) && D.Step(vm, e).Done? && ByProcesses(e)
    ensures SameKernel(vm.mem.frames.owners, D.Step(vm, e).vm.mem.frames.owners)
  {
    if (e.Load? || e.Store?) && vm.cur.Some? && D.Access(vm, e.addr).Done? {
      AccessKernel(vm, e.addr);
    }
  }

  // ---------------------------------------------------------------------------------------
  // Steps
  // ---------------------------------------------------------------------------------------

  /** The pages kmalloc would get, in the order it asks; `None` if the page table has no room for one of them. */
  ghost function GrabAll(vm: D.Vm, asked: seq<nat>): Option<(D.Vm, seq<nat>)>
    requires D.VmOk(vm)
    decreases |asked|
  {
    if asked == [] then Some((vm, []))
    else if !D.Legal(vm, D.KAlloc(asked[0])) then None
    else
      GrabOk(vm, asked[0]);
      match GrabAll(Grab(vm, asked[0]), asked[1..])
      case None => None
      case Some(r) => Some((r.0, [PageFor(vm, asked[0])] + r.1))
  }

  /** What kmalloc asks for, and whether pagerefs are left if it needs one. */
  ghost predicate CanAsk(h: H.Heap, sz: nat) {
    sz < 0x1_0000_0000 &&
    (sz < H.LARGEST_SUBPAGE_SIZE ==>
      H.Listed(h, H.TypeFor(sz)) && (H.Asked(h, sz) != [] ==> H.LowestUnused(h.pages, 0) < H.TOTAL_PAGEREFS))
  }

  function NthOr0(l: seq<nat>, i: nat): nat {
    if i < |l| then l[i] else 0
  }

  /** What follows when the heap is given the pages it asked for. */
  lemma GrabAllOk(vm: D.Vm, h: H.Heap, sz: nat)
    requires D.VmOk(vm) && h.ext == H.KernelExtents(vm.mem.frames.owners) && CanAsk(h, sz)
    requires GrabAll(vm, H.Asked(h, sz)).Some?
    ensures var r := GrabAll(vm, H.Asked(h, sz)).value;
      D.VmOk(r.0) && |r.1| == |H.Asked(h, sz)| && (forall a :: a in r.1 ==> a != H.FIRST_PAGE) &&
      H.KernelExtents(r.0.mem.frames.owners) == Grown(h.ext, H.Asked(h, sz), r.1) &&
      (|r.1| > 0 ==> H.FreshExtent(h.ext, r.1[0], H.Asked(h, sz)[0])) &&
      (|r.1| > 1 ==> H.FreshExtent(h.ext[r.1[0] := 1], r.1[1], 1))
  {
    var asked := H.Asked(h, sz);
    hide D.VmOk, D.Legal, H.KernelExtents, H.FreshExtent, CanAsk;
    if |asked| > 0 {
      GrabOk(vm, asked[0]);
      var vm1 := Grab(vm, asked[0]);
      assert GrabAll(vm1, asked[1..]).Some?;
      if |asked| > 1 {
        assert asked == [1, 1] && asked[1..] == [1] && asked[1..][1..] == [];
        GrabOk(vm1, 1);
        assert GrabAll(Grab(vm1, 1), []) == Some((Grab(vm1, 1), []));
        assert [PageFor(vm1, 1)] + [] == [PageFor(vm1, 1)];
        assert GrabAll(vm1, [1]) == Some((Grab(vm1, 1), [PageFor(vm1, 1)]));
      } else {
        assert asked[1..] == [];
        assert GrabAll(vm1, []) == Some((vm1, []));
      }
    }
  }

  /** Extents added in order. */
  function Grown(ext: map<nat, nat>, asked: seq<nat>, at: seq<nat>): map<nat, nat>
    requires |at| == |asked| <= 2
  {
    if |at| == 0 then ext else if |at| == 1 then ext[at[0] := asked[0]] else ext[at[0] := asked[0]][at[1] := asked[1]]
  }

  /** Neither the page table nor the pagerefs run out: kmalloc gets its pages and serves the request. */
  ghost function KmallocStep(w: World, sz: nat): Option<World>
    requires Ok(w)
  {
    if !CanAsk(w.heap.h, sz) then None
    else
      match GrabAll(w.vm, H.Asked(w.heap.h, sz))
      case None => None
      case Some(r) =>
        MallocLegal(w, sz);
        Some(World(H.Step(w.heap, MallocWith(sz, r.1)), r.0))
  }

  ghost function KfreeStep(w: World, ptr: nat): Option<World>
    requires Ok(w)
  {
    if ptr !in w.heap.live then None
    else
      FreeLegal(w, ptr);
      var a := H.GivenUp(w.heap, ptr);
      Some(World(H.Step(w.heap, H.Free(ptr)), if a.None? then w.vm else Return(w.vm, a.value)))
  }

  ghost function OtherAllocStep(w: World, n: nat): Option<World>
    requires Ok(w)
  {
    if !D.Legal(w.vm, D.KAlloc(n)) then None
    else
      GrabOk(w.vm, n);
      Some(World(H.Step(w.heap, H.OtherAlloc(PageFor(w.vm, n), n)), Grab(w.vm, n)))
  }

  ghost predicate CanFree(w: World, f: nat) {
    D.Legal(w.vm, D.KFree(f)) && !H.Owned(w.heap.h, H.FIRST_PAGE + f) &&
    (H.FIRST_PAGE + f) * H.PAGE_SIZE !in w.heap.live
  }

  lemma OtherFreeLegal(w: World, f: nat)
    requires Ok(w) && CanFree(w, f)
    ensures H.IsHead(w.vm.mem.frames.owners, H.FIRST_PAGE + f) && f > 0
    ensures H.Legal(w.heap, H.OtherFree(H.FIRST_PAGE + f))
  {
    hide H.Ok, D.VmOk, H.Owned, H.KernelExtents;
    Heads(w.vm.mem.frames.owners, H.FIRST_PAGE + f);
  }

  ghost function OtherFreeStep(w: World, f: nat): Option<World>
    requires Ok(w)
  {
    if !CanFree(w, f) then None
    else
      OtherFreeLegal(w, f);
      Some(World(H.Step(w.heap, H.OtherFree(H.FIRST_PAGE + f)), Return(w.vm, H.FIRST_PAGE + f)))
  }

  ghost function UserStep(w: World, u: D.Event): Option<World>
    requires Ok(w)
  {
    if !ByProcesses(u) || !D.Legal(w.vm, u) || !D.Step(w.vm, u).Done? then None
    else Some(w.(vm := D.Step(w.vm, u).vm))
  }

  ghost function Step(w: World, e: Event): Option<World>
    requires Ok(w)
  {
    match e
    case Kmalloc(sz) => KmallocStep(w, sz)
    case Kfree(ptr) => KfreeStep(w, ptr)
    case OtherAlloc(n) => OtherAllocStep(w, n)
    case OtherFree(f) => OtherFreeStep(w, f)
    case User(u) => UserStep(w, u)
  }

  function MallocWith(sz: nat, at: seq<nat>): H.Event {
    H.Malloc(sz, NthOr0(at, 0), NthOr0(at, 1))
  }

  lemma MallocLegal(w: World, sz: nat)
    requires Ok(w) && CanAsk(w.heap.h, sz) && GrabAll(w.vm, H.Asked(w.heap.h, sz)).Some?
    ensures H.Legal(w.heap, MallocWith(sz, GrabAll(w.vm, H.Asked(w.heap.h, sz)).value.1))
  {
    hide H.Ok, D.VmOk, H.FreshExtent, H.KernelExtents;
    GrabAllOk(w.vm, w.heap.h, sz);
  }

  lemma FreeLegal(w: World, ptr: nat)
    requires Ok(w) && ptr in w.heap.live
    ensures H.Legal(w.heap, H.Free(ptr))
    ensures var a := H.GivenUp(w.heap, ptr);
      a.Some? ==> a.value > H.FIRST_PAGE && H.IsHead(w.vm.mem.frames.owners, a.value)
  {
    hide D.VmOk, H.KernelExtents, H.IsHead;
    LeaseGivenUp(w.heap, ptr);
    var a := H.GivenUp(w.heap, ptr);
    if a.Some? {
      Heads(w.vm.mem.frames.owners, a.value);
      hide H.Ok, H.Holds, H.Owned;
      AboveFirst(w.vm.mem.frames.owners, a.value);
    }
  }

  lemma AboveFirst(owners: seq<PageTable.Owner>, a: nat)
    requires H.IsHead(owners, a) && a != H.FIRST_PAGE
    ensures a > H.FIRST_PAGE
  {
  }

  /** A page given up is an extent of its own that is not frame 0. */
  lemma LeaseGivenUp(s: H.State, ptr: nat)
    requires H.Ok(s) && ptr in s.live
    ensures H.Legal(s, H.Free(ptr))
    ensures var a := H.GivenUp(s, ptr);
      a.Some? ==> a.value in s.h.ext && (s.live[ptr].InBlock? ==> H.Owned(s.h, a.value)) &&
                  (s.live[ptr].InPages? ==> a.value == ptr / H.PAGE_SIZE)
  {
    var l, h := s.live[ptr], s.h;
    assert H.Holds(h, ptr, l) && H.HeapOk(h) && |h.sized| == H.NSIZES;
    hide H.LiveOk, H.ListsOk, H.PageOk, H.ExtentsOk, H.BlockAddr;
    if l.InBlock? {
      assert H.Owned(h, H.PageNo(h.pages[l.p]));
    }
  }

  // ---------------------------------------------------------------------------------------
  // Every step keeps heap, page table and their connection
  // ---------------------------------------------------------------------------------------

  /** Pages and pageref pages are where they were, but for those in `at`. */
  ghost predicate OwnsMore(h: H.Heap, h': H.Heap, at: seq<nat>) {
    forall a :: H.Owned(h', a) ==> H.Owned(h, a) || a in at
  }

  lemma FoundExtents(h: H.Heap, t: nat, page: nat, ref: nat)
    requires H.Listed(h, t) && H.FirstWithFree(h.pages, h.sized[t]) < |h.sized[t]|
    ensures var h' := H.SubMalloc(h, t, page, ref);
      h'.ext == h.ext && OwnsMore(h, h', [])
  {
    var p := H.ChosenPage(h, t);
    assert p in h.sized[t];
    var h' := H.SubMalloc(h, t, page, ref);
    assert forall q :: q in h'.pages ==> q in h.pages && H.PageNo(h'.pages[q]) == H.PageNo(h.pages[q]);
  }

  lemma RootOwned(h: H.Heap, r: nat, ref: nat)
    ensures OwnsMore(h, H.WithRoot(h, r, ref), if r in h.roots then [] else [ref])
  {
  }

  lemma NewOwned(h: H.Heap, p: nat, page: nat, t: nat)
    requires t < H.NSIZES && t < |h.sized|
    ensures var h' := H.TakeNew(h, p, page * H.PAGE_SIZE, t);
      h'.ext == h.ext[page := 1] && OwnsMore(h, h', [page])
  {
    var h' := H.TakeNew(h, p, page * H.PAGE_SIZE, t);
    assert page * H.PAGE_SIZE / H.PAGE_SIZE == page;
    assert forall q :: q in h'.pages && q != p ==> q in h.pages && h'.pages[q] == h.pages[q];
    assert H.PageNo(h'.pages[p]) == page;
  }

  lemma FreshExtents(h: H.Heap, t: nat, page: nat, ref: nat)
    requires H.Listed(h, t) && H.FirstWithFree(h.pages, h.sized[t]) == |h.sized[t]|
    ensures var h', r := H.SubMalloc(h, t, page, ref), H.LowestUnused(h.pages, 0) / H.NPAGEREFS_PER_PAGE;
      h'.ext == (if r in h.roots then h.ext[page := 1] else h.ext[ref := 1][page := 1]) &&
      OwnsMore(h, h', if r in h.roots then [page] else [page, ref])
  {
    hide H.Owned, H.TakeNew, H.LowestUnused;
    var p := H.LowestUnused(h.pages, 0);
    var r := p / H.NPAGEREFS_PER_PAGE;
    RootOwned(h, r, ref);
    NewOwned(H.WithRoot(h, r, ref), p, page, t);
  }

  /** The extents and owned pages after a request. */
  lemma MallocExtents(s: H.State, sz: nat, at: seq<nat>)
    requires CanAsk(s.h, sz) && |at| == |H.Asked(s.h, sz)| && H.Legal(s, MallocWith(sz, at))
    requires |at| > 1 ==> at[0] != at[1]
    ensures var s' := H.Step(s, MallocWith(sz, at));
      s'.h.ext == Grown(s.h.ext, H.Asked(s.h, sz), at) && OwnsMore(s.h, s'.h, at)
  {
    var h, page, ref := s.h, NthOr0(at, 0), NthOr0(at, 1);
    if sz < H.LARGEST_SUBPAGE_SIZE {
      var t := H.TypeFor(sz);
      hide H.SubMalloc, H.CanServe, H.Owned, H.TypeFor;
      if H.FirstWithFree(h.pages, h.sized[t]) < |h.sized[t]| {
        FoundExtents(h, t, page, ref);
      } else {
        FreshExtents(h, t, page, ref);
        if |at| == 1 {
          assert at == [page];
        } else {
          assert at == [page, ref];
          assert h.ext[ref := 1][page := 1] == h.ext[page := 1][ref := 1];
        }
      }
    }
  }

  /** Whole pages are only ever held where the page allocator put them. */
  lemma MallocPages(s: H.State, sz: nat, at: seq<nat>, ptr: nat)
    requires CanAsk(s.h, sz) && |at| == |H.Asked(s.h, sz)| && H.Legal(s, MallocWith(sz, at))
    requires var s' := H.Step(s, MallocWith(sz, at)); ptr in s'.live && s'.live[ptr].InPages?
    ensures (ptr in s.live && s.live[ptr].InPages?) || ptr / H.PAGE_SIZE in at
  {
    hide H.SubMalloc, H.Listed, H.TypeFor, H.FirstWithFree;
    if sz >= H.LARGEST_SUBPAGE_SIZE {
      assert at[0] * H.PAGE_SIZE / H.PAGE_SIZE == at[0];
    }
  }

  lemma KmallocOk(w: World, sz: nat)
    requires Ok(w) && KmallocStep(w, sz).Some?
    ensures Ok(KmallocStep(w, sz).value)
  {
    var r := GrabAll(w.vm, H.Asked(w.heap.h, sz)).value;
    hide H.Ok, D.VmOk, H.Owned, H.KernelExtents, GrabAll, H.Step, H.Legal, CanAsk, Grown;
    MallocLegal(w, sz);
    GrabAllOk(w.vm, w.heap.h, sz);
    H.StepOk(w.heap, MallocWith(sz, r.1));
    assert |r.1| > 1 ==> r.1[0] != r.1[1] by {
      if |r.1| > 1 {
        OtherPlace(w.heap.h.ext, r.1[0], r.1[1]);
      }
    }
    MallocExtents(w.heap, sz, r.1);
    var s' := H.Step(w.heap, MallocWith(sz, r.1));
    forall ptr | ptr in s'.live && s'.live[ptr].InPages?
      ensures ptr / H.PAGE_SIZE != H.FIRST_PAGE
    {
      MallocPages(w.heap, sz, r.1, ptr);
    }
  }

  lemma OtherPlace(ext: map<nat, nat>, a: nat, b: nat)
    requires H.FreshExtent(ext[a := 1], b, 1)
    ensures a != b
  {
    assert a in ext[a := 1];
  }

  lemma FreeExtents(s: H.State, ptr: nat)
    requires H.Legal(s, H.Free(ptr))
    ensures var s', a := H.Step(s, H.Free(ptr)), H.GivenUp(s, ptr);
      s'.h.ext == (if a.None? then s.h.ext else s.h.ext - {a.value}) &&
      OwnsMore(s.h, s'.h, []) && s'.live == s.live - {ptr}
  {
    var s' := H.Step(s, H.Free(ptr));
    assert forall q :: q in s'.h.pages ==> q in s.h.pages && H.PageNo(s'.h.pages[q]) == H.PageNo(s.h.pages[q]);
  }

  lemma KfreeOk(w: World, ptr: nat)
    requires Ok(w) && KfreeStep(w, ptr).Some?
    ensures Ok(KfreeStep(w, ptr).value)
  {
    FreeLegal(w, ptr);
    hide H.Ok, D.VmOk, H.Owned, H.KernelExtents, H.Step, H.Legal, H.GivenUp, H.IsHead;
    H.StepOk(w.heap, H.Free(ptr));
    FreeExtents(w.heap, ptr);
    var a := H.GivenUp(w.heap, ptr);
    if a.Some? {
      ReturnOk(w.vm, a.value);
    }
  }

  lemma OtherAllocOk(w: World, n: nat)
    requires Ok(w) && OtherAllocStep(w, n).Some?
    ensures Ok(OtherAllocStep(w, n).value)
  {
    hide H.Ok, D.VmOk, H.KernelExtents, H.FreshExtent;
    GrabOk(w.vm, n);
    H.StepOk(w.heap, H.OtherAlloc(PageFor(w.vm, n), n));
  }

  lemma OtherFreeOk(w: World, f: nat)
    requires Ok(w) && OtherFreeStep(w, f).Some?
    ensures Ok(OtherFreeStep(w, f).value)
  {
    hide H.Ok, D.VmOk, H.KernelExtents;
    Heads(w.vm.mem.frames.owners, H.FIRST_PAGE + f);
    ReturnOk(w.vm, H.FIRST_PAGE + f);
    H.StepOk(w.heap, H.OtherFree(H.FIRST_PAGE + f));
  }

  lemma UserOk(w: World, u: D.Event)
    requires Ok(w) && UserStep(w, u).Some?
    ensures Ok(UserStep(w, u).value)
  {
    hide H.Ok, H.Owned, H.KernelExtents;
    D.StepOk(w.vm, u);
    UserKernel(w.vm, u);
    SameExtents(w.vm.mem.frames.owners, D.Step(w.vm, u).vm.mem.frames.owners);
  }

  lemma StepOk(w: World, e: Event)
    requires Ok(w) && Step(w, e).Some?
    ensures Ok(Step(w, e).value)
  {
    hide Ok, KmallocStep, KfreeStep, OtherAllocStep, OtherFreeStep, UserStep;
    match e {
      case Kmalloc(sz) => KmallocOk(w, sz);
      case Kfree(ptr) => KfreeOk(w, ptr);
      case OtherAlloc(n) => OtherAllocOk(w, n);
      case OtherFree(f) => OtherFreeOk(w, f);
      case User(u) => UserOk(w, u);
    }
  }

  // ---------------------------------------------------------------------------------------
  // Runs
  // ---------------------------------------------------------------------------------------

  /** The state after a run, unless the kernel ran out of pages or an event was not possible. */
  ghost function After(w: World, es: seq<Event>): Option<World>
    requires Ok(w)
    decreases |es|
  {
    if es == [] then Some(w)
    else if Step(w, es[0]).None? then None
    else
      StepOk(w, es[0]);
      After(Step(w, es[0]).value, es[1..])
  }

  /** What the loads of processes deliver in a run. */
  ghost function Loads(w: World, es: seq<Event>): seq<Option<int>>
    requires Ok(w) && After(w, es).Some?
    decreases |es|
  {
    if es == [] then []
    else
      StepOk(w, es[0]);
      (if es[0].User? then [D.Observe(w.vm, es[0].e)] else []) + Loads(Step(w, es[0]).value, es[1..])
  }

  function UserEvents(es: seq<Event>): seq<D.Event> {
    if es == [] then [] else (if es[0].User? then [es[0].e] else []) + UserEvents(es[1..])
  }

  /** After boot the heap is empty, and the kernel image takes up the low frames. */
  ghost function Start(vm: D.Vm): World {
    World(H.State(H.EMPTY.(ext := H.KernelExtents(vm.mem.frames.owners)), map[]), vm)
  }

  lemma StartOk(vm: D.Vm)
    requires D.Booted(vm)
    ensures Ok(Start(vm)) && D.Agree(vm, D.NO_MEMORY)
  {
    hide D.VmOk, H.KernelExtents, H.ExtentsOk, PageTable.FramesOk, D.Shows;
    D.BootOk(vm);
    H.KernelExtentsOk(vm.mem.frames);
    EmptyOk(H.KernelExtents(vm.mem.frames.owners));
  }

  lemma EmptyOk(ext: map<nat, nat>)
    requires H.ExtentsOk(ext)
    ensures H.Ok(H.State(H.EMPTY.(ext := ext), map[])) && !H.Owned(H.EMPTY.(ext := ext), H.FIRST_PAGE)
  {
  }

  lemma GrabAgrees(vm: D.Vm, fl: D.Flat, n: nat)
    requires D.Agree(vm, fl) && D.Legal(vm, D.KAlloc(n))
    ensures D.Agree(Grab(vm, n), fl)
  {
    GrabStep(vm, n);
    hide D.VmOk, D.Shows, D.Step;
    D.KernelAgrees(vm, fl, D.KAlloc(n));
  }

  lemma {:induction false} GrabAllAgrees(vm: D.Vm, fl: D.Flat, asked: seq<nat>)
    requires D.Agree(vm, fl) && GrabAll(vm, asked).Some?
    ensures D.Agree(GrabAll(vm, asked).value.0, fl)
    decreases |asked|
  {
    hide D.VmOk, D.Shows;
    if asked != [] {
      GrabAgrees(vm, fl, asked[0]);
      GrabAllAgrees(Grab(vm, asked[0]), fl, asked[1..]);
    }
  }

  lemma ReturnAgrees(vm: D.Vm, fl: D.Flat, a: nat)
    requires D.Agree(vm, fl) && a > H.FIRST_PAGE && H.IsHead(vm.mem.frames.owners, a)
    ensures D.Agree(Return(vm, a), fl)
  {
    ReturnStep(vm, a);
    hide D.VmOk, D.Shows, D.Step;
    D.KernelAgrees(vm, fl, D.KFree(a - H.FIRST_PAGE));
  }

  /** To processes only their own events show. */
  lemma StepAgrees(w: World, fl: D.Flat, e: Event)
    requires Ok(w) && D.Agree(w.vm, fl) && Step(w, e).Some?
    ensures D.Agree(Step(w, e).value.vm, if e.User? then D.FlatStep(fl, e.e) else fl)
    ensures e.User? ==> D.Observe(w.vm, e.e) == D.FlatObserve(fl, e.e)
  {
    hide D.VmOk, D.Shows, H.Ok, Tied, GrabAll, D.Agree, D.Step, H.Step;
    match e {
      case Kmalloc(sz) => GrabAllAgrees(w.vm, fl, H.Asked(w.heap.h, sz));
      case Kfree(ptr) =>
        FreeLegal(w, ptr);
        var a := H.GivenUp(w.heap, ptr);
        if a.Some? {
          ReturnAgrees(w.vm, fl, a.value);
        }
      case OtherAlloc(n) => GrabAgrees(w.vm, fl, n);
      case OtherFree(f) => ReturnAgrees(w.vm, fl, H.FIRST_PAGE + f);
      case User(u) => D.StepAgrees(w.vm, fl, u);
    }
  }

  lemma {:induction false} RunAgrees(w: World, fl: D.Flat, es: seq<Event>)
    requires Ok(w) && D.Agree(w.vm, fl) && After(w, es).Some?
    ensures Ok(After(w, es).value) && Loads(w, es) == D.FlatLoads(fl, UserEvents(es))
    ensures D.Agree(After(w, es).value.vm, D.FlatAfter(fl, UserEvents(es)))
    decreases |es|
  {
    hide Ok, D.Agree, Step;
    if es != [] {
      StepOk(w, es[0]);
      StepAgrees(w, fl, es[0]);
      var rest := UserEvents(es[1..]);
      RunAgrees(Step(w, es[0]).value, if es[0].User? then D.FlatStep(fl, es[0].e) else fl, es[1..]);
      assert es[0].User? ==> UserEvents(es)[0] == es[0].e && UserEvents(es)[1..] == rest;
      assert !es[0].User? ==> UserEvents(es) == rest;
    }
  }

  /** A frame of a process keeps clear of everything kernel clients hold. */
  lemma UserApart(w: World, ptr: nat, f: nat)
    requires Ok(w) && ptr in w.heap.live && f < |w.vm.mem.frames.owners| && w.vm.mem.frames.owners[f].User?
    ensures OffFrame(w, ptr, f)
  {
    var h, l, t := w.heap.h, w.heap.live[ptr], w.vm.mem.frames;
    assert H.HeapOk(h) && H.Holds(h, ptr, l) && PageTable.FramesOk(t);
    hide H.HeapOk, H.Holds, D.VmOk, H.Room, PageTable.FramesOk;
    H.InsideExtent(h, ptr, l);
    var a := H.ExtentOf(h, ptr, l);
    hide H.ExtentOf, H.KernelExtents;
    NoUserInside(t, a, f);
    PagesApart(a, h.ext[a], H.FIRST_PAGE + f);
  }

  lemma NoUserInside(t: PageTable.Frames, a: nat, f: nat)
    requires PageTable.FramesOk(t) && f < |t.owners| && t.owners[f].User? && a in H.KernelExtents(t.owners)
    ensures !(a <= H.FIRST_PAGE + f < a + H.KernelExtents(t.owners)[a])
  {
    if a <= H.FIRST_PAGE + f < a + H.KernelExtents(t.owners)[a] {
      PageTable.ExtentsDisjoint(t, a - H.FIRST_PAGE, f, f);
    }
  }

  lemma PagesApart(a: nat, n: nat, g: nat)
    requires !(a <= g < a + n)
    ensures (g + 1) * H.PAGE_SIZE <= a * H.PAGE_SIZE || (a + n) * H.PAGE_SIZE <= g * H.PAGE_SIZE
  {
  }

  ghost predicate Beside(w: World, ptr: nat, other: nat)
    requires ptr in w.heap.live && other in w.heap.live
  {
    var h, live := w.heap.h, w.heap.live;
    H.Holds(h, ptr, live[ptr]) && H.Holds(h, other, live[other]) &&
    (ptr + H.Room(h, ptr, live[ptr]) <= other || other + H.Room(h, other, live[other]) <= ptr)
  }

  ghost predicate OffFrame(w: World, ptr: nat, f: nat)
    requires ptr in w.heap.live
  {
    H.Holds(w.heap.h, ptr, w.heap.live[ptr]) &&
    ((H.FIRST_PAGE + f + 1) * H.PAGE_SIZE <= ptr ||
     ptr + H.Room(w.heap.h, ptr, w.heap.live[ptr]) <= (H.FIRST_PAGE + f) * H.PAGE_SIZE)
  }

  /** All that the client of `ptr` holds keeps clear of what other clients hold and of every frame of a process. */
  ghost predicate Clear(w: World, ptr: nat)
    requires ptr in w.heap.live
  {
    (forall other :: other in w.heap.live && other != ptr ==> Beside(w, ptr, other)) &&
    (forall f :: 0 <= f < |w.vm.mem.frames.owners| && w.vm.mem.frames.owners[f].User? ==> OffFrame(w, ptr, f))
  }

  lemma AlwaysClear(w: World, ptr: nat)
    requires Ok(w) && ptr in w.heap.live
    ensures Clear(w, ptr)
  {
    hide H.HeapOk, H.Block, H.Big, D.VmOk, Tied;
    forall other | other in w.heap.live && other != ptr
      ensures Beside(w, ptr, other)
    {
      H.LiveDisjoint(w.heap, ptr, other);
    }
    forall f | 0 <= f < |w.vm.mem.frames.owners| && w.vm.mem.frames.owners[f].User?
      ensures OffFrame(w, ptr, f)
    {
      UserApart(w, ptr, f);
    }
  }

  /** Over every run of the kernel heap on the page table: the extents the heap relies on are those of the page table,
      what clients hold is clear of each other and of every frame of a process, and the loads of processes are those of
      flat memory. */
  lemma KernelMemorySafe(vm: D.Vm, es: seq<Event>)
    requires D.Booted(vm)
    ensures Ok(Start(vm))
    ensures var r := After(Start(vm), es);
      r.Some? ==>
        Loads(Start(vm), es) == D.FlatLoads(D.NO_MEMORY, UserEvents(es)) &&
        r.value.heap.h.ext == H.KernelExtents(r.value.vm.mem.frames.owners) &&
        forall ptr :: ptr in r.value.heap.live ==> Clear(r.value, ptr)
  {
    hide H.Ok, D.VmOk, Clear, H.KernelExtents;
    StartOk(vm);
    if After(Start(vm), es).Some? {
      RunAgrees(Start(vm), D.NO_MEMORY, es);
      var w := After(Start(vm), es).value;
      forall ptr | ptr in w.heap.live
        ensures Clear(w, ptr)
      {
        AlwaysClear(w, ptr);
      }
    }
  }
}
