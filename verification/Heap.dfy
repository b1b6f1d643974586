/** The kernel heap of kern/vm/kmalloc.c as a value: which blocks of which pages are free, the two
    families of page lists, and the page extents underneath. */
module Heap {
  import opened Basics
  import PageTable

  const PAGE_SIZE: nat := PageTable.PAGE_SIZE
  const NSIZES: nat := 8
  const SIZES: seq<nat> := [16, 32, 64, 128, 256, 512, 1024, 2048]
  const LARGEST_SUBPAGE_SIZE: nat := 2048

  const NPAGEREFS_PER_PAGE: nat := 256
  const NUM_PAGEREFPAGES: nat := 16
  const TOTAL_PAGEREFS: nat := 4096

  function SizeOf(t: nat): (s: nat)
    requires t < NSIZES
    ensures 16 <= s <= LARGEST_SUBPAGE_SIZE
  {
    SIZES[t]
  }

  /** Blocks of type `t` on a page. */
  function PerPage(t: nat): (n: nat)
    requires t < NSIZES
    ensures n >= 2 && n * SizeOf(t) == PAGE_SIZE
  {
    PAGE_SIZE / SizeOf(t)
  }

  /** A heap page: its address, block type, and the indices of its free blocks in list order. */
  datatype HPage = HPage(addr: nat, typ: nat, free: seq<nat>)

  /** `pages` are the pagerefs in use, `all` and `sized` the lists they are on, `roots` the pages that hold
      pagerefs, and `ext` the live extents of the page allocator: first page number to page count. */
  datatype Heap = Heap(pages: map<nat, HPage>, all: seq<nat>, sized: seq<seq<nat>>, roots: map<nat, nat>,
                       ext: map<nat, nat>)

  ghost predicate PageOk(g: HPage) {
    g.typ < NSIZES && g.addr % PAGE_SIZE == 0 && Distinct(g.free) && |g.free| < PerPage(g.typ) &&
    forall i :: i in g.free ==> i < PerPage(g.typ)
  }

  /** Both families of lists hold the pagerefs in use, each once. */
  ghost predicate ListsOk(h: Heap) {
    Distinct(h.all) && (forall p :: p in h.all <==> p in h.pages) && |h.sized| == NSIZES &&
    forall t :: 0 <= t < NSIZES ==> SizedOk(h, t)
  }

  ghost predicate SizedOk(h: Heap, t: nat)
    requires t < |h.sized|
  {
    Distinct(h.sized[t]) && forall p :: p in h.sized[t] <==> p in h.pages && h.pages[p].typ == t
  }

  /** Extents of the page allocator do not overlap. */
  ghost predicate ExtentsOk(ext: map<nat, nat>) {
    (forall a :: a in ext ==> a > 0 && ext[a] > 0) &&
    forall a, b :: a in ext && b in ext && a < b ==> a + ext[a] <= b
  }

  ghost predicate FreshExtent(ext: map<nat, nat>, a: nat, n: nat) {
    a > 0 && n > 0 && forall b :: b in ext ==> a + n <= b || b + ext[b] <= a
  }

  function PageNo(g: HPage): nat {
    g.addr / PAGE_SIZE
  }

  /** Heap pages and pageref pages are extents of their own, all different. */
  ghost predicate OwnershipOk(h: Heap) {
    (forall p :: p in h.pages ==> p < TOTAL_PAGEREFS && p / NPAGEREFS_PER_PAGE in h.roots) &&
    (forall p :: p in h.pages ==> PageNo(h.pages[p]) in h.ext && h.ext[PageNo(h.pages[p])] == 1) &&
    (forall r :: r in h.roots ==> r < NUM_PAGEREFPAGES && h.roots[r] in h.ext && h.ext[h.roots[r]] == 1) &&
    (forall p, q :: p in h.pages && q in h.pages && p != q ==> PageNo(h.pages[p]) != PageNo(h.pages[q])) &&
    (forall r, s :: r in h.roots && s in h.roots && r != s ==> h.roots[r] != h.roots[s]) &&
    (forall p, r :: p in h.pages && r in h.roots ==> PageNo(h.pages[p]) != h.roots[r])
  }

  ghost predicate HeapOk(h: Heap) {
    (forall p :: p in h.pages ==> PageOk(h.pages[p])) && ListsOk(h) && ExtentsOk(h.ext) && OwnershipOk(h)
  }

  // ---------------------------------------------------------------------------------------
  // Blocks
  // ---------------------------------------------------------------------------------------

  function BlockAddr(g: HPage, i: nat): nat
    requires g.typ < NSIZES
  {
    g.addr + i * SizeOf(g.typ)
  }

  /** `ptr` is the allocated block `i` of page `p`. */
  ghost predicate Block(h: Heap, ptr: nat, p: nat, i: nat) {
    p in h.pages && h.pages[p].typ < NSIZES && i < PerPage(h.pages[p].typ) && i !in h.pages[p].free &&
    ptr == BlockAddr(h.pages[p], i)
  }

  /** Page number `a` holds a heap page or pagerefs. */
  ghost predicate Owned(h: Heap, a: nat) {
    (exists p :: p in h.pages && PageNo(h.pages[p]) == a) || (exists r :: r in h.roots && h.roots[r] == a)
  }

  /** `ptr` is a whole-page allocation. */
  ghost predicate Big(h: Heap, ptr: nat) {
    ptr % PAGE_SIZE == 0 && ptr / PAGE_SIZE in h.ext && !Owned(h, ptr / PAGE_SIZE)
  }

  /** A block lies within its page. */
  lemma BlockInside(g: HPage, i: nat)
    requires PageOk(g) && i < PerPage(g.typ)
    ensures g.addr <= BlockAddr(g, i) && BlockAddr(g, i) + SizeOf(g.typ) <= g.addr + PAGE_SIZE
  {
  }

  /** Blocks of one page do not overlap. */
  lemma BlocksApart(g: HPage, i: nat, j: nat)
    requires g.typ < NSIZES && i < j
    ensures BlockAddr(g, i) + SizeOf(g.typ) <= BlockAddr(g, j)
  {
  }

  /** The index of a block from its offset, as kfree computes it. */
  lemma BlockIndex(g: HPage, i: nat)
    requires g.typ < NSIZES
    ensures (BlockAddr(g, i) - g.addr) / SizeOf(g.typ) == i && (BlockAddr(g, i) - g.addr) % SizeOf(g.typ) == 0
  {
  }

  /** What a client holds: block `i` of page `p`, or whole pages; and the size it asked for. */
  datatype Lease = InBlock(p: nat, i: nat, size: nat) | InPages(size: nat)

  /** The heap with its clients: `live` maps the pointers they hold to what is behind them. */
  datatype State = State(h: Heap, live: map<nat, Lease>)

  ghost predicate Holds(h: Heap, ptr: nat, l: Lease) {
    match l
    case InBlock(p, i, n) => Block(h, ptr, p, i) && n <= SizeOf(h.pages[p].typ)
    case InPages(n) => Big(h, ptr) && n <= h.ext[ptr / PAGE_SIZE] * PAGE_SIZE
  }

  /** Every lease is honoured, and a block is on the free list of its page exactly when nobody holds it. */
  ghost predicate LiveOk(s: State) {
    (forall ptr :: ptr in s.live ==> Holds(s.h, ptr, s.live[ptr])) &&
    (forall ptr, p, i :: Block(s.h, ptr, p, i) ==> ptr in s.live)
  }

  ghost predicate Ok(s: State) {
    HeapOk(s.h) && LiveOk(s)
  }

  // ---------------------------------------------------------------------------------------
  // Safety of a state
  // ---------------------------------------------------------------------------------------

  lemma PageStart(g: HPage)
    requires PageOk(g)
    ensures PageNo(g) * PAGE_SIZE == g.addr
  {
  }

  /** The extent of the page allocator that a lease lies in. */
  function ExtentOf(h: Heap, ptr: nat, l: Lease): nat
    requires l.InBlock? ==> l.p in h.pages
  {
    if l.InBlock? then PageNo(h.pages[l.p]) else ptr / PAGE_SIZE
  }

  /** The bytes behind a lease, whether asked for or not: the whole block, or all pages of the extent. */
  function Room(h: Heap, ptr: nat, l: Lease): (n: nat)
    requires l.InBlock? ==> l.p in h.pages && h.pages[l.p].typ < NSIZES
    requires l.InPages? ==> ptr / PAGE_SIZE in h.ext
  {
    if l.InBlock? then SizeOf(h.pages[l.p].typ) else h.ext[ptr / PAGE_SIZE] * PAGE_SIZE
  }

  lemma InsideExtent(h: Heap, ptr: nat, l: Lease)
    requires HeapOk(h) && Holds(h, ptr, l)
    ensures l.size <= Room(h, ptr, l) && Room(h, ptr, l) > 0
    ensures var a := ExtentOf(h, ptr, l);
      a in h.ext && a * PAGE_SIZE <= ptr && ptr + Room(h, ptr, l) <= (a + h.ext[a]) * PAGE_SIZE
  {
    if l.InBlock? {
      hide ListsOk, Distinct;
      PageStart(h.pages[l.p]);
      BlockInside(h.pages[l.p], l.i);
    }
  }

  lemma ExtentsApart(ext: map<nat, nat>, a: nat, b: nat)
    requires ExtentsOk(ext) && a in ext && b in ext && a < b
    ensures (a + ext[a]) * PAGE_SIZE <= b * PAGE_SIZE
  {
  }

  lemma SameExtent(h: Heap, ptr: nat, l: Lease, ptr': nat, l': Lease)
    requires HeapOk(h) && Holds(h, ptr, l) && Holds(h, ptr', l') && ExtentOf(h, ptr, l) == ExtentOf(h, ptr', l')
    requires ptr != ptr'
    ensures l.InBlock? && l'.InBlock? && l.p == l'.p && l.i != l'.i
  {
    hide ListsOk, PageOk;
    var a := ExtentOf(h, ptr, l);
    if l.InBlock? || l'.InBlock? {
      assert Owned(h, a);
    }
  }

  /** What two clients hold never overlaps, whichever allocator it came from: not even the parts of their blocks
      or pages that they did not ask for. */
  lemma LiveDisjoint(s: State, ptr: nat, ptr': nat)
    requires Ok(s) && ptr in s.live && ptr' in s.live && ptr != ptr'
    ensures Holds(s.h, ptr, s.live[ptr]) && Holds(s.h, ptr', s.live[ptr'])
    ensures ptr + Room(s.h, ptr, s.live[ptr]) <= ptr' || ptr' + Room(s.h, ptr', s.live[ptr']) <= ptr
  {
    hide HeapOk, Holds;
    var h, l, l' := s.h, s.live[ptr], s.live[ptr'];
    assert HeapOk(h) && Holds(h, ptr, l) && Holds(h, ptr', l');
    Apart(h, ptr, l, ptr', l');
  }

  lemma Apart(h: Heap, ptr: nat, l: Lease, ptr': nat, l': Lease)
    requires HeapOk(h) && Holds(h, ptr, l) && Holds(h, ptr', l') && ptr != ptr'
    ensures ptr + Room(h, ptr, l) <= ptr' || ptr' + Room(h, ptr', l') <= ptr
  {
    hide ListsOk, PageOk, OwnershipOk, Big;
    var a, a' := ExtentOf(h, ptr, l), ExtentOf(h, ptr', l');
    InsideExtent(h, ptr, l);
    InsideExtent(h, ptr', l');
    if a < a' {
      ExtentsApart(h.ext, a, a');
    } else if a' < a {
      ExtentsApart(h.ext, a', a);
    } else {
      SameExtent(h, ptr, l, ptr', l');
      if l.i < l'.i {
        BlocksApart(h.pages[l.p], l.i, l'.i);
      } else {
        BlocksApart(h.pages[l.p], l'.i, l.i);
      }
    }
  }

  /** Nothing a client holds lies on a page of pagerefs. */
  lemma LiveOffRoots(s: State, ptr: nat, r: nat)
    requires Ok(s) && ptr in s.live && r in s.h.roots
    ensures Holds(s.h, ptr, s.live[ptr])
    ensures ptr + Room(s.h, ptr, s.live[ptr]) <= s.h.roots[r] * PAGE_SIZE || (s.h.roots[r] + 1) * PAGE_SIZE <= ptr
  {
    hide ListsOk, PageOk;
    var h, l := s.h, s.live[ptr];
    InsideExtent(h, ptr, l);
    var a, b := ExtentOf(h, ptr, l), h.roots[r];
    assert a != b by {
      assert Owned(h, b);
    }
    if a < b {
      ExtentsApart(h.ext, a, b);
    } else {
      ExtentsApart(h.ext, b, a);
    }
  }

  // ---------------------------------------------------------------------------------------
  // Operations on the heap
  // ---------------------------------------------------------------------------------------

  function SetFree(h: Heap, p: nat, free: seq<nat>): Heap
    requires p in h.pages
  {
    h.(pages := h.pages[p := h.pages[p].(free := free)])
  }

  /** Pop the free list of page `p`. */
  function TakeBlock(h: Heap, p: nat): Heap
    requires p in h.pages && h.pages[p].free != []
  {
    SetFree(h, p, h.pages[p].free[1..])
  }

  /** Push block `i` on the free list of page `p`. */
  function GiveBack(h: Heap, p: nat, i: nat): Heap
    requires p in h.pages
  {
    SetFree(h, p, [i] + h.pages[p].free)
  }

  /** The free list of a fresh page starts at the highest block. */
  function Descending(n: nat): (l: seq<nat>)
    ensures |l| == n && forall i :: 0 <= i < n ==> l[i] == n - 1 - i
  {
    if n == 0 then [] else [n - 1] + Descending(n - 1)
  }

  /** A fresh page enters both lists at the front, all blocks free. */
  function NewPage(h: Heap, p: nat, addr: nat, t: nat): Heap
    requires t < NSIZES && t < |h.sized|
  {
    Heap(h.pages[p := HPage(addr, t, Descending(PerPage(t)))], [p] + h.all, h.sized[t := [p] + h.sized[t]],
         h.roots, h.ext[addr / PAGE_SIZE := 1])
  }

  /** A page for pagerefs. */
  function AddRoot(h: Heap, r: nat, a: nat): Heap {
    h.(roots := h.roots[r := a], ext := h.ext[a := 1])
  }

  /** A page all of whose blocks are free leaves both lists and goes back to the page allocator. */
  function DropPage(h: Heap, p: nat): Heap
    requires p in h.pages && h.pages[p].typ < |h.sized|
  {
    var g := h.pages[p];
    Heap(h.pages - {p}, Remove(h.all, p), h.sized[g.typ := Remove(h.sized[g.typ], p)], h.roots, h.ext - {PageNo(g)})
  }

  ghost predicate SameShape(h: Heap, h': Heap) {
    h'.pages.Keys == h.pages.Keys && h'.all == h.all && h'.sized == h.sized && h'.roots == h.roots && h'.ext == h.ext &&
    forall q :: q in h.pages ==> h'.pages[q].typ == h.pages[q].typ && h'.pages[q].addr == h.pages[q].addr
  }

  lemma SameLists(h: Heap, h': Heap)
    requires ListsOk(h) && SameShape(h, h')
    ensures ListsOk(h')
  {
    assert forall q :: q in h'.pages <==> q in h.pages;
    forall t | 0 <= t < NSIZES
      ensures SizedOk(h', t)
    {
      assert SizedOk(h, t);
    }
  }

  lemma SameOwnership(h: Heap, h': Heap)
    requires OwnershipOk(h) && SameShape(h, h')
    ensures OwnershipOk(h')
  {
    assert forall q :: q in h'.pages <==> q in h.pages;
    assert forall q :: q in h'.pages ==> PageNo(h'.pages[q]) == PageNo(h.pages[q]);
  }

  lemma SameOk(h: Heap, h': Heap)
    requires ListsOk(h) && OwnershipOk(h) && ExtentsOk(h.ext) && SameShape(h, h')
    requires forall p :: p in h'.pages ==> PageOk(h'.pages[p])
    ensures HeapOk(h')
  {
    hide PageOk, ListsOk, OwnershipOk, ExtentsOk;
    SameLists(h, h');
    SameOwnership(h, h');
  }

  lemma SetFreeOk(h: Heap, p: nat, free: seq<nat>)
    requires HeapOk(h) && p in h.pages && PageOk(h.pages[p].(free := free))
    ensures HeapOk(SetFree(h, p, free))
  {
    hide PageOk, ListsOk, OwnershipOk, ExtentsOk;
    SameOk(h, SetFree(h, p, free));
  }

  lemma SetFreeAddr(h: Heap, p: nat, free: seq<nat>)
    requires p in h.pages && h.pages[p].typ < NSIZES
    ensures forall i: nat :: BlockAddr(SetFree(h, p, free).pages[p], i) == BlockAddr(h.pages[p], i)
  {
  }

  lemma PopOk(g: HPage)
    requires PageOk(g) && g.free != []
    ensures PageOk(g.(free := g.free[1..])) && g.free[0] !in g.free[1..] && g.free[0] < PerPage(g.typ)
    ensures forall j :: j in g.free <==> j == g.free[0] || j in g.free[1..]
  {
    hide PerPage;
    var rest := g.free[1..];
    assert g.free == [g.free[0]] + rest;
    assert forall k :: 0 <= k < |rest| ==> rest[k] == g.free[k + 1];
    assert forall j :: j in g.free <==> j == g.free[0] || j in rest;
  }

  lemma PageType(g: HPage)
    requires PageOk(g)
    ensures g.typ < NSIZES
  {
  }

  lemma PushOk(g: HPage, i: nat)
    requires PageOk(g) && i < PerPage(g.typ) && i !in g.free && |g.free| + 1 < PerPage(g.typ)
    ensures PageOk(g.(free := [i] + g.free))
  {
  }

  lemma TakeOk(h: Heap, p: nat)
    requires HeapOk(h) && p in h.pages && h.pages[p].free != []
    ensures HeapOk(TakeBlock(h, p))
    ensures h.pages[p].typ < NSIZES
    ensures Block(TakeBlock(h, p), BlockAddr(h.pages[p], h.pages[p].free[0]), p, h.pages[p].free[0])
    ensures forall ptr, q, j :: Block(TakeBlock(h, p), ptr, q, j) ==>
      Block(h, ptr, q, j) || (q == p && j == h.pages[p].free[0])
    ensures forall ptr, q, j :: Block(h, ptr, q, j) ==> Block(TakeBlock(h, p), ptr, q, j)
  {
    hide BlockAddr, PageOk, ListsOk, OwnershipOk, ExtentsOk, PerPage;
    var g := h.pages[p];
    PopOk(g);
    SetFreeOk(h, p, g.free[1..]);
    PageType(g);
    SetFreeAddr(h, p, g.free[1..]);
  }

  lemma GiveOk(h: Heap, ptr: nat, p: nat, i: nat)
    requires HeapOk(h) && Block(h, ptr, p, i) && |h.pages[p].free| + 1 < PerPage(h.pages[p].typ)
    ensures HeapOk(GiveBack(h, p, i))
    ensures forall ptr', q, j :: Block(GiveBack(h, p, i), ptr', q, j) <==> Block(h, ptr', q, j) && !(q == p && j == i)
  {
    hide BlockAddr, PageOk, ListsOk, OwnershipOk, ExtentsOk, PerPage;
    var g := h.pages[p];
    PushOk(g, i);
    SetFreeOk(h, p, [i] + g.free);
    SetFreeAddr(h, p, [i] + g.free);
    assert forall j :: j in [i] + g.free <==> j == i || j in g.free;
  }

  lemma FreshOk(ext: map<nat, nat>, a: nat, n: nat)
    requires ExtentsOk(ext) && FreshExtent(ext, a, n)
    ensures a !in ext && ExtentsOk(ext[a := n])
  {
  }

  lemma DropExtent(ext: map<nat, nat>, a: nat)
    requires ExtentsOk(ext)
    ensures ExtentsOk(ext - {a})
  {
  }

  lemma AddRootOk(h: Heap, r: nat, a: nat)
    requires HeapOk(h) && r < NUM_PAGEREFPAGES && r !in h.roots && FreshExtent(h.ext, a, 1)
    ensures HeapOk(AddRoot(h, r, a))
    ensures forall ptr, q, j :: Block(AddRoot(h, r, a), ptr, q, j) <==> Block(h, ptr, q, j)
    ensures forall ptr :: Big(h, ptr) ==> Big(AddRoot(h, r, a), ptr)
  {
    hide PageOk, ExtentsOk, BlockAddr;
    FreshOk(h.ext, a, 1);
    var h' := AddRoot(h, r, a);
    assert ListsOk(h') by {
      forall t | 0 <= t < NSIZES
        ensures SizedOk(h', t)
      {
        assert SizedOk(h, t);
      }
    }
  }

  lemma Fresh(n: nat, l: seq<nat>)
    requires n > 0 && l == Descending(n - 1)
    ensures Descending(n) == [n - 1] + l && Descending(n)[1..] == l
    ensures Distinct(l) && forall i :: i in l <==> 0 <= i < n - 1
  {
    forall i: nat | i < n - 1
      ensures i in l
    {
      assert l[n - 2 - i] == i;
    }
  }

  /** A fresh page whose highest block has been handed out. */
  function TakeNew(h: Heap, p: nat, addr: nat, t: nat): Heap
    requires t < NSIZES && t < |h.sized|
  {
    TakeBlock(NewPage(h, p, addr, t), p)
  }

  lemma NewLists(h: Heap, p: nat, addr: nat, t: nat)
    requires ListsOk(h) && p !in h.pages && t < NSIZES
    ensures ListsOk(NewPage(h, p, addr, t))
  {
    var h' := NewPage(h, p, addr, t);
    assert p !in h.all;
    forall u | 0 <= u < NSIZES
      ensures SizedOk(h', u)
    {
      assert SizedOk(h, u);
    }
  }

  lemma NewOwnership(h: Heap, p: nat, addr: nat, t: nat)
    requires OwnershipOk(h) && p !in h.pages && t < NSIZES && t < |h.sized|
    requires p < TOTAL_PAGEREFS && p / NPAGEREFS_PER_PAGE in h.roots && addr / PAGE_SIZE !in h.ext
    ensures OwnershipOk(NewPage(h, p, addr, t))
  {
    var h' := NewPage(h, p, addr, t);
    assert PageNo(h'.pages[p]) == addr / PAGE_SIZE;
  }

  lemma FreshPage(addr: nat, t: nat)
    requires t < NSIZES && addr % PAGE_SIZE == 0
    ensures PageOk(HPage(addr, t, Descending(PerPage(t))[1..]))
  {
  }

  lemma NewShape(h: Heap, p: nat, addr: nat, t: nat)
    requires t < NSIZES && t < |h.sized| && PageOk(HPage(addr, t, Descending(PerPage(t))[1..]))
    requires forall q :: q in h.pages ==> PageOk(h.pages[q])
    ensures SameShape(NewPage(h, p, addr, t), TakeNew(h, p, addr, t))
    ensures NewPage(h, p, addr, t).ext == h.ext[addr / PAGE_SIZE := 1]
    ensures forall q :: q in TakeNew(h, p, addr, t).pages ==> PageOk(TakeNew(h, p, addr, t).pages[q])
  {
    hide PageOk, PerPage, Descending;
  }

  lemma NewOk(h: Heap, p: nat, addr: nat, t: nat)
    requires HeapOk(h) && p !in h.pages && p < TOTAL_PAGEREFS && p / NPAGEREFS_PER_PAGE in h.roots
    requires t < NSIZES && addr % PAGE_SIZE == 0 && FreshExtent(h.ext, addr / PAGE_SIZE, 1)
    ensures HeapOk(TakeNew(h, p, addr, t))
  {
    assert |h.sized| == NSIZES;
    hide PageOk, ListsOk, OwnershipOk, ExtentsOk, PerPage, Descending, NewPage, TakeNew, SameShape;
    FreshOk(h.ext, addr / PAGE_SIZE, 1);
    NewLists(h, p, addr, t);
    NewOwnership(h, p, addr, t);
    FreshPage(addr, t);
    NewShape(h, p, addr, t);
    SameOk(NewPage(h, p, addr, t), TakeNew(h, p, addr, t));
  }

  lemma NewBlocks(h: Heap, p: nat, addr: nat, t: nat)
    requires p !in h.pages && t < NSIZES && t < |h.sized|
    ensures forall ptr, q, j :: Block(TakeNew(h, p, addr, t), ptr, q, j) ==>
      Block(h, ptr, q, j) || (q == p && j == PerPage(t) - 1)
    ensures forall ptr, q, j :: Block(h, ptr, q, j) ==> Block(TakeNew(h, p, addr, t), ptr, q, j)
    ensures Block(TakeNew(h, p, addr, t), BlockAddr(HPage(addr, t, []), PerPage(t) - 1), p, PerPage(t) - 1)
  {
    hide BlockAddr, PerPage;
    var n := PerPage(t);
    var l := Descending(n - 1);
    Fresh(n, l);
    hide Descending;
    assert TakeNew(h, p, addr, t).pages[p] == HPage(addr, t, l);
    FreeIrrelevant(addr, t, l);
  }

  lemma FreeIrrelevant(addr: nat, t: nat, l: seq<nat>)
    requires t < NSIZES
    ensures forall i: nat :: BlockAddr(HPage(addr, t, l), i) == BlockAddr(HPage(addr, t, []), i)
  {
  }

  lemma NewBig(h: Heap, p: nat, addr: nat, t: nat)
    requires p !in h.pages && t < NSIZES && t < |h.sized| && addr / PAGE_SIZE !in h.ext
    ensures forall ptr :: Big(h, ptr) ==> Big(TakeNew(h, p, addr, t), ptr)
  {
  }

  /** Different numbers below `n`: there are at most `n`. */
  lemma {:induction false} Pigeonhole(l: seq<nat>, n: nat)
    requires Distinct(l) && forall i :: i in l ==> i < n
    ensures |l| <= n
  {
    if n == 0 {
      FirstIn(l);
    } else if n - 1 in l {
      var k := IndexOf(l, n - 1);
      DeleteAtFacts(l, k);
      Pigeonhole(DeleteAt(l, k), n - 1);
    } else {
      Pigeonhole(l, n - 1);
    }
  }

  /** When all but one block are free, the one left is the only live one. */
  lemma LastBlock(g: HPage, i: nat, j: nat)
    requires PageOk(g) && i < PerPage(g.typ) && j < PerPage(g.typ) && i !in g.free && j !in g.free
    requires |g.free| + 1 == PerPage(g.typ)
    ensures i == j
  {
    if i != j {
      Pigeonhole([i, j] + g.free, PerPage(g.typ));
    }
  }

  lemma DropLists(h: Heap, p: nat)
    requires ListsOk(h) && p in h.pages && h.pages[p].typ < NSIZES
    ensures ListsOk(DropPage(h, p))
  {
    var t, h' := h.pages[p].typ, DropPage(h, p);
    assert SizedOk(h, t);
    DeleteAtFacts(h.all, IndexOf(h.all, p));
    DeleteAtFacts(h.sized[t], IndexOf(h.sized[t], p));
    forall u | 0 <= u < NSIZES
      ensures SizedOk(h', u)
    {
      assert SizedOk(h, u);
    }
  }

  lemma DropOwnership(h: Heap, p: nat)
    requires OwnershipOk(h) && p in h.pages && h.pages[p].typ < |h.sized|
    ensures OwnershipOk(DropPage(h, p))
  {
  }

  lemma DropBig(h: Heap, p: nat)
    requires p in h.pages && h.pages[p].typ < |h.sized|
    ensures forall ptr :: Big(h, ptr) ==> Big(DropPage(h, p), ptr)
  {
  }

  lemma DropBlocks(h: Heap, p: nat)
    requires p in h.pages && h.pages[p].typ < |h.sized|
    ensures forall ptr, q, j :: Block(DropPage(h, p), ptr, q, j) <==> Block(h, ptr, q, j) && q != p
  {
  }

  lemma DropOk(h: Heap, p: nat)
    requires HeapOk(h) && p in h.pages
    ensures h.pages[p].typ < NSIZES && |h.sized| == NSIZES && HeapOk(DropPage(h, p))
  {
    assert |h.sized| == NSIZES;
    PageType(h.pages[p]);
    hide PageOk, ListsOk, OwnershipOk, ExtentsOk;
    DropLists(h, p);
    DropOwnership(h, p);
    DropExtent(h.ext, PageNo(h.pages[p]));
  }

  // ---------------------------------------------------------------------------------------
  // The heap and its clients, over every run
  // ---------------------------------------------------------------------------------------

  /** The first page of the list with a free block, or the end of the list. */
  function FirstWithFree(pages: map<nat, HPage>, l: seq<nat>): (k: nat)
    requires forall p :: p in l ==> p in pages
    ensures k <= |l| && (k < |l| ==> pages[l[k]].free != []) && forall j :: 0 <= j < k ==> pages[l[j]].free == []
  {
    if l == [] then 0 else if pages[l[0]].free != [] then 0 else 1 + FirstWithFree(pages, l[1..])
  }

  /** The lowest pageref from `k` on that is not in use. */
  function LowestUnused(pages: map<nat, HPage>, k: nat): (p: nat)
    requires k <= TOTAL_PAGEREFS
    ensures k <= p <= TOTAL_PAGEREFS && (p < TOTAL_PAGEREFS ==> p !in pages) && forall q :: k <= q < p ==> q in pages
    decreases TOTAL_PAGEREFS - k
  {
    if k == TOTAL_PAGEREFS || k !in pages then k else LowestUnused(pages, k + 1)
  }

  /** The block type for a request: the smallest that holds it. */
  function TypeFor(sz: nat): (t: nat)
    requires sz <= LARGEST_SUBPAGE_SIZE
    ensures t < NSIZES && sz <= SizeOf(t) && (t > 0 ==> SizeOf(t - 1) < sz)
  {
    TypeFrom(sz, 0)
  }

  function TypeFrom(sz: nat, k: nat): (t: nat)
    requires sz <= LARGEST_SUBPAGE_SIZE && k < NSIZES && (k > 0 ==> SizeOf(k - 1) < sz)
    ensures t < NSIZES && sz <= SizeOf(t) && (t > 0 ==> SizeOf(t - 1) < sz)
    decreases NSIZES - k
  {
    if sz <= SizeOf(k) then k else TypeFrom(sz, k + 1)
  }

  /** Pages that a request for `sz` bytes is rounded up to, in 32-bit arithmetic. */
  function PagesFor(sz: nat): nat {
    (sz + PAGE_SIZE - 1) % 0x1_0000_0000 / PAGE_SIZE
  }

  ghost predicate Listed(h: Heap, t: nat) {
    t < NSIZES && t < |h.sized| && forall p :: p in h.sized[t] ==> p in h.pages
  }

  /** The page that serves a request of type `t`. */
  function ChosenPage(h: Heap, t: nat): nat
    requires Listed(h, t)
  {
    var k := FirstWithFree(h.pages, h.sized[t]);
    if k < |h.sized[t]| then h.sized[t][k] else LowestUnused(h.pages, 0)
  }

  function WithRoot(h: Heap, r: nat, ref: nat): Heap {
    if r in h.roots then h else AddRoot(h, r, ref)
  }

  /** `subpage_kmalloc`: the first page with a free block serves; otherwise a fresh page at page number
      `page`, described by the lowest unused pageref, whose own page is `ref` if it is the first there. */
  function SubMalloc(h: Heap, t: nat, page: nat, ref: nat): Heap
    requires Listed(h, t)
  {
    var p := ChosenPage(h, t);
    if FirstWithFree(h.pages, h.sized[t]) < |h.sized[t]| then TakeBlock(h, p)
    else TakeNew(WithRoot(h, p / NPAGEREFS_PER_PAGE, ref), p, page * PAGE_SIZE, t)
  }

  /** The block it hands out. */
  function ChosenBlock(h: Heap, t: nat): nat
    requires Listed(h, t)
  {
    if FirstWithFree(h.pages, h.sized[t]) < |h.sized[t]| then h.pages[ChosenPage(h, t)].free[0] else PerPage(t) - 1
  }

  /** The pages the page allocator may hand out here, if `subpage_kmalloc` asks. */
  ghost predicate CanServe(h: Heap, t: nat, page: nat, ref: nat)
    requires Listed(h, t)
  {
    FirstWithFree(h.pages, h.sized[t]) < |h.sized[t]| ||
    (LowestUnused(h.pages, 0) < TOTAL_PAGEREFS && FreshExtent(h.ext, page, 1) &&
     FreshRoot(h, LowestUnused(h.pages, 0) / NPAGEREFS_PER_PAGE, page, ref))
  }

  /** A page for pagerefs is asked for after the heap page, and only if root `r` has none yet. */
  ghost predicate FreshRoot(h: Heap, r: nat, page: nat, ref: nat) {
    r in h.roots || FreshExtent(h.ext[page := 1], ref, 1)
  }

  /** The page counts that a request for `sz` bytes asks the page allocator for, in order. */
  function Asked(h: Heap, sz: nat): seq<nat>
    requires sz < LARGEST_SUBPAGE_SIZE ==> Listed(h, TypeFor(sz))
  {
    if sz >= LARGEST_SUBPAGE_SIZE then [PagesFor(sz)]
    else if FirstWithFree(h.pages, h.sized[TypeFor(sz)]) < |h.sized[TypeFor(sz)]| then []
    else AskedFresh(h, LowestUnused(h.pages, 0))
  }

  function AskedFresh(h: Heap, p: nat): seq<nat> {
    [1] + if p / NPAGEREFS_PER_PAGE in h.roots then [] else [1]
  }

  ghost predicate Preserves(h: Heap, h': Heap) {
    forall ptr, l :: Holds(h, ptr, l) ==> Holds(h', ptr, l)
  }

  lemma Preserved(h: Heap, h': Heap)
    requires forall ptr, q, j :: Block(h, ptr, q, j) ==> Block(h', ptr, q, j)
    requires forall ptr :: Big(h, ptr) ==> Big(h', ptr)
    requires forall q :: q in h.pages && q in h'.pages ==> h'.pages[q].typ == h.pages[q].typ
    requires forall a :: a in h.ext && a in h'.ext ==> h'.ext[a] == h.ext[a]
    ensures Preserves(h, h')
  {
  }

  lemma SizedPages(h: Heap, t: nat)
    requires HeapOk(h) && t < NSIZES
    ensures |h.sized| == NSIZES && Listed(h, t) && forall p :: p in h.sized[t] ==> h.pages[p].typ == t
  {
    assert SizedOk(h, t);
  }

  lemma TakeServes(h: Heap, p: nat)
    requires HeapOk(h) && p in h.pages && h.pages[p].free != []
    ensures Preserves(h, TakeBlock(h, p))
  {
    hide HeapOk, Block, Big;
    TakeOk(h, p);
    TakeBig(h, p);
    Preserved(h, TakeBlock(h, p));
  }

  lemma TakeBig(h: Heap, p: nat)
    requires p in h.pages && h.pages[p].free != []
    ensures forall ptr :: Big(h, ptr) ==> Big(TakeBlock(h, p), ptr)
  {
  }

  lemma FreshSwap(ext: map<nat, nat>, page: nat, ref: nat)
    requires FreshExtent(ext, page, 1) && FreshExtent(ext[page := 1], ref, 1)
    ensures FreshExtent(ext, ref, 1) && FreshExtent(ext[ref := 1], page, 1)
  {
    assert page in ext[page := 1];
    forall b | b in ext
      ensures ref + 1 <= b || b + ext[b] <= ref
    {
      assert b in ext[page := 1];
    }
  }

  lemma WithRootOk(h: Heap, p: nat, page: nat, ref: nat)
    requires HeapOk(h) && p < TOTAL_PAGEREFS && FreshExtent(h.ext, page, 1)
    requires FreshRoot(h, p / NPAGEREFS_PER_PAGE, page, ref)
    ensures var h1 := WithRoot(h, p / NPAGEREFS_PER_PAGE, ref);
      HeapOk(h1) && p / NPAGEREFS_PER_PAGE in h1.roots && FreshExtent(h1.ext, page, 1) && Preserves(h, h1) &&
      h1.pages == h.pages && h1.sized == h.sized && (forall ptr, q, j :: Block(h1, ptr, q, j) <==> Block(h, ptr, q, j))
  {
    assert ExtentsOk(h.ext);
    hide HeapOk, Block, Big, FreshExtent, ExtentsOk;
    var r := p / NPAGEREFS_PER_PAGE;
    if r !in h.roots {
      FreshSwap(h.ext, page, ref);
      FreshOk(h.ext, ref, 1);
      AddRootOk(h, r, ref);
      Preserved(h, AddRoot(h, r, ref));
    }
  }

  lemma NewServes(h: Heap, p: nat, page: nat, t: nat)
    requires HeapOk(h) && p !in h.pages && t < NSIZES && FreshExtent(h.ext, page, 1)
    ensures |h.sized| == NSIZES && Preserves(h, TakeNew(h, p, page * PAGE_SIZE, t))
  {
    SizedPages(h, t);
    FreshOk(h.ext, page, 1);
    hide HeapOk, Block, Big, ExtentsOk;
    assert page * PAGE_SIZE / PAGE_SIZE == page;
    NewBlocks(h, p, page * PAGE_SIZE, t);
    NewBig(h, p, page * PAGE_SIZE, t);
    NewTypes(h, p, page, t);
    Preserved(h, TakeNew(h, p, page * PAGE_SIZE, t));
  }

  lemma NewTypes(h: Heap, p: nat, page: nat, t: nat)
    requires p !in h.pages && t < NSIZES && t < |h.sized| && page !in h.ext
    ensures var h' := TakeNew(h, p, page * PAGE_SIZE, t);
      (forall q :: q in h.pages && q in h'.pages ==> h'.pages[q].typ == h.pages[q].typ) &&
      (forall a :: a in h.ext && a in h'.ext ==> h'.ext[a] == h.ext[a])
  {
  }

  /** A request is served by a block nobody held, of the right type, and nothing else changes hands. */
  lemma SubMallocOk(h: Heap, t: nat, page: nat, ref: nat)
    requires HeapOk(h) && Listed(h, t) && CanServe(h, t, page, ref)
    ensures var h', p, i := SubMalloc(h, t, page, ref), ChosenPage(h, t), ChosenBlock(h, t);
      HeapOk(h') && Preserves(h, h') && p in h'.pages && h'.pages[p].typ == t &&
      Block(h', BlockAddr(h'.pages[p], i), p, i) &&
      forall ptr, q, j :: Block(h', ptr, q, j) ==> Block(h, ptr, q, j) || (q == p && j == i)
  {
    SizedPages(h, t);
    var p := ChosenPage(h, t);
    if FirstWithFree(h.pages, h.sized[t]) < |h.sized[t]| {
      assert p in h.sized[t];
      hide HeapOk, Block, Preserves;
      TakeOk(h, p);
      TakeServes(h, p);
      assert BlockAddr(TakeBlock(h, p).pages[p], h.pages[p].free[0]) == BlockAddr(h.pages[p], h.pages[p].free[0]);
    } else {
      hide HeapOk, Block, FreshExtent, BlockAddr, PerPage;
      var r := p / NPAGEREFS_PER_PAGE;
      WithRootOk(h, p, page, ref);
      var h1 := WithRoot(h, r, ref);
      SizedPages(h1, t);
      assert page * PAGE_SIZE / PAGE_SIZE == page && page * PAGE_SIZE % PAGE_SIZE == 0;
      NewOk(h1, p, page * PAGE_SIZE, t);
      NewBlocks(h1, p, page * PAGE_SIZE, t);
      NewServes(h1, p, page, t);
      var g := TakeNew(h1, p, page * PAGE_SIZE, t).pages[p];
      FreeIrrelevant(page * PAGE_SIZE, t, g.free);
    }
  }

  /** `subpage_kfree`: the block joins the free list; a page with no block left in use is given up. */
  function SubFree(h: Heap, p: nat, i: nat): Heap
    requires p in h.pages && h.pages[p].typ < NSIZES && h.pages[p].typ < |h.sized|
  {
    if |h.pages[p].free| + 1 == PerPage(h.pages[p].typ) then DropPage(h, p) else GiveBack(h, p, i)
  }

  lemma SubFreeOk(h: Heap, ptr: nat, p: nat, i: nat)
    requires HeapOk(h) && Block(h, ptr, p, i)
    ensures |h.sized| == NSIZES && HeapOk(SubFree(h, p, i))
    ensures forall ptr', q, j :: Block(SubFree(h, p, i), ptr', q, j) <==> Block(h, ptr', q, j) && !(q == p && j == i)
    ensures forall ptr' :: Big(h, ptr') ==> Big(SubFree(h, p, i), ptr')
    ensures forall q :: q in h.pages && q in SubFree(h, p, i).pages ==> SubFree(h, p, i).pages[q].typ == h.pages[q].typ
    ensures forall a :: a in SubFree(h, p, i).ext ==> a in h.ext && SubFree(h, p, i).ext[a] == h.ext[a]
  {
    var g := h.pages[p];
    if |g.free| + 1 == PerPage(g.typ) {
      DropOk(h, p);
      DropBig(h, p);
      DropBlocks(h, p);
      assert PageOk(g);
      forall ptr', j | Block(h, ptr', p, j)
        ensures j == i
      {
        LastBlock(g, i, j);
      }
      hide HeapOk, Block, Big, PerPage;
    } else {
      assert |h.sized| == NSIZES && PageOk(g);
      GiveOk(h, ptr, p, i);
      GiveBig(h, p, i);
      hide HeapOk, Block, Big, PerPage;
    }
  }

  lemma GiveBig(h: Heap, p: nat, i: nat)
    requires p in h.pages
    ensures forall ptr :: Big(h, ptr) ==> Big(GiveBack(h, p, i), ptr)
  {
  }

  /** What happens to the heap: requests, releases, and the rest of the kernel's use of pages. In a
      request `page` and `ref` are what the page allocator would hand out. */
  datatype Event =
    | Malloc(sz: nat, page: nat, ref: nat)
    | Free(ptr: nat)
    | OtherAlloc(a: nat, n: nat)
    | OtherFree(a: nat)

  ghost predicate Legal(s: State, e: Event) {
    match e
    case Malloc(sz, page, ref) =>
      sz < 0x1_0000_0000 &&
      if sz < LARGEST_SUBPAGE_SIZE then Listed(s.h, TypeFor(sz)) && CanServe(s.h, TypeFor(sz), page, ref)
      else FreshExtent(s.h.ext, page, PagesFor(sz))
    case Free(ptr) => ptr in s.live && Holds(s.h, ptr, s.live[ptr]) && |s.h.sized| == NSIZES
    case OtherAlloc(a, n) => FreshExtent(s.h.ext, a, n)
    case OtherFree(a) => a in s.h.ext && !Owned(s.h, a) && a * PAGE_SIZE !in s.live
  }

  /** The page number a release returns to the page allocator, if it returns any. */
  function GivenUp(s: State, ptr: nat): Option<nat>
    requires ptr in s.live
    requires s.live[ptr].InBlock? ==> s.live[ptr].p in s.h.pages && s.h.pages[s.live[ptr].p].typ < NSIZES
  {
    var l := s.live[ptr];
    if l.InPages? then Some(ptr / PAGE_SIZE)
    else if |s.h.pages[l.p].free| + 1 == PerPage(s.h.pages[l.p].typ) then Some(PageNo(s.h.pages[l.p])) else None
  }

  /** The address of the block handed out for type `t`. */
  function ServedPtr(h: Heap, t: nat, page: nat): nat
    requires Listed(h, t)
  {
    var found := FirstWithFree(h.pages, h.sized[t]) < |h.sized[t]|;
    var a := if found then h.pages[ChosenPage(h, t)].addr else page * PAGE_SIZE;
    a + ChosenBlock(h, t) * SizeOf(t)
  }

  /** The pointer `kmalloc` returns. */
  function MallocPtr(h: Heap, sz: nat, page: nat): nat
    requires sz < LARGEST_SUBPAGE_SIZE ==> Listed(h, TypeFor(sz))
  {
    if sz < LARGEST_SUBPAGE_SIZE then ServedPtr(h, TypeFor(sz), page) else page * PAGE_SIZE
  }

  ghost function Step(s: State, e: Event): State
    requires Legal(s, e)
  {
    match e
    case Malloc(sz, page, ref) =>
      var ptr := MallocPtr(s.h, sz, page);
      if sz < LARGEST_SUBPAGE_SIZE then
        var t := TypeFor(sz);
        State(SubMalloc(s.h, t, page, ref), s.live[ptr := InBlock(ChosenPage(s.h, t), ChosenBlock(s.h, t), sz)])
      else State(s.h.(ext := s.h.ext[page := PagesFor(sz)]), s.live[ptr := InPages(sz)])
    case Free(ptr) =>
      var l := s.live[ptr];
      State(if l.InBlock? then SubFree(s.h, l.p, l.i) else s.h.(ext := s.h.ext - {ptr / PAGE_SIZE}), s.live - {ptr})
    case OtherAlloc(a, n) => s.(h := s.h.(ext := s.h.ext[a := n]))
    case OtherFree(a) => s.(h := s.h.(ext := s.h.ext - {a}))
  }

  lemma MallocPtrIs(h: Heap, sz: nat, page: nat, ref: nat)
    requires sz < LARGEST_SUBPAGE_SIZE && Listed(h, TypeFor(sz)) && HeapOk(h)
    ensures var t := TypeFor(sz);
      var h', p := SubMalloc(h, t, page, ref), ChosenPage(h, t);
      p in h'.pages && h'.pages[p].typ == t && MallocPtr(h, sz, page) == BlockAddr(h'.pages[p], ChosenBlock(h, t))
  {
    SizedPages(h, TypeFor(sz));
    hide HeapOk, TypeFor, PerPage;
  }

  /** A new lease joins the ones kept. */
  lemma Grant(s: State, h': Heap, ptr: nat, l: Lease)
    requires LiveOk(s) && HeapOk(h') && Preserves(s.h, h') && Holds(h', ptr, l)
    requires forall ptr', q, j :: Block(h', ptr', q, j) ==> Block(s.h, ptr', q, j) || ptr' == ptr
    ensures Ok(State(h', s.live[ptr := l]))
  {
    hide HeapOk, Holds, Block;
  }

  /** Nothing new, nothing lost. */
  lemma Keep(s: State, h': Heap)
    requires LiveOk(s) && HeapOk(h') && forall ptr :: ptr in s.live ==> Holds(h', ptr, s.live[ptr])
    requires forall ptr', q, j :: Block(h', ptr', q, j) ==> Block(s.h, ptr', q, j)
    ensures Ok(State(h', s.live))
  {
  }

  /** One lease ends, the others are kept. */
  lemma Revoke(s: State, h': Heap, ptr: nat)
    requires LiveOk(s) && HeapOk(h') && ptr in s.live
    requires forall ptr' :: ptr' in s.live && ptr' != ptr ==> Holds(h', ptr', s.live[ptr'])
    requires forall ptr', q, j :: Block(h', ptr', q, j) ==> Block(s.h, ptr', q, j) && ptr' != ptr
    ensures Ok(State(h', s.live - {ptr}))
  {
  }

  /** A block has one address. */
  lemma SameBlock(h: Heap, p: nat, i: nat)
    ensures forall ptr, ptr' :: Block(h, ptr, p, i) && Block(h, ptr', p, i) ==> ptr == ptr'
  {
  }

  lemma MallocBlockOk(s: State, sz: nat, page: nat, ref: nat)
    requires Ok(s) && Legal(s, Malloc(sz, page, ref)) && sz < LARGEST_SUBPAGE_SIZE
    ensures Ok(Step(s, Malloc(sz, page, ref)))
  {
    hide HeapOk, LiveOk, Block, CanServe, Preserves, Big, BlockAddr, SubMalloc, ChosenPage, ChosenBlock, MallocPtr;
    var h, t := s.h, TypeFor(sz);
    var h', p, i := SubMalloc(h, t, page, ref), ChosenPage(h, t), ChosenBlock(h, t);
    SubMallocOk(h, t, page, ref);
    MallocPtrIs(h, sz, page, ref);
    SameBlock(h', p, i);
    Grant(s, h', MallocPtr(h, sz, page), InBlock(p, i, sz));
  }

  lemma SameSized(h: Heap, ext: map<nat, nat>)
    requires ListsOk(h)
    ensures ListsOk(h.(ext := ext))
  {
    forall t | 0 <= t < NSIZES
      ensures SizedOk(h.(ext := ext), t)
    {
      assert SizedOk(h, t);
    }
  }

  lemma SameBlocks(h: Heap, ext: map<nat, nat>)
    ensures forall ptr, q, j :: Block(h.(ext := ext), ptr, q, j) <==> Block(h, ptr, q, j)
    ensures forall b :: Owned(h.(ext := ext), b) <==> Owned(h, b)
  {
  }

  lemma AddExtentOk(h: Heap, a: nat, n: nat)
    requires HeapOk(h) && FreshExtent(h.ext, a, n)
    ensures a !in h.ext && HeapOk(h.(ext := h.ext[a := n])) && Preserves(h, h.(ext := h.ext[a := n]))
  {
    hide PageOk, ListsOk, ExtentsOk, Block, Owned;
    FreshOk(h.ext, a, n);
    SameSized(h, h.ext[a := n]);
    SameBlocks(h, h.ext[a := n]);
  }

  lemma Unowned(h: Heap, a: nat)
    requires OwnershipOk(h) && !Owned(h, a)
    ensures OwnershipOk(h.(ext := h.ext - {a}))
  {
    assert forall p :: p in h.pages ==> PageNo(h.pages[p]) != a;
    assert forall r :: r in h.roots ==> h.roots[r] != a;
  }

  lemma RemoveExtentOk(h: Heap, a: nat)
    requires HeapOk(h) && !Owned(h, a)
    ensures HeapOk(h.(ext := h.ext - {a}))
    ensures forall ptr, l :: Holds(h, ptr, l) && !(l.InPages? && ptr == a * PAGE_SIZE) ==>
      Holds(h.(ext := h.ext - {a}), ptr, l)
  {
    hide PageOk, ListsOk, ExtentsOk, OwnershipOk, Block, Owned;
    DropExtent(h.ext, a);
    Unowned(h, a);
    SameSized(h, h.ext - {a});
    SameBlocks(h, h.ext - {a});
  }

  /** Rounding up to pages gives enough room, or no page at all when it wraps. */
  lemma PagesEnough(sz: nat)
    requires sz < 0x1_0000_0000 && PagesFor(sz) > 0
    ensures sz <= PagesFor(sz) * PAGE_SIZE
  {
  }

  lemma BigNew(h: Heap, a: nat, n: nat)
    requires HeapOk(h) && a !in h.ext
    ensures var h' := h.(ext := h.ext[a := n]);
      Big(h', a * PAGE_SIZE) && h'.ext[a * PAGE_SIZE / PAGE_SIZE] == n
  {
  }

  lemma MallocPagesOk(s: State, sz: nat, page: nat, ref: nat)
    requires Ok(s) && Legal(s, Malloc(sz, page, ref)) && sz >= LARGEST_SUBPAGE_SIZE
    ensures Ok(Step(s, Malloc(sz, page, ref)))
  {
    hide HeapOk, LiveOk, Block, Big, Preserves;
    var n := PagesFor(sz);
    var h' := s.h.(ext := s.h.ext[page := n]);
    AddExtentOk(s.h, page, n);
    SameBlocks(s.h, s.h.ext[page := n]);
    BigNew(s.h, page, n);
    PagesEnough(sz);
    Grant(s, h', page * PAGE_SIZE, InPages(sz));
  }

  /** A pointer is the address of one block only. */
  lemma BlockUnique(h: Heap, ptr: nat, p: nat, i: nat, q: nat, j: nat)
    requires HeapOk(h) && Block(h, ptr, p, i) && Block(h, ptr, q, j)
    ensures p == q && i == j
  {
    var g, g' := h.pages[p], h.pages[q];
    assert PageNo(g) == PageNo(g') by {
      hide ListsOk, OwnershipOk, Distinct;
      PageStart(g);
      PageStart(g');
      BlockInside(g, i);
      BlockInside(g', j);
    }
    BlockIndex(g, i);
    BlockIndex(g', j);
  }

  /** A block is no whole-page allocation. */
  lemma BlockNotBig(h: Heap, ptr: nat, p: nat, i: nat)
    requires HeapOk(h) && Block(h, ptr, p, i)
    ensures !Big(h, ptr) && ptr / PAGE_SIZE == PageNo(h.pages[p])
  {
    hide ListsOk, OwnershipOk, Distinct;
    PageStart(h.pages[p]);
    BlockInside(h.pages[p], i);
    assert Owned(h, PageNo(h.pages[p]));
  }

  lemma FreeBlockOk(s: State, ptr: nat, p: nat, i: nat)
    requires Ok(s) && ptr in s.live && s.live[ptr].InBlock? && p == s.live[ptr].p && i == s.live[ptr].i
    requires Block(s.h, ptr, p, i) && |s.h.sized| == NSIZES
    ensures Ok(State(SubFree(s.h, p, i), s.live - {ptr}))
  {
    var h' := SubFree(s.h, p, i);
    hide HeapOk, Block, Owned, SubFree, BlockAddr, SizeOf;
    SubFreeOk(s.h, ptr, p, i);
    SameBlock(s.h, p, i);
    forall ptr', q, j | Block(h', ptr', q, j)
      ensures Block(s.h, ptr', q, j) && ptr' != ptr
    {
      if ptr' == ptr {
        BlockUnique(s.h, ptr, p, i, q, j);
      }
    }
    forall ptr' | ptr' in s.live && ptr' != ptr
      ensures Holds(h', ptr', s.live[ptr'])
    {
      assert Holds(s.h, ptr', s.live[ptr']);
      FreeKeeps(s.h, h', ptr', s.live[ptr'], p, i);
    }
    Revoke(s, h', ptr);
  }

  lemma FreeKeeps(h: Heap, h': Heap, ptr: nat, l: Lease, p: nat, i: nat)
    requires Holds(h, ptr, l) && !(l.InBlock? && l.p == p && l.i == i)
    requires forall ptr', q, j :: Block(h', ptr', q, j) <==> Block(h, ptr', q, j) && !(q == p && j == i)
    requires forall ptr' :: Big(h, ptr') ==> Big(h', ptr')
    requires forall q :: q in h.pages && q in h'.pages ==> h'.pages[q].typ == h.pages[q].typ
    requires forall a :: a in h'.ext ==> a in h.ext && h'.ext[a] == h.ext[a]
    ensures Holds(h', ptr, l)
  {
  }

  lemma FreePagesOk(s: State, ptr: nat)
    requires Ok(s) && Legal(s, Free(ptr)) && s.live[ptr].InPages?
    ensures Ok(Step(s, Free(ptr)))
  {
    hide HeapOk, Block;
    var a := ptr / PAGE_SIZE;
    var h' := s.h.(ext := s.h.ext - {a});
    assert a * PAGE_SIZE == ptr;
    RemoveExtentOk(s.h, a);
    SameBlocks(s.h, s.h.ext - {a});
    forall q, j | Block(s.h, ptr, q, j)
      ensures false
    {
      BlockNotBig(s.h, ptr, q, j);
    }
    Revoke(s, h', ptr);
  }

  lemma OtherOk(s: State, e: Event)
    requires Ok(s) && Legal(s, e) && (e.OtherAlloc? || e.OtherFree?)
    ensures Ok(Step(s, e))
  {
    hide HeapOk, Block, Big;
    match e
    case OtherAlloc(a, n) =>
      AddExtentOk(s.h, a, n);
      SameBlocks(s.h, s.h.ext[a := n]);
      Keep(s, s.h.(ext := s.h.ext[a := n]));
    case OtherFree(a) =>
      RemoveExtentOk(s.h, a);
      SameBlocks(s.h, s.h.ext - {a});
      Keep(s, s.h.(ext := s.h.ext - {a}));
  }

  /** Every operation keeps the heap sound. */
  lemma StepOk(s: State, e: Event)
    requires Ok(s) && Legal(s, e)
    ensures Ok(Step(s, e))
  {
    match e
    case Malloc(sz, page, ref) =>
      if sz < LARGEST_SUBPAGE_SIZE {
        MallocBlockOk(s, sz, page, ref);
      } else {
        MallocPagesOk(s, sz, page, ref);
      }
    case Free(ptr) =>
      if s.live[ptr].InBlock? {
        FreeBlockOk(s, ptr, s.live[ptr].p, s.live[ptr].i);
      } else {
        FreePagesOk(s, ptr);
      }
    case OtherAlloc(_, _) => OtherOk(s, e);
    case OtherFree(_) => OtherOk(s, e);
  }

  const EMPTY: Heap := Heap(map[], [], [[], [], [], [], [], [], [], []], map[], map[])

  ghost predicate Run(s: State, events: seq<Event>, s': State)
    decreases |events|
  {
    if events == [] then s' == s else Legal(s, events[0]) && Run(Step(s, events[0]), events[1..], s')
  }

  lemma {:induction false} RunOk(s: State, events: seq<Event>, s': State)
    requires Ok(s) && Run(s, events, s')
    ensures Ok(s')
    decreases |events|
  {
    if events != [] {
      StepOk(s, events[0]);
      RunOk(Step(s, events[0]), events[1..], s');
    }
  }

  lemma StartOk()
    ensures Ok(State(EMPTY, map[]))
  {
  }

  /** Heap safety: over every run, the blocks and pages clients hold are at least as large as they asked, and pairwise
      disjoint in full. */
  lemma HeapSafe(events: seq<Event>, s: State, ptr: nat, ptr': nat)
    requires Run(State(EMPTY, map[]), events, s) && ptr in s.live && ptr' in s.live && ptr != ptr'
    ensures Holds(s.h, ptr, s.live[ptr]) && Holds(s.h, ptr', s.live[ptr'])
    ensures Room(s.h, ptr, s.live[ptr]) > 0 && Room(s.h, ptr, s.live[ptr]) >= s.live[ptr].size
    ensures ptr + Room(s.h, ptr, s.live[ptr]) <= ptr' || ptr' + Room(s.h, ptr', s.live[ptr']) <= ptr
  {
    hide Holds, Room, HeapOk;
    StartOk();
    RunOk(State(EMPTY, map[]), events, s);
    LiveDisjoint(s, ptr, ptr');
    InsideExtent(s.h, ptr, s.live[ptr]);
  }

  /** A pointer `kmalloc` returns is not one a client already holds. */
  lemma MallocFresh(s: State, sz: nat, page: nat, ref: nat)
    requires Ok(s) && Legal(s, Malloc(sz, page, ref))
    ensures MallocPtr(s.h, sz, page) !in s.live
  {
    var ptr := MallocPtr(s.h, sz, page);
    if ptr in s.live {
      if sz < LARGEST_SUBPAGE_SIZE {
        FreshBlock(s, sz, page, ref);
      } else {
        FreshPages(s, sz, page);
      }
    }
  }

  lemma FreshPages(s: State, sz: nat, page: nat)
    requires Ok(s) && FreshExtent(s.h.ext, page, PagesFor(sz))
    ensures page * PAGE_SIZE !in s.live
  {
    FreshOk(s.h.ext, page, PagesFor(sz));
    var ptr := page * PAGE_SIZE;
    assert ptr / PAGE_SIZE == page;
    if ptr in s.live {
      var l := s.live[ptr];
      if l.InBlock? {
        BlockNotBig(s.h, ptr, l.p, l.i);
      }
    }
  }

  lemma FreshBlock(s: State, sz: nat, page: nat, ref: nat)
    requires Ok(s) && Legal(s, Malloc(sz, page, ref)) && sz < LARGEST_SUBPAGE_SIZE
    ensures MallocPtr(s.h, sz, page) !in s.live
  {
    var h, t := s.h, TypeFor(sz);
    var h', p, i := SubMalloc(h, t, page, ref), ChosenPage(h, t), ChosenBlock(h, t);
    var ptr := MallocPtr(h, sz, page);
    SubMallocOk(h, t, page, ref);
    MallocPtrIs(h, sz, page, ref);
    ChosenUnused(h, t, ptr);
    if ptr in s.live {
      hide HeapOk, Block, Big;
      var l := s.live[ptr];
      assert Holds(h', ptr, l);
      if l.InBlock? {
        BlockUnique(h', ptr, p, i, l.p, l.i);
      } else {
        BlockNotBig(h', ptr, p, i);
      }
    }
  }

  lemma ChosenUnused(h: Heap, t: nat, ptr: nat)
    requires HeapOk(h) && Listed(h, t)
    ensures !Block(h, ptr, ChosenPage(h, t), ChosenBlock(h, t))
  {
  }

  /** Bookkeeping: when no client holds a block, every heap page has gone back. */
  lemma AllReturned(s: State)
    requires Ok(s) && forall ptr :: ptr in s.live ==> s.live[ptr].InPages?
    ensures s.h.pages == map[] && s.h.all == [] && forall t :: 0 <= t < NSIZES ==> s.h.sized[t] == []
  {
    forall p | p in s.h.pages
      ensures false
    {
      LiveBlock(s, p);
    }
    assert s.h.pages == map[];
    FirstIn(s.h.all);
    forall t | 0 <= t < NSIZES
      ensures s.h.sized[t] == []
    {
      assert SizedOk(s.h, t);
      FirstIn(s.h.sized[t]);
    }
  }

  /** Every listed page has a block that some client holds. */
  lemma LiveBlock(s: State, p: nat)
    requires Ok(s) && p in s.h.pages
    ensures exists ptr :: ptr in s.live && s.live[ptr].InBlock? && s.live[ptr].p == p
  {
    var g := s.h.pages[p];
    var i := Missing(g.free, PerPage(g.typ));
    var ptr := BlockAddr(g, i);
    assert Block(s.h, ptr, p, i);
    var l := s.live[ptr];
    if l.InPages? {
      BlockNotBig(s.h, ptr, p, i);
    } else {
      BlockUnique(s.h, ptr, p, i, l.p, l.i);
    }
  }

  lemma {:induction false} Missing(l: seq<nat>, n: nat) returns (i: nat)
    requires |l| < n
    ensures i < n && i !in l
  {
    var k := 0;
    while k < n && k in l
      invariant k <= n && forall j :: 0 <= j < k ==> j in l
    {
      k := k + 1;
    }
    if k == n {
      Onto(l, n);
    }
    i := k;
  }

  lemma {:induction false} Onto(l: seq<nat>, n: nat)
    requires forall j :: 0 <= j < n ==> j in l
    ensures |l| >= n
  {
    if n > 0 {
      var k := IndexOf(l, n - 1);
      var m := DeleteAt(l, k);
      forall j | 0 <= j < n - 1
        ensures j in m
      {
        var x := IndexOf(l, j);
        assert m[if x < k then x else x - 1] == j;
      }
      Onto(m, n - 1);
    }
  }

  /** Page `p` covers the address `ptr`. */
  predicate Covers(g: HPage, ptr: nat) {
    g.addr <= ptr < g.addr + PAGE_SIZE
  }

  /** Block `i` is found from the offset of `ptr` in its page. */
  predicate OffsetGives(g: HPage, ptr: nat, i: nat)
    requires g.typ < NSIZES
  {
    (ptr - g.addr) % SizeOf(g.typ) == 0 && (ptr - g.addr) / SizeOf(g.typ) == i
  }

  /** Routing: a live pointer lies on a heap page exactly when it came from the subpage allocator; that page
      is the one it came from, and its offset gives the block back. */
  lemma Routes(s: State, ptr: nat, p: nat)
    requires Ok(s) && ptr in s.live && p in s.h.pages
    ensures Covers(s.h.pages[p], ptr) <==> s.live[ptr].InBlock? && s.live[ptr].p == p
    ensures s.h.pages[p].typ < NSIZES
    ensures s.live[ptr].InBlock? && s.live[ptr].p == p ==> OffsetGives(s.h.pages[p], ptr, s.live[ptr].i)
  {
    var h, l, g := s.h, s.live[ptr], s.h.pages[p];
    assert Holds(h, ptr, l) && HeapOk(h) && PageOk(g);
    CoversIff(g, ptr);
    LeasePage(h, ptr, l, p);
    if l.InBlock? && l.p == p {
      hide HeapOk, PageOk, LiveOk;
      BlockIndex(g, l.i);
    }
  }

  /** A lease starts on a heap page exactly if it is a block of that page. */
  lemma LeasePage(h: Heap, ptr: nat, l: Lease, p: nat)
    requires HeapOk(h) && Holds(h, ptr, l) && p in h.pages
    ensures ptr / PAGE_SIZE == PageNo(h.pages[p]) <==> l.InBlock? && l.p == p
  {
    assert Owned(h, PageNo(h.pages[p]));
    if l.InBlock? {
      BlockNotBig(h, ptr, l.p, l.i);
      hide PageOk, ListsOk, ExtentsOk, BlockAddr;
    }
  }

  lemma CoversIff(g: HPage, ptr: nat)
    requires g.addr % PAGE_SIZE == 0
    ensures Covers(g, ptr) <==> ptr / PAGE_SIZE == PageNo(g)
  {
  }

  // ---------------------------------------------------------------------------------------
  // The page allocator underneath
  // ---------------------------------------------------------------------------------------

  const FIRST_PAGE: nat := 0x8000_0000 / PAGE_SIZE

  ghost predicate IsHead(owners: seq<PageTable.Owner>, a: nat) {
    FIRST_PAGE <= a < FIRST_PAGE + |owners| && owners[a - FIRST_PAGE].Kernel?
  }

  /** The kernel extents of the page table, as page numbers of kernel virtual addresses. */
  ghost function KernelExtents(owners: seq<PageTable.Owner>): map<nat, nat> {
    map a: nat | FIRST_PAGE <= a < FIRST_PAGE + |owners| && IsHead(owners, a) :: owners[a - FIRST_PAGE].npages
  }

  ghost predicate HeadsApart(owners: seq<PageTable.Owner>) {
    (forall h :: 0 <= h < |owners| && owners[h].Kernel? ==> owners[h].npages > 0) &&
    forall h, g :: 0 <= h < g < |owners| && owners[h].Kernel? && owners[g].Kernel? ==> h + owners[h].npages <= g
  }

  lemma ExtentsOfHeads(owners: seq<PageTable.Owner>)
    requires HeadsApart(owners)
    ensures ExtentsOk(KernelExtents(owners))
  {
    var ext := KernelExtents(owners);
    forall a, b | a in ext && b in ext && a < b
      ensures a + ext[a] <= b
    {
      var h, g := a - FIRST_PAGE, b - FIRST_PAGE;
      assert owners[h].Kernel? && owners[g].Kernel?;
    }
  }

  /** They never overlap, because the page table keeps them apart. */
  lemma KernelExtentsOk(t: PageTable.Frames)
    requires PageTable.FramesOk(t)
    ensures ExtentsOk(KernelExtents(t.owners))
  {
    hide ExtentsOk, KernelExtents;
    assert PageTable.ExtentsOk(t.owners);
    ExtentsOfHeads(t.owners);
  }

  /** No kernel extent meets the frames `f .. f + n - 1`. */
  ghost predicate RunApart(owners: seq<PageTable.Owner>, f: nat, n: nat) {
    forall h :: 0 <= h < |owners| && owners[h].Kernel? ==> f + n <= h || h + owners[h].npages <= f
  }

  lemma FreeRunApart(owners: seq<PageTable.Owner>, f: nat, n: nat)
    requires n > 0 && PageTable.FreeRun(owners, f, n)
    ensures RunApart(owners, f, n)
  {
    assert PageTable.TrulyFree(owners, f);
    forall k | f <= k < f + n
      ensures owners[k].Free?
    {
      assert PageTable.TrulyFree(owners, k);
    }
    forall h | 0 <= h < |owners| && owners[h].Kernel?
      ensures f + n <= h || h + owners[h].npages <= f
    {
      assert h <= f < h + owners[h].npages ==> PageTable.InExtent(owners, f);
    }
  }

  lemma FreshOfRun(owners: seq<PageTable.Owner>, f: nat, n: nat)
    requires n > 0 && RunApart(owners, f, n)
    ensures FreshExtent(KernelExtents(owners), FIRST_PAGE + f, n)
  {
  }

  lemma MarkedExtents(owners: seq<PageTable.Owner>, f: nat, n: nat)
    requires f < |owners|
    ensures KernelExtents(owners[f := PageTable.Kernel(n)]) == KernelExtents(owners)[FIRST_PAGE + f := n]
  {
  }

  /** A run of free frames is fresh, and marking it adds exactly that extent. */
  lemma KernelExtentsMark(t: PageTable.Frames, f: nat, n: nat)
    requires n > 0 && PageTable.FreeRun(t.owners, f, n)
    ensures f < |t.owners| && FreshExtent(KernelExtents(t.owners), FIRST_PAGE + f, n)
    ensures KernelExtents(PageTable.MarkKernel(t, f, n).owners) == KernelExtents(t.owners)[FIRST_PAGE + f := n]
  {
    hide KernelExtents, RunApart, FreshExtent;
    FreeRunApart(t.owners, f, n);
    FreshOfRun(t.owners, f, n);
    MarkedExtents(t.owners, f, n);
  }

  /** Freeing a marked head frame removes exactly its extent. */
  lemma KernelExtentsUnmark(t: PageTable.Frames, f: nat)
    requires f < |t.owners| && t.owners[f].Kernel?
    ensures KernelExtents(PageTable.UnmarkKernel(t, f).owners) == KernelExtents(t.owners) - {FIRST_PAGE + f}
  {
  }
}
