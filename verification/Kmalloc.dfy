/** The kernel heap of kern/vm/kmalloc.c in memory: page descriptors ("pagerefs") on two families of linked
    lists, free lists threaded through the free blocks, and a bitmap of the descriptors in use. A pointer to
    a pageref is its number, root page by root page. */
module Kmalloc {
  import opened Arithmetic
  import opened Basics
  import opened Chains
  import opened Heap

  const INVALID_OFFSET: int := 0xffff
  const INUSE_WORDS: nat := 8
  const SIZEOF_PAGEREF: nat := 16
  const WORD_SIZE: nat := 4

  /** The variables of the allocator, and the words of memory it uses. */
  datatype Store = Store(
    sizebases: seq<int>, allbase: int, nextSame: map<int, int>, nextAll: map<int, int>,
    pab: map<int, int>, freeoff: map<int, int>, nfree: map<int, int>,
    inuse: seq<bool>, numinuse: seq<nat>, rootpage: seq<nat>, mem: map<int, int>)

  function MKPAB(pa: nat, blk: nat): nat {
    (pa - pa % PAGE_SIZE) + blk % PAGE_SIZE
  }

  function PR_PAGEADDR(pab: nat): nat {
    pab - pab % PAGE_SIZE
  }

  function PR_BLOCKTYPE(pab: nat): nat {
    pab % PAGE_SIZE
  }

  lemma Packed(pa: nat, blk: nat)
    requires pa % PAGE_SIZE == 0 && blk < PAGE_SIZE
    ensures PR_PAGEADDR(MKPAB(pa, blk)) == pa && PR_BLOCKTYPE(MKPAB(pa, blk)) == blk
  {
  }

  // ---------------------------------------------------------------------------------------
  // Free lists in memory
  // ---------------------------------------------------------------------------------------

  function Addrs(addr: nat, t: nat, free: seq<nat>): (l: seq<nat>)
    requires t < NSIZES
    ensures |l| == |free| && forall k :: 0 <= k < |l| ==> l[k] == addr + free[k] * SizeOf(t)
  {
    if free == [] then [] else [addr + free[0] * SizeOf(t)] + Addrs(addr, t, free[1..])
  }

  function HeadAddr(addr: nat, t: nat, free: seq<nat>): int
    requires t < NSIZES
  {
    if free == [] then NULL else addr + free[0] * SizeOf(t)
  }

  function HeadOffset(t: nat, free: seq<nat>): int
    requires t < NSIZES
  {
    if free == [] then INVALID_OFFSET else free[0] * SizeOf(t)
  }

  /** The free list of a page is threaded through memory. */
  ghost predicate FreeListOk(mem: map<int, int>, g: HPage)
    requires g.typ < NSIZES
  {
    Chain(mem, HeadAddr(g.addr, g.typ, g.free), Addrs(g.addr, g.typ, g.free))
  }

  /** The pageref `p` describes page `g`. */
  ghost predicate RefOk(s: Store, p: nat, g: HPage) {
    g.typ < NSIZES && p in s.pab && p in s.freeoff && p in s.nfree &&
    s.pab[p] == MKPAB(g.addr, g.typ) && s.nfree[p] == |g.free| && s.freeoff[p] == HeadOffset(g.typ, g.free)
  }

  function Count(bits: seq<bool>): nat {
    if bits == [] then 0 else (if bits[0] then 1 else 0) + Count(bits[1..])
  }

  /** Every root's counter is the number of bits set in its part of the bitmap. */
  ghost predicate CountsOk(inuse: seq<bool>, numinuse: seq<nat>) {
    |inuse| == TOTAL_PAGEREFS && |numinuse| == NUM_PAGEREFPAGES &&
    forall r :: 0 <= r < NUM_PAGEREFPAGES ==> numinuse[r] == Count(RootBits(inuse, r))
  }

  function RootBits(inuse: seq<bool>, r: nat): seq<bool>
    requires |inuse| == TOTAL_PAGEREFS && r < NUM_PAGEREFPAGES
  {
    inuse[r * NPAGEREFS_PER_PAGE..(r + 1) * NPAGEREFS_PER_PAGE]
  }

  ghost predicate BitsOk(inuse: seq<bool>, pages: map<nat, HPage>) {
    |inuse| == TOTAL_PAGEREFS && forall p :: 0 <= p < TOTAL_PAGEREFS ==> (inuse[p] <==> p in pages)
  }

  ghost predicate RootsOk(rootpage: seq<nat>, roots: map<nat, nat>) {
    |rootpage| == NUM_PAGEREFPAGES &&
    forall r :: 0 <= r < NUM_PAGEREFPAGES ==> rootpage[r] == if r in roots then roots[r] * PAGE_SIZE else 0
  }

  ghost predicate ListsRep(s: Store, h: Heap) {
    |s.sizebases| == NSIZES && |h.sized| == NSIZES && Chain(s.nextAll, s.allbase, h.all) &&
    forall t :: 0 <= t < NSIZES ==> Chain(s.nextSame, s.sizebases[t], h.sized[t])
  }

  ghost predicate PagesRep(s: Store, h: Heap) {
    forall p :: p in h.pages ==> RefOk(s, p, h.pages[p]) && FreeListOk(s.mem, h.pages[p])
  }

  /** The store represents the heap. */
  ghost predicate Rep(s: Store, h: Heap) {
    ListsRep(s, h) && PagesRep(s, h) && BitsOk(s.inuse, h.pages) && CountsOk(s.inuse, s.numinuse) &&
    RootsOk(s.rootpage, h.roots)
  }

  lemma FreeListPop(mem: map<int, int>, g: HPage)
    requires g.typ < NSIZES && FreeListOk(mem, g) && g.free != []
    ensures var x := BlockAddr(g, g.free[0]);
      x in mem && mem[x] == HeadAddr(g.addr, g.typ, g.free[1..]) && FreeListOk(mem, g.(free := g.free[1..]))
  {
    var l := Addrs(g.addr, g.typ, g.free);
    assert l[1..] == Addrs(g.addr, g.typ, g.free[1..]);
    ChainStep(mem, mem[BlockAddr(g, g.free[0])], l[1..]);
  }

  /** An address on the free list is one of its blocks. */
  lemma OnFreeList(addr: nat, t: nat, free: seq<nat>, x: nat)
    requires t < NSIZES && x in Addrs(addr, t, free)
    ensures exists i :: i in free && x == addr + i * SizeOf(t)
  {
    var k :| 0 <= k < |free| && x == Addrs(addr, t, free)[k];
    assert free[k] in free;
  }

  lemma FreeListPush(mem: map<int, int>, g: HPage, i: nat)
    requires g.typ < NSIZES && FreeListOk(mem, g) && i !in g.free
    ensures FreeListOk(mem[BlockAddr(g, i) := HeadAddr(g.addr, g.typ, g.free)], g.(free := [i] + g.free))
  {
    var x := BlockAddr(g, i);
    var l := Addrs(g.addr, g.typ, g.free);
    assert x !in l by {
      if x in l {
        OnFreeList(g.addr, g.typ, g.free, x);
        var j :| j in g.free && x == g.addr + j * SizeOf(g.typ);
        BlockIndex(g, i);
        BlockIndex(g, j);
      }
    }
    ChainCons(mem, HeadAddr(g.addr, g.typ, g.free), l, x);
    assert ([i] + g.free)[1..] == g.free;
    assert Addrs(g.addr, g.typ, [i] + g.free) == [x] + l;
  }

  /** Free blocks of a page lie on it. */
  lemma FreeOnPage(g: HPage, x: nat)
    requires g.typ < NSIZES && g.addr % PAGE_SIZE == 0 && (forall i :: i in g.free ==> i < PerPage(g.typ))
    requires x in Addrs(g.addr, g.typ, g.free)
    ensures g.addr <= x < g.addr + PAGE_SIZE
  {
    OnFreeList(g.addr, g.typ, g.free, x);
    var i :| i in g.free && x == g.addr + i * SizeOf(g.typ);
    MulNonneg(i, SizeOf(g.typ));
    MulMono(i + 1, PerPage(g.typ), SizeOf(g.typ));
    MulAdd(i, 1, SizeOf(g.typ));
  }

  /** Writing outside a page does not disturb its free list. */
  lemma FreeListFrame(mem: map<int, int>, mem': map<int, int>, g: HPage)
    requires g.typ < NSIZES && g.addr % PAGE_SIZE == 0 && (forall i :: i in g.free ==> i < PerPage(g.typ))
    requires FreeListOk(mem, g)
    requires forall x :: x in mem && g.addr <= x < g.addr + PAGE_SIZE ==> x in mem' && mem'[x] == mem[x]
    ensures FreeListOk(mem', g)
  {
    forall x | x in Addrs(g.addr, g.typ, g.free)
      ensures g.addr <= x < g.addr + PAGE_SIZE
    {
      FreeOnPage(g, x);
    }
    ChainFrame(mem, mem', HeadAddr(g.addr, g.typ, g.free), Addrs(g.addr, g.typ, g.free));
  }

  /** The word at `x` keeps clear of the `n` bytes from `ptr`. */
  predicate WordOutside(x: int, ptr: nat, n: nat) {
    x + WORD_SIZE <= ptr || ptr + n <= x
  }

  /** A client may do what it likes to the block or the pages it holds: as long as every word outside is as it was, no
      free list of the heap is disturbed. */
  lemma ClientWrite(s: Store, st: State, ptr: nat, mem': map<int, int>)
    requires Rep(s, st.h) && Ok(st) && ptr in st.live && Holds(st.h, ptr, st.live[ptr])
    requires forall x :: x in s.mem && WordOutside(x, ptr, Room(st.h, ptr, st.live[ptr])) ==>
      x in mem' && mem'[x] == s.mem[x]
    ensures Rep(s.(mem := mem'), st.h)
  {
    var h, room := st.h, Room(st.h, ptr, st.live[ptr]);
    hide Ok, Chain, ListsRep, BitsOk, CountsOk, RootsOk, Holds, Room;
    forall p | p in h.pages
      ensures FreeListOk(mem', h.pages[p])
    {
      var g := h.pages[p];
      forall y | y in Addrs(g.addr, g.typ, g.free)
        ensures WordOutside(y, ptr, room)
      {
        FreeNotHeld(st, ptr, p, y);
      }
      ChainFrame(s.mem, mem', HeadAddr(g.addr, g.typ, g.free), Addrs(g.addr, g.typ, g.free));
    }
    MemoryOnly(s, h, mem');
  }

  lemma MemoryOnly(s: Store, h: Heap, mem': map<int, int>)
    requires Rep(s, h) && forall p :: p in h.pages ==> FreeListOk(mem', h.pages[p])
    ensures Rep(s.(mem := mem'), h)
  {
  }

  /** A lease in the extent of a heap page is a block of that page. */
  lemma LeaseOnPage(h: Heap, ptr: nat, l: Lease, p: nat)
    requires OwnershipOk(h) && Holds(h, ptr, l) && p in h.pages && ExtentOf(h, ptr, l) == PageNo(h.pages[p])
    ensures l.InBlock? && l.p == p
  {
  }

  lemma HeapFacts(h: Heap, p: nat)
    requires HeapOk(h) && p in h.pages
    ensures PageOk(h.pages[p]) && ExtentsOk(h.ext) && OwnershipOk(h)
    ensures PageNo(h.pages[p]) in h.ext && h.ext[PageNo(h.pages[p])] == 1
  {
  }

  /** A free block, link word and all, keeps clear of the whole of what any client holds. */
  lemma FreeNotHeld(st: State, ptr: nat, p: nat, y: nat)
    requires Ok(st) && ptr in st.live && p in st.h.pages && st.h.pages[p].typ < NSIZES
    requires y in Addrs(st.h.pages[p].addr, st.h.pages[p].typ, st.h.pages[p].free)
    ensures Holds(st.h, ptr, st.live[ptr])
    ensures y + SizeOf(st.h.pages[p].typ) <= ptr || ptr + Room(st.h, ptr, st.live[ptr]) <= y
  {
    hide HeapOk, OwnershipOk, ExtentsOk, Big, Addrs;
    var h, l, g := st.h, st.live[ptr], st.h.pages[p];
    assert Holds(h, ptr, l);
    HeapFacts(h, p);
    OnFreeList(g.addr, g.typ, g.free, y);
    var j :| j in g.free && y == BlockAddr(g, j);
    BlockInside(g, j);
    PageStart(g);
    InsideExtent(h, ptr, l);
    var a := ExtentOf(h, ptr, l);
    if a < PageNo(g) {
      ExtentsApart(h.ext, a, PageNo(g));
    } else if a > PageNo(g) {
      ExtentsApart(h.ext, PageNo(g), a);
    } else {
      LeaseOnPage(h, ptr, l, p);
      if l.i < j {
        BlocksApart(g, l.i, j);
      } else {
        BlocksApart(g, j, l.i);
      }
    }
  }

  // ---------------------------------------------------------------------------------------
  // The bitmap
  // ---------------------------------------------------------------------------------------

  lemma {:induction false} CountFlip(bits: seq<bool>, i: nat, b: bool)
    requires i < |bits| && bits[i] != b
    ensures Count(bits[i := b]) == Count(bits) + (if b then 1 else -1)
    decreases |bits|
  {
    if i == 0 {
      assert bits[0 := b][1..] == bits[1..];
    } else {
      CountFlip(bits[1..], i - 1, b);
      assert bits[i := b][1..] == bits[1..][i - 1 := b];
    }
  }

  lemma {:induction false} CountFull(bits: seq<bool>)
    ensures Count(bits) <= |bits| && (Count(bits) == |bits| <==> forall i :: 0 <= i < |bits| ==> bits[i])
  {
    if bits != [] {
      CountFull(bits[1..]);
      assert forall i :: 0 <= i < |bits| - 1 ==> bits[1..][i] == bits[i + 1];
      assert (forall i :: 0 <= i < |bits| ==> bits[i]) <==>
             bits[0] && (forall i :: 0 <= i < |bits| - 1 ==> bits[1..][i]) by {
        if bits[0] && (forall i :: 0 <= i < |bits| - 1 ==> bits[1..][i]) {
          forall i | 0 <= i < |bits|
            ensures bits[i]
          {
            assert i > 0 ==> bits[1..][i - 1];
          }
        }
      }
    }
  }

  lemma RootBitsFlip(inuse: seq<bool>, p: nat, b: bool, r: nat)
    requires |inuse| == TOTAL_PAGEREFS && p < TOTAL_PAGEREFS && r < NUM_PAGEREFPAGES
    ensures r != p / NPAGEREFS_PER_PAGE ==> RootBits(inuse[p := b], r) == RootBits(inuse, r)
    ensures r == p / NPAGEREFS_PER_PAGE ==>
      RootBits(inuse[p := b], r) == RootBits(inuse, r)[p % NPAGEREFS_PER_PAGE := b]
  {
  }

  /** Setting or clearing a bit and adjusting the counter of its root keeps the counters right. */
  lemma CountsFlip(inuse: seq<bool>, numinuse: seq<nat>, p: nat, b: bool)
    requires CountsOk(inuse, numinuse) && p < TOTAL_PAGEREFS && inuse[p] != b
    ensures var r := p / NPAGEREFS_PER_PAGE;
      (b ==> CountsOk(inuse[p := b], numinuse[r := numinuse[r] + 1])) &&
      (!b ==> numinuse[r] > 0 && CountsOk(inuse[p := b], numinuse[r := numinuse[r] - 1]))
  {
    var r0 := p / NPAGEREFS_PER_PAGE;
    RootBitsFlip(inuse, p, b, r0);
    assert RootBits(inuse, r0)[p % NPAGEREFS_PER_PAGE] == inuse[p];
    CountFlip(RootBits(inuse, r0), p % NPAGEREFS_PER_PAGE, b);
    forall r | 0 <= r < NUM_PAGEREFPAGES && r != r0
      ensures Count(RootBits(inuse[p := b], r)) == numinuse[r]
    {
      RootBitsFlip(inuse, p, b, r);
    }
  }

  // ---------------------------------------------------------------------------------------
  // Steps of the representation
  // ---------------------------------------------------------------------------------------

  function TakeRef(s: Store, p: nat, g: HPage): Store
    requires g.typ < NSIZES && g.free != []
  {
    s.(nfree := s.nfree[p := |g.free| - 1], freeoff := s.freeoff[p := HeadOffset(g.typ, g.free[1..])])
  }

  lemma RepTake(s: Store, h: Heap, p: nat)
    requires Rep(s, h) && p in h.pages && h.pages[p].free != []
    ensures h.pages[p].typ < NSIZES && Rep(TakeRef(s, p, h.pages[p]), TakeBlock(h, p))
  {
    hide FreeListOk, Chain, CountsOk, RootsOk, MKPAB, HeadOffset;
    FreeListPop(s.mem, h.pages[p]);
  }

  function GiveRef(s: Store, p: nat, g: HPage, i: nat): Store
    requires g.typ < NSIZES
  {
    s.(mem := s.mem[BlockAddr(g, i) := HeadAddr(g.addr, g.typ, g.free)],
       nfree := s.nfree[p := |g.free| + 1], freeoff := s.freeoff[p := i * SizeOf(g.typ)])
  }

  lemma OtherPages(h: Heap, p: nat, q: nat, x: nat)
    requires HeapOk(h) && p in h.pages && q in h.pages && p != q && Covers(h.pages[p], x)
    ensures !Covers(h.pages[q], x)
  {
  }

  lemma GiveFrame(s: Store, h: Heap, p: nat, i: nat, q: nat)
    requires PagesRep(s, h) && HeapOk(h) && p in h.pages && q in h.pages && p != q
    requires h.pages[p].typ < NSIZES && i < PerPage(h.pages[p].typ)
    ensures FreeListOk(GiveRef(s, p, h.pages[p], i).mem, h.pages[q])
  {
    var g := h.pages[p];
    var x := BlockAddr(g, i);
    HeapFacts(h, p);
    HeapFacts(h, q);
    hide HeapOk, OwnershipOk, ExtentsOk, Chain;
    BlockInside(g, i);
    OtherPages(h, p, q, x);
    FreeListFrame(s.mem, GiveRef(s, p, g, i).mem, h.pages[q]);
  }

  lemma RepGive(s: Store, h: Heap, p: nat, i: nat)
    requires Rep(s, h) && HeapOk(h) && p in h.pages && i !in h.pages[p].free
    requires h.pages[p].typ < NSIZES && i < PerPage(h.pages[p].typ)
    ensures Rep(GiveRef(s, p, h.pages[p], i), GiveBack(h, p, i))
  {
    hide HeapOk, FreeListOk, Chain, CountsOk, RootsOk, MKPAB, PerPage;
    var g := h.pages[p];
    FreeListPush(s.mem, g, i);
    forall q | q in h.pages && q != p
      ensures FreeListOk(GiveRef(s, p, g, i).mem, h.pages[q])
    {
      GiveFrame(s, h, p, i, q);
    }
  }

  lemma RepRoot(s: Store, h: Heap, r: nat, ref: nat)
    requires Rep(s, h) && r < NUM_PAGEREFPAGES
    ensures Rep(s.(rootpage := s.rootpage[r := ref * PAGE_SIZE]), AddRoot(h, r, ref))
  {
  }

  /** A fresh page enters the variables of the allocator. */
  function NewRef(s: Store, p: nat, addr: nat, t: nat, mem: map<int, int>): Store
    requires t < NSIZES && t < |s.sizebases| && p < |s.inuse| && p / NPAGEREFS_PER_PAGE < |s.numinuse|
  {
    Store(s.sizebases[t := p], p, s.nextSame[p := s.sizebases[t]], s.nextAll[p := s.allbase],
          s.pab[p := MKPAB(addr, t)], s.freeoff[p := (PerPage(t) - 1) * SizeOf(t)], s.nfree[p := PerPage(t)],
          s.inuse[p := true], s.numinuse[p / NPAGEREFS_PER_PAGE := s.numinuse[p / NPAGEREFS_PER_PAGE] + 1],
          s.rootpage, mem)
  }

  lemma NewLinks(s: Store, h: Heap, p: nat, addr: nat, t: nat, mem: map<int, int>)
    requires ListsRep(s, h) && ListsOk(h) && p !in h.pages && t < NSIZES && p < |s.inuse|
    requires p / NPAGEREFS_PER_PAGE < |s.numinuse|
    ensures ListsRep(NewRef(s, p, addr, t, mem), NewPage(h, p, addr, t))
  {
    hide Chain;
    assert p !in h.all && SizedOk(h, t);
    ChainCons(s.nextAll, s.allbase, h.all, p);
    ChainCons(s.nextSame, s.sizebases[t], h.sized[t], p);
    forall u | 0 <= u < NSIZES && u != t
      ensures Chain(s.nextSame[p := s.sizebases[t]], s.sizebases[u], h.sized[u])
    {
      assert SizedOk(h, u);
      ChainFrame(s.nextSame, s.nextSame[p := s.sizebases[t]], s.sizebases[u], h.sized[u]);
    }
  }

  lemma NewRefs(s: Store, h: Heap, p: nat, addr: nat, t: nat, mem: map<int, int>)
    requires PagesRep(s, h) && p !in h.pages && t < NSIZES && t < |s.sizebases| && t < |h.sized| && p < |s.inuse|
    requires p / NPAGEREFS_PER_PAGE < |s.numinuse|
    requires FreeListOk(mem, HPage(addr, t, Descending(PerPage(t))))
    requires forall q :: q in h.pages ==> FreeListOk(mem, h.pages[q])
    ensures PagesRep(NewRef(s, p, addr, t, mem), NewPage(h, p, addr, t))
  {
    hide FreeListOk, MKPAB;
  }

  /** Writes confined to a page that is not a heap page yet. */
  lemma FreshFrame(s: Store, h: Heap, addr: nat, mem: map<int, int>)
    requires PagesRep(s, h) && HeapOk(h) && addr % PAGE_SIZE == 0 && addr / PAGE_SIZE !in h.ext
    requires forall x :: x in s.mem && !(addr <= x < addr + PAGE_SIZE) ==> x in mem && mem[x] == s.mem[x]
    ensures forall q :: q in h.pages ==> FreeListOk(mem, h.pages[q])
  {
    hide Chain, FreeListOk, HeapOk, ExtentsOk, OwnershipOk;
    forall q | q in h.pages
      ensures FreeListOk(mem, h.pages[q])
    {
      HeapFacts(h, q);
      FreeListFrame(s.mem, mem, h.pages[q]);
    }
  }

  lemma RepNew(s: Store, h: Heap, p: nat, addr: nat, t: nat, mem: map<int, int>)
    requires Rep(s, h) && HeapOk(h) && p !in h.pages && p < TOTAL_PAGEREFS && t < NSIZES
    requires addr % PAGE_SIZE == 0 && addr / PAGE_SIZE !in h.ext
    requires FreeListOk(mem, HPage(addr, t, Descending(PerPage(t))))
    requires forall x :: x in s.mem && !(addr <= x < addr + PAGE_SIZE) ==> x in mem && mem[x] == s.mem[x]
    ensures Rep(NewRef(s, p, addr, t, mem), NewPage(h, p, addr, t))
  {
    assert ListsOk(h);
    FreshFrame(s, h, addr, mem);
    hide HeapOk, ListsOk, FreeListOk, MKPAB, Chain;
    NewLinks(s, h, p, addr, t, mem);
    NewRefs(s, h, p, addr, t, mem);
    CountsFlip(s.inuse, s.numinuse, p, true);
    hide ListsRep, PagesRep, CountsOk;
  }

  /** The lists of the allocator without pageref `p`, which follows `a` on the list of all pages and `b` on
      the list of its size. */
  function UnlinkRef(s: Store, p: nat, t: nat, a: seq<nat>, b: seq<nat>): Store
    requires t < |s.sizebases| && p in s.nextAll && p in s.nextSame
  {
    s.(allbase := if a == [] then s.nextAll[p] else s.allbase,
       nextAll := Bypass(s.nextAll, a, s.nextAll[p]),
       sizebases := if b == [] then s.sizebases[t := s.nextSame[p]] else s.sizebases,
       nextSame := Bypass(s.nextSame, b, s.nextSame[p]))
  }

  lemma Unlinked(next: map<int, int>, head: int, l: seq<nat>, p: nat, k: nat)
    requires Chain(next, head, l) && Distinct(l) && k < |l| && l[k] == p
    ensures p in next && Chain(Bypass(next, l[..k], next[p]), if l[..k] == [] then next[p] else head, Remove(l, p))
  {
    assert IndexOf(l, p) == k;
    assert l == l[..k] + ([p] + l[k + 1..]);
    hide Chain;
    ChainRemove(next, head, l[..k], p, l[k + 1..]);
  }

  /** Bypassing a node of one list leaves the disjoint ones alone. */
  lemma UnlinkedOther(next: map<int, int>, head: int, l: seq<nat>, k: nat, link: int, head': int, l': seq<nat>)
    requires Chain(next, head', l') && k < |l| && forall x :: x in l' ==> x !in l
    ensures Chain(Bypass(next, l[..k], link), head', l')
  {
    hide Chain;
    assert l[..k] != [] ==> LastOf(l[..k]) == l[k - 1] && l[k - 1] in l;
    ChainFrame(next, Bypass(next, l[..k], link), head', l');
  }

  lemma DropLinks(s: Store, h: Heap, p: nat, t: nat, j: nat, k: nat)
    requires ListsRep(s, h) && ListsOk(h) && p in h.pages && t < NSIZES && h.pages[p].typ == t
    requires j < |h.all| && h.all[j] == p && k < |h.sized[t]| && h.sized[t][k] == p
    ensures p in s.nextAll && p in s.nextSame
    ensures ListsRep(UnlinkRef(s, p, t, h.all[..j], h.sized[t][..k]), DropPage(h, p))
  {
    hide Chain, Bypass, Distinct, Remove;
    var l := h.sized[t];
    assert SizedOk(h, t);
    Unlinked(s.nextAll, s.allbase, h.all, p, j);
    Unlinked(s.nextSame, s.sizebases[t], l, p, k);
    forall u | 0 <= u < NSIZES && u != t
      ensures Chain(Bypass(s.nextSame, l[..k], s.nextSame[p]), s.sizebases[u], h.sized[u])
    {
      assert SizedOk(h, u);
      UnlinkedOther(s.nextSame, s.sizebases[t], l, k, s.nextSame[p], s.sizebases[u], h.sized[u]);
    }
  }

  function DropRef(s: Store, p: nat): Store
    requires p < |s.inuse| && p / NPAGEREFS_PER_PAGE < |s.numinuse| && s.numinuse[p / NPAGEREFS_PER_PAGE] > 0
  {
    s.(inuse := s.inuse[p := false],
       numinuse := s.numinuse[p / NPAGEREFS_PER_PAGE := s.numinuse[p / NPAGEREFS_PER_PAGE] - 1])
  }

  lemma DropRest(s: Store, s': Store, h: Heap, p: nat)
    requires p in h.pages && p < TOTAL_PAGEREFS && h.pages[p].typ < |h.sized| && PagesRep(s, h)
    requires BitsOk(s.inuse, h.pages)
    requires s'.pab == s.pab && s'.freeoff == s.freeoff && s'.nfree == s.nfree && s'.mem == s.mem
    requires s'.inuse == s.inuse[p := false]
    ensures PagesRep(s', DropPage(h, p)) && BitsOk(s'.inuse, DropPage(h, p).pages)
  {
    hide FreeListOk, MKPAB, HeadOffset;
  }

  lemma ListsSame(s: Store, s': Store, h: Heap)
    requires ListsRep(s, h) && s'.sizebases == s.sizebases && s'.allbase == s.allbase
    requires s'.nextSame == s.nextSame && s'.nextAll == s.nextAll
    ensures ListsRep(s', h)
  {
    hide Chain;
  }

  lemma RepDrop(s: Store, h: Heap, p: nat, t: nat, j: nat, k: nat)
    requires Rep(s, h) && ListsOk(h) && p in h.pages && p < TOTAL_PAGEREFS && t < NSIZES && h.pages[p].typ == t
    requires j < |h.all| && h.all[j] == p && k < |h.sized[t]| && h.sized[t][k] == p
    ensures p in s.nextAll && p in s.nextSame && s.numinuse[p / NPAGEREFS_PER_PAGE] > 0
    ensures Rep(DropRef(UnlinkRef(s, p, t, h.all[..j], h.sized[t][..k]), p), DropPage(h, p))
  {
    assert s.inuse[p];
    assert |s.sizebases| == NSIZES == |h.sized|;
    hide ListsOk, ListsRep, PagesRep, BitsOk, CountsOk, RootsOk, Chain, Bypass, Remove, RootBits;
    DropLinks(s, h, p, t, j, k);
    CountsFlip(s.inuse, s.numinuse, p, false);
    var s1 := UnlinkRef(s, p, t, h.all[..j], h.sized[t][..k]);
    ListsSame(s1, DropRef(s1, p), DropPage(h, p));
    DropRest(s, DropRef(s1, p), h, p);
  }

  // ---------------------------------------------------------------------------------------
  // The code
  // ---------------------------------------------------------------------------------------

  /** `blocktype`: the smallest block type that holds the request. */
  method BlockType(clientsz: nat) returns (i: nat)
    requires clientsz <= LARGEST_SUBPAGE_SIZE
    ensures i == TypeFor(clientsz)
  {
    i := 0;
    while clientsz > SIZES[i]
      invariant i < NSIZES && (i > 0 ==> SizeOf(i - 1) < clientsz) && TypeFor(clientsz) == TypeFrom(clientsz, i)
      decreases NSIZES - i
    {
      i := i + 1;
    }
  }

  predicate WordFull(inuse: seq<bool>, w: nat)
    requires w * 32 + 32 <= |inuse|
  {
    forall j :: w * 32 <= j < w * 32 + 32 ==> inuse[j]
  }

  lemma RootFull(inuse: seq<bool>, numinuse: seq<nat>, r: nat)
    requires CountsOk(inuse, numinuse) && r < NUM_PAGEREFPAGES
    ensures numinuse[r] >= NPAGEREFS_PER_PAGE ==>
      forall q :: r * NPAGEREFS_PER_PAGE <= q < (r + 1) * NPAGEREFS_PER_PAGE ==> inuse[q]
  {
    var bits := RootBits(inuse, r);
    CountFull(bits);
    forall q | r * NPAGEREFS_PER_PAGE <= q < (r + 1) * NPAGEREFS_PER_PAGE && numinuse[r] >= NPAGEREFS_PER_PAGE
      ensures inuse[q]
    {
      assert bits[q - r * NPAGEREFS_PER_PAGE] == inuse[q];
    }
  }

  /** The search of `allocpageref`: the lowest clear bit of the whole bitmap, or -1 when all are set. */
  method FindUnused(inuse: seq<bool>, numinuse: seq<nat>) returns (p: int)
    requires CountsOk(inuse, numinuse)
    ensures p == -1 ==> forall q :: 0 <= q < TOTAL_PAGEREFS ==> inuse[q]
    ensures p != -1 ==> 0 <= p < TOTAL_PAGEREFS && !inuse[p] && forall q :: 0 <= q < p ==> inuse[q]
  {
    var whichroot := 0;
    while whichroot < NUM_PAGEREFPAGES
      invariant 0 <= whichroot <= NUM_PAGEREFPAGES
      invariant forall q :: 0 <= q < whichroot * NPAGEREFS_PER_PAGE ==> inuse[q]
    {
      RootFull(inuse, numinuse, whichroot);
      if numinuse[whichroot] < NPAGEREFS_PER_PAGE {
        p := FindInRoot(inuse, whichroot);
        if p != -1 {
          return;
        }
      }
      whichroot := whichroot + 1;
    }
    p := -1;
  }

  method FindInRoot(inuse: seq<bool>, r: nat) returns (p: int)
    requires |inuse| == TOTAL_PAGEREFS && r < NUM_PAGEREFPAGES
    ensures p == -1 ==> forall q :: r * NPAGEREFS_PER_PAGE <= q < (r + 1) * NPAGEREFS_PER_PAGE ==> inuse[q]
    ensures p != -1 ==> r * NPAGEREFS_PER_PAGE <= p < (r + 1) * NPAGEREFS_PER_PAGE && !inuse[p]
    ensures p != -1 ==> forall q :: r * NPAGEREFS_PER_PAGE <= q < p ==> inuse[q]
  {
    var i := 0;
    while i < INUSE_WORDS
      invariant 0 <= i <= INUSE_WORDS
      invariant forall q :: r * NPAGEREFS_PER_PAGE <= q < r * NPAGEREFS_PER_PAGE + i * 32 ==> inuse[q]
    {
      var w := r * INUSE_WORDS + i;
      if !WordFull(inuse, w) {
        var j := 0;
        while inuse[w * 32 + j]
          invariant 0 <= j < 32 && forall q :: w * 32 <= q < w * 32 + j ==> inuse[q]
          decreases 32 - j
        {
          j := j + 1;
        }
        return w * 32 + j;
      }
      i := i + 1;
    }
    p := -1;
  }

  /** Walks a list to node `x`; `prev` is the node before it, null when `x` comes first. */
  method FindPrevious(next: map<int, int>, head: int, ghost l: seq<nat>, x: nat) returns (prev: int)
    requires Chain(next, head, l) && x in l
    ensures prev == LastOf(l[..IndexOf(l, x)])
  {
    prev := NULL;
    var cur := head;
    ghost var n := 0;
    assert l[..0] == [];
    while cur != NULL && cur != x
      invariant 0 <= n <= |l| && Chain(next, cur, l[n..]) && prev == LastOf(l[..n]) && x !in l[..n]
      decreases |l| - n
    {
      ChainStep(next, cur, l[n..]);
      assert l[..n + 1] == l[..n] + [l[n]];
      prev := cur;
      cur := next[cur];
      n := n + 1;
    }
    ChainStep(next, cur, l[n..]);
    assert l == l[..n] + l[n..];
    assert IndexOf(l, x) == n;
  }

  /** The free list of a fresh page: every block points to the one below it. */
  method BuildFreeList(mem: map<int, int>, addr: nat, t: nat) returns (mem': map<int, int>, fl: int)
    requires t < NSIZES
    ensures fl == addr + (PerPage(t) - 1) * SizeOf(t)
    ensures FreeListOk(mem', HPage(addr, t, Descending(PerPage(t))))
    ensures forall x :: x in mem && !(addr <= x < addr + PAGE_SIZE) ==> x in mem' && mem'[x] == mem[x]
  {
    mem', fl := mem[addr := NULL], addr;
    var i := 1;
    BuildStart(mem, addr, t);
    while i < PerPage(t)
      invariant 1 <= i <= PerPage(t) && fl == addr + (i - 1) * SizeOf(t)
      invariant FreeListOk(mem', HPage(addr, t, Descending(i)))
      invariant forall x :: x in mem && !(addr <= x < addr + PAGE_SIZE) ==> x in mem' && mem'[x] == mem[x]
    {
      BuildStep(mem', addr, t, i);
      fl := addr + i * SizeOf(t);
      mem' := mem'[fl := addr + (i - 1) * SizeOf(t)];
      i := i + 1;
    }
  }

  lemma BuildStart(mem: map<int, int>, addr: nat, t: nat)
    requires t < NSIZES
    ensures FreeListOk(mem[addr := NULL], HPage(addr, t, Descending(1)))
  {
  }

  lemma BuildStep(mem: map<int, int>, addr: nat, t: nat, i: nat)
    requires t < NSIZES && 1 <= i < PerPage(t) && FreeListOk(mem, HPage(addr, t, Descending(i)))
    ensures FreeListOk(mem[addr + i * SizeOf(t) := addr + (i - 1) * SizeOf(t)], HPage(addr, t, Descending(i + 1)))
    ensures addr <= addr + i * SizeOf(t) < addr + PAGE_SIZE
  {
    var g := HPage(addr, t, Descending(i));
    MulNonneg(i, SizeOf(t));
    MulMono(i + 1, PerPage(t), SizeOf(t));
    MulAdd(i, 1, SizeOf(t));
    hide FreeListOk, PerPage;
    FreeListPush(mem, g, i);
    assert Descending(i + 1) == [i] + Descending(i) && Descending(i)[0] == i - 1;
  }

  /** The first pageref of a list with a free block, null when there is none. */
  ghost function FirstRef(pages: map<nat, HPage>, l: seq<nat>): int
    requires forall p :: p in l ==> p in pages
  {
    var k := FirstWithFree(pages, l);
    if k < |l| then l[k] else NULL
  }

  method FirstWithBlock(next: map<int, int>, head: int, nfree: map<int, int>, ghost l: seq<nat>,
                        ghost pages: map<nat, HPage>) returns (pr: int)
    requires Chain(next, head, l)
    requires forall p :: p in l ==> p in pages && p in nfree && nfree[p] == |pages[p].free|
    ensures pr == FirstRef(pages, l)
  {
    hide Chain;
    ghost var n := 0;
    pr := head;
    assert l[0..] == l;
    ChainStep(next, pr, l);
    while pr != NULL && nfree[pr] == 0
      invariant 0 <= n <= |l| && Chain(next, pr, l[n..]) && (if n == |l| then pr == NULL else pr == l[n])
      invariant forall j :: 0 <= j < n ==> pages[l[j]].free == []
      decreases |l| - n
    {
      ChainStep(next, pr, l[n..]);
      assert l[n] in l && l[n..][1..] == l[n + 1..];
      pr := next[pr];
      n := n + 1;
      ChainStep(next, pr, l[n..]);
    }
    assert n < |l| ==> l[n] in l;
    assert FirstWithFree(pages, l) == n;
  }

  /** The walk of `subpage_kfree`: the page of the list that covers the address. */
  method FindCovering(next: map<int, int>, head: int, pab: map<int, int>, ptr: nat, ghost l: seq<nat>,
                      ghost pages: map<nat, HPage>) returns (pr: int)
    requires Chain(next, head, l)
    requires forall p :: p in l ==> p in pages && p in pab && pab[p] == MKPAB(pages[p].addr, pages[p].typ)
    requires forall p :: p in l ==> pages[p].addr % PAGE_SIZE == 0 && pages[p].typ < PAGE_SIZE
    ensures pr == NULL ==> forall p :: p in l ==> !Covers(pages[p], ptr)
    ensures pr != NULL ==> pr >= 0 && pr in l && Covers(pages[pr], ptr)
  {
    hide Chain, MKPAB, PR_PAGEADDR;
    ghost var n := 0;
    pr := head;
    assert l[0..] == l;
    ChainStep(next, pr, l);
    while pr != NULL
      invariant 0 <= n <= |l| && Chain(next, pr, l[n..]) && (if n == |l| then pr == NULL else pr == l[n])
      invariant forall j :: 0 <= j < n ==> !Covers(pages[l[j]], ptr)
      decreases |l| - n
    {
      ChainStep(next, pr, l[n..]);
      assert l[n] in l && l[n..][1..] == l[n + 1..];
      Packed(pages[pr].addr, pages[pr].typ);
      var prpage := PR_PAGEADDR(pab[pr]);
      if prpage <= ptr < prpage + PAGE_SIZE {
        return;
      }
      pr := next[pr];
      n := n + 1;
      ChainStep(next, pr, l[n..]);
    }
  }

  /** The address of pageref `p` in memory. */
  function RefAddr(rootpage: seq<nat>, p: nat): nat
    requires p / NPAGEREFS_PER_PAGE < |rootpage|
  {
    rootpage[p / NPAGEREFS_PER_PAGE] + (p % NPAGEREFS_PER_PAGE) * SIZEOF_PAGEREF
  }

  /** Only its own root page holds a pageref. */
  lemma RefPage(rootpage: seq<nat>, h: Heap, p: nat, r: nat)
    requires RootsOk(rootpage, h.roots) && OwnershipOk(h) && ExtentsOk(h.ext) && p in h.pages
    requires r < NUM_PAGEREFPAGES && rootpage[r] != 0
    ensures p / NPAGEREFS_PER_PAGE < NUM_PAGEREFPAGES && rootpage[p / NPAGEREFS_PER_PAGE] != 0
    ensures var j := (RefAddr(rootpage, p) - rootpage[r]) / SIZEOF_PAGEREF;
      0 <= j < NPAGEREFS_PER_PAGE <==> r == p / NPAGEREFS_PER_PAGE
    ensures (RefAddr(rootpage, p) - rootpage[p / NPAGEREFS_PER_PAGE]) / SIZEOF_PAGEREF == p % NPAGEREFS_PER_PAGE
  {
  }

  /** The address a release hands to `free_kpages`, if any. */
  ghost function ReturnedAddr(st: State, ptr: nat): Option<nat>
    requires Legal(st, Free(ptr))
  {
    var a := GivenUp(st, ptr);
    if a.None? then None else Some(a.value * PAGE_SIZE)
  }

  class KHeap {
    var sizebases: seq<int>
    var allbase: int
    var nextSame: map<int, int>
    var nextAll: map<int, int>
    var pab: map<int, int>
    var freeoff: map<int, int>
    var nfree: map<int, int>
    var inuse: seq<bool>
    var numinuse: seq<nat>
    var rootpage: seq<nat>
    var mem: map<int, int>
    ghost var st: State

    ghost function Vars(): Store
      reads this
    {
      Store(sizebases, allbase, nextSame, nextAll, pab, freeoff, nfree, inuse, numinuse, rootpage, mem)
    }

    ghost predicate Valid()
      reads this
    {
      Rep(Vars(), st.h) && Ok(st)
    }

    constructor ()
      ensures Valid() && st == State(EMPTY, map[])
    {
      sizebases, allbase := [NULL, NULL, NULL, NULL, NULL, NULL, NULL, NULL], NULL;
      nextSame, nextAll, pab, freeoff, nfree, mem := map[], map[], map[], map[], map[], map[];
      inuse := seq(TOTAL_PAGEREFS, _ => false);
      numinuse, rootpage := seq(NUM_PAGEREFPAGES, _ => 0), seq(NUM_PAGEREFPAGES, _ => 0);
      st := State(EMPTY, map[]);
      new;
      StartOk();
      forall r | 0 <= r < NUM_PAGEREFPAGES
        ensures Count(RootBits(inuse, r)) == 0
      {
        CountNone(RootBits(inuse, r));
      }
    }

    /** `allocpageref`: the lowest unused pageref; the page for its root comes from the page allocator. */
    method AllocPageref(ref: nat) returns (p: int, asked: seq<nat>)
      requires CountsOk(inuse, numinuse) && |rootpage| == NUM_PAGEREFPAGES
      modifies this`inuse, this`numinuse, this`rootpage
      ensures p == -1 ==> forall q :: 0 <= q < TOTAL_PAGEREFS ==> old(inuse)[q]
      ensures p != -1 ==> 0 <= p < TOTAL_PAGEREFS && !old(inuse)[p] && forall q :: 0 <= q < p ==> old(inuse)[q]
      ensures p != -1 ==> inuse == old(inuse)[p := true]
      ensures p != -1 ==> numinuse == old(numinuse)[p / NPAGEREFS_PER_PAGE := old(numinuse)[p / NPAGEREFS_PER_PAGE] + 1]
      ensures p != -1 ==> rootpage == if old(rootpage)[p / NPAGEREFS_PER_PAGE] == 0
        then old(rootpage)[p / NPAGEREFS_PER_PAGE := ref * PAGE_SIZE] else old(rootpage)
      ensures p != -1 ==> asked == if old(rootpage)[p / NPAGEREFS_PER_PAGE] == 0 then [1] else []
    {
      asked := [];
      p := FindUnused(inuse, numinuse);
      if p != -1 {
        var r := p / NPAGEREFS_PER_PAGE;
        inuse := inuse[p := true];
        numinuse := numinuse[r := numinuse[r] + 1];
        if rootpage[r] == 0 {
          asked := [1];
          rootpage := rootpage[r := ref * PAGE_SIZE];
        }
      }
    }

    /** `freepageref`: find the root page that holds the pageref and clear its bit. */
    method FreePageref(p: nat, ghost h: Heap)
      requires CountsOk(inuse, numinuse) && RootsOk(rootpage, h.roots) && OwnershipOk(h) && ExtentsOk(h.ext)
      requires p in h.pages
      requires p < TOTAL_PAGEREFS && inuse[p]
      modifies this`inuse, this`numinuse
      ensures inuse == old(inuse)[p := false]
      ensures old(numinuse)[p / NPAGEREFS_PER_PAGE] > 0
      ensures numinuse == old(numinuse)[p / NPAGEREFS_PER_PAGE := old(numinuse)[p / NPAGEREFS_PER_PAGE] - 1]
    {
      assert |inuse| == TOTAL_PAGEREFS && |numinuse| == NUM_PAGEREFPAGES;
      hide OwnershipOk, ExtentsOk, RootsOk, CountsOk;
      CountsFlip(inuse, numinuse, p, false);
      RootKnown(rootpage, h, p);
      var whichroot := 0;
      while whichroot < NUM_PAGEREFPAGES
        invariant 0 <= whichroot <= p / NPAGEREFS_PER_PAGE && unchanged(this)
      {
        var page := rootpage[whichroot];
        if page != 0 {
          RefPage(rootpage, h, p, whichroot);
          var j := (RefAddr(rootpage, p) - page) / SIZEOF_PAGEREF;
          if 0 <= j < NPAGEREFS_PER_PAGE {
            inuse := inuse[whichroot * NPAGEREFS_PER_PAGE + j := false];
            numinuse := numinuse[whichroot := numinuse[whichroot] - 1];
            return;
          }
        }
        whichroot := whichroot + 1;
      }
    }

    /** `remove_lists`: take a pageref off the list of its size and off the list of all pages. */
    method RemoveLists(p: nat, t: nat, ghost h: Heap)
      requires ListsRep(Vars(), h) && t < NSIZES && p in h.all && p in h.sized[t]
      modifies this`sizebases, this`nextSame, this`allbase, this`nextAll
      ensures p in old(nextAll) && p in old(nextSame) && t < |old(sizebases)|
      ensures Vars() == UnlinkRef(old(Vars()), p, t, h.all[..IndexOf(h.all, p)], h.sized[t][..IndexOf(h.sized[t], p)])
    {
      hide Chain;
      InChain(nextSame, sizebases[t], h.sized[t], p);
      InChain(nextAll, allbase, h.all, p);
      var prev := FindPrevious(nextSame, sizebases[t], h.sized[t], p);
      if prev == NULL {
        sizebases := sizebases[t := nextSame[p]];
      } else {
        nextSame := nextSame[prev := nextSame[p]];
      }
      prev := FindPrevious(nextAll, allbase, h.all, p);
      if prev == NULL {
        allbase := nextAll[p];
      } else {
        nextAll := nextAll[prev := nextAll[p]];
      }
    }

    /** The block at the head of the free list of `pr`, which describes page `g`, is handed out. */
    method TakeFrom(pr: nat, ghost g: HPage) returns (ptr: nat)
      requires RefOk(Vars(), pr, g) && FreeListOk(mem, g) && g.free != [] && g.addr % PAGE_SIZE == 0
      modifies this`nfree, this`freeoff
      ensures ptr == BlockAddr(g, g.free[0]) && Vars() == TakeRef(old(Vars()), pr, g)
    {
      FreeListPop(mem, g);
      Packed(g.addr, g.typ);
      hide FreeListOk, MKPAB, PR_PAGEADDR;
      var prpage := PR_PAGEADDR(pab[pr]);
      ptr := prpage + freeoff[pr];
      var fl := mem[ptr];
      nfree := nfree[pr := nfree[pr] - 1];
      freeoff := freeoff[pr := if fl != NULL then fl - prpage else INVALID_OFFSET];
    }

    /** The fresh page at `prpage` gets its free list and its places at the front of both lists. */
    method InstallPage(pr: nat, t: nat, prpage: nat)
      requires t < NSIZES && t < |sizebases|
      modifies this`pab, this`nfree, this`freeoff, this`mem, this`nextSame, this`nextAll, this`sizebases, this`allbase
      ensures pab == old(pab)[pr := MKPAB(prpage, t)] && nfree == old(nfree)[pr := PerPage(t)]
      ensures freeoff == old(freeoff)[pr := (PerPage(t) - 1) * SizeOf(t)]
      ensures nextSame == old(nextSame)[pr := old(sizebases)[t]] && sizebases == old(sizebases)[t := pr]
      ensures nextAll == old(nextAll)[pr := old(allbase)] && allbase == pr
      ensures Built(old(mem), mem, prpage, t)
    {
      hide FreeListOk;
      pab := pab[pr := MKPAB(prpage, t)];
      nfree := nfree[pr := PAGE_SIZE / SIZES[t]];
      var fl;
      mem, fl := BuildFreeList(mem, prpage, t);
      freeoff := freeoff[pr := fl - prpage];
      nextSame := nextSame[pr := sizebases[t]];
      sizebases := sizebases[t := pr];
      nextAll := nextAll[pr := allbase];
      allbase := pr;
    }

    /** A page and a pageref for it. */
    method MakePage(t: nat, page: nat, ref: nat) returns (p: int, asked: seq<nat>)
      requires CountsOk(inuse, numinuse) && |rootpage| == NUM_PAGEREFPAGES && t < NSIZES && t < |sizebases|
      modifies this`inuse, this`numinuse, this`rootpage, this`pab, this`nfree, this`freeoff, this`mem, this`nextSame,
               this`nextAll, this`sizebases, this`allbase
      ensures Lowest(old(inuse), p)
      ensures p != -1 ==> Made(old(Vars()), p, t, page, ref, Vars())
      ensures p != -1 ==> asked == [1] + if old(rootpage)[p / NPAGEREFS_PER_PAGE] == 0 then [1] else []
    {
      hide CountsOk, Built, MKPAB, PerPage, SizeOf;
      p, asked := AllocPageref(ref);
      asked := [1] + asked;
      if p != -1 {
        InstallPage(p, t, page * PAGE_SIZE);
      }
    }

    /** The same, as a step of the heap. */
    method TakeStep(pr: int, ghost h: Heap) returns (ptr: nat)
      requires Rep(Vars(), h) && pr >= 0 && pr in h.pages && h.pages[pr].free != [] && h.pages[pr].addr % PAGE_SIZE == 0
      modifies this`nfree, this`freeoff
      ensures Rep(Vars(), TakeBlock(h, pr)) && h.pages[pr].typ < NSIZES
      ensures ptr == BlockAddr(h.pages[pr], h.pages[pr].free[0])
    {
      hide Rep, FreeListOk, BlockAddr;
      ghost var s := Vars();
      RepPage(s, h, pr);
      RepTake(s, h, pr);
      ptr := TakeFrom(pr, h.pages[pr]);
    }

    /** A page made for a request that no page can serve. */
    method FreshPage(t: nat, page: nat, ref: nat, ghost h: Heap) returns (pr: int, asked: seq<nat>)
      requires Rep(Vars(), h) && HeapOk(h) && Listed(h, t) && CanServe(h, t, page, ref)
      requires FirstRef(h.pages, h.sized[t]) == NULL
      modifies this`inuse, this`numinuse, this`rootpage, this`pab, this`nfree, this`freeoff, this`mem, this`nextSame,
               this`nextAll, this`sizebases, this`allbase
      ensures pr >= 0 && pr == ChosenPage(h, t) && Rep(Vars(), WithPage(h, pr, page, ref, t))
      ensures asked == AskedFresh(h, pr)
    {
      ghost var s := Vars();
      RepFacts(s, h, t);
      hide Rep, HeapOk, CanServe, Chain, CountsOk, Made, Lowest, FirstRef, ChosenPage, NewPage, WithRoot;
      pr, asked := MakePage(t, page, ref);
      MadePage(s, h, pr, t, page, ref, Vars());
      RootMissing(s, h, pr / NPAGEREFS_PER_PAGE);
    }

    /** A block of type `t`, from the first page that has one or from a fresh page. */
    method ServeRequest(t: nat, page: nat, ref: nat, ghost h: Heap) returns (ptr: nat, asked: seq<nat>)
      requires Rep(Vars(), h) && HeapOk(h) && Listed(h, t) && CanServe(h, t, page, ref)
      modifies this`inuse, this`numinuse, this`rootpage, this`pab, this`nfree, this`freeoff, this`mem, this`nextSame,
               this`nextAll, this`sizebases, this`allbase
      ensures Rep(Vars(), SubMalloc(h, t, page, ref)) && ptr == ServedPtr(h, t, page)
      ensures asked == if FirstRef(h.pages, h.sized[t]) == NULL then AskedFresh(h, ChosenPage(h, t)) else []
    {
      RepFacts(Vars(), h, t);
      hide Rep, HeapOk, CanServe, Chain, CountsOk, Listed, FirstRef, ServedPtr, SubMalloc, ChosenPage, WithPage,
           BlockAddr;
      var pr := FirstWithBlock(nextSame, sizebases[t], nfree, h.sized[t], h.pages);
      if pr == NULL {
        pr, asked := FreshPage(t, page, ref, h);
        ServesMade(h, t, page, ref, pr);
        ptr := TakeStep(pr, WithPage(h, pr, page, ref, t));
      } else {
        asked := [];
        ServesFound(h, t, page, ref, pr);
        ptr := TakeStep(pr, h);
      }
    }

    /** `subpage_kmalloc` */
    method SubpageKmalloc(sz: nat, page: nat, ref: nat) returns (ptr: nat, asked: seq<nat>)
      requires Valid() && sz < LARGEST_SUBPAGE_SIZE && Legal(st, Malloc(sz, page, ref))
      modifies this
      ensures Valid() && st == Step(old(st), Malloc(sz, page, ref)) && ptr == MallocPtr(old(st).h, sz, page)
      ensures asked == Asked(old(st).h, sz)
    {
      hide Rep, Ok, HeapOk, CanServe, Listed, TypeFor, SubMalloc, Legal, Step, MallocPtr;
      StepOk(st, Malloc(sz, page, ref));
      OkHeap(st);
      MallocStep(st, sz, page, ref);
      var t := BlockType(sz);
      ptr, asked := ServeRequest(t, page, ref, st.h);
      st := Step(st, Malloc(sz, page, ref));
    }

    /** Block `i` of page `g`, at `ptr`, goes to the front of the free list of `pr`. */
    method PushFree(pr: nat, ptr: nat, ghost g: HPage, ghost i: nat)
      requires RefOk(Vars(), pr, g) && g.addr % PAGE_SIZE == 0 && ptr == BlockAddr(g, i)
      requires forall j :: j in g.free ==> j < PerPage(g.typ)
      modifies this`mem, this`nfree, this`freeoff
      ensures Vars() == GiveRef(old(Vars()), pr, g, i)
    {
      Packed(g.addr, g.typ);
      HeadInside(g);
      hide MKPAB, PR_PAGEADDR;
      var prpage := PR_PAGEADDR(pab[pr]);
      var offset := ptr - prpage;
      mem := mem[prpage + offset := if freeoff[pr] == INVALID_OFFSET then NULL else prpage + freeoff[pr]];
      freeoff := freeoff[pr := offset];
      nfree := nfree[pr := nfree[pr] + 1];
    }

    /** The whole page is free: off both lists, pageref released. */
    method GiveUp(pr: nat, t: nat, ghost h: Heap)
      requires Rep(Vars(), h) && ListsOk(h) && OwnershipOk(h) && ExtentsOk(h.ext) && pr in h.pages
      requires h.pages[pr].typ == t && t < NSIZES
      modifies this`sizebases, this`nextSame, this`allbase, this`nextAll, this`inuse, this`numinuse
      ensures Rep(Vars(), DropPage(h, pr))
    {
      ghost var s := Vars();
      Dropping(s, h, pr, t);
      hide Rep, ListsOk, OwnershipOk, ExtentsOk, ListsRep, CountsOk, RootsOk, DropPage, Bypass;
      RemoveLists(pr, t, h);
      FreePageref(pr, h);
    }

    /** The same, as a step of the heap. */
    method PushStep(pr: nat, ptr: nat, ghost h: Heap, ghost i: nat)
      requires Rep(Vars(), h) && HeapOk(h) && Block(h, ptr, pr, i)
      modifies this`mem, this`nfree, this`freeoff
      ensures Rep(Vars(), GiveBack(h, pr, i))
    {
      FreeingPage(Vars(), h, ptr, pr, i);
      hide Rep, HeapOk, Block, RefOk, BlockAddr, GiveBack;
      PushFree(pr, ptr, h.pages[pr], i);
    }

    /** Release block `i` of page `pr`. */
    method FreeBlock(pr: nat, ptr: nat, ghost h: Heap, ghost i: nat) returns (freed: Option<nat>)
      requires Rep(Vars(), h) && HeapOk(h) && Block(h, ptr, pr, i) && |h.sized| == NSIZES
      modifies this`sizebases, this`nextSame, this`allbase, this`nextAll, this`inuse, this`numinuse, this`mem,
               this`nfree, this`freeoff
      ensures Rep(Vars(), SubFree(h, pr, i))
      ensures freed == if |h.pages[pr].free| + 1 == PerPage(h.pages[pr].typ) then Some(h.pages[pr].addr) else None
    {
      FreeingHeap(h, ptr, pr, i);
      hide Rep, HeapOk, Block, ListsOk, OwnershipOk, ExtentsOk, BlockAddr, DropPage, GiveBack, MKPAB, PR_BLOCKTYPE,
           PR_PAGEADDR, RefOk;
      PushStep(pr, ptr, h, i);
      GivenRef(Vars(), h, pr, i);
      var prpage, blktype := PR_PAGEADDR(pab[pr]), PR_BLOCKTYPE(pab[pr]);
      freed := None;
      if nfree[pr] == PAGE_SIZE / SIZES[blktype] {
        GiveUp(pr, blktype, GiveBack(h, pr, i));
        freed := Some(prpage);
      }
    }

    /** Which page a live pointer belongs to; null for a whole-page allocation. */
    method Locate(ptr: nat) returns (pr: int)
      requires Valid() && ptr in st.live
      ensures pr == NULL <==> st.live[ptr].InPages?
      ensures pr != NULL ==> st.live[ptr].p == pr && Block(st.h, ptr, pr, st.live[ptr].i)
    {
      Walk(Vars(), st);
      hide Rep, HeapOk, Ok, LiveOk, Holds, Chain, Block, MKPAB;
      pr := FindCovering(nextAll, allbase, pab, ptr, st.h.all, st.h.pages);
      Routed(st, ptr, pr);
    }

    /** `subpage_kfree`: an error exactly when the pointer is a whole-page allocation. */
    method SubpageKfree(ptr: nat) returns (err: bool, freed: Option<nat>)
      requires Valid() && Legal(st, Free(ptr))
      modifies this
      ensures err <==> old(st).live[ptr].InPages?
      ensures err ==> unchanged(this)
      ensures !err ==> Valid() && st == Step(old(st), Free(ptr)) && freed == ReturnedAddr(old(st), ptr)
    {
      hide Ok, Rep, HeapOk, Holds, Block, SubFree, Legal, Step, ReturnedAddr;
      StepOk(st, Free(ptr));
      OkHeap(st);
      FreeStep(st, ptr);
      Returned(st, ptr);
      var pr := Locate(ptr);
      err, freed := pr == NULL, None;
      if pr != NULL {
        freed := FreeBlock(pr, ptr, st.h, st.live[ptr].i);
        st := Step(st, Free(ptr));
      }
    }

    /** `kmalloc`: whole pages for large requests, a block for the others. */
    method Kmalloc(sz: nat, page: nat, ref: nat) returns (ptr: nat, asked: seq<nat>)
      requires Valid() && Legal(st, Malloc(sz, page, ref))
      modifies this
      ensures Valid() && st == Step(old(st), Malloc(sz, page, ref)) && ptr == MallocPtr(old(st).h, sz, page)
      ensures asked == Asked(old(st).h, sz)
    {
      if sz >= LARGEST_SUBPAGE_SIZE {
        var npages := (sz + PAGE_SIZE - 1) % 0x1_0000_0000 / PAGE_SIZE;
        asked := [npages];
        ptr := page * PAGE_SIZE;
        StepOk(st, Malloc(sz, page, ref));
        RepExtents(Vars(), st.h, Step(st, Malloc(sz, page, ref)).h);
        hide Rep, Ok;
        st := Step(st, Malloc(sz, page, ref));
      } else {
        ptr, asked := SubpageKmalloc(sz, page, ref);
      }
    }

    /** `kfree`: nothing for the null pointer; otherwise the allocator the pointer came from takes it back. */
    method Kfree(ptr: nat) returns (freed: Option<nat>)
      requires Valid() && (ptr != 0 ==> Legal(st, Free(ptr)))
      modifies this
      ensures ptr == 0 ==> unchanged(this) && freed == None
      ensures ptr != 0 ==> Valid() && st == Step(old(st), Free(ptr)) && freed == ReturnedAddr(old(st), ptr)
    {
      freed := None;
      if ptr != 0 {
        var err;
        err, freed := SubpageKfree(ptr);
        if err {
          freed := Some(ptr);
          StepOk(st, Free(ptr));
          RepExtents(Vars(), st.h, Step(st, Free(ptr)).h);
          hide Rep, Ok;
          st := Step(st, Free(ptr));
        }
      }
    }
  }

  /** The page allocator's extents are not in the heap's own variables. */
  lemma RepExtents(s: Store, h: Heap, h': Heap)
    requires Rep(s, h) && h' == h.(ext := h'.ext)
    ensures Rep(s, h')
  {
  }

  lemma MallocStep(st: State, sz: nat, page: nat, ref: nat)
    requires Legal(st, Malloc(sz, page, ref)) && sz < LARGEST_SUBPAGE_SIZE
    ensures Listed(st.h, TypeFor(sz)) && CanServe(st.h, TypeFor(sz), page, ref)
    ensures MallocPtr(st.h, sz, page) == ServedPtr(st.h, TypeFor(sz), page)
    ensures Step(st, Malloc(sz, page, ref)).h == SubMalloc(st.h, TypeFor(sz), page, ref)
    ensures var t := TypeFor(sz);
      Asked(st.h, sz) ==
      if FirstRef(st.h.pages, st.h.sized[t]) == NULL then AskedFresh(st.h, ChosenPage(st.h, t)) else []
  {
  }

  lemma FreeStep(st: State, ptr: nat)
    requires Legal(st, Free(ptr))
    ensures ptr in st.live && |st.h.sized| == NSIZES
    ensures st.live[ptr].InBlock? ==> Block(st.h, ptr, st.live[ptr].p, st.live[ptr].i)
    ensures st.live[ptr].InBlock? ==> Step(st, Free(ptr)).h == SubFree(st.h, st.live[ptr].p, st.live[ptr].i)
  {
  }

  lemma Returned(st: State, ptr: nat)
    requires Ok(st) && Legal(st, Free(ptr))
    ensures st.live[ptr].InPages? ==> ReturnedAddr(st, ptr) == Some(ptr)
    ensures var l := st.live[ptr];
      l.InBlock? ==>
        l.p in st.h.pages && st.h.pages[l.p].typ < NSIZES &&
        ReturnedAddr(st, ptr) ==
        if |st.h.pages[l.p].free| + 1 == PerPage(st.h.pages[l.p].typ) then Some(st.h.pages[l.p].addr) else None
  {
    if st.live[ptr].InBlock? {
      PageStart(st.h.pages[st.live[ptr].p]);
    }
  }

  lemma Walk(s: Store, st: State)
    requires Rep(s, st.h) && Ok(st)
    ensures HeapOk(st.h) && |st.h.sized| == NSIZES && Chain(s.nextAll, s.allbase, st.h.all)
    ensures forall p :: p in st.h.all <==> p in st.h.pages
    ensures forall p :: p in st.h.all ==> p in s.pab && s.pab[p] == MKPAB(st.h.pages[p].addr, st.h.pages[p].typ)
    ensures forall p :: p in st.h.all ==> st.h.pages[p].addr % PAGE_SIZE == 0 && st.h.pages[p].typ < NSIZES
  {
    hide Chain, FreeListOk;
    forall p | p in st.h.all
      ensures p in s.pab && s.pab[p] == MKPAB(st.h.pages[p].addr, st.h.pages[p].typ)
    {
      RepPage(s, st.h, p);
    }
  }

  /** The page found is the one the pointer came from. */
  lemma Routed(st: State, ptr: nat, pr: int)
    requires Ok(st) && ptr in st.live && (forall p :: p in st.h.all <==> p in st.h.pages)
    requires pr == NULL ==> forall p :: p in st.h.all ==> !Covers(st.h.pages[p], ptr)
    requires pr != NULL ==> pr >= 0 && pr in st.h.all && Covers(st.h.pages[pr], ptr)
    ensures pr == NULL <==> st.live[ptr].InPages?
    ensures pr != NULL ==> st.live[ptr].p == pr && Block(st.h, ptr, pr, st.live[ptr].i)
  {
    assert Holds(st.h, ptr, st.live[ptr]);
    hide Ok;
    if pr != NULL {
      Routes(st, ptr, pr);
    } else if st.live[ptr].InBlock? {
      Routes(st, ptr, st.live[ptr].p);
    }
  }

  lemma FreeingPage(s: Store, h: Heap, ptr: nat, p: nat, i: nat)
    requires Rep(s, h) && HeapOk(h) && Block(h, ptr, p, i)
    ensures p in h.pages && RefOk(s, p, h.pages[p]) && h.pages[p].addr % PAGE_SIZE == 0
    ensures ptr == BlockAddr(h.pages[p], i)
    ensures forall j :: j in h.pages[p].free ==> j < PerPage(h.pages[p].typ)
    ensures Rep(GiveRef(s, p, h.pages[p], i), GiveBack(h, p, i))
  {
    HeapFacts(h, p);
    RepPage(s, h, p);
    RepGive(s, h, p, i);
    hide Rep, HeapOk, RefOk, BlockAddr, PerPage;
  }

  lemma GivenRef(s: Store, h: Heap, p: nat, i: nat)
    requires p in h.pages && Rep(s, GiveBack(h, p, i)) && h.pages[p].typ < NSIZES
    ensures p in s.pab && s.pab[p] == MKPAB(h.pages[p].addr, h.pages[p].typ)
    ensures p in s.nfree && s.nfree[p] == |h.pages[p].free| + 1
    ensures p in GiveBack(h, p, i).pages && GiveBack(h, p, i).pages[p].typ == h.pages[p].typ
  {
    RepPage(s, GiveBack(h, p, i), p);
  }

  lemma FreeingHeap(h: Heap, ptr: nat, p: nat, i: nat)
    requires HeapOk(h) && Block(h, ptr, p, i)
    ensures p in h.pages && h.pages[p].typ < |h.sized| && h.pages[p].typ < NSIZES && h.pages[p].addr % PAGE_SIZE == 0
    ensures PR_BLOCKTYPE(MKPAB(h.pages[p].addr, h.pages[p].typ)) == h.pages[p].typ
    ensures PR_PAGEADDR(MKPAB(h.pages[p].addr, h.pages[p].typ)) == h.pages[p].addr
    ensures ListsOk(GiveBack(h, p, i)) && OwnershipOk(GiveBack(h, p, i)) && ExtentsOk(GiveBack(h, p, i).ext)
    ensures DropPage(GiveBack(h, p, i), p) == DropPage(h, p)
  {
    hide OwnershipOk, ExtentsOk, MKPAB, PR_BLOCKTYPE, PR_PAGEADDR, Remove, SizedOk, Distinct, BlockAddr;
    HeapFacts(h, p);
    assert |h.sized| == NSIZES && ListsOk(h);
    Packed(h.pages[p].addr, h.pages[p].typ);
    GiveBackParts(h, p, i);
  }

  lemma GiveBackParts(h: Heap, p: nat, i: nat)
    requires ListsOk(h) && OwnershipOk(h) && ExtentsOk(h.ext) && p in h.pages && h.pages[p].typ < |h.sized|
    ensures ListsOk(GiveBack(h, p, i)) && OwnershipOk(GiveBack(h, p, i)) && ExtentsOk(GiveBack(h, p, i).ext)
    ensures DropPage(GiveBack(h, p, i), p) == DropPage(h, p)
  {
    hide ListsOk, OwnershipOk, ExtentsOk, Remove;
    SameLists(h, GiveBack(h, p, i));
    SameOwnership(h, GiveBack(h, p, i));
    assert GiveBack(h, p, i).pages - {p} == h.pages - {p};
  }

  lemma Dropping(s: Store, h: Heap, p: nat, t: nat)
    requires Rep(s, h) && ListsOk(h) && OwnershipOk(h) && p in h.pages && h.pages[p].typ == t && t < NSIZES
    ensures p < TOTAL_PAGEREFS == |s.inuse| && s.inuse[p] && CountsOk(s.inuse, s.numinuse)
    ensures RootsOk(s.rootpage, h.roots)
    ensures ListsRep(s, h) && |h.sized| == NSIZES && p in h.all && p in h.sized[t]
    ensures t < |s.sizebases| && p in s.nextAll && p in s.nextSame && p / NPAGEREFS_PER_PAGE < |s.numinuse|
    ensures s.numinuse[p / NPAGEREFS_PER_PAGE] > 0
    ensures var a, b := h.all[..IndexOf(h.all, p)], h.sized[t][..IndexOf(h.sized[t], p)];
      Rep(DropRef(UnlinkRef(s, p, t, a, b), p), DropPage(h, p))
  {
    assert SizedOk(h, t);
    hide Chain, PagesRep;
    RepDrop(s, h, p, t, IndexOf(h.all, p), IndexOf(h.sized[t], p));
  }

  lemma HeadInside(g: HPage)
    requires g.typ < NSIZES && forall j :: j in g.free ==> j < PerPage(g.typ)
    ensures g.free != [] ==> HeadOffset(g.typ, g.free) != INVALID_OFFSET
  {
  }

  lemma RepFacts(s: Store, h: Heap, t: nat)
    requires Rep(s, h) && HeapOk(h) && Listed(h, t)
    ensures |s.sizebases| == NSIZES && CountsOk(s.inuse, s.numinuse) && |s.rootpage| == NUM_PAGEREFPAGES
    ensures Chain(s.nextSame, s.sizebases[t], h.sized[t])
    ensures forall p :: p in h.sized[t] ==> p in h.pages && p in s.nfree && s.nfree[p] == |h.pages[p].free|
  {
  }

  lemma RepPage(s: Store, h: Heap, p: nat)
    requires Rep(s, h) && p in h.pages
    ensures RefOk(s, p, h.pages[p]) && FreeListOk(s.mem, h.pages[p])
  {
  }

  /** A request served by a page found on the list of its size. */
  lemma ServesFound(h: Heap, t: nat, page: nat, ref: nat, pr: int)
    requires HeapOk(h) && Listed(h, t) && pr == FirstRef(h.pages, h.sized[t]) && pr != NULL
    ensures pr >= 0 && pr in h.pages && h.pages[pr].free != [] && h.pages[pr].typ < NSIZES
    ensures h.pages[pr].addr % PAGE_SIZE == 0
    ensures SubMalloc(h, t, page, ref) == TakeBlock(h, pr)
    ensures ServedPtr(h, t, page) == BlockAddr(h.pages[pr], h.pages[pr].free[0])
  {
    SizedPages(h, t);
    assert pr in h.sized[t];
    HeapFacts(h, pr);
    hide HeapOk, PerPage;
  }

  /** The heap with a fresh page for type `t`, all its blocks free. */
  ghost function WithPage(h: Heap, pr: nat, page: nat, ref: nat, t: nat): Heap
    requires Listed(h, t)
  {
    NewPage(WithRoot(h, pr / NPAGEREFS_PER_PAGE, ref), pr, page * PAGE_SIZE, t)
  }

  /** A request served by the page made for it. */
  lemma ServesMade(h: Heap, t: nat, page: nat, ref: nat, pr: int)
    requires Listed(h, t) && FirstRef(h.pages, h.sized[t]) == NULL && pr == ChosenPage(h, t)
    ensures pr >= 0
    ensures var h1 := WithPage(h, pr, page, ref, t);
      pr >= 0 && pr in h1.pages && h1.pages[pr].free != [] && h1.pages[pr].typ < NSIZES &&
      h1.pages[pr].addr % PAGE_SIZE == 0 &&
      SubMalloc(h, t, page, ref) == TakeBlock(h1, pr) &&
      ServedPtr(h, t, page) == BlockAddr(h1.pages[pr], h1.pages[pr].free[0])
  {
  }

  /** `p` is the lowest unused pageref, or -1 when there is none. */
  ghost predicate Lowest(inuse: seq<bool>, p: int)
    requires |inuse| == TOTAL_PAGEREFS
  {
    if p == -1 then forall q :: 0 <= q < TOTAL_PAGEREFS ==> inuse[q]
    else 0 <= p < TOTAL_PAGEREFS && !inuse[p] && forall q :: 0 <= q < p ==> inuse[q]
  }

  /** What `MakePage` does to the variables. */
  ghost predicate Made(s0: Store, p: nat, t: nat, page: nat, ref: nat, s: Store)
    requires t < NSIZES && t < |s0.sizebases| && p < TOTAL_PAGEREFS == |s0.inuse|
    requires |s0.numinuse| == |s0.rootpage| == NUM_PAGEREFPAGES
  {
    var r := p / NPAGEREFS_PER_PAGE;
    var s1 := s0.(rootpage := if s0.rootpage[r] == 0 then s0.rootpage[r := ref * PAGE_SIZE] else s0.rootpage);
    s == NewRef(s1, p, page * PAGE_SIZE, t, s.mem) && Built(s0.mem, s.mem, page * PAGE_SIZE, t)
  }

  /** A free list of all blocks has been built on the page at `addr`, and nothing else was written. */
  ghost predicate Built(mem: map<int, int>, mem': map<int, int>, addr: nat, t: nat)
    requires t < NSIZES
  {
    FreeListOk(mem', HPage(addr, t, Descending(PerPage(t)))) &&
    forall x :: x in mem && !(addr <= x < addr + PAGE_SIZE) ==> x in mem' && mem'[x] == mem[x]
  }

  /** The variables after `MakePage` represent the heap with the new page. */
  lemma MadePage(s0: Store, h: Heap, p: int, t: nat, page: nat, ref: nat, s: Store)
    requires Rep(s0, h) && HeapOk(h) && Listed(h, t) && CanServe(h, t, page, ref)
    requires FirstRef(h.pages, h.sized[t]) == NULL
    requires Lowest(s0.inuse, p) && (p != -1 ==> Made(s0, p, t, page, ref, s))
    ensures p >= 0 && p == ChosenPage(h, t)
    ensures Rep(s, WithPage(h, p, page, ref, t))
  {
    hide HeapOk, ListsRep, PagesRep, CountsOk, FreeListOk, Chain, FreshExtent, FreshRoot, NewPage;
    ServedRef(h, s0.inuse, p, t, page, ref);
    var r := p / NPAGEREFS_PER_PAGE;
    var s1 := s0.(rootpage := if s0.rootpage[r] == 0 then s0.rootpage[r := ref * PAGE_SIZE] else s0.rootpage);
    var h1 := WithRoot(h, r, ref);
    WithRootOk(h, p, page, ref);
    RootStep(s0, h, r, ref, s1);
    PageFresh(h1, page);
    RepNew(s1, h1, p, page * PAGE_SIZE, t, s.mem);
  }

  lemma ServedRef(h: Heap, inuse: seq<bool>, p: int, t: nat, page: nat, ref: nat)
    requires Listed(h, t) && CanServe(h, t, page, ref) && FirstWithFree(h.pages, h.sized[t]) == |h.sized[t]|
    requires BitsOk(inuse, h.pages)
    requires Lowest(inuse, p)
    ensures p != -1 && p == ChosenPage(h, t) && p !in h.pages
    ensures FreshExtent(h.ext, page, 1) && FreshRoot(h, p / NPAGEREFS_PER_PAGE, page, ref)
  {
  }

  lemma RootMissing(s: Store, h: Heap, r: nat)
    requires Rep(s, h) && HeapOk(h) && r < NUM_PAGEREFPAGES
    ensures |s.rootpage| == NUM_PAGEREFPAGES && (r in h.roots <==> s.rootpage[r] != 0)
  {
  }

  lemma RootStep(s: Store, h: Heap, r: nat, ref: nat, s1: Store)
    requires Rep(s, h) && HeapOk(h) && r < NUM_PAGEREFPAGES
    requires s1 == s.(rootpage := if s.rootpage[r] == 0 then s.rootpage[r := ref * PAGE_SIZE] else s.rootpage)
    ensures Rep(s1, WithRoot(h, r, ref))
  {
    RepRoot(s, h, r, ref);
    RootMissing(s, h, r);
  }

  lemma PageFresh(h: Heap, page: nat)
    requires HeapOk(h) && FreshExtent(h.ext, page, 1)
    ensures page * PAGE_SIZE % PAGE_SIZE == 0 && page * PAGE_SIZE / PAGE_SIZE == page && page !in h.ext
  {
  }

  lemma OkHeap(st: State)
    requires Ok(st)
    ensures HeapOk(st.h)
  {
  }

  lemma RootKnown(rootpage: seq<nat>, h: Heap, p: nat)
    requires RootsOk(rootpage, h.roots) && OwnershipOk(h) && ExtentsOk(h.ext) && p in h.pages
    ensures |rootpage| == NUM_PAGEREFPAGES && p / NPAGEREFS_PER_PAGE < NUM_PAGEREFPAGES
    ensures rootpage[p / NPAGEREFS_PER_PAGE] != 0
  {
  }

  lemma {:induction false} InChain(next: map<int, int>, head: int, l: seq<nat>, x: nat)
    requires Chain(next, head, l) && x in l
    ensures x in next
    decreases |l|
  {
    if x != l[0] {
      InChain(next, next[head], l[1..], x);
    }
  }

  lemma {:induction false} CountNone(bits: seq<bool>)
    requires forall i :: 0 <= i < |bits| ==> !bits[i]
    ensures Count(bits) == 0
  {
    if bits != [] {
      CountNone(bits[1..]);
    }
  }

  // ---------------------------------------------------------------------------------------
  // Bookkeeping
  // ---------------------------------------------------------------------------------------

  ghost predicate SetAt(bits: seq<bool>, off: nat, p: nat) {
    off <= p < off + |bits| && bits[p - off]
  }

  ghost function SetBits(bits: seq<bool>, off: nat): set<nat> {
    set p: nat | off <= p < off + |bits| && SetAt(bits, off, p)
  }

  lemma {:induction false} CountIsSize(bits: seq<bool>, off: nat)
    ensures Count(bits) == |SetBits(bits, off)|
    decreases |bits|
  {
    if bits == [] {
      assert SetBits(bits, off) == {};
    } else {
      var rest := SetBits(bits[1..], off + 1);
      CountIsSize(bits[1..], off + 1);
      assert forall p: nat :: SetAt(bits, off, p) <==> (p == off && bits[0]) || SetAt(bits[1..], off + 1, p);
      assert off !in rest;
      assert SetBits(bits, off) == (if bits[0] then {off} else {}) + rest;
    }
  }

  /** The pagerefs of root `r` that are on the lists. */
  ghost function ListedRefs(h: Heap, r: nat): set<nat> {
    set p | p in h.all && p / NPAGEREFS_PER_PAGE == r
  }

  lemma ListedIsSet(inuse: seq<bool>, pages: map<nat, HPage>, r: nat, p: nat)
    requires BitsOk(inuse, pages) && r < NUM_PAGEREFPAGES && (p in pages ==> p < TOTAL_PAGEREFS)
    ensures SetAt(RootBits(inuse, r), r * NPAGEREFS_PER_PAGE, p) <==> p in pages && p / NPAGEREFS_PER_PAGE == r
  {
    var bits, off := RootBits(inuse, r), r * NPAGEREFS_PER_PAGE;
    assert off <= p < off + NPAGEREFS_PER_PAGE <==> p / NPAGEREFS_PER_PAGE == r;
    assert off <= p < off + NPAGEREFS_PER_PAGE ==> bits[p - off] == inuse[p];
  }

  /** Each root's counter is its number of listed pagerefs. */
  lemma Bookkeeping(s: Store, h: Heap, r: nat)
    requires Rep(s, h) && HeapOk(h) && r < NUM_PAGEREFPAGES
    ensures s.numinuse[r] == |ListedRefs(h, r)|
  {
    var bits, off := RootBits(s.inuse, r), r * NPAGEREFS_PER_PAGE;
    assert forall p :: p in h.pages ==> p < TOTAL_PAGEREFS;
    hide ListsRep, PagesRep, PageOk, SizedOk, ExtentsOk, OwnershipOk, BitsOk, SetAt, RootBits;
    CountIsSize(bits, off);
    forall p: nat
      ensures SetAt(bits, off, p) <==> p in ListedRefs(h, r)
    {
      ListedIsSet(s.inuse, h.pages, r, p);
    }
    SetBitsAre(bits, off, ListedRefs(h, r));
  }

  lemma SetBitsAre(bits: seq<bool>, off: nat, listed: set<nat>)
    requires forall p: nat :: SetAt(bits, off, p) <==> p in listed
    ensures SetBits(bits, off) == listed
  {
  }
}
