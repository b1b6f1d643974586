/** Demand paging as one state machine: page table, swap space, TLB, address spaces and counters
    (kern/vm/vm.c, coremap.c, swapfile.c, vm_tlb.c, addrspace.c, vmstats.c). One CPU; each fault
    is one step. The functions here say what every operation does to the meaning of the state;
    Machine.dfy holds the imperative code proved against them. */
module Paging {
  import opened Basics
  import opened PageTable

  // ---------------------------------------------------------------------------------------
  // Address spaces
  // ---------------------------------------------------------------------------------------

  /** The contents of one page. */
  type Page = p: seq<int> | |p| == PAGE_SIZE witness seq(PAGE_SIZE, _ => 0)

  const ZEROS: Page := seq(PAGE_SIZE, _ => 0)

  /** `file(o)` is what reading one page at offset `o` of the segment's file yields. */
  datatype Segment = Segment(base: nat, npages: nat, stack: bool, writable: bool, file: nat -> Page, offset: nat)

  datatype AddrSpace = AddrSpace(seg1: Segment, seg2: Segment, segstack: Segment)

  /** The `loadedelf` arrays of the three segments. */
  datatype Flags = Flags(seg1: seq<bool>, seg2: seq<bool>, segstack: seq<bool>)

  datatype Which3 = Seg1 | Seg2 | Stack | Nowhere

  ghost predicate SpaceOk(a: AddrSpace) {
    a.seg1.base % PAGE_SIZE == 0 && a.seg2.base % PAGE_SIZE == 0 && a.segstack.base % PAGE_SIZE == 0 &&
    !a.seg1.stack && !a.seg2.stack && a.segstack.stack
  }

  function Top(s: Segment): nat {
    s.base + s.npages * PAGE_SIZE
  }

  predicate In(s: Segment, vaddr: nat) {
    s.base <= vaddr < Top(s)
  }

  /** The segment a fault address belongs to: the first that contains it. */
  function SegmentOf(a: AddrSpace, vaddr: nat): Which3 {
    if In(a.seg1, vaddr) then Seg1 else if In(a.seg2, vaddr) then Seg2
    else if In(a.segstack, vaddr) then Stack else Nowhere
  }

  function Seg(a: AddrSpace, w: Which3): Segment
    requires !w.Nowhere?
  {
    match w case Seg1 => a.seg1 case Seg2 => a.seg2 case Stack => a.segstack
  }

  /** The segment readfromelfto reads from. Unlike `In`, its upper bounds are inclusive. */
  function ElfSegmentOf(a: AddrSpace, vaddr: nat): Which3 {
    if a.seg1.base <= vaddr <= Top(a.seg1) then Seg1
    else if a.seg2.base <= vaddr <= Top(a.seg2) then Seg2
    else if a.segstack.base <= vaddr <= Top(a.segstack) then Stack else Nowhere
  }

  /** What the first fault on a page puts into its frame. */
  function FirstLoad(a: AddrSpace, vaddr: nat): Page
    requires !SegmentOf(a, vaddr).Nowhere?
  {
    if Seg(a, SegmentOf(a, vaddr)).stack then ZEROS
    else
      var e := Seg(a, ElfSegmentOf(a, vaddr));
      e.file(vaddr - e.base + e.offset)
  }

  /** readfromelfto picks the page's own segment unless that is the second one and it starts
      exactly where the first one ends; then the first page is read through the wrong segment. */
  lemma ElfSegmentExact(a: AddrSpace, vaddr: nat)
    requires SegmentOf(a, vaddr) in {Seg1, Seg2}
    ensures ElfSegmentOf(a, vaddr) == SegmentOf(a, vaddr) <==> !(SegmentOf(a, vaddr) == Seg2 && vaddr == Top(a.seg1))
  {
  }

  /** What a page of an ELF segment should start with: its own part of the file. */
  function Promised(a: AddrSpace, vaddr: nat): Page
    requires SegmentOf(a, vaddr) in {Seg1, Seg2}
  {
    var e := Seg(a, SegmentOf(a, vaddr));
    e.file(vaddr - e.base + e.offset)
  }

  /** A page is loaded as promised unless it is the first of a second segment adjacent to the first. */
  lemma FirstLoadPromised(a: AddrSpace, vaddr: nat)
    requires SpaceOk(a) && SegmentOf(a, vaddr) in {Seg1, Seg2} && !(SegmentOf(a, vaddr) == Seg2 && vaddr == Top(a.seg1))
    ensures FirstLoad(a, vaddr) == Promised(a, vaddr)
  {
  }

  /** Adjacent segments with different contents: the first page of the second one is read from the wrong place. */
  lemma FirstLoadAdjacent()
    ensures exists a, vaddr ::
      SpaceOk(a) && SegmentOf(a, vaddr) == Seg2 && vaddr == Top(a.seg1) && FirstLoad(a, vaddr) != Promised(a, vaddr)
  {
    var ones: Page := seq(PAGE_SIZE, _ => 1);
    var twos: Page := seq(PAGE_SIZE, _ => 2);
    var a := AddrSpace(Segment(PAGE_SIZE, 1, false, true, _ => ones, 0),
                       Segment(2 * PAGE_SIZE, 1, false, true, _ => twos, 0),
                       Segment(8 * PAGE_SIZE, 1, true, true, _ => ZEROS, 0));
    var vaddr := 2 * PAGE_SIZE;
    assert SpaceOk(a) && SegmentOf(a, vaddr) == Seg2 && vaddr == Top(a.seg1);
    assert FirstLoad(a, vaddr)[0] == 1 && Promised(a, vaddr)[0] == 2;
  }

  function FlagsOf(fl: Flags, w: Which3): seq<bool>
    requires !w.Nowhere?
  {
    match w case Seg1 => fl.seg1 case Seg2 => fl.seg2 case Stack => fl.segstack
  }

  ghost predicate FlagsOk(a: AddrSpace, fl: Flags) {
    |fl.seg1| == a.seg1.npages && |fl.seg2| == a.seg2.npages && |fl.segstack| == a.segstack.npages
  }

  /** Index of the page within its segment. */
  function PageIndex(a: AddrSpace, vaddr: nat): (i: nat)
    requires !SegmentOf(a, vaddr).Nowhere?
    ensures i < Seg(a, SegmentOf(a, vaddr)).npages
  {
    (vaddr - Seg(a, SegmentOf(a, vaddr)).base) / PAGE_SIZE
  }

  function IsLoaded(a: AddrSpace, fl: Flags, vaddr: nat): bool
    requires FlagsOk(a, fl) && !SegmentOf(a, vaddr).Nowhere?
  {
    FlagsOf(fl, SegmentOf(a, vaddr))[PageIndex(a, vaddr)]
  }

  function SetLoaded(a: AddrSpace, fl: Flags, vaddr: nat): Flags
    requires FlagsOk(a, fl) && !SegmentOf(a, vaddr).Nowhere?
  {
    var i := PageIndex(a, vaddr);
    match SegmentOf(a, vaddr)
    case Seg1 => fl.(seg1 := fl.seg1[i := true])
    case Seg2 => fl.(seg2 := fl.seg2[i := true])
    case Stack => fl.(segstack := fl.segstack[i := true])
  }

  lemma PageIndexUnique(a: AddrSpace, vaddr: nat, other: nat)
    requires SpaceOk(a) && SegmentOf(a, vaddr) == SegmentOf(a, other) && !SegmentOf(a, vaddr).Nowhere?
    requires vaddr % PAGE_SIZE == 0 && other % PAGE_SIZE == 0 && PageIndex(a, vaddr) == PageIndex(a, other)
    ensures vaddr == other
  {
    hide SegmentOf;
  }

  /** Setting the flag of one page leaves the flag of every other page alone. */
  lemma SetLoadedExact(a: AddrSpace, fl: Flags, vaddr: nat, other: nat)
    requires SpaceOk(a) && FlagsOk(a, fl)
    requires !SegmentOf(a, vaddr).Nowhere? && !SegmentOf(a, other).Nowhere?
    requires vaddr % PAGE_SIZE == 0 && other % PAGE_SIZE == 0
    ensures FlagsOk(a, SetLoaded(a, fl, vaddr))
    ensures IsLoaded(a, SetLoaded(a, fl, vaddr), other) == (other == vaddr || IsLoaded(a, fl, other))
  {
    hide SegmentOf, PageIndex;
    if SegmentOf(a, vaddr) == SegmentOf(a, other) && PageIndex(a, vaddr) == PageIndex(a, other) {
      PageIndexUnique(a, vaddr, other);
    }
  }

  // ---------------------------------------------------------------------------------------
  // Memory: frames, swap space and address spaces
  // ---------------------------------------------------------------------------------------

  datatype Swap = Swap(slots: seq<Option<Key>>, pages: seq<Page>, maxind: nat)

  datatype Mem = Mem(frames: Frames, ram: seq<Page>, swap: Swap, spaces: map<nat, AddrSpace>, flags: map<nat, Flags>)

  ghost predicate SwapOk(w: Swap) {
    |w.pages| == |w.slots| && w.maxind < |w.slots| &&
    (forall i :: w.maxind < i < |w.slots| ==> w.slots[i].None?) &&
    (forall i, j :: 0 <= i < j < |w.slots| && w.slots[i].Some? ==> w.slots[i] != w.slots[j])
  }

  ghost predicate SpacesOk(m: Mem) {
    m.flags.Keys == m.spaces.Keys &&
    forall p :: p in m.spaces ==> p > 0 && SpaceOk(m.spaces[p]) && FlagsOk(m.spaces[p], m.flags[p])
  }

  /** A page of a live process. */
  ghost predicate Live(m: Mem, k: Key) {
    k.pid in m.spaces && k.vaddr % PAGE_SIZE == 0 && !SegmentOf(m.spaces[k.pid], k.vaddr).Nowhere?
  }

  ghost predicate Loaded(m: Mem, k: Key)
    requires SpacesOk(m) && Live(m, k)
  {
    IsLoaded(m.spaces[k.pid], m.flags[k.pid], k.vaddr)
  }

  ghost predicate Resident(m: Mem, k: Key) {
    User(k) in m.frames.owners
  }

  ghost predicate Swapped(m: Mem, k: Key) {
    Some(k) in m.swap.slots
  }

  /** A page of a live process is never loaded, or resident, or swapped: exactly one of them;
      and frames and slots hold pages of live processes only. */
  ghost predicate ResidencyOk(m: Mem)
    requires SpacesOk(m)
  {
    (forall k :: Resident(m, k) || Swapped(m, k) ==> Live(m, k)) &&
    (forall k :: Live(m, k) ==> (Loaded(m, k) <==> Resident(m, k) || Swapped(m, k))) &&
    (forall k :: !(Resident(m, k) && Swapped(m, k)))
  }

  ghost predicate MemOk(m: Mem) {
    FramesOk(m.frames) && |m.ram| == |m.frames.owners| && |m.ram| > 0 && m.frames.owners[0].Kernel? &&
    SwapOk(m.swap) && SpacesOk(m) && ResidencyOk(m)
  }

  /** The contents a process would see at page `k`. */
  ghost function View(m: Mem, k: Key): Page
    requires MemOk(m) && Live(m, k)
  {
    if !Loaded(m, k) then FirstLoad(m.spaces[k.pid], k.vaddr)
    else if Resident(m, k) then m.ram[IndexOf(m.frames.owners, User(k))]
    else m.swap.pages[IndexOf(m.swap.slots, Some(k))]
  }

  /** Same address spaces, and every page reads the same. */
  ghost predicate SameView(m: Mem, m': Mem)
    requires MemOk(m) && MemOk(m')
  {
    m'.spaces == m.spaces && forall k :: Live(m, k) ==> View(m', k) == View(m, k)
  }

  /** swapinpage: the lowest free slot takes the page; `None` is the panic on a full swap file. */
  function SwapIn(w: Swap, k: Key, c: Page): Option<Swap>
    requires |w.pages| == |w.slots|
  {
    var i := IndexOf(w.slots, None);
    if i == |w.slots| then None
    else Some(Swap(w.slots[i := Some(k)], w.pages[i := c], if i >= w.maxind then i else w.maxind))
  }

  /** Eviction of the longest-resident user page: into swap space, out of the page table. */
  function Evict(m: Mem): Option<Mem>
    requires m.frames.fifo != [] && m.frames.fifo[0] < |m.frames.owners| == |m.ram|
    requires m.frames.owners[m.frames.fifo[0]].User? && |m.swap.pages| == |m.swap.slots|
  {
    var f := m.frames.fifo[0];
    match SwapIn(m.swap, m.frames.owners[f].key, m.ram[f])
    case None => None
    case Some(w) => Some(m.(frames := Uninstall(m.frames, f), swap := w))
  }

  /** Page `k` enters frame `f`: from swap space if it was loaded before, else its first load.
      (vm_fault ignores a failing swapoutpage; the frame then keeps what it held.) */
  function PageIn(m: Mem, f: nat, k: Key): Mem
    requires f < |m.frames.owners| == |m.ram| && |m.swap.pages| == |m.swap.slots|
    requires k.pid in m.spaces && k.pid in m.flags && FlagsOk(m.spaces[k.pid], m.flags[k.pid])
    requires !SegmentOf(m.spaces[k.pid], k.vaddr).Nowhere?
  {
    var a, fl := m.spaces[k.pid], m.flags[k.pid];
    var m' := m.(frames := Install(m.frames, f, k));
    if IsLoaded(a, fl, k.vaddr) then
      var i := IndexOf(m.swap.slots, Some(k));
      if i == |m.swap.slots| then m'
      else m'.(ram := m.ram[f := m.swap.pages[i]], swap := m.swap.(slots := m.swap.slots[i := None]))
    else
      m'.(ram := m.ram[f := FirstLoad(a, k.vaddr)], flags := m.flags[k.pid := SetLoaded(a, fl, k.vaddr)])
  }

  /** Every page but `k` stays where it is, with the same contents. */
  ghost predicate Stays(m: Mem, m': Mem, k: Key)
    requires |m.ram| == |m.frames.owners| && |m'.ram| == |m'.frames.owners|
    requires |m.swap.pages| == |m.swap.slots| && |m'.swap.pages| == |m'.swap.slots|
  {
    (forall j :: j != k ==> (Resident(m', j) <==> Resident(m, j)) && (Swapped(m', j) <==> Swapped(m, j))) &&
    (forall j :: j != k && Resident(m, j) && Resident(m', j) ==>
      m'.ram[IndexOf(m'.frames.owners, User(j))] == m.ram[IndexOf(m.frames.owners, User(j))]) &&
    (forall j :: j != k && Swapped(m, j) && Swapped(m', j) ==>
      m'.swap.pages[IndexOf(m'.swap.slots, Some(j))] == m.swap.pages[IndexOf(m.swap.slots, Some(j))])
  }

  lemma StaysOwner(m: Mem, m': Mem, f: nat, o: Owner, k: Key)
    requires f < |m.frames.owners| == |m.ram| && |m.swap.pages| == |m.swap.slots|
    requires m.frames.owners[f] == User(k) || m.frames.owners[f].Free? || m.frames.owners[f].Kernel?
    requires o == User(k) || !o.User?
    requires m'.frames.owners == m.frames.owners[f := o] && m'.swap == m.swap
    requires |m'.ram| == |m.ram| && m'.ram == m.ram[f := m'.ram[f]]
    ensures Stays(m, m', k)
  {
    forall j | j != k
      ensures Resident(m', j) <==> Resident(m, j)
      ensures Resident(m, j) ==>
        m'.ram[IndexOf(m'.frames.owners, User(j))] == m.ram[IndexOf(m.frames.owners, User(j))]
    {
      UpdateOther(m.frames.owners, f, o, User(j));
    }
  }

  lemma StaysSlot(m: Mem, m': Mem, i: nat, o: Option<Key>, k: Key)
    requires |m.frames.owners| == |m.ram| && i < |m.swap.slots| == |m.swap.pages|
    requires m.swap.slots[i] == Some(k) || m.swap.slots[i].None?
    requires o == Some(k) || o.None?
    requires m'.swap.slots == m.swap.slots[i := o] && m'.frames.owners == m.frames.owners && m'.ram == m.ram
    requires |m'.swap.pages| == |m.swap.pages| && m'.swap.pages == m.swap.pages[i := m'.swap.pages[i]]
    ensures Stays(m, m', k)
  {
    forall j | j != k
      ensures Swapped(m', j) <==> Swapped(m, j)
      ensures Swapped(m, j) ==>
        m'.swap.pages[IndexOf(m'.swap.slots, Some(j))] == m.swap.pages[IndexOf(m.swap.slots, Some(j))]
    {
      UpdateOther(m.swap.slots, i, o, Some(j));
    }
  }

  lemma StaysTrans(m: Mem, m': Mem, m'': Mem, k: Key)
    requires |m.ram| == |m.frames.owners| && |m.swap.pages| == |m.swap.slots|
    requires |m'.ram| == |m'.frames.owners| && |m'.swap.pages| == |m'.swap.slots|
    requires |m''.ram| == |m''.frames.owners| && |m''.swap.pages| == |m''.swap.slots|
    requires Stays(m, m', k) && Stays(m', m'', k)
    ensures Stays(m, m'', k)
  {
  }

  /** If one page moves but its contents and everybody else stay, every page reads as before. */
  lemma StaysView(m: Mem, m': Mem, k: Key)
    requires MemOk(m) && MemOk(m') && m'.spaces == m.spaces && Stays(m, m', k)
    requires forall j :: Live(m, j) && j != k ==> Loaded(m', j) == Loaded(m, j)
    requires Live(m, k) && View(m', k) == View(m, k)
    ensures SameView(m, m')
  {
  }

  lemma SwapInOk(w: Swap, k: Key, c: Page)
    requires SwapOk(w) && Some(k) !in w.slots && None in w.slots
    ensures var w' := SwapIn(w, k, c);
      w'.Some? && SwapOk(w'.value) && IndexOf(w'.value.slots, Some(k)) == IndexOf(w.slots, None)
  {
    var w' := SwapIn(w, k, c).value;
    assert w'.slots[IndexOf(w.slots, None)] == Some(k);
  }

  lemma EvictOk(m: Mem)
    requires MemOk(m) && m.frames.fifo != []
    ensures m.frames.fifo[0] in m.frames.fifo
    ensures Evict(m).None? <==> None !in m.swap.slots
    ensures Evict(m).Some? ==> MemOk(Evict(m).value) && SameView(m, Evict(m).value)
    ensures Evict(m).Some? ==> TrulyFree(Evict(m).value.frames.owners, m.frames.fifo[0])
  {
    var f := m.frames.fifo[0];
    assert f in m.frames.fifo;
    if Evict(m).Some? {
      var m' := Evict(m).value;
      EvictMoves(m);
      EvictResidency(m);
      var k := m.frames.owners[f].key;
      assert Resident(m, k);
      StaysView(m, m', k);
      assert !InExtent(m'.frames.owners, f);
    }
  }

  lemma EvictMoves(m: Mem)
    requires MemOk(m) && m.frames.fifo != [] && None in m.swap.slots
    ensures m.frames.fifo[0] in m.frames.fifo && Evict(m).Some?
    ensures var f, m' := m.frames.fifo[0], Evict(m).value;
      var k := m.frames.owners[f].key;
      FramesOk(m'.frames) && SwapOk(m'.swap) && Stays(m, m', k) && !Resident(m', k) && Swapped(m', k) &&
      m'.swap.pages[IndexOf(m'.swap.slots, Some(k))] == m.ram[IndexOf(m.frames.owners, User(k))]
  {
    var f := m.frames.fifo[0];
    assert f in m.frames.fifo;
    var k := m.frames.owners[f].key;
    assert Resident(m, k) && IndexOf(m.frames.owners, User(k)) == f;
    UninstallOk(m.frames, f);
    SwapInOk(m.swap, k, m.ram[f]);
    var m' := Evict(m).value;
    var mid := m.(frames := m'.frames);
    StaysOwner(m, mid, f, Free, k);
    StaysSlot(mid, m', IndexOf(m.swap.slots, None), Some(k), k);
    StaysTrans(m, mid, m', k);
  }

  lemma EvictResidency(m: Mem)
    requires MemOk(m) && m.frames.fifo != [] && None in m.swap.slots
    ensures m.frames.fifo[0] in m.frames.fifo && Evict(m).Some? && MemOk(Evict(m).value)
  {
    EvictMoves(m);
    var m' := Evict(m).value;
    var k := m.frames.owners[m.frames.fifo[0]].key;
    assert Resident(m, k);
    forall j
      ensures Live(m', j) == Live(m, j)
    {
    }
    assert SpacesOk(m');
    assert forall j :: Resident(m', j) || Swapped(m', j) <==> Resident(m, j) || Swapped(m, j);
  }

  lemma PageInOk(m: Mem, f: nat, k: Key)
    requires MemOk(m) && Live(m, k) && !Resident(m, k) && TrulyFree(m.frames.owners, f)
    ensures var m' := PageIn(m, f, k);
      MemOk(m') && SameView(m, m') && Loaded(m', k) &&
      IndexOf(m'.frames.owners, User(k)) == f && m'.ram[f] == View(m, k)
  {
    var m' := PageIn(m, f, k);
    PageInMoves(m, f, k);
    PageInFlags(m, f, k);
    PageInResidency(m, m', k);
    assert Loaded(m', k) && Resident(m', k);
    StaysView(m, m', k);
  }

  lemma PageInMoves(m: Mem, f: nat, k: Key)
    requires MemOk(m) && Live(m, k) && !Resident(m, k) && TrulyFree(m.frames.owners, f)
    ensures var m' := PageIn(m, f, k);
      FramesOk(m'.frames) && SwapOk(m'.swap) && Stays(m, m', k) && !Swapped(m', k) &&
      Resident(m', k) && IndexOf(m'.frames.owners, User(k)) == f && m'.ram[f] == View(m, k)
  {
    var m' := PageIn(m, f, k);
    InstallOk(m.frames, f, k);
    assert m'.frames.owners[f] == User(k);
    var mid := m.(frames := m'.frames, ram := m'.ram);
    StaysOwner(m, mid, f, User(k), k);
    if Loaded(m, k) {
      var i := IndexOf(m.swap.slots, Some(k));
      StaysSlot(mid, m', i, None, k);
      StaysTrans(m, mid, m', k);
    }
  }

  lemma PageInFlags(m: Mem, f: nat, k: Key)
    requires MemOk(m) && Live(m, k) && !Resident(m, k) && TrulyFree(m.frames.owners, f)
    ensures var m' := PageIn(m, f, k);
      m'.spaces == m.spaces && SpacesOk(m') && (forall j :: Live(m', j) == Live(m, j)) &&
      forall j :: Live(m, j) ==> Loaded(m', j) == (j == k || Loaded(m, j))
  {
    var m' := PageIn(m, f, k);
    if !Loaded(m, k) {
      SetLoadedExact(m.spaces[k.pid], m.flags[k.pid], k.vaddr, k.vaddr);
      assert SpacesOk(m');
      forall j | Live(m, j)
        ensures Loaded(m', j) == (j == k || Loaded(m, j))
      {
        if j.pid == k.pid {
          SetLoadedExact(m.spaces[k.pid], m.flags[k.pid], k.vaddr, j.vaddr);
        }
      }
    }
  }

  lemma PageInResidency(m: Mem, m': Mem, k: Key)
    requires MemOk(m) && Live(m, k) && SpacesOk(m') && m'.spaces == m.spaces
    requires forall j :: Live(m, j) ==> Loaded(m', j) == (j == k || Loaded(m, j))
    requires |m'.ram| == |m'.frames.owners| && |m'.swap.pages| == |m'.swap.slots|
    requires Stays(m, m', k) && Resident(m', k) && !Swapped(m', k)
    ensures ResidencyOk(m')
  {
    forall j
      ensures Live(m', j) == Live(m, j)
    {
    }
    forall j | j != k
      ensures Resident(m', j) <==> Resident(m, j)
      ensures Swapped(m', j) <==> Swapped(m, j)
    {
    }
  }

  /** A store through a resident page's frame changes that page only. */
  lemma StoreOk(m: Mem, k: Key, c: Page)
    requires MemOk(m) && Resident(m, k)
    ensures var m' := m.(ram := m.ram[IndexOf(m.frames.owners, User(k)) := c]);
      MemOk(m') && m'.spaces == m.spaces &&
      forall j :: Live(m, j) ==> View(m', j) == if j == k then c else View(m, j)
  {
    var f := IndexOf(m.frames.owners, User(k));
    var m' := m.(ram := m.ram[f := c]);
    forall j
      ensures Live(m', j) == Live(m, j)
      ensures Resident(m', j) == Resident(m, j) && Swapped(m', j) == Swapped(m, j)
    {
    }
    assert SpacesOk(m') && ResidencyOk(m');
    forall j | Live(m, j)
      ensures View(m', j) == if j == k then c else View(m, j)
    {
      assert Loaded(m', j) == Loaded(m, j);
      assert Resident(m', j) == Resident(m, j);
      assert Resident(m, j) && j != k ==> IndexOf(m.frames.owners, User(j)) != f;
    }
  }

  // ---------------------------------------------------------------------------------------
  // Process exit and start
  // ---------------------------------------------------------------------------------------

  predicate OwnedBy(o: Owner, pid: nat) {
    o.User? && o.key.pid == pid
  }

  /** The frames below `n` that `pid` owns. */
  function FramesOf(owners: seq<Owner>, pid: nat, n: nat): set<nat> {
    set f: nat | f < n && f < |owners| && OwnedBy(owners[f], pid)
  }

  /** removeptentries after its loop reached frame `n`. */
  function ReleaseFrames(t: Frames, pid: nat, n: nat): Frames {
    Frames(seq(|t.owners|, i requires 0 <= i < |t.owners| =>
                 if i < n && OwnedBy(t.owners[i], pid) then Free else t.owners[i]),
           Without(t.fifo, FramesOf(t.owners, pid, n)))
  }

  /** removeswapentries: every slot up to the highest one ever used is looked at. */
  function ReleaseSlots(w: Swap, pid: nat): Swap {
    w.(slots := seq(|w.slots|, i requires 0 <= i < |w.slots| =>
                      if i <= w.maxind && w.slots[i].Some? && w.slots[i].value.pid == pid then None else w.slots[i]))
  }

  /** as_destroy. */
  function Release(m: Mem, pid: nat): Mem {
    m.(frames := ReleaseFrames(m.frames, pid, |m.frames.owners|), swap := ReleaseSlots(m.swap, pid),
       spaces := m.spaces - {pid}, flags := m.flags - {pid})
  }

  /** One round of removeptentries. */
  lemma ReleaseFramesStep(t: Frames, pid: nat, n: nat)
    requires FramesOk(t) && n < |t.owners|
    ensures OwnedBy(t.owners[n], pid) ==> n in ReleaseFrames(t, pid, n).fifo
    ensures ReleaseFrames(t, pid, n + 1) ==
      if OwnedBy(t.owners[n], pid) then Uninstall(ReleaseFrames(t, pid, n), n) else ReleaseFrames(t, pid, n)
  {
    var a, b := ReleaseFrames(t, pid, n), ReleaseFrames(t, pid, n + 1);
    var d, d' := FramesOf(t.owners, pid, n), FramesOf(t.owners, pid, n + 1);
    if OwnedBy(t.owners[n], pid) {
      assert n in t.fifo && d' == d + {n};
      WithoutFacts(t.fifo, d);
      WithoutStep(t.fifo, d, n);
      assert b.owners == a.owners[n := Free];
    } else {
      assert d' == d;
      assert b.owners == a.owners;
    }
  }

  lemma ReleaseFramesNone(t: Frames, pid: nat)
    ensures ReleaseFrames(t, pid, 0) == t
  {
    assert FramesOf(t.owners, pid, 0) == {};
    WithoutNone(t.fifo);
    assert ReleaseFrames(t, pid, 0).owners == t.owners;
  }

  lemma ReleaseFramesOk(t: Frames, pid: nat, n: nat)
    requires FramesOk(t) && n <= |t.owners|
    ensures FramesOk(ReleaseFrames(t, pid, n))
  {
    WithoutFacts(t.fifo, FramesOf(t.owners, pid, n));
    var t' := ReleaseFrames(t, pid, n);
    assert ExtentsOk(t'.owners);
  }

  /** No slot of the process survives, and every other slot is as it was. */
  lemma ReleaseSlotsExact(w: Swap, pid: nat)
    requires SwapOk(w)
    ensures SwapOk(ReleaseSlots(w, pid))
    ensures forall i :: 0 <= i < |w.slots| ==>
      ReleaseSlots(w, pid).slots[i] == if w.slots[i].Some? && w.slots[i].value.pid == pid then None else w.slots[i]
  {
  }

  lemma ReleaseWhere(m: Mem, pid: nat, k: Key)
    requires MemOk(m)
    ensures Resident(Release(m, pid), k) <==> Resident(m, k) && k.pid != pid
    ensures Swapped(Release(m, pid), k) <==> Swapped(m, k) && k.pid != pid
    ensures k.pid != pid ==>
      IndexOf(Release(m, pid).frames.owners, User(k)) == IndexOf(m.frames.owners, User(k)) &&
      IndexOf(Release(m, pid).swap.slots, Some(k)) == IndexOf(m.swap.slots, Some(k))
  {
    var m' := Release(m, pid);
    ReleaseSlotsExact(m.swap, pid);
    if k.pid != pid {
      var a, b := IndexOf(m.frames.owners, User(k)), IndexOf(m'.frames.owners, User(k));
      assert a < |m.frames.owners| ==> m'.frames.owners[a] == User(k);
      assert b < |m.frames.owners| ==> m.frames.owners[b] == User(k);
      var c, d := IndexOf(m.swap.slots, Some(k)), IndexOf(m'.swap.slots, Some(k));
      assert c < |m.swap.slots| ==> m'.swap.slots[c] == Some(k);
      assert d < |m.swap.slots| ==> m.swap.slots[d] == Some(k);
    }
  }

  lemma ReleaseMemOk(m: Mem, pid: nat)
    requires MemOk(m)
    ensures MemOk(Release(m, pid)) && forall k :: Live(Release(m, pid), k) <==> Live(m, k) && k.pid != pid
  {
    var m' := Release(m, pid);
    ReleaseFramesOk(m.frames, pid, |m.frames.owners|);
    ReleaseSlotsExact(m.swap, pid);
    forall k
      ensures Live(m', k) <==> Live(m, k) && k.pid != pid
      ensures Resident(m', k) <==> Resident(m, k) && k.pid != pid
      ensures Swapped(m', k) <==> Swapped(m, k) && k.pid != pid
    {
      ReleaseWhere(m, pid, k);
    }
    hide Resident, Swapped, FramesOk, SwapOk, ReleaseFrames, ReleaseSlots;
    assert SpacesOk(m') && ResidencyOk(m');
  }

  lemma ReleaseOk(m: Mem, pid: nat)
    requires MemOk(m)
    ensures MemOk(Release(m, pid))
    ensures forall k :: Live(m, k) && k.pid != pid ==>
      Live(Release(m, pid), k) && View(Release(m, pid), k) == View(m, k)
  {
    var m' := Release(m, pid);
    ReleaseMemOk(m, pid);
    forall k | Live(m, k) && k.pid != pid
      ensures View(m', k) == View(m, k)
    {
      ReleaseWhere(m, pid, k);
      assert Loaded(m', k) == Loaded(m, k);
    }
  }

  function Unloaded(a: AddrSpace): Flags {
    Flags(seq(a.seg1.npages, _ => false), seq(a.seg2.npages, _ => false), seq(a.segstack.npages, _ => false))
  }

  /** A process starts with nothing loaded. */
  function Start(m: Mem, pid: nat, a: AddrSpace): Mem {
    m.(spaces := m.spaces[pid := a], flags := m.flags[pid := Unloaded(a)])
  }

  lemma NothingLoaded(a: AddrSpace, vaddr: nat)
    requires !SegmentOf(a, vaddr).Nowhere?
    ensures FlagsOk(a, Unloaded(a)) && !IsLoaded(a, Unloaded(a), vaddr)
  {
    hide PageIndex;
  }

  lemma StartLoaded(m: Mem, pid: nat, a: AddrSpace, k: Key)
    requires SpacesOk(m) && SpaceOk(a) && pid > 0 && pid !in m.spaces
    ensures SpacesOk(Start(m, pid, a))
    ensures Live(m, k) <==> Live(Start(m, pid, a), k) && k.pid != pid
    ensures Live(Start(m, pid, a), k) ==> Loaded(Start(m, pid, a), k) == (k.pid != pid && Loaded(m, k))
  {
    hide SegmentOf, IsLoaded;
    if Live(Start(m, pid, a), k) && k.pid == pid {
      NothingLoaded(a, k.vaddr);
    }
  }

  lemma StartMemOk(m: Mem, pid: nat, a: AddrSpace)
    requires MemOk(m) && SpaceOk(a) && pid > 0 && pid !in m.spaces
    ensures MemOk(Start(m, pid, a))
    ensures forall k :: Live(Start(m, pid, a), k) ==>
      Loaded(Start(m, pid, a), k) == (k.pid != pid && Loaded(m, k)) && (k.pid != pid ==> Live(m, k))
  {
    var m' := Start(m, pid, a);
    forall k
      ensures SpacesOk(m')
      ensures Live(m, k) <==> Live(m', k) && k.pid != pid
      ensures Live(m', k) ==> Loaded(m', k) == (k.pid != pid && Loaded(m, k))
      ensures Resident(m', k) == Resident(m, k) && Swapped(m', k) == Swapped(m, k)
    {
      StartLoaded(m, pid, a, k);
    }
    StartLoaded(m, pid, a, Key(pid, 0));
    hide SpacesOk, Live, Loaded, Resident, Swapped, FramesOk, SwapOk;
    assert forall k :: Resident(m, k) || Swapped(m, k) ==> k.pid != pid;
    assert ResidencyOk(m');
  }

  lemma StartOk(m: Mem, pid: nat, a: AddrSpace)
    requires MemOk(m) && SpaceOk(a) && pid > 0 && pid !in m.spaces
    ensures MemOk(Start(m, pid, a))
    ensures forall k :: Live(Start(m, pid, a), k) ==>
      View(Start(m, pid, a), k) == if k.pid == pid then FirstLoad(a, k.vaddr) else View(m, k)
  {
    StartMemOk(m, pid, a);
  }

  // ---------------------------------------------------------------------------------------
  // Kernel memory
  // ---------------------------------------------------------------------------------------

  /** Kernel extents come and go, and the kernel writes to its own frames, unseen by processes. */
  lemma KernelOk(m: Mem, m': Mem)
    requires MemOk(m) && FramesOk(m'.frames) && |m'.frames.owners| == |m.frames.owners| == |m'.ram|
    requires m'.swap == m.swap && m'.spaces == m.spaces && m'.flags == m.flags && m'.frames.owners[0].Kernel?
    requires forall f :: 0 <= f < |m.ram| && (m.frames.owners[f].User? || m'.frames.owners[f].User?) ==>
      m'.frames.owners[f] == m.frames.owners[f] && m'.ram[f] == m.ram[f]
    ensures MemOk(m') && SameView(m, m')
  {
    forall k
      ensures Live(m', k) == Live(m, k) && Swapped(m', k) == Swapped(m, k)
      ensures IndexOf(m'.frames.owners, User(k)) == IndexOf(m.frames.owners, User(k))
    {
      var a, b := IndexOf(m.frames.owners, User(k)), IndexOf(m'.frames.owners, User(k));
      assert a < |m.ram| ==> m'.frames.owners[a] == User(k);
      assert b < |m.ram| ==> m.frames.owners[b] == User(k);
    }
    forall k
      ensures Resident(m', k) == Resident(m, k)
    {
    }
    assert SpacesOk(m') && ResidencyOk(m');
    forall k | Live(m, k)
      ensures View(m', k) == View(m, k)
    {
      assert Loaded(m', k) == Loaded(m, k);
    }
  }
}
