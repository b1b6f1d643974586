/** The inverted page table of kern/vm/pt.c: one entry per physical frame, hash chains threaded
    through `next`, and the first-in first-out victim queue threaded through `fifonext`.
    A pointer to an entry is its index; the null pointer is -1. */
module PageTable {
  import opened Basics

  const PAGE_SIZE: nat := 4096

  datatype Key = Key(pid: nat, vaddr: nat)

  datatype PtPage = PtPage(pid: int, vaddr: nat, numpages: nat, fifonext: int, next: int)

  // ---------------------------------------------------------------------------------------
  // What a table means, without its links
  // ---------------------------------------------------------------------------------------

  datatype Owner = Free | Kernel(npages: nat) | User(key: Key)

  /** `owners[f]` says who marked frame `f`; `fifo` lists the user frames, oldest first. */
  datatype Frames = Frames(owners: seq<Owner>, fifo: seq<nat>)

  /** Frame `i` belongs to a kernel extent. Only the head frame of an extent is marked. */
  ghost predicate InExtent(owners: seq<Owner>, i: int) {
    exists h :: 0 <= h < |owners| && owners[h].Kernel? && h <= i < h + owners[h].npages
  }

  ghost predicate TrulyFree(owners: seq<Owner>, i: int) {
    0 <= i < |owners| && owners[i].Free? && !InExtent(owners, i)
  }

  ghost predicate FreeRun(owners: seq<Owner>, i: int, n: nat) {
    0 <= i && i + n <= |owners| && forall k :: i <= k < i + n ==> TrulyFree(owners, k)
  }

  ghost predicate NoRunBefore(owners: seq<Owner>, i: int, n: nat) {
    forall k :: k < i ==> !FreeRun(owners, k, n)
  }

  /** Extents are in range, and no frame inside one is marked by anybody else. */
  ghost predicate ExtentsOk(owners: seq<Owner>) {
    forall h :: 0 <= h < |owners| && owners[h].Kernel? ==>
      owners[h].npages >= 1 && h + owners[h].npages <= |owners| &&
      forall j :: h < j < h + owners[h].npages ==> owners[j].Free?
  }

  ghost predicate UniqueUsers(owners: seq<Owner>) {
    forall f, g :: 0 <= f < g < |owners| && owners[f].User? ==> owners[f] != owners[g]
  }

  ghost predicate FifoOk(t: Frames) {
    Distinct(t.fifo) &&
    forall f: nat :: f in t.fifo <==> f < |t.owners| && t.owners[f].User?
  }

  ghost predicate FramesOk(t: Frames) {
    ExtentsOk(t.owners) && UniqueUsers(t.owners) && FifoOk(t) &&
    forall f :: 0 <= f < |t.owners| && t.owners[f].User? ==> t.owners[f].key.pid > 0
  }

  /** No extent that starts below `i` reaches `i`. */
  ghost predicate Boundary(owners: seq<Owner>, i: int) {
    forall h :: 0 <= h < i && h < |owners| && owners[h].Kernel? ==> h + owners[h].npages <= i
  }

  lemma RunFound(owners: seq<Owner>, i: int, n: nat)
    requires Boundary(owners, i) && 0 <= i && i + n <= |owners|
    requires forall k :: i <= k < i + n ==> owners[k].Free?
    ensures FreeRun(owners, i, n)
  {
  }

  lemma RunBlocked(owners: seq<Owner>, i: int, j: int, n: nat)
    requires i <= j < i + n && (j < |owners| ==> 0 <= j && !owners[j].Free?)
    requires NoRunBefore(owners, i, n)
    ensures NoRunBefore(owners, i + 1, n)
  {
    assert !TrulyFree(owners, j);
  }

  lemma SkipExtent(owners: seq<Owner>, i: nat, n: nat)
    requires ExtentsOk(owners) && Boundary(owners, i) && i < |owners|
    requires n > 0 ==> NoRunBefore(owners, i + 1, n)
    ensures owners[i].Kernel? ==> Boundary(owners, i + owners[i].npages)
    ensures owners[i].Kernel? && n > 0 ==> NoRunBefore(owners, i + owners[i].npages, n)
  {
    if owners[i].Kernel? {
      forall k | i < k < i + owners[i].npages
        ensures !TrulyFree(owners, k)
      {
      }
      assert n > 0 ==> forall k :: i < k < i + owners[i].npages && FreeRun(owners, k, n) ==> TrulyFree(owners, k);
    }
  }

  /** A new user page: the frame is marked and joins the end of the queue. */
  function Install(t: Frames, f: nat, key: Key): Frames
    requires f < |t.owners|
  {
    Frames(t.owners[f := User(key)], t.fifo + [f])
  }

  /** Frame `f` leaves the table and the queue; the rest of the queue keeps its order. */
  function Uninstall(t: Frames, f: nat): Frames
    requires f < |t.owners| && f in t.fifo
  {
    Frames(t.owners[f := Free], DeleteAt(t.fifo, IndexOf(t.fifo, f)))
  }

  function MarkKernel(t: Frames, f: nat, n: nat): Frames
    requires f < |t.owners|
  {
    t.(owners := t.owners[f := Kernel(n)])
  }

  function UnmarkKernel(t: Frames, f: nat): Frames
    requires f < |t.owners|
  {
    t.(owners := t.owners[f := Free])
  }

  /** Physical address of the page, found by scanning the whole table; 0 when absent. */
  function ScanAddr(owners: seq<Owner>, key: Key): nat {
    var f := IndexOf(owners, User(key));
    if f < |owners| then f * PAGE_SIZE else 0
  }

  lemma InstallOk(t: Frames, f: nat, key: Key)
    requires FramesOk(t) && TrulyFree(t.owners, f) && User(key) !in t.owners && key.pid > 0
    ensures FramesOk(Install(t, f, key))
  {
  }

  lemma UninstallOk(t: Frames, f: nat)
    requires FramesOk(t) && f < |t.owners| && f in t.fifo
    ensures FramesOk(Uninstall(t, f))
    ensures t.owners[f].User? && t.owners[f] !in Uninstall(t, f).owners
  {
    DeleteAtFacts(t.fifo, IndexOf(t.fifo, f));
  }

  lemma MarkKernelOk(t: Frames, f: nat, n: nat)
    requires FramesOk(t) && n >= 1 && FreeRun(t.owners, f, n)
    ensures FramesOk(MarkKernel(t, f, n))
  {
    assert TrulyFree(t.owners, f);
    var t' := MarkKernel(t, f, n);
    forall j | f < j < f + n
      ensures t'.owners[j].Free?
    {
      assert TrulyFree(t.owners, j);
    }
    forall h, j | 0 <= h < |t.owners| && t'.owners[h].Kernel? && h < j < h + t'.owners[h].npages && h != f
      ensures t'.owners[j].Free?
    {
      assert j == f ==> InExtent(t.owners, f);
    }
  }

  lemma UnmarkKernelOk(t: Frames, f: nat)
    requires FramesOk(t) && f < |t.owners| && t.owners[f].Kernel?
    ensures FramesOk(UnmarkKernel(t, f))
  {
  }

  /** Kernel extents and user frames never share a frame, although only heads are marked. */
  lemma ExtentsDisjoint(t: Frames, h: nat, g: nat, i: int)
    requires FramesOk(t) && h < |t.owners| && g < |t.owners| && h != g
    requires t.owners[h].Kernel? && h <= i < h + t.owners[h].npages
    ensures !(t.owners[g].User? && i == g)
    ensures !(t.owners[g].Kernel? && g <= i < g + t.owners[g].npages)
  {
  }

  // ---------------------------------------------------------------------------------------
  // The linked representation
  // ---------------------------------------------------------------------------------------

  datatype Which = Chain | Fifo

  function Link(e: PtPage, w: Which): int {
    if w.Chain? then e.next else e.fifonext
  }

  function OwnerOf(e: PtPage): Owner {
    if e.pid > 0 then User(Key(e.pid, e.vaddr)) else if e.pid == 0 then Kernel(e.numpages) else Free
  }

  function OwnersOf(pt: seq<PtPage>): (os: seq<Owner>)
    ensures |os| == |pt| && forall i :: 0 <= i < |pt| ==> os[i] == OwnerOf(pt[i])
  {
    seq(|pt|, i requires 0 <= i < |pt| => OwnerOf(pt[i]))
  }

  function Hash(size: nat, pid: nat, vaddr: nat): (b: nat)
    requires size > 0
    ensures b < size
  {
    BitOr(vaddr, pid) % size
  }

  function At(l: seq<nat>, k: nat): int {
    if k < |l| then l[k] else NULL
  }

  /** Following link `w` from `head` visits exactly the entries of `l` and then ends. */
  ghost predicate Linked(pt: seq<PtPage>, w: Which, head: int, l: seq<nat>) {
    head == At(l, 0) &&
    (forall k :: 0 <= k < |l| ==> l[k] < |pt|) &&
    (forall i, j :: 0 <= i < j < |l| && j == i + 1 ==> Link(pt[l[i]], w) == l[j]) &&
    (l != [] ==> Link(pt[l[|l| - 1]], w) == NULL)
  }

  lemma LinkStep(pt: seq<PtPage>, w: Which, head: int, l: seq<nat>, k: nat)
    requires Linked(pt, w, head, l) && k < |l|
    ensures l[k] < |pt| && Link(pt[l[k]], w) == At(l, k + 1)
  {
  }

  ghost predicate InBucket(pt: seq<PtPage>, size: nat, b: nat, f: nat)
    requires size > 0
  {
    f < |pt| && pt[f].pid > 0 && Hash(size, pt[f].pid, pt[f].vaddr) == b
  }

  ghost predicate ChainOk(pt: seq<PtPage>, size: nat, b: nat, head: int, l: seq<nat>)
    requires size > 0
  {
    Linked(pt, Chain, head, l) && Distinct(l) && forall f: nat :: f in l <==> InBucket(pt, size, b, f)
  }

  ghost predicate ChainsOk(pt: seq<PtPage>, hashed: seq<int>, chains: seq<seq<nat>>) {
    |hashed| > 0 && |chains| == |hashed| &&
    forall b :: 0 <= b < |hashed| ==> ChainOk(pt, |hashed|, b, hashed[b], chains[b])
  }

  ghost predicate EntriesOk(pt: seq<PtPage>) {
    forall i :: 0 <= i < |pt| ==> pt[i].pid >= -1 && (pt[i].pid > 0 ==> pt[i].numpages == 1)
  }

  ghost predicate QueueOk(pt: seq<PtPage>, first: int, last: int, fifo: seq<nat>) {
    Linked(pt, Fifo, first, fifo) && last == (if fifo == [] then NULL else fifo[|fifo| - 1])
  }

  lemma UnlinkAt(pt: seq<PtPage>, pt': seq<PtPage>, w: Which, head: int, head': int, l: seq<nat>, k: nat)
    requires Linked(pt, w, head, l) && Distinct(l) && k < |l| && |pt'| == |pt|
    requires head' == (if k == 0 then Link(pt[l[0]], w) else head)
    requires forall x :: 0 <= x < |pt| && x != l[k] && (k > 0 ==> x != l[k - 1]) ==> Link(pt'[x], w) == Link(pt[x], w)
    requires k > 0 ==> Link(pt'[l[k - 1]], w) == Link(pt[l[k]], w)
    ensures Linked(pt', w, head', DeleteAt(l, k))
  {
    var m := DeleteAt(l, k);
    forall i | 0 <= i < |m|
      ensures m[i] < |pt'| && Link(pt'[m[i]], w) == At(m, i + 1)
    {
      var j := if i < k then i else i + 1;
      assert m[i] == l[j] && l[j] != l[k];
      assert Link(pt[l[j]], w) == At(l, j + 1);
      if i + 1 != k && k > 0 {
        assert l[j] != l[k - 1];
      }
    }
  }

  lemma LinkAppend(pt: seq<PtPage>, pt': seq<PtPage>, w: Which, head: int, head': int, l: seq<nat>, f: nat)
    requires Linked(pt, w, head, l) && Distinct(l) && |pt'| == |pt| && f < |pt| && f !in l
    requires head' == (if l == [] then f else head)
    requires Link(pt'[f], w) == NULL
    requires l != [] ==> Link(pt'[l[|l| - 1]], w) == f
    requires forall x :: 0 <= x < |pt| && x != f && (l != [] ==> x != l[|l| - 1]) ==> Link(pt'[x], w) == Link(pt[x], w)
    ensures Linked(pt', w, head', l + [f]) && Distinct(l + [f])
  {
  }

  /** A chain is untouched by changes to entries outside it that neither enter nor leave its bucket. */
  lemma ChainFrame(pt: seq<PtPage>, pt': seq<PtPage>, size: nat, b: nat, head: int, l: seq<nat>)
    requires size > 0 && ChainOk(pt, size, b, head, l) && |pt'| == |pt|
    requires forall f: nat :: f < |pt| ==> (InBucket(pt, size, b, f) <==> InBucket(pt', size, b, f))
    requires forall f: nat :: f < |pt| && InBucket(pt, size, b, f) ==> pt'[f].next == pt[f].next
    ensures ChainOk(pt', size, b, head, l)
  {
  }

  ghost predicate SameKey(e: PtPage, e': PtPage) {
    e'.pid == e.pid && e'.vaddr == e.vaddr
  }

  /** Entry `f`, so far no user page, joins the end of chain `b`. */
  lemma ChainsInsert(pt: seq<PtPage>, pt': seq<PtPage>, hashed: seq<int>, hashed': seq<int>,
                     chains: seq<seq<nat>>, b: nat, f: nat)
    requires ChainsOk(pt, hashed, chains) && |pt'| == |pt| && f < |pt| && b < |hashed|
    requires pt[f].pid <= 0 && InBucket(pt', |hashed|, b, f) && pt'[f].next == NULL
    requires forall x :: 0 <= x < |pt| && x != f ==> SameKey(pt[x], pt'[x])
    requires var l := chains[b];
      hashed' == (if l == [] then hashed[b := f] else hashed) &&
      (l != [] ==> l[|l| - 1] < |pt| && pt'[l[|l| - 1]].next == f) &&
      forall x :: 0 <= x < |pt| && x != f && (l != [] ==> x != l[|l| - 1]) ==> pt'[x].next == pt[x].next
    ensures ChainsOk(pt', hashed', chains[b := chains[b] + [f]])
  {
    var l := chains[b];
    var size := |hashed|;
    assert ChainOk(pt, size, b, hashed[b], l);
    LinkAppend(pt, pt', Chain, hashed[b], hashed'[b], l, f);
    assert ChainOk(pt', size, b, hashed'[b], l + [f]) by {
      forall x: nat
        ensures x in l + [f] <==> InBucket(pt', size, b, x)
      {
        assert x in l <==> InBucket(pt, size, b, x);
      }
    }
    forall c: nat | c < size && c != b
      ensures ChainOk(pt', size, c, hashed'[c], chains[c])
    {
      assert ChainOk(pt, size, c, hashed[c], chains[c]);
      assert l != [] ==> l[|l| - 1] in l;
      ChainFrame(pt, pt', size, c, hashed[c], chains[c]);
    }
  }

  /** The `k`-th entry of chain `b` leaves it and stops being a user page. */
  lemma ChainsDelete(pt: seq<PtPage>, pt': seq<PtPage>, hashed: seq<int>, hashed': seq<int>,
                     chains: seq<seq<nat>>, b: nat, k: nat)
    requires ChainsOk(pt, hashed, chains) && |pt'| == |pt| && b < |hashed| && k < |chains[b]|
    requires chains[b][k] < |pt| && pt'[chains[b][k]].pid <= 0
    requires forall x :: 0 <= x < |pt| && x != chains[b][k] ==> SameKey(pt[x], pt'[x])
    requires var l := chains[b];
      hashed' == (if k == 0 then hashed[b := pt[l[0]].next] else hashed) &&
      (k > 0 ==> l[k - 1] < |pt| && pt'[l[k - 1]].next == pt[l[k]].next) &&
      forall x :: 0 <= x < |pt| && x != l[k] && (k > 0 ==> x != l[k - 1]) ==> pt'[x].next == pt[x].next
    ensures ChainsOk(pt', hashed', chains[b := DeleteAt(chains[b], k)])
  {
    var l := chains[b];
    var size := |hashed|;
    var f := l[k];
    assert ChainOk(pt, size, b, hashed[b], l);
    UnlinkAt(pt, pt', Chain, hashed[b], hashed'[b], l, k);
    DeleteAtFacts(l, k);
    assert f in l;
    assert ChainOk(pt', size, b, hashed'[b], DeleteAt(l, k)) by {
      forall x: nat
        ensures x in DeleteAt(l, k) <==> InBucket(pt', size, b, x)
      {
        assert x in l <==> InBucket(pt, size, b, x);
      }
    }
    forall c: nat | c < size && c != b
      ensures ChainOk(pt', size, c, hashed'[c], chains[c])
    {
      assert ChainOk(pt, size, c, hashed[c], chains[c]);
      assert k > 0 ==> l[k - 1] in l;
      ChainFrame(pt, pt', size, c, hashed[c], chains[c]);
    }
  }

  /** Changing an entry that is not a user page leaves every chain alone. */
  lemma ChainsKernel(pt: seq<PtPage>, pt': seq<PtPage>, hashed: seq<int>, chains: seq<seq<nat>>, f: nat)
    requires ChainsOk(pt, hashed, chains) && f < |pt| && |pt'| == |pt|
    requires pt[f].pid <= 0 && pt'[f].pid <= 0 && pt' == pt[f := pt'[f]]
    ensures ChainsOk(pt', hashed, chains)
  {
    forall c: nat | c < |hashed|
      ensures ChainOk(pt', |hashed|, c, hashed[c], chains[c])
    {
      ChainFrame(pt, pt', |hashed|, c, hashed[c], chains[c]);
    }
  }

  /** Every user page is on the chain its key hashes to. */
  lemma OnChain(pt: seq<PtPage>, hashed: seq<int>, chains: seq<seq<nat>>, f: nat)
    requires ChainsOk(pt, hashed, chains) && f < |pt| && pt[f].pid > 0
    ensures f in chains[Hash(|hashed|, pt[f].pid, pt[f].vaddr)]
  {
  }

  /** Links, chains, queue and entries all describe the same table. */
  ghost predicate Rep(pt: seq<PtPage>, hashed: seq<int>, first: int, last: int,
                      chains: seq<seq<nat>>, fifo: seq<nat>)
  {
    EntriesOk(pt) && FramesOk(Frames(OwnersOf(pt), fifo)) &&
    ChainsOk(pt, hashed, chains) && QueueOk(pt, first, last, fifo)
  }

  function LinkTo(pt: seq<PtPage>, n: int, w: Which, f: int): (pt': seq<PtPage>)
    ensures |pt'| == |pt|
  {
    if 0 <= n < |pt| then pt[n := if w.Chain? then pt[n].(next := f) else pt[n].(fifonext := f)] else pt
  }

  /** The entries after a user page went into frame `f`: `tail` ends its chain, `last` the queue. */
  function Installed(pt: seq<PtPage>, f: nat, key: Key, tail: int, last: int): (pt': seq<PtPage>)
    requires f < |pt|
    ensures |pt'| == |pt|
  {
    LinkTo(LinkTo(pt[f := PtPage(key.pid, key.vaddr, 1, NULL, NULL)], tail, Chain, f), last, Fifo, f)
  }

  lemma InstalledEntries(pt: seq<PtPage>, f: nat, key: Key, tail: int, last: int)
    requires f < |pt| && key.pid > 0 && EntriesOk(pt)
    ensures var pt' := Installed(pt, f, key, tail, last);
      EntriesOk(pt') && OwnersOf(pt') == OwnersOf(pt)[f := User(key)]
  {
  }

  lemma InstalledChains(pt: seq<PtPage>, hashed: seq<int>, chains: seq<seq<nat>>, f: nat, key: Key, last: int)
    requires ChainsOk(pt, hashed, chains) && f < |pt| && pt[f].pid <= 0 && key.pid > 0 && last != f
    ensures var b := Hash(|hashed|, key.pid, key.vaddr);
      var l := chains[b];
      ChainsOk(Installed(pt, f, key, LastOf(l), last),
               if l == [] then hashed[b := f] else hashed, chains[b := l + [f]])
  {
    var b := Hash(|hashed|, key.pid, key.vaddr);
    var l := chains[b];
    assert ChainOk(pt, |hashed|, b, hashed[b], l);
    assert f !in l by {
      assert !InBucket(pt, |hashed|, b, f);
    }
    assert l != [] ==> LastOf(l) in l;
    ChainsInsert(pt, Installed(pt, f, key, LastOf(l), last), hashed,
                 if l == [] then hashed[b := f] else hashed, chains, b, f);
  }

  lemma InstalledQueue(pt: seq<PtPage>, first: int, last: int, fifo: seq<nat>, f: nat, key: Key, tail: int)
    requires QueueOk(pt, first, last, fifo) && Distinct(fifo) && f < |pt| && f !in fifo && tail != f
    ensures QueueOk(Installed(pt, f, key, tail, last), if first == NULL then f else first, f, fifo + [f])
  {
  }

  lemma RepInstall(pt: seq<PtPage>, hashed: seq<int>, first: int, last: int,
                   chains: seq<seq<nat>>, fifo: seq<nat>, f: nat, key: Key)
    requires Rep(pt, hashed, first, last, chains, fifo)
    requires TrulyFree(OwnersOf(pt), f) && key.pid > 0 && User(key) !in OwnersOf(pt)
    ensures var b := Hash(|hashed|, key.pid, key.vaddr);
      var l := chains[b];
      var pt' := Installed(pt, f, key, LastOf(l), last);
      Rep(pt', if l == [] then hashed[b := f] else hashed, if first == NULL then f else first, f,
          chains[b := l + [f]], fifo + [f]) &&
      OwnersOf(pt') == OwnersOf(pt)[f := User(key)]
  {
    var b := Hash(|hashed|, key.pid, key.vaddr);
    var l := chains[b];
    InstalledEntries(pt, f, key, LastOf(l), last);
    assert FramesOk(Install(Frames(OwnersOf(pt), fifo), f, key)) by {
      InstallOk(Frames(OwnersOf(pt), fifo), f, key);
    }
    assert f !in fifo && last != f;
    assert LastOf(l) != f by {
      assert ChainOk(pt, |hashed|, b, hashed[b], l);
      assert !InBucket(pt, |hashed|, b, f);
      assert l != [] ==> LastOf(l) in l;
    }
    InstalledChains(pt, hashed, chains, f, key, last);
    InstalledQueue(pt, first, last, fifo, f, key, LastOf(l));
  }

  /** The entries after frame `f` was unlinked behind `prec` in its chain and `fprec` in the queue. */
  function Removed(pt: seq<PtPage>, f: nat, prec: int, fprec: int): (pt': seq<PtPage>)
    requires f < |pt|
    ensures |pt'| == |pt|
  {
    var pt2 := LinkTo(LinkTo(pt, prec, Chain, pt[f].next), fprec, Fifo, pt[f].fifonext);
    pt2[f := pt2[f].(pid := -1, numpages := 0, next := NULL, fifonext := NULL)]
  }

  function Before(l: seq<nat>, k: nat): int
    requires k <= |l|
  {
    if k == 0 then NULL else l[k - 1]
  }

  lemma RemovedEntries(pt: seq<PtPage>, f: nat, prec: int, fprec: int)
    requires f < |pt| && EntriesOk(pt)
    ensures EntriesOk(Removed(pt, f, prec, fprec))
    ensures OwnersOf(Removed(pt, f, prec, fprec)) == OwnersOf(pt)[f := Free]
  {
  }

  lemma RemovedChains(pt: seq<PtPage>, hashed: seq<int>, chains: seq<seq<nat>>, b: nat, k: nat, fprec: int)
    requires ChainsOk(pt, hashed, chains) && b < |hashed| && k < |chains[b]| && chains[b][k] < |pt|
    ensures ChainsOk(Removed(pt, chains[b][k], Before(chains[b], k), fprec),
                     if k == 0 then hashed[b := pt[chains[b][0]].next] else hashed,
                     chains[b := DeleteAt(chains[b], k)])
  {
    var l := chains[b];
    assert ChainOk(pt, |hashed|, b, hashed[b], l);
    ChainsDelete(pt, Removed(pt, l[k], Before(l, k), fprec), hashed,
                 if k == 0 then hashed[b := pt[l[0]].next] else hashed, chains, b, k);
  }

  lemma RemovedQueue(pt: seq<PtPage>, first: int, last: int, fifo: seq<nat>, q: nat, prec: int)
    requires QueueOk(pt, first, last, fifo) && Distinct(fifo) && q < |fifo| && fifo[q] < |pt|
    ensures QueueOk(Removed(pt, fifo[q], prec, Before(fifo, q)),
                    if q == 0 then pt[fifo[0]].fifonext else first,
                    LastOf(DeleteAt(fifo, q)), DeleteAt(fifo, q))
  {
    UnlinkAt(pt, Removed(pt, fifo[q], prec, Before(fifo, q)), Fifo, first,
             if q == 0 then pt[fifo[0]].fifonext else first, fifo, q);
  }

  ghost predicate ListsOk(pt: seq<PtPage>, head: int, l: seq<nat>, first: int, last: int, fifo: seq<nat>) {
    Distinct(l) && Linked(pt, Chain, head, l) &&
    QueueOk(pt, first, last, fifo) && Distinct(fifo) && (forall f :: f in l ==> f in fifo) &&
    (forall i, j :: 0 <= i < j < |fifo| ==> fifo[i] < |pt| && fifo[j] < |pt| && !SameKey(pt[fifo[i]], pt[fifo[j]]))
  }

  /** One chain and the queue as the unlinking code meets them. */
  lemma RepLists(pt: seq<PtPage>, hashed: seq<int>, first: int, last: int,
                 chains: seq<seq<nat>>, fifo: seq<nat>, b: nat)
    requires Rep(pt, hashed, first, last, chains, fifo) && b < |hashed|
    ensures ListsOk(pt, hashed[b], chains[b], first, last, fifo)
  {
  }

  lemma RepRemove(pt: seq<PtPage>, hashed: seq<int>, first: int, last: int,
                  chains: seq<seq<nat>>, fifo: seq<nat>, b: nat, k: nat, q: nat)
    requires Rep(pt, hashed, first, last, chains, fifo)
    requires b < |hashed| && k < |chains[b]| && q < |fifo| && chains[b][k] == fifo[q]
    ensures fifo[q] < |pt| && IndexOf(OwnersOf(pt), OwnerOf(pt[fifo[q]])) == fifo[q]
    ensures var f := fifo[q];
      var pt' := Removed(pt, f, Before(chains[b], k), Before(fifo, q));
      Rep(pt', if k == 0 then hashed[b := pt[f].next] else hashed, if q == 0 then pt[f].fifonext else first,
          LastOf(DeleteAt(fifo, q)), chains[b := DeleteAt(chains[b], k)], DeleteAt(fifo, q)) &&
      Frames(OwnersOf(pt'), DeleteAt(fifo, q)) == Uninstall(Frames(OwnersOf(pt), fifo), f)
  {
    var f := fifo[q];
    assert f in fifo && IndexOf(fifo, f) == q;
    assert OwnersOf(pt)[f] in OwnersOf(pt);
    RemovedEntries(pt, f, Before(chains[b], k), Before(fifo, q));
    assert FramesOk(Uninstall(Frames(OwnersOf(pt), fifo), f)) by {
      UninstallOk(Frames(OwnersOf(pt), fifo), f);
    }
    RemovedChains(pt, hashed, chains, b, k, Before(fifo, q));
    RemovedQueue(pt, first, last, fifo, q, Before(chains[b], k));
  }

  lemma RepKernel(pt: seq<PtPage>, hashed: seq<int>, first: int, last: int,
                  chains: seq<seq<nat>>, fifo: seq<nat>, f: nat, e: PtPage)
    requires Rep(pt, hashed, first, last, chains, fifo)
    requires f < |pt| && pt[f].pid <= 0 && -1 <= e.pid <= 0
    requires FramesOk(Frames(OwnersOf(pt)[f := OwnerOf(e)], fifo))
    ensures Rep(pt[f := e], hashed, first, last, chains, fifo)
    ensures OwnersOf(pt[f := e]) == OwnersOf(pt)[f := OwnerOf(e)]
  {
    ChainsKernel(pt, pt[f := e], hashed, chains, f);
    assert OwnersOf(pt[f := e]) == OwnersOf(pt)[f := OwnerOf(e)];
    assert f !in fifo;
  }

  /** The lowest start of a run of free frames, or -1 exactly when there is none. */
  method GetFreeFrames(pt: array<PtPage>, numpages: nat) returns (r: int)
    requires EntriesOk(pt[..]) && ExtentsOk(OwnersOf(pt[..]))
    ensures numpages == 0 ==> r == -1
    ensures numpages > 0 && r == -1 ==> NoRunBefore(OwnersOf(pt[..]), |OwnersOf(pt[..])|, numpages)
    ensures r != -1 ==> FreeRun(OwnersOf(pt[..]), r, numpages) && NoRunBefore(OwnersOf(pt[..]), r, numpages)
  {
    ghost var owners := OwnersOf(pt[..]);
    var i := 0;
    while i < pt.Length
      invariant 0 <= i <= pt.Length
      invariant Boundary(owners, i)
      invariant numpages > 0 ==> NoRunBefore(owners, i, numpages)
    {
      if pt[i].pid == -1 {
        var j := i;
        while j < pt.Length
          invariant i <= j <= pt.Length
          invariant numpages > 0 ==> j - i < numpages
          invariant forall k :: i <= k < j ==> owners[k].Free?
        {
          if pt[j].pid != -1 {
            break;
          } else if j - i + 1 == numpages {
            assert owners[j].Free?;
            RunFound(owners, i, numpages);
            return i;
          }
          assert owners[j].Free?;
          j := j + 1;
        }
        if numpages > 0 {
          RunBlocked(owners, i, j, numpages);
        }
      } else {
        if numpages > 0 {
          RunBlocked(owners, i, i, numpages);
        }
        if pt[i].numpages > 0 {
          SkipExtent(owners, i, numpages);
          i := i + pt[i].numpages - 1;
        }
      }
      i := i + 1;
    }
    return -1;
  }

  /** Walks one hash chain; the answer is the one a scan of the whole table would give. */
  method GetPageAddr(pt: array<PtPage>, hashed: array<int>, ghost chains: seq<seq<nat>>,
                     pid: nat, vaddr: nat) returns (addr: nat)
    requires pid > 0 && ChainsOk(pt[..], hashed[..], chains) && UniqueUsers(OwnersOf(pt[..]))
    ensures addr == ScanAddr(OwnersOf(pt[..]), Key(pid, vaddr))
  {
    var b := Hash(hashed.Length, pid, vaddr);
    ghost var l := chains[b];
    ghost var owners := OwnersOf(pt[..]);
    assert ChainOk(pt[..], hashed.Length, b, hashed[b], l);
    var node := hashed[b];
    ghost var k := 0;
    while node != NULL
      invariant 0 <= k <= |l| && node == At(l, k)
      invariant forall i :: 0 <= i < k ==> owners[l[i]] != User(Key(pid, vaddr))
      decreases |l| - k
    {
      if pt[node].pid == pid && pt[node].vaddr == vaddr {
        assert owners[node] == User(Key(pid, vaddr));
        return node * PAGE_SIZE;
      }
      node := pt[node].next;
      k := k + 1;
    }
    var f := IndexOf(owners, User(Key(pid, vaddr)));
    if f < |owners| {
      OnChain(pt[..], hashed[..], chains, f);
      assert false;
    }
    return 0;
  }

  /** Fills entry `index`, hangs it on the end of its hash chain and of the queue. */
  method LinkEntry(pt: array<PtPage>, hashed: array<int>, ghost l: seq<nat>, index: nat, key: Key, last: int)
    requires hashed.Length > 0 && index < pt.Length && index !in l && NULL <= last < pt.Length
    requires Linked(pt[..], Chain, hashed[Hash(hashed.Length, key.pid, key.vaddr)], l)
    modifies pt, hashed
    ensures hashed[..] ==
      if l == [] then old(hashed[..])[Hash(hashed.Length, key.pid, key.vaddr) := index] else old(hashed[..])
    ensures pt[..] == Installed(old(pt[..]), index, key, LastOf(l), last)
  {
    ghost var pt1 := pt[..];
    pt[index] := PtPage(key.pid, key.vaddr, 1, NULL, NULL);
    ghost var pt0 := pt[..];
    var b := Hash(hashed.Length, key.pid, key.vaddr);
    ghost var head := hashed[b];
    if hashed[b] == NULL {
      hashed[b] := index;
    } else {
      var n := hashed[b];
      ghost var k := 0;
      while pt[n].next != NULL
        invariant 0 <= k < |l| && n == l[k]
        invariant pt[..] == pt0 && hashed[..] == old(hashed[..])
        decreases |l| - k
      {
        LinkStep(pt1, Chain, head, l, k);
        n := pt[n].next;
        k := k + 1;
      }
      LinkStep(pt1, Chain, head, l, k);
      pt[n] := pt[n].(next := index);
    }
    assert pt[..] == LinkTo(pt0, LastOf(l), Chain, index);
    if last != NULL {
      pt[last] := pt[last].(fifonext := index);
    }
  }

  /** Takes the page's entry out of its hash chain; NULL when the chain does not hold it. */
  method UnlinkFromChain(pt: array<PtPage>, hashed: array<int>, ghost l: seq<nat>, pid: nat, vaddr: nat)
    returns (node: int, ghost k: nat)
    requires hashed.Length > 0 && Distinct(l)
    requires Linked(pt[..], Chain, hashed[Hash(hashed.Length, pid, vaddr)], l)
    modifies pt, hashed
    ensures node == NULL ==> pt[..] == old(pt[..]) && hashed[..] == old(hashed[..])
    ensures node == NULL ==>
      forall i :: 0 <= i < |l| ==> l[i] < pt.Length && !(pt[l[i]].pid == pid && pt[l[i]].vaddr == vaddr)
    ensures node != NULL ==> k < |l| && node == l[k] && node < pt.Length
    ensures node != NULL ==> old(pt[node]).pid == pid && old(pt[node]).vaddr == vaddr
    ensures node != NULL ==> pt[..] == LinkTo(old(pt[..]), Before(l, k), Chain, old(pt[node]).next)
    ensures node != NULL ==>
      hashed[..] ==
      if k == 0 then old(hashed[..])[Hash(hashed.Length, pid, vaddr) := old(pt[node]).next] else old(hashed[..])
  {
    ghost var pt0 := pt[..];
    var b := Hash(hashed.Length, pid, vaddr);
    var hashedentry := hashed[b];
    var prec := NULL;
    node := hashedentry;
    k := 0;
    while node != NULL
      invariant 0 <= k <= |l| && node == At(l, k) && prec == Before(l, k)
      invariant forall i :: 0 <= i < k ==> !(pt0[l[i]].pid == pid && pt0[l[i]].vaddr == vaddr)
      invariant pt[..] == pt0 && hashed[..] == old(hashed[..])
      decreases |l| - k
    {
      if pt[node].pid == pid && pt[node].vaddr == vaddr {
        if prec != NULL {
          pt[prec] := pt[prec].(next := pt[node].next);
        }
        break;
      }
      prec := node;
      node := pt[node].next;
      k := k + 1;
    }
    if node == NULL {
      return;
    }
    if hashedentry == node {
      hashed[b] := pt[node].next;
    }
  }

  /** Takes entry `node` out of the queue; its predecessor is found by walking from the head. */
  method UnlinkFromFifo(pt: array<PtPage>, ghost fifo: seq<nat>, first: int, node: nat, ghost q: nat)
    returns (first': int)
    requires Linked(pt[..], Fifo, first, fifo) && Distinct(fifo) && q < |fifo| && fifo[q] == node && node < pt.Length
    requires forall i :: 0 <= i < |fifo| && fifo[i] != node ==> !SameKey(pt[node], pt[fifo[i]])
    modifies pt
    ensures pt[..] == LinkTo(old(pt[..]), Before(fifo, q), Fifo, old(pt[node]).fifonext)
    ensures first' == if q == 0 then old(pt[node]).fifonext else first
  {
    if first != node {
      first' := first;
      var n := first;
      ghost var k := 0;
      while n != NULL
        invariant 0 <= k < q && n == fifo[k]
        invariant pt[..] == old(pt[..])
        decreases q - k
      {
        LinkStep(pt[..], Fifo, first, fifo, k);
        var succ := pt[n].fifonext;
        if pt[succ].pid == pt[node].pid && pt[succ].vaddr == pt[node].vaddr {
          pt[n] := pt[n].(fifonext := pt[succ].fifonext);
          return;
        }
        n := succ;
        k := k + 1;
      }
    } else {
      first' := pt[node].fifonext;
    }
  }

  /** The end of a list, found by walking it. */
  method FindLast(pt: array<PtPage>, ghost l: seq<nat>, first: int) returns (last: int)
    requires Linked(pt[..], Fifo, first, l)
    ensures last == LastOf(l)
  {
    if first == NULL {
      return NULL;
    }
    var n := first;
    ghost var k := 0;
    while pt[n].fifonext != NULL
      invariant 0 <= k < |l| && n == l[k]
      decreases |l| - k
    {
      LinkStep(pt[..], Fifo, first, l, k);
      n := pt[n].fifonext;
      k := k + 1;
    }
    LinkStep(pt[..], Fifo, first, l, k);
    return n;
  }

  /** An entry that its chain does not hold is nowhere in the table. */
  lemma NotOnChain(pt: seq<PtPage>, hashed: seq<int>, chains: seq<seq<nat>>, key: Key)
    requires ChainsOk(pt, hashed, chains) && key.pid > 0
    requires forall f :: f in chains[Hash(|hashed|, key.pid, key.vaddr)] && f < |pt| ==> OwnerOf(pt[f]) != User(key)
    ensures User(key) !in OwnersOf(pt)
  {
  }

  /** Takes entry `node` out of the queue and moves the queue's ends if they were at it. */
  method UnlinkFromQueue(pt: array<PtPage>, ghost fifo: seq<nat>, first: int, last: int, node: nat, ghost q: nat)
    returns (first': int, last': int)
    requires QueueOk(pt[..], first, last, fifo) && Distinct(fifo) && q < |fifo| && fifo[q] == node && node < pt.Length
    requires forall i :: 0 <= i < |fifo| && fifo[i] != node ==> !SameKey(pt[node], pt[fifo[i]])
    modifies pt
    ensures pt[..] == LinkTo(old(pt[..]), Before(fifo, q), Fifo, old(pt[node]).fifonext)
    ensures first' == if q == 0 then old(pt[node]).fifonext else first
    ensures last' == LastOf(DeleteAt(fifo, q))
  {
    last' := last;
    first' := UnlinkFromFifo(pt, fifo, first, node, q);
    UnlinkAt(old(pt[..]), pt[..], Fifo, first, first', fifo, q);
    if last == node {
      last' := FindLast(pt, DeleteAt(fifo, q), first');
    }
  }

  /** freeuser on the bare arrays; `first'` and `last'` are the new ends of the queue. */
  method UnlinkEntry(pt: array<PtPage>, hashed: array<int>, ghost l: seq<nat>, ghost fifo: seq<nat>,
                     pid: nat, vaddr: nat, first: int, last: int)
    returns (node: int, first': int, last': int, ghost k: nat, ghost q: nat)
    requires hashed.Length > 0 && ListsOk(pt[..], hashed[Hash(hashed.Length, pid, vaddr)], l, first, last, fifo)
    modifies pt, hashed
    ensures node == NULL ==> pt[..] == old(pt[..]) && hashed[..] == old(hashed[..]) && first' == first && last' == last
    ensures node == NULL ==>
      forall i :: 0 <= i < |l| ==> l[i] < pt.Length && !(pt[l[i]].pid == pid && pt[l[i]].vaddr == vaddr)
    ensures var b := Hash(hashed.Length, pid, vaddr);
      node != NULL ==>
        k < |l| && node == l[k] && node < pt.Length && q < |fifo| && fifo[q] == node &&
        old(pt[node]).pid == pid && old(pt[node]).vaddr == vaddr &&
        pt[..] == Removed(old(pt[..]), node, Before(l, k), Before(fifo, q)) &&
        hashed[..] == (if k == 0 then old(hashed[..])[b := old(pt[node]).next] else old(hashed[..])) &&
        first' == (if q == 0 then old(pt[node]).fifonext else first) && last' == LastOf(DeleteAt(fifo, q))
  {
    first', last', q := first, last, 0;
    node, k := UnlinkFromChain(pt, hashed, l, pid, vaddr);
    if node == NULL {
      return;
    }
    assert node in l;
    q := IndexOf(fifo, node);
    first', last' := UnlinkFromQueue(pt, fifo, first, last, node, q);
    pt[node] := pt[node].(pid := -1, numpages := 0, next := NULL, fifonext := NULL);
  }

  /** freeuser: `found` is false (the code's -1) exactly when no frame holds the page. */
  method FreeUserEntry(pt: array<PtPage>, hashed: array<int>, ghost chains: seq<seq<nat>>, ghost fifo: seq<nat>,
                       pid: nat, vaddr: nat, first: int, last: int)
    returns (found: bool, first': int, last': int, ghost chains': seq<seq<nat>>, ghost fifo': seq<nat>)
    requires pid > 0 && Rep(pt[..], hashed[..], first, last, chains, fifo)
    modifies pt, hashed
    ensures Rep(pt[..], hashed[..], first', last', chains', fifo')
    ensures found == (User(Key(pid, vaddr)) in OwnersOf(old(pt[..])))
    ensures !found ==> Frames(OwnersOf(pt[..]), fifo') == Frames(OwnersOf(old(pt[..])), fifo)
    ensures found ==> var f := IndexOf(OwnersOf(old(pt[..])), User(Key(pid, vaddr)));
      f in fifo && Frames(OwnersOf(pt[..]), fifo') == Uninstall(Frames(OwnersOf(old(pt[..])), fifo), f)
  {
    ghost var b := Hash(hashed.Length, pid, vaddr);
    ghost var pt0, hashed0 := pt[..], hashed[..];
    RepLists(pt0, hashed0, first, last, chains, fifo, b);
    var node;
    ghost var k, q;
    node, first', last', k, q := UnlinkEntry(pt, hashed, chains[b], fifo, pid, vaddr, first, last);
    if node == NULL {
      NotOnChain(pt0, hashed0, chains, Key(pid, vaddr));
      found, chains', fifo' := false, chains, fifo;
    } else {
      RepRemove(pt0, hashed0, first, last, chains, fifo, b, k, q);
      found, chains', fifo' := true, chains[b := DeleteAt(chains[b], k)], DeleteAt(fifo, q);
    }
  }

  // ---------------------------------------------------------------------------------------
  // The table itself
  // ---------------------------------------------------------------------------------------

  /** Tables in which nothing but low frames is marked. */
  lemma BootRep(pt: seq<PtPage>, hashed: seq<int>, firstfree: nat)
    requires |hashed| > 0 && firstfree <= |pt| && forall b :: 0 <= b < |hashed| ==> hashed[b] == NULL
    requires forall j :: 0 <= j < |pt| ==>
      pt[j].pid == (if j < firstfree then 0 else -1) && (j < firstfree ==> pt[j].numpages == 1)
    ensures Rep(pt, hashed, NULL, NULL, seq(|hashed|, _ => []), [])
    ensures OwnersOf(pt) == seq(|pt|, i => if i < firstfree then Kernel(1) else Free)
  {
  }

  class Table {
    const pt: array<PtPage>
    const hashed: array<int>
    var firstvictim: int
    var lastallocateduser: int
    ghost var chains: seq<seq<nat>>
    ghost var fifo: seq<nat>

    ghost function Model(): Frames
      reads this, pt
    {
      Frames(OwnersOf(pt[..]), fifo)
    }

    ghost predicate Valid()
      reads this, pt, hashed
    {
      Rep(pt[..], hashed[..], firstvictim, lastallocateduser, chains, fifo)
    }

    /** ptinit: the first `firstfree` frames belong to the kernel, all others are free. */
    constructor (ptsize: nat, hashedptsize: nat, firstfree: nat)
      requires hashedptsize > 0 && firstfree <= ptsize
      ensures Valid() && fresh(pt) && fresh(hashed)
      ensures pt.Length == ptsize && hashed.Length == hashedptsize
      ensures Model() == Frames(seq(ptsize, i => if i < firstfree then Kernel(1) else Free), [])
    {
      pt := new PtPage[ptsize](_ => PtPage(-1, 0, 0, NULL, NULL));
      hashed := new int[hashedptsize](_ => NULL);
      firstvictim := NULL;
      lastallocateduser := NULL;
      fifo := [];
      chains := seq(hashedptsize, _ => []);
      new;
      for i := 0 to firstfree
        modifies pt
        invariant forall j :: 0 <= j < ptsize ==>
          pt[j].pid == (if j < i then 0 else -1) && (j < i ==> pt[j].numpages == 1)
      {
        pt[i] := PtPage(0, i * PAGE_SIZE, 1, NULL, NULL);
      }
      for i := firstfree to ptsize
        modifies pt
        invariant forall j :: 0 <= j < ptsize ==>
          pt[j].pid == (if j < firstfree then 0 else -1) && (j < firstfree ==> pt[j].numpages == 1)
      {
        pt[i] := PtPage(-1, i * PAGE_SIZE, 0, NULL, NULL);
      }
      BootRep(pt[..], hashed[..], firstfree);
      hide Rep, OwnersOf;
    }

    /** setptentry for a kernel extent (pid 0) or a user page (pid above 0). */
    method SetPtEntry(index: nat, numpages: nat, pid: nat, vaddr: nat)
      requires Valid() && index < pt.Length
      requires pid == 0 ==> numpages >= 1 && FreeRun(Model().owners, index, numpages)
      requires pid > 0 ==> numpages == 1 && TrulyFree(Model().owners, index)
      requires pid > 0 ==> User(Key(pid, vaddr)) !in Model().owners
      modifies this, pt, hashed
      ensures Valid()
      ensures Model() == if pid > 0 then Install(old(Model()), index, Key(pid, vaddr))
                         else MarkKernel(old(Model()), index, numpages)
    {
      if pid > 0 {
        SetUserEntry(index, Key(pid, vaddr));
      } else {
        assert TrulyFree(Model().owners, index);
        MarkKernelOk(Model(), index, numpages);
        SetKernelEntry(index, PtPage(0, vaddr, numpages, NULL, NULL));
      }
    }

    method SetUserEntry(index: nat, key: Key)
      requires Valid() && TrulyFree(Model().owners, index)
      requires key.pid > 0 && User(key) !in Model().owners
      modifies this, pt, hashed
      ensures Valid() && Model() == Install(old(Model()), index, key)
    {
      RepInstall(pt[..], hashed[..], firstvictim, lastallocateduser, chains, fifo, index, key);
      ghost var b := Hash(hashed.Length, key.pid, key.vaddr);
      assert ChainOk(pt[..], hashed.Length, b, hashed[b], chains[b]);
      assert index !in chains[b] by {
        assert !InBucket(pt[..], hashed.Length, b, index);
      }
      hide Rep, Installed, ChainOk, InBucket, OwnersOf, FramesOk, ChainsOk;
      LinkEntry(pt, hashed, chains[b], index, key, lastallocateduser);
      if firstvictim == NULL {
        firstvictim := index;
      }
      lastallocateduser := index;
      chains := chains[b := chains[b] + [index]];
      fifo := fifo + [index];
    }

    /** Overwrites an entry that is not a user page by another one that is not. */
    method SetKernelEntry(index: nat, e: PtPage)
      requires Valid() && index < pt.Length && !Model().owners[index].User? && -1 <= e.pid <= 0
      requires FramesOk(Frames(Model().owners[index := OwnerOf(e)], fifo))
      modifies pt
      ensures Valid() && Model() == Frames(old(Model()).owners[index := OwnerOf(e)], fifo)
    {
      RepKernel(pt[..], hashed[..], firstvictim, lastallocateduser, chains, fifo, index, e);
      ghost var pt0 := pt[..];
      pt[index] := e;
      assert pt[..] == pt0[index := e];
    }

    method FreeUser(pid: nat, vaddr: nat) returns (found: bool)
      requires Valid() && pid > 0
      modifies this, pt, hashed
      ensures Valid() && found == (User(Key(pid, vaddr)) in old(Model()).owners)
      ensures !found ==> Model() == old(Model())
      ensures found ==> var f := IndexOf(old(Model()).owners, User(Key(pid, vaddr)));
        f in old(Model()).fifo && Model() == Uninstall(old(Model()), f)
    {
      hide Rep, OwnersOf, Uninstall;
      found, firstvictim, lastallocateduser, chains, fifo :=
        FreeUserEntry(pt, hashed, chains, fifo, pid, vaddr, firstvictim, lastallocateduser);
    }

    /** The physical address of a resident page, 0 when it is not resident. */
    method PageAddr(pid: nat, vaddr: nat) returns (addr: nat)
      requires Valid() && pid > 0
      ensures addr == ScanAddr(Model().owners, Key(pid, vaddr))
    {
      addr := GetPageAddr(pt, hashed, chains, pid, vaddr);
    }

    /** The head of the queue: the longest-resident user page, its frame and its physical address. */
    method Victim() returns (f: nat, pid: nat, vaddr: nat, addr: nat)
      requires Valid() && fifo != []
      ensures f == Model().fifo[0] && f < |Model().owners| && pid > 0
      ensures Model().owners[f] == User(Key(pid, vaddr)) && IndexOf(Model().owners, User(Key(pid, vaddr))) == f
      ensures addr == f * PAGE_SIZE
    {
      f := firstvictim;
      assert f in fifo;
      pid, vaddr := pt[f].pid, pt[f].vaddr;
      assert Model().owners[f] == User(Key(pid, vaddr));
      addr := PageAddr(pid, vaddr);
    }

    /** freekernel: the whole extent becomes free, because only its head was marked. */
    method FreeKernel(index: nat)
      requires Valid() && index < pt.Length && Model().owners[index].Kernel?
      modifies pt
      ensures Valid() && Model() == UnmarkKernel(old(Model()), index)
    {
      UnmarkKernelOk(Model(), index);
      SetKernelEntry(index, pt[index].(fifonext := NULL, next := NULL, numpages := 0, pid := -1));
    }
  }
}
