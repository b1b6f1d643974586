/** The TLB as kern/vm/vm_tlb.c manages it (a circular buffer with one remembered hole), and the
    event counters of kern/vm/vmstats.c. */
module Tlb {
  const WORD: nat := 0x1_0000_0000

  // ---------------------------------------------------------------------------------------
  // Counters
  // ---------------------------------------------------------------------------------------

  /** The event kinds, in the order of the counter array. */
  datatype Stat =
    | TLBFAULT | TLBFAULTWITHFREE | TLBFAULTWITHREPLACE | TLBINVALIDATION | TLBRELOAD
    | PAGEFAULTZERO | PAGEFAULTDISK | PAGEFAULTELF | PAGEFAULTSWAP | SWAPWRITE

  const VMSTATSLEN: nat := 10

  function StatIndex(t: Stat): (i: nat)
    ensures i < VMSTATSLEN
  {
    match t
    case TLBFAULT => 0 case TLBFAULTWITHFREE => 1 case TLBFAULTWITHREPLACE => 2
    case TLBINVALIDATION => 3 case TLBRELOAD => 4 case PAGEFAULTZERO => 5
    case PAGEFAULTDISK => 6 case PAGEFAULTELF => 7 case PAGEFAULTSWAP => 8 case SWAPWRITE => 9
  }

  /** The values of the `unsigned int` counters. */
  datatype Counters = Counters(faults: nat, free: nat, replaced: nat, flushes: nat, reloads: nat,
                               zeroed: nat, disk: nat, elf: nat, swapped: nat, swapwrites: nat)

  const NO_EVENTS: Counters := Counters(0, 0, 0, 0, 0, 0, 0, 0, 0, 0)

  function Next(a: nat): nat {
    (a + 1) % WORD
  }

  function Bump(c: Counters, t: Stat): Counters {
    match t
    case TLBFAULT => c.(faults := Next(c.faults))
    case TLBFAULTWITHFREE => c.(free := Next(c.free))
    case TLBFAULTWITHREPLACE => c.(replaced := Next(c.replaced))
    case TLBINVALIDATION => c.(flushes := Next(c.flushes))
    case TLBRELOAD => c.(reloads := Next(c.reloads))
    case PAGEFAULTZERO => c.(zeroed := Next(c.zeroed))
    case PAGEFAULTDISK => c.(disk := Next(c.disk))
    case PAGEFAULTELF => c.(elf := Next(c.elf))
    case PAGEFAULTSWAP => c.(swapped := Next(c.swapped))
    case SWAPWRITE => c.(swapwrites := Next(c.swapwrites))
  }

  // The identities printvmstats is meant to warn about, in the counters' own arithmetic.

  predicate SlotIdentity(c: Counters) {
    c.faults == (c.free + c.replaced) % WORD
  }

  predicate SourceIdentity(c: Counters) {
    c.faults == (c.reloads + c.disk + c.zeroed) % WORD
  }

  predicate DiskIdentity(c: Counters) {
    c.disk == (c.elf + c.swapped) % WORD
  }

  ghost predicate Balanced(c: Counters) {
    SlotIdentity(c) && SourceIdentity(c) && DiskIdentity(c)
  }

  lemma BumpModulo(a: nat, r: nat)
    ensures Next((a + r) % WORD) == (Next(a) + r) % WORD
  {
  }

  /** The counters after one fault, counted in total, by where the page came from, and by TLB slot. */
  function FaultCount(c: Counters, slot: Stat, source: Stat, detail: Stat): Counters {
    var c' := Bump(Bump(c, TLBFAULT), source);
    Bump(if source == PAGEFAULTDISK then Bump(c', detail) else c', slot)
  }

  predicate FaultStat(slot: Stat, source: Stat, detail: Stat) {
    (slot == TLBFAULTWITHFREE || slot == TLBFAULTWITHREPLACE) &&
    (source == TLBRELOAD || source == PAGEFAULTZERO || source == PAGEFAULTDISK) &&
    (detail == PAGEFAULTELF || detail == PAGEFAULTSWAP)
  }

  lemma SlotsBalanced(c: Counters, slot: Stat, source: Stat, detail: Stat)
    requires SlotIdentity(c) && FaultStat(slot, source, detail)
    ensures SlotIdentity(FaultCount(c, slot, source, detail))
  {
    if slot == TLBFAULTWITHFREE {
      BumpModulo(c.free, c.replaced);
    } else {
      BumpModulo(c.replaced, c.free);
    }
  }

  lemma SourcesBalanced(c: Counters, slot: Stat, source: Stat, detail: Stat)
    requires SourceIdentity(c) && FaultStat(slot, source, detail)
    ensures SourceIdentity(FaultCount(c, slot, source, detail))
  {
    match source {
      case TLBRELOAD => BumpModulo(c.reloads, c.disk + c.zeroed);
      case PAGEFAULTDISK => BumpModulo(c.disk, c.reloads + c.zeroed);
      case PAGEFAULTZERO => BumpModulo(c.zeroed, c.reloads + c.disk);
    }
  }

  lemma DiskBalanced(c: Counters, slot: Stat, source: Stat, detail: Stat)
    requires DiskIdentity(c) && FaultStat(slot, source, detail)
    ensures DiskIdentity(FaultCount(c, slot, source, detail))
  {
    BumpModulo(c.elf, c.swapped);
    BumpModulo(c.swapped, c.elf);
  }

  /** One fault stays balanced. */
  lemma FaultBalanced(c: Counters, slot: Stat, source: Stat, detail: Stat)
    requires Balanced(c) && FaultStat(slot, source, detail)
    ensures Balanced(FaultCount(c, slot, source, detail))
  {
    hide SlotIdentity, SourceIdentity, DiskIdentity, FaultCount;
    SlotsBalanced(c, slot, source, detail);
    SourcesBalanced(c, slot, source, detail);
    DiskBalanced(c, slot, source, detail);
  }

  /** Which of its three warnings printvmstats gives: it makes the first test three times. */
  function Warnings(c: Counters): seq<bool> {
    [!SlotIdentity(c), !SlotIdentity(c), !SlotIdentity(c)]
  }

  /** Which warnings their texts ask for. */
  function WarningsMeant(c: Counters): seq<bool> {
    [!SlotIdentity(c), !SourceIdentity(c), !DiskIdentity(c)]
  }

  /** They are the same exactly if the three identities hold or fail together. */
  lemma WarningsExact(c: Counters)
    ensures Warnings(c) == WarningsMeant(c) <==>
            (SlotIdentity(c) <==> SourceIdentity(c)) && (SlotIdentity(c) <==> DiskIdentity(c))
  {
    var w, v := Warnings(c), WarningsMeant(c);
    assert w == v ==> w[1] == v[1] && w[2] == v[2];
  }

  /** One fault counted without its source: the second warning is due and not given. */
  lemma WarningMissed()
    ensures var c := NO_EVENTS.(faults := 1, free := 1);
      Warnings(c) == [false, false, false] && WarningsMeant(c) == [false, true, false]
  {
  }

  lemma BalancedQuiet(c: Counters)
    requires Balanced(c)
    ensures Warnings(c) == WarningsMeant(c) == [false, false, false]
  {
  }

  class VmStats {
    const counter: array<nat>

    ghost predicate Valid() {
      counter.Length == VMSTATSLEN
    }

    ghost function Model(): Counters
      requires Valid()
      reads counter
    {
      Counters(counter[0], counter[1], counter[2], counter[3], counter[4],
               counter[5], counter[6], counter[7], counter[8], counter[9])
    }

    /** vmstatsetup. */
    constructor ()
      ensures Valid() && fresh(counter) && Model() == NO_EVENTS
    {
      counter := new nat[VMSTATSLEN];
      new;
      for i := 0 to VMSTATSLEN
        invariant forall j :: 0 <= j < i ==> counter[j] == 0
      {
        counter[i] := 0;
      }
    }

    /** vmstatincr. */
    method Incr(t: Stat)
      requires Valid()
      modifies counter
      ensures Model() == Bump(old(Model()), t)
    {
      counter[StatIndex(t)] := (counter[StatIndex(t)] + 1) % WORD;
    }

    /** The tests of printvmstats, after the counters have been printed. */
    method PrintVmStats() returns (warnings: seq<bool>)
      requires Valid()
      ensures warnings == Warnings(Model())
    {
      var first := counter[0] != (counter[1] + counter[2]) % WORD;
      var second := counter[0] != (counter[1] + counter[2]) % WORD;
      var third := counter[0] != (counter[1] + counter[2]) % WORD;
      return [first, second, third];
    }
  }

  // ---------------------------------------------------------------------------------------
  // TLB
  // ---------------------------------------------------------------------------------------

  datatype Entry = Invalid | Valid(vaddr: nat, frame: nat, writable: bool)

  /** `index` counts the writes since the last flush that found no remembered hole;
      `invalidated` is the remembered hole or -1; `lastpid` wrote last, 0 after a flush. */
  datatype TlbState = TlbState(entries: seq<Entry>, index: nat, invalidated: int, lastpid: nat)

  predicate Maps(e: Entry, vaddr: nat) {
    e.Valid? && e.vaddr == vaddr
  }

  /** tlb_probe: the lowest slot that translates `vaddr`, or -1. */
  function Probe(es: seq<Entry>, vaddr: nat): (i: int)
    ensures -1 <= i < |es|
    ensures i >= 0 ==> Maps(es[i], vaddr)
    ensures i == -1 ==> forall j :: 0 <= j < |es| ==> !Maps(es[j], vaddr)
  {
    if es == [] then -1 else if Maps(es[0], vaddr) then 0
    else
      var r := Probe(es[1..], vaddr);
      if r < 0 then -1 else r + 1
  }

  function AllInvalid(n: nat): (es: seq<Entry>) {
    seq(n, _ => Invalid)
  }

  function DropPage(t: TlbState, vaddr: nat): TlbState {
    var i := Probe(t.entries, vaddr);
    if i < 0 then t else t.(entries := t.entries[i := Invalid], invalidated := i)
  }

  function Flush(t: TlbState, pid: nat): TlbState {
    if pid == t.lastpid then t else TlbState(AllInvalid(|t.entries|), 0, -1, 0)
  }

  ghost predicate Shape(t: TlbState) {
    |t.entries| > 0 && t.index < WORD && -1 <= t.invalidated < |t.entries| &&
    (t.invalidated >= 0 ==> t.entries[t.invalidated].Invalid?)
  }

  /** The slot the next write goes to. */
  function Target(t: TlbState): nat
    requires |t.entries| > 0
  {
    if t.invalidated >= 0 then t.invalidated else t.index % |t.entries|
  }

  function Enter(t: TlbState, pid: nat, vaddr: nat, frame: nat, writable: bool): TlbState
    requires |t.entries| > 0 && t.invalidated < |t.entries|
  {
    TlbState(t.entries[Target(t) := Valid(vaddr, frame, writable)],
             if t.invalidated >= 0 then t.index else (t.index + 1) % WORD, -1, pid)
  }

  /** Whether the next write is counted as one that found a free slot. */
  predicate CountsAsFree(t: TlbState) {
    t.index < |t.entries|
  }

  function FaultKind(t: TlbState): Stat {
    if CountsAsFree(t) then TLBFAULTWITHFREE else TLBFAULTWITHREPLACE
  }

  /** Since the last flush the slots below `index` have been written, all slots once the index has wrapped; and
      every slot that has been written is valid, but for the remembered hole. */
  ghost predicate Filled(t: TlbState, wrapped: bool) {
    Shape(t) && (t.invalidated < t.index || wrapped) &&
    forall i :: 0 <= i < |t.entries| && i != t.invalidated ==> (t.entries[i].Valid? <==> wrapped || i < t.index)
  }

  /** The next write wraps the 32-bit index. */
  predicate Wraps(t: TlbState) {
    t.invalidated < 0 && t.index == WORD - 1
  }

  ghost predicate Full(t: TlbState) {
    forall i :: 0 <= i < |t.entries| ==> t.entries[i].Valid?
  }

  lemma TargetBelow(t: TlbState)
    requires |t.entries| > 0 && t.invalidated < 0 && t.index < |t.entries|
    ensures Target(t) == t.index
  {
  }

  /** A write counted as one that found a free slot replaces a valid entry exactly if no slot is free, and that
      is exactly if the index has wrapped since the last flush and no hole is remembered. */
  lemma FreeWriteExact(t: TlbState, wrapped: bool)
    requires Filled(t, wrapped) && CountsAsFree(t)
    ensures t.entries[Target(t)].Valid? <==> Full(t)
    ensures Full(t) <==> wrapped && t.invalidated < 0
  {
    if t.invalidated < 0 {
      TargetBelow(t);
    }
  }

  /** Only the write that wraps the index changes what is known of the slots. */
  lemma EnterFilled(t: TlbState, wrapped: bool, pid: nat, vaddr: nat, frame: nat, writable: bool)
    requires Filled(t, wrapped) && |t.entries| < WORD
    ensures Filled(Enter(t, pid, vaddr, frame, writable), wrapped || Wraps(t))
  {
    if t.invalidated < 0 {
      if t.index < |t.entries| {
        TargetBelow(t);
      }
      hide Target;
    }
  }

  lemma DropFilled(t: TlbState, wrapped: bool, vaddr: nat)
    requires Filled(t, wrapped) && t.invalidated < 0
    ensures Filled(DropPage(t, vaddr), wrapped)
  {
  }

  lemma FlushFilled(t: TlbState, wrapped: bool, pid: nat)
    requires Filled(t, wrapped)
    ensures Filled(Flush(t, pid), wrapped && pid == t.lastpid)
  {
  }

  /** The write after the one that wraps the index always replaces a valid entry and is counted as free. */
  lemma AfterWrap(t: TlbState, wrapped: bool, pid: nat, vaddr: nat, frame: nat, writable: bool)
    requires Filled(t, wrapped) && |t.entries| < WORD && Wraps(t)
    ensures var t' := Enter(t, pid, vaddr, frame, writable);
      CountsAsFree(t') && t'.entries[Target(t')].Valid?
  {
    EnterFilled(t, wrapped, pid, vaddr, frame, writable);
    FreeWriteExact(Enter(t, pid, vaddr, frame, writable), true);
  }

  lemma AfterWrapExample()
    ensures var t := TlbState([Valid(0x1000, 1, true), Valid(0x2000, 2, true)], WORD - 1, -1, 1);
      var t' := Enter(t, 1, 0x3000, 3, true);
      Filled(t, false) && FaultKind(t') == TLBFAULTWITHFREE && t'.entries[Target(t')] == Valid(0x1000, 1, true)
  {
  }

  /** Writes that find no hole, one after the other. */
  function EnterAll(t: TlbState, pid: nat, es: seq<Entry>): (t': TlbState)
    requires |t.entries| > 0 && t.invalidated == -1 && forall i :: 0 <= i < |es| ==> es[i].Valid?
    ensures |t'.entries| == |t.entries| && t'.invalidated == -1
  {
    if es == [] then t
    else
      var e := es[|es| - 1];
      Enter(EnterAll(t, pid, es[..|es| - 1]), pid, e.vaddr, e.frame, e.writable)
  }

  lemma NextModulo(k: nat)
    ensures (k % WORD + 1) % WORD == (k + 1) % WORD
    ensures k >= WORD || k % WORD == WORD - 1 <==> k + 1 >= WORD
  {
  }

  lemma AtLeastModulo(k: nat, n: nat)
    requires n < WORD
    ensures k >= WORD || k % WORD >= n <==> k >= n
  {
  }

  lemma {:induction false} WritesFilled(t: TlbState, pid: nat, es: seq<Entry>)
    requires Filled(t, false) && t.index == 0 && t.invalidated == -1 && |t.entries| < WORD
    requires forall i :: 0 <= i < |es| ==> es[i].Valid?
    ensures Filled(EnterAll(t, pid, es), |es| >= WORD) && EnterAll(t, pid, es).index == |es| % WORD
  {
    if es != [] {
      var e, k := es[|es| - 1], |es| - 1;
      var t1 := EnterAll(t, pid, es[..k]);
      WritesFilled(t, pid, es[..k]);
      EnterFilled(t1, k >= WORD, pid, e.vaddr, e.frame, e.writable);
      hide Filled;
      NextModulo(k);
    }
  }

  /** Where a write goes that finds no hole. */
  lemma TargetValid(t: TlbState, wrapped: bool)
    requires Filled(t, wrapped) && t.invalidated < 0
    ensures t.entries[Target(t)].Valid? <==> wrapped || t.index >= |t.entries|
  {
    if t.index < |t.entries| {
      TargetBelow(t);
    }
  }

  /** The write after `|es|` others since a flush is counted as free if `|es|` modulo 2^32 is below the number of
      slots, but replaces a valid entry if `|es|` itself is not. */
  lemma NthWrite(t: TlbState, pid: nat, es: seq<Entry>)
    requires Filled(t, false) && t.index == 0 && t.invalidated == -1 && |t.entries| < WORD
    requires forall i :: 0 <= i < |es| ==> es[i].Valid?
    ensures var t' := EnterAll(t, pid, es);
      (CountsAsFree(t') <==> |es| % WORD < |t.entries|) &&
      (t'.entries[Target(t')].Valid? <==> |es| >= |t.entries|)
  {
    assert |t.entries| > 0;
    hide EnterAll, Filled, Target;
    WritesFilled(t, pid, es);
    TargetValid(EnterAll(t, pid, es), |es| >= WORD);
    AtLeastModulo(|es|, |t.entries|);
  }

  class TlbUnit {
    const entries: array<Entry>
    var tlbindex: nat
    var tlbinvalidatedindex: int
    var lastpid: nat

    ghost function Model(): TlbState
      reads this, entries
    {
      TlbState(entries[..], tlbindex, tlbinvalidatedindex, lastpid)
    }

    constructor (n: nat)
      ensures fresh(entries) && Model() == TlbState(AllInvalid(n), 0, -1, 0)
    {
      entries := new Entry[n](_ => Invalid);
      tlbindex, tlbinvalidatedindex, lastpid := 0, -1, 0;
    }

    /** vmtlb_invalidatepage: the process is not looked at. */
    method InvalidatePage(pid: nat, addr: nat)
      modifies this, entries
      ensures Model() == DropPage(old(Model()), addr)
    {
      var ind := Probe(entries[..], addr);
      if ind >= 0 {
        entries[ind] := Invalid;
        tlbinvalidatedindex := ind;
      }
    }

    /** vmtlb_invalidate. */
    method Invalidate(pid: nat, stats: VmStats)
      requires stats.Valid()
      modifies this, entries, stats.counter
      ensures Model() == Flush(old(Model()), pid)
      ensures stats.Model() ==
        if pid == old(lastpid) then old(stats.Model()) else Bump(old(stats.Model()), TLBINVALIDATION)
    {
      if pid == lastpid {
        return;
      }
      ghost var c := stats.Model();
      for i := 0 to entries.Length
        invariant forall j :: 0 <= j < i ==> entries[j].Invalid?
        invariant stats.Model() == c
        modifies entries
      {
        entries[i] := Invalid;
      }
      tlbinvalidatedindex := -1;
      tlbindex := 0;
      lastpid := 0;
      stats.Incr(TLBINVALIDATION);
    }

    /** vmtlb_write. */
    method Write(pid: nat, addr: nat, frame: nat, writePriv: bool, stats: VmStats)
      requires stats.Valid() && Shape(Model())
      modifies this, entries, stats.counter
      ensures Model() == Enter(old(Model()), pid, addr, frame, writePriv)
      ensures stats.Model() == Bump(old(stats.Model()), FaultKind(old(Model())))
    {
      if tlbinvalidatedindex < 0 && tlbindex < entries.Length {
        TargetBelow(Model());
      }
      lastpid := pid;
      var e := Valid(addr, frame, writePriv);
      if tlbinvalidatedindex >= 0 {
        entries[tlbinvalidatedindex] := e;
        tlbinvalidatedindex := -1;
        stats.Incr(if tlbindex < entries.Length then TLBFAULTWITHFREE else TLBFAULTWITHREPLACE);
      } else if tlbindex < entries.Length {
        entries[tlbindex] := e;
        tlbindex := (tlbindex + 1) % WORD;
        stats.Incr(TLBFAULTWITHFREE);
      } else {
        entries[tlbindex % entries.Length] := e;
        tlbindex := (tlbindex + 1) % WORD;
        stats.Incr(TLBFAULTWITHREPLACE);
      }
    }
  }
}
