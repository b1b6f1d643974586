/** The swap space of kern/vm/swapfile.c: a table of slots, scanned linearly, and the file behind it. */
module SwapFile {
  import opened Basics
  import opened PageTable
  import opened Paging

  /** A slot is free when its pid is -1. */
  datatype SwapPage = SwapPage(pid: int, addr: nat)

  function SlotOf(p: SwapPage): Option<Key> {
    if p.pid < 0 then None else Some(Key(p.pid, p.addr))
  }

  function SlotsOf(ps: seq<SwapPage>): (os: seq<Option<Key>>)
    ensures |os| == |ps| && forall i :: 0 <= i < |ps| ==> os[i] == SlotOf(ps[i])
  {
    seq(|ps|, i requires 0 <= i < |ps| => SlotOf(ps[i]))
  }

  class SwapDevice {
    const swappagesmap: array<SwapPage>
    const file: array<Page>
    var maxindswappedpage: nat

    ghost function Model(): Swap
      reads this, swappagesmap, file
    {
      Swap(SlotsOf(swappagesmap[..]), file[..], maxindswappedpage)
    }

    ghost predicate Valid()
      reads this, swappagesmap
    {
      file.Length == swappagesmap.Length && maxindswappedpage < swappagesmap.Length &&
      forall i :: 0 <= i < swappagesmap.Length ==> swappagesmap[i].pid >= -1
    }

    /** swapinit. */
    constructor (n: nat)
      requires n > 0
      ensures Valid() && fresh(swappagesmap) && fresh(file)
      ensures swappagesmap.Length == n && maxindswappedpage == 0
      ensures forall i :: 0 <= i < n ==> Model().slots[i].None?
    {
      swappagesmap := new SwapPage[n](_ => SwapPage(0, 0));
      file := new Page[n](_ => ZEROS);
      maxindswappedpage := 0;
      new;
      for i := 0 to n
        modifies swappagesmap
        invariant forall j :: 0 <= j < n ==> swappagesmap[j].pid >= -1
        invariant forall j :: 0 <= j < i ==> swappagesmap[j].pid == -1
      {
        swappagesmap[i] := SwapPage(-1, 0);
      }
    }

    /** swapinpage; false stands for the panic on a full swap file. */
    method SwapInPage(pid: nat, addr: nat, contents: Page) returns (ok: bool)
      requires Valid()
      modifies this, swappagesmap, file
      ensures Valid()
      ensures ok ==> SwapIn(old(Model()), Key(pid, addr), contents) == Some(Model())
      ensures !ok ==> SwapIn(old(Model()), Key(pid, addr), contents) == None && Model() == old(Model())
    {
      ghost var w := Model();
      var i := 0;
      while i < swappagesmap.Length
        invariant 0 <= i <= swappagesmap.Length && Valid() && Model() == w
        invariant forall j :: 0 <= j < i ==> w.slots[j].Some?
      {
        if swappagesmap[i].pid == -1 {
          assert w.slots[i] == None && IndexOf(w.slots, None) == i;
          swappagesmap[i] := SwapPage(pid, addr);
          if i >= maxindswappedpage {
            maxindswappedpage := i;
          }
          file[i] := contents;
          assert SlotsOf(swappagesmap[..]) == w.slots[i := Some(Key(pid, addr))];
          return true;
        }
        assert w.slots[i].Some?;
        i := i + 1;
      }
      return false;
    }

    /** swapoutpage: the page's contents, its slot freed; `None` (EADDRNOTAVAIL) when no slot holds it. */
    method SwapOutPage(pid: nat, addr: nat) returns (r: Option<Page>)
      requires Valid()
      modifies swappagesmap
      ensures Valid()
      ensures var w := old(Model());
        var i := IndexOf(w.slots, Some(Key(pid, addr)));
        (i == |w.slots| ==> r == None && Model() == w) &&
        (i < |w.slots| ==> r == Some(w.pages[i]) && Model() == w.(slots := w.slots[i := None]))
    {
      ghost var w := Model();
      var i := 0;
      while i < swappagesmap.Length
        invariant 0 <= i <= swappagesmap.Length
        invariant forall j :: 0 <= j < i ==> w.slots[j] != Some(Key(pid, addr))
      {
        if swappagesmap[i].pid == pid && swappagesmap[i].addr == addr {
          assert w.slots[i] == Some(Key(pid, addr)) && IndexOf(w.slots, Some(Key(pid, addr))) == i;
          r := Some(file[i]);
          swappagesmap[i] := SwapPage(-1, 0);
          assert SlotsOf(swappagesmap[..]) == w.slots[i := None];
          return;
        }
        assert w.slots[i] != Some(Key(pid, addr));
        i := i + 1;
      }
      return None;
    }

    /** removeswapentries: looks no further than the highest slot ever used. */
    method RemoveSwapEntries(pid: nat)
      requires Valid()
      modifies swappagesmap
      ensures Valid() && Model() == ReleaseSlots(old(Model()), pid)
    {
      ghost var w := Model();
      var i := 0;
      while i <= maxindswappedpage
        invariant 0 <= i <= maxindswappedpage + 1
        invariant forall j :: 0 <= j < swappagesmap.Length ==> swappagesmap[j].pid >= -1
        invariant forall j :: 0 <= j < swappagesmap.Length ==>
          SlotOf(swappagesmap[j]) ==
          if j < i && w.slots[j].Some? && w.slots[j].value.pid == pid then None else w.slots[j]
      {
        if swappagesmap[i].pid == pid {
          swappagesmap[i] := SwapPage(-1, 0);
        }
        i := i + 1;
      }
      assert Model().slots == ReleaseSlots(w, pid).slots;
    }
  }
}
