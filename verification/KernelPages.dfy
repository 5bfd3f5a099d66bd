/** The kernel half of every address space (vm.c): kmap, mappages over its ranges, and setupkvm. */
module KernelPages {
  import opened PageFrames
  import opened PageTables

  /** A row of kmap in pages: where it starts, how many pages it has, and from which physical page on. */
  datatype Row = Row(first: nat, pages: nat, pa: nat, perm: int)

  function Kmap(data0: DataPage): seq<Row> {
    [ Row(0x80000, 0x100, 0, PTE_W),
      Row(0x80100, data0 - 0x80100, 0x100, 0),
      Row(data0, 0x8E000 - data0, data0 - 0x80000, PTE_W),
      Row(0xFE000, 0x2000, 0xFE000, PTE_W) ]
  }

  /** The kernel's mapping: the first physical memory from KERNBASE on, of which only the kernel's text and constants
      are read-only, and the devices at their own addresses. */
  function KernelPte(data0: DataPage, w: nat): Pte {
    if 0x80000 <= w < 0x8E000 then Present(w - 0x80000 + 1, if 0x80100 <= w < data0 then 0 else PTE_W)
    else if 0xFE000 <= w < PAGES then Present(w + 1, PTE_W)
    else Absent
  }

  /** What can be done with page w of the kernel's half: nothing from user mode, and no writing to the kernel's text and
      constants. */
  function KernelReach(data0: DataPage, w: nat): Reach {
    if 0x80000 <= w < 0x8E000 then To(w - 0x80000 + 1, !(0x80100 <= w < data0), false)
    else if 0xFE000 <= w < PAGES then To(w + 1, true, false)
    else Fault
  }

  lemma {:induction false} KernelSees(vm: Vm, d: int, used: set<int>)
    requires vm.Good(d, used) && forall w :: 0 <= w < PAGES ==> PteAt(vm.tables, d, w) == KernelPte(vm.data0, w)
    ensures forall w :: 0 <= w < PAGES ==> Translate(vm.tables, d, w) == KernelReach(vm.data0, w)
  {
    vm.NoZero(d, used);
    hide Conserved, PteAt, DirOpen, Translate;
    forall w | 0 <= w < PAGES ensures Translate(vm.tables, d, w) == KernelReach(vm.data0, w) {
      EntryDecides(vm.tables, d, w);
    }
  }

  datatype MapEnd = Mapped | NoMemory | Remap

  // ----- mappages -----

  /** The first m pages of the range are mapped, and nothing else has changed. */
  ghost predicate RangeMapped(t0: Tables, t1: Tables, d: int, r: Row, m: nat) {
    forall w :: 0 <= w < PAGES ==> RangePte(t0, t1, d, r, m, w)
  }

  ghost predicate RangePte(t0: Tables, t1: Tables, d: int, r: Row, m: nat, w: nat)
    requires w < PAGES
  {
    if r.first <= w < r.first + m
    then PteAt(t0, d, w) == Absent && PteAt(t1, d, w) == Present(r.pa + w - r.first + 1, r.perm)
    else PteAt(t1, d, w) == PteAt(t0, d, w)
  }

  /** mappages for a range of kernel pages.  It stops at the first page that is mapped already, with the panic, or whose
      page table is missing when memory has run out; the pages before stay mapped. */
  method MapRange(vm: Vm, d: int, r: Row, ghost others: set<int>) returns (end: MapEnd, ghost m: nat)
    requires vm.Good(d, others) && USERPAGES <= r.first && r.pages >= 1 && r.first + r.pages <= PAGES
    modifies vm
    ensures vm.Good(d, others) && SameFor(old(vm.tables), old(vm.data), vm.tables, vm.data, others)
    ensures m <= r.pages && RangeMapped(old(vm.tables), vm.tables, d, r, m) && vm.data == old(vm.data)
    ensures end == Mapped <==> m == r.pages
    ensures end == Remap ==> old(PteAt(vm.tables, d, r.first + m)).Present?
    ensures end == NoMemory ==> vm.freelist == []
    ensures end == NoMemory ==> |old(vm.freelist)| < Missing(old(vm.tables), d, r.first, r.first + m + 1)
    ensures end != NoMemory ==> |old(vm.freelist)| >= Missing(old(vm.tables), d, r.first, r.first + m)
    ensures end == Mapped ==> Tabs(old(vm.tables), vm.tables, d, r.first, r.first + r.pages)
    ensures end == Mapped ==>
              |vm.freelist| == |old(vm.freelist)| - Missing(old(vm.tables), d, r.first, r.first + r.pages)
  {
    hide Conserved, SameFor, FrameAt, PteAt, Missing, TabAt, RangePte;
    ghost var t0, d0, free0 := vm.tables, vm.data, vm.freelist;
    SameForSelf(t0, d0, others);
    NoneMapped(t0, d, r);
    m := 0;
    var i := 0;
    while i < r.pages
      invariant 0 <= i <= r.pages && m == i
      invariant vm.Good(d, others) && SameFor(t0, d0, vm.tables, vm.data, others) && vm.data == d0
      invariant RangeMapped(t0, vm.tables, d, r, i) && Tabs(t0, vm.tables, d, r.first, r.first + i)
      invariant |free0| == |vm.freelist| + Missing(t0, d, r.first, r.first + i)
    {
      ghost var t1, free1 := vm.tables, vm.freelist;
      var v := r.first + i;
      var t := vm.Walkpgdir(d, v, true, others);
      SameForTwice(t0, d0, t1, d0, vm.tables, vm.data, others);
      StillMapped(t0, t1, vm.tables, d, r, i);
      if t == 0 {
        OutOfTables(free1, t0, t1, d, r.first, v);
        return NoMemory, m;
      }
      TabsMore(free1, vm.freelist, t0, t1, vm.tables, d, r.first, v);
      TableOf(vm, d, v, others);
      if vm.tables[t][v % ENTRIES].Present? {
        NotYet(t0, vm.tables, d, r, i);
        return Remap, m;
      }
      ghost var t2 := vm.tables;
      KernelSet(vm.all, vm.freelist, t2, d, others, v, Present(r.pa + i + 1, r.perm));
      vm.tables := vm.tables[t := vm.tables[t][v % ENTRIES := Present(r.pa + i + 1, r.perm)]];
      SameForTwice(t0, d0, t2, d0, vm.tables, vm.data, others);
      OneMapped(t0, t2, vm.tables, d, r, i);
      TabsKept(t0, t2, vm.tables, d, r.first, v + 1);
      i, m := i + 1, m + 1;
    }
    end := Mapped;
  }

  lemma {:induction false} NoneMapped(tables: Tables, d: int, r: Row)
    requires r.first <= PAGES
    ensures RangeMapped(tables, tables, d, r, 0) && Tabs(tables, tables, d, r.first, r.first)
    ensures Missing(tables, d, r.first, r.first) == 0
  {}

  lemma {:induction false} StillMapped(t0: Tables, t1: Tables, t2: Tables, d: int, r: Row, m: nat)
    requires RangeMapped(t0, t1, d, r, m) && forall w :: 0 <= w < PAGES ==> PteAt(t2, d, w) == PteAt(t1, d, w)
    ensures RangeMapped(t0, t2, d, r, m)
  {
    hide PteAt;
    forall w | 0 <= w < PAGES ensures RangePte(t0, t2, d, r, m, w) {
      assert RangePte(t0, t1, d, r, m, w);
    }
  }

  lemma {:induction false} OutOfTables(free: seq<int>, t0: Tables, t1: Tables, d: int, v: nat, u: nat)
    requires v <= u < PAGES && Tabs(t0, t1, d, v, u) && FrameAt(t1, d, Tab(u / ENTRIES)) == 0
    ensures Missing(t0, d, v, u + 1) == Missing(t0, d, v, u) + 1
  {
    assert TabAt(t0, t1, d, v, u, u / ENTRIES);
  }

  lemma {:induction false} TableOf(vm: Vm, d: int, v: nat, others: set<int>)
    requires vm.Good(d, others) && v < PAGES && FrameAt(vm.tables, d, Tab(v / ENTRIES)) != 0
    ensures var t := FrameAt(vm.tables, d, Tab(v / ENTRIES));
            t in vm.tables && |vm.tables[t]| == ENTRIES && PteAt(vm.tables, d, v) == vm.tables[t][v % ENTRIES]
  {
    assert PlaceOk(vm.all, vm.freelist, vm.tables, d, others, Tab(v / ENTRIES));
  }

  lemma {:induction false} NotYet(t0: Tables, t1: Tables, d: int, r: Row, m: nat)
    requires RangeMapped(t0, t1, d, r, m) && r.first + m < PAGES
    ensures PteAt(t0, d, r.first + m) == PteAt(t1, d, r.first + m)
  {
    assert RangePte(t0, t1, d, r, m, r.first + m);
  }

  /** An entry for a kernel page changes no place for frames, no other entry, and nothing of others. */
  lemma {:induction false} KernelSet(all: set<int>, free: seq<int>, tables: Tables, d: int, others: set<int>, v: nat,
                                     p: Pte)
    requires Conserved(all, free, tables, d, others) && USERPAGES <= v < PAGES
    requires FrameAt(tables, d, Tab(v / ENTRIES)) != 0
    ensures var t := FrameAt(tables, d, Tab(v / ENTRIES)); t in tables && |tables[t]| == ENTRIES
    ensures var t := FrameAt(tables, d, Tab(v / ENTRIES));
            var after := tables[t := tables[t][v % ENTRIES := p]];
            && Conserved(all, free, after, d, others)
            && (forall q :: Ok(q) ==> FrameAt(after, d, q) == FrameAt(tables, d, q))
            && (forall w :: 0 <= w < PAGES ==> PteAt(after, d, w) == if w == v then p else PteAt(tables, d, w))
            && (DirOpen(tables, d) ==> DirOpen(after, d))
            && forall data: map<int, Data> :: SameFor(tables, data, after, data, others)
  {
    var tab := Tab(v / ENTRIES);
    var t := FrameAt(tables, d, tab);
    assert PlaceOk(all, free, tables, d, others, tab) && Apart(tables, d, tab, Dir);
    var after := tables[t := tables[t][v % ENTRIES := p]];
    if DirOpen(tables, d) {
      assert PlaceOk(all, free, tables, d, others, Dir);
      SameDir(tables, after, d);
    }
    forall q | Ok(q) ensures FrameAt(after, d, q) == FrameAt(tables, d, q) {
      if q.User? {
        assert Apart(tables, d, tab, Tab(q.v / ENTRIES));
      }
    }
    forall w | 0 <= w < PAGES ensures PteAt(after, d, w) == if w == v then p else PteAt(tables, d, w) {
      assert Apart(tables, d, tab, Tab(w / ENTRIES));
    }
    SamePlaces(all, free, tables, after, d, others);
  }

  lemma {:induction false} SamePlaces(all: set<int>, free: seq<int>, tables: Tables, after: Tables, d: int,
                                      others: set<int>)
    requires Conserved(all, free, tables, d, others) && after.Keys == tables.Keys
    requires forall f :: f in after ==> |after[f]| == |tables[f]|
    requires forall q :: Ok(q) ==> FrameAt(after, d, q) == FrameAt(tables, d, q)
    ensures Conserved(all, free, after, d, others)
  {
    hide FrameAt;
    forall q | Ok(q) ensures PlaceOk(all, free, after, d, others, q) {
      assert PlaceOk(all, free, tables, d, others, q);
    }
    forall q, r | Ok(q) && Ok(r) ensures Apart(after, d, q, r) {
      assert Apart(tables, d, q, r);
    }
    forall f | f in all ensures f in free || f in others || Held(after, d, f) {
      if Held(tables, d, f) {
        var q :| Ok(q) && FrameAt(tables, d, q) == f;
        assert FrameAt(after, d, q) == f;
      }
    }
  }

  lemma {:induction false} OneMapped(t0: Tables, t1: Tables, t2: Tables, d: int, r: Row, m: nat)
    requires RangeMapped(t0, t1, d, r, m) && r.first + m < PAGES && PteAt(t1, d, r.first + m) == Absent
    requires forall w :: 0 <= w < PAGES ==>
               PteAt(t2, d, w) == if w == r.first + m then Present(r.pa + m + 1, r.perm) else PteAt(t1, d, w)
    ensures RangeMapped(t0, t2, d, r, m + 1)
  {
    hide PteAt;
    var n := m + 1;
    forall w | 0 <= w < PAGES ensures RangePte(t0, t2, d, r, n, w) {
      assert RangePte(t0, t1, d, r, m, w);
    }
  }

  lemma {:induction false} TabsKept(t0: Tables, t1: Tables, t2: Tables, d: int, v: nat, u: nat)
    requires Tabs(t0, t1, d, v, u) && forall q :: Ok(q) ==> FrameAt(t2, d, q) == FrameAt(t1, d, q)
    ensures Tabs(t0, t2, d, v, u)
  {
    hide FrameAt;
    forall i | 0 <= i < ENTRIES ensures TabAt(t0, t2, d, v, u, i) {
      assert TabAt(t0, t1, d, v, u, i);
      assert FrameAt(t2, d, Tab(i)) == FrameAt(t1, d, Tab(i));
    }
  }

  // ----- setupkvm -----

  /** What setupkvm takes: a directory, 56 page tables for physical memory, and 8 for the devices. */
  const SETUP := 65

  /** The end of the memory part of the first k rows of kmap. */
  function RowsEnd(data0: DataPage, k: nat): nat {
    if k == 0 then 0x80000 else if k == 1 then 0x80100 else if k == 2 then data0 else 0x8E000
  }

  /** The page tables that the first k rows take. */
  function RowTabs(data0: DataPage, k: nat): nat
    requires k <= 4
  {
    (RowsEnd(data0, k) + ENTRIES - 1) / ENTRIES - USERTABLES + if k == 4 then 8 else 0
  }

  ghost predicate TabsOf(tables: Tables, d: int, data0: DataPage, k: nat) {
    forall i :: 0 <= i < ENTRIES ==> TabOf(tables, d, data0, k, i)
  }

  ghost predicate TabOf(tables: Tables, d: int, data0: DataPage, k: nat, i: nat)
    requires i < ENTRIES
  {
    FrameAt(tables, d, Tab(i)) != 0 <==>
    USERTABLES <= i < (RowsEnd(data0, k) + ENTRIES - 1) / ENTRIES || (k == 4 && 0xFE000 / ENTRIES <= i)
  }

  /** The entry for page w after the first k rows. */
  function RowsPte(data0: DataPage, k: nat, w: nat): Pte {
    if 0x80000 <= w < RowsEnd(data0, k) || k >= 4 then KernelPte(data0, w) else Absent
  }

  ghost predicate RowsMapped(tables: Tables, d: int, data0: DataPage, k: nat) {
    forall w :: 0 <= w < PAGES ==> PteAt(tables, d, w) == RowsPte(data0, k, w)
  }

  lemma {:induction false} NewHalf(t0: Tables, data: map<int, Data>, d: int, used: set<int>, data0: DataPage)
    requires d !in used && d !in t0 && d > 0 && 0 !in t0
    ensures SameFor(t0, data, t0[d := Empty()], data, used)
    ensures TabsOf(t0[d := Empty()], d, data0, 0) && RowsMapped(t0[d := Empty()], d, data0, 0)
    ensures RowTabs(data0, 0) == 0
  {
    var after := t0[d := Empty()];
    forall i | 0 <= i < ENTRIES ensures TabOf(after, d, data0, 0, i) {}
    forall w | 0 <= w < PAGES ensures PteAt(after, d, w) == RowsPte(data0, 0, w) {
      assert TabOf(after, d, data0, 0, w / ENTRIES);
    }
  }

  lemma {:induction false} RowTabsGrow(data0: DataPage, k: nat)
    requires k < 4
    ensures RowTabs(data0, k) <= RowTabs(data0, k + 1) <= RowTabs(data0, 4) == SETUP - 1
  {}

  /** What a row takes, with the rows before mapped. */
  lemma {:induction false} RowMissing(tables: Tables, d: int, data0: DataPage, k: nat)
    requires k < 4 && TabsOf(tables, d, data0, k)
    ensures var r := Kmap(data0)[k];
            Missing(tables, d, r.first, r.first + r.pages) == RowTabs(data0, k + 1) - RowTabs(data0, k)
  {
    var r := Kmap(data0)[k];
    forall i | r.first / ENTRIES <= i < ENTRIES
      ensures FrameAt(tables, d, Tab(i)) != 0 <==> i < (r.first + ENTRIES - 1) / ENTRIES
    {
      assert TabOf(tables, d, data0, k, i);
    }
    hide FrameAt;
    MissingFrom(tables, d, r.first, r.first + r.pages, ENTRIES);
  }

  /** mappages has failed because memory has run out: no page of kmap is mapped twice. */
  lemma {:induction false} RanOut(tables: Tables, free: nat, d: int, data0: DataPage, k: nat, end: MapEnd, m: nat)
    requires k < 4 && TabsOf(tables, d, data0, k) && RowsMapped(tables, d, data0, k) && end != Mapped
    requires var r := Kmap(data0)[k];
             && m < r.pages && (end == Remap ==> PteAt(tables, d, r.first + m).Present?)
             && (end == NoMemory ==> free < Missing(tables, d, r.first, r.first + m + 1))
    ensures end == NoMemory && free < RowTabs(data0, k + 1) - RowTabs(data0, k)
  {
    hide PteAt, Missing, FrameAt, RowTabs, TabsOf;
    var r := Kmap(data0)[k];
    assert PteAt(tables, d, r.first + m) == RowsPte(data0, k, r.first + m) == Absent;
    MissingGrows(tables, d, r.first, r.first + m + 1, r.first + r.pages);
    RowMissing(tables, d, data0, k);
  }

  lemma {:induction false} RowDone(t1: Tables, t2: Tables, d: int, data0: DataPage, k: nat)
    requires k < 4 && TabsOf(t1, d, data0, k) && RowsMapped(t1, d, data0, k)
    requires var r := Kmap(data0)[k];
             RangeMapped(t1, t2, d, r, r.pages) && Tabs(t1, t2, d, r.first, r.first + r.pages)
    ensures TabsOf(t2, d, data0, k + 1) && RowsMapped(t2, d, data0, k + 1)
  {
    hide PteAt, FrameAt;
    var r, n := Kmap(data0)[k], k + 1;
    forall i | 0 <= i < ENTRIES ensures TabOf(t2, d, data0, n, i) {
      assert TabOf(t1, d, data0, k, i) && TabAt(t1, t2, d, r.first, r.first + r.pages, i);
    }
    forall w | 0 <= w < PAGES ensures PteAt(t2, d, w) == RowsPte(data0, n, w) {
      assert RangePte(t1, t2, d, r, r.pages, w);
    }
  }

  lemma {:induction false} AllRows(tables: Tables, d: int, data0: DataPage)
    requires TabsOf(tables, d, data0, 4) && RowsMapped(tables, d, data0, 4)
    ensures forall w :: 0 <= w < PAGES ==> PteAt(tables, d, w) == KernelPte(data0, w)
    ensures forall i :: 0 <= i < USERTABLES ==> FrameAt(tables, d, Tab(i)) == 0
    ensures RowTabs(data0, 4) == SETUP - 1
  {
    hide PteAt, FrameAt;
    forall i | 0 <= i < USERTABLES ensures FrameAt(tables, d, Tab(i)) == 0 {
      assert TabOf(tables, d, data0, 4, i);
    }
  }

  ghost function AllOf(s: seq<int>): set<int> {
    set f | f in s
  }

  lemma {:induction false} AllOfSize(s: seq<int>)
    requires NoDup(s)
    ensures |AllOf(s)| == |s|
  {
    if s != [] {
      AllOfSize(s[1..]);
      assert AllOf(s) == AllOf(s[1..]) + {s[0]};
    }
  }

  /** All that was free is in nobody's use any more, and not free. */
  lemma {:induction false} LostAll(all: set<int>, free: seq<int>, tables: Tables, after: Tables, used: set<int>)
    requires AllKnown(all, free, tables, used) && 0 !in after
    ensures AllKnown(all, [], after, used + AllOf(free))
    ensures AllOf(free) !! used && AllOf(free) <= all && |AllOf(free)| == |free|
  {
    AllOfSize(free);
  }

  /** setupkvm.  It takes 65 frames, and fails if and only if there are fewer; then every frame that was free is lost,
      for nobody gives back what was taken. */
  method SetupKvm(vm: Vm, ghost used: set<int>) returns (d: int, ghost gone: set<int>)
    requires AllKnown(vm.all, vm.freelist, vm.tables, used)
    modifies vm
    ensures d != 0 <==> |old(vm.freelist)| >= SETUP
    ensures SameFor(old(vm.tables), old(vm.data), vm.tables, vm.data, used) && vm.data == old(vm.data)
    ensures d != 0 ==> gone == {} && vm.Good(d, used) && |vm.freelist| == |old(vm.freelist)| - SETUP
    ensures d != 0 ==> forall w :: 0 <= w < PAGES ==> PteAt(vm.tables, d, w) == KernelPte(vm.data0, w)
    ensures d != 0 ==> forall w :: 0 <= w < PAGES ==> Translate(vm.tables, d, w) == KernelReach(vm.data0, w)
    ensures d != 0 ==> forall i :: 0 <= i < USERTABLES ==> FrameAt(vm.tables, d, Tab(i)) == 0
    ensures d == 0 ==> vm.freelist == [] && AllKnown(vm.all, [], vm.tables, used + gone)
    ensures d == 0 ==> gone !! used && gone <= vm.all && |gone| == |old(vm.freelist)|
  {
    hide Conserved, SameFor, FrameAt, PteAt, Missing, Tabs, RangeMapped, TabsOf, RowsMapped, RowTabs;
    ghost var t0, d0, free0 := vm.tables, vm.data, vm.freelist;
    SameForSelf(t0, d0, used);
    gone := {};
    d := vm.NewDirectory(used);
    if d == 0 {
      assert used + gone == used;
      return;
    }
    NewHalf(t0, d0, d, used, vm.data0);
    var rows := Kmap(vm.data0);
    var k := 0;
    while k < |rows|
      invariant 0 <= k <= |rows| == 4 && rows == Kmap(vm.data0) && d != 0 && vm.data == d0
      invariant vm.Good(d, used) && SameFor(t0, d0, vm.tables, vm.data, used)
      invariant TabsOf(vm.tables, d, vm.data0, k) && RowsMapped(vm.tables, d, vm.data0, k)
      invariant |free0| == |vm.freelist| + 1 + RowTabs(vm.data0, k)
    {
      ghost var t1, free1 := vm.tables, vm.freelist;
      RowMissing(t1, d, vm.data0, k);
      RowTabsGrow(vm.data0, k);
      var end, m := MapRange(vm, d, rows[k], used);
      SameForTwice(t0, d0, t1, d0, vm.tables, vm.data, used);
      if end != Mapped {
        RanOut(t1, |free1|, d, vm.data0, k, end, m);
        vm.NoZero(d, used);
        d, gone := 0, AllOf(free0);
        LostAll(vm.all, free0, t0, vm.tables, used);
        return;
      }
      RowDone(t1, vm.tables, d, vm.data0, k);
      k := k + 1;
    }
    AllRows(vm.tables, d, vm.data0);
    KernelSees(vm, d, used);
  }
}
