/** Frames and address spaces of xv6 (kalloc.c, vm.c).  `d` is the frame of a page directory, `others` the frames used
    for anything but this address space: the caller's own, other address spaces, the kernel.  Pages are numbered, and
    the pages from number PgRoundUp(sz) / PGSIZE on lie behind an address space of size sz. */
module PageTables {
  import opened PageFrames

  const PGSIZE := 4096
  const KERNBASE := 0x8000_0000
  const PTE_W := 2
  const PTE_U := 4
  const USERFLAGS := PTE_W + PTE_U

  type Data = seq<bv8>

  function PgRoundUp(sz: nat): nat {
    (sz + PGSIZE - 1) / PGSIZE * PGSIZE
  }

  function Zeros(): Data {
    seq(PGSIZE, i => 0)
  }

  function Junk(): Data {
    seq(PGSIZE, i => 1)
  }

  /** n frames from physical page `first` on. */
  function Range(first: nat, n: nat): (s: set<int>)
    ensures forall f :: f in s <==> first < f <= first + n
  {
    if n == 0 then {} else Range(first, n - 1) + {first + n}
  }

  /** The page number of the linker's symbol `data`, where the kernel's read-only part ends. */
  type DataPage = v: nat | 0x80100 < v < 0x8E000 witness 0x80101

  /** Where all page tables are open, the entry of the page alone says who can use it. */
  lemma {:induction false} EntryDecides(tables: Tables, d: int, v: nat)
    requires DirOpen(tables, d) && v < PAGES && 0 !in tables
    ensures var p := PteAt(tables, d, v);
            Translate(tables, d, v) == if p.Present? then To(p.frame, Writes(p.flags), Users(p.flags)) else Fault
  {
    assert OpenAt(tables, d, v / ENTRIES);
  }

  /** The page table entry of page v. */
  function PteAt(tables: Tables, d: int, v: nat): Pte
    requires v < PAGES
  {
    var t := FrameAt(tables, d, Tab(v / ENTRIES));
    if t in tables && |tables[t]| == ENTRIES then tables[t][v % ENTRIES] else Absent
  }

  class Vm {
    ghost const all: set<int>
    const data0: DataPage
    var freelist: seq<int>
    var tables: Tables
    var data: map<int, Data>

    ghost predicate Good(d: int, others: set<int>)
      reads this
    {
      Conserved(all, freelist, tables, d, others) && DirOpen(tables, d)
    }

    /** freerange: n frames, given to the free list one after the other. */
    constructor (first: nat, n: nat, data0: DataPage)
      ensures all == Range(first, n) && |freelist| == n && AllKnown(all, freelist, tables, {}) && this.data0 == data0
    {
      all := Range(first, n);
      this.data0, freelist, tables, data := data0, [], map[], map[];
      new;
      var p := 0;
      while p < n
        invariant 0 <= p <= n && |freelist| == p && tables == map[]
        invariant forall k :: 0 <= k < |freelist| ==> freelist[k] == first + p - k
      {
        Push(first + p + 1);
        p := p + 1;
      }
      assert forall f :: f in all ==> freelist[first + n - f] == f;
    }

    /** The first step of setupkvm: a frame for the directory, cleared; 0 when there is none. */
    method NewDirectory(ghost used: set<int>) returns (d: int)
      requires AllKnown(all, freelist, tables, used)
      modifies this
      ensures d == 0 <==> old(freelist) == []
      ensures d == 0 ==> freelist == old(freelist) && tables == old(tables) && data == old(data)
      ensures d != 0 ==> Good(d, used) && d !in used && d !in old(tables) && d in all && freelist == old(freelist)[1..]
      ensures d != 0 ==> tables == old(tables)[d := Empty()] && data == old(data)
    {
      if freelist == [] {
        return 0;
      }
      NewSpace(all, freelist, tables, used);
      EmptyDir(tables, freelist[0]);
      d := freelist[0];
      freelist := freelist[1..];
      tables := tables[d := Empty()];
    }

    /** Takes the first frame off the free list; 0 when there is none. */
    method Kalloc(ghost d: int, ghost others: set<int>) returns (f: int)
      requires Good(d, others)
      modifies this`freelist
      ensures f == 0 <==> old(freelist) == []
      ensures f == 0 ==> freelist == old(freelist)
      ensures f != 0 ==> f == old(freelist)[0] && freelist == old(freelist)[1..]
      ensures f != 0 ==> f > 0 && f in all && f !in others && f !in tables && Good(d, others + {f})
    {
      if freelist == [] {
        return 0;
      }
      Grabbed(all, freelist, tables, d, others);
      f := freelist[0];
      freelist := freelist[1..];
    }

    /** Puts a frame of the caller's at the head of the free list, filled with junk. */
    method Kfree(f: int, ghost d: int, ghost others: set<int>)
      requires Good(d, others + {f}) && f in all && f !in others
      modifies this
      ensures Good(d, others) && freelist == [f] + old(freelist)
      ensures forall q :: Ok(q) ==> FrameAt(tables, d, q) == FrameAt(old(tables), d, q)
      ensures forall g :: g != f ==> SameFrame(old(tables), old(data), tables, data, g)
    {
      assert f > 0;
      hide Conserved;
      NotInPlace(d, others, f);
      DirOk(d, others + {f});
      Given(all, freelist, tables, d, others, f);
      ghost var before := tables;
      Push(f);
      assert FrameAt(before, d, Dir) == d;
      SameDir(before, tables, d);
    }

    method Push(f: int)
      modifies this
      ensures freelist == [f] + old(freelist) && tables == old(tables) - {f} && data == old(data)[f := Junk()]
    {
      freelist := [f] + freelist;
      tables := tables - {f};
      data := data[f := Junk()];
    }

    /** The page table for page v, made if asked for; 0 if there is none. */
    method Walkpgdir(d: int, v: nat, alloc: bool, ghost others: set<int>) returns (t: int)
      requires Good(d, others) && v < PAGES
      modifies this
      ensures Good(d, others) && t == FrameAt(tables, d, Tab(v / ENTRIES)) && data == old(data)
      ensures !alloc || t == 0 || old(FrameAt(tables, d, Tab(v / ENTRIES))) != 0 ==>
                tables == old(tables) && freelist == old(freelist)
      ensures alloc && t == 0 ==> old(FrameAt(tables, d, Tab(v / ENTRIES))) == 0 && freelist == []
      ensures alloc && t != 0 ==> TabMade(old(tables), tables, d, v / ENTRIES, old(freelist), freelist)
      ensures forall w :: 0 <= w < USERPAGES ==> FrameAt(tables, d, User(w)) == FrameAt(old(tables), d, User(w))
      ensures forall w :: 0 <= w < PAGES ==> PteAt(tables, d, w) == old(PteAt(tables, d, w))
      ensures SameFor(old(tables), old(data), tables, data, others)
    {
      hide Conserved;
      var i := v / ENTRIES;
      DirOk(d, others);
      t := FrameOf(tables[d][i]);
      if t == 0 && alloc {
        t := Kalloc(d, others);
        if t != 0 {
          ghost var before := tables;
          tables := WithTable(tables, d, i, t, PTE_W + PTE_U);
          NewTable(all, freelist, before, d, others, i, t, PTE_W + PTE_U);
          OneMoreTable(before, d, i, t, PTE_W + PTE_U);
        }
      }
    }

    lemma {:induction false} DirOk(d: int, others: set<int>)
      requires Good(d, others)
      ensures d in tables && |tables[d]| == ENTRIES
    {
      assert PlaceOk(all, freelist, tables, d, others, Dir);
    }

    /** mappages for one page; false, and nothing is mapped, when there is no memory for a page table. */
    method MapPage(d: int, v: nat, f: Frame, flags: int, ghost others: set<int>) returns (ok: bool)
      requires Good(d, others + {f}) && f in all && f !in others && v < USERPAGES && FrameAt(tables, d, User(v)) == 0
      modifies this
      ensures if ok then Good(d, others) else Good(d, others + {f})
      ensures ok ==> TabMade(old(tables), tables, d, v / ENTRIES, old(freelist), freelist)
      ensures !ok ==> old(FrameAt(tables, d, Tab(v / ENTRIES))) == 0 && old(freelist) == []
      ensures forall w :: 0 <= w < USERPAGES ==>
                PteAt(tables, d, w) == (if ok && w == v then Present(f, flags) else old(PteAt(tables, d, w)))
                  && FrameAt(tables, d, User(w)) == FrameOf(PteAt(tables, d, w))
      ensures data == old(data) && SameFor(old(tables), old(data), tables, data, others)
    {
      hide Conserved;
      PtesAreFrames(tables, d);
      var t := Walkpgdir(d, v, true, others + {f});
      if t == 0 {
        PtesAreFrames(tables, d);
        return false;
      }
      ghost var before := tables;
      SetPage(all, freelist, before, d, others + {f}, v, Present(f, flags));
      Mapped(all, freelist, before, d, others, v, f, flags);
      tables := tables[t := tables[t][v % ENTRIES := Present(f, flags)]];
      PtesAreFrames(tables, d);
      return true;
    }

    /** Frees the frame of a page and clears its entry in page table t. */
    method UnmapPage(ghost d: int, t: int, v: nat, ghost others: set<int>)
      requires Good(d, others) && v < USERPAGES && FrameAt(tables, d, User(v)) != 0
               && t == FrameAt(tables, d, Tab(v / ENTRIES))
      modifies this
      ensures Good(d, others)
      ensures forall w :: 0 <= w < USERPAGES ==> FrameAt(tables, d, User(w)) == if w == v then 0
                else FrameAt(old(tables), d, User(w))
      ensures forall w :: 0 <= w < USERPAGES && w != v ==> PteAt(tables, d, w) == old(PteAt(tables, d, w))
      ensures forall w :: 0 <= w < USERPAGES && FrameAt(tables, d, User(w)) != 0 ==>
                SameData(old(data), data, FrameAt(tables, d, User(w)))
      ensures SameFor(old(tables), old(data), tables, data, others)
    {
      hide Conserved;
      ghost var before := tables;
      PtesAreFrames(tables, d);
      HasTable(d, v, others);
      TableThere(d, v, others);
      SetPage(all, freelist, before, d, others, v, Absent);
      Unplaced(all, freelist, before, WithPage(before, d, v, Absent), d, others, v);
      var f := FrameOf(tables[t][v % ENTRIES]);
      tables := tables[t := tables[t][v % ENTRIES := Absent]];
      ghost var cleared, held := tables, data;
      NotInPlace(d, others, f);
      Kfree(f, d, others);
      PtesKept(cleared, held, tables, data, d, f);
      PtesAreFrames(tables, d);
      forall w | 0 <= w < USERPAGES && FrameAt(tables, d, User(w)) != 0
        ensures SameData(held, data, FrameAt(tables, d, User(w))) {
        assert FrameAt(cleared, d, User(w)) != f;
        assert SameFrame(cleared, held, tables, data, FrameAt(tables, d, User(w)));
      }
      forall g | g in others ensures SameFrame(before, held, tables, data, g) {
        assert SameFrame(cleared, held, tables, data, g);
      }
    }

    /** Frees the pages from newsz up to oldsz; page tables that are not there are skipped as a whole. */
    method Deallocuvm(d: int, oldsz: nat, newsz: nat, ghost others: set<int>) returns (r: nat)
      requires Good(d, others) && oldsz <= KERNBASE
      modifies this
      ensures Good(d, others) && r == if newsz >= oldsz then oldsz else newsz
      ensures forall w :: 0 <= w < USERPAGES ==>
                FrameAt(tables, d, User(w)) == if PgRoundUp(newsz) <= w * PGSIZE < oldsz then 0
                  else FrameAt(old(tables), d, User(w))
      ensures forall w :: 0 <= w < USERPAGES && !(PgRoundUp(newsz) <= w * PGSIZE < oldsz) ==>
                PteAt(tables, d, w) == old(PteAt(tables, d, w))
      ensures forall w :: 0 <= w < USERPAGES && FrameAt(tables, d, User(w)) != 0 ==>
                SameData(old(data), data, FrameAt(tables, d, User(w)))
      ensures SameFor(old(tables), old(data), tables, data, others)
    {
      hide Conserved, SameFor, FrameAt, PteAt, SameFrame;
      SameForSelf(tables, data, others);
      if newsz >= oldsz {
        return oldsz;
      }
      var a := PgRoundUp(newsz);
      ghost var lo, n := a, a / PGSIZE;
      hide PgRoundUp;
      while a < oldsz
        invariant Good(d, others) && a == n * PGSIZE && a >= lo
        invariant forall w :: 0 <= w < USERPAGES ==>
                    FrameAt(tables, d, User(w)) == if lo <= w * PGSIZE < a && w * PGSIZE < oldsz then 0
                      else FrameAt(old(tables), d, User(w))
        invariant forall w :: 0 <= w < USERPAGES && !(lo <= w * PGSIZE < oldsz) ==>
                    PteAt(tables, d, w) == old(PteAt(tables, d, w))
        invariant forall w :: 0 <= w < USERPAGES && FrameAt(tables, d, User(w)) != 0 ==>
                    SameData(old(data), data, FrameAt(tables, d, User(w)))
        invariant SameFor(old(tables), old(data), tables, data, others)
        decreases oldsz - a
      {
        ghost var tab, dat := tables, data;
        var v := a / PGSIZE;
        assert v == n;
        var t := Walkpgdir(d, v, false, others);
        if t == 0 {
          NoZero(d, others);
          NoTable(tables, d, v);
          n := NextTable(v);
          a := (v / ENTRIES + 1) * ENTRIES * PGSIZE - PGSIZE;
        } else {
          PtesAreFrames(tables, d);
          TableThere(d, v, others);
          n := v + 1;
          if tables[t][v % ENTRIES].Present? {
            UnmapPage(d, t, v, others);
            SameForTwice(old(tables), old(data), tab, dat, tables, data, others);
          }
        }
        a := a + PGSIZE;
      }
      r := newsz;
    }

    /** From page v to the end of its page table's part of the address space there are pages of this table only. */
    lemma {:induction false} NextTable(v: nat) returns (n: nat)
      ensures n > v && n == (v / ENTRIES + 1) * ENTRIES && forall w :: v <= w < n ==> w / ENTRIES == v / ENTRIES
    {
      n := (v / ENTRIES + 1) * ENTRIES;
    }

    lemma {:induction false} NoZero(d: int, others: set<int>)
      requires Good(d, others)
      ensures 0 !in tables && d != 0
    {}

    /** A mapped page has a page table. */
    lemma {:induction false} HasTable(d: int, v: nat, others: set<int>)
      requires Good(d, others) && v < USERPAGES && FrameAt(tables, d, User(v)) != 0
      ensures FrameAt(tables, d, Tab(v / ENTRIES)) != 0
    {}

    /** A frame of the caller's is in no place. */
    lemma {:induction false} NotInPlace(d: int, others: set<int>, f: int)
      requires Good(d, others + {f}) && f != 0
      ensures forall q :: Ok(q) ==> FrameAt(tables, d, q) != f
    {
      forall q | Ok(q) ensures FrameAt(tables, d, q) != f {
        assert PlaceOk(all, freelist, tables, d, others + {f}, q);
      }
    }

    lemma {:induction false} TableThere(d: int, v: nat, others: set<int>)
      requires Good(d, others) && v < USERPAGES && FrameAt(tables, d, Tab(v / ENTRIES)) != 0
      ensures var t := FrameAt(tables, d, Tab(v / ENTRIES));
              t in tables && |tables[t]| == ENTRIES && PteAt(tables, d, v) == tables[t][v % ENTRIES]
    {
      assert PlaceOk(all, freelist, tables, d, others, Tab(v / ENTRIES));
    }

    /** The address space between two turns of allocuvm's loop. */
    ghost predicate Growing(d: int, start: nat, a: nat, newsz: nat, others: set<int>, t0: Tables, d0: map<int, Data>,
                            free0: seq<int>)
      reads this
    {
      && Good(d, others) && SameFor(t0, d0, tables, data, others) && a % PGSIZE == 0 && a >= start
      && Grown(t0, d0, tables, data, d, start, a)
      && (a == start || a < newsz + PGSIZE)
      && start / PGSIZE <= a / PGSIZE <= PgRoundUp(newsz) / PGSIZE <= USERPAGES
      && Spent(free0, freelist, t0, tables, d, start / PGSIZE, a / PGSIZE)
    }

    /** One turn of allocuvm's loop; false, with everything given back, when memory has run out. */
    method GrowTurn(d: int, a: nat, oldsz: nat, newsz: nat, ghost others: set<int>, ghost t0: Tables,
                    ghost d0: map<int, Data>, ghost free0: seq<int>) returns (ok: bool)
      requires a < newsz < KERNBASE && oldsz <= newsz && Growing(d, PgRoundUp(oldsz), a, newsz, others, t0, d0, free0)
      requires forall w :: 0 <= w < USERPAGES && w * PGSIZE >= PgRoundUp(oldsz) ==> FrameAt(t0, d, User(w)) == 0
      modifies this
      ensures ok ==> Growing(d, PgRoundUp(oldsz), a + PGSIZE, newsz, others, t0, d0, free0)
      ensures !ok ==> Good(d, others) && SameFor(t0, d0, tables, data, others)
                      && Grown(t0, d0, tables, data, d, PgRoundUp(oldsz), 0)
      ensures !ok ==> |free0| < Frames(t0, d, PgRoundUp(oldsz) / PGSIZE, PgRoundUp(newsz) / PGSIZE)
    {
      hide Conserved, Grown, SameFor, FrameAt, PteAt, SameFrame, SameData, TabMade, Spent, Frames;
      ghost var start := PgRoundUp(oldsz);
      ghost var first, end := start / PGSIZE, PgRoundUp(newsz) / PGSIZE;
      ghost var t1, d1, free1 := tables, data, freelist;
      var mem := Kalloc(d, others);
      if mem == 0 {
        NotEnough(free0, free1, t0, t1, d, first, a / PGSIZE, end);
        var x := Deallocuvm(d, newsz, oldsz, others);
        SameForTwice(t0, d0, t1, d1, tables, data, others);
        Restored(t0, d0, t1, d1, tables, data, d, start, a, newsz);
        return false;
      }
      NotInPlace(d, others, mem);
      data := data[mem := Zeros()];
      ghost var d2 := data;
      SameForData(t1, d1, others, mem);
      Filled(t0, d0, t1, d1, d, start, a, mem);
      NextIsFree(t0, d0, t1, d1, d, start, a);
      ok := MapPage(d, a / PGSIZE, mem, USERFLAGS, others);
      SameForTwice(t1, d1, t1, d2, tables, data, others);
      SameForTwice(t0, d0, t1, d1, tables, data, others);
      if !ok {
        NotEnough(free0, free1, t0, t1, d, first, a / PGSIZE, end);
        ghost var t3, d3 := tables, data;
        NotMapped(t0, d0, t1, d2, tables, d, start, a);
        var x := Deallocuvm(d, newsz, oldsz, others + {mem});
        SameForLess(t3, d3, tables, data, others, mem);
        Restored(t0, d0, t3, d3, tables, data, d, start, a, newsz);
        ghost var t4, d4 := tables, data;
        NotInPlace(d, others, mem);
        Kfree(mem, d, others);
        Freed(t0, d0, t4, d4, tables, data, d, start, mem);
        SameForFree(t4, d4, tables, data, others, mem);
        SameForTwice(t3, d3, t4, d4, tables, data, others);
        SameForTwice(t0, d0, t3, d3, tables, data, others);
        return false;
      }
      GrownStep(t0, d0, t1, d2, tables, d, start, a, mem);
      SpentMore(free0, free1, freelist, t0, t1, tables, d, first, a / PGSIZE);
      return true;
    }

    /** Maps zeroed pages from oldsz up to newsz; when memory runs out the user's mapping is as before. */
    method Allocuvm(d: int, oldsz: nat, newsz: nat, ghost others: set<int>) returns (r: nat)
      requires Good(d, others)
      requires forall w :: 0 <= w < USERPAGES && w * PGSIZE >= PgRoundUp(oldsz) ==> FrameAt(tables, d, User(w)) == 0
      modifies this
      ensures Good(d, others) && SameFor(old(tables), old(data), tables, data, others)
      ensures newsz >= KERNBASE ==> r == 0 && tables == old(tables) && data == old(data)
      ensures newsz < KERNBASE && newsz < oldsz ==> r == oldsz && tables == old(tables) && data == old(data)
      ensures oldsz <= newsz < KERNBASE ==> r == newsz || r == 0
      ensures oldsz <= newsz < KERNBASE ==>
                Grown(old(tables), old(data), tables, data, d, PgRoundUp(oldsz), if r == newsz then newsz else 0)
      ensures oldsz <= newsz < KERNBASE ==>
                AllSeen(old(tables), tables, data, d, PgRoundUp(oldsz), if r == newsz then newsz else 0)
      ensures oldsz <= newsz < KERNBASE ==>
                var need := Frames(old(tables), d, PgRoundUp(oldsz) / PGSIZE, PgRoundUp(newsz) / PGSIZE);
                (r == newsz <==> need <= |old(freelist)|) && (r == newsz ==> |freelist| == |old(freelist)| - need)
    {
      hide Conserved, Grown, SameFor, FrameAt, PteAt, SameFrame, SameData, TabMade, Spent, Frames;
      SameForSelf(tables, data, others);
      if newsz >= KERNBASE {
        return 0;
      }
      if newsz < oldsz {
        return oldsz;
      }
      NoZero(d, others);
      var a := PgRoundUp(oldsz);
      ghost var start, t0, d0, free0 := a, tables, data, freelist;
      ghost var first, end := start / PGSIZE, PgRoundUp(newsz) / PGSIZE;
      NothingSpent(free0, t0, d, first);
      NotGrown(tables, data, d, start, newsz);
      assert forall w :: 0 <= w < USERPAGES && w * PGSIZE >= start ==> FrameAt(t0, d, User(w)) == 0;
      while a < newsz
        invariant Growing(d, start, a, newsz, others, t0, d0, free0)
        decreases newsz + PGSIZE - a
      {
        var ok := GrowTurn(d, a, oldsz, newsz, others, t0, d0, free0);
        if !ok {
          UsersSee(t0, d0, d, start, 0, others);
          return 0;
        }
        a := a + PGSIZE;
      }
      Ended(t0, d0, tables, data, d, start, a, newsz);
      UsersSee(t0, d0, d, start, newsz, others);
      assert a / PGSIZE == end;
      Enough(free0, freelist, t0, tables, d, first, end);
      return newsz;
    }

    lemma {:induction false} UsersSee(t0: Tables, d0: map<int, Data>, d: int, start: nat, end: nat, others: set<int>)
      requires Good(d, others) && DirOpen(t0, d) && 0 !in t0 && Grown(t0, d0, tables, data, d, start, end)
      ensures AllSeen(t0, tables, data, d, start, end)
    {
      NoZero(d, others);
      hide Conserved, PteAt, DirOpen, Translate;
      forall w | 0 <= w < USERPAGES ensures SeenGrown(t0, tables, data, d, start, end, w) {
        assert GrownAt(t0, d0, tables, data, d, start, end, w);
        EntryDecides(t0, d, w);
        EntryDecides(tables, d, w);
      }
    }

    /** Gives back every frame of the address space, each once: user pages, page tables, and the directory. */
    method Freevm(d: int, ghost others: set<int>)
      requires Good(d, others)
      modifies this
      ensures AllKnown(all, freelist, tables, others)
      ensures SameFor(old(tables), old(data), tables, data, others)
    {
      hide Conserved, SameFor, FrameAt, Freeing;
      var x := Deallocuvm(d, KERNBASE, 0, others);
      DirOk(d, others);
      ghost var t0, d0, pd := tables, data, tables[d];
      TablesLeft(all, freelist, tables, d, others);
      SameForSelf(tables, data, others);
      var i := 0;
      while i < ENTRIES
        invariant 0 <= i <= ENTRIES && d in tables && tables[d] == pd && |pd| == ENTRIES
        invariant Freeing(all, freelist, pd, d, others, i) && SameFor(t0, d0, tables, data, others)
        invariant 0 !in tables && forall k :: 0 <= k < |freelist| ==> freelist[k] !in tables
      {
        FreeingNext(all, freelist, pd, d, others, i);
        if tables[d][i].Present? {
          ghost var t1, d1 := tables, data;
          Push(tables[d][i].frame);
          SameForPush(t1, d1, others, pd[i].frame);
          SameForTwice(t0, d0, t1, d1, tables, data, others);
        }
        i := i + 1;
      }
      ghost var t1, d1 := tables, data;
      FreeingEnd(all, freelist, pd, d, others);
      Push(d);
      SameForPush(t1, d1, others, d);
      SameForTwice(t0, d0, t1, d1, tables, data, others);
      SameForTwice(old(tables), old(data), t0, d0, tables, data, others);
    }

    /** The copy between two turns of copyuvm's loop. */
    ghost predicate Copying(p: int, c: int, i: nat, sz: nat, others: set<int>, t0: Tables, d0: map<int, Data>,
                            free0: seq<int>)
      reads this
    {
      && i % PGSIZE == 0 && i < sz + PGSIZE && Good(c, others) && SameFor(t0, d0, tables, data, others)
      && Copied(t0, d0, tables, data, p, c, i)
      && i / PGSIZE <= PgRoundUp(sz) / PGSIZE <= USERPAGES && Spent(free0, freelist, t0, tables, c, 0, i / PGSIZE)
    }

    /** One turn of copyuvm's loop; false, with c freed, when memory has run out. */
    method CopyTurn(p: int, c: int, i: nat, sz: nat, ghost others: set<int>, ghost t0: Tables,
                    ghost d0: map<int, Data>, ghost free0: seq<int>) returns (ok: bool, ghost lost: set<int>)
      requires i < sz <= KERNBASE && Copying(p, c, i, sz, others, t0, d0, free0) && 0 !in t0
      requires forall q :: Ok(q) && FrameAt(t0, p, q) != 0 ==> FrameAt(t0, p, q) in others
      requires forall w :: 0 <= w < USERPAGES && w * PGSIZE < sz ==>
                 PteAt(t0, p, w).Present? && PteAt(t0, p, w).frame in d0
      modifies this
      ensures ok ==> lost == {} && Copying(p, c, i + PGSIZE, sz, others, t0, d0, free0)
      ensures !ok ==> |free0| < Frames(t0, c, 0, PgRoundUp(sz) / PGSIZE) && SameFor(t0, d0, tables, data, others)
      ensures !ok ==> |lost| <= 1 && lost !! others && lost <= all && AllKnown(all, freelist, tables, others + lost)
      ensures !ok ==> (lost == {} <==> BetweenPages(t0, c, |free0|, PgRoundUp(sz) / PGSIZE))
    {
      hide Conserved, SameFor, FrameAt, PteAt, SameFrame, Copied, TabMade, Spent, Frames, BetweenPages, FreeOk;
      ghost var end := PgRoundUp(sz) / PGSIZE;
      lost := {};
      ghost var t1, d1, free1 := tables, data, freelist;
      NoZero(c, others);
      var pte := PteAt(tables, p, i / PGSIZE);
      ParentSame(t0, d0, tables, data, others, p, i / PGSIZE);
      var mem := Kalloc(c, others);
      if mem == 0 {
        NotEnough(free0, free1, t0, t1, c, 0, i / PGSIZE, end);
        OutBetween(free0, free1, t0, t1, c, i / PGSIZE, end);
        Freevm(c, others);
        SameForTwice(t0, d0, t1, d1, tables, data, others);
        assert others + lost == others;
        return false, lost;
      }
      NotInPlace(c, others, mem);
      data := data[mem := data[pte.frame]];
      ghost var d2 := data;
      SameForCopy(t1, d1, others, mem, data[mem]);
      NextNotCopied(t0, d0, t1, d1, p, c, i);
      ok := MapPage(c, i / PGSIZE, mem, pte.flags, others);
      SameForTwice(t1, d1, t1, d2, tables, data, others);
      SameForTwice(t0, d0, t1, d1, tables, data, others);
      if !ok {
        NotEnough(free0, free1, t0, t1, c, 0, i / PGSIZE, end);
        OutInside(free0, free1, t0, t1, c, i / PGSIZE, end);
        ghost var t3, d3 := tables, data;
        lost := {mem};
        Freevm(c, others + {mem});
        SameForLess(t3, d3, tables, data, others, mem);
        SameForTwice(t0, d0, t3, d3, tables, data, others);
        return false, lost;
      }
      CopyStep(t0, d0, t1, d1, tables, p, c, i, mem, pte.flags);
      SpentMore(free0, free1, freelist, t0, t1, tables, c, 0, i / PGSIZE);
      return true, lost;
    }

    /** Copies the pages below sz of the address space p into c, a new one without user pages; 0 when memory runs out.
        Then c is freed, but not the frame last taken, if there was one left for the page and none for its page table:
        `lost` has it. */
    method Copyuvm(p: int, c: int, sz: nat, ghost others: set<int>) returns (r: int, ghost lost: set<int>)
      requires Good(c, others) && sz <= KERNBASE
      requires forall q :: Ok(q) && FrameAt(tables, p, q) != 0 ==> FrameAt(tables, p, q) in others
      requires forall w :: 0 <= w < USERPAGES && w * PGSIZE < sz ==>
                 PteAt(tables, p, w).Present? && PteAt(tables, p, w).frame in data
      requires forall w :: 0 <= w < USERPAGES ==> FrameAt(tables, c, User(w)) == 0
      modifies this
      ensures r == c || r == 0
      ensures r == c <==> Frames(old(tables), c, 0, PgRoundUp(sz) / PGSIZE) <= |old(freelist)|
      ensures SameFor(old(tables), old(data), tables, data, others)
      ensures r == c ==> lost == {} && Good(c, others)
      ensures r == c ==> forall w :: 0 <= w < USERPAGES ==> CopiedAt(old(tables), old(data), tables, data, p, c, sz, w)
      ensures r == c && DirOpen(old(tables), p) ==>
                forall w :: 0 <= w < USERPAGES ==> SeenCopied(old(tables), tables, p, c, sz, w)
      ensures r == c ==> |freelist| == |old(freelist)| - Frames(old(tables), c, 0, PgRoundUp(sz) / PGSIZE)
      ensures r != c ==> |lost| <= 1 && lost !! others && lost <= all && AllKnown(all, freelist, tables, others + lost)
      ensures r != c ==> (lost == {} <==> BetweenPages(old(tables), c, |old(freelist)|, PgRoundUp(sz) / PGSIZE))
    {
      hide Conserved, SameFor, FrameAt, PteAt, SameFrame, Copied, TabMade, Spent, Frames, BetweenPages, FreeOk;
      ghost var t0, d0, free0, end := tables, data, freelist, PgRoundUp(sz) / PGSIZE;
      NothingSpent(free0, t0, c, 0);
      SameForSelf(tables, data, others);
      NoZero(c, others);
      NothingCopied(tables, data, p, c);
      lost := {};
      var i := 0;
      while i < sz
        invariant Copying(p, c, i, sz, others, t0, d0, free0)
        decreases sz + PGSIZE - i
      {
        var ok, one := CopyTurn(p, c, i, sz, others, t0, d0, free0);
        if !ok {
          return 0, one;
        }
        i := i + PGSIZE;
      }
      AllCopied(t0, d0, tables, data, p, c, sz, i, others, all, freelist);
      if DirOpen(t0, p) {
        ChildSees(t0, d0, p, c, sz, others);
      }
      assert i / PGSIZE == end;
      Enough(free0, freelist, t0, tables, c, 0, end);
      return c, lost;
    }

    lemma {:induction false} ChildSees(t0: Tables, d0: map<int, Data>, p: int, c: int, sz: nat, others: set<int>)
      requires Good(c, others) && DirOpen(t0, p) && 0 !in t0
      requires forall w :: 0 <= w < USERPAGES ==> CopiedAt(t0, d0, tables, data, p, c, sz, w)
      ensures forall w :: 0 <= w < USERPAGES ==> SeenCopied(t0, tables, p, c, sz, w)
    {
      NoZero(c, others);
      hide Conserved, PteAt, DirOpen, Translate;
      forall w | 0 <= w < USERPAGES ensures SeenCopied(t0, tables, p, c, sz, w) {
        assert CopiedAt(t0, d0, tables, data, p, c, sz, w);
        EntryDecides(t0, p, w);
        EntryDecides(tables, c, w);
      }
    }
  }

  // ----- how much memory it takes -----

  /** The page tables that are missing for the pages from number v up to u. */
  ghost function Missing(tables: Tables, d: int, v: nat, u: nat): nat
    requires v <= u <= PAGES
    decreases u
  {
    if u == v then 0
    else Missing(tables, d, v, u - 1)
         + if FrameAt(tables, d, Tab((u - 1) / ENTRIES)) == 0 && (u - 1 == v || (u - 1) % ENTRIES == 0) then 1 else 0
  }

  /** The frames it takes to map the pages from number v up to u: one for each page, and one for each page table that is
      missing. */
  ghost function Frames(tables: Tables, d: int, v: nat, u: nat): nat
    requires v <= u <= PAGES
  {
    u - v + Missing(tables, d, v, u)
  }

  /** Page table j is there, whether it was before or not, and nothing else about the page tables has changed. */
  ghost predicate TabMade(t0: Tables, t1: Tables, d: int, j: nat, free0: seq<int>, free: seq<int>)
    requires j < ENTRIES
  {
    && FrameAt(t1, d, Tab(j)) != 0
    && (forall i :: 0 <= i < ENTRIES && i != j ==> FrameAt(t1, d, Tab(i)) == FrameAt(t0, d, Tab(i)))
    && |free0| == |free| + if FrameAt(t0, d, Tab(j)) == 0 then 1 else 0
  }

  /** Page table i is there if it is for one of the pages from v up to u, and is as before if not. */
  ghost predicate TabAt(t0: Tables, t1: Tables, d: int, v: nat, u: nat, i: nat)
    requires i < ENTRIES
  {
    if v < u && v / ENTRIES <= i <= (u - 1) / ENTRIES then FrameAt(t1, d, Tab(i)) != 0
    else FrameAt(t1, d, Tab(i)) == FrameAt(t0, d, Tab(i))
  }

  /** Mapping the pages from v up to u has taken just the frames it takes. */
  ghost predicate Spent(free0: seq<int>, free: seq<int>, t0: Tables, t1: Tables, d: int, v: nat, u: nat)
    requires v <= u <= USERPAGES
  {
    |free0| == |free| + Frames(t0, d, v, u) && Tabs(t0, t1, d, v, u)
  }

  ghost predicate Tabs(t0: Tables, t1: Tables, d: int, v: nat, u: nat) {
    forall i :: 0 <= i < ENTRIES ==> TabAt(t0, t1, d, v, u, i)
  }

  /** The page table of one more page is there. */
  lemma {:induction false} TabsMore(free1: seq<int>, free2: seq<int>, t0: Tables, t1: Tables, t2: Tables, d: int,
                                    v: nat, u: nat)
    requires v <= u < PAGES && Tabs(t0, t1, d, v, u) && TabMade(t1, t2, d, u / ENTRIES, free1, free2)
    ensures Tabs(t0, t2, d, v, u + 1)
    ensures |free1| == |free2| + Missing(t0, d, v, u + 1) - Missing(t0, d, v, u)
  {
    assert TabAt(t0, t1, d, v, u, u / ENTRIES);
    var w := u + 1;
    forall i | 0 <= i < ENTRIES ensures TabAt(t0, t2, d, v, w, i) {
      assert TabAt(t0, t1, d, v, u, i);
    }
  }

  lemma {:induction false} NothingSpent(free: seq<int>, tables: Tables, d: int, v: nat)
    requires v <= USERPAGES
    ensures Spent(free, free, tables, tables, d, v, v)
  {}

  lemma {:induction false} SpentMore(free0: seq<int>, free1: seq<int>, free2: seq<int>, t0: Tables, t1: Tables,
                                     t2: Tables, d: int, v: nat, u: nat)
    requires v <= u < USERPAGES && free1 != [] && Spent(free0, free1, t0, t1, d, v, u)
    requires TabMade(t1, t2, d, u / ENTRIES, free1[1..], free2)
    ensures Spent(free0, free2, t0, t2, d, v, u + 1)
  {
    TabsMore(free1[1..], free2, t0, t1, t2, d, v, u);
  }

  lemma {:induction false} Enough(free0: seq<int>, free: seq<int>, t0: Tables, t1: Tables, d: int, v: nat, u: nat)
    requires v <= u <= USERPAGES && Spent(free0, free, t0, t1, d, v, u)
    ensures Frames(t0, d, v, u) == |free0| - |free|
  {}

  /** Memory for whole pages, with their page tables, but not for all of them. */
  ghost predicate BetweenPages(tables: Tables, d: int, free: nat, end: nat)
    requires end <= USERPAGES
  {
    exists u :: 0 <= u < end && free == Frames(tables, d, 0, u)
  }

  lemma {:induction false} OutBetween(free0: seq<int>, free: seq<int>, t0: Tables, t1: Tables, d: int, u: nat, end: nat)
    requires u < end <= USERPAGES && Spent(free0, free, t0, t1, d, 0, u) && free == []
    ensures BetweenPages(t0, d, |free0|, end)
  {}

  lemma {:induction false} OutInside(free0: seq<int>, free: seq<int>, t0: Tables, t1: Tables, d: int, u: nat, end: nat)
    requires u < end <= USERPAGES && Spent(free0, free, t0, t1, d, 0, u)
    requires |free| == 1 && FrameAt(t1, d, Tab(u / ENTRIES)) == 0
    ensures !BetweenPages(t0, d, |free0|, end)
  {
    assert TabAt(t0, t1, d, 0, u, u / ENTRIES);
    forall x | 0 <= x < end ensures |free0| != Frames(t0, d, 0, x) {
      if x <= u {
        MissingGrows(t0, d, 0, x, u);
      } else {
        MissingGrows(t0, d, 0, u + 1, x);
      }
    }
  }

  /** In a new address space, without page tables for user pages, copying loses a frame exactly when the free list is
      one frame longer than a multiple of what a full page table takes. */
  lemma {:induction false} LostExactly(tables: Tables, d: int, free: nat, end: nat)
    requires end <= USERPAGES && forall i :: 0 <= i < USERTABLES ==> FrameAt(tables, d, Tab(i)) == 0
    requires free < Frames(tables, d, 0, end)
    ensures BetweenPages(tables, d, free, end) <==> free % (ENTRIES + 1) != 1
  {
    FreshFrames(tables, d, end);
    if free % (ENTRIES + 1) != 1 {
      var u := PagesFor(free);
      assert u < end;
      FreshFrames(tables, d, u);
    }
    if x :| 0 <= x < end && free == Frames(tables, d, 0, x) {
      FreshFrames(tables, d, x);
      NeverOne(x);
    }
  }

  /** The pages that a number of frames is just enough for. */
  lemma {:induction false} PagesFor(free: nat) returns (u: nat)
    requires free % (ENTRIES + 1) != 1
    ensures u + (u + ENTRIES - 1) / ENTRIES == free
  {
    var q, r := free / (ENTRIES + 1), free % (ENTRIES + 1);
    u := q * ENTRIES + if r == 0 then 0 else r - 1;
    assert (u + ENTRIES - 1) / ENTRIES == q + if r == 0 then 0 else 1;
  }

  lemma {:induction false} NeverOne(x: nat)
    ensures (x + (x + ENTRIES - 1) / ENTRIES) % (ENTRIES + 1) != 1
  {
    var a, b := x / ENTRIES, x % ENTRIES;
    assert x + (x + ENTRIES - 1) / ENTRIES == (ENTRIES + 1) * a + if b == 0 then 0 else b + 1;
  }

  /** What it takes to map pages from the first one on where no page table is there yet. */
  lemma {:induction false} FreshFrames(tables: Tables, d: int, u: nat)
    requires u <= USERPAGES && forall i :: 0 <= i < USERTABLES ==> FrameAt(tables, d, Tab(i)) == 0
    ensures Frames(tables, d, 0, u) == u + (u + ENTRIES - 1) / ENTRIES
  {
    MissingFrom(tables, d, 0, u, USERTABLES);
  }

  /** Where page tables are there just up to page v, up to table `end`, those behind are missing. */
  lemma {:induction false} MissingFrom(tables: Tables, d: int, v: nat, u: nat, end: nat)
    requires v <= u <= end * ENTRIES && end <= ENTRIES
    requires forall i :: v / ENTRIES <= i < end ==>
               (FrameAt(tables, d, Tab(i)) != 0 <==> i < (v + ENTRIES - 1) / ENTRIES)
    ensures Missing(tables, d, v, u) == (u + ENTRIES - 1) / ENTRIES - (v + ENTRIES - 1) / ENTRIES
    decreases u
  {
    if u > v {
      MissingFrom(tables, d, v, u - 1, end);
      RoundedUp(u);
      if u - 1 > v {
        RoundedUp(u - 1);
      }
    }
  }

  lemma {:induction false} RoundedUp(u: nat)
    requires u > 0
    ensures (u + ENTRIES - 1) / ENTRIES == (u - 1) / ENTRIES + 1
  {}

  /** Without a frame for the next page, or for its missing page table, there were not enough in the first place. */
  lemma {:induction false} NotEnough(free0: seq<int>, free: seq<int>, t0: Tables, t1: Tables, d: int, v: nat, u: nat,
                                     end: nat)
    requires v <= u < end <= USERPAGES && Spent(free0, free, t0, t1, d, v, u)
    requires free == [] || (|free| == 1 && FrameAt(t1, d, Tab(u / ENTRIES)) == 0)
    ensures |free0| < Frames(t0, d, v, end)
  {
    assert TabAt(t0, t1, d, v, u, u / ENTRIES);
    MissingGrows(t0, d, v, u + 1, end);
  }

  lemma {:induction false} MissingGrows(tables: Tables, d: int, v: nat, u: nat, end: nat)
    requires v <= u <= end <= PAGES
    ensures Missing(tables, d, v, u) <= Missing(tables, d, v, end)
    decreases end
  {
    if u < end {
      MissingGrows(tables, d, v, u, end - 1);
    }
  }

  // ----- copying -----

  /** Page w of c has the contents and the flags of page w of p, in a frame of its own; pages from sz on are not
      mapped. */
  ghost predicate CopiedAt(t0: Tables, d0: map<int, Data>, t1: Tables, d1: map<int, Data>, p: int, c: int, sz: nat,
                           w: nat)
    requires w < USERPAGES
  {
    var a, b := PteAt(t0, p, w), PteAt(t1, c, w);
    if w * PGSIZE < sz
    then a.Present? && b.Present? && b.flags == a.flags && b.frame != a.frame
         && a.frame in d0 && b.frame in d1 && d1[b.frame] == d0[a.frame]
    else b == Absent
  }

  /** Seen through the hardware's walk: below sz the same can be done to page w of c as to page w of p, and nothing from
      sz on. */
  ghost predicate SeenCopied(t0: Tables, t1: Tables, p: int, c: int, sz: nat, w: nat)
    requires w < USERPAGES
  {
    var x, y := Translate(t0, p, w), Translate(t1, c, w);
    if w * PGSIZE < sz then x.To? && y.To? && y.write == x.write && y.user == x.user && y.frame != x.frame
    else y == Fault
  }

  /** The same while copying, before it is known that the frames differ. */
  ghost predicate SameAt(t0: Tables, d0: map<int, Data>, t1: Tables, d1: map<int, Data>, p: int, c: int, end: nat,
                         w: nat)
    requires w < USERPAGES
  {
    var a, b := PteAt(t0, p, w), PteAt(t1, c, w);
    if w * PGSIZE < end
    then a.Present? && b.Present? && b.flags == a.flags && a.frame in d0 && b.frame in d1 && d1[b.frame] == d0[a.frame]
    else b == Absent
  }

  ghost predicate Copied(t0: Tables, d0: map<int, Data>, t1: Tables, d1: map<int, Data>, p: int, c: int, end: nat) {
    forall w :: 0 <= w < USERPAGES ==> SameAt(t0, d0, t1, d1, p, c, end, w)
  }

  lemma {:induction false} NothingCopied(tables: Tables, data: map<int, Data>, p: int, c: int)
    requires forall w :: 0 <= w < USERPAGES ==> FrameAt(tables, c, User(w)) == 0
    ensures Copied(tables, data, tables, data, p, c, 0)
  {
    PtesAreFrames(tables, c);
    hide FrameAt, PteAt;
    forall w | 0 <= w < USERPAGES ensures SameAt(tables, data, tables, data, p, c, 0, w) {
      assert FrameAt(tables, c, User(w)) == 0;
    }
  }

  lemma {:induction false} NextNotCopied(t0: Tables, d0: map<int, Data>, t1: Tables, d1: map<int, Data>, p: int,
                                         c: int, i: nat)
    requires Copied(t0, d0, t1, d1, p, c, i) && i % PGSIZE == 0 && i / PGSIZE < USERPAGES
    ensures FrameAt(t1, c, User(i / PGSIZE)) == 0
  {
    assert SameAt(t0, d0, t1, d1, p, c, i, i / PGSIZE);
    PtesAreFrames(t1, c);
  }

  /** The parent's pages are others' frames, and stay as they are. */
  lemma {:induction false} ParentSame(t0: Tables, d0: map<int, Data>, t1: Tables, d1: map<int, Data>, others: set<int>,
                                      p: int, v: nat)
    requires SameFor(t0, d0, t1, d1, others) && v < USERPAGES && 0 !in t0 && 0 !in t1
    requires forall q :: Ok(q) && FrameAt(t0, p, q) != 0 ==> FrameAt(t0, p, q) in others
    requires PteAt(t0, p, v).Present? && PteAt(t0, p, v).frame in d0
    ensures PteAt(t1, p, v) == PteAt(t0, p, v)
    ensures PteAt(t0, p, v).frame in d1 && d1[PteAt(t0, p, v).frame] == d0[PteAt(t0, p, v).frame]
  {
    Untouched(t0, d0, t1, d1, others, p, Tab(v / ENTRIES));
    Untouched(t0, d0, t1, d1, others, p, User(v));
    PtesAreFrames(t0, p);
  }

  lemma {:induction false} SameForCopy(tables: Tables, data: map<int, Data>, others: set<int>, f: int, x: Data)
    requires f !in others
    ensures SameFor(tables, data, tables, data[f := x], others)
  {}

  lemma {:induction false} CopyStep(t0: Tables, d0: map<int, Data>, t1: Tables, d1: map<int, Data>, t2: Tables, p: int,
                                    c: int, i: nat, mem: Frame, flags: int)
    requires Copied(t0, d0, t1, d1, p, c, i) && i % PGSIZE == 0 && i / PGSIZE < USERPAGES
    requires forall q :: Ok(q) ==> FrameAt(t1, c, q) != mem
    requires forall w :: 0 <= w < USERPAGES ==> PteAt(t2, c, w) == if w == i / PGSIZE then Present(mem, flags)
               else PteAt(t1, c, w)
    requires PteAt(t0, p, i / PGSIZE).Present? && PteAt(t0, p, i / PGSIZE).flags == flags
             && PteAt(t0, p, i / PGSIZE).frame in d0
    ensures Copied(t0, d0, t2, d1[mem := d0[PteAt(t0, p, i / PGSIZE).frame]], p, c, i + PGSIZE)
  {
    PtesAreFrames(t1, c);
    hide FrameAt, PteAt;
    var d2, next := d1[mem := d0[PteAt(t0, p, i / PGSIZE).frame]], i + PGSIZE;
    forall w | 0 <= w < USERPAGES ensures SameAt(t0, d0, t2, d2, p, c, next, w) {
      assert SameAt(t0, d0, t1, d1, p, c, i, w) && FrameAt(t1, c, User(w)) != mem;
    }
  }

  lemma {:induction false} AllCopied(t0: Tables, d0: map<int, Data>, t1: Tables, d1: map<int, Data>, p: int, c: int,
                                     sz: nat, i: nat, others: set<int>, all: set<int>, free: seq<int>)
    requires Copied(t0, d0, t1, d1, p, c, i) && i % PGSIZE == 0 && sz <= i < sz + PGSIZE
             && Conserved(all, free, t1, c, others)
    requires forall q :: Ok(q) && FrameAt(t0, p, q) != 0 ==> FrameAt(t0, p, q) in others
    ensures forall w :: 0 <= w < USERPAGES ==> CopiedAt(t0, d0, t1, d1, p, c, sz, w)
  {
    PtesAreFrames(t0, p);
    PtesAreFrames(t1, c);
    hide FrameAt, PteAt;
    forall w | 0 <= w < USERPAGES ensures CopiedAt(t0, d0, t1, d1, p, c, sz, w) {
      assert SameAt(t0, d0, t1, d1, p, c, i, w) && PlaceOk(all, free, t1, c, others, User(w));
      assert FrameAt(t0, p, User(w)) != 0 ==> FrameAt(t0, p, User(w)) in others;
    }
  }

  // ----- freeing a directory -----

  ghost predicate InTables(pd: Table, i: nat, f: int) {
    exists j :: i <= j < |pd| && FrameOf(pd[j]) == f
  }

  /** Free are all frames but those used elsewhere, the directory, and the page tables in its entries from i on. */
  ghost predicate Freeing(all: set<int>, free: seq<int>, pd: Table, d: int, others: set<int>, i: nat) {
    && NoDup(free) && d in all && d !in others && d !in free && (forall f :: f in all ==> f > 0)
    && (forall k :: 0 <= k < |free| ==> free[k] in all && free[k] !in others)
    && (forall j :: i <= j < |pd| && pd[j].Present? ==>
         pd[j].frame in all && pd[j].frame !in others && pd[j].frame !in free && pd[j].frame != d)
    && (forall j, k :: i <= j < k < |pd| && pd[j].Present? && pd[k].Present? ==> pd[j].frame != pd[k].frame)
    && (forall f :: f in all ==> f in free || f in others || f == d || InTables(pd, i, f))
  }

  lemma {:induction false} FreeingNext(all: set<int>, free: seq<int>, pd: Table, d: int, others: set<int>, i: nat)
    requires Freeing(all, free, pd, d, others, i) && i < |pd|
    ensures if pd[i].Present?
              then pd[i].frame != d && pd[i].frame !in others
                   && Freeing(all, [pd[i].frame] + free, pd, d, others, i + 1)
            else Freeing(all, free, pd, d, others, i + 1)
  {
    assert forall f :: f in all && InTables(pd, i, f) ==> f == FrameOf(pd[i]) || InTables(pd, i + 1, f) by {
      forall f | f in all && InTables(pd, i, f) && f != FrameOf(pd[i]) ensures InTables(pd, i + 1, f) {
        var j :| i <= j < |pd| && FrameOf(pd[j]) == f;
      }
    }
    hide InTables;
    if pd[i].Present? {
      var more := [pd[i].frame] + free;
      assert forall f :: f in more <==> f == pd[i].frame || f in free;
    }
  }

  lemma {:induction false} FreeingEnd(all: set<int>, free: seq<int>, pd: Table, d: int, others: set<int>)
    requires Freeing(all, free, pd, d, others, |pd|)
    ensures d !in others
    ensures var more := [d] + free;
            NoDup(more) && (forall f :: f in all ==> f > 0 && (f in more <==> f !in others))
            && forall k :: 0 <= k < |more| ==> more[k] in all && more[k] !in others
  {
    var more := [d] + free;
    assert forall f :: f in more <==> f == d || f in free;
    assert forall f :: !InTables(pd, |pd|, f);
  }

  lemma {:induction false} TablesLeft(all: set<int>, free: seq<int>, tables: Tables, d: int, others: set<int>)
    requires Conserved(all, free, tables, d, others) && d in tables && |tables[d]| == ENTRIES
    requires forall w :: 0 <= w < USERPAGES ==> FrameAt(tables, d, User(w)) == 0
    ensures Freeing(all, free, tables[d], d, others, 0)
    ensures 0 !in tables && forall k :: 0 <= k < |free| ==> free[k] !in tables
  {
    var pd := tables[d];
    assert PlaceOk(all, free, tables, d, others, Dir);
    forall j | 0 <= j < |pd| ensures FrameOf(pd[j]) == FrameAt(tables, d, Tab(j)) {}
    forall j | 0 <= j < |pd| && pd[j].Present?
      ensures pd[j].frame in all && pd[j].frame !in others && pd[j].frame !in free && pd[j].frame != d
    {
      assert PlaceOk(all, free, tables, d, others, Tab(j)) && Apart(tables, d, Tab(j), Dir);
    }
    forall j, k | 0 <= j < k < |pd| && pd[j].Present? && pd[k].Present? ensures pd[j].frame != pd[k].frame {
      assert Apart(tables, d, Tab(j), Tab(k));
    }
    forall f | f in all ensures f in free || f in others || f == d || InTables(pd, 0, f) {
      if Held(tables, d, f) {
        var q :| Ok(q) && FrameAt(tables, d, q) == f;
        assert q.Tab? ==> FrameOf(pd[q.i]) == f;
      }
    }
  }

  lemma {:induction false} SameForPush(t: Tables, data: map<int, Data>, others: set<int>, f: int)
    requires f !in others
    ensures SameFor(t, data, t - {f}, data[f := Junk()], others)
  {}

  ghost predicate Grown(t0: Tables, d0: map<int, Data>, t1: Tables, d1: map<int, Data>, d: int, start: nat, end: nat) {
    forall w :: 0 <= w < USERPAGES ==> GrownAt(t0, d0, t1, d1, d, start, end, w)
  }

  /** From start up to end pages have been added, all zero and open to the user; every other page is as it was. */
  ghost predicate GrownAt(t0: Tables, d0: map<int, Data>, t1: Tables, d1: map<int, Data>, d: int, start: nat, end: nat,
                          w: nat)
    requires w < USERPAGES
  {
    var a, b := PteAt(t0, d, w), PteAt(t1, d, w);
    if start <= w * PGSIZE < end then b.Present? && b.flags == USERFLAGS && b.frame in d1 && d1[b.frame] == Zeros()
    else b == a && (a.Present? ==> SameData(d0, d1, a.frame))
  }

  /** Seen through the hardware's walk: from user mode the new pages can be read and written, and are zero; every other
      page is reached as before. */
  ghost predicate SeenGrown(t0: Tables, t1: Tables, d1: map<int, Data>, d: int, start: nat, end: nat, w: nat)
    requires w < USERPAGES
  {
    var x := Translate(t1, d, w);
    if start <= w * PGSIZE < end then x.To? && x.write && x.user && x.frame in d1 && d1[x.frame] == Zeros()
    else x == Translate(t0, d, w)
  }

  ghost predicate AllSeen(t0: Tables, t1: Tables, d1: map<int, Data>, d: int, start: nat, end: nat) {
    forall w :: 0 <= w < USERPAGES ==> SeenGrown(t0, t1, d1, d, start, end, w)
  }

  lemma {:induction false} SameForSelf(tables: Tables, data: map<int, Data>, others: set<int>)
    ensures SameFor(tables, data, tables, data, others)
  {}

  lemma {:induction false} SameForData(tables: Tables, data: map<int, Data>, others: set<int>, f: int)
    requires f !in others
    ensures SameFor(tables, data, tables, data[f := Zeros()], others)
  {}

  lemma {:induction false} SameForLess(t0: Tables, d0: map<int, Data>, t1: Tables, d1: map<int, Data>,
                                       others: set<int>, f: int)
    requires SameFor(t0, d0, t1, d1, others + {f})
    ensures SameFor(t0, d0, t1, d1, others)
  {}

  lemma {:induction false} SameForFree(t0: Tables, d0: map<int, Data>, t1: Tables, d1: map<int, Data>,
                                       others: set<int>, f: int)
    requires f !in others && forall g :: g != f ==> SameFrame(t0, d0, t1, d1, g)
    ensures SameFor(t0, d0, t1, d1, others)
  {}

  lemma {:induction false} NotGrown(tables: Tables, data: map<int, Data>, d: int, start: nat, newsz: nat)
    ensures Grown(tables, data, tables, data, d, start, start)
    ensures newsz <= start ==> Grown(tables, data, tables, data, d, start, newsz)
  {
    hide PteAt;
  }

  lemma {:induction false} NextIsFree(t0: Tables, d0: map<int, Data>, t1: Tables, d1: map<int, Data>, d: int,
                                      start: nat, a: nat)
    requires Grown(t0, d0, t1, d1, d, start, a) && a % PGSIZE == 0 && a / PGSIZE < USERPAGES
    ensures FrameAt(t1, d, User(a / PGSIZE)) == FrameAt(t0, d, User(a / PGSIZE))
  {
    PtesAreFrames(t0, d);
    PtesAreFrames(t1, d);
    assert GrownAt(t0, d0, t1, d1, d, start, a, a / PGSIZE);
  }

  /** The last page covers the end of the new size. */
  lemma {:induction false} Ended(t0: Tables, d0: map<int, Data>, t1: Tables, d1: map<int, Data>, d: int, start: nat,
                                 a: nat, newsz: nat)
    requires Grown(t0, d0, t1, d1, d, start, a) && a % PGSIZE == 0 && newsz <= a && (a == start || a < newsz + PGSIZE)
    ensures Grown(t0, d0, t1, d1, d, start, newsz)
  {
    hide PteAt;
    forall w | 0 <= w < USERPAGES ensures GrownAt(t0, d0, t1, d1, d, start, newsz, w) {
      assert GrownAt(t0, d0, t1, d1, d, start, a, w);
    }
  }

  /** Writing to a frame in no place changes no page. */
  lemma {:induction false} Filled(t0: Tables, d0: map<int, Data>, t1: Tables, d1: map<int, Data>, d: int, start: nat,
                                  a: nat, mem: int)
    requires Grown(t0, d0, t1, d1, d, start, a)
    requires forall q :: Ok(q) ==> FrameAt(t1, d, q) != mem
    ensures Grown(t0, d0, t1, d1[mem := Zeros()], d, start, a)
  {
    PtesAreFrames(t1, d);
    hide FrameAt, PteAt;
    var d2 := d1[mem := Zeros()];
    forall w | 0 <= w < USERPAGES ensures GrownAt(t0, d0, t1, d2, d, start, a, w) {
      assert GrownAt(t0, d0, t1, d1, d, start, a, w) && FrameAt(t1, d, User(w)) != mem;
    }
  }

  lemma {:induction false} NotMapped(t0: Tables, d0: map<int, Data>, t1: Tables, d1: map<int, Data>, t2: Tables,
                                     d: int, start: nat, a: nat)
    requires Grown(t0, d0, t1, d1, d, start, a)
    requires forall w :: 0 <= w < USERPAGES ==> PteAt(t2, d, w) == PteAt(t1, d, w)
    ensures Grown(t0, d0, t2, d1, d, start, a)
  {
    hide PteAt;
    forall w | 0 <= w < USERPAGES ensures GrownAt(t0, d0, t2, d1, d, start, a, w) {
      assert GrownAt(t0, d0, t1, d1, d, start, a, w);
    }
  }

  lemma {:induction false} GrownStep(t0: Tables, d0: map<int, Data>, t1: Tables, d1: map<int, Data>, t2: Tables,
                                     d: int, start: nat, a: nat, mem: Frame)
    requires Grown(t0, d0, t1, d1, d, start, a)
    requires a % PGSIZE == 0 && a >= start && a / PGSIZE < USERPAGES && mem in d1 && d1[mem] == Zeros()
    requires forall w :: 0 <= w < USERPAGES ==> PteAt(t2, d, w) == if w == a / PGSIZE
               then Present(mem, USERFLAGS) else PteAt(t1, d, w)
    ensures Grown(t0, d0, t2, d1, d, start, a + PGSIZE)
  {
    hide PteAt;
    var next := a + PGSIZE;
    forall w | 0 <= w < USERPAGES ensures GrownAt(t0, d0, t2, d1, d, start, next, w) {
      assert GrownAt(t0, d0, t1, d1, d, start, a, w);
    }
  }

  /** deallocuvm takes away just what was added. */
  lemma {:induction false} Restored(t0: Tables, d0: map<int, Data>, t1: Tables, d1: map<int, Data>, t2: Tables,
                                    d2: map<int, Data>, d: int, start: nat, a: nat, newsz: nat)
    requires Grown(t0, d0, t1, d1, d, start, a)
    requires start <= a < newsz && forall w :: 0 <= w < USERPAGES && w * PGSIZE >= start ==>
               FrameAt(t0, d, User(w)) == 0
    requires forall w :: 0 <= w < USERPAGES && start <= w * PGSIZE < newsz ==> FrameAt(t2, d, User(w)) == 0
    requires forall w :: 0 <= w < USERPAGES && !(start <= w * PGSIZE < newsz) ==> PteAt(t2, d, w) == PteAt(t1, d, w)
    requires forall w :: 0 <= w < USERPAGES && FrameAt(t2, d, User(w)) != 0 ==>
               SameData(d1, d2, FrameAt(t2, d, User(w)))
    ensures Grown(t0, d0, t2, d2, d, start, 0)
  {
    PtesAreFrames(t0, d);
    PtesAreFrames(t2, d);
    hide FrameAt, PteAt;
    forall w | 0 <= w < USERPAGES ensures GrownAt(t0, d0, t2, d2, d, start, 0, w) {
      assert GrownAt(t0, d0, t1, d1, d, start, a, w);
    }
  }

  lemma {:induction false} Freed(t0: Tables, d0: map<int, Data>, t1: Tables, d1: map<int, Data>, t2: Tables,
                                 d2: map<int, Data>, d: int, start: nat, mem: int)
    requires Grown(t0, d0, t1, d1, d, start, 0)
    requires forall q :: Ok(q) ==> FrameAt(t2, d, q) == FrameAt(t1, d, q) != mem
    requires forall g :: g != mem ==> SameFrame(t1, d1, t2, d2, g)
    ensures Grown(t0, d0, t2, d2, d, start, 0)
  {
    PtesKept(t1, d1, t2, d2, d, mem);
    PtesAreFrames(t1, d);
    hide FrameAt, PteAt;
    forall w | 0 <= w < USERPAGES ensures GrownAt(t0, d0, t2, d2, d, start, 0, w) {
      assert GrownAt(t0, d0, t1, d1, d, start, 0, w);
      assert FrameAt(t1, d, User(w)) != mem;
      assert SameFrame(t1, d1, t2, d2, FrameAt(t1, d, User(w)));
    }
  }

  lemma {:induction false} SameForTwice(t0: Tables, d0: map<int, Data>, t1: Tables, d1: map<int, Data>, t2: Tables,
                                        d2: map<int, Data>, others: set<int>)
    requires SameFor(t0, d0, t1, d1, others) && SameFor(t1, d1, t2, d2, others)
    ensures SameFor(t0, d0, t2, d2, others)
  {
    forall f | f in others ensures SameFrame(t0, d0, t2, d2, f) {
      assert SameFrame(t0, d0, t1, d1, f) && SameFrame(t1, d1, t2, d2, f);
    }
  }

  /** Without the page table none of its pages is mapped. */
  lemma {:induction false} NoTable(tables: Tables, d: int, v: nat)
    requires v < USERPAGES && FrameAt(tables, d, Tab(v / ENTRIES)) == 0 && 0 !in tables
    ensures forall w :: 0 <= w < USERPAGES && w / ENTRIES == v / ENTRIES ==> FrameAt(tables, d, User(w)) == 0
  {}

  /** Freeing a frame that is in no place changes no entry. */
  lemma {:induction false} PtesKept(tables: Tables, data: map<int, Data>, after: Tables, now: map<int, Data>, d: int,
                                    f: int)
    requires forall q :: Ok(q) ==> FrameAt(after, d, q) == FrameAt(tables, d, q) != f
    requires forall g :: g != f ==> SameFrame(tables, data, after, now, g)
    ensures forall w :: 0 <= w < USERPAGES ==> PteAt(after, d, w) == PteAt(tables, d, w)
  {
    forall w | 0 <= w < USERPAGES ensures PteAt(after, d, w) == PteAt(tables, d, w) {
      var t := FrameAt(tables, d, Tab(w / ENTRIES));
      assert FrameAt(after, d, Tab(w / ENTRIES)) == t && SameFrame(tables, data, after, now, t);
    }
  }

  ghost predicate SameData(data: map<int, Data>, now: map<int, Data>, f: int) {
    (f in data <==> f in now) && (f in data && f in now ==> now[f] == data[f])
  }

  lemma {:induction false} PtesAreFrames(tables: Tables, d: int)
    ensures forall w :: 0 <= w < USERPAGES ==> FrameAt(tables, d, User(w)) == FrameOf(PteAt(tables, d, w))
  {}

  /** Writing the entry for page v changes no other entry, no page table's place, and nothing of others. */
  lemma {:induction false} SetPage(all: set<int>, free: seq<int>, tables: Tables, d: int, others: set<int>, v: nat,
                                   p: Pte)
    requires Conserved(all, free, tables, d, others) && v < USERPAGES && FrameAt(tables, d, Tab(v / ENTRIES)) != 0
    ensures var t := FrameAt(tables, d, Tab(v / ENTRIES)); t in tables && |tables[t]| == ENTRIES
    ensures var after := WithPage(tables, d, v, p);
            && (forall q :: Ok(q) ==> FrameAt(after, d, q) == if q == User(v) then FrameOf(p)
                 else FrameAt(tables, d, q))
            && (forall w :: 0 <= w < USERPAGES ==> PteAt(after, d, w) == if w == v then p else PteAt(tables, d, w))
            && after.Keys == tables.Keys && (forall f :: f in after ==> |after[f]| == |tables[f]|)
            && (forall f :: f in others && f in tables ==> after[f] == tables[f])
            && (DirOpen(tables, d) ==> DirOpen(after, d))
  {
    var t := Tab(v / ENTRIES);
    assert PlaceOk(all, free, tables, d, others, t);
    assert PlaceOk(all, free, tables, d, others, Dir) && Apart(tables, d, t, Dir);
    if DirOpen(tables, d) {
      SameDir(tables, WithPage(tables, d, v, p), d);
    }
    var after := WithPage(tables, d, v, p);
    forall q | Ok(q) ensures FrameAt(after, d, q) == if q == User(v) then FrameOf(p) else FrameAt(tables, d, q) {
      PageSet(all, free, tables, d, others, v, p, q);
    }
    forall w | 0 <= w < USERPAGES ensures PteAt(after, d, w) == if w == v then p else PteAt(tables, d, w) {
      PageSet(all, free, tables, d, others, v, p, Tab(w / ENTRIES));
      assert Apart(tables, d, t, Tab(w / ENTRIES));
    }
  }

  lemma {:induction false} Mapped(all: set<int>, free: seq<int>, tables: Tables, d: int, others: set<int>, v: nat,
                                  f: Frame, flags: int)
    requires Conserved(all, free, tables, d, others + {f}) && f in all && f !in others && v < USERPAGES
    requires FrameAt(tables, d, Tab(v / ENTRIES)) != 0 && FrameAt(tables, d, User(v)) == 0
    ensures var t := FrameAt(tables, d, Tab(v / ENTRIES)); t in tables && |tables[t]| == ENTRIES
    ensures Conserved(all, free, WithPage(tables, d, v, Present(f, flags)), d, others)
  {
    SetPage(all, free, tables, d, others + {f}, v, Present(f, flags));
    Placed(all, free, tables, WithPage(tables, d, v, Present(f, flags)), d, others, User(v), f);
  }

  /** A new page table maps nothing. */
  lemma {:induction false} NewTable(all: set<int>, free: seq<int>, tables: Tables, d: int, others: set<int>, i: nat,
                                    t: Frame, flags: int)
    requires Conserved(all, free, tables, d, others + {t}) && t in all && t !in others && t !in tables && i < ENTRIES
    requires FrameAt(tables, d, Tab(i)) == 0
    ensures d in tables && |tables[d]| == ENTRIES
    ensures var after := WithTable(tables, d, i, t, flags);
            && Conserved(all, free, after, d, others)
            && (forall j :: 0 <= j < ENTRIES ==> FrameAt(after, d, Tab(j)) == if j == i then t
                 else FrameAt(tables, d, Tab(j)))
            && (forall w :: 0 <= w < USERPAGES ==> FrameAt(after, d, User(w)) == FrameAt(tables, d, User(w)))
            && (forall w :: 0 <= w < PAGES ==> PteAt(after, d, w) == PteAt(tables, d, w))
            && forall f :: f in others ==>
                 (f in after <==> f in tables) && (f in after && f in tables ==> after[f] == tables[f])
  {
    assert PlaceOk(all, free, tables, d, others + {t}, Dir);
    var after := WithTable(tables, d, i, t, flags);
    forall q | Ok(q) ensures FrameAt(after, d, q) == if q == Tab(i) then t else FrameAt(tables, d, q) {
      TableAdded(all, free, tables, d, others + {t}, i, t, flags, q);
    }
    Placed(all, free, tables, after, d, others, Tab(i), t);
    forall w | 0 <= w < PAGES ensures PteAt(after, d, w) == PteAt(tables, d, w) {
      var u := Tab(w / ENTRIES);
      assert PlaceOk(all, free, tables, d, others + {t}, u) && Apart(tables, d, u, Dir);
    }
  }
}
