/** All the address spaces together (vm.c): each frame is free, in one place of one of them, or in none. */
module AddressSpaces {
  import opened PageFrames
  import opened PageTables
  import opened KernelPages

  ghost predicate PlaceIn(all: set<int>, tables: Tables, d: int, q: Place)
    requires Ok(q)
  {
    var f := FrameAt(tables, d, q);
    f != 0 ==> f in all && (!q.User? ==> f in tables && |tables[f]| == ENTRIES)
  }

  /** An address space by itself: no frame has two places in it, and all its page tables are open. */
  ghost predicate Space(all: set<int>, tables: Tables, d: int) {
    && d != 0 && DirOpen(tables, d)
    && (forall q :: Ok(q) ==> PlaceIn(all, tables, d, q))
    && (forall q, r :: Ok(q) && Ok(r) ==> Apart(tables, d, q, r))
  }

  /** Frame conservation for the address spaces with directories ds; `lost` are the frames in none, the kernel's own and
      those that nobody will give back. */
  ghost predicate Spaces(all: set<int>, free: seq<int>, tables: Tables, ds: seq<int>, lost: set<int>) {
    && FreeOk(all, free, tables, lost)
    && (forall i :: 0 <= i < |ds| ==> Space(all, tables, ds[i]))
    && (forall i, f :: 0 <= i < |ds| && f in all && Held(tables, ds[i], f) ==> f !in free && f !in lost)
    && (forall i, j, f :: 0 <= i < j < |ds| && f in all ==> !(Held(tables, ds[i], f) && Held(tables, ds[j], f)))
    && (forall f :: f in all ==> f in free || f in lost || InSome(tables, ds, f))
  }

  ghost predicate InSome(tables: Tables, ds: seq<int>, f: int) {
    exists i :: 0 <= i < |ds| && Held(tables, ds[i], f)
  }

  /** What is in use, but not by the address space d. */
  ghost function Rest(all: set<int>, free: seq<int>, tables: Tables, d: int): set<int> {
    set f | f in all && f !in free && !Held(tables, d, f)
  }

  ghost function InUse(all: set<int>, free: seq<int>): set<int> {
    set f | f in all && f !in free
  }

  // ----- from all address spaces to one -----

  /** Seen from one address space, the others are frames used elsewhere. */
  lemma {:induction false} FocusOn(all: set<int>, free: seq<int>, tables: Tables, ds: seq<int>, lost: set<int>, i: nat)
    requires Spaces(all, free, tables, ds, lost) && i < |ds|
    ensures Conserved(all, free, tables, ds[i], Rest(all, free, tables, ds[i])) && DirOpen(tables, ds[i])
  {
    var d := ds[i];
    var others := Rest(all, free, tables, d);
    hide FrameAt;
    assert Space(all, tables, d);
    forall q | Ok(q) ensures PlaceOk(all, free, tables, d, others, q) {
      assert PlaceIn(all, tables, d, q);
      assert Held(tables, d, FrameAt(tables, d, q));
    }
  }

  lemma {:induction false} HeldElsewhere(all: set<int>, free: seq<int>, tables: Tables, ds: seq<int>, lost: set<int>,
                                         i: nat, j: nat, q: Place)
    requires Spaces(all, free, tables, ds, lost) && i < |ds| && j < |ds| && i != j && Ok(q)
    ensures var f := FrameAt(tables, ds[j], q); f != 0 ==> f in Rest(all, free, tables, ds[i])
  {
    hide FrameAt;
    assert Space(all, tables, ds[j]) && PlaceIn(all, tables, ds[j], q);
    assert Held(tables, ds[j], FrameAt(tables, ds[j], q));
  }

  /** An address space whose frames are left alone stays one, with the same frames in the same places. */
  lemma {:induction false} SpaceStays(all: set<int>, tables: Tables, data: map<int, Data>, after: Tables,
                                      now: map<int, Data>, others: set<int>, d: int)
    requires Space(all, tables, d) && SameFor(tables, data, after, now, others) && 0 !in tables && 0 !in after
    requires forall q :: Ok(q) && FrameAt(tables, d, q) != 0 ==> FrameAt(tables, d, q) in others
    ensures Space(all, after, d) && forall q :: Ok(q) ==> FrameAt(after, d, q) == FrameAt(tables, d, q)
    ensures forall f :: Held(after, d, f) <==> Held(tables, d, f)
  {
    forall q | Ok(q) ensures FrameAt(after, d, q) == FrameAt(tables, d, q) {
      Untouched(tables, data, after, now, others, d, q);
    }
    assert PlaceIn(all, tables, d, Dir) && FrameAt(tables, d, Dir) == d;
    assert SameFrame(tables, data, after, now, d);
    SameDir(tables, after, d);
    hide FrameAt;
    forall q | Ok(q) ensures PlaceIn(all, after, d, q) {
      assert PlaceIn(all, tables, d, q);
      assert FrameAt(tables, d, q) != 0 ==> SameFrame(tables, data, after, now, FrameAt(tables, d, q));
    }
    forall q, r | Ok(q) && Ok(r) ensures Apart(after, d, q, r) {
      assert Apart(tables, d, q, r);
    }
    forall f ensures Held(after, d, f) <==> Held(tables, d, f) {
      if q :| Ok(q) && FrameAt(tables, d, q) == f {
        assert FrameAt(after, d, q) == f;
      }
      if q :| Ok(q) && FrameAt(after, d, q) == f {
        assert FrameAt(tables, d, q) == f;
      }
    }
  }

  lemma {:induction false} ConservedIsSpace(all: set<int>, free: seq<int>, tables: Tables, d: int, others: set<int>)
    requires Conserved(all, free, tables, d, others) && DirOpen(tables, d)
    ensures Space(all, tables, d)
    ensures forall f :: f in all && Held(tables, d, f) ==> f !in free && f !in others
  {
    hide FrameAt;
    forall q | Ok(q) ensures PlaceIn(all, tables, d, q) {
      assert PlaceOk(all, free, tables, d, others, q);
    }
    forall f | f in all && Held(tables, d, f) ensures f !in free && f !in others {
      var q :| Ok(q) && FrameAt(tables, d, q) == f;
      assert PlaceOk(all, free, tables, d, others, q);
    }
  }

  // ----- and back -----

  /** The others are as they were. */
  lemma {:induction false} OtherStays(all: set<int>, free: seq<int>, tables: Tables, data: map<int, Data>,
                                      after: Tables, now: map<int, Data>, ds: seq<int>, lost: set<int>, i: nat, j: nat)
    requires Spaces(all, free, tables, ds, lost) && i < |ds| && j < |ds| && j != i && 0 !in after
    requires SameFor(tables, data, after, now, Rest(all, free, tables, ds[i]))
    ensures Space(all, after, ds[j]) && (forall q :: Ok(q) ==> FrameAt(after, ds[j], q) == FrameAt(tables, ds[j], q))
    ensures forall f :: Held(after, ds[j], f) <==> Held(tables, ds[j], f)
    ensures forall f :: f in all && Held(tables, ds[j], f) ==> f in Rest(all, free, tables, ds[i])
  {
    var others := Rest(all, free, tables, ds[i]);
    forall q | Ok(q) && FrameAt(tables, ds[j], q) != 0 ensures FrameAt(tables, ds[j], q) in others {
      HeldElsewhere(all, free, tables, ds, lost, i, j, q);
    }
    SpaceStays(all, tables, data, after, now, others, ds[j]);
  }

  /** Whatever was done to one address space with the frames of the others left alone, all of them are in order. */
  lemma {:induction false} SpacesKept(all: set<int>, free: seq<int>, tables: Tables, data: map<int, Data>,
                                      more: seq<int>, after: Tables, now: map<int, Data>, ds: seq<int>,
                                      lost: set<int>, i: nat)
    requires Spaces(all, free, tables, ds, lost) && i < |ds| && lost <= all
    requires Conserved(all, more, after, ds[i], Rest(all, free, tables, ds[i])) && DirOpen(after, ds[i])
    requires SameFor(tables, data, after, now, Rest(all, free, tables, ds[i]))
    ensures Spaces(all, more, after, ds, lost)
    ensures forall j :: 0 <= j < |ds| && j != i ==>
              forall q :: Ok(q) ==> FrameAt(after, ds[j], q) == FrameAt(tables, ds[j], q)
  {
    var others := Rest(all, free, tables, ds[i]);
    forall j | 0 <= j < |ds| && j != i
      ensures Space(all, after, ds[j]) && (forall q :: Ok(q) ==> FrameAt(after, ds[j], q) == FrameAt(tables, ds[j], q))
      ensures forall f :: Held(after, ds[j], f) <==> Held(tables, ds[j], f)
      ensures forall f :: f in all && Held(tables, ds[j], f) ==> f in others
    {
      OtherStays(all, free, tables, data, after, now, ds, lost, i, j);
    }
    ConservedIsSpace(all, more, after, ds[i], others);
    hide FrameAt, Held, Space;
    assert forall f :: f in lost ==> f in others;
    forall f | f in all ensures f in more || f in lost || InSome(after, ds, f) {
      if f in others && f !in lost {
        var j :| 0 <= j < |ds| && Held(tables, ds[j], f);
        assert Held(after, ds[j], f);
      }
    }
    assert FreeOk(all, more, after, lost);
  }

  /** The frames of all address spaces left alone: they are in order beside whatever was made of the free ones. */
  lemma {:induction false} AllStay(all: set<int>, free: seq<int>, tables: Tables, data: map<int, Data>, after: Tables,
                                   now: map<int, Data>, ds: seq<int>, lost: set<int>, j: nat)
    requires Spaces(all, free, tables, ds, lost) && j < |ds| && 0 !in after
    requires SameFor(tables, data, after, now, InUse(all, free))
    ensures Space(all, after, ds[j]) && forall f :: Held(after, ds[j], f) <==> Held(tables, ds[j], f)
    ensures forall q :: Ok(q) ==> FrameAt(after, ds[j], q) == FrameAt(tables, ds[j], q)
    ensures forall q :: Ok(q) && FrameAt(tables, ds[j], q) != 0 ==> FrameAt(tables, ds[j], q) in InUse(all, free)
    ensures forall f :: f in all && Held(tables, ds[j], f) ==> f in InUse(all, free) && f !in lost
  {
    forall q | Ok(q) && FrameAt(tables, ds[j], q) != 0 ensures FrameAt(tables, ds[j], q) in InUse(all, free) {
      hide FrameAt;
      assert Space(all, tables, ds[j]) && PlaceIn(all, tables, ds[j], q);
      assert Held(tables, ds[j], FrameAt(tables, ds[j], q));
    }
    SpaceStays(all, tables, data, after, now, InUse(all, free), ds[j]);
  }

  lemma {:induction false} SpaceAdded(all: set<int>, free: seq<int>, tables: Tables, data: map<int, Data>,
                                      more: seq<int>, after: Tables, now: map<int, Data>, ds: seq<int>,
                                      lost: set<int>, c: int)
    requires Spaces(all, free, tables, ds, lost) && lost <= all
    requires Conserved(all, more, after, c, InUse(all, free)) && SameFor(tables, data, after, now, InUse(all, free))
    requires DirOpen(after, c)
    ensures Spaces(all, more, after, ds + [c], lost)
  {
    forall j | 0 <= j < |ds|
      ensures Space(all, after, ds[j]) && (forall f :: Held(after, ds[j], f) <==> Held(tables, ds[j], f))
      ensures forall f :: f in all && Held(tables, ds[j], f) ==> f in InUse(all, free) && f !in lost
    {
      AllStay(all, free, tables, data, after, now, ds, lost, j);
    }
    ConservedIsSpace(all, more, after, c, InUse(all, free));
    hide FrameAt, Held, Space;
    var es := ds + [c];
    forall f | f in all ensures f in more || f in lost || InSome(after, es, f) {
      if f in InUse(all, free) && f !in lost {
        var j :| 0 <= j < |ds| && Held(tables, ds[j], f);
        assert Held(after, es[j], f);
      } else if f !in more {
        assert f in lost || Held(after, es[|ds|], f);
      }
    }
    assert forall f :: f in lost ==> f in InUse(all, free);
    assert FreeOk(all, more, after, lost);
  }

  lemma {:induction false} NoneAdded(all: set<int>, free: seq<int>, tables: Tables, data: map<int, Data>,
                                     more: seq<int>, after: Tables, now: map<int, Data>, ds: seq<int>, lost: set<int>,
                                     extra: set<int>)
    requires Spaces(all, free, tables, ds, lost) && extra !! InUse(all, free)
    requires AllKnown(all, more, after, InUse(all, free) + extra)
    requires SameFor(tables, data, after, now, InUse(all, free)) && lost <= all
    ensures Spaces(all, more, after, ds, lost + extra)
  {
    forall j | 0 <= j < |ds|
      ensures Space(all, after, ds[j]) && (forall f :: Held(after, ds[j], f) <==> Held(tables, ds[j], f))
      ensures forall f :: f in all && Held(tables, ds[j], f) ==> f in InUse(all, free) && f !in lost
    {
      AllStay(all, free, tables, data, after, now, ds, lost, j);
    }
    hide FrameAt, Held, Space;
    forall f | f in all ensures f in more || f in lost + extra || InSome(after, ds, f) {
      if f in InUse(all, free) && f !in lost {
        var j :| 0 <= j < |ds| && Held(tables, ds[j], f);
        assert Held(after, ds[j], f);
      }
    }
    assert forall f :: f in lost ==> f in InUse(all, free);
    assert FreeOk(all, more, after, lost + extra);
  }

  /** One address space given back: the others are as they were. */
  lemma {:induction false} SpaceGone(all: set<int>, free: seq<int>, tables: Tables, data: map<int, Data>,
                                     more: seq<int>, after: Tables, now: map<int, Data>, ds: seq<int>,
                                     lost: set<int>, i: nat)
    requires Spaces(all, free, tables, ds, lost) && i < |ds| && lost <= all
    requires AllKnown(all, more, after, Rest(all, free, tables, ds[i]))
    requires SameFor(tables, data, after, now, Rest(all, free, tables, ds[i]))
    ensures Spaces(all, more, after, ds[..i] + ds[i + 1..], lost)
  {
    hide FrameAt, Held, Space, SameFor;
    var others, es := Rest(all, free, tables, ds[i]), ds[..i] + ds[i + 1..];
    forall j | 0 <= j < |ds| && j != i
      ensures Space(all, after, ds[j]) && (forall f :: Held(after, ds[j], f) <==> Held(tables, ds[j], f))
      ensures forall f :: f in all && Held(tables, ds[j], f) ==> f in others
    {
      OtherStays(all, free, tables, data, after, now, ds, lost, i, j);
    }
    assert forall j :: 0 <= j < |es| ==> es[j] == ds[if j < i then j else j + 1];
    assert forall f :: f in lost ==> f in others;
    forall f | f in all ensures f in more || f in lost || InSome(after, es, f) {
      if f in others && f !in lost {
        StillHeld(all, free, tables, ds, lost, i, f, after);
      }
    }
    assert FreeOk(all, more, after, lost);
  }

  lemma {:induction false} StillHeld(all: set<int>, free: seq<int>, tables: Tables, ds: seq<int>, lost: set<int>,
                                     i: nat, f: int, after: Tables)
    requires Spaces(all, free, tables, ds, lost) && i < |ds| && f in Rest(all, free, tables, ds[i]) && f !in lost
    requires forall j :: 0 <= j < |ds| && j != i ==> (Held(after, ds[j], f) <==> Held(tables, ds[j], f))
    ensures InSome(after, ds[..i] + ds[i + 1..], f)
  {
    hide FrameAt, Held, Space;
    var j :| 0 <= j < |ds| && Held(tables, ds[j], f);
    assert Held(after, (ds[..i] + ds[i + 1..])[if j < i then j else j - 1], f);
  }

  lemma {:induction false} NoSpaces(all: set<int>, free: seq<int>, tables: Tables)
    requires AllKnown(all, free, tables, {})
    ensures Spaces(all, free, tables, [], {}) && InUse(all, free) == {}
  {
    forall f | f in all ensures f in free {
      assert f in free || f in {};
    }
  }

  // ----- fork -----

  /** setupkvm among all address spaces: one more without user pages, or, with fewer than 65 frames free, all of them
      lost. */
  method OpenSpace(vm: Vm, ghost ds: seq<int>, ghost lost: set<int>) returns (d: int, ghost gone: set<int>)
    requires Spaces(vm.all, vm.freelist, vm.tables, ds, lost) && lost <= vm.all
    modifies vm
    ensures d != 0 <==> |old(vm.freelist)| >= SETUP
    ensures gone <= vm.all && gone !! lost
    ensures SameFor(old(vm.tables), old(vm.data), vm.tables, vm.data, InUse(vm.all, old(vm.freelist)))
    ensures Spaces(vm.all, vm.freelist, vm.tables, if d == 0 then ds else ds + [d], lost + gone)
    ensures d == 0 ==> vm.freelist == [] && |gone| == |old(vm.freelist)|
    ensures d != 0 ==> gone == {} && |vm.freelist| == |old(vm.freelist)| - SETUP && vm.data == old(vm.data)
    ensures d != 0 ==> vm.Good(d, InUse(vm.all, old(vm.freelist))) && Fresh(vm.tables, d, vm.data0)
  {
    hide Conserved, Spaces, Space, FrameAt, PteAt, SameFor, Held, InUse, KernelPte;
    ghost var free, tab, dat, used := vm.freelist, vm.tables, vm.data, InUse(vm.all, vm.freelist);
    UsedKnown(vm.all, free, tab, ds, lost);
    d, gone := SetupKvm(vm, used);
    if d == 0 {
      NoneAdded(vm.all, free, tab, dat, vm.freelist, vm.tables, vm.data, ds, lost, gone);
    } else {
      assert lost + gone == lost;
      SpaceAdded(vm.all, free, tab, dat, vm.freelist, vm.tables, vm.data, ds, lost, d);
    }
  }

  /** An address space that maps the kernel's pages only. */
  ghost predicate Fresh(tables: Tables, d: int, data0: DataPage) {
    && (forall w :: 0 <= w < PAGES ==> PteAt(tables, d, w) == KernelPte(data0, w))
    && forall i :: 0 <= i < USERTABLES ==> FrameAt(tables, d, Tab(i)) == 0
  }

  lemma {:induction false} NoUserPages(tables: Tables, d: int, data0: DataPage)
    requires Fresh(tables, d, data0)
    ensures forall w :: 0 <= w < USERPAGES ==> FrameAt(tables, d, User(w)) == 0
  {
    PtesAreFrames(tables, d);
    hide FrameAt, PteAt;
    forall w | 0 <= w < USERPAGES ensures FrameAt(tables, d, User(w)) == 0 {
      assert PteAt(tables, d, w) == KernelPte(data0, w) == Absent;
    }
  }

  lemma {:induction false} UsedKnown(all: set<int>, free: seq<int>, tables: Tables, ds: seq<int>, lost: set<int>)
    requires Spaces(all, free, tables, ds, lost) && lost <= all
    ensures AllKnown(all, free, tables, InUse(all, free)) && lost <= InUse(all, free)
  {}

  lemma {:induction false} PtesStay(t0: Tables, d0: map<int, Data>, t1: Tables, d1: map<int, Data>, used: set<int>,
                                    p: int)
    requires SameFor(t0, d0, t1, d1, used) && 0 !in t0 && 0 !in t1
    requires forall q :: Ok(q) && FrameAt(t0, p, q) != 0 ==> FrameAt(t0, p, q) in used
    ensures forall w :: 0 <= w < USERPAGES ==> PteAt(t1, p, w) == PteAt(t0, p, w)
  {
    forall w | 0 <= w < USERPAGES ensures PteAt(t1, p, w) == PteAt(t0, p, w) {
      Untouched(t0, d0, t1, d1, used, p, Tab(w / ENTRIES));
    }
  }

  /** copyuvm as a whole: setupkvm, and the pages below sz copied; 0 when memory runs out.  A failing copy loses every
      frame that was free when there were fewer than setupkvm takes; otherwise one, exactly when the frames left by
      setupkvm are one more than a multiple of what a full page table takes, and none if not. */
  method Fork(vm: Vm, ghost ds: seq<int>, ghost lost: set<int>, p: int, ghost i: nat, sz: nat)
    returns (r: int, ghost gone: set<int>)
    requires Spaces(vm.all, vm.freelist, vm.tables, ds, lost) && lost <= vm.all
    requires i < |ds| && ds[i] == p && sz <= KERNBASE
    requires forall w :: 0 <= w < USERPAGES && w * PGSIZE < sz ==>
               PteAt(vm.tables, p, w).Present? && PteAt(vm.tables, p, w).frame in vm.data
    modifies vm
    ensures var pages := PgRoundUp(sz) / PGSIZE;
            r != 0 <==> SETUP + pages + (pages + ENTRIES - 1) / ENTRIES <= |old(vm.freelist)|
    ensures Spaces(vm.all, vm.freelist, vm.tables, if r == 0 then ds else ds + [r], lost + gone)
    ensures gone <= vm.all && gone !! lost
    ensures r != 0 ==> gone == {} && forall w :: 0 <= w < USERPAGES ==>
              CopiedAt(old(vm.tables), old(vm.data), vm.tables, vm.data, p, r, sz, w)
    ensures r != 0 ==> forall w :: 0 <= w < USERPAGES ==> SeenCopied(old(vm.tables), vm.tables, p, r, sz, w)
    ensures r == 0 ==> |gone| == var free := |old(vm.freelist)|;
              if free < SETUP then free else if (free - SETUP) % (ENTRIES + 1) == 1 then 1 else 0
  {
    hide Conserved, Spaces, Space, FrameAt, PteAt, SameFor, Held, FreeOk, AllKnown, Frames, BetweenPages, CopiedAt,
         InUse, Fresh, DirOpen, SeenCopied;
    ghost var used, free, tab, dat := InUse(vm.all, vm.freelist), vm.freelist, vm.tables, vm.data;
    var c;
    c, gone := OpenSpace(vm, ds, lost);
    if c == 0 {
      return 0, gone;
    }
    ghost var mid, n, pages := vm.tables, |vm.freelist|, PgRoundUp(sz) / PGSIZE;
    ParentStays(vm, free, tab, dat, ds, lost, i, c);
    CopyTakes(mid, c, vm.data0, pages);
    r, gone := vm.Copyuvm(p, c, sz, used);
    SameForTwice(tab, dat, mid, dat, vm.tables, vm.data, used);
    if r == c {
      assert lost + gone == lost;
      SpaceAdded(vm.all, free, tab, dat, vm.freelist, vm.tables, vm.data, ds, lost, c);
      forall w | 0 <= w < USERPAGES ensures CopiedAt(tab, dat, vm.tables, vm.data, p, c, sz, w) {
        SameCopy(tab, mid, dat, vm.tables, vm.data, p, c, sz, w);
      }
      forall w | 0 <= w < USERPAGES ensures SeenCopied(tab, vm.tables, p, c, sz, w) {
        SameSeen(tab, mid, vm.tables, p, c, sz, w);
      }
    } else {
      UsedKnown(vm.all, free, tab, ds, lost);
      NoneAdded(vm.all, free, tab, dat, vm.freelist, vm.tables, vm.data, ds, lost, gone);
      OneLost(mid, c, vm.data0, n, pages, gone);
    }
  }

  lemma {:induction false} ParentStays(vm: Vm, free: seq<int>, tab: Tables, dat: map<int, Data>, ds: seq<int>,
                                       lost: set<int>, i: nat, c: int)
    requires Spaces(vm.all, free, tab, ds, lost) && lost <= vm.all && i < |ds| && vm.Good(c, InUse(vm.all, free))
    requires SameFor(tab, dat, vm.tables, vm.data, InUse(vm.all, free)) && Fresh(vm.tables, c, vm.data0)
    ensures forall w :: 0 <= w < USERPAGES ==> PteAt(vm.tables, ds[i], w) == PteAt(tab, ds[i], w)
    ensures forall w :: 0 <= w < USERPAGES ==> Translate(vm.tables, ds[i], w) == Translate(tab, ds[i], w)
    ensures DirOpen(vm.tables, ds[i])
    ensures forall q :: Ok(q) && FrameAt(vm.tables, ds[i], q) != 0 ==>
              FrameAt(vm.tables, ds[i], q) in InUse(vm.all, free)
    ensures forall w :: 0 <= w < USERPAGES ==> FrameAt(vm.tables, c, User(w)) == 0
  {
    hide Held, Space, PteAt, FrameAt, SameFor, Fresh;
    vm.NoZero(c, InUse(vm.all, free));
    AllStay(vm.all, free, tab, dat, vm.tables, vm.data, ds, lost, i);
    PtesStay(tab, dat, vm.tables, vm.data, InUse(vm.all, free), ds[i]);
    BothOpen(vm.all, tab, vm.tables, ds[i]);
    NoUserPages(vm.tables, c, vm.data0);
  }

  lemma {:induction false} BothOpen(all: set<int>, t0: Tables, t1: Tables, p: int)
    requires Space(all, t0, p) && Space(all, t1, p) && 0 !in t0 && 0 !in t1
    requires forall w :: 0 <= w < USERPAGES ==> PteAt(t1, p, w) == PteAt(t0, p, w)
    ensures DirOpen(t1, p) && forall w :: 0 <= w < USERPAGES ==> Translate(t1, p, w) == Translate(t0, p, w)
  {
    hide PteAt, DirOpen, Translate;
    forall w | 0 <= w < USERPAGES ensures Translate(t1, p, w) == Translate(t0, p, w) {
      EntryDecides(t0, p, w);
      EntryDecides(t1, p, w);
    }
  }

  lemma {:induction false} CopyTakes(tables: Tables, c: int, data0: DataPage, pages: nat)
    requires Fresh(tables, c, data0) && pages <= USERPAGES
    ensures Frames(tables, c, 0, pages) == pages + (pages + ENTRIES - 1) / ENTRIES
  {
    FreshFrames(tables, c, pages);
  }

  lemma {:induction false} OneLost(tables: Tables, c: int, data0: DataPage, free: nat, end: nat, gone: set<int>)
    requires end <= USERPAGES && Fresh(tables, c, data0)
    requires free < Frames(tables, c, 0, end)
    requires |gone| <= 1 && (gone == {} <==> BetweenPages(tables, c, free, end))
    ensures |gone| == if free % (ENTRIES + 1) == 1 then 1 else 0
  {
    LostExactly(tables, c, free, end);
  }

  lemma {:induction false} SameCopy(t0: Tables, t1: Tables, d0: map<int, Data>, t2: Tables, d2: map<int, Data>, p: int,
                                    c: int, sz: nat, w: nat)
    requires w < USERPAGES && PteAt(t0, p, w) == PteAt(t1, p, w) && CopiedAt(t1, d0, t2, d2, p, c, sz, w)
    ensures CopiedAt(t0, d0, t2, d2, p, c, sz, w)
  {
    hide PteAt;
  }

  lemma {:induction false} SameSeen(t0: Tables, t1: Tables, t2: Tables, p: int, c: int, sz: nat, w: nat)
    requires w < USERPAGES && Translate(t0, p, w) == Translate(t1, p, w) && SeenCopied(t1, t2, p, c, sz, w)
    ensures SeenCopied(t0, t2, p, c, sz, w)
  {
    hide Translate;
  }

  /** What wait() does with the address space of a process that has ended. */
  method Release(vm: Vm, ghost ds: seq<int>, ghost lost: set<int>, d: int, ghost i: nat)
    requires Spaces(vm.all, vm.freelist, vm.tables, ds, lost) && lost <= vm.all && i < |ds| && ds[i] == d
    modifies vm
    ensures Spaces(vm.all, vm.freelist, vm.tables, ds[..i] + ds[i + 1..], lost)
    ensures SameFor(old(vm.tables), old(vm.data), vm.tables, vm.data,
                    Rest(vm.all, old(vm.freelist), old(vm.tables), d))
  {
    hide Conserved, Spaces, SameFor, FreeOk, Rest;
    ghost var free, tab, dat := vm.freelist, vm.tables, vm.data;
    FocusOn(vm.all, free, tab, ds, lost, i);
    vm.Freevm(d, Rest(vm.all, free, tab, d));
    SpaceGone(vm.all, free, tab, dat, vm.freelist, vm.tables, vm.data, ds, lost, i);
  }

  // ----- growproc -----

  /** The pages of a process are those that its size reaches. */
  ghost predicate SizedPages(tables: Tables, d: int, sz: nat) {
    forall w :: 0 <= w < USERPAGES ==> (FrameAt(tables, d, User(w)) != 0 <==> w * PGSIZE < sz)
  }

  lemma {:induction false} RoundedReach(sz: nat, w: nat)
    ensures w * PGSIZE < PgRoundUp(sz) <==> w * PGSIZE < sz
  {}

  lemma {:induction false} GrownSize(t0: Tables, d0: map<int, Data>, t1: Tables, d1: map<int, Data>, d: int, sz: nat,
                                     end: nat)
    requires SizedPages(t0, d, sz) && Grown(t0, d0, t1, d1, d, PgRoundUp(sz), end)
    ensures SizedPages(t1, d, if end < sz then sz else end)
  {
    PtesAreFrames(t0, d);
    PtesAreFrames(t1, d);
    hide FrameAt, PteAt;
    var size := if end < sz then sz else end;
    forall w | 0 <= w < USERPAGES ensures FrameAt(t1, d, User(w)) != 0 <==> w * PGSIZE < size {
      assert GrownAt(t0, d0, t1, d1, d, PgRoundUp(sz), end, w);
      RoundedReach(sz, w);
    }
  }

  /** sz + n is computed without sign: below 0 it wraps around, and nothing is given up. */
  lemma {:induction false} ShrunkSize(t0: Tables, t1: Tables, d: int, sz: nat, n: int, newsz: nat)
    requires SizedPages(t0, d, sz) && sz <= KERNBASE && -0x8000_0000 <= n < 0
    requires newsz == (sz + n) % 0x1_0000_0000
    requires forall w :: 0 <= w < USERPAGES ==>
               FrameAt(t1, d, User(w)) == if PgRoundUp(newsz) <= w * PGSIZE < sz then 0 else FrameAt(t0, d, User(w))
    ensures if sz + n < 0 then newsz >= sz else newsz == sz + n < sz
    ensures SizedPages(t1, d, if sz + n < 0 then sz else newsz)
    ensures newsz == 0 ==> !SizedPages(t1, d, sz)
  {
    hide FrameAt, PgRoundUp;
    var size := if sz + n < 0 then sz else newsz;
    forall w | 0 <= w < USERPAGES ensures FrameAt(t1, d, User(w)) != 0 <==> w * PGSIZE < size {
      RoundedReach(newsz, w);
    }
    assert newsz == 0 ==> FrameAt(t1, d, User(0)) == 0;
  }

  /** growproc in one of the address spaces: `now` is the size it records.  Afterwards its pages are those that the size
      reaches, unless it was asked to give up all of them: deallocuvm's answer, 0, is taken for a failure, and the old
      size stays. */
  method Growproc(vm: Vm, ghost ds: seq<int>, ghost lost: set<int>, d: int, ghost i: nat, sz: nat, n: int)
    returns (ok: bool, now: nat)
    requires Spaces(vm.all, vm.freelist, vm.tables, ds, lost) && lost <= vm.all && i < |ds| && ds[i] == d
    requires sz <= KERNBASE && -0x8000_0000 <= n < 0x8000_0000 && SizedPages(vm.tables, d, sz)
    modifies vm
    ensures Spaces(vm.all, vm.freelist, vm.tables, ds, lost)
    ensures SameFor(old(vm.tables), old(vm.data), vm.tables, vm.data,
                    Rest(vm.all, old(vm.freelist), old(vm.tables), d))
    ensures SizedPages(vm.tables, d, now) <==> n >= 0 || sz + n != 0
    ensures now == if ok && sz + n >= 0 then sz + n else sz
    ensures n > 0 ==>
              (ok <==>
               && sz + n < KERNBASE
               && Frames(old(vm.tables), d, PgRoundUp(sz) / PGSIZE, PgRoundUp(sz + n) / PGSIZE) <= |old(vm.freelist)|)
    ensures n <= 0 ==> (ok <==> n == 0 || (sz > 0 && sz + n != 0))
    ensures ok && n > 0 ==> AllSeen(old(vm.tables), vm.tables, vm.data, d, PgRoundUp(sz), sz + n)
  {
    hide Conserved, Spaces, Space, FrameAt, PteAt, SameFor, Held, FreeOk, Rest, Frames, Grown, AllSeen, DirOpen,
         PgRoundUp, SizedPages;
    ghost var free, tab, dat := vm.freelist, vm.tables, vm.data;
    FocusOn(vm.all, free, tab, ds, lost, i);
    ghost var others := Rest(vm.all, free, tab, d);
    SameForSelf(tab, dat, others);
    var newsz, r := (sz + n) % 0x1_0000_0000, sz;
    if n > 0 {
      NothingBehind(tab, d, sz);
      r := vm.Allocuvm(d, sz, newsz, others);
      if newsz < KERNBASE {
        GrownSize(tab, dat, vm.tables, vm.data, d, sz, if r == newsz then newsz else 0);
      }
    } else if n < 0 {
      r := vm.Deallocuvm(d, sz, newsz, others);
      ShrunkSize(tab, vm.tables, d, sz, n, newsz);
    }
    SpacesKept(vm.all, free, tab, dat, vm.freelist, vm.tables, vm.data, ds, lost, i);
    if n != 0 && r == 0 {
      return false, sz;
    }
    return true, r;
  }

  lemma {:induction false} NothingBehind(tables: Tables, d: int, sz: nat)
    requires SizedPages(tables, d, sz)
    ensures forall w :: 0 <= w < USERPAGES && w * PGSIZE >= PgRoundUp(sz) ==> FrameAt(tables, d, User(w)) == 0
  {
    hide FrameAt;
  }

  // ----- a run that loses a frame -----

  /** kalloc for the kernel's own use, as for the stack it gives a process. */
  method KernelFrame(vm: Vm, ghost ds: seq<int>, ghost lost: set<int>) returns (f: int)
    requires Spaces(vm.all, vm.freelist, vm.tables, ds, lost) && lost <= vm.all && vm.freelist != []
    modifies vm
    ensures f in vm.all && f !in lost && Spaces(vm.all, vm.freelist, vm.tables, ds, lost + {f})
    ensures vm.freelist == old(vm.freelist)[1..] && vm.tables == old(vm.tables) && vm.data == old(vm.data)
  {
    FrameTaken(vm.all, vm.freelist, vm.tables, ds, lost);
    f := vm.freelist[0];
    vm.freelist := vm.freelist[1..];
  }

  lemma {:induction false} FrameTaken(all: set<int>, free: seq<int>, tables: Tables, ds: seq<int>, lost: set<int>)
    requires Spaces(all, free, tables, ds, lost) && free != []
    ensures Spaces(all, free[1..], tables, ds, lost + {free[0]}) && free[0] in all && free[0] !in lost
  {
    hide Held, Space;
    var rest := free[1..];
    assert forall k :: 0 <= k < |rest| ==> rest[k] == free[k + 1];
    assert forall f :: f in free <==> f == free[0] || f in rest;
  }

  /** userinit's address space: setupkvm, and the one page of inituvm. */
  method FirstSpace(vm: Vm, ghost ds: seq<int>, ghost lost: set<int>) returns (d: int)
    requires Spaces(vm.all, vm.freelist, vm.tables, ds, lost) && lost <= vm.all && |vm.freelist| >= SETUP + 2
    modifies vm
    ensures Spaces(vm.all, vm.freelist, vm.tables, ds + [d], lost)
    ensures |vm.freelist| == |old(vm.freelist)| - SETUP - 2
    ensures PteAt(vm.tables, d, 0).Present? && PteAt(vm.tables, d, 0).frame in vm.data
    ensures var x := Translate(vm.tables, d, 0); x.To? && x.write && x.user
  {
    hide Conserved, Spaces, Space, FrameAt, PteAt, SameFor, Held, FreeOk, AllKnown, InUse, Frames, Fresh, DirOpen,
         Translate;
    ghost var free, tab, dat, used := vm.freelist, vm.tables, vm.data, InUse(vm.all, vm.freelist);
    ghost var gone;
    d, gone := OpenSpace(vm, ds, lost);
    ghost var mid := vm.tables;
    CopyTakes(mid, d, vm.data0, 1);
    NoUserPages(mid, d, vm.data0);
    var size := vm.Allocuvm(d, 0, PGSIZE, used);
    SameForTwice(tab, dat, mid, dat, vm.tables, vm.data, used);
    SpaceAdded(vm.all, free, tab, dat, vm.freelist, vm.tables, vm.data, ds, lost, d);
    assert GrownAt(mid, dat, vm.tables, vm.data, d, 0, PGSIZE, 0);
    assert SeenGrown(mid, vm.tables, vm.data, d, 0, PGSIZE, 0);
  }

  /** kvmalloc, and userinit with the stack that allocproc takes. */
  method Boot(vm: Vm) returns (kpgdir: int, d: int, stack: int)
    requires AllKnown(vm.all, vm.freelist, vm.tables, {}) && |vm.freelist| >= 2 * SETUP + 3
    modifies vm
    ensures Spaces(vm.all, vm.freelist, vm.tables, [kpgdir, d], {stack}) && stack in vm.all
    ensures |vm.freelist| == |old(vm.freelist)| - 2 * SETUP - 3
    ensures PteAt(vm.tables, d, 0).Present? && PteAt(vm.tables, d, 0).frame in vm.data
  {
    hide Spaces, AllKnown, PteAt, InUse, Fresh, Conserved, SameFor;
    NoSpaces(vm.all, vm.freelist, vm.tables);
    ghost var gone;
    kpgdir, gone := OpenSpace(vm, [], {});
    assert [] + [kpgdir] == [kpgdir] && {} + gone == {};
    stack := KernelFrame(vm, [kpgdir], {});
    assert {} + {stack} == {stack};
    d := FirstSpace(vm, [kpgdir], {stack});
    assert [kpgdir] + [d] == [kpgdir, d];
  }

  /** A machine with 200 frames: the kernel's own page tables, the first process and its kernel stack, and one more
      kernel stack for its child.  66 frames are left for the copy of its one page: setupkvm takes 65, the last is taken
      for the page, none is left for its page table, and nobody gives the frame back. */
  method LosesFrame(first: nat, data0: DataPage)
    returns (vm: Vm, ghost ds: seq<int>, ghost stacks: set<int>, ghost gone: set<int>)
    ensures vm.all == Range(first, 200) && |gone| == 1 && gone !! stacks && |stacks| == 2
    ensures Spaces(vm.all, vm.freelist, vm.tables, ds, stacks + gone)
  {
    hide Spaces, AllKnown, PteAt, Range, CopiedAt;
    vm := new Vm(first, 200, data0);
    var k, d, stack := Boot(vm);
    ds := [k, d];
    var stack2 := KernelFrame(vm, ds, {stack});
    stacks := {stack} + {stack2};
    var r;
    r, gone := Fork(vm, ds, stacks, d, 1, PGSIZE);
  }
}
