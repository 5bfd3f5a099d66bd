/** Where an address space's page frames are (vm.c): the directory, the page tables it leads to, and the user pages
    these lead to. */
module PageFrames {

  const ENTRIES := 1024
  /** Page tables for user memory, below KERNBASE; those behind map the kernel and own no pages. */
  const USERTABLES := 512
  const USERPAGES := 524288
  const PAGES := 1048576

  /** Physical page n is frame n + 1; kalloc never gives out physical page 0. */
  type Frame = f: int | f > 0 witness 1

  datatype Pte = Absent | Present(frame: Frame, flags: int)

  type Table = seq<Pte>
  type Tables = map<int, Table>

  /** The places for frames in an address space. */
  datatype Place = Dir | Tab(i: nat) | User(v: nat)

  predicate Ok(q: Place) {
    match q
    case Dir => true
    case Tab(i) => i < ENTRIES
    case User(v) => v < USERPAGES
  }

  function FrameOf(p: Pte): int {
    if p.Present? then p.frame else 0
  }

  /** Entry j of a table; 0 is no frame. */
  function Entry(tables: Tables, f: int, j: nat): int
    requires j < ENTRIES
  {
    if f in tables && |tables[f]| == ENTRIES then FrameOf(tables[f][j]) else 0
  }

  function FrameAt(tables: Tables, d: int, q: Place): int
    requires Ok(q)
  {
    match q
    case Dir => d
    case Tab(i) => Entry(tables, d, i)
    case User(v) => Entry(tables, Entry(tables, d, v / ENTRIES), v % ENTRIES)
  }

  // ----- access -----

  /** PTE_W and PTE_U in the flags of an entry; PTE_P is that it is Present. */
  predicate Writes(flags: int) { flags / 2 % 2 == 1 }

  predicate Users(flags: int) { flags / 4 % 2 == 1 }

  function DirEntry(tables: Tables, d: int, i: nat): Pte
    requires i < ENTRIES
  {
    if d in tables && |tables[d]| == ENTRIES then tables[d][i] else Absent
  }

  /** Every page table may be used by everybody and for writing; the entries in it decide. */
  ghost predicate DirOpen(tables: Tables, d: int) {
    forall i :: 0 <= i < ENTRIES ==> OpenAt(tables, d, i)
  }

  ghost predicate OpenAt(tables: Tables, d: int, i: nat)
    requires i < ENTRIES
  {
    var e := DirEntry(tables, d, i);
    e.Present? ==> Writes(e.flags) && Users(e.flags)
  }

  lemma {:induction false} SameDir(tables: Tables, after: Tables, d: int)
    requires DirOpen(tables, d) && d in tables && d in after && after[d] == tables[d]
    ensures DirOpen(after, d)
  {
    forall i | 0 <= i < ENTRIES ensures OpenAt(after, d, i) {
      assert OpenAt(tables, d, i);
    }
  }

  lemma {:induction false} EmptyDir(tables: Tables, d: int)
    ensures DirOpen(tables[d := Empty()], d)
  {}

  lemma {:induction false} OneMoreTable(tables: Tables, d: int, i: nat, f: Frame, flags: int)
    requires d in tables && i < |tables[d]| == ENTRIES && DirOpen(tables, d) && Writes(flags) && Users(flags)
    ensures DirOpen(WithTable(tables, d, i, f, flags), d)
  {
    var after := WithTable(tables, d, i, f, flags);
    forall j | 0 <= j < ENTRIES ensures OpenAt(after, d, j) {
      assert OpenAt(tables, d, j);
    }
  }

  /** What the hardware makes of a page: where it is, and whether it can be written to, and from user mode. */
  datatype Reach = Fault | To(frame: Frame, write: bool, user: bool)

  /** The hardware's walk.  Both entries have to allow what is done; the kernel sets CR0_WP, and is held to it, too. */
  function Translate(tables: Tables, d: int, v: nat): Reach
    requires v < PAGES
  {
    var e := DirEntry(tables, d, v / ENTRIES);
    if e.Present? && e.frame in tables && |tables[e.frame]| == ENTRIES && tables[e.frame][v % ENTRIES].Present? then
      var p := tables[e.frame][v % ENTRIES];
      To(p.frame, Writes(e.flags) && Writes(p.flags), Users(e.flags) && Users(p.flags))
    else Fault
  }

  // ----- the books -----

  ghost predicate NoDup(s: seq<int>) {
    forall i, j :: 0 <= i < j < |s| ==> s[i] != s[j]
  }

  /** A frame of the address space is no free frame and nobody else's, and those that are tables are in order. */
  ghost predicate PlaceOk(all: set<int>, free: seq<int>, tables: Tables, d: int, others: set<int>, q: Place)
    requires Ok(q)
  {
    var f := FrameAt(tables, d, q);
    f != 0 ==> f in all && f !in free && f !in others && (!q.User? ==> f in tables && |tables[f]| == ENTRIES)
  }

  ghost predicate Apart(tables: Tables, d: int, q: Place, r: Place)
    requires Ok(q) && Ok(r)
  {
    FrameAt(tables, d, q) == FrameAt(tables, d, r) != 0 ==> q == r
  }

  ghost predicate Held(tables: Tables, d: int, f: int) {
    exists q :: Ok(q) && FrameAt(tables, d, q) == f
  }

  /** The free list has each frame once, and none that anybody uses. */
  ghost predicate FreeOk(all: set<int>, free: seq<int>, tables: Tables, others: set<int>) {
    && (forall f :: f in all ==> f > 0) && 0 !in tables && NoDup(free)
    && forall k :: 0 <= k < |free| ==> free[k] in all && free[k] !in others && free[k] !in tables
  }

  /** Frame conservation: every frame is free, used elsewhere, or in exactly one place of this address space. */
  ghost predicate Conserved(all: set<int>, free: seq<int>, tables: Tables, d: int, others: set<int>) {
    && d != 0 && FreeOk(all, free, tables, others)
    && (forall q :: Ok(q) ==> PlaceOk(all, free, tables, d, others, q))
    && (forall q, r :: Ok(q) && Ok(r) ==> Apart(tables, d, q, r))
    && (forall f :: f in all ==> f in free || f in others || Held(tables, d, f))
  }

  /** Every frame is free or in use, no matter where. */
  ghost predicate AllKnown(all: set<int>, free: seq<int>, tables: Tables, used: set<int>) {
    FreeOk(all, free, tables, used) && forall f :: f in all ==> f in free || f in used
  }

  // ----- taking a frame into use -----

  function Empty(): (t: Table)
    ensures |t| == ENTRIES && forall j :: 0 <= j < ENTRIES ==> t[j] == Absent
  {
    seq(ENTRIES, j => Absent)
  }

  /** A new, empty page table f as table i. */
  function WithTable(tables: Tables, d: int, i: nat, f: Frame, flags: int): Tables
    requires d in tables && i < |tables[d]|
  {
    tables[f := Empty()][d := tables[d][i := Present(f, flags)]]
  }

  /** Page v mapped by the entry p, in the page table that is there. */
  function WithPage(tables: Tables, d: int, v: nat, p: Pte): Tables
    requires v < USERPAGES && Entry(tables, d, v / ENTRIES) in tables
             && |tables[Entry(tables, d, v / ENTRIES)]| == ENTRIES
  {
    var t := Entry(tables, d, v / ENTRIES);
    tables[t := tables[t][v % ENTRIES := p]]
  }

  lemma {:induction false} TableAdded(all: set<int>, free: seq<int>, tables: Tables, d: int, others: set<int>, i: nat,
                                      g: Frame, flags: int, q: Place)
    requires Conserved(all, free, tables, d, others) && g in others && i < ENTRIES
             && FrameAt(tables, d, Tab(i)) == 0 && Ok(q)
    ensures d in tables && |tables[d]| == ENTRIES
    ensures FrameAt(WithTable(tables, d, i, g, flags), d, q) == if q == Tab(i) then g else FrameAt(tables, d, q)
  {
    assert PlaceOk(all, free, tables, d, others, Dir);
    if q.User? {
      var t := Tab(q.v / ENTRIES);
      assert PlaceOk(all, free, tables, d, others, t) && Apart(tables, d, t, Dir);
    }
  }

  lemma {:induction false} PageSet(all: set<int>, free: seq<int>, tables: Tables, d: int, others: set<int>, v: nat,
                                   p: Pte, q: Place)
    requires Conserved(all, free, tables, d, others) && v < USERPAGES && FrameAt(tables, d, Tab(v / ENTRIES)) != 0
             && Ok(q)
    ensures var t := Entry(tables, d, v / ENTRIES); t in tables && |tables[t]| == ENTRIES
    ensures FrameAt(WithPage(tables, d, v, p), d, q) == if q == User(v) then FrameOf(p) else FrameAt(tables, d, q)
  {
    var t := Tab(v / ENTRIES);
    assert PlaceOk(all, free, tables, d, others, t) && Apart(tables, d, t, Dir);
    if q.User? {
      var u := Tab(q.v / ENTRIES);
      assert Apart(tables, d, t, u);
    }
  }

  // ----- frames on their way: between the free list and a place they are the caller's, like those used elsewhere -----

  /** kalloc(): the first free frame is the caller's. */
  lemma {:induction false} Grabbed(all: set<int>, free: seq<int>, tables: Tables, d: int, others: set<int>)
    requires Conserved(all, free, tables, d, others) && free != []
    ensures Conserved(all, free[1..], tables, d, others + {free[0]}) && free[0] !in others && free[0] in all
            && free[0] !in tables
  {
    hide FrameAt;
    var rest := free[1..];
    assert forall k :: 0 <= k < |rest| ==> rest[k] == free[k + 1];
    assert forall f :: f in rest ==> f in free;
    assert forall f :: f in free ==> f == free[0] || f in rest;
    forall r | Ok(r) ensures PlaceOk(all, rest, tables, d, others + {free[0]}, r) {
      assert PlaceOk(all, free, tables, d, others, r);
    }
  }

  /** A free frame, cleared, is the directory of an address space without pages. */
  lemma {:induction false} NewSpace(all: set<int>, free: seq<int>, tables: Tables, used: set<int>)
    requires AllKnown(all, free, tables, used) && free != []
    ensures Conserved(all, free[1..], tables[free[0] := Empty()], free[0], used)
    ensures free[0] > 0 && free[0] in all && free[0] !in used && free[0] !in tables
  {
    var d, rest, after := free[0], free[1..], tables[free[0] := Empty()];
    assert forall k :: 0 <= k < |rest| ==> rest[k] == free[k + 1];
    assert forall f :: f in free ==> f == d || f in rest;
    assert FrameAt(after, d, Dir) == d;
    forall q | Ok(q) && q != Dir ensures FrameAt(after, d, q) == 0 {
      assert q.User? ==> FrameAt(after, d, Tab(q.v / ENTRIES)) == 0;
    }
    hide FrameAt;
  }

  /** kfree(): a frame of the caller's is free again. */
  lemma {:induction false} Given(all: set<int>, free: seq<int>, tables: Tables, d: int, others: set<int>, g: int)
    requires Conserved(all, free, tables, d, others + {g}) && g in all && g !in others
    ensures Conserved(all, [g] + free, tables - {g}, d, others)
    ensures forall q :: Ok(q) ==> FrameAt(tables - {g}, d, q) == FrameAt(tables, d, q)
  {
    var more, after := [g] + free, tables - {g};
    assert forall f :: f in more <==> f == g || f in free;
    assert g !in free by {
      assert forall k :: 0 <= k < |free| ==> free[k] !in others + {g};
    }
    forall q | Ok(q) ensures FrameAt(after, d, q) == FrameAt(tables, d, q) && PlaceOk(all, more, after, d, others, q) {
      assert PlaceOk(all, free, tables, d, others + {g}, q) && PlaceOk(all, free, tables, d, others + {g}, Dir);
      if q.User? {
        assert PlaceOk(all, free, tables, d, others + {g}, Tab(q.v / ENTRIES));
      }
    }
    hide FrameAt;
    forall q, r | Ok(q) && Ok(r) ensures Apart(after, d, q, r) {
      assert Apart(tables, d, q, r);
    }
    forall f | f in all ensures f in more || f in others || Held(after, d, f) {
      if Held(tables, d, f) {
        var r :| Ok(r) && FrameAt(tables, d, r) == f;
        assert FrameAt(after, d, r) == f;
      }
    }
  }

  /** A frame of the caller's put into an empty place. */
  lemma {:induction false} Placed(all: set<int>, free: seq<int>, tables: Tables, after: Tables, d: int,
                                  others: set<int>, q: Place, g: int)
    requires Conserved(all, free, tables, d, others + {g}) && g in all && g !in others && Ok(q) && q != Dir
             && FrameAt(tables, d, q) == 0
    requires forall r :: Ok(r) ==> FrameAt(after, d, r) == if r == q then g else FrameAt(tables, d, r)
    requires forall f :: f in after ==> f in tables || f == g
    requires forall f :: f in tables ==> f in after && |after[f]| == |tables[f]|
    requires q.Tab? ==> g in after && |after[g]| == ENTRIES
    ensures Conserved(all, free, after, d, others)
  {
    hide FrameAt;
    assert g !in free by {
      assert forall k :: 0 <= k < |free| ==> free[k] !in others + {g};
    }
    forall r | Ok(r) ensures PlaceOk(all, free, after, d, others, r) {
      assert PlaceOk(all, free, tables, d, others + {g}, r);
    }
    forall r, s | Ok(r) && Ok(s) ensures Apart(after, d, r, s) {
      assert Apart(tables, d, r, s);
      assert PlaceOk(all, free, tables, d, others + {g}, r) && PlaceOk(all, free, tables, d, others + {g}, s);
    }
    forall f | f in all ensures f in free || f in others || Held(after, d, f) {
      HeldMore(tables, after, d, q, g, f);
    }
    forall k | 0 <= k < |free| ensures free[k] in all && free[k] !in others && free[k] !in after {
      var f := free[k];
      assert f !in others + {g} && f !in tables;
      assert f in after ==> f in tables || f == g;
    }
  }

  lemma {:induction false} HeldMore(tables: Tables, after: Tables, d: int, q: Place, g: int, f: int)
    requires Ok(q) && FrameAt(tables, d, q) == 0 && f != 0
    requires forall r :: Ok(r) ==> FrameAt(after, d, r) == if r == q then g else FrameAt(tables, d, r)
    ensures f == g || Held(tables, d, f) ==> Held(after, d, f)
  {
    hide FrameAt;
    if f == g {
      assert FrameAt(after, d, q) == f;
    } else if Held(tables, d, f) {
      var r :| Ok(r) && FrameAt(tables, d, r) == f;
      assert FrameAt(after, d, r) == f;
    }
  }

  /** The frame taken out of a user page's place is the caller's. */
  lemma {:induction false} Unplaced(all: set<int>, free: seq<int>, tables: Tables, after: Tables, d: int,
                                    others: set<int>, v: nat)
    requires Conserved(all, free, tables, d, others) && v < USERPAGES && FrameAt(tables, d, User(v)) != 0
    requires forall r :: Ok(r) ==> FrameAt(after, d, r) == if r == User(v) then 0 else FrameAt(tables, d, r)
    requires after.Keys == tables.Keys && forall f :: f in after ==> |after[f]| == |tables[f]|
    ensures Conserved(all, free, after, d, others + {FrameAt(tables, d, User(v))})
    ensures FrameAt(tables, d, User(v)) in all && FrameAt(tables, d, User(v)) !in others
  {
    hide FrameAt;
    var g := FrameAt(tables, d, User(v));
    assert PlaceOk(all, free, tables, d, others, User(v));
    forall r | Ok(r) ensures PlaceOk(all, free, after, d, others + {g}, r) {
      assert PlaceOk(all, free, tables, d, others, r) && Apart(tables, d, r, User(v));
    }
    forall r, s | Ok(r) && Ok(s) ensures Apart(after, d, r, s) {
      assert Apart(tables, d, r, s);
    }
    forall f | f in all ensures f in free || f in others + {g} || Held(after, d, f) {
      if Held(tables, d, f) && f != g {
        var r :| Ok(r) && FrameAt(tables, d, r) == f;
        assert FrameAt(after, d, r) == f;
      }
    }
  }

  // ----- frames of others -----

  /** Nothing about these frames has changed. */
  ghost predicate SameFor<D>(tables: Tables, data: map<int, D>, after: Tables, now: map<int, D>, others: set<int>) {
    forall f :: f in others ==> SameFrame(tables, data, after, now, f)
  }

  ghost predicate SameFrame<D>(tables: Tables, data: map<int, D>, after: Tables, now: map<int, D>, f: int) {
    && (f in tables <==> f in after) && (f in tables && f in after ==> after[f] == tables[f])
    && (f in data <==> f in now) && (f in data && f in now ==> now[f] == data[f])
  }

  /** An address space all of whose frames belong to others is as it was. */
  lemma {:induction false} Untouched<D>(tables: Tables, data: map<int, D>, after: Tables, now: map<int, D>,
                                        others: set<int>, d: int, q: Place)
    requires SameFor(tables, data, after, now, others) && Ok(q) && 0 !in tables && 0 !in after
    requires forall r :: Ok(r) && FrameAt(tables, d, r) != 0 ==> FrameAt(tables, d, r) in others
    ensures FrameAt(after, d, q) == FrameAt(tables, d, q)
    ensures FrameAt(tables, d, q) != 0 ==> SameFrame(tables, data, after, now, FrameAt(tables, d, q))
  {
    assert FrameAt(tables, d, Dir) == d;
    assert d != 0 ==> SameFrame(tables, data, after, now, d);
    if q.User? {
      var t := Tab(q.v / ENTRIES);
      assert FrameAt(tables, d, t) != 0 ==> SameFrame(tables, data, after, now, FrameAt(tables, d, t));
      assert FrameAt(tables, d, q) != 0 ==> FrameAt(tables, d, q) in others;
    } else {
      assert FrameAt(tables, d, q) != 0 ==> FrameAt(tables, d, q) in others;
    }
  }
}
