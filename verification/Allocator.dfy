/** malloc(), free() and morecore() of umalloc.c over memory obtained from sbrk(). */
module Allocator {
  import opened FreeList

  /** User memory ends at KERNBASE (2^31 bytes), that is after this many units. */
  const MEMORY: int := 0x1000_0000

  // ----- sizes -----

  /** The number of units malloc computes, in unsigned 32-bit arithmetic. */
  function Nunits(nbytes: nat): nat {
    (nbytes + 7) % 0x1_0000_0000 / 8 + 1
  }

  /** The argument sbrk gets for nu units: an unsigned 32-bit product read as a signed int. */
  function SbrkArgument(nu: nat): int {
    var bytes := nu * 8 % 0x1_0000_0000;
    if bytes < 0x8000_0000 then bytes else bytes - 0x1_0000_0000
  }

  /** The units behind the header hold the bytes asked for, except when the rounding up wraps around. */
  lemma {:induction false} RoomForBytes(nbytes: nat)
    requires nbytes < 0x1_0000_0000
    ensures (Nunits(nbytes) - 1) * 8 >= nbytes <==> nbytes <= 0xFFFF_FFF8
    ensures nbytes <= 0xFFFF_FFF8 ==> (Nunits(nbytes) - 1) * 8 < nbytes + 8
  {}

  /** sbrk is asked for what is needed, and for more memory at all, exactly below half the address space. */
  lemma {:induction false} SbrkGrows(nbytes: nat)
    requires nbytes < 0x1_0000_0000
    ensures SbrkArgument(Nunits(nbytes)) == 8 * Nunits(nbytes) <==> Nunits(nbytes) < MEMORY
    ensures SbrkArgument(Nunits(nbytes)) > 0 <==> Nunits(nbytes) < MEMORY
  {}

  // ----- blocks handed out -----

  ghost predicate LiveAt(hdr: map<int, Header>, fs: seq<Blk>, live: map<int, nat>, base: int, b: int)
    requires b in live
  {
    && base < b && live[b] >= 1
    && b in hdr && hdr[b].size == live[b]
    && Unshared(fs, b, live[b])
  }

  /** Nothing of block (b, n) is free. */
  ghost predicate Unshared(fs: seq<Blk>, b: int, n: nat) {
    forall u :: In(u, Blk(b, n)) ==> !Has(fs, u)
  }

  ghost predicate Before(live: map<int, nat>, b: int, c: int)
    requires b in live
  {
    b < c ==> b + live[b] <= c
  }

  /** Blocks in use keep their size in the header, and overlap neither the free ones nor each other. */
  ghost predicate LiveBlocks(hdr: map<int, Header>, fs: seq<Blk>, live: map<int, nat>, base: int) {
    && (forall b :: b in live ==> LiveAt(hdr, fs, live, base, b))
    && (forall b, c :: b in live && c in live ==> Before(live, b, c))
  }

  ghost predicate LiveHas(live: map<int, nat>, u: int) {
    exists b :: b in live && In(u, Blk(b, live[b]))
  }

  /** The memory obtained from sbrk is what is free and what is in use. */
  ghost predicate Partition(arena: set<int>, fs: seq<Blk>, live: map<int, nat>) {
    forall u :: u in arena <==> Has(fs, u) || LiveHas(live, u)
  }

  lemma {:induction false} LiveHasMore(live: map<int, nat>, b: int, n: nat, u: int)
    requires b !in live
    ensures LiveHas(live[b := n], u) <==> LiveHas(live, u) || In(u, Blk(b, n))
  {
    var more := live[b := n];
    if LiveHas(live, u) {
      var c :| c in live && In(u, Blk(c, live[c]));
      assert c in more && In(u, Blk(c, more[c]));
    }
    if In(u, Blk(b, n)) {
      assert b in more && In(u, Blk(b, more[b]));
    }
  }

  lemma {:induction false} LiveHasLess(live: map<int, nat>, b: int, u: int)
    requires b in live
    ensures LiveHas(live, u) <==> LiveHas(live - {b}, u) || In(u, Blk(b, live[b]))
  {
    LiveHasMore(live - {b}, b, live[b], u);
    assert (live - {b})[b := live[b]] == live;
  }

  /** Blocks without a common unit lie one behind the other. */
  lemma {:induction false} UnsharedSeparate(fs: seq<Blk>, b: int, n: nat)
    requires Unshared(fs, b, n) && n >= 1 && fs != [] && fs[0].addr + fs[0].size <= b
    requires forall i :: 1 <= i < |fs| ==> fs[i].size >= 1
    ensures Separate(fs, b, n)
  {
    forall i | 0 <= i < |fs| ensures b + n <= fs[i].addr || fs[i].addr + fs[i].size <= b {
      var u := if b < fs[i].addr then fs[i].addr else b;
      if In(u, fs[i]) && In(u, Blk(b, n)) {
        assert Has(fs, u);
      }
    }
  }

  lemma {:induction false} SeparateUnshared(fs: seq<Blk>, b: int, n: nat)
    requires Separate(fs, b, n)
    ensures Unshared(fs, b, n)
  {}

  lemma {:induction false} UnsharedReleased(fs: seq<Blk>, b: int, n: nat, c: int, m: nat)
    requires fs != [] && Unshared(fs, c, m) && (c + m <= b || b + n <= c)
    ensures Unshared(Released(fs, b, n), c, m)
  {
    forall u | In(u, Blk(c, m)) ensures !Has(Released(fs, b, n), u) {
      ReleasedHas(fs, b, n, u);
    }
  }

  lemma {:induction false} UnsharedTaken(fs: seq<Blk>, i: nat, n: nat, c: int, m: nat)
    requires Ascending(fs) && i < |fs| && fs[i].size >= n && Unshared(fs, c, m)
    ensures Unshared(Taken(fs, i, n), c, m)
  {
    forall u | In(u, Blk(c, m)) ensures !Has(Taken(fs, i, n), u) {
      TakenHas(fs, i, n, u);
    }
  }

  lemma {:induction false} NoCommonUnit(b: int, n: nat, c: int, m: nat)
    requires n >= 1 && m >= 1 && forall u :: In(u, Blk(b, n)) ==> !In(u, Blk(c, m))
    ensures b + n <= c || c + m <= b
  {
    var u := if b < c then c else b;
    assert !(In(u, Blk(b, n)) && In(u, Blk(c, m)));
  }

  /** No block in use has a unit of block (b, n). */
  ghost predicate Unused(live: map<int, nat>, b: int, n: nat) {
    forall u :: In(u, Blk(b, n)) ==> !LiveHas(live, u)
  }

  /** One block more in use. */
  lemma {:induction false} LiveAdded(hdr: map<int, Header>, after: map<int, Header>, fs: seq<Blk>, gs: seq<Blk>,
                                     live: map<int, nat>, base: int, b: int, n: nat)
    requires LiveBlocks(hdr, fs, live, base)
    requires forall c :: c in live && c in hdr ==> c in after && after[c] == hdr[c]
    requires forall c :: c in live ==> Unshared(gs, c, live[c])
    requires b in after && after[b].size == n && n >= 1 && base < b && Unshared(gs, b, n) && Unused(live, b, n)
    ensures b !in live && LiveBlocks(after, gs, live[b := n], base)
  {
    hide Unshared, Unused, LiveHas;
    forall c | c in live ensures live[c] >= 1 && base < c && (b + n <= c || c + live[c] <= b) {
      assert LiveAt(hdr, fs, live, base, c);
      UnusedApart(live, b, n, c);
    }
    var more := live[b := n];
    forall c | c in more ensures LiveAt(after, gs, more, base, c) {
      assert c in live ==> LiveAt(hdr, fs, live, base, c);
    }
    forall c, d | c in more && d in more ensures Before(more, c, d) {
      assert c in live && d in live ==> Before(live, c, d);
    }
  }

  lemma {:induction false} UnusedApart(live: map<int, nat>, b: int, n: nat, c: int)
    requires Unused(live, b, n) && n >= 1 && c in live && live[c] >= 1
    ensures b + n <= c || c + live[c] <= b
  {
    forall u | In(u, Blk(b, n)) ensures !In(u, Blk(c, live[c])) {
      assert !LiveHas(live, u);
    }
    NoCommonUnit(b, n, c, live[c]);
  }

  /** The block before the new one stays where it is. */
  lemma {:induction false} KeepsSlot(fs: seq<Blk>, b: int, n: nat)
    requires fs != []
    ensures Slot(fs, b) < |Released(fs, b, n)| && Released(fs, b, n)[Slot(fs, b)].addr == fs[Slot(fs, b)].addr
  {}

  /** Nothing but block b and headers of free blocks changed. */
  lemma {:induction false} LiveAfterFree(hdr: map<int, Header>, after: map<int, Header>, fs: seq<Blk>,
                                         live: map<int, nat>, base: int, b: int, t: nat)
    requires LiveBlocks(hdr, fs, live, base) && b in live && Circular(hdr, fs, base) && t < |fs|
    requires forall c :: c in hdr && c != b && c != fs[t].addr ==> c in after && after[c] == hdr[c]
    ensures LiveBlocks(after, Released(fs, b, live[b]), live - {b}, base)
  {
    forall c | c in live - {b} ensures LiveAt(after, Released(fs, b, live[b]), live - {b}, base, c) {
      assert LiveAt(hdr, fs, live, base, c) && Before(live, b, c) && Before(live, c, b);
      NotFree(fs, base, c, live[c], t);
      UnsharedReleased(fs, b, live[b], c, live[c]);
    }
    forall c, d | c in live - {b} && d in live - {b} ensures Before(live - {b}, c, d) {
      assert Before(live, c, d);
    }
  }

  /** A block in use is no block of the free list. */
  lemma {:induction false} NotFree(fs: seq<Blk>, base: int, c: int, m: nat, t: nat)
    requires Unshared(fs, c, m) && m >= 1 && base < c && t < |fs| && fs[0] == Blk(base, 0)
    requires forall i :: 1 <= i < |fs| ==> fs[i].size >= 1
    ensures fs[t].addr != c
  {
    if fs[t].addr == c {
      assert In(c, fs[t]) && In(c, Blk(c, m));
    }
  }

  /** What free() can rely on about a block in use. */
  lemma {:induction false} InUse(hdr: map<int, Header>, fs: seq<Blk>, live: map<int, nat>, base: int, b: int)
    requires Circular(hdr, fs, base) && LiveBlocks(hdr, fs, live, base) && b in live
    ensures base < b && b in hdr && hdr[b].size == live[b] >= 1 && fs != []
    ensures Separate(fs, b, live[b]) && forall i :: 0 <= i < |fs| ==> fs[i].addr != b
  {
    hide Unshared, Ascending;
    assert LiveAt(hdr, fs, live, base, b);
    UnsharedSeparate(fs, b, live[b]);
    forall i | 0 <= i < |fs| ensures fs[i].addr != b {
      NotFree(fs, base, b, live[b], i);
    }
  }

  lemma {:induction false} PartitionAfterFree(arena: set<int>, fs: seq<Blk>, live: map<int, nat>, b: int)
    requires Partition(arena, fs, live) && fs != [] && b in live
    ensures Partition(arena, Released(fs, b, live[b]), live - {b})
  {
    hide Has, LiveHas, Released;
    forall u ensures u in arena <==> Has(Released(fs, b, live[b]), u) || LiveHas(live - {b}, u) {
      ReleasedHas(fs, b, live[b], u);
      LiveHasLess(live, b, u);
    }
  }

  /** The units cut from a free block go to the caller. */
  lemma {:induction false} LiveAfterTake(hdr: map<int, Header>, after: map<int, Header>, fs: seq<Blk>,
                                         live: map<int, nat>, arena: set<int>, base: int, i: nat, n: nat)
    requires Circular(hdr, fs, base) && LiveBlocks(hdr, fs, live, base) && Partition(arena, fs, live)
    requires 1 <= i < |fs| && fs[i].size >= n >= 1
    requires var q := TakenFrom(fs, i, n);
             && q in after && after[q].size == n
             && forall c :: c in live && c in hdr ==> c in after && after[c] == hdr[c]
    ensures var q := TakenFrom(fs, i, n);
            && q !in live && LiveBlocks(after, Taken(fs, i, n), live[q := n], base)
            && Partition(arena, Taken(fs, i, n), live[q := n])
  {
    var q, gs := TakenFrom(fs, i, n), Taken(fs, i, n);
    TakenOrdered(fs, i, n);
    SeparateUnshared(gs, q, n);
    forall u | In(u, Blk(q, n)) ensures !LiveHas(live, u) {
      assert In(u, fs[i]);
      NotBoth(hdr, fs, live, base, u);
    }
    hide Ascending;
    forall c | c in live ensures Unshared(gs, c, live[c]) {
      assert LiveAt(hdr, fs, live, base, c);
      UnsharedTaken(fs, i, n, c, live[c]);
    }
    assert base < q;
    hide Taken;
    LiveAdded(hdr, after, fs, gs, live, base, q, n);
    hide Has, LiveHas;
    forall u ensures u in arena <==> Has(gs, u) || LiveHas(live[q := n], u) {
      LiveHasMore(live, q, n, u);
      TakenHas(fs, i, n, u);
    }
  }

  /** No unit is free and in use. */
  lemma {:induction false} NotBoth(hdr: map<int, Header>, fs: seq<Blk>, live: map<int, nat>, base: int, u: int)
    requires LiveBlocks(hdr, fs, live, base)
    ensures !(Has(fs, u) && LiveHas(live, u))
  {
    if LiveHas(live, u) {
      var b :| b in live && In(u, Blk(b, live[b]));
      assert LiveAt(hdr, fs, live, base, b);
    }
  }

  /** Taking units touches no header of a block in use. */
  lemma {:induction false} InUseElsewhere(hdr: map<int, Header>, fs: seq<Blk>, live: map<int, nat>, base: int, i: nat,
                                          n: nat)
    requires Circular(hdr, fs, base) && LiveBlocks(hdr, fs, live, base) && 1 <= i < |fs| && fs[i].size >= n >= 1
    ensures forall c :: c in live ==> c != fs[i].addr && c != fs[i - 1].addr && c != TakenFrom(fs, i, n)
  {
    var q := TakenFrom(fs, i, n);
    assert In(q, fs[i]);
    forall c | c in live ensures c != fs[i].addr && c != fs[i - 1].addr && c != q {
      assert LiveAt(hdr, fs, live, base, c);
      NotFree(fs, base, c, live[c], i);
      NotFree(fs, base, c, live[c], i - 1);
      assert In(c, Blk(c, live[c]));
    }
  }

  lemma {:induction false} KeepsPrevious(fs: seq<Blk>, base: int, i: nat, n: nat)
    requires Ascending(fs) && 1 <= i < |fs| && fs[i].size >= n && fs[0] == Blk(base, 0)
    ensures i - 1 < |Taken(fs, i, n)| && Taken(fs, i, n)[i - 1].addr == fs[i - 1].addr >= base
    ensures TakenFrom(fs, i, n) >= base
  {
    assert fs[0].addr + fs[0].size < fs[i].addr;
  }

  /** Blocks of the list have different addresses. */
  lemma {:induction false} SameBlock(fs: seq<Blk>, i: nat, j: nat)
    requires Ascending(fs) && i < |fs| && j < |fs| && fs[i].addr == fs[j].addr
    ensures i == j
  {}

  // ----- new memory -----

  /** How much morecore asks for. */
  function Ask(nu: nat): nat {
    if nu < 4096 then 4096 else nu
  }

  function Units(b: int, n: nat): set<int> {
    set u | b <= u < b + n && In(u, Blk(b, n))
  }

  lemma {:induction false} UnitsSize(b: int, n: nat)
    ensures |Units(b, n)| == n
  {
    if n == 0 {
      assert Units(b, 0) == {};
    } else {
      UnitsSize(b, n - 1);
      assert Units(b, n) == Units(b, n - 1) + {b + n - 1};
    }
  }

  /** Memory behind everything owned is a block of its own. */
  lemma {:induction false} FreshBlock(hdr: map<int, Header>, after: map<int, Header>, fs: seq<Blk>, live: map<int, nat>,
                                      arena: set<int>, base: int, b: int, n: nat)
    requires Circular(hdr, fs, base) && LiveBlocks(hdr, fs, live, base) && Partition(arena, fs, live)
    requires base < b && n >= 1 && (forall u :: u in arena ==> u < b)
    requires b in after && after == hdr[b := after[b]] && after[b].size == n
    ensures b !in live && Circular(after, fs, base) && LiveBlocks(after, fs, live[b := n], base)
    ensures Partition(arena + Units(b, n), fs, live[b := n])
  {
    hide Ascending;
    forall u | In(u, Blk(b, n)) ensures !Has(fs, u) && !LiveHas(live, u) {
      assert u !in arena;
    }
    forall c | c in live ensures Unshared(fs, c, live[c]) && c != b {
      assert LiveAt(hdr, fs, live, base, c);
      assert In(c, Blk(c, live[c]));
      assert c in arena;
    }
    LiveAdded(hdr, after, fs, fs, live, base, b, n);
    forall i | 0 <= i < |fs| ensures HeaderAt(after, fs, i) {
      assert HeaderAt(hdr, fs, i);
      NotFree(fs, base, b, n, i);
    }
    hide Has, LiveHas;
    forall u ensures u in arena + Units(b, n) <==> Has(fs, u) || LiveHas(live[b := n], u) {
      LiveHasMore(live, b, n, u);
    }
  }

  // ----- the allocator -----

  class Heap {
    const base: int
    var hdr: map<int, Header>
    var freep: int
    ghost var fs: seq<Blk>
    ghost var at: nat
    ghost var live: map<int, nat>
    ghost var arena: set<int>

    /** Before the first call freep is null and nothing is owned; from then on freep is a block of the free list. */
    ghost predicate Valid()
      reads this
    {
      && base > 0
      && (freep == 0 ==> live == map[] && arena == {} && fs == [])
      && (freep != 0 ==> at < |fs| && fs[at].addr == freep && Circular(hdr, fs, base))
      && LiveBlocks(hdr, fs, live, base) && Partition(arena, fs, live)
      && forall u :: u in arena ==> base < u < MEMORY
    }

    /** Every unit obtained from sbrk is free or in use, never both, and no size comes near the 32 bits it is kept
        in. */
    lemma {:induction false} Conserved(u: int)
      requires Valid()
      ensures u in arena <==> Has(fs, u) || LiveHas(live, u)
      ensures !(Has(fs, u) && LiveHas(live, u))
      ensures forall i :: 0 <= i < |fs| ==> fs[i].size < MEMORY
    {
      NotBoth(hdr, fs, live, base, u);
      forall i | 0 <= i < |fs| ensures fs[i].size < MEMORY {
        var last := fs[i].addr + fs[i].size - 1;
        if freep != 0 && fs[i].size > 0 {
          assert In(last, fs[i]) && In(fs[i].addr, fs[i]);
          assert last in arena && fs[i].addr in arena;
        }
      }
    }

    constructor (base: int)
      requires base > 0
      ensures Valid() && this.base == base && live == map[] && arena == {}
    {
      this.base := base;
      hdr, freep := map[], 0;
      fs, at, live, arena := [], 0, map[], {};
    }

    /** The search loop of free(): round the list to the last block before b. */
    method FindSlot(b: int) returns (p: int)
      requires Valid() && freep != 0 && base < b && forall i :: 0 <= i < |fs| ==> fs[i].addr != b
      ensures p == fs[Slot(fs, b)].addr && p >= base
    {
      ghost var t := Slot(fs, b);
      ghost var i: nat := at;
      p := freep;
      while !(b > p && b < hdr[p].ptr)
        invariant i < |fs| && p == fs[i].addr && HeaderAt(hdr, fs, i)
        decreases if i <= t then t - i else |fs| - i + t
      {
        if p >= hdr[p].ptr && (b > p || b < hdr[p].ptr) {
          assert i + 1 == |fs|;
          break;
        }
        p := hdr[p].ptr;
        i := if i + 1 < |fs| then i + 1 else 0;
      }
      SlotIs(fs, b, i);
    }

    /** free()'s header updates: the block is joined to the block behind it, and to the one before. */
    method LinkIn(bp: int, p: int)
      requires p in hdr && bp in hdr && hdr[p].ptr in hdr
      modifies this`hdr
      ensures var mid := old(hdr)[bp := RightHeader(old(hdr), p, bp)]; hdr == mid[p := LeftHeader(mid, p, bp)]
    {
      if bp + hdr[bp].size == hdr[p].ptr {
        var next := hdr[p].ptr;
        hdr := hdr[bp := Header(hdr[next].ptr, hdr[bp].size + hdr[next].size)];
      } else {
        hdr := hdr[bp := Header(hdr[p].ptr, hdr[bp].size)];
      }
      if p + hdr[p].size == bp {
        hdr := hdr[p := Header(hdr[bp].ptr, hdr[p].size + hdr[bp].size)];
      } else {
        hdr := hdr[p := Header(bp, hdr[p].size)];
      }
    }

    /** Gives a block back: it joins the free blocks it touches. */
    method Free(ap: int)
      requires Valid() && ap - 1 in live
      modifies this
      ensures Valid() && freep != 0
      ensures fs == Released(old(fs), ap - 1, old(live)[ap - 1])
      ensures live == old(live) - {ap - 1} && arena == old(arena)
    {
      hide Partition, Released, Ascending, Unshared, Slot, Circular, LiveBlocks, Separate;
      var bp := ap - 1;
      ghost var n, hdr0 := live[bp], hdr;
      assert bp in live && freep != 0;
      InUse(hdr, fs, live, base, bp);
      var p := FindSlot(bp);
      ReleasedCircular(hdr, fs, base, bp);
      LinkIn(bp, p);
      freep := p;
      LiveAfterFree(hdr0, hdr, fs, live, base, bp, Slot(fs, bp));
      PartitionAfterFree(arena, fs, live, bp);
      KeepsSlot(fs, bp, n);
      at := Slot(fs, bp);
      fs := Released(fs, bp, n);
      live := live - {bp};
    }

    /** sbrk's answer: no memory, or the break, which lies behind everything owned, with room for the request. */
    ghost predicate Break(brk: int, nu: nat)
      reads this
    {
      brk == -1 || (brk > base && brk + Ask(nu) <= MEMORY && forall u :: u in arena ==> u < brk)
    }

    /** Gets at least 4096 units from sbrk and frees them. */
    method MoreCore(nu: nat, brk: int) returns (r: int, ghost g: nat)
      requires Valid() && freep != 0 && Break(brk, nu) && nu >= 1
      modifies this
      ensures Valid() && freep != 0 && live == old(live)
      ensures brk == -1 ==> r == 0 && fs == old(fs) && at == old(at) && arena == old(arena) && hdr == old(hdr)
      ensures brk != -1 ==> r == freep && arena == old(arena) + Units(brk, Ask(nu))
      ensures brk != -1 ==> |arena| >= |old(arena)| + 4096 && |arena| >= |old(arena)| + nu
      ensures brk != -1 ==> |arena| == |old(arena)| + 4096 || |arena| == |old(arena)| + nu
      ensures brk != -1 ==> g < |fs| && fs[g].size >= nu
    {
      hide Circular, LiveBlocks, Partition, Released, LiveAt, Unshared;
      g := 0;
      if brk == -1 {
        return 0, g;
      }
      var n := Ask(nu);
      var hp := brk;
      ghost var hdr0 := hdr;
      hdr := hdr[hp := Header(if hp in hdr then hdr[hp].ptr else 0, n)];
      FreshBlock(hdr0, hdr, fs, live, arena, base, hp, n);
      live := live[hp := n];
      UnitsSize(hp, n);
      assert arena !! Units(hp, n);
      arena := arena + Units(hp, n);
      assert live - {hp} == old(live);
      g := ReleasedHolds(fs, hp, n);
      Free(hp + 1);
      return freep, g;
    }

    /** Cuts n units off the end of block p, or takes all of it out of the list. */
    method Take(prevp: int, p: int, n: nat, ghost i: nat) returns (q: int)
      requires Valid() && freep != 0 && 1 <= i < |fs| && p == fs[i].addr && prevp == fs[i - 1].addr
               && fs[i].size >= n >= 1
      modifies this
      ensures Valid() && freep == prevp && freep != 0
      ensures fs == Taken(old(fs), i, n) && q == TakenFrom(old(fs), i, n) >= base && q !in old(live)
      ensures live == old(live)[q := n] && arena == old(arena)
    {
      hide LiveBlocks, Partition, Taken, Ascending;
      ghost var hdr0 := hdr;
      assert HeaderAt(hdr, fs, i) && HeaderAt(hdr, fs, i - 1);
      InUseElsewhere(hdr, fs, live, base, i, n);
      q := p;
      if hdr[p].size == n {
        TakenWhole(hdr, fs, base, i);
        hdr := hdr[prevp := Header(hdr[p].ptr, hdr[prevp].size)];
      } else {
        q := p + (hdr[p].size - n);
        var x := if q in hdr then hdr[q].ptr else 0;
        TakenTail(hdr, fs, base, i, n, x);
        hdr := hdr[p := Header(hdr[p].ptr, hdr[p].size - n)];
        hdr := hdr[q := Header(x, n)];
      }
      LiveAfterTake(hdr0, hdr, fs, live, arena, base, i, n);
      KeepsPrevious(fs, base, i, n);
      freep := prevp;
      at := i - 1;
      live := live[q := n];
      fs := Taken(fs, i, n);
    }

    /** Block k lies strictly between the start of the search, block `at`, and block i, going round. */
    static ghost predicate Passed(at: nat, i: nat, k: nat) {
      k != i && (if at < i then at < k < i else k > at || k < i)
    }

    /** No free block has n units. */
    static ghost predicate NoneFits(fs: seq<Blk>, n: nat) {
      forall k :: 0 <= k < |fs| ==> fs[k].size < n
    }

    /** Block i is large enough, and none that the search passes before it is. */
    static ghost predicate FirstFit(fs: seq<Blk>, at: nat, i: nat, n: nat) {
      && i < |fs| && fs[i].size >= n
      && forall k :: 0 <= k < |fs| && Passed(at, i, k) ==> fs[k].size < n
    }

    /** The first block behind freep that is large enough; otherwise memory from sbrk, which one more lap finds. */
    method Malloc(nbytes: nat, brk: int) returns (r: int, ghost i: nat)
      requires Valid() && nbytes < 0x1_0000_0000 && Nunits(nbytes) < MEMORY && Break(brk, Nunits(nbytes))
      modifies this
      ensures Valid()
      ensures r == 0 <==> brk == -1 && NoneFits(old(fs), Nunits(nbytes))
      ensures r != 0 ==> r - 1 !in old(live)
      ensures !NoneFits(old(fs), Nunits(nbytes)) ==>
                FirstFit(old(fs), old(at), i, Nunits(nbytes)) && fs == Taken(old(fs), i, Nunits(nbytes))
      ensures live == if r == 0 then old(live) else old(live)[r - 1 := Nunits(nbytes)]
      ensures arena == if brk != -1 && NoneFits(old(fs), Nunits(nbytes))
                then old(arena) + Units(brk, Ask(Nunits(nbytes))) else old(arena)
    {
      hide LiveBlocks, Partition, Circular, Taken, TakenFrom, Passed, ToGo;
      var nunits := Nunits(nbytes);
      if freep == 0 {
        Start();
      }
      BaseFirst();
      ghost var start, arena0, grown := fs, arena, false;
      ghost var g: nat := 0;
      ghost var j: nat := at;
      i := Behind(at);
      Onward(at);
      var prevp := freep;
      var p := NextOf(freep, at);
      while true
        invariant Valid() && freep != 0 && j < |fs| && i == Behind(j) < |fs| && p == fs[i].addr && prevp == fs[j].addr
        invariant live == old(live) && fs[0].size == 0 && nunits >= 1
        invariant forall k :: 0 <= k < |fs| && Passed(at, i, k) ==> fs[k].size < nunits
        invariant !grown ==> fs == start && arena == arena0 && (old(fs) != [] ==> at == old(at))
        invariant grown ==> brk != -1 && arena == arena0 + Units(brk, Ask(nunits)) && g < |fs| && fs[g].size >= nunits
        invariant grown ==> NoneFits(start, nunits)
        decreases !grown, ToGo(i)
      {
        var size := SizeOf(p, i);
        if size >= nunits {
          var q := Take(prevp, p, nunits, i);
          return q + 1, i;
        }
        if p == freep {
          FullLap(i, nunits);
          p, g := MoreCore(nunits, brk);
          if p == 0 {
            return 0, i;
          }
          BaseFirst();
          grown, i := true, at;
        }
        Onward(i);
        prevp := p;
        p := NextOf(p, i);
        j, i := i, Behind(i);
      }
    }

    /** Back at freep every block has been looked at. */
    lemma {:induction false} FullLap(i: nat, n: nat)
      requires Valid() && freep != 0 && i < |fs| && fs[i].addr == freep && fs[i].size < n
      requires forall k :: 0 <= k < |fs| && Passed(at, i, k) ==> fs[k].size < n
      ensures i == at && forall k :: 0 <= k < |fs| ==> fs[k].size < n
    {
      SameBlock(fs, i, at);
      forall k | 0 <= k < |fs| ensures fs[k].size < n {
        assert Passed(at, i, k) || k == i;
      }
    }

    /** How many blocks are left to look at. */
    ghost function ToGo(i: nat): int
      reads this
    {
      if i <= at then at - i else |fs| - i + at
    }

    /** One block further; from freep on, a new lap. */
    lemma {:induction false} Onward(i: nat)
      requires i < |fs| && at < |fs|
      ensures Behind(i) < |fs| && 0 <= ToGo(Behind(i))
      ensures i != at ==> ToGo(Behind(i)) < ToGo(i)
      ensures forall k :: 0 <= k < |fs| && Passed(at, Behind(i), k) ==> i != at && (Passed(at, i, k) || k == i)
    {}

    lemma {:induction false} BaseFirst()
      requires Valid() && freep != 0
      ensures fs != [] && fs[0].size == 0 && at < |fs| && fs[at].addr == freep
    {}

    /** The static header becomes the one block of the list. */
    method Start()
      requires Valid() && freep == 0
      modifies this
      ensures Valid() && freep != 0 && fs == [Blk(base, 0)] && live == map[] && arena == {}
    {
      hdr := hdr[base := Header(base, 0)];
      freep := base;
      fs, at := [Blk(base, 0)], 0;
      assert HeaderAt(hdr, fs, 0);
    }

    ghost function Behind(i: nat): nat
      reads this
    {
      if i + 1 < |fs| then i + 1 else 0
    }

    /** The header fields of a block of the list. */
    method NextOf(p: int, ghost i: nat) returns (q: int)
      requires Valid() && freep != 0 && i < |fs| && p == fs[i].addr
      ensures q == fs[Behind(i)].addr
    {
      assert HeaderAt(hdr, fs, i);
      q := hdr[p].ptr;
    }

    method SizeOf(p: int, ghost i: nat) returns (n: nat)
      requires Valid() && freep != 0 && i < |fs| && p == fs[i].addr
      ensures n == fs[i].size
    {
      assert HeaderAt(hdr, fs, i);
      n := hdr[p].size;
    }
  }
}
