/** What it takes to give a file its blocks (fs.c): the places without a block, and the free blocks. */
module FileSpace {
  import opened FileBlocks

  /** The places on the way to a block of the file, its own included. */
  function Path(q: Pos): (s: set<Pos>)
    ensures forall p :: p in s && Ok(q) ==> Ok(p)
  {
    match q
    case IndEntry(_) => {Ind, q}
    case DblEntry(j, _) => {Dbl, DblBlk(j), q}
    case _ => {q}
  }

  /** The places on the way to the blocks of the file from number lo up to hi. */
  function Paths(lo: nat, hi: nat): (s: set<Pos>)
    requires lo <= hi <= MAXFILE
    ensures forall p :: p in s ==> Ok(p)
    decreases hi
  {
    if hi == lo then {} else Paths(lo, hi - 1) + Path(PosOf(hi - 1))
  }

  ghost function Lacking(blocks: seq<Block>, addrs: seq<nat>, ps: set<Pos>): set<Pos>
    requires |addrs| == NDIRECT + 2
  {
    set p | p in ps && Ok(p) && PtrAt(blocks, addrs, p) == 0
  }

  ghost function FreeBlocks(bitmap: seq<bool>): set<int> {
    set c: int | 0 <= c < |bitmap| && !bitmap[c]
  }

  /** These places have their blocks, every one that was missing taken from the free blocks; the other places are as
      they were. */
  ghost predicate Filled(bm0: seq<bool>, bl0: seq<Block>, ad0: seq<nat>, bm1: seq<bool>, bl1: seq<Block>, ad1: seq<nat>,
                         ps: set<Pos>)
    requires |ad0| == |ad1| == NDIRECT + 2
  {
    && (forall r :: Ok(r) ==> PlaceFilled(bl0, ad0, bl1, ad1, ps, r))
    && |FreeBlocks(bm0)| == |FreeBlocks(bm1)| + |Lacking(bl0, ad0, ps)|
  }

  ghost predicate PlaceFilled(bl0: seq<Block>, ad0: seq<nat>, bl1: seq<Block>, ad1: seq<nat>, ps: set<Pos>, r: Pos)
    requires |ad0| == |ad1| == NDIRECT + 2 && Ok(r)
  {
    if r in ps && PtrAt(bl0, ad0, r) == 0 then PtrAt(bl1, ad1, r) != 0
    else PtrAt(bl1, ad1, r) == PtrAt(bl0, ad0, r)
  }

  lemma {:induction false} FilledSame(bm: seq<bool>, bl0: seq<Block>, ad0: seq<nat>, bl1: seq<Block>, ad1: seq<nat>,
                                      ps: set<Pos>)
    requires |ad0| == |ad1| == NDIRECT + 2 && Lacking(bl0, ad0, ps) == {}
    requires forall r :: Ok(r) ==> PtrAt(bl1, ad1, r) == PtrAt(bl0, ad0, r)
    ensures Filled(bm, bl0, ad0, bm, bl1, ad1, ps)
  {
    hide PtrAt;
    forall r | Ok(r) ensures PlaceFilled(bl0, ad0, bl1, ad1, ps, r) {
      assert r in ps ==> r in Lacking(bl0, ad0, ps) || PtrAt(bl0, ad0, r) != 0;
    }
  }

  /** One place filled. */
  lemma {:induction false} FilledOne(bm0: seq<bool>, bl0: seq<Block>, ad0: seq<nat>, b: nat, bl1: seq<Block>,
                                     ad1: seq<nat>, p: Pos)
    requires |ad0| == |ad1| == NDIRECT + 2 && Ok(p) && PtrAt(bl0, ad0, p) == 0
    requires 0 < b < |bm0| && !bm0[b] && PtrAt(bl1, ad1, p) == b
    requires forall r :: Ok(r) && r != p ==> PtrAt(bl1, ad1, r) == PtrAt(bl0, ad0, r)
    ensures Filled(bm0, bl0, ad0, bm0[b := true], bl1, ad1, {p})
  {
    hide PtrAt;
    assert Lacking(bl0, ad0, {p}) == {p};
    assert FreeBlocks(bm0) == FreeBlocks(bm0[b := true]) + {b};
    forall r | Ok(r) ensures PlaceFilled(bl0, ad0, bl1, ad1, {p}, r) {}
  }

  /** A free block put into a place: the books are in order, the file is extended, and one place is filled. */
  lemma {:induction false} Attaches(n: nat, bitmap: seq<bool>, blocks: seq<Block>, addrs: seq<nat>, others: set<int>,
                                    p: Pos, b: nat, after: seq<Block>, q: Pos)
    requires Conserved(n, bitmap, blocks, addrs, others) && Ok(p) && PtrAt(blocks, addrs, p) == 0
    requires 0 < b < n && !bitmap[b] && Reachable(n, blocks, addrs, p) && Put(blocks, addrs, p, b, after)
    requires IsData(p) ==> p == q
    ensures var now := PutAddrs(addrs, p, b);
            && Conserved(n, bitmap[b := true], after, now, others) && PtrAt(after, now, p) == b
            && (forall r :: Ok(r) && r != p ==> PtrAt(after, now, r) == PtrAt(blocks, addrs, r))
            && Extends(blocks, addrs, after, now, others, q)
            && Filled(bitmap, blocks, addrs, bitmap[b := true], after, now, {p})
  {
    hide PtrAt, Filled, FreeBlocks, Extends, Put, PutAddrs, Reachable;
    assert |bitmap| == n && b !in others;
    hide Conserved;
    AttachConserves(n, bitmap, blocks, addrs, others, p, b, after);
    AttachExtends(n, bitmap, blocks, addrs, others, p, b, after, q);
    forall r | Ok(r) {
      Attached(n, bitmap, blocks, addrs, others, p, b, after, r);
    }
    FilledOne(bitmap, blocks, addrs, b, after, PutAddrs(addrs, p, b), p);
  }

  lemma {:induction false} FilledTwice(bm0: seq<bool>, bl0: seq<Block>, ad0: seq<nat>, bm1: seq<bool>, bl1: seq<Block>,
                                       ad1: seq<nat>, bm2: seq<bool>, bl2: seq<Block>, ad2: seq<nat>, ps: set<Pos>,
                                       qs: set<Pos>)
    requires |ad0| == |ad1| == |ad2| == NDIRECT + 2
    requires Filled(bm0, bl0, ad0, bm1, bl1, ad1, ps) && Filled(bm1, bl1, ad1, bm2, bl2, ad2, qs)
    ensures Filled(bm0, bl0, ad0, bm2, bl2, ad2, ps + qs)
  {
    hide PtrAt, FreeBlocks;
    forall r | Ok(r) ensures PlaceFilled(bl0, ad0, bl2, ad2, ps + qs, r) {
      assert PlaceFilled(bl0, ad0, bl1, ad1, ps, r) && PlaceFilled(bl1, ad1, bl2, ad2, qs, r);
    }
    LackingSplit(bl0, ad0, bl1, ad1, ps, qs);
  }

  /** What is missing at first is what is filled first and what is missing then. */
  lemma {:induction false} LackingSplit(bl0: seq<Block>, ad0: seq<nat>, bl1: seq<Block>, ad1: seq<nat>, ps: set<Pos>,
                                        qs: set<Pos>)
    requires |ad0| == |ad1| == NDIRECT + 2 && forall r :: Ok(r) ==> PlaceFilled(bl0, ad0, bl1, ad1, ps, r)
    ensures |Lacking(bl0, ad0, ps + qs)| == |Lacking(bl0, ad0, ps)| + |Lacking(bl1, ad1, qs)|
  {
    hide PtrAt;
    var x, y := Lacking(bl0, ad0, ps), Lacking(bl1, ad1, qs);
    forall r | Ok(r) ensures r in Lacking(bl0, ad0, ps + qs) <==> r in x || r in y {
      assert PlaceFilled(bl0, ad0, bl1, ad1, ps, r);
    }
    forall r | r in x ensures r !in y {
      assert PlaceFilled(bl0, ad0, bl1, ad1, ps, r);
    }
    assert Lacking(bl0, ad0, ps + qs) == x + y;
  }

  /** With a place still to be filled and no free block, there were too few from the start. */
  lemma {:induction false} TooFew(bm0: seq<bool>, bl0: seq<Block>, ad0: seq<nat>, bm1: seq<bool>, bl1: seq<Block>,
                                  ad1: seq<nat>, ps: set<Pos>, qs: set<Pos>, all: set<Pos>)
    requires |ad0| == |ad1| == NDIRECT + 2 && ps + qs <= all
    requires Filled(bm0, bl0, ad0, bm1, bl1, ad1, ps) && |FreeBlocks(bm1)| < |Lacking(bl1, ad1, qs)|
    ensures |FreeBlocks(bm0)| < |Lacking(bl0, ad0, all)|
  {
    hide PtrAt, FreeBlocks;
    LackingSplit(bl0, ad0, bl1, ad1, ps, qs);
    var part, whole := Lacking(bl0, ad0, ps + qs), Lacking(bl0, ad0, all);
    assert whole == part + (whole - part);
  }

  lemma {:induction false} NoneFree(bitmap: seq<bool>, blocks: seq<Block>, addrs: seq<nat>, p: Pos)
    requires |addrs| == NDIRECT + 2 && Ok(p) && PtrAt(blocks, addrs, p) == 0
    requires forall c :: 0 <= c < |bitmap| ==> bitmap[c]
    ensures |FreeBlocks(bitmap)| == 0 < |Lacking(blocks, addrs, {p})|
  {
    hide PtrAt;
    assert FreeBlocks(bitmap) == {};
    assert p in Lacking(blocks, addrs, {p});
  }

  lemma {:induction false} FilledAlready(bitmap: seq<bool>, blocks: seq<Block>, addrs: seq<nat>, p: Pos)
    requires |addrs| == NDIRECT + 2 && Ok(p) && PtrAt(blocks, addrs, p) != 0
    ensures Filled(bitmap, blocks, addrs, bitmap, blocks, addrs, {p})
  {
    FilledSame(bitmap, blocks, addrs, blocks, addrs, {p});
  }

  lemma {:induction false} MoreLacking(blocks: seq<Block>, addrs: seq<nat>, ps: set<Pos>, all: set<Pos>)
    requires |addrs| == NDIRECT + 2 && ps <= all
    ensures |Lacking(blocks, addrs, ps)| <= |Lacking(blocks, addrs, all)|
  {
    hide PtrAt;
    var part, whole := Lacking(blocks, addrs, ps), Lacking(blocks, addrs, all);
    assert whole == part + (whole - part);
  }

  // ----- writei -----

  /** One past the last block of the file that the first tot bytes from `off` on lie in. */
  function Behind(off: nat, tot: nat): nat {
    if tot == 0 then off / BSIZE else (off + tot - 1) / BSIZE + 1
  }

  /** The places for the blocks that tot bytes from `off` on lie in. */
  function Reach(off: nat, tot: nat): (s: set<Pos>)
    requires off + tot <= MAXFILE * BSIZE
  {
    Paths(off / BSIZE, Behind(off, tot))
  }

  /** One chunk more is one block more. */
  lemma {:induction false} ReachNext(off: nat, tot: nat, size: nat)
    requires tot < size && off + size <= MAXFILE * BSIZE && (tot == 0 || (off + tot) % BSIZE == 0)
    ensures var at := off + tot;
            var m := Chunk(at, size - tot);
            && at / BSIZE < MAXFILE && tot + m <= size
            && Reach(off, tot + m) == Reach(off, tot) + Path(PosOf(at / BSIZE))
            && PosOf(at / BSIZE) in Reach(off, tot + m)
            && Behind(off, tot) == at / BSIZE && Behind(off, tot + m) == at / BSIZE + 1
            && (tot + m == size || (off + tot + m) % BSIZE == 0)
  {
    var at := off + tot;
    var m := Chunk(at, size - tot);
    assert (at + m - 1) / BSIZE == at / BSIZE;
    assert Behind(off, tot) == at / BSIZE;
  }

  lemma {:induction false} ReachGrows(off: nat, tot: nat, size: nat)
    requires tot <= size && off + size <= MAXFILE * BSIZE
    ensures Reach(off, tot) <= Reach(off, size)
  {
    PathsGrow(off / BSIZE, Behind(off, tot), Behind(off, size));
  }

  lemma {:induction false} PathsGrow(lo: nat, mid: nat, hi: nat)
    requires lo <= mid <= hi <= MAXFILE
    ensures Paths(lo, mid) <= Paths(lo, hi)
    decreases hi
  {
    hide Path, PosOf;
    if mid < hi {
      PathsGrow(lo, mid, hi - 1);
    }
  }

  /** Writing contents fills no place. */
  lemma {:induction false} FilledData(n: nat, bm0: seq<bool>, bl0: seq<Block>, ad0: seq<nat>, bitmap: seq<bool>,
                                      blocks: seq<Block>, addrs: seq<nat>, others: set<int>, ps: set<Pos>, bn: nat,
                                      data: Block)
    requires Conserved(n, bitmap, blocks, addrs, others) && |ad0| == |addrs| == NDIRECT + 2 && bn < MAXFILE
    requires |data| == BSIZE && 0 < BlockNo(blocks, addrs, bn) < |blocks|
    requires Filled(bm0, bl0, ad0, bitmap, blocks, addrs, ps)
    ensures Filled(bm0, bl0, ad0, bitmap, blocks[BlockNo(blocks, addrs, bn) := data], addrs, ps)
  {
    var after := blocks[BlockNo(blocks, addrs, bn) := data];
    forall r | Ok(r) ensures PlaceFilled(bl0, ad0, after, addrs, ps, r) {
      DataWritten(n, bitmap, blocks, addrs, others, PosOf(bn), data, r);
      assert PlaceFilled(bl0, ad0, blocks, addrs, ps, r);
    }
  }

  // ----- the blocks of contents that a transaction logs -----

  ghost predicate DataLogged(blocks: seq<Block>, addrs: seq<nat>, logged: set<int>, lo: nat, hi: nat)
    requires |addrs| == NDIRECT + 2 && hi <= MAXFILE
  {
    forall bn :: lo <= bn < hi ==> BlockLogged(blocks, addrs, logged, bn)
  }

  ghost predicate BlockLogged(blocks: seq<Block>, addrs: seq<nat>, logged: set<int>, bn: nat)
    requires |addrs| == NDIRECT + 2 && bn < MAXFILE
  {
    BlockNo(blocks, addrs, bn) != 0 && BlockNo(blocks, addrs, bn) in logged
  }

  /** One more, and blocks that are there stay where they are. */
  lemma {:induction false} DataLoggedNext(bm0: seq<bool>, bl0: seq<Block>, ad0: seq<nat>, bm1: seq<bool>,
                                          bl1: seq<Block>, ad1: seq<nat>, ps: set<Pos>, lg0: set<int>, lg1: set<int>,
                                          lo: nat, bn: nat)
    requires |ad0| == |ad1| == NDIRECT + 2 && bn < MAXFILE && DataLogged(bl0, ad0, lg0, lo, bn) && lg0 <= lg1
    requires Filled(bm0, bl0, ad0, bm1, bl1, ad1, ps) && BlockLogged(bl1, ad1, lg1, bn)
    ensures DataLogged(bl1, ad1, lg1, lo, bn + 1)
  {
    hide PtrAt, FreeBlocks, Lacking;
    var hi := bn + 1;
    forall k | lo <= k < hi ensures BlockLogged(bl1, ad1, lg1, k) {
      if k < bn {
        assert BlockLogged(bl0, ad0, lg0, k) && PlaceFilled(bl0, ad0, bl1, ad1, ps, PosOf(k));
      }
    }
  }

  /** Different blocks of a file are different blocks of the disk. */
  lemma {:induction false} DataCount(n: nat, bitmap: seq<bool>, blocks: seq<Block>, addrs: seq<nat>, others: set<int>,
                                     logged: set<int>, lo: nat, hi: nat)
    requires Conserved(n, bitmap, blocks, addrs, others) && lo <= hi <= MAXFILE
    requires DataLogged(blocks, addrs, logged, lo, hi)
    ensures |logged| >= hi - lo
    decreases hi
  {
    if lo < hi {
      var b := BlockNo(blocks, addrs, hi - 1);
      assert BlockLogged(blocks, addrs, logged, hi - 1);
      forall k | lo <= k < hi - 1 ensures BlockLogged(blocks, addrs, logged - {b}, k) {
        assert BlockLogged(blocks, addrs, logged, k) && Apart(blocks, addrs, PosOf(k), PosOf(hi - 1));
      }
      hide PtrAt, Conserved;
      DataCount(n, bitmap, blocks, addrs, others, logged - {b}, lo, hi - 1);
    }
  }

  // ----- nothing else is logged -----

  ghost predicate InPlaces(blocks: seq<Block>, addrs: seq<nat>, ps: set<Pos>, x: int)
    requires |addrs| == NDIRECT + 2
  {
    x != 0 && exists p :: p in ps && Ok(p) && PtrAt(blocks, addrs, p) == x
  }

  /** Logged since are only bitmap blocks, of which there are m, and the blocks in these places. */
  ghost predicate LoggedOnly(lg0: set<int>, lg1: set<int>, bmapstart: nat, m: nat, blocks: seq<Block>, addrs: seq<nat>,
                             ps: set<Pos>)
    requires |addrs| == NDIRECT + 2
  {
    forall x :: x in lg1 ==> x in lg0 || bmapstart <= x < bmapstart + m || InPlaces(blocks, addrs, ps, x)
  }

  lemma {:induction false} LoggedNothing(lg: set<int>, bmapstart: nat, m: nat, blocks: seq<Block>, addrs: seq<nat>,
                                         ps: set<Pos>)
    requires |addrs| == NDIRECT + 2
    ensures LoggedOnly(lg, lg, bmapstart, m, blocks, addrs, ps)
  {}

  lemma {:induction false} LoggedPlace(lg: set<int>, bmapstart: nat, m: nat, k: nat, blocks: seq<Block>,
                                       addrs: seq<nat>, p: Pos, ps: set<Pos>)
    requires |addrs| == NDIRECT + 2 && Ok(p) && p in ps && k < m && PtrAt(blocks, addrs, p) != 0
    ensures LoggedOnly(lg, lg + {bmapstart + k, PtrAt(blocks, addrs, p)}, bmapstart, m, blocks, addrs, ps)
  {
    hide PtrAt;
    assert InPlaces(blocks, addrs, ps, PtrAt(blocks, addrs, p));
  }

  lemma {:induction false} LoggedMore(lg0: set<int>, lg1: set<int>, bmapstart: nat, m: nat, blocks: seq<Block>,
                                      addrs: seq<nat>, p: Pos, ps: set<Pos>)
    requires |addrs| == NDIRECT + 2 && Ok(p) && p in ps && PtrAt(blocks, addrs, p) != 0
    requires LoggedOnly(lg0, lg1, bmapstart, m, blocks, addrs, ps)
    ensures LoggedOnly(lg0, lg1 + {PtrAt(blocks, addrs, p)}, bmapstart, m, blocks, addrs, ps)
  {
    hide PtrAt;
    assert InPlaces(blocks, addrs, ps, PtrAt(blocks, addrs, p));
  }

  /** Places once filled keep their blocks. */
  lemma {:induction false} LoggedTwice(lg0: set<int>, lg1: set<int>, lg2: set<int>, bmapstart: nat, m: nat,
                                       bm1: seq<bool>, bl1: seq<Block>, ad1: seq<nat>, bm2: seq<bool>, bl2: seq<Block>,
                                       ad2: seq<nat>, ps: set<Pos>, qs: set<Pos>, all: set<Pos>)
    requires |ad1| == |ad2| == NDIRECT + 2 && LoggedOnly(lg0, lg1, bmapstart, m, bl1, ad1, ps)
    requires Filled(bm1, bl1, ad1, bm2, bl2, ad2, qs) && LoggedOnly(lg1, lg2, bmapstart, m, bl2, ad2, qs)
    requires ps + qs <= all
    ensures LoggedOnly(lg0, lg2, bmapstart, m, bl2, ad2, all)
  {
    hide PtrAt, FreeBlocks, Lacking;
    forall x | x in lg2 ensures x in lg0 || bmapstart <= x < bmapstart + m || InPlaces(bl2, ad2, all, x) {
      if x in lg1 && InPlaces(bl1, ad1, ps, x) {
        var p :| p in ps && Ok(p) && PtrAt(bl1, ad1, p) == x;
        assert PlaceFilled(bl1, ad1, bl2, ad2, qs, p);
      }
    }
  }

  /** Overwriting contents moves no block. */
  lemma {:induction false} LoggedData(n: nat, bitmap: seq<bool>, blocks: seq<Block>, addrs: seq<nat>, others: set<int>,
                                      bn: nat, data: Block, lg0: set<int>, lg1: set<int>, bmapstart: nat, m: nat,
                                      ps: set<Pos>)
    requires Conserved(n, bitmap, blocks, addrs, others) && |addrs| == NDIRECT + 2 && bn < MAXFILE && |data| == BSIZE
    requires 0 < BlockNo(blocks, addrs, bn) < |blocks| && PosOf(bn) in ps
    requires LoggedOnly(lg0, lg1, bmapstart, m, blocks, addrs, ps)
    ensures var b := BlockNo(blocks, addrs, bn);
            LoggedOnly(lg0, lg1 + {b}, bmapstart, m, blocks[b := data], addrs, ps)
  {
    var b := BlockNo(blocks, addrs, bn);
    forall p | Ok(p) ensures PtrAt(blocks[b := data], addrs, p) == PtrAt(blocks, addrs, p) {
      DataWritten(n, bitmap, blocks, addrs, others, PosOf(bn), data, p);
    }
    hide PtrAt, Conserved;
    forall x | x in lg1 + {b}
      ensures x in lg0 || bmapstart <= x < bmapstart + m || InPlaces(blocks[b := data], addrs, ps, x)
    {
      if x == b {
        assert PtrAt(blocks[b := data], addrs, PosOf(bn)) == b;
      } else if InPlaces(blocks, addrs, ps, x) {
        var p :| p in ps && Ok(p) && PtrAt(blocks, addrs, p) == x;
        assert PtrAt(blocks[b := data], addrs, p) == x;
      }
    }
  }

  ghost function InRange(first: nat, m: nat): (s: set<int>)
    ensures |s| == m && forall x :: x in s <==> first <= x < first + m
  {
    if m == 0 then {} else InRange(first, m - 1) + {first + m - 1}
  }

  /** Not more blocks than places and bitmap blocks. */
  lemma {:induction false} LoggedCount(lg0: set<int>, lg1: set<int>, bmapstart: nat, m: nat, blocks: seq<Block>,
                                       addrs: seq<nat>, ps: set<Pos>)
    requires |addrs| == NDIRECT + 2 && LoggedOnly(lg0, lg1, bmapstart, m, blocks, addrs, ps)
    ensures |lg1| <= |lg0| + m + |ps|
    decreases ps
  {
    hide PtrAt;
    if ps == {} {
      Fewer(lg1, lg0 + InRange(bmapstart, m));
    } else {
      var p :| p in ps;
      var b := if Ok(p) then PtrAt(blocks, addrs, p) else 0;
      var rest, less := ps - {p}, lg1 - {b};
      forall x | x in less ensures x in lg0 || bmapstart <= x < bmapstart + m || InPlaces(blocks, addrs, rest, x) {
        if InPlaces(blocks, addrs, ps, x) {
          var q :| q in ps && Ok(q) && PtrAt(blocks, addrs, q) == x;
          assert q in rest;
        }
      }
      LoggedCount(lg0, less, bmapstart, m, blocks, addrs, rest);
      Fewer(lg1, less + {b});
    }
  }

  lemma {:induction false} Fewer(a: set<int>, b: set<int>)
    requires a <= b
    ensures |a| <= |b|
  {
    assert b == a + (b - a);
  }

  /** Fewer than 128 blocks in a row have at most four pointer blocks. */
  lemma {:induction false} FewPlaces(lo: nat, hi: nat)
    requires lo <= hi <= MAXFILE && hi - lo <= NINDIRECT
    ensures |Paths(lo, hi)| <= hi - lo + 4
  {
    var j := if lo < NDIRECT + NINDIRECT then 0 else (lo - NDIRECT - NINDIRECT) / NINDIRECT;
    var extra := {Ind, Dbl, DblBlk(j), DblBlk(j + 1)};
    FewFrom(lo, hi, lo, j);
    Places(lo, hi);
    var all := Own(lo, hi) + extra;
    assert all == Paths(lo, hi) + (all - Paths(lo, hi));
  }

  /** The places of the blocks themselves. */
  function Own(lo: nat, hi: nat): set<Pos>
    requires lo <= hi <= MAXFILE
    decreases hi
  {
    if hi == lo then {} else Own(lo, hi - 1) + {PosOf(hi - 1)}
  }

  lemma {:induction false} Places(lo: nat, hi: nat)
    requires lo <= hi <= MAXFILE
    ensures |Own(lo, hi)| <= hi - lo
    decreases hi
  {
    if lo < hi {
      Places(lo, hi - 1);
    }
  }

  lemma {:induction false} FewFrom(lo: nat, hi: nat, first: nat, j: nat)
    requires first <= lo <= hi <= MAXFILE && hi - first <= NINDIRECT
    requires j == if first < NDIRECT + NINDIRECT then 0 else (first - NDIRECT - NINDIRECT) / NINDIRECT
    ensures Paths(lo, hi) <= Own(lo, hi) + {Ind, Dbl, DblBlk(j), DblBlk(j + 1)}
    decreases hi
  {
    if lo < hi {
      FewFrom(lo, hi - 1, first, j);
      var bn := hi - 1;
      assert bn >= NDIRECT + NINDIRECT ==> j <= (bn - NDIRECT - NINDIRECT) / NINDIRECT <= j + 1;
      assert Path(PosOf(bn)) <= {PosOf(bn), Ind, Dbl, DblBlk(j), DblBlk(j + 1)};
    }
  }
}
