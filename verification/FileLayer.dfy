/** The block allocator and file contents of the xv6 file system (fs.c).  Blocks are seen through the buffer cache: the
    contents here are the cached ones, those of the bitmap blocks in `maps`, and `logged` collects the blocks handed to
    log_write.  One inode is followed; `others` are the blocks in use for anything else. */
module FileLayer {
  import opened FileBitmap
  import opened FileBlocks
  import opened FileSpace

  function Min(a: nat, b: nat): nat {
    if a < b then a else b
  }

  /** The bitmap block with block b's bit. */
  function BBlock(b: nat, bmapstart: nat): nat {
    b / BPB + bmapstart
  }

  /** Whatever changed, in the bitmap blocks and in all the others but block `but`, was handed to log_write. */
  ghost predicate Recorded(maps: seq<Block>, blocks: seq<Block>, now: seq<Block>, after: seq<Block>, logged: set<int>,
                           more: set<int>, bmapstart: nat, but: int)
  {
    && |maps| == |now| && |blocks| == |after| && logged <= more
    && (forall c :: 0 <= c < |blocks| && after[c] != blocks[c] ==> c in more || c == but)
    && (forall k :: 0 <= k < |maps| && now[k] != maps[k] ==> bmapstart + k in more)
  }

  lemma {:induction false} RecordedTwice(mp0: seq<Block>, bl0: seq<Block>, mp1: seq<Block>, bl1: seq<Block>,
                                         mp2: seq<Block>, bl2: seq<Block>,
                                         lg0: set<int>, lg1: set<int>, lg2: set<int>, lg3: set<int>, logged: set<int>,
                                         bmapstart: nat, but1: int, but2: int)
    requires Recorded(mp0, bl0, mp1, bl1, lg0, lg1, bmapstart, but1)
             && Recorded(mp1, bl1, mp2, bl2, lg2, lg3, bmapstart, but2)
    requires lg1 <= logged && lg3 <= logged && (but1 < 0 || but1 in logged) && (but2 < 0 || but2 in logged)
    ensures Recorded(mp0, bl0, mp2, bl2, lg0, logged, bmapstart, -1)
  {}

  /** Logged since are only bitmap blocks. */
  ghost predicate OnlyMaps(lg0: set<int>, lg1: set<int>, bmapstart: nat, m: nat) {
    forall x :: x in lg1 ==> x in lg0 || bmapstart <= x < bmapstart + m
  }

  lemma {:induction false} PutEntry(n: nat, blocks: seq<Block>, zeroed: seq<Block>, addrs: seq<nat>, p: Pos, b: nat,
                                    parent: nat, after: seq<Block>)
    requires |blocks| == n < 0x1_0000_0000 && |addrs| == NDIRECT + 2 && Ok(p) && !InInode(p) && Ok(Parent(p))
    requires b < n && parent < n && parent != b && zeroed == blocks[b := Zeros()] && |blocks[parent]| == BSIZE
    requires parent == PtrAt(blocks, addrs, Parent(p)) && parent != 0 && Index(p) < NINDIRECT
    requires after == zeroed[parent := SetWord(zeroed[parent], Index(p), b)]
    ensures Reachable(n, blocks, addrs, p) && Put(blocks, addrs, p, b, after) && PutAddrs(addrs, p, b) == addrs
  {
    hide PtrAt, SetWord, Zeros;
  }

  class Inode {
    var addrs: seq<nat>
    var size: nat

    constructor ()
      ensures addrs == seq(NDIRECT + 2, i => 0) && size == 0
    {
      addrs, size := seq(NDIRECT + 2, i => 0), 0;
    }
  }

  lemma {:induction false} Longer(s: seq<Byte>, off: nat, tot: nat, m: nat)
    requires off + tot + m <= |s|
    ensures s[off..off + tot] + s[off + tot..off + tot + m] == s[off..off + tot + m]
  {}

  class FileSystem {
    const n: nat
    const bmapstart: nat
    var maps: seq<Block>          // the bitmap blocks, bmapstart and on
    var blocks: seq<Block>
    var logged: set<int>
    ghost var bitmap: seq<bool>   // the marks in them
    ghost var others: set<int>

    /** The books of the file system and this file are in order. */
    ghost predicate Good(ip: Inode)
      reads this, ip
    {
      && |bitmap| == |blocks| == n && |ip.addrs| == NDIRECT + 2 && Conserved(n, bitmap, blocks, ip.addrs, others)
      && Encoded(n, bitmap, maps)
    }

    /** A disk on which the bitmap marks exactly the blocks in use; a new inode is a file without blocks. */
    constructor (n: nat, bmapstart: nat, maps: seq<Block>, blocks: seq<Block>, ghost bitmap: seq<bool>,
                 ghost others: set<int>, ip: Inode)
      requires Encoded(n, bitmap, maps)
      requires |bitmap| == |blocks| == n < 0x1_0000_0000 && n > 0 && bitmap[0] && 0 in others
      requires forall b :: 0 <= b < n ==> |blocks[b]| == BSIZE && (bitmap[b] <==> b in others)
      requires |ip.addrs| == NDIRECT + 2 && ip.size == 0 && forall k :: 0 <= k < |ip.addrs| ==> ip.addrs[k] == 0
      ensures FileOk(ip) && Bytes(ip) == [] && this.others == others
    {
      this.n, this.bmapstart, this.maps, this.blocks, this.bitmap, this.others :=
        n, bmapstart, maps, blocks, bitmap, others;
      logged := {};
      new;
      NoPlaces(blocks, ip.addrs);
      hide PtrAt;
    }

    /** The disk as it is when the machine is switched on. */
    constructor Mount(n: nat, bmapstart: nat, maps: seq<Block>, blocks: seq<Block>, ghost bitmap: seq<bool>)
      requires Encoded(n, bitmap, maps)
      ensures this.n == n && this.bmapstart == bmapstart && this.maps == maps && this.blocks == blocks
      ensures this.bitmap == bitmap && logged == {}
    {
      this.n, this.bmapstart, this.maps, this.blocks, this.bitmap := n, bmapstart, maps, blocks, bitmap;
      logged, others := {}, {0};
    }

    /** The first free block, zeroed and marked as used; -1 for the panic when there is none. */
    method Balloc(ghost ip: Inode) returns (b: int)
      requires Good(ip)
      modifies this`bitmap, this`maps, this`blocks, this`logged
      ensures b == -1 ==>
                (forall c :: 0 <= c < |bitmap| ==> bitmap[c]) && bitmap == old(bitmap) && maps == old(maps)
                && blocks == old(blocks) && logged == old(logged)
      ensures b != -1 ==> 0 < b < n && !old(bitmap)[b] && forall c :: 0 <= c < b ==> old(bitmap)[c]
      ensures b != -1 ==> bitmap == old(bitmap)[b := true] && blocks == old(blocks)[b := Zeros()]
      ensures Encoded(n, bitmap, maps)
      ensures b != -1 ==> logged == old(logged) + {BBlock(b, bmapstart), b} && b / BPB < |maps|
      ensures Recorded(old(maps), old(blocks), maps, blocks, old(logged), logged, bmapstart, -1)
    {
      hide Zeros, PtrAt, Encoded, Bit, Marked;
      var base := 0;
      while base < n
        invariant 0 <= base && base % BPB == 0 && unchanged(this)
        invariant forall c :: 0 <= c < base && c < n ==> bitmap[c]
      {
        var x, k := BBlock(base, bmapstart), base / BPB;
        var bi := 0;
        while bi < BPB && base + bi < n
          invariant 0 <= bi <= BPB && unchanged(this)
          invariant forall c :: 0 <= c < base + bi && c < n ==> bitmap[c]
        {
          MarkOf(n, bitmap, maps, k, bi);
          var data := maps[x - bmapstart];
          if !Bit(data[bi / 8], bi % 8) {
            OneMark(n, bitmap, maps, k, bi, true);
            maps, bitmap := maps[x - bmapstart := Marked(data, bi, true)], bitmap[base + bi := true];
            logged := logged + {x};
            blocks := blocks[base + bi := Zeros()];
            logged := logged + {base + bi};
            return base + bi;
          }
          bi := bi + 1;
        }
        base := base + BPB;
      }
      return -1;
    }

    /** Marks a block as free; false for the panic when it is free already. */
    method Bfree(b: nat) returns (ok: bool)
      requires b < n && Encoded(n, bitmap, maps)
      modifies this`bitmap, this`maps, this`logged
      ensures |old(bitmap)| == n && ok == old(bitmap)[b] && Encoded(n, bitmap, maps)
      ensures bitmap == if ok then old(bitmap)[b := false] else old(bitmap)
      ensures logged == if ok then old(logged) + {BBlock(b, bmapstart)} else old(logged)
      ensures bmapstart <= BBlock(b, bmapstart) < bmapstart + |maps|
      ensures Recorded(old(maps), blocks, maps, blocks, old(logged), logged, bmapstart, -1)
    {
      hide Bit, Marked;
      var x, bi := BBlock(b, bmapstart), b % BPB;
      MarkOf(n, bitmap, maps, b / BPB, bi);
      OneMark(n, bitmap, maps, b / BPB, bi, false);
      hide Encoded;
      var data := maps[x - bmapstart];
      if !Bit(data[bi / 8], bi % 8) {
        return false;
      }
      maps, bitmap := maps[x - bmapstart := Marked(data, bi, false)], bitmap[b := false];
      logged := logged + {x};
      return true;
    }

    // ----- bmap -----

    /** A pointer of the inode; a block is attached if it is 0. */
    method FillInode(ip: Inode, slot: nat, ghost p: Pos, ghost q: Pos) returns (addr: int)
      requires Good(ip) && slot < NDIRECT + 2 && InInode(p) && Ok(p) && (IsData(p) ==> p == q)
      requires p == if slot < NDIRECT then Direct(slot) else if slot == NDIRECT then Ind else Dbl
      modifies this`bitmap, this`maps, this`blocks, this`logged, ip`addrs
      ensures addr != -1 ==> Good(ip) && addr == PtrAt(blocks, ip.addrs, p) && 0 < addr < n
      ensures addr != -1 ==> Extends(old(blocks), old(ip.addrs), blocks, ip.addrs, others, q)
      ensures addr != -1 ==> forall r :: Ok(r) && r != p ==>
                PtrAt(blocks, ip.addrs, r) == PtrAt(old(blocks), old(ip.addrs), r)
      ensures old(PtrAt(blocks, ip.addrs, p)) != 0 ==>
                && addr == old(PtrAt(blocks, ip.addrs, p)) && blocks == old(blocks) && bitmap == old(bitmap)
                && maps == old(maps) && ip.addrs == old(ip.addrs) && logged == old(logged)
      ensures addr != -1 && old(PtrAt(blocks, ip.addrs, p)) == 0 ==> blocks[addr] == Zeros()
      ensures addr == -1 ==> forall c :: 0 <= c < |bitmap| ==> bitmap[c]
      ensures addr != -1 ==> Filled(old(bitmap), old(blocks), old(ip.addrs), bitmap, blocks, ip.addrs, {p})
      ensures addr == -1 ==> |FreeBlocks(old(bitmap))| < |Lacking(old(blocks), old(ip.addrs), {p})|
      ensures Recorded(old(maps), old(blocks), maps, blocks, old(logged), logged, bmapstart, -1)
      ensures addr != -1 ==> LoggedOnly(old(logged), logged, bmapstart, |maps|, blocks, ip.addrs, {p})
    {
      assert ip.addrs[slot] == PtrAt(blocks, ip.addrs, p);
      hide Conserved, Extends, Zeros, PtrAt, Filled, FreeBlocks, Lacking, LoggedOnly;
      addr := ip.addrs[slot];
      PlaceOk(n, bitmap, blocks, ip.addrs, others, p);
      if addr != 0 {
        ExtendsSelf(blocks, ip.addrs, others, q);
        FilledAlready(bitmap, blocks, ip.addrs, p);
        LoggedNothing(logged, bmapstart, |maps|, blocks, ip.addrs, {p});
        return;
      }
      addr := Balloc(ip);
      if addr == -1 {
        NoneFree(bitmap, blocks, ip.addrs, p);
        return;
      }
      Attaches(n, old(bitmap), old(blocks), ip.addrs, others, p, addr, blocks, q);
      ip.addrs := ip.addrs[slot := addr];
      LoggedPlace(old(logged), bmapstart, |maps|, addr / BPB, blocks, ip.addrs, p, {p});
    }

    /** An entry of a pointer block; a block is attached if it is 0, and the pointer block is not logged yet. */
    method FillEntry(ghost ip: Inode, parent: nat, j: nat, ghost p: Pos, ghost q: Pos) returns (addr: int, made: bool)
      requires Good(ip) && Ok(p) && !InInode(p) && (IsData(p) ==> p == q)
      requires j == Index(p) && Ok(Parent(p)) && parent == PtrAt(blocks, ip.addrs, Parent(p)) && parent != 0
      modifies this`bitmap, this`maps, this`blocks, this`logged
      ensures addr != -1 ==> Good(ip) && addr == PtrAt(blocks, ip.addrs, p) && 0 < addr < n
      ensures addr != -1 ==> Extends(old(blocks), ip.addrs, blocks, ip.addrs, others, q)
      ensures addr != -1 ==> forall r :: Ok(r) && r != p ==>
                PtrAt(blocks, ip.addrs, r) == PtrAt(old(blocks), ip.addrs, r)
      ensures addr != -1 ==> (made <==> old(PtrAt(blocks, ip.addrs, p)) == 0)
      ensures old(PtrAt(blocks, ip.addrs, p)) != 0 ==>
                && addr == old(PtrAt(blocks, ip.addrs, p)) && blocks == old(blocks) && bitmap == old(bitmap)
                && maps == old(maps) && logged == old(logged)
      ensures addr != -1 && old(PtrAt(blocks, ip.addrs, p)) == 0 ==> blocks[addr] == Zeros()
      ensures addr == -1 ==> forall c :: 0 <= c < |bitmap| ==> bitmap[c]
      ensures addr != -1 ==> Filled(old(bitmap), old(blocks), ip.addrs, bitmap, blocks, ip.addrs, {p})
      ensures addr == -1 ==> |FreeBlocks(old(bitmap))| < |Lacking(old(blocks), ip.addrs, {p})|
      ensures Recorded(old(maps), old(blocks), maps, blocks, old(logged), logged, bmapstart, parent)
      ensures addr != -1 ==> LoggedOnly(old(logged), logged, bmapstart, |maps|, blocks, ip.addrs, {p})
    {
      hide Conserved, Encoded, Extends, Zeros, PtrAt, Word, SetWord, Filled, FreeBlocks, Lacking, LoggedOnly, PutAddrs,
           Reachable, Put;
      PlaceOk(n, bitmap, blocks, ip.addrs, others, p);
      PlaceOk(n, bitmap, blocks, ip.addrs, others, Parent(p));
      ThroughParent(blocks, ip.addrs, p);
      addr, made := Word(blocks[parent], j), false;
      if addr != 0 {
        ExtendsSelf(blocks, ip.addrs, others, q);
        FilledAlready(bitmap, blocks, ip.addrs, p);
        LoggedNothing(logged, bmapstart, |maps|, blocks, ip.addrs, {p});
        return;
      }
      addr := Balloc(ip);
      if addr == -1 {
        NoneFree(bitmap, blocks, ip.addrs, p);
        return;
      }
      made := true;
      ghost var zeroed := blocks;
      blocks := blocks[parent := SetWord(blocks[parent], j, addr)];
      PutEntry(n, old(blocks), zeroed, ip.addrs, p, addr, parent, blocks);
      Attaches(n, old(bitmap), old(blocks), ip.addrs, others, p, addr, blocks, q);
      LoggedPlace(old(logged), bmapstart, |maps|, addr / BPB, blocks, ip.addrs, p, {p});
    }

    /** The disk block with block bn of the file, attached if there is none yet; -1 for the kernel's panics. */
    method Bmap(ip: Inode, bn: nat) returns (addr: int)
      requires Good(ip)
      modifies this`bitmap, this`maps, this`blocks, this`logged, ip`addrs
      ensures addr == -1 ==> bn >= MAXFILE || forall c :: 0 <= c < |bitmap| ==> bitmap[c]
      ensures addr == -1 <==>
                bn >= MAXFILE || |FreeBlocks(old(bitmap))| < |Lacking(old(blocks), old(ip.addrs), Path(PosOf(bn)))|
      ensures addr != -1 ==> bn < MAXFILE && Good(ip) && addr == BlockNo(blocks, ip.addrs, bn) && 0 < addr < n
      ensures addr != -1 ==> Extends(old(blocks), old(ip.addrs), blocks, ip.addrs, others, PosOf(bn))
      ensures addr != -1 ==> Recorded(old(maps), old(blocks), maps, blocks, old(logged), logged, bmapstart, -1)
      ensures bn < MAXFILE && old(BlockNo(blocks, ip.addrs, bn)) != 0 ==>
                blocks == old(blocks) && bitmap == old(bitmap) && maps == old(maps) && ip.addrs == old(ip.addrs)
                && logged == old(logged) && addr == old(BlockNo(blocks, ip.addrs, bn))
      ensures addr != -1 && old(BlockNo(blocks, ip.addrs, bn)) == 0 ==> blocks[addr] == Zeros()
      ensures addr != -1 ==>
                Filled(old(bitmap), old(blocks), old(ip.addrs), bitmap, blocks, ip.addrs, Path(PosOf(bn)))
      ensures addr != -1 ==>
                LoggedOnly(old(logged), logged, bmapstart, |maps|, blocks, ip.addrs, Path(PosOf(bn)))
    {
      hide Conserved, Extends, Zeros, PtrAt, Word, SetWord, Filled, FreeBlocks, Lacking, LoggedOnly;
      ghost var bm0, bl0, ad0 := bitmap, blocks, ip.addrs;
      addr := -1;
      var m := bn;
      if m < NDIRECT {
        addr := FillInode(ip, m, Direct(m), PosOf(bn));
      } else {
        m := m - NDIRECT;
        if m < NINDIRECT {
          addr := BmapIndirect(ip, m);
        } else {
          m := m - NINDIRECT;
          if m < NDINDIRECT {
            addr := BmapDouble(ip, m / NINDIRECT, m % NINDIRECT);
          }
        }
      }
      if addr != -1 {
        EnoughBlocks(bm0, bl0, ad0, bitmap, blocks, ip.addrs, Path(PosOf(bn)));
      }
    }

    /** Through the indirect block. */
    method BmapIndirect(ip: Inode, m: nat) returns (addr: int)
      requires Good(ip) && m < NINDIRECT
      modifies this`bitmap, this`maps, this`blocks, this`logged, ip`addrs
      ensures addr == -1 ==> forall c :: 0 <= c < |bitmap| ==> bitmap[c]
      ensures addr != -1 ==> Good(ip) && addr == PtrAt(blocks, ip.addrs, IndEntry(m)) && 0 < addr < n
      ensures addr != -1 ==> Extends(old(blocks), old(ip.addrs), blocks, ip.addrs, others, IndEntry(m))
      ensures addr != -1 ==> Recorded(old(maps), old(blocks), maps, blocks, old(logged), logged, bmapstart, -1)
      ensures old(PtrAt(blocks, ip.addrs, IndEntry(m))) != 0 ==>
                blocks == old(blocks) && bitmap == old(bitmap) && maps == old(maps) && ip.addrs == old(ip.addrs)
                && logged == old(logged) && addr == old(PtrAt(blocks, ip.addrs, IndEntry(m)))
      ensures addr != -1 && old(PtrAt(blocks, ip.addrs, IndEntry(m))) == 0 ==> blocks[addr] == Zeros()
      ensures addr != -1 ==>
                Filled(old(bitmap), old(blocks), old(ip.addrs), bitmap, blocks, ip.addrs, Path(IndEntry(m)))
      ensures addr == -1 ==> |FreeBlocks(old(bitmap))| < |Lacking(old(blocks), old(ip.addrs), Path(IndEntry(m)))|
      ensures addr != -1 ==>
                LoggedOnly(old(logged), logged, bmapstart, |maps|, blocks, ip.addrs, Path(IndEntry(m)))
    {
      hide Conserved, Extends, Zeros, PtrAt, Word, SetWord, Filled, FreeBlocks, Lacking, LoggedOnly;
      ghost var q := IndEntry(m);
      ThroughParent(blocks, ip.addrs, q);
      ghost var bl0, ad0 := blocks, ip.addrs;
      addr := FillInode(ip, NDIRECT, Ind, q);
      if addr == -1 {
        MoreLacking(bl0, ad0, {Ind}, Path(q));
        return;
      }
      var parent := addr;
      ThroughParent(blocks, ip.addrs, q);
      ghost var mp1, bm1, bl1, ad1, lg1 := maps, bitmap, blocks, ip.addrs, logged;
      var made;
      addr, made := FillEntry(ip, parent, m, q, q);
      if addr == -1 {
        TooFew(old(bitmap), bl0, ad0, bm1, bl1, ad1, {Ind}, {q}, Path(q));
        return;
      }
      FilledTwice(old(bitmap), bl0, ad0, bm1, bl1, ad1, bitmap, blocks, ip.addrs, {Ind}, {q});
      assert {Ind} + {q} == Path(q);
      ExtendsTwice(bl0, ad0, bl1, ad1, blocks, ip.addrs, others, q);
      ghost var lg2 := logged;
      LoggedTwice(old(logged), lg1, lg2, bmapstart, |maps|, bm1, bl1, ad1, bitmap, blocks, ip.addrs, {Ind}, {q},
          Path(q));
      if made {
        LoggedMore(old(logged), lg2, bmapstart, |maps|, blocks, ip.addrs, Ind, Path(q));
        logged := logged + {parent};
        RecordedTwice(old(maps), bl0, mp1, bl1, maps, blocks, old(logged), lg1, lg1, lg2, logged, bmapstart, -1,
            parent);
      }
    }

    /** Through the double-indirect block and one of the blocks it leads to. */
    method BmapDouble(ip: Inode, j: nat, k: nat) returns (addr: int)
      requires Good(ip) && j < NINDIRECT && k < NINDIRECT
      modifies this`bitmap, this`maps, this`blocks, this`logged, ip`addrs
      ensures addr == -1 ==> forall c :: 0 <= c < |bitmap| ==> bitmap[c]
      ensures addr != -1 ==> Good(ip) && addr == PtrAt(blocks, ip.addrs, DblEntry(j, k)) && 0 < addr < n
      ensures addr != -1 ==> Extends(old(blocks), old(ip.addrs), blocks, ip.addrs, others, DblEntry(j, k))
      ensures addr != -1 ==> Recorded(old(maps), old(blocks), maps, blocks, old(logged), logged, bmapstart, -1)
      ensures old(PtrAt(blocks, ip.addrs, DblEntry(j, k))) != 0 ==>
                blocks == old(blocks) && bitmap == old(bitmap) && maps == old(maps) && ip.addrs == old(ip.addrs)
                && logged == old(logged) && addr == old(PtrAt(blocks, ip.addrs, DblEntry(j, k)))
      ensures addr != -1 && old(PtrAt(blocks, ip.addrs, DblEntry(j, k))) == 0 ==> blocks[addr] == Zeros()
      ensures addr != -1 ==>
                Filled(old(bitmap), old(blocks), old(ip.addrs), bitmap, blocks, ip.addrs, Path(DblEntry(j, k)))
      ensures addr == -1 ==> |FreeBlocks(old(bitmap))| < |Lacking(old(blocks), old(ip.addrs), Path(DblEntry(j, k)))|
      ensures addr != -1 ==>
                LoggedOnly(old(logged), logged, bmapstart, |maps|, blocks, ip.addrs, Path(DblEntry(j, k)))
    {
      hide Conserved, Extends, Zeros, PtrAt, Word, SetWord, Filled, FreeBlocks, Lacking, LoggedOnly;
      ghost var q := DblEntry(j, k);
      ThroughParent(blocks, ip.addrs, q);
      ThroughParent(blocks, ip.addrs, DblBlk(j));
      ghost var bl0, ad0, lg0 := blocks, ip.addrs, logged;
      addr := FillInode(ip, NDIRECT + 1, Dbl, q);
      if addr == -1 {
        MoreLacking(bl0, ad0, {Dbl}, Path(q));
        return;
      }
      var dbl := addr;
      ghost var bl1, ad1, bm1, mp1, lg1 := blocks, ip.addrs, bitmap, maps, logged;
      var made1, made;
      addr, made1 := FillEntry(ip, dbl, j, DblBlk(j), q);
      if addr == -1 {
        TooFew(old(bitmap), bl0, ad0, bm1, bl1, ad1, {Dbl}, {DblBlk(j)}, Path(q));
        return;
      }
      FilledTwice(old(bitmap), bl0, ad0, bm1, bl1, ad1, bitmap, blocks, ip.addrs, {Dbl}, {DblBlk(j)});
      var blk := addr;
      ExtendsTwice(bl0, ad0, bl1, ad1, blocks, ip.addrs, others, q);
      ghost var bl2, bm2, mp2, lg2 := blocks, bitmap, maps, logged;
      LoggedTwice(lg0, lg1, lg2, bmapstart, |maps|, bm1, bl1, ad1, bm2, bl2, ad1, {Dbl}, {DblBlk(j)},
          {Dbl} + {DblBlk(j)});
      addr, made := FillEntry(ip, blk, k, q, q);
      if addr == -1 {
        TooFew(old(bitmap), bl0, ad0, bm2, bl2, ad1, {Dbl} + {DblBlk(j)}, {q}, Path(q));
        return;
      }
      FilledTwice(old(bitmap), bl0, ad0, bm2, bl2, ad1, bitmap, blocks, ip.addrs, {Dbl} + {DblBlk(j)}, {q});
      assert {Dbl} + {DblBlk(j)} + {q} == Path(q);
      ExtendsTwice(bl0, ad0, bl2, ad1, blocks, ip.addrs, others, q);
      ghost var lg3 := logged;
      LoggedTwice(lg0, lg2, lg3, bmapstart, |maps|, bm2, bl2, ad1, bitmap, blocks, ip.addrs, {Dbl} + {DblBlk(j)}, {q},
          Path(q));
      if made {
        LoggedMore(lg0, lg3, bmapstart, |maps|, blocks, ip.addrs, DblBlk(j), Path(q));
        LoggedMore(lg0, lg3 + {blk}, bmapstart, |maps|, blocks, ip.addrs, Dbl, Path(q));
        logged := logged + {blk};
        logged := logged + {dbl};
        RecordedTwice(old(maps), bl0, mp1, bl1, mp2, bl2, lg0, lg1, lg1, lg2, lg2 + {dbl}, bmapstart, -1, dbl);
        RecordedTwice(old(maps), bl0, mp2, bl2, maps, blocks, lg0, lg2 + {dbl}, lg2, lg3, logged, bmapstart, -1, blk);
      }
    }

    // ----- reading and writing -----

    /** The file is in order: books, and a block wherever the size reaches. */
    ghost predicate FileOk(ip: Inode)
      reads this, ip
    {
      Good(ip) && Mapped(blocks, ip.addrs, ip.size)
    }

    /** The sequence of bytes that the file stands for. */
    ghost function Bytes(ip: Inode): seq<Byte>
      requires FileOk(ip)
      reads this, ip
    {
      Contents(blocks, ip.addrs, ip.size)
    }

    /** One turn of readi's loop: the bytes of the file that one block has. */
    method ReadOne(ip: Inode, at: nat, m: nat) returns (piece: seq<Byte>)
      requires FileOk(ip) && at < ip.size && m <= ip.size - at && at % BSIZE + m <= BSIZE
      modifies this`bitmap, this`maps, this`blocks, this`logged, ip`addrs
      ensures FileOk(ip) && blocks == old(blocks) && bitmap == old(bitmap) && maps == old(maps)
              && logged == old(logged) && ip.addrs == old(ip.addrs)
      ensures piece == Bytes(ip)[at..at + m]
    {
      hide Conserved, Extends, Zeros, PtrAt, Recorded;
      assert BlockNo(blocks, ip.addrs, at / BSIZE) != 0;
      var b := Bmap(ip, at / BSIZE);
      assert |blocks[b]| == BSIZE by {
        PlaceOk(n, bitmap, blocks, ip.addrs, others, PosOf(at / BSIZE));
      }
      ReadChunk(blocks, ip.addrs, ip.size, at, m);
      piece := blocks[b][at % BSIZE..at % BSIZE + m];
    }

    /** Up to count bytes from `off` on; nothing is attached on the way. */
    method Readi(ip: Inode, off: nat, count: nat) returns (r: IoResult)
      requires FileOk(ip) && off < 0x1_0000_0000 && count < 0x1_0000_0000
      modifies this`bitmap, this`maps, this`blocks, this`logged, ip`addrs
      ensures FileOk(ip) && blocks == old(blocks) && bitmap == old(bitmap) && maps == old(maps)
              && logged == old(logged) && ip.addrs == old(ip.addrs)
      ensures r == Error <==> off > ip.size || off + count >= 0x1_0000_0000
      ensures r != Error ==> r == Data(Bytes(ip)[off..Min(off + count, ip.size)])
    {
      hide Conserved, Extends, Zeros, PtrAt, Recorded, Contents, Mapped, Good;
      if off > ip.size || (off + count) % 0x1_0000_0000 < off {
        return Error;
      }
      var n1 := count;
      if off + n1 > ip.size {
        n1 := ip.size - off;
      }
      var tot, dst: seq<Byte> := 0, [];
      ghost var bl0, ad0, bm0, mp0, lg0, all := blocks, ip.addrs, bitmap, maps, logged, Bytes(ip);
      while tot < n1
        invariant tot <= n1 && off + n1 <= ip.size
        invariant blocks == bl0 && ip.addrs == ad0 && bitmap == bm0 && maps == mp0 && logged == lg0
        invariant FileOk(ip) && Bytes(ip) == all && dst == all[off..off + tot]
      {
        var m := Chunk(off + tot, n1 - tot);
        var piece := ReadOne(ip, off + tot, m);
        Longer(all, off, tot, m);
        dst := dst + piece;
        tot := tot + m;
      }
      return Data(dst);
    }

    /** Writes `src` at `off`, at most the end of the file, block by block. */
    method Writei(ip: Inode, src: seq<Byte>, off: nat) returns (r: IoResult)
      requires FileOk(ip) && off < 0x1_0000_0000 && |src| < 0x1_0000_0000
      modifies this`bitmap, this`maps, this`blocks, this`logged, ip
      ensures r == Error <==> off > old(ip.size) || off + |src| >= 0x1_0000_0000 || off + |src| > MAXFILE * BSIZE
      ensures r == Error ==>
                blocks == old(blocks) && bitmap == old(bitmap) && maps == old(maps) && ip.addrs == old(ip.addrs)
                && ip.size == old(ip.size)
      ensures r == Panic ==> forall c :: 0 <= c < |bitmap| ==> bitmap[c]
      ensures r == Panic <==> off <= old(ip.size) && off + |src| <= MAXFILE * BSIZE
                              && |FreeBlocks(old(bitmap))| < |Lacking(old(blocks), old(ip.addrs), Reach(off, |src|))|
      ensures r !in {Error, Panic} ==> r == Count(|src|) && FileOk(ip)
      ensures r !in {Error, Panic} ==> DataLogged(blocks, ip.addrs, logged, off / BSIZE, Behind(off, |src|))
      ensures r !in {Error, Panic} ==> Bytes(ip) == Spliced(old(Bytes(ip)), off, src)
      ensures r !in {Error, Panic} ==> forall c :: 0 <= c < n && c in others ==> blocks[c] == old(blocks)[c]
      ensures r !in {Error, Panic} ==>
                Recorded(old(maps), old(blocks), maps, blocks, old(logged), logged, bmapstart, -1)
      ensures r !in {Error, Panic} ==>
                LoggedOnly(old(logged), logged, bmapstart, |maps|, blocks, ip.addrs, Reach(off, |src|))
    {
      hide Conserved, Extends, Zeros, PtrAt, Mapped, WrittenUpTo, Spliced, Contents, Recorded, Filled, FreeBlocks,
           Lacking, Reach, Chunk, BlockLogged, LoggedOnly;
      if off > ip.size || (off + |src|) % 0x1_0000_0000 < off {
        return Error;
      }
      if off + |src| > MAXFILE * BSIZE {
        return Error;
      }
      var tot := 0;
      ghost var bl0, ad0, bm0, mp0, lg0 := blocks, ip.addrs, bitmap, maps, logged;
      NothingWritten(blocks, ip.addrs, ip.size, off, src);
      RecordedSelf(maps, blocks, logged, bmapstart);
      NothingFilled(bitmap, blocks, ip.addrs, off);
      LoggedNothing(logged, bmapstart, |maps|, blocks, ip.addrs, Reach(off, 0));
      while tot < |src|
        invariant tot <= |src| && Good(ip) && ip.size == old(ip.size)
        invariant WrittenUpTo(bl0, ad0, blocks, ip.addrs, ip.size, off, src, tot)
        invariant Recorded(mp0, bl0, maps, blocks, lg0, logged, bmapstart, -1)
        invariant Filled(bm0, bl0, ad0, bitmap, blocks, ip.addrs, Reach(off, tot))
        invariant DataLogged(blocks, ip.addrs, logged, off / BSIZE, Behind(off, tot))
        invariant LoggedOnly(lg0, logged, bmapstart, |maps|, blocks, ip.addrs, Reach(off, tot))
        invariant tot == 0 || tot == |src| || (off + tot) % BSIZE == 0
        invariant forall c :: 0 <= c < n && c in others ==> blocks[c] == bl0[c]
      {
        var ok := WriteOne(ip, src, off, tot, bl0, ad0, bm0, mp0, lg0);
        if !ok {
          return Panic;
        }
        tot := tot + Chunk(off + tot, |src| - tot);
      }
      EnoughBlocks(bm0, bl0, ad0, bitmap, blocks, ip.addrs, Reach(off, |src|));
      AllWritten(bl0, ad0, blocks, ip.addrs, ip.size, off, src);
      var end := off + tot;
      if |src| > 0 && end > ip.size {
        ip.size := end;
      }
      return Count(|src|);
    }

    /** One turn of writei's loop; false for bmap's panic. */
    method WriteOne(ip: Inode, src: seq<Byte>, off: nat, tot: nat, ghost bl0: seq<Block>, ghost ad0: seq<nat>,
                    ghost bm0: seq<bool>, ghost mp0: seq<Block>, ghost lg0: set<int>)
      returns (ok: bool)
      requires Good(ip) && tot < |src| && off <= ip.size && off + |src| <= MAXFILE * BSIZE && |ad0| == NDIRECT + 2
               && |bl0| == n
      requires WrittenUpTo(bl0, ad0, blocks, ip.addrs, ip.size, off, src, tot)
      requires Recorded(mp0, bl0, maps, blocks, lg0, logged, bmapstart, -1)
      requires forall c :: 0 <= c < n && c in others ==> blocks[c] == bl0[c]
      requires Filled(bm0, bl0, ad0, bitmap, blocks, ip.addrs, Reach(off, tot))
      requires DataLogged(blocks, ip.addrs, logged, off / BSIZE, Behind(off, tot))
      requires LoggedOnly(lg0, logged, bmapstart, |maps|, blocks, ip.addrs, Reach(off, tot))
      requires tot == 0 || (off + tot) % BSIZE == 0
      modifies this`bitmap, this`maps, this`blocks, this`logged, ip`addrs
      ensures !ok ==> forall c :: 0 <= c < |bitmap| ==> bitmap[c]
      ensures ok ==> Good(ip)
      ensures !ok ==> |FreeBlocks(bm0)| < |Lacking(bl0, ad0, Reach(off, |src|))|
      ensures ok ==> var next := tot + Chunk(off + tot, |src| - tot);
                Filled(bm0, bl0, ad0, bitmap, blocks, ip.addrs, Reach(off, next))
                && DataLogged(blocks, ip.addrs, logged, off / BSIZE, Behind(off, next))
                && LoggedOnly(lg0, logged, bmapstart, |maps|, blocks, ip.addrs, Reach(off, next))
                && (next == |src| || (off + next) % BSIZE == 0)
      ensures ok ==> WrittenUpTo(bl0, ad0, blocks, ip.addrs, ip.size, off, src, tot + Chunk(off + tot, |src| - tot))
      ensures ok ==> Recorded(mp0, bl0, maps, blocks, lg0, logged, bmapstart, -1)
      ensures ok ==> forall c :: 0 <= c < n && c in others ==> blocks[c] == bl0[c]
    {
      hide Conserved, Zeros, PtrAt, Mapped, WrittenUpTo, Patched, BlockNo, Recorded, PosOf, Chunk, Filled, FreeBlocks,
           Lacking, Reach, Path, DataLogged, Behind, LoggedOnly;
      var at := off + tot;
      ghost var bl1, ad1, bm1, mp1, lg1 := blocks, ip.addrs, bitmap, maps, logged;
      AllSized(ip);
      var b := Bmap(ip, at / BSIZE);
      ReachNext(off, tot, |src|);
      if b == -1 {
        ReachGrows(off, tot + Chunk(at, |src| - tot), |src|);
        TooFew(bm0, bl0, ad0, bm1, bl1, ad1, Reach(off, tot), Path(PosOf(at / BSIZE)), Reach(off, |src|));
        return false;
      }
      AllSized(ip);
      ghost var bl2, lg2 := blocks, logged;
      var m := Chunk(at, |src| - tot);
      var data := Patched(blocks[b], at % BSIZE, src[tot..tot + m]);
      WholeTurn(n, bm0, bl0, ad0, bm1, bl1, ad1, bitmap, bl2, ip.addrs, others, ip.size, off, src, tot, data);
      RecordedTurn(mp0, bl0, lg0, mp1, bl1, lg1, maps, bl2, lg2, data, b, bmapstart);
      DataTurn(n, bm1, bl1, ad1, bitmap, bl2, ip.addrs, others, lg1, lg2 + {b}, off / BSIZE, at / BSIZE, data);
      RecordedGrows(mp1, bl1, maps, bl2, lg1, lg2, bmapstart);
      LoggedTurn(n, bm1, bl1, ad1, bitmap, bl2, ip.addrs, others, at / BSIZE, data, lg0, lg1, lg2, bmapstart, |maps|,
          Reach(off, tot), Reach(off, tot + m));
      blocks := blocks[b := data];
      logged := logged + {b};
      return true;
    }

    lemma {:induction false} AllSized(ip: Inode)
      requires Good(ip)
      ensures forall c :: 0 <= c < |blocks| ==> |blocks[c]| == BSIZE
    {}

    /** What was written is what is read back. */
    method WriteThenRead(ip: Inode, src: seq<Byte>, off: nat) returns (w: IoResult, r: IoResult)
      requires FileOk(ip) && off < 0x1_0000_0000 && |src| < 0x1_0000_0000
      modifies this`bitmap, this`maps, this`blocks, this`logged, ip
      ensures w !in {Error, Panic} ==> r == Data(src) && FileOk(ip)
    {
      r := Error;
      w := Writei(ip, src, off);
      if w != Error && w != Panic {
        r := Readi(ip, off, |src|);
      }
    }

    // ----- truncating -----

    /** Frees every block of the file, each once; the panic for a block that is free already is never reached. */
    method Itrunc(ip: Inode)
      requires FileOk(ip)
      modifies this`bitmap, this`maps, this`logged, ip
      ensures FileOk(ip) && ip.size == 0 && Bytes(ip) == [] && (forall q :: Ok(q) ==> PtrAt(blocks, ip.addrs, q) == 0)
      ensures forall b :: 0 < b < n ==> (bitmap[b] <==> b in others)
      ensures Recorded(old(maps), blocks, maps, blocks, old(logged), logged, bmapstart, -1)
      ensures OnlyMaps(old(logged), logged, bmapstart, |maps|)
    {
      hide Conserved, PtrAt, Recorded, Left;
      ghost var ad0, bm0, mp0, lg0 := ip.addrs, bitmap, maps, logged;
      NoneFreed(n, bitmap, blocks, ad0, others);
      RecordedSelf(maps, blocks, logged, bmapstart);
      var i := 0;
      while i < NDIRECT
        invariant 0 <= i <= NDIRECT && |ip.addrs| == NDIRECT + 2 && Freeing(i, ad0, bm0, mp0, lg0)
        invariant forall k :: i <= k < NDIRECT + 2 ==> ip.addrs[k] == ad0[k]
        invariant forall k :: 0 <= k < i ==> ip.addrs[k] == 0
      {
        assert PtrAt(blocks, ad0, Direct(i)) == ip.addrs[i] by { DirectPtr(blocks, ad0, i); }
        FreePlace(ip.addrs[i], Direct(i), ad0, bm0, mp0, lg0);
        ip.addrs := ip.addrs[i := 0];
        i := i + 1;
      }
      TruncIndirect(ip.addrs[NDIRECT], ad0, bm0, mp0, lg0);
      ip.addrs := ip.addrs[NDIRECT := 0];
      TruncDouble(ip.addrs[NDIRECT + 1], ad0, bm0, mp0, lg0);
      ip.addrs := ip.addrs[NDIRECT + 1 := 0];
      ip.size := 0;
      AllFreed(n, bm0, bitmap, blocks, ad0, others, ip.addrs);
    }

    /** All places below rank r have been freed. */
    ghost predicate Freeing(r: nat, ad0: seq<nat>, bm0: seq<bool>, mp0: seq<Block>, lg0: set<int>)
      reads this
    {
      && |bitmap| == |blocks| == n && |ad0| == NDIRECT + 2 && Conserved(n, bm0, blocks, ad0, others)
      && Left(n, bitmap, blocks, ad0, others, r)
      && Recorded(mp0, blocks, maps, blocks, lg0, logged, bmapstart, -1) && Encoded(n, bitmap, maps)
      && OnlyMaps(lg0, logged, bmapstart, |maps|)
    }

    /** bfree for the block in a place, if there is one. */
    method FreePlace(b: nat, ghost q: Pos, ghost ad0: seq<nat>, ghost bm0: seq<bool>, ghost mp0: seq<Block>,
                     ghost lg0: set<int>)
      requires Ok(q) && Freeing(Rank(q), ad0, bm0, mp0, lg0) && b == PtrAt(blocks, ad0, q)
      modifies this`bitmap, this`maps, this`logged
      ensures Freeing(Rank(q) + 1, ad0, bm0, mp0, lg0)
    {
      hide Conserved, PtrAt, Left;
      FreeStep(n, bm0, bitmap, blocks, ad0, others, q);
      if b != 0 {
        ghost var mp, lg := maps, logged;
        var ok := Bfree(b);
        assert ok;
        RecordedTwice(mp0, blocks, mp, blocks, maps, blocks, lg0, lg, lg, logged, logged, bmapstart, -1, -1);
      }
    }

    method TruncIndirect(ind: nat, ghost ad0: seq<nat>, ghost bm0: seq<bool>, ghost mp0: seq<Block>,
                         ghost lg0: set<int>)
      requires Freeing(NDIRECT, ad0, bm0, mp0, lg0) && ind == ad0[NDIRECT]
      modifies this`bitmap, this`maps, this`logged
      ensures Freeing(Rank(Ind) + 1, ad0, bm0, mp0, lg0)
    {
      hide Conserved, Left, Recorded, Encoded, OnlyMaps;
      if ind == 0 {
        SkipEmpty(n, bitmap, blocks, ad0, others, NDIRECT, Rank(Ind) + 1);
        return;
      }
      PlaceOk(n, bm0, blocks, ad0, others, Ind);
      var j := 0;
      while j < NINDIRECT
        invariant 0 <= j <= NINDIRECT && Freeing(NDIRECT + j, ad0, bm0, mp0, lg0)
      {
        FreePlace(Word(blocks[ind], j), IndEntry(j), ad0, bm0, mp0, lg0);
        j := j + 1;
      }
      FreePlace(ind, Ind, ad0, bm0, mp0, lg0);
    }

    /** The blocks that one block of the double-indirect block leads to. */
    method TruncBlock(blk: nat, ghost j: nat, ghost ad0: seq<nat>, ghost bm0: seq<bool>, ghost mp0: seq<Block>,
                      ghost lg0: set<int>)
      requires j < NINDIRECT && Freeing(Rank(Ind) + 1 + 129 * j, ad0, bm0, mp0, lg0)
      requires blk != 0 && blk == PtrAt(blocks, ad0, DblBlk(j))
      modifies this`bitmap, this`maps, this`logged
      ensures Freeing(Rank(DblBlk(j)), ad0, bm0, mp0, lg0)
    {
      hide Conserved, Left, Recorded, Encoded, OnlyMaps;
      PlaceOk(n, bm0, blocks, ad0, others, DblBlk(j));
      var k := 0;
      while k < NINDIRECT
        invariant 0 <= k <= NINDIRECT && Freeing(Rank(Ind) + 1 + 129 * j + k, ad0, bm0, mp0, lg0)
      {
        FreePlace(Word(blocks[blk], k), DblEntry(j, k), ad0, bm0, mp0, lg0);
        k := k + 1;
      }
    }

    method TruncDouble(dbl: nat, ghost ad0: seq<nat>, ghost bm0: seq<bool>, ghost mp0: seq<Block>, ghost lg0: set<int>)
      requires Freeing(Rank(Ind) + 1, ad0, bm0, mp0, lg0) && dbl == ad0[NDIRECT + 1]
      modifies this`bitmap, this`maps, this`logged
      ensures Freeing(Rank(Dbl) + 1, ad0, bm0, mp0, lg0)
    {
      hide Conserved, Left, Recorded, Encoded, OnlyMaps;
      if dbl == 0 {
        SkipEmpty(n, bitmap, blocks, ad0, others, Rank(Ind) + 1, Rank(Dbl) + 1);
        return;
      }
      PlaceOk(n, bm0, blocks, ad0, others, Dbl);
      var j := 0;
      while j < NINDIRECT
        invariant 0 <= j <= NINDIRECT && Freeing(Rank(Ind) + 1 + 129 * j, ad0, bm0, mp0, lg0)
      {
        var blk := Word(blocks[dbl], j);
        if blk != 0 {
          TruncBlock(blk, j, ad0, bm0, mp0, lg0);
          FreePlace(blk, DblBlk(j), ad0, bm0, mp0, lg0);
        } else {
          SkipEmpty(n, bitmap, blocks, ad0, others, Rank(Ind) + 1 + 129 * j, Rank(Ind) + 1 + 129 * (j + 1));
        }
        j := j + 1;
      }
      FreePlace(dbl, Dbl, ad0, bm0, mp0, lg0);
    }
  }

  // ----- the order of freeing -----

  /** The order in which itrunc comes to the places. */
  function Rank(q: Pos): (r: nat)
    requires Ok(q)
  {
    match q
    case Direct(i) => i
    case IndEntry(j) => NDIRECT + j
    case Ind => NDIRECT + NINDIRECT
    case DblEntry(j, k) => NDIRECT + NINDIRECT + 1 + 129 * j + k
    case DblBlk(j) => NDIRECT + NINDIRECT + 1 + 129 * j + NINDIRECT
    case Dbl => NDIRECT + NINDIRECT + 1 + 129 * NINDIRECT
  }

  /** It comes to every place once. */
  lemma {:induction false} RankInjective(q: Pos, r: Pos)
    requires Ok(q) && Ok(r) && Rank(q) == Rank(r)
    ensures q == r
  {}

  ghost predicate HeldFrom(blocks: seq<Block>, addrs: seq<nat>, r: nat, b: int)
    requires |addrs| == NDIRECT + 2
  {
    exists q :: Ok(q) && Rank(q) >= r && PtrAt(blocks, addrs, q) == b
  }

  /** The bitmap marks what others use and what is in places not yet freed. */
  ghost predicate Left(n: nat, bitmap: seq<bool>, blocks: seq<Block>, addrs: seq<nat>, others: set<int>, r: nat)
    requires |addrs| == NDIRECT + 2
  {
    && |bitmap| == n > 0 && bitmap[0]
    && forall b :: 0 < b < n ==> (bitmap[b] <==> b in others || HeldFrom(blocks, addrs, r, b))
  }

  lemma {:induction false} DirectPtr(blocks: seq<Block>, addrs: seq<nat>, i: nat)
    requires |addrs| == NDIRECT + 2 && i < NDIRECT
    ensures PtrAt(blocks, addrs, Direct(i)) == addrs[i]
  {}

  lemma {:induction false} NoneFreed(n: nat, bitmap: seq<bool>, blocks: seq<Block>, addrs: seq<nat>, others: set<int>)
    requires |addrs| == NDIRECT + 2 && Conserved(n, bitmap, blocks, addrs, others)
    ensures Left(n, bitmap, blocks, addrs, others, 0)
  {
    hide PtrAt;
    forall b | 0 < b < n ensures Holds(blocks, addrs, b) <==> HeldFrom(blocks, addrs, 0, b) {
      if Holds(blocks, addrs, b) {
        var q :| Ok(q) && PtrAt(blocks, addrs, q) == b;
        assert Rank(q) >= 0;
      }
    }
  }

  /** The block in the next place is in use, and freeing it leaves the rest. */
  lemma {:induction false} FreeStep(n: nat, bm0: seq<bool>, bitmap: seq<bool>, blocks: seq<Block>, addrs: seq<nat>,
                                    others: set<int>, q: Pos)
    requires |addrs| == NDIRECT + 2 && Conserved(n, bm0, blocks, addrs, others) && Ok(q)
             && Left(n, bitmap, blocks, addrs, others, Rank(q))
    ensures |bitmap| == n && PtrAt(blocks, addrs, q) < n
    ensures var b := PtrAt(blocks, addrs, q);
            if b == 0 then Left(n, bitmap, blocks, addrs, others, Rank(q) + 1)
            else bitmap[b] && Left(n, bitmap[b := false], blocks, addrs, others, Rank(q) + 1)
  {
    hide PtrAt;
    var b := PtrAt(blocks, addrs, q);
    assert PtrOk(bm0, blocks, addrs, others, q);
    if b != 0 {
      assert HeldFrom(blocks, addrs, Rank(q), b);
    }
    forall c | 0 < c < n && c != b
      ensures HeldFrom(blocks, addrs, Rank(q), c) <==> HeldFrom(blocks, addrs, Rank(q) + 1, c) {
      HeldNext(blocks, addrs, q, c);
    }
    assert b != 0 ==> !HeldFrom(blocks, addrs, Rank(q) + 1, b) by {
      forall r | Ok(r) && Rank(r) >= Rank(q) + 1 ensures PtrAt(blocks, addrs, r) != b || b == 0 {
        assert Apart(blocks, addrs, q, r);
      }
    }
  }

  lemma {:induction false} HeldNext(blocks: seq<Block>, addrs: seq<nat>, q: Pos, c: int)
    requires |addrs| == NDIRECT + 2 && Ok(q) && c != PtrAt(blocks, addrs, q)
    ensures HeldFrom(blocks, addrs, Rank(q), c) <==> HeldFrom(blocks, addrs, Rank(q) + 1, c)
  {
    hide PtrAt;
    if HeldFrom(blocks, addrs, Rank(q), c) {
      var r :| Ok(r) && Rank(r) >= Rank(q) && PtrAt(blocks, addrs, r) == c;
      if Rank(r) == Rank(q) {
        RankInjective(q, r);
      }
    }
  }

  /** Places without blocks need no freeing. */
  lemma {:induction false} SkipEmpty(n: nat, bitmap: seq<bool>, blocks: seq<Block>, addrs: seq<nat>, others: set<int>,
                                     r: nat, s: nat)
    requires |addrs| == NDIRECT + 2 && Left(n, bitmap, blocks, addrs, others, r) && r <= s
    requires forall q :: Ok(q) && r <= Rank(q) < s ==> PtrAt(blocks, addrs, q) == 0
    ensures Left(n, bitmap, blocks, addrs, others, s)
  {
    hide PtrAt;
    forall b | 0 < b < n ensures HeldFrom(blocks, addrs, r, b) <==> HeldFrom(blocks, addrs, s, b) {
      if HeldFrom(blocks, addrs, r, b) {
        var q :| Ok(q) && Rank(q) >= r && PtrAt(blocks, addrs, q) == b;
        assert Rank(q) >= s;
      }
    }
  }

  /** After the last place the file is empty, and the bitmap marks what others use. */
  lemma {:induction false} AllFreed(n: nat, bm0: seq<bool>, bitmap: seq<bool>, blocks: seq<Block>, ad0: seq<nat>,
                                    others: set<int>, addrs: seq<nat>)
    requires |ad0| == NDIRECT + 2 && Conserved(n, bm0, blocks, ad0, others)
             && Left(n, bitmap, blocks, ad0, others, Rank(Dbl) + 1)
    requires |addrs| == NDIRECT + 2 && forall k :: 0 <= k < NDIRECT + 2 ==> addrs[k] == 0
    ensures Conserved(n, bitmap, blocks, addrs, others) && Mapped(blocks, addrs, 0)
    ensures forall q :: Ok(q) ==> PtrAt(blocks, addrs, q) == 0
    ensures forall b :: 0 < b < n ==> (bitmap[b] <==> b in others)
  {
    forall q | Ok(q) ensures PtrAt(blocks, addrs, q) == 0 {}
    hide PtrAt;
    assert forall q :: Ok(q) ==> Rank(q) <= Rank(Dbl);
    var last := Rank(Dbl) + 1;
    assert forall b :: 0 < b < n ==> !HeldFrom(blocks, ad0, last, b);
    assert forall b :: 0 < b < n ==> !Holds(blocks, addrs, b);
  }

  lemma {:induction false} NoPlaces(blocks: seq<Block>, addrs: seq<nat>)
    requires |addrs| == NDIRECT + 2 && forall k :: 0 <= k < |addrs| ==> addrs[k] == 0
    ensures forall q :: Ok(q) ==> PtrAt(blocks, addrs, q) == 0
  {}

  lemma {:induction false} RecordedSelf(maps: seq<Block>, blocks: seq<Block>, logged: set<int>, bmapstart: nat)
    ensures Recorded(maps, blocks, maps, blocks, logged, logged, bmapstart, -1)
  {}

  lemma {:induction false} RecordedOne(maps: seq<Block>, blocks: seq<Block>, data: Block, logged: set<int>, b: nat,
                                       bmapstart: nat)
    requires b < |blocks|
    ensures Recorded(maps, blocks, maps, blocks[b := data], logged, logged + {b}, bmapstart, -1)
  {}

  lemma {:induction false} RecordedGrows(mp0: seq<Block>, bl0: seq<Block>, mp1: seq<Block>, bl1: seq<Block>,
                                         lg0: set<int>, lg1: set<int>, bmapstart: nat)
    requires Recorded(mp0, bl0, mp1, bl1, lg0, lg1, bmapstart, -1)
    ensures lg0 <= lg1 && |mp0| == |mp1|
  {}

  lemma {:induction false} NothingWritten(blocks: seq<Block>, addrs: seq<nat>, size: nat, off: nat, src: seq<Byte>)
    requires |addrs| == NDIRECT + 2 && Mapped(blocks, addrs, size) && off <= size
    ensures WrittenUpTo(blocks, addrs, blocks, addrs, size, off, src, 0)
  {
    hide ByteAt, BlockNo;
  }

  /** When all of src is written, the file is the old one with src spliced in. */
  lemma {:induction false} AllWritten(bl0: seq<Block>, ad0: seq<nat>, blocks: seq<Block>, addrs: seq<nat>, size: nat,
                                      off: nat, src: seq<Byte>)
    requires |ad0| == |addrs| == NDIRECT + 2 && WrittenUpTo(bl0, ad0, blocks, addrs, size, off, src, |src|)
             && off <= size
    ensures size <= MAXFILE * BSIZE && off + |src| <= MAXFILE * BSIZE
    ensures var now := if off + |src| > size then off + |src| else size;
            Mapped(blocks, addrs, now) && Contents(blocks, addrs, now) == Spliced(Contents(bl0, ad0, size), off, src)
  {
    hide ByteAt, BlockNo, Mapped;
    var now := if off + |src| > size then off + |src| else size;
    var c, d := Contents(blocks, addrs, now), Spliced(Contents(bl0, ad0, size), off, src);
    forall i | 0 <= i < now ensures c[i] == d[i] {
      assert ByteIs(bl0, ad0, blocks, addrs, off, src, |src|, i);
    }
  }

  lemma {:induction false} IsTurn(n: nat, bitmap: seq<bool>, bl0: seq<Block>, ad0: seq<nat>, bl1: seq<Block>,
                                  ad1: seq<nat>, bl2: seq<Block>, ad2: seq<nat>,
                                  others: set<int>, size: nat, off: nat, src: seq<Byte>, tot: nat, data: Block)
    requires |ad0| == |ad1| == |ad2| == NDIRECT + 2
    requires WrittenUpTo(bl0, ad0, bl1, ad1, size, off, src, tot) && off <= size
    requires tot < |src| && off + |src| <= MAXFILE * BSIZE
    requires Conserved(n, bitmap, bl2, ad2, others) && forall c :: 0 <= c < |bl1| ==> |bl1[c]| == BSIZE
    requires Extends(bl1, ad1, bl2, ad2, others, PosOf((off + tot) / BSIZE))
             && 0 < BlockNo(bl2, ad2, (off + tot) / BSIZE) < |bl2|
    requires var at := off + tot; var b := bl2[BlockNo(bl2, ad2, at / BSIZE)];
             |data| == |b| == BSIZE && data == Patched(b, at % BSIZE, src[tot..tot + Chunk(at, |src| - tot)])
    ensures Turn(n, bitmap, bl0, ad0, bl1, ad1, bl2, ad2, others, size, off, src, tot, data)
  {
    hide Conserved, Extends, WrittenUpTo, Patched, BlockNo, PosOf, Chunk;
  }

  /** Overwriting a block of contents touches no block of anybody else. */
  lemma {:induction false} DataBlock(n: nat, bitmap: seq<bool>, blocks: seq<Block>, addrs: seq<nat>, others: set<int>,
                                     bn: nat, data: Block)
    requires Conserved(n, bitmap, blocks, addrs, others) && |addrs| == NDIRECT + 2 && bn < MAXFILE
             && |data| == BSIZE && BlockNo(blocks, addrs, bn) != 0
    ensures BlockNo(blocks, addrs, bn) < n && BlockNo(blocks, addrs, bn) !in others
    ensures Conserved(n, bitmap, blocks[BlockNo(blocks, addrs, bn) := data], addrs, others)
  {
    assert PtrOk(bitmap, blocks, addrs, others, PosOf(bn));
    DataConserves(n, bitmap, blocks, addrs, others, PosOf(bn), data);
  }

  lemma {:induction false} NothingFilled(bitmap: seq<bool>, blocks: seq<Block>, addrs: seq<nat>, off: nat)
    requires |addrs| == NDIRECT + 2 && off <= MAXFILE * BSIZE
    ensures Filled(bitmap, blocks, addrs, bitmap, blocks, addrs, Reach(off, 0))
  {
    assert Lacking(blocks, addrs, {}) == {};
    hide PtrAt;
    FilledSame(bitmap, blocks, addrs, blocks, addrs, {});
  }

  lemma {:induction false} EnoughBlocks(bm0: seq<bool>, bl0: seq<Block>, ad0: seq<nat>, bm1: seq<bool>, bl1: seq<Block>,
                                        ad1: seq<nat>, ps: set<Pos>)
    requires |ad0| == |ad1| == NDIRECT + 2 && Filled(bm0, bl0, ad0, bm1, bl1, ad1, ps)
    ensures |FreeBlocks(bm0)| >= |Lacking(bl0, ad0, ps)|
  {}

  lemma {:induction false} StaysThere(n: nat, bitmap: seq<bool>, blocks: seq<Block>, addrs: seq<nat>, others: set<int>,
                                     bn: nat, data: Block)
    requires Conserved(n, bitmap, blocks, addrs, others) && |addrs| == NDIRECT + 2 && bn < MAXFILE && |data| == BSIZE
    requires 0 < BlockNo(blocks, addrs, bn) < |blocks|
    ensures BlockNo(blocks[BlockNo(blocks, addrs, bn) := data], addrs, bn) == BlockNo(blocks, addrs, bn)
  {
    DataWritten(n, bitmap, blocks, addrs, others, PosOf(bn), data, PosOf(bn));
  }

  /** bmap's changes and the written block, as logged. */
  lemma {:induction false} RecordedTurn(mp0: seq<Block>, bl0: seq<Block>, lg0: set<int>, mp1: seq<Block>,
                                        bl1: seq<Block>, lg1: set<int>, mp2: seq<Block>, bl2: seq<Block>,
                                        lg2: set<int>, data: Block, b: nat, bmapstart: nat)
    requires Recorded(mp0, bl0, mp1, bl1, lg0, lg1, bmapstart, -1)
    requires Recorded(mp1, bl1, mp2, bl2, lg1, lg2, bmapstart, -1) && b < |bl2|
    ensures Recorded(mp0, bl0, mp2, bl2[b := data], lg0, lg2 + {b}, bmapstart, -1) && lg1 <= lg2 + {b}
  {
    hide Recorded;
    var logged := lg2 + {b};
    RecordedOne(mp2, bl2, data, lg2, b, bmapstart);
    RecordedTwice(mp1, bl1, mp2, bl2, mp2, bl2[b := data], lg1, lg2, lg2, logged, logged, bmapstart, -1, -1);
    RecordedGrows(mp1, bl1, mp2, bl2, lg1, lg2, bmapstart);
    RecordedTwice(mp0, bl0, mp1, bl1, mp2, bl2[b := data], lg0, lg1, lg1, logged, logged, bmapstart, -1, -1);
  }

  /** Of the same turn, the blocks of contents logged. */
  lemma {:induction false} DataTurn(n: nat, bm1: seq<bool>, bl1: seq<Block>, ad1: seq<nat>, bm2: seq<bool>,
                                    bl2: seq<Block>, ad2: seq<nat>, others: set<int>, lg1: set<int>, lg2: set<int>,
                                    lo: nat, bn: nat, data: Block)
    requires Conserved(n, bm2, bl2, ad2, others) && |ad1| == |ad2| == NDIRECT + 2 && bn < MAXFILE
    requires |data| == BSIZE && 0 < BlockNo(bl2, ad2, bn) < |bl2| && BlockNo(bl2, ad2, bn) in lg2 && lg1 <= lg2
    requires Filled(bm1, bl1, ad1, bm2, bl2, ad2, Path(PosOf(bn))) && DataLogged(bl1, ad1, lg1, lo, bn)
    ensures DataLogged(bl2[BlockNo(bl2, ad2, bn) := data], ad2, lg2, lo, bn + 1)
  {
    hide Conserved, Filled, BlockNo, PosOf, Path, DataLogged, PtrAt;
    var more, after := Path(PosOf(bn)), bl2[BlockNo(bl2, ad2, bn) := data];
    FilledData(n, bm1, bl1, ad1, bm2, bl2, ad2, others, more, bn, data);
    StaysThere(n, bm2, bl2, ad2, others, bn, data);
    DataLoggedNext(bm1, bl1, ad1, bm2, after, ad2, more, lg1, lg2, lo, bn);
  }

  /** And nothing else. */
  lemma {:induction false} LoggedTurn(n: nat, bm1: seq<bool>, bl1: seq<Block>, ad1: seq<nat>, bm2: seq<bool>,
                                      bl2: seq<Block>, ad2: seq<nat>, others: set<int>, bn: nat, data: Block,
                                      lg0: set<int>, lg1: set<int>, lg2: set<int>, bmapstart: nat, m: nat,
                                      ps: set<Pos>, all: set<Pos>)
    requires Conserved(n, bm2, bl2, ad2, others) && |ad1| == |ad2| == NDIRECT + 2 && bn < MAXFILE
    requires |data| == BSIZE && 0 < BlockNo(bl2, ad2, bn) < |bl2|
    requires LoggedOnly(lg0, lg1, bmapstart, m, bl1, ad1, ps) && ps + Path(PosOf(bn)) <= all && PosOf(bn) in all
    requires Filled(bm1, bl1, ad1, bm2, bl2, ad2, Path(PosOf(bn)))
    requires LoggedOnly(lg1, lg2, bmapstart, m, bl2, ad2, Path(PosOf(bn)))
    ensures var b := BlockNo(bl2, ad2, bn); LoggedOnly(lg0, lg2 + {b}, bmapstart, m, bl2[b := data], ad2, all)
  {
    hide Conserved, Filled, BlockNo, PosOf, Path, PtrAt, LoggedOnly;
    LoggedTwice(lg0, lg1, lg2, bmapstart, m, bm1, bl1, ad1, bm2, bl2, ad2, ps, Path(PosOf(bn)), all);
    LoggedData(n, bm2, bl2, ad2, others, bn, data, lg0, lg2, bmapstart, m, all);
  }

  /** What one turn brings about. */
  lemma {:induction false} WholeTurn(n: nat, bm0: seq<bool>, bl0: seq<Block>, ad0: seq<nat>, bm1: seq<bool>,
                                     bl1: seq<Block>, ad1: seq<nat>, bm2: seq<bool>, bl2: seq<Block>, ad2: seq<nat>,
                                     others: set<int>, size: nat, off: nat, src: seq<Byte>, tot: nat,
                                     data: Block)
    requires |ad0| == |ad1| == |ad2| == NDIRECT + 2 && tot < |src| && off <= size && off + |src| <= MAXFILE * BSIZE
    requires WrittenUpTo(bl0, ad0, bl1, ad1, size, off, src, tot) && (tot == 0 || (off + tot) % BSIZE == 0)
    requires Conserved(n, bm2, bl2, ad2, others) && forall c :: 0 <= c < |bl1| ==> |bl1[c]| == BSIZE
    requires Extends(bl1, ad1, bl2, ad2, others, PosOf((off + tot) / BSIZE))
             && 0 < BlockNo(bl2, ad2, (off + tot) / BSIZE) < |bl2|
    requires var at := off + tot; var b := bl2[BlockNo(bl2, ad2, at / BSIZE)];
             |data| == |b| == BSIZE && data == Patched(b, at % BSIZE, src[tot..tot + Chunk(at, |src| - tot)])
    requires Filled(bm0, bl0, ad0, bm1, bl1, ad1, Reach(off, tot))
             && Filled(bm1, bl1, ad1, bm2, bl2, ad2, Path(PosOf((off + tot) / BSIZE)))
    ensures var x := BlockNo(bl2, ad2, (off + tot) / BSIZE);
            var after, next := bl2[x := data], tot + Chunk(off + tot, |src| - tot);
            && WrittenUpTo(bl0, ad0, after, ad2, size, off, src, next)
            && Filled(bm0, bl0, ad0, bm2, after, ad2, Reach(off, next))
            && Conserved(n, bm2, after, ad2, others) && x !in others
            && (next == |src| || (off + next) % BSIZE == 0)
  {
    hide Conserved, PtrAt, Mapped, WrittenUpTo, Patched, BlockNo, PosOf, Chunk, Filled, FreeBlocks, Lacking, Reach,
         Path, Behind, Extends, Zeros;
    var fbn := (off + tot) / BSIZE;
    ReachNext(off, tot, |src|);
    IsTurn(n, bm2, bl0, ad0, bl1, ad1, bl2, ad2, others, size, off, src, tot, data);
    WriteTurn(n, bm2, bl0, ad0, bl1, ad1, bl2, ad2, others, size, off, src, tot, data);
    FilledTwice(bm0, bl0, ad0, bm1, bl1, ad1, bm2, bl2, ad2, Reach(off, tot), Path(PosOf(fbn)));
    FilledData(n, bm0, bl0, ad0, bm2, bl2, ad2, others, Reach(off, tot) + Path(PosOf(fbn)), fbn, data);
    DataBlock(n, bm2, bl2, ad2, others, fbn, data);
  }

  /** What readi and writei return: -1, the bytes read, the number of bytes written, or not at all. */
  datatype IoResult = Error | Data(bytes: seq<Byte>) | Count(count: nat) | Panic

  lemma {:induction false} ReadChunk(blocks: seq<Block>, addrs: seq<nat>, size: nat, at: nat, m: nat)
    requires |addrs| == NDIRECT + 2 && at + m <= size <= MAXFILE * BSIZE && at % BSIZE + m <= BSIZE && at < size
    requires 0 < BlockNo(blocks, addrs, at / BSIZE) < |blocks| && |blocks[BlockNo(blocks, addrs, at / BSIZE)]| == BSIZE
    ensures Contents(blocks, addrs, size)[at..at + m]
            == blocks[BlockNo(blocks, addrs, at / BSIZE)][at % BSIZE..at % BSIZE + m]
  {
    hide PtrAt, BlockNo;
    var r := Contents(blocks, addrs, size)[at..at + m];
    var b := blocks[BlockNo(blocks, addrs, at / BSIZE)][at % BSIZE..at % BSIZE + m];
    forall i | 0 <= i < m ensures r[i] == b[i] {
      assert (at + i) / BSIZE == at / BSIZE && (at + i) % BSIZE == at % BSIZE + i;
    }
  }

  lemma {:induction false} PlaceOk(n: nat, bitmap: seq<bool>, blocks: seq<Block>, addrs: seq<nat>, others: set<int>,
                                   q: Pos)
    requires Conserved(n, bitmap, blocks, addrs, others) && Ok(q)
    ensures Sized(n, bitmap, blocks, addrs, others) && PtrAt(blocks, addrs, q) < n
    ensures PtrAt(blocks, addrs, q) != 0 ==> bitmap[PtrAt(blocks, addrs, q)]
    ensures forall b :: 0 < b < n && !bitmap[b] ==> b !in others
  {
    assert PtrOk(bitmap, blocks, addrs, others, q);
  }
}
