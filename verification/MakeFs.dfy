/** mkfs (mkfs.c), which lays out the disk that the kernel starts from: files are appended to block by block, blocks are
    given out one after the other, and the bitmap is written at the end. */
module MakeFs {
  import opened AllFiles
  import opened FileBitmap
  import opened FileBlocks
  import opened FileLayer
  import opened FileSpace

  // ----- the bitmap of the image -----

  /** The marks when the blocks up to number `free` are in use. */
  function UpTo(n: nat, free: nat): (r: seq<bool>)
    ensures |r| == n && forall b :: 0 <= b < n ==> r[b] == (b < free)
  {
    seq(n, b => b < free)
  }

  lemma {:induction false} OneUsed(n: nat, free: nat)
    requires free < n
    ensures UpTo(n, free + 1) == UpTo(n, free)[free := true] && !UpTo(n, free)[free]
  {}

  lemma {:induction false} FreeUpTo(n: nat, free: nat)
    requires free <= n
    ensures |FreeBlocks(UpTo(n, free))| == n - free
    decreases n - free
  {
    if free == n {
      assert FreeBlocks(UpTo(n, free)) == {};
    } else {
      FreeUpTo(n, free + 1);
      assert FreeBlocks(UpTo(n, free)) == FreeBlocks(UpTo(n, free + 1)) + {free};
    }
  }

  /** The file system's own blocks. */
  function Meta(nmeta: nat): (s: set<int>)
    ensures forall b :: b in s <==> 0 <= b < nmeta
  {
    if nmeta == 0 then {} else Meta(nmeta - 1) + {nmeta - 1}
  }

  lemma {:induction false} MetaInUse(n: nat, free: nat, nmeta: nat, blocks: seq<Block>, files: seq<seq<nat>>)
    requires AllConserved(n, UpTo(n, free), blocks, files, Meta(nmeta)) && 0 < nmeta <= n
    ensures nmeta <= free
  {
    assert UpTo(n, free)[nmeta - 1];
  }

  /** The marks for the blocks up to number i are set in one bitmap block. */
  ghost predicate BitsUpTo(buf: Block, i: nat) {
    |buf| == BSIZE && forall b :: 0 <= b < BSIZE * 8 ==> BitOf(buf, b) == (b < i)
  }

  predicate BitOf(buf: Block, b: nat)
    requires |buf| == BSIZE && b < BSIZE * 8
  {
    Bit(buf[b / 8], b % 8)
  }

  lemma {:induction false} ZeroBit(j: nat)
    requires j < 8
    ensures !Bit(0, j)
  {}

  lemma {:induction false} NoBits()
    ensures BitsUpTo(Zeros(), 0)
  {
    forall b | 0 <= b < BSIZE * 8 ensures !BitOf(Zeros(), b) {
      ZeroBit(b % 8);
    }
  }

  lemma {:induction false} OneBitMore(buf: Block, i: nat)
    requires BitsUpTo(buf, i) && i < BSIZE * 8
    ensures BitsUpTo(Marked(buf, i, true), i + 1)
  {
    hide Bit, SetBit;
    var after, k := Marked(buf, i, true), i + 1;
    forall b | 0 <= b < BSIZE * 8 ensures BitOf(after, b) == (b < k) {
      assert BitOf(buf, b) == (b < i);
      FileBitmap.OneBit(buf[i / 8], i % 8, b % 8);
    }
  }

  /** With the block in its place the bitmap blocks have the marks of all blocks given out. */
  lemma {:induction false} MarksUpTo(n: nat, free: nat, sectors: seq<Block>, bmapstart: nat, buf: Block)
    requires free <= n && free < BSIZE * 8 && BitsUpTo(buf, free) && bmapstart + n / BPB + 1 <= |sectors|
    requires forall b :: bmapstart <= b < bmapstart + n / BPB + 1 ==> sectors[b] == Zeros()
    ensures Encoded(n, UpTo(n, free), sectors[bmapstart := buf][bmapstart..bmapstart + n / BPB + 1])
  {
    hide Bit;
    var maps := sectors[bmapstart := buf][bmapstart..bmapstart + n / BPB + 1];
    assert forall k :: 0 <= k < |maps| ==> maps[k] == if k == 0 then buf else Zeros();
    forall b | 0 <= b < n ensures (b < free) == Mark(maps, b) {
      if b < BPB {
        assert BitOf(buf, b) == (b < free);
      } else {
        ZeroBit(b % 8);
      }
    }
  }

  ghost function InUseBut(bitmap: seq<bool>, b: int): (s: set<int>)
    ensures forall c :: c in s <==> 0 <= c < |bitmap| && bitmap[c] && c != b
  {
    set c: int | 0 <= c < |bitmap| && bitmap[c] && c != b
  }

  /** Writing to one of the file system's own blocks changes no file. */
  lemma {:induction false} MetaWritten(n: nat, bitmap: seq<bool>, blocks: seq<Block>, files: seq<seq<nat>>,
                                       meta: set<int>, b: nat, data: Block, i: nat, size: nat)
    requires AllConserved(n, bitmap, blocks, files, meta) && b in meta && b < n && |data| == BSIZE && i < |files|
    ensures OneFile(bitmap, blocks[b := data], files[i], meta) && |files[i]| == NDIRECT + 2
    ensures forall c :: HeldBy(blocks[b := data], files[i], c) <==> HeldBy(blocks, files[i], c)
    ensures Mapped(blocks[b := data], files[i], size) <==> Mapped(blocks, files[i], size)
    ensures Mapped(blocks, files[i], size) ==>
              size <= MAXFILE * BSIZE && Contents(blocks[b := data], files[i], size) == Contents(blocks, files[i], size)
  {
    var after, rest := blocks[b := data], InUseBut(bitmap, b);
    assert OneFile(bitmap, blocks, files[i], meta);
    forall q | Ok(q) && PtrAt(blocks, files[i], q) != 0 ensures PtrAt(blocks, files[i], q) in rest {
      assert PtrOk(bitmap, blocks, files[i], meta, q);
    }
    hide PtrAt;
    FileStays(n, bitmap, blocks, bitmap, after, files[i], meta, rest);
    Isolated(blocks, after, files[i], rest, if size <= MAXFILE * BSIZE then size else 0);
    assert forall bn :: 0 <= bn < MAXFILE ==> BlockNo(after, files[i], bn) == BlockNo(blocks, files[i], bn);
  }

  lemma {:induction false} MetaKept(n: nat, bitmap: seq<bool>, blocks: seq<Block>, files: seq<seq<nat>>,
                                    meta: set<int>, b: nat, data: Block)
    requires AllConserved(n, bitmap, blocks, files, meta) && b in meta && b < n && |data| == BSIZE
    ensures AllConserved(n, bitmap, blocks[b := data], files, meta)
  {
    var after := blocks[b := data];
    forall i | 0 <= i < |files|
      ensures OneFile(bitmap, after, files[i], meta)
      ensures forall c :: HeldBy(after, files[i], c) <==> HeldBy(blocks, files[i], c)
    {
      MetaWritten(n, bitmap, blocks, files, meta, b, data, i, 0);
    }
    hide HeldBy, OneFile;
    forall c | 0 < c < n ensures InSome(after, files, c) <==> InSome(blocks, files, c) {}
  }

  // ----- what a file of the image has -----

  /** Behind the last block of a file of this size there is none, nor an indirect block before there is need of one. */
  ghost predicate NoMore(blocks: seq<Block>, addrs: seq<nat>, size: nat)
    requires |addrs| == NDIRECT + 2
  {
    && size <= (NDIRECT + NINDIRECT) * BSIZE && (PtrAt(blocks, addrs, Ind) != 0 <==> size > NDIRECT * BSIZE)
    && forall bn :: 0 <= bn < MAXFILE && size <= bn * BSIZE ==> BlockNo(blocks, addrs, bn) == 0
  }

  lemma {:induction false} NoBlocks(blocks: seq<Block>, addrs: seq<nat>)
    requires addrs == seq(NDIRECT + 2, i => 0)
    ensures Mapped(blocks, addrs, 0) && NoMore(blocks, addrs, 0)
  {
    NoPlaces(blocks, addrs);
    hide PtrAt;
  }

  /** The blocks that a file of this size takes, the indirect block included. */
  function BlocksFor(size: nat): nat {
    (size + BSIZE - 1) / BSIZE + if size > NDIRECT * BSIZE then 1 else 0
  }

  /** Places in use elsewhere, and left alone, have the same blocks. */
  lemma {:induction false} SamePlaces(n: nat, bitmap: seq<bool>, blocks: seq<Block>, after: seq<Block>,
                                      files: seq<seq<nat>>, meta: set<int>, i: nat, j: nat, size: nat)
    requires AllConserved(n, bitmap, blocks, files, meta) && i < |files| && j < |files| && j != i && |after| == n
    requires forall c :: 0 <= c < n && c in Elsewhere(bitmap, blocks, files[i]) ==> after[c] == blocks[c]
    ensures |files[j]| == NDIRECT + 2
    ensures NoMore(blocks, files[j], size) ==> NoMore(after, files[j], size)
  {
    var others := Elsewhere(bitmap, blocks, files[i]);
    OthersElsewhere(n, bitmap, blocks, files, meta, i, j, Ind);
    forall q | Ok(q) && PtrAt(blocks, files[j], q) != 0 ensures PtrAt(blocks, files[j], q) in others {
      OthersElsewhere(n, bitmap, blocks, files, meta, i, j, q);
    }
    hide Elsewhere, PtrAt, AllConserved;
    forall bn | 0 <= bn < MAXFILE ensures BlockNo(after, files[j], bn) == BlockNo(blocks, files[j], bn) {
      SamePtr(blocks, after, files[j], others, PosOf(bn));
    }
    SamePtr(blocks, after, files[j], others, Ind);
  }

  lemma {:induction false} Rounded(blocks: seq<Block>, addrs: seq<nat>, size: nat)
    requires |addrs| == NDIRECT + 2 && Mapped(blocks, addrs, size) && NoMore(blocks, addrs, size)
    ensures var whole := (size / BSIZE + 1) * BSIZE;
            && size <= whole <= MAXFILE * BSIZE
            && (Mapped(blocks, addrs, whole) <==> size % BSIZE != 0)
            && Contents(blocks, addrs, whole)[..size] == Contents(blocks, addrs, size)
  {
    hide PtrAt, BlockNo, ByteAt;
    var last := size / BSIZE;
    assert BlockNo(blocks, addrs, last) == 0 <==> size <= last * BSIZE;
    forall bn | 0 <= bn < last ensures BlockNo(blocks, addrs, bn) != 0 {
      assert bn * BSIZE < size;
    }
  }

  // ----- what appending takes -----

  lemma {:induction false} IndOnPaths(lo: nat, hi: nat)
    requires lo <= hi <= NDIRECT + NINDIRECT
    ensures Ind in Paths(lo, hi) <==> lo < hi && hi > NDIRECT
    decreases hi
  {
    if lo < hi {
      IndOnPaths(lo, hi - 1);
    }
  }

  lemma {:induction false} NotOnPaths(lo: nat, hi: nat, bn: nat)
    requires lo <= hi <= bn < MAXFILE
    ensures PosOf(bn) !in Paths(lo, hi)
    decreases hi
  {
    if lo < hi {
      NotOnPaths(lo, hi - 1, bn);
      if PosOf(bn) in Path(PosOf(hi - 1)) {
        PosOfInjective(bn, hi - 1);
      }
    }
  }

  lemma {:induction false} OnePathMore(lo: nat, bn: nat)
    requires lo <= bn < NDIRECT + NINDIRECT
    ensures PosOf(bn) != Ind
    ensures forall p :: p in Paths(lo, bn + 1) <==> p in Paths(lo, bn) || p == PosOf(bn) || (p == Ind && bn >= NDIRECT)
  {
    assert Paths(lo, bn + 1) == Paths(lo, bn) + Path(PosOf(bn));
    assert PosOf(bn) == if bn < NDIRECT then Direct(bn) else IndEntry(bn - NDIRECT);
  }

  function With(s: set<Pos>, q: Pos, one: bool): (r: set<Pos>)
    ensures |r| == |s| + if one && q !in s then 1 else 0
  {
    if one && q !in s then s + {q} else s
  }

  lemma {:induction false} LackingWith(blocks: seq<Block>, addrs: seq<nat>, ps: set<Pos>, qs: set<Pos>, q: Pos,
                                       ind: bool)
    requires |addrs| == NDIRECT + 2 && Ok(q) && forall p :: p in qs <==> p in ps || p == q || (p == Ind && ind)
    ensures Lacking(blocks, addrs, qs)
            == With(With(Lacking(blocks, addrs, ps), q, PtrAt(blocks, addrs, q) == 0), Ind,
                    ind && PtrAt(blocks, addrs, Ind) == 0)
    ensures forall p :: p in Lacking(blocks, addrs, ps) ==> p in ps && Ok(p) && PtrAt(blocks, addrs, p) == 0
    ensures Ind in ps && PtrAt(blocks, addrs, Ind) == 0 ==> Ind in Lacking(blocks, addrs, ps)
  {
    hide PtrAt;
  }

  /** One block more lacks its own place, and the first behind the direct ones the indirect block's. */
  lemma {:induction false} LackingOnPath(blocks: seq<Block>, addrs: seq<nat>, size: nat, lo: nat, bn: nat)
    requires |addrs| == NDIRECT + 2 && Mapped(blocks, addrs, size) && NoMore(blocks, addrs, size)
    requires lo == size / BSIZE <= bn < NDIRECT + NINDIRECT
    ensures |Lacking(blocks, addrs, Paths(lo, bn + 1))|
            == |Lacking(blocks, addrs, Paths(lo, bn))| + (if size <= bn * BSIZE then 1 else 0)
               + (if bn == NDIRECT && size <= NDIRECT * BSIZE then 1 else 0)
  {
    hide PtrAt, Paths;
    OnePathMore(lo, bn);
    NotOnPaths(lo, bn, bn);
    IndOnPaths(lo, bn);
    assert BlockNo(blocks, addrs, bn) == 0 <==> size <= bn * BSIZE;
    hide Mapped, NoMore, PosOf, Lacking;
    LackingWith(blocks, addrs, Paths(lo, bn), Paths(lo, bn + 1), PosOf(bn), bn >= NDIRECT);
  }

  lemma {:induction false} LackingOnPaths(blocks: seq<Block>, addrs: seq<nat>, size: nat, lo: nat, hi: nat)
    requires |addrs| == NDIRECT + 2 && Mapped(blocks, addrs, size) && NoMore(blocks, addrs, size)
    requires lo == size / BSIZE <= hi <= NDIRECT + NINDIRECT
    ensures var first := (size + BSIZE - 1) / BSIZE;
            |Lacking(blocks, addrs, Paths(lo, hi))|
            == (if hi > first then hi - first else 0) + (if hi > NDIRECT && size <= NDIRECT * BSIZE then 1 else 0)
    decreases hi
  {
    if lo == hi {
      assert Lacking(blocks, addrs, Paths(lo, hi)) == {};
    } else {
      var bn := hi - 1;
      LackingOnPaths(blocks, addrs, size, lo, bn);
      LackingOnPath(blocks, addrs, size, lo, bn);
      assert size <= bn * BSIZE <==> bn >= (size + BSIZE - 1) / BSIZE;
    }
  }

  /** What appending takes. */
  lemma {:induction false} Taken(blocks: seq<Block>, addrs: seq<nat>, size: nat, len: nat)
    requires |addrs| == NDIRECT + 2 && Mapped(blocks, addrs, size) && NoMore(blocks, addrs, size)
    requires size + len <= (NDIRECT + NINDIRECT) * BSIZE
    ensures |Lacking(blocks, addrs, Reach(size, len))| == BlocksFor(size + len) - BlocksFor(size)
  {
    hide PtrAt;
    var lo, hi := size / BSIZE, Behind(size, len);
    LackingOnPaths(blocks, addrs, size, lo, hi);
  }

  lemma {:induction false} ReachIs(off: nat, tot: nat)
    requires off + tot <= MAXFILE * BSIZE
    ensures off / BSIZE <= Behind(off, tot) <= MAXFILE && Reach(off, tot) == Paths(off / BSIZE, Behind(off, tot))
  {}

  /** Appending puts no block behind the new end. */
  lemma {:induction false} NoneBehind(bm0: seq<bool>, bl0: seq<Block>, ad0: seq<nat>, bm1: seq<bool>, bl1: seq<Block>,
                                      ad1: seq<nat>, off: nat, tot: nat)
    requires |ad0| == |ad1| == NDIRECT + 2 && off + tot <= MAXFILE * BSIZE
    requires Filled(bm0, bl0, ad0, bm1, bl1, ad1, Reach(off, tot))
    ensures forall bn :: 0 <= bn < MAXFILE && off + tot <= bn * BSIZE ==> BlockNo(bl1, ad1, bn) == BlockNo(bl0, ad0, bn)
  {
    hide PtrAt, FreeBlocks, Lacking, Paths;
    forall bn | 0 <= bn < MAXFILE && off + tot <= bn * BSIZE ensures BlockNo(bl1, ad1, bn) == BlockNo(bl0, ad0, bn) {
      NotOnPaths(off / BSIZE, Behind(off, tot), bn);
      assert PlaceFilled(bl0, ad0, bl1, ad1, Reach(off, tot), PosOf(bn));
    }
  }

  /** What the file has then. */
  lemma {:induction false} Grown(n: nat, free0: nat, bl0: seq<Block>, ad0: seq<nat>, free1: nat, bl1: seq<Block>,
                                 ad1: seq<nat>, size: nat, len: nat)
    requires |ad0| == |ad1| == NDIRECT + 2 && free0 <= n && free1 <= n && NoMore(bl0, ad0, size)
    requires Mapped(bl0, ad0, size) && size + len <= MAXFILE * BSIZE
    requires len == 0 || size + len <= (NDIRECT + NINDIRECT) * BSIZE
    requires Filled(UpTo(n, free0), bl0, ad0, UpTo(n, free1), bl1, ad1, Reach(size, len))
    ensures NoMore(bl1, ad1, size + len) && free1 == free0 + BlocksFor(size + len) - BlocksFor(size)
  {
    FreeUpTo(n, free0);
    FreeUpTo(n, free1);
    Taken(bl0, ad0, size, len);
    NoneBehind(UpTo(n, free0), bl0, ad0, UpTo(n, free1), bl1, ad1, size, len);
    hide PtrAt, FreeBlocks, Lacking, Paths, Reach;
    IndOnPaths(size / BSIZE, Behind(size, len));
    assert Reach(size, len) == Paths(size / BSIZE, Behind(size, len)) by { ReachIs(size, len); }
    assert PlaceFilled(bl0, ad0, bl1, ad1, Reach(size, len), Ind);
  }

  /** Of the bytes to append, those up to the largest size a file can have. */
  ghost predicate Within(src: seq<Byte>, xp: seq<Byte>, off: nat) {
    off + |src| <= MAXFILE * BSIZE && src <= xp && (src == xp || off + |src| == MAXFILE * BSIZE)
  }

  function Fitting(xp: seq<Byte>, off: nat): (src: seq<Byte>)
    requires off <= MAXFILE * BSIZE
    ensures Within(src, xp, off)
  {
    if off + |xp| <= MAXFILE * BSIZE then xp else xp[..MAXFILE * BSIZE - off]
  }

  lemma {:induction false} ChunkIs(at: nat, left: nat)
    ensures Chunk(at, left) == Min(left, (at / BSIZE + 1) * BSIZE - at) && at % BSIZE == at - at / BSIZE * BSIZE
  {}

  /** Below the 140th block a turn takes the same bytes of both. */
  lemma {:induction false} SameChunk(src: seq<Byte>, xp: seq<Byte>, off: nat, tot: nat)
    requires Within(src, xp, off) && tot <= |src| && tot < |xp| && (off + tot) / BSIZE < NDIRECT + NINDIRECT
    ensures var at := off + tot; var n1 := Min(|xp| - tot, (at / BSIZE + 1) * BSIZE - at);
            && tot < |src| && n1 == Chunk(at, |src| - tot) && at % BSIZE == at - at / BSIZE * BSIZE
            && xp[tot..tot + n1] == src[tot..tot + n1] && off + |src| <= MAXFILE * BSIZE
  {
    ChunkIs(off + tot, |src| - tot);
    ChunkIs(off + tot, |xp| - tot);
  }

  lemma {:induction false} SplicedEnd(c: seq<Byte>, s: seq<Byte>)
    ensures Spliced(c, |c|, s) == c + s
  {
    assert c[..|c|] == c;
  }

  // ----- what goes into the image -----

  /** An argument of mkfs: the name and what is in the file. */
  datatype File = File(name: seq<Byte>, data: seq<Byte>)

  /** A leading underscore is left out. */
  function Shown(name: seq<Byte>): seq<Byte> {
    if name != [] && name[0] == 95 then name[1..] else name
  }

  /** A directory entry of 16 bytes. */
  function Dirent(inum: nat, name: seq<Byte>): (r: seq<Byte>)
    ensures |r| == 16
  {
    var lo: seq<Byte> := [inum % 256, inum / 256 % 256];
    lo + seq(14, k requires 0 <= k => if k < |name| then name[k] else 0)
  }

  /** The root directory after k files: itself as "." and "..", and an entry for each. */
  function Entries(files: seq<File>, k: nat): (r: seq<Byte>)
    requires k <= |files|
    ensures |r| == 16 * (k + 2)
  {
    if k == 0 then Dirent(1, [46]) + Dirent(1, [46, 46])
    else Entries(files, k - 1) + Dirent(k + 1, Shown(files[k - 1].name))
  }

  /** What the kernel takes an entry of a directory for: an inode number, low byte first, and a name padded with zeros
      or cut off. */
  ghost predicate Names(e: seq<Byte>, inum: int, name: seq<Byte>) {
    && |e| == 16 && Plus(e[0], e[1]) == inum
    && forall i :: 2 <= i < 16 ==> e[i] == if i - 2 < |name| then name[i - 2] else 0
  }

  function Plus(lo: int, hi: int): int { lo + 256 * hi }

  lemma {:induction false} DirentNames(inum: nat, name: seq<Byte>)
    requires inum < 0x1_0000
    ensures Names(Dirent(inum, name), inum, name)
  {}

  /** The entry of file j has its inode number and its name without a leading underscore. */
  lemma {:induction false} EntryReads(files: seq<File>, k: nat, j: nat)
    requires j < k <= |files| && k + 1 < 0x1_0000
    ensures var e, name := Entries(files, k)[16 * (j + 2)..16 * (j + 3)], files[j].name;
            Names(e, j + 2, if name != [] && name[0] == 95 then name[1..] else name)
    decreases k
  {
    hide Dirent, Names;
    var e := Entries(files, k)[16 * (j + 2)..16 * (j + 3)];
    if j + 1 < k {
      EntryReads(files, k - 1, j);
      assert e == Entries(files, k - 1)[16 * (j + 2)..16 * (j + 3)];
    } else {
      DirentNames(j + 2, Shown(files[j].name));
      assert e == Dirent(j + 2, Shown(files[j].name));
    }
  }

  /** The blocks for the first k files and m entries of the root directory. */
  function Need(files: seq<File>, k: nat, m: nat): nat
    requires k <= |files|
  {
    if k == 0 then BlocksFor(16 * m) else Need(files, k - 1, m) + BlocksFor(|files[k - 1].data|)
  }

  lemma {:induction false} NeedGrows(files: seq<File>, k: nat, m: nat, l: nat)
    requires k <= |files| && m <= l
    ensures Need(files, k, m) <= Need(files, k, l)
    ensures Need(files, k, l) - Need(files, k, m) == BlocksFor(16 * l) - BlocksFor(16 * m)
  {
    if k > 0 {
      NeedGrows(files, k - 1, m, l);
    }
  }

  lemma {:induction false} NeedMore(files: seq<File>, k: nat, m: nat, j: nat, l: nat)
    requires k <= j <= |files| && m <= l
    ensures Need(files, k, m) <= Need(files, j, l)
    decreases j
  {
    if k == j {
      NeedGrows(files, k, m, l);
    } else {
      NeedMore(files, k, m, j - 1, l);
    }
  }

  /** No file is too long, nor the root directory, and the image has room for the first k files. */
  ghost predicate FitsTo(n: nat, nmeta: nat, files: seq<File>, k: nat)
    requires k <= |files|
  {
    && 16 * (k + 2) <= (NDIRECT + NINDIRECT) * BSIZE && nmeta + Need(files, k, k + 2) <= n
    && forall j :: 0 <= j < k ==> |files[j].data| <= (NDIRECT + NINDIRECT) * BSIZE
  }

  lemma {:induction false} FitsBefore(n: nat, nmeta: nat, files: seq<File>, k: nat, j: nat)
    requires k <= j <= |files| && FitsTo(n, nmeta, files, j)
    ensures FitsTo(n, nmeta, files, k)
  {
    NeedMore(files, k, k + 2, j, j + 2);
  }

  lemma {:induction false} OneFileMore(n: nat, nmeta: nat, files: seq<File>, k: nat)
    requires k < |files| && FitsTo(n, nmeta, files, k)
    ensures var need, size := nmeta + Need(files, k, k + 3), |files[k].data|;
            && need == nmeta + Need(files, k, k + 2) + BlocksFor(16 * (k + 3)) - BlocksFor(16 * (k + 2))
            && nmeta + Need(files, k + 1, k + 3) == need + BlocksFor(size)
            && (FitsTo(n, nmeta, files, k + 1) <==>
                && 16 * (k + 3) <= (NDIRECT + NINDIRECT) * BSIZE && need <= n
                && size <= (NDIRECT + NINDIRECT) * BSIZE && need + BlocksFor(size) <= n)
    ensures Entries(files, k + 1) == Entries(files, k) + Dirent(k + 2, Shown(files[k].name))
  {
    hide BlocksFor, Dirent;
    NeedGrows(files, k, k + 2, k + 3);
  }

  class Image {
    const n: nat
    const nmeta: nat
    const bmapstart: nat
    var sectors: seq<Block>
    var freeblock: nat

    // ----- one file -----

    /** The books of one file, and nothing written yet to the blocks behind the last one given out. */
    ghost predicate Room(ip: Inode, others: set<int>)
      reads this, ip
    {
      && |sectors| == n && freeblock <= n && |ip.addrs| == NDIRECT + 2
      && Conserved(n, UpTo(n, freeblock), sectors, ip.addrs, others) && Untouched()
    }

    ghost predicate Untouched()
      reads this
    {
      |sectors| == n && forall b :: freeblock <= b < n ==> sectors[b] == Zeros()
    }

    lemma {:induction false} AllSized(ip: Inode, others: set<int>)
      requires Room(ip, others)
      ensures forall c :: 0 <= c < |sectors| ==> |sectors[c]| == BSIZE
    {}

    lemma {:induction false} GivenOut(ip: Inode, others: set<int>, fbn: nat)
      requires Room(ip, others) && fbn < MAXFILE && BlockNo(sectors, ip.addrs, fbn) != 0
      ensures BlockNo(sectors, ip.addrs, fbn) < freeblock
    {
      PlaceOk(n, UpTo(n, freeblock), sectors, ip.addrs, others, PosOf(fbn));
    }

    lemma {:induction false} SizeFits(ip: Inode)
      requires |ip.addrs| == NDIRECT + 2 && Mapped(sectors, ip.addrs, ip.size)
      ensures ip.size <= MAXFILE * BSIZE
    {}

    /** A block number of the inode; the next free block if it is 0.  -1 when the image is full. */
    method Slot(ip: Inode, slot: nat, ghost p: Pos, ghost q: Pos, ghost others: set<int>) returns (x: int)
      requires Room(ip, others) && slot < NDIRECT + 2 && InInode(p) && Ok(p) && (IsData(p) ==> p == q)
      requires p == if slot < NDIRECT then Direct(slot) else if slot == NDIRECT then Ind else Dbl
      modifies this`freeblock, ip`addrs
      ensures x != -1 ==> Room(ip, others) && x == PtrAt(sectors, ip.addrs, p) && 0 < x < n
      ensures x != -1 ==> Extends(sectors, old(ip.addrs), sectors, ip.addrs, others, q)
      ensures x != -1 ==> Filled(UpTo(n, old(freeblock)), sectors, old(ip.addrs), UpTo(n, freeblock), sectors, ip.addrs,
                                 {p})
      ensures x == -1 ==> |FreeBlocks(UpTo(n, old(freeblock)))| < |Lacking(sectors, old(ip.addrs), {p})|
    {
      assert ip.addrs[slot] == PtrAt(sectors, ip.addrs, p);
      hide Conserved, Extends, Zeros, PtrAt, Filled, FreeBlocks, Lacking, UpTo;
      ghost var bm, ad := UpTo(n, freeblock), ip.addrs;
      PlaceOk(n, bm, sectors, ad, others, p);
      if ip.addrs[slot] == 0 {
        if freeblock == n {
          NoneFree(bm, sectors, ad, p);
          return -1;
        }
        OneUsed(n, freeblock);
        Attaches(n, bm, sectors, ad, others, p, freeblock, sectors, q);
        ip.addrs := ip.addrs[slot := freeblock];
        freeblock := freeblock + 1;
      } else {
        ExtendsSelf(sectors, ad, others, q);
        FilledAlready(bm, sectors, ad, p);
      }
      x := ip.addrs[slot];
    }

    /** Entry j of the indirect block; the next free block if it is 0. */
    method IndirectEntry(ghost ip: Inode, ind: nat, j: nat, ghost others: set<int>) returns (x: int)
      requires Room(ip, others) && j < NINDIRECT && ind == PtrAt(sectors, ip.addrs, Ind) && ind != 0
      modifies this`sectors, this`freeblock
      ensures x != -1 ==> Room(ip, others) && x == PtrAt(sectors, ip.addrs, IndEntry(j)) && 0 < x < n
      ensures x != -1 ==> Extends(old(sectors), ip.addrs, sectors, ip.addrs, others, IndEntry(j))
      ensures x != -1 ==> Filled(UpTo(n, old(freeblock)), old(sectors), ip.addrs, UpTo(n, freeblock), sectors, ip.addrs,
                                 {IndEntry(j)})
      ensures x == -1 ==> |FreeBlocks(UpTo(n, old(freeblock)))| < |Lacking(old(sectors), ip.addrs, {IndEntry(j)})|
    {
      hide Conserved, Extends, Zeros, PtrAt, Filled, FreeBlocks, Lacking, UpTo, Word, SetWord;
      ghost var bm, bl, q := UpTo(n, freeblock), sectors, IndEntry(j);
      PlaceOk(n, bm, bl, ip.addrs, others, q);
      PlaceOk(n, bm, bl, ip.addrs, others, Ind);
      ThroughParent(bl, ip.addrs, q);
      var indirect := sectors[ind];
      x := Word(indirect, j);
      if x == 0 {
        if freeblock == n {
          NoneFree(bm, bl, ip.addrs, q);
          return -1;
        }
        OneUsed(n, freeblock);
        x := freeblock;
        indirect := SetWord(indirect, j, x);
        Attaches(n, bm, sectors, ip.addrs, others, q, freeblock, sectors[ind := indirect], q);
        sectors := sectors[ind := indirect];
        freeblock := freeblock + 1;
      } else {
        ExtendsSelf(bl, ip.addrs, others, q);
        FilledAlready(bm, bl, ip.addrs, q);
      }
    }

    /** Through the indirect block. */
    method Indirect(ip: Inode, j: nat, ghost others: set<int>) returns (x: int)
      requires Room(ip, others) && j < NINDIRECT
      modifies this`sectors, this`freeblock, ip`addrs
      ensures x != -1 ==> Room(ip, others) && x == PtrAt(sectors, ip.addrs, IndEntry(j)) && 0 < x < n
      ensures x != -1 ==> Extends(old(sectors), old(ip.addrs), sectors, ip.addrs, others, IndEntry(j))
      ensures x != -1 ==> Filled(UpTo(n, old(freeblock)), old(sectors), old(ip.addrs), UpTo(n, freeblock), sectors,
                                 ip.addrs, Path(IndEntry(j)))
      ensures x == -1 ==>
                |FreeBlocks(UpTo(n, old(freeblock)))| < |Lacking(old(sectors), old(ip.addrs), Path(IndEntry(j)))|
    {
      hide Conserved, Extends, Zeros, PtrAt, Filled, FreeBlocks, Lacking, UpTo;
      ghost var bm0, bl0, ad0, q := UpTo(n, freeblock), sectors, ip.addrs, IndEntry(j);
      var ind := Slot(ip, NDIRECT, Ind, q, others);
      if ind == -1 {
        MoreLacking(bl0, ad0, {Ind}, Path(q));
        return -1;
      }
      ghost var bm1, ad1 := UpTo(n, freeblock), ip.addrs;
      x := IndirectEntry(ip, ind, j, others);
      if x == -1 {
        TooFew(bm0, bl0, ad0, bm1, bl0, ad1, {Ind}, {q}, Path(q));
        return -1;
      }
      FilledTwice(bm0, bl0, ad0, bm1, bl0, ad1, UpTo(n, freeblock), sectors, ip.addrs, {Ind}, {q});
      assert {Ind} + {q} == Path(q);
      ExtendsTwice(bl0, ad0, bl0, ad1, sectors, ip.addrs, others, q);
    }

    /** The sector of block fbn of the file.  -1 when the image is full. */
    method BlockFor(ip: Inode, fbn: nat, ghost others: set<int>) returns (x: int)
      requires Room(ip, others) && fbn < NDIRECT + NINDIRECT
      modifies this`sectors, this`freeblock, ip`addrs
      ensures x != -1 ==> Room(ip, others) && x == BlockNo(sectors, ip.addrs, fbn) && 0 < x < n
      ensures x != -1 ==> Extends(old(sectors), old(ip.addrs), sectors, ip.addrs, others, PosOf(fbn))
      ensures x != -1 ==> Filled(UpTo(n, old(freeblock)), old(sectors), old(ip.addrs), UpTo(n, freeblock), sectors,
                                 ip.addrs, Path(PosOf(fbn)))
      ensures x == -1 ==>
                |FreeBlocks(UpTo(n, old(freeblock)))| < |Lacking(old(sectors), old(ip.addrs), Path(PosOf(fbn)))|
    {
      hide Conserved, Extends, Zeros, PtrAt, Filled, FreeBlocks, Lacking, UpTo;
      if fbn < NDIRECT {
        x := Slot(ip, fbn, Direct(fbn), PosOf(fbn), others);
      } else {
        x := Indirect(ip, fbn - NDIRECT, others);
      }
    }

    /** One turn of iappend's loop; false when the image is full, or the block's number would be behind the end of the
        indirect block: the source asks for fbn < MAXFILE only. */
    method AppendTurn(ip: Inode, xp: seq<Byte>, off: nat, tot: nat, ghost src: seq<Byte>, ghost bl0: seq<Block>,
                      ghost ad0: seq<nat>, ghost bm0: seq<bool>, ghost others: set<int>) returns (ok: bool)
      requires Room(ip, others) && tot <= |src| && tot < |xp| && Within(src, xp, off)
      requires |ad0| == NDIRECT + 2 && |bl0| == n && WrittenUpTo(bl0, ad0, sectors, ip.addrs, off, off, src, tot)
      requires Filled(bm0, bl0, ad0, UpTo(n, freeblock), sectors, ip.addrs, Reach(off, tot))
      requires forall c :: 0 <= c < n && c in others ==> sectors[c] == bl0[c]
      requires tot == 0 || (off + tot) % BSIZE == 0
      modifies this`sectors, this`freeblock, ip`addrs
      ensures ok ==> Room(ip, others) && (off + tot) / BSIZE < NDIRECT + NINDIRECT
      ensures !ok ==> (off + tot) / BSIZE >= NDIRECT + NINDIRECT
                      || |FreeBlocks(bm0)| < |Lacking(bl0, ad0, Reach(off, |src|))|
      ensures ok ==> var next := tot + Chunk(off + tot, |src| - tot);
                WrittenUpTo(bl0, ad0, sectors, ip.addrs, off, off, src, next)
                && Filled(bm0, bl0, ad0, UpTo(n, freeblock), sectors, ip.addrs, Reach(off, next))
                && (next == |src| || (off + next) % BSIZE == 0)
      ensures ok ==> forall c :: 0 <= c < n && c in others ==> sectors[c] == bl0[c]
    {
      hide Conserved, Zeros, PtrAt, Mapped, WrittenUpTo, Patched, BlockNo, PosOf, Chunk, Filled, FreeBlocks, Lacking,
           Reach, Path, Behind, UpTo, Within;
      var at := off + tot;
      var fbn := at / BSIZE;
      if fbn >= NDIRECT + NINDIRECT {
        return false;
      }
      SameChunk(src, xp, off, tot);
      ghost var bl1, ad1, bm1 := sectors, ip.addrs, UpTo(n, freeblock);
      AllSized(ip, others);
      ReachNext(off, tot, |src|);
      var x := BlockFor(ip, fbn, others);
      if x == -1 {
        ReachGrows(off, tot + Chunk(at, |src| - tot), |src|);
        TooFew(bm0, bl0, ad0, bm1, bl1, ad1, Reach(off, tot), Path(PosOf(fbn)), Reach(off, |src|));
        return false;
      }
      AllSized(ip, others);
      ghost var bl2, bm2 := sectors, UpTo(n, freeblock);
      var n1 := Min(|xp| - tot, (fbn + 1) * BSIZE - at);
      var data := Patched(sectors[x], at - fbn * BSIZE, xp[tot..tot + n1]);
      WholeTurn(n, bm0, bl0, ad0, bm1, bl1, ad1, bm2, bl2, ip.addrs, others, off, off, src, tot, data);
      GivenOut(ip, others, fbn);
      sectors := sectors[x := data];
      return true;
    }

    /** iappend: the bytes are at the end of the file; false when the image is full or the file would need more than 139
        blocks. */
    method Append(ip: Inode, xp: seq<Byte>, ghost others: set<int>) returns (ok: bool)
      requires Room(ip, others) && Mapped(sectors, ip.addrs, ip.size)
      modifies this`sectors, this`freeblock, ip
      ensures ok ==> Room(ip, others) && Mapped(sectors, ip.addrs, ip.size)
      ensures ok ==> Contents(sectors, ip.addrs, ip.size) == Contents(old(sectors), old(ip.addrs), old(ip.size)) + xp
      ensures ok ==> forall c :: 0 <= c < n && c in others ==> sectors[c] == old(sectors)[c]
      ensures ok ==> ip.size == old(ip.size) + |xp| <= MAXFILE * BSIZE && |ip.addrs| == NDIRECT + 2
      ensures ok ==> Filled(UpTo(n, old(freeblock)), old(sectors), old(ip.addrs), UpTo(n, freeblock), sectors, ip.addrs,
                            Reach(old(ip.size), |xp|))
      ensures ok <==>
              || xp == []
              || (old(ip.size) + |xp| <= (NDIRECT + NINDIRECT) * BSIZE
                  && |Lacking(old(sectors), old(ip.addrs), Reach(old(ip.size), |xp|))| <= n - old(freeblock))
    {
      hide Conserved, Zeros, PtrAt, Mapped, WrittenUpTo, Filled, FreeBlocks, Lacking, Reach, Chunk, UpTo, Contents,
           Spliced, Fitting;
      var off, tot := ip.size, 0;
      SizeFits(ip);
      ghost var src := Fitting(xp, off);
      ghost var bl0, ad0, bm0 := sectors, ip.addrs, UpTo(n, freeblock);
      FreeUpTo(n, freeblock);
      NothingWritten(sectors, ip.addrs, off, off, src);
      NothingFilled(bm0, sectors, ip.addrs, off);
      while tot < |xp|
        invariant tot <= |src| && Within(src, xp, off) && Room(ip, others) && ip.size == off
        invariant tot > 0 ==> off + tot <= (NDIRECT + NINDIRECT) * BSIZE
        invariant tot == 0 || tot == |src| || (off + tot) % BSIZE == 0
        invariant WrittenUpTo(bl0, ad0, sectors, ip.addrs, off, off, src, tot)
        invariant Filled(bm0, bl0, ad0, UpTo(n, freeblock), sectors, ip.addrs, Reach(off, tot))
        invariant forall c :: 0 <= c < n && c in others ==> sectors[c] == bl0[c]
      {
        ok := AppendTurn(ip, xp, off, tot, src, bl0, ad0, bm0, others);
        if !ok {
          return;
        }
        tot := tot + Min(|xp| - tot, ((off + tot) / BSIZE + 1) * BSIZE - (off + tot));
      }
      assert src == xp;
      EnoughBlocks(bm0, bl0, ad0, UpTo(n, freeblock), sectors, ip.addrs, Reach(off, |xp|));
      AllWritten(bl0, ad0, sectors, ip.addrs, off, off, xp);
      SplicedEnd(Contents(bl0, ad0, off), xp);
      ok := true;
      ip.size := off + tot;
    }

    // ----- all files -----

    /** The books of all files. */
    ghost predicate Books(ips: seq<Inode>)
      reads this, ips
    {
      && 0 < nmeta <= freeblock <= n < 0x1_0000_0000 && |sectors| == n && bmapstart + n / BPB + 1 <= nmeta
      && (forall i, j :: 0 <= i < j < |ips| ==> ips[i] != ips[j])
      && AllConserved(n, UpTo(n, freeblock), sectors, AddrsOf(ips), Meta(nmeta))
    }

    /** Every file has the blocks that its size reaches, and no others. */
    ghost predicate Filed(ips: seq<Inode>)
      reads this, ips
    {
      Books(ips) && forall i :: 0 <= i < |ips| ==> InOrder(ips[i]) && Snug(ips[i])
    }

    ghost predicate Snug(ip: Inode)
      reads this, ip
    {
      |ip.addrs| == NDIRECT + 2 && NoMore(sectors, ip.addrs, ip.size)
    }

    ghost predicate InOrder(ip: Inode)
      reads this, ip
    {
      |ip.addrs| == NDIRECT + 2 && Mapped(sectors, ip.addrs, ip.size)
    }

    /** The bytes of a file. */
    ghost function Bytes(ip: Inode): seq<Byte>
      reads this, ip
      requires InOrder(ip)
    {
      Contents(sectors, ip.addrs, ip.size)
    }

    /** The bitmap has not been written yet. */
    ghost predicate Unmarked()
      reads this
    {
      |sectors| == n && forall b :: bmapstart <= b < nmeta && b < n ==> sectors[b] == Zeros()
    }

    lemma {:induction false} FiledMeans(ips: seq<Inode>)
      requires Filed(ips)
      ensures freeblock <= n && forall j :: 0 <= j < |ips| ==> InOrder(ips[j])
    {}

    /** All sectors zero, and the first nmeta of them the file system's own. */
    constructor (n: nat, nmeta: nat, bmapstart: nat)
      requires n < 0x1_0000_0000 && bmapstart + n / BPB + 1 <= nmeta <= n
      ensures Filed([]) && Untouched() && Unmarked()
      ensures this.n == n && this.nmeta == nmeta && this.bmapstart == bmapstart && freeblock == nmeta
    {
      this.n, this.nmeta, this.bmapstart := n, nmeta, bmapstart;
      sectors, freeblock := seq(n, b => Zeros()), nmeta;
      new;
      hide Zeros, UpTo;
      assert AddrsOf([]) == [];
    }

    /** ialloc: one more file, empty. */
    method Ialloc(ips: seq<Inode>) returns (ip: Inode)
      requires Filed(ips)
      ensures fresh(ip) && Filed(ips + [ip]) && InOrder(ip) && Bytes(ip) == []
      ensures forall j :: 0 <= j < |ips| ==> Bytes(ips[j]) == old(Bytes(ips[j]))
    {
      hide AllConserved, Contents, UpTo, PtrAt, Mapped, NoMore, Meta;
      ip := new Inode();
      assert AddrsOf(ips + [ip]) == AddrsOf(ips) + [ip.addrs];
      FileAdded(n, UpTo(n, freeblock), sectors, AddrsOf(ips), Meta(nmeta), ip.addrs);
      NoBlocks(sectors, ip.addrs);
      forall j | 0 <= j < |ips| ensures InOrder(ips[j]) && Snug(ips[j]) {
        assert old(InOrder(ips[j])) && old(Snug(ips[j]));
      }
    }

    /** iappend to file i: its bytes are followed by the new ones, every other file has the same bytes, and the books of
        all are in order. */
    method AppendTo(ips: seq<Inode>, i: nat, xp: seq<Byte>) returns (ok: bool)
      requires Filed(ips) && Untouched() && Unmarked() && i < |ips|
      modifies this`sectors, this`freeblock, ips[i]
      ensures ok ==> Filed(ips) && Untouched() && Unmarked()
      ensures ok ==> InOrder(ips[i]) && Bytes(ips[i]) == old(Bytes(ips[i])) + xp
      ensures ok ==> forall j :: 0 <= j < |ips| && j != i ==> InOrder(ips[j]) && Bytes(ips[j]) == old(Bytes(ips[j]))
      ensures var size := |old(Bytes(ips[i]))|;
              ok <==>
              || xp == []
              || (size + |xp| <= (NDIRECT + NINDIRECT) * BSIZE
                  && old(freeblock) + BlocksFor(size + |xp|) - BlocksFor(size) <= n)
      ensures ok ==> freeblock == old(freeblock) + BlocksFor(|Bytes(ips[i])|) - BlocksFor(|old(Bytes(ips[i]))|)
    {
      hide PtrAt, Conserved, Elsewhere, AllConserved, Contents, Mapped, Lacking, Reach, UpTo, Zeros, HeldBy, BlockNo,
           NoMore, Filled, FreeBlocks, BlocksFor;
      ghost var bm, bl, files, meta := UpTo(n, freeblock), sectors, AddrsOf(ips), Meta(nmeta);
      FocusOn(n, bm, bl, files, meta, i);
      MetaElsewhere(n, bm, bl, files, meta, i);
      ghost var others := Elsewhere(bm, bl, files[i]);
      assert InOrder(ips[i]) && Snug(ips[i]);
      ghost var ad, size, free := ips[i].addrs, ips[i].size, freeblock;
      if size + |xp| <= (NDIRECT + NINDIRECT) * BSIZE {
        Taken(bl, ad, size, |xp|);
      }
      ok := Append(ips[i], xp, others);
      if ok {
        Grown(n, free, bl, ad, freeblock, sectors, ips[i].addrs, size, |xp|);
        AllKept(n, bm, bl, files, meta, i, UpTo(n, freeblock), sectors, ips[i].addrs);
        assert AddrsOf(ips) == files[i := ips[i].addrs];
        MetaInUse(n, freeblock, nmeta, sectors, AddrsOf(ips));
        forall j | 0 <= j < |ips| && j != i
          ensures InOrder(ips[j]) && Snug(ips[j]) && Bytes(ips[j]) == old(Bytes(ips[j]))
        {
          assert old(InOrder(ips[j])) && old(Snug(ips[j]));
          Unfocus(n, bm, bl, UpTo(n, freeblock), sectors, files, meta, i, j, ips[i].addrs, ips[j].size);
          SamePlaces(n, bm, bl, sectors, files, meta, i, j, ips[j].size);
        }
        forall b | bmapstart <= b < nmeta ensures sectors[b] == Zeros() {
          assert b in meta;
        }
      }
    }

    /** What main does with an open file: it reads and appends a block at a time. */
    method AddData(ips: seq<Inode>, i: nat, data: seq<Byte>) returns (ok: bool)
      requires Filed(ips) && Untouched() && Unmarked() && i < |ips| && Bytes(ips[i]) == []
      modifies this`sectors, this`freeblock, ips[i]
      ensures ok ==> Filed(ips) && Untouched() && Unmarked() && InOrder(ips[i]) && Bytes(ips[i]) == data
      ensures ok ==> forall j :: 0 <= j < |ips| && j != i ==> InOrder(ips[j]) && Bytes(ips[j]) == old(Bytes(ips[j]))
      ensures ok <==> |data| <= (NDIRECT + NINDIRECT) * BSIZE && old(freeblock) + BlocksFor(|data|) <= n
      ensures ok ==> freeblock == old(freeblock) + BlocksFor(|data|)
    {
      hide Filed, Untouched, Unmarked, InOrder;
      FiledMeans(ips);
      ok := true;
      var pos := 0;
      while pos < |data|
        invariant 0 <= pos <= |data| && pos <= (NDIRECT + NINDIRECT) * BSIZE && ok
        invariant Filed(ips) && Untouched() && Unmarked()
        invariant InOrder(ips[i]) && Bytes(ips[i]) == data[..pos]
        invariant freeblock == old(freeblock) + BlocksFor(pos) <= n
        invariant forall j :: 0 <= j < |ips| && j != i ==> InOrder(ips[j]) && Bytes(ips[j]) == old(Bytes(ips[j]))
      {
        var cc := Min(|data| - pos, BSIZE);
        ok := AppendTo(ips, i, data[pos..pos + cc]);
        if !ok {
          return;
        }
        assert data[..pos] + data[pos..pos + cc] == data[..pos + cc];
        FiledMeans(ips);
        pos := pos + cc;
      }
      assert data[..pos] == data;
    }

    /** The image after the first k files. */
    ghost predicate Laid(ips: seq<Inode>, files: seq<File>, k: nat)
      requires k <= |files|
      reads this, ips
    {
      && Filed(ips) && Untouched() && Unmarked() && |ips| == k + 1
      && freeblock == nmeta + Need(files, k, k + 2)
      && (forall j :: 0 <= j <= k ==> InOrder(ips[j])) && Bytes(ips[0]) == Entries(files, k)
      && forall j :: 0 < j <= k ==> Bytes(ips[j]) == files[j - 1].data
    }

    /** The root directory with its entries for itself. */
    method Root(files: seq<File>) returns (ok: bool, ips: seq<Inode>)
      requires Filed([]) && Untouched() && Unmarked() && freeblock == nmeta
      modifies this`sectors, this`freeblock
      ensures ok <==> FitsTo(n, nmeta, files, 0)
      ensures ok ==> Laid(ips, files, 0) && |ips| == 1 && fresh(ips[0])
    {
      hide Filed, Untouched, Unmarked, InOrder, Dirent;
      var ip := Ialloc([]);
      assert [] + [ip] == [ip];
      ips := [ip];
      FiledMeans(ips);
      ok := AppendTo(ips, 0, Dirent(1, [46]));
      if ok {
        ok := AppendTo(ips, 0, Dirent(1, [46, 46]));
      }
      if ok {
        FiledMeans(ips);
        assert [] + Dirent(1, [46]) == Dirent(1, [46]);
      }
    }

    /** One more file: its inode, its entry in the root directory, and its bytes. */
    method AddFile(ips: seq<Inode>, files: seq<File>, k: nat) returns (ok: bool, more: seq<Inode>)
      requires k < |files| && Laid(ips, files, k) && FitsTo(n, nmeta, files, k)
      modifies this`sectors, this`freeblock, ips[0]
      ensures ok <==> FitsTo(n, nmeta, files, k + 1)
      ensures ok ==> Laid(more, files, k + 1) && |ips| == k + 1 && |more| == k + 2
      ensures ok ==> more[..k + 1] == ips && fresh(more[k + 1])
    {
      hide Filed, Untouched, Unmarked, InOrder, BlocksFor, Need, FitsTo, Entries, Dirent;
      OneFileMore(n, nmeta, files, k);
      var ip := Ialloc(ips);
      more := ips + [ip];
      FiledMeans(more);
      assert forall j :: 0 <= j <= k ==> more[j] == ips[j];
      var name := files[k].name;
      if name != [] && name[0] == 95 {
        name := name[1..];
      }
      ok := AppendTo(more, 0, Dirent(k + 2, name));
      if !ok {
        return;
      }
      ok := AddData(more, k + 1, files[k].data);
      if ok {
        FiledMeans(more);
      }
    }

    /** The end of main: the root directory gets the size of whole blocks, one more than it has if it fills them. */
    method RoundRoot(ips: seq<Inode>)
      requires Filed(ips) && ips != []
      modifies ips[0]
      ensures Books(ips) && ips[0].size == (old(ips[0].size) / BSIZE + 1) * BSIZE
      ensures InOrder(ips[0]) <==> old(ips[0].size) % BSIZE != 0
      ensures InOrder(ips[0]) ==> Bytes(ips[0])[..old(ips[0].size)] == old(Bytes(ips[0]))
      ensures forall j :: 1 <= j < |ips| ==> InOrder(ips[j]) && Bytes(ips[j]) == old(Bytes(ips[j]))
    {
      hide AllConserved, PtrAt, BlockNo, Contents, Mapped, NoMore, ByteAt;
      ghost var was := ips[0].size;
      assert InOrder(ips[0]) && Snug(ips[0]);
      ips[0].size := (ips[0].size / BSIZE + 1) * BSIZE;
      assert AddrsOf(ips) == old(AddrsOf(ips));
      Rounded(sectors, ips[0].addrs, was);
      forall j | 1 <= j < |ips| ensures InOrder(ips[j]) && Bytes(ips[j]) == old(Bytes(ips[j])) {
        assert old(InOrder(ips[j]));
      }
    }

    // ----- the bitmap -----

    /** balloc(freeblock): marks the blocks given out; false when there are more than one bitmap block has bits for. */
    method WriteBitmap(ips: seq<Inode>) returns (ok: bool)
      requires Books(ips) && Unmarked()
      modifies this`sectors
      ensures Books(ips) && (ok <==> freeblock < BSIZE * 8)
      ensures forall j :: 0 <= j < |ips| ==> (InOrder(ips[j]) <==> old(InOrder(ips[j])))
      ensures forall j :: 0 <= j < |ips| && old(InOrder(ips[j])) ==> Bytes(ips[j]) == old(Bytes(ips[j]))
      ensures ok ==> bmapstart + n / BPB + 1 <= |sectors|
                     && Encoded(n, UpTo(n, freeblock), sectors[bmapstart..bmapstart + n / BPB + 1])
    {
      hide AllConserved, Contents, Mapped, UpTo, Zeros, Bit, Marked, SetBit;
      if freeblock >= BSIZE * 8 {
        return false;
      }
      var buf, i := Zeros(), 0;
      NoBits();
      while i < freeblock
        invariant unchanged(this) && 0 <= i <= freeblock && |buf| == BSIZE && BitsUpTo(buf, i)
      {
        OneBitMore(buf, i);
        buf := Marked(buf, i, true);
        i := i + 1;
      }
      MarksUpTo(n, freeblock, sectors, bmapstart, buf);
      ghost var bl := sectors;
      MetaKept(n, UpTo(n, freeblock), sectors, AddrsOf(ips), Meta(nmeta), bmapstart, buf);
      sectors := sectors[bmapstart := buf];
      forall j | 0 <= j < |ips|
        ensures InOrder(ips[j]) <==> old(InOrder(ips[j]))
        ensures old(InOrder(ips[j])) ==> Bytes(ips[j]) == old(Bytes(ips[j]))
      {
        MetaWritten(n, UpTo(n, freeblock), bl, AddrsOf(ips), Meta(nmeta), bmapstart, buf, j, ips[j].size);
      }
      return true;
    }

    /** The finished image: every file has its bytes, and the root directory begins with its entries, if its size does
        not reach behind its last block. */
    ghost predicate Made(ips: seq<Inode>, files: seq<File>)
      reads this, ips
    {
      && Books(ips) && |ips| == |files| + 1
      && Encoded(n, UpTo(n, freeblock), sectors[bmapstart..bmapstart + n / BPB + 1])
      && (forall j :: 0 < j < |ips| ==> InOrder(ips[j]) && Bytes(ips[j]) == files[j - 1].data)
      && (InOrder(ips[0]) <==> (|files| + 2) % 32 != 0)
      && (InOrder(ips[0]) ==> Entries(files, |files|) <= Bytes(ips[0]))
    }

    /** The end of main. */
    method Finish(ips: seq<Inode>, files: seq<File>) returns (ok: bool)
      requires Laid(ips, files, |files|)
      modifies this`sectors, ips[0]
      ensures ok <==> nmeta + Need(files, |files|, |files| + 2) < BSIZE * 8
      ensures ok ==> Made(ips, files)
    {
      hide Books, Unmarked, InOrder, Encoded, UpTo, Entries, Contents, Need;
      assert ips[0].size == |Bytes(ips[0])|;
      RoundRoot(ips);
      ghost var names := Entries(files, |files|);
      assert InOrder(ips[0]) ==> names <= Bytes(ips[0]);
      ok := WriteBitmap(ips);
    }

    /** The kernel's file system over the image. */
    method Mount(ips: seq<Inode>) returns (fs: FileSystem)
      requires Books(ips) && Encoded(n, UpTo(n, freeblock), sectors[bmapstart..bmapstart + n / BPB + 1])
      ensures fresh(fs) && (AllOk(fs, ips, Meta(nmeta)) <==> forall j :: 0 <= j < |ips| ==> InOrder(ips[j]))
      ensures forall j :: 0 <= j < |ips| ==> (SizeOk(fs, ips[j]) <==> old(InOrder(ips[j])))
      ensures forall j :: 0 <= j < |ips| && old(InOrder(ips[j])) ==> BytesOf(fs, ips[j]) == old(Bytes(ips[j]))
    {
      hide AllConserved, Contents, Mapped, UpTo, Encoded;
      var maps := sectors[bmapstart..bmapstart + n / BPB + 1];
      fs := new FileSystem.Mount(n, bmapstart, maps, sectors, UpTo(n, freeblock));
      assert forall j :: 0 <= j < |ips| ==> (SizeOk(fs, ips[j]) <==> InOrder(ips[j]));
    }
  }

  // ----- the whole program -----

  /** mkfs.  It succeeds exactly when no file nor the root directory is too long, and there is room for all of them on
      the image and in one bitmap block.  What it leaves is a file system in order, but for the root directory: its size
      reaches behind its last block exactly when its entries fill that block. */
  method Make(n: nat, nmeta: nat, bmapstart: nat, files: seq<File>) returns (ok: bool, image: Image, ips: seq<Inode>)
    requires n < 0x1_0000_0000 && bmapstart + n / BPB + 1 <= nmeta <= n
    ensures ok <==> FitsTo(n, nmeta, files, |files|) && nmeta + Need(files, |files|, |files| + 2) < BSIZE * 8
    ensures ok ==> image.Made(ips, files) && image.n == n && image.nmeta == nmeta
  {
    hide Image.Filed, Image.Untouched, Image.Unmarked, Image.Laid, Image.Made, Need, FitsTo;
    image := new Image(n, nmeta, bmapstart);
    ok, ips := image.Root(files);
    if FitsTo(n, nmeta, files, |files|) {
      FitsBefore(n, nmeta, files, 0, |files|);
    }
    if !ok {
      return;
    }
    var k := 0;
    while k < |files|
      invariant 0 <= k <= |files| && |ips| == k + 1 && ok && fresh(image)
      invariant forall j :: 0 <= j < |ips| ==> fresh(ips[j])
      invariant image.n == n && image.nmeta == nmeta && image.bmapstart == bmapstart
      invariant image.Laid(ips, files, k) && FitsTo(n, nmeta, files, k)
    {
      ok, ips := image.AddFile(ips, files, k);
      if !ok {
        if FitsTo(n, nmeta, files, |files|) {
          FitsBefore(n, nmeta, files, k + 1, |files|);
        }
        return;
      }
      k := k + 1;
    }
    ok := image.Finish(ips, files);
  }

  /** The kernel, started from that image, reads what mkfs was given: from a file its bytes, from the root directory the
      entries. */
  method ReadBack(image: Image, ips: seq<Inode>, ghost files: seq<File>, i: nat, off: nat, count: nat)
    returns (r: IoResult)
    requires image.Made(ips, files) && image.InOrder(ips[0]) && i < |ips|
    requires off < 0x1_0000_0000 && count < 0x1_0000_0000
    modifies ips[i]
    ensures i > 0 ==> var data := files[i - 1].data;
              r == if off > |data| || off + count >= 0x1_0000_0000 then Error
                   else Data(data[off..Min(off + count, |data|)])
    ensures i == 0 && off + count <= 16 * (|files| + 2) ==>
              r == Data(Entries(files, |files|)[off..off + count])
  {
    hide Image.Books, Encoded, UpTo, Entries, Contents, AllOk;
    var fs := image.Mount(ips);
    r := ReadFrom(fs, ips, Meta(image.nmeta), i, off, count);
  }
}
