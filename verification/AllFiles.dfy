/** All the files of a file system together (fs.c): each block in use is in one of them, or its own. */
module AllFiles {
  import opened FileBitmap
  import opened FileBlocks
  import opened FileLayer
  import opened FileSpace

  /** A file by itself; `meta` are the boot block, the log, the inodes and the bitmap. */
  ghost predicate OneFile(bitmap: seq<bool>, blocks: seq<Block>, addrs: seq<nat>, meta: set<int>) {
    && |addrs| == NDIRECT + 2
    && (forall q :: Ok(q) ==> PtrOk(bitmap, blocks, addrs, meta, q))
    && (forall q, r :: Ok(q) && Ok(r) ==> Apart(blocks, addrs, q, r))
  }

  ghost predicate HeldBy(blocks: seq<Block>, addrs: seq<nat>, b: int) {
    |addrs| == NDIRECT + 2 && Holds(blocks, addrs, b)
  }

  ghost predicate InSome(blocks: seq<Block>, files: seq<seq<nat>>, b: int) {
    exists i :: 0 <= i < |files| && HeldBy(blocks, files[i], b)
  }

  /** Block conservation for all files. */
  ghost predicate AllConserved(n: nat, bitmap: seq<bool>, blocks: seq<Block>, files: seq<seq<nat>>, meta: set<int>) {
    && |bitmap| == |blocks| == n < 0x1_0000_0000 && 0 in meta && n > 0 && bitmap[0]
    && (forall b :: 0 <= b < n ==> |blocks[b]| == BSIZE)
    && (forall i :: 0 <= i < |files| ==> OneFile(bitmap, blocks, files[i], meta))
    && (forall i, j, b :: 0 <= i < j < |files| && 0 < b < n ==>
         !(HeldBy(blocks, files[i], b) && HeldBy(blocks, files[j], b)))
    && (forall b :: 0 < b < n ==> (bitmap[b] <==> b in meta || InSome(blocks, files, b)))
  }

  /** The blocks in use for anything but this file. */
  ghost function Elsewhere(bitmap: seq<bool>, blocks: seq<Block>, addrs: seq<nat>): (s: set<int>)
    ensures 0 in s && forall b :: 0 < b < |bitmap| ==> (b in s <==> bitmap[b] && !HeldBy(blocks, addrs, b))
  {
    {0} + set b: int | 0 < b < |bitmap| && bitmap[b] && !HeldBy(blocks, addrs, b)
  }

  /** Seen from one file, all the others are blocks in use elsewhere. */
  lemma {:induction false} FocusOn(n: nat, bitmap: seq<bool>, blocks: seq<Block>, files: seq<seq<nat>>, meta: set<int>,
                                   i: nat)
    requires AllConserved(n, bitmap, blocks, files, meta) && i < |files|
    ensures Conserved(n, bitmap, blocks, files[i], Elsewhere(bitmap, blocks, files[i]))
  {
    var addrs, others := files[i], Elsewhere(bitmap, blocks, files[i]);
    hide PtrAt, Elsewhere;
    assert OneFile(bitmap, blocks, addrs, meta);
    forall q | Ok(q) ensures PtrOk(bitmap, blocks, addrs, others, q) {
      assert PtrOk(bitmap, blocks, addrs, meta, q);
      assert Holds(blocks, addrs, PtrAt(blocks, addrs, q));
    }
    forall b | 0 < b < n ensures bitmap[b] <==> b in others || Holds(blocks, addrs, b) {
      if Holds(blocks, addrs, b) {
        var q :| Ok(q) && PtrAt(blocks, addrs, q) == b;
        assert PtrOk(bitmap, blocks, addrs, meta, q);
      }
    }
  }

  /** The blocks of any other file are among those in use elsewhere. */
  lemma {:induction false} OthersElsewhere(n: nat, bitmap: seq<bool>, blocks: seq<Block>, files: seq<seq<nat>>,
                                           meta: set<int>, i: nat, j: nat, q: Pos)
    requires AllConserved(n, bitmap, blocks, files, meta) && i < |files| && j < |files| && i != j && Ok(q)
    ensures |files[j]| == NDIRECT + 2
    ensures var b := PtrAt(blocks, files[j], q); b != 0 ==> b < n && b in Elsewhere(bitmap, blocks, files[i])
  {
    hide PtrAt, Elsewhere;
    assert OneFile(bitmap, blocks, files[j], meta) && PtrOk(bitmap, blocks, files[j], meta, q);
    assert HeldBy(blocks, files[j], PtrAt(blocks, files[j], q));
  }

  /** A file whose blocks are left alone stays one, with the same blocks in the same places. */
  lemma {:induction false} FileStays(n: nat, bitmap: seq<bool>, blocks: seq<Block>, more: seq<bool>, after: seq<Block>,
                                     addrs: seq<nat>, meta: set<int>, others: set<int>)
    requires OneFile(bitmap, blocks, addrs, meta) && |bitmap| == |more| == |blocks| == |after| == n
    requires forall c :: 0 <= c < n && c in others ==> after[c] == blocks[c] && more[c]
    requires forall q :: Ok(q) && PtrAt(blocks, addrs, q) != 0 ==> PtrAt(blocks, addrs, q) in others
    ensures OneFile(more, after, addrs, meta) && forall b :: HeldBy(after, addrs, b) <==> HeldBy(blocks, addrs, b)
  {
    forall q | Ok(q) ensures PtrAt(after, addrs, q) == PtrAt(blocks, addrs, q) {
      SamePtr(blocks, after, addrs, others, q);
    }
    hide PtrAt;
    forall q | Ok(q) ensures PtrOk(more, after, addrs, meta, q) {
      assert PtrOk(bitmap, blocks, addrs, meta, q);
    }
    forall q, r | Ok(q) && Ok(r) ensures Apart(after, addrs, q, r) {
      assert Apart(blocks, addrs, q, r);
    }
    forall b ensures HeldBy(after, addrs, b) <==> HeldBy(blocks, addrs, b) {
      if q :| Ok(q) && PtrAt(blocks, addrs, q) == b {
        assert PtrAt(after, addrs, q) == b;
      }
      if q :| Ok(q) && PtrAt(after, addrs, q) == b {
        assert PtrAt(blocks, addrs, q) == b;
      }
    }
  }

  lemma {:induction false} ConservedIsFile(n: nat, bitmap: seq<bool>, blocks: seq<Block>, addrs: seq<nat>,
                                           others: set<int>, meta: set<int>)
    requires Conserved(n, bitmap, blocks, addrs, others) && forall b :: 0 < b < n && b in meta ==> b in others
    ensures OneFile(bitmap, blocks, addrs, meta)
    ensures forall b :: 0 < b < n && HeldBy(blocks, addrs, b) ==> b !in others
  {
    hide PtrAt;
    forall q | Ok(q) ensures PtrOk(bitmap, blocks, addrs, meta, q) {
      assert PtrOk(bitmap, blocks, addrs, others, q);
    }
    forall b | 0 < b < n && HeldBy(blocks, addrs, b) ensures b !in others {
      var q :| Ok(q) && PtrAt(blocks, addrs, q) == b;
      assert PtrOk(bitmap, blocks, addrs, others, q);
    }
  }

  /** Whatever was done to one file with the blocks in use elsewhere left alone, the books of all files are in order. */
  lemma {:induction false} AllKept(n: nat, bitmap: seq<bool>, blocks: seq<Block>, files: seq<seq<nat>>, meta: set<int>,
                                   i: nat, more: seq<bool>, after: seq<Block>, addrs: seq<nat>)
    requires AllConserved(n, bitmap, blocks, files, meta) && i < |files|
    requires Conserved(n, more, after, addrs, Elsewhere(bitmap, blocks, files[i]))
    requires forall c :: 0 <= c < n && c in Elsewhere(bitmap, blocks, files[i]) ==> after[c] == blocks[c]
    ensures AllConserved(n, more, after, files[i := addrs], meta)
  {
    var others, now := Elsewhere(bitmap, blocks, files[i]), files[i := addrs];
    forall j | 0 <= j < |files| && j != i
      ensures OneFile(more, after, files[j], meta)
      ensures forall b :: HeldBy(after, files[j], b) <==> HeldBy(blocks, files[j], b)
      ensures forall b :: 0 < b < n && HeldBy(blocks, files[j], b) ==> b in others
    {
      OtherStays(n, bitmap, blocks, files, meta, i, j, more, after, addrs);
    }
    MetaElsewhere(n, bitmap, blocks, files, meta, i);
    ConservedIsFile(n, more, after, addrs, others, meta);
    hide PtrAt, HeldBy, Elsewhere, OneFile;
    forall b | 0 < b < n ensures more[b] <==> b in meta || InSome(after, now, b) {
      OneBit(n, bitmap, blocks, files, meta, i, more, after, addrs, b);
    }
  }

  lemma {:induction false} OtherStays(n: nat, bitmap: seq<bool>, blocks: seq<Block>, files: seq<seq<nat>>,
                                      meta: set<int>, i: nat, j: nat, more: seq<bool>, after: seq<Block>,
                                      addrs: seq<nat>)
    requires AllConserved(n, bitmap, blocks, files, meta) && i < |files| && j < |files| && i != j
    requires Conserved(n, more, after, addrs, Elsewhere(bitmap, blocks, files[i]))
    requires forall c :: 0 <= c < n && c in Elsewhere(bitmap, blocks, files[i]) ==> after[c] == blocks[c]
    ensures OneFile(more, after, files[j], meta)
    ensures forall b :: HeldBy(after, files[j], b) <==> HeldBy(blocks, files[j], b)
    ensures forall b :: 0 < b < n && HeldBy(blocks, files[j], b) ==> b in Elsewhere(bitmap, blocks, files[i])
  {
    var others := Elsewhere(bitmap, blocks, files[i]);
    assert OneFile(bitmap, blocks, files[j], meta);
    forall q | Ok(q) && PtrAt(blocks, files[j], q) != 0 ensures PtrAt(blocks, files[j], q) in others {
      OthersElsewhere(n, bitmap, blocks, files, meta, i, j, q);
    }
    hide PtrAt, Elsewhere;
    FileStays(n, bitmap, blocks, more, after, files[j], meta, others);
  }

  lemma {:induction false} MetaElsewhere(n: nat, bitmap: seq<bool>, blocks: seq<Block>, files: seq<seq<nat>>,
                                         meta: set<int>, i: nat)
    requires AllConserved(n, bitmap, blocks, files, meta) && i < |files|
    ensures forall b :: 0 < b < n && b in meta ==> b in Elsewhere(bitmap, blocks, files[i])
  {
    hide PtrAt, Elsewhere;
    assert OneFile(bitmap, blocks, files[i], meta);
    assert forall q :: Ok(q) ==> PtrOk(bitmap, blocks, files[i], meta, q);
  }

  lemma {:induction false} OneBit(n: nat, bitmap: seq<bool>, blocks: seq<Block>, files: seq<seq<nat>>, meta: set<int>,
                                  i: nat, more: seq<bool>, after: seq<Block>, addrs: seq<nat>, b: int)
    requires AllConserved(n, bitmap, blocks, files, meta) && i < |files| && 0 < b < n
    requires Conserved(n, more, after, addrs, Elsewhere(bitmap, blocks, files[i]))
    requires b in meta ==> b in Elsewhere(bitmap, blocks, files[i])
    requires forall j :: 0 <= j < |files| && j != i ==>
               (HeldBy(after, files[j], b) <==> HeldBy(blocks, files[j], b))
               && (HeldBy(blocks, files[j], b) ==> b in Elsewhere(bitmap, blocks, files[i]))
    ensures more[b] <==> b in meta || InSome(after, files[i := addrs], b)
  {
    var others, now := Elsewhere(bitmap, blocks, files[i]), files[i := addrs];
    assert HeldBy(after, now[i], b) <==> Holds(after, addrs, b);
    hide PtrAt, HeldBy, Elsewhere;
    if b in others && b !in meta {
      var j :| 0 <= j < |files| && HeldBy(blocks, files[j], b);
      assert HeldBy(after, now[j], b);
    }
    if j :| 0 <= j < |now| && HeldBy(after, now[j], b) {
      assert j != i ==> b in others;
    }
  }

  // ----- operations on one of many files -----

  ghost function AddrsOf(ips: seq<Inode>): (files: seq<seq<nat>>)
    reads ips
    ensures |files| == |ips| && forall i :: 0 <= i < |ips| ==> files[i] == ips[i].addrs
  {
    if ips == [] then [] else AddrsOf(ips[..|ips| - 1]) + [ips[|ips| - 1].addrs]
  }

  /** Every file is in order: the books, and blocks wherever the sizes reach. */
  ghost predicate AllOk(fs: FileSystem, ips: seq<Inode>, meta: set<int>)
    reads fs, ips
  {
    && (forall i, j :: 0 <= i < j < |ips| ==> ips[i] != ips[j])
    && AllConserved(fs.n, fs.bitmap, fs.blocks, AddrsOf(ips), meta) && Encoded(fs.n, fs.bitmap, fs.maps)
    && forall i :: 0 <= i < |ips| ==> SizeOk(fs, ips[i])
  }

  ghost predicate SizeOk(fs: FileSystem, ip: Inode)
    reads fs, ip
  {
    |ip.addrs| == NDIRECT + 2 && Mapped(fs.blocks, ip.addrs, ip.size)
  }

  ghost function BytesOf(fs: FileSystem, ip: Inode): seq<Byte>
    reads fs, ip
    requires SizeOk(fs, ip)
  {
    Contents(fs.blocks, ip.addrs, ip.size)
  }

  /** Turns to one of the files: no block changes, only who counts as the others. */
  ghost method Focus(fs: FileSystem, ips: seq<Inode>, meta: set<int>, i: nat)
    requires AllOk(fs, ips, meta) && i < |ips|
    modifies fs`others
    ensures fs.FileOk(ips[i]) && fs.others == Elsewhere(fs.bitmap, fs.blocks, ips[i].addrs)
    ensures AllOk(fs, ips, meta)
  {
    hide PtrAt, Conserved, Elsewhere;
    FocusOn(fs.n, fs.bitmap, fs.blocks, AddrsOf(ips), meta, i);
    fs.others := Elsewhere(fs.bitmap, fs.blocks, ips[i].addrs);
    assert SizeOk(fs, ips[i]);
    assert |fs.bitmap| == |fs.blocks| == fs.n;
  }

  /** Back to all of them, after an operation on the one in focus. */
  lemma {:induction false} Unfocus(n: nat, bitmap: seq<bool>, blocks: seq<Block>, more: seq<bool>, after: seq<Block>,
                                   files: seq<seq<nat>>, meta: set<int>, i: nat, j: nat, addrs: seq<nat>, size: nat)
    requires AllConserved(n, bitmap, blocks, files, meta) && i < |files| && j < |files| && j != i
    requires Conserved(n, more, after, addrs, Elsewhere(bitmap, blocks, files[i]))
    requires forall c :: 0 <= c < n && c in Elsewhere(bitmap, blocks, files[i]) ==> after[c] == blocks[c]
    requires |files[j]| == NDIRECT + 2 && Mapped(blocks, files[j], size)
    ensures Mapped(after, files[j], size) && Contents(after, files[j], size) == Contents(blocks, files[j], size)
  {
    forall q | Ok(q) && PtrAt(blocks, files[j], q) != 0
      ensures PtrAt(blocks, files[j], q) in Elsewhere(bitmap, blocks, files[i])
    {
      OthersElsewhere(n, bitmap, blocks, files, meta, i, j, q);
    }
    hide PtrAt, Elsewhere, Contents, Conserved, AllConserved;
    Isolated(blocks, after, files[j], Elsewhere(bitmap, blocks, files[i]), size);
    forall bn | 0 <= bn < MAXFILE && bn * BSIZE < size ensures BlockNo(after, files[j], bn) != 0 {
      assert BlockNo(blocks, files[j], bn) != 0;
    }
  }

  lemma {:induction false} Back(fs: FileSystem, ips: seq<Inode>, bm: seq<bool>, bl: seq<Block>, files: seq<seq<nat>>,
                                meta: set<int>, i: nat)
    requires AllConserved(fs.n, bm, bl, files, meta) && |files| == |ips| && i < |ips|
    requires forall j, k :: 0 <= j < k < |ips| ==> ips[j] != ips[k]
    requires forall j :: 0 <= j < |ips| && j != i ==>
               ips[j].addrs == files[j] && |files[j]| == NDIRECT + 2 && Mapped(bl, files[j], ips[j].size)
    requires fs.FileOk(ips[i]) && fs.others == Elsewhere(bm, bl, files[i])
    requires forall c :: 0 <= c < fs.n && c in fs.others ==> fs.blocks[c] == bl[c]
    ensures AllOk(fs, ips, meta)
    ensures forall j :: 0 <= j < |ips| && j != i ==>
              BytesOf(fs, ips[j]) == Contents(bl, files[j], ips[j].size)
  {
    hide PtrAt, Conserved, Elsewhere, AllConserved, Contents;
    AllKept(fs.n, bm, bl, files, meta, i, fs.bitmap, fs.blocks, ips[i].addrs);
    assert AddrsOf(ips) == files[i := ips[i].addrs];
    forall j | 0 <= j < |ips| && j != i
      ensures SizeOk(fs, ips[j]) && BytesOf(fs, ips[j]) == Contents(bl, files[j], ips[j].size)
    {
      Unfocus(fs.n, bm, bl, fs.bitmap, fs.blocks, files, meta, i, j, ips[i].addrs, ips[j].size);
    }
    assert SizeOk(fs, ips[i]);
  }

  /** writei to file i: its bytes are the spliced ones, every other file has the same bytes, and the books of all are in
      order. */
  method WriteTo(fs: FileSystem, ips: seq<Inode>, ghost meta: set<int>, i: nat, src: seq<Byte>, off: nat)
    returns (r: IoResult)
    requires AllOk(fs, ips, meta) && i < |ips| && off < 0x1_0000_0000 && |src| < 0x1_0000_0000
    modifies fs, ips[i]
    ensures r == Panic <==> off <= old(ips[i].size) && off + |src| <= MAXFILE * BSIZE
                            && |FreeBlocks(old(fs.bitmap))|
                               < |Lacking(old(fs.blocks), old(ips[i].addrs), Reach(off, |src|))|
    ensures r != Panic ==> AllOk(fs, ips, meta)
    ensures r == Error <==> off > old(ips[i].size) || off + |src| >= 0x1_0000_0000 || off + |src| > MAXFILE * BSIZE
    ensures r == Error ==> BytesOf(fs, ips[i]) == old(BytesOf(fs, ips[i]))
    ensures r !in {Error, Panic} ==> BytesOf(fs, ips[i]) == Spliced(old(BytesOf(fs, ips[i])), off, src)
    ensures r != Panic ==> forall j :: 0 <= j < |ips| && j != i ==> BytesOf(fs, ips[j]) == old(BytesOf(fs, ips[j]))
  {
    hide PtrAt, Conserved, Elsewhere, AllConserved, Contents, Mapped, Spliced, Lacking, FreeBlocks, Filled, Reach;
    ghost var bm, bl, files := fs.bitmap, fs.blocks, AddrsOf(ips);
    Focus(fs, ips, meta, i);
    r := fs.Writei(ips[i], src, off);
    if r == Error {
      assert AddrsOf(ips) == files;
      assert forall j :: 0 <= j < |ips| ==> old(SizeOk(fs, ips[j]));
    } else if r != Panic {
      Back(fs, ips, bm, bl, files, meta, i);
    }
  }

  /** readi from file i changes nothing. */
  method ReadFrom(fs: FileSystem, ips: seq<Inode>, ghost meta: set<int>, i: nat, off: nat, count: nat)
    returns (r: IoResult)
    requires AllOk(fs, ips, meta) && i < |ips| && off < 0x1_0000_0000 && count < 0x1_0000_0000
    modifies fs, ips[i]
    ensures AllOk(fs, ips, meta) && ips[i].size == old(ips[i].size)
    ensures forall j :: 0 <= j < |ips| ==> BytesOf(fs, ips[j]) == old(BytesOf(fs, ips[j]))
    ensures r == Error <==> off > ips[i].size || off + count >= 0x1_0000_0000
    ensures r != Error ==> r == Data(BytesOf(fs, ips[i])[off..Min(off + count, ips[i].size)])
  {
    hide PtrAt, Conserved, Elsewhere, AllConserved, Contents, Mapped;
    Focus(fs, ips, meta, i);
    r := fs.Readi(ips[i], off, count);
    assert AddrsOf(ips) == old(AddrsOf(ips));
    assert forall j :: 0 <= j < |ips| ==> old(SizeOk(fs, ips[j]));
  }

  /** bmap for file i: its block bn is there, and nothing that any file contains has changed. */
  method MapBlock(fs: FileSystem, ips: seq<Inode>, ghost meta: set<int>, i: nat, bn: nat) returns (addr: int)
    requires AllOk(fs, ips, meta) && i < |ips|
    modifies fs, ips[i]
    ensures addr == -1 <==>
              || bn >= MAXFILE
              || |FreeBlocks(old(fs.bitmap))| < |Lacking(old(fs.blocks), old(ips[i].addrs), Path(PosOf(bn)))|
    ensures ips[i].size == old(ips[i].size)
    ensures addr != -1 ==> AllOk(fs, ips, meta) && bn < MAXFILE && addr == BlockNo(fs.blocks, ips[i].addrs, bn) != 0
    ensures addr != -1 ==> forall j :: 0 <= j < |ips| ==> BytesOf(fs, ips[j]) == old(BytesOf(fs, ips[j]))
  {
    hide PtrAt, Conserved, Elsewhere, AllConserved, Contents, Lacking, FreeBlocks, Filled, Path;
    ghost var bm, bl, files := fs.bitmap, fs.blocks, AddrsOf(ips);
    Focus(fs, ips, meta, i);
    addr := fs.Bmap(ips[i], bn);
    if addr != -1 {
      EnoughBlocks(bm, bl, files[i], fs.bitmap, fs.blocks, ips[i].addrs, Path(PosOf(bn)));
      StillMapped(bl, files[i], fs.blocks, ips[i].addrs, fs.others, PosOf(bn), ips[i].size);
      SameBytes(bl, files[i], fs.blocks, ips[i].addrs, fs.others, PosOf(bn), ips[i].size);
      Back(fs, ips, bm, bl, files, meta, i);
    }
  }

  lemma {:induction false} StillMapped(blocks: seq<Block>, addrs: seq<nat>, after: seq<Block>, now: seq<nat>,
                                       others: set<int>, q: Pos, size: nat)
    requires |addrs| == |now| == NDIRECT + 2 && Extends(blocks, addrs, after, now, others, q)
    requires Mapped(blocks, addrs, size)
    ensures Mapped(after, now, size)
  {
    hide PtrAt;
    forall bn | 0 <= bn < MAXFILE && bn * BSIZE < size ensures BlockNo(after, now, bn) != 0 {
      assert BlockNo(blocks, addrs, bn) != 0;
      assert SamePlace(blocks, addrs, after, now, PosOf(bn), q);
    }
  }

  lemma {:induction false} SameBytes(blocks: seq<Block>, addrs: seq<nat>, after: seq<Block>, now: seq<nat>,
                                     others: set<int>, q: Pos, size: nat)
    requires |addrs| == |now| == NDIRECT + 2 && Extends(blocks, addrs, after, now, others, q)
    requires Mapped(blocks, addrs, size)
    ensures Contents(after, now, size) == Contents(blocks, addrs, size)
  {
    hide PtrAt;
    forall k | 0 <= k < size ensures ByteAt(after, now, k) == ByteAt(blocks, addrs, k) {
      assert BlockNo(blocks, addrs, k / BSIZE) != 0;
      assert SamePlace(blocks, addrs, after, now, PosOf(k / BSIZE), q);
    }
  }

  /** itrunc of file i: it is empty, exactly its blocks are free again, and every other file has the same bytes. */
  method Truncate(fs: FileSystem, ips: seq<Inode>, ghost meta: set<int>, i: nat)
    requires AllOk(fs, ips, meta) && i < |ips|
    modifies fs, ips[i]
    ensures AllOk(fs, ips, meta) && ips[i].size == 0
    ensures forall j :: 0 <= j < |ips| && j != i ==> BytesOf(fs, ips[j]) == old(BytesOf(fs, ips[j]))
    ensures forall b :: 0 < b < fs.n ==>
              (fs.bitmap[b] <==> old(fs.bitmap)[b] && !HeldBy(old(fs.blocks), old(ips[i].addrs), b))
  {
    hide PtrAt, Conserved, Elsewhere, AllConserved, Contents, Mapped, HeldBy;
    ghost var bm, bl, files := fs.bitmap, fs.blocks, AddrsOf(ips);
    Focus(fs, ips, meta, i);
    fs.Itrunc(ips[i]);
    Back(fs, ips, bm, bl, files, meta, i);
  }

  /** Without files the bitmap marks the file system's own blocks, as mkfs leaves it. */
  lemma {:induction false} NoFiles(fs: FileSystem, meta: set<int>)
    requires Encoded(fs.n, fs.bitmap, fs.maps)
    requires |fs.bitmap| == |fs.blocks| == fs.n < 0x1_0000_0000 && fs.n > 0 && fs.bitmap[0] && 0 in meta
    requires forall b :: 0 <= b < fs.n ==> |fs.blocks[b]| == BSIZE && (fs.bitmap[b] <==> b in meta)
    ensures AllOk(fs, [], meta)
  {
    assert AddrsOf([]) == [];
  }

  /** One more file, with an inode just initialised: it has no blocks, and all the others are as they were. */
  method AddFile(fs: FileSystem, ips: seq<Inode>, ghost meta: set<int>) returns (ip: Inode)
    requires AllOk(fs, ips, meta)
    ensures fresh(ip) && AllOk(fs, ips + [ip], meta) && ip.size == 0 && BytesOf(fs, ip) == []
    ensures forall j :: 0 <= j < |ips| ==> BytesOf(fs, ips[j]) == old(BytesOf(fs, ips[j]))
  {
    hide AllConserved, Contents;
    ip := new Inode();
    assert AddrsOf(ips + [ip]) == AddrsOf(ips) + [ip.addrs];
    FileAdded(fs.n, fs.bitmap, fs.blocks, AddrsOf(ips), meta, ip.addrs);
    forall j | 0 <= j < |ips| ensures SizeOk(fs, ips[j]) {
      assert old(SizeOk(fs, ips[j]));
    }
  }

  lemma {:induction false} FileAdded(n: nat, bitmap: seq<bool>, blocks: seq<Block>, files: seq<seq<nat>>,
                                     meta: set<int>, addrs: seq<nat>)
    requires AllConserved(n, bitmap, blocks, files, meta) && addrs == seq(NDIRECT + 2, i => 0)
    ensures AllConserved(n, bitmap, blocks, files + [addrs], meta)
  {
    NoPlaces(blocks, addrs);
    hide PtrAt;
    var more := files + [addrs];
    forall b | 0 < b < n ensures InSome(blocks, more, b) <==> InSome(blocks, files, b) {
      if InSome(blocks, files, b) {
        var i :| 0 <= i < |files| && HeldBy(blocks, files[i], b);
        assert more[i] == files[i];
      }
    }
  }
}
