/** Where a file's blocks are (fs.h, fs.c): direct pointers, an indirect block, and a double-indirect block. */
module FileBlocks {

  const BSIZE := 512
  const NDIRECT := 11
  const NINDIRECT := 128
  const NDINDIRECT := 16384
  const MAXFILE := 16523

  type Byte = x: int | 0 <= x < 256
  type Block = seq<Byte>

  // ----- blocks as arrays of words -----

  /** Word j of a block, little-endian. */
  function Word(b: Block, j: nat): (v: nat)
    requires |b| == BSIZE && j < NINDIRECT
    ensures v < 0x1_0000_0000
  {
    var w: seq<int> := b[4 * j..4 * j + 4];
    w[0] + 0x100 * w[1] + 0x1_0000 * w[2] + 0x100_0000 * w[3]
  }

  function SetWord(b: Block, j: nat, v: nat): (r: Block)
    requires |b| == BSIZE && j < NINDIRECT && v < 0x1_0000_0000
    ensures |r| == BSIZE
  {
    b[4 * j := v % 0x100]
     [4 * j + 1 := v / 0x100 % 0x100]
     [4 * j + 2 := v / 0x1_0000 % 0x100]
     [4 * j + 3 := v / 0x100_0000]
  }

  function Zeros(): (r: Block)
    ensures |r| == BSIZE && forall i :: 0 <= i < BSIZE ==> r[i] == 0
  {
    seq(BSIZE, i => 0)
  }

  lemma {:induction false} WordSet(b: Block, j: nat, v: nat, k: nat)
    requires |b| == BSIZE && j < NINDIRECT && k < NINDIRECT && v < 0x1_0000_0000
    ensures Word(SetWord(b, j, v), k) == if k == j then v else Word(b, k)
    ensures v < 0x100 ==> SetWord(b, j, v)[4 * j] == v && SetWord(b, j, v)[4 * j + 3] == 0
  {
    var r := SetWord(b, j, v);
    if k == j {
      var w: seq<int> := r[4 * j..4 * j + 4];
      assert w == [v % 0x100, v / 0x100 % 0x100, v / 0x1_0000 % 0x100, v / 0x100_0000];
      FourBytes(v);
    } else {
      assert r[4 * k..4 * k + 4] == b[4 * k..4 * k + 4];
    }
  }

  lemma {:induction false} FourBytes(v: nat)
    requires v < 0x1_0000_0000
    ensures v % 0x100 + 0x100 * (v / 0x100 % 0x100) + 0x1_0000 * (v / 0x1_0000 % 0x100)
            + 0x100_0000 * (v / 0x100_0000) == v
  {}

  // ----- the places of a file's blocks -----

  /** The places for block numbers in an inode and in the pointer blocks it leads to. */
  datatype Pos = Direct(i: nat) | Ind | IndEntry(j: nat) | Dbl | DblBlk(j: nat) | DblEntry(j: nat, k: nat)

  predicate Ok(q: Pos) {
    match q
    case Direct(i) => i < NDIRECT
    case Ind => true
    case IndEntry(j) => j < NINDIRECT
    case Dbl => true
    case DblBlk(j) => j < NINDIRECT
    case DblEntry(j, k) => j < NINDIRECT && k < NINDIRECT
  }

  function Entry(blocks: seq<Block>, b: nat, j: nat): nat
    requires j < NINDIRECT
  {
    if 0 < b < |blocks| && |blocks[b]| == BSIZE then Word(blocks[b], j) else 0
  }

  /** The block number in a place; 0 is no block. */
  function PtrAt(blocks: seq<Block>, addrs: seq<nat>, q: Pos): nat
    requires |addrs| == NDIRECT + 2 && Ok(q)
  {
    match q
    case Direct(i) => addrs[i]
    case Ind => addrs[NDIRECT]
    case IndEntry(j) => Entry(blocks, addrs[NDIRECT], j)
    case Dbl => addrs[NDIRECT + 1]
    case DblBlk(j) => Entry(blocks, addrs[NDIRECT + 1], j)
    case DblEntry(j, k) => Entry(blocks, Entry(blocks, addrs[NDIRECT + 1], j), k)
  }

  /** Where block bn of the file has its number. */
  function PosOf(bn: nat): (q: Pos)
    requires bn < MAXFILE
    ensures Ok(q)
  {
    if bn < NDIRECT then Direct(bn)
    else if bn - NDIRECT < NINDIRECT then IndEntry(bn - NDIRECT)
    else DblEntry((bn - NDIRECT - NINDIRECT) / NINDIRECT, (bn - NDIRECT - NINDIRECT) % NINDIRECT)
  }

  /** Different blocks of a file have different places. */
  lemma {:induction false} PosOfInjective(m: nat, n: nat)
    requires m < MAXFILE && n < MAXFILE && PosOf(m) == PosOf(n)
    ensures m == n
  {}

  /** A block that holds file contents, not pointers. */
  predicate IsData(q: Pos) {
    q.Direct? || q.IndEntry? || q.DblEntry?
  }

  // ----- the file system's bookkeeping -----

  /** One inode's view of the disk: `others` are the blocks in use for anything else. */
  ghost predicate PtrOk(bitmap: seq<bool>, blocks: seq<Block>, addrs: seq<nat>, others: set<int>, q: Pos)
    requires |addrs| == NDIRECT + 2 && Ok(q)
  {
    var b := PtrAt(blocks, addrs, q);
    b != 0 ==> b < |bitmap| && bitmap[b] && b !in others
  }

  ghost predicate Apart(blocks: seq<Block>, addrs: seq<nat>, q: Pos, r: Pos)
    requires |addrs| == NDIRECT + 2 && Ok(q) && Ok(r)
  {
    PtrAt(blocks, addrs, q) == PtrAt(blocks, addrs, r) != 0 ==> q == r
  }

  /** Block b is in one of the file's places. */
  ghost predicate Holds(blocks: seq<Block>, addrs: seq<nat>, b: int)
    requires |addrs| == NDIRECT + 2
  {
    exists q :: Ok(q) && PtrAt(blocks, addrs, q) == b
  }

  ghost predicate Sized(n: nat, bitmap: seq<bool>, blocks: seq<Block>, addrs: seq<nat>, others: set<int>) {
    && |bitmap| == |blocks| == n < 0x1_0000_0000 && |addrs| == NDIRECT + 2
    && 0 in others && n > 0 && bitmap[0]
    && forall b :: 0 <= b < n ==> |blocks[b]| == BSIZE
  }

  /** Block conservation: the bitmap marks exactly the blocks in use elsewhere and the file's own, and every block of
      the file is in one place only. */
  ghost predicate Conserved(n: nat, bitmap: seq<bool>, blocks: seq<Block>, addrs: seq<nat>, others: set<int>) {
    && Sized(n, bitmap, blocks, addrs, others)
    && (forall q :: Ok(q) ==> PtrOk(bitmap, blocks, addrs, others, q))
    && (forall q, r :: Ok(q) && Ok(r) ==> Apart(blocks, addrs, q, r))
    && (forall b :: 0 < b < n ==> (bitmap[b] <==> b in others || Holds(blocks, addrs, b)))
  }

  // ----- attaching a fresh block -----

  /** The file after block number b was put into place q; `blocks` already has b zeroed. */
  function PutAddrs(addrs: seq<nat>, q: Pos, b: nat): seq<nat>
    requires |addrs| == NDIRECT + 2 && Ok(q)
  {
    match q
    case Direct(i) => addrs[i := b]
    case Ind => addrs[NDIRECT := b]
    case Dbl => addrs[NDIRECT + 1 := b]
    case _ => addrs
  }

  predicate InInode(q: Pos) {
    q.Direct? || q.Ind? || q.Dbl?
  }

  /** The place of the pointer block that has place q, and where in it. */
  function Parent(q: Pos): Pos
    requires !InInode(q)
  {
    if q.IndEntry? then Ind else if q.DblBlk? then Dbl else DblBlk(q.j)
  }

  function Index(q: Pos): nat
    requires !InInode(q)
  {
    if q.DblEntry? then q.k else q.j
  }

  lemma {:induction false} ThroughParent(blocks: seq<Block>, addrs: seq<nat>, q: Pos)
    requires |addrs| == NDIRECT + 2 && Ok(q) && !InInode(q)
    ensures Ok(Parent(q)) && Index(q) < NINDIRECT
    ensures PtrAt(blocks, addrs, q) == Entry(blocks, PtrAt(blocks, addrs, Parent(q)), Index(q))
  {}

  /** The place is in the inode, or the pointer block that has it exists. */
  ghost predicate Reachable(n: nat, blocks: seq<Block>, addrs: seq<nat>, q: Pos)
    requires |addrs| == NDIRECT + 2 && Ok(q)
  {
    !InInode(q) ==> Ok(Parent(q)) && PtrAt(blocks, addrs, Parent(q)) != 0
  }

  /** The blocks after block b was zeroed and its number put into place q. */
  ghost predicate Put(blocks: seq<Block>, addrs: seq<nat>, q: Pos, b: nat, after: seq<Block>)
    requires |addrs| == NDIRECT + 2 && Ok(q) && b < 0x1_0000_0000
  {
    && |after| == |blocks| && b < |blocks| && after[b] == Zeros()
    && if InInode(q) then forall c :: 0 <= c < |blocks| && c != b ==> after[c] == blocks[c]
       else
         Ok(Parent(q)) && Index(q) < NINDIRECT &&
         var p := PtrAt(blocks, addrs, Parent(q));
         && p < |blocks| && |blocks[p]| == BSIZE && after[p] == SetWord(blocks[p], Index(q), b)
         && forall c :: 0 <= c < |blocks| && c != b && c != p ==> after[c] == blocks[c]
  }

  /** The pointers in a block that is in use, after b was put into place q. */
  lemma {:induction false} EntryAfter(n: nat, bitmap: seq<bool>, blocks: seq<Block>, addrs: seq<nat>, others: set<int>,
                                      q: Pos, b: nat, after: seq<Block>, r: Pos, i: nat)
    requires Conserved(n, bitmap, blocks, addrs, others) && Ok(q) && Ok(r) && Reachable(n, blocks, addrs, q)
    requires 0 < b < n && !bitmap[b] && Put(blocks, addrs, q, b, after) && i < NINDIRECT
    ensures Entry(after, b, i) == 0
    ensures Entry(after, PtrAt(blocks, addrs, r), i)
         == if !InInode(q) && r == Parent(q) && i == Index(q) then b else Entry(blocks, PtrAt(blocks, addrs, r), i)
  {
    var c := PtrAt(blocks, addrs, r);
    assert PtrOk(bitmap, blocks, addrs, others, r);
    if !InInode(q) {
      assert Apart(blocks, addrs, r, Parent(q));
      var p := PtrAt(blocks, addrs, Parent(q));
      assert PtrOk(bitmap, blocks, addrs, others, Parent(q));
      WordSet(blocks[p], Index(q), b, i);
    }
  }

  /** Exactly place q has changed. */
  lemma {:induction false} Attached(n: nat, bitmap: seq<bool>, blocks: seq<Block>, addrs: seq<nat>, others: set<int>,
                                    q: Pos, b: nat, after: seq<Block>, r: Pos)
    requires Conserved(n, bitmap, blocks, addrs, others) && Ok(q) && Ok(r) && PtrAt(blocks, addrs, q) == 0
    requires 0 < b < n && !bitmap[b] && Reachable(n, blocks, addrs, q) && Put(blocks, addrs, q, b, after)
    ensures PtrAt(after, PutAddrs(addrs, q, b), r) == if r == q then b else PtrAt(blocks, addrs, r)
    decreases if r.DblEntry? then 2 else if InInode(r) then 0 else 1
  {
    if !InInode(r) {
      ThroughParent(blocks, addrs, r);
      ThroughParent(after, PutAddrs(addrs, q, b), r);
      Attached(n, bitmap, blocks, addrs, others, q, b, after, Parent(r));
      EntryAfter(n, bitmap, blocks, addrs, others, q, b, after, Parent(r), Index(r));
    }
  }

  /** Attaching a free block keeps the books. */
  lemma {:induction false} AttachConserves(n: nat, bitmap: seq<bool>, blocks: seq<Block>, addrs: seq<nat>,
                                           others: set<int>, q: Pos, b: nat, after: seq<Block>)
    requires Conserved(n, bitmap, blocks, addrs, others) && Ok(q) && PtrAt(blocks, addrs, q) == 0
    requires 0 < b < n && !bitmap[b] && Reachable(n, blocks, addrs, q) && Put(blocks, addrs, q, b, after)
    ensures Conserved(n, bitmap[b := true], after, PutAddrs(addrs, q, b), others)
  {
    var more, now := bitmap[b := true], PutAddrs(addrs, q, b);
    forall r | Ok(r) ensures PtrAt(after, now, r) == if r == q then b else PtrAt(blocks, addrs, r) {
      Attached(n, bitmap, blocks, addrs, others, q, b, after, r);
    }
    assert Sized(n, more, after, now, others) by {
      hide PtrAt, Entry;
    }
    hide Put, PtrAt, PutAddrs;
    forall r | Ok(r) ensures PtrOk(more, after, now, others, r) {
      assert PtrOk(bitmap, blocks, addrs, others, r);
    }
    forall r, s | Ok(r) && Ok(s) ensures Apart(after, now, r, s) {
      assert Apart(blocks, addrs, r, s) && PtrOk(bitmap, blocks, addrs, others, r)
             && PtrOk(bitmap, blocks, addrs, others, s);
    }
    forall c | 0 < c < n ensures more[c] <==> c in others || Holds(after, now, c) {
      HoldsAfter(blocks, addrs, after, now, q, b, c);
    }
  }

  lemma {:induction false} HoldsAfter(blocks: seq<Block>, addrs: seq<nat>, after: seq<Block>, now: seq<nat>, q: Pos,
                                      b: nat, c: int)
    requires |addrs| == |now| == NDIRECT + 2 && Ok(q) && c > 0 && PtrAt(blocks, addrs, q) == 0
    requires forall r :: Ok(r) ==> PtrAt(after, now, r) == if r == q then b else PtrAt(blocks, addrs, r)
    ensures Holds(after, now, c) <==> c == b || Holds(blocks, addrs, c)
  {
    hide PtrAt;
    if Holds(blocks, addrs, c) {
      var r :| Ok(r) && PtrAt(blocks, addrs, r) == c;
      assert PtrAt(after, now, r) == c;
    }
    if c == b {
      assert PtrAt(after, now, q) == c;
    }
  }

  // ----- contents -----

  /** The disk block with block bn of the file; 0 if there is none. */
  function BlockNo(blocks: seq<Block>, addrs: seq<nat>, bn: nat): nat
    requires |addrs| == NDIRECT + 2 && bn < MAXFILE
  {
    PtrAt(blocks, addrs, PosOf(bn))
  }

  /** The first 11 blocks of a file have their numbers in the inode, the next 128 in the block that comes next there,
      and all others in the blocks whose numbers are in the last one, 128 each. */
  lemma {:induction false} NumberedIn(n: nat, bitmap: seq<bool>, blocks: seq<Block>, addrs: seq<nat>, others: set<int>,
                                      bn: nat)
    requires Conserved(n, bitmap, blocks, addrs, others) && bn < MAXFILE && BlockNo(blocks, addrs, bn) != 0
    ensures bn < 11 ==> BlockNo(blocks, addrs, bn) == addrs[bn]
    ensures 11 <= bn < 139 ==>
              && 0 < addrs[11] < n && |blocks[addrs[11]]| == BSIZE
              && BlockNo(blocks, addrs, bn) == Word(blocks[addrs[11]], bn - 11)
    ensures 139 <= bn ==>
              && 0 < addrs[12] < n && |blocks[addrs[12]]| == BSIZE && (bn - 139) / 128 < 128
              && var b := Word(blocks[addrs[12]], (bn - 139) / 128);
                 && 0 < b < n && |blocks[b]| == BSIZE
                 && BlockNo(blocks, addrs, bn) == Word(blocks[b], (bn - 139) % 128)
  {
    if 11 <= bn {
      var q := if bn < 139 then Ind else Dbl;
      assert PtrOk(bitmap, blocks, addrs, others, q);
      if 139 <= bn {
        assert PtrOk(bitmap, blocks, addrs, others, DblBlk((bn - 139) / 128));
      }
    }
  }

  /** Byte i of the file. */
  function ByteAt(blocks: seq<Block>, addrs: seq<nat>, i: nat): Byte
    requires |addrs| == NDIRECT + 2 && i < MAXFILE * BSIZE
  {
    var b := BlockNo(blocks, addrs, i / BSIZE);
    if 0 < b < |blocks| && |blocks[b]| == BSIZE then blocks[b][i % BSIZE] else 0
  }

  function Contents(blocks: seq<Block>, addrs: seq<nat>, size: nat): (r: seq<Byte>)
    requires |addrs| == NDIRECT + 2 && size <= MAXFILE * BSIZE
    ensures |r| == size
  {
    seq(size, i requires 0 <= i < size => ByteAt(blocks, addrs, i))
  }

  /** Every block that the size reaches into is there. */
  ghost predicate Mapped(blocks: seq<Block>, addrs: seq<nat>, size: nat)
    requires |addrs| == NDIRECT + 2
  {
    size <= MAXFILE * BSIZE && forall bn :: 0 <= bn < MAXFILE && bn * BSIZE < size ==> BlockNo(blocks, addrs, bn) != 0
  }

  /** Writing to a block of file contents moves no block. */
  lemma {:induction false} DataWritten(n: nat, bitmap: seq<bool>, blocks: seq<Block>, addrs: seq<nat>,
                                       others: set<int>, q: Pos, data: Block, r: Pos)
    requires Conserved(n, bitmap, blocks, addrs, others) && Ok(q) && Ok(r) && IsData(q) && |data| == BSIZE
    requires PtrAt(blocks, addrs, q) != 0
    ensures PtrAt(blocks, addrs, q) < n
    ensures PtrAt(blocks[PtrAt(blocks, addrs, q) := data], addrs, r) == PtrAt(blocks, addrs, r)
    decreases if r.DblEntry? then 2 else if InInode(r) then 0 else 1
  {
    assert PtrOk(bitmap, blocks, addrs, others, q);
    if !InInode(r) {
      var after := blocks[PtrAt(blocks, addrs, q) := data];
      ThroughParent(blocks, addrs, r);
      ThroughParent(after, addrs, r);
      DataWritten(n, bitmap, blocks, addrs, others, q, data, Parent(r));
      assert Apart(blocks, addrs, q, Parent(r));
    }
  }

  lemma {:induction false} DataConserves(n: nat, bitmap: seq<bool>, blocks: seq<Block>, addrs: seq<nat>,
                                         others: set<int>, q: Pos, data: Block)
    requires Conserved(n, bitmap, blocks, addrs, others) && Ok(q) && IsData(q) && |data| == BSIZE
    requires PtrAt(blocks, addrs, q) != 0
    ensures PtrAt(blocks, addrs, q) < n
    ensures Conserved(n, bitmap, blocks[PtrAt(blocks, addrs, q) := data], addrs, others)
  {
    assert PtrOk(bitmap, blocks, addrs, others, q);
    var after := blocks[PtrAt(blocks, addrs, q) := data];
    forall r | Ok(r) ensures PtrAt(after, addrs, r) == PtrAt(blocks, addrs, r) {
      DataWritten(n, bitmap, blocks, addrs, others, q, data, r);
    }
    hide PtrAt;
    forall r | Ok(r) ensures PtrOk(bitmap, after, addrs, others, r) {
      assert PtrOk(bitmap, blocks, addrs, others, r);
    }
    forall r, s | Ok(r) && Ok(s) ensures Apart(after, addrs, r, s) {
      assert Apart(blocks, addrs, r, s);
    }
    forall c | 0 < c < n ensures bitmap[c] <==> c in others || Holds(after, addrs, c) {
      HoldsSame(blocks, after, addrs, c);
    }
  }

  lemma {:induction false} HoldsSame(blocks: seq<Block>, after: seq<Block>, addrs: seq<nat>, c: int)
    requires |addrs| == NDIRECT + 2 && forall r :: Ok(r) ==> PtrAt(after, addrs, r) == PtrAt(blocks, addrs, r)
    ensures Holds(after, addrs, c) <==> Holds(blocks, addrs, c)
  {
    hide PtrAt;
    if Holds(blocks, addrs, c) {
      var r :| Ok(r) && PtrAt(blocks, addrs, r) == c;
      assert PtrAt(after, addrs, r) == c;
    }
  }

  // ----- what bmap may change -----

  /** From one state to a later one blocks are added only: no place is cleared, no contents change, and of the places
      for contents only q may get a block. */
  ghost predicate Extends(blocks: seq<Block>, addrs: seq<nat>, after: seq<Block>, now: seq<nat>, others: set<int>,
                          q: Pos)
    requires |addrs| == |now| == NDIRECT + 2
  {
    && |blocks| == |after|
    && (forall r :: Ok(r) ==> SamePlace(blocks, addrs, after, now, r, q))
    && (forall c :: 0 <= c < |blocks| && c in others ==> after[c] == blocks[c])
  }

  ghost predicate SamePlace(blocks: seq<Block>, addrs: seq<nat>, after: seq<Block>, now: seq<nat>, r: Pos, q: Pos)
    requires |addrs| == |now| == NDIRECT + 2 && |blocks| == |after| && Ok(r)
  {
    var b := PtrAt(blocks, addrs, r);
    && (b != 0 || (IsData(r) && r != q) ==> PtrAt(after, now, r) == b)
    && (b != 0 && IsData(r) && b < |blocks| ==> after[b] == blocks[b])
  }

  lemma {:induction false} ExtendsTwice(blocks: seq<Block>, addrs: seq<nat>, mid: seq<Block>, half: seq<nat>,
                                        after: seq<Block>, now: seq<nat>, others: set<int>, q: Pos)
    requires |addrs| == |half| == |now| == NDIRECT + 2
    requires Extends(blocks, addrs, mid, half, others, q) && Extends(mid, half, after, now, others, q)
    ensures Extends(blocks, addrs, after, now, others, q)
  {
    hide PtrAt;
    forall r | Ok(r) ensures SamePlace(blocks, addrs, after, now, r, q) {
      assert SamePlace(blocks, addrs, mid, half, r, q) && SamePlace(mid, half, after, now, r, q);
    }
  }

  lemma {:induction false} ExtendsSelf(blocks: seq<Block>, addrs: seq<nat>, others: set<int>, q: Pos)
    requires |addrs| == NDIRECT + 2
    ensures Extends(blocks, addrs, blocks, addrs, others, q)
  {
    hide PtrAt;
  }

  /** Attaching a block at p extends the file, at p only if p is a place for contents. */
  lemma {:induction false} AttachExtends(n: nat, bitmap: seq<bool>, blocks: seq<Block>, addrs: seq<nat>,
                                         others: set<int>, p: Pos, b: nat, after: seq<Block>, q: Pos)
    requires Conserved(n, bitmap, blocks, addrs, others) && Ok(p) && PtrAt(blocks, addrs, p) == 0
    requires 0 < b < n && !bitmap[b] && b !in others && Reachable(n, blocks, addrs, p)
             && Put(blocks, addrs, p, b, after)
    requires IsData(p) ==> p == q
    ensures Extends(blocks, addrs, after, PutAddrs(addrs, p, b), others, q)
  {
    var now := PutAddrs(addrs, p, b);
    if !InInode(p) {
      assert PtrOk(bitmap, blocks, addrs, others, Parent(p));
    }
    forall r | Ok(r) ensures SamePlace(blocks, addrs, after, now, r, q) {
      Attached(n, bitmap, blocks, addrs, others, p, b, after, r);
      assert PtrOk(bitmap, blocks, addrs, others, r);
      if !InInode(p) {
        assert Apart(blocks, addrs, r, Parent(p));
      }
    }
  }

  // ----- reading and writing a block of contents -----

  /** After block bn of the file was made sure of and overwritten, its bytes are the new ones and all others the old. */
  lemma {:induction false} WrittenByte(n: nat, bitmap: seq<bool>, bl0: seq<Block>, ad0: seq<nat>, bl1: seq<Block>,
                                       ad1: seq<nat>, others: set<int>, bn: nat, data: Block, i: nat)
    requires |ad0| == |ad1| == NDIRECT + 2 && Conserved(n, bitmap, bl1, ad1, others) && bn < MAXFILE
             && i < MAXFILE * BSIZE
    requires Extends(bl0, ad0, bl1, ad1, others, PosOf(bn)) && forall c :: 0 <= c < |bl0| ==> |bl0[c]| == BSIZE
    requires |data| == BSIZE && BlockNo(bl1, ad1, bn) != 0
    ensures BlockNo(bl1, ad1, bn) < n
    ensures ByteAt(bl1[BlockNo(bl1, ad1, bn) := data], ad1, i) == if i / BSIZE == bn then data[i % BSIZE]
              else ByteAt(bl0, ad0, i)
  {
    var q, r := PosOf(bn), PosOf(i / BSIZE);
    assert IsData(q) && IsData(r);
    DataWritten(n, bitmap, bl1, ad1, others, q, data, r);
    assert PtrOk(bitmap, bl1, ad1, others, r);
    hide PtrAt;
    if i / BSIZE != bn {
      if q == r {
        PosOfInjective(bn, i / BSIZE);
      }
      assert SamePlace(bl0, ad0, bl1, ad1, r, q);
      assert Apart(bl1, ad1, q, r);
    }
  }

  /** The file with bytes s written at `off`. */
  function Spliced(c: seq<Byte>, off: nat, s: seq<Byte>): seq<Byte>
    requires off <= |c|
  {
    c[..off] + s + if off + |s| < |c| then c[off + |s|..] else []
  }

  /** The block with bytes s written at position o. */
  function Patched(b: Block, o: nat, s: seq<Byte>): (r: Block)
    requires |b| == BSIZE && o + |s| <= BSIZE
    ensures |r| == BSIZE
    ensures forall k :: 0 <= k < BSIZE ==> r[k] == if o <= k < o + |s| then s[k - o] else b[k]
  {
    b[..o] + s + b[o + |s|..]
  }

  /** Bytes `tot` of `src` are in the file from `off` on, and everything before and behind is as it was. */
  ghost predicate WrittenUpTo(bl0: seq<Block>, ad0: seq<nat>, blocks: seq<Block>, addrs: seq<nat>, size: nat, off: nat,
                              src: seq<Byte>, tot: nat)
    requires |ad0| == |addrs| == NDIRECT + 2
  {
    && tot <= |src| && off + tot <= MAXFILE * BSIZE && size <= MAXFILE * BSIZE
    && Mapped(blocks, addrs, if off + tot > size then off + tot else size)
    && forall i :: 0 <= i < MAXFILE * BSIZE && (i < size || i < off + tot) ==>
         ByteIs(bl0, ad0, blocks, addrs, off, src, tot, i)
  }

  ghost predicate ByteIs(bl0: seq<Block>, ad0: seq<nat>, blocks: seq<Block>, addrs: seq<nat>, off: nat, src: seq<Byte>,
                         tot: nat, i: nat)
    requires |ad0| == |addrs| == NDIRECT + 2 && i < MAXFILE * BSIZE && tot <= |src|
  {
    ByteAt(blocks, addrs, i) == if off <= i < off + tot then src[i - off] else ByteAt(bl0, ad0, i)
  }

  /** How much of the block that byte `at` is in one turn covers. */
  function Chunk(at: nat, left: nat): (m: nat)
    ensures m <= left && at % BSIZE + m <= BSIZE && (left > 0 ==> m > 0)
    ensures m == left || (at + m) % BSIZE == 0
  {
    if left < BSIZE - at % BSIZE then left else BSIZE - at % BSIZE
  }

  /** One turn of writei's loop: bmap led from bl1 to bl2, and `data` is the block with the chunk copied into it. */
  ghost predicate Turn(n: nat, bitmap: seq<bool>, bl0: seq<Block>, ad0: seq<nat>, bl1: seq<Block>, ad1: seq<nat>,
                       bl2: seq<Block>, ad2: seq<nat>,
                       others: set<int>, size: nat, off: nat, src: seq<Byte>, tot: nat, data: Block)
  {
    && |ad0| == |ad1| == |ad2| == NDIRECT + 2
    && WrittenUpTo(bl0, ad0, bl1, ad1, size, off, src, tot) && off <= size
    && tot < |src| && off + |src| <= MAXFILE * BSIZE
    && Conserved(n, bitmap, bl2, ad2, others) && (forall c :: 0 <= c < |bl1| ==> |bl1[c]| == BSIZE)
    && var at := off + tot;
    && Extends(bl1, ad1, bl2, ad2, others, PosOf(at / BSIZE)) && 0 < BlockNo(bl2, ad2, at / BSIZE) < |bl2|
    && var b := bl2[BlockNo(bl2, ad2, at / BSIZE)];
    && |data| == |b| == BSIZE && data == Patched(b, at % BSIZE, src[tot..tot + Chunk(at, |src| - tot)])
  }

  lemma {:induction false} WriteTurn(n: nat, bitmap: seq<bool>, bl0: seq<Block>, ad0: seq<nat>, bl1: seq<Block>,
                                     ad1: seq<nat>,
                                     bl2: seq<Block>, ad2: seq<nat>, others: set<int>, size: nat, off: nat,
                                     src: seq<Byte>, tot: nat, data: Block)
    requires Turn(n, bitmap, bl0, ad0, bl1, ad1, bl2, ad2, others, size, off, src, tot, data)
    ensures WrittenUpTo(bl0, ad0, bl2[BlockNo(bl2, ad2, (off + tot) / BSIZE) := data], ad2, size, off, src,
                tot + Chunk(off + tot, |src| - tot))
  {
    hide PtrAt, Conserved, Patched, Extends, ByteAt, BlockNo, PosOf, ByteIs;
    var after := bl2[BlockNo(bl2, ad2, (off + tot) / BSIZE) := data];
    var done := tot + Chunk(off + tot, |src| - tot);
    TurnAllMapped(n, bitmap, bl0, ad0, bl1, ad1, bl2, ad2, others, size, off, src, tot, data);
    forall i | 0 <= i < MAXFILE * BSIZE && (i < size || i < off + done)
      ensures ByteIs(bl0, ad0, after, ad2, off, src, done, i) {
      TurnByte(n, bitmap, bl0, ad0, bl1, ad1, bl2, ad2, others, size, off, src, tot, data, i);
    }
    hide Turn, Mapped, Chunk;
    IsWritten(bl0, ad0, after, ad2, size, off, src, done);
  }

  lemma {:induction false} TurnAllMapped(n: nat, bitmap: seq<bool>, bl0: seq<Block>, ad0: seq<nat>, bl1: seq<Block>,
                                         ad1: seq<nat>,
                                         bl2: seq<Block>, ad2: seq<nat>, others: set<int>, size: nat, off: nat,
                                         src: seq<Byte>, tot: nat, data: Block)
    requires Turn(n, bitmap, bl0, ad0, bl1, ad1, bl2, ad2, others, size, off, src, tot, data)
    ensures var end := off + tot + Chunk(off + tot, |src| - tot);
            size <= MAXFILE * BSIZE && end <= MAXFILE * BSIZE
            && Mapped(bl2[BlockNo(bl2, ad2, (off + tot) / BSIZE) := data], ad2, if end > size then end else size)
  {
    hide PtrAt, Conserved, Patched, Extends, ByteAt, BlockNo, PosOf, ByteIs;
    var after := bl2[BlockNo(bl2, ad2, (off + tot) / BSIZE) := data];
    var end := off + tot + Chunk(off + tot, |src| - tot);
    assert size <= MAXFILE * BSIZE && end <= MAXFILE * BSIZE;
    hide Turn, Chunk;
    forall k | 0 <= k < MAXFILE && k * BSIZE < if end > size then end else size ensures BlockNo(after, ad2, k) != 0 {
      TurnMapped(n, bitmap, bl0, ad0, bl1, ad1, bl2, ad2, others, size, off, src, tot, data, k);
    }
  }

  lemma {:induction false} IsWritten(bl0: seq<Block>, ad0: seq<nat>, blocks: seq<Block>, addrs: seq<nat>, size: nat,
                                     off: nat, src: seq<Byte>, tot: nat)
    requires |ad0| == |addrs| == NDIRECT + 2
    requires tot <= |src| && off + tot <= MAXFILE * BSIZE && size <= MAXFILE * BSIZE
    requires Mapped(blocks, addrs, if off + tot > size then off + tot else size)
    requires forall i :: 0 <= i < MAXFILE * BSIZE && (i < size || i < off + tot) ==>
               ByteIs(bl0, ad0, blocks, addrs, off, src, tot, i)
    ensures WrittenUpTo(bl0, ad0, blocks, addrs, size, off, src, tot)
  {}

  lemma {:induction false} TurnMapped(n: nat, bitmap: seq<bool>, bl0: seq<Block>, ad0: seq<nat>, bl1: seq<Block>,
                                      ad1: seq<nat>,
                                      bl2: seq<Block>, ad2: seq<nat>, others: set<int>, size: nat, off: nat,
                                      src: seq<Byte>, tot: nat, data: Block, k: nat)
    requires Turn(n, bitmap, bl0, ad0, bl1, ad1, bl2, ad2, others, size, off, src, tot, data) && k < MAXFILE
    requires k * BSIZE < size || k * BSIZE < off + tot + Chunk(off + tot, |src| - tot)
    ensures BlockNo(bl2[BlockNo(bl2, ad2, (off + tot) / BSIZE) := data], ad2, k) != 0
  {
    hide Patched, ByteIs;
    var bn := (off + tot) / BSIZE;
    DataWritten(n, bitmap, bl2, ad2, others, PosOf(bn), data, PosOf(k));
    hide PtrAt;
    assert SamePlace(bl1, ad1, bl2, ad2, PosOf(k), PosOf(bn));
    assert k != bn ==> BlockNo(bl1, ad1, k) != 0;
  }

  lemma {:induction false} TurnByte(n: nat, bitmap: seq<bool>, bl0: seq<Block>, ad0: seq<nat>, bl1: seq<Block>,
                                    ad1: seq<nat>,
                                    bl2: seq<Block>, ad2: seq<nat>, others: set<int>, size: nat, off: nat,
                                    src: seq<Byte>, tot: nat, data: Block, i: nat)
    requires Turn(n, bitmap, bl0, ad0, bl1, ad1, bl2, ad2, others, size, off, src, tot, data)
    requires i < MAXFILE * BSIZE && (i < size || i < off + tot + Chunk(off + tot, |src| - tot))
    ensures ByteIs(bl0, ad0, bl2[BlockNo(bl2, ad2, (off + tot) / BSIZE) := data], ad2, off, src,
                   tot + Chunk(off + tot, |src| - tot), i)
  {
    hide PtrAt, Conserved, Extends, ByteAt, BlockNo;
    var at := off + tot;
    var bn := at / BSIZE;
    WrittenByte(n, bitmap, bl1, ad1, bl2, ad2, others, bn, data, i);
    var was := if at > size then at else size;
    assert i < was ==> ByteIs(bl0, ad0, bl1, ad1, off, src, tot, i);
    if i / BSIZE == bn && i < was {
      SameBlock(bl1, ad1, bl2, ad2, others, bn, i, was);
    }
    if i / BSIZE == bn {
      assert i % BSIZE == i - bn * BSIZE && at % BSIZE == at - bn * BSIZE;
    }
  }

  /** A block that was there has kept its contents. */
  lemma {:induction false} SameBlock(bl1: seq<Block>, ad1: seq<nat>, bl2: seq<Block>, ad2: seq<nat>, others: set<int>,
                                     bn: nat, i: nat, was: nat)
    requires |ad1| == |ad2| == NDIRECT + 2 && bn < MAXFILE && i / BSIZE == bn && i < was && Mapped(bl1, ad1, was)
    requires Extends(bl1, ad1, bl2, ad2, others, PosOf(bn)) && BlockNo(bl2, ad2, bn) < |bl2|
             && |bl2[BlockNo(bl2, ad2, bn)]| == BSIZE
    ensures i < MAXFILE * BSIZE && bl2[BlockNo(bl2, ad2, bn)][i % BSIZE] == ByteAt(bl1, ad1, i)
  {
    assert SamePlace(bl1, ad1, bl2, ad2, PosOf(bn), PosOf(bn));
    assert BlockNo(bl1, ad1, bn) != 0;
    hide PtrAt;
  }

  // ----- other files -----

  /** What keeps the blocks in use elsewhere keeps every file made of them. */
  lemma {:induction false} Isolated(blocks: seq<Block>, after: seq<Block>, addrs: seq<nat>, others: set<int>, size: nat)
    requires |addrs| == NDIRECT + 2 && |blocks| == |after| && size <= MAXFILE * BSIZE
    requires forall c :: 0 <= c < |blocks| && c in others ==> after[c] == blocks[c]
    requires forall q :: Ok(q) && PtrAt(blocks, addrs, q) != 0 ==> PtrAt(blocks, addrs, q) in others
    ensures forall q :: Ok(q) ==> PtrAt(after, addrs, q) == PtrAt(blocks, addrs, q)
    ensures Contents(after, addrs, size) == Contents(blocks, addrs, size)
  {
    forall q | Ok(q) ensures PtrAt(after, addrs, q) == PtrAt(blocks, addrs, q) {
      SamePtr(blocks, after, addrs, others, q);
    }
    hide PtrAt;
    forall i | 0 <= i < size ensures ByteAt(after, addrs, i) == ByteAt(blocks, addrs, i) {
      assert BlockNo(blocks, addrs, i / BSIZE) != 0 ==> BlockNo(blocks, addrs, i / BSIZE) in others;
    }
  }

  lemma {:induction false} SamePtr(blocks: seq<Block>, after: seq<Block>, addrs: seq<nat>, others: set<int>, q: Pos)
    requires |addrs| == NDIRECT + 2 && |blocks| == |after| && Ok(q)
    requires forall c :: 0 <= c < |blocks| && c in others ==> after[c] == blocks[c]
    requires forall r :: Ok(r) && PtrAt(blocks, addrs, r) != 0 ==> PtrAt(blocks, addrs, r) in others
    ensures PtrAt(after, addrs, q) == PtrAt(blocks, addrs, q)
    decreases if q.DblEntry? then 2 else if InInode(q) then 0 else 1
  {
    if !InInode(q) {
      ThroughParent(blocks, addrs, q);
      ThroughParent(after, addrs, q);
      SamePtr(blocks, after, addrs, others, Parent(q));
      assert PtrAt(blocks, addrs, Parent(q)) != 0 ==> PtrAt(blocks, addrs, Parent(q)) in others;
    }
  }
}
