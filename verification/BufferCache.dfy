/** The buffer cache of bio.c: a fixed set of buffers on a doubly linked list in order of use, over a disk that
    is read and written a block at a time.  What a reader sees of it is its view. */
module BufferCache {
  import opened LogDisk

  const NBUF := 3 * MAXOPBLOCKS
  const ROOTDEV := 1

  /** struct buf; prev and next are indices, and NBUF stands for bcache.head. */
  datatype Buf = Buf(dev: nat, blockno: nat, valid: bool, dirty: bool, refcnt: nat, data: Block, prev: nat, next: nat)

  // ----- the list through prev and next -----

  /** Position k on the way round: the head, then the buffers in order, then the head again. */
  function NodeAt(order: seq<nat>, k: nat): nat
    requires k <= |order| + 1
  {
    if k == 0 || k == |order| + 1 then NBUF else order[k - 1]
  }

  /** The list through the head visits exactly the buffers of `order`, forward and backward, each once. */
  ghost predicate Ring(bs: seq<Buf>, order: seq<nat>) {
    && |bs| == NBUF + 1
    && (forall k :: 0 <= k < |order| ==> order[k] < NBUF)
    && Distinct(order)
    && (forall k :: 0 <= k <= |order| ==>
          bs[NodeAt(order, k)].next == NodeAt(order, k + 1) && bs[NodeAt(order, k + 1)].prev == NodeAt(order, k))
  }

  /** Nothing but links differs. */
  ghost predicate SameBuffers(bs: seq<Buf>, cs: seq<Buf>) {
    |bs| == |cs| && forall i :: 0 <= i < |bs| ==> cs[i] == bs[i].(prev := cs[i].prev, next := cs[i].next)
  }

  function WithNext(bs: seq<Buf>, i: nat, n: nat): (r: seq<Buf>)
    requires i < |bs|
    ensures |r| == |bs|
  {
    bs[i := bs[i].(next := n)]
  }

  function WithPrev(bs: seq<Buf>, i: nat, p: nat): (r: seq<Buf>)
    requires i < |bs|
    ensures |r| == |bs|
  {
    bs[i := bs[i].(prev := p)]
  }

  function Without(order: seq<nat>, j: nat): (r: seq<nat>)
    requires j < |order|
    ensures |r| == |order| - 1
  {
    order[..j] + order[j + 1..]
  }

  /** b->next->prev = b->prev; b->prev->next = b->next */
  lemma {:induction false} UnlinkRing(bs: seq<Buf>, order: seq<nat>, j: nat)
    requires Ring(bs, order) && j < |order|
    ensures var b := order[j];
            && bs[b].next <= NBUF && bs[b].prev <= NBUF
            && Ring(WithNext(WithPrev(bs, bs[b].next, bs[b].prev), bs[b].prev, bs[b].next), Without(order, j))
  {
    var b, rest := order[j], Without(order, j);
    assert b == NodeAt(order, j + 1) && bs[b].next == NodeAt(order, j + 2) && bs[b].prev == NodeAt(order, j);
    var cs := WithNext(WithPrev(bs, bs[b].next, bs[b].prev), bs[b].prev, bs[b].next);
    forall k | 0 <= k <= |rest|
      ensures cs[NodeAt(rest, k)].next == NodeAt(rest, k + 1) && cs[NodeAt(rest, k + 1)].prev == NodeAt(rest, k)
    {
      var k0, k1 := if k <= j then k else k + 1, if k + 1 <= j then k + 1 else k + 2;
      WithoutNode(order, j, k);
      WithoutNode(order, j, k + 1);
      if k != j {
        assert k1 == k0 + 1;
      }
    }
  }

  lemma {:induction false} WithoutNode(order: seq<nat>, j: nat, k: nat)
    requires j < |order| && k <= |order|
    ensures NodeAt(Without(order, j), k) == NodeAt(order, if k <= j then k else k + 1)
  {}

  /** b->next = head.next; b->prev = &head; head.next->prev = b; head.next = b */
  lemma {:induction false} LinkRing(bs: seq<Buf>, order: seq<nat>, b: nat)
    requires Ring(bs, order) && b < NBUF && b !in order
    ensures bs[NBUF].next <= NBUF
    ensures Ring(WithNext(WithPrev(WithPrev(WithNext(bs, b, bs[NBUF].next), b, NBUF), bs[NBUF].next, b), NBUF, b),
                 [b] + order)
  {
    var first, whole := bs[NBUF].next, [b] + order;
    assert NodeAt(order, 0) == NBUF && first == NodeAt(order, 1);
    var cs := WithNext(WithPrev(WithPrev(WithNext(bs, b, first), b, NBUF), first, b), NBUF, b);
    forall k | 0 <= k <= |whole|
      ensures cs[NodeAt(whole, k)].next == NodeAt(whole, k + 1) && cs[NodeAt(whole, k + 1)].prev == NodeAt(whole, k)
    {
      if k >= 1 {
        assert NodeAt(whole, k + 1) == NodeAt(order, k);
        if k >= 2 {
          assert NodeAt(whole, k) == NodeAt(order, k - 1);
          assert NodeAt(order, k - 1) != NBUF;
          assert NodeAt(order, k) != first;
        }
      }
    }
  }

  function Unlinked(bs: seq<Buf>, b: nat): (r: seq<Buf>)
    requires |bs| == NBUF + 1 && b < NBUF && bs[b].next <= NBUF && bs[b].prev <= NBUF
    ensures |r| == |bs|
  {
    WithNext(WithPrev(bs, bs[b].next, bs[b].prev), bs[b].prev, bs[b].next)
  }

  function Linked(bs: seq<Buf>, b: nat): (r: seq<Buf>)
    requires |bs| == NBUF + 1 && b < NBUF && bs[NBUF].next <= NBUF
    ensures |r| == |bs|
  {
    var first := bs[NBUF].next;
    WithNext(WithPrev(WithPrev(WithNext(bs, b, first), b, NBUF), first, b), NBUF, b)
  }

  lemma {:induction false} WithoutMembers(order: seq<nat>, j: nat)
    requires j < |order| && Distinct(order)
    ensures forall x: nat :: x in Without(order, j) <==> x in order && x != order[j]
  {
    var rest := Without(order, j);
    forall x: nat | x in order && x != order[j] ensures x in rest {
      var i :| 0 <= i < |order| && order[i] == x;
      assert rest[if i < j then i else i - 1] == x;
    }
  }

  /** Taken out of the list and put in front of it. */
  lemma {:induction false} FrontRing(bs: seq<Buf>, order: seq<nat>, j: nat)
    requires Ring(bs, order) && j < |order|
    ensures var b := order[j];
            && bs[b].next <= NBUF && bs[b].prev <= NBUF
            && Unlinked(bs, b)[NBUF].next <= NBUF
            && Ring(Linked(Unlinked(bs, b), b), [b] + Without(order, j))
            && SameBuffers(bs, Linked(Unlinked(bs, b), b))
    ensures forall x: nat :: x in order <==> x in [order[j]] + Without(order, j)
  {
    UnlinkRing(bs, order, j);
    WithoutMembers(order, j);
    LinkRing(Unlinked(bs, order[j]), Without(order, j), order[j]);
    hide Ring, SameBuffers;
    UnlinkedSame(bs, order[j]);
    LinkedSame(Unlinked(bs, order[j]), order[j]);
    SameTwice(bs, Unlinked(bs, order[j]), Linked(Unlinked(bs, order[j]), order[j]));
  }

  lemma {:induction false} SameTwice(bs: seq<Buf>, cs: seq<Buf>, ds: seq<Buf>)
    requires SameBuffers(bs, cs) && SameBuffers(cs, ds)
    ensures SameBuffers(bs, ds)
  {}

  lemma {:induction false} UnlinkedSame(bs: seq<Buf>, b: nat)
    requires |bs| == NBUF + 1 && b < NBUF && bs[b].next <= NBUF && bs[b].prev <= NBUF
    ensures SameBuffers(bs, Unlinked(bs, b))
  {}

  lemma {:induction false} LinkedSame(bs: seq<Buf>, b: nat)
    requires |bs| == NBUF + 1 && b < NBUF && bs[NBUF].next <= NBUF
    ensures SameBuffers(bs, Linked(bs, b))
  {}

  // ----- what the buffers hold -----

  predicate Caches(b: Buf, dev: nat, blockno: nat) {
    b.dev == dev && b.blockno == blockno
  }

  /** A buffer that may not be recycled: in use, or waiting for its transaction to commit. */
  predicate Busy(b: Buf) {
    b.refcnt > 0 || b.dirty
  }

  /** The buffers agree with the disk, with what a reader sees of each block (`view`), with the blocks that
      wait for a commit (`dirty`) and with the references handed out (`held`): at most one buffer per block,
      and a block that is neither dirty nor held reads as it is on disk. */
  ghost predicate Coherent(bs: seq<Buf>, disk: Disk, view: Disk, dirty: set<nat>, held: multiset<nat>) {
    && |bs| == NBUF + 1 && |view| == |disk|
    && Apart(bs)
    && AllOk(bs, disk, view, dirty, held)
    && OnDisk(disk, view, dirty, held)
    && Housed(bs, dirty, held)
  }

  ghost predicate Apart(bs: seq<Buf>)
    requires |bs| == NBUF + 1
  {
    forall i, j :: 0 <= i < j < NBUF && bs[i].dev == bs[j].dev == ROOTDEV ==> bs[i].blockno != bs[j].blockno
  }

  ghost predicate AllOk(bs: seq<Buf>, disk: Disk, view: Disk, dirty: set<nat>, held: multiset<nat>)
    requires |bs| == NBUF + 1 && |view| == |disk|
  {
    forall i :: 0 <= i < NBUF ==> BufferOk(bs[i], disk, view, dirty, held)
  }

  ghost predicate OnDisk(disk: Disk, view: Disk, dirty: set<nat>, held: multiset<nat>)
    requires |view| == |disk|
  {
    forall x :: 0 <= x < |disk| && x !in dirty && x !in held ==> view[x] == disk[x]
  }

  ghost predicate Housed(bs: seq<Buf>, dirty: set<nat>, held: multiset<nat>)
    requires |bs| == NBUF + 1
  {
    forall x: nat :: x in dirty || x in held ==> exists i :: 0 <= i < NBUF && Caches(bs[i], ROOTDEV, x)
  }

  ghost predicate BufferOk(b: Buf, disk: Disk, view: Disk, dirty: set<nat>, held: multiset<nat>)
    requires |view| == |disk|
  {
    if b.dev == ROOTDEV then
      && b.blockno < |disk|
      && (b.valid ==> b.data == view[b.blockno])
      && b.refcnt == held[b.blockno]
      && (b.dirty <==> b.blockno in dirty)
      && (Busy(b) ==> b.valid)
    else !Busy(b) && !b.valid
  }

  /** Blocks that occupy a buffer which may not be recycled. */
  ghost function BusyBlocks(dirty: set<nat>, held: multiset<nat>): set<nat> {
    dirty + set x | x in held
  }

  /** The blocks of the busy buffers below m. */
  function BusyUpTo(bs: seq<Buf>, m: nat): set<nat>
    requires m <= |bs|
  {
    if m == 0 then {}
    else if Busy(bs[m - 1]) then BusyUpTo(bs, m - 1) + {bs[m - 1].blockno}
    else BusyUpTo(bs, m - 1)
  }

  ghost predicate BusyApart(bs: seq<Buf>) {
    forall i, j :: 0 <= i < j < |bs| && Busy(bs[i]) && Busy(bs[j]) ==> bs[i].blockno != bs[j].blockno
  }

  lemma {:induction false} BusyUpToMembers(bs: seq<Buf>, m: nat)
    requires m <= |bs|
    ensures forall x :: x in BusyUpTo(bs, m) <==> exists i :: 0 <= i < m && Busy(bs[i]) && bs[i].blockno == x
  {
    if m > 0 {
      BusyUpToMembers(bs, m - 1);
    }
  }

  lemma {:induction false} BusyUpToStep(bs: seq<Buf>, m: nat)
    requires BusyApart(bs) && 0 < m <= |bs|
    ensures |BusyUpTo(bs, m)| == |BusyUpTo(bs, m - 1)| + if Busy(bs[m - 1]) then 1 else 0
  {
    BusyUpToMembers(bs, m - 1);
    if Busy(bs[m - 1]) {
      assert bs[m - 1].blockno !in BusyUpTo(bs, m - 1);
    }
  }

  lemma {:induction false} BusyUpToSize(bs: seq<Buf>, m: nat)
    requires BusyApart(bs) && m <= |bs|
    ensures |BusyUpTo(bs, m)| <= m
    ensures (forall i :: 0 <= i < m ==> Busy(bs[i])) ==> |BusyUpTo(bs, m)| == m
  {
    if m > 0 {
      BusyUpToStep(bs, m);
      BusyUpToSize(bs, m - 1);
    }
  }

  lemma {:induction false} BusyUpToLess(bs: seq<Buf>, m: nat, i: nat)
    requires BusyApart(bs) && i < m <= |bs| && !Busy(bs[i])
    ensures |BusyUpTo(bs, m)| < m
  {
    BusyUpToStep(bs, m);
    if i == m - 1 {
      BusyUpToSize(bs, m - 1);
    } else {
      BusyUpToLess(bs, m - 1, i);
    }
  }

  lemma {:induction false} BusyBlocksAre(bs: seq<Buf>, disk: Disk, view: Disk, dirty: set<nat>, held: multiset<nat>)
    requires Coherent(bs, disk, view, dirty, held)
    ensures BusyApart(bs[..NBUF]) && BusyUpTo(bs[..NBUF], NBUF) == BusyBlocks(dirty, held)
  {
    var cs := bs[..NBUF];
    BusyUpToMembers(cs, NBUF);
    hide BusyUpTo;
    forall x: nat | x in BusyBlocks(dirty, held) ensures x in BusyUpTo(cs, NBUF) {
      var i :| 0 <= i < NBUF && Caches(bs[i], ROOTDEV, x);
      assert Busy(cs[i]) && cs[i].blockno == x;
    }
    forall x | x in BusyUpTo(cs, NBUF) ensures x in BusyBlocks(dirty, held) {
      var i :| 0 <= i < NBUF && Busy(cs[i]) && cs[i].blockno == x;
      assert BufferOk(bs[i], disk, view, dirty, held);
    }
  }

  /** Every buffer is busy exactly when as many blocks are. */
  lemma {:induction false} AllBusy(bs: seq<Buf>, disk: Disk, view: Disk, dirty: set<nat>, held: multiset<nat>)
    requires Coherent(bs, disk, view, dirty, held)
    ensures |BusyBlocks(dirty, held)| <= NBUF
    ensures |BusyBlocks(dirty, held)| == NBUF <==> forall i :: 0 <= i < NBUF ==> Busy(bs[i])
  {
    BusyBlocksAre(bs, disk, view, dirty, held);
    hide Coherent, BusyApart, BusyBlocks, BusyUpTo;
    BusyUpToSize(bs[..NBUF], NBUF);
    if i :| 0 <= i < NBUF && !Busy(bs[i]) {
      BusyUpToLess(bs[..NBUF], NBUF, i);
    } else {
      assert forall i :: 0 <= i < NBUF ==> Busy(bs[..NBUF][i]);
    }
  }

  // ----- bget, as a relation on the buffers -----

  /** bget finds the block or recycles the least recently used buffer that is not busy. */
  ghost predicate Gets(bs: seq<Buf>, order: seq<nat>, dev: nat, blockno: nat, b: nat, cs: seq<Buf>) {
    && b < NBUF && |bs| == NBUF + 1
    && if Caches(bs[b], dev, blockno) then cs == bs[b := bs[b].(refcnt := bs[b].refcnt + 1)]
       else
         && Absent(bs, dev, blockno)
         && LastUnused(bs, order, b)
         && cs == bs[b := bs[b].(dev := dev, blockno := blockno, valid := false, dirty := false, refcnt := 1)]
  }

  /** b is not busy, and whatever was used before it is. */
  ghost predicate LastUnused(bs: seq<Buf>, order: seq<nat>, b: nat)
    requires |bs| == NBUF + 1 && b < NBUF
  {
    && !Busy(bs[b])
    && exists j :: 0 <= j < |order| && order[j] == b
                   && forall k :: j < k < |order| ==> order[k] < NBUF && Busy(bs[order[k]])
  }

  /** The list goes from the buffer released last to the one not used for longest. */
  ghost predicate Aged(order: seq<nat>, stamp: seq<nat>, clock: nat) {
    && |order| == |stamp| == NBUF && (forall i :: 0 <= i < NBUF ==> order[i] < NBUF && stamp[i] < clock)
    && forall i, j :: 0 <= i < j < NBUF ==> Later(order, stamp, i, j)
  }

  ghost predicate Later(order: seq<nat>, stamp: seq<nat>, i: nat, j: nat)
    requires i < |order| && j < |order|
  {
    order[i] < |stamp| && order[j] < |stamp| && stamp[order[i]] > stamp[order[j]]
  }

  /** b is not busy, and of all such buffers the one that was released first. */
  ghost predicate Oldest(bs: seq<Buf>, stamp: seq<nat>, b: nat) {
    && |bs| == NBUF + 1 && |stamp| == NBUF && b < NBUF && !Busy(bs[b])
    && forall c :: 0 <= c < NBUF && !Busy(bs[c]) ==> stamp[b] <= stamp[c]
  }

  lemma {:induction false} GetsOldest(bs: seq<Buf>, order: seq<nat>, stamp: seq<nat>, clock: nat, x: nat, b: nat,
                                      cs: seq<Buf>)
    requires |bs| == NBUF + 1 && Aged(order, stamp, clock) && (forall i :: 0 <= i < NBUF ==> i in order)
    requires Gets(bs, order, ROOTDEV, x, b, cs) && Absent(bs, ROOTDEV, x)
    ensures Oldest(bs, stamp, b)
  {
    assert LastUnused(bs, order, b);
    var j :| 0 <= j < |order| && order[j] == b && forall k :: j < k < |order| ==> order[k] < NBUF && Busy(bs[order[k]]);
    forall c | 0 <= c < NBUF && !Busy(bs[c]) ensures stamp[b] <= stamp[c] {
      assert c in order;
      var i :| 0 <= i < |order| && order[i] == c;
      assert i < j ==> Later(order, stamp, i, j);
    }
  }

  lemma {:induction false} RingDistinct(bs: seq<Buf>, order: seq<nat>)
    requires Ring(bs, order)
    ensures Distinct(order)
  {}

  lemma {:induction false} Younger(order: seq<nat>, stamp: seq<nat>, clock: nat, j: nat)
    requires Aged(order, stamp, clock) && j < |order|
    requires Distinct(order)
    ensures Aged([order[j]] + Without(order, j), stamp[order[j] := clock], clock + 1)
  {
    var after, now := [order[j]] + Without(order, j), stamp[order[j] := clock];
    forall i, k | 0 <= i < k < NBUF ensures Later(after, now, i, k) {
      var a, c := if i <= j then i - 1 else i, if k <= j then k - 1 else k;
      assert after[k] == order[c];
      if i > 0 {
        assert after[i] == order[a] && Later(order, stamp, a, c);
      }
    }
  }

  lemma {:induction false} FirstAges(order: seq<nat>, stamp: seq<nat>)
    requires |order| == NBUF && forall i :: 0 <= i < NBUF ==> order[i] == NBUF - 1 - i
    requires stamp == seq(NBUF, i => i)
    ensures Aged(order, stamp, NBUF) && forall i :: 0 <= i < NBUF ==> i in order
  {
    forall i | 0 <= i < NBUF ensures i in order {
      assert order[NBUF - 1 - i] == i;
    }
  }

  ghost predicate Absent(bs: seq<Buf>, dev: nat, blockno: nat)
    requires |bs| == NBUF + 1
  {
    forall i :: 0 <= i < NBUF ==> !Caches(bs[i], dev, blockno)
  }

  /** Data changes in a buffer that keeps its links. */
  lemma {:induction false} RingKept(bs: seq<Buf>, order: seq<nat>, b: nat, x: Buf)
    requires Ring(bs, order) && b < NBUF
    requires x.prev == bs[b].prev && x.next == bs[b].next
    ensures Ring(bs[b := x], order)
  {}

  // ----- each operation keeps the buffers coherent -----

  lemma {:induction false} GetsCoherent(bs: seq<Buf>, order: seq<nat>, disk: Disk, view: Disk, dirty: set<nat>,
                                        held: multiset<nat>, x: nat, b: nat, cs: seq<Buf>)
    requires Coherent(bs, disk, view, dirty, held) && x < |disk|
    requires Gets(bs, order, ROOTDEV, x, b, cs)
    ensures Coherent(cs[b := cs[b].(valid := true, data := if cs[b].valid then cs[b].data else disk[x])],
                     disk, view, dirty, held + multiset{x})
  {
    hide Apart, AllOk, OnDisk, Housed, BufferOk;
    var held' := held + multiset{x};
    var c := cs[b].(valid := true, data := if cs[b].valid then cs[b].data else disk[x]);
    assert cs[b := c] == bs[b := c];
    if Caches(bs[b], ROOTDEV, x) {
      CachedOk(bs, disk, view, dirty, held, b, x);
      ChangeCoherent(bs, disk, view, dirty, held, b, c, disk, view, dirty, held');
    } else {
      AbsentNotBusy(bs, disk, view, dirty, held, x);
      RecycleCoherent(bs, disk, view, dirty, held, b, c);
    }
  }

  /** A cached block counted once more, read again if it has to be. */
  lemma {:induction false} CachedOk(bs: seq<Buf>, disk: Disk, view: Disk, dirty: set<nat>, held: multiset<nat>,
                                    b: nat, x: nat)
    requires Coherent(bs, disk, view, dirty, held) && b < NBUF && Caches(bs[b], ROOTDEV, x) && x < |disk|
    ensures var data := if bs[b].valid then bs[b].data else disk[x];
            BufferOk(bs[b].(refcnt := bs[b].refcnt + 1, valid := true, data := data),
                     disk, view, dirty, held + multiset{x})
  {
    assert BufferOk(bs[b], disk, view, dirty, held);
  }

  /** A buffer that is not busy is given to a block that is in no buffer. */
  lemma {:induction false} RecycleCoherent(bs: seq<Buf>, disk: Disk, view: Disk, dirty: set<nat>,
                                           held: multiset<nat>, b: nat, c: Buf)
    requires Coherent(bs, disk, view, dirty, held) && b < NBUF && !Busy(bs[b])
    requires c.dev == ROOTDEV && c.blockno < |disk| && Absent(bs, ROOTDEV, c.blockno)
    requires c.blockno !in BusyBlocks(dirty, held)
    requires c.valid && !c.dirty && c.refcnt == 1 && c.data == disk[c.blockno]
    ensures Coherent(bs[b := c], disk, view, dirty, held + multiset{c.blockno})
  {
    var cs, x, held' := bs[b := c], c.blockno, held + multiset{c.blockno};
    assert Apart(cs) by { hide AllOk, OnDisk, Housed; }
    assert AllOk(cs, disk, view, dirty, held') by {
      hide Housed, Apart;
      forall i | 0 <= i < NBUF ensures BufferOk(cs[i], disk, view, dirty, held') {
        assert BufferOk(bs[i], disk, view, dirty, held);
      }
    }
    assert OnDisk(disk, view, dirty, held') by { hide AllOk, Apart, Housed; }
    assert Housed(cs, dirty, held') by {
      hide OnDisk, Apart;
      forall y: nat | y in dirty || y in held' ensures exists i :: 0 <= i < NBUF && Caches(cs[i], ROOTDEV, y) {
        if y == x {
          assert Caches(cs[b], ROOTDEV, x);
        } else {
          var i :| 0 <= i < NBUF && Caches(bs[i], ROOTDEV, y);
          assert BufferOk(bs[i], disk, view, dirty, held);
          assert Caches(cs[i], ROOTDEV, y);
        }
      }
    }
  }

  lemma {:induction false} AbsentNotBusy(bs: seq<Buf>, disk: Disk, view: Disk, dirty: set<nat>,
                                         held: multiset<nat>, x: nat)
    requires Coherent(bs, disk, view, dirty, held) && Absent(bs, ROOTDEV, x)
    ensures x !in BusyBlocks(dirty, held)
  {}

  lemma {:induction false} CachedIsBusy(bs: seq<Buf>, disk: Disk, view: Disk, dirty: set<nat>,
                                        held: multiset<nat>, b: nat, x: nat)
    requires Coherent(bs, disk, view, dirty, held) && b < NBUF && Caches(bs[b], ROOTDEV, x)
    ensures x in BusyBlocks(dirty, held) <==> Busy(bs[b])
    ensures |view| == |disk| && BufferOk(bs[b], disk, view, dirty, held)
  {
    assert BufferOk(bs[b], disk, view, dirty, held);
  }

  /** One buffer and its block change; the other buffers and blocks do not. */
  lemma {:induction false} ChangeCoherent(bs: seq<Buf>, disk: Disk, view: Disk, dirty: set<nat>, held: multiset<nat>,
                                          b: nat, c: Buf, disk': Disk, view': Disk, dirty': set<nat>,
                                          held': multiset<nat>)
    requires Coherent(bs, disk, view, dirty, held) && b < NBUF && bs[b].dev == ROOTDEV
    requires c.dev == ROOTDEV && c.blockno == bs[b].blockno
    requires |disk'| == |disk| && |view'| == |view|
    requires forall y :: 0 <= y < |disk| && y != c.blockno ==> disk'[y] == disk[y] && view'[y] == view[y]
    requires forall y :: y != c.blockno ==> (y in dirty' <==> y in dirty) && held'[y] == held[y]
    requires BufferOk(c, disk', view', dirty', held')
    requires c.blockno !in dirty' && c.blockno !in held' ==> view'[c.blockno] == disk'[c.blockno]
    ensures Coherent(bs[b := c], disk', view', dirty', held')
  {
    var cs, x := bs[b := c], c.blockno;
    assert Apart(cs) by { hide AllOk, OnDisk, Housed, BufferOk; }
    assert AllOk(cs, disk', view', dirty', held') by {
      hide Housed, OnDisk;
      forall i | 0 <= i < NBUF ensures BufferOk(cs[i], disk', view', dirty', held') {
        assert BufferOk(bs[i], disk, view, dirty, held);
        if i != b && bs[i].dev == ROOTDEV {
          assert bs[i].blockno != x;
        }
      }
    }
    assert OnDisk(disk', view', dirty', held') by { hide AllOk, Apart, Housed, BufferOk; }
    assert Housed(cs, dirty', held') by {
      hide AllOk, OnDisk, Apart, BufferOk;
      forall y: nat | y in dirty' || y in held' ensures exists i :: 0 <= i < NBUF && Caches(cs[i], ROOTDEV, y) {
        if y == x {
          assert Caches(cs[b], ROOTDEV, x);
        } else {
          var i :| 0 <= i < NBUF && Caches(bs[i], ROOTDEV, y);
          assert Caches(cs[i], ROOTDEV, y);
        }
      }
    }
  }

  /** Links are no part of what the buffers hold. */
  lemma {:induction false} RelinkedCoherent(bs: seq<Buf>, cs: seq<Buf>, disk: Disk, view: Disk, dirty: set<nat>,
                                            held: multiset<nat>)
    requires Coherent(bs, disk, view, dirty, held) && SameBuffers(bs, cs)
    ensures Coherent(cs, disk, view, dirty, held)
  {
    forall i | 0 <= i < NBUF ensures BufferOk(cs[i], disk, view, dirty, held) {
      assert BufferOk(bs[i], disk, view, dirty, held);
    }
    forall y: nat | y in dirty || y in held ensures exists i :: 0 <= i < NBUF && Caches(cs[i], ROOTDEV, y) {
      var i :| 0 <= i < NBUF && Caches(bs[i], ROOTDEV, y);
      assert Caches(cs[i], ROOTDEV, y);
    }
  }

  class Bcache {
    const buf: array<Buf>
    var disk: Disk
    ghost var order: seq<nat>       // buffers, most recently used first
    ghost var view: Disk
    ghost var dirty: set<nat>
    ghost var held: multiset<nat>
    ghost var states: seq<Disk>     // the disk after each write
    ghost var stamp: seq<nat>       // when each buffer was last released, or set up
    ghost var clock: nat

    ghost predicate Listed()
      reads this, buf
    {
      && buf.Length == NBUF + 1 && |order| == NBUF
      && Ring(buf[..], order)
      && forall i :: 0 <= i < NBUF ==> i in order
    }

    ghost predicate Valid()
      reads this, buf
    {
      Listed() && Coherent(buf[..], disk, view, dirty, held) && Aged(order, stamp, clock)
    }

    /** The first loop of bget: the buffer that caches the block, or NBUF. */
    method FindCached(dev: nat, blockno: nat) returns (b: nat)
      requires Listed()
      ensures b <= NBUF
      ensures if b < NBUF then Caches(buf[b], dev, blockno) else Absent(buf[..], dev, blockno)
    {
      ghost var k := 1;
      b := buf[NBUF].next;
      assert NodeAt(order, 0) == NBUF && b == NodeAt(order, 1);
      while b != NBUF
        invariant 1 <= k <= NBUF + 1 && b == NodeAt(order, k)
        invariant forall i :: 0 <= i < k - 1 ==> !Caches(buf[order[i]], dev, blockno)
        decreases NBUF + 1 - k
      {
        if buf[b].dev == dev && buf[b].blockno == blockno {
          return;
        }
        b, k := buf[b].next, k + 1;
      }
      ghost var wanted := set i: nat | i < NBUF && Caches(buf[i], dev, blockno);
      Scanned(order, wanted);
      assert forall i :: 0 <= i < NBUF && Caches(buf[i], dev, blockno) ==> i in wanted;
    }

    /** The second loop of bget: the least recently used buffer that is not busy, or NBUF. */
    method FindVictim() returns (b: nat)
      requires Listed()
      ensures b <= NBUF
      ensures if b < NBUF then LastUnused(buf[..], order, b) else forall i :: 0 <= i < NBUF ==> Busy(buf[i])
    {
      ghost var k := NBUF;
      b := buf[NBUF].prev;
      assert NodeAt(order, NBUF + 1) == NBUF && b == NodeAt(order, NBUF);
      while b != NBUF
        invariant 0 <= k <= NBUF && b == NodeAt(order, k)
        invariant forall i :: k <= i < NBUF ==> Busy(buf[order[i]])
        decreases k
      {
        if buf[b].refcnt == 0 && !buf[b].dirty {
          assert order[k - 1] == b;
          return;
        }
        b, k := buf[b].prev, k - 1;
      }
      ghost var wanted := set i: nat | i < NBUF && !Busy(buf[i]);
      Scanned(order, wanted);
      assert forall i :: 0 <= i < NBUF && !Busy(buf[i]) ==> i in wanted;
    }

    method Bget(dev: nat, blockno: nat) returns (b: nat, ok: bool)
      requires Listed()
      modifies buf
      ensures Listed()
      ensures ok ==> Gets(old(buf[..]), order, dev, blockno, b, buf[..])
      ensures !ok ==> buf[..] == old(buf[..]) && Absent(buf[..], dev, blockno)
                      && forall i :: 0 <= i < NBUF ==> Busy(buf[i])
    {
      hide Ring;
      ok := true;
      b := FindCached(dev, blockno);
      if b == NBUF {
        b := FindVictim();
        if b == NBUF {
          ok := false;  // panic: bget: no buffers
          return;
        }
        ghost var c := buf[b].(dev := dev, blockno := blockno, valid := false, dirty := false, refcnt := 1);
        RingKept(buf[..], order, b, c);
        buf[b] := buf[b].(dev := dev, blockno := blockno, valid := false, dirty := false, refcnt := 1);
        assert buf[..] == old(buf[..])[b := c];
      } else {
        RingKept(buf[..], order, b, buf[b].(refcnt := buf[b].refcnt + 1));
        buf[b] := buf[b].(refcnt := buf[b].refcnt + 1);
        assert buf[..] == old(buf[..])[b := buf[b]];
      }
    }

    /** The caller has block x locked in buffer b. */
    ghost predicate Holding(b: nat, x: nat)
      reads this, buf
    {
      buf.Length == NBUF + 1 && b < NBUF && Caches(buf[b], ROOTDEV, x) && buf[b].refcnt > 0
    }

    /** Whoever has a block that is still held has it in the same buffer. */
    twostate predicate HoldersKept()
      reads this, buf
    {
      forall c: nat, y: nat :: old(Holding(c, y)) && y in held ==> Holding(c, y)
    }

    /** A locked buffer with the contents of the block; false stands for the panic "bget: no buffers", which
        happens exactly when the block is not busy and NBUF others are. */
    method Bread(x: nat) returns (b: nat, ok: bool)
      requires Valid() && x < |disk|
      modifies this, buf
      ensures Valid() && order == old(order) && stamp == old(stamp) && clock == old(clock)
      ensures disk == old(disk) && view == old(view) && dirty == old(dirty) && states == old(states)
      ensures ok <==> x in BusyBlocks(dirty, old(held)) || |BusyBlocks(dirty, old(held))| < NBUF
      ensures ok ==> held == old(held) + multiset{x} && Holding(b, x)
      ensures !ok ==> unchanged(this)
      ensures forall c: nat, y: nat :: old(Holding(c, y)) ==> Holding(c, y)
      ensures ok && Absent(old(buf[..]), ROOTDEV, x) ==> Oldest(old(buf[..]), stamp, b)
    {
      hide Ring, Coherent, Aged;
      ghost var bs := buf[..];
      AllBusy(bs, disk, view, dirty, held);
      assert |bs| == NBUF + 1;
      b, ok := Bget(ROOTDEV, x);
      if !ok {
        AbsentNotBusy(bs, disk, view, dirty, held, x);
        return;
      }
      GetsCoherent(bs, order, disk, view, dirty, held, x, b, buf[..]);
      if Absent(bs, ROOTDEV, x) {
        GetsOldest(bs, order, stamp, clock, x, b, buf[..]);
      }
      if Caches(bs[b], ROOTDEV, x) {
        CachedIsBusy(bs, disk, view, dirty, held, b, x);
      }
      ghost var cs := buf[..];
      RingKept(cs, order, b, cs[b].(valid := true, data := if cs[b].valid then cs[b].data else disk[x]));
      if !buf[b].valid {
        buf[b] := buf[b].(valid := true, data := disk[x]);
      }
      held := held + multiset{x};
      assert buf[..] == cs[b := cs[b].(valid := true, data := if cs[b].valid then cs[b].data else disk[x])];
      assert forall c: nat, y: nat :: old(Holding(c, y)) ==> Busy(bs[c]);
    }

    /** b->data of a locked buffer. */
    method Data(b: nat, ghost x: nat) returns (data: Block)
      requires Valid() && Holding(b, x)
      ensures x < |disk| == |view| && data == view[x]
    {
      hide Ring, Apart, OnDisk, Housed;
      CachedIsBusy(buf[..], disk, view, dirty, held, b, x);
      data := buf[b].data;
    }

    /** A block that is neither dirty nor held reads as it is on disk. */
    lemma {:induction false} ReadsAsOnDisk(x: nat)
      requires Valid() && x < |disk| && x !in dirty && x !in held
      ensures |view| == |disk| && view[x] == disk[x]
    {
      hide Ring, Apart, Housed;
    }

    /** memmove into a locked buffer. */
    method Fill(b: nat, ghost x: nat, data: Block)
      requires Valid() && Holding(b, x) && x < |disk|
      modifies this, buf
      ensures Valid() && order == old(order) && stamp == old(stamp) && clock == old(clock)
      ensures view == old(view)[x := data]
      ensures disk == old(disk) && dirty == old(dirty) && held == old(held) && states == old(states)
      ensures forall c: nat, y: nat :: old(Holding(c, y)) ==> Holding(c, y)
    {
      hide Ring, Coherent, Apart, AllOk, OnDisk, Housed;
      ghost var c := buf[b].(data := data);
      CachedIsBusy(buf[..], disk, view, dirty, held, b, x);
      ChangeCoherent(buf[..], disk, view, dirty, held, b, c, disk, view[x := data], dirty, held);
      RingKept(buf[..], order, b, c);
      ghost var bs := buf[..];
      buf[b] := buf[b].(data := data);
      view := view[x := data];
      assert buf[..] == bs[b := c];
    }

    /** Write a locked buffer to disk.  The buffer is dirty only for the moment of the write. */
    method Bwrite(b: nat, ghost x: nat)
      requires Valid() && Holding(b, x) && x < |disk|
      modifies this, buf
      ensures Valid() && order == old(order) && stamp == old(stamp) && clock == old(clock)
      ensures disk == old(disk)[x := old(view)[x]] && states == old(states) + [disk]
      ensures dirty == old(dirty) - {x}
      ensures view == old(view) && held == old(held)
      ensures forall c: nat, y: nat :: old(Holding(c, y)) ==> Holding(c, y)
    {
      hide Ring, Coherent, Apart, AllOk, OnDisk, Housed;
      ghost var bs, c := buf[..], buf[b].(dirty := false);
      CachedIsBusy(bs, disk, view, dirty, held, b, x);
      ghost var disk' := disk[x := view[x]];
      ChangeCoherent(bs, disk, view, dirty, held, b, c, disk', view, dirty - {x}, held);
      RingKept(bs, order, b, c);
      buf[b] := buf[b].(dirty := true);
      disk := disk[buf[b].blockno := buf[b].data];
      buf[b] := buf[b].(dirty := false);
      states := states + [disk];
      dirty := dirty - {x};
      assert buf[..] == bs[b := c];
    }

    /** memmove(to->data, from->data, BSIZE); bwrite(to) */
    method CopyAndWrite(to: nat, ghost y: nat, from: nat, ghost x: nat)
      requires Valid() && Holding(to, y) && Holding(from, x) && x < |disk| && y < |disk| == |view|
      modifies this, buf
      ensures Valid() && order == old(order) && stamp == old(stamp) && clock == old(clock)
      ensures disk == old(disk)[y := old(view)[x]] && view == old(view)[y := old(view)[x]]
      ensures states == old(states) + [disk]
      ensures dirty == old(dirty) - {y} && held == old(held)
      ensures forall c: nat, z: nat :: old(Holding(c, z)) ==> Holding(c, z)
    {
      hide Ring, Coherent, Listed, Valid, Holding;
      var data := Data(from, x);
      Fill(to, y, data);
      Bwrite(to, y);
    }

    /** b->flags |= B_DIRTY in log_write: the buffer stays until its transaction commits. */
    method Pin(b: nat, ghost x: nat)
      requires Valid() && Holding(b, x) && x < |disk|
      modifies this, buf
      ensures Valid() && order == old(order) && stamp == old(stamp) && clock == old(clock)
      ensures dirty == old(dirty) + {x}
      ensures disk == old(disk) && view == old(view) && held == old(held) && states == old(states)
      ensures forall c: nat, y: nat :: old(Holding(c, y)) ==> Holding(c, y)
    {
      hide Ring, Coherent, Apart, AllOk, OnDisk, Housed;
      ghost var bs, c := buf[..], buf[b].(dirty := true);
      CachedIsBusy(bs, disk, view, dirty, held, b, x);
      ChangeCoherent(bs, disk, view, dirty, held, b, c, disk, view, dirty + {x}, held);
      RingKept(bs, order, b, c);
      buf[b] := buf[b].(dirty := true);
      dirty := dirty + {x};
      assert buf[..] == bs[b := c];
    }

    /** Release a buffer whose changes are on disk or logged.  The last release makes it the most recently used. */
    method Brelse(b: nat, ghost x: nat)
      requires Valid() && Holding(b, x) && x < |disk|
      requires x in dirty || held[x] > 1 || view[x] == disk[x]
      modifies this, buf
      ensures Valid()
      ensures held == old(held) - multiset{x}
      ensures disk == old(disk) && view == old(view) && dirty == old(dirty) && states == old(states)
      ensures HoldersKept()
      ensures if x in held then order == old(order)
              else exists j :: 0 <= j < NBUF && old(order)[j] == b && order == [b] + Without(old(order), j)
      ensures if x in held then stamp == old(stamp) && clock == old(clock)
              else |old(stamp)| == NBUF && stamp == old(stamp)[b := old(clock)] && clock == old(clock) + 1
    {
      hide Ring, Coherent, Apart, AllOk, OnDisk, Housed, Aged;
      ghost var bs, c := buf[..], buf[b].(refcnt := buf[b].refcnt - 1);
      CachedIsBusy(bs, disk, view, dirty, held, b, x);
      ChangeCoherent(bs, disk, view, dirty, held, b, c, disk, view, dirty, held - multiset{x});
      RingKept(bs, order, b, c);
      buf[b] := buf[b].(refcnt := buf[b].refcnt - 1);
      held := held - multiset{x};
      assert buf[..] == bs[b := c];
      if buf[b].refcnt == 0 {
        MoveToFront(b);
      }
    }

    /** The relinking at the end of brelse. */
    method MoveToFront(b: nat)
      requires Valid() && b < NBUF
      modifies this`order, this`stamp, this`clock, buf
      ensures Valid()
      ensures |old(stamp)| == NBUF && stamp == old(stamp)[b := old(clock)] && clock == old(clock) + 1
      ensures exists j :: 0 <= j < NBUF && old(order)[j] == b && order == [b] + Without(old(order), j)
      ensures SameBuffers(old(buf[..]), buf[..])
    {
      hide Ring, Coherent, SameBuffers, Without;
      ghost var bs := buf[..];
      assert b in order;
      ghost var j :| 0 <= j < |order| && order[j] == b;
      FrontRing(bs, order, j);
      RingDistinct(bs, order);
      Younger(order, stamp, clock, j);
      Unlink(b);
      Link(b);
      order := [b] + Without(order, j);
      stamp, clock := stamp[b := clock], clock + 1;
      RelinkedCoherent(bs, buf[..], disk, view, dirty, held);
    }

    /** b->next->prev = b->prev; b->prev->next = b->next */
    method Unlink(b: nat)
      requires buf.Length == NBUF + 1 && b < NBUF && buf[b].next <= NBUF && buf[b].prev <= NBUF
      modifies buf
      ensures buf[..] == Unlinked(old(buf[..]), b)
    {
      ghost var bs := buf[..];
      var next, prev := buf[b].next, buf[b].prev;
      buf[next] := buf[next].(prev := prev);
      assert buf[..] == WithPrev(bs, next, prev);
      buf[prev] := buf[prev].(next := next);
    }

    /** b->next = head.next; b->prev = &head; head.next->prev = b; head.next = b */
    method Link(b: nat)
      requires buf.Length == NBUF + 1 && b < NBUF && buf[NBUF].next <= NBUF
      modifies buf
      ensures buf[..] == Linked(old(buf[..]), b)
    {
      ghost var bs := buf[..];
      var first := buf[NBUF].next;
      buf[b] := buf[b].(next := first);
      assert buf[..] == WithNext(bs, b, first);
      buf[b] := buf[b].(prev := NBUF);
      assert buf[..] == WithPrev(WithNext(bs, b, first), b, NBUF);
      buf[first] := buf[first].(prev := b);
      assert buf[..] == WithPrev(WithPrev(WithNext(bs, b, first), b, NBUF), first, b);
      buf[NBUF] := buf[NBUF].(next := b);
    }

    /** binit: every buffer on the list, none caching anything. */
    constructor (disk: Disk)
      ensures Valid() && fresh(buf)
      ensures this.disk == disk == view && dirty == {} && held == multiset{} && states == []
    {
      hide Aged;
      buf := new Buf[NBUF + 1](_ => Buf(0, 0, false, false, 0, [], NBUF, NBUF));
      this.disk, view, dirty, held, states := disk, disk, {}, multiset{}, [];
      order := [];
      new;
      var b := 0;
      while b < NBUF
        invariant 0 <= b <= NBUF && |order| == b && Ring(buf[..], order)
        invariant forall i :: 0 <= i < b ==> order[i] == b - 1 - i
        invariant forall i :: 0 <= i < NBUF ==> buf[i].dev == 0 && !Busy(buf[i]) && !buf[i].valid
        invariant this.disk == disk == view && dirty == {} && held == multiset{} && states == []
      {
        LinkRing(buf[..], order, b);
        LinkedSame(buf[..], b);
        Link(b);
        order := [b] + order;
        b := b + 1;
      }
      stamp, clock := seq(NBUF, i => i), NBUF;
      FirstAges(order, stamp);
      assert Coherent(buf[..], disk, view, dirty, held);
    }
  }

  /** A scan of the list misses no buffer. */
  lemma {:induction false} Scanned(order: seq<nat>, wanted: set<nat>)
    requires forall i :: 0 <= i < NBUF ==> i in order
    requires forall k :: 0 <= k < |order| ==> order[k] !in wanted
    ensures forall i :: 0 <= i < NBUF ==> i !in wanted
  {
    forall i: nat | i < NBUF ensures i !in wanted {
      assert i in order;
    }
  }
}
