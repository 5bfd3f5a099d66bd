/** log.c itself: the in-memory log over the buffer cache.  Each method writes the disk exactly as LogDisk says,
    one write after the other.  Others may hold buffers meanwhile. */
module WriteAheadLog {
  import opened LogDisk
  import opened BufferCache
  import LogProtocol

  lemma {:induction false} DistinctSize(blocks: seq<nat>)
    requires Distinct(blocks)
    ensures |LogProtocol.SetOf(blocks)| == |blocks|
  {
    if blocks == [] {
      assert LogProtocol.SetOf(blocks) == {};
    } else {
      var last, rest := blocks[|blocks| - 1], blocks[..|blocks| - 1];
      DistinctSize(rest);
      assert LogProtocol.SetOf(blocks) == LogProtocol.SetOf(rest) + {last};
    }
  }

  /** The dirty blocks once `tail` blocks are installed: during a commit the logged blocks that remain, during
      recovery none. */
  function Waiting(pinned: bool, blocks: seq<nat>, tail: nat): set<nat>
    requires tail <= |blocks|
  {
    if pinned then LogProtocol.SetOf(blocks[tail..]) else {}
  }

  lemma {:induction false} WaitingEnds(pinned: bool, blocks: seq<nat>)
    ensures Waiting(pinned, blocks, |blocks|) == {}
    ensures Waiting(true, blocks, 0) == LogProtocol.SetOf(blocks) && Waiting(false, blocks, 0) == {}
  {
    assert blocks[0..] == blocks;
  }

  /** Installing one more block leaves the rest waiting. */
  lemma {:induction false} Remaining(area: Area, size: nat, pinned: bool, blocks: seq<nat>, tail: nat)
    requires Loggable(area, size, blocks) && tail < |blocks|
    ensures Waiting(pinned, blocks, tail) - {blocks[tail]} == Waiting(pinned, blocks, tail + 1)
    ensures if pinned then blocks[tail] in Waiting(pinned, blocks, tail) else Waiting(pinned, blocks, tail) == {}
    ensures area.start + tail + 1 !in Waiting(pinned, blocks, tail)
  {
    assert blocks[tail..] == [blocks[tail]] + blocks[tail + 1..];
    assert forall x :: x in LogProtocol.SetOf(blocks[tail..]) ==> x in blocks;
  }

  /** One more holder, one more written block. */
  lemma {:induction false} BusyOne(dirty: set<nat>, held: multiset<nat>, x: nat)
    ensures BusyBlocks(dirty, held + multiset{x}) == BusyBlocks(dirty, held) + {x}
    ensures |BusyBlocks(dirty, held + multiset{x})| <= |BusyBlocks(dirty, held)| + 1
    ensures |BusyBlocks(dirty - {x}, held)| <= |BusyBlocks(dirty, held)|
  {
    var some, more := BusyBlocks(dirty, held), BusyBlocks(dirty, held + multiset{x});
    assert more == some + {x};
    Fewer(BusyBlocks(dirty - {x}, held), some);
  }

  /** There is room to install block y, and afterwards. */
  lemma {:induction false} StillRoom(dirty: set<nat>, held: multiset<nat>, y: nat)
    requires |BusyBlocks(dirty, held)| < NBUF && (y in dirty || (dirty == {} && held == multiset{}))
    ensures y in dirty || |BusyBlocks(dirty, held)| + 1 < NBUF
    ensures |BusyBlocks(dirty - {y}, held)| < NBUF
  {
    BusyOne(dirty, held, y);
    assert y !in dirty ==> BusyBlocks(dirty, held) == {};
  }

  lemma {:induction false} Fewer(s: set<nat>, t: set<nat>)
    requires s <= t
    ensures |s| <= |t|
  {
    assert t == s + (t - s);
  }

  /** What both loops do with their two buffers: copy, write, and release both. */
  method CopyHeld(cache: Bcache, to: nat, y: nat, from: nat, x: nat, ghost held: multiset<nat>)
    requires cache.Valid() && cache.Holding(to, y) && cache.Holding(from, x)
    requires x != y && x < |cache.disk| == |cache.view| && y < |cache.disk|
    requires cache.held == held + multiset{x} + multiset{y} && (x in cache.dirty || cache.view[x] == cache.disk[x])
    modifies cache, cache.buf
    ensures cache.HoldersKept()
    ensures cache.Valid() && cache.held == held && cache.dirty == old(cache.dirty) - {y}
    ensures cache.disk == old(cache.disk)[y := old(cache.view)[x]]
    ensures cache.view == old(cache.view)[y := old(cache.view)[x]]
    ensures cache.states == old(cache.states) + [cache.disk]
  {
    hide Ring, Coherent, Bcache.Listed, Bcache.Holding, Bcache.Valid, BusyBlocks;
    cache.CopyAndWrite(to, y, from, x);
    ReleaseBoth(cache, from, x, to, y, held);
  }

  method ReleaseBoth(cache: Bcache, b: nat, x: nat, c: nat, y: nat, ghost held: multiset<nat>)
    requires cache.Valid() && cache.Holding(b, x) && cache.Holding(c, y) && x != y
    requires x < |cache.disk| == |cache.view| && y < |cache.disk| && cache.held == held + multiset{x} + multiset{y}
    requires x in cache.dirty || cache.view[x] == cache.disk[x]
    requires y in cache.dirty || cache.view[y] == cache.disk[y]
    modifies cache, cache.buf
    ensures cache.HoldersKept() && cache.Valid() && cache.held == held && cache.dirty == old(cache.dirty)
    ensures cache.disk == old(cache.disk) && cache.view == old(cache.view) && cache.states == old(cache.states)
  {
    hide Ring, Coherent, Bcache.Listed, Bcache.Holding, Bcache.Valid, BusyBlocks;
    cache.Brelse(b, x);
    assert cache.held == held + multiset{y};
    cache.Brelse(c, y);
    assert cache.held == held;
  }

  /** The body of write_log's loop: home block y, as cached, to log block x.  Fails when every buffer is dirty or held
      by others. */
  method CopyOut(cache: Bcache, x: nat, y: nat) returns (ok: bool)
    requires cache.Valid()
    requires x != y && x < |cache.disk| == |cache.view| && y < |cache.disk| && x !in cache.dirty && x !in cache.held
    requires y in cache.dirty
    modifies cache, cache.buf
    ensures cache.HoldersKept()
    ensures cache.Valid() && cache.held == old(cache.held)
    ensures ok <==> |BusyBlocks(old(cache.dirty), old(cache.held))| < NBUF
    ensures !ok ==> unchanged(cache)
    ensures ok ==> cache.disk == old(cache.disk)[x := old(cache.view)[y]]
    ensures ok ==> cache.view == old(cache.view)[x := old(cache.view)[y]]
    ensures ok ==> cache.dirty == old(cache.dirty) - {x}
    ensures ok ==> cache.states == old(cache.states) + [cache.disk]
  {
    hide Ring, Coherent, Bcache.Listed, Bcache.Holding, Bcache.Valid;
    ghost var held := cache.held;
    var b, c, ok1;
    b, ok := cache.Bread(x);
    if !ok {
      return;
    }
    assert cache.held == held + multiset{x};
    c, ok1 := cache.Bread(y);
    CopyHeld(cache, b, x, c, y, held);
  }

  /** The body of install_trans's loop: log block x to home block y. */
  method CopyBack(cache: Bcache, x: nat, y: nat) returns (ok: bool)
    requires cache.Valid()
    requires x != y && x < |cache.disk| == |cache.view| && y < |cache.disk| && x !in cache.dirty && x !in cache.held
    requires y in cache.dirty || |BusyBlocks(cache.dirty, cache.held)| + 1 < NBUF
    modifies cache, cache.buf
    ensures cache.HoldersKept()
    ensures cache.Valid() && cache.held == old(cache.held)
    ensures ok <==> |BusyBlocks(old(cache.dirty), old(cache.held))| < NBUF
    ensures !ok ==> unchanged(cache)
    ensures ok ==> cache.disk == old(cache.disk)[y := old(cache.view)[x]]
    ensures ok ==> cache.view == old(cache.view)[y := old(cache.view)[x]]
    ensures ok ==> cache.dirty == old(cache.dirty) - {y}
    ensures ok ==> cache.states == old(cache.states) + [cache.disk]
  {
    hide Ring, Coherent, Bcache.Listed, Bcache.Holding;
    cache.ReadsAsOnDisk(x);
    hide Bcache.Valid;
    BusyOne(cache.dirty, cache.held, x);
    ghost var held := cache.held;
    var b, c, ok1;
    b, ok := cache.Bread(x);
    if !ok {
      return;
    }
    assert cache.held == held + multiset{x};
    c, ok1 := cache.Bread(y);
    CopyHeld(cache, c, y, b, x, held);
  }

  lemma {:induction false} SameHomeTwice(a: Area, d: Disk, e: Disk, f: Disk, b: nat)
    requires SameHome(a, d, e) && SameHome(a, e, f) && b < |d| && !a.Has(b)
    ensures SameHome(a, d, f) && d[b] == e[b]
  {}

  lemma {:induction false} SameHomeItself(a: Area, d: Disk)
    ensures SameHome(a, d, d)
  {}

  /** The rest of write_head: the changed buffer is written and released. */
  method PutBlock(cache: Bcache, b: nat, x: nat, data: Block, ghost held: multiset<nat>)
    requires cache.Valid() && cache.Holding(b, x) && x < |cache.disk| == |cache.view|
    requires x !in cache.dirty && x !in held && cache.held == held + multiset{x}
    modifies cache, cache.buf
    ensures cache.HoldersKept()
    ensures cache.Valid() && cache.held == held && cache.dirty == old(cache.dirty)
    ensures cache.disk == old(cache.disk)[x := data] && cache.view == old(cache.view)[x := data]
    ensures cache.states == old(cache.states) + [cache.disk]
  {
    hide Ring, Coherent, Bcache.Listed, Bcache.Holding, Bcache.Valid, BusyBlocks;
    cache.Fill(b, x, data);
    cache.Bwrite(b, x);
    assert cache.dirty == old(cache.dirty);
    cache.Brelse(b, x);
    assert cache.held == held;
  }

  lemma {:induction false} ReadsFromDisk(cache: Bcache)
    requires cache.Valid() && |cache.view| == |cache.disk| && cache.dirty == {} && cache.held == multiset{}
    ensures cache.view == cache.disk
  {
    hide Bcache.Valid;
    forall x | 0 <= x < |cache.disk| ensures cache.view[x] == cache.disk[x] {
      cache.ReadsAsOnDisk(x);
    }
  }

  class Log {
    const cache: Bcache
    const area: Area
    const block: array<nat>
    var n: nat
    var outstanding: nat
    var committing: bool

    ghost predicate Valid()
      reads this, block, cache, cache.buf
    {
      && block.Length == LOGSIZE && n <= LOGSIZE
      && cache.Valid() && |cache.view| == |cache.disk|
      && Formatted(area, cache.disk)
    }

    /** initlog, before it recovers. */
    constructor (cache: Bcache, area: Area)
      requires cache.Valid() && |cache.view| == |cache.disk| && Formatted(area, cache.disk)
      ensures Valid() && this.cache == cache && this.area == area && fresh(block)
      ensures n == 0 && outstanding == 0 && !committing
    {
      this.cache, this.area, n, outstanding, committing := cache, area, 0, 0, false;
      block := new nat[LOGSIZE](_ => 0);
    }

    /** log.lh.block[..log.lh.n] */
    ghost function Blocks(): seq<nat>
      requires block.Length == LOGSIZE && n <= LOGSIZE
      reads this, block
    {
      block[..n]
    }

    /** Only the logged blocks are dirty, and those who hold a buffer, reading outside any operation, hold none of a log
        block: what commit() starts from. */
    ghost predicate Quiet()
      requires Valid()
      reads this, block, cache, cache.buf
    {
      && HomeHeld()
      && cache.dirty == LogProtocol.SetOf(Blocks())
      && Loggable(area, |cache.disk|, Blocks())
    }

    ghost predicate HomeHeld()
      reads cache
    {
      forall x :: x in cache.held ==> !area.Has(x)
    }

    /** Some buffer is neither dirty nor held. */
    ghost predicate Room()
      reads cache
    {
      |BusyBlocks(cache.dirty, cache.held)| < NBUF
    }

    /** Block contents outside the log area read as before. */
    twostate predicate HomeViewKept()
      reads cache
    {
      SameHome(area, old(cache.view), cache.view)
    }

    lemma {:induction false} QuietBlocks(tail: nat)
      requires Valid() && Quiet() && tail < n
      ensures block[tail] in cache.dirty && block[tail] < |cache.disk| && !area.Has(block[tail])
      ensures n < area.size && area.start + tail + 1 !in cache.dirty && area.start + tail + 1 !in cache.held
    {
      hide Ring, Coherent;
      assert block[tail] == Blocks()[tail];
    }

    /** One round of write_log. */
    method CopyToLog(tail: nat) returns (ok: bool)
      requires Valid() && Quiet() && tail < n
      modifies cache, cache.buf
      ensures cache.HoldersKept()
      ensures Valid() && Quiet() && HomeViewKept() && cache.held == old(cache.held) && cache.dirty == old(cache.dirty)
      ensures ok <==> old(Room())
      ensures cache.disk == if ok then old(cache.disk)[area.start + tail + 1 := old(cache.view)[Blocks()[tail]]]
                            else old(cache.disk)
      ensures cache.states == if ok then old(cache.states) + [cache.disk] else old(cache.states)
    {
      hide Ring, Coherent, BusyBlocks, Bcache.Valid, Bcache.Listed, Bcache.Holding, Loggable, LogProtocol.SetOf;
      QuietBlocks(tail);
      ok := CopyOut(cache, area.start + tail + 1, block[tail]);
    }

    /** What `tail` rounds of write_log have done. */
    ghost predicate CopiedTo(tail: nat, d: Disk, v: Disk, states: seq<Disk>, held: multiset<nat>)
      reads this, block, cache, cache.buf
    {
      && Valid() && Quiet() && tail <= n && |cache.disk| == |d| == |v|
      && cache.held == held && SameHome(area, v, cache.view)
      && cache.disk == Copied(area, d, v, Blocks(), tail)
      && cache.states == states + CopiedTrace(area, d, v, Blocks(), tail)
    }

    method CopyNext(tail: nat, ghost d: Disk, ghost v: Disk, ghost states: seq<Disk>, ghost held: multiset<nat>)
      returns (ok: bool)
      requires CopiedTo(tail, d, v, states, held) && tail < n
      modifies cache, cache.buf
      ensures cache.HoldersKept()
      ensures CopiedTo(if ok then tail + 1 else tail, d, v, states, held)
      ensures ok <==> old(Room())
      ensures ok ==> Room()
    {
      hide Ring, Coherent, BusyBlocks, Bcache.Valid, SameHome, LogProtocol.SetOf;
      ghost var u := cache.view;
      CopiedNext(area, d, v, Blocks(), tail);
      hide Copied, CopiedTrace;
      assert block[tail] == Blocks()[tail];
      ok := CopyToLog(tail);
      SameHomeTwice(area, v, u, cache.view, block[tail]);
    }

    /** Copy modified blocks from the cache to the log.  Fails, writing nothing, exactly when there are some and every
        buffer is theirs or held by others. */
    method WriteLog() returns (ok: bool)
      requires Valid() && Quiet()
      modifies cache, cache.buf
      ensures cache.HoldersKept()
      ensures Valid() && Quiet() && HomeViewKept() && cache.held == old(cache.held) && cache.dirty == old(cache.dirty)
      ensures ok <==> n == 0 || old(Room())
      ensures cache.disk == if ok then Copied(area, old(cache.disk), old(cache.view), Blocks(), n) else old(cache.disk)
      ensures cache.states == old(cache.states)
                              + if ok then CopiedTrace(area, old(cache.disk), old(cache.view), Blocks(), n) else []
    {
      hide Ring, Coherent, BusyBlocks, Bcache.Valid, SameHome, LogProtocol.SetOf, Loggable;
      ghost var d, v, states, held := cache.disk, cache.view, cache.states, cache.held;
      NoneCopied(area, d, v, Blocks());
      hide Copied, CopiedTrace;
      var tail := 0;
      ok := true;
      while tail < n
        invariant cache.HoldersKept()
        invariant CopiedTo(tail, d, v, states, held) && (tail > 0 ==> Room()) && (tail == 0 ==> Room() == old(Room()))
        decreases n - tail
      {
        ok := CopyNext(tail, d, v, states, held);
        if !ok {
          return;
        }
        tail := tail + 1;
      }
    }

    /** Nobody holds a buffer of a log block, and there is one to spare. */
    ghost predicate Spare()
      reads cache
    {
      HomeHeld() && Room()
    }

    /** One round of install_trans. */
    method CopyHome(tail: nat)
      requires Valid() && Spare() && Loggable(area, |cache.disk|, Blocks()) && tail < n
      requires Blocks()[tail] in cache.dirty || (cache.dirty == {} && cache.held == multiset{})
      requires area.start + tail + 1 !in cache.dirty
      modifies cache, cache.buf
      ensures cache.HoldersKept()
      ensures Valid() && Spare() && cache.held == old(cache.held)
      ensures cache.view == old(cache.view)[Blocks()[tail] := old(cache.view)[area.start + tail + 1]]
      ensures cache.disk == old(cache.disk)[Blocks()[tail] := old(cache.disk)[area.start + tail + 1]]
      ensures cache.states == old(cache.states) + [cache.disk]
      ensures cache.dirty == old(cache.dirty) - {Blocks()[tail]}
    {
      hide Ring, Coherent, Bcache.Listed, Bcache.Holding, BusyBlocks;
      assert Blocks()[tail] == block[tail];
      cache.ReadsAsOnDisk(area.start + tail + 1);
      hide Bcache.Valid;
      StillRoom(cache.dirty, cache.held, Blocks()[tail]);
      var ok := CopyBack(cache, area.start + tail + 1, block[tail]);
    }

    /** What `tail` rounds of install_trans have done. */
    ghost predicate InstalledTo(tail: nat, pinned: bool, d: Disk, v: Disk, states: seq<Disk>, held: multiset<nat>)
      reads this, block, cache, cache.buf
    {
      && Valid() && Spare() && Loggable(area, |cache.disk|, Blocks()) && tail <= n && |cache.disk| == |d| == |v|
      && cache.held == held && (pinned || held == multiset{})
      && cache.dirty == Waiting(pinned, Blocks(), tail)
      && cache.disk == Installed(area, d, Blocks(), tail) && cache.view == Installed(area, v, Blocks(), tail)
      && cache.states == states + InstalledTrace(area, d, Blocks(), tail)
    }

    method InstallNext(tail: nat, ghost pinned: bool, ghost d: Disk, ghost v: Disk, ghost states: seq<Disk>,
                       ghost held: multiset<nat>)
      requires InstalledTo(tail, pinned, d, v, states, held) && tail < n
      modifies cache, cache.buf
      ensures cache.HoldersKept()
      ensures InstalledTo(tail + 1, pinned, d, v, states, held)
    {
      hide Ring, Coherent, BusyBlocks, Bcache.Valid, LogProtocol.SetOf, Waiting;
      Remaining(area, |d|, pinned, Blocks(), tail);
      InstalledNext(area, d, Blocks(), tail);
      InstalledNext(area, v, Blocks(), tail);
      hide Installed, InstalledTrace, HomeHeld;
      CopyHome(tail);
    }

    /** Copy committed blocks from the log to their home location. */
    method InstallTrans()
      requires Valid() && Spare() && Loggable(area, |cache.disk|, Blocks())
      requires (cache.dirty == {} && cache.held == multiset{}) || cache.dirty == LogProtocol.SetOf(Blocks())
      modifies cache, cache.buf
      ensures cache.HoldersKept()
      ensures Valid() && Spare() && cache.dirty == {} && cache.held == old(cache.held)
      ensures cache.disk == Installed(area, old(cache.disk), Blocks(), n)
      ensures cache.view == Installed(area, old(cache.view), Blocks(), n)
      ensures cache.states == old(cache.states) + InstalledTrace(area, old(cache.disk), Blocks(), n)
    {
      hide Ring, Coherent, BusyBlocks, Bcache.Valid, LogProtocol.SetOf, Waiting;
      ghost var d, v, states, held := cache.disk, cache.view, cache.states, cache.held;
      ghost var pinned := cache.dirty == LogProtocol.SetOf(Blocks());
      WaitingEnds(pinned, Blocks());
      var tail := 0;
      while tail < n
        invariant InstalledTo(tail, pinned, d, v, states, held) && cache.HoldersKept()
        decreases n - tail
      {
        InstallNext(tail, pinned, d, v, states, held);
        tail := tail + 1;
      }
    }

    /** Read the log header from disk into the in-memory log header. */
    method ReadHead()
      requires Valid() && cache.held == multiset{} && cache.dirty == {} && GoodHeader(area, cache.disk)
      modifies this`n, block, cache, cache.buf
      ensures cache.HoldersKept()
      ensures Valid() && cache.held == multiset{} && cache.dirty == {}
      ensures cache.disk == old(cache.disk) && GoodHeader(area, cache.disk)
      ensures Blocks() == HeaderBlocks(cache.disk[area.start])
      ensures cache.states == old(cache.states)
    {
      hide Ring, Coherent, Bcache.Listed, Bcache.Holding;
      cache.ReadsAsOnDisk(area.start);
      hide Bcache.Valid;
      assert BusyBlocks(cache.dirty, cache.held) == {};
      ghost var x := area.start;
      var b, ok := cache.Bread(area.start);
      assert cache.held == multiset{x};
      var lh := cache.Data(b, x);
      n := lh[0];
      ghost var blocks := HeaderBlocks(lh);
      var i := 0;
      while i < n
        invariant 0 <= i <= n && n == lh[0] && cache.disk == old(cache.disk) && cache.states == old(cache.states)
        invariant Valid() && cache.held == multiset{x} && cache.dirty == {} && cache.Holding(b, x)
        invariant cache.view == old(cache.view)
        invariant block[..i] == blocks[..i]
      {
        block[i] := lh[1 + i];
        i := i + 1;
      }
      cache.Brelse(b, x);
    }

    /** The in-memory header, written over the start of the header block. */
    method PackHeader(before: Block) returns (hb: Block)
      requires block.Length == LOGSIZE && n <= LOGSIZE && |before| == BWORDS
      ensures hb == WithHeader(before, Blocks()) && |hb| == BWORDS
    {
      hb := before[0 := n];
      var i := 0;
      while i < n
        invariant 0 <= i <= n && hb == [n] + block[..i] + before[1 + i..]
      {
        hb := hb[1 + i := block[i]];
        i := i + 1;
      }
    }

    /** Write the in-memory log header to disk: the point at which a transaction commits. */
    method WriteHead()
      requires Valid() && Spare() && area.start !in cache.dirty
      modifies cache, cache.buf
      ensures cache.HoldersKept()
      ensures Valid() && Spare() && cache.held == old(cache.held)
      ensures cache.disk == old(cache.disk)[area.start := WithHeader(old(cache.disk)[area.start], Blocks())]
      ensures cache.view == old(cache.view)[area.start := WithHeader(old(cache.disk)[area.start], Blocks())]
      ensures cache.states == old(cache.states) + [cache.disk]
      ensures cache.dirty == old(cache.dirty)
    {
      hide Ring, Coherent, Bcache.Listed, Bcache.Holding, BusyBlocks, WithHeader;
      cache.ReadsAsOnDisk(area.start);
      hide Bcache.Valid;
      var b, ok := cache.Bread(area.start);
      var hb := cache.Data(b, area.start);
      hb := PackHeader(hb);
      PutBlock(cache, b, area.start, hb, old(cache.held));
    }

    /** commit().  It writes the disk exactly as CommitTrace says; it stops with the panic of bget, having written
        nothing, exactly when there are logged blocks and every buffer is theirs or held by others.  Who reads a block
        outside the log area sees the same before and after. */
    method Commit() returns (ok: bool)
      requires Valid() && Quiet() && cache.disk[area.start][0] == 0
      modifies this`n, cache, cache.buf
      ensures cache.HoldersKept()
      ensures Valid() && HomeViewKept() && cache.held == old(cache.held)
      ensures ok <==> old(n) == 0 || old(Room())
      ensures ok ==> n == 0 && Quiet() && cache.disk[area.start][0] == 0
      ensures ok && old(n) > 0 ==>
                && cache.states == old(cache.states)
                                   + CommitTrace(area, old(cache.disk), old(cache.view), old(Blocks()))
                && cache.disk == Committing(area, old(cache.disk), old(cache.view), old(Blocks()), 2 * old(n) + 2)
      ensures !ok || old(n) == 0 ==> cache.states == old(cache.states) && cache.disk == old(cache.disk)
    {
      assert LogProtocol.SetOf([]) == {};
      hide Ring, Coherent, Bcache.Valid, BusyBlocks, CommitTrace, Committing, SameHome, LogProtocol.SetOf, Loggable;
      ok := true;
      if n > 0 {
        NothingLogged(area, |cache.disk|);
        ok := CommitLogged();
      } else {
        SameHomeItself(area, cache.view);
      }
    }

    /** commit() when something is logged. */
    method CommitLogged() returns (ok: bool)
      requires Valid() && Quiet() && cache.disk[area.start][0] == 0 && n > 0
      modifies this`n, cache, cache.buf
      ensures cache.HoldersKept()
      ensures Valid() && HomeViewKept() && cache.held == old(cache.held) && HomeHeld()
      ensures ok <==> old(Room())
      ensures ok ==> n == 0 && cache.dirty == {} && cache.disk[area.start][0] == 0
      ensures ok ==> cache.states == old(cache.states)
                       + CommitTrace(area, old(cache.disk), old(cache.view), old(Blocks()))
      ensures ok ==> cache.disk == Committing(area, old(cache.disk), old(cache.view), old(Blocks()), 2 * old(n) + 2)
      ensures !ok ==> cache.disk == old(cache.disk) && cache.states == old(cache.states)
    {
      hide Ring, Coherent, Bcache.Valid, BusyBlocks, CommitTrace, Committing, Copied, CopiedTrace, Installed,
           InstalledTrace, LogProtocol.SetOf, WithHeader, Loggable, SameHome;
      ghost var d, v, blocks, states := cache.disk, cache.view, Blocks(), cache.states;
      ok := CommitPoint();
      if !ok {
        return;
      }
      ghost var w := cache.view;
      Apply();
      InstalledView(area, v, w, blocks, cache.view[area.start]);
      CommitEnds(area, d, v, blocks, states);
    }

    /** What commit() does from its commit point on, and recovery with the log it has read: install, and clear the
        header. */
    method Apply()
      requires Valid() && Spare() && Loggable(area, |cache.disk|, Blocks())
      requires (cache.dirty == {} && cache.held == multiset{}) || cache.dirty == LogProtocol.SetOf(Blocks())
      modifies this`n, cache, cache.buf
      ensures cache.HoldersKept()
      ensures Valid() && HomeHeld() && cache.held == old(cache.held) && cache.dirty == {} && n == 0
      ensures cache.disk == Installed(area, old(cache.disk), old(Blocks()), old(n))
                              [area.start := WithHeader(old(cache.disk)[area.start], [])]
      ensures cache.view == Installed(area, old(cache.view), old(Blocks()), old(n))
                              [area.start := WithHeader(old(cache.disk)[area.start], [])]
      ensures cache.states == old(cache.states) + InstalledTrace(area, old(cache.disk), old(Blocks()), old(n))
                              + [cache.disk]
    {
      hide Ring, Coherent, Bcache.Valid, BusyBlocks, Installed, InstalledTrace, LogProtocol.SetOf, WithHeader;
      ghost var d, blocks := cache.disk, Blocks();
      InstallTrans();
      InstalledLog(area, d, blocks, |blocks|);
      n := 0;
      assert Blocks() == [];
      WriteHead();
    }

    /** write_log() and the first write_head() of commit(). */
    method CommitPoint() returns (ok: bool)
      requires Valid() && Quiet() && n > 0
      modifies cache, cache.buf
      ensures cache.HoldersKept()
      ensures Valid() && Quiet() && HomeViewKept() && cache.held == old(cache.held)
      ensures ok <==> old(Room())
      ensures ok ==> forall i :: 0 <= i < n ==> cache.view[area.start + 1 + i] == old(cache.view)[Blocks()[i]]
      ensures !ok ==> cache.disk == old(cache.disk) && cache.states == old(cache.states)
      ensures ok ==> cache.disk == Copied(area, old(cache.disk), old(cache.view), Blocks(), n)
                                     [area.start := WithHeader(old(cache.disk)[area.start], Blocks())]
      ensures ok ==> cache.states == old(cache.states)
                       + CopiedTrace(area, old(cache.disk), old(cache.view), Blocks(), n) + [cache.disk]
      ensures ok ==> Spare()
    {
      hide Ring, Coherent, Bcache.Valid, Copied, CopiedTrace, LogProtocol.SetOf, SameHome, BusyBlocks;
      ghost var d, v := cache.disk, cache.view;
      CopiedAt(area, d, cache.view, Blocks(), n, area.start);
      ok := WriteLog();
      if !ok {
        return;
      }
      StartNotLogged(area, |d|, Blocks());
      ghost var u := cache.view;
      forall i | 0 <= i < n ensures u[area.start + 1 + i] == v[Blocks()[i]] {
        QuietBlocks(i);
        cache.ReadsAsOnDisk(area.start + 1 + i);
        CopiedAt(area, d, v, Blocks(), n, area.start + 1 + i);
      }
      WriteHead();
      HeaderNotHome(area, v, u, cache.view[area.start]);
    }

    /** recover_from_log(), with a cold cache after a restart.  It writes the disk exactly as RecoverTrace says. */
    method RecoverFromLog()
      requires Valid() && cache.held == multiset{} && cache.dirty == {} && GoodHeader(area, cache.disk)
      modifies this`n, block, cache, cache.buf
      ensures cache.HoldersKept()
      ensures Valid() && Quiet() && n == 0 && cache.disk[area.start][0] == 0
      ensures GoodHeader(area, old(cache.disk)) && cache.disk == Recovered(area, old(cache.disk))
      ensures cache.view == cache.disk && cache.held == multiset{}
      ensures cache.states == old(cache.states) + RecoverTrace(area, old(cache.disk))
    {
      assert LogProtocol.SetOf([]) == {};
      hide Ring, Coherent, Bcache.Valid, Installed, InstalledTrace, LogProtocol.SetOf, WithHeader, Bcache.HoldersKept;
      ghost var d, states := cache.disk, cache.states;
      NoneBusy(cache.dirty, cache.held);
      ReadHead();
      ApplyEnds(area, d, states);
      Apply();
      ReadsFromDisk(cache);
    }

    /** log_write: the buffer's block joins the log unless it is there already, and the buffer is pinned; false stands
        for the two panics, which LogProtocol.ReservationsHold shows to be out of reach of reservations. */
    method LogWrite(b: nat, x: nat) returns (ok: bool)
      requires Valid() && cache.Holding(b, x) && x < |cache.disk|
      modifies this`n, block, cache, cache.buf
      ensures Valid()
      ensures ok <==> old(n) < LOGSIZE && old(n) < area.size - 1 && outstanding >= 1
      ensures Blocks() == if ok then LogProtocol.Absorb(old(Blocks()), x) else old(Blocks())
      ensures cache.dirty == if ok then old(cache.dirty) + {x} else old(cache.dirty)
      ensures cache.disk == old(cache.disk) && cache.view == old(cache.view) && cache.held == old(cache.held)
      ensures cache.states == old(cache.states)
      ensures forall c: nat, y: nat :: old(cache.Holding(c, y)) ==> cache.Holding(c, y)
    {
      hide Ring, Coherent, Bcache.Valid, Bcache.Holding;
      if n >= LOGSIZE || n >= area.size - 1 {
        return false;  // panic: too big a transaction
      }
      if outstanding < 1 {
        return false;  // panic: log_write outside of trans
      }
      var i := 0;
      while i < n
        invariant 0 <= i <= n && x !in Blocks()[..i]
      {
        if block[i] == x {  // log absorption
          break;
        }
        i := i + 1;
      }
      assert i < n ==> Blocks()[i] == x;
      block[i] := x;
      if i == n {
        n := n + 1;
      }
      cache.Pin(b, x);
      ok := true;
    }

    /** One turn of begin_op's loop: false when the caller has to sleep and try again. */
    method BeginOp() returns (begun: bool)
      requires Valid()
      modifies this`outstanding
      ensures begun <==> !committing && LogProtocol.AlwaysFits(Blocks(), old(outstanding) + 1)
      ensures outstanding == if begun then old(outstanding) + 1 else old(outstanding)
    {
      LogProtocol.RoomExactly(Blocks(), outstanding);
      if committing {
        begun := false;
      } else if n + (outstanding + 1) * MAXOPBLOCKS > LOGSIZE {
        begun := false;
      } else {
        outstanding := outstanding + 1;
        begun := true;
      }
    }

    /** end_op: the last operation commits. */
    method EndOp() returns (committed: bool, ok: bool)
      requires Valid() && outstanding >= 1 && !committing
      requires outstanding == 1 ==> Quiet() && cache.disk[area.start][0] == 0
      modifies this`n, this`outstanding, this`committing, cache, cache.buf
      ensures cache.HoldersKept()
      ensures Valid() && outstanding == old(outstanding) - 1
      ensures committed <==> outstanding == 0
      ensures !committed ==> ok && n == old(n) && unchanged(cache)
      ensures ok <==> !committed || old(n) == 0 || old(Room())
      ensures HomeViewKept() && cache.held == old(cache.held)
      ensures ok ==> !committing
      ensures committed && ok ==> n == 0 && Quiet() && cache.disk[area.start][0] == 0
      ensures cache.disk ==
                if committed && ok && old(n) > 0
                then Committing(area, old(cache.disk), old(cache.view), old(Blocks()), 2 * old(n) + 2)
                else old(cache.disk)
      ensures cache.states == old(cache.states) +
                if committed && ok && old(n) > 0
                then CommitTrace(area, old(cache.disk), old(cache.view), old(Blocks())) else []
    {
      hide Ring, Coherent, Bcache.Valid, CommitTrace, Committing, LogProtocol.SetOf;
      committed, ok := false, true;
      outstanding := outstanding - 1;
      if outstanding == 0 {
        committed := true;
        committing := true;
      }
      if committed {
        ok := Commit();
        if ok {
          committing := false;
        }
      }
    }
  }

  /** Where the log copies are what a reader sees of the logged blocks, installing them changes nothing for him. */
  lemma {:induction false} InstalledView(a: Area, v: Disk, w: Disk, blocks: seq<nat>, h: Block)
    requires Loggable(a, |v|, blocks) && 0 < a.size && a.start + a.size <= |v| && SameHome(a, v, w)
    requires forall i :: 0 <= i < |blocks| ==> w[a.start + 1 + i] == v[blocks[i]]
    ensures SameHome(a, v, Installed(a, w, blocks, |blocks|)[a.start := h])
  {
    var e := Installed(a, w, blocks, |blocks|);
    forall b | 0 <= b < |v| && !a.Has(b) ensures e[b] == v[b] {
      InstalledAt(a, w, blocks, |blocks|, b);
    }
  }

  lemma {:induction false} NoneCopied(a: Area, d: Disk, v: Disk, blocks: seq<nat>)
    requires Loggable(a, |d|, blocks) && a.start + a.size <= |d| == |v|
    ensures Copied(a, d, v, blocks, 0) == d && CopiedTrace(a, d, v, blocks, 0) == []
    ensures SameHome(a, v, v)
  {}

  lemma {:induction false} CopiedNext(a: Area, d: Disk, v: Disk, blocks: seq<nat>, k: nat)
    requires Loggable(a, |d|, blocks) && a.start + a.size <= |d| == |v| && k < |blocks|
    ensures Copied(a, d, v, blocks, k + 1) == Copied(a, d, v, blocks, k)[a.start + k + 1 := v[blocks[k]]]
    ensures CopiedTrace(a, d, v, blocks, k + 1) == CopiedTrace(a, d, v, blocks, k) + [Copied(a, d, v, blocks, k + 1)]
  {}

  lemma {:induction false} InstalledNext(a: Area, d: Disk, blocks: seq<nat>, k: nat)
    requires Loggable(a, |d|, blocks) && a.start + a.size <= |d| && k < |blocks|
    ensures var e := Installed(a, d, blocks, k); Installed(a, d, blocks, k + 1) == e[blocks[k] := e[a.start + k + 1]]
    ensures InstalledTrace(a, d, blocks, k + 1) == InstalledTrace(a, d, blocks, k) + [Installed(a, d, blocks, k + 1)]
  {}

  lemma {:induction false} HeaderNotHome(a: Area, v: Disk, u: Disk, h: Block)
    requires SameHome(a, v, u) && 0 < a.size && a.start < |u|
    ensures SameHome(a, v, u[a.start := h])
  {}

  lemma {:induction false} StartNotLogged(a: Area, size: nat, blocks: seq<nat>)
    requires Loggable(a, size, blocks)
    ensures a.start !in LogProtocol.SetOf(blocks)
  {}

  lemma {:induction false} NoneBusy(dirty: set<nat>, held: multiset<nat>)
    requires dirty == {} && held == multiset{}
    ensures |BusyBlocks(dirty, held)| == 0
  {
    assert BusyBlocks(dirty, held) == {};
  }

  /** The last state of a recovery, and its cleared header. */
  lemma {:induction false} ApplyEnds(a: Area, d: Disk, s: seq<Disk>)
    requires Formatted(a, d) && GoodHeader(a, d)
    ensures var blocks := HeaderBlocks(d[a.start]);
            var last := Installed(a, d, blocks, |blocks|)[a.start := WithHeader(d[a.start], [])];
            && Loggable(a, |d|, blocks) && last == Recovered(a, d) && last[a.start][0] == 0
            && s + InstalledTrace(a, d, blocks, |blocks|) + [last] == s + RecoverTrace(a, d)
  {}

  lemma {:induction false} NothingLogged(a: Area, size: nat)
    requires 0 < a.size
    ensures Loggable(a, size, [])
  {}

  lemma {:induction false} Chain(s: seq<Disk>, x: seq<Disk>, c: Disk, y: seq<Disk>, e: Disk)
    ensures s + x + [c] + y + [e] == s + (x + [c] + y + [e])
  {}

  /** The last state of a commit, and its cleared header. */
  lemma {:induction false} CommitEnds(a: Area, d: Disk, view: Disk, blocks: seq<nat>, s: seq<Disk>)
    requires Formatted(a, d) && Loggable(a, |d|, blocks) && |view| == |d| && d[a.start][0] == 0
    ensures var committed := Copied(a, d, view, blocks, |blocks|)[a.start := WithHeader(d[a.start], blocks)];
            var cleared := WithHeader(WithHeader(d[a.start], blocks), []);
            var last := Installed(a, committed, blocks, |blocks|)[a.start := cleared];
            && last == Committing(a, d, view, blocks, 2 * |blocks| + 2)
            && last[a.start][0] == 0
            && s + CopiedTrace(a, d, view, blocks, |blocks|) + [committed]
               + InstalledTrace(a, committed, blocks, |blocks|)
                 + [last]
               == s + CommitTrace(a, d, view, blocks)
  {
    var committed := Copied(a, d, view, blocks, |blocks|)[a.start := WithHeader(d[a.start], blocks)];
    var cleared := WithHeader(WithHeader(d[a.start], blocks), []);
    Chain(s, CopiedTrace(a, d, view, blocks, |blocks|), committed, InstalledTrace(a, committed, blocks, |blocks|),
          Installed(a, committed, blocks, |blocks|)[a.start := cleared]);
  }

  // ----- the panic of commit() -----

  /** The blocks that are held but not logged. */
  ghost function OnlyHeld(blocks: seq<nat>, held: multiset<nat>): set<nat> {
    set x | x in held && x !in blocks
  }

  /** How many buffers are busy when commit() starts: the logged blocks', and those of blocks only held. */
  lemma {:induction false} BusyCount(blocks: seq<nat>, held: multiset<nat>)
    requires Distinct(blocks)
    ensures |BusyBlocks(LogProtocol.SetOf(blocks), held)| == |blocks| + |OnlyHeld(blocks, held)|
  {
    DistinctSize(blocks);
    var logged, more := LogProtocol.SetOf(blocks), OnlyHeld(blocks, held);
    assert BusyBlocks(logged, held) == logged + more && logged !! more;
  }

  lemma {:induction false} HeldRest(all: seq<nat>, k: nat)
    requires Distinct(all) && k <= |all|
    ensures |BusyBlocks(LogProtocol.SetOf(all[..k]), multiset(all[k..]))| == |all|
  {
    DistinctSize(all);
    assert all == all[..k] + all[k..];
    assert BusyBlocks(LogProtocol.SetOf(all[..k]), multiset(all[k..])) == LogProtocol.SetOf(all);
  }

  lemma {:induction false} HomesApart(a: Area, k: nat, size: nat)
    requires a.size + k <= size
    ensures Distinct(LogProtocol.Homes(a, k))
    ensures forall x :: x in LogProtocol.Homes(a, k) ==> x < size && !a.Has(x)
  {}

  /** Operations that keep to their reservations do come to a commit that has no buffer left: with NBUF blocks logged,
      or with fewer, and as many others held by readers outside any operation as are missing. */
  lemma {:induction false} CommitCanPanic(a: Area, s: LogProtocol.Sys, readers: nat)
    returns (events: seq<LogProtocol.Event>, t: LogProtocol.Sys, held: multiset<nat>)
    requires LogProtocol.Initial(a, s) && readers < NBUF && a.size + NBUF <= |s.disk|
    ensures LogProtocol.Reachable(a, s, events, t) && t.phase.Commit? && t.phase.k == 0
    ensures |held| == readers && (forall x :: x in held ==> x < |t.disk| && !a.Has(x))
    ensures |t.blocks| == NBUF - readers && |BusyBlocks(LogProtocol.SetOf(t.blocks), held)| == NBUF
  {
    var k := NBUF - readers;
    events, t := LogProtocol.CommitsReachable(a, s, k);
    held := Readers(a, k, NBUF, |s.disk|);
  }

  lemma {:induction false} Readers(a: Area, k: nat, n: nat, size: nat) returns (held: multiset<nat>)
    requires k <= n && a.size + n <= size
    ensures |held| == n - k && (forall x :: x in held ==> x < size && !a.Has(x))
    ensures |BusyBlocks(LogProtocol.SetOf(LogProtocol.Homes(a, k)), held)| == n && |LogProtocol.Homes(a, k)| == k
  {
    var all := LogProtocol.Homes(a, n);
    held := multiset(all[k..]);
    assert all[..k] == LogProtocol.Homes(a, k);
    HomesApart(a, n, size);
    HeldRest(all, k);
    assert forall x :: x in held ==> x in all[k..];
  }
}
