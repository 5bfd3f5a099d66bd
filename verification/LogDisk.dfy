/** What the write-ahead log (log.c) does to the disk, write by write, and what recovery makes of it. */
module LogDisk {

  const MAXOPBLOCKS := 10
  const LOGSIZE := 3 * MAXOPBLOCKS
  const BWORDS := 128  // BSIZE / sizeof(int)

  /** A block as the int array that the header code casts it to. */
  type Block = seq<int>
  type Disk = seq<Block>

  /** The log area: the header at `start`, then size - 1 log blocks. */
  datatype Area = Area(start: nat, size: nat) {
    predicate Has(b: int) { start <= b < start + size }
  }

  ghost predicate Formatted(a: Area, d: Disk) {
    0 < a.size && a.start + a.size <= |d| && |d[a.start]| == BWORDS
  }

  ghost predicate Distinct(blocks: seq<nat>) {
    forall i, j :: 0 <= i < j < |blocks| ==> blocks[i] != blocks[j]
  }

  /** Blocks of a disk of `size` blocks that may be logged together. */
  ghost predicate Loggable(a: Area, size: nat, blocks: seq<nat>) {
    && |blocks| <= LOGSIZE && |blocks| < a.size
    && Distinct(blocks)
    && forall i :: 0 <= i < |blocks| ==> blocks[i] < size && !a.Has(blocks[i])
  }

  /** The same contents outside the log area. */
  ghost predicate SameHome(a: Area, d: Disk, e: Disk) {
    |d| == |e| && forall b :: 0 <= b < |d| && !a.Has(b) ==> d[b] == e[b]
  }

  // ----- the header block -----

  /** write_head overwrites n and the first n entries; the rest of the block stays. */
  function WithHeader(h: Block, blocks: seq<nat>): (r: Block)
    requires |h| == BWORDS && |blocks| <= LOGSIZE
  {
    [|blocks|] + blocks + h[1 + |blocks|..]
  }

  ghost predicate Readable(h: Block) {
    |h| == BWORDS && 0 <= h[0] <= LOGSIZE && forall i :: 1 <= i <= h[0] ==> 0 <= h[i]
  }

  /** A header that read_head can make sense of. */
  ghost predicate GoodHeader(a: Area, d: Disk)
    requires Formatted(a, d)
  {
    var h := d[a.start];
    && Readable(h)
    && Loggable(a, |d|, HeaderBlocks(h))
  }

  function HeaderBlocks(h: Block): (blocks: seq<nat>)
    requires Readable(h)
    ensures |blocks| == h[0]
  {
    seq(h[0], i requires 0 <= i < h[0] => h[1 + i])
  }

  lemma {:induction false} HeaderRoundTrip(h: Block, blocks: seq<nat>)
    requires |h| == BWORDS && |blocks| <= LOGSIZE
    ensures var r := WithHeader(h, blocks);
            Readable(r) && HeaderBlocks(r) == blocks
  {
    var r := WithHeader(h, blocks);
    assert forall i :: 0 <= i < |blocks| ==> r[1 + i] == blocks[i];
  }

  // ----- one write after the other -----

  /** The first k log blocks hold the new contents. */
  function Copied(a: Area, d: Disk, view: Disk, blocks: seq<nat>, k: nat): (r: Disk)
    requires k <= |blocks| < a.size && a.start + a.size <= |d| == |view|
    requires forall i :: 0 <= i < |blocks| ==> blocks[i] < |d|
    ensures |r| == |d|
  {
    if k == 0 then d else Copied(a, d, view, blocks, k - 1)[a.start + k := view[blocks[k - 1]]]
  }

  /** The first k logged blocks have been copied home. */
  function Installed(a: Area, d: Disk, blocks: seq<nat>, k: nat): (r: Disk)
    requires k <= |blocks| < a.size && a.start + a.size <= |d|
    requires forall i :: 0 <= i < |blocks| ==> blocks[i] < |d|
    ensures |r| == |d|
  {
    if k == 0 then d
    else var e := Installed(a, d, blocks, k - 1); e[blocks[k - 1] := e[a.start + k]]
  }

  /** The disk after k writes of commit(): n log blocks, the header, n home blocks, the cleared header. */
  function Committing(a: Area, d: Disk, view: Disk, blocks: seq<nat>, k: nat): (r: Disk)
    requires Formatted(a, d) && Loggable(a, |d|, blocks) && |view| == |d|
    requires k <= 2 * |blocks| + 2
  {
    var n := |blocks|;
    if k <= n then Copied(a, d, view, blocks, k)
    else
      var committed := Copied(a, d, view, blocks, n)[a.start := WithHeader(d[a.start], blocks)];
      if k <= 2 * n + 1 then Installed(a, committed, blocks, k - n - 1)
      else Installed(a, committed, blocks, n)[a.start := WithHeader(WithHeader(d[a.start], blocks), [])]
  }

  /** The disk after k writes of recover_from_log(). */
  function Recovering(a: Area, d: Disk, k: nat): (r: Disk)
    requires Formatted(a, d) && GoodHeader(a, d)
    requires k <= d[a.start][0] + 1
  {
    var blocks := HeaderBlocks(d[a.start]);
    if k <= |blocks| then Installed(a, d, blocks, k)
    else Installed(a, d, blocks, |blocks|)[a.start := WithHeader(d[a.start], [])]
  }

  /** The disk after a recovery that runs to its end. */
  function Recovered(a: Area, d: Disk): Disk
    requires Formatted(a, d) && GoodHeader(a, d)
  {
    Recovering(a, d, d[a.start][0] + 1)
  }

  /** The home blocks of `blocks` as `view` has them, everything else as on disk. */
  function Overlaid(d: Disk, view: Disk, blocks: seq<nat>): (r: Disk)
    requires |view| == |d|
    ensures |r| == |d|
  {
    seq(|d|, b requires 0 <= b < |d| => if b in blocks then view[b] else d[b])
  }

  // ----- the disk after each write, in order -----

  function CopiedTrace(a: Area, d: Disk, view: Disk, blocks: seq<nat>, k: nat): (r: seq<Disk>)
    requires k <= |blocks| < a.size && a.start + a.size <= |d| == |view|
    requires forall i :: 0 <= i < |blocks| ==> blocks[i] < |d|
    ensures |r| == k
  {
    if k == 0 then [] else CopiedTrace(a, d, view, blocks, k - 1) + [Copied(a, d, view, blocks, k)]
  }

  function InstalledTrace(a: Area, d: Disk, blocks: seq<nat>, k: nat): (r: seq<Disk>)
    requires k <= |blocks| < a.size && a.start + a.size <= |d|
    requires forall i :: 0 <= i < |blocks| ==> blocks[i] < |d|
    ensures |r| == k
  {
    if k == 0 then [] else InstalledTrace(a, d, blocks, k - 1) + [Installed(a, d, blocks, k)]
  }

  lemma {:induction false} CopiedTraceAt(a: Area, d: Disk, view: Disk, blocks: seq<nat>, k: nat, j: nat)
    requires k <= |blocks| < a.size && a.start + a.size <= |d| == |view|
    requires forall i :: 0 <= i < |blocks| ==> blocks[i] < |d|
    requires j < k
    ensures CopiedTrace(a, d, view, blocks, k)[j] == Copied(a, d, view, blocks, j + 1)
  {
    if j < k - 1 {
      CopiedTraceAt(a, d, view, blocks, k - 1, j);
    }
  }

  lemma {:induction false} InstalledTraceAt(a: Area, d: Disk, blocks: seq<nat>, k: nat, j: nat)
    requires k <= |blocks| < a.size && a.start + a.size <= |d|
    requires forall i :: 0 <= i < |blocks| ==> blocks[i] < |d|
    requires j < k
    ensures InstalledTrace(a, d, blocks, k)[j] == Installed(a, d, blocks, j + 1)
  {
    if j < k - 1 {
      InstalledTraceAt(a, d, blocks, k - 1, j);
    }
  }

  /** Every disk state that commit() goes through. */
  function CommitTrace(a: Area, d: Disk, view: Disk, blocks: seq<nat>): (r: seq<Disk>)
    requires Formatted(a, d) && Loggable(a, |d|, blocks) && |view| == |d|
  {
    var n := |blocks|;
    var committed := Copied(a, d, view, blocks, n)[a.start := WithHeader(d[a.start], blocks)];
    CopiedTrace(a, d, view, blocks, n) + [committed] + InstalledTrace(a, committed, blocks, n)
    + [Installed(a, committed, blocks, n)[a.start := WithHeader(WithHeader(d[a.start], blocks), [])]]
  }

  /** Every disk state that recover_from_log() goes through. */
  function RecoverTrace(a: Area, d: Disk): (r: seq<Disk>)
    requires Formatted(a, d) && GoodHeader(a, d)
  {
    var blocks := HeaderBlocks(d[a.start]);
    InstalledTrace(a, d, blocks, |blocks|)
    + [Installed(a, d, blocks, |blocks|)[a.start := WithHeader(d[a.start], [])]]
  }

  lemma {:induction false} CommitTraceAt(a: Area, d: Disk, view: Disk, blocks: seq<nat>, j: nat)
    requires Formatted(a, d) && Loggable(a, |d|, blocks) && |view| == |d|
    requires j < 2 * |blocks| + 2
    ensures |CommitTrace(a, d, view, blocks)| == 2 * |blocks| + 2
    ensures CommitTrace(a, d, view, blocks)[j] == Committing(a, d, view, blocks, j + 1)
  {
    hide Copied, Installed, CopiedTrace, InstalledTrace;
    var n := |blocks|;
    if j < n {
      CopiedTraceAt(a, d, view, blocks, n, j);
    } else if n < j <= 2 * n {
      var committed := Copied(a, d, view, blocks, n)[a.start := WithHeader(d[a.start], blocks)];
      InstalledTraceAt(a, committed, blocks, n, j - n - 1);
    } else if j == n {
      var committed := Copied(a, d, view, blocks, n)[a.start := WithHeader(d[a.start], blocks)];
      InstalledZero(a, committed, blocks);
    }
  }

  lemma {:induction false} InstalledZero(a: Area, d: Disk, blocks: seq<nat>)
    requires |blocks| < a.size && a.start + a.size <= |d|
    requires forall i :: 0 <= i < |blocks| ==> blocks[i] < |d|
    ensures Installed(a, d, blocks, 0) == d
  {}

  lemma {:induction false} RecoverTraceAt(a: Area, d: Disk, j: nat)
    requires Formatted(a, d) && GoodHeader(a, d)
    requires j < d[a.start][0] + 1
    ensures |RecoverTrace(a, d)| == d[a.start][0] + 1
    ensures RecoverTrace(a, d)[j] == Recovering(a, d, j + 1)
  {
    hide Installed, InstalledTrace;
    var blocks := HeaderBlocks(d[a.start]);
    if j < |blocks| {
      InstalledTraceAt(a, d, blocks, |blocks|, j);
    }
  }

  // ----- contents, block by block -----

  lemma {:induction false} CopiedAt(a: Area, d: Disk, view: Disk, blocks: seq<nat>, k: nat, b: nat)
    requires k <= |blocks| < a.size && a.start + a.size <= |d| == |view|
    requires forall i :: 0 <= i < |blocks| ==> blocks[i] < |d|
    requires b < |d|
    ensures Copied(a, d, view, blocks, k)[b]
         == if a.start < b <= a.start + k then view[blocks[b - a.start - 1]] else d[b]
  {
    if k > 0 {
      CopiedAt(a, d, view, blocks, k - 1, b);
    }
  }

  /** Where a block is listed. */
  function IndexIn(blocks: seq<nat>, b: nat): (i: nat)
    ensures i <= |blocks| && (i < |blocks| ==> blocks[i] == b) && (i == |blocks| <==> b !in blocks)
  {
    if blocks == [] then 0 else if blocks[0] == b then 0 else 1 + IndexIn(blocks[1..], b)
  }

  lemma {:induction false} InstalledAt(a: Area, d: Disk, blocks: seq<nat>, k: nat, b: nat)
    requires Loggable(a, |d|, blocks) && a.start + a.size <= |d|
    requires k <= |blocks| && b < |d|
    ensures Installed(a, d, blocks, k)[b]
         == if IndexIn(blocks, b) < k then d[a.start + 1 + IndexIn(blocks, b)] else d[b]
  {
    hide IndexIn;
    if k > 0 {
      InstalledAt(a, d, blocks, k - 1, b);
      InstalledAt(a, d, blocks, k - 1, a.start + k);
      IndexOf(blocks, k - 1);
      assert IndexIn(blocks, b) == k - 1 ==> b == blocks[k - 1];
      assert a.start + k !in blocks;
    }
  }

  lemma {:induction false} IndexOf(blocks: seq<nat>, i: nat)
    requires Distinct(blocks) && i < |blocks|
    ensures IndexIn(blocks, blocks[i]) == i
  {
    hide IndexIn;
  }

  /** Installing leaves the log area alone. */
  lemma {:induction false} InstalledLog(a: Area, d: Disk, blocks: seq<nat>, k: nat)
    requires Loggable(a, |d|, blocks) && a.start + a.size <= |d|
    requires k <= |blocks|
    ensures forall b :: 0 <= b < |d| && a.Has(b) ==> Installed(a, d, blocks, k)[b] == d[b]
  {
    forall b | 0 <= b < |d| && a.Has(b) ensures Installed(a, d, blocks, k)[b] == d[b] {
      InstalledAt(a, d, blocks, k, b);
    }
  }

  /** What recovery does, said without its order of writes. */
  lemma {:induction false} RecoveredHome(a: Area, d: Disk, b: nat)
    requires Formatted(a, d) && GoodHeader(a, d)
    requires b < |d| && !a.Has(b)
    ensures |Recovered(a, d)| == |d|
    ensures var blocks := HeaderBlocks(d[a.start]);
            Recovered(a, d)[b] == if b in blocks then d[a.start + 1 + IndexIn(blocks, b)] else d[b]
  {
    var blocks := HeaderBlocks(d[a.start]);
    InstalledAt(a, d, blocks, |blocks|, b);
  }

  // ----- crash atomicity -----

  /** Header and length of every disk that a crash during commit can leave. */
  lemma {:induction false} CommittingHeader(a: Area, d: Disk, view: Disk, blocks: seq<nat>, k: nat)
    requires Formatted(a, d) && Loggable(a, |d|, blocks) && |view| == |d| && d[a.start][0] == 0
    requires k <= 2 * |blocks| + 2
    ensures var c := Committing(a, d, view, blocks, k);
            && |c| == |d| && Formatted(a, c) && GoodHeader(a, c)
            && HeaderBlocks(c[a.start]) == if |blocks| < k <= 2 * |blocks| + 1 then blocks else []
  {
    var n := |blocks|;
    HeaderRoundTrip(d[a.start], blocks);
    if k <= n {
      CopiedAt(a, d, view, blocks, k, a.start);
    } else {
      var committed := Copied(a, d, view, blocks, n)[a.start := WithHeader(d[a.start], blocks)];
      InstalledLog(a, committed, blocks, n);
      if k <= 2 * n + 1 {
        InstalledLog(a, committed, blocks, k - n - 1);
      } else {
        HeaderRoundTrip(WithHeader(d[a.start], blocks), []);
      }
    }
  }

  /** A crash after any write of commit() is recovered to all of the old contents before the header is
      written and to all of the new contents from then on. */
  lemma {:induction false} CommitIsAtomic(a: Area, d: Disk, view: Disk, blocks: seq<nat>, k: nat)
    requires Formatted(a, d) && Loggable(a, |d|, blocks) && |view| == |d| && d[a.start][0] == 0
    requires k <= 2 * |blocks| + 2
    ensures var c := Committing(a, d, view, blocks, k);
            && Formatted(a, c) && GoodHeader(a, c)
            && SameHome(a, Recovered(a, c), if k <= |blocks| then d else Overlaid(d, view, blocks))
  {
    hide Committing, Recovered, Overlaid, Loggable;
    CommittingHeader(a, d, view, blocks, k);
    var c, e := Committing(a, d, view, blocks, k), if k <= |blocks| then d else Overlaid(d, view, blocks);
    forall b | 0 <= b < |d| && !a.Has(b)
      ensures |Recovered(a, c)| == |d| && Recovered(a, c)[b] == e[b]
    {
      CommitRecoveredAt(a, d, view, blocks, k, b);
    }
    RecoveredLength(a, c);
  }

  lemma {:induction false} RecoveredLength(a: Area, d: Disk)
    requires Formatted(a, d) && GoodHeader(a, d)
    ensures |Recovered(a, d)| == |d|
  {}

  lemma {:induction false} CommitRecoveredAt(a: Area, d: Disk, view: Disk, blocks: seq<nat>, k: nat, b: nat)
    requires Formatted(a, d) && Loggable(a, |d|, blocks) && |view| == |d|
    requires k <= 2 * |blocks| + 2
    requires var c := Committing(a, d, view, blocks, k);
             && Formatted(a, c) && GoodHeader(a, c) && |c| == |d|
             && HeaderBlocks(c[a.start]) == if |blocks| < k <= 2 * |blocks| + 1 then blocks else []
    requires b < |d| && !a.Has(b)
    ensures var c := Committing(a, d, view, blocks, k);
            && |Recovered(a, c)| == |d|
            && Recovered(a, c)[b] == if k <= |blocks| then d[b] else Overlaid(d, view, blocks)[b]
  {
    hide Committing, Recovered, Loggable;
    RecoveredHome(a, Committing(a, d, view, blocks, k), b);
    CommitAt(a, d, view, blocks, k, b);
  }

  /** Home block b, and the log copy of it, after k writes of commit(). */
  lemma {:induction false} CommitAt(a: Area, d: Disk, view: Disk, blocks: seq<nat>, k: nat, b: nat)
    requires Formatted(a, d) && Loggable(a, |d|, blocks) && |view| == |d|
    requires k <= 2 * |blocks| + 2
    requires b < |d| && !a.Has(b)
    ensures var c, i, n := Committing(a, d, view, blocks, k), IndexIn(blocks, b), |blocks|;
            && |c| == |d|
            && c[b] == (if i < n && i < k - n - 1 then view[b] else d[b])
            && (i < n && k > n ==> c[a.start + 1 + i] == view[b])
  {
    hide Copied, Installed, IndexIn;
    var n, i := |blocks|, IndexIn(blocks, b);
    if k <= n {
      CopiedAt(a, d, view, blocks, k, b);
    } else {
      var committed := Copied(a, d, view, blocks, n)[a.start := WithHeader(d[a.start], blocks)];
      CopiedAt(a, d, view, blocks, n, b);
      var m := if k <= 2 * n + 1 then k - n - 1 else n;
      InstalledAt(a, committed, blocks, m, b);
      if i < n {
        CopiedAt(a, d, view, blocks, n, a.start + 1 + i);
        InstalledLog(a, committed, blocks, m);
      }
    }
  }

  /** A crash after any write of recovery is harmless: recovering again gives the same home blocks. */
  lemma {:induction false} RecoveryIsIdempotent(a: Area, d: Disk, k: nat)
    requires Formatted(a, d) && GoodHeader(a, d)
    requires k <= d[a.start][0] + 1
    ensures var c := Recovering(a, d, k);
            && Formatted(a, c) && GoodHeader(a, c)
            && SameHome(a, Recovered(a, c), Recovered(a, d))
  {
    hide Recovering, Recovered, Loggable;
    var c := Recovering(a, d, k);
    RecoveringHeader(a, d, k);
    RecoveredLength(a, c);
    RecoveredLength(a, d);
    forall b | 0 <= b < |d| && !a.Has(b) ensures Recovered(a, c)[b] == Recovered(a, d)[b] {
      RecoveredSame(a, d, k, b);
    }
  }

  lemma {:induction false} RecoveredSame(a: Area, d: Disk, k: nat, b: nat)
    requires Formatted(a, d) && GoodHeader(a, d)
    requires k <= d[a.start][0] + 1 && b < |d| && !a.Has(b)
    requires var c := Recovering(a, d, k);
             && |c| == |d| && Formatted(a, c) && GoodHeader(a, c)
             && HeaderBlocks(c[a.start]) == if k <= d[a.start][0] then HeaderBlocks(d[a.start]) else []
    ensures var c := Recovering(a, d, k);
            && |Recovered(a, c)| == |Recovered(a, d)| == |d| && Recovered(a, c)[b] == Recovered(a, d)[b]
  {
    hide Recovering, Recovered, Loggable, IndexIn, HeaderBlocks;
    var c := Recovering(a, d, k);
    RecoveredHome(a, c, b);
    RecoveredHome(a, d, b);
    RecoveringAt(a, d, k, b);
  }

  lemma {:induction false} RecoveringHeader(a: Area, d: Disk, k: nat)
    requires Formatted(a, d) && GoodHeader(a, d)
    requires k <= d[a.start][0] + 1
    ensures var c := Recovering(a, d, k);
            && |c| == |d| && Formatted(a, c) && GoodHeader(a, c)
            && HeaderBlocks(c[a.start]) == if k <= d[a.start][0] then HeaderBlocks(d[a.start]) else []
  {
    var blocks := HeaderBlocks(d[a.start]);
    if k <= |blocks| {
      InstalledLog(a, d, blocks, k);
      assert Recovering(a, d, k)[a.start] == d[a.start];
    } else {
      HeaderRoundTrip(d[a.start], []);
    }
  }

  /** Home block b, and its log copy, after k writes of recovery. */
  lemma {:induction false} RecoveringAt(a: Area, d: Disk, k: nat, b: nat)
    requires Formatted(a, d) && GoodHeader(a, d)
    requires k <= d[a.start][0] + 1
    requires b < |d| && !a.Has(b)
    ensures var c, i, n := Recovering(a, d, k), IndexIn(HeaderBlocks(d[a.start]), b), d[a.start][0];
            && |c| == |d|
            && c[b] == (if i < n && i < k then d[a.start + 1 + i] else d[b])
            && (i < n ==> c[a.start + 1 + i] == d[a.start + 1 + i])
  {
    hide IndexIn, Installed;
    var blocks := HeaderBlocks(d[a.start]);
    var m := if k <= |blocks| then k else |blocks|;
    InstalledAt(a, d, blocks, m, b);
    InstalledLog(a, d, blocks, m);
  }
}
