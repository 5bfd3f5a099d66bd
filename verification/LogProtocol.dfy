/** Group commit (log.c) as a state machine: operations, disk writes one by one, and crashes. */
module LogProtocol {
  import opened LogDisk

  /** One log_write by an operation. */
  datatype Entry = Entry(op: nat, block: nat, data: Block)

  /** An operation between begin_op and end_op, with the number of its calls of log_write so far. */
  datatype Active = Active(op: nat, calls: nat)

  datatype Phase =
    | Running
    | Commit(k: nat, base: Disk)    // k disk writes of commit() are done
    | Recovery(k: nat, base: Disk)  // k disk writes of recover_from_log() are done

  /** `view` is the buffer cache over the disk; `blocks` is lh.block[..lh.n]; `active` has log.outstanding
      elements.  The history of log_writes and the length of its durable part are there for the proof:
      no step depends on them. */
  datatype Sys = Sys(disk: Disk, view: Disk, blocks: seq<nat>, active: seq<Active>, phase: Phase,
                     history: seq<Entry>, durable: nat, begun: set<nat>)

  datatype Event =
    | BeginOp(op: nat)
    | LogWrite(i: nat, block: nat, data: Block)
    | EndOp(i: nat)
    | DiskWrite
    | Finish
    | Crash

  // ----- the steps -----

  /** begin_op goes ahead, rather than sleep. */
  predicate HasRoom(blocks: seq<nat>, outstanding: nat) {
    |blocks| + (outstanding + 1) * MAXOPBLOCKS <= LOGSIZE
  }

  /** commit() does nothing when the log is empty. */
  function CommitWrites(blocks: seq<nat>): nat {
    if blocks == [] then 0 else 2 * |blocks| + 2
  }

  /** log_write: absorb the block if it is in the log already. */
  function Absorb(blocks: seq<nat>, b: nat): seq<nat> {
    if b in blocks then blocks else blocks + [b]
  }

  /** An operation obeys its reservation when it calls log_write at most MAXOPBLOCKS times. */
  ghost predicate Enabled(a: Area, s: Sys, e: Event) {
    match e
    case BeginOp(op) => s.phase.Running? && HasRoom(s.blocks, |s.active|) && op !in s.begun
    case LogWrite(i, b, _) =>
      && s.phase.Running? && i < |s.active|
      && s.active[i].calls < MAXOPBLOCKS
      && b < |s.disk| && !a.Has(b)
    case EndOp(i) => s.phase.Running? && i < |s.active|
    case DiskWrite =>
      || (s.phase.Commit? && s.phase.k < CommitWrites(s.blocks))
      || (s.phase.Recovery? && Formatted(a, s.phase.base) && s.phase.k < s.phase.base[a.start][0] + 1)
    case Finish =>
      || (s.phase.Commit? && s.phase.k == CommitWrites(s.blocks))
      || (s.phase.Recovery? && Formatted(a, s.phase.base) && s.phase.k == s.phase.base[a.start][0] + 1)
    case Crash => true
  }

  ghost function Step(a: Area, s: Sys, e: Event): Sys
    requires Enabled(a, s, e) && Inv(a, s)
  {
    match e
    case BeginOp(op) => s.(active := s.active + [Active(op, 0)], begun := s.begun + {op})
    case LogWrite(i, b, data) =>
      var op := s.active[i];
      s.(view := s.view[b := data], blocks := Absorb(s.blocks, b),
         active := s.active[i := Active(op.op, op.calls + 1)],
         history := s.history + [Entry(op.op, b, data)])
    case EndOp(i) =>
      var rest := s.active[..i] + s.active[i + 1..];
      s.(active := rest, phase := if rest == [] then Commit(0, s.disk) else Running)
    case DiskWrite =>
      if s.phase.Commit? then
        var k := s.phase.k + 1;
        s.(disk := Committing(a, s.phase.base, s.view, s.blocks, k), phase := Commit(k, s.phase.base),
           durable := if k == |s.blocks| + 1 then |s.history| else s.durable)
      else
        s.(disk := Recovering(a, s.phase.base, s.phase.k + 1), phase := Recovery(s.phase.k + 1, s.phase.base))
    case Finish =>
      if s.phase.Commit? then s.(blocks := [], phase := Running)
      else s.(view := s.disk, phase := Running)
    case Crash =>
      s.(blocks := [], active := [], phase := Recovery(0, s.disk), history := s.history[..s.durable])
  }

  // ----- what the steps keep -----

  /** The home blocks after all the writes of a history. */
  function Replay(d: Disk, history: seq<Entry>): (r: Disk)
    ensures |r| == |d|
  {
    if history == [] then d
    else
      var e, last := Replay(d, history[..|history| - 1]), history[|history| - 1];
      if last.block < |d| then e[last.block := last.data] else e
  }

  /** What the operations in progress may still add to the log. */
  function Reserved(active: seq<Active>): int {
    if active == [] then 0 else MAXOPBLOCKS - active[0].calls + Reserved(active[1..])
  }

  ghost predicate Inv(a: Area, s: Sys) {
    && LOGSIZE < a.size
    && Formatted(a, s.disk) && GoodHeader(a, s.disk)
    && |s.view| == |s.disk| && s.durable <= |s.history|
    && LogInv(a, s) && OpsInv(s)
    && match s.phase
       case Running => s.disk[a.start][0] == 0
       case Commit(k, base) =>
         && s.active == []
         && Formatted(a, base) && base[a.start][0] == 0 && |base| == |s.disk|
         && k <= CommitWrites(s.blocks)
         && s.disk == (if s.blocks == [] then base else Committing(a, base, s.view, s.blocks, k))
       case Recovery(k, base) =>
         && s.active == [] && s.blocks == [] && s.durable == |s.history|
         && Formatted(a, base) && GoodHeader(a, base) && |base| == |s.disk|
         && k <= base[a.start][0] + 1
         && s.disk == Recovering(a, base, k)
  }

  /** The in-memory log: distinct loggable blocks with room for every reservation; it is empty only when
      every write is durable. */
  ghost predicate LogInv(a: Area, s: Sys) {
    && Loggable(a, |s.disk|, s.blocks)
    && (forall i :: 0 <= i < |s.active| ==> s.active[i].calls <= MAXOPBLOCKS)
    && |s.blocks| + Reserved(s.active) <= LOGSIZE
    && (s.blocks == [] ==> s.durable == |s.history|)
  }

  function SetOf(blocks: seq<nat>): set<nat> { set b | b in blocks }

  /** Operations are whole: none has some of its writes durable and others not, and none in progress has any
      durable. */
  ghost predicate OpsInv(s: Sys)
    requires s.durable <= |s.history|
  {
    && (forall j :: 0 <= j < |s.history| ==> s.history[j].op in s.begun)
    && (forall i :: 0 <= i < |s.active| ==> s.active[i].op in s.begun)
    && (forall i, j :: 0 <= i < s.durable <= j < |s.history| ==> s.history[i].op != s.history[j].op)
    && (forall i, j :: 0 <= i < |s.active| && 0 <= j < s.durable ==> s.history[j].op != s.active[i].op)
  }

  /** Contents, against the home blocks h0 that the system started from. */
  ghost predicate Content(a: Area, h0: Disk, s: Sys)
    requires Inv(a, s)
  {
    && |h0| == |s.disk|
    && match s.phase
       case Running =>
         && SameHome(a, s.disk, Replay(h0, s.history[..s.durable]))
         && SameHome(a, s.view, Replay(h0, s.history))
         && SameHome(a, Overlaid(s.disk, s.view, s.blocks), s.view)
       case Commit(k, base) =>
         && (if k <= |s.blocks| then SameHome(a, base, Replay(h0, s.history[..s.durable]))
             else s.durable == |s.history|)
         && SameHome(a, s.view, Replay(h0, s.history))
         && SameHome(a, Overlaid(base, s.view, s.blocks), s.view)
       case Recovery(k, base) =>
         SameHome(a, Recovered(a, base), Replay(h0, s.history))
  }

  // ----- reservations -----

  lemma {:induction false} ReservedAppend(active: seq<Active>, x: Active)
    ensures Reserved(active + [x]) == Reserved(active) + MAXOPBLOCKS - x.calls
  {
    if active != [] {
      ReservedAppend(active[1..], x);
      assert (active + [x])[1..] == active[1..] + [x];
    }
  }

  lemma {:induction false} ReservedConcat(x: seq<Active>, y: seq<Active>)
    ensures Reserved(x + y) == Reserved(x) + Reserved(y)
  {
    if x == [] {
      assert x + y == y;
    } else {
      ReservedConcat(x[1..], y);
      assert (x + y)[1..] == x[1..] + y;
    }
  }

  lemma {:induction false} ReservedRemove(active: seq<Active>, i: nat)
    requires i < |active|
    ensures Reserved(active[..i] + active[i + 1..]) == Reserved(active) - (MAXOPBLOCKS - active[i].calls)
  {
    ReservedConcat(active[..i], active[i + 1..]);
    ReservedConcat(active[..i], active[i..]);
    assert active == active[..i] + active[i..];
    assert active[i..][1..] == active[i + 1..];
  }

  lemma {:induction false} ReservedUpdate(active: seq<Active>, i: nat, x: Active)
    requires i < |active|
    ensures Reserved(active[i := x]) == Reserved(active) + active[i].calls - x.calls
  {
    ReservedRemove(active, i);
    ReservedRemove(active[i := x], i);
    assert active[i := x][..i] + active[i := x][i + 1..] == active[..i] + active[i + 1..];
  }

  lemma {:induction false} ReservedBound(active: seq<Active>)
    requires forall i :: 0 <= i < |active| ==> active[i].calls <= MAXOPBLOCKS
    ensures 0 <= Reserved(active) <= MAXOPBLOCKS * |active|
  {
    if active != [] {
      ReservedBound(active[1..]);
    }
  }

  // ----- every step keeps the invariants -----

  lemma {:induction false} BeginKeeps(a: Area, h0: Disk, s: Sys, op: nat)
    requires Inv(a, s) && Content(a, h0, s) && Enabled(a, s, BeginOp(op))
    ensures Inv(a, Step(a, s, BeginOp(op))) && Content(a, h0, Step(a, s, BeginOp(op)))
  {
    ReservedAppend(s.active, Active(op, 0));
    ReservedBound(s.active);
  }

  lemma {:induction false} ReplayOne(d: Disk, history: seq<Entry>, e: Entry)
    requires e.block < |d|
    ensures Replay(d, history + [e]) == Replay(d, history)[e.block := e.data]
  {
    assert (history + [e])[..|history|] == history;
  }

  lemma {:induction false} AbsorbKeeps(a: Area, d: Disk, blocks: seq<nat>, b: nat)
    requires Loggable(a, |d|, blocks) && b < |d| && !a.Has(b)
    requires b in blocks || (|blocks| < LOGSIZE && |blocks| + 1 < a.size)
    ensures Loggable(a, |d|, Absorb(blocks, b))
    ensures |Absorb(blocks, b)| <= |blocks| + 1
  {}

  /** What one operation logs, call by call. */
  function AbsorbAll(blocks: seq<nat>, calls: seq<nat>): seq<nat> {
    if calls == [] then blocks else Absorb(AbsorbAll(blocks, calls[..|calls| - 1]), calls[|calls| - 1])
  }

  /** What several operations log, one after another. */
  function AbsorbEach(blocks: seq<nat>, ops: seq<seq<nat>>): seq<nat> {
    if ops == [] then blocks else AbsorbAll(AbsorbEach(blocks, ops[..|ops| - 1]), ops[|ops| - 1])
  }

  ghost predicate WithinReservations(ops: seq<seq<nat>>) {
    forall k :: 0 <= k < |ops| ==> |ops[k]| <= MAXOPBLOCKS
  }

  /** Whatever `n` operations log within their reservations, the log has room for it. */
  ghost predicate AlwaysFits(blocks: seq<nat>, n: nat) {
    forall ops :: |ops| == n && WithinReservations(ops) ==> |AbsorbEach(blocks, ops)| <= LOGSIZE
  }

  lemma {:induction false} AbsorbedAtMost(blocks: seq<nat>, calls: seq<nat>)
    ensures |AbsorbAll(blocks, calls)| <= |blocks| + |calls|
  {
    if calls != [] {
      AbsorbedAtMost(blocks, calls[..|calls| - 1]);
    }
  }

  lemma {:induction false} AbsorbedEachAtMost(blocks: seq<nat>, ops: seq<seq<nat>>)
    requires WithinReservations(ops)
    ensures |AbsorbEach(blocks, ops)| <= |blocks| + |ops| * MAXOPBLOCKS
  {
    if ops != [] {
      AbsorbedEachAtMost(blocks, ops[..|ops| - 1]);
      AbsorbedAtMost(AbsorbEach(blocks, ops[..|ops| - 1]), ops[|ops| - 1]);
    }
  }

  ghost predicate Below(blocks: seq<nat>, top: nat) {
    forall b :: b in blocks ==> b < top
  }

  function NewBlocks(first: nat, n: nat): (r: seq<nat>)
    ensures |r| == n
  {
    seq(n, k requires 0 <= k => first + k)
  }

  lemma {:induction false} NewAbsorbed(blocks: seq<nat>, first: nat, n: nat)
    requires Below(blocks, first)
    ensures |AbsorbAll(blocks, NewBlocks(first, n))| == |blocks| + n
    ensures Below(AbsorbAll(blocks, NewBlocks(first, n)), first + n)
  {
    if n > 0 {
      NewAbsorbed(blocks, first, n - 1);
      assert NewBlocks(first, n)[..n - 1] == NewBlocks(first, n - 1);
    }
  }

  function NewOps(first: nat, n: nat): (r: seq<seq<nat>>)
    ensures |r| == n
  {
    seq(n, k requires 0 <= k => NewBlocks(first + k * MAXOPBLOCKS, MAXOPBLOCKS))
  }

  lemma {:induction false} NewOpsAbsorbed(blocks: seq<nat>, first: nat, n: nat)
    requires Below(blocks, first)
    ensures |AbsorbEach(blocks, NewOps(first, n))| == |blocks| + n * MAXOPBLOCKS
    ensures Below(AbsorbEach(blocks, NewOps(first, n)), first + n * MAXOPBLOCKS)
  {
    if n > 0 {
      NewOpsAbsorbed(blocks, first, n - 1);
      assert NewOps(first, n)[..n - 1] == NewOps(first, n - 1);
      NewAbsorbed(AbsorbEach(blocks, NewOps(first, n - 1)), first + (n - 1) * MAXOPBLOCKS, MAXOPBLOCKS);
    }
  }

  lemma {:induction false} SomeTop(blocks: seq<nat>) returns (top: nat)
    ensures Below(blocks, top)
  {
    if blocks == [] {
      top := 0;
    } else {
      top := SomeTop(blocks[..|blocks| - 1]);
      assert blocks == blocks[..|blocks| - 1] + [blocks[|blocks| - 1]];
      top := if blocks[|blocks| - 1] < top then top else blocks[|blocks| - 1] + 1;
    }
  }

  /** begin_op goes ahead exactly when the log holds whatever this operation and those in progress may log. */
  lemma {:induction false} RoomExactly(blocks: seq<nat>, outstanding: nat)
    ensures HasRoom(blocks, outstanding) <==> AlwaysFits(blocks, outstanding + 1)
  {
    if HasRoom(blocks, outstanding) {
      forall ops | |ops| == outstanding + 1 && WithinReservations(ops)
        ensures |AbsorbEach(blocks, ops)| <= LOGSIZE
      {
        AbsorbedEachAtMost(blocks, ops);
      }
    } else {
      var top := SomeTop(blocks);
      NewOpsAbsorbed(blocks, top, outstanding + 1);
      assert WithinReservations(NewOps(top, outstanding + 1));
    }
  }

  /** The panic in log_write is out of reach: an operation within its reservation finds room. */
  lemma {:induction false} LogWriteHasRoom(a: Area, s: Sys, i: nat, b: nat, data: Block)
    requires Inv(a, s) && Enabled(a, s, LogWrite(i, b, data))
    ensures |s.blocks| < LOGSIZE && |s.blocks| < a.size - 1
    ensures |Absorb(s.blocks, b)| + Reserved(Step(a, s, LogWrite(i, b, data)).active) <= LOGSIZE
    ensures 1 <= |s.active|
  {
    var op := s.active[i];
    var t := Step(a, s, LogWrite(i, b, data));
    ReservedUpdate(s.active, i, t.active[i]);
    ReservedBound(t.active);
  }

  lemma {:induction false} LogWriteKeepsLog(a: Area, s: Sys, i: nat, b: nat, data: Block)
    requires Inv(a, s) && Enabled(a, s, LogWrite(i, b, data))
    ensures LogInv(a, Step(a, s, LogWrite(i, b, data)))
  {
    LogWriteHasRoom(a, s, i, b, data);
    AbsorbKeeps(a, s.disk, s.blocks, b);
    hide Absorb, Reserved, Loggable;
  }

  lemma {:induction false} LogWriteKeeps(a: Area, h0: Disk, s: Sys, i: nat, b: nat, data: Block)
    requires Inv(a, s) && Content(a, h0, s) && Enabled(a, s, LogWrite(i, b, data))
    ensures Inv(a, Step(a, s, LogWrite(i, b, data))) && Content(a, h0, Step(a, s, LogWrite(i, b, data)))
  {
    hide LogInv;
    var t := Step(a, s, LogWrite(i, b, data));
    LogWriteKeepsLog(a, s, i, b, data);
    ReplayOne(h0, s.history, Entry(s.active[i].op, b, data));
    assert t.history[..t.durable] == s.history[..s.durable];
  }

  lemma {:induction false} EndKeepsLog(a: Area, s: Sys, i: nat)
    requires Inv(a, s) && Enabled(a, s, EndOp(i))
    ensures LogInv(a, Step(a, s, EndOp(i))) && OpsInv(Step(a, s, EndOp(i)))
  {
    hide Loggable;
    ReservedRemove(s.active, i);
    var rest := s.active[..i] + s.active[i + 1..];
    assert forall j :: 0 <= j < |rest| ==> rest[j] == s.active[if j < i then j else j + 1];
  }

  lemma {:induction false} EndKeeps(a: Area, h0: Disk, s: Sys, i: nat)
    requires Inv(a, s) && Content(a, h0, s) && Enabled(a, s, EndOp(i))
    ensures Inv(a, Step(a, s, EndOp(i))) && Content(a, h0, Step(a, s, EndOp(i)))
  {
    EndKeepsLog(a, s, i);
    hide LogInv, OpsInv, SameHome, GoodHeader;
    var t := Step(a, s, EndOp(i));
    if t.phase.Commit? {
      assert t.blocks == [] || Committing(a, t.phase.base, t.view, t.blocks, 0) == t.disk;
    }
  }

  /** A disk without a committed transaction is recovered to itself. */
  lemma {:induction false} NothingToRecover(a: Area, d: Disk)
    requires Formatted(a, d) && GoodHeader(a, d) && d[a.start][0] == 0
    ensures SameHome(a, Recovered(a, d), d)
  {
    forall b | 0 <= b < |d| && !a.Has(b) ensures Recovered(a, d)[b] == d[b] {
      RecoveredHome(a, d, b);
    }
    RecoveredLength(a, d);
  }

  /** The promise of the log: whenever the machine stops, recovery gives exactly the durable writes. */
  lemma {:induction false} CrashGivesDurable(a: Area, h0: Disk, s: Sys)
    requires Inv(a, s) && Content(a, h0, s)
    ensures SameHome(a, Recovered(a, s.disk), Replay(h0, s.history[..s.durable]))
  {
    hide LogInv, OpsInv, Recovered, Overlaid, Loggable, Committing;
    assert s.history[..|s.history|] == s.history;
    match s.phase
    case Running => NothingToRecover(a, s.disk);
    case Commit(k, base) =>
      if s.blocks == [] {
        NothingToRecover(a, s.disk);
      } else {
        assert Loggable(a, |s.disk|, s.blocks) && Loggable(a, |base|, s.blocks) by { LogInvLoggable(a, s, base); }
        CommitIsAtomic(a, base, s.view, s.blocks, k);
      }
    case Recovery(k, base) => RecoveryIsIdempotent(a, base, k);
  }

  lemma {:induction false} LogInvLoggable(a: Area, s: Sys, d: Disk)
    requires LogInv(a, s) && |d| == |s.disk|
    ensures Loggable(a, |s.disk|, s.blocks) && Loggable(a, |d|, s.blocks)
  {}

  lemma {:induction false} CommitWriteKeeps(a: Area, h0: Disk, s: Sys)
    requires Inv(a, s) && Content(a, h0, s) && Enabled(a, s, DiskWrite) && s.phase.Commit?
    ensures Inv(a, Step(a, s, DiskWrite)) && Content(a, h0, Step(a, s, DiskWrite))
  {
    hide Committing, Overlaid, SameHome, Replay;
    var t := Step(a, s, DiskWrite);
    LogInvLoggable(a, s, s.phase.base);
    CommittingHeader(a, s.phase.base, s.view, s.blocks, s.phase.k + 1);
    assert LogInv(a, t);
    assert OpsInv(t);
    hide LogInv, OpsInv, GoodHeader, Loggable;
  }

  lemma {:induction false} CommitFinishKeeps(a: Area, h0: Disk, s: Sys)
    requires Inv(a, s) && Content(a, h0, s) && Enabled(a, s, Finish) && s.phase.Commit?
    ensures Inv(a, Step(a, s, Finish)) && Content(a, h0, Step(a, s, Finish))
    ensures Step(a, s, Finish).durable == |s.history|
  {
    var t, base := Step(a, s, Finish), s.phase.base;
    hide Committing, Replay;
    assert s.history[..|s.history|] == s.history;
    if s.blocks != [] {
      LogInvLoggable(a, s, base);
      CommittingHeader(a, base, s.view, s.blocks, s.phase.k);
      forall b | 0 <= b < |s.disk| && !a.Has(b) ensures s.disk[b] == Overlaid(base, s.view, s.blocks)[b] {
        CommitAt(a, base, s.view, s.blocks, s.phase.k, b);
      }
    }
    assert LogInv(a, t) by { hide SameHome; assert Reserved(t.active) == 0; }
  }

  lemma {:induction false} RecoveryStepKeeps(a: Area, h0: Disk, s: Sys, e: Event)
    requires Inv(a, s) && Content(a, h0, s) && Enabled(a, s, e) && s.phase.Recovery? && (e.DiskWrite? || e.Finish?)
    ensures Inv(a, Step(a, s, e)) && Content(a, h0, Step(a, s, e))
  {
    hide Recovering, Recovered, SameHome, Replay;
    var t, base := Step(a, s, e), s.phase.base;
    RecoveringHeader(a, base, if e.DiskWrite? then s.phase.k + 1 else s.phase.k);
    assert s.history[..|s.history|] == s.history;
    if e.Finish? {
      assert s.disk == Recovered(a, base) by { RecoveredIsLast(a, base); }
      OverlaidSame(a, t.disk);
    }
    assert LogInv(a, t);
  }

  lemma {:induction false} RecoveredIsLast(a: Area, d: Disk)
    requires Formatted(a, d) && GoodHeader(a, d)
    ensures Recovered(a, d) == Recovering(a, d, d[a.start][0] + 1)
  {}

  lemma {:induction false} OverlaidSame(a: Area, d: Disk)
    ensures SameHome(a, Overlaid(d, d, []), d)
  {}

  lemma {:induction false} CrashKeeps(a: Area, h0: Disk, s: Sys)
    requires Inv(a, s) && Content(a, h0, s)
    ensures Inv(a, Step(a, s, Crash)) && Content(a, h0, Step(a, s, Crash))
  {
    CrashGivesDurable(a, h0, s);
    hide Recovered, SameHome, Replay;
    var t := Step(a, s, Crash);
    assert Recovering(a, s.disk, 0) == s.disk;
    assert LogInv(a, t);
    assert OpsInv(t);
  }

  lemma {:induction false} StepKeeps(a: Area, h0: Disk, s: Sys, e: Event)
    requires Inv(a, s) && Content(a, h0, s) && Enabled(a, s, e)
    ensures Inv(a, Step(a, s, e)) && Content(a, h0, Step(a, s, e))
  {
    hide Inv, Content, Step;
    match e
    case BeginOp(op) => BeginKeeps(a, h0, s, op);
    case LogWrite(i, b, data) => LogWriteKeeps(a, h0, s, i, b, data);
    case EndOp(i) => EndKeeps(a, h0, s, i);
    case DiskWrite => if s.phase.Commit? { CommitWriteKeeps(a, h0, s); } else { RecoveryStepKeeps(a, h0, s, e); }
    case Finish => if s.phase.Commit? { CommitFinishKeeps(a, h0, s); } else { RecoveryStepKeeps(a, h0, s, e); }
    case Crash => CrashKeeps(a, h0, s);
  }

  // ----- whole runs -----

  /** After initlog on a formatted disk with an empty log. */
  ghost predicate Initial(a: Area, s: Sys) {
    && LOGSIZE < a.size && Formatted(a, s.disk) && s.disk[a.start][0] == 0
    && s.view == s.disk && s.blocks == [] && s.active == [] && s.phase.Running?
    && s.history == [] && s.durable == 0 && s.begun == {}
  }

  /** s leads to t by the given events, each enabled when it happens. */
  ghost predicate Leads(a: Area, h0: Disk, s: Sys, events: seq<Event>, t: Sys)
    requires Inv(a, s) && Content(a, h0, s)
    decreases |events|
  {
    if events == [] then s == t
    else
      && Enabled(a, s, events[0])
      && (StepKeeps(a, h0, s, events[0]);
          Leads(a, h0, Step(a, s, events[0]), events[1..], t))
  }

  ghost predicate Reachable(a: Area, s: Sys, events: seq<Event>, t: Sys)
    requires Initial(a, s)
  {
    InitialInv(a, s);
    Leads(a, s.disk, s, events, t)
  }

  lemma {:induction false} RunKeeps(a: Area, h0: Disk, s: Sys, events: seq<Event>, t: Sys)
    requires Inv(a, s) && Content(a, h0, s) && Leads(a, h0, s, events, t)
    ensures Inv(a, t) && Content(a, h0, t)
    decreases |events|
  {
    if events != [] {
      StepKeeps(a, h0, s, events[0]);
      RunKeeps(a, h0, Step(a, s, events[0]), events[1..], t);
    }
  }

  lemma {:induction false} InitialInv(a: Area, s: Sys)
    requires Initial(a, s)
    ensures Inv(a, s) && Content(a, s.disk, s)
  {}

  /** Whatever operations ran in whatever order, and wherever crashes struck, also during recovery: stop the
      machine now, recover, and the home blocks are the initial ones with a prefix of the history replayed,
      a prefix that cuts through no operation. */
  lemma {:induction false} EveryCrashIsAtomic(a: Area, s: Sys, events: seq<Event>, t: Sys)
    requires Initial(a, s) && Reachable(a, s, events, t)
    ensures Formatted(a, t.disk) && GoodHeader(a, t.disk) && t.durable <= |t.history|
    ensures SameHome(a, Recovered(a, t.disk), Replay(s.disk, t.history[..t.durable]))
    ensures forall i, j :: 0 <= i < t.durable <= j < |t.history| ==> t.history[i].op != t.history[j].op
    ensures forall i, j :: 0 <= i < t.durable && 0 <= j < |t.active| ==> t.history[i].op != t.active[j].op
  {
    InitialInv(a, s);
    RunKeeps(a, s.disk, s, events, t);
    CrashGivesDurable(a, s.disk, t);
    hide Content, Recovered, Replay, GoodHeader;
  }

  /** No interleaving of operations that keep to their reservation overflows the log, commits while an
      operation is in progress, or logs a block twice. */
  lemma {:induction false} ReservationsHold(a: Area, s: Sys, events: seq<Event>, t: Sys)
    requires Initial(a, s) && Reachable(a, s, events, t)
    ensures |t.blocks| + Reserved(t.active) <= LOGSIZE && Distinct(t.blocks)
    ensures t.active != [] ==> t.phase.Running?
    ensures forall i, b, data :: Enabled(a, t, LogWrite(i, b, data)) ==>
              |t.blocks| < LOGSIZE && |t.blocks| < a.size - 1
  {
    InitialInv(a, s);
    RunKeeps(a, s.disk, s, events, t);
    forall i: nat, b: nat, data | Enabled(a, t, LogWrite(i, b, data))
      ensures |t.blocks| < LOGSIZE && |t.blocks| < a.size - 1
    {
      LogWriteHasRoom(a, t, i, b, data);
    }
  }

  /** Once a commit has finished, every write before it is durable. */
  lemma {:induction false} FinishedIsDurable(a: Area, h0: Disk, s: Sys)
    requires Inv(a, s) && Content(a, h0, s) && Enabled(a, s, Finish)
    ensures Step(a, s, Finish).durable == |s.history|
  {
    if s.phase.Commit? {
      CommitFinishKeeps(a, h0, s);
    }
  }

  // ----- a full log is reachable -----

  lemma {:induction false} LeadsOn(a: Area, h0: Disk, s: Sys, events: seq<Event>, t: Sys, e: Event)
    requires Inv(a, s) && Content(a, h0, s) && Leads(a, h0, s, events, t) && Inv(a, t) && Enabled(a, t, e)
    ensures Leads(a, h0, s, events + [e], Step(a, t, e))
    decreases |events|
  {
    hide Inv, Content, Step, Enabled;
    if events == [] {
      StepKeeps(a, h0, s, e);
      assert Leads(a, h0, Step(a, s, e), [], Step(a, s, e));
      assert (events + [e])[1..] == [];
    } else {
      StepKeeps(a, h0, s, events[0]);
      LeadsOn(a, h0, Step(a, s, events[0]), events[1..], t, e);
      assert (events + [e])[1..] == events[1..] + [e];
    }
  }

  /** The j-th block outside the log area. */
  function Home(a: Area, j: nat): nat {
    if j < a.start then j else j + a.size
  }

  /** Three operations have made k calls of log_write, each for another block, the first operation ten before the second
      begins with its own. */
  ghost predicate Filling(a: Area, blocks: seq<nat>, active: seq<Active>, k: nat) {
    && blocks == Homes(a, k)
    && active == [Active(0, Calls(k, 0)), Active(1, Calls(k, 1)), Active(2, Calls(k, 2))]
  }

  function Homes(a: Area, k: nat): seq<nat> {
    seq(k, j requires 0 <= j < k => Home(a, j))
  }

  /** The first n operations, none of which has called log_write. */
  function Fresh(n: nat): seq<Active> {
    seq(n, i requires 0 <= i < n => Active(i, 0))
  }

  function Calls(k: nat, i: nat): nat {
    var first := i * MAXOPBLOCKS;
    if k <= first then 0 else if k <= first + MAXOPBLOCKS then k - first else MAXOPBLOCKS
  }

  lemma {:induction false} FillOne(a: Area, k: nat)
    requires k < LOGSIZE
    ensures Calls(k, k / MAXOPBLOCKS) < MAXOPBLOCKS && k / MAXOPBLOCKS < 3
    ensures forall i :: 0 <= i < 3 ==> Calls(k + 1, i) == Calls(k, i) + if i == k / MAXOPBLOCKS then 1 else 0
    ensures forall j :: 0 <= j < k ==> Home(a, j) != Home(a, k)
    ensures Homes(a, k + 1) == Homes(a, k) + [Home(a, k)]
  {}

  lemma {:induction false} FillStep(a: Area, t: Sys, k: nat) returns (e: Event)
    requires Inv(a, t) && t.phase.Running? && k < LOGSIZE && a.size + LOGSIZE <= |t.disk|
    requires Filling(a, t.blocks, t.active, k)
    ensures Enabled(a, t, e)
    ensures var u := Step(a, t, e); u.phase.Running? && |u.disk| == |t.disk| && Filling(a, u.blocks, u.active, k + 1)
  {
    FillOne(a, k);
    hide Inv, Calls, Homes, HasRoom;
    e := LogWrite(k / MAXOPBLOCKS, Home(a, k), t.disk[Home(a, k)]);
  }

  /** A run that logs k blocks, up to the size of the log. */
  lemma {:induction false} Fills(a: Area, s: Sys, k: nat) returns (events: seq<Event>, t: Sys)
    requires Initial(a, s) && k <= LOGSIZE && a.size + LOGSIZE <= |s.disk|
    ensures Reachable(a, s, events, t) && Inv(a, t) && Content(a, s.disk, t)
    ensures t.phase.Running? && |t.disk| == |s.disk| && Filling(a, t.blocks, t.active, k)
  {
    hide Inv, Content, Leads, Step, Enabled, Filling, Initial;
    InitialInv(a, s);
    if k == 0 {
      events, t := Begun(a, s);
    } else {
      events, t := Fills(a, s, k - 1);
      var e := FillStep(a, t, k - 1);
      LeadsOn(a, s.disk, s, events, t, e);
      StepKeeps(a, s.disk, t, e);
      events, t := events + [e], Step(a, t, e);
    }
  }

  lemma {:induction false} Begun(a: Area, s: Sys) returns (events: seq<Event>, t: Sys)
    requires Initial(a, s)
    ensures Reachable(a, s, events, t) && Inv(a, t) && Content(a, s.disk, t)
    ensures t.phase.Running? && |t.disk| == |s.disk| && Filling(a, t.blocks, t.active, 0)
  {
    InitialInv(a, s);
    events, t := [], s;
    assert Leads(a, s.disk, s, [], s);
    hide Inv, Content, Leads;
    for op := 0 to 3
      invariant Inv(a, t) && Content(a, s.disk, t) && Leads(a, s.disk, s, events, t)
      invariant t.phase.Running? && t.disk == s.disk && t.blocks == []
      invariant t.active == Fresh(op) && forall x :: x in t.begun ==> x < op
    {
      var e := BeginOp(op);
      assert Enabled(a, t, e);
      LeadsOn(a, s.disk, s, events, t, e);
      StepKeeps(a, s.disk, t, e);
      events, t := events + [e], Step(a, t, e);
    }
  }

  lemma {:induction false} EndStep(a: Area, t: Sys)
    requires Inv(a, t) && t.phase.Running? && t.active != []
    ensures Enabled(a, t, EndOp(0))
    ensures var u := Step(a, t, EndOp(0));
            && |u.active| == |t.active| - 1 && u.blocks == t.blocks && u.disk == t.disk
            && if u.active == [] then u.phase.Commit? && u.phase.k == 0 else u.phase.Running?
  {
    hide Inv;
  }

  /** However many blocks up to LOGSIZE: some run comes to a commit with so many logged. */
  lemma {:induction false} CommitsReachable(a: Area, s: Sys, k: nat) returns (events: seq<Event>, t: Sys)
    requires Initial(a, s) && k <= LOGSIZE && a.size + LOGSIZE <= |s.disk|
    ensures Reachable(a, s, events, t) && t.phase.Commit? && t.phase.k == 0
    ensures t.blocks == Homes(a, k) && |t.disk| == |s.disk|
  {
    hide Inv, Content, Leads, Step, Enabled, Initial, Homes, Calls;
    events, t := Fills(a, s, k);
    InitialInv(a, s);
    for n := 0 to 3
      invariant Inv(a, t) && Content(a, s.disk, t) && Leads(a, s.disk, s, events, t)
      invariant |t.active| == 3 - n && t.blocks == Homes(a, k) && |t.disk| == |s.disk|
      invariant if n < 3 then t.phase.Running? else t.phase.Commit? && t.phase.k == 0
    {
      EndStep(a, t);
      LeadsOn(a, s.disk, s, events, t, EndOp(0));
      StepKeeps(a, s.disk, t, EndOp(0));
      events, t := events + [EndOp(0)], Step(a, t, EndOp(0));
    }
  }

  // ----- logs of any size -----

  /** What begin_op, log_write and end_op go by. */
  datatype Books = Books(blocks: seq<nat>, active: seq<Active>)

  predicate Allowed(b: Books, e: Event) {
    match e
    case BeginOp(_) => HasRoom(b.blocks, |b.active|)
    case LogWrite(i, _, _) => i < |b.active| && b.active[i].calls < MAXOPBLOCKS
    case EndOp(i) => i < |b.active|
    case _ => false
  }

  function Booked(b: Books, e: Event): Books
    requires Allowed(b, e)
  {
    match e
    case BeginOp(op) => b.(active := b.active + [Active(op, 0)])
    case LogWrite(i, x, _) =>
      Books(Absorb(b.blocks, x), b.active[i := Active(b.active[i].op, b.active[i].calls + 1)])
    case EndOp(i) =>
      var rest := b.active[..i] + b.active[i + 1..];
      if rest == [] then Books([], []) else Books(b.blocks, rest)
  }

  function BooksOf(s: Sys): Books {
    if s.phase.Running? then Books(s.blocks, s.active) else Books([], [])
  }

  /** The books follow the system, whatever the size of its log. */
  lemma {:induction false} BooksFollow(a: Area, s: Sys, e: Event)
    requires Inv(a, s) && Enabled(a, s, e) && (e.BeginOp? || e.LogWrite? || e.EndOp?)
    ensures Allowed(BooksOf(s), e) && BooksOf(Step(a, s, e)) == Booked(BooksOf(s), e)
  {
    hide Inv;
  }

  ghost predicate BooksLead(b: Books, events: seq<Event>, c: Books)
    decreases |events|
  {
    if events == [] then b == c
    else Allowed(b, events[0]) && BooksLead(Booked(b, events[0]), events[1..], c)
  }

  /** With a log area of `size` blocks no operation within its reservation meets the panic for a transaction that is too
      big. */
  ghost predicate NeverTooBig(size: nat) {
    forall events, c, i, x, data :: BooksLead(Books([], []), events, c) && Allowed(c, LogWrite(i, x, data)) ==>
      |c.blocks| < LOGSIZE && |c.blocks| < size - 1
  }

  ghost predicate Balanced(b: Books) {
    && |b.blocks| + Reserved(b.active) <= LOGSIZE
    && forall i :: 0 <= i < |b.active| ==> b.active[i].calls <= MAXOPBLOCKS
  }

  lemma {:induction false} BookedBalanced(b: Books, e: Event)
    requires Balanced(b) && Allowed(b, e)
    ensures Balanced(Booked(b, e))
  {
    match e
    case BeginOp(op) => ReservedAppend(b.active, Active(op, 0)); ReservedBound(b.active);
    case LogWrite(i, _, _) => ReservedUpdate(b.active, i, Active(b.active[i].op, b.active[i].calls + 1));
    case EndOp(i) => ReservedRemove(b.active, i);
  }

  lemma {:induction false} LeadBalanced(b: Books, events: seq<Event>, c: Books)
    requires Balanced(b) && BooksLead(b, events, c)
    ensures Balanced(c)
    decreases |events|
  {
    if events != [] {
      BookedBalanced(b, events[0]);
      LeadBalanced(Booked(b, events[0]), events[1..], c);
    }
  }

  lemma {:induction false} BooksLeadOn(b: Books, events: seq<Event>, c: Books, e: Event)
    requires BooksLead(b, events, c) && Allowed(c, e)
    ensures BooksLead(b, events + [e], Booked(c, e))
    decreases |events|
  {
    if events == [] {
      assert (events + [e])[1..] == [];
    } else {
      BooksLeadOn(Booked(b, events[0]), events[1..], c, e);
      assert (events + [e])[1..] == events[1..] + [e];
    }
  }

  lemma {:induction false} BooksFill(a: Area, k: nat) returns (events: seq<Event>, c: Books)
    requires k <= LOGSIZE
    ensures BooksLead(Books([], []), events, c) && Filling(a, c.blocks, c.active, k)
  {
    if k == 0 {
      events, c := [], Books([], []);
      for op := 0 to 3
        invariant BooksLead(Books([], []), events, c) && c.blocks == [] && c.active == Fresh(op)
      {
        BooksLeadOn(Books([], []), events, c, BeginOp(op));
        events, c := events + [BeginOp(op)], Booked(c, BeginOp(op));
      }
    } else {
      events, c := BooksFill(a, k - 1);
      FillOne(a, k - 1);
      var e := LogWrite((k - 1) / MAXOPBLOCKS, Home(a, k - 1), []);
      BooksLeadOn(Books([], []), events, c, e);
      events, c := events + [e], Booked(c, e);
    }
  }

  /** Reservations keep operations from the panic exactly when the log area is larger than LOGSIZE: its header takes a
      block, too. */
  lemma {:induction false} TooBigExactly(size: nat)
    ensures NeverTooBig(size) <==> LOGSIZE < size
  {
    if LOGSIZE < size {
      forall events, c, i: nat, x: nat, data | BooksLead(Books([], []), events, c) && Allowed(c, LogWrite(i, x, data))
        ensures |c.blocks| < LOGSIZE && |c.blocks| < size - 1
      {
        LeadBalanced(Books([], []), events, c);
        ReservedRemove(c.active, i);
        ReservedBound(c.active[..i] + c.active[i + 1..]);
      }
    } else {
      var events, c := BooksFill(Area(0, 0), LOGSIZE - 1);
      assert Allowed(c, LogWrite(2, 0, []));
    }
  }
}
