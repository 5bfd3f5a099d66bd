/** Transactions over the log (log.c), as a run of the C functions through any number of crashes. */
module Transactions {
  import opened LogDisk
  import opened BufferCache
  import opened WriteAheadLog
  import opened LogProtocol

  // ----- runs of the protocol -----

  lemma {:induction false} Extend(a: Area, start: Sys, events: seq<Event>, s: Sys, e: Event)
    requires Initial(a, start) && Reachable(a, start, events, s) && Enabled(a, s, e)
    ensures Inv(a, s) && Reachable(a, start, events + [e], Step(a, s, e)) && Inv(a, Step(a, s, e))
  {
    InitialInv(a, start);
    RunKeeps(a, start.disk, start, events, s);
    StepKeeps(a, start.disk, s, e);
    LeadsOn(a, start.disk, start, events, s, e);
  }

  lemma {:induction false} ReachedInv(a: Area, start: Sys, events: seq<Event>, s: Sys)
    requires Initial(a, start) && Reachable(a, start, events, s)
    ensures Inv(a, s) && Content(a, start.disk, s)
  {
    InitialInv(a, start);
    RunKeeps(a, start.disk, start, events, s);
  }

  /** k disk writes of a commit. */
  lemma {:induction false} CommitRun(a: Area, start: Sys, events: seq<Event>, s: Sys, k: nat)
    returns (more: seq<Event>, t: Sys)
    requires Initial(a, start) && Reachable(a, start, events, s) && s.phase.Commit? && s.phase == Commit(0, s.disk)
    requires s.blocks != [] && k <= 2 * |s.blocks| + 2
    ensures Reachable(a, start, more, t) && t.phase == Commit(k, s.disk) && Inv(a, t) && Inv(a, s)
    ensures t == s.(disk := t.disk, phase := t.phase, durable := t.durable) && s.durable <= t.durable
    ensures k > 0 ==> Loggable(a, |s.disk|, s.blocks) && t.disk == Committing(a, s.disk, s.view, s.blocks, k)
  {
    hide Inv, Reachable, Committing, Initial;
    ReachedInv(a, start, events, s);
    if k == 0 {
      more, t := events, s;
    } else {
      var before, u := CommitRun(a, start, events, s, k - 1);
      OneWrite(a, u);
      Extend(a, start, before, u, DiskWrite);
      more, t := before + [DiskWrite], Step(a, u, DiskWrite);
    }
  }

  lemma {:induction false} OneWrite(a: Area, s: Sys)
    requires Inv(a, s) && s.phase.Commit? && s.blocks != [] && s.phase.k < 2 * |s.blocks| + 2
    ensures Enabled(a, s, DiskWrite) && |s.phase.base| == |s.disk| == |s.view| && Loggable(a, |s.phase.base|, s.blocks)
    ensures Formatted(a, s.phase.base)
    ensures var t := Step(a, s, DiskWrite);
            && t == s.(disk := t.disk, phase := Commit(s.phase.k + 1, s.phase.base), durable := t.durable)
            && s.durable <= t.durable
            && t.disk == Committing(a, s.phase.base, s.view, s.blocks, s.phase.k + 1)
  {
    hide Committing;
  }

  /** k disk writes of a recovery. */
  lemma {:induction false} RecoverRun(a: Area, start: Sys, events: seq<Event>, s: Sys, k: nat)
    returns (more: seq<Event>, t: Sys)
    requires Initial(a, start) && Reachable(a, start, events, s) && s.phase == Recovery(0, s.disk)
    requires Formatted(a, s.disk) && GoodHeader(a, s.disk) && k <= s.disk[a.start][0] + 1
    ensures Reachable(a, start, more, t) && t.phase == Recovery(k, s.disk) && Inv(a, t)
    ensures t == s.(disk := t.disk, phase := t.phase) && t.disk == Recovering(a, s.disk, k)
  {
    hide Inv, Reachable, Recovering, Initial, GoodHeader;
    ReachedInv(a, start, events, s);
    if k == 0 {
      more, t := events, s;
      NoneRecovered(a, s.disk);
    } else {
      var before, u := RecoverRun(a, start, events, s, k - 1);
      Extend(a, start, before, u, DiskWrite);
      more, t := before + [DiskWrite], Step(a, u, DiskWrite);
    }
  }

  lemma {:induction false} NoneRecovered(a: Area, d: Disk)
    requires Formatted(a, d) && GoodHeader(a, d)
    ensures Recovering(a, d, 0) == d
  {}

  /** What commit writes depends on what readers see outside the log area only. */
  lemma {:induction false} SameCopies(a: Area, d: Disk, v: Disk, w: Disk, blocks: seq<nat>, k: nat)
    requires Loggable(a, |d|, blocks) && SameHome(a, v, w) && |v| == |d| && a.start + a.size <= |d| && k <= |blocks|
    ensures Copied(a, d, v, blocks, k) == Copied(a, d, w, blocks, k)
  {
    if k > 0 {
      SameCopies(a, d, v, w, blocks, k - 1);
    }
  }

  lemma {:induction false} SameCommit(a: Area, d: Disk, v: Disk, w: Disk, blocks: seq<nat>, k: nat)
    requires Formatted(a, d) && Loggable(a, |d|, blocks) && SameHome(a, v, w) && |v| == |d| && k <= 2 * |blocks| + 2
    ensures Committing(a, d, v, blocks, k) == Committing(a, d, w, blocks, k)
  {
    hide Copied, Installed, Loggable, SameHome;
    SameCopies(a, d, v, w, blocks, |blocks|);
    if k <= |blocks| {
      SameCopies(a, d, v, w, blocks, k);
    }
  }

  // ----- every disk there ever was -----

  /** Some run of the protocol has this disk.  What it has logged is a part of the history, of which the first `floor`
      writes are durable. */
  ghost predicate Explained(a: Area, start: Sys, d: Disk, history: seq<Entry>, floor: nat)
    requires Initial(a, start)
  {
    exists events, t :: Reachable(a, start, events, t) && Fits(t, d, history, floor)
  }

  ghost predicate Fits(t: Sys, d: Disk, history: seq<Entry>, floor: nat) {
    t.disk == d && t.history <= history && floor <= t.durable
  }

  ghost predicate AllExplained(a: Area, start: Sys, states: seq<Disk>, history: seq<Entry>, floors: seq<nat>)
    requires Initial(a, start)
  {
    |floors| == |states| && forall j :: 0 <= j < |states| ==> Explained(a, start, states[j], history, floors[j])
  }

  function Same(n: nat, floor: nat): (r: seq<nat>)
    ensures |r| == n && forall j :: 0 <= j < n ==> r[j] == floor
  {
    seq(n, j => floor)
  }

  /** Recovery from such a disk gives a beginning of the history, at least `floor` writes long, that cuts through no
      operation. */
  ghost predicate RecoversWhole(a: Area, start: Sys, d: Disk, history: seq<Entry>, floor: nat, made: nat, k: nat)
    requires Formatted(a, d) && GoodHeader(a, d)
  {
    && floor <= k <= made <= |history|
    && SameHome(a, Recovered(a, d), Replay(start.disk, history[..k]))
    && forall i, j :: 0 <= i < k <= j < made ==> history[i].op != history[j].op
  }

  lemma {:induction false} ExplainedRecovers(a: Area, start: Sys, d: Disk, history: seq<Entry>, floor: nat)
    returns (made: nat, k: nat)
    requires Initial(a, start) && Explained(a, start, d, history, floor)
    ensures Formatted(a, d) && GoodHeader(a, d) && RecoversWhole(a, start, d, history, floor, made, k)
  {
    var events, t :| Reachable(a, start, events, t) && Fits(t, d, history, floor);
    hide Initial, Reachable, Recovered, GoodHeader, Replay, SameHome;
    EveryCrashIsAtomic(a, start, events, t);
    made, k := |t.history|, t.durable;
    assert t.history[..k] == history[..k];
  }

  lemma {:induction false} LongerHistory(a: Area, start: Sys, states: seq<Disk>, h: seq<Entry>, more: seq<Entry>,
                                         floors: seq<nat>)
    requires Initial(a, start) && AllExplained(a, start, states, h, floors) && h <= more
    ensures AllExplained(a, start, states, more, floors)
  {
    hide Initial, Reachable;
    forall j | 0 <= j < |states| ensures Explained(a, start, states[j], more, floors[j]) {
      var events, t :| Reachable(a, start, events, t) && Fits(t, states[j], h, floors[j]);
      assert Fits(t, states[j], more, floors[j]);
    }
  }

  /** The writes of a commit are explained. */
  lemma {:induction false} CommitExplained(a: Area, start: Sys, events: seq<Event>, s: Sys, view: Disk,
                                           states: seq<Disk>, floors: seq<nat>)
    returns (more: seq<Event>, t: Sys)
    requires Initial(a, start) && Reachable(a, start, events, s) && s.phase.Commit? && s.phase == Commit(0, s.disk)
    requires s.blocks != [] && AllExplained(a, start, states, s.history, floors) && SameHome(a, s.view, view)
    ensures Formatted(a, s.disk) && |view| == |s.disk| && Loggable(a, |s.disk|, s.blocks)
    ensures var trace := CommitTrace(a, s.disk, view, s.blocks);
            AllExplained(a, start, states + trace, s.history, floors + Same(|trace|, s.durable))
    ensures Reachable(a, start, more, t) && Inv(a, t) && t.phase.Running? && t.blocks == [] && t.active == s.active
    ensures t.disk == Committing(a, s.disk, view, s.blocks, 2 * |s.blocks| + 2)
    ensures t.view == s.view && t.history == s.history && t.durable == |t.history| && t.begun == s.begun
    ensures s.durable <= |s.history|
  {
    hide Inv, Reachable, Initial, Committing, CommitTrace, SameHome, Loggable, Content;
    var n := |s.blocks|;
    var before, u := CommitRun(a, start, events, s, 2 * n + 2);
    ViewSize(a, s, view);
    SameCommit(a, s.disk, s.view, view, s.blocks, 2 * n + 2);
    CommitFinish(a, start, before, u);
    Extend(a, start, before, u, Finish);
    more, t := before + [Finish], Step(a, u, Finish);
    var trace := CommitTrace(a, s.disk, view, s.blocks);
    CommitTraceAt(a, s.disk, view, s.blocks, 0);
    forall j | 0 <= j < |trace| ensures Explained(a, start, trace[j], s.history, s.durable) {
      CommitTraceAt(a, s.disk, view, s.blocks, j);
      var evs, v := CommitRun(a, start, events, s, j + 1);
      SameCommit(a, s.disk, s.view, view, s.blocks, j + 1);
      assert Fits(v, trace[j], s.history, s.durable);
    }
  }

  lemma {:induction false} ViewSize(a: Area, s: Sys, view: Disk)
    requires Inv(a, s) && SameHome(a, s.view, view)
    ensures |s.view| == |view| == |s.disk| && Formatted(a, s.disk) && s.durable <= |s.history|
  {}

  lemma {:induction false} CommitFinish(a: Area, start: Sys, events: seq<Event>, s: Sys)
    requires Initial(a, start) && Reachable(a, start, events, s) && s.phase.Commit? && s.blocks != []
    requires s.phase.k == 2 * |s.blocks| + 2
    ensures Inv(a, s) && Enabled(a, s, Finish) && Step(a, s, Finish).durable == |s.history|
  {
    hide Inv, Content, Reachable;
    ReachedInv(a, start, events, s);
    FinishedIsDurable(a, start.disk, s);
  }

  /** Recovery after a crash: its writes are explained, too, and what was durable is there. */
  lemma {:induction false} RecoveryExplained(a: Area, start: Sys, events: seq<Event>, s: Sys)
    returns (more: seq<Event>, t: Sys)
    requires Initial(a, start) && Reachable(a, start, events, s)
    ensures Formatted(a, s.disk) && GoodHeader(a, s.disk) && s.durable <= |s.history|
    ensures var trace := RecoverTrace(a, s.disk);
            AllExplained(a, start, trace, s.history[..s.durable], Same(|trace|, s.durable))
    ensures Reachable(a, start, more, t) && Inv(a, t) && t.phase.Running? && t.blocks == [] && t.active == []
    ensures t.disk == t.view == Recovered(a, s.disk)
    ensures t.history == s.history[..s.durable] && t.durable == |t.history| && t.begun == s.begun
  {
    hide Reachable, Initial, Recovering, RecoverTrace, SameHome, Loggable, Content, LogInv, OpsInv, GoodHeader;
    ReachedInv(a, start, events, s);
    Extend(a, start, events, s, Crash);
    var c := Step(a, s, Crash);
    var n := s.disk[a.start][0];
    var before, u := RecoverRun(a, start, events + [Crash], c, n + 1);
    Extend(a, start, before, u, Finish);
    more, t := before + [Finish], Step(a, u, Finish);
    var trace := RecoverTrace(a, s.disk);
    RecoverTraceAt(a, s.disk, 0);
    forall j | 0 <= j < |trace| ensures Explained(a, start, trace[j], c.history, s.durable) {
      RecoverTraceAt(a, s.disk, j);
      var evs, v := RecoverRun(a, start, events + [Crash], c, j + 1);
      assert Fits(v, trace[j], c.history, s.durable);
    }
  }

  // ----- the C functions -----

  ghost predicate Rising(floors: seq<nat>, top: nat) {
    && (forall j :: 0 <= j < |floors| ==> floors[j] <= top)
    && forall i, j :: 0 <= i < j < |floors| ==> floors[i] <= floors[j]
  }

  /** The log with its cache, since the machine was switched on.  `sys` is the state of the protocol it is in, reached
      from `start`, the file system's first state, by `events`. */
  class LoggedDisk {
    const log: Log
    ghost const start: Sys
    ghost var sys: Sys
    ghost var events: seq<Event>
    ghost var floors: seq<nat>     // what was durable when each disk was written

    ghost predicate Reached()
      reads this
    {
      Initial(log.area, start) && Reachable(log.area, start, events, sys) && Inv(log.area, sys)
    }

    /** Nobody is in the middle of log_write or commit. */
    ghost predicate Coupled(s: Sys)
      reads log, log.block, log.cache, log.cache.buf
    {
      && log.Valid() && log.Quiet() && !log.committing && s.phase.Running?
      && log.outstanding == |s.active| && log.Blocks() == s.blocks
      && log.cache.disk == s.disk && SameHome(log.area, s.view, log.cache.view)
    }

    /** Every disk since then is one of the protocol's. */
    ghost predicate Traced()
      requires Reached()
      reads this, log, log.cache
    {
      AllExplained(log.area, start, log.cache.states, sys.history, floors) && Rising(floors, sys.durable)
    }

    ghost predicate Valid()
      reads this, log, log.block, log.cache, log.cache.buf
    {
      Reached() && Coupled(sys) && Traced()
    }

    /** Switching on, after a crash at any moment of any run: initlog recovers what was durable. */
    constructor (disk: Disk, area: Area, ghost start: Sys, ghost events: seq<Event>, ghost s: Sys)
      requires Initial(area, start) && Reachable(area, start, events, s) && s.disk == disk
      ensures Valid() && log.area == area && this.start == start
      ensures fresh(log) && fresh(log.block) && fresh(log.cache) && fresh(log.cache.buf)
      ensures s.durable <= |s.history| && sys.history == s.history[..s.durable] && sys.durable == |sys.history|
      ensures sys.active == [] && sys.begun == s.begun && log.cache.held == multiset{}
    {
      hide Reachable, Initial, Recovered, RecoverTrace, SameHome, Loggable, Inv, Bcache.Valid, GoodHeader, AllExplained;
      ghost var more, t := RecoveryExplained(area, start, events, s);
      var cache := new Bcache(disk);
      var l := new Log(cache, area);
      l.RecoverFromLog();
      log, this.start, sys, this.events := l, start, t, more;
      new;
      assert cache.states == [] + RecoverTrace(area, disk) == RecoverTrace(area, disk);
      floors := Same(|cache.states|, s.durable);
      SameHomeItself(area, t.view);
      assert log.Blocks() == [];
    }

    /** begin_op; false when the caller has to wait. */
    method Begin(ghost op: nat) returns (begun: bool)
      requires Valid() && op !in sys.begun
      modifies this`sys, this`events, log`outstanding
      ensures Valid()
      ensures begun <==> AlwaysFits(old(sys.blocks), |old(sys.active)| + 1)
      ensures begun ==> Enabled(log.area, old(sys), BeginOp(op)) && sys == Step(log.area, old(sys), BeginOp(op))
      ensures !begun ==> sys == old(sys)
    {
      hide Reachable, Initial, SameHome, Inv, Bcache.Valid, Loggable, AllExplained, AlwaysFits;
      RoomExactly(sys.blocks, |sys.active|);
      begun := log.BeginOp();
      if begun {
        Extend(log.area, start, events, sys, BeginOp(op));
        sys, events := Step(log.area, sys, BeginOp(op)), events + [BeginOp(op)];
      }
    }

    /** The typical use of log_write: read the block, change it, log it, release it.  False stands for bread's panic. */
    method Write(ghost i: nat, x: nat, data: Block) returns (ok: bool)
      requires Valid() && Enabled(log.area, sys, LogWrite(i, x, data))
      modifies this`sys, this`events, log`n, log.block, log.cache, log.cache.buf
      ensures Valid() && log.cache.held == old(log.cache.held) && log.cache.HoldersKept()
      ensures ok <==> x in BusyBlocks(old(log.cache.dirty), old(log.cache.held)) || old(log.Room())
      ensures ok ==> sys == Step(log.area, old(sys), LogWrite(i, x, data))
      ensures ok ==> log.cache.view == old(log.cache.view)[x := data]
      ensures !ok ==> sys == old(sys) && log.cache.view == old(log.cache.view)
      ensures log.cache.disk == old(log.cache.disk) && log.cache.states == old(log.cache.states)
    {
      hide Reachable, Initial, SameHome, Inv, Bcache.Valid, Bcache.Holding, Loggable, AllExplained, BusyBlocks, Absorb,
           Bcache.HoldersKept, Rising;
      LogWriteHasRoom(log.area, sys, i, x, data);
      LogWritten(log.area, sys, i, x, data, log.cache.view, log.cache.dirty);
      ok := Update(log, x, data);
      if ok {
        Logged(i, x, data);
      }
    }

    ghost method Logged(i: nat, x: nat, data: Block)
      requires Reached() && Traced() && Enabled(log.area, sys, LogWrite(i, x, data))
      requires Coupled(Step(log.area, sys, LogWrite(i, x, data)))
      modifies this`sys, this`events
      ensures Valid() && sys == Step(log.area, old(sys), LogWrite(i, x, data))
    {
      hide Reachable, Initial, SameHome, Inv, Bcache.Valid, Loggable, AllExplained, Absorb, Rising, LoggedDisk.Coupled;
      ghost var s := sys;
      Extend(log.area, start, events, s, LogWrite(i, x, data));
      sys, events := Step(log.area, s, LogWrite(i, x, data)), events + [LogWrite(i, x, data)];
      LongerHistory(log.area, start, log.cache.states, s.history, sys.history, floors);
    }

    /** end_op.  The last operation commits; then all that was written is durable, and every disk on the way is one of
        the protocol's.  False stands for commit's panic: nothing has been written, and the machine stops. */
    method End(ghost i: nat) returns (ok: bool)
      requires Valid() && i < |sys.active|
      modifies this`sys, this`events, this`floors, log`n, log`outstanding, log`committing, log.cache, log.cache.buf
      ensures Reached() && Traced() && sys.history == old(sys.history) && sys.begun == old(sys.begun)
      ensures log.cache.held == old(log.cache.held) && log.cache.HoldersKept()
      ensures SameHome(log.area, old(log.cache.view), log.cache.view)
      ensures ok <==> |old(sys.active)| > 1 || old(sys.blocks) == [] || old(log.Room())
      ensures ok ==> Valid() && sys.active == old(sys.active)[..i] + old(sys.active)[i + 1..]
      ensures ok && |old(sys.active)| == 1 ==> sys.durable == |sys.history| && sys.blocks == []
      ensures ok && |old(sys.active)| > 1 ==> sys.durable == old(sys.durable) && sys.blocks == old(sys.blocks)
      ensures !ok ==> log.cache.disk == old(log.cache.disk) && log.cache.states == old(log.cache.states)
      ensures old(floors) <= floors && forall j :: |old(floors)| <= j < |floors| ==> floors[j] == old(sys.durable)
    {
      hide Reachable, Initial, SameHome, Inv, Bcache.Valid, Loggable, AllExplained, BusyBlocks, CommitTrace, Committing,
           Rising, Bcache.HoldersKept;
      ghost var s, view, states := sys, log.cache.view, log.cache.states;
      Extend(log.area, start, events, s, EndOp(i));
      ghost var t, evs := Step(log.area, s, EndOp(i)), events + [EndOp(i)];
      HeaderEmpty(log.area, s);
      var committed;
      committed, ok := log.EndOp();
      sys, events := t, evs;
      SameHomeThrough(log.area, s.view, view, log.cache.view);
      assert states + [] == states;
      if committed && ok {
        events, sys, floors := Committed(log.area, start, evs, t, view, states, floors);
      }
    }
  }

  // ----- a whole system call -----

  datatype Put = Put(block: nat, data: Block)

  datatype Outcome = Waits | Panics | Done

  function Applied(view: Disk, puts: seq<Put>): (r: Disk)
    requires forall k :: 0 <= k < |puts| ==> puts[k].block < |view|
    ensures |r| == |view|
  {
    if puts == [] then view
    else Applied(view, puts[..|puts| - 1])[puts[|puts| - 1].block := puts[|puts| - 1].data]
  }

  function Entries(op: nat, puts: seq<Put>): (r: seq<Entry>)
    ensures |r| == |puts|
  {
    seq(|puts|, k requires 0 <= k < |puts| => Entry(op, puts[k].block, puts[k].data))
  }

  lemma {:induction false} OneMore(view: Disk, puts: seq<Put>, op: nat, k: nat)
    requires k < |puts| && forall j :: 0 <= j < |puts| ==> puts[j].block < |view|
    ensures Applied(view, puts[..k + 1]) == Applied(view, puts[..k])[puts[k].block := puts[k].data]
    ensures Entries(op, puts[..k + 1]) == Entries(op, puts[..k]) + [Entry(op, puts[k].block, puts[k].data)]
  {
    assert puts[..k + 1][..k] == puts[..k];
  }

  /** A system call between begin_op and end_op, within its reservation.  When it is done, readers see its writes, in
      order; alone, it is durable by then. */
  method Transact(d: LoggedDisk, ghost op: nat, puts: seq<Put>) returns (r: Outcome)
    requires d.Valid() && op !in d.sys.begun && |puts| <= MAXOPBLOCKS
    requires forall k :: 0 <= k < |puts| ==> puts[k].block < |d.log.cache.disk| && !d.log.area.Has(puts[k].block)
    modifies d`sys, d`events, d`floors
    modifies d.log`n, d.log`outstanding, d.log`committing, d.log.block, d.log.cache, d.log.cache.buf
    ensures d.Reached() && d.Traced()
    ensures r == Waits <==> !AlwaysFits(old(d.sys.blocks), |old(d.sys.active)| + 1)
    ensures r != Panics ==> d.Valid() && d.sys.active == old(d.sys.active)
    ensures r == Waits ==> d.sys == old(d.sys)
    ensures r == Done ==> d.sys.history == old(d.sys.history) + Entries(op, puts)
    ensures r == Done && old(d.sys.active) == [] ==> d.sys.durable == |d.sys.history|
    ensures old(d.floors) <= d.floors && forall j :: |old(d.floors)| <= j < |d.floors| ==>
              d.floors[j] >= old(d.sys.durable)
    ensures r == Done ==> |old(d.log.cache.view)| == |old(d.log.cache.disk)|
                          && SameHome(d.log.area, Applied(old(d.log.cache.view), puts), d.log.cache.view)
  {
    hide Log.Valid, Log.Quiet, Reachable, Initial, Inv, AllExplained, Applied, Entries, SameHome, Loggable,
         AlwaysFits;
    ghost var view, history, others := d.log.cache.view, d.sys.history, d.sys.active;
    ViewSized(d);
    NonePut(view, history, op, puts);
    var begun := d.Begin(op);
    if !begun {
      return Waits;
    }
    var k := 0;
    while k < |puts|
      invariant 0 <= k <= |puts| && d.Valid() && d.sys.active == others + [Active(op, k)]
      invariant |d.sys.disk| == |view| && d.log.cache.view == Applied(view, puts[..k])
      invariant d.sys.history == history + Entries(op, puts[..k])
      invariant d.floors == old(d.floors) && d.sys.durable == old(d.sys.durable)
    {
      OneMore(view, puts, op, k);
      var ok := d.Write(|others|, puts[k].block, puts[k].data);
      if !ok {
        return Panics;
      }
      k := k + 1;
    }
    assert puts[..|puts|] == puts;
    var ok := d.End(|others|);
    r := if ok then Done else Panics;
  }

  lemma {:induction false} ViewSized(d: LoggedDisk)
    requires d.Valid()
    ensures |d.log.cache.view| == |d.log.cache.disk| == |d.sys.disk|
  {}

  lemma {:induction false} NonePut(view: Disk, history: seq<Entry>, op: nat, puts: seq<Put>)
    requires forall k :: 0 <= k < |puts| ==> puts[k].block < |view|
    ensures Applied(view, puts[..0]) == view && history + Entries(op, puts[..0]) == history
  {}

  /** Pull the plug at any moment: recovery from that disk gives a beginning of the history that cuts through no
      operation. */
  lemma {:induction false} EveryDiskRecovers(d: LoggedDisk, j: nat) returns (made: nat, k: nat)
    requires d.Reached() && d.Traced() && j < |d.log.cache.states|
    ensures j < |d.floors|
    ensures var disk := d.log.cache.states[j];
            && Formatted(d.log.area, disk) && GoodHeader(d.log.area, disk)
            && RecoversWhole(d.log.area, d.start, disk, d.sys.history, d.floors[j], made, k)
  {
    made, k := ExplainedRecovers(d.log.area, d.start, d.log.cache.states[j], d.sys.history, d.floors[j]);
  }

  /** bp = bread(..); modify bp->data[]; log_write(bp); brelse(bp), with room in the log. */
  method Update(log: Log, x: nat, data: Block) returns (ok: bool)
    requires log.Valid() && x < |log.cache.disk| && log.n < LOGSIZE && log.n < log.area.size - 1 && log.outstanding >= 1
    modifies log`n, log.block, log.cache, log.cache.buf
    ensures log.Valid() && log.cache.held == old(log.cache.held) && log.cache.HoldersKept()
    ensures ok <==> x in BusyBlocks(old(log.cache.dirty), old(log.cache.held)) || old(log.Room())
    ensures log.Blocks() == if ok then Absorb(old(log.Blocks()), x) else old(log.Blocks())
    ensures log.cache.dirty == if ok then old(log.cache.dirty) + {x} else old(log.cache.dirty)
    ensures log.cache.view == if ok then old(log.cache.view)[x := data] else old(log.cache.view)
    ensures log.cache.disk == old(log.cache.disk) && log.cache.states == old(log.cache.states)
  {
    hide Ring, Coherent, Bcache.Valid, Bcache.Holding, BusyBlocks, Absorb;
    ghost var held := log.cache.held;
    var b;
    b, ok := log.cache.Bread(x);
    if !ok {
      return;
    }
    log.cache.Fill(b, x, data);
    var ok1 := log.LogWrite(b, x);
    log.cache.Brelse(b, x);
    assert log.cache.held == held;
  }

  lemma {:induction false} LogWritten(a: Area, s: Sys, i: nat, x: nat, data: Block, view: Disk, dirty: set<nat>)
    requires Inv(a, s) && Enabled(a, s, LogWrite(i, x, data))
    requires SameHome(a, s.view, view) && dirty == SetOf(s.blocks)
    ensures x < |s.view| == |view| == |s.disk|
    ensures SameHome(a, s.view[x := data], view[x := data])
    ensures dirty + {x} == SetOf(Absorb(s.blocks, x)) && Loggable(a, |s.disk|, Absorb(s.blocks, x))
  {
    LogWriteKeepsLog(a, s, i, x, data);
  }

  lemma {:induction false} SameHomeThrough(a: Area, u: Disk, v: Disk, w: Disk)
    requires SameHome(a, u, v) && SameHome(a, v, w)
    ensures SameHome(a, u, w)
  {}

  lemma {:induction false} HeaderEmpty(a: Area, s: Sys)
    requires Inv(a, s) && s.phase.Running?
    ensures Formatted(a, s.disk) && s.disk[a.start][0] == 0 && |s.view| == |s.disk|
    ensures s.blocks == [] ==> s.durable == |s.history|
  {}

  /** What a commit does to the protocol, also when nothing is logged. */
  lemma {:induction false} Committed(a: Area, start: Sys, events: seq<Event>, s: Sys, view: Disk, states: seq<Disk>,
                                     floors: seq<nat>)
    returns (more: seq<Event>, t: Sys, tops: seq<nat>)
    requires Initial(a, start) && Reachable(a, start, events, s) && s.phase.Commit? && s.phase == Commit(0, s.disk)
    requires AllExplained(a, start, states, s.history, floors) && SameHome(a, s.view, view) && Rising(floors, s.durable)
    ensures Formatted(a, s.disk) && |view| == |s.disk| && Loggable(a, |s.disk|, s.blocks)
    ensures Reachable(a, start, more, t) && Inv(a, t) && t.phase.Running? && t.blocks == [] && t.active == s.active
    ensures if s.blocks == [] then t.disk == s.disk
            else t.disk == Committing(a, s.disk, view, s.blocks, 2 * |s.blocks| + 2)
    ensures var trace := if s.blocks == [] then [] else CommitTrace(a, s.disk, view, s.blocks);
            AllExplained(a, start, states + trace, s.history, tops) && Rising(tops, t.durable)
    ensures floors <= tops && forall j :: |floors| <= j < |tops| ==> tops[j] == s.durable
    ensures t.view == s.view && t.history == s.history && t.durable == |t.history| && t.begun == s.begun
  {
    hide Inv, Reachable, Initial, Committing, CommitTrace, SameHome, Loggable, AllExplained;
    if s.blocks == [] {
      NothingToCommit(a, start, events, s, view);
      Extend(a, start, events, s, Finish);
      more, t, tops := events + [Finish], Step(a, s, Finish), floors;
      assert states + [] == states;
    } else {
      more, t := CommitExplained(a, start, events, s, view, states, floors);
      tops := floors + Same(|CommitTrace(a, s.disk, view, s.blocks)|, s.durable);
    }
  }

  lemma {:induction false} NothingToCommit(a: Area, start: Sys, events: seq<Event>, s: Sys, view: Disk)
    requires Initial(a, start) && Reachable(a, start, events, s) && s.phase.Commit? && s.phase.k == 0
    requires s.blocks == [] && SameHome(a, s.view, view)
    ensures Inv(a, s) && Enabled(a, s, Finish) && s.durable == |s.history|
    ensures Formatted(a, s.disk) && |view| == |s.disk| && Loggable(a, |s.disk|, s.blocks)
  {
    hide Content, Reachable;
    ReachedInv(a, start, events, s);
  }
}
