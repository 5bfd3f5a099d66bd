/** A sleep lock (sleeplock.c) over sleep and wakeup (proc.c), with spinlocks `lk` and `pt`. */
module SleepLock {

  /** Where a process is.  Behind each name: what it does next. */
  datatype Pc =
    | Idle          // acquiresleep: acquire lk
    | Testing       // while (lk->locked)
    | Sleep1        // sleep: acquire ptable.lock
    | Sleep2        // release lk
    | Sleep3        // set chan and SLEEPING, hand ptable.lock to the scheduler
    | Asleep        // be scheduled again, when RUNNABLE
    | Woken         // clear chan, release ptable.lock
    | Again         // acquire lk
    | Taken         // release lk
    | Inside        // releasesleep: acquire lk
    | Clearing      // locked = 0
    | Owing         // wakeup: acquire ptable.lock
    | Waking        // wakeup1: make all sleepers RUNNABLE
    | Woke          // release ptable.lock
    | Leaving       // release lk

  /** `sleeping` is state == SLEEPING with chan the lock; a process that is Asleep and not sleeping is RUNNABLE. */
  datatype Proc = Proc(pc: Pc, sleeping: bool)

  /** Lock holders are process numbers, -1 for nobody; a process's pid is its number plus one. */
  datatype Sys = Sys(procs: seq<Proc>, lk: int, pt: int, locked: bool, pid: int)

  predicate HoldsLk(pc: Pc) {
    pc in {Testing, Sleep1, Sleep2, Taken, Clearing, Owing, Waking, Woke, Leaving}
  }

  predicate HoldsPt(pc: Pc) {
    pc in {Sleep2, Sleep3, Woken, Waking, Woke}
  }

  /** Between acquiresleep and releasesleep. */
  predicate Owner(pc: Pc) {
    pc in {Taken, Inside, Clearing}
  }

  /** Has cleared the lock and not yet woken the sleepers. */
  predicate OwesWakeup(pc: Pc) {
    pc in {Owing, Waking}
  }

  function At(s: Sys, p: nat, pc: Pc): seq<Proc>
    requires p < |s.procs|
  {
    s.procs[p := s.procs[p].(pc := pc)]
  }

  // ----- steps -----

  /** Process p can take its next step: the lock it needs is free, or it has been made RUNNABLE. */
  predicate Enabled(s: Sys, p: nat) {
    p < |s.procs| &&
    match s.procs[p].pc
    case Idle => s.lk == -1
    case Again => s.lk == -1
    case Inside => s.lk == -1
    case Sleep1 => s.pt == -1
    case Owing => s.pt == -1
    case Asleep => !s.procs[p].sleeping && s.pt == -1
    case _ => true
  }

  function AllAwake(procs: seq<Proc>): seq<Proc> {
    seq(|procs|, i requires 0 <= i < |procs| => procs[i].(sleeping := false))
  }

  function Act(s: Sys, p: nat): Sys
    requires Enabled(s, p)
  {
    match s.procs[p].pc
    case Idle => s.(procs := At(s, p, Testing), lk := p)
    case Testing =>
      if s.locked then s.(procs := At(s, p, Sleep1))
      else s.(procs := At(s, p, Taken), locked := true, pid := p + 1)
    case Sleep1 => s.(procs := At(s, p, Sleep2), pt := p)
    case Sleep2 => s.(procs := At(s, p, Sleep3), lk := -1)
    case Sleep3 => s.(procs := s.procs[p := Proc(Asleep, true)], pt := -1)
    case Asleep => s.(procs := At(s, p, Woken), pt := p)
    case Woken => s.(procs := At(s, p, Again), pt := -1)
    case Again => s.(procs := At(s, p, Testing), lk := p)
    case Taken => s.(procs := At(s, p, Inside), lk := -1)
    case Inside => s.(procs := At(s, p, Clearing), lk := p)
    case Clearing => s.(procs := At(s, p, Owing), locked := false, pid := 0)
    case Owing => s.(procs := At(s, p, Waking), pt := p)
    case Waking => s.(procs := AllAwake(At(s, p, Woke)))
    case Woke => s.(procs := At(s, p, Leaving), pt := -1)
    case Leaving => s.(procs := At(s, p, Idle), lk := -1)
  }

  /** kill() makes a sleeper RUNNABLE although nobody woke it. */
  function Kill(s: Sys, p: nat): Sys
    requires p < |s.procs| && s.pt == -1
  {
    s.(procs := s.procs[p := s.procs[p].(sleeping := false)])
  }

  datatype Event = Moves(p: nat) | Killed(p: nat)

  predicate CanStep(s: Sys, e: Event) {
    match e
    case Moves(p) => Enabled(s, p)
    case Killed(p) => p < |s.procs| && s.pt == -1
  }

  function Step(s: Sys, e: Event): Sys
    requires CanStep(s, e)
  {
    match e
    case Moves(p) => Act(s, p)
    case Killed(p) => Kill(s, p)
  }

  /** A run of the system. */
  predicate Leads(s: Sys, events: seq<Event>, t: Sys)
    decreases |events|
  {
    if events == [] then s == t else CanStep(s, events[0]) && Leads(Step(s, events[0]), events[1..], t)
  }

  function Initial(n: nat): Sys {
    Sys(seq(n, i => Proc(Idle, false)), -1, -1, false, 0)
  }

  // ----- what every step keeps -----

  /** Who holds what. */
  ghost predicate LocksOk(s: Sys, p: nat)
    requires p < |s.procs|
  {
    && (HoldsLk(s.procs[p].pc) <==> s.lk == p)
    && (HoldsPt(s.procs[p].pc) <==> s.pt == p)
    && (Owner(s.procs[p].pc) ==> s.locked && s.pid == p + 1)
    && (s.procs[p].sleeping ==> s.procs[p].pc == Asleep)
    && (s.procs[p].pc in {Sleep1, Sleep2} ==> s.locked)
  }

  ghost predicate SomeOwner(s: Sys) {
    exists p :: 0 <= p < |s.procs| && Owner(s.procs[p].pc)
  }

  ghost predicate WakeupDue(s: Sys) {
    exists p :: 0 <= p < |s.procs| && OwesWakeup(s.procs[p].pc)
  }

  /** A process that sleeps, or is about to, has somebody who will wake it: an owner, or one who owes the wakeup. */
  ghost predicate WillBeWoken(s: Sys, p: nat)
    requires p < |s.procs|
  {
    s.procs[p].sleeping || s.procs[p].pc == Sleep3 ==> s.locked || WakeupDue(s)
  }

  ghost predicate Inv(s: Sys) {
    && -1 <= s.lk < |s.procs| && -1 <= s.pt < |s.procs|
    && (forall p :: 0 <= p < |s.procs| ==> LocksOk(s, p))
    && (forall p :: 0 <= p < |s.procs| ==> WillBeWoken(s, p))
    && (s.locked ==> SomeOwner(s))
  }

  /** At most one process is between acquiresleep and releasesleep. */
  lemma {:induction false} MutualExclusion(s: Sys, p: nat, q: nat)
    requires Inv(s) && p < |s.procs| && q < |s.procs| && Owner(s.procs[p].pc) && Owner(s.procs[q].pc)
    ensures p == q
  {
    assert LocksOk(s, p) && LocksOk(s, q);
  }

  /** No wakeup is lost: somebody sleeping on the lock means that it is locked, by somebody who will come to wake the
      sleepers, or that a releaser still owes its wakeup. */
  lemma {:induction false} NoLostWakeup(s: Sys, p: nat)
    requires Inv(s) && p < |s.procs| && s.procs[p].sleeping
    ensures (s.locked && SomeOwner(s)) || WakeupDue(s)
  {
    assert WillBeWoken(s, p);
  }

  lemma {:induction false} StepKeeps(s: Sys, e: Event)
    requires Inv(s) && CanStep(s, e)
    ensures Inv(Step(s, e))
  {
    match e
    case Moves(p) => ActKeeps(s, p);
    case Killed(p) => KillKeeps(s, p);
  }

  lemma {:induction false} KillKeeps(s: Sys, p: nat)
    requires Inv(s) && p < |s.procs| && s.pt == -1
    ensures Inv(Kill(s, p))
  {
    var t := Kill(s, p);
    assert forall q :: 0 <= q < |s.procs| ==> t.procs[q].pc == s.procs[q].pc;
    SamePlaces(s, t);
    forall q | 0 <= q < |t.procs| ensures LocksOk(t, q) && WillBeWoken(t, q) {
      assert LocksOk(s, q) && WillBeWoken(s, q);
    }
  }

  lemma {:induction false} SamePlaces(s: Sys, t: Sys)
    requires |s.procs| == |t.procs| && forall q :: 0 <= q < |s.procs| ==> t.procs[q].pc == s.procs[q].pc
    ensures SomeOwner(s) ==> SomeOwner(t)
    ensures WakeupDue(s) ==> WakeupDue(t)
  {
    if SomeOwner(s) {
      var q :| 0 <= q < |s.procs| && Owner(s.procs[q].pc);
      assert Owner(t.procs[q].pc);
    }
    if WakeupDue(s) {
      var q :| 0 <= q < |s.procs| && OwesWakeup(s.procs[q].pc);
      assert OwesWakeup(t.procs[q].pc);
    }
  }

  lemma {:induction false} ActKeeps(s: Sys, p: nat)
    requires Inv(s) && Enabled(s, p)
    ensures Inv(Act(s, p))
  {
    var t := Act(s, p);
    assert LocksOk(s, p) && WillBeWoken(s, p);
    hide Inv;
    forall q | 0 <= q < |s.procs| ensures LocksOk(t, q) {
      InvAt(s, q);
      LocksKept(s, p, q);
    }
    OwnersKept(s, p);
    forall q | 0 <= q < |s.procs| ensures WillBeWoken(t, q) {
      InvAt(s, q);
      WokenKept(s, p, q);
    }
    assert Inv(t) by {
      InvBounds(s);
      IsInv(t);
    }
  }

  lemma {:induction false} InvAt(s: Sys, q: nat)
    requires Inv(s) && q < |s.procs|
    ensures LocksOk(s, q) && WillBeWoken(s, q)
  {}

  lemma {:induction false} InvBounds(s: Sys)
    requires Inv(s)
    ensures -1 <= s.lk < |s.procs| && -1 <= s.pt < |s.procs|
  {}

  lemma {:induction false} IsInv(t: Sys)
    requires -1 <= t.lk < |t.procs| && -1 <= t.pt < |t.procs| && (t.locked ==> SomeOwner(t))
    requires forall p :: 0 <= p < |t.procs| ==> LocksOk(t, p)
    requires forall p :: 0 <= p < |t.procs| ==> WillBeWoken(t, p)
    ensures Inv(t)
  {}

  /** The spinlocks exclude each other's holders, and the sleep lock its owners. */
  lemma {:induction false} LocksKept(s: Sys, p: nat, q: nat)
    requires Enabled(s, p) && q < |s.procs| && LocksOk(s, p) && LocksOk(s, q)
    requires s.lk < |s.procs| && s.pt < |s.procs|
    ensures LocksOk(Act(s, p), q)
  {}

  lemma {:induction false} OwnersKept(s: Sys, p: nat)
    requires Enabled(s, p) && (s.locked ==> SomeOwner(s))
    ensures Act(s, p).locked ==> SomeOwner(Act(s, p))
  {
    var t := Act(s, p);
    if t.locked {
      if Owner(t.procs[p].pc) {
      } else {
        var q :| 0 <= q < |s.procs| && Owner(s.procs[q].pc);
        assert Owner(t.procs[q].pc);
      }
    }
  }

  lemma {:induction false} WokenKept(s: Sys, p: nat, q: nat)
    requires Enabled(s, p) && q < |s.procs| && LocksOk(s, p) && LocksOk(s, q) && WillBeWoken(s, q)
    ensures WillBeWoken(Act(s, p), q)
  {
    var t := Act(s, p);
    if OwesWakeup(t.procs[p].pc) {
      assert WakeupDue(t);
    } else if WakeupDue(s) && s.procs[p].pc != Waking {
      var r :| 0 <= r < |s.procs| && OwesWakeup(s.procs[r].pc);
      assert OwesWakeup(t.procs[r].pc);
    }
  }

  lemma {:induction false} RunKeeps(s: Sys, events: seq<Event>, t: Sys)
    requires Inv(s) && Leads(s, events, t)
    ensures Inv(t)
    decreases |events|
  {
    if events != [] {
      StepKeeps(s, events[0]);
      RunKeeps(Step(s, events[0]), events[1..], t);
    }
  }

  /** Every run from the start, in any interleaving, excludes a second owner and loses no wakeup. */
  lemma {:induction false} EveryRunIsSafe(n: nat, events: seq<Event>, t: Sys)
    requires Leads(Initial(n), events, t)
    ensures Inv(t)
    ensures forall p, q :: 0 <= p < |t.procs| && 0 <= q < |t.procs| && Owner(t.procs[p].pc) && Owner(t.procs[q].pc) ==>
              p == q
    ensures forall p :: 0 <= p < |t.procs| && t.procs[p].sleeping ==> (t.locked && SomeOwner(t)) || WakeupDue(t)
  {
    RunKeeps(Initial(n), events, t);
    forall p, q | 0 <= p < |t.procs| && 0 <= q < |t.procs| && Owner(t.procs[p].pc) && Owner(t.procs[q].pc)
      ensures p == q {
      MutualExclusion(t, p, q);
    }
    forall p | 0 <= p < |t.procs| && t.procs[p].sleeping ensures (t.locked && SomeOwner(t)) || WakeupDue(t) {
      NoLostWakeup(t, p);
    }
  }

  // ----- nobody waits for ever -----

  /** A process waits for others: it has nothing to do, is using what the lock protects, or sleeps. */
  predicate Waits(x: Proc) {
    x.pc == Idle || x.pc == Inside || x.sleeping
  }

  /** As long as some process is on its way, some process on its way can take a step: the two spinlocks never make
      their holders wait for each other. */
  lemma {:induction false} Progress(s: Sys, p: nat) returns (q: nat)
    requires Inv(s) && p < |s.procs| && !Waits(s.procs[p])
    ensures q < |s.procs| && !Waits(s.procs[q]) && Enabled(s, q)
  {
    assert LocksOk(s, p);
    if s.pt != -1 {
      q := s.pt;
    } else if s.lk != -1 {
      q := s.lk;
    } else {
      q := p;
    }
    assert LocksOk(s, q);
  }

  /** When every process waits, nobody sleeps unless somebody is using what the lock protects. */
  lemma {:induction false} NobodyForgotten(s: Sys, p: nat)
    requires Inv(s) && p < |s.procs| && s.procs[p].sleeping
    requires forall q :: 0 <= q < |s.procs| ==> Waits(s.procs[q])
    ensures exists q :: 0 <= q < |s.procs| && s.procs[q].pc == Inside
  {
    NoLostWakeup(s, p);
    forall q | 0 <= q < |s.procs| ensures !OwesWakeup(s.procs[q].pc) {
      assert LocksOk(s, q) && Waits(s.procs[q]);
    }
    var r :| 0 <= r < |s.procs| && Owner(s.procs[r].pc);
    assert LocksOk(s, r) && Waits(s.procs[r]);
  }
}
