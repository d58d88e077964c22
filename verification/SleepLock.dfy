/** Sleep locks over sleep and wakeup, one statement of the C code at a time, for any
    number of processes on any number of processors. */
module SleepLock {
  import opened Options

  /** Where a process stands. A process in acquiresleep or releasesleep is about to execute
      the statement named; one Asleep has state SLEEPING and chan == lk, one Awake is
      RUNNABLE inside sched. */
  datatype Pc =
    | Outside                                                      // has not asked for the lock
    | TestLocked | SetLocked | SetPid | LeaveAcquire               // acquiresleep, holding lk->lk
    | TakeTable | DropInner | FallAsleep                           // sleep, up to sched
    | Asleep | Awake | TidyUp | DropTable | RetakeInner            // sleep, from sched on
    | Inside                                                       // acquiresleep has returned
    | ClearLocked | ClearPid | WakeTake | WakeAll | WakeDrop | LeaveRelease   // releasesleep

  /** `inner` holds lk->lk, `table` holds ptable.lock. */
  datatype State = State(pc: seq<Pc>, inner: Option<nat>, table: Option<nat>, locked: bool, pid: Option<nat>)

  /** Go(q): process q executes its next statement. Kill(q): someone calls kill(q). */
  datatype Action = Go(q: nat) | Kill(q: nat)

  function Start(n: nat): State {
    State(seq(n, _ => Outside), None, None, false, None)
  }

  function Woken(pc: seq<Pc>): (r: seq<Pc>)
    ensures |r| == |pc| && forall q :: 0 <= q < |pc| ==> r[q] == if pc[q] == Asleep then Awake else pc[q]
  {
    seq(|pc|, q requires 0 <= q < |pc| => if pc[q] == Asleep then Awake else pc[q])
  }

  function To(s: State, q: nat, c: Pc): State
    requires q < |s.pc|
  {
    s.(pc := s.pc[q := c])
  }

  /** The statement at q's pc, or None where q has to spin or sleep. */
  function Execute(s: State, q: nat): Option<State>
    requires q < |s.pc|
  {
    match s.pc[q]
    case Outside => if s.inner.None? then Some(To(s, q, TestLocked).(inner := Some(q))) else None
    case TestLocked => Some(To(s, q, if s.locked then TakeTable else SetLocked))
    case SetLocked => Some(To(s, q, SetPid).(locked := true))
    case SetPid => Some(To(s, q, LeaveAcquire).(pid := Some(q)))
    case LeaveAcquire => Some(To(s, q, Inside).(inner := None))
    case TakeTable => if s.table.None? then Some(To(s, q, DropInner).(table := Some(q))) else None
    case DropInner => Some(To(s, q, FallAsleep).(inner := None))
    case FallAsleep => Some(To(s, q, Asleep).(table := None))
    case Asleep => None
    case Awake => if s.table.None? then Some(To(s, q, TidyUp).(table := Some(q))) else None
    case TidyUp => Some(To(s, q, DropTable))
    case DropTable => Some(To(s, q, RetakeInner).(table := None))
    case RetakeInner => if s.inner.None? then Some(To(s, q, TestLocked).(inner := Some(q))) else None
    case Inside => if s.inner.None? then Some(To(s, q, ClearLocked).(inner := Some(q))) else None
    case ClearLocked => Some(To(s, q, ClearPid).(locked := false))
    case ClearPid => Some(To(s, q, WakeTake).(pid := None))
    case WakeTake => if s.table.None? then Some(To(s, q, WakeAll).(table := Some(q))) else None
    case WakeAll => Some(To(s, q, WakeDrop).(pc := Woken(s.pc)[q := WakeDrop]))
    case WakeDrop => Some(To(s, q, LeaveRelease).(table := None))
    case LeaveRelease => Some(To(s, q, Outside).(inner := None))
  }

  function Step(s: State, a: Action): Option<State> {
    if a.q >= |s.pc| then None
    else match a
      case Go(q) => Execute(s, q)
      case Kill(q) => if s.table.Some? then None else Some(if s.pc[q] == Asleep then s.(pc := s.pc[q := Awake]) else s)
  }

  function After(n: nat, run: seq<Action>): Option<State> {
    if run == [] then Some(Start(n))
    else
      var before := After(n, run[..|run| - 1]);
      if before.None? then None else Step(before.value, run[|run| - 1])
  }

  // ----- The invariant -----

  /** Between setting and clearing lk->locked. */
  predicate Owns(c: Pc) {
    c.SetPid? || c.LeaveAcquire? || c.Inside? || c.ClearLocked?
  }

  predicate HoldsInner(c: Pc) {
    c.TestLocked? || c.SetLocked? || c.SetPid? || c.LeaveAcquire? || c.TakeTable? || c.DropInner? || c.ClearLocked? ||
    c.ClearPid? || c.WakeTake? || c.WakeAll? || c.WakeDrop? || c.LeaveRelease?
  }

  predicate HoldsTable(c: Pc) {
    c.DropInner? || c.FallAsleep? || c.TidyUp? || c.DropTable? || c.WakeAll? || c.WakeDrop?
  }

  /** Has found the lock taken and is not yet woken again. */
  predicate Committed(c: Pc) {
    c.TakeTable? || c.DropInner? || c.FallAsleep? || c.Asleep?
  }

  /** Has cleared lk->locked and not yet woken the sleepers. */
  predicate WillWake(c: Pc) {
    c.ClearPid? || c.WakeTake? || c.WakeAll?
  }

  ghost predicate AtInner(s: State, c: Pc) {
    s.inner.Some? && s.inner.value < |s.pc| && s.pc[s.inner.value] == c
  }

  /** The process between setting and clearing lk->locked. */
  ghost predicate Owner(s: State, q: nat) {
    q < |s.pc| && Owns(s.pc[q]) && if s.pc[q] == SetPid then s.inner == Some(q) else s.pid == Some(q)
  }

  ghost predicate Waking(s: State) {
    s.inner.Some? && s.inner.value < |s.pc| && WillWake(s.pc[s.inner.value])
  }

  /** The spinlocks are held by whoever stands between taking and releasing them. */
  ghost predicate Spinlocks(s: State) {
    && (s.inner.Some? ==> s.inner.value < |s.pc| && HoldsInner(s.pc[s.inner.value]))
    && (s.table.Some? ==> s.table.value < |s.pc| && HoldsTable(s.pc[s.table.value]))
    && (forall q: nat :: q < |s.pc| && HoldsInner(s.pc[q]) ==> s.inner == Some(q))
    && (forall q: nat :: q < |s.pc| && HoldsTable(s.pc[q]) ==> s.table == Some(q))
  }

  ghost predicate Owned(s: State) {
    && (forall q: nat :: q < |s.pc| && Owns(s.pc[q]) ==> s.locked && Owner(s, q))
    && (s.locked ==> AtInner(s, SetPid) || (s.pid.Some? && Owner(s, s.pid.value)))
    && (AtInner(s, SetLocked) || AtInner(s, ClearPid) ==> !s.locked)
    && (AtInner(s, SetPid) ==> s.pid.None?)
    && (!s.locked ==> s.pid.None? || AtInner(s, ClearPid))
  }

  /** Whoever is going to sleep, or asleep, will be woken: the lock is held or its last
      holder has yet to call wakeup. */
  ghost predicate NoLostWakeup(s: State) {
    forall q: nat :: q < |s.pc| && Committed(s.pc[q]) ==> s.locked || Waking(s)
  }

  ghost predicate Inv(s: State) {
    Spinlocks(s) && Owned(s) && NoLostWakeup(s)
  }

  lemma OneOwner(s: State, q: nat, r: nat)
    requires Spinlocks(s) && Owned(s) && q < |s.pc| && r < |s.pc| && Owns(s.pc[q]) && Owns(s.pc[r])
    ensures q == r
  {
  }

  predicate InAcquire(c: Pc) {
    c.TestLocked? || c.SetLocked? || c.SetPid? || c.LeaveAcquire?
  }

  predicate InSleep(c: Pc) {
    c.TakeTable? || c.DropInner? || c.FallAsleep? || c.Asleep? || c.Awake? || c.TidyUp? || c.DropTable? || c.RetakeInner?
  }

  predicate InRelease(c: Pc) {
    c.ClearLocked? || c.ClearPid? || c.WakeTake? || c.WakeAll? || c.WakeDrop? || c.LeaveRelease?
  }

  /** q takes lock l, gives it back, or leaves it alone; `before` and `after` tell whether q stands
      where one holds it. */
  predicate Handled(l: Option<nat>, l': Option<nat>, q: nat, before: bool, after: bool) {
    if after == before then l' == l else if after then l == None && l' == Some(q) else l == Some(q) && l' == None
  }

  /** A step of q, which may wake others. */
  lemma SpinlocksKept(s: State, s': State, q: nat)
    requires Spinlocks(s) && q < |s.pc| == |s'.pc|
    requires forall r: nat :: r < |s.pc| && r != q ==> s'.pc[r] == s.pc[r] || (s.pc[r] == Asleep && s'.pc[r] == Awake)
    requires Handled(s.inner, s'.inner, q, HoldsInner(s.pc[q]), HoldsInner(s'.pc[q]))
    requires Handled(s.table, s'.table, q, HoldsTable(s.pc[q]), HoldsTable(s'.pc[q]))
    ensures Spinlocks(s')
  {
  }

  lemma AcquireSpinlocks(s: State, q: nat)
    requires Spinlocks(s) && q < |s.pc| && (InAcquire(s.pc[q]) || (s.pc[q].Outside? || s.pc[q].Inside?))
    ensures Execute(s, q).Some? ==> Spinlocks(Execute(s, q).value)
  {
    if Execute(s, q).Some? {
      SpinlocksKept(s, Execute(s, q).value, q);
    }
  }

  lemma SleepSpinlocks(s: State, q: nat)
    requires Spinlocks(s) && q < |s.pc| && InSleep(s.pc[q])
    ensures Execute(s, q).Some? ==> Spinlocks(Execute(s, q).value)
  {
    if Execute(s, q).Some? {
      SpinlocksKept(s, Execute(s, q).value, q);
    }
  }

  lemma ReleaseSpinlocks(s: State, q: nat)
    requires Spinlocks(s) && q < |s.pc| && InRelease(s.pc[q])
    ensures Execute(s, q).Some? ==> Spinlocks(Execute(s, q).value)
  {
    if Execute(s, q).Some? {
      SpinlocksKept(s, Execute(s, q).value, q);
    }
  }

  lemma StepSpinlocks(s: State, a: Action)
    requires Spinlocks(s)
    ensures Step(s, a).Some? ==> Spinlocks(Step(s, a).value)
  {
    if a.Go? && a.q < |s.pc| {
      if InAcquire(s.pc[a.q]) || (s.pc[a.q].Outside? || s.pc[a.q].Inside?) {
        AcquireSpinlocks(s, a.q);
      } else if InSleep(s.pc[a.q]) {
        SleepSpinlocks(s, a.q);
      } else {
        ReleaseSpinlocks(s, a.q);
      }
    }
  }

  lemma AcquireOwned(s: State, q: nat)
    requires Spinlocks(s) && Owned(s) && q < |s.pc| && (InAcquire(s.pc[q]) || (s.pc[q].Outside? || s.pc[q].Inside?))
    ensures Execute(s, q).Some? ==> Owned(Execute(s, q).value)
  {
  }

  lemma SleepOwned(s: State, q: nat)
    requires Spinlocks(s) && Owned(s) && q < |s.pc| && InSleep(s.pc[q])
    ensures Execute(s, q).Some? ==> Owned(Execute(s, q).value)
  {
    if Execute(s, q).Some? {
      var s' := Execute(s, q).value;
      QuietOwned(s, s', q);
    }
  }

  /** A step of a process that neither owns the lock before nor after, and leaves its fields. */
  lemma QuietOwned(s: State, s': State, q: nat)
    requires Spinlocks(s) && Owned(s) && q < |s.pc| && !Owns(s.pc[q]) && |s'.pc| == |s.pc| && !Owns(s'.pc[q])
    requires s'.pc == s.pc[q := s'.pc[q]] && s'.locked == s.locked && s'.pid == s.pid
    requires s'.inner == s.inner || (s.inner == None && s'.inner == Some(q)) || (s.inner == Some(q) && s'.inner == None)
    requires !s.pc[q].SetLocked? && !s.pc[q].ClearPid? && !s'.pc[q].SetLocked? && !s'.pc[q].ClearPid?
    ensures Owned(s')
  {
  }

  lemma ReleaseOwned(s: State, q: nat)
    requires Spinlocks(s) && Owned(s) && q < |s.pc|
    requires InRelease(s.pc[q])
    ensures Execute(s, q).Some? ==> Owned(Execute(s, q).value)
  {
    forall r: nat | r < |s.pc| && Owns(s.pc[r]) && s.pc[q] == ClearLocked ensures r == q {
      OneOwner(s, q, r);
    }
  }

  lemma StepOwned(s: State, a: Action)
    requires Spinlocks(s) && Owned(s)
    ensures Step(s, a).Some? ==> Owned(Step(s, a).value)
  {
    if a.Go? && a.q < |s.pc| {
      if InAcquire(s.pc[a.q]) || (s.pc[a.q].Outside? || s.pc[a.q].Inside?) {
        AcquireOwned(s, a.q);
      } else if InSleep(s.pc[a.q]) {
        SleepOwned(s, a.q);
      } else {
        ReleaseOwned(s, a.q);
      }
    }
  }

  lemma SleepNoLostWakeup(s: State, q: nat)
    requires Inv(s) && q < |s.pc| && InSleep(s.pc[q])
    ensures Execute(s, q).Some? ==> NoLostWakeup(Execute(s, q).value)
  {
  }

  lemma OtherNoLostWakeup(s: State, q: nat)
    requires Inv(s) && q < |s.pc| && !InSleep(s.pc[q])
    ensures Execute(s, q).Some? ==> NoLostWakeup(Execute(s, q).value)
  {
  }

  lemma StepInv(s: State, a: Action)
    requires Inv(s)
    ensures Step(s, a).Some? ==> Inv(Step(s, a).value)
  {
    StepSpinlocks(s, a);
    StepOwned(s, a);
    if a.Go? && a.q < |s.pc| {
      if InSleep(s.pc[a.q]) {
        SleepNoLostWakeup(s, a.q);
      } else {
        OtherNoLostWakeup(s, a.q);
      }
    }
  }

  lemma {:induction false} AfterInv(n: nat, run: seq<Action>)
    requires After(n, run).Some?
    ensures Inv(After(n, run).value)
  {
    if run != [] {
      AfterInv(n, run[..|run| - 1]);
      StepInv(After(n, run[..|run| - 1]).value, run[|run| - 1]);
    }
  }

  // ----- Main results -----

  /** In every interleaving at most one process is between acquiresleep and releasesleep,
      and the lock records it. */
  lemma MutualExclusion(n: nat, run: seq<Action>, s: State, q: nat, r: nat)
    requires After(n, run) == Some(s)
    requires q < |s.pc| && r < |s.pc| && s.pc[q] == Inside && s.pc[r] == Inside
    ensures q == r && s.locked && s.pid == Some(q)
  {
    AfterInv(n, run);
    OneOwner(s, q, r);
  }

  /** In every interleaving, whenever the inner spinlock is free, a process asleep on the
      lock means that some process holds the lock. */
  lemma SleepersWaitForHolder(n: nat, run: seq<Action>, s: State, q: nat)
    requires After(n, run) == Some(s)
    requires s.inner == None && q < |s.pc| && s.pc[q] == Asleep
    ensures s.locked && exists r: nat :: r < |s.pc| && r != q && s.pc[r] == Inside
  {
    AfterInv(n, run);
    assert Owner(s, s.pid.value);
  }

  lemma NoneSpins(s: State, q: nat)
    requires q < |s.pc| && s.inner.None? && s.table.None? && s.pc[q] != Asleep
    ensures Execute(s, q).Some?
  {
  }

  /** Only the holder of the inner spinlock waits for the other one. */
  lemma HolderSteps(s: State, q: nat)
    requires Spinlocks(s) && q < |s.pc| && s.pc[q] != Outside
    requires s.table == Some(q) || (s.table.None? && s.inner == Some(q))
    ensures Execute(s, q).Some?
  {
    assert HoldsTable(s.pc[q]) || HoldsInner(s.pc[q]);
  }

  /** No deadlock: while any process is busy with the lock, one of them can take a step
      (the holder's step may be to release it). */
  lemma SomeoneCanStep(n: nat, run: seq<Action>, s: State, q: nat)
    requires After(n, run) == Some(s)
    requires q < |s.pc| && s.pc[q] != Outside
    ensures exists r: nat :: r < |s.pc| && s.pc[r] != Outside && Execute(s, r).Some?
  {
    AfterInv(n, run);
    if s.table.Some? {
      HolderSteps(s, s.table.value);
    } else if s.inner.Some? {
      HolderSteps(s, s.inner.value);
    } else {
      var r: nat := q;
      if s.pc[q] == Asleep {
        SleepersWaitForHolder(n, run, s, q);
        r :| 0 <= r < |s.pc| && s.pc[r] == Inside;
      }
      NoneSpins(s, r);
    }
  }

  /** A spurious wakeup is harmless: whoever kill woke finds out under the lock whether
      acquiresleep may go on. */
  lemma OnlyFreeLockTaken(n: nat, run: seq<Action>, s: State, q: nat)
    requires After(n, run) == Some(s)
    requires q < |s.pc| && s.pc[q] == SetLocked
    ensures !s.locked && s.inner == Some(q) && forall r: nat :: r < |s.pc| ==> s.pc[r] != Inside
  {
    AfterInv(n, run);
  }
}
