/** Every interleaving of fork, clone, exit, thexit, wait, join, kill, and sleep and wakeup
    on other channels, one ptable.lock section at a time. */
module ParentWait {
  import opened Options
  import opened ProcTable

  /** Where a process stands in the kernel: it may start any call; or it is in fork or clone,
      with a table entry allocated and perhaps filled in; or in wait or join. */
  datatype Where = Free | Making(slot: nat, thread: bool, filled: bool) | InWait | InJoin(tid: int)

  datatype Sys = Sys(t: Table, at: seq<Where>, nextpid: int)

  datatype Action =
    | Alloc(q: nat, slot: nat, thread: bool)   // allocproc in fork, or in clone
    | GiveUp(q: nat)                           // out of memory for the stack or the pages
    | Fill(q: nat)                             // parent and isThread set
    | Publish(q: nat)                          // state = RUNNABLE
    | Exit(q: nat)                             // exit or thexit
    | Wait(q: nat, found: Scan)                // one scan of wait
    | Join(q: nat, tid: int, found: Scan)      // one scan of join
    | KillPid(pid: int)
    | SleepOn(q: nat, address: int)            // pipes, sleep locks, the log, ...
    | WakeUp(address: int)

  /** After userinit. */
  ghost function Boot(): Sys {
    Sys(seq(NPROC, i => if i == INIT then FREE.(state := RUNNABLE, pid := 1) else FREE), seq(NPROC, _ => Free), 2)
  }

  ghost predicate Active(s: Sys, q: nat) {
    q < |s.t| == |s.at| && s.t[q].state == RUNNABLE
  }

  /** The end of a scan by q: return, or sleep on its own entry. */
  ghost function ScanDone(s: Sys, q: nat, found: Scan, again: Where): Sys
    requires q < |s.t| == |s.at|
  {
    match found
    case Reaped(i, _) => s.(t := if i < |s.t| then s.t[i := FREE.(chan := s.t[i].chan)] else s.t, at := s.at[q := Free])
    case Childless => s.(at := s.at[q := Free])
    case MustWait =>
      if s.t[q].killed then s.(at := s.at[q := Free])
      else Sys(s.t[q := s.t[q].(state := SLEEPING, chan := OnProc(q))], s.at[q := again], s.nextpid)
  }

  ghost function Step(s: Sys, a: Action): Option<Sys> {
    match a
    case Alloc(q, slot, thread) =>
      if Active(s, q) && s.at[q] == Free && slot < |s.t| && s.t[slot].state == UNUSED && forall k :: 0 <= k < slot ==> s.t[k].state != UNUSED
      then Some(Sys(s.t[slot := s.t[slot].(state := EMBRYO, pid := s.nextpid)], s.at[q := Making(slot, thread, false)], s.nextpid + 1))
      else None
    case GiveUp(q) =>
      if Active(s, q) && s.at[q].Making? && !s.at[q].filled && s.at[q].slot < |s.t|
      then var i := s.at[q].slot; Some(s.(t := s.t[i := s.t[i].(state := UNUSED)], at := s.at[q := Free]))
      else None
    case Fill(q) =>
      if Active(s, q) && s.at[q].Making? && !s.at[q].filled && s.at[q].slot < |s.t|
      then var i := s.at[q].slot;
        Some(s.(t := s.t[i := s.t[i].(parent := q, isThread := s.at[q].thread)], at := s.at[q := s.at[q].(filled := true)]))
      else None
    case Publish(q) =>
      if Active(s, q) && s.at[q].Making? && s.at[q].filled && s.at[q].slot < |s.t|
      then var i := s.at[q].slot; Some(s.(t := s.t[i := s.t[i].(state := RUNNABLE)], at := s.at[i := Free][q := Free]))
      else None
    case Exit(q) =>
      if Active(s, q) && s.at[q] == Free && q != INIT then Some(s.(t := Exited(s.t, q))) else None
    case Wait(q, found) =>
      if Active(s, q) && (s.at[q] == Free || s.at[q] == InWait) && Scanned(s.t, q, false, 0, found)
      then Some(ScanDone(s, q, found, InWait)) else None
    case Join(q, tid, found) =>
      if Active(s, q) && (s.at[q] == Free || s.at[q] == InJoin(tid)) && Scanned(s.t, q, true, tid, found)
      then Some(ScanDone(s, q, found, InJoin(tid))) else None
    case KillPid(pid) => Some(s.(t := Killed(s.t, pid)))
    case SleepOn(q, address) =>
      if Active(s, q) && s.at[q] == Free
      then Some(s.(t := s.t[q := s.t[q].(state := SLEEPING, chan := Other(address))])) else None
    case WakeUp(address) => Some(s.(t := Woken(s.t, Other(address))))
  }

  ghost function After(run: seq<Action>): Option<Sys> {
    if run == [] then Some(Boot())
    else
      var before := After(run[..|run| - 1]);
      if before.None? then None else Step(before.value, run[|run| - 1])
  }

  // ----- The invariant -----

  predicate Alive(p: Proc) {
    p.state == SLEEPING || p.state == RUNNABLE
  }

  predicate MadeBy(s: Sys, i: nat, q: int) {
    0 <= q < |s.at| && s.at[q].Making? && s.at[q].filled && s.at[q].slot == i
  }

  /** Every process but init has a living parent; entries not yet published belong to
      whoever is making them. */
  ghost predicate EntryOk(s: Sys, i: nat)
    requires i < |s.t| == |s.at|
  {
    var p := s.t[i];
    match p.state
    case UNUSED => p.parent == NOBODY && i != INIT
    case EMBRYO =>
      i != INIT && (p.parent == NOBODY || MadeBy(s, i, p.parent))
    case _ =>
      if i == INIT then p.parent == NOBODY && Alive(p)
      else 0 <= p.parent < |s.t| && p.parent != i && Alive(s.t[p.parent])
  }

  ghost predicate MakerOk(s: Sys, q: nat)
    requires q < |s.t| == |s.at|
  {
    s.at[q].Making? ==>
      var i := s.at[q].slot;
      && s.t[q].state == RUNNABLE && i < |s.t| && s.t[i].state == EMBRYO
      && (if s.at[q].filled then s.t[i].parent == q && s.t[i].isThread == s.at[q].thread else s.t[i].parent == NOBODY)
      && forall r :: 0 <= r < |s.at| && s.at[r].Making? && s.at[r].slot == i ==> r == q
  }

  ghost predicate HasChild(t: Table, q: int, thread: bool, alive: bool) {
    exists i :: 0 <= i < |t| && Child(t[i], q, thread) && (alive ==> Alive(t[i]))
  }

  ghost predicate NothingToReap(t: Table, q: int, thread: bool, tid: int) {
    forall i :: 0 <= i < |t| ==> !Reapable(t[i], q, thread, tid)
  }

  ghost predicate SleeperOk(s: Sys, q: nat)
    requires q < |s.t| == |s.at|
  {
    s.t[q].state == SLEEPING && (s.at[q].InWait? || s.at[q].InJoin?) ==>
      && s.t[q].chan == OnProc(q) && !s.t[q].killed
      && if s.at[q].InWait? then NothingToReap(s.t, q, false, 0) && HasChild(s.t, q, false, true)
         else NothingToReap(s.t, q, true, s.at[q].tid) && HasChild(s.t, q, true, false)
  }

  ghost predicate Inv(s: Sys) {
    && |s.t| == |s.at| > INIT
    && (forall i: nat :: i < |s.t| ==> EntryOk(s, i))
    && (forall q: nat :: q < |s.t| ==> MakerOk(s, q))
    && (forall q: nat :: q < |s.t| ==> SleeperOk(s, q))
  }

  // ----- Steps that only put to sleep or wake -----

  predicate CalmAt(p: Proc, p': Proc) {
    && p' == p.(state := p'.state, chan := p'.chan, killed := p'.killed)
    && (p'.state == p.state || (Alive(p) && Alive(p')))
  }

  ghost predicate Calm(t: Table, t': Table) {
    |t| == |t'| && forall i :: 0 <= i < |t| ==> CalmAt(t[i], t'[i])
  }

  lemma CalmInv(s: Sys, s': Sys)
    requires Inv(s) && Calm(s.t, s'.t) && s'.at == s.at
    requires forall q: nat :: q < |s.t| && s'.t[q].state == SLEEPING && !s.at[q].Free? ==> s'.t[q] == s.t[q]
    requires forall q: nat :: q < |s.t| && s.at[q].Making? ==> s'.t[q].state == RUNNABLE
    ensures Inv(s')
  {
    forall i: nat | i < |s.t| ensures EntryOk(s', i) && MakerOk(s', i) && SleeperOk(s', i) {
      assert EntryOk(s, i) && MakerOk(s, i) && SleeperOk(s, i) && CalmAt(s.t[i], s'.t[i]);
      if s'.t[i].state == SLEEPING && (s.at[i].InWait? || s.at[i].InJoin?) {
      }
    }
  }

  lemma CalmNothing(t: Table, t': Table, q: int, thread: bool, tid: int)
    requires Calm(t, t') && NothingToReap(t, q, thread, tid)
    ensures NothingToReap(t', q, thread, tid)
  {
    forall i | 0 <= i < |t| ensures !Reapable(t'[i], q, thread, tid) {
      assert CalmAt(t[i], t'[i]) && !Reapable(t[i], q, thread, tid);
    }
  }

  lemma CalmChild(t: Table, t': Table, q: int, thread: bool, alive: bool)
    requires Calm(t, t') && HasChild(t, q, thread, alive)
    ensures HasChild(t', q, thread, alive)
  {
    var i :| 0 <= i < |t| && Child(t[i], q, thread) && (alive ==> Alive(t[i]));
    assert CalmAt(t[i], t'[i]) && Child(t'[i], q, thread);
  }

  lemma MakersRun(s: Sys)
    requires Inv(s)
    ensures forall q: nat :: q < |s.t| && s.at[q].Making? ==> s.t[q].state == RUNNABLE
  {
    forall q: nat | q < |s.t| && s.at[q].Making? ensures s.t[q].state == RUNNABLE {
      assert MakerOk(s, q);
    }
  }

  lemma KillInv(s: Sys, pid: int, s': Sys)
    requires Inv(s) && Step(s, KillPid(pid)) == Some(s')
    ensures Inv(s')
  {
    MakersRun(s);
    CalmInv(s, s');
  }

  lemma SleepOnInv(s: Sys, q: nat, address: int, s': Sys)
    requires Inv(s) && Step(s, SleepOn(q, address)) == Some(s')
    ensures Inv(s')
  {
    MakersRun(s);
    CalmInv(s, s');
  }

  lemma WakeUpInv(s: Sys, address: int, s': Sys)
    requires Inv(s) && Step(s, WakeUp(address)) == Some(s')
    ensures Inv(s')
  {
    MakersRun(s);
    CalmInv(s, s');
  }

  // ----- fork and clone -----

  /** One entry changes, without becoming a zombie or anyone's child while a parent waits. */
  lemma OtherSleepers(s: Sys, s': Sys, slot: nat, w: nat)
    requires |s.t| == |s.at| == |s'.t| == |s'.at| && slot < |s.t| && w < |s.t|
    requires s'.t == s.t[slot := s'.t[slot]] && s'.at[w] == s.at[w] && s'.t[w] == s.t[w]
    requires SleeperOk(s, w)
    requires s'.t[slot].state != ZOMBIE || s'.t[slot].parent != w
    requires s.t[slot].parent != w || CalmAt(s.t[slot], s'.t[slot])
    ensures SleeperOk(s', w)
  {
    forall thread, tid | NothingToReap(s.t, w, thread, tid) ensures NothingToReap(s'.t, w, thread, tid) {
      forall i | 0 <= i < |s.t| ensures !Reapable(s'.t[i], w, thread, tid) {
        assert !Reapable(s.t[i], w, thread, tid);
      }
    }
    forall thread, alive | HasChild(s.t, w, thread, alive) ensures HasChild(s'.t, w, thread, alive) {
      var i :| 0 <= i < |s.t| && Child(s.t[i], w, thread) && (alive ==> Alive(s.t[i]));
      assert Child(s'.t[i], w, thread);
    }
  }

  lemma AllocInv(s: Sys, q: nat, slot: nat, thread: bool, s': Sys)
    requires Inv(s) && Step(s, Alloc(q, slot, thread)) == Some(s')
    ensures Inv(s')
  {
    assert EntryOk(s, slot);
    forall r: nat | r < |s.t| && s.at[r].Making? ensures s.at[r].slot != slot {
      assert MakerOk(s, r);
    }
    forall i: nat | i < |s.t| ensures EntryOk(s', i) && MakerOk(s', i) && SleeperOk(s', i) {
      assert EntryOk(s, i) && MakerOk(s, i) && SleeperOk(s, i);
      if i != q && i != slot {
        OtherSleepers(s, s', slot, i);
      }
    }
  }

  lemma GiveUpInv(s: Sys, q: nat, s': Sys)
    requires Inv(s) && Step(s, GiveUp(q)) == Some(s')
    ensures Inv(s')
  {
    var slot := s.at[q].slot;
    assert MakerOk(s, q) && EntryOk(s, slot);
    forall i: nat | i < |s.t| ensures EntryOk(s', i) && MakerOk(s', i) && SleeperOk(s', i) {
      assert EntryOk(s, i) && MakerOk(s, i) && SleeperOk(s, i);
      if i != q && i != slot {
        OtherSleepers(s, s', slot, i);
      }
    }
  }

  lemma FillInv(s: Sys, q: nat, s': Sys)
    requires Inv(s) && Step(s, Fill(q)) == Some(s')
    ensures Inv(s')
  {
    var slot := s.at[q].slot;
    assert MakerOk(s, q) && EntryOk(s, slot);
    forall i: nat | i < |s.t| ensures EntryOk(s', i) && MakerOk(s', i) && SleeperOk(s', i) {
      assert EntryOk(s, i) && MakerOk(s, i) && SleeperOk(s, i);
      if i != q && i != slot {
        OtherSleepers(s, s', slot, i);
      }
    }
  }

  lemma PublishInv(s: Sys, q: nat, s': Sys)
    requires Inv(s) && Step(s, Publish(q)) == Some(s')
    ensures Inv(s')
  {
    var slot := s.at[q].slot;
    assert MakerOk(s, q) && EntryOk(s, slot) && MakerOk(s, slot) && EntryOk(s, q);
    forall i: nat | i < |s.t| ensures EntryOk(s', i) && MakerOk(s', i) && SleeperOk(s', i) {
      assert EntryOk(s, i) && MakerOk(s, i) && SleeperOk(s, i);
      if i != q && i != slot {
        OtherSleepers(s, s', slot, i);
      }
    }
  }

  // ----- wait and join -----

  /** Nobody has a zombie, or an unused entry, for its parent. */
  lemma NoOrphans(s: Sys, i: nat)
    requires Inv(s) && i < |s.t| && !Alive(s.t[i])
    ensures forall k :: 0 <= k < |s.t| ==> s.t[k].parent != i
    ensures !s.at[i].Making?
  {
    assert MakerOk(s, i);
    forall k: nat | k < |s.t| ensures s.t[k].parent != i {
      assert EntryOk(s, k);
    }
  }

  lemma ReapInv(s: Sys, q: nat, i: nat, s': Sys)
    requires Inv(s) && q < |s.t| && i < |s.t| && s.t[i].state == ZOMBIE && s.t[i].parent == q && Alive(s.t[q])
    requires !s.at[q].Making?
    requires s' == s.(t := s.t[i := FREE.(chan := s.t[i].chan)], at := s.at[q := Free])
    requires s.t[q].state == RUNNABLE
    ensures Inv(s')
  {
    NoOrphans(s, i);
    assert EntryOk(s, i);
    forall k: nat | k < |s.t| ensures EntryOk(s', k) && MakerOk(s', k) && SleeperOk(s', k) {
      assert EntryOk(s, k) && MakerOk(s, k) && SleeperOk(s, k);
      if k != q && k != i {
        OtherSleepers(s, s', i, k);
      }
    }
  }

  /** Leaving wait or join, or going to sleep there. */
  lemma ReturnInv(s: Sys, q: nat, s': Sys)
    requires Inv(s) && q < |s.t| && s.t[q].state == RUNNABLE && !s.at[q].Making? && s' == s.(at := s.at[q := Free])
    ensures Inv(s')
  {
    forall k: nat | k < |s.t| ensures EntryOk(s', k) && MakerOk(s', k) && SleeperOk(s', k) {
      assert EntryOk(s, k) && MakerOk(s, k) && SleeperOk(s, k);
      if k != q {
        OtherSleepers(s, s', k, k);
      }
    }
  }

  lemma MustSleepInv(s: Sys, q: nat, again: Where, s': Sys)
    requires Inv(s) && q < |s.t| && s.t[q].state == RUNNABLE && !s.at[q].Making? && !s.t[q].killed
    requires again.InWait? || again.InJoin?
    requires Scanned(s.t, q, again.InJoin?, if again.InJoin? then again.tid else 0, MustWait)
    requires s' == ScanDone(s, q, MustWait, again)
    ensures Inv(s')
  {
    NewSleeper(s, q, again, s');
    forall k: nat | k < |s.t| ensures EntryOk(s', k) && MakerOk(s', k) && SleeperOk(s', k) {
      assert EntryOk(s, k) && MakerOk(s, k) && SleeperOk(s, k);
      if k != q {
        OtherSleepers(s, s', q, k);
      }
    }
  }

  lemma NewSleeper(s: Sys, q: nat, again: Where, s': Sys)
    requires Inv(s) && q < |s.t| && s.t[q].state == RUNNABLE && !s.at[q].Making? && !s.t[q].killed
    requires again.InWait? || again.InJoin?
    requires Scanned(s.t, q, again.InJoin?, if again.InJoin? then again.tid else 0, MustWait)
    requires s' == ScanDone(s, q, MustWait, again)
    ensures SleeperOk(s', q)
  {
    var thread, tid := again.InJoin?, if again.InJoin? then again.tid else 0;
    SleeperHasChild(s, q, thread, tid);
    CalmChild(s.t, s'.t, q, thread, !thread);
    CalmNothing(s.t, s'.t, q, thread, tid);
  }

  lemma SleeperHasChild(s: Sys, q: nat, thread: bool, tid: int)
    requires Inv(s) && q < |s.t| && !s.at[q].Making? && Scanned(s.t, q, thread, tid, MustWait)
    ensures HasChild(s.t, q, thread, !thread)
  {
    var k: nat :| k < |s.t| && Child(s.t[k], q, thread);
    assert EntryOk(s, k) && !Reapable(s.t[k], q, thread, tid);
  }

  lemma WaitInv(s: Sys, q: nat, found: Scan, s': Sys)
    requires Inv(s) && Step(s, Wait(q, found)) == Some(s')
    ensures Inv(s')
  {
    match found
    case Reaped(i, _) => ReapInv(s, q, i, s');
    case Childless => ReturnInv(s, q, s');
    case MustWait =>
      if s.t[q].killed {
        ReturnInv(s, q, s');
      } else {
        MustSleepInv(s, q, InWait, s');
      }
  }

  lemma JoinInv(s: Sys, q: nat, tid: int, found: Scan, s': Sys)
    requires Inv(s) && Step(s, Join(q, tid, found)) == Some(s')
    ensures Inv(s')
  {
    match found
    case Reaped(i, _) => ReapInv(s, q, i, s');
    case Childless => ReturnInv(s, q, s');
    case MustWait =>
      if s.t[q].killed {
        ReturnInv(s, q, s');
      } else {
        MustSleepInv(s, q, InJoin(tid), s');
      }
  }

  // ----- exit and thexit -----

  /** Whoever still sleeps in wait or join was not the parent of q, and, if it is init, has
      not been given a zombie. */
  lemma ExitSleeper(s: Sys, q: nat, s': Sys, w: nat)
    requires Inv(s) && Step(s, Exit(q)) == Some(s') && w < |s.t|
    ensures SleeperOk(s', w)
  {
    assert SleeperOk(s, w) && EntryOk(s, q);
    ExitedAt(s.t, q, w);
    if s'.t[w].state == SLEEPING && (s.at[w].InWait? || s.at[w].InJoin?) {
      assert s.t[q].parent != w;
      var thread, tid := s.at[w].InJoin?, if s.at[w].InJoin? then s.at[w].tid else 0;
      forall i: nat | i < |s.t| ensures !Reapable(s'.t[i], w, thread, tid) {
        ExitedAt(s.t, q, i);
        assert !Reapable(s.t[i], w, thread, tid);
        assert s.t[i].parent == q && s.t[i].state == ZOMBIE ==> ZombieChild(s.t, q, |s.t|);
      }
      var i: nat :| i < |s.t| && Child(s.t[i], w, thread) && (!thread ==> Alive(s.t[i]));
      ExitedAt(s.t, q, i);
      assert Child(s'.t[i], w, thread);
    }
  }

  lemma ExitEntry(s: Sys, q: nat, s': Sys, i: nat)
    requires Inv(s) && Step(s, Exit(q)) == Some(s') && i < |s.t|
    ensures EntryOk(s', i) && MakerOk(s', i)
  {
    assert EntryOk(s, i) && MakerOk(s, i) && EntryOk(s, INIT);
    ExitedAt(s.t, q, i);
    ExitedAt(s.t, q, INIT);
    if 0 <= s.t[i].parent < |s.t| {
      ExitedAt(s.t, q, s.t[i].parent);
    }
    if s.at[i].Making? {
      ExitedAt(s.t, q, s.at[i].slot);
    }
  }

  lemma ExitInv(s: Sys, q: nat, s': Sys)
    requires Inv(s) && Step(s, Exit(q)) == Some(s')
    ensures Inv(s')
  {
    forall i: nat | i < |s.t| ensures EntryOk(s', i) && MakerOk(s', i) && SleeperOk(s', i) {
      ExitSleeper(s, q, s', i);
      ExitEntry(s, q, s', i);
    }
  }

  // ----- Who is woken -----

  /** After wakeup(address) no one sleeps on the address; all else is as before. */
  lemma WakeUpWakes(s: Sys, address: int, s': Sys, i: nat)
    requires Step(s, WakeUp(address)) == Some(s') && i < |s.t|
    ensures |s'.t| == |s.t| && s'.at == s.at && !(s'.t[i].state == SLEEPING && s'.t[i].chan == Other(address))
    ensures s'.t[i] == if s.t[i].state == SLEEPING && s.t[i].chan == Other(address) then s.t[i].(state := RUNNABLE) else s.t[i]
  {
  }

  /** The kill, the wakeup, or the exit that q is waiting for. */
  ghost predicate Rouses(s: Sys, a: Action, q: nat)
    requires q < |s.t|
  {
    match a
    case KillPid(pid) => s.t[q].pid == pid && forall k :: 0 <= k < q ==> s.t[k].pid != pid
    case WakeUp(address) => s.t[q].chan == Other(address)
    case Exit(c) =>
      c < |s.t| && (s.t[q].chan == OnProc(s.t[c].parent)
        || (s.t[q].chan == OnProc(INIT) && exists k :: 0 <= k < |s.t| && s.t[k].parent == c && s.t[k].state == ZOMBIE))
    case _ => false
  }

  /** A process asleep, on whatever channel, is woken by these steps and by no other. */
  lemma WokenExactlyWhen(s: Sys, a: Action, s': Sys, q: nat)
    requires Inv(s) && Step(s, a) == Some(s') && q < |s.t| && s.t[q].state == SLEEPING
    ensures |s'.t| == |s.t| && s'.t[q].state == (if Rouses(s, a, q) then RUNNABLE else SLEEPING) && s'.t[q].chan == s.t[q].chan
  {
    match a
    case KillPid(pid) => KilledAt(s.t, pid, q);
    case Exit(c) => ExitedAt(s.t, c, q);
    case GiveUp(r) => assert MakerOk(s, r);
    case Fill(r) => assert MakerOk(s, r);
    case Publish(r) => assert MakerOk(s, r);
    case _ =>
  }

  // ----- Every run -----

  lemma StepInv(s: Sys, a: Action, s': Sys)
    requires Inv(s) && Step(s, a) == Some(s')
    ensures Inv(s')
  {
    match a
    case Alloc(q, slot, thread) => AllocInv(s, q, slot, thread, s');
    case GiveUp(q) => GiveUpInv(s, q, s');
    case Fill(q) => FillInv(s, q, s');
    case Publish(q) => PublishInv(s, q, s');
    case Exit(q) => ExitInv(s, q, s');
    case Wait(q, found) => WaitInv(s, q, found, s');
    case Join(q, tid, found) => JoinInv(s, q, tid, found, s');
    case KillPid(pid) => KillInv(s, pid, s');
    case SleepOn(q, address) => SleepOnInv(s, q, address, s');
    case WakeUp(address) => WakeUpInv(s, address, s');
  }

  lemma {:induction false} AfterInv(run: seq<Action>)
    requires After(run).Some?
    ensures Inv(After(run).value)
  {
    if run == [] {
    } else {
      AfterInv(run[..|run| - 1]);
      StepInv(After(run[..|run| - 1]).value, run[|run| - 1], After(run).value);
    }
  }

  /** In every interleaving, whenever ptable.lock is free, a process asleep in wait has no
      zombie child process to reap, and has one still alive, whose exit will wake it. */
  lemma WaitersMissNothing(run: seq<Action>, s: Sys, q: nat)
    requires After(run) == Some(s)
    requires q < |s.t| == |s.at| && s.t[q].state == SLEEPING && s.at[q] == InWait
    ensures forall i :: 0 <= i < |s.t| && s.t[i].parent == q && !s.t[i].isThread ==> s.t[i].state != ZOMBIE
    ensures exists i :: 0 <= i < |s.t| && s.t[i].parent == q && !s.t[i].isThread && Alive(s.t[i])
  {
    AfterInv(run);
    assert SleeperOk(s, q);
    var c :| 0 <= c < |s.t| && Child(s.t[c], q, false) && Alive(s.t[c]);
    assert s.t[c].parent == q;
    forall i | 0 <= i < |s.t| && s.t[i].parent == q && !s.t[i].isThread ensures s.t[i].state != ZOMBIE {
      assert !Reapable(s.t[i], q, false, 0);
    }
  }

  /** A process asleep in join(tid) has no zombie thread tid to reap. */
  lemma JoinersMissNothing(run: seq<Action>, s: Sys, q: nat)
    requires After(run) == Some(s)
    requires q < |s.t| == |s.at| && s.t[q].state == SLEEPING && s.at[q].InJoin?
    ensures forall i :: 0 <= i < |s.t| && s.t[i].parent == q && s.t[i].isThread && s.t[i].pid == s.at[q].tid ==>
      s.t[i].state != ZOMBIE
  {
    AfterInv(run);
    assert SleeperOk(s, q);
    forall i | 0 <= i < |s.t| && s.t[i].parent == q && s.t[i].isThread && s.t[i].pid == s.at[q].tid ensures s.t[i].state != ZOMBIE {
      assert !Reapable(s.t[i], q, true, s.at[q].tid);
    }
  }

  /** Every zombie has a living parent, and is itself no one's parent. */
  lemma ZombiesHaveParents(run: seq<Action>, s: Sys, i: nat)
    requires After(run) == Some(s)
    requires i < |s.t| && s.t[i].state == ZOMBIE
    ensures 0 <= s.t[i].parent < |s.t| && s.t[i].parent != i && Alive(s.t[s.t[i].parent])
    ensures forall k :: 0 <= k < |s.t| ==> s.t[k].parent != i
  {
    AfterInv(run);
    assert EntryOk(s, i) && EntryOk(s, INIT);
    NoOrphans(s, i);
  }

  // ----- join of a thread that does not exist -----

  /** q is in join(tid), has threads to wait for, but none with that tid. */
  ghost predicate Stuck(s: Sys, q: nat, tid: int) {
    && q < |s.t| == |s.at| && q != INIT && s.at[q] == InJoin(tid) && Alive(s.t[q]) && !s.t[q].killed
    && HasChild(s.t, q, true, false)
    && forall i :: 0 <= i < |s.t| && s.t[i].parent == q && s.t[i].isThread ==> s.t[i].pid != tid
  }

  lemma StuckKept(s: Sys, s': Sys, q: nat, tid: int)
    requires Stuck(s, q, tid) && |s'.t| == |s.t| == |s'.at| && s'.at[q] == s.at[q] && Alive(s'.t[q]) && !s'.t[q].killed
    requires forall i :: 0 <= i < |s.t| ==> (Child(s'.t[i], q, true) <==> Child(s.t[i], q, true))
    requires forall i :: 0 <= i < |s.t| && Child(s.t[i], q, true) ==> s'.t[i].pid == s.t[i].pid
    ensures Stuck(s', q, tid)
  {
    var i :| 0 <= i < |s.t| && Child(s.t[i], q, true);
    assert Child(s'.t[i], q, true);
  }

  /** Only a kill that hits q gets it out. */
  lemma StuckStep(s: Sys, a: Action, s': Sys, q: nat, tid: int)
    requires Inv(s) && Stuck(s, q, tid) && Step(s, a) == Some(s')
    requires !(a.KillPid? && FirstWithPid(s.t, a.pid) == Some(q))
    ensures Stuck(s', q, tid)
  {
    match a
    case Exit(r) =>
      StuckExit(s, r, s', q, tid);
    case Wait(r, found) =>
      StuckScan(s, r, false, 0, found, InWait, s', q, tid);
    case Join(r, tid', found) =>
      StuckScan(s, r, true, tid', found, InJoin(tid'), s', q, tid);
    case KillPid(pid) =>
      StuckKept(s, s', q, tid);
    case SleepOn(r, address) =>
      StuckKept(s, s', q, tid);
    case WakeUp(address) =>
      StuckKept(s, s', q, tid);
    case _ =>
      StuckMaking(s, a, s', q, tid);
  }

  /** fork and clone. */
  lemma StuckMaking(s: Sys, a: Action, s': Sys, q: nat, tid: int)
    requires Inv(s) && Stuck(s, q, tid) && Step(s, a) == Some(s') && (a.Alloc? || a.GiveUp? || a.Fill? || a.Publish?)
    ensures Stuck(s', q, tid)
  {
    if a.Alloc? {
      assert EntryOk(s, a.slot);
    } else {
      assert MakerOk(s, a.q);
    }
    StuckKept(s, s', q, tid);
  }

  lemma StuckExit(s: Sys, r: nat, s': Sys, q: nat, tid: int)
    requires Inv(s) && Stuck(s, q, tid) && Step(s, Exit(r)) == Some(s')
    ensures Stuck(s', q, tid)
  {
    forall i: nat | i < |s.t| ensures (Child(s'.t[i], q, true) <==> Child(s.t[i], q, true)) && s'.t[i].pid == s.t[i].pid {
      ExitedAt(s.t, r, i);
    }
    ExitedAt(s.t, r, q);
    StuckKept(s, s', q, tid);
  }

  lemma StuckScan(s: Sys, r: nat, thread: bool, tid': int, found: Scan, again: Where, s': Sys, q: nat, tid: int)
    requires Inv(s) && Stuck(s, q, tid) && Active(s, r) && Scanned(s.t, r, thread, tid', found)
    requires s.at[r] == Free || s.at[r] == again
    requires again == if thread then InJoin(tid') else InWait
    requires s' == ScanDone(s, r, found, again)
    ensures Stuck(s', q, tid)
  {
    if found.Reaped? {
      assert Reapable(s.t[found.slot], r, thread, tid');
      assert r != q;
    }
    StuckKept(s, s', q, tid);
  }

  ghost function Onward(s: Sys, run: seq<Action>): Option<Sys> {
    if run == [] then Some(s)
    else
      var before := Onward(s, run[..|run| - 1]);
      if before.None? then None else Step(before.value, run[|run| - 1])
  }

  /** No kill in the run hits q. */
  ghost predicate Spares(s: Sys, run: seq<Action>, q: nat) {
    forall k :: 0 <= k < |run| && run[k].KillPid? && Onward(s, run[..k]).Some? ==>
      FirstWithPid(Onward(s, run[..k]).value.t, run[k].pid) != Some(q)
  }

  /** join of a tid that no thread of the caller has, while it has other threads, returns
      in no continuation without a kill. */
  lemma {:induction false} JoinHangs(s: Sys, run: seq<Action>, q: nat, tid: int)
    requires Inv(s) && Stuck(s, q, tid) && Onward(s, run).Some? && Spares(s, run, q)
    ensures Inv(Onward(s, run).value) && Stuck(Onward(s, run).value, q, tid)
  {
    if run != [] {
      var k := |run| - 1;
      forall j | 0 <= j < k ensures run[..k][..j] == run[..j] {
      }
      assert Spares(s, run[..k], q);
      JoinHangs(s, run[..k], q, tid);
      StepInv(Onward(s, run[..k]).value, run[k], Onward(s, run).value);
      StuckStep(Onward(s, run[..k]).value, run[k], Onward(s, run).value, q, tid);
    }
  }

  lemma Extend(run: seq<Action>, s: Sys, a: Action, s': Sys)
    requires After(run) == Some(s) && Step(s, a) == Some(s')
    ensures After(run + [a]) == Some(s')
  {
    assert (run + [a])[..|run|] == run;
  }

  /** A new child of process `parent` in the first unused entry. */
  lemma MakeChild(run: seq<Action>, s: Sys, parent: nat, slot: nat, thread: bool)
    returns (run': seq<Action>, s': Sys)
    requires After(run) == Some(s) && Active(s, parent) && s.at[parent] == Free && slot < |s.t|
    requires s.t[slot].state == UNUSED && forall k :: 0 <= k < slot ==> s.t[k].state != UNUSED
    ensures After(run') == Some(s') && run' == run + [Alloc(parent, slot, thread)] + [Fill(parent)] + [Publish(parent)]
    ensures s'.t == s.t[slot := Proc(RUNNABLE, s.nextpid, parent, s.t[slot].chan, s.t[slot].killed, thread)]
    ensures s'.at == s.at[slot := Free] && s'.nextpid == s.nextpid + 1
  {
    var s1 := Step(s, Alloc(parent, slot, thread)).value;
    Extend(run, s, Alloc(parent, slot, thread), s1);
    var s2 := Step(s1, Fill(parent)).value;
    Extend(run + [Alloc(parent, slot, thread)], s1, Fill(parent), s2);
    s' := Step(s2, Publish(parent)).value;
    Extend(run + [Alloc(parent, slot, thread)] + [Fill(parent)], s2, Publish(parent), s');
    run' := run + [Alloc(parent, slot, thread)] + [Fill(parent)] + [Publish(parent)];
  }

  /** Such a state is reached: init forks a process, which clones one thread and joins another tid. */
  lemma JoinCanHang(tid: int)
    returns (run: seq<Action>, s: Sys)
    requires tid != 3
    ensures After(run) == Some(s) && Stuck(s, 1, tid) && s.t[1].state == SLEEPING
  {
    var run1, s1 := MakeChild([], Boot(), INIT, 1, false);
    var run2, s2 := MakeChild(run1, s1, 1, 2, true);
    assert Child(s2.t[2], 1, true);
    assert Scanned(s2.t, 1, true, tid, MustWait);
    s := Step(s2, Join(1, tid, MustWait)).value;
    Extend(run2, s2, Join(1, tid, MustWait), s);
    run := run2 + [Join(1, tid, MustWait)];
    assert Child(s.t[2], 1, true);
  }

  /** If the tid is that of one of its threads, join can return: that thread exits, and the
      next scan reaps it. */
  lemma JoinCanReturn(s: Sys, q: nat, tid: int, c: nat)
    returns (found: Scan, s': Sys)
    requires Inv(s) && q < |s.t| && s.at[q] == InJoin(tid) && s.t[q].state == SLEEPING
    requires c < |s.t| && Active(s, c) && s.at[c] == Free && c != INIT && s.t[c].parent == q && s.t[c].isThread && s.t[c].pid == tid
    ensures Onward(s, [Exit(c), Join(q, tid, found)]) == Some(s') && found.Reaped? && found.pid == tid && s'.at[q] == Free
  {
    var s1 := Step(s, Exit(c)).value;
    assert SleeperOk(s, q) && EntryOk(s, c);
    ExitedAt(s.t, c, q);
    ExitedAt(s.t, c, c);
    var k := FirstReapable(s1.t, q, tid, c);
    found := Reaped(k, tid);
    s' := Step(s1, Join(q, tid, found)).value;
    assert [Exit(c), Join(q, tid, found)][..1] == [Exit(c)] && [Exit(c)][..0] == [];
    assert Onward(s, [Exit(c)]) == Some(s1);
  }

  lemma FirstReapable(t: Table, q: nat, tid: int, c: nat) returns (k: nat)
    requires c < |t| && Reapable(t[c], q, true, tid)
    ensures k < |t| && Reapable(t[k], q, true, tid) && forall i :: 0 <= i < k ==> !Reapable(t[i], q, true, tid)
  {
    k := 0;
    while !Reapable(t[k], q, true, tid)
      invariant k <= c && forall i :: 0 <= i < k ==> !Reapable(t[i], q, true, tid)
      decreases c - k
    {
      k := k + 1;
    }
  }
}
