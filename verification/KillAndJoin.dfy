/** What kill may hit, which processes are born killed, when join can return, and which
    zombies can be reaped, over every run of ParentWait. */
module KillAndJoin {
  import opened Options
  import opened ProcTable
  import opened ParentWait

  // ----- Process numbers -----

  ghost predicate NumberOk(s: Sys, i: nat)
    requires i < |s.t|
  {
    0 <= s.t[i].pid < s.nextpid && (s.t[i].state != UNUSED ==> s.t[i].pid != 0)
  }

  ghost predicate Distinct(t: Table) {
    forall i: nat, j: nat :: i < j < |t| ==> t[i].pid != t[j].pid || t[i].pid == 0
  }

  /** Numbers handed out are below nextpid and differ; an entry without one is unused. */
  ghost predicate Numbered(s: Sys) {
    (forall i: nat :: i < |s.t| ==> NumberOk(s, i)) && Distinct(s.t)
  }

  /** A step that hands out no number. */
  lemma NumberedKept(s: Sys, s': Sys)
    requires Numbered(s) && |s'.t| == |s.t| && s'.nextpid == s.nextpid
    requires forall i: nat :: i < |s.t| ==>
      (s'.t[i].pid == 0 && s'.t[i].state == UNUSED) || (s'.t[i].pid == s.t[i].pid && (s.t[i].state == UNUSED ==> s'.t[i].state == UNUSED))
    ensures Numbered(s')
  {
    forall i: nat | i < |s.t| ensures NumberOk(s', i) {
      assert NumberOk(s, i);
    }
  }

  lemma AllocNumbered(s: Sys, q: nat, slot: nat, thread: bool, s': Sys)
    requires Numbered(s) && Step(s, Alloc(q, slot, thread)) == Some(s')
    ensures Numbered(s')
  {
    assert NumberOk(s, slot);
    forall i: nat | i < |s.t| ensures NumberOk(s', i) && (i != slot ==> s'.t[i].pid != s.nextpid) {
      assert NumberOk(s, i);
    }
  }

  lemma StepNumbered(s: Sys, a: Action, s': Sys)
    requires Inv(s) && Numbered(s) && Step(s, a) == Some(s')
    ensures Numbered(s')
  {
    match a
    case Alloc(q, slot, thread) => AllocNumbered(s, q, slot, thread, s');
    case Fill(q) =>
      assert MakerOk(s, q);
      NumberedKept(s, s');
    case GiveUp(q) =>
      assert MakerOk(s, q);
      NumberedKept(s, s');
    case Publish(q) =>
      assert MakerOk(s, q);
      NumberedKept(s, s');
    case Exit(q) =>
      forall i: nat | i < |s.t| ensures s'.t[i].pid == s.t[i].pid && (s.t[i].state == UNUSED ==> s'.t[i].state == UNUSED) {
        ExitedAt(s.t, q, i);
      }
      NumberedKept(s, s');
    case _ => NumberedKept(s, s');
  }

  lemma {:induction false} AfterNumbered(run: seq<Action>)
    requires After(run).Some?
    ensures Inv(After(run).value) && Numbered(After(run).value)
  {
    AfterInv(run);
    if run != [] {
      AfterNumbered(run[..|run| - 1]);
      StepNumbered(After(run[..|run| - 1]).value, run[|run| - 1], After(run).value);
    }
  }

  /** So kill finds the entry that has the number, if it is not 0. */
  lemma FirstIs(s: Sys, i: nat)
    requires Numbered(s) && i < |s.t| && s.t[i].pid != 0
    ensures FirstWithPid(s.t, s.t[i].pid) == Some(i)
  {
    FirstWithPidIs(s.t, s.t[i].pid, i);
  }

  // ----- Entries that kill may mark although they are not in use -----

  /** In use by a process, dead or alive. */
  predicate InUse(p: Proc) {
    Alive(p) || p.state == ZOMBIE
  }

  /** The j-th step allocates entry i, with number p. */
  ghost predicate HandedAt(run: seq<Action>, j: nat, i: nat, p: int) {
    j < |run| && run[j].Alloc? && run[j].slot == i && After(run[..j]).Some? && After(run[..j]).value.nextpid == p
  }

  /** The m-th step makes entry i a process. */
  ghost predicate PublishedAt(run: seq<Action>, m: nat, i: nat) {
    && m < |run| && run[m].Publish? && After(run[..m]).Some?
    && var s := After(run[..m]).value; run[m].q < |s.at| && s.at[run[m].q].Making? && s.at[run[m].q].slot == i
  }

  /** Number p was given to entry i by a fork or clone that has not finished: it is under
      way, or it was abandoned and the entry has not been allocated again. */
  ghost predicate Unfinished(run: seq<Action>, i: nat, p: int) {
    exists j :: HandedAt(run, j, i, p) && NeitherSince(run, j, i)
  }

  ghost predicate NeitherSince(run: seq<Action>, j: nat, i: nat) {
    forall m: nat :: j < m < |run| ==> !PublishedAt(run, m, i) && !(run[m].Alloc? && run[m].slot == i)
  }

  /** Events before the last step are those of the run without it. */
  lemma Earlier(run: seq<Action>, j: nat, i: nat, p: int)
    requires j + 1 < |run|
    ensures var before := run[..|run| - 1];
      && before[j] == run[j] && before[..j] == run[..j]
      && (HandedAt(before, j, i, p) <==> HandedAt(run, j, i, p)) && (PublishedAt(before, j, i) <==> PublishedAt(run, j, i))
      && (HitAt(before, j, i) <==> HitAt(run, j, i)) && (ClearedAt(before, j, i) <==> ClearedAt(run, j, i))
  {
    assert run[..|run| - 1][..j] == run[..j];
  }

  lemma NeitherEarlier(run: seq<Action>, j: nat, i: nat)
    requires j + 1 < |run|
    ensures NeitherSince(run, j, i) <==>
      NeitherSince(run[..|run| - 1], j, i) && !PublishedAt(run, |run| - 1, i) && !(run[|run| - 1].Alloc? && run[|run| - 1].slot == i)
  {
    forall m: nat | j < m < |run| - 1 ensures PublishedAt(run[..|run| - 1], m, i) <==> PublishedAt(run, m, i) {
      Earlier(run, m, i, 0);
    }
  }

  /** The last step adds to what was unfinished, or ends it, or neither. */
  lemma UnfinishedStep(run: seq<Action>, i: nat, p: int)
    requires run != [] && After(run).Some?
    ensures var n := |run| - 1;
      Unfinished(run, i, p) <==>
        HandedAt(run, n, i, p)
        || (Unfinished(run[..n], i, p) && !PublishedAt(run, n, i) && !(run[n].Alloc? && run[n].slot == i))
  {
    var n := |run| - 1;
    if Unfinished(run, i, p) && !HandedAt(run, n, i, p) {
      var j: nat :| HandedAt(run, j, i, p) && NeitherSince(run, j, i);
      Earlier(run, j, i, p);
      NeitherEarlier(run, j, i);
    }
    if HandedAt(run, n, i, p) {
      assert NeitherSince(run, n, i);
    }
    if Unfinished(run[..n], i, p) && !PublishedAt(run, n, i) && !(run[n].Alloc? && run[n].slot == i) {
      var j: nat :| HandedAt(run[..n], j, i, p) && NeitherSince(run[..n], j, i);
      Earlier(run, j, i, p);
      NeitherEarlier(run, j, i);
    }
  }

  /** The last step, seen from the state before it. */
  lemma LastEvents(run: seq<Action>, s: Sys, s': Sys, i: nat, p: int)
    requires run != [] && After(run[..|run| - 1]) == Some(s) && Step(s, run[|run| - 1]) == Some(s')
    ensures var n := |run| - 1;
      && (HandedAt(run, n, i, p) <==> run[n].Alloc? && run[n].slot == i && s.nextpid == p)
      && (PublishedAt(run, n, i) <==> run[n].Publish? && s.at[run[n].q].slot == i)
  {
  }

  /** An entry not in use that has a number has it from an unfinished fork or clone, and no
      other. */
  lemma {:induction false} UnusedNumbers(run: seq<Action>, s: Sys, i: nat, p: int)
    requires After(run) == Some(s) && i < |s.t|
    ensures Unfinished(run, i, p) <==> !InUse(s.t[i]) && s.t[i].pid == p != 0
  {
    if run != [] {
      var n := |run| - 1;
      var s0 := After(run[..n]).value;
      AfterNumbered(run[..n]);
      UnusedNumbers(run[..n], s0, i, p);
      UnfinishedStep(run, i, p);
      LastEvents(run, s0, s, i, p);
      UnusedStep(s0, run[n], s, i, p, Unfinished(run[..n], i, p));
    }
  }

  lemma UnusedStep(s: Sys, a: Action, s': Sys, i: nat, p: int, before: bool)
    requires Inv(s) && Numbered(s) && Step(s, a) == Some(s') && i < |s.t|
    requires before <==> !InUse(s.t[i]) && s.t[i].pid == p != 0
    ensures var handed, published := a.Alloc? && a.slot == i, a.Publish? && s.at[a.q].slot == i;
      (handed && s.nextpid == p) || (before && !published && !handed) <==> !InUse(s'.t[i]) && s'.t[i].pid == p != 0
  {
    NumbersStep(s, a, s', i);
    assert NumberOk(s, i);
  }

  /** How one step changes the number and the use of an entry. */
  lemma NumbersStep(s: Sys, a: Action, s': Sys, i: nat)
    requires Inv(s) && Numbered(s) && Step(s, a) == Some(s') && i < |s.t|
    ensures |s'.t| == |s.t|
    ensures a.Alloc? && a.slot == i ==> !InUse(s'.t[i]) && s'.t[i].pid == s.nextpid != 0
    ensures a.Publish? && s.at[a.q].slot == i ==> InUse(s'.t[i]) && !InUse(s.t[i])
    ensures !(a.Alloc? && a.slot == i) && !(a.Publish? && s.at[a.q].slot == i) ==>
      if InUse(s.t[i]) then InUse(s'.t[i]) || s'.t[i].pid == 0 else !InUse(s'.t[i]) && s'.t[i].pid == s.t[i].pid
  {
    assert NumberOk(s, i);
    match a
    case Fill(q) => assert MakerOk(s, q);
    case GiveUp(q) => assert MakerOk(s, q);
    case Publish(q) => assert MakerOk(s, q);
    case Exit(q) => ExitedAt(s.t, q, i);
    case _ =>
  }

  /** kill(p) marks an entry that is not in use exactly when p is 0 and some entry has no
      number, or p is the number of an unfinished or abandoned fork or clone. */
  lemma KillHitsUnusedExactlyWhen(run: seq<Action>, s: Sys, p: int)
    requires After(run) == Some(s)
    ensures (exists i: nat :: FirstWithPid(s.t, p) == Some(i) && !InUse(s.t[i]))
       <==> (p == 0 && exists i: nat :: i < |s.t| && s.t[i].pid == 0) || exists i: nat :: i < |s.t| && Unfinished(run, i, p)
  {
    AfterNumbered(run);
    if i: nat :| FirstWithPid(s.t, p) == Some(i) && !InUse(s.t[i]) {
      UnusedNumbers(run, s, i, p);
    }
    if p == 0 && exists i: nat :: i < |s.t| && s.t[i].pid == 0 {
      var i := FirstWithPid(s.t, p).value;
      assert NumberOk(s, i);
    }
    if i: nat :| i < |s.t| && Unfinished(run, i, p) {
      UnusedNumbers(run, s, i, p);
      FirstIs(s, i);
    }
  }

  // ----- Who is born killed -----

  /** The j-th step is a kill that finds entry i. */
  ghost predicate HitAt(run: seq<Action>, j: nat, i: nat) {
    j < |run| && run[j].KillPid? && After(run[..j]).Some? && FirstWithPid(After(run[..j]).value.t, run[j].pid) == Some(i)
  }

  /** The m-th step reaps entry i. */
  predicate ClearedAt(run: seq<Action>, m: nat, i: nat) {
    m < |run| && (run[m].Wait? || run[m].Join?) && run[m].found.Reaped? && run[m].found.slot == i
  }

  ghost predicate HitSinceCleared(run: seq<Action>, i: nat) {
    exists j :: HitAt(run, j, i) && NotClearedSince(run, j, i)
  }

  ghost predicate NotClearedSince(run: seq<Action>, j: nat, i: nat) {
    forall m: nat :: j < m < |run| ==> !ClearedAt(run, m, i)
  }

  lemma HitStep(run: seq<Action>, i: nat)
    requires run != []
    ensures var n := |run| - 1;
      HitSinceCleared(run, i) <==> HitAt(run, n, i) || (HitSinceCleared(run[..n], i) && !ClearedAt(run, n, i))
  {
    var n := |run| - 1;
    if HitSinceCleared(run, i) && !HitAt(run, n, i) {
      var j: nat :| HitAt(run, j, i) && NotClearedSince(run, j, i);
      Earlier(run, j, i, 0);
      NotClearedEarlier(run, j, i);
    }
    if HitAt(run, n, i) {
      assert NotClearedSince(run, n, i);
    }
    if HitSinceCleared(run[..n], i) && !ClearedAt(run, n, i) {
      var j: nat :| HitAt(run[..n], j, i) && NotClearedSince(run[..n], j, i);
      Earlier(run, j, i, 0);
      NotClearedEarlier(run, j, i);
    }
  }

  lemma NotClearedEarlier(run: seq<Action>, j: nat, i: nat)
    requires j + 1 < |run|
    ensures NotClearedSince(run, j, i) <==> NotClearedSince(run[..|run| - 1], j, i) && !ClearedAt(run, |run| - 1, i)
  {
    var n := |run| - 1;
    forall m: nat | j < m < n ensures ClearedAt(run[..n], m, i) <==> ClearedAt(run, m, i) {
    }
    if NotClearedSince(run[..n], j, i) && !ClearedAt(run, n, i) {
      forall m: nat | j < m < |run| ensures !ClearedAt(run, m, i) {
        assert m < n ==> !ClearedAt(run[..n], m, i);
      }
    }
  }

  lemma KilledStep(s: Sys, a: Action, s': Sys, i: nat)
    requires Inv(s) && Step(s, a) == Some(s') && i < |s.t|
    ensures |s'.t| == |s.t|
    ensures s'.t[i].killed <==>
      (a.KillPid? && FirstWithPid(s.t, a.pid) == Some(i))
      || (s.t[i].killed && !((a.Wait? || a.Join?) && a.found.Reaped? && a.found.slot == i))
  {
    if a.Exit? {
      ExitedAt(s.t, a.q, i);
    }
  }

  lemma {:induction false} KilledIsHit(run: seq<Action>, s: Sys, i: nat)
    requires After(run) == Some(s) && i < |s.t|
    ensures s.t[i].killed <==> HitSinceCleared(run, i)
  {
    if run != [] {
      var n := |run| - 1;
      var s0 := After(run[..n]).value;
      AfterInv(run[..n]);
      KilledStep(s0, run[n], s, i);
      KilledIsHit(run[..n], s0, i);
      HitStep(run, i);
    }
  }

  /** A process is born killed exactly when a kill has found its entry since the entry was
      last cleared by wait or join; allocproc does not clear the mark. */
  lemma BornKilledExactlyWhen(run: seq<Action>, s: Sys, q: nat, s': Sys)
    requires After(run) == Some(s) && Step(s, Publish(q)) == Some(s')
    ensures q < |s.at| && s.at[q].slot < |s'.t| && s'.t[s.at[q].slot].state == RUNNABLE
    ensures s'.t[s.at[q].slot].killed <==> HitSinceCleared(run, s.at[q].slot)
  {
    KilledIsHit(run, s, s.at[q].slot);
  }

  /** By way of a failed fork: the entry keeps its number and is found by it. */
  lemma BornKilled() returns (run: seq<Action>, s: Sys)
    ensures After(run) == Some(s) && |s.t| > 1 && s.t[1].state == RUNNABLE && s.t[1].killed
    ensures forall k :: 0 <= k < |run| && run[k].KillPid? ==> run[k].pid != s.t[1].pid
  {
    var run2, s2 := AbandonedFork();
    var s3 := Step(s2, KillPid(2)).value;
    FirstWithPidIs(s2.t, 2, 1);
    Extend(run2, s2, KillPid(2), s3);
    run, s := MakeChild(run2 + [KillPid(2)], s3, INIT, 1, false);
  }

  lemma AbandonedFork() returns (run: seq<Action>, s: Sys)
    ensures run == [Alloc(INIT, 1, false), GiveUp(INIT)] && After(run) == Some(s)
    ensures s == Boot().(t := Boot().t[1 := FREE.(pid := 2)], nextpid := 3)
  {
    var s0 := Boot();
    var s1 := Step(s0, Alloc(INIT, 1, false)).value;
    Extend([], s0, Alloc(INIT, 1, false), s1);
    s := Step(s1, GiveUp(INIT)).value;
    Extend([Alloc(INIT, 1, false)], s1, GiveUp(INIT), s);
    run := [Alloc(INIT, 1, false), GiveUp(INIT)];
    assert run == [Alloc(INIT, 1, false)] + [GiveUp(INIT)] && [] + [Alloc(INIT, 1, false)] == [Alloc(INIT, 1, false)];
  }

  /** By way of kill(0): the first entry never used, or reaped, is found by it. */
  lemma BornKilledByZero() returns (run: seq<Action>, s: Sys)
    ensures After(run) == Some(s) && |s.t| > 1 && s.t[1].state == RUNNABLE && s.t[1].killed
    ensures forall k :: 0 <= k < |run| ==> !run[k].GiveUp? && (run[k].KillPid? ==> run[k].pid == 0)
  {
    var s0 := Boot();
    var s1 := Step(s0, KillPid(0)).value;
    FirstWithPidIs(s0.t, 0, 1);
    Extend([], s0, KillPid(0), s1);
    run, s := MakeChild([] + [KillPid(0)], s1, INIT, 1, false);
  }

  // ----- When join can return -----

  /** Some continuation in which no kill finds q ends with q out of its call. */
  ghost predicate CanReturn(s: Sys, q: nat) {
    exists run :: ReturnsBy(s, run, q)
  }

  ghost predicate ReturnsBy(s: Sys, run: seq<Action>, q: nat) {
    && Onward(s, run).Some? && Spares(s, run, q)
    && var s' := Onward(s, run).value; q < |s'.at| && s'.at[q] == Free
  }

  lemma {:induction false} OnwardFirst(s: Sys, a: Action, s1: Sys, run: seq<Action>)
    requires Step(s, a) == Some(s1)
    ensures Onward(s, [a] + run) == Onward(s1, run)
  {
    var all := [a] + run;
    if run == [] {
      assert all == [a] && all[..0] == [];
      OnwardLast(s, all);
    } else {
      var n := |run| - 1;
      assert all[..n + 1] == [a] + run[..n] && all[n + 1] == run[n];
      OnwardFirst(s, a, s1, run[..n]);
      OnwardLast(s, all);
    }
  }

  lemma OnwardLast(s: Sys, run: seq<Action>)
    requires run != []
    ensures var before := Onward(s, run[..|run| - 1]);
      Onward(s, run) == if before.None? then None else Step(before.value, run[|run| - 1])
  {
  }

  /** A step that does not kill q, and then a continuation. */
  lemma ReturnsFirst(s: Sys, a: Action, s1: Sys, run: seq<Action>, q: nat)
    requires Step(s, a) == Some(s1) && ReturnsBy(s1, run, q)
    requires a.KillPid? ==> FirstWithPid(s.t, a.pid) != Some(q)
    ensures CanReturn(s, q)
  {
    var all := [a] + run;
    OnwardFirst(s, a, s1, run);
    forall k | 0 <= k < |all| && all[k].KillPid? && Onward(s, all[..k]).Some?
      ensures FirstWithPid(Onward(s, all[..k]).value.t, all[k].pid) != Some(q)
    {
      if k == 0 {
        assert Onward(s, []) == Some(s);
      } else {
        assert all[..k] == [a] + run[..k - 1];
        OnwardFirst(s, a, s1, run[..k - 1]);
      }
    }
    assert ReturnsBy(s, all, q);
  }

  /** q sleeps in join(tid), and c is its thread with that number. */
  ghost predicate Awaits(s: Sys, q: nat, tid: int, c: nat) {
    && Inv(s) && q < |s.t| == |s.at| && s.at[q] == InJoin(tid) && s.t[q].state == SLEEPING
    && c < |s.t| && Child(s.t[c], q, true) && s.t[c].pid == tid
  }

  lemma AwaitedAlive(s: Sys, q: nat, tid: int, c: nat)
    requires Awaits(s, q, tid, c)
    ensures Alive(s.t[c]) && c != INIT && c != q
  {
    assert EntryOk(s, c) && EntryOk(s, q) && SleeperOk(s, q);
    assert !Reapable(s.t[c], q, true, tid);
  }

  /** c is running and in no call: it exits, and the next scan reaps it. */
  lemma ReturnFromFree(s: Sys, q: nat, tid: int, c: nat)
    requires Awaits(s, q, tid, c) && Active(s, c) && s.at[c] == Free
    ensures CanReturn(s, q)
  {
    AwaitedAlive(s, q, tid, c);
    var found, s' := JoinCanReturn(s, q, tid, c);
    var run := [Exit(c), Join(q, tid, found)];
    assert ReturnsBy(s, run, q);
  }

  /** The end of a fork or clone under way. */
  lemma ReturnFromMaking(s: Sys, q: nat, tid: int, c: nat)
    requires Awaits(s, q, tid, c) && Active(s, c) && s.at[c].Making?
    ensures CanReturn(s, q)
  {
    AwaitedAlive(s, q, tid, c);
    assert MakerOk(s, c);
    var i := s.at[c].slot;
    var a := if s.at[c].filled then Publish(c) else GiveUp(c);
    assert EntryOk(s, i);
    var s1 := Step(s, a).value;
    StepInv(s, a, s1);
    assert Awaits(s1, q, tid, c);
    AddReturn(s, a, s1, q, tid, c);
  }

  lemma AddReturn(s: Sys, a: Action, s1: Sys, q: nat, tid: int, c: nat)
    requires Step(s, a) == Some(s1) && Awaits(s1, q, tid, c) && Active(s1, c) && s1.at[c] == Free && !a.KillPid?
    ensures CanReturn(s, q)
  {
    ReturnFromFree(s1, q, tid, c);
    var run :| ReturnsBy(s1, run, q);
    ReturnsFirst(s, a, s1, run, q);
  }

  /** Every scan finds something. */
  lemma SomeScan(t: Table, q: int, thread: bool, tid: int) returns (found: Scan)
    ensures Scanned(t, q, thread, tid, found)
  {
    if k: nat :| k < |t| && Reapable(t[k], q, thread, tid) {
      var i := 0;
      while !Reapable(t[i], q, thread, tid)
        invariant i <= k && forall j :: 0 <= j < i ==> !Reapable(t[j], q, thread, tid)
        decreases k - i
      {
        i := i + 1;
      }
      found := Reaped(i, t[i].pid);
    } else if exists k :: 0 <= k < |t| && Child(t[k], q, thread) {
      found := MustWait;
    } else {
      found := Childless;
    }
  }

  /** Once killed, c comes out of wait or join with its next scan. */
  lemma ReturnFromCall(s: Sys, q: nat, tid: int, c: nat)
    requires Awaits(s, q, tid, c) && Active(s, c) && s.t[c].killed && (s.at[c].InWait? || s.at[c].InJoin?)
    ensures CanReturn(s, q)
  {
    AwaitedAlive(s, q, tid, c);
    var thread, tid' := s.at[c].InJoin?, if s.at[c].InJoin? then s.at[c].tid else 0;
    var found := SomeScan(s.t, c, thread, tid');
    var a := if thread then Join(c, tid', found) else Wait(c, found);
    var s1 := Step(s, a).value;
    StepInv(s, a, s1);
    assert found.Reaped? ==> Reapable(s.t[found.slot], c, thread, tid');
    AddReturn(s, a, s1, q, tid, c);
  }

  /** Whatever c is doing, a kill gets it going. */
  lemma ReturnAtAll(s: Sys, q: nat, tid: int, c: nat)
    requires Awaits(s, q, tid, c) && Numbered(s)
    ensures CanReturn(s, q)
  {
    AwaitedAlive(s, q, tid, c);
    assert NumberOk(s, c) && MakerOk(s, c);
    FirstIs(s, c);
    var s1 := Step(s, KillPid(tid)).value;
    StepInv(s, KillPid(tid), s1);
    assert Awaits(s1, q, tid, c) && Active(s1, c) && s1.t[c].killed;
    if s1.at[c] == Free {
      ReturnFromFree(s1, q, tid, c);
    } else if s1.at[c].Making? {
      ReturnFromMaking(s1, q, tid, c);
    } else {
      ReturnFromCall(s1, q, tid, c);
    }
    var run :| ReturnsBy(s1, run, q);
    ReturnsFirst(s, KillPid(tid), s1, run, q);
  }

  /** Asleep in join(tid), q can come out of it without being killed exactly when it has a
      thread with that number. Init is an exception, as it gets the threads of processes
      that exit; init.c does not call join. */
  lemma JoinReturnsExactlyWhen(run: seq<Action>, s: Sys, q: nat, tid: int)
    requires After(run) == Some(s) && q < |s.t| == |s.at| && s.t[q].state == SLEEPING && s.at[q] == InJoin(tid)
    ensures q != INIT ==> (CanReturn(s, q) <==> ThreadNumbered(s.t, q, tid))
    ensures ThreadNumbered(s.t, q, tid) ==> CanReturn(s, q)
  {
    AfterNumbered(run);
    if c: nat :| c < |s.t| && Child(s.t[c], q, true) && s.t[c].pid == tid {
      ReturnAtAll(s, q, tid, c);
    } else if q != INIT {
      assert SleeperOk(s, q);
      NoReturn(s, q, tid);
    }
  }

  ghost predicate ThreadNumbered(t: Table, q: nat, tid: int) {
    exists c :: 0 <= c < |t| && t[c].parent == q && t[c].isThread && t[c].pid == tid
  }

  lemma NoReturn(s: Sys, q: nat, tid: int)
    requires Inv(s) && Stuck(s, q, tid)
    ensures !CanReturn(s, q)
  {
    forall run | Onward(s, run).Some? && Spares(s, run, q) ensures !ReturnsBy(s, run, q) {
      JoinHangs(s, run, q, tid);
    }
  }

  // ----- Which zombies are reaped -----

  /** Some continuation in which init does not call join reaps entry i. init.c never does. */
  ghost predicate CanBeReaped(s: Sys, i: nat) {
    exists run :: ReapedBy(s, run, i)
  }

  ghost predicate ReapedBy(s: Sys, run: seq<Action>, i: nat) {
    && Onward(s, run).Some? && (forall k :: 0 <= k < |run| && run[k].Join? ==> run[k].q != INIT)
    && var t := Onward(s, run).value.t; i < |t| && t[i].state == UNUSED
  }

  /** Init's own: a zombie whose parent is init, and which is a thread, or init, by some
      earlier call, in join. */
  predicate Orphan(s: Sys, i: nat) {
    && i < |s.t| == |s.at| && INIT < |s.at| && s.t[i].state == ZOMBIE && s.t[i].parent == INIT
    && (s.t[i].isThread || s.at[INIT].InJoin?)
  }

  /** wait passes over threads: such an entry stays. */
  lemma {:induction false} OrphanStays(s: Sys, run: seq<Action>, i: nat)
    requires Inv(s) && Orphan(s, i) && Onward(s, run).Some?
    requires forall k :: 0 <= k < |run| && run[k].Join? ==> run[k].q != INIT
    ensures Inv(Onward(s, run).value) && Orphan(Onward(s, run).value, i)
  {
    if run != [] {
      var n := |run| - 1;
      OrphanStays(s, run[..n], i);
      var s0, s1 := Onward(s, run[..n]).value, Onward(s, run).value;
      StepInv(s0, run[n], s1);
      OrphanStep(s0, run[n], s1, i);
    }
  }

  lemma OrphanStep(s: Sys, a: Action, s': Sys, i: nat)
    requires Inv(s) && Orphan(s, i) && Step(s, a) == Some(s') && !(a.Join? && a.q == INIT)
    ensures Orphan(s', i)
  {
    match a
    case Fill(q) => assert MakerOk(s, q);
    case GiveUp(q) => assert MakerOk(s, q);
    case Publish(q) => assert MakerOk(s, q) && EntryOk(s, INIT);
    case Exit(q) => ExitedAt(s.t, q, i);
    case Wait(q, found) => assert found.Reaped? ==> Reapable(s.t[found.slot], q, false, 0);
    case Join(q, tid, found) => assert found.Reaped? ==> Reapable(s.t[found.slot], q, true, tid);
    case _ =>
  }

  /** A zombie that is not init's own, with its parent q. */
  ghost predicate Left(s: Sys, i: nat, q: nat) {
    && Inv(s) && Numbered(s) && i < |s.t| && s.t[i].state == ZOMBIE && q == s.t[i].parent && q < |s.t|
    && !Orphan(s, i)
  }

  lemma LeftAlive(s: Sys, i: nat, q: nat)
    requires Left(s, i, q)
    ensures Alive(s.t[q]) && q != i && i != INIT && s.t[i].pid != 0 && s.t[q].pid != 0
  {
    assert EntryOk(s, i) && EntryOk(s, INIT) && NumberOk(s, i) && NumberOk(s, q);
  }

  /** A step, and then a continuation. */
  lemma ReapedFirst(s: Sys, a: Action, s1: Sys, i: nat)
    requires Step(s, a) == Some(s1) && CanBeReaped(s1, i) && (a.Join? ==> a.q != INIT)
    ensures CanBeReaped(s, i)
  {
    var run :| ReapedBy(s1, run, i);
    OnwardFirst(s, a, s1, run);
    var all := [a] + run;
    forall k | 0 <= k < |all| && all[k].Join? ensures all[k].q != INIT {
      assert k > 0 ==> all[k] == run[k - 1];
    }
    assert ReapedBy(s, all, i);
  }

  lemma ReapedNow(s: Sys, i: nat)
    requires i < |s.t| && s.t[i].state == UNUSED
    ensures CanBeReaped(s, i)
  {
    assert ReapedBy(s, [], i);
  }

  /** What a step that leaves the zombie leaves of it. */
  lemma LeftKept(s: Sys, a: Action, s1: Sys, i: nat, q: nat)
    requires Left(s, i, q) && Step(s, a) == Some(s1) && s1.t[i] == s.t[i]
    requires q == INIT ==> !s1.at[q].InJoin?
    ensures Left(s1, i, q)
  {
    StepInv(s, a, s1);
    StepNumbered(s, a, s1);
  }

  /** The parent of a thread, in no call, joins it. */
  lemma ReapThread(s: Sys, i: nat, q: nat)
    requires Left(s, i, q) && s.t[i].isThread && Active(s, q) && s.at[q] == Free
    ensures CanBeReaped(s, i)
  {
    LeftAlive(s, i, q);
    var tid := s.t[i].pid;
    forall k: nat | k < i ensures !Reapable(s.t[k], q, true, tid) {
    }
    var a := Join(q, tid, Reaped(i, tid));
    assert Scanned(s.t, q, true, tid, a.found);
    var s1 := Step(s, a).value;
    ReapedNow(s1, i);
    ReapedFirst(s, a, s1, i);
  }

  /** The parent of a process calls wait, which takes those in front of it first. */
  lemma {:induction false} ReapProcess(s: Sys, i: nat, q: nat, from: nat)
    requires Left(s, i, q) && !s.t[i].isThread && Active(s, q) && s.at[q] == Free
    requires from <= i && forall k: nat :: k < from ==> !Reapable(s.t[k], q, false, 0)
    ensures CanBeReaped(s, i)
    decreases i - from
  {
    LeftAlive(s, i, q);
    if Reapable(s.t[from], q, false, 0) {
      var a := Wait(q, Reaped(from, s.t[from].pid));
      assert Scanned(s.t, q, false, 0, a.found);
      var s1 := Step(s, a).value;
      if from == i {
        ReapedNow(s1, i);
      } else {
        LeftKept(s, a, s1, i, q);
        ReapProcess(s1, i, q, from + 1);
      }
      ReapedFirst(s, a, s1, i);
    } else {
      ReapProcess(s, i, q, from + 1);
    }
  }

  lemma ReapFromFree(s: Sys, i: nat, q: nat)
    requires Left(s, i, q) && Active(s, q) && s.at[q] == Free
    ensures CanBeReaped(s, i)
  {
    if s.t[i].isThread {
      ReapThread(s, i, q);
    } else {
      ReapProcess(s, i, q, 0);
    }
  }

  /** The parent finishes the fork or clone it is in. */
  lemma ReapFromMaking(s: Sys, i: nat, q: nat)
    requires Left(s, i, q) && Active(s, q) && s.at[q].Making?
    ensures CanBeReaped(s, i)
  {
    LeftAlive(s, i, q);
    assert MakerOk(s, q);
    var slot := s.at[q].slot;
    assert EntryOk(s, slot);
    var a := if s.at[q].filled then Publish(q) else GiveUp(q);
    var s1 := Step(s, a).value;
    LeftKept(s, a, s1, i, q);
    ReapFromFree(s1, i, q);
    ReapedFirst(s, a, s1, i);
  }

  /** The parent, killed, comes out of wait or join with its next scan, if that does not reap
      the zombie. */
  lemma ReapFromCall(s: Sys, i: nat, q: nat)
    requires Left(s, i, q) && Active(s, q) && s.t[q].killed && (s.at[q].InWait? || (s.at[q].InJoin? && q != INIT))
    ensures CanBeReaped(s, i)
  {
    LeftAlive(s, i, q);
    var thread, tid := s.at[q].InJoin?, if s.at[q].InJoin? then s.at[q].tid else 0;
    var found := SomeScan(s.t, q, thread, tid);
    var a := if thread then Join(q, tid, found) else Wait(q, found);
    var s1 := Step(s, a).value;
    assert found.Reaped? ==> Reapable(s.t[found.slot], q, thread, tid);
    if found.Reaped? && found.slot == i {
      ReapedNow(s1, i);
    } else {
      LeftKept(s, a, s1, i, q);
      ReapFromFree(s1, i, q);
    }
    ReapedFirst(s, a, s1, i);
  }

  /** Whatever the parent is doing, a kill gets it going. */
  lemma ReapAtAll(s: Sys, i: nat, q: nat)
    requires Left(s, i, q) && (q == INIT ==> !s.at[q].InJoin?)
    ensures CanBeReaped(s, i)
  {
    LeftAlive(s, i, q);
    assert MakerOk(s, q);
    FirstIs(s, q);
    var a := KillPid(s.t[q].pid);
    var s1 := Step(s, a).value;
    LeftKept(s, a, s1, i, q);
    if s1.at[q] == Free {
      ReapFromFree(s1, i, q);
    } else if s1.at[q].Making? {
      ReapFromMaking(s1, i, q);
    } else {
      ReapFromCall(s1, i, q);
    }
    ReapedFirst(s, a, s1, i);
  }

  /** Over every run: as long as init does not call join, a zombie can come to be reaped
      exactly when it is not one of init's own. */
  lemma ReapedExactlyWhen(run: seq<Action>, s: Sys, i: nat)
    requires After(run) == Some(s) && i < |s.t| && s.t[i].state == ZOMBIE
    ensures CanBeReaped(s, i) <==> !Orphan(s, i)
  {
    AfterNumbered(run);
    if Orphan(s, i) {
      forall run' | ReapedBy(s, run', i) ensures false {
        OrphanStays(s, run', i);
      }
    } else {
      assert EntryOk(s, i);
      ReapAtAll(s, i, s.t[i].parent);
    }
  }

  /** A process with a thread that has ended. */
  lemma ThreadEnded() returns (run: seq<Action>, s: Sys)
    ensures After(run) == Some(s) && Active(s, 1) && s.at[1] == Free && |s.t| == |s.at| > 2
    ensures s.t[2].state == ZOMBIE && s.t[2].isThread && s.t[2].parent == 1
    ensures forall k :: 0 <= k < |run| ==> !run[k].Join? && !run[k].KillPid?
  {
    var run1, s1 := MakeChild([], Boot(), INIT, 1, false);
    var run2, s2 := MakeChild(run1, s1, 1, 2, true);
    s := Step(s2, Exit(2)).value;
    Extend(run2, s2, Exit(2), s);
    ExitedAt(s2.t, 2, 1);
    ExitedAt(s2.t, 2, 2);
    run := run2 + [Exit(2)];
  }

  /** Such a zombie is reached: the process ends after its thread has. */
  lemma OrphanLeft() returns (run: seq<Action>, s: Sys)
    ensures After(run) == Some(s) && Orphan(s, 2) && !CanBeReaped(s, 2)
    ensures forall k :: 0 <= k < |run| ==> !run[k].Join? && !run[k].KillPid?
  {
    var run1, s1 := ThreadEnded();
    s := Step(s1, Exit(1)).value;
    Extend(run1, s1, Exit(1), s);
    ExitedAt(s1.t, 1, 2);
    run := run1 + [Exit(1)];
    ReapedExactlyWhen(run, s, 2);
  }
}
