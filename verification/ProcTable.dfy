/** The sections of proc.c that run under ptable.lock: loops over the process table, each
    proved to do what a function on the table's contents says. */
module ProcTable {
  import opened Options

  const NPROC: nat := 64

  /** initproc: allocproc gives the first user process the first slot. */
  const INIT: nat := 0

  /** The null parent. */
  const NOBODY: int := -1

  /** RUNNABLE stands for RUNNING too: which runnable processes have a processor is left open. */
  datatype ProcState = UNUSED | EMBRYO | SLEEPING | RUNNABLE | ZOMBIE

  /** A channel is an address: 0, that of a process table entry, or another. */
  datatype Chan = NoChan | OnProc(slot: int) | Other(address: int)

  datatype Proc = Proc(state: ProcState, pid: int, parent: int, chan: Chan, killed: bool, isThread: bool)

  const FREE: Proc := Proc(UNUSED, 0, NOBODY, NoChan, false, false)

  type Table = seq<Proc>

  // ----- wakeup1 -----

  function Roused(p: Proc, chan: Chan): Proc {
    if p.state == SLEEPING && p.chan == chan then p.(state := RUNNABLE) else p
  }

  function Woken(t: Table, chan: Chan): (r: Table)
    ensures |r| == |t| && forall i :: 0 <= i < |t| ==> r[i] == Roused(t[i], chan)
  {
    seq(|t|, i requires 0 <= i < |t| => Roused(t[i], chan))
  }

  // ----- exit and thexit -----

  ghost predicate ZombieChild(t: Table, q: int, n: nat) {
    exists i :: 0 <= i < n <= |t| && t[i].parent == q && t[i].state == ZOMBIE
  }

  function Adopted(p: Proc, q: int): Proc {
    if p.parent == q then p.(parent := INIT) else p
  }

  /** The first n entries passed on to init, and init woken if one of them is a zombie. */
  ghost function PassedOn(t: Table, q: int, n: nat): (r: Table)
    ensures |r| == |t|
  {
    var woken := if ZombieChild(t, q, n) then Woken(t, OnProc(INIT)) else t;
    seq(|t|, i requires 0 <= i < |t| => if i < n then Adopted(woken[i], q) else woken[i])
  }

  /** The table after q has called exit or thexit: its parent is woken, its children are
      init's, init is woken if there is a zombie among them, and q is a zombie. */
  ghost function Exited(t: Table, q: nat): (r: Table)
    requires q < |t|
    ensures |r| == |t|
  {
    var s := PassedOn(Woken(t, OnProc(t[q].parent)), q, |t|);
    s[q := s[q].(state := ZOMBIE)]
  }

  /** What exit leaves of an entry. */
  lemma ExitedAt(t: Table, q: nat, i: nat)
    requires q < |t| && i < |t|
    ensures var p, p' := t[i], Exited(t, q)[i];
      var woken := p.state == SLEEPING && (p.chan == OnProc(t[q].parent)
        || (p.chan == OnProc(INIT) && exists k :: 0 <= k < |t| && t[k].parent == q && t[k].state == ZOMBIE));
      && p'.parent == (if p.parent == q then INIT else p.parent)
      && p'.state == (if i == q then ZOMBIE else if woken then RUNNABLE else p.state)
      && p' == p.(parent := p'.parent, state := p'.state)
  {
    var w := Woken(t, OnProc(t[q].parent));
    var z := if ZombieChild(w, q, |w|) then Woken(w, OnProc(INIT)) else w;
    assert w[i] == Roused(t[i], OnProc(t[q].parent)) && (z == w || z[i] == Roused(w[i], OnProc(INIT)));
    assert PassedOn(w, q, |w|)[i] == Adopted(z[i], q);
    ZombiesKept(t, w, q, OnProc(t[q].parent));
  }

  lemma ZombiesKept(t: Table, w: Table, q: int, chan: Chan)
    requires w == Woken(t, chan)
    ensures ZombieChild(w, q, |w|) <==> exists k :: 0 <= k < |t| && t[k].parent == q && t[k].state == ZOMBIE
  {
    forall k | 0 <= k < |t| ensures w[k].parent == t[k].parent && (w[k].state == ZOMBIE <==> t[k].state == ZOMBIE) {
      assert w[k] == Roused(t[k], chan);
    }
  }

  // ----- wait and join -----

  predicate Child(p: Proc, q: int, thread: bool) {
    p.parent == q && p.isThread == thread
  }

  /** A zombie that wait() (thread == false) or join(tid) (thread == true) of q may reap. */
  predicate Reapable(p: Proc, q: int, thread: bool, tid: int) {
    Child(p, q, thread) && p.state == ZOMBIE && (thread ==> p.pid == tid)
  }

  datatype Scan = Reaped(slot: nat, pid: int) | Childless | MustWait

  ghost predicate Scanned(t: Table, q: int, thread: bool, tid: int, r: Scan) {
    match r
    case Reaped(i, pid) =>
      && i < |t| && Reapable(t[i], q, thread, tid) && pid == t[i].pid
      && forall k :: 0 <= k < i ==> !Reapable(t[k], q, thread, tid)
    case Childless =>
      forall k :: 0 <= k < |t| ==> !Child(t[k], q, thread)
    case MustWait =>
      && (forall k :: 0 <= k < |t| ==> !Reapable(t[k], q, thread, tid))
      && exists k :: 0 <= k < |t| && Child(t[k], q, thread)
  }

  // ----- kill and allocproc -----

  ghost function FirstWithPid(t: Table, pid: int): (r: Option<nat>)
    ensures r.Some? ==> r.value < |t| && t[r.value].pid == pid && forall k :: 0 <= k < r.value ==> t[k].pid != pid
    ensures r.None? ==> forall k :: 0 <= k < |t| ==> t[k].pid != pid
  {
    if t == [] then None
    else if t[0].pid == pid then Some(0)
    else
      var r := FirstWithPid(t[1..], pid);
      assert forall k :: 1 <= k < |t| ==> t[k] == t[1..][k - 1];
      if r.None? then None else Some(r.value + 1)
  }

  /** The first entry with the pid is marked, and runnable again if it was asleep. An entry
      left unused by a failed fork keeps its pid, so it may be the one marked. */
  ghost function Killed(t: Table, pid: int): (r: Table)
    ensures |r| == |t|
  {
    var k := FirstWithPid(t, pid);
    if k.None? then t
    else
      var p := t[k.value].(killed := true);
      t[k.value := if p.state == SLEEPING then p.(state := RUNNABLE) else p]
  }

  lemma FirstWithPidIs(t: Table, pid: int, p: nat)
    requires p < |t| && t[p].pid == pid && forall k :: 0 <= k < p ==> t[k].pid != pid
    ensures FirstWithPid(t, pid) == Some(p)
  {
  }

  /** Who is hit, and what becomes of it. */
  lemma KilledAt(t: Table, pid: int, i: nat)
    requires i < |t|
    ensures var p, p' := t[i], Killed(t, pid)[i];
      if p.pid == pid && forall k :: 0 <= k < i ==> t[k].pid != pid
      then p' == p.(killed := true, state := if p.state == SLEEPING then RUNNABLE else p.state)
      else p' == p
  {
    if t[i].pid == pid && forall k :: 0 <= k < i ==> t[k].pid != pid {
      FirstWithPidIs(t, pid, i);
    }
  }

  // ----- The loops -----

  class Ptable {
    const proc: array<Proc>

    constructor ()
      ensures fresh(proc) && proc.Length == NPROC
      ensures forall i :: 0 <= i < NPROC ==> proc[i] == FREE
    {
      proc := new Proc[NPROC](_ => FREE);
    }

    method Wakeup1(chan: Chan)
      modifies proc
      ensures proc[..] == Woken(old(proc[..]), chan)
      ensures forall i :: 0 <= i < proc.Length ==> !(proc[i].state == SLEEPING && proc[i].chan == chan)
      ensures forall i :: 0 <= i < proc.Length && old(proc[i]).state == SLEEPING && old(proc[i]).chan == chan ==>
        proc[i] == old(proc[i]).(state := RUNNABLE)
      ensures forall i :: 0 <= i < proc.Length && !(old(proc[i]).state == SLEEPING && old(proc[i]).chan == chan) ==>
        proc[i] == old(proc[i])
    {
      for p := 0 to proc.Length
        invariant forall i :: 0 <= i < proc.Length ==> proc[i] == if i < p then Roused(old(proc[i]), chan) else old(proc[i])
      {
        if proc[p].state == SLEEPING && proc[p].chan == chan {
          proc[p] := proc[p].(state := RUNNABLE);
        }
      }
    }

    /** The section of exit and of thexit that runs under the lock. */
    method ExitSection(q: nat)
      requires q < proc.Length
      modifies proc
      ensures proc[..] == Exited(old(proc[..]), q)
    {
      Wakeup1(OnProc(proc[q].parent));
      ghost var t := proc[..];
      for p := 0 to proc.Length
        invariant proc[..] == PassedOn(t, q, p)
      {
        PassOne(t, q, p);
        assert proc[..][p] == proc[p];
        if proc[p].parent == q {
          proc[p] := proc[p].(parent := INIT);
          if proc[p].state == ZOMBIE {
            Wakeup1(OnProc(INIT));
          }
        }
      }
      proc[q] := proc[q].(state := ZOMBIE);
    }

    /** The scan of wait and of join: what to do, and the table after it. `q` is proc. */
    method ScanChildren(q: nat, thread: bool, tid: int) returns (r: Scan)
      requires q < proc.Length
      modifies proc
      ensures Scanned(old(proc[..]), q, thread, tid, r)
      ensures r.Reaped? ==> r.slot < proc.Length && var p := old(proc[..])[r.slot];
        p.parent == q && p.isThread == thread && p.state == ZOMBIE && p.pid == r.pid && (thread ==> p.pid == tid)
      ensures r.Childless? ==> forall k :: 0 <= k < proc.Length ==> proc[k].parent != q || proc[k].isThread != thread
      ensures r.MustWait? ==> forall k :: 0 <= k < proc.Length && proc[k].parent == q && proc[k].isThread == thread ==>
        proc[k].state != ZOMBIE || (thread && proc[k].pid != tid)
      ensures proc[..] == if r.Reaped? then old(proc[..])[r.slot := FREE.(chan := old(proc[..])[r.slot].chan)] else old(proc[..])
    {
      var havekids := false;
      for p := 0 to proc.Length
        invariant proc[..] == old(proc[..])
        invariant havekids <==> exists k :: 0 <= k < p && Child(proc[..][k], q, thread)
        invariant forall k :: 0 <= k < p ==> !Reapable(proc[..][k], q, thread, tid)
      {
        assert proc[..][p] == proc[p];
        if proc[p].parent != q || proc[p].isThread != thread {
          continue;
        }
        havekids := true;
        if proc[p].state == ZOMBIE && (thread ==> proc[p].pid == tid) {
          var pid := proc[p].pid;
          proc[p] := Proc(UNUSED, 0, NOBODY, proc[p].chan, false, false);
          return Reaped(p, pid);
        }
      }
      return if havekids then MustWait else Childless;
    }

    /** kill. */
    method Kill(pid: int) returns (found: bool)
      modifies proc
      ensures found <==> FirstWithPid(old(proc[..]), pid).Some?
      ensures proc[..] == Killed(old(proc[..]), pid)
    {
      for p := 0 to proc.Length
        invariant proc[..] == old(proc[..])
        invariant forall k :: 0 <= k < p ==> proc[..][k].pid != pid
      {
        assert proc[..][p] == proc[p];
        if proc[p].pid == pid {
          FirstWithPidIs(proc[..], pid, p);
          proc[p] := proc[p].(killed := true);
          if proc[p].state == SLEEPING {
            proc[p] := proc[p].(state := RUNNABLE);
          }
          return true;
        }
      }
      return false;
    }

    /** The scan of allocproc: the first unused entry, or -1. */
    method Alloc(nextpid: int) returns (slot: int)
      modifies proc
      ensures slot == -1 ==> proc[..] == old(proc[..]) && forall k :: 0 <= k < proc.Length ==> proc[k].state != UNUSED
      ensures slot != -1 ==> 0 <= slot < proc.Length && old(proc[..])[slot].state == UNUSED
      ensures slot != -1 ==> forall k :: 0 <= k < slot ==> proc[k].state != UNUSED
      ensures slot != -1 ==> proc[..] == old(proc[..])[slot := old(proc[..])[slot].(state := EMBRYO, pid := nextpid)]
    {
      for p := 0 to proc.Length
        invariant proc[..] == old(proc[..])
        invariant forall k :: 0 <= k < p ==> proc[..][k].state != UNUSED
      {
        assert proc[..][p] == proc[p];
        if proc[p].state == UNUSED {
          proc[p] := proc[p].(state := EMBRYO, pid := nextpid);
          return p;
        }
      }
      return -1;
    }
  }

  /** One turn of the loop in exit. */
  lemma PassOne(t: Table, q: int, p: nat)
    requires p < |t|
    ensures var s := PassedOn(t, q, p); var s' := s[p := Adopted(s[p], q)];
      PassedOn(t, q, p + 1) == if s[p].parent == q && s[p].state == ZOMBIE then Woken(s', OnProc(INIT)) else s'
  {
    assert ZombieChild(t, q, p + 1) <==> ZombieChild(t, q, p) || (t[p].parent == q && t[p].state == ZOMBIE);
    var s := PassedOn(t, q, p);
    var s' := s[p := Adopted(s[p], q)];
    if s[p].parent == q && s[p].state == ZOMBIE {
      var r, w := PassedOn(t, q, p + 1), Woken(t, OnProc(INIT));
      forall i | 0 <= i < |t| ensures r[i] == Roused(s'[i], OnProc(INIT)) {
        assert r[i] == if i <= p then Adopted(w[i], q) else w[i];
        var x := if ZombieChild(t, q, p) then w else t;
        assert s'[i] == if i <= p then Adopted(x[i], q) else x[i];
        assert w[i] == Roused(x[i], OnProc(INIT));
      }
      assert r == Woken(s', OnProc(INIT));
    } else {
      assert PassedOn(t, q, p + 1) == s';
    }
  }
}
