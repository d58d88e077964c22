/** Any number of readers, writers, closes and kills on one pipe, in every interleaving of
    the stretches that run under the pipe's lock. */
module PipeRuns {
  import opened Options
  import opened Pipe

  /** A process outside the pipe's code, or in piperead or pipewrite: asleep, or woken and
      about to take the lock again. */
  datatype Where = Outside | Reading(n: nat, asleep: bool) | Writing(addr: seq<Byte>, i: nat, asleep: bool)

  /** `accepted` and `delivered` record the bytes put in and handed out so far. */
  datatype State = State(waiting: seq<Byte>, readopen: bool, writeopen: bool, at: seq<Where>, killed: seq<bool>,
                         accepted: seq<Byte>, delivered: seq<Byte>)

  datatype Action = Read(q: nat, n: nat) | Write(q: nat, addr: seq<Byte>) | Resume(q: nat) | Kill(q: nat) | Close(writable: bool)

  predicate Shaped(s: State) {
    |s.at| == |s.killed| && |s.waiting| <= PIPESIZE
  }

  function Start(n: nat): State {
    State([], true, true, seq(n, _ => Outside), seq(n, _ => false), [], [])
  }

  function Woken(w: Where, readers: bool): Where {
    if readers && w.Reading? then Reading(w.n, false)
    else if !readers && w.Writing? then Writing(w.addr, w.i, false)
    else w
  }

  function WakeAll(at: seq<Where>, readers: bool): (r: seq<Where>)
    ensures |r| == |at| && forall q :: 0 <= q < |at| ==> r[q] == Woken(at[q], readers)
  {
    seq(|at|, q requires 0 <= q < |at| => Woken(at[q], readers))
  }

  function WriteStretch(s: State, q: nat, addr: seq<Byte>, start: nat): (r: State)
    requires q < |s.at| == |s.killed| && start <= |addr| && |s.waiting| <= PIPESIZE
    ensures Shaped(r)
  {
    var i := WriteEnd(s.waiting, addr, start);
    var end := WriteEnding(s.waiting, addr, start, s.readopen, s.killed[q]);
    var at := if end.Failed? then s.at else WakeAll(s.at, true);
    s.(waiting := s.waiting + addr[start..i], accepted := s.accepted + addr[start..i],
       at := at[q := if end.MustSleep? then Writing(addr, i, true) else Outside])
  }

  function ReadStretch(s: State, q: nat, n: nat): (r: State)
    requires q < |s.at| == |s.killed| && |s.waiting| <= PIPESIZE
    ensures Shaped(r)
  {
    match ReadEnding(s.waiting, s.writeopen, s.killed[q])
    case Done =>
      var k := Taken(s.waiting, n);
      s.(waiting := s.waiting[k..], delivered := s.delivered + s.waiting[..k], at := WakeAll(s.at, false)[q := Outside])
    case Failed => s.(at := s.at[q := Outside])
    case MustSleep => s.(at := s.at[q := Reading(n, true)])
  }

  /** The reference counts of the file keep an end open while a process is using it. */
  function Step(s: State, a: Action): (r: Option<State>)
    requires Shaped(s)
    ensures r.Some? ==> Shaped(r.value)
  {
    match a
    case Read(q, n) => if q < |s.at| && s.at[q] == Outside && s.readopen then Some(ReadStretch(s, q, n)) else None
    case Write(q, addr) =>
      if q < |s.at| && s.at[q] == Outside && s.writeopen then Some(WriteStretch(s, q, addr, 0)) else None
    case Resume(q) =>
      if q >= |s.at| || s.at[q] == Outside || s.at[q].asleep then None
      else if s.at[q].Reading? then Some(ReadStretch(s, q, s.at[q].n))
      else if s.at[q].i <= |s.at[q].addr| then Some(WriteStretch(s, q, s.at[q].addr, s.at[q].i))
      else None
    case Kill(q) =>
      if q >= |s.at| then None
      else Some(s.(killed := s.killed[q := true], at := s.at[q := Woken(s.at[q], s.at[q].Reading?)]))
    case Close(writable) =>
      if exists q :: 0 <= q < |s.at| && (if writable then s.at[q].Writing? else s.at[q].Reading?) then None
      else if writable then Some(s.(writeopen := false, at := WakeAll(s.at, true)))
      else Some(s.(readopen := false, at := WakeAll(s.at, false)))
  }

  function After(n: nat, run: seq<Action>): (r: Option<State>)
    ensures r.Some? ==> Shaped(r.value)
  {
    if run == [] then Some(Start(n))
    else
      var before := After(n, run[..|run| - 1]);
      if before.None? then None else Step(before.value, run[|run| - 1])
  }

  // ----- First in, first out -----

  lemma StepFifo(s: State, a: Action)
    requires Shaped(s) && s.delivered + s.waiting == s.accepted
    ensures Step(s, a).Some? ==> var s' := Step(s, a).value; s'.delivered + s'.waiting == s'.accepted
  {
  }

  /** In every interleaving the bytes delivered, followed by those waiting, are the bytes
      accepted: readers together get a prefix of what the writers wrote, in order. */
  lemma {:induction false} Fifo(n: nat, run: seq<Action>)
    requires After(n, run).Some?
    ensures var s := After(n, run).value; s.delivered + s.waiting == s.accepted && |s.waiting| <= PIPESIZE
  {
    if run != [] {
      Fifo(n, run[..|run| - 1]);
      StepFifo(After(n, run[..|run| - 1]).value, run[|run| - 1]);
    }
  }

  // ----- What one stretch achieves -----

  /** q, in piperead, goes on with n bytes to read. */
  predicate Reads(s: State, a: Action, q: nat, n: nat) {
    q < |s.at| && (a == Read(q, n) || (a == Resume(q) && s.at[q] == Reading(n, false)))
  }

  /** q, in pipewrite, goes on with the bytes of addr from i on. */
  predicate Writes(s: State, a: Action, q: nat, addr: seq<Byte>, i: nat) {
    q < |s.at| && i <= |addr| && ((a == Write(q, addr) && i == 0) || (a == Resume(q) && s.at[q] == Writing(addr, i, false)))
  }

  /** A read returns, with n bytes or all there are, exactly when there is a byte to read, no
      one left to write, or the reader has been killed; it sleeps otherwise. */
  lemma ReadDelivers(s: State, a: Action, s': State, q: nat, n: nat)
    requires Shaped(s) && Step(s, a) == Some(s') && Reads(s, a, q, n)
    ensures s'.at[q] == if s.waiting != [] || !s.writeopen || s.killed[q] then Outside else Reading(n, true)
    ensures s.delivered <= s'.delivered && |s'.delivered| <= |s.delivered| + n && s'.accepted == s.accepted
    ensures |s'.delivered| == |s.delivered| + n || s'.waiting == []
    ensures s'.delivered + s'.waiting == s.delivered + s.waiting
    ensures s.waiting != [] || !s.writeopen ==> forall r: nat :: !WriterAsleep(s', r)
  {
  }

  /** A write takes all its bytes and returns, or fills the pipe; then it fails if no one is
      left to read or the writer has been killed, and sleeps otherwise. */
  lemma WriteAccepts(s: State, a: Action, s': State, q: nat, addr: seq<Byte>, i: nat)
    requires Shaped(s) && Step(s, a) == Some(s') && Writes(s, a, q, addr, i)
    ensures exists k: nat ::
      && i <= k <= |addr| && (k == |addr| || |s'.waiting| == PIPESIZE)
      && s'.accepted == s.accepted + addr[i..k] && s'.waiting == s.waiting + addr[i..k] && s'.delivered == s.delivered
      && s'.at[q] == if k == |addr| || !s.readopen || s.killed[q] then Outside else Writing(addr, k, true)
    ensures s'.at[q] == Outside && s.readopen && !s.killed[q] ==> s'.accepted == s.accepted + addr[i..]
  {
    var k := WriteEnd(s.waiting, addr, i);
    assert addr[i..|addr|] == addr[i..];
  }

  // ----- Sleepers -----

  predicate ReaderAsleep(s: State, q: nat) {
    q < |s.at| && s.at[q].Reading? && s.at[q].asleep
  }

  predicate WriterAsleep(s: State, q: nat) {
    q < |s.at| && s.at[q].Writing? && s.at[q].asleep
  }

  ghost predicate Basics(s: State) {
    && Shaped(s)
    && (forall q: nat :: q < |s.at| && s.at[q].Reading? ==> s.readopen)
    && (forall q: nat :: q < |s.at| && s.at[q].Writing? ==> s.writeopen && s.at[q].i <= |s.at[q].addr|)
    && (forall q: nat :: WriterAsleep(s, q) ==> |s.waiting| == PIPESIZE && s.readopen)
  }

  ghost predicate ReadersWait(s: State) {
    forall q: nat :: ReaderAsleep(s, q) ==> s.waiting == [] && s.writeopen
  }

  lemma WriteBasics(s: State, q: nat, addr: seq<Byte>, start: nat)
    requires Basics(s) && q < |s.at| && start <= |addr| && s.writeopen && !WriterAsleep(s, q)
    ensures Basics(WriteStretch(s, q, addr, start))
  {
    var s' := WriteStretch(s, q, addr, start);
    forall r: nat | WriterAsleep(s', r) ensures |s'.waiting| == PIPESIZE && s'.readopen {
      assert r != q ==> WriterAsleep(s, r);
    }
  }

  lemma ReadBasics(s: State, q: nat, n: nat)
    requires Basics(s) && q < |s.at| && s.readopen && !WriterAsleep(s, q)
    ensures Basics(ReadStretch(s, q, n))
  {
    var s' := ReadStretch(s, q, n);
    forall r: nat ensures !WriterAsleep(s', r) {
      assert WriterAsleep(s', r) ==> WriterAsleep(s, r) && s.waiting == [];
    }
  }

  lemma StepBasics(s: State, a: Action)
    requires Basics(s)
    ensures Step(s, a).Some? ==> Basics(Step(s, a).value)
  {
    if Step(s, a).Some? {
      match a
      case Read(q, n) => ReadBasics(s, q, n);
      case Write(q, addr) => WriteBasics(s, q, addr, 0);
      case Resume(q) =>
        if s.at[q].Reading? {
          ReadBasics(s, q, s.at[q].n);
        } else {
          WriteBasics(s, q, s.at[q].addr, s.at[q].i);
        }
      case Kill(q) =>
        assert forall r: nat :: WriterAsleep(Step(s, a).value, r) ==> WriterAsleep(s, r);
      case Close(writable) =>
        assert forall r: nat :: WriterAsleep(Step(s, a).value, r) ==> WriterAsleep(s, r);
    }
  }

  /** The return at pipe.c:87: q, killed, has just filled the pipe and tells no reader. */
  ghost predicate FailsSilently(s: State, q: nat, addr: seq<Byte>, start: nat)
    requires q < |s.at| == |s.killed| && start <= |addr| && |s.waiting| <= PIPESIZE
  {
    && WriteEnding(s.waiting, addr, start, s.readopen, s.killed[q]) == Failed
    && WriteEnd(s.waiting, addr, start) > start
  }

  /** A step makes a reader miss its wakeup exactly when it is such a return while a reader
      is asleep. */
  lemma MissedExactlyWhen(s: State, q: nat, addr: seq<Byte>, start: nat)
    requires Basics(s) && ReadersWait(s) && q < |s.at| && start <= |addr| && s.writeopen && !ReaderAsleep(s, q)
    ensures !ReadersWait(WriteStretch(s, q, addr, start)) <==>
      FailsSilently(s, q, addr, start) && s.killed[q] && exists r: nat :: ReaderAsleep(s, r)
  {
    var s' := WriteStretch(s, q, addr, start);
    if r: nat :| ReaderAsleep(s, r) {
      assert s.waiting == [] && s.readopen;
      if FailsSilently(s, q, addr, start) {
        assert ReaderAsleep(s', r) && s'.waiting != [];
      }
    }
    forall r: nat | ReaderAsleep(s', r) ensures ReaderAsleep(s, r) {
    }
  }

  lemma ReadReadersWait(s: State, q: nat, n: nat)
    requires Basics(s) && ReadersWait(s) && q < |s.at| && !ReaderAsleep(s, q)
    ensures ReadersWait(ReadStretch(s, q, n))
  {
    var s' := ReadStretch(s, q, n);
    forall r: nat | ReaderAsleep(s', r) ensures s'.waiting == [] && s'.writeopen {
      assert r != q ==> ReaderAsleep(s, r);
    }
  }

  /** No killed writer gives up in this step after having written. */
  ghost predicate Quiet(s: State, a: Action)
    requires Shaped(s)
  {
    && (a.Write? && a.q < |s.at| ==> !(s.killed[a.q] && FailsSilently(s, a.q, a.addr, 0)))
    && (a.Resume? && a.q < |s.at| && s.at[a.q].Writing? && s.at[a.q].i <= |s.at[a.q].addr| ==>
          !(s.killed[a.q] && FailsSilently(s, a.q, s.at[a.q].addr, s.at[a.q].i)))
  }

  lemma StepReadersWait(s: State, a: Action)
    requires Basics(s) && ReadersWait(s) && Quiet(s, a)
    ensures Step(s, a).Some? ==> ReadersWait(Step(s, a).value)
  {
    if Step(s, a).Some? {
      match a
      case Read(q, n) => ReadReadersWait(s, q, n);
      case Write(q, addr) => MissedExactlyWhen(s, q, addr, 0);
      case Resume(q) =>
        if s.at[q].Reading? {
          ReadReadersWait(s, q, s.at[q].n);
        } else {
          MissedExactlyWhen(s, q, s.at[q].addr, s.at[q].i);
        }
      case Kill(q) =>
        assert forall r: nat :: ReaderAsleep(Step(s, a).value, r) ==> ReaderAsleep(s, r);
      case Close(writable) =>
        assert forall r: nat :: ReaderAsleep(Step(s, a).value, r) ==> ReaderAsleep(s, r);
    }
  }

  ghost predicate QuietRun(n: nat, run: seq<Action>) {
    forall k :: 0 <= k < |run| && After(n, run[..k]).Some? ==> Quiet(After(n, run[..k]).value, run[k])
  }

  lemma {:induction false} AfterBasics(n: nat, run: seq<Action>)
    requires After(n, run).Some?
    ensures Basics(After(n, run).value)
  {
    if run != [] {
      AfterBasics(n, run[..|run| - 1]);
      StepBasics(After(n, run[..|run| - 1]).value, run[|run| - 1]);
    }
  }

  lemma {:induction false} AfterReadersWait(n: nat, run: seq<Action>)
    requires After(n, run).Some? && QuietRun(n, run)
    ensures ReadersWait(After(n, run).value)
  {
    if run != [] {
      var k := |run| - 1;
      assert forall j :: 0 <= j < k ==> run[..k][..j] == run[..j];
      AfterReadersWait(n, run[..k]);
      AfterBasics(n, run[..k]);
      StepReadersWait(After(n, run[..k]).value, run[k]);
    }
  }

  /** A writer sleeps only while the pipe is full and read from, whoever is killed. */
  lemma WritersMissNothing(n: nat, run: seq<Action>, s: State, q: nat)
    requires After(n, run) == Some(s) && WriterAsleep(s, q)
    ensures |s.waiting| == PIPESIZE && s.readopen
  {
    AfterBasics(n, run);
  }

  /** Unless a killed writer gave up in silence, a reader sleeps only while the pipe is empty
      and open for writing; so readers and writers never sleep at the same time. */
  lemma ReadersMissNothing(n: nat, run: seq<Action>, s: State, q: nat)
    requires After(n, run) == Some(s) && QuietRun(n, run) && ReaderAsleep(s, q)
    ensures s.waiting == [] && s.writeopen && forall r: nat :: !WriterAsleep(s, r)
  {
    AfterBasics(n, run);
    AfterReadersWait(n, run);
  }

  ghost predicate KilledAwake(s: State) {
    Shaped(s) && forall q: nat :: q < |s.at| && s.killed[q] ==> !ReaderAsleep(s, q) && !WriterAsleep(s, q)
  }

  lemma StepKilledAwake(s: State, a: Action)
    requires KilledAwake(s)
    ensures Step(s, a).Some? ==> KilledAwake(Step(s, a).value)
  {
    if Step(s, a).Some? {
      var s' := Step(s, a).value;
      forall q: nat | q < |s'.at| && s'.killed[q] ensures !ReaderAsleep(s', q) && !WriterAsleep(s', q) {
        assert s.killed[q] ==> !ReaderAsleep(s, q) && !WriterAsleep(s, q);
      }
    }
  }

  /** A process that has been killed does not sleep in the pipe, now or later. */
  lemma {:induction false} KilledDoNotSleep(n: nat, run: seq<Action>)
    requires After(n, run).Some?
    ensures KilledAwake(After(n, run).value)
  {
    if run != [] {
      KilledDoNotSleep(n, run[..|run| - 1]);
      StepKilledAwake(After(n, run[..|run| - 1]).value, run[|run| - 1]);
    }
  }

  /** It does happen: a reader asleep, bytes waiting, and no one else in the pipe. */
  lemma ReaderForgotten(addr: seq<Byte>) returns (run: seq<Action>, s: State)
    requires |addr| == PIPESIZE + 1
    ensures After(2, run) == Some(s) && ReaderAsleep(s, 0) && |s.waiting| == PIPESIZE && s.at[1] == Outside
  {
    var s1 := Step(Start(2), Read(0, 1)).value;
    var s2 := Step(s1, Kill(1)).value;
    s := Step(s2, Write(1, addr)).value;
    run := [Read(0, 1), Kill(1), Write(1, addr)];
    assert run[..2] == [Read(0, 1), Kill(1)] && run[..2][..1] == [Read(0, 1)] && run[..2][..1][..0] == [];
    assert After(2, []) == Some(Start(2));
    assert After(2, [Read(0, 1)]) == Some(s1);
    assert After(2, run[..2]) == Some(s2);
  }
}
