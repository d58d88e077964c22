/** Which operations the log admits, over every interleaving of begin_op, log_write, end_op,
    commit, and kill. A section under log.lock is one step; log_write's size test is made
    before it takes the lock, so it is a step of its own. */
module LogAdmission {
  import opened Options
  import opened Param

  /** A process outside any operation or free to try begin_op again; asleep in begin_op; or
      inside an operation with `used` calls of log_write behind it, for the blocks `mine`,
      possibly between the test and the recording of the next, `txn` being the transaction
      current when it began. */
  datatype Op = Outside | Asleep | Inside(used: nat, mine: set<nat>, tested: bool, txn: nat)

  datatype Committing = No | Writing | Erased

  datatype Panic = NoPanic | TooBig | NoTransaction | CommitRunning

  datatype State = State(
    logged: set<nat>,       // the block numbers in log.lh
    outstanding: int,
    committing: Committing,
    ops: seq<Op>,           // one entry a process
    txn: nat,               // transactions committed so far
    panic: Panic)

  /** `size` is log.size, the length of the log area with its header; an operation makes at
      most `calls` calls of log_write, for at most `blocks` different blocks. */
  datatype Config = Config(processes: nat, calls: nat, blocks: nat, size: nat)

  /** The most blocks that one operation can log. */
  function Allow(c: Config): nat {
    if c.calls < c.blocks then c.calls else c.blocks
  }

  datatype Action =
    | Begin(p: nat)             // begin_op finding room
    | Sleep(p: nat)             // begin_op not finding room
    | Kill(p: nat)              // a sleeper is woken for no reason of the log's
    | Test(p: nat)              // log_write up to acquire
    | Record(p: nat, b: nat)    // log_write from acquire on
    | End(p: nat)               // the first section of end_op
    | Commit                    // commit(): the log is written out and erased
    | EndCommit                 // the last section of end_op

  function Init(c: Config): State {
    State({}, 0, No, seq(c.processes, _ => Outside), 0, NoPanic)
  }

  /** begin_op goes on. */
  predicate Room(s: State) {
    s.committing == No && |s.logged| + (s.outstanding + 1) * MAXOPBLOCKS <= LOGSIZE
  }

  predicate Enabled(s: State, a: Action, c: Config) {
    s.panic == NoPanic &&
    match a
    case Begin(p) => p < |s.ops| && s.ops[p].Outside? && Room(s)
    case Sleep(p) => p < |s.ops| && s.ops[p].Outside? && !Room(s)
    case Kill(p) => p < |s.ops| && s.ops[p].Asleep?
    case Test(p) => p < |s.ops| && s.ops[p].Inside? && !s.ops[p].tested && s.ops[p].used < c.calls && c.blocks > 0
    case Record(p, b) => p < |s.ops| && s.ops[p].Inside? && s.ops[p].tested && |s.ops[p].mine + {b}| <= c.blocks
    case End(p) => p < |s.ops| && s.ops[p].Inside? && !s.ops[p].tested
    case Commit => s.committing == Writing
    case EndCommit => s.committing == Erased
  }

  /** wakeup(&log). */
  function Woken(ops: seq<Op>): (r: seq<Op>)
    ensures |r| == |ops| && forall p :: 0 <= p < |ops| ==> r[p] == if ops[p].Asleep? then Outside else ops[p]
  {
    seq(|ops|, p requires 0 <= p < |ops| => if ops[p].Asleep? then Outside else ops[p])
  }

  function Next(s: State, a: Action, c: Config): State
    requires Enabled(s, a, c)
  {
    match a
    case Begin(p) => s.(outstanding := s.outstanding + 1, ops := s.ops[p := Inside(0, {}, false, s.txn)])
    case Sleep(p) => s.(ops := s.ops[p := Asleep])
    case Kill(p) => s.(ops := s.ops[p := Outside])
    case Test(p) =>
      if |s.logged| >= LOGSIZE || |s.logged| >= c.size - 1 then s.(panic := TooBig)
      else if s.outstanding < 1 then s.(panic := NoTransaction)
      else s.(ops := s.ops[p := s.ops[p].(tested := true)])
    case Record(p, b) =>
      var o := s.ops[p];
      s.(logged := s.logged + {b}, ops := s.ops[p := o.(tested := false, used := o.used + 1, mine := o.mine + {b})])
    case End(p) =>
      var t := s.(outstanding := s.outstanding - 1, ops := s.ops[p := Outside]);
      if s.committing != No then t.(panic := CommitRunning)
      else if t.outstanding == 0 then t.(committing := Writing)
      else t.(ops := Woken(t.ops))
    case Commit => s.(logged := {}, txn := s.txn + 1, committing := Erased)
    case EndCommit => s.(committing := No, ops := Woken(s.ops))
  }

  /** The state after a run, if each of its steps was possible. */
  function After(run: seq<Action>, c: Config): Option<State>
    decreases |run|
  {
    if run == [] then Some(Init(c)) else
    var r := After(run[..|run| - 1], c);
    var a := run[|run| - 1];
    if r.Some? && Enabled(r.value, a, c) then Some(Next(r.value, a, c)) else None
  }

  ghost predicate Reachable(s: State, c: Config) {
    exists run :: After(run, c) == Some(s)
  }

  // ----- Sums over the processes -----

  function Total(ops: seq<Op>, weight: Op -> nat): nat {
    if ops == [] then 0 else weight(ops[0]) + Total(ops[1..], weight)
  }

  function One(o: Op): nat {
    if o.Inside? then 1 else 0
  }

  function Tested(o: Op): nat {
    if o.Inside? && o.tested then 1 else 0
  }

  /** What is left of an allowance of n blocks. */
  function Left(n: nat): Op -> nat {
    (o: Op) => if o.Inside? && |o.mine| <= n then n - |o.mine| else 0
  }

  lemma {:induction false} TotalUpdate(ops: seq<Op>, weight: Op -> nat, p: nat, o: Op)
    requires p < |ops|
    ensures Total(ops[p := o], weight) == Total(ops, weight) + weight(o) - weight(ops[p])
    ensures weight(ops[p]) <= Total(ops, weight)
  {
    if p > 0 {
      assert ops[p := o][1..] == ops[1..][p - 1 := o];
      TotalUpdate(ops[1..], weight, p - 1, o);
    } else {
      assert ops[p := o][1..] == ops[1..];
    }
  }

  /** Sleepers count for nothing. */
  lemma {:induction false} TotalWoken(ops: seq<Op>, weight: Op -> nat)
    requires weight(Asleep) == weight(Outside)
    ensures Total(Woken(ops), weight) == Total(ops, weight)
  {
    if ops != [] {
      assert Woken(ops)[1..] == Woken(ops[1..]);
      TotalWoken(ops[1..], weight);
    }
  }

  lemma {:induction false} OneBound(ops: seq<Op>)
    ensures Total(ops, Tested) <= Total(ops, One) <= |ops|
  {
    if ops != [] {
      OneBound(ops[1..]);
    }
  }

  /** As many operations as are under way have n left each at most. */
  lemma {:induction false} LeftBound(ops: seq<Op>, n: nat, under: nat)
    requires under == Total(ops, One)
    ensures Total(ops, Left(n)) <= n * under
  {
    if ops != [] {
      var rest := Total(ops[1..], One);
      LeftBound(ops[1..], n, rest);
      Times(n, rest, under, One(ops[0]), Left(n)(ops[0]));
    }
  }

  lemma Times(n: nat, rest: nat, all: nat, one: nat, left: nat)
    requires all == one + rest && one <= 1 && left <= n && (one == 0 ==> left == 0)
    ensures left + n * rest <= n * all
  {
    assert n * (rest + 1) == n * rest + n;
    assert one == 0 || all == rest + 1;
  }

  lemma TotalBounds(ops: seq<Op>, n: nat)
    ensures Total(ops, One) <= |ops| && Total(ops, Tested) <= Total(ops, One) && Total(ops, Left(n)) <= n * Total(ops, One)
  {
    OneBound(ops);
    LeftBound(ops, n, Total(ops, One));
  }

  lemma {:induction false} NoneInside(ops: seq<Op>, p: nat)
    requires Total(ops, One) == 0 && p < |ops|
    ensures !ops[p].Inside?
  {
    if p > 0 {
      NoneInside(ops[1..], p - 1);
    }
  }

  lemma {:induction false} TotalIdle(n: nat, weight: Op -> nat)
    requires weight(Outside) == 0
    ensures Total(seq(n, _ => Outside), weight) == 0
  {
    if n > 0 {
      assert seq(n, _ => Outside)[1..] == seq(n - 1, _ => Outside);
      TotalIdle(n - 1, weight);
    }
  }

  function Least(a: int, b: int): int {
    if a < b then a else b
  }

  // ----- The invariant -----

  /** log_write panics at this many blocks. */
  function Limit(c: Config): int {
    Least(LOGSIZE, c.size - 1)
  }

  /** The most blocks that operations can log, if nothing stops them, for allowances up to
      MAXOPBLOCKS. */
  function Most(c: Config): nat {
    if c.processes <= 1 then Allow(c) else 2 * Allow(c) + MAXOPBLOCKS
  }

  /** A further call is too much when the log is full; an operation that may call log_write
      again for a block it has logged can make it. */
  predicate CanBeTooBig(c: Config) {
    0 < Allow(c) && 0 < c.processes && (Limit(c) < Most(c) || (Limit(c) == Most(c) && c.blocks < c.calls))
  }

  ghost predicate Counts(s: State, c: Config) {
    && |s.ops| == c.processes
    && s.outstanding == Total(s.ops, One) <= 3
    && (s.committing != No ==> s.outstanding == 0)
    && (s.outstanding == 0 && s.committing != Writing ==> s.logged == {})
    && (Allow(c) == 0 ==> s.logged == {})
  }

  ghost predicate OpsOk(s: State, c: Config) {
    forall p :: 0 <= p < |s.ops| ==> OpOk(s, c, s.ops[p])
  }

  ghost predicate OpOk(s: State, c: Config, o: Op) {
    && (o.Inside? ==> o.txn == s.txn && o.used <= c.calls && (o.tested ==> o.used < c.calls && c.blocks > 0))
    && (o.Inside? ==> |o.mine| <= o.used && |o.mine| <= c.blocks && o.mine <= s.logged)
    && (o.Asleep? ==> !Room(s))
  }

  /** Blocks logged and calls still to come. */
  ghost predicate Bounded(s: State, c: Config) {
    && (c.processes <= 1 || Allow(c) <= MAXOPBLOCKS ==> |s.logged| + Total(s.ops, Left(Allow(c))) <= Most(c))
    && (Allow(c) <= MAXOPBLOCKS ==> |s.logged| + Total(s.ops, Left(MAXOPBLOCKS)) <= LOGSIZE)
  }

  /** What can have been logged past the tests: three operations can pass them together. */
  ghost predicate Overrun(s: State, c: Config) {
    |s.logged| + Total(s.ops, Tested) > 0 ==>
      0 < Limit(c) && |s.logged| + Total(s.ops, Tested) < Limit(c) + Least(c.processes, 3)
  }

  ghost predicate Inv(s: State, c: Config) {
    && Counts(s, c) && OpsOk(s, c) && Bounded(s, c) && Overrun(s, c)
    && (s.panic == NoPanic || (s.panic == TooBig && CanBeTooBig(c)))
  }

  lemma InitInv(c: Config)
    ensures Inv(Init(c), c)
  {
    TotalIdle(c.processes, One);
    TotalIdle(c.processes, Tested);
    TotalIdle(c.processes, Left(Allow(c)));
    TotalIdle(c.processes, Left(MAXOPBLOCKS));
  }

  /** The sums after one process has changed. */
  lemma Sums(ops: seq<Op>, p: nat, o: Op, n: nat)
    requires p < |ops|
    ensures var ops' := ops[p := o];
      && Total(ops', One) == Total(ops, One) + One(o) - One(ops[p])
      && Total(ops', Tested) == Total(ops, Tested) + Tested(o) - Tested(ops[p])
      && Total(ops', Left(n)) == Total(ops, Left(n)) + Left(n)(o) - Left(n)(ops[p])
    ensures One(ops[p]) <= Total(ops, One) && Left(n)(ops[p]) <= Total(ops, Left(n))
    ensures Total(ops, Left(n)) <= n * Total(ops, One) && Total(ops, Tested) <= Total(ops, One) <= |ops|
  {
    TotalUpdate(ops, One, p, o);
    TotalUpdate(ops, Tested, p, o);
    TotalUpdate(ops, Left(n), p, o);
    TotalBounds(ops, n);
  }

  lemma Products(n: nat, k: nat, left: nat)
    requires left <= n * k && k <= 2
    ensures left <= 2 * n && (k == 1 ==> left <= n) && (k == 0 ==> left == 0)
  {
  }

  /** begin_op leaves room for what it lets in. */
  lemma BeginBounded(s: State, p: nat, c: Config)
    requires Counts(s, c) && Bounded(s, c) && p < |s.ops| && s.ops[p].Outside? && Room(s)
    ensures var s' := s.(outstanding := s.outstanding + 1, ops := s.ops[p := Inside(0, {}, false, s.txn)]);
      Counts(s', c) && Bounded(s', c)
  {
    var o := Inside(0, {}, false, s.txn);
    Sums(s.ops, p, o, Allow(c));
    Sums(s.ops, p, o, MAXOPBLOCKS);
    TotalBounds(s.ops[p := o], 0);
    Products(Allow(c), s.outstanding, Total(s.ops, Left(Allow(c))));
    Products(MAXOPBLOCKS, s.outstanding, Total(s.ops, Left(MAXOPBLOCKS)));
  }

  lemma BeginInv(s: State, p: nat, c: Config)
    requires Inv(s, c) && Enabled(s, Begin(p), c)
    ensures Inv(Next(s, Begin(p), c), c)
  {
    var o := Inside(0, {}, false, s.txn);
    Sums(s.ops, p, o, 0);
    BeginBounded(s, p, c);
    var s' := Next(s, Begin(p), c);
    forall q | 0 <= q < |s'.ops| ensures OpOk(s', c, s'.ops[q]) {
      assert OpOk(s, c, s.ops[q]);
    }
  }

  /** A step of one process that leaves log and counters alone. */
  lemma OneInv(s: State, p: nat, o: Op, c: Config)
    requires Inv(s, c) && s.panic == NoPanic && p < |s.ops| && OpOk(s, c, o)
    requires One(o) == One(s.ops[p]) && (o.Inside? ==> o.used == s.ops[p].used && o.mine == s.ops[p].mine)
    requires Tested(o) > Tested(s.ops[p]) ==> |s.logged| < Limit(c)
    ensures Inv(s.(ops := s.ops[p := o]), c)
  {
    Sums(s.ops, p, o, Allow(c));
    Sums(s.ops, p, o, MAXOPBLOCKS);
    var s' := s.(ops := s.ops[p := o]);
    TotalBounds(s'.ops, 0);
    forall q | 0 <= q < |s'.ops| ensures OpOk(s', c, s'.ops[q]) {
      assert OpOk(s, c, s.ops[q]);
    }
  }

  lemma TestInv(s: State, p: nat, c: Config)
    requires Inv(s, c) && Enabled(s, Test(p), c)
    ensures Inv(Next(s, Test(p), c), c)
  {
    var o := s.ops[p].(tested := true);
    assert OpOk(s, c, s.ops[p]);
    Sums(s.ops, p, o, Allow(c));
    if |s.logged| < Limit(c) {
      OneInv(s, p, o, c);
    } else {
      assert CanBeTooBig(c);
    }
  }

  lemma RecordInv(s: State, p: nat, b: nat, c: Config)
    requires Inv(s, c) && Enabled(s, Record(p, b), c)
    ensures Inv(Next(s, Record(p, b), c), c)
  {
    var o := s.ops[p].(tested := false, used := s.ops[p].used + 1, mine := s.ops[p].mine + {b});
    assert OpOk(s, c, s.ops[p]);
    Grows(s.ops[p].mine, b);
    Sums(s.ops, p, o, Allow(c));
    Sums(s.ops, p, o, MAXOPBLOCKS);
    var s' := Next(s, Record(p, b), c);
    assert |s'.logged| <= |s.logged| + 1 && (b in s.logged ==> s'.logged == s.logged);
    assert |s'.logged| >= |s.logged| by { Grows(s.logged, b); }
    forall q | 0 <= q < |s'.ops| ensures OpOk(s', c, s'.ops[q]) {
      assert OpOk(s, c, s.ops[q]);
    }
  }

  lemma Grows(x: set<nat>, b: nat)
    ensures |x| <= |x + {b}| <= |x| + 1 && (b !in x ==> |x + {b}| == |x| + 1)
  {
    if b in x {
      assert x + {b} == x;
    }
  }

  lemma WokenInv(s: State, c: Config)
    requires Inv(s, c)
    ensures Inv(s.(ops := Woken(s.ops)), c)
  {
    TotalWoken(s.ops, One);
    TotalWoken(s.ops, Tested);
    TotalWoken(s.ops, Left(Allow(c)));
    TotalWoken(s.ops, Left(MAXOPBLOCKS));
    var s' := s.(ops := Woken(s.ops));
    forall q | 0 <= q < |s'.ops| ensures OpOk(s', c, s'.ops[q]) {
      assert OpOk(s, c, s.ops[q]);
    }
  }

  /** What is left to the others when an operation ends. */
  lemma EndSums(s: State, p: nat, c: Config)
    requires Inv(s, c) && p < |s.ops| && s.ops[p].Inside? && !s.ops[p].tested
    ensures var t := s.(outstanding := s.outstanding - 1, ops := s.ops[p := Outside]);
      t.outstanding == Total(t.ops, One) && Total(t.ops, Tested) == Total(s.ops, Tested) && Bounded(t, c)
  {
    Sums(s.ops, p, Outside, Allow(c));
    Sums(s.ops, p, Outside, MAXOPBLOCKS);
  }

  /** The last operation ends: the commit begins. */
  lemma LastEndInv(s: State, p: nat, c: Config)
    requires Inv(s, c) && Enabled(s, End(p), c) && s.outstanding == 1
    ensures Inv(Next(s, End(p), c), c)
  {
    EndSums(s, p, c);
    var t := s.(outstanding := 0, committing := Writing, ops := s.ops[p := Outside]);
    TotalBounds(t.ops, 0);
    forall q | 0 <= q < |s.ops| ensures OpOk(t, c, t.ops[q]) {
      assert OpOk(s, c, s.ops[q]);
    }
  }

  /** Another one ends: those asleep are woken. */
  lemma OtherEndInv(s: State, p: nat, c: Config)
    requires Inv(s, c) && Enabled(s, End(p), c) && s.outstanding > 1
    ensures Inv(Next(s, End(p), c), c)
  {
    EndSums(s, p, c);
    var ops := s.ops[p := Outside];
    TotalWoken(ops, One);
    TotalWoken(ops, Tested);
    TotalWoken(ops, Left(Allow(c)));
    TotalWoken(ops, Left(MAXOPBLOCKS));
    var t := s.(outstanding := s.outstanding - 1, ops := Woken(ops));
    forall q | 0 <= q < |s.ops| ensures OpOk(t, c, t.ops[q]) {
      assert OpOk(s, c, s.ops[q]);
    }
  }

  lemma EndInv(s: State, p: nat, c: Config)
    requires Inv(s, c) && Enabled(s, End(p), c)
    ensures Inv(Next(s, End(p), c), c)
  {
    TotalUpdate(s.ops, One, p, Outside);
    if s.outstanding == 1 {
      LastEndInv(s, p, c);
    } else {
      OtherEndInv(s, p, c);
    }
  }

  lemma CommitInv(s: State, c: Config)
    requires Inv(s, c) && Enabled(s, Commit, c)
    ensures Inv(Next(s, Commit, c), c)
  {
    TotalBounds(s.ops, 0);
    var s' := Next(s, Commit, c);
    forall q | 0 <= q < |s.ops| ensures OpOk(s', c, s'.ops[q]) {
      assert OpOk(s, c, s.ops[q]);
      NoneInside(s.ops, q);
    }
  }

  lemma EndCommitInv(s: State, c: Config)
    requires Inv(s, c) && Enabled(s, EndCommit, c)
    ensures Inv(Next(s, EndCommit, c), c)
  {
    WokenInv(s, c);
    var t := s.(ops := Woken(s.ops));
    var s' := Next(s, EndCommit, c);
    forall q | 0 <= q < |s.ops| ensures OpOk(s', c, s'.ops[q]) {
      assert OpOk(t, c, t.ops[q]);
    }
  }

  lemma NextKeepsInv(s: State, a: Action, c: Config)
    requires Inv(s, c) && Enabled(s, a, c)
    ensures Inv(Next(s, a, c), c)
  {
    match a
    case Begin(p) => BeginInv(s, p, c);
    case Sleep(p) => OneInv(s, p, Asleep, c);
    case Kill(p) => OneInv(s, p, Outside, c);
    case Test(p) => TestInv(s, p, c);
    case Record(p, b) => RecordInv(s, p, b, c);
    case End(p) => EndInv(s, p, c);
    case Commit => CommitInv(s, c);
    case EndCommit => EndCommitInv(s, c);
  }

  lemma {:induction false} AfterInv(run: seq<Action>, c: Config)
    ensures After(run, c).Some? ==> Inv(After(run, c).value, c)
    decreases |run|
  {
    if run == [] {
      InitInv(c);
    } else {
      var r, a := After(run[..|run| - 1], c), run[|run| - 1];
      AfterInv(run[..|run| - 1], c);
      if r.Some? && Enabled(r.value, a, c) {
        NextKeepsInv(r.value, a, c);
      }
    }
  }

  lemma ReachableInv(s: State, c: Config)
    requires Reachable(s, c)
    ensures Inv(s, c)
  {
    var run :| After(run, c) == Some(s);
    AfterInv(run, c);
  }

  // ----- What holds in every run -----

  /** Whatever the operations do, a commit runs only when none is under way, and everything
      an operation records goes into the one transaction that was current when it began. If
      they keep to MAXOPBLOCKS different blocks, in however many calls, recorded blocks and
      unspent reservations together never exceed LOGSIZE; if not, the array in log.lh is
      overrun by two blocks at most. */
  lemma Admission(s: State, c: Config)
    requires Reachable(s, c)
    ensures |s.ops| == c.processes && s.panic != NoTransaction && s.panic != CommitRunning
    ensures s.committing != No ==> forall p :: 0 <= p < |s.ops| ==> !s.ops[p].Inside?
    ensures forall p :: 0 <= p < |s.ops| && s.ops[p].Inside? ==> s.ops[p].txn == s.txn
    ensures Allow(c) <= MAXOPBLOCKS ==> |s.logged| + Total(s.ops, Left(MAXOPBLOCKS)) <= LOGSIZE
    ensures |s.logged| <= LOGSIZE + 2
  {
    ReachableInv(s, c);
    forall p | 0 <= p < |s.ops| ensures s.ops[p].Inside? ==> s.ops[p].txn == s.txn && s.committing == No {
      assert OpOk(s, c, s.ops[p]);
      if s.committing != No { NoneInside(s.ops, p); }
    }
  }

  /** Nobody sleeps in begin_op who could go on; and as long as one sleeps an operation is
      under way or a commit is running, the end of which will wake it. */
  lemma SleepersHaveReason(s: State, c: Config, p: nat)
    requires Reachable(s, c) && p < |s.ops| && s.ops[p].Asleep?
    ensures !Room(s) && (s.committing != No || s.outstanding > 0)
  {
    ReachableInv(s, c);
    assert OpOk(s, c, s.ops[p]);
  }

  // ----- When the size test can fail, and when it is too late -----

  /** Blocks 0 .. k - 1. */
  function Upto(k: nat): (r: set<nat>)
    ensures |r| == k && forall b :: b in r <==> 0 <= b < k
  {
    if k == 0 then {} else Upto(k - 1) + {k - 1}
  }

  /** The first processes are in operations, each of which has logged its blocks in as many
      calls; blocks 0 .. k - 1 are logged. */
  function Working(k: nat, mines: seq<set<nat>>, c: Config): State {
    State(Upto(k), |mines|, No, Ops(mines, c.processes), 0, NoPanic)
  }

  function Begun(mine: set<nat>, tested: bool): Op {
    Inside(|mine|, mine, tested, 0)
  }

  function Ops(mines: seq<set<nat>>, processes: nat): seq<Op> {
    seq(processes, p requires 0 <= p < processes => if p < |mines| then Begun(mines[p], false) else Outside)
  }

  lemma Extend(r: State, a: Action, c: Config)
    requires Reachable(r, c) && Enabled(r, a, c)
    ensures Reachable(Next(r, a, c), c)
  {
    var run :| After(run, c) == Some(r);
    assert (run + [a])[..|run|] == run;
    assert After(run + [a], c) == Some(Next(r, a, c));
  }

  lemma OpsUpdate(mines: seq<set<nat>>, p: nat, mine: set<nat>, processes: nat)
    requires p < |mines| <= processes
    ensures Ops(mines, processes)[p := Begun(mine, false)] == Ops(mines[p := mine], processes)
  {
  }

  predicate SizeAt(k: nat, used: seq<nat>, mines: seq<set<nat>>, p: nat) {
    p < |used| && p < |mines| ==> |mines[p]| == used[p] && mines[p] <= Upto(k)
  }

  ghost predicate LeadsWith(k: nat, used: seq<nat>, mines: seq<set<nat>>, c: Config) {
    && |mines| == |used| <= c.processes && Reachable(Working(k, mines, c), c)
    && forall p: nat :: SizeAt(k, used, mines, p)
  }

  /** Some run leads to blocks 0 .. k - 1 being logged, by operations with `used` calls. */
  ghost predicate Leads(k: nat, used: seq<nat>, c: Config) {
    exists mines :: LeadsWith(k, used, mines, c)
  }

  /** One operation logs one more block. */
  lemma LogOne(k: nat, used: seq<nat>, p: nat, c: Config)
    requires p < |used| && used[p] < Allow(c) && k < Limit(c) && Leads(k, used, c)
    ensures Leads(k + 1, used[p := used[p] + 1], c)
  {
    var mines :| LeadsWith(k, used, mines, c);
    assert SizeAt(k, used, mines, p);
    var mine := mines[p] + {k};
    Grows(mines[p], k);
    LogStep(k, mines, p, mine, c);
    var used', mines' := used[p := used[p] + 1], mines[p := mine];
    var next := k + 1;
    forall q: nat ensures SizeAt(next, used', mines', q) {
      assert SizeAt(k, used, mines, q);
    }
    assert LeadsWith(k + 1, used', mines', c);
  }

  lemma LogStep(k: nat, mines: seq<set<nat>>, p: nat, mine: set<nat>, c: Config)
    requires p < |mines| <= c.processes && |mines[p]| < Allow(c) && k < Limit(c) && Reachable(Working(k, mines, c), c)
    requires mine == mines[p] + {k} && |mine| == |mines[p]| + 1
    ensures Reachable(Working(k + 1, mines[p := mine], c), c)
  {
    var s := Working(k, mines, c);
    Extend(s, Test(p), c);
    var t := Next(s, Test(p), c);
    Extend(t, Record(p, k), c);
    var u := Next(t, Record(p, k), c);
    assert u.ops == s.ops[p := Begun(mine, false)];
    OpsUpdate(mines, p, mine, c.processes);
    assert u.logged == Upto(k + 1);
    assert u == Working(k + 1, mines[p := mine], c);
  }

  /** With a state that `good` describes it also describes the one with a block more. */
  ghost predicate LogsIn(good: iset<(nat, seq<nat>)>, k: nat, used: seq<nat>, p: nat, c: Config) {
    (k, used) in good && p < |used| && used[p] < Allow(c) && k < Limit(c) ==> (k + 1, used[p := used[p] + 1]) in good
  }

  ghost predicate Closed(good: iset<(nat, seq<nat>)>, c: Config) {
    forall k: nat, used: seq<nat>, p: nat :: LogsIn(good, k, used, p, c)
  }

  /** One operation logs n more blocks. */
  lemma {:induction false} LogMany(good: iset<(nat, seq<nat>)>, k: nat, used: seq<nat>, p: nat, n: nat, c: Config, used': seq<nat>)
    requires p < |used| && used[p] + n <= Allow(c) && (n == 0 || k + n <= Limit(c)) && Closed(good, c) && (k, used) in good
    requires used' == used[p := used[p] + n]
    ensures (k + n, used') in good
    decreases n
  {
    if n == 0 {
      assert used' == used;
    } else {
      assert LogsIn(good, k, used, p, c);
      LogMany(good, k + 1, used[p := used[p] + 1], p, n - 1, c, used');
    }
  }

  lemma Led(c: Config) returns (good: iset<(nat, seq<nat>)>)
    ensures Closed(good, c) && forall k: nat, used: seq<nat> :: (k, used) in good <==> Leads(k, used, c)
  {
    good := iset k: nat, used: seq<nat> | Leads(k, used, c) :: (k, used);
    forall k: nat, used: seq<nat>, p: nat ensures LogsIn(good, k, used, p, c) {
      if (k, used) in good && p < |used| && used[p] < Allow(c) && k < Limit(c) {
        LogOne(k, used, p, c);
      }
    }
  }

  function Empty(n: nat): seq<set<nat>> {
    seq(n, _ => {})
  }

  /** n operations begin. */
  lemma {:induction false} Beginning(n: nat, c: Config)
    requires n <= c.processes && n <= 3
    ensures Reachable(Working(0, Empty(n), c), c)
  {
    if n == 0 {
      assert After([], c) == Some(Init(c));
      assert Init(c) == Working(0, Empty(n), c);
    } else {
      Beginning(n - 1, c);
      var s := Working(0, Empty(n - 1), c);
      Extend(s, Begin(n - 1), c);
      assert Next(s, Begin(n - 1), c) == Working(0, Empty(n), c);
    }
  }

  lemma Started(n: nat, c: Config)
    requires n <= c.processes && n <= 3
    ensures Leads(0, seq(n, _ => 0), c)
  {
    Beginning(n, c);
    var used, mines := seq(n, _ => 0), Empty(n);
    forall p: nat ensures SizeAt(0, used, mines, p) {
    }
    assert LeadsWith(0, used, mines, c);
  }

  /** While another operation goes on, one ends, and begins again. */
  lemma EndBegin(k: nat, m: set<nat>, m': set<nat>, c: Config)
    requires k <= MAXOPBLOCKS && 2 <= c.processes && Reachable(Working(k, [m, m'], c), c)
    ensures Reachable(Working(k, [{}, m'], c), c)
  {
    var s := Working(k, [m, m'], c);
    var ops := Ops([m, m'], c.processes);
    Extend(s, End(0), c);
    assert Next(s, End(0), c).ops == ops[0 := Outside];
    var t := s.(outstanding := 1, ops := ops[0 := Outside]);
    Extend(t, Begin(0), c);
    assert Next(t, Begin(0), c).ops == ops[0 := Begun({}, false)];
    OpsUpdate([m, m'], 0, {}, c.processes);
    assert [m, m'][0 := {}] == [{}, m'];
    assert Next(t, Begin(0), c) == Working(k, [{}, m'], c);
  }

  lemma Again(k: nat, u: nat, c: Config)
    requires k <= MAXOPBLOCKS && Leads(k, [u, 0], c)
    ensures Leads(k, [0, 0], c)
  {
    var mines :| LeadsWith(k, [u, 0], mines, c);
    assert mines == [mines[0], mines[1]];
    EndBegin(k, mines[0], mines[1], c);
    var mines' := [{}, mines[1]];
    assert SizeAt(k, [u, 0], mines, 1);
    forall p: nat ensures SizeAt(k, [0, 0], mines', p) {
    }
    assert LeadsWith(k, [0, 0], mines', c);
  }

  /** So as many as MAXOPBLOCKS blocks come to be logged with both allowances unspent. */
  lemma {:induction false} Unspent(m: nat, c: Config)
    requires 2 <= c.processes && 0 < Allow(c) && m <= MAXOPBLOCKS && (m == 0 || m <= Limit(c))
    ensures Leads(m, [0, 0], c)
  {
    if m == 0 {
      StartedTwo(c);
    } else {
      Unspent(m - 1, c);
      OneMore(m - 1, c);
      Again(m, 1, c);
    }
  }

  lemma StartedTwo(c: Config)
    requires 2 <= c.processes
    ensures Leads(0, [0, 0], c)
  {
    Started(2, c);
    assert seq(2, _ => 0) == [0, 0];
  }

  lemma OneMore(k: nat, c: Config)
    requires 0 < Allow(c) && k < Limit(c) && Leads(k, [0, 0], c)
    ensures Leads(k + 1, [1, 0], c)
  {
    LogOne(k, [0, 0], 0, c);
    assert [0, 0][0 := 1] == [1, 0];
  }

  /** How two operations share k blocks, one of them with at most n, when the first
      MAXOPBLOCKS have cost neither anything. */
  lemma Shares(k: nat, n: nat, allow: nat) returns (m: nat, a: nat, b: nat)
    requires n <= allow && k <= MAXOPBLOCKS + allow + n
    ensures k == m + a + b && m <= MAXOPBLOCKS && a <= allow && b <= n && (k <= MAXOPBLOCKS + 2 * n ==> a <= n)
  {
    m := Least(MAXOPBLOCKS, k);
    a := Least(if k <= MAXOPBLOCKS + 2 * n then n else allow, k - m);
    b := k - m - a;
  }

  /** Two operations that have brought the log to k blocks, one with at most n calls. */
  lemma TwoAtWork(k: nat, n: nat, c: Config) returns (a: nat, b: nat)
    requires 2 <= c.processes && 0 < Allow(c) && n <= Allow(c) && k <= MAXOPBLOCKS + Allow(c) + n && (k == 0 || k <= Limit(c))
    ensures a <= Allow(c) && b <= n && Leads(k, [a, b], c)
    ensures k <= MAXOPBLOCKS + 2 * n ==> a <= n
  {
    var m;
    m, a, b := Shares(k, n, Allow(c));
    Unspent(m, c);
    LogBoth(m, a, b, c, k);
  }

  lemma LogBoth(m: nat, a: nat, b: nat, c: Config, k: nat)
    requires a <= Allow(c) && b <= Allow(c) && (a + b == 0 || k <= Limit(c)) && Leads(m, [0, 0], c) && k == m + a + b
    ensures Leads(k, [a, b], c)
  {
    var good := Led(c);
    LogEach(good, m, a, b, c, k);
  }

  lemma LogEach(good: iset<(nat, seq<nat>)>, m: nat, a: nat, b: nat, c: Config, k: nat)
    requires a <= Allow(c) && b <= Allow(c) && (a + b == 0 || k <= Limit(c)) && Closed(good, c) && (m, [0, 0]) in good && k == m + a + b
    ensures (k, [a, b]) in good
  {
    LogMany(good, m, [0, 0], 0, a, c, [a, 0]);
    LogMany(good, m + a, [a, 0], 1, b, c, [a, b]);
  }

  /** The log can be found too small, for p calling log_write once more. */
  lemma Panics(k: nat, used: seq<nat>, p: nat, c: Config)
    requires p < |used| && used[p] < c.calls && 0 < c.blocks && k >= Limit(c) && Leads(k, used, c)
    ensures exists s :: Reachable(s, c) && s.panic == TooBig
  {
    var mines :| LeadsWith(k, used, mines, c);
    assert SizeAt(k, used, mines, p);
    var s := Working(k, mines, c);
    Extend(s, Test(p), c);
    assert Next(s, Test(p), c).panic == TooBig;
  }

  lemma PanicReached(c: Config)
    requires CanBeTooBig(c)
    ensures exists s :: Reachable(s, c) && s.panic == TooBig
  {
    var k: nat := if Limit(c) < 0 then 0 else Limit(c);
    if c.processes == 1 {
      Started(1, c);
      assert seq(1, _ => 0) == [0];
      var good := Led(c);
      LogMany(good, 0, [0], 0, k, c, [k]);
      Panics(k, [k], 0, c);
    } else {
      var n := if c.blocks < c.calls then Allow(c) else Allow(c) - 1;
      var a, b := TwoAtWork(k, n, c);
      Panics(k, [a, b], 1, c);
    }
  }

  /** log_write's panic can be reached exactly when the log takes no more blocks than the
      operations can log and still call it: one process up to its allowance, more than one up
      to twice the allowance and MAXOPBLOCKS. */
  lemma TooBigExactlyWhen(c: Config)
    ensures (exists s :: Reachable(s, c) && s.panic == TooBig) <==> CanBeTooBig(c)
  {
    if CanBeTooBig(c) {
      PanicReached(c);
    }
    forall s | Reachable(s, c) && s.panic == TooBig ensures CanBeTooBig(c) {
      ReachableInv(s, c);
    }
  }

  /** For operations that keep to MAXOPBLOCKS calls: exactly when the area is not longer than
      LOGSIZE, the length mkfs.c gives it, or than MAXOPBLOCKS with one process. */
  lemma TooBigWithinCalls(c: Config)
    requires c.calls == MAXOPBLOCKS <= c.blocks
    ensures CanBeTooBig(c) <==> (c.processes == 1 && c.size <= MAXOPBLOCKS) || (c.processes > 1 && c.size <= LOGSIZE)
  {
  }

  /** For operations that keep to MAXOPBLOCKS different blocks, but may log one again: with
      more than one process however long the area is, since a full log is no longer asked
      whether it has the block. */
  lemma TooBigWithinBlocks(c: Config)
    requires c.blocks == MAXOPBLOCKS < c.calls
    ensures CanBeTooBig(c) <==> (c.processes == 1 && c.size <= MAXOPBLOCKS + 1) || c.processes > 1
  {
  }

  predicate CanOverrun(c: Config) {
    || c.size == 0
    || (c.processes >= 2 && Allow(c) > 0 && 2 <= c.size <= 2 * Allow(c) + MAXOPBLOCKS && c.size < LOGSIZE + Least(c.processes, 3))
  }

  /** Process i has passed the test, if it is below n. */
  function PastTest(mines: seq<set<nat>>, n: nat, processes: nat): seq<Op> {
    seq(processes, p requires 0 <= p < processes => if p < |mines| then Begun(mines[p], p < n) else Outside)
  }

  /** Operations pass the test together. */
  lemma {:induction false} TestAll(k: nat, mines: seq<set<nat>>, n: nat, c: Config)
    requires n <= |mines| <= c.processes && k < Limit(c) && Reachable(Working(k, mines, c), c)
    requires forall p :: 0 <= p < n ==> |mines[p]| < Allow(c)
    ensures Reachable(Working(k, mines, c).(ops := PastTest(mines, n, c.processes)), c)
  {
    var s := Working(k, mines, c);
    if n == 0 {
      assert PastTest(mines, n, c.processes) == s.ops;
    } else {
      TestAll(k, mines, n - 1, c);
      var t := s.(ops := PastTest(mines, n - 1, c.processes));
      Extend(t, Test(n - 1), c);
      assert Next(t, Test(n - 1), c).ops == PastTest(mines, n, c.processes);
    }
  }

  /** And all of them record. */
  lemma {:induction false} RecordAll(k: nat, n: nat, s: State, c: Config) returns (s': State)
    requires Reachable(s, c) && s.panic == NoPanic && s.logged == Upto(k) && n <= |s.ops|
    requires forall p :: 0 <= p < n ==> s.ops[p].Inside? && s.ops[p].tested && |s.ops[p].mine| < c.blocks
    ensures Reachable(s', c) && s'.panic == NoPanic && s'.logged == Upto(k + n)
    decreases n
  {
    if n == 0 {
      s' := s;
    } else {
      Grows(s.ops[n - 1].mine, k);
      Extend(s, Record(n - 1, k), c);
      s' := RecordAll(k + 1, n - 1, Next(s, Record(n - 1, k), c), c);
    }
  }

  lemma Together(k: nat, used: seq<nat>, c: Config) returns (s: State)
    requires k < Limit(c) && Leads(k, used, c) && forall p :: 0 <= p < |used| ==> used[p] < Allow(c)
    ensures Reachable(s, c) && s.panic == NoPanic && |s.logged| == k + |used|
  {
    var mines :| LeadsWith(k, used, mines, c);
    forall p: nat | p < |mines| ensures |mines[p]| < Allow(c) {
      assert SizeAt(k, used, mines, p);
    }
    TestAll(k, mines, |mines|, c);
    s := RecordAll(k, |mines|, Working(k, mines, c).(ops := PastTest(mines, |mines|, c.processes)), c);
  }

  lemma ThreeAtWork(c: Config) returns (k: nat, used: seq<nat>)
    requires 3 <= c.processes && MAXOPBLOCKS < Allow(c) && c.size == LOGSIZE + 2
    ensures Leads(k, used, c) && k == LOGSIZE - 1 && |used| == 3 && forall p :: 0 <= p < 3 ==> used[p] <= MAXOPBLOCKS
  {
    var zero := seq(3, _ => 0);
    Started(3, c);
    var good := Led(c);
    k, used := LogAllThree(good, zero, c);
  }

  lemma LogAllThree(good: iset<(nat, seq<nat>)>, zero: seq<nat>, c: Config) returns (k: nat, used: seq<nat>)
    requires MAXOPBLOCKS < Allow(c) && c.size == LOGSIZE + 2 && Closed(good, c)
    requires |zero| == 3 && (0, zero) in good && forall p :: 0 <= p < 3 ==> zero[p] == 0
    ensures (k, used) in good && k == LOGSIZE - 1 && |used| == 3 && forall p :: 0 <= p < 3 ==> used[p] <= MAXOPBLOCKS
  {
    k, used := 29, [10, 10, 9];
    LogMany(good, 0, zero, 0, 10, c, [10, 0, 0]);
    LogMany(good, 10, [10, 0, 0], 1, 10, c, [10, 10, 0]);
    LogMany(good, 20, [10, 10, 0], 2, 9, c, [10, 10, 9]);
  }

  /** Because the test is made before the lock is taken, operations can pass it together and
      record more blocks than the area holds. This says exactly when. */
  lemma OverrunExactlyWhen(c: Config)
    ensures (exists s :: Reachable(s, c) && s.panic == NoPanic && |s.logged| > c.size - 1) <==> CanOverrun(c)
  {
    if CanOverrun(c) {
      OverrunReached(c);
    }
    forall s | Reachable(s, c) && |s.logged| > c.size - 1 ensures CanOverrun(c) {
      ReachableInv(s, c);
    }
  }

  lemma OverrunReached(c: Config)
    requires CanOverrun(c)
    ensures exists s :: Reachable(s, c) && s.panic == NoPanic && |s.logged| > c.size - 1
  {
    if c.size == 0 {
      assert After([], c) == Some(Init(c));
    } else if c.size <= LOGSIZE + 1 {
      var s := TwoOverrun(c);
    } else {
      var s := ThreeOverrun(c);
    }
  }

  lemma ThreeOverrun(c: Config) returns (s: State)
    requires CanOverrun(c) && c.size > LOGSIZE + 1
    ensures Reachable(s, c) && s.panic == NoPanic && |s.logged| == c.size
  {
    var k, used := ThreeAtWork(c);
    s := Together(k, used, c);
  }

  lemma TwoOverrun(c: Config) returns (s: State)
    requires CanOverrun(c) && 0 < c.size <= LOGSIZE + 1
    ensures Reachable(s, c) && s.panic == NoPanic && |s.logged| == c.size
  {
    var k: nat, n: nat := c.size - 2, Allow(c) - 1;
    var a, b := TwoAtWork(k, n, c);
    var used := [a, b];
    s := Together(k, used, c);
  }
}
