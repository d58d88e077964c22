/** The compiler preserves meaning: the machine running generated code does what the
    source program means, for terminating, failing and diverging programs alike. */
module TinyCorrect {
  import opened TinySyntax
  import opened TmMachine
  import opened TinyLayout

  // ----- Reaching states of the machine -----

  predicate SameLater(m: Machine, n: nat, m': Machine, k: nat)
    requires WellFormed(m) && WellFormed(m')
  {
    Run(m, n + k) == Run(m', k)
  }

  /** After n steps m is at m'. */
  ghost predicate RunsTo(m: Machine, n: nat, m': Machine)
    requires WellFormed(m) && WellFormed(m')
  {
    forall k: nat :: SameLater(m, n, m', k)
  }

  ghost predicate Reaches(m: Machine, m': Machine) {
    WellFormed(m) && WellFormed(m') && exists n: nat :: RunsTo(m, n, m')
  }

  lemma ReachesBy(m: Machine, n: nat, m': Machine)
    requires WellFormed(m) && Run(m, n) == (m', Okay)
    ensures Reaches(m, m')
  {
    forall k: nat ensures SameLater(m, n, m', k) {
      RunOn(m, n, k);
    }
    assert RunsTo(m, n, m');
  }

  lemma ReachedBy(m: Machine, m': Machine) returns (n: nat)
    requires Reaches(m, m')
    ensures WellFormed(m) && Run(m, n) == (m', Okay)
  {
    n :| RunsTo(m, n, m');
    assert SameLater(m, n, m', 0);
  }

  /** The machine stops with this result, having written this output. */
  ghost predicate Stops(m: Machine, res: StepResult, output: seq<int>) {
    WellFormed(m) && res != Okay && exists n: nat :: Run(m, n).1 == res && Run(m, n).0.output == output
  }

  ghost predicate LastsFor(m: Machine, steps: nat) {
    WellFormed(m) && Run(m, steps).1 == Okay
  }

  lemma ReachesSelf(m: Machine)
    requires WellFormed(m)
    ensures Reaches(m, m)
  {
    ReachesBy(m, 0, m);
  }

  lemma ReachesStep(m: Machine)
    requires WellFormed(m) && Step(m).1 == Okay
    ensures Reaches(m, Step(m).0) && WellFormed(Step(m).0)
  {
    RunOneMore(m, 0);
    StepKeepsWellFormed(m);
    ReachesBy(m, 1, Step(m).0);
  }

  lemma ReachesTrans(a: Machine, b: Machine, c: Machine)
    requires Reaches(a, b) && Reaches(b, c)
    ensures Reaches(a, c)
  {
    var n := ReachedBy(a, b);
    var k := ReachedBy(b, c);
    RunOn(a, n, k);
    ReachesBy(a, n + k, c);
  }

  lemma StopsStep(m: Machine)
    requires WellFormed(m) && Step(m).1 != Okay
    ensures Stops(m, Step(m).1, Step(m).0.output)
  {
    RunOneMore(m, 0);
  }

  lemma StopsLater(a: Machine, b: Machine, res: StepResult, output: seq<int>)
    requires Reaches(a, b) && Stops(b, res, output)
    ensures Stops(a, res, output)
  {
    var n := ReachedBy(a, b);
    var k: nat :| Run(b, k).1 == res && Run(b, k).0.output == output;
    RunOn(a, n, k);
  }

  lemma {:induction false} LastsShorter(m: Machine, few: nat, many: nat)
    requires LastsFor(m, many) && few <= many
    ensures LastsFor(m, few)
  {
    if Run(m, few).1 != Okay { RunStopped(m, few, many); }
  }

  lemma LastsLater(a: Machine, b: Machine, steps: nat)
    requires Reaches(a, b) && LastsFor(b, steps)
    ensures LastsFor(a, steps)
  {
    var n := ReachedBy(a, b);
    RunOn(a, n, steps);
    LastsShorter(a, steps, n + steps);
  }

  lemma LastsOneMore(m: Machine, steps: nat)
    requires WellFormed(m) && Step(m).1 == Okay && LastsFor(Step(m).0, steps)
    ensures LastsFor(m, steps + 1)
  {
    StepKeepsWellFormed(m);
  }

  // ----- Code in memory -----

  predicate InstrAt(iMem: seq<Instr>, pc: int, code: seq<Instr>, k: nat) {
    k < |code| && 0 <= pc + k < |iMem| ==> iMem[pc + k] == code[k]
  }

  /** `code` stands in the instruction memory from pc on. */
  ghost predicate CodeAt(iMem: seq<Instr>, pc: int, code: seq<Instr>) {
    0 <= pc && pc + |code| <= |iMem| && forall k: nat :: InstrAt(iMem, pc, code, k)
  }

  /** `code` stands `far` locations ahead of where the pc points. */
  ghost predicate Ahead(m: Machine, far: int, code: seq<Instr>)
    requires |m.reg| == NO_REGS
  {
    CodeAt(m.iMem, m.reg[PC] + far, code)
  }

  lemma CodeAtConcat(m: Machine, pc: int, a: seq<Instr>, b: seq<Instr>)
    requires CodeAt(m.iMem, pc, a + b)
    ensures CodeAt(m.iMem, pc, a) && CodeAt(m.iMem, pc + |a|, b)
  {
    forall k: nat ensures InstrAt(m.iMem, pc, a, k) {
      assert InstrAt(m.iMem, pc, a + b, k);
    }
    var start := pc + |a|;
    forall k: nat ensures InstrAt(m.iMem, start, b, k) {
      var i := |a| + k;
      assert InstrAt(m.iMem, pc, a + b, i);
    }
  }

  lemma CodeAtOne(m: Machine, pc: int, i: Instr)
    requires CodeAt(m.iMem, pc, [i])
    ensures 0 <= pc < |m.iMem| && m.iMem[pc] == i
  {
    assert InstrAt(m.iMem, pc, [i], 0);
  }

  // ----- Data in memory -----

  /** The temporaries an expression pushes fit in so many cells. */
  predicate ExprFits(e: Expr, room: int) {
    && room >= 0
    && match e
       case Op(_, left, right) => ExprFits(left, room) && ExprFits(right, room - 1)
       case _ => true
  }

  predicate StmtFits(s: Stmt, room: int) {
    && room >= 0
    && match s
       case If(test, a, b) => ExprFits(test, room) && StmtsFit(a, room) && StmtsFit(b, room)
       case Repeat(body, until) => StmtsFit(body, room) && ExprFits(until, room)
       case Assign(_, rhs) => ExprFits(rhs, room)
       case Read(_) => true
       case Write(value) => ExprFits(value, room)
  }

  predicate StmtsFit(ss: Stmts, room: int) {
    && room >= 0
    && match ss
       case Nil => true
       case Cons(head, sibling) => StmtFits(head, room) && StmtsFit(sibling, room)
  }

  /** Distinct variables have distinct locations below k. */
  ghost predicate Table(names: Names, k: nat) {
    && (forall x :: x in names ==> names[x] < k)
    && (forall x, y :: x in names && y in names && names[x] == names[y] ==> x == y)
  }

  /** gp points at the variables and mp at the last cell. */
  predicate Ready(m: Machine) {
    WellFormed(m) && m.reg[GP] == 0 && m.reg[MP] == DADDR_SIZE - 1
  }

  ghost predicate VarsMatch(dMem: seq<int>, names: Names, store: Store) {
    && |dMem| == DADDR_SIZE
    && forall x :: x in names && names[x] < DADDR_SIZE ==> dMem[names[x]] == Lookup(store, x)
  }

  ghost predicate Matches(m: Machine, names: Names, st: State) {
    && Ready(m) && VarsMatch(m.dMem, names, st.store)
    && m.input == st.input && m.output == st.output
  }

  /** m' is m apart from registers ac, ac1 and pc and the temporaries in [lo, hi). */
  ghost predicate Quiet(m: Machine, m': Machine, lo: int, hi: int) {
    && Ready(m') && m'.iMem == m.iMem && m'.input == m.input && m'.output == m.output
    && |m'.dMem| == |m.dMem|
    && forall a :: 0 <= a < |m.dMem| && !(lo <= a < hi) ==> m'.dMem[a] == m.dMem[a]
  }

  /** How the machine reports a fault of the source program. */
  function ResultOf(f: Fault): StepResult
    requires f != CompareRange
  {
    match f
    case DivideByZero => ZeroDivide
    case QuotientTrap => Trap
    case InputEnd => Starved
  }

  // ----- Expressions -----

  /** The operator's code combines ac1 and ac as the operator does. */
  lemma OpSim(op: BinOp, m: Machine, a: Int32, b: Int32) returns (m': Machine)
    requires Ready(m) && Ahead(m, 0, OpCode(op)) && m.reg[AC1] == a && m.reg[AC] == b
    ensures var r := Apply(op, a, b, Subtracting);
      if r.Val? then
        && Reaches(m, m') && m'.reg[AC] == r.v && m'.reg[PC] == m.reg[PC] + |OpCode(op)|
        && Quiet(m, m', 0, 0)
      else r.fault != CompareRange && Stops(m, ResultOf(r.fault), m.output)
  {
    if op == Lt {
      m' := CompareSim(JLT, m, a, b);
    } else if op == Eq {
      m' := CompareSim(JEQ, m, a, b);
    } else {
      CodeAtOne(m, m.reg[PC], OpCode(op)[0]);
      m' := Step(m).0;
      if Apply(op, a, b, Subtracting).Val? { ReachesStep(m); } else { StopsStep(m); }
    }
  }

  lemma LoadConstSim(m: Machine, d: int, ignored: Reg) returns (m': Machine)
    requires Ready(m) && Ahead(m, 0, [RM(LDC, AC, d, ignored)])
    ensures Reaches(m, m') && m' == m.(reg := m.reg[PC := m.reg[PC] + 1][AC := d])
  {
    CodeAtOne(m, m.reg[PC], RM(LDC, AC, d, ignored));
    ReachesStep(m);
    m' := Step(m).0;
  }

  lemma LoadVarSim(m: Machine, name: string, names: Names, k: nat, store: Store) returns (m': Machine)
    requires Ready(m) && name in names && Ahead(m, 0, [RM(LD, AC, names[name], GP)])
    requires Table(names, k) && k <= DADDR_SIZE && VarsMatch(m.dMem, names, store)
    ensures Reaches(m, m') && m' == m.(reg := m.reg[PC := m.reg[PC] + 1][AC := Lookup(store, name)])
  {
    CodeAtOne(m, m.reg[PC], RM(LD, AC, names[name], GP));
    ReachesStep(m);
    m' := Step(m).0;
  }

  /** A conditional jump on ac, relative to the next instruction. */
  lemma JumpSim(m: Machine, jump: MOp, d: int) returns (m': Machine)
    requires Ready(m) && Ahead(m, 0, [RM(jump, AC, d, PC)]) && (jump == JEQ || jump == JLT)
    requires 0 <= m.reg[PC] + 1 + d <= IADDR_SIZE
    ensures Step(m).1 == Okay && m' == Step(m).0 && Reaches(m, m')
    ensures m' == m.(reg := m.reg[PC := m.reg[PC] + 1 + if Jumps(jump, m.reg[AC]) then d else 0])
  {
    CodeAtOne(m, m.reg[PC], RM(jump, AC, d, PC));
    ReachesStep(m);
    m' := Step(m).0;
  }

  lemma GotoSim(m: Machine, d: int) returns (m': Machine)
    requires Ready(m) && Ahead(m, 0, [RM(LDA, PC, d, PC)])
    requires 0 <= m.reg[PC] + 1 + d <= IADDR_SIZE
    ensures Reaches(m, m') && m' == m.(reg := m.reg[PC := m.reg[PC] + 1 + d])
  {
    CodeAtOne(m, m.reg[PC], RM(LDA, PC, d, PC));
    ReachesStep(m);
    m' := Step(m).0;
  }

  lemma CodeAtIndex(m: Machine, pc: int, code: seq<Instr>, k: nat)
    requires CodeAt(m.iMem, pc, code) && k < |code|
    ensures CodeAt(m.iMem, pc + k, [code[k]])
  {
    assert InstrAt(m.iMem, pc, code, k);
    var start := pc + k;
    forall i: nat ensures InstrAt(m.iMem, start, [code[k]], i) {
    }
  }

  lemma CompareSim(jump: MOp, m: Machine, a: Int32, b: Int32) returns (m': Machine)
    requires jump == JLT || jump == JEQ
    requires Ready(m) && m.reg[AC1] == a && m.reg[AC] == b
    requires Ahead(m, 0, [RO(SUB, AC, 1, AC)] + Branch(jump))
    ensures Reaches(m, m') && m'.reg[AC] == Truth(Jumps(jump, Wrap(a - b)))
    ensures m'.reg[PC] == m.reg[PC] + 5 && Quiet(m, m', 0, 0)
  {
    var pc := m.reg[PC];
    CodeAtConcat(m, pc, [RO(SUB, AC, 1, AC)], Branch(jump));
    CodeAtOne(m, pc, RO(SUB, AC, 1, AC));
    ReachesStep(m);
    var m1 := Step(m).0;
    assert m1 == m.(reg := m.reg[PC := pc + 1][AC := Wrap(a - b)]);
    m' := BranchSim(jump, m1);
    ReachesTrans(m, m1, m');
  }

  /** The branch turns the sign of ac into 1 or 0. */
  lemma BranchSim(jump: MOp, m: Machine) returns (m': Machine)
    requires jump == JLT || jump == JEQ
    requires Ready(m) && Ahead(m, 0, Branch(jump))
    ensures Reaches(m, m')
    ensures m' == m.(reg := m.reg[PC := m.reg[PC] + 4][AC := Truth(Jumps(jump, m.reg[AC]))])
  {
    var pc := m.reg[PC];
    CodeAtIndex(m, pc, Branch(jump), 0);
    var m1 := JumpSim(m, jump, 2);
    if Jumps(jump, m.reg[AC]) {
      CodeAtIndex(m, pc, Branch(jump), 3);
      m' := LoadConstSim(m1, 1, AC);
      ReachesTrans(m, m1, m');
    } else {
      CodeAtIndex(m, pc, Branch(jump), 1);
      CodeAtIndex(m, pc, Branch(jump), 2);
      var m2 := LoadConstSim(m1, 0, AC);
      ReachesTrans(m, m1, m2);
      m' := GotoSim(m2, 1);
      ReachesTrans(m, m2, m');
    }
  }

  /** The code of an expression leaves its value in ac, writing only the temporaries
      just below its own offset; or it stops with the expression's fault. */
  lemma {:induction false} ExprSim(e: Expr, names: Names, k: nat, tmp: int, lo: int, m: Machine, store: Store)
      returns (m': Machine)
    requires Ready(m) && DeclaredExpr(e, names) && Ahead(m, 0, ExprCode(e, names, tmp))
    requires Table(names, k) && tmp <= 0 && k <= lo && ExprFits(e, DADDR_SIZE + tmp - lo)
    requires VarsMatch(m.dMem, names, store)
    ensures var r := Eval(e, store, Subtracting);
      if r.Val? then
        && Reaches(m, m') && m'.reg[AC] == r.v
        && m'.reg[PC] == m.reg[PC] + |ExprCode(e, names, tmp)|
        && Quiet(m, m', lo, DADDR_SIZE + tmp)
      else r.fault != CompareRange && Stops(m, ResultOf(r.fault), m.output)
    decreases e, 2
  {
    match e
    case Const(val) => m' := LoadConstSim(m, val, 0);
    case Id(name) => m' := LoadVarSim(m, name, names, k, store);
    case Op(op, left, right) =>
      var cl, cr := ExprCode(left, names, tmp), ExprCode(right, names, tmp - 1);
      OperationSplit(m, m.reg[PC], cl, tmp, cr, op);
      m' := OperationSim(op, left, right, names, k, tmp, lo, m, store, Eval(e, store, Subtracting), |cl|, |cr|);
  }

  /** Behind the left operand's code at pc: push, the right operand's code, pop and the operator. */
  ghost predicate RestAt(iMem: seq<Instr>, pc: int, tmp: int, cr: seq<Instr>, op: BinOp) {
    && CodeAt(iMem, pc, [RM(ST, AC, tmp, MP)]) && CodeAt(iMem, pc + 1, cr)
    && CodeAt(iMem, pc + 1 + |cr|, [RM(LD, AC1, tmp, MP)]) && CodeAt(iMem, pc + 1 + |cr| + 1, OpCode(op))
  }

  lemma OperationSplit(m: Machine, pc: int, cl: seq<Instr>, tmp: int, cr: seq<Instr>, op: BinOp)
    requires CodeAt(m.iMem, pc, cl + [RM(ST, AC, tmp, MP)] + cr + [RM(LD, AC1, tmp, MP)] + OpCode(op))
    ensures CodeAt(m.iMem, pc, cl) && RestAt(m.iMem, pc + |cl|, tmp, cr, op)
  {
    OpCodeSplit(m, pc, cl, RM(ST, AC, tmp, MP), cr, RM(LD, AC1, tmp, MP), OpCode(op));
  }

  lemma OpCodeSplit(m: Machine, pc: int, a: seq<Instr>, i: Instr, b: seq<Instr>, j: Instr, c: seq<Instr>)
    requires CodeAt(m.iMem, pc, a + [i] + b + [j] + c)
    ensures CodeAt(m.iMem, pc, a) && CodeAt(m.iMem, pc + |a|, [i]) && CodeAt(m.iMem, pc + |a| + 1, b)
    ensures CodeAt(m.iMem, pc + |a| + 1 + |b|, [j]) && CodeAt(m.iMem, pc + |a| + 1 + |b| + 1, c)
  {
    CodeAtConcat(m, pc, a + [i] + b + [j], c);
    CodeAtConcat(m, pc, a + [i] + b, [j]);
    CodeAtConcat(m, pc, a + [i], b);
    CodeAtConcat(m, pc, a, [i]);
  }

  lemma {:induction false} OperationSim(op: BinOp, left: Expr, right: Expr, names: Names, k: nat, tmp: int, lo: int,
                                        m: Machine, store: Store, r: Value, leftLen: nat, rightLen: nat)
      returns (m': Machine)
    requires Ready(m) && DeclaredExpr(left, names) && DeclaredExpr(right, names)
    requires Ahead(m, 0, ExprCode(left, names, tmp)) && leftLen == |ExprCode(left, names, tmp)|
    requires RestAt(m.iMem, m.reg[PC] + leftLen, tmp, ExprCode(right, names, tmp - 1), op)
    requires rightLen == |ExprCode(right, names, tmp - 1)|
    requires Table(names, k) && tmp <= 0 && k <= lo && ExprFits(left, DADDR_SIZE + tmp - lo) && ExprFits(right, DADDR_SIZE + tmp - 1 - lo)
    requires VarsMatch(m.dMem, names, store)
    requires var a, b := Eval(left, store, Subtracting), Eval(right, store, Subtracting);
      r == if a.Bad? then a else if b.Bad? then b else Apply(op, a.v, b.v, Subtracting)
    ensures r.Val? ==> Reaches(m, m') && m'.reg[AC] == r.v
    ensures r.Val? ==> m'.reg[PC] == m.reg[PC] + leftLen + rightLen + |OpCode(op)| + 2
    ensures r.Val? ==> Quiet(m, m', lo, DADDR_SIZE + tmp)
    ensures r.Bad? ==> r.fault != CompareRange && Stops(m, ResultOf(r.fault), m.output)
    decreases Op(op, left, right), 1
  {
    var a, b := Eval(left, store, Subtracting), Eval(right, store, Subtracting);
    m' := OperandsSim(op, left, right, names, k, tmp, lo, m, store, a, b, leftLen, rightLen);
    if a.Val? && b.Val? {
      m' := PopSim(op, tmp, m, m', a.v, b.v, r, lo, DADDR_SIZE + tmp);
    }
  }

  /** Both operands: the left one on the stack of temporaries, the right one in ac. */
  lemma {:induction false} OperandsSim(op: BinOp, left: Expr, right: Expr, names: Names, k: nat, tmp: int, lo: int,
                                       m: Machine, store: Store, a: Value, b: Value, leftLen: nat, rightLen: nat)
      returns (m': Machine)
    requires Ready(m) && DeclaredExpr(left, names) && DeclaredExpr(right, names)
    requires a == Eval(left, store, Subtracting) && b == Eval(right, store, Subtracting)
    requires Ahead(m, 0, ExprCode(left, names, tmp)) && leftLen == |ExprCode(left, names, tmp)|
    requires Ahead(m, leftLen, [RM(ST, AC, tmp, MP)])
    requires Ahead(m, leftLen + 1, ExprCode(right, names, tmp - 1))
    requires rightLen == |ExprCode(right, names, tmp - 1)| && Table(names, k) && VarsMatch(m.dMem, names, store)
    requires tmp <= 0 && k <= lo && ExprFits(left, DADDR_SIZE + tmp - lo) && ExprFits(right, DADDR_SIZE + tmp - 1 - lo)
    ensures a.Val? && b.Val? ==>
      && Reaches(m, m') && Quiet(m, m', lo, DADDR_SIZE + tmp)
      && m'.dMem[DADDR_SIZE - 1 + tmp] == a.v && m'.reg[AC] == b.v
      && m'.reg[PC] == m.reg[PC] + leftLen + rightLen + 1
    ensures a.Bad? ==> a.fault != CompareRange && Stops(m, ResultOf(a.fault), m.output)
    ensures a.Val? && b.Bad? ==> b.fault != CompareRange && Stops(m, ResultOf(b.fault), m.output)
    decreases Op(op, left, right), 0
  {
    var m1 := ExprSim(left, names, k, tmp, lo, m, store);
    m' := m1;
    if a.Val? {
      VarsKept(m, m1, names, k, lo, DADDR_SIZE + tmp, store);
      assert Ahead(m1, 0, [RM(ST, AC, tmp, MP)]) && Ahead(m1, 1, ExprCode(right, names, tmp - 1));
      m' := RightSim(right, names, k, tmp, lo, m1, store);
      if b.Val? { BothDone(m, m1, m', lo, DADDR_SIZE + tmp); } else { StopsLater(m, m1, ResultOf(b.fault), m.output); }
    }
  }

  lemma BothDone(m: Machine, m1: Machine, m2: Machine, lo: int, hi: int)
    requires Reaches(m, m1) && Quiet(m, m1, lo, hi) && Reaches(m1, m2) && Quiet(m1, m2, lo, hi)
    ensures Reaches(m, m2) && Quiet(m, m2, lo, hi)
  {
    ReachesTrans(m, m1, m2);
  }

  lemma VarsKept(m: Machine, m': Machine, names: Names, k: nat, lo: int, hi: int, store: Store)
    requires Table(names, k) && VarsMatch(m.dMem, names, store) && k <= lo && Quiet(m, m', lo, hi)
    ensures VarsMatch(m'.dMem, names, store)
  {
  }

  /** Push the left operand, then evaluate the right one. */
  lemma {:induction false} RightSim(right: Expr, names: Names, k: nat, tmp: int, lo: int, m: Machine, store: Store)
      returns (m': Machine)
    requires Ready(m) && DeclaredExpr(right, names) && Table(names, k)
    requires tmp <= 0 && k <= lo && ExprFits(right, DADDR_SIZE + tmp - 1 - lo) && VarsMatch(m.dMem, names, store)
    requires Ahead(m, 0, [RM(ST, AC, tmp, MP)])
    requires Ahead(m, 1, ExprCode(right, names, tmp - 1))
    ensures var r := Eval(right, store, Subtracting);
      if r.Val? then
        && Reaches(m, m') && m'.reg[AC] == r.v
        && m'.reg[PC] == m.reg[PC] + 1 + |ExprCode(right, names, tmp - 1)|
        && Quiet(m, m', lo, DADDR_SIZE + tmp)
        && m'.dMem[DADDR_SIZE - 1 + tmp] == m.reg[AC]
      else r.fault != CompareRange && Stops(m, ResultOf(r.fault), m.output)
    decreases right, 3
  {
    CodeAtOne(m, m.reg[PC], RM(ST, AC, tmp, MP));
    ReachesStep(m);
    var m1 := Step(m).0;
    assert m1 == m.(reg := m.reg[PC := m.reg[PC] + 1], dMem := m.dMem[DADDR_SIZE - 1 + tmp := m.reg[AC]]);
    m' := ExprSim(right, names, k, tmp - 1, lo, m1, store);
    var r := Eval(right, store, Subtracting);
    if r.Val? { ReachesTrans(m, m1, m'); } else { StopsLater(m, m1, ResultOf(r.fault), m.output); }
  }

  /** Fetch the left operand back and combine the two. */
  lemma PopSim(op: BinOp, tmp: int, m0: Machine, m: Machine, a: Int32, b: Int32, r: Value, lo: int, hi: int)
      returns (m': Machine)
    requires Reaches(m0, m) && Quiet(m0, m, lo, hi) && r == Apply(op, a, b, Subtracting)
    requires Ahead(m, 0, [RM(LD, AC1, tmp, MP)]) && Ahead(m, 1, OpCode(op))
    requires 0 < DADDR_SIZE + tmp <= DADDR_SIZE && m.dMem[DADDR_SIZE - 1 + tmp] == a && m.reg[AC] == b
    ensures r.Val? ==> Reaches(m0, m') && m'.reg[AC] == r.v && m'.reg[PC] == m.reg[PC] + 1 + |OpCode(op)|
    ensures r.Val? ==> Quiet(m0, m', lo, hi)
    ensures r.Bad? ==> r.fault != CompareRange && Stops(m0, ResultOf(r.fault), m0.output)
  {
    CodeAtOne(m, m.reg[PC], RM(LD, AC1, tmp, MP));
    ReachesStep(m);
    var m1 := Step(m).0;
    assert m1 == m.(reg := m.reg[PC := m.reg[PC] + 1][AC1 := a]);
    ReachesTrans(m0, m, m1);
    m' := OpSim(op, m1, a, b);
    if r.Val? { ReachesTrans(m0, m1, m'); } else { StopsLater(m0, m1, ResultOf(r.fault), m.output); }
  }

  // ----- Statements -----

  /** The machine does what outcome o of the source says: m' is where it gets to. */
  ghost predicate Simulates(m: Machine, m': Machine, len: nat, names: Names, o: Outcome, fuel: nat)
    requires |m.reg| == NO_REGS
  {
    match o
    case Done(st) =>
      && Reaches(m, m') && Matches(m', names, st) && m'.iMem == m.iMem
      && m'.reg[PC] == m.reg[PC] + len
    case Stuck(fault, output) => fault != CompareRange && Stops(m, ResultOf(fault), output)
    case OutOfFuel => LastsFor(m, fuel)
  }

  /** Run on from a state that was reached without finishing. */
  lemma SimulatesLater(m: Machine, m1: Machine, m': Machine, len1: nat, len2: nat, names: Names, o: Outcome, fuel: nat)
    requires |m.reg| == NO_REGS && |m1.reg| == NO_REGS
    requires Reaches(m, m1) && m1.iMem == m.iMem && m1.reg[PC] == m.reg[PC] + len1
    requires Simulates(m1, m', len2, names, o, fuel)
    ensures Simulates(m, m', len1 + len2, names, o, fuel)
  {
    match o
    case Done(_) => ReachesTrans(m, m1, m');
    case Stuck(fault, output) => StopsLater(m, m1, ResultOf(fault), output);
    case OutOfFuel => LastsLater(m, m1, fuel);
  }

  /** Expression code as statements use it: no temporary in use, variables left alone. */
  lemma ValueSim(e: Expr, names: Names, k: nat, m: Machine, st: State) returns (m': Machine)
    requires Matches(m, names, st) && DeclaredExpr(e, names) && Ahead(m, 0, ExprCode(e, names, 0))
    requires Table(names, k) && ExprFits(e, DADDR_SIZE - k)
    ensures var r := Eval(e, st.store, Subtracting);
      if r.Val? then
        && Reaches(m, m') && m'.reg[AC] == r.v && m'.iMem == m.iMem
        && m'.reg[PC] == m.reg[PC] + |ExprCode(e, names, 0)| && Matches(m', names, st)
      else r.fault != CompareRange && Stops(m, ResultOf(r.fault), st.output)
  {
    m' := ExprSim(e, names, k, 0, k, m, st.store);
  }

  /** Store ac in a variable. */
  lemma StoreSim(name: string, names: Names, k: nat, m: Machine, v: Int32, st: State) returns (m': Machine)
    requires name in names && Table(names, k) && k <= DADDR_SIZE
    requires Matches(m, names, st) && Ahead(m, 0, [RM(ST, AC, names[name], GP)]) && m.reg[AC] == v
    ensures Reaches(m, m') && m'.iMem == m.iMem && m'.reg[PC] == m.reg[PC] + 1
    ensures Matches(m', names, st.(store := st.store[name := v]))
  {
    CodeAtOne(m, m.reg[PC], RM(ST, AC, names[name], GP));
    ReachesStep(m);
    m' := Step(m).0;
    assert m' == m.(reg := m.reg[PC := m.reg[PC] + 1], dMem := m.dMem[names[name] := v]);
  }

  lemma AssignSim(name: string, rhs: Expr, names: Names, k: nat, m: Machine, st: State, fuel: nat)
      returns (m': Machine)
    requires DeclaredStmt(Assign(name, rhs), names) && Table(names, k) && ExprFits(rhs, DADDR_SIZE - k)
    requires Matches(m, names, st) && Ahead(m, 0, StmtCode(Assign(name, rhs), names))
    ensures Simulates(m, m', |StmtCode(Assign(name, rhs), names)|, names,
                      ExecStmt(Assign(name, rhs), st, Subtracting, fuel), fuel)
  {
    CodeAtConcat(m, m.reg[PC], ExprCode(rhs, names, 0), [RM(ST, AC, names[name], GP)]);
    m' := ValueSim(rhs, names, k, m, st);
    var r := Eval(rhs, st.store, Subtracting);
    if r.Val? {
      var m1 := m';
      m' := StoreSim(name, names, k, m1, r.v, st);
      ReachesTrans(m, m1, m');
    }
  }

  lemma ReadSim(name: string, names: Names, k: nat, m: Machine, st: State, fuel: nat) returns (m': Machine)
    requires DeclaredStmt(Read(name), names) && Table(names, k) && k <= DADDR_SIZE
    requires Matches(m, names, st) && Ahead(m, 0, StmtCode(Read(name), names))
    ensures Simulates(m, m', |StmtCode(Read(name), names)|, names,
                      ExecStmt(Read(name), st, Subtracting, fuel), fuel)
  {
    CodeAtIndex(m, m.reg[PC], StmtCode(Read(name), names), 0);
    CodeAtIndex(m, m.reg[PC], StmtCode(Read(name), names), 1);
    CodeAtOne(m, m.reg[PC], RO(IN, AC, 0, 0));
    m' := Step(m).0;
    if |st.input| == 0 {
      StopsStep(m);
    } else {
      ReachesStep(m);
      var m1 := m';
      assert m1 == m.(reg := m.reg[PC := m.reg[PC] + 1][AC := st.input[0]], input := st.input[1..]);
      m' := StoreSim(name, names, k, m1, st.input[0], st.(input := st.input[1..]));
      ReachesTrans(m, m1, m');
    }
  }

  lemma WriteSim(value: Expr, names: Names, k: nat, m: Machine, st: State, fuel: nat) returns (m': Machine)
    requires DeclaredStmt(Write(value), names) && Table(names, k) && ExprFits(value, DADDR_SIZE - k)
    requires Matches(m, names, st) && Ahead(m, 0, StmtCode(Write(value), names))
    ensures Simulates(m, m', |StmtCode(Write(value), names)|, names,
                      ExecStmt(Write(value), st, Subtracting, fuel), fuel)
  {
    CodeAtConcat(m, m.reg[PC], ExprCode(value, names, 0), [RO(OUT, AC, 0, 0)]);
    m' := ValueSim(value, names, k, m, st);
    if Eval(value, st.store, Subtracting).Val? {
      var m1 := m';
      CodeAtOne(m1, m1.reg[PC], RO(OUT, AC, 0, 0));
      ReachesStep(m1);
      m' := Step(m1).0;
      ReachesTrans(m, m1, m');
    }
  }

  /** The then-part at start, the jump over the else-part, and the else-part. */
  ghost predicate BranchesAt(iMem: seq<Instr>, start: int, b: seq<Instr>, c: seq<Instr>) {
    && CodeAt(iMem, start, b) && CodeAt(iMem, start + |b|, [RM(LDA, PC, |c|, PC)])
    && CodeAt(iMem, start + |b| + 1, c)
  }

  lemma IfSplit(m: Machine, pc: int, a: seq<Instr>, b: seq<Instr>, c: seq<Instr>)
    requires CodeAt(m.iMem, pc, IfCode(a, b, c))
    ensures CodeAt(m.iMem, pc, a) && CodeAt(m.iMem, pc + |a|, [RM(JEQ, AC, |b| + 1, PC)])
    ensures BranchesAt(m.iMem, pc + |a| + 1, b, c) && pc + |a| + 1 + |b| + 1 <= |m.iMem| && 0 <= pc
  {
    OpCodeSplit(m, pc, a, RM(JEQ, AC, |b| + 1, PC), b, RM(LDA, PC, |c|, PC), c);
  }

  lemma {:induction false} IfSim(test: Expr, p2: Stmts, p3: Stmts, names: Names, k: nat, m: Machine, st: State,
                                 fuel: nat, o: Outcome, len: nat) returns (m': Machine)
    requires DeclaredExpr(test, names) && Declared(p2, names) && Declared(p3, names)
    requires Table(names, k) && ExprFits(test, DADDR_SIZE - k)
    requires StmtsFit(p2, DADDR_SIZE - k) && StmtsFit(p3, DADDR_SIZE - k) && Matches(m, names, st)
    requires Ahead(m, 0, IfCode(ExprCode(test, names, 0), StmtsCode(p2, names), StmtsCode(p3, names)))
    requires var r := Eval(test, st.store, Subtracting);
      o == if r.Bad? then Stuck(r.fault, st.output) else Exec(if r.v != 0 then p2 else p3, st, Subtracting, fuel)
    requires len == |ExprCode(test, names, 0)| + |StmtsCode(p2, names)| + |StmtsCode(p3, names)| + 2
    ensures Simulates(m, m', len, names, o, fuel)
    decreases fuel, If(test, p2, p3), 1
  {
    var r := Eval(test, st.store, Subtracting);
    IfSplit(m, m.reg[PC], ExprCode(test, names, 0), StmtsCode(p2, names), StmtsCode(p3, names));
    var _, m1 := TestSim(test, |StmtsCode(p2, names)| + 1, names, k, m, st);
    if r.Bad? {
      m' := m1;
    } else {
      m' := BranchesSim(p2, p3, r.v, |ExprCode(test, names, 0)|, names, k, m, m1, st, fuel, If(test, p2, p3), o, len);
    }
  }

  /** From the test's conditional jump to the end of the statement. */
  lemma {:induction false} BranchesSim(p2: Stmts, p3: Stmts, v: int, testLen: nat, names: Names, k: nat,
                                       m: Machine, m1: Machine, st: State, fuel: nat, s: Stmt,
                                       o: Outcome, len: nat) returns (m': Machine)
    requires s.If? && s.thenPart == p2 && s.elsePart == p3
    requires Declared(p2, names) && Declared(p3, names) && Table(names, k)
    requires StmtsFit(p2, DADDR_SIZE - k) && StmtsFit(p3, DADDR_SIZE - k)
    requires Reaches(m, m1) && Matches(m1, names, st) && m1.iMem == m.iMem
    requires var start := m.reg[PC] + testLen + 1;
      && BranchesAt(m.iMem, start, StmtsCode(p2, names), StmtsCode(p3, names))
      && m1.reg[PC] == start + if v == 0 then |StmtsCode(p2, names)| + 1 else 0
    requires len == testLen + |StmtsCode(p2, names)| + |StmtsCode(p3, names)| + 2
    requires o == Exec(if v != 0 then p2 else p3, st, Subtracting, fuel)
    ensures Simulates(m, m', len, names, o, fuel)
    decreases fuel, s, 0
  {
    var b, c := |StmtsCode(p2, names)|, |StmtsCode(p3, names)|;
    if v != 0 {
      m' := ThenSim(p2, c, names, k, m1, st, fuel);
      SimulatesLater(m, m1, m', testLen + 1, b + 1 + c, names, o, fuel);
    } else {
      m' := StmtsSim(p3, names, k, m1, st, fuel);
      SimulatesLater(m, m1, m', testLen + b + 2, c, names, o, fuel);
    }
  }

  /** The then-part and the jump over the else-part. */
  lemma {:induction false} ThenSim(p2: Stmts, over: nat, names: Names, k: nat, m: Machine, st: State, fuel: nat)
      returns (m': Machine)
    requires Declared(p2, names) && Table(names, k) && StmtsFit(p2, DADDR_SIZE - k)
    requires Matches(m, names, st) && Ahead(m, 0, StmtsCode(p2, names))
    requires Ahead(m, |StmtsCode(p2, names)|, [RM(LDA, PC, over, PC)])
    requires m.reg[PC] + |StmtsCode(p2, names)| + 1 + over <= IADDR_SIZE
    ensures Simulates(m, m', |StmtsCode(p2, names)| + 1 + over, names, Exec(p2, st, Subtracting, fuel), fuel)
    decreases fuel, p2, 4
  {
    var m1 := StmtsSim(p2, names, k, m, st, fuel);
    m' := m1;
    if Exec(p2, st, Subtracting, fuel).Done? {
      m' := GotoSim(m1, over);
      ReachesTrans(m, m1, m');
    }
  }

  /** Evaluate a test and jump by d if it is 0. m1 is the machine about to jump. */
  lemma TestSim(test: Expr, d: int, names: Names, k: nat, m: Machine, st: State) returns (m1: Machine, m2: Machine)
    requires Matches(m, names, st) && DeclaredExpr(test, names) && Ahead(m, 0, ExprCode(test, names, 0))
    requires Table(names, k) && ExprFits(test, DADDR_SIZE - k)
    requires Ahead(m, |ExprCode(test, names, 0)|, [RM(JEQ, AC, d, PC)])
    requires 0 <= m.reg[PC] + |ExprCode(test, names, 0)| + 1 + d <= IADDR_SIZE
    ensures var r := Eval(test, st.store, Subtracting);
      if r.Val? then
        && Reaches(m, m1) && WellFormed(m1) && Step(m1) == (m2, Okay) && Reaches(m, m2)
        && Matches(m2, names, st) && m2.iMem == m.iMem
        && m2.reg[PC] == m.reg[PC] + |ExprCode(test, names, 0)| + 1 + if r.v == 0 then d else 0
      else r.fault != CompareRange && Stops(m, ResultOf(r.fault), st.output)
  {
    m1 := ValueSim(test, names, k, m, st);
    m2 := m1;
    if Eval(test, st.store, Subtracting).Val? {
      m2 := JumpSim(m1, JEQ, d);
      ReachesTrans(m, m1, m2);
    }
  }

  lemma RepeatSplit(m: Machine, pc: int, a: seq<Instr>, b: seq<Instr>, len: int)
    requires CodeAt(m.iMem, pc, RepeatCode(a, b)) && len == |a| + |b| + 1
    ensures CodeAt(m.iMem, pc, a) && CodeAt(m.iMem, pc + |a|, b) && CodeAt(m.iMem, pc + |a| + |b|, [RM(JEQ, AC, -len, PC)])
  {
    CodeAtConcat(m, pc, a + b, [RM(JEQ, AC, -len, PC)]);
    CodeAtConcat(m, pc, a, b);
  }

  lemma {:induction false} RepeatSim(body: Stmts, until: Expr, names: Names, k: nat, m: Machine, st: State, fuel: nat)
      returns (m': Machine)
    requires Declared(body, names) && DeclaredExpr(until, names)
    requires Table(names, k) && StmtFits(Repeat(body, until), DADDR_SIZE - k) && WellFormed(m)
    requires Matches(m, names, st) && Ahead(m, 0, StmtCode(Repeat(body, until), names))
    ensures Simulates(m, m', |StmtCode(Repeat(body, until), names)|, names,
                      ExecStmt(Repeat(body, until), st, Subtracting, fuel), fuel)
    decreases fuel, Repeat(body, until), 2
  {
    var a, b := StmtsCode(body, names), ExprCode(until, names, 0);
    var len := |a| + |b| + 1;
    RepeatSplit(m, m.reg[PC], a, b, len);
    var m1 := StmtsSim(body, names, k, m, st, fuel);
    m' := m1;
    var o := Exec(body, st, Subtracting, fuel);
    if o.Done? {
      m' := UntilSim(body, until, names, k, m, m1, o.state, fuel, len, ExecUntil(body, until, o.state, Subtracting, fuel));
    }
  }

  /** The test, then out of the loop or back to its start. */
  lemma {:induction false} UntilSim(body: Stmts, until: Expr, names: Names, k: nat,
                                    m: Machine, m1: Machine, st: State, fuel: nat, len: int, o: Outcome) returns (m': Machine)
    requires Declared(body, names) && DeclaredExpr(until, names)
    requires Table(names, k) && StmtFits(Repeat(body, until), DADDR_SIZE - k)
    requires Reaches(m, m1) && Matches(m1, names, st) && m1.iMem == m.iMem
    requires len == |StmtCode(Repeat(body, until), names)| && Ahead(m, 0, StmtCode(Repeat(body, until), names))
    requires m1.reg[PC] + |ExprCode(until, names, 0)| + 1 == m.reg[PC] + len
    requires Ahead(m1, 0, ExprCode(until, names, 0))
    requires Ahead(m1, |ExprCode(until, names, 0)|, [RM(JEQ, AC, -len, PC)])
    requires o == ExecUntil(body, until, st, Subtracting, fuel)
    ensures Simulates(m, m', len, names, o, fuel)
    decreases fuel, Repeat(body, until), 1
  {
    var m2, m3 := TestSim(until, -len, names, k, m1, st);
    var r := Eval(until, st.store, Subtracting);
    if r.Bad? {
      m' := m3;
      StopsLater(m, m1, ResultOf(r.fault), st.output);
    } else {
      ReachesTrans(m, m1, m2);
      ReachesTrans(m, m1, m3);
      m' := TestedSim(body, until, names, k, m, m2, m3, st, fuel, len, r.v, o);
    }
  }

  /** The test has a value: at the end of the loop, or at its start again. */
  lemma {:induction false} TestedSim(body: Stmts, until: Expr, names: Names, k: nat, m: Machine, m2: Machine, m3: Machine,
                                     st: State, fuel: nat, len: nat, v: Int32, o: Outcome) returns (m': Machine)
    requires Declared(body, names) && DeclaredExpr(until, names) && len == |StmtCode(Repeat(body, until), names)|
    requires Table(names, k) && StmtFits(Repeat(body, until), DADDR_SIZE - k)
    requires Reaches(m, m2) && WellFormed(m2) && Step(m2) == (m3, Okay) && Reaches(m, m3)
    requires Matches(m3, names, st) && m3.iMem == m.iMem && m3.reg[PC] == m.reg[PC] + if v == 0 then 0 else len
    requires Ahead(m, 0, StmtCode(Repeat(body, until), names))
    requires o == if v != 0 then Done(st) else if fuel == 0 then OutOfFuel
      else ExecStmt(Repeat(body, until), st, Subtracting, fuel - 1)
    ensures Simulates(m, m', len, names, o, fuel)
    decreases fuel, Repeat(body, until), 0
  {
    m' := m3;
    if v == 0 && fuel > 0 {
      m' := AnotherRound(body, until, names, k, m, m2, m3, st, fuel - 1, len, o);
    }
  }

  /** Back at the start of the loop. */
  lemma {:induction false} AnotherRound(body: Stmts, until: Expr, names: Names, k: nat, m: Machine, m2: Machine, m3: Machine,
                                        st: State, fuel: nat, len: nat, o: Outcome) returns (m': Machine)
    requires Declared(body, names) && DeclaredExpr(until, names) && len == |StmtCode(Repeat(body, until), names)|
    requires Table(names, k) && StmtFits(Repeat(body, until), DADDR_SIZE - k)
    requires Reaches(m, m2) && WellFormed(m2) && Step(m2) == (m3, Okay) && Reaches(m, m3)
    requires Matches(m3, names, st) && m3.iMem == m.iMem && m3.reg[PC] == m.reg[PC]
    requires Ahead(m, 0, StmtCode(Repeat(body, until), names))
    requires o == ExecStmt(Repeat(body, until), st, Subtracting, fuel)
    ensures Simulates(m, m', len, names, o, fuel + 1)
    decreases fuel + 1, Repeat(body, until), -1
  {
    m' := RepeatSim(body, until, names, k, m3, st, fuel);
    RoundAgain(m, m2, m3, m', len, names, o, fuel);
  }

  /** A jump back to the start of the loop takes one step, so one more unit of fuel lasts. */
  lemma RoundAgain(m: Machine, m2: Machine, m3: Machine, m': Machine, len: nat, names: Names, o: Outcome, fuel: nat)
    requires WellFormed(m) && Reaches(m, m2) && WellFormed(m2) && Step(m2) == (m3, Okay) && Reaches(m, m3)
    requires m3.iMem == m.iMem && |m3.reg| == NO_REGS && m3.reg[PC] == m.reg[PC]
    requires Simulates(m3, m', len, names, o, fuel)
    ensures Simulates(m, m', len, names, o, fuel + 1)
  {
    if o.OutOfFuel? {
      LastsOneMore(m2, fuel);
      LastsLater(m, m2, fuel + 1);
    } else {
      SimulatesLater(m, m3, m', 0, len, names, o, fuel);
    }
  }

  lemma {:induction false} StmtSim(s: Stmt, names: Names, k: nat, m: Machine, st: State, fuel: nat)
      returns (m': Machine)
    requires DeclaredStmt(s, names) && Table(names, k) && StmtFits(s, DADDR_SIZE - k) && WellFormed(m)
    requires Matches(m, names, st) && Ahead(m, 0, StmtCode(s, names))
    ensures Simulates(m, m', |StmtCode(s, names)|, names, ExecStmt(s, st, Subtracting, fuel), fuel)
    decreases fuel, s, 3
  {
    match s
    case If(test, p2, p3) =>
      m' := IfSim(test, p2, p3, names, k, m, st, fuel, ExecStmt(s, st, Subtracting, fuel), |StmtCode(s, names)|);
    case Repeat(body, until) => m' := RepeatSim(body, until, names, k, m, st, fuel);
    case Assign(name, rhs) => m' := AssignSim(name, rhs, names, k, m, st, fuel);
    case Read(name) => m' := ReadSim(name, names, k, m, st, fuel);
    case Write(value) => m' := WriteSim(value, names, k, m, st, fuel);
  }

  lemma {:induction false} StmtsSim(ss: Stmts, names: Names, k: nat, m: Machine, st: State, fuel: nat)
      returns (m': Machine)
    requires Declared(ss, names) && Table(names, k) && StmtsFit(ss, DADDR_SIZE - k) && WellFormed(m)
    requires Matches(m, names, st) && Ahead(m, 0, StmtsCode(ss, names))
    ensures Simulates(m, m', |StmtsCode(ss, names)|, names, Exec(ss, st, Subtracting, fuel), fuel)
    decreases fuel, ss, 3
  {
    match ss
    case Nil =>
      ReachesSelf(m);
      m' := m;
    case Cons(head, sibling) =>
      var a, b := StmtCode(head, names), StmtsCode(sibling, names);
      CodeAtConcat(m, m.reg[PC], a, b);
      var m1 := StmtSim(head, names, k, m, st, fuel);
      m' := m1;
      var o := ExecStmt(head, st, Subtracting, fuel);
      if o.Done? {
        m' := StmtsSim(sibling, names, k, m1, o.state, fuel);
        SimulatesLater(m, m1, m', |a|, |b|, names, Exec(sibling, o.state, Subtracting, fuel), fuel);
      }
  }
}
