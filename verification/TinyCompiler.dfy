/** The main results about the TINY compiler: source program, code file, loader and
    machine put together. */
module TinyCompiler {
  import opened TinySyntax
  import opened TmMachine
  import opened TinyLayout
  import opened TinyCodeGen
  import opened TinyCorrect

  /** What the symbol table and the two memories must provide. */
  ghost predicate Compilable(ss: Stmts, names: Names, k: nat) {
    && Declared(ss, names) && Table(names, k)
    && StmtsFit(ss, DADDR_SIZE - k)
    && |ProgramCode(ss, names)| <= IADDR_SIZE
  }

  lemma ProgramLoads(ss: Stmts, names: Names)
    requires Declared(ss, names) && |ProgramCode(ss, names)| <= IADDR_SIZE
    ensures forall l :: l in ProgramLines(ss, names) ==> GoodLine(l)
    ensures Loaded(ProgramLines(ss, names))[..|ProgramCode(ss, names)|] == ProgramCode(ss, names)
    ensures forall k :: |ProgramCode(ss, names)| <= k < IADDR_SIZE ==> Loaded(ProgramLines(ss, names))[k] == HALT0
  {
    forall l ensures Count(ProgramLines(ss, names), l) == Count(Numbered(0, ProgramCode(ss, names)), l) {
      ProgramLinesPlaced(ss, names, l);
    }
    LoadedInPlace(ProgramLines(ss, names), ProgramCode(ss, names));
  }

  /** The machine that has read the code file of ss. */
  ghost function Start(ss: Stmts, names: Names, input: seq<Int32>): (m: Machine)
    requires Declared(ss, names) && |ProgramCode(ss, names)| <= IADDR_SIZE
    ensures WellFormed(m)
  {
    ProgramLoads(ss, names);
    Initial(ProgramLines(ss, names), input)
  }

  ghost function Meaning(ss: Stmts, input: seq<Int32>, cmp: Comparison, fuel: nat): Outcome {
    Exec(ss, State(map[], input, []), cmp, fuel)
  }

  /** Generate, load and run: the imperative compiler and machine do exactly what the
      machine value `Start` does. */
  method CompileAndRun(ss: Stmts, names: Names, input: seq<Int32>, stepcnt: nat)
      returns (tm: TM, res: StepResult)
    requires Declared(ss, names) && |ProgramCode(ss, names)| <= IADDR_SIZE
    ensures (tm.Abs(), res) == Run(Start(ss, names, input), stepcnt)
  {
    var generator := new Generator(names);
    generator.CodeGen(ss);
    ProgramLoads(ss, names);
    tm := new TM(generator.emitter.file, input);
    res := tm.Steps(stepcnt);
  }

  /** The machine comes to HALT with the outputs, the remaining inputs and the variables
      of the source state. */
  ghost predicate HaltsWith(m: Machine, names: Names, st: State) {
    && WellFormed(m)
    && exists n: nat ::
      var (m', res) := Run(m, n);
      res == Halted && m'.output == st.output && m'.input == st.input && VarsMatch(m'.dMem, names, st.store)
  }

  /** Registers and data as the loader leaves them. */
  ghost predicate Cleared(m: Machine) {
    && WellFormed(m) && m.dMem[0] == DADDR_SIZE - 1
    && (forall k :: 0 < k < DADDR_SIZE ==> m.dMem[k] == 0)
    && (forall k :: 0 <= k < NO_REGS ==> m.reg[k] == 0)
  }

  lemma StartCleared(ss: Stmts, names: Names, input: seq<Int32>)
    requires Declared(ss, names) && |ProgramCode(ss, names)| <= IADDR_SIZE
    ensures var m := Start(ss, names, input);
      Cleared(m) && m.input == input && m.output == [] && CodeAt(m.iMem, 0, ProgramCode(ss, names))
  {
    ProgramLoads(ss, names);
  }

  /** The prelude points mp at the last cell and clears location 0. */
  lemma PreludeSim(m0: Machine, code: seq<Instr>) returns (m: Machine)
    requires Cleared(m0) && CodeAt(m0.iMem, 0, Prelude + code)
    ensures Reaches(m0, m) && m.iMem == m0.iMem && CodeAt(m.iMem, 2, code)
    ensures m.input == m0.input && m.output == m0.output && Ready(m) && m.reg[PC] == 2
    ensures forall k :: 0 <= k < DADDR_SIZE ==> m.dMem[k] == 0
  {
    CodeAtConcat(m0, 0, Prelude, code);
    CodeAtIndex(m0, 0, Prelude, 0);
    CodeAtIndex(m0, 0, Prelude, 1);
    CodeAtOne(m0, 0, RM(LD, MP, 0, AC));
    ReachesStep(m0);
    var m1 := Step(m0).0;
    assert m1 == m0.(reg := m0.reg[PC := 1][MP := DADDR_SIZE - 1]);
    CodeAtOne(m1, 1, RM(ST, AC, 0, AC));
    ReachesStep(m1);
    m := Step(m1).0;
    ReachesTrans(m0, m1, m);
    assert m == m1.(reg := m1.reg[PC := 2], dMem := m1.dMem[0 := 0]);
  }

  lemma HaltSim(m0: Machine, m: Machine, names: Names, st: State)
    requires Reaches(m0, m) && Matches(m, names, st) && CodeAt(m.iMem, m.reg[PC], [HALT0])
    ensures HaltsWith(m0, names, st)
  {
    CodeAtOne(m, m.reg[PC], HALT0);
    RunOneMore(m, 0);
    var n := ReachedBy(m0, m);
    RunOn(m0, n, 1);
    var (m', res) := Run(m0, n + 1);
    assert res == Halted && m'.dMem == m.dMem;
  }

  /** Every program, every input: what the source does, the machine does. A program that
      ends makes the machine halt with its outputs and variables; one that fails makes it
      stop with that failure after the same outputs; one that is still running after
      `fuel` rounds keeps the machine running for at least `fuel` steps. */
  lemma CompilerPreservesMeaning(ss: Stmts, names: Names, k: nat, input: seq<Int32>, fuel: nat)
    requires Compilable(ss, names, k)
    ensures var m := Start(ss, names, input);
      match Meaning(ss, input, Subtracting, fuel)
      case Done(st) => HaltsWith(m, names, st)
      case Stuck(fault, output) => fault != CompareRange && Stops(m, ResultOf(fault), output)
      case OutOfFuel => LastsFor(m, fuel)
  {
    var m0, st0 := Start(ss, names, input), State(map[], input, []);
    StartCleared(ss, names, input);
    assert ProgramCode(ss, names) == Prelude + (StmtsCode(ss, names) + [HALT0]);
    var m1 := PreludeSim(m0, StmtsCode(ss, names) + [HALT0]);
    CodeAtConcat(m1, 2, StmtsCode(ss, names), [HALT0]);
    var m2 := StmtsSim(ss, names, k, m1, st0, fuel);
    match Exec(ss, st0, Subtracting, fuel)
    case Done(st) =>
      ReachesTrans(m0, m1, m2);
      HaltSim(m0, m2, names, st);
    case Stuck(fault, output) => StopsLater(m0, m1, ResultOf(fault), output);
    case OutOfFuel => LastsLater(m0, m1, fuel);
  }

  /** The same with `<` understood as on the integers, for every run that compares no
      operands more than 32 bits apart. */
  lemma CompilerPreservesExactMeaning(ss: Stmts, names: Names, k: nat, input: seq<Int32>, fuel: nat)
    requires Compilable(ss, names, k) && ComparesInRange(Meaning(ss, input, Exact, fuel))
    ensures var m := Start(ss, names, input);
      match Meaning(ss, input, Exact, fuel)
      case Done(st) => HaltsWith(m, names, st)
      case Stuck(fault, output) => Stops(m, ResultOf(fault), output)
      case OutOfFuel => LastsFor(m, fuel)
  {
    ExactExecAgrees(ss, State(map[], input, []), fuel);
    CompilerPreservesMeaning(ss, names, k, input, fuel);
  }

  ghost predicate EndsWithin(ss: Stmts, input: seq<Int32>, fuel: nat) {
    Meaning(ss, input, Subtracting, fuel) != OutOfFuel
  }

  ghost predicate StoppedAfter(m: Machine, steps: nat) {
    WellFormed(m) && Run(m, steps).1 != Okay
  }

  /** The machine stops, in whatever way, exactly when the source program does. */
  lemma StopsExactlyWhenSourceDoes(ss: Stmts, names: Names, k: nat, input: seq<Int32>)
    requires Compilable(ss, names, k)
    ensures (exists steps: nat :: StoppedAfter(Start(ss, names, input), steps))
       <==> (exists fuel: nat :: EndsWithin(ss, input, fuel))
  {
    var m := Start(ss, names, input);
    if fuel: nat :| EndsWithin(ss, input, fuel) {
      CompilerPreservesMeaning(ss, names, k, input, fuel);
      var n: nat :| Run(m, n).1 != Okay;
      assert StoppedAfter(m, n);
    }
    if steps: nat :| StoppedAfter(m, steps) {
      CompilerPreservesMeaning(ss, names, k, input, steps);
      assert EndsWithin(ss, input, steps);
    }
  }
}
