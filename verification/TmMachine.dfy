/** The Tiny Machine: one step on a value (`Step`), and the simulator's own
    registers and memories updated in place (`TM`). */
module TmMachine {
  import opened TinySyntax

  const IADDR_SIZE: nat := 1024
  const DADDR_SIZE: nat := 1024
  const NO_REGS: nat := 8
  const PC_REG: nat := 7

  datatype ROp = HALT | IN | OUT | ADD | SUB | MUL | DIV
  datatype MOp = LD | ST | LDA | LDC | JLT | JLE | JGT | JGE | JEQ | JNE

  type Reg = r: int | 0 <= r < 8

  /** Register-only instructions take three registers; the others a register, a
      displacement and a base register. The loader accepts nothing else. */
  datatype Instr =
    | RO(rop: ROp, r: Reg, s: Reg, t: Reg)
    | RM(mop: MOp, r: Reg, d: int, s: Reg)

  const HALT0 := RO(HALT, 0, 0, 0)

  /** The results of a step. The last three are not in the C enumeration: an access one
      past the end of a memory, which the bounds tests let through, the quotient that
      does not fit, and a read with no input left. */
  datatype StepResult =
    | Okay | Halted | IMemErr | DMemErr | ZeroDivide
    | PastEnd | Trap | Starved

  datatype Machine = Machine(
    iMem: seq<Instr>, dMem: seq<int>, reg: seq<int>,
    input: seq<Int32>, output: seq<int>)

  predicate WellFormed(m: Machine) {
    |m.iMem| == IADDR_SIZE && |m.dMem| == DADDR_SIZE && |m.reg| == NO_REGS
  }

  function Jumps(op: MOp, v: int): bool {
    match op
    case JLT => v < 0
    case JLE => v <= 0
    case JGT => v > 0
    case JGE => v >= 0
    case JEQ => v == 0
    case JNE => v != 0
    case _ => false
  }

  /** One instruction: the new machine and what became of it. */
  function Step(m: Machine): (Machine, StepResult)
    requires WellFormed(m)
  {
    var pc := m.reg[PC_REG];
    if pc < 0 || pc > IADDR_SIZE then (m, IMemErr)
    else if pc == IADDR_SIZE then (m, PastEnd)
    else
      var m1 := m.(reg := m.reg[PC_REG := pc + 1]);
      var i := m.iMem[pc];
      if i.RO? then StepRO(m1, i) else
      var a := Wrap(i.d + m1.reg[i.s]);
      if i.mop == LD || i.mop == ST then
        if a < 0 || a > DADDR_SIZE then (m1, DMemErr)
        else if a == DADDR_SIZE then (m1, PastEnd)
        else if i.mop == LD then (m1.(reg := m1.reg[i.r := m1.dMem[a]]), Okay)
        else (m1.(dMem := m1.dMem[a := m1.reg[i.r]]), Okay)
      else if i.mop == LDA then (m1.(reg := m1.reg[i.r := a]), Okay)
      else if i.mop == LDC then (m1.(reg := m1.reg[i.r := i.d]), Okay)
      else if Jumps(i.mop, m1.reg[i.r]) then (m1.(reg := m1.reg[PC_REG := a]), Okay)
      else (m1, Okay)
  }

  function StepRO(m: Machine, i: Instr): (Machine, StepResult)
    requires |m.reg| == NO_REGS && i.RO?
  {
    var s, t := m.reg[i.s], m.reg[i.t];
    match i.rop
    case HALT => (m, Halted)
    case IN =>
      if |m.input| == 0 then (m, Starved)
      else (m.(reg := m.reg[i.r := m.input[0]], input := m.input[1..]), Okay)
    case OUT => (m.(output := m.output + [m.reg[i.r]]), Okay)
    case ADD => (m.(reg := m.reg[i.r := Wrap(s + t)]), Okay)
    case SUB => (m.(reg := m.reg[i.r := Wrap(s - t)]), Okay)
    case MUL => (m.(reg := m.reg[i.r := Wrap(s * t)]), Okay)
    case DIV =>
      if t == 0 then (m, ZeroDivide)
      else if !Fits(Quotient(s, t)) then (m, Trap)
      else (m.(reg := m.reg[i.r := Quotient(s, t)]), Okay)
  }

  lemma StepKeepsWellFormed(m: Machine)
    requires WellFormed(m)
    ensures WellFormed(Step(m).0) && Step(m).0.iMem == m.iMem
  {
  }

  // ----- The instructions, one by one -----

  /** The registers when instruction i, at pc, is carried out. */
  predicate About(m: Machine, i: Instr, regs: seq<int>) {
    WellFormed(m) && 0 <= m.reg[7] < 1024 && m.iMem[m.reg[7]] == i && regs == m.reg[7 := m.reg[7] + 1]
  }

  /** a divided by b leaves a remainder smaller than b and of a's sign. */
  lemma DivideSteps(m: Machine, r: Reg, s: Reg, t: Reg, regs: seq<int>)
    requires About(m, RO(DIV, r, s, t), regs)
    ensures var (m', res) := Step(m);
      var a, b, v := regs[s], regs[t], m'.reg[r];
      var rem := a - b * v;
      && (res == ZeroDivide <==> b == 0)
      && (res == Okay ==>
            && m' == m.(reg := regs[r := v]) && Fits(v)
            && ((rem < b && -rem < b) || (b < rem && b < -rem)) && (rem > 0 ==> a > 0) && (rem < 0 ==> a < 0))
      && (Fits(a) && Fits(b) && b != 0 ==> res == if a == -0x8000_0000 && b == -1 then Trap else Okay)
  {
    var a, b := regs[s], regs[t];
    if b != 0 {
      QuotientIs(a, b, Quotient(a, b));
      if Fits(a) && Fits(b) {
        QuotientFits(a, b);
      }
    }
  }

  /** Sums, differences and products wrap around at 32 bits. */
  lemma ArithmeticSteps(m: Machine, rop: ROp, r: Reg, s: Reg, t: Reg, regs: seq<int>)
    requires About(m, RO(rop, r, s, t), regs) && (rop == ADD || rop == SUB || rop == MUL)
    ensures var (m', res) := Step(m);
      var a, b, v := regs[s], regs[t], m'.reg[r];
      && res == Okay && m' == m.(reg := regs[r := v]) && Fits(v)
      && (rop == ADD ==> (a + b - v) % 0x1_0000_0000 == 0)
      && (rop == SUB ==> (a - b - v) % 0x1_0000_0000 == 0)
      && (rop == MUL ==> (a * b - v) % 0x1_0000_0000 == 0)
  {
    var a, b := regs[s], regs[t];
    Congruent(a + b, Wrap(a + b));
    Congruent(a - b, Wrap(a - b));
    Congruent(a * b, Wrap(a * b));
  }

  lemma TransferSteps(m: Machine, rop: ROp, r: Reg, s: Reg, t: Reg, regs: seq<int>)
    requires About(m, RO(rop, r, s, t), regs)
    ensures var (m', res) := Step(m);
      && (rop == HALT ==> res == Halted && m' == m.(reg := regs))
      && (rop == OUT ==> res == Okay && m' == m.(reg := regs, output := m.output + [regs[r]]))
      && (rop == IN && m.input == [] ==> res == Starved && m' == m.(reg := regs))
      && (rop == IN && m.input != [] ==> res == Okay && m' == m.(reg := regs[r := m.input[0]], input := m.input[1..]))
  {
  }

  /** The address is the displacement added to the base register; only LDC takes the
      displacement alone. */
  lemma MemorySteps(m: Machine, mop: MOp, r: Reg, d: int, s: Reg, regs: seq<int>)
    requires About(m, RM(mop, r, d, s), regs)
    ensures var (m', res) := Step(m); var a := Wrap(d + regs[s]);
      && (mop == LD && 0 <= a < 1024 ==> res == Okay && m' == m.(reg := regs[r := m.dMem[a]]))
      && (mop == ST && 0 <= a < 1024 ==> res == Okay && m' == m.(reg := regs, dMem := m.dMem[a := regs[r]]))
      && ((mop == LD || mop == ST) && !(0 <= a <= 1024) ==> res == DMemErr && m' == m.(reg := regs))
      && (mop == LDA ==> res == Okay && m' == m.(reg := regs[r := a]))
      && (mop == LDC ==> res == Okay && m' == m.(reg := regs[r := d]))
  {
  }

  /** Each of the six jumps compares its register with 0. */
  lemma JumpSteps(m: Machine, mop: MOp, r: Reg, d: int, s: Reg, regs: seq<int>)
    requires About(m, RM(mop, r, d, s), regs) && mop !in {LD, ST, LDA, LDC}
    ensures var (m', res) := Step(m); var v := regs[r];
      && res == Okay
      && (v < 0 ==> m'.reg == if mop in {JLT, JLE, JNE} then regs[7 := Wrap(d + regs[s])] else regs)
      && (v == 0 ==> m'.reg == if mop in {JLE, JGE, JEQ} then regs[7 := Wrap(d + regs[s])] else regs)
      && (v > 0 ==> m'.reg == if mop in {JGT, JGE, JNE} then regs[7 := Wrap(d + regs[s])] else regs)
      && m' == m.(reg := m'.reg)
  {
  }

  /** At most n steps, stopping at the first result other than Okay. */
  function Run(m: Machine, n: nat): (r: (Machine, StepResult))
    requires WellFormed(m)
    ensures WellFormed(r.0) && r.0.iMem == m.iMem
    decreases n
  {
    if n == 0 then (m, Okay) else
    StepKeepsWellFormed(m);
    var s := Step(m);
    if s.1 != Okay then s else Run(s.0, n - 1)
  }

  lemma {:induction false} RunOn(m: Machine, a: nat, b: nat)
    requires WellFormed(m) && Run(m, a).1 == Okay
    decreases a
    ensures Run(m, a + b) == Run(Run(m, a).0, b)
  {
    if a > 0 { StepKeepsWellFormed(m); RunOn(Step(m).0, a - 1, b); }
  }

  lemma RunOneMore(m: Machine, a: nat)
    requires WellFormed(m) && Run(m, a).1 == Okay
    ensures Run(m, a + 1) == Step(Run(m, a).0)
  {
    RunOn(m, a, 1);
    StepKeepsWellFormed(Run(m, a).0);
  }

  /** A stopped machine stays stopped. */
  lemma {:induction false} RunStopped(m: Machine, a: nat, b: nat)
    requires WellFormed(m) && Run(m, a).1 != Okay && a <= b
    decreases a
    ensures Run(m, b) == Run(m, a)
  {
    if a > 0 && Step(m).1 == Okay { StepKeepsWellFormed(m); RunStopped(Step(m).0, a - 1, b - 1); }
  }

  /** A line of the code file: `loc: instruction`. */
  datatype Line = Line(loc: int, instr: Instr)

  predicate GoodLine(l: Line) {
    0 <= l.loc < IADDR_SIZE
  }

  function Loaded(file: seq<Line>): (mem: seq<Instr>)
    requires forall l :: l in file ==> GoodLine(l)
    ensures |mem| == IADDR_SIZE
  {
    if |file| == 0 then seq(IADDR_SIZE, _ => HALT0)
    else
      var last := file[|file| - 1];
      assert last in file && GoodLine(last);
      Loaded(file[..|file| - 1])[last.loc := last.instr]
  }

  /** A location holds the instruction of the last line that names it, and HALT if none does. */
  lemma {:induction false} LoadedAt(file: seq<Line>, n: nat, loc: nat)
    requires (forall l :: l in file ==> GoodLine(l)) && n <= |file| && loc < 1024
    requires forall k :: n <= k < |file| ==> file[k].loc != loc
    ensures n > 0 && file[n - 1].loc == loc ==> Loaded(file)[loc] == file[n - 1].instr
    ensures n == 0 ==> Loaded(file)[loc] == RO(HALT, 0, 0, 0)
  {
    if n < |file| {
      var before := file[..|file| - 1];
      assert file[|file| - 1] in file && forall l :: l in before ==> l in file;
      LoadedAt(before, n, loc);
    } else if n > 0 {
      assert file[n - 1] in file;
    }
  }

  /** The machine the loader leaves behind: registers and data 0, except that
      location 0 holds the highest data address. */
  function Initial(file: seq<Line>, input: seq<Int32>): (m: Machine)
    requires forall l :: l in file ==> GoodLine(l)
    ensures WellFormed(m)
  {
    Machine(Loaded(file), seq(DADDR_SIZE, i => if i == 0 then DADDR_SIZE - 1 else 0),
            seq(NO_REGS, _ => 0), input, [])
  }

  /** The simulator's global arrays. */
  class TM {
    const iMem: array<Instr>
    const dMem: array<int>
    const reg: array<int>
    var input: seq<Int32>
    var output: seq<int>

    function Abs(): Machine
      reads this, iMem, dMem, reg
    {
      Machine(iMem[..], dMem[..], reg[..], input, output)
    }

    ghost predicate Valid()
      reads this, iMem, dMem, reg
    {
      dMem != reg && WellFormed(Abs())
    }

    /** readInstructions: clear everything, then store the lines in file order. */
    constructor (file: seq<Line>, input: seq<Int32>)
      requires forall l :: l in file ==> GoodLine(l)
      ensures fresh(iMem) && fresh(dMem) && fresh(reg)
      ensures Valid() && Abs() == Initial(file, input)
    {
      iMem := new Instr[IADDR_SIZE](_ => HALT0);
      dMem := new int[DADDR_SIZE](_ => 0);
      reg := new int[NO_REGS](_ => 0);
      this.input, output := input, [];
      new;
      dMem[0] := DADDR_SIZE - 1;
      assert iMem[..] == Loaded(file[..0]);
      for n := 0 to |file|
        invariant iMem[..] == Loaded(file[..n])
        invariant dMem[0] == DADDR_SIZE - 1 && forall k :: 0 < k < DADDR_SIZE ==> dMem[k] == 0
        invariant forall k :: 0 <= k < NO_REGS ==> reg[k] == 0
        invariant this.input == input && output == []
      {
        assert file[..n + 1][..n] == file[..n];
        assert file[n] in file;
        iMem[file[n].loc] := file[n].instr;
      }
      assert file[..|file|] == file;
      assert dMem[..] == Initial(file, input).dMem;
      assert reg[..] == Initial(file, input).reg;
    }

    method StepTM() returns (res: StepResult)
      requires Valid()
      modifies dMem, reg, this`input, this`output
      ensures Valid()
      ensures (Abs(), res) == Step(old(Abs()))
    {
      StepKeepsWellFormed(Abs());
      var pc := reg[PC_REG];
      if pc < 0 || pc > IADDR_SIZE { return IMemErr; }
      if pc == IADDR_SIZE { return PastEnd; }
      reg[PC_REG] := pc + 1;
      var i := iMem[pc];
      var r, m := i.r, 0;
      if i.RM? {
        m := Wrap(i.d + reg[i.s]);
        if i.mop == LD || i.mop == ST {
          if m < 0 || m > DADDR_SIZE { return DMemErr; }
          if m == DADDR_SIZE { return PastEnd; }
        }
      }
      match i {
        case RO(HALT, _, _, _) => return Halted;
        case RO(IN, _, _, _) =>
          if |input| == 0 { return Starved; }
          reg[r] := input[0];
          input := input[1..];
        case RO(OUT, _, _, _) => output := output + [reg[r]];
        case RO(ADD, _, s, t) => reg[r] := Wrap(reg[s] + reg[t]);
        case RO(SUB, _, s, t) => reg[r] := Wrap(reg[s] - reg[t]);
        case RO(MUL, _, s, t) => reg[r] := Wrap(reg[s] * reg[t]);
        case RO(DIV, _, s, t) =>
          if reg[t] == 0 { return ZeroDivide; }
          if !Fits(Quotient(reg[s], reg[t])) { return Trap; }
          reg[r] := Quotient(reg[s], reg[t]);
        case RM(LD, _, _, _) => reg[r] := dMem[m];
        case RM(ST, _, _, _) => dMem[m] := reg[r];
        case RM(LDA, _, _, _) => reg[r] := m;
        case RM(LDC, _, d, _) => reg[r] := d;
        case RM(JLT, _, _, _) => if reg[r] < 0 { reg[PC_REG] := m; }
        case RM(JLE, _, _, _) => if reg[r] <= 0 { reg[PC_REG] := m; }
        case RM(JGT, _, _, _) => if reg[r] > 0 { reg[PC_REG] := m; }
        case RM(JGE, _, _, _) => if reg[r] >= 0 { reg[PC_REG] := m; }
        case RM(JEQ, _, _, _) => if reg[r] == 0 { reg[PC_REG] := m; }
        case RM(JNE, _, _, _) => if reg[r] != 0 { reg[PC_REG] := m; }
      }
      return Okay;
    }

    /** The `step n` command. */
    method Steps(stepcnt: nat) returns (res: StepResult)
      requires Valid()
      modifies dMem, reg, this`input, this`output
      ensures Valid()
      ensures (Abs(), res) == Run(old(Abs()), stepcnt)
    {
      res := Okay;
      var left: int := stepcnt;
      ghost var start := Abs();
      while left > 0 && res == Okay
        invariant Valid() && 0 <= left <= stepcnt
        invariant (Abs(), res) == Run(start, stepcnt - left)
      {
        RunOneMore(start, stepcnt - left);
        res := StepTM();
        left := left - 1;
      }
      if res != Okay { RunStopped(start, stepcnt - left, stepcnt); }
    }
  }
}
