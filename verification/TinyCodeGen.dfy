/** The code generator of the TINY compiler and its emitter, with the C program's
    static variables as fields. */
module TinyCodeGen {
  import opened TinySyntax
  import opened TmMachine
  import opened TinyLayout

  /** code.c: the location being emitted, the highest one so far, and the code file
      (trace comments are not part of it). */
  class Emitter {
    var emitLoc: int
    var highEmitLoc: int
    var file: seq<Line>

    constructor ()
      ensures emitLoc == 0 && highEmitLoc == 0 && file == []
    {
      emitLoc, highEmitLoc, file := 0, 0, [];
    }

    /** Nothing is skipped and waiting to be patched. */
    ghost predicate Level()
      reads this
    {
      emitLoc == highEmitLoc
    }

    method EmitRO(op: ROp, r: Reg, s: Reg, t: Reg)
      modifies this
      ensures emitLoc == old(emitLoc) + 1
      ensures highEmitLoc == if old(highEmitLoc) < emitLoc then emitLoc else old(highEmitLoc)
      ensures file == old(file) + [Line(old(emitLoc), RO(op, r, s, t))]
    {
      file := file + [Line(emitLoc, RO(op, r, s, t))];
      emitLoc := emitLoc + 1;
      if highEmitLoc < emitLoc { highEmitLoc := emitLoc; }
    }

    method EmitRM(op: MOp, r: Reg, d: int, s: Reg)
      modifies this
      ensures emitLoc == old(emitLoc) + 1
      ensures highEmitLoc == if old(highEmitLoc) < emitLoc then emitLoc else old(highEmitLoc)
      ensures file == old(file) + [Line(old(emitLoc), RM(op, r, d, s))]
    {
      file := file + [Line(emitLoc, RM(op, r, d, s))];
      emitLoc := emitLoc + 1;
      if highEmitLoc < emitLoc { highEmitLoc := emitLoc; }
    }

    method EmitSkip(howMany: nat) returns (i: int)
      modifies this
      ensures i == old(emitLoc) && emitLoc == i + howMany && file == old(file)
      ensures highEmitLoc == if old(highEmitLoc) < emitLoc then emitLoc else old(highEmitLoc)
    {
      i := emitLoc;
      emitLoc := emitLoc + howMany;
      if highEmitLoc < emitLoc { highEmitLoc := emitLoc; }
    }

    method EmitBackup(loc: int)
      modifies this
      ensures emitLoc == loc && highEmitLoc == old(highEmitLoc) && file == old(file)
    {
      emitLoc := loc;
    }

    method EmitRestore()
      modifies this
      ensures emitLoc == highEmitLoc == old(highEmitLoc) && file == old(file)
    {
      emitLoc := highEmitLoc;
    }

    /** A reference to the absolute location a, as a displacement from the next pc. */
    method EmitRMAbs(op: MOp, r: Reg, a: int)
      modifies this
      ensures emitLoc == old(emitLoc) + 1
      ensures highEmitLoc == if old(highEmitLoc) < emitLoc then emitLoc else old(highEmitLoc)
      ensures file == old(file) + [Line(old(emitLoc), RM(op, r, a - (old(emitLoc) + 1), PC))]
    {
      file := file + [Line(emitLoc, RM(op, r, a - (emitLoc + 1), PC))];
      emitLoc := emitLoc + 1;
      if highEmitLoc < emitLoc { highEmitLoc := emitLoc; }
    }
  }

  lemma Assoc(a: seq<Line>, b: seq<Line>, c: seq<Line>)
    ensures a + b + c == a + (b + c)
  {
  }

  /** cgen.c. */
  class Generator {
    const emitter: Emitter
    const names: Names        // the symbol table, complete before generation starts
    var tmpOffset: int

    constructor (names: Names)
      ensures fresh(emitter) && emitter.emitLoc == emitter.highEmitLoc == 0 && emitter.file == []
      ensures this.names == names && tmpOffset == 0
    {
      emitter := new Emitter();
      this.names, tmpOffset := names, 0;
    }

    /** `lines` were appended to the code file, the location moved on by n, and
        nothing is left to patch. */
    twostate predicate Emitted(n: nat, lines: seq<Line>)
      reads this, emitter
    {
      && emitter.Level()
      && emitter.emitLoc == old(emitter.emitLoc) + n
      && emitter.file == old(emitter.file) + lines
      && tmpOffset == old(tmpOffset)
    }

    /** The switch on the operator inside genExp. */
    method GenOp(op: BinOp)
      requires emitter.Level()
      modifies emitter
      ensures Emitted(|OpCode(op)|, Numbered(old(emitter.emitLoc), OpCode(op)))
    {
      match op
      case Plus => emitter.EmitRO(ADD, AC, AC1, AC);
      case Minus => emitter.EmitRO(SUB, AC, AC1, AC);
      case Times => emitter.EmitRO(MUL, AC, AC1, AC);
      case Over => emitter.EmitRO(DIV, AC, AC1, AC);
      case Lt =>
        emitter.EmitRO(SUB, AC, AC1, AC);
        emitter.EmitRM(JLT, AC, 2, PC);
        emitter.EmitRM(LDC, AC, 0, AC);
        emitter.EmitRM(LDA, PC, 1, PC);
        emitter.EmitRM(LDC, AC, 1, AC);
        CompareNumbered(old(emitter.emitLoc), JLT);
      case Eq =>
        emitter.EmitRO(SUB, AC, AC1, AC);
        emitter.EmitRM(JEQ, AC, 2, PC);
        emitter.EmitRM(LDC, AC, 0, AC);
        emitter.EmitRM(LDA, PC, 1, PC);
        emitter.EmitRM(LDC, AC, 1, AC);
        CompareNumbered(old(emitter.emitLoc), JEQ);
    }

    method GenExp(e: Expr)
      requires DeclaredExpr(e, names) && emitter.Level()
      modifies this, emitter
      ensures Emitted(|ExprCode(e, names, tmpOffset)|,
                      Numbered(old(emitter.emitLoc), ExprCode(e, names, tmpOffset)))
    {
      match e
      case Const(val) => emitter.EmitRM(LDC, AC, val, 0);
      case Id(name) => emitter.EmitRM(LD, AC, names[name], GP);
      case Op(op, left, right) =>
        ghost var t, l0, f0 := tmpOffset, emitter.emitLoc, emitter.file;
        ghost var a, b := ExprCode(left, names, t), ExprCode(right, names, t - 1);
        ghost var push, pop := RM(ST, AC, t, MP), RM(LD, AC1, t, MP);
        GenExp(left);
        emitter.EmitRM(ST, AC, tmpOffset, MP);
        ghost var part := Numbered(l0, a) + [Line(l0 + |a|, push)];
        Assoc(f0, Numbered(l0, a), [Line(l0 + |a|, push)]);
        assert emitter.file == f0 + part && emitter.emitLoc == l0 + |a| + 1;
        tmpOffset := tmpOffset - 1;
        GenExp(right);
        Assoc(f0, part, Numbered(l0 + |a| + 1, b));
        part := part + Numbered(l0 + |a| + 1, b);
        assert emitter.file == f0 + part && emitter.emitLoc == l0 + |a| + |b| + 1;
        tmpOffset := tmpOffset + 1;
        emitter.EmitRM(LD, AC1, tmpOffset, MP);
        Assoc(f0, part, [Line(l0 + |a| + 1 + |b|, pop)]);
        part := part + [Line(l0 + |a| + 1 + |b|, pop)];
        GenOp(op);
        Assoc(f0, part, Numbered(l0 + |a| + |b| + 2, OpCode(op)));
        OpNumbered(l0, a, push, b, pop, OpCode(op));
    }

    /** Fill the skipped location with a jump to the current one. */
    method PatchHere(op: MOp, r: Reg, savedLoc: int)
      requires emitter.Level() && savedLoc < emitter.emitLoc
      modifies emitter
      ensures Emitted(0, [Line(savedLoc, RM(op, r, old(emitter.emitLoc) - (savedLoc + 1), PC))])
    {
      var currentLoc := emitter.EmitSkip(0);
      emitter.EmitBackup(savedLoc);
      emitter.EmitRMAbs(op, r, currentLoc);
      emitter.EmitRestore();
    }

    /** The IfK case of genStmt. */
    method GenIf(test: Expr, p2: Stmts, p3: Stmts)
      requires DeclaredStmt(If(test, p2, p3), names) && emitter.Level() && tmpOffset == 0
      modifies this, emitter
      ensures Emitted(|StmtCode(If(test, p2, p3), names)|,
                      StmtLines(If(test, p2, p3), names, old(emitter.emitLoc)))
      decreases If(test, p2, p3), 0
    {
      ghost var l0, f0 := emitter.emitLoc, emitter.file;
      GenExp(test);
      ghost var part1 := Numbered(l0, ExprCode(test, names, 0));
      var savedLoc1 := emitter.EmitSkip(1);
      CGen(p2);
      ghost var part2 := StmtsLines(p2, names, savedLoc1 + 1);
      Assoc(f0, part1, part2);
      var savedLoc2 := emitter.EmitSkip(1);
      PatchHere(JEQ, AC, savedLoc1);
      ghost var part3 := [Line(savedLoc1, RM(JEQ, AC, |StmtsCode(p2, names)| + 1, PC))];
      Assoc(f0, part1 + part2, part3);
      CGen(p3);
      ghost var part4 := StmtsLines(p3, names, savedLoc2 + 1);
      Assoc(f0, part1 + part2 + part3, part4);
      PatchHere(LDA, PC, savedLoc2);
      ghost var part5 := [Line(savedLoc2, RM(LDA, PC, |StmtsCode(p3, names)|, PC))];
      Assoc(f0, part1 + part2 + part3 + part4, part5);
    }

    /** The RepeatK case of genStmt. */
    method GenRepeat(body: Stmts, until: Expr)
      requires DeclaredStmt(Repeat(body, until), names) && emitter.Level() && tmpOffset == 0
      modifies this, emitter
      ensures Emitted(|StmtCode(Repeat(body, until), names)|,
                      StmtLines(Repeat(body, until), names, old(emitter.emitLoc)))
      decreases Repeat(body, until), 0
    {
      ghost var l0, f0 := emitter.emitLoc, emitter.file;
      var savedLoc1 := emitter.EmitSkip(0);
      CGen(body);
      ghost var part1, l1 := StmtsLines(body, names, l0), emitter.emitLoc;
      GenExp(until);
      ghost var part2 := Numbered(l1, ExprCode(until, names, 0));
      Assoc(f0, part1, part2);
      emitter.EmitRMAbs(JEQ, AC, savedLoc1);
      Assoc(f0, part1 + part2, [Line(emitter.emitLoc - 1, RM(JEQ, AC, savedLoc1 - emitter.emitLoc, PC))]);
    }

    /** An expression, then one instruction that uses its value. */
    method GenUse(e: Expr, use: Instr)
      requires DeclaredExpr(e, names) && emitter.Level() && tmpOffset == 0
      modifies this, emitter
      ensures Emitted(|ExprCode(e, names, 0)| + 1, Numbered(old(emitter.emitLoc), ExprCode(e, names, 0) + [use]))
    {
      ghost var l0, f0, code := emitter.emitLoc, emitter.file, ExprCode(e, names, 0);
      GenExp(e);
      ghost var last := [Line(emitter.emitLoc, use)];
      match use {
        case RM(op, r, d, s) => emitter.EmitRM(op, r, d, s);
        case RO(op, r, s, t) => emitter.EmitRO(op, r, s, t);
      }
      assert emitter.file == f0 + Numbered(l0, code) + last;
      Assoc(f0, Numbered(l0, code), last);
      NumberedConcat(l0, code, [use]);
      assert Numbered(l0 + |code|, [use]) == last;
    }

    method GenStmt(s: Stmt)
      requires DeclaredStmt(s, names) && emitter.Level() && tmpOffset == 0
      modifies this, emitter
      ensures Emitted(|StmtCode(s, names)|, StmtLines(s, names, old(emitter.emitLoc)))
      decreases s, 1
    {
      match s
      case If(test, p2, p3) => GenIf(test, p2, p3);
      case Repeat(body, until) => GenRepeat(body, until);
      case Assign(name, rhs) => GenUse(rhs, RM(ST, AC, names[name], GP));
      case Read(name) =>
        emitter.EmitRO(IN, AC, 0, 0);
        emitter.EmitRM(ST, AC, names[name], GP);
        Assoc(old(emitter.file), [Line(old(emitter.emitLoc), RO(IN, AC, 0, 0))],
              [Line(old(emitter.emitLoc) + 1, RM(ST, AC, names[name], GP))]);
        NumberedConcat(old(emitter.emitLoc), [RO(IN, AC, 0, 0)], [RM(ST, AC, names[name], GP)]);
      case Write(value) => GenUse(value, RO(OUT, AC, 0, 0));
    }

    method CGen(ss: Stmts)
      requires Declared(ss, names) && emitter.Level() && tmpOffset == 0
      modifies this, emitter
      ensures Emitted(|StmtsCode(ss, names)|, StmtsLines(ss, names, old(emitter.emitLoc)))
      decreases ss, 2
    {
      match ss
      case Nil =>
      case Cons(head, sibling) =>
        GenStmt(head);
        CGen(sibling);
    }

    /** The whole program, from a fresh emitter: prelude, statements, HALT. */
    method CodeGen(syntaxTree: Stmts)
      requires Declared(syntaxTree, names) && tmpOffset == 0
      requires emitter.emitLoc == emitter.highEmitLoc == 0 && emitter.file == []
      modifies this, emitter
      ensures emitter.file == ProgramLines(syntaxTree, names)
      ensures emitter.emitLoc == emitter.highEmitLoc == |ProgramCode(syntaxTree, names)|
    {
      emitter.EmitRM(LD, MP, 0, AC);
      emitter.EmitRM(ST, AC, 0, AC);
      NumberedConcat(0, [RM(LD, MP, 0, AC)], [RM(ST, AC, 0, AC)]);
      CGen(syntaxTree);
      emitter.EmitRO(HALT, 0, 0, 0);
    }
  }
}
