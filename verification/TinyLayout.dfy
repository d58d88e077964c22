/** Where the code of each tree goes: a structural description of the code generator's
    result, with every jump relative to the instruction after it. */
module TinyLayout {
  import opened TinySyntax
  import opened TmMachine

  const AC: Reg := 0
  const AC1: Reg := 1
  const GP: Reg := 5
  const MP: Reg := 6
  const PC: Reg := 7

  /** Memory locations of the variables. */
  type Names = map<string, nat>

  predicate DeclaredExpr(e: Expr, names: Names) {
    match e
    case Const(_) => true
    case Id(name) => name in names
    case Op(_, left, right) => DeclaredExpr(left, names) && DeclaredExpr(right, names)
  }

  predicate DeclaredStmt(s: Stmt, names: Names) {
    match s
    case If(test, a, b) => DeclaredExpr(test, names) && Declared(a, names) && Declared(b, names)
    case Repeat(body, until) => Declared(body, names) && DeclaredExpr(until, names)
    case Assign(name, rhs) => name in names && DeclaredExpr(rhs, names)
    case Read(name) => name in names
    case Write(value) => DeclaredExpr(value, names)
  }

  predicate Declared(ss: Stmts, names: Names) {
    match ss
    case Nil => true
    case Cons(head, sibling) => DeclaredStmt(head, names) && Declared(sibling, names)
  }

  function OpCode(op: BinOp): seq<Instr> {
    match op
    case Plus => [RO(ADD, AC, 1, AC)]
    case Minus => [RO(SUB, AC, 1, AC)]
    case Times => [RO(MUL, AC, 1, AC)]
    case Over => [RO(DIV, AC, 1, AC)]
    case Lt => [RO(SUB, AC, 1, AC)] + Branch(JLT)
    case Eq => [RO(SUB, AC, 1, AC)] + Branch(JEQ)
  }

  function Branch(jump: MOp): seq<Instr>
  {
    [RM(jump, AC, 2, PC), RM(LDC, AC, 0, AC), RM(LDA, PC, 1, PC), RM(LDC, AC, 1, AC)]
  }

  /** Code for e when the next free temporary is at offset `tmp` from mp. */
  function ExprCode(e: Expr, names: Names, tmp: int): seq<Instr>
    requires DeclaredExpr(e, names)
  {
    match e
    case Const(val) => [RM(LDC, AC, val, 0)]
    case Id(name) => [RM(LD, AC, names[name], GP)]
    case Op(op, left, right) =>
      ExprCode(left, names, tmp) + [RM(ST, AC, tmp, MP)]
      + ExprCode(right, names, tmp - 1) + [RM(LD, AC1, tmp, MP)] + OpCode(op)
  }

  function IfCode(test: seq<Instr>, p2: seq<Instr>, p3: seq<Instr>): seq<Instr> {
    test + [RM(JEQ, AC, |p2| + 1, PC)] + p2 + [RM(LDA, PC, |p3|, PC)] + p3
  }

  function RepeatCode(body: seq<Instr>, until: seq<Instr>): seq<Instr> {
    body + until + [RM(JEQ, AC, -(|body| + |until| + 1), PC)]
  }

  function StmtCode(s: Stmt, names: Names): seq<Instr>
    requires DeclaredStmt(s, names)
  {
    match s
    case If(test, p2, p3) => IfCode(ExprCode(test, names, 0), StmtsCode(p2, names), StmtsCode(p3, names))
    case Repeat(body, until) => RepeatCode(StmtsCode(body, names), ExprCode(until, names, 0))
    case Assign(name, rhs) => ExprCode(rhs, names, 0) + [RM(ST, AC, names[name], GP)]
    case Read(name) => [RO(IN, AC, 0, 0), RM(ST, AC, names[name], GP)]
    case Write(value) => ExprCode(value, names, 0) + [RO(OUT, AC, 0, 0)]
  }

  function StmtsCode(ss: Stmts, names: Names): seq<Instr>
    requires Declared(ss, names)
  {
    match ss
    case Nil => []
    case Cons(head, sibling) => StmtCode(head, names) + StmtsCode(sibling, names)
  }

  const Prelude: seq<Instr> := [RM(LD, MP, 0, AC), RM(ST, AC, 0, AC)]

  function ProgramCode(ss: Stmts, names: Names): seq<Instr>
    requires Declared(ss, names)
  {
    Prelude + StmtsCode(ss, names) + [HALT0]
  }

  /** Lines placing `code` at consecutive locations from `loc` on. */
  function Numbered(loc: int, code: seq<Instr>): seq<Line>
    decreases |code|
  {
    if code == [] then [] else [Line(loc, code[0])] + Numbered(loc + 1, code[1..])
  }

  lemma {:induction false} NumberedConcat(loc: int, a: seq<Instr>, b: seq<Instr>)
    ensures Numbered(loc, a + b) == Numbered(loc, a) + Numbered(loc + |a|, b)
    decreases |a|
  {
    if a == [] {
      assert a + b == b;
    } else {
      assert (a + b)[1..] == a[1..] + b;
      NumberedConcat(loc + 1, a[1..], b);
    }
  }

  lemma OpNumbered(loc: int, a: seq<Instr>, i: Instr, b: seq<Instr>, j: Instr, c: seq<Instr>)
    ensures Numbered(loc, a + [i] + b + [j] + c)
         == Numbered(loc, a) + [Line(loc + |a|, i)] + Numbered(loc + |a| + 1, b)
            + [Line(loc + |a| + 1 + |b|, j)] + Numbered(loc + |a| + |b| + 2, c)
  {
    NumberedConcat(loc, a + [i] + b + [j], c);
    NumberedConcat(loc, a + [i] + b, [j]);
    NumberedConcat(loc, a + [i], b);
    NumberedConcat(loc, a, [i]);
  }

  lemma CompareNumbered(loc: int, jump: MOp)
    ensures Numbered(loc, [RO(SUB, AC, 1, AC)] + Branch(jump)) ==
      [Line(loc, RO(SUB, AC, 1, AC)), Line(loc + 1, RM(jump, AC, 2, PC)), Line(loc + 2, RM(LDC, AC, 0, AC)),
       Line(loc + 3, RM(LDA, PC, 1, PC)), Line(loc + 4, RM(LDC, AC, 1, AC))]
  {
    var b, c := RM(jump, AC, 2, PC), RM(LDC, AC, 0, AC);
    var d, e := RM(LDA, PC, 1, PC), RM(LDC, AC, 1, AC);
    OpNumbered(loc + 1, [b], c, [], d, [e]);
    assert Branch(jump) == [b] + [c] + [] + [d] + [e];
    NumberedConcat(loc, [RO(SUB, AC, 1, AC)], Branch(jump));
  }

  /** The file of an `if`: each of its two jumps follows the part it jumps over. */
  function IfFile(loc: int, a: seq<Instr>, b: seq<Instr>, c: seq<Instr>,
                  lb: seq<Line>, lc: seq<Line>): seq<Line> {
    Numbered(loc, a) + lb + [Line(loc + |a|, RM(JEQ, AC, |b| + 1, PC))]
    + lc + [Line(loc + |a| + 1 + |b|, RM(LDA, PC, |c|, PC))]
  }

  function RepeatFile(loc: int, a: seq<Instr>, b: seq<Instr>, la: seq<Line>): seq<Line> {
    la + Numbered(loc + |a|, b) + [Line(loc + |a| + |b|, RM(JEQ, AC, -(|a| + |b| + 1), PC))]
  }

  /** The lines of a statement in the order in which they are written: a skipped
      location is written after the part it jumps over. */
  function StmtLines(s: Stmt, names: Names, loc: int): seq<Line>
    requires DeclaredStmt(s, names)
  {
    match s
    case If(test, p2, p3) =>
      var a, b, c := ExprCode(test, names, 0), StmtsCode(p2, names), StmtsCode(p3, names);
      var l2, l3 := loc + |a| + 1, loc + |a| + |b| + 2;
      IfFile(loc, a, b, c, StmtsLines(p2, names, l2), StmtsLines(p3, names, l3))
    case Repeat(body, until) =>
      RepeatFile(loc, StmtsCode(body, names), ExprCode(until, names, 0), StmtsLines(body, names, loc))
    case _ => Numbered(loc, StmtCode(s, names))
  }

  function StmtsLines(ss: Stmts, names: Names, loc: int): seq<Line>
    requires Declared(ss, names)
  {
    match ss
    case Nil => []
    case Cons(head, sibling) =>
      StmtLines(head, names, loc) + StmtsLines(sibling, names, loc + |StmtCode(head, names)|)
  }

  function ProgramLines(ss: Stmts, names: Names): seq<Line>
    requires Declared(ss, names)
  {
    Numbered(0, Prelude) + StmtsLines(ss, names, 2) + [Line(2 + |StmtsCode(ss, names)|, HALT0)]
  }

  /** How often the file has line l. */
  function Count(file: seq<Line>, l: Line): nat {
    if file == [] then 0 else (if file[0] == l then 1 else 0) + Count(file[1..], l)
  }

  lemma {:induction false} CountConcat(a: seq<Line>, b: seq<Line>, l: Line)
    ensures Count(a + b, l) == Count(a, l) + Count(b, l)
  {
    if a == [] {
      assert a + b == b;
    } else {
      assert (a + b)[1..] == a[1..] + b;
      CountConcat(a[1..], b, l);
    }
  }

  lemma {:induction false} CountMember(a: seq<Line>, l: Line)
    ensures l in a <==> Count(a, l) > 0
  {
    if a != [] { CountMember(a[1..], l); }
  }

  /** Each line of the layout is there once, and no other. */
  lemma {:induction false} CountNumbered(loc: int, code: seq<Instr>, l: Line)
    ensures Count(Numbered(loc, code), l) ==
      if loc <= l.loc < loc + |code| && l.instr == code[l.loc - loc] then 1 else 0
    decreases |code|
  {
    if code != [] { CountNumbered(loc + 1, code[1..], l); }
  }

  /** Backpatching fills every hole: although the lines of a statement are written out of
      order, each line of its layout is written exactly once, and no other line is. */
  lemma {:induction false} StmtLinesPlaced(s: Stmt, names: Names, loc: int, l: Line)
    requires DeclaredStmt(s, names)
    ensures Count(StmtLines(s, names, loc), l) == Count(Numbered(loc, StmtCode(s, names)), l)
    decreases s, 1
  {
    match s
    case If(test, p2, p3) => IfPlaced(test, p2, p3, names, loc, l);
    case Repeat(body, until) => RepeatPlaced(body, until, names, loc, l);
    case _ =>
  }

  lemma {:induction false} IfPlaced(test: Expr, p2: Stmts, p3: Stmts, names: Names, loc: int, l: Line)
    requires DeclaredExpr(test, names) && Declared(p2, names) && Declared(p3, names)
    ensures Count(StmtLines(If(test, p2, p3), names, loc), l)
         == Count(Numbered(loc, StmtCode(If(test, p2, p3), names)), l)
    decreases If(test, p2, p3), 0
  {
    var l2 := loc + |ExprCode(test, names, 0)| + 1;
    StmtsLinesPlaced(p2, names, l2, l);
    StmtsLinesPlaced(p3, names, l2 + |StmtsCode(p2, names)| + 1, l);
    IfPartsPlaced(test, p2, p3, names, loc, l, l2);
  }

  lemma IfPartsPlaced(test: Expr, p2: Stmts, p3: Stmts, names: Names, loc: int, l: Line, l2: int)
    requires DeclaredExpr(test, names) && Declared(p2, names) && Declared(p3, names) && l2 == loc + |ExprCode(test, names, 0)| + 1
    requires Count(StmtsLines(p2, names, l2), l) == Count(Numbered(l2, StmtsCode(p2, names)), l)
    requires var l3 := l2 + |StmtsCode(p2, names)| + 1;
      Count(StmtsLines(p3, names, l3), l) == Count(Numbered(l3, StmtsCode(p3, names)), l)
    ensures Count(StmtLines(If(test, p2, p3), names, loc), l)
         == Count(Numbered(loc, StmtCode(If(test, p2, p3), names)), l)
  {
    var a, b, c := ExprCode(test, names, 0), StmtsCode(p2, names), StmtsCode(p3, names);
    var l3 := l2 + |b| + 1;
    IfLines(loc, a, b, c, StmtsLines(p2, names, l2), StmtsLines(p3, names, l3), l, l2, l3);
  }

  lemma {:induction false} RepeatPlaced(body: Stmts, until: Expr, names: Names, loc: int, l: Line)
    requires DeclaredStmt(Repeat(body, until), names)
    ensures Count(StmtLines(Repeat(body, until), names, loc), l)
         == Count(Numbered(loc, StmtCode(Repeat(body, until), names)), l)
    decreases Repeat(body, until), 0
  {
    StmtsLinesPlaced(body, names, loc, l);
    RepeatLines(loc, StmtsCode(body, names), ExprCode(until, names, 0), StmtsLines(body, names, loc), l);
  }

  lemma {:induction false} StmtsLinesPlaced(ss: Stmts, names: Names, loc: int, l: Line)
    requires Declared(ss, names)
    ensures Count(StmtsLines(ss, names, loc), l) == Count(Numbered(loc, StmtsCode(ss, names)), l)
    decreases ss, 2
  {
    if ss.Cons? {
      var a, b := StmtCode(ss.head, names), StmtsCode(ss.sibling, names);
      StmtLinesPlaced(ss.head, names, loc, l);
      StmtsLinesPlaced(ss.sibling, names, loc + |a|, l);
      NumberedConcat(loc, a, b);
      CountConcat(StmtLines(ss.head, names, loc), StmtsLines(ss.sibling, names, loc + |a|), l);
      CountConcat(Numbered(loc, a), Numbered(loc + |a|, b), l);
    }
  }

  lemma CountFive(a: seq<Line>, b: seq<Line>, c: seq<Line>, d: seq<Line>, e: seq<Line>, l: Line)
    ensures Count(a + b + c + d + e, l) == Count(a, l) + Count(b, l) + Count(c, l) + Count(d, l) + Count(e, l)
  {
    CountConcat(a + b + c + d, e, l);
    CountConcat(a + b + c, d, l);
    CountConcat(a + b, c, l);
    CountConcat(a, b, l);
  }

  lemma IfLines(loc: int, a: seq<Instr>, b: seq<Instr>, c: seq<Instr>, lb: seq<Line>, lc: seq<Line>, l: Line, l2: int, l3: int)
    requires l2 == loc + |a| + 1 && l3 == loc + |a| + |b| + 2
    requires Count(lb, l) == Count(Numbered(l2, b), l) && Count(lc, l) == Count(Numbered(l3, c), l)
    ensures Count(IfFile(loc, a, b, c, lb, lc), l) == Count(Numbered(loc, IfCode(a, b, c)), l)
  {
    var j1, j2 := RM(JEQ, AC, |b| + 1, PC), RM(LDA, PC, |c|, PC);
    var n, i, j := Numbered(loc, a), [Line(loc + |a|, j1)], [Line(loc + |a| + 1 + |b|, j2)];
    OpNumbered(loc, a, j1, b, j2, c);
    CountFive(n, lb, i, lc, j, l);
    CountFive(n, i, Numbered(l2, b), j, Numbered(l3, c), l);
  }

  lemma RepeatLines(loc: int, a: seq<Instr>, b: seq<Instr>, la: seq<Line>, l: Line)
    requires Count(la, l) == Count(Numbered(loc, a), l)
    ensures Count(RepeatFile(loc, a, b, la), l) == Count(Numbered(loc, RepeatCode(a, b)), l)
  {
    var j := RM(JEQ, AC, -(|a| + |b| + 1), PC);
    var n, i := Numbered(loc + |a|, b), [Line(loc + |a| + |b|, j)];
    NumberedConcat(loc, a, b);
    NumberedConcat(loc, a + b, [j]);
    assert Numbered(loc + |a + b|, [j]) == i;
    CountConcat(la + n, i, l);
    CountConcat(la, n, l);
    CountConcat(Numbered(loc, a) + n, i, l);
    CountConcat(Numbered(loc, a), n, l);
  }

  lemma ProgramLinesPlaced(ss: Stmts, names: Names, l: Line)
    requires Declared(ss, names)
    ensures Count(ProgramLines(ss, names), l) == Count(Numbered(0, ProgramCode(ss, names)), l)
  {
    StmtsLinesPlaced(ss, names, 2, l);
    var p, c, h := Numbered(0, Prelude), StmtsCode(ss, names), [Line(2 + |StmtsCode(ss, names)|, HALT0)];
    NumberedConcat(0, Prelude, c);
    NumberedConcat(0, Prelude + c, [HALT0]);
    assert Numbered(|Prelude + c|, [HALT0]) == h;
    CountConcat(p + StmtsLines(ss, names, 2), h, l);
    CountConcat(p, StmtsLines(ss, names, 2), l);
    CountConcat(p + Numbered(2, c), h, l);
    CountConcat(p, Numbered(2, c), l);
  }

  /** Loading a file that holds each line of `code` once, in any order, puts the code at
      the start of instruction memory and HALT everywhere else. */
  lemma LoadedInPlace(file: seq<Line>, code: seq<Instr>)
    requires |code| <= IADDR_SIZE && forall l :: Count(file, l) == Count(Numbered(0, code), l)
    ensures forall l :: l in file ==> GoodLine(l)
    ensures Loaded(file)[..|code|] == code
    ensures forall k :: |code| <= k < IADDR_SIZE ==> Loaded(file)[k] == HALT0
  {
    forall l ensures l in file <==> 0 <= l.loc < |code| && l.instr == code[l.loc] {
      CountMember(file, l);
      CountNumbered(0, code, l);
    }
    forall k | 0 <= k < IADDR_SIZE ensures Loaded(file)[k] == if k < |code| then code[k] else HALT0 {
      LoadedAt(file, code, k);
      if k < |code| { assert Line(k, code[k]) in file; }
    }
  }

  lemma {:induction false} LoadedAt(file: seq<Line>, code: seq<Instr>, k: nat)
    requires k < IADDR_SIZE && |code| <= IADDR_SIZE
    requires forall l :: l in file ==> 0 <= l.loc < |code| && l.instr == code[l.loc] && GoodLine(l)
    ensures (exists l :: l in file && l.loc == k) ==> k < |code| && Loaded(file)[k] == code[k]
    ensures !(exists l :: l in file && l.loc == k) ==> Loaded(file)[k] == HALT0
  {
    if |file| > 0 {
      var init, last := file[..|file| - 1], file[|file| - 1];
      assert last in file && GoodLine(last);
      assert forall l :: l in file <==> l in init || l == last by { assert file == init + [last]; }
      LoadedAt(init, code, k);
      assert Loaded(file) == Loaded(init)[last.loc := last.instr];
    }
  }
}
