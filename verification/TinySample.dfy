/** The sample program of the TINY distribution: the code file it must compile to, and what
    that code prints for every input. */
module TinySample {
  import opened TinySyntax
  import opened TmMachine
  import opened TinyLayout
  import opened TinyCorrect
  import opened TinyCompiler

  const Multiply: Stmt := Assign("fact", Op(Times, Id("fact"), Id("x")))
  const Decrease: Stmt := Assign("x", Op(Minus, Id("x"), Const(1)))
  const Body: Stmts := Cons(Multiply, Cons(Decrease, Nil))
  const Until: Expr := Op(Eq, Id("x"), Const(0))
  const Loop: Stmt := Repeat(Body, Until)
  const Then: Stmts := Cons(Assign("fact", Const(1)), Cons(Loop, Cons(Write(Id("fact")), Nil)))
  const Test: Expr := Op(Lt, Const(0), Id("x"))

  /** SAMPLE.TNY. */
  const Sample: Stmts := Cons(Read("x"), Cons(If(Test, Then, Nil), Nil))

  const Vars: Names := map["x" := 0, "fact" := 1]

  // ----- The code file -----

  /** A statement without `if` has its lines in the order of their locations. */
  predicate Straight(s: Stmt) {
    match s
    case If(_, _, _) => false
    case Repeat(body, _) => AllStraight(body)
    case _ => true
  }

  predicate AllStraight(ss: Stmts) {
    ss.Cons? ==> Straight(ss.head) && AllStraight(ss.sibling)
  }

  lemma {:induction false} StraightLines(s: Stmt, names: Names, loc: int)
    requires DeclaredStmt(s, names) && Straight(s)
    ensures StmtLines(s, names, loc) == Numbered(loc, StmtCode(s, names))
  {
    if s.Repeat? {
      var a, b := StmtsCode(s.body, names), ExprCode(s.until, names, 0);
      AllStraightLines(s.body, names, loc);
      NumberedConcat(loc, a, b);
      NumberedConcat(loc, a + b, [RM(JEQ, AC, -(|a| + |b| + 1), PC)]);
    }
  }

  lemma {:induction false} AllStraightLines(ss: Stmts, names: Names, loc: int)
    requires Declared(ss, names) && AllStraight(ss)
    ensures StmtsLines(ss, names, loc) == Numbered(loc, StmtsCode(ss, names))
  {
    if ss.Cons? {
      StraightLines(ss.head, names, loc);
      AllStraightLines(ss.sibling, names, loc + |StmtCode(ss.head, names)|);
      NumberedConcat(loc, StmtCode(ss.head, names), StmtsCode(ss.sibling, names));
    }
  }

  /** An `if` without else: the jump over the `then` part is written behind that part. */
  lemma IfLines(test: Expr, part: Stmts, names: Names, loc: int, l: int, e: seq<Instr>, b: seq<Instr>)
    requires DeclaredStmt(If(test, part, Nil), names) && AllStraight(part)
    requires e == ExprCode(test, names, 0) && b == StmtsCode(part, names) && l == loc + |e|
    ensures StmtLines(If(test, part, Nil), names, loc) == Numbered(loc, e) + Numbered(l + 1, b) + SkipLines(l, |b|)
    ensures |StmtCode(If(test, part, Nil), names)| == |e| + |b| + 2
  {
    AllStraightLines(part, names, l + 1);
    NoElse(loc, e, b, Numbered(l + 1, b), l);
    IfUnfolded(test, part, names, loc, l + 1, l + |b| + 2);
  }

  lemma IfUnfolded(test: Expr, part: Stmts, names: Names, loc: int, l2: int, l3: int)
    requires DeclaredStmt(If(test, part, Nil), names)
    requires l2 == loc + |ExprCode(test, names, 0)| + 1 && l3 == l2 + |StmtsCode(part, names)| + 1
    ensures StmtLines(If(test, part, Nil), names, loc) ==
      IfFile(loc, ExprCode(test, names, 0), StmtsCode(part, names), [], StmtsLines(part, names, l2), [])
    ensures |StmtCode(If(test, part, Nil), names)| == |ExprCode(test, names, 0)| + |StmtsCode(part, names)| + 2
  {
    NilLines(names, l3);
  }

  lemma NilLines(names: Names, loc: int)
    ensures StmtsLines(Nil, names, loc) == [] && StmtsCode(Nil, names) == []
  {
  }

  lemma NoElse(loc: int, e: seq<Instr>, b: seq<Instr>, lines: seq<Line>, l: int)
    requires l == loc + |e|
    ensures IfFile(loc, e, b, [], lines, []) == Numbered(loc, e) + lines + SkipLines(l, |b|)
  {
  }

  /** The jump at l over n instructions and a jump to the next location. */
  function SkipLines(l: int, n: int): seq<Line> {
    [Line(l, RM(JEQ, AC, n + 1, PC)), Line(l + 1 + n, RM(LDA, PC, 0, PC))]
  }

  lemma OneLines(s: Stmt, names: Names, loc: int)
    requires DeclaredStmt(s, names)
    ensures Declared(Cons(s, Nil), names) && StmtsLines(Cons(s, Nil), names, loc) == StmtLines(s, names, loc)
    ensures StmtsCode(Cons(s, Nil), names) == StmtCode(s, names)
  {
  }

  lemma PairLines(s: Stmt, t: Stmt, names: Names, loc: int, next: int)
    requires DeclaredStmt(s, names) && DeclaredStmt(t, names) && next == loc + |StmtCode(s, names)|
    ensures Declared(Cons(s, Cons(t, Nil)), names)
    ensures StmtsLines(Cons(s, Cons(t, Nil)), names, loc) == StmtLines(s, names, loc) + StmtLines(t, names, next)
    ensures |StmtsCode(Cons(s, Cons(t, Nil)), names)| == |StmtCode(s, names)| + |StmtCode(t, names)|
  {
    OneLines(t, names, next);
  }

  /** The file of a program that is one statement and such an `if`. */
  lemma IfAtEnd(s: Stmt, t: Stmt, names: Names, a: seq<Instr>, e: seq<Instr>, b: seq<Instr>, l: int, ss: Stmts)
    requires DeclaredStmt(s, names) && Straight(s) && DeclaredStmt(t, names) && t.If? && t.elsePart == Nil && AllStraight(t.thenPart)
    requires e == ExprCode(t.test, names, 0) && a == Prelude + StmtCode(s, names) && b == StmtsCode(t.thenPart, names) && l == |a| + |e|
    requires ss == Cons(s, Cons(t, Nil)) && Declared(ss, names)
    ensures ProgramLines(ss, names) ==
      Numbered(0, a + e) + Numbered(l + 1, b) + SkipLines(l, |b|) + [Line(l + |b| + 2, HALT0)]
  {
    var c := StmtCode(s, names);
    StraightLines(s, names, 2);
    IfLines(t.test, t.thenPart, names, |a|, l, e, b);
    PairLines(s, t, names, 2, |a|);
    NumberedConcat(0, Prelude, c);
    NumberedConcat(0, a, e);
    FromParts(ss, names, Numbered(2, c), Numbered(|a|, e), Numbered(l + 1, b), SkipLines(l, |b|), Line(l + |b| + 2, HALT0));
  }

  lemma FromParts(ss: Stmts, names: Names, r: seq<Line>, e: seq<Line>, b: seq<Line>, j: seq<Line>, h: Line)
    requires Declared(ss, names) && h == Line(2 + |StmtsCode(ss, names)|, HALT0)
    requires StmtsLines(ss, names, 2) == r + (e + b + j)
    ensures ProgramLines(ss, names) == Numbered(0, Prelude) + r + e + b + j + [h]
  {
    ProgramFile(ss, names, h);
    Regrouped(Numbered(0, Prelude), r, e, b, j, [h]);
  }

  lemma ProgramFile(ss: Stmts, names: Names, h: Line)
    requires Declared(ss, names) && h == Line(2 + |StmtsCode(ss, names)|, HALT0)
    ensures ProgramLines(ss, names) == Numbered(0, Prelude) + StmtsLines(ss, names, 2) + [h]
  {
  }

  lemma Regrouped(p: seq<Line>, r: seq<Line>, e: seq<Line>, b: seq<Line>, j: seq<Line>, h: seq<Line>)
    ensures p + (r + (e + b + j)) + h == p + r + e + b + j + h
  {
  }

  /** Lines 0 to 12 of SAMPLE.TM. */
  const UpToTest: seq<Instr> := [
    RM(LD, 6, 0, 0), RM(ST, 0, 0, 0), RO(IN, 0, 0, 0), RM(ST, 0, 0, 5),
    RM(LDC, 0, 0, 0), RM(ST, 0, 0, 6), RM(LD, 0, 0, 5), RM(LD, 1, 0, 6), RO(SUB, 0, 1, 0),
    RM(JLT, 0, 2, 7), RM(LDC, 0, 0, 0), RM(LDA, 7, 1, 7), RM(LDC, 0, 1, 0)]

  /** Lines 16 to 21, 22 to 27 and 28 to 36. */
  const MultiplyPart: seq<Instr> := [
    RM(LD, 0, 1, 5), RM(ST, 0, 0, 6), RM(LD, 0, 0, 5), RM(LD, 1, 0, 6), RO(MUL, 0, 1, 0), RM(ST, 0, 1, 5)]
  const DecreasePart: seq<Instr> := [
    RM(LD, 0, 0, 5), RM(ST, 0, 0, 6), RM(LDC, 0, 1, 0), RM(LD, 1, 0, 6), RO(SUB, 0, 1, 0), RM(ST, 0, 0, 5)]
  const UntilPart: seq<Instr> := [
    RM(LD, 0, 0, 5), RM(ST, 0, 0, 6), RM(LDC, 0, 0, 0), RM(LD, 1, 0, 6), RO(SUB, 0, 1, 0),
    RM(JEQ, 0, 2, 7), RM(LDC, 0, 0, 0), RM(LDA, 7, 1, 7), RM(LDC, 0, 1, 0)]

  /** Lines 16 to 37. */
  const LoopPart: seq<Instr> := MultiplyPart + DecreasePart + UntilPart + [RM(JEQ, 0, -22, 7)]

  /** Lines 14 to 39. */
  const ThenPart: seq<Instr> :=
    [RM(LDC, 0, 1, 0), RM(ST, 0, 1, 5)] + LoopPart + [RM(LD, 0, 1, 5), RO(OUT, 0, 0, 0)]

  lemma TestCode()
    ensures DeclaredExpr(Test, Vars) && Prelude + StmtCode(Read("x"), Vars) + ExprCode(Test, Vars, 0) == UpToTest
  {
    assert ExprCode(Id("x"), Vars, -1) == [RM(LD, 0, 0, 5)];
    assert OpCode(Lt) == [RO(SUB, 0, 1, 0), RM(JLT, 0, 2, 7), RM(LDC, 0, 0, 0), RM(LDA, 7, 1, 7), RM(LDC, 0, 1, 0)];
  }

  lemma MultiplyCode()
    ensures DeclaredStmt(Multiply, Vars) && StmtCode(Multiply, Vars) == MultiplyPart
  {
    assert ExprCode(Id("fact"), Vars, 0) == [RM(LD, 0, 1, 5)];
    assert ExprCode(Id("x"), Vars, -1) == [RM(LD, 0, 0, 5)];
  }

  lemma DecreaseCode()
    ensures DeclaredStmt(Decrease, Vars) && StmtCode(Decrease, Vars) == DecreasePart
  {
    assert ExprCode(Id("x"), Vars, 0) == [RM(LD, 0, 0, 5)];
    assert ExprCode(Const(1), Vars, -1) == [RM(LDC, 0, 1, 0)];
  }

  lemma UntilCode()
    ensures DeclaredExpr(Until, Vars) && ExprCode(Until, Vars, 0) == UntilPart
  {
    assert ExprCode(Id("x"), Vars, 0) == [RM(LD, 0, 0, 5)];
    assert ExprCode(Const(0), Vars, -1) == [RM(LDC, 0, 0, 0)];
  }

  lemma LoopCode()
    ensures DeclaredStmt(Loop, Vars) && Straight(Loop) && StmtCode(Loop, Vars) == LoopPart
  {
    MultiplyCode();
    DecreaseCode();
    UntilCode();
    assert Straight(Multiply) && AllStraight(Cons(Decrease, Nil));
    LoopOf(Multiply, Decrease, Until, MultiplyPart, DecreasePart, UntilPart);
  }

  lemma LoopOf(s: Stmt, t: Stmt, until: Expr, a: seq<Instr>, b: seq<Instr>, c: seq<Instr>)
    requires DeclaredStmt(s, Vars) && DeclaredStmt(t, Vars) && DeclaredExpr(until, Vars)
    requires a == StmtCode(s, Vars) && b == StmtCode(t, Vars) && c == ExprCode(until, Vars, 0)
    ensures var loop := Repeat(Cons(s, Cons(t, Nil)), until);
      DeclaredStmt(loop, Vars) && StmtCode(loop, Vars) == a + b + c + [RM(JEQ, 0, -(|a| + |b| + |c| + 1), 7)]
  {
    OneLines(t, Vars, 0);
    assert StmtsCode(Cons(s, Cons(t, Nil)), Vars) == a + b;
  }

  lemma EndsCode()
    ensures DeclaredStmt(Assign("fact", Const(1)), Vars) && DeclaredStmt(Write(Id("fact")), Vars)
    ensures StmtCode(Assign("fact", Const(1)), Vars) == [RM(LDC, 0, 1, 0), RM(ST, 0, 1, 5)]
    ensures StmtCode(Write(Id("fact")), Vars) == [RM(LD, 0, 1, 5), RO(OUT, 0, 0, 0)]
  {
  }

  lemma ThenCode()
    ensures Declared(Then, Vars) && AllStraight(Then) && StmtsCode(Then, Vars) == ThenPart
  {
    LoopCode();
    EndsCode();
    var s, w := Assign("fact", Const(1)), Write(Id("fact"));
    Three(s, Loop, w, StmtCode(s, Vars), StmtCode(Loop, Vars), StmtCode(w, Vars));
  }

  lemma Three(s: Stmt, t: Stmt, u: Stmt, a: seq<Instr>, b: seq<Instr>, c: seq<Instr>)
    requires DeclaredStmt(s, Vars) && DeclaredStmt(t, Vars) && DeclaredStmt(u, Vars)
    requires a == StmtCode(s, Vars) && b == StmtCode(t, Vars) && c == StmtCode(u, Vars)
    ensures Declared(Cons(s, Cons(t, Cons(u, Nil))), Vars)
    ensures StmtsCode(Cons(s, Cons(t, Cons(u, Nil))), Vars) == a + b + c
  {
    OneLines(u, Vars, 0);
    assert StmtsCode(Cons(t, Cons(u, Nil)), Vars) == b + c;
    assert a + (b + c) == a + b + c;
  }

  /** The code file of the sample is SAMPLE.TM, with the jump over the `then` part at
      location 13 written behind that part. */
  lemma SampleFile()
    ensures Declared(Sample, Vars)
    ensures ProgramLines(Sample, Vars) ==
      Numbered(0, UpToTest) + Numbered(14, ThenPart)
      + [Line(13, RM(JEQ, 0, 27, 7)), Line(40, RM(LDA, 7, 0, 7)), Line(41, RO(HALT, 0, 0, 0))]
  {
    TestCode();
    ThenCode();
    var a, e := Prelude + StmtCode(Read("x"), Vars), ExprCode(Test, Vars, 0);
    assert |a| == 4;
    PairLines(Read("x"), If(Test, Then, Nil), Vars, 2, 4);
    IfAtEnd(Read("x"), If(Test, Then, Nil), Vars, a, e, ThenPart, 13, Sample);
    assert SkipLines(13, 26) == [Line(13, RM(JEQ, 0, 27, 7)), Line(40, RM(LDA, 7, 0, 7))];
    Last(Numbered(0, UpToTest) + Numbered(14, ThenPart), Line(13, RM(JEQ, 0, 27, 7)), Line(40, RM(LDA, 7, 0, 7)), Line(41, HALT0));
  }

  lemma Last(a: seq<Line>, j: Line, k: Line, h: Line)
    ensures a + [j, k] + [h] == a + [j, k, h]
  {
  }

  // ----- What it prints -----

  function Factorial(n: nat): nat {
    if n == 0 then 1 else n * Factorial(n - 1)
  }

  lemma WrapTimes(a: int, b: int)
    ensures Wrap(Wrap(a) * b) == Wrap(a * b)
  {
    var k := (a + 0x8000_0000) / 0x1_0000_0000;
    assert Wrap(a) == a - 0x1_0000_0000 * k;
    assert Wrap(a) * b == a * b - 0x1_0000_0000 * (k * b);
    WrapShift(a * b, k * b);
  }

  lemma WrapShift(x: int, k: int)
    ensures Wrap(x - 0x1_0000_0000 * k) == Wrap(x)
  {
  }

  /** The store at the start of a round. */
  predicate Holds(st: State, f: int, n: int) {
    Lookup(st.store, "fact") == f && Lookup(st.store, "x") == n
  }

  lemma MultiplyMeans(st: State, f: Int32, n: Int32, fuel: nat)
    requires Holds(st, f, n)
    ensures ExecStmt(Multiply, st, Subtracting, fuel) == Done(st.(store := st.store["fact" := Wrap(f * n)]))
  {
    assert Eval(Id("fact"), st.store, Subtracting) == Val(f) && Eval(Id("x"), st.store, Subtracting) == Val(n);
    assert Eval(Multiply.rhs, st.store, Subtracting) == Val(Wrap(f * n));
  }

  lemma DecreaseMeans(st: State, f: int, n: Int32, fuel: nat)
    requires Holds(st, f, n)
    ensures ExecStmt(Decrease, st, Subtracting, fuel) == Done(st.(store := st.store["x" := Wrap(n - 1)]))
  {
    assert Eval(Id("x"), st.store, Subtracting) == Val(n) && Eval(Const(1), st.store, Subtracting) == Val(1);
    assert Eval(Decrease.rhs, st.store, Subtracting) == Val(Wrap(n - 1));
  }

  lemma TwoNames()
    ensures "fact" != "x"
  {
    assert |"fact"| != |"x"|;
  }

  /** One round of the body. */
  lemma BodyMeans(st: State, f: Int32, n: Int32, fuel: nat)
    requires Holds(st, f, n)
    ensures var o := Exec(Body, st, Subtracting, fuel);
      o.Done? && Holds(o.state, Wrap(f * n), Wrap(n - 1)) && o.state.output == st.output && o.state.input == st.input
  {
    TwoNames();
    MultiplyMeans(st, f, n, fuel);
    var st' := st.(store := st.store["fact" := Wrap(f * n)]);
    DecreaseMeans(st', Wrap(f * n), n, fuel);
    assert Exec(Cons(Decrease, Nil), st', Subtracting, fuel) == ExecStmt(Decrease, st', Subtracting, fuel);
  }

  lemma UntilMeans(st: State, f: int, n: Int32)
    requires Holds(st, f, n)
    ensures Eval(Until, st.store, Subtracting) == Val(if n == 0 then 1 else 0)
  {
  }

  /** One round of a loop. */
  lemma RoundMeans(body: Stmts, until: Expr, st: State, st': State, v: Int32, fuel: nat)
    requires Exec(body, st, Subtracting, fuel) == Done(st') && Eval(until, st'.store, Subtracting) == Val(v) && fuel > 0
    ensures ExecStmt(Repeat(body, until), st, Subtracting, fuel) ==
      if v != 0 then Done(st') else ExecStmt(Repeat(body, until), st', Subtracting, fuel - 1)
  {
  }

  /** From n > 0 down to 0. */
  lemma {:induction false} LoopMeans(st: State, f: Int32, n: Int32, fuel: nat)
    requires Holds(st, f, n) && n > 0 && fuel >= n
    ensures var o := ExecStmt(Loop, st, Subtracting, fuel);
      o.Done? && Holds(o.state, Wrap(f * Factorial(n)), 0) && o.state.output == st.output && o.state.input == st.input
    decreases n
  {
    BodyMeans(st, f, n, fuel);
    var st' := Exec(Body, st, Subtracting, fuel).state;
    UntilMeans(st', Wrap(f * n), n - 1);
    RoundMeans(Body, Until, st, st', if n == 1 then 1 else 0, fuel);
    if n > 1 {
      LoopMeans(st', Wrap(f * n), n - 1, fuel - 1);
      WrapTimes(f * n, Factorial(n - 1));
      TimesTimes(f, n, Factorial(n - 1));
    }
  }

  lemma TimesTimes(x: int, y: int, z: int)
    ensures x * y * z == x * (y * z)
  {
  }

  /** From the least integer the first round goes on with the greatest. */
  lemma LeastMeans(st: State, fuel: nat, f: Int32, lo: Int32, hi: Int32)
    requires Wrap(f * lo) == lo == INT_MIN && Wrap(lo - 1) == hi >= 2 && Holds(st, f, lo) && fuel > hi
    ensures var o := ExecStmt(Loop, st, Subtracting, fuel);
      o.Done? && Holds(o.state, 0, 0) && o.state.output == st.output && o.state.input == st.input
  {
    BodyMeans(st, f, lo, fuel);
    var st' := Exec(Body, st, Subtracting, fuel).state;
    UntilMeans(st', lo, hi);
    RoundMeans(Body, Until, st, st', 0, fuel);
    LoopMeans(st', lo, hi, fuel - 1);
    LeastTimes(lo, hi);
  }

  lemma LeastTimes(lo: Int32, n: nat)
    requires lo == INT_MIN && n >= 2
    ensures Wrap(lo * Factorial(n)) == 0
  {
    EvenFactorial(n);
    var half := Factorial(n) / 2;
    WrapShift(0, half);
    assert lo * Factorial(n) == 0 - 0x1_0000_0000 * half;
  }

  lemma {:induction false} EvenFactorial(n: nat)
    requires n >= 2
    ensures Factorial(n) % 2 == 0
  {
    if n > 2 {
      EvenFactorial(n - 1);
      assert Factorial(n) == 2 * (n * (Factorial(n - 1) / 2));
    }
  }

  /** What the sample prints for x. */
  function Printed(x: Int32): seq<Int32> {
    if x > 0 then [Wrap(Factorial(x))] else if x == -0x8000_0000 then [0] else []
  }

  lemma TestMeans(store: Store, x: Int32)
    requires Lookup(store, "x") == x
    ensures Eval(Test, store, Subtracting) == Val(if x > 0 || x == -0x8000_0000 then 1 else 0)
  {
    assert Eval(Const(0), store, Subtracting) == Val(0) && Eval(Id("x"), store, Subtracting) == Val(x);
  }

  lemma ThenMeans(st: State, x: Int32, fuel: nat)
    requires Lookup(st.store, "x") == x && (x > 0 || x == INT_MIN) && fuel > INT_MAX
    ensures var o := Exec(Then, st, Subtracting, fuel); o.Done? && o.state.output == st.output + Printed(x) && o.state.input == st.input
  {
    TwoNames();
    var st1 := st.(store := st.store["fact" := 1]);
    assert ExecStmt(Then.head, st, Subtracting, fuel) == Done(st1);
    if x > 0 {
      LoopMeans(st1, 1, x, fuel);
    } else {
      LeastMeans(st1, fuel, 1, INT_MIN, INT_MAX);
    }
    var st2 := ExecStmt(Loop, st1, Subtracting, fuel).state;
    WriteMeans(st2, fuel);
    assert Exec(Then.sibling, st1, Subtracting, fuel) == Exec(Then.sibling.sibling, st2, Subtracting, fuel);
  }

  lemma WriteMeans(st: State, fuel: nat)
    ensures Exec(Then.sibling.sibling, st, Subtracting, fuel) == Done(st.(output := st.output + [Lookup(st.store, "fact")]))
  {
    assert Eval(Id("fact"), st.store, Subtracting) == Val(Lookup(st.store, "fact"));
  }

  lemma LastMeans(s: Stmt, st: State, fuel: nat)
    ensures Exec(Cons(s, Nil), st, Subtracting, fuel) == ExecStmt(s, st, Subtracting, fuel)
  {
  }

  lemma SampleMeans(x: Int32, fuel: nat)
    requires fuel > INT_MAX
    ensures var o := Meaning(Sample, [x], Subtracting, fuel); o.Done? && o.state.output == Printed(x)
  {
    var st0 := State(map[], [x], []);
    var st := State(map["x" := x], [], []);
    assert ExecStmt(Read("x"), st0, Subtracting, fuel) == Done(st) by {
      assert [x][1..] == [] && st0.store["x" := x] == st.store;
    }
    TestMeans(st.store, x);
    LastMeans(If(Test, Then, Nil), st, fuel);
    assert Exec(Nil, st, Subtracting, fuel) == Done(st);
    if x > 0 || x == INT_MIN {
      ThenMeans(st, x, fuel);
    }
  }

  /** The machine that runs the code of the sample on x halts, having printed the factorial of
      x, wrapped around to 32 bits, exactly when x > 0, except that for the least integer,
      which the compiled comparison takes to be above 0, it prints 0. */
  lemma SamplePrints(x: Int32)
    ensures Compilable(Sample, Vars, 2)
    ensures exists n: nat ::
      var (m, res) := Run(Start(Sample, Vars, [x]), n);
      res == Halted && m.output == if x > 0 then [Wrap(Factorial(x))] else if x == -0x8000_0000 then [0] else []
  {
    SampleCompilable();
    SampleMeans(x, INT_MAX + 1);
    CompilerPreservesMeaning(Sample, Vars, 2, [x], INT_MAX + 1);
  }

  lemma SampleLength()
    ensures Declared(Sample, Vars) && |StmtsCode(Sample, Vars)| == 39
  {
    var read, rest := Read("x"), If(Test, Then, Nil);
    TestCode();
    ThenCode();
    assert |StmtCode(read, Vars)| == 2 && |ExprCode(Test, Vars, 0)| == 9;
    IfUnfolded(Test, Then, Vars, 4, 14, 41);
    PairLines(read, rest, Vars, 2, 4);
  }

  lemma VarsTable()
    ensures Table(Vars, 2)
  {
    assert Vars["x"] == 0 && Vars["fact"] == 1;
  }

  lemma SampleCompilable()
    ensures Compilable(Sample, Vars, 2)
  {
    SampleLength();
    VarsTable();
    SampleFits(DADDR_SIZE - 2);
    ProgramLength(Sample);
  }

  lemma ProgramLength(ss: Stmts)
    requires Declared(ss, Vars)
    ensures |ProgramCode(ss, Vars)| == |StmtsCode(ss, Vars)| + 3
  {
  }

  lemma LeavesFit(op: BinOp, a: Expr, b: Expr, room: nat)
    requires !a.Op? && !b.Op? && room > 0
    ensures ExprFits(Op(op, a, b), room)
  {
  }

  lemma SampleFits(room: nat)
    requires room > 0
    ensures StmtsFit(Sample, room)
  {
    LeavesFit(Lt, Const(0), Id("x"), room);
    LeavesFit(Eq, Id("x"), Const(0), room);
    LeavesFit(Times, Id("fact"), Id("x"), room);
    LeavesFit(Minus, Id("x"), Const(1), room);
    assert StmtFits(Multiply, room) && StmtFits(Decrease, room);
    assert StmtsFit(Cons(Decrease, Nil), room);
    assert StmtsFit(Body, room);
    assert StmtFits(Loop, room);
    assert StmtsFit(Then.sibling, room);
    assert StmtsFit(Then, room);
  }
}
