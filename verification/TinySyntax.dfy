/** Syntax trees of TINY programs and their meaning.

    A C tree node carries a `sibling` pointer; the chain of siblings of a statement
    is `Stmts` here, so that one recursive call of the code generator per sibling
    becomes one step along the list. */
module TinySyntax {

  const INT_MIN: int := -0x8000_0000
  const INT_MAX: int := 0x7fff_ffff

  /** A C `int` of 32 bits. */
  type Int32 = x: int | -0x8000_0000 <= x <= 0x7fff_ffff

  datatype BinOp = Plus | Minus | Times | Over | Lt | Eq

  datatype Expr =
    | Const(val: Int32)
    | Id(name: string)
    | Op(op: BinOp, left: Expr, right: Expr)

  datatype Stmt =
    | If(test: Expr, thenPart: Stmts, elsePart: Stmts)
    | Repeat(body: Stmts, until: Expr)
    | Assign(name: string, rhs: Expr)
    | Read(name: string)
    | Write(value: Expr)

  datatype Stmts = Nil | Cons(head: Stmt, sibling: Stmts)

  /** Two's-complement wrap-around to 32 bits. */
  function Wrap(x: int): Int32 {
    (x + 0x8000_0000) % 0x1_0000_0000 - 0x8000_0000
  }

  predicate Fits(x: int) {
    INT_MIN <= x <= INT_MAX
  }

  /** Division as C does it: the quotient is truncated toward zero. */
  function Quotient(a: int, b: int): int
    requires b != 0
  {
    if (a >= 0) == (b > 0) then Abs(a) / Abs(b) else -(Abs(a) / Abs(b))
  }

  function Abs(a: int): nat {
    if a < 0 then -a else a
  }

  /** How `<` is decided: by comparing the operands, where a difference outside 32 bits
      is reported, or from the sign of the 32-bit difference. */
  datatype Comparison = Exact | Subtracting

  datatype Fault =
    | DivideByZero
    | QuotientTrap     // the least int divided by -1
    | InputEnd
    | CompareRange     // only under Exact

  datatype Value = Val(v: Int32) | Bad(fault: Fault)

  type Store = map<string, Int32>

  function Lookup(store: Store, name: string): Int32 {
    if name in store then store[name] else 0
  }

  function Truth(b: bool): Int32 {
    if b then 1 else 0
  }

  function Apply(op: BinOp, a: Int32, b: Int32, cmp: Comparison): Value {
    match op
    case Plus => Val(Wrap(a + b))
    case Minus => Val(Wrap(a - b))
    case Times => Val(Wrap(a * b))
    case Over =>
      if b == 0 then Bad(DivideByZero)
      else if !Fits(Quotient(a, b)) then Bad(QuotientTrap)
      else Val(Quotient(a, b))
    case Lt =>
      if cmp == Subtracting then Val(Truth(Wrap(a - b) < 0))
      else if Fits(a - b) then Val(Truth(a < b))
      else Bad(CompareRange)
    case Eq => Val(Truth(a == b))
  }

  function Eval(e: Expr, store: Store, cmp: Comparison): Value {
    match e
    case Const(val) => Val(val)
    case Id(name) => Val(Lookup(store, name))
    case Op(op, left, right) =>
      var a := Eval(left, store, cmp);
      if a.Bad? then a else
      var b := Eval(right, store, cmp);
      if b.Bad? then b else Apply(op, a.v, b.v, cmp)
  }

  datatype State = State(store: Store, input: seq<Int32>, output: seq<Int32>)

  datatype Outcome =
    | Done(state: State)
    | Stuck(fault: Fault, output: seq<Int32>)
    | OutOfFuel

  /** Big-step execution. `fuel` bounds how often one `repeat` may go round; a program
      terminates when some fuel gives an outcome other than OutOfFuel. */
  function ExecStmt(s: Stmt, st: State, cmp: Comparison, fuel: nat): Outcome
    decreases fuel, s, 0
  {
    match s
    case Assign(name, rhs) =>
      var r := Eval(rhs, st.store, cmp);
      if r.Bad? then Stuck(r.fault, st.output) else Done(st.(store := st.store[name := r.v]))
    case Read(name) =>
      if |st.input| == 0 then Stuck(InputEnd, st.output)
      else Done(st.(store := st.store[name := st.input[0]], input := st.input[1..]))
    case Write(value) =>
      var r := Eval(value, st.store, cmp);
      if r.Bad? then Stuck(r.fault, st.output) else Done(st.(output := st.output + [r.v]))
    case If(test, thenPart, elsePart) =>
      var r := Eval(test, st.store, cmp);
      if r.Bad? then Stuck(r.fault, st.output)
      else if r.v != 0 then Exec(thenPart, st, cmp, fuel)
      else Exec(elsePart, st, cmp, fuel)
    case Repeat(body, until) =>
      var b := Exec(body, st, cmp, fuel);
      if b.Done? then ExecUntil(body, until, b.state, cmp, fuel) else b
  }

  /** The end of a round of `repeat body until until`. */
  function ExecUntil(body: Stmts, until: Expr, st: State, cmp: Comparison, fuel: nat): Outcome
    decreases fuel, until, 0
  {
    var r := Eval(until, st.store, cmp);
    if r.Bad? then Stuck(r.fault, st.output)
    else if r.v != 0 then Done(st)
    else if fuel == 0 then OutOfFuel
    else ExecStmt(Repeat(body, until), st, cmp, fuel - 1)
  }

  function Exec(ss: Stmts, st: State, cmp: Comparison, fuel: nat): Outcome
    decreases fuel, ss, 1
  {
    match ss
    case Nil => Done(st)
    case Cons(head, sibling) =>
      var o := ExecStmt(head, st, cmp, fuel);
      if o.Done? then Exec(sibling, o.state, cmp, fuel) else o
  }

  /** The outcomes about which the compiler owes nothing: a comparison whose operands
      are more than 32 bits apart. */
  predicate ComparesInRange(o: Outcome) {
    !(o.Stuck? && o.fault == CompareRange)
  }

  // ----- The operators, in integers -----

  /** What is left of a when p is taken away is smaller than b and has a's sign. */
  predicate Truncated(a: int, b: int, p: int) {
    var rem := a - p;
    ((rem < b && -rem < b) || (b < rem && b < -rem)) && (rem > 0 ==> a > 0) && (rem < 0 ==> a < 0)
  }

  lemma DivMod(n: int, d: int)
    requires n >= 0 && d > 0
    ensures n == d * (n / d) + n % d && 0 <= n % d < d && 0 <= n / d <= n
  {
    var q := n / d;
    Product(d - 1, q);
    assert d * q == q + (d - 1) * q;
  }

  lemma QuotientTruncates(a: int, b: int)
    requires b != 0
    ensures Truncated(a, b, b * Quotient(a, b))
  {
    var n: int, d: int := Abs(a), Abs(b);
    DivMod(n, d);
    var q := n / d;
    Signs(d, q);
    assert b * Quotient(a, b) == if a >= 0 then d * q else -(d * q);
  }

  lemma Signs(d: int, q: int)
    ensures -d * -q == d * q && -d * q == -(d * q) && d * -q == -(d * q)
  {
  }

  /** No nonzero multiple of b is the difference of two such remainders. */
  lemma OneTruncated(a: int, b: int, v: int, w: int)
    requires b != 0 && Truncated(a, b, b * v) && Truncated(a, b, b * w)
    ensures v == w
  {
    var d := v - w;
    Distribute(b, v, w);
    Beyond(b, d, b * d);
  }

  lemma Distribute(b: int, v: int, w: int)
    ensures b * v - b * w == b * (v - w)
  {
  }

  lemma Beyond(b: int, d: int, p: int)
    requires p == b * d
    ensures d != 0 ==> p >= b >= 0 || p <= b <= 0 || p >= -b >= 0 || p <= -b <= 0
  {
    var x: int, y: int := Abs(b), Abs(d);
    Signs(x, y);
    if y > 0 {
      Product(x, y - 1);
      assert x * y == x + x * (y - 1);
    }
  }

  /** The quotient is the one value that leaves a remainder smaller than the divisor and of
      the dividend's sign. */
  lemma QuotientIs(a: int, b: int, v: int)
    requires b != 0
    ensures v == Quotient(a, b) <==>
      var rem := a - b * v;
      ((rem < b && -rem < b) || (b < rem && b < -rem)) && (rem > 0 ==> a > 0) && (rem < 0 ==> a < 0)
  {
    QuotientTruncates(a, b);
    if Truncated(a, b, b * v) {
      OneTruncated(a, b, v, Quotient(a, b));
    }
  }

  lemma DivisionTruncates(a: Int32, b: Int32, cmp: Comparison, v: Int32)
    ensures Apply(Over, a, b, cmp) == Val(v) <==>
      b != 0 &&
      var rem: int := a - b * v;
      ((rem < b && -rem < b) || (b < rem && b < -rem)) && (rem > 0 ==> a > 0) && (rem < 0 ==> a < 0)
  {
    if b != 0 {
      QuotientIs(a, b, v);
    }
  }

  lemma Congruent(x: int, v: Int32)
    ensures Wrap(x) == v <==> (x - v) % 0x1_0000_0000 == 0
  {
  }

  /** A sum, difference or product is the one 32-bit value congruent to the integer's. */
  lemma ArithmeticWraps(a: Int32, b: Int32, cmp: Comparison, v: Int32)
    ensures Apply(Plus, a, b, cmp) == Val(v) <==> (a + b - v) % 0x1_0000_0000 == 0
    ensures Apply(Minus, a, b, cmp) == Val(v) <==> (a - b - v) % 0x1_0000_0000 == 0
    ensures Apply(Times, a, b, cmp) == Val(v) <==> (a * b - v) % 0x1_0000_0000 == 0
  {
    Congruent(a + b, v);
    Congruent(a - b, v);
    Congruent(a * b, v);
  }

  /** When an operator has no value. */
  lemma FaultsExactlyWhen(op: BinOp, a: Int32, b: Int32, cmp: Comparison, fault: Fault)
    ensures Apply(op, a, b, cmp) == Bad(fault) <==>
      || (fault == DivideByZero && op == Over && b == 0)
      || (fault == QuotientTrap && op == Over && a == -0x8000_0000 && b == -1)
      || (fault == CompareRange && op == Lt && cmp == Exact && !(-0x8000_0000 <= a - b < 0x8000_0000))
  {
    if b != 0 {
      QuotientTruncates(a, b);
      QuotientFits(a, b);
    }
  }

  lemma Halved(n: int, d: int, q: int)
    requires d >= 2 && q >= 0 && d * q <= n
    ensures 2 * q <= n
  {
    assert d * q == 2 * q + (d - 2) * q;
    Product(d - 2, q);
  }

  lemma Product(x: nat, y: nat)
    ensures x * y >= 0
  {
  }

  lemma QuotientFits(a: Int32, b: Int32)
    requires b != 0
    ensures Fits(Quotient(a, b)) <==> a != INT_MIN || b != -1
  {
    var n: int, d: int := Abs(a), Abs(b);
    DivMod(n, d);
    if d == 1 {
      assert n / d == n;
    } else {
      Halved(n, d, n / d);
    }
  }

  /** The sign of the wrapped difference decides `<` correctly exactly when the
      difference itself fits in 32 bits. */
  lemma SubtractionDecidesLess(a: Int32, b: Int32)
    ensures (Apply(Lt, a, b, Subtracting) == Val(Truth(a < b))) <==> Fits(a - b)
    ensures Apply(Eq, a, b, Subtracting) == Val(1) <==> Wrap(a - b) == 0
  {
  }

  /** Two operands on which the subtraction gets `<` wrong. */
  lemma LessGoesWrong()
    ensures INT_MIN < 1 && Apply(Lt, INT_MIN, 1, Subtracting) == Val(0)
  {
  }

  lemma {:induction false} ExactEvalAgrees(e: Expr, store: Store)
    requires Eval(e, store, Exact) != Bad(CompareRange)
    ensures Eval(e, store, Subtracting) == Eval(e, store, Exact)
  {
    match e
    case Const(_) =>
    case Id(_) =>
    case Op(op, left, right) =>
      ExactEvalAgrees(left, store);
      if Eval(left, store, Exact).Val? { ExactEvalAgrees(right, store); }
  }

  /** Runs that never compare operands more than 32 bits apart mean the same
      whichever way `<` is decided. */
  lemma {:induction false} ExactExecAgrees(ss: Stmts, st: State, fuel: nat)
    requires ComparesInRange(Exec(ss, st, Exact, fuel))
    ensures Exec(ss, st, Subtracting, fuel) == Exec(ss, st, Exact, fuel)
    decreases fuel, ss, 1
  {
    match ss
    case Nil =>
    case Cons(head, sibling) =>
      ExactExecStmtAgrees(head, st, fuel);
      var o := ExecStmt(head, st, Exact, fuel);
      if o.Done? { ExactExecAgrees(sibling, o.state, fuel); }
  }

  lemma {:induction false} ExactExecStmtAgrees(s: Stmt, st: State, fuel: nat)
    requires ComparesInRange(ExecStmt(s, st, Exact, fuel))
    ensures ExecStmt(s, st, Subtracting, fuel) == ExecStmt(s, st, Exact, fuel)
    decreases fuel, s, 0
  {
    match s
    case Assign(_, rhs) => ExactEvalAgrees(rhs, st.store);
    case Read(_) =>
    case Write(value) => ExactEvalAgrees(value, st.store);
    case If(test, thenPart, elsePart) =>
      ExactEvalAgrees(test, st.store);
      var r := Eval(test, st.store, Exact);
      if r.Val? {
        if r.v != 0 { ExactExecAgrees(thenPart, st, fuel); } else { ExactExecAgrees(elsePart, st, fuel); }
      }
    case Repeat(body, until) =>
      ExactExecAgrees(body, st, fuel);
      var b := Exec(body, st, Exact, fuel);
      if b.Done? { ExactUntilAgrees(body, until, b.state, fuel); }
  }

  lemma {:induction false} ExactUntilAgrees(body: Stmts, until: Expr, st: State, fuel: nat)
    requires ComparesInRange(ExecUntil(body, until, st, Exact, fuel))
    ensures ExecUntil(body, until, st, Subtracting, fuel) == ExecUntil(body, until, st, Exact, fuel)
    decreases fuel, until, 0
  {
    ExactEvalAgrees(until, st.store);
    var r := Eval(until, st.store, Exact);
    if r.Val? && r.v == 0 && fuel > 0 { ExactExecStmtAgrees(Repeat(body, until), st, fuel - 1); }
  }
}
