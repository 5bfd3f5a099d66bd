/** The TINY language as the code generator sees it: the tree that the parser builds, and what running a
    program means.  Statement sequences are chained through the sibling pointer. */
module TinyLanguage {

  datatype Op = PLUS | MINUS | TIMES | OVER | LT | EQ

  datatype Exp = ConstK(val: int) | IdK(name: string) | OpK(op: Op, left: Exp, right: Exp)

  datatype Stmt =
    | IfK(test: Exp, thenPart: Stmts, elsePart: Stmts)
    | RepeatK(body: Stmts, until: Exp)
    | AssignK(name: string, rhs: Exp)
    | ReadK(name: string)
    | WriteK(arg: Exp)

  datatype Stmts = Null | Node(stmt: Stmt, sibling: Stmts)

  // ----- variables that occur in a tree -----

  function ExpVars(e: Exp): set<string> {
    match e
    case ConstK(_) => {}
    case IdK(x) => {x}
    case OpK(_, l, r) => ExpVars(l) + ExpVars(r)
  }

  function StmtVars(s: Stmt): set<string> {
    match s
    case IfK(e, t, f) => ExpVars(e) + StmtsVars(t) + StmtsVars(f)
    case RepeatK(b, e) => StmtsVars(b) + ExpVars(e)
    case AssignK(x, e) => {x} + ExpVars(e)
    case ReadK(x) => {x}
    case WriteK(e) => ExpVars(e)
  }

  function StmtsVars(ss: Stmts): set<string> {
    match ss
    case Null => {}
    case Node(s, rest) => StmtVars(s) + StmtsVars(rest)
  }

  // ----- expressions -----

  type Store = map<string, int>

  /** Variables start at zero. */
  function Lookup(store: Store, x: string): int {
    if x in store then store[x] else 0
  }

  function Abs(x: int): nat {
    if x < 0 then -x else x
  }

  /** C's integer division, which truncates toward zero. */
  function Quot(a: int, b: int): int
    requires b != 0
  {
    if (a < 0) == (b < 0) then Abs(a) / Abs(b) else -(Abs(a) / Abs(b))
  }

  datatype Value = Val(v: int) | DivByZero

  function Apply(op: Op, a: int, b: int): Value {
    match op
    case PLUS => Val(a + b)
    case MINUS => Val(a - b)
    case TIMES => Val(a * b)
    case OVER => if b == 0 then DivByZero else Val(Quot(a, b))
    case LT => Val(if a < b then 1 else 0)
    case EQ => Val(if a == b then 1 else 0)
  }

  function EvalExp(e: Exp, store: Store): Value {
    match e
    case ConstK(v) => Val(v)
    case IdK(x) => Val(Lookup(store, x))
    case OpK(op, l, r) =>
      var a := EvalExp(l, store);
      if a.DivByZero? then a else
      var b := EvalExp(r, store);
      if b.DivByZero? then b else Apply(op, a.v, b.v)
  }

  // ----- statements -----

  datatype World = World(store: Store, input: seq<int>, output: seq<int>)

  /** How a run ends: normally, on a division by zero, waiting for input that never comes, or not yet. */
  datatype Outcome = Done(w: World) | DivZero(w: World) | Blocked(w: World) | Timeout

  /** `fuel` bounds how often a loop may jump back. */
  function EvalStmt(s: Stmt, w: World, fuel: nat): Outcome
    decreases fuel, s
  {
    match s
    case IfK(e, t, f) =>
      var v := EvalExp(e, w.store);
      if v.DivByZero? then DivZero(w)
      else if v.v != 0 then EvalStmts(t, w, fuel)
      else EvalStmts(f, w, fuel)
    case RepeatK(b, e) =>
      var o := EvalStmts(b, w, fuel);
      if !o.Done? then o else
      var v := EvalExp(e, o.w.store);
      if v.DivByZero? then DivZero(o.w)
      else if v.v != 0 then o
      else if fuel == 0 then Timeout
      else EvalStmt(s, o.w, fuel - 1)
    case AssignK(x, e) =>
      var v := EvalExp(e, w.store);
      if v.DivByZero? then DivZero(w) else Done(w.(store := w.store[x := v.v]))
    case ReadK(x) =>
      if w.input == [] then Blocked(w)
      else Done(w.(store := w.store[x := w.input[0]], input := w.input[1..]))
    case WriteK(e) =>
      var v := EvalExp(e, w.store);
      if v.DivByZero? then DivZero(w) else Done(w.(output := w.output + [v.v]))
  }

  function EvalStmts(ss: Stmts, w: World, fuel: nat): Outcome
    decreases fuel, ss
  {
    match ss
    case Null => Done(w)
    case Node(s, rest) =>
      var o := EvalStmt(s, w, fuel);
      if o.Done? then EvalStmts(rest, o.w, fuel) else o
  }

  function Start(input: seq<int>): World {
    World(map[], input, [])
  }

  /** Truncating division leaves a remainder smaller than the divisor that never has the opposite sign of
      the dividend. */
  lemma {:induction false} QuotTruncates(a: int, b: int)
    requires b != 0
    ensures var rem := a - Quot(a, b) * b;
            Abs(rem) < Abs(b) && (rem == 0 || (rem < 0 <==> a < 0))
  {}
}
