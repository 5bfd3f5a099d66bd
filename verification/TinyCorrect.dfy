/** The TINY compiler is correct: cgen.c's code on the machine of tm.c. */
module TinyCorrect {
  import opened TinyLanguage
  import opened TinyMachine
  import opened TinyEmitter

  // ----- loading -----

  function LoadInto(mem: seq<Instruction>, file: seq<Line>): (r: seq<Instruction>)
    requires forall k :: 0 <= k < |file| ==> 0 <= file[k].loc < |mem|
    ensures |r| == |mem|
    decreases |file|
  {
    if file == [] then mem else LoadInto(mem[file[0].loc := file[0].instr], file[1..])
  }

  lemma {:induction false} LoadedAt(mem: seq<Instruction>, file: seq<Line>, a: nat)
    requires forall k :: 0 <= k < |file| ==> 0 <= file[k].loc < |mem|
    requires a < |mem|
    ensures var ls := LinesFor(file, a);
            LoadInto(mem, file)[a] == if ls == [] then mem[a] else ls[|ls| - 1]
    decreases |file|
  {
    if file != [] {
      LoadedAt(mem[file[0].loc := file[0].instr], file[1..], a);
    }
  }

  /** A line is found among the lines for its address. */
  lemma {:induction false} LineCounted(file: seq<Line>, k: nat)
    requires k < |file|
    ensures LinesFor(file, file[k].loc) != []
  {
    if k > 0 {
      LineCounted(file[1..], k - 1);
    }
  }

  /** Instruction memory before a program is read: all HALT. */
  function Blank(): (p: seq<Instruction>)
    ensures |p| == IADDR_SIZE
    ensures forall i :: 0 <= i < |p| ==> p[i] == Instruction(HALT, 0, 0, 0)
  {
    seq(IADDR_SIZE, _ => Instruction(HALT, 0, 0, 0))
  }

  lemma {:induction false} LinesInRange(file: seq<Line>, code: seq<Instruction>)
    requires |code| <= IADDR_SIZE
    requires forall a :: LinesFor(file, a) == if 0 <= a < |code| then [code[a]] else []
    ensures forall k :: 0 <= k < |file| ==> 0 <= file[k].loc < IADDR_SIZE
  {
    forall k | 0 <= k < |file| ensures 0 <= file[k].loc < IADDR_SIZE {
      LineCounted(file, k);
    }
  }

  /** readInstructions on a file that holds each address of the program once. */
  lemma {:induction false} LoadProgram(file: seq<Line>, code: seq<Instruction>)
    requires |code| <= IADDR_SIZE
    requires forall k :: 0 <= k < |file| ==> 0 <= file[k].loc < IADDR_SIZE
    requires forall a :: LinesFor(file, a) == if 0 <= a < |code| then [code[a]] else []
    ensures LoadInto(Blank(), file) == code + Blank()[|code|..]
  {
    forall a | 0 <= a < IADDR_SIZE ensures LoadInto(Blank(), file)[a] == (code + Blank()[|code|..])[a] {
      LoadedAt(Blank(), file, a);
    }
  }

  lemma {:induction false} CodeExpWellFormed(e: Exp, tmp: int, st: SymbolTable)
    requires ExpVars(e) <= st.Keys
    ensures forall i :: i in CodeExp(e, tmp, st) ==> i.WellFormed()
  {
    match e
    case ConstK(_) =>
    case IdK(_) =>
    case OpK(op, l, r) =>
      CodeExpWellFormed(l, tmp, st);
      CodeExpWellFormed(r, tmp - 1, st);
  }

  lemma {:induction false} CodeStmtWellFormed(s: Stmt, tmp: int, st: SymbolTable)
    requires StmtVars(s) <= st.Keys
    ensures forall i :: i in CodeStmt(s, tmp, st) ==> i.WellFormed()
  {
    match s
    case IfK(e, t, f) =>
      CodeExpWellFormed(e, tmp, st);
      CodeStmtsWellFormed(t, tmp, st);
      CodeStmtsWellFormed(f, tmp, st);
    case RepeatK(b, e) =>
      CodeStmtsWellFormed(b, tmp, st);
      CodeExpWellFormed(e, tmp, st);
    case AssignK(_, e) => CodeExpWellFormed(e, tmp, st);
    case ReadK(_) =>
    case WriteK(e) => CodeExpWellFormed(e, tmp, st);
  }

  lemma {:induction false} CodeStmtsWellFormed(ss: Stmts, tmp: int, st: SymbolTable)
    requires StmtsVars(ss) <= st.Keys
    ensures forall i :: i in CodeStmts(ss, tmp, st) ==> i.WellFormed()
  {
    match ss
    case Null =>
    case Node(s, rest) =>
      CodeStmtWellFormed(s, tmp, st);
      CodeStmtsWellFormed(rest, tmp, st);
  }

  // ----- memory layout -----

  /** How many temporaries the evaluation of e keeps on the stack at once. */
  function Temps(e: Exp): nat {
    match e
    case ConstK(_) => 0
    case IdK(_) => 0
    case OpK(_, l, r) => if Temps(l) > 1 + Temps(r) then Temps(l) else 1 + Temps(r)
  }

  function Max(a: nat, b: nat): nat { if a < b then b else a }

  function StmtTemps(s: Stmt): nat {
    match s
    case IfK(e, t, f) => Max(Temps(e), Max(StmtsTemps(t), StmtsTemps(f)))
    case RepeatK(b, e) => Max(StmtsTemps(b), Temps(e))
    case AssignK(_, e) => Temps(e)
    case ReadK(_) => 0
    case WriteK(e) => Temps(e)
  }

  function StmtsTemps(ss: Stmts): nat {
    match ss
    case Null => 0
    case Node(s, rest) => Max(StmtTemps(s), StmtsTemps(rest))
  }

  /** The symbol table gives distinct variables distinct cells, all below `limit`. */
  ghost predicate Layout(st: SymbolTable, limit: nat) {
    && (forall x, y :: x in st && y in st && st[x] == st[y] ==> x == y)
    && (forall x :: x in st ==> st[x] < limit)
  }

  ghost predicate CodeAt(iMem: Program, at: int, code: seq<Instruction>) {
    && 0 <= at && at + |code| <= IADDR_SIZE
    && forall k :: 0 <= k < |code| ==> iMem[at + k] == code[k]
  }

  lemma {:induction false} CodeAtParts(iMem: Program, at: int, x: seq<Instruction>, y: seq<Instruction>)
    requires CodeAt(iMem, at, x + y)
    ensures CodeAt(iMem, at, x) && CodeAt(iMem, at + |x|, y)
  {
    forall k | 0 <= k < |x| ensures iMem[at + k] == x[k] { assert (x + y)[k] == x[k]; }
    forall k | 0 <= k < |y| ensures iMem[at + |x| + k] == y[k] { assert (x + y)[|x| + k] == y[k]; }
  }

  /** The machine stands at address `at` with the variables of `store` in memory. */
  ghost predicate Ready(c: Config, at: int, st: SymbolTable, limit: nat, store: Store) {
    && c.Valid()
    && c.reg[PC_REG] == at && c.reg[gp] == 0
    && limit <= DADDR_SIZE
    && Layout(st, limit)
    && forall x :: x in st ==> c.dMem[st[x]] == Lookup(store, x)
  }

  /** Memory is unchanged outside (low, high]. */
  ghost predicate Framed(c: Config, d: Config, low: int, high: int) {
    && c.Valid() && d.Valid()
    && d.reg[mp] == c.reg[mp] && d.input == c.input && d.output == c.output
    && forall a :: 0 <= a < DADDR_SIZE && !(low < a <= high) ==> d.dMem[a] == c.dMem[a]
  }

  lemma {:induction false} RunOn(iMem: Program, c: Config, m: nat, d: Config, n: nat)
    requires c.Valid() && d.Valid()
    requires Run(iMem, c, m) == (d, srOKAY)
    ensures Run(iMem, c, m + n) == Run(iMem, d, n)
  {
    RunSplit(iMem, c, m, n);
  }

  lemma {:induction false} RunOne(iMem: Program, c: Config)
    requires c.Valid()
    ensures Run(iMem, c, 1) == Step(iMem, c)
  {
    var (d, r) := Step(iMem, c);
    if r == srOKAY {
      assert Run(iMem, d, 0) == (d, srOKAY);
    }
  }

  // ----- expressions -----

  lemma {:induction false} FramedTwice(c: Config, d: Config, e: Config, low1: int, high1: int,
                                       low2: int, high2: int, low: int, high: int)
    requires Framed(c, d, low1, high1) && Framed(d, e, low2, high2)
    requires low <= low1 && high1 <= high && low <= low2 && high2 <= high
    ensures Framed(c, e, low, high)
  {}

  /** The last instructions of an operator: left operand in ac1, right operand in ac. */
  lemma {:induction false} OpSim(iMem: Program, c: Config, op: Op, at: int, st: SymbolTable, limit: nat, store: Store)
    returns (n: nat, d: Config)
    requires Ready(c, at, st, limit, store) && c.Valid()
    requires CodeAt(iMem, at, OpCode(op))
    ensures d.Valid() && d.output == c.output
    ensures Apply(op, c.reg[ac1], c.reg[ac]).Val? ==>
              && Run(iMem, c, n) == (d, srOKAY)
              && Ready(d, at + |OpCode(op)|, st, limit, store) && Framed(c, d, 0, 0)
              && d.reg[ac] == Apply(op, c.reg[ac1], c.reg[ac]).v
    ensures Apply(op, c.reg[ac1], c.reg[ac]).DivByZero? ==> Run(iMem, c, n) == (d, srZERODIVIDE)
  {
    assert iMem[at] == OpCode(op)[0];
    var (c1, r1) := Step(iMem, c);
    RunOne(iMem, c);
    if op.LT? || op.EQ? {
      assert iMem[at + 1] == OpCode(op)[1] && iMem[at + 2] == OpCode(op)[2];
      assert iMem[at + 3] == OpCode(op)[3] && iMem[at + 4] == OpCode(op)[4];
      n, d := CompareSim(iMem, c1, OpCode(op)[1].iop, at + 1);
      RunOn(iMem, c, 1, c1, n);
      n := 1 + n;
    } else {
      n, d := 1, c1;
    }
  }

  lemma {:induction false} CompareSim(iMem: Program, c: Config, jump: Opcode, at: int) returns (n: nat, d: Config)
    requires c.Valid() && c.reg[PC_REG] == at && (jump.JLT? || jump.JEQ?)
    requires 0 <= at && at + 4 <= IADDR_SIZE
    requires iMem[at] == Instruction(jump, ac, 2, pc) && iMem[at + 1] == Instruction(LDC, ac, 0, ac)
    requires iMem[at + 2] == Instruction(LDA, pc, 1, pc) && iMem[at + 3] == Instruction(LDC, ac, 1, ac)
    ensures d.Valid() && Run(iMem, c, n) == (d, srOKAY)
    ensures var holds := if jump.JLT? then c.reg[ac] < 0 else c.reg[ac] == 0;
            d == c.(reg := c.reg[ac := if holds then 1 else 0][PC_REG := at + 4])
  {
    var (c1, r1) := Step(iMem, c);
    var (c2, r2) := Step(iMem, c1);
    assert Run(iMem, c, 2) == Run(iMem, c1, 1) by { RunOne(iMem, c); RunOn(iMem, c, 1, c1, 1); }
    RunOne(iMem, c1);
    if if jump.JLT? then c.reg[ac] < 0 else c.reg[ac] == 0 {
      n, d := 2, c2;
    } else {
      var (c3, r3) := Step(iMem, c2);
      RunOn(iMem, c, 2, c2, 1);
      RunOne(iMem, c2);
      n, d := 3, c3;
    }
  }

  /** Expression code leaves the value in ac, restores the stack height and touches only the temporaries
      below it; a division by zero stops the machine there. */
  lemma {:induction false} ExpSim(iMem: Program, c: Config, e: Exp, tmp: int, st: SymbolTable,
                                  at: int, limit: nat, store: Store) returns (n: nat, d: Config)
    requires ExpVars(e) <= st.Keys
    requires CodeAt(iMem, at, CodeExp(e, tmp, st))
    requires Ready(c, at, st, limit, store) && c.Valid()
    requires limit + Temps(e) <= c.reg[mp] + tmp + 1 <= DADDR_SIZE
    ensures d.Valid() && d.output == c.output
    ensures EvalExp(e, store).Val? ==>
              && Run(iMem, c, n) == (d, srOKAY)
              && Ready(d, at + |CodeExp(e, tmp, st)|, st, limit, store)
              && d.reg[ac] == EvalExp(e, store).v
              && Framed(c, d, c.reg[mp] + tmp - Temps(e), c.reg[mp] + tmp)
    ensures EvalExp(e, store).DivByZero? ==> Run(iMem, c, n) == (d, srZERODIVIDE)
    decreases e, 1
  {
    hide Run;
    match e
    case ConstK(v) =>
      assert iMem[at] == CodeExp(e, tmp, st)[0];
      RunOne(iMem, c);
      n, d := 1, Step(iMem, c).0;
    case IdK(x) =>
      assert iMem[at] == CodeExp(e, tmp, st)[0];
      RunOne(iMem, c);
      n, d := 1, Step(iMem, c).0;
    case OpK(op, l, r) =>
      n, d := OpKSim(iMem, c, op, l, r, tmp, st, at, limit, store);
  }

  lemma {:induction false} OpKParts(iMem: Program, at: int, x: seq<Instruction>, push: Instruction,
                                    y: seq<Instruction>, pop: Instruction, z: seq<Instruction>)
    requires CodeAt(iMem, at, x + [push] + y + [pop] + z)
    ensures 0 <= at && at + |x| + 1 + |y| + 1 + |z| <= IADDR_SIZE
    ensures CodeAt(iMem, at, x) && CodeAt(iMem, at + |x| + 1, y) && CodeAt(iMem, at + |x| + 1 + |y| + 1, z)
    ensures iMem[at + |x|] == push && iMem[at + |x| + 1 + |y|] == pop
  {
    CodeAtParts(iMem, at, x + [push] + y + [pop], z);
    CodeAtParts(iMem, at, x + [push] + y, [pop]);
    CodeAtParts(iMem, at, x + [push], y);
    CodeAtParts(iMem, at, x, [push]);
    assert iMem[at + |x|] == [push][0];
    assert iMem[at + |x + [push] + y|] == [pop][0];
  }

  lemma {:induction false} OpKUnfolds(op: Op, l: Exp, r: Exp, tmp: int, st: SymbolTable, store: Store)
    requires ExpVars(OpK(op, l, r)) <= st.Keys
    ensures ExpVars(l) <= st.Keys && ExpVars(r) <= st.Keys
    ensures var cl, cr, e := CodeExp(l, tmp, st), CodeExp(r, tmp - 1, st), OpK(op, l, r);
            && CodeExp(e, tmp, st) == cl + [Instruction(ST, ac, tmp, mp)] + cr + [Instruction(LD, ac1, tmp, mp)]
                                      + OpCode(op)
            && |CodeExp(e, tmp, st)| == |cl| + 1 + |cr| + 1 + |OpCode(op)|
    ensures Temps(OpK(op, l, r)) == Max(Temps(l), 1 + Temps(r))
    ensures var a, b, e := EvalExp(l, store), EvalExp(r, store), EvalExp(OpK(op, l, r), store);
            e == if a.DivByZero? then a else if b.DivByZero? then b else Apply(op, a.v, b.v)
  {
    hide OpCode;
  }

  lemma {:induction false} OpKSim(iMem: Program, c: Config, op: Op, l: Exp, r: Exp, tmp: int, st: SymbolTable,
                                  at: int, limit: nat, store: Store) returns (n: nat, d: Config)
    requires ExpVars(OpK(op, l, r)) <= st.Keys
    requires CodeAt(iMem, at, CodeExp(OpK(op, l, r), tmp, st))
    requires Ready(c, at, st, limit, store) && c.Valid()
    requires limit + Temps(OpK(op, l, r)) <= c.reg[mp] + tmp + 1 <= DADDR_SIZE
    ensures d.Valid() && d.output == c.output
    ensures var e := OpK(op, l, r);
            EvalExp(e, store).Val? ==>
              && Run(iMem, c, n) == (d, srOKAY)
              && Ready(d, at + |CodeExp(e, tmp, st)|, st, limit, store)
              && d.reg[ac] == EvalExp(e, store).v
              && Framed(c, d, c.reg[mp] + tmp - Temps(e), c.reg[mp] + tmp)
    ensures EvalExp(OpK(op, l, r), store).DivByZero? ==> Run(iMem, c, n) == (d, srZERODIVIDE)
    decreases OpK(op, l, r), 0
  {
    hide Run, Step, CodeAt, OpCode, Ready, Framed, CodeExp, EvalExp, Temps, ExpVars;
    OpKUnfolds(op, l, r, tmp, st, store);
    var cl, cr := CodeExp(l, tmp, st), CodeExp(r, tmp - 1, st);
    var top, e := c.reg[mp] + tmp, OpK(op, l, r);
    OpKParts(iMem, at, cl, Instruction(ST, ac, tmp, mp), cr, Instruction(LD, ac1, tmp, mp), OpCode(op));
    var n1, c2 := LeftSim(iMem, c, l, tmp, st, at, limit, store);
    if EvalExp(l, store).DivByZero? {
      return n1, c2;
    }
    var n2, c3 := RightSim(iMem, c2, op, EvalExp(l, store).v, r, tmp, st, at + |cl| + 1, limit, store);
    RunOn(iMem, c, n1, c2, n2);
    n, d := n1 + n2, c3;
    if EvalExp(e, store).Val? {
      FramedTwice(c, c2, c3, top - AtLeastOne(Temps(l)), top, top - 1 - Temps(r), top, top - Temps(e), top);
    }
  }

  function AtLeastOne(n: nat): nat { if n == 0 then 1 else n }

  /** The left operand, and its value pushed. */
  lemma {:induction false} LeftSim(iMem: Program, c: Config, l: Exp, tmp: int, st: SymbolTable,
                                   at: int, limit: nat, store: Store) returns (n: nat, d: Config)
    requires ExpVars(l) <= st.Keys && 0 <= at
    requires CodeAt(iMem, at, CodeExp(l, tmp, st)) && at + |CodeExp(l, tmp, st)| < IADDR_SIZE
    requires iMem[at + |CodeExp(l, tmp, st)|] == Instruction(ST, ac, tmp, mp)
    requires Ready(c, at, st, limit, store) && c.Valid()
    requires limit + Temps(l) <= c.reg[mp] + tmp + 1 <= DADDR_SIZE && limit <= c.reg[mp] + tmp
    ensures d.Valid() && d.output == c.output
    ensures EvalExp(l, store).Val? ==>
              && Run(iMem, c, n) == (d, srOKAY)
              && Ready(d, at + |CodeExp(l, tmp, st)| + 1, st, limit, store) && d.reg[mp] == c.reg[mp]
              && 0 <= c.reg[mp] + tmp < |d.dMem| && d.dMem[c.reg[mp] + tmp] == EvalExp(l, store).v
              && Framed(c, d, c.reg[mp] + tmp - AtLeastOne(Temps(l)), c.reg[mp] + tmp)
    ensures EvalExp(l, store).DivByZero? ==> Run(iMem, c, n) == (d, srZERODIVIDE)
    decreases l, 2
  {
    hide Run, Step, CodeAt, Ready, Framed;
    var top := c.reg[mp] + tmp;
    var n1, c1 := ExpSim(iMem, c, l, tmp, st, at, limit, store);
    if EvalExp(l, store).DivByZero? {
      return n1, c1;
    }
    FramedMp(c, c1, top - Temps(l), top);
    var c2 := PushSim(iMem, c1, at + |CodeExp(l, tmp, st)|, tmp, st, limit, store);
    RunOn(iMem, c, n1, c1, 1);
    FramedTwice(c, c1, c2, top - Temps(l), top, top - 1, top, top - AtLeastOne(Temps(l)), top);
    n, d := n1 + 1, c2;
  }

  /** From the pushed left operand on: the right operand, the pop, and the operator. */
  lemma {:induction false} RightSim(iMem: Program, c: Config, op: Op, a: int, r: Exp, tmp: int, st: SymbolTable,
                                    at: int, limit: nat, store: Store) returns (n: nat, d: Config)
    requires ExpVars(r) <= st.Keys
    requires 0 <= at && CodeAt(iMem, at, CodeExp(r, tmp - 1, st)) && at + |CodeExp(r, tmp - 1, st)| < IADDR_SIZE
    requires iMem[at + |CodeExp(r, tmp - 1, st)|] == Instruction(LD, ac1, tmp, mp)
    requires CodeAt(iMem, at + |CodeExp(r, tmp - 1, st)| + 1, OpCode(op))
    requires Ready(c, at, st, limit, store) && c.Valid()
    requires limit + Temps(r) <= c.reg[mp] + tmp < DADDR_SIZE && c.dMem[c.reg[mp] + tmp] == a
    ensures d.Valid() && d.output == c.output
    ensures (EvalExp(r, store).Val? && Apply(op, a, EvalExp(r, store).v).Val?) ==>
              && Run(iMem, c, n) == (d, srOKAY)
              && Ready(d, at + |CodeExp(r, tmp - 1, st)| + 1 + |OpCode(op)|, st, limit, store)
              && d.reg[ac] == Apply(op, a, EvalExp(r, store).v).v
              && Framed(c, d, c.reg[mp] + tmp - 1 - Temps(r), c.reg[mp] + tmp)
    ensures !(EvalExp(r, store).Val? && Apply(op, a, EvalExp(r, store).v).Val?) ==>
              Run(iMem, c, n) == (d, srZERODIVIDE)
    decreases r, 2
  {
    hide Run, Step, CodeAt, OpCode, Ready, Framed;
    var cr, top := CodeExp(r, tmp - 1, st), c.reg[mp] + tmp;
    var n1, c1 := ExpSim(iMem, c, r, tmp - 1, st, at, limit, store);
    if EvalExp(r, store).DivByZero? {
      return n1, c1;
    }
    FramedMp(c, c1, top - 1 - Temps(r), top - 1);
    var c2 := PopSim(iMem, c1, at + |cr|, tmp, st, limit, store);
    RunOn(iMem, c, n1, c1, 1);
    FramedTwice(c, c1, c2, top - 1 - Temps(r), top - 1, top, top, top - 1 - Temps(r), top);
    var n2, c3 := OpSim(iMem, c2, op, at + |cr| + 1, st, limit, store);
    RunOn(iMem, c, n1 + 1, c2, n2);
    n, d := n1 + 1 + n2, c3;
    if Apply(op, a, EvalExp(r, store).v).Val? {
      FramedNarrow(c2, c3, top);
      FramedTwice(c, c2, c3, top - 1 - Temps(r), top, top, top, top - 1 - Temps(r), top);
    }
  }

  /** What the caller needs of a frame without looking inside it. */
  lemma {:induction false} FramedMp(c: Config, d: Config, low: int, high: int)
    requires Framed(c, d, low, high)
    ensures c.Valid() && d.Valid() && d.reg[mp] == c.reg[mp] && d.output == c.output
    ensures 0 <= high + 1 < DADDR_SIZE ==> d.dMem[high + 1] == c.dMem[high + 1]
  {}

  lemma {:induction false} FramedNarrow(c: Config, d: Config, top: int)
    requires Framed(c, d, 0, 0)
    ensures Framed(c, d, top, top)
  {}

  lemma {:induction false} PushSim(iMem: Program, c: Config, at: int, tmp: int, st: SymbolTable,
                                   limit: nat, store: Store) returns (d: Config)
    requires Ready(c, at, st, limit, store) && c.Valid() && 0 <= at < IADDR_SIZE
    requires iMem[at] == Instruction(ST, ac, tmp, mp)
    requires limit <= c.reg[mp] + tmp < DADDR_SIZE
    ensures Ready(d, at + 1, st, limit, store) && d.Valid() && Run(iMem, c, 1) == (d, srOKAY)
    ensures Framed(c, d, c.reg[mp] + tmp - 1, c.reg[mp] + tmp)
    ensures d.dMem[c.reg[mp] + tmp] == c.reg[ac] && d.reg[mp] == c.reg[mp] && d.output == c.output
  {
    RunOne(iMem, c);
    d := Step(iMem, c).0;
  }

  lemma {:induction false} PopSim(iMem: Program, c: Config, at: int, tmp: int, st: SymbolTable,
                                  limit: nat, store: Store) returns (d: Config)
    requires Ready(c, at, st, limit, store) && c.Valid() && 0 <= at < IADDR_SIZE
    requires iMem[at] == Instruction(LD, ac1, tmp, mp)
    requires 0 <= c.reg[mp] + tmp < DADDR_SIZE
    ensures Ready(d, at + 1, st, limit, store) && d.Valid() && Run(iMem, c, 1) == (d, srOKAY)
    ensures Framed(c, d, c.reg[mp] + tmp, c.reg[mp] + tmp)
    ensures d.reg[ac1] == c.dMem[c.reg[mp] + tmp] && d.reg[ac] == c.reg[ac] && d.output == c.output
  {
    RunOne(iMem, c);
    d := Step(iMem, c).0;
  }

  // ----- statements -----

  /** The machine stands at `at` in the same situation as the program. */
  ghost predicate Matches(c: Config, at: int, st: SymbolTable, limit: nat, w: World) {
    Ready(c, at, st, limit, w.store) && c.input == w.input && c.output == w.output
  }

  /** n steps from c take the machine to d, which is what the outcome o asks for.  A program that has not
      ended within `fuel` jumps back has kept the machine running for at least as many steps. */
  ghost predicate Follows(iMem: Program, c: Config, n: nat, d: Config, o: Outcome, fuel: nat,
                          at: int, st: SymbolTable, limit: nat)
    requires c.Valid()
  {
    match o
    case Done(w) => Run(iMem, c, n) == (d, srOKAY) && Matches(d, at, st, limit, w) && d.reg[mp] == c.reg[mp]
    case DivZero(w) => Run(iMem, c, n) == (d, srZERODIVIDE) && d.output == w.output
    case Blocked(w) => Run(iMem, c, n) == (d, srWAIT) && d.output == w.output
    case Timeout => Run(iMem, c, n).1 == srOKAY && n >= fuel
  }

  /** Some steps to e, and from there as the outcome asks: then as the outcome asks from the start. */
  lemma {:induction false} FollowsAfter(iMem: Program, c: Config, m: nat, e: Config, n: nat, d: Config, o: Outcome,
                                        fuel: nat, fuel1: nat, at: int, st: SymbolTable, limit: nat)
    requires c.Valid() && e.Valid() && Run(iMem, c, m) == (e, srOKAY) && e.reg[mp] == c.reg[mp]
    requires Follows(iMem, e, n, d, o, fuel1, at, st, limit)
    requires fuel <= fuel1 + m
    ensures Follows(iMem, c, m + n, d, o, fuel, at, st, limit)
  {
    RunOn(iMem, c, m, e, n);
  }

  lemma {:induction false} StmtsSim(iMem: Program, c: Config, ss: Stmts, st: SymbolTable, at: int, limit: nat,
                                    w: World, fuel: nat) returns (n: nat, d: Config)
    requires StmtsVars(ss) <= st.Keys
    requires c.Valid() && Matches(c, at, st, limit, w)
    requires CodeAt(iMem, at, CodeStmts(ss, 0, st))
    requires limit + StmtsTemps(ss) <= c.reg[mp] + 1 <= DADDR_SIZE
    ensures Follows(iMem, c, n, d, EvalStmts(ss, w, fuel), fuel, at + |CodeStmts(ss, 0, st)|, st, limit)
    decreases fuel, ss, 0
  {
    hide Run, Step, CodeAt, CodeStmt;
    match ss
    case Null =>
      n, d := 0, c;
      RunZero(iMem, c);
    case Node(s, rest) =>
      var code := CodeStmt(s, 0, st);
      CodeAtParts(iMem, at, code, CodeStmts(rest, 0, st));
      n, d := StmtSim(iMem, c, s, st, at, limit, w, fuel);
      var o := EvalStmt(s, w, fuel);
      if o.Done? {
        var n1, d1 := StmtsSim(iMem, d, rest, st, at + |code|, limit, o.w, fuel);
        FollowsAfter(iMem, c, n, d, n1, d1, EvalStmts(rest, o.w, fuel), fuel, fuel,
                     at + |code| + |CodeStmts(rest, 0, st)|, st, limit);
        n, d := n + n1, d1;
      }
  }

  lemma {:induction false} RunZero(iMem: Program, c: Config)
    requires c.Valid()
    ensures Run(iMem, c, 0) == (c, srOKAY)
  {}

  lemma {:induction false} StmtSim(iMem: Program, c: Config, s: Stmt, st: SymbolTable, at: int, limit: nat,
                                   w: World, fuel: nat) returns (n: nat, d: Config)
    requires StmtVars(s) <= st.Keys
    requires c.Valid() && Matches(c, at, st, limit, w)
    requires CodeAt(iMem, at, CodeStmt(s, 0, st))
    requires limit + StmtTemps(s) <= c.reg[mp] + 1 <= DADDR_SIZE
    ensures Follows(iMem, c, n, d, EvalStmt(s, w, fuel), fuel, at + |CodeStmt(s, 0, st)|, st, limit)
    decreases fuel, s, 1
  {
    hide Run, Step, CodeAt;
    match s
    case IfK(e, t, f) => n, d := IfSim(iMem, c, e, t, f, st, at, limit, w, fuel);
    case RepeatK(b, e) => n, d := RepeatSim(iMem, c, b, e, st, at, limit, w, fuel);
    case AssignK(x, e) => n, d := AssignSim(iMem, c, x, e, st, at, limit, w, fuel);
    case ReadK(x) => n, d := ReadSim(iMem, c, x, st, at, limit, w, fuel);
    case WriteK(e) => n, d := WriteSim(iMem, c, e, st, at, limit, w, fuel);
  }

  /** A conditional or unconditional jump relative to the next instruction. */
  lemma {:induction false} JumpSim(iMem: Program, c: Config, at: int, offset: int, st: SymbolTable,
                                   limit: nat, w: World) returns (d: Config)
    requires c.Valid() && Matches(c, at, st, limit, w) && 0 <= at < IADDR_SIZE
    requires iMem[at] == Instruction(JEQ, ac, offset, pc) || iMem[at] == Instruction(LDA, pc, offset, pc)
    ensures d.Valid() && Run(iMem, c, 1) == (d, srOKAY) && d.reg[mp] == c.reg[mp]
    ensures var taken := iMem[at].iop.LDA? || c.reg[ac] == 0;
            Matches(d, if taken then at + 1 + offset else at + 1, st, limit, w)
  {
    RunOne(iMem, c);
    d := Step(iMem, c).0;
  }

  lemma {:induction false} StoreVar(iMem: Program, c: Config, at: int, x: string, st: SymbolTable,
                                    limit: nat, w: World) returns (d: Config)
    requires c.Valid() && Matches(c, at, st, limit, w) && 0 <= at < IADDR_SIZE && x in st
    requires iMem[at] == Instruction(ST, ac, st[x], gp)
    ensures d.Valid() && Run(iMem, c, 1) == (d, srOKAY) && d.reg[mp] == c.reg[mp]
    ensures Matches(d, at + 1, st, limit, w.(store := w.store[x := c.reg[ac]]))
  {
    RunOne(iMem, c);
    d := Step(iMem, c).0;
  }

  lemma {:induction false} AssignSim(iMem: Program, c: Config, x: string, e: Exp, st: SymbolTable, at: int,
                                     limit: nat, w: World, fuel: nat) returns (n: nat, d: Config)
    requires x in st && ExpVars(e) <= st.Keys
    requires c.Valid() && Matches(c, at, st, limit, w)
    requires CodeAt(iMem, at, CodeStmt(AssignK(x, e), 0, st))
    requires limit + Temps(e) <= c.reg[mp] + 1 <= DADDR_SIZE
    ensures Follows(iMem, c, n, d, EvalStmt(AssignK(x, e), w, fuel), fuel,
                    at + |CodeStmt(AssignK(x, e), 0, st)|, st, limit)
  {
    hide Run, Step, Ready;
    var code := CodeExp(e, 0, st);
    CodeAtParts(iMem, at, code, [Instruction(ST, ac, st[x], gp)]);
    n, d := ExpSim(iMem, c, e, 0, st, at, limit, w.store);
    if EvalExp(e, w.store).Val? {
      assert iMem[at + |code|] == [Instruction(ST, ac, st[x], gp)][0];
      var e1 := d;
      d := StoreVar(iMem, e1, at + |code|, x, st, limit, w);
      RunOn(iMem, c, n, e1, 1);
      n := n + 1;
    }
  }

  lemma {:induction false} ReadSim(iMem: Program, c: Config, x: string, st: SymbolTable, at: int,
                                   limit: nat, w: World, fuel: nat) returns (n: nat, d: Config)
    requires x in st
    requires c.Valid() && Matches(c, at, st, limit, w)
    requires CodeAt(iMem, at, CodeStmt(ReadK(x), 0, st))
    ensures Follows(iMem, c, n, d, EvalStmt(ReadK(x), w, fuel), fuel, at + |CodeStmt(ReadK(x), 0, st)|, st, limit)
  {
    var code := CodeStmt(ReadK(x), 0, st);
    assert iMem[at] == code[0] && iMem[at + 1] == code[1];
    RunOne(iMem, c);
    n, d := 1, Step(iMem, c).0;
    if w.input != [] {
      var e1, w1 := d, w.(input := w.input[1..]);
      assert Matches(e1, at + 1, st, limit, w1);
      d := StoreVar(iMem, e1, at + 1, x, st, limit, w1);
      RunOn(iMem, c, 1, e1, 1);
      n := 2;
    }
  }

  lemma {:induction false} WriteSim(iMem: Program, c: Config, e: Exp, st: SymbolTable, at: int,
                                    limit: nat, w: World, fuel: nat) returns (n: nat, d: Config)
    requires ExpVars(e) <= st.Keys
    requires c.Valid() && Matches(c, at, st, limit, w)
    requires CodeAt(iMem, at, CodeStmt(WriteK(e), 0, st))
    requires limit + Temps(e) <= c.reg[mp] + 1 <= DADDR_SIZE
    ensures Follows(iMem, c, n, d, EvalStmt(WriteK(e), w, fuel), fuel, at + |CodeStmt(WriteK(e), 0, st)|, st, limit)
  {
    hide Run;
    var code := CodeExp(e, 0, st);
    CodeAtParts(iMem, at, code, [Instruction(OUT, ac, 0, 0)]);
    n, d := ExpSim(iMem, c, e, 0, st, at, limit, w.store);
    if EvalExp(e, w.store).Val? {
      assert iMem[at + |code|] == [Instruction(OUT, ac, 0, 0)][0];
      var e1 := d;
      RunOne(iMem, e1);
      d := Step(iMem, e1).0;
      RunOn(iMem, c, n, e1, 1);
      n := n + 1;
    }
  }

  /** A test followed by a jump when it is zero. */
  lemma {:induction false} TestSim(iMem: Program, c: Config, e: Exp, offset: int, st: SymbolTable, at: int,
                                   limit: nat, w: World) returns (n: nat, d: Config)
    requires ExpVars(e) <= st.Keys
    requires c.Valid() && Matches(c, at, st, limit, w)
    requires 0 <= at && CodeAt(iMem, at, CodeExp(e, 0, st)) && at + |CodeExp(e, 0, st)| < IADDR_SIZE
    requires iMem[at + |CodeExp(e, 0, st)|] == Instruction(JEQ, ac, offset, pc)
    requires limit + Temps(e) <= c.reg[mp] + 1 <= DADDR_SIZE
    ensures d.Valid() && d.output == c.output
    ensures EvalExp(e, w.store).DivByZero? ==> Run(iMem, c, n) == (d, srZERODIVIDE)
    ensures EvalExp(e, w.store).Val? ==>
              && n > 0 && Run(iMem, c, n) == (d, srOKAY) && d.reg[mp] == c.reg[mp]
              && var next := at + |CodeExp(e, 0, st)| + 1;
                 Matches(d, if EvalExp(e, w.store).v == 0 then next + offset else next, st, limit, w)
  {
    hide Run, Step, Ready, CodeAt;
    n, d := ExpSim(iMem, c, e, 0, st, at, limit, w.store);
    if EvalExp(e, w.store).Val? {
      var d1, n1 := d, n;
      d := JumpSim(iMem, d1, at + |CodeExp(e, 0, st)|, offset, st, limit, w);
      RunOn(iMem, c, n1, d1, 1);
      n := n1 + 1;
    }
  }

  lemma {:induction false} IfSim(iMem: Program, c: Config, e: Exp, t: Stmts, f: Stmts, st: SymbolTable, at: int,
                                 limit: nat, w: World, fuel: nat) returns (n: nat, d: Config)
    requires StmtVars(IfK(e, t, f)) <= st.Keys
    requires c.Valid() && Matches(c, at, st, limit, w)
    requires CodeAt(iMem, at, CodeStmt(IfK(e, t, f), 0, st))
    requires limit + StmtTemps(IfK(e, t, f)) <= c.reg[mp] + 1 <= DADDR_SIZE
    ensures Follows(iMem, c, n, d, EvalStmt(IfK(e, t, f), w, fuel), fuel,
                    at + |CodeStmt(IfK(e, t, f), 0, st)|, st, limit)
    decreases fuel, IfK(e, t, f), 0
  {
    hide Run, Step, Ready, CodeAt, Matches, CodeStmts, CodeExp, EvalStmt, EvalStmts, EvalExp, StmtTemps, StmtsTemps,
        Follows;
    var code, thenCode, elseCode := CodeExp(e, 0, st), CodeStmts(t, 0, st), CodeStmts(f, 0, st);
    var v, o, last := EvalExp(e, w.store), EvalStmt(IfK(e, t, f), w, fuel), at + |CodeStmt(IfK(e, t, f), 0, st)|;
    IfFacts(e, t, f, st, w, fuel);
    IfParts(iMem, at, code, Instruction(JEQ, ac, |thenCode| + 1, pc), thenCode,
            Instruction(LDA, pc, |elseCode|, pc), elseCode);
    hide CodeStmt;
    var n1, d1 := TestSim(iMem, c, e, |thenCode| + 1, st, at, limit, w);
    if v.DivByZero? {
      MatchesOutput(c, at, st, limit, w);
      FollowsDiv(iMem, c, n1, d1, w, fuel, last, st, limit);
      return n1, d1;
    }
    if v.v != 0 {
      n, d := ThenSim(iMem, d1, t, |elseCode|, st, at + |code| + 1, limit, w, fuel);
    } else {
      n, d := StmtsSim(iMem, d1, f, st, at + |code| + 1 + |thenCode| + 1, limit, w, fuel);
    }
    FollowsAfter(iMem, c, n1, d1, n, d, o, fuel, fuel, last, st, limit);
    n := n1 + n;
  }

  lemma {:induction false} IfFacts(e: Exp, t: Stmts, f: Stmts, st: SymbolTable, w: World, fuel: nat)
    requires StmtVars(IfK(e, t, f)) <= st.Keys
    ensures ExpVars(e) <= st.Keys && StmtsVars(t) <= st.Keys && StmtsVars(f) <= st.Keys
    ensures var x, y, z := CodeExp(e, 0, st), CodeStmts(t, 0, st), CodeStmts(f, 0, st);
            |CodeStmt(IfK(e, t, f), 0, st)| == |x| + 2 + |y| + |z|
    ensures EvalStmt(IfK(e, t, f), w, fuel)
            == if EvalExp(e, w.store).DivByZero? then DivZero(w)
               else if EvalExp(e, w.store).v != 0 then EvalStmts(t, w, fuel) else EvalStmts(f, w, fuel)
    ensures StmtTemps(IfK(e, t, f)) >= Temps(e) && StmtTemps(IfK(e, t, f)) >= StmtsTemps(t)
            && StmtTemps(IfK(e, t, f)) >= StmtsTemps(f)
  {}

  lemma {:induction false} FollowsDiv(iMem: Program, c: Config, n: nat, d: Config, w: World, fuel: nat, at: int,
                                      st: SymbolTable, limit: nat)
    requires c.Valid() && Run(iMem, c, n) == (d, srZERODIVIDE) && d.output == w.output
    ensures Follows(iMem, c, n, d, DivZero(w), fuel, at, st, limit)
  {}

  lemma {:induction false} MatchesOutput(c: Config, at: int, st: SymbolTable, limit: nat, w: World)
    requires Matches(c, at, st, limit, w)
    ensures c.output == w.output
  {}

  /** The then part and the jump over the else part. */
  lemma {:induction false} ThenSim(iMem: Program, c: Config, t: Stmts, offset: int, st: SymbolTable, at: int,
                                   limit: nat, w: World, fuel: nat) returns (n: nat, d: Config)
    requires StmtsVars(t) <= st.Keys
    requires c.Valid() && Matches(c, at, st, limit, w)
    requires 0 <= at && CodeAt(iMem, at, CodeStmts(t, 0, st)) && at + |CodeStmts(t, 0, st)| < IADDR_SIZE
    requires iMem[at + |CodeStmts(t, 0, st)|] == Instruction(LDA, pc, offset, pc)
    requires limit + StmtsTemps(t) <= c.reg[mp] + 1 <= DADDR_SIZE
    ensures Follows(iMem, c, n, d, EvalStmts(t, w, fuel), fuel, at + |CodeStmts(t, 0, st)| + 1 + offset, st, limit)
    decreases fuel, t, 1
  {
    hide Run, Step, Ready, CodeAt;
    n, d := StmtsSim(iMem, c, t, st, at, limit, w, fuel);
    if EvalStmts(t, w, fuel).Done? {
      var d1, n1 := d, n;
      d := JumpSim(iMem, d1, at + |CodeStmts(t, 0, st)|, offset, st, limit, EvalStmts(t, w, fuel).w);
      RunOn(iMem, c, n1, d1, 1);
      n := n1 + 1;
    }
  }

  lemma {:induction false} IfParts(iMem: Program, at: int, x: seq<Instruction>, jump: Instruction,
                                   y: seq<Instruction>, skip: Instruction, z: seq<Instruction>)
    requires CodeAt(iMem, at, x + ([jump] + y) + ([skip] + z))
    ensures 0 <= at && at + |x| + 1 + |y| + 1 + |z| <= IADDR_SIZE
    ensures CodeAt(iMem, at, x) && CodeAt(iMem, at + |x| + 1, y) && CodeAt(iMem, at + |x| + 1 + |y| + 1, z)
    ensures iMem[at + |x|] == jump && iMem[at + |x| + 1 + |y|] == skip
  {
    CodeAtParts(iMem, at, x + ([jump] + y), [skip] + z);
    CodeAtParts(iMem, at, x, [jump] + y);
    CodeAtParts(iMem, at + |x|, [jump], y);
    CodeAtParts(iMem, at + |x| + 1 + |y|, [skip], z);
    assert iMem[at + |x|] == [jump][0];
    assert iMem[at + |x| + 1 + |y|] == [skip][0];
  }

  lemma {:induction false} RepeatSim(iMem: Program, c: Config, b: Stmts, e: Exp, st: SymbolTable, at: int,
                                     limit: nat, w: World, fuel: nat) returns (n: nat, d: Config)
    requires StmtVars(RepeatK(b, e)) <= st.Keys
    requires c.Valid() && Matches(c, at, st, limit, w)
    requires CodeAt(iMem, at, CodeStmt(RepeatK(b, e), 0, st))
    requires limit + StmtTemps(RepeatK(b, e)) <= c.reg[mp] + 1 <= DADDR_SIZE
    ensures Follows(iMem, c, n, d, EvalStmt(RepeatK(b, e), w, fuel), fuel,
                    at + |CodeStmt(RepeatK(b, e), 0, st)|, st, limit)
    decreases fuel, RepeatK(b, e), 0
  {
    hide Run, Step, Ready, CodeAt, Matches;
    var body, test := CodeStmts(b, 0, st), CodeExp(e, 0, st);
    RepeatParts(iMem, at, body, test, Instruction(JEQ, ac, -(|body + test| + 1), pc));
    n, d := StmtsSim(iMem, c, b, st, at, limit, w, fuel);
    var o1 := EvalStmts(b, w, fuel);
    if o1.Done? {
      var n1, d1 := n, d;
      n, d := UntilSim(iMem, d1, b, e, st, at, limit, o1.w, fuel);
      FollowsAfter(iMem, c, n1, d1, n, d, EvalStmt(RepeatK(b, e), w, fuel), fuel, fuel,
                   at + |body| + |test| + 1, st, limit);
      n := n1 + n;
    }
  }

  /** The rest of a loop once its body has been run. */
  function Until(b: Stmts, e: Exp, w: World, fuel: nat): Outcome {
    var v := EvalExp(e, w.store);
    if v.DivByZero? then DivZero(w)
    else if v.v != 0 then Done(w)
    else if fuel == 0 then Timeout
    else EvalStmt(RepeatK(b, e), w, fuel - 1)
  }

  lemma {:induction false} UntilSim(iMem: Program, c: Config, b: Stmts, e: Exp, st: SymbolTable, at: int,
                                    limit: nat, w: World, fuel: nat) returns (n: nat, d: Config)
    requires StmtVars(RepeatK(b, e)) <= st.Keys
    requires c.Valid() && Matches(c, at + |CodeStmts(b, 0, st)|, st, limit, w)
    requires CodeAt(iMem, at, CodeStmt(RepeatK(b, e), 0, st))
    requires limit + StmtTemps(RepeatK(b, e)) <= c.reg[mp] + 1 <= DADDR_SIZE
    ensures Follows(iMem, c, n, d, Until(b, e, w, fuel), fuel,
                    at + |CodeStmts(b, 0, st)| + |CodeExp(e, 0, st)| + 1, st, limit)
    decreases fuel, RepeatK(b, e), -1
  {
    hide Run, Step, Ready, CodeAt, Matches;
    var body, test := CodeStmts(b, 0, st), CodeExp(e, 0, st);
    RepeatParts(iMem, at, body, test, Instruction(JEQ, ac, -(|body + test| + 1), pc));
    var v, o, last := EvalExp(e, w.store), Until(b, e, w, fuel), at + |body| + |test| + 1;
    UntilFacts(b, e, st, w, fuel);
    hide CodeStmt, CodeStmts, CodeExp, EvalStmt, EvalStmts, EvalExp, Until, StmtTemps, StmtsTemps;
    n, d := TestSim(iMem, c, e, -(|body + test| + 1), st, at + |body|, limit, w);
    if v.DivByZero? {
      MatchesOutput(c, at + |body|, st, limit, w);
    } else if v.v == 0 && fuel > 0 {
      var d1, n1 := d, n;
      n, d := StmtSim(iMem, d1, RepeatK(b, e), st, at, limit, w, fuel - 1);
      FollowsAfter(iMem, c, n1, d1, n, d, o, fuel, fuel - 1, last, st, limit);
      n := n1 + n;
    }
  }

  lemma {:induction false} UntilFacts(b: Stmts, e: Exp, st: SymbolTable, w: World, fuel: nat)
    requires StmtVars(RepeatK(b, e)) <= st.Keys
    ensures ExpVars(e) <= st.Keys && StmtTemps(RepeatK(b, e)) >= Temps(e)
    ensures var x, y := CodeStmts(b, 0, st), CodeExp(e, 0, st);
            |x + y| == |x| + |y| && |CodeStmt(RepeatK(b, e), 0, st)| == |x| + |y| + 1
    ensures Until(b, e, w, fuel)
            == if EvalExp(e, w.store).DivByZero? then DivZero(w)
               else if EvalExp(e, w.store).v != 0 then Done(w)
               else if fuel == 0 then Timeout
               else EvalStmt(RepeatK(b, e), w, fuel - 1)
  {}

  lemma {:induction false} RepeatParts(iMem: Program, at: int, x: seq<Instruction>, y: seq<Instruction>,
                                       back: Instruction)
    requires CodeAt(iMem, at, x + y + [back])
    ensures 0 <= at && at + |x| + |y| + 1 <= IADDR_SIZE
    ensures CodeAt(iMem, at, x) && CodeAt(iMem, at + |x|, y) && iMem[at + |x| + |y|] == back
  {
    CodeAtParts(iMem, at, x + y, [back]);
    CodeAtParts(iMem, at, x, y);
    assert iMem[at + |x + y|] == [back][0];
  }

  // ----- whole programs -----

  /** What the machine offers a program: room for its code, and room for its variables below `limit` and its
      deepest expression above. */
  ghost predicate Fits(ss: Stmts, st: SymbolTable, limit: nat) {
    && StmtsVars(ss) <= st.Keys
    && Layout(st, limit)
    && limit + StmtsTemps(ss) <= DADDR_SIZE
    && |CodeProgram(ss, st)| <= IADDR_SIZE
  }

  /** The instruction memory once the code file has been read. */
  function Executable(ss: Stmts, st: SymbolTable): (p: Program)
    requires StmtsVars(ss) <= st.Keys && |CodeProgram(ss, st)| <= IADDR_SIZE
  {
    CodeStmtsWellFormed(ss, 0, st);
    CodeProgram(ss, st) + Blank()[|CodeProgram(ss, st)|..]
  }

  function Reset(input: seq<int>): (c: Config)
    ensures c.Valid()
  {
    Config(seq(NO_REGS, _ => 0), seq(DADDR_SIZE, _ => 0)[0 := DADDR_SIZE - 1], input, [])
  }

  /** The result and final state of a stopped machine agree with how the program ended. */
  ghost predicate Agrees(c: Config, r: StepResult, o: Outcome, st: SymbolTable)
    requires c.Valid()
  {
    match o
    case Done(w) =>
      && r == srHALT && c.output == w.output && c.input == w.input
      && forall x :: x in st ==> st[x] < DADDR_SIZE && c.dMem[st[x]] == Lookup(w.store, x)
    case DivZero(w) => r == srZERODIVIDE && c.output == w.output
    case Blocked(w) => r == srWAIT && c.output == w.output
    case Timeout => r == srOKAY
  }

  lemma {:induction false} ProgramSim(ss: Stmts, st: SymbolTable, limit: nat, input: seq<int>, fuel: nat)
    returns (n: nat)
    requires Fits(ss, st, limit)
    ensures var (d, r) := Run(Executable(ss, st), Reset(input), n);
            var o := EvalStmts(ss, Start(input), fuel);
            Agrees(d, r, o, st) && (o.Timeout? ==> n >= fuel)
  {
    hide Run, CodeAt;
    var iMem, c := Executable(ss, st), Reset(input);
    var body := CodeStmts(ss, 0, st);
    var prelude := CodeProgram(ss, st)[..2];
    assert CodeProgram(ss, st) == prelude + body + [Instruction(HALT, 0, 0, 0)];
    ProgramParts(iMem, prelude, body, Instruction(HALT, 0, 0, 0));
    var c2 := PreludeSim(iMem, input, st, limit);
    var n1, d := StmtsSim(iMem, c2, ss, st, 2, limit, Start(input), fuel);
    var o := EvalStmts(ss, Start(input), fuel);
    RunOn(iMem, c, 2, c2, n1);
    n := 2 + n1;
    if o.Done? {
      RunOn(iMem, c, n, d, 1);
      RunOne(iMem, d);
      n := n + 1;
    }
  }

  lemma {:induction false} ProgramParts(iMem: Program, x: seq<Instruction>, y: seq<Instruction>, halt: Instruction)
    requires |iMem| >= |x + y + [halt]| && iMem[..|x + y + [halt]|] == x + y + [halt]
    ensures CodeAt(iMem, |x|, y) && iMem[|x| + |y|] == halt
    ensures forall k :: 0 <= k < |x| ==> iMem[k] == x[k]
  {
    var z := iMem[..|x + y + [halt]|];
    forall k | 0 <= k < |x| ensures iMem[k] == x[k] { assert z[k] == x[k]; }
    forall k | 0 <= k < |y| ensures iMem[|x| + k] == y[k] { assert z[|x| + k] == y[k]; }
    assert z[|x| + |y|] == halt;
  }

  /** The prelude moves the size of memory from cell 0 to mp and clears the cell. */
  lemma {:induction false} PreludeSim(iMem: Program, input: seq<int>, st: SymbolTable, limit: nat) returns (d: Config)
    requires iMem[0] == Instruction(LD, mp, 0, ac) && iMem[1] == Instruction(ST, ac, 0, ac)
    requires Layout(st, limit) && limit <= DADDR_SIZE
    ensures d.Valid() && Run(iMem, Reset(input), 2) == (d, srOKAY)
    ensures Matches(d, 2, st, limit, Start(input)) && d.reg[mp] == DADDR_SIZE - 1
  {
    var c := Reset(input);
    var c1 := Step(iMem, c).0;
    RunOne(iMem, c);
    d := Step(iMem, c1).0;
    RunOne(iMem, c1);
    RunOn(iMem, c, 1, c1, 1);
  }

  /** Whenever the machine has stopped and the program has ended, the two agree: same way of ending, same
      output, same variables.  In particular the machine stops with no memory fault. */
  lemma {:induction false} CompilerCorrect(ss: Stmts, st: SymbolTable, limit: nat, input: seq<int>, fuel: nat, n: nat)
    requires Fits(ss, st, limit)
    requires Run(Executable(ss, st), Reset(input), n).1 != srOKAY
    requires !EvalStmts(ss, Start(input), fuel).Timeout?
    ensures Agrees(Run(Executable(ss, st), Reset(input), n).0, Run(Executable(ss, st), Reset(input), n).1,
                   EvalStmts(ss, Start(input), fuel), st)
  {
    var m := ProgramSim(ss, st, limit, input, fuel);
    RunStops(Executable(ss, st), Reset(input), m, n);
  }

  /** The machine stops if and only if the program ends. */
  lemma {:induction false} StopsExactlyWhenProgramEnds(ss: Stmts, st: SymbolTable, limit: nat, input: seq<int>)
    requires Fits(ss, st, limit)
    ensures (exists n: nat :: Run(Executable(ss, st), Reset(input), n).1 != srOKAY)
       <==> (exists fuel: nat :: !EvalStmts(ss, Start(input), fuel).Timeout?)
  {
    var iMem, c := Executable(ss, st), Reset(input);
    if n: nat :| Run(iMem, c, n).1 != srOKAY {
      var m := ProgramSim(ss, st, limit, input, n);
      if EvalStmts(ss, Start(input), n).Timeout? {
        RunSplit(iMem, c, n, m - n);
        assert false;
      }
    }
    if fuel: nat :| !EvalStmts(ss, Start(input), fuel).Timeout? {
      var m := ProgramSim(ss, st, limit, input, fuel);
      assert Run(iMem, c, m).1 != srOKAY;
    }
  }

  /** What a machine that has run n steps tells about the program. */
  ghost predicate Explains(r: StepResult, output: seq<int>, ss: Stmts, input: seq<int>) {
    && (r == srOKAY || r == srHALT || r == srZERODIVIDE || r == srWAIT)
    && (r != srOKAY ==>
          exists fuel: nat ::
            match EvalStmts(ss, Start(input), fuel)
            case Done(w) => r == srHALT && output == w.output
            case DivZero(w) => r == srZERODIVIDE && output == w.output
            case Blocked(w) => r == srWAIT && output == w.output
            case Timeout => false)
  }

  lemma {:induction false} RunExplained(ss: Stmts, st: SymbolTable, limit: nat, input: seq<int>, n: nat)
    requires Fits(ss, st, limit)
    ensures var (d, r) := Run(Executable(ss, st), Reset(input), n); Explains(r, d.output, ss, input)
  {
    hide Run, Agrees;
    if Run(Executable(ss, st), Reset(input), n).1 != srOKAY {
      StopsExactlyWhenProgramEnds(ss, st, limit, input);
      var fuel: nat :| !EvalStmts(ss, Start(input), fuel).Timeout?;
      CompilerCorrect(ss, st, limit, input, fuel, n);
      var (d, r) := Run(Executable(ss, st), Reset(input), n);
      AgreesEnding(d, r, EvalStmts(ss, Start(input), fuel), st);
    }
  }

  lemma {:induction false} AgreesEnding(c: Config, r: StepResult, o: Outcome, st: SymbolTable)
    requires c.Valid() && Agrees(c, r, o, st)
    ensures match o
            case Done(w) => r == srHALT && c.output == w.output
            case DivZero(w) => r == srZERODIVIDE && c.output == w.output
            case Blocked(w) => r == srWAIT && c.output == w.output
            case Timeout => r == srOKAY
  {}

  /** From source to a stepped machine, through the code file. */
  method CompileAndStep(ss: Stmts, st: SymbolTable, ghost limit: nat, input: seq<int>, stepcnt: nat)
    returns (result: StepResult, output: seq<int>)
    requires Fits(ss, st, limit)
    ensures Explains(result, output, ss, input)
  {
    hide Run, Explains, Layout, LoadInto;
    var e := new Emitter();
    e.CodeGen(ss, st);
    LinesInRange(e.code, CodeProgram(ss, st));
    LoadProgram(e.code, CodeProgram(ss, st));
    assert LoadInto(Blank(), e.code) == Executable(ss, st);
    var tm := new TM(LoadInto(Blank(), e.code), input);
    result := tm.StepMany(stepcnt);
    output := tm.output;
    RunExplained(ss, st, limit, input, stepcnt);
  }
}
