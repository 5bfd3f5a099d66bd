/** The emitting utilities of code.c and the tree walk of cgen.c, which write the code file line by line,
    leave gaps for forward jumps and come back to fill them. */
module TinyEmitter {
  import opened TinyLanguage
  import opened TinyMachine

  const pc := 7
  const mp := 6
  const gp := 5
  const ac := 0
  const ac1 := 1

  /** Where the symbol table puts each variable. */
  type SymbolTable = map<string, nat>

  // ----- the code as a function of the tree -----

  function OpCode(op: Op): seq<Instruction> {
    match op
    case PLUS => [Instruction(ADD, ac, ac1, ac)]
    case MINUS => [Instruction(SUB, ac, ac1, ac)]
    case TIMES => [Instruction(MUL, ac, ac1, ac)]
    case OVER => [Instruction(DIV, ac, ac1, ac)]
    case LT => Compare(JLT)
    case EQ => Compare(JEQ)
  }

  function Compare(jump: Opcode): seq<Instruction> {
    [Instruction(SUB, ac, ac1, ac), Instruction(jump, ac, 2, pc), Instruction(LDC, ac, 0, ac),
     Instruction(LDA, pc, 1, pc), Instruction(LDC, ac, 1, ac)]
  }

  function CodeExp(e: Exp, tmp: int, st: SymbolTable): seq<Instruction>
    requires ExpVars(e) <= st.Keys
  {
    match e
    case ConstK(v) => [Instruction(LDC, ac, v, 0)]
    case IdK(x) => [Instruction(LD, ac, st[x], gp)]
    case OpK(op, l, r) =>
      CodeExp(l, tmp, st) + [Instruction(ST, ac, tmp, mp)]
      + CodeExp(r, tmp - 1, st) + [Instruction(LD, ac1, tmp, mp)] + OpCode(op)
  }

  function CodeStmt(s: Stmt, tmp: int, st: SymbolTable): seq<Instruction>
    requires StmtVars(s) <= st.Keys
  {
    match s
    case IfK(e, t, f) =>
      var thenCode, elseCode := CodeStmts(t, tmp, st), CodeStmts(f, tmp, st);
      CodeExp(e, tmp, st) + ([Instruction(JEQ, ac, |thenCode| + 1, pc)] + thenCode)
      + ([Instruction(LDA, pc, |elseCode|, pc)] + elseCode)
    case RepeatK(b, e) =>
      var body := CodeStmts(b, tmp, st) + CodeExp(e, tmp, st);
      body + [Instruction(JEQ, ac, -(|body| + 1), pc)]
    case AssignK(x, e) => CodeExp(e, tmp, st) + [Instruction(ST, ac, st[x], gp)]
    case ReadK(x) => [Instruction(IN, ac, 0, 0), Instruction(ST, ac, st[x], gp)]
    case WriteK(e) => CodeExp(e, tmp, st) + [Instruction(OUT, ac, 0, 0)]
  }

  function CodeStmts(ss: Stmts, tmp: int, st: SymbolTable): seq<Instruction>
    requires StmtsVars(ss) <= st.Keys
  {
    match ss
    case Null => []
    case Node(s, rest) => CodeStmt(s, tmp, st) + CodeStmts(rest, tmp, st)
  }

  function CodeProgram(ss: Stmts, st: SymbolTable): seq<Instruction>
    requires StmtsVars(ss) <= st.Keys
  {
    [Instruction(LD, mp, 0, ac), Instruction(ST, ac, 0, ac)] + CodeStmts(ss, 0, st) + [Instruction(HALT, 0, 0, 0)]
  }

  // ----- the code file -----

  datatype Line = Line(loc: int, instr: Instruction)

  /** The instructions written for address a, in the order of the file. */
  function LinesFor(file: seq<Line>, a: int): seq<Instruction> {
    if file == [] then []
    else (if file[0].loc == a then [file[0].instr] else []) + LinesFor(file[1..], a)
  }

  lemma {:induction false} LinesForConcat(f: seq<Line>, g: seq<Line>, a: int)
    ensures LinesFor(f + g, a) == LinesFor(f, a) + LinesFor(g, a)
  {
    if f == [] {
      assert f + g == g;
    } else {
      LinesForConcat(f[1..], g, a);
      assert (f + g)[1..] == f[1..] + g;
      Regroup(if f[0].loc == a then [f[0].instr] else [], LinesFor(f[1..], a), LinesFor(g, a));
    }
  }

  lemma {:induction false} Regroup(x: seq<Instruction>, y: seq<Instruction>, z: seq<Instruction>)
    ensures x + (y + z) == x + y + z
  {}

  /** From file f to file g, exactly one line was added for each address of [at, at + |code|), holding code,
      and none for any other address. */
  ghost predicate Grown(f: seq<Line>, g: seq<Line>, at: int, code: seq<Instruction>) {
    forall a {:trigger LinesFor(g, a)} :: LinesFor(g, a) == LinesFor(f, a) + Cell(at, code, a)
  }

  function Cell(at: int, code: seq<Instruction>, a: int): seq<Instruction> {
    if at <= a < at + |code| then [code[a - at]] else []
  }

  lemma {:induction false} GrownNot(f: seq<Line>, at: int)
    ensures Grown(f, f, at, [])
  {}

  lemma {:induction false} GrownOne(f: seq<Line>, at: int, i: Instruction)
    ensures Grown(f, f + [Line(at, i)], at, [i])
  {
    forall a ensures LinesFor(f + [Line(at, i)], a) == LinesFor(f, a) + Cell(at, [i], a) {
      LinesForConcat(f, [Line(at, i)], a);
      assert [Line(at, i)][1..] == [];
    }
  }

  lemma {:induction false} GrownTwice(f: seq<Line>, g: seq<Line>, h: seq<Line>, at: int,
                   x: seq<Instruction>, y: seq<Instruction>, xy: seq<Instruction>)
    requires Grown(f, g, at, x) && Grown(g, h, at + |x|, y) && xy == x + y
    ensures Grown(f, h, at, xy)
  {
    hide LinesFor, Cell;
    forall a ensures LinesFor(h, a) == LinesFor(f, a) + Cell(at, xy, a) {
      CellsTwice(at, x, y, a);
      LinesTwice(f, g, h, at, x, at + |x|, y, a);
    }
  }

  /** What two growths have added for one address. */
  lemma {:induction false} LinesTwice(f: seq<Line>, g: seq<Line>, h: seq<Line>, at: int, x: seq<Instruction>, on: int,
                                      y: seq<Instruction>, a: int)
    requires Grown(f, g, at, x) && Grown(g, h, on, y)
    ensures LinesFor(h, a) == LinesFor(f, a) + (Cell(at, x, a) + Cell(on, y, a))
  {
    hide LinesFor, Cell;
    assert LinesFor(h, a) == LinesFor(g, a) + Cell(on, y, a);
    assert LinesFor(g, a) == LinesFor(f, a) + Cell(at, x, a);
    hide Grown;
    Regroup(LinesFor(f, a), Cell(at, x, a), Cell(on, y, a));
  }

  lemma {:induction false} CellsTwice(at: int, x: seq<Instruction>, y: seq<Instruction>, a: int)
    ensures Cell(at, x, a) + Cell(at + |x|, y, a) == Cell(at, x + y, a)
  {}

  lemma {:induction false} CellsBack(at: int, i: Instruction, y: seq<Instruction>, a: int)
    ensures Cell(at + 1, y, a) + Cell(at, [i], a) == Cell(at, [i] + y, a)
  {}

  /** A gap of one address, filled after the code behind it. */
  lemma {:induction false} GrownBack(f: seq<Line>, g: seq<Line>, h: seq<Line>, at: int, i: Instruction,
                                     y: seq<Instruction>)
    requires Grown(f, g, at + 1, y) && Grown(g, h, at, [i])
    ensures Grown(f, h, at, [i] + y)
  {
    hide LinesFor, Cell;
    forall a ensures LinesFor(h, a) == LinesFor(f, a) + Cell(at, [i] + y, a) {
      CellsBack(at, i, y, a);
      LinesTwice(f, g, h, at + 1, y, at, [i], a);
    }
  }

  /** The code for an if statement in the two stretches between which the else part begins. */
  lemma {:induction false} IfCode(p1: Exp, p2: Stmts, p3: Stmts, tmp: int, st: SymbolTable)
    requires StmtVars(IfK(p1, p2, p3)) <= st.Keys
    ensures ExpVars(p1) <= st.Keys && StmtsVars(p2) <= st.Keys && StmtsVars(p3) <= st.Keys
    ensures var c1, c2, c3 := CodeExp(p1, tmp, st), CodeStmts(p2, tmp, st), CodeStmts(p3, tmp, st);
            CodeStmt(IfK(p1, p2, p3), tmp, st)
            == c1 + ([Instruction(JEQ, ac, |c2| + 1, pc)] + c2) + ([Instruction(LDA, pc, |c3|, pc)] + c3)
  {}

  class Emitter {
    var emitLoc: nat
    var highEmitLoc: nat
    var tmpOffset: int
    var code: seq<Line>

    constructor ()
      ensures emitLoc == 0 && highEmitLoc == 0 && tmpOffset == 0 && code == []
    {
      emitLoc, highEmitLoc, tmpOffset, code := 0, 0, 0, [];
    }

    method EmitRO(op: Opcode, r: int, s: int, t: int)
      modifies this
      ensures Grown(old(code), code, old(emitLoc), [Instruction(op, r, s, t)])
      ensures emitLoc == old(emitLoc) + 1 && tmpOffset == old(tmpOffset)
      ensures highEmitLoc == if old(highEmitLoc) < emitLoc then emitLoc else old(highEmitLoc)
    {
      GrownOne(code, emitLoc, Instruction(op, r, s, t));
      code := code + [Line(emitLoc, Instruction(op, r, s, t))];
      emitLoc := emitLoc + 1;
      if highEmitLoc < emitLoc { highEmitLoc := emitLoc; }
    }

    method EmitRM(op: Opcode, r: int, d: int, s: int)
      modifies this
      ensures Grown(old(code), code, old(emitLoc), [Instruction(op, r, d, s)])
      ensures emitLoc == old(emitLoc) + 1 && tmpOffset == old(tmpOffset)
      ensures highEmitLoc == if old(highEmitLoc) < emitLoc then emitLoc else old(highEmitLoc)
    {
      GrownOne(code, emitLoc, Instruction(op, r, d, s));
      code := code + [Line(emitLoc, Instruction(op, r, d, s))];
      emitLoc := emitLoc + 1;
      if highEmitLoc < emitLoc { highEmitLoc := emitLoc; }
    }

    method EmitSkip(howMany: nat) returns (i: nat)
      modifies this
      ensures i == old(emitLoc) && emitLoc == i + howMany
      ensures highEmitLoc == if old(highEmitLoc) < emitLoc then emitLoc else old(highEmitLoc)
      ensures code == old(code) && tmpOffset == old(tmpOffset)
    {
      i := emitLoc;
      emitLoc := emitLoc + howMany;
      if highEmitLoc < emitLoc { highEmitLoc := emitLoc; }
    }

    method EmitBackup(loc: nat)
      modifies this
      ensures emitLoc == loc && highEmitLoc == old(highEmitLoc) && code == old(code) && tmpOffset == old(tmpOffset)
    {
      emitLoc := loc;
    }

    method EmitRestore()
      modifies this
      ensures emitLoc == highEmitLoc == old(highEmitLoc) && code == old(code) && tmpOffset == old(tmpOffset)
    {
      emitLoc := highEmitLoc;
    }

    /** The operand becomes relative to the pc of the instruction after this one. */
    method EmitRMAbs(op: Opcode, r: int, a: int)
      modifies this
      ensures Grown(old(code), code, old(emitLoc), [Instruction(op, r, a - (old(emitLoc) + 1), pc)])
      ensures emitLoc == old(emitLoc) + 1 && tmpOffset == old(tmpOffset)
      ensures highEmitLoc == if old(highEmitLoc) < emitLoc then emitLoc else old(highEmitLoc)
    {
      GrownOne(code, emitLoc, Instruction(op, r, a - (emitLoc + 1), pc));
      code := code + [Line(emitLoc, Instruction(op, r, a - (emitLoc + 1), pc))];
      emitLoc := emitLoc + 1;
      if highEmitLoc < emitLoc { highEmitLoc := emitLoc; }
    }

    /** Back up to a gap, fill it with a jump, and return to the end of the code. */
    method FillGap(loc: nat, op: Opcode, r: int, a: int)
      requires loc < highEmitLoc
      modifies this
      ensures Grown(old(code), code, loc, [Instruction(op, r, a - (loc + 1), pc)])
      ensures emitLoc == highEmitLoc == old(highEmitLoc) && tmpOffset == old(tmpOffset)
    {
      EmitBackup(loc);
      EmitRMAbs(op, r, a);
      EmitRestore();
    }

    /** What every generator step owes: `target`, from the old emitLoc on. */
    twostate predicate Emitted(target: seq<Instruction>)
      reads this
    {
      && Grown(old(code), code, old(emitLoc), target)
      && emitLoc == highEmitLoc == old(emitLoc) + |target|
      && tmpOffset == old(tmpOffset)
    }

    method GenExp(e: Exp, st: SymbolTable)
      requires ExpVars(e) <= st.Keys
      requires emitLoc == highEmitLoc
      modifies this
      ensures Emitted(CodeExp(e, old(tmpOffset), st))
      decreases e
    {
      hide Grown;
      match e {
        case ConstK(v) =>
          EmitRM(LDC, ac, v, 0);
        case IdK(x) =>
          var loc := st[x];
          EmitRM(LD, ac, loc, gp);
        case OpK(op, p1, p2) =>
          ghost var at, tmp, f := emitLoc, tmpOffset, code;
          ghost var target := CodeExp(p1, tmp, st);
          GenExp(p1, st);
          ghost var g := code;
          EmitRM(ST, ac, tmpOffset, mp);
          tmpOffset := tmpOffset - 1;
          ghost var soFar := target + [Instruction(ST, ac, tmp, mp)];
          GrownTwice(f, g, code, at, target, [Instruction(ST, ac, tmp, mp)], soFar);
          target, g := soFar, code;
          GenExp(p2, st);
          soFar := target + CodeExp(p2, tmp - 1, st);
          GrownTwice(f, g, code, at, target, CodeExp(p2, tmp - 1, st), soFar);
          target, g := soFar, code;
          tmpOffset := tmpOffset + 1;
          EmitRM(LD, ac1, tmpOffset, mp);
          soFar := target + [Instruction(LD, ac1, tmp, mp)];
          GrownTwice(f, g, code, at, target, [Instruction(LD, ac1, tmp, mp)], soFar);
          target, g := soFar, code;
          GenOp(op);
          GrownTwice(f, g, code, at, target, OpCode(op), CodeExp(e, tmp, st));
      }
    }

    /** The inner switch of genExp. */
    method GenOp(op: Op)
      requires emitLoc == highEmitLoc
      modifies this
      ensures Emitted(OpCode(op))
    {
      hide Grown;
      match op {
        case PLUS => EmitRO(ADD, ac, ac1, ac);
        case MINUS => EmitRO(SUB, ac, ac1, ac);
        case TIMES => EmitRO(MUL, ac, ac1, ac);
        case OVER => EmitRO(DIV, ac, ac1, ac);
        case LT => GenCompare(JLT);
        case EQ => GenCompare(JEQ);
      }
    }

    method GenCompare(jump: Opcode)
      requires emitLoc == highEmitLoc
      modifies this
      ensures Emitted(Compare(jump))
    {
      hide Grown;
      ghost var at, f, target := emitLoc, code, Compare(jump);
      EmitRO(SUB, ac, ac1, ac);
      assert target[..1] == [target[0]];
      ghost var g := code;
      EmitRM(jump, ac, 2, pc);
      GrownTwice(f, g, code, at, target[..1], [target[1]], target[..2]);
      g := code;
      EmitRM(LDC, ac, 0, ac);
      GrownTwice(f, g, code, at, target[..2], [target[2]], target[..3]);
      g := code;
      EmitRM(LDA, pc, 1, pc);
      GrownTwice(f, g, code, at, target[..3], [target[3]], target[..4]);
      g := code;
      EmitRM(LDC, ac, 1, ac);
      GrownTwice(f, g, code, at, target[..4], [target[4]], target);
    }

    /** The IfK branch of genStmt: two gaps, each filled once the code it jumps over is in place. */
    method GenIf(p1: Exp, p2: Stmts, p3: Stmts, st: SymbolTable)
      requires StmtVars(IfK(p1, p2, p3)) <= st.Keys
      requires emitLoc == highEmitLoc
      modifies this
      ensures Emitted(CodeStmt(IfK(p1, p2, p3), old(tmpOffset), st))
      decreases IfK(p1, p2, p3), 0
    {
      hide Grown;
      ghost var at, tmp, f := emitLoc, tmpOffset, code;
      ghost var c1, c2, c3 := CodeExp(p1, tmp, st), CodeStmts(p2, tmp, st), CodeStmts(p3, tmp, st);
      IfCode(p1, p2, p3, tmp, st);
      hide CodeStmt, CodeStmts, CodeExp;
      var savedLoc2 := GenThen(p1, p2, st);
      ghost var g, x := code, c1 + ([Instruction(JEQ, ac, |c2| + 1, pc)] + c2);
      CGen(p3, st);
      ghost var h := code;
      var currentLoc := EmitSkip(0);
      FillGap(savedLoc2, LDA, pc, currentLoc);
      ghost var skip := Instruction(LDA, pc, |c3|, pc);
      GrownBack(g, h, code, savedLoc2, skip, c3);
      GrownTwice(f, g, code, at, x, [skip] + c3, x + ([skip] + c3));
    }

    /** The test and the then part of GenIf, the jump over the then part filled in, and a gap for the jump behind it. */
    method GenThen(p1: Exp, p2: Stmts, st: SymbolTable) returns (savedLoc2: int)
      requires ExpVars(p1) <= st.Keys && StmtsVars(p2) <= st.Keys
      requires emitLoc == highEmitLoc
      modifies this
      ensures var c1, c2 := CodeExp(p1, old(tmpOffset), st), CodeStmts(p2, old(tmpOffset), st);
              && Grown(old(code), code, old(emitLoc), c1 + ([Instruction(JEQ, ac, |c2| + 1, pc)] + c2))
              && savedLoc2 == old(emitLoc) + |c1| + 1 + |c2| && emitLoc == highEmitLoc == savedLoc2 + 1
      ensures tmpOffset == old(tmpOffset)
      decreases p2, 2
    {
      hide Grown, CodeStmts, CodeExp;
      ghost var at, tmp, f := emitLoc, tmpOffset, code;
      ghost var c1, c2 := CodeExp(p1, tmp, st), CodeStmts(p2, tmp, st);
      GenExp(p1, st);
      ghost var g := code;
      var savedLoc1 := EmitSkip(1);
      CGen(p2, st);
      ghost var h := code;
      savedLoc2 := EmitSkip(1);
      var currentLoc := EmitSkip(0);
      FillGap(savedLoc1, JEQ, ac, currentLoc);
      ghost var jump := Instruction(JEQ, ac, |c2| + 1, pc);
      GrownBack(g, h, code, savedLoc1, jump, c2);
      GrownTwice(f, g, code, at, c1, [jump] + c2, c1 + ([jump] + c2));
    }

    /** The RepeatK branch of genStmt. */
    method GenRepeat(p1: Stmts, p2: Exp, st: SymbolTable)
      requires StmtVars(RepeatK(p1, p2)) <= st.Keys
      requires emitLoc == highEmitLoc
      modifies this
      ensures Emitted(CodeStmt(RepeatK(p1, p2), old(tmpOffset), st))
      decreases RepeatK(p1, p2), 0
    {
      hide Grown;
      ghost var at, tmp, f := emitLoc, tmpOffset, code;
      ghost var c1, c2 := CodeStmts(p1, tmp, st), CodeExp(p2, tmp, st);
      var savedLoc1 := EmitSkip(0);
      CGen(p1, st);
      ghost var g := code;
      GenExp(p2, st);
      GrownTwice(f, g, code, at, c1, c2, c1 + c2);
      g := code;
      EmitRMAbs(JEQ, ac, savedLoc1);
      GrownTwice(f, g, code, at, c1 + c2, [Instruction(JEQ, ac, -(|c1 + c2| + 1), pc)],
                 CodeStmt(RepeatK(p1, p2), tmp, st));
    }

    method GenStmt(s: Stmt, st: SymbolTable)
      requires StmtVars(s) <= st.Keys
      requires emitLoc == highEmitLoc
      modifies this
      ensures Emitted(CodeStmt(s, old(tmpOffset), st))
      decreases s, 1
    {
      hide Grown;
      ghost var at, tmp, f := emitLoc, tmpOffset, code;
      match s {
        case IfK(p1, p2, p3) =>
          GenIf(p1, p2, p3, st);
        case RepeatK(p1, p2) =>
          GenRepeat(p1, p2, st);
        case AssignK(x, p1) =>
          GenExp(p1, st);
          ghost var g := code;
          var loc := st[x];
          EmitRM(ST, ac, loc, gp);
          GrownTwice(f, g, code, at, CodeExp(p1, tmp, st), [Instruction(ST, ac, loc, gp)],
                     CodeStmt(s, tmp, st));
        case ReadK(x) =>
          EmitRO(IN, ac, 0, 0);
          ghost var g := code;
          var loc := st[x];
          EmitRM(ST, ac, loc, gp);
          GrownTwice(f, g, code, at, [Instruction(IN, ac, 0, 0)], [Instruction(ST, ac, loc, gp)],
                     CodeStmt(s, tmp, st));
        case WriteK(p1) =>
          GenExp(p1, st);
          ghost var g := code;
          EmitRO(OUT, ac, 0, 0);
          GrownTwice(f, g, code, at, CodeExp(p1, tmp, st), [Instruction(OUT, ac, 0, 0)],
                     CodeStmt(s, tmp, st));
      }
    }

    /** cGen on a chain of statements: the node, then its sibling. */
    method CGen(ss: Stmts, st: SymbolTable)
      requires StmtsVars(ss) <= st.Keys
      requires emitLoc == highEmitLoc
      modifies this
      ensures Emitted(CodeStmts(ss, old(tmpOffset), st))
      decreases ss, 0
    {
      hide Grown;
      ghost var at, tmp, f := emitLoc, tmpOffset, code;
      match ss {
        case Null =>
          GrownNot(code, emitLoc);
        case Node(s, rest) =>
          GenStmt(s, st);
          ghost var g := code;
          CGen(rest, st);
          GrownTwice(f, g, code, at, CodeStmt(s, tmp, st), CodeStmts(rest, tmp, st),
                     CodeStmts(ss, tmp, st));
      }
    }

    /** Every address below highEmitLoc is written exactly once, gaps and all, and nothing above it. */
    method CodeGen(ss: Stmts, st: SymbolTable)
      requires StmtsVars(ss) <= st.Keys
      requires emitLoc == highEmitLoc == 0 && tmpOffset == 0 && code == []
      modifies this
      ensures highEmitLoc == |CodeProgram(ss, st)| && tmpOffset == 0
      ensures forall a :: LinesFor(code, a) == if 0 <= a < highEmitLoc then [CodeProgram(ss, st)[a]] else []
    {
      hide Grown;
      ghost var f := code;
      EmitRM(LD, mp, 0, ac);
      ghost var g := code;
      EmitRM(ST, ac, 0, ac);
      ghost var target := CodeProgram(ss, st)[..2];
      GrownTwice(f, g, code, 0, [target[0]], [target[1]], target);
      g := code;
      CGen(ss, st);
      GrownTwice(f, g, code, 0, target, CodeStmts(ss, 0, st), target + CodeStmts(ss, 0, st));
      g := code;
      EmitRO(HALT, 0, 0, 0);
      GrownTwice(f, g, code, 0, target + CodeStmts(ss, 0, st), [Instruction(HALT, 0, 0, 0)], CodeProgram(ss, st));
      GrownFromNothing(code, CodeProgram(ss, st));
    }
  }

  lemma {:induction false} GrownFromNothing(f: seq<Line>, x: seq<Instruction>)
    requires Grown([], f, 0, x)
    ensures forall a :: LinesFor(f, a) == Cell(0, x, a)
  {}
}
