/** The TM machine of tm.c: instructions, the step relation, and runs. */
module TinyMachine {
  import opened TinyLanguage

  const IADDR_SIZE := 1024
  const DADDR_SIZE := 1024
  const NO_REGS := 8
  const PC_REG := 7

  datatype Opcode =
    | HALT | IN | OUT | ADD | SUB | MUL | DIV
    | LD | ST
    | LDA | LDC | JLT | JLE | JGT | JGE | JEQ | JNE

  datatype OpClass = RR | RM | RA

  function ClassOf(op: Opcode): OpClass {
    match op
    case HALT | IN | OUT | ADD | SUB | MUL | DIV => RR
    case LD | ST => RM
    case LDA | LDC | JLT | JLE | JGT | JGE | JEQ | JNE => RA
  }

  datatype Instruction = Instruction(iop: Opcode, iarg1: int, iarg2: int, iarg3: int) {
    /** What readInstructions checks before it stores an instruction. */
    predicate WellFormed() {
      && 0 <= iarg1 < NO_REGS
      && 0 <= iarg3 < NO_REGS
      && (ClassOf(iop).RR? ==> 0 <= iarg2 < NO_REGS)
    }
  }

  /** srUNDEFINED is the one address past the end of an array that stepTM's bounds checks let through;
      srWAIT is an IN instruction whose input is exhausted. */
  datatype StepResult = srOKAY | srHALT | srIMEM_ERR | srDMEM_ERR | srZERODIVIDE | srUNDEFINED | srWAIT

  type Program = p: seq<Instruction> | |p| == IADDR_SIZE && (forall i :: 0 <= i < |p| ==> p[i].WellFormed())
    witness seq(IADDR_SIZE, _ => Instruction(HALT, 0, 0, 0))

  datatype Config = Config(reg: seq<int>, dMem: seq<int>, input: seq<int>, output: seq<int>) {
    predicate Valid() {
      |reg| == NO_REGS && |dMem| == DADDR_SIZE
    }
  }

  function Jump(c: Config, taken: bool, m: int): Config
    requires c.Valid()
  {
    if taken then c.(reg := c.reg[PC_REG := m]) else c
  }

  /** One instruction, as a function of the whole machine state. */
  function Step(iMem: Program, c: Config): (res: (Config, StepResult))
    requires c.Valid()
    ensures res.0.Valid()
  {
    var pc := c.reg[PC_REG];
    if pc < 0 || pc > IADDR_SIZE then (c, srIMEM_ERR)
    else if pc == IADDR_SIZE then (c, srUNDEFINED)
    else
      var i := iMem[pc];
      var c := c.(reg := c.reg[PC_REG := pc + 1]);
      var r, s := i.iarg1, i.iarg3;
      var m := i.iarg2 + c.reg[s];
      if ClassOf(i.iop).RM? && (m < 0 || m > DADDR_SIZE) then (c, srDMEM_ERR)
      else if ClassOf(i.iop).RM? && m == DADDR_SIZE then (c, srUNDEFINED)
      else
        match i.iop
        case HALT => (c, srHALT)
        case IN => if c.input == [] then (c, srWAIT)
                   else (c.(reg := c.reg[r := c.input[0]], input := c.input[1..]), srOKAY)
        case OUT => (c.(output := c.output + [c.reg[r]]), srOKAY)
        case ADD => (c.(reg := c.reg[r := c.reg[i.iarg2] + c.reg[i.iarg3]]), srOKAY)
        case SUB => (c.(reg := c.reg[r := c.reg[i.iarg2] - c.reg[i.iarg3]]), srOKAY)
        case MUL => (c.(reg := c.reg[r := c.reg[i.iarg2] * c.reg[i.iarg3]]), srOKAY)
        case DIV => if c.reg[i.iarg3] != 0
                    then (c.(reg := c.reg[r := Quot(c.reg[i.iarg2], c.reg[i.iarg3])]), srOKAY)
                    else (c, srZERODIVIDE)
        case LD => (c.(reg := c.reg[r := c.dMem[m]]), srOKAY)
        case ST => (c.(dMem := c.dMem[m := c.reg[r]]), srOKAY)
        case LDA => (c.(reg := c.reg[r := m]), srOKAY)
        case LDC => (c.(reg := c.reg[r := i.iarg2]), srOKAY)
        case JLT => (Jump(c, c.reg[r] < 0, m), srOKAY)
        case JLE => (Jump(c, c.reg[r] <= 0, m), srOKAY)
        case JGT => (Jump(c, c.reg[r] > 0, m), srOKAY)
        case JGE => (Jump(c, c.reg[r] >= 0, m), srOKAY)
        case JEQ => (Jump(c, c.reg[r] == 0, m), srOKAY)
        case JNE => (Jump(c, c.reg[r] != 0, m), srOKAY)
  }

  // ----- runs -----

  /** At most n steps, stopping at the first that is not srOKAY. */
  function Run(iMem: Program, c: Config, n: nat): (res: (Config, StepResult))
    requires c.Valid()
    ensures res.0.Valid()
    decreases n
  {
    if n == 0 then (c, srOKAY)
    else
      var (c1, r) := Step(iMem, c);
      if r != srOKAY then (c1, r) else Run(iMem, c1, n - 1)
  }

  /** The machine itself: stepTM works on its arrays in place and does exactly what Step says. */
  class TM {
    const iMem: array<Instruction>
    const dMem: array<int>
    const reg: array<int>
    var input: seq<int>
    var output: seq<int>

    ghost predicate Valid()
      reads this, iMem, dMem, reg
    {
      && reg.Length == NO_REGS && dMem.Length == DADDR_SIZE && iMem.Length == IADDR_SIZE
      && reg != dMem
      && forall i :: 0 <= i < IADDR_SIZE ==> iMem[i].WellFormed()
    }

    ghost function State(): (c: Config)
      reads this, dMem, reg
    {
      Config(reg[..], dMem[..], input, output)
    }

    ghost function Loaded(): (p: Program)
      requires Valid()
      reads this, iMem, dMem, reg
    {
      iMem[..]
    }

    /** The 'c'(lear) command: registers and memory back to their initial values. */
    constructor (program: Program, input: seq<int>)
      ensures Valid() && Loaded() == program && fresh(dMem) && fresh(reg)
      ensures State() == Config(seq(NO_REGS, _ => 0), seq(DADDR_SIZE, _ => 0)[0 := DADDR_SIZE - 1], input, [])
    {
      iMem := new Instruction[IADDR_SIZE](i requires 0 <= i < IADDR_SIZE => program[i]);
      dMem := new int[DADDR_SIZE](i => if i == 0 then DADDR_SIZE - 1 else 0);
      reg := new int[NO_REGS](_ => 0);
      this.input := input;
      output := [];
      new;
      assert iMem[..] == program;
      assert dMem[..] == seq(DADDR_SIZE, _ => 0)[0 := DADDR_SIZE - 1];
      assert reg[..] == seq(NO_REGS, _ => 0);
    }

    method StepTM() returns (result: StepResult)
      requires Valid()
      modifies this, dMem, reg
      ensures Valid() && Loaded() == old(Loaded())
      ensures (State(), result) == Step(Loaded(), old(State()))
    {
      ghost var c0 := State();
      var pc := reg[PC_REG];
      if pc < 0 || pc > IADDR_SIZE {
        return srIMEM_ERR;
      }
      if pc == IADDR_SIZE {
        return srUNDEFINED;
      }
      reg[PC_REG] := pc + 1;
      ghost var c1 := c0.(reg := c0.reg[PC_REG := pc + 1]);
      assert State() == c1;
      var i := iMem[pc];
      var r, s, t, m := i.iarg1, i.iarg2, i.iarg3, i.iarg2 + reg[i.iarg3];
      if ClassOf(i.iop).RM? {
        if m < 0 || m > DADDR_SIZE {
          return srDMEM_ERR;
        }
        if m == DADDR_SIZE {
          return srUNDEFINED;
        }
      }
      result := srOKAY;
      match i.iop {
        case HALT => result := srHALT;
        case IN =>
          if input == [] {
            result := srWAIT;
          } else {
            reg[r] := input[0];
            input := input[1..];
          }
        case OUT => output := output + [reg[r]];
        case ADD => reg[r] := reg[s] + reg[t];
        case SUB => reg[r] := reg[s] - reg[t];
        case MUL => reg[r] := reg[s] * reg[t];
        case DIV =>
          if reg[t] != 0 {
            reg[r] := Quot(reg[s], reg[t]);
          } else {
            result := srZERODIVIDE;
          }
        case LD => reg[r] := dMem[m];
        case ST => dMem[m] := reg[r];
        case LDA => reg[r] := m;
        case LDC => reg[r] := i.iarg2;
        case JLT => if reg[r] < 0 { reg[PC_REG] := m; }
        case JLE => if reg[r] <= 0 { reg[PC_REG] := m; }
        case JGT => if reg[r] > 0 { reg[PC_REG] := m; }
        case JGE => if reg[r] >= 0 { reg[PC_REG] := m; }
        case JEQ => if reg[r] == 0 { reg[PC_REG] := m; }
        case JNE => if reg[r] != 0 { reg[PC_REG] := m; }
      }
    }

    /** The 's'(tep) command: stepcnt instructions, fewer when the machine stops. */
    method StepMany(stepcnt: nat) returns (result: StepResult)
      requires Valid()
      modifies this, dMem, reg
      ensures Valid() && Loaded() == old(Loaded())
      ensures (State(), result) == Run(Loaded(), old(State()), stepcnt)
    {
      hide Step;
      result := srOKAY;
      var left := stepcnt;
      while left > 0 && result == srOKAY
        invariant Valid() && Loaded() == old(Loaded())
        invariant Run(Loaded(), old(State()), stepcnt)
               == if result == srOKAY then Run(Loaded(), State(), left) else (State(), result)
      {
        result := StepTM();
        left := left - 1;
      }
    }
  }

  lemma {:induction false} RunSplit(iMem: Program, c: Config, m: nat, n: nat)
    requires c.Valid()
    ensures Run(iMem, c, m + n) ==
            if Run(iMem, c, m).1 == srOKAY then Run(iMem, Run(iMem, c, m).0, n) else Run(iMem, c, m)
    decreases m
  {
    if m > 0 {
      var (c1, r) := Step(iMem, c);
      if r == srOKAY {
        RunSplit(iMem, c1, m - 1, n);
      }
    }
  }

  /** Once stopped, a run stays stopped with the same result and state. */
  lemma {:induction false} RunStops(iMem: Program, c: Config, m: nat, n: nat)
    requires c.Valid()
    requires Run(iMem, c, m).1 != srOKAY && Run(iMem, c, n).1 != srOKAY
    ensures Run(iMem, c, m) == Run(iMem, c, n)
  {
    if m <= n {
      RunSplit(iMem, c, m, n - m);
    } else {
      RunSplit(iMem, c, n, m - n);
    }
  }
}
