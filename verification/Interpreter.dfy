/** The stack machine: its steps, its runs, and the interpreter object. */
module Interpreter {
  import opened Ordering
  import opened Bytecode
  import opened Codegen

  /**
   What a step can see and change. `allocs` counts the strings allocated so far, and `requests` lists the
   instructions handed to the database, whose calls are taken to return normally.
   */
  datatype Machine = Machine(ic: nat, flags: bv32, registers: seq<uint64>, stack: seq<uint64>, allocs: nat,
                             requests: seq<Instruction>)

  datatype Outcome = Running(m: Machine) | Halted(m: Machine) | Failed(fault: Fault, m: Machine)

  const REGISTERS: nat := 16

  function Pushed(m: Machine, v: uint64): Machine {
    m.(stack := m.stack + [v])
  }

  /** A new string is allocated and its address pushed. */
  function PushedText(m: Machine, heap: Heap): Machine {
    Pushed(m, heap(m.allocs)).(allocs := m.allocs + 1)
  }

  function Popped(m: Machine): Machine
    requires m.stack != []
  {
    m.(stack := m.stack[..|m.stack| - 1])
  }

  function TopOf(m: Machine): uint64
    requires m.stack != []
  {
    m.stack[|m.stack| - 1]
  }

  function Advanced(m: Machine): Outcome {
    Running(m.(ic := m.ic + 1))
  }

  /** How many operands a database instruction asks for, and whether the second is a number. */
  function RequestFault(inst: Instruction, wanted: nat, permission: bool): Option<Fault>
    requires 1 <= wanted <= 3
  {
    var xs := inst.operands;
    if |xs| < wanted then Some(MissingOperand)
    else if !xs[0].Str? then Some(WrongOperand)
    else if wanted > 1 && permission != xs[1].Int? then Some(WrongOperand)
    else if wanted > 1 && !permission && !xs[1].Str? then Some(WrongOperand)
    else if wanted > 2 && !xs[2].Str? then Some(WrongOperand)
    else None
  }

  function RequestStep(m: Machine, inst: Instruction, wanted: nat, permission: bool): (o: Outcome)
    requires 1 <= wanted <= 3
    ensures o.Running? ==> o.m.ic == m.ic + 1
  {
    match RequestFault(inst, wanted, permission)
    case Some(f) => Failed(f, m)
    case None => Advanced(m.(requests := m.requests + [inst]))
  }

  function SetStep(m: Machine, inst: Instruction, heap: Heap): (o: Outcome)
    ensures o.Running? ==> o.m.ic == m.ic + 1
  {
    if |inst.operands| < 2 then Failed(MissingOperand, m)
    else if !inst.operands[0].Str? || !inst.operands[1].Str? then Failed(WrongOperand, m)
    else Advanced(PushedText(PushedText(m, heap), heap))
  }

  function NotStep(m: Machine): (o: Outcome)
    ensures o.Running? ==> o.m.ic == m.ic + 1
  {
    if m.stack == [] then Failed(StackUnderflow, m) else Advanced(Pushed(Popped(m), Truth(TopOf(m) == 0)))
  }

  function ReturnStep(m: Machine): Outcome {
    if m.stack == [] then Failed(EmptyReturn, m) else Running(Popped(m).(ic := TopOf(m)))
  }

  function BinaryStep(m: Machine, op: Opcode): (o: Outcome)
    requires IsBinary(op)
    ensures o.Running? ==> o.m.ic == m.ic + 1
  {
    if m.stack == [] then Failed(StackUnderflow, m)
    else if |m.stack| == 1 then Failed(StackUnderflow, Popped(m))
    else
      var rest := Popped(Popped(m));
      match Apply(op, TopOf(Popped(m)), TopOf(m))
      case Trap(f) => Failed(f, rest)
      case Yields(v) => Advanced(Pushed(rest, v))
  }

  /** A jump target or register number. */
  function IndexOperand(inst: Instruction, limit: nat, outOfRange: Fault): Option<Fault> {
    if inst.operands == [] then Some(MissingOperand)
    else if !inst.operands[0].Int? then Some(WrongOperand)
    else if 0 <= inst.operands[0].i < limit then None else Some(outOfRange)
  }

  /** Pushing one operand, which must be of the right kind. */
  function PushOperand(m: Machine, inst: Instruction, ints: bool, texts: bool, heap: Heap): (o: Outcome)
    ensures o.Running? ==> o.m.ic == m.ic + 1
  {
    if inst.operands == [] then Failed(MissingOperand, m)
    else
      match inst.operands[0]
      case Int(i) => if ints then Advanced(Pushed(m, Wrap(i))) else Failed(WrongOperand, m)
      case Str(_) => if texts then Advanced(PushedText(m, heap)) else Failed(WrongOperand, m)
      case Double(_) => Failed(WrongOperand, m)
  }

  function JumpStep(m: Machine, inst: Instruction, size: nat): Outcome {
    match IndexOperand(inst, size, TargetOutOfRange)
    case Some(f) => Failed(f, m)
    case None =>
      var from := if inst.opcode == CALL then Pushed(m, Wrap(m.ic + 1)) else m;
      Running(from.(ic := inst.operands[0].i))
  }

  function RegisterStep(m: Machine, inst: Instruction): (o: Outcome)
    requires |m.registers| == REGISTERS
    ensures o.Running? ==> o.m.ic == m.ic + 1
  {
    match IndexOperand(inst, REGISTERS, RegisterOutOfRange)
    case Some(f) => Failed(f, m)
    case None =>
      var r := inst.operands[0].i;
      if inst.opcode == LOAD then Advanced(Pushed(m, m.registers[r]))
      else if m.stack == [] then Failed(StackUnderflow, m)
      else Advanced(Popped(m).(registers := m.registers[r := TopOf(m)]))
  }

  /** The flags with the lowest bit set. */
  function Raised(flags: bv32): bv32 {
    flags | 1
  }

  /** One step of the switch. */
  function Next(m: Machine, code: Program, heap: Heap): (o: Outcome)
    requires |m.registers| == REGISTERS
    ensures |o.m.registers| == REGISTERS
  {
    if m.ic >= |code| then Halted(m)
    else
      var inst := code[m.ic];
      match inst.opcode
      case NOP => Advanced(m)
      case HALT => Halted(m)
      case PUSH => PushOperand(m, inst, true, true, heap)
      case POP => Advanced(if m.stack == [] then m else Popped(m))
      case ADD | SUB | MUL | DIV | MOD | AND | OR | EQ | NE | LT | LE | GT | GE => BinaryStep(m, inst.opcode)
      case NOT => NotStep(m)
      case JMP | CALL => JumpStep(m, inst, |code|)
      case RET => ReturnStep(m)
      case CREATE_TABLE | DROP_TABLE | DELETE => RequestStep(m, inst, 1, false)
      case INSERT => RequestStep(m, inst, 2, false)
      case UPDATE => RequestStep(m, inst, 3, false)
      case GRANT | REVOKE => RequestStep(m, inst, 2, true)
      case SELECT | ORDER_BY | GROUP_BY => PushOperand(m, inst, false, true, heap)
      case LIMIT | OFFSET => PushOperand(m, inst, true, false, heap)
      case SET => SetStep(m, inst, heap)
      case WHERE => Advanced(m.(flags := Raised(m.flags)))
      case LOAD | STORE => RegisterStep(m, inst)
  }

  /** At most `n` steps. */
  function Run(m: Machine, code: Program, heap: Heap, n: nat): (o: Outcome)
    requires |m.registers| == REGISTERS
    ensures |o.m.registers| == REGISTERS
    decreases n
  {
    if n == 0 then Running(m)
    else
      match Next(m, code, heap)
      case Running(m') => Run(m', code, heap, n - 1)
      case Halted(_) => Next(m, code, heap)
      case Failed(_, _) => Next(m, code, heap)
  }

  /** The deepest stack among the states of a run. */
  function Peak(m: Machine, code: Program, heap: Heap, n: nat): (d: nat)
    requires |m.registers| == REGISTERS
    ensures d >= |m.stack|
    decreases n
  {
    if n == 0 || !Next(m, code, heap).Running? then |m.stack|
    else Max(|m.stack|, Peak(Next(m, code, heap).m, code, heap, n - 1))
  }

  // ---- the interpreter ----------------------------------------------------------------

  datatype Status = Continue | Stop | Threw(fault: Fault)

  function StatusOf(o: Outcome): Status {
    match o
    case Running(_) => Continue
    case Halted(_) => Stop
    case Failed(f, _) => Threw(f)
  }

  class BytecodeInterpreter {
    const heap: Heap
    var ic: nat
    var sp: nat
    var bp: nat
    var flags: bv32
    var registers: seq<uint64>
    var stack: seq<uint64>
    var allocs: nat
    var requests: seq<Instruction>

    ghost predicate Valid()
      reads this
    {
      sp == |stack| && bp == 0 && |registers| == REGISTERS
    }

    ghost function State(): Machine
      reads this
    {
      Machine(ic, flags, registers, stack, allocs, requests)
    }

    constructor (heap: Heap)
      ensures Valid() && this.heap == heap
      ensures State() == Machine(0, 0, seq(REGISTERS, _ => 0), [], 0, [])
    {
      this.heap := heap;
      ic, sp, bp, flags, stack, allocs, requests := 0, 0, 0, 0, [], 0, [];
      registers := seq(REGISTERS, _ => 0);
    }

    method Push(v: uint64)
      requires Valid()
      modifies this
      ensures Valid() && State() == Pushed(old(State()), v)
    {
      stack := stack + [v];
      sp := |stack|;
    }

    method Pop() returns (v: Option<uint64>)
      requires Valid()
      modifies this
      ensures Valid() && (v.None? <==> old(stack) == [])
      ensures State() == if v.None? then old(State()) else Popped(old(State()))
      ensures v.Some? ==> v.value == TopOf(old(State()))
    {
      if stack == [] { return None; }
      v := Some(stack[|stack| - 1]);
      stack := stack[..|stack| - 1];
      sp := |stack|;
    }

    method PushText()
      requires Valid()
      modifies this
      ensures Valid() && State() == PushedText(old(State()), heap)
    {
      Push(heap(allocs));
      allocs := allocs + 1;
    }

    /** Registers, stack, flags and counter are cleared; allocations and requests have already happened. */
    method Reset()
      requires Valid()
      modifies this
      ensures Valid() && State() == Fresh(old(allocs), old(requests))
      ensures stack == [] && ic == 0 && flags == 0 && registers == seq(16, _ => 0)
      ensures allocs == old(allocs) && requests == old(requests)
    {
      stack, ic, sp, bp, flags := [], 0, 0, 0, 0;
      registers := seq(|registers|, _ => 0);
    }

    method StepBinary(op: Opcode) returns (status: Status)
      requires Valid() && IsBinary(op)
      modifies this
      ensures Valid() && State() == BinaryStep(old(State()), op).m && status == StatusOf(BinaryStep(old(State()), op))
    {
      hide Apply, Pushed, IsBinary;
      var b := Pop();
      if b.None? { return Threw(StackUnderflow); }
      var a := Pop();
      if a.None? { return Threw(StackUnderflow); }
      match Apply(op, a.value, b.value) {
        case Trap(f) => return Threw(f);
        case Yields(v) => Push(v);
      }
      ic := ic + 1;
      return Continue;
    }

    method StepPush(inst: Instruction, ints: bool, texts: bool) returns (status: Status)
      requires Valid()
      modifies this
      ensures var o := PushOperand(old(State()), inst, ints, texts, heap);
              Valid() && State() == o.m && status == StatusOf(o)
    {
      if inst.operands == [] { return Threw(MissingOperand); }
      match inst.operands[0] {
        case Int(i) =>
          if !ints { return Threw(WrongOperand); }
          Push(Wrap(i));
        case Str(_) =>
          if !texts { return Threw(WrongOperand); }
          PushText();
        case Double(_) => return Threw(WrongOperand);
      }
      ic := ic + 1;
      return Continue;
    }

    method StepJump(inst: Instruction, size: nat) returns (status: Status)
      requires Valid()
      modifies this
      ensures var o := JumpStep(old(State()), inst, size); Valid() && State() == o.m && status == StatusOf(o)
    {
      match IndexOperand(inst, size, TargetOutOfRange) {
        case Some(f) => return Threw(f);
        case None =>
      }
      if inst.opcode == CALL { Push(Wrap(ic + 1)); }
      ic := inst.operands[0].i;
      return Continue;
    }

    method StepRegister(inst: Instruction) returns (status: Status)
      requires Valid()
      modifies this
      ensures var o := RegisterStep(old(State()), inst); Valid() && State() == o.m && status == StatusOf(o)
    {
      match IndexOperand(inst, |registers|, RegisterOutOfRange) {
        case Some(f) => return Threw(f);
        case None =>
      }
      var r := inst.operands[0].i;
      if inst.opcode == LOAD {
        Push(registers[r]);
      } else {
        var v := Pop();
        if v.None? { return Threw(StackUnderflow); }
        registers := registers[r := v.value];
      }
      ic := ic + 1;
      return Continue;
    }

    method StepRequest(inst: Instruction, wanted: nat, permission: bool) returns (status: Status)
      requires Valid() && 1 <= wanted <= 3
      modifies this
      ensures var o := RequestStep(old(State()), inst, wanted, permission); Valid() && State() == o.m && status == StatusOf(o)
    {
      match RequestFault(inst, wanted, permission) {
        case Some(f) => return Threw(f);
        case None =>
      }
      requests := requests + [inst];
      ic := ic + 1;
      return Continue;
    }

    method StepSet(inst: Instruction) returns (status: Status)
      requires Valid()
      modifies this
      ensures var o := SetStep(old(State()), inst, heap); Valid() && State() == o.m && status == StatusOf(o)
    {
      if |inst.operands| < 2 { return Threw(MissingOperand); }
      if !inst.operands[0].Str? || !inst.operands[1].Str? { return Threw(WrongOperand); }
      PushText();
      PushText();
      ic := ic + 1;
      return Continue;
    }

    method StepNot() returns (status: Status)
      requires Valid()
      modifies this
      ensures Valid() && State() == NotStep(old(State())).m && status == StatusOf(NotStep(old(State())))
    {
      var a := Pop();
      if a.None? { return Threw(StackUnderflow); }
      Push(Truth(a.value == 0));
      ic := ic + 1;
      return Continue;
    }

    method StepReturn() returns (status: Status)
      requires Valid()
      modifies this
      ensures Valid() && State() == ReturnStep(old(State())).m && status == StatusOf(ReturnStep(old(State())))
    {
      var target := Pop();
      if target.None? { return Threw(EmptyReturn); }
      ic := target.value;
      return Continue;
    }

    method Step(code: Program) returns (status: Status)
      requires Valid()
      modifies this
      ensures var o := Next(old(State()), code, heap);
              && Valid() && State() == o.m && status == StatusOf(o)
              && (status == Continue <==> o.Running?) && (status == Stop <==> o.Halted?)
              && (o.Failed? ==> status == Threw(o.fault))
    {
      hide BinaryStep, PushOperand, JumpStep, RegisterStep, RequestStep, SetStep, NotStep, ReturnStep;
      if ic >= |code| { return Stop; }
      var inst := code[ic];
      match inst.opcode {
        case NOP =>
        case HALT => return Stop;
        case PUSH => status := StepPush(inst, true, true); return;
        case POP => var _ := Pop();
        case ADD | SUB | MUL | DIV | MOD | AND | OR | EQ | NE | LT | LE | GT | GE =>
          status := StepBinary(inst.opcode); return;
        case NOT => status := StepNot(); return;
        case JMP | CALL => status := StepJump(inst, |code|); return;
        case RET => status := StepReturn(); return;
        case CREATE_TABLE | DROP_TABLE | DELETE => status := StepRequest(inst, 1, false); return;
        case INSERT => status := StepRequest(inst, 2, false); return;
        case UPDATE => status := StepRequest(inst, 3, false); return;
        case GRANT | REVOKE => status := StepRequest(inst, 2, true); return;
        case SELECT | ORDER_BY | GROUP_BY => status := StepPush(inst, false, true); return;
        case LIMIT | OFFSET => status := StepPush(inst, true, false); return;
        case SET => status := StepSet(inst); return;
        case WHERE => flags := Raised(flags);
        case LOAD | STORE => status := StepRegister(inst); return;
      }
      ic := ic + 1;
      return Continue;
    }

    /** Execute, stopped after `fuel` steps: a program that jumps need not end. */
    method Execute(code: Program, fuel: nat) returns (status: Status)
      requires Valid()
      modifies this
      ensures var o := Run(Fresh(old(allocs), old(requests)), code, heap, fuel);
              Valid() && State() == o.m && status == StatusOf(o)
    {
      hide Next;
      Reset();
      ghost var start := State();
      var left: nat := fuel;
      while left > 0
        invariant Valid() && left <= fuel && Run(start, code, heap, fuel) == Run(State(), code, heap, left)
      {
        status := Step(code);
        if status != Continue { return; }
        left := left - 1;
      }
      return Continue;
    }
  }

  /** The state a run starts from. */
  function Fresh(allocs: nat, requests: seq<Instruction>): Machine {
    Machine(0, 0, seq(REGISTERS, _ => 0), [], allocs, requests)
  }
}

/** Running emitted code computes the value of the tree. */
module CompilerCorrectness {
  import opened Ordering
  import opened Grammar
  import opened Bytecode
  import opened Codegen
  import opened Interpreter

  lemma {:induction false} RunAdd(m: Machine, code: Program, heap: Heap, a: nat, b: nat)
    requires |m.registers| == REGISTERS
    ensures var o := Run(m, code, heap, a);
            Run(m, code, heap, a + b) == if o.Running? then Run(o.m, code, heap, b) else o
    ensures var o := Run(m, code, heap, a);
            Peak(m, code, heap, a + b)
              == if o.Running? then Max(Peak(m, code, heap, a), Peak(o.m, code, heap, b)) else Peak(m, code, heap, a)
    decreases a
  {
    hide Next;
    if a > 0 && Next(m, code, heap).Running? {
      RunAdd(Next(m, code, heap).m, code, heap, a - 1, b);
    }
  }

  /** `n` steps lead from `m` to `m'` with at most `d` cells on the stack at any time. */
  ghost predicate Reaches(m: Machine, code: Program, heap: Heap, n: nat, m': Machine, d: nat) {
    |m.registers| == REGISTERS && Run(m, code, heap, n) == Running(m') && Peak(m, code, heap, n) == d
  }

  /** `n` steps from `m` throw `f`. */
  ghost predicate Throws(m: Machine, code: Program, heap: Heap, n: nat, f: Fault, d: nat) {
    && |m.registers| == REGISTERS && Run(m, code, heap, n).Failed? && Run(m, code, heap, n).fault == f
    && Peak(m, code, heap, n) <= d
  }

  lemma ReachThenReach(m: Machine, code: Program, heap: Heap, a: nat, m1: Machine, d1: nat, b: nat, m2: Machine,
                       d2: nat)
    requires Reaches(m, code, heap, a, m1, d1) && Reaches(m1, code, heap, b, m2, d2)
    ensures Reaches(m, code, heap, a + b, m2, Max(d1, d2))
  {
    hide Run, Peak;
    RunAdd(m, code, heap, a, b);
  }

  lemma ReachThenThrow(m: Machine, code: Program, heap: Heap, a: nat, m1: Machine, d1: nat, b: nat, f: Fault, d2: nat,
                       d: nat)
    requires Reaches(m, code, heap, a, m1, d1) && Throws(m1, code, heap, b, f, d2) && d1 <= d && d2 <= d
    ensures Throws(m, code, heap, a + b, f, d)
  {
    hide Run, Peak;
    RunAdd(m, code, heap, a, b);
  }

  lemma ThrowEarly(m: Machine, code: Program, heap: Heap, a: nat, b: nat, f: Fault, d: nat, d': nat)
    requires Throws(m, code, heap, a, f, d) && d <= d'
    ensures Throws(m, code, heap, a + b, f, d')
  {
    hide Run, Peak;
    RunAdd(m, code, heap, a, b);
  }

  /** The emitted code of `e` stands at the machine's counter, somewhere inside a larger program. */
  ghost predicate Placed(e: Expr, m: Machine, code: Program) {
    |m.registers| == REGISTERS && Emit(e).Some? && HasAt(code, m.ic, Emit(e).value)
  }

  predicate HasAt(code: Program, p: nat, part: Program) {
    p + |part| <= |code| && code[p..p + |part|] == part
  }

  /** The machine after `e` has been evaluated to `v`: one cell more, nothing else touched. */
  function After(e: Expr, m: Machine, v: uint64): Machine {
    m.(ic := m.ic + Size(e), stack := m.stack + [v], allocs := m.allocs + Literals(e))
  }

  /** What the run of the code of `e` must be. */
  ghost predicate Computes(e: Expr, m: Machine, code: Program, heap: Heap)
    requires Supported(e)
  {
    match Eval(e, heap, m.allocs)
    case Yields(v) => Reaches(m, code, heap, Size(e), After(e, m, v), |m.stack| + Need(e))
    case Trap(f) => Throws(m, code, heap, Size(e), f, |m.stack| + Need(e))
  }

  /**
   From any offset in any program, with any stack and registers: the code of `e` runs to its end with exactly
   the value of `e` pushed, or stops with the division fault that left-to-right evaluation meets first; it
   never underflows, and it uses exactly `Need(e)` further stack cells.
   */
  lemma {:induction false} CompilerIsCorrect(e: Expr, m: Machine, code: Program, heap: Heap)
    requires Placed(e, m, code)
    ensures Supported(e) && Computes(e, m, code, heap)
    decreases e
  {
    hide Reaches, Throws, Placed, Computes, OpcodeOf, Apply, Run, Peak, Next, Need;
    SupportedIfPlaced(e, m, code);
    if e.Lit? {
      LiteralStep(e, m, code, heap);
    } else {
      PlacedParts(e, m, code);
      CompilerIsCorrect(e.left, m, code, heap);
      match Eval(e.left, heap, m.allocs) {
        case Trap(_) => LeftTraps(e, m, code, heap);
        case Yields(a) =>
          PlacedAfter(e, m, a, code);
          CompilerIsCorrect(e.right, After(e.left, m, a), code, heap);
          match Eval(e.right, heap, m.allocs + Literals(e.left)) {
            case Trap(_) => RightTraps(e, m, After(e.left, m, a), a, code, heap);
            case Yields(b) => BothYield(e, m, After(e.left, m, a), a, b, code, heap);
          }
      }
    }
  }

  lemma {:induction false} SupportedIfPlaced(e: Expr, m: Machine, code: Program)
    requires Placed(e, m, code)
    ensures Supported(e)
  {
    EmitsOnePerNode(e);
  }

  lemma {:induction false} LeftTraps(e: Expr, m: Machine, code: Program, heap: Heap)
    requires e.Binary? && Supported(e) && Eval(e.left, heap, m.allocs).Trap? && Computes(e.left, m, code, heap)
    ensures Computes(e, m, code, heap)
  {
    hide Throws, OpcodeOf, Apply;
    ThrowEarly(m, code, heap, Size(e.left), Size(e.right) + 1, Eval(e.left, heap, m.allocs).fault,
               |m.stack| + Need(e.left), |m.stack| + Need(e));
  }

  lemma RightTraps(e: Expr, m: Machine, m1: Machine, a: uint64, code: Program, heap: Heap)
    requires e.Binary? && Supported(e) && Eval(e.left, heap, m.allocs) == Yields(a) && m1 == After(e.left, m, a)
    requires Eval(e.right, heap, m1.allocs).Trap? && Computes(e.left, m, code, heap) &&
             Computes(e.right, m1, code, heap)
    ensures Computes(e, m, code, heap)
  {
    hide Throws, Reaches, OpcodeOf, Apply;
    var f, d := Eval(e.right, heap, m1.allocs).fault, |m.stack| + Need(e);
    ThrowEarly(m1, code, heap, Size(e.right), 1, f, |m1.stack| + Need(e.right), d);
    ReachThenThrow(m, code, heap, Size(e.left), m1, |m.stack| + Need(e.left), Size(e.right) + 1, f, d, d);
  }

  lemma {:induction false} BothYield(e: Expr, m: Machine, m1: Machine, a: uint64, b: uint64, code: Program, heap: Heap)
    requires e.Binary? && Supported(e) && Placed(e, m, code)
    requires Eval(e.left, heap, m.allocs) == Yields(a) && m1 == After(e.left, m, a)
    requires Eval(e.right, heap, m1.allocs) == Yields(b)
    requires Computes(e.left, m, code, heap) && Computes(e.right, m1, code, heap)
    ensures Computes(e, m, code, heap)
  {
    hide Throws, Reaches, Placed, OpcodeOf, Apply;
    BinaryOpcodes(e.op);
    var m2, r, d := After(e.right, m1, b), Apply(OpcodeOf(e.op).value, a, b), |m.stack| + Need(e);
    ReachThenReach(m, code, heap, Size(e.left), m1, |m.stack| + Need(e.left), Size(e.right), m2, |m1.stack| + Need(e.right));
    OperatorStep(e, m, m2, a, b, code, heap);
    if r.Trap? {
      ReachThenThrow(m, code, heap, Size(e.left) + Size(e.right), m2, d, 1, r.fault, |m.stack| + 2, d);
    } else {
      ReachThenReach(m, code, heap, Size(e.left) + Size(e.right), m2, d, 1, After(e, m, r.v), |m.stack| + 2);
    }
  }

  lemma LiteralStep(e: Expr, m: Machine, code: Program, heap: Heap)
    requires e.Lit? && Placed(e, m, code)
    ensures Computes(e, m, code, heap)
  {
    assert code[m.ic] == code[m.ic..m.ic + 1][0];
    assert Next(m, code, heap) == Running(After(e, m, heap(m.allocs)));
    assert Run(m, code, heap, 1) == Run(Next(m, code, heap).m, code, heap, 0);
  }

  lemma PartsAt(code: Program, p: nat, a: Program, b: Program, x: Instruction)
    requires HasAt(code, p, a + b + [x])
    ensures HasAt(code, p, a) && HasAt(code, p + |a|, b)
    ensures p + |a| + |b| < |code| && code[p + |a| + |b|] == x
  {
    var c := a + b + [x];
    assert forall k :: 0 <= k < |c| ==> code[p + k] == code[p..p + |c|][k] == c[k];
    forall k | 0 <= k < |a| ensures code[p..p + |a|][k] == a[k] { assert c[k] == a[k]; }
    forall k | 0 <= k < |b| ensures code[p + |a|..p + |a| + |b|][k] == b[k] { assert c[|a| + k] == b[k]; }
    assert c[|a| + |b|] == x;
  }

  lemma {:induction false} PlacedParts(e: Expr, m: Machine, code: Program)
    requires e.Binary? && Placed(e, m, code)
    ensures Supported(e) && Placed(e.left, m, code)
    ensures var end := m.ic + Size(e.left) + Size(e.right);
            end < |code| && code[end] == Instruction(OpcodeOf(e.op).value, [])
  {
    hide OpcodeOf, HasAt;
    EmitsOnePerNode(e);
    EmitsOnePerNode(e.left);
    EmitsOnePerNode(e.right);
    PartsAt(code, m.ic, Emit(e.left).value, Emit(e.right).value, Instruction(OpcodeOf(e.op).value, []));
  }

  lemma PlacedAfter(e: Expr, m: Machine, a: uint64, code: Program)
    requires e.Binary? && Placed(e, m, code)
    ensures Placed(e.right, After(e.left, m, a), code)
  {
    hide OpcodeOf, HasAt;
    EmitsOnePerNode(e);
    EmitsOnePerNode(e.left);
    PartsAt(code, m.ic, Emit(e.left).value, Emit(e.right).value, Instruction(OpcodeOf(e.op).value, []));
  }

  lemma BinaryOpcodes(op: string)
    requires OpcodeOf(op).Some?
    ensures IsBinary(OpcodeOf(op).value)
  {
  }

  /** The operator at the end, once both operands are on the stack. */
  lemma {:induction false} OperatorStep(e: Expr, m: Machine, m2: Machine, a: uint64, b: uint64, code: Program,
                                        heap: Heap)
    requires e.Binary? && Supported(e) && Placed(e, m, code)
    requires m2 == After(e.right, After(e.left, m, a), b)
    ensures var r := Apply(OpcodeOf(e.op).value, a, b);
            && (r.Yields? ==> Reaches(m2, code, heap, 1, After(e, m, r.v), |m.stack| + 2))
            && (r.Trap? ==> Throws(m2, code, heap, 1, r.fault, |m.stack| + 2))
  {
    hide OpcodeOf, Apply, Run, Peak, Emit, HasAt;
    PlacedParts(e, m, code);
    BinaryOpcodes(e.op);
    OperatorNext(m, m2, a, b, code, heap, OpcodeOf(e.op).value);
  }

  lemma OperatorNext(m: Machine, m2: Machine, a: uint64, b: uint64, code: Program, heap: Heap, op: Opcode)
    requires |m2.registers| == REGISTERS && IsBinary(op) && m2.stack == m.stack + [a] + [b]
    requires m2.ic < |code| && code[m2.ic] == Instruction(op, [])
    ensures var r, o := Apply(op, a, b), Run(m2, code, heap, 1);
            && (r.Yields? ==> o == Running(m2.(stack := m.stack + [r.v], ic := m2.ic + 1)))
            && (r.Trap? ==> o.Failed? && o.fault == r.fault)
    ensures Peak(m2, code, heap, 1) == |m2.stack|
  {
    hide Apply;
    assert m2.stack[..|m2.stack| - 1] == m.stack + [a];
    assert m2.stack[..|m2.stack| - 2] == m.stack;
    assert Next(m2, code, heap) == BinaryStep(m2, op);
    if Apply(op, a, b).Yields? {
      assert Run(m2, code, heap, 1) == Run(Next(m2, code, heap).m, code, heap, 0);
    }
  }

  /** Executing the code of one tree from a fresh state halts with its value alone on the stack. */
  lemma ExecuteComputes(e: Expr, heap: Heap, allocs: nat, requests: seq<Instruction>, fuel: nat)
    requires Emit(e).Some? && fuel > Size(e)
    ensures Supported(e)
    ensures var start := Fresh(allocs, requests);
            var o := Run(start, Emit(e).value, heap, fuel);
            var r := Eval(e, heap, allocs);
            && (r.Yields? ==> o == Halted(After(e, start, r.v)) && o.m.stack == [r.v])
            && (r.Trap? ==> o.Failed? && o.fault == r.fault)
  {
    hide Next, Apply, OpcodeOf;
    var code, start := Emit(e).value, Fresh(allocs, requests);
    EmitsOnePerNode(e);
    assert code[0..|code|] == code;
    CompilerIsCorrect(e, start, code, heap);
    RunAdd(start, code, heap, Size(e), fuel - Size(e));
    if Eval(e, heap, allocs).Yields? {
      PastTheEnd(After(e, start, Eval(e, heap, allocs).v), code, heap, fuel - Size(e));
    }
  }

  lemma PastTheEnd(m: Machine, code: Program, heap: Heap, n: nat)
    requires |m.registers| == REGISTERS && m.ic >= |code| && n > 0
    ensures Run(m, code, heap, n) == Halted(m)
  {
  }

  // ---- termination --------------------------------------------------------------------

  predicate IsJump(op: Opcode) {
    op == JMP || op == CALL || op == RET
  }

  lemma NextAdvances(m: Machine, code: Program, heap: Heap)
    requires |m.registers| == REGISTERS && m.ic < |code| && !IsJump(code[m.ic].opcode) && Next(m, code, heap).Running?
    ensures Next(m, code, heap).m.ic == m.ic + 1
  {
    hide Apply, BinaryStep, PushOperand, JumpStep, RegisterStep, RequestStep, SetStep, NotStep, ReturnStep;
    match code[m.ic].opcode {
      case ADD | SUB | MUL | DIV | MOD | AND | OR | EQ | NE | LT | LE | GT | GE =>
      case SELECT | ORDER_BY | GROUP_BY | LIMIT | OFFSET | PUSH =>
      case CREATE_TABLE | DROP_TABLE | DELETE | INSERT | UPDATE | GRANT | REVOKE =>
      case _ =>
    }
  }

  /** Without jumps the machine stops within one step more than the instructions left. */
  lemma {:induction false} StraightLineStops(m: Machine, code: Program, heap: Heap, n: nat)
    requires |m.registers| == REGISTERS && n > |code| - m.ic && n > 0
    requires forall i <- code :: !IsJump(i.opcode)
    ensures !Run(m, code, heap, n).Running?
    decreases n
  {
    hide Next;
    if m.ic >= |code| {
      PastTheEnd(m, code, heap, n);
    } else if Next(m, code, heap).Running? {
      NextAdvances(m, code, heap);
      StraightLineStops(Next(m, code, heap).m, code, heap, n - 1);
    }
  }
}
