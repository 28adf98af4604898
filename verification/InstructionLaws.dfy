/** What each instruction does to the machine, and what compiled operators compute, told by name. */
module InstructionLaws {
  import opened Ordering
  import opened Grammar
  import opened Bytecode
  import opened Codegen
  import opened Interpreter
  import opened CompilerCorrectness

  // ---- instructions -------------------------------------------------------------------

  /** The instruction about to be executed. */
  ghost predicate AtInstruction(m: Machine, code: Program, inst: Instruction) {
    |m.registers| == 16 && m.ic < |code| && code[m.ic] == inst
  }

  /** Two words are popped and the operation's result pushed. */
  lemma BinaryNext(m: Machine, code: Program, heap: Heap, inst: Instruction, rest: seq<uint64>, a: uint64, b: uint64)
    requires AtInstruction(m, code, inst) && m.stack == rest + [a, b] && IsBinary(inst.opcode)
    ensures Next(m, code, heap)
         == match Apply(inst.opcode, a, b)
            case Trap(f) => Failed(f, m.(stack := rest))
            case Yields(v) => Running(m.(ic := m.ic + 1, stack := rest + [v]))
  {
    hide Apply;
    assert Next(m, code, heap) == BinaryStep(m, inst.opcode);
    assert m.stack[..|m.stack| - 1] == rest + [a] && m.stack[..|m.stack| - 1][..|m.stack| - 2] == rest;
  }

  /** The results of two popped words, the lower one being `a`. */
  lemma BinaryResults(m: Machine, code: Program, heap: Heap, inst: Instruction, rest: seq<uint64>, a: uint64, b: uint64)
    requires AtInstruction(m, code, inst) && m.stack == rest + [a, b]
    ensures var o, done := Next(m, code, heap), (v: uint64) => Running(m.(ic := m.ic + 1, stack := rest + [v]));
            && (inst.opcode == ADD ==> o == done((a + b) % TWO_TO_THE_64))
            && (inst.opcode == SUB ==> o == done((a - b) % TWO_TO_THE_64))
            && (inst.opcode == MUL ==> o == done((a * b) % TWO_TO_THE_64))
            && (inst.opcode == DIV ==> o == if b == 0 then Failed(DivByZero, m.(stack := rest)) else done(a / b))
            && (inst.opcode == MOD ==> o == if b == 0 then Failed(ModByZero, m.(stack := rest)) else done(a % b))
            && (inst.opcode == AND ==> o == done(if a != 0 && b != 0 then 1 else 0))
            && (inst.opcode == OR ==> o == done(if a != 0 || b != 0 then 1 else 0))
  {
    hide Next;
    if IsBinary(inst.opcode) { BinaryNext(m, code, heap, inst, rest, a, b); }
  }

  lemma ComparisonResults(m: Machine, code: Program, heap: Heap, inst: Instruction, rest: seq<uint64>, a: uint64,
                          b: uint64)
    requires AtInstruction(m, code, inst) && m.stack == rest + [a, b]
    ensures var o, done := Next(m, code, heap), (c: bool) => Running(m.(ic := m.ic + 1, stack := rest + [if c then 1 else 0]));
            && (inst.opcode == EQ ==> o == done(a == b)) && (inst.opcode == NE ==> o == done(a != b))
            && (inst.opcode == LT ==> o == done(a < b)) && (inst.opcode == LE ==> o == done(a <= b))
            && (inst.opcode == GT ==> o == done(a > b)) && (inst.opcode == GE ==> o == done(a >= b))
  {
    hide Next;
    if IsBinary(inst.opcode) { BinaryNext(m, code, heap, inst, rest, a, b); }
  }

  /** With fewer than two words a binary operator takes what there is and throws. */
  lemma BinaryUnderflow(m: Machine, code: Program, heap: Heap, inst: Instruction)
    requires AtInstruction(m, code, inst) && |m.stack| < 2
    requires inst.opcode in {ADD, SUB, MUL, DIV, MOD, AND, OR, EQ, NE, LT, LE, GT, GE}
    ensures Next(m, code, heap) == Failed(StackUnderflow, m.(stack := []))
  {
    if |m.stack| == 1 { assert m.stack[..0] == []; }
  }

  /** POP does not mind an empty stack; NOT does. */
  lemma PopEffects(m: Machine, code: Program, heap: Heap, inst: Instruction, rest: seq<uint64>, a: uint64)
    requires AtInstruction(m, code, inst) && inst.opcode in {POP, NOT} && (m.stack == [] || m.stack == rest + [a])
    ensures var o, next := Next(m, code, heap), m.(ic := m.ic + 1);
            if inst.opcode == POP then o == Running(next.(stack := if m.stack == [] then [] else rest))
            else if m.stack == [] then o == Failed(StackUnderflow, m)
            else o == Running(next.(stack := rest + [if a == 0 then 1 else 0]))
  {
    if m.stack != [] { assert m.stack[..|m.stack| - 1] == rest; }
  }

  /** NOP only advances. */
  lemma NopEffect(m: Machine, code: Program, heap: Heap, inst: Instruction)
    requires AtInstruction(m, code, inst) && inst.opcode == NOP
    ensures Next(m, code, heap) == Running(m.(ic := m.ic + 1))
  {
  }

  /** WHERE raises the lowest flag. */
  lemma WhereEffect(m: Machine, code: Program, heap: Heap, inst: Instruction)
    requires AtInstruction(m, code, inst) && inst.opcode == WHERE
    ensures Raised(m.flags) == m.flags | 1
    ensures Next(m, code, heap) == Running(m.(ic := m.ic + 1, flags := Raised(m.flags)))
  {
    assert Raised(m.flags) == m.flags | 1;
    hide Raised;
  }

  /** Operands that become words: a number modulo 2^64, or the address of a new string. */
  lemma OperandEffects(m: Machine, code: Program, heap: Heap, inst: Instruction)
    requires AtInstruction(m, code, inst)
    requires inst.opcode in {PUSH, SELECT, ORDER_BY, GROUP_BY, LIMIT, OFFSET}
    ensures var o, xs := Next(m, code, heap), inst.operands;
            && (xs == [] ==> o == Failed(MissingOperand, m))
            && (xs != [] && xs[0].Int? ==>
                  o == if inst.opcode in {PUSH, LIMIT, OFFSET}
                       then Running(m.(ic := m.ic + 1, stack := m.stack + [xs[0].i % TWO_TO_THE_64]))
                       else Failed(WrongOperand, m))
            && (xs != [] && xs[0].Str? ==>
                  o == if inst.opcode in {PUSH, SELECT, ORDER_BY, GROUP_BY}
                       then Running(m.(ic := m.ic + 1, stack := m.stack + [heap(m.allocs)], allocs := m.allocs + 1))
                       else Failed(WrongOperand, m))
            && (xs != [] && xs[0].Double? ==> o == Failed(WrongOperand, m))
  {
  }

  /** SET pushes two new strings. */
  lemma SetEffect(m: Machine, code: Program, heap: Heap, inst: Instruction)
    requires AtInstruction(m, code, inst) && inst.opcode == SET
    ensures var o, xs := Next(m, code, heap), inst.operands;
            o == if |xs| < 2 then Failed(MissingOperand, m)
                 else if !xs[0].Str? || !xs[1].Str? then Failed(WrongOperand, m)
                 else Running(m.(ic := m.ic + 1, stack := m.stack + [heap(m.allocs), heap(m.allocs + 1)],
                                 allocs := m.allocs + 2))
  {
    assert m.stack + [heap(m.allocs)] + [heap(m.allocs + 1)] == m.stack + [heap(m.allocs), heap(m.allocs + 1)];
  }

  /** A jump goes to its target, a call pushes where to return to, and both insist on a target inside the program. */
  lemma JumpEffects(m: Machine, code: Program, heap: Heap, inst: Instruction, target: int64)
    requires AtInstruction(m, code, inst) && inst.opcode in {JMP, CALL} && inst.operands == [Int(target)]
    ensures Next(m, code, heap)
         == if !(0 <= target < |code|) then Failed(TargetOutOfRange, m)
            else if inst.opcode == JMP then Running(m.(ic := target))
            else Running(m.(ic := target, stack := m.stack + [(m.ic + 1) % TWO_TO_THE_64]))
  {
  }

  lemma ReturnEffect(m: Machine, code: Program, heap: Heap, inst: Instruction, rest: seq<uint64>, a: uint64)
    requires AtInstruction(m, code, inst) && inst.opcode == RET && (m.stack == [] || m.stack == rest + [a])
    ensures Next(m, code, heap) == if m.stack == [] then Failed(EmptyReturn, m) else Running(m.(ic := a, stack := rest))
  {
    if m.stack != [] { assert m.stack[..|m.stack| - 1] == rest; }
  }

  /** The two ways to stop. */
  lemma Stops(m: Machine, code: Program, heap: Heap)
    requires |m.registers| == 16 && (m.ic >= |code| || code[m.ic].opcode == HALT)
    ensures Next(m, code, heap) == Halted(m)
  {
  }

  /** LOAD copies a register, STORE pops into one. */
  lemma RegisterEffects(m: Machine, code: Program, heap: Heap, inst: Instruction, rest: seq<uint64>, a: uint64, r: int64)
    requires AtInstruction(m, code, inst) && inst.operands == [Int(r)] && inst.opcode in {LOAD, STORE}
    ensures var o := Next(m, code, heap);
            if !(0 <= r < 16) then o == Failed(RegisterOutOfRange, m)
            else if inst.opcode == LOAD then o == Running(m.(ic := m.ic + 1, stack := m.stack + [m.registers[r]]))
            else
              && (m.stack == [] ==> o == Failed(StackUnderflow, m))
              && (m.stack == rest + [a] ==>
                    o == Running(m.(ic := m.ic + 1, stack := rest, registers := m.registers[r := a])))
  {
    if m.stack == rest + [a] { assert m.stack[..|m.stack| - 1] == rest; }
  }

  /** The operands a database instruction must have. */
  predicate RequestOperands(inst: Instruction) {
    var xs := inst.operands;
    && |xs| >= 1 && xs[0].Str?
    && (inst.opcode in {INSERT, UPDATE} ==> |xs| >= 2 && xs[1].Str?)
    && (inst.opcode == UPDATE ==> |xs| >= 3 && xs[2].Str?)
    && (inst.opcode in {GRANT, REVOKE} ==> |xs| >= 2 && xs[1].Int?)
  }

  /** A database instruction hands itself to the database exactly if its operands are right, and touches nothing else. */
  lemma RequestEffects(m: Machine, code: Program, heap: Heap, inst: Instruction)
    requires AtInstruction(m, code, inst)
    requires inst.opcode in {CREATE_TABLE, DROP_TABLE, DELETE, INSERT, UPDATE, GRANT, REVOKE}
    ensures var o := Next(m, code, heap);
            if RequestOperands(inst) then o == Running(m.(ic := m.ic + 1, requests := m.requests + [inst]))
            else o.Failed? && o.m == m && o.fault in {MissingOperand, WrongOperand}
  {
  }

  /** A run of no step and of one step; longer ones are put together by RunAdd. */
  lemma FirstSteps(m: Machine, code: Program, heap: Heap)
    requires |m.registers| == 16
    ensures Run(m, code, heap, 0) == Running(m) && Run(m, code, heap, 1) == Next(m, code, heap)
  {
    hide Next;
    if Next(m, code, heap).Running? {
      assert Run(Next(m, code, heap).m, code, heap, 0) == Next(m, code, heap);
    }
  }

  // ---- operators ----------------------------------------------------------------------

  /** Code is emitted for a literal, and for these operators between operands that have code. */
  lemma EmitsFor(l: Expr, op: string, r: Expr, text: string)
    ensures Emit(Lit(text)) == Some([Instruction(PUSH, [Str(text)])])
    ensures Emit(Binary(l, op, r)).Some?
       <==> && Emit(l).Some? && Emit(r).Some?
            && op in {"+", "-", "*", "/", "%", "==", "=", "!=", "<", "<=", ">", ">="}
    ensures Emit(Binary(l, op, r)).Some? ==>
              var code := Emit(Binary(l, op, r)).value;
              |code| > 0 && code[..|code| - 1] == Emit(l).value + Emit(r).value && code[|code| - 1].operands == []
  {
  }

  /** The word a finished run leaves alone on the stack. */
  predicate Leaves(o: Outcome, v: int) {
    o.Halted? && |o.m.stack| == 1 && o.m.stack[0] == v
  }

  /** A literal run leaves the address of its string. */
  lemma LiteralComputes(text: string, heap: Heap, allocs: nat, fuel: nat)
    requires fuel > 1
    ensures Emit(Lit(text)).Some? && Leaves(Run(Fresh(allocs, []), Emit(Lit(text)).value, heap, fuel), heap(allocs))
  {
    ExecuteComputes(Lit(text), heap, allocs, [], fuel);
  }

  lemma OperatorValues(op: string, a: uint64, b: uint64)
    requires OpcodeOf(op).Some?
    ensures IsBinary(OpcodeOf(op).value)
    ensures var v := Apply(OpcodeOf(op).value, a, b);
            && (op == "+" ==> v == Yields((a + b) % TWO_TO_THE_64))
            && (op == "-" ==> v == Yields((a - b) % TWO_TO_THE_64))
            && (op == "*" ==> v == Yields((a * b) % TWO_TO_THE_64))
            && (op == "/" ==> v == if b == 0 then Trap(DivByZero) else Yields(a / b))
            && (op == "%" ==> v == if b == 0 then Trap(ModByZero) else Yields(a % b))
            && (op == "=" || op == "==" ==> v == Yields(if a == b then 1 else 0))
            && (op == "!=" ==> v == Yields(if a != b then 1 else 0))
            && (op == "<" ==> v == Yields(if a < b then 1 else 0))
            && (op == "<=" ==> v == Yields(if a <= b then 1 else 0))
            && (op == ">" ==> v == Yields(if a > b then 1 else 0))
            && (op == ">=" ==> v == Yields(if a >= b then 1 else 0))
  {
  }

  /**
   What the code of an operator computes from operands that yield `a` and `b`, operator by operator: arithmetic modulo
   2^64, faults for zero divisors, and 1 or 0 for comparisons.
   */
  lemma {:induction false} OperatorsCompute(l: Expr, op: string, r: Expr, heap: Heap, allocs: nat, a: uint64, b: uint64,
                                            fuel: nat)
    requires Emit(Binary(l, op, r)).Some? && fuel > Size(Binary(l, op, r)) && Supported(l) && Supported(r)
    requires Eval(l, heap, allocs) == Yields(a) && Eval(r, heap, allocs + Literals(l)) == Yields(b)
    ensures var o := Run(Fresh(allocs, []), Emit(Binary(l, op, r)).value, heap, fuel);
            && (op == "+" ==> Leaves(o, (a + b) % TWO_TO_THE_64))
            && (op == "-" ==> Leaves(o, (a - b) % TWO_TO_THE_64))
            && (op == "*" ==> Leaves(o, (a * b) % TWO_TO_THE_64))
            && (op == "/" ==> if b == 0 then o.Failed? && o.fault == DivByZero else Leaves(o, a / b))
            && (op == "%" ==> if b == 0 then o.Failed? && o.fault == ModByZero else Leaves(o, a % b))
            && (op == "=" || op == "==" ==> Leaves(o, if a == b then 1 else 0))
            && (op == "!=" ==> Leaves(o, if a != b then 1 else 0))
            && (op == "<" ==> Leaves(o, if a < b then 1 else 0))
            && (op == "<=" ==> Leaves(o, if a <= b then 1 else 0))
            && (op == ">" ==> Leaves(o, if a > b then 1 else 0))
            && (op == ">=" ==> Leaves(o, if a >= b then 1 else 0))
  {
    hide Run, Emit, Apply, OpcodeOf;
    var e := Binary(l, op, r);
    ExecuteComputes(e, heap, allocs, [], fuel);
    OperatorValues(op, a, b);
    assert Eval(e, heap, allocs) == Apply(OpcodeOf(op).value, a, b);
    hide Eval;
  }
}
