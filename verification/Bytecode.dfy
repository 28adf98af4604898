/** Instructions, and the order BytecodeComparator puts on whole programs. */
module Bytecode {
  import opened Ordering

  const TWO_TO_THE_64: int := 0x1_0000_0000_0000_0000

  type int64 = x: int | -0x8000_0000_0000_0000 <= x < 0x8000_0000_0000_0000
  type uint64 = x: int | 0 <= x < TWO_TO_THE_64

  datatype Opcode =
    | SELECT | INSERT | UPDATE | DELETE | CREATE_TABLE | DROP_TABLE
    | SET | WHERE | ORDER_BY | GROUP_BY | LIMIT | OFFSET
    | AND | OR | NOT | EQ | NE | LT | LE | GT | GE
    | ADD | SUB | MUL | DIV | MOD
    | PUSH | POP | LOAD | STORE
    | CALL | RET | JMP | NOP | HALT
    | GRANT | REVOKE

  /** An operand; a double is a real here. */
  datatype Value = Int(i: int64) | Double(d: real) | Str(s: string)

  datatype Instruction = Instruction(opcode: Opcode, operands: seq<Value>)

  type Program = seq<Instruction>

  // ---- the order ----------------------------------------------------------------------

  /** The numeric value of the enumeration. */
  function Code(op: Opcode): nat {
    match op
    case SELECT => 0 case INSERT => 1 case UPDATE => 2 case DELETE => 3 case CREATE_TABLE => 4 case DROP_TABLE => 5
    case SET => 6 case WHERE => 7 case ORDER_BY => 8 case GROUP_BY => 9 case LIMIT => 10 case OFFSET => 11
    case AND => 12 case OR => 13 case NOT => 14 case EQ => 15 case NE => 16 case LT => 17 case LE => 18 case GT => 19
    case GE => 20 case ADD => 21 case SUB => 22 case MUL => 23 case DIV => 24 case MOD => 25 case PUSH => 26
    case POP => 27 case LOAD => 28 case STORE => 29 case CALL => 30 case RET => 31 case JMP => 32 case NOP => 33
    case HALT => 34 case GRANT => 35 case REVOKE => 36
  }

  /** std::string's order: the first difference decides, a proper prefix is smaller. */
  predicate TextLess(a: string, b: string) {
    b != "" && (a == "" || a[0] < b[0] || (a[0] == b[0] && TextLess(a[1..], b[1..])))
  }

  /** std::variant's order: first by alternative, then by value. */
  predicate ValueLess(a: Value, b: Value) {
    match (a, b)
    case (Int(x), Int(y)) => x < y
    case (Double(x), Double(y)) => x < y
    case (Str(x), Str(y)) => TextLess(x, y)
    case (Int(_), _) => !b.Int?
    case (Double(_), _) => b.Str?
    case (Str(_), _) => false
  }

  /** The first differing operand decides. */
  predicate OperandsLess(a: seq<Value>, b: seq<Value>)
    requires |a| == |b|
  {
    a != [] && (if a[0] != b[0] then ValueLess(a[0], b[0]) else OperandsLess(a[1..], b[1..]))
  }

  predicate InstructionLess(a: Instruction, b: Instruction) {
    if a.opcode != b.opcode then Code(a.opcode) < Code(b.opcode)
    else if |a.operands| != |b.operands| then |a.operands| < |b.operands|
    else OperandsLess(a.operands, b.operands)
  }

  predicate InstructionsLess(a: Program, b: Program)
    requires |a| == |b|
  {
    a != [] && (if a[0] != b[0] then InstructionLess(a[0], b[0]) else InstructionsLess(a[1..], b[1..]))
  }

  predicate ProgramLess(a: Program, b: Program) {
    if |a| != |b| then |a| < |b| else InstructionsLess(a, b)
  }

  /** BytecodeComparator: two nested loops that stop at the first difference. */
  method Compare(a: Program, b: Program) returns (less: bool)
    ensures less == ProgramLess(a, b)
  {
    if |a| != |b| { return |a| < |b|; }
    var i := 0;
    while i < |a|
      invariant 0 <= i <= |a| && InstructionsLess(a, b) == InstructionsLess(a[i..], b[i..])
    {
      if a[i].opcode != b[i].opcode { return Code(a[i].opcode) < Code(b[i].opcode); }
      var x, y := a[i].operands, b[i].operands;
      if |x| != |y| { return |x| < |y|; }
      var j := 0;
      while j < |x|
        invariant 0 <= j <= |x| && OperandsLess(x, y) == OperandsLess(x[j..], y[j..])
        invariant x[..j] == y[..j]
      {
        if x[j] != y[j] { return ValueLess(x[j], y[j]); }
        j := j + 1;
      }
      assert x == x[..j] && y == y[..j];
      i := i + 1;
    }
    return false;
  }

  // ---- which order it is --------------------------------------------------------------

  /** `a` stands before `b` in a dictionary. */
  ghost predicate Lexicographic(a: string, b: string) {
    exists n :: 0 <= n <= |a| && n < |b| && a[..n] == b[..n] && (n == |a| || a[n] < b[n])
  }

  lemma DifferAtOnce<T>(a: seq<T>, b: seq<T>)
    requires a != [] && b != [] && a[0] != b[0]
    ensures forall n :: 0 < n <= |a| && n <= |b| ==> a[..n] != b[..n]
  {
    forall n | 0 < n <= |a| && n <= |b|
      ensures a[..n] != b[..n]
    {
      assert a[..n][0] == a[0] && b[..n][0] == b[0];
    }
  }

  /** Sequences with the same first element agree up to `n` exactly if their rests agree up to `n - 1`. */
  lemma AgreeFurther<T>(a: seq<T>, b: seq<T>)
    requires a != [] && b != [] && a[0] == b[0]
    ensures forall n :: 0 < n <= |a| && n <= |b| ==> (a[..n] == b[..n] <==> a[1..][..n - 1] == b[1..][..n - 1])
  {
    forall n | 0 < n <= |a| && n <= |b|
      ensures a[..n] == b[..n] <==> a[1..][..n - 1] == b[1..][..n - 1]
    {
      assert a[..n] == [a[0]] + a[1..][..n - 1] && b[..n] == [b[0]] + b[1..][..n - 1];
      assert a[1..][..n - 1] == a[..n][1..] && b[1..][..n - 1] == b[..n][1..];
    }
  }

  /** Strings are ordered by the first place where one ends or has the smaller character. */
  lemma {:induction false} TextLessIsLexicographic(a: string, b: string)
    ensures TextLess(a, b) <==> exists n :: 0 <= n <= |a| && n < |b| && a[..n] == b[..n] && (n == |a| || a[n] < b[n])
  {
    assert a[..0] == b[..0];
    if a != "" && b != "" && a[0] != b[0] {
      DifferAtOnce(a, b);
    } else if a != "" && b != "" {
      TextLessIsLexicographic(a[1..], b[1..]);
      if Lexicographic(a[1..], b[1..]) {
        var n :| 0 <= n < |a| && n < |b| - 1 && a[1..][..n] == b[1..][..n] && (n == |a| - 1 || a[1..][n] < b[1..][n]);
        assert a[..n + 1] == b[..n + 1] by { AgreeFurther(a, b); assert (n + 1) - 1 == n; }
      }
      if Lexicographic(a, b) {
        var n :| 0 <= n <= |a| && n < |b| && a[..n] == b[..n] && (n == |a| || a[n] < b[n]);
        assert n > 0 && a[1..][..n - 1] == b[1..][..n - 1] by { AgreeFurther(a, b); }
      }
    }
  }

  /** Numbers, then doubles, then strings; among equals the value decides. */
  lemma ValueLessLaws(a: Value, b: Value)
    ensures a.Int? && b.Int? ==> (ValueLess(a, b) <==> a.i < b.i)
    ensures a.Double? && b.Double? ==> (ValueLess(a, b) <==> a.d < b.d)
    ensures a.Str? && b.Str? ==> (ValueLess(a, b) <==> Lexicographic(a.s, b.s))
    ensures (a.Int? && !b.Int?) || (a.Double? && b.Str?) ==> ValueLess(a, b) && !ValueLess(b, a)
  {
    hide TextLess, Lexicographic;
    if a.Str? && b.Str? { TextIsLexicographic(a.s, b.s); }
  }

  lemma TextIsLexicographic(a: string, b: string)
    ensures TextLess(a, b) <==> Lexicographic(a, b)
  {
    hide TextLess;
    TextLessIsLexicographic(a, b);
  }

  lemma StatementCodes()
    ensures Code(SELECT) < Code(INSERT) < Code(UPDATE) < Code(DELETE) < Code(CREATE_TABLE) < Code(DROP_TABLE)
  {
  }

  lemma ClauseCodes()
    ensures Code(DROP_TABLE) < Code(SET) < Code(WHERE) < Code(ORDER_BY) < Code(GROUP_BY) < Code(LIMIT)
           < Code(OFFSET)
  {
  }

  lemma LogicCodes()
    ensures Code(OFFSET) < Code(AND) < Code(OR) < Code(NOT) < Code(EQ) < Code(NE) < Code(LT) < Code(LE)
           < Code(GT) < Code(GE)
  {
  }

  lemma ArithmeticCodes()
    ensures Code(GE) < Code(ADD) < Code(SUB) < Code(MUL) < Code(DIV) < Code(MOD)
  {
  }

  lemma MemoryCodes()
    ensures Code(MOD) < Code(PUSH) < Code(POP) < Code(LOAD) < Code(STORE) < Code(CALL) < Code(RET)
  {
  }

  lemma ControlCodes()
    ensures Code(RET) < Code(JMP) < Code(NOP) < Code(HALT) < Code(GRANT) < Code(REVOKE)
  {
  }

  /** The opcodes are numbered in the order in which the enumeration lists them. */
  lemma OpcodesInOrder()
    ensures Code(SELECT) < Code(INSERT) < Code(UPDATE) < Code(DELETE) < Code(CREATE_TABLE) < Code(DROP_TABLE)
    ensures Code(DROP_TABLE) < Code(SET) < Code(WHERE) < Code(ORDER_BY) < Code(GROUP_BY) < Code(LIMIT)
           < Code(OFFSET)
    ensures Code(OFFSET) < Code(AND) < Code(OR) < Code(NOT) < Code(EQ) < Code(NE) < Code(LT) < Code(LE)
           < Code(GT) < Code(GE)
    ensures Code(GE) < Code(ADD) < Code(SUB) < Code(MUL) < Code(DIV) < Code(MOD)
    ensures Code(MOD) < Code(PUSH) < Code(POP) < Code(LOAD) < Code(STORE) < Code(CALL) < Code(RET)
    ensures Code(RET) < Code(JMP) < Code(NOP) < Code(HALT) < Code(GRANT) < Code(REVOKE)
  {
    hide Code;
    StatementCodes();
    ClauseCodes();
    LogicCodes();
    ArithmeticCodes();
    MemoryCodes();
    ControlCodes();
  }

  /** The first differing operand decides. */
  lemma {:induction false} FirstOperandDecides(a: seq<Value>, b: seq<Value>)
    requires |a| == |b|
    ensures OperandsLess(a, b)
       <==> exists n :: 0 <= n < |a| && a[..n] == b[..n] && a[n] != b[n] && ValueLess(a[n], b[n])
  {
    hide ValueLess;
    if a != [] {
      assert a[..0] == b[..0];
      if a[0] != b[0] {
        DifferAtOnce(a, b);
      } else {
        FirstOperandDecides(a[1..], b[1..]);
        if n :| 0 <= n < |a| - 1 && a[1..][..n] == b[1..][..n] && a[1..][n] != b[1..][n]
                && ValueLess(a[1..][n], b[1..][n]) {
          assert a[..n + 1] == [a[0]] + a[1..][..n] && b[..n + 1] == [b[0]] + b[1..][..n];
        }
        if n :| 0 <= n < |a| && a[..n] == b[..n] && a[n] != b[n] && ValueLess(a[n], b[n]) {
          assert n > 0 && a[1..][..n - 1] == a[..n][1..] && b[1..][..n - 1] == b[..n][1..];
        }
      }
    }
  }

  /** Opcode, number of operands and operands decide, in this order. */
  lemma InstructionLessLaws(a: Instruction, b: Instruction)
    ensures a.opcode != b.opcode ==> (InstructionLess(a, b) <==> Code(a.opcode) < Code(b.opcode))
    ensures a.opcode == b.opcode && |a.operands| != |b.operands| ==>
              (InstructionLess(a, b) <==> |a.operands| < |b.operands|)
    ensures a.opcode == b.opcode && |a.operands| == |b.operands| ==>
              (InstructionLess(a, b) <==>
                 exists n :: 0 <= n < |a.operands| && a.operands[..n] == b.operands[..n]
                             && a.operands[n] != b.operands[n] && ValueLess(a.operands[n], b.operands[n]))
  {
    hide Code, ValueLess, OperandsLess;
    if |a.operands| == |b.operands| { FirstOperandDecides(a.operands, b.operands); }
  }

  lemma {:induction false} FirstInstructionDecides(a: Program, b: Program)
    requires |a| == |b|
    ensures InstructionsLess(a, b)
       <==> exists n :: 0 <= n < |a| && a[..n] == b[..n] && a[n] != b[n] && InstructionLess(a[n], b[n])
  {
    hide InstructionLess;
    if a != [] {
      assert a[..0] == b[..0];
      if a[0] != b[0] {
        DifferAtOnce(a, b);
      } else {
        FirstInstructionDecides(a[1..], b[1..]);
        if n :| 0 <= n < |a| - 1 && a[1..][..n] == b[1..][..n] && a[1..][n] != b[1..][n]
                && InstructionLess(a[1..][n], b[1..][n]) {
          assert a[..n + 1] == [a[0]] + a[1..][..n] && b[..n + 1] == [b[0]] + b[1..][..n];
        }
        if n :| 0 <= n < |a| && a[..n] == b[..n] && a[n] != b[n] && InstructionLess(a[n], b[n]) {
          assert n > 0 && a[1..][..n - 1] == a[..n][1..] && b[1..][..n - 1] == b[..n][1..];
        }
      }
    }
  }

  /** The shorter program is smaller; of two equally long ones the first differing instruction decides. */
  lemma ProgramLessLaws(a: Program, b: Program)
    ensures |a| != |b| ==> (ProgramLess(a, b) <==> |a| < |b|)
    ensures |a| == |b| ==>
              (ProgramLess(a, b) <==>
                 exists n :: 0 <= n < |a| && a[..n] == b[..n] && a[n] != b[n] && InstructionLess(a[n], b[n]))
  {
    hide InstructionLess, InstructionsLess;
    if |a| == |b| { FirstInstructionDecides(a, b); }
  }

  // ---- it is a strict total order -----------------------------------------------------

  lemma CodeInjective(a: Opcode, b: Opcode)
    requires Code(a) == Code(b)
    ensures a == b
  {
  }

  /** How a strict total order behaves on three given elements. */
  ghost predicate OrdersThree<T>(ab: bool, ba: bool, bc: bool, ac: bool, a: T, b: T) {
    && !(ab && ba) && (a == b ==> !ab) && (a != b ==> ab || ba) && (ab && bc ==> ac)
  }

  lemma {:induction false} TextOrder(a: string, b: string, c: string)
    ensures OrdersThree(TextLess(a, b), TextLess(b, a), TextLess(b, c), TextLess(a, c), a, b)
  {
    if a != "" && b != "" && a[0] == b[0] {
      TextOrder(a[1..], b[1..], if c != "" then c[1..] else "");
      assert a == [a[0]] + a[1..] && b == [b[0]] + b[1..];
    }
  }

  lemma ValueOrder(a: Value, b: Value, c: Value)
    ensures OrdersThree(ValueLess(a, b), ValueLess(b, a), ValueLess(b, c), ValueLess(a, c), a, b)
  {
    hide TextLess;
    if a.Str? && b.Str? {
      TextOrder(a.s, b.s, if c.Str? then c.s else "");
    }
  }

  lemma {:induction false} OperandsOrder(a: seq<Value>, b: seq<Value>, c: seq<Value>)
    requires |a| == |b| == |c|
    ensures OrdersThree(OperandsLess(a, b), OperandsLess(b, a), OperandsLess(b, c), OperandsLess(a, c), a, b)
  {
    hide ValueLess;
    if a != [] {
      ValueOrder(a[0], b[0], c[0]);
      ValueOrder(b[0], a[0], c[0]);
      OperandsOrder(a[1..], b[1..], c[1..]);
      assert a == [a[0]] + a[1..] && b == [b[0]] + b[1..];
    }
  }

  lemma InstructionOrder(a: Instruction, b: Instruction, c: Instruction)
    ensures OrdersThree(InstructionLess(a, b), InstructionLess(b, a), InstructionLess(b, c), InstructionLess(a, c), a, b)
  {
    hide OperandsLess, Code;
    if Code(a.opcode) == Code(b.opcode) { CodeInjective(a.opcode, b.opcode); }
    if |a.operands| == |b.operands| {
      OperandsOrder(a.operands, b.operands, if |c.operands| == |b.operands| then c.operands else b.operands);
    }
  }

  lemma {:induction false} InstructionsOrder(a: Program, b: Program, c: Program)
    requires |a| == |b| == |c|
    ensures OrdersThree(InstructionsLess(a, b), InstructionsLess(b, a), InstructionsLess(b, c), InstructionsLess(a, c), a, b)
  {
    hide InstructionLess;
    if a != [] {
      InstructionOrder(a[0], b[0], c[0]);
      InstructionOrder(b[0], a[0], c[0]);
      InstructionsOrder(a[1..], b[1..], c[1..]);
      assert a == [a[0]] + a[1..] && b == [b[0]] + b[1..];
    }
  }

  lemma ProgramOrder(a: Program, b: Program, c: Program)
    ensures OrdersThree(ProgramLess(a, b), ProgramLess(b, a), ProgramLess(b, c), ProgramLess(a, c), a, b)
  {
    hide InstructionsLess;
    if |a| == |b| {
      InstructionsOrder(a, b, if |c| == |b| then c else b);
    }
  }

  /** Programs are strictly and totally ordered, so equal keys of the batch tree are equal programs. */
  lemma ComparatorIsStrictTotalOrder()
    ensures StrictTotal(ProgramLess)
  {
    hide ProgramLess;
    forall a, b, c: Program
      ensures OrdersThree(ProgramLess(a, b), ProgramLess(b, a), ProgramLess(b, c), ProgramLess(a, c), a, b)
    {
      ProgramOrder(a, b, c);
    }
  }
}
