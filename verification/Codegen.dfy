/** From trees to instructions, and the value a tree stands for. */
module Codegen {
  import opened Ordering
  import opened Grammar
  import opened Bytecode

  datatype Column = Column(name: string, kind: string, constraints: seq<string>)

  /** The AST nodes; a condition is an expression tree. */
  datatype Statement =
    | Bare(e: Expr)
    | Table(name: string)
    | Create(table: string, definitions: seq<Column>)
    | Select(columns: seq<string>, table: string)
    | Insert(table: string, columns: seq<string>, values: seq<string>)
    | Update(table: string, assignments: seq<(string, string)>, condition: Option<Expr>)
    | Delete(table: string, condition: Option<Expr>)
    | Grant(user: string, perms: int64, table: string)
    | Revoke(user: string, perms: int64, table: string)

  function PushText(s: string): Instruction {
    Instruction(PUSH, [Str(s)])
  }

  /** The opcode of a binary operator; AND and OR have none. */
  function OpcodeOf(op: string): Option<Opcode> {
    if op == "+" then Some(ADD)
    else if op == "-" then Some(SUB)
    else if op == "*" then Some(MUL)
    else if op == "/" then Some(DIV)
    else if op == "%" then Some(MOD)
    else if op == "==" || op == "=" then Some(EQ)
    else if op == "!=" then Some(NE)
    else if op == "<" then Some(LT)
    else if op == "<=" then Some(LE)
    else if op == ">" then Some(GT)
    else if op == ">=" then Some(GE)
    else None
  }

  /** LiteralAST and BinaryOpAST; None is the "unsupported operator" exception. */
  function Emit(e: Expr): Option<Program> {
    match e
    case Lit(v) => Some([PushText(v)])
    case Binary(l, op, r) =>
      match (Emit(l), Emit(r), OpcodeOf(op))
      case (Some(a), Some(b), Some(o)) => Some(a + b + [Instruction(o, [])])
      case _ => None
  }

  function PushAll(texts: seq<string>): (code: Program)
    ensures |code| == |texts| && forall i :: 0 <= i < |texts| ==> code[i] == PushText(texts[i])
  {
    seq(|texts|, i requires 0 <= i < |texts| => PushText(texts[i]))
  }

  function EmitColumns(columns: seq<Column>): Program {
    if columns == [] then [] else
      PushAll([columns[0].name, columns[0].kind] + columns[0].constraints) + EmitColumns(columns[1..])
  }

  function EmitCondition(effect: Program, condition: Option<Expr>): Option<Program> {
    match condition
    case None => Some(effect + [Instruction(HALT, [])])
    case Some(e) =>
      match Emit(e)
      case None => None
      case Some(code) => Some(effect + [Instruction(WHERE, [])] + code + [Instruction(HALT, [])])
  }

  function Updates(table: string, assignments: seq<(string, string)>): (code: Program)
    ensures |code| == |assignments|
  {
    seq(|assignments|, i requires 0 <= i < |assignments| =>
      Instruction(UPDATE, [Str(table), Str(assignments[i].0), Str(assignments[i].1)]))
  }

  function EmitStatement(s: Statement): Option<Program> {
    match s
    case Bare(e) => Emit(e)
    case Table(name) => Some([PushText(name)])
    case Create(table, columns) => Some([Instruction(CREATE_TABLE, [Str(table)])] + EmitColumns(columns))
    case Select(columns, table) =>
      Some(seq(|columns|, i requires 0 <= i < |columns| => Instruction(SELECT, [Str(columns[i])])) + [PushText(table)])
    case Insert(table, columns, values) => Some([PushText(table)] + PushAll(columns) + PushAll(values))
    case Update(table, assignments, condition) =>
      EmitCondition(Updates(table, assignments), condition)
    case Delete(table, condition) => EmitCondition([Instruction(DELETE, [Str(table)])], condition)
    case Grant(user, perms, table) => Some([Instruction(GRANT, [Str(user), Int(perms), Str(table)])])
    case Revoke(user, perms, table) => Some([Instruction(REVOKE, [Str(user), Int(perms), Str(table)])])
  }

  // ---- when code is emitted, and how much ---------------------------------------------

  predicate Supported(e: Expr) {
    e.Binary? ==> OpcodeOf(e.op).Some? && Supported(e.left) && Supported(e.right)
  }

  function Size(e: Expr): (n: nat)
    ensures n > 0
  {
    if e.Lit? then 1 else Size(e.left) + Size(e.right) + 1
  }

  function Literals(e: Expr): (n: nat)
    ensures n > 0
  {
    if e.Lit? then 1 else Literals(e.left) + Literals(e.right)
  }

  /** One instruction per node, and none at all exactly when some operator is unsupported. */
  lemma {:induction false} EmitsOnePerNode(e: Expr)
    ensures Emit(e).Some? <==> Supported(e)
    ensures Emit(e).Some? ==> |Emit(e).value| == Size(e)
  {
    hide OpcodeOf;
    if e.Binary? {
      EmitsOnePerNode(e.left);
      EmitsOnePerNode(e.right);
    }
  }

  /** A parsed tree is emitted exactly when it has no AND and no OR. */
  predicate NoConnective(e: Expr) {
    e.Binary? ==> e.op != "AND" && e.op != "OR" && NoConnective(e.left) && NoConnective(e.right)
  }

  lemma {:induction false} ParsedTreesEmit(e: Expr)
    requires Printable(e)
    ensures Emit(e).Some? <==> NoConnective(e)
  {
    EmitsOnePerNode(e);
    if e.Binary? {
      ParsedTreesEmit(e.left);
      ParsedTreesEmit(e.right);
      EmitsOnePerNode(e.left);
      EmitsOnePerNode(e.right);
    }
  }

  // ---- the code of statements ---------------------------------------------------------

  /** One SELECT for each column, then the table's name. */
  lemma SelectCode(columns: seq<string>, table: string)
    ensures EmitStatement(Select(columns, table)).Some?
    ensures var code := EmitStatement(Select(columns, table)).value;
            && |code| == |columns| + 1 && code[|columns|] == Instruction(PUSH, [Str(table)])
            && forall i :: 0 <= i < |columns| ==> code[i] == Instruction(SELECT, [Str(columns[i])])
  {
  }

  /** Everything an INSERT names is pushed: table, columns, values. */
  lemma InsertCode(table: string, columns: seq<string>, values: seq<string>)
    ensures EmitStatement(Insert(table, columns, values)).Some?
    ensures var code, texts := EmitStatement(Insert(table, columns, values)).value, [table] + columns + values;
            |code| == |texts| && forall i :: 0 <= i < |texts| ==> code[i] == Instruction(PUSH, [Str(texts[i])])
  {
  }

  /** What follows the effects of UPDATE and DELETE: WHERE and the condition's code, if there is one, and HALT. */
  lemma ConditionCode(table: string, assignments: seq<(string, string)>, condition: Option<Expr>)
    ensures var n, u, d := |assignments|, EmitStatement(Update(table, assignments, condition)),
                           EmitStatement(Delete(table, condition));
            if condition.Some? && Emit(condition.value).None? then u.None? && d.None?
            else
              var tail := if condition.None? then [Instruction(HALT, [])]
                          else [Instruction(WHERE, [])] + Emit(condition.value).value + [Instruction(HALT, [])];
              && u.Some? && |u.value| == n + |tail| && u.value[n..] == tail
              && (forall i :: 0 <= i < n ==>
                    u.value[i] == Instruction(UPDATE, [Str(table), Str(assignments[i].0), Str(assignments[i].1)]))
              && d == Some([Instruction(DELETE, [Str(table)])] + tail)
  {
    hide Emit;
    var n, effects, effect := |assignments|, Updates(table, assignments), [Instruction(DELETE, [Str(table)])];
    if condition.Some? && Emit(condition.value).Some? {
      var code := Emit(condition.value).value;
      Regrouped(effects, [Instruction(WHERE, [])], code, [Instruction(HALT, [])]);
      Regrouped(effect, [Instruction(WHERE, [])], code, [Instruction(HALT, [])]);
    }
  }

  lemma Regrouped(a: Program, b: Program, c: Program, d: Program)
    ensures a + b + c + d == a + (b + c + d)
  {
  }

  /** CREATE_TABLE with the name, then every column's name, type and constraints. */
  lemma CreateCode(table: string, columns: seq<Column>)
    ensures EmitStatement(Create(table, columns)).Some?
    ensures var code, texts := EmitStatement(Create(table, columns)).value, ColumnTexts(columns);
            && |code| == 1 + |texts| && code[0] == Instruction(CREATE_TABLE, [Str(table)])
            && forall i :: 0 <= i < |texts| ==> code[i + 1] == Instruction(PUSH, [Str(texts[i])])
  {
    ColumnsPushed(columns);
  }

  function ColumnTexts(columns: seq<Column>): seq<string> {
    if columns == [] then []
    else ColumnTexts(columns[..|columns| - 1]) + [columns[|columns| - 1].name, columns[|columns| - 1].kind]
         + columns[|columns| - 1].constraints
  }

  lemma {:induction false} EmitColumnsAppend(a: seq<Column>, b: seq<Column>)
    ensures EmitColumns(a + b) == EmitColumns(a) + EmitColumns(b)
  {
    if a == [] {
      assert a + b == b;
    } else {
      assert (a + b)[1..] == a[1..] + b;
      EmitColumnsAppend(a[1..], b);
    }
  }

  lemma {:induction false} ColumnsPushed(columns: seq<Column>)
    ensures var code, texts := EmitColumns(columns), ColumnTexts(columns);
            |code| == |texts| && forall i :: 0 <= i < |texts| ==> code[i] == Instruction(PUSH, [Str(texts[i])])
  {
    if columns != [] {
      var front, c := columns[..|columns| - 1], columns[|columns| - 1];
      ColumnsPushed(front);
      assert columns == front + [c];
      EmitColumnsAppend(front, [c]);
      assert EmitColumns([c]) == PushAll([c.name, c.kind] + c.constraints) by { assert EmitColumns([c][1..]) == []; }
    }
  }

  /** The remaining statements are single instructions. */
  lemma PlainCode(user: string, perms: int64, table: string, e: Expr)
    ensures EmitStatement(Grant(user, perms, table)) == Some([Instruction(GRANT, [Str(user), Int(perms), Str(table)])])
    ensures EmitStatement(Revoke(user, perms, table)) == Some([Instruction(REVOKE, [Str(user), Int(perms), Str(table)])])
    ensures EmitStatement(Table(table)) == Some([Instruction(PUSH, [Str(table)])])
    ensures EmitStatement(Bare(e)) == Emit(e)
  {
  }

  // ---- values -------------------------------------------------------------------------

  datatype Fault =
    | StackUnderflow | DivByZero | ModByZero | EmptyReturn
    | MissingOperand | WrongOperand | TargetOutOfRange | RegisterOutOfRange

  datatype Arith = Yields(v: uint64) | Trap(fault: Fault)

  function Wrap(x: int): uint64 {
    x % TWO_TO_THE_64
  }

  function Truth(b: bool): uint64 {
    if b then 1 else 0
  }

  predicate IsBinary(op: Opcode) {
    match op
    case ADD | SUB | MUL | DIV | MOD | AND | OR | EQ | NE | LT | LE | GT | GE => true
    case _ => false
  }

  /** Unsigned 64-bit arithmetic and comparison. */
  function Apply(op: Opcode, a: uint64, b: uint64): Arith
    requires IsBinary(op)
  {
    match op
    case ADD => Yields(Wrap(a + b))
    case SUB => Yields(Wrap(a - b))
    case MUL => Yields(Wrap(a * b))
    case DIV => if b == 0 then Trap(DivByZero) else Yields(a / b)
    case MOD => if b == 0 then Trap(ModByZero) else Yields(a % b)
    case AND => Yields(Truth(a != 0 && b != 0))
    case OR => Yields(Truth(a != 0 || b != 0))
    case EQ => Yields(Truth(a == b))
    case NE => Yields(Truth(a != b))
    case LT => Yields(Truth(a < b))
    case LE => Yields(Truth(a <= b))
    case GT => Yields(Truth(a > b))
    case _ => Yields(Truth(a >= b))
  }

  /** On 64-bit words subtraction undoes addition and addition undoes subtraction. */
  lemma SubtractionUndoesAddition(a: uint64, b: uint64)
    ensures var s := Apply(ADD, a, b); s.Yields? && Apply(SUB, s.v, b) == Yields(a)
    ensures var d := Apply(SUB, a, b); d.Yields? && Apply(ADD, d.v, b) == Yields(a)
  {
  }

  /** The product is the product modulo 2^64. */
  lemma ProductWraps(a: uint64, b: uint64) returns (k: int)
    ensures Apply(MUL, a, b).Yields? && a * b == Apply(MUL, a, b).v + k * TWO_TO_THE_64
  {
    k := (a * b) / TWO_TO_THE_64;
  }

  /** Quotient and remainder divide; a zero divisor is the only fault. */
  lemma DivisionLaws(a: uint64, b: uint64)
    ensures b == 0 ==> Apply(DIV, a, b) == Trap(DivByZero) && Apply(MOD, a, b) == Trap(ModByZero)
    ensures b != 0 ==>
              && Apply(DIV, a, b).Yields? && Apply(MOD, a, b).Yields?
              && Apply(DIV, a, b).v * b + Apply(MOD, a, b).v == a && Apply(MOD, a, b).v < b
  {
  }

  /** The six comparisons are those of one total order: exactly one of less, equal and greater is 1. */
  lemma ComparisonLaws(a: uint64, b: uint64)
    ensures var lt, eq, gt := Apply(LT, a, b), Apply(EQ, a, b), Apply(GT, a, b);
            && lt.Yields? && eq.Yields? && gt.Yields? && lt.v + eq.v + gt.v == 1 && (eq.v == 1 <==> a == b)
            && gt == Apply(LT, b, a) && Apply(LE, a, b) == Yields(lt.v + eq.v) && Apply(GE, a, b) == Yields(gt.v + eq.v)
            && Apply(NE, a, b) == Yields(lt.v + gt.v)
  {
  }

  /** The address the `k`-th string allocation returns. */
  type Heap = nat -> uint64

  /** Left-to-right evaluation: a literal is the address of a fresh string, allocation `k` being the next. */
  function Eval(e: Expr, heap: Heap, k: nat): Arith
    requires Supported(e)
  {
    match e
    case Lit(_) => Yields(heap(k))
    case Binary(l, op, r) =>
      match Eval(l, heap, k)
      case Trap(f) => Trap(f)
      case Yields(a) =>
        match Eval(r, heap, k + Literals(l))
        case Trap(f) => Trap(f)
        case Yields(b) => Apply(OpcodeOf(op).value, a, b)
  }

  /** Stack cells needed above the starting depth. */
  function Need(e: Expr): (n: nat)
    ensures n > 0
  {
    if e.Lit? then 1 else Max(Need(e.left), 1 + Need(e.right))
  }

  function Max(a: nat, b: nat): nat {
    if a < b then b else a
  }

  /** The same tree up to the text of its literals. */
  predicate SameShape(e: Expr, f: Expr) {
    match (e, f)
    case (Lit(_), Lit(_)) => true
    case (Binary(l, op, r), Binary(l', op', r')) => op == op' && SameShape(l, l') && SameShape(r, r')
    case _ => false
  }

  /** No literal's text reaches the result: what is computed depends on addresses alone. */
  lemma {:induction false} ValueIgnoresText(e: Expr, f: Expr, heap: Heap, k: nat)
    requires SameShape(e, f) && Supported(e)
    ensures Supported(f) && Literals(f) == Literals(e) && Eval(f, heap, k) == Eval(e, heap, k)
  {
    hide Apply, OpcodeOf;
    if e.Binary? {
      ValueIgnoresText(e.left, f.left, heap, k);
      ValueIgnoresText(e.right, f.right, heap, k + Literals(e.left));
    }
  }

  /** So a literal is never equal to itself while its two strings are both alive. */
  lemma LiteralsAreNotEqual(text: string, heap: Heap, k: nat)
    requires heap(k) != heap(k + 1)
    ensures Eval(Binary(Lit(text), "=", Lit(text)), heap, k) == Yields(0)
  {
  }
}
