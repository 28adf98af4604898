/** The whole expression pipeline: text, tokens, tree, instructions, value. */
module QueryPipeline {
  import opened Ordering
  import opened Characters
  import opened Grammar
  import opened ExpressionParser
  import opened Tokenizer
  import opened Spelling
  import opened Bytecode
  import opened Codegen
  import opened Interpreter
  import opened CompilerCorrectness

  /** A text that can stand between quotes of one kind or the other. */
  predicate Quotable(text: string) {
    IsStringBody(text, '\'') || IsStringBody(text, '"')
  }

  predicate QuotableLiterals(e: Expr) {
    if e.Lit? then Quotable(e.value) else QuotableLiterals(e.left) && QuotableLiterals(e.right)
  }

  function Quoted(text: string): string {
    var quote := if IsStringBody(text, '\'') then '\'' else '"';
    [quote] + text + [quote]
  }

  function Word(t: Token): string {
    if t.kind == TokenType.Literal then Quoted(t.value) else t.value
  }

  /** Tokens written one after another, each after a blank. */
  function Pieces(ts: seq<Token>): (ps: seq<Piece>)
    ensures |ps| == |ts|
  {
    seq(|ts|, i requires 0 <= i < |ts| => Piece(" ", Word(ts[i]), ts[i]))
  }

  /** A query text for `e`: literals quoted, parentheses only where needed. */
  function Query(e: Expr): string {
    Written(Pieces(Text(Print(e))), "")
  }

  lemma QuotedSpells(text: string)
    requires Quotable(text)
    ensures Spells(Quoted(text), Token(TokenType.Literal, text))
  {
  }

  lemma OperatorSpells(op: string)
    requires Precedence(op) >= 0
    ensures Spells(op, OperatorToken(op))
  {
    hide NumberEnd;
  }

  ghost predicate AllSpelled(ts: seq<Token>) {
    forall i :: 0 <= i < |ts| ==> Spells(Word(ts[i]), ts[i])
  }

  lemma {:induction false} PrintSpells(e: Expr)
    requires Printable(e) && QuotableLiterals(e)
    ensures AllSpelled(Text(Print(e)))
  {
    hide Precedence, Spells, Quoted, Quotable, OperatorToken;
    if e.Lit? {
      QuotedSpells(e.value);
    } else {
      PrintSpells(e.left);
      PrintSpells(e.right);
      GroupSpells(Print(e.left));
      GroupSpells(Print(e.right));
      OperatorWord(e.op);
      OperatorSpells(e.op);
    }
  }

  lemma OperatorWord(op: string)
    ensures Word(OperatorToken(op)) == op
  {
  }

  lemma GroupSpells(p: Source)
    requires AllSpelled(Text(p))
    ensures AllSpelled(Text(Grouped(p)))
  {
  }

  /** Scanning and parsing the query text of a tree gives the tree back. */
  lemma {:induction false} QueryParses(e: Expr)
    requires Printable(e) && QuotableLiterals(e)
    ensures var ts := Text(Print(e));
            Tokens(Query(e), 0) == Some(ts) && (Expression(ts, 0) == Ok(e, |ts|) <==> NoParenLiteral(e))
  {
    hide Spells, Print, Tokens, Expression, Written;
    var ts := Text(Print(e));
    var ps, s := Pieces(ts), Query(e);
    PrintSpells(e);
    assert WellSpelled(ps) && Spaced(ps);
    assert s[0..] == s;
    ScanUndoesSpelling(ps, "", s, 0);
    assert TokensOf(ps) == ts;
    ParseUndoesPrint(e, []);
    assert ts + [] == ts;
  }

  /** A finished run holds the value alone on the stack, a failed one stopped at the same fault. */
  predicate Agrees(o: Outcome, r: Arith) {
    match r
    case Yields(v) => o.Halted? && o.m.stack == [v]
    case Trap(f) => o.Failed? && o.fault == f
  }

  /**
   End to end: a text is scanned, parsed, compiled and executed to the value of the tree it was written from,
   or to the division fault that tree meets; trees with AND or OR stop at the code generator.
   */
  lemma QueryComputes(e: Expr, heap: Heap, allocs: nat, fuel: nat)
    requires Printable(e) && QuotableLiterals(e) && NoParenLiteral(e) && fuel > Size(e)
    ensures Tokens(Query(e), 0).Some?
    ensures var parsed := Expression(Tokens(Query(e), 0).value, 0);
            parsed.Ok? && (Emit(parsed.e).Some? <==> NoConnective(e))
    ensures NoConnective(e) ==>
              var code := Emit(Expression(Tokens(Query(e), 0).value, 0).e).value;
              Supported(e) && Agrees(Run(Fresh(allocs, []), code, heap, fuel), Eval(e, heap, allocs))
  {
    hide Print, Tokens, Expression, Run, Eval, Emit, Precedence;
    QueryParses(e);
    ParsedTreesEmit(e);
    EmitsOnePerNode(e);
    if NoConnective(e) {
      ExecuteComputes(e, heap, allocs, [], fuel);
    }
  }
}
