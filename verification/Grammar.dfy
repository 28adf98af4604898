/** Tokens, expression trees, the precedence table and the grammar the expression parser accepts. */
module Grammar {

  datatype TokenType = Identifier | Keyword | Punctuation | Literal | Whitespace | EndOfFile | Symbol

  datatype Token = Token(kind: TokenType, value: string)

  /** LiteralAST and BinaryOpAST. */
  datatype Expr = Lit(value: string) | Binary(left: Expr, op: string, right: Expr)

  function Precedence(value: string): int {
    if value == "OR" then 1
    else if value == "AND" then 2
    else if value == "=" || value == "!=" then 3
    else if value == "<" || value == "<=" || value == ">" || value == ">=" then 4
    else if value == "+" || value == "-" then 5
    else if value == "*" || value == "/" || value == "%" then 6
    else -1
  }

  /** The precedence of the token at `i`, or -1 past the end. */
  function NextPrec(ts: seq<Token>, i: nat): int {
    if i < |ts| then Precedence(ts[i].value) else -1
  }

  // ---- derivations --------------------------------------------------------------------

  /** An expression as written: the tree together with its tokens and parentheses. */
  datatype Source =
    | Atom(token: Token)
    | Group(open: Token, inner: Source, close: Token)
    | Infix(left: Source, op: Token, right: Source)

  function Text(p: Source): (ts: seq<Token>)
    ensures |ts| > 0
  {
    match p
    case Atom(t) => [t]
    case Group(o, s, c) => [o] + Text(s) + [c]
    case Infix(l, op, r) => Text(l) + [op] + Text(r)
  }

  function Meaning(p: Source): Expr {
    match p
    case Atom(t) => Lit(t.value)
    case Group(_, s, _) => Meaning(s)
    case Infix(l, op, r) => Binary(Meaning(l), op.value, Meaning(r))
  }

  /** How tightly the outermost operator binds; atoms and groups bind tightest. */
  function Tightness(p: Source): int {
    if p.Infix? then Precedence(p.op.value) else 7
  }

  /**
   The grammar: operators come from the table, the left operand of an operator binds at least as tightly,
   the right one strictly more tightly, anything but "(" is a literal, and a group may be closed by any
   punctuation token that is not an operator.
   */
  predicate Grammatical(p: Source) {
    match p
    case Atom(t) => t.value != "("
    case Group(o, s, c) => o.value == "(" && Grammatical(s) && c.kind == Punctuation && Precedence(c.value) < 0
    case Infix(l, op, r) =>
      && Precedence(op.value) >= 0 && Grammatical(l) && Grammatical(r)
      && Tightness(l) >= Precedence(op.value) && Tightness(r) > Precedence(op.value)
  }

  /** `p` derives `e` from the tokens before `j`, and no operator follows. */
  ghost predicate Derives(p: Source, ts: seq<Token>, i: nat, e: Expr, j: nat) {
    && Grammatical(p) && Meaning(p) == e
    && i <= j <= |ts| && Text(p) == ts[i..j] && NextPrec(ts, j) < 0
  }

  // ---- printing -----------------------------------------------------------------------

  /** Every operator of `e` is in the table. */
  predicate Printable(e: Expr) {
    e.Binary? ==> Precedence(e.op) >= 0 && Printable(e.left) && Printable(e.right)
  }

  predicate NoParenLiteral(e: Expr) {
    if e.Lit? then e.value != "(" else NoParenLiteral(e.left) && NoParenLiteral(e.right)
  }

  function ExprTightness(e: Expr): int {
    if e.Binary? then Precedence(e.op) else 7
  }

  function OperatorToken(op: string): Token {
    Token(if op == "AND" || op == "OR" then Identifier else Punctuation, op)
  }

  function Grouped(p: Source): Source {
    Group(Token(Punctuation, "("), p, Token(Punctuation, ")"))
  }

  /** `e` written with parentheses only where the precedence table needs them. */
  function Print(e: Expr): Source {
    match e
    case Lit(v) => Atom(Token(TokenType.Literal, v))
    case Binary(l, op, r) =>
      var left := if ExprTightness(l) < Precedence(op) then Grouped(Print(l)) else Print(l);
      var right := if ExprTightness(r) <= Precedence(op) then Grouped(Print(r)) else Print(r);
      Infix(left, OperatorToken(op), right)
  }

  lemma {:induction false} PrintMeans(e: Expr)
    ensures Meaning(Print(e)) == e && Tightness(Print(e)) == ExprTightness(e)
  {
    hide Precedence;
    if e.Binary? {
      PrintMeans(e.left);
      PrintMeans(e.right);
    }
  }

  /** Printing only adds operator tokens and balanced parentheses. */
  lemma PrintedTokens(op: string)
    ensures Precedence("(") < 0 && Precedence(")") < 0 && Precedence(op) <= 6
    ensures OperatorToken(op).value == op
  {
  }

  lemma {:induction false} PrintGrammatical(e: Expr)
    requires Printable(e) && NoParenLiteral(e)
    ensures Grammatical(Print(e))
  {
    PrintedTokens(if e.Binary? then e.op else "");
    hide Precedence;
    if e.Binary? {
      PrintGrammatical(e.left);
      PrintGrammatical(e.right);
      PrintMeans(e.left);
      PrintMeans(e.right);
    }
  }

  /** No text of a tree is shorter than the printed one: parentheses stand only where they must. */
  lemma {:induction false} PrintIsShortest(p: Source)
    requires Grammatical(p)
    ensures |Text(Print(Meaning(p)))| <= |Text(p)|
    ensures Tightness(p) > ExprTightness(Meaning(p)) ==> |Text(Grouped(Print(Meaning(p))))| <= |Text(p)|
  {
    PrintedTokens(if p.Infix? then p.op.value else "");
    hide Precedence;
    match p
    case Atom(_) =>
    case Group(_, s, _) => PrintIsShortest(s);
    case Infix(l, _, r) =>
      PrintIsShortest(l);
      PrintIsShortest(r);
  }

  /** A derived tree uses only table operators and has no "(" literal. */
  lemma {:induction false} GrammaticalMeaning(p: Source)
    requires Grammatical(p)
    ensures Printable(Meaning(p)) && NoParenLiteral(Meaning(p))
  {
    hide Precedence;
    match p
    case Atom(_) =>
    case Group(_, s, _) => GrammaticalMeaning(s);
    case Infix(l, _, r) =>
      GrammaticalMeaning(l);
      GrammaticalMeaning(r);
  }
}
