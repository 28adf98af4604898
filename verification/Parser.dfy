/** Precedence climbing: the recursive meaning of the parser's loops, and the parser itself. */
module ExpressionParser {
  import opened Ordering
  import opened Grammar

  datatype ParseError = UnexpectedEnd | ExpectedCloseParen

  /** A tree and the index of the next token, or the exception that was thrown. */
  datatype Parsed = Ok(e: Expr, next: nat) | Error(error: ParseError)

  function Primary(ts: seq<Token>, i: nat): (r: Parsed)
    ensures r.Ok? ==> i < r.next <= |ts|
    decreases |ts| - i, 0
  {
    if i >= |ts| then Error(UnexpectedEnd)
    else if ts[i].value == "(" then
      match Expression(ts, i + 1)
      case Error(m) => Error(m)
      case Ok(e, j) => if j < |ts| && ts[j].kind == Punctuation then Ok(e, j + 1) else Error(ExpectedCloseParen)
    else Ok(Lit(ts[i].value), i + 1)
  }

  function Expression(ts: seq<Token>, i: nat): (r: Parsed)
    ensures r.Ok? ==> i < r.next <= |ts|
    decreases |ts| - i, 1
  {
    match Primary(ts, i)
    case Error(m) => Error(m)
    case Ok(lhs, j) => Climb(ts, j, 0, lhs)
  }

  /** ParseBinaryOperation's outer loop. */
  function Climb(ts: seq<Token>, i: nat, minPrec: nat, lhs: Expr): (r: Parsed)
    requires i <= |ts|
    ensures r.Ok? ==> i <= r.next <= |ts| && (NextPrec(ts, i) >= minPrec ==> i < r.next)
    decreases |ts| - i, 0
  {
    if NextPrec(ts, i) < minPrec then Ok(lhs, i)
    else
      match Primary(ts, i + 1)
      case Error(m) => Error(m)
      case Ok(rhs, j) =>
        match Tighten(ts, j, Precedence(ts[i].value), rhs)
        case Error(m) => Error(m)
        case Ok(rhs', j') => Climb(ts, j', minPrec, Binary(lhs, ts[i].value, rhs'))
  }

  /** ParseBinaryOperation's inner loop. */
  function Tighten(ts: seq<Token>, i: nat, prec: nat, rhs: Expr): (r: Parsed)
    requires i <= |ts|
    ensures r.Ok? ==> i <= r.next <= |ts|
    decreases |ts| - i, 1
  {
    if NextPrec(ts, i) > prec then
      match Climb(ts, i, prec + 1, rhs)
      case Error(m) => Error(m)
      case Ok(rhs', j) => Tighten(ts, j, prec, rhs')
    else Ok(rhs, i)
  }

  // ---- completeness: every grammatical text is parsed ---------------------------------

  lemma GroupSlices(o: Token, s: Source, c: Token, ts: seq<Token>, i: nat, j: nat)
    requires i <= j <= |ts| && Text(Group(o, s, c)) == ts[i..j]
    ensures i + 1 < j && ts[i] == o && ts[j - 1] == c && ts[i + 1..j - 1] == Text(s)
  {
    var text := ts[i..j];
    assert text == [o] + Text(s) + [c] && |text| == j - i >= 3;
    assert ts[i] == text[0] && ts[j - 1] == text[|text| - 1];
    forall k | 0 <= k < |Text(s)|
      ensures ts[i + 1..j - 1][k] == Text(s)[k]
    {
      assert text[k + 1] == Text(s)[k];
    }
  }

  lemma InfixSlices(l: Source, op: Token, r: Source, ts: seq<Token>, i: nat, m: nat, j: nat)
    requires i <= j <= |ts| && Text(Infix(l, op, r)) == ts[i..j] && m == i + |Text(l)|
    ensures i < m < j && ts[i..m] == Text(l) && ts[m] == op && ts[m + 1..j] == Text(r)
  {
    var text, n := ts[i..j], |Text(l)|;
    assert text == Text(l) + [op] + Text(r);
    forall k | 0 <= k < n
      ensures ts[i..m][k] == Text(l)[k]
    {
      assert ts[i + k] == text[k];
    }
    assert ts[m] == text[n];
    forall k | 0 <= k < |Text(r)|
      ensures ts[m + 1..j][k] == Text(r)[k]
    {
      assert ts[m + 1 + k] == text[n + 1 + k];
    }
  }

  /** After `p`'s first operand, climbing rebuilds `p`. */
  lemma {:induction false} ClimbsThrough(p: Source, ts: seq<Token>, i: nat, j: nat, minPrec: nat)
    requires Grammatical(p) && i <= j <= |ts| && Text(p) == ts[i..j]
    requires minPrec <= Tightness(p) && NextPrec(ts, j) <= Tightness(p)
    ensures var first := Primary(ts, i);
            first.Ok? && Climb(ts, first.next, minPrec, first.e) == Climb(ts, j, minPrec, Meaning(p))
    decreases p, 0
  {
    hide Precedence, Climb, Tighten, Primary, Expression;
    match p
    case Atom(t) =>
      AtomTaken(t, ts, i, j);
    case Group(o, s, c) =>
      GroupSlices(o, s, c, ts, i, j);
      ClimbsThrough(s, ts, i + 1, j - 1, 0);
      GroupTaken(o, s, c, ts, i, j);
    case Infix(l, op, r) =>
      var m, prec := i + |Text(l)|, Precedence(op.value);
      InfixSlices(l, op, r, ts, i, m, j);
      ClimbsThrough(l, ts, i, m, minPrec);
      ClimbsThrough(r, ts, m + 1, j, prec + 1);
      TightensTo(ts, m + 1, j, prec, Meaning(r));
      RoundTaken(ts, m, j, minPrec, Meaning(l), Meaning(r));
  }

  lemma AtomTaken(t: Token, ts: seq<Token>, i: nat, j: nat)
    requires i <= j <= |ts| && [t] == ts[i..j] && t.value != "("
    ensures Primary(ts, i) == Ok(Lit(t.value), j)
  {
  }

  lemma GroupTaken(o: Token, s: Source, c: Token, ts: seq<Token>, i: nat, j: nat)
    requires i + 1 < j <= |ts| && ts[i] == o && ts[j - 1] == c && Grammatical(Group(o, s, c))
    requires var first := Primary(ts, i + 1);
             first.Ok? && Climb(ts, first.next, 0, first.e) == Climb(ts, j - 1, 0, Meaning(s))
    ensures Primary(ts, i) == Ok(Meaning(s), j)
  {
    hide Precedence, Tighten;
    assert Climb(ts, j - 1, 0, Meaning(s)) == Ok(Meaning(s), j - 1);
    assert Expression(ts, i + 1) == Ok(Meaning(s), j - 1);
  }

  lemma RoundTaken(ts: seq<Token>, m: nat, j: nat, minPrec: nat, lhs: Expr, e: Expr)
    requires m < j <= |ts| && NextPrec(ts, m) >= minPrec && NextPrec(ts, m) >= 0
    requires var first := Primary(ts, m + 1);
             first.Ok? && Tighten(ts, first.next, Precedence(ts[m].value), first.e) == Ok(e, j)
    ensures Climb(ts, m, minPrec, lhs) == Climb(ts, j, minPrec, Binary(lhs, ts[m].value, e))
  {
    hide Precedence, Tighten, Primary;
  }

  /** If climbing above `prec` from the operand at `i` ends at `j`, so does the inner loop. */
  lemma TightensTo(ts: seq<Token>, i: nat, j: nat, prec: nat, e: Expr)
    requires i < j <= |ts| && NextPrec(ts, j) <= prec
    requires var first := Primary(ts, i);
             first.Ok? && Climb(ts, first.next, prec + 1, first.e) == Climb(ts, j, prec + 1, e)
    ensures var first := Primary(ts, i);
            Tighten(ts, first.next, prec, first.e) == Ok(e, j)
  {
    hide Precedence, Primary;
  }

  lemma ParserComplete(p: Source, ts: seq<Token>, i: nat, e: Expr, j: nat)
    requires Derives(p, ts, i, e, j)
    ensures Expression(ts, i) == Ok(e, j)
  {
    ClimbsThrough(p, ts, i, j, 0);
  }

  // ---- soundness: whatever is parsed is grammatical -----------------------------------

  /** `p` stands for the tokens from `i` to `j`, and what follows does not belong inside it. */
  ghost predicate Covers(p: Source, ts: seq<Token>, i: nat, j: nat) {
    Grammatical(p) && i <= j <= |ts| && Text(p) == ts[i..j] && NextPrec(ts, j) <= Tightness(p)
  }

  lemma PrecedenceRange(v: string)
    ensures Precedence(v) == -1 || 1 <= Precedence(v) <= 6
  {
  }

  lemma {:induction false} PrimarySound(ts: seq<Token>, i: nat) returns (p: Source)
    requires Primary(ts, i).Ok?
    ensures Covers(p, ts, i, Primary(ts, i).next) && Meaning(p) == Primary(ts, i).e && !p.Infix?
    decreases |ts| - i, 0
  {
    var j := Primary(ts, i).next;
    if ts[i].value == "(" {
      var s := ExpressionSound(ts, i + 1);
      p := Group(ts[i], s, ts[j - 1]);
      assert ts[i..j] == [ts[i]] + ts[i + 1..j - 1] + [ts[j - 1]];
    } else {
      p := Atom(ts[i]);
    }
    if j < |ts| { PrecedenceRange(ts[j].value); }
  }

  lemma {:induction false} ExpressionSound(ts: seq<Token>, i: nat) returns (p: Source)
    requires Expression(ts, i).Ok?
    ensures Derives(p, ts, i, Expression(ts, i).e, Expression(ts, i).next)
    decreases |ts| - i, 1
  {
    var first := PrimarySound(ts, i);
    p := ClimbSound(ts, i, Primary(ts, i).next, 0, first);
  }

  /** One round of the outer loop. */
  lemma ClimbRound(ts: seq<Token>, i: nat, minPrec: nat, lhs: Expr)
    requires i <= |ts| && NextPrec(ts, i) >= minPrec && Climb(ts, i, minPrec, lhs).Ok?
    ensures i < |ts| && 1 <= Precedence(ts[i].value) && Precedence(ts[i].value) == NextPrec(ts, i)
    ensures var first := Primary(ts, i + 1);
            && first.Ok?
            && var rhs := Tighten(ts, first.next, Precedence(ts[i].value), first.e);
               rhs.Ok? && Climb(ts, i, minPrec, lhs) == Climb(ts, rhs.next, minPrec, Binary(lhs, ts[i].value, rhs.e))
  {
    PrecedenceRange(ts[i].value);
  }

  lemma {:induction false} ClimbSound(ts: seq<Token>, start: nat, i: nat, minPrec: nat, lhs: Source) returns (p: Source)
    requires i <= |ts| && Climb(ts, i, minPrec, Meaning(lhs)).Ok? && Covers(lhs, ts, start, i)
    ensures var r := Climb(ts, i, minPrec, Meaning(lhs));
            Covers(p, ts, start, r.next) && Meaning(p) == r.e && NextPrec(ts, r.next) < minPrec
    ensures Tightness(p) >= Tightness(lhs) || Tightness(p) >= minPrec
    decreases |ts| - i, 0
  {
    hide Covers, Text, Grammatical;
    if NextPrec(ts, i) < minPrec {
      p := lhs;
    } else {
      hide Precedence, Climb, Tighten, Primary;
      ClimbRound(ts, i, minPrec, Meaning(lhs));
      var first := PrimarySound(ts, i + 1);
      var j, prec := Primary(ts, i + 1).next, Precedence(ts[i].value);
      var rhs := TightenSound(ts, i + 1, j, prec, first);
      var j' := Tighten(ts, j, prec, Meaning(first)).next;
      InfixCovers(lhs, rhs, ts, start, i, j');
      p := ClimbSound(ts, start, j', minPrec, Infix(lhs, ts[i], rhs));
    }
  }

  lemma InfixCovers(l: Source, r: Source, ts: seq<Token>, i: nat, m: nat, j: nat)
    requires Covers(l, ts, i, m) && m < |ts| && Covers(r, ts, m + 1, j) && Precedence(ts[m].value) >= 0
    requires Tightness(r) > Precedence(ts[m].value) && NextPrec(ts, j) <= Precedence(ts[m].value)
    ensures Covers(Infix(l, ts[m], r), ts, i, j)
  {
    hide Precedence;
    assert ts[i..j] == ts[i..m] + [ts[m]] + ts[m + 1..j];
  }

  lemma {:induction false} TightenSound(ts: seq<Token>, start: nat, i: nat, prec: nat, rhs: Source) returns (p: Source)
    requires i <= |ts| && Tighten(ts, i, prec, Meaning(rhs)).Ok? && Covers(rhs, ts, start, i) && Tightness(rhs) > prec
    ensures var r := Tighten(ts, i, prec, Meaning(rhs));
            Covers(p, ts, start, r.next) && Meaning(p) == r.e && NextPrec(ts, r.next) <= prec && Tightness(p) > prec
    decreases |ts| - i, 1
  {
    hide Precedence;
    if NextPrec(ts, i) > prec {
      var q := ClimbSound(ts, start, i, prec + 1, rhs);
      p := TightenSound(ts, start, Climb(ts, i, prec + 1, Meaning(rhs)).next, prec, q);
    } else {
      p := rhs;
    }
  }

  // ---- the grammar theorem ------------------------------------------------------------

  /** The parser accepts exactly the grammar, and returns exactly the tree derived. */
  lemma ParserIsGrammar(ts: seq<Token>, i: nat, e: Expr, j: nat)
    ensures Expression(ts, i) == Ok(e, j) <==> exists p :: Derives(p, ts, i, e, j)
  {
    if Expression(ts, i) == Ok(e, j) {
      var p := ExpressionSound(ts, i);
    }
    forall p | Derives(p, ts, i, e, j)
      ensures Expression(ts, i) == Ok(e, j)
    {
      ParserComplete(p, ts, i, e, j);
    }
  }

  /** No text has two meanings. */
  lemma {:induction false} Unambiguous(p: Source, q: Source)
    requires Grammatical(p) && Grammatical(q) && Text(p) == Text(q)
    ensures Meaning(p) == Meaning(q)
  {
    var ts := Text(p);
    assert ts[0..|ts|] == ts;
    ParserComplete(p, ts, 0, Meaning(p), |ts|);
    ParserComplete(q, ts, 0, Meaning(q), |ts|);
  }

  /** Two operators group by precedence, and to the left when they tie. */
  lemma ThreeOperands(a: Token, f: Token, b: Token, g: Token, c: Token)
    requires a.value != "(" && b.value != "(" && c.value != "(" && Precedence(f.value) >= 0 && Precedence(g.value) >= 0
    ensures var x, y, z := Lit(a.value), Lit(b.value), Lit(c.value);
            Expression([a, f, b, g, c], 0)
            == Ok(if Precedence(f.value) >= Precedence(g.value) then Binary(Binary(x, f.value, y), g.value, z)
                  else Binary(x, f.value, Binary(y, g.value, z)), 5)
  {
    hide Expression, Precedence, Text, Meaning;
    PrecedenceRange(f.value);
    PrecedenceRange(g.value);
    var ts := [a, f, b, g, c];
    assert ts[0..5] == ts;
    TwoInfixes(a, f, b, g, c);
    if Precedence(f.value) >= Precedence(g.value) {
      var p := Infix(Infix(Atom(a), f, Atom(b)), g, Atom(c));
      ParserComplete(p, ts, 0, Meaning(p), 5);
    } else {
      var p := Infix(Atom(a), f, Infix(Atom(b), g, Atom(c)));
      ParserComplete(p, ts, 0, Meaning(p), 5);
    }
  }

  lemma LevelPrecedence(v: string, i: nat)
    requires var levels := [["OR"], ["AND"], ["=", "!="], ["<", "<=", ">", ">="], ["+", "-"], ["*", "/", "%"]];
             i < |levels| && v in levels[i]
    ensures Precedence(v) == i + 1
  {
  }

  /**
   Operators from loosest to tightest. Two between three operands group to the right exactly if the second one is on
   a later level.
   */
  lemma OperatorsGroup(a: Token, f: Token, b: Token, g: Token, c: Token, i: nat, j: nat)
    requires var levels := [["OR"], ["AND"], ["=", "!="], ["<", "<=", ">", ">="], ["+", "-"], ["*", "/", "%"]];
             i < |levels| && j < |levels| && f.value in levels[i] && g.value in levels[j]
    requires a.value != "(" && b.value != "(" && c.value != "("
    ensures var x, y, z := Lit(a.value), Lit(b.value), Lit(c.value);
            Expression([a, f, b, g, c], 0)
            == Ok(if i < j then Binary(x, f.value, Binary(y, g.value, z)) else Binary(Binary(x, f.value, y), g.value, z), 5)
  {
    hide Precedence, Expression;
    LevelPrecedence(f.value, i);
    LevelPrecedence(g.value, j);
    ThreeOperands(a, f, b, g, c);
  }

  /** Nothing else is an operator: any other token ends the expression. */
  lemma OtherTokensEnd(a: Token, t: Token, rest: seq<Token>)
    requires a.value != "("
    requires t.value !in {"OR", "AND", "=", "!=", "<", "<=", ">", ">=", "+", "-", "*", "/", "%"}
    ensures Expression([a, t] + rest, 0) == Ok(Lit(a.value), 1)
  {
    hide Tighten;
    var ts := [a, t] + rest;
    assert Primary(ts, 0) == Ok(Lit(a.value), 1);
    assert NextPrec(ts, 1) == -1;
  }

  /** What may close a group, and the two errors. */
  lemma GroupsAndErrors(o: Token, a: Token, p: Token, f: Token)
    requires o.value == "(" && a.value != "("
    requires p.value !in {"OR", "AND", "=", "!=", "<", "<=", ">", ">=", "+", "-", "*", "/", "%"} && f.value == "+"
    ensures Expression([o, a, p], 0)
         == if p.kind == Punctuation then Ok(Lit(a.value), 3) else Error(ExpectedCloseParen)
    ensures Expression([o, a], 0) == Error(ExpectedCloseParen)
    ensures Expression([], 0) == Expression([o], 0) == Expression([a, f], 0) == Error(UnexpectedEnd)
  {
    OneInside([o, a, p], o, a);
    OneInside([o, a], o, a);
    assert Primary([], 0) == Error(UnexpectedEnd) && Primary([o], 1) == Error(UnexpectedEnd);
    assert Expression([o], 1) == Error(UnexpectedEnd);
    assert Primary([a, f], 0) == Ok(Lit(a.value), 1) && Primary([a, f], 2) == Error(UnexpectedEnd);
    assert Climb([a, f], 1, 0, Lit(a.value)) == Error(UnexpectedEnd);
  }

  lemma OneInside(ts: seq<Token>, o: Token, a: Token)
    requires 2 <= |ts| <= 3 && ts[0] == o && ts[1] == a && o.value == "(" && a.value != "(" && NextPrec(ts, 2) < 0
    ensures Expression(ts, 0)
         == if |ts| == 3 && ts[2].kind == Punctuation then Ok(Lit(a.value), 3) else Error(ExpectedCloseParen)
  {
    hide Precedence, Tighten;
    assert Primary(ts, 1) == Ok(Lit(a.value), 2);
    assert Expression(ts, 1) == Ok(Lit(a.value), 2);
    assert NextPrec(ts, 3) < 0;
  }

  lemma OneInfix(a: Token, f: Token, b: Token)
    ensures Text(Infix(Atom(a), f, Atom(b))) == [a, f, b]
    ensures Meaning(Infix(Atom(a), f, Atom(b))) == Binary(Lit(a.value), f.value, Lit(b.value))
  {
    assert Text(Atom(a)) == [a] && Text(Atom(b)) == [b];
  }

  lemma TwoInfixes(a: Token, f: Token, b: Token, g: Token, c: Token)
    ensures var p, x, y, z := Infix(Infix(Atom(a), f, Atom(b)), g, Atom(c)), Lit(a.value), Lit(b.value), Lit(c.value);
            Text(p) == [a, f, b, g, c] && Meaning(p) == Binary(Binary(x, f.value, y), g.value, z)
    ensures var p, x, y, z := Infix(Atom(a), f, Infix(Atom(b), g, Atom(c))), Lit(a.value), Lit(b.value), Lit(c.value);
            Text(p) == [a, f, b, g, c] && Meaning(p) == Binary(x, f.value, Binary(y, g.value, z))
  {
    OneInfix(a, f, b);
    OneInfix(b, g, c);
    assert Text(Atom(a)) == [a] && Text(Atom(c)) == [c];
    assert [a, f, b] + [g] + [c] == [a, f, b, g, c] && [a] + [f] + [b, g, c] == [a, f, b, g, c];
  }

  /** Parsing undoes printing exactly for the trees without a "(" literal. */
  lemma {:induction false} ParseUndoesPrint(e: Expr, tail: seq<Token>)
    requires Printable(e) && NextPrec(tail, 0) < 0
    ensures var ts := Text(Print(e)) + tail;
            Expression(ts, 0) == Ok(e, |Text(Print(e))|) <==> NoParenLiteral(e)
  {
    var text := Text(Print(e));
    var ts := text + tail;
    PrintMeans(e);
    if NoParenLiteral(e) {
      PrintGrammatical(e);
      assert ts[0..|text|] == text;
      assert tail != [] ==> ts[|text|] == tail[0];
      ParserComplete(Print(e), ts, 0, e, |text|);
    }
    if Expression(ts, 0) == Ok(e, |text|) {
      var p := ExpressionSound(ts, 0);
      GrammaticalMeaning(p);
    }
  }

  // ---- the parser ---------------------------------------------------------------------

  class Parser {
    const tokens: seq<Token>
    var currentIndex: nat

    constructor (tokens: seq<Token>)
      ensures this.tokens == tokens && currentIndex == 0
    {
      this.tokens, currentIndex := tokens, 0;
    }

    function CurrentToken(): Option<Token>
      reads this
    {
      if currentIndex < |tokens| then Some(tokens[currentIndex]) else None
    }

    method AdvanceToken()
      modifies this
      ensures currentIndex == old(currentIndex) + if old(currentIndex) < |tokens| then 1 else 0
    {
      if currentIndex < |tokens| { currentIndex := currentIndex + 1; }
    }

    method MatchToken(expected: TokenType) returns (ok: bool)
      modifies this
      ensures ok <==> old(currentIndex) < |tokens| && tokens[old(currentIndex)].kind == expected
      ensures currentIndex == old(currentIndex) + if ok then 1 else 0
    {
      ok := CurrentToken().Some? && CurrentToken().value.kind == expected;
      if ok { AdvanceToken(); }
    }

    /** A parse method did what its specification says: same result, and the cursor moved to the next token. */
    ghost predicate Matches(r: Parsed, spec: Parsed)
      reads this
    {
      r == spec && (r.Ok? ==> currentIndex == r.next)
    }

    method ParsePrimary() returns (r: Parsed)
      modifies this
      ensures Matches(r, Primary(tokens, old(currentIndex)))
      decreases |tokens| - currentIndex, 0
    {
      if CurrentToken().None? { return Error(UnexpectedEnd); }
      if CurrentToken().value.value == "(" {
        AdvanceToken();
        var inner := ParseExpression();
        if inner.Error? { return inner; }
        var closed := MatchToken(Punctuation);
        if !closed { return Error(ExpectedCloseParen); }
        return Ok(inner.e, currentIndex);
      }
      var literal := Lit(CurrentToken().value.value);
      AdvanceToken();
      return Ok(literal, currentIndex);
    }

    method ParseExpression() returns (r: Parsed)
      modifies this
      ensures Matches(r, Expression(tokens, old(currentIndex)))
      decreases |tokens| - currentIndex, 1
    {
      r := ParsePrimary();
      if r.Ok? {
        r := ParseBinaryOperation(0, r.e);
      }
    }

    method ParseBinaryOperation(minPrec: nat, lhs0: Expr) returns (r: Parsed)
      requires currentIndex <= |tokens|
      modifies this
      ensures Matches(r, Climb(tokens, old(currentIndex), minPrec, lhs0))
      decreases |tokens| - currentIndex, 0
    {
      hide Precedence, Primary, Expression;
      var lhs := lhs0;
      while true
        invariant old(currentIndex) <= currentIndex <= |tokens|
        invariant Climb(tokens, currentIndex, minPrec, lhs) == Climb(tokens, old(currentIndex), minPrec, lhs0)
        decreases |tokens| - currentIndex
      {
        if CurrentToken().None? { break; }
        var currentPrec := Precedence(CurrentToken().value.value);
        if currentPrec < minPrec { break; }
        var op := CurrentToken().value.value;
        ghost var opIndex := currentIndex;
        AdvanceToken();
        var operand := ParsePrimary();
        if operand.Error? { return operand; }
        var rhs := operand.e;
        while CurrentToken().Some?
          invariant opIndex < currentIndex <= |tokens|
          invariant Tighten(tokens, currentIndex, currentPrec, rhs) == Tighten(tokens, operand.next, currentPrec, operand.e)
          decreases |tokens| - currentIndex
        {
          var nextPrec := Precedence(CurrentToken().value.value);
          if nextPrec > currentPrec {
            var tighter := ParseBinaryOperation(currentPrec + 1, rhs);
            if tighter.Error? { return tighter; }
            rhs := tighter.e;
          } else {
            break;
          }
        }
        lhs := Binary(lhs, op, rhs);
      }
      return Ok(lhs, currentIndex);
    }
  }
}
