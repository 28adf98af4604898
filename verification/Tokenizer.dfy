/** The scanner: text to tokens, and the spellings it undoes. */
module Tokenizer {
  import opened Ordering
  import opened Characters
  import opened Grammar
  import opened ExpressionParser

  // ---- characters (the C locale) ------------------------------------------------------

  predicate IsWordChar(c: char) {
    IsDigit(c) || 'A' <= c <= 'Z' || 'a' <= c <= 'z' || c == '_'
  }

  predicate IsPunct(c: char) {
    '!' <= c <= '/' || ':' <= c <= '@' || '[' <= c <= '`' || '{' <= c <= '~'
  }

  predicate IsQuote(c: char) {
    c == '\'' || c == '"'
  }

  predicate IsKeyword(word: string) {
    word in {"CREATE", "INSERT", "INTO", "VALUES", "UPDATE", "SET", "WHERE", "DELETE", "FROM", "TABLE"}
  }

  predicate IsPair(text: string) {
    text == "<=" || text == ">=" || text == "!=" || text == "=="
  }

  /** The classes, character by character. */
  lemma CharacterClasses(c: char)
    ensures IsSpace(c) <==> c in {' ', '\t', '\n', '\r', 11 as char, 12 as char}
    ensures IsDigit(c) <==> c in "0123456789"
    ensures IsWordChar(c)
       <==> c in "abcdefghijklmnopqrstuvwxyz" || c in "ABCDEFGHIJKLMNOPQRSTUVWXYZ" || c in "0123456789" || c == '_'
    ensures IsPunct(c) <==> '!' <= c <= '~' && (c == '_' || !IsWordChar(c))
    ensures IsQuote(c) <==> c == '\'' || c == '"'
  {
  }

  /** The words that are keywords; every other word is an identifier. Signs are punctuation, and the rest are symbols. */
  lemma TokenKinds(w: string, c: char)
    ensures WordToken(w).value == w && WordToken(w).kind in {Keyword, Identifier}
    ensures WordToken(w).kind == Keyword
       <==> || w == "CREATE" || w == "TABLE" || w == "INSERT" || w == "INTO" || w == "VALUES" || w == "UPDATE"
            || w == "SET" || w == "DELETE" || w == "FROM" || w == "WHERE"
    ensures CharToken(c).value == [c] && CharToken(c).kind in {Punctuation, Symbol}
    ensures CharToken(c).kind == Punctuation <==> IsPunct(c)
  {
  }

  // ---- what the scanner's loops compute -----------------------------------------------

  /** The closing quote of the string whose body starts at `i`, or the end of the text. */
  function StringEnd(s: string, i: nat, quote: char): (j: nat)
    requires i <= |s|
    ensures i <= j <= |s| && (j < |s| ==> s[j] == quote)
    decreases |s| - i
  {
    if i == |s| || s[i] == quote then i
    else if s[i] == '\\' && i + 1 < |s| then StringEnd(s, i + 2, quote)
    else StringEnd(s, i + 1, quote)
  }

  function NumberEnd(s: string, i: nat): (j: nat)
    requires i <= |s|
    ensures i <= j <= |s|
  {
    var k := Span(s, i, IsDigit);
    if k < |s| && s[k] == '.' then Span(s, k + 1, IsDigit) else k
  }

  function WordToken(word: string): Token {
    Token(if IsKeyword(word) then Keyword else Identifier, word)
  }

  function CharToken(c: char): Token {
    Token(if IsPunct(c) then Punctuation else Symbol, [c])
  }

  datatype Lexeme = Lexeme(token: Token, next: nat) | Unterminated

  /** The token at `i` and where it ends. */
  function Lex(s: string, i: nat): (r: Lexeme)
    requires i < |s|
    ensures r.Lexeme? ==> i < r.next <= |s|
  {
    if IsDigit(s[i]) then Lexeme(Token(TokenType.Literal, s[i..NumberEnd(s, i)]), NumberEnd(s, i))
    else if IsQuote(s[i]) then
      var j := StringEnd(s, i + 1, s[i]);
      if j == |s| then Unterminated else Lexeme(Token(TokenType.Literal, s[i + 1..j]), j + 1)
    else if IsWordChar(s[i]) then
      var j := Span(s, i, IsWordChar);
      Lexeme(WordToken(s[i..j]), j)
    else if i + 1 < |s| && IsPair(s[i..i + 2]) then Lexeme(Token(Punctuation, s[i..i + 2]), i + 2)
    else Lexeme(CharToken(s[i]), i + 1)
  }

  /** All tokens from `i` on; None when a string is never closed. */
  function Tokens(s: string, i: nat): Option<seq<Token>>
    requires i <= |s|
    decreases |s| - i
  {
    var start := Span(s, i, IsSpace);
    if start == |s| then Some([])
    else
      match Lex(s, start)
      case Unterminated => None
      case Lexeme(t, next) =>
        match Tokens(s, next)
        case None => None
        case Some(ts) => Some([t] + ts)
  }

  // ---- the scanner --------------------------------------------------------------------

  method Skip(s: string, i: nat, p: char -> bool) returns (j: nat)
    requires i <= |s|
    ensures j == Span(s, i, p)
  {
    j := i;
    while j < |s| && p(s[j])
      invariant i <= j <= |s| && Span(s, j, p) == Span(s, i, p)
    {
      j := j + 1;
    }
  }

  method SkipString(s: string, i: nat, quote: char) returns (j: nat)
    requires i <= |s|
    ensures j == StringEnd(s, i, quote)
  {
    j := i;
    while j < |s| && s[j] != quote
      invariant i <= j <= |s| && StringEnd(s, j, quote) == StringEnd(s, i, quote)
    {
      if s[j] == '\\' && j + 1 < |s| {
        j := j + 2;
      } else {
        j := j + 1;
      }
    }
  }

  /** What is left to do at `i` once `done` has been produced. */
  ghost predicate Pending(done: seq<Token>, s: string, i: nat) {
    i <= |s| && Tokens(s, 0) == match Tokens(s, i) case None => None case Some(ts) => Some(done + ts)
  }

  lemma PendingFirst(s: string)
    ensures Pending([], s, 0)
  {
    hide Lex;
    match Tokens(s, 0) {
      case None =>
      case Some(ts) => assert [] + ts == ts;
    }
  }

  lemma PendingSkip(done: seq<Token>, s: string, i: nat)
    requires Pending(done, s, i)
    ensures Pending(done, s, Span(s, i, IsSpace))
  {
  }

  lemma PendingStep(done: seq<Token>, s: string, i: nat)
    requires Pending(done, s, i) && i < |s| && !IsSpace(s[i])
    ensures Lex(s, i).Unterminated? ==> Tokens(s, 0) == None
    ensures Lex(s, i).Lexeme? ==> Pending(done + [Lex(s, i).token], s, Lex(s, i).next)
  {
    hide Lex;
    if Lex(s, i).Lexeme? {
      match Tokens(s, Lex(s, i).next) {
        case None =>
        case Some(ts) => assert done + ([Lex(s, i).token] + ts) == done + [Lex(s, i).token] + ts;
      }
    }
  }

  lemma {:induction false} PendingDone(done: seq<Token>, s: string)
    requires Pending(done, s, |s|)
    ensures Tokens(s, 0) == Some(done)
  {
    assert Tokens(s, |s|) == Some([]);
    assert done + [] == done;
  }

  method Tokenize(s: string) returns (r: Option<seq<Token>>)
    ensures r == Tokens(s, 0)
  {
    hide Tokens, IsKeyword, IsSpace, IsDigit, IsWordChar, IsQuote, IsPair, WordToken, CharToken, Pending, Span, StringEnd;
    PendingFirst(s);
    var tokens: seq<Token>, position := [], 0;
    while position < |s|
      invariant position <= |s| && Pending(tokens, s, position)
    {
      PendingSkip(tokens, s, position);
      position := Skip(s, position, IsSpace);
      if position >= |s| { break; }
      PendingStep(tokens, s, position);
      var start, c := position, s[position];
      if IsDigit(c) {
        position := Skip(s, position, IsDigit);
        if position < |s| && s[position] == '.' {
          position := Skip(s, position + 1, IsDigit);
        }
        tokens := tokens + [Token(TokenType.Literal, s[start..position])];
      } else if IsQuote(c) {
        position := SkipString(s, position + 1, c);
        if position >= |s| { return None; }
        tokens := tokens + [Token(TokenType.Literal, s[start + 1..position])];
        position := position + 1;
      } else if IsWordChar(c) {
        position := Skip(s, position, IsWordChar);
        tokens := tokens + [WordToken(s[start..position])];
      } else if position + 1 < |s| && IsPair(s[position..position + 2]) {
        position := position + 2;
        tokens := tokens + [Token(Punctuation, s[start..position])];
      } else {
        position := position + 1;
        tokens := tokens + [CharToken(c)];
      }
    }
    PendingDone(tokens, s);
    r := Some(tokens);
  }
}
