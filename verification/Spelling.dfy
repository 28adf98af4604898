/** The spellings of tokens, and the two ways between text and tokens. */
module Spelling {
  import opened Ordering
  import opened Characters
  import opened Grammar
  import opened ExpressionParser
  import opened Tokenizer

  // ---- well-formed spellings ----------------------------------------------------------

  /** Digits, and perhaps a point with further digits behind it. */
  predicate IsNumber(w: string) {
    exists n :: 0 < n <= |w| && IsNumberAt(w, n)
  }

  predicate IsNumberAt(w: string, n: nat)
    requires n <= |w|
  {
    && (forall k :: 0 <= k < n ==> IsDigit(w[k]))
    && (n < |w| ==> w[n] == '.' && forall k :: n < k < |w| ==> IsDigit(w[k]))
  }

  predicate IsWord(w: string) {
    w != "" && !IsDigit(w[0]) && forall k :: 0 <= k < |w| ==> IsWordChar(w[k])
  }

  /** No unescaped quote inside, and no escape left open at the end. */
  predicate IsStringBody(body: string, quote: char) {
    if body == "" then true
    else if body[0] == '\\' then |body| > 1 && IsStringBody(body[2..], quote)
    else body[0] != quote && IsStringBody(body[1..], quote)
  }

  predicate IsString(w: string) {
    |w| >= 2 && IsQuote(w[0]) && w[|w| - 1] == w[0] && IsStringBody(w[1..|w| - 1], w[0])
  }

  predicate IsSign(w: string) {
    |w| == 1 && !IsSpace(w[0]) && !IsQuote(w[0]) && !IsWordChar(w[0])
  }

  /** `w` is a way to write `t`. */
  predicate Spells(w: string, t: Token) {
    || (IsNumber(w) && t == Token(TokenType.Literal, w))
    || (IsString(w) && t == Token(TokenType.Literal, w[1..|w| - 1]))
    || (IsWord(w) && t == WordToken(w))
    || (IsPair(w) && t == Token(Punctuation, w))
    || (IsSign(w) && t == CharToken(w[0]))
  }

  /** A spelled token and the white space before it. */
  datatype Piece = Piece(gap: string, word: string, token: Token)

  predicate AllSpace(gap: string) {
    forall k :: 0 <= k < |gap| ==> IsSpace(gap[k])
  }

  predicate WellSpelled(ps: seq<Piece>) {
    forall p <- ps :: AllSpace(p.gap) && Spells(p.word, p.token)
  }

  /** Neighbouring words do not touch. */
  predicate Spaced(ps: seq<Piece>) {
    forall k :: 0 < k < |ps| ==> ps[k].gap != ""
  }

  function Written(ps: seq<Piece>, end: string): string {
    if ps == [] then end else ps[0].gap + ps[0].word + Written(ps[1..], end)
  }

  function TokensOf(ps: seq<Piece>): (ts: seq<Token>)
    ensures |ts| == |ps|
  {
    seq(|ps|, k requires 0 <= k < |ps| => ps[k].token)
  }

  // ---- one token ----------------------------------------------------------------------

  /** `w` stands at `i` and no word character, digit or sign continues it. */
  predicate StandsAt(w: string, s: string, i: nat) {
    i + |w| <= |s| && s[i..i + |w|] == w && (i + |w| == |s| || IsSpace(s[i + |w|]))
  }

  lemma SpanInside(w: string, s: string, i: nat, k: nat, p: char -> bool)
    requires StandsAt(w, s, i) && k <= |w|
    requires forall c :: IsSpace(c) ==> !p(c)
    ensures Span(s, i + k, p) == i + Span(w, k, p)
  {
    var j := Span(w, k, p);
    forall m | k <= m < |w|
      ensures s[i + m] == w[m]
    {
      assert s[i..i + |w|][m] == s[i + m];
    }
    assert i + j < |s| ==> !p(s[i + j]);
    assert forall m :: i + k <= m < i + j ==> p(s[m]) by {
      forall m | i + k <= m < i + j ensures p(s[m]) { assert p(w[m - i]); }
    }
  }

  lemma {:induction false} StringEndInside(s: string, i: nat, j: nat, quote: char)
    requires i <= j < |s| && s[j] == quote && quote != '\\'
    ensures IsStringBody(s[i..j], quote) <==> StringEnd(s, i, quote) == j
    decreases j - i
  {
    var body := s[i..j];
    if i < j {
      assert body[0] == s[i];
      if s[i] == '\\' {
        if i + 1 < j {
          assert body[2..] == s[i + 2..j];
          StringEndInside(s, i + 2, j, quote);
        } else {
          assert |body| == 1;
        }
      } else if s[i] != quote {
        assert body[1..] == s[i + 1..j];
        StringEndInside(s, i + 1, j, quote);
      }
    }
  }

  /** Where a number's digits and what follows its point end. */
  lemma NumberEnds(w: string, n: nat)
    requires 0 < n <= |w| && IsNumberAt(w, n)
    ensures Span(w, 0, IsDigit) == n && (n < |w| ==> Span(w, n + 1, IsDigit) == |w|)
  {
    hide IsDigit;
    assert n < |w| ==> !IsDigit(w[n]) by { PointIsNoDigit(); }
  }

  lemma PointIsNoDigit()
    ensures !IsDigit('.')
  {
  }

  lemma LexNumber(w: string, s: string, i: nat)
    requires IsNumber(w) && StandsAt(w, s, i)
    ensures Lex(s, i) == Lexeme(Token(TokenType.Literal, w), i + |w|)
  {
    hide IsKeyword, StringEnd, Span;
    var n :| 0 < n <= |w| && IsNumberAt(w, n);
    NumberEnds(w, n);
    assert w[0] == s[i..i + |w|][0] == s[i];
    SpanInside(w, s, i, 0, IsDigit);
    if n < |w| {
      assert w[n] == s[i..i + |w|][n] == s[i + n];
      SpanInside(w, s, i, n + 1, IsDigit);
    }
  }

  lemma Inner(w: string, s: string, i: nat)
    requires |w| >= 2 && i + |w| <= |s| && s[i..i + |w|] == w
    ensures w[1..|w| - 1] == s[i + 1..i + |w| - 1]
  {
    forall k | 1 <= k < |w| - 1
      ensures w[k] == s[i + k]
    {
      assert s[i..i + |w|][k] == s[i + k];
    }
  }

  lemma LexString(w: string, s: string, i: nat)
    requires IsString(w) && StandsAt(w, s, i)
    ensures Lex(s, i) == Lexeme(Token(TokenType.Literal, w[1..|w| - 1]), i + |w|)
  {
    var j := i + |w| - 1;
    assert s[i] == s[i..i + |w|][0] == w[0];
    assert s[j] == s[i..i + |w|][|w| - 1] == w[0];
    Inner(w, s, i);
    StringEndInside(s, i + 1, j, s[i]);
  }

  lemma LexWord(w: string, s: string, i: nat)
    requires IsWord(w) && StandsAt(w, s, i)
    ensures Lex(s, i) == Lexeme(WordToken(w), i + |w|)
  {
    hide IsKeyword, IsPair, WordToken, CharToken, Span;
    assert s[i] == s[i..i + |w|][0] == w[0];
    SpanInside(w, s, i, 0, IsWordChar);
    assert Span(w, 0, IsWordChar) == |w|;
  }

  lemma LexSign(w: string, s: string, i: nat)
    requires (IsPair(w) || IsSign(w)) && StandsAt(w, s, i)
    ensures Lex(s, i) == Lexeme(if IsPair(w) then Token(Punctuation, w) else CharToken(w[0]), i + |w|)
  {
    assert s[i] == s[i..i + |w|][0] == w[0];
    if IsSign(w) && i + 1 < |s| {
      assert s[i..i + 2][1] == s[i + 1] && IsSpace(s[i + 1]);
    }
  }

  /** A spelled token that stands alone is read back. */
  lemma LexSpelled(w: string, t: Token, s: string, i: nat)
    requires Spells(w, t) && StandsAt(w, s, i)
    ensures i < |s| && Lex(s, i) == Lexeme(t, i + |w|) && !IsSpace(s[i])
  {
    hide Lex, IsStringBody, NumberEnd, WordToken, CharToken, IsKeyword;
    assert w != "";
    assert s[i] == s[i..i + |w|][0] == w[0];
    assert !IsSpace(w[0]);
    if IsNumber(w) && t == Token(TokenType.Literal, w) {
      LexNumber(w, s, i);
    } else if IsString(w) && t == Token(TokenType.Literal, w[1..|w| - 1]) {
      LexString(w, s, i);
    } else if IsWord(w) && t == WordToken(w) {
      LexWord(w, s, i);
    } else {
      LexSign(w, s, i);
    }
  }

  /** Whatever is read is a spelled token. */
  lemma LexReads(s: string, i: nat)
    requires i < |s| && !IsSpace(s[i]) && Lex(s, i).Lexeme?
    ensures Spells(s[i..Lex(s, i).next], Lex(s, i).token)
  {
    var j := Lex(s, i).next;
    var w := s[i..j];
    assert w[0] == s[i];
    if IsDigit(s[i]) {
      NumberReads(s, i);
    } else if IsQuote(s[i]) {
      Inner(w, s, i);
      StringEndInside(s, i + 1, j - 1, s[i]);
    } else if IsWordChar(s[i]) {
      forall k | 0 <= k < |w|
        ensures IsWordChar(w[k])
      {
        assert w[k] == s[i + k];
      }
    }
  }

  lemma NumberReads(s: string, i: nat)
    requires i < |s| && IsDigit(s[i])
    ensures IsNumber(s[i..NumberEnd(s, i)])
  {
    var j := NumberEnd(s, i);
    var w, k := s[i..j], Span(s, i, IsDigit);
    hide IsDigit;
    forall m | 0 <= m < |w|
      ensures w[m] == s[i + m]
    {
    }
    assert IsNumberAt(w, k - i);
  }

  // ---- the longest token --------------------------------------------------------------

  /** Some token is spelled so. */
  predicate Spellable(w: string) {
    IsNumber(w) || IsString(w) || IsWord(w) || IsPair(w) || IsSign(w)
  }

  lemma SpellableExactly(w: string)
    ensures Spellable(w) <==> exists t :: Spells(w, t)
  {
    hide IsNumber, IsString, IsWord, IsPair, IsSign, WordToken, CharToken;
    if IsNumber(w) {
      assert Spells(w, Token(TokenType.Literal, w));
    } else if IsString(w) {
      assert |w| >= 2 by { LongEnough(w); }
      assert Spells(w, Token(TokenType.Literal, w[1..|w| - 1]));
    } else if IsWord(w) {
      assert Spells(w, WordToken(w));
    } else if IsPair(w) {
      assert Spells(w, Token(Punctuation, w));
    } else if IsSign(w) {
      assert w != "" by { LongEnough(w); }
      assert Spells(w, CharToken(w[0]));
    }
  }

  lemma LongEnough(w: string)
    ensures (IsString(w) ==> |w| >= 2) && (IsSign(w) ==> |w| == 1)
  {
  }

  lemma NumberFits(s: string, i: nat, j: nat)
    requires i < j <= |s| && IsNumber(s[i..j])
    ensures j <= NumberEnd(s, i)
  {
    var w := s[i..j];
    forall m | 0 <= m < |w|
      ensures w[m] == s[i + m]
    {
    }
    var n :| 0 < n <= |w| && IsNumberAt(w, n);
    PointIsNoDigit();
    hide IsDigit;
    assert forall m :: i <= m < i + n ==> IsDigit(s[m]) by {
      forall m | i <= m < i + n ensures IsDigit(s[m]) { assert w[m - i] == s[m]; }
    }
    if n < |w| {
      assert w[n] == s[i + n] && Span(s, i, IsDigit) == i + n;
      forall m | i + n < m < j ensures IsDigit(s[m]) { assert w[m - i] == s[m]; }
    }
  }

  lemma {:induction false} StringFits(s: string, i: nat, j: nat)
    requires i < j <= |s| && IsString(s[i..j])
    ensures IsQuote(s[i]) && StringEnd(s, i + 1, s[i]) == j - 1
  {
    var w := s[i..j];
    assert IsQuote(w[0]) && w[0] != '\\' && |w| >= 2 && w[|w| - 1] == w[0];
    hide IsQuote, IsStringBody, StringEnd;
    assert w[0] == s[i] && w[|w| - 1] == s[j - 1];
    Inner(w, s, i);
    StringEndInside(s, i + 1, j - 1, s[i]);
  }

  lemma NoLongerWord(s: string, i: nat, j: nat)
    requires i < |s| && IsWordChar(s[i]) && Span(s, i, IsWordChar) < j <= |s|
    ensures !IsWord(s[i..j])
  {
    var e := Span(s, i, IsWordChar);
    assert s[i..j][e - i] == s[e];
  }

  /** The kinds of tokens are told apart by their first character, and the last two kinds by their length. */
  lemma KindByFirst(w: string)
    requires w != ""
    ensures IsNumber(w) ==> IsDigit(w[0])
    ensures IsString(w) ==> IsQuote(w[0])
    ensures IsWord(w) ==> IsWordChar(w[0]) && !IsDigit(w[0])
    ensures IsPair(w) || IsSign(w) ==> !IsDigit(w[0]) && !IsQuote(w[0]) && !IsWordChar(w[0])
    ensures (IsPair(w) ==> |w| == 2) && (IsSign(w) ==> |w| == 1)
    ensures !(IsQuote(w[0]) && IsWordChar(w[0])) && (IsDigit(w[0]) ==> IsWordChar(w[0]))
  {
  }

  /**
   The scanner takes the longest spelling that stands at `i`: the text up to the token's end spells it, and no longer
   piece of the text spells anything. A string that is not closed spells nothing at all.
   */
  lemma LongestSpelling(s: string, i: nat)
    requires i < |s| && !IsSpace(s[i])
    ensures Lex(s, i).Lexeme? ==>
              && Spells(s[i..Lex(s, i).next], Lex(s, i).token)
              && forall j :: Lex(s, i).next < j <= |s| ==> !Spellable(s[i..j])
    ensures Lex(s, i).Unterminated? ==> forall j :: i < j <= |s| ==> !Spellable(s[i..j])
  {
    if Lex(s, i).Lexeme? { LexReads(s, i); }
    hide Spells;
    forall j | i < j <= |s| && (Lex(s, i).Lexeme? ==> Lex(s, i).next < j)
      ensures !Spellable(s[i..j])
    {
      NothingLonger(s, i, j);
    }
  }

  lemma NothingLonger(s: string, i: nat, j: nat)
    requires i < j <= |s| && !IsSpace(s[i]) && (Lex(s, i).Lexeme? ==> Lex(s, i).next < j)
    ensures !Spellable(s[i..j])
  {
    hide IsNumber, IsString, IsWord, IsPair, IsSign, IsDigit, IsQuote, IsWordChar, NumberEnd, StringEnd, WordToken, CharToken,
         IsSpace;
    var w := s[i..j];
    assert w[0] == s[i];
    KindByFirst(w);
    if IsDigit(s[i]) {
      if IsNumber(w) { NumberFits(s, i, j); }
    } else if IsQuote(s[i]) {
      if IsString(w) { StringFits(s, i, j); }
    } else if IsWordChar(s[i]) {
      NoLongerWord(s, i, j);
    } else if j == i + 2 {
      assert i + 1 < |s| && s[i..i + 2] == w;
    }
  }

  // ---- whole texts --------------------------------------------------------------------

  /** Scanning undoes any spaced spelling of any tokens. */
  lemma {:induction false} ScanUndoesSpelling(ps: seq<Piece>, end: string, s: string, i: nat)
    requires WellSpelled(ps) && Spaced(ps) && AllSpace(end)
    requires i <= |s| && s[i..] == Written(ps, end)
    ensures Tokens(s, i) == Some(TokensOf(ps))
    decreases |ps|
  {
    hide Lex, Spells, IsSpace, Span, WellSpelled, Tokens;
    if ps == [] {
      AllSpaceSpan(s, i, |s|);
      TokensEnd(s, i);
      assert TokensOf(ps) == [];
    } else {
      var next := i + |ps[0].gap| + |ps[0].word|;
      FirstPiece(ps, end, s, i);
      FirstToken(ps, end, s, i);
      hide Written, AllSpace, Spaced;
      ScanUndoesSpelling(ps[1..], end, s, next);
      TokensNext(s, i, next, ps[0].token, TokensOf(ps[1..]));
      assert TokensOf(ps) == [ps[0].token] + TokensOf(ps[1..]);
    }
  }

  lemma {:induction false} TokensEnd(s: string, i: nat)
    requires i <= |s| && Span(s, i, IsSpace) == |s|
    ensures Tokens(s, i) == Some([])
  {
  }

  lemma {:induction false} TokensNext(s: string, i: nat, next: nat, t: Token, ts: seq<Token>)
    requires i <= |s| && next <= |s| && Span(s, i, IsSpace) < |s|
    requires Lex(s, Span(s, i, IsSpace)) == Lexeme(t, next) && Tokens(s, next) == Some(ts)
    ensures Tokens(s, i) == Some([t] + ts)
  {
    hide Lex, IsSpace, Span;
  }

  lemma {:induction false} FirstToken(ps: seq<Piece>, end: string, s: string, i: nat)
    requires ps != [] && WellSpelled(ps) && Spaced(ps) && AllSpace(end)
    requires i <= |s| && s[i..] == Written(ps, end)
    ensures WellSpelled(ps[1..]) && Spaced(ps[1..])
    ensures var start, next := i + |ps[0].gap|, i + |ps[0].gap| + |ps[0].word|;
            Span(s, i, IsSpace) == start < next <= |s| && Lex(s, start) == Lexeme(ps[0].token, next)
  {
    hide Lex, Spells, IsSpace, Written, AllSpace;
    var p := ps[0];
    FirstPiece(ps, end, s, i);
    RestSeparated(ps, end, s, i + |p.gap| + |p.word|);
    LexSpelled(p.word, p.token, s, i + |p.gap|);
    AllSpaceSpan(s, i, i + |p.gap|);
  }

  lemma FirstPiece(ps: seq<Piece>, end: string, s: string, i: nat)
    requires ps != [] && i <= |s| && s[i..] == Written(ps, end)
    ensures var start, next := i + |ps[0].gap|, i + |ps[0].gap| + |ps[0].word|;
            && next <= |s| && s[i..start] == ps[0].gap && s[start..next] == ps[0].word
            && s[next..] == Written(ps[1..], end)
  {
    var p := ps[0];
    var start, next := i + |p.gap|, i + |p.gap| + |p.word|;
    var text := s[i..];
    assert text == p.gap + p.word + Written(ps[1..], end);
    assert s[i..start] == text[..|p.gap|];
    assert s[start..next] == text[|p.gap|..|p.gap| + |p.word|];
    assert s[next..] == text[|p.gap| + |p.word|..];
  }

  lemma AllSpaceSpan(s: string, i: nat, j: nat)
    requires i <= j <= |s| && AllSpace(s[i..j]) && (j < |s| ==> !IsSpace(s[j]))
    ensures Span(s, i, IsSpace) == j
  {
    forall k | i <= k < j
      ensures IsSpace(s[k])
    {
      assert s[i..j][k - i] == s[k];
    }
  }

  /** After a word comes white space or the end. */
  lemma RestSeparated(ps: seq<Piece>, end: string, s: string, next: nat)
    requires ps != [] && WellSpelled(ps) && Spaced(ps) && AllSpace(end)
    requires next <= |s| && s[next..] == Written(ps[1..], end)
    ensures next == |s| || IsSpace(s[next])
  {
    hide IsSpace, Spells;
    if next < |s| {
      assert s[next] == s[next..][0];
      if |ps| == 1 {
        assert s[next] == end[0];
      } else {
        assert ps[1..][0] == ps[1];
        assert s[next] == ps[1].gap[0];
      }
    }
  }

  /** From `i` on every piece's word is the longest piece of the text that spells a token. */
  predicate Greedy(ps: seq<Piece>, s: string, i: nat)
    requires i <= |s|
  {
    ps != [] ==>
      var start, next := i + |ps[0].gap|, i + |ps[0].gap| + |ps[0].word|;
      && next <= |s| && (forall j :: next < j <= |s| ==> !Spellable(s[start..j]))
      && Greedy(ps[1..], s, next)
  }

  lemma GapBefore(s: string, i: nat)
    requires i <= |s|
    ensures AllSpace(s[i..Span(s, i, IsSpace)])
  {
    hide IsSpace;
    var gap := s[i..Span(s, i, IsSpace)];
    forall k | 0 <= k < |gap|
      ensures IsSpace(gap[k])
    {
      assert s[i + k] == gap[k];
    }
  }

  /** One more piece in front: what stands from `i` to `to`. */
  lemma {:induction false} PieceInFront(p: Piece, qs: seq<Piece>, end: string, s: string, i: nat, start: nat, next: nat,
                                        to: nat)
    requires i <= start <= next <= to <= |s| && p.gap == s[i..start] && p.word == s[start..next]
    requires AllSpace(p.gap) && Spells(p.word, p.token) && WellSpelled(qs) && s[next..to] == Written(qs, end)
    requires Greedy(qs, s, next) && forall j :: next < j <= |s| ==> !Spellable(s[start..j])
    ensures WellSpelled([p] + qs) && s[i..to] == Written([p] + qs, end) && Greedy([p] + qs, s, i)
    ensures TokensOf([p] + qs) == [p.token] + TokensOf(qs)
  {
    hide Spells, Spellable, IsSpace, AllSpace;
    assert ([p] + qs)[1..] == qs;
    assert s[i..to] == s[i..start] + s[start..next] + s[next..to];
  }

  /**
   Every accepted text is a spelling of the tokens returned, each as long as it can be: nothing is dropped and nothing
   invented.
   */
  lemma {:induction false} ScanIsSpelling(s: string, i: nat) returns (ps: seq<Piece>, end: string)
    requires i <= |s| && Tokens(s, i).Some?
    ensures WellSpelled(ps) && AllSpace(end) && s[i..] == Written(ps, end) && Tokens(s, i).value == TokensOf(ps)
    ensures Greedy(ps, s, i)
    decreases |s| - i
  {
    hide Lex, Spells, Spellable, IsSpace, Span, AllSpace;
    var start := Span(s, i, IsSpace);
    GapBefore(s, i);
    if start == |s| {
      ps, end := [], s[i..];
      assert s[i..] == s[i..start] && TokensOf(ps) == [];
    } else {
      var next := Lex(s, start).next;
      LongestSpelling(s, start);
      var qs;
      qs, end := ScanIsSpelling(s, next);
      assert s[next..|s|] == s[next..] && s[i..|s|] == s[i..];
      var p := Piece(s[i..start], s[start..next], Lex(s, start).token);
      hide Tokens, Written, WellSpelled, Greedy;
      PieceInFront(p, qs, end, s, i, start, next, |s|);
      ps := [p] + qs;
      TokensNext(s, i, next, p.token, TokensOf(qs));
    }
  }

  /** A text is rejected only for a string that is never closed, behind tokens that are read as usual. */
  lemma {:induction false} RejectedIsUnclosed(s: string, i: nat) returns (ps: seq<Piece>, gap: string, start: nat)
    requires i <= |s| && Tokens(s, i).None?
    ensures i <= start < |s| && WellSpelled(ps) && AllSpace(gap) && s[i..start] == Written(ps, gap) && Greedy(ps, s, i)
    ensures IsQuote(s[start]) && forall j :: start < j <= |s| ==> !Spellable(s[start..j])
    decreases |s| - i
  {
    hide Spells, Spellable, IsSpace, IsKeyword, Span, IsDigit, IsWordChar, IsPair, StringEnd, NumberEnd, AllSpace;
    var from := Span(s, i, IsSpace);
    GapBefore(s, i);
    LongestSpelling(s, from);
    if Lex(s, from).Unterminated? {
      ps, gap, start := [], s[i..from], from;
    } else {
      var next := Lex(s, from).next;
      var qs;
      qs, gap, start := RejectedIsUnclosed(s, next);
      var p := Piece(s[i..from], s[from..next], Lex(s, from).token);
      hide Tokens, Lex, Written, WellSpelled, Greedy;
      PieceInFront(p, qs, gap, s, i, from, next, start);
      ps := [p] + qs;
    }
  }
}
