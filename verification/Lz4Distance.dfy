/** Which zero-free inputs survive compression, told by their bytes: the one distance two bytes cannot hold. */
module Lz4Distance {
  import opened Lz4Format

  /** Where the tokens of the rest of the input start. */
  function Starts(data: seq<byte>, i: nat, hashes: map<nat, nat>): (r: seq<nat>)
    requires i <= |data| && Earlier(hashes, i)
    ensures forall s <- r :: i <= s < |data|
    decreases |data| - i
  {
    if i == |data| then [] else [i] + Starts(data, i + Size(TokenAt(data, i, hashes)), Noted(data, i, hashes))
  }

  function TokenStarts(data: seq<byte>): seq<nat> {
    Starts(data, 0, map[])
  }

  predicate SameKey(data: seq<byte>, s: nat, i: nat)
    requires s <= i && i + MIN_MATCH <= |data|
  {
    WindowKey(data, s, MIN_MATCH) == WindowKey(data, i, MIN_MATCH)
  }

  /** The four bytes at `i` stood 65536 bytes earlier, at the last start before `i` with their key. */
  predicate FarAt(data: seq<byte>, starts: seq<nat>, i: nat) {
    && MAX_SLIDING_WINDOW_SIZE <= i && i + MIN_MATCH <= |data|
    && i - MAX_SLIDING_WINDOW_SIZE in starts && Agree(data, i - MAX_SLIDING_WINDOW_SIZE, i, MIN_MATCH)
    && forall s <- starts :: i - MAX_SLIDING_WINDOW_SIZE < s < i ==> !SameKey(data, s, i)
  }

  predicate NoneFar(data: seq<byte>, starts: seq<nat>, part: seq<nat>) {
    forall i <- part :: !FarAt(data, starts, i)
  }

  /** Some token starts where a match at distance 65536 is found. */
  predicate FarMatch(data: seq<byte>) {
    !NoneFar(data, TokenStarts(data), TokenStarts(data))
  }

  /** `hashes` holds the latest of the positions `past` for every key. */
  ghost predicate Remembers(data: seq<byte>, past: seq<nat>, i: nat, hashes: map<nat, nat>)
    requires i <= |data|
  {
    && Earlier(hashes, i) && (forall s <- past :: s < i)
    && (forall h <- hashes ::
          hashes[h] in past && hashes[h] + MIN_MATCH <= |data| && WindowKey(data, hashes[h], MIN_MATCH) == h)
    && forall s <- past :: s + MIN_MATCH <= |data| ==>
         WindowKey(data, s, MIN_MATCH) in hashes && s <= hashes[WindowKey(data, s, MIN_MATCH)]
  }

  lemma {:induction false} WindowDecidesKey(data: seq<byte>, j: nat, i: nat, k: nat)
    requires j <= i && i + MIN_MATCH <= |data| && Agree(data, j, i, MIN_MATCH) && k <= MIN_MATCH
    ensures WindowKey(data, j, k) == WindowKey(data, i, k)
    decreases k
  {
    if k > 0 {
      WindowDecidesKey(data, j, i, k - 1);
      assert data[j..j + MIN_MATCH][k - 1] == data[i..i + MIN_MATCH][k - 1];
    }
  }

  lemma {:induction false} MatchesWindow(data: seq<byte>, j: nat, i: nat)
    requires j < i && i + MIN_MATCH <= |data| && Agree(data, j, i, 0)
    ensures MatchLen(data, j, i, 0) >= MIN_MATCH <==> Agree(data, j, i, MIN_MATCH)
  {
    var n := MatchLen(data, j, i, 0);
    if n >= MIN_MATCH {
      assert data[j..j + MIN_MATCH] == data[j..j + n][..MIN_MATCH];
      assert data[i..i + MIN_MATCH] == data[i..i + n][..MIN_MATCH];
    } else {
      Stops(data, j, i, 0);
      var a, b := data[j..j + MIN_MATCH], data[i..i + MIN_MATCH];
      assert a[n] == data[j + n] && b[n] == data[i + n];
    }
  }

  /** The match ends where the bytes differ, at 255, or at the end of the input. */
  lemma {:induction false} Stops(data: seq<byte>, j: nat, i: nat, len: nat)
    requires j < i && i + len <= |data| && len <= 255 && Agree(data, j, i, len)
    ensures var n := MatchLen(data, j, i, len); n == 255 || i + n == |data| || data[j + n] != data[i + n]
    decreases 255 - len
  {
    if i + len < |data| && data[j + len] == data[i + len] && len < 255 {
      SlicesGrow(data, j, i, len);
      Stops(data, j, i, len + 1);
    }
  }

  /**
   The token at `i`: a match exactly if the four bytes stand at the remembered place, not too far back; it is then as
   long as the bytes agree, up to 255.
   */
  lemma {:induction false} TokenExactly(data: seq<byte>, i: nat, hashes: map<nat, nat>)
    requires i < |data| && Earlier(hashes, i)
    ensures var t := TokenAt(data, i, hashes);
            if && i + 4 <= |data| && WindowKey(data, i, 4) in hashes && i - hashes[WindowKey(data, i, 4)] <= 65536
               && (var j := hashes[WindowKey(data, i, 4)]; data[j..j + 4] == data[i..i + 4])
            then
              var j := hashes[WindowKey(data, i, 4)];
              && t.Copy? && t.offset == i - j && 4 <= t.len <= 255 && i + t.len <= |data|
              && data[j..j + t.len] == data[i..i + t.len]
              && (t.len == 255 || i + t.len == |data| || data[j + t.len] != data[i + t.len])
            else t == Lit(data[i])
  {
    hide WindowKey, MatchLen;
    if i + MIN_MATCH <= |data| && WindowKey(data, i, MIN_MATCH) in hashes {
      var j := hashes[WindowKey(data, i, MIN_MATCH)];
      NothingDiffers(data, j, i);
      MatchesWindow(data, j, i);
      Stops(data, j, i, 0);
    }
  }

  predicate IsFar(t: Token) {
    t.Copy? && t.offset == MAX_SLIDING_WINDOW_SIZE
  }

  /** A token is a match at distance 65536 exactly when its start is far. */
  lemma {:induction false} FarToken(data: seq<byte>, past: seq<nat>, i: nat, hashes: map<nat, nat>, rest: seq<nat>)
    requires i < |data| && Remembers(data, past, i, hashes) && forall s <- rest :: i <= s
    ensures IsFar(TokenAt(data, i, hashes)) <==> FarAt(data, past + rest, i)
  {
    hide MatchLen, WindowKey;
    if i + MIN_MATCH <= |data| {
      var h, starts, j := WindowKey(data, i, MIN_MATCH), past + rest, i - MAX_SLIDING_WINDOW_SIZE;
      if h in hashes {
        NothingDiffers(data, hashes[h], i);
        MatchesWindow(data, hashes[h], i);
        if hashes[h] == j && Agree(data, j, i, MIN_MATCH) {
          assert j in starts;
        }
      }
      if FarAt(data, starts, i) {
        WindowDecidesKey(data, j, i, MIN_MATCH);
        assert j in past && hashes[h] in starts && SameKey(data, hashes[h], i);
      }
    }
  }

  lemma NothingDiffers(data: seq<byte>, j: nat, i: nat)
    requires j <= i <= |data|
    ensures Agree(data, j, i, 0)
  {
  }

  lemma Notes(data: seq<byte>, past: seq<nat>, i: nat, hashes: map<nat, nat>)
    requires i < |data| && Remembers(data, past, i, hashes)
    ensures var next := i + Size(TokenAt(data, i, hashes));
            Remembers(data, past + [i], next, Noted(data, i, hashes))
  {
    hide WindowKey, TokenAt;
  }

  /** The tokens from `i` on are portable exactly when no start from `i` on is far. */
  lemma {:induction false} PortableFrom(data: seq<byte>, past: seq<nat>, i: nat, hashes: map<nat, nat>)
    requires ZeroFree(data) && i <= |data| && Remembers(data, past, i, hashes)
    ensures Portable(Tokens(data, i, hashes)) <==>
            NoneFar(data, past + Starts(data, i, hashes), Starts(data, i, hashes))
    decreases |data| - i
  {
    hide TokenAt, Noted, Remembers, FarAt, Portable, NoneFar;
    assert Earlier(hashes, i) by { EarlierKnown(data, past, i, hashes); }
    if i < |data| {
      var t, hashes' := TokenAt(data, i, hashes), Noted(data, i, hashes);
      TokenAdvances(data, i, hashes);
      Notes(data, past, i, hashes);
      PortableFrom(data, past + [i], i + Size(t), hashes');
      var later := Starts(data, i + Size(t), hashes');
      var starts := Starts(data, i, hashes);
      assert starts == [i] + later && past + starts == past + [i] + later;
      FarToken(data, past, i, hashes, starts);
      PortableHead(t, Tokens(data, i + Size(t), hashes'), i);
      NoneFarHead(data, past + starts, i, later);
    } else {
      NothingLeft(data, past + []);
    }
  }

  lemma NothingLeft(data: seq<byte>, starts: seq<nat>)
    ensures Portable([]) && NoneFar(data, starts, [])
  {
  }

  lemma {:induction false} NoneFarHead(data: seq<byte>, starts: seq<nat>, i: nat, later: seq<nat>)
    ensures NoneFar(data, starts, [i] + later) <==> !FarAt(data, starts, i) && NoneFar(data, starts, later)
  {
    hide FarAt;
    var part := [i] + later;
    assert i == part[0] && i in part;
    forall s <- later
      ensures s in part
    {
      var k :| 0 <= k < |later| && later[k] == s;
      assert part[k + 1] == s;
    }
  }

  lemma EarlierKnown(data: seq<byte>, past: seq<nat>, i: nat, hashes: map<nat, nat>)
    requires i <= |data| && Remembers(data, past, i, hashes)
    ensures Earlier(hashes, i)
  {
  }

  lemma PortableHead(t: Token, ts: seq<Token>, n: nat)
    requires Fitting(t, n)
    ensures Portable([t] + ts) <==> !IsFar(t) && Portable(ts)
  {
    var all := [t] + ts;
    assert t == all[0] && t in all;
    forall u <- ts
      ensures u in all
    {
      var k :| 0 <= k < |ts| && ts[k] == u;
      assert all[k + 1] == u;
    }
    if !IsFar(t) && Portable(ts) {
      forall u <- all | u.Copy?
        ensures u.offset < MAX_SLIDING_WINDOW_SIZE
      {
        assert u == t || u in ts;
      }
    }
  }

  lemma PortableExactly(data: seq<byte>)
    requires ZeroFree(data)
    ensures Portable(Tokens(data, 0, map[])) <==> !FarMatch(data)
  {
    hide NoneFar, Starts, Tokens, Portable;
    PortableFrom(data, [], 0, map[]);
    assert [] + TokenStarts(data) == TokenStarts(data);
  }

  /**
   Zero-free input survives the round trip exactly when no token starts where the four bytes stood 65536 bytes
   earlier, at the last start with their key.
   */
  lemma RoundTripExactly(data: seq<byte>)
    requires ZeroFree(data)
    ensures Decode(Compressed(data), 0, []) == data <==> !FarMatch(data)
  {
    hide FarMatch, Decode, Compressed, Portable;
    PortableRoundTrip(data);
    PortableExactly(data);
  }

  // ---- an input that does not survive -------------------------------------------------

  const ABCD: seq<byte> := [65, 66, 67, 68]

  /** The last four bytes repeat the first four at distance 65536. */
  function FarText(): (data: seq<byte>)
    ensures |data| == MAX_SLIDING_WINDOW_SIZE + MIN_MATCH && ZeroFree(data)
    ensures data[..4] == ABCD && data[MAX_SLIDING_WINDOW_SIZE..] == ABCD
    ensures forall k :: 4 <= k < MAX_SLIDING_WINDOW_SIZE ==> data[k] == 120
  {
    ABCD + seq(MAX_SLIDING_WINDOW_SIZE - 4, _ => 120) + ABCD
  }

  function Combined(a: nat, b: nat, c: nat, d: nat): nat {
    ((a * 257 + b) * 257 + c) * 257 + d
  }

  const RUN_KEY := Combined(120, 120, 120, 120)
  const ABCD_KEY := Combined(65, 66, 67, 68)

  /** Small bytes do not overflow the rolling key. */
  lemma KeyIs(data: seq<byte>, i: nat)
    requires i + MIN_MATCH <= |data| && data[i] < 128
    ensures WindowKey(data, i, MIN_MATCH)
         == Combined(data[i] as int, data[i + 1] as int, data[i + 2] as int, data[i + 3] as int)
  {
    assert WindowKey(data, i, 0) == 0;
    var a, b, c := data[i] as int, data[i + 1] as int, data[i + 2] as int;
    assert WindowKey(data, i, 1) == a;
    assert WindowKey(data, i, 2) == a * 257 + b;
    assert WindowKey(data, i, 3) == (a * 257 + b) * 257 + c;
  }

  /** Inside the run: the next match stays in it, and the last one ends where it ends. */
  predicate InRun(i: nat, hashes: map<nat, nat>) {
    && 5 <= i <= MAX_SLIDING_WINDOW_SIZE && ((MAX_SLIDING_WINDOW_SIZE - i) % 255 == 251 || i == MAX_SLIDING_WINDOW_SIZE)
    && Earlier(hashes, i)
    && ABCD_KEY in hashes && hashes[ABCD_KEY] == 0 && RUN_KEY in hashes && 4 <= hashes[RUN_KEY]
  }

  lemma {:induction false} RunMatches(data: seq<byte>, j: nat, i: nat, len: nat)
    requires data == FarText() && 4 <= j < i < MAX_SLIDING_WINDOW_SIZE && i + len <= MAX_SLIDING_WINDOW_SIZE && len <= 255
    requires Agree(data, j, i, len)
    ensures MatchLen(data, j, i, len)
         == if MAX_SLIDING_WINDOW_SIZE - i <= 255 then MAX_SLIDING_WINDOW_SIZE - i else 255
    decreases 255 - len
  {
    if i + len < MAX_SLIDING_WINDOW_SIZE && len < 255 {
      SlicesGrow(data, j, i, len);
      RunMatches(data, j, i, len + 1);
    } else if len < 255 {
      assert data[i + len] == data[MAX_SLIDING_WINDOW_SIZE..][0];
    }
  }

  lemma InSteps(n: nat)
    requires n % 255 == 251
    ensures n >= 251 && (n <= 255 ==> n == 251) && (n > 255 ==> (n - 255) % 255 == 251)
  {
  }

  /** At a start in the run the token is a match that stays in the run. */
  lemma RunToken(data: seq<byte>, i: nat, hashes: map<nat, nat>)
    requires data == FarText() && InRun(i, hashes) && i < MAX_SLIDING_WINDOW_SIZE
    ensures var t := TokenAt(data, i, hashes);
            InRun(i + Size(t), Noted(data, i, hashes))
  {
    InSteps(MAX_SLIDING_WINDOW_SIZE - i);
    KeyIs(data, i);
    var j := hashes[RUN_KEY];
    NothingDiffers(data, j, i);
    RunMatches(data, j, i, 0);
    hide WindowKey, MatchLen, FarText, Agree;
    var t := TokenAt(data, i, hashes);
    assert t.Copy? && t.len == if MAX_SLIDING_WINDOW_SIZE - i <= 255 then MAX_SLIDING_WINDOW_SIZE - i else 255;
    assert Noted(data, i, hashes) == hashes[RUN_KEY := i];
  }

  lemma LastToken(data: seq<byte>, hashes: map<nat, nat>)
    requires data == FarText() && InRun(MAX_SLIDING_WINDOW_SIZE, hashes)
    ensures IsFar(TokenAt(data, MAX_SLIDING_WINDOW_SIZE, hashes))
  {
    hide WindowKey, MatchLen;
    var i := MAX_SLIDING_WINDOW_SIZE;
    assert data[i..][0] == 65 && data[i..][1] == 66 && data[i..][2] == 67 && data[i..][3] == 68;
    KeyIs(data, i);
    NothingDiffers(data, 0, i);
    assert data[0..4] == data[..4] && data[i..i + 4] == data[i..];
    MatchesWindow(data, 0, i);
  }

  lemma {:induction false} FarFromRun(data: seq<byte>, i: nat, hashes: map<nat, nat>)
    requires data == FarText() && InRun(i, hashes)
    ensures !Portable(Tokens(data, i, hashes))
    decreases |data| - i
  {
    hide TokenAt, Noted;
    var t, ts := TokenAt(data, i, hashes), Tokens(data, i, hashes);
    assert t == ts[0] && t in ts;
    if i == MAX_SLIDING_WINDOW_SIZE {
      LastToken(data, hashes);
    } else {
      RunToken(data, i, hashes);
      var hashes' := Noted(data, i, hashes);
      FarFromRun(data, i + Size(t), hashes');
      var u :| u in Tokens(data, i + Size(t), hashes') && u.Copy? && u.offset >= MAX_SLIDING_WINDOW_SIZE;
      assert u in ts;
    }
  }

  /** Where no window is remembered under its key, the byte becomes a literal. */
  lemma NewWindow(data: seq<byte>, i: nat, hashes: map<nat, nat>, key: nat)
    requires i + MIN_MATCH <= |data| && WindowKey(data, i, MIN_MATCH) == key && key !in hashes && Earlier(hashes, i)
    ensures Earlier(hashes[key := i], i + 1)
    ensures !Portable(Tokens(data, i + 1, hashes[key := i])) ==> !Portable(Tokens(data, i, hashes))
  {
    hide WindowKey;
    var rest := Tokens(data, i + 1, hashes[key := i]);
    assert Tokens(data, i, hashes) == [Lit(data[i])] + rest;
    assert forall u <- rest :: u in [Lit(data[i])] + rest;
  }

  /** The first five bytes are literals: their windows are all new. */
  lemma IntoTheRun(data: seq<byte>) returns (hashes: map<nat, nat>)
    requires data == FarText()
    ensures InRun(5, hashes) && (!Portable(Tokens(data, 5, hashes)) ==> !Portable(Tokens(data, 0, map[])))
  {
    hide WindowKey, Portable, Tokens, FarText;
    assert data[..4][0] == 65 && data[..4][1] == 66 && data[..4][2] == 67 && data[..4][3] == 68;
    KeyIs(data, 0);
    KeyIs(data, 1);
    KeyIs(data, 2);
    KeyIs(data, 3);
    KeyIs(data, 4);
    var k1, k2, k3 := Combined(66, 67, 68, 120), Combined(67, 68, 120, 120), Combined(68, 120, 120, 120);
    var h0, h1, h2 := map[ABCD_KEY := 0], map[ABCD_KEY := 0, k1 := 1], map[ABCD_KEY := 0, k1 := 1, k2 := 2];
    var h3 := map[ABCD_KEY := 0, k1 := 1, k2 := 2, k3 := 3];
    hashes := map[ABCD_KEY := 0, k1 := 1, k2 := 2, k3 := 3, RUN_KEY := 4];
    NewWindow(data, 0, map[], ABCD_KEY);
    NewWindow(data, 1, h0, k1);
    NewWindow(data, 2, h1, k2);
    NewWindow(data, 3, h2, k3);
    NewWindow(data, 4, h3, RUN_KEY);
    assert map[][ABCD_KEY := 0] == h0 && h0[k1 := 1] == h1 && h1[k2 := 2] == h2 && h2[k3 := 3] == h3;
    assert h3[RUN_KEY := 4] == hashes;
  }

  /** Four bytes that come again after 65536 do not survive. */
  lemma FarTextIsLost()
    ensures FarMatch(FarText()) && Decode(Compressed(FarText()), 0, []) != FarText()
  {
    hide Portable, Tokens, Decode, Compressed, FarText, FarMatch;
    var hashes := IntoTheRun(FarText());
    FarFromRun(FarText(), 5, hashes);
    PortableExactly(FarText());
    RoundTripExactly(FarText());
  }
}
