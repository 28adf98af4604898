/** LZ4Compress and LZ4Decompress: the loops, and the hash table that finds matches. */
module Lz4 {
  import opened Ordering
  import opened HashTables
  import opened Lz4Format

  method LZ4Decompress(data: seq<byte>) returns (output: seq<byte>)
    ensures output == Decode(data, 0, [])
  {
    output := [];
    if |data| == 0 { return; }
    var i := 0;
    while i < |data|
      invariant i <= |data| && Decode(data, i, output) == Decode(data, 0, [])
    {
      if data[i] == 0 && i + 3 < |data| {
        var len := data[i + 1];
        var offset := Offset(data, i);
        if offset > 0 && |output| >= offset {
          var start := |output| - offset;
          ghost var out := output;
          for k := 0 to len
            invariant |output| == |out| + k && CopyFrom(output, start + k, len - k) == CopyFrom(out, start, len)
          {
            output := output + [output[start + k]];
          }
          i := i + 4;
          continue;
        }
      }
      output := output + [data[i]];
      i := i + 1;
    }
  }

  ghost predicate Mirrors(table: HashTable<nat, nat>, hashes: map<nat, nat>)
    requires table.Sound()
    reads table
  {
    forall h :: table.Lookup(h) == if h in hashes then Some(hashes[h]) else None
  }

  lemma NothingAgrees(data: seq<byte>, j: nat, i: nat)
    requires j <= i <= |data|
    ensures Agree(data, j, i, 0)
  {
  }

  /** The compressor's inner loop. */
  method MatchLength(data: seq<byte>, j: nat, i: nat) returns (len: nat)
    requires j < i <= |data|
    ensures len == MatchLen(data, j, i, 0)
  {
    hide Agree;
    len := 0;
    assert Agree(data, j, i, 0) by { NothingAgrees(data, j, i); }
    while i + len < |data| && data[j + len] == data[i + len] && len < 255
      invariant i + len <= |data| && len <= 255 && Agree(data, j, i, len)
      invariant MatchLen(data, j, i, len) == MatchLen(data, j, i, 0)
    {
      SlicesGrow(data, j, i, len);
      len := len + 1;
    }
  }

  /** The compressor's match search at `i`: the longest match at the remembered position, if it is worth encoding. */
  method FindMatch(data: seq<byte>, i: nat, match_: Option<nat>, ghost hashes: map<nat, nat>)
    returns (bestLen: nat, bestOffset: nat)
    requires i + MIN_MATCH <= |data| && Earlier(hashes, i)
    requires var h := WindowKey(data, i, MIN_MATCH); match_ == if h in hashes then Some(hashes[h]) else None
    ensures TokenAt(data, i, hashes) == if bestLen >= MIN_MATCH then Copy(bestLen, bestOffset) else Lit(data[i])
  {
    hide WindowKey, MatchLen;
    bestLen, bestOffset := 0, 0;
    if match_.Some? && i - match_.value <= MAX_SLIDING_WINDOW_SIZE {
      var len := MatchLength(data, match_.value, i);
      if len >= MIN_MATCH {
        bestLen, bestOffset := len, i - match_.value;
      }
    }
  }

  /** The compressor's rolling key. */
  method HashWindow(data: seq<byte>, i: nat) returns (hash: nat)
    requires i + MIN_MATCH <= |data|
    ensures hash == WindowKey(data, i, MIN_MATCH)
  {
    hash := 0;
    for k := 0 to MIN_MATCH
      invariant hash == WindowKey(data, i, k)
    {
      hash := (hash * 257 + data[i + k] as int) % 0x1_0000_0000;
    }
  }

  lemma ShortTail(data: seq<byte>, i: nat, hashes: map<nat, nat>)
    requires i < |data| < i + MIN_MATCH && Earlier(hashes, i)
    ensures TokenAt(data, i, hashes) == Lit(data[i])
  {
  }

  lemma OutputAdvances(data: seq<byte>, i: nat, hashes: map<nat, nat>, output: seq<byte>)
    requires i < |data| && Earlier(hashes, i)
    ensures var t := TokenAt(data, i, hashes);
            && Earlier(Noted(data, i, hashes), i + Size(t))
            && output + EncodeAll(Tokens(data, i, hashes))
            == (output + Encode(t)) + EncodeAll(Tokens(data, i + Size(t), Noted(data, i, hashes)))
  {
    hide TokenAt, Encode;
    var t := TokenAt(data, i, hashes);
    var rest := Tokens(data, i + Size(t), Noted(data, i, hashes));
    assert ([t] + rest)[1..] == rest;
    assert EncodeAll([t] + rest) == Encode(t) + EncodeAll(rest);
  }

  /** The compressor's table at `i`: a match is looked up, and the position noted. */
  method Search(table: HashTable<nat, nat>, data: seq<byte>, i: nat, ghost hashes: map<nat, nat>)
    returns (bestLen: nat, bestOffset: nat)
    requires i < |data| && Earlier(hashes, i) && table.Valid() && NoTombstones(table.data) && Mirrors(table, hashes)
    modifies table
    ensures table.Valid() && NoTombstones(table.data) && Mirrors(table, Noted(data, i, hashes))
    ensures TokenAt(data, i, hashes) == if bestLen >= MIN_MATCH then Copy(bestLen, bestOffset) else Lit(data[i])
  {
    hide TokenAt, Reachable, Probe, LiveCount, Distinct, WindowKey, Home, Step, Passed, Shadowed, SamePairs, PowerOfTwo;
    bestLen, bestOffset := 0, 0;
    if i + MIN_MATCH <= |data| {
      var hash := HashWindow(data, i);
      var match_ := table.Get(hash);
      bestLen, bestOffset := FindMatch(data, i, match_, hashes);
      ghost var grown, d := table.Insert(hash, i);
    } else {
      ShortTail(data, i, hashes);
    }
  }

  method LZ4Compress(data: seq<byte>) returns (output: seq<byte>)
    ensures output == Compressed(data)
  {
    hide TokenAt, Noted, Tokens, EncodeAll, Reachable, Distinct, Fnv1a;
    output := [];
    if |data| == 0 {
      EmptyTokens(data);
      return;
    }
    var table := new HashTable<nat, nat>(Fnv1a);
    ghost var hashes: map<nat, nat> := map[];
    var i := 0;
    while i < |data|
      invariant i <= |data| && fresh(table) && table.Valid() && NoTombstones(table.data)
      invariant Mirrors(table, hashes) && Earlier(hashes, i)
      invariant output + EncodeAll(Tokens(data, i, hashes)) == Compressed(data)
    {
      OutputAdvances(data, i, hashes, output);
      var bestLen, bestOffset := Search(table, data, i, hashes);
      hashes := Noted(data, i, hashes);
      if bestLen >= MIN_MATCH {
        output := output + [0, bestLen % 256, (bestOffset / 256) % 256, bestOffset % 256];
        i := i + bestLen;
      } else {
        output := output + [data[i]];
        i := i + 1;
      }
    }
    NoTokensLeft(data, hashes);
  }

  lemma EmptyTokens(data: seq<byte>)
    requires data == []
    ensures Compressed(data) == []
  {
  }

  lemma NoTokensLeft(data: seq<byte>, hashes: map<nat, nat>)
    requires Earlier(hashes, |data|)
    ensures EncodeAll(Tokens(data, |data|, hashes)) == []
  {
  }
}
