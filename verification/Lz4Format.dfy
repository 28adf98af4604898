/** The database's own LZ-style byte format: literals, and four-byte matches introduced by a zero byte. */
module Lz4Format {
  type byte = x: int | 0 <= x < 256

  const MAX_SLIDING_WINDOW_SIZE := 64 * 1024
  const MIN_MATCH := 4

  /** The rolling key of the four bytes at `i`, in 32-bit arithmetic. */
  function WindowKey(data: seq<byte>, i: nat, k: nat): nat
    requires k <= MIN_MATCH && i + k <= |data|
  {
    if k == 0 then 0 else (WindowKey(data, i, k - 1) * 257 + data[i + k - 1] as int) % 0x1_0000_0000
  }

  // ---- tokens -------------------------------------------------------------------------

  datatype Token = Lit(b: byte) | Copy(len: nat, offset: nat)

  function Encode(t: Token): seq<byte> {
    match t
    case Lit(b) => [b]
    case Copy(len, offset) => [0, len % 256, (offset / 256) % 256, offset % 256]
  }

  function EncodeAll(ts: seq<Token>): seq<byte> {
    if ts == [] then [] else Encode(ts[0]) + EncodeAll(ts[1..])
  }

  /** Append `len` bytes read from `start` on, which may run into the bytes just appended. */
  function CopyFrom(out: seq<byte>, start: nat, len: nat): (r: seq<byte>)
    requires start < |out|
    ensures |r| == |out| + len && out <= r
    decreases len
  {
    if len == 0 then out else CopyFrom(out + [out[start]], start + 1, len - 1)
  }

  /** A token the compressor can emit after `n` bytes of zero-free input. */
  predicate Fitting(t: Token, n: nat) {
    match t
    case Lit(b) => b != 0
    case Copy(len, offset) => MIN_MATCH <= len < 256 && 0 < offset <= n && offset <= MAX_SLIDING_WINDOW_SIZE
  }

  function Size(t: Token): nat {
    if t.Lit? then 1 else t.len
  }

  predicate AllFitting(ts: seq<Token>, n: nat) {
    ts != [] ==> Fitting(ts[0], n) && AllFitting(ts[1..], n + Size(ts[0]))
  }

  /** The effect of one token on the bytes written so far. */
  function Apply(t: Token, out: seq<byte>): (r: seq<byte>)
    requires Fitting(t, |out|)
    ensures out <= r && |r| == |out| + Size(t)
  {
    if t.Lit? then out + [t.b] else CopyFrom(out, |out| - t.offset, t.len)
  }

  /** The text that tokens stand for, after `out`. */
  function Expand(ts: seq<Token>, out: seq<byte>): (r: seq<byte>)
    requires AllFitting(ts, |out|)
    ensures out <= r
    decreases ts
  {
    if ts == [] then out else Expand(ts[1..], Apply(ts[0], out))
  }

  // ---- decompression ------------------------------------------------------------------

  function Offset(data: seq<byte>, i: nat): nat
    requires i + 3 < |data|
  {
    data[i + 2] as int * 256 + data[i + 3] as int
  }

  /** A match that LZ4Decompress accepts at `i` with `n` bytes already written. */
  predicate MatchAt(data: seq<byte>, i: nat, n: nat)
    requires i < |data|
  {
    data[i] == 0 && i + 3 < |data| && 0 < Offset(data, i) <= n
  }

  function Decode(data: seq<byte>, i: nat, out: seq<byte>): seq<byte>
    requires i <= |data|
    decreases |data| - i
  {
    if i == |data| then out
    else if MatchAt(data, i, |out|) then
      Decode(data, i + 4, CopyFrom(out, |out| - Offset(data, i), data[i + 1]))
    else Decode(data, i + 1, out + [data[i]])
  }

  lemma SlicesGrow(data: seq<byte>, j: nat, i: nat, len: nat)
    requires j < i && i + len < |data| && Agree(data, j, i, len) && data[j + len] == data[i + len]
    ensures Agree(data, j, i, len + 1)
  {
    assert data[j..j + len + 1] == data[j..j + len] + [data[j + len]];
    assert data[i..i + len + 1] == data[i..i + len] + [data[i + len]];
  }

  /** Decoding only ever appends. */
  lemma {:induction false} DecodeExtends(data: seq<byte>, i: nat, out: seq<byte>)
    requires i <= |data|
    ensures out <= Decode(data, i, out)
    decreases |data| - i
  {
    if i == |data| {
    } else if MatchAt(data, i, |out|) {
      DecodeExtends(data, i + 4, CopyFrom(out, |out| - Offset(data, i), data[i + 1]));
    } else {
      DecodeExtends(data, i + 1, out + [data[i]]);
    }
  }

  // ---- compression --------------------------------------------------------------------

  /** The `len` bytes from `j` equal those from `i`. */
  predicate Agree(data: seq<byte>, j: nat, i: nat, len: nat)
    requires j <= i && i + len <= |data|
  {
    data[j..j + len] == data[i..i + len]
  }

  /** How far the bytes at `j` and `i` agree, at least `len` and at most 255. */
  function MatchLen(data: seq<byte>, j: nat, i: nat, len: nat): (r: nat)
    requires j < i && i + len <= |data| && len <= 255
    requires Agree(data, j, i, len)
    ensures len <= r <= 255 && i + r <= |data|
    ensures Agree(data, j, i, r)
    decreases 255 - len
  {
    if i + len < |data| && data[j + len] == data[i + len] && len < 255 then
      SlicesGrow(data, j, i, len);
      MatchLen(data, j, i, len + 1)
    else len
  }

  /** `hashes` maps rolling keys to earlier positions. */
  predicate Earlier(hashes: map<nat, nat>, i: nat) {
    forall h <- hashes :: hashes[h] < i
  }

  /** The token emitted at `i`. */
  function TokenAt(data: seq<byte>, i: nat, hashes: map<nat, nat>): (t: Token)
    requires i < |data| && Earlier(hashes, i)
    ensures 0 < Size(t) <= |data| - i
  {
    if i + MIN_MATCH > |data| then Lit(data[i]) else
      var h := WindowKey(data, i, MIN_MATCH);
      if h in hashes && i - hashes[h] <= MAX_SLIDING_WINDOW_SIZE && MatchLen(data, hashes[h], i, 0) >= MIN_MATCH
      then Copy(MatchLen(data, hashes[h], i, 0), i - hashes[h])
      else Lit(data[i])
  }

  function Noted(data: seq<byte>, i: nat, hashes: map<nat, nat>): map<nat, nat>
    requires i < |data|
  {
    if i + MIN_MATCH > |data| then hashes else hashes[WindowKey(data, i, MIN_MATCH) := i]
  }

  function Tokens(data: seq<byte>, i: nat, hashes: map<nat, nat>): seq<Token>
    requires i <= |data| && Earlier(hashes, i)
    decreases |data| - i
  {
    if i == |data| then [] else
      var t := TokenAt(data, i, hashes);
      [t] + Tokens(data, i + Size(t), Noted(data, i, hashes))
  }

  /** What LZ4Compress returns. */
  function Compressed(data: seq<byte>): seq<byte> {
    EncodeAll(Tokens(data, 0, map[]))
  }

  ghost predicate ZeroFree(data: seq<byte>) {
    forall b <- data :: b != 0
  }

  /** No match reaches back exactly 65536 bytes, the one distance two bytes cannot hold. */
  ghost predicate Portable(ts: seq<Token>) {
    forall t <- ts :: t.Copy? ==> t.offset < MAX_SLIDING_WINDOW_SIZE
  }

  /** A match whose source overlaps its target still reproduces the input. */
  lemma {:induction false} CopyReproduces(data: seq<byte>, j: nat, i: nat, len: nat)
    requires j < i && i + len <= |data| && Agree(data, j, i, len)
    ensures CopyFrom(data[..i], j, len) == data[..i + len]
    decreases len
  {
    if len > 0 {
      assert data[j] == data[j..j + len][0] == data[i..i + len][0] == data[i];
      assert data[..i] + [data[j]] == data[..i + 1];
      assert data[j + 1..j + len] == data[j..j + len][1..] && data[i + 1..i + len] == data[i..i + len][1..];
      CopyReproduces(data, j + 1, i + 1, len - 1);
    }
  }

  /** One token advances the output along the input. */
  lemma TokenAdvances(data: seq<byte>, i: nat, hashes: map<nat, nat>)
    requires ZeroFree(data) && i < |data| && Earlier(hashes, i)
    ensures var t := TokenAt(data, i, hashes);
            && Fitting(t, i) && i + Size(t) <= |data| && Apply(t, data[..i]) == data[..i + Size(t)]
            && Earlier(Noted(data, i, hashes), i + Size(t))
  {
    var t := TokenAt(data, i, hashes);
    assert data[i] in data;
    if t.Lit? {
      assert data[..i] + [data[i]] == data[..i + 1];
    } else {
      CopyReproduces(data, i - t.offset, i, t.len);
    }
  }

  /** Expanding the tokens of the rest of the input, after its first `i` bytes, gives the whole input. */
  lemma {:induction false} TokensExpand(data: seq<byte>, i: nat, hashes: map<nat, nat>)
    requires ZeroFree(data) && i <= |data| && Earlier(hashes, i)
    ensures AllFitting(Tokens(data, i, hashes), i) && Expand(Tokens(data, i, hashes), data[..i]) == data
    decreases |data| - i
  {
    hide TokenAt, Noted, Apply;
    if i == |data| {
      assert data[..i] == data;
    } else {
      var t := TokenAt(data, i, hashes);
      TokenAdvances(data, i, hashes);
      var rest := Tokens(data, i + Size(t), Noted(data, i, hashes));
      TokensExpand(data, i + Size(t), Noted(data, i, hashes));
      assert ([t] + rest)[1..] == rest;
    }
  }

  /** The decoder reads back one encoded token, provided its distance fits two bytes. */
  lemma DecodeOne(t: Token, out: seq<byte>, enc: seq<byte>, i: nat)
    requires Fitting(t, |out|) && (t.Copy? ==> t.offset < MAX_SLIDING_WINDOW_SIZE)
    requires i + |Encode(t)| <= |enc| && enc[i..i + |Encode(t)|] == Encode(t)
    ensures Decode(enc, i, out) == Decode(enc, i + |Encode(t)|, Apply(t, out))
  {
    var code := enc[i..i + |Encode(t)|];
    assert enc[i] == code[0];
    if t.Copy? {
      assert enc[i + 1] == code[1] && enc[i + 2] == code[2] && enc[i + 3] == code[3];
      assert code[1] == t.len && code[2] == t.offset / 256 && code[3] == t.offset % 256;
    }
  }

  /** The decoder undoes the encoding of portable tokens. */
  lemma {:induction false} DecodeTokens(ts: seq<Token>, out: seq<byte>, enc: seq<byte>, i: nat)
    requires AllFitting(ts, |out|) && Portable(ts) && i <= |enc| && enc[i..] == EncodeAll(ts)
    ensures Decode(enc, i, out) == Expand(ts, out)
    decreases ts
  {
    hide Encode, Apply, MatchAt;
    if ts != [] {
      EncodedHead(ts, enc, i);
      assert ts[0] in ts && forall u <- ts[1..] :: u in ts;
      DecodeOne(ts[0], out, enc, i);
      DecodeTokens(ts[1..], Apply(ts[0], out), enc, i + |Encode(ts[0])|);
    }
  }

  lemma EncodedHead(ts: seq<Token>, enc: seq<byte>, i: nat)
    requires ts != [] && i <= |enc| && enc[i..] == EncodeAll(ts)
    ensures var code := Encode(ts[0]);
            i + |code| <= |enc| && enc[i + |code|..] == EncodeAll(ts[1..]) && enc[i..i + |code|] == code
  {
    var code, rest := Encode(ts[0]), EncodeAll(ts[1..]);
    assert |enc[i..]| == |code| + |rest|;
    assert enc[i..i + |code|] == enc[i..][..|code|];
    assert enc[i + |code|..] == enc[i..][|code|..];
  }

  /** A match at distance 65536 is encoded with distance 0, which the decoder copies out as a literal zero. */
  lemma DecodeFarMatch(t: Token, out: seq<byte>, enc: seq<byte>, i: nat)
    requires t.Copy? && t.offset == MAX_SLIDING_WINDOW_SIZE
    requires i + |Encode(t)| <= |enc| && enc[i..i + |Encode(t)|] == Encode(t)
    ensures 0 in Decode(enc, i, out)
  {
    var code := enc[i..i + |Encode(t)|];
    assert code == [0, t.len % 256, 0, 0];
    assert enc[i] == code[0] && enc[i + 2] == code[2] && enc[i + 3] == code[3];
    var out' := out + [enc[i]];
    assert Decode(enc, i, out) == Decode(enc, i + 1, out');
    DecodeExtends(enc, i + 1, out');
    assert out'[|out|] == 0 && out' <= Decode(enc, i + 1, out');
  }

  lemma {:induction false} DecodeLeavesZero(ts: seq<Token>, out: seq<byte>, enc: seq<byte>, i: nat)
    requires AllFitting(ts, |out|) && !Portable(ts) && i <= |enc| && enc[i..] == EncodeAll(ts)
    ensures 0 in Decode(enc, i, out)
    decreases ts
  {
    hide Encode, Apply, MatchAt;
    EncodedHead(ts, enc, i);
    var t := ts[0];
    if t.Copy? && t.offset == MAX_SLIDING_WINDOW_SIZE {
      DecodeFarMatch(t, out, enc, i);
    } else {
      var u :| u in ts && u.Copy? && u.offset >= MAX_SLIDING_WINDOW_SIZE;
      FittingBound(ts, |out|, u);
      assert u in ts[1..];
      DecodeOne(t, out, enc, i);
      DecodeLeavesZero(ts[1..], Apply(t, out), enc, i + |Encode(t)|);
    }
  }

  lemma {:induction false} FittingBound(ts: seq<Token>, n: nat, u: Token)
    requires AllFitting(ts, n) && u in ts && u.Copy?
    ensures u.offset <= MAX_SLIDING_WINDOW_SIZE
  {
    if u != ts[0] { FittingBound(ts[1..], n + Size(ts[0]), u); }
  }

  /** For zero-free input the round trip works exactly if no match reaches back 65536 bytes. */
  lemma PortableRoundTrip(data: seq<byte>)
    requires ZeroFree(data)
    ensures Decode(Compressed(data), 0, []) == data <==> Portable(Tokens(data, 0, map[]))
  {
    var ts := Tokens(data, 0, map[]);
    TokensExpand(data, 0, map[]);
    assert data[..0] == [];
    assert Compressed(data)[0..] == EncodeAll(ts);
    if Portable(ts) {
      DecodeTokens(ts, [], Compressed(data), 0);
    } else {
      DecodeLeavesZero(ts, [], Compressed(data), 0);
    }
  }

  lemma {:induction false} ShortIsPortable(data: seq<byte>, i: nat, hashes: map<nat, nat>)
    requires i <= |data| <= MAX_SLIDING_WINDOW_SIZE && Earlier(hashes, i)
    ensures Portable(Tokens(data, i, hashes))
    decreases |data| - i
  {
    if i < |data| {
      var t := TokenAt(data, i, hashes);
      ShortIsPortable(data, i + Size(t), Noted(data, i, hashes));
    }
  }

  /** Inputs of at most 64 KiB without a zero byte always survive compression. */
  lemma RoundTrip(data: seq<byte>)
    requires ZeroFree(data) && |data| <= MAX_SLIDING_WINDOW_SIZE
    ensures Decode(Compressed(data), 0, []) == data
  {
    PortableRoundTrip(data);
    ShortIsPortable(data, 0, map[]);
  }

  /** The bytes before the first zero: what CompressData passes on, since it goes through a C string. */
  function CString(data: seq<byte>): (r: seq<byte>)
    ensures r <= data && ZeroFree(r)
    ensures |r| < |data| ==> data[|r|] == 0
  {
    if data == [] || data[0] == 0 then [] else [data[0]] + CString(data[1..])
  }

  lemma {:induction false} CompressDataRoundTrip(data: seq<byte>)
    requires |CString(data)| <= MAX_SLIDING_WINDOW_SIZE
    ensures Decode(Compressed(CString(data)), 0, []) == CString(data)
    ensures ZeroFree(data) ==> CString(data) == data
  {
    RoundTrip(CString(data));
    assert |CString(data)| < |data| ==> data[|CString(data)|] in data;
  }

  // ---- the format, byte by byte -------------------------------------------------------

  /** A literal is its byte; a match is a zero, its length, and its distance with the high byte first. */
  lemma EncodedForm(b: byte, len: nat, offset: nat, t: Token, ts: seq<Token>)
    requires len < 256 && offset < 65536
    ensures Encode(Lit(b)) == [b]
    ensures Encode(Copy(len, offset)) == [0, len, offset / 256, offset % 256]
    ensures EncodeAll([]) == [] && EncodeAll([t] + ts) == Encode(t) + EncodeAll(ts)
  {
    hide Encode;
    assert ([t] + ts)[1..] == ts;
    OneEncoded(b, len, offset);
  }

  lemma OneEncoded(b: byte, len: nat, offset: nat)
    requires len < 256 && offset < 65536
    ensures Encode(Lit(b)) == [b] && Encode(Copy(len, offset)) == [0, len, offset / 256, offset % 256]
  {
  }

  /** Bytes that are not zero stand for themselves. */
  lemma {:induction false} LiteralsDecode(data: seq<byte>, i: nat, j: nat, out: seq<byte>)
    requires i <= j <= |data| && forall k :: i <= k < j ==> data[k] != 0
    ensures Decode(data, i, out) == Decode(data, j, out + data[i..j])
    decreases j - i
  {
    if i < j {
      LiteralsDecode(data, i + 1, j, out + [data[i]]);
      assert out + [data[i]] + data[i + 1..j] == out + data[i..j];
    } else {
      assert out + data[i..j] == out;
    }
  }

  /** A copy of earlier bytes, which may run into itself. */
  lemma {:induction false} CopiedBytes(out: seq<byte>, start: nat, len: nat)
    requires start < |out|
    ensures var r, d := CopyFrom(out, start, len), |out| - start;
            out <= r && forall m :: |out| <= m < |out| + len ==> r[m] == r[m - d]
    decreases len
  {
    if len > 0 {
      var next := out + [out[start]];
      CopiedBytes(next, start + 1, len - 1);
      var r := CopyFrom(out, start, len);
      assert r[|out|] == next[|out|] && r[start] == next[start];
    }
  }

  /** After text without zeros, a match within reach repeats its bytes from that distance back. */
  lemma MatchDecodes(text: seq<byte>, len: byte, high: byte, low: byte)
    requires ZeroFree(text) && 0 < 256 * high as int + low as int <= |text|
    ensures var n, distance := |text|, 256 * high as int + low as int;
            var out := Decode(text + [0, len, high, low], 0, []);
            |out| == n + len as int && text <= out && forall m :: n <= m < |out| ==> out[m] == out[m - distance]
  {
    var n, data, distance := |text|, text + [0, len, high, low], 256 * high as int + low as int;
    TextDecodes(text, [0, len, high, low]);
    assert data[n] == 0 && data[n + 1] == len && data[n + 2] == high && data[n + 3] == low;
    var out := CopyFrom(text, n - distance, len as int);
    assert Offset(data, n) == distance && MatchAt(data, n, n);
    assert Decode(data, n + 4, out) == out;
    CopiedBytes(text, n - distance, len as int);
  }

  /** One out of reach, or at distance 0, is four literals. */
  lemma NoMatchDecodes(text: seq<byte>, len: byte, high: byte, low: byte)
    requires ZeroFree(text) && !(0 < 256 * high as int + low as int <= |text|)
    ensures Decode(text + [0, len, high, low], 0, []) == text + [0, len, high, low]
  {
    var n, data := |text|, text + [0, len, high, low];
    TextDecodes(text, [0, len, high, low]);
    assert data[n + 2] == high && data[n + 3] == low && !MatchAt(data, n, n);
    assert data[..n] == text;
    ShortTailDecodes(data, n, text);
  }

  lemma {:induction false} TextDecodes(text: seq<byte>, rest: seq<byte>)
    requires ZeroFree(text)
    ensures Decode(text + rest, 0, []) == Decode(text + rest, |text|, text)
  {
    hide Decode;
    var data := text + rest;
    forall k | 0 <= k < |text|
      ensures data[k] != 0
    {
      assert data[k] == text[k] && text[k] in text;
    }
    LiteralsDecode(data, 0, |text|, []);
    assert [] + data[0..|text|] == text;
  }

  /** The last four bytes of the input, when they are not a match. */
  lemma {:induction false} ShortTailDecodes(data: seq<byte>, i: nat, out: seq<byte>)
    requires i + 4 == |data| && !MatchAt(data, i, |out|) && out == data[..i]
    ensures Decode(data, i, out) == data
  {
    assert data[..i] + [data[i]] == data[..i + 1] && data[..i + 1] + [data[i + 1]] == data[..i + 2];
    assert data[..i + 2] + [data[i + 2]] == data[..i + 3] && data[..i + 3] + [data[i + 3]] == data;
    assert Decode(data, i + 4, data) == data;
    assert Decode(data, i + 3, data[..i + 3]) == data;
    assert Decode(data, i + 2, data[..i + 2]) == data;
    assert Decode(data, i + 1, data[..i + 1]) == data;
  }
}
