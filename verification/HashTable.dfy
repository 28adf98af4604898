/** Open addressing with linear probing, tombstones and doubling. */
module HashTables {
  import opened Ordering

  /** Entry: default-constructed, or occupied and possibly marked deleted. */
  datatype Slot<K, V> = Empty | Full(key: K, value: V, deleted: bool)
  {
    predicate Live() {
      Full? && !deleted
    }
  }

  // ---- the mask -----------------------------------------------------------------------

  /** Bitwise and of two unsigned numbers. */
  function BitAnd(a: nat, b: nat): nat {
    if a == 0 || b == 0 then 0 else 2 * BitAnd(a / 2, b / 2) + (if a % 2 == 1 && b % 2 == 1 then 1 else 0)
  }

  function BitXor(a: nat, b: nat): nat
    decreases a + b
  {
    if a == 0 then b else if b == 0 then a
    else 2 * BitXor(a / 2, b / 2) + (if a % 2 != b % 2 then 1 else 0)
  }

  function HashByte(h: nat, b: nat): nat {
    (BitXor(h, b) * 16777619) % 0x1_0000_0000
  }

  /** FNV-1a over the four bytes of a uint32_t key. */
  function Fnv1a(key: nat): nat {
    HashByte(HashByte(HashByte(HashByte(2166136261, key % 256), key / 256 % 256), key / 65536 % 256), key / 16777216 % 256)
  }

  /** Each byte, the lowest first, is exclusive-ored in and the result multiplied by the FNV prime, in 32 bits. */
  lemma Fnv1aOfBytes(a: nat, b: nat, c: nat, d: nat)
    requires a < 256 && b < 256 && c < 256 && d < 256
    ensures var h1 := BitXor(2166136261, a) * 16777619 % 0x1_0000_0000;
            var h2 := BitXor(h1, b) * 16777619 % 0x1_0000_0000;
            var h3 := BitXor(h2, c) * 16777619 % 0x1_0000_0000;
            Fnv1a(a + 256 * b + 65536 * c + 16777216 * d) == BitXor(h3, d) * 16777619 % 0x1_0000_0000
  {
    hide BitXor, HashByte;
    BytesOfKey(a, b, c, d);
    var h1 := HashedByte(2166136261, a);
    var h2 := HashedByte(h1, b);
    var h3 := HashedByte(h2, c);
    var h4 := HashedByte(h3, d);
  }

  lemma BytesOfKey(a: nat, b: nat, c: nat, d: nat)
    requires a < 256 && b < 256 && c < 256 && d < 256
    ensures var key := a + 256 * b + 65536 * c + 16777216 * d;
            key % 256 == a && key / 256 % 256 == b && key / 65536 % 256 == c && key / 16777216 % 256 == d
  {
    var key := a + 256 * b + 65536 * c + 16777216 * d;
    assert key == 256 * (b + 256 * c + 65536 * d) + a;
    assert key / 256 == b + 256 * (c + 256 * d);
    assert key / 65536 == c + 256 * d;
    assert key / 16777216 == d;
  }

  lemma HashedByte(h: nat, b: nat) returns (r: nat)
    ensures r == HashByte(h, b) == BitXor(h, b) * 16777619 % 0x1_0000_0000
  {
    hide BitXor;
    r := HashByte(h, b);
  }

  /** Bit by bit, the lowest first. */
  lemma {:induction false} BitsOf(a: nat, b: nat)
    ensures BitXor(a, b) == 2 * BitXor(a / 2, b / 2) + (if a % 2 == b % 2 then 0 else 1)
    ensures BitAnd(a, b) == 2 * BitAnd(a / 2, b / 2) + (if a % 2 == 1 && b % 2 == 1 then 1 else 0)
  {
    assert BitXor(0, b / 2) == b / 2 && BitXor(a / 2, 0) == a / 2;
    assert BitAnd(0, b / 2) == 0 && BitAnd(a / 2, 0) == 0;
  }

  predicate PowerOfTwo(n: nat) {
    n == 1 || (n > 1 && n % 2 == 0 && PowerOfTwo(n / 2))
  }

  /** Masking with capacity - 1 lands inside the table and wraps at its end, because the capacity is a power of two. */
  lemma {:induction false} MaskInRange(a: nat, n: nat)
    requires PowerOfTwo(n)
    ensures BitAnd(a, n - 1) < n
    ensures a < n ==> BitAnd(a, n - 1) == a
    ensures BitAnd(n, n - 1) == 0
  {
    if n > 1 {
      assert (n - 1) / 2 == n / 2 - 1;
      MaskInRange(a / 2, n / 2);
    }
  }

  // ---- probe paths --------------------------------------------------------------------

  /** The slot `d` steps after `i`, wrapping round. */
  function Step(cap: nat, i: nat, d: nat): (j: nat)
    requires i < cap && d < cap
    ensures j < cap
  {
    if i + d < cap then i + d else i + d - cap
  }

  /** How many steps lead from `i` to `j`. */
  function Dist(cap: nat, i: nat, j: nat): (d: nat)
    requires i < cap && j < cap
    ensures d < cap && Step(cap, i, d) == j
  {
    if i <= j then j - i else j + cap - i
  }

  lemma NextSlot(cap: nat, i: nat)
    requires PowerOfTwo(cap) && i < cap
    ensures BitAnd(i + 1, cap - 1) == if i + 1 == cap then 0 else i + 1
  {
    MaskInRange(i + 1, cap);
  }

  function Home<K>(hash: K -> nat, cap: nat, k: K): (i: nat)
    requires PowerOfTwo(cap)
    ensures i < cap
  {
    MaskInRange(hash(k), cap);
    BitAnd(hash(k), cap - 1)
  }

  // ---- the table as a value -----------------------------------------------------------

  ghost function LiveCount<K, V>(data: seq<Slot<K, V>>): nat {
    if data == [] then 0 else LiveCount(data[..|data| - 1]) + (if data[|data| - 1].Live() then 1 else 0)
  }

  ghost predicate Distinct<K, V>(data: seq<Slot<K, V>>) {
    forall i, j :: 0 <= i < |data| && 0 <= j < |data| && data[i].Live() && data[j].Live() && data[i].key == data[j].key ==>
      i == j
  }

  ghost predicate Unique<K, V>(data: seq<Slot<K, V>>, k: K) {
    forall i, j :: 0 <= i < |data| && 0 <= j < |data| && data[i].Live() && data[j].Live() && data[i].key == data[j].key == k ==>
      i == j
  }

  /** No empty slot between a live key's home and its position. */
  ghost predicate Reachable<K, V>(hash: K -> nat, data: seq<Slot<K, V>>)
    requires PowerOfTwo(|data|)
  {
    forall p, d :: 0 <= p < |data| && data[p].Live() && 0 <= d < Dist(|data|, Home(hash, |data|, data[p].key), p)
                   ==> data[Step(|data|, Home(hash, |data|, data[p].key), d)].Full?
  }

  ghost predicate NoTombstones<K, V>(data: seq<Slot<K, V>>) {
    forall i :: 0 <= i < |data| && data[i].Full? ==> !data[i].deleted
  }

  ghost predicate HasLive<K, V>(data: seq<Slot<K, V>>, k: K) {
    exists p :: 0 <= p < |data| && data[p].Live() && data[p].key == k
  }

  /** What Get returns: the first live slot with key `k` on its probe path, `d` steps in. */
  function Probe<K(==), V>(hash: K -> nat, data: seq<Slot<K, V>>, k: K, d: nat): Option<V>
    requires PowerOfTwo(|data|) && d <= |data|
    decreases |data| - d
  {
    if d == |data| then None else
      var slot := data[Step(|data|, Home(hash, |data|, k), d)];
      if slot.Empty? then None
      else if !slot.deleted && slot.key == k then Some(slot.value)
      else Probe(hash, data, k, d + 1)
  }

  lemma {:induction false} ProbeFinds<K, V>(hash: K -> nat, data: seq<Slot<K, V>>, k: K, p: nat, d: nat)
    requires PowerOfTwo(|data|) && Reachable(hash, data) && Unique(data, k) && p < |data| && data[p].Live() &&
             data[p].key == k
    requires d <= Dist(|data|, Home(hash, |data|, k), p)
    ensures Probe(hash, data, k, d) == Some(data[p].value)
    decreases |data| - d
  {
    if d < Dist(|data|, Home(hash, |data|, k), p) {
      ProbeFinds(hash, data, k, p, d + 1);
    }
  }

  lemma {:induction false} ProbeMisses<K, V>(hash: K -> nat, data: seq<Slot<K, V>>, k: K, d: nat)
    requires PowerOfTwo(|data|) && d <= |data| && !HasLive(data, k)
    ensures Probe(hash, data, k, d) == None
    decreases |data| - d
  {
    if d < |data| {
      ProbeMisses(hash, data, k, d + 1);
    }
  }

  /** With distinct live keys a lookup answers exactly with what is stored. */
  lemma {:induction false} LookupIsStored<K, V>(hash: K -> nat, data: seq<Slot<K, V>>, k: K, v: V)
    requires PowerOfTwo(|data|) && Reachable(hash, data) && Distinct(data)
    ensures Probe(hash, data, k, 0) == Some(v)
       <==> exists p :: 0 <= p < |data| && data[p].Full? && !data[p].deleted && data[p].key == k && data[p].value == v
  {
    if HasLive(data, k) {
      var p :| 0 <= p < |data| && data[p].Live() && data[p].key == k;
      ProbeFinds(hash, data, k, p, 0);
    } else {
      ProbeMisses(hash, data, k, 0);
    }
  }

  lemma {:induction false} LiveCountUpdate<K, V>(data: seq<Slot<K, V>>, i: nat, s: Slot<K, V>)
    requires i < |data|
    ensures LiveCount(data[i := s]) == LiveCount(data) - (if data[i].Live() then 1 else 0) + (if s.Live() then 1 else 0)
  {
    var n := |data| - 1;
    if i == n {
      assert data[i := s][..n] == data[..n];
    } else {
      LiveCountUpdate(data[..n], i, s);
      assert data[i := s][..n] == data[..n][i := s];
    }
  }

  lemma {:induction false} SomeNotLive<K, V>(data: seq<Slot<K, V>>) returns (w: nat)
    requires LiveCount(data) < |data|
    ensures w < |data| && !data[w].Live()
  {
    var n := |data| - 1;
    if data[n].Live() {
      w := SomeNotLive(data[..n]);
    } else {
      w := n;
    }
  }

  lemma {:induction false} AllEmpty<K, V>(data: seq<Slot<K, V>>)
    requires forall i :: 0 <= i < |data| ==> data[i].Empty?
    ensures LiveCount(data) == 0
  {
    if data != [] { AllEmpty(data[..|data| - 1]); }
  }

  // ---- what one write does ------------------------------------------------------------

  /** The first `d` slots on `k`'s probe path are live and hold other keys. */
  ghost predicate Passed<K, V>(hash: K -> nat, data: seq<Slot<K, V>>, k: K, d: nat)
    requires PowerOfTwo(|data|) && d <= |data|
  {
    forall e :: 0 <= e < d ==> var s := data[Step(|data|, Home(hash, |data|, k), e)]; s.Live() && s.key != k
  }

  lemma {:induction false} PassedProbe<K, V>(hash: K -> nat, data: seq<Slot<K, V>>, k: K, d: nat, e: nat)
    requires PowerOfTwo(|data|) && e <= d <= |data| && Passed(hash, data, k, d)
    ensures Probe(hash, data, k, e) == Probe(hash, data, k, d)
    decreases d - e
  {
    if e < d { PassedProbe(hash, data, k, d, e + 1); }
  }

  /** A live `k` hides behind a tombstone on its own probe path. */
  ghost predicate Shadowed<K, V>(hash: K -> nat, data: seq<Slot<K, V>>, k: K)
    requires PowerOfTwo(|data|)
  {
    exists d :: 0 <= d < |data| && Passed(hash, data, k, d) && HasLive(data, k)
             && var s := data[Step(|data|, Home(hash, |data|, k), d)]; s.Full? && s.deleted
  }

  /** An occupied slot that does not answer for `x`, before and after. */
  lemma {:induction false} FullUndisturbed<K, V>(hash: K -> nat, data: seq<Slot<K, V>>, p: nat, s: Slot<K, V>, x: K, d: nat)
    requires PowerOfTwo(|data|) && p < |data| && d <= |data| && data[p].Full? && s.Full?
    requires !(data[p].Live() && data[p].key == x) && !(s.Live() && s.key == x)
    ensures Probe(hash, data[p := s], x, d) == Probe(hash, data, x, d)
    decreases |data| - d
  {
    if d < |data| { FullUndisturbed(hash, data, p, s, x, d + 1); }
  }

  /** An empty slot is not on the way to a live `x`. */
  lemma {:induction false} EmptyUndisturbed<K, V>(hash: K -> nat, data: seq<Slot<K, V>>, p: nat, s: Slot<K, V>, x: K, q: nat,
                                                  d: nat)
    requires PowerOfTwo(|data|) && Reachable(hash, data) && p < |data| && data[p].Empty?
    requires q < |data| && data[q].Live() && data[q].key == x && d <= Dist(|data|, Home(hash, |data|, x), q)
    ensures Probe(hash, data[p := s], x, d) == Probe(hash, data, x, d)
    decreases |data| - d
  {
    if d < Dist(|data|, Home(hash, |data|, x), q) {
      EmptyUndisturbed(hash, data, p, s, x, q, d + 1);
    }
  }

  /** Other keys are looked up as before when slot `p` takes a pair with key `k`. */
  lemma OthersUndisturbed<K, V>(hash: K -> nat, data: seq<Slot<K, V>>, p: nat, s: Slot<K, V>, k: K, x: K)
    requires PowerOfTwo(|data|) && Reachable(hash, data) && p < |data| && x != k
    requires data[p].Live() ==> data[p].key == k
    requires s.Full? && s.key == k
    ensures Probe(hash, data[p := s], x, 0) == Probe(hash, data, x, 0)
  {
    hide Reachable, Home, Step;
    if data[p].Full? {
      FullUndisturbed(hash, data, p, s, x, 0);
    } else if HasLive(data, x) {
      var q :| 0 <= q < |data| && data[q].Live() && data[q].key == x;
      EmptyUndisturbed(hash, data, p, s, x, q, 0);
    } else {
      assert forall q :: 0 <= q < |data| && q != p ==> data[p := s][q] == data[q];
      ProbeMisses(hash, data, x, 0);
      ProbeMisses(hash, data[p := s], x, 0);
    }
  }

  /** The first `d` slots on the path of `k` are occupied. */
  ghost predicate Filled<K, V>(hash: K -> nat, data: seq<Slot<K, V>>, k: K, d: nat)
    requires PowerOfTwo(|data|) && d <= |data|
  {
    forall e :: 0 <= e < d ==> data[Step(|data|, Home(hash, |data|, k), e)].Full?
  }

  /** Writing `k` behind occupied slots of its path. */
  lemma PutReachable<K, V>(hash: K -> nat, data: seq<Slot<K, V>>, k: K, v: V, d: nat)
    requires PowerOfTwo(|data|) && Reachable(hash, data) && d < |data| && Filled(hash, data, k, d)
    ensures Reachable(hash, data[Step(|data|, Home(hash, |data|, k), d) := Full(k, v, false)])
  {
    assert Dist(|data|, Home(hash, |data|, k), Step(|data|, Home(hash, |data|, k), d)) == d;
  }

  /** Written behind live slots with other keys it is found. */
  lemma PutFound<K, V>(hash: K -> nat, data: seq<Slot<K, V>>, k: K, v: V, d: nat)
    requires PowerOfTwo(|data|) && d < |data| && Passed(hash, data, k, d)
    ensures Probe(hash, data[Step(|data|, Home(hash, |data|, k), d) := Full(k, v, false)], k, 0) == Some(v)
  {
    hide Home;
    var cap, home := |data|, Home(hash, |data|, k);
    var data' := data[Step(cap, home, d) := Full(k, v, false)];
    assert forall e :: 0 <= e < d ==> Step(cap, home, e) != Step(cap, home, d);
    PassedProbe(hash, data', k, d, 0);
  }

  lemma SameDistinct<K, V>(a: seq<Slot<K, V>>, b: seq<Slot<K, V>>)
    requires |a| == |b|
    requires forall q :: 0 <= q < |a| ==> a[q].Live() == b[q].Live() && (a[q].Live() ==> a[q].key == b[q].key)
    ensures Distinct(a) <==> Distinct(b)
  {
  }

  /** A key written where Insert writes it stays the only one of its kind exactly if it was and is not shadowed. */
  lemma PutDistinct<K, V>(hash: K -> nat, data: seq<Slot<K, V>>, k: K, v: V, d: nat)
    requires PowerOfTwo(|data|) && Reachable(hash, data) && d < |data| && Passed(hash, data, k, d)
    requires var s := data[Step(|data|, Home(hash, |data|, k), d)]; s.Live() ==> s.key == k
    ensures Distinct(data[Step(|data|, Home(hash, |data|, k), d) := Full(k, v, false)])
       <==> Distinct(data) && !Shadowed(hash, data, k)
  {
    var cap, home := |data|, Home(hash, |data|, k);
    var p := Step(cap, home, d);
    var data' := data[p := Full(k, v, false)];
    assert forall q :: 0 <= q < cap && q != p ==> data'[q] == data[q];
    if data[p].Live() {
      assert forall q :: 0 <= q < cap ==> data'[q].Live() == data[q].Live() && (data[q].Live() ==> data'[q].key == data[q].key);
      SameDistinct(data, data');
    } else if !Distinct(data) {
      var i, j :| 0 <= i < cap && 0 <= j < cap && data[i].Live() && data[j].Live() && data[i].key == data[j].key && i != j;
      assert data'[i] == data[i] && data'[j] == data[j];
    } else if HasLive(data, k) {
      var q :| 0 <= q < cap && data[q].Live() && data[q].key == k;
      assert data'[q] == data[q] && data'[p].key == k && q != p;
      assert !Distinct(data');
      // On the way to q every slot is occupied, so the slot that was not live is a tombstone.
      assert d < Dist(cap, home, q) && data[Step(cap, home, d)].Full?;
      assert Shadowed(hash, data, k);
    }
  }

  // ---- rehashing ----------------------------------------------------------------------

  /** The live pairs of both tables agree. */
  ghost predicate SamePairs<K, V>(a: seq<Slot<K, V>>, b: seq<Slot<K, V>>) {
    && (forall p :: 0 <= p < |a| && a[p].Live() ==> Stores(b, a[p].key, a[p].value))
    && (forall p :: 0 <= p < |b| && b[p].Live() ==> Stores(a, b[p].key, b[p].value))
  }

  ghost predicate Stores<K, V>(data: seq<Slot<K, V>>, k: K, v: V) {
    exists p :: 0 <= p < |data| && data[p].Live() && data[p].key == k && data[p].value == v
  }

  lemma SamePairsHas<K, V>(a: seq<Slot<K, V>>, b: seq<Slot<K, V>>, x: K)
    requires SamePairs(a, b) && HasLive(a, x)
    ensures HasLive(b, x)
  {
  }

  lemma SamePairsProbe<K, V>(hash: K -> nat, a: seq<Slot<K, V>>, b: seq<Slot<K, V>>, x: K)
    requires PowerOfTwo(|a|) && PowerOfTwo(|b|) && Reachable(hash, a) && Reachable(hash, b)
    requires Distinct(a) && Distinct(b) && SamePairs(a, b)
    ensures Probe(hash, a, x, 0) == Probe(hash, b, x, 0)
  {
    if HasLive(a, x) { SamePairsHas(a, b, x); }
    if HasLive(b, x) { SamePairsHas(b, a, x); }
    if HasLive(a, x) {
      var p :| 0 <= p < |a| && a[p].Live() && a[p].key == x;
      assert Stores(b, x, a[p].value);
      var q :| 0 <= q < |b| && b[q].Live() && b[q].key == x && b[q].value == a[p].value;
      ProbeFinds(hash, a, x, p, 0);
      ProbeFinds(hash, b, x, q, 0);
    } else {
      ProbeMisses(hash, a, x, 0);
      ProbeMisses(hash, b, x, 0);
    }
  }

  /** What moving slot `i` starts from. */
  lemma {:induction false} NextDone<K, V>(data: seq<Slot<K, V>>, newData: seq<Slot<K, V>>, i: nat)
    requires i < |data| && SamePairs(data[..i], newData)
    ensures data[..i + 1] == data[..i] + [data[i]]
    ensures LiveCount(data[..i + 1]) == LiveCount(data[..i]) + (if data[i].Live() then 1 else 0)
    ensures data[i].Live() ==> LiveCount(data[..i]) < LiveCount(data)
    ensures data[i].Live() && Distinct(data) ==> !HasLive(data[..i], data[i].key)
    ensures !data[i].Live() ==> SamePairs(data[..i + 1], newData)
  {
    assert data[..i + 1][..i] == data[..i];
    if data[i].Live() { LivePrefix(data, i); }
    hide LiveCount;
    assert forall p :: 0 <= p < i ==> data[..i][p] == data[p] == data[..i + 1][p];
    if !data[i].Live() { SamePairsMore(data[..i], data[i], newData); }
  }

  /** A slot that is not live adds no pair. */
  lemma {:induction false} SamePairsMore<K, V>(done: seq<Slot<K, V>>, s: Slot<K, V>, data: seq<Slot<K, V>>)
    requires SamePairs(done, data) && !s.Live()
    ensures SamePairs(done + [s], data)
  {
    forall p | 0 <= p < |data| && data[p].Live()
      ensures Stores(done + [s], data[p].key, data[p].value)
    {
      assert Stores(done, data[p].key, data[p].value);
      var q :| 0 <= q < |done| && done[q].Live() && done[q].key == data[p].key && done[q].value == data[p].value;
      assert (done + [s])[q] == done[q];
    }
  }

  lemma SamePairsAll<K(!new), V>(hash: K -> nat, a: seq<Slot<K, V>>, b: seq<Slot<K, V>>)
    requires PowerOfTwo(|a|) && PowerOfTwo(|b|) && Reachable(hash, a) && Reachable(hash, b)
    requires Distinct(a) && Distinct(b) && SamePairs(a, b)
    ensures forall x :: Probe(hash, a, x, 0) == Probe(hash, b, x, 0)
  {
    forall x ensures Probe(hash, a, x, 0) == Probe(hash, b, x, 0) { SamePairsProbe(hash, a, b, x); }
  }

  /** Reinserting one live slot of the old table extends the agreement by that slot. */
  lemma RehashOne<K, V>(done: seq<Slot<K, V>>, s: Slot<K, V>, data: seq<Slot<K, V>>, p: nat)
    requires SamePairs(done, data) && s.Live() && p < |data| && data[p].Empty?
    ensures SamePairs(done + [s], data[p := s])
  {
    var done', data' := done + [s], data[p := s];
    forall q | 0 <= q < |done'| && done'[q].Live()
      ensures Stores(data', done'[q].key, done'[q].value)
    {
      if q < |done| {
        assert done'[q] == done[q] && Stores(data, done[q].key, done[q].value);
        var r :| 0 <= r < |data| && data[r].Live() && data[r].key == done[q].key && data[r].value == done[q].value;
        assert data'[r] == data[r];
      } else {
        assert data'[p] == s;
      }
    }
    forall q | 0 <= q < |data'| && data'[q].Live()
      ensures Stores(done', data'[q].key, data'[q].value)
    {
      if q == p {
        assert done'[|done|] == s;
      } else {
        assert Stores(done, data[q].key, data[q].value);
        var r :| 0 <= r < |done| && done[r].Live() && done[r].key == data[q].key && done[r].value == data[q].value;
        assert done'[r] == done[r];
      }
    }
  }

  /** LoadFactor 0.7f, which as a float is 11744051 / 2^24: `n` entries fit a table of `cap` slots. */
  predicate Fits(n: nat, cap: nat) {
    n * 16777216 <= cap * 11744051
  }

  /** Seven tenths of the slots, for tables of up to 2^23 of them. */
  lemma FitsSevenTenths(n: nat, cap: nat)
    requires PowerOfTwo(cap) && cap <= 0x80_0000
    ensures Fits(n, cap) <==> 10 * n <= 7 * cap
  {
    hide PowerOfTwo;
    NoMultipleOfFive(cap);
    CloseToSevenTenths(n, cap);
  }

  lemma CloseToSevenTenths(n: nat, cap: nat)
    requires cap % 5 != 0 && cap <= 0x80_0000
    ensures n * 16777216 <= cap * 11744051 <==> 10 * n <= 7 * cap
  {
    assert 10 * n != 7 * cap;
  }

  lemma {:induction false} NoMultipleOfFive(cap: nat)
    requires PowerOfTwo(cap)
    ensures cap % 5 != 0
  {
    if cap > 1 {
      NoMultipleOfFive(cap / 2);
      TwiceNoMultiple(cap / 2);
      assert cap == 2 * (cap / 2);
    }
  }

  lemma TwiceNoMultiple(h: nat)
    requires h % 5 != 0
    ensures (2 * h) % 5 != 0
  {
    var q, t := h / 5, h % 5;
    assert 2 * h == 5 * (2 * q) + 2 * t;
  }

  class HashTable<K(!new, ==), V> {
    const hash: K -> nat
    var data: seq<Slot<K, V>>
    var size: nat

    /** Everything except that live keys are distinct. */
    ghost predicate Sound()
      reads this
    {
      PowerOfTwo(|data|) && |data| >= 8 && size == LiveCount(data) && Fits(size, |data|) && Reachable(hash, data)
    }

    ghost predicate Valid()
      reads this
    {
      Sound() && Distinct(data)
    }

    ghost function Lookup(k: K): Option<V>
      requires Sound()
      reads this
    {
      Probe(hash, data, k, 0)
    }

    constructor (hash: K -> nat)
      ensures Valid() && this.hash == hash && NoTombstones(data) && forall k :: Lookup(k) == None
      ensures |data| == 8 && size == 0 && forall i :: 0 <= i < |data| ==> data[i].Empty?
    {
      this.hash := hash;
      data, size := seq(8, i => Empty), 0;
      new;
      AllEmpty(data);
      forall k ensures Lookup(k) == None {
        ProbeMisses(hash, data, k, 0);
      }
    }

    /** Resize's inner loop: the first free slot for `k` in a table without tombstones. */
    method FreeSlot(newData: seq<Slot<K, V>>, k: K) returns (index: nat, ghost d: nat)
      requires PowerOfTwo(|newData|) && NoTombstones(newData) && LiveCount(newData) < |newData|
      ensures d < |newData| && index == Step(|newData|, Home(hash, |newData|, k), d)
      ensures newData[index].Empty? && Filled(hash, newData, k, d)
    {
      hide LiveCount, BitAnd;
      var newCap := |newData|;
      MaskInRange(hash(k), newCap);
      index := BitAnd(hash(k), newCap - 1);
      d := 0;
      ghost var w := SomeNotLive(newData);
      while newData[index].Full?
        invariant d < newCap && index == Step(newCap, Home(hash, newCap, k), d)
        invariant Filled(hash, newData, k, d) && d <= Dist(newCap, Home(hash, newCap, k), w)
        decreases newCap - d
      {
        NextSlot(newCap, index);
        index := BitAnd(index + 1, newCap - 1);
        d := d + 1;
      }
    }

    /** Resize's loop body for an occupied slot; `done` are the slots already moved. */
    method Reinsert(newData: seq<Slot<K, V>>, entry: Slot<K, V>, ghost done: seq<Slot<K, V>>)
      returns (r: seq<Slot<K, V>>)
      requires PowerOfTwo(|newData|) && NoTombstones(newData) && LiveCount(newData) < |newData|
      requires Reachable(hash, newData) && SamePairs(done, newData) && entry.Live()
      ensures |r| == |newData| && NoTombstones(r) && LiveCount(r) == LiveCount(newData) + 1
      ensures Reachable(hash, r) && SamePairs(done + [entry], r)
      ensures Distinct(newData) && !HasLive(done, entry.key) ==> Distinct(r)
    {
      hide Probe, BitAnd;
      if HasLive(newData, entry.key) { SamePairsHas(newData, done, entry.key); }
      var index, d := FreeSlot(newData, entry.key);
      PutReachable(hash, newData, entry.key, entry.value, d);
      RehashOne(done, entry, newData, index);
      LiveCountUpdate(newData, index, entry);
      r := newData[index := entry];
      assert forall p :: 0 <= p < |r| && p != index ==> r[p] == newData[p];
    }

    /** With distinct live keys no lookup changes; a key held twice may come out with its other value. */
    method Resize(newCap: nat)
      requires Sound() && PowerOfTwo(newCap) && newCap >= 8 && size < newCap && Fits(size, newCap)
      modifies `data
      ensures Sound() && |data| == newCap && NoTombstones(data) && SamePairs(old(data), data)
      ensures old(Distinct(data)) ==> Distinct(data) && forall x :: Lookup(x) == old(Lookup(x))
    {
      var newData: seq<Slot<K, V>> := seq(newCap, i => Empty);
      AllEmpty(newData);
      assert Reachable(hash, newData);
      hide Probe, BitAnd, Reachable, HasLive;
      for i := 0 to |data|
        invariant data == old(data) && |newData| == newCap && NoTombstones(newData) &&
                  LiveCount(newData) == LiveCount(data[..i])
        invariant Reachable(hash, newData) && SamePairs(data[..i], newData)
        invariant Distinct(data) ==> Distinct(newData)
      {
        NextDone(data, newData, i);
        if data[i].Full? && !data[i].deleted {
          newData := Reinsert(newData, data[i], data[..i]);
        }
      }
      assert data[..|data|] == data;
      if Distinct(data) { SamePairsAll(hash, data, newData); }
      data := newData;
    }

    method EnsureCapacity()
      requires Sound()
      modifies `data
      ensures Sound() && Fits(size + 1, |data|) && (NoTombstones(old(data)) ==> NoTombstones(data))
      ensures old(Distinct(data)) ==> Distinct(data) && forall x :: Lookup(x) == old(Lookup(x))
      ensures if Fits(size + 1, |old(data)|) then data == old(data)
              else |data| == 2 * |old(data)| && NoTombstones(data) && SamePairs(old(data), data)
    {
      hide Probe, Reachable, Distinct, LiveCount, SamePairs;
      if !Fits(size + 1, |data|) {
        var newCap := if |data| == 0 then 8 else |data| * 2;
        Resize(newCap);
      }
    }

    /**
     Insert. `grown` is the table after EnsureCapacity, and lookups are afterwards those of `grown` updated; with
     distinct live keys those of the old table updated. Live keys are distinct then exactly if they were and no live `k`
     was hidden behind a tombstone. The pair goes to the slot of a live `k` or to the first slot that is not live, `d`
     steps down the path of `k`.
     */
    method Insert(k: K, v: V) returns (ghost grown: seq<Slot<K, V>>, ghost d: nat)
      requires Sound()
      modifies this
      ensures Sound() && PowerOfTwo(|grown|) && Reachable(hash, grown)
      ensures forall x :: Lookup(x) == if x == k then Some(v) else Probe(hash, grown, x, 0)
      ensures if Fits(old(size) + 1, |old(data)|) then grown == old(data)
              else |grown| == 2 * |old(data)| && NoTombstones(grown) && SamePairs(old(data), grown)
      ensures old(Distinct(data)) ==> Distinct(grown) && forall x :: Probe(hash, grown, x, 0) == old(Lookup(x))
      ensures d < |grown| && Passed(hash, grown, k, d)
      ensures var p := Step(|grown|, Home(hash, |grown|, k), d);
              && (grown[p].Live() ==> grown[p].key == k) && data == grown[p := Full(k, v, false)]
              && size == old(size) + (if grown[p].Live() then 0 else 1)
      ensures Distinct(data) <==> Distinct(grown) && !Shadowed(hash, grown, k)
      ensures NoTombstones(old(data)) ==> NoTombstones(data) && (old(Distinct(data)) ==> Distinct(data))
    {
      hide Reachable, Distinct, LiveCount, SamePairs, Probe, Home, Step;
      EnsureCapacity();
      grown := data;
      var index: nat;
      index, d := Locate(k);
      OthersAll(hash, grown, index, v, k);
      LiveCountUpdate(grown, index, Full(k, v, false));
      PutDistinct(hash, grown, k, v, d);
      if data[index].Full? && !data[index].deleted {
        data := data[index := Full(k, v, false)];
        return;
      }
      data := data[index := Full(k, v, false)];
      size := size + 1;
    }

    /** Insert's probe loop: it stops at a live `k` or at the first slot that is not live. */
    method Locate(k: K) returns (index: nat, ghost d: nat)
      requires Sound() && size < |data|
      ensures d < |data| && index == Step(|data|, Home(hash, |data|, k), d) && Passed(hash, data, k, d)
      ensures data[index].Live() ==> data[index].key == k
      ensures forall v :: Reachable(hash, data[index := Full(k, v, false)])
      ensures forall v :: Probe(hash, data[index := Full(k, v, false)], k, 0) == Some(v)
    {
      hide Reachable, BitAnd;
      var cap := |data|;
      MaskInRange(hash(k), cap);
      index := BitAnd(hash(k), cap - 1);
      d := 0;
      ghost var home := index;
      ghost var w := SomeNotLive(data);
      while data[index].Full? && !data[index].deleted
        invariant d < cap && index == Step(cap, home, d) && Passed(hash, data, k, d) && d <= Dist(cap, home, w)
        decreases cap - d
      {
        if data[index].key == k { break; }
        NextSlot(cap, index);
        index := BitAnd(index + 1, cap - 1);
        d := d + 1;
      }
      forall v: V
        ensures Reachable(hash, data[index := Full(k, v, false)]) &&
                Probe(hash, data[index := Full(k, v, false)], k, 0) == Some(v)
      {
        PutReachable(hash, data, k, v, d);
        PutFound(hash, data, k, v, d);
      }
    }

    method Get(k: K) returns (r: Option<V>)
      requires Sound()
      ensures r == Lookup(k)
    {
      hide Reachable, LiveCount;
      var cap := |data|;
      MaskInRange(hash(k), cap);
      var index := BitAnd(hash(k), cap - 1);
      var start := index;
      ghost var d := 0;
      while data[index].Full?
        invariant d < cap && index == Step(cap, start, d) && Lookup(k) == Probe(hash, data, k, d)
        decreases cap - d
      {
        if !data[index].deleted && data[index].key == k {
          return Some(data[index].value);
        }
        NextSlot(cap, index);
        index := BitAnd(index + 1, cap - 1);
        d := d + 1;
        if index == start { break; }
      }
      return None;
    }

    /**
     Remove buries the first live `k` on its path, in any table: `k` is then looked up behind it. With distinct live
     keys nothing is found there.
     */
    method Remove(k: K)
      requires Sound()
      modifies this
      ensures Sound() && |data| == |old(data)|
      ensures forall x :: Lookup(x) == if x == k then old(Behind(hash, data, k, 0)) else old(Lookup(x))
      ensures size == old(size) - (if old(Lookup(k)).Some? then 1 else 0)
      ensures data == old(data) || Buried(old(data), data, k)
      ensures old(Distinct(data)) ==> Distinct(data) && Lookup(k) == None
    {
      hide Distinct, LiveCount, Reachable, BitAnd;
      var cap := |data|;
      MaskInRange(hash(k), cap);
      var index := BitAnd(hash(k), cap - 1);
      var start := index;
      ghost var d := 0;
      while data[index].Full?
        invariant data == old(data) && size == old(size)
        invariant d < cap && index == Step(cap, start, d) && Lookup(k) == Probe(hash, data, k, d)
        invariant NotYet(hash, data, k, d) && Behind(hash, data, k, 0) == Behind(hash, data, k, d)
        decreases cap - d
      {
        if !data[index].deleted && data[index].key == k {
          BuryKeeps(hash, data, k, d);
          if Distinct(data) { BuryUnbinds(hash, data, k, d); }
          LiveCountUpdate(data, index, data[index].(deleted := true));
          data := data[index := data[index].(deleted := true)];
          size := size - 1;
          return;
        }
        NextSlot(cap, index);
        index := BitAnd(index + 1, cap - 1);
        d := d + 1;
        if index == start { break; }
      }
    }

    /** A pair inserted and removed again leaves the old value exactly when the key was shadowed. */
    method InsertThenRemove(k: K, v: V) returns (ghost grown: seq<Slot<K, V>>)
      requires Valid()
      modifies this
      ensures Sound() && PowerOfTwo(|grown|)
      ensures if Fits(old(size) + 1, |old(data)|) then grown == old(data) else NoTombstones(grown)
      ensures forall x :: Lookup(x) == if x == k && !Shadowed(hash, grown, k) then None else old(Lookup(x))
      ensures Shadowed(hash, grown, k) ==> Lookup(k).Some?
    {
      hide Reachable, LiveCount, Fits, Probe, Behind;
      ghost var d;
      grown, d := Insert(k, v);
      if Shadowed(hash, grown, k) {
        StaleBehind(hash, grown, k, v, d);
      }
      Remove(k);
    }
  }

  lemma OthersAll<K(!new), V>(hash: K -> nat, data: seq<Slot<K, V>>, p: nat, v: V, k: K)
    requires PowerOfTwo(|data|) && Reachable(hash, data) && p < |data|
    requires data[p].Live() ==> data[p].key == k
    ensures forall x :: x != k ==> Probe(hash, data[p := Full(k, v, false)], x, 0) == Probe(hash, data, x, 0)
  {
    forall x | x != k
      ensures Probe(hash, data[p := Full(k, v, false)], x, 0) == Probe(hash, data, x, 0)
    {
      OthersUndisturbed(hash, data, p, Full(k, v, false), k, x);
    }
  }

  // ---- burying a slot -----------------------------------------------------------------

  /** None of the first `d` slots on the path of `k` is empty or a live `k`. */
  ghost predicate NotYet<K, V>(hash: K -> nat, data: seq<Slot<K, V>>, k: K, d: nat)
    requires PowerOfTwo(|data|) && d <= |data|
  {
    forall e :: 0 <= e < d ==> var s := data[Step(|data|, Home(hash, |data|, k), e)]; s.Full? && !(s.Live() && s.key == k)
  }

  /** What Get would return if it skipped the first live `k`. */
  ghost function Behind<K, V>(hash: K -> nat, data: seq<Slot<K, V>>, k: K, d: nat): Option<V>
    requires PowerOfTwo(|data|) && d <= |data|
    decreases |data| - d
  {
    if d == |data| then None else
      var slot := data[Step(|data|, Home(hash, |data|, k), d)];
      if slot.Empty? then None
      else if slot.Live() && slot.key == k then Probe(hash, data, k, d + 1)
      else Behind(hash, data, k, d + 1)
  }

  /** A live `k` has become a tombstone. */
  ghost predicate Buried<K, V>(data: seq<Slot<K, V>>, data': seq<Slot<K, V>>, k: K) {
    exists p :: 0 <= p < |data| && data[p].Live() && data[p].key == k && data' == data[p := data[p].(deleted := true)]
  }

  /** A slot already passed does not matter. */
  lemma {:induction false} PassedSlot<K, V>(hash: K -> nat, data: seq<Slot<K, V>>, k: K, s: Slot<K, V>, d: nat, e: nat)
    requires PowerOfTwo(|data|) && d < e <= |data|
    ensures Probe(hash, data[Step(|data|, Home(hash, |data|, k), d) := s], k, e) == Probe(hash, data, k, e)
    decreases |data| - e
  {
    if e < |data| { PassedSlot(hash, data, k, s, d, e + 1); }
  }

  lemma {:induction false} NotYetProbe<K, V>(hash: K -> nat, data: seq<Slot<K, V>>, k: K, d: nat, e: nat)
    requires PowerOfTwo(|data|) && e <= d <= |data| && NotYet(hash, data, k, d)
    ensures Probe(hash, data, k, e) == Probe(hash, data, k, d) && Behind(hash, data, k, e) == Behind(hash, data, k, d)
    decreases d - e
  {
    if e < d { NotYetProbe(hash, data, k, d, e + 1); }
  }

  /** Remove turns the first live `k`, `d` steps down its path, into a tombstone. */
  lemma BuryKeeps<K(!new), V>(hash: K -> nat, data: seq<Slot<K, V>>, k: K, d: nat)
    requires PowerOfTwo(|data|) && d < |data| && NotYet(hash, data, k, d) && Reachable(hash, data)
    requires var s := data[Step(|data|, Home(hash, |data|, k), d)]; s.Live() && s.key == k
    ensures var p := Step(|data|, Home(hash, |data|, k), d);
            var data' := data[p := data[p].(deleted := true)];
            && Reachable(hash, data')
            && forall x :: Probe(hash, data', x, 0) == if x == k then Behind(hash, data, k, 0) else Probe(hash, data, x, 0)
  {
    hide Home;
    var p := Step(|data|, Home(hash, |data|, k), d);
    var data' := data[p := data[p].(deleted := true)];
    forall x
      ensures Probe(hash, data', x, 0) == if x == k then Behind(hash, data, k, 0) else Probe(hash, data, x, 0)
    {
      if x == k {
        NotYetProbe(hash, data, k, d, 0);
        NotYetProbe(hash, data', k, d, 0);
        PassedSlot(hash, data, k, data'[p], d, d + 1);
      } else {
        FullUndisturbed(hash, data, p, data'[p], x, 0);
      }
    }
  }

  /** If no other live slot holds `k`, it is no longer found. */
  lemma BuryUnbinds<K, V>(hash: K -> nat, data: seq<Slot<K, V>>, k: K, d: nat)
    requires PowerOfTwo(|data|) && d < |data| && Distinct(data)
    requires var s := data[Step(|data|, Home(hash, |data|, k), d)]; s.Live() && s.key == k
    ensures var p := Step(|data|, Home(hash, |data|, k), d);
            var data' := data[p := data[p].(deleted := true)];
            Distinct(data') && Probe(hash, data', k, 0) == None
  {
    hide Home;
    var p := Step(|data|, Home(hash, |data|, k), d);
    var data' := data[p := data[p].(deleted := true)];
    assert forall q :: 0 <= q < |data| && q != p ==> data'[q] == data[q];
    ProbeMisses(hash, data', k, 0);
  }

  /** Behind the tombstone that Insert fills, the shadowed `k` is still there. */
  lemma StaleBehind<K, V>(hash: K -> nat, data: seq<Slot<K, V>>, k: K, v: V, d: nat)
    requires PowerOfTwo(|data|) && Shadowed(hash, data, k) && d < |data| && Passed(hash, data, k, d)
    requires Reachable(hash, data) && Unique(data, k)
    requires var s := data[Step(|data|, Home(hash, |data|, k), d)]; s.Live() ==> s.key == k
    ensures Probe(hash, data, k, 0).Some?
    ensures Behind(hash, data[Step(|data|, Home(hash, |data|, k), d) := Full(k, v, false)], k, 0) == Probe(hash, data, k, 0)
  {
    hide Home, Reachable, Unique;
    var p := Step(|data|, Home(hash, |data|, k), d);
    var data' := data[p := Full(k, v, false)];
    var e :| 0 <= e < |data| && Passed(hash, data, k, e)
             && var s := data[Step(|data|, Home(hash, |data|, k), e)]; s.Full? && s.deleted;
    var q :| 0 <= q < |data| && data[q].Live() && data[q].key == k;
    ProbeFinds(hash, data, k, q, 0);
    assert d == e;
    NotYetProbe(hash, data, k, d, 0);
    NotYetProbe(hash, data', k, d, 0);
    PassedSlot(hash, data, k, data'[p], d, d + 1);
  }

  lemma {:induction false} LivePrefix<K, V>(data: seq<Slot<K, V>>, i: nat)
    requires i < |data| && data[i].Live()
    ensures LiveCount(data[..i]) < LiveCount(data)
  {
    var n := |data| - 1;
    if i == n {
    } else {
      assert data[..n][..i] == data[..i];
      LivePrefix(data[..n], i);
    }
  }

  lemma HashZeroByte(h: nat)
    ensures HashByte(h, 0) == h * 16777619 % 0x1_0000_0000
  {
  }

  lemma MaskThree(a: nat)
    ensures BitAnd(a, 3) == a % 4
  {
    assert BitAnd(a / 2, 1) == a / 2 % 2 by { assert BitAnd(a / 4, 0) == 0; }
    assert BitAnd(a, 3) == 2 * BitAnd(a / 2, 1) + a % 2;
    hide BitAnd;
  }

  lemma MaskSeven(a: nat)
    ensures BitAnd(a, 7) == a % 8
  {
    MaskThree(a / 2);
    assert BitAnd(a, 7) == 2 * BitAnd(a / 2, 3) + a % 2;
    hide BitAnd;
  }

  lemma XorWithNine()
    ensures BitXor(2166136261, 1) == 2166136260 && BitXor(2166136261, 9) == 2166136268
  {
    assert BitXor(270767032, 1) == 270767033 by { assert BitXor(135383516, 0) == 135383516; }
    assert BitXor(541534065, 2) == 541534067;
    assert BitXor(1083068130, 4) == 1083068134;
  }

  lemma FirstBytes()
    ensures HashByte(2166136261, 1) == 67918732 && HashByte(2166136261, 9) == 202139684
  {
    XorWithNine();
    hide BitXor;
  }

  lemma SmallKey(k: nat)
    requires k < 256
    ensures Fnv1a(k) == HashByte(HashByte(HashByte(HashByte(2166136261, k), 0), 0), 0)
  {
    hide HashByte;
  }

  lemma HashOfOne()
    ensures Fnv1a(1) == 4218009092
  {
    hide Fnv1a, HashByte, BitXor;
    SmallKey(1);
    FirstBytes();
    assert HashByte(67918732, 0) == 3950255460 by { HashZeroByte(67918732); }
    assert HashByte(3950255460, 0) == 197805164 by { HashZeroByte(3950255460); }
    assert HashByte(197805164, 0) == 4218009092 by { HashZeroByte(197805164); }
  }

  lemma HashOfNine()
    ensures Fnv1a(9) == 2093723276
  {
    hide Fnv1a, HashByte, BitXor;
    SmallKey(9);
    FirstBytes();
    assert HashByte(202139684, 0) == 461893804 by { HashZeroByte(202139684); }
    assert HashByte(461893804, 0) == 50323140 by { HashZeroByte(461893804); }
    assert HashByte(50323140, 0) == 2093723276 by { HashZeroByte(50323140); }
  }

  /** Keys 1 and 9 hash to the same slot of a new table. */
  lemma OneAndNineCollide()
    ensures PowerOfTwo(8) && Home(Fnv1a, 8, 1) == Home(Fnv1a, 8, 9)
  {
    assert PowerOfTwo(8) by { assert PowerOfTwo(4) by { assert PowerOfTwo(2); } }
    hide Fnv1a;
    HashOfOne();
    HashOfNine();
    MaskSeven(4218009092);
    MaskSeven(2093723276);
    hide BitAnd;
  }

  /** The first insertion into a table of empty slots goes home. */
  lemma FirstGoesHome<K, V>(hash: K -> nat, data: seq<Slot<K, V>>, k: K, d: nat)
    requires PowerOfTwo(|data|) && d < |data| && Passed(hash, data, k, d) && forall i :: 0 <= i < |data| ==> data[i].Empty?
    ensures d == 0
  {
    assert data[Step(|data|, Home(hash, |data|, k), 0)].Empty?;
  }

  /** The second, with the same home, goes one step further. */
  lemma SecondGoesNext<K, V>(hash: K -> nat, data: seq<Slot<K, V>>, h: nat, s: Slot<K, V>, k: K, d: nat)
    requires PowerOfTwo(|data|) && |data| > 1 && d < |data| && Passed(hash, data, k, d) && h == Home(hash, |data|, k)
    requires s.Live() && s.key != k && data[h] == s && forall i :: 0 <= i < |data| && i != h ==> data[i].Empty?
    requires var p := Step(|data|, h, d); data[p].Live() ==> data[p].key == k
    ensures d == 1
  {
    assert Step(|data|, h, 0) == h;
    assert data[Step(|data|, Home(hash, |data|, k), 1)].Empty?;
  }

  lemma HomeIsShadowed<K, V>(hash: K -> nat, data: seq<Slot<K, V>>, k: K, p: nat)
    requires PowerOfTwo(|data|) && p < |data| && data[p].Live() && data[p].key == k
    requires var h := Home(hash, |data|, k); data[h].Full? && data[h].deleted
    ensures Shadowed(hash, data, k)
  {
    assert Step(|data|, Home(hash, |data|, k), 0) == Home(hash, |data|, k);
    assert Passed(hash, data, k, 0);
  }

  /** After these six calls key 9 has been removed last and is found with its first value. */
  method OldValueComesBack() returns (found: Option<nat>)
    ensures found == Some(20)
  {
    hide Fnv1a, Home, Probe, Reachable, LiveCount, Passed, Shadowed, SamePairs, Unique, BitAnd;
    OneAndNineCollide();
    var table := new HashTable<nat, nat>(Fnv1a);
    ghost var h := Home(Fnv1a, 8, 1);
    ghost var empty := table.data;
    ghost var grown, d := table.Insert(1, 10);
    FirstGoesHome(Fnv1a, empty, 1, d);
    ghost var one := table.data;
    assert one == empty[h := Full(1, 10, false)] && table.size == 1;
    grown, d := table.Insert(9, 20);
    SecondGoesNext(Fnv1a, one, h, one[h], 9, d);
    ghost var two := table.data;
    assert two == one[Step(8, h, 1) := Full(9, 20, false)] && table.size == 2;
    table.Remove(1);
    assert table.data == two[h := Full(1, 10, true)];
    HomeIsShadowed(Fnv1a, table.data, 9, Step(8, h, 1));
    grown := table.InsertThenRemove(9, 21);
    found := table.Get(9);
  }
}
