/** Radix trees as values: lookup, insertion, and which key an insertion really binds. */
module RadixShape {
  import opened Ordering

  datatype Tree<V> = Tree(value: Option<V>, edges: seq<string>, children: seq<Tree<V>>)

  /** Edges are not empty and start with different characters, one child each. */
  predicate WellFormed<V>(t: Tree<V>) {
    && |t.children| == |t.edges|
    && (forall i :: 0 <= i < |t.edges| ==> t.edges[i] != "")
    && (forall i, j :: 0 <= i < j < |t.edges| ==> t.edges[i][0] != t.edges[j][0])
    && (forall i :: 0 <= i < |t.children| ==> WellFormed(t.children[i]))
  }

  function Common(a: string, b: string): (j: nat)
    ensures j <= |a| && j <= |b| && a[..j] == b[..j]
    ensures j < |a| && j < |b| ==> a[j] != b[j]
  {
    if a == "" || b == "" || a[0] != b[0] then 0 else 1 + Common(a[1..], b[1..])
  }

  /** The first edge that shares its first character with `rest`, or the number of edges. */
  function Branch(edges: seq<string>, rest: string): (i: nat)
    ensures i <= |edges|
    ensures forall k :: 0 <= k < i ==> Common(edges[k], rest) == 0
    ensures i < |edges| ==> Common(edges[i], rest) > 0
  {
    if edges == [] || Common(edges[0], rest) > 0 then 0 else 1 + Branch(edges[1..], rest)
  }

  /** The first edge that is a prefix of `rest`, or the number of edges. */
  function Match(edges: seq<string>, rest: string): (i: nat)
    ensures i <= |edges|
    ensures forall k :: 0 <= k < i ==> !(edges[k] <= rest)
    ensures i < |edges| ==> edges[i] <= rest
  {
    if edges == [] || edges[0] <= rest then 0 else 1 + Match(edges[1..], rest)
  }

  function Lookup<V>(t: Tree<V>, rest: string): Option<V>
    requires WellFormed(t)
  {
    if rest == "" then t.value
    else
      var i := Match(t.edges, rest);
      if i == |t.edges| then None else Lookup(t.children[i], rest[|t.edges[i]|..])
  }

  function Empty<V>(): Tree<V> {
    Tree(None, [], [])
  }

  function Holding<V>(v: V): Tree<V> {
    Tree(Some(v), [], [])
  }

  /** An edge that ends inside a key's remainder: the old child hangs below the split. */
  function Shortened<V>(edge: string, child: Tree<V>, j: nat, v: V): Tree<V>
    requires j <= |edge|
  {
    Tree(Some(v), [edge[j..]], [child])
  }

  /** Both sides go on after the common part: the new branch is inserted one suffix too deep. */
  function Split<V>(edge: string, rest: string, child: Tree<V>, j: nat, v: V): Tree<V>
    requires j <= |edge| && j <= |rest|
  {
    Tree(None, [edge[j..], rest[j..]], [child, Tree(None, [rest[j..]], [Holding(v)])])
  }

  function WithBranch<V>(t: Tree<V>, i: nat, edge: string, child: Tree<V>): Tree<V>
    requires i < |t.edges| == |t.children|
  {
    Tree(t.value, t.edges[i := edge], t.children[i := child])
  }

  function Inserted<V>(t: Tree<V>, rest: string, v: V): Tree<V>
    requires WellFormed(t)
    decreases t
  {
    if rest == "" then t.(value := Some(v))
    else
      var i := Branch(t.edges, rest);
      if i == |t.edges| then Tree(t.value, t.edges + [rest], t.children + [Holding(v)])
      else
        var edge, child := t.edges[i], t.children[i];
        var j := Common(edge, rest);
        if j == |edge| then WithBranch(t, i, edge, Inserted(child, rest[j..], v))
        else if j == |rest| then WithBranch(t, i, rest, Shortened(edge, child, j, v))
        else WithBranch(t, i, edge[..j], Split(edge, rest, child, j, v))
  }

  /** The key is left by an edge somewhere strictly inside both. */
  predicate Diverges<V>(t: Tree<V>, rest: string)
    requires WellFormed(t)
    decreases t
  {
    if rest == "" then false
    else
      var i := Branch(t.edges, rest);
      if i == |t.edges| then false
      else
        var j := Common(t.edges[i], rest);
        if j == |t.edges[i]| then Diverges(t.children[i], rest[j..]) else j < |rest|
  }

  /** The key an insertion binds. */
  function BoundKey<V>(t: Tree<V>, rest: string): string
    requires WellFormed(t)
    decreases t
  {
    if rest == "" then ""
    else
      var i := Branch(t.edges, rest);
      if i == |t.edges| then rest
      else
        var j := Common(t.edges[i], rest);
        if j == |t.edges[i]| then t.edges[i] + BoundKey(t.children[i], rest[j..])
        else if j == |rest| then rest
        else rest + rest[j..]
  }

  /** It is the key asked for exactly when the key does not diverge inside an edge. */
  lemma {:induction false} BindsTheKeyExactly<V>(t: Tree<V>, rest: string)
    requires WellFormed(t)
    ensures BoundKey(t, rest) == rest <==> !Diverges(t, rest)
    ensures rest <= BoundKey(t, rest)
    decreases t
  {
    if rest != "" {
      var i := Branch(t.edges, rest);
      if i < |t.edges| {
        var j := Common(t.edges[i], rest);
        if j == |t.edges[i]| {
          BindsTheKeyExactly(t.children[i], rest[j..]);
          assert t.edges[i] == rest[..j];
          assert t.edges[i] + rest[j..] == rest;
        }
      }
    }
  }

  // ---- lookups ------------------------------------------------------------------------

  lemma CommonFirst(a: string, b: string)
    ensures Common(a, b) > 0 <==> a != "" && b != "" && a[0] == b[0]
  {
  }

  /** A lookup goes down the one edge with the key's first character. */
  lemma LookupDown<V>(t: Tree<V>, k: string, i: nat)
    requires WellFormed(t) && k != "" && i < |t.edges| && t.edges[i][0] == k[0]
    ensures Lookup(t, k) == if t.edges[i] <= k then Lookup(t.children[i], k[|t.edges[i]|..]) else None
  {
  }

  lemma LookupNone<V>(t: Tree<V>, k: string)
    requires WellFormed(t) && k != "" && forall i :: 0 <= i < |t.edges| ==> t.edges[i][0] != k[0]
    ensures Lookup(t, k) == None
  {
  }

  /** Replacing branch `i` by one with the same first character changes only the keys that start with it. */
  lemma {:induction false} LookupElsewhere<V>(t: Tree<V>, t': Tree<V>, i: nat, edge: string, child: Tree<V>, k: string)
    requires WellFormed(t) && WellFormed(t') && i < |t.edges| && edge != "" && edge[0] == t.edges[i][0]
    requires t' == WithBranch(t, i, edge, child)
    requires k == "" || k[0] != edge[0]
    ensures Lookup(t', k) == Lookup(t, k)
  {
    if k != "" {
      if n :| 0 <= n < |t.edges| && t.edges[n][0] == k[0] {
        LookupDown(t, k, n);
        LookupDown(t', k, n);
      } else {
        forall n | 0 <= n < |t'.edges| ensures t'.edges[n][0] != k[0] { assert n != i ==> t'.edges[n] == t.edges[n]; }
        LookupNone(t, k);
        LookupNone(t', k);
      }
    }
  }

  // ---- insertion is a map update ------------------------------------------------------

  lemma HoldingLookup<V>(v: V, k: string)
    ensures WellFormed(Holding(v)) && Lookup(Holding(v), k) == if k == "" then Some(v) else None
  {
  }

  lemma NewBranch<V>(t: Tree<V>, rest: string, v: V, k: string)
    requires WellFormed(t) && rest != "" && Branch(t.edges, rest) == |t.edges|
    ensures var t' := Inserted(t, rest, v);
            WellFormed(t') && Lookup(t', k) == if k == rest then Some(v) else Lookup(t, k)
  {
    hide Branch, Common;
    var t' := Inserted(t, rest, v);
    var n := |t.edges|;
    forall i | 0 <= i < n
      ensures t.edges[i][0] != rest[0]
    {
      CommonFirst(t.edges[i], rest);
    }
    assert t'.edges[n] == rest && t'.children[n] == Holding(v);
    assert forall i :: 0 <= i < n ==> t'.edges[i] == t.edges[i] && t'.children[i] == t.children[i];
    assert WellFormed(t');
    if k != "" {
      if k[0] == rest[0] {
        LookupDown(t', k, n);
        LookupNone(t, k);
        if rest <= k {
          HoldingLookup(v, k[|rest|..]);
          assert k[|rest|..] == "" ==> k == rest;
        }
      } else if i :| 0 <= i < n && t.edges[i][0] == k[0] {
        LookupDown(t, k, i);
        LookupDown(t', k, i);
      } else {
        LookupNone(t, k);
        LookupNone(t', k);
      }
    }
  }

  lemma BranchReplaced<V>(t: Tree<V>, i: nat, edge: string, child: Tree<V>)
    requires WellFormed(t) && i < |t.edges| && edge != "" && edge[0] == t.edges[i][0] && WellFormed(child)
    ensures WellFormed(WithBranch(t, i, edge, child))
  {
  }

  lemma {:induction false} ShortenedLookup<V>(edge: string, child: Tree<V>, j: nat, v: V, k: string)
    requires WellFormed(child) && 0 < j < |edge|
    ensures WellFormed(Shortened(edge, child, j, v))
    ensures Lookup(Shortened(edge, child, j, v), k)
            == if k == "" then Some(v) else if edge[j..] <= k then Lookup(child, k[|edge| - j..]) else None
  {
  }

  /** A node with one branch that holds `v` binds exactly that branch's edge. */
  lemma OnlyBranch<V>(tail: string, v: V, k: string)
    requires tail != ""
    ensures var deep := Tree(None, [tail], [Holding(v)]);
            WellFormed(deep) && Lookup(deep, k) == if k == tail then Some(v) else None
  {
    hide Match;
    var deep := Tree(None, [tail], [Holding(v)]);
    HoldingLookup(v, "");
    if k != "" && k[0] == tail[0] {
      LookupDown(deep, k, 0);
      if tail <= k {
        HoldingLookup(v, k[|tail|..]);
        assert k == tail + k[|tail|..];
      }
    } else if k != "" {
      LookupNone(deep, k);
    }
  }

  lemma Doubled(tail: string, k: string)
    ensures k == tail + tail <==> tail <= k && k[|tail|..] == tail
  {
  }

  lemma SplitLookup<V>(edge: string, rest: string, child: Tree<V>, j: nat, v: V, k: string)
    requires WellFormed(child) && 0 < j < |edge| && j < |rest| && edge[j] != rest[j]
    ensures WellFormed(Split(edge, rest, child, j, v))
    ensures Lookup(Split(edge, rest, child, j, v), k)
            == if k == rest[j..] + rest[j..] then Some(v)
               else if k != "" && edge[j..] <= k then Lookup(child, k[|edge| - j..]) else None
  {
    hide Match;
    var t := Split(edge, rest, child, j, v);
    var tail := rest[j..];
    OnlyBranch(tail, v, "");
    assert WellFormed(t) && Lookup(t, "") == None;
    hide WellFormed, Lookup, Split;
    Doubled(tail, k);
    if k == "" {
    } else if k[0] == edge[j] {
      LookupDown(t, k, 0);
    } else if k[0] == rest[j] {
      LookupDown(t, k, 1);
      if tail <= k { OnlyBranch(tail, v, k[|tail|..]); }
    } else {
      LookupNone(t, k);
    }
  }

  /**
   Insertion is a map update at the key it binds: that key now has the value, every other key keeps its own, and
   the tree stays well formed.
   */
  lemma {:induction false} InsertIsMapUpdate<V>(t: Tree<V>, rest: string, v: V, k: string)
    requires WellFormed(t)
    ensures WellFormed(Inserted(t, rest, v))
    ensures Lookup(Inserted(t, rest, v), k) == if k == BoundKey(t, rest) then Some(v) else Lookup(t, k)
    decreases t
  {
    if rest != "" {
      var i := Branch(t.edges, rest);
      if i == |t.edges| {
        NewBranch(t, rest, v, k);
      } else {
        var edge, child := t.edges[i], t.children[i];
        var j := Common(edge, rest);
        CommonFirst(edge, rest);
        if j == |edge| {
          InsertIsMapUpdate(child, rest[j..], v, if edge <= k then k[j..] else "");
          DescentCase(t, rest, v, k, i);
        } else if j == |rest| {
          ShortenedCase(t, rest, v, k, i);
        } else {
          SplitCase(t, rest, v, k, i);
        }
      }
    }
  }

  lemma {:induction false} DescentCase<V>(t: Tree<V>, rest: string, v: V, k: string, i: nat)
    requires WellFormed(t) && rest != "" && i == Branch(t.edges, rest) < |t.edges|
    requires Common(t.edges[i], rest) == |t.edges[i]| && WellFormed(Inserted(t.children[i], rest[|t.edges[i]|..], v))
    requires t.edges[i] <= k ==>
               Lookup(Inserted(t.children[i], rest[|t.edges[i]|..], v), k[|t.edges[i]|..])
               == if k[|t.edges[i]|..] == BoundKey(t.children[i], rest[|t.edges[i]|..]) then Some(v)
                  else Lookup(t.children[i], k[|t.edges[i]|..])
    ensures WellFormed(Inserted(t, rest, v))
    ensures Lookup(Inserted(t, rest, v), k) == if k == BoundKey(t, rest) then Some(v) else Lookup(t, k)
  {
    hide Branch, Common, Match;
    var edge, child := t.edges[i], t.children[i];
    var child' := Inserted(child, rest[|edge|..], v);
    var t' := WithBranch(t, i, edge, child');
    assert Inserted(t, rest, v) == t';
    var b := BoundKey(child, rest[|edge|..]);
    assert BoundKey(t, rest) == edge + b;
    hide Inserted, BoundKey, Lookup;
    BranchReplaced(t, i, edge, child');
    if k != "" && k[0] == edge[0] {
      LookupDown(t, k, i);
      LookupDown(t', k, i);
      if edge <= k { assert k == edge + k[|edge|..]; }
      assert k == edge + b ==> edge <= k && k[|edge|..] == b;
    } else {
      LookupElsewhere(t, t', i, edge, child', k);
      assert (edge + b)[0] == edge[0];
    }
  }

  lemma {:induction false} ShortenedCase<V>(t: Tree<V>, rest: string, v: V, k: string, i: nat)
    requires WellFormed(t) && rest != "" && i == Branch(t.edges, rest) < |t.edges|
    requires Common(t.edges[i], rest) == |rest| < |t.edges[i]|
    ensures WellFormed(Inserted(t, rest, v))
    ensures Lookup(Inserted(t, rest, v), k) == if k == BoundKey(t, rest) then Some(v) else Lookup(t, k)
  {
    hide Branch, Common, Match;
    var edge, child, j := t.edges[i], t.children[i], |rest|;
    var child' := Shortened(edge, child, j, v);
    var t' := WithBranch(t, i, rest, child');
    assert Inserted(t, rest, v) == t' && BoundKey(t, rest) == rest && edge[..j] == rest;
    hide Inserted, BoundKey, Lookup, Shortened;
    ShortenedLookup(edge, child, j, v, "");
    BranchReplaced(t, i, rest, child');
    if k != "" && k[0] == edge[0] {
      LookupDown(t, k, i);
      LookupDown(t', k, i);
      if rest <= k {
        var k' := k[j..];
        assert k == rest + k' && edge == rest + edge[j..];
        ShortenedLookup(edge, child, j, v, k');
        assert edge[j..] <= k' <==> edge <= k;
        if edge <= k { assert k'[|edge| - j..] == k[|edge|..]; }
        assert k' == "" <==> k == rest;
      }
    } else {
      LookupElsewhere(t, t', i, rest, child', k);
    }
  }

  /** The split node, looked up with what remains of a key after the common part. */
  lemma SplitBelow<V>(edge: string, rest: string, child: Tree<V>, j: nat, v: V, k: string)
    requires WellFormed(child) && 0 < j < |edge| && j < |rest| && edge[..j] == rest[..j] && edge[j] != rest[j]
    requires edge[..j] <= k
    ensures WellFormed(Split(edge, rest, child, j, v))
    ensures Lookup(Split(edge, rest, child, j, v), k[j..])
            == if k == rest + rest[j..] then Some(v) else if edge <= k then Lookup(child, k[|edge|..]) else None
  {
    var head, tail, k' := edge[..j], rest[j..], k[j..];
    assert k == head + k' && rest == head + tail;
    SplitLookup(edge, rest, child, j, v, k');
    hide Lookup, Split, WellFormed;
    SplitKeys(edge, rest, head, tail, j, k, k');
  }

  lemma SplitForm<V>(t: Tree<V>, rest: string, v: V, i: nat)
    requires WellFormed(t) && rest != "" && i == Branch(t.edges, rest) < |t.edges|
    requires Common(t.edges[i], rest) < |rest| && Common(t.edges[i], rest) < |t.edges[i]|
    ensures var edge, j := t.edges[i], Common(t.edges[i], rest);
            && j > 0 && edge[j] != rest[j] && rest == edge[..j] + rest[j..] && edge == edge[..j] + edge[j..]
            && Inserted(t, rest, v) == WithBranch(t, i, edge[..j], Split(edge, rest, t.children[i], j, v))
            && BoundKey(t, rest) == rest + rest[j..]
  {
    hide Split;
  }

  lemma SplitCase<V>(t: Tree<V>, rest: string, v: V, k: string, i: nat)
    requires WellFormed(t) && rest != "" && i == Branch(t.edges, rest) < |t.edges|
    requires Common(t.edges[i], rest) < |rest| && Common(t.edges[i], rest) < |t.edges[i]|
    ensures WellFormed(Inserted(t, rest, v))
    ensures Lookup(Inserted(t, rest, v), k) == if k == BoundKey(t, rest) then Some(v) else Lookup(t, k)
  {
    SplitForm(t, rest, v, i);
    hide Branch, Common, Inserted, BoundKey, Lookup, Split;
    var edge, child, j := t.edges[i], t.children[i], Common(t.edges[i], rest);
    var head, tail := edge[..j], rest[j..];
    var child' := Split(edge, rest, child, j, v);
    var t' := WithBranch(t, i, head, child');
    SplitLookup(edge, rest, child, j, v, "");
    BranchReplaced(t, i, head, child');
    if k != "" && k[0] == edge[0] {
      LookupDown(t, k, i);
      LookupDown(t', k, i);
      if head <= k {
        SplitBelow(edge, rest, child, j, v, k);
      } else {
        assert k != rest + tail && !(edge <= k);
      }
    } else {
      LookupElsewhere(t, t', i, head, child', k);
      assert (rest + tail)[0] == edge[0];
    }
  }

  lemma SplitKeys(edge: string, rest: string, head: string, tail: string, j: nat, k: string, k': string)
    requires 0 < j < |edge| && j < |rest| && edge[j] != rest[j] && head == edge[..j] && tail == rest[j..] &&
             rest == head + tail
    requires k == head + k'
    ensures k' == tail + tail <==> k == rest + tail
    ensures k' != "" && edge[j..] <= k' <==> edge <= k
    ensures edge <= k ==> k'[|edge| - j..] == k[|edge|..] && k' != tail + tail
  {
    assert rest + tail == head + (tail + tail);
    assert edge == head + edge[j..];
    assert k[j..] == k';
    if k == rest + tail {
      assert k' == (head + (tail + tail))[j..];
    }
    if edge <= k {
      assert k[..|edge|] == edge;
      assert k[j] == edge[j] == k'[0];
      assert (tail + tail)[0] == rest[j];
    }
    if k' != "" && edge[j..] <= k' {
      assert edge <= k;
    }
  }

  // ---- finding what was inserted ------------------------------------------------------

  lemma EdgeOrDiverges(edge: string, rest: string)
    requires edge != "" && rest != "" && edge[0] == rest[0]
    ensures Common(edge, rest) == |edge| <==> edge <= rest
  {
    var j := Common(edge, rest);
    assert j == |edge| ==> edge == rest[..j];
  }

  /** A key that diverges inside an edge is not bound. */
  lemma {:induction false} DivergesUnbound<V>(t: Tree<V>, rest: string)
    requires WellFormed(t) && Diverges(t, rest)
    ensures Lookup(t, rest) == None
    decreases t
  {
    hide Common, Match;
    var i := Branch(t.edges, rest);
    CommonFirst(t.edges[i], rest);
    LookupDown(t, rest, i);
    EdgeOrDiverges(t.edges[i], rest);
    if t.edges[i] <= rest {
      DivergesUnbound(t.children[i], rest[|t.edges[i]|..]);
    }
  }

  /** Find returns the value just inserted exactly when the key does not diverge inside an edge. */
  lemma FindsInsertedExactly<V>(t: Tree<V>, k: string, v: V)
    requires WellFormed(t)
    ensures WellFormed(Inserted(t, k, v)) && (Lookup(Inserted(t, k, v), k) == Some(v) <==> !Diverges(t, k))
  {
    hide Inserted, BoundKey, Diverges, Lookup;
    InsertIsMapUpdate(t, k, v, k);
    BindsTheKeyExactly(t, k);
    if Diverges(t, k) { DivergesUnbound(t, k); }
  }

  lemma OneKey<V>(v: V)
    ensures Inserted(Empty(), "ab", v) == Tree(None, ["ab"], [Holding(v)]) && WellFormed(Inserted(Empty(), "ab", v))
  {
    assert Branch([], "ab") == 0;
  }

  lemma BranchesAfterA()
    ensures Branch(["ab"], "ac") == 0 && Common("ab", "ac") == 1
  {
    assert Common("b", "c") == 0 && Common("ab", "ac") == 1;
  }

  /** After "ab", inserting "ac" binds "acc": "ac" is not found. */
  lemma SecondKeyIsLost<V>(v: V, w: V)
    ensures var t := Inserted(Empty(), "ab", v);
            && WellFormed(t) && Diverges(t, "ac") && WellFormed(Inserted(t, "ac", w))
            && Lookup(Inserted(t, "ac", w), "ac") == None && Lookup(Inserted(t, "ac", w), "acc") == Some(w)
  {
    var t := Inserted(Empty(), "ab", v);
    OneKey(v);
    BranchesAfterA();
    hide Branch, Common, Inserted, Lookup;
    assert "ac" + "ac"[1..] == "acc";
    InsertIsMapUpdate(t, "ac", w, "ac");
    InsertIsMapUpdate(t, "ac", w, "acc");
    DivergesUnbound(t, "ac");
  }

  /** A key that diverges is bound with the rest from some inner place on repeated. */
  lemma {:induction false} DivergingKeyDoubles<V>(t: Tree<V>, rest: string) returns (n: nat)
    requires WellFormed(t) && Diverges(t, rest)
    ensures 0 < n < |rest| && BoundKey(t, rest) == rest + rest[n..]
    decreases t
  {
    hide Common, Match;
    var i := Branch(t.edges, rest);
    var j := Common(t.edges[i], rest);
    CommonFirst(t.edges[i], rest);
    if j == |t.edges[i]| {
      var m := DivergingKeyDoubles(t.children[i], rest[j..]);
      n := j + m;
      assert t.edges[i] == rest[..j] && rest[j..][m..] == rest[n..];
      assert t.edges[i] + (rest[j..] + rest[n..]) == rest + rest[n..];
    } else {
      n := j;
    }
  }
}
