/** Overwriting one value in place: the tree it leaves, and why the rest of the heap still matches. */
module TreeUpdate {
  import opened Ordering
  import opened TreeShape
  import opened TreeFacts
  import opened InsertSteps
  import opened TreeHeap
  import opened TreeChain

  ghost function Revalued<N, K, V>(less: (K, K) -> bool, t: Tree<N, K, V>, k: K, v: V): Tree<N, K, V>
    decreases t
  {
    if t.Leaf? then
      var i := LowerBound(less, t.keys, k);
      if i < |t.values| then t.(values := t.values[i := v]) else t
    else
      var i := UpperBound(less, t.keys, k);
      if i < |t.children| then WithChild(t, i, Revalued(less, t.children[i], k, v)) else t
  }

  /** Stored, except that nothing is said about the values in the leaf for `k`. */
  ghost predicate Holed<K, V>(less: (K, K) -> bool, t: Shape<K, V>, k: K, end: Node?<K, V>)
    requires Apart(t)
    reads Nodes(t) - {LeafFor(less, t, k).node}
    reads LeafFor(less, t, k).node`keys, LeafFor(less, t, k).node`isLeaf, LeafFor(less, t, k).node`next
    decreases t
  {
    if t.Leaf? then t.node.isLeaf && t.node.keys == t.keys && t.node.next == end
    else
      var i := UpperBound(less, t.keys, k);
      i < |t.children| &&
      (ChildrenApart(t, i);
       LeafInside(less, t.children[i], k);
       var c := t.children[i];
       && Top(t) && Holed(less, c, k, Start(t.children[i + 1..], end))
       && AllStored(t.children[..i], First(c)) && AllStored(t.children[i + 1..], end))
  }

  lemma {:induction false} LeafInside<N, K, V>(less: (K, K) -> bool, t: Tree<N, K, V>, k: K)
    requires Apart(t)
    ensures LeafFor(less, t, k).node in Nodes(t)
  {
    if t.Inner? {
      var i := UpperBound(less, t.keys, k);
      if i < |t.children| {
        ChildrenApart(t, i);
        LeafInside(less, t.children[i], k);
      }
    }
  }

  lemma {:induction false} MakeHole<K(!new), V>(o: Config<K>, t: Shape<K, V>, lo: Bound<K>, hi: Bound<K>, k: K,
                                                end: Node?<K, V>)
    requires Apart(t) && Stored(t, end) && Ordered(o, t, lo, hi)
    ensures Holed(o.less, t, k, end)
  {
    hide StrictTotal, Fits;
    if t.Inner? {
      var i := UpperBound(o.less, t.keys, k);
      ChildrenApart(t, i);
      var m := [t.children[i]];
      StoredRuns(t, t.children[..i], m, t.children[i + 1..], end);
      MakeHole(o, t.children[i], Lo(t.keys, i, lo), Hi(t.keys, i, hi), k, Start(t.children[i + 1..], end));
    }
  }

  lemma {:induction false} FillHole<K, V>(less: (K, K) -> bool, t: Shape<K, V>, k: K, v: V, end: Node?<K, V>,
                                          s: Shape<K, V>)
    requires Apart(t) && Holed(less, t, k, end) && s == LeafFor(less, t, k)
    requires s.Leaf? ==> s.node.values == Revalued(less, s, k, v).values
    ensures Stored(Revalued(less, t, k, v), end) && First(Revalued(less, t, k, v)) == First(t)
  {
    if t.Inner? {
      var i := UpperBound(less, t.keys, k);
      ChildrenApart(t, i);
      FillHole(less, t.children[i], k, v, Start(t.children[i + 1..], end), s);
      StoredWithChild(t, i, Revalued(less, t.children[i], k, v), end);
    }
  }

  lemma {:induction false} RevaluedKeeps<K(!new), V>(o: Config<K>, t: Shape<K, V>, lo: Bound<K>, hi: Bound<K>, h: nat,
                                                     min: int, k: K, v: V)
    requires Good(o) && Apart(t) && Ordered(o, t, lo, hi) && Balanced(o.order, t, h, min)
    ensures var t' := Revalued(o.less, t, k, v);
            && t'.node == t.node && Ordered(o, t', lo, hi) && Balanced(o.order, t', h, min) && Apart(t')
            && Nodes(t') <= Nodes(t)
  {
    hide Fits, LowerBound, UpperBound;
    if t.Inner? {
      var i := UpperBound(o.less, t.keys, k);
      ChildrenApart(t, i);
      RevaluedKeeps(o, t.children[i], Lo(t.keys, i, lo), Hi(t.keys, i, hi), h - 1, MinKeys(o.order), k, v);
      ReplaceChildKeeps(o, t, lo, hi, h, min, i, Revalued(o.less, t.children[i], k, v));
      ApartWithChild(t, i, Revalued(o.less, t.children[i], k, v), {});
    }
  }

  lemma LeafRevalued<K(!new), V>(o: Config<K>, t: Shape<K, V>, lo: Bound<K>, hi: Bound<K>, k: K, v: V, pos: nat)
    requires Good(o) && t.Leaf? && Ordered(o, t, lo, hi) && |t.values| == |t.keys| && HasKey(Entries(t), k)
    requires pos == LowerBound(o.less, t.keys, k)
    ensures pos < |t.keys| && t.keys[pos] == k && Entries(Revalued(o.less, t, k, v)) == Entries(t)[pos := (k, v)]
  {
    LowerBoundFinds(o, t, lo, hi, k, pos);
  }

  lemma ChildRevalued<K, V>(t: Shape<K, V>, i: nat, c: Shape<K, V>, p: nat, pos: nat, x: (K, V))
    requires t.Inner? && i < |t.children| && p < |Entries(t.children[i])| &&
             Entries(c) == Entries(t.children[i])[p := x]
    requires pos == |Cat(t.children[..i])| + p
    ensures pos < |Entries(t)| && Entries(t)[pos] == Entries(t.children[i])[p]
    ensures Entries(WithChild(t, i, c)) == Entries(t)[pos := x]
  {
    CatAround(t.children, i);
    CatAround(WithChild(t, i, c).children, i);
  }

  /** Exactly one pair changes, and only in its value. */
  lemma {:induction false} RevaluedEntries<K(!new), V>(o: Config<K>, t: Shape<K, V>, lo: Bound<K>, hi: Bound<K>,
                                                       h: nat, min: int,
                                                       k: K, v: V) returns (pos: nat)
    requires Good(o) && Ordered(o, t, lo, hi) && Balanced(o.order, t, h, min) && HasKey(Entries(t), k)
    ensures pos < |Entries(t)| && Entries(t)[pos].0 == k &&
            Entries(Revalued(o.less, t, k, v)) == Entries(t)[pos := (k, v)]
  {
    if t.Leaf? {
      pos := LowerBound(o.less, t.keys, k);
      LeafRevalued(o, t, lo, hi, k, v, pos);
    } else {
      var i := UpperBound(o.less, t.keys, k);
      KeyDescends(o, t, lo, hi, h, min, k);
      var p := RevaluedEntries(o, t.children[i], Lo(t.keys, i, lo), Hi(t.keys, i, hi), h - 1, MinKeys(o.order), k, v);
      pos := |Cat(t.children[..i])| + p;
      ChildRevalued(t, i, Revalued(o.less, t.children[i], k, v), p, pos, (k, v));
    }
  }
}
