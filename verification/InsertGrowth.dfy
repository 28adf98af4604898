/**
 How an insertion that reaches child `i` of a node changes that node, split or no split:
 the facts about one level that the recursive insertion composes.
 */
module InsertGrowth {
  import opened Ordering
  import opened TreeShape
  import opened TreeFacts
  import opened InsertSteps
  import opened Separators
  import opened TreeHeap

  /** What an insertion leaves in place of a subtree: one tree, or two around a promoted key. */
  datatype Growth<K, V> = One(t: Shape<K, V>) | Two(left: Shape<K, V>, sep: K, right: Shape<K, V>)
  {
    ghost function Flat(): seq<(K, V)> {
      if One? then Entries(t) else Entries(left) + Entries(right)
    }

    ghost function Used(): set<Node<K, V>> {
      if One? then Nodes(t) else Nodes(left) + Nodes(right)
    }

    /** What InsertInternal hands to its caller. */
    function Promoted(): Option<(K, Node<K, V>)> {
      if One? then None else Some((sep, right.node))
    }

    function Top(): Node<K, V> {
      if One? then t.node else left.node
    }
  }

  ghost predicate Grown<K(!new), V>(o: Config<K>, g: Growth<K, V>, lo: Bound<K>, hi: Bound<K>, h: nat, min: int) {
    if g.One? then Ordered(o, g.t, lo, hi) && Balanced(o.order, g.t, h, min) && Apart(g.t)
    else
      && OrderedPair(o, g.left, g.sep, g.right, lo, hi)
      && Balanced(o.order, g.left, h, MinKeys(o.order)) && Balanced(o.order, g.right, h, MinKeys(o.order))
      && Apart(g.left) && Apart(g.right) && Nodes(g.left) !! Nodes(g.right)
  }

  /** `k` may be inserted below `t`. */
  ghost predicate Insertable<K(!new), V>(o: Config<K>, t: Shape<K, V>, lo: Bound<K>, hi: Bound<K>, h: nat, min: int,
                                         k: K) {
    && Good(o) && Apart(t) && Ordered(o, t, lo, hi) && Balanced(o.order, t, h, min)
    && NotBelow(o, lo, k) && Below(o, k, hi) && FreshKey(o, t, k)
  }

  ghost predicate GapsGrown<K, V>(o: Config<K>, g: Growth<K, V>, lo: Bound<K>, hi: Bound<K>) {
    if g.One? then Gaps(o, g.t, lo, hi) else Gaps(o, g.left, lo, At(g.sep)) && Gaps(o, g.right, At(g.sep), hi)
  }

  /** Separators keep rising strictly, except when the leaf for `k` promotes its own lower separator. */
  ghost predicate RisesExactly<K, V>(o: Config<K>, t: Shape<K, V>, g: Growth<K, V>, lo: Bound<K>, hi: Bound<K>, k: K) {
    GapsGrown(o, g, lo, hi) <==> Gaps(o, t, lo, hi) && !Repeats(o, t, lo, k)
  }

  /** `g` is `t` with the pair `(k, v)` put in at position `pos`. */
  ghost predicate Inserted<K(!new), V>(o: Config<K>, t: Shape<K, V>, g: Growth<K, V>, lo: Bound<K>, hi: Bound<K>,
                                       h: nat, min: int,
                                       k: K, v: V, pos: nat) {
    && Grown(o, g, lo, hi, h, min) && pos <= |Entries(t)| && g.Flat() == InsertAt(Entries(t), pos, (k, v))
    && RisesExactly(o, t, g, lo, hi, k)
  }

  ghost predicate GrownInHeap<K, V>(g: Growth<K, V>, first: Node<K, V>, end: Node?<K, V>)
    reads g.Used()
  {
    if g.One? then Stored(g.t, end) && First(g.t) == first
    else Stored(g.left, First(g.right)) && Stored(g.right, end) && First(g.left) == first
  }

  lemma LeafGrows<K(!new), V>(o: Config<K>, t: Shape<K, V>, lo: Bound<K>, hi: Bound<K>, min: int, k: K, v: V, i: nat)
    requires t.Leaf? && Insertable(o, t, lo, hi, 0, min, k) && |t.keys| < o.order && i == LowerBound(o.less, t.keys, k)
    ensures Inserted(o, t, One(LeafWith(t, i, k, v)), lo, hi, 0, min, k, v, i)
  {
    LeafInsertKeeps(o, t, lo, hi, k, v);
  }

  ghost function Halves<K, V>(t: Shape<K, V>, node: Node<K, V>): Growth<K, V>
    requires if t.Leaf? then |t.values| == |t.keys| else |t.children| == |t.keys| + 1
    requires |t.keys| > 0
  {
    Two(LeftHalf(t), t.keys[|t.keys| / 2], RightHalf(t, node))
  }

  lemma LeafOverflows<K(!new), V>(o: Config<K>, t: Shape<K, V>, lo: Bound<K>, hi: Bound<K>, min: int, k: K, v: V,
                                  i: nat,
                                  node: Node<K, V>)
    requires t.Leaf? && Insertable(o, t, lo, hi, 0, min, k) && |t.keys| == o.order && i == LowerBound(o.less, t.keys, k)
    requires node != t.node
    ensures Inserted(o, t, Halves(LeafWith(t, i, k, v), node), lo, hi, 0, min, k, v, i)
  {
    hide StrictTotal, Fits;
    var t' := LeafWith(t, i, k, v);
    LeafInsertKeeps(o, t, lo, hi, k, v);
    LeafSplitKeeps(o, t', lo, hi, node);
    assert |t'.keys| / 2 == o.order / 2;
    LeafGaps(o, t, lo, hi, t'.keys[o.order / 2]);
  }

  /** Inserting among one child's entries inserts among all of them. */
  lemma InsertBelow<N, K, V>(t: Tree<N, K, V>, i: nat, p: nat, x: (K, V))
    requires t.Inner? && i < |t.children| && p <= |Entries(t.children[i])|
    ensures var a, b := Cat(t.children[..i]), Cat(t.children[i + 1..]);
            && |a| + p <= |Entries(t)|
            && a + InsertAt(Entries(t.children[i]), p, x) + b == InsertAt(Entries(t), |a| + p, x)
  {
    CatAround(t.children, i);
  }

  lemma InsertDescends<K(!new), V>(o: Config<K>, t: Shape<K, V>, lo: Bound<K>, hi: Bound<K>, h: nat, min: int, k: K,
                                   i: nat)
    requires t.Inner? && Insertable(o, t, lo, hi, h, min, k) && i == UpperBound(o.less, t.keys, k)
    ensures h > 0 && |t.children| == |t.keys| + 1
    ensures Insertable(o, t.children[i], Lo(t.keys, i, lo), Hi(t.keys, i, hi), h - 1, MinKeys(o.order), k)
  {
    KeyDescends(o, t, lo, hi, h, min, k);
    ChildrenApart(t, i);
  }

  lemma ChildAbsorbsEntries<K, V>(t: Shape<K, V>, i: nat, c: Shape<K, V>, p: nat, pos: nat, x: (K, V))
    requires t.Inner? && i < |t.children| && p <= |Entries(t.children[i])| &&
             Entries(c) == InsertAt(Entries(t.children[i]), p, x)
    requires pos == |Cat(t.children[..i])| + p
    ensures pos <= |Entries(t)| && Entries(WithChild(t, i, c)) == InsertAt(Entries(t), pos, x)
  {
    CatAround(WithChild(t, i, c).children, i);
    InsertBelow(t, i, p, x);
  }

  /** Child `i` of `t` has become `g`. */
  ghost predicate ChildInserted<K(!new), V>(o: Config<K>, t: Shape<K, V>, lo: Bound<K>, hi: Bound<K>, h: nat,
                                            min: int, k: K, v: V,
                                            i: nat, g: Growth<K, V>, p: nat, pos: nat, extra: set<Node<K, V>>) {
    && t.Inner? && Insertable(o, t, lo, hi, h, min, k) && i == UpperBound(o.less, t.keys, k) && h > 0
    && Inserted(o, t.children[i], g, Lo(t.keys, i, lo), Hi(t.keys, i, hi), h - 1, MinKeys(o.order), k, v, p)
    && pos == |Cat(t.children[..i])| + p
    && g.Used() <= Nodes(t.children[i]) + extra && extra !! Nodes(t)
  }

  /** The heap holds `t` except that `g` stands where child `i` was; `t.node` still points to the old child. */
  ghost predicate ChildGrownInHeap<K, V>(t: Shape<K, V>, i: nat, g: Growth<K, V>, end: Node?<K, V>)
    requires t.Inner? && i < |t.children|
    reads t.node, g.Used(), NodesOf(t.children[..i]), NodesOf(t.children[i + 1..])
  {
    && Top(t) && g.Top() == t.children[i].node
    && GrownInHeap(g, First(t.children[i]), Start(t.children[i + 1..], end))
    && AllStored(t.children[..i], First(t.children[i])) && AllStored(t.children[i + 1..], end)
  }

  /** The child took the new pair without splitting. */
  lemma {:induction false} ChildAbsorbs<K(!new), V>(o: Config<K>, t: Shape<K, V>, lo: Bound<K>, hi: Bound<K>, h: nat,
                                                    min: int, k: K, v: V,
                                 i: nat, c: Shape<K, V>, p: nat, pos: nat, extra: set<Node<K, V>>)
    requires ChildInserted(o, t, lo, hi, h, min, k, v, i, One(c), p, pos, extra)
    ensures Inserted(o, t, One(WithChild(t, i, c)), lo, hi, h, min, k, v, pos)
    ensures Nodes(WithChild(t, i, c)) <= Nodes(t) + extra
  {
    assert i < |t.children|;
    hide StrictTotal, Ordered, Balanced, Apart, Gaps, Repeats;
    ReplaceChildKeeps(o, t, lo, hi, h, min, i, c);
    ApartWithChild(t, i, c, extra);
    ChildAbsorbsGaps(o, t, lo, hi, k, i, c);
    ChildAbsorbsEntries(t, i, c, p, pos, (k, v));
  }

  lemma ChildAbsorbsGaps<K, V>(o: Config<K>, t: Shape<K, V>, lo: Bound<K>, hi: Bound<K>, k: K, i: nat, c: Shape<K, V>)
    requires t.Inner? && Ordered(o, t, lo, hi) && i == UpperBound(o.less, t.keys, k)
    requires RisesExactly(o, t.children[i], One(c), Lo(t.keys, i, lo), Hi(t.keys, i, hi), k)
    ensures RisesExactly(o, t, One(WithChild(t, i, c)), lo, hi, k)
  {
    assert |t.children| == |t.keys| + 1;
    hide Ordered;
    ChildGaps(o, t, lo, hi, i, c);
  }

  /** The child split; its parent takes the promoted key. */
  lemma ChildSplits<K(!new), V>(o: Config<K>, t: Shape<K, V>, lo: Bound<K>, hi: Bound<K>, h: nat, min: int, k: K, v: V,
                                i: nat, g: Growth<K, V>, p: nat, pos: nat, extra: set<Node<K, V>>)
    requires ChildInserted(o, t, lo, hi, h, min, k, v, i, g, p, pos, extra) && g.Two?
    ensures i == UpperBound(o.less, t.keys, g.sep)
    ensures var t' := WithSplitChild(t, i, g.left, g.sep, g.right);
            Ordered(o, t', lo, hi) && Apart(t') && Nodes(t') <= Nodes(t) + extra
  {
    SplitChildKeeps(o, t, lo, hi, i, g.left, g.sep, g.right);
    ApartSplitChild(t, i, g.left, g.sep, g.right, extra);
  }

  lemma ChildSplitGaps<K, V>(o: Config<K>, t: Shape<K, V>, lo: Bound<K>, hi: Bound<K>, k: K, i: nat, g: Growth<K, V>)
    requires t.Inner? && |t.children| == |t.keys| + 1 && i == UpperBound(o.less, t.keys, k) && g.Two?
    requires RisesExactly(o, t.children[i], g, Lo(t.keys, i, lo), Hi(t.keys, i, hi), k)
    ensures RisesExactly(o, t, One(WithSplitChild(t, i, g.left, g.sep, g.right)), lo, hi, k)
  {
    var t' := WithSplitChild(t, i, g.left, g.sep, g.right);
    ChildGaps(o, t, lo, hi, i, t.children[i]);
    if Gaps(o, t', lo, hi) {
      SplitChildGapsDown(o, t, lo, hi, i, g.left, g.sep, g.right);
    }
    if Gaps(o, t, lo, hi) && !Repeats(o, t, lo, k) {
      SplitChildGapsUp(o, t, lo, hi, i, g.left, g.sep, g.right);
    }
  }

  lemma ChildSplitEntries<K, V>(t: Shape<K, V>, i: nat, g: Growth<K, V>, p: nat, pos: nat, x: (K, V))
    requires t.Inner? && i <= |t.keys| && |t.children| == |t.keys| + 1 && g.Two?
    requires p <= |Entries(t.children[i])| && g.Flat() == InsertAt(Entries(t.children[i]), p, x)
    requires pos == |Cat(t.children[..i])| + p
    ensures pos <= |Entries(t)| && Entries(WithSplitChild(t, i, g.left, g.sep, g.right)) == InsertAt(Entries(t), pos, x)
  {
    SplitChildEntries(t, i, g.left, g.sep, g.right);
    InsertBelow(t, i, p, x);
  }

  /** After the split either the parent has room ... */
  lemma ParentHasRoom<K(!new), V>(o: Config<K>, t: Shape<K, V>, lo: Bound<K>, hi: Bound<K>, h: nat, min: int, k: K,
                                  v: V,
                                  i: nat, g: Growth<K, V>, p: nat, pos: nat, extra: set<Node<K, V>>)
    requires ChildInserted(o, t, lo, hi, h, min, k, v, i, g, p, pos, extra) && g.Two? && |t.keys| < o.order
    ensures Inserted(o, t, One(WithSplitChild(t, i, g.left, g.sep, g.right)), lo, hi, h, min, k, v, pos)
  {
    hide StrictTotal, Ordered, Apart, Gaps, Repeats;
    ChildSplits(o, t, lo, hi, h, min, k, v, i, g, p, pos, extra);
    ChildSplitEntries(t, i, g, p, pos, (k, v));
    ChildSplitGaps(o, t, lo, hi, k, i, g);
    SplitChildrenBalanced(o.order, t, h, min, i, g.left, g.sep, g.right);
  }

  /** ... or it splits as well. */
  lemma ParentSplits<K(!new), V>(o: Config<K>, t: Shape<K, V>, lo: Bound<K>, hi: Bound<K>, h: nat, min: int, k: K, v: V,
                                 i: nat, g: Growth<K, V>, p: nat, pos: nat, extra: set<Node<K, V>>, node: Node<K, V>)
    requires ChildInserted(o, t, lo, hi, h, min, k, v, i, g, p, pos, extra) && g.Two? && |t.keys| == o.order
    requires node !in Nodes(t) + extra
    ensures var halves := Halves(WithSplitChild(t, i, g.left, g.sep, g.right), node);
            && Inserted(o, t, halves, lo, hi, h, min, k, v, pos)
            && halves.Used() <= Nodes(t) + extra + {node}
  {
    hide StrictTotal, Ordered, Apart, Gaps, Repeats;
    var t' := WithSplitChild(t, i, g.left, g.sep, g.right);
    ChildSplits(o, t, lo, hi, h, min, k, v, i, g, p, pos, extra);
    ChildSplitEntries(t, i, g, p, pos, (k, v));
    SplitChildrenBalanced(o.order, t, h, min, i, g.left, g.sep, g.right);
    OverfullHalves(o, t', lo, hi, h, min, node);
    ChildSplitGaps(o, t, lo, hi, k, i, g);
    HalvesGaps(o, t', lo, hi, node);
  }

  lemma OverfullHalves<K(!new), V>(o: Config<K>, t: Shape<K, V>, lo: Bound<K>, hi: Bound<K>, h: nat, min: int,
                                   node: Node<K, V>)
    requires Good(o) && t.Inner? && Ordered(o, t, lo, hi) && Apart(t) && |t.keys| == o.order + 1 && h > 0 &&
             node !in Nodes(t)
    requires forall i :: 0 <= i < |t.children| ==> Balanced(o.order, t.children[i], h - 1, MinKeys(o.order))
    ensures Grown(o, Halves(t, node), lo, hi, h, min) && Halves(t, node).Flat() == Entries(t)
    ensures Halves(t, node).Used() <= Nodes(t) + {node}
  {
    InnerSplitKeeps(o, t, lo, hi, node);
    InnerSplitEntries(t, node);
    InnerSplitBalanced(o.order, t, h, node);
    ApartHalves(t, node);
  }

  lemma SplitChildPointers<K, V>(t: Shape<K, V>, i: nat, g: Growth<K, V>)
    requires t.Inner? && Top(t) && i <= |t.keys| && |t.children| == |t.keys| + 1 && g.Two? &&
             g.Top() == t.children[i].node
    ensures var ns, cs := InsertAt(t.node.children, i + 1, g.right.node), WithSplitChild(t, i, g.left, g.sep, g.right).children;
            |ns| == |cs| && forall j :: 0 <= j < |cs| ==> ns[j] == cs[j].node
  {
  }

  lemma SplitChildStored<K, V>(t: Shape<K, V>, i: nat, g: Growth<K, V>, end: Node?<K, V>)
    requires t.Inner? && i <= |t.keys| && |t.children| == |t.keys| + 1 && g.Two?
    requires GrownInHeap(g, First(t.children[i]), Start(t.children[i + 1..], end))
    requires AllStored(t.children[..i], First(t.children[i])) && AllStored(t.children[i + 1..], end)
    requires Top(WithSplitChild(t, i, g.left, g.sep, g.right))
    ensures var t' := WithSplitChild(t, i, g.left, g.sep, g.right); Stored(t', end) && First(t') == First(t)
  {
    var m := [g.left, g.right];
    var end' := Start(t.children[i + 1..], end);
    assert m[1..] == [g.right] && m[1..][1..] == [];
    assert AllStored(m[1..], end');
    assert AllStored(m, end');
    StoredRuns(WithSplitChild(t, i, g.left, g.sep, g.right), t.children[..i], m, t.children[i + 1..], end);
  }

  ghost function NewRoot<K, V>(g: Growth<K, V>, node: Node<K, V>): Shape<K, V>
    requires g.Two?
  {
    Inner(node, [g.sep], [g.left, g.right])
  }

  lemma NewRootGaps<K, V>(o: Config<K>, g: Growth<K, V>, node: Node<K, V>)
    requires g.Two?
    ensures Gaps(o, NewRoot(g, node), Open, Open) <==> GapsGrown(o, g, Open, Open)
  {
    var t := NewRoot(g, node);
    GapsEach(o, t, Open, Open);
    assert GapsAt(o, t, Open, Open, 0) == Gaps(o, g.left, Open, At(g.sep));
    assert GapsAt(o, t, Open, Open, 1) == Gaps(o, g.right, At(g.sep), Open);
  }

  lemma NewRootOrdered<K(!new), V>(o: Config<K>, g: Growth<K, V>, h: nat, node: Node<K, V>)
    requires Good(o) && g.Two? && Grown(o, g, Open, Open, h, 0)
    ensures Ordered(o, NewRoot(g, node), Open, Open) && Balanced(o.order, NewRoot(g, node), h + 1, 1)
  {
    hide StrictTotal;
  }

  lemma NewRootSound<K(!new), V>(o: Config<K>, g: Growth<K, V>, h: nat, node: Node<K, V>)
    requires Good(o) && g.Two? && Grown(o, g, Open, Open, h, 0) && node !in g.Used()
    ensures var t := NewRoot(g, node);
            && Ordered(o, t, Open, Open) && Balanced(o.order, t, h + 1, 1) && Apart(t)
            && Entries(t) == g.Flat() && Nodes(t) == {node} + g.Used()
            && (Gaps(o, t, Open, Open) <==> GapsGrown(o, g, Open, Open))
  {
    hide Zip;
    NewRootGaps(o, g, node);
    NewRootOrdered(o, g, h, node);
    hide StrictTotal, Ordered, Balanced, Gaps, GapsGrown;
    var cs := [g.left, g.right];
    assert cs == [g.left] + [g.right];
    CatAppend([g.left], [g.right]);
    AllApartAppend([g.left], [g.right]);
    NodesOfAppend([g.left], [g.right]);
  }

  lemma NewRootStored<K, V>(g: Growth<K, V>, node: Node<K, V>)
    requires g.Two? && GrownInHeap(g, First(g.left), null) && Top(NewRoot(g, node))
    ensures Stored(NewRoot(g, node), null)
  {
    var m := [g.left];
    StoredRuns(NewRoot(g, node), [], m, [g.right], null);
  }
}
