/** The single-level steps of an insertion and what each does to order, balance and entries. */
module InsertSteps {
  import opened Ordering
  import opened TreeShape
  import opened TreeFacts

  function InsertAt<T>(s: seq<T>, i: nat, x: T): seq<T>
    requires i <= |s|
  {
    s[..i] + [x] + s[i..]
  }

  function LeafWith<N, K, V>(t: Tree<N, K, V>, i: nat, k: K, v: V): Tree<N, K, V>
    requires t.Leaf? && i <= |t.keys| == |t.values|
  {
    t.(keys := InsertAt(t.keys, i, k), values := InsertAt(t.values, i, v))
  }

  function WithChild<N, K, V>(t: Tree<N, K, V>, i: nat, c: Tree<N, K, V>): Tree<N, K, V>
    requires t.Inner? && i < |t.children|
  {
    t.(children := t.children[i := c])
  }

  /** Child `i` gives way to `c1` and `c2` around the new separator. */
  function WithSplitChild<N, K, V>(t: Tree<N, K, V>, i: nat, c1: Tree<N, K, V>, sep: K,
                                   c2: Tree<N, K, V>): Tree<N, K, V>
    requires t.Inner? && i <= |t.keys| && |t.children| == |t.keys| + 1
  {
    t.(keys := InsertAt(t.keys, i, sep), children := t.children[..i] + [c1, c2] + t.children[i + 1..])
  }

  function LeftHalf<N, K, V>(t: Tree<N, K, V>): Tree<N, K, V>
    requires if t.Leaf? then |t.values| == |t.keys| else |t.children| == |t.keys| + 1
    requires |t.keys| > 0
  {
    var mid := |t.keys| / 2;
    if t.Leaf? then t.(keys := t.keys[..mid], values := t.values[..mid])
    else t.(keys := t.keys[..mid], children := t.children[..mid + 1])
  }

  function RightHalf<N, K, V>(t: Tree<N, K, V>, node: N): Tree<N, K, V>
    requires if t.Leaf? then |t.values| == |t.keys| else |t.children| == |t.keys| + 1
    requires |t.keys| > 0
  {
    var mid := |t.keys| / 2;
    if t.Leaf? then Leaf(node, t.keys[mid..], t.values[mid..])
    else Inner(node, t.keys[mid + 1..], t.children[mid + 1..])
  }

  // ---- one node's keys ----------------------------------------------------------------

  ghost predicate FitsBetween<K>(o: Config<K>, keys: seq<K>, i: nat, k: K)
    requires i <= |keys|
  {
    && (forall j :: 0 <= j < i ==> !o.less(k, keys[j]) && (!o.multi ==> o.less(keys[j], k)))
    && (forall j :: i <= j < |keys| ==> !o.less(keys[j], k) && (!o.multi ==> o.less(k, keys[j])))
  }

  lemma FitsInsert<K(!new)>(o: Config<K>, keys: seq<K>, lo: Bound<K>, hi: Bound<K>, i: nat, k: K)
    requires Good(o) && Fits(o, keys, lo, hi) && i <= |keys| && FitsBetween(o, keys, i, k)
    requires NotBelow(o, lo, k) && Below(o, k, hi)
    ensures Fits(o, InsertAt(keys, i, k), lo, hi)
  {
    var s := InsertAt(keys, i, k);
    forall a, b | 0 <= a < b < |s|
      ensures !o.less(s[b], s[a]) && (!o.multi ==> o.less(s[a], s[b]))
    {
      assert a < i ==> s[a] == keys[a];
      assert a > i ==> s[a] == keys[a - 1];
      assert b < i ==> s[b] == keys[b];
      assert b > i ==> s[b] == keys[b - 1];
    }
  }

  /** The middle key of an overfull node lies strictly below `hi`, and both halves fit around it. */
  lemma FitsSplit<K(!new)>(o: Config<K>, keys: seq<K>, lo: Bound<K>, hi: Bound<K>)
    requires Good(o) && Fits(o, keys, lo, hi) && |keys| == o.order + 1
    ensures var mid := |keys| / 2;
            && Below(o, keys[mid], hi) && NotBelow(o, lo, keys[mid])
            && Fits(o, keys[..mid], lo, At(keys[mid]))
            && Fits(o, keys[mid..], At(keys[mid]), hi)
            && Fits(o, keys[mid + 1..], At(keys[mid]), hi)
  {
    hide Ordered;
    var mid := |keys| / 2;
    assert |keys| - 1 - Copies(o) >= mid;
    assert !o.multi ==> forall j :: 0 <= j < mid ==> o.less(keys[j], keys[mid]);
  }

  // ---- whole nodes --------------------------------------------------------------------

  /** Two trees that can stand in for one with separators `lo` and `hi`. */
  ghost predicate OrderedPair<N, K, V>(o: Config<K>, t1: Tree<N, K, V>, sep: K, t2: Tree<N, K, V>, lo: Bound<K>,
                                       hi: Bound<K>) {
    && Ordered(o, t1, lo, At(sep)) && Ordered(o, t2, At(sep), hi)
    && NotBelow(o, lo, sep) && (!o.multi ==> Above(o, lo, sep)) && Below(o, sep, hi)
  }

  ghost predicate FreshKey<N, K, V>(o: Config<K>, t: Tree<N, K, V>, k: K) {
    o.multi || !HasKey(Entries(t), k)
  }

  lemma LeafInsertKeeps<N, K(!new), V>(o: Config<K>, t: Tree<N, K, V>, lo: Bound<K>, hi: Bound<K>, k: K, v: V)
    requires Good(o) && t.Leaf? && Ordered(o, t, lo, hi) && |t.values| == |t.keys|
    requires NotBelow(o, lo, k) && Below(o, k, hi) && FreshKey(o, t, k)
    ensures var i := LowerBound(o.less, t.keys, k);
            var t' := LeafWith(t, i, k, v);
            Ordered(o, t', lo, hi) && Entries(t') == InsertAt(Entries(t), i, (k, v))
  {
    hide KeysAscending, LowerBound, Above;
    var i := LowerBound(o.less, t.keys, k);
    if !o.multi {
      forall j | i <= j < |t.keys| ensures o.less(k, t.keys[j]) {
        assert Entries(t)[j].0 == t.keys[j];
      }
    }
    FitsInsert(o, t.keys, lo, hi, i, k);
  }

  lemma {:induction false} LeafSplitKeeps<N, K(!new), V>(o: Config<K>, t: Tree<N, K, V>, lo: Bound<K>, hi: Bound<K>,
                                                         node: N)
    requires Good(o) && t.Leaf? && Ordered(o, t, lo, hi) && |t.values| == |t.keys| == o.order + 1
    ensures var t1, t2 := LeftHalf(t), RightHalf(t, node);
            && OrderedPair(o, t1, t2.keys[0], t2, lo, hi) && Entries(t1) + Entries(t2) == Entries(t)
            && Balanced(o.order, t1, 0, MinKeys(o.order)) && Balanced(o.order, t2, 0, MinKeys(o.order))
  {
    FitsSplit(o, t.keys, lo, hi);
  }

  lemma ReplaceChildKeeps<N, K(!new), V>(o: Config<K>, t: Tree<N, K, V>, lo: Bound<K>, hi: Bound<K>, h: nat, min: int,
                                         i: nat, c: Tree<N, K, V>)
    requires Good(o) && t.Inner? && Ordered(o, t, lo, hi) && Balanced(o.order, t, h, min) && i <= |t.keys|
    requires Ordered(o, c, Lo(t.keys, i, lo), Hi(t.keys, i, hi)) && Balanced(o.order, c, h - 1, MinKeys(o.order))
    ensures var t' := WithChild(t, i, c);
            Ordered(o, t', lo, hi) && Balanced(o.order, t', h, min)
  {
  }

  /** The child that receives `k` is found by upper_bound, and so is the slot for its new sibling. */
  lemma SplitSlot<N, K(!new), V>(o: Config<K>, t: Tree<N, K, V>, lo: Bound<K>, hi: Bound<K>, i: nat, sep: K)
    requires Good(o) && t.Inner? && Ordered(o, t, lo, hi) && i <= |t.keys|
    requires var l := Lo(t.keys, i, lo); NotBelow(o, l, sep) && (!o.multi ==> Above(o, l, sep)) && Below(o, sep, Hi(t.keys, i, hi))
    ensures UpperBound(o.less, t.keys, sep) == i && FitsBetween(o, t.keys, i, sep)
    ensures NotBelow(o, lo, sep) && (!o.multi ==> Above(o, lo, sep)) && Below(o, sep, hi)
  {
  }

  lemma SplitChildAt<N, K, V>(o: Config<K>, t: Tree<N, K, V>, lo: Bound<K>, hi: Bound<K>, i: nat,
                              c1: Tree<N, K, V>, sep: K, c2: Tree<N, K, V>, j: nat)
    requires t.Inner? && Ordered(o, t, lo, hi) && i <= |t.keys| && j <= |t.keys| + 1
    requires Ordered(o, c1, Lo(t.keys, i, lo), At(sep)) && Ordered(o, c2, At(sep), Hi(t.keys, i, hi))
    ensures var t' := WithSplitChild(t, i, c1, sep, c2);
            Ordered(o, t'.children[j], Lo(t'.keys, j, lo), Hi(t'.keys, j, hi))
  {
    hide Fits;
    var t' := WithSplitChild(t, i, c1, sep, c2);
    if j < i {
      assert t'.children[j] == t.children[j] && Hi(t'.keys, j, hi) == Hi(t.keys, j, hi);
    } else if j > i + 1 {
      assert t'.children[j] == t.children[j - 1] && Lo(t'.keys, j, lo) == Lo(t.keys, j - 1, lo);
    }
  }

  lemma SplitChildKeeps<N, K(!new), V>(o: Config<K>, t: Tree<N, K, V>, lo: Bound<K>, hi: Bound<K>, i: nat,
                                       c1: Tree<N, K, V>, sep: K, c2: Tree<N, K, V>)
    requires Good(o) && t.Inner? && Ordered(o, t, lo, hi) && i <= |t.keys|
    requires OrderedPair(o, c1, sep, c2, Lo(t.keys, i, lo), Hi(t.keys, i, hi))
    ensures UpperBound(o.less, t.keys, sep) == i
    ensures Ordered(o, WithSplitChild(t, i, c1, sep, c2), lo, hi)
  {
    hide StrictTotal, Fits;
    SplitSlot(o, t, lo, hi, i, sep);
    FitsInsert(o, t.keys, lo, hi, i, sep);
    var t' := WithSplitChild(t, i, c1, sep, c2);
    forall j | 0 <= j <= |t'.keys|
      ensures Ordered(o, t'.children[j], Lo(t'.keys, j, lo), Hi(t'.keys, j, hi))
    {
      SplitChildAt(o, t, lo, hi, i, c1, sep, c2, j);
    }
  }

  lemma SplitChildEntries<N, K, V>(t: Tree<N, K, V>, i: nat, c1: Tree<N, K, V>, sep: K, c2: Tree<N, K, V>)
    requires t.Inner? && i <= |t.keys| && |t.children| == |t.keys| + 1
    ensures Entries(WithSplitChild(t, i, c1, sep, c2))
         == Cat(t.children[..i]) + (Entries(c1) + Entries(c2)) + Cat(t.children[i + 1..])
  {
    var a, b := t.children[..i], t.children[i + 1..];
    assert WithSplitChild(t, i, c1, sep, c2).children == a + ([c1] + ([c2] + b));
    CatAppend(a, [c1] + ([c2] + b));
    CatAppend([c1], [c2] + b);
    CatAppend([c2], b);
    CatOne(c1);
    CatOne(c2);
  }

  lemma SplitChildrenBalanced<N, K, V>(order: nat, t: Tree<N, K, V>, h: nat, min: int, i: nat, c1: Tree<N, K, V>,
                                       sep: K, c2: Tree<N, K, V>)
    requires t.Inner? && Balanced(order, t, h, min) && i <= |t.keys|
    requires Balanced(order, c1, h - 1, MinKeys(order)) && Balanced(order, c2, h - 1, MinKeys(order))
    ensures var cs := WithSplitChild(t, i, c1, sep, c2).children;
            forall j :: 0 <= j < |cs| ==> Balanced(order, cs[j], h - 1, MinKeys(order))
  {
  }

  lemma InnerSplitKeeps<N, K(!new), V>(o: Config<K>, t: Tree<N, K, V>, lo: Bound<K>, hi: Bound<K>, node: N)
    requires Good(o) && t.Inner? && Ordered(o, t, lo, hi) && |t.keys| == o.order + 1
    ensures var t1, t2 := LeftHalf(t), RightHalf(t, node);
            OrderedPair(o, t1, t.keys[|t.keys| / 2], t2, lo, hi)
  {
    FitsSplit(o, t.keys, lo, hi);
    LeftHalfOrdered(o, t, lo, hi);
    RightHalfOrdered(o, t, lo, hi, node);
  }

  lemma InnerSplitEntries<N, K, V>(t: Tree<N, K, V>, node: N)
    requires t.Inner? && |t.keys| > 0 && |t.children| == |t.keys| + 1
    ensures Entries(LeftHalf(t)) + Entries(RightHalf(t, node)) == Entries(t)
  {
    var mid := |t.keys| / 2;
    assert t.children == t.children[..mid + 1] + t.children[mid + 1..];
    CatAppend(t.children[..mid + 1], t.children[mid + 1..]);
  }

  lemma LeftHalfOrdered<N, K(!new), V>(o: Config<K>, t: Tree<N, K, V>, lo: Bound<K>, hi: Bound<K>)
    requires t.Inner? && Ordered(o, t, lo, hi) && |t.keys| > 0
    requires Fits(o, t.keys[..|t.keys| / 2], lo, At(t.keys[|t.keys| / 2]))
    ensures Ordered(o, LeftHalf(t), lo, At(t.keys[|t.keys| / 2]))
  {
    var t1, sep := LeftHalf(t), t.keys[|t.keys| / 2];
    forall j | 0 <= j <= |t1.keys|
      ensures Ordered(o, t1.children[j], Lo(t1.keys, j, lo), Hi(t1.keys, j, At(sep)))
    {
      assert t1.children[j] == t.children[j] && Hi(t1.keys, j, At(sep)) == Hi(t.keys, j, hi);
    }
  }

  ghost predicate OrderedAt<N, K, V>(o: Config<K>, t: Tree<N, K, V>, lo: Bound<K>, hi: Bound<K>, j: nat)
    requires t.Inner? && |t.children| == |t.keys| + 1 && j <= |t.keys|
  {
    Ordered(o, t.children[j], Lo(t.keys, j, lo), Hi(t.keys, j, hi))
  }

  lemma {:induction false} OrderedEach<N, K, V>(o: Config<K>, t: Tree<N, K, V>, lo: Bound<K>, hi: Bound<K>)
    requires t.Inner? && |t.children| == |t.keys| + 1 && Fits(o, t.keys, lo, hi)
    requires !o.multi ==> forall i :: 0 <= i < |t.keys| ==> Above(o, lo, t.keys[i])
    ensures Ordered(o, t, lo, hi) <==> forall j :: 0 <= j <= |t.keys| ==> OrderedAt(o, t, lo, hi, j)
  {
    hide Fits, Above;
    if forall j :: 0 <= j <= |t.keys| ==> OrderedAt(o, t, lo, hi, j) {
      forall i | 0 <= i <= |t.keys|
        ensures Ordered(o, t.children[i], Lo(t.keys, i, lo), Hi(t.keys, i, hi))
      {
        assert OrderedAt(o, t, lo, hi, i);
      }
    }
  }

  lemma RightChild<N, K, V>(o: Config<K>, t: Tree<N, K, V>, lo: Bound<K>, hi: Bound<K>, node: N, j: nat)
    requires t.Inner? && |t.children| == |t.keys| + 1 && |t.keys| / 2 + 1 + j <= |t.keys|
    ensures OrderedAt(o, RightHalf(t, node), At(t.keys[|t.keys| / 2]), hi, j)
       <==> OrderedAt(o, t, lo, hi, j + |t.keys| / 2 + 1)
  {
    hide Ordered;
  }

  lemma RightHalfOrdered<N, K(!new), V>(o: Config<K>, t: Tree<N, K, V>, lo: Bound<K>, hi: Bound<K>, node: N)
    requires t.Inner? && Ordered(o, t, lo, hi) && |t.keys| > 0
    requires Fits(o, t.keys[|t.keys| / 2 + 1..], At(t.keys[|t.keys| / 2]), hi)
    ensures Ordered(o, RightHalf(t, node), At(t.keys[|t.keys| / 2]), hi)
  {
    OrderedEach(o, t, lo, hi);
    assert !o.multi ==> Ascending(o.less, t.keys);
    hide StrictTotal, Ordered, OrderedAt, Fits;
    var mid := |t.keys| / 2;
    var t2, sep := RightHalf(t, node), t.keys[mid];
    OrderedEach(o, t2, At(sep), hi);
    forall j | 0 <= j <= |t2.keys|
      ensures OrderedAt(o, t2, At(sep), hi, j)
    {
      RightChild(o, t, lo, hi, node, j);
    }
  }

  /** With an even order both halves of an overfull inner node keep MinKeys keys; with an odd order the right one loses one. */
  lemma InnerSplitBalanced<N, K, V>(order: nat, t: Tree<N, K, V>, h: nat, node: N)
    requires t.Inner? && |t.keys| == order + 1 && |t.children| == order + 2 && h > 0
    requires forall i :: 0 <= i < |t.children| ==> Balanced(order, t.children[i], h - 1, MinKeys(order))
    ensures Balanced(order, LeftHalf(t), h, MinKeys(order))
    ensures Balanced(order, RightHalf(t, node), h, MinKeys(order)) <==> order % 2 == 0
  {
  }
}
