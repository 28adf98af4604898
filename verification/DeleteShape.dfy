/** The tree a deletion leaves, as a function, and the proof that it keeps every invariant. */
module DeleteShape {
  import opened Ordering
  import opened TreeShape
  import opened TreeFacts
  import opened InsertSteps
  import opened DeleteSteps
  import opened TreeHeap
  import opened TreeChain

  // ---- a parent and two neighbouring children -----------------------------------------

  lemma PairAtOrdered<N, K(!new), V>(o: Config<K>, t: Tree<N, K, V>, lo: Bound<K>, hi: Bound<K>, i: nat)
    requires UniqueGood(o) && t.Inner? && Ordered(o, t, lo, hi) && i < |t.keys|
    ensures PairOrdered(o, PairAt(t, i), Lo(t.keys, i, lo), Hi(t.keys, i + 1, hi))
  {
  }

  lemma WithPairAt<N, K, V>(o: Config<K>, t: Tree<N, K, V>, lo: Bound<K>, hi: Bound<K>, i: nat, p: Pair<N, K, V>,
                            j: nat)
    requires t.Inner? && Ordered(o, t, lo, hi) && i < |t.keys| && j <= |t.keys|
    requires PairOrdered(o, p, Lo(t.keys, i, lo), Hi(t.keys, i + 1, hi))
    ensures var t' := WithPair(t, i, p); Ordered(o, t'.children[j], Lo(t'.keys, j, lo), Hi(t'.keys, j, hi))
  {
  }

  lemma FitsReplace<K(!new)>(o: Config<K>, keys: seq<K>, lo: Bound<K>, hi: Bound<K>, i: nat, sep: K)
    requires UniqueGood(o) && Fits(o, keys, lo, hi) && i < |keys| && NotBelow(o, lo, sep)
    requires Above(o, Lo(keys, i, lo), sep) && Below(o, sep, Hi(keys, i + 1, hi))
    ensures Fits(o, keys[i := sep], lo, hi)
  {
  }

  lemma {:induction false} WithPairOrdered<N, K(!new), V>(o: Config<K>, t: Tree<N, K, V>, lo: Bound<K>, hi: Bound<K>,
                                                          i: nat, p: Pair<N, K, V>)
    requires UniqueGood(o) && t.Inner? && Ordered(o, t, lo, hi) && i < |t.keys|
    requires PairOrdered(o, p, Lo(t.keys, i, lo), Hi(t.keys, i + 1, hi))
    ensures Ordered(o, WithPair(t, i, p), lo, hi)
  {
    assert Above(o, lo, p.sep);
    FitsReplace(o, t.keys, lo, hi, i, p.sep);
    var t' := WithPair(t, i, p);
    forall j | 0 <= j <= |t'.keys|
      ensures Ordered(o, t'.children[j], Lo(t'.keys, j, lo), Hi(t'.keys, j, hi))
    {
      WithPairAt(o, t, lo, hi, i, p, j);
    }
  }

  lemma WithMergedAt<N, K, V>(o: Config<K>, t: Tree<N, K, V>, lo: Bound<K>, hi: Bound<K>, i: nat, m: Tree<N, K, V>,
                              j: nat)
    requires t.Inner? && Ordered(o, t, lo, hi) && i < |t.keys| && j < |t.keys|
    requires Ordered(o, m, Lo(t.keys, i, lo), Hi(t.keys, i + 1, hi))
    ensures var t' := WithMerged(t, i, m); Ordered(o, t'.children[j], Lo(t'.keys, j, lo), Hi(t'.keys, j, hi))
  {
    hide Fits;
    var t' := WithMerged(t, i, m);
    if j < i {
      assert t'.children[j] == t.children[j] && Lo(t'.keys, j, lo) == Lo(t.keys, j, lo);
      assert Hi(t'.keys, j, hi) == Hi(t.keys, j, hi);
    } else if j > i {
      assert t'.children[j] == t.children[j + 1] && Lo(t'.keys, j, lo) == Lo(t.keys, j + 1, lo);
      assert Hi(t'.keys, j, hi) == Hi(t.keys, j + 1, hi);
    } else {
      assert t'.children[i] == m && Lo(t'.keys, i, lo) == Lo(t.keys, i, lo) && Hi(t'.keys, i, hi) == Hi(t.keys, i + 1, hi);
    }
  }

  lemma FitsErase<K(!new)>(o: Config<K>, keys: seq<K>, lo: Bound<K>, hi: Bound<K>, i: nat)
    requires UniqueGood(o) && Fits(o, keys, lo, hi) && i < |keys|
    ensures Fits(o, EraseAt(keys, i), lo, hi)
  {
  }

  lemma WithMergedOrdered<N, K(!new), V>(o: Config<K>, t: Tree<N, K, V>, lo: Bound<K>, hi: Bound<K>, i: nat,
                                         m: Tree<N, K, V>)
    requires UniqueGood(o) && t.Inner? && Ordered(o, t, lo, hi) && i < |t.keys|
    requires Ordered(o, m, Lo(t.keys, i, lo), Hi(t.keys, i + 1, hi))
    ensures Ordered(o, WithMerged(t, i, m), lo, hi)
  {
    FitsErase(o, t.keys, lo, hi, i);
    var t' := WithMerged(t, i, m);
    forall j | 0 <= j <= |t'.keys|
      ensures Ordered(o, t'.children[j], Lo(t'.keys, j, lo), Hi(t'.keys, j, hi))
    {
      WithMergedAt(o, t, lo, hi, i, m, j);
    }
  }

  // ---- balance ------------------------------------------------------------------------

  ghost predicate Even(order: nat) {
    order >= 2 && order % 2 == 0
  }

  /** Everything is in balance except that child `i` may be one key short. */
  ghost predicate Lopsided<N, K, V>(order: nat, t: Tree<N, K, V>, h: nat, i: nat) {
    && t.Inner? && h > 0 && 1 <= |t.keys| <= order && |t.children| == |t.keys| + 1 && i <= |t.keys|
    && Balanced(order, t.children[i], h - 1, MinKeys(order) - 1)
    && forall j :: 0 <= j < |t.children| && j != i ==> Balanced(order, t.children[j], h - 1, MinKeys(order))
  }

  ghost predicate PairBalanced<N, K, V>(order: nat, p: Pair<N, K, V>, h: nat) {
    Balanced(order, p.left, h, MinKeys(order)) && Balanced(order, p.right, h, MinKeys(order))
  }

  lemma TakeFromLeftBalanced<N, K, V>(order: nat, p: Pair<N, K, V>, h: nat)
    requires Even(order) && Balanced(order, p.left, h, MinKeys(order) + 1) &&
             Balanced(order, p.right, h, MinKeys(order) - 1)
    requires |p.right.keys| < MinKeys(order)
    ensures Matched(p) && PairBalanced(order, TakeFromLeft(p), h)
  {
  }

  lemma TakeFromRightBalanced<N, K, V>(order: nat, p: Pair<N, K, V>, h: nat)
    requires Even(order) && Balanced(order, p.left, h, MinKeys(order) - 1) &&
             Balanced(order, p.right, h, MinKeys(order) + 1)
    requires |p.left.keys| < MinKeys(order)
    ensures Matched(p) && PairBalanced(order, TakeFromRight(p), h)
  {
  }

  lemma MergedBalanced<N, K, V>(order: nat, p: Pair<N, K, V>, h: nat)
    requires Even(order) && Balanced(order, p.left, h, MinKeys(order) - 1) &&
             Balanced(order, p.right, h, MinKeys(order) - 1)
    requires |p.left.keys| + |p.right.keys| == 2 * MinKeys(order) - 1
    ensures Matched(p) && Balanced(order, Merged(p), h, MinKeys(order))
  {
  }

  lemma WithPairBalanced<N, K, V>(order: nat, t: Tree<N, K, V>, h: nat, i: nat, j: nat, p: Pair<N, K, V>)
    requires Lopsided(order, t, h, i) && i <= j + 1 <= i + 1 && j < |t.keys| && PairBalanced(order, p, h - 1)
    ensures Balanced(order, WithPair(t, j, p), h, |t.keys|)
  {
  }

  lemma WithMergedBalanced<N, K, V>(order: nat, t: Tree<N, K, V>, h: nat, i: nat, j: nat, m: Tree<N, K, V>)
    requires Lopsided(order, t, h, i) && i <= j + 1 <= i + 1 && j < |t.keys| &&
             Balanced(order, m, h - 1, MinKeys(order))
    ensures Balanced(order, WithMerged(t, j, m), h, |t.keys| - 1)
  {
  }

  // ---- heap nodes in use --------------------------------------------------------------

  ghost predicate PairApart<N, K, V>(p: Pair<N, K, V>) {
    Apart(p.left) && Apart(p.right) && Nodes(p.left) !! Nodes(p.right)
  }

  lemma ApartTwo<N, K, V>(x: Tree<N, K, V>, y: Tree<N, K, V>)
    ensures AllApart([x, y]) <==> Apart(x) && Apart(y) && Nodes(x) !! Nodes(y)
    ensures NodesOf([x, y]) == Nodes(x) + Nodes(y)
  {
    assert [x, y][1..] == [y];
    ApartOne(y);
  }

  lemma TakeFromLeftApart<N, K, V>(p: Pair<N, K, V>)
    requires Matched(p) && p.left.keys != [] && PairApart(p)
    ensures var q := TakeFromLeft(p); PairApart(q) && Nodes(q.left) + Nodes(q.right) == Nodes(p.left) + Nodes(p.right)
  {
    if p.left.Inner? {
      var a, x, b := Init(p.left.children), Last(p.left.children), p.right.children;
      assert p.left.children == a + [x];
      ApartOne(x);
      AllApartAppend(a, [x]);
      NodesOfAppend(a, [x]);
      AllApartAppend([x], b);
      NodesOfAppend([x], b);
    }
  }

  lemma ApartOne<N, K, V>(x: Tree<N, K, V>)
    ensures (AllApart([x]) <==> Apart(x)) && NodesOf([x]) == Nodes(x)
  {
    assert [x][1..] == [];
  }

  lemma TakeFromRightApart<N, K, V>(p: Pair<N, K, V>)
    requires Matched(p) && |p.right.keys| > 1 && PairApart(p)
    ensures var q := TakeFromRight(p); PairApart(q) && Nodes(q.left) + Nodes(q.right) == Nodes(p.left) + Nodes(p.right)
  {
    if p.left.Inner? {
      var a, x, b := p.left.children, p.right.children[0], p.right.children[1..];
      assert p.right.children == [x] + b;
      ApartOne(x);
      AllApartAppend(a, [x]);
      NodesOfAppend(a, [x]);
      AllApartAppend([x], b);
      NodesOfAppend([x], b);
    }
  }

  lemma MergedApart<N, K, V>(p: Pair<N, K, V>)
    requires Matched(p) && PairApart(p)
    ensures Apart(Merged(p)) && Nodes(Merged(p)) <= Nodes(p.left) + Nodes(p.right)
  {
    if p.left.Inner? {
      AllApartAppend(p.left.children, p.right.children);
      NodesOfAppend(p.left.children, p.right.children);
    }
  }

  lemma PairAtApart<N, K, V>(t: Tree<N, K, V>, i: nat)
    requires t.Inner? && Apart(t) && i < |t.keys| && |t.children| == |t.keys| + 1
    ensures PairApart(PairAt(t, i))
  {
    var m := [t.children[i], t.children[i + 1]];
    assert t.children == t.children[..i] + m + t.children[i + 2..];
    ApartRuns(t.children[..i], m, t.children[i + 2..]);
    ApartTwo(t.children[i], t.children[i + 1]);
  }

  lemma {:induction false} WithPairApart<N, K, V>(t: Tree<N, K, V>, i: nat, p: Pair<N, K, V>)
    requires t.Inner? && Apart(t) && i < |t.keys| && |t.children| == |t.keys| + 1 && PairApart(p)
    requires Nodes(p.left) + Nodes(p.right) <= Nodes(t.children[i]) + Nodes(t.children[i + 1])
    ensures Apart(WithPair(t, i, p)) && Nodes(WithPair(t, i, p)) <= Nodes(t)
  {
    var m, m' := [t.children[i], t.children[i + 1]], [p.left, p.right];
    assert t.children == t.children[..i] + m + t.children[i + 2..];
    ApartTwo(t.children[i], t.children[i + 1]);
    ApartTwo(p.left, p.right);
    ApartSwap(t, WithPair(t, i, p), t.children[..i], m, m', t.children[i + 2..], {});
  }

  lemma WithMergedApart<N, K, V>(t: Tree<N, K, V>, i: nat, c: Tree<N, K, V>)
    requires t.Inner? && Apart(t) && i < |t.keys| && |t.children| == |t.keys| + 1 && Apart(c)
    requires Nodes(c) <= Nodes(t.children[i]) + Nodes(t.children[i + 1])
    ensures Apart(WithMerged(t, i, c)) && Nodes(WithMerged(t, i, c)) <= Nodes(t)
  {
    var m, m' := [t.children[i], t.children[i + 1]], [c];
    assert t.children == t.children[..i] + m + t.children[i + 2..];
    ApartTwo(t.children[i], t.children[i + 1]);
    ApartOne(c);
    ApartSwap(t, WithMerged(t, i, c), t.children[..i], m, m', t.children[i + 2..], {});
  }

  // ---- rebalancing one child ----------------------------------------------------------

  /** What DeleteHelper makes of a node whose child `i` underflowed: borrow left, else borrow right, else merge. */
  ghost function Fixed<N, K, V>(order: nat, t: Tree<N, K, V>, h: nat, i: nat): Tree<N, K, V>
    requires Even(order) && Lopsided(order, t, h, i)
  {
    var min := MinKeys(order);
    if i > 0 && |t.children[i - 1].keys| > min then WithPair(t, i - 1, TakeFromLeft(PairAt(t, i - 1)))
    else if i < |t.keys| && |t.children[i + 1].keys| > min then WithPair(t, i, TakeFromRight(PairAt(t, i)))
    else if i > 0 then WithMerged(t, i - 1, Merged(PairAt(t, i - 1)))
    else WithMerged(t, 0, Merged(PairAt(t, 0)))
  }

  lemma {:induction false} FixedBalanced<N, K, V>(order: nat, t: Tree<N, K, V>, h: nat, i: nat)
    requires Even(order) && Lopsided(order, t, h, i) && |t.children[i].keys| < MinKeys(order)
    ensures Balanced(order, Fixed(order, t, h, i), h, |t.keys| - 1)
  {
    var min := MinKeys(order);
    if i > 0 && |t.children[i - 1].keys| > min {
      TakeFromLeftBalanced(order, PairAt(t, i - 1), h - 1);
      WithPairBalanced(order, t, h, i, i - 1, TakeFromLeft(PairAt(t, i - 1)));
    } else if i < |t.keys| && |t.children[i + 1].keys| > min {
      TakeFromRightBalanced(order, PairAt(t, i), h - 1);
      WithPairBalanced(order, t, h, i, i, TakeFromRight(PairAt(t, i)));
    } else {
      var j := if i > 0 then i - 1 else 0;
      MergedBalanced(order, PairAt(t, j), h - 1);
      WithMergedBalanced(order, t, h, i, j, Merged(PairAt(t, j)));
    }
  }

  lemma FixedOrdered<N, K(!new), V>(o: Config<K>, t: Tree<N, K, V>, lo: Bound<K>, hi: Bound<K>, h: nat, i: nat)
    requires UniqueGood(o) && Lopsided(o.order, t, h, i) && Ordered(o, t, lo, hi)
    ensures Ordered(o, Fixed(o.order, t, h, i), lo, hi)
  {
    var min := MinKeys(o.order);
    var j := if i > 0 && (|t.children[i - 1].keys| > min || !(i < |t.keys| && |t.children[i + 1].keys| > min)) then i - 1 else i;
    var l, r := Lo(t.keys, j, lo), Hi(t.keys, j + 1, hi);
    PairAtOrdered(o, t, lo, hi, j);
    if i > 0 && |t.children[i - 1].keys| > min {
      TakeFromLeftOrdered(o, PairAt(t, j), l, r);
      WithPairOrdered(o, t, lo, hi, j, TakeFromLeft(PairAt(t, j)));
    } else if i < |t.keys| && |t.children[i + 1].keys| > min {
      TakeFromRightOrdered(o, PairAt(t, j), l, r);
      WithPairOrdered(o, t, lo, hi, j, TakeFromRight(PairAt(t, j)));
    } else {
      MergedOrdered(o, PairAt(t, j), l, r);
      WithMergedOrdered(o, t, lo, hi, j, Merged(PairAt(t, j)));
    }
  }

  lemma FixedEntries<N, K, V>(order: nat, t: Tree<N, K, V>, h: nat, i: nat)
    requires Even(order) && Lopsided(order, t, h, i)
    ensures Entries(Fixed(order, t, h, i)) == Entries(t)
  {
    var min := MinKeys(order);
    if i > 0 && |t.children[i - 1].keys| > min {
      TakeFromLeftEntries(PairAt(t, i - 1));
      WithPairEntries(t, i - 1, TakeFromLeft(PairAt(t, i - 1)));
    } else if i < |t.keys| && |t.children[i + 1].keys| > min {
      TakeFromRightEntries(PairAt(t, i));
      WithPairEntries(t, i, TakeFromRight(PairAt(t, i)));
    } else {
      var j := if i > 0 then i - 1 else 0;
      MergedEntries(PairAt(t, j));
      WithMergedEntries(t, j, Merged(PairAt(t, j)));
    }
  }

  lemma FixedApart<N, K, V>(order: nat, t: Tree<N, K, V>, h: nat, i: nat)
    requires Even(order) && Lopsided(order, t, h, i) && Apart(t)
    ensures Apart(Fixed(order, t, h, i)) && Nodes(Fixed(order, t, h, i)) <= Nodes(t)
  {
    var min := MinKeys(order);
    if i > 0 && |t.children[i - 1].keys| > min {
      PairAtApart(t, i - 1);
      TakeFromLeftApart(PairAt(t, i - 1));
      WithPairApart(t, i - 1, TakeFromLeft(PairAt(t, i - 1)));
    } else if i < |t.keys| && |t.children[i + 1].keys| > min {
      PairAtApart(t, i);
      TakeFromRightApart(PairAt(t, i));
      WithPairApart(t, i, TakeFromRight(PairAt(t, i)));
    } else {
      var j := if i > 0 then i - 1 else 0;
      PairAtApart(t, j);
      MergedApart(PairAt(t, j));
      WithMergedApart(t, j, Merged(PairAt(t, j)));
    }
  }

  /** The left sibling gives a key if it can spare one. */
  lemma BorrowsLeft<N, K, V>(order: nat, t: Tree<N, K, V>, h: nat, i: nat)
    requires Even(order) && Lopsided(order, t, h, i) && i > 0 && |t.children[i - 1].keys| > MinKeys(order)
    ensures var cs, cs' := t.children, Fixed(order, t, h, i).children;
            && |cs'| == |cs| && |cs'[i - 1].keys| == |cs[i - 1].keys| - 1 && |cs'[i].keys| == |cs[i].keys| + 1
            && forall j :: 0 <= j < |cs| && j != i - 1 && j != i ==> cs'[j] == cs[j]
  {
    WithPairAround(t, i - 1, TakeFromLeft(PairAt(t, i - 1)));
  }

  /** Otherwise the right one does, if it can. */
  lemma BorrowsRight<N, K, V>(order: nat, t: Tree<N, K, V>, h: nat, i: nat)
    requires Even(order) && Lopsided(order, t, h, i) && !(i > 0 && |t.children[i - 1].keys| > MinKeys(order))
    requires i < |t.keys| && |t.children[i + 1].keys| > MinKeys(order)
    ensures var cs, cs' := t.children, Fixed(order, t, h, i).children;
            && |cs'| == |cs| && |cs'[i + 1].keys| == |cs[i + 1].keys| - 1 && |cs'[i].keys| == |cs[i].keys| + 1
            && forall j :: 0 <= j < |cs| && j != i + 1 && j != i ==> cs'[j] == cs[j]
  {
    WithPairAround(t, i, TakeFromRight(PairAt(t, i)));
  }

  /** If neither can, the child is merged with the left sibling, or with the right one if it is the first. */
  lemma Merges<N, K, V>(order: nat, t: Tree<N, K, V>, h: nat, i: nat)
    requires Even(order) && Lopsided(order, t, h, i) && !(i > 0 && |t.children[i - 1].keys| > MinKeys(order))
    requires !(i < |t.keys| && |t.children[i + 1].keys| > MinKeys(order))
    ensures var cs, cs', l := t.children, Fixed(order, t, h, i).children, if i > 0 then i - 1 else 0;
            && |cs'| == |cs| - 1 && (forall j :: 0 <= j < l ==> cs'[j] == cs[j])
            && (forall j :: l < j < |cs'| ==> cs'[j] == cs[j + 1])
            && |cs'[l].keys| == |cs[l].keys| + |cs[l + 1].keys| + (if cs[l].Leaf? then 0 else 1)
  {
    var l := if i > 0 then i - 1 else 0;
    var m := Merged(PairAt(t, l));
    assert Fixed(order, t, h, i) == WithMerged(t, l, m);
    hide Fixed, Lopsided;
    assert |m.keys| == |t.children[l].keys| + |t.children[l + 1].keys| + (if t.children[l].Leaf? then 0 else 1);
    hide Merged, Matched;
    var cs' := WithMerged(t, l, m).children;
    assert cs'[l] == m;
  }

  lemma WithPairAround<N, K, V>(t: Tree<N, K, V>, i: nat, p: Pair<N, K, V>)
    requires t.Inner? && i < |t.keys| && |t.children| == |t.keys| + 1
    ensures var cs, cs' := t.children, WithPair(t, i, p).children;
            && |cs'| == |cs| && cs'[i] == p.left && cs'[i + 1] == p.right
            && forall j :: 0 <= j < |cs| && j != i && j != i + 1 ==> cs'[j] == cs[j]
  {
  }

  // ---- the whole deletion -------------------------------------------------------------

  ghost predicate Deletable<N, K(!new), V>(o: Config<K>, t: Tree<N, K, V>, lo: Bound<K>, hi: Bound<K>, h: nat) {
    UniqueGood(o) && Apart(t) && Ordered(o, t, lo, hi) && Balanced(o.order, t, h, RootMin(h))
  }

  /** Child `i` of `t` has become `c`, possibly one key short; rebalance if it is. */
  ghost function Rejoined<N, K, V>(order: nat, t: Tree<N, K, V>, h: nat, i: nat, c: Tree<N, K, V>): (t': Tree<N, K, V>)
    requires Even(order) && t.Inner? && Balanced(order, t, h, 1) && i <= |t.keys|
    requires Balanced(order, c, h - 1, |t.children[i].keys| - 1)
    ensures t'.node == t.node && Balanced(order, t', h, |t.keys| - 1)
  {
    ReplacedLopsided(order, t, h, i, c);
    if |c.keys| >= MinKeys(order) then WithChild(t, i, c)
    else
      FixedBalanced(order, WithChild(t, i, c), h, i);
      Fixed(order, WithChild(t, i, c), h, i)
  }

  /** What deleting `k` below `t` leaves; the result may be one key short at the top. */
  ghost function Removed<N, K, V>(o: Config<K>, t: Tree<N, K, V>, h: nat, k: K): (t': Tree<N, K, V>)
    requires Even(o.order) && Balanced(o.order, t, h, RootMin(h))
    ensures t'.node == t.node && Balanced(o.order, t', h, |t.keys| - 1)
    decreases t
  {
    if t.Leaf? then
      var i := LowerBound(o.less, t.keys, k);
      if i == |t.keys| || t.keys[i] != k then t else LeafWithout(t, i)
    else
      var i := UpperBound(o.less, t.keys, k);
      BalancedRelax(o.order, t.children[i], h - 1, MinKeys(o.order), RootMin(h - 1));
      Rejoined(o.order, t, h, i, Removed(o, t.children[i], h - 1, k))
  }

  lemma ReplacedOrdered<N, K, V>(o: Config<K>, t: Tree<N, K, V>, lo: Bound<K>, hi: Bound<K>, i: nat, c: Tree<N, K, V>)
    requires t.Inner? && Ordered(o, t, lo, hi) && i <= |t.keys| && Ordered(o, c, Lo(t.keys, i, lo), Hi(t.keys, i, hi))
    ensures Ordered(o, WithChild(t, i, c), lo, hi)
  {
    var t' := WithChild(t, i, c);
    forall j | 0 <= j <= |t'.keys|
      ensures Ordered(o, t'.children[j], Lo(t'.keys, j, lo), Hi(t'.keys, j, hi))
    {
      assert j != i ==> t'.children[j] == t.children[j];
    }
  }

  lemma ReplacedLopsided<N, K, V>(order: nat, t: Tree<N, K, V>, h: nat, i: nat, c: Tree<N, K, V>)
    requires t.Inner? && Balanced(order, t, h, 1) && i <= |t.keys| &&
             Balanced(order, c, h - 1, |t.children[i].keys| - 1)
    ensures Lopsided(order, WithChild(t, i, c), h, i)
  {
    BalancedRelax(order, c, h - 1, |t.children[i].keys| - 1, MinKeys(order) - 1);
  }

  lemma RejoinedOrdered<N, K(!new), V>(o: Config<K>, t: Tree<N, K, V>, lo: Bound<K>, hi: Bound<K>, h: nat, i: nat,
                                       c: Tree<N, K, V>)
    requires UniqueGood(o) && t.Inner? && Balanced(o.order, t, h, 1) && i <= |t.keys| && Ordered(o, t, lo, hi)
    requires Balanced(o.order, c, h - 1, |t.children[i].keys| - 1) &&
             Ordered(o, c, Lo(t.keys, i, lo), Hi(t.keys, i, hi))
    ensures Ordered(o, Rejoined(o.order, t, h, i, c), lo, hi)
  {
    ReplacedOrdered(o, t, lo, hi, i, c);
    if |c.keys| < MinKeys(o.order) {
      ReplacedLopsided(o.order, t, h, i, c);
      FixedOrdered(o, WithChild(t, i, c), lo, hi, h, i);
    }
  }

  lemma RejoinedApart<N, K, V>(order: nat, t: Tree<N, K, V>, h: nat, i: nat, c: Tree<N, K, V>)
    requires Even(order) && t.Inner? && Balanced(order, t, h, 1) && i <= |t.keys| && Apart(t)
    requires Balanced(order, c, h - 1, |t.children[i].keys| - 1) && Apart(c) && Nodes(c) <= Nodes(t.children[i])
    ensures Apart(Rejoined(order, t, h, i, c)) && Nodes(Rejoined(order, t, h, i, c)) <= Nodes(t)
  {
    ApartWithChild(t, i, c, {});
    if |c.keys| < MinKeys(order) {
      ReplacedLopsided(order, t, h, i, c);
      FixedApart(order, WithChild(t, i, c), h, i);
    }
  }

  lemma RejoinedEntries<N, K, V>(order: nat, t: Tree<N, K, V>, h: nat, i: nat, c: Tree<N, K, V>)
    requires Even(order) && t.Inner? && Balanced(order, t, h, 1) && i <= |t.keys|
    requires Balanced(order, c, h - 1, |t.children[i].keys| - 1)
    ensures Entries(Rejoined(order, t, h, i, c)) == Entries(WithChild(t, i, c))
  {
    if |c.keys| < MinKeys(order) {
      ReplacedLopsided(order, t, h, i, c);
      FixedEntries(order, WithChild(t, i, c), h, i);
    }
  }

  lemma {:induction false} RemovedOrdered<N, K(!new), V>(o: Config<K>, t: Tree<N, K, V>, lo: Bound<K>, hi: Bound<K>,
                                                         h: nat, k: K)
    requires UniqueGood(o) && Ordered(o, t, lo, hi) && Balanced(o.order, t, h, RootMin(h))
    ensures Ordered(o, Removed(o, t, h, k), lo, hi)
  {
    hide StrictTotal, Rejoined, Fixed, Fits, LowerBound, UpperBound;
    if t.Leaf? {
      var i := LowerBound(o.less, t.keys, k);
      if i < |t.keys| { LeafEraseKeeps(o, t, lo, hi, i); }
    } else {
      var i := UpperBound(o.less, t.keys, k);
      BalancedRelax(o.order, t.children[i], h - 1, MinKeys(o.order), RootMin(h - 1));
      RemovedOrdered(o, t.children[i], Lo(t.keys, i, lo), Hi(t.keys, i, hi), h - 1, k);
      RejoinedOrdered(o, t, lo, hi, h, i, Removed(o, t.children[i], h - 1, k));
    }
  }

  lemma {:induction false} RemovedApart<N, K, V>(o: Config<K>, t: Tree<N, K, V>, h: nat, k: K)
    requires Even(o.order) && Apart(t) && Balanced(o.order, t, h, RootMin(h))
    ensures Apart(Removed(o, t, h, k)) && Nodes(Removed(o, t, h, k)) <= Nodes(t)
  {
    hide Rejoined, Fixed;
    if t.Inner? {
      var i := UpperBound(o.less, t.keys, k);
      ChildrenApart(t, i);
      BalancedRelax(o.order, t.children[i], h - 1, MinKeys(o.order), RootMin(h - 1));
      RemovedApart(o, t.children[i], h - 1, k);
      RejoinedApart(o.order, t, h, i, Removed(o, t.children[i], h - 1, k));
    }
  }

  lemma {:induction false} DeleteDescends<N, K(!new), V>(o: Config<K>, t: Tree<N, K, V>, lo: Bound<K>, hi: Bound<K>,
                                                         h: nat, k: K, i: nat)
    requires t.Inner? && Deletable(o, t, lo, hi, h) && i == UpperBound(o.less, t.keys, k)
    ensures h > 0 && Deletable(o, t.children[i], Lo(t.keys, i, lo), Hi(t.keys, i, hi), h - 1)
    ensures HasKey(Entries(t), k) <==> HasKey(Entries(t.children[i]), k)
  {
    KeyDescends(o, t, lo, hi, h, 1, k);
    ChildrenApart(t, i);
    BalancedRelax(o.order, t.children[i], h - 1, MinKeys(o.order), RootMin(h - 1));
  }

  lemma ReplacedSound<N, K, V>(order: nat, t: Tree<N, K, V>, h: nat, i: nat, c: Tree<N, K, V>)
    requires t.Inner? && Apart(t) && Balanced(order, t, h, 1) && i <= |t.keys|
    requires Balanced(order, c, h - 1, |t.children[i].keys| - 1) && Apart(c) && Nodes(c) <= Nodes(t.children[i])
    ensures var t1 := WithChild(t, i, c); Apart(t1) && Nodes(t1) <= Nodes(t) && Lopsided(order, t1, h, i)
  {
    ApartWithChild(t, i, c, {});
    ReplacedLopsided(order, t, h, i, c);
  }

  lemma EraseBelow<N, K, V>(t: Tree<N, K, V>, i: nat, c: Tree<N, K, V>, p: nat, pos: nat)
    requires t.Inner? && i < |t.children| && p < |Entries(t.children[i])| &&
             Entries(c) == EraseAt(Entries(t.children[i]), p)
    requires pos == |Cat(t.children[..i])| + p
    ensures pos < |Entries(t)| && Entries(t)[pos] == Entries(t.children[i])[p]
    ensures Entries(WithChild(t, i, c)) == EraseAt(Entries(t), pos)
  {
    CatAround(t.children, i);
    CatAround(WithChild(t, i, c).children, i);
  }

  /** Deleting an absent key changes nothing at all. */
  lemma {:induction false} RemovedAbsent<N, K(!new), V>(o: Config<K>, t: Tree<N, K, V>, lo: Bound<K>, hi: Bound<K>,
                                                        h: nat, k: K)
    requires Deletable(o, t, lo, hi, h) && !HasKey(Entries(t), k)
    ensures Removed(o, t, h, k) == t
  {
    hide StrictTotal, Fixed;
    if t.Leaf? {
      LowerBoundFinds(o, t, lo, hi, k, LowerBound(o.less, t.keys, k));
    } else {
      var i := UpperBound(o.less, t.keys, k);
      ChildrenApart(t, i);
      KeyDescends(o, t, lo, hi, h, 1, k);
      BalancedRelax(o.order, t.children[i], h - 1, MinKeys(o.order), RootMin(h - 1));
      RemovedAbsent(o, t.children[i], Lo(t.keys, i, lo), Hi(t.keys, i, hi), h - 1, k);
    }
  }

  /** Deleting a present key takes out exactly its pair. */
  lemma {:induction false} RemovedPresent<N, K(!new), V>(o: Config<K>, t: Tree<N, K, V>, lo: Bound<K>, hi: Bound<K>,
                                                         h: nat, k: K)
    returns (pos: nat)
    requires Deletable(o, t, lo, hi, h) && HasKey(Entries(t), k)
    ensures pos < |Entries(t)| && Entries(t)[pos].0 == k && Entries(Removed(o, t, h, k)) == EraseAt(Entries(t), pos)
  {
    hide Rejoined, Fixed;
    if t.Leaf? {
      pos := LowerBound(o.less, t.keys, k);
      LowerBoundFinds(o, t, lo, hi, k, pos);
      LeafEraseKeeps(o, t, lo, hi, pos);
    } else {
      var i := UpperBound(o.less, t.keys, k);
      ChildrenApart(t, i);
      KeyDescends(o, t, lo, hi, h, 1, k);
      BalancedRelax(o.order, t.children[i], h - 1, MinKeys(o.order), RootMin(h - 1));
      var p := RemovedPresent(o, t.children[i], Lo(t.keys, i, lo), Hi(t.keys, i, hi), h - 1, k);
      var c := Removed(o, t.children[i], h - 1, k);
      pos := |Cat(t.children[..i])| + p;
      EraseBelow(t, i, c, p, pos);
      RejoinedEntries(o.order, t, h, i, c);
    }
  }

  /** Everything pure about the recursive call of a deletion: its precondition and what its result means one level up. */
  lemma DeleteOneLevel<N, K(!new), V>(o: Config<K>, t: Tree<N, K, V>, lo: Bound<K>, hi: Bound<K>, h: nat, k: K, i: nat)
    returns (c: Tree<N, K, V>)
    requires t.Inner? && Deletable(o, t, lo, hi, h) && i == UpperBound(o.less, t.keys, k)
    ensures h > 0 && Deletable(o, t.children[i], Lo(t.keys, i, lo), Hi(t.keys, i, hi), h - 1)
    ensures HasKey(Entries(t), k) <==> HasKey(Entries(t.children[i]), k)
    ensures c == Removed(o, t.children[i], h - 1, k) && (!HasKey(Entries(t), k) ==> WithChild(t, i, c) == t && Removed(o, t, h, k) == t)
    ensures Lopsided(o.order, WithChild(t, i, c), h, i) && Apart(WithChild(t, i, c)) &&
            Nodes(WithChild(t, i, c)) <= Nodes(t)
    ensures Removed(o, t, h, k)
         == if |c.keys| >= MinKeys(o.order) then WithChild(t, i, c) else Fixed(o.order, WithChild(t, i, c), h, i)
  {
    hide StrictTotal, Fixed, Entries, Balanced, Apart;
    DeleteDescends(o, t, lo, hi, h, k, i);
    c := Removed(o, t.children[i], h - 1, k);
    RemovedApart(o, t.children[i], h - 1, k);
    ChildrenApart(t, i);
    ReplacedSound(o.order, t, h, i, c);
    if !HasKey(Entries(t), k) {
      RemovedAbsent(o, t.children[i], Lo(t.keys, i, lo), Hi(t.keys, i, hi), h - 1, k);
      RemovedAbsent(o, t, lo, hi, h, k);
    }
  }
}
