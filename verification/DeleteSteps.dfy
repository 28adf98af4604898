/** The single-level steps of a deletion: erase, borrow from a sibling, merge with a sibling. */
module DeleteSteps {
  import opened Ordering
  import opened TreeShape
  import opened TreeFacts
  import opened InsertSteps

  function EraseAt<T>(s: seq<T>, i: nat): seq<T>
    requires i < |s|
  {
    s[..i] + s[i + 1..]
  }

  function LeafWithout<N, K, V>(t: Tree<N, K, V>, i: nat): Tree<N, K, V>
    requires t.Leaf? && i < |t.keys| == |t.values|
  {
    t.(keys := EraseAt(t.keys, i), values := EraseAt(t.values, i))
  }

  /** Two neighbouring siblings and the separator between them. */
  datatype Pair<N, K, V> = Pair(left: Tree<N, K, V>, sep: K, right: Tree<N, K, V>)

  ghost predicate Formed<N, K, V>(t: Tree<N, K, V>) {
    if t.Leaf? then |t.values| == |t.keys| else |t.children| == |t.keys| + 1
  }

  /** Siblings are of one kind, because all leaves are at the same depth. */
  ghost predicate Matched<N, K, V>(p: Pair<N, K, V>) {
    (p.left.Leaf? <==> p.right.Leaf?) && Formed(p.left) && Formed(p.right)
  }

  function Init<T>(s: seq<T>): seq<T>
    requires s != []
  {
    s[..|s| - 1]
  }

  function Last<T>(s: seq<T>): T
    requires s != []
  {
    s[|s| - 1]
  }

  /** BorrowFromLeft. */
  ghost function TakeFromLeft<N, K, V>(p: Pair<N, K, V>): Pair<N, K, V>
    requires Matched(p) && p.left.keys != []
  {
    var l, r := p.left, p.right;
    if l.Leaf? then
      Pair(l.(keys := Init(l.keys), values := Init(l.values)), Last(l.keys),
           r.(keys := [Last(l.keys)] + r.keys, values := [Last(l.values)] + r.values))
    else
      Pair(l.(keys := Init(l.keys), children := Init(l.children)), Last(l.keys),
           r.(keys := [p.sep] + r.keys, children := [Last(l.children)] + r.children))
  }

  /** BorrowFromRight. */
  ghost function TakeFromRight<N, K, V>(p: Pair<N, K, V>): Pair<N, K, V>
    requires Matched(p) && |p.right.keys| > 1
  {
    var l, r := p.left, p.right;
    if l.Leaf? then
      Pair(l.(keys := l.keys + [r.keys[0]], values := l.values + [r.values[0]]), r.keys[1],
           r.(keys := r.keys[1..], values := r.values[1..]))
    else
      Pair(l.(keys := l.keys + [p.sep], children := l.children + [r.children[0]]), r.keys[0],
           r.(keys := r.keys[1..], children := r.children[1..]))
  }

  /** MergeNodes. */
  ghost function Merged<N, K, V>(p: Pair<N, K, V>): Tree<N, K, V>
    requires Matched(p)
  {
    var l, r := p.left, p.right;
    if l.Leaf? then l.(keys := l.keys + r.keys, values := l.values + r.values)
    else l.(keys := l.keys + [p.sep] + r.keys, children := l.children + r.children)
  }

  ghost function PairAt<N, K, V>(t: Tree<N, K, V>, i: nat): Pair<N, K, V>
    requires t.Inner? && i < |t.keys| && |t.children| == |t.keys| + 1
  {
    Pair(t.children[i], t.keys[i], t.children[i + 1])
  }

  ghost function WithPair<N, K, V>(t: Tree<N, K, V>, i: nat, p: Pair<N, K, V>): Tree<N, K, V>
    requires t.Inner? && i < |t.keys| && |t.children| == |t.keys| + 1
  {
    t.(keys := t.keys[i := p.sep], children := t.children[..i] + [p.left, p.right] + t.children[i + 2..])
  }

  ghost function WithMerged<N, K, V>(t: Tree<N, K, V>, i: nat, m: Tree<N, K, V>): Tree<N, K, V>
    requires t.Inner? && i < |t.keys| && |t.children| == |t.keys| + 1
  {
    t.(keys := EraseAt(t.keys, i), children := t.children[..i] + [m] + t.children[i + 2..])
  }

  // ---- order --------------------------------------------------------------------------

  ghost predicate UniqueGood<K(!new)>(o: Config<K>) {
    Good(o) && !o.multi
  }

  ghost predicate PairOrdered<N, K, V>(o: Config<K>, p: Pair<N, K, V>, lo: Bound<K>, hi: Bound<K>) {
    OrderedPair(o, p.left, p.sep, p.right, lo, hi)
  }

  lemma LeafEraseKeeps<N, K(!new), V>(o: Config<K>, t: Tree<N, K, V>, lo: Bound<K>, hi: Bound<K>, i: nat)
    requires UniqueGood(o) && t.Leaf? && Ordered(o, t, lo, hi) && i < |t.keys| == |t.values|
    ensures Ordered(o, LeafWithout(t, i), lo, hi) && Entries(LeafWithout(t, i)) == EraseAt(Entries(t), i)
  {
  }

  lemma TakeFromLeftOrdered<N, K(!new), V>(o: Config<K>, p: Pair<N, K, V>, lo: Bound<K>, hi: Bound<K>)
    requires UniqueGood(o) && PairOrdered(o, p, lo, hi) && Matched(p) && |p.left.keys| > 1
    ensures PairOrdered(o, TakeFromLeft(p), lo, hi)
  {
    if p.left.Inner? {
      TakeFromLeftInner(o, p, lo, hi);
    }
  }

  lemma TakeFromLeftInner<N, K(!new), V>(o: Config<K>, p: Pair<N, K, V>, lo: Bound<K>, hi: Bound<K>)
    requires UniqueGood(o) && PairOrdered(o, p, lo, hi) && Matched(p) && |p.left.keys| > 1 && p.left.Inner?
    ensures PairOrdered(o, TakeFromLeft(p), lo, hi)
  {
    var l, r := p.left, p.right;
    var q := TakeFromLeft(p);
    InitOrdered(o, l, lo, At(p.sep));
    assert Ordered(o, Last(l.children), At(Last(l.keys)), At(p.sep));
    assert Fits(o, q.right.keys, At(q.sep), hi);
    hide StrictTotal, Fits;
    forall j | 0 <= j <= |q.right.keys|
      ensures Ordered(o, q.right.children[j], Lo(q.right.keys, j, At(q.sep)), Hi(q.right.keys, j, hi))
    {
      assert j > 0 ==> q.right.children[j] == r.children[j - 1];
    }
  }

  /** A node without its last key and child ends where that key was. */
  lemma InitOrdered<N, K(!new), V>(o: Config<K>, l: Tree<N, K, V>, lo: Bound<K>, hi: Bound<K>)
    requires UniqueGood(o) && l.Inner? && Ordered(o, l, lo, hi) && l.keys != []
    ensures Ordered(o, l.(keys := Init(l.keys), children := Init(l.children)), lo, At(Last(l.keys)))
  {
    var l' := l.(keys := Init(l.keys), children := Init(l.children));
    var sep := At(Last(l.keys));
    assert Fits(o, l'.keys, lo, sep);
    hide StrictTotal, Fits;
    forall j | 0 <= j <= |l'.keys|
      ensures Ordered(o, l'.children[j], Lo(l'.keys, j, lo), Hi(l'.keys, j, sep))
    {
      assert l'.children[j] == l.children[j];
      assert Lo(l'.keys, j, lo) == Lo(l.keys, j, lo) && Hi(l'.keys, j, sep) == Hi(l.keys, j, hi);
    }
  }

  lemma TakeFromRightOrdered<N, K(!new), V>(o: Config<K>, p: Pair<N, K, V>, lo: Bound<K>, hi: Bound<K>)
    requires UniqueGood(o) && PairOrdered(o, p, lo, hi) && Matched(p) && |p.right.keys| > 1
    ensures PairOrdered(o, TakeFromRight(p), lo, hi)
  {
    if p.left.Inner? {
      TakeFromRightInner(o, p, lo, hi);
    }
  }

  lemma TakeFromRightInner<N, K(!new), V>(o: Config<K>, p: Pair<N, K, V>, lo: Bound<K>, hi: Bound<K>)
    requires UniqueGood(o) && PairOrdered(o, p, lo, hi) && Matched(p) && |p.right.keys| > 1 && p.left.Inner?
    ensures PairOrdered(o, TakeFromRight(p), lo, hi)
  {
    var l, r := p.left, p.right;
    var q := TakeFromRight(p);
    var sep := At(q.sep);
    TailOrdered(o, r, At(p.sep), hi);
    assert Ordered(o, r.children[0], At(p.sep), sep);
    assert Fits(o, q.left.keys, lo, sep);
    hide StrictTotal, Fits;
    forall j | 0 <= j <= |q.left.keys|
      ensures Ordered(o, q.left.children[j], Lo(q.left.keys, j, lo), Hi(q.left.keys, j, sep))
    {
      assert j <= |l.keys| ==> q.left.children[j] == l.children[j] && Lo(q.left.keys, j, lo) == Lo(l.keys, j, lo);
    }
  }

  /** A node without its first key and child starts where that key was. */
  lemma TailOrdered<N, K(!new), V>(o: Config<K>, r: Tree<N, K, V>, lo: Bound<K>, hi: Bound<K>)
    requires UniqueGood(o) && r.Inner? && Ordered(o, r, lo, hi) && r.keys != []
    ensures Ordered(o, r.(keys := r.keys[1..], children := r.children[1..]), At(r.keys[0]), hi)
  {
    var r' := r.(keys := r.keys[1..], children := r.children[1..]);
    var sep := At(r.keys[0]);
    assert Fits(o, r'.keys, sep, hi);
    hide StrictTotal, Fits;
    forall j | 0 <= j <= |r'.keys|
      ensures Ordered(o, r'.children[j], Lo(r'.keys, j, sep), Hi(r'.keys, j, hi))
    {
      assert r'.children[j] == r.children[j + 1];
      assert Lo(r'.keys, j, sep) == Lo(r.keys, j + 1, lo) && Hi(r'.keys, j, hi) == Hi(r.keys, j + 1, hi);
    }
  }

  lemma AscendJoin<K>(less: (K, K) -> bool, a: seq<K>, b: seq<K>)
    requires Ascending(less, a) && Ascending(less, b)
    requires forall i, j :: 0 <= i < |a| && 0 <= j < |b| ==> less(a[i], b[j])
    ensures Ascending(less, a + b)
  {
    var s := a + b;
    forall i, j | 0 <= i < j < |s|
      ensures less(s[i], s[j])
    {
      assert i < |a| ==> s[i] == a[i];
      assert j >= |a| ==> s[j] == b[j - |a|];
    }
  }

  /** With unique keys `Fits` says: rising, from `lo` on, strictly below `hi`. */
  lemma FitsUnique<K(!new)>(o: Config<K>, keys: seq<K>, lo: Bound<K>, hi: Bound<K>)
    requires UniqueGood(o)
    ensures Fits(o, keys, lo, hi) <==>
            Ascending(o.less, keys) && forall i :: 0 <= i < |keys| ==> NotBelow(o, lo, keys[i]) && Below(o, keys[i], hi)
  {
  }

  lemma FitsJoin<K(!new)>(o: Config<K>, a: seq<K>, sep: K, b: seq<K>, lo: Bound<K>, hi: Bound<K>)
    requires UniqueGood(o) && Fits(o, a, lo, At(sep)) && Fits(o, b, At(sep), hi)
    requires NotBelow(o, lo, sep) && Below(o, sep, hi)
    ensures Fits(o, a + b, lo, hi)
    ensures (forall j :: 0 <= j < |b| ==> o.less(sep, b[j])) ==> Fits(o, a + [sep] + b, lo, hi)
  {
    FitsUnique(o, a, lo, At(sep));
    FitsUnique(o, b, At(sep), hi);
    FitsUnique(o, a + b, lo, hi);
    FitsUnique(o, a + [sep] + b, lo, hi);
    hide Fits;
    assert forall i :: 0 <= i < |a| ==> o.less(a[i], sep);
    AscendJoin(o.less, a, b);
    AscendJoin(o.less, a, [sep]);
    if forall j :: 0 <= j < |b| ==> o.less(sep, b[j]) {
      AscendJoin(o.less, a + [sep], b);
    }
  }

  lemma MergedChild<N, K, V>(o: Config<K>, p: Pair<N, K, V>, lo: Bound<K>, hi: Bound<K>, j: nat)
    requires PairOrdered(o, p, lo, hi) && Matched(p) && p.left.Inner? && j <= |Merged(p).keys|
    ensures var m := Merged(p); Ordered(o, m.children[j], Lo(m.keys, j, lo), Hi(m.keys, j, hi))
  {
  }

  lemma MergedOrdered<N, K(!new), V>(o: Config<K>, p: Pair<N, K, V>, lo: Bound<K>, hi: Bound<K>)
    requires UniqueGood(o) && PairOrdered(o, p, lo, hi) && Matched(p)
    ensures Ordered(o, Merged(p), lo, hi)
  {
    FitsJoin(o, p.left.keys, p.sep, p.right.keys, lo, hi);
    if p.left.Inner? {
      var m := Merged(p);
      forall j | 0 <= j <= |m.keys|
        ensures Ordered(o, m.children[j], Lo(m.keys, j, lo), Hi(m.keys, j, hi))
      {
        MergedChild(o, p, lo, hi, j);
      }
    }
  }

  // ---- entries ------------------------------------------------------------------------

  ghost function PairEntries<N, K, V>(p: Pair<N, K, V>): seq<(K, V)> {
    Entries(p.left) + Entries(p.right)
  }

  lemma TakeFromLeftEntries<N, K, V>(p: Pair<N, K, V>)
    requires Matched(p) && p.left.keys != []
    ensures PairEntries(TakeFromLeft(p)) == PairEntries(p)
  {
    var l, r := p.left, p.right;
    if l.Inner? {
      assert l.children == Init(l.children) + [Last(l.children)];
      CatAppend(Init(l.children), [Last(l.children)]);
      CatAppend([Last(l.children)], r.children);
      CatOne(Last(l.children));
    } else {
      assert Entries(l) == Init(Entries(l)) + [(Last(l.keys), Last(l.values))];
      assert Entries(TakeFromLeft(p).right) == [(Last(l.keys), Last(l.values))] + Entries(r);
    }
  }

  lemma TakeFromRightEntries<N, K, V>(p: Pair<N, K, V>)
    requires Matched(p) && |p.right.keys| > 1
    ensures PairEntries(TakeFromRight(p)) == PairEntries(p)
  {
    var l, r := p.left, p.right;
    if l.Inner? {
      assert r.children == [r.children[0]] + r.children[1..];
      CatAppend([r.children[0]], r.children[1..]);
      CatAppend(l.children, [r.children[0]]);
      CatOne(r.children[0]);
    }
  }

  lemma MergedEntries<N, K, V>(p: Pair<N, K, V>)
    requires Matched(p)
    ensures Entries(Merged(p)) == PairEntries(p)
  {
    if p.left.Inner? {
      CatAppend(p.left.children, p.right.children);
    }
  }

  lemma WithPairEntries<N, K, V>(t: Tree<N, K, V>, i: nat, p: Pair<N, K, V>)
    requires t.Inner? && i < |t.keys| && |t.children| == |t.keys| + 1 && PairEntries(p) == PairEntries(PairAt(t, i))
    ensures Entries(WithPair(t, i, p)) == Entries(t)
  {
    CatTwo(t.children[i], t.children[i + 1]);
    CatTwo(p.left, p.right);
    SwapEntries(t.children[..i], [t.children[i], t.children[i + 1]], [p.left, p.right], t.children[i + 2..]);
    assert t.children == t.children[..i] + [t.children[i], t.children[i + 1]] + t.children[i + 2..];
  }

  lemma WithMergedEntries<N, K, V>(t: Tree<N, K, V>, i: nat, m: Tree<N, K, V>)
    requires t.Inner? && i < |t.keys| && |t.children| == |t.keys| + 1 && Entries(m) == PairEntries(PairAt(t, i))
    ensures Entries(WithMerged(t, i, m)) == Entries(t)
  {
    CatTwo(t.children[i], t.children[i + 1]);
    CatOne(m);
    SwapEntries(t.children[..i], [t.children[i], t.children[i + 1]], [m], t.children[i + 2..]);
    assert t.children == t.children[..i] + [t.children[i], t.children[i + 1]] + t.children[i + 2..];
  }

  lemma {:induction false} SwapEntries<N, K, V>(a: seq<Tree<N, K, V>>, m: seq<Tree<N, K, V>>, m': seq<Tree<N, K, V>>,
                                                b: seq<Tree<N, K, V>>)
    requires Cat(m) == Cat(m')
    ensures Cat(a + m + b) == Cat(a + m' + b)
  {
    CatAppend(a + m, b);
    CatAppend(a, m);
    CatAppend(a + m', b);
    CatAppend(a, m');
  }
}
