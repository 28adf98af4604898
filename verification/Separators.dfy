/** When the separators of a tree rise strictly, and what one insertion does to that. */
module Separators {
  import opened Ordering
  import opened TreeShape
  import opened InsertSteps

  /** In every inner node the separators rise strictly, strictly between those around the node. */
  ghost predicate Rising<N, K, V>(o: Config<K>, t: Tree<N, K, V>, lo: Bound<K>, hi: Bound<K>)
    decreases t
  {
    t.Inner? ==>
      && Ascending(o.less, t.keys)
      && (forall i :: 0 <= i < |t.keys| ==> Above(o, lo, t.keys[i]) && Below(o, t.keys[i], hi))
      && forall i :: 0 <= i < |t.children| && i <= |t.keys| ==>
           Rising(o, t.children[i], Lo(t.keys, i, lo), Hi(t.keys, i, hi))
  }

  ghost predicate Gap<K>(o: Config<K>, lo: Bound<K>, hi: Bound<K>) {
    lo.At? && hi.At? ==> o.less(lo.key, hi.key)
  }

  /** The same, leaf by leaf: no leaf lies between two equal separators. */
  ghost predicate Gaps<N, K, V>(o: Config<K>, t: Tree<N, K, V>, lo: Bound<K>, hi: Bound<K>)
    decreases t
  {
    if t.Leaf? then Gap(o, lo, hi)
    else forall i :: 0 <= i < |t.children| && i <= |t.keys| ==>
           Gaps(o, t.children[i], Lo(t.keys, i, lo), Hi(t.keys, i, hi))
  }

  /** `Gap` between all neighbours, `lo` and `hi` included, is strict order throughout. */
  lemma {:induction false} GapsAscend<K(!new)>(o: Config<K>, keys: seq<K>, lo: Bound<K>, hi: Bound<K>)
    requires Good(o) && keys != []
    ensures (forall i :: 0 <= i <= |keys| ==> Gap(o, Lo(keys, i, lo), Hi(keys, i, hi)))
       <==> Ascending(o.less, keys) && (forall i :: 0 <= i < |keys| ==> Above(o, lo, keys[i]) && Below(o, keys[i], hi))
  {
    if forall i :: 0 <= i <= |keys| ==> Gap(o, Lo(keys, i, lo), Hi(keys, i, hi)) {
      forall i, j | 0 <= i < j < |keys|
        ensures o.less(keys[i], keys[j])
      {
        Climb(o, keys, lo, hi, i, j);
      }
      var n := |keys|;
      assert Gap(o, Lo(keys, 0, lo), Hi(keys, 0, hi)) && Gap(o, Lo(keys, n, lo), Hi(keys, n, hi));
      assert Above(o, lo, keys[0]) && Below(o, keys[n - 1], hi);
    }
  }

  lemma {:induction false} Climb<K(!new)>(o: Config<K>, keys: seq<K>, lo: Bound<K>, hi: Bound<K>, i: nat, j: nat)
    requires Good(o) && i < j < |keys|
    requires forall i :: 0 <= i <= |keys| ==> Gap(o, Lo(keys, i, lo), Hi(keys, i, hi))
    ensures o.less(keys[i], keys[j])
    decreases j
  {
    assert Gap(o, Lo(keys, j, lo), Hi(keys, j, hi));
    if i < j - 1 { Climb(o, keys, lo, hi, i, j - 1); }
  }

  lemma {:induction false} RisingHasGaps<N, K(!new), V>(o: Config<K>, t: Tree<N, K, V>, lo: Bound<K>, hi: Bound<K>,
                                                        h: nat, min: int)
    requires Good(o) && Balanced(o.order, t, h, min) && (t.Inner? ==> t.keys != [])
    ensures Gaps(o, t, lo, hi) <==> Rising(o, t, lo, hi) && Gap(o, lo, hi)
    decreases t
  {
    hide StrictTotal;
    if t.Inner? {
      GapsAscend(o, t.keys, lo, hi);
      forall i | 0 <= i <= |t.keys|
        ensures Gaps(o, t.children[i], Lo(t.keys, i, lo), Hi(t.keys, i, hi)) <==>
                Rising(o, t.children[i], Lo(t.keys, i, lo), Hi(t.keys, i, hi)) && Gap(o, Lo(t.keys, i, lo), Hi(t.keys, i, hi))
      {
        RisingHasGaps(o, t.children[i], Lo(t.keys, i, lo), Hi(t.keys, i, hi), h - 1, MinKeys(o.order));
      }
      if Gaps(o, t, lo, hi) { EndsApart(o, t.keys, lo, hi); }
    }
  }

  lemma EndsApart<K(!new)>(o: Config<K>, keys: seq<K>, lo: Bound<K>, hi: Bound<K>)
    requires Good(o) && keys != [] && Above(o, lo, keys[0]) && Below(o, keys[0], hi)
    ensures Gap(o, lo, hi)
  {
  }

  /** With unique keys separators always rise. */
  lemma {:induction false} UniqueRising<N, K(!new), V>(o: Config<K>, t: Tree<N, K, V>, lo: Bound<K>, hi: Bound<K>)
    requires Good(o) && !o.multi && Ordered(o, t, lo, hi)
    ensures Rising(o, t, lo, hi)
    decreases t
  {
    if t.Inner? {
      forall i | 0 <= i <= |t.keys|
        ensures Rising(o, t.children[i], Lo(t.keys, i, lo), Hi(t.keys, i, hi))
      {
        UniqueRising(o, t.children[i], Lo(t.keys, i, lo), Hi(t.keys, i, hi));
      }
    }
  }

  /** The separator below the leaf for `k`. */
  ghost function LowerSeparator<N, K, V>(less: (K, K) -> bool, t: Tree<N, K, V>, lo: Bound<K>, k: K): Bound<K>
    decreases t
  {
    if t.Leaf? then lo
    else
      var i := UpperBound(less, t.keys, k);
      if i < |t.children| then LowerSeparator(less, t.children[i], Lo(t.keys, i, lo), k) else lo
  }

  /** The leaf for `k` is full, and with `k` added the key it promotes is the separator below it. */
  ghost predicate Repeats<N, K, V>(o: Config<K>, t: Tree<N, K, V>, lo: Bound<K>, k: K) {
    var leaf, x := LeafFor(o.less, t, k), LowerSeparator(o.less, t, lo, k);
    && leaf.Leaf? && x.At? && |leaf.keys| == o.order
    && InsertAt(leaf.keys, LowerBound(o.less, leaf.keys, k), k)[o.order / 2] == x.key
  }

  // ---- one level at a time ------------------------------------------------------------

  lemma LeafGaps<N, K(!new), V>(o: Config<K>, t: Tree<N, K, V>, lo: Bound<K>, hi: Bound<K>, sep: K)
    requires Good(o) && t.Leaf? && NotBelow(o, lo, sep) && Below(o, sep, hi)
    ensures Gap(o, lo, At(sep)) && Gap(o, At(sep), hi) <==> Gap(o, lo, hi) && !(lo.At? && lo.key == sep)
  {
  }

  /** Child `j` has gaps only. */
  ghost predicate GapsAt<N, K, V>(o: Config<K>, t: Tree<N, K, V>, lo: Bound<K>, hi: Bound<K>, j: nat)
    requires t.Inner? && |t.children| == |t.keys| + 1 && j <= |t.keys|
  {
    Gaps(o, t.children[j], Lo(t.keys, j, lo), Hi(t.keys, j, hi))
  }

  lemma {:induction false} GapsEach<N, K, V>(o: Config<K>, t: Tree<N, K, V>, lo: Bound<K>, hi: Bound<K>)
    requires t.Inner? && |t.children| == |t.keys| + 1
    ensures Gaps(o, t, lo, hi) <==> forall j :: 0 <= j <= |t.keys| ==> GapsAt(o, t, lo, hi, j)
  {
    if forall j :: 0 <= j <= |t.keys| ==> GapsAt(o, t, lo, hi, j) {
      forall i | 0 <= i < |t.children| && i <= |t.keys|
        ensures Gaps(o, t.children[i], Lo(t.keys, i, lo), Hi(t.keys, i, hi))
      {
        assert GapsAt(o, t, lo, hi, i);
      }
    }
  }

  lemma {:induction false} ChildGaps<N, K, V>(o: Config<K>, t: Tree<N, K, V>, lo: Bound<K>, hi: Bound<K>, i: nat,
                                   c: Tree<N, K, V>)
    requires t.Inner? && i <= |t.keys| && |t.children| == |t.keys| + 1
    ensures Gaps(o, WithChild(t, i, c), lo, hi) <==>
            OtherGaps(o, t, lo, hi, i) && Gaps(o, c, Lo(t.keys, i, lo), Hi(t.keys, i, hi))
    ensures Gaps(o, t, lo, hi) <==>
            OtherGaps(o, t, lo, hi, i) && Gaps(o, t.children[i], Lo(t.keys, i, lo), Hi(t.keys, i, hi))
  {
    var t' := WithChild(t, i, c);
    GapsEach(o, t, lo, hi);
    GapsEach(o, t', lo, hi);
    assert t'.children[i] == c && t'.keys == t.keys;
    assert forall j :: 0 <= j <= |t.keys| && j != i ==> GapsAt(o, t', lo, hi, j) == GapsAt(o, t, lo, hi, j);
    assert GapsAt(o, t', lo, hi, i) == Gaps(o, c, Lo(t.keys, i, lo), Hi(t.keys, i, hi));
    assert GapsAt(o, t, lo, hi, i) == Gaps(o, t.children[i], Lo(t.keys, i, lo), Hi(t.keys, i, hi));
    hide Gaps, GapsAt;
  }

  /** The children of `t` other than `i`. */
  ghost predicate OtherGaps<N, K, V>(o: Config<K>, t: Tree<N, K, V>, lo: Bound<K>, hi: Bound<K>, i: nat)
    requires t.Inner? && |t.children| == |t.keys| + 1
  {
    forall j :: 0 <= j <= |t.keys| && j != i ==> GapsAt(o, t, lo, hi, j)
  }

  lemma SplitGapsAt<N, K, V>(o: Config<K>, t: Tree<N, K, V>, lo: Bound<K>, hi: Bound<K>, i: nat, c1: Tree<N, K, V>, sep: K,
                             c2: Tree<N, K, V>, j: nat)
    requires t.Inner? && i <= |t.keys| && |t.children| == |t.keys| + 1 && j <= |t.keys| + 1
    ensures var t' := WithSplitChild(t, i, c1, sep, c2);
            GapsAt(o, t', lo, hi, j) <==>
              if j < i then GapsAt(o, t, lo, hi, j)
              else if j == i then Gaps(o, c1, Lo(t.keys, i, lo), At(sep))
              else if j == i + 1 then Gaps(o, c2, At(sep), Hi(t.keys, i, hi))
              else GapsAt(o, t, lo, hi, j - 1)
  {
    hide Gaps;
  }

  ghost predicate SplitGaps<N, K, V>(o: Config<K>, t: Tree<N, K, V>, lo: Bound<K>, hi: Bound<K>, i: nat,
                                     c1: Tree<N, K, V>, sep: K, c2: Tree<N, K, V>)
    requires t.Inner? && i <= |t.keys| && |t.children| == |t.keys| + 1
  {
    && OtherGaps(o, t, lo, hi, i)
    && Gaps(o, c1, Lo(t.keys, i, lo), At(sep)) && Gaps(o, c2, At(sep), Hi(t.keys, i, hi))
  }

  lemma {:induction false} SplitChildGapsDown<N, K, V>(o: Config<K>, t: Tree<N, K, V>, lo: Bound<K>, hi: Bound<K>, i: nat,
                                                       c1: Tree<N, K, V>, sep: K, c2: Tree<N, K, V>)
    requires t.Inner? && i <= |t.keys| && |t.children| == |t.keys| + 1
    requires Gaps(o, WithSplitChild(t, i, c1, sep, c2), lo, hi)
    ensures SplitGaps(o, t, lo, hi, i, c1, sep, c2)
  {
    var t' := WithSplitChild(t, i, c1, sep, c2);
    GapsEach(o, t', lo, hi);
    assert |t'.keys| == |t.keys| + 1;
    hide Gaps, GapsAt, Lo, Hi, WithSplitChild;
    SplitGapsAt(o, t, lo, hi, i, c1, sep, c2, i);
    SplitGapsAt(o, t, lo, hi, i, c1, sep, c2, i + 1);
    forall j | 0 <= j <= |t.keys| && j != i
      ensures GapsAt(o, t, lo, hi, j)
    {
      SplitGapsAt(o, t, lo, hi, i, c1, sep, c2, if j < i then j else j + 1);
    }
  }

  lemma {:induction false} SplitChildGapsUp<N, K, V>(o: Config<K>, t: Tree<N, K, V>, lo: Bound<K>, hi: Bound<K>, i: nat,
                                                     c1: Tree<N, K, V>, sep: K, c2: Tree<N, K, V>)
    requires t.Inner? && i <= |t.keys| && |t.children| == |t.keys| + 1 && SplitGaps(o, t, lo, hi, i, c1, sep, c2)
    ensures Gaps(o, WithSplitChild(t, i, c1, sep, c2), lo, hi)
  {
    var t' := WithSplitChild(t, i, c1, sep, c2);
    assert |t'.keys| == |t.keys| + 1;
    GapsEach(o, t', lo, hi);
    hide Gaps, GapsAt, Lo, Hi, WithSplitChild;
    forall j | 0 <= j <= |t'.keys|
      ensures GapsAt(o, t', lo, hi, j)
    {
      SplitGapsAt(o, t, lo, hi, i, c1, sep, c2, j);
    }
  }

  ghost predicate GapsBefore<N, K, V>(o: Config<K>, t: Tree<N, K, V>, lo: Bound<K>, hi: Bound<K>, j: nat)
    requires t.Inner? && |t.children| == |t.keys| + 1 && j <= |t.children|
  {
    forall k :: 0 <= k < j ==> GapsAt(o, t, lo, hi, k)
  }

  ghost predicate GapsFrom<N, K, V>(o: Config<K>, t: Tree<N, K, V>, lo: Bound<K>, hi: Bound<K>, i: nat)
    requires t.Inner? && |t.children| == |t.keys| + 1
  {
    forall k :: i <= k <= |t.keys| ==> GapsAt(o, t, lo, hi, k)
  }

  lemma {:induction false} LeftGaps<N, K, V>(o: Config<K>, t: Tree<N, K, V>, lo: Bound<K>, hi: Bound<K>)
    requires t.Inner? && |t.keys| > 0 && |t.children| == |t.keys| + 1
    ensures var mid := |t.keys| / 2;
            Gaps(o, LeftHalf(t), lo, At(t.keys[mid])) <==> GapsBefore(o, t, lo, hi, mid + 1)
  {
    hide Gaps;
    var mid := |t.keys| / 2;
    var t1, sep := LeftHalf(t), At(t.keys[mid]);
    GapsEach(o, t1, lo, sep);
    assert |t1.keys| == mid;
    assert forall j :: 0 <= j <= mid ==> GapsAt(o, t1, lo, sep, j) == GapsAt(o, t, lo, hi, j);
    if GapsBefore(o, t, lo, hi, mid + 1) {
      forall j | 0 <= j <= mid
        ensures GapsAt(o, t1, lo, sep, j)
      {
        assert GapsAt(o, t, lo, hi, j);
      }
    }
  }

  lemma {:induction false} RightGaps<N, K, V>(o: Config<K>, t: Tree<N, K, V>, lo: Bound<K>, hi: Bound<K>, node: N)
    requires t.Inner? && |t.keys| > 0 && |t.children| == |t.keys| + 1
    ensures var mid := |t.keys| / 2;
            Gaps(o, RightHalf(t, node), At(t.keys[mid]), hi) <==> GapsFrom(o, t, lo, hi, mid + 1)
  {
    hide Gaps;
    var mid := |t.keys| / 2;
    var t2, sep := RightHalf(t, node), At(t.keys[mid]);
    GapsEach(o, t2, sep, hi);
    assert |t2.keys| == |t.keys| - mid - 1;
    assert forall j :: mid < j <= |t.keys| ==> GapsAt(o, t2, sep, hi, j - mid - 1) == GapsAt(o, t, lo, hi, j);
    if GapsFrom(o, t, lo, hi, mid + 1) {
      forall j | 0 <= j <= |t2.keys|
        ensures GapsAt(o, t2, sep, hi, j)
      {
        assert GapsAt(o, t, lo, hi, j + mid + 1);
      }
    }
  }

  lemma HalvesGaps<N, K, V>(o: Config<K>, t: Tree<N, K, V>, lo: Bound<K>, hi: Bound<K>, node: N)
    requires t.Inner? && |t.keys| > 0 && |t.children| == |t.keys| + 1
    ensures var sep := At(t.keys[|t.keys| / 2]);
            Gaps(o, t, lo, hi) <==> Gaps(o, LeftHalf(t), lo, sep) && Gaps(o, RightHalf(t, node), sep, hi)
  {
    hide Gaps, GapsAt, LeftHalf, RightHalf;
    LeftGaps(o, t, lo, hi);
    RightGaps(o, t, lo, hi, node);
    GapsEach(o, t, lo, hi);
  }
}
