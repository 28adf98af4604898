/** What the invariants say about the entries of a tree as a whole. */
module TreeFacts {
  import opened Ordering
  import opened TreeShape

  ghost predicate HasKey<K, V>(es: seq<(K, V)>, k: K) {
    exists i :: 0 <= i < |es| && es[i].0 == k
  }

  ghost function KeysOf<K, V>(es: seq<(K, V)>): (ks: seq<K>)
    ensures |ks| == |es| && forall i :: 0 <= i < |es| ==> ks[i] == es[i].0
  {
    seq(|es|, i requires 0 <= i < |es| => es[i].0)
  }

  ghost predicate KeysAscending<K, V>(o: Config<K>, es: seq<(K, V)>) {
    forall i, j :: 0 <= i < j < |es| ==> o.less(es[i].0, es[j].0)
  }

  ghost predicate KeysNonDescending<K, V>(o: Config<K>, es: seq<(K, V)>) {
    forall i, j :: 0 <= i < j < |es| ==> !o.less(es[j].0, es[i].0)
  }

  ghost predicate KeysSorted<K, V>(o: Config<K>, es: seq<(K, V)>) {
    if o.multi then KeysNonDescending(o, es) else KeysAscending(o, es)
  }

  /** All entry keys respect the separators around the subtree. */
  ghost predicate Within<K, V>(o: Config<K>, es: seq<(K, V)>, lo: Bound<K>, hi: Bound<K>) {
    forall e <- es :: NotBelow(o, lo, e.0) && NotAbove(o, e.0, hi) && (!o.multi ==> Below(o, e.0, hi))
  }

  /** Two runs that meet at a separator join into one run. */
  lemma SortedJoin<K(!new), V>(o: Config<K>, a: seq<(K, V)>, b: seq<(K, V)>, lo: Bound<K>, sep: K, hi: Bound<K>)
    requires Good(o) && KeysSorted(o, a) && KeysSorted(o, b)
    requires Within(o, a, lo, At(sep)) && Within(o, b, At(sep), hi)
    requires NotBelow(o, lo, sep) && NotAbove(o, sep, hi) && (!o.multi ==> Below(o, sep, hi))
    ensures KeysSorted(o, a + b) && Within(o, a + b, lo, hi)
  {
  }

  lemma {:induction false} OrderedSorted<N, K(!new), V>(o: Config<K>, t: Tree<N, K, V>, lo: Bound<K>, hi: Bound<K>)
    requires Good(o) && Ordered(o, t, lo, hi)
    ensures KeysSorted(o, Entries(t)) && Within(o, Entries(t), lo, hi)
    decreases t, |t.keys| + 1
  {
    match t
    case Leaf(_, _, _) =>
    case Inner(_, _, cs) =>
      SuffixSorted(o, t, lo, hi, 0);
      assert cs[0..] == cs;
  }

  lemma {:induction false} SuffixSorted<N, K(!new), V>(o: Config<K>, t: Tree<N, K, V>, lo: Bound<K>, hi: Bound<K>,
                                                       i: nat)
    requires Good(o) && t.Inner? && Ordered(o, t, lo, hi) && i <= |t.keys|
    ensures KeysSorted(o, Cat(t.children[i..])) && Within(o, Cat(t.children[i..]), Lo(t.keys, i, lo), hi)
    decreases t, |t.keys| - i
  {
    var cs := t.children;
    OrderedSorted(o, cs[i], Lo(t.keys, i, lo), Hi(t.keys, i, hi));
    if i < |t.keys| {
      SuffixSorted(o, t, lo, hi, i + 1);
      assert cs[i..][1..] == cs[i + 1..];
      SortedJoin(o, Entries(cs[i]), Cat(cs[i + 1..]), Lo(t.keys, i, lo), t.keys[i], hi);
    } else {
      assert cs[i..] == [cs[i]];
    }
  }

  lemma {:induction false} PrefixWithin<N, K(!new), V>(o: Config<K>, t: Tree<N, K, V>, lo: Bound<K>, hi: Bound<K>,
                                                       i: nat)
    requires Good(o) && t.Inner? && Ordered(o, t, lo, hi) && 0 < i <= |t.keys|
    ensures Within(o, Cat(t.children[..i]), lo, At(t.keys[i - 1]))
  {
    var cs := t.children;
    assert cs[..i] == cs[..i - 1] + [cs[i - 1]];
    CatAppend(cs[..i - 1], [cs[i - 1]]);
    OrderedSorted(o, cs[i - 1], Lo(t.keys, i - 1, lo), At(t.keys[i - 1]));
    if i > 1 {
      PrefixWithin(o, t, lo, hi, i - 1);
    }
  }

  /** With repeated keys, a subtree right of a separator starts with that separator. */
  lemma {:induction false} StartsWithSeparator<N, K(!new), V>(o: Config<K>, t: Tree<N, K, V>, h: nat, min: int,
                                                              sep: K, hi: Bound<K>)
    requires Good(o) && o.multi && Ordered(o, t, At(sep), hi) && Balanced(o.order, t, h, min)
    ensures Entries(t) != [] && Entries(t)[0].0 == sep
  {
    match t
    case Leaf(_, _, _) =>
    case Inner(_, keys, cs) =>
      StartsWithSeparator(o, cs[0], h - 1, MinKeys(o.order), sep, Hi(keys, 0, hi));
  }

  lemma HasKeyAppend<K, V>(a: seq<(K, V)>, b: seq<(K, V)>, k: K)
    ensures HasKey(a + b, k) <==> HasKey(a, k) || HasKey(b, k)
  {
    if HasKey(a, k) {
      var i :| 0 <= i < |a| && a[i].0 == k;
      assert (a + b)[i].0 == k;
    }
    if HasKey(b, k) {
      var i :| 0 <= i < |b| && b[i].0 == k;
      assert (a + b)[|a| + i].0 == k;
    }
  }

  lemma NotToTheRight<N, K(!new), V>(o: Config<K>, t: Tree<N, K, V>, lo: Bound<K>, hi: Bound<K>, k: K, i: nat)
    requires Good(o) && t.Inner? && Ordered(o, t, lo, hi)
    requires i <= |t.keys| && (i < |t.keys| ==> o.less(k, t.keys[i]))
    ensures !HasKey(Cat(t.children[i + 1..]), k)
  {
    hide StrictTotal, Fits, Above;
    if i < |t.keys| {
      SuffixSorted(o, t, lo, hi, i + 1);
      var b := Cat(t.children[i + 1..]);
      forall j | 0 <= j < |b| ensures b[j].0 != k { assert b[j] in b; }
    }
  }

  lemma LeftMeansHere<N, K(!new), V>(o: Config<K>, t: Tree<N, K, V>, lo: Bound<K>, hi: Bound<K>, h: nat, min: int, k: K)
    requires Good(o) && t.Inner? && Ordered(o, t, lo, hi) && Balanced(o.order, t, h, min)
    requires HasKey(Cat(t.children[..UpperBound(o.less, t.keys, k)]), k)
    ensures HasKey(Entries(t.children[UpperBound(o.less, t.keys, k)]), k)
  {
    var i := UpperBound(o.less, t.keys, k);
    var a := Cat(t.children[..i]);
    var j :| 0 <= j < |a| && a[j].0 == k;
    assert a[j] in a;
    PrefixWithin(o, t, lo, hi, i);
    StartsWithSeparator(o, t.children[i], h - 1, MinKeys(o.order), k, Hi(t.keys, i, hi));
  }

  /** Descending to the upper-bound child loses no search key and invents no entry. */
  lemma {:induction false} KeyDescends<N, K(!new), V>(o: Config<K>, t: Tree<N, K, V>, lo: Bound<K>, hi: Bound<K>,
                                                      h: nat, min: int, k: K)
    requires Good(o) && t.Inner? && Ordered(o, t, lo, hi) && Balanced(o.order, t, h, min)
    ensures var i := UpperBound(o.less, t.keys, k);
            && (HasKey(Entries(t), k) <==> HasKey(Entries(t.children[i]), k))
            && (forall e <- Entries(t.children[i]) :: e in Entries(t))
  {
    var cs := t.children;
    var i := UpperBound(o.less, t.keys, k);
    var a, m, b := Cat(cs[..i]), Entries(cs[i]), Cat(cs[i + 1..]);
    CatAround(cs, i);
    HasKeyAppend(a + m, b, k);
    HasKeyAppend(a, m, k);
    NotToTheRight(o, t, lo, hi, k, i);
    if HasKey(a, k) {
      LeftMeansHere(o, t, lo, hi, h, min, k);
    }
  }

  // ---- ranges -------------------------------------------------------------------------

  /** The values of the entries whose key is in [lower, upper], in entry order. */
  ghost function RangeValues<K, V>(less: (K, K) -> bool, es: seq<(K, V)>, lower: K, upper: K): seq<V> {
    if es == [] then [] else
      var last := es[|es| - 1];
      RangeValues(less, es[..|es| - 1], lower, upper)
        + if !less(last.0, lower) && !less(upper, last.0) then [last.1] else []
  }

  lemma {:induction false} NothingBeyond<K(!new), V>(o: Config<K>, es: seq<(K, V)>, m: nat, lower: K, upper: K)
    requires Good(o) && KeysAscending(o, es) && m < |es| && o.less(upper, es[m].0)
    ensures RangeValues(o.less, es, lower, upper) == RangeValues(o.less, es[..m], lower, upper)
  {
    var n := |es| - 1;
    if m < n {
      NothingBeyond(o, es[..n], m, lower, upper);
      assert es[..n][..m] == es[..m];
    }
  }

  lemma {:induction false} NothingBelow<K(!new), V>(less: (K, K) -> bool, es: seq<(K, V)>, lower: K, upper: K)
    requires forall e <- es :: less(e.0, lower)
    ensures RangeValues(less, es, lower, upper) == []
  {
    if es != [] {
      NothingBelow(less, es[..|es| - 1], lower, upper);
      assert es[|es| - 1] in es;
    }
  }

  lemma {:induction false} RangeAppend<K, V>(less: (K, K) -> bool, a: seq<(K, V)>, b: seq<(K, V)>, lower: K, upper: K)
    ensures RangeValues(less, a + b, lower, upper) == RangeValues(less, a, lower, upper) + RangeValues(less, b, lower, upper)
    decreases |b|
  {
    if b == [] {
      assert a + b == a;
    } else {
      assert (a + b)[..|a + b| - 1] == a + b[..|b| - 1];
      RangeAppend(less, a, b[..|b| - 1], lower, upper);
    }
  }

  lemma {:induction false} NothingAbove<K, V>(less: (K, K) -> bool, es: seq<(K, V)>, lower: K, upper: K)
    requires forall i :: 0 <= i < |es| ==> less(upper, es[i].0)
    ensures RangeValues(less, es, lower, upper) == []
  {
    if es != [] { NothingAbove(less, es[..|es| - 1], lower, upper); }
  }

  lemma {:induction false} AllInside<K, V>(less: (K, K) -> bool, es: seq<(K, V)>, lower: K, upper: K)
    requires forall i :: 0 <= i < |es| ==> !less(es[i].0, lower) && !less(upper, es[i].0)
    ensures ValuesAre(RangeValues(less, es, lower, upper), es)
  {
    if es != [] { AllInside(less, es[..|es| - 1], lower, upper); }
  }

  /** The values of these pairs, in their order. */
  ghost predicate ValuesAre<K, V>(values: seq<V>, es: seq<(K, V)>) {
    |values| == |es| && forall i :: 0 <= i < |values| ==> values[i] == es[i].1
  }

  /** Where the two bounds cut a rising sequence. */
  lemma {:induction false} BoundsCut<K(!new), V>(o: Config<K>, es: seq<(K, V)>, lower: K, upper: K, i: nat, j: nat)
    requires Good(o) && KeysAscending(o, es)
    requires i == LowerBound(o.less, KeysOf(es), lower) && j == UpperBound(o.less, KeysOf(es), upper)
    ensures forall m :: 0 <= m < |es| ==> (o.less(es[m].0, lower) <==> m < i) && (o.less(upper, es[m].0) <==> j <= m)
  {
    var ks := KeysOf(es);
    forall m | 0 <= m < |es|
      ensures (o.less(es[m].0, lower) <==> m < i) && (o.less(upper, es[m].0) <==> j <= m)
    {
      assert ks[m] == es[m].0;
      assert i < m ==> o.less(ks[i], ks[m]);
      assert j < m ==> o.less(ks[j], ks[m]);
    }
  }

  lemma {:induction false} RangeBetween<K(!new), V>(less: (K, K) -> bool, es: seq<(K, V)>, lower: K, upper: K, i: nat, j: nat)
    requires i <= |es| && j <= |es|
    requires forall m :: 0 <= m < |es| ==> (less(es[m].0, lower) <==> m < i) && (less(upper, es[m].0) <==> j <= m)
    ensures ValuesAre(RangeValues(less, es, lower, upper), if i <= j then es[i..j] else [])
  {
    hide RangeValues;
    var n := if i <= j then i else j;
    var a, m, b := es[..n], es[n..j], es[j..];
    assert es == a + (m + b);
    RangeAppend(less, a, m + b, lower, upper);
    RangeAppend(less, m, b, lower, upper);
    NothingBelow(less, a, lower, upper);
    AllInside(less, m, lower, upper);
    NothingAbove(less, b, lower, upper);
  }

  /** Everything from the lower bound's first position up to the upper bound's last, and nothing else. */
  lemma {:induction false} RangeIsSlice<K(!new), V>(o: Config<K>, es: seq<(K, V)>, lower: K, upper: K)
    requires Good(o) && KeysAscending(o, es)
    ensures var i, j := LowerBound(o.less, KeysOf(es), lower), UpperBound(o.less, KeysOf(es), upper);
            ValuesAre(RangeValues(o.less, es, lower, upper), if i <= j then es[i..j] else [])
  {
    hide StrictTotal, KeysAscending, RangeValues, ValuesAre;
    var i, j := LowerBound(o.less, KeysOf(es), lower), UpperBound(o.less, KeysOf(es), upper);
    BoundsCut(o, es, lower, upper, i, j);
    RangeBetween(o.less, es, lower, upper, i, j);
  }
}
