/** What the invariants mean for a user of the tree: a map, a sorted bag, and a logarithmic height. */
module TreeLaws {
  import opened Ordering
  import opened TreeShape
  import opened TreeFacts
  import opened InsertSteps
  import opened Separators
  import opened DeleteSteps

  // ---- unique keys: a finite map ------------------------------------------------------

  ghost function ToMap<K, V>(es: seq<(K, V)>): map<K, V> {
    if es == [] then map[] else ToMap(es[..|es| - 1])[es[|es| - 1].0 := es[|es| - 1].1]
  }

  lemma {:induction false} ToMapHas<K(!new), V>(o: Config<K>, es: seq<(K, V)>)
    requires Good(o) && KeysAscending(o, es)
    ensures forall k :: k in ToMap(es) <==> HasKey(es, k)
    ensures forall i :: 0 <= i < |es| ==> es[i].0 in ToMap(es) && ToMap(es)[es[i].0] == es[i].1
  {
    hide KeysNonDescending;
    if es != [] {
      var n := |es| - 1;
      ToMapHas(o, es[..n]);
      forall k
        ensures k in ToMap(es) <==> HasKey(es, k)
      {
        assert es == es[..n] + [es[n]];
        HasKeyAppend(es[..n], [es[n]], k);
        assert HasKey([es[n]], k) <==> k == es[n].0 by {
          assert [es[n]][0].0 == es[n].0;
        }
      }
      forall i | 0 <= i < |es|
        ensures es[i].0 in ToMap(es) && ToMap(es)[es[i].0] == es[i].1
      {
        if i < n {
          assert es[..n][i] == es[i] && o.less(es[i].0, es[n].0);
        }
      }
    }
  }

  lemma {:induction false} ToMapAppend<K, V>(a: seq<(K, V)>, b: seq<(K, V)>)
    ensures ToMap(a + b) == ToMap(a) + ToMap(b)
  {
    if b == [] {
      assert a + b == a;
    } else {
      assert (a + b)[..|a + b| - 1] == a + b[..|b| - 1];
      ToMapAppend(a, b[..|b| - 1]);
    }
  }

  lemma {:induction false} ToMapAround<K, V>(a: seq<(K, V)>, x: (K, V), b: seq<(K, V)>)
    ensures ToMap(a + [x] + b) == ToMap(a) + map[x.0 := x.1] + ToMap(b)
  {
    ToMapAppend(a + [x], b);
    ToMapAppend(a, [x]);
    assert [x][..0] == [];
  }

  /** In an ascending sequence the key at `pos` occurs nowhere else. */
  lemma OnlyAt<K(!new), V>(o: Config<K>, es: seq<(K, V)>, pos: nat)
    requires Good(o) && KeysAscending(o, es) && pos < |es|
    ensures es[pos].0 !in ToMap(es[..pos]) && es[pos].0 !in ToMap(es[pos + 1..])
  {
    var a, b, k := es[..pos], es[pos + 1..], es[pos].0;
    assert forall j :: 0 <= j < |a| ==> a[j] == es[j] && o.less(a[j].0, k);
    assert forall j :: 0 <= j < |b| ==> b[j] == es[pos + 1 + j] && o.less(k, b[j].0);
    ToMapHas(o, a);
    ToMapHas(o, b);
  }

  lemma MapSandwich<K, V>(a: map<K, V>, k: K, v: V, b: map<K, V>)
    requires k !in b
    ensures a + map[k := v] + b == (a + b)[k := v]
    ensures k !in a ==> a + b == (a + map[k := v] + b) - {k}
  {
  }

  lemma {:induction false} InsertIsMapUpdate<K(!new), V>(o: Config<K>, es: seq<(K, V)>, pos: nat, k: K, v: V)
    requires Good(o) && pos <= |es| && KeysAscending(o, InsertAt(es, pos, (k, v)))
    ensures ToMap(InsertAt(es, pos, (k, v))) == ToMap(es)[k := v]
  {
    hide ToMap, StrictTotal, KeysAscending;
    var a, b := es[..pos], es[pos..];
    var es' := InsertAt(es, pos, (k, v));
    OnlyAt(o, es', pos);
    assert es'[pos] == (k, v) && es'[..pos] == a && es'[pos + 1..] == b && es == a + b;
    ToMapAround(a, (k, v), b);
    ToMapAppend(a, b);
    MapSandwich(ToMap(a), k, v, ToMap(b));
  }

  lemma {:induction false} EraseIsMapRemoval<K(!new), V>(o: Config<K>, es: seq<(K, V)>, pos: nat)
    requires Good(o) && KeysAscending(o, es) && pos < |es|
    ensures ToMap(EraseAt(es, pos)) == ToMap(es) - {es[pos].0}
  {
    hide ToMap, StrictTotal, KeysAscending;
    var a, b := es[..pos], es[pos + 1..];
    OnlyAt(o, es, pos);
    assert es == a + [es[pos]] + b;
    ToMapAround(a, es[pos], b);
    ToMapAppend(a, b);
    MapSandwich(ToMap(a), es[pos].0, es[pos].1, ToMap(b));
  }

  lemma OverwriteIsMapUpdate<K(!new), V>(o: Config<K>, es: seq<(K, V)>, pos: nat, v: V)
    requires Good(o) && KeysAscending(o, es) && pos < |es|
    ensures ToMap(es[pos := (es[pos].0, v)]) == ToMap(es)[es[pos].0 := v]
  {
    hide ToMap, StrictTotal, KeysAscending;
    var a, b, x := es[..pos], es[pos + 1..], (es[pos].0, v);
    OnlyAt(o, es, pos);
    assert es == a + [es[pos]] + b && es[pos := x] == a + [x] + b;
    ToMapAround(a, es[pos], b);
    ToMapAround(a, x, b);
    MapSandwich(ToMap(a), es[pos].0, es[pos].1, ToMap(b));
    MapSandwich(ToMap(a), x.0, v, ToMap(b));
  }

  lemma {:induction false} ViewAfterInsert<N, K(!new), V>(o: Config<K>, t: Tree<N, K, V>, es: seq<(K, V)>, pos: nat,
                                                          k: K, v: V)
    requires Good(o) && !o.multi && Ordered(o, t, Open, Open) && pos <= |es| && Entries(t) == InsertAt(es, pos, (k, v))
    ensures ToMap(Entries(t)) == ToMap(es)[k := v]
  {
    OrderedSorted(o, t, Open, Open);
    InsertIsMapUpdate(o, es, pos, k, v);
  }

  lemma ViewAfterErase<N, K(!new), V>(o: Config<K>, t: Tree<N, K, V>, es: seq<(K, V)>, pos: nat)
    requires Good(o) && !o.multi && Ordered(o, t, Open, Open) && pos < |Entries(t)| && es == EraseAt(Entries(t), pos)
    ensures ToMap(es) == ToMap(Entries(t)) - {Entries(t)[pos].0}
  {
    OrderedSorted(o, t, Open, Open);
    EraseIsMapRemoval(o, Entries(t), pos);
  }

  lemma ViewAfterOverwrite<N, K(!new), V>(o: Config<K>, t: Tree<N, K, V>, pos: nat, v: V)
    requires Good(o) && !o.multi && Ordered(o, t, Open, Open) && pos < |Entries(t)|
    ensures ToMap(Entries(t)[pos := (Entries(t)[pos].0, v)]) == ToMap(Entries(t))[Entries(t)[pos].0 := v]
  {
    OrderedSorted(o, t, Open, Open);
    OverwriteIsMapUpdate(o, Entries(t), pos, v);
  }

  lemma ViewHas<N, K(!new), V>(o: Config<K>, t: Tree<N, K, V>, k: K)
    requires Good(o) && !o.multi && Ordered(o, t, Open, Open)
    ensures k in ToMap(Entries(t)) <==> HasKey(Entries(t), k)
  {
    OrderedSorted(o, t, Open, Open);
    ToMapHas(o, Entries(t));
  }

  lemma ViewFinds<N, K(!new), V>(o: Config<K>, t: Tree<N, K, V>, k: K, v: V)
    requires Good(o) && !o.multi && Ordered(o, t, Open, Open) && (k, v) in Entries(t)
    ensures k in ToMap(Entries(t)) && ToMap(Entries(t))[k] == v
  {
    OrderedSorted(o, t, Open, Open);
    ToMapHas(o, Entries(t));
  }

  // ---- height -------------------------------------------------------------------------

  function Pow(b: nat, e: nat): nat {
    if e == 0 then 1 else b * Pow(b, e - 1)
  }

  lemma Grow(m: nat, p: nat, n: nat)
    requires n >= m + 1
    ensures n * (m * p) >= m * ((m + 1) * p)
  {
  }

  lemma OneMore(n: nat, x: nat)
    ensures (n + 1) * x == n * x + x
  {
  }

  /** Below a non-root node the number of entries grows geometrically with the height. */
  lemma {:induction false} EntriesAtLeast<N, K, V>(order: nat, t: Tree<N, K, V>, h: nat)
    requires Balanced(order, t, h, MinKeys(order))
    ensures |Entries(t)| >= MinKeys(order) * Pow(MinKeys(order) + 1, h)
    decreases t, 0
  {
    if t.Inner? {
      var m := MinKeys(order);
      CatAtLeast(order, t.children, h - 1);
      Grow(m, Pow(m + 1, h - 1), |t.children|);
    }
  }

  lemma {:induction false} CatAtLeast<N, K, V>(order: nat, cs: seq<Tree<N, K, V>>, h: nat)
    requires forall i :: 0 <= i < |cs| ==> Balanced(order, cs[i], h, MinKeys(order))
    ensures |Cat(cs)| >= |cs| * (MinKeys(order) * Pow(MinKeys(order) + 1, h))
    decreases cs, 1
  {
    hide MinKeys, Pow;
    if cs != [] {
      EntriesAtLeast(order, cs[0], h);
      CatAtLeast(order, cs[1..], h);
      OneMore(|cs| - 1, MinKeys(order) * Pow(MinKeys(order) + 1, h));
    }
  }

  lemma AtLeastTwice(n: nat, x: nat)
    requires n >= 2
    ensures n * x >= 2 * x
  {
  }

  /** Logarithmic height: a root above `h` levels of nodes holds at least 2 * MinKeys * (MinKeys + 1)^(h - 1) entries. */
  lemma HeightIsLogarithmic<N, K, V>(order: nat, t: Tree<N, K, V>, h: nat)
    requires Balanced(order, t, h, RootMin(h)) && h >= 1
    ensures |Entries(t)| >= 2 * (MinKeys(order) * Pow(MinKeys(order) + 1, h - 1))
  {
    CatAtLeast(order, t.children, h - 1);
    AtLeastTwice(|t.children|, MinKeys(order) * Pow(MinKeys(order) + 1, h - 1));
  }

  // ---- repeated keys ------------------------------------------------------------------

  /** A node holds at most half an order of copies of its upper separator, and none when keys are unique. */
  lemma FewCopies<K(!new)>(o: Config<K>, keys: seq<K>, lo: Bound<K>, sep: K)
    requires Good(o) && Fits(o, keys, lo, At(sep))
    ensures multiset(keys)[sep] <= Copies(o)
  {
    var n, c := |keys|, Copies(o);
    if n > c {
      var a, b := keys[..n - c], keys[n - c..];
      assert keys == a + b;
      forall i | 0 <= i < |a|
        ensures a[i] != sep
      {
        assert i < n - 1 - c ==> !o.less(keys[n - 1 - c], keys[i]);
      }
      assert sep !in a;
      AtMostAll(b, sep);
    } else {
      AtMostAll(keys, sep);
    }
  }

  lemma {:induction false} AtMostAll<T>(s: seq<T>, x: T)
    ensures multiset(s)[x] <= |s|
  {
  }

  /** Equal keys do not make separators rise: if only `k` is stored, every separator is `k`. */
  lemma {:induction false} OneKeyManySeparators<N, K(!new), V>(o: Config<K>, t: Tree<N, K, V>, lo: Bound<K>,
                                                               hi: Bound<K>, h: nat, min: int, k: K)
    requires Good(o) && o.multi && t.Inner? && Ordered(o, t, lo, hi) && Balanced(o.order, t, h, min)
    requires forall e <- Entries(t) :: e.0 == k
    ensures forall i :: 0 <= i < |t.keys| ==> t.keys[i] == k
  {
    forall i | 0 <= i < |t.keys|
      ensures t.keys[i] == k
    {
      var c := t.children[i + 1];
      StartsWithSeparator(o, c, h - 1, MinKeys(o.order), t.keys[i], Hi(t.keys, i + 1, hi));
      CatAround(t.children, i + 1);
      assert Entries(c)[0] in Entries(t);
    }
  }

  /** More copies of one key than two leaves hold: somewhere a separator repeats. */
  lemma {:induction false} CopiesRepeatSeparators<N, K(!new), V>(o: Config<K>, t: Tree<N, K, V>, h: nat, k: K)
    requires Good(o) && o.multi && Ordered(o, t, Open, Open) && Balanced(o.order, t, h, RootMin(h))
    requires (forall e <- Entries(t) :: e.0 == k) && |Entries(t)| > 2 * o.order
    ensures !Rising(o, t, Open, Open)
  {
    OneKeyManySeparators(o, t, Open, Open, h, RootMin(h), k);
    var low, high := t.children[0], t.children[1];
    if |t.keys| == 1 {
      assert t.children == [low, high];
      CatTwo(low, high);
      assert h > 1;
      CatAround(t.children, 1);
      OneKeyManySeparators(o, high, At(k), Open, h - 1, MinKeys(o.order), k);
      assert !Above(o, At(k), high.keys[0]);
      assert !Rising(o, high, Lo(t.keys, 1, Open), Hi(t.keys, 1, Open));
    } else {
      assert !o.less(t.keys[0], t.keys[1]);
    }
  }
}
