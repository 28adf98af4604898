/** The leaves of a tree as the linked chain that range scans walk. */
module TreeChain {
  import opened Ordering
  import opened TreeShape
  import opened TreeFacts
  import opened TreeHeap

  ghost function LeafSeq<N, K, V>(t: Tree<N, K, V>): seq<Tree<N, K, V>>
    decreases t, 0
  {
    if t.Leaf? then [t] else LeavesOf(t.children)
  }

  ghost function LeavesOf<N, K, V>(cs: seq<Tree<N, K, V>>): seq<Tree<N, K, V>>
    decreases cs, 1
  {
    if cs == [] then [] else LeafSeq(cs[0]) + LeavesOf(cs[1..])
  }

  lemma {:induction false} LeavesOfAppend<N, K, V>(a: seq<Tree<N, K, V>>, b: seq<Tree<N, K, V>>)
    ensures LeavesOf(a + b) == LeavesOf(a) + LeavesOf(b)
  {
    if a == [] {
      assert a + b == b;
    } else {
      assert (a + b)[1..] == a[1..] + b;
      LeavesOfAppend(a[1..], b);
    }
  }

  lemma {:induction false} ChainEntries<N, K, V>(t: Tree<N, K, V>)
    ensures Cat(LeafSeq(t)) == Entries(t)
    decreases t, 0
  {
    if t.Leaf? {
      assert LeafSeq(t)[1..] == [];
    } else {
      ChainEntriesOf(t.children);
    }
  }

  lemma {:induction false} ChainEntriesOf<N, K, V>(cs: seq<Tree<N, K, V>>)
    ensures Cat(LeavesOf(cs)) == Cat(cs)
    decreases cs, 1
  {
    if cs != [] {
      ChainEntries(cs[0]);
      ChainEntriesOf(cs[1..]);
      CatAppend(LeafSeq(cs[0]), LeavesOf(cs[1..]));
    }
  }

  /** Every inner node has a child and every leaf as many values as keys. */
  ghost predicate Rooted<N, K, V>(t: Tree<N, K, V>)
    decreases t, 0
  {
    if t.Leaf? then |t.values| == |t.keys| else t.children != [] && AllRooted(t.children)
  }

  ghost predicate AllRooted<N, K, V>(cs: seq<Tree<N, K, V>>)
    decreases cs, 1
  {
    cs != [] ==> Rooted(cs[0]) && AllRooted(cs[1..])
  }

  lemma {:induction false} BalancedRooted<N, K, V>(order: nat, t: Tree<N, K, V>, h: nat, min: int)
    requires Balanced(order, t, h, min)
    ensures Rooted(t)
    decreases t, 0
  {
    if t.Inner? {
      BalancedAllRooted(order, t.children, h - 1);
    }
  }

  lemma {:induction false} BalancedAllRooted<N, K, V>(order: nat, cs: seq<Tree<N, K, V>>, h: nat)
    requires forall i :: 0 <= i < |cs| ==> Balanced(order, cs[i], h, MinKeys(order))
    ensures AllRooted(cs)
    decreases cs, 1
  {
    if cs != [] {
      BalancedRooted(order, cs[0], h, MinKeys(order));
      BalancedAllRooted(order, cs[1..], h);
    }
  }

  lemma {:induction false} FirstLeaf<N, K, V>(t: Tree<N, K, V>)
    requires Rooted(t)
    ensures LeafSeq(t) != [] && LeafSeq(t)[0].node == First(t) && First(LeafSeq(t)[0]) == First(t)
    ensures forall i :: 0 <= i < |LeafSeq(t)| ==> LeafSeq(t)[i].Leaf? && |LeafSeq(t)[i].values| == |LeafSeq(t)[i].keys|
    decreases t, 0
  {
    if t.Inner? {
      FirstLeaf(t.children[0]);
      AllLeaves(t.children);
    }
  }

  lemma {:induction false} AllLeaves<N, K, V>(cs: seq<Tree<N, K, V>>)
    requires AllRooted(cs)
    ensures forall i :: 0 <= i < |LeavesOf(cs)| ==> LeavesOf(cs)[i].Leaf? && |LeavesOf(cs)[i].values| == |LeavesOf(cs)[i].keys|
    ensures cs != [] ==> LeavesOf(cs) != []
    decreases cs, 1
  {
    if cs != [] {
      FirstLeaf(cs[0]);
      AllLeaves(cs[1..]);
    }
  }

  /** In the heap the leaves of a stored tree form one chain. */
  lemma {:induction false} StoredChain<K, V>(t: Shape<K, V>, end: Node?<K, V>)
    requires Stored(t, end) && Rooted(t)
    ensures AllStored(LeafSeq(t), end) && Start(LeafSeq(t), end) == First(t)
    decreases t, 0
  {
    FirstLeaf(t);
    if t.Leaf? {
      assert LeafSeq(t)[1..] == [];
    } else {
      AllStoredChain(t.children, end);
    }
  }

  lemma {:induction false} AllStoredChain<K, V>(cs: seq<Shape<K, V>>, end: Node?<K, V>)
    requires AllStored(cs, end) && AllRooted(cs)
    ensures AllStored(LeavesOf(cs), end) && Start(LeavesOf(cs), end) == Start(cs, end)
    decreases cs, 1
  {
    if cs != [] {
      StoredChain(cs[0], Start(cs[1..], end));
      AllStoredChain(cs[1..], end);
      AllStoredAppend(LeafSeq(cs[0]), LeavesOf(cs[1..]), end);
      FirstLeaf(cs[0]);
    }
  }

  // ---- descending to a leaf -----------------------------------------------------------

  /** A search for `k` in `t` has narrowed to `s`, with the leaves `a` to its left and `b` to its right. */
  ghost predicate Descent<N, K(!new), V>(o: Config<K>, t: Tree<N, K, V>, k: K, s: Tree<N, K, V>,
                                         a: seq<Tree<N, K, V>>, b: seq<Tree<N, K, V>>) {
    && LeafSeq(t) == a + LeafSeq(s) + b
    && (HasKey(Entries(t), k) <==> HasKey(Entries(s), k))
    && (!o.multi ==> forall e <- Cat(a) :: o.less(e.0, k))
  }

  /** Where a descent stands: a subtree, the leaves around it, its separators, height, minimum and chain end. */
  datatype Spot<K, V> = Spot(s: Shape<K, V>, a: seq<Shape<K, V>>, b: seq<Shape<K, V>>, lo: Bound<K>, hi: Bound<K>,
                             h: nat, min: int, end: Node?<K, V>)

  ghost predicate Descending<K(!new), V>(o: Config<K>, t: Shape<K, V>, k: K, p: Spot<K, V>) {
    && Descent(o, t, k, p.s, p.a, p.b) && LeafFor(o.less, p.s, k) == LeafFor(o.less, t, k)
    && Ordered(o, p.s, p.lo, p.hi) && Balanced(o.order, p.s, p.h, p.min)
  }

  ghost function Down<K, V>(o: Config<K>, p: Spot<K, V>, i: nat): Spot<K, V>
    requires p.s.Inner? && i < |p.s.children| && i <= |p.s.keys| && p.h > 0
  {
    var cs := p.s.children;
    Spot(cs[i], p.a + LeavesOf(cs[..i]), LeavesOf(cs[i + 1..]) + p.b, Lo(p.s.keys, i, p.lo), Hi(p.s.keys, i, p.hi),
         p.h - 1, MinKeys(o.order), Start(cs[i + 1..], p.end))
  }

  lemma DescendOnce<K(!new), V>(o: Config<K>, t: Shape<K, V>, k: K, p: Spot<K, V>, i: nat)
    requires Good(o) && Descending(o, t, k, p) && p.s.Inner? && i == UpperBound(o.less, p.s.keys, k) &&
             Stored(p.s, p.end)
    ensures i < |p.s.children| == |p.s.keys| + 1 && p.h > 0
    ensures Descending(o, t, k, Down(o, p, i)) && Stored(p.s.children[i], Start(p.s.children[i + 1..], p.end))
  {
    hide StrictTotal, Descent;
    DescentStep(o, t, k, p.s, p.a, p.b, p.lo, p.hi, p.h, p.min, i);
    var m := [p.s.children[i]];
    StoredRuns(p.s, p.s.children[..i], m, p.s.children[i + 1..], p.end);
  }

  lemma {:induction false} DescentStep<N, K(!new), V>(o: Config<K>, t: Tree<N, K, V>, k: K, s: Tree<N, K, V>,
                                                      a: seq<Tree<N, K, V>>, b: seq<Tree<N, K, V>>,
                                   lo: Bound<K>, hi: Bound<K>, h: nat, min: int, i: nat)
    requires Good(o) && Descent(o, t, k, s, a, b) && s.Inner? && Ordered(o, s, lo, hi) && Balanced(o.order, s, h, min)
    requires i == UpperBound(o.less, s.keys, k)
    ensures Descent(o, t, k, s.children[i], a + LeavesOf(s.children[..i]), LeavesOf(s.children[i + 1..]) + b)
  {
    KeyDescends(o, s, lo, hi, h, min, k);
    var l, m, r := LeavesOf(s.children[..i]), LeafSeq(s.children[i]), LeavesOf(s.children[i + 1..]);
    assert LeafSeq(t) == (a + l) + m + (r + b) by {
      LeavesAround(s.children, i);
      Regroup(a, l, m, r, b);
    }
    CatAppend(a, l);
    if !o.multi {
      LeftLeavesBelow(o, s, k, lo, hi, i);
    }
  }

  lemma Regroup<T>(a: seq<T>, l: seq<T>, m: seq<T>, r: seq<T>, b: seq<T>)
    ensures a + (l + m + r) + b == (a + l) + m + (r + b)
  {
  }

  lemma {:induction false} LeavesAround<N, K, V>(cs: seq<Tree<N, K, V>>, i: nat)
    requires i < |cs|
    ensures LeavesOf(cs) == LeavesOf(cs[..i]) + LeafSeq(cs[i]) + LeavesOf(cs[i + 1..])
  {
    assert cs == cs[..i] + cs[i..];
    LeavesOfAppend(cs[..i], cs[i..]);
    assert cs[i..][1..] == cs[i + 1..];
  }

  lemma LeftLeavesBelow<N, K(!new), V>(o: Config<K>, s: Tree<N, K, V>, k: K, lo: Bound<K>, hi: Bound<K>, i: nat)
    requires Good(o) && !o.multi && s.Inner? && Ordered(o, s, lo, hi) && i <= |s.keys|
    requires forall j :: 0 <= j < i ==> !o.less(k, s.keys[j])
    ensures forall e <- Cat(LeavesOf(s.children[..i])) :: o.less(e.0, k)
  {
    ChainEntriesOf(s.children[..i]);
    if i > 0 {
      PrefixWithin(o, s, lo, hi, i);
    }
  }

  /** In a sorted leaf, lower_bound finds the key if it is there. */
  lemma LowerBoundFinds<N, K(!new), V>(o: Config<K>, s: Tree<N, K, V>, lo: Bound<K>, hi: Bound<K>, k: K, i: nat)
    requires Good(o) && s.Leaf? && |s.values| == |s.keys| && Ordered(o, s, lo, hi) && i == LowerBound(o.less, s.keys, k)
    ensures HasKey(Entries(s), k) <==> i < |s.keys| && s.keys[i] == k
  {
    hide KeysAscending, NotBelow;
    var es := Entries(s);
    assert |es| == |s.keys| && forall j :: 0 <= j < |es| ==> es[j].0 == s.keys[j];
    if HasKey(es, k) {
      var j :| 0 <= j < |es| && es[j].0 == k;
      assert !o.less(s.keys[j], k);
      assert i < j ==> !o.less(s.keys[j], s.keys[i]);
    } else if i < |s.keys| {
      assert es[i].0 == s.keys[i];
    }
  }

  lemma LeafEntries<N, K, V>(t: Tree<N, K, V>, s: Tree<N, K, V>, a: seq<Tree<N, K, V>>, b: seq<Tree<N, K, V>>)
    requires s.Leaf? && LeafSeq(t) == a + [s] + b
    ensures Entries(t) == Cat(a) + Entries(s) + Cat(b)
  {
    ChainEntries(t);
    CatAppend(a + [s], b);
    CatAppend(a, [s]);
    CatOne(s);
  }

  /** Where leaf `j`'s entries start among all of them. */
  lemma LeafOffset<N, K, V>(t: Tree<N, K, V>, j: nat)
    requires Rooted(t) && j < |LeafSeq(t)|
    ensures var l, es, m := LeafSeq(t), Entries(t), |Cat(LeafSeq(t)[..j])|;
            && m + |l[j].keys| <= |es| && es[..m] == Cat(l[..j]) && Cat(l[..j + 1]) == es[..m + |l[j].keys|]
            && l[j].Leaf? && |l[j].values| == |l[j].keys|
            && forall i :: 0 <= i < |l[j].keys| ==> es[m + i] == (l[j].keys[i], l[j].values[i])
  {
    ChainEntries(t);
    FirstLeaf(t);
    var l := LeafSeq(t);
    CatAround(l, j);
    assert l[..j + 1] == l[..j] + [l[j]];
    CatAppend(l[..j], [l[j]]);
    CatOne(l[j]);
  }

  /** The chain from leaf `j` on, as a scan sees it. */
  ghost predicate ChainAt<K, V>(t: Shape<K, V>, j: nat, current: Node?<K, V>)
    reads if j <= |LeafSeq(t)| then NodesOf(LeafSeq(t)[j..]) else {}
  {
    j <= |LeafSeq(t)| && current == Start(LeafSeq(t)[j..], null) && AllStored(LeafSeq(t)[j..], null)
  }

  lemma ChainFrom<K, V>(t: Shape<K, V>, a: seq<Shape<K, V>>, b: seq<Shape<K, V>>)
    requires Stored(t, null) && Rooted(t) && LeafSeq(t) == a + b
    ensures LeafSeq(t)[..|a|] == a && LeafSeq(t)[|a|..] == b && ChainAt(t, |a|, Start(b, null))
  {
    StoredChain(t, null);
    AllStoredAppend(a, b, null);
  }

  /** The entries in `current` are `es[m..]`'s first ones. */
  ghost predicate Window<K, V>(current: Node<K, V>, es: seq<(K, V)>, m: nat)
    reads current
  {
    && |current.values| == |current.keys| && m + |current.keys| <= |es|
    && forall i :: 0 <= i < |current.keys| ==> es[m + i] == (current.keys[i], current.values[i])
  }

  lemma ChainStep<K, V>(t: Shape<K, V>, j: nat, current: Node<K, V>) returns (m: nat)
    requires Rooted(t) && ChainAt(t, j, current)
    ensures j < |LeafSeq(t)| && Window(current, Entries(t), m) && ChainAt(t, j + 1, current.next)
    ensures Cat(LeafSeq(t)[..j]) == Entries(t)[..m] && Cat(LeafSeq(t)[..j + 1]) == Entries(t)[..m + |current.keys|]
  {
    FirstLeaf(t);
    var rest := LeafSeq(t)[j..];
    assert rest != [] && rest[0] == LeafSeq(t)[j] && rest[1..] == LeafSeq(t)[j + 1..];
    assert First(rest[0]) == rest[0].node && Stored(rest[0], Start(rest[1..], null));
    LeafOffset(t, j);
    m := |Cat(LeafSeq(t)[..j])|;
  }
}
