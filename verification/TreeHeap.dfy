/** How a tree value is laid out in heap nodes, leaf chain included. */
module TreeHeap {
  import opened Ordering
  import opened TreeShape
  import opened InsertSteps

  class Node<K, V> {
    var isLeaf: bool
    var keys: seq<K>
    var values: seq<V>
    var children: seq<Node<K, V>>
    var next: Node?<K, V>

    constructor (isLeaf: bool)
      ensures this.isLeaf == isLeaf && keys == [] && values == [] && children == [] && next == null
    {
      this.isLeaf := isLeaf;
      keys, values, children, next := [], [], [], null;
    }
  }

  type Shape<K, V> = Tree<Node<K, V>, K, V>

  // Nodes, Apart and Stored below each come with a twin on a run of siblings.

  ghost function Nodes<N, K, V>(t: Tree<N, K, V>): set<N>
    decreases t, 0
  {
    {t.node} + if t.Leaf? then {} else NodesOf(t.children)
  }

  ghost function NodesOf<N, K, V>(cs: seq<Tree<N, K, V>>): set<N>
    decreases cs, 1
  {
    if cs == [] then {} else Nodes(cs[0]) + NodesOf(cs[1..])
  }

  /** No heap node is used twice. */
  ghost predicate Apart<N, K, V>(t: Tree<N, K, V>)
    decreases t, 0
  {
    t.Inner? ==> t.node !in NodesOf(t.children) && AllApart(t.children)
  }

  ghost predicate AllApart<N, K, V>(cs: seq<Tree<N, K, V>>)
    decreases cs, 1
  {
    cs != [] ==> Apart(cs[0]) && Nodes(cs[0]) !! NodesOf(cs[1..]) && AllApart(cs[1..])
  }

  lemma {:induction false} NodesOfAppend<N, K, V>(a: seq<Tree<N, K, V>>, b: seq<Tree<N, K, V>>)
    ensures NodesOf(a + b) == NodesOf(a) + NodesOf(b)
  {
    if a == [] {
      assert a + b == b;
    } else {
      assert (a + b)[1..] == a[1..] + b;
      NodesOfAppend(a[1..], b);
    }
  }

  lemma {:induction false} AllApartAppend<N, K, V>(a: seq<Tree<N, K, V>>, b: seq<Tree<N, K, V>>)
    ensures AllApart(a + b) <==> AllApart(a) && AllApart(b) && NodesOf(a) !! NodesOf(b)
  {
    if a == [] {
      assert a + b == b;
    } else {
      assert (a + b)[1..] == a[1..] + b;
      NodesOfAppend(a[1..], b);
      AllApartAppend(a[1..], b);
    }
  }

  lemma ApartRuns<N, K, V>(a: seq<Tree<N, K, V>>, m: seq<Tree<N, K, V>>, b: seq<Tree<N, K, V>>)
    ensures NodesOf(a + m + b) == NodesOf(a) + NodesOf(m) + NodesOf(b)
    ensures AllApart(a + m + b) <==> (AllApart(a) && AllApart(m) && AllApart(b)
      && NodesOf(a) !! NodesOf(m) && (NodesOf(a) + NodesOf(m)) !! NodesOf(b))
  {
    AllApartAppend(a + m, b);
    AllApartAppend(a, m);
    NodesOfAppend(a + m, b);
    NodesOfAppend(a, m);
  }

  /** A run of children `m` gives way to `m'`, which uses the same nodes and freshly allocated ones (`extra`). */
  lemma {:induction false} ApartSwap<N, K, V>(t: Tree<N, K, V>, t': Tree<N, K, V>, a: seq<Tree<N, K, V>>,
                                              m: seq<Tree<N, K, V>>,
                           m': seq<Tree<N, K, V>>, b: seq<Tree<N, K, V>>, extra: set<N>)
    requires t.Inner? && t'.Inner? && t.node == t'.node && t.children == a + m + b && t'.children == a + m' + b
    requires Apart(t) && AllApart(m') && NodesOf(m') <= NodesOf(m) + extra && extra !! Nodes(t)
    ensures Apart(t') && Nodes(t') <= Nodes(t) + extra
  {
    ApartRuns(a, m, b);
    ApartRuns(a, m', b);
  }

  lemma {:induction false} ChildrenApart<N, K, V>(t: Tree<N, K, V>, i: nat)
    requires t.Inner? && Apart(t) && i < |t.children|
    ensures var a, c, b := t.children[..i], t.children[i], t.children[i + 1..];
            && Apart(c) && t.node !in Nodes(c) && t.node !in NodesOf(a) && t.node !in NodesOf(b)
            && NodesOf(a) !! Nodes(c) && NodesOf(b) !! Nodes(c) && NodesOf(a) !! NodesOf(b)
            && Nodes(t) == {t.node} + NodesOf(a) + Nodes(c) + NodesOf(b)
  {
    var m := [t.children[i]];
    assert t.children == t.children[..i] + m + t.children[i + 1..];
    ApartRuns(t.children[..i], m, t.children[i + 1..]);
  }

  /** The leftmost leaf. */
  ghost function First<N, K, V>(t: Tree<N, K, V>): N {
    if t.Leaf? || t.children == [] then t.node else First(t.children[0])
  }

  ghost function Start<K, V>(cs: seq<Shape<K, V>>, end: Node?<K, V>): Node?<K, V> {
    if cs == [] then end else First(cs[0])
  }

  /** The fields of the top node agree with `t`. */
  ghost predicate Top<K, V>(t: Shape<K, V>)
    reads t.node
  {
    && t.node.keys == t.keys
    && match t
       case Leaf(n, _, values) => n.isLeaf && n.values == values
       case Inner(n, _, children) =>
         && !n.isLeaf && |n.children| == |children|
         && forall i :: 0 <= i < |children| ==> n.children[i] == children[i].node
  }

  /** The heap holds `t`; its leaves are chained through `next` and the last one points to `end`. */
  ghost predicate Stored<K, V>(t: Shape<K, V>, end: Node?<K, V>)
    reads Nodes(t)
    decreases t, 0
  {
    Top(t) && if t.Leaf? then t.node.next == end else AllStored(t.children, end)
  }

  ghost predicate AllStored<K, V>(cs: seq<Shape<K, V>>, end: Node?<K, V>)
    reads NodesOf(cs)
    decreases cs, 1
  {
    cs != [] ==> Stored(cs[0], Start(cs[1..], end)) && AllStored(cs[1..], end)
  }

  lemma {:induction false} AllStoredAppend<K, V>(a: seq<Shape<K, V>>, b: seq<Shape<K, V>>, end: Node?<K, V>)
    ensures AllStored(a + b, end) <==> AllStored(a, Start(b, end)) && AllStored(b, end)
  {
    if a == [] {
      assert a + b == b;
    } else {
      assert (a + b)[1..] == a[1..] + b;
      AllStoredAppend(a[1..], b, end);
    }
  }

  /** A stored node's children split into stored runs, and back. */
  lemma {:induction false} StoredRuns<K, V>(t: Shape<K, V>, a: seq<Shape<K, V>>, m: seq<Shape<K, V>>,
                                            b: seq<Shape<K, V>>, end: Node?<K, V>)
    requires t.Inner? && t.children == a + m + b && m != [] && Top(t)
    ensures Stored(t, end) <==> AllStored(a, First(m[0])) && AllStored(m, Start(b, end)) && AllStored(b, end)
  {
    assert t.children == a + (m + b);
    AllStoredAppend(a, m + b, end);
    AllStoredAppend(m, b, end);
  }

  lemma StoredWithChild<K, V>(t: Shape<K, V>, i: nat, c: Shape<K, V>, end: Node?<K, V>)
    requires t.Inner? && Top(t) && i < |t.children| && c.node == t.children[i].node && First(c) == First(t.children[i])
    requires Stored(c, Start(t.children[i + 1..], end))
    requires AllStored(t.children[..i], First(c)) && AllStored(t.children[i + 1..], end)
    ensures Stored(WithChild(t, i, c), end) && First(WithChild(t, i, c)) == First(t)
  {
    var m := [c];
    assert m[1..] == [];
    StoredRuns(WithChild(t, i, c), t.children[..i], m, t.children[i + 1..], end);
  }

  lemma StoredHalves<K, V>(t: Shape<K, V>, node: Node<K, V>, end: Node?<K, V>)
    requires t.Inner? && 0 < |t.keys| && |t.children| == |t.keys| + 1
    requires Top(LeftHalf(t)) && Top(RightHalf(t, node)) && AllStored(t.children, end)
    ensures Stored(LeftHalf(t), First(RightHalf(t, node))) && Stored(RightHalf(t, node), end)
    ensures First(LeftHalf(t)) == First(t)
  {
    var l, r := LeftHalf(t), RightHalf(t, node);
    assert t.children == l.children + r.children;
    AllStoredAppend(l.children, r.children, end);
  }

  lemma ApartWithChild<N, K, V>(t: Tree<N, K, V>, i: nat, c: Tree<N, K, V>, extra: set<N>)
    requires t.Inner? && Apart(t) && i < |t.children| && Apart(c)
    requires Nodes(c) <= Nodes(t.children[i]) + extra && extra !! Nodes(t)
    ensures Apart(WithChild(t, i, c)) && Nodes(WithChild(t, i, c)) <= Nodes(t) + extra
  {
    var m, m' := [t.children[i]], [c];
    assert m[0] == t.children[i] && m'[0] == c;
    ApartSwap(t, WithChild(t, i, c), t.children[..i], m, m', t.children[i + 1..], extra);
  }

  lemma ApartSplitChild<N, K, V>(t: Tree<N, K, V>, i: nat, c1: Tree<N, K, V>, sep: K, c2: Tree<N, K, V>, extra: set<N>)
    requires t.Inner? && Apart(t) && i <= |t.keys| && |t.children| == |t.keys| + 1
    requires Apart(c1) && Apart(c2) && Nodes(c1) !! Nodes(c2)
    requires Nodes(c1) + Nodes(c2) <= Nodes(t.children[i]) + extra && extra !! Nodes(t)
    ensures Apart(WithSplitChild(t, i, c1, sep, c2)) && Nodes(WithSplitChild(t, i, c1, sep, c2)) <= Nodes(t) + extra
  {
    var m, m' := [t.children[i]], [c1, c2];
    assert m[0] == t.children[i] && m'[0] == c1 && m'[1] == c2;
    ApartSwap(t, WithSplitChild(t, i, c1, sep, c2), t.children[..i], m, m', t.children[i + 1..], extra);
  }

  lemma ApartHalves<N, K, V>(t: Tree<N, K, V>, node: N)
    requires t.Inner? && Apart(t) && 0 < |t.keys| && |t.children| == |t.keys| + 1 && node !in Nodes(t)
    ensures var l, r := LeftHalf(t), RightHalf(t, node);
            Apart(l) && Apart(r) && Nodes(l) !! Nodes(r) && Nodes(l) + Nodes(r) <= Nodes(t) + {node}
  {
    var l, r := LeftHalf(t), RightHalf(t, node);
    assert t.children == l.children + r.children;
    assert AllApart(t.children) && Nodes(t) == {t.node} + NodesOf(t.children);
    AllApartAppend(l.children, r.children);
    NodesOfAppend(l.children, r.children);
    assert Nodes(l) == {t.node} + NodesOf(l.children) && Nodes(r) == {node} + NodesOf(r.children);
  }

  lemma {:induction false} NodesAllocated<K, V>(t: Shape<K, V>)
    ensures allocated(Nodes(t))
    decreases t, 0
  {
    if t.Inner? { NodesOfAllocated(t.children); }
  }

  lemma {:induction false} NodesOfAllocated<K, V>(cs: seq<Shape<K, V>>)
    ensures allocated(NodesOf(cs))
    decreases cs, 1
  {
    if cs != [] {
      NodesAllocated(cs[0]);
      NodesOfAllocated(cs[1..]);
    }
  }

  /** What an operation below child `i` finds, and cannot disturb. */
  lemma AroundChild<K, V>(t: Shape<K, V>, i: nat, end: Node?<K, V>)
    requires t.Inner? && Apart(t) && Stored(t, end) && i < |t.children|
    ensures var a, c, b := t.children[..i], t.children[i], t.children[i + 1..];
            && Stored(c, Start(b, end)) && AllStored(a, First(c)) && AllStored(b, end)
            && t.node.children[i] == c.node && t.node !in Nodes(c) && Nodes(c) <= Nodes(t)
            && NodesOf(a) !! Nodes(c) && NodesOf(b) !! Nodes(c)
            && allocated(NodesOf(a)) && allocated(NodesOf(b))
  {
    ChildrenApart(t, i);
    var m := [t.children[i]];
    assert m[1..] == [];
    StoredRuns(t, t.children[..i], m, t.children[i + 1..], end);
    NodesOfAllocated(t.children[..i]);
    NodesOfAllocated(t.children[i + 1..]);
  }
}
