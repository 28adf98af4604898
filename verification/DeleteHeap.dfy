/** Why the heap still holds the tree after a deletion step has moved things between nodes. */
module DeleteHeap {
  import opened Ordering
  import opened TreeShape
  import opened InsertSteps
  import opened DeleteSteps
  import opened TreeHeap
  import opened DeleteShape

  ghost predicate PairStored<K, V>(p: Pair<Node<K, V>, K, V>, end: Node?<K, V>)
    reads Nodes(p.left), Nodes(p.right)
  {
    Stored(p.left, First(p.right)) && Stored(p.right, end)
  }

  /** What is stored below the two nodes, whatever the nodes themselves hold. */
  ghost predicate BelowStored<K, V>(p: Pair<Node<K, V>, K, V>, end: Node?<K, V>)
    reads if p.left.Inner? then NodesOf(p.left.children) else {}, if p.right.Inner? then NodesOf(p.right.children) else {}
  {
    p.left.Inner? && p.right.Inner? ==> AllStored(p.left.children, First(p.right)) && AllStored(p.right.children, end)
  }

  ghost predicate Linked<K, V>(p: Pair<Node<K, V>, K, V>, end: Node?<K, V>)
    reads p.left.node, p.right.node
  {
    p.left.Leaf? && p.right.Leaf? ==> p.left.node.next == p.right.node && p.right.node.next == end
  }

  lemma TakeFromLeftStored<K, V>(p: Pair<Node<K, V>, K, V>, end: Node?<K, V>)
    requires Matched(p) && p.left.keys != [] && BelowStored(p, end)
    requires var q := TakeFromLeft(p); Top(q.left) && Top(q.right) && Linked(q, end)
    ensures PairStored(TakeFromLeft(p), end) && First(TakeFromLeft(p).left) == First(p.left)
  {
    if p.left.Inner? {
      var a, x, b := Init(p.left.children), Last(p.left.children), p.right.children;
      assert p.left.children == a + [x];
      AllStoredAppend(a, [x], First(p.right));
      AllStoredAppend([x], b, end);
      assert [x][1..] == [];
    }
  }

  lemma TakeFromRightStored<K, V>(p: Pair<Node<K, V>, K, V>, end: Node?<K, V>)
    requires Matched(p) && |p.right.keys| > 1 && BelowStored(p, end)
    requires var q := TakeFromRight(p); Top(q.left) && Top(q.right) && Linked(q, end)
    ensures PairStored(TakeFromRight(p), end) && First(TakeFromRight(p).left) == First(p.left)
  {
    if p.left.Inner? {
      var a, x, b := p.left.children, p.right.children[0], p.right.children[1..];
      assert p.right.children == [x] + b;
      AllStoredAppend([x], b, end);
      AllStoredAppend(a, [x], Start(b, end));
      assert [x][1..] == [];
    }
  }

  lemma MergedStored<K, V>(p: Pair<Node<K, V>, K, V>, end: Node?<K, V>)
    requires Matched(p) && BelowStored(p, end) && Top(Merged(p))
    requires p.left.Leaf? ==> p.left.node.next == end
    ensures Stored(Merged(p), end) && First(Merged(p)) == First(p.left)
  {
    if p.left.Inner? {
      AllStoredAppend(p.left.children, p.right.children, end);
    }
  }

  lemma WithPairStored<K, V>(t: Shape<K, V>, i: nat, q: Pair<Node<K, V>, K, V>, end: Node?<K, V>)
    requires t.Inner? && i < |t.keys| && |t.children| == |t.keys| + 1 && Top(WithPair(t, i, q))
    requires PairStored(q, Start(t.children[i + 2..], end)) && First(q.left) == First(t.children[i])
    requires AllStored(t.children[..i], First(t.children[i])) && AllStored(t.children[i + 2..], end)
    ensures Stored(WithPair(t, i, q), end) && First(WithPair(t, i, q)) == First(t)
  {
    var m := [q.left, q.right];
    var e := Start(t.children[i + 2..], end);
    assert m[1..] == [q.right] && m[1..][1..] == [];
    assert AllStored(m[1..], e);
    assert AllStored(m, e);
    StoredRuns(WithPair(t, i, q), t.children[..i], m, t.children[i + 2..], end);
  }

  lemma MergedPointers<K, V>(t: Shape<K, V>, i: nat, c: Shape<K, V>)
    requires t.Inner? && Top(t) && i < |t.keys| && |t.children| == |t.keys| + 1 && c.node == t.children[i].node
    ensures var ns, cs := EraseAt(t.node.children, i + 1), WithMerged(t, i, c).children;
            |ns| == |cs| && forall j :: 0 <= j < |cs| ==> ns[j] == cs[j].node
  {
  }

  lemma WithMergedStored<K, V>(t: Shape<K, V>, i: nat, c: Shape<K, V>, end: Node?<K, V>)
    requires t.Inner? && i < |t.keys| && |t.children| == |t.keys| + 1 && Top(WithMerged(t, i, c))
    requires Stored(c, Start(t.children[i + 2..], end)) && First(c) == First(t.children[i])
    requires AllStored(t.children[..i], First(t.children[i])) && AllStored(t.children[i + 2..], end)
    ensures Stored(WithMerged(t, i, c), end) && First(WithMerged(t, i, c)) == First(t)
  {
    var m := [c];
    assert m[1..] == [];
    StoredRuns(WithMerged(t, i, c), t.children[..i], m, t.children[i + 2..], end);
  }

  /** The parts of a stored node around two neighbouring children. */
  lemma {:induction false} AroundPair<K, V>(t: Shape<K, V>, i: nat, end: Node?<K, V>)
    requires t.Inner? && Stored(t, end) && Apart(t) && i < |t.keys| && |t.children| == |t.keys| + 1 &&
             Matched(PairAt(t, i))
    ensures var p, a, b := PairAt(t, i), t.children[..i], t.children[i + 2..];
            && PairStored(p, Start(b, end)) && BelowStored(p, Start(b, end)) && Linked(p, Start(b, end))
            && AllStored(a, First(p.left)) && AllStored(b, end)
  {
    var p, a, b := PairAt(t, i), t.children[..i], t.children[i + 2..];
    var m := [p.left, p.right];
    assert t.children == a + m + b;
    StoredRuns(t, a, m, b, end);
    assert m[1..] == [p.right] && m[1..][1..] == [];
  }

  lemma AroundPairApart<N, K, V>(t: Tree<N, K, V>, i: nat)
    requires t.Inner? && Apart(t) && i < |t.keys| && |t.children| == |t.keys| + 1
    ensures var p, a, b := PairAt(t, i), t.children[..i], t.children[i + 2..];
            && PairApart(p) && NodesOf(a) !! Nodes(p.left) && NodesOf(a) !! Nodes(p.right)
            && NodesOf(b) !! Nodes(p.left) && NodesOf(b) !! Nodes(p.right)
            && t.node !in NodesOf(a) && t.node !in NodesOf(b) && t.node !in Nodes(p.left) && t.node !in Nodes(p.right)
            && Nodes(p.left) <= Nodes(t) && Nodes(p.right) <= Nodes(t)
  {
    var m := [t.children[i], t.children[i + 1]];
    assert t.children == t.children[..i] + m + t.children[i + 2..];
    ApartRuns(t.children[..i], m, t.children[i + 2..]);
    ApartTwo(t.children[i], t.children[i + 1]);
  }

  lemma {:induction false} AllStoredTops<K, V>(cs: seq<Shape<K, V>>, end: Node?<K, V>)
    requires AllStored(cs, end)
    ensures forall i :: 0 <= i < |cs| ==> Top(cs[i])
  {
    if cs != [] { AllStoredTops(cs[1..], end); }
  }

  lemma SiblingsStored<K, V>(t: Shape<K, V>, end: Node?<K, V>)
    requires t.Inner? && Stored(t, end)
    ensures |t.node.children| == |t.children|
    ensures forall i :: 0 <= i < |t.children| ==> t.node.children[i] == t.children[i].node && t.node.children[i].keys == t.children[i].keys
  {
    AllStoredTops(t.children, end);
  }

  lemma SiblingsMatch<N, K, V>(order: nat, t: Tree<N, K, V>, h: nat, i: nat)
    requires Even(order) && Lopsided(order, t, h, i)
    ensures forall j :: 0 <= j < |t.keys| ==> Matched(PairAt(t, j))
  {
  }
}
