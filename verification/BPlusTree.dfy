module BPlusTrees {
  import opened Ordering
  import opened TreeShape
  import opened TreeFacts
  import opened InsertSteps
  import opened Separators
  import opened TreeHeap
  import opened TreeChain
  import opened TreeUpdate
  import opened DeleteSteps
  import opened DeleteShape
  import opened DeleteHeap
  import opened TreeLaws
  import opened InsertGrowth

  class BPlusTree<K(!new, ==), V> {
    const less: (K, K) -> bool
    const order: nat
    ghost const multi: bool
    var root: Node<K, V>
    ghost var shape: Shape<K, V>
    ghost var height: nat

    ghost function Cfg(): Config<K> {
      Config(less, order, multi)
    }

    ghost predicate Valid()
      reads this, Nodes(shape)
    {
      && Good(Cfg()) && root == shape.node && Stored(shape, null) && Apart(shape)
      && Ordered(Cfg(), shape, Open, Open) && Balanced(order, shape, height, RootMin(height))
    }

    /** The stored pairs in leaf order. */
    ghost function Contents(): seq<(K, V)>
      reads this
    {
      Entries(shape)
    }

    /** With unique keys: the finite map the tree stands for. */
    ghost function View(): map<K, V>
      reads this
    {
      ToMap(Contents())
    }

    /** In every inner node the separators rise strictly, strictly between those around the node. */
    ghost predicate SeparatorsRise()
      reads this
    {
      Rising(Cfg(), shape, Open, Open)
    }

    /** The leaf for `k` is full and would promote the separator it already stands behind. */
    ghost predicate PromotesAgain(k: K)
      reads this
    {
      Repeats(Cfg(), shape, Open, k)
    }

    lemma RisingIsGaps()
      requires Valid()
      ensures SeparatorsRise() <==> Gaps(Cfg(), shape, Open, Open)
    {
      hide StrictTotal, Ordered, Stored, Apart, Rising, Gaps;
      RisingHasGaps(Cfg(), shape, Open, Open, height, RootMin(height));
    }

    /** With unique keys the separators always rise. */
    lemma UniqueSeparatorsRise()
      requires Valid() && !multi
      ensures SeparatorsRise()
    {
      UniqueRising(Cfg(), shape, Open, Open);
    }

    /** The keys of the map are the stored keys. */
    lemma ViewHasKeys()
      requires Valid() && !multi
      ensures forall k :: k in View() <==> HasKey(Contents(), k)
    {
      forall k ensures k in View() <==> HasKey(Contents(), k) { ViewHas(Cfg(), shape, k); }
    }

    constructor (less: (K, K) -> bool, order: nat, ghost multi: bool)
      requires Good(Config(less, order, multi))
      ensures Valid() && fresh(Nodes(shape)) && Contents() == [] && SeparatorsRise()
      ensures this.less == less && this.order == order && this.multi == multi
    {
      this.less, this.order, this.multi := less, order, multi;
      var leaf := new Node<K, V>(true);
      root, shape, height := leaf, Leaf(leaf, [], []), 0;
    }

    // ---- Insert -----------------------------------------------------------------------

    /** The leaf half of InsertInternal up to the size test. */
    method PutInLeaf(current: Node<K, V>, k: K, v: V, ghost t: Shape<K, V>, ghost end: Node?<K, V>) returns (index: nat)
      requires t.Leaf? && current == t.node && |t.values| == |t.keys| && Stored(t, end)
      modifies current
      ensures index == LowerBound(less, t.keys, k) && Stored(LeafWith(t, index, k, v), end)
    {
      index := LowerBound(less, current.keys, k);
      current.keys := InsertAt(current.keys, index, k);
      current.values := InsertAt(current.values, index, v);
    }

    static method SplitLeaf(current: Node<K, V>, ghost t: Shape<K, V>, ghost end: Node?<K, V>)
      returns (sep: K, newLeaf: Node<K, V>)
      requires t.Leaf? && current == t.node && |t.values| == |t.keys| > 0 && Stored(t, end)
      modifies current
      ensures fresh(newLeaf) && sep == t.keys[|t.keys| / 2]
      ensures Stored(LeftHalf(t), newLeaf) && Stored(RightHalf(t, newLeaf), end)
    {
      var mid := |current.keys| / 2;
      newLeaf := new Node(true);
      newLeaf.keys := current.keys[mid..];
      newLeaf.values := current.values[mid..];
      current.values := current.values[..mid];
      current.keys := current.keys[..mid];
      newLeaf.next := current.next;
      current.next := newLeaf;
      sep := newLeaf.keys[0];
    }

    method InsertIntoLeaf(current: Node<K, V>, k: K, v: V, ghost t: Shape<K, V>, ghost end: Node?<K, V>,
                          ghost lo: Bound<K>, ghost hi: Bound<K>, ghost min: int)
      returns (res: Option<(K, Node<K, V>)>, ghost g: Growth<K, V>, ghost pos: nat)
      requires t.Leaf? && current == t.node && Stored(t, end) && Insertable(Cfg(), t, lo, hi, 0, min, k)
      modifies current
      ensures Inserted(Cfg(), t, g, lo, hi, 0, min, k, v, pos) && GrownInHeap(g, First(t), end)
      ensures g.Top() == current && (forall x <- g.Used() :: x == current || fresh(x))
      ensures res == g.Promoted()
    {
      hide StrictTotal, Ordered, Fits, Repeats, Gaps;
      pos := PutInLeaf(current, k, v, t, end);
      ghost var t' := LeafWith(t, pos, k, v);
      if |current.keys| > order {
        var sep, newLeaf := SplitLeaf(current, t', end);
        LeafOverflows(Cfg(), t, lo, hi, min, k, v, pos, newLeaf);
        g := Halves(t', newLeaf);
        res := Some((sep, newLeaf));
      } else {
        LeafGrows(Cfg(), t, lo, hi, min, k, v, pos);
        g := One(t');
        res := None;
      }
    }

    static method SplitInner(current: Node<K, V>, ghost t: Shape<K, V>, ghost end: Node?<K, V>)
      returns (sep: K, newInternal: Node<K, V>)
      requires t.Inner? && current == t.node && |t.children| == |t.keys| + 1 && |t.keys| > 0 && Stored(t, end) &&
               Apart(t)
      modifies current
      ensures fresh(newInternal) && sep == t.keys[|t.keys| / 2]
      ensures GrownInHeap(Halves(t, newInternal), First(t), end)
    {
      NodesAllocated(t);
      var mid := |current.keys| / 2;
      sep := current.keys[mid];
      newInternal := new Node(false);
      newInternal.keys := current.keys[mid + 1..];
      newInternal.children := current.children[mid + 1..];
      current.keys := current.keys[..mid];
      current.children := current.children[..mid + 1];
      StoredHalves(t, newInternal, end);
    }

    /** The heap write that puts a promoted key and its child into `current`. */
    method PutInInner(current: Node<K, V>, promoteKey: K, newChild: Node<K, V>, ghost t: Shape<K, V>,
                      ghost end: Node?<K, V>,
                      ghost i: nat, ghost g: Growth<K, V>)
      requires t.Inner? && current == t.node && |t.children| == |t.keys| + 1 && g.Two?
      requires i == UpperBound(less, t.keys, promoteKey) && promoteKey == g.sep && newChild == g.right.node
      requires ChildGrownInHeap(t, i, g, end)
      requires current !in g.Used() && current !in NodesOf(t.children[..i]) && current !in NodesOf(t.children[i + 1..])
      modifies current
      ensures var t' := WithSplitChild(t, i, g.left, g.sep, g.right); Stored(t', end) && First(t') == First(t)
    {
      hide StrictTotal, Stored, AllStored;
      var pos := UpperBound(less, current.keys, promoteKey);
      SplitChildPointers(t, i, g);
      current.keys := InsertAt(current.keys, pos, promoteKey);
      current.children := InsertAt(current.children, pos + 1, newChild);
      SplitChildStored(t, i, g, end);
    }

    /** A full node takes one key more and splits. */
    method Overflow(current: Node<K, V>, ghost t: Shape<K, V>, ghost end: Node?<K, V>,
                    ghost lo: Bound<K>, ghost hi: Bound<K>, ghost h: nat, ghost min: int, ghost k: K, ghost v: V,
                    ghost i: nat, ghost gc: Growth<K, V>, ghost p: nat, ghost pos: nat, ghost extra: set<Node<K, V>>)
      returns (res: Option<(K, Node<K, V>)>, ghost g: Growth<K, V>)
      requires current == t.node && ChildInserted(Cfg(), t, lo, hi, h, min, k, v, i, gc, p, pos, extra) && gc.Two? &&
               |t.keys| == order
      requires Stored(WithSplitChild(t, i, gc.left, gc.sep, gc.right), end)
      modifies current
      ensures Inserted(Cfg(), t, g, lo, hi, h, min, k, v, pos)
      ensures GrownInHeap(g, First(WithSplitChild(t, i, gc.left, gc.sep, gc.right)), end)
      ensures g.Top() == current && (forall x <- g.Used() :: x in Nodes(t) || x in extra || fresh(x))
      ensures res == g.Promoted()
    {
      hide StrictTotal, Ordered, Apart, Inserted;
      ghost var t' := WithSplitChild(t, i, gc.left, gc.sep, gc.right);
      ChildSplits(Cfg(), t, lo, hi, h, min, k, v, i, gc, p, pos, extra);
      NodesAllocated(t);
      var sep, newInternal := SplitInner(current, t', end);
      ParentSplits(Cfg(), t, lo, hi, h, min, k, v, i, gc, p, pos, extra, newInternal);
      g := Halves(t', newInternal);
      res := Some((sep, newInternal));
    }

    method AddChild(current: Node<K, V>, promoteKey: K, newChild: Node<K, V>, ghost t: Shape<K, V>,
                    ghost end: Node?<K, V>,
                    ghost lo: Bound<K>, ghost hi: Bound<K>, ghost h: nat, ghost min: int, ghost k: K, ghost v: V,
                    ghost i: nat, ghost gc: Growth<K, V>, ghost p: nat, ghost pos: nat, ghost extra: set<Node<K, V>>)
      returns (res: Option<(K, Node<K, V>)>, ghost g: Growth<K, V>)
      requires current == t.node && ChildInserted(Cfg(), t, lo, hi, h, min, k, v, i, gc, p, pos, extra)
      requires gc.Two? && promoteKey == gc.sep && newChild == gc.right.node && ChildGrownInHeap(t, i, gc, end)
      modifies current
      ensures Inserted(Cfg(), t, g, lo, hi, h, min, k, v, pos) && GrownInHeap(g, First(t), end)
      ensures g.Top() == current && (forall x <- g.Used() :: x in Nodes(t) || x in extra || fresh(x))
      ensures res == g.Promoted()
    {
      ChildSplits(Cfg(), t, lo, hi, h, min, k, v, i, gc, p, pos, extra);
      ChildrenApart(t, i);
      PutInInner(current, promoteKey, newChild, t, end, i, gc);
      if |current.keys| > order {
        res, g := Overflow(current, t, end, lo, hi, h, min, k, v, i, gc, p, pos, extra);
      } else {
        ParentHasRoom(Cfg(), t, lo, hi, h, min, k, v, i, gc, p, pos, extra);
        g := One(WithSplitChild(t, i, gc.left, gc.sep, gc.right));
        res := None;
      }
    }

    /** The part of InsertInternal after the recursive call. */
    method AfterChild(current: Node<K, V>, r: Option<(K, Node<K, V>)>, ghost t: Shape<K, V>, ghost end: Node?<K, V>,
                      ghost lo: Bound<K>, ghost hi: Bound<K>, ghost h: nat, ghost min: int, ghost k: K, ghost v: V,
                      ghost i: nat, ghost gc: Growth<K, V>, ghost p: nat, ghost pos: nat, ghost extra: set<Node<K, V>>)
      returns (res: Option<(K, Node<K, V>)>, ghost g: Growth<K, V>)
      requires current == t.node && ChildInserted(Cfg(), t, lo, hi, h, min, k, v, i, gc, p, pos, extra)
      requires r == gc.Promoted() && ChildGrownInHeap(t, i, gc, end)
      modifies current
      ensures Inserted(Cfg(), t, g, lo, hi, h, min, k, v, pos) && GrownInHeap(g, First(t), end)
      ensures g.Top() == current && (forall x <- g.Used() :: x in Nodes(t) || x in extra || fresh(x))
      ensures res == g.Promoted()
    {
      if r.Some? {
        res, g := AddChild(current, r.value.0, r.value.1, t, end, lo, hi, h, min, k, v, i, gc, p, pos, extra);
      } else {
        g := One(WithChild(t, i, gc.t));
        ChildAbsorbs(Cfg(), t, lo, hi, h, min, k, v, i, gc.t, p, pos, extra);
        StoredWithChild(t, i, gc.t, end);
        res := None;
      }
    }

    method InsertInternal(current: Node<K, V>, k: K, v: V, ghost t: Shape<K, V>, ghost end: Node?<K, V>,
                          ghost lo: Bound<K>, ghost hi: Bound<K>, ghost h: nat, ghost min: int)
      returns (res: Option<(K, Node<K, V>)>, ghost g: Growth<K, V>, ghost pos: nat)
      requires current == t.node && Stored(t, end) && Insertable(Cfg(), t, lo, hi, h, min, k)
      modifies Nodes(t)
      ensures Inserted(Cfg(), t, g, lo, hi, h, min, k, v, pos) && GrownInHeap(g, First(t), end)
      ensures g.Top() == current && (forall x <- g.Used() :: x in Nodes(t) || fresh(x))
      ensures res == g.Promoted()
      decreases t, 1
    {
      if current.isLeaf {
        res, g, pos := InsertIntoLeaf(current, k, v, t, end, lo, hi, min);
      } else {
        res, g, pos := InsertIntoInner(current, k, v, t, end, lo, hi, h, min);
      }
    }

    method InsertIntoInner(current: Node<K, V>, k: K, v: V, ghost t: Shape<K, V>, ghost end: Node?<K, V>,
                           ghost lo: Bound<K>, ghost hi: Bound<K>, ghost h: nat, ghost min: int)
      returns (res: Option<(K, Node<K, V>)>, ghost g: Growth<K, V>, ghost pos: nat)
      requires t.Inner? && current == t.node && Stored(t, end) && Insertable(Cfg(), t, lo, hi, h, min, k)
      modifies Nodes(t)
      ensures Inserted(Cfg(), t, g, lo, hi, h, min, k, v, pos) && GrownInHeap(g, First(t), end)
      ensures g.Top() == current && (forall x <- g.Used() :: x in Nodes(t) || fresh(x))
      ensures res == g.Promoted()
      decreases t, 0
    {
      hide Balanced, Fits;
      NodesAllocated(t);
      var index := UpperBound(less, current.keys, k);
      var child := current.children[index];
      ghost var c, b := t.children[index], t.children[index + 1..];
      InsertDescends(Cfg(), t, lo, hi, h, min, k, index);
      ChildrenApart(t, index);
      StoredRuns(t, t.children[..index], [c], b, end);
      var r, gc, p := InsertInternal(child, k, v, c, Start(b, end), Lo(t.keys, index, lo), Hi(t.keys, index, hi), h - 1, MinKeys(order));
      pos := |Cat(t.children[..index])| + p;
      res, g := AfterChild(current, r, t, end, lo, hi, h, min, k, v, index, gc, p, pos, gc.Used() - Nodes(c));
    }

    static method MakeRoot(promoteKey: K, left: Node<K, V>, right: Node<K, V>,
                           ghost g: Growth<K, V>) returns (newRoot: Node<K, V>)
      requires g.Two? && GrownInHeap(g, First(g.left), null)
      requires left == g.left.node && right == g.right.node && promoteKey == g.sep
      ensures fresh(newRoot) && newRoot !in g.Used() && Stored(NewRoot(g, newRoot), null)
    {
      NodesAllocated(g.left);
      NodesAllocated(g.right);
      newRoot := new Node(false);
      newRoot.keys := [promoteKey];
      newRoot.children := [left, right];
      NewRootStored(g, newRoot);
    }

    method GrowRoot(promoteKey: K, newChild: Node<K, V>, ghost g: Growth<K, V>)
      requires Good(Cfg()) && g.Two? && Grown(Cfg(), g, Open, Open, height, 0) && GrownInHeap(g, First(g.left), null)
      requires g.Top() == root && promoteKey == g.sep && newChild == g.right.node
      modifies this
      ensures Valid() && Contents() == g.Flat() && height == old(height) + 1
      ensures fresh(root) && Nodes(shape) == {root} + g.Used()
      ensures Gaps(Cfg(), shape, Open, Open) <==> GapsGrown(Cfg(), g, Open, Open)
    {
      hide StrictTotal, Ordered, Stored, Gaps;
      var newRoot := MakeRoot(promoteKey, root, newChild, g);
      NewRootSound(Cfg(), g, height, newRoot);
      root, shape, height := newRoot, NewRoot(g, newRoot), height + 1;
    }

    method Insert(k: K, v: V) returns (ghost pos: nat)
      requires Valid() && (multi || !HasKey(Contents(), k))
      modifies this, Nodes(shape)
      ensures Valid() && (forall x <- Nodes(shape) :: x in old(Nodes(shape)) || fresh(x))
      ensures pos <= |old(Contents())| && Contents() == InsertAt(old(Contents()), pos, (k, v))
      ensures !multi ==> View() == old(View())[k := v]
      ensures old(height) <= height <= old(height) + 1
      ensures SeparatorsRise() <==> old(SeparatorsRise()) && !old(PromotesAgain(k))
    {
      hide StrictTotal, Ordered, Balanced, Gaps, Rising, Repeats;
      RisingIsGaps();
      var res, g, p := InsertInternal(root, k, v, shape, null, Open, Open, height, RootMin(height));
      pos := p;
      if res.Some? {
        GrowRoot(res.value.0, res.value.1, g);
      } else {
        shape := g.t;
      }
      RisingIsGaps();
      if !multi {
        ViewAfterInsert(Cfg(), shape, old(Contents()), pos, k, v);
      }
    }
  
    // ---- Delete -----------------------------------------------------------------------

    /** BorrowFromLeft on the two siblings; the result is the parent's new separator. */
    static method ShiftRight(left: Node<K, V>, child: Node<K, V>, sep: K, ghost p: Pair<Node<K, V>, K, V>,
                             ghost end: Node?<K, V>)
      returns (newSep: K)
      requires left == p.left.node && child == p.right.node && sep == p.sep && Matched(p) && p.left.keys != []
      requires PairApart(p) && PairStored(p, end) && BelowStored(p, end) && Linked(p, end)
      modifies left, child
      ensures PairStored(TakeFromLeft(p), end) && newSep == TakeFromLeft(p).sep &&
              First(TakeFromLeft(p).left) == First(p.left)
    {
      newSep := Last(left.keys);
      if child.isLeaf {
        child.keys := [Last(left.keys)] + child.keys;
        child.values := [Last(left.values)] + child.values;
        left.keys := Init(left.keys);
        left.values := Init(left.values);
      } else {
        child.keys := [sep] + child.keys;
        child.children := [Last(left.children)] + child.children;
        left.children := Init(left.children);
        left.keys := Init(left.keys);
      }
      TakeFromLeftStored(p, end);
    }

    /** The parent's side of a borrow. */
    static method SetSeparator(parent: Node<K, V>, i: nat, sep: K, ghost t: Shape<K, V>,
                               ghost q: Pair<Node<K, V>, K, V>, ghost end: Node?<K, V>)
      requires t.Inner? && parent == t.node && Top(t) && i < |t.keys| && |t.children| == |t.keys| + 1 && sep == q.sep
      requires q.left.node == t.children[i].node && q.right.node == t.children[i + 1].node &&
               First(q.left) == First(t.children[i])
      requires PairStored(q, Start(t.children[i + 2..], end)) && parent !in Nodes(q.left) && parent !in Nodes(q.right)
      requires AllStored(t.children[..i], First(t.children[i])) && parent !in NodesOf(t.children[..i])
      requires AllStored(t.children[i + 2..], end) && parent !in NodesOf(t.children[i + 2..])
      modifies parent
      ensures Stored(WithPair(t, i, q), end) && First(WithPair(t, i, q)) == First(t)
    {
      hide StrictTotal, Stored;
      parent.keys := parent.keys[i := sep];
      WithPairStored(t, i, q, end);
    }

    method BorrowFromLeft(parent: Node<K, V>, childIndex: nat, ghost t: Shape<K, V>, ghost end: Node?<K, V>)
      requires t.Inner? && parent == t.node && Stored(t, end) && Apart(t) && |t.children| == |t.keys| + 1
      requires 0 < childIndex <= |t.keys| && Matched(PairAt(t, childIndex - 1)) && t.children[childIndex - 1].keys != []
      modifies Nodes(t)
      ensures var t' := WithPair(t, childIndex - 1, TakeFromLeft(PairAt(t, childIndex - 1)));
              Stored(t', end) && First(t') == First(t)
    {
      hide StrictTotal, Matched, Start, Linked, PairApart, NodesOf, AllApart;
      ghost var i := childIndex - 1;
      ghost var p := PairAt(t, i);
      ghost var q := TakeFromLeft(p);
      assert Top(t) && q.left.node == p.left.node && q.right.node == p.right.node;
      hide TakeFromLeft, Stored;
      AroundPair(t, i, end);
      AroundPairApart(t, i);
      TakeFromLeftApart(p);
      NodesOfAllocated(t.children[..i]);
      NodesOfAllocated(t.children[i + 2..]);
      var sep := ShiftRight(parent.children[childIndex - 1], parent.children[childIndex], parent.keys[childIndex - 1],
                            p, Start(t.children[i + 2..], end));
      SetSeparator(parent, childIndex - 1, sep, t, q, end);
    }

    /** BorrowFromRight on the two siblings; the result is the parent's new separator. */
    static method ShiftLeft(child: Node<K, V>, right: Node<K, V>, sep: K, ghost p: Pair<Node<K, V>, K, V>,
                            ghost end: Node?<K, V>)
      returns (newSep: K)
      requires child == p.left.node && right == p.right.node && sep == p.sep && Matched(p) && |p.right.keys| > 1
      requires PairApart(p) && PairStored(p, end) && BelowStored(p, end) && Linked(p, end)
      modifies child, right
      ensures PairStored(TakeFromRight(p), end) && newSep == TakeFromRight(p).sep &&
              First(TakeFromRight(p).left) == First(p.left)
    {
      if child.isLeaf {
        child.keys := child.keys + [right.keys[0]];
        child.values := child.values + [right.values[0]];
        right.keys := right.keys[1..];
        right.values := right.values[1..];
        newSep := right.keys[0];
      } else {
        child.keys := child.keys + [sep];
        child.children := child.children + [right.children[0]];
        right.children := right.children[1..];
        newSep := right.keys[0];
        right.keys := right.keys[1..];
      }
      TakeFromRightStored(p, end);
    }

    method BorrowFromRight(parent: Node<K, V>, childIndex: nat, ghost t: Shape<K, V>, ghost end: Node?<K, V>)
      requires t.Inner? && parent == t.node && Stored(t, end) && Apart(t) && |t.children| == |t.keys| + 1
      requires childIndex < |t.keys| && Matched(PairAt(t, childIndex)) && |t.children[childIndex + 1].keys| > 1
      modifies Nodes(t)
      ensures var t' := WithPair(t, childIndex, TakeFromRight(PairAt(t, childIndex)));
              Stored(t', end) && First(t') == First(t)
    {
      ghost var p := PairAt(t, childIndex);
      AroundPair(t, childIndex, end);
      AroundPairApart(t, childIndex);
      TakeFromRightApart(p);
      NodesOfAllocated(t.children[..childIndex]);
      NodesOfAllocated(t.children[childIndex + 2..]);
      var sep := ShiftLeft(parent.children[childIndex], parent.children[childIndex + 1], parent.keys[childIndex],
                           p, Start(t.children[childIndex + 2..], end));
      SetSeparator(parent, childIndex, sep, t, TakeFromRight(p), end);
    }

    /** MergeNodes on the two siblings. */
    static method Absorb(left: Node<K, V>, right: Node<K, V>, sep: K, ghost p: Pair<Node<K, V>, K, V>,
                         ghost end: Node?<K, V>)
      requires left == p.left.node && right == p.right.node && sep == p.sep && Matched(p)
      requires PairApart(p) && PairStored(p, end) && BelowStored(p, end) && Linked(p, end)
      modifies left
      ensures Stored(Merged(p), end) && First(Merged(p)) == First(p.left)
    {
      if left.isLeaf {
        left.keys := left.keys + right.keys;
        left.values := left.values + right.values;
        left.next := right.next;
      } else {
        left.keys := left.keys + [sep] + right.keys;
        left.children := left.children + right.children;
      }
      MergedStored(p, end);
    }

    /** The parent's side of a merge. */
    static method DropSeparator(parent: Node<K, V>, i: nat, ghost t: Shape<K, V>, ghost c: Shape<K, V>,
                                ghost end: Node?<K, V>)
      requires t.Inner? && parent == t.node && Top(t) && i < |t.keys| && |t.children| == |t.keys| + 1
      requires c.node == t.children[i].node && First(c) == First(t.children[i])
      requires Stored(c, Start(t.children[i + 2..], end)) && parent !in Nodes(c)
      requires AllStored(t.children[..i], First(t.children[i])) && parent !in NodesOf(t.children[..i])
      requires AllStored(t.children[i + 2..], end) && parent !in NodesOf(t.children[i + 2..])
      modifies parent
      ensures Stored(WithMerged(t, i, c), end) && First(WithMerged(t, i, c)) == First(t)
    {
      hide Stored, AllStored, Matched;
      MergedPointers(t, i, c);
      parent.keys := EraseAt(parent.keys, i);
      parent.children := EraseAt(parent.children, i + 1);
      WithMergedStored(t, i, c, end);
    }

    method MergeNodes(parent: Node<K, V>, leftIndex: nat, rightIndex: nat, ghost t: Shape<K, V>, ghost end: Node?<K, V>)
      requires t.Inner? && parent == t.node && Stored(t, end) && Apart(t) && |t.children| == |t.keys| + 1
      requires rightIndex == leftIndex + 1 && leftIndex < |t.keys| && Matched(PairAt(t, leftIndex))
      modifies Nodes(t)
      ensures var t' := WithMerged(t, leftIndex, Merged(PairAt(t, leftIndex))); Stored(t', end) && First(t') == First(t)
    {
      ghost var p := PairAt(t, leftIndex);
      AroundPair(t, leftIndex, end);
      AroundPairApart(t, leftIndex);
      MergedApart(p);
      NodesOfAllocated(t.children[..leftIndex]);
      NodesOfAllocated(t.children[leftIndex + 2..]);
      Absorb(parent.children[leftIndex], parent.children[rightIndex], parent.keys[leftIndex],
             p, Start(t.children[leftIndex + 2..], end));
      DropSeparator(parent, leftIndex, t, Merged(p), end);
    }

    /** DeleteHelper's repair of an underflowed child. */
    method Rebalance(current: Node<K, V>, childIndex: nat, ghost t: Shape<K, V>, ghost end: Node?<K, V>, ghost h: nat)
      requires Even(order) && current == t.node && Lopsided(order, t, h, childIndex) && Stored(t, end) && Apart(t)
      modifies Nodes(t)
      ensures Stored(Fixed(order, t, h, childIndex), end) && First(Fixed(order, t, h, childIndex)) == First(t)
    {
      SiblingsMatch(order, t, h, childIndex);
      SiblingsStored(t, end);
      var min := MinKeys(order);
      if childIndex > 0 && |current.children[childIndex - 1].keys| > min {
        BorrowFromLeft(current, childIndex, t, end);
      } else if childIndex < |current.children| - 1 && |current.children[childIndex + 1].keys| > min {
        BorrowFromRight(current, childIndex, t, end);
      } else if childIndex > 0 {
        MergeNodes(current, childIndex - 1, childIndex, t, end);
      } else {
        MergeNodes(current, childIndex, childIndex + 1, t, end);
      }
    }

    method DeleteFromLeaf(current: Node<K, V>, k: K, isRoot: bool, ghost t: Shape<K, V>, ghost end: Node?<K, V>,
                          ghost lo: Bound<K>, ghost hi: Bound<K>)
      returns (underflow: bool, deleted: bool)
      requires t.Leaf? && current == t.node && Stored(t, end) && Deletable(Cfg(), t, lo, hi, 0)
      modifies current
      ensures Stored(Removed(Cfg(), t, 0, k), end) && First(Removed(Cfg(), t, 0, k)) == First(t)
      ensures deleted <==> HasKey(Entries(t), k)
      ensures underflow <==> deleted && !isRoot && |Removed(Cfg(), t, 0, k).keys| < MinKeys(order)
    {
      var index := LowerBound(less, current.keys, k);
      LowerBoundFinds(Cfg(), t, lo, hi, k, index);
      if index == |current.keys| || current.keys[index] != k {
        return false, false;
      }
      current.keys := EraseAt(current.keys, index);
      current.values := EraseAt(current.values, index);
      return !isRoot && |current.keys| < MinKeys(order), true;
    }

    method DeleteHelper(current: Node<K, V>, k: K, isRoot: bool, ghost t: Shape<K, V>, ghost end: Node?<K, V>,
                        ghost lo: Bound<K>, ghost hi: Bound<K>, ghost h: nat)
      returns (underflow: bool, deleted: bool)
      requires current == t.node && Stored(t, end) && Deletable(Cfg(), t, lo, hi, h)
      modifies Nodes(t)
      ensures Stored(Removed(Cfg(), t, h, k), end) && First(Removed(Cfg(), t, h, k)) == First(t)
      ensures deleted <==> HasKey(Entries(t), k)
      ensures underflow <==> deleted && !isRoot && |Removed(Cfg(), t, h, k).keys| < MinKeys(order)
      decreases t, 1
    {
      if current.isLeaf {
        underflow, deleted := DeleteFromLeaf(current, k, isRoot, t, end, lo, hi);
      } else {
        underflow, deleted := DeleteFromInner(current, k, isRoot, t, end, lo, hi, h);
      }
    }

    method DeleteFromInner(current: Node<K, V>, k: K, isRoot: bool, ghost t: Shape<K, V>, ghost end: Node?<K, V>,
                           ghost lo: Bound<K>, ghost hi: Bound<K>, ghost h: nat)
      returns (underflow: bool, deleted: bool)
      requires t.Inner? && current == t.node && Stored(t, end) && Deletable(Cfg(), t, lo, hi, h)
      modifies Nodes(t)
      ensures Stored(Removed(Cfg(), t, h, k), end) && First(Removed(Cfg(), t, h, k)) == First(t)
      ensures deleted <==> HasKey(Entries(t), k)
      ensures underflow <==> deleted && !isRoot && |Removed(Cfg(), t, h, k).keys| < MinKeys(order)
      decreases t, 0
    {
      hide Ordered, Removed, Fixed, AllStored, StrictTotal;
      var childIndex := 0;
      while childIndex < |current.keys| && !less(k, current.keys[childIndex])
        invariant childIndex <= |t.keys| && forall j :: 0 <= j < childIndex ==> !less(k, t.keys[j])
      {
        childIndex := childIndex + 1;
      }
      assert childIndex == UpperBound(less, t.keys, k);
      ghost var c := DeleteOneLevel(Cfg(), t, lo, hi, h, k, childIndex);
      var childUnderflow;
      childUnderflow, deleted := DeleteBelow(current, childIndex, k, t, end, Lo(t.keys, childIndex, lo), Hi(t.keys, childIndex, hi), h, c);
      if !deleted {
        return false, false;
      }
      if childUnderflow {
        Rebalance(current, childIndex, WithChild(t, childIndex, c), end, h);
      }
      return !isRoot && |current.keys| < MinKeys(order), true;
    }

    /** DeleteHelper's recursive call. */
    method DeleteBelow(current: Node<K, V>, childIndex: nat, k: K, ghost t: Shape<K, V>, ghost end: Node?<K, V>,
                       ghost lo: Bound<K>, ghost hi: Bound<K>, ghost h: nat, ghost c: Shape<K, V>)
      returns (childUnderflow: bool, deleted: bool)
      requires t.Inner? && current == t.node && Stored(t, end) && Apart(t) && childIndex < |t.children| && h > 0
      requires Deletable(Cfg(), t.children[childIndex], lo, hi, h - 1) &&
               c == Removed(Cfg(), t.children[childIndex], h - 1, k)
      modifies Nodes(t)
      ensures deleted <==> HasKey(Entries(t.children[childIndex]), k)
      ensures childUnderflow <==> deleted && |c.keys| < MinKeys(order)
      ensures Stored(WithChild(t, childIndex, c), end) && First(WithChild(t, childIndex, c)) == First(t)
      decreases t, 0, 0
    {
      hide Deletable, Ordered, Balanced;
      AroundChild(t, childIndex, end);
      childUnderflow, deleted := DeleteHelper(current.children[childIndex], k, false, t.children[childIndex],
                                              Start(t.children[childIndex + 1..], end), lo, hi, h - 1);
      StoredWithChild(t, childIndex, c, end);
    }

    method Delete(k: K) returns (deleted: bool, ghost pos: nat)
      requires Valid() && !multi
      modifies this, Nodes(shape)
      ensures Valid() && Nodes(shape) <= old(Nodes(shape))
      ensures deleted <==> HasKey(old(Contents()), k)
      ensures !deleted ==> Contents() == old(Contents())
      ensures deleted ==> pos < |old(Contents())| && old(Contents())[pos].0 == k && Contents() == EraseAt(old(Contents()), pos)
      ensures View() == old(View()) - {k} && (deleted <==> k in old(View()))
      ensures old(height) - 1 <= height <= old(height)
    {
      hide StrictTotal, Ordered, Removed;
      ghost var t := shape;
      pos := 0;
      if HasKey(Contents(), k) {
        pos := RemovedPresent(Cfg(), t, Open, Open, height, k);
        ViewAfterErase(Cfg(), t, Entries(Removed(Cfg(), t, height, k)), pos);
      } else {
        RemovedAbsent(Cfg(), t, Open, Open, height, k);
      }
      ViewHas(Cfg(), t, k);
      RemovedOrdered(Cfg(), t, Open, Open, height, k);
      RemovedApart(Cfg(), t, height, k);
      var underflow;
      underflow, deleted := DeleteHelper(root, k, true, t, null, Open, Open, height);
      shape := Removed(Cfg(), t, height, k);
      // The root never reports an underflow, so Delete's last branch, which would make a new empty root, is never taken.
      assert !underflow;
      ShrinkRoot();
    }

    /** Delete's last step: a root left with one child gives way to it. */
    method ShrinkRoot()
      requires UniqueGood(Cfg()) && root == shape.node && Stored(shape, null) && Apart(shape)
      requires Ordered(Cfg(), shape, Open, Open) && Balanced(order, shape, height, 0)
      modifies this
      ensures Valid() && Contents() == old(Contents()) && Nodes(shape) <= old(Nodes(shape))
      ensures old(height) - 1 <= height <= old(height)
    {
      hide StrictTotal, Fits, Apart;
      if !root.isLeaf && |root.children| == 1 {
        ghost var c := shape.children[0];
        assert shape.children == [c];
        CatOne(c);
        ChildrenApart(shape, 0);
        BalancedRelax(order, c, height - 1, MinKeys(order), RootMin(height - 1));
        root := root.children[0];
        shape, height := c, height - 1;
      }
    }

    // ---- lookups ----------------------------------------------------------------------

    ghost function RootSpot(): Spot<K, V>
      reads this
    {
      Spot(shape, [], [], Open, Open, height, RootMin(height), null)
    }

    /** The descent that Search, Update, GetPointer and RangeSearch begin with. */
    method FindLeaf(k: K) returns (leaf: Node<K, V>, ghost p: Spot<K, V>)
      requires Valid()
      ensures Valid() && p.s.Leaf? && leaf == p.s.node && Stored(p.s, p.end) && Descending(Cfg(), shape, k, p)
    {
      NodesAllocated(shape);
      leaf, p := root, RootSpot();
      assert Cat(p.a) == [];
      while !leaf.isLeaf
        invariant leaf == p.s.node && Stored(p.s, p.end) && Descending(Cfg(), shape, k, p)
        decreases p.s
      {
        var index := UpperBound(less, leaf.keys, k);
        leaf := leaf.children[index];
        DescendOnce(Cfg(), shape, k, p, index);
        p := Down(Cfg(), p, index);
      }
    }

    method Search(k: K) returns (r: Option<V>)
      requires Valid()
      ensures r.Some? <==> HasKey(Contents(), k)
      ensures r.Some? ==> (k, r.value) in Contents()
      ensures !multi ==> r == if k in View() then Some(View()[k]) else None
    {
      hide StrictTotal, Ordered, Apart, ToMap, AllStored;
      var leaf, p := FindLeaf(k);
      var index := LowerBound(less, leaf.keys, k);
      LowerBoundFinds(Cfg(), p.s, p.lo, p.hi, k, index);
      if index < |leaf.keys| && leaf.keys[index] == k {
        LeafEntries(shape, p.s, p.a, p.b);
        assert Entries(p.s)[index] in Contents();
        if !multi { ViewFinds(Cfg(), shape, k, leaf.values[index]); }
        return Some(leaf.values[index]);
      }
      if !multi { ViewHas(Cfg(), shape, k); }
      return None;
    }

    /** The address GetPointer returns: a leaf and a slot in it. */
    method GetPointer(k: K) returns (r: Option<(Node<K, V>, nat)>)
      requires Valid()
      ensures r.Some? <==> HasKey(Contents(), k)
      ensures r.Some? ==> r.value.0 in Nodes(shape) && r.value.1 < |r.value.0.values| && (k, r.value.0.values[r.value.1]) in Contents()
    {
      var leaf, p := FindLeaf(k);
      var index := LowerBound(less, leaf.keys, k);
      LowerBoundFinds(Cfg(), p.s, p.lo, p.hi, k, index);
      if index < |leaf.keys| && leaf.keys[index] == k {
        LeafEntries(shape, p.s, p.a, p.b);
        LeafInside(less, shape, k);
        assert Entries(p.s)[index] in Contents();
        return Some((leaf, index));
      }
      return None;
    }

    method Overwrite(leaf: Node<K, V>, index: nat, k: K, v: V, ghost s: Shape<K, V>)
      requires Valid() && HasKey(Contents(), k) && s == LeafFor(less, shape, k) && s.Leaf? && leaf == s.node
      requires Top(s) && |s.values| == |s.keys| && index == LowerBound(less, s.keys, k) < |s.keys|
      modifies leaf, `shape
      ensures Valid() && Nodes(shape) <= old(Nodes(shape)) && shape == Revalued(less, old(shape), k, v)
    {
      hide Balanced, Entries;
      RevaluedKeeps(Cfg(), shape, Open, Open, height, RootMin(height), k, v);
      MakeHole(Cfg(), shape, Open, Open, k, null);
      LeafInside(less, shape, k);
      leaf.values := leaf.values[index := v];
      FillHole(less, shape, k, v, null, s);
      shape := Revalued(less, shape, k, v);
    }

    method Update(k: K, v: V) returns (ok: bool, ghost pos: nat)
      requires Valid()
      modifies Nodes(shape), `shape
      ensures Valid() && Nodes(shape) <= old(Nodes(shape)) && height == old(height)
      ensures ok <==> HasKey(old(Contents()), k)
      ensures !ok ==> Contents() == old(Contents())
      ensures ok ==> pos < |old(Contents())| && old(Contents())[pos].0 == k && Contents() == old(Contents())[pos := (k, v)]
      ensures !multi ==> View() == if ok then old(View())[k := v] else old(View())
    {
      pos := 0;
      var leaf, p := FindLeaf(k);
      var index := LowerBound(less, leaf.keys, k);
      LowerBoundFinds(Cfg(), p.s, p.lo, p.hi, k, index);
      ok := index < |leaf.keys| && leaf.keys[index] == k;
      if ok {
        pos := RevaluedEntries(Cfg(), shape, Open, Open, height, RootMin(height), k, v);
        if !multi {
          ViewAfterOverwrite(Cfg(), shape, pos, v);
        }
        LeafInside(less, shape, k);
        Overwrite(leaf, index, k, v, p.s);
      }
    }

    // ---- scans ------------------------------------------------------------------------

    /** RangeSearch's inner loop. */
    method ScanLeaf(current: Node<K, V>, lower: K, upper: K, before: seq<V>, ghost es: seq<(K, V)>, ghost m: nat)
      returns (results: seq<V>, stop: bool)
      requires Good(Cfg()) && !multi && KeysAscending(Cfg(), es) && Window(current, es, m)
      requires before == RangeValues(less, es[..m], lower, upper)
      ensures results == RangeValues(less, if stop then es else es[..m + |current.keys|], lower, upper)
    {
      hide StrictTotal;
      results := before;
      for i := 0 to |current.keys|
        invariant results == RangeValues(less, es[..m + i], lower, upper)
      {
        assert es[..m + i + 1][..m + i] == es[..m + i];
        if !less(current.keys[i], lower) && !less(upper, current.keys[i]) {
          results := results + [current.values[i]];
        } else if less(upper, current.keys[i]) {
          NothingBeyond(Cfg(), es, m + i, lower, upper);
          return results, true;
        }
      }
      return results, false;
    }

    /** RangeSearch's walk along the leaf chain. */
    method ScanChain(leaf: Node<K, V>, lower: K, upper: K, ghost start: nat) returns (results: seq<V>)
      requires Good(Cfg()) && !multi && KeysAscending(Cfg(), Contents()) && Rooted(shape) && ChainAt(shape, start, leaf)
      requires RangeValues(less, Cat(LeafSeq(shape)[..start]), lower, upper) == []
      ensures results == RangeValues(less, Contents(), lower, upper)
    {
      ghost var chain, j := LeafSeq(shape), start;
      var current: Node?<K, V> := leaf;
      results := [];
      while current != null
        invariant ChainAt(shape, j, current)
        invariant results == RangeValues(less, Cat(chain[..j]), lower, upper)
        decreases |chain| - j
      {
        ghost var m := ChainStep(shape, j, current);
        NodesOfAllocated(chain[j + 1..]);
        var stop;
        results, stop := ScanLeaf(current, lower, upper, results, Contents(), m);
        if stop { return; }
        current := current.next;
        j := j + 1;
      }
      assert chain[..j] == chain;
      ChainEntries(shape);
    }

    /** The values of all keys from `lower` to `upper`, both included, in key order. */
    method RangeSearch(lower: K, upper: K) returns (results: seq<V>)
      requires Valid() && !multi
      ensures var keys := KeysOf(Contents());
              var i, j := LowerBound(less, keys, lower), UpperBound(less, keys, upper);
              ValuesAre(results, if i <= j then Contents()[i..j] else [])
      ensures Ascending(less, KeysOf(Contents()))
    {
      var leaf, p := FindLeaf(lower);
      OrderedSorted(Cfg(), shape, Open, Open);
      BalancedRooted(order, shape, height, RootMin(height));
      assert LeafSeq(shape) == p.a + ([p.s] + p.b);
      ChainFrom(shape, p.a, [p.s] + p.b);
      NothingBelow(less, Cat(p.a), lower, upper);
      RangeIsSlice(Cfg(), Contents(), lower, upper);
      results := ScanChain(leaf, lower, upper, |p.a|);
    }

    /** GetAllKeys' descent. */
    method Leftmost() returns (leaf: Node<K, V>)
      requires Valid()
      ensures Valid() && leaf == First(shape)
    {
      NodesAllocated(shape);
      BalancedRooted(order, shape, height, RootMin(height));
      leaf := root;
      ghost var s, end: Node?<K, V> := shape, null;
      while !leaf.isLeaf
        invariant leaf == s.node && Stored(s, end) && Rooted(s) && First(s) == First(shape)
        decreases s
      {
        leaf := leaf.children[0];
        end := Start(s.children[1..], end);
        s := s.children[0];
      }
    }

    method GetAllKeys() returns (keysOut: seq<K>)
      requires Valid()
      ensures keysOut == KeysOf(Contents())
      ensures if multi then NonDescending(less, keysOut) else Ascending(less, keysOut)
    {
      OrderedSorted(Cfg(), shape, Open, Open);
      var leaf := Leftmost();
      keysOut := CollectKeys(leaf);
    }

    /** GetAllKeys' walk along the leaf chain. */
    method CollectKeys(leaf: Node<K, V>) returns (keysOut: seq<K>)
      requires Valid() && leaf == First(shape)
      ensures keysOut == KeysOf(Contents())
    {
      hide Ordered, Apart, Stored, Entries, StrictTotal, Balanced, Good, LeafSeq, KeysOf, Window;
      BalancedRooted(order, shape, height, RootMin(height));
      ghost var chain, j := LeafSeq(shape), 0;
      FirstLeaf(shape);
      ChainFrom(shape, [], chain);
      assert chain[..0] == [] && Cat(chain[..0]) == [];
      hide Cat, NodesOf, LeavesOf, ChainAt, First;
      var current: Node?<K, V> := leaf;
      keysOut := [];
      while current != null
        invariant ChainAt(shape, j, current) && |Cat(chain[..j])| <= |Contents()|
        invariant keysOut == KeysOf(Contents()[..|Cat(chain[..j])|])
        decreases |chain| - j
      {
        ghost var m := ChainStep(shape, j, current);
        MoreKeys(keysOut, current, Contents(), m);
        assert |Cat(chain[..j])| == m && |Cat(chain[..j + 1])| == m + |current.keys|;
        keysOut := keysOut + current.keys;
        current := current.next;
        j := j + 1;
      }
      assert chain[..j] == chain;
      ChainEntries(shape);
      assert Contents()[..|Contents()|] == Contents();
    }
  }

  lemma MoreKeys<K, V>(ks: seq<K>, leaf: Node<K, V>, es: seq<(K, V)>, m: nat)
    requires Window(leaf, es, m) && ks == KeysOf(es[..m])
    ensures m + |leaf.keys| <= |es| && ks + leaf.keys == KeysOf(es[..m + |leaf.keys|])
  {
  }

  /** One key inserted `n` times: with more copies than two leaves hold, some separator repeats. */
  method InsertCopies<K(!new, ==), V>(less: (K, K) -> bool, order: nat, k: K, v: V, n: nat)
    returns (tree: BPlusTree<K, V>)
    requires Good(Config(less, order, true))
    ensures tree.Valid() && tree.less == less && tree.order == order && |tree.Contents()| == n
    ensures n > 2 * order ==> !tree.SeparatorsRise()
  {
    hide StrictTotal, Ordered, Balanced, Stored, Apart, Rising, Repeats;
    tree := new BPlusTree(less, order, true);
    for i := 0 to n
      invariant fresh(tree) && fresh(Nodes(tree.shape)) && tree.Valid() && tree.multi
      invariant tree.less == less && tree.order == order
      invariant |tree.Contents()| == i && forall e <- tree.Contents() :: e.0 == k
    {
      ghost var pos := tree.Insert(k, v);
    }
    if n > 2 * order {
      CopiesRepeatSeparators(tree.Cfg(), tree.shape, tree.height, k);
    }
  }
}
