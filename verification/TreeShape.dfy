/**
 The value of a B+ tree: nested nodes, each remembering which heap node `N` stores it.
 Invariants, and what every single-level step (split, borrow, merge) does to them.
 */
module TreeShape {
  import opened Ordering

  datatype Tree<N, K, V> =
    | Leaf(node: N, keys: seq<K>, values: seq<V>)
    | Inner(node: N, keys: seq<K>, children: seq<Tree<N, K, V>>)

  /** A separator above or below a subtree, or none at the edge of the tree. */
  datatype Bound<K> = Open | At(key: K)

  /** The template arguments of a tree; `multi` says that keys may repeat (and nothing is deleted). */
  datatype Config<!K> = Config(less: (K, K) -> bool, order: nat, multi: bool)

  function MinKeys(order: nat): nat {
    (order + 1) / 2
  }

  ghost predicate Good<K(!new)>(o: Config<K>) {
    StrictTotal(o.less) && o.order >= 2 && o.order % 2 == 0
  }

  // ---- entries ------------------------------------------------------------------------

  function Zip<K, V>(keys: seq<K>, values: seq<V>): seq<(K, V)> {
    seq(if |keys| <= |values| then |keys| else |values|, i requires 0 <= i < |keys| && i < |values| => (keys[i], values[i]))
  }

  /** Key/value pairs in leaf order. */
  ghost function Entries<N, K, V>(t: Tree<N, K, V>): seq<(K, V)>
    decreases t, 0
  {
    match t
    case Leaf(_, keys, values) => Zip(keys, values)
    case Inner(_, _, children) => Cat(children)
  }

  ghost function Cat<N, K, V>(cs: seq<Tree<N, K, V>>): seq<(K, V)>
    decreases cs, 1
  {
    if cs == [] then [] else Entries(cs[0]) + Cat(cs[1..])
  }

  lemma {:induction false} CatAppend<N, K, V>(a: seq<Tree<N, K, V>>, b: seq<Tree<N, K, V>>)
    ensures Cat(a + b) == Cat(a) + Cat(b)
  {
    if a == [] {
      assert a + b == b;
    } else {
      assert (a + b)[1..] == a[1..] + b;
      CatAppend(a[1..], b);
    }
  }

  lemma CatOne<N, K, V>(x: Tree<N, K, V>)
    ensures Cat([x]) == Entries(x)
  {
    assert [x][1..] == [];
  }

  lemma CatTwo<N, K, V>(x: Tree<N, K, V>, y: Tree<N, K, V>)
    ensures Cat([x, y]) == Entries(x) + Entries(y)
  {
    assert [x, y][1..] == [y];
    CatOne(y);
  }

  /** The entries around child `i`. */
  lemma {:induction false} CatAround<N, K, V>(cs: seq<Tree<N, K, V>>, i: nat)
    requires i < |cs|
    ensures Cat(cs) == Cat(cs[..i]) + Entries(cs[i]) + Cat(cs[i + 1..])
  {
    assert cs == cs[..i] + cs[i..];
    CatAppend(cs[..i], cs[i..]);
    assert cs[i..][1..] == cs[i + 1..];
  }

  /** The leaf a search for `k` ends in. */
  ghost function LeafFor<N, K, V>(less: (K, K) -> bool, t: Tree<N, K, V>, k: K): Tree<N, K, V>
    decreases t
  {
    if t.Leaf? then t else
      var i := UpperBound(less, t.keys, k);
      if i < |t.children| then LeafFor(less, t.children[i], k) else t
  }

  // ---- invariants ---------------------------------------------------------------------

  /** Every leaf at depth `h`; at least `min` keys here, MinKeys below, at most `order` anywhere. */
  ghost predicate Balanced<N, K, V>(order: nat, t: Tree<N, K, V>, h: nat, min: int)
    decreases t
  {
    && min <= |t.keys| <= order
    && match t
       case Leaf(_, keys, values) => h == 0 && |values| == |keys|
       case Inner(_, keys, children) =>
         && h > 0 && |children| == |keys| + 1
         && forall i :: 0 <= i < |children| ==> Balanced(order, children[i], h - 1, MinKeys(order))
  }

  /** A root may be an empty leaf, but an inner root separates at least two children. */
  function RootMin(h: nat): nat {
    if h == 0 then 0 else 1
  }

  lemma BalancedRelax<N, K, V>(order: nat, t: Tree<N, K, V>, h: nat, min: int, min': int)
    requires Balanced(order, t, h, min) && min' <= min
    ensures Balanced(order, t, h, min')
  {
  }

  function Copies<K>(o: Config<K>): nat {
    if o.multi then o.order / 2 else 0
  }

  ghost predicate NotBelow<K>(o: Config<K>, lo: Bound<K>, k: K) {
    lo.At? ==> !o.less(k, lo.key)
  }

  ghost predicate Above<K>(o: Config<K>, lo: Bound<K>, k: K) {
    lo.At? ==> o.less(lo.key, k)
  }

  ghost predicate Below<K>(o: Config<K>, k: K, hi: Bound<K>) {
    hi.At? ==> o.less(k, hi.key)
  }

  ghost predicate NotAbove<K>(o: Config<K>, k: K, hi: Bound<K>) {
    hi.At? ==> !o.less(hi.key, k)
  }

  function Lo<K>(keys: seq<K>, i: nat, lo: Bound<K>): Bound<K>
    requires i <= |keys|
  {
    if i == 0 then lo else At(keys[i - 1])
  }

  function Hi<K>(keys: seq<K>, i: nat, hi: Bound<K>): Bound<K>
    requires i <= |keys|
  {
    if i == |keys| then hi else At(keys[i])
  }

  /** The keys of one node are sorted, lie between its separators, and repeat `hi` at most Copies times. */
  ghost predicate Fits<K>(o: Config<K>, keys: seq<K>, lo: Bound<K>, hi: Bound<K>) {
    && (if o.multi then NonDescending(o.less, keys) else Ascending(o.less, keys))
    && (forall i :: 0 <= i < |keys| ==> NotBelow(o, lo, keys[i]) && NotAbove(o, keys[i], hi))
    && (|keys| <= Copies(o) || Below(o, keys[|keys| - 1 - Copies(o)], hi))
  }

  /**
   Search order. With unique keys every key lies in [lo, hi) and separators rise strictly;
   with repeated keys a subtree may hold some copies of `hi`, but then it starts with `lo`.
   */
  ghost predicate Ordered<N, K, V>(o: Config<K>, t: Tree<N, K, V>, lo: Bound<K>, hi: Bound<K>)
    decreases t
  {
    && Fits(o, t.keys, lo, hi)
    && match t
       case Leaf(_, keys, _) => o.multi && lo.At? ==> keys != [] && keys[0] == lo.key
       case Inner(_, keys, children) =>
         && |children| == |keys| + 1
         && (!o.multi ==> forall i :: 0 <= i < |keys| ==> Above(o, lo, keys[i]))
         && forall i :: 0 <= i <= |keys| ==> Ordered(o, children[i], Lo(keys, i, lo), Hi(keys, i, hi))
  }
}
