/** The radix tree object: nodes updated in place. */
module RadixTrees {
  import opened Ordering
  import opened RadixShape

  class RadixTree<V> {
    var value: Option<V>
    var edges: seq<string>
    var children: seq<RadixTree<V>>
    ghost var tree: Tree<V>
    ghost var repr: set<RadixTree<V>>

    /** The node and everything below it form `tree`, and no node is shared. */
    ghost predicate Valid()
      reads this, repr
      decreases repr
    {
      && this in repr && |children| == |edges| && tree.value == value && tree.edges == edges
      && |tree.children| == |children| && WellFormed(tree)
      && (forall i :: 0 <= i < |children| ==>
            children[i] in repr && children[i].repr < repr && this !in children[i].repr
            && children[i].Valid() && children[i].tree == tree.children[i])
      && (forall i, j :: 0 <= i < j < |children| ==> children[i].repr !! children[j].repr)
    }

    constructor ()
      ensures Valid() && fresh(repr) && repr == {this} && tree == Empty()
    {
      value, edges, children, tree, repr := None, [], [], Empty(), {this};
    }

    constructor Holding(v: V)
      ensures Valid() && fresh(repr) && repr == {this} && tree == RadixShape.Holding(v)
    {
      value, edges, children, tree, repr := Some(v), [], [], RadixShape.Holding(v), {this};
    }

    lemma Fields()
      requires Valid()
      ensures this in repr && tree.edges == edges && |tree.children| == |children| == |edges| && WellFormed(tree)
    {
    }

    method Find(key: string, depth: nat) returns (r: Option<V>)
      requires Valid() && depth <= |key|
      ensures r == Lookup(tree, key[depth..])
      decreases repr
    {
      if depth == |key| { return value; }
      var rest := key[depth..];
      var i := 0;
      while i < |edges|
        invariant i <= |edges| && forall n :: 0 <= n < i ==> !(edges[n] <= rest)
      {
        if edges[i] <= rest {
          assert key[depth + |edges[i]|..] == rest[|edges[i]|..];
          r := children[i].Find(key, depth + |edges[i]|);
          return;
        }
        i := i + 1;
      }
      r := None;
    }

    static method CommonPrefix(a: string, b: string) returns (j: nat)
      ensures j == Common(a, b)
    {
      j := 0;
      while j < |a| && j < |b| && a[j] == b[j]
        invariant j <= |a| && j <= |b| && Common(a, b) == j + Common(a[j..], b[j..])
      {
        j := j + 1;
      }
    }

    method SetValue(v: V)
      requires Valid()
      modifies this
      ensures Valid() && tree == old(tree).(value := Some(v)) && repr == old(repr)
    {
      value := Some(v);
      tree := tree.(value := Some(v));
    }

    /** A new last branch. */
    method AddBranch(edge: string, child: RadixTree<V>)
      requires Valid() && child.Valid() && child.repr !! repr
      requires WellFormed(Tree(tree.value, tree.edges + [edge], tree.children + [child.tree]))
      modifies this
      ensures Valid() && tree == Tree(old(tree).value, old(tree).edges + [edge], old(tree).children + [child.tree])
      ensures repr == old(repr) + child.repr
    {
      tree := Tree(tree.value, tree.edges + [edge], tree.children + [child.tree]);
      edges := edges + [edge];
      children := children + [child];
      repr := repr + child.repr;
    }

    /** Branch `i` replaced; the new child may contain the old one. */
    method SetBranch(i: nat, edge: string, child: RadixTree<V>)
      requires Valid() && i < |edges| && child.Valid() && this !in child.repr
      requires WellFormed(WithBranch(tree, i, edge, child.tree))
      requires forall n :: 0 <= n < |children| && n != i ==> child.repr !! children[n].repr
      modifies this
      ensures Valid() && tree == WithBranch(old(tree), i, edge, child.tree) && repr == old(repr) + child.repr
    {
      tree := WithBranch(tree, i, edge, child.tree);
      edges := edges[i := edge];
      children := children[i := child];
      repr := repr + child.repr;
    }

    method Insert(key: string, v: V, depth: nat)
      requires Valid() && depth <= |key|
      modifies repr
      ensures Valid() && tree == Inserted(old(tree), key[depth..], v) && fresh(repr - old(repr))
      decreases repr
    {
      var rest := key[depth..];
      if depth == |key| {
        SetValue(v);
        return;
      }
      hide Inserted, Branch, Common, Valid, WellFormed;
      Fields();
      var i, j := FindBranch(rest);
      if i == |edges| {
        AddLeaf(rest, v, i);
      } else if j == |edges[i]| {
        InsertBelow(key, v, depth, i, j);
      } else if j == |rest| {
        ShortenBranch(rest, v, i, j);
      } else {
        SplitBranch(rest, v, i, j);
      }
    }

    /** The loop over the edges: the first that shares a prefix with the remaining key, and how long it is. */
    method FindBranch(rest: string) returns (i: nat, j: nat)
      requires Valid()
      ensures Valid() && i == Branch(edges, rest) && (i < |edges| ==> j == Common(edges[i], rest))
    {
      i, j := 0, 0;
      while i < |edges|
        invariant i <= |edges| && Valid() && forall n :: 0 <= n < i ==> Common(edges[n], rest) == 0
      {
        j := CommonPrefix(edges[i], rest);
        if j > 0 { return; }
        i := i + 1;
      }
    }

    /** No matching edge. */
    method AddLeaf(rest: string, v: V, ghost i: nat)
      requires Valid() && rest != "" && i == Branch(edges, rest) == |edges|
      modifies this
      ensures Valid() && tree == Inserted(old(tree), rest, v) && fresh(repr - old(repr))
    {
      WellFormedCases(tree, rest, v);
      hide Inserted, WellFormed, Branch;
      var child := new RadixTree<V>.Holding(v);
      AddBranch(rest, child);
    }

    /** The edge is a prefix of the remaining key. */
    method InsertBelow(key: string, v: V, depth: nat, i: nat, j: nat)
      requires Valid() && depth < |key| && i == Branch(edges, key[depth..]) < |edges|
      requires j == Common(edges[i], key[depth..]) == |edges[i]|
      modifies repr
      ensures Valid() && tree == Inserted(old(tree), key[depth..], v) && fresh(repr - old(repr))
      decreases repr, 0
    {
      hide Inserted;
      WellFormedCases(tree, key[depth..], v);
      hide Inserted, Branch, Common;
      assert key[depth..][j..] == key[depth + j..];
      var child := children[i];
      assert forall n :: 0 <= n < |children| && n != i ==> children[n].repr !! child.repr;
      child.Insert(key, v, depth + j);
      Regain(i);
    }

    /** Everything `Valid` says except about child `i`. */
    ghost predicate ValidAround(i: nat)
      reads this, repr
    {
      && this in repr && i < |children| == |edges| && tree.value == value && tree.edges == edges
      && |tree.children| == |children|
      && (forall n :: 0 <= n < |children| && n != i ==>
            children[n] in repr && children[n].repr < repr && this !in children[n].repr
            && children[n].Valid() && children[n].tree == tree.children[n])
      && (forall n, m :: 0 <= n < m < |children| && n != i && m != i ==> children[n].repr !! children[m].repr)
    }

    /** Child `i` has changed. */
    ghost method Regain(i: nat)
      requires ValidAround(i) && children[i].Valid() && this !in children[i].repr
      requires forall n :: 0 <= n < |children| && n != i ==> children[n].repr !! children[i].repr
      requires WellFormed(WithBranch(tree, i, edges[i], children[i].tree))
      modifies this`tree, this`repr
      ensures Valid() && tree == WithBranch(old(tree), i, edges[i], children[i].tree)
      ensures repr == old(repr) + children[i].repr
    {
      hide WellFormed;
      tree := WithBranch(tree, i, edges[i], children[i].tree);
      repr := repr + children[i].repr;
    }

    /** The remaining key ends inside the edge. */
    method ShortenBranch(rest: string, v: V, i: nat, j: nat)
      requires Valid() && rest != "" && i == Branch(edges, rest) < |edges|
      requires j == Common(edges[i], rest) == |rest| < |edges[i]|
      modifies this
      ensures Valid() && tree == Inserted(old(tree), rest, v) && fresh(repr - old(repr))
    {
      WellFormedCases(tree, rest, v);
      hide Inserted, WellFormed, Branch, Common, Shortened;
      var node := ShortenedNode(edges[i], children[i], j, v);
      SetBranch(i, rest, node);
    }

    static method ShortenedNode(edge: string, child: RadixTree<V>, j: nat, v: V) returns (node: RadixTree<V>)
      requires child.Valid() && j < |edge|
      ensures node.Valid() && node.tree == Shortened(edge, child.tree, j, v)
      ensures fresh(node) && fresh(node.repr - child.repr) && child.repr <= node.repr
    {
      node := new RadixTree<V>.Holding(v);
      assert [] + [edge[j..]] == [edge[j..]] && [] + [child.tree] == [child.tree];
      node.AddBranch(edge[j..], child);
    }

    /** Key and edge part in the middle: the new branch goes below its own suffix once more. */
    method SplitBranch(rest: string, v: V, i: nat, j: nat)
      requires Valid() && rest != "" && i == Branch(edges, rest) < |edges|
      requires j == Common(edges[i], rest) && j < |rest| && j < |edges[i]|
      modifies this
      ensures Valid() && tree == Inserted(old(tree), rest, v) && fresh(repr - old(repr))
    {
      WellFormedCases(tree, rest, v);
      hide Inserted, WellFormed, Branch, Common, Split;
      var node := SplitNode(edges[i], rest, children[i], j, v);
      SetBranch(i, edges[i][..j], node);
    }

    static method SplitNode(edge: string, rest: string, child: RadixTree<V>, j: nat, v: V) returns (node: RadixTree<V>)
      requires child.Valid() && j < |edge| && j < |rest| && WellFormed(Split(edge, rest, child.tree, j, v))
      ensures node.Valid() && node.tree == Split(edge, rest, child.tree, j, v)
      ensures fresh(node) && fresh(node.repr - child.repr) && child.repr <= node.repr
    {
      hide WellFormed;
      var leaf := new RadixTree<V>.Holding(v);
      var deep := OneBranch(rest[j..], leaf);
      node := OneBranch(edge[j..], child);
      assert [edge[j..]] + [rest[j..]] == [edge[j..], rest[j..]];
      assert [child.tree] + [deep.tree] == [child.tree, deep.tree];
      node.AddBranch(rest[j..], deep);
    }

    /** A node with no value and one branch; inserting into a new node gives one. */
    static method OneBranch(edge: string, child: RadixTree<V>) returns (node: RadixTree<V>)
      requires edge != "" && child.Valid()
      ensures node.Valid() && node.tree == Tree(None, [edge], [child.tree])
      ensures fresh(node) && fresh(node.repr - child.repr) && node.repr == {node} + child.repr
    {
      node := new RadixTree<V>();
      assert [] + [edge] == [edge] && [] + [child.tree] == [child.tree];
      node.AddBranch(edge, child);
    }
  }

  /** What each branch of an insertion builds, and that it is well formed. */
  lemma {:induction false} WellFormedCases<V>(t: Tree<V>, rest: string, v: V)
    requires WellFormed(t) && rest != ""
    ensures WellFormed(Inserted(t, rest, v))
    ensures var i := Branch(t.edges, rest);
            Inserted(t, rest, v)
            == if i == |t.edges| then Tree(t.value, t.edges + [rest], t.children + [RadixShape.Holding(v)])
               else
                 var edge, child, j := t.edges[i], t.children[i], Common(t.edges[i], rest);
                 if j == |edge| then WithBranch(t, i, edge, Inserted(child, rest[j..], v))
                 else if j == |rest| then WithBranch(t, i, rest, Shortened(edge, child, j, v))
                 else WithBranch(t, i, edge[..j], Split(edge, rest, child, j, v))
    ensures var i := Branch(t.edges, rest);
            i < |t.edges| ==>
              var j := Common(t.edges[i], rest);
              j < |t.edges[i]| && j < |rest| ==> WellFormed(Split(t.edges[i], rest, t.children[i], j, v))
  {
    InsertIsMapUpdate(t, rest, v, "");
    var i := Branch(t.edges, rest);
    if i < |t.edges| {
      var j := Common(t.edges[i], rest);
      if j < |t.edges[i]| && j < |rest| {
        SplitLookup(t.edges[i], rest, t.children[i], j, v, "");
      }
    }
  }
}
