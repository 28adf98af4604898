/** BuildBytecode: every statement once in program order, then each batch again in comparator order. */
module BatchCode {
  import opened Ordering
  import opened TreeShape
  import opened TreeHeap
  import opened TreeFacts
  import opened InsertSteps
  import opened BPlusTrees
  import opened Bytecode
  import C = Codegen

  const BATCH: nat := 36

  function Flat(codes: seq<Program>): Program {
    if codes == [] then [] else codes[0] + Flat(codes[1..])
  }

  /** The non-empty slots. */
  function Present(slots: seq<Option<Program>>): seq<Program> {
    if slots == [] then []
    else (if slots[0].Some? then [slots[0].value] else []) + Present(slots[1..])
  }

  /** Insertion into a sorted sequence, and the sort it gives. */
  function Placed(x: Program, s: seq<Program>): seq<Program> {
    if s == [] || !ProgramLess(s[0], x) then [x] + s else [s[0]] + Placed(x, s[1..])
  }

  function Sort(codes: seq<Program>): seq<Program> {
    if codes == [] then [] else Placed(codes[0], Sort(codes[1..]))
  }

  /** One batch: its codes as they come, then sorted. */
  function Batch(slots: seq<Option<Program>>): Program {
    Flat(Present(slots)) + Flat(Sort(Present(slots)))
  }

  /** A batch is 36 consecutive nodes of the AST, empty ones included. */
  function Built(slots: seq<Option<Program>>): Program {
    if |slots| <= BATCH then Batch(slots) else Batch(slots[..BATCH]) + Built(slots[BATCH..])
  }

  // ---- sorting ------------------------------------------------------------------------

  lemma {:induction false} PlacedSorted(x: Program, s: seq<Program>)
    requires NonDescending(ProgramLess, s)
    ensures NonDescending(ProgramLess, Placed(x, s)) && multiset(Placed(x, s)) == multiset(s) + multiset{x}
  {
    hide ProgramLess;
    ComparatorIsStrictTotalOrder();
    if s == [] || !ProgramLess(s[0], x) {
      assert multiset([x] + s) == multiset([x]) + multiset(s);
    } else {
      var t := Placed(x, s[1..]);
      PlacedSorted(x, s[1..]);
      assert s == [s[0]] + s[1..];
      forall j | 0 <= j < |t|
        ensures !ProgramLess(t[j], s[0])
      {
        assert t[j] in multiset(t);
        assert t[j] == x || t[j] in multiset(s[1..]);
      }
    }
  }

  lemma {:induction false} SortSorts(codes: seq<Program>)
    ensures NonDescending(ProgramLess, Sort(codes)) && multiset(Sort(codes)) == multiset(codes)
  {
    hide ProgramLess, Placed;
    if codes != [] {
      SortSorts(codes[1..]);
      PlacedSorted(codes[0], Sort(codes[1..]));
      assert codes == [codes[0]] + codes[1..];
    }
  }

  /** In a strict total order a multiset has one sorted sequence. */
  lemma {:induction false} SortedIsUnique(a: seq<Program>, b: seq<Program>)
    requires NonDescending(ProgramLess, a) && NonDescending(ProgramLess, b) && multiset(a) == multiset(b)
    ensures a == b
  {
    hide ProgramLess, StrictTotal;
    assert |a| == |multiset(a)| == |b|;
    if a != [] {
      HeadIsLeast(a, b);
      assert a == [a[0]] + a[1..] && b == [b[0]] + b[1..];
      assert multiset(a[1..]) == multiset(a) - multiset{a[0]};
      assert multiset(b[1..]) == multiset(b) - multiset{b[0]};
      SortedIsUnique(a[1..], b[1..]);
    }
  }

  lemma {:induction false} HeadIsLeast(a: seq<Program>, b: seq<Program>)
    requires NonDescending(ProgramLess, a) && NonDescending(ProgramLess, b) && multiset(a) == multiset(b)
    requires a != [] && b != []
    ensures a[0] == b[0]
  {
    hide ProgramLess;
    ComparatorIsStrictTotalOrder();
    assert a[0] in multiset(b) && b[0] in multiset(a);
    var i :| 0 <= i < |b| && b[i] == a[0];
    var j :| 0 <= j < |a| && a[j] == b[0];
    assert !ProgramLess(a[0], b[0]) && !ProgramLess(b[0], a[0]);
  }

  // ---- conservation -------------------------------------------------------------------

  lemma {:induction false} FlatAppend(a: seq<Program>, b: seq<Program>)
    ensures Flat(a + b) == Flat(a) + Flat(b)
  {
    if a == [] {
      assert a + b == b;
    } else {
      assert (a + b)[1..] == a[1..] + b;
      FlatAppend(a[1..], b);
    }
  }

  lemma {:induction false} PresentAppend(a: seq<Option<Program>>, b: seq<Option<Program>>)
    ensures Present(a + b) == Present(a) + Present(b)
  {
    if a == [] {
      assert a + b == b;
    } else {
      assert (a + b)[1..] == a[1..] + b;
      PresentAppend(a[1..], b);
    }
  }

  lemma {:induction false} FlatPlaced(x: Program, s: seq<Program>)
    ensures multiset(Flat(Placed(x, s))) == multiset(x) + multiset(Flat(s))
  {
    hide ProgramLess;
    if s == [] || !ProgramLess(s[0], x) {
      assert ([x] + s)[1..] == s;
    } else {
      FlatPlaced(x, s[1..]);
      assert ([s[0]] + Placed(x, s[1..]))[1..] == Placed(x, s[1..]);
    }
  }

  /** Sorting whole codes moves instructions but neither drops nor invents one. */
  lemma {:induction false} FlatSort(codes: seq<Program>)
    ensures multiset(Flat(Sort(codes))) == multiset(Flat(codes))
  {
    hide Placed;
    if codes != [] {
      FlatSort(codes[1..]);
      FlatPlaced(codes[0], Sort(codes[1..]));
    }
  }

  /** Every instruction comes out exactly twice as often as it was emitted. */
  lemma {:induction false} BuiltConserves(slots: seq<Option<Program>>)
    ensures var code := Flat(Present(slots)); multiset(Built(slots)) == multiset(code) + multiset(code)
    decreases |slots|
  {
    if |slots| <= BATCH {
      FlatSort(Present(slots));
    } else {
      var a, b := slots[..BATCH], slots[BATCH..];
      FlatSort(Present(a));
      BuiltConserves(b);
      assert slots == a + b;
      PresentAppend(a, b);
      FlatAppend(Present(a), Present(b));
    }
  }

  lemma BuiltLength(slots: seq<Option<Program>>)
    ensures |Built(slots)| == 2 * |Flat(Present(slots))|
  {
    BuiltConserves(slots);
    var code := Flat(Present(slots));
    assert |Built(slots)| == |multiset(Built(slots))| == |multiset(code) + multiset(code)|;
    assert |multiset(code)| == |code|;
  }

  /** Whole batches can be split off the front. */
  lemma {:induction false} BuiltAppend(a: seq<Option<Program>>, b: seq<Option<Program>>)
    requires |a| % BATCH == 0
    ensures Built(a + b) == Built(a) + Built(b)
    decreases |a|
  {
    BuiltNothing();
    if a == [] {
      assert a + b == b;
    } else if b == [] {
      assert a + b == a;
    } else {
      var first, rest := a[..BATCH], a[BATCH..];
      assert a + b == first + (rest + b) && a == first + rest;
      BuiltFirst(first, rest + b);
      BuiltAppend(rest, b);
      if rest == [] {
        assert first + rest == first;
      } else {
        BuiltFirst(first, rest);
      }
    }
  }

  lemma BuiltNothing()
    ensures Built([]) == []
  {
  }

  /** A whole batch at the front. */
  lemma {:induction false} BuiltFirst(first: seq<Option<Program>>, rest: seq<Option<Program>>)
    requires |first| == BATCH && rest != []
    ensures Built(first + rest) == Built(first) + Built(rest)
  {
    assert (first + rest)[..BATCH] == first && (first + rest)[BATCH..] == rest;
    hide Sort, Flat, Present;
  }

  /** Up to 36 nodes come out in program order and then again in the comparator's order. */
  lemma OneBatch(slots: seq<Option<Program>>) returns (sorted: seq<Program>)
    requires |slots| <= 36
    ensures multiset(sorted) == multiset(Present(slots))
    ensures forall i, j :: 0 <= i < j < |sorted| ==> !ProgramLess(sorted[j], sorted[i])
    ensures Built(slots) == Flat(Present(slots)) + Flat(sorted)
  {
    hide ProgramLess, Sort;
    sorted := Sort(Present(slots));
    SortSorts(Present(slots));
  }

  /** Longer programs are built 36 nodes at a time. */
  lemma {:induction false} FirstBatch(slots: seq<Option<Program>>)
    requires |slots| > 36
    ensures Built(slots) == Built(slots[..36]) + Built(slots[36..])
  {
    hide Batch;
  }

  /** The code of a node without statement is left out; that of several nodes is put together in order. */
  lemma Pieces(a: Program)
    ensures Flat([]) == [] && Flat([a]) == a
    ensures Present([]) == [] && Present([None]) == [] && Present([Some(a)]) == [a]
  {
    assert Flat([a][1..]) == [];
    var none: seq<Option<Program>> := [None];
    assert [Some(a)][1..] == [] && none[1..] == [];
  }

  /** Node by node: its statement's code, and whether it has been moved out. */
  lemma NodeAt(ast: seq<Option<C.Statement>>, n: nat, i: nat)
    requires i < |ast| && n <= |ast|
    ensures Slots(ast)[i] == if ast[i].None? then None else C.EmitStatement(ast[i].value)
    ensures Moved(ast, n)[i] == if i < n then None else ast[i]
  {
    hide C.EmitStatement;
  }

  // ---- the builder --------------------------------------------------------------------

  /** What node `s` of the AST emits; None when the node is empty (or its code generator throws). */
  function Slot(s: Option<C.Statement>): Option<Program> {
    if s.Some? then C.EmitStatement(s.value) else None
  }

  predicate Throws(s: Option<C.Statement>) {
    s.Some? && C.EmitStatement(s.value).None?
  }

  function Slots(ast: seq<Option<C.Statement>>): (slots: seq<Option<Program>>)
    ensures |slots| == |ast|
  {
    seq(|ast|, i requires 0 <= i < |ast| => Slot(ast[i]))
  }

  /** The tree of a batch: valid, with repeated keys allowed, and holding the programs `codes`. */
  ghost predicate Holds(tree: BPlusTree<Program, C.Statement>, codes: seq<Program>)
    reads tree, Nodes(tree.shape)
  {
    && tree.Valid() && tree.multi && tree.less == ProgramLess
    && multiset(KeysOf(tree.Contents())) == multiset(codes)
  }

  method AddCode(tree: BPlusTree<Program, C.Statement>, code: Program, statement: C.Statement,
                 ghost codes: seq<Program>)
    requires Holds(tree, codes)
    modifies tree, Nodes(tree.shape)
    ensures Holds(tree, codes + [code]) && forall x <- Nodes(tree.shape) :: x in old(Nodes(tree.shape)) || fresh(x)
  {
    hide ProgramLess, StrictTotal;
    ghost var before := tree.Contents();
    var pos := tree.Insert(code, statement);
    KeysAfterInsert(before, pos, code, statement);
  }

  lemma HoldsNothing(tree: BPlusTree<Program, C.Statement>)
    requires tree.Valid() && tree.multi && tree.less == ProgramLess && tree.Contents() == []
    ensures Holds(tree, [])
  {
    hide ProgramLess, StrictTotal;
  }

  /** A batch put into a B+ tree that keeps repeated keys. */
  method FillTree(codes: seq<Program>, statements: seq<C.Statement>) returns (tree: BPlusTree<Program, C.Statement>)
    requires |codes| == |statements|
    ensures fresh(tree) && Holds(tree, codes)
  {
    hide ProgramLess, StrictTotal, Holds;
    ComparatorIsStrictTotalOrder();
    tree := new BPlusTree<Program, C.Statement>(ProgramLess, 4, true);
    HoldsNothing(tree);
    assert codes[..0] == [];
    var i := 0;
    while i < |codes|
      invariant i <= |codes| && fresh(tree) && (forall x <- Nodes(tree.shape) :: fresh(x)) && Holds(tree, codes[..i])
    {
      assert codes[..i + 1] == codes[..i] + [codes[i]];
      AddCode(tree, codes[i], statements[i], codes[..i]);
      i := i + 1;
    }
    assert codes[..i] == codes;
  }

  /** Reading the keys back gives the batch in order. */
  method SortBatch(codes: seq<Program>, statements: seq<C.Statement>) returns (sorted: seq<Program>)
    requires |codes| == |statements|
    ensures sorted == Sort(codes)
  {
    hide ProgramLess, Sort;
    var tree := FillTree(codes, statements);
    sorted := tree.GetAllKeys();
    assert sorted == KeysOf(tree.Contents());
    SortSorts(codes);
    SortedIsUnique(sorted, Sort(codes));
  }

  lemma KeysAfterInsert<K, V>(es: seq<(K, V)>, pos: nat, k: K, v: V)
    requires pos <= |es|
    ensures multiset(KeysOf(InsertAt(es, pos, (k, v)))) == multiset(KeysOf(es)) + multiset{k}
  {
    var ks, ks' := KeysOf(es), KeysOf(InsertAt(es, pos, (k, v)));
    assert ks' == ks[..pos] + [k] + ks[pos..];
    assert ks == ks[..pos] + ks[pos..];
  }

  /** The first `n` nodes have been moved out. */
  function Moved(ast: seq<Option<C.Statement>>, n: nat): (moved: seq<Option<C.Statement>>)
    requires n <= |ast|
    ensures |moved| == |ast|
  {
    seq(n, _ => None) + ast[n..]
  }

  lemma MovedNone(ast: seq<Option<C.Statement>>)
    ensures Moved(ast, 0) == ast
  {
  }

  lemma MovedStep(ast: seq<Option<C.Statement>>, n: nat)
    requires n < |ast|
    ensures Moved(ast, n)[n] == ast[n] && Moved(ast, n)[n := None] == Moved(ast, n + 1)
    ensures ast[n].None? ==> Moved(ast, n) == Moved(ast, n + 1)
    ensures Slots(ast)[n] == Slot(ast[n])
  {
    hide Slot;
  }

  /** `codes` is the open batch of the nodes from `start` to `i`, and `result` is what has come out so far. */
  ghost predicate Building(slots: seq<Option<Program>>, start: nat, i: nat, codes: seq<Program>, result: Program) {
    && start <= i <= |slots| && start % BATCH == 0
    && codes == Present(slots[start..i]) && result == Built(slots[..start]) + Flat(codes)
  }

  lemma NoCode()
    ensures Flat([]) == [] && Flat(Sort([])) == []
  {
  }

  lemma NothingBuilt(slots: seq<Option<Program>>)
    ensures Building(slots, 0, 0, [], [])
  {
    assert slots[..0] == [];
  }

  lemma NodeSkipped(slots: seq<Option<Program>>, start: nat, i: nat, codes: seq<Program>, result: Program)
    requires Building(slots, start, i, codes, result) && i < |slots| && slots[i].None?
    ensures Building(slots, start, i + 1, codes, result)
  {
    hide Flat, Built;
    assert slots[start..i + 1] == slots[start..i] + [slots[i]];
    PresentAppend(slots[start..i], [slots[i]]);
  }

  lemma NodeAdded(slots: seq<Option<Program>>, start: nat, i: nat, codes: seq<Program>, result: Program, code: Program)
    requires Building(slots, start, i, codes, result) && i < |slots| && slots[i] == Some(code)
    ensures Building(slots, start, i + 1, codes + [code], result + code)
  {
    hide Built;
    assert slots[start..i + 1] == slots[start..i] + [slots[i]];
    PresentAppend(slots[start..i], [slots[i]]);
    FlatAppend(codes, [code]);
    assert Flat([code]) == code + Flat([]);
    assert result + code == Built(slots[..start]) + (Flat(codes) + code);
  }

  lemma BatchClosed(slots: seq<Option<Program>>, start: nat, i: nat, codes: seq<Program>, result: Program)
    requires Building(slots, start, i, codes, result) && i == start + BATCH
    ensures Building(slots, i, i, [], result + Flat(Sort(codes)))
  {
    var open := slots[start..i];
    assert Built(open) == Batch(open) by { hide Flat, Sort, Present; }
    hide Sort, Flat, Built;
    assert slots[..i] == slots[..start] + open;
    BuiltAppend(slots[..start], open);
    assert slots[i..i] == [] && Present(slots[i..i]) == [];
    assert Flat([]) == [] by { NoCode(); }
    Joined(Built(slots[..start]), Flat(codes), Flat(Sort(codes)));
  }

  lemma {:induction false} LastBatch(slots: seq<Option<Program>>, start: nat, codes: seq<Program>, result: Program)
    requires Building(slots, start, |slots|, codes, result) && |slots| < start + BATCH
    ensures Built(slots) == result + if codes == [] then [] else Flat(Sort(codes))
  {
    hide Sort, Flat, Built, Present;
    SplitLast(slots, start);
    assert slots[start..] == slots[start..|slots|];
    Joined(Built(slots[..start]), Flat(codes), Flat(Sort(codes)));
    if codes == [] { NoCode(); }
  }

  lemma Joined(a: Program, b: Program, c: Program)
    ensures a + b + c == a + (b + c)
  {
  }

  lemma {:induction false} SplitLast(slots: seq<Option<Program>>, start: nat)
    requires start % BATCH == 0 && start <= |slots| < start + BATCH
    ensures Built(slots) == Built(slots[..start]) + Batch(slots[start..])
  {
    hide Batch;
    assert slots == slots[..start] + slots[start..];
    BuiltAppend(slots[..start], slots[start..]);
  }

  class Compiler {
    var ast: seq<Option<C.Statement>>

    constructor (ast: seq<Option<C.Statement>>)
      ensures this.ast == ast
    {
      this.ast := ast;
    }

    /**
     The statements are moved out of the AST as they are emitted. None is the exception of a node that has no
     code; the nodes before it are gone by then.
     */
    method BuildBytecode() returns (r: Option<Program>, ghost done: nat)
      modifies this
      ensures done <= |old(ast)| && ast == Moved(old(ast), done) && forall j :: 0 <= j < done ==> !Throws(old(ast)[j])
      ensures r.None? ==> done < |old(ast)| && Throws(old(ast)[done])
      ensures r.Some? ==> done == |old(ast)| && r.value == Built(Slots(old(ast)))
    {
      hide C.EmitStatement, Built, Flat, Present, Sort, Building, Moved, Slots;
      MovedNone(ast);
      var result: Program, counter := [], 0;
      var codes: seq<Program>, statements: seq<C.Statement> := [], [];
      ghost var slots, was, start: nat := Slots(ast), ast, 0;
      var i := 0;
      NothingBuilt(slots);
      while i < |ast|
        invariant i <= |was| && ast == Moved(was, i) && forall j :: 0 <= j < i ==> !Throws(was[j])
        invariant start + counter == i && counter < BATCH && |statements| == |codes|
        invariant Building(slots, start, i, codes, result)
      {
        var node := ast[i];
        MovedStep(was, i);
        if node.Some? {
          var code := C.EmitStatement(node.value);
          if code.None? { return None, i; }
          NodeAdded(slots, start, i, codes, result, code.value);
          result := result + code.value;
          codes := codes + [code.value];
          statements := statements + [node.value];
          ast := ast[i := None];
        } else {
          NodeSkipped(slots, start, i, codes, result);
        }
        i := i + 1;
        if counter >= 35 {
          var sorted := SortBatch(codes, statements);
          BatchClosed(slots, start, i, codes, result);
          result := result + Flat(sorted);
          codes, statements, counter, start := [], [], 0, i;
        } else {
          counter := counter + 1;
        }
      }
      LastBatch(slots, start, codes, result);
      if codes != [] {
        var sorted := SortBatch(codes, statements);
        result := result + Flat(sorted);
      }
      r, done := Some(result), i;
    }
  }
}
