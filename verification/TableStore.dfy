/** A table with its secondary index: the locked bodies of the table operations. */
module TableStore {
  import opened Ordering
  import opened DatabaseImage
  import opened IndexModel
  import opened BPlusTrees
  import opened TreeHeap
  import TreeFacts
  import InsertSteps
  import B = Bytecode

  /** What ValidateRow accepts, `view` being the index on `column` if there is one. */
  ghost predicate Accepted(schema: Option<Schema>, row: Row, view: Option<map<string, nat>>, column: string) {
    && schema.Some?
    && forall c <- schema.value ::
         && (c.isPrimaryKey || c.isNotNull ==> c.name in row)
         && (c.isUnique && view.Some? && c.name == column && column in row ==> row[column] !in view.value)
  }

  /** The schema declares `column` unique and not null. */
  predicate DeclaredKey(schema: Option<Schema>, column: string) {
    schema.Some? && exists c <- schema.value :: c.name == column && c.isUnique && (c.isNotNull || c.isPrimaryKey)
  }

  /** Any row ValidateRow accepts may be inserted when the indexed column is declared unique and not null. */
  lemma AcceptedIsFresh(schema: Option<Schema>, row: Row, view: map<string, nat>, column: string)
    requires DeclaredKey(schema, column) && Accepted(schema, row, Some(view), column)
    ensures column in row && row[column] !in view
  {
    var c :| c in schema.value && c.name == column && c.isUnique && (c.isNotNull || c.isPrimaryKey);
  }

  /** The updates after which some index can agree: at most one row gets the value, and no other row has it. */
  ghost predicate Updatable(rows: Table, column: string, condition: Row -> bool, values: Row) {
    column in values ==>
      && (forall i, j :: 0 <= i < j < |rows| ==> !(condition(rows[i]) && condition(rows[j])))
      && (forall i, j :: 0 <= i < |rows| && 0 <= j < |rows| && i != j && condition(rows[i]) && column in rows[j] ==>
            rows[j][column] != values[column])
  }

  /** The update gives the column to one of the first `n` rows, which lacks it, while some row holds "" there. */
  ghost predicate Forgets(rows: Table, column: string, condition: Row -> bool, values: Row, n: nat)
    requires n <= |rows|
  {
    && column in values && HasEmptyValue(rows, column)
    && exists i :: 0 <= i < n && condition(rows[i]) && column !in rows[i]
  }

  /** Some index can agree after an insert exactly when the row's value is unused (see AgreesDistinct). */
  lemma InsertKeepsDistinctExactly(view: map<string, nat>, rows: Table, column: string, row: Row)
    requires Agrees(view, rows, column)
    ensures Distinct(rows + [row], column) <==> (column in row ==> row[column] !in view)
  {
    AgreesDistinct(view, rows, column);
    var all := rows + [row];
    assert forall i :: 0 <= i < |rows| ==> all[i] == rows[i];
    if column in row && row[column] in view {
      var i := view[row[column]];
      assert all[i][column] == all[|rows|][column];
    }
  }

  /** Some index can agree after an update exactly when no two rows end up with the new value. */
  lemma UpdateKeepsDistinctExactly(rows: Table, column: string, condition: Row -> bool, values: Row)
    requires Distinct(rows, column)
    ensures Distinct(Updated(rows, condition, values), column)
            <==> (column in values ==>
                    forall i, j :: 0 <= i < |rows| && 0 <= j < |rows| && i != j && condition(rows[i]) ==>
                      !condition(rows[j]) && !(column in rows[j] && rows[j][column] == values[column]))
  {
    var updated := Updated(rows, condition, values);
    if Distinct(updated, column) && column in values {
      forall i, j | 0 <= i < |rows| && 0 <= j < |rows| && i != j && condition(rows[i])
        ensures !condition(rows[j]) && !(column in rows[j] && rows[j][column] == values[column])
      {
        assert updated[i][column] == values[column];
        assert i < j ==> !(column in updated[j] && updated[j][column] == values[column]);
        assert j < i ==> !(column in updated[j] && updated[j][column] == values[column]);
      }
    }
  }

  /** Before the row that matches nothing was forgotten. */
  lemma ForgetsNext(rows: Table, column: string, condition: Row -> bool, values: Row, i: nat)
    requires i < |rows| && condition(rows[i]) && Updatable(rows, column, condition, values)
    ensures !Forgets(rows, column, condition, values, i)
  {
  }

  lemma ForgetsSkips(rows: Table, column: string, condition: Row -> bool, values: Row, i: nat)
    requires i < |rows| && !condition(rows[i])
    ensures Forgets(rows, column, condition, values, i + 1) <==> Forgets(rows, column, condition, values, i)
  {
  }

  lemma NothingForgotten(rows: Table, column: string, condition: Row -> bool, values: Row)
    ensures !Forgets(rows, column, condition, values, 0) && !AnyRow(rows[..0], condition)
  {
  }

  lemma AnyRowNext(rows: Table, condition: Row -> bool, i: nat)
    requires i < |rows|
    ensures AnyRow(rows[..i + 1], condition) <==> AnyRow(rows[..i], condition) || condition(rows[i])
  {
    var a, b := rows[..i], rows[..i + 1];
    assert b[i] == rows[i] && forall j :: 0 <= j < i ==> a[j] == b[j];
  }

  /** The table before row `i` is the first to match is the table at the start. */
  lemma OnlyRow(before: Table, rows: Table, column: string, condition: Row -> bool, values: Row, i: nat)
    requires i < |rows| == |before| && condition(before[i]) && column in values && Updatable(before, column, condition, values)
    requires forall j :: 0 <= j < |rows| ==> rows[j] == if j < i && condition(before[j]) then before[j] + values else before[j]
    ensures rows == before
    ensures Forgets(before, column, condition, values, i + 1) <==> column !in rows[i] && HasEmptyValue(rows, column)
  {
  }

  class IndexedTable {
    var schema: Option<Schema>
    var rows: Table
    /* Indexes_ has an entry for the table, perhaps an empty one */
    var entry: bool
    /* the one index there may be, and the column it is on */
    var column: string
    var index: BPlusTree?<string, nat>

    ghost function Repr(): set<object>
      reads this, index
    {
      {this} + (if index == null then {} else {index} + Nodes(index.shape))
    }

    /** The index is a well-formed tree with unique keys. */
    ghost predicate Structure()
      reads this, index, if index == null then {} else Nodes(index.shape)
    {
      index != null ==> entry && index.Valid() && !index.multi && index.less == B.TextLess
    }

    /** The index agrees with the rows. */
    ghost predicate Valid()
      reads this, index, if index == null then {} else Nodes(index.shape)
    {
      Structure() && (index != null ==> Agrees(index.View(), rows, column))
    }

    constructor (schema: Option<Schema>)
      ensures Valid() && fresh(Repr()) && rows == [] && index == null && !entry && this.schema == schema
    {
      this.schema, rows, entry, column, index := schema, [], false, "", null;
    }

    /**
     AddIndex enters every row that has the column, once. The index agrees with the table exactly when no value
     repeats; with repeated values it is a tree with repeated keys.
     */
    method AddIndex(columnName: string)
      requires Valid() && index == null
      modifies this
      ensures index != null && fresh(index) && fresh(Nodes(index.shape)) && index.Valid() && index.less == B.TextLess
      ensures multiset(index.Contents()) == Bindings(rows, columnName, |rows|)
      ensures Valid() <==> Distinct(rows, columnName)
      ensures rows == old(rows) && schema == old(schema) && column == columnName && entry
    {
      hide B.TextLess, StrictTotal, Distinct, Agrees, Bindings;
      var tree := FilledIndex(columnName);
      assert rows[..|rows|] == rows;
      index, column, entry := tree, columnName, true;
    }

    /** The tree holds the first `n` rows that have the column. */
    ghost predicate Holds(tree: BPlusTree<string, nat>, columnName: string, n: nat)
      reads this, tree, Nodes(tree.shape)
      requires n <= |rows|
    {
      && tree.Valid() && tree.less == B.TextLess && (tree.multi <==> !Distinct(rows, columnName))
      && multiset(tree.Contents()) == Bindings(rows, columnName, n)
      && (!tree.multi ==> Agrees(tree.View(), rows[..n], columnName))
    }

    lemma HoldsNothing(tree: BPlusTree<string, nat>, columnName: string)
      requires tree.Valid() && tree.less == B.TextLess && (tree.multi <==> !Distinct(rows, columnName))
      requires tree.Contents() == []
      ensures Holds(tree, columnName, 0)
    {
      hide B.TextLess, StrictTotal, Distinct;
      assert rows[..0] == [] && tree.View() == map[];
    }

    /** The loop over the rows. */
    method FilledIndex(columnName: string) returns (tree: BPlusTree<string, nat>)
      ensures fresh(tree) && fresh(Nodes(tree.shape)) && Holds(tree, columnName, |rows|)
    {
      hide B.TextLess, StrictTotal, Distinct, Holds;
      TextIsOrdered();
      tree := new BPlusTree<string, nat>(B.TextLess, 4, !Distinct(rows, columnName));
      var i := 0;
      HoldsNothing(tree, columnName);
      while i < |rows|
        invariant i <= |rows| && fresh(tree) && fresh(Nodes(tree.shape)) && Holds(tree, columnName, i)
      {
        EnterRow(tree, columnName, i);
        i := i + 1;
      }
    }

    /** The loop body. */
    method EnterRow(tree: BPlusTree<string, nat>, columnName: string, i: nat)
      requires i < |rows| && Holds(tree, columnName, i) && {this as object} !! {tree as object} + Nodes(tree.shape)
      modifies tree, Nodes(tree.shape)
      ensures Holds(tree, columnName, i + 1)
      ensures forall x <- Nodes(tree.shape) :: x in old(Nodes(tree.shape)) || fresh(x)
    {
      hide B.TextLess, StrictTotal, Distinct, Agrees;
      assert rows[..i + 1] == rows[..i] + [rows[i]];
      if !tree.multi {
        AgreesAppend(tree.View(), rows[..i], columnName, rows[i]);
        tree.ViewHasKeys();
      }
      if columnName in rows[i] {
        if !tree.multi { NotYetIndexed(tree.View(), rows, columnName, i); }
        ghost var was := tree.Contents();
        ghost var pos := tree.Insert(rows[i][columnName], i);
        EnteredOnce(was, pos, (rows[i][columnName], i));
      }
    }

    /** A new value enters the index. */
    method Enter(value: string, i: nat)
      requires Structure() && index != null && value !in index.View()
      modifies index, Nodes(index.shape)
      ensures Structure() && index.View() == old(index.View())[value := i]
      ensures forall x <- Nodes(index.shape) :: x in old(Nodes(index.shape)) || fresh(x)
    {
      index.ViewHasKeys();
      var _ := index.Insert(value, i);
    }

    method Insert(row: Row)
      requires Valid() && (index != null && column in row ==> row[column] !in index.View())
      modifies Repr()
      ensures Valid() && rows == old(rows) + [row] && index == old(index) && column == old(column) &&
              schema == old(schema)
      ensures entry == (old(entry) || row != map[]) && (forall x <- Repr() :: x in old(Repr()) || fresh(x))
    {
      hide Agrees, B.TextLess, StrictTotal;
      rows := rows + [row];
      if row != map[] { entry := true; }
      if index != null {
        AgreesAppend(index.View(), old(rows), column, row);
        if column in row {
          Enter(row[column], |rows| - 1);
        }
      }
    }

    /**
     Update: every matching row gets the new values; the index loses the old value and gains the new one. It agrees
     afterwards exactly unless a row got the column while another row's value there is the empty string.
     */
    method Update(condition: Row -> bool, values: Row) returns (modified: bool)
      requires Valid() && (index != null ==> Updatable(rows, column, condition, values))
      modifies Repr()
      ensures Structure() && rows == Updated(old(rows), condition, values) && modified == AnyRow(old(rows), condition)
      ensures Valid() <==> index == null || !Forgets(old(rows), column, condition, values, |old(rows)|)
      ensures index == old(index) && column == old(column) && schema == old(schema)
      ensures entry == (old(entry) || (modified && values != map[])) && (forall x <- Repr() :: x in old(Repr()) || fresh(x))
    {
      hide Agrees, Forgets, Updatable, AnyRow, B.TextLess, StrictTotal;
      NothingForgotten(rows, column, condition, values);
      modified := false;
      var i := 0;
      while i < |rows|
        invariant i <= |rows| == |old(rows)| && Structure()
        invariant Valid() <==> index == null || !Forgets(old(rows), column, condition, values, i)
        invariant index == old(index) && column == old(column) && schema == old(schema)
        invariant forall j :: 0 <= j < |rows| ==>
                    rows[j] == if j < i && condition(old(rows)[j]) then old(rows)[j] + values else old(rows)[j]
        invariant modified == AnyRow(old(rows)[..i], condition)
        invariant entry == (old(entry) || (modified && values != map[]))
        invariant forall x <- Repr() :: x in old(Repr()) || fresh(x)
      {
        AnyRowNext(old(rows), condition, i);
        if condition(rows[i]) {
          if index != null { ForgetsNext(old(rows), column, condition, values, i); }
          UpdateRow(i, values, condition, old(rows));
          modified := true;
        } else {
          ForgetsSkips(old(rows), column, condition, values, i);
        }
        i := i + 1;
      }
      assert old(rows)[..i] == old(rows);
      assert rows == Updated(old(rows), condition, values);
    }

    /** The index entry `was` is replaced by `now`. */
    method Rebind(was: string, now: string, i: nat)
      requires Structure() && index != null && now !in index.View() - {was}
      modifies index, Nodes(index.shape)
      ensures Structure() && index.View() == (old(index.View()) - {was})[now := i]
      ensures forall x <- Nodes(index.shape) :: x in old(Nodes(index.shape)) || fresh(x)
    {
      var _, _ := index.Delete(was);
      Enter(now, i);
    }

    /** The body of the row loop. */
    method UpdateRow(i: nat, values: Row, ghost condition: Row -> bool, ghost before: Table)
      requires Valid() && i < |rows| == |before| && rows[i] == before[i] && condition(before[i])
      requires index != null ==> !Forgets(before, column, condition, values, i)
      requires index != null ==> Updatable(before, column, condition, values)
      requires forall j :: 0 <= j < |rows| ==>
                 rows[j] == if j < i && condition(before[j]) then before[j] + values else before[j]
      modifies Repr()
      ensures Structure() && rows == old(rows)[i := old(rows)[i] + values]
      ensures Valid() <==> index == null || !Forgets(before, column, condition, values, i + 1)
      ensures index == old(index) && column == old(column) && schema == old(schema)
      ensures entry == (old(entry) || values != map[]) && (forall x <- Repr() :: x in old(Repr()) || fresh(x))
    {
      if values != map[] { entry := true; }
      if index != null {
        if column in values {
          OnlyRow(before, rows, column, condition, values, i);
          AgreesReplacedExactly(index.View(), rows, column, i, values);
          Rebind(ValueIn(rows[i], column), values[column], i);
        } else {
          AgreesElsewhere(index.View(), rows, column, i, values);
        }
      }
      rows := rows[i := rows[i] + values];
    }

    /** Delete: the index forgets the removed rows but keeps the old numbers of the others. */
    method Delete(condition: Row -> bool)
      requires Valid()
      modifies Repr()
      ensures Structure() && rows == Kept(old(rows), condition)
      ensures Valid() <==> index == null || RemovesSuffix(old(rows), column, condition)
      ensures index == old(index) && column == old(column) && schema == old(schema)
      ensures forall x <- Repr() :: x in old(Repr()) || fresh(x)
    {
      hide Kept, B.TextLess, StrictTotal, Remaining, RemovesSuffix, Distinct, Agrees;
      if index != null {
        AgreesDistinct(index.View(), rows, column);
        RemainingAll(index.View(), rows, column, condition);
      }
      var i := 0;
      while i < |rows|
        invariant i <= |rows| && rows == old(rows) && Structure()
        invariant index == old(index) && column == old(column) && schema == old(schema)
        invariant index != null ==> Distinct(rows, column) && Remaining(index.View(), rows, column, condition, i)
        invariant forall x <- Repr() :: x in old(Repr()) || fresh(x)
      {
        ForgetRow(i, condition);
        i := i + 1;
      }
      rows := Kept(rows, condition);
      if index != null { DeleteAgreesExactly(index.View(), old(rows), column, condition); }
    }

    /** The body of the row loop. */
    method ForgetRow(i: nat, condition: Row -> bool)
      requires Structure() && i < |rows|
      requires index != null ==> Distinct(rows, column) && Remaining(index.View(), rows, column, condition, i)
      modifies Repr()
      ensures Structure() && rows == old(rows) && index == old(index) && column == old(column) && schema == old(schema)
      ensures index != null ==> Remaining(index.View(), rows, column, condition, i + 1)
      ensures forall x <- Repr() :: x in old(Repr()) || fresh(x)
    {
      if index != null { RemainingStep(index.View(), rows, column, condition, i); }
      hide Remaining;
      if condition(rows[i]) {
        if rows[i] != map[] { entry := true; }
        if index != null && column in rows[i] {
          var _, _ := index.Delete(rows[i][column]);
        }
      }
    }

    /** Select: once there is an entry only the index is consulted. */
    method Select(condition: Row -> bool) returns (result: Table)
      requires Valid()
      ensures !entry ==> result == Scan(rows, condition) && FoundInOrder(result, rows, condition)
      ensures entry && index == null ==> result == []
      ensures index != null ==> multiset(result) == multiset(Scan(rows, Having(condition, column)))
      ensures index != null ==>
                && (forall i :: 0 <= i < |result| ==> column in result[i])
                && forall i, j :: 0 <= i < j < |result| ==> B.Lexicographic(result[i][column], result[j][column])
    {
      hide Scan, Picked, B.TextLess, B.Lexicographic, FoundInOrder;
      ScanInOrder(rows, condition);
      if entry {
        result := [];
        if index != null {
          result := SelectByIndex(condition);
        }
      } else {
        result := SelectByScan(condition);
      }
    }

    method SelectByScan(condition: Row -> bool) returns (result: Table)
      ensures result == Scan(rows, condition)
    {
      result := [];
      var i := 0;
      while i < |rows|
        invariant i <= |rows| && result == Scan(rows[..i], condition)
      {
        assert rows[..i + 1][..i] == rows[..i];
        if condition(rows[i]) { result := result + [rows[i]]; }
        i := i + 1;
      }
      assert rows[..i] == rows;
    }

    method SelectByIndex(condition: Row -> bool) returns (result: Table)
      requires Valid() && index != null
      ensures multiset(result) == multiset(Scan(rows, Having(condition, column))) && SortedBy(result, column)
    {
      hide Scan, B.TextLess, B.Lexicographic, Agrees, StrictTotal, Picked, InTable, SortedBy, Ascending;
      var keys := IndexedKeys();
      ghost var ns := Numbers(index.View(), keys);
      IndexScan(index.View(), rows, column, keys, condition);
      result := [];
      var k := 0;
      NothingPicked(rows, ns, condition);
      while k < |keys|
        invariant k <= |keys| && Valid() && index.View() == old(index.View())
        invariant InTable(ns[..k], rows) && result == Picked(rows, ns[..k], condition)
      {
        assert keys[k] in keys;
        var row := FetchRow(keys[k]);
        PickedStep(rows, ns, k, condition);
        if row.Some? && condition(row.value) { result := result + [row.value]; }
        k := k + 1;
      }
      assert ns[..k] == ns;
    }

    /** GetAllKeys: the values of the indexed column, in order. */
    method IndexedKeys() returns (keys: seq<string>)
      requires Valid() && index != null
      ensures Valid() && index.View() == old(index.View())
      ensures Ascending(B.TextLess, keys) && forall k :: k in keys <==> k in index.View()
    {
      hide B.TextLess, Agrees, StrictTotal;
      NodesAllocated(index.shape);
      index.ViewHasKeys();
      keys := index.GetAllKeys();
      KeysOfView(index.View(), index.Contents(), keys);
    }

    /** Search, and the row it points at. */
    method FetchRow(key: string) returns (row: Option<Row>)
      requires Valid() && index != null && key in index.View()
      ensures Valid() && index.View() == old(index.View())
      ensures index.View()[key] < |rows| && row == Some(rows[index.View()[key]])
    {
      hide B.TextLess, StrictTotal;
      NodesAllocated(index.shape);
      var rowIndex := index.Search(key);
      row := if rowIndex.Some? && rowIndex.value < |rows| then Some(rows[rowIndex.value]) else None;
    }

    method ValidateRow(row: Row) returns (ok: bool)
      requires Valid()
      ensures ok <==> Accepted(schema, row, if index == null then None else Some(index.View()), column)
      ensures ok <==> && schema.Some?
                      && forall i :: 0 <= i < |schema.value| ==>
                           var c := schema.value[i];
                           && (c.isPrimaryKey || c.isNotNull ==> c.name in row)
                           && (c.isUnique && index != null && c.name == column && c.name in row ==>
                                 row[c.name] !in index.View())
    {
      if schema.None? { return false; }
      var columns := schema.value;
      var i := 0;
      while i < |columns|
        invariant i <= |columns| && (index != null ==> index.Valid() && index.View() == old(index.View()))
        invariant Accepted(Some(columns[..i]), row, if index == null then None else Some(index.View()), column)
      {
        var c := columns[i];
        assert columns[..i + 1] == columns[..i] + [c];
        if (c.isPrimaryKey || c.isNotNull) && c.name !in row { return false; }
        if c.isUnique && index != null && c.name == column && c.name in row {
          NodesAllocated(index.shape);
          var found := index.Search(row[c.name]);
          if found.Some? { return false; }
        }
        i := i + 1;
      }
      assert columns[..i] == columns;
      ok := true;
    }

    /** A row ValidateRow accepts can be inserted, and the index still agrees. */
    method InsertValidated(row: Row) returns (ok: bool)
      requires Valid() && (index != null ==> DeclaredKey(schema, column))
      modifies Repr()
      ensures Valid() && rows == if ok then old(rows) + [row] else old(rows)
    {
      if index != null { NodesAllocated(index.shape); }
      ok := ValidateRow(row);
      if ok {
        if index != null { AcceptedIsFresh(schema, row, index.View(), column); }
        Insert(row);
      }
    }
  }

  /**
   Inserting any row with a column into a table that was never indexed makes an empty index entry, and from then
   on a query finds nothing at all.
   */
  method InsertHidesRows(t: IndexedTable, row: Row, condition: Row -> bool) returns (found: Table)
    requires t.Valid() && t.index == null && row != map[]
    modifies t.Repr()
    ensures t.rows == old(t.rows) + [row] && found == []
  {
    t.Insert(row);
    found := t.Select(condition);
  }

  lemma NothingPicked(rows: Table, ns: seq<nat>, condition: Row -> bool)
    ensures InTable(ns[..0], rows) && Picked(rows, ns[..0], condition) == []
  {
  }

  lemma {:induction false} PickedStep(rows: Table, ns: seq<nat>, k: nat, condition: Row -> bool)
    requires InTable(ns, rows) && k < |ns|
    ensures InTable(ns[..k], rows) && InTable(ns[..k + 1], rows) && ns[k] < |rows|
    ensures Picked(rows, ns[..k + 1], condition)
            == Picked(rows, ns[..k], condition) + if condition(rows[ns[k]]) then [rows[ns[k]]] else []
  {
    assert ns[..k + 1][..k] == ns[..k];
  }

  lemma KeysOfView(view: map<string, nat>, contents: seq<(string, nat)>, keys: seq<string>)
    requires forall k :: k in view <==> TreeFacts.HasKey(contents, k)
    requires |keys| == |contents| && forall i :: 0 <= i < |keys| ==> keys[i] == contents[i].0
    ensures forall k :: k in keys <==> k in view
  {
  }

  /**
   When a query through the index finds what a scan finds: without an entry always, with an empty entry only if
   nothing matches, with an index only if no matching row lacks the column.
   */
  predicate Faithful(entry: bool, indexed: bool, column: string, rows: Table, condition: Row -> bool) {
    !entry || (forall i :: 0 <= i < |rows| && condition(rows[i]) ==> indexed && column in rows[i])
  }

  lemma {:induction false} ScanSame(rows: Table, c: Row -> bool, d: Row -> bool)
    requires forall i :: 0 <= i < |rows| ==> c(rows[i]) == d(rows[i])
    ensures Scan(rows, c) == Scan(rows, d)
  {
    if rows != [] { ScanSame(rows[..|rows| - 1], c, d); }
  }

  lemma {:induction false} ScanLength(rows: Table, c: Row -> bool, d: Row -> bool)
    requires forall i :: 0 <= i < |rows| && d(rows[i]) ==> c(rows[i])
    ensures |Scan(rows, d)| <= |Scan(rows, c)|
    ensures |Scan(rows, d)| == |Scan(rows, c)| ==> forall i :: 0 <= i < |rows| && c(rows[i]) ==> d(rows[i])
  {
    if rows != [] {
      ScanLength(rows[..|rows| - 1], c, d);
      assert forall i :: 0 <= i < |rows| - 1 ==> rows[i] == rows[..|rows| - 1][i];
    }
  }

  /** A stronger condition finds the same rows exactly when no row makes a difference. */
  lemma ScanAll(rows: Table, c: Row -> bool, d: Row -> bool)
    requires forall i :: 0 <= i < |rows| && d(rows[i]) ==> c(rows[i])
    ensures multiset(Scan(rows, d)) == multiset(Scan(rows, c)) <==> forall i :: 0 <= i < |rows| && c(rows[i]) ==> d(rows[i])
  {
    hide Scan;
    ScanLength(rows, c, d);
    if multiset(Scan(rows, d)) == multiset(Scan(rows, c)) {
      assert |multiset(Scan(rows, d))| == |Scan(rows, d)| && |multiset(Scan(rows, c))| == |Scan(rows, c)|;
    }
    if forall i :: 0 <= i < |rows| && c(rows[i]) ==> d(rows[i]) { ScanSame(rows, c, d); }
  }

  /** Select agrees with a plain scan exactly in the faithful states. */
  lemma {:induction false} SelectIsScanExactly(entry: bool, indexed: bool, column: string, rows: Table,
                                               condition: Row -> bool, result: Table)
    requires !entry ==> result == Scan(rows, condition) && !indexed
    requires entry && !indexed ==> result == []
    requires indexed ==> multiset(result) == multiset(Scan(rows, Having(condition, column)))
    ensures multiset(result) == multiset(Scan(rows, condition)) <==> Faithful(entry, indexed, column, rows, condition)
  {
    if indexed {
      ScanAll(rows, condition, Having(condition, column));
    } else if entry {
      ScanAll(rows, condition, r => false);
      ScanNothing(rows);
    }
  }

  lemma {:induction false} ScanNothing(rows: Table)
    ensures Scan(rows, r => false) == []
  {
    if rows != [] { ScanNothing(rows[..|rows| - 1]); }
  }

  lemma EnteredOnce(es: seq<(string, nat)>, pos: nat, e: (string, nat))
    requires pos <= |es|
    ensures multiset(InsertSteps.InsertAt(es, pos, e)) == multiset(es) + multiset{e}
  {
    assert es == es[..pos] + es[pos..];
  }

  lemma NotYetIndexed(view: map<string, nat>, rows: Table, column: string, i: nat)
    requires i < |rows| && Distinct(rows, column) && column in rows[i] && Agrees(view, rows[..i], column)
    ensures rows[i][column] !in view
  {
  }
}
