/** What it means for an index to agree with its table, and what each operation does to that. */
module IndexModel {
  import opened Ordering
  import opened DatabaseImage
  import B = Bytecode

  /** `view` maps the value of `column` in each row that has it to the number of that row, and nothing else. */
  ghost predicate Agrees(view: map<string, nat>, rows: Table, column: string) {
    && (forall v <- view :: view[v] < |rows| && column in rows[view[v]] && rows[view[v]][column] == v)
    && (forall i :: 0 <= i < |rows| && column in rows[i] ==> rows[i][column] in view && view[rows[i][column]] == i)
  }

  /** No two rows share a value in `column`. */
  ghost predicate Distinct(rows: Table, column: string) {
    forall i, j :: 0 <= i < j < |rows| && column in rows[i] && column in rows[j] ==> rows[i][column] != rows[j][column]
  }

  lemma AgreesDistinct(view: map<string, nat>, rows: Table, column: string)
    requires Agrees(view, rows, column)
    ensures Distinct(rows, column)
  {
  }

  /** std::string's order is a strict total order. */
  lemma TextIsOrdered()
    ensures StrictTotal(B.TextLess)
  {
    hide B.TextLess;
    forall a, b, c: string
      ensures B.OrdersThree(B.TextLess(a, b), B.TextLess(b, a), B.TextLess(b, c), B.TextLess(a, c), a, b)
    {
      B.TextOrder(a, b, c);
    }
  }

  // ---- building, inserting, updating --------------------------------------------------

  /** The value and the number of each of the first `n` rows that has the column. */
  ghost function Bindings(rows: Table, column: string, n: nat): multiset<(string, nat)>
    requires n <= |rows|
  {
    if n == 0 then multiset{}
    else Bindings(rows, column, n - 1) + if column in rows[n - 1] then multiset{(rows[n - 1][column], n - 1)} else multiset{}
  }

  /** Each row that has the column is there once, with its value and its number, and nothing else is. */
  lemma {:induction false} BindingsCount(rows: Table, column: string, n: nat, value: string, i: nat)
    requires n <= |rows|
    ensures Bindings(rows, column, n)[(value, i)]
         == if i < n && column in rows[i] && rows[i][column] == value then 1 else 0
  {
    if n > 0 { BindingsCount(rows, column, n - 1, value, i); }
  }

  lemma AgreesAppend(view: map<string, nat>, rows: Table, column: string, row: Row)
    requires Agrees(view, rows, column)
    ensures column !in row ==> Agrees(view, rows + [row], column)
    ensures column in row && row[column] !in view ==> Agrees(view[row[column] := |rows|], rows + [row], column)
  {
  }

  /** Row `i` changed in other columns only. */
  lemma AgreesElsewhere(view: map<string, nat>, rows: Table, column: string, i: nat, values: Row)
    requires Agrees(view, rows, column) && i < |rows| && column !in values
    ensures Agrees(view, rows[i := rows[i] + values], column)
  {
  }

  /** The value std::unordered_map's operator[] reads, an absent one being created empty. */
  function ValueIn(row: Row, column: string): string {
    if column in row then row[column] else ""
  }

  /** Some row's value in `column` is the empty string. */
  ghost predicate HasEmptyValue(rows: Table, column: string) {
    exists i :: 0 <= i < |rows| && column in rows[i] && rows[i][column] == ""
  }

  /**
   Row `i` given an unused value: the old binding goes, the new one comes. The index agrees afterwards exactly if the
   row had the column or no row holds the empty string there, for the code then removes that row's binding.
   */
  lemma AgreesReplacedExactly(view: map<string, nat>, rows: Table, column: string, i: nat, values: Row)
    requires Agrees(view, rows, column) && i < |rows| && column in values
    requires forall j :: 0 <= j < |rows| && j != i && column in rows[j] ==> rows[j][column] != values[column]
    ensures values[column] !in view - {ValueIn(rows[i], column)}
    ensures Agrees((view - {ValueIn(rows[i], column)})[values[column] := i], rows[i := rows[i] + values], column)
       <==> column in rows[i] || !HasEmptyValue(rows, column)
  {
    var view', rows' := (view - {ValueIn(rows[i], column)})[values[column] := i], rows[i := rows[i] + values];
    if column !in rows[i] && HasEmptyValue(rows, column) {
      var j :| 0 <= j < |rows| && column in rows[j] && rows[j][column] == "";
      assert rows'[j] == rows[j] && "" !in view';
    }
  }

  /** Giving the first of these rows a value makes the index forget the second. */
  lemma EmptyValueIsForgotten()
    ensures var rows: Table, view, values := [map[], map["c" := ""]], map["" := 1], map["c" := "x"];
            && Agrees(view, rows, "c")
            && !Agrees((view - {ValueIn(rows[0], "c")})["x" := 0], rows[0 := rows[0] + values], "c")
  {
    var rows: Table, view, values := [map[], map["c" := ""]], map["" := 1 as nat], map["c" := "x"];
    assert rows[1]["c"] == "";
    AgreesReplacedExactly(view, rows, "c", 0, values);
  }

  // ---- deleting -----------------------------------------------------------------------

  /** The bindings of the rows not yet removed: those from `n` on, and those the condition spares. */
  ghost predicate Remaining(view: map<string, nat>, rows: Table, column: string, condition: Row -> bool, n: nat) {
    && (forall v <- view :: view[v] < |rows| && column in rows[view[v]] && rows[view[v]][column] == v
                            && (view[v] < n ==> !condition(rows[view[v]])))
    && (forall i :: 0 <= i < |rows| && column in rows[i] && (i < n ==> !condition(rows[i]))
                    ==> rows[i][column] in view && view[rows[i][column]] == i)
  }

  lemma RemainingAll(view: map<string, nat>, rows: Table, column: string, condition: Row -> bool)
    requires Agrees(view, rows, column)
    ensures Remaining(view, rows, column, condition, 0)
  {
  }

  lemma RemainingStep(view: map<string, nat>, rows: Table, column: string, condition: Row -> bool, n: nat)
    requires Remaining(view, rows, column, condition, n) && n < |rows| && Distinct(rows, column)
    ensures Remaining(if condition(rows[n]) && column in rows[n] then view - {rows[n][column]} else view,
                      rows, column, condition, n + 1)
  {
  }

  /** How many of the first `j` rows stay. */
  function StayBefore(rows: Table, condition: Row -> bool, j: nat): (n: nat)
    requires j <= |rows|
    ensures n <= j
  {
    if j == 0 then 0 else StayBefore(rows, condition, j - 1) + if condition(rows[j - 1]) then 0 else 1
  }

  lemma {:induction false} KeptAppend(a: Table, b: Table, condition: Row -> bool)
    ensures Kept(a + b, condition) == Kept(a, condition) + Kept(b, condition)
  {
    if a == [] {
      assert a + b == b;
    } else {
      assert (a + b)[1..] == a[1..] + b;
      KeptAppend(a[1..], b, condition);
    }
  }

  lemma {:induction false} KeptLength(rows: Table, condition: Row -> bool, j: nat)
    requires j <= |rows|
    ensures |Kept(rows[..j], condition)| == StayBefore(rows, condition, j)
  {
    if j == 0 {
      assert rows[..0] == [];
    } else {
      KeptLength(rows, condition, j - 1);
      assert rows[..j] == rows[..j - 1] + [rows[j - 1]];
      KeptAppend(rows[..j - 1], [rows[j - 1]], condition);
    }
  }

  /** A row that stays moves up by the number of removed rows before it. */
  lemma {:induction false} KeptAt(rows: Table, condition: Row -> bool, j: nat)
    requires j < |rows| && !condition(rows[j])
    ensures var p := StayBefore(rows, condition, j); p < |Kept(rows, condition)| && Kept(rows, condition)[p] == rows[j]
  {
    hide Kept;
    KeptLength(rows, condition, j);
    KeptSplit(rows, condition, j);
  }

  lemma KeptSplit(rows: Table, condition: Row -> bool, j: nat)
    requires j < |rows| && !condition(rows[j])
    ensures Kept(rows, condition) == Kept(rows[..j], condition) + ([rows[j]] + Kept(rows[j + 1..], condition))
  {
    KeptOne(rows[j], condition);
    hide Kept;
    assert rows == rows[..j] + ([rows[j]] + rows[j + 1..]);
    KeptAppend(rows[..j], [rows[j]] + rows[j + 1..], condition);
    KeptAppend([rows[j]], rows[j + 1..], condition);
  }

  lemma KeptOne(row: Row, condition: Row -> bool)
    requires !condition(row)
    ensures Kept([row], condition) == [row]
  {
    assert Kept([row], condition) == [row] + Kept([], condition);
  }

  /** Every surviving position comes from a row that stayed. */
  lemma {:induction false} KeptFrom(rows: Table, condition: Row -> bool, n: nat, p: nat) returns (j: nat)
    requires n <= |rows| && p < StayBefore(rows, condition, n)
    ensures j < n && !condition(rows[j]) && StayBefore(rows, condition, j) == p
  {
    if !condition(rows[n - 1]) && StayBefore(rows, condition, n - 1) == p {
      j := n - 1;
    } else {
      j := KeptFrom(rows, condition, n - 1, p);
    }
  }

  lemma {:induction false} StayAll(rows: Table, condition: Row -> bool, j: nat)
    requires j <= |rows|
    ensures StayBefore(rows, condition, j) == j <==> forall i :: 0 <= i < j ==> !condition(rows[i])
  {
    if j > 0 {
      StayAll(rows, condition, j - 1);
    }
  }

  /** No row with the column stays behind a removed one: what is removed is, for the index, a suffix. */
  ghost predicate RemovesSuffix(rows: Table, column: string, condition: Row -> bool) {
    forall i, j :: 0 <= i < j < |rows| && condition(rows[i]) && !condition(rows[j]) ==> column !in rows[j]
  }

  /** Row numbers are not adjusted, so the index still agrees exactly when only a suffix was removed. */
  lemma {:induction false} DeleteAgreesExactly(view: map<string, nat>, rows: Table, column: string,
                                               condition: Row -> bool)
    requires Remaining(view, rows, column, condition, |rows|) && Distinct(rows, column)
    ensures Agrees(view, Kept(rows, condition), column) <==> RemovesSuffix(rows, column, condition)
  {
    hide Kept;
    if RemovesSuffix(rows, column, condition) {
      SuffixKeepsNumbers(view, rows, column, condition);
    } else {
      var i, j :| 0 <= i < j < |rows| && condition(rows[i]) && !condition(rows[j]) && column in rows[j];
      GapShiftsNumbers(view, rows, column, condition, i, j);
    }
  }

  lemma {:induction false} SuffixKeepsNumbers(view: map<string, nat>, rows: Table, column: string,
                                              condition: Row -> bool)
    requires Remaining(view, rows, column, condition, |rows|) && RemovesSuffix(rows, column, condition)
    ensures Agrees(view, Kept(rows, condition), column)
  {
    hide Kept, StayBefore;
    var kept := Kept(rows, condition);
    forall j | 0 <= j < |rows| && !condition(rows[j]) && column in rows[j]
      ensures j < |kept| && kept[j] == rows[j]
    {
      KeptAt(rows, condition, j);
      StayAll(rows, condition, j);
    }
    forall p | 0 <= p < |kept| && column in kept[p]
      ensures kept[p][column] in view && view[kept[p][column]] == p
    {
      WholeLength(rows, condition);
      var j := KeptFrom(rows, condition, |rows|, p);
      KeptAt(rows, condition, j);
      StayAll(rows, condition, j);
    }
  }

  lemma WholeLength(rows: Table, condition: Row -> bool)
    ensures |Kept(rows, condition)| == StayBefore(rows, condition, |rows|)
  {
    assert rows[..|rows|] == rows;
    KeptLength(rows, condition, |rows|);
  }

  lemma {:induction false} GapShiftsNumbers(view: map<string, nat>, rows: Table, column: string,
                                            condition: Row -> bool, i: nat, j: nat)
    requires Remaining(view, rows, column, condition, |rows|) && Distinct(rows, column)
    requires i < j < |rows| && condition(rows[i]) && !condition(rows[j]) && column in rows[j]
    ensures !Agrees(view, Kept(rows, condition), column)
  {
    var v := rows[j][column];
    assert v in view && view[v] == j;
    hide Kept, StayBefore, Remaining;
    if j < |Kept(rows, condition)| {
      var m := MovedUp(rows, condition, i, j);
      assert column in rows[m] ==> rows[m][column] != v;
    }
  }

  /** Behind a removed row, position `j` is taken over by a later row. */
  lemma MovedUp(rows: Table, condition: Row -> bool, i: nat, j: nat) returns (m: nat)
    requires i < j < |rows| && condition(rows[i]) && j < |Kept(rows, condition)|
    ensures j < m < |rows| && Kept(rows, condition)[j] == rows[m]
  {
    hide Kept, StayBefore;
    WholeLength(rows, condition);
    m := KeptFrom(rows, condition, |rows|, j);
    KeptAt(rows, condition, m);
    StayAll(rows, condition, m);
  }

  // ---- selecting ----------------------------------------------------------------------

  /** The rows that satisfy the condition, in table order: what a scan returns. */
  function Scan(rows: Table, condition: Row -> bool): Table {
    if rows == [] then []
    else Scan(rows[..|rows| - 1], condition) + if condition(rows[|rows| - 1]) then [rows[|rows| - 1]] else []
  }

  /** `found` are exactly the rows that satisfy the condition, each once, in table order. */
  ghost predicate FoundInOrder(found: Table, rows: Table, condition: Row -> bool) {
    exists at: seq<nat> :: |at| == |found| && RowsAt(found, rows, condition, at)
  }

  /** `at` lists the numbers of the rows that satisfy the condition, rising, and `found` are those rows. */
  ghost predicate RowsAt(found: Table, rows: Table, condition: Row -> bool, at: seq<nat>)
    requires |at| == |found|
  {
    && (forall p, q :: 0 <= p < q < |at| ==> at[p] < at[q])
    && (forall p :: 0 <= p < |at| ==> at[p] < |rows| && condition(rows[at[p]]) && found[p] == rows[at[p]])
    && (forall i :: 0 <= i < |rows| && condition(rows[i]) ==> i in at)
  }

  /** One row more, which does or does not satisfy the condition. */
  lemma {:induction false} RowsAtNext(found: Table, rows: Table, condition: Row -> bool, at: seq<nat>, row: Row)
    requires |at| == |found| && RowsAt(found, rows, condition, at)
    ensures condition(row) ==> RowsAt(found + [row], rows + [row], condition, at + [|rows|])
    ensures !condition(row) ==> RowsAt(found, rows + [row], condition, at)
  {
    var rows', at' := rows + [row], at + [|rows|];
    assert forall i :: 0 <= i < |rows| ==> rows'[i] == rows[i];
    assert at'[|at|] == |rows| && forall i <- at :: i in at';
  }

  lemma {:induction false} ScanRowsAt(rows: Table, condition: Row -> bool) returns (at: seq<nat>)
    ensures |at| == |Scan(rows, condition)| && RowsAt(Scan(rows, condition), rows, condition, at)
  {
    if rows == [] {
      at := [];
    } else {
      hide RowsAt;
      var front, row := rows[..|rows| - 1], rows[|rows| - 1];
      at := ScanRowsAt(front, condition);
      RowsAtNext(Scan(front, condition), front, condition, at, row);
      assert front + [row] == rows;
      if condition(row) { at := at + [|front|]; }
      assert Scan(rows, condition) == Scan(front, condition) + if condition(row) then [row] else [];
    }
  }

  /** A scan returns the matching rows in table order. */
  lemma ScanInOrder(rows: Table, condition: Row -> bool)
    ensures FoundInOrder(Scan(rows, condition), rows, condition)
  {
    hide Scan, RowsAt;
    var at := ScanRowsAt(rows, condition);
  }

  /** The condition, and the row has the column. */
  function Having(condition: Row -> bool, column: string): Row -> bool {
    r => condition(r) && column in r
  }

  predicate InTable(numbers: seq<nat>, rows: Table) {
    forall i :: 0 <= i < |numbers| ==> numbers[i] < |rows|
  }

  /** The rows with the given numbers that satisfy the condition, in that order. */
  function Picked(rows: Table, numbers: seq<nat>, condition: Row -> bool): Table
    requires InTable(numbers, rows)
  {
    if numbers == [] then []
    else
      var n := numbers[|numbers| - 1];
      Picked(rows, numbers[..|numbers| - 1], condition) + if condition(rows[n]) then [rows[n]] else []
  }

  lemma {:induction false} PickedAppend(rows: Table, a: seq<nat>, b: seq<nat>, condition: Row -> bool)
    requires InTable(a, rows) && InTable(b, rows)
    ensures InTable(a + b, rows)
    ensures Picked(rows, a + b, condition) == Picked(rows, a, condition) + Picked(rows, b, condition)
    decreases |b|
  {
    if b == [] {
      assert a + b == a;
    } else {
      assert (a + b)[..|a + b| - 1] == a + b[..|b| - 1];
      PickedAppend(rows, a, b[..|b| - 1], condition);
    }
  }

  /** The numbers of the first `n` rows that have the column, each once, in any order. */
  ghost predicate EachOnce(numbers: seq<nat>, rows: Table, column: string, n: nat)
    requires n <= |rows|
  {
    && (forall i, j :: 0 <= i < j < |numbers| ==> numbers[i] != numbers[j])
    && (forall i :: i in numbers <==> 0 <= i < n && column in rows[i])
  }

  /** Visiting each row with the column once, in any order, finds what a scan of those rows finds. */
  lemma {:induction false} PickedIsScan(rows: Table, column: string, numbers: seq<nat>, n: nat, condition: Row -> bool)
    requires n <= |rows| && InTable(numbers, rows) && EachOnce(numbers, rows, column, n)
    ensures multiset(Picked(rows, numbers, condition)) == multiset(Scan(rows[..n], Having(condition, column)))
  {
    if n == 0 {
      if numbers != [] { SomeNumber(numbers); }
    } else {
      ScanMore(rows, n, Having(condition, column));
      if column in rows[n - 1] {
        assert n - 1 in numbers;
        var p :| 0 <= p < |numbers| && numbers[p] == n - 1;
        hide Scan, Picked, EachOnce, Once;
        OnceHaving(rows[n - 1], column, condition);
        Without(rows, column, numbers, n, p);
        PickedWithout(rows, numbers, p, condition);
        PickedIsScan(rows, column, numbers[..p] + numbers[p + 1..], n - 1, condition);
      } else {
        hide Scan, Picked, Once;
        OnceHaving(rows[n - 1], column, condition);
        PickedIsScan(rows, column, numbers, n - 1, condition);
      }
    }
  }

  lemma OnceHaving(row: Row, column: string, condition: Row -> bool)
    ensures Once(row, Having(condition, column)) == if column in row then Once(row, condition) else multiset{}
  {
  }

  lemma SomeNumber(numbers: seq<nat>)
    requires numbers != []
    ensures exists i :: i in numbers
  {
    assert numbers[0] in numbers;
  }

  lemma ScanMore(rows: Table, n: nat, condition: Row -> bool)
    requires 0 < n <= |rows|
    ensures multiset(Scan(rows[..n], condition)) == multiset(Scan(rows[..n - 1], condition)) + Once(rows[n - 1], condition)
  {
    assert rows[..n][..n - 1] == rows[..n - 1];
  }

  /** The row, if it satisfies the condition. */
  function Once(row: Row, condition: Row -> bool): multiset<Row> {
    if condition(row) then multiset{row} else multiset{}
  }

  lemma PickedOne(rows: Table, n: nat, condition: Row -> bool)
    requires n < |rows|
    ensures Picked(rows, [n], condition) == if condition(rows[n]) then [rows[n]] else []
  {
    assert [n][..0] == [] && Picked(rows, [], condition) == [];
  }

  /** Leaving out one number leaves out its row. */
  lemma {:induction false} PickedWithout(rows: Table, numbers: seq<nat>, p: nat, condition: Row -> bool)
    requires InTable(numbers, rows) && p < |numbers|
    ensures var row := rows[numbers[p]];
            && InTable(numbers[..p] + numbers[p + 1..], rows)
            && multiset(Picked(rows, numbers, condition))
               == multiset(Picked(rows, numbers[..p] + numbers[p + 1..], condition)) + Once(row, condition)
  {
    hide Picked;
    var a, x, b := numbers[..p], [numbers[p]], numbers[p + 1..];
    PickedOne(rows, numbers[p], condition);
    assert numbers == a + (x + b);
    PickedAppend(rows, a, b, condition);
    PickedAppend(rows, a, x + b, condition);
    PickedAppend(rows, x, b, condition);
  }

  lemma Without(rows: Table, column: string, numbers: seq<nat>, n: nat, p: nat)
    requires 0 < n <= |rows| && EachOnce(numbers, rows, column, n) && p < |numbers| && numbers[p] == n - 1
    ensures EachOnce(numbers[..p] + numbers[p + 1..], rows, column, n - 1)
  {
    var rest := numbers[..p] + numbers[p + 1..];
    forall i
      ensures i in rest <==> 0 <= i < n - 1 && column in rows[i]
    {
      if i in rest {
        var k :| 0 <= k < |rest| && rest[k] == i;
        var m := if k < p then k else k + 1;
        assert numbers[m] == i && i in numbers && m != p;
      }
      if 0 <= i < n - 1 && column in rows[i] {
        assert i in numbers;
        var k :| 0 <= k < |numbers| && numbers[k] == i;
        assert rest[if k < p then k else k - 1] == i;
      }
    }
  }

  /** The number of the row each key stands for. */
  ghost function Numbers(view: map<string, nat>, keys: seq<string>): (ns: seq<nat>)
    requires forall k <- keys :: k in view
    ensures |ns| == |keys|
  {
    seq(|keys|, i requires 0 <= i < |keys| => view[keys[i]])
  }

  /** Going through the keys in order: the same rows as a scan of the rows with the column, sorted by it. */
  lemma IndexScan(view: map<string, nat>, rows: Table, column: string, keys: seq<string>, condition: Row -> bool)
    requires Agrees(view, rows, column) && Ascending(B.TextLess, keys) && forall k :: k in keys <==> k in view
    ensures InTable(Numbers(view, keys), rows)
    ensures var found := Picked(rows, Numbers(view, keys), condition);
            && multiset(found) == multiset(Scan(rows, Having(condition, column)))
            && SortedBy(found, column)
  {
    hide B.TextLess, B.Lexicographic, Scan, Picked;
    TextIsOrdered();
    var ns := Numbers(view, keys);
    assert forall i :: 0 <= i < |ns| ==> keys[i] in keys && ns[i] < |rows| && column in rows[ns[i]] && rows[ns[i]][column] == keys[i];
    forall i | 0 <= i < |rows| && column in rows[i]
      ensures i in ns
    {
      var k :| 0 <= k < |keys| && keys[k] == rows[i][column];
      assert ns[k] == i;
    }
    PickedIsScan(rows, column, ns, |rows|, condition);
    assert rows[..|rows|] == rows;
    KeysLexicographic(keys);
    PickedSorted(rows, column, ns, condition);
  }

  lemma KeysLexicographic(keys: seq<string>)
    requires Ascending(B.TextLess, keys)
    ensures forall i, j :: 0 <= i < j < |keys| ==> B.Lexicographic(keys[i], keys[j])
  {
    hide B.TextLess, B.Lexicographic;
    forall i, j | 0 <= i < j < |keys|
      ensures B.Lexicographic(keys[i], keys[j])
    {
      B.TextIsLexicographic(keys[i], keys[j]);
    }
  }

  ghost predicate SortedBy(rows: Table, column: string) {
    && (forall i :: 0 <= i < |rows| ==> column in rows[i])
    && (forall i, j :: 0 <= i < j < |rows| ==> B.Lexicographic(rows[i][column], rows[j][column]))
  }

  lemma {:induction false} PickedSorted(rows: Table, column: string, ns: seq<nat>, condition: Row -> bool)
    requires forall i :: 0 <= i < |ns| ==> ns[i] < |rows| && column in rows[ns[i]]
    requires forall i, j :: 0 <= i < j < |ns| ==> B.Lexicographic(rows[ns[i]][column], rows[ns[j]][column])
    ensures SortedBy(Picked(rows, ns, condition), column)
    ensures forall r <- Picked(rows, ns, condition) :: exists i :: 0 <= i < |ns| && rows[ns[i]] == r
  {
    hide B.Lexicographic;
    if ns != [] {
      var front, last := ns[..|ns| - 1], ns[|ns| - 1];
      PickedSorted(rows, column, front, condition);
      var before, found := Picked(rows, front, condition), Picked(rows, ns, condition);
      forall r <- found
        ensures exists i :: 0 <= i < |ns| && rows[ns[i]] == r
      {
        if r in before {
          var i :| 0 <= i < |front| && rows[front[i]] == r;
          assert rows[ns[i]] == r;
        } else {
          assert rows[ns[|ns| - 1]] == r;
        }
      }
      forall i | 0 <= i < |before|
        ensures B.Lexicographic(before[i][column], rows[last][column])
      {
        assert before[i] in before;
        var k :| 0 <= k < |front| && rows[front[k]] == before[i];
        assert rows[ns[k]] == before[i];
      }
    }
  }
}
