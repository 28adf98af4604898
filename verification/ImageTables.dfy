/** What an operation does to the image is what the table's own method does to its rows. */
module ImageTables {
  import opened DatabaseImage
  import opened TableStore

  /** The image `op` leaves behind holds the table's rows under its name, and is otherwise as before. */
  ghost predicate Holds(image: Image, op: Operation, name: string, rows: Table) {
    var e := Perform(image, op);
    && !e.threw && name in e.image.tables && e.image.tables[name] == rows
    && e.image.schemas == image.schemas && OthersKept(image, e.image, name)
  }

  method InsertRow(image: Image, name: string, t: IndexedTable, row: Row)
    requires name in image.tables && t.rows == image.tables[name]
    requires t.Valid() && (t.index != null && t.column in row ==> row[t.column] !in t.index.View())
    modifies t.Repr()
    ensures t.rows == old(t.rows) + [row] && Holds(image, Operation.Insert(name, row), name, t.rows)
  {
    ThrowsExactly(image, Operation.Insert(name, row));
    ChangesRows(image, name, row, r => false, map[]);
    hide Perform, OthersKept;
    t.Insert(row);
  }

  method DeleteRows(image: Image, name: string, t: IndexedTable, condition: Row -> bool)
    requires name in image.tables && t.rows == image.tables[name] && t.Valid()
    modifies t.Repr()
    ensures t.rows == Kept(old(t.rows), condition) && Holds(image, Operation.Delete(name, condition), name, t.rows)
  {
    ThrowsExactly(image, Operation.Delete(name, condition));
    ChangesRows(image, name, map[], condition, map[]);
    hide Perform, OthersKept, Kept;
    t.Delete(condition);
  }

  /** The flag is stored into exactly if the method reports a change. */
  method UpdateRows(image: Image, name: string, t: IndexedTable, condition: Row -> bool, values: Row)
    returns (modified: bool)
    requires name in image.tables && t.rows == image.tables[name]
    requires t.Valid() && (t.index != null ==> Updatable(t.rows, t.column, condition, values))
    modifies t.Repr()
    ensures t.rows == Updated(old(t.rows), condition, values)
    ensures Holds(image, Operation.Update(name, condition, values), name, t.rows)
    ensures modified <==> Perform(image, Operation.Update(name, condition, values)).store == AfterUnlock
  {
    ThrowsExactly(image, Operation.Update(name, condition, values));
    StoresExactly(image, Operation.Update(name, condition, values));
    ChangesRows(image, name, map[], condition, values);
    hide Perform, OthersKept, Updated;
    modified := t.Update(condition, values);
  }
}
