/** What the database persists: schemas and tables, and what each operation does to them. */
module DatabaseImage {

  datatype Column = Column(name: string, isPrimaryKey: bool, isUnique: bool, isNotNull: bool, defaultValue: string)

  type Row = map<string, string>
  type Schema = seq<Column>
  type Table = seq<Row>

  datatype Image = Image(schemas: map<string, Schema>, tables: map<string, Table>)

  const EMPTY: Image := Image(map[], map[])

  /** The public operations that take the lock and may change something. */
  datatype Operation =
    | CreateTable(name: string, schema: Schema)
    | DropTable(name: string)
    | Insert(name: string, row: Row)
    | Delete(name: string, condition: Row -> bool)
    | Update(name: string, condition: Row -> bool, values: Row)
    | GrantOrRevoke
    | AddIndex(name: string, column: string)
    | RemoveIndex(name: string, column: string)
    | AddForeignKey
    | LoadFromFile(loaded: Image)

  /** Where the operation stores true into the dirty flag. */
  datatype Store = NoStore | UnderLock | AfterUnlock

  datatype Effect = Effect(image: Image, threw: bool, store: Store)

  /** The rows that do not satisfy the condition, in order (std::remove_if and erase). */
  function Kept(rows: Table, condition: Row -> bool): Table {
    if rows == [] then []
    else (if condition(rows[0]) then [] else [rows[0]]) + Kept(rows[1..], condition)
  }

  function Updated(rows: Table, condition: Row -> bool, values: Row): (updated: Table)
    ensures |updated| == |rows|
  {
    seq(|rows|, i requires 0 <= i < |rows| => if condition(rows[i]) then rows[i] + values else rows[i])
  }

  predicate AnyRow(rows: Table, condition: Row -> bool) {
    exists i :: 0 <= i < |rows| && condition(rows[i])
  }

  /** The locked body of `op` on `image`: a thrown exception changes nothing and stores nothing. */
  function Perform(image: Image, op: Operation): Effect {
    var threw := Effect(image, true, NoStore);
    match op
    case CreateTable(name, schema) =>
      if name in image.schemas then threw
      else Effect(Image(image.schemas[name := schema], image.tables[name := []]), false, AfterUnlock)
    case DropTable(name) => Effect(Image(image.schemas - {name}, image.tables - {name}), false, AfterUnlock)
    case Insert(name, row) =>
      if name !in image.tables then threw
      else Effect(image.(tables := image.tables[name := image.tables[name] + [row]]), false, AfterUnlock)
    case Delete(name, condition) =>
      if name !in image.tables then threw
      else Effect(image.(tables := image.tables[name := Kept(image.tables[name], condition)]), false, AfterUnlock)
    case Update(name, condition, values) =>
      if name !in image.tables then threw
      else
        var rows := image.tables[name];
        Effect(image.(tables := image.tables[name := Updated(rows, condition, values)]), false,
               if AnyRow(rows, condition) then AfterUnlock else NoStore)
    case GrantOrRevoke => Effect(image, false, UnderLock)
    case AddIndex(name, _) =>
      Effect(if name in image.tables then image else image.(tables := image.tables[name := []]), false, NoStore)
    case RemoveIndex(_, _) => Effect(image, false, NoStore)
    case AddForeignKey => Effect(image, false, NoStore)
    case LoadFromFile(loaded) => Effect(loaded, false, NoStore)
  }

  /** The operations that change the image without touching the flag: indexing an unknown table, and loading. */
  predicate IsQuietChange(image: Image, op: Operation) {
    (op.AddIndex? && op.name !in image.tables) || (op.LoadFromFile? && op.loaded != image)
  }

  /** Every other operation either leaves the image alone or stores into the flag. */
  lemma QuietChanges(image: Image, op: Operation)
    ensures IsQuietChange(image, op)
            <==> Perform(image, op).store == NoStore && Perform(image, op).image != image
  {
    match op
    case AddIndex(name, _) =>
      if name !in image.tables {
        assert name in image.tables[name := []];
      }
    case Update(name, condition, values) =>
      if name in image.tables && !AnyRow(image.tables[name], condition) {
        assert Updated(image.tables[name], condition, values) == image.tables[name];
      }
    case _ =>
  }

  // ---- what the operations do ---------------------------------------------------------

  /** A new value wins over an old one, in the matching rows only; nothing else in a row changes. */
  lemma UpdatedAt(rows: Table, condition: Row -> bool, values: Row, i: nat, k: string)
    requires i < |rows|
    ensures var was, now := rows[i], Updated(rows, condition, values)[i];
            && (!condition(was) ==> now == was)
            && (condition(was) && k in values ==> k in now && now[k] == values[k])
            && (condition(was) && k !in values ==> (k in now <==> k in was) && (k in was ==> now[k] == was[k]))
  {
  }

  /** The exceptions: a table that exists already, or does not exist. */
  lemma ThrowsExactly(image: Image, op: Operation)
    ensures Perform(image, op).threw
       <==> || (op.CreateTable? && op.name in image.schemas)
            || ((op.Insert? || op.Delete? || op.Update?) && op.name !in image.tables)
    ensures Perform(image, op).threw ==> Perform(image, op).image == image && Perform(image, op).store == NoStore
  {
  }

  /** Granting stores under the lock, the table operations after it, an update only if some row matched. */
  lemma StoresExactly(image: Image, op: Operation)
    requires !Perform(image, op).threw
    ensures Perform(image, op).store == UnderLock <==> op.GrantOrRevoke?
    ensures Perform(image, op).store == AfterUnlock
       <==> || op.CreateTable? || op.DropTable? || op.Insert? || op.Delete?
            || (op.Update? && exists i :: 0 <= i < |image.tables[op.name]| && op.condition(image.tables[op.name][i]))
  {
    if op.Update? { assert op.name in image.tables; }
  }

  /** A created table has its schema and no rows; nothing else changes. */
  lemma Creates(image: Image, name: string, schema: Schema)
    requires name !in image.schemas
    ensures var after := Perform(image, CreateTable(name, schema)).image;
            && after.schemas.Keys == image.schemas.Keys + {name} && after.tables.Keys == image.tables.Keys + {name}
            && after.schemas[name] == schema && after.tables[name] == []
            && OthersKept(image, after, name)
  {
  }

  /** Every schema and table under another name is as before. */
  predicate OthersKept(image: Image, after: Image, name: string) {
    && (forall k <- image.schemas :: k != name ==> k in after.schemas && after.schemas[k] == image.schemas[k])
    && (forall k <- image.tables :: k != name ==> k in after.tables && after.tables[k] == image.tables[k])
    && (forall k <- after.schemas :: k != name ==> k in image.schemas)
    && (forall k <- after.tables :: k != name ==> k in image.tables)
  }

  /** A dropped table has neither schema nor rows; nothing else changes. */
  lemma Drops(image: Image, name: string)
    ensures var after := Perform(image, DropTable(name)).image;
            name !in after.schemas && name !in after.tables && OthersKept(image, after, name)
  {
  }

  /** An inserted row is the last one; a deletion leaves the others, and an update as many; nothing else changes. */
  lemma ChangesRows(image: Image, name: string, row: Row, condition: Row -> bool, values: Row)
    requires name in image.tables
    ensures forall op <- {Operation.Insert(name, row), Operation.Delete(name, condition),
                          Operation.Update(name, condition, values)} ::
              var after := Perform(image, op).image;
              after.schemas == image.schemas && name in after.tables && OthersKept(image, after, name)
    ensures var rows := image.tables[name];
            && Perform(image, Operation.Insert(name, row)).image.tables[name] == rows + [row]
            && Perform(image, Operation.Delete(name, condition)).image.tables[name] == Kept(rows, condition)
            && Perform(image, Operation.Update(name, condition, values)).image.tables[name]
               == Updated(rows, condition, values)
  {
  }

  /** The other operations: an unknown table is created by indexing it, a load replaces everything. */
  lemma LeavesOrLoads(image: Image, op: Operation)
    ensures op.GrantOrRevoke? || op.RemoveIndex? || op.AddForeignKey? ==> Perform(image, op).image == image
    ensures op.AddIndex? && op.name in image.tables ==> Perform(image, op).image == image
    ensures op.AddIndex? && op.name !in image.tables ==>
              var after := Perform(image, op).image;
              && after.schemas == image.schemas && op.name in after.tables && after.tables[op.name] == []
              && OthersKept(image, after, op.name)
    ensures op.LoadFromFile? ==> Perform(image, op).image == op.loaded
  {
  }
}
