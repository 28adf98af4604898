/** The text of a snapshot: the printer, the reader, and why reading undoes printing. */
module Snapshot {
  import opened Ordering
  import opened Characters
  import opened DatabaseImage

  // ---- the printed form ---------------------------------------------------------------

  type Pairs = seq<(string, string)>
  type Rows = seq<Pairs>
  type Tables = seq<(string, Rows)>
  type Schemas = seq<(string, Schema)>

  /** The maps of an image in the order they are iterated. */
  datatype Listing = Listing(schemas: Schemas, tables: Tables)

  /** A map filled from pairs, later ones winning. */
  function Collect<V>(pairs: seq<(string, V)>, acc: map<string, V>): map<string, V> {
    if pairs == [] then acc else Collect(pairs[1..], acc[pairs[0].0 := pairs[0].1])
  }

  function CollectRows(rows: Rows): (t: Table)
    ensures |t| == |rows|
  {
    seq(|rows|, i requires 0 <= i < |rows| => Collect(rows[i], map[]))
  }

  function CollectTables(tables: Tables): (r: seq<(string, Table)>)
    ensures |r| == |tables|
  {
    seq(|tables|, i requires 0 <= i < |tables| => (tables[i].0, CollectRows(tables[i].1)))
  }

  /** The image a listing enumerates. */
  function ImageOf(l: Listing): Image {
    Image(Collect(l.schemas, map[]), Collect(CollectTables(l.tables), map[]))
  }

  predicate DistinctKeys<V>(pairs: seq<(string, V)>) {
    forall i, j :: 0 <= i < j < |pairs| ==> pairs[i].0 != pairs[j].0
  }

  const SIZE_LIMIT: int := 0x1_0000_0000_0000_0000

  /** An iteration order visits every key once, and no container outgrows size_t. */
  predicate IsListing(l: Listing) {
    && DistinctKeys(l.schemas) && DistinctKeys(l.tables) && |l.schemas| < SIZE_LIMIT && |l.tables| < SIZE_LIMIT
    && (forall p <- l.schemas :: |p.1| < SIZE_LIMIT)
    && (forall t <- l.tables :: RowsListed(t.1))
  }

  predicate RowsListed(rows: Rows) {
    |rows| < SIZE_LIMIT && forall r <- rows :: DistinctKeys(r) && |r| < SIZE_LIMIT
  }

  /** A printed item and the separator behind it. */
  datatype Field = Field(word: string, end: Separator)

  datatype Separator = Blank | NewLine

  function Line(word: string): Field {
    Field(word, NewLine)
  }

  function End(f: Field): char {
    if f.end == Blank then ' ' else '\n'
  }

  function Decimal(n: nat): string {
    (if n < 10 then "" else Decimal(n / 10)) + [('0' as int + n % 10) as char]
  }

  function Flag(b: bool): string {
    if b then "1" else "0"
  }

  function ColumnFields(c: Column): seq<Field> {
    [Field(c.name, Blank), Field(Flag(c.isPrimaryKey), Blank), Field(Flag(c.isUnique), Blank), Field(Flag(c.isNotNull), Blank),
     Line(c.defaultValue)]
  }

  function ColumnsFields(cs: Schema): seq<Field> {
    if cs == [] then [] else ColumnFields(cs[0]) + ColumnsFields(cs[1..])
  }

  function SchemasFields(ps: Schemas): seq<Field> {
    if ps == [] then [] else
      [Line(ps[0].0), Line(Decimal(|ps[0].1|))] + (ColumnsFields(ps[0].1) + SchemasFields(ps[1..]))
  }

  function PairsFields(r: Pairs): seq<Field> {
    if r == [] then [] else [Line(r[0].0), Line(r[0].1)] + PairsFields(r[1..])
  }

  function RowsFields(rows: Rows): seq<Field> {
    if rows == [] then [] else [Line(Decimal(|rows[0]|))] + (PairsFields(rows[0]) + RowsFields(rows[1..]))
  }

  function TablesFields(ps: Tables): seq<Field> {
    if ps == [] then [] else
      [Line(ps[0].0), Line(Decimal(|ps[0].1|))] + (RowsFields(ps[0].1) + TablesFields(ps[1..]))
  }

  function ImageFields(l: Listing): seq<Field> {
    [Line(Decimal(|l.schemas|))] + (SchemasFields(l.schemas) + ([Line(Decimal(|l.tables|))] + TablesFields(l.tables)))
  }

  function Joined(fs: seq<Field>): string {
    if fs == [] then "" else fs[0].word + [End(fs[0])] + Joined(fs[1..])
  }

  // ---- reading ------------------------------------------------------------------------

  predicate NotSpace(c: char) {
    !IsSpace(c)
  }

  /** What operator>> accepts as a string. */
  predicate IsWord(w: string) {
    w != "" && forall k :: 0 <= k < |w| ==> NotSpace(w[k])
  }

  function Number(ds: string): nat
    requires forall k :: 0 <= k < |ds| ==> IsDigit(ds[k])
  {
    if ds == "" then 0 else
      assert IsDigit(ds[|ds| - 1]);
      10 * Number(ds[..|ds| - 1]) + (ds[|ds| - 1] as int - '0' as int)
  }

  /**
   An input stream: the next position, and whether an extraction has failed. After a failure, and at the end of the
   text, an extraction leaves its variable alone: a fresh string stays empty and a fresh flag false, but a counter
   stays indeterminate.
   */
  datatype Cursor = Cursor(pos: nat, failed: bool)

  predicate InText(s: string, c: Cursor) {
    c.pos <= |s|
  }

  function ReadWord(s: string, c: Cursor): (r: (string, Cursor))
    requires InText(s, c)
    ensures InText(s, r.1) && if r.1.failed then r.0 == "" else !c.failed && IsWord(r.0)
  {
    if c.failed then ("", c)
    else
      var b := Span(s, c.pos, IsSpace);
      if b == |s| then ("", Cursor(b, true))
      else
        var e := Span(s, b, NotSpace);
        assert forall k :: 0 <= k < e - b ==> s[b..e][k] == s[b + k];
        (s[b..e], Cursor(e, false))
  }

  /** A numeral with an optional sign: whether it is negative, its digits, and where it ends. */
  function ReadNumeral(s: string, b: nat): (r: (bool, string, nat))
    requires b < |s|
    ensures b <= r.2 <= |s| && forall k :: 0 <= k < |r.1| ==> IsDigit(r.1[k])
  {
    var d := if s[b] == '-' || s[b] == '+' then b + 1 else b;
    var e := Span(s, d, IsDigit);
    assert forall k :: 0 <= k < e - d ==> s[d..e][k] == s[d + k];
    (s[b] == '-', s[d..e], e)
  }

  /**
   A size_t. A word that is no numeral gives 0 and one that is too large the maximum, both with a failed stream; a
   negative one wraps. None: the counter is indeterminate.
   */
  function ReadCount(s: string, c: Cursor): (r: Option<(nat, Cursor)>)
    requires InText(s, c)
    ensures r.Some? ==> !c.failed && InText(s, r.value.1)
  {
    if c.failed then None
    else
      var b := Span(s, c.pos, IsSpace);
      if b == |s| then None
      else
        var (negative, digits, e) := ReadNumeral(s, b);
        var n := Number(digits);
        if digits == "" then Some((0, Cursor(e, true)))
        else if n >= SIZE_LIMIT then Some((SIZE_LIMIT - 1, Cursor(e, true)))
        else Some((if negative && n > 0 then SIZE_LIMIT - n else n, Cursor(e, false)))
  }

  /** A bool, read as a number: anything but 0 and 1 fails the stream. */
  function ReadFlag(s: string, c: Cursor): (r: (bool, Cursor))
    requires InText(s, c)
    ensures InText(s, r.1) && (!r.1.failed ==> !c.failed)
  {
    if c.failed then (false, c)
    else
      var b := Span(s, c.pos, IsSpace);
      if b == |s| then (false, Cursor(b, true))
      else
        var (negative, digits, e) := ReadNumeral(s, b);
        var n := Number(digits);
        (n != 0, Cursor(e, digits == "" || n > 1 || (negative && n == 1)))
  }

  predicate WordyColumn(c: Column) {
    IsWord(c.name) && IsWord(c.defaultValue)
  }

  function ReadColumn(s: string, c: Cursor): (r: (Column, Cursor))
    requires InText(s, c)
    ensures InText(s, r.1) && (!r.1.failed ==> !c.failed && WordyColumn(r.0))
  {
    var (name, c1) := ReadWord(s, c);
    var (primary, c2) := ReadFlag(s, c1);
    var (unique, c3) := ReadFlag(s, c2);
    var (notNull, c4) := ReadFlag(s, c3);
    var (default, c5) := ReadWord(s, c4);
    (Column(name, primary, unique, notNull, default), c5)
  }

  predicate WordySchema(cs: Schema) {
    forall i :: 0 <= i < |cs| ==> WordyColumn(cs[i])
  }

  /** `n` more columns after `acc`. */
  function ReadColumns(s: string, c: Cursor, n: nat, acc: Schema): (r: (Schema, Cursor))
    requires InText(s, c)
    ensures InText(s, r.1) && (!r.1.failed ==> !c.failed && (WordySchema(acc) ==> WordySchema(r.0)))
    decreases n
  {
    if n == 0 then (acc, c)
    else
      var (column, c1) := ReadColumn(s, c);
      ReadColumns(s, c1, n - 1, acc + [column])
  }

  predicate WordySchemas(m: map<string, Schema>) {
    forall k <- m :: IsWord(k) && WordySchema(m[k])
  }

  function ReadSchema(s: string, c: Cursor): (r: Option<((string, Schema), Cursor)>)
    requires InText(s, c)
    ensures r.Some? ==> InText(s, r.value.1) && IsWord(r.value.0.0) && !c.failed
    ensures r.Some? && !r.value.1.failed ==> WordySchema(r.value.0.1)
  {
    var (name, c1) := ReadWord(s, c);
    var count :- ReadCount(s, c1);
    var (columns, c2) := ReadColumns(s, count.1, count.0, []);
    Some(((name, columns), c2))
  }

  function ReadSchemas(s: string, c: Cursor, n: nat, acc: map<string, Schema>): (r: Option<(map<string, Schema>, Cursor)>)
    requires InText(s, c)
    ensures r.Some? ==> InText(s, r.value.1) && (!r.value.1.failed ==> !c.failed)
    decreases n
  {
    if n == 0 then Some((acc, c))
    else
      var p :- ReadSchema(s, c);
      ReadSchemas(s, p.1, n - 1, acc[p.0.0 := p.0.1])
  }

  predicate WordyRow(r: Row) {
    forall k <- r :: IsWord(k) && IsWord(r[k])
  }

  predicate IsWordOrEmpty(w: string) {
    w == "" || IsWord(w)
  }

  predicate LooseRow(r: Row) {
    forall k <- r :: IsWordOrEmpty(k) && IsWordOrEmpty(r[k])
  }

  function ReadRow(s: string, c: Cursor, n: nat, acc: Row): (r: (Row, Cursor))
    requires InText(s, c)
    ensures InText(s, r.1) && (!r.1.failed ==> !c.failed && (WordyRow(acc) ==> WordyRow(r.0)))
    ensures LooseRow(acc) ==> LooseRow(r.0)
    decreases n
  {
    if n == 0 then (acc, c)
    else
      var (key, c1) := ReadWord(s, c);
      var (value, c2) := ReadWord(s, c1);
      ReadRow(s, c2, n - 1, acc[key := value])
  }

  predicate WordyTable(t: Table) {
    forall i :: 0 <= i < |t| ==> WordyRow(t[i])
  }

  function ReadRows(s: string, c: Cursor, n: nat, acc: Table): (r: Option<(Table, Cursor)>)
    requires InText(s, c)
    ensures r.Some? ==> InText(s, r.value.1) && acc <= r.value.0
    ensures r.Some? && !r.value.1.failed ==> !c.failed && (WordyTable(acc) ==> WordyTable(r.value.0))
    decreases n
  {
    if n == 0 then Some((acc, c))
    else
      var count :- ReadCount(s, c);
      var (row, c1) := ReadRow(s, count.1, count.0, map[]);
      ReadRows(s, c1, n - 1, acc + [row])
  }

  predicate WordyTables(m: map<string, Table>) {
    forall k <- m :: IsWord(k) && WordyTable(m[k])
  }

  function ReadTable(s: string, c: Cursor): (r: Option<((string, Table), Cursor)>)
    requires InText(s, c)
    ensures r.Some? ==> InText(s, r.value.1) && IsWord(r.value.0.0) && !c.failed
    ensures r.Some? && !r.value.1.failed ==> WordyTable(r.value.0.1)
  {
    var (name, c1) := ReadWord(s, c);
    var count :- ReadCount(s, c1);
    var rows :- ReadRows(s, count.1, count.0, []);
    Some(((name, rows.0), rows.1))
  }

  function ReadTables(s: string, c: Cursor, n: nat, acc: map<string, Table>): (r: Option<(map<string, Table>, Cursor)>)
    requires InText(s, c)
    ensures r.Some? ==> InText(s, r.value.1)
    decreases n
  {
    if n == 0 then Some((acc, c))
    else
      var p :- ReadTable(s, c);
      ReadTables(s, p.1, n - 1, acc[p.0.0 := p.0.1])
  }

  /** Every name, default and value is a non-empty string without white space. */
  predicate Wordy(image: Image) {
    WordySchemas(image.schemas) && WordyTables(image.tables)
  }

  /** What LoadFromFile leaves in memory; None when a loop bound was indeterminate. */
  function Load(s: string): Option<Image> {
    var schemaCount :- ReadCount(s, Cursor(0, false));
    var schemas :- ReadSchemas(s, schemaCount.1, schemaCount.0, map[]);
    var tableCount :- ReadCount(s, schemas.1);
    var tables :- ReadTables(s, tableCount.1, tableCount.0, map[]);
    Some(Image(schemas.0, tables.0))
  }

  // ---- reading along a printed text ---------------------------------------------------

  predicate AllSpace(s: string) {
    forall k :: 0 <= k < |s| ==> IsSpace(s[k])
  }

  /** The stream is good, and after white space the rest of the text is exactly the fields `fs`. */
  predicate Ahead(s: string, c: Cursor, fs: seq<Field>) {
    var n := |Joined(fs)|;
    !c.failed && c.pos + n <= |s| && s[|s| - n..] == Joined(fs) && AllSpace(s[c.pos..|s| - n])
  }

  lemma SplitAt(s: string, b: nat, w: string, c: char, rest: string)
    requires b <= |s| && s[b..] == w + [c] + rest
    ensures b + |w| < |s| && s[b..b + |w|] == w && s[b + |w|] == c && s[b + |w| + 1..] == rest
    ensures w != "" ==> s[b] == w[0]
  {
  }

  lemma EndIsSpace(f: Field)
    ensures IsSpace(End(f))
  {
  }

  lemma SpaceBetween(s: string, i: nat, j: nat)
    requires i <= j <= |s| && forall k :: i <= k < j ==> IsSpace(s[k])
    ensures AllSpace(s[i..j])
  {
  }

  /** The white space ends where the fields begin. */
  lemma {:induction false} LeadAhead(s: string, c: Cursor, f: Field, fs: seq<Field>) returns (b: nat)
    requires Ahead(s, c, [f] + fs)
    ensures c.pos <= b && b + |f.word| < |s| && s[b..b + |f.word|] == f.word && s[b + |f.word|] == End(f)
    ensures (forall k :: c.pos <= k < b ==> IsSpace(s[k])) && (f.word != "" ==> s[b] == f.word[0])
    ensures s[b + |f.word| + 1..] == Joined(fs)
  {
    hide IsSpace, End;
    var all := [f] + fs;
    assert all[1..] == fs && all[0] == f;
    b := |s| - |Joined(all)|;
    SplitAt(s, b, f.word, End(f), Joined(fs));
    var lead := s[c.pos..b];
    assert AllSpace(lead);
    forall k | c.pos <= k < b
      ensures IsSpace(s[k])
    {
      assert lead[k - c.pos] == s[k];
    }
  }

  /** An empty field only adds white space. */
  lemma {:induction false} SkipEmpty(s: string, c: Cursor, f: Field, fs: seq<Field>)
    requires Ahead(s, c, [f] + fs) && f.word == ""
    ensures Ahead(s, c, fs)
  {
    var b := LeadAhead(s, c, f, fs);
    EndIsSpace(f);
    hide Joined, IsSpace, End;
    assert b + 1 == |s| - |Joined(fs)|;
    SpaceBetween(s, c.pos, b + 1);
  }

  /** After white space, `w` stands at `b` with white space behind it. */
  predicate Stands(s: string, c: Cursor, w: string, b: nat)
    requires InText(s, c)
  {
    b == Span(s, c.pos, IsSpace) && b + |w| < |s| && s[b..b + |w|] == w && IsSpace(s[b + |w|])
  }

  lemma {:induction false} FieldAhead(s: string, c: Cursor, f: Field, fs: seq<Field>) returns (b: nat)
    requires Ahead(s, c, [f] + fs) && IsWord(f.word)
    ensures InText(s, c) && !c.failed && Stands(s, c, f.word, b) && Ahead(s, Cursor(b + |f.word|, false), fs)
  {
    b := LeadAhead(s, c, f, fs);
    EndIsSpace(f);
    assert NotSpace(f.word[0]);
    hide Joined, IsSpace, End, IsWord;
    assert Span(s, c.pos, IsSpace) == b;
    assert b + |f.word| + 1 == |s| - |Joined(fs)|;
    SpaceBetween(s, b + |f.word|, b + |f.word| + 1);
  }

  /** A standing word is read. */
  lemma WordStands(s: string, c: Cursor, w: string, b: nat)
    requires InText(s, c) && !c.failed && IsWord(w) && Stands(s, c, w, b)
    ensures ReadWord(s, c) == (w, Cursor(b + |w|, false))
  {
    hide IsSpace;
    var e := b + |w|;
    forall k | b <= k < e
      ensures NotSpace(s[k])
    {
      assert s[k] == s[b..e][k - b] == w[k - b];
    }
    assert Span(s, b, NotSpace) == e;
  }

  lemma {:induction false} WordAhead(s: string, c: Cursor, f: Field, fs: seq<Field>)
    requires Ahead(s, c, [f] + fs) && IsWord(f.word)
    ensures InText(s, c) && ReadWord(s, c).0 == f.word && Ahead(s, ReadWord(s, c).1, fs)
  {
    hide Ahead, Stands, IsWord;
    var b := FieldAhead(s, c, f, fs);
    WordStands(s, c, f.word, b);
  }

  predicate AllDigits(w: string) {
    forall k :: 0 <= k < |w| ==> IsDigit(w[k])
  }

  lemma DigitsAreWord(w: string)
    requires w != "" && AllDigits(w)
    ensures IsWord(w)
  {
  }

  lemma {:induction false} DecimalReads(n: nat)
    ensures AllDigits(Decimal(n)) && IsWord(Decimal(n)) && Number(Decimal(n)) == n
  {
    var d := Decimal(n);
    if n >= 10 {
      DecimalReads(n / 10);
      assert d[..|d| - 1] == Decimal(n / 10);
    } else {
      assert d[..|d| - 1] == "";
    }
    hide IsWord;
    DigitsAreWord(d);
  }

  lemma NumeralStands(s: string, c: Cursor, w: string, b: nat)
    requires w != "" && AllDigits(w) && InText(s, c) && Stands(s, c, w, b)
    ensures ReadNumeral(s, b) == (false, w, b + |w|)
  {
    var e := b + |w|;
    forall k | b <= k < e
      ensures IsDigit(s[k])
    {
      assert s[k] == s[b..e][k - b] == w[k - b];
    }
    assert !IsDigit(s[e]);
    hide IsSpace;
    assert Span(s, b, IsDigit) == e;
  }

  /** A printed number is read back as its digits. */
  lemma {:induction false} NumeralAhead(s: string, c: Cursor, n: nat, f: Field, fs: seq<Field>) returns (b: nat)
    requires Ahead(s, c, [f] + fs) && f.word == Decimal(n)
    ensures InText(s, c) && !c.failed && Stands(s, c, f.word, b) && Ahead(s, Cursor(b + |f.word|, false), fs)
    ensures ReadNumeral(s, b) == (false, f.word, b + |f.word|) && Number(f.word) == n && f.word != ""
  {
    hide Ahead, Decimal, Number, ReadNumeral;
    DecimalReads(n);
    b := FieldAhead(s, c, f, fs);
    NumeralStands(s, c, f.word, b);
  }

  lemma {:induction false} CountAhead(s: string, c: Cursor, n: nat, fs: seq<Field>)
    requires Ahead(s, c, [Line(Decimal(n))] + fs) && n < SIZE_LIMIT
    ensures InText(s, c) && ReadCount(s, c).Some?
    ensures ReadCount(s, c).value.0 == n && Ahead(s, ReadCount(s, c).value.1, fs)
  {
    hide Ahead, Decimal, Number, ReadNumeral, IsSpace;
    var b := NumeralAhead(s, c, n, Line(Decimal(n)), fs);
  }

  lemma {:induction false} FlagAhead(s: string, c: Cursor, b: bool, fs: seq<Field>)
    requires Ahead(s, c, [Field(Flag(b), Blank)] + fs)
    ensures InText(s, c) && ReadFlag(s, c).0 == b && Ahead(s, ReadFlag(s, c).1, fs)
  {
    var n := if b then 1 else 0;
    assert Flag(b) == Decimal(n);
    hide Ahead, Decimal, Number, ReadNumeral, IsSpace, Flag;
    var p := NumeralAhead(s, c, n, Field(Flag(b), Blank), fs);
  }

  lemma {:induction false} ColumnAhead(s: string, c: Cursor, column: Column, fs: seq<Field>)
    requires Ahead(s, c, ColumnFields(column) + fs) && WordyColumn(column)
    ensures InText(s, c) && ReadColumn(s, c).0 == column && Ahead(s, ReadColumn(s, c).1, fs)
  {
    hide Ahead, ReadWord, ReadFlag, Flag, IsWord;
    var f1, f2, f3, f4, f5 := Field(column.name, Blank), Field(Flag(column.isPrimaryKey), Blank),
                              Field(Flag(column.isUnique), Blank), Field(Flag(column.isNotNull), Blank),
                              Line(column.defaultValue);
    var t4 := [f5] + fs;
    var t3 := [f4] + t4;
    var t2 := [f3] + t3;
    var t1 := [f2] + t2;
    assert ColumnFields(column) + fs == [f1] + t1;
    WordAhead(s, c, f1, t1);
    var c1 := ReadWord(s, c).1;
    FlagAhead(s, c1, column.isPrimaryKey, t2);
    var c2 := ReadFlag(s, c1).1;
    FlagAhead(s, c2, column.isUnique, t3);
    var c3 := ReadFlag(s, c2).1;
    FlagAhead(s, c3, column.isNotNull, t4);
    WordAhead(s, ReadFlag(s, c3).1, f5, fs);
  }

  lemma {:induction false} InBounds(s: string, c: Cursor, fs: seq<Field>)
    requires Ahead(s, c, fs)
    ensures InText(s, c) && !c.failed
  {
  }

  lemma {:induction false} ColumnsAhead(s: string, c: Cursor, cs: Schema, acc: Schema, fs: seq<Field>)
    requires Ahead(s, c, ColumnsFields(cs) + fs) && WordySchema(cs)
    ensures InText(s, c)
    ensures var r := ReadColumns(s, c, |cs|, acc); r.0 == acc + cs && Ahead(s, r.1, fs)
    decreases |cs|
  {
    hide Ahead, ReadColumn, ColumnFields, WordyColumn;
    InBounds(s, c, ColumnsFields(cs) + fs);
    if cs == [] {
      assert ColumnsFields(cs) + fs == fs;
    } else {
      var rest := ColumnsFields(cs[1..]) + fs;
      assert ColumnsFields(cs) + fs == ColumnFields(cs[0]) + rest;
      ColumnAhead(s, c, cs[0], rest);
      ColumnsAhead(s, ReadColumn(s, c).1, cs[1..], acc + [cs[0]], fs);
      assert acc + [cs[0]] + cs[1..] == acc + cs;
    }
  }

  lemma SchemaAhead(s: string, c: Cursor, p: (string, Schema), fs: seq<Field>)
    requires Ahead(s, c, [Line(p.0), Line(Decimal(|p.1|))] + (ColumnsFields(p.1) + fs))
    requires IsWord(p.0) && WordySchema(p.1) && |p.1| < SIZE_LIMIT
    ensures InText(s, c) && ReadSchema(s, c).Some?
    ensures ReadSchema(s, c).value.0 == p && Ahead(s, ReadSchema(s, c).value.1, fs)
  {
    hide Ahead, ReadWord, ReadCount, ReadColumns, ColumnsFields, Decimal, IsWord, WordySchema;
    var rest := ColumnsFields(p.1) + fs;
    assert [Line(p.0), Line(Decimal(|p.1|))] + rest == [Line(p.0)] + ([Line(Decimal(|p.1|))] + rest);
    WordAhead(s, c, Line(p.0), [Line(Decimal(|p.1|))] + rest);
    var c1 := ReadWord(s, c).1;
    CountAhead(s, c1, |p.1|, rest);
    ColumnsAhead(s, ReadCount(s, c1).value.1, p.1, [], fs);
    assert [] + p.1 == p.1;
  }

  predicate WordyPair(p: (string, Schema)) {
    IsWord(p.0) && WordySchema(p.1)
  }

  lemma {:induction false} SchemasAhead(s: string, c: Cursor, ps: Schemas, acc: map<string, Schema>,
                                        fs: seq<Field>)
    requires Ahead(s, c, SchemasFields(ps) + fs) && forall p <- ps :: WordyPair(p) && |p.1| < SIZE_LIMIT
    ensures InText(s, c)
    ensures var r := ReadSchemas(s, c, |ps|, acc); r.Some? && r.value.0 == Collect(ps, acc) && Ahead(s, r.value.1, fs)
    decreases |ps|
  {
    hide Ahead, ReadSchema, ColumnsFields, Decimal, IsWord, WordySchema;
    InBounds(s, c, SchemasFields(ps) + fs);
    if ps == [] {
      assert SchemasFields(ps) + fs == fs;
    } else {
      var p, rest := ps[0], SchemasFields(ps[1..]) + fs;
      assert SchemasFields(ps) + fs == [Line(p.0), Line(Decimal(|p.1|))] + (ColumnsFields(p.1) + rest);
      SchemaAhead(s, c, p, rest);
      SchemasAhead(s, ReadSchema(s, c).value.1, ps[1..], acc[p.0 := p.1], fs);
    }
  }

  predicate WordyPairs(r: Pairs) {
    forall p <- r :: IsWord(p.0) && IsWord(p.1)
  }

  lemma {:induction false} RowAhead(s: string, c: Cursor, r: Pairs, acc: Row, fs: seq<Field>)
    requires Ahead(s, c, PairsFields(r) + fs) && WordyPairs(r)
    ensures InText(s, c)
    ensures var o := ReadRow(s, c, |r|, acc); o.0 == Collect(r, acc) && Ahead(s, o.1, fs)
    decreases |r|
  {
    hide Ahead, ReadWord, IsWord;
    InBounds(s, c, PairsFields(r) + fs);
    if r == [] {
      assert PairsFields(r) + fs == fs;
    } else {
      var rest := PairsFields(r[1..]) + fs;
      assert PairsFields(r) + fs == [Line(r[0].0)] + ([Line(r[0].1)] + rest);
      WordAhead(s, c, Line(r[0].0), [Line(r[0].1)] + rest);
      var c1 := ReadWord(s, c).1;
      WordAhead(s, c1, Line(r[0].1), rest);
      RowAhead(s, ReadWord(s, c1).1, r[1..], acc[r[0].0 := r[0].1], fs);
    }
  }

  predicate WordyRows(rows: Rows) {
    forall r <- rows :: WordyPairs(r)
  }

  /** The first row's count and where its pairs start. */
  lemma {:induction false} RowCountAhead(s: string, c: Cursor, rows: Rows, fs: seq<Field>)
    requires rows != [] && Ahead(s, c, RowsFields(rows) + fs) && |rows[0]| < SIZE_LIMIT
    ensures InText(s, c) && ReadCount(s, c).Some? && ReadCount(s, c).value.0 == |rows[0]|
    ensures Ahead(s, ReadCount(s, c).value.1, PairsFields(rows[0]) + (RowsFields(rows[1..]) + fs))
  {
    hide Ahead, ReadCount, PairsFields, Decimal;
    var row, rest := rows[0], RowsFields(rows[1..]) + fs;
    assert RowsFields(rows) + fs == [Line(Decimal(|row|))] + (PairsFields(row) + rest);
    CountAhead(s, c, |row|, PairsFields(row) + rest);
  }

  lemma {:induction false} RowsAhead(s: string, c: Cursor, rows: Rows, acc: Table, fs: seq<Field>)
    requires Ahead(s, c, RowsFields(rows) + fs) && WordyRows(rows) && RowsListed(rows)
    ensures InText(s, c)
    ensures var r := ReadRows(s, c, |rows|, acc); r.Some? && r.value.0 == acc + CollectRows(rows) && Ahead(s, r.value.1, fs)
    decreases |rows|
  {
    hide Ahead, ReadCount, ReadRow, PairsFields, Decimal, Collect, WordyRow, WordyPairs, DistinctKeys;
    InBounds(s, c, RowsFields(rows) + fs);
    if rows == [] {
      assert RowsFields(rows) + fs == fs;
      assert acc + CollectRows(rows) == acc;
    } else {
      RowCountAhead(s, c, rows, fs);
      var c1 := ReadCount(s, c).value.1;
      RowAhead(s, c1, rows[0], map[], RowsFields(rows[1..]) + fs);
      RowsAhead(s, ReadRow(s, c1, |rows[0]|, map[]).1, rows[1..], acc + [Collect(rows[0], map[])], fs);
      CollectFirst(rows, acc);
    }
  }

  lemma {:induction false} CollectFirst(rows: Rows, acc: Table)
    requires rows != []
    ensures (acc + [Collect(rows[0], map[])]) + CollectRows(rows[1..]) == acc + CollectRows(rows)
  {
    hide Collect;
    assert CollectRows(rows) == [Collect(rows[0], map[])] + CollectRows(rows[1..]);
  }

  // ---- the last row -------------------------------------------------------------------

  /** Printed strings without the empty ones: the words a reader meets. */
  function NonEmpty(fs: seq<Field>): seq<string> {
    if fs == [] then [] else (if fs[0].word == "" then [] else [fs[0].word]) + NonEmpty(fs[1..])
  }

  function FirstOf(ws: seq<string>): string {
    if ws == [] then "" else ws[0]
  }

  function RestOf(ws: seq<string>): seq<string> {
    if ws == [] then [] else ws[1..]
  }

  /** `n` key/value pairs taken from `ws`, the missing strings being empty. */
  function PairsFrom(ws: seq<string>, n: nat): (ps: Pairs)
    ensures |ps| == n
  {
    if n == 0 then [] else [(FirstOf(ws), FirstOf(RestOf(ws)))] + PairsFrom(RestOf(RestOf(ws)), n - 1)
  }

  /** The words from the cursor to the end of the text. */
  predicate WordsLeft(s: string, c: Cursor, ws: seq<string>)
    requires InText(s, c)
    decreases |ws|
  {
    if c.failed then ws == []
    else
      var b := Span(s, c.pos, IsSpace);
      if ws == [] then b == |s|
      else IsWord(ws[0]) && Stands(s, c, ws[0], b) && WordsLeft(s, Cursor(b + |ws[0]|, false), ws[1..])
  }

  lemma {:induction false} TakeWord(s: string, c: Cursor, ws: seq<string>)
    requires InText(s, c) && WordsLeft(s, c, ws)
    ensures ReadWord(s, c).0 == FirstOf(ws) && WordsLeft(s, ReadWord(s, c).1, RestOf(ws))
  {
    hide IsSpace, Stands, IsWord;
    if !c.failed && ws != [] {
      WordStands(s, c, ws[0], Span(s, c.pos, IsSpace));
    }
  }

  /** Reading a row when only these words are left. */
  lemma {:induction false} TakeRow(s: string, c: Cursor, n: nat, acc: Row, ws: seq<string>)
    requires InText(s, c) && WordsLeft(s, c, ws)
    ensures ReadRow(s, c, n, acc).0 == Collect(PairsFrom(ws, n), acc)
    decreases n
  {
    hide ReadWord, WordsLeft, FirstOf, RestOf;
    if n > 0 {
      TakeWord(s, c, ws);
      var (key, c1) := ReadWord(s, c);
      TakeWord(s, c1, RestOf(ws));
      var (value, c2) := ReadWord(s, c1);
      TakeRow(s, c2, n - 1, acc[key := value], RestOf(RestOf(ws)));
    }
  }

  predicate LooseFields(fs: seq<Field>) {
    forall i :: 0 <= i < |fs| ==> IsWordOrEmpty(fs[i].word)
  }

  lemma {:induction false} WordsAhead(s: string, c: Cursor, fs: seq<Field>)
    requires Ahead(s, c, fs) && LooseFields(fs)
    ensures InText(s, c) && WordsLeft(s, c, NonEmpty(fs))
    decreases |fs|
  {
    hide Ahead, IsWord, IsSpace, Stands, WordsLeft;
    InBounds(s, c, fs);
    if fs == [] {
      EndAhead(s, c);
    } else {
      assert fs == [fs[0]] + fs[1..];
      if fs[0].word == "" {
        SkipEmpty(s, c, fs[0], fs[1..]);
        WordsAhead(s, c, fs[1..]);
        assert NonEmpty(fs) == NonEmpty(fs[1..]);
      } else {
        var b := FieldAhead(s, c, fs[0], fs[1..]);
        WordsAhead(s, Cursor(b + |fs[0].word|, false), fs[1..]);
        WordFirst(s, c, fs[0].word, b, NonEmpty(fs[1..]));
      }
    }
  }

  lemma {:induction false} WordFirst(s: string, c: Cursor, w: string, b: nat, ws: seq<string>)
    requires InText(s, c) && !c.failed && IsWord(w) && Stands(s, c, w, b) && WordsLeft(s, Cursor(b + |w|, false), ws)
    ensures WordsLeft(s, c, [w] + ws)
  {
    hide IsWord, IsSpace;
    assert ([w] + ws)[1..] == ws;
  }

  lemma EndAhead(s: string, c: Cursor)
    requires Ahead(s, c, [])
    ensures InText(s, c) && WordsLeft(s, c, [])
  {
    hide IsSpace;
    forall k | c.pos <= k < |s|
      ensures IsSpace(s[k])
    {
      assert s[c.pos..|s|][k - c.pos] == s[k];
    }
  }

  predicate LoosePairs(r: Pairs) {
    forall p <- r :: IsWordOrEmpty(p.0) && IsWordOrEmpty(p.1)
  }

  /**
   The row printed last survives if its strings are words or empty, and moving the empty ones to the end of the row
   makes no difference.
   */
  predicate LastRowSurvives(r: Pairs) {
    LoosePairs(r) && Collect(PairsFrom(NonEmpty(PairsFields(r)), |r|), map[]) == Collect(r, map[])
  }

  lemma {:induction false} PairsLoose(r: Pairs)
    requires LoosePairs(r)
    ensures LooseFields(PairsFields(r))
  {
    hide IsWord;
    if r != [] { PairsLoose(r[1..]); }
  }

  lemma {:induction false} WordyPairsKept(r: Pairs)
    requires WordyPairs(r)
    ensures PairsFrom(NonEmpty(PairsFields(r)), |r|) == r
  {
    hide IsWord, NonEmpty, PairsFrom, Line;
    if r == [] {
      NothingKept();
    } else {
      var rest := PairsFields(r[1..]);
      assert PairsFields(r) == [Line(r[0].0)] + ([Line(r[0].1)] + rest);
      assert r[0] in r;
      FirstWords(r);
      WordKept(Line(r[0].0), [Line(r[0].1)] + rest);
      WordKept(Line(r[0].1), rest);
      WordyPairsKept(r[1..]);
      TwoTaken(r[0].0, r[0].1, NonEmpty(rest), |r|);
      assert r == [r[0]] + r[1..];
    }
  }

  lemma NothingKept()
    ensures NonEmpty([]) == [] && PairsFields([]) == [] && PairsFrom([], 0) == []
  {
  }

  lemma FirstWords(r: Pairs)
    requires r != [] && WordyPairs(r)
    ensures Line(r[0].0).word == r[0].0 != "" && Line(r[0].1).word == r[0].1 != ""
  {
    assert r[0] in r;
  }

  lemma {:induction false} WordKept(f: Field, fs: seq<Field>)
    requires f.word != ""
    ensures NonEmpty([f] + fs) == [f.word] + NonEmpty(fs)
  {
    assert ([f] + fs)[1..] == fs;
  }

  lemma {:induction false} TwoTaken(key: string, value: string, ws: seq<string>, n: nat)
    requires n > 0
    ensures PairsFrom([key] + ([value] + ws), n) == [(key, value)] + PairsFrom(ws, n - 1)
  {
    var words := [key] + ([value] + ws);
    assert RestOf(words) == [value] + ws && RestOf(RestOf(words)) == ws;
  }

  /** A row of words survives in any place. */
  lemma WordyRowSurvives(r: Pairs)
    requires WordyPairs(r)
    ensures LastRowSurvives(r)
  {
    WordyPairsKept(r);
  }

  // ---- what a listing says about its image --------------------------------------------

  lemma {:induction false} CollectKeeps<V>(pairs: seq<(string, V)>, acc: map<string, V>)
    requires DistinctKeys(pairs) && forall p <- pairs :: p.0 !in acc
    ensures forall k <- acc :: k in Collect(pairs, acc) && Collect(pairs, acc)[k] == acc[k]
    ensures forall p <- pairs :: p.0 in Collect(pairs, acc) && Collect(pairs, acc)[p.0] == p.1
    ensures forall k <- Collect(pairs, acc) :: k in acc || exists p <- pairs :: p.0 == k
    ensures |Collect(pairs, acc)| == |acc| + |pairs|
    decreases |pairs|
  {
    if pairs != [] {
      var acc' := acc[pairs[0].0 := pairs[0].1];
      assert |acc'| == |acc| + 1 by { NewKey(acc, pairs[0].0, pairs[0].1); }
      forall p <- pairs[1..]
        ensures p.0 !in acc'
      {
        var j :| 0 <= j < |pairs| - 1 && pairs[1..][j] == p;
        assert pairs[j + 1] == p && pairs[0].0 != pairs[j + 1].0;
      }
      CollectKeeps(pairs[1..], acc');
      forall k <- Collect(pairs, acc) | k !in acc
        ensures exists p <- pairs :: p.0 == k
      {
        assert k in acc' || exists p <- pairs[1..] :: p.0 == k;
        if k in acc' { assert pairs[0].0 == k; }
      }
      forall p <- pairs
        ensures p.0 in Collect(pairs, acc) && Collect(pairs, acc)[p.0] == p.1
      {
        assert p == pairs[0] || p in pairs[1..];
        if p == pairs[0] { assert pairs[0].0 in acc'; }
      }
    }
  }

  lemma NewKey<V>(m: map<string, V>, k: string, v: V)
    ensures |m[k := v]| == |m| + if k in m then 0 else 1
  {
    assert m[k := v].Keys == m.Keys + {k};
    assert |m| == |m.Keys| && |m[k := v]| == |m[k := v].Keys|;
  }

  lemma {:induction false} CollectWhole<V>(pairs: seq<(string, V)>)
    requires DistinctKeys(pairs)
    ensures forall p <- pairs :: p.0 in Collect(pairs, map[]) && Collect(pairs, map[])[p.0] == p.1
    ensures forall k <- Collect(pairs, map[]) :: (k, Collect(pairs, map[])[k]) in pairs
  {
    CollectKeeps(pairs, map[]);
    forall k <- Collect(pairs, map[])
      ensures (k, Collect(pairs, map[])[k]) in pairs
    {
      var p :| p in pairs && p.0 == k;
      assert p == (k, Collect(pairs, map[])[k]);
    }
  }

  lemma RowWordy(r: Pairs)
    requires DistinctKeys(r)
    ensures WordyRow(Collect(r, map[])) <==> WordyPairs(r)
    ensures LooseRow(Collect(r, map[])) ==> LoosePairs(r)
  {
    hide IsWord, IsWordOrEmpty, Collect;
    CollectWhole(r);
    var m := Collect(r, map[]);
    if WordyPairs(r) {
      forall k <- m ensures IsWord(k) && IsWord(m[k]) { assert (k, m[k]) in r; }
    }
  }

  lemma {:induction false} TableWordy(rows: Rows)
    requires RowsListed(rows)
    ensures WordyTable(CollectRows(rows)) <==> WordyRows(rows)
  {
    hide IsWord, Collect, WordyRow, WordyPairs, DistinctKeys;
    var t := CollectRows(rows);
    forall i | 0 <= i < |rows|
      ensures WordyRow(t[i]) <==> WordyPairs(rows[i])
    {
      assert rows[i] in rows;
      RowWordy(rows[i]);
    }
    if WordyTable(t) {
      forall r <- rows
        ensures WordyPairs(r)
      {
        var i :| 0 <= i < |rows| && rows[i] == r;
        assert WordyRow(t[i]);
      }
    }
    if WordyRows(rows) {
      forall i | 0 <= i < |t| ensures WordyRow(t[i]) { assert rows[i] in rows; }
    }
  }

  lemma {:induction false} SchemasWordy(ps: Schemas)
    requires DistinctKeys(ps)
    ensures WordySchemas(Collect(ps, map[])) <==> forall p <- ps :: WordyPair(p)
  {
    hide IsWord, Collect, WordySchema;
    CollectWhole(ps);
    var m := Collect(ps, map[]);
    if forall p <- ps :: WordyPair(p) {
      forall k <- m ensures IsWord(k) && WordySchema(m[k]) { assert WordyPair((k, m[k])); }
    }
  }

  // ---- exactly which images survive ---------------------------------------------------

  /** Only the row printed last may hold an empty string. */
  predicate RowsSurvive(rows: Rows) {
    rows != [] ==> WordyRows(rows[..|rows| - 1]) && LastRowSurvives(rows[|rows| - 1])
  }

  predicate TablesSurvive(ts: Tables) {
    ts != [] ==>
      && (forall t <- ts :: IsWord(t.0)) && (forall t <- ts[..|ts| - 1] :: WordyRows(t.1))
      && RowsSurvive(ts[|ts| - 1].1)
  }

  predicate Survives(l: Listing) {
    (forall p <- l.schemas :: WordyPair(p)) && TablesSurvive(l.tables)
  }

  /** Reading from the cursor appends exactly these rows. */
  predicate RowsRead(s: string, c: Cursor, rows: Rows, acc: Table)
    requires InText(s, c)
  {
    var r := ReadRows(s, c, |rows|, acc);
    r.Some? && r.value.0 == acc + CollectRows(rows)
  }

  /** The row printed last, read with nothing behind it. */
  lemma LastRowExactly(s: string, c: Cursor, r: Pairs)
    requires Ahead(s, c, PairsFields(r)) && DistinctKeys(r)
    ensures InText(s, c) && (ReadRow(s, c, |r|, map[]).0 == Collect(r, map[]) <==> LastRowSurvives(r))
  {
    InBounds(s, c, PairsFields(r));
    hide Ahead, ReadRow, Collect, PairsFrom, NonEmpty, PairsFields, IsWordOrEmpty, DistinctKeys;
    if LoosePairs(r) {
      PairsLoose(r);
      WordsAhead(s, c, PairsFields(r));
      TakeRow(s, c, |r|, map[], NonEmpty(PairsFields(r)));
    } else {
      RowWordy(r);
      assert LooseRow(map[]);
    }
  }

  /** The rows of the table printed last. */
  lemma {:induction false} LastRowsExactly(s: string, c: Cursor, rows: Rows, acc: Table)
    requires Ahead(s, c, RowsFields(rows)) && RowsListed(rows)
    ensures InText(s, c) && (RowsRead(s, c, rows, acc) <==> RowsSurvive(rows))
    decreases |rows|
  {
    InBounds(s, c, RowsFields(rows));
    if rows == [] {
      assert acc + CollectRows(rows) == acc;
    } else {
      hide Ahead, ReadCount, ReadRow, RowsRead, PairsFields, RowsFields, Collect, CollectRows, WordyPairs, RowsSurvive,
           DistinctKeys;
      assert RowsFields(rows) + [] == RowsFields(rows);
      RowCountAhead(s, c, rows, []);
      var c1 := ReadCount(s, c).value.1;
      assert rows[0] in rows;
      if |rows| == 1 {
        LastOneExactly(s, c, c1, rows, acc);
      } else if WordyPairs(rows[0]) {
        RowAhead(s, c1, rows[0], map[], RowsFields(rows[1..]) + []);
        assert RowsFields(rows[1..]) + [] == RowsFields(rows[1..]);
        LastRowsExactly(s, ReadRow(s, c1, |rows[0]|, map[]).1, rows[1..], acc + [Collect(rows[0], map[])]);
        FirstRowRead(s, c, c1, rows, acc);
        FirstSurvives(rows);
      } else {
        FirstRowLost(s, c, c1, rows, acc);
      }
    }
  }

  lemma {:induction false} FirstRowRead(s: string, c: Cursor, c1: Cursor, rows: Rows, acc: Table)
    requires rows != [] && InText(s, c) && InText(s, c1) && ReadCount(s, c) == Some((|rows[0]|, c1))
    requires ReadRow(s, c1, |rows[0]|, map[]).0 == Collect(rows[0], map[])
    ensures var c2 := ReadRow(s, c1, |rows[0]|, map[]).1;
            RowsRead(s, c, rows, acc) <==> RowsRead(s, c2, rows[1..], acc + [Collect(rows[0], map[])])
  {
    hide ReadCount, ReadRow, Collect, CollectRows;
    CollectFirst(rows, acc);
  }

  lemma {:induction false} LastOneExactly(s: string, c: Cursor, c1: Cursor, rows: Rows, acc: Table)
    requires |rows| == 1 && RowsListed(rows) && InText(s, c) && InText(s, c1)
    requires ReadCount(s, c) == Some((|rows[0]|, c1)) && Ahead(s, c1, PairsFields(rows[0]) + (RowsFields(rows[1..]) + []))
    ensures RowsRead(s, c, rows, acc) <==> RowsSurvive(rows)
  {
    hide Ahead, ReadCount, ReadRow, PairsFields, Collect, LastRowSurvives, DistinctKeys;
    var row := rows[0];
    assert row in rows;
    assert PairsFields(row) + (RowsFields(rows[1..]) + []) == PairsFields(row);
    LastRowExactly(s, c1, row);
    var got := ReadRow(s, c1, |row|, map[]);
    assert ReadRows(s, c, 1, acc) == Some((acc + [got.0], got.1)) by {
      assert ReadRows(s, got.1, 0, acc + [got.0]) == Some((acc + [got.0], got.1));
    }
    assert (acc + [got.0])[|acc|] == got.0 && (acc + CollectRows(rows))[|acc|] == Collect(row, map[]);
    assert CollectRows(rows) == [Collect(row, map[])];
    assert rows[..0] == [] && WordyRows(rows[..0]);
  }

  lemma {:induction false} FirstSurvives(rows: Rows)
    requires |rows| > 1 && WordyPairs(rows[0])
    ensures RowsSurvive(rows) <==> RowsSurvive(rows[1..])
  {
    hide WordyPairs, LastRowSurvives;
    var a, b := rows[..|rows| - 1], rows[1..][..|rows[1..]| - 1];
    assert a == [rows[0]] + b;
    assert rows[1..][|rows[1..]| - 1] == rows[|rows| - 1];
    assert WordyRows(a) <==> WordyRows(b) by {
      forall r ensures r in a <==> r == rows[0] || r in b {}
    }
  }

  /** A count is read after every row but the last, so a good stream there means that the row read was words. */
  lemma {:induction false} FirstRowLost(s: string, c: Cursor, c1: Cursor, rows: Rows, acc: Table)
    requires |rows| > 1 && RowsListed(rows) && !WordyPairs(rows[0]) && InText(s, c) && InText(s, c1)
    requires ReadCount(s, c) == Some((|rows[0]|, c1))
    ensures !RowsRead(s, c, rows, acc) && !RowsSurvive(rows)
  {
    hide ReadCount, ReadRow, Collect, WordyPairs, LastRowSurvives, DistinctKeys;
    var got := ReadRow(s, c1, |rows[0]|, map[]);
    assert rows[0] in rows && rows[..|rows| - 1][0] == rows[0];
    RowWordy(rows[0]);
    var r := ReadRows(s, c, |rows|, acc);
    assert r == ReadRows(s, got.1, |rows| - 1, acc + [got.0]);
    if r.Some? {
      assert !got.1.failed && WordyRow(map[]);
      assert r.value.0[|acc|] == (acc + [got.0])[|acc|] == got.0;
      assert (acc + CollectRows(rows))[|acc|] == Collect(rows[0], map[]);
    }
  }

  lemma {:induction false} TablesKeys(s: string, c: Cursor, n: nat, acc: map<string, Table>)
    requires InText(s, c) && ReadTables(s, c, n, acc).Some?
    ensures var m := ReadTables(s, c, n, acc).value.0;
            && (forall k <- m :: k in acc || IsWord(k)) && |m| <= |acc| + n
            && (|m| == |acc| + n ==> forall k <- acc :: k in m && m[k] == acc[k])
    decreases n
  {
    hide ReadTable, IsWord;
    if n > 0 {
      var p := ReadTable(s, c).value;
      NewKey(acc, p.0.0, p.0.1);
      TablesKeys(s, p.1, n - 1, acc[p.0.0 := p.0.1]);
    }
  }

  /** The table's name and row count, and where its rows start. */
  lemma {:induction false} TableStartAhead(s: string, c: Cursor, ts: Tables) returns (c2: Cursor)
    requires ts != [] && Ahead(s, c, TablesFields(ts)) && IsWord(ts[0].0) && |ts[0].1| < SIZE_LIMIT
    ensures InText(s, c) && InText(s, c2) && Ahead(s, c2, RowsFields(ts[0].1) + TablesFields(ts[1..]))
    ensures var rows := ReadRows(s, c2, |ts[0].1|, []);
            ReadTable(s, c) == if rows.None? then None else Some(((ts[0].0, rows.value.0), rows.value.1))
  {
    hide Ahead, ReadWord, ReadCount, ReadRows, RowsFields, Decimal, IsWord;
    var t := ts[0];
    var rest := RowsFields(t.1) + TablesFields(ts[1..]);
    assert TablesFields(ts) == [Line(t.0)] + ([Line(Decimal(|t.1|))] + rest);
    InBounds(s, c, TablesFields(ts));
    WordAhead(s, c, Line(t.0), [Line(Decimal(|t.1|))] + rest);
    var c1 := ReadWord(s, c).1;
    CountAhead(s, c1, |t.1|, rest);
    c2 := ReadCount(s, c1).value.1;
    InBounds(s, c2, rest);
  }

  predicate TablesListed(ts: Tables) {
    DistinctKeys(ts) && |ts| < SIZE_LIMIT && forall t <- ts :: RowsListed(t.1)
  }

  lemma {:induction false} RestListed(ts: Tables, acc: map<string, Table>, t: Table)
    requires ts != [] && TablesListed(ts) && forall t <- ts :: t.0 !in acc
    ensures TablesListed(ts[1..]) && forall r <- ts[1..] :: r.0 !in acc[ts[0].0 := t]
  {
    hide RowsListed;
    forall r <- ts[1..]
      ensures r in ts && r.0 != ts[0].0
    {
      var i :| 0 <= i < |ts| - 1 && ts[1..][i] == r;
      assert ts[i + 1] == r;
    }
  }

  /** What the loaded tables are compared with. */
  lemma {:induction false} TablesCollected(ts: Tables, acc: map<string, Table>)
    requires DistinctKeys(ts) && forall t <- ts :: t.0 !in acc
    ensures var m := Collect(CollectTables(ts), acc);
            |m| == |acc| + |ts| && forall i :: 0 <= i < |ts| ==> ts[i].0 in m && m[ts[i].0] == CollectRows(ts[i].1)
  {
    hide Collect, CollectRows;
    var pairs := CollectTables(ts);
    forall p <- pairs
      ensures p.0 !in acc
    {
      var i :| 0 <= i < |pairs| && pairs[i] == p;
      assert ts[i] in ts;
    }
    CollectKeeps(pairs, acc);
    forall i | 0 <= i < |ts|
      ensures var m := Collect(pairs, acc); ts[i].0 in m && m[ts[i].0] == CollectRows(ts[i].1)
    {
      assert pairs[i] in pairs && pairs[i] == (ts[i].0, CollectRows(ts[i].1));
    }
  }

  /** Reading from the cursor binds exactly these tables. */
  predicate TablesRead(s: string, c: Cursor, ts: Tables, acc: map<string, Table>)
    requires InText(s, c)
  {
    var r := ReadTables(s, c, |ts|, acc);
    r.Some? && r.value.0 == Collect(CollectTables(ts), acc)
  }

  /** A name that is no word is no key of what was loaded. */
  lemma {:induction false} NameLost(s: string, c: Cursor, ts: Tables, acc: map<string, Table>)
    requires InText(s, c) && ts != [] && !IsWord(ts[0].0) && DistinctKeys(ts) && forall t <- ts :: t.0 !in acc
    ensures !TablesRead(s, c, ts, acc) && !TablesSurvive(ts)
  {
    hide ReadTables, Collect, CollectTables, IsWord, RowsSurvive, WordyRows, DistinctKeys;
    TablesCollected(ts, acc);
    assert ts[0] in ts;
    if ReadTables(s, c, |ts|, acc).Some? {
      TablesKeys(s, c, |ts|, acc);
    }
  }

  lemma {:induction false} LastTableExactly(s: string, c: Cursor, ts: Tables, acc: map<string, Table>)
    requires |ts| == 1 && Ahead(s, c, TablesFields(ts)) && IsWord(ts[0].0) && RowsListed(ts[0].1)
    ensures InText(s, c) && (TablesRead(s, c, ts, acc) <==> TablesSurvive(ts))
  {
    LastSurvives(ts);
    assert TablesFields(ts[1..]) == [];
    hide Ahead, ReadTable, ReadRows, RowsFields, TablesFields, TablesRead, IsWord, RowsSurvive, TablesSurvive, CollectRows;
    var rows := ts[0].1;
    var c2 := TableStartAhead(s, c, ts);
    assert RowsFields(rows) + TablesFields(ts[1..]) == RowsFields(rows);
    LastRowsExactly(s, c2, rows, []);
    assert [] + CollectRows(rows) == CollectRows(rows);
    OneTableRead(s, c, ts, acc, ReadRows(s, c2, |rows|, []));
  }

  lemma {:induction false} OneTableRead(s: string, c: Cursor, ts: Tables, acc: map<string, Table>,
                                        got: Option<(Table, Cursor)>)
    requires |ts| == 1 && InText(s, c) && (got.Some? ==> InText(s, got.value.1))
    requires ReadTable(s, c) == if got.None? then None else Some(((ts[0].0, got.value.0), got.value.1))
    ensures TablesRead(s, c, ts, acc) <==> got.Some? && got.value.0 == CollectRows(ts[0].1)
  {
    CollectOne(ts, acc);
    hide ReadTable, CollectRows, Collect, CollectTables;
    var name, rows := ts[0].0, ts[0].1;
    if got.Some? {
      var loaded := acc[name := got.value.0];
      assert ReadTables(s, got.value.1, 0, loaded) == Some((loaded, got.value.1));
      assert loaded[name] == got.value.0 && acc[name := CollectRows(rows)][name] == CollectRows(rows);
    }
  }

  lemma {:induction false} LastSurvives(ts: Tables)
    requires |ts| == 1 && IsWord(ts[0].0)
    ensures TablesSurvive(ts) <==> RowsSurvive(ts[0].1)
  {
    hide IsWord, RowsSurvive;
    assert ts[..0] == [];
  }

  lemma {:induction false} CollectOne(ts: Tables, acc: map<string, Table>)
    requires ts != []
    ensures Collect(CollectTables(ts), acc) == Collect(CollectTables(ts[1..]), acc[ts[0].0 := CollectRows(ts[0].1)])
    ensures |ts| == 1 ==> Collect(CollectTables(ts), acc) == acc[ts[0].0 := CollectRows(ts[0].1)]
  {
    hide CollectRows;
    assert CollectTables(ts)[1..] == CollectTables(ts[1..]);
  }

  /** A table of words that is read whole. */
  lemma {:induction false} TableAhead(s: string, c: Cursor, ts: Tables)
    requires ts != [] && Ahead(s, c, TablesFields(ts))
    requires IsWord(ts[0].0) && WordyRows(ts[0].1) && RowsListed(ts[0].1)
    ensures InText(s, c) && ReadTable(s, c).Some?
    ensures var r := ReadTable(s, c).value; r.0 == (ts[0].0, CollectRows(ts[0].1)) && Ahead(s, r.1, TablesFields(ts[1..]))
  {
    hide Ahead, ReadTable, ReadRows, RowsFields, TablesFields, IsWord, WordyRows, CollectRows;
    var c2 := TableStartAhead(s, c, ts);
    RowsAhead(s, c2, ts[0].1, [], TablesFields(ts[1..]));
    assert [] + CollectRows(ts[0].1) == CollectRows(ts[0].1);
  }

  lemma {:induction false} FirstTableRead(s: string, c: Cursor, ts: Tables, acc: map<string, Table>)
    requires ts != [] && InText(s, c) && ReadTable(s, c).Some?
    requires ReadTable(s, c).value.0 == (ts[0].0, CollectRows(ts[0].1))
    ensures var c1 := ReadTable(s, c).value.1;
            TablesRead(s, c, ts, acc) <==> TablesRead(s, c1, ts[1..], acc[ts[0].0 := CollectRows(ts[0].1)])
  {
    hide ReadTable, CollectRows, CollectTables, Collect;
    CollectOne(ts, acc);
  }

  lemma {:induction false} FirstTableSurvives(ts: Tables)
    requires |ts| > 1 && IsWord(ts[0].0)
    ensures TablesSurvive(ts) <==> WordyRows(ts[0].1) && TablesSurvive(ts[1..])
  {
    hide IsWord, WordyRows, RowsSurvive;
    var rest := ts[1..];
    assert ts == [ts[0]] + rest && ts[..|ts| - 1] == [ts[0]] + rest[..|rest| - 1];
  }

  /** A table before the last whose rows were not words: a name and a count are read after it. */
  lemma {:induction false} TableLost(s: string, c: Cursor, ts: Tables, acc: map<string, Table>)
    requires |ts| > 1 && Ahead(s, c, TablesFields(ts)) && DistinctKeys(ts) && forall t <- ts :: t.0 !in acc
    requires IsWord(ts[0].0) && !WordyRows(ts[0].1) && RowsListed(ts[0].1)
    ensures InText(s, c) && !TablesRead(s, c, ts, acc)
  {
    hide Ahead, ReadTable, ReadRows, RowsFields, TablesFields, IsWord, WordyRows, WordyTable, CollectRows, Collect,
         CollectTables, DistinctKeys;
    var c2 := TableStartAhead(s, c, ts);
    TablesCollected(ts, acc);
    TableWordy(ts[0].1);
    assert ts[0] in ts;
    var r := ReadTables(s, c, |ts|, acc);
    if r.Some? {
      var p := ReadTable(s, c).value;
      var acc' := acc[p.0.0 := p.0.1];
      assert r == ReadTables(s, p.1, |ts| - 1, acc') && ReadTable(s, p.1).Some?;
      NewKey(acc, p.0.0, p.0.1);
      TablesKeys(s, p.1, |ts| - 1, acc');
      assert p.0.0 in acc';
    }
  }

  lemma {:induction false} TablesExactly(s: string, c: Cursor, ts: Tables, acc: map<string, Table>)
    requires Ahead(s, c, TablesFields(ts)) && TablesListed(ts) && forall t <- ts :: t.0 !in acc
    ensures InText(s, c) && (TablesRead(s, c, ts, acc) <==> TablesSurvive(ts))
    decreases |ts|
  {
    InBounds(s, c, TablesFields(ts));
    if ts == [] {
      assert CollectTables(ts) == [];
    } else {
      hide Ahead, ReadTable, TablesFields, IsWord, WordyRows, RowsSurvive, CollectRows, RowsListed, DistinctKeys,
           TablesSurvive, TablesRead;
      assert ts[0] in ts;
      if !IsWord(ts[0].0) {
        NameLost(s, c, ts, acc);
      } else if |ts| == 1 {
        LastTableExactly(s, c, ts, acc);
      } else if WordyRows(ts[0].1) {
        TableAhead(s, c, ts);
        FirstTableSurvives(ts);
        FirstTableRead(s, c, ts, acc);
        RestListed(ts, acc, CollectRows(ts[0].1));
        TablesExactly(s, ReadTable(s, c).value.1, ts[1..], acc[ts[0].0 := CollectRows(ts[0].1)]);
      } else {
        TableLost(s, c, ts, acc);
        FirstTableSurvives(ts);
      }
    }
  }


  // ---- the whole snapshot -------------------------------------------------------------

  /** The snapshot text of an image, its maps iterated as `l` says. */
  function Text(l: Listing): string {
    Joined(ImageFields(l))
  }

  /** A stream still good after the schemas has read words only. */
  lemma {:induction false} SchemasRead(s: string, c: Cursor, n: nat, acc: map<string, Schema>)
    requires InText(s, c) && ReadSchemas(s, c, n, acc).Some? && !ReadSchemas(s, c, n, acc).value.1.failed
    requires WordySchemas(acc)
    ensures WordySchemas(ReadSchemas(s, c, n, acc).value.0)
    decreases n
  {
    hide ReadSchema, IsWord, WordySchema;
    if n > 0 {
      var p := ReadSchema(s, c).value;
      SchemasRead(s, p.1, n - 1, acc[p.0.0 := p.0.1]);
    }
  }

  lemma {:induction false} StartAhead(fs: seq<Field>)
    ensures Ahead(Joined(fs), Cursor(0, false), fs)
  {
    var s := Joined(fs);
    assert s[|s| - |s|..] == s;
    assert |s[0..0]| == 0;
  }

  /** Schemas of words are read whole: what remains are the tables. */
  lemma LoadSchemas(l: Listing) returns (c: Cursor)
    requires IsListing(l) && forall p <- l.schemas :: WordyPair(p)
    ensures InText(Text(l), c) && Ahead(Text(l), c, TablesFields(l.tables))
    ensures var tables := ReadTables(Text(l), c, |l.tables|, map[]);
            Load(Text(l)) == if tables.None? then None else Some(Image(Collect(l.schemas, map[]), tables.value.0))
  {
    var s, tail := Text(l), [Line(Decimal(|l.tables|))] + TablesFields(l.tables);
    StartAhead(ImageFields(l));
    hide Text, Ahead, Joined, ReadCount, ReadSchemas, ReadTables, SchemasFields, TablesFields, Decimal, Collect, WordyPair,
         RowsListed, DistinctKeys;
    var start := Cursor(0, false);
    CountAhead(s, start, |l.schemas|, SchemasFields(l.schemas) + tail);
    var c1 := ReadCount(s, start).value.1;
    SchemasAhead(s, c1, l.schemas, map[], tail);
    var c2 := ReadSchemas(s, c1, |l.schemas|, map[]).value.1;
    CountAhead(s, c2, |l.tables|, TablesFields(l.tables));
    c := ReadCount(s, c2).value.1;
  }

  lemma LoadTables(l: Listing, c: Cursor)
    requires IsListing(l) && InText(Text(l), c) && Ahead(Text(l), c, TablesFields(l.tables))
    requires var tables := ReadTables(Text(l), c, |l.tables|, map[]);
             Load(Text(l)) == if tables.None? then None else Some(Image(Collect(l.schemas, map[]), tables.value.0))
    ensures Load(Text(l)) == Some(ImageOf(l)) <==> TablesSurvive(l.tables)
  {
    hide Text, Load, Ahead, ReadTables, TablesFields, Collect, CollectTables, TablesSurvive, RowsListed, DistinctKeys;
    TablesExactly(Text(l), c, l.tables, map[]);
  }

  /** The table count is read after the schemas, so they were words. */
  lemma SchemasLost(l: Listing)
    requires IsListing(l) && !forall p <- l.schemas :: WordyPair(p)
    ensures Load(Text(l)) != Some(ImageOf(l))
  {
    hide Text, ReadCount, ReadSchemas, ReadTables, Collect, CollectTables, WordyPair, WordySchema, DistinctKeys, IsWord;
    SchemasWordy(l.schemas);
    var s := Text(l);
    if Load(s).Some? {
      var count := ReadCount(s, Cursor(0, false)).value;
      SchemasRead(s, count.1, count.0, map[]);
    }
  }

  /**
   Whatever order the maps are iterated in, loading the printed text gives the image back if and only if every string
   is a non-empty word, except that the row printed last may hold empty strings where moving them to its end makes
   no difference.
   */
  lemma SnapshotRoundTrip(l: Listing)
    requires IsListing(l)
    ensures Load(Text(l)) == Some(ImageOf(l)) <==> Survives(l)
  {
    hide Load, Text, ImageOf, IsListing, WordyPair, TablesSurvive;
    if forall p <- l.schemas :: WordyPair(p) {
      var c := LoadSchemas(l);
      LoadTables(l, c);
    } else {
      SchemasLost(l);
    }
  }

  /** Images of words survive in every order. */
  lemma WordySurvives(l: Listing)
    requires IsListing(l) && Wordy(ImageOf(l))
    ensures Survives(l) && Load(Text(l)) == Some(ImageOf(l))
  {
    hide Load, Text, IsWord, Collect, CollectTables, CollectRows, WordyTable, WordySchema, WordyPairs, LastRowSurvives,
         DistinctKeys, RowsListed;
    var ts := l.tables;
    SchemasWordy(l.schemas);
    TablesCollected(ts, map[]);
    forall t <- ts
      ensures IsWord(t.0) && WordyRows(t.1)
    {
      var i :| 0 <= i < |ts| && ts[i] == t;
      TableWordy(t.1);
    }
    if ts != [] && ts[|ts| - 1].1 != [] {
      var rows := ts[|ts| - 1].1;
      assert ts[|ts| - 1] in ts && rows[|rows| - 1] in rows;
      WordyRowSurvives(rows[|rows| - 1]);
    }
    SnapshotRoundTrip(l);
  }

  /** A column left with its initial, empty default value never survives. */
  lemma EmptyDefaultIsLost(l: Listing, i: nat, j: nat)
    requires IsListing(l) && i < |l.schemas| && j < |l.schemas[i].1| && l.schemas[i].1[j].defaultValue == ""
    ensures Load(Text(l)) != Some(ImageOf(l))
  {
    hide Load, Text, ImageOf, IsListing, TablesSurvive;
    SnapshotRoundTrip(l);
    assert !WordyColumn(l.schemas[i].1[j]);
    assert !WordyPair(l.schemas[i]);
  }

  /** One table of no columns with one row. */
  function OneRow(name: string, r: Pairs): Listing {
    Listing([(name, [])], [(name, [r])])
  }

  lemma {:induction false} OneRowExactly(name: string, r: Pairs)
    requires IsWord(name) && DistinctKeys(r) && |r| < SIZE_LIMIT
    ensures var l := OneRow(name, r); IsListing(l) && (Load(Text(l)) == Some(ImageOf(l)) <==> LastRowSurvives(r))
  {
    hide IsWord, Load, Text, ImageOf, LastRowSurvives;
    SnapshotRoundTrip(OneRow(name, r));
  }

  function Kept(w: string): seq<string> {
    if w == "" then [] else [w]
  }

  lemma {:induction false} PairKept(key: string, value: string, rest: Pairs)
    ensures NonEmpty(PairsFields([(key, value)] + rest)) == Kept(key) + Kept(value) + NonEmpty(PairsFields(rest))
  {
    var r, tail := [(key, value)] + rest, PairsFields(rest);
    assert r[0] == (key, value) && r[1..] == rest;
    assert PairsFields(r) == [Line(key)] + ([Line(value)] + tail);
    assert PairsFields(r)[1..] == [Line(value)] + tail && PairsFields(r)[1..][1..] == tail;
  }

  lemma {:induction false} TwoCollected(p: (string, string), q: (string, string))
    ensures Collect([p, q], map[]) == map[p.0 := p.1][q.0 := q.1]
  {
    var one := map[p.0 := p.1];
    assert [p, q][1..] == [q] && map[][p.0 := p.1] == one;
    assert Collect([], one[q.0 := q.1]) == one[q.0 := q.1];
    assert [q][1..] == [];
    assert Collect([q], one) == one[q.0 := q.1];
  }

  lemma OneTaken(key: string)
    ensures PairsFrom([key], 1) == [(key, "")] && PairsFrom([], 1) == [("", "")]
  {
    assert PairsFrom([], 0) == [];
  }

  /** The words kept, and the row they make up. */
  lemma {:induction false} RowDecides(name: string, r: Pairs, ws: seq<string>, moved: Pairs)
    requires IsWord(name) && DistinctKeys(r) && |r| < SIZE_LIMIT && LoosePairs(r)
    requires NonEmpty(PairsFields(r)) == ws && PairsFrom(ws, |r|) == moved
    ensures var l := OneRow(name, r); Load(Text(l)) == Some(ImageOf(l)) <==> Collect(moved, map[]) == Collect(r, map[])
  {
    hide IsWord, Load, Text, ImageOf, OneRow, NonEmpty, PairsFrom, PairsFields, Collect, LoosePairs;
    OneRowExactly(name, r);
  }

  /** The row printed last comes back with an empty value at its end. */
  lemma TrailingEmptyIsRestored(name: string, key: string)
    requires IsWord(name) && IsWord(key)
    ensures var l := OneRow(name, [(key, "")]); Load(Text(l)) == Some(ImageOf(l))
  {
    assert key != "";
    hide IsWord, Load, Text, ImageOf, OneRow, NonEmpty, PairsFrom, PairsFields, Collect;
    PairKept(key, "", []);
    NothingKept();
    assert [(key, "")] == [(key, "")] + [];
    OneTaken(key);
    RowDecides(name, [(key, "")], [key], [(key, "")]);
  }

  lemma EmptyPairMoves(key: string)
    requires key != ""
    ensures NonEmpty(PairsFields([("", ""), (key, key)])) == [key, key]
    ensures PairsFrom([key, key], 2) == [(key, key), ("", "")]
  {
    hide NonEmpty, PairsFrom, PairsFields;
    assert [("", ""), (key, key)] == [("", "")] + [(key, key)] && [(key, key)] == [(key, key)] + [];
    PairKept("", "", [(key, key)]);
    PairKept(key, key, []);
    NothingKept();
    assert [key, key] == [key] + ([key] + []);
    TwoTaken(key, key, [], 2);
    OneTaken(key);
  }

  /** A pair of empty strings comes back even when it is printed first. */
  lemma EmptyPairIsRestored(name: string, key: string)
    requires IsWord(name) && IsWord(key)
    ensures var l := OneRow(name, [("", ""), (key, key)]); Load(Text(l)) == Some(ImageOf(l))
  {
    assert key != "";
    hide IsWord, Load, Text, ImageOf, OneRow, NonEmpty, PairsFrom, PairsFields, Collect;
    EmptyPairMoves(key);
    TwoCollected(("", ""), (key, key));
    TwoCollected((key, key), ("", ""));
    RowDecides(name, [("", ""), (key, key)], [key, key], [(key, key), ("", "")]);
  }

  lemma EmptyValueMoves(key: string, other: string)
    requires key != "" && other != ""
    ensures NonEmpty(PairsFields([(key, ""), (other, key)])) == [key, other, key]
    ensures PairsFrom([key, other, key], 2) == [(key, other), (key, "")]
  {
    hide NonEmpty, PairsFrom, PairsFields;
    assert [(key, ""), (other, key)] == [(key, "")] + [(other, key)] && [(other, key)] == [(other, key)] + [];
    PairKept(key, "", [(other, key)]);
    PairKept(other, key, []);
    NothingKept();
    assert [key, other, key] == [key] + ([other] + [key]);
    TwoTaken(key, other, [key], 2);
    OneTaken(key);
  }

  /** With a pair behind it an empty value is lost: the strings move up. */
  lemma EmptyBeforeAWordIsLost(name: string, key: string, other: string)
    requires IsWord(name) && IsWord(key) && IsWord(other) && key != other
    ensures var l := OneRow(name, [(key, ""), (other, key)]); Load(Text(l)) != Some(ImageOf(l))
  {
    assert key != "" && other != "";
    hide IsWord, Load, Text, ImageOf, OneRow, NonEmpty, PairsFrom, PairsFields, Collect;
    EmptyValueMoves(key, other);
    TwoCollected((key, ""), (other, key));
    TwoCollected((key, other), (key, ""));
    assert other in Collect([(key, ""), (other, key)], map[]) && other !in Collect([(key, other), (key, "")], map[]);
    RowDecides(name, [(key, ""), (other, key)], [key, other, key], [(key, other), (key, "")]);
  }

  // ---- numbers that were not printed here ---------------------------------------------

  /** What a count reads as: a numeral, a negative one wrapping round, one too large, and something else. */
  lemma ForeignCounts(w: string, other: string)
    requires w != "" && AllDigits(w)
    requires other != "" && !IsSpace(other[0]) && !IsDigit(other[0]) && other[0] != '-' && other[0] != '+'
    ensures var n, start, max := Number(w), Cursor(0, false), SIZE_LIMIT - 1;
            && ReadCount(w, start) == Some(if n <= max then (n, Cursor(|w|, false)) else (max, Cursor(|w|, true)))
            && (0 < n <= max ==> ReadCount("-" + w, start) == Some((SIZE_LIMIT - n, Cursor(|w| + 1, false))))
            && ReadCount(other, start) == Some((0, Cursor(0, true)))
    ensures ReadCount("", Cursor(0, false)) == None && ReadCount(w, Cursor(0, true)) == None
  {
    hide Number;
    WholeNumeral(w);
  }

  lemma WholeNumeral(w: string)
    requires w != "" && AllDigits(w)
    ensures Span(w, 0, IsSpace) == 0 && ReadNumeral(w, 0) == (false, w, |w|)
    ensures Span("-" + w, 0, IsSpace) == 0 && ReadNumeral("-" + w, 0) == (true, w, |w| + 1)
  {
    var s := "-" + w;
    assert forall k :: 1 <= k < |s| ==> s[k] == w[k - 1];
    assert Span(w, 0, IsDigit) == |w| && Span(s, 1, IsDigit) == |s|;
    assert w[0..|w|] == w && s[1..|s|] == w;
  }

  /** A flag is 0 or 1; any other numeral counts as true and fails the stream. */
  lemma ForeignFlags(w: string)
    requires w != "" && AllDigits(w)
    ensures ReadFlag(w, Cursor(0, false)) == (Number(w) != 0, Cursor(|w|, Number(w) > 1))
    ensures ReadFlag("", Cursor(0, false)) == (false, Cursor(0, true))
    ensures ReadFlag(w, Cursor(0, true)) == (false, Cursor(0, true))
  {
    hide Number;
    WholeNumeral(w);
  }
}
