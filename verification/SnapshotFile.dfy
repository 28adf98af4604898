/** SyncToFile and LoadFromFile: a snapshot printed, compressed, and read back. */
module SnapshotFile {
  import opened Ordering
  import opened Characters
  import opened DatabaseImage
  import opened Snapshot
  import opened Lz4Format
  import Lz4

  // ---- text as bytes ------------------------------------------------------------------

  function BytesOf(s: string): (b: seq<byte>)
    ensures |b| == |s|
  {
    seq(|s|, i requires 0 <= i < |s| => s[i] as int % 256)
  }

  function CharsOf(b: seq<byte>): (s: string)
    ensures |s| == |b|
  {
    seq(|b|, i requires 0 <= i < |b| => b[i] as char)
  }

  /** Characters of one byte, none of them zero: what a C string can carry. */
  predicate IsCText(s: string) {
    forall k :: 0 <= k < |s| ==> 0 < s[k] as int < 256
  }

  /** CompressData hands the text on as a C string. */
  function Packed(s: string): seq<byte> {
    Compressed(CString(BytesOf(s)))
  }

  function Unpacked(file: seq<byte>): string {
    CharsOf(Decode(file, 0, []))
  }

  lemma PackRoundTrip(s: string)
    requires IsCText(s) && |s| <= MAX_SLIDING_WINDOW_SIZE
    ensures Unpacked(Packed(s)) == s
  {
    hide Decode, Compressed;
    var b := BytesOf(s);
    forall x <- b
      ensures x != 0
    {
      var k :| 0 <= k < |b| && b[k] == x;
      assert 0 < s[k] as int < 256;
    }
    CompressDataRoundTrip(b);
    assert CharsOf(b) == s;
  }

  /** A zero character ends what is packed. */
  lemma {:induction false} ZeroCutsOff(s: string, rest: string)
    ensures Packed(s + [0 as char] + rest) == Packed(s)
  {
    hide Compressed;
    var a, b := BytesOf(s), BytesOf(s + [0 as char] + rest);
    assert b == a + ([0] + BytesOf(rest));
    CutAtZero(a, [0] + BytesOf(rest));
  }

  lemma {:induction false} CutAtZero(a: seq<byte>, rest: seq<byte>)
    requires rest != [] && rest[0] == 0
    ensures CString(a + rest) == CString(a)
  {
    if a != [] && a[0] != 0 {
      assert (a + rest)[1..] == a[1..] + rest;
      CutAtZero(a[1..], rest);
    }
  }

  /** A snapshot of up to 64 KiB comes back from its compressed form exactly when it comes back from its text. */
  lemma FileRoundTrip(l: Listing)
    requires IsListing(l) && IsCText(Text(l)) && |Text(l)| <= MAX_SLIDING_WINDOW_SIZE
    ensures Load(Unpacked(Packed(Text(l)))) == Some(ImageOf(l)) <==> Survives(l)
  {
    hide Load, Text, Unpacked, Packed, ImageOf, Survives;
    PackRoundTrip(Text(l));
    SnapshotRoundTrip(l);
  }

  // ---- printing -----------------------------------------------------------------------

  lemma {:induction false} JoinedAppend(a: seq<Field>, b: seq<Field>)
    ensures Joined(a + b) == Joined(a) + Joined(b)
  {
    if a == [] {
      assert a + b == b;
    } else {
      assert (a + b)[1..] == a[1..] + b;
      JoinedAppend(a[1..], b);
    }
  }

  lemma JoinedOne(f: Field)
    ensures Joined([f]) == f.word + [End(f)]
  {
    assert Joined([f]) == f.word + [End(f)] + Joined([]);
  }

  /** An output string stream. */
  class OutputStream {
    var text: string

    constructor ()
      ensures text == ""
    {
      text := "";
    }

    method Put(f: Field)
      modifies this
      ensures text == old(text) + Joined([f])
    {
      JoinedOne(f);
      text := text + f.word + [End(f)];
    }

    method PutColumn(c: Column)
      modifies this
      ensures text == old(text) + Joined(ColumnFields(c))
    {
      hide Joined;
      var fs := ColumnFields(c);
      Put(fs[0]);
      Put(fs[1]);
      Put(fs[2]);
      Put(fs[3]);
      Put(fs[4]);
      ColumnText(c);
    }

    method PutColumns(cs: Schema)
      modifies this
      ensures text == old(text) + Joined(ColumnsFields(cs))
    {
      hide ColumnFields, Joined;
      var i := 0;
      while i < |cs|
        invariant i <= |cs| && text + Joined(ColumnsFields(cs[i..])) == old(text) + Joined(ColumnsFields(cs))
      {
        JoinedAppend(ColumnFields(cs[i]), ColumnsFields(cs[i + 1..]));
        assert cs[i..][1..] == cs[i + 1..];
        PutColumn(cs[i]);
        i := i + 1;
      }
      Ended();
      assert cs[i..] == [];
    }

    method PutSchemas(ps: Schemas)
      modifies this
      ensures text == old(text) + Joined(SchemasFields(ps))
    {
      hide ColumnsFields, Joined, Decimal;
      var i := 0;
      while i < |ps|
        invariant i <= |ps| && text + Joined(SchemasFields(ps[i..])) == old(text) + Joined(SchemasFields(ps))
      {
        var p := ps[i];
        assert ps[i..][1..] == ps[i + 1..];
        JoinedThree(Line(p.0), Line(Decimal(|p.1|)), ColumnsFields(p.1), SchemasFields(ps[i + 1..]));
        Put(Line(p.0));
        Put(Line(Decimal(|p.1|)));
        PutColumns(p.1);
        i := i + 1;
      }
      Ended();
      assert ps[i..] == [];
    }

    method PutPairs(r: Pairs)
      modifies this
      ensures text == old(text) + Joined(PairsFields(r))
    {
      hide Joined;
      var i := 0;
      while i < |r|
        invariant i <= |r| && text + Joined(PairsFields(r[i..])) == old(text) + Joined(PairsFields(r))
      {
        assert r[i..][1..] == r[i + 1..];
        JoinedThree(Line(r[i].0), Line(r[i].1), [], PairsFields(r[i + 1..]));
        assert [] + PairsFields(r[i + 1..]) == PairsFields(r[i + 1..]);
        Ended();
        Put(Line(r[i].0));
        Put(Line(r[i].1));
        i := i + 1;
      }
      Ended();
      assert r[i..] == [];
    }

    method PutRows(rows: Rows)
      modifies this
      ensures text == old(text) + Joined(RowsFields(rows))
    {
      hide Joined, PairsFields, Decimal;
      var i := 0;
      while i < |rows|
        invariant i <= |rows| && text + Joined(RowsFields(rows[i..])) == old(text) + Joined(RowsFields(rows))
      {
        assert rows[i..][1..] == rows[i + 1..];
        JoinedTwo(Line(Decimal(|rows[i]|)), PairsFields(rows[i]), RowsFields(rows[i + 1..]));
        Put(Line(Decimal(|rows[i]|)));
        PutPairs(rows[i]);
        i := i + 1;
      }
      Ended();
      assert rows[i..] == [];
    }

    method PutTables(ps: Tables)
      modifies this
      ensures text == old(text) + Joined(TablesFields(ps))
    {
      hide RowsFields, Joined, Decimal;
      var i := 0;
      while i < |ps|
        invariant i <= |ps| && text + Joined(TablesFields(ps[i..])) == old(text) + Joined(TablesFields(ps))
      {
        var p := ps[i];
        assert ps[i..][1..] == ps[i + 1..];
        JoinedThree(Line(p.0), Line(Decimal(|p.1|)), RowsFields(p.1), TablesFields(ps[i + 1..]));
        Put(Line(p.0));
        Put(Line(Decimal(|p.1|)));
        PutRows(p.1);
        i := i + 1;
      }
      Ended();
      assert ps[i..] == [];
    }
  }

  lemma Ended()
    ensures Joined([]) == "" && ColumnsFields([]) == [] && PairsFields([]) == []
  {
  }

  lemma ColumnText(c: Column)
    ensures var fs := ColumnFields(c);
            Joined(fs) == Joined([fs[0]]) + Joined([fs[1]]) + Joined([fs[2]]) + Joined([fs[3]]) + Joined([fs[4]])
  {
    hide Joined;
    var fs := ColumnFields(c);
    assert fs == [fs[0], fs[1]] + ([fs[2]] + ([fs[3]] + [fs[4]]));
    JoinedThree(fs[0], fs[1], [fs[2]], [fs[3]] + [fs[4]]);
    JoinedAppend([fs[3]], [fs[4]]);
  }

  lemma JoinedTwo(f: Field, body: seq<Field>, rest: seq<Field>)
    ensures Joined([f] + (body + rest)) == Joined([f]) + Joined(body) + Joined(rest)
  {
    hide Joined;
    JoinedAppend([f], body + rest);
    JoinedAppend(body, rest);
  }

  lemma TextInParts(l: Listing)
    ensures Text(l) == Joined([Line(Decimal(|l.schemas|))]) + Joined(SchemasFields(l.schemas))
                       + Joined([Line(Decimal(|l.tables|))]) + Joined(TablesFields(l.tables))
  {
    hide Joined, SchemasFields, TablesFields, Decimal;
    JoinedTwo(Line(Decimal(|l.schemas|)), SchemasFields(l.schemas), [Line(Decimal(|l.tables|))] + TablesFields(l.tables));
    JoinedAppend([Line(Decimal(|l.tables|))], TablesFields(l.tables));
  }

  lemma JoinedThree(f: Field, g: Field, body: seq<Field>, rest: seq<Field>)
    ensures Joined([f, g] + (body + rest)) == Joined([f]) + Joined([g]) + Joined(body) + Joined(rest)
  {
    hide Joined;
    assert [f, g] == [f] + [g];
    JoinedAppend([f, g], body + rest);
    JoinedAppend([f], [g]);
    JoinedAppend(body, rest);
  }

  // ---- the printed form, character by character ---------------------------------------

  /** A column is one line: name, the three flags as digits, default value. */
  lemma ColumnLine(c: Column)
    ensures Joined(ColumnFields(c))
         == (c.name + " ") + (Flag(c.isPrimaryKey) + " ") + (Flag(c.isUnique) + " ") + (Flag(c.isNotNull) + " ")
            + (c.defaultValue + "\n")
    ensures Flag(true) == "1" && Flag(false) == "0"
  {
    hide Joined;
    var fs := ColumnFields(c);
    ColumnText(c);
    JoinedOne(fs[0]);
    JoinedOne(fs[1]);
    JoinedOne(fs[2]);
    JoinedOne(fs[3]);
    JoinedOne(fs[4]);
  }

  /** Counts are printed in decimal. */
  lemma CountsLookLike()
    ensures Decimal(0) == "0" && Decimal(1024) == "1024"
  {
    assert Decimal(1) == "1" && Decimal(10) == "10" && Decimal(102) == "102";
  }

  /** A snapshot of one table, with one column and one row of one pair. */
  lemma {:induction false} PrintedForm(schema: string, c: Column, table: string, key: string, value: string)
    ensures Text(Listing([(schema, [c])], [(table, [[(key, value)]])]))
         == "1\n" + ((schema + "\n") + "1\n" + Joined(ColumnFields(c)))
            + "1\n" + ((table + "\n") + "1\n" + ("1\n" + (key + "\n") + (value + "\n")))
  {
    var l := Listing([(schema, [c])], [(table, [[(key, value)]])]);
    assert Decimal(1) == "1";
    OneSchema(schema, c);
    OneTable(table, key, value);
    hide Joined, SchemasFields, TablesFields, Decimal;
    TextInParts(l);
    JoinedOne(Line("1"));
  }

  lemma {:induction false} OneSchema(schema: string, c: Column)
    ensures Joined(SchemasFields([(schema, [c])])) == (schema + "\n") + "1\n" + Joined(ColumnFields(c))
  {
    assert Decimal(1) == "1";
    OneColumn(c);
    assert SchemasFields([(schema, [c])][1..]) == [];
    assert SchemasFields([(schema, [c])]) == [Line(schema), Line("1")] + (ColumnFields(c) + []);
    hide Joined, SchemasFields, ColumnFields, Decimal;
    Ended();
    JoinedThree(Line(schema), Line("1"), ColumnFields(c), []);
    JoinedOne(Line(schema));
    JoinedOne(Line("1"));
  }

  lemma {:induction false} OneRow(key: string, value: string)
    ensures Joined(RowsFields([[(key, value)]])) == "1\n" + (key + "\n") + (value + "\n")
  {
    assert Decimal(1) == "1";
    OnePair(key, value);
    assert RowsFields([[(key, value)]][1..]) == [];
    assert RowsFields([[(key, value)]]) == [Line("1")] + (PairsFields([(key, value)]) + []);
    hide Joined, RowsFields, PairsFields, Decimal;
    Ended();
    JoinedTwo(Line("1"), PairsFields([(key, value)]), []);
    JoinedOne(Line("1"));
  }

  lemma {:induction false} OneTable(table: string, key: string, value: string)
    ensures Joined(TablesFields([(table, [[(key, value)]])]))
         == (table + "\n") + "1\n" + ("1\n" + (key + "\n") + (value + "\n"))
  {
    assert Decimal(1) == "1";
    OneRow(key, value);
    assert TablesFields([(table, [[(key, value)]])][1..]) == [];
    assert TablesFields([(table, [[(key, value)]])]) == [Line(table), Line("1")] + (RowsFields([[(key, value)]]) + []);
    hide Joined, TablesFields, RowsFields, Decimal;
    Ended();
    JoinedThree(Line(table), Line("1"), RowsFields([[(key, value)]]), []);
    JoinedOne(Line(table));
    JoinedOne(Line("1"));
  }

  lemma {:induction false} OneColumn(c: Column)
    ensures ColumnsFields([c]) == ColumnFields(c)
  {
    assert ColumnsFields([c][1..]) == [];
  }

  lemma {:induction false} OnePair(key: string, value: string)
    ensures Joined(PairsFields([(key, value)])) == (key + "\n") + (value + "\n")
  {
    assert PairsFields([(key, value)][1..]) == [];
    assert PairsFields([(key, value)]) == [Line(key)] + [Line(value)];
    hide Joined, PairsFields;
    JoinedAppend([Line(key)], [Line(value)]);
    JoinedOne(Line(key));
    JoinedOne(Line(value));
  }

  // ---- reading ------------------------------------------------------------------------

  /** A reader's answer together with the stream behind it. */
  function At<T>(r: Option<T>, c: Cursor): Option<(T, Cursor)> {
    if r.Some? then Some((r.value, c)) else None
  }

  /** An input string stream. A reader answers None when it met an indeterminate counter; nothing more is claimed. */
  class InputStream {
    const text: string
    var position: nat
    var failed: bool

    ghost predicate Valid()
      reads this
    {
      position <= |text|
    }

    ghost function Here(): (c: Cursor)
      reads this
      requires Valid()
      ensures InText(text, c)
    {
      Cursor(position, failed)
    }

    constructor (text: string)
      ensures Valid() && this.text == text && Here() == Cursor(0, false)
    {
      this.text, position, failed := text, 0, false;
    }

    method Skip(p: char -> bool)
      requires Valid()
      modifies this`position
      ensures Valid() && position == Span(text, old(position), p)
    {
      while position < |text| && p(text[position])
        invariant Valid() && Span(text, position, p) == Span(text, old(position), p)
      {
        position := position + 1;
      }
    }

    method GetWord() returns (w: string)
      requires Valid()
      modifies this
      ensures Valid() && ReadWord(text, old(Here())) == (w, Here())
    {
      hide IsSpace;
      if failed { return ""; }
      Skip(IsSpace);
      failed := position == |text|;
      if failed { return ""; }
      var start := position;
      Skip(NotSpace);
      w := text[start..position];
    }

    method GetNumeral() returns (negative: bool, digits: string)
      requires Valid() && position < |text|
      modifies this`position
      ensures Valid() && ReadNumeral(text, old(position)) == (negative, digits, position)
    {
      negative := text[position] == '-';
      if negative || text[position] == '+' { position := position + 1; }
      var start := position;
      Skip(IsDigit);
      digits := text[start..position];
    }

    method GetCount() returns (r: Option<nat>)
      requires Valid()
      modifies this
      ensures Valid() && ReadCount(text, old(Here())) == At(r, Here())
    {
      hide IsSpace, ReadNumeral;
      if failed { return None; }
      Skip(IsSpace);
      if position == |text| { return None; }
      var negative, digits := GetNumeral();
      assert ReadNumeral(text, Span(text, old(position), IsSpace)).1 == digits;
      var n := Number(digits);
      failed := digits == "" || n >= SIZE_LIMIT;
      r := Some(if digits == "" then 0 else if failed then SIZE_LIMIT - 1 else if negative && n > 0 then SIZE_LIMIT - n else n);
    }

    method GetFlag() returns (b: bool)
      requires Valid()
      modifies this
      ensures Valid() && ReadFlag(text, old(Here())) == (b, Here())
    {
      hide IsSpace, ReadNumeral;
      if failed { return false; }
      Skip(IsSpace);
      failed := position == |text|;
      if failed { return false; }
      var negative, digits := GetNumeral();
      assert ReadNumeral(text, Span(text, old(position), IsSpace)).1 == digits;
      var n := Number(digits);
      failed := digits == "" || n > 1 || (negative && n == 1);
      b := n != 0;
    }

    method GetColumn() returns (column: Column)
      requires Valid()
      modifies this
      ensures Valid() && ReadColumn(text, old(Here())) == (column, Here())
    {
      hide ReadWord, ReadFlag;
      var name := GetWord();
      var primary := GetFlag();
      var unique := GetFlag();
      var notNull := GetFlag();
      var default := GetWord();
      column := Column(name, primary, unique, notNull, default);
    }

    method GetColumns(count: nat) returns (columns: Schema)
      requires Valid()
      modifies this
      ensures Valid() && ReadColumns(text, old(Here()), count, []) == (columns, Here())
    {
      hide ReadColumn, WordyColumn;
      var j := 0;
      columns := [];
      while j < count
        invariant Valid() && j <= count
        invariant ReadColumns(text, Here(), count - j, columns) == ReadColumns(text, old(Here()), count, [])
      {
        var column := GetColumn();
        columns, j := columns + [column], j + 1;
      }
    }

    method GetSchemas(count: nat) returns (r: Option<map<string, Schema>>)
      requires Valid()
      modifies this
      ensures Valid() && ReadSchemas(text, old(Here()), count, map[]) == At(r, Here())
    {
      hide ReadColumns, ReadWord, ReadCount, WordySchema, IsWord;
      var schemas: map<string, Schema>, i := map[], 0;
      while i < count
        invariant Valid() && i <= count
        invariant ReadSchemas(text, Here(), count - i, schemas) == ReadSchemas(text, old(Here()), count, map[])
      {
        var name := GetWord();
        var columnCount := GetCount();
        if columnCount.None? { return None; }
        var columns := GetColumns(columnCount.value);
        schemas, i := schemas[name := columns], i + 1;
      }
      r := Some(schemas);
    }

    method GetRow(count: nat) returns (row: Row)
      requires Valid()
      modifies this
      ensures Valid() && ReadRow(text, old(Here()), count, map[]) == (row, Here())
    {
      hide ReadWord, IsWord, WordyRow, LooseRow;
      var k := 0;
      row := map[];
      while k < count
        invariant Valid() && k <= count
        invariant ReadRow(text, Here(), count - k, row) == ReadRow(text, old(Here()), count, map[])
      {
        var key := GetWord();
        var value := GetWord();
        row, k := row[key := value], k + 1;
      }
    }

    method GetRows(count: nat) returns (r: Option<Table>)
      requires Valid()
      modifies this
      ensures Valid() && ReadRows(text, old(Here()), count, []) == At(r, Here())
    {
      hide ReadRow, ReadCount, WordyRow;
      var rows: Table, j := [], 0;
      while j < count
        invariant Valid() && j <= count
        invariant ReadRows(text, Here(), count - j, rows) == ReadRows(text, old(Here()), count, [])
      {
        var itemCount := GetCount();
        if itemCount.None? { return None; }
        var row := GetRow(itemCount.value);
        rows, j := rows + [row], j + 1;
      }
      r := Some(rows);
    }

    method GetTables(count: nat) returns (r: Option<map<string, Table>>)
      requires Valid()
      modifies this
      ensures Valid() && ReadTables(text, old(Here()), count, map[]) == At(r, Here())
    {
      hide ReadRows, ReadWord, ReadCount, WordyTable, IsWord;
      var tables: map<string, Table>, i := map[], 0;
      while i < count
        invariant Valid() && i <= count
        invariant ReadTables(text, Here(), count - i, tables) == ReadTables(text, old(Here()), count, map[])
      {
        var name := GetWord();
        var rowCount := GetCount();
        if rowCount.None? { return None; }
        var rows := GetRows(rowCount.value);
        if rows.None? { return None; }
        tables, i := tables[name := rows.value], i + 1;
      }
      r := Some(tables);
    }
  }

  // ---- the two operations -------------------------------------------------------------

  class Database {
    var tableSchemas: map<string, Schema>
    var tables: map<string, Table>
    var file: seq<byte>

    ghost function Contents(): Image
      reads this
    {
      Image(tableSchemas, tables)
    }

    constructor (file: seq<byte>)
      ensures Contents() == EMPTY && this.file == file
    {
      tableSchemas, tables, this.file := map[], map[], file;
    }

    /** `order` is how the hash maps happen to be iterated; false is the exception for a file that does not open. */
    method SyncToFile(order: Listing, opens: bool) returns (ok: bool)
      requires IsListing(order) && ImageOf(order) == Contents()
      modifies this`file
      ensures ok == opens && file == if ok then Packed(Text(order)) else old(file)
    {
      hide Text, Joined, SchemasFields, TablesFields, Decimal, Collect, CollectTables;
      var stream := new OutputStream();
      stream.Put(Line(Decimal(|order.schemas|)));
      stream.PutSchemas(order.schemas);
      stream.Put(Line(Decimal(|order.tables|)));
      stream.PutTables(order.tables);
      TextInParts(order);
      assert stream.text == Text(order);
      var packed := Lz4.LZ4Compress(CString(BytesOf(stream.text)));
      if !opens { return false; }
      file, ok := packed, true;
    }

    /**
     A file that does not open changes nothing. Otherwise the maps become what the file says and the answer is true,
     however the stream fared; None when a loop bound was indeterminate, of which nothing is claimed.
     */
    method LoadFromFile(contents: Option<seq<byte>>) returns (ok: Option<bool>)
      modifies this`tableSchemas, this`tables
      ensures contents.None? ==> ok == Some(false) && Contents() == old(Contents())
      ensures contents.Some? && Load(Unpacked(contents.value)).Some? ==>
                ok == Some(true) && Some(Contents()) == Load(Unpacked(contents.value))
      ensures contents.Some? && Load(Unpacked(contents.value)).None? ==> ok == None
    {
      hide ReadCount, ReadSchemas, ReadTables;
      if contents.None? { return Some(false); }
      var raw := Lz4.LZ4Decompress(contents.value);
      var stream := new InputStream(CharsOf(raw));
      var schemaCount := stream.GetCount();
      tableSchemas, tables := map[], map[];
      if schemaCount.None? { return None; }
      var schemas := stream.GetSchemas(schemaCount.value);
      if schemas.None? { return None; }
      tableSchemas := schemas.value;
      var tableCount := stream.GetCount();
      if tableCount.None? { return None; }
      var rows := stream.GetTables(tableCount.value);
      if rows.None? { return None; }
      tables := rows.value;
      ok := Some(true);
    }
  }
}
