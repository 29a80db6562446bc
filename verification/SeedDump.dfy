/** Rendering table snapshots as a seed migration, and why the splitter reads it back statement by statement. */
module SeedDump {
  import opened Text
  import opened Outcomes
  import opened SqlSplitter
  import opened SolidText
  import opened Decimals

  const CHUNK_ROWS: nat := 200

  /** A value fetched from the database, by the declared type of its column. */
  datatype Cell =
    | SqlNull
    | Json(text: string)
    | Number(text: string)
    | Flag(value: bool)
    | Timestamp(text: string)
    | Text(text: string)

  datatype Column = Column(name: string, isIdentity: bool)
  datatype Table = Table(name: string, columns: seq<Column>, rows: seq<seq<Cell>>)

  // ---- Literals ----

  function Render(cell: Cell): string {
    match cell
    case SqlNull => "NULL"
    case Json(t) => Quote(t) + "::jsonb"
    case Number(t) => t
    case Flag(b) => if b then "TRUE" else "FALSE"
    case Timestamp(t) => "TIMESTAMP " + Quote(t)
    case Text(t) => Quote(t)
  }

  /** Reading one quoted literal off the front of s: its text and what follows. */
  function ReadLiteral(s: string): Option<(string, string)> {
    if s == "" || s[0] != '\'' then None else ReadQuoted(s[1..])
  }

  function ReadQuoted(s: string): (r: Option<(string, string)>)
    ensures r.Some? ==> |r.value.1| < |s|
    decreases |s|
  {
    if s == "" then None
    else if s[0] != '\'' then
      match ReadQuoted(s[1..]) case None => None case Some(p) => Some(([s[0]] + p.0, p.1))
    else if |s| > 1 && s[1] == '\'' then
      match ReadQuoted(s[2..]) case None => None case Some(p) => Some(("'" + p.0, p.1))
    else Some(("", s[1..]))
  }

  lemma {:induction false} QuotedReadsBack(text: string, rest: string)
    requires rest == "" || rest[0] != '\''
    ensures ReadQuoted(Doubled(text) + ("'" + rest)) == Some((text, rest))
  {
    var s := Doubled(text) + ("'" + rest);
    if text == "" {
      assert s == "'" + rest && s[1..] == rest;
    } else {
      QuotedReadsBack(text[1..], rest);
      var tail := Doubled(text[1..]) + ("'" + rest);
      assert text == [text[0]] + text[1..];
      if text[0] == '\'' {
        assert s[0] == '\'' && s[1] == '\'' && s[2..] == tail;
      } else {
        assert s[0] == text[0] && s[1..] == tail;
      }
    }
  }

  /** Any text survives quoting: the literal read back from the statement is the text that went in. */
  lemma LiteralReadsBack(text: string, rest: string)
    requires rest == "" || rest[0] != '\''
    ensures ReadLiteral(Quote(text) + rest) == Some((text, rest))
  {
    QuotedReadsBack(text, rest);
    var s := Quote(text) + rest;
    assert s[0] == '\'' && s[1..] == Doubled(text) + ("'" + rest);
  }

  // ---- Rows and statements ----

  predicate ValidCell(cell: Cell) {
    cell.Number? ==> NumberText(cell.text)
  }

  lemma RenderedCellIsSolid(cell: Cell)
    requires ValidCell(cell)
    ensures Solid(Render(cell))
  {
    match cell
    case SqlNull => InertTextIsSolid("NULL");
    case Json(t) =>
      QuoteIsSolid(t);
      InertTextIsSolid("::jsonb");
      SolidConcat(Quote(t), "::jsonb");
    case Number(t) => NumberTextIsSolid(t);
    case Flag(b) => InertTextIsSolid(Render(cell));
    case Timestamp(t) =>
      InertTextIsSolid("TIMESTAMP ");
      QuoteIsSolid(t);
      SolidConcat("TIMESTAMP ", Quote(t));
    case Text(t) => QuoteIsSolid(t);
  }

  function Rendered(row: seq<Cell>): seq<string> {
    seq(|row|, i requires 0 <= i < |row| => Render(row[i]))
  }

  function RowText(row: seq<Cell>): string {
    "    (" + (JoinWith(Rendered(row), ", ") + ")")
  }

  function ColumnList(columns: seq<Column>): string {
    JoinWith(seq(|columns|, i requires 0 <= i < |columns| => Ident(columns[i].name)), ", ")
  }

  function RowTexts(rows: seq<seq<Cell>>): seq<string> {
    seq(|rows|, i requires 0 <= i < |rows| => RowText(rows[i]))
  }

  /** One INSERT, without its closing semicolon. */
  function InsertText(name: string, columns: seq<Column>, rows: seq<seq<Cell>>): string {
    "INSERT INTO " + (Ident(name) + (" (" + (ColumnList(columns) + (") VALUES\n"
      + (JoinWith(RowTexts(rows), ",\n") + "\nON CONFLICT DO NOTHING")))))
  }

  /** Names do not end their own quotes; those that enter a dollar-quoted body do not end that. */
  predicate ValidTable(t: Table) {
    && Without(t.name, '"') && Without(t.name, '\n') && ValidIdentities(t.name, t.columns)
    && (forall i :: 0 <= i < |t.columns| ==> Without(t.columns[i].name, '"'))
    && (forall r, i :: 0 <= r < |t.rows| && 0 <= i < |t.rows[r]| ==> ValidCell(t.rows[r][i]))
  }

  predicate ValidIdentities(name: string, columns: seq<Column>) {
    forall i :: 0 <= i < |columns| && columns[i].isIdentity ==> Without(name, '$') && Without(columns[i].name, '$')
  }

  lemma RowTextIsSolid(row: seq<Cell>)
    requires forall i :: 0 <= i < |row| ==> ValidCell(row[i])
    ensures Solid(RowText(row))
  {
    forall i | 0 <= i < |row| ensures Solid(Rendered(row)[i]) {
      RenderedCellIsSolid(row[i]);
    }
    JoinIsSolid(Rendered(row), ", ");
    InertTextIsSolid(")");
    InertTextIsSolid("    (");
    SolidConcat(JoinWith(Rendered(row), ", "), ")");
    SolidConcat("    (", JoinWith(Rendered(row), ", ") + ")");
  }

  lemma ColumnListIsSolid(columns: seq<Column>)
    requires forall i :: 0 <= i < |columns| ==> Without(columns[i].name, '"')
    ensures Solid(ColumnList(columns))
  {
    var names := seq(|columns|, i requires 0 <= i < |columns| => Ident(columns[i].name));
    forall i | 0 <= i < |names| ensures Solid(names[i]) {
      IdentIsSolid(columns[i].name);
    }
    JoinIsSolid(names, ", ");
  }

  lemma InsertIsSolid(name: string, columns: seq<Column>, rows: seq<seq<Cell>>)
    requires ValidTable(Table(name, columns, rows))
    ensures Solid(InsertText(name, columns, rows))
  {
    forall r | 0 <= r < |rows| ensures Solid(RowTexts(rows)[r]) {
      RowTextIsSolid(rows[r]);
    }
    JoinIsSolid(RowTexts(rows), ",\n");
    var values := JoinWith(RowTexts(rows), ",\n");
    InertTextIsSolid("\nON CONFLICT DO NOTHING");
    SolidConcat(values, "\nON CONFLICT DO NOTHING");
    var s1 := values + "\nON CONFLICT DO NOTHING";
    InertTextIsSolid(") VALUES\n");
    SolidConcat(") VALUES\n", s1);
    ColumnListIsSolid(columns);
    SolidConcat(ColumnList(columns), ") VALUES\n" + s1);
    InertTextIsSolid(" (");
    SolidConcat(" (", ColumnList(columns) + (") VALUES\n" + s1));
    IdentIsSolid(name);
    SolidConcat(Ident(name), " (" + (ColumnList(columns) + (") VALUES\n" + s1)));
    InertTextIsSolid("INSERT INTO ");
    SolidConcat("INSERT INTO ", Ident(name) + (" (" + (ColumnList(columns) + (") VALUES\n" + s1))));
  }

  lemma InsertIsTrimmed(name: string, columns: seq<Column>, rows: seq<seq<Cell>>)
    ensures Trimmed(InsertText(name, columns, rows))
  {
    var st := InsertText(name, columns, rows);
    assert st[0] == 'I';
    var values := JoinWith(RowTexts(rows), ",\n") + "\nON CONFLICT DO NOTHING";
    assert values[|values| - 1] == 'G';
    assert st[|st| - 1] == 'G';
  }

  // ---- Advancing identity sequences ----

  function ConcatAll(parts: seq<string>): string {
    if parts == [] then "" else parts[0] + ConcatAll(parts[1..])
  }

  lemma {:induction false} ConcatWithout(parts: seq<string>, c: char)
    requires forall i :: 0 <= i < |parts| ==> Without(parts[i], c)
    ensures Without(ConcatAll(parts), c)
  {
    if parts != [] {
      ConcatWithout(parts[1..], c);
    }
  }

  /** The body of the DO block, in three pieces; `why` is the fixed tail of its error message. */
  function LookupParts(name: string, column: string): seq<string> {
    ["\nDECLARE seq text;", "\nBEGIN\n    seq := ", "pg_get_serial_sequence('", name, "', '", column]
  }

  function CheckParts(name: string, column: string, why: string): seq<string> {
    ["');\n    IF seq IS NULL", " THEN\n        RAISE ", "EXCEPTION 'V11: ", name, ".", column, why, "';\n    END IF;\n"]
  }

  function PerformParts(name: string, column: string): seq<string> {
    ["    PERFORM setval(seq, ", "COALESCE((SELECT MAX(\"", column, "\") FROM \"", name, "\"), 0) + 1, false);", "\nEND "]
  }

  function SetvalBody(name: string, column: string, why: string): string {
    ConcatAll(LookupParts(name, column)) + (ConcatAll(CheckParts(name, column, why)) + ConcatAll(PerformParts(name, column)))
  }

  function SetvalText(name: string, column: string, why: string): string {
    "DO " + ("$$" + (SetvalBody(name, column, why) + "$$"))
  }

  lemma LookupIsSafe(name: string, column: string)
    requires Without(name, '$') && Without(column, '$')
    ensures Without(ConcatAll(LookupParts(name, column)), '$')
  {
    var parts := LookupParts(name, column);
    assert Without(parts[0], '$') && Without(parts[1], '$') && Without(parts[2], '$') && Without(parts[4], '$');
    ConcatWithout(parts, '$');
  }

  lemma CheckIsSafe(name: string, column: string, why: string)
    requires Without(name, '$') && Without(column, '$') && Without(why, '$')
    ensures Without(ConcatAll(CheckParts(name, column, why)), '$')
  {
    var parts := CheckParts(name, column, why);
    assert Without(parts[0], '$') && Without(parts[1], '$') && Without(parts[2], '$');
    assert Without(parts[4], '$') && Without(parts[7], '$');
    ConcatWithout(parts, '$');
  }

  lemma PerformIsSafe(name: string, column: string)
    requires Without(name, '$') && Without(column, '$')
    ensures Without(ConcatAll(PerformParts(name, column)), '$')
  {
    var parts := PerformParts(name, column);
    assert Without(parts[0], '$') && Without(parts[1], '$') && Without(parts[3], '$');
    assert Without(parts[5], '$') && Without(parts[6], '$');
    ConcatWithout(parts, '$');
  }

  lemma SetvalYieldsItself(name: string, column: string, why: string)
    requires Without(name, '$') && Without(column, '$') && Without(why, '$')
    ensures Yields(SetvalText(name, column, why) + ";", [SetvalText(name, column, why)])
  {
    LookupIsSafe(name, column);
    CheckIsSafe(name, column, why);
    PerformIsSafe(name, column);
    var body := SetvalBody(name, column, why);
    DollarBodyIsSolid(body);
    InertTextIsSolid("DO ");
    SolidConcat("DO ", "$$" + (body + "$$"));
    var st := SetvalText(name, column, why);
    assert st[0] == 'D' && st[|st| - 1] == '$';
    StatementYieldsItself(st);
  }

  // ---- The file ----

  function Min(a: nat, b: nat): nat {
    if a < b then a else b
  }

  /** The rows cut into runs of at most CHUNK_ROWS. */
  function Chunks(rows: seq<seq<Cell>>): seq<seq<seq<Cell>>> {
    if rows == [] then []
    else [rows[..Min(CHUNK_ROWS, |rows|)]] + Chunks(rows[Min(CHUNK_ROWS, |rows|)..])
  }

  /** The statements that a table's rows are emitted as. */
  function Inserts(t: Table): seq<string> {
    var chunks := Chunks(t.rows);
    seq(|chunks|, i requires 0 <= i < |chunks| => InsertText(t.name, t.columns, chunks[i]))
  }

  function Closed(statements: seq<string>): seq<string> {
    seq(|statements|, i requires 0 <= i < |statements| => statements[i] + ";")
  }

  function Setvals(t: Table, why: string): seq<string> {
    IdentitySetvals(t.name, t.columns, why)
  }

  function IdentitySetvals(name: string, columns: seq<Column>, why: string): seq<string> {
    if columns == [] then []
    else if columns[0].isIdentity then
      [SetvalText(name, columns[0].name, why)] + IdentitySetvals(name, columns[1..], why)
    else IdentitySetvals(name, columns[1..], why)
  }

  function AllInserts(tables: seq<Table>): seq<string> {
    if tables == [] then [] else Inserts(tables[0]) + AllInserts(tables[1..])
  }

  function AllSetvals(tables: seq<Table>, why: string): seq<string> {
    if tables == [] then [] else Setvals(tables[0], why) + AllSetvals(tables[1..], why)
  }

  function TableComment(t: Table): string {
    "--" + (" ---- " + (t.name + (" (" + (Decimal(|t.rows|) + " 行) ----"))))
  }

  method EmitTableSql(t: Table) returns (sql: string)
    ensures sql == JoinWith(Closed(Inserts(t)), "\n\n")
  {
    var parts: seq<string> := [];
    var start := 0;
    assert t.rows[0..] == t.rows;
    while start < |t.rows|
      invariant start <= |t.rows|
      invariant parts + Closed(Inserts(t.(rows := t.rows[start..]))) == Closed(Inserts(t))
    {
      var stop := Min(start + CHUNK_ROWS, |t.rows|);
      var rest := t.rows[start..];
      assert rest[..Min(CHUNK_ROWS, |rest|)] == t.rows[start..stop] && rest[Min(CHUNK_ROWS, |rest|)..] == t.rows[stop..];
      FirstChunkComesFirst(t.(rows := rest));
      parts := parts + [InsertText(t.name, t.columns, t.rows[start..stop]) + ";"];
      start := stop;
    }
    assert t.rows[start..] == [] && parts + [] == parts;
    sql := JoinWith(parts, "\n\n");
  }

  lemma FirstChunkComesFirst(t: Table)
    requires t.rows != []
    ensures Closed(Inserts(t)) ==
            [InsertText(t.name, t.columns, t.rows[..Min(CHUNK_ROWS, |t.rows|)]) + ";"]
            + Closed(Inserts(t.(rows := t.rows[Min(CHUNK_ROWS, |t.rows|)..])))
  {
  }

  /** Each statement of the list, closed by its semicolon, splits off as itself. */
  lemma {:induction false} ClosedYields(statements: seq<string>)
    requires statements != [] && forall i :: 0 <= i < |statements| ==> Yields(statements[i] + ";", [statements[i]])
    ensures Yields(JoinWith(Closed(statements), "\n\n"), statements)
  {
    var outs := seq(|statements|, i requires 0 <= i < |statements| => [statements[i]]);
    JoinYields(Closed(statements), "\n\n", outs);
    FlattenSingletons(statements, outs);
  }

  lemma {:induction false} FlattenSingletons(ss: seq<string>, outs: seq<seq<string>>)
    requires |ss| == |outs| && forall i :: 0 <= i < |ss| ==> outs[i] == [ss[i]]
    ensures Flatten(outs) == ss
  {
    if ss != [] {
      FlattenSingletons(ss[1..], outs[1..]);
    }
  }

  lemma {:induction false} ChunksAreSlices(rows: seq<seq<Cell>>, k: nat)
    requires k < |Chunks(rows)|
    requires forall r, i :: 0 <= r < |rows| && 0 <= i < |rows[r]| ==> ValidCell(rows[r][i])
    ensures forall r, i :: 0 <= r < |Chunks(rows)[k]| && 0 <= i < |Chunks(rows)[k][r]| ==> ValidCell(Chunks(rows)[k][r][i])
    decreases |rows|
  {
    if k > 0 {
      ChunksAreSlices(rows[Min(CHUNK_ROWS, |rows|)..], k - 1);
    }
  }

  lemma TableYieldsItsInserts(t: Table)
    requires ValidTable(t) && t.rows != []
    ensures Yields(JoinWith(Closed(Inserts(t)), "\n\n"), Inserts(t))
  {
    forall k | 0 <= k < |Inserts(t)| ensures Yields(Inserts(t)[k] + ";", [Inserts(t)[k]]) {
      ChunksAreSlices(t.rows, k);
      InsertIsSolid(t.name, t.columns, Chunks(t.rows)[k]);
      InsertIsTrimmed(t.name, t.columns, Chunks(t.rows)[k]);
      StatementYieldsItself(Inserts(t)[k]);
    }
    ClosedYields(Inserts(t));
  }

  lemma TableCommentYieldsNothing(t: Table)
    requires ValidTable(t)
    ensures Yields(TableComment(t), [])
  {
    CommentLineYieldsNothing(" ---- " + (t.name + (" (" + (Decimal(|t.rows|) + " 行) ----"))));
  }

  lemma {:induction false} SetvalsYield(name: string, columns: seq<Column>, why: string, k: nat)
    requires ValidIdentities(name, columns) && Without(why, '$') && k < |IdentitySetvals(name, columns, why)|
    ensures Yields(IdentitySetvals(name, columns, why)[k] + ";", [IdentitySetvals(name, columns, why)[k]])
    decreases columns
  {
    if columns[0].isIdentity && k == 0 {
      SetvalYieldsItself(name, columns[0].name, why);
    } else {
      SetvalsYield(name, columns[1..], why, if columns[0].isIdentity then k - 1 else k);
    }
  }

  lemma {:induction false} AllSetvalsYield(tables: seq<Table>, why: string, k: nat)
    requires (forall i :: 0 <= i < |tables| ==> ValidTable(tables[i])) && Without(why, '$')
    requires k < |AllSetvals(tables, why)|
    ensures Yields(AllSetvals(tables, why)[k] + ";", [AllSetvals(tables, why)[k]])
    decreases tables
  {
    var own := Setvals(tables[0], why);
    if k < |own| {
      SetvalsYield(tables[0].name, tables[0].columns, why, k);
    } else {
      AllSetvalsYield(tables[1..], why, k - |own|);
    }
  }

  lemma CommentBlockYieldsNothing(lines: seq<string>)
    requires lines != [] && forall i :: 0 <= i < |lines| ==> Without(lines[i], '\n')
    ensures Yields(CommentBlock(lines), [])
  {
    var texts := seq(|lines|, i requires 0 <= i < |lines| => "--" + lines[i]);
    var outs: seq<seq<string>> := seq(|lines|, _ => []);
    forall i | 0 <= i < |lines| ensures Yields(texts[i], outs[i]) {
      CommentLineYieldsNothing(lines[i]);
    }
    JoinYields(texts, "\n", outs);
    FlattenEmpties(outs);
  }

  lemma {:induction false} FlattenEmpties(outs: seq<seq<string>>)
    requires forall i :: 0 <= i < |outs| ==> outs[i] == []
    ensures Flatten(outs) == []
  {
    if outs != [] { FlattenEmpties(outs[1..]); }
  }

  /** Comment lines, given without their dashes. */
  function CommentBlock(lines: seq<string>): string {
    JoinWith(seq(|lines|, i requires 0 <= i < |lines| => "--" + lines[i]), "\n")
  }

  /** Every section yields its own statements; `out` is what they yield together. */
  ghost predicate SectionsYield(sections: seq<string>, outs: seq<seq<string>>, out: seq<string>) {
    && |sections| == |outs| && Flatten(outs) == out
    && forall i :: 0 <= i < |sections| ==> Yields(sections[i], outs[i])
  }

  lemma {:induction false} FlattenAppend(outs: seq<seq<string>>, more: seq<string>)
    ensures Flatten(outs + [more]) == Flatten(outs) + more
  {
    if outs == [] {
      assert outs + [more] == [more] && [more][1..] == [];
    } else {
      assert (outs + [more])[1..] == outs[1..] + [more];
      FlattenAppend(outs[1..], more);
    }
  }

  lemma AddSection(sections: seq<string>, outs: seq<seq<string>>, out: seq<string>, text: string, more: seq<string>)
    requires SectionsYield(sections, outs, out) && Yields(text, more)
    ensures SectionsYield(sections + [text], outs + [more], out + more)
  {
    FlattenAppend(outs, more);
  }

  /** The notes around the data are any comment lines; `why` is the fixed tail of the setval error message. */
  predicate ValidNotes(header: seq<string>, note: seq<string>, why: string) {
    && header != [] && note != []
    && (forall i :: 0 <= i < |header| ==> Without(header[i], '\n'))
    && (forall i :: 0 <= i < |note| ==> Without(note[i], '\n'))
    && Without(why, '$')
  }

  datatype Dump = Dumped(file: string) | NulByte

  predicate HasNul(cell: Cell) {
    (cell.Json? || cell.Timestamp? || cell.Text?) && exists i :: 0 <= i < |cell.text| && cell.text[i] == '\U{0000}'
  }

  predicate RowsHaveNul(tables: seq<Table>) {
    exists t, r, i :: 0 <= t < |tables| && 0 <= r < |tables[t].rows| && 0 <= i < |tables[t].rows[r]|
      && HasNul(tables[t].rows[r][i])
  }

  /** The header and, for each table with rows, a comment and its INSERTs. */
  method WriteTables(tables: seq<Table>, header: string) returns (sections: seq<string>, ghost outs: seq<seq<string>>)
    requires Yields(header, []) && !RowsHaveNul(tables) && forall i :: 0 <= i < |tables| ==> ValidTable(tables[i])
    ensures sections != [] && SectionsYield(sections, outs, AllInserts(tables))
  {
    sections, outs := [header], [[]];
    for k := 0 to |tables|
      invariant sections != [] && SectionsYield(sections, outs, AllInserts(tables[..k]))
    {
      InsertsSoFar(tables, k);
      if tables[k].rows != [] {
        var sql := EmitTableSql(tables[k]);
        TableCommentYieldsNothing(tables[k]);
        TableYieldsItsInserts(tables[k]);
        AddSection(sections, outs, AllInserts(tables[..k]), TableComment(tables[k]), []);
        AddSection(sections + [TableComment(tables[k])], outs + [[]], AllInserts(tables[..k]) + [], sql, Inserts(tables[k]));
        assert AllInserts(tables[..k]) + [] == AllInserts(tables[..k]);
        sections, outs := sections + [TableComment(tables[k])] + [sql], outs + [[]] + [Inserts(tables[k])];
      }
    }
    assert tables[..|tables|] == tables;
  }

  method WriteSetvals(tables: seq<Table>, why: string) returns (setvals: seq<string>)
    ensures setvals == AllSetvals(tables, why)
  {
    setvals := [];
    for k := 0 to |tables|
      invariant setvals + AllSetvals(tables[k..], why) == AllSetvals(tables, why)
    {
      assert tables[k..][1..] == tables[k + 1..];
      setvals := setvals + Setvals(tables[k], why);
    }
  }

  function SetvalSection(setvals: seq<string>, note: seq<string>): string {
    CommentBlock(note) + ("\n\n" + JoinWith(Closed(setvals), "\n\n"))
  }

  lemma SetvalSectionYields(tables: seq<Table>, note: seq<string>, why: string)
    requires ValidNotes(note, note, why) && (forall i :: 0 <= i < |tables| ==> ValidTable(tables[i]))
    requires AllSetvals(tables, why) != []
    ensures Yields(SetvalSection(AllSetvals(tables, why), note), AllSetvals(tables, why))
  {
    var setvals := AllSetvals(tables, why);
    forall k | 0 <= k < |setvals| ensures Yields(setvals[k] + ";", [setvals[k]]) {
      AllSetvalsYield(tables, why, k);
    }
    ClosedYields(setvals);
    CommentBlockYieldsNothing(note);
    YieldsConcat(CommentBlock(note), "\n\n", JoinWith(Closed(setvals), "\n\n"), [], setvals);
    assert [] + setvals == setvals;
  }

  lemma {:induction false} InsertsSoFar(tables: seq<Table>, k: nat)
    requires k < |tables|
    ensures AllInserts(tables[..k + 1]) == AllInserts(tables[..k]) + Inserts(tables[k])
  {
    if k == 0 {
      assert tables[..1][1..] == [] && tables[..0] == [];
    } else {
      InsertsSoFar(tables[1..], k - 1);
      assert tables[..k + 1][1..] == tables[1..][..k] && tables[..k][1..] == tables[1..][..k - 1];
    }
  }

  lemma FileSplitsBack(sections: seq<string>, outs: seq<seq<string>>, out: seq<string>)
    requires sections != [] && SectionsYield(sections, outs, out)
    ensures Statements(JoinWith(sections, "\n\n") + "\n") == out
  {
    JoinYields(sections, "\n\n", outs);
    BlanksAreSkipped("\n", "");
    assert "\n" + "" == "\n";
    assert Split("\n", Plain, "") == [] && out + [] == out;
  }
}
