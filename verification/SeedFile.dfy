/** The seed migration as a file: split and read back, it loads into each table exactly the table's rows. */
module SeedFile {
  import opened Text
  import opened Outcomes
  import opened SqlSplitter
  import opened SolidText
  import opened SeedDump
  import opened SeedReader

  // ---- Rows per table ----

  /** What is read from each statement, in order. */
  function Gathered<T>(read: string -> seq<T>, statements: seq<string>): seq<T> {
    if statements == [] then [] else read(statements[0]) + Gathered(read, statements[1..])
  }

  lemma {:induction false} GatheredBoth<T>(read: string -> seq<T>, a: seq<string>, b: seq<string>)
    ensures Gathered(read, a + b) == Gathered(read, a) + Gathered(read, b)
  {
    if a == [] {
      assert a + b == b;
    } else {
      GatheredBoth(read, a[1..], b);
      assert (a + b)[1..] == a[1..] + b && (a + b)[0] == a[0];
    }
  }

  lemma GatheredFirst<T>(read: string -> seq<T>, s: string, rest: seq<string>)
    ensures Gathered(read, [s] + rest) == read(s) + Gathered(read, rest)
  {
    assert ([s] + rest)[1..] == rest;
  }

  function InsertedInto(s: string, table: string): seq<seq<Cell>> {
    var read := ReadInsert(s);
    if read.Some? && read.value.table == table then read.value.rows else []
  }

  function Inserting(table: string): string -> seq<seq<Cell>> {
    s => InsertedInto(s, table)
  }

  /** The rows that the statements insert into the table, in order. */
  function RowsInto(statements: seq<string>, table: string): seq<seq<Cell>> {
    Gathered(Inserting(table), statements)
  }

  predicate ReadableTable(t: Table) {
    Without(t.name, '"') && PlainNames(t.columns) && ReadableRows(t.rows)
  }

  lemma FirstInsert(t: Table, first: seq<seq<Cell>>, rest: seq<seq<Cell>>)
    requires t.rows != [] && first == t.rows[..Min(CHUNK_ROWS, |t.rows|)] && rest == t.rows[Min(CHUNK_ROWS, |t.rows|)..]
    ensures Inserts(t) == [InsertText(t.name, t.columns, first)] + Inserts(t.(rows := rest))
  {
  }

  lemma InsertGivesRows(name: string, columns: seq<Column>, rows: seq<seq<Cell>>, table: string)
    requires Without(name, '"') && PlainNames(columns) && rows != [] && ReadableRows(rows)
    ensures Inserting(table)(InsertText(name, columns, rows)) == if name == table then rows else []
  {
    InsertReadsBack(name, columns, rows);
  }

  /** However the rows are cut into statements, none is lost, doubled or moved. */
  lemma {:induction false} InsertsLoadRows(t: Table, table: string)
    requires ReadableTable(t)
    ensures RowsInto(Inserts(t), table) == if t.name == table then t.rows else []
    decreases |t.rows|
  {
    if t.rows != [] {
      var n := Min(CHUNK_ROWS, |t.rows|);
      var first, rest := t.rows[..n], t.rows[n..];
      FirstInsert(t, first, rest);
      InsertGivesRows(t.name, t.columns, first, table);
      InsertsLoadRows(t.(rows := rest), table);
      GatheredFirst(Inserting(table), InsertText(t.name, t.columns, first), Inserts(t.(rows := rest)));
      assert first + rest == t.rows;
    }
  }

  /** The statement inserts between one and CHUNK_ROWS rows into the table, under its columns in order. */
  predicate OfTable(read: Option<Insert>, name: string, columns: seq<Column>) {
    && read.Some? && read.value.table == name && read.value.columns == Names(columns)
    && 0 < |read.value.rows| <= CHUNK_ROWS
  }

  lemma {:induction false} EveryInsertIsOfItsTable(t: Table, k: nat)
    requires ReadableTable(t) && k < |Inserts(t)|
    ensures OfTable(ReadInsert(Inserts(t)[k]), t.name, t.columns)
    decreases |t.rows|
  {
    var n := Min(CHUNK_ROWS, |t.rows|);
    var first, rest := t.rows[..n], t.rows[n..];
    var next := t.(rows := rest);
    FirstInsert(t, first, rest);
    if k == 0 {
      InsertIsOfTable(t.name, t.columns, first);
    } else {
      var before: nat := k - 1;
      assert Inserts(t)[k] == Inserts(next)[before];
      EveryInsertIsOfItsTable(next, before);
    }
  }

  lemma InsertIsOfTable(name: string, columns: seq<Column>, rows: seq<seq<Cell>>)
    requires Without(name, '"') && PlainNames(columns) && ReadableRows(rows) && 0 < |rows| <= CHUNK_ROWS
    ensures OfTable(ReadInsert(InsertText(name, columns, rows)), name, columns)
  {
    InsertReadsBack(name, columns, rows);
  }

  /** The rows of all tables of that name, in order. */
  function RowsOf(tables: seq<Table>, table: string): seq<seq<Cell>> {
    if tables == [] then []
    else (if tables[0].name == table then tables[0].rows else []) + RowsOf(tables[1..], table)
  }

  lemma {:induction false} AllInsertsLoad(tables: seq<Table>, table: string)
    requires forall i :: 0 <= i < |tables| ==> ReadableTable(tables[i])
    ensures RowsInto(AllInserts(tables), table) == RowsOf(tables, table)
  {
    if tables != [] {
      AllInsertsLoad(tables[1..], table);
      InsertsLoadRows(tables[0], table);
      GatheredBoth(Inserting(table), Inserts(tables[0]), AllInserts(tables[1..]));
    }
  }

  lemma SetvalIsNoInsert(name: string, column: string, why: string)
    ensures forall table :: Inserting(table)(SetvalText(name, column, why)) == []
  {
    assert SetvalText(name, column, why)[0] == 'D';
  }

  lemma {:induction false} SetvalsLoadNothing(name: string, columns: seq<Column>, why: string, table: string)
    ensures RowsInto(IdentitySetvals(name, columns, why), table) == []
  {
    if columns != [] {
      SetvalsLoadNothing(name, columns[1..], why, table);
      var rest := IdentitySetvals(name, columns[1..], why);
      SetvalIsNoInsert(name, columns[0].name, why);
      GatheredFirst(Inserting(table), SetvalText(name, columns[0].name, why), rest);
    }
  }

  lemma {:induction false} AllSetvalsLoadNothing(tables: seq<Table>, why: string, table: string)
    ensures RowsInto(AllSetvals(tables, why), table) == []
  {
    if tables != [] {
      AllSetvalsLoadNothing(tables[1..], why, table);
      SetvalsLoadNothing(tables[0].name, tables[0].columns, why, table);
      GatheredBoth(Inserting(table), Setvals(tables[0], why), AllSetvals(tables[1..], why));
    }
  }

  /** Reading the statements gives, table by table, the rows that were fetched. */
  ghost predicate LoadsBack(statements: seq<string>, tables: seq<Table>) {
    forall table {:trigger RowsOf(tables, table)} :: RowsInto(statements, table) == RowsOf(tables, table)
  }

  lemma StatementsLoadBack(tables: seq<Table>, why: string)
    requires forall i :: 0 <= i < |tables| ==> ReadableTable(tables[i])
    ensures LoadsBack(AllInserts(tables) + AllSetvals(tables, why), tables)
  {
    forall table ensures RowsInto(AllInserts(tables) + AllSetvals(tables, why), table) == RowsOf(tables, table) {
      GatheredBoth(Inserting(table), AllInserts(tables), AllSetvals(tables, why));
      AllInsertsLoad(tables, table);
      AllSetvalsLoadNothing(tables, why, table);
    }
  }

  predicate DistinctNames(tables: seq<Table>) {
    forall i, j :: 0 <= i < j < |tables| ==> tables[i].name != tables[j].name
  }

  lemma {:induction false} NoOtherTable(tables: seq<Table>, table: string)
    requires forall i :: 0 <= i < |tables| ==> tables[i].name != table
    ensures RowsOf(tables, table) == []
  {
    if tables != [] { NoOtherTable(tables[1..], table); }
  }

  lemma {:induction false} DistinctTableHasItsRows(tables: seq<Table>, i: nat)
    requires DistinctNames(tables) && i < |tables|
    ensures RowsOf(tables, tables[i].name) == tables[i].rows
  {
    if i == 0 {
      NoOtherTable(tables[1..], tables[0].name);
    } else {
      DistinctTableHasItsRows(tables[1..], i - 1);
    }
  }

  // ---- Identity sequences ----

  const SETVAL_START := "DO " + ("$$" + ("\nDECLARE seq text;" + ("\nBEGIN\n    seq := " + "pg_get_serial_sequence(")))

  /** The table and column whose sequence a block advances. */
  function ReadSetval(s: string): Option<(string, string)> {
    match Behind(SETVAL_START, s)
    case None => None
    case Some(args) =>
      match ReadLiteral(args)
      case None => None
      case Some(p) =>
        match Behind(", ", p.1)
        case None => None
        case Some(second) =>
          match ReadLiteral(second)
          case None => None
          case Some(q) => Some((p.0, q.0))
  }

  lemma {:induction false} PlainIsUndoubled(text: string)
    requires Without(text, '\'')
    ensures Doubled(text) == text
  {
    if text != "" {
      PlainIsUndoubled(text[1..]);
      assert text == [text[0]] + text[1..];
    }
  }

  lemma ConcatFirst(parts: seq<string>)
    requires parts != []
    ensures ConcatAll(parts) == parts[0] + ConcatAll(parts[1..])
  {
  }

  lemma LookupText(name: string, column: string)
    ensures ConcatAll(LookupParts(name, column)) ==
            "\nDECLARE seq text;" + ("\nBEGIN\n    seq := " + ("pg_get_serial_sequence('" + (name + ("', '" + column))))
  {
    var p0 := LookupParts(name, column);
    var p1, p2, p3, p4, p5 := p0[1..], p0[2..], p0[3..], p0[4..], p0[5..];
    ConcatFirst(p0);
    ConcatFirst(p1);
    assert p1[1..] == p2 && p2[1..] == p3 && p3[1..] == p4 && p4[1..] == p5 && p5[1..] == [];
    ConcatFirst(p2);
    ConcatFirst(p3);
    ConcatFirst(p4);
    ConcatFirst(p5);
    assert ConcatAll([]) == "" && column + "" == column;
  }

  /** The block's text, seen as its reader sees it. */
  lemma SetvalShape(name: string, column: string, why: string) returns (rest: string)
    requires Without(name, '\'') && Without(column, '\'')
    ensures SetvalText(name, column, why) == SETVAL_START + (Quote(name) + (", " + (Quote(column) + rest)))
    ensures rest != "" && rest[0] == ')'
  {
    LookupText(name, column);
    PlainIsUndoubled(name);
    PlainIsUndoubled(column);
    var check := CheckParts(name, column, why);
    ConcatFirst(check);
    var more := ConcatAll(check[1..]) + (ConcatAll(PerformParts(name, column)) + "$$");
    rest := check[0][1..] + more;
    assert check[0] == "'" + check[0][1..];
    SetvalTail(name, column, why, check[0], more);
    LookupQuoted(name, column, check[0], more, rest);
  }

  lemma SetvalTail(name: string, column: string, why: string, first: string, more: string)
    requires var check := CheckParts(name, column, why);
      first == check[0] && more == ConcatAll(check[1..]) + (ConcatAll(PerformParts(name, column)) + "$$")
    ensures SetvalText(name, column, why) == "DO " + ("$$" + (ConcatAll(LookupParts(name, column)) + (first + more)))
  {
    var check := CheckParts(name, column, why);
    ConcatFirst(check);
    Regroup(ConcatAll(LookupParts(name, column)), first, ConcatAll(check[1..]), ConcatAll(PerformParts(name, column)), "$$");
  }

  lemma Regroup(a: string, b: string, c: string, d: string, e: string)
    ensures (a + ((b + c) + d)) + e == a + (b + (c + (d + e)))
  {
  }

  lemma LookupQuoted(name: string, column: string, first: string, more: string, rest: string)
    requires Doubled(name) == name && Doubled(column) == column
    requires first != "" && first == "'" + first[1..] && rest == first[1..] + more
    requires ConcatAll(LookupParts(name, column)) ==
             "\nDECLARE seq text;" + ("\nBEGIN\n    seq := " + ("pg_get_serial_sequence('" + (name + ("', '" + column))))
    ensures "DO " + ("$$" + (ConcatAll(LookupParts(name, column)) + (first + more))) ==
            SETVAL_START + (Quote(name) + (", " + (Quote(column) + rest)))
  {
    var q := "'";
    assert "pg_get_serial_sequence('" == "pg_get_serial_sequence(" + q && "', '" == q + (", " + q);
    assert first + more == q + rest;
    RegroupAll("DO ", "$$", "\nDECLARE seq text;", "\nBEGIN\n    seq := ", "pg_get_serial_sequence(", q, name, ", ", column, rest);
  }

  lemma RegroupAll(a: string, b: string, c: string, d: string, e: string, q: string, name: string, sep: string, column: string, rest: string)
    ensures a + (b + ((c + (d + ((e + q) + (name + ((q + (sep + q)) + column))))) + (q + rest))) ==
            (a + (b + (c + (d + e)))) + ((q + name + q) + (sep + ((q + column + q) + rest)))
  {
    var args := name + ((q + (sep + q)) + column);
    RegroupArgs(q, name, sep, column, rest);
    assert (c + (d + ((e + q) + args))) + (q + rest) == c + (d + (e + (q + (args + (q + rest)))));
    var tail := (q + name + q) + (sep + ((q + column + q) + rest));
    assert (a + (b + (c + (d + e)))) + tail == a + (b + (c + (d + (e + tail))));
  }

  lemma RegroupArgs(q: string, name: string, sep: string, column: string, rest: string)
    ensures q + ((name + ((q + (sep + q)) + column)) + (q + rest)) == (q + name + q) + (sep + ((q + column + q) + rest))
  {
  }

  /** An emitted block reads back as the table and column it was emitted for. */
  lemma SetvalReadsBack(name: string, column: string, why: string)
    requires Without(name, '\'') && Without(column, '\'')
    ensures ReadSetval(SetvalText(name, column, why)) == Some((name, column))
  {
    var rest := SetvalShape(name, column, why);
    var second := Quote(column) + rest;
    BehindPiece(SETVAL_START, Quote(name) + (", " + second));
    LiteralReadsBack(name, ", " + second);
    BehindPiece(", ", second);
    LiteralReadsBack(column, rest);
  }

  predicate PlainIdentities(t: Table) {
    Without(t.name, '\'') && forall c :: 0 <= c < |t.columns| ==> Without(t.columns[c].name, '\'')
  }

  function AdvancedBy(s: string): seq<(string, string)> {
    var read := ReadSetval(s);
    if read.Some? then [read.value] else []
  }

  function Advancing(): string -> seq<(string, string)> {
    s => AdvancedBy(s)
  }

  /** The pairs of table and column whose sequences the statements advance, in order. */
  function Advanced(statements: seq<string>): seq<(string, string)> {
    Gathered(Advancing(), statements)
  }

  /** The pair names an identity column of one of the tables. */
  predicate IsIdentity(tables: seq<Table>, pair: (string, string)) {
    exists t, c :: 0 <= t < |tables| && 0 <= c < |tables[t].columns| && tables[t].columns[c].isIdentity
                   && pair == (tables[t].name, tables[t].columns[c].name)
  }

  predicate IsIdentityOf(t: Table, pair: (string, string)) {
    exists c :: 0 <= c < |t.columns| && t.columns[c].isIdentity && pair == (t.name, t.columns[c].name)
  }

  lemma {:induction false} TableAdvances(t: Table, why: string, pair: (string, string))
    requires PlainIdentities(t)
    ensures pair in Advanced(Setvals(t, why)) <==> IsIdentityOf(t, pair)
    decreases |t.columns|
  {
    if t.columns != [] {
      var rest := t.(columns := t.columns[1..]);
      TableAdvances(rest, why, pair);
      RestOfIdentities(t, rest, pair);
      var more := Setvals(rest, why);
      if t.columns[0].isIdentity {
        SetvalReadsBack(t.name, t.columns[0].name, why);
        GatheredFirst(Advancing(), SetvalText(t.name, t.columns[0].name, why), more);
      }
    }
  }

  lemma RestOfIdentities(t: Table, rest: Table, pair: (string, string))
    requires t.columns != [] && rest == t.(columns := t.columns[1..])
    ensures IsIdentityOf(t, pair) <==>
            (t.columns[0].isIdentity && pair == (t.name, t.columns[0].name)) || IsIdentityOf(rest, pair)
  {
    if c :| 0 <= c < |t.columns| && t.columns[c].isIdentity && pair == (t.name, t.columns[c].name) {
      assert c > 0 ==> rest.columns[c - 1] == t.columns[c];
    }
    if c :| 0 <= c < |rest.columns| && rest.columns[c].isIdentity && pair == (rest.name, rest.columns[c].name) {
      assert t.columns[c + 1] == rest.columns[c];
    }
  }

  /** Exactly the identity columns of all tables have their sequences advanced. */
  lemma {:induction false} AllIdentitiesAdvance(tables: seq<Table>, why: string, pair: (string, string))
    requires forall i :: 0 <= i < |tables| ==> PlainIdentities(tables[i])
    ensures pair in Advanced(AllSetvals(tables, why)) <==> IsIdentity(tables, pair)
  {
    if tables != [] {
      AllIdentitiesAdvance(tables[1..], why, pair);
      TableAdvances(tables[0], why, pair);
      GatheredBoth(Advancing(), Setvals(tables[0], why), AllSetvals(tables[1..], why));
      assert forall t :: 0 < t < |tables| ==> tables[t] == tables[1..][t - 1];
      assert forall t :: 0 <= t < |tables| - 1 ==> tables[1..][t] == tables[t + 1];
    }
  }

  // ---- The file ----

  /**
    Writes the seed migration: header, then per non-empty table a comment and its INSERTs, then the DO blocks that
    advance identity sequences. For any rows without NUL, splitting the file returns exactly the emitted statements, and
    reading those gives every table its rows.
  */
  method DumpFile(tables: seq<Table>, header: seq<string>, note: seq<string>, why: string) returns (dump: Dump)
    requires ValidNotes(header, note, why) && forall i :: 0 <= i < |tables| ==> ValidTable(tables[i])
    ensures dump.NulByte? <==> RowsHaveNul(tables)
    ensures dump.Dumped? ==> Statements(dump.file) == AllInserts(tables) + AllSetvals(tables, why)
    ensures dump.Dumped? && (forall i :: 0 <= i < |tables| ==> ReadableTable(tables[i])) ==>
              LoadsBack(Statements(dump.file), tables)
  {
    if RowsHaveNul(tables) {
      return NulByte;
    }
    CommentBlockYieldsNothing(header);
    var sections;
    ghost var outs;
    sections, outs := WriteTables(tables, CommentBlock(header));
    var setvals := WriteSetvals(tables, why);
    if setvals != [] {
      SetvalSectionYields(tables, note, why);
      AddSection(sections, outs, AllInserts(tables), SetvalSection(setvals, note), setvals);
      sections, outs := sections + [SetvalSection(setvals, note)], outs + [setvals];
    }
    dump := Dumped(JoinWith(sections, "\n\n") + "\n");
    FileSplitsBack(sections, outs, AllInserts(tables) + setvals);
    if forall i :: 0 <= i < |tables| ==> ReadableTable(tables[i]) {
      StatementsLoadBack(tables, why);
    }
  }
}
