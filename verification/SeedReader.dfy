/** Reading the emitted statements back: table, columns and cells in their places. */
module SeedReader {
  import opened Text
  import opened Outcomes
  import opened SolidText
  import opened SeedDump

  // ---- Cells ----

  predicate InWord(c: char) {
    'A' <= c <= 'Z' || 'a' <= c <= 'z' || '0' <= c <= '9' || c == '.' || c == '+' || c == '-'
  }

  function WordLength(s: string): (n: nat)
    ensures n <= |s| && (forall i :: 0 <= i < n ==> InWord(s[i])) && (n < |s| ==> !InWord(s[n]))
  {
    if s == "" || !InWord(s[0]) then 0 else WordLength(s[1..]) + 1
  }

  predicate Keyword(word: string) {
    word == "NULL" || word == "TRUE" || word == "FALSE" || word == "TIMESTAMP"
  }

  /** Numbers are written in digits, letters, signs and dots, and are no keywords. */
  predicate ReadableCell(cell: Cell) {
    cell.Number? ==> cell.text != "" && (forall i :: 0 <= i < |cell.text| ==> InWord(cell.text[i])) && !Keyword(cell.text)
  }

  const JSON_CAST := "::jsonb"

  /** A quoted literal, with or without a cast. */
  function ReadText(s: string): (r: Option<(Cell, string)>)
    ensures r.Some? ==> |r.value.1| < |s|
  {
    match ReadLiteral(s)
    case None => None
    case Some(p) => if JSON_CAST <= p.1 then Some((Json(p.0), p.1[|JSON_CAST|..])) else Some((Text(p.0), p.1))
  }

  /** What follows the keyword: a space and a literal. */
  function ReadTimestamp(s: string): (r: Option<(Cell, string)>)
    ensures r.Some? ==> |r.value.1| < |s|
  {
    if s == "" || s[0] != ' ' then None
    else
      match ReadLiteral(s[1..])
      case None => None
      case Some(p) => Some((Timestamp(p.0), p.1))
  }

  function ReadCell(s: string): (r: Option<(Cell, string)>)
    ensures r.Some? ==> |r.value.1| < |s|
  {
    if s != "" && s[0] == '\'' then ReadText(s)
    else
      var n := WordLength(s);
      var word, rest := s[..n], s[n..];
      if word == "" then None
      else if word == "NULL" then Some((SqlNull, rest))
      else if word == "TRUE" then Some((Flag(true), rest))
      else if word == "FALSE" then Some((Flag(false), rest))
      else if word == "TIMESTAMP" then ReadTimestamp(rest)
      else Some((Number(word), rest))
  }

  /** What stands behind a cell: a comma or the closing parenthesis. */
  predicate EndsCell(rest: string) {
    rest != "" && (rest[0] == ',' || rest[0] == ')')
  }

  lemma TextReadsBack(text: string, rest: string)
    requires EndsCell(rest)
    ensures ReadCell(Quote(text) + rest) == Some((Text(text), rest))
    ensures ReadCell(Quote(text) + ("::jsonb" + rest)) == Some((Json(text), rest))
  {
    LiteralReadsBack(text, rest);
    LiteralReadsBack(text, "::jsonb" + rest);
    assert (Quote(text) + rest)[0] == '\'' && (Quote(text) + ("::jsonb" + rest))[0] == '\'';
    assert !(JSON_CAST <= rest);
    assert JSON_CAST <= "::jsonb" + rest && ("::jsonb" + rest)[|JSON_CAST|..] == rest;
  }

  lemma WordReads(word: string, rest: string)
    requires (forall i :: 0 <= i < |word| ==> InWord(word[i])) && (rest == "" || !InWord(rest[0]))
    ensures var s := word + rest; WordLength(s) == |word| && s[..|word|] == word && s[|word|..] == rest
  {
    var s := word + rest;
    assert |word| < |s| ==> s[|word|] == rest[0];
    assert forall i :: 0 <= i < |word| ==> s[i] == word[i];
  }

  lemma KeywordReadsBack(cell: Cell, rest: string)
    requires (cell.SqlNull? || cell.Flag? || cell.Number?) && ReadableCell(cell) && EndsCell(rest)
    ensures ReadCell(Render(cell) + rest) == Some((cell, rest))
  {
    var word := Render(cell);
    assert forall i :: 0 <= i < |word| ==> InWord(word[i]);
    WordReads(word, rest);
    assert (word + rest)[0] == word[0] && word[0] != '\'';
  }

  /** A number written in word characters is read back exactly when it is no keyword. */
  lemma NumberReadsBackIff(text: string, rest: string)
    requires text != "" && (forall i :: 0 <= i < |text| ==> InWord(text[i])) && EndsCell(rest)
    ensures ReadCell(Render(Number(text)) + rest) == Some((Number(text), rest)) <==> !Keyword(text)
  {
    WordReads(text, rest);
    assert (text + rest)[0] == text[0] && text[0] != '\'';
  }

  lemma TimestampReadsBack(text: string, rest: string)
    requires EndsCell(rest)
    ensures ReadCell("TIMESTAMP " + Quote(text) + rest) == Some((Timestamp(text), rest))
  {
    var tail := " " + (Quote(text) + rest);
    TimestampParts(Quote(text), rest);
    KeywordThenLiteral("TIMESTAMP" + tail, tail);
    assert tail[1..] == Quote(text) + rest;
    LiteralReadsBack(text, rest);
  }

  lemma TimestampParts(quoted: string, rest: string)
    ensures "TIMESTAMP " + quoted + rest == "TIMESTAMP" + (" " + (quoted + rest))
  {
    var word, space := "TIMESTAMP", " ";
    assert "TIMESTAMP " == word + space;
    assert word + space + quoted + rest == word + (space + (quoted + rest));
  }

  lemma KeywordThenLiteral(s: string, tail: string)
    requires s == "TIMESTAMP" + tail && tail != "" && tail[0] == ' '
    ensures ReadCell(s) == ReadTimestamp(tail)
  {
    WordReads("TIMESTAMP", tail);
    assert s[0] == 'T';
  }

  /** Whatever the cell, it is read back with its kind and its text. */
  lemma CellReadsBack(cell: Cell, rest: string)
    requires ReadableCell(cell) && EndsCell(rest)
    ensures ReadCell(Render(cell) + rest) == Some((cell, rest))
  {
    match cell
    case Text(t) => TextReadsBack(t, rest);
    case Json(t) =>
      TextReadsBack(t, rest);
      assert Quote(t) + "::jsonb" + rest == Quote(t) + ("::jsonb" + rest);
    case Timestamp(t) => TimestampReadsBack(t, rest);
    case SqlNull => KeywordReadsBack(cell, rest);
    case Flag(_) => KeywordReadsBack(cell, rest);
    case Number(_) => KeywordReadsBack(cell, rest);
  }

  // ---- Rows ----

  predicate ReadableRow(row: seq<Cell>) {
    forall i :: 0 <= i < |row| ==> ReadableCell(row[i])
  }

  /** The cells up to the closing parenthesis. */
  function ReadCells(s: string): (r: Option<(seq<Cell>, string)>)
    ensures r.Some? ==> |r.value.1| < |s|
    decreases |s|
  {
    if s != "" && s[0] == ')' then Some(([], s[1..]))
    else
      match ReadCell(s)
      case None => None
      case Some(p) =>
        if p.1 != "" && p.1[0] == ')' then Some(([p.0], p.1[1..]))
        else if ", " <= p.1 then
          match ReadCells(p.1[2..])
          case None => None
          case Some(q) => Some(([p.0] + q.0, q.1))
        else None
  }

  lemma RenderStarts(cell: Cell)
    requires ReadableCell(cell)
    ensures Render(cell) != "" && Render(cell)[0] != ')'
  {
  }

  lemma RenderedParts(row: seq<Cell>)
    requires row != []
    ensures Rendered(row)[0] == Render(row[0]) && Rendered(row)[1..] == Rendered(row[1..])
  {
  }

  lemma JoinedThen(parts: seq<string>, sep: string, rest: string)
    requires |parts| > 1
    ensures JoinWith(parts, sep) + rest == parts[0] + (sep + (JoinWith(parts[1..], sep) + rest))
  {
    var more := JoinWith(parts[1..], sep);
    assert parts[0] + (sep + more) + rest == parts[0] + (sep + (more + rest));
  }

  lemma {:induction false} CellsReadBack(row: seq<Cell>, rest: string)
    requires ReadableRow(row)
    ensures ReadCells(JoinWith(Rendered(row), ", ") + (")" + rest)) == Some((row, rest))
  {
    var s := JoinWith(Rendered(row), ", ") + (")" + rest);
    if row == [] {
      assert s == ")" + rest && s[1..] == rest;
    } else {
      RenderStarts(row[0]);
      RenderedParts(row);
      if |row| == 1 {
        LastCellReads(row[0], s, rest);
        assert row == [row[0]];
      } else {
        var tail := JoinWith(Rendered(row[1..]), ", ") + (")" + rest);
        CellsReadBack(row[1..], rest);
        JoinedThen(Rendered(row), ", ", ")" + rest);
        NextCellReads(row[0], s, tail, row[1..], rest);
        assert row == [row[0]] + row[1..];
      }
    }
  }

  lemma LastCellReads(cell: Cell, s: string, rest: string)
    requires ReadableCell(cell) && s == Render(cell) + (")" + rest) && Render(cell) != "" && Render(cell)[0] != ')'
    ensures ReadCells(s) == Some(([cell], rest))
  {
    CellReadsBack(cell, ")" + rest);
    assert s[0] == Render(cell)[0] && (")" + rest)[1..] == rest;
  }

  lemma NextCellReads(cell: Cell, s: string, tail: string, more: seq<Cell>, rest: string)
    requires ReadableCell(cell) && s == Render(cell) + (", " + tail) && Render(cell) != "" && Render(cell)[0] != ')'
    requires ReadCells(tail) == Some((more, rest))
    ensures ReadCells(s) == Some(([cell] + more, rest))
  {
    var after := ", " + tail;
    CellReadsBack(cell, after);
    assert s[0] == Render(cell)[0] && ", " <= after && after[2..] == tail;
  }

  const ROW_START := "    ("
  const INSERT_END := "\nON CONFLICT DO NOTHING"

  /** The rows up to the end of the statement. */
  function ReadRows(s: string): Option<seq<seq<Cell>>>
    decreases |s|
  {
    if !(ROW_START <= s) then None
    else
      match ReadCells(s[|ROW_START|..])
      case None => None
      case Some(p) =>
        if p.1 == INSERT_END then Some([p.0])
        else if ",\n" <= p.1 then
          match ReadRows(p.1[2..])
          case None => None
          case Some(more) => Some([p.0] + more)
        else None
  }

  predicate ReadableRows(rows: seq<seq<Cell>>) {
    forall r :: 0 <= r < |rows| ==> ReadableRow(rows[r])
  }

  lemma RowTextsParts(rows: seq<seq<Cell>>)
    requires rows != []
    ensures RowTexts(rows)[0] == RowText(rows[0]) && RowTexts(rows)[1..] == RowTexts(rows[1..])
  {
  }

  /** A row's text, read off the front. */
  lemma RowReads(row: seq<Cell>, s: string, rest: string)
    requires ReadableRow(row) && s == RowText(row) + rest
    ensures ROW_START <= s && ReadCells(s[|ROW_START|..]) == Some((row, rest))
  {
    var cells := JoinWith(Rendered(row), ", ");
    CellsReadBack(row, rest);
    assert s == ROW_START + (cells + (")" + rest));
    assert s[|ROW_START|..] == cells + (")" + rest);
  }

  lemma {:induction false} RowsReadBack(rows: seq<seq<Cell>>)
    requires rows != [] && ReadableRows(rows)
    ensures ReadRows(JoinWith(RowTexts(rows), ",\n") + INSERT_END) == Some(rows)
  {
    var texts := RowTexts(rows);
    RowTextsParts(rows);
    if |rows| == 1 {
      LastRowReads(rows[0], JoinWith(texts, ",\n") + INSERT_END);
      assert rows == [rows[0]];
    } else {
      RowsReadBack(rows[1..]);
      JoinedThen(texts, ",\n", INSERT_END);
      NextRowReads(rows[0], JoinWith(texts[1..], ",\n") + INSERT_END, rows[1..]);
      assert rows == [rows[0]] + rows[1..];
    }
  }

  lemma LastRowReads(row: seq<Cell>, s: string)
    requires ReadableRow(row) && s == RowText(row) + INSERT_END
    ensures ReadRows(s) == Some([row])
  {
    RowReads(row, s, INSERT_END);
  }

  lemma NextRowReads(row: seq<Cell>, tail: string, more: seq<seq<Cell>>)
    requires ReadableRow(row) && ReadRows(tail) == Some(more)
    ensures ReadRows(RowText(row) + (",\n" + tail)) == Some([row] + more)
  {
    var after := ",\n" + tail;
    RowReads(row, RowText(row) + after, after);
    assert ",\n" <= after && after[2..] == tail && after[0] != INSERT_END[0];
  }

  // ---- Names and statements ----

  /** A name in double quotes. */
  function ReadName(s: string): (r: Option<(string, string)>)
    ensures r.Some? ==> |r.value.1| < |s|
  {
    if s == "" || s[0] != '"' then None else ReadUntilQuote(s[1..])
  }

  function ReadUntilQuote(s: string): (r: Option<(string, string)>)
    ensures r.Some? ==> |r.value.1| < |s|
    decreases |s|
  {
    if s == "" then None
    else if s[0] == '"' then Some(("", s[1..]))
    else
      match ReadUntilQuote(s[1..])
      case None => None
      case Some(p) => Some(([s[0]] + p.0, p.1))
  }

  lemma {:induction false} UntilQuoteReads(name: string, rest: string)
    requires Without(name, '"')
    ensures ReadUntilQuote(name + ("\"" + rest)) == Some((name, rest))
  {
    var s := name + ("\"" + rest);
    if name == "" {
      assert s == "\"" + rest && s[1..] == rest;
    } else {
      UntilQuoteReads(name[1..], rest);
      assert s[0] == name[0] && s[1..] == name[1..] + ("\"" + rest) && name == [name[0]] + name[1..];
    }
  }

  lemma NameReadsBack(name: string, rest: string)
    requires Without(name, '"')
    ensures ReadName(Ident(name) + rest) == Some((name, rest))
  {
    var s := Ident(name) + rest;
    UntilQuoteReads(name, rest);
    assert s[0] == '"' && s[1..] == name + ("\"" + rest);
  }

  /** The names up to the closing parenthesis. */
  function ReadNames(s: string): Option<(seq<string>, string)>
    decreases |s|
  {
    if s != "" && s[0] == ')' then Some(([], s[1..]))
    else
      match ReadName(s)
      case None => None
      case Some(p) =>
        if p.1 != "" && p.1[0] == ')' then Some(([p.0], p.1[1..]))
        else if ", " <= p.1 then
          match ReadNames(p.1[2..])
          case None => None
          case Some(q) => Some(([p.0] + q.0, q.1))
        else None
  }

  function Names(columns: seq<Column>): seq<string> {
    seq(|columns|, i requires 0 <= i < |columns| => columns[i].name)
  }

  predicate PlainNames(columns: seq<Column>) {
    forall i :: 0 <= i < |columns| ==> Without(columns[i].name, '"')
  }

  lemma ColumnListParts(columns: seq<Column>)
    ensures columns == [] ==> ColumnList(columns) == ""
    ensures |columns| == 1 ==> ColumnList(columns) == Ident(columns[0].name)
    ensures |columns| > 1 ==> ColumnList(columns) == Ident(columns[0].name) + (", " + ColumnList(columns[1..]))
  {
    if |columns| > 1 {
      var all := seq(|columns|, i requires 0 <= i < |columns| => Ident(columns[i].name));
      var rest := seq(|columns[1..]|, i requires 0 <= i < |columns[1..]| => Ident(columns[1..][i].name));
      assert all[1..] == rest;
    }
  }

  lemma {:induction false} NamesReadBack(columns: seq<Column>, rest: string)
    requires PlainNames(columns)
    ensures ReadNames(ColumnList(columns) + (")" + rest)) == Some((Names(columns), rest))
  {
    var s := ColumnList(columns) + (")" + rest);
    ColumnListParts(columns);
    if columns == [] {
      assert s == ")" + rest && s[1..] == rest;
    } else if |columns| == 1 {
      NameReadsBack(columns[0].name, ")" + rest);
      assert s[0] == '"' && (")" + rest)[1..] == rest && Names(columns) == [columns[0].name];
    } else {
      var tail := ColumnList(columns[1..]) + (")" + rest);
      NamesReadBack(columns[1..], rest);
      assert s == Ident(columns[0].name) + (", " + tail);
      NextNameReads(columns[0].name, s, tail, Names(columns[1..]), rest);
      assert Names(columns) == [columns[0].name] + Names(columns[1..]);
    }
  }

  lemma NextNameReads(name: string, s: string, tail: string, more: seq<string>, rest: string)
    requires Without(name, '"') && s == Ident(name) + (", " + tail) && ReadNames(tail) == Some((more, rest))
    ensures ReadNames(s) == Some(([name] + more, rest))
  {
    var after := ", " + tail;
    NameReadsBack(name, after);
    assert s[0] == '"' && ", " <= after && after[2..] == tail;
  }

  /** What a statement inserts. */
  datatype Insert = Insert(table: string, columns: seq<string>, rows: seq<seq<Cell>>)

  /** The text behind a fixed piece, if it stands at the front. */
  function Behind(piece: string, s: string): Option<string> {
    if piece <= s then Some(s[|piece|..]) else None
  }

  lemma BehindPiece(piece: string, rest: string)
    ensures Behind(piece, piece + rest) == Some(rest)
  {
    assert piece <= piece + rest && (piece + rest)[|piece|..] == rest;
  }

  function ReadInsert(s: string): Option<Insert> {
    match Behind("INSERT INTO ", s)
    case None => None
    case Some(named) =>
      match ReadName(named)
      case None => None
      case Some(p) =>
        match Behind(" (", p.1)
        case None => None
        case Some(listed) => ReadValues(p.0, listed)
  }

  function ReadValues(table: string, s: string): Option<Insert> {
    match ReadNames(s)
    case None => None
    case Some(p) =>
      match Behind(" VALUES\n", p.1)
      case None => None
      case Some(values) =>
        match ReadRows(values)
        case None => None
        case Some(rows) => Some(Insert(table, p.0, rows))
  }

  /** An emitted INSERT reads back as its table, its columns in order, and its rows with each cell under its column. */
  lemma InsertReadsBack(name: string, columns: seq<Column>, rows: seq<seq<Cell>>)
    requires Without(name, '"') && PlainNames(columns) && rows != [] && ReadableRows(rows)
    ensures ReadInsert(InsertText(name, columns, rows)) == Some(Insert(name, Names(columns), rows))
  {
    var values := JoinWith(RowTexts(rows), ",\n") + INSERT_END;
    var listed := ColumnList(columns) + (")" + (" VALUES\n" + values));
    assert ") VALUES\n" + values == ")" + (" VALUES\n" + values);
    assert InsertText(name, columns, rows) == "INSERT INTO " + (Ident(name) + (" (" + listed));
    BehindPiece("INSERT INTO ", Ident(name) + (" (" + listed));
    NameReadsBack(name, " (" + listed);
    BehindPiece(" (", listed);
    ValuesReadBack(name, columns, rows, values);
  }

  lemma ValuesReadBack(name: string, columns: seq<Column>, rows: seq<seq<Cell>>, values: string)
    requires PlainNames(columns) && rows != [] && ReadableRows(rows) && values == JoinWith(RowTexts(rows), ",\n") + INSERT_END
    ensures ReadValues(name, ColumnList(columns) + (")" + (" VALUES\n" + values))) == Some(Insert(name, Names(columns), rows))
  {
    NamesReadBack(columns, " VALUES\n" + values);
    BehindPiece(" VALUES\n", values);
    RowsReadBack(rows);
  }
}
