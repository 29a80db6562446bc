/**
  Cutting a migration script into statements at semicolons, outside comments, quotes and dollar-quoted bodies
  (sections 4.1.2.1, 4.1.2.4 and 4.1.5 of the PostgreSQL manual).
*/
module SqlSplitter {
  import opened Text
  import opened Outcomes

  datatype Mode = Plain | Single | Double | Dollar(tag: string)

  /** One scanning step: text that is kept, a comment that is dropped, or the end of a statement. */
  datatype Token = Keep(len: nat, next: Mode) | Comment(len: nat) | Semicolon

  predicate IdentStart(c: char) {
    'A' <= c <= 'Z' || 'a' <= c <= 'z' || c == '_'
  }

  predicate IdentPart(c: char) {
    IdentStart(c) || '0' <= c <= '9'
  }

  function IdentRun(s: string): (n: nat)
    ensures n <= |s|
    ensures forall i :: 0 <= i < n ==> IdentPart(s[i])
    ensures n < |s| ==> !IdentPart(s[n])
  {
    if s != "" && IdentPart(s[0]) then 1 + IdentRun(s[1..]) else 0
  }

  /** Length of the dollar-quote delimiter that s starts with; 0 when it starts with none. */
  function TagLength(s: string): (n: nat)
    requires s != "" && s[0] == '$'
    ensures n <= |s| && (n > 0 ==> IsTag(s[..n]))
  {
    var run := IdentRun(s[1..]);
    if run + 1 < |s| && s[run + 1] == '$' && (run == 0 || IdentStart(s[1])) then
      assert forall i :: 0 < i < run + 1 ==> s[i] == s[1..][i - 1];
      run + 2
    else 0
  }

  predicate IsTag(t: string) {
    |t| >= 2 && t[0] == '$' && t[|t| - 1] == '$' && forall i :: 0 < i < |t| - 1 ==> IdentPart(t[i])
  }

  predicate ValidMode(m: Mode) {
    m.Dollar? ==> IsTag(m.tag)
  }

  /** Characters before the first line break. */
  function LineLength(s: string): (n: nat)
    ensures n <= |s| && (n < |s| ==> s[n] == '\n')
  {
    if s == "" || s[0] == '\n' then 0 else 1 + LineLength(s[1..])
  }

  predicate StartsComment(s: string) {
    |s| >= 2 && s[0] == '-' && s[1] == '-'
  }

  function NextToken(s: string, m: Mode): (t: Token)
    requires s != "" && ValidMode(m)
    ensures t.Keep? ==> 0 < t.len <= |s| && ValidMode(t.next)
    ensures t.Comment? ==> m == Plain && 0 < t.len <= |s|
    ensures t.Semicolon? ==> m == Plain && s[0] == ';'
  {
    match m
    case Dollar(tag) => if tag <= s then Keep(|tag|, Plain) else Keep(1, m)
    case Single => Keep(1, if s[0] == '\'' then Plain else Single)
    case Double => Keep(1, if s[0] == '"' then Plain else Double)
    case Plain =>
      if StartsComment(s) then Comment(LineLength(s))
      else if s[0] == '\'' then Keep(1, Single)
      else if s[0] == '"' then Keep(1, Double)
      else if s[0] == '$' && TagLength(s) > 0 then Keep(TagLength(s), Dollar(s[..TagLength(s)]))
      else if s[0] == ';' then Semicolon
      else Keep(1, Plain)
  }

  function Flush(buf: string): seq<string> {
    if Strip(buf) == "" then [] else [Strip(buf)]
  }

  /** The statements of the rest s of a script, scanned from mode m with buf already collected. */
  function Split(s: string, m: Mode, buf: string): seq<string>
    requires ValidMode(m)
    decreases |s|
  {
    if s == "" then Flush(buf)
    else match NextToken(s, m)
      case Keep(n, next) => Split(s[n..], next, buf + s[..n])
      case Comment(n) => Split(s[n..], m, buf)
      case Semicolon => Flush(buf) + Split(s[1..], Plain, "")
  }

  function Statements(sql: string): seq<string> {
    Split(sql, Plain, "")
  }

  // ---- The splitter itself ----

  lemma KeepStep(s: string, m: Mode, buf: string, n: nat, next: Mode)
    requires s != "" && ValidMode(m) && NextToken(s, m) == Keep(n, next)
    ensures Split(s, m, buf) == Split(s[n..], next, buf + s[..n])
  {
  }

  lemma CommentStep(s: string, buf: string)
    requires StartsComment(s)
    ensures Split(s, Plain, buf) == Split(s[LineLength(s)..], Plain, buf)
  {
  }

  lemma SemicolonStep(s: string, buf: string, done: seq<string>)
    requires s != "" && s[0] == ';'
    ensures done + Split(s, Plain, buf) == done + Flush(buf) + Split(s[1..], Plain, "")
  {
    assert Split(s, Plain, buf) == Flush(buf) + Split(s[1..], Plain, "");
  }

  /** Stands for Split; the scanner's loop needs no more than the three laws below about it. */
  type Splitter = (string, Mode, string) -> seq<string>

  ghost predicate IsSplit(split: Splitter) {
    forall s: string, m: Mode, buf: string {:trigger Split(s, m, buf)} :: ValidMode(m) ==> split(s, m, buf) == Split(s, m, buf)
  }

  /** Having cut `done` off and collected `buf`, scanning on from position i in mode m will produce `target`. */
  ghost predicate Owes(split: Splitter, sql: string, i: nat, m: Mode, buf: string, done: seq<string>, target: seq<string>) {
    i <= |sql| && ValidMode(m) && done + split(sql[i..], m, buf) == target
  }

  lemma OwesAfterKeep(split: Splitter, sql: string, i: nat, m: Mode, buf: string, done: seq<string>, target: seq<string>,
                      kept: string, next: Mode)
    requires IsSplit(split) && Owes(split, sql, i, m, buf, done, target) && i < |sql|
    requires NextToken(sql[i..], m) == Keep(|kept|, next) && i + |kept| <= |sql| && sql[i..i + |kept|] == kept
    ensures Owes(split, sql, i + |kept|, next, buf + kept, done, target)
  {
    assert sql[i..][|kept|..] == sql[i + |kept|..] && sql[i..][..|kept|] == kept;
    KeepStep(sql[i..], m, buf, |kept|, next);
  }

  lemma OwesAfterComment(split: Splitter, sql: string, i: nat, buf: string, done: seq<string>, target: seq<string>)
    requires IsSplit(split) && Owes(split, sql, i, Plain, buf, done, target) && StartsComment(sql[i..])
    ensures Owes(split, sql, i + LineLength(sql[i..]), Plain, buf, done, target)
  {
    assert sql[i..][LineLength(sql[i..])..] == sql[i + LineLength(sql[i..])..];
    CommentStep(sql[i..], buf);
  }

  lemma OwesAfterSemicolon(split: Splitter, sql: string, i: nat, buf: string, done: seq<string>, target: seq<string>)
    requires IsSplit(split) && Owes(split, sql, i, Plain, buf, done, target) && i < |sql| && sql[i] == ';'
    ensures Owes(split, sql, i + 1, Plain, "", done + Flush(buf), target)
  {
    assert sql[i..][1..] == sql[i + 1..];
    SemicolonStep(sql[i..], buf, done);
  }

  lemma OwesAtEnd(split: Splitter, sql: string, m: Mode, buf: string, done: seq<string>, target: seq<string>)
    requires IsSplit(split) && Owes(split, sql, |sql|, m, buf, done, target)
    ensures done + Flush(buf) == target
  {
    assert sql[|sql|..] == "" && Split("", m, buf) == Flush(buf);
  }

  /** The scanner's variables: what is cut off, what is collected, the position, and the three quoting flags. */
  datatype Scan = Scan(statements: seq<string>, buf: string, i: nat, inSingle: bool, inDouble: bool, inDollar: Option<string>)
  {
    ghost function Quoting(): Mode {
      if inDollar.Some? then Dollar(inDollar.value) else if inSingle then Single else if inDouble then Double else Plain
    }

    ghost predicate Owing(split: Splitter, sql: string, target: seq<string>) {
      && !(inSingle && inDouble) && (inDollar.Some? ==> !inSingle && !inDouble)
      && Owes(split, sql, i, Quoting(), buf, statements, target)
    }
  }

  method SplitStatements(sql: string) returns (statements: seq<string>)
    ensures statements == Statements(sql)
  {
    ghost var split: Splitter := (s, m, buf) => if ValidMode(m) then Split(s, m, buf) else [];
    assert sql[0..] == sql && [] + Split(sql, Plain, "") == Statements(sql);
    statements := ScanAll(sql, split, Statements(sql));
  }

  method ScanAll(sql: string, ghost split: Splitter, ghost target: seq<string>) returns (statements: seq<string>)
    requires IsSplit(split) && Owes(split, sql, 0, Plain, "", [], target)
    ensures statements == target
  {
    var scan := Scan([], "", 0, false, false, None);
    while scan.i < |sql|
      invariant scan.Owing(split, sql, target)
      decreases |sql| - scan.i
    {
      if scan.inDollar.Some? {
        scan := InsideBody(sql, scan, split, target);
      } else if !(scan.inSingle || scan.inDouble) && StartsComment(sql[scan.i..]) {
        scan := SkipComment(sql, scan, split, target);
      } else {
        scan := OutsideBody(sql, scan, split, target);
      }
    }
    OwesAtEnd(split, sql, scan.Quoting(), scan.buf, scan.statements, target);
    statements := scan.statements + Flush(scan.buf);
  }

  /** Inside a dollar-quoted body only its own delimiter means anything. */
  method InsideBody(sql: string, scan: Scan, ghost split: Splitter, ghost target: seq<string>) returns (scan': Scan)
    requires IsSplit(split) && scan.Owing(split, sql, target) && scan.i < |sql| && scan.inDollar.Some?
    ensures scan'.Owing(split, sql, target) && scan.i < scan'.i
  {
    var tag, ch := scan.inDollar.value, sql[scan.i];
    if tag <= sql[scan.i..] {
      OwesAfterKeep(split, sql, scan.i, scan.Quoting(), scan.buf, scan.statements, target, tag, Plain);
      scan' := scan.(buf := scan.buf + tag, i := scan.i + |tag|, inDollar := None);
    } else {
      OwesAfterKeep(split, sql, scan.i, scan.Quoting(), scan.buf, scan.statements, target, [ch], scan.Quoting());
      scan' := scan.(buf := scan.buf + [ch], i := scan.i + 1);
    }
  }

  method SkipComment(sql: string, scan: Scan, ghost split: Splitter, ghost target: seq<string>) returns (scan': Scan)
    requires IsSplit(split) && scan.Owing(split, sql, target) && scan.i < |sql| && scan.Quoting() == Plain
    requires StartsComment(sql[scan.i..])
    ensures scan'.Owing(split, sql, target) && scan.i < scan'.i
  {
    assert sql[scan.i] == '-' by { assert sql[scan.i..][0] == '-'; }
    OwesAfterComment(split, sql, scan.i, scan.buf, scan.statements, target);
    var i := EndOfLine(sql, scan.i);
    scan' := scan.(i := i);
  }

  /** One character outside bodies and comments: quotes toggle, a delimiter opens a body, a semicolon cuts. */
  method OutsideBody(sql: string, scan: Scan, ghost split: Splitter, ghost target: seq<string>) returns (scan': Scan)
    requires IsSplit(split) && scan.Owing(split, sql, target) && scan.i < |sql| && scan.inDollar.None?
    requires scan.Quoting() == Plain ==> !StartsComment(sql[scan.i..])
    ensures scan'.Owing(split, sql, target) && scan.i < scan'.i
  {
    var ch := sql[scan.i];
    assert sql[scan.i..][0] == ch && sql[scan.i..scan.i + 1] == [ch];
    var inSingle, inDouble := scan.inSingle, scan.inDouble;
    if ch == '\'' && !inDouble {
      inSingle := !inSingle;
    } else if ch == '"' && !inSingle {
      inDouble := !inDouble;
    } else if ch == '$' && !(inSingle || inDouble) {
      var n := TagLength(sql[scan.i..]);
      if n > 0 {
        var tag := sql[scan.i..][..n];
        OwesAfterKeep(split, sql, scan.i, Plain, scan.buf, scan.statements, target, tag, Dollar(tag));
        scan' := scan.(buf := scan.buf + tag, i := scan.i + |tag|, inDollar := Some(tag));
        return;
      }
    } else if ch == ';' && !(inSingle || inDouble) {
      OwesAfterSemicolon(split, sql, scan.i, scan.buf, scan.statements, target);
      scan' := scan.(statements := scan.statements + Flush(scan.buf), buf := "", i := scan.i + 1);
      return;
    }
    scan' := scan.(buf := scan.buf + [ch], i := scan.i + 1, inSingle := inSingle, inDouble := inDouble);
    OwesAfterKeep(split, sql, scan.i, scan.Quoting(), scan.buf, scan.statements, target, [ch], scan'.Quoting());
  }

  method EndOfLine(sql: string, start: nat) returns (i: nat)
    requires start < |sql| && sql[start] != '\n'
    ensures start < i <= |sql| && i == start + LineLength(sql[start..])
  {
    i := start;
    while i < |sql| && sql[i] != '\n'
      invariant start <= i <= |sql|
      invariant LineLength(sql[start..]) == (i - start) + LineLength(sql[i..])
    {
      assert sql[i..][1..] == sql[i + 1..];
      i := i + 1;
    }
  }
}
