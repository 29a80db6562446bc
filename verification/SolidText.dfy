/** Texts that the splitter keeps as one piece of a statement, and sections of a script that split on their own. */
module SolidText {
  import opened Text
  import opened SqlSplitter
  import opened SplitterLaws

  /** A single-quoted literal: inner quotes are doubled. */
  function Doubled(text: string): string {
    if text == "" then ""
    else if text[0] == '\'' then "''" + Doubled(text[1..])
    else [text[0]] + Doubled(text[1..])
  }

  function Quote(text: string): string {
    "'" + Doubled(text) + "'"
  }

  // ---- Text that is one piece of a statement whatever surrounds it ----

  ghost predicate Solid(b: string) {
    forall c :: Clean(b, c, Plain, Plain)
  }

  lemma SolidConcat(a: string, b: string)
    requires Solid(a) && Solid(b)
    ensures Solid(a + b)
  {
    forall c ensures Clean(a + b, c, Plain, Plain) {
      CleanConcat(a, b, c, Plain, Plain, Plain);
    }
  }

  predicate Inert(c: char) {
    c != '\'' && c != '"' && c != '$' && c != ';' && c != '-'
  }

  predicate InertText(s: string) {
    forall i :: 0 <= i < |s| ==> Inert(s[i])
  }

  /** Rendered numbers may hold dashes (signs, exponents), but no two in a row and none at the end. */
  predicate NumberText(t: string) {
    && t != ""
    && (Inert(t[0]) || (t[0] == '-' && |t| > 1 && Inert(t[1])))
    && (|t| == 1 || NumberText(t[1..]))
  }

  lemma CharThenSolid(s: string)
    requires s != "" && Solid(s[1..]) && (Inert(s[0]) || (s[0] == '-' && |s| > 1 && Inert(s[1])))
    ensures Solid(s)
  {
    forall c ensures Clean(s, c, Plain, Plain) {
      assert (s + c)[0] == s[0] && (|s| > 1 ==> (s + c)[1] == s[1]);
      assert NextToken(s + c, Plain) == Keep(1, Plain);
      assert Clean(s[1..], c, Plain, Plain);
    }
  }

  lemma {:induction false} InertTextIsSolid(s: string)
    requires InertText(s)
    ensures Solid(s)
  {
    if s != "" {
      InertTextIsSolid(s[1..]);
      CharThenSolid(s);
    }
  }

  lemma {:induction false} NumberTextIsSolid(t: string)
    requires NumberText(t)
    ensures Solid(t)
  {
    if |t| > 1 {
      NumberTextIsSolid(t[1..]);
    } else {
      InertTextIsSolid(t[1..]);
    }
    CharThenSolid(t);
  }

  lemma {:induction false} QuotedTextRuns(text: string, c: string)
    ensures Clean(Doubled(text), "'" + c, Single, Single)
  {
    if text != "" {
      var rest := Doubled(text[1..]);
      QuotedTextRuns(text[1..], c);
      if text[0] == '\'' {
        var b := "''" + rest;
        assert b[1..] == "'" + rest && b[1..][1..] == rest;
        PlainQuoteReopens(rest, "'" + c);
      } else {
        assert ([text[0]] + rest)[1..] == rest;
      }
    }
  }

  lemma PlainQuoteReopens(rest: string, c: string)
    requires Clean(rest, c, Single, Single)
    ensures Clean("'" + rest, c, Plain, Single)
  {
    assert ("'" + rest)[1..] == rest;
  }

  lemma QuoteIsSolid(text: string)
    ensures Solid(Quote(text))
  {
    forall c ensures Clean(Quote(text), c, Plain, Plain) {
      QuotedTextRuns(text, c);
      assert Clean("'", Doubled(text) + "'" + c, Plain, Single) by { assert "'"[1..] == ""; }
      assert Clean("'", c, Single, Plain) by { assert "'"[1..] == ""; }
      CleanConcat(Doubled(text), "'", c, Single, Single, Plain);
      assert Doubled(text) + "'" + c == (Doubled(text) + "'") + c;
      CleanConcat("'", Doubled(text) + "'", c, Plain, Single, Plain);
      assert Quote(text) == "'" + (Doubled(text) + "'");
    }
  }

  /** Names and fixed texts that cannot close the quotes or bodies they are put into. */
  predicate Without(s: string, c: char) {
    forall i :: 0 <= i < |s| ==> s[i] != c
  }

  function Ident(name: string): string {
    "\"" + name + "\""
  }

  lemma {:induction false} NameRuns(name: string, c: string)
    requires Without(name, '"')
    ensures Clean(name, c, Double, Double)
  {
    if name != "" {
      assert (name + c)[0] == name[0];
      NameRuns(name[1..], c);
    }
  }

  lemma IdentIsSolid(name: string)
    requires Without(name, '"')
    ensures Solid(Ident(name))
  {
    forall c ensures Clean(Ident(name), c, Plain, Plain) {
      var q := "\"";
      NameRuns(name, q + c);
      assert Clean(q, c, Double, Plain) by { assert q[1..] == ""; }
      CleanConcat(name, q, c, Double, Double, Plain);
      assert Clean(q, (name + q) + c, Plain, Double) by { assert q[1..] == ""; }
      CleanConcat(q, name + q, c, Plain, Double, Plain);
      assert Ident(name) == q + (name + q);
    }
  }

  /** A name that ends in a double quote, which is not escaped, leaves the scanner inside quotes: the restriction is needed. */
  lemma UnescapedQuoteStaysOpen(name: string, c: string)
    requires Without(name, '"')
    ensures Clean(Ident(name + "\""), c, Plain, Double)
  {
    var q := "\"";
    var qq := q + q;
    assert Clean(q, c, Plain, Double) by { assert q[1..] == ""; }
    assert Clean(q, q + c, Double, Plain) by { assert q[1..] == ""; }
    CleanConcat(q, q, c, Double, Plain, Double);
    NameRuns(name, qq + c);
    CleanConcat(name, qq, c, Double, Double, Double);
    assert Clean(q, (name + qq) + c, Plain, Double) by { assert q[1..] == ""; }
    CleanConcat(q, name + qq, c, Plain, Double, Double);
    assert Ident(name + q) == q + (name + qq);
  }

  // ---- Bodies between dollar delimiters ----

  /** `$$`, or a name between dollar signs that does not start with a digit. */
  predicate IsDelimiter(tag: string) {
    IsTag(tag) && (|tag| == 2 || IdentStart(tag[1]))
  }

  /** In the body and the delimiter behind it, the delimiter occurs at the very end only. */
  predicate ClosedOnlyByEnd(tag: string, body: string) {
    forall i :: 0 <= i < |body| ==> !(tag <= (body + tag)[i..])
  }

  lemma DelimiterIsFound(tag: string, c: string)
    requires IsDelimiter(tag)
    ensures Clean(tag, c, Plain, Dollar(tag))
  {
    var s, n := tag + c, |tag|;
    assert s[..n] == tag && forall i :: 0 <= i < n ==> s[i] == tag[i];
    var run := IdentRun(s[1..]);
    assert forall i :: 0 <= i < run ==> s[1..][i] == s[i + 1];
    assert forall i :: 0 <= i < n - 2 ==> s[1..][i] == tag[i + 1];
    assert s[1..][n - 2] == '$';
    assert run == n - 2;
    assert TagLength(s) == n;
    assert tag[n..] == "";
  }

  lemma NotPrefixOfMore(tag: string, s: string, c: string)
    requires |tag| <= |s| && !(tag <= s)
    ensures !(tag <= s + c)
  {
    assert (s + c)[..|tag|] == s[..|tag|];
  }

  lemma {:induction false} TaggedBodyRuns(tag: string, body: string, i: nat, c: string)
    requires IsDelimiter(tag) && ClosedOnlyByEnd(tag, body) && i <= |body|
    ensures Clean(body[i..], tag + c, Dollar(tag), Dollar(tag))
    decreases |body| - i
  {
    if i < |body| {
      TaggedBodyRuns(tag, body, i + 1, c);
      assert body[i..] + (tag + c) == (body + tag)[i..] + c;
      NotPrefixOfMore(tag, (body + tag)[i..], c);
      assert body[i..][1..] == body[i + 1..];
    }
  }

  /** A body is kept whole, whatever is in it, up to the first repetition of its own delimiter. */
  lemma TaggedBodyIsSolid(tag: string, body: string)
    requires IsDelimiter(tag) && ClosedOnlyByEnd(tag, body)
    ensures Solid(tag + (body + tag))
  {
    forall c ensures Clean(tag + (body + tag), c, Plain, Plain) {
      TaggedBodyRuns(tag, body, 0, c);
      assert body[0..] == body;
      assert Clean(tag, c, Dollar(tag), Plain) by { assert tag <= tag + c && tag[|tag|..] == ""; }
      CleanConcat(body, tag, c, Dollar(tag), Dollar(tag), Plain);
      DelimiterIsFound(tag, (body + tag) + c);
      CleanConcat(tag, body + tag, c, Plain, Dollar(tag), Plain);
    }
  }

  lemma DollarBodyIsSolid(body: string)
    requires Without(body, '$')
    ensures Solid("$$" + (body + "$$"))
  {
    var tag := "$$";
    forall i | 0 <= i < |body| ensures !(tag <= (body + tag)[i..]) {
      assert (body + tag)[i..][0] == body[i];
    }
    TaggedBodyIsSolid(tag, body);
  }

  lemma {:induction false} JoinIsSolid(parts: seq<string>, sep: string)
    requires InertText(sep) && forall i :: 0 <= i < |parts| ==> Solid(parts[i])
    ensures Solid(JoinWith(parts, sep))
  {
    if parts == [] {
      InertTextIsSolid("");
    } else if |parts| > 1 {
      JoinIsSolid(parts[1..], sep);
      InertTextIsSolid(sep);
      SolidConcat(sep, JoinWith(parts[1..], sep));
      SolidConcat(parts[0], sep + JoinWith(parts[1..], sep));
    }
  }

  // ---- Sections ----

  function Flatten(outs: seq<seq<string>>): seq<string> {
    if outs == [] then [] else outs[0] + Flatten(outs[1..])
  }

  predicate LineBreaks(s: string) {
    s != "" && s[0] == '\n' && Blank(s)
  }

  /** Followed by a line break, the text splits into exactly these statements and leaves nothing behind. */
  ghost predicate Yields(text: string, out: seq<string>) {
    forall rest {:trigger Split(text + rest, Plain, "")} ::
      rest != "" && rest[0] == '\n' ==> Split(text + rest, Plain, "") == out + Split(rest, Plain, "")
  }

  /** Blank text already collected makes no difference. */
  lemma {:induction false} BlankStartIsForgotten(s: string, m: Mode, w: string, buf: string)
    requires ValidMode(m) && Blank(w)
    ensures Split(s, m, w + buf) == Split(s, m, buf)
    decreases |s|
  {
    StripIgnoresBlankPrefix(w, buf);
    if s != "" {
      match NextToken(s, m)
      case Keep(n, next) =>
        BlankStartIsForgotten(s[n..], next, w, buf + s[..n]);
        KeptBehindBlanks(s, m, w, buf, n, next);
      case Comment(n) =>
        BlankStartIsForgotten(s[n..], m, w, buf);
      case Semicolon =>
    }
  }

  lemma KeptBehindBlanks(s: string, m: Mode, w: string, buf: string, n: nat, next: Mode)
    requires s != "" && ValidMode(m) && NextToken(s, m) == Keep(n, next)
    requires Split(s[n..], next, w + (buf + s[..n])) == Split(s[n..], next, buf + s[..n])
    ensures Split(s, m, w + buf) == Split(s, m, buf)
  {
    KeepStep(s, m, buf, n, next);
    KeepStep(s, m, w + buf, n, next);
    assert w + buf + s[..n] == w + (buf + s[..n]);
  }

  lemma {:induction false} BlanksAreSkipped(w: string, rest: string)
    requires Blank(w)
    ensures Split(w + rest, Plain, "") == Split(rest, Plain, "")
  {
    if w == "" {
      assert w + rest == rest;
    } else {
      BlankToken(w, rest, Plain);
      KeepStep(w + rest, Plain, "", 1, Plain);
      assert (w + rest)[1..] == w[1..] + rest && (w + rest)[..1] == w[..1] && "" + w[..1] == w[..1] + "";
      BlankStartIsForgotten(w[1..] + rest, Plain, w[..1], "");
      BlanksAreSkipped(w[1..], rest);
    }
  }

  lemma CommentLineYieldsNothing(line: string)
    requires Without(line, '\n')
    ensures Yields("--" + line, [])
  {
    forall rest | rest != "" && rest[0] == '\n'
      ensures Split("--" + line + rest, Plain, "") == [] + Split(rest, Plain, "")
    {
      var s := "--" + line + rest;
      assert StartsComment(s);
      LineEndsAt("--" + line, rest);
      CommentStep(s, "");
      assert s[|"--" + line|..] == rest;
    }
  }

  lemma {:induction false} LineEndsAt(line: string, rest: string)
    requires Without(line, '\n') && rest != "" && rest[0] == '\n'
    ensures LineLength(line + rest) == |line|
  {
    if line == "" {
      assert line + rest == rest;
    } else {
      assert (line + rest)[0] == line[0] && (line + rest)[1..] == line[1..] + rest;
      LineEndsAt(line[1..], rest);
    }
  }

  predicate Trimmed(st: string) {
    st != "" && !IsSpace(st[0]) && !IsSpace(st[|st| - 1])
  }

  lemma StatementYieldsItself(st: string)
    requires Solid(st) && Trimmed(st)
    ensures Yields(st + ";", [st])
  {
    assert Clean(st, "", Plain, Plain);
    forall rest | rest != "" && rest[0] == '\n'
      ensures Split(st + ";" + rest, Plain, "") == [st] + Split(rest, Plain, "")
    {
      FirstStatementSplitsOff(st, rest);
      assert st + ";" + rest == st + (";" + rest);
    }
  }

  lemma YieldsConcat(a: string, sep: string, b: string, outA: seq<string>, outB: seq<string>)
    requires Yields(a, outA) && Yields(b, outB) && LineBreaks(sep)
    ensures Yields(a + (sep + b), outA + outB)
  {
    forall rest | rest != "" && rest[0] == '\n'
      ensures Split(a + (sep + b) + rest, Plain, "") == outA + outB + Split(rest, Plain, "")
    {
      assert a + (sep + b) + rest == a + (sep + (b + rest));
      assert (sep + (b + rest))[0] == '\n';
      BlanksAreSkipped(sep, b + rest);
      assert Split(a + (sep + (b + rest)), Plain, "") == outA + Split(sep + (b + rest), Plain, "");
      assert outA + (outB + Split(rest, Plain, "")) == outA + outB + Split(rest, Plain, "");
    }
  }

  lemma {:induction false} JoinYields(parts: seq<string>, sep: string, outs: seq<seq<string>>)
    requires |parts| == |outs| > 0 && LineBreaks(sep)
    requires forall i :: 0 <= i < |parts| ==> Yields(parts[i], outs[i])
    ensures Yields(JoinWith(parts, sep), Flatten(outs))
  {
    assert outs[1..] == [] ==> Flatten(outs) == outs[0];
    if |parts| > 1 {
      JoinYields(parts[1..], sep, outs[1..]);
      YieldsConcat(parts[0], sep, JoinWith(parts[1..], sep), outs[0], Flatten(outs[1..]));
    }
  }
}
