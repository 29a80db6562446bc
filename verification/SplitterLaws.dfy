/** Splitting is stable, and additive at neutral points of a script. */
module SplitterLaws {
  import opened Text
  import opened SqlSplitter

  // ---- Text that the scanner keeps whole ----

  /** Scanned from mode m with c still to come, b is kept unchanged and leaves the scanner, at its very end, in m'. */
  ghost predicate Clean(b: string, c: string, m: Mode, m': Mode)
    requires ValidMode(m)
    decreases |b|
  {
    if b == "" then m == m'
    else match NextToken(b + c, m)
      case Keep(n, next) => n <= |b| && Clean(b[n..], c, next, m')
      case _ => false
  }

  lemma {:induction false} CleanTextIsKept(b: string, c: string, m: Mode, m': Mode, buf: string)
    requires ValidMode(m) && ValidMode(m') && Clean(b, c, m, m')
    ensures Split(b + c, m, buf) == Split(c, m', buf + b)
    decreases |b|
  {
    if b == "" {
      assert b + c == c && buf + b == buf;
    } else {
      var t := NextToken(b + c, m);
      assert (b + c)[t.len..] == b[t.len..] + c && (b + c)[..t.len] == b[..t.len];
      CleanTextIsKept(b[t.len..], c, t.next, m', buf + b[..t.len]);
      assert buf + b[..t.len] + b[t.len..] == buf + b;
    }
  }

  lemma {:induction false} CleanConcat(a: string, b: string, c: string, m: Mode, m1: Mode, m2: Mode)
    requires ValidMode(m) && ValidMode(m1) && Clean(a, b + c, m, m1) && Clean(b, c, m1, m2)
    ensures Clean(a + b, c, m, m2)
    decreases |a|
  {
    if a == "" {
      assert a + b == b;
    } else {
      assert a + b + c == a + (b + c);
      var t := NextToken(a + (b + c), m);
      assert (a + b)[t.len..] == a[t.len..] + b;
      CleanConcat(a[t.len..], b, c, t.next, m1, m2);
    }
  }

  /** What comes next cannot complete a comment mark or a delimiter. */
  predicate Breaks(c: string) {
    c == "" || (c[0] != '-' && c[0] != '$' && !IdentPart(c[0]))
  }

  lemma RunInContext(b: string, c: string)
    ensures IdentRun(b) < |b| ==> IdentRun(b + c) == IdentRun(b)
    ensures IdentRun(b) == |b| ==> IdentRun(b + c) == |b| + IdentRun(c)
  {
    if b == "" {
      assert b + c == c;
    } else {
      assert (b + c)[1..] == b[1..] + c;
      RunInContext(b[1..], c);
    }
  }

  /** A token that fits inside b does not depend on what follows b, once what follows breaks. */
  lemma TokenInContext(b: string, c1: string, c2: string, m: Mode)
    requires b != "" && ValidMode(m) && Breaks(c2)
    requires NextToken(b + c1, m).Keep? && NextToken(b + c1, m).len <= |b|
    ensures NextToken(b + c2, m) == NextToken(b + c1, m)
  {
    match m
    case Dollar(tag) =>
      if |tag| <= |b| {
        assert tag <= b + c1 <==> tag <= b;
        assert tag <= b + c2 <==> tag <= b;
      } else if c2 != "" {
        NotPrefix(tag, b + c2, |b|);
      }
    case Plain =>
      if b[0] == '$' {
        TagInContext(b, c1, c2);
      }
    case _ =>
  }

  lemma NotPrefix(p: string, s: string, k: nat)
    requires k < |p| && k < |s| && p[k] != s[k]
    ensures !(p <= s)
  {
  }

  lemma TagInContext(b: string, c1: string, c2: string)
    requires b != "" && b[0] == '$' && Breaks(c2)
    requires TagLength(b + c1) <= |b|
    ensures TagLength(b + c2) == TagLength(b + c1)
    ensures (b + c2)[..TagLength(b + c2)] == (b + c1)[..TagLength(b + c1)]
  {
    assert (b + c1)[1..] == b[1..] + c1 && (b + c2)[1..] == b[1..] + c2;
    RunInContext(b[1..], c1);
    RunInContext(b[1..], c2);
  }

  lemma {:induction false} CleanInContext(b: string, c1: string, c2: string, m: Mode, m': Mode)
    requires ValidMode(m) && Breaks(c2) && Clean(b, c1, m, m')
    ensures Clean(b, c2, m, m')
    decreases |b|
  {
    if b != "" {
      TokenInContext(b, c1, c2, m);
      var t := NextToken(b + c1, m);
      CleanInContext(b[t.len..], c1, c2, t.next, m');
    }
  }

  // ---- Blank ends ----

  lemma BlankToken(w: string, c: string, m: Mode)
    requires w != "" && Blank(w) && ValidMode(m)
    ensures NextToken(w + c, m) == Keep(1, m)
  {
    assert IsSpace(w[0]) && (w + c)[0] == w[0];
    if m.Dollar? && m.tag <= w + c {
      assert false;
    }
  }

  lemma {:induction false} BlanksKeepMode(w: string, c: string, m: Mode, m': Mode)
    requires Blank(w) && ValidMode(m) && Clean(w, c, m, m')
    ensures m == m'
    decreases |w|
  {
    if w != "" {
      BlankToken(w, c, m);
      BlanksKeepMode(w[1..], c, m, m');
    }
  }

  lemma {:induction false} DropLeadingBlanks(w: string, x: string, c: string, m: Mode, m': Mode)
    requires Blank(w) && ValidMode(m) && Clean(w + x, c, m, m')
    ensures Clean(x, c, m, m')
    decreases |w|
  {
    if w == "" {
      assert w + x == x;
    } else {
      assert w + x + c == w + (x + c);
      BlankToken(w, x + c, m);
      assert (w + x)[1..] == w[1..] + x;
      DropLeadingBlanks(w[1..], x, c, m, m');
    }
  }

  lemma {:induction false} DropTrailingBlanks(x: string, w: string, c: string, m: Mode, m': Mode)
    requires Blank(w) && ValidMode(m) && Clean(x + w, c, m, m')
    ensures Clean(x, w + c, m, m')
    decreases |x|
  {
    if x == "" {
      assert x + w == w;
      BlanksKeepMode(w, c, m, m');
    } else {
      assert x + w + c == x + (w + c);
      var t := NextToken(x + (w + c), m);
      TokenEndsBeforeBlank(x, w, c, m);
      assert (x + w)[t.len..] == x[t.len..] + w;
      DropTrailingBlanks(x[t.len..], w, c, t.next, m');
    }
  }

  lemma TokenEndsBeforeBlank(x: string, w: string, c: string, m: Mode)
    requires x != "" && Blank(w) && ValidMode(m)
    requires NextToken(x + (w + c), m).Keep? && NextToken(x + (w + c), m).len <= |x + w|
    ensures NextToken(x + (w + c), m).len <= |x|
  {
    var s := x + (w + c);
    if NextToken(s, m).len > 1 { LongTokenIsTag(s, m); }
    assert w != "" ==> s[|x|] == w[0] && IsSpace(w[0]);
  }

  lemma LongTokenIsTag(s: string, m: Mode)
    requires s != "" && ValidMode(m) && NextToken(s, m).Keep? && NextToken(s, m).len > 1
    ensures forall i :: 0 <= i < NextToken(s, m).len ==> s[i] == '$' || IdentPart(s[i])
  {
    var n := NextToken(s, m).len;
    var tag := if m.Dollar? then m.tag else s[..n];
    assert forall i :: 0 <= i < n ==> s[i] == tag[i];
  }

  /** Stripping a kept text keeps it clean. */
  lemma CleanStrip(b: string, c: string, m': Mode)
    requires Clean(b, c, Plain, m')
    ensures Clean(Strip(b), "", Plain, m')
  {
    var before, after := StripRemovesBlankEnds(b);
    DropLeadingBlanks(before, Strip(b) + after, c, Plain, m');
    DropTrailingBlanks(Strip(b), after, c, Plain, m');
    CleanInContext(Strip(b), after + c, "", Plain, m');
  }

  // ---- Splitting again changes nothing ----

  /** A complete statement as the splitter returns it. */
  ghost predicate Canonical(st: string) {
    st != "" && Strip(st) == st && Clean(st, "", Plain, Plain)
  }

  /** The last statement may stop inside an unclosed quote or body. */
  ghost predicate CanonicalTail(st: string) {
    st != "" && Strip(st) == st && exists m :: ValidMode(m) && Clean(st, "", Plain, m)
  }

  ghost predicate CanonicalList(ss: seq<string>) {
    (forall i :: 0 <= i < |ss| - 1 ==> Canonical(ss[i])) && (ss != [] ==> CanonicalTail(ss[|ss| - 1]))
  }

  lemma FlushIsCanonical(buf: string, c: string, m: Mode)
    requires ValidMode(m) && Clean(buf, c, Plain, m)
    ensures CanonicalList(Flush(buf))
    ensures m == Plain ==> forall i :: 0 <= i < |Flush(buf)| ==> Canonical(Flush(buf)[i])
  {
    CleanStrip(buf, c, m);
  }

  /** Every script, closed or not, splits into canonical statements. */
  lemma {:induction false} SplitIsCanonical(s: string, m: Mode, buf: string)
    requires ValidMode(m) && Clean(buf, s, Plain, m)
    ensures CanonicalList(Split(s, m, buf))
    decreases |s|
  {
    if s == "" {
      FlushIsCanonical(buf, s, m);
    } else {
      match NextToken(s, m)
      case Keep(n, next) =>
        KeptIsClean(s, m, buf, n, next);
        SplitIsCanonical(s[n..], next, buf + s[..n]);
      case Comment(n) =>
        CleanInContext(buf, s, s[n..], Plain, m);
        SplitIsCanonical(s[n..], m, buf);
      case Semicolon =>
        FlushIsCanonical(buf, s, m);
        SplitIsCanonical(s[1..], Plain, "");
        CanonicalThenList(Flush(buf), Split(s[1..], Plain, ""));
    }
  }

  lemma KeptIsClean(s: string, m: Mode, buf: string, n: nat, next: Mode)
    requires s != "" && ValidMode(m) && Clean(buf, s, Plain, m) && NextToken(s, m) == Keep(n, next)
    ensures Clean(buf + s[..n], s[n..], Plain, next)
  {
    assert s[..n] + s[n..] == s;
    assert Clean(s[..n], s[n..], m, next) by { assert s[..n][n..] == ""; }
    CleanConcat(buf, s[..n], s[n..], Plain, m, next);
  }

  lemma CanonicalThenList(done: seq<string>, more: seq<string>)
    requires (forall i :: 0 <= i < |done| ==> Canonical(done[i])) && CanonicalList(done) && CanonicalList(more)
    ensures CanonicalList(done + more)
  {
    var all := done + more;
    forall i | 0 <= i < |all| - 1 ensures Canonical(all[i]) {
      if i >= |done| { assert all[i] == more[i - |done|]; }
    }
    assert more != [] ==> all[|all| - 1] == more[|more| - 1];
    assert more == [] ==> all == done;
  }

  function Join(ss: seq<string>): string {
    if ss == [] then "" else if |ss| == 1 then ss[0] else ss[0] + (";" + Join(ss[1..]))
  }

  lemma FirstStatementSplitsOff(st: string, rest: string)
    requires Canonical(st)
    ensures Statements(st + (";" + rest)) == [st] + Statements(rest)
  {
    var tail := ";" + rest;
    CleanInContext(st, "", tail, Plain, Plain);
    CleanTextIsKept(st, tail, Plain, Plain, "");
    assert "" + st == st && tail[1..] == rest;
    SemicolonStep(tail, st, []);
    assert [] + Flush(st) == [st];
  }

  lemma LastStatementSplitsOff(st: string)
    requires CanonicalTail(st)
    ensures Statements(st) == [st]
  {
    var m :| ValidMode(m) && Clean(st, "", Plain, m);
    CleanTextIsKept(st, "", Plain, m, "");
    assert st + "" == st && "" + st == st;
  }

  lemma {:induction false} JoinedListSplitsBack(ss: seq<string>)
    requires CanonicalList(ss)
    ensures Statements(Join(ss)) == ss
  {
    if |ss| == 1 {
      LastStatementSplitsOff(ss[0]);
    } else if |ss| > 1 {
      JoinedListSplitsBack(ss[1..]);
      FirstStatementSplitsOff(ss[0], Join(ss[1..]));
    }
  }

  /** Joining the statements of any script with semicolons and splitting again returns the same statements. */
  lemma SplittingIsStable(sql: string)
    ensures Statements(Join(Statements(sql))) == Statements(sql)
  {
    SplitIsCanonical(sql, Plain, "");
    JoinedListSplitsBack(Statements(sql));
  }

  // ---- Splitting is a homomorphism at neutral points ----

  /** Scanning a from mode m ends outside quotes, bodies and comments. */
  predicate EndsNeutral(a: string, m: Mode)
    requires ValidMode(m)
    decreases |a|
  {
    if a == "" then m == Plain
    else match NextToken(a, m)
      case Keep(n, next) => EndsNeutral(a[n..], next)
      case Comment(n) => n < |a| && EndsNeutral(a[n..], m)
      case Semicolon => EndsNeutral(a[1..], Plain)
  }

  lemma LineInContext(a: string, c: string)
    requires LineLength(a) < |a|
    ensures LineLength(a + c) == LineLength(a)
  {
    if a[0] != '\n' {
      assert (a + c)[1..] == a[1..] + c;
      LineInContext(a[1..], c);
    }
  }

  /** The next token of a neutral text is not changed by a semicolon behind it. */
  lemma NeutralToken(a: string, b: string, m: Mode)
    requires a != "" && ValidMode(m) && EndsNeutral(a, m)
    ensures NextToken(a + (";" + b), m) == NextToken(a, m)
  {
    assert a + "" == a;
    match NextToken(a, m)
    case Keep(_, _) => TokenInContext(a, "", ";" + b, m);
    case Comment(_) => LineInContext(a, ";" + b);
    case Semicolon =>
  }

  lemma {:induction false} SplitAtSemicolonFrom(a: string, b: string, m: Mode, buf: string, done: seq<string>)
    requires ValidMode(m) && EndsNeutral(a, m)
    ensures done + Split(a + (";" + b), m, buf) == done + Split(a, m, buf) + Split(b, Plain, "")
    decreases |a|
  {
    if a == "" {
      var c := ";" + b;
      assert a + c == c && c[1..] == b;
      SemicolonStep(c, buf, done);
    } else {
      NeutralToken(a, b, m);
      match NextToken(a, m)
      case Keep(n, next) =>
        SplitAtSemicolonFrom(a[n..], b, next, buf + a[..n], done);
        KeepBoth(a, ";" + b, m, buf, n, next);
      case Comment(n) =>
        SplitAtSemicolonFrom(a[n..], b, m, buf, done);
        CommentBoth(a, ";" + b, buf, n);
      case Semicolon =>
        SplitAtSemicolonFrom(a[1..], b, Plain, "", done + Flush(buf));
        SemicolonBoth(a, ";" + b, buf, done);
    }
  }

  lemma KeepBoth(a: string, c: string, m: Mode, buf: string, n: nat, next: Mode)
    requires a != "" && ValidMode(m) && NextToken(a + c, m) == NextToken(a, m) == Keep(n, next)
    ensures Split(a + c, m, buf) == Split(a[n..] + c, next, buf + a[..n])
    ensures Split(a, m, buf) == Split(a[n..], next, buf + a[..n])
  {
    KeepStep(a + c, m, buf, n, next);
    KeepStep(a, m, buf, n, next);
    TailOfBoth(a, c, n);
  }

  lemma CommentBoth(a: string, c: string, buf: string, n: nat)
    requires a != "" && NextToken(a + c, Plain) == NextToken(a, Plain) == Comment(n)
    ensures Split(a + c, Plain, buf) == Split(a[n..] + c, Plain, buf)
    ensures Split(a, Plain, buf) == Split(a[n..], Plain, buf)
  {
    DropStep(a + c, buf, n);
    DropStep(a, buf, n);
    TailOfBoth(a, c, n);
  }

  lemma DropStep(s: string, buf: string, n: nat)
    requires s != "" && NextToken(s, Plain) == Comment(n)
    ensures n <= |s| && Split(s, Plain, buf) == Split(s[n..], Plain, buf)
  {
  }

  lemma TailOfBoth(a: string, c: string, n: nat)
    requires n <= |a|
    ensures (a + c)[n..] == a[n..] + c && (a + c)[..n] == a[..n]
  {
  }

  lemma SemicolonBoth(a: string, c: string, buf: string, done: seq<string>)
    requires a != "" && a[0] == ';'
    ensures done + Split(a + c, Plain, buf) == done + Flush(buf) + Split(a[1..] + c, Plain, "")
    ensures done + Split(a, Plain, buf) == done + Flush(buf) + Split(a[1..], Plain, "")
  {
    TailOfBoth(a, c, 1);
    assert (a + c)[0] == ';';
    SemicolonStep(a + c, buf, done);
    SemicolonStep(a, buf, done);
  }

  /** Two scripts, the first ending at a neutral point, split as if run one after the other. */
  lemma SplittingIsHomomorphic(a: string, b: string)
    requires EndsNeutral(a, Plain)
    ensures Statements(a + (";" + b)) == Statements(a) + Statements(b)
  {
    SplitAtSemicolonFrom(a, b, Plain, "", []);
    assert [] + Split(a + (";" + b), Plain, "") == Statements(a + (";" + b)) && [] + Split(a, Plain, "") == Statements(a);
  }
}
