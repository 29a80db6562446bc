/** What a log signature keeps and what it leaves out, character by character. */
module SignatureLaws {
  import opened Text
  import opened Signatures

  // ---- Assignments in a text ----

  predicate IsLetter(c: char) {
    'A' <= c <= 'Z' || 'a' <= c <= 'z' || c == '_'
  }

  predicate InKey(c: char) {
    IsLetter(c) || '0' <= c <= '9' || c == '.'
  }

  predicate InValue(c: char) {
    !IsSpace(c) && c !in "=,;)]}\"'"
  }

  predicate IsKey(key: string) {
    key != "" && IsLetter(key[0]) && forall i :: 0 <= i < |key| ==> InKey(key[i])
  }

  predicate IsValueText(value: string) {
    value != "" && forall i :: 0 <= i < |value| ==> InValue(value[i])
  }

  /** Nothing that could go on with the value. */
  predicate EndsValue(rest: string) {
    rest == "" || !InValue(rest[0])
  }

  predicate EndsInKey(s: string) {
    s != "" && InKey(s[|s| - 1])
  }

  /** At position i stands a key of length k, behind the start or another kind of character, then `=` and a value. */
  predicate Assigns(s: string, i: nat, k: nat) {
    && 0 < k && i + k + 1 < |s| && IsLetter(s[i]) && (i == 0 || !InKey(s[i - 1]))
    && (forall j :: i <= j < i + k ==> InKey(s[j])) && s[i + k] == '=' && InValue(s[i + k + 1])
  }

  predicate Free(s: string) {
    forall i: nat, k: nat :: i < |s| && k < |s| ==> !Assigns(s, i, k)
  }

  lemma SpelledOut(c: char)
    ensures KindOf(c).KeyStart? <==> IsLetter(c)
    ensures IsWord(KindOf, c) <==> InKey(c)
    ensures IsValue(KindOf, c) <==> InValue(c)
    ensures KindOf(c).EqualSign? <==> c == '='
  {
  }

  lemma MatchAssigns(s: string, afterWord: bool)
    requires KEY_VALUE.at(s, afterWord).Match?
    ensures !afterWord && Assigns(s, 0, KEY_VALUE.at(s, afterWord).key)
  {
    KeyValueIsProper();
    MatchFits(KEY_VALUE, s, afterWord);
    forall i | 0 <= i < |s|
      ensures (KindOf(s[i]).KeyStart? <==> IsLetter(s[i])) && (IsWord(KindOf, s[i]) <==> InKey(s[i]))
      ensures (IsValue(KindOf, s[i]) <==> InValue(s[i])) && (KindOf(s[i]).EqualSign? <==> s[i] == '=')
    {
      SpelledOut(s[i]);
    }
  }

  // ---- Text without assignments is kept ----

  /** No assignment starts among the first n characters, if the text stands behind a word or not. */
  ghost predicate Quiet(s: string, n: nat, afterWord: bool) {
    forall i: nat, k: nat :: i < n && (i == 0 ==> !afterWord) ==> !Assigns(s, i, k)
  }

  lemma TailAssigns(s: string, i: nat, k: nat)
    requires s != "" && (i == 0 ==> !InKey(s[0]))
    ensures Assigns(s[1..], i, k) ==> Assigns(s, i + 1, k)
  {
    var t := s[1..];
    assert forall j :: 0 <= j < |t| ==> t[j] == s[j + 1];
    assert forall j :: 1 <= j < |s| ==> s[j] == t[j - 1];
  }

  lemma QuietTail(s: string, n: nat, afterWord: bool)
    requires s != "" && 0 < n && Quiet(s, n, afterWord)
    ensures Quiet(s[1..], n - 1, InKey(s[0]))
  {
    forall i: nat, k: nat | i < n - 1 && (i == 0 ==> !InKey(s[0])) ensures !Assigns(s[1..], i, k) {
      TailAssigns(s, i, k);
    }
  }

  /** Does the text end in a word, or is it empty behind one? */
  predicate WordBefore(a: string, afterWord: bool) {
    if a == "" then afterWord else EndsInKey(a)
  }

  lemma FrontIsCopied(s: string, n: nat, afterWord: bool)
    requires s != "" && 0 < n && Quiet(s, n, afterWord)
    ensures Normalize(KEY_VALUE, s, afterWord) == [s[0]] + Normalize(KEY_VALUE, s[1..], InKey(s[0]))
  {
    if KEY_VALUE.at(s, afterWord).Match? {
      MatchAssigns(s, afterWord);
    }
    CharIsCopied(KEY_VALUE, s, afterWord);
    SpelledOut(s[0]);
  }

  lemma {:induction false} QuietIsCopied(a: string, rest: string, afterWord: bool)
    requires Quiet(a + rest, |a|, afterWord)
    ensures Normalize(KEY_VALUE, a + rest, afterWord) == a + Normalize(KEY_VALUE, rest, WordBefore(a, afterWord))
  {
    if a == "" {
      assert a + rest == rest && "" + Normalize(KEY_VALUE, rest, afterWord) == Normalize(KEY_VALUE, rest, afterWord);
    } else {
      var s, tail, flag := a + rest, a[1..], InKey(a[0]);
      FrontIsCopied(s, |a|, afterWord);
      QuietTail(s, |a|, afterWord);
      assert s[1..] == tail + rest && s[0] == a[0];
      QuietIsCopied(tail, rest, flag);
      WordBeforeTail(a, afterWord);
      FirstThenRest(a, Normalize(KEY_VALUE, rest, WordBefore(a, afterWord)));
    }
  }

  lemma WordBeforeTail(a: string, afterWord: bool)
    requires a != ""
    ensures WordBefore(a[1..], InKey(a[0])) == WordBefore(a, afterWord)
  {
  }

  lemma FirstThenRest(a: string, out: string)
    requires a != ""
    ensures [a[0]] + (a[1..] + out) == a + out
  {
    assert a == [a[0]] + a[1..];
  }

  /** A text without assignments is its own normal form. */
  lemma FreeIsKept(text: string)
    requires Free(text)
    ensures NormalizeMessage(text) == text
  {
    assert text + "" == text;
    QuietIsCopied(text, "", false);
  }

  // ---- The first assignment loses its value ----

  /** The text's first assignment: what stands before it, its key, its value and what follows. */
  predicate First(s: string, a: string, key: string, value: string, rest: string) {
    && s == a + (key + ("=" + (value + rest)))
    && IsKey(key) && IsValueText(value) && EndsValue(rest) && !EndsInKey(a) && Free(a + key)
  }

  lemma FirstIsQuiet(s: string, a: string, key: string, value: string, rest: string)
    requires First(s, a, key, value, rest)
    ensures Quiet(s, |a|, false)
  {
    var t := a + key;
    assert s[..|t|] == t;
    forall i: nat, k: nat | i < |a| ensures !Assigns(s, i, k) {
      assert s[|a| - 1] == a[|a| - 1];
      EndsBefore(s, |a|, i, k);
      AssignsInPrefix(s, |t|, i, k);
    }
  }

  /** A key that starts before a character that is in no key ends before it. */
  lemma EndsBefore(s: string, n: nat, i: nat, k: nat)
    requires i < n <= |s| && !InKey(s[n - 1])
    ensures Assigns(s, i, k) ==> i + k < n
  {
  }

  /** An assignment within a prefix, seen from the prefix and from the whole. */
  lemma AssignsInPrefix(s: string, n: nat, i: nat, k: nat)
    requires n <= |s|
    ensures Assigns(s[..n], i, k) <==> Assigns(s, i, k) && i + k + 1 < n
  {
    var t := s[..n];
    assert forall j :: 0 <= j < n ==> t[j] == s[j];
  }

  lemma AssignmentIsShape(key: string, value: string, rest: string)
    requires IsKey(key) && IsValueText(value) && EndsValue(rest)
    ensures Shape(KindOf, key + ("=" + (value + rest)), |key|, |value|)
  {
    var s := key + ("=" + (value + rest));
    SpelledOut(s[0]);
    forall i | 0 <= i < |key| ensures IsWord(KindOf, s[i]) {
      SpelledOut(key[i]);
    }
    forall i | |key| < i < |key| + 1 + |value| ensures IsValue(KindOf, s[i]) {
      SpelledOut(value[i - |key| - 1]);
    }
    if rest != "" {
      SpelledOut(rest[0]);
      assert s[|key| + 1 + |value|] == rest[0];
    }
  }

  lemma AssignmentIsReplaced(key: string, value: string, rest: string)
    requires IsKey(key) && IsValueText(value) && EndsValue(rest)
    ensures Normalize(KEY_VALUE, key + ("=" + (value + rest)), false) == key + ("=<*>" + NormalizeMessage(rest))
  {
    KeyValueIsProper();
    AssignmentIsShape(key, value, rest);
    if rest != "" {
      SpelledOut(rest[0]);
    }
    ShapeIsReplaced(KEY_VALUE, key + ("=" + (value + rest)), key, value, rest);
  }

  lemma ShapeIsReplaced(sc: Scanner, s: string, key: string, value: string, rest: string)
    requires Proper(sc) && s == key + ("=" + (value + rest)) && Shape(sc.cls, s, |key|, |value|)
    requires rest == "" || !IsValue(sc.cls, rest[0])
    ensures Normalize(sc, s, false) == key + ("=<*>" + Normalize(sc, rest, false))
  {
    MatchIsShape(sc, s, |key|, |value|);
    RestIsNormalised(sc, s, key, value, rest);
    AssignmentParts(s, key, value, rest);
    MatchedIsReplaced(sc, s, |key|, |value|, key, Normalize(sc, rest, false));
  }

  lemma MatchedIsReplaced(sc: Scanner, s: string, k: nat, v: nat, key: string, out: string)
    requires sc.at(s, false) == Match(k, v) && k + 1 + v <= |s| && s[..k] == key && Rest(sc, s, k + 1 + v) == out
    ensures Normalize(sc, s, false) == key + ("=<*>" + out)
  {
    MatchIsReplaced(sc, s, k, v);
    Regrouped(key, HOLE, out);
  }

  lemma Regrouped(a: string, b: string, c: string)
    ensures a + b + c == a + (b + c)
  {
  }

  lemma RestIsNormalised(sc: Scanner, s: string, key: string, value: string, rest: string)
    requires Proper(sc) && s == key + ("=" + (value + rest)) && (rest == "" || !IsValue(sc.cls, rest[0]))
    ensures Rest(sc, s, |key| + 1 + |value|) == Normalize(sc, rest, false)
  {
    AssignmentParts(s, key, value, rest);
    FlagDoesNotMatter(sc, rest, IsWord(sc.cls, s[|key| + |value|]), false);
  }

  lemma AssignmentParts(s: string, key: string, value: string, rest: string)
    requires s == key + ("=" + (value + rest))
    ensures s[..|key|] == key && s[|key| + 1 + |value|..] == rest
  {
  }

  /** The first assignment keeps its key and loses its value; what follows is normalised on its own. */
  lemma FirstIsReplaced(text: string, a: string, key: string, value: string, rest: string)
    requires First(text, a, key, value, rest)
    ensures NormalizeMessage(text) == a + (key + ("=<*>" + NormalizeMessage(rest)))
  {
    FirstIsQuiet(text, a, key, value, rest);
    QuietIsCopied(a, key + ("=" + (value + rest)), false);
    AssignmentIsReplaced(key, value, rest);
  }

  /** Every text is free of assignments or has a first one, so the two laws above say what any text becomes. */
  lemma {:induction false} FreeOrFirst(text: string) returns (a: string, key: string, value: string, rest: string)
    ensures Free(text) || First(text, a, key, value, rest)
  {
    a, key, value, rest := "", "", "", "";
    if !Free(text) {
      var i: nat, k: nat := FirstPosition(text, 0);
      var v := ValueLength(text[i + k + 1..]);
      a, key, value, rest := text[..i], text[i..i + k], text[i + k + 1..][..v], text[i + k + 1..][v..];
      CutIsFirst(text, i, k, v);
    }
  }

  /** The least position of an assignment. */
  lemma {:induction false} FirstPosition(s: string, n: nat) returns (i: nat, k: nat)
    requires !Free(s) && n <= |s| && forall j: nat, l: nat :: j < n ==> !Assigns(s, j, l)
    ensures Assigns(s, i, k) && forall j: nat, l: nat :: j < i ==> !Assigns(s, j, l)
    decreases |s| - n
  {
    if l: nat :| Assigns(s, n, l) {
      i, k := n, l;
    } else {
      var j: nat, l: nat :| Assigns(s, j, l);
      i, k := FirstPosition(s, n + 1);
    }
  }

  function ValueLength(s: string): (n: nat)
    ensures n <= |s| && (forall i :: 0 <= i < n ==> InValue(s[i])) && EndsValue(s[n..])
  {
    if s == "" || !InValue(s[0]) then 0
    else
      assert s[1..][ValueLength(s[1..])..] == s[ValueLength(s[1..]) + 1..];
      ValueLength(s[1..]) + 1
  }

  lemma CutIsFirst(s: string, i: nat, k: nat, v: nat)
    requires Assigns(s, i, k) && (forall j: nat, l: nat :: j < i ==> !Assigns(s, j, l)) && v == ValueLength(s[i + k + 1..])
    ensures First(s, s[..i], s[i..i + k], s[i + k + 1..][..v], s[i + k + 1..][v..])
  {
    var tail := s[i + k + 1..];
    assert tail[0] == s[i + k + 1];
    CutInFive(s, i, k, v);
    FrontIsFree(s, i, k, s[..i] + s[i..i + k]);
  }

  lemma CutInFive(s: string, i: nat, k: nat, v: nat)
    requires i + k < |s| && s[i + k] == '=' && v <= |s[i + k + 1..]|
    ensures s == s[..i] + (s[i..i + k] + ("=" + (s[i + k + 1..][..v] + s[i + k + 1..][v..])))
  {
    var tail := s[i + k + 1..];
    assert tail == tail[..v] + tail[v..];
    assert s == s[..i] + (s[i..i + k] + (s[i + k..i + k + 1] + tail));
  }

  lemma FrontIsFree(s: string, i: nat, k: nat, t: string)
    requires Assigns(s, i, k) && (forall j: nat, l: nat :: j < i ==> !Assigns(s, j, l)) && t == s[..i] + s[i..i + k]
    ensures Free(t)
  {
    assert t == s[..i + k];
    forall j: nat, l: nat | j < |t| ensures !Assigns(t, j, l) {
      EqualsBefore(t, i, j, l);
      AssignsInPrefix(s, i + k, j, l);
    }
  }

  /** The equals sign of an assignment is not among characters of keys. */
  lemma EqualsBefore(t: string, n: nat, j: nat, l: nat)
    requires n <= |t| && forall x :: n <= x < |t| ==> InKey(t[x])
    ensures Assigns(t, j, l) ==> j + l < n
  {
    assert !InKey('=');
  }

  /**
   * Where the text before the key is free of assignments, the law holds exactly when it is still so with the key behind
   * it: `x=` before `y=1` makes the key the value of another assignment.
   */
  lemma KeyIsReplacedIff(a: string, key: string, value: string, rest: string)
    requires IsKey(key) && IsValueText(value) && EndsValue(rest) && !EndsInKey(a) && Free(a)
    ensures NormalizeMessage(a + (key + ("=" + (value + rest)))) == a + (key + ("=<*>" + NormalizeMessage(rest)))
            <==> Free(a + key)
  {
    var s := a + (key + ("=" + (value + rest)));
    if Free(a + key) {
      FirstIsReplaced(s, a, key, value, rest);
    } else {
      var t := a + key;
      var i: nat, k: nat :| i < |t| && k < |t| && Assigns(t, i, k);
      AcrossTheEnd(a, key, i, k);
      KeyIsAValue(a, key, value, rest, i, k);
    }
  }

  lemma AcrossTheEnd(a: string, key: string, i: nat, k: nat)
    requires IsKey(key) && Free(a) && Assigns(a + key, i, k)
    ensures i + k + 1 == |a|
  {
    var t := a + key;
    forall x | |a| <= x < |t| ensures InKey(t[x]) {
      assert t[x] == key[x - |a|];
    }
    EqualsBefore(t, |a|, i, k);
    assert t[..|a|] == a;
    AssignsInPrefix(t, |a|, i, k);
  }

  lemma PrefixIsFree(s: string, n: nat, t: string)
    requires Free(s) && n <= |s| && t == s[..n]
    ensures Free(t)
  {
    forall i: nat, k: nat | i < n ensures !Assigns(t, i, k) {
      AssignsInPrefix(s, n, i, k);
    }
  }

  lemma KeyIsAValue(a: string, key: string, value: string, rest: string, i: nat, k: nat)
    requires IsKey(key) && Free(a) && Assigns(a + key, i, k) && i + k + 1 == |a|
    ensures NormalizeMessage(a + (key + ("=" + (value + rest)))) != a + (key + ("=<*>" + NormalizeMessage(rest)))
  {
    var s, more := a + (key + ("=" + (value + rest))), "=" + (value + rest);
    var t := a + key;
    forall j | 0 <= j < |a| ensures t[j] == a[j] {
    }
    var front, name := a[..i], a[i..i + k];
    assert a == front + (name + "=");
    assert s == front + (name + ("=" + (key + more)));
    forall j | 0 <= j < |key| ensures InValue(key[j]) {
      assert InKey(key[j]);
      KeysAreValues(key[j]);
    }
    PrefixIsFree(a, i + k, front + name);
    FirstIsReplaced(s, front, name, key, more);
    var out := front + (name + ("=<*>" + NormalizeMessage(more)));
    assert out[|a|] == '<';
  }

  lemma KeysAreValues(c: char)
    requires InKey(c)
    ensures InValue(c)
  {
  }

  // ---- Which messages have one normal form ----

  /** The same text up to the values of assignments. */
  ghost predicate SameUpToValues(s: string, t: string)
    decreases |s|
  {
    || s == t
    || exists a, key, v, w, r, q :: First(s, a, key, v, r) && First(t, a, key, w, q) && |r| < |s| && SameUpToValues(r, q)
  }

  lemma NormalFormIsFirst(text: string, a: string, key: string, value: string, rest: string)
    requires First(text, a, key, value, rest)
    ensures First(NormalizeMessage(text), a, key, "<*>", NormalizeMessage(rest))
  {
    FirstIsReplaced(text, a, key, value, rest);
    assert IsValueText("<*>");
    NormalFormEndsValue(rest);
    HoleSplits(NormalizeMessage(rest));
  }

  lemma HoleSplits(out: string)
    ensures "=<*>" + out == "=" + ("<*>" + out)
  {
  }

  lemma NormalFormEndsValue(rest: string)
    requires EndsValue(rest)
    ensures EndsValue(NormalizeMessage(rest))
  {
    KeyValueIsProper();
    if rest != "" {
      SpelledOut(rest[0]);
      FlagDoesNotMatter(KEY_VALUE, rest, false, false);
    }
  }

  lemma FirstIsNotFree(s: string, a: string, key: string, value: string, rest: string)
    requires First(s, a, key, value, rest)
    ensures Assigns(s, |a|, |key|) && !Free(s)
  {
    forall j | |a| <= j < |a| + |key| ensures InKey(s[j]) {
      assert s[j] == key[j - |a|];
    }
    assert a != "" ==> s[|a| - 1] == a[|a| - 1];
    assert s[|a| + |key|] == '=' && s[|a| + |key| + 1] == value[0];
    assert Assigns(s, |a|, |key|);
  }

  /** A text has one first assignment. */
  lemma FirstIsUnique(s: string, a: string, key: string, v: string, r: string, a': string, key': string, v': string, r': string)
    requires First(s, a, key, v, r) && First(s, a', key', v', r')
    ensures a == a' && key == key' && v == v' && r == r'
  {
    FirstIsQuiet(s, a, key, v, r);
    FirstIsQuiet(s, a', key', v', r');
    FirstIsNotFree(s, a, key, v, r);
    FirstIsNotFree(s, a', key', v', r');
    SamePlace(s, a, key, a', key');
    SameAssignment(a, key, v, r, a', key', v', r');
  }

  lemma SamePlace(s: string, a: string, key: string, a': string, key': string)
    requires Quiet(s, |a|, false) && Quiet(s, |a'|, false) && Assigns(s, |a|, |key|) && Assigns(s, |a'|, |key'|)
    ensures |a| == |a'|
  {
  }

  lemma SameAssignment(a: string, key: string, v: string, r: string, a': string, key': string, v': string, r': string)
    requires a + (key + ("=" + (v + r))) == a' + (key' + ("=" + (v' + r'))) && |a| == |a'|
    requires IsKey(key) && IsValueText(v) && EndsValue(r) && IsKey(key') && IsValueText(v') && EndsValue(r')
    ensures a == a' && key == key' && v == v' && r == r'
  {
    var tail, tail' := "=" + (v + r), "=" + (v' + r');
    SameFront(a, key + tail, a', key' + tail');
    SameCut(InKey, key, tail, key', tail');
    SameFront("=", v + r, "=", v' + r');
    SameCut(InValue, v, r, v', r');
  }

  lemma SameFront(a: string, b: string, a': string, b': string)
    requires a + b == a' + b' && |a| == |a'|
    ensures a == a' && b == b'
  {
    assert (a + b)[..|a|] == a && (a' + b')[..|a|] == a' && (a + b)[|a|..] == b && (a' + b')[|a|..] == b';
  }

  lemma SameCut(inside: char -> bool, a: string, b: string, a': string, b': string)
    requires a + b == a' + b'
    requires (forall i :: 0 <= i < |a| ==> inside(a[i])) && (forall i :: 0 <= i < |a'| ==> inside(a'[i]))
    requires (b == "" || !inside(b[0])) && (b' == "" || !inside(b'[0]))
    ensures a == a' && b == b'
  {
    var s := a + b;
    assert |a| < |s| ==> s[|a|] == b[0];
    assert |a'| < |s| ==> s[|a'|] == b'[0];
    assert forall i :: 0 <= i < |a| ==> s[i] == a[i];
    assert forall i :: 0 <= i < |a'| ==> (a' + b')[i] == a'[i];
    assert |a| == |a'|;
    assert s[..|a|] == a && (a' + b')[..|a|] == a' && s[|a|..] == b && (a' + b')[|a|..] == b';
  }

  /** Two messages have one normal form exactly when they are the same up to the values of assignments. */
  lemma {:induction false} SameNormalFormIff(s: string, t: string)
    ensures NormalizeMessage(s) == NormalizeMessage(t) <==> SameUpToValues(s, t)
    decreases |s|
  {
    if SameUpToValues(s, t) && s != t {
      var a, key, v, w, r, q :|
        First(s, a, key, v, r) && First(t, a, key, w, q) && |r| < |s| && SameUpToValues(r, q);
      SameNormalFormIff(r, q);
      FirstIsReplaced(s, a, key, v, r);
      FirstIsReplaced(t, a, key, w, q);
    }
    if NormalizeMessage(s) == NormalizeMessage(t) {
      SameNormalFormSameText(s, t);
    }
  }

  lemma {:induction false} SameNormalFormSameText(s: string, t: string)
    requires NormalizeMessage(s) == NormalizeMessage(t)
    ensures SameUpToValues(s, t)
    decreases |s|
  {
    var a, key, v, r := FreeOrFirst(s);
    var a', key', w, q := FreeOrFirst(t);
    if Free(s) && Free(t) {
      FreeIsKept(s);
      FreeIsKept(t);
    } else if Free(s) {
      FreeIsKept(s);
      NormalFormIsFirst(t, a', key', w, q);
      FirstIsNotFree(s, a', key', "<*>", NormalizeMessage(q));
    } else {
      NormalFormIsFirst(s, a, key, v, r);
      if Free(t) {
        FreeIsKept(t);
        FirstIsNotFree(t, a, key, "<*>", NormalizeMessage(r));
      } else {
        NormalFormIsFirst(t, a', key', w, q);
        FirstIsUnique(NormalizeMessage(s), a, key, "<*>", NormalizeMessage(r), a', key', "<*>", NormalizeMessage(q));
        SameNormalFormSameText(r, q);
      }
    }
  }

  // ---- Signatures ----

  predicate OneLines(lines: seq<string>) {
    lines != [] && forall i :: 0 <= i < |lines| ==> '\n' !in lines[i]
  }

  lemma {:induction false} LinesOfJoined(lines: seq<string>)
    requires OneLines(lines)
    ensures Lines(JoinWith(lines, "\n")) == lines
  {
    if |lines| == 1 {
      LinesOfFirst(lines[0], "");
      assert lines[0] + "" == lines[0] && lines == [lines[0]];
    } else {
      var rest := JoinWith(lines[1..], "\n");
      LinesOfJoined(lines[1..]);
      LinesOfFirst(lines[0], "\n" + rest);
      assert ("\n" + rest)[1..] == rest;
      assert Lines("\n" + rest) == [""] + Lines(rest);
      assert lines == [lines[0]] + lines[1..];
    }
  }

  /** Every text is made of its lines. */
  lemma {:induction false} EveryTextHasLines(t: string)
    ensures OneLines(Lines(t)) && JoinWith(Lines(t), "\n") == t
    decreases |t|
  {
    if t != "" {
      var rest := Lines(t[1..]);
      EveryTextHasLines(t[1..]);
      if t[0] == '\n' {
        assert ([""] + rest)[1..] == rest;
      } else {
        var lines := [[t[0]] + rest[0]] + rest[1..];
        assert lines[1..] == rest[1..];
      }
      assert t == [t[0]] + t[1..];
    }
  }

  lemma {:induction false} FramesAreStripped(lines: seq<string>, n: nat)
    ensures |Frames(lines, n)| == if n < |lines| then n else |lines|
    ensures forall i :: 0 <= i < |Frames(lines, n)| ==> Frames(lines, n)[i] == Strip(lines[i])
  {
    if lines != [] && n > 0 {
      FramesAreStripped(lines[1..], n - 1);
    }
  }

  /** The first lines behind the exception line, stripped, as many as asked for and there are. */
  predicate TopFrames(top: seq<string>, lines: seq<string>, frames: nat) {
    && |top| == (if frames < |lines| - 1 then frames else |lines| - 1)
    && forall i :: 0 <= i < |top| ==> top[i] == Strip(lines[i + 1])
  }

  /** With a stack: the exception line, normalised, then the top frames in order, cut at the limit. */
  lemma StackSignature(message: string, stack: string, frames: nat, lines: seq<string>, top: seq<string>)
    requires stack != "" && OneLines(lines) && Strip(stack) == JoinWith(lines, "\n") && TopFrames(top, lines, frames)
    ensures var text := JoinWith([NormalizeMessage(lines[0])] + top, "|");
      Signature(message, stack, frames) == if |text| <= 1000 then text else text[..1000]
  {
    LinesOfJoined(lines);
    FramesAreStripped(lines[1..], frames);
    assert Frames(lines[1..], frames) == top;
  }

  /** Without a stack: the first 120 characters of the message, normalised, cut at the limit. */
  lemma PlainSignature(message: string, frames: nat)
    ensures var window := if |message| <= 120 then message else message[..120]; var text := NormalizeMessage(window);
      Signature(message, "", frames) == if |text| <= 1000 then text else text[..1000]
  {
  }

  /** Without a stack, messages within the window have one signature exactly when they differ in values only. */
  lemma SameSignatureIff(m: string, m': string, frames: nat)
    requires |m| <= 120 && |m'| <= 120
    ensures Signature(m, "", frames) == Signature(m', "", frames) <==> SameUpToValues(m, m')
  {
    NormalFormIsShort(m);
    NormalFormIsShort(m');
    SameNormalFormIff(m, m');
  }

  /** A value is at least one character long, so an assignment grows by two at the most. */
  lemma {:induction false} NormalFormIsShort(s: string)
    ensures |NormalizeMessage(s)| <= 3 * |s|
    decreases |s|
  {
    var a, key, value, rest := FreeOrFirst(s);
    if Free(s) {
      FreeIsKept(s);
    } else {
      FirstIsReplaced(s, a, key, value, rest);
      NormalFormIsShort(rest);
    }
  }
}
