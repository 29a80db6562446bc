/** Log signatures: per-request values in a message are replaced, so that one problem keeps one identity. */
module Signatures {
  import opened Text

  /** What a character can be part of; the scanner depends on nothing else. */
  datatype Kind = KeyStart | WordChar | EqualSign | Delimiter | Plain
  type Classes = char -> Kind

  /** Keys are made of ASCII letters, digits, underscores and dots; white space and the delimiters end a value. */
  function KindOf(c: char): Kind {
    if 'A' <= c <= 'Z' || 'a' <= c <= 'z' || c == '_' then KeyStart
    else if '0' <= c <= '9' || c == '.' then WordChar
    else if c == '=' then EqualSign
    else if IsSpace(c) || c in {',', ';', ')', ']', '}', '"', '\''} then Delimiter
    else Plain
  }

  predicate IsWord(cls: Classes, c: char) {
    cls(c).KeyStart? || cls(c).WordChar?
  }

  predicate IsValue(cls: Classes, c: char) {
    !cls(c).EqualSign? && !cls(c).Delimiter?
  }

  /** Length of the longest prefix of word characters. */
  function WordRun(cls: Classes, s: string): (n: nat)
    ensures n <= |s| && (forall i :: 0 <= i < n ==> IsWord(cls, s[i])) && (n < |s| ==> !IsWord(cls, s[n]))
  {
    if s == "" || !IsWord(cls, s[0]) then 0 else WordRun(cls, s[1..]) + 1
  }

  function ValueRun(cls: Classes, s: string): (n: nat)
    ensures n <= |s| && (forall i :: 0 <= i < n ==> IsValue(cls, s[i])) && (n < |s| ==> !IsValue(cls, s[n]))
  {
    if s == "" || !IsValue(cls, s[0]) then 0 else ValueRun(cls, s[1..]) + 1
  }

  /** `key=value` at the front, not preceded by a word character: the lengths of key and value. */
  datatype Match = NoMatch | Match(key: nat, value: nat)

  function MatchHere(cls: Classes, s: string, afterWord: bool): Match {
    if afterWord || s == "" || !cls(s[0]).KeyStart? then NoMatch
    else
      var k := WordRun(cls, s);
      if k == |s| || !cls(s[k]).EqualSign? then NoMatch
      else
        var v := ValueRun(cls, s[k + 1..]);
        if v == 0 then NoMatch else Match(k, v)
  }

  /** Character classes with their matcher. */
  datatype Scanner = Scanner(cls: Classes, at: (string, bool) -> Match)

  const KEY_VALUE := Scanner(KindOf, (s, afterWord) => MatchHere(KindOf, s, afterWord))

  const HOLE := "=<*>"

  /** Scanning from the left, each match keeps its key and loses its value. */
  function Normalize(sc: Scanner, s: string, afterWord: bool): string
    decreases |s|
  {
    if s == "" then ""
    else
      var m := sc.at(s, afterWord);
      if m.NoMatch? || m.key + 1 + m.value > |s| then [s[0]] + Normalize(sc, s[1..], IsWord(sc.cls, s[0]))
      else s[..m.key] + HOLE + Rest(sc, s, m.key + 1 + m.value)
  }

  /** What is left of a text behind a match, normalised. */
  function Rest(sc: Scanner, s: string, end: nat): string
    requires 0 < end <= |s|
    decreases |s|, 0
  {
    Normalize(sc, s[end..], IsWord(sc.cls, s[end - 1]))
  }

  function NormalizeMessage(text: string): string {
    Normalize(KEY_VALUE, text, false)
  }

  // ---- Matches by shape ----

  /** The matcher is MatchHere, and the replacement text is a value of three plain characters. */
  ghost predicate Proper(sc: Scanner) {
    && (forall s: string, afterWord: bool {:trigger MatchHere(sc.cls, s, afterWord)} ::
          sc.at(s, afterWord) == MatchHere(sc.cls, s, afterWord))
    && sc.cls('=').EqualSign? && sc.cls('<').Plain? && sc.cls('*').Plain? && sc.cls('>').Plain?
  }

  lemma KeyValueIsProper()
    ensures Proper(KEY_VALUE)
  {
  }

  /** The shape of a match, without naming the runs. */
  predicate Shape(cls: Classes, s: string, k: nat, v: nat) {
    && k > 0 && v > 0 && k + 1 + v <= |s| && cls(s[0]).KeyStart? && cls(s[k]).EqualSign?
    && (forall i :: 0 <= i < k ==> IsWord(cls, s[i]))
    && (forall i :: k < i < k + 1 + v ==> IsValue(cls, s[i]))
    && (k + 1 + v < |s| ==> !IsValue(cls, s[k + 1 + v]))
  }

  lemma MatchIsShape(sc: Scanner, s: string, k: nat, v: nat)
    requires Proper(sc)
    ensures sc.at(s, false) == Match(k, v) <==> Shape(sc.cls, s, k, v)
  {
    assert sc.at(s, false) == MatchHere(sc.cls, s, false);
    if Shape(sc.cls, s, k, v) {
      assert WordRun(sc.cls, s) == k;
      assert ValueRun(sc.cls, s[k + 1..]) == v;
    }
    if MatchHere(sc.cls, s, false) == Match(k, v) {
      forall i | k < i < k + 1 + v ensures IsValue(sc.cls, s[i]) {
        assert s[k + 1..][i - k - 1] == s[i];
      }
    }
  }

  lemma MatchFits(sc: Scanner, s: string, afterWord: bool)
    requires Proper(sc) && sc.at(s, afterWord).Match?
    ensures var m := sc.at(s, afterWord); !afterWord && s != "" && m.key + 1 + m.value <= |s|
    ensures Shape(sc.cls, s, sc.at(s, afterWord).key, sc.at(s, afterWord).value)
  {
    assert sc.at(s, afterWord) == MatchHere(sc.cls, s, afterWord);
    var m := sc.at(s, afterWord);
    MatchIsShape(sc, s, m.key, m.value);
  }

  lemma NoStartNoMatch(sc: Scanner, s: string, afterWord: bool)
    requires Proper(sc) && (afterWord || s == "" || !sc.cls(s[0]).KeyStart?)
    ensures sc.at(s, afterWord).NoMatch?
  {
    assert sc.at(s, afterWord) == MatchHere(sc.cls, s, afterWord);
  }

  // ---- One step of the scan ----

  lemma CharIsCopied(sc: Scanner, s: string, afterWord: bool)
    requires s != "" && sc.at(s, afterWord).NoMatch?
    ensures Normalize(sc, s, afterWord) == [s[0]] + Normalize(sc, s[1..], IsWord(sc.cls, s[0]))
  {
  }

  lemma MatchIsReplaced(sc: Scanner, s: string, k: nat, v: nat)
    requires sc.at(s, false) == Match(k, v) && k + 1 + v <= |s|
    ensures Normalize(sc, s, false) == s[..k] + HOLE + Rest(sc, s, k + 1 + v)
  {
  }

  lemma SameParts(sc: Scanner, s: string, k: nat, v: nat, t: string, v': nat)
    requires sc.at(s, false) == Match(k, v) && sc.at(t, false) == Match(k, v')
    requires k + 1 + v <= |s| && k + 1 + v' <= |t| && t[..k] == s[..k]
    requires Rest(sc, t, k + 1 + v') == Rest(sc, s, k + 1 + v)
    ensures Normalize(sc, t, false) == Normalize(sc, s, false)
  {
    MatchIsReplaced(sc, s, k, v);
    MatchIsReplaced(sc, t, k, v');
  }

  /** Where no key can start, the word flag makes no difference. */
  lemma FlagDoesNotMatter(sc: Scanner, s: string, a: bool, b: bool)
    requires Proper(sc) && (s == "" || !IsValue(sc.cls, s[0]))
    ensures Normalize(sc, s, a) == Normalize(sc, s, b)
    ensures s != "" ==> Normalize(sc, s, a) == [s[0]] + Normalize(sc, s[1..], IsWord(sc.cls, s[0]))
  {
    NoStartNoMatch(sc, s, a);
    NoStartNoMatch(sc, s, b);
  }

  // ---- Idempotence ----

  /** Inside a word nothing matches: the rest of the word and the character after it are copied. */
  lemma {:induction false} WordIsCopied(sc: Scanner, t: string, r: nat)
    requires Proper(sc) && r <= |t| && (forall i :: 0 <= i < r ==> IsWord(sc.cls, t[i])) && (r < |t| ==> !IsWord(sc.cls, t[r]))
    ensures Normalize(sc, t, true) == t[..r] + if r == |t| then "" else [t[r]] + Normalize(sc, t[r + 1..], false)
    decreases r
  {
    if t != "" {
      NoStartNoMatch(sc, t, true);
      CharIsCopied(sc, t, true);
    }
    if r > 0 {
      WordIsCopied(sc, t[1..], r - 1);
      assert t[1..][..r - 1] == t[1..r] && t[..r] == [t[0]] + t[1..r];
      assert r < |t| ==> t[1..][r..] == t[r + 1..];
    }
  }

  /** The front word of a text, and that it is no match. */
  predicate FrontWord(sc: Scanner, s: string, k: nat) {
    && 0 < k <= |s| && sc.cls(s[0]).KeyStart? && (forall i :: 0 <= i < k ==> IsWord(sc.cls, s[i]))
    && (k < |s| ==> !IsWord(sc.cls, s[k]))
  }

  predicate NoValueBehind(sc: Scanner, s: string, k: nat) {
    k + 1 < |s| && sc.cls(s[k]).EqualSign? ==> !IsValue(sc.cls, s[k + 1])
  }

  lemma FrontWordDecides(sc: Scanner, s: string, k: nat)
    requires Proper(sc) && FrontWord(sc, s, k)
    ensures sc.at(s, false).NoMatch? <==> NoValueBehind(sc, s, k)
  {
    assert sc.at(s, false) == MatchHere(sc.cls, s, false);
    assert WordRun(sc.cls, s) == k;
    if k + 1 < |s| {
      assert s[k + 1..][0] == s[k + 1];
    }
  }

  lemma FrontWordIsCopied(sc: Scanner, s: string, k: nat)
    requires Proper(sc) && FrontWord(sc, s, k) && sc.at(s, false).NoMatch?
    ensures Normalize(sc, s, false) == s[..k] + if k == |s| then "" else [s[k]] + Normalize(sc, s[k + 1..], false)
  {
    var tail := if k == |s| then "" else [s[k]] + Normalize(sc, s[k + 1..], false);
    CharIsCopied(sc, s, false);
    FrontSplits(s, k, tail);
    WordIsCopied(sc, s[1..], k - 1);
  }

  lemma FrontSplits(s: string, k: nat, tail: string)
    requires 0 < k <= |s|
    ensures s[1..][..k - 1] == s[1..k] && [s[0]] + (s[1..k] + tail) == s[..k] + tail
    ensures k < |s| ==> s[1..][k - 1] == s[k] && s[1..][k..] == s[k + 1..]
  {
  }

  /** A word at the front that is no match stays no match after normalising. */
  lemma NoMatchStays(sc: Scanner, s: string)
    requires Proper(sc) && s != "" && sc.cls(s[0]).KeyStart? && sc.at(s, false).NoMatch?
    ensures sc.at(Normalize(sc, s, false), false).NoMatch?
  {
    var k, out := WordRun(sc.cls, s), Normalize(sc, s, false);
    FrontWordIsCopied(sc, s, k);
    FrontWordDecides(sc, s, k);
    if k < |s| {
      var more := Normalize(sc, s[k + 1..], false);
      assert out == s[..k] + ([s[k]] + more);
      if k + 1 < |s| && sc.cls(s[k]).EqualSign? {
        FlagDoesNotMatter(sc, s[k + 1..], false, false);
      }
      assert s[k + 1..] == "" ==> more == "";
    }
    FrontWordDecides(sc, out, k);
  }

  lemma HoleIsShape(sc: Scanner, key: string, rest: string)
    requires Proper(sc) && key != "" && sc.cls(key[0]).KeyStart? && (forall i :: 0 <= i < |key| ==> IsWord(sc.cls, key[i]))
    requires rest == "" || !IsValue(sc.cls, rest[0])
    ensures sc.at(key + HOLE + rest, false) == Match(|key|, 3)
  {
    MatchIsShape(sc, key + HOLE + rest, |key|, 3);
  }

  lemma CopiedOnce(sc: Scanner, s: string, afterWord: bool)
    requires Proper(sc) && s != "" && sc.at(s, afterWord).NoMatch?
    requires var rest := Normalize(sc, s[1..], IsWord(sc.cls, s[0])); Normalize(sc, rest, IsWord(sc.cls, s[0])) == rest
    ensures Normalize(sc, Normalize(sc, s, afterWord), afterWord) == Normalize(sc, s, afterWord)
  {
    var out := Normalize(sc, s, afterWord);
    CharIsCopied(sc, s, afterWord);
    assert out[1..] == Normalize(sc, s[1..], IsWord(sc.cls, s[0])) && out[0] == s[0];
    if !afterWord && sc.cls(s[0]).KeyStart? {
      NoMatchStays(sc, s);
    } else {
      NoStartNoMatch(sc, out, afterWord);
    }
    CharIsCopied(sc, out, afterWord);
  }

  lemma RestStartsPlain(sc: Scanner, s: string, end: nat)
    requires Proper(sc) && 0 < end <= |s| && (end < |s| ==> !IsValue(sc.cls, s[end]))
    ensures var rest := Rest(sc, s, end); rest == "" || !IsValue(sc.cls, rest[0])
  {
    FlagDoesNotMatter(sc, s[end..], IsWord(sc.cls, s[end - 1]), false);
  }

  lemma ReplacedOnce(sc: Scanner, s: string, k: nat, v: nat)
    requires Proper(sc) && sc.at(s, false) == Match(k, v) && Shape(sc.cls, s, k, v)
    requires var end := k + 1 + v; Normalize(sc, Rest(sc, s, end), IsWord(sc.cls, s[end - 1])) == Rest(sc, s, end)
    ensures Normalize(sc, Normalize(sc, s, false), false) == Normalize(sc, s, false)
  {
    var end := k + 1 + v;
    var rest, key := Rest(sc, s, end), s[..k];
    MatchIsReplaced(sc, s, k, v);
    RestStartsPlain(sc, s, end);
    FlagDoesNotMatter(sc, rest, IsWord(sc.cls, s[end - 1]), false);
    HoleIsReplaced(sc, key, rest);
  }

  lemma HoleIsReplaced(sc: Scanner, key: string, rest: string)
    requires Proper(sc) && key != "" && sc.cls(key[0]).KeyStart? && (forall i :: 0 <= i < |key| ==> IsWord(sc.cls, key[i]))
    requires (rest == "" || !IsValue(sc.cls, rest[0])) && Normalize(sc, rest, false) == rest
    ensures Normalize(sc, key + HOLE + rest, false) == key + HOLE + rest
  {
    var out := key + HOLE + rest;
    HoleIsShape(sc, key, rest);
    MatchIsReplaced(sc, out, |key|, 3);
    HoleParts(key, rest);
  }

  lemma HoleParts(key: string, rest: string)
    ensures var out := key + HOLE + rest; out[..|key|] == key && out[|key| + 3] == '>' && out[|key| + 4..] == rest
  {
  }

  lemma {:induction false} NormalizeIsIdempotent(sc: Scanner, s: string, afterWord: bool)
    requires Proper(sc)
    ensures Normalize(sc, Normalize(sc, s, afterWord), afterWord) == Normalize(sc, s, afterWord)
    decreases |s|
  {
    if s != "" {
      var m := sc.at(s, afterWord);
      if m.NoMatch? {
        NormalizeIsIdempotent(sc, s[1..], IsWord(sc.cls, s[0]));
        CopiedOnce(sc, s, afterWord);
      } else {
        MatchFits(sc, s, afterWord);
        var end := m.key + 1 + m.value;
        NormalizeIsIdempotent(sc, s[end..], IsWord(sc.cls, s[end - 1]));
        ReplacedOnce(sc, s, m.key, m.value);
      }
    }
  }

  /** Normalising a message twice is normalising it once. */
  lemma NormalizeMessageIsIdempotent(text: string)
    ensures NormalizeMessage(NormalizeMessage(text)) == NormalizeMessage(text)
  {
    KeyValueIsProper();
    NormalizeIsIdempotent(KEY_VALUE, text, false);
  }

  // ---- Values do not matter ----

  /** Scanning s finds a match of these lengths at position i. */
  predicate Matched(sc: Scanner, s: string, afterWord: bool, i: nat, k: nat, v: nat)
    decreases |s|
  {
    s != "" &&
    var m := sc.at(s, afterWord);
    if m.NoMatch? || m.key + 1 + m.value > |s| then i > 0 && Matched(sc, s[1..], IsWord(sc.cls, s[0]), i - 1, k, v)
    else
      var end := m.key + 1 + m.value;
      if i == 0 then m == Match(k, v) else i >= end && Matched(sc, s[end..], IsWord(sc.cls, s[end - 1]), i - end, k, v)
  }

  lemma {:induction false} MatchedStarts(sc: Scanner, s: string, afterWord: bool, i: nat, k: nat, v: nat)
    requires Proper(sc) && Matched(sc, s, afterWord, i, k, v)
    ensures k > 0 && i + k + 1 + v <= |s| && sc.cls(s[i]).KeyStart?
    ensures if i == 0 then !afterWord else !IsWord(sc.cls, s[i - 1])
    decreases |s|
  {
    var m := sc.at(s, afterWord);
    if m.NoMatch? {
      MatchedStarts(sc, s[1..], IsWord(sc.cls, s[0]), i - 1, k, v);
    } else {
      MatchFits(sc, s, afterWord);
      if i > 0 {
        var end := m.key + 1 + m.value;
        MatchedStarts(sc, s[end..], IsWord(sc.cls, s[end - 1]), i - end, k, v);
      }
    }
  }

  lemma MatchedUnfolds(sc: Scanner, s: string, afterWord: bool, i: nat, k: nat, v: nat)
    requires Proper(sc) && Matched(sc, s, afterWord, i, k, v)
    ensures var m := sc.at(s, afterWord);
      && s != ""
      && (m.NoMatch? ==> i > 0 && Matched(sc, s[1..], IsWord(sc.cls, s[0]), i - 1, k, v))
      && (m.Match? ==> && !afterWord && Shape(sc.cls, s, m.key, m.value)
                       && var end := m.key + 1 + m.value;
                          if i == 0 then m == Match(k, v)
                          else i >= end && Matched(sc, s[end..], IsWord(sc.cls, s[end - 1]), i - end, k, v))
  {
    if sc.at(s, afterWord).Match? {
      MatchFits(sc, s, afterWord);
    }
  }

  /** The text with the value of a match exchanged. */
  function Exchanged(s: string, i: nat, k: nat, v: nat, w: string): string
    requires i + k + 1 + v <= |s|
  {
    s[..i + k + 1] + w + s[i + k + 1 + v..]
  }

  lemma ExchangedTail(s: string, n: nat, i: nat, k: nat, v: nat, w: string)
    requires n <= i && k > 0 && i + k + 1 + v <= |s|
    ensures var t := Exchanged(s, i, k, v, w);
      |t| > i && t[n..] == Exchanged(s[n..], i - n, k, v, w) && t[..n] == s[..n] && t[..i + 1] == s[..i + 1]
  {
    assert s[n..][..i - n + k + 1] == s[n..i + k + 1];
    assert s[n..][i - n + k + 1 + v..] == s[i + k + 1 + v..];
  }

  predicate ValueText(cls: Classes, w: string) {
    w != "" && forall i :: 0 <= i < |w| ==> IsValue(cls, w[i])
  }

  lemma ExchangedShape(cls: Classes, s: string, k: nat, v: nat, w: string)
    requires Shape(cls, s, k, v) && ValueText(cls, w)
    ensures Shape(cls, Exchanged(s, 0, k, v, w), k, |w|)
    ensures Exchanged(s, 0, k, v, w)[..k] == s[..k] && Exchanged(s, 0, k, v, w)[k + 1 + |w|..] == s[k + 1 + v..]
  {
  }

  lemma ExchangeHere(sc: Scanner, s: string, k: nat, v: nat, w: string)
    requires Proper(sc) && sc.at(s, false) == Match(k, v) && Shape(sc.cls, s, k, v) && ValueText(sc.cls, w)
    ensures Normalize(sc, Exchanged(s, 0, k, v, w), false) == Normalize(sc, s, false)
  {
    var t, end, end' := Exchanged(s, 0, k, v, w), k + 1 + v, k + 1 + |w|;
    ExchangedShape(sc.cls, s, k, v, w);
    MatchIsShape(sc, t, k, |w|);
    FlagDoesNotMatter(sc, s[end..], IsWord(sc.cls, s[end - 1]), IsWord(sc.cls, t[end' - 1]));
    SameParts(sc, s, k, v, t, |w|);
  }

  /** What is no match at the front does not become one by an exchange further on. */
  lemma NoMatchKeeps(sc: Scanner, s: string, i: nat, t: string)
    requires Proper(sc) && s != "" && sc.cls(s[0]).KeyStart? && sc.at(s, false).NoMatch?
    requires 0 < i < |s| && i < |t| && t[..i + 1] == s[..i + 1] && sc.cls(s[i]).KeyStart? && !IsWord(sc.cls, s[i - 1])
    ensures sc.at(t, false).NoMatch?
  {
    var k := WordRun(sc.cls, s);
    assert k < i;
    forall j | 0 <= j <= i ensures t[j] == s[j] {
      assert t[..i + 1][j] == s[..i + 1][j];
    }
    FrontWordDecides(sc, s, k);
    FrontWordDecides(sc, t, k);
  }

  lemma ExchangeBehindChar(sc: Scanner, s: string, afterWord: bool, i: nat, k: nat, v: nat, w: string)
    requires Proper(sc) && 0 < i && k > 0 && i + k + 1 + v <= |s| && sc.at(s, afterWord).NoMatch?
    requires sc.cls(s[i]).KeyStart? && !IsWord(sc.cls, s[i - 1])
    requires Normalize(sc, Exchanged(s[1..], i - 1, k, v, w), IsWord(sc.cls, s[0])) == Normalize(sc, s[1..], IsWord(sc.cls, s[0]))
    ensures Normalize(sc, Exchanged(s, i, k, v, w), afterWord) == Normalize(sc, s, afterWord)
  {
    var t := Exchanged(s, i, k, v, w);
    ExchangedTail(s, 1, i, k, v, w);
    assert t[0] == t[..1][0] == s[0];
    if !afterWord && sc.cls(s[0]).KeyStart? {
      NoMatchKeeps(sc, s, i, t);
    } else {
      NoStartNoMatch(sc, t, afterWord);
    }
    CharIsCopied(sc, s, afterWord);
    CharIsCopied(sc, t, afterWord);
  }

  /** Both texts begin with the same end + 1 characters; `rest` and `rest'` are what follows the first `end`. */
  predicate Alongside(s: string, t: string, end: nat, rest: string, rest': string) {
    && 0 < end < |s| && end < |t| && s[end..] == rest && t[end..] == rest'
    && forall j :: 0 <= j <= end ==> t[j] == s[j]
  }

  lemma ExchangedAlongside(s: string, end: nat, rest: string, i: nat, j: nat, k: nat, v: nat, w: string)
    requires 0 < end < |s| && rest == s[end..] && i == end + j && 0 < j && k > 0 && j + k + 1 + v <= |rest|
    ensures Alongside(s, Exchanged(s, i, k, v, w), end, rest, Exchanged(rest, j, k, v, w))
  {
    ExchangedTail(s, end, i, k, v, w);
  }

  /** Texts that share a match and the character behind it, and whose rests normalise alike, normalise alike. */
  lemma SameBehindMatch(sc: Scanner, s: string, t: string, key: nat, value: nat, rest: string, rest': string, flag: bool)
    requires Proper(sc) && sc.at(s, false) == Match(key, value) && Alongside(s, t, key + 1 + value, rest, rest')
    requires flag == IsWord(sc.cls, s[key + value]) && Normalize(sc, rest', flag) == Normalize(sc, rest, flag)
    ensures Normalize(sc, t, false) == Normalize(sc, s, false)
  {
    var end := key + 1 + value;
    MatchFits(sc, s, false);
    MatchIsShape(sc, t, key, value);
    assert t[..key] == s[..key];
    SameParts(sc, s, key, value, t, value);
  }

  lemma {:induction false} ExchangeChangesNothing(sc: Scanner, s: string, afterWord: bool, i: nat, k: nat, v: nat, w: string)
    requires Proper(sc) && Matched(sc, s, afterWord, i, k, v) && ValueText(sc.cls, w)
    ensures i + k + 1 + v <= |s| && Normalize(sc, Exchanged(s, i, k, v, w), afterWord) == Normalize(sc, s, afterWord)
    decreases |s|, 1
  {
    MatchedUnfolds(sc, s, afterWord, i, k, v);
    var m := sc.at(s, afterWord);
    if m.NoMatch? {
      ExchangeOneOn(sc, s, afterWord, s[1..], IsWord(sc.cls, s[0]), i, i - 1, k, v, w);
    } else if i == 0 {
      ExchangeHere(sc, s, k, v, w);
    } else {
      var end := m.key + 1 + m.value;
      ExchangeFurtherOn(sc, s, m.key, m.value, s[end..], IsWord(sc.cls, s[end - 1]), i, i - end, k, v, w);
    }
  }

  lemma {:induction false} ExchangeOneOn(sc: Scanner, s: string, afterWord: bool, rest: string, flag: bool,
                                         i: nat, j: nat, k: nat, v: nat, w: string)
    requires Proper(sc) && ValueText(sc.cls, w) && s != "" && sc.at(s, afterWord).NoMatch? && i == j + 1
    requires rest == s[1..] && flag == IsWord(sc.cls, s[0]) && Matched(sc, rest, flag, j, k, v)
    ensures i + k + 1 + v <= |s| && Normalize(sc, Exchanged(s, i, k, v, w), afterWord) == Normalize(sc, s, afterWord)
    decreases |s|, 0
  {
    MatchedStarts(sc, rest, flag, j, k, v);
    ExchangeChangesNothing(sc, rest, flag, j, k, v, w);
    assert s[i] == rest[j] && (j > 0 ==> s[j] == rest[j - 1]);
    ExchangeBehindChar(sc, s, afterWord, i, k, v, w);
  }

  lemma {:induction false} ExchangeFurtherOn(sc: Scanner, s: string, key: nat, value: nat, rest: string, flag: bool,
                                             i: nat, j: nat, k: nat, v: nat, w: string)
    requires Proper(sc) && ValueText(sc.cls, w) && sc.at(s, false) == Match(key, value) && key + 1 + value <= |s|
    requires i == key + 1 + value + j
    requires rest == s[key + 1 + value..] && flag == IsWord(sc.cls, s[key + value]) && Matched(sc, rest, flag, j, k, v)
    ensures i + k + 1 + v <= |s| && Normalize(sc, Exchanged(s, i, k, v, w), false) == Normalize(sc, s, false)
    decreases |s|, 0
  {
    MatchedStarts(sc, rest, flag, j, k, v);
    ExchangeChangesNothing(sc, rest, flag, j, k, v, w);
    ExchangeBehindMatch(sc, s, key, value, rest, flag, i, j, k, v, w);
  }

  lemma ExchangeBehindMatch(sc: Scanner, s: string, key: nat, value: nat, rest: string, flag: bool,
                            i: nat, j: nat, k: nat, v: nat, w: string)
    requires Proper(sc) && sc.at(s, false) == Match(key, value) && key + 1 + value <= |s| && i == key + 1 + value + j
    requires rest == s[key + 1 + value..] && flag == IsWord(sc.cls, s[key + value])
    requires k > 0 && j + k + 1 + v <= |rest| && sc.cls(rest[j]).KeyStart?
    requires Normalize(sc, Exchanged(rest, j, k, v, w), flag) == Normalize(sc, rest, flag)
    ensures Normalize(sc, Exchanged(s, i, k, v, w), false) == Normalize(sc, s, false)
  {
    MatchEndsBefore(sc, s, key, value, rest, j);
    ExchangedAlongside(s, key + 1 + value, rest, i, j, k, v, w);
    SameBehindMatch(sc, s, Exchanged(s, i, k, v, w), key, value, rest, Exchanged(rest, j, k, v, w), flag);
  }

  /** The next match does not start right where a value ends. */
  lemma MatchEndsBefore(sc: Scanner, s: string, key: nat, value: nat, rest: string, j: nat)
    requires Proper(sc) && sc.at(s, false) == Match(key, value) && key + 1 + value <= |s| && rest == s[key + 1 + value..]
    requires j < |rest| && sc.cls(rest[j]).KeyStart?
    ensures 0 < j
  {
    MatchFits(sc, s, false);
  }

  /** The message has a `key=value` at position i, and w could stand for its value. */
  predicate CanExchange(text: string, i: nat, k: nat, v: nat, w: string) {
    Matched(KEY_VALUE, text, false, i, k, v) && ValueText(KindOf, w) && i + k + 1 + v <= |text|
  }

  /** Any matched value may be exchanged for any other without a difference. */
  lemma ValuesDoNotMatter(text: string, i: nat, k: nat, v: nat, w: string)
    requires CanExchange(text, i, k, v, w)
    ensures NormalizeMessage(Exchanged(text, i, k, v, w)) == NormalizeMessage(text)
  {
    KeyValueIsProper();
    ExchangeChangesNothing(KEY_VALUE, text, false, i, k, v, w);
  }

  // ---- Signatures ----

  const MAX_SIGNATURE_LENGTH := 1000
  const MESSAGE_LIMIT := 120

  function FirstChars(s: string, n: nat): (r: string)
    ensures |r| <= n && (|s| <= n ==> r == s)
  {
    if |s| <= n then s else s[..n]
  }

  function Lines(s: string): (r: seq<string>)
    ensures r != []
  {
    SplitOn(s, '\n')
  }

  function Frames(lines: seq<string>, n: nat): seq<string> {
    if lines == [] || n == 0 then [] else [Strip(lines[0])] + Frames(lines[1..], n - 1)
  }

  /** The exception line, normalised, and the top frames; without a stack, the start of the message. */
  function Signature(message: string, stack: string, frames: nat): (r: string)
    ensures |r| <= MAX_SIGNATURE_LENGTH
  {
    var text :=
      if stack == "" then NormalizeMessage(FirstChars(message, MESSAGE_LIMIT))
      else
        var lines := Lines(Strip(stack));
        JoinWith([NormalizeMessage(lines[0])] + Frames(lines[1..], frames), "|");
    FirstChars(text, MAX_SIGNATURE_LENGTH)
  }

  /** Without a stack, messages that fit the window and differ in a matched value have one signature. */
  lemma SignatureIgnoresValues(message: string, i: nat, k: nat, v: nat, w: string, frames: nat)
    requires CanExchange(message, i, k, v, w)
    requires |message| <= MESSAGE_LIMIT && |Exchanged(message, i, k, v, w)| <= MESSAGE_LIMIT
    ensures Signature(Exchanged(message, i, k, v, w), "", frames) == Signature(message, "", frames)
  {
    ValuesDoNotMatter(message, i, k, v, w);
  }

  // ---- Signatures with a stack ----

  predicate OneLine(l: string) {
    '\n' !in l
  }

  lemma {:induction false} FirstLine(t: string) returns (tail: string)
    ensures OneLine(Lines(t)[0]) && t == Lines(t)[0] + tail && (tail == "" || tail[0] == '\n')
    decreases |t|
  {
    if t == "" {
      tail := "";
    } else if t[0] == '\n' {
      tail := t;
    } else {
      tail := FirstLine(t[1..]);
      assert t == [t[0]] + t[1..] && [t[0]] + (Lines(t[1..])[0] + tail) == ([t[0]] + Lines(t[1..])[0]) + tail;
    }
  }

  lemma {:induction false} LinesOfFirst(l: string, tail: string)
    requires OneLine(l) && (tail == "" || tail[0] == '\n')
    ensures Lines(tail)[0] == "" && Lines(l + tail) == [l] + Lines(tail)[1..]
  {
    if l == "" {
      assert l + tail == tail;
    } else {
      LinesOfFirst(l[1..], tail);
      assert (l + tail)[1..] == l[1..] + tail && l == [l[0]] + l[1..];
    }
  }

  lemma ValueIsNoSpace(c: char)
    requires IsValue(KindOf, c)
    ensures !IsSpace(c) && c != '\n'
  {
  }

  lemma ExchangedStaysOneLine(l: string, i: nat, k: nat, v: nat, w: string)
    requires OneLine(l) && i + k + 1 + v <= |l| && ValueText(KindOf, w)
    ensures OneLine(Exchanged(l, i, k, v, w))
  {
    forall j | 0 <= j < |w| ensures w[j] != '\n' {
      ValueIsNoSpace(w[j]);
    }
  }

  lemma ExchangedKeepsEnds(t: string, i: nat, k: nat, v: nat, w: string)
    requires t != "" && !IsSpace(t[0]) && !IsSpace(t[|t| - 1]) && i + k + 1 + v <= |t| && ValueText(KindOf, w)
    ensures var x := Exchanged(t, i, k, v, w); x != "" && !IsSpace(x[0]) && !IsSpace(x[|x| - 1])
  {
    var x := Exchanged(t, i, k, v, w);
    ValueIsNoSpace(w[|w| - 1]);
    assert x[0] == t[0];
    assert x[|x| - 1] == if i + k + 1 + v == |t| then w[|w| - 1] else t[|t| - 1];
  }

  lemma ExchangedInFirstLine(l: string, tail: string, i: nat, k: nat, v: nat, w: string)
    requires i + k + 1 + v <= |l|
    ensures Exchanged(l + tail, i, k, v, w) == Exchanged(l, i, k, v, w) + tail
  {
    var n := i + k + 1;
    assert (l + tail)[..n] == l[..n] && (l + tail)[n + v..] == l[n + v..] + tail;
  }

  /** The signature's text for a stack that is not empty. */
  lemma SignatureOfStack(message: string, stack: string, frames: nat, l: string, rest: seq<string>)
    requires stack != "" && Lines(Strip(stack)) == [l] + rest
    ensures Signature(message, stack, frames) ==
            FirstChars(JoinWith([NormalizeMessage(l)] + Frames(rest, frames), "|"), MAX_SIGNATURE_LENGTH)
  {
    assert ([l] + rest)[1..] == rest;
  }

  /**
   * With a stack, exchanging a matched value in the exception line leaves the signature as it is: there is no window,
   * and neither the message nor white space around the stack matters.
   */
  lemma StackSignatureIgnoresValues(message: string, message': string, stack: string, before: string, after: string,
                                    i: nat, k: nat, v: nat, w: string, frames: nat)
    requires Blank(before) && Blank(after) && CanExchange(Lines(Strip(stack))[0], i, k, v, w)
    ensures i + k + 1 + v <= |Strip(stack)|
    ensures Signature(message', before + (Exchanged(Strip(stack), i, k, v, w) + after), frames) == Signature(message, stack, frames)
  {
    var t := Strip(stack);
    var l, rest := Lines(t)[0], Lines(t)[1..];
    assert Lines(t) == [l] + rest;
    ExchangedLines(t, i, k, v, w);
    ExchangedKeepsEnds(t, i, k, v, w);
    var x := Exchanged(t, i, k, v, w);
    StripAround(before, x, after);
    ValuesDoNotMatter(l, i, k, v, w);
    SignatureOfStack(message, stack, frames, l, rest);
    SignatureOfStack(message', before + (x + after), frames, Exchanged(l, i, k, v, w), rest);
  }

  lemma StripAround(before: string, x: string, after: string)
    requires Blank(before) && Blank(after) && x != "" && !IsSpace(x[0]) && !IsSpace(x[|x| - 1])
    ensures Strip(before + (x + after)) == x && before + (x + after) != ""
  {
    StripIgnoresBlankSuffix(x, after);
    StripIgnoresBlankPrefix(before, x + after);
  }

  /** An exchange within the first line leaves the other lines as they are. */
  lemma ExchangedLines(t: string, i: nat, k: nat, v: nat, w: string)
    requires i + k + 1 + v <= |Lines(t)[0]| && ValueText(KindOf, w)
    ensures i + k + 1 + v <= |t| && t != ""
    ensures Lines(Exchanged(t, i, k, v, w)) == [Exchanged(Lines(t)[0], i, k, v, w)] + Lines(t)[1..]
  {
    var l := Lines(t)[0];
    var tail := FirstLine(t);
    ExchangedInFirstLine(l, tail, i, k, v, w);
    ExchangedStaysOneLine(l, i, k, v, w);
    LinesOfFirst(l, tail);
    LinesOfFirst(Exchanged(l, i, k, v, w), tail);
  }
}
