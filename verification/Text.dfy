/** White space and trimming, as the source language's strings define them. */
module Text {

  /** The characters that count as white space in a Unicode string. */
  predicate IsSpace(c: char) {
    var n := c as int;
    || 0x09 <= n <= 0x0D || 0x1C <= n <= 0x20 || n == 0x85 || n == 0xA0 || n == 0x1680
    || 0x2000 <= n <= 0x200A || n == 0x2028 || n == 0x2029 || n == 0x202F || n == 0x205F || n == 0x3000
  }

  predicate Blank(s: string) {
    forall i :: 0 <= i < |s| ==> IsSpace(s[i])
  }

  /** The text without leading and trailing white space. */
  function Strip(s: string): (r: string)
    ensures r != "" ==> !IsSpace(r[0]) && !IsSpace(r[|r| - 1])
    decreases |s|
  {
    if s != "" && IsSpace(s[0]) then Strip(s[1..])
    else if s != "" && IsSpace(s[|s| - 1]) then Strip(s[..|s| - 1])
    else s
  }

  /** Stripping removes a blank prefix and a blank suffix and nothing else. */
  lemma {:induction false} StripRemovesBlankEnds(s: string) returns (before: string, after: string)
    ensures Blank(before) && Blank(after) && s == before + (Strip(s) + after)
    decreases |s|
  {
    if s != "" && IsSpace(s[0]) {
      before, after := StripRemovesBlankEnds(s[1..]);
      Prepended(s, before, Strip(s) + after);
      before := [s[0]] + before;
    } else if s != "" && IsSpace(s[|s| - 1]) {
      before, after := StripRemovesBlankEnds(s[..|s| - 1]);
      Appended(s, before, Strip(s), after);
      after := after + [s[|s| - 1]];
    } else {
      before, after := "", "";
    }
  }

  lemma Prepended(s: string, before: string, rest: string)
    requires s != "" && IsSpace(s[0]) && Blank(before) && s[1..] == before + rest
    ensures Blank([s[0]] + before) && s == ([s[0]] + before) + rest
  {
    assert s == [s[0]] + s[1..];
  }

  lemma Appended(s: string, before: string, mid: string, after: string)
    requires s != "" && IsSpace(s[|s| - 1]) && Blank(after) && s[..|s| - 1] == before + (mid + after)
    ensures Blank(after + [s[|s| - 1]]) && s == before + (mid + (after + [s[|s| - 1]]))
  {
    assert s == s[..|s| - 1] + [s[|s| - 1]];
  }

  lemma {:induction false} StripIgnoresBlankPrefix(w: string, s: string)
    requires Blank(w)
    ensures Strip(w + s) == Strip(s)
  {
    if w == "" {
      assert w + s == s;
    } else {
      assert (w + s)[0] == w[0] && (w + s)[1..] == w[1..] + s;
      StripIgnoresBlankPrefix(w[1..], s);
    }
  }

  lemma {:induction false} StripIgnoresBlankSuffix(s: string, w: string)
    requires Blank(w) && s != "" && !IsSpace(s[0]) && !IsSpace(s[|s| - 1])
    ensures Strip(s + w) == s
  {
    if w == "" {
      assert s + w == s;
    } else {
      var n := |w| - 1;
      assert (s + w)[..|s| + n] == s + w[..n] && (s + w)[|s| + n] == w[n];
      StripIgnoresBlankSuffix(s, w[..n]);
    }
  }

  /** A text is cut at its first separator in only one way. */
  lemma {:induction false} CutIsUnique(a: string, b: string, a': string, b': string, c: char)
    requires c !in a && c !in a' && a + [c] + b == a' + [c] + b'
    ensures a == a' && b == b'
  {
    var s, s' := a + [c] + b, a' + [c] + b';
    assert s[|a|] == c && s'[|a'|] == c;
    assert |a| == |a'|;
    assert s[..|a|] == a && s'[..|a|] == a';
    assert s[|a| + 1..] == b && s'[|a| + 1..] == b';
  }

  /** Parts joined by a separator. */
  function JoinWith(parts: seq<string>, sep: string): string {
    if parts == [] then "" else if |parts| == 1 then parts[0] else parts[0] + (sep + JoinWith(parts[1..], sep))
  }

  /** The parts between separators; a text without one is its only part. */
  function SplitOn(s: string, c: char): (r: seq<string>)
    ensures r != []
    decreases |s|
  {
    if s == "" then [""]
    else
      var rest := SplitOn(s[1..], c);
      if s[0] == c then [""] + rest else [[s[0]] + rest[0]] + rest[1..]
  }
}
