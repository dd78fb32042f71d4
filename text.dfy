/** The Python string operations the comparison engine relies on, over
    strings of Unicode code points. */
module Text {

  /** The code points Python 3's `str.isspace()` accepts, as inclusive ranges. */
  const SpaceRanges: seq<(char, char)> := [
    (' ', ' '), ('\t', '\r'), ('\U{1C}', '\U{1F}'), ('\U{85}', '\U{85}'), ('\U{A0}', '\U{A0}'),
    ('\U{1680}', '\U{1680}'), ('\U{2000}', '\U{200A}'), ('\U{2028}', '\U{2029}'),
    ('\U{202F}', '\U{202F}'), ('\U{205F}', '\U{205F}'), ('\U{3000}', '\U{3000}')]

  predicate InRanges(ch: char, ranges: seq<(char, char)>) {
    ranges != [] && ((ranges[0].0 <= ch <= ranges[0].1) || InRanges(ch, ranges[1..]))
  }

  /** `ch.isspace()` in Python 3. */
  predicate IsSpace(ch: char) {
    InRanges(ch, SpaceRanges)
  }

  /** `s.lstrip()`: the longest suffix of `s` that does not start with white space. */
  function StripLeft(s: string): (r: string)
    ensures |r| <= |s| && r == s[|s| - |r|..]
    ensures r == [] || !IsSpace(r[0])
    ensures forall i :: 0 <= i < |s| - |r| ==> IsSpace(s[i])
  {
    if s != [] && IsSpace(s[0]) then StripLeft(s[1..]) else s
  }

  /** `s.rstrip()`: the longest prefix of `s` that does not end with white space. */
  function StripRight(s: string): (r: string)
    ensures |r| <= |s| && r == s[..|r|]
    ensures r == [] || !IsSpace(r[|r| - 1])
    ensures forall i :: |r| <= i < |s| ==> IsSpace(s[i])
  {
    if s != [] && IsSpace(s[|s| - 1]) then StripRight(s[..|s| - 1]) else s
  }

  /** `s.strip()`. */
  function Strip(s: string): (r: string)
    ensures |r| <= |s|
    ensures r == [] || (!IsSpace(r[0]) && !IsSpace(r[|r| - 1]))
  {
    StripRight(StripLeft(s))
  }

  /** `not s.strip()`: the text holds nothing but white space. */
  predicate IsBlank(s: string) {
    forall i | 0 <= i < |s| :: IsSpace(s[i])
  }

  /** Blank text is exactly the text that strips to nothing. */
  lemma BlankIffStripEmpty(s: string)
    ensures IsBlank(s) <==> Strip(s) == []
  {
    var l := StripLeft(s);
    if l != [] {
      assert !IsSpace(l[0]) && l[0] == s[|s| - |l|];
      assert StripRight(l) != [];
    }
  }

  /** A string with no white space at either end is its own strip. */
  lemma {:induction false} StripTrimmed(s: string)
    requires s == [] || (!IsSpace(s[0]) && !IsSpace(s[|s| - 1]))
    ensures Strip(s) == s
  {
  }

  /** Stripping once is enough. */
  lemma StripIdempotent(s: string)
    ensures Strip(Strip(s)) == Strip(s)
  {
    StripTrimmed(Strip(s));
  }

  /** White space that cannot reach an end of the text is kept. */
  lemma {:induction false} StripLeftAppend(a: string, b: string)
    requires exists i :: 0 <= i < |a| && !IsSpace(a[i])
    ensures StripLeft(a + b) == StripLeft(a) + b
  {
    if IsSpace(a[0]) {
      assert (a + b)[1..] == a[1..] + b;
      var i :| 0 <= i < |a| && !IsSpace(a[i]);
      assert !IsSpace(a[1..][i - 1]);
      StripLeftAppend(a[1..], b);
    }
  }

  lemma {:induction false} StripRightPrepend(a: string, b: string)
    requires exists i :: 0 <= i < |b| && !IsSpace(b[i])
    ensures StripRight(a + b) == a + StripRight(b)
  {
    if IsSpace(b[|b| - 1]) {
      assert (a + b)[..|a + b| - 1] == a + b[..|b| - 1];
      var i :| 0 <= i < |b| && !IsSpace(b[i]);
      assert !IsSpace(b[..|b| - 1][i]);
      StripRightPrepend(a, b[..|b| - 1]);
    }
  }

  /** `s.find(ch)`: the index of the first occurrence of `ch`, or -1. */
  function Find(s: string, ch: char): (i: int)
    ensures -1 <= i < |s|
    ensures i == -1 <==> ch !in s
    ensures 0 <= i ==> s[i] == ch && ch !in s[..i]
  {
    if s == [] then -1
    else if s[0] == ch then 0
    else
      var j := Find(s[1..], ch);
      assert s == [s[0]] + s[1..];
      if j == -1 then -1 else j + 1
  }

  /** `s.endswith(suffix)`. */
  predicate EndsWith(s: string, suffix: string) {
    |suffix| <= |s| && s[|s| - |suffix|..] == suffix
  }

  /** `s.split(sep, 1)` unpacked into two names: the text before the first
      `sep` and the text after it, or None when `s` has no `sep` (Python
      raises ValueError at the unpacking). */
  datatype Split = NoSeparator | Halves(before: string, after: string)

  function SplitOnce(s: string, sep: char): (r: Split)
    ensures r.NoSeparator? <==> sep !in s
    ensures r.Halves? ==> sep !in r.before && s == r.before + [sep] + r.after
  {
    var i := Find(s, sep);
    if i == -1 then NoSeparator
    else
      assert s == s[..i] + [sep] + s[i + 1..];
      Halves(s[..i], s[i + 1..])
  }

  /** The halves of a split are determined by the text: splitting the
      joined halves back at the first separator gives them back. */
  lemma {:induction false} SplitOnceJoin(before: string, sep: char, after: string)
    requires sep !in before
    ensures SplitOnce(before + [sep] + after, sep) == Halves(before, after)
  {
    var s := before + [sep] + after;
    var r := SplitOnce(s, sep);
    var i := Find(s, sep);
    assert s[|before|] == sep;
    assert r.before == s[..|before|] == before;
    assert s[|before| + 1..] == after;
  }

  /** `''.join(lines)`. */
  function Join(lines: seq<string>): string
  {
    if lines == [] then [] else lines[0] + Join(lines[1..])
  }
}
