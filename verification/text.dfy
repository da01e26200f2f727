/**
 Character classes, substring search, whitespace stripping and line splitting,
 as the scanner uses them from Python's `str` and `bytes` types.
 */
module Text {

  /** The characters `bytes.splitlines` breaks on, and that a file read in
      universal-newline mode turns into `\n`. */
  predicate IsLineBreak(c: char) {
    c == '\n' || c == '\r'
  }

  predicate NoLineBreak(s: string) {
    forall i :: 0 <= i < |s| ==> !IsLineBreak(s[i])
  }

  /** Python's `str.isspace`: the characters `str.strip()` removes. */
  predicate IsSpace(c: char) {
    var n := c as int;
    || (0x09 <= n <= 0x0D)
    || (0x1C <= n <= 0x20)
    || n == 0x85
    || n == 0xA0
    || n == 0x1680
    || (0x2000 <= n <= 0x200A)
    || n == 0x2028
    || n == 0x2029
    || n == 0x202F
    || n == 0x205F
    || n == 0x3000
  }

  /** ASCII whitespace: the bytes `bytes.strip()` removes. */
  predicate IsAsciiSpace(c: char) {
    c == ' ' || ('\t' <= c <= '\r')
  }

  /** The two whitespace classes the scanner strips with. */
  datatype Charset = StrSpace | BytesSpace

  predicate InClass(ws: Charset, c: char) {
    match ws
    case StrSpace => IsSpace(c)
    case BytesSpace => IsAsciiSpace(c)
  }

  /** `pattern in s` for strings (and for bytes, where the pattern is ASCII). */
  predicate Contains(s: string, pattern: string)
    decreases |s|
  {
    pattern <= s || (|s| > 0 && Contains(s[1..], pattern))
  }

  /** `pattern` sits in `s` at index `i`. */
  ghost predicate OccursAt(s: string, pattern: string, i: int) {
    0 <= i && i + |pattern| <= |s| && s[i..i + |pattern|] == pattern
  }

  /** `Contains` is substring search: the pattern occurs at some index. */
  lemma {:induction false} ContainsIffOccurs(s: string, pattern: string)
    ensures Contains(s, pattern) <==> exists i :: OccursAt(s, pattern, i)
    decreases |s|
  {
    if s != [] {
      ContainsIffOccurs(s[1..], pattern);
    }
    if Contains(s, pattern) {
      if pattern <= s {
        assert OccursAt(s, pattern, 0);
      } else {
        var i :| OccursAt(s[1..], pattern, i);
        assert s[1..][i..i + |pattern|] == s[i + 1..i + 1 + |pattern|];
        assert OccursAt(s, pattern, i + 1);
      }
    }
    if i :| OccursAt(s, pattern, i) {
      if i == 0 {
        assert s[..|pattern|] == pattern;
      } else if s != [] {
        assert s[i..i + |pattern|] == s[1..][i - 1..i - 1 + |pattern|];
        assert OccursAt(s[1..], pattern, i - 1);
      }
    }
  }

  lemma {:induction false} ContainsInSuffix(s: string, k: nat, pattern: string)
    requires k <= |s|
    requires Contains(s[k..], pattern)
    ensures Contains(s, pattern)
    decreases k
  {
    if k > 0 {
      assert s[1..][k - 1..] == s[k..];
      ContainsInSuffix(s[1..], k - 1, pattern);
    }
  }

  lemma {:induction false} ContainsInPrefix(s: string, k: nat, pattern: string)
    requires k <= |s|
    requires Contains(s[..k], pattern)
    ensures Contains(s, pattern)
    decreases k
  {
    if pattern <= s[..k] {
      assert s[..k] <= s;
    } else {
      assert s[..k][1..] == s[1..][..k - 1];
      ContainsInPrefix(s[1..], k - 1, pattern);
    }
  }

  /** Index of the first character from `i` on that is not in `ws`, or `|s|`. */
  function SkipFrom(s: string, ws: Charset, i: nat): (a: nat)
    requires i <= |s|
    requires forall k :: 0 <= k < i ==> InClass(ws, s[k])
    ensures i <= a <= |s|
    ensures forall k :: 0 <= k < a ==> InClass(ws, s[k])
    ensures a < |s| ==> !InClass(ws, s[a])
    decreases |s| - i
  {
    if i < |s| && InClass(ws, s[i]) then SkipFrom(s, ws, i + 1) else i
  }

  /** Going back from `j` to no lower than `lo`: the end of the last character
      not in `ws`, or `lo`. */
  function BackFrom(s: string, ws: Charset, lo: nat, j: nat): (b: nat)
    requires lo <= j <= |s|
    requires forall k :: j <= k < |s| ==> InClass(ws, s[k])
    ensures lo <= b <= j
    ensures forall k :: b <= k < |s| ==> InClass(ws, s[k])
    ensures lo < b ==> !InClass(ws, s[b - 1])
    decreases j
  {
    if lo < j && InClass(ws, s[j - 1]) then BackFrom(s, ws, lo, j - 1) else j
  }

  predicate IsStrippedBy(s: string, ws: Charset) {
    s == [] || (!InClass(ws, s[0]) && !InClass(ws, s[|s| - 1]))
  }

  /** `r` is what is left of `s` once the `a` characters before it and all the
      characters after it, each in `ws`, are removed. */
  ghost predicate StripsTo(s: string, r: string, a: int, ws: Charset) {
    && 0 <= a <= |s| - |r|
    && r == s[a..a + |r|]
    && (forall i :: 0 <= i < a ==> InClass(ws, s[i]))
    && (forall i :: a + |r| <= i < |s| ==> InClass(ws, s[i]))
  }

  /** Python's `strip()` with the whitespace class `ws`: the result is the
      infix of `s` left after removing every whitespace character at either end. */
  function StripWith(s: string, ws: Charset): (r: string)
    ensures IsStrippedBy(r, ws)
    ensures exists a :: StripsTo(s, r, a, ws)
    ensures r == [] <==> forall i :: 0 <= i < |s| ==> InClass(ws, s[i])
  {
    var a := SkipFrom(s, ws, 0);
    var b := BackFrom(s, ws, a, |s|);
    assert StripsTo(s, s[a..b], a, ws);
    s[a..b]
  }

  /** A string that `StripWith` leaves alone is returned unchanged. */
  lemma StripStripped(s: string, ws: Charset)
    requires IsStrippedBy(s, ws)
    ensures StripWith(s, ws) == s
  {
  }

  /** `str.strip()` */
  function Strip(s: string): string {
    StripWith(s, StrSpace)
  }

  /** `bytes.strip()` on a line, the line being read as characters. Its
      emptiness is the blank-line test: it is empty exactly when every
      character is ASCII whitespace. */
  function StripBytes(s: string): (r: string)
    ensures r == [] <==> forall i :: 0 <= i < |s| ==> IsAsciiSpace(s[i])
    ensures r != [] ==> !IsAsciiSpace(r[0]) && !IsAsciiSpace(r[|r| - 1])
  {
    StripWith(s, BytesSpace)
  }

  predicate IsStripped(s: string) {
    IsStrippedBy(s, StrSpace)
  }

  /** Stripping never introduces a line break: the result is an infix. */
  lemma StripKeepsNoLineBreak(s: string)
    requires NoLineBreak(s)
    ensures NoLineBreak(Strip(s))
  {
    var r := Strip(s);
    var a :| StripsTo(s, r, a, StrSpace);
    assert forall i :: 0 <= i < |r| ==> r[i] == s[a + i];
  }

  /** Stripping a stripped line with a newline appended gives the line back:
      this is what reading a written snapshot line does. */
  lemma StripNewlineTerminated(x: string)
    requires IsStripped(x)
    ensures Strip(x + "\n") == x
  {
    var s := x + "\n";
    if x == [] {
      assert SkipFrom(s, StrSpace, 0) == |s|;
    } else {
      assert s[0] == x[0] && s[|s| - 2] == x[|x| - 1];
      assert SkipFrom(s, StrSpace, 0) == 0;
      assert BackFrom(s, StrSpace, 0, |s|) == BackFrom(s, StrSpace, 0, |s| - 1) == |x|;
      assert s[0..|x|] == x;
    }
  }

  /** Index of the first `\n`, or `|t|`: where `readlines()` and `split('\n')` cut. */
  function NewlineEnd(t: string): (i: nat)
    ensures i <= |t|
    ensures i < |t| ==> t[i] == '\n'
    ensures forall k :: 0 <= k < i ==> t[k] != '\n'
    decreases |t|
  {
    if t == [] || t[0] == '\n' then 0 else 1 + NewlineEnd(t[1..])
  }

  predicate NoNewline(s: string) {
    forall j :: 0 <= j < |s| ==> s[j] != '\n'
  }

  /** Index of the first line break in `s`, or `|s|` when there is none. */
  function LineEnd(s: string): (i: nat)
    ensures i <= |s|
    ensures i < |s| ==> IsLineBreak(s[i])
    ensures forall k :: 0 <= k < i ==> !IsLineBreak(s[k])
    decreases |s|
  {
    if s == [] || IsLineBreak(s[0]) then 0 else 1 + LineEnd(s[1..])
  }

  /** Where the line after the first line break starts: `\r\n` is one break. */
  function NextLine(s: string): (n: nat)
    requires LineEnd(s) < |s|
    ensures LineEnd(s) < n <= |s|
  {
    var i := LineEnd(s);
    if s[i] == '\r' && i + 1 < |s| && s[i + 1] == '\n' then i + 2 else i + 1
  }

  /** `bytes.splitlines()`: lines end at `\n`, `\r` or `\r\n`; the terminators are
      dropped and a final terminator does not start an extra empty line. */
  function SplitLines(s: string): (r: seq<string>)
    ensures |r| <= |s|
    ensures forall k :: 0 <= k < |r| ==> NoLineBreak(r[k])
    ensures s == [] <==> r == []
    decreases |s|
  {
    if s == [] then []
    else if LineEnd(s) == |s| then [s]
    else [s[..LineEnd(s)]] + SplitLines(s[NextLine(s)..])
  }

  /** A non-empty text without line breaks is one line, kept whole. */
  lemma SplitLinesOfLine(p: string)
    requires p != [] && NoLineBreak(p)
    ensures SplitLines(p) == [p]
  {
  }

  /** A line without breaks followed by `\n` splits off as the first line. */
  lemma SplitLinesCons(p: string, w: string)
    requires NoLineBreak(p)
    ensures SplitLines(p + "\n" + w) == [p] + SplitLines(w)
  {
    var s := p + "\n" + w;
    assert LineEnd(s) == |p| by {
      assert forall j :: 0 <= j < |p| ==> s[j] == p[j];
      assert s[|p|] == '\n';
    }
    assert NextLine(s) == |p| + 1;
    assert s[..|p|] == p;
    assert s[|p| + 1..] == w;
  }

  /** A pattern found in one of the lines is found in the whole text. */
  lemma {:induction false} ContainsInSplitLine(s: string, k: nat, pattern: string)
    requires k < |SplitLines(s)|
    requires Contains(SplitLines(s)[k], pattern)
    ensures Contains(s, pattern)
    decreases |s|
  {
    if LineEnd(s) < |s| {
      var rest := SplitLines(s[NextLine(s)..]);
      assert SplitLines(s) == [s[..LineEnd(s)]] + rest;
      if k == 0 {
        ContainsInPrefix(s, LineEnd(s), pattern);
      } else {
        assert SplitLines(s)[k] == rest[k - 1];
        ContainsInSplitLine(s[NextLine(s)..], k - 1, pattern);
        ContainsInSuffix(s, NextLine(s), pattern);
      }
    }
  }
}
