/**
 The snapshot file: the extracted lines written one per line, and read back
 with Python's text-mode `readlines()` followed by `strip()` on each line.
 Only the text of the file is modelled; whether it exists is an `Option`
 handled by the caller.
 */
module Snapshot {
  import opened Text

  /** Writing: each line followed by `\n`. */
  function Encode(lines: seq<string>): (r: string)
    ensures lines == [] <==> r == []
    ensures r != [] ==> r[|r| - 1] == '\n'
    decreases |lines|
  {
    if lines == [] then [] else lines[0] + "\n" + Encode(lines[1..])
  }

  /** Universal-newline translation of a file opened for reading in text mode:
      `\r\n` and a lone `\r` both become `\n`. */
  function Translate(t: string): (r: string)
    ensures forall i :: 0 <= i < |r| ==> r[i] != '\r'
    ensures (forall i :: 0 <= i < |t| ==> t[i] != '\r') ==> r == t
    decreases |t|
  {
    if t == [] then []
    else if t[0] == '\r' then "\n" + Translate(if |t| > 1 && t[1] == '\n' then t[2..] else t[1..])
    else [t[0]] + Translate(t[1..])
  }

  function Concat(xs: seq<string>): string
    decreases |xs|
  {
    if xs == [] then [] else xs[0] + Concat(xs[1..])
  }

  /** A line as `readlines()` returns it: non-empty, `\n` nowhere but at the end. */
  predicate IsReadLine(s: string) {
    s != [] && forall j :: 0 <= j < |s| - 1 ==> s[j] != '\n'
  }

  /** `readlines()`: the text cut after every `\n`, terminators kept; the last
      line may lack one. */
  function ReadLines(t: string): (r: seq<string>)
    ensures Concat(r) == t
    ensures forall k :: 0 <= k < |r| ==> IsReadLine(r[k])
    ensures forall k :: 0 <= k < |r| - 1 ==> r[k] != [] && r[k][|r[k]| - 1] == '\n'
    decreases |t|
  {
    if t == [] then []
    else
      var i := NewlineEnd(t);
      if i == |t| then
        assert [t][1..] == [];
        [t]
      else
        var rest := ReadLines(t[i + 1..]);
        assert t == t[..i + 1] + t[i + 1..];
        assert ([t[..i + 1]] + rest)[1..] == rest;
        [t[..i + 1]] + rest
  }

  /** Reading: `[l.strip() for l in fp.readlines()]`. */
  function Decode(text: string): (r: seq<string>)
    ensures forall k :: 0 <= k < |r| ==> IsStripped(r[k]) && NoLineBreak(r[k])
  {
    var ls := ReadLines(Translate(text));
    forall k | 0 <= k < |ls|
      ensures NoLineBreak(Strip(ls[k]))
    {
      ReadLineInText(Translate(text), k);
      StripReadLine(ls[k]);
    }
    seq(|ls|, k requires 0 <= k < |ls| => Strip(ls[k]))
  }

  /** Lines read from a text without `\r` carry no `\r`. */
  lemma {:induction false} ReadLineInText(t: string, k: nat)
    requires forall i :: 0 <= i < |t| ==> t[i] != '\r'
    requires k < |ReadLines(t)|
    ensures forall j :: 0 <= j < |ReadLines(t)[k]| ==> ReadLines(t)[k][j] != '\r'
    decreases |t|
  {
    var i := NewlineEnd(t);
    if i < |t| && k > 0 {
      ReadLineInText(t[i + 1..], k - 1);
    }
  }

  /** Stripping a read line removes its terminator and leaves no line break. */
  lemma StripReadLine(s: string)
    requires IsReadLine(s)
    requires forall j :: 0 <= j < |s| ==> s[j] != '\r'
    ensures NoLineBreak(Strip(s))
  {
    var r := Strip(s);
    var a :| StripsTo(s, r, a, StrSpace);
    forall j | 0 <= j < |r|
      ensures !IsLineBreak(r[j])
    {
      assert r[j] == s[a + j];
      if a + j == |s| - 1 {
        assert j == |r| - 1;
        assert !IsSpace(r[j]);
      }
    }
  }

  /** A written snapshot has no `\r`, so reading it translates nothing. */
  lemma {:induction false} EncodeHasNoCarriageReturn(lines: seq<string>)
    requires forall k :: 0 <= k < |lines| ==> NoLineBreak(lines[k])
    ensures forall i :: 0 <= i < |Encode(lines)| ==> Encode(lines)[i] != '\r'
    decreases |lines|
  {
    if lines != [] {
      EncodeHasNoCarriageReturn(lines[1..]);
      var e := Encode(lines);
      var rest := Encode(lines[1..]);
      assert e == lines[0] + ("\n" + rest);
      forall i | 0 <= i < |e|
        ensures e[i] != '\r'
      {
        if i < |lines[0]| {
          assert e[i] == lines[0][i];
        } else if i > |lines[0]| {
          assert e[i] == rest[i - |lines[0]| - 1];
        }
      }
    }
  }

  /** `readlines()` on a written snapshot returns each line with its `\n`. */
  lemma {:induction false} ReadLinesOfEncoded(lines: seq<string>)
    requires forall k :: 0 <= k < |lines| ==> NoLineBreak(lines[k])
    ensures |ReadLines(Encode(lines))| == |lines|
    ensures forall k :: 0 <= k < |lines| ==> ReadLines(Encode(lines))[k] == lines[k] + "\n"
    decreases |lines|
  {
    if lines != [] {
      var e := Encode(lines);
      var x := lines[0];
      var rest := Encode(lines[1..]);
      assert e == (x + "\n") + rest;
      assert NewlineEnd(e) == |x| by {
        assert NoLineBreak(x);
        assert forall j :: 0 <= j < |x| ==> e[j] == x[j];
        assert e[|x|] == '\n';
      }
      assert e[..|x| + 1] == x + "\n";
      assert e[|x| + 1..] == rest;
      ReadLinesOfEncoded(lines[1..]);
      assert ReadLines(e) == [x + "\n"] + ReadLines(rest);
    }
  }

  /** Splitting a written snapshot into lines gives back the lines written:
      `Encode` and `SplitLines` are inverse on lines without breaks. */
  lemma {:induction false} SplitLinesOfEncoded(lines: seq<string>)
    requires forall k :: 0 <= k < |lines| ==> NoLineBreak(lines[k])
    ensures SplitLines(Encode(lines)) == lines
    decreases |lines|
  {
    if lines != [] {
      SplitLinesCons(lines[0], Encode(lines[1..]));
      SplitLinesOfEncoded(lines[1..]);
    }
  }

  /** Translation of a text that starts with a line break: one `\n`, then the
      translation of the text after the break. */
  lemma TranslateAtBreak(t: string)
    requires t != [] && IsLineBreak(t[0])
    ensures LineEnd(t) == 0
    ensures Translate(t) == "\n" + Translate(t[NextLine(t)..])
  {
  }

  /** The first line of `t` when `t` does not start with a break: its first
      character, then the first line of the rest. */
  lemma FirstLineAfterHead(t: string)
    requires LineEnd(t) < |t| && !IsLineBreak(t[0])
    ensures LineEnd(t[1..]) < |t[1..]|
    ensures t[..LineEnd(t)] == [t[0]] + t[1..][..LineEnd(t[1..])]
    ensures t[1..][NextLine(t[1..])..] == t[NextLine(t)..]
  {
  }

  /** Moving a prefix inside a line-joined text. */
  lemma Regroup(a: string, b: string, c: string)
    ensures a + (b + "\n" + c) == (a + b) + "\n" + c
  {
  }

  /** The text of a line-broken `t` after translation: the first line, one `\n`,
      and the translation of what follows the first break. */
  lemma {:induction false} TranslateFirstLine(t: string)
    requires LineEnd(t) < |t|
    ensures Translate(t) == t[..LineEnd(t)] + "\n" + Translate(t[NextLine(t)..])
    decreases |t|
  {
    if IsLineBreak(t[0]) {
      TranslateAtBreak(t);
      assert t[..0] + "\n" == "\n";
    } else {
      var u := t[1..];
      FirstLineAfterHead(t);
      TranslateFirstLine(u);
      assert Translate(t) == [t[0]] + Translate(u);
      Regroup([t[0]], u[..LineEnd(u)], Translate(u[NextLine(u)..]));
    }
  }

  /** Splitting into lines sees through universal-newline translation: the
      page's `splitlines()` and the snapshot's text-mode reading agree on
      where the lines are. */
  lemma {:induction false} SplitLinesTranslate(t: string)
    ensures SplitLines(Translate(t)) == SplitLines(t)
    decreases |t|
  {
    if LineEnd(t) < |t| {
      TranslateFirstLine(t);
      var p := t[..LineEnd(t)];
      var rest := t[NextLine(t)..];
      SplitLinesCons(p, Translate(rest));
      SplitLinesTranslate(rest);
    } else {
      assert forall i :: 0 <= i < |t| ==> !IsLineBreak(t[i]);
    }
  }

  /** Reading back a written snapshot gives the lines that were written, as
      long as each is stripped and has no line break (the extractor's output
      always is). */
  lemma RoundTrip(lines: seq<string>)
    requires forall k :: 0 <= k < |lines| ==> IsStripped(lines[k]) && NoLineBreak(lines[k])
    ensures Decode(Encode(lines)) == lines
  {
    EncodeHasNoCarriageReturn(lines);
    ReadLinesOfEncoded(lines);
    var d := Decode(Encode(lines));
    forall k | 0 <= k < |lines|
      ensures d[k] == lines[k]
    {
      StripNewlineTerminated(lines[k]);
    }
  }

  /** Loading a snapshot and saving it again changes nothing that a later
      load would see. */
  lemma ReloadIsStable(text: string)
    ensures Decode(Encode(Decode(text))) == Decode(text)
  {
    RoundTrip(Decode(text));
  }
}
