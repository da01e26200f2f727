/**
 The section extractor of `cli`: a line scanner that skips the page up to the
 first "Last Updated: " line, then captures lines until the first line that
 mentions "HIPAA" and is not itself a "Last Updated: " line.

 The markup stripper (`strip_tags`, a wrapper around the standard HTML
 parser) is a parameter `stripTags` of every operation here; nothing is
 assumed about it except where a lemma says so.
 */
module Extractor {
  import opened Text

  /** The literal that starts the captured section. */
  const Marker := "Last Updated: "

  /** The literal that ends it. */
  const StopToken := "HIPAA"

  predicate IsMarker(line: string) {
    Contains(line, Marker)
  }

  /** A line that ends the scan once capturing has started. The marker test
      comes first in the loop, so a marker line is never a stop line. */
  predicate IsStop(line: string) {
    Contains(line, StopToken) && !IsMarker(line)
  }

  /** A line with its markup removed and its whitespace stripped:
      `strip_tags(str(l, 'utf-8')).strip()`. */
  function Clean(line: string, stripTags: string -> string): (r: string)
    ensures IsStripped(r)
  {
    Strip(stripTags(line))
  }

  /** The markup stripper keeps text without line breaks free of them: its
      output is the input's text with the tags removed and entity references
      re-emitted as written. */
  ghost predicate KeepsLinesWhole(stripTags: string -> string) {
    forall s :: NoLineBreak(s) ==> NoLineBreak(stripTags(s))
  }

  /** Where the scanner is. `Skipping` and `Capturing` are the two values of the
      source's `add_lines` flag; `Stopped` is the state after its `break`. */
  datatype Mode = Skipping | Capturing | Stopped

  /** What one line adds to the output and the mode it leaves the scanner in:
      the body of the source's `for` loop. */
  datatype Step = Step(emitted: seq<string>, next: Mode)

  function StepLine(mode: Mode, line: string, stripTags: string -> string): (s: Step)
    ensures mode == Stopped ==> s == Step([], Stopped)
    ensures mode != Stopped && IsMarker(line) ==> s == Step([Clean(line, stripTags)], Capturing)
    ensures mode == Skipping && !IsMarker(line) ==> s == Step([], Skipping)
    ensures mode == Capturing && IsStop(line) ==> s == Step([], Stopped)
    ensures mode == Capturing && !IsMarker(line) && !IsStop(line) ==>
              s.next == Capturing
              && s.emitted == (if StripBytes(line) != [] && Clean(line, stripTags) != []
                               then [Clean(line, stripTags)] else [])
    ensures |s.emitted| <= 1
    ensures forall e :: e in s.emitted ==> e == Clean(line, stripTags)
    ensures forall e :: e in s.emitted ==> e != [] || IsMarker(line)
  {
    if mode == Stopped then Step([], Stopped)
    else if IsMarker(line) then Step([Clean(line, stripTags)], Capturing)
    else if mode == Capturing && Contains(line, StopToken) then Step([], Stopped)
    else if mode == Capturing && StripBytes(line) != [] && Clean(line, stripTags) != [] then
      Step([Clean(line, stripTags)], Capturing)
    else Step([], mode)
  }

  /** The output of scanning `lines` from mode `mode`. */
  function Scan(lines: seq<string>, mode: Mode, stripTags: string -> string): (r: seq<string>)
    ensures |r| <= |lines|
    ensures forall k :: 0 <= k < |r| ==> IsStripped(r[k])
    ensures mode == Stopped ==> r == []
    decreases |lines|
  {
    if lines == [] then []
    else
      var s := StepLine(mode, lines[0], stripTags);
      s.emitted + Scan(lines[1..], s.next, stripTags)
  }

  /** The mode the scanner is in after `lines`. */
  function ModeAfter(lines: seq<string>, mode: Mode, stripTags: string -> string): Mode
    decreases |lines|
  {
    if lines == [] then mode
    else ModeAfter(lines[1..], StepLine(mode, lines[0], stripTags).next, stripTags)
  }

  /** The extracted section of a page: the scan of its lines from `Skipping`.
      `ExtractIsSection` gives its value. */
  function Extract(page: string, stripTags: string -> string): (r: seq<string>)
    ensures |r| <= |page|
    ensures forall k :: 0 <= k < |r| ==> IsStripped(r[k])
  {
    Scan(SplitLines(page), Skipping, stripTags)
  }

  /** The extraction loop as the source writes it: a boolean flag, `continue`
      after a marker line and `break` at the stop line. */
  method ExtractSection(page: string, stripTags: string -> string) returns (content: seq<string>)
    ensures content == Extract(page, stripTags)
  {
    var lines := SplitLines(page);
    content := [];
    var addLines := false;
    var i := 0;
    while i < |lines|
      invariant 0 <= i <= |lines|
      invariant content + Scan(lines[i..], if addLines then Capturing else Skipping, stripTags)
                == Scan(lines, Skipping, stripTags)
    {
      var l := lines[i];
      ghost var before := content;
      ghost var mode := if addLines then Capturing else Skipping;
      ghost var step := StepLine(mode, l, stripTags);
      ghost var tail := Scan(lines[i + 1..], step.next, stripTags);
      ScanFrom(lines, i, mode, stripTags);
      assert before + (step.emitted + tail) == Scan(lines, Skipping, stripTags);
      if Contains(l, Marker) {
        assert IsMarker(l);
        assert step.emitted == [Clean(l, stripTags)] && step.next == Capturing;
        content := content + [Clean(l, stripTags)];
        addLines := true;
        i := i + 1;
        Associative(before, step.emitted, tail);
        assert Scan(lines[i..], Capturing, stripTags) == tail;
        continue;
      }
      if addLines && Contains(l, StopToken) {
        assert Scan(lines[i..], mode, stripTags) == [];
        break;
      }
      assert !IsMarker(l) && !(addLines && Contains(l, StopToken));
      assert step.next == mode;
      if addLines && StripBytes(l) != [] {
        var stripped := Clean(l, stripTags);
        if stripped != [] {
          assert step.emitted == [stripped];
          content := content + [stripped];
          Associative(before, step.emitted, tail);
        } else {
          assert step.emitted + tail == tail;
        }
      } else {
        assert step.emitted + tail == tail;
      }
      i := i + 1;
      assert Scan(lines[i..], mode, stripTags) == tail;
    }
  }

  lemma Associative(a: seq<string>, b: seq<string>, c: seq<string>)
    ensures (a + b) + c == a + (b + c)
  {
  }

  /** One step of the scan at position `i`. */
  lemma ScanFrom(lines: seq<string>, i: nat, mode: Mode, stripTags: string -> string)
    requires i < |lines|
    ensures Scan(lines[i..], mode, stripTags)
            == StepLine(mode, lines[i], stripTags).emitted
               + Scan(lines[i + 1..], StepLine(mode, lines[i], stripTags).next, stripTags)
  {
    assert lines[i..][1..] == lines[i + 1..];
  }

  // ---------------------------------------------------------------------------
  // Composition

  lemma {:induction false} ScanAppend(a: seq<string>, b: seq<string>, mode: Mode, stripTags: string -> string)
    ensures Scan(a + b, mode, stripTags)
            == Scan(a, mode, stripTags) + Scan(b, ModeAfter(a, mode, stripTags), stripTags)
    decreases |a|
  {
    if a == [] {
      assert a + b == b;
    } else {
      var s := StepLine(mode, a[0], stripTags);
      assert (a + b)[0] == a[0];
      assert (a + b)[1..] == a[1..] + b;
      assert Scan(a + b, mode, stripTags) == s.emitted + Scan(a[1..] + b, s.next, stripTags);
      assert ModeAfter(a, mode, stripTags) == ModeAfter(a[1..], s.next, stripTags);
      ScanAppend(a[1..], b, s.next, stripTags);
      Associative(s.emitted, Scan(a[1..], s.next, stripTags),
                  Scan(b, ModeAfter(a[1..], s.next, stripTags), stripTags));
    }
  }

  /** After a marker line the scanner never returns to `Skipping`. */
  lemma {:induction false} MarkerLeavesSkipping(lines: seq<string>, k: nat, stripTags: string -> string)
    requires k < |lines| && IsMarker(lines[k])
    ensures ModeAfter(lines, Skipping, stripTags) != Skipping
    decreases k
  {
    var next := StepLine(Skipping, lines[0], stripTags).next;
    if IsMarker(lines[0]) {
      NeverBackToSkipping(lines[1..], next, stripTags);
    } else {
      assert lines[1..][k - 1] == lines[k];
      MarkerLeavesSkipping(lines[1..], k - 1, stripTags);
    }
  }

  lemma {:induction false} NeverBackToSkipping(lines: seq<string>, mode: Mode, stripTags: string -> string)
    requires mode != Skipping
    ensures ModeAfter(lines, mode, stripTags) != Skipping
    decreases |lines|
  {
    if lines != [] {
      NeverBackToSkipping(lines[1..], StepLine(mode, lines[0], stripTags).next, stripTags);
    }
  }

  // ---------------------------------------------------------------------------
  // Properties of the extractor

  /** A page without a marker line yields an empty section. */
  lemma {:induction false} NoMarkerNoSection(lines: seq<string>, stripTags: string -> string)
    requires forall k :: 0 <= k < |lines| ==> !IsMarker(lines[k])
    ensures Scan(lines, Skipping, stripTags) == []
    ensures ModeAfter(lines, Skipping, stripTags) == Skipping
    decreases |lines|
  {
    if lines != [] {
      NoMarkerNoSection(lines[1..], stripTags);
    }
  }

  /** In particular, a page whose text never contains the marker yields nothing. */
  lemma PageWithoutMarker(page: string, stripTags: string -> string)
    requires !Contains(page, Marker)
    ensures Extract(page, stripTags) == []
  {
    var lines := SplitLines(page);
    forall k | 0 <= k < |lines|
      ensures !IsMarker(lines[k])
    {
      if IsMarker(lines[k]) {
        ContainsInSplitLine(page, k, Marker);
      }
    }
    NoMarkerNoSection(lines, stripTags);
  }

  /** Lines before the first marker line contribute nothing, whatever they
      contain (a "HIPAA" line included: the stop test needs capture on). */
  lemma SkippedPrefix(before: seq<string>, after: seq<string>, stripTags: string -> string)
    requires forall k :: 0 <= k < |before| ==> !IsMarker(before[k])
    ensures Scan(before + after, Skipping, stripTags) == Scan(after, Skipping, stripTags)
  {
    ScanAppend(before, after, Skipping, stripTags);
    NoMarkerNoSection(before, stripTags);
  }

  /** Once a marker line has been seen, a stop line ends the scan: neither it
      nor anything after it contributes. */
  lemma StopEndsScan(before: seq<string>, stop: string, after: seq<string>, stripTags: string -> string)
    requires exists k :: 0 <= k < |before| && IsMarker(before[k])
    requires IsStop(stop)
    ensures Scan(before + [stop] + after, Skipping, stripTags) == Scan(before, Skipping, stripTags)
  {
    var k :| 0 <= k < |before| && IsMarker(before[k]);
    MarkerLeavesSkipping(before, k, stripTags);
    var m := ModeAfter(before, Skipping, stripTags);
    ScanAppend(before, [stop] + after, Skipping, stripTags);
    assert before + [stop] + after == before + ([stop] + after);
    assert ([stop] + after)[1..] == after;
  }

  /** The output keeps the input order: it is a subsequence of the cleaned lines. */
  predicate IsSubsequence(a: seq<string>, b: seq<string>)
    decreases |b|
  {
    a == [] || (b != [] && ((a[0] == b[0] && IsSubsequence(a[1..], b[1..])) || IsSubsequence(a, b[1..])))
  }

  function CleanAll(lines: seq<string>, stripTags: string -> string): (r: seq<string>)
    ensures |r| == |lines|
    ensures forall k :: 0 <= k < |lines| ==> r[k] == Clean(lines[k], stripTags)
  {
    seq(|lines|, k requires 0 <= k < |lines| => Clean(lines[k], stripTags))
  }

  lemma {:induction false} ScanInInputOrder(lines: seq<string>, mode: Mode, stripTags: string -> string)
    ensures IsSubsequence(Scan(lines, mode, stripTags), CleanAll(lines, stripTags))
    decreases |lines|
  {
    if lines != [] {
      var s := StepLine(mode, lines[0], stripTags);
      var rest := Scan(lines[1..], s.next, stripTags);
      var all := CleanAll(lines, stripTags);
      assert all[1..] == CleanAll(lines[1..], stripTags);
      ScanInInputOrder(lines[1..], s.next, stripTags);
      if s.emitted == [] {
        assert Scan(lines, mode, stripTags) == rest;
      } else {
        assert s.emitted == [all[0]];
        assert (s.emitted + rest)[1..] == rest;
      }
    }
  }

  /** An empty entry can only come from a marker line: every other line is
      appended only when it strips to something non-empty. */
  lemma {:induction false} EmptyEntryFromMarker(lines: seq<string>, mode: Mode, stripTags: string -> string)
    requires [] in Scan(lines, mode, stripTags)
    ensures exists k :: 0 <= k < |lines| && IsMarker(lines[k]) && Clean(lines[k], stripTags) == []
    decreases |lines|
  {
    var s := StepLine(mode, lines[0], stripTags);
    if [] in s.emitted {
      assert IsMarker(lines[0]) && Clean(lines[0], stripTags) == [];
    } else {
      EmptyEntryFromMarker(lines[1..], s.next, stripTags);
      var k :| 0 <= k < |lines[1..]| && IsMarker(lines[1..][k]) && Clean(lines[1..][k], stripTags) == [];
      assert lines[k + 1] == lines[1..][k];
    }
  }

  // ---------------------------------------------------------------------------
  // An independent description of the section

  /** Index of the first line satisfying `IsMarker`, or `|lines|`. */
  function FirstMarker(lines: seq<string>): (i: nat)
    ensures i <= |lines|
    ensures i < |lines| ==> IsMarker(lines[i])
    ensures forall k :: 0 <= k < i ==> !IsMarker(lines[k])
    decreases |lines|
  {
    if lines == [] || IsMarker(lines[0]) then 0 else 1 + FirstMarker(lines[1..])
  }

  /** Index of the first stop line, or `|lines|`. */
  function FirstStop(lines: seq<string>): (i: nat)
    ensures i <= |lines|
    ensures i < |lines| ==> IsStop(lines[i])
    ensures forall k :: 0 <= k < i ==> !IsStop(lines[k])
    decreases |lines|
  {
    if lines == [] || IsStop(lines[0]) then 0 else 1 + FirstStop(lines[1..])
  }

  /** What a line inside the section contributes: a marker line always its
      cleaned text, any other line its cleaned text when that is not blank. */
  function Contribution(line: string, stripTags: string -> string): seq<string> {
    var c := Clean(line, stripTags);
    if IsMarker(line) || (StripBytes(line) != [] && c != []) then [c] else []
  }

  function Gather(lines: seq<string>, stripTags: string -> string): seq<string>
    decreases |lines|
  {
    if lines == [] then [] else Contribution(lines[0], stripTags) + Gather(lines[1..], stripTags)
  }

  /** The section: empty without a marker line; otherwise the cleaned first
      marker line, then the contributions of the lines after it up to (not
      including) the first stop line. */
  function Section(lines: seq<string>, stripTags: string -> string): seq<string> {
    var f := FirstMarker(lines);
    if f == |lines| then []
    else
      var rest := lines[f + 1..];
      [Clean(lines[f], stripTags)] + Gather(rest[..FirstStop(rest)], stripTags)
  }

  lemma {:induction false} CapturingGathers(lines: seq<string>, stripTags: string -> string)
    ensures Scan(lines, Capturing, stripTags) == Gather(lines[..FirstStop(lines)], stripTags)
    decreases |lines|
  {
    if lines != [] && !IsStop(lines[0]) {
      var n := FirstStop(lines[1..]);
      assert lines[..n + 1][0] == lines[0];
      assert lines[..n + 1][1..] == lines[1..][..n];
      CapturingGathers(lines[1..], stripTags);
    }
  }

  /** The scanner computes exactly the section. */
  lemma {:induction false} ScanIsSection(lines: seq<string>, stripTags: string -> string)
    ensures Scan(lines, Skipping, stripTags) == Section(lines, stripTags)
    decreases |lines|
  {
    if lines != [] {
      if IsMarker(lines[0]) {
        CapturingGathers(lines[1..], stripTags);
      } else {
        ScanIsSection(lines[1..], stripTags);
        if FirstMarker(lines) < |lines| {
          assert lines[FirstMarker(lines) + 1..] == lines[1..][FirstMarker(lines[1..]) + 1..];
        }
      }
    }
  }

  lemma ExtractIsSection(page: string, stripTags: string -> string)
    ensures Extract(page, stripTags) == Section(SplitLines(page), stripTags)
  {
    ScanIsSection(SplitLines(page), stripTags);
  }

  /** Every entry is already trimmed: stripping it again changes nothing. */
  lemma ScanEntriesRestrip(lines: seq<string>, mode: Mode, stripTags: string -> string)
    ensures forall k :: 0 <= k < |Scan(lines, mode, stripTags)| ==>
              Strip(Scan(lines, mode, stripTags)[k]) == Scan(lines, mode, stripTags)[k]
  {
    var r := Scan(lines, mode, stripTags);
    forall k | 0 <= k < |r|
      ensures Strip(r[k]) == r[k]
    {
      StripStripped(r[k], StrSpace);
    }
  }

  /** When `stripTags` keeps line-break-free text free of line breaks, every
      extracted entry is stripped and free of line breaks: the form in which a
      snapshot line survives being written and read back. */
  lemma {:induction false} ScanLineBreakFree(lines: seq<string>, mode: Mode, stripTags: string -> string)
    requires KeepsLinesWhole(stripTags)
    requires forall k :: 0 <= k < |lines| ==> NoLineBreak(lines[k])
    ensures forall k :: 0 <= k < |Scan(lines, mode, stripTags)| ==> NoLineBreak(Scan(lines, mode, stripTags)[k])
    decreases |lines|
  {
    if lines != [] {
      var s := StepLine(mode, lines[0], stripTags);
      StripKeepsNoLineBreak(stripTags(lines[0]));
      ScanLineBreakFree(lines[1..], s.next, stripTags);
    }
  }
}
