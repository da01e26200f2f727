# AWS HIPAA services scanner — a Dafny model

The scanner fetches AWS's page of HIPAA-eligible services. It cuts one
section out of the page, starting at the "Last Updated: " line and ending
before the next line that mentions "HIPAA" and is not itself a
"Last Updated: " line. It compares that section with the snapshot saved by
the previous run, overwrites the snapshot, and emails the unified diff when
there is one.

This project models the pure part of one run, in five modules and a small
shared one, `Wrappers` (`wrappers.dfy`), which holds `Option`:

- `Text` (`text.dfy`): the Python string operations the scanner relies on.
  It covers `in` on strings, `str.strip()` (Python's `str.isspace` set),
  `bytes.strip()` (ASCII whitespace), `bytes.splitlines()` (`\n`, `\r`, `\r\n`)
  and searching for `\n`.
- `Extractor` (`extractor.dfy`): the extraction loop of `cli`. It is given
  twice: as the functional scanner `Scan`, with three modes (`Skipping`,
  `Capturing`, and `Stopped` for the loop's `break`), and as the method
  `ExtractSection`, which keeps the source's boolean flag, `continue` and
  `break`; the method is proved to compute `Scan`. A third, independent
  description, `Section`, states the output through the index of the first
  marker line and the index of the first stop line after it, and
  `ScanIsSection` proves the scanner computes exactly that.
- `Snapshot` (`snapshot.dfy`): writing the snapshot (each line followed by
  `\n`) and reading it back (text-mode newline translation, `readlines()`,
  `strip()` on every line), with the round trip between them. It also shows
  that `splitlines()` undoes the writing and sees through the newline
  translation.
- `Notifier` (`notifier.dfy`): whether a message is sent, and its fixed
  subject, sender, recipient and body.
- `Scanner` (`scanner.dfy`): one run, from page text and optional stored
  snapshot text to the new snapshot text and the optional message. It proves
  that a second run on an unchanged page sends nothing.

`strip_tags` and `difflib.unified_diff` are function-valued parameters
(`stripTags`, `diff`); nothing about them is assumed except where a lemma
says so in its `requires`. Two such hypotheses appear:

- `KeepsLinesWhole(stripTags)`: a line without line breaks stays without
  them. The stripper re-emits the input's text and entity references, so it
  adds no characters that could break a line.
- `diff(x, x) == []`: the diff of a sequence with itself is empty.

Notes on the code that the model follows:

- Both the stored and the fresh lines are stripped with `str.strip()`
  (aws_hipaa_scanner.py:23, 31, 38).
- The blank-line test before a captured line (`l.strip()`, line 30) is on the
  raw bytes, so it strips ASCII whitespace only. The entry itself is
  stripped with `str.strip()` after markup removal.
- Both marker tests are on the raw line, before markup is removed.

## Model

| member | source | states |
|---|---|---|
| Text.SplitLines | aws_hipaa_scanner.py:20 | The page splits into lines with no `\n` or `\r` in them. There are never more lines than characters, and an empty page has no lines. |
| Text.SplitLinesOfLine | aws_hipaa_scanner.py:20 | A non-empty text without line breaks is one line, returned whole: a page's last line keeps all its characters when no terminator follows it. |
| Text.SplitLinesCons | aws_hipaa_scanner.py:20 | A line without breaks followed by `\n` is split off as the first line, and splitting goes on with the text after the `\n`. |
| Text.Contains | aws_hipaa_scanner.py:22-27 | `in` on the raw line, used for both marker tests. It has no contract of its own; `Text.ContainsIffOccurs` characterises it. |
| Text.ContainsIffOccurs | aws_hipaa_scanner.py:22-27 | `Contains(s, p)` holds exactly when `p` occurs in `s` at some index, as Python's `p in s` does. |
| Text.StripWith | aws_hipaa_scanner.py:23 | Stripping leaves an infix of the input. Everything removed before and after it is whitespace, the result neither starts nor ends with whitespace, and it is empty exactly when the input is all whitespace. |
| Text.StripStripped | aws_hipaa_scanner.py:31 | Stripping a string that is already stripped returns it unchanged. |
| Text.StripBytes | aws_hipaa_scanner.py:30 | The blank-line test `l.strip()` on the raw bytes is false exactly when every character of the line is ASCII whitespace; otherwise the stripped bytes start and end with non-whitespace. |
| Text.StripNewlineTerminated | aws_hipaa_scanner.py:38 | Stripping a stripped line with `\n` appended gives the line back. |
| Text.ContainsInSplitLine | aws_hipaa_scanner.py:20-22 | A marker found in one of the page's lines is found in the page text. |
| Extractor.Clean | aws_hipaa_scanner.py:23 | Every entry built from a line (`strip_tags(...).strip()`) is stripped. |
| Extractor.StepLine | aws_hipaa_scanner.py:22-33 | One loop iteration. The marker test comes first: a marker line is appended (even if it cleans to empty, even if it also holds "HIPAA") and turns capture on. A "HIPAA" line stops the scan only while capturing. Before the marker nothing is appended. After the break nothing happens. At most one entry, the cleaned line, and a non-marker line adds only a non-empty one. While capturing, any other line keeps capture on and is appended, cleaned, exactly when its bytes are not blank and its cleaned text is not empty. |
| Extractor.Scan | aws_hipaa_scanner.py:18-33 | The output has no more entries than there are input lines, every entry is stripped, and nothing is appended after the break. |
| Extractor.Extract | aws_hipaa_scanner.py:20-33 | The loop applied to the page's lines: no more entries than the page has characters, each one stripped. `Extractor.ExtractIsSection` gives its exact value. |
| Extractor.ScanEntriesRestrip | aws_hipaa_scanner.py:23-33 | Every entry is already trimmed: stripping it again returns it unchanged. |
| Extractor.ExtractSection | aws_hipaa_scanner.py:18-33 | The source's loop, with its `add_lines` flag, `continue` and `break`, produces exactly the scanner's output for the page. |
| Extractor.MarkerLeavesSkipping | aws_hipaa_scanner.py:19-25 | Once a marker line has been seen, the scanner never returns to skipping. |
| Extractor.NoMarkerNoSection | aws_hipaa_scanner.py:18-33 | If no line contains "Last Updated: ", the section is empty and the scanner is still skipping at the end. |
| Extractor.PageWithoutMarker | aws_hipaa_scanner.py:18-33 | A page whose text never contains "Last Updated: " yields an empty section. |
| Extractor.SkippedPrefix | aws_hipaa_scanner.py:19-30 | Lines before the first marker line contribute nothing, including "HIPAA" lines, because the stop test needs capture on. |
| Extractor.StopEndsScan | aws_hipaa_scanner.py:27-28 | After a marker line, a non-marker "HIPAA" line ends the scan. Neither it nor any later line, marker lines included, contributes. |
| Extractor.ScanInInputOrder | aws_hipaa_scanner.py:20-33 | The output is a subsequence of the cleaned input lines: the entries keep their input order. |
| Extractor.EmptyEntryFromMarker | aws_hipaa_scanner.py:22-33 | An empty entry can only come from a marker line that cleans to empty. Every entry from another line is non-empty. |
| Extractor.FirstMarker | aws_hipaa_scanner.py:22-24 | Index of the first line containing "Last Updated: ", with no such line before it, or the number of lines if there is none. |
| Extractor.FirstStop | aws_hipaa_scanner.py:27-28 | Index of the first non-marker "HIPAA" line, with no such line before it, or the number of lines if there is none. |
| Extractor.ScanIsSection | aws_hipaa_scanner.py:18-33 | The scan equals the independent description: empty without a marker; otherwise the cleaned first marker line, then, up to the first stop line after it, every marker line and every non-blank line whose cleaned text is non-empty. |
| Extractor.ExtractIsSection | aws_hipaa_scanner.py:18-33 | Extraction from a page is that section of the page's lines. |
| Extractor.ScanLineBreakFree | aws_hipaa_scanner.py:20-33 | If the markup stripper keeps lines whole, no extracted entry contains a line break. |
| Snapshot.Encode | aws_hipaa_scanner.py:40-42 | The written file is empty exactly when there are no lines, and otherwise ends with `\n`. |
| Snapshot.SplitLinesOfEncoded | aws_hipaa_scanner.py:40-42 | Splitting a written file into lines with `splitlines()` gives back exactly the lines written, when none contains a line break. |
| Snapshot.Translate | aws_hipaa_scanner.py:37 | Reading in text mode leaves no `\r`, and changes nothing in a text without `\r`. |
| Snapshot.SplitLinesTranslate | aws_hipaa_scanner.py:37-38 | Translating `\r\n` and `\r` to `\n` moves no line boundary: `splitlines()` cuts a text into the same lines before and after translation. |
| Snapshot.ReadLines | aws_hipaa_scanner.py:38 | `readlines()` loses nothing: the lines concatenate back to the text. Each line is non-empty, `\n` appears only at its end, and every line but the last ends with `\n`. |
| Snapshot.Decode | aws_hipaa_scanner.py:35-38 | Every line read back is stripped and has no line break. |
| Snapshot.ReadLinesOfEncoded | aws_hipaa_scanner.py:38-42 | `readlines()` on a written snapshot returns each written line followed by `\n`. |
| Snapshot.RoundTrip | aws_hipaa_scanner.py:38-42 | Reading back a written snapshot returns the written lines, when each is stripped and has no line break. |
| Snapshot.ReloadIsStable | aws_hipaa_scanner.py:36-42 | Loading any snapshot file, saving the lines, and loading again gives the same lines. |
| Notifier.DropFront | aws_hipaa_scanner.py:51 | `diff[3:]`: empty when the diff has at most three lines, otherwise the lines from the fourth on. |
| Notifier.Join | aws_hipaa_scanner.py:51 | `'\n'.join(xs)`. It has no contract of its own; `Notifier.SplitJoin` characterises it by its inverse. |
| Notifier.SplitJoin | aws_hipaa_scanner.py:51 | Splitting `'\n'.join(xs)` on `\n` gives back `xs`, when no element contains `\n`. |
| Notifier.Compose | aws_hipaa_scanner.py:44-59 | No message exactly when the diff is empty. A message has the fixed subject, sender and recipient, and its body starts with "AWS updated HIPAA services: \n\n". The body is only that prefix when the diff has at most three lines. |
| Notifier.BodyCarriesDiff | aws_hipaa_scanner.py:51-56 | After the prefix, the body's lines are exactly the diff lines from the fourth on. |
| Scanner.Previous | aws_hipaa_scanner.py:35-38 | Without a snapshot file the previous content is empty. Otherwise every previous line is stripped and has no line break. |
| Scanner.Run | aws_hipaa_scanner.py:18-59 | A run sends no message exactly when the diff of previous and current content is empty. Any message goes to the fixed recipient. |
| Scanner.SnapshotIgnoresPrevious | aws_hipaa_scanner.py:40-42 | The new snapshot does not depend on the old one: it is overwritten unconditionally. |
| Scanner.ExtractIsStorable | aws_hipaa_scanner.py:20-33 | If the markup stripper keeps lines whole, every extracted entry is stripped and has no line break. |
| Scanner.SnapshotReadsBack | aws_hipaa_scanner.py:35-42 | The next run's previous content is exactly the section this run extracted. |
| Scanner.UnchangedPageIsQuiet | aws_hipaa_scanner.py:35-47 | A run on the same page as the run before it sends no message, given that a diff of a sequence with itself is empty. |

## Left out

- The HTTP fetch and `raise_for_status` (aws_hipaa_scanner.py:15-16) are network I/O. The page text is a parameter.
- The click command, its options and all `click.echo` output (lines 11-14, 46-47, 52-54) are user interface.
- File existence and opening (lines 36-37, 40) are file-system I/O. The stored snapshot is an `Option<string>` parameter, and the written one is a result.
- Text-mode writing translates `\n` to the platform's line separator. The model writes `\n`, as on POSIX systems.
- File and page encodings are left out: lines are Unicode strings. `str(l, 'utf-8')` raises on invalid UTF-8 and aborts the run; the model does not include that error. The marker tests run on bytes in the source; the markers are ASCII, so they are substring tests on the decoded line.
- SMTP delivery, `msg.as_string()` and the fallback print (lines 60-70) are an external mail transport. The model stops at the composed message.
- The internals of `MLStripper` and `strip_tags` (lines 73-96) belong to the standard HTML parser. `strip_tags` is the parameter `stripTags`.
- `difflib.unified_diff` (line 44) is a standard-library algorithm. It is the parameter `diff`; only `diff(x, x) == []` is ever assumed, and only in `Scanner.UnchangedPageIsQuiet`.
- Notifier.BodyCarriesDiff: it assumes the diff lines after the third contain no `\n`. A diff with several hunks has further hunk headers, which end in `\n`; such a body has extra blank lines, and the lemma says nothing about it.
