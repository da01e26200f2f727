/**
 The notification decision: no message for an empty diff; otherwise a message
 with fixed subject, sender and recipient whose body is a fixed prefix and the
 diff without its first three lines (the two file headers and the first hunk
 header), joined with `\n`.
 */
module Notifier {
  import opened Text
  import opened Wrappers

  const Subject := "AWS updated HIPAA services"
  const Sender := "thomas@98point6.com"
  const Recipient := "thomas@98point6.com"
  const BodyPrefix := "AWS updated HIPAA services: \n\n"

  /** The diff lines the body leaves out. */
  const HeaderLines := 3

  datatype Message = Message(subject: string, sender: string, recipient: string, body: string)

  /** Python's `xs[n:]`, which is empty rather than an error when `n >= len(xs)`. */
  function DropFront(xs: seq<string>, n: nat): (r: seq<string>)
    ensures |xs| <= n ==> r == []
    ensures n < |xs| ==> |r| == |xs| - n && forall k :: 0 <= k < |r| ==> r[k] == xs[n + k]
  {
    if n < |xs| then xs[n..] else []
  }

  /** `'\n'.join(xs)` */
  function Join(xs: seq<string>): (r: string)
    decreases |xs|
  {
    if xs == [] then []
    else if |xs| == 1 then xs[0]
    else xs[0] + "\n" + Join(xs[1..])
  }

  /** `s.split('\n')`: always at least one piece. */
  function SplitNewlines(s: string): (r: seq<string>)
    ensures r != []
    decreases |s|
  {
    var i := NewlineEnd(s);
    if i == |s| then [s] else [s[..i]] + SplitNewlines(s[i + 1..])
  }

  /** Joining lines that contain no `\n` can be undone by splitting on `\n`. */
  lemma {:induction false} SplitJoin(xs: seq<string>)
    requires xs != []
    requires forall k :: 0 <= k < |xs| ==> NoNewline(xs[k])
    ensures SplitNewlines(Join(xs)) == xs
    decreases |xs|
  {
    var x := xs[0];
    if |xs| == 1 {
      assert NewlineEnd(x) == |x|;
    } else {
      var s := Join(xs);
      var rest := Join(xs[1..]);
      assert s == (x + "\n") + rest;
      assert forall j :: 0 <= j < |x| ==> s[j] == x[j];
      assert s[|x|] == '\n';
      assert NewlineEnd(s) == |x|;
      assert s[..|x|] == x;
      assert s[|x| + 1..] == rest;
      SplitJoin(xs[1..]);
    }
  }

  /** The message for a diff, or `None` when the diff is empty. */
  function Compose(diff: seq<string>): (r: Option<Message>)
    ensures r == None <==> diff == []
    ensures r.Some? ==> r.value.subject == Subject
                        && r.value.sender == Sender
                        && r.value.recipient == Recipient
    ensures r.Some? ==> BodyPrefix <= r.value.body
    ensures r.Some? && |diff| <= HeaderLines ==> r.value.body == BodyPrefix
  {
    if diff == [] then None
    else Some(Message(Subject, Sender, Recipient, BodyPrefix + Join(DropFront(diff, HeaderLines))))
  }

  /** The body after its prefix holds exactly the diff lines from the fourth on,
      one per line, provided none of them contains `\n`. */
  lemma BodyCarriesDiff(diff: seq<string>)
    requires |diff| > HeaderLines
    requires forall k :: HeaderLines <= k < |diff| ==> NoNewline(diff[k])
    ensures Compose(diff).Some?
    ensures SplitNewlines(Compose(diff).value.body[|BodyPrefix|..]) == diff[HeaderLines..]
  {
    var shown := DropFront(diff, HeaderLines);
    assert forall k :: 0 <= k < |shown| ==> shown[k] == diff[HeaderLines + k];
    var body := Compose(diff).value.body;
    assert body[|BodyPrefix|..] == Join(shown);
    SplitJoin(shown);
  }
}
