/**
 One run of `cli` once the page is in hand: extract the section, read the
 previous snapshot, overwrite it with the new section, diff the two and decide
 on the notification. The unified-diff function is a parameter `diff`.
 */
module Scanner {
  import opened Text
  import opened Extractor
  import opened Snapshot
  import opened Notifier
  import opened Wrappers

  /** What a run leaves behind: the new snapshot text and the message, if any. */
  datatype RunResult = RunResult(snapshot: string, notification: Option<Message>)

  /** `prev_content`: empty when there is no snapshot file. */
  function Previous(stored: Option<string>): (r: seq<string>)
    ensures stored == None ==> r == []
    ensures forall k :: 0 <= k < |r| ==> IsStripped(r[k]) && NoLineBreak(r[k])
  {
    match stored
    case None => []
    case Some(text) => Decode(text)
  }

  function Run(page: string, stored: Option<string>, stripTags: string -> string,
               diff: (seq<string>, seq<string>) -> seq<string>): (r: RunResult)
    ensures r.notification == None <==> diff(Previous(stored), Extract(page, stripTags)) == []
    ensures r.notification.Some? ==> r.notification.value.recipient == Recipient
  {
    var current := Extract(page, stripTags);
    RunResult(Encode(current), Compose(diff(Previous(stored), current)))
  }

  /** The snapshot is overwritten with the new section whatever the old one held. */
  lemma SnapshotIgnoresPrevious(page: string, stored: Option<string>, other: Option<string>,
                                stripTags: string -> string, diff: (seq<string>, seq<string>) -> seq<string>)
    ensures Run(page, stored, stripTags, diff).snapshot == Run(page, other, stripTags, diff).snapshot
  {
  }

  /** Extracted lines are in the form the snapshot file preserves. */
  lemma ExtractIsStorable(page: string, stripTags: string -> string)
    requires KeepsLinesWhole(stripTags)
    ensures forall k :: 0 <= k < |Extract(page, stripTags)| ==>
              IsStripped(Extract(page, stripTags)[k]) && NoLineBreak(Extract(page, stripTags)[k])
  {
    ScanLineBreakFree(SplitLines(page), Skipping, stripTags);
  }

  /** The next run reads back exactly the section this run extracted. */
  lemma SnapshotReadsBack(page: string, stored: Option<string>, stripTags: string -> string,
                          diff: (seq<string>, seq<string>) -> seq<string>)
    requires KeepsLinesWhole(stripTags)
    ensures Previous(Some(Run(page, stored, stripTags, diff).snapshot)) == Extract(page, stripTags)
  {
    ExtractIsStorable(page, stripTags);
    RoundTrip(Extract(page, stripTags));
  }

  /** An unchanged page sends nothing on the next run, given that the diff of
      a sequence with itself is empty. */
  lemma UnchangedPageIsQuiet(page: string, stored: Option<string>, stripTags: string -> string,
                             diff: (seq<string>, seq<string>) -> seq<string>)
    requires KeepsLinesWhole(stripTags)
    requires forall x :: diff(x, x) == []
    ensures Run(page, Some(Run(page, stored, stripTags, diff).snapshot), stripTags, diff).notification == None
  {
    SnapshotReadsBack(page, stored, stripTags, diff);
  }
}
