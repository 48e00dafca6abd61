/**
 * What `extract_text` promises, proved about the specification functions of
 * module Extraction (and so, through its postcondition, about ExtractText).
 * A page is "reached" when every page before it succeeded, that is when
 * `Run(doc, i).result.Ok?`.
 */
module ExtractionProperties {
  import opened Wrappers
  import opened Ocr
  import opened Pdf
  import opened Extraction

  /** Texts joined in order with no separator between them. */
  function Joined(texts: seq<string>): string {
    if texts == [] then "" else texts[0] + Joined(texts[1..])
  }

  /** The events that concern page `i`, in order. */
  function EventsOf(events: seq<Event>, i: nat): seq<Event> {
    if events == [] then []
    else (if events[0].page == i then [events[0]] else []) + EventsOf(events[1..], i)
  }

  // ---------------------------------------------------------------- one page

  /** The two-stage size check on one page. */
  lemma {:induction false} PageProtocol(p: Page, i: nat)
    // everything done here concerns page i
    ensures forall e | e in ProcessPage(p, i).events :: e.page == i
    // a page that fits (even at exactly the limit) is submitted once, as it
    // is, and never compressed
    ensures p.plain.size <= SizeLimit ==> ProcessPage(p, i).events == [Submit(i, Plain, p.plain.size)]
    // a page that does not fit is compressed once; only the compressed export
    // is submitted, and only if it fits
    ensures p.plain.size > SizeLimit ==>
      ProcessPage(p, i).events
        == [Compress(i)] + (if p.compressed.size <= SizeLimit then [Submit(i, Compressed, p.compressed.size)] else [])
    // one submission exactly when some export fits
    ensures SubmittedPages(ProcessPage(p, i).events) == if Chosen(p).size <= SizeLimit then [i] else []
    // no export fits: the page is too large, with its index and compressed size
    ensures Chosen(p).size > SizeLimit <==> ProcessPage(p, i).result == Err(PageTooLarge(i, p.compressed.size))
    // otherwise the page's result is what the OCR client makes of the chosen export
    ensures Chosen(p).size <= SizeLimit ==>
      ProcessPage(p, i).result == FromOcr(SendToOcr(Chosen(p).size, Chosen(p).reply))
  {
  }

  // ------------------------------------------------------- sequence helpers

  lemma {:induction false} SubmittedPagesAppend(a: seq<Event>, b: seq<Event>)
    ensures SubmittedPages(a + b) == SubmittedPages(a) + SubmittedPages(b)
  {
    if a != [] {
      assert (a + b)[1..] == a[1..] + b;
      SubmittedPagesAppend(a[1..], b);
    } else {
      assert a + b == b;
    }
  }

  lemma {:induction false} EventsOfAppend(a: seq<Event>, b: seq<Event>, i: nat)
    ensures EventsOf(a + b, i) == EventsOf(a, i) + EventsOf(b, i)
  {
    if a != [] {
      assert (a + b)[1..] == a[1..] + b;
      EventsOfAppend(a[1..], b, i);
    } else {
      assert a + b == b;
    }
  }

  lemma {:induction false} EventsOfOthers(a: seq<Event>, i: nat)
    requires forall e | e in a :: e.page != i
    ensures EventsOf(a, i) == []
  {
    if a != [] {
      EventsOfOthers(a[1..], i);
    }
  }

  lemma {:induction false} EventsOfOwn(a: seq<Event>, i: nat)
    requires forall e | e in a :: e.page == i
    ensures EventsOf(a, i) == a
  {
    if a != [] {
      EventsOfOwn(a[1..], i);
    }
  }

  lemma {:induction false} JoinedSnoc(texts: seq<string>, t: string)
    ensures Joined(texts + [t]) == Joined(texts) + t
  {
    if texts == [] {
      assert texts + [t] == [t];
    } else {
      assert (texts + [t])[1..] == texts[1..] + [t];
      JoinedSnoc(texts[1..], t);
    }
  }

  // ---------------------------------------------------------- whole document

  /** A document with no pages yields the empty text and calls nothing. */
  lemma {:induction false} EmptyDocument()
    ensures Extract([]) == Outcome(Ok(""), [])
  {
  }

  /** Everything the first `k` pages' run did concerns those pages, and every
      buffer it submitted fits the limit. */
  lemma {:induction false} RunEvents(doc: seq<Page>, k: nat)
    requires k <= |doc|
    ensures forall e | e in Run(doc, k).events :: e.page < k
    ensures forall e | e in Run(doc, k).events && e.Submit? :: e.size <= SizeLimit
  {
    if k > 0 {
      RunEvents(doc, k - 1);
      PageProtocol(doc[k - 1], k - 1);
    }
  }

  /** Because every submitted buffer was measured first, the OCR client's own
      size gate never fires during an extraction. */
  lemma {:induction false} GateNeverFires(doc: seq<Page>, k: nat)
    requires k <= |doc|
    ensures var r := Run(doc, k).result; r.Err? && r.error.OcrFailed? ==> !r.error.cause.RequestTooLarge?
  {
    if k > 0 {
      GateNeverFires(doc, k - 1);
      PageProtocol(doc[k - 1], k - 1);
    }
  }

  /** The pages before `k` all succeeded exactly when the run over them did. */
  lemma {:induction false} RunSucceedsIffEveryPageDoes(doc: seq<Page>, k: nat)
    requires k <= |doc|
    ensures Run(doc, k).result.Ok? <==> forall j | 0 <= j < k :: ProcessPage(doc[j], j).result.Ok?
  {
    if k > 0 {
      RunSucceedsIffEveryPageDoes(doc, k - 1);
    }
  }

  /** Extraction succeeds exactly when every page's OCR succeeds. */
  lemma {:induction false} SuccessIffEveryPageSucceeds(doc: seq<Page>)
    ensures Extract(doc).result.Ok? <==> forall j | 0 <= j < |doc| :: ProcessPage(doc[j], j).result.Ok?
  {
    RunSucceedsIffEveryPageDoes(doc, |doc|);
  }

  lemma {:induction false} RunJoinsTexts(doc: seq<Page>, texts: seq<string>, k: nat)
    requires |texts| == |doc| && k <= |doc|
    requires forall j | 0 <= j < |doc| :: ProcessPage(doc[j], j).result == Ok(texts[j])
    ensures Run(doc, k).result == Ok(Joined(texts[..k]))
  {
    if k > 0 {
      RunJoinsTexts(doc, texts, k - 1);
      assert texts[..k] == texts[..k - 1] + [texts[k - 1]];
      JoinedSnoc(texts[..k - 1], texts[k - 1]);
    }
  }

  /** When every page's OCR yields a text, the result is those texts joined in
      page order with nothing between them. */
  lemma {:induction false} SuccessIsConcatenation(doc: seq<Page>, texts: seq<string>)
    requires |texts| == |doc|
    requires forall j | 0 <= j < |doc| :: ProcessPage(doc[j], j).result == Ok(texts[j])
    ensures Extract(doc).result == Ok(Joined(texts))
  {
    RunJoinsTexts(doc, texts, |doc|);
    assert texts[..|doc|] == texts;
  }

  /** Pages are submitted in index order, each at most once, none skipped;
      after a successful run every page has been submitted exactly once. */
  lemma {:induction false} SubmissionsInOrder(doc: seq<Page>, k: nat)
    requires k <= |doc|
    ensures var s := SubmittedPages(Run(doc, k).events);
      && |s| <= k
      && (forall j | 0 <= j < |s| :: s[j] == j)
      && (Run(doc, k).result.Ok? ==> |s| == k)
  {
    if k > 0 {
      SubmissionsInOrder(doc, k - 1);
      var prev := Run(doc, k - 1);
      if prev.result.Ok? {
        var step := ProcessPage(doc[k - 1], k - 1);
        PageSubmissions(doc[k - 1], k - 1);
        SubmittedPagesAppend(prev.events, step.events);
        assert Run(doc, k).events == prev.events + step.events;
      }
    }
  }

  /** Everything processing page `i` does concerns page `i`, and what it
      submits fits the limit. */
  lemma {:induction false} PageOwnsItsEvents(p: Page, i: nat)
    ensures forall e | e in ProcessPage(p, i).events :: e.page == i
    ensures forall e | e in ProcessPage(p, i).events && e.Submit? :: e.size <= SizeLimit
  {
    PageProtocol(p, i);
  }

  /** Processing page `i` submits page `i` at most once, and exactly once when
      it succeeds. */
  lemma {:induction false} PageSubmissions(p: Page, i: nat)
    ensures SubmittedPages(ProcessPage(p, i).events) in {[], [i]}
    ensures ProcessPage(p, i).result.Ok? ==> SubmittedPages(ProcessPage(p, i).events) == [i]
  {
    PageProtocol(p, i);
  }

  lemma {:induction false} PageEventsUpTo(doc: seq<Page>, i: nat, k: nat)
    requires i < k <= |doc|
    ensures EventsOf(Run(doc, k).events, i)
            == if Run(doc, i).result.Ok? then ProcessPage(doc[i], i).events else []
    decreases k
  {
    if k == i + 1 {
      PageEventsWhenReached(doc, i);
    } else {
      PageEventsUpTo(doc, i, k - 1);
      PageEventsAfter(doc, i, k - 1);
    }
  }

  /** Processing page `i` adds its own events to those of the earlier pages,
      none of which concerns page `i`. */
  lemma {:induction false} PageEventsWhenReached(doc: seq<Page>, i: nat)
    requires i < |doc|
    ensures EventsOf(Run(doc, i + 1).events, i)
            == if Run(doc, i).result.Ok? then ProcessPage(doc[i], i).events else []
  {
    var prev := Run(doc, i);
    RunEvents(doc, i);
    EventsOfOthers(prev.events, i);
    if prev.result.Ok? {
      var step := ProcessPage(doc[i], i);
      assert Run(doc, i + 1).events == prev.events + step.events;
      PageOwnsItsEvents(doc[i], i);
      EventsOfAppend(prev.events, step.events, i);
      EventsOfOwn(step.events, i);
    } else {
      assert Run(doc, i + 1) == prev;
    }
  }

  /** Processing a later page `k` adds nothing that concerns page `i`. */
  lemma {:induction false} PageEventsAfter(doc: seq<Page>, i: nat, k: nat)
    requires i < k < |doc|
    ensures EventsOf(Run(doc, k + 1).events, i) == EventsOf(Run(doc, k).events, i)
  {
    var prev := Run(doc, k);
    if prev.result.Ok? {
      var step := ProcessPage(doc[k], k);
      assert Run(doc, k + 1).events == prev.events + step.events;
      PageOwnsItsEvents(doc[k], k);
      EventsOfAppend(prev.events, step.events, i);
      EventsOfOthers(step.events, i);
    } else {
      assert Run(doc, k + 1) == prev;
    }
  }

  /** What the extraction does to page `i` is what processing that page does
      when the page is reached, and nothing when it is not. */
  lemma {:induction false} PageEvents(doc: seq<Page>, i: nat)
    requires i < |doc|
    ensures EventsOf(Extract(doc).events, i)
            == if Run(doc, i).result.Ok? then ProcessPage(doc[i], i).events else []
  {
    PageEventsUpTo(doc, i, |doc|);
  }

  /** A reached page that fits is submitted once, uncompressed, and never
      compressed. */
  lemma {:induction false} FittingPageIsSubmittedOnce(doc: seq<Page>, i: nat)
    requires i < |doc| && Run(doc, i).result.Ok?
    requires doc[i].plain.size <= SizeLimit
    ensures EventsOf(Extract(doc).events, i) == [Submit(i, Plain, doc[i].plain.size)]
  {
    PageEvents(doc, i);
    PageProtocol(doc[i], i);
  }

  /** A reached page that does not fit is compressed once and its plain export
      is never submitted; the compressed export is submitted once if it fits. */
  lemma {:induction false} OversizePageIsCompressedOnce(doc: seq<Page>, i: nat)
    requires i < |doc| && Run(doc, i).result.Ok?
    requires doc[i].plain.size > SizeLimit
    ensures EventsOf(Extract(doc).events, i)
            == [Compress(i)]
               + (if doc[i].compressed.size <= SizeLimit then [Submit(i, Compressed, doc[i].compressed.size)] else [])
  {
    PageEvents(doc, i);
    PageProtocol(doc[i], i);
  }

  /** The first failing page decides the result, and nothing is done to any
      page after it. */
  lemma {:induction false} AbortIsFinal(doc: seq<Page>, i: nat)
    requires i < |doc| && Run(doc, i).result.Ok?
    requires ProcessPage(doc[i], i).result.Err?
    ensures Extract(doc).result == ProcessPage(doc[i], i).result
    ensures forall e | e in Extract(doc).events :: e.page <= i
  {
    var step := ProcessPage(doc[i], i);
    assert Run(doc, i + 1) == Outcome(step.result, Run(doc, i).events + step.events);
    FailureIsFinal(doc, i + 1, |doc|);
    assert Extract(doc) == Run(doc, i + 1);
    RunEvents(doc, i + 1);
  }

  /** A reached page still too large after compression aborts the document
      with its index and compressed size; no later page is touched. */
  lemma {:induction false} StillTooLargeAborts(doc: seq<Page>, i: nat)
    requires i < |doc| && Run(doc, i).result.Ok?
    requires doc[i].plain.size > SizeLimit && doc[i].compressed.size > SizeLimit
    ensures Extract(doc).result == Err(PageTooLarge(i, doc[i].compressed.size))
    ensures forall e | e in Extract(doc).events :: e.page <= i
  {
    PageProtocol(doc[i], i);
    AbortIsFinal(doc, i);
  }

  /** A failure of the OCR client on a reached page aborts the document with
      that failure; no later page is touched. */
  lemma {:induction false} OcrFailureAborts(doc: seq<Page>, i: nat)
    requires i < |doc| && Run(doc, i).result.Ok?
    requires Chosen(doc[i]).size <= SizeLimit
    requires SendToOcr(Chosen(doc[i]).size, Chosen(doc[i]).reply).Err?
    ensures Extract(doc).result == Err(OcrFailed(SendToOcr(Chosen(doc[i]).size, Chosen(doc[i]).reply).error))
    ensures forall e | e in Extract(doc).events :: e.page <= i
  {
    PageProtocol(doc[i], i);
    AbortIsFinal(doc, i);
  }

  lemma {:induction false} RunIgnoresNativeText(d1: seq<Page>, d2: seq<Page>, k: nat)
    requires |d1| == |d2| && k <= |d1|
    requires forall j | 0 <= j < |d1| :: d1[j].plain == d2[j].plain && d1[j].compressed == d2[j].compressed
    ensures Run(d1, k) == Run(d2, k)
  {
    if k > 0 {
      RunIgnoresNativeText(d1, d2, k - 1);
      assert ProcessPage(d1[k - 1], k - 1) == ProcessPage(d2[k - 1], k - 1);
    }
  }

  /** The text pypdf extracts natively never reaches the result: documents
      that differ only in it extract identically. */
  lemma {:induction false} NativeTextIgnored(d1: seq<Page>, d2: seq<Page>)
    requires |d1| == |d2|
    requires forall j | 0 <= j < |d1| :: d1[j].plain == d2[j].plain && d1[j].compressed == d2[j].compressed
    ensures Extract(d1) == Extract(d2)
  {
    RunIgnoresNativeText(d1, d2, |d1|);
  }

  // ---------------------------------------------------------------- scenarios

  /** A 200 reply whose first parsed result holds `text`. */
  function TextReply(text: string): Response {
    Response(200, "", Object(Some([ParsedResult(Some(text))])))
  }

  lemma {:induction false} ReadsAs(p: Page, i: nat, text: string)
    requires p.plain.size <= SizeLimit && p.plain.reply == TextReply(text)
    ensures ProcessPage(p, i) == Outcome(Ok(text), [Submit(i, Plain, p.plain.size)])
  {
  }

  /** Three pages that fit, read as "A", "B", "C": the result is "ABC", from
      one submission per page in order. */
  lemma {:induction false} ThreePagesThatFit(a: Page, b: Page, c: Page)
    requires a.plain.size <= SizeLimit && a.plain.reply == TextReply("A")
    requires b.plain.size <= SizeLimit && b.plain.reply == TextReply("B")
    requires c.plain.size <= SizeLimit && c.plain.reply == TextReply("C")
    ensures Extract([a, b, c])
            == Outcome(Ok("ABC"), [Submit(0, Plain, a.plain.size), Submit(1, Plain, b.plain.size), Submit(2, Plain, c.plain.size)])
  {
    var doc := [a, b, c];
    ReadsAs(a, 0, "A");
    ReadsAs(b, 1, "B");
    ReadsAs(c, 2, "C");
    assert "" + "A" == "A" && "A" + "B" == "AB" && "AB" + "C" == "ABC";
    assert Run(doc, 1) == Outcome(Ok("A"), [] + [Submit(0, Plain, a.plain.size)]);
    assert Run(doc, 2) == Outcome(Ok("AB"), [Submit(0, Plain, a.plain.size)] + [Submit(1, Plain, b.plain.size)]);
    assert Run(doc, 3) == Outcome(Ok("ABC"), [Submit(0, Plain, a.plain.size), Submit(1, Plain, b.plain.size)] + [Submit(2, Plain, c.plain.size)]);
  }

  /** One page of twice the limit that compresses to half of it and reads as
      "X": compressed once, submitted once, result "X". */
  lemma {:induction false} PageThatFitsOnlyCompressed(p: Page)
    requires p.plain.size == 2 * SizeLimit
    requires p.compressed.size == SizeLimit / 2 && p.compressed.reply == TextReply("X")
    ensures Extract([p]) == Outcome(Ok("X"), [Compress(0), Submit(0, Compressed, SizeLimit / 2)])
  {
    assert SendToOcr(p.compressed.size, p.compressed.reply) == Ok("X");
    assert ProcessPage(p, 0) == Outcome(Ok("X"), [Compress(0), Submit(0, Compressed, SizeLimit / 2)]);
    assert "" + "X" == "X";
    assert Run([p], 1) == Outcome(Ok("" + "X"), [] + [Compress(0), Submit(0, Compressed, SizeLimit / 2)]);
  }

}
