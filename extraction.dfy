/**
 * The document text extractor: `extract_text` in main.py. Pages are turned
 * into one-page exports and sent to the OCR client one at a time, in order;
 * a page too large to send is compressed once; the first failure ends the
 * whole document.
 */
module Extraction {
  import opened Wrappers
  import opened Ocr
  import opened Pdf

  /** Which export of a page was submitted. */
  datatype Variant = Plain | Compressed

  /** What the extractor does to page `page`, in the order it does it: compress
      its content streams, or call the OCR client with a buffer of `size`. */
  datatype Event = Compress(page: nat) | Submit(page: nat, variant: Variant, size: nat)

  datatype ExtractError =
    | PageTooLarge(page: nat, size: nat)  // still too large after compression
    | OcrFailed(cause: OcrError)          // the OCR client's failure, passed on unchanged

  /** The result of processing some pages, and the events that led to it. */
  datatype Outcome = Outcome(result: Result<string, ExtractError>, events: seq<Event>)

  /** The page numbers of the submissions among `events`, in order. */
  function SubmittedPages(events: seq<Event>): (s: seq<nat>)
    ensures |s| <= |events|
  {
    if events == [] then []
    else (if events[0].Submit? then [events[0].page] else []) + SubmittedPages(events[1..])
  }

  /** The export a page ends up offering to the OCR client: the plain one when
      it fits, the compressed one otherwise. */
  function Chosen(p: Page): (e: Export)
    // the plain export whenever it fits; a chosen export that does not fit is
    // the compressed export of a page whose plain one did not fit either
    ensures p.plain.size <= SizeLimit ==> e == p.plain
    ensures e.size > SizeLimit ==> p.plain.size > SizeLimit && e == p.compressed
    // a page whose plain export does not fit offers its compressed export
    ensures p.plain.size > SizeLimit ==> e == p.compressed
  {
    if p.plain.size <= SizeLimit then p.plain else p.compressed
  }

  /** The OCR client's result, as seen by the extractor. */
  function FromOcr(r: Result<string, OcrError>): Result<string, ExtractError> {
    match r
    case Ok(text) => Ok(text)
    case Err(cause) => Err(OcrFailed(cause))
  }

  /** Processes page `i`: its text, or the error that aborts the document. */
  function ProcessPage(p: Page, i: nat): Outcome
  {
    if p.plain.size <= SizeLimit then
      Outcome(FromOcr(SendToOcr(p.plain.size, p.plain.reply)), [Submit(i, Plain, p.plain.size)])
    else if p.compressed.size > SizeLimit then
      Outcome(Err(PageTooLarge(i, p.compressed.size)), [Compress(i)])
    else
      Outcome(FromOcr(SendToOcr(p.compressed.size, p.compressed.reply)),
              [Compress(i), Submit(i, Compressed, p.compressed.size)])
  }

  /** The outcome after pages `0 .. k - 1`: their texts joined in order, or the
      first failure, after which nothing more is done. */
  function Run(doc: seq<Page>, k: nat): Outcome
    requires k <= |doc|
  {
    if k == 0 then Outcome(Ok(""), [])
    else
      var prev := Run(doc, k - 1);
      if prev.result.Err? then prev
      else
        var step := ProcessPage(doc[k - 1], k - 1);
        Outcome(if step.result.Ok? then Ok(prev.result.value + step.result.value) else step.result,
                prev.events + step.events)
  }

  /** The outcome of extracting the whole document. */
  function Extract(doc: seq<Page>): Outcome
  {
    Run(doc, |doc|)
  }

  /** Once the run has failed, later pages change nothing. */
  lemma {:induction false} FailureIsFinal(doc: seq<Page>, k: nat, m: nat)
    requires k <= m <= |doc|
    requires Run(doc, k).result.Err?
    ensures Run(doc, m) == Run(doc, k)
    decreases m
  {
    if m > k {
      FailureIsFinal(doc, k, m - 1);
      assert Run(doc, m - 1).result.Err?;
    }
  }

  /**
   * `extract_text`: for each page in turn, write it into a one-page writer and
   * measure it; submit it if it fits, otherwise compress the writer in place,
   * measure again, and submit or give up. Also returns the events.
   */
  method ExtractText(doc: seq<Page>) returns (result: Result<string, ExtractError>, events: seq<Event>)
    ensures Outcome(result, events) == Extract(doc)
  {
    // the native pass: pypdf's own text of every page; it is never used
    var text := "";
    for j := 0 to |doc| {
      text := text + doc[j].nativeText;
    }
    // the OCR pass starts again from the empty text
    text := "";
    events := [];
    var i := 0;
    while i < |doc|
      invariant i <= |doc|
      invariant Run(doc, i) == Outcome(Ok(text), events)
    {
      ghost var step := ProcessPage(doc[i], i);
      assert Run(doc, i + 1) == Outcome(if step.result.Ok? then Ok(text + step.result.value) else step.result,
                                        events + step.events);
      var writer := new PageWriter(doc[i]);
      var sizeOk := true;
      var written := writer.Write();
      assert written == doc[i].plain;
      if written.size > SizeLimit {
        sizeOk := false;
      } else {
        events := events + [Submit(i, Plain, written.size)];
        var r := SendToOcr(written.size, written.reply);
        if r.Err? {
          result := Err(OcrFailed(r.error));
          FailureIsFinal(doc, i + 1, |doc|);
          return;
        }
        text := text + r.value;
      }
      if !sizeOk {
        writer.CompressContentStreams();
        events := events + [Compress(i)];
        written := writer.Write();
        assert written == doc[i].compressed;
        if written.size > SizeLimit {
          result := Err(PageTooLarge(i, written.size));
          FailureIsFinal(doc, i + 1, |doc|);
          return;
        }
        events := events + [Submit(i, Compressed, written.size)];
        var r := SendToOcr(written.size, written.reply);
        if r.Err? {
          result := Err(OcrFailed(r.error));
          FailureIsFinal(doc, i + 1, |doc|);
          return;
        }
        text := text + r.value;
      }
      i := i + 1;
    }
    result := Ok(text);
  }

}
