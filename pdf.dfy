/**
 * The pieces of pypdf that the extractor relies on, as oracles: what
 * serialising a one-page document gives, before and after its content
 * streams are compressed.
 */
module Pdf {
  import opened Ocr

  /** A serialised one-page document: the size `__sizeof__()` reports for the
      stream it was written to (an opaque number, not its byte length), and
      what the OCR service answers when that stream is posted. */
  datatype Export = Export(size: nat, reply: Response)

  /** One page of the document: the text pypdf extracts from it natively, and
      its one-page export without and with compressed content streams. */
  datatype Page = Page(nativeText: string, plain: Export, compressed: Export)

  /** A `PdfWriter` holding one page. Compressing its content streams changes
      the writer in place; writing it out afterwards gives the compressed
      export. */
  class PageWriter {
    var page: Page
    var streamsCompressed: bool

    /** `PdfWriter()` followed by `add_page(page)`. */
    constructor (p: Page)
      ensures page == p && !streamsCompressed
    {
      page := p;
      streamsCompressed := false;
    }

    /** `compress_content_streams()` on every page of the writer (it has one). */
    method CompressContentStreams()
      modifies this
      ensures page == old(page) && streamsCompressed
    {
      streamsCompressed := true;
    }

    /** `write` into a fresh stream, then measure it. */
    function Write(): (e: Export)
      reads this
      // before compression the writer gives the plain export, after it the
      // compressed one; it never gives anything else
      ensures !streamsCompressed ==> e == page.plain
      ensures streamsCompressed ==> e == page.compressed
    {
      if streamsCompressed then page.compressed else page.plain
    }
  }

}
