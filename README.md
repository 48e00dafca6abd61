# PDF text extraction with a per-page OCR fallback

This project models the core of a small Python script (`main.py`) that
extracts the text of a PDF by sending each page, one at a time, to the
OCR.space web service. Each page is written into a one-page PDF and measured.
A page larger than `1024 ** 2` has its content streams compressed and is
measured again. A page still too large after that aborts the whole document.
The OCR texts are concatenated in page order, with no separator, and the
first failure of any kind aborts the document with no partial text.

Module layout:

- `Wrappers` (`wrappers.dfy`): `Option` and `Result`.
- `Ocr` (`ocr.dfy`): `send_to_ocr` as the pure function `SendToOcr`. The
  service's answer to a buffer is an abstract `Response` value carrying the
  status, the body and the decoded JSON.
- `Pdf` (`pdf.dfy`): pypdf as oracles. A `Page` carries its natively extracted
  text and two `Export`s (the one-page document written without and with
  compressed content streams). Each `Export` holds the size measured on its
  stream and the reply the OCR service gives to it. `PageWriter` is the
  one-page `PdfWriter` whose compression changes it in place.
- `Extraction` (`extraction.dfy`): `extract_text` as the method `ExtractText`.
  It first concatenates pypdf's own text of every page (main.py:53-56), then
  starts again from the empty text (main.py:65) and runs a `while` loop over
  the pages. It is proved equal to the specification
  function `Extract`, which is built from `ProcessPage` (one page) and `Run`
  (the first `k` pages). Besides the result, both return the sequence of
  `Event`s: every compression and every call of the OCR client, with the
  page, the export used and its size.
- `ExtractionProperties` (`properties.dfy`): the properties of the extraction.

Sizes are compared with `>`, so a buffer of exactly 1,048,576 is accepted
(main.py:20, 79, 97), although the comment above each of these checks says
the buffer must be less than 1 MB (main.py:19, 78, 96). The model follows the
code.

The size is whatever `__sizeof__()` reports for the stream (main.py:18, 77,
95). The model keeps it as an opaque natural number per export and does not
relate it to the byte length.

Error kinds, as the code raises them:

- `RequestTooLarge(size)`: the OCR client's own size gate (main.py:20-21).
- `RequestFailed(status, body)`: a non-200 status (main.py:27-28), and also a
  missing `ParsedResults` or `ParsedText` key (main.py:32-35). The code raises
  the identical exception for both.
- `NoParsedResults`: an empty `ParsedResults` list. Indexing it raises an
  `IndexError`, which `except KeyError` does not catch, so it escapes as a
  different kind of error.
- `BodyNotJson`: `r.json()` fails on a body that is not JSON (main.py:31).
- `PageTooLarge(page, size)`: a page still too large after compression
  (main.py:97-98). Failures of the OCR client reach the caller unchanged, as
  `OcrFailed(cause)`.

## Model

| member | source | states |
|---|---|---|
| `Ocr.SendToOcr` | main.py:6-35 | an oversize buffer fails with `RequestTooLarge(size)`; otherwise a status other than 200 fails with that status and body; success exactly when the buffer fits, the status is 200 and `ParsedResults[0].ParsedText` exists, and the text returned is that one; a missing key fails like an HTTP failure; an empty list and an undecodable body fail with their own kinds |
| `Ocr.OversizeIsNeverPosted` | main.py:18-24 | for an oversize buffer the outcome does not depend on the service's reply: nothing is posted |
| `Ocr.LimitItselfIsAccepted` | main.py:20 | a buffer of exactly `1024 ** 2` passes the gate and succeeds on a good reply |
| `Pdf.PageWriter.constructor` | main.py:68-70 | a new one-page writer holds the page, uncompressed |
| `Pdf.PageWriter.CompressContentStreams` | main.py:86-87 | compression changes the writer in place; it keeps its page and now writes the compressed export |
| `Ocr.FirstParsedText` | main.py:33 | the lookup `json['ParsedResults'][0]['ParsedText']`: in a decoded object with a non-empty result list it gives exactly the first entry's `ParsedText` (present or missing), and a text is found in no other shape |
| `Pdf.PageWriter.Write` | main.py:73-77 | writing and measuring the writer gives the plain export before compression and the compressed export after it (the same call at main.py:91-95) |
| `Extraction.Chosen` | main.py:79-101 | the export finally measured against the limit: the plain one whenever it fits, and the compressed one whenever the plain one does not; so a chosen export over the limit is always a compressed one |
| `Extraction.ProcessPage` | main.py:67-101 | no contract: one iteration of the OCR loop, the specification of those lines; `PageProtocol` states its properties |
| `Extraction.Run` | main.py:65-101 | no contract: the OCR loop over the first `k` pages from the empty text, stopping at the first failure; the lemmas of `ExtractionProperties` state its properties |
| `Extraction.Extract` | main.py:65-103 | no contract: `Run` over every page, the specification that `ExtractText` is proved equal to |
| `Extraction.FailureIsFinal` | main.py:83-101 | once a page has failed, processing more pages changes neither the result nor the events |
| `Extraction.ExtractText` | main.py:53-103 | after the native pass and the reset, the loop over the pages returns exactly the result and the events of the specification `Extract`, so the native text never reaches the result |
| `ExtractionProperties.PageProtocol` | main.py:76-101 | on one page: a page that fits is submitted once uncompressed and never compressed; a page that does not fit is compressed once and only the compressed export is submitted, if it fits; one submission exactly when some export fits; no export fits exactly when the result is `PageTooLarge(i, compressed size)`; otherwise the result is the OCR client's answer to the chosen export |
| `ExtractionProperties.EmptyDocument` | main.py:65-103 | a document with no pages yields `""` and no event, so no OCR call |
| `ExtractionProperties.RunEvents` | main.py:66-101 | every event concerns a page already visited, and every submitted buffer fits the limit |
| `ExtractionProperties.GateNeverFires` | main.py:77-101 | the extraction never fails with the OCR client's own `RequestTooLarge`, since every buffer is measured before it is submitted |
| `ExtractionProperties.RunSucceedsIffEveryPageDoes` | main.py:66-101 | the pages before `k` all succeeded exactly when the run over them succeeded |
| `ExtractionProperties.SuccessIffEveryPageSucceeds` | main.py:66-103 | extraction succeeds exactly when every page succeeds |
| `ExtractionProperties.RunJoinsTexts` | main.py:65-101 | with per-page texts, the run over the first `k` pages yields the first `k` texts joined in order |
| `ExtractionProperties.SuccessIsConcatenation` | main.py:65-103 | when every page yields a text, the result is all the texts in page order with no separator |
| `ExtractionProperties.SubmissionsInOrder` | main.py:66-101 | the submitted pages are `0, 1, 2, …` in order, each once, none skipped; after success every page was submitted exactly once |
| `ExtractionProperties.PageEventsUpTo` | main.py:66-101 | the events of page `i` in any longer run are those of processing page `i` when it was reached, and none otherwise |
| `ExtractionProperties.PageEvents` | main.py:66-101 | the events of page `i` in the whole extraction are those of processing page `i` when it was reached, and none otherwise |
| `ExtractionProperties.FittingPageIsSubmittedOnce` | main.py:77-84 | a reached page that fits (including exactly `1024 ** 2`) is submitted once, uncompressed, and never compressed |
| `ExtractionProperties.OversizePageIsCompressedOnce` | main.py:79-101 | a reached page that does not fit is compressed once, its uncompressed export is never submitted, and the compressed one is submitted once when it fits |
| `ExtractionProperties.AbortIsFinal` | main.py:83-101 | the first failing page's error is the result, and no event concerns a later page |
| `ExtractionProperties.StillTooLargeAborts` | main.py:95-98 | a reached page still too large after compression aborts with its index and compressed size; no later page is touched |
| `ExtractionProperties.OcrFailureAborts` | main.py:83-101 | an OCR failure on a reached page is the document's result; no later page is touched |
| `ExtractionProperties.RunIgnoresNativeText` | main.py:65-101 | runs over documents that differ only in their native text are equal |
| `ExtractionProperties.NativeTextIgnored` | main.py:53-103 | documents that differ only in their native text have the same outcome; with `ExtractText`'s ensures, the text gathered at main.py:53-56 and dropped at main.py:65 cannot change what the method returns |
| `ExtractionProperties.ThreePagesThatFit` | main.py:65-103 | three fitting pages read as "A", "B", "C" give "ABC" from one submission per page, in order |
| `ExtractionProperties.PageThatFitsOnlyCompressed` | main.py:79-103 | a page of twice the limit that compresses to half of it and reads as "X" gives "X", after one compression and one submission |

## Left out

- The HTTP POST (main.py:24) and the transport errors it can raise. The
  service's reply to a buffer is an input of the model.
- JSON values of other shapes: a body that decodes to something other than
  an object, a `ParsedResults` that is not a list, a `ParsedText` that is not
  a string. Only the shapes that the lookup at main.py:33 distinguishes are
  modelled.
- pypdf itself: `PdfReader` parsing, `add_page`, `write`,
  `compress_content_streams` and `extract_text` (main.py:48, 55-56, 68-73,
  86-91) are represented by the per-page size and reply oracles of `Pdf`.
  `CompressContentStreams` stands for the loop over the writer's pages at
  main.py:86-87, which always holds exactly one page.
- The never-taken early return `if False: return text` (main.py:60-61) is not
  in `ExtractText`: its branch is dead.
- NativeTextIgnored: holds because the specification `Extract` never reads a
  page's native text. pypdf's `extract_text` is an oracle that always gives a
  string, so an exception it raises during the native pass, which would end
  the document before any OCR call, is not modelled.
- RunIgnoresNativeText: holds for the same reason as `NativeTextIgnored`, and
  has the same gap: a failure of the native pass is not modelled.
- The label `f'{pdf}_p{i}.pdf'` sent with each page (main.py:83, 101): the
  reply in each `Export` is already the reply for that page's label.
- `BytesIO` lifetime and `seek`, the `print` output, the API URL and key
  (main.py:9-15), and the wording of exception messages beyond the fields
  they carry.
- The `__main__` harness (main.py:106-135).
