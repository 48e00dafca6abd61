/**
 * The OCR client: `send_to_ocr` in main.py. The HTTP POST and the JSON
 * decoding are not modelled; what the service answers to a buffer is an
 * abstract `Response` handed in by the caller.
 */
module Ocr {
  import opened Wrappers

  /** The transfer ceiling, `1024 ** 2`. Sizes are compared with `>`, so a
      buffer of exactly this size is still accepted. */
  const SizeLimit: nat := 1024 * 1024

  /** One element of the `ParsedResults` list; `parsedText` is `None` when the
      element has no `ParsedText` key. */
  datatype ParsedResult = ParsedResult(parsedText: Option<string>)

  /** The decoded body: `Undecodable` when the body is not JSON at all;
      otherwise an object whose `ParsedResults` key may be missing. */
  datatype Json = Undecodable | Object(parsedResults: Option<seq<ParsedResult>>)

  /** What the service answers to one POST. */
  datatype Response = Response(status: int, body: string, json: Json)

  datatype OcrError =
    | RequestTooLarge(size: nat)              // rejected before any request
    | RequestFailed(status: int, body: string) // a non-200 status, or a missing key
    | NoParsedResults                          // `[0]` on an empty list: not caught
    | BodyNotJson                              // the body does not decode

  /** The text at `ParsedResults[0].ParsedText`, when every step of the lookup
      finds something. */
  function FirstParsedText(json: Json): (t: Option<string>)
    // a text is found only in a decoded object with a non-empty result list,
    // and it is the first entry's
    ensures t.Some? ==> json.Object? && json.parsedResults.Some? && |json.parsedResults.value| > 0
                        && json.parsedResults.value[0].parsedText == t
    // and a first entry of a decoded object's result list is always looked at
    ensures json.Object? && json.parsedResults.Some? && |json.parsedResults.value| > 0
            ==> t == json.parsedResults.value[0].parsedText
  {
    if json.Object? && json.parsedResults.Some? && |json.parsedResults.value| > 0
    then json.parsedResults.value[0].parsedText
    else None
  }

  /**
   * Submits a buffer of the given measured size; `reply` is what the service
   * would answer if the buffer were posted.
   */
  function SendToOcr(size: nat, reply: Response): (r: Result<string, OcrError>)
    // the size gate fires before anything is sent
    ensures size > SizeLimit ==> r == Err(RequestTooLarge(size))
    // any status other than 200 fails, carrying the status and the body
    ensures size <= SizeLimit && reply.status != 200 ==> r == Err(RequestFailed(reply.status, reply.body))
    // success exactly when the buffer fits, the status is 200 and the lookup finds a text ...
    ensures r.Ok? <==> size <= SizeLimit && reply.status == 200 && FirstParsedText(reply.json).Some?
    // ... and the text returned is that one
    ensures r.Ok? ==> FirstParsedText(reply.json) == Some(r.value)
    // a missing key is reported exactly like an HTTP failure
    ensures size <= SizeLimit && reply.status == 200 && reply.json.Object? && FirstParsedText(reply.json).None?
            && reply.json != Object(Some([]))
            ==> r == Err(RequestFailed(200, reply.body))
    // an empty result list and an undecodable body are failures of their own kinds
    ensures r == Err(NoParsedResults) <==> size <= SizeLimit && reply.status == 200 && reply.json == Object(Some([]))
    ensures r == Err(BodyNotJson) <==> size <= SizeLimit && reply.status == 200 && reply.json.Undecodable?
  {
    if size > SizeLimit then
      Err(RequestTooLarge(size))
    else if reply.status != 200 then
      Err(RequestFailed(reply.status, reply.body))
    else
      match reply.json
      case Undecodable => Err(BodyNotJson)
      case Object(None) => Err(RequestFailed(reply.status, reply.body))
      case Object(Some(results)) =>
        if |results| == 0 then Err(NoParsedResults)
        else
          match results[0].parsedText
          case None => Err(RequestFailed(reply.status, reply.body))
          case Some(text) => Ok(text)
  }

  /** An oversize buffer is never posted: the outcome does not depend on what
      the service would have answered. */
  lemma {:induction false} OversizeIsNeverPosted(size: nat, a: Response, b: Response)
    requires size > SizeLimit
    ensures SendToOcr(size, a) == SendToOcr(size, b) == Err(RequestTooLarge(size))
  {
  }

  /** A buffer of exactly `1024 ** 2` passes the gate. */
  lemma {:induction false} LimitItselfIsAccepted(reply: Response)
    ensures SendToOcr(SizeLimit, reply) != Err(RequestTooLarge(SizeLimit))
    ensures reply.status == 200 && FirstParsedText(reply.json).Some? ==> SendToOcr(SizeLimit, reply).Ok?
  {
  }

}
