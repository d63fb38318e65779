/**
 * Asking the language model for the structured report. The model call and
 * JSON decoding are outside the model: the replies the service gives, one
 * per call, and the decoder's verdict on a text are parameters. Two
 * variants exist: a retry loop that also insists on the two top-level
 * keys, and a single-shot call that does not.
 */
module Extraction {
  import opened Basics
  import opened Models
  import PageText

  /** What one call to the service gives back. */
  datatype Reply =
    | CallRaised(exc: Exc)     // the call itself raised; no response object was bound
    | TextRaised(exc: Exc)     // a response came back, but reading its `.text` raises
    | Replied(text: string)    // a response with this text

  /**
   * What the code learns from a cleaned text: either it is not JSON (with
   * the decoder's message), or it decodes to a value, of which we keep the
   * outcome of the two key-membership tests (`"header" in v`,
   * `"audit_paras" in v`, which raise for numbers and null) and of building
   * the report from it (`ParsedDARReport(**v)`, which raises for a value
   * that is not a mapping or does not fit the record).
   */
  datatype Decoded =
    | NotJson(error: string)
    | Decoded(keys: Result<(bool, bool), Exc>, report: Result<ParsedDarReport, Exc>)

  /** How the function ends: it returns a report, or an exception escapes it. */
  datatype Outcome = Returned(report: ParsedDarReport) | Raised(exc: Exc)

  const KeyMessage := "Gemini API Key not configured."
  const PlaceholderKey := "YOUR_API_KEY_HERE"
  const OtherErrorPrefix := "Error in preprocess_pdf_text_"

  /** `not api_key or api_key == "YOUR_API_KEY_HERE"` */
  predicate KeyMissing(apiKey: Option<string>) {
    apiKey.None? || apiKey.value == "" || apiKey.value == PlaceholderKey
  }

  /** The text is an error report from the preprocessing step rather than document text. */
  predicate IsPreprocessError(text: string) {
    StartsWith(text, PageText.ErrorPrefix) || StartsWith(text, OtherErrorPrefix)
  }

  // ---------------------------------------------------------------------
  // Cleaning the reply
  // ---------------------------------------------------------------------

  /**
   * Strip the reply, then drop one leading "```json" and one trailing
   * "```". A leading "`json" (five characters) is dropped together with
   * the character after it: the code slices six.
   */
  function StripFences(raw: string): (r: string)
    ensures |r| <= |Strip(raw)| <= |raw|
  {
    var t := Strip(raw);
    var t1 := if StartsWith(t, "```json") then t[7..]
              else if StartsWith(t, "`json") then (if |t| >= 6 then t[6..] else "")
              else t;
    if EndsWith(t1, "```") then t1[..|t1| - 3] else t1
  }

  /** A fenced block gives back exactly what was inside the fences. */
  lemma StripFencesRoundTrip(body: string)
    ensures StripFences("```json" + body + "```") == body
  {
    var s := "```json" + body + "```";
    StripUnpadded(s);
    assert s[..7] == "```json";
    assert s[7..] == body + "```";
    assert (body + "```")[..|body|] == body;
  }

  /**
   * After a single-backtick "`json" the character that follows goes as
   * well: with "`json{...}" the opening brace is lost.
   */
  lemma SingleBacktickFenceSlicesSix(x: char, body: string)
    requires !IsSpace(x) && (body == "" || !IsSpace(body[|body| - 1]))
    requires !EndsWith(body, "```")
    ensures StripFences("`json" + [x] + body) == body
  {
    var s := "`json" + [x] + body;
    StripUnpadded(s);
    assert s[..5] == "`json";
    assert s[1] != '`';
    assert s[6..] == body;
  }

  /** A reply that is already clean passes through untouched. */
  lemma StripFencesUnfenced(s: string)
    requires Strip(s) == s
    requires !StartsWith(s, "```json") && !StartsWith(s, "`json") && !EndsWith(s, "```")
    ensures StripFences(s) == s
  {
  }

  // ---------------------------------------------------------------------
  // The retry loop
  // ---------------------------------------------------------------------

  /** What one attempt leads to. */
  datatype Step =
    | Accepted(report: ParsedDarReport)   // keys present and the record built
    | Retry(message: string, wait: nat)   // this attempt failed: its message, and the pause before the next
    | Escaped(exc: Exc)                   // an exception escapes the error handler itself

  function EmptyMessage(n: nat): (m: string)
    ensures Contains(m, NatToString(n))
  {
    var tail := ".";
    ContainsMiddle("Gemini returned an empty response on attempt ", NatToString(n), tail);
    "Gemini returned an empty response on attempt " + NatToString(n) + tail
  }

  function KeylessMessage(n: nat, cleaned: string): (m: string)
    ensures Contains(m, NatToString(n))
  {
    var tail := ") missing 'header' or 'audit_paras' key. Response: " + Take(cleaned, 500);
    ContainsMiddle("Gemini response (Attempt ", NatToString(n), tail);
    "Gemini response (Attempt " + NatToString(n) + tail
  }

  function NotJsonMessage(n: nat, error: string, raw: string): (m: string)
    ensures Contains(m, NatToString(n))
  {
    var tail := ") was not valid JSON: " + error + ". Response: '" + Take(raw, 1000) + "...'";
    ContainsMiddle("Gemini output (Attempt ", NatToString(n), tail);
    "Gemini output (Attempt " + NatToString(n) + tail
  }

  function OtherMessage(n: nat, e: Exc, raw: string): (m: string)
    ensures Contains(m, NatToString(n))
  {
    var tail := ") during Gemini/Pydantic: " + e.typeName + " - " + e.message + ". Response: " + Take(raw, 500);
    ContainsMiddle("Error (Attempt ", NatToString(n), tail);
    "Error (Attempt " + NatToString(n) + tail
  }

  function GaveUpMessage(maxRetries: int): string {
    "Gemini call failed after " + IntToString(maxRetries + 1) + " attempts. Last error: None"
  }

  /**
   * The response object bound by the latest call that returned one: a
   * failing call leaves the previous attempt's response in place.
   */
  function LastResponse(replies: seq<Reply>): (r: Option<Reply>)
    ensures r.Some? ==> !r.value.CallRaised?
    ensures r.None? <==> forall k :: 0 <= k < |replies| ==> replies[k].CallRaised?
  {
    if |replies| == 0 then None
    else if replies[|replies| - 1].CallRaised? then LastResponse(replies[..|replies| - 1])
    else Some(replies[|replies| - 1])
  }

  lemma LastResponseSnoc(replies: seq<Reply>, k: nat)
    requires k < |replies|
    ensures LastResponse(replies[..k + 1])
      == if replies[k].CallRaised? then LastResponse(replies[..k]) else Some(replies[k])
  {
    assert replies[..k + 1][..k] == replies[..k];
  }

  /** The text the handlers quote: the bound response's text, or a fallback when there is none. */
  function RawText(response: Option<Reply>): string {
    if response.Some? && response.value.Replied? then response.value.text else "No response text captured"
  }

  /** The generic handler's message for attempt `n`: it reads `response.text`, which may raise. */
  function Handled(n: nat, e: Exc, response: Option<Reply>): (r: Step)
    requires response.Some? ==> !response.value.CallRaised?
  {
    match response
    case None => Retry(OtherMessage(n, e, "No response text captured"), 2 * n)
    case Some(TextRaised(e2)) => Escaped(e2)
    case Some(Replied(t)) => Retry(OtherMessage(n, e, t), 2 * n)
  }

  /** The reply's cleaned text decodes with both keys present and builds `report`. */
  predicate DecodesTo(reply: Reply, decode: string -> Decoded, report: ParsedDarReport) {
    reply.Replied?
    && decode(StripFences(reply.text)).Decoded?
    && decode(StripFences(reply.text)).keys == Ok((true, true))
    && decode(StripFences(reply.text)).report == Ok(report)
  }

  /** Attempt number `n` (from 1), given its reply and the response bound before it. */
  function Attempt(n: nat, reply: Reply, previous: Option<Reply>, decode: string -> Decoded): (r: Step)
    requires previous.Some? ==> !previous.value.CallRaised?
  {
    match reply
    case CallRaised(e) => Handled(n, e, previous)
    case TextRaised(e) => Escaped(e)
    case Replied(text) =>
      var cleaned := StripFences(text);
      if cleaned == "" then Retry(EmptyMessage(n), 1 + n)
      else match decode(cleaned)
        case NotJson(err) => Retry(NotJsonMessage(n, err, text), 2 * n)
        case Decoded(keys, report) =>
          match keys
          case Err(e) => Handled(n, e, Some(reply))
          case Ok(present) =>
            if !present.0 || !present.1 then Retry(KeylessMessage(n, cleaned), 1 + n)
            else match report
              case Ok(r) => Accepted(r)
              case Err(e) => Handled(n, e, Some(reply))
  }

  /** Attempt `k + 1`, the one that consumes `replies[k]`. */
  function StepAt(replies: seq<Reply>, k: nat, decode: string -> Decoded): Step
    requires k < |replies|
  {
    Attempt(k + 1, replies[k], LastResponse(replies[..k]), decode)
  }

  /**
   * Attempts 1 to n all asked for a retry, and `waits[k]` is the pause
   * taken after attempt k + 1, stated one attempt at a time.
   */
  predicate RetriedBefore(replies: seq<Reply>, n: nat, decode: string -> Decoded, waits: seq<nat>)
    requires n <= |replies|
    decreases n
  {
    |waits| == n
    && (n > 0 ==>
      RetriedBefore(replies, n - 1, decode, waits[..n - 1])
      && StepAt(replies, n - 1, decode).Retry?
      && waits[n - 1] == StepAt(replies, n - 1, decode).wait)
  }

  lemma RetriedExtend(replies: seq<Reply>, n: nat, decode: string -> Decoded, waits: seq<nat>, step: Step)
    requires n < |replies|
    requires RetriedBefore(replies, n, decode, waits)
    requires step == StepAt(replies, n, decode) && step.Retry?
    ensures RetriedBefore(replies, n + 1, decode, waits + [step.wait])
  {
    assert (waits + [step.wait])[..n] == waits;
  }

  /** How the loop ends, given its last attempt. */
  predicate Concludes(last: Step, calls: nat, maxRetries: int, outcome: Outcome) {
    match last
    case Accepted(r) => outcome == Returned(r)
    case Escaped(e) => outcome == Raised(e)
    case Retry(msg, _) => calls == maxRetries + 1 && outcome == Returned(FailedReport(msg))
  }

  /**
   * The extraction with retries. `replies[k]` is what call number k + 1
   * gives; `calls` counts the calls made and `waits` the pauses taken
   * between them, in seconds.
   */
  method GetStructuredDataWithGemini(apiKey: Option<string>, text: string, maxRetries: int,
                                     replies: seq<Reply>, decode: string -> Decoded)
    returns (outcome: Outcome, calls: nat, waits: seq<nat>)
    requires maxRetries < |replies|
    ensures KeyMissing(apiKey) ==>
      outcome == Returned(FailedReport(KeyMessage)) && calls == 0 && waits == []
    ensures !KeyMissing(apiKey) && IsPreprocessError(text) ==>
      outcome == Returned(FailedReport(text)) && calls == 0 && waits == []
    ensures !KeyMissing(apiKey) && !IsPreprocessError(text) && maxRetries < 0 ==>
      outcome == Returned(FailedReport(GaveUpMessage(maxRetries))) && calls == 0 && waits == []
    ensures !KeyMissing(apiKey) && !IsPreprocessError(text) && maxRetries >= 0 ==>
      (1 <= calls <= maxRetries + 1
       && RetriedBefore(replies, calls - 1, decode, waits)
       && Concludes(StepAt(replies, calls - 1, decode), calls, maxRetries, outcome))
  {
    if KeyMissing(apiKey) {
      return Returned(FailedReport(KeyMessage)), 0, [];
    }
    if IsPreprocessError(text) {
      return Returned(FailedReport(text)), 0, [];
    }
    outcome, calls, waits := RetryLoop(maxRetries, replies, decode);
  }

  /** `for attempt in range(max_retries + 1)`, and the failure report after the last attempt. */
  method RetryLoop(maxRetries: int, replies: seq<Reply>, decode: string -> Decoded)
    returns (outcome: Outcome, calls: nat, waits: seq<nat>)
    requires maxRetries < |replies|
    ensures maxRetries < 0 ==>
      outcome == Returned(FailedReport(GaveUpMessage(maxRetries))) && calls == 0 && waits == []
    ensures maxRetries >= 0 ==>
      (1 <= calls <= maxRetries + 1
       && RetriedBefore(replies, calls - 1, decode, waits)
       && Concludes(StepAt(replies, calls - 1, decode), calls, maxRetries, outcome))
  {
    calls, waits := 0, [];
    var attempt := 0;
    var response: Option<Reply> := None;
    while attempt <= maxRetries
      invariant 0 <= attempt && (maxRetries >= 0 ==> attempt <= maxRetries) && (maxRetries < 0 ==> attempt == 0)
      invariant calls == attempt
      invariant response == LastResponse(replies[..attempt])
      invariant RetriedBefore(replies, attempt, decode, waits)
    {
      var reply := replies[attempt];
      var step := Attempt(attempt + 1, reply, response, decode);
      assert step == StepAt(replies, attempt, decode);
      LastResponseSnoc(replies, attempt);
      if !reply.CallRaised? {
        response := Some(reply);
      }
      assert response == LastResponse(replies[..attempt + 1]);
      attempt := attempt + 1;
      calls := calls + 1;
      match step {
        case Accepted(r) =>
          return Returned(r), calls, waits;
        case Escaped(e) =>
          return Raised(e), calls, waits;
        case Retry(msg, pause) =>
          if attempt > maxRetries {
            return Returned(FailedReport(msg)), calls, waits;
          }
          RetriedExtend(replies, attempt - 1, decode, waits, step);
          waits := waits + [pause];
      }
    }
    outcome := Returned(FailedReport(GaveUpMessage(maxRetries)));
  }

  /** The conclusions of `FailedAttempt`, for one step. */
  predicate WellFormedFailure(n: nat, s: Step) {
    s.Retry? ==> n + 1 <= s.wait <= 2 * n && Contains(s.message, NatToString(n))
  }

  lemma HandledFailure(n: nat, e: Exc, response: Option<Reply>)
    requires n >= 1
    requires response.Some? ==> !response.value.CallRaised?
    ensures WellFormedFailure(n, Handled(n, e, response))
  {
  }

  /**
   * The generic handler never accepts; it lets an exception out exactly
   * when reading the bound response's text raises, and otherwise retries
   * after twice the attempt number with a message built from that text.
   */
  lemma HandledOutcome(n: nat, e: Exc, response: Option<Reply>)
    requires response.Some? ==> !response.value.CallRaised?
    ensures var r := Handled(n, e, response);
      && !r.Accepted?
      && (r.Escaped? <==> response.Some? && response.value.TextRaised?)
      && (r.Retry? ==> r.wait == 2 * n && r.message == OtherMessage(n, e, RawText(response)))
  {
  }

  /** An attempt accepts only a reply whose cleaned text decodes, with both keys, to the report it returns. */
  lemma AcceptedDecodes(n: nat, reply: Reply, previous: Option<Reply>, decode: string -> Decoded)
    requires previous.Some? ==> !previous.value.CallRaised?
    ensures var r := Attempt(n, reply, previous, decode);
      r.Accepted? ==> DecodesTo(reply, decode, r.report)
  {
    match reply
    case CallRaised(e) => HandledOutcome(n, e, previous);
    case TextRaised(e) =>
    case Replied(text) =>
      var cleaned := StripFences(text);
      if cleaned != "" && decode(cleaned).Decoded? {
        var d := decode(cleaned);
        if d.keys.Err? {
          HandledOutcome(n, d.keys.error, Some(reply));
        } else if d.keys.value.0 && d.keys.value.1 && d.report.Err? {
          HandledOutcome(n, d.report.error, Some(reply));
        }
      }
  }

  lemma RepliedFailure(n: nat, text: string, previous: Option<Reply>, decode: string -> Decoded)
    requires n >= 1
    requires previous.Some? ==> !previous.value.CallRaised?
    ensures WellFormedFailure(n, Attempt(n, Replied(text), previous, decode))
  {
    var cleaned := StripFences(text);
    if cleaned != "" {
      match decode(cleaned)
      case NotJson(err) =>
      case Decoded(keys, report) =>
        if keys.Err? {
          HandledFailure(n, keys.error, Some(Replied(text)));
        } else if keys.value.0 && keys.value.1 && report.Err? {
          HandledFailure(n, report.error, Some(Replied(text)));
        }
    }
  }

  /**
   * A failed attempt names its number in its message, and pauses for
   * between attempt + 1 and twice the attempt number seconds.
   */
  lemma FailedAttempt(n: nat, reply: Reply, previous: Option<Reply>, decode: string -> Decoded)
    requires n >= 1
    requires previous.Some? ==> !previous.value.CallRaised?
    ensures var s := Attempt(n, reply, previous, decode);
      s.Retry? ==> n + 1 <= s.wait <= 2 * n && Contains(s.message, NatToString(n))
  {
    match reply
    case CallRaised(e) => HandledFailure(n, e, previous);
    case TextRaised(e) =>
    case Replied(text) => RepliedFailure(n, text, previous, decode);
  }

  // ---------------------------------------------------------------------
  // The single-shot variant
  // ---------------------------------------------------------------------

  /**
   * The single-shot extraction: at most one call, no check for the two
   * keys, and no check of the API key. `calls` is 0 or 1.
   */
  function ExtractOnce(text: string, reply: Reply, decode: string -> Decoded): (r: (Outcome, nat))
    ensures r.1 <= 1
    ensures r.0.Raised? ==> reply.TextRaised? && r.0.exc == reply.exc && reply.exc.typeName != "AttributeError"
  {
    if StartsWith(text, PageText.ErrorPrefix) then (Returned(FailedReport(text)), 0)
    else
      var outcome :=
        match reply
        case CallRaised(e) => Returned(FailedReport(OnceOtherMessage(e, "No response text available")))
        case TextRaised(e) =>
          // `hasattr(response, 'text')` swallows only AttributeError
          if e.typeName == "AttributeError"
          then Returned(FailedReport(OnceOtherMessage(e, "No response text available")))
          else Raised(e)
        case Replied(raw) =>
          var cleaned := StripFences(raw);
          if cleaned == "" then Returned(FailedReport("Gemini returned an empty response."))
          else match decode(cleaned)
            case NotJson(err) =>
              Returned(FailedReport("Gemini output was not valid JSON: " + err + ". Response: '"
                                    + Take(raw, 1000) + "...'"))
            case Decoded(_, report) =>
              match report
              case Ok(rep) => Returned(rep)
              case Err(e) => Returned(FailedReport(OnceOtherMessage(e, raw)));
      (outcome, 1)
  }

  /**
   * The single-shot variant calls the service exactly when the text is
   * not an error report, passes an error report on as its failure, and
   * returns a report that is not a failure only when the service replied
   * and the reply decoded to that report. Conversely, a reply whose
   * cleaned text decodes to a report returns that report, and an empty
   * cleaned reply returns the empty-response note.
   */
  lemma ExtractOnceFacts(text: string, reply: Reply, decode: string -> Decoded)
    ensures var r := ExtractOnce(text, reply, decode);
      (StartsWith(text, PageText.ErrorPrefix) <==> r.1 == 0)
      && (r.1 == 0 ==> r.0 == Returned(FailedReport(text)))
      && (r.0.Returned? && !IsFailure(r.0.report) ==>
          reply.Replied? && decode(StripFences(reply.text)).Decoded?
          && decode(StripFences(reply.text)).report == Ok(r.0.report))
      && (!StartsWith(text, PageText.ErrorPrefix) && reply.Replied? ==>
          OnceFromReply(reply.text, decode, r))
  {
    if !StartsWith(text, PageText.ErrorPrefix) {
      match reply
      case CallRaised(e) =>
      case TextRaised(e) =>
      case Replied(raw) => RepliedOnce(text, raw, decode);
    }
  }

  /**
   * What a single-shot call returns for a reply: the empty-response note
   * when the cleaned text is empty, and the decoded report when the
   * cleaned text decodes to one.
   */
  predicate OnceFromReply(raw: string, decode: string -> Decoded, r: (Outcome, nat)) {
    var cleaned := StripFences(raw);
    && (cleaned == "" ==> r == (Returned(FailedReport("Gemini returned an empty response.")), 1))
    && (cleaned != "" && decode(cleaned).Decoded? && decode(cleaned).report.Ok? ==>
          r == (Returned(decode(cleaned).report.value), 1))
  }

  /**
   * With a reply in hand, the single-shot variant returns a non-failure
   * report only when the reply decoded to it, and returns the decoded
   * report whenever there is one.
   */
  lemma RepliedOnce(text: string, raw: string, decode: string -> Decoded)
    requires !StartsWith(text, PageText.ErrorPrefix)
    ensures var r := ExtractOnce(text, Replied(raw), decode);
      && (r.0.Returned? && !IsFailure(r.0.report) ==>
            decode(StripFences(raw)).Decoded? && decode(StripFences(raw)).report == Ok(r.0.report))
      && OnceFromReply(raw, decode, r)
  {
    var cleaned := StripFences(raw);
    var r := ExtractOnce(text, Replied(raw), decode);
    if cleaned == "" {
      assert r == (Returned(FailedReport("Gemini returned an empty response.")), 1);
    } else if decode(cleaned).Decoded? && decode(cleaned).report.Ok? {
      assert r == (Returned(decode(cleaned).report.value), 1);
    }
  }

  function OnceOtherMessage(e: Exc, raw: string): string {
    "Error during Gemini/Pydantic: " + e.typeName + " - " + e.message + ". Response: " + Take(raw, 500)
  }

  /**
   * A document the preprocessing step could not read never reaches the
   * service, whichever variant is used and whatever the key.
   */
  lemma UnreadablePdfMakesNoCall(pdf: PageText.PdfInput, reply: Reply, decode: string -> Decoded)
    requires !(pdf.Opened? && PageText.ExtractedBefore(pdf.pages, |pdf.pages|))
    ensures IsPreprocessError(PageText.Preprocessed(pdf))
    ensures ExtractOnce(PageText.Preprocessed(pdf), reply, decode).1 == 0
  {
    PageText.SuccessAndFailureDistinct(pdf);
    ExtractOnceFacts(PageText.Preprocessed(pdf), reply, decode);
  }
}
