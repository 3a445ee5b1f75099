/** The `POST` handler of src/app/api/summarize/route.ts (lines 4-34) as a
    function from what happened during the request to the response it
    returns. Reading the body (`req.json()`) and the summarization flow are
    outside this model: their outcomes are inputs. The handler is split at
    its one `await` on the flow: `Prepare` decides, from the parsed body,
    whether to answer at once or to call the flow and with what text. */
module SummarizeRoute {
  import opened SlangTypes

  /** A value produced by `JSON.parse`. An object is a map from keys to
      values: on a repeated key the parser keeps the last value. */
  datatype Json =
    | JNull
    | JBool(b: bool)
    | JNumber(n: real)
    | JString(s: string)
    | JArray(elems: seq<Json>)
    | JObject(members: map<string, Json>)

  /** JavaScript truthiness of a parsed value: `null`, `false`, `0` and `""`
      are the falsy ones. */
  predicate Truthy(v: Json) {
    match v
    case JNull => false
    case JBool(b) => b
    case JNumber(n) => n != 0.0
    case JString(s) => s != []
    case _ => true
  }

  /** `body.text` once `!body` has been ruled out: only an object can hold
      the property; on any other value it is `undefined` (None). */
  function TextProperty(body: Json): Option<Json> {
    if body.JObject? && "text" in body.members then Some(body.members["text"]) else None
  }

  /** The characters `String.prototype.trim` removes: the WhiteSpace and
      LineTerminator code points of sections 12.2 and 12.3 of ECMA-262. */
  predicate IsJsSpace(c: char) {
    c == '\t' || c == '\n' || c == '\U{B}' || c == '\U{C}' || c == '\r' || c == ' '
    || c == '\U{A0}' || c == '\U{1680}' || ('\U{2000}' <= c <= '\U{200A}')
    || c == '\U{2028}' || c == '\U{2029}' || c == '\U{202F}' || c == '\U{205F}'
    || c == '\U{3000}' || c == '\U{FEFF}'
  }

  /** Every character of `s` is one that `trim` removes. */
  predicate IsBlank(s: string) {
    forall i :: 0 <= i < |s| ==> IsJsSpace(s[i])
  }

  /** Drops the leading white space. */
  function TrimStart(s: string): string
    decreases |s|
  {
    if s != [] && IsJsSpace(s[0]) then TrimStart(s[1..]) else s
  }

  /** Drops the trailing white space. */
  function TrimEnd(s: string): string
    decreases |s|
  {
    if s != [] && IsJsSpace(s[|s| - 1]) then TrimEnd(s[..|s| - 1]) else s
  }

  /** `s.trim()`. */
  function Trim(s: string): string {
    TrimEnd(TrimStart(s))
  }

  /** `TrimStart` keeps a suffix, drops only white space and stops at the
      first other character. */
  lemma {:induction false} TrimStartIsLongestSuffix(s: string)
    ensures |TrimStart(s)| <= |s|
    ensures TrimStart(s) == s[|s| - |TrimStart(s)|..]
    ensures IsBlank(s[..|s| - |TrimStart(s)|])
    ensures TrimStart(s) != [] ==> !IsJsSpace(TrimStart(s)[0])
    decreases |s|
  {
    if s != [] && IsJsSpace(s[0]) {
      TrimStartIsLongestSuffix(s[1..]);
      var n := |s| - |TrimStart(s)|;
      assert s[1..][|s| - 1 - |TrimStart(s)|..] == s[n..];
      assert forall i :: 1 <= i < n ==> s[..n][i] == s[1..][..n - 1][i - 1];
    }
  }

  /** `TrimEnd` keeps a prefix, drops only white space and stops at the last
      other character. */
  lemma {:induction false} TrimEndIsLongestPrefix(s: string)
    ensures |TrimEnd(s)| <= |s|
    ensures TrimEnd(s) == s[..|TrimEnd(s)|]
    ensures IsBlank(s[|TrimEnd(s)|..])
    ensures TrimEnd(s) != [] ==> !IsJsSpace(TrimEnd(s)[|TrimEnd(s)| - 1])
    decreases |s|
  {
    if s != [] && IsJsSpace(s[|s| - 1]) {
      var init := s[..|s| - 1];
      TrimEndIsLongestPrefix(init);
      var n := |TrimEnd(s)|;
      assert init[..n] == s[..n];
      assert forall j :: 0 <= j < |s| - 1 - n ==> s[n..][j] == init[n..][j];
    }
  }

  /** `s.trim() === ''` exactly when `s` is all white space. */
  lemma TrimIsEmptyIffBlank(s: string)
    ensures Trim(s) == [] <==> IsBlank(s)
  {
    TrimStartIsLongestSuffix(s);
    var u := TrimStart(s);
    var k := |s| - |u|;
    TrimEndIsLongestPrefix(u);
    if u != [] {
      assert u[0] == s[k];
    }
    if Trim(s) == [] {
      assert u[|TrimEnd(u)|..] == u;
      assert s[..k] == s;
    }
  }

  /** The summarization flow's output, `{ summaryCountryOfOrigin,
      summaryEstimatedAgeRange }`. */
  datatype Summary = Summary(summaryCountryOfOrigin: string, summaryEstimatedAgeRange: string)

  /** What `await req.json()` did: produced a value or threw. */
  datatype BodyParse = Parsed(body: Json) | ParseThrew(thrown: Thrown)

  /** What `await summarizeSlangUsage(input)` did: returned or threw. */
  datatype FlowOutcome = Summarized(summary: Summary) | FlowThrew(thrown: Thrown)

  /** The JSON bodies the handler answers with. */
  datatype Payload =
    | ErrorPayload(error: string)
    | ErrorWithDetails(error: string, details: string)
    | SummaryPayload(summary: Summary)

  /** `NextResponse.json(payload, { status })`; without an explicit status
      the response is a 200. */
  datatype Response = Response(status: nat, payload: Payload)

  const MissingTextMessage: string := "A non-empty \"text\" field is required in the request body."
  const InvalidJsonMessage: string := "Invalid JSON in request body."
  const SummaryFailedMessage: string := "Failed to get slang summary."

  /** The validation on line 9: the text to summarize, untrimmed, when the
      body is truthy, has a string `text` and that string is not blank. */
  function ValidatedText(body: Json): Option<string> {
    if !Truthy(body) then None
    else match TextProperty(body)
      case Some(JString(t)) => if Trim(t) == [] then None else Some(t)
      case _ => None
  }

  /** `error instanceof SyntaxError`. */
  predicate IsSyntaxError(e: Thrown) {
    e.ThrownError? && e.isSyntaxError
  }

  /** The `catch` block, lines 17-33. */
  function CaughtResponse(e: Thrown): Response {
    if IsSyntaxError(e) then Response(400, ErrorPayload(InvalidJsonMessage))
    else Response(500, ErrorWithDetails(SummaryFailedMessage, MessageOf(e)))
  }

  /** Where the handler stands before the flow is awaited: it already has its
      response, or it calls the flow with `{ text: input }`. */
  datatype Step = Respond(response: Response) | CallFlow(input: string)

  /** Lines 5-13. */
  function Prepare(parse: BodyParse): Step {
    match parse
    case ParseThrew(e) => Respond(CaughtResponse(e))
    case Parsed(body) =>
      match ValidatedText(body)
      case None => Respond(Response(400, ErrorPayload(MissingTextMessage)))
      case Some(t) => CallFlow(t)
  }

  /** `POST(req)`: `flow` is what the flow call does, and is looked at only
      when the handler makes that call. */
  function Post(parse: BodyParse, flow: FlowOutcome): Response {
    match Prepare(parse)
    case Respond(r) => r
    case CallFlow(_) =>
      match flow
      case Summarized(summary) => Response(200, SummaryPayload(summary))
      case FlowThrew(e) => CaughtResponse(e)
  }

  /** The body an accepted request carries: an object whose `text` is a
      string with a character other than white space. */
  predicate HasUsableText(body: Json) {
    body.JObject? && "text" in body.members && body.members["text"].JString?
    && !IsBlank(body.members["text"].s)
  }

  /** The validation accepts exactly the bodies with usable text and passes
      that text on as it is, not trimmed. */
  lemma ValidationAcceptsUsableText(body: Json)
    ensures ValidatedText(body).Some? <==> HasUsableText(body)
    ensures ValidatedText(body).Some? ==> ValidatedText(body).value == body.members["text"].s
  {
    if body.JObject? && "text" in body.members && body.members["text"].JString? {
      TrimIsEmptyIffBlank(body.members["text"].s);
    }
  }

  /** A parsed body without usable text gets the fixed 400, whatever the
      flow would have done: the flow is not called. */
  lemma UnusableTextIsRejected(body: Json, flow: FlowOutcome)
    requires !HasUsableText(body)
    ensures Prepare(Parsed(body)) == Respond(Response(400, ErrorPayload(MissingTextMessage)))
    ensures Post(Parsed(body), flow) == Response(400, ErrorPayload(MissingTextMessage))
  {
    ValidationAcceptsUsableText(body);
  }

  /** A body with usable text is sent to the flow untrimmed, and what the
      flow returns is the 200 payload. */
  lemma UsableTextIsSummarized(body: Json, summary: Summary)
    requires HasUsableText(body)
    ensures Prepare(Parsed(body)) == CallFlow(body.members["text"].s)
    ensures Post(Parsed(body), Summarized(summary)) == Response(200, SummaryPayload(summary))
  {
    ValidationAcceptsUsableText(body);
  }

  /** A `SyntaxError` thrown while reading the body gives the "invalid
      JSON" 400, and the flow is not called. */
  lemma ParseSyntaxErrorIsInvalidJson(message: string, flow: FlowOutcome)
    ensures Prepare(ParseThrew(ThrownError(true, message))) == Respond(Response(400, ErrorPayload(InvalidJsonMessage)))
    ensures Post(ParseThrew(ThrownError(true, message)), flow) == Response(400, ErrorPayload(InvalidJsonMessage))
  {
  }

  /** A `SyntaxError` thrown by the flow lands in the same `catch` and gives
      the same 400, although the body was valid JSON. */
  lemma FlowSyntaxErrorIsInvalidJson(body: Json, message: string)
    requires HasUsableText(body)
    ensures Post(Parsed(body), FlowThrew(ThrownError(true, message))) == Response(400, ErrorPayload(InvalidJsonMessage))
  {
    ValidationAcceptsUsableText(body);
  }

  /** Any other value thrown while reading the body gives a 500 whose details
      are the error's message, or the fixed text when what was thrown is not
      an `Error`. */
  lemma ParseErrorIsServerError(e: Thrown, flow: FlowOutcome)
    requires !IsSyntaxError(e)
    ensures Post(ParseThrew(e), flow) == Response(500, ErrorWithDetails(SummaryFailedMessage, MessageOf(e)))
    ensures e.ThrownValue? ==> MessageOf(e) == UnknownError
  {
  }

  /** Any other value thrown by the flow gives the same 500. */
  lemma FlowErrorIsServerError(e: Thrown, body: Json)
    requires !IsSyntaxError(e)
    requires HasUsableText(body)
    ensures Post(Parsed(body), FlowThrew(e)) == Response(500, ErrorWithDetails(SummaryFailedMessage, MessageOf(e)))
    ensures e.ThrownValue? ==> MessageOf(e) == UnknownError
  {
    ValidationAcceptsUsableText(body);
  }

  /** The status is always 200, 400 or 500, and it is 200 exactly when the
      body parsed, had usable text and the flow returned. */
  lemma StatusClassification(parse: BodyParse, flow: FlowOutcome)
    ensures Post(parse, flow).status in {200, 400, 500}
    ensures Post(parse, flow).status == 200 <==> parse.Parsed? && HasUsableText(parse.body) && flow.Summarized?
    ensures Post(parse, flow).status == 500 <==>
              || (parse.ParseThrew? && !IsSyntaxError(parse.thrown))
              || (parse.Parsed? && HasUsableText(parse.body) && flow.FlowThrew? && !IsSyntaxError(flow.thrown))
  {
    if parse.Parsed? {
      ValidationAcceptsUsableText(parse.body);
    }
  }
}
