/** The `POST /api/analyze` handler as a total function from the request,
    the server's API key and the two outside services (the generative model
    and the JSON decoder) to a response. */
module Analysis {
  import opened Wrappers
  import opened Text
  import opened DataUrl
  import opened Fence
  import opened Json

  const MissingInput: string := "Missing imageData or mimeType"
  const NoApiKey: string := "API key not configured"
  const AnalysisFailed: string := "Failed to analyze document"

  const SummaryKey: string := "summary"
  const ActionKey: string := "action_required"
  const DeadlineKey: string := "deadline"
  const ReassuranceKey: string := "reassurance"

  const ReviewAction: string := "Review the document carefully"
  const NoDeadline: string := "None"
  const CalmMessage: string := "Take your time - we're here to help you understand this."

  /** The request body after `request.json()` and destructuring:
      `Unreadable` when reading or destructuring throws, otherwise the two
      fields, `None` standing for `undefined` or `null`. */
  datatype Request =
    | Unreadable(message: string)
    | Request(imageData: Option<string>, mimeType: Option<string>)

  /** What the generative model call yields: its text, or the message of the
      error it threw. */
  datatype Outcome = Text(text: string) | Failure(message: string)

  /** The handler's answer: status 200 with a JSON body, or an error status
      with `{ error }`. */
  datatype Response = Ok(body: Value) | Err(status: nat, error: string)

  /** The model call: API key, base64 payload and media type to an outcome. */
  type Model = (string, string, string) -> Outcome
  /** `JSON.parse`: `None` when it throws. */
  type Decoder = string -> Option<Value>

  /** JavaScript truthiness of an optional string (`!!x`). */
  predicate Given(field: Option<string>) {
    field.Some? && field.value != ""
  }

  /** The four-field check: every required member present and truthy. */
  predicate HasRequired(v: Value)
    ensures HasRequired(v) ==>
      v.JObject? && {SummaryKey, ActionKey, DeadlineKey, ReassuranceKey} <= v.members.Keys
  {
    TruthyMember(v, SummaryKey) && TruthyMember(v, ActionKey)
    && TruthyMember(v, DeadlineKey) && TruthyMember(v, ReassuranceKey)
  }

  /** The fixed record substituted when the model's output cannot be used. */
  function Fallback(text: string): (r: Value)
    ensures r.JObject? && r.members.Keys == {SummaryKey, ActionKey, DeadlineKey, ReassuranceKey}
    ensures Member(r, SummaryKey) == Some(JString(text))
    ensures Member(r, DeadlineKey) == Some(JString(NoDeadline))
    ensures TruthyMember(r, ActionKey) && TruthyMember(r, DeadlineKey) && TruthyMember(r, ReassuranceKey)
  {
    JObject(map[
      SummaryKey := JString(text),
      ActionKey := JString(ReviewAction),
      DeadlineKey := JString(NoDeadline),
      ReassuranceKey := JString(CalmMessage)])
  }

  /** Fence extraction, trim, decode and validate, falling back to the fixed
      record on any failure. */
  function Normalise(text: string, parse: Decoder): (r: Value)
    ensures HasRequired(r) || r == Fallback(text)
    ensures r == Fallback(text) || parse(JsonText(text)) == Some(r)
  {
    var decoded := parse(JsonText(text));
    if decoded.Some? && HasRequired(decoded.value) then decoded.value else Fallback(text)
  }

  /** `error.message || 'Failed to analyze document'`. */
  function ErrorMessage(message: string): (r: string)
    ensures r != ""
    ensures message != "" ==> r == message
  {
    if message == "" then AnalysisFailed else message
  }

  /** The handler. */
  function Analyze(request: Request, apiKey: Option<string>, generate: Model, parse: Decoder): (r: Response)
    ensures r.Err? ==> r.status == 400 || r.status == 500
    ensures r.Err? ==> r.error != ""
    ensures (r.Err? && r.status == 400)
      <==> (request.Request? && (!Given(request.imageData) || !Given(request.mimeType)))
    ensures r.Ok?
      <==> (&& request.Request? && Given(request.imageData) && Given(request.mimeType) && Given(apiKey)
            && generate(apiKey.value, StripPrefix(request.imageData.value), request.mimeType.value).Text?)
  {
    match request
    case Unreadable(message) => Err(500, ErrorMessage(message))
    case Request(imageData, mimeType) =>
      if !Given(imageData) || !Given(mimeType) then Err(400, MissingInput)
      else if !Given(apiKey) then Err(500, NoApiKey)
      else
        match generate(apiKey.value, StripPrefix(imageData.value), mimeType.value)
        case Failure(message) => Err(500, ErrorMessage(message))
        case Text(text) => Ok(Normalise(text, parse))
  }

  /** Missing input is reported before a missing key, and neither reaches the
      model: the response is the same whichever model is supplied. */
  lemma GuardsPrecedeModel(request: Request, apiKey: Option<string>, g1: Model, g2: Model, parse: Decoder)
    requires request.Request?
    ensures !Given(request.imageData) || !Given(request.mimeType) ==>
      Analyze(request, apiKey, g1, parse) == Err(400, MissingInput)
    ensures Given(request.imageData) && Given(request.mimeType) && !Given(apiKey) ==>
      Analyze(request, apiKey, g1, parse) == Err(500, NoApiKey)
    ensures !Given(request.imageData) || !Given(request.mimeType) || !Given(apiKey) ==>
      Analyze(request, apiKey, g1, parse) == Analyze(request, apiKey, g2, parse)
  {
  }

  /** The model is asked about the stripped payload only: two models that
      agree on the key, the stripped payload and the media type give the
      same response. */
  lemma ModelSeesStrippedPayload(imageData: string, mimeType: string, apiKey: string, g1: Model, g2: Model, parse: Decoder)
    requires g1(apiKey, StripPrefix(imageData), mimeType) == g2(apiKey, StripPrefix(imageData), mimeType)
    ensures Analyze(Request(Some(imageData), Some(mimeType)), Some(apiKey), g1, parse)
         == Analyze(Request(Some(imageData), Some(mimeType)), Some(apiKey), g2, parse)
  {
  }

  /** A data URL with nothing after its comma passes the input guard, and the
      model is then asked about an empty payload. */
  lemma EmptyPayloadReachesModel(mediaType: string, mimeType: string, apiKey: string, generate: Model, parse: Decoder, text: string)
    requires ',' !in mediaType && mimeType != "" && apiKey != ""
    requires generate(apiKey, "", mimeType) == Text(text)
    ensures Analyze(Request(Some("data:" + mediaType + ";base64,"), Some(mimeType)), Some(apiKey), generate, parse)
         == Ok(Normalise(text, parse))
  {
    StripDataUrl(mediaType, "");
    assert "data:" + mediaType + ";base64," + "" == "data:" + mediaType + ";base64,";
  }

  /** Whatever text the model returns, the handler answers 200 with the
      normalised record; bad output never becomes an error status. */
  lemma ModelTextNeverAnError(imageData: string, mimeType: string, apiKey: string, generate: Model, parse: Decoder, text: string)
    requires imageData != "" && mimeType != "" && apiKey != ""
    requires generate(apiKey, StripPrefix(imageData), mimeType) == Text(text)
    ensures Analyze(Request(Some(imageData), Some(mimeType)), Some(apiKey), generate, parse) == Ok(Normalise(text, parse))
  {
  }

  /** A failure reading or destructuring the body is a 500 carrying the
      error's message, or the generic message when that is empty. */
  lemma UnreadableBodyIs500(message: string, apiKey: Option<string>, generate: Model, parse: Decoder)
    ensures Analyze(Unreadable(message), apiKey, generate, parse)
         == Err(500, if message == "" then AnalysisFailed else message)
  {
  }

  /** A failing model call is a 500 carrying the error's message, or the
      generic message when that is empty. */
  lemma ModelFailureIs500(imageData: string, mimeType: string, apiKey: string, generate: Model, parse: Decoder, message: string)
    requires imageData != "" && mimeType != "" && apiKey != ""
    requires generate(apiKey, StripPrefix(imageData), mimeType) == Failure(message)
    ensures Analyze(Request(Some(imageData), Some(mimeType)), Some(apiKey), generate, parse)
         == Err(500, if message == "" then AnalysisFailed else message)
  {
  }

  /** A decoded record that passes the four-field check is returned as
      decoded, extra members included. */
  lemma ValidRecordUnchanged(text: string, parse: Decoder)
    ensures parse(JsonText(text)).Some? && HasRequired(parse(JsonText(text)).value) ==>
      Normalise(text, parse) == parse(JsonText(text)).value
  {
  }

  /** A decode failure, or a decoded value missing a required member or
      holding a falsy one, yields the fallback record echoing the raw text. */
  lemma InvalidOutputFallsBack(text: string, parse: Decoder)
    ensures parse(JsonText(text)).None? || !HasRequired(parse(JsonText(text)).value) ==>
      && Normalise(text, parse) == Fallback(text)
      && Member(Normalise(text, parse), SummaryKey) == Some(JString(text))
      && Member(Normalise(text, parse), DeadlineKey) == Some(JString(NoDeadline))
      && Member(Normalise(text, parse), ActionKey) == Some(JString(ReviewAction))
      && Member(Normalise(text, parse), ReassuranceKey) == Some(JString(CalmMessage))
  {
  }

  /** The decoder only ever sees the trimmed fence body of the model text. */
  lemma DecoderSeesTrimmedBody(text: string, p1: Decoder, p2: Decoder)
    ensures p1(JsonText(text)) == p2(JsonText(text)) ==> Normalise(text, p1) == Normalise(text, p2)
  {
  }

  /** Every 200 body is an object with all four members; `action_required`,
      `deadline` and `reassurance` are truthy, and `summary` is falsy only in
      the fallback for an empty model text. */
  lemma SuccessBodyInvariant(request: Request, apiKey: Option<string>, generate: Model, parse: Decoder)
    ensures var r := Analyze(request, apiKey, generate, parse);
      r.Ok? ==>
        && r.body.JObject?
        && SummaryKey in r.body.members && ActionKey in r.body.members
        && DeadlineKey in r.body.members && ReassuranceKey in r.body.members
        && TruthyMember(r.body, ActionKey) && TruthyMember(r.body, DeadlineKey)
        && TruthyMember(r.body, ReassuranceKey)
        && (!TruthyMember(r.body, SummaryKey) ==> r.body == Fallback(""))
  {
    var r := Analyze(request, apiKey, generate, parse);
    if r.Ok? {
      var text := generate(apiKey.value, StripPrefix(request.imageData.value), request.mimeType.value).text;
      assert r.body == Normalise(text, parse);
      if !TruthyMember(r.body, SummaryKey) {
        assert r.body == Fallback(text);
        assert Member(r.body, SummaryKey) == Some(JString(text));
      }
    }
  }
}
