# bureaucracy-buster: the analysis handler, in Dafny

The application sends a photographed document to a hosted multimodal model
and shows a four-field explanation: `summary`, `action_required`, `deadline`
and `reassurance`. All of its own logic that is not UI sits in the `POST`
handler of `app/api/analyze/route.ts`. This project models that handler as
one total, pure function, `Analysis.Analyze`. The function maps the request
body, the server's API key, the model and the JSON decoder to a response.
The model and the decoder are function-typed inputs.

The handler's steps, one module each:

- `Analysis.Analyze` holds the request guards. Missing or empty `imageData`
  or `mimeType` gives 400. A missing or empty API key gives 500. Both checks
  come before the model call.
- `DataUrl.StripPrefix` strips the data-URL prefix. It is modelled exactly
  as written, `includes(',') ? split(',')[1] : s`. `DataUrl.Split` is
  JavaScript's `split` for a one-character separator.
- `Fence.FenceBody` and `Fence.JsonText` extract the markdown fence. The
  regex `/```json\s*([\s\S]*?)\s*```/` is tried first, then
  `/```\s*([\s\S]*?)\s*```/`, and otherwise the whole text is used. The
  result is then trimmed (`Text.Trim`).
- `Fence.IsMatch` says which spans a regex of that shape can match.
  `Fence.Prefers` is the order in which a backtracking engine tries them.
  `Fence.FindFence` is a direct scanner, proved to return the first span in
  that order, or nothing exactly when no span matches.
- `Analysis.HasRequired` is the four-field check. It uses JavaScript
  truthiness on the decoded value (`Json.Truthy`, `Json.Member`).
- `Analysis.Fallback` and `Analysis.Normalise` build the fixed fallback
  record. It echoes the raw model text as `summary` and uses the deadline
  `"None"`.
- `Analysis.ErrorMessage` maps errors: `error.message` or
  `"Failed to analyze document"`, with status 500.

`Render.Emphasised` is the page's one decision about the data: the deadline
panel is highlighted unless the deadline lower-cases to `"none"`.

Two consequences of the code's order and tests:

- Missing input is reported as 400 even when the API key is also missing.
- Validation tests JavaScript truthiness. An empty string or 0 fails. A
  truthy non-string such as `"deadline": 5` passes and is returned
  unchanged, so a 200 body can hold non-string fields.

Whitespace is modelled exactly. JavaScript's `\s` and `String.prototype.trim`
use the same set, the WhiteSpace and LineTerminator code points, and
`Text.IsWs` lists them by code point.

## Model

| member | source | states |
|---|---|---|
| Analysis.Analyze | app/api/analyze/route.ts:4-97 | every error is 400 or 500 with a non-empty message; 400 exactly when the body was read and `imageData` or `mimeType` is missing or empty; 200 exactly when the inputs and the key are present and the model, given the key, the stripped payload and the media type, returns text |
| Analysis.GuardsPrecedeModel | app/api/analyze/route.ts:8-21 | missing input yields 400 "Missing imageData or mimeType" whatever the key; present input without a key yields 500 "API key not configured"; in both cases the response does not depend on the model |
| Analysis.ModelSeesStrippedPayload | app/api/analyze/route.ts:51-59 | the model only ever sees the key, the stripped payload and the media type: two models agreeing there give the same response |
| Analysis.EmptyPayloadReachesModel | app/api/analyze/route.ts:8-29 | a data URL `data:<type>;base64,` with nothing after the comma passes the input guard and the model is asked about the empty payload |
| Analysis.ModelTextNeverAnError | app/api/analyze/route.ts:61-89 | any text from the model, however malformed, yields a 200 response with the normalised record |
| Analysis.UnreadableBodyIs500 | app/api/analyze/route.ts:90-95 | a body that cannot be read or destructured yields 500 with its error message, or "Failed to analyze document" when the message is empty |
| Analysis.ModelFailureIs500 | app/api/analyze/route.ts:90-95 | a failing model call yields 500 with its error message, or "Failed to analyze document" when the message is empty |
| Analysis.ErrorMessage | app/api/analyze/route.ts:93 | the error text is never empty and is the error's own message whenever that is non-empty |
| Analysis.Fallback | app/api/analyze/route.ts:81-86 | the fallback record has exactly the four keys, echoes the text as `summary`, has deadline "None", and its other three members are truthy |
| Analysis.HasRequired | app/api/analyze/route.ts:74-77 | a value passes the four-field check only if it is an object holding all of `summary`, `action_required`, `deadline` and `reassurance` |
| Analysis.Normalise | app/api/analyze/route.ts:66-89 | the result either passes the four-field check or is the fallback record, and unless it is the fallback it is exactly what the decoder returned |
| Analysis.ValidRecordUnchanged | app/api/analyze/route.ts:74-89 | a decoded value that passes the check is returned as decoded, extra members included |
| Analysis.InvalidOutputFallsBack | app/api/analyze/route.ts:78-87 | a decode failure, or a decoded value with a missing or falsy required member, yields the fallback: raw text as summary, "Review the document carefully", "None", and the calm message |
| Analysis.DecoderSeesTrimmedBody | app/api/analyze/route.ts:68-71 | the decoder is consulted only on the trimmed fence body: decoders agreeing there give the same record |
| Analysis.SuccessBodyInvariant | app/api/analyze/route.ts:74-89 | every 200 body is an object with all four keys; `action_required`, `deadline` and `reassurance` are truthy; `summary` is falsy only in the fallback for an empty model text |
| DataUrl.StripPrefix | app/api/analyze/route.ts:27-29 | input without a comma is unchanged; otherwise the result is the comma-free prefix of the text after the first comma, running to the next comma or the end |
| DataUrl.StripPrefixIdempotent | app/api/analyze/route.ts:27-29 | the stripped payload never contains a comma, so stripping twice equals stripping once |
| DataUrl.StripDataUrl | app/api/analyze/route.ts:27-29 | `data:<type>;base64,<payload>` with comma-free type and payload strips to the payload, so `data:...;base64,` gives the empty payload |
| DataUrl.Split | app/api/analyze/route.ts:28 | a split has at least one piece, and at least two when the separator occurs, so `split(',')[1]` exists whenever `includes(',')` holds |
| DataUrl.SplitJoin | app/api/analyze/route.ts:28 | joining the pieces of a split with the separator gives back the input |
| DataUrl.SplitPiecesSepFree | app/api/analyze/route.ts:28 | no piece of a split contains the separator |
| DataUrl.JoinSplit | app/api/analyze/route.ts:28 | splitting a join of separator-free pieces gives back the pieces |
| DataUrl.SplitAtFirst | app/api/analyze/route.ts:28 | the first piece is the text before the first separator, and the rest is the split of the text after it |
| Fence.FindFence | app/api/analyze/route.ts:68-69 | a span the scanner returns is one the regex admits |
| Fence.FindFencePreferred | app/api/analyze/route.ts:68-69 | whenever the regex admits a span, the scanner returns a span a backtracking engine tries no later: leftmost opening, longest leading whitespace, shortest lazy group, longest trailing whitespace |
| Fence.FindFenceComplete | app/api/analyze/route.ts:68-69 | the scanner finds nothing exactly when the regex admits no span |
| Fence.FindFenceIsRegexResult | app/api/analyze/route.ts:68-69 | the span `match` returns is unique and is the scanner's |
| Fence.CaptureLazy | app/api/analyze/route.ts:68-69 | no closing fence starts anywhere from the group's start up to the match's closing fence, so the match closes at the first fence after the opening marker |
| Fence.FenceBody | app/api/analyze/route.ts:68-70 | the body is the whole text or the group of a match of the `json` regex or of the bare regex |
| Fence.JsonText | app/api/analyze/route.ts:68-71 | the decoder's input is no longer than the model text and neither starts nor ends with whitespace |
| Fence.JsonFenceFirst | app/api/analyze/route.ts:68-70 | when the `json` regex matches, its group is used, wherever bare fences appear |
| Fence.BareFenceSecond | app/api/analyze/route.ts:68-70 | when the `json` regex cannot match, the bare regex's group is used |
| Fence.NoFenceWholeText | app/api/analyze/route.ts:68-70 | when neither regex matches, the whole text is used |
| Fence.ExampleBareCapture | app/api/analyze/route.ts:69 | on a text with a bare fence before a `json` fence, the bare regex alone would capture the earlier body |
| Fence.ExampleJsonFenceWins | app/api/analyze/route.ts:68-70 | on that text the handler uses the later `json` fence's body |
| Text.Trim | app/api/analyze/route.ts:71 | the result neither starts nor ends with whitespace and is the input with only whitespace removed from each end |
| Render.Emphasised | app/page.tsx:233 | a deadline that is not exactly four characters long is always emphasised |
| Render.EmphasisedIffNotNone | app/page.tsx:233 | the deadline is not emphasised exactly when it is the four letters n, o, n, e in any case |
| Render.FallbackDeadlineNotEmphasised | app/page.tsx:233 | the fallback deadline "None" is never emphasised; a dated deadline is |

## Left out

- The `@google/generative-ai` client (app/api/analyze/route.ts:23-24, 51-62) is an outside service. It becomes the `Analysis.Model` input, a function from key, payload and media type to text or an error message. The model name is not modelled.
- `JSON.parse` (app/api/analyze/route.ts:71) is a library parser. It becomes the `Analysis.Decoder` input, which returns `None` where the parser throws. A `null` result is treated like a non-object. That matches the code: looking up a member of `null` throws into the same fallback.
- The prompt text (app/api/analyze/route.ts:32-49) is a constant with no behaviour.
- `console.error` logging and the `NextRequest`/`NextResponse` plumbing are left out. `Analysis.Response` stands in for them. Member order in the serialised body is not modelled.
- `request.json()` becomes the `Analysis.Request` input. A body that throws when read or destructured is `Unreadable` with its message. Request fields are strings or absent; non-string request values (numbers, booleans, arrays, objects) are not modelled.
- `process.env.GEMINI_API_KEY` is read from the environment. Here it is an `Option<string>` input.
- Strings are sequences of Unicode scalar values, not UTF-16 code units. No comma, backtick or whitespace character lies outside the Basic Multilingual Plane, so the modelled steps behave the same.
- JSON numbers are finite reals. A number literal too large for a double, which `JSON.parse` turns into Infinity, has no counterpart in `Json.Value`.
- Analysis.SuccessBodyInvariant: holds of the value before `NextResponse.json` serialises it. `JSON.stringify` writes an Infinity member as `null`, so a decoded `"deadline": 1e999` passes the truthiness check and is sent as a falsy `null`. The serialisation step is not modelled.
- Render.ToLower: lower-cases ASCII capitals only, unlike `toLowerCase`. It is used only in the comparison with `"none"`. No other character lower-cases to one of its letters, so that comparison is unaffected.
- The rest of app/page.tsx is left out: camera capture, file reading, `fetch`, speech, layout and state setters. These are UI and browser services, not handler logic.
