# TuneResumeAI — a verified model of its request client, upload validation and wizard state machine

TuneResumeAI takes a résumé as a PDF and a job description, sends both to
a generative model (Gemini) and shows the HTML it returns. The rewriting
itself happens in the remote model. This project models, in Dafny, the
sequential logic around that call:

- **the request client** (`services/geminiService.ts`, module `GeminiService`).
  It strips the data-URL prefix from the encoded PDF. It turns the
  backend's reply into an HTML string: missing or empty text is an error;
  anything else is trimmed, then a leading ```` ```html ```` (checked first)
  or ```` ``` ```` is removed, and after it one trailing ```` ``` ```` if
  what is left ends with one. The
  backend is a function parameter `Request -> BackendReply`.
- **the upload component** (`components/FileUpload.tsx`, module `FileUpload`).
  It checks the MIME type and routes the drop and the file picker through
  the same `processFile`. The highlight flag `isDragging` lives in the
  class `DropZone`. The browser's FileReader is a function parameter
  `read: File -> Option<string>`: the data URL it loads, or `None` for a
  read that never loads (then neither `onFileSelect` nor `alert` runs).
- **the application component** (`App.tsx`, module `AppMachine`).
  It has five state fields and the handlers `handleFileSelect`,
  `handleTune` and `resetApp`. `handleTune` is split at its `await` into
  `BeginTune` and `CompleteTune`. The module also holds the submit button's
  enabling rule and the choice between the input page and the results
  page. Each handler is a transition function on the value `AppState`.
  The class `App` keeps the same state in fields, and its methods are
  proved to perform exactly those transitions.
- **sessions** (module `Session`): sequences of user events and backend
  replies, restricted to what the page offers at each moment. Over any
  such sequence at most one request is in flight, and it is in flight
  exactly while the status is LOADING.
- the ECMAScript string operations the code relies on (module `JsString`):
  `trim` with its exact white-space set, `split` (with `join` as its
  inverse, and a first-occurrence helper `IndexOf` used to define it),
  `startsWith`, and `EndsWith`, which models the anchored
  `replace(/```$/, '')`.

`types.ts` becomes module `Types`: `ResumeState` (three optional parts) and
`AppStatus` (IDLE, LOADING, SUCCESS, ERROR). The module also holds `File`,
the browser's DOM `File` reduced to its name, its type and its bytes, and
the constant `PdfMimeType` shared by the upload check and the request.

Three behaviours of the code deserve stating on their own:
- The prefix strip keeps only the segment between the first and the
  second comma, and falls back to the whole input when that segment is
  empty (`StripDataUrlPrefixShape`).
- The submit button tests the file (`App.tsx:125`), while the handler
  tests the encoded content (`App.tsx:24`). The model keeps both, and
  `ButtonVersusGuard` relates them. They differ only for an empty encoded
  string, which a real FileReader never produces (its data URL always
  starts with `data:`); the gap shows only because `read` is left
  unconstrained here.
- Reply text that is non-empty but only white space is accepted and
  yields the empty string (`WhiteSpaceOnlyYieldsEmpty`,
  `BlankReplyShowsEmptyResult`).

## Model

| member | source | states |
|---|---|---|
| JsString.Trim | services/geminiService.ts:76 | `trim` result is empty exactly when the input is all white space; otherwise it starts and ends with non-white space; it is never longer than the input |
| JsString.TrimIsInfix | services/geminiService.ts:76 | what `trim` removes on each side is white space, and the rest is a contiguous slice of the input |
| JsString.TrimIdempotent | services/geminiService.ts:76 | trimming twice equals trimming once |
| JsString.Split | services/geminiService.ts:48 | `split(',')`: at least one piece; exactly one piece iff there is no separator; no piece contains the separator; joining the pieces with the separator gives back the input |
| JsString.SplitHead | services/geminiService.ts:48 | the first piece is the longest prefix that contains no separator |
| GeminiService.StripDataUrlPrefix | services/geminiService.ts:48 | the result is the input itself or a non-empty comma-free string, never longer; the exact rule is `StripDataUrlPrefixShape` |
| GeminiService.DropTrailingFence | services/geminiService.ts:78 | the result is a prefix of the input, shorter by nothing or by one fence; exactly when is `DropTrailingFenceShape` |
| GeminiService.StripFences | services/geminiService.ts:77-81 | never longer than its input, and the identity on text not starting with a fence; the full rule is `StripFencesShape` |
| GeminiService.BuildRequest | services/geminiService.ts:47-58 | the attachment is declared application/pdf, the job description is passed on, and comma-free input is sent as it is; the data-URL case is `RequestCarriesPdfPayload` |
| GeminiService.StripWithoutComma | services/geminiService.ts:48 | input with no comma is returned unchanged |
| GeminiService.StripDataUrlPrefixShape | services/geminiService.ts:48 | exact strip rule: no comma gives the input; an empty segment after the first comma gives the whole input; otherwise the result is that segment, which is non-empty, has no comma, starts right after the first comma and runs to the next comma or the end |
| GeminiService.StripKeepsInputOnEmptySegment | services/geminiService.ts:48 | if nothing lies between the first comma and the next comma or the end, the `||` fallback returns the whole input |
| GeminiService.StripAfterHeader | services/geminiService.ts:47-48 | for `header + "," + payload`, with both parts comma-free and the payload non-empty, the strip returns exactly the payload |
| GeminiService.RequestCarriesPdfPayload | services/geminiService.ts:47-55 | for `"data:application/pdf;base64," + p` with `p` non-empty base64, the request's inline part has type application/pdf and data exactly `p` |
| GeminiService.EmptyPayloadKeepsDataUrl | services/geminiService.ts:48 | an empty PDF's data URL has nothing after its comma, so the whole data URL is sent as the payload |
| GeminiService.InterpretText | services/geminiService.ts:74-85 | fails iff the text is missing or empty, always with "No text response generated from Gemini."; a success is never longer than the text |
| GeminiService.InterpretReply | services/geminiService.ts:87-90 | a thrown backend error is passed on unchanged; a response is interpreted by its text |
| GeminiService.TuneResume | services/geminiService.ts:38-91 | one backend call on the built request; a failing call gives back its error unchanged; a response gives exactly `InterpretText` of its text, whose full rule is `CleanupShape` |
| GeminiService.DropTrailingFenceShape | services/geminiService.ts:78 | `replace(/```$/, '')` removes one fence at the very end if there is one, and otherwise nothing |
| GeminiService.NoTextFails | services/geminiService.ts:83-84 | missing text and empty text both fail with the fixed message |
| GeminiService.WhiteSpaceOnlyYieldsEmpty | services/geminiService.ts:74-82 | non-empty white-space-only text succeeds with the empty string |
| GeminiService.CleanTextUnchanged | services/geminiService.ts:76-82 | already-trimmed text without a leading fence is returned unchanged (the cleanup is the identity on clean text) |
| GeminiService.StripFencesShape | services/geminiService.ts:77-81 | the ```` ```html ```` opening wins over ```` ``` ````; the opening is removed, plus one trailing fence iff the rest ends with one; unfenced text is kept; the result is never longer |
| GeminiService.CleanupShape | services/geminiService.ts:74-82 | non-empty text always succeeds, and the result relates to the trimmed text as the fence rule says |
| GeminiService.HtmlFenceTakesPrecedence | services/geminiService.ts:77-80 | an example only (the general precedence rule is `StripFencesShape`): ```` ```html<p>x</p>``` ```` becomes `<p>x</p>` |
| GeminiService.StripFencesNotIdempotent | services/geminiService.ts:77-81 | applied twice to ```` ```html```html ````, the cleanup removes more than applied once: it is the identity only on clean text |
| FileUpload.ProcessFile | components/FileUpload.tsx:21-32 | alerts iff the type is not exactly application/pdf; hands on the same file with the loaded data URL iff it is a PDF and the read loads; a PDF whose read never loads produces neither |
| FileUpload.HandleInputChange | components/FileUpload.tsx:42-46 | a missing or empty list does nothing; otherwise the first file goes through `processFile` |
| FileUpload.OnlyFirstFileCounts | components/FileUpload.tsx:43-44 | lists with the same first file give the same outcome |
| FileUpload.NonPdfNeverSelected | components/FileUpload.tsx:29-31 | a non-PDF first file ends in the alert and never reaches `onFileSelect` |
| FileUpload.DropZone.constructor | components/FileUpload.tsx:9 | not dragging initially |
| FileUpload.DropZone.HandleDragOver | components/FileUpload.tsx:12-15 | sets `isDragging` |
| FileUpload.DropZone.HandleDragLeave | components/FileUpload.tsx:17-19 | clears `isDragging` |
| FileUpload.DropZone.HandleDrop | components/FileUpload.tsx:34-40 | clears `isDragging`, and its outcome equals the file picker's for the same list (identical validation on both paths) |
| AppMachine.Initial | App.tsx:8-12 | the initial state is IDLE with no résumé and empty description, result and error message, on the input page, with submit disabled and the guard failing |
| AppMachine.TuneGuard | App.tsx:24 | passes iff the base64 is present and non-empty and the description is not all white space |
| AppMachine.SubmitEnabled | App.tsx:125 | enabled iff not LOADING, a file is present and the description is not all white space; `NoSubmitWhileLoading` and `ButtonVersusGuard` build on it |
| AppMachine.FileSelected | App.tsx:14-21 | the résumé becomes (file, base64, file.name), the error message is cleared, and status, description and result are unchanged |
| AppMachine.DescriptionEdited | App.tsx:100 | only the job description changes |
| AppMachine.TuneBegun | App.tsx:23-30 | a failing guard only sets the fixed validation message; a passing one gives LOADING with the message cleared; résumé, description and result are unchanged |
| AppMachine.TuneCallOf | App.tsx:24-33 | the backend is called iff the guard passes, with the stored base64 and the description |
| AppMachine.TuneCompleted | App.tsx:32-40 | success stores the HTML and gives SUCCESS; failure gives ERROR with the fixed generic message and keeps the previous result |
| AppMachine.Reset | App.tsx:43-49 | from any state, the very initial state: IDLE, all-absent résumé, and empty description, result and error message |
| AppMachine.PageOf | App.tsx:73-74 | the results page is shown iff the status is SUCCESS |
| AppMachine.NoSubmitWhileLoading | App.tsx:125 | the button is disabled while LOADING |
| AppMachine.ButtonVersusGuard | App.tsx:125 | the button (line 125) and the handler's guard (line 24) agree when the file and base64 are present together, except that an empty base64 enables the button but fails the guard |
| AppMachine.TransitionsKeepResumeConsistent | App.tsx:14-49 | every handler keeps file and base64 present or absent together, with the name taken from the file |
| AppMachine.App.constructor | App.tsx:8-12 | the initial state |
| AppMachine.App.HandleFileSelect | App.tsx:14-21 | performs `FileSelected` on the fields |
| AppMachine.App.SetJobDescription | App.tsx:100 | performs `DescriptionEdited` on the fields |
| AppMachine.App.BeginTune | App.tsx:23-30 | performs `TuneBegun` and returns the call `TuneCallOf` names |
| AppMachine.App.CompleteTune | App.tsx:32-40 | performs `TuneCompleted` with the request client's outcome |
| AppMachine.App.HandleTune | App.tsx:23-41 | the whole handler: begin, then, only if the guard passed, complete with the request client's result for the stored inputs |
| AppMachine.App.ResetApp | App.tsx:43-49 | performs `Reset` on the fields |
| Session.Offered | App.tsx:73-125 | the upload zone (line 85), the text area (line 100) and the button (lines 123-125) exist only off the results page, the button only when not LOADING and a file is present; "Start Over" only on the results page (line 74) |
| Session.Next | App.tsx:14-49 | submit adds one request in flight iff the handler's guard passes; a reply removes one; other events leave the count alone; uploads and edits keep status and result; "Start Over" gives the initial state; the invariant it keeps is `StepKeepsInv` |
| Session.StepKeepsInv | App.tsx:14-49 | each event the page offers keeps at most one request in flight, keeps it in flight exactly while LOADING, and keeps the résumé consistent |
| Session.RunKeepsInv | App.tsx:14-49 | the invariant holds after any feasible sequence of events |
| Session.AtMostOneRequestInFlight | App.tsx:125 | from a fresh page, at most one request is ever in flight, and one is in flight exactly while LOADING |
| Session.RejectedUploadChangesNothing | components/FileUpload.tsx:21-32 | uploading a non-PDF leaves the application's state unchanged |
| Session.ReplyEndsLoading | App.tsx:32-40 | a reply to the request in flight leaves none in flight and ends in exactly one of SUCCESS (interpreted reply is a success) and ERROR |
| Session.RetryAfterError | App.tsx:23-33 | after ERROR with unchanged valid inputs, submit is offered again and issues a new request |
| Session.UnloadedReadChangesNothing | components/FileUpload.tsx:23-28 | a PDF whose read never loads produces no outcome for the application and leaves its state unchanged |
| Session.SubmitReachesLoading | App.tsx:23-30 | the invariant is not vacuous: uploading a loadable PDF, typing a description and submitting is a feasible run from a fresh page that reaches LOADING with one request in flight |
| Session.BlankReplyShowsEmptyResult | services/geminiService.ts:74-82 | a white-space-only reply gives SUCCESS with an empty result, shown on the results page |

## Left out

- Of `components/ResultsView.tsx` only the "Start Over" button (lines 60-65, calling `onReset`, which is `resetApp` per `App.tsx:74`) is modelled, as `Session.ClickStartOver`, offered only on the results page. The rest calls the foreign `html2pdf` global on a DOM element, toggles a busy flag around that promise, and inserts the HTML verbatim; none of that is modelled.
- The GoogleGenAI client, the model name and the API key from the process environment. The backend is a parameter `backend: Request -> BackendReply`. `TuneResume` sends the request once, with no retry.
- The system instruction and the prompt template. They are constant strings. `Request` keeps only the job description that the prompt embeds.
- The FileReader. The data URL it produces is the parameter `read`, with `None` for a read that never loads; why a read fails is not modelled. Its asynchrony is also left out: an `Upload` event stands for a read that has finished or failed. `read` is one fixed function for a whole session, so reading a given file is treated as deterministic: a file whose read failed once fails on every later upload.
- `alert`: it is modelled as the `Rejected` outcome carrying the alert's message.
- `console.error` logging.
- Interleaving at the `await` in `handleTune`. `App.HandleTune` runs the handler to completion. `BeginTune` and `CompleteTune` are separate methods, so a caller can interleave other handlers between them. `CompleteTune` then updates the fields unconditionally, as the code does. In `Session`, "Start Over" is offered only on the results page, so a reset while LOADING cannot happen there.
- JSX markup and styling, including the drop zone's highlight classes and the button's loading label, and the DOM's `e.preventDefault()` calls in `handleDragOver` and `handleDrop` (`components/FileUpload.tsx:13`, `:35`). The unused `TuningResult` type is also left out.
- Object identity of `File`: a file is a value, so "the same file object" is value equality.
- JavaScript strings are UTF-16 code-unit sequences; here they are sequences of Unicode scalar values. Every character that `trim` removes, and the comma, is a single code unit, so the operations modelled agree.
