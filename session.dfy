/**
 * A session of the running application as a sequence of user events and
 * backend replies. An event can only happen when the page offers it: the
 * upload zone, the text area and the submit button live on the input page
 * (the button only while enabled), the "Start Over" button lives on the
 * results page, and a reply arrives only for a request in flight. Over any
 * such sequence at most one request is in flight, and it is in flight
 * exactly while the status is LOADING.
 */
module Session {
  import opened Wrappers
  import opened Types
  import opened JsString
  import opened AppMachine
  import FileUpload
  import GeminiService

  datatype Event =
    | Upload(files: Option<seq<File>>)       // picker or drop: the two route alike
    | EditDescription(text: string)
    | ClickTune
    | Reply(reply: GeminiService.BackendReply)
    | ClickStartOver

  /** The application's state and the number of backend requests not yet answered. */
  datatype Config = Config(app: AppState, inFlight: nat)

  const Start := Config(Initial(), 0)

  /** Whether the page currently offers the event. */
  predicate Offered(c: Config, e: Event)
    ensures Offered(c, e) && (e.Upload? || e.EditDescription? || e.ClickTune?) ==> c.app.status != Success
    ensures Offered(c, e) && e.ClickTune? ==> c.app.status != Loading && c.app.resumeData.file.Some?
    ensures Offered(c, e) && e.ClickStartOver? ==> c.app.status == Success
  {
    match e
    case Upload(_) => PageOf(c.app) == InputPage
    case EditDescription(_) => PageOf(c.app) == InputPage
    case ClickTune => PageOf(c.app) == InputPage && SubmitEnabled(c.app)
    case Reply(_) => c.inFlight > 0
    case ClickStartOver => PageOf(c.app) == ResultsPage
  }

  /** The effect of one event; `read` is the FileReader. */
  function Next(c: Config, e: Event, read: File -> Option<string>): (d: Config)
    ensures e.ClickTune? ==> d.inFlight == c.inFlight + (if TuneGuard(c.app) then 1 else 0)
    ensures e.Reply? && c.inFlight > 0 ==> d.inFlight == c.inFlight - 1
    ensures !e.ClickTune? && !e.Reply? ==> d.inFlight == c.inFlight
    ensures e.Upload? || e.EditDescription? ==> d.app.status == c.app.status && d.app.result == c.app.result
    ensures e.ClickStartOver? ==> d.app == Initial()
  {
    match e
    case Upload(files) =>
      (match FileUpload.HandleInputChange(files, read)
       case Some(Selected(file, dataUrl)) => c.(app := FileSelected(c.app, file, dataUrl))
       case _ => c)
    case EditDescription(text) => c.(app := DescriptionEdited(c.app, text))
    case ClickTune =>
      Config(TuneBegun(c.app), c.inFlight + if TuneGuard(c.app) then 1 else 0)
    case Reply(reply) =>
      Config(TuneCompleted(c.app, GeminiService.InterpretReply(reply)), if c.inFlight > 0 then c.inFlight - 1 else 0)
    case ClickStartOver => c.(app := Reset(c.app))
  }

  /** Every event of the sequence is offered when it happens. */
  predicate Feasible(c: Config, es: seq<Event>, read: File -> Option<string>)
    decreases |es|
  {
    es == [] || (Offered(c, es[0]) && Feasible(Next(c, es[0], read), es[1..], read))
  }

  function Run(c: Config, es: seq<Event>, read: File -> Option<string>): Config
    decreases |es|
  {
    if es == [] then c else Run(Next(c, es[0], read), es[1..], read)
  }

  /** At most one request in flight, in flight exactly while LOADING, and the résumé parts consistent. */
  predicate Inv(c: Config)
  {
    c.inFlight <= 1 && (c.inFlight == 1 <==> c.app.status == Loading) && ResumeConsistent(c.app)
  }

  lemma StepKeepsInv(c: Config, e: Event, read: File -> Option<string>)
    requires Inv(c) && Offered(c, e)
    ensures Inv(Next(c, e, read))
  {
    match e
    case Upload(files) =>
    case EditDescription(text) =>
    case ClickTune =>
    case Reply(reply) =>
    case ClickStartOver =>
  }

  lemma {:induction false} RunKeepsInv(c: Config, es: seq<Event>, read: File -> Option<string>)
    requires Inv(c) && Feasible(c, es, read)
    ensures Inv(Run(c, es, read))
    decreases |es|
  {
    if es != [] {
      StepKeepsInv(c, es[0], read);
      RunKeepsInv(Next(c, es[0], read), es[1..], read);
    }
  }

  /** From a fresh page, whatever the user does and the backend answers, at most one request is ever in flight. */
  lemma AtMostOneRequestInFlight(es: seq<Event>, read: File -> Option<string>)
    requires Feasible(Start, es, read)
    ensures Run(Start, es, read).inFlight <= 1
    ensures Run(Start, es, read).inFlight == 1 <==> Run(Start, es, read).app.status == Loading
  {
    RunKeepsInv(Start, es, read);
  }

  /** A file that is not a PDF leaves the application's state as it was. */
  lemma RejectedUploadChangesNothing(c: Config, files: seq<File>, read: File -> Option<string>)
    requires files != [] && files[0].mimeType != PdfMimeType
    ensures Next(c, Upload(Some(files)), read) == c
  {
  }

  /** A reply to the request in flight ends LOADING in exactly one of SUCCESS and ERROR. */
  lemma ReplyEndsLoading(c: Config, reply: GeminiService.BackendReply, read: File -> Option<string>)
    requires Inv(c) && Offered(c, Reply(reply))
    ensures var d := Next(c, Reply(reply), read);
      d.inFlight == 0
      && (d.app.status == Success <==> GeminiService.InterpretReply(reply).Ok?)
      && (d.app.status == Error <==> GeminiService.InterpretReply(reply).Err?)
  {
  }

  /** After a failure, submitting again with unchanged inputs issues a new request: failed attempts are not remembered. */
  lemma RetryAfterError(c: Config, read: File -> Option<string>)
    requires Inv(c) && c.app.status == Error && TuneGuard(c.app)
    ensures Offered(c, ClickTune)
    ensures Next(c, ClickTune, read).inFlight == 1
    ensures Next(c, ClickTune, read).app.status == Loading
  {
  }

  /** A reply whose text is non-empty white space is a success, and the results page shows an empty résumé. */
  lemma BlankReplyShowsEmptyResult(c: Config, text: string, read: File -> Option<string>)
    requires Inv(c) && Offered(c, Reply(GeminiService.Replied(Some(text))))
    requires text != [] && AllWhiteSpace(text)
    ensures Next(c, Reply(GeminiService.Replied(Some(text))), read).app == c.app.(status := Success, result := "")
    ensures PageOf(Next(c, Reply(GeminiService.Replied(Some(text))), read).app) == ResultsPage
  {
    GeminiService.WhiteSpaceOnlyYieldsEmpty(text);
  }

  /** A PDF whose read never loads reaches neither the application nor the alert: nothing changes. */
  lemma UnloadedReadChangesNothing(c: Config, files: seq<File>, read: File -> Option<string>)
    requires files != [] && files[0].mimeType == PdfMimeType && read(files[0]).None?
    ensures FileUpload.HandleInputChange(Some(files), read) == Some(FileUpload.NotLoaded)
    ensures Next(c, Upload(Some(files)), read) == c
  {
  }

  /**
   * The invariant is not vacuous: from a fresh page, uploading a PDF whose
   * read loads, typing a description and submitting is a feasible run that
   * reaches LOADING with one request in flight.
   */
  lemma SubmitReachesLoading(file: File, read: File -> Option<string>)
    requires file.mimeType == PdfMimeType && read(file).Some? && read(file).value != ""
    ensures var es := [Upload(Some([file])), EditDescription("Go"), ClickTune];
      Feasible(Start, es, read)
      && Run(Start, es, read).app.status == Loading
      && Run(Start, es, read).inFlight == 1
  {
    var es := [Upload(Some([file])), EditDescription("Go"), ClickTune];
    var c1 := Next(Start, es[0], read);
    var c2 := Next(c1, es[1], read);
    var go := "Go";
    assert go[0] == 'G' && !IsWhiteSpace(go[0]);
    assert !AllWhiteSpace(go);
    assert TuneGuard(c2.app) && SubmitEnabled(c2.app);
    assert es[1..][1..] == [ClickTune];
    assert Feasible(c2, [ClickTune], read);
    assert Feasible(c1, es[1..], read);
    assert Run(c2, [ClickTune], read) == Next(c2, ClickTune, read);
  }
}
