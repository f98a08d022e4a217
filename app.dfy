/**
 * The application component: five pieces of state, the handlers that
 * change them, the enabling rule of the submit button and the choice of
 * page. Each handler is specified by a transition function on `AppState`;
 * the class `App` holds the state in fields and its methods are proved to
 * perform those transitions. `handleTune` is split at its `await` into
 * `BeginTune` and `CompleteTune`.
 */
module AppMachine {
  import opened Wrappers
  import opened JsString
  import opened Types
  import GeminiService

  const ValidationMessage := "Please upload a resume and enter a job description."
  const FailureMessage := "Failed to tune resume. Please try again. Ensure your PDF is text-readable."

  datatype AppState = AppState(
    status: AppStatus,
    resumeData: ResumeState,
    jobDescription: string,
    result: string,
    errorMsg: string)

  /** The two pages: the input form, or the tuned résumé. */
  datatype Page = InputPage | ResultsPage

  /** The arguments `handleTune` passes to the request client. */
  datatype TuneCall = TuneCall(resumeBase64: string, jobDescription: string)

  const NoResume := ResumeState(None, None, None)

  /** The five `useState` initial values: the input page, no résumé, nothing to submit. */
  function Initial(): (r: AppState)
    ensures r.status == Idle && r.resumeData == NoResume
    ensures r.jobDescription == "" && r.result == "" && r.errorMsg == ""
    ensures ResumeConsistent(r) && PageOf(r) == InputPage && !SubmitEnabled(r) && !TuneGuard(r)
  {
    AppState(Idle, NoResume, "", "", "")
  }

  /** The résumé parts come and go together, and the name is the file's own. */
  predicate ResumeConsistent(s: AppState)
  {
    && (s.resumeData.file.Some? <==> s.resumeData.base64.Some?)
    && (s.resumeData.file.Some? ==> s.resumeData.fileName == Some(s.resumeData.file.value.name))
    && (s.resumeData.file.None? ==> s.resumeData.fileName.None?)
  }

  /** `handleFileSelect`: the résumé is replaced wholesale and the error message cleared; nothing else moves. */
  function FileSelected(s: AppState, file: File, base64: string): (r: AppState)
    ensures ResumeConsistent(r)
    ensures r.resumeData.file == Some(file) && r.resumeData.base64 == Some(base64)
    ensures r.errorMsg == ""
    ensures r.status == s.status && r.jobDescription == s.jobDescription && r.result == s.result
  {
    s.(resumeData := ResumeState(Some(file), Some(base64), Some(file.name)), errorMsg := "")
  }

  /** The text area's `onChange`: only the job description changes. */
  function DescriptionEdited(s: AppState, text: string): (r: AppState)
    ensures r.jobDescription == text
    ensures r.status == s.status && r.resumeData == s.resumeData && r.result == s.result && r.errorMsg == s.errorMsg
  {
    s.(jobDescription := text)
  }

  /** The guard of `handleTune`: encoded content present and non-empty, and a description that is not blank. */
  predicate TuneGuard(s: AppState)
    ensures TuneGuard(s) <==>
      s.resumeData.base64.Some? && s.resumeData.base64.value != "" && !AllWhiteSpace(s.jobDescription)
  {
    s.resumeData.base64.Some? && s.resumeData.base64.value != "" && Trim(s.jobDescription) != ""
  }

  /**
   * `handleTune` up to its `await`. A failing guard only sets the validation
   * message; a passing one enters LOADING with the message cleared.
   */
  function TuneBegun(s: AppState): (r: AppState)
    ensures !TuneGuard(s) ==> r == s.(errorMsg := ValidationMessage)
    ensures TuneGuard(s) ==> r.status == Loading && r.errorMsg == ""
    ensures r.resumeData == s.resumeData && r.jobDescription == s.jobDescription && r.result == s.result
  {
    if TuneGuard(s) then s.(status := Loading, errorMsg := "") else s.(errorMsg := ValidationMessage)
  }

  /** The call `handleTune` makes when its guard passes, and none otherwise. */
  function TuneCallOf(s: AppState): (c: Option<TuneCall>)
    ensures c.Some? <==> TuneGuard(s)
    ensures c.Some? ==> Some(c.value.resumeBase64) == s.resumeData.base64 && c.value.jobDescription == s.jobDescription
  {
    if TuneGuard(s) then Some(TuneCall(s.resumeData.base64.value, s.jobDescription)) else None
  }

  /**
   * `handleTune` after its `await`: success stores the HTML and shows it;
   * failure shows the generic message and keeps the previous result.
   */
  function TuneCompleted(s: AppState, outcome: Result<string, string>): (r: AppState)
    ensures outcome.Ok? ==> r.status == Success && r.result == outcome.value && r.errorMsg == s.errorMsg
    ensures outcome.Err? ==> r.status == Error && r.errorMsg == FailureMessage && r.result == s.result
    ensures r.resumeData == s.resumeData && r.jobDescription == s.jobDescription
  {
    match outcome
    case Ok(html) => s.(result := html, status := Success)
    case Err(_) => s.(errorMsg := FailureMessage, status := Error)
  }

  /** `resetApp`: from any state, back to the initial one. */
  function Reset(s: AppState): (r: AppState)
    ensures r == Initial()
    ensures r.status == Idle && r.resumeData == NoResume
    ensures r.jobDescription == "" && r.result == "" && r.errorMsg == ""
  {
    Initial()
  }

  /** The submit button is enabled: not loading, a file present and a description that is not blank. */
  predicate SubmitEnabled(s: AppState)
    ensures SubmitEnabled(s) <==>
      s.status != Loading && s.resumeData.file.Some? && !AllWhiteSpace(s.jobDescription)
  {
    s.status != Loading && s.resumeData.file.Some? && Trim(s.jobDescription) != ""
  }

  /** The page shown: the results exactly when the status is SUCCESS. */
  function PageOf(s: AppState): (p: Page)
    ensures p == ResultsPage <==> s.status == Success
  {
    if s.status == Success then ResultsPage else InputPage
  }

  /** While LOADING the button is disabled, so no second request can be issued from it. */
  lemma NoSubmitWhileLoading(s: AppState)
    requires s.status == Loading
    ensures !SubmitEnabled(s)
  {
  }

  /**
   * The button tests the file while the handler tests the encoded content.
   * With the two present together they agree, except that an empty encoded
   * string passes the button and fails the handler.
   */
  lemma ButtonVersusGuard(s: AppState)
    requires ResumeConsistent(s)
    ensures SubmitEnabled(s) && s.resumeData.base64 != Some("") ==> TuneGuard(s)
    ensures TuneGuard(s) && s.status != Loading ==> SubmitEnabled(s)
    ensures SubmitEnabled(s) && s.resumeData.base64 == Some("") ==> !TuneGuard(s)
  {
  }

  /** Every transition keeps the résumé parts consistent. */
  lemma TransitionsKeepResumeConsistent(s: AppState, file: File, base64: string, text: string, outcome: Result<string, string>)
    requires ResumeConsistent(s)
    ensures ResumeConsistent(FileSelected(s, file, base64))
    ensures ResumeConsistent(DescriptionEdited(s, text))
    ensures ResumeConsistent(TuneBegun(s))
    ensures ResumeConsistent(TuneCompleted(s, outcome))
    ensures ResumeConsistent(Reset(s))
  {
  }

  /** The component `App`, its state held in fields as `useState` holds it. */
  class App {
    var status: AppStatus
    var resumeData: ResumeState
    var jobDescription: string
    var result: string
    var errorMsg: string

    function State(): AppState
      reads this
    {
      AppState(status, resumeData, jobDescription, result, errorMsg)
    }

    constructor ()
      ensures State() == Initial()
    {
      status := Idle;
      resumeData := NoResume;
      jobDescription := "";
      result := "";
      errorMsg := "";
    }

    method HandleFileSelect(file: File, base64: string)
      modifies this
      ensures State() == FileSelected(old(State()), file, base64)
    {
      resumeData := ResumeState(Some(file), Some(base64), Some(file.name));
      errorMsg := "";
    }

    method SetJobDescription(text: string)
      modifies this
      ensures State() == DescriptionEdited(old(State()), text)
    {
      jobDescription := text;
    }

    /** `handleTune` up to its `await`; `call` is the request client invocation it then awaits, if any. */
    method BeginTune() returns (call: Option<TuneCall>)
      modifies this
      ensures State() == TuneBegun(old(State()))
      ensures call == TuneCallOf(old(State()))
    {
      if resumeData.base64.None? || resumeData.base64.value == "" || Trim(jobDescription) == "" {
        errorMsg := ValidationMessage;
        return None;
      }
      status := Loading;
      errorMsg := "";
      call := Some(TuneCall(resumeData.base64.value, jobDescription));
    }

    /** `handleTune` after its `await`, given how the request client settled. */
    method CompleteTune(outcome: Result<string, string>)
      modifies this
      ensures State() == TuneCompleted(old(State()), outcome)
    {
      match outcome
      case Ok(tuned) =>
        result := tuned;
        status := Success;
      case Err(_) =>
        errorMsg := FailureMessage;
        status := Error;
    }

    /** `handleTune` run to completion against a backend, with nothing interleaved at the `await`. */
    method HandleTune(backend: GeminiService.Request -> GeminiService.BackendReply)
      modifies this
      ensures var s := old(State());
        State() == if TuneGuard(s)
                   then TuneCompleted(TuneBegun(s),
                          GeminiService.TuneResume(s.resumeData.base64.value, s.jobDescription, backend))
                   else TuneBegun(s)
    {
      var call := BeginTune();
      if call.Some? {
        var outcome := GeminiService.TuneResume(call.value.resumeBase64, call.value.jobDescription, backend);
        CompleteTune(outcome);
      }
    }

    method ResetApp()
      modifies this
      ensures State() == Reset(old(State()))
    {
      status := Idle;
      resumeData := NoResume;
      jobDescription := "";
      result := "";
      errorMsg := "";
    }
  }
}
