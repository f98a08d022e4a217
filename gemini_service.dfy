/**
 * The tuning request client: it strips the data-URL prefix from the
 * encoded résumé, sends one request to the generative backend and turns
 * the backend's reply into the HTML string or an error. The backend itself
 * is a parameter: whatever it answers to a request.
 */
module GeminiService {
  import opened Wrappers
  import opened JsString
  import opened Types
  /** What a browser's FileReader puts before the first comma of a PDF's data URL. */
  const PdfDataUrlHeader := "data:application/pdf;base64"
  const NoTextError := "No text response generated from Gemini."
  const HtmlFence := "```html"
  const Fence := "```"

  /** The parts of the one request sent to the backend: the inline PDF attachment and the job description the prompt embeds. */
  datatype Request = Request(mimeType: string, data: string, jobDescription: string)

  /** What the backend call gives back: a response whose `text` may be missing, or a thrown error. */
  datatype BackendReply = Replied(text: Option<string>) | Failed(error: string)

  /** `resumeBase64.split(',')[1] || resumeBase64`: the piece after the first comma, unless it is missing or empty. */
  function StripDataUrlPrefix(resumeBase64: string): (clean: string)
    ensures |clean| <= |resumeBase64|
    ensures clean == resumeBase64 || (clean != [] && ',' !in clean)
  {
    var parts := Split(resumeBase64, ',');
    if |parts| > 1 && parts[1] != "" then parts[1] else resumeBase64
  }

  /** `replace(/```$/, '')`: one fence at the very end is removed. */
  function DropTrailingFence(t: string): (r: string)
    ensures r <= t
    ensures |r| == |t| || |r| + |Fence| == |t|
  {
    if EndsWith(t, Fence) then t[..|t| - |Fence|] else t
  }

  /** The fence cleanup on trimmed text; the language-tagged fence is checked first. */
  function StripFences(t: string): (r: string)
    ensures |r| <= |t|
    ensures !StartsWith(t, Fence) ==> r == t
  {
    if StartsWith(t, HtmlFence) then DropTrailingFence(t[|HtmlFence|..])
    else if StartsWith(t, Fence) then DropTrailingFence(t[|Fence|..])
    else t
  }

  /** How the reply's text becomes the result: missing or empty text is an error, anything else is trimmed and unfenced. */
  function InterpretText(text: Option<string>): (r: Result<string, string>)
    ensures r.Err? <==> text.None? || text.value == ""
    ensures r.Err? ==> r.error == NoTextError
    ensures r.Ok? ==> |r.value| <= |text.value|
  {
    if text.Some? && text.value != "" then Ok(StripFences(Trim(text.value))) else Err(NoTextError)
  }

  /** How a backend reply settles the request: a thrown error is passed on unchanged. */
  function InterpretReply(reply: BackendReply): (r: Result<string, string>)
    ensures reply.Failed? ==> r == Err(reply.error)
    ensures reply.Replied? ==> r == InterpretText(reply.text)
  {
    match reply
    case Failed(e) => Err(e)
    case Replied(text) => InterpretText(text)
  }

  /** The request built from the encoded résumé and the job description. */
  function BuildRequest(resumeBase64: string, jobDescription: string): (req: Request)
    ensures req.mimeType == PdfMimeType && req.jobDescription == jobDescription
    ensures ',' !in resumeBase64 ==> req.data == resumeBase64
  {
    Request(PdfMimeType, StripDataUrlPrefix(resumeBase64), jobDescription)
  }

  /** `tuneResumeWithGemini`: one call to the backend, no retry, and its reply interpreted. */
  function TuneResume(resumeBase64: string, jobDescription: string, backend: Request -> BackendReply): (r: Result<string, string>)
    ensures backend(BuildRequest(resumeBase64, jobDescription)).Failed? ==>
              r == Err(backend(BuildRequest(resumeBase64, jobDescription)).error)
    ensures r.Ok? ==> backend(BuildRequest(resumeBase64, jobDescription)).Replied?
    ensures backend(BuildRequest(resumeBase64, jobDescription)).Replied? ==>
              r == InterpretText(backend(BuildRequest(resumeBase64, jobDescription)).text)
  {
    InterpretReply(backend(BuildRequest(resumeBase64, jobDescription)))
  }

  // ---------------------------------------------------------------- the prefix strip

  /** Without a comma there is no prefix, and the input is used unchanged. */
  lemma StripWithoutComma(s: string)
    requires ',' !in s
    ensures StripDataUrlPrefix(s) == s
  {
  }

  /**
   * The strip, exactly: with no comma the input is kept; otherwise, if the
   * segment after the first comma is empty the whole input is kept, and if
   * not the result is that segment — non-empty, comma-free, starting right
   * after the first comma and running up to the next comma or the end.
   */
  lemma StripDataUrlPrefixShape(s: string)
    ensures ',' !in s ==> StripDataUrlPrefix(s) == s
    ensures ',' in s ==>
      var tail := s[IndexOf(s, ',') + 1..];
      var r := StripDataUrlPrefix(s);
      if tail == [] || tail[0] == ',' then r == s
      else r != [] && ',' !in r && r <= tail && (|r| == |tail| || tail[|r|] == ',')
  {
    if ',' in s {
      var tail := s[IndexOf(s, ',') + 1..];
      SplitAtFirst(s, ',');
      SplitHead(tail, ',');
      var seg := Split(tail, ',')[0];
      assert Split(s, ',')[1] == seg;
      if tail != [] && tail[0] == ',' {
        assert seg[..0] == [];
        assert |seg| == 0;
      }
    }
  }

  /** An empty segment after the first comma sends the whole input, prefix included. */
  lemma StripKeepsInputOnEmptySegment(s: string)
    requires ',' in s
    requires IndexOf(s, ',') + 1 == |s| || s[IndexOf(s, ',') + 1] == ','
    ensures StripDataUrlPrefix(s) == s
  {
    StripDataUrlPrefixShape(s);
  }

  /** A comma-free header, one comma and a non-empty comma-free payload: the strip returns exactly the payload. */
  lemma StripAfterHeader(header: string, payload: string)
    requires ',' !in header && ',' !in payload && payload != []
    ensures StripDataUrlPrefix(header + [','] + payload) == payload
  {
    var s := header + [','] + payload;
    assert s[..|header|] == header;
    IndexOfUnique(s, ',', |header|);
    assert s[|header| + 1..] == payload;
    StripDataUrlPrefixShape(s);
  }

  predicate IsBase64Char(c: char) {
    'A' <= c <= 'Z' || 'a' <= c <= 'z' || '0' <= c <= '9' || c == '+' || c == '/' || c == '='
  }

  predicate IsBase64(p: string) {
    forall i :: 0 <= i < |p| ==> IsBase64Char(p[i])
  }

  /** For a PDF's data URL with a non-empty base64 payload, the request carries exactly that payload. */
  lemma RequestCarriesPdfPayload(payload: string, jobDescription: string)
    requires IsBase64(payload) && payload != []
    ensures BuildRequest(PdfDataUrlHeader + "," + payload, jobDescription)
            == Request(PdfMimeType, payload, jobDescription)
  {
    assert !IsBase64Char(',');
    StripAfterHeader(PdfDataUrlHeader, payload);
  }

  /** The data URL of an empty PDF has nothing after its comma, so the request carries the whole data URL. */
  lemma EmptyPayloadKeepsDataUrl()
    ensures BuildRequest(PdfDataUrlHeader + ",", "").data == PdfDataUrlHeader + ","
  {
    var s := PdfDataUrlHeader + ",";
    IndexOfUnique(s, ',', |PdfDataUrlHeader|);
    StripKeepsInputOnEmptySegment(s);
  }

  // ---------------------------------------------------------------- the fence cleanup

  /** The trailing-fence removal takes off one fence when there is one, and nothing otherwise. */
  lemma DropTrailingFenceShape(t: string)
    ensures EndsWith(t, Fence) ==> t == DropTrailingFence(t) + Fence
    ensures !EndsWith(t, Fence) ==> DropTrailingFence(t) == t
  {
  }

  /** Missing text and empty text both fail with the fixed message. */
  lemma NoTextFails(text: Option<string>)
    requires text == None || text == Some("")
    ensures InterpretText(text) == Err(NoTextError)
  {
  }

  /** Non-empty text made of white space only is not an error: it yields the empty string. */
  lemma WhiteSpaceOnlyYieldsEmpty(text: string)
    requires text != [] && AllWhiteSpace(text)
    ensures InterpretText(Some(text)) == Ok("")
  {
  }

  /** Text that is already trimmed and does not start with a fence comes back unchanged. */
  lemma CleanTextUnchanged(text: string)
    requires text != [] && !IsWhiteSpace(text[0]) && !IsWhiteSpace(text[|text| - 1])
    requires !StartsWith(text, Fence)
    ensures InterpretText(Some(text)) == Ok(text)
  {
    TrimFixed(text);
  }

  /**
   * The fence cleanup on trimmed text `u`: a leading "```html" is removed
   * (this test comes first), otherwise a leading "```"; in either case one
   * trailing "```" goes too when what is left ends with one; unfenced text
   * is kept. The result is never longer than `u`.
   */
  lemma StripFencesShape(u: string)
    ensures var v := StripFences(u);
      |v| <= |u|
      && (StartsWith(u, HtmlFence) ==>
            if EndsWith(u[|HtmlFence|..], Fence) then u == HtmlFence + v + Fence
            else u == HtmlFence + v)
      && (!StartsWith(u, HtmlFence) && StartsWith(u, Fence) ==>
            if EndsWith(u[|Fence|..], Fence) then u == Fence + v + Fence
            else u == Fence + v)
      && (!StartsWith(u, Fence) ==> v == u)
  {
    if StartsWith(u, HtmlFence) {
      assert u == HtmlFence + u[|HtmlFence|..];
      DropTrailingFenceShape(u[|HtmlFence|..]);
    } else if StartsWith(u, Fence) {
      assert u == Fence + u[|Fence|..];
      DropTrailingFenceShape(u[|Fence|..]);
    }
  }

  /** Non-empty reply text always succeeds, with the fence cleanup applied to the trimmed text. */
  lemma CleanupShape(text: string)
    requires text != []
    ensures InterpretText(Some(text)).Ok?
    ensures var u := Trim(text);
      var v := InterpretText(Some(text)).value;
      |v| <= |u|
      && (StartsWith(u, HtmlFence) ==>
            if EndsWith(u[|HtmlFence|..], Fence) then u == HtmlFence + v + Fence
            else u == HtmlFence + v)
      && (!StartsWith(u, HtmlFence) && StartsWith(u, Fence) ==>
            if EndsWith(u[|Fence|..], Fence) then u == Fence + v + Fence
            else u == Fence + v)
      && (!StartsWith(u, Fence) ==> v == u)
  {
    var u := Trim(text);
    assert InterpretText(Some(text)) == Ok(StripFences(u));
    StripFencesShape(u);
  }

  /**
   * An example of the precedence stated in general by `StripFencesShape`:
   * every "```html" opening also starts with "```", and the tagged branch,
   * checked first, removes the tag as well.
   */
  lemma HtmlFenceTakesPrecedence()
    ensures InterpretText(Some("```html<p>x</p>```")) == Ok("<p>x</p>")
  {
    var u := "```html<p>x</p>```";
    TrimFixed(u);
    assert StartsWith(u, HtmlFence);
    assert u[|HtmlFence|..] == "<p>x</p>```";
    assert EndsWith("<p>x</p>```", Fence);
    assert DropTrailingFence("<p>x</p>```") == "<p>x</p>";
    assert StripFences(u) == "<p>x</p>";
    assert Trim(u) == u;
  }

  /** The cleanup is the identity on clean text only: twice over, a doubled opening loses both. */
  lemma StripFencesNotIdempotent()
    ensures StripFences(StripFences("```html```html")) != StripFences("```html```html")
  {
    assert StartsWith("```html```html", HtmlFence);
    assert StripFences("```html```html") == "```html";
    assert StripFences("```html") == "";
  }
}
