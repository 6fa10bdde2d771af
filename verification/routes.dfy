/** The decision logic of the two HTTP handlers, `/api/summarize` and
    `/api/validate-youtube`: from a request body and the outcomes of the
    collaborators to a status code and a JSON body. */
module Routes {
  import opened Wrappers
  import opened Strings
  import opened Schema
  import YouTube

  /** The JSON bodies the handlers send. */
  datatype Body =
    | SummaryJson(response: SummaryResponse)
      /** `{ message, errors }` after a failed schema check; `errors` lists
          the fields that failed. */
    | Invalid(message: string, errors: seq<string>)
      /** `{ message }` */
    | Message(message: string)
      /** `{ message, error }`, the error carrying the cause. */
    | MessageWithCause(message: string, error: string)
      /** `{ valid: true }` */
    | ValidUrl
      /** `{ valid: false, message, error }` */
    | InvalidUrl(message: string, error: string)

  datatype HttpResponse = HttpResponse(status: int, body: Body)

  /** The summarize handler's answer and the content it handed to the
      summarizer, when it called it. */
  datatype Handled = Handled(response: HttpResponse, summarizerInput: Option<string>)

  const InvalidRequestData := "Invalid request data"
  const UrlRequired := "YouTube URL is required for YouTube input type"
  const ExtractFailed := "Failed to extract transcript from YouTube video"
  const TextRequired := "Text content is required for text input type"
  const InvalidInputType := "Invalid input type"
  const SummaryFailed := "Failed to generate summary"
  const InvalidYouTubeUrl := "Invalid YouTube URL"
  const NoTranscripts := "Invalid YouTube URL or video doesn't have available transcripts"

  /** The content to summarize for a validated request, or the response
      that ends the request. The input type is compared by its wire name,
      as the handler does. */
  function ContentFor(req: SummaryRequest, transcriptOf: string -> Result<string, string>): (r: Result<string, HttpResponse>)
    ensures req.inputType == YouTube && !Truthy(req.youtubeUrl) ==> r == Err(HttpResponse(400, Message(UrlRequired)))
    ensures req.inputType == YouTube && Truthy(req.youtubeUrl) ==>
      match transcriptOf(req.youtubeUrl.value)
      case Ok(t) => r == Ok(t)
      case Err(e) => r == Err(HttpResponse(400, MessageWithCause(ExtractFailed, e)))
    ensures req.inputType == Text && !Truthy(req.textContent) ==> r == Err(HttpResponse(400, Message(TextRequired)))
    ensures req.inputType == Text && Truthy(req.textContent) ==> r == Ok(req.textContent.value)
  {
    var t := InputTypeName(req.inputType);
    if t == "youtube" then
      if !Truthy(req.youtubeUrl) then Err(HttpResponse(400, Message(UrlRequired)))
      else match transcriptOf(req.youtubeUrl.value)
        case Err(e) => Err(HttpResponse(400, MessageWithCause(ExtractFailed, e)))
        case Ok(content) => Ok(content)
    else if t == "text" then
      if !Truthy(req.textContent) then Err(HttpResponse(400, Message(TextRequired)))
      else Ok(req.textContent.value)
    else Err(HttpResponse(400, Message(InvalidInputType)))
  }

  /** `POST /api/summarize`. `isUrl` is zod's URL check, `transcriptOf` the
      transcript source and `summarize` the summarizer; each of the latter
      two either answers or fails with a message. */
  function HandleSummarize(
    b: RequestBody,
    isUrl: string -> bool,
    transcriptOf: string -> Result<string, string>,
    summarize: (string, SummaryLength, Language) -> Result<SummaryResponse, string>): (h: Handled)
    ensures ParseRequest(b, isUrl).Err? ==>
      h == Handled(HttpResponse(400, Invalid(InvalidRequestData, RequestIssues(b, isUrl))), None)
    ensures ParseRequest(b, isUrl).Ok? ==>
      var req := ParseRequest(b, isUrl).value;
      match ContentFor(req, transcriptOf)
      case Err(resp) => h == Handled(resp, None)
      case Ok(content) =>
        && h.summarizerInput == Some(content)
        && match summarize(content, req.summaryLength, req.language)
           case Ok(s) => h.response == HttpResponse(200, SummaryJson(s))
           case Err(e) => h.response == HttpResponse(500, MessageWithCause(SummaryFailed, e))
    ensures h.response.status == 200 <==> h.response.body.SummaryJson?
    ensures h.response.status in {200, 400, 500}
    ensures h.response.body != Message(InvalidInputType)
  {
    match ParseRequest(b, isUrl)
    case Err(issues) => Handled(HttpResponse(400, Invalid(InvalidRequestData, issues)), None)
    case Ok(req) =>
      match ContentFor(req, transcriptOf)
      case Err(resp) => Handled(resp, None)
      case Ok(content) =>
        match summarize(content, req.summaryLength, req.language)
        case Ok(s) => Handled(HttpResponse(200, SummaryJson(s)), Some(content))
        case Err(e) => Handled(HttpResponse(500, MessageWithCause(SummaryFailed, e)), Some(content))
  }

  /** `POST /api/validate-youtube` with the body's `youtubeUrl` field: a
      string the URL check accepts goes to the extractor in validate-only
      mode. */
  function HandleValidate(youtubeUrl: Field, isUrl: string -> bool): (r: HttpResponse)
    ensures !(youtubeUrl.Str? && isUrl(youtubeUrl.s)) ==> r == HttpResponse(400, Invalid(InvalidYouTubeUrl, ["youtubeUrl"]))
    ensures youtubeUrl.Str? && isUrl(youtubeUrl.s) ==>
      match YouTube.ExtractTranscript(youtubeUrl.s, isUrl, true)
      case Ok(_) => r == HttpResponse(200, ValidUrl)
      case Err(e) => r == HttpResponse(400, InvalidUrl(NoTranscripts, e))
    ensures r.status == 200 <==> youtubeUrl.Str? && YouTube.ExtractTranscript(youtubeUrl.s, isUrl, false).Ok?
  {
    if !(youtubeUrl.Str? && isUrl(youtubeUrl.s)) then HttpResponse(400, Invalid(InvalidYouTubeUrl, ["youtubeUrl"]))
    else match YouTube.ExtractTranscript(youtubeUrl.s, isUrl, true)
      case Ok(_) => HttpResponse(200, ValidUrl)
      case Err(e) => HttpResponse(400, InvalidUrl(NoTranscripts, e))
  }

  /** The transcript source the server is wired to: the YouTube extractor
      in full mode. It succeeds exactly for a well-formed URL with a
      non-empty video id, and then yields that video's transcript; every
      failure carries the validation or missing-id message. */
  function Extractor(isUrl: string -> bool): (ex: string -> Result<string, string>)
    ensures forall url :: ex(url).Ok? <==>
      isUrl(url) && YouTube.MatchesShape(url) && YouTube.VideoId(url).Some? && YouTube.VideoId(url).value != []
    ensures forall url :: ex(url).Ok? ==> ex(url).value == YouTube.Transcript(YouTube.VideoId(url).value)
    ensures forall url :: ex(url).Err? ==>
      ex(url).error in {YouTube.ValidationMessage(YouTube.UrlIssues(url, isUrl)), YouTube.NoVideoId}
  {
    url => YouTube.ExtractTranscript(url, isUrl, false)
  }

  /** With the YouTube extractor wired in, a YouTube request reaches the
      summarizer exactly when the validate endpoint accepts its URL, and
      then the summarizer reads the transcript of the URL's video. */
  lemma SummarizeAgreesWithValidate(
    b: RequestBody,
    isUrl: string -> bool,
    summarize: (string, SummaryLength, Language) -> Result<SummaryResponse, string>)
    requires ParseRequest(b, isUrl).Ok? && ParseRequest(b, isUrl).value.inputType == YouTube
    requires b.youtubeUrl.Str? && b.youtubeUrl.s != []
    ensures var h := HandleSummarize(b, isUrl, Extractor(isUrl), summarize);
      && (h.summarizerInput.Some? <==> HandleValidate(b.youtubeUrl, isUrl).status == 200)
      && (h.summarizerInput.Some? ==>
            h.summarizerInput.value == YouTube.Transcript(YouTube.VideoId(b.youtubeUrl.s).value))
  {
    var req := ParseRequest(b, isUrl).value;
    assert req.youtubeUrl == Some(b.youtubeUrl.s);
  }

  /** Every URL the schema lets through already passed zod's URL check, so
      an extractor failure names either the YouTube shape or the missing
      video id as its cause. */
  lemma ExtractFailureCause(b: RequestBody, isUrl: string -> bool,
    summarize: (string, SummaryLength, Language) -> Result<SummaryResponse, string>)
    requires ParseRequest(b, isUrl).Ok? && ParseRequest(b, isUrl).value.inputType == YouTube
    requires b.youtubeUrl.Str? && b.youtubeUrl.s != []
    ensures var h := HandleSummarize(b, isUrl, Extractor(isUrl), summarize);
      h.response.body.MessageWithCause? && h.response.body.message == ExtractFailed ==>
        h.response.body.error in {YouTube.ValidationMessage(["Invalid YouTube URL format"]), YouTube.NoVideoId}
  {
    var url := b.youtubeUrl.s;
    FailureNamesExtractorError(b, isUrl, Extractor(isUrl), summarize);
    assert Extractor(isUrl)(url) == YouTube.ExtractTranscript(url, isUrl, false);
    YouTube.ExtractErrorsAfterUrlCheck(url, isUrl);
  }

  /** For any transcript source, a YouTube request that fails with the
      extraction message carries the source's own error. */
  lemma FailureNamesExtractorError(b: RequestBody, isUrl: string -> bool,
    transcriptOf: string -> Result<string, string>,
    summarize: (string, SummaryLength, Language) -> Result<SummaryResponse, string>)
    requires ParseRequest(b, isUrl).Ok? && ParseRequest(b, isUrl).value.inputType == YouTube
    requires b.youtubeUrl.Str? && b.youtubeUrl.s != []
    ensures var h := HandleSummarize(b, isUrl, transcriptOf, summarize);
      h.response.body.MessageWithCause? && h.response.body.message == ExtractFailed ==>
        transcriptOf(b.youtubeUrl.s).Err? && h.response.body.error == transcriptOf(b.youtubeUrl.s).error
  {
    var req := ParseRequest(b, isUrl).value;
    assert req.youtubeUrl == Some(b.youtubeUrl.s);
    FailureMessagesDiffer();
  }

  lemma FailureMessagesDiffer()
    ensures SummaryFailed != ExtractFailed
  {
    assert |SummaryFailed| == 26;
  }

  /** The server sets no minimum length on text: any non-empty text of a
      valid text request goes to the summarizer verbatim. */
  lemma TextPassesVerbatim(b: RequestBody, isUrl: string -> bool,
    transcriptOf: string -> Result<string, string>,
    summarize: (string, SummaryLength, Language) -> Result<SummaryResponse, string>)
    requires ParseRequest(b, isUrl).Ok? && b.inputType == Str("text")
    requires b.textContent.Str? && b.textContent.s != []
    ensures HandleSummarize(b, isUrl, transcriptOf, summarize).summarizerInput == Some(b.textContent.s)
  {
    var req := ParseRequest(b, isUrl).value;
    assert InputTypeName(req.inputType) == "text";
  }
}
