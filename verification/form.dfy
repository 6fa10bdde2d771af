/** The summarizer form on the client: its values, the extra rule it puts
    on top of the request schema, the client-side video-id extractor that
    decides whether to ask the server about a URL, the switch between input
    methods and the character counter. */
module Form {
  import opened Wrappers
  import opened Strings
  import opened Schema
  import Routes

  /** The form's values. Every input is a text field, so every value is a
      string. */
  datatype FormValues = FormValues(
    inputType: string,
    youtubeUrl: string,
    textContent: string,
    summaryLength: string,
    language: string)

  /** The values the form starts with. */
  function Defaults(): (v: FormValues)
    ensures ParseInputType(v.inputType) == Some(YouTube)
    ensures v.youtubeUrl == [] && v.textContent == []
    ensures ParseLength(v.summaryLength) == Some(Medium)
    ensures ParseLanguage(v.language) == Some(En)
  {
    FormValues("youtube", "", "", "medium", "en")
  }

  /** The object the form hands to the schema: every field present. */
  function BodyAsWritten(v: FormValues): RequestBody {
    RequestBody(Str(v.inputType), Str(v.youtubeUrl), Str(v.textContent), Str(v.summaryLength), Str(v.language))
  }

  /** The refinement the form adds to the request schema: a YouTube
      request needs a non-empty URL, a text request needs text at least 50
      long in JavaScript's measure (UTF-16 code units), and any other input
      type fails. The input type is compared by its wire name. */
  function Refine(req: SummaryRequest): (ok: bool)
    ensures ok ==> (req.inputType == YouTube && Truthy(req.youtubeUrl)) || (req.inputType == Text && Truthy(req.textContent))
    ensures ok ==> req.inputType != Text || |req.textContent.value| >= 25
  {
    var t := InputTypeName(req.inputType);
    if t == "youtube" then Truthy(req.youtubeUrl)
    else if t == "text" then Truthy(req.textContent) && Utf16Length(req.textContent.value) >= 50
    else false
  }

  /** The refinement, stated per input type. */
  lemma RefineCases(req: SummaryRequest)
    ensures req.inputType == YouTube ==> (Refine(req) <==> req.youtubeUrl.Some? && req.youtubeUrl.value != [])
    ensures req.inputType == Text ==> (Refine(req) <==> req.textContent.Some? && Utf16Length(req.textContent.value) >= 50)
  {
  }

  /** The bound of 50 is inclusive: 49 code units fail, 50 pass. Text
      within the Basic Multilingual Plane is measured in characters; text
      with characters beyond it passes with fewer than 50 of them. */
  lemma TextLengthBoundary(req: SummaryRequest)
    requires req.inputType == Text && req.textContent.Some?
    ensures Utf16Length(req.textContent.value) == 49 ==> !Refine(req)
    ensures Utf16Length(req.textContent.value) == 50 ==> Refine(req)
    ensures (forall k :: 0 <= k < |req.textContent.value| ==> (req.textContent.value[k] as int) < 0x1_0000) ==>
      (Refine(req) <==> |req.textContent.value| >= 50)
    ensures |req.textContent.value| >= 50 ==> Refine(req)
  {
    Utf16LengthBmp(req.textContent.value);
  }

  /** Whether the form, as written, submits its values: the schema and then
      the refinement. */
  function AcceptsAsWritten(v: FormValues, isUrl: string -> bool): (ok: bool)
    ensures ok ==> isUrl(v.youtubeUrl)
    ensures ok ==> v.inputType == "youtube" || v.inputType == "text"
    ensures ok && v.inputType == "youtube" ==> v.youtubeUrl != []
    ensures ok && v.inputType == "text" ==> Utf16Length(v.textContent) >= 50
  {
    ParseRequest(BodyAsWritten(v), isUrl).Ok? && Refine(ParseRequest(BodyAsWritten(v), isUrl).value)
  }

  /** An input type other than `youtube` and `text` never submits. */
  lemma OtherInputTypeRejected(v: FormValues, isUrl: string -> bool)
    requires v.inputType != "youtube" && v.inputType != "text"
    ensures !AcceptsAsWritten(v, isUrl)
  {
  }

  /** As written, the URL field's empty default still reaches the URL check
      when the text method is chosen. The empty string is not a URL, so
      the form never submits text unless a URL was typed first, however
      long the text is. */
  lemma DefaultUrlBlocksText(isUrl: string -> bool, text: string)
    requires !isUrl("") && Utf16Length(text) >= 50
    ensures !AcceptsAsWritten(Defaults().(inputType := "text", textContent := text), isUrl)
  {
    var v := Defaults().(inputType := "text", textContent := text);
    assert !UrlFieldOk(BodyAsWritten(v).youtubeUrl, isUrl);
  }

  /** The body the form evidently means to send: an empty text field is an
      absent value. */
  function Body(v: FormValues): (b: RequestBody)
    ensures v.youtubeUrl != [] && v.textContent != [] ==> b == BodyAsWritten(v)
    ensures b.youtubeUrl.Absent? <==> v.youtubeUrl == []
    ensures b.textContent.Absent? <==> v.textContent == []
  {
    RequestBody(
      Str(v.inputType),
      if v.youtubeUrl == [] then Absent else Str(v.youtubeUrl),
      if v.textContent == [] then Absent else Str(v.textContent),
      Str(v.summaryLength),
      Str(v.language))
  }

  /** Form submission: the request the form hands on, or none when the
      values fail the schema or the refinement. */
  function Submit(v: FormValues, isUrl: string -> bool): (r: Option<SummaryRequest>)
    ensures r.Some? <==> ParseRequest(Body(v), isUrl).Ok? && Refine(ParseRequest(Body(v), isUrl).value)
    ensures r.Some? ==> Refine(r.value) && EncodeRequest(r.value) == Body(v)
  {
    match ParseRequest(Body(v), isUrl)
    case Err(_) => None
    case Ok(req) => if Refine(req) then Some(req) else None
  }

  /** With empty fields read as absent, text at least 50 code units long
      submits from the default values whatever the URL check says about
      the empty string; and where every field is filled in, the two
      readings agree. */
  lemma SubmitFixesDefaultUrl(isUrl: string -> bool, text: string, v: FormValues)
    requires Utf16Length(text) >= 50
    ensures Submit(Defaults().(inputType := "text", textContent := text), isUrl).Some?
    ensures v.youtubeUrl != [] && v.textContent != [] ==> (Submit(v, isUrl).Some? <==> AcceptsAsWritten(v, isUrl))
  {
    var d := Defaults().(inputType := "text", textContent := text);
    assert |RequestIssues(Body(d), isUrl)| == 0;
  }

  /** What the form submits is what the server needs: a submitted text
      request reaches the summarizer with its text unchanged, and a
      submitted YouTube request goes to the transcript source. */
  lemma SubmittedRequestsPassTheServer(
    v: FormValues,
    isUrl: string -> bool,
    transcriptOf: string -> Result<string, string>,
    summarize: (string, SummaryLength, Language) -> Result<SummaryResponse, string>)
    requires Submit(v, isUrl).Some?
    ensures var req := Submit(v, isUrl).value;
      var h := Routes.HandleSummarize(EncodeRequest(req), isUrl, transcriptOf, summarize);
      && (req.inputType == Text ==> h.summarizerInput == req.textContent)
      && (req.inputType == YouTube && transcriptOf(req.youtubeUrl.value).Ok? ==>
            h.summarizerInput == Some(transcriptOf(req.youtubeUrl.value).value))
  {
    var req := Submit(v, isUrl).value;
    RequestRoundTrip(req, isUrl);
  }

  // ---------------------------------------------------------------------
  // Client-side video id
  // ---------------------------------------------------------------------

  /** `\w` */
  predicate IsWordChar(c: char) {
    ('a' <= c <= 'z') || ('A' <= c <= 'Z') || ('0' <= c <= '9') || c == '_'
  }

  /** The characters the id group stops at. */
  predicate IsIdStop(c: char) {
    c == '#' || c == '&' || c == '?'
  }

  /** Length of the marker alternative (`youtu.be/`, `v/`, `u/\w/`,
      `embed/`, `watch?v=` or `&v=`) that matches at `p`, if any. The six
      alternatives begin with six different characters, so at most one
      matches at a position. */
  function MarkerAt(s: string, p: nat): (r: Option<nat>)
    requires p <= |s|
    ensures r.Some? ==> p + r.value <= |s| && r.value >= 2
    ensures r.Some? ==> s[p + r.value - 1] == '/' || s[p + r.value - 1] == '='
  {
    var t := s[p..];
    if |t| >= 9 && t[..5] == "youtu" && IsDotChar(t[5]) && t[6..9] == "be/" then Some(9)
    else if HasPrefix(t, "v/") then Some(2)
    else if |t| >= 4 && t[..2] == "u/" && IsWordChar(t[2]) && t[3] == '/' then Some(4)
    else if HasPrefix(t, "embed/") then Some(6)
    else if HasPrefix(t, "watch?v=") then Some(8)
    else if HasPrefix(t, "&v=") then Some(3)
    else None
  }

  /** Each marker is recognised where its text begins. */
  lemma MarkersRecognised(s: string, p: nat)
    requires p <= |s|
    ensures HasPrefix(s[p..], "youtu.be/") ==> MarkerAt(s, p) == Some(9)
    ensures HasPrefix(s[p..], "v/") ==> MarkerAt(s, p) == Some(2)
    ensures HasPrefix(s[p..], "embed/") ==> MarkerAt(s, p) == Some(6)
    ensures HasPrefix(s[p..], "watch?v=") ==> MarkerAt(s, p) == Some(8)
    ensures HasPrefix(s[p..], "&v=") ==> MarkerAt(s, p) == Some(3)
    ensures p + 4 <= |s| && s[p..p + 2] == "u/" && IsWordChar(s[p + 2]) && s[p + 3] == '/' ==> MarkerAt(s, p) == Some(4)
  {
    var t := s[p..];
    if HasPrefix(t, "embed/") {
      assert t[0] == t[..6][0] == 'e';
    }
    if HasPrefix(t, "watch?v=") {
      assert t[0] == t[..8][0] == 'w';
    }
    if p + 4 <= |s| && s[p..p + 2] == "u/" {
      assert t[0] == s[p..p + 2][0] == 'u';
      assert t[1] == s[p..p + 2][1] == '/';
    }
  }

  /** In `youtu.be/` the dot of the regular expression: without the `u`
      flag it matches one UTF-16 code unit other than a line terminator, so
      not a character beyond the Basic Multilingual Plane. */
  predicate IsDotChar(c: char) {
    !IsLineTerminator(c) && Utf16Units(c) == 1
  }

  /** Index of the first line terminator, or the length when there is
      none: the leading `.*` cannot run past it. */
  function FirstLineEnd(s: string, from: nat): (n: nat)
    requires from <= |s|
    ensures from <= n <= |s|
    ensures forall k :: from <= k < n ==> !IsLineTerminator(s[k])
    ensures n < |s| ==> IsLineTerminator(s[n])
    decreases |s| - from
  {
    if from == |s| || IsLineTerminator(s[from]) then from else FirstLineEnd(s, from + 1)
  }

  /** The last marker position at or below `p`. */
  function LastMarkerBelow(s: string, p: nat): (r: Option<nat>)
    requires p <= |s|
    ensures r.Some? ==> r.value <= p && MarkerAt(s, r.value).Some?
    ensures r.Some? ==> forall q :: r.value < q <= p ==> MarkerAt(s, q).None?
    ensures r.None? ==> forall q :: 0 <= q <= p ==> MarkerAt(s, q).None?
    decreases p
  {
    if MarkerAt(s, p).Some? then Some(p)
    else if p == 0 then None
    else LastMarkerBelow(s, p - 1)
  }

  /** End of the longest run of non-stop characters from `from`. */
  function RunEnd(s: string, from: nat): (e: nat)
    requires from <= |s|
    ensures from <= e <= |s|
    ensures forall k :: from <= k < e ==> !IsIdStop(s[k])
    ensures e < |s| ==> IsIdStop(s[e])
    decreases |s| - from
  {
    if from == |s| || IsIdStop(s[from]) then from else RunEnd(s, from + 1)
  }

  /** The id group of the pattern: the greedy `^.*` picks the last marker
      that starts on the first line, and the group takes the longest run of
      characters other than `#`, `&` and `?` after it. */
  function IdGroup(url: string): (r: Option<string>)
    ensures r.Some? ==> forall k :: 0 <= k < |r.value| ==> !IsIdStop(r.value[k])
    ensures r.Some? ==>
      exists p :: 0 <= p <= FirstLineEnd(url, 0) && MarkerAt(url, p).Some?
        && (forall q :: p < q <= FirstLineEnd(url, 0) ==> MarkerAt(url, q).None?)
        && r.value == url[p + MarkerAt(url, p).value .. RunEnd(url, p + MarkerAt(url, p).value)]
    ensures (forall q :: 0 <= q <= FirstLineEnd(url, 0) ==> MarkerAt(url, q).None?) ==> r.None?
  {
    match LastMarkerBelow(url, FirstLineEnd(url, 0))
    case None => None
    case Some(p) =>
      var start := p + MarkerAt(url, p).value;
      Some(url[start .. RunEnd(url, start)])
  }

  /** `extractVideoId`: the id group, when its JavaScript length is exactly
      11 UTF-16 code units. */
  function ExtractVideoId(url: string): (r: Option<string>)
    ensures r.Some? <==> IdGroup(url).Some? && Utf16Length(IdGroup(url).value) == 11
    ensures r.Some? ==> r.value == IdGroup(url).value && Utf16Length(r.value) == 11 && 6 <= |r.value| <= 11
    ensures r.Some? ==> forall k :: 0 <= k < |r.value| ==> !IsIdStop(r.value[k])
  {
    match IdGroup(url)
    case None => None
    case Some(id) => if Utf16Length(id) == 11 then Some(id) else None
  }

  /** Both ends of the bound: an id group of 11 code units is the id, and
      one unit more or fewer is not; within the Basic Multilingual Plane
      that is 11 characters. */
  lemma ExtractVideoIdLength(url: string, id: string)
    requires IdGroup(url) == Some(id)
    ensures Utf16Length(id) == 11 ==> ExtractVideoId(url) == Some(id)
    ensures Utf16Length(id) != 11 ==> ExtractVideoId(url).None?
    ensures (forall k :: 0 <= k < |id| ==> (id[k] as int) < 0x1_0000) ==> (ExtractVideoId(url).Some? <==> |id| == 11)
  {
    Utf16LengthBmp(id);
  }

  // ---------------------------------------------------------------------
  // Preview and input method
  // ---------------------------------------------------------------------

  datatype Preview = Preview(id: string, title: string)

  /** What the URL watcher does when the URL or the input method changes. */
  datatype UrlEffect =
    | Nothing
    | ClearPreview
      /** After the debounce, ask `/api/validate-youtube` about the URL. */
    | Validate(id: string)

  function UrlChanged(url: string, inputMethod: InputType): (e: UrlEffect)
    ensures e.Validate? <==> url != [] && inputMethod == YouTube && ExtractVideoId(url).Some?
    ensures e.Validate? ==> e.id == ExtractVideoId(url).value && Utf16Length(e.id) == 11
    ensures e == ClearPreview <==> url != [] && inputMethod == YouTube && ExtractVideoId(url).None?
  {
    if url == [] || inputMethod != YouTube then Nothing
    else match ExtractVideoId(url)
      case None => ClearPreview
      case Some(id) => Validate(id)
  }

  /** The preview after the validation request: shown when the server
      accepted the URL, cleared otherwise (a failed fetch included). */
  function PreviewAfterValidation(id: string, accepted: bool): (p: Option<Preview>)
    ensures p.Some? <==> accepted
    ensures p.Some? ==> p.value.id == id && p.value.title == "YouTube Video (ID: " + id + ")"
    ensures p.Some? ==> HasPrefix(p.value.title, "YouTube Video") && HasSuffix(p.value.title, id + ")")
  {
    if accepted then Some(Preview(id, "YouTube Video (ID: " + id + ")")) else None
  }

  datatype FormState = FormState(inputMethod: InputType, values: FormValues, preview: Option<Preview>)

  function InitialForm(): (st: FormState)
    ensures st.inputMethod == YouTube && st.values == Defaults() && st.preview.None?
  {
    FormState(YouTube, Defaults(), None)
  }

  /** `handleInputMethodChange`: the method and the form's input type
      follow the choice, the preview is cleared, every other value
      stays. */
  function ChangeInputMethod(st: FormState, m: InputType): (st': FormState)
    ensures st'.inputMethod == m && ParseInputType(st'.values.inputType) == Some(m)
    ensures st'.preview.None?
    ensures st'.values.youtubeUrl == st.values.youtubeUrl && st'.values.textContent == st.values.textContent
    ensures st'.values.summaryLength == st.values.summaryLength && st'.values.language == st.values.language
  {
    FormState(m, st.values.(inputType := InputTypeName(m)), None)
  }

  /** Switching away and back restores the method and keeps every value. */
  lemma ChangeInputMethodRoundTrip(st: FormState, m: InputType)
    requires ParseInputType(st.values.inputType) == Some(st.inputMethod)
    ensures ChangeInputMethod(ChangeInputMethod(st, m), st.inputMethod) == st.(preview := None)
  {
    assert InputTypeName(st.inputMethod) == st.values.inputType;
  }

  /** The character counter: the text's JavaScript length in UTF-16 code
      units, 0 when there is none. */
  function CharacterCount(text: Option<string>): (n: nat)
    ensures text.Some? ==> n == Utf16Length(text.value) && |text.value| <= n <= 2 * |text.value|
    ensures text.Some? && (forall k :: 0 <= k < |text.value| ==> (text.value[k] as int) < 0x1_0000) ==> n == |text.value|
    ensures text.None? ==> n == 0
  {
    if text.Some? then Utf16LengthBmp(text.value); Utf16Length(text.value) else 0
  }

  /** The counter and the refinement measure text alike: a text request
      passes exactly when the counter shows at least 50. */
  lemma CounterMatchesRefine(req: SummaryRequest)
    requires req.inputType == Text
    ensures Refine(req) <==> Truthy(req.textContent) && CharacterCount(req.textContent) >= 50
  {
  }
}
