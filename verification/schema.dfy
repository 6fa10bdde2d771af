/** The shared request/response shapes: the closed enumerations, the zod
    request schema as a parser from a decoded JSON body, the response
    record, and the user/summary records with their insert shapes. */
module Schema {
  import opened Wrappers

  /** Summary length, `z.enum(["short", "medium", "long"])`. */
  datatype SummaryLength = Short | Medium | Long

  /** Output language, `z.enum(["en", "es", "fr", "de", "zh"])`. */
  datatype Language = En | Es | Fr | De | Zh

  /** Where the content comes from, `z.enum(["youtube", "text"])`. */
  datatype InputType = YouTube | Text

  function LengthName(l: SummaryLength): string {
    match l
    case Short => "short"
    case Medium => "medium"
    case Long => "long"
  }

  function LanguageName(l: Language): string {
    match l
    case En => "en"
    case Es => "es"
    case Fr => "fr"
    case De => "de"
    case Zh => "zh"
  }

  function InputTypeName(t: InputType): string {
    match t
    case YouTube => "youtube"
    case Text => "text"
  }

  /** Accepts exactly the three length names, and each name maps back to
      the value it names. */
  function ParseLength(s: string): (r: Option<SummaryLength>)
    ensures r.Some? <==> s == "short" || s == "medium" || s == "long"
    ensures r.Some? ==> LengthName(r.value) == s
    ensures forall l :: s == LengthName(l) ==> r == Some(l)
  {
    if s == "short" then Some(Short)
    else if s == "medium" then Some(Medium)
    else if s == "long" then Some(Long)
    else None
  }

  function ParseLanguage(s: string): (r: Option<Language>)
    ensures r.Some? <==> s == "en" || s == "es" || s == "fr" || s == "de" || s == "zh"
    ensures r.Some? ==> LanguageName(r.value) == s
    ensures forall l :: s == LanguageName(l) ==> r == Some(l)
  {
    if s == "en" then Some(En)
    else if s == "es" then Some(Es)
    else if s == "fr" then Some(Fr)
    else if s == "de" then Some(De)
    else if s == "zh" then Some(Zh)
    else None
  }

  function ParseInputType(s: string): (r: Option<InputType>)
    ensures r.Some? <==> s == "youtube" || s == "text"
    ensures r.Some? ==> InputTypeName(r.value) == s
    ensures forall t :: s == InputTypeName(t) ==> r == Some(t)
  {
    if s == "youtube" then Some(YouTube)
    else if s == "text" then Some(Text)
    else None
  }

  /** One property of a decoded JSON object: missing (`undefined`), a
      string, or any other JSON value (number, boolean, null, array,
      object). */
  datatype Field = Absent | Str(s: string) | NonString

  /** The body of a POST to `/api/summarize` before validation. */
  datatype RequestBody = RequestBody(
    inputType: Field,
    youtubeUrl: Field,
    textContent: Field,
    summaryLength: Field,
    language: Field)

  /** A request that passed `summaryRequestSchema`. */
  datatype SummaryRequest = SummaryRequest(
    inputType: InputType,
    youtubeUrl: Option<string>,
    textContent: Option<string>,
    summaryLength: SummaryLength,
    language: Language)

  /** `z.string().url().optional()`: absent, or a string the URL check
      accepts. The URL check itself (zod's `.url()`) is the parameter
      `isUrl`. */
  predicate UrlFieldOk(f: Field, isUrl: string -> bool) {
    f.Absent? || (f.Str? && isUrl(f.s))
  }

  /** `z.string().optional()` */
  predicate TextFieldOk(f: Field) {
    f.Absent? || f.Str?
  }

  function OptionalString(f: Field): Option<string> {
    if f.Str? then Some(f.s) else None
  }

  /** The names of the fields that fail validation, in schema order (zod
      reports every failing field, not just the first). */
  function RequestIssues(b: RequestBody, isUrl: string -> bool): (issues: seq<string>)
    ensures "inputType" in issues <==> !(b.inputType.Str? && ParseInputType(b.inputType.s).Some?)
    ensures "youtubeUrl" in issues <==> !UrlFieldOk(b.youtubeUrl, isUrl)
    ensures "textContent" in issues <==> !TextFieldOk(b.textContent)
    ensures "summaryLength" in issues <==> !(b.summaryLength.Str? && ParseLength(b.summaryLength.s).Some?)
    ensures "language" in issues <==> !(b.language.Str? && ParseLanguage(b.language.s).Some?)
    ensures |issues| <= 5
  {
    var t := b.inputType.Str? && ParseInputType(b.inputType.s).Some?;
    var u := UrlFieldOk(b.youtubeUrl, isUrl);
    var x := TextFieldOk(b.textContent);
    var l := b.summaryLength.Str? && ParseLength(b.summaryLength.s).Some?;
    var g := b.language.Str? && ParseLanguage(b.language.s).Some?;
    IssuesNameFailures(t, u, x, l, g);
    Issues(t, u, x, l, g)
  }

  /** The names of the failing fields among the five, in schema order. */
  function Issues(t: bool, u: bool, x: bool, l: bool, g: bool): seq<string> {
    (if t then [] else ["inputType"])
    + (if u then [] else ["youtubeUrl"])
    + (if x then [] else ["textContent"])
    + (if l then [] else ["summaryLength"])
    + (if g then [] else ["language"])
  }

  lemma IssuesNameFailures(t: bool, u: bool, x: bool, l: bool, g: bool)
    ensures "inputType" in Issues(t, u, x, l, g) <==> !t
    ensures "youtubeUrl" in Issues(t, u, x, l, g) <==> !u
    ensures "textContent" in Issues(t, u, x, l, g) <==> !x
    ensures "summaryLength" in Issues(t, u, x, l, g) <==> !l
    ensures "language" in Issues(t, u, x, l, g) <==> !g
    ensures |Issues(t, u, x, l, g)| <= 5
  {
  }

  /** `summaryRequestSchema.safeParse(body)`: succeeds exactly when no
      field fails, and then carries the body's values unchanged. */
  function ParseRequest(b: RequestBody, isUrl: string -> bool): (r: Result<SummaryRequest, seq<string>>)
    ensures r.Ok? <==> |RequestIssues(b, isUrl)| == 0
    ensures r.Err? ==> r.error == RequestIssues(b, isUrl) && |r.error| > 0
    ensures r.Ok? ==> EncodeRequest(r.value) == b
    ensures r.Ok? ==> (r.value.youtubeUrl.Some? ==> isUrl(r.value.youtubeUrl.value))
  {
    var issues := RequestIssues(b, isUrl);
    if |issues| > 0 then Err(issues)
    else Ok(SummaryRequest(
      ParseInputType(b.inputType.s).value,
      OptionalString(b.youtubeUrl),
      OptionalString(b.textContent),
      ParseLength(b.summaryLength.s).value,
      ParseLanguage(b.language.s).value))
  }

  /** The JSON body a client sends for a request (`JSON.stringify`). */
  function EncodeRequest(req: SummaryRequest): RequestBody {
    RequestBody(
      Str(InputTypeName(req.inputType)),
      if req.youtubeUrl.Some? then Str(req.youtubeUrl.value) else Absent,
      if req.textContent.Some? then Str(req.textContent.value) else Absent,
      Str(LengthName(req.summaryLength)),
      Str(LanguageName(req.language)))
  }

  /** Every request whose URL (if any) passes the URL check survives an
      encode/parse round trip unchanged. */
  lemma RequestRoundTrip(req: SummaryRequest, isUrl: string -> bool)
    requires req.youtubeUrl.Some? ==> isUrl(req.youtubeUrl.value)
    ensures ParseRequest(EncodeRequest(req), isUrl) == Ok(req)
  {
    assert |RequestIssues(EncodeRequest(req), isUrl)| == 0;
  }

  /** `summaryResponseSchema`'s shape. `generatedAt` is a `Date`, modelled
      as a timestamp. */
  datatype SummaryResponse = SummaryResponse(
    source: string,
    summary: string,
    keyPoints: seq<string>,
    generatedAt: int)

  /** A decoded response body: `keyPoints` is `None` when it is not an
      array, `generatedAt` is `None` when it is not a `Date`. */
  datatype ResponseBody = ResponseBody(
    source: Field,
    summary: Field,
    keyPoints: Option<seq<Field>>,
    generatedAt: Option<int>)

  /** `summaryResponseSchema.safeParse`: strings where strings are due, an
      array of strings of any length (the empty array included), a date. */
  function ParseResponse(b: ResponseBody): (r: Option<SummaryResponse>)
    ensures r.Some? <==>
      b.source.Str? && b.summary.Str? && b.generatedAt.Some? && b.keyPoints.Some?
      && forall k :: 0 <= k < |b.keyPoints.value| ==> b.keyPoints.value[k].Str?
    ensures r.Some? ==> EncodeResponse(r.value) == b
  {
    if b.source.Str? && b.summary.Str? && b.generatedAt.Some? && b.keyPoints.Some?
      && forall k :: 0 <= k < |b.keyPoints.value| ==> b.keyPoints.value[k].Str?
    then
      var kp := b.keyPoints.value;
      var points := seq(|kp|, k requires 0 <= k < |kp| => kp[k].s);
      assert EncodeResponse(SummaryResponse(b.source.s, b.summary.s, points, b.generatedAt.value)).keyPoints.value == kp;
      Some(SummaryResponse(b.source.s, b.summary.s, points, b.generatedAt.value))
    else None
  }

  function EncodeResponse(r: SummaryResponse): ResponseBody {
    ResponseBody(Str(r.source), Str(r.summary),
      Some(seq(|r.keyPoints|, k requires 0 <= k < |r.keyPoints| => Str(r.keyPoints[k]))),
      Some(r.generatedAt))
  }

  lemma ResponseRoundTrip(r: SummaryResponse)
    ensures ParseResponse(EncodeResponse(r)) == Some(r)
  {
    var b := EncodeResponse(r);
    var kp := b.keyPoints.value;
    assert seq(|kp|, k requires 0 <= k < |kp| => kp[k].s) == r.keyPoints;
  }

  /** A row of the `users` table. */
  datatype User = User(id: int, username: string, password: string)

  /** `insertUserSchema`: only `username` and `password` are picked. */
  datatype InsertUser = InsertUser(username: string, password: string)

  /** A row of the `summaries` table; `userId`, `keyPoints` and `createdAt`
      are nullable columns. */
  datatype Summary = Summary(
    id: int,
    userId: Option<int>,
    inputType: string,
    source: string,
    content: string,
    keyPoints: Option<seq<string>>,
    createdAt: Option<int>)

  /** `insertSummarySchema`: every column except `id` and `createdAt`. */
  datatype InsertSummary = InsertSummary(
    userId: Option<int>,
    inputType: string,
    source: string,
    content: string,
    keyPoints: Option<seq<string>>)

  /** `{ ...insertUser, id }` */
  function WithUserId(u: InsertUser, id: int): User {
    User(id, u.username, u.password)
  }

  /** The insert shape of a user row: everything but the id. */
  function ToInsertUser(u: User): InsertUser {
    InsertUser(u.username, u.password)
  }

  /** `{ ...insertSummary, id, createdAt }` */
  function WithSummaryId(s: InsertSummary, id: int, createdAt: int): Summary {
    Summary(id, s.userId, s.inputType, s.source, s.content, s.keyPoints, Some(createdAt))
  }

  /** The insert shape of a summary row: everything but `id` and
      `createdAt`. */
  function ToInsertSummary(s: Summary): InsertSummary {
    InsertSummary(s.userId, s.inputType, s.source, s.content, s.keyPoints)
  }

  /** A row is exactly its insert shape plus the columns the store assigns,
      in both directions. */
  lemma InsertShapes(iu: InsertUser, u: User, ins: InsertSummary, s: Summary, id: int, now: int)
    ensures ToInsertUser(WithUserId(iu, id)) == iu && WithUserId(iu, id).id == id
    ensures WithUserId(ToInsertUser(u), u.id) == u
    ensures ToInsertSummary(WithSummaryId(ins, id, now)) == ins
    ensures WithSummaryId(ins, id, now).id == id && WithSummaryId(ins, id, now).createdAt == Some(now)
    ensures s.createdAt.Some? ==> WithSummaryId(ToInsertSummary(s), s.id, s.createdAt.value) == s
  {
  }
}
