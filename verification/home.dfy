/** The home page's state: the loading flag, whether the results panel is
    shown, the last result and the last error. A submission is two
    transitions, one before the request and one when its outcome is
    known. */
module Home {
  import opened Wrappers
  import opened Schema
  import Strings
  import Results

  datatype HomeState = HomeState(
    loading: bool,
    showResults: bool,
    result: Option<SummaryResponse>,
    error: Option<string>)

  const FallbackError := "Failed to generate summary"
  const UnknownError := "An unknown error occurred"

  function Initial(): (st: HomeState)
    ensures !st.loading && !st.showResults && st.result.None? && st.error.None?
  {
    HomeState(false, false, None, None)
  }

  /** How the request to `/api/summarize` ended: a 2xx response with its
      decoded body, a non-2xx response with the `message` of its body (if
      that is a string), or a thrown value (an `Error` with its message,
      or `None` for anything else). */
  datatype FetchOutcome =
    | Success(response: SummaryResponse)
    | ErrorStatus(message: Option<string>)
    | Thrown(errorMessage: Option<string>)

  /** The first half of `handleSummarySubmit`. */
  function SubmitStart(st: HomeState): (st': HomeState)
    ensures st'.loading && st'.showResults && st'.error.None?
    ensures st'.result == st.result
  {
    st.(loading := true, showResults := true, error := None)
  }

  /** The error message a failed request leaves: the body's message unless
      it is missing or empty, or the thrown error's message. */
  function ErrorMessage(o: FetchOutcome): (m: string)
    requires !o.Success?
    ensures o.ErrorStatus? && Strings.Truthy(o.message) ==> m == o.message.value
    ensures o.ErrorStatus? && !Strings.Truthy(o.message) ==> m == FallbackError
    ensures o.Thrown? && o.errorMessage.Some? ==> m == o.errorMessage.value
    ensures o.Thrown? && o.errorMessage.None? ==> m == UnknownError
  {
    match o
    case ErrorStatus(msg) => if Strings.Truthy(msg) then msg.value else FallbackError
    case Thrown(e) => if e.Some? then e.value else UnknownError
  }

  /** The second half: the `try`, `catch` and `finally` of
      `handleSummarySubmit` once the outcome is known. */
  function SubmitFinish(st: HomeState, o: FetchOutcome): (st': HomeState)
    ensures !st'.loading && st'.showResults == st.showResults
    ensures o.Success? ==> st'.result == Some(o.response) && st'.error.None?
    ensures !o.Success? ==> st'.result == st.result && st'.error == Some(ErrorMessage(o))
  {
    match o
    case Success(r) => st.(result := Some(r), error := None, loading := false)
    case _ => st.(error := Some(ErrorMessage(o)), loading := false)
  }

  /** A whole submission: after it the panel is shown and nothing is
      loading; success stores the result with no error, failure keeps any
      earlier result and records an error. */
  function Submit(st: HomeState, o: FetchOutcome): (st': HomeState)
    ensures !st'.loading && st'.showResults
    ensures o.Success? ==> st'.result == Some(o.response) && st'.error.None?
    ensures !o.Success? ==> st'.result == st.result && st'.error.Some?
  {
    SubmitFinish(SubmitStart(st), o)
  }

  /** `resetResults`: hide the panel and forget result and error. */
  function Reset(st: HomeState): (st': HomeState)
    ensures !st'.showResults && st'.result.None? && st'.error.None?
    ensures st'.loading == st.loading
  {
    st.(showResults := false, result := None, error := None)
  }

  /** The results panel, when the page shows one. */
  function Page(st: HomeState): (v: Option<Results.View>)
    ensures v.Some? <==> st.showResults
  {
    if st.showResults then Some(Results.Render(st.loading, st.result, st.error)) else None
  }

  /** During a request the panel shows only the spinner; a success then
      shows the card of the new result; a failure with a non-empty message
      shows that message and hides any earlier result. */
  lemma SubmitShows(st: HomeState, o: FetchOutcome)
    ensures Page(SubmitStart(st)) == Some(Results.View(true, None, None))
    ensures o.Success? ==>
      Page(Submit(st, o)) == Some(Results.View(false, None, Some(Results.CardOf(o.response))))
    ensures !o.Success? && ErrorMessage(o) != [] ==>
      Page(Submit(st, o)) == Some(Results.View(false, Some(ErrorMessage(o)), None))
  {
  }

  /** A failed response always carries a non-empty message to show, so
      the alert appears; only a thrown error with an empty message would
      show nothing. */
  lemma ErrorStatusAlwaysAlerts(st: HomeState, m: Option<string>)
    ensures Page(Submit(st, ErrorStatus(m))).value.errorAlert.Some?
  {
  }

  /** After a reset the page shows no panel, and the next submission
      starts from no result. */
  lemma ResetForgets(st: HomeState, o: FetchOutcome)
    ensures Page(Reset(st)).None?
    ensures !o.Success? ==> Submit(Reset(st), o).result.None?
  {
  }
}
