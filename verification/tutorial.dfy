/** The first-visit tutorial overlay: six steps, a current step, whether
    the overlay is shown, and the `hasSeenTutorial` entry of the browser's
    local storage. Every handler is a pure state transition. */
module Tutorial {
  import opened Wrappers
  import opened Strings

  datatype Position = Top | Right | Bottom | Left | Center

  datatype Step = Step(title: string, target: string, position: Position)

  const Steps: seq<Step> := [
    Step("Welcome!", "body", Center),
    Step("Source Selection", ".source-selector", Bottom),
    Step("YouTube Video Link", ".youtube-input", Bottom),
    Step("Text Input", ".text-input", Bottom),
    Step("Summary Length", ".summary-length", Top),
    Step("Get Your Summary in Minutes!", ".generate-btn", Top)
  ]

  const SeenKey := "hasSeenTutorial"

  /** `seen` is the stored value of the seen-flag, `None` when the key is
      absent; `timerPending` says whether the one-second timer scheduled on
      mount has yet to fire. */
  datatype TutorialState = TutorialState(show: bool, step: int, seen: Option<string>, timerPending: bool)

  /** The step stays a valid index into `Steps`. */
  predicate Valid(st: TutorialState) {
    0 <= st.step < |Steps|
  }

  /** Whether mounting schedules the overlay to appear: only when the flag
      is missing (or empty, which JavaScript also reads as false). */
  function SchedulesShow(seen: Option<string>): (b: bool)
    ensures b <==> !Truthy(seen)
    ensures seen == Some("true") ==> !b
  {
    seen.None? || seen.value == []
  }

  /** Component state right after mounting, with the stored flag: the timer
      is pending exactly when the flag is falsy. */
  function Mounted(seen: Option<string>): (st: TutorialState)
    ensures Valid(st) && !st.show && st.step == 0 && st.seen == seen
    ensures st.timerPending <==> !Truthy(seen)
  {
    TutorialState(false, 0, seen, SchedulesShow(seen))
  }

  /** The timer event: the timer scheduled on mount fires once and shows
      the overlay; when none is pending nothing happens. */
  function TimerFired(st: TutorialState): (st': TutorialState)
    ensures st.timerPending ==> st'.show && st'.step == st.step && st'.seen == st.seen && !st'.timerPending
    ensures !st.timerPending ==> st' == st
  {
    if st.timerPending then st.(show := true, timerPending := false) else st
  }

  /** `completeTutorial`: mark the tutorial as seen and hide it. */
  function Complete(st: TutorialState): (st': TutorialState)
    ensures !st'.show && st'.seen == Some("true") && st'.step == st.step
  {
    st.(seen := Some("true"), show := false)
  }

  /** `skipTutorial`, written separately in the component. */
  function Skip(st: TutorialState): (st': TutorialState)
    ensures !st'.show && st'.seen == Some("true") && st'.step == st.step
  {
    TutorialState(false, st.step, Some("true"), st.timerPending)
  }

  /** Completing and skipping have the same effect, and both leave a flag
      that keeps the overlay from being scheduled on the next visit. */
  lemma CompleteIsSkip(st: TutorialState)
    ensures Complete(st) == Skip(st)
    ensures !SchedulesShow(Complete(st).seen)
  {
  }

  /** `handleNext`: advance, or complete at the last step. */
  function Next(st: TutorialState): (st': TutorialState)
    ensures st.step < |Steps| - 1 ==> st' == st.(step := st.step + 1)
    ensures st.step >= |Steps| - 1 ==> st' == Complete(st)
    ensures Valid(st) ==> Valid(st')
  {
    if st.step < |Steps| - 1 then st.(step := st.step + 1) else Complete(st)
  }

  /** `handlePrevious`: go back one step; nothing happens at the first. */
  function Previous(st: TutorialState): (st': TutorialState)
    ensures st.step > 0 ==> st' == st.(step := st.step - 1)
    ensures st.step <= 0 ==> st' == st
    ensures Valid(st) ==> Valid(st')
  {
    if st.step > 0 then st.(step := st.step - 1) else st
  }

  /** Previous undoes Next before the last step, and Next undoes Previous
      after the first. */
  lemma NextPreviousInverse(st: TutorialState)
    requires Valid(st)
    ensures st.step < |Steps| - 1 ==> Previous(Next(st)) == st
    ensures st.step > 0 ==> Next(Previous(st)) == st
  {
    assert |Steps| == 6;
  }

  /** `resetTutorial`: remove the flag, go to the first step, show. A
      timer still pending from mount is left as it is. */
  function Reset(st: TutorialState): (st': TutorialState)
    ensures st'.show && st'.step == 0 && st'.seen.None? && st'.timerPending == st.timerPending
    ensures Valid(st') && SchedulesShow(st'.seen)
  {
    st.(show := true, step := 0, seen := None)
  }

  datatype Event = NextClicked | PreviousClicked | CloseClicked | ResetClicked | Timer

  /** The handler each event runs. The close button skips; Finish is the
      Next button at the last step. */
  function Apply(st: TutorialState, e: Event): TutorialState {
    match e
    case NextClicked => Next(st)
    case PreviousClicked => Previous(st)
    case CloseClicked => Skip(st)
    case ResetClicked => Reset(st)
    case Timer => TimerFired(st)
  }

  function Run(st: TutorialState, es: seq<Event>): TutorialState
    decreases |es|
  {
    if es == [] then st else Run(Apply(st, es[0]), es[1..])
  }

  /** Whatever the user clicks, the current step stays between the first
      and the last step. */
  lemma {:induction false} RunKeepsStepInRange(st: TutorialState, es: seq<Event>)
    requires Valid(st)
    ensures Valid(Run(st, es))
    decreases |es|
  {
    if es != [] {
      var st1 := Apply(st, es[0]);
      assert Valid(st1);
      RunKeepsStepInRange(st1, es[1..]);
    }
  }

  /** Without the reset button, a hidden overlay with no timer pending
      stays hidden: every other handler either keeps `show` or clears it. */
  lemma {:induction false} HiddenStaysHidden(st: TutorialState, es: seq<Event>)
    requires !st.show && !st.timerPending
    requires forall i :: 0 <= i < |es| ==> es[i] != ResetClicked
    ensures !Run(st, es).show && !Run(st, es).timerPending
    decreases |es|
  {
    if es != [] {
      var st1 := Apply(st, es[0]);
      assert !st1.show && !st1.timerPending;
      HiddenStaysHidden(st1, es[1..]);
    }
  }

  /** A returning visitor, whose stored flag is truthy, never sees the
      overlay unless they reset it; a first-time visitor sees it once the
      timer fires. */
  lemma ReturningVisitorNotShown(seen: Option<string>, es: seq<Event>)
    ensures Truthy(seen) && (forall i :: 0 <= i < |es| ==> es[i] != ResetClicked) ==> !Run(Mounted(seen), es).show
    ensures !Truthy(seen) ==> Run(Mounted(seen), [Timer]).show
  {
    if Truthy(seen) && (forall i :: 0 <= i < |es| ==> es[i] != ResetClicked) {
      HiddenStaysHidden(Mounted(seen), es);
    }
    assert Run(Mounted(seen), [Timer]) == Run(TimerFired(Mounted(seen)), []);
  }

  /** What the component renders. */
  datatype View =
    | ShowTutorialButton
    | Overlay(title: string, previousButton: bool, progress: (int, int), nextLabel: string)

  function Render(st: TutorialState): (v: View)
    requires Valid(st)
    ensures !st.show <==> v == ShowTutorialButton
    ensures v.Overlay? ==> v.title == Steps[st.step].title
    ensures v.Overlay? ==> (v.previousButton <==> st.step > 0)
    ensures v.Overlay? ==> v.progress == (st.step + 1, 6)
    ensures v.Overlay? ==> (v.nextLabel == "Finish" <==> st.step == 5)
  {
    if !st.show then ShowTutorialButton
    else Overlay(
      Steps[st.step].title,
      st.step > 0,
      (st.step + 1, |Steps|),
      if st.step < |Steps| - 1 then "Next" else "Finish")
  }

  /** Clicking the button labelled Finish closes the overlay and records
      the flag; clicking Next anywhere else moves one step on. */
  lemma FinishCloses(st: TutorialState)
    requires Valid(st) && st.show
    ensures Render(st).nextLabel == "Finish" ==> !Next(st).show && Next(st).seen == Some("true")
    ensures Render(st).nextLabel != "Finish" ==> Next(st).show && Next(st).step == st.step + 1
  {
  }
}
