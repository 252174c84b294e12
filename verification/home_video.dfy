/**
 * The home page hero: a background video that fades in shortly after mount,
 * and a "watch" button that opens a full-screen modal with a second video.
 * Opening the modal locks page scrolling through the body's `overflow` style;
 * closing it restores scrolling and stops the modal video.
 */
module HomeVideo {
  /** The body's inline `overflow` style before the modal is ever opened. */
  const NoOverflowStyle: string := ""

  datatype State = State(isLoaded: bool, isModalOpen: bool, bodyOverflow: string)

  const Initial: State := State(false, false, NoOverflowStyle)

  datatype Event =
    | LoadTimerFired
    | WatchClicked
    | BackdropClicked
    | CloseButtonClicked
    | ContentClicked
    | KeyDown(key: string)

  /**
   * What a step does to the modal video element. The element exists exactly
   * while the modal is rendered, so `closeModal` pauses and rewinds it only
   * when the modal was open.
   */
  datatype Effect = NoEffect | PauseAndRewind

  datatype Outcome = Outcome(state: State, effect: Effect)

  function OpenModal(s: State): (r: State)
    ensures r.isModalOpen && r.bodyOverflow == "hidden" && r.isLoaded == s.isLoaded
  {
    s.(isModalOpen := true, bodyOverflow := "hidden")
  }

  function CloseModal(s: State): (o: Outcome)
    ensures !o.state.isModalOpen && o.state.bodyOverflow == "unset" && o.state.isLoaded == s.isLoaded
    ensures o.effect == PauseAndRewind <==> s.isModalOpen
  {
    Outcome(s.(isModalOpen := false, bodyOverflow := "unset"), if s.isModalOpen then PauseAndRewind else NoEffect)
  }

  /** The modal and its video are in the page exactly while it is open. */
  predicate ModalRendered(s: State)
  {
    s.isModalOpen
  }

  /**
   * One event. The close controls exist only inside the rendered modal; a click
   * on the modal's content stops propagation and so never reaches the backdrop.
   */
  function Step(s: State, e: Event): (o: Outcome)
    ensures e.KeyDown? && (e.key != "Escape" || !s.isModalOpen) ==> o == Outcome(s, NoEffect)
    ensures e.KeyDown? && e.key == "Escape" && s.isModalOpen ==>
      !o.state.isModalOpen && o.effect == PauseAndRewind
    ensures e.ContentClicked? ==> o == Outcome(s, NoEffect)
    ensures !e.LoadTimerFired? ==> o.state.isLoaded == s.isLoaded
  {
    match e
    case LoadTimerFired => Outcome(s.(isLoaded := true), NoEffect)
    case WatchClicked => Outcome(OpenModal(s), NoEffect)
    case BackdropClicked => if ModalRendered(s) then CloseModal(s) else Outcome(s, NoEffect)
    case CloseButtonClicked => if ModalRendered(s) then CloseModal(s) else Outcome(s, NoEffect)
    case ContentClicked => Outcome(s, NoEffect)
    case KeyDown(key) => if key == "Escape" && s.isModalOpen then CloseModal(s) else Outcome(s, NoEffect)
  }

  function Run(s: State, events: seq<Event>): State
    decreases |events|
  {
    if |events| == 0 then s else Run(Step(s, events[0]).state, events[1..])
  }

  /** Once the modal has been used, scrolling is locked exactly while it is open. */
  predicate OverflowTracksModal(s: State)
  {
    s.bodyOverflow == (if s.isModalOpen then "hidden" else "unset")
  }

  /** Before the first opening the body style is untouched and the modal closed. */
  predicate Consistent(s: State)
  {
    OverflowTracksModal(s) || (s.bodyOverflow == NoOverflowStyle && !s.isModalOpen)
  }

  lemma StepConsistent(s: State, e: Event)
    requires Consistent(s)
    ensures Consistent(Step(s, e).state)
  {
  }

  lemma {:induction false} RunConsistent(s: State, events: seq<Event>)
    requires Consistent(s)
    ensures Consistent(Run(s, events))
    ensures Run(s, events).isModalOpen ==> Run(s, events).bodyOverflow == "hidden"
    decreases |events|
  {
    if |events| > 0 {
      StepConsistent(s, events[0]);
      RunConsistent(Step(s, events[0]).state, events[1..]);
    }
  }

  /** The loaded flag only ever goes from false to true. */
  lemma {:induction false} LoadedNeverResets(s: State, events: seq<Event>)
    requires s.isLoaded
    ensures Run(s, events).isLoaded
    decreases |events|
  {
    if |events| > 0 {
      LoadedNeverResets(Step(s, events[0]).state, events[1..]);
    }
  }

  /** Closing twice leaves the same state as closing once, and the second close touches no video. */
  lemma CloseIdempotent(s: State)
    ensures CloseModal(CloseModal(s).state).state == CloseModal(s).state
    ensures CloseModal(CloseModal(s).state).effect == NoEffect
  {
  }

  /** Opening then closing returns the page to scrollable with the video stopped. */
  lemma OpenThenClose(s: State)
    ensures CloseModal(OpenModal(s)) == Outcome(s.(isModalOpen := false, bodyOverflow := "unset"), PauseAndRewind)
  {
  }

  /** Every way of closing an open modal has the same result. */
  lemma ClosingRoutesAgree(s: State)
    requires s.isModalOpen
    ensures Step(s, BackdropClicked) == Step(s, CloseButtonClicked) == Step(s, KeyDown("Escape")) == CloseModal(s)
  {
  }
}
