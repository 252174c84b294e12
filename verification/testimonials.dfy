/**
 * The testimonial stack on the home page: a ring of four testimonials, a
 * window of two cards of which the first is the active one, up/down buttons
 * and arrow keys that step around the ring, and a visibility latch for the
 * section's image.
 */
module Testimonials {
  import Ring
  import Reveal

  /** A testimonial; the quote text and avatar are display-only. */
  datatype Testimonial = Testimonial(id: nat, rating: nat, author: string, position: string)

  /** A window entry: the testimonial, whether it is the highlighted one, and its slot. */
  datatype Shown = Shown(testimonial: Testimonial, isActive: bool, position: nat)

  /** Two cards are stacked on screen. */
  const WindowSize: nat := 2

  const TestimonialData: seq<Testimonial> := [
    Testimonial(1, 5, "Aarav Shrestha", "Undergraduate Student"),
    Testimonial(2, 5, "Priya Thapa", "Graduate Student"),
    Testimonial(3, 5, "Rohan Koirala", "Masters Student"),
    Testimonial(4, 5, "Sanya Acharya", "Undergraduate Student")
  ]

  datatype State = State(activeIndex: nat, isVisible: bool)

  const Initial: State := State(0, Reveal.Hidden)

  /** The inputs: the two buttons, a key press anywhere on the page, and an observer firing. */
  datatype Event = UpClicked | DownClicked | KeyDown(key: string) | Observed(isIntersecting: bool)

  function HandleUpArrow(active: nat): (r: nat)
    ensures r < |TestimonialData|
    ensures active < |TestimonialData| ==> r == Ring.Advance(active, 1, |TestimonialData|)
  {
    Ring.Next(active, |TestimonialData|)
  }

  function HandleDownArrow(active: nat): (r: nat)
    ensures r < |TestimonialData|
    ensures active < |TestimonialData| ==> HandleUpArrow(r) == active
  {
    if active < |TestimonialData| then
      Ring.PrevNext(active, |TestimonialData|); Ring.Prev(active, |TestimonialData|)
    else
      Ring.Prev(active, |TestimonialData|)
  }

  /** The key handler: the two arrow keys step the stack, every other key is ignored. */
  function HandleKeyDown(active: nat, key: string): (r: nat)
    ensures key == "ArrowUp" ==> r == HandleUpArrow(active)
    ensures key == "ArrowDown" ==> r == HandleDownArrow(active)
    ensures key != "ArrowUp" && key != "ArrowDown" ==> r == active
  {
    if key == "ArrowUp" then HandleUpArrow(active)
    else if key == "ArrowDown" then HandleDownArrow(active)
    else active
  }

  /**
   * One event. The buttons and the arrow keys drive the same handlers; an
   * observer firing only ever sets the visibility latch.
   */
  function Step(s: State, e: Event): (r: State)
    ensures (e == UpClicked || e == KeyDown("ArrowUp")) ==> r == s.(activeIndex := HandleUpArrow(s.activeIndex))
    ensures (e == DownClicked || e == KeyDown("ArrowDown")) ==> r == s.(activeIndex := HandleDownArrow(s.activeIndex))
    ensures e.KeyDown? && e.key != "ArrowUp" && e.key != "ArrowDown" ==> r == s
    ensures e.Observed? ==> r.activeIndex == s.activeIndex && (r.isVisible <==> s.isVisible || e.isIntersecting)
  {
    match e
    case UpClicked => s.(activeIndex := HandleUpArrow(s.activeIndex))
    case DownClicked => s.(activeIndex := HandleDownArrow(s.activeIndex))
    case KeyDown(key) => s.(activeIndex := HandleKeyDown(s.activeIndex, key))
    case Observed(hit) => s.(isVisible := Reveal.Observe(s.isVisible, hit))
  }

  function Run(s: State, events: seq<Event>): State
    decreases |events|
  {
    if |events| == 0 then s else Run(Step(s, events[0]), events[1..])
  }

  /** The stacked cards: two consecutive testimonials, the first one active. */
  function VisibleTestimonials(active: nat): (shown: seq<Shown>)
    requires active < |TestimonialData|
    ensures |shown| == WindowSize
    ensures forall k :: 0 <= k < WindowSize ==>
      && shown[k].position == k
      && shown[k].testimonial == TestimonialData[Ring.Advance(active, k, |TestimonialData|)]
      && (shown[k].isActive <==> k == 0)
  {
    var slots := Ring.Window(active, WindowSize, |TestimonialData|);
    seq(WindowSize, k requires 0 <= k < WindowSize =>
      Shown(TestimonialData[slots[k]], k == 0, k))
  }

  /** Exactly one stacked card is highlighted, and it is the active testimonial. */
  lemma ExactlyOneActive(active: nat)
    requires active < |TestimonialData|
    ensures var shown := VisibleTestimonials(active);
      (forall k, k' :: 0 <= k < WindowSize && 0 <= k' < WindowSize && shown[k].isActive && shown[k'].isActive ==> k == k') &&
      shown[0].isActive && shown[0].testimonial == TestimonialData[active]
  {
  }

  /** The two stacked cards are different testimonials. */
  lemma StackDistinct(active: nat)
    requires active < |TestimonialData|
    ensures VisibleTestimonials(active)[0].testimonial != VisibleTestimonials(active)[1].testimonial
  {
    var w := Ring.Window(active, WindowSize, |TestimonialData|);
    assert TestimonialData[w[0]].id == w[0] + 1 && TestimonialData[w[1]].id == w[1] + 1;
  }

  /** Down undoes up and up undoes down. */
  lemma ArrowRoundTrip(active: nat)
    requires active < |TestimonialData|
    ensures HandleDownArrow(HandleUpArrow(active)) == active
    ensures HandleUpArrow(HandleDownArrow(active)) == active
  {
    Ring.PrevNext(active, |TestimonialData|);
  }

  /** Every event keeps the active index on the ring. */
  lemma {:induction false} RunInRange(s: State, events: seq<Event>)
    requires s.activeIndex < |TestimonialData|
    ensures Run(s, events).activeIndex < |TestimonialData|
    decreases |events|
  {
    if |events| > 0 {
      RunInRange(Step(s, events[0]), events[1..]);
    }
  }

  /** Once shown, the section stays shown, whatever else happens. */
  lemma {:induction false} VisibleStaysVisible(s: State, events: seq<Event>)
    requires s.isVisible
    ensures Run(s, events).isVisible
    decreases |events|
  {
    if |events| > 0 {
      VisibleStaysVisible(Step(s, events[0]), events[1..]);
    }
  }

  /** Navigation never touches the visibility flag, and observer firings never move the stack. */
  lemma EventsAreIndependent(s: State, e: Event)
    ensures !e.Observed? ==> Step(s, e).isVisible == s.isVisible
    ensures e.Observed? ==> Step(s, e).activeIndex == s.activeIndex
  {
  }
}
