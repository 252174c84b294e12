/**
 * The partner-university strip on the home page: a horizontally scrolling
 * row of cards with a `currentIndex` that the scroll handler clamps to the
 * list. The handler is defined but no element in the markup calls it, so on
 * the live page `currentIndex` stays at its initial value; the model states
 * what the handler would do.
 */
module Uni {
  datatype University = University(id: nat, name: string, img: string)

  /** Eight partner universities, ids 1 to 8. */
  const Universities: seq<University> := [
    University(1, "University of Tokyo", "Uni/uni1.jpeg"),
    University(2, "Kyoto University", "Uni/uni2.jpeg"),
    University(3, "Waseda University", "Uni/uni3.jpeg"),
    University(4, "Keio University", "Uni/uni4.jpeg"),
    University(5, "Nagoya University", "Uni/uni5.jpeg"),
    University(6, "Tohoku University", "Uni/uni6.jpeg"),
    University(7, "Kyushu University", "Uni/uni7.jpeg"),
    University(8, "Sophia University", "Uni/uni8.jpeg")
  ]

  /** Pixels one press scrolls: a card plus its gap. */
  const CardWidth: int := 320

  /** What one call of the handler does: the new index and the horizontal scroll it requests. */
  datatype Outcome = Outcome(index: int, scrollBy: int)

  /**
   * `direction` is the string argument; anything but "left" scrolls right.
   * Without a mounted container the handler returns before doing anything.
   */
  function Scroll(current: int, direction: string, hasContainer: bool): (o: Outcome)
    ensures !hasContainer ==> o == Outcome(current, 0)
    ensures hasContainer && direction == "left" ==>
      o.scrollBy == -CardWidth && o.index == (if current <= 0 then 0 else current - 1)
    ensures hasContainer && direction != "left" ==>
      o.scrollBy == CardWidth &&
      o.index == (if current >= |Universities| - 1 then |Universities| - 1 else current + 1)
  {
    if !hasContainer then Outcome(current, 0)
    else if direction == "left" then Outcome(Max(0, current - 1), -CardWidth)
    else Outcome(Min(|Universities| - 1, current + 1), CardWidth)
  }

  function Max(a: int, b: int): int { if a >= b then a else b }
  function Min(a: int, b: int): int { if a <= b then a else b }

  /** One press on a mounted strip. */
  datatype Press = Left | Right

  function DirectionOf(p: Press): string
  {
    if p.Left? then "left" else "right"
  }

  function Run(current: int, presses: seq<Press>): int
    decreases |presses|
  {
    if |presses| == 0 then current
    else Run(Scroll(current, DirectionOf(presses[0]), true).index, presses[1..])
  }

  predicate InRange(i: int)
  {
    0 <= i < |Universities|
  }

  /** From an index inside the list, every press stays inside it. */
  lemma ScrollInRange(current: int, direction: string, hasContainer: bool)
    requires InRange(current)
    ensures InRange(Scroll(current, direction, hasContainer).index)
  {
  }

  /** Whatever the starting value, "left" never goes below the first card and "right" never past the last. */
  lemma ScrollClamps(current: int)
    ensures 0 <= Scroll(current, "left", true).index
    ensures Scroll(current, "right", true).index <= |Universities| - 1
  {
  }

  lemma {:induction false} RunInRange(current: int, presses: seq<Press>)
    requires InRange(current)
    ensures InRange(Run(current, presses))
    decreases |presses|
  {
    if |presses| > 0 {
      ScrollInRange(current, DirectionOf(presses[0]), true);
      RunInRange(Scroll(current, DirectionOf(presses[0]), true).index, presses[1..]);
    }
  }

  /** The ends saturate: left at the first card and right at the last change nothing. */
  lemma ScrollSaturates()
    ensures Scroll(0, "left", true).index == 0
    ensures Scroll(|Universities| - 1, "right", true).index == |Universities| - 1
  {
  }

  /** Right undoes left everywhere except at the first card. */
  lemma LeftThenRight(current: int)
    requires 0 < current < |Universities|
    ensures Scroll(Scroll(current, "left", true).index, "right", true).index == current
  {
  }

  /** Left undoes right everywhere except at the last card. */
  lemma RightThenLeft(current: int)
    requires 0 <= current < |Universities| - 1
    ensures Scroll(Scroll(current, "right", true).index, "left", true).index == current
  {
  }

  /** Pressing right k times from any card reaches card min(current + k, 7). */
  lemma {:induction false} RepeatedRight(current: int, k: nat)
    requires InRange(current)
    ensures Run(current, seq(k, _ => Right)) == Min(|Universities| - 1, current + k)
    decreases k
  {
    if k > 0 {
      var presses := seq(k, _ => Right);
      assert presses[0] == Right;
      assert presses[1..] == seq(k - 1, _ => Right);
      RepeatedRight(Scroll(current, "right", true).index, k - 1);
    }
  }
}
