/**
 * The one-shot visibility latch shared by the testimonial, about-intro and social
 * sections: the intersection-observer callback sets `isVisible` to true when
 * its entry is intersecting and otherwise does nothing, so the flag only ever
 * moves from false to true. Each observer firing is modelled by the one
 * boolean the callback reads, `entry.isIntersecting`.
 */
module Reveal {
  import Text
  import Arith

  /** The state every section starts in: not yet revealed. */
  const Hidden: bool := false

  /** One observer firing. */
  function Observe(isVisible: bool, isIntersecting: bool): (r: bool)
    ensures isVisible ==> r
    ensures isIntersecting ==> r
    ensures !isIntersecting ==> r == isVisible
  {
    if isIntersecting then true else isVisible
  }

  /** A run of observer firings, processed in order. */
  function ObserveAll(isVisible: bool, entries: seq<bool>): bool
    decreases |entries|
  {
    if |entries| == 0 then isVisible
    else ObserveAll(Observe(isVisible, entries[0]), entries[1..])
  }

  /** After any run the section is visible iff it was already, or some entry intersected. */
  lemma {:induction false} ObserveAllCharacterised(isVisible: bool, entries: seq<bool>)
    ensures ObserveAll(isVisible, entries) <==> isVisible || exists k :: 0 <= k < |entries| && entries[k]
    decreases |entries|
  {
    if |entries| > 0 {
      ObserveAllCharacterised(Observe(isVisible, entries[0]), entries[1..]);
      if entries[0] {
        assert exists k :: 0 <= k < |entries| && entries[k];
      }
      assert forall k :: 1 <= k < |entries| ==> entries[k] == entries[1..][k - 1];
      if exists k :: 0 <= k < |entries[1..]| && entries[1..][k] {
        var k :| 0 <= k < |entries[1..]| && entries[1..][k];
        assert entries[k + 1];
      }
    }
  }

  /** The latch never resets: once visible, every later run leaves it visible. */
  lemma NeverResets(entries: seq<bool>)
    ensures ObserveAll(true, entries)
  {
    ObserveAllCharacterised(true, entries);
  }

  /** Firings may be split into batches at any point without changing the outcome. */
  lemma {:induction false} ObserveAllAppend(isVisible: bool, a: seq<bool>, b: seq<bool>)
    ensures ObserveAll(isVisible, a + b) == ObserveAll(ObserveAll(isVisible, a), b)
    decreases |a|
  {
    if |a| > 0 {
      assert (a + b)[1..] == a[1..] + b;
      ObserveAllAppend(Observe(isVisible, a[0]), a[1..], b);
    } else {
      assert a + b == b;
    }
  }

  /** The classes a sliding text block carries before and after the section appears. */
  const SlideOut: string := "-translate-x-10 opacity-0"
  const SlideIn: string := "translate-x-0 opacity-100"

  /** The classes a zooming image tile carries before and after the section appears. */
  const ZoomOut: string := "scale-95 opacity-0"
  const ZoomIn: string := "scale-100 opacity-100"

  function TextReveal(isVisible: bool): (c: string)
    ensures c == SlideIn <==> isVisible
  {
    if isVisible then SlideIn else SlideOut
  }

  function ImageReveal(isVisible: bool): (c: string)
    ensures c == ZoomIn <==> isVisible
  {
    if isVisible then ZoomIn else ZoomOut
  }

  /** The Tailwind class `delay-${ms}` interpolated from a number of milliseconds. */
  function DelayClass(ms: nat): (c: string)
    ensures 6 < |c| && c[..6] == "delay-"
    ensures forall k :: 6 <= k < |c| ==> Text.IsDigit(c[k])
    ensures Text.ParseDigits(c[6..]) == ms
  {
    Text.ParseNatToString(ms);
    var c := "delay-" + Text.NatToString(ms);
    assert c[6..] == Text.NatToString(ms);
    c
  }

  /** Different delays give different classes. */
  lemma DelayClassInjective(m: nat, n: nat)
    requires DelayClass(m) == DelayClass(n)
    ensures m == n
  {
  }

  /** A whole number of hundreds of milliseconds is written as its digit followed by "00". */
  lemma HundredsDelay(d: nat)
    requires 1 <= d <= 9
    ensures DelayClass(d * 100) == "delay-" + [Text.DigitChar(d), '0', '0']
  {
    Arith.DivModUnique(d * 100, 10, d * 10, 0);
    Arith.DivModUnique(d * 10, 10, d, 0);
    assert Text.DigitChar(0) == '0';
    assert Text.NatToString(d * 10) == Text.NatToString(d) + ['0'];
    assert Text.NatToString(d * 100) == Text.NatToString(d * 10) + ['0'];
    assert Text.NatToString(d * 100) == [Text.DigitChar(d), '0', '0'];
  }

  /** A zero delay is written "delay-0". */
  lemma ZeroDelay()
    ensures DelayClass(0) == "delay-0"
  {
  }
}
