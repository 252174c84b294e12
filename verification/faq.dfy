/**
 * The FAQ accordion: a single `openIndex` that is either an item position or
 * `null`. Clicking an item's header closes it if it is the open one and
 * otherwise opens it, so at most one answer is ever expanded.
 */
module Faq {
  import opened Wrappers

  /** The page lists twenty-one questions. */
  const FaqCount: nat := 21

  /** The first answer is expanded on arrival. */
  const InitialOpen: Option<nat> := Some(0)

  /** Item `j` is rendered expanded. */
  predicate IsOpen(openIndex: Option<nat>, j: nat)
  {
    openIndex == Some(j)
  }

  /** A click on the header of item `i`. */
  function ToggleFaq(openIndex: Option<nat>, i: nat): (r: Option<nat>)
    ensures forall j :: IsOpen(r, j) <==> j == i && !IsOpen(openIndex, i)
  {
    if openIndex == Some(i) then None else Some(i)
  }

  function Run(openIndex: Option<nat>, clicks: seq<nat>): Option<nat>
    decreases |clicks|
  {
    if |clicks| == 0 then openIndex else Run(ToggleFaq(openIndex, clicks[0]), clicks[1..])
  }

  /** At most one answer is expanded, whatever the state. */
  lemma AtMostOneOpen(openIndex: Option<nat>, j: nat, j': nat)
    requires IsOpen(openIndex, j) && IsOpen(openIndex, j')
    ensures j == j'
  {
  }

  /** Opening a different item collapses the one that was open. */
  lemma ToggleOtherSwitches(j: nat, i: nat)
    requires i != j
    ensures ToggleFaq(Some(j), i) == Some(i)
    ensures !IsOpen(ToggleFaq(Some(j), i), j)
  {
  }

  /** Clicking the open item twice restores it. */
  lemma ToggleTwiceFromOpen(i: nat)
    ensures ToggleFaq(ToggleFaq(Some(i), i), i) == Some(i)
  {
  }

  /** From any other state, clicking `i` twice leaves everything collapsed: toggling is not an involution. */
  lemma ToggleTwiceFromOther(openIndex: Option<nat>, i: nat)
    requires openIndex != Some(i)
    ensures ToggleFaq(ToggleFaq(openIndex, i), i) == None
  {
  }

  /** If every click names a listed question, the open item is always a listed question. */
  lemma {:induction false} RunInRange(openIndex: Option<nat>, clicks: seq<nat>)
    requires openIndex.Some? ==> openIndex.value < FaqCount
    requires forall k :: 0 <= k < |clicks| ==> clicks[k] < FaqCount
    ensures var r := Run(openIndex, clicks); r.Some? ==> r.value < FaqCount
    decreases |clicks|
  {
    if |clicks| > 0 {
      assert forall k :: 0 <= k < |clicks[1..]| ==> clicks[1..][k] == clicks[k + 1];
      RunInRange(ToggleFaq(openIndex, clicks[0]), clicks[1..]);
    }
  }

  /** After a non-empty run of clicks the open item, if any, is the last one clicked. */
  lemma {:induction false} RunOpensLastClicked(openIndex: Option<nat>, clicks: seq<nat>)
    requires 0 < |clicks|
    ensures var r := Run(openIndex, clicks); r.Some? ==> r.value == clicks[|clicks| - 1]
    decreases |clicks|
  {
    if |clicks| > 1 {
      RunOpensLastClicked(ToggleFaq(openIndex, clicks[0]), clicks[1..]);
    }
  }
}
