/**
 * The services page's work-process section: six step panels scroll past on
 * the left while a sticky card on the right shows the details of the active
 * step. An intersection observer registered on every panel makes the last
 * panel it reports as intersecting the active one.
 */
module WorkProcess {
  import opened Wrappers

  datatype ProcessStep = ProcessStep(id: nat, step: string, title: string)

  const ProcessSteps: seq<ProcessStep> := [
    ProcessStep(1, "01", "Initial Consultation"),
    ProcessStep(2, "02", "Language Training"),
    ProcessStep(3, "03", "University Selection"),
    ProcessStep(4, "04", "Documentation"),
    ProcessStep(5, "05", "Visa Processing"),
    ProcessStep(6, "06", "Pre-Departure")
  ]

  /** The first step is active before any panel has been observed. */
  const InitialStep: nat := 0

  /** A DOM element, by identity. */
  type Element = nat

  /**
   * One observer entry. `target` is the observed element, which is never
   * null; the registered refs may be, while a panel is unmounted.
   */
  datatype Entry = Entry(isIntersecting: bool, target: Element)

  /** The first slot at or after `from` holding `target`, or -1. */
  function IndexFrom(refs: seq<Option<Element>>, target: Element, from: nat): (r: int)
    requires from <= |refs|
    ensures r == -1 || (from <= r < |refs| && refs[r] == Some(target))
    ensures r == -1 ==> forall j :: from <= j < |refs| ==> refs[j] != Some(target)
    ensures r != -1 ==> forall j :: from <= j < r ==> refs[j] != Some(target)
    decreases |refs| - from
  {
    if from == |refs| then -1
    else if refs[from] == Some(target) then from
    else IndexFrom(refs, target, from + 1)
  }

  /** `refs.indexOf(target)`. */
  function IndexOf(refs: seq<Option<Element>>, target: Element): (r: int)
    ensures -1 <= r < |refs|
    ensures r == -1 <==> Some(target) !in refs
    ensures r != -1 ==> refs[r] == Some(target) && forall j :: 0 <= j < r ==> refs[j] != Some(target)
  {
    IndexFrom(refs, target, 0)
  }

  /** One entry of the callback: an intersecting registered panel becomes active. */
  function ObserveEntry(refs: seq<Option<Element>>, active: nat, e: Entry): (r: nat)
    ensures !e.isIntersecting || Some(e.target) !in refs ==> r == active
    ensures e.isIntersecting && Some(e.target) in refs ==> r < |refs| && refs[r] == Some(e.target)
  {
    if e.isIntersecting then
      var index := IndexOf(refs, e.target);
      if index != -1 then index else active
    else active
  }

  /** The observer callback: the entries are taken in order. */
  function ObserverCallback(refs: seq<Option<Element>>, active: nat, entries: seq<Entry>): (r: nat)
    ensures active < |refs| ==> r < |refs|
    decreases |entries|
  {
    if |entries| == 0 then active
    else ObserverCallback(refs, ObserveEntry(refs, active, entries[0]), entries[1..])
  }

  /** The entry counts for the callback. */
  predicate Qualifies(refs: seq<Option<Element>>, e: Entry)
  {
    e.isIntersecting && Some(e.target) in refs
  }

  /** Reference definition: the slot of the last qualifying entry, if any. */
  function LastQualifying(refs: seq<Option<Element>>, entries: seq<Entry>): (r: Option<nat>)
    ensures r.None? <==> forall k :: 0 <= k < |entries| ==> !Qualifies(refs, entries[k])
    decreases |entries|
  {
    if |entries| == 0 then None
    else
      var last := entries[|entries| - 1];
      if Qualifies(refs, last) then
        var i := IndexOf(refs, last.target);
        Some(i as nat)
      else
        var r := LastQualifying(refs, entries[..|entries| - 1]);
        assert forall k :: 0 <= k < |entries| - 1 ==> entries[..|entries| - 1][k] == entries[k];
        r
  }

  lemma {:induction false} CallbackAppend(refs: seq<Option<Element>>, active: nat, entries: seq<Entry>, e: Entry)
    ensures ObserverCallback(refs, active, entries + [e]) ==
            ObserveEntry(refs, ObserverCallback(refs, active, entries), e)
    decreases |entries|
  {
    if |entries| == 0 {
      assert entries + [e] == [e];
    } else {
      assert (entries + [e])[1..] == entries[1..] + [e];
      CallbackAppend(refs, ObserveEntry(refs, active, entries[0]), entries[1..], e);
    }
  }

  /** The callback leaves the active step at the last qualifying entry's panel, or unchanged when none qualifies. */
  lemma {:induction false} CallbackIsLastQualifying(refs: seq<Option<Element>>, active: nat, entries: seq<Entry>)
    ensures ObserverCallback(refs, active, entries) == LastQualifying(refs, entries).GetOr(active)
    decreases |entries|
  {
    if |entries| > 0 {
      var init := entries[..|entries| - 1];
      var last := entries[|entries| - 1];
      assert entries == init + [last];
      CallbackIsLastQualifying(refs, active, init);
      CallbackAppend(refs, active, init, last);
    }
  }

  /** The step panel `k` registers its element in slot `k`. */
  predicate Registered(refs: seq<Option<Element>>)
  {
    |refs| == |ProcessSteps| &&
    forall j, k :: 0 <= j < k < |refs| && refs[j].Some? ==> refs[j] != refs[k]
  }

  /** When the panels are distinct elements, an intersecting panel `k` makes step `k` active. */
  lemma PanelActivatesItsStep(refs: seq<Option<Element>>, active: nat, k: nat)
    requires Registered(refs) && k < |refs| && refs[k].Some?
    ensures ObserveEntry(refs, active, Entry(true, refs[k].value)) == k
  {
  }

  /** Whatever the observer reports, the detail card's lookups stay inside the step list. */
  lemma {:induction false} ActiveStepInRange(refs: seq<Option<Element>>, batches: seq<seq<Entry>>)
    requires |refs| == |ProcessSteps|
    ensures RunBatches(refs, InitialStep, batches) < |ProcessSteps|
    decreases |batches|
  {
    if |batches| > 0 {
      ActiveStepInRangeFrom(refs, ObserverCallback(refs, InitialStep, batches[0]), batches[1..]);
    }
  }

  lemma {:induction false} ActiveStepInRangeFrom(refs: seq<Option<Element>>, active: nat, batches: seq<seq<Entry>>)
    requires |refs| == |ProcessSteps| && active < |refs|
    ensures RunBatches(refs, active, batches) < |ProcessSteps|
    decreases |batches|
  {
    if |batches| > 0 {
      ActiveStepInRangeFrom(refs, ObserverCallback(refs, active, batches[0]), batches[1..]);
    }
  }

  /** Successive callback invocations. */
  function RunBatches(refs: seq<Option<Element>>, active: nat, batches: seq<seq<Entry>>): nat
    decreases |batches|
  {
    if |batches| == 0 then active
    else RunBatches(refs, ObserverCallback(refs, active, batches[0]), batches[1..])
  }

  /** The step shown in the detail card. */
  function ActiveDetails(active: nat): (s: ProcessStep)
    requires active < |ProcessSteps|
    ensures s.id == active + 1
  {
    ProcessSteps[active]
  }
}
