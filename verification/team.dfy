/**
 * The team carousel on the about page: one featured member (the main card)
 * followed by three small cards, taken circularly from a roster of seven.
 * Previous and next step the featured index around the ring; clicking a small
 * card promotes it to the featured slot.
 */
module Team {
  import Ring

  /** A roster entry; the long description and portrait URL are display-only. */
  datatype Member = Member(id: nat, name: string, role: string)

  /** A window entry: the member, its roster position and its slot in the window. */
  datatype Card = Card(member: Member, originalIndex: nat, position: nat)

  /** The main card plus three small cards. */
  const VisibleCount: nat := 4

  const TeamData: seq<Member> := [
    Member(1, "Arjun Shrestha", "CEO & Founder"),
    Member(2, "Sita Koirala", "Front-Desk Officer"),
    Member(3, "Ramesh Adhikari", "Document Officer"),
    Member(4, "Maya Gurung", "Counsellor"),
    Member(5, "Bikash Thapa", "Instructor"),
    Member(6, "Anjali Maharjan", "Instructor"),
    Member(7, "Kiran Lama", "Instructor")
  ]

  /** The featured index starts on the first member. */
  const InitialIndex: nat := 0

  /** The cards on screen when member `active` is featured. */
  function VisibleCards(team: seq<Member>, active: nat): (cards: seq<Card>)
    requires active < |team|
    ensures |cards| == VisibleCount
    ensures forall k :: 0 <= k < VisibleCount ==>
      && cards[k].position == k
      && cards[k].originalIndex == Ring.Advance(active, k, |team|)
      && cards[k].originalIndex < |team|
      && cards[k].member == team[cards[k].originalIndex]
  {
    var slots := Ring.Window(active, VisibleCount, |team|);
    seq(VisibleCount, k requires 0 <= k < VisibleCount => Card(team[slots[k]], slots[k], k))
  }

  /** The card shown large. */
  function MainCard(team: seq<Member>, active: nat): (c: Card)
    requires active < |team|
    ensures c.member == team[active] && c.originalIndex == active && c.position == 0
  {
    VisibleCards(team, active)[0]
  }

  /** The three small cards, window positions 1 to 3. */
  function SmallCards(team: seq<Member>, active: nat): (cs: seq<Card>)
    requires active < |team|
    ensures |cs| == VisibleCount - 1
    ensures forall k :: 0 <= k < |cs| ==>
      && cs[k].position == k + 1
      && cs[k].originalIndex == Ring.Advance(active, k + 1, |team|)
      && cs[k].originalIndex < |team|
      && cs[k].member == team[cs[k].originalIndex]
  {
    VisibleCards(team, active)[1..]
  }

  function NextSlide(active: nat): (r: nat)
    ensures r < |TeamData|
    ensures active < |TeamData| ==> r == Ring.Advance(active, 1, |TeamData|)
  {
    Ring.Next(active, |TeamData|)
  }

  function PrevSlide(active: nat): (r: nat)
    ensures r < |TeamData|
    ensures active < |TeamData| ==> NextSlide(r) == active
  {
    if active < |TeamData| then
      Ring.PrevNext(active, |TeamData|); Ring.Prev(active, |TeamData|)
    else
      Ring.Prev(active, |TeamData|)
  }

  /** A click on the card in window slot `position`: slot 0 is already featured. */
  function HandleCardClick(active: nat, position: nat): (r: nat)
    requires active < |TeamData|
    ensures r < |TeamData|
    ensures r == Ring.Advance(active, position, |TeamData|)
  {
    Ring.AdvanceIsOffset(active, position, |TeamData|);
    if position == 0 then active
    else (active + position) % |TeamData|
  }

  /** Next then previous, or previous then next, leaves the carousel where it was. */
  lemma SlideRoundTrip(active: nat)
    requires active < |TeamData|
    ensures PrevSlide(NextSlide(active)) == active
    ensures NextSlide(PrevSlide(active)) == active
  {
    Ring.PrevNext(active, |TeamData|);
  }

  /** The carousel's two arrow buttons. */
  datatype Button = NextButton | PrevButton

  function Press(active: nat, b: Button): nat
  {
    match b
    case NextButton => NextSlide(active)
    case PrevButton => PrevSlide(active)
  }

  /** The active index after a series of button presses, first press first. */
  function Run(active: nat, presses: seq<Button>): nat
    decreases |presses|
  {
    if |presses| == 0 then active else Run(Press(active, presses[0]), presses[1..])
  }

  /** k presses of next advance k slots around the ring. */
  lemma {:induction false} RepeatedNext(active: nat, k: nat)
    requires active < |TeamData|
    ensures Run(active, seq(k, _ => NextButton)) == Ring.Advance(active, k, |TeamData|)
    decreases k
  {
    if k > 0 {
      var presses := seq(k, _ => NextButton);
      assert presses[0] == NextButton;
      assert presses[1..] == seq(k - 1, _ => NextButton);
      RepeatedNext(NextSlide(active), k - 1);
      Ring.AdvanceFirst(active, k - 1, |TeamData|);
    }
  }

  /** k presses of previous retreat k slots around the ring. */
  lemma {:induction false} RepeatedPrev(active: nat, k: nat)
    requires active < |TeamData|
    ensures Run(active, seq(k, _ => PrevButton)) == Ring.Retreat(active, k, |TeamData|)
    decreases k
  {
    if k > 0 {
      var presses := seq(k, _ => PrevButton);
      assert presses[0] == PrevButton;
      assert presses[1..] == seq(k - 1, _ => PrevButton);
      assert PrevSlide(active) == Ring.Prev(active, |TeamData|);
      RepeatedPrev(PrevSlide(active), k - 1);
    }
  }

  /** Seven presses of next, or of previous, come back to the start. */
  lemma SlideFullCycle(active: nat)
    requires active < |TeamData|
    ensures Run(active, seq(|TeamData|, _ => NextButton)) == active
    ensures Run(active, seq(|TeamData|, _ => PrevButton)) == active
  {
    RepeatedNext(active, |TeamData|);
    RepeatedPrev(active, |TeamData|);
    Ring.FullCycle(active, |TeamData|);
  }

  /** The four cards on screen are four different members. */
  lemma CardsDistinct(active: nat)
    requires active < |TeamData|
    ensures var cards := VisibleCards(TeamData, active);
      forall k, k' :: 0 <= k < k' < VisibleCount ==>
        cards[k].originalIndex != cards[k'].originalIndex && cards[k].member != cards[k'].member
  {
    var cards := VisibleCards(TeamData, active);
    var w := Ring.Window(active, VisibleCount, |TeamData|);
    forall k, k' | 0 <= k < k' < VisibleCount
      ensures cards[k].originalIndex != cards[k'].originalIndex && cards[k].member != cards[k'].member
    {
      assert cards[k].originalIndex == w[k] && cards[k'].originalIndex == w[k'];
      assert TeamData[w[k]].id == w[k] + 1 && TeamData[w[k']].id == w[k'] + 1;
    }
  }

  /** Clicking the main card changes nothing. */
  lemma MainCardClickIsNoop(active: nat)
    requires active < |TeamData|
    ensures HandleCardClick(active, 0) == active
  {
  }

  /** Clicking a small card features exactly the member that card showed. */
  lemma ClickPromotesCard(active: nat, position: nat)
    requires active < |TeamData| && 1 <= position < VisibleCount
    ensures var clicked := VisibleCards(TeamData, active)[position];
      HandleCardClick(active, position) == clicked.originalIndex &&
      MainCard(TeamData, HandleCardClick(active, position)).member == clicked.member
  {
  }

  /** Clicking small card `p` lands where `p` presses of next would. */
  lemma ClickIsRepeatedNext(active: nat, position: nat)
    requires active < |TeamData| && position < VisibleCount
    ensures HandleCardClick(active, position) == Ring.Advance(active, position, |TeamData|)
    ensures position == 1 ==> HandleCardClick(active, position) == NextSlide(active)
  {
  }
}
