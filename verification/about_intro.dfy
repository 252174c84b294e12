/**
 * The about page's introduction: a text column whose blocks slide in one
 * after another, and a two-column masonry of five photos that zoom in with
 * staggered delays. Everything that moves is driven by the section's one-way
 * `isVisible` latch.
 */
module AboutIntro {
  import Reveal
  import Text

  datatype Feature = Feature(title: string)

  const Features: seq<Feature> := [
    Feature("Expert Guidance"),
    Feature("Visa & Career Pathways"),
    Feature("Dedicated Assistance"),
    Feature("Proven Success")
  ]

  datatype Image = Image(id: nat, src: string, alt: string)

  const Images: seq<Image> := [
    Image(1, "About/intro1.jpg", "Students collaborating"),
    Image(2, "About/intro2.jpg", "University campus"),
    Image(3, "About/intro3.jpg", "Classroom learning"),
    Image(4, "About/ori.jpeg", "Professional consultation"),
    Image(5, "https://images.unsplash.com/photo-1524178232363-1fb2b075b655?w=350&h=250&fit=crop", "Study session")
  ]

  /**
   * The masonry is written out by hand: document position `j` shows image
   * `ImageSlots[j]` with transition delay `SlotDelays[j]` milliseconds. The
   * first column holds images 0, 2 and 4, the second images 1 and 3.
   */
  const ImageSlots: seq<nat> := [0, 2, 4, 1, 3]
  const SlotDelays: seq<nat> := [200, 600, 1000, 400, 800]

  /** A text block: its transition classes and its Tailwind delay class, "" when it has none. */
  datatype Block = Block(transition: string, delay: string)

  /** A photo tile as rendered. */
  datatype Tile = Tile(image: Image, transition: string, delayMs: nat)

  /** The heading, the paragraph, the feature grid and the call to action, top to bottom. */
  function TextBlocks(isVisible: bool): (bs: seq<Block>)
    ensures |bs| == 4
    ensures forall k :: 0 <= k < 4 ==> bs[k].transition == Reveal.TextReveal(isVisible)
    ensures bs[0].delay == ""
    ensures bs[1].delay == Reveal.DelayClass(300)
    ensures bs[2].delay == Reveal.DelayClass(500)
    ensures bs[3].delay == Reveal.DelayClass(700)
  {
    var c := Reveal.TextReveal(isVisible);
    [Block(c, ""), Block(c, Reveal.DelayClass(300)), Block(c, Reveal.DelayClass(500)), Block(c, Reveal.DelayClass(700))]
  }

  /** Feature card `index` carries `delay-${index * 100}`. */
  function FeatureDelayClass(index: nat): (c: string)
    requires index < |Features|
    ensures 6 < |c| && c[..6] == "delay-"
    ensures forall k :: 6 <= k < |c| ==> Text.IsDigit(c[k])
    ensures Text.ParseDigits(c[6..]) == index * 100
  {
    Reveal.DelayClass(index * 100)
  }

  /** The blocks' delay classes as they appear in the markup. */
  lemma BlockDelaysAsWritten(isVisible: bool)
    ensures TextBlocks(isVisible)[1].delay == "delay-300"
    ensures TextBlocks(isVisible)[2].delay == "delay-500"
    ensures TextBlocks(isVisible)[3].delay == "delay-700"
  {
    Reveal.HundredsDelay(3);
    Reveal.HundredsDelay(5);
    Reveal.HundredsDelay(7);
  }

  /** The feature cards' delay classes: "delay-0" to "delay-300". */
  lemma FeatureDelaysAsWritten()
    ensures FeatureDelayClass(0) == "delay-0" && FeatureDelayClass(1) == "delay-100"
    ensures FeatureDelayClass(2) == "delay-200" && FeatureDelayClass(3) == "delay-300"
  {
    Reveal.ZeroDelay();
    Reveal.HundredsDelay(1);
    Reveal.HundredsDelay(2);
    Reveal.HundredsDelay(3);
  }

  /** The photo tiles in document order. */
  function ImageTiles(isVisible: bool): (ts: seq<Tile>)
    ensures |ts| == |ImageSlots|
    ensures forall j :: 0 <= j < |ts| ==>
      ts[j].image == Images[ImageSlots[j]] && ts[j].transition == Reveal.ImageReveal(isVisible) &&
      ts[j].delayMs == 200 * (ImageSlots[j] + 1)
  {
    seq(|ImageSlots|, j requires 0 <= j < |ImageSlots| => Tile(Images[ImageSlots[j]], Reveal.ImageReveal(isVisible), SlotDelays[j]))
  }

  /** Every photo appears exactly once: the slots are distinct positions of the image list and cover it. */
  lemma EachImageOnce()
    ensures |ImageSlots| == |Images|
    ensures forall j :: 0 <= j < |ImageSlots| ==> ImageSlots[j] < |Images|
    ensures forall j, j' :: 0 <= j < j' < |ImageSlots| ==> ImageSlots[j] != ImageSlots[j']
    ensures forall i :: 0 <= i < |Images| ==> i in ImageSlots
  {
    assert ImageSlots[0] == 0 && ImageSlots[3] == 1 && ImageSlots[1] == 2 && ImageSlots[4] == 3 && ImageSlots[2] == 4;
  }

  /** The delay of image `i`, wherever the markup places it. */
  function ImageDelay(i: nat): (ms: nat)
    requires i < |Images|
    ensures ms == 200 * (i + 1)
  {
    var j := if i == 0 then 0 else if i == 2 then 1 else if i == 4 then 2 else if i == 1 then 3 else 4;
    assert ImageSlots[j] == i;
    SlotDelays[j]
  }

  /** Although the document order is 0, 2, 4, 1, 3, photos zoom in in catalogue order. */
  lemma DelaysFollowCatalogue(i: nat, i': nat)
    requires i < i' < |Images|
    ensures ImageDelay(i) < ImageDelay(i')
  {
  }

  /** The whole section's animated state; it is a function of the latch alone. */
  datatype View = View(blocks: seq<Block>, tiles: seq<Tile>)

  /**
   * Each block and tile carries its revealed classes exactly when the latch is
   * set; its delay and its photo are fixed by the markup alone.
   */
  function Render(isVisible: bool): (v: View)
    ensures |v.blocks| == 4 && |v.tiles| == |Images|
    ensures forall k :: 0 <= k < |v.blocks| ==> (v.blocks[k].transition == Reveal.SlideIn <==> isVisible)
    ensures forall j :: 0 <= j < |v.tiles| ==> (v.tiles[j].transition == Reveal.ZoomIn <==> isVisible)
    ensures v.blocks[0].delay == "" && v.blocks[1].delay == Reveal.DelayClass(300)
    ensures v.blocks[2].delay == Reveal.DelayClass(500) && v.blocks[3].delay == Reveal.DelayClass(700)
    ensures forall j :: 0 <= j < |v.tiles| ==>
      v.tiles[j].image == Images[ImageSlots[j]] && v.tiles[j].delayMs == 200 * (ImageSlots[j] + 1)
  {
    View(TextBlocks(isVisible), ImageTiles(isVisible))
  }

  /** Revealing the section changes every block's and tile's classes and nothing else. */
  lemma VisibilityOnlyMovesClasses()
    ensures forall k :: 0 <= k < 4 ==>
      Render(true).blocks[k].delay == Render(false).blocks[k].delay &&
      Render(true).blocks[k].transition != Render(false).blocks[k].transition
    ensures forall j :: 0 <= j < |Images| ==>
      Render(true).tiles[j].image == Render(false).tiles[j].image &&
      Render(true).tiles[j].delayMs == Render(false).tiles[j].delayMs &&
      Render(true).tiles[j].transition != Render(false).tiles[j].transition
  {
  }

  /** Once an intersecting entry has been seen, the section stays in its revealed form. */
  lemma RevealedStays(before: seq<bool>, after: seq<bool>)
    requires exists k :: 0 <= k < |before| && before[k]
    ensures Render(Reveal.ObserveAll(Reveal.Hidden, before + after)) == Render(true)
    ensures forall k :: 0 <= k < |ImageTiles(true)| ==> ImageTiles(true)[k].transition == Reveal.ZoomIn
  {
    Reveal.ObserveAllAppend(Reveal.Hidden, before, after);
    Reveal.ObserveAllCharacterised(Reveal.Hidden, before);
    Reveal.NeverResets(after);
  }

  /** Before any intersecting entry, every block and tile is in its hidden form. */
  lemma HiddenUntilSeen(entries: seq<bool>)
    requires forall k :: 0 <= k < |entries| ==> !entries[k]
    ensures Render(Reveal.ObserveAll(Reveal.Hidden, entries)) == Render(false)
  {
    Reveal.ObserveAllCharacterised(Reveal.Hidden, entries);
  }
}
