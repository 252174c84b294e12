/**
 * The home page's social section: a text column with a row of social icons
 * and a grid of six photos, all revealed by the section's one-way
 * `isVisible` latch with staggered delays.
 */
module HomeSocial {
  import Reveal

  datatype SocialIcon = SocialIcon(name: string, color: string)

  const SocialIcons: seq<SocialIcon> := [
    SocialIcon("Facebook", "text-blue-600"),
    SocialIcon("Instagram", "text-pink-600"),
    SocialIcon("WhatsApp", "text-green-400"),
    SocialIcon("Mail", "text-red-400")
  ]

  datatype Image = Image(id: nat, src: string, alt: string)

  const Images: seq<Image> := [
    Image(1, "https://images.unsplash.com/photo-1522202176988-66273c2fd55f?w=300&h=200&fit=crop", "Classroom"),
    Image(2, "Home/social1.jpg", "Students studying"),
    Image(3, "Home/social2.jpg", "Professional woman"),
    Image(4, "https://images.unsplash.com/photo-1531482615713-2afd69097998?w=300&h=150&fit=crop", "Study group"),
    Image(5, "https://images.unsplash.com/photo-1517048676732-d65bc937f952?w=300&h=200&fit=crop", "Classroom lecture"),
    Image(6, "https://images.unsplash.com/photo-1523240795612-9a054b0db644?w=300&h=150&fit=crop", "Students discussion")
  ]

  /** The transition delays written on the six grid cells, in document order. */
  const CellDelays: seq<nat> := [200, 400, 600, 800, 1000, 1200]

  datatype Block = Block(transition: string, delay: string)
  datatype Tile = Tile(image: Image, transition: string, delayMs: nat)
  datatype Icon = Icon(icon: SocialIcon, delay: string)

  /** The heading, the paragraph and the icon row, top to bottom. */
  function TextBlocks(isVisible: bool): (bs: seq<Block>)
    ensures |bs| == 3
    ensures forall k :: 0 <= k < 3 ==> bs[k].transition == Reveal.TextReveal(isVisible)
    ensures bs[0].delay == ""
    ensures bs[1].delay == "delay-300" && bs[2].delay == "delay-500"
  {
    Reveal.HundredsDelay(3);
    Reveal.HundredsDelay(5);
    var c := Reveal.TextReveal(isVisible);
    [Block(c, ""), Block(c, Reveal.DelayClass(300)), Block(c, Reveal.DelayClass(500))]
  }

  /** Icon `k` carries `delay-${k * 100}`. */
  function Icons(): (icons: seq<Icon>)
    ensures |icons| == |SocialIcons|
    ensures forall k :: 0 <= k < |icons| ==> icons[k].icon == SocialIcons[k] && icons[k].delay == Reveal.DelayClass(k * 100)
  {
    seq(|SocialIcons|, k requires 0 <= k < |SocialIcons| => Icon(SocialIcons[k], Reveal.DelayClass(k * 100)))
  }

  lemma IconDelaysAsWritten()
    ensures Icons()[0].delay == "delay-0" && Icons()[1].delay == "delay-100"
    ensures Icons()[2].delay == "delay-200" && Icons()[3].delay == "delay-300"
  {
    Reveal.ZeroDelay();
    Reveal.HundredsDelay(1);
    Reveal.HundredsDelay(2);
    Reveal.HundredsDelay(3);
  }

  /** The photo grid in document order: cell `j` shows image `j`. */
  function ImageTiles(isVisible: bool): (ts: seq<Tile>)
    ensures |ts| == |Images|
    ensures forall j :: 0 <= j < |ts| ==>
      ts[j].image == Images[j] && ts[j].transition == Reveal.ImageReveal(isVisible) &&
      ts[j].delayMs == 200 * (j + 1)
  {
    seq(|Images|, j requires 0 <= j < |Images| => Tile(Images[j], Reveal.ImageReveal(isVisible), CellDelays[j]))
  }

  /** Each photo is shown once, and later photos start later. */
  lemma TilesInOrder(isVisible: bool)
    ensures forall j, j' :: 0 <= j < j' < |Images| ==>
      ImageTiles(isVisible)[j].image != ImageTiles(isVisible)[j'].image &&
      ImageTiles(isVisible)[j].delayMs < ImageTiles(isVisible)[j'].delayMs
  {
    forall j, j' | 0 <= j < j' < |Images|
      ensures ImageTiles(isVisible)[j].image != ImageTiles(isVisible)[j'].image
    {
      assert Images[j].id == j + 1 && Images[j'].id == j' + 1;
    }
  }

  datatype View = View(blocks: seq<Block>, icons: seq<Icon>, tiles: seq<Tile>)

  /**
   * Each block and photo carries its revealed classes exactly when the latch is
   * set; delays, photos and icons are fixed by the markup alone.
   */
  function Render(isVisible: bool): (v: View)
    ensures |v.blocks| == 3 && |v.tiles| == |Images| && |v.icons| == |SocialIcons|
    ensures forall k :: 0 <= k < |v.blocks| ==> (v.blocks[k].transition == Reveal.SlideIn <==> isVisible)
    ensures forall j :: 0 <= j < |v.tiles| ==> (v.tiles[j].transition == Reveal.ZoomIn <==> isVisible)
    ensures v.blocks[0].delay == "" && v.blocks[1].delay == "delay-300" && v.blocks[2].delay == "delay-500"
    ensures forall j :: 0 <= j < |v.tiles| ==> v.tiles[j].image == Images[j] && v.tiles[j].delayMs == 200 * (j + 1)
    ensures forall k :: 0 <= k < |v.icons| ==> v.icons[k].icon == SocialIcons[k] && v.icons[k].delay == Reveal.DelayClass(k * 100)
  {
    View(TextBlocks(isVisible), Icons(), ImageTiles(isVisible))
  }

  /** Revealing the section changes every block's and photo's classes and nothing else; the icons never change. */
  lemma VisibilityOnlyMovesClasses()
    ensures Render(true).icons == Render(false).icons
    ensures forall k :: 0 <= k < 3 ==>
      Render(true).blocks[k].delay == Render(false).blocks[k].delay &&
      Render(true).blocks[k].transition != Render(false).blocks[k].transition
    ensures forall j :: 0 <= j < |Images| ==>
      Render(true).tiles[j].image == Render(false).tiles[j].image &&
      Render(true).tiles[j].delayMs == Render(false).tiles[j].delayMs &&
      Render(true).tiles[j].transition != Render(false).tiles[j].transition
  {
  }

  /** Once an intersecting entry has been seen, the section stays in its revealed form. */
  lemma RevealedStays(before: seq<bool>, after: seq<bool>)
    requires exists k :: 0 <= k < |before| && before[k]
    ensures Render(Reveal.ObserveAll(Reveal.Hidden, before + after)) == Render(true)
  {
    Reveal.ObserveAllAppend(Reveal.Hidden, before, after);
    Reveal.ObserveAllCharacterised(Reveal.Hidden, before);
    Reveal.NeverResets(after);
  }

  /** Before any intersecting entry, every block and tile is in its hidden form. */
  lemma HiddenUntilSeen(entries: seq<bool>)
    requires forall k :: 0 <= k < |entries| ==> !entries[k]
    ensures Render(Reveal.ObserveAll(Reveal.Hidden, entries)) == Render(false)
  {
    Reveal.ObserveAllCharacterised(Reveal.Hidden, entries);
  }
}
