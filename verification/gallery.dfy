/**
 * The gallery page: the masonry distributor that deals the media catalog into
 * four columns, the width rule that picks a flat grid or the masonry, the
 * skeleton shown while the simulated load is pending, and the lightbox that
 * opens on a clicked item and steps through the catalog with wrap-around.
 */
module Gallery {
  import opened Wrappers
  import Arith
  import Ring

  datatype MediaKind = Image | Video

  /** One catalog entry. */
  datatype Media = Media(src: string, alt: string, title: string, kind: MediaKind)

  /** A catalog entry tagged with its catalog position, as pushed into a column. */
  datatype Placed = Placed(file: Media, index: nat)

  /** The masonry always has four columns. */
  const MasonryColumns: nat := 4

  /** Widths strictly below this many pixels are mobile. */
  const MobileBreakpoint: int := 768

  /** The skeleton is drawn with this many cells. */
  const SkeletonCount: nat := 12

  /** The catalog the page ships with. */
  const MediaFiles: seq<Media> := [
    Media("Uni/uni1.jpeg", "Classroom learning", "Interactive Learning Session", Image),
    Media("Uni/uni2.jpeg", "Students working together", "Group Collaboration", Image),
    Media("Uni/uni3.jpeg", "Festival celebration", "Cultural Festival", Image),
    Media("Uni/uni4.jpeg", "Airport departure", "Airport Journey", Image),
    Media("Uni/uni5.jpeg", "Business meeting", "Student Meetup", Image),
    Media("Uni/uni6.jpeg", "Community event", "Annual Gathering", Image),
    Media("Uni/uni7.jpeg", "Celebration moment", "Special Celebration", Image),
    Media("Uni/uni8.jpeg", "Traveling students", "Journey Abroad", Image)
  ]

  // ---------------------------------------------------------------------------
  // Shortest-column search
  // ---------------------------------------------------------------------------

  /** `m` is a shortest column and every column left of it is strictly longer. */
  ghost predicate IsLeftmostShortest(cols: seq<seq<Placed>>, m: nat)
  {
    && m < |cols|
    && (forall j :: 0 <= j < |cols| ==> |cols[m]| <= |cols[j]|)
    && (forall j :: 0 <= j < m ==> |cols[m]| < |cols[j]|)
  }

  /**
   * The reduce over the columns from position `index` on, carrying the best
   * column so far: a column replaces it only when strictly shorter.
   */
  function ShortestFrom(cols: seq<seq<Placed>>, index: nat, minIndex: nat): (r: nat)
    requires minIndex < |cols| && index <= |cols|
    requires forall j :: 0 <= j < index ==> |cols[minIndex]| <= |cols[j]|
    requires forall j :: 0 <= j < minIndex ==> |cols[minIndex]| < |cols[j]|
    ensures IsLeftmostShortest(cols, r)
    decreases |cols| - index
  {
    if index == |cols| then minIndex
    else ShortestFrom(cols, index + 1, if |cols[index]| < |cols[minIndex]| then index else minIndex)
  }

  /** The column the next item goes to: the shortest one, the leftmost among equals. */
  function ShortestColumn(cols: seq<seq<Placed>>): (r: nat)
    requires 0 < |cols|
    ensures IsLeftmostShortest(cols, r)
  {
    ShortestFrom(cols, 0, 0)
  }

  /** At most one column is the leftmost shortest, so the choice above is the only one. */
  lemma LeftmostShortestUnique(cols: seq<seq<Placed>>, m: nat, m': nat)
    requires IsLeftmostShortest(cols, m) && IsLeftmostShortest(cols, m')
    ensures m == m'
  {
    assert |cols[m]| == |cols[m']|;
  }

  // ---------------------------------------------------------------------------
  // Distribution
  // ---------------------------------------------------------------------------

  /** `columns` empty columns. */
  function EmptyColumns(columns: nat): (cols: seq<seq<Placed>>)
    ensures |cols| == columns
    ensures forall c :: 0 <= c < columns ==> cols[c] == []
  {
    seq(columns, _ => [])
  }

  /** Appends `item` to the shortest column. */
  function Place(cols: seq<seq<Placed>>, item: Placed): (r: seq<seq<Placed>>)
    requires 0 < |cols|
    ensures |r| == |cols|
  {
    var s := ShortestColumn(cols);
    cols[s := cols[s] + [item]]
  }

  /** The columns after the first `n` catalog items have been placed, in catalog order. */
  function DistributePrefix(files: seq<Media>, n: nat, columns: nat): (cols: seq<seq<Placed>>)
    requires n <= |files| && 0 < columns
    ensures |cols| == columns
    decreases n
  {
    if n == 0 then EmptyColumns(columns)
    else Place(DistributePrefix(files, n - 1, columns), Placed(files[n - 1], n - 1))
  }

  /** The whole catalog dealt into `columns` columns. */
  function Distribute(files: seq<Media>, columns: nat): seq<seq<Placed>>
    requires 0 < columns
  {
    DistributePrefix(files, |files|, columns)
  }

  /**
   * The desktop layout: the catalog dealt into four columns. Item `i` sits in
   * column `i % 4` at row `i / 4`, and nothing else is placed.
   */
  function ImprovedMasonry(files: seq<Media>): (cols: seq<seq<Placed>>)
    ensures |cols| == MasonryColumns
    ensures forall i :: 0 <= i < |files| ==>
      i / MasonryColumns < |cols[i % MasonryColumns]| && cols[i % MasonryColumns][i / MasonryColumns] == Placed(files[i], i)
    ensures forall c, k :: 0 <= c < |cols| && 0 <= k < |cols[c]| ==>
      cols[c][k].index < |files| && cols[c][k].index % MasonryColumns == c && cols[c][k].file == files[cols[c][k].index]
  {
    DistributeCovers(files, MasonryColumns);
    DistributeSound(files, MasonryColumns);
    Distribute(files, MasonryColumns)
  }

  /**
   * Reference definition of a round-robin deal: the entries among the first
   * `n` catalog items whose position is `c` modulo `columns`, in catalog order.
   */
  function ColumnOf(files: seq<Media>, n: nat, c: nat, columns: nat): seq<Placed>
    requires n <= |files| && 0 < columns
    decreases n
  {
    if n == 0 then []
    else ColumnOf(files, n - 1, c, columns) + (if (n - 1) % columns == c then [Placed(files[n - 1], n - 1)] else [])
  }

  /** How many of the first `n` items column `c` receives in a round-robin deal. */
  function ColumnLength(n: nat, c: nat, columns: nat): nat
    requires 0 < columns
  {
    n / columns + (if c < n % columns then 1 else 0)
  }

  /** The columns are exactly the round-robin deal of the first `n` items. */
  ghost predicate RoundRobin(cols: seq<seq<Placed>>, files: seq<Media>, n: nat, columns: nat)
    requires n <= |files| && 0 < columns
  {
    && |cols| == columns
    && forall c :: 0 <= c < columns ==> cols[c] == ColumnOf(files, n, c, columns)
  }

  /** Column `c` of a round-robin deal of `n` items holds `ColumnLength(n, c, columns)` entries. */
  lemma {:induction false} ColumnOfLength(files: seq<Media>, n: nat, c: nat, columns: nat)
    requires n <= |files| && c < columns
    ensures |ColumnOf(files, n, c, columns)| == ColumnLength(n, c, columns)
    decreases n
  {
    if n == 0 {
      Arith.DivModUnique(0, columns, 0, 0);
    } else {
      ColumnOfLength(files, n - 1, c, columns);
      Arith.DivModSucc(n - 1, columns);
    }
  }

  /** In a round-robin deal of `n` items the next item's column is `n % columns`. */
  lemma RoundRobinShortest(cols: seq<seq<Placed>>, files: seq<Media>, n: nat, columns: nat)
    requires n <= |files| && 0 < columns && RoundRobin(cols, files, n, columns)
    ensures ShortestColumn(cols) == n % columns
  {
    forall c | 0 <= c < columns ensures |cols[c]| == ColumnLength(n, c, columns) {
      ColumnOfLength(files, n, c, columns);
    }
    assert IsLeftmostShortest(cols, n % columns);
    LeftmostShortestUnique(cols, n % columns, ShortestColumn(cols));
  }

  /** Placing item `n` extends a round-robin deal of `n` items to one of `n + 1`. */
  lemma RoundRobinStep(cols: seq<seq<Placed>>, files: seq<Media>, n: nat, columns: nat)
    requires 0 < columns && n < |files| && RoundRobin(cols, files, n, columns)
    ensures RoundRobin(Place(cols, Placed(files[n], n)), files, n + 1, columns)
  {
    RoundRobinShortest(cols, files, n, columns);
  }

  /** Dealing by shortest column is dealing round-robin: item `i` goes to column `i % columns`. */
  lemma {:induction false} DistributeIsRoundRobin(files: seq<Media>, n: nat, columns: nat)
    requires n <= |files| && 0 < columns
    ensures RoundRobin(DistributePrefix(files, n, columns), files, n, columns)
    decreases n
  {
    if n > 0 {
      DistributeIsRoundRobin(files, n - 1, columns);
      RoundRobinStep(DistributePrefix(files, n - 1, columns), files, n - 1, columns);
    }
  }

  /** A deal of fewer items is a prefix of a deal of more. */
  lemma {:induction false} ColumnOfPrefix(files: seq<Media>, m: nat, n: nat, c: nat, columns: nat)
    requires m <= n <= |files| && 0 < columns
    ensures ColumnOf(files, m, c, columns) <= ColumnOf(files, n, c, columns)
    decreases n
  {
    if m < n {
      ColumnOfPrefix(files, m, n - 1, c, columns);
    }
  }

  /** Every entry of a round-robin column is a dealt catalog item carrying its own position. */
  lemma {:induction false} ColumnOfSound(files: seq<Media>, n: nat, c: nat, columns: nat)
    requires n <= |files| && 0 < columns
    ensures forall k :: 0 <= k < |ColumnOf(files, n, c, columns)| ==>
      ColumnOf(files, n, c, columns)[k].index < n &&
      ColumnOf(files, n, c, columns)[k].index % columns == c &&
      ColumnOf(files, n, c, columns)[k].file == files[ColumnOf(files, n, c, columns)[k].index]
    decreases n
  {
    if n > 0 {
      var prev := ColumnOf(files, n - 1, c, columns);
      var col := ColumnOf(files, n, c, columns);
      ColumnOfSound(files, n - 1, c, columns);
      forall k | 0 <= k < |col|
        ensures col[k].index < n && col[k].index % columns == c && col[k].file == files[col[k].index]
      {
        assert col == prev + (if (n - 1) % columns == c then [Placed(files[n - 1], n - 1)] else []);
        if k < |prev| {
          assert col[k] == prev[k];
          assert prev[k].index < n - 1 && prev[k].index % columns == c;
        } else {
          assert col[k] == Placed(files[n - 1], n - 1);
        }
      }
    }
  }

  /** Positions strictly increase down a round-robin column. */
  lemma {:induction false} ColumnOfOrdered(files: seq<Media>, n: nat, c: nat, columns: nat)
    requires n <= |files| && 0 < columns
    ensures forall k, k' :: 0 <= k < k' < |ColumnOf(files, n, c, columns)| ==>
      ColumnOf(files, n, c, columns)[k].index < ColumnOf(files, n, c, columns)[k'].index
    decreases n
  {
    if n > 0 {
      var prev := ColumnOf(files, n - 1, c, columns);
      var col := ColumnOf(files, n, c, columns);
      ColumnOfOrdered(files, n - 1, c, columns);
      ColumnOfSound(files, n - 1, c, columns);
      forall k, k' | 0 <= k < k' < |col| ensures col[k].index < col[k'].index {
        assert col == prev + (if (n - 1) % columns == c then [Placed(files[n - 1], n - 1)] else []);
        assert col[k] == prev[k];
        if k' < |prev| {
          assert col[k'] == prev[k'];
        } else {
          assert col[k'] == Placed(files[n - 1], n - 1);
        }
      }
    }
  }

  /** Item `i` sits at entry `i / columns` of round-robin column `i % columns`. */
  lemma ColumnOfPosition(files: seq<Media>, n: nat, i: nat, columns: nat)
    requires i < n <= |files| && 0 < columns
    ensures var col := ColumnOf(files, n, i % columns, columns);
      i / columns < |col| && col[i / columns] == Placed(files[i], i)
  {
    var c := i % columns;
    ColumnOfLength(files, i, c, columns);
    ColumnOfPrefix(files, i + 1, n, c, columns);
    assert ColumnOf(files, i + 1, c, columns) == ColumnOf(files, i, c, columns) + [Placed(files[i], i)];
  }

  /** Column `c` of the finished layout is the round-robin column `c`. */
  lemma DistributeColumn(files: seq<Media>, columns: nat, c: nat)
    requires c < columns
    ensures |Distribute(files, columns)| == columns
    ensures Distribute(files, columns)[c] == ColumnOf(files, |files|, c, columns)
  {
    DistributeIsRoundRobin(files, |files|, columns);
  }

  /** Item `i` is entry `i / columns` of column `i % columns` of the finished layout. */
  lemma PlacedAt(files: seq<Media>, columns: nat, i: nat)
    requires 0 < columns && i < |files|
    ensures i % columns < |Distribute(files, columns)|
    ensures i / columns < |Distribute(files, columns)[i % columns]|
    ensures Distribute(files, columns)[i % columns][i / columns] == Placed(files[i], i)
  {
    DistributeColumn(files, columns, i % columns);
    ColumnOfPosition(files, |files|, i, columns);
  }

  /** Every catalog item is placed: item `i` is entry `i / columns` of column `i % columns`. */
  lemma DistributeCovers(files: seq<Media>, columns: nat)
    requires 0 < columns
    ensures var cols := Distribute(files, columns);
      |cols| == columns &&
      forall i :: 0 <= i < |files| ==>
        i / columns < |cols[i % columns]| && cols[i % columns][i / columns] == Placed(files[i], i)
  {
    DistributeColumn(files, columns, 0);
    forall i | 0 <= i < |files| {
      PlacedAt(files, columns, i);
    }
  }

  /** Nothing else is placed: every entry is a catalog item, tagged with its own position, in column `index % columns`. */
  lemma DistributeSound(files: seq<Media>, columns: nat)
    requires 0 < columns
    ensures var cols := Distribute(files, columns);
      forall c, k :: 0 <= c < |cols| && 0 <= k < |cols[c]| ==>
        cols[c][k].index < |files| && cols[c][k].file == files[cols[c][k].index] &&
        cols[c][k].index % columns == c
  {
    DistributeIsRoundRobin(files, |files|, columns);
    forall c | 0 <= c < columns {
      ColumnOfSound(files, |files|, c, columns);
    }
  }

  /** No item is placed twice: distinct slots hold distinct catalog positions. */
  lemma DistributeNoDuplicates(files: seq<Media>, columns: nat)
    requires 0 < columns
    ensures var cols := Distribute(files, columns);
      forall c, k, c', k' ::
        (0 <= c < |cols| && 0 <= k < |cols[c]| && 0 <= c' < |cols| && 0 <= k' < |cols[c']| &&
         cols[c][k].index == cols[c'][k'].index) ==> c == c' && k == k'
  {
    DistributeSound(files, columns);
    DistributeOrdered(files, columns);
  }

  /** Column lengths differ by at most one. */
  lemma DistributeBalanced(files: seq<Media>, columns: nat)
    requires 0 < columns
    ensures var cols := Distribute(files, columns);
      forall c, c' :: 0 <= c < |cols| && 0 <= c' < |cols| ==> |cols[c]| <= |cols[c']| + 1
  {
    DistributeIsRoundRobin(files, |files|, columns);
    forall c | 0 <= c < columns {
      ColumnOfLength(files, |files|, c, columns);
    }
  }

  /** Within a column, catalog positions strictly increase from top to bottom. */
  lemma DistributeOrdered(files: seq<Media>, columns: nat)
    requires 0 < columns
    ensures var cols := Distribute(files, columns);
      forall c, k, k' :: 0 <= c < |cols| && 0 <= k < k' < |cols[c]| ==> cols[c][k].index < cols[c][k'].index
  {
    DistributeIsRoundRobin(files, |files|, columns);
    forall c | 0 <= c < columns {
      ColumnOfOrdered(files, |files|, c, columns);
    }
  }

  /** With a single column the layout is the catalog in its own order. */
  lemma SingleColumnIsCatalogOrder(files: seq<Media>)
    ensures Distribute(files, 1) == [FlatGrid(files)]
  {
    var cols: seq<seq<Placed>> := Distribute(files, 1);
    DistributeCovers(files, 1);
    DistributeIsRoundRobin(files, |files|, 1);
    ColumnOfLength(files, |files|, 0, 1);
    Arith.DivModUnique(|files|, 1, |files|, 0);
    forall i | 0 <= i < |files| ensures cols[0][i] == FlatGrid(files)[i] {
      Arith.DivModUnique(i, 1, i, 0);
    }
    assert cols[0] == FlatGrid(files);
  }

  /** With eight items, column `c` of a four-column deal holds items `c` and `c + 4`. */
  lemma EightItemColumn(files: seq<Media>, c: nat)
    requires |files| == 8 && c < 4
    ensures Distribute(files, 4)[c] == [Placed(files[c], c), Placed(files[c + 4], c + 4)]
  {
    var col := Distribute(files, 4)[c];
    DistributeColumn(files, 4, c);
    ColumnOfLength(files, 8, c, 4);
    Arith.DivModUnique(8, 4, 2, 0);
    assert |col| == 2;
    PlacedAt(files, 4, c);
    Arith.DivModUnique(c, 4, 0, c);
    PlacedAt(files, 4, c + 4);
    Arith.DivModUnique(c + 4, 4, 1, c);
    assert col == [col[0], col[1]];
  }

  /** Eight items, the size of the shipped catalog, put items `c` and `c + 4` in column `c`. */
  lemma EightItemMasonry(files: seq<Media>, c: nat)
    requires |files| == 8 && c < MasonryColumns
    ensures ImprovedMasonry(files)[c] == [Placed(files[c], c), Placed(files[c + 4], c + 4)]
  {
    EightItemColumn(files, c);
  }

  // ---------------------------------------------------------------------------
  // Responsive layout and skeleton
  // ---------------------------------------------------------------------------

  /** The mobile test run on mount and on every resize. */
  function IsMobile(width: int): (r: bool)
    ensures r <==> width < 768
  {
    width < MobileBreakpoint
  }

  /** The mobile layout: one flat grid of the catalog in catalog order. */
  function FlatGrid(files: seq<Media>): (r: seq<Placed>)
    ensures |r| == |files|
    ensures forall i :: 0 <= i < |files| ==> r[i].file == files[i] && r[i].index == i
  {
    seq(|files|, i requires 0 <= i < |files| => Placed(files[i], i))
  }

  /** What the media area shows once loading is over. */
  datatype Grid = Flat(items: seq<Placed>) | Masonry(columns: seq<seq<Placed>>)

  /** The layout picked by the width flag: a flat grid on mobile, the masonry otherwise. */
  function ResponsiveGrid(files: seq<Media>, isMobile: bool): (g: Grid)
    ensures g.Flat? <==> isMobile
    ensures g.Flat? ==> |g.items| == |files| && forall i :: 0 <= i < |files| ==> g.items[i] == Placed(files[i], i)
    ensures g.Masonry? ==> |g.columns| == MasonryColumns && forall i :: 0 <= i < |files| ==>
      i / MasonryColumns < |g.columns[i % MasonryColumns]| &&
      g.columns[i % MasonryColumns][i / MasonryColumns] == Placed(files[i], i)
  {
    if isMobile then Flat(FlatGrid(files)) else Masonry(ImprovedMasonry(files))
  }

  /** Both layouts show the same entries: an entry is in the flat grid iff it is in some masonry column. */
  lemma LayoutsAgree(files: seq<Media>, e: Placed)
    ensures e in FlatGrid(files) <==> exists c :: 0 <= c < MasonryColumns && e in ImprovedMasonry(files)[c]
  {
    var flat, cols := FlatGrid(files), ImprovedMasonry(files);
    DistributeCovers(files, MasonryColumns);
    DistributeSound(files, MasonryColumns);
    if e in flat {
      var i :| 0 <= i < |flat| && flat[i] == e;
      assert e == cols[i % 4][i / 4];
    }
    if exists c :: 0 <= c < MasonryColumns && e in cols[c] {
      var c :| 0 <= c < MasonryColumns && e in cols[c];
      var k :| 0 <= k < |cols[c]| && cols[c][k] == e;
      assert flat[e.index] == e;
    }
  }

  /** One skeleton cell: one shimmer, plus a second on every third cell. */
  datatype SkeletonCell = SkeletonCell(shimmers: nat)

  function SkeletonGrid(count: nat): (r: seq<SkeletonCell>)
    ensures |r| == count
    ensures forall k :: 0 <= k < count ==> (r[k].shimmers == 2 <==> k % 3 == 0) && 1 <= r[k].shimmers <= 2
  {
    seq(count, k requires 0 <= k < count => SkeletonCell(if k % 3 == 0 then 2 else 1))
  }

  /** The number of shimmer bars drawn by a run of skeleton cells. */
  function Shimmers(cells: seq<SkeletonCell>): nat
    decreases |cells|
  {
    if |cells| == 0 then 0 else Shimmers(cells[..|cells| - 1]) + cells[|cells| - 1].shimmers
  }

  /** A grid of `count` cells draws one bar per cell plus one for every multiple of 3 below `count`. */
  lemma {:induction false} SkeletonShimmers(count: nat)
    ensures Shimmers(SkeletonGrid(count)) == count + (count + 2) / 3
    decreases count
  {
    if count > 0 {
      var g := SkeletonGrid(count);
      assert g[..count - 1] == SkeletonGrid(count - 1);
      SkeletonShimmers(count - 1);
    }
  }

  /** The page's twelve-cell skeleton has four double cells, so sixteen bars. */
  lemma PageSkeletonShimmers()
    ensures Shimmers(SkeletonGrid(SkeletonCount)) == 16
  {
    SkeletonShimmers(SkeletonCount);
  }

  // ---------------------------------------------------------------------------
  // Page state, lightbox and view
  // ---------------------------------------------------------------------------

  datatype GalleryState = GalleryState(
    isModalOpen: bool,
    selectedIndex: Option<nat>,
    isLoading: bool,
    isMobile: bool)

  /** The state on first render. */
  const Initial: GalleryState := GalleryState(false, None, true, false)

  /**
   * The inputs the page reacts to: the load timer, a resize (including the
   * check run on mount), a click on a grid item, and the lightbox's close,
   * next and previous buttons.
   */
  datatype GalleryEvent =
    | LoadTimerFired
    | Resized(width: int)
    | ItemClicked(index: nat)
    | CloseClicked
    | NextClicked
    | PrevClicked

  /** The lightbox overlay is rendered. */
  predicate LightboxShown(s: GalleryState)
  {
    s.isModalOpen && s.selectedIndex.Some?
  }

  function OpenModal(s: GalleryState, index: nat): (r: GalleryState)
    ensures LightboxShown(r) && r.selectedIndex == Some(index)
    ensures r.isLoading == s.isLoading && r.isMobile == s.isMobile
  {
    s.(selectedIndex := Some(index), isModalOpen := true)
  }

  function CloseModal(s: GalleryState): (r: GalleryState)
    ensures !LightboxShown(r) && !r.isModalOpen && r.selectedIndex == None
    ensures r.isLoading == s.isLoading && r.isMobile == s.isMobile
  {
    s.(selectedIndex := None, isModalOpen := false)
  }

  /** The next button: `(prev + 1) % n`. */
  function NextMedia(s: GalleryState, n: nat): (r: GalleryState)
    requires 0 < n
    ensures r.isModalOpen == s.isModalOpen && r.selectedIndex.Some? == s.selectedIndex.Some?
    ensures s.selectedIndex.Some? ==> r.selectedIndex == Some(Ring.Next(s.selectedIndex.value, n))
  {
    match s.selectedIndex
    case Some(i) => s.(selectedIndex := Some((i + 1) % n))
    case None => s
  }

  /** The previous button: `prev === 0 ? n - 1 : prev - 1`. */
  function PrevMedia(s: GalleryState, n: nat): (r: GalleryState)
    requires 0 < n
    ensures r.isModalOpen == s.isModalOpen && r.selectedIndex.Some? == s.selectedIndex.Some?
    ensures s.selectedIndex.Some? && s.selectedIndex.value < n ==>
      r.selectedIndex == Some(Ring.Prev(s.selectedIndex.value, n))
  {
    match s.selectedIndex
    case Some(i) => s.(selectedIndex := Some(if i == 0 then n - 1 else i - 1))
    case None => s
  }

  /** One event applied to the page of a catalog of `n` items. */
  function Step(s: GalleryState, e: GalleryEvent, n: nat): (r: GalleryState)
    requires 0 < n
    ensures r.isLoading == (s.isLoading && !e.LoadTimerFired?)
    ensures r.isMobile == (if e.Resized? then e.width < MobileBreakpoint else s.isMobile)
    ensures e.ItemClicked? ==> LightboxShown(r) && r.selectedIndex == Some(e.index)
    ensures e.CloseClicked? ==> !LightboxShown(r)
    ensures e.CloseClicked? && LightboxShown(s) ==> !r.isModalOpen && r.selectedIndex == None
    ensures !LightboxShown(s) && (e.CloseClicked? || e.NextClicked? || e.PrevClicked?) ==> r == s
    ensures e.LoadTimerFired? || e.Resized? ==> r.isModalOpen == s.isModalOpen && r.selectedIndex == s.selectedIndex
  {
    match e
    case LoadTimerFired => s.(isLoading := false)
    case Resized(width) => s.(isMobile := IsMobile(width))
    case ItemClicked(index) => OpenModal(s, index)
    case CloseClicked => if LightboxShown(s) then CloseModal(s) else s
    case NextClicked => if LightboxShown(s) then NextMedia(s, n) else s
    case PrevClicked => if LightboxShown(s) then PrevMedia(s, n) else s
  }

  function Run(s: GalleryState, events: seq<GalleryEvent>, n: nat): GalleryState
    requires 0 < n
    decreases |events|
  {
    if |events| == 0 then s else Run(Step(s, events[0], n), events[1..], n)
  }

  /** The lightbox is open exactly when an item is selected, and the selection is a catalog position. */
  ghost predicate Valid(s: GalleryState, n: nat)
  {
    && (s.isModalOpen <==> s.selectedIndex.Some?)
    && (s.selectedIndex.Some? ==> s.selectedIndex.value < n)
  }

  /** Clicks only ever name items that are on screen. */
  predicate ClickInRange(e: GalleryEvent, n: nat)
  {
    e.ItemClicked? ==> e.index < n
  }

  /** Every event keeps the page valid. */
  lemma StepValid(s: GalleryState, e: GalleryEvent, n: nat)
    requires 0 < n && Valid(s, n) && ClickInRange(e, n)
    ensures Valid(Step(s, e, n), n)
  {
  }

  /** Any run of on-screen events keeps the page valid. */
  lemma {:induction false} RunValid(s: GalleryState, events: seq<GalleryEvent>, n: nat)
    requires 0 < n && Valid(s, n)
    requires forall k :: 0 <= k < |events| ==> ClickInRange(events[k], n)
    ensures Valid(Run(s, events, n), n)
    decreases |events|
  {
    if |events| > 0 {
      StepValid(s, events[0], n);
      assert forall k :: 0 <= k < |events[1..]| ==> ClickInRange(events[1..][k], n) by {
        forall k | 0 <= k < |events[1..]| ensures ClickInRange(events[1..][k], n) {
          assert events[1..][k] == events[k + 1];
        }
      }
      RunValid(Step(s, events[0], n), events[1..], n);
    }
  }

  /** The loading latch: once the timer has fired, no later event brings the skeleton back. */
  lemma {:induction false} LoadingNeverReturns(s: GalleryState, events: seq<GalleryEvent>, n: nat)
    requires 0 < n && !s.isLoading
    ensures !Run(s, events, n).isLoading
    decreases |events|
  {
    if |events| > 0 {
      LoadingNeverReturns(Step(s, events[0], n), events[1..], n);
    }
  }

  /** The loading flag is cleared by the timer and by nothing else. */
  lemma LoadingClearedOnlyByTimer(s: GalleryState, e: GalleryEvent, n: nat)
    requires 0 < n && s.isLoading
    ensures !Step(s, e, n).isLoading <==> e == LoadTimerFired
  {
  }

  /** Next and previous stay on the catalog and undo each other. */
  lemma LightboxRoundTrip(s: GalleryState, n: nat)
    requires 0 < n && Valid(s, n) && LightboxShown(s)
    ensures Step(Step(s, NextClicked, n), PrevClicked, n) == s
    ensures Step(Step(s, PrevClicked, n), NextClicked, n) == s
    ensures Valid(Step(s, NextClicked, n), n) && Valid(Step(s, PrevClicked, n), n)
  {
    Ring.PrevNext(s.selectedIndex.value, n);
  }

  /** `n` presses of next bring the lightbox back to the item it started on. */
  lemma {:induction false} NextCycle(s: GalleryState, k: nat, n: nat)
    requires 0 < n && Valid(s, n) && LightboxShown(s)
    ensures var events := seq(k, _ => NextClicked);
      Run(s, events, n) == s.(selectedIndex := Some(Ring.Advance(s.selectedIndex.value, k, n)))
    decreases k
  {
    var events := seq(k, _ => NextClicked);
    if k > 0 {
      var t := Step(s, NextClicked, n);
      assert events[1..] == seq(k - 1, _ => NextClicked);
      NextCycle(t, k - 1, n);
      Ring.AdvanceFirst(s.selectedIndex.value, k - 1, n);
    }
  }

  /** A full cycle of `n` presses of next returns to the starting item. */
  lemma NextFullCycle(s: GalleryState, n: nat)
    requires 0 < n && Valid(s, n) && LightboxShown(s)
    ensures Run(s, seq(n, _ => NextClicked), n) == s
  {
    NextCycle(s, n, n);
    Ring.FullCycle(s.selectedIndex.value, n);
  }

  /** What the page shows under the hero. */
  datatype Body = Skeleton(cells: seq<SkeletonCell>) | Content(grid: Grid) | NoImages

  /** What the page shows: the body, and the lightbox's item when the overlay is rendered. */
  datatype View = View(body: Body, lightbox: Option<Media>)

  function Render(s: GalleryState, files: seq<Media>): (v: View)
    requires Valid(s, |files|)
    ensures v.body.Skeleton? <==> s.isLoading
    ensures v.body.Content? <==> !s.isLoading && |files| > 0
    ensures v.body.Skeleton? ==> |v.body.cells| == SkeletonCount
    ensures v.lightbox.Some? <==> LightboxShown(s)
    ensures v.lightbox.Some? ==> v.lightbox.value == files[s.selectedIndex.value]
  {
    var body :=
      if s.isLoading then Skeleton(SkeletonGrid(SkeletonCount))
      else if |files| > 0 then Content(ResponsiveGrid(files, s.isMobile))
      else NoImages;
    var lightbox := if LightboxShown(s) then Some(files[s.selectedIndex.value]) else None;
    View(body, lightbox)
  }

  /**
   * Once loaded, a resize to width `w` shows the flat grid in catalog order
   * when `w` is below the breakpoint and the four-column masonry otherwise.
   */
  lemma ResizeChoosesLayout(s: GalleryState, files: seq<Media>, w: int)
    requires Valid(s, |files|) && !s.isLoading && 0 < |files|
    ensures var t := Step(s, Resized(w), |files|);
      Valid(t, |files|) &&
      (w < 768 ==> Render(t, files).body == Content(Flat(FlatGrid(files)))) &&
      (w >= 768 ==> Render(t, files).body == Content(Masonry(ImprovedMasonry(files))))
  {
  }

  /** Clicking any masonry entry opens the lightbox on that very catalog item. */
  lemma MasonryClickOpensItem(s: GalleryState, files: seq<Media>, c: nat, k: nat)
    requires Valid(s, |files|)
    requires c < MasonryColumns && k < |ImprovedMasonry(files)[c]|
    ensures var e := ImprovedMasonry(files)[c][k];
      var t := Step(s, ItemClicked(e.index), |files|);
      Valid(t, |files|) && Render(t, files).lightbox == Some(e.file)
  {
    DistributeSound(files, MasonryColumns);
  }
}
