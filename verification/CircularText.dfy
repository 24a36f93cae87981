/** An image whose detected text boxes have no reading order (src/inference.rs, steps 3 to 6 of the PaddleOCR
    detector). */
module CircularText {
  import opened Geometry
  import opened FloodFill
  import opened BoxMerge
  import opened Options
  import opened ReadingOrder
  import opened Sequences
  import opened Sets
  import opened TextDetection

  // ----- rectangles of pixels

  datatype Rect = Rect(x: nat, y: nat, width: nat, height: nat) {
    predicate Has(p: Pixel) { x <= p.x < x + width && y <= p.y < y + height }

    ghost function Pixels(): (s: set<Pixel>)
      ensures forall p :: p in s <==> Has(p)
    {
      var s := set i, j | x <= i < x + width && y <= j < y + height :: Pixel(i, j);
      assert forall p :: Has(p) ==> p in s by {
        forall p | Has(p) ensures p in s { assert p == Pixel(p.x, p.y); }
      }
      s
    }

    function AsRegion(): Region
      requires width > 0 && height > 0
    {
      Region(Pixel(x, y), width * height, x, x + width - 1, y, y + height - 1)
    }
  }

  lemma {:induction false} RowSize(x: nat, y: nat, width: nat)
    ensures |Rect(x, y, width, 1).Pixels()| == width
  {
    if width == 0 {
      assert Rect(x, y, 0, 1).Pixels() == {};
    } else {
      RowSize(x, y, width - 1);
      var last := Pixel(x + width - 1, y);
      assert Rect(x, y, width, 1).Pixels() == Rect(x, y, width - 1, 1).Pixels() + {last};
    }
  }

  lemma RectSplit(r: Rect)
    requires r.height > 0
    ensures var upper, row := r.(height := r.height - 1), Rect(r.x, r.y + r.height - 1, r.width, 1);
            r.Pixels() == upper.Pixels() + row.Pixels() && upper.Pixels() !! row.Pixels()
  {
  }

  lemma OneMore(width: nat, height: nat)
    requires height > 0
    ensures width * height == width * (height - 1) + width
  {
  }

  lemma {:induction false} RectSize(r: Rect)
    ensures |r.Pixels()| == r.width * r.height
    decreases r.height
  {
    if r.height == 0 {
      assert r.Pixels() == {};
    } else {
      var upper, row := r.(height := r.height - 1), Rect(r.x, r.y + r.height - 1, r.width, 1);
      RectSize(upper);
      RowSize(row.x, row.y, row.width);
      RectSplit(r);
      hide Rect.Has, Rect.Pixels;
      DisjointSize(upper.Pixels(), row.Pixels());
      OneMore(r.width, r.height);
    }
  }

  function Toward(a: nat, b: nat): nat { if a < b then a + 1 else if a > b then a - 1 else a }

  function Gap(a: nat, b: nat): nat { if a < b then b - a else a - b }

  /** Any two pixels of a rectangle are connected by a walk inside it. */
  lemma {:induction false} RectConnected(fg: set<Pixel>, r: Rect, a: Pixel, b: Pixel)
    requires r.Pixels() <= fg && r.Has(a) && r.Has(b)
    ensures Connected(fg, a, b)
    decreases Gap(a.x, b.x) + Gap(a.y, b.y)
  {
    assert a in r.Pixels() && b in r.Pixels();
    if a == b {
      ConnectedRefl(fg, a);
    } else {
      var p := Pixel(Toward(b.x, a.x), Toward(b.y, a.y));
      RectConnected(fg, r, a, p);
      ConnectedStep(fg, a, p, b);
    }
  }

  lemma RectIsComponent(fg: set<Pixel>, r: Rect)
    requires r.width > 0 && r.height > 0 && Closed(fg, r.Pixels())
    ensures Component(fg, Pixel(r.x, r.y)) == r.Pixels()
  {
    var seed := Pixel(r.x, r.y);
    assert seed in r.Pixels();
    ClosedOrDisjoint(fg, r.Pixels(), seed);
    forall p | p in r.Pixels() ensures p in Component(fg, seed) {
      RectConnected(fg, r, seed, p);
    }
  }

  lemma RectDescribed(fg: set<Pixel>, r: Rect)
    requires r.width > 0 && r.height > 0 && Closed(fg, r.Pixels())
    ensures Component(fg, Pixel(r.x, r.y)) == r.Pixels()
    ensures Described(fg, r.AsRegion())
  {
    RectIsComponent(fg, r);
    RectSize(r);
    hide Component, Closed;
    var s := r.Pixels();
    assert Pixel(r.x, r.y) in s && Pixel(r.x + r.width - 1, r.y + r.height - 1) in s;
  }

  // ----- the image

  const GRID := Grid(100, 100)
  const RIGHT := Rect(63, 10, 20, 2)
  const MIDDLE := Rect(33, 11, 20, 3)
  const LEFT := Rect(3, 13, 20, 2)

  const RIGHT_BOX := Box(0.60, 0.08, 0.86, 0.14)
  const MIDDLE_BOX := Box(0.30, 0.09, 0.56, 0.16)
  const LEFT_BOX := Box(0.00, 0.11, 0.26, 0.17)

  predicate InText(p: Pixel) { RIGHT.Has(p) || MIDDLE.Has(p) || LEFT.Has(p) }

  /** Three pieces of text, each a little lower than the next one to its right. */
  function Image(): (output: seq<real>)
    ensures |output| == 10_000
  {
    seq(10_000, i requires 0 <= i < 10_000 => if InText(Pixel(i % 100, i / 100)) then 1.0 else 0.0)
  }

  ghost function Text(): set<Pixel> { RIGHT.Pixels() + MIDDLE.Pixels() + LEFT.Pixels() }

  lemma ImageShowsText()
    ensures Foreground(Image(), GRID, 0.5, Content(100, 100)) == Text()
  {
    forall p | GRID.Inside(p)
      ensures IsForeground(Image(), GRID, 0.5, Content(100, 100), p) <==> p in Text()
    {
      var i := GRID.Index(p);
      assert i % 100 == p.x && i / 100 == p.y;
      assert Image()[i] == if InText(p) then 1.0 else 0.0;
    }
  }

  lemma RectsClosed()
    ensures Closed(Text(), RIGHT.Pixels()) && Closed(Text(), MIDDLE.Pixels()) && Closed(Text(), LEFT.Pixels())
  {
  }

  function Regions(): seq<Region> { [RIGHT.AsRegion(), MIDDLE.AsRegion(), LEFT.AsRegion()] }

  lemma TextCount()
    ensures TotalCount(Regions()) == |Text()|
  {
    RectSize(RIGHT);
    RectSize(MIDDLE);
    RectSize(LEFT);
    assert RIGHT.Pixels() !! MIDDLE.Pixels() && (RIGHT.Pixels() + MIDDLE.Pixels()) !! LEFT.Pixels();
    var r := Regions();
    assert r[..2] == [r[0], r[1]] && r[..2][..1] == [r[0]] && r[..2][..1][..0] == [];
    assert TotalCount(r[..2][..1]) == 40 && TotalCount(r[..2]) == 100;
  }

  lemma TextDescribed(k: nat)
    requires k < 3
    ensures Described(Text(), Regions()[k])
    ensures Component(Text(), Regions()[k].seed) == [RIGHT, MIDDLE, LEFT][k].Pixels()
  {
    RectsClosed();
    hide Component, Closed, Described, Rect.Pixels, Text;
    RectDescribed(Text(), [RIGHT, MIDDLE, LEFT][k]);
  }

  lemma RectsApart()
    ensures RIGHT.Pixels() !! MIDDLE.Pixels() && (RIGHT.Pixels() + MIDDLE.Pixels()) !! LEFT.Pixels()
  {
  }

  lemma TextSegments()
    ensures Segments(Text(), Regions(), Text())
  {
    hide Component, Closed, Described, TotalCount, Owned, Apart, Rect.Pixels, Segments, Region.Describes;
    var fg, r := Text(), Regions();
    TextDescribed(0);
    TextDescribed(1);
    TextDescribed(2);
    RectsApart();
    TextCount();
    ThreeApart(fg, r);
    forall p ensures p in fg <==> Owned(fg, r, p) {
      OwnedByThree(fg, r, p);
    }
    SegmentsIntro(fg, r);
  }

  lemma SegmentsIntro(fg: set<Pixel>, r: seq<Region>)
    requires |r| == 3 && Described(fg, r[0]) && Described(fg, r[1]) && Described(fg, r[2])
    requires (forall p :: p in fg <==> Owned(fg, r, p)) && Apart(fg, r) && TotalCount(r) == |fg|
    ensures Segments(fg, r, fg)
  {
    hide Described, Owned, Apart, TotalCount;
    forall k | 0 <= k < |r| ensures Described(fg, r[k]) {}
  }

  lemma OwnedByThree(fg: set<Pixel>, r: seq<Region>, p: Pixel)
    requires |r| == 3
    ensures Owned(fg, r, p) <==>
      p in Component(fg, r[0].seed) || p in Component(fg, r[1].seed) || p in Component(fg, r[2].seed)
  {
    hide Component;
  }

  lemma ThreeApart(fg: set<Pixel>, r: seq<Region>)
    requires |r| == 3 && Before(r[0].seed, r[1].seed) && Before(r[1].seed, r[2].seed)
    requires Component(fg, r[0].seed) !! Component(fg, r[1].seed)
    requires (Component(fg, r[0].seed) + Component(fg, r[1].seed)) !! Component(fg, r[2].seed)
    ensures Apart(fg, r)
  {
    hide Component;
  }

  lemma RegionsGiveBoxes()
    ensures AllFit(GRID, Regions())
    ensures BoxesOf(GRID, Regions()) == [RIGHT_BOX, MIDDLE_BOX, LEFT_BOX]
  {
    var r := Regions();
    assert Accepted(GRID, r[0]) && Accepted(GRID, r[1]) && Accepted(GRID, r[2]);
    assert Expanded(GRID, r[0]) == RIGHT_BOX;
    assert Expanded(GRID, r[1]) == MIDDLE_BOX;
    assert Expanded(GRID, r[2]) == LEFT_BOX;
    hide Accepted, Expanded;
    assert r[..2] == [r[0], r[1]] && r[..2][..1] == [r[0]] && r[..2][..1][..0] == [];
    assert BoxesOf(GRID, r[..2][..1]) == [RIGHT_BOX];
    assert BoxesOf(GRID, r[..2]) == [RIGHT_BOX, MIDDLE_BOX];
  }

  lemma BoxesAreCircular(boxes: seq<Box>)
    requires boxes == [RIGHT_BOX, MIDDLE_BOX, LEFT_BOX]
    ensures Separated(boxes) && !Consistent(boxes)
    ensures ReadsBefore(RIGHT_BOX, LEFT_BOX) && ReadsBefore(LEFT_BOX, MIDDLE_BOX)
    ensures ReadsBefore(MIDDLE_BOX, RIGHT_BOX)
  {
    assert boxes[0] in boxes && boxes[1] in boxes && boxes[2] in boxes;
    assert !LinkAgrees(LEFT_BOX, MIDDLE_BOX, RIGHT_BOX);
  }

  /** What is detected in the image are three boxes each of which has to come before the next, in a circle. */
  lemma CircleIsDetected(merged: seq<Box>)
    requires Detected(GRID, Foreground(Image(), GRID, 0.5, Content(100, 100)), merged)
    ensures merged == [RIGHT_BOX, MIDDLE_BOX, LEFT_BOX]
    ensures ReadsBefore(RIGHT_BOX, LEFT_BOX) && ReadsBefore(LEFT_BOX, MIDDLE_BOX)
    ensures ReadsBefore(MIDDLE_BOX, RIGHT_BOX)
    ensures !Consistent(merged)
  {
    ImageShowsText();
    TextSegments();
    RegionsGiveBoxes();
    BoxesAreCircular([RIGHT_BOX, MIDDLE_BOX, LEFT_BOX]);
    hide Foreground, Segments, BoxesOf, AllFit, Separated, Merging, Regions, Image;
    var regions: seq<Region>, forest: seq<Tree> :|
      && Segments(Text(), regions, Text()) && AllFit(GRID, regions)
      && Merging(BoxesOf(GRID, regions), forest, merged) && Separated(merged);
    SegmentsUnique(Text(), regions, Regions());
    SeparatedUnchanged(BoxesOf(GRID, regions), forest, merged);
  }

  lemma PlacedBefore(boxes: seq<Box>, a: Box, b: Box, i: nat, j: nat)
    requires SortedBy(NOT_AFTER, boxes) && i < |boxes| && j < |boxes| && boxes[i] == a && boxes[j] == b
    requires ReadsBefore(a, b) && a != b
    ensures i < j
  {
    assert !NOT_AFTER(b, a);
  }

  /** So if the detector returns at all, what it returns is not in reading order. */
  lemma NoReadingOrder(boxes: seq<Box>)
    requires Returned(GRID, Foreground(Image(), GRID, 0.5, Content(100, 100)), Some(boxes))
    ensures !SortedBy(NOT_AFTER, boxes)
  {
    hide Detected, Consistent, ReadsBefore, Foreground, Image;
    var merged :| Detected(GRID, Foreground(Image(), GRID, 0.5, Content(100, 100)), merged)
                  && InReadingOrder(merged, Some(boxes));
    CircleIsDetected(merged);
    SameContent(boxes, merged, merged[0]);
    SameContent(boxes, merged, merged[1]);
    SameContent(boxes, merged, merged[2]);
    var i :| 0 <= i < |boxes| && boxes[i] == RIGHT_BOX;
    var j :| 0 <= j < |boxes| && boxes[j] == LEFT_BOX;
    var k :| 0 <= k < |boxes| && boxes[k] == MIDDLE_BOX;
    if SortedBy(NOT_AFTER, boxes) {
      PlacedBefore(boxes, RIGHT_BOX, LEFT_BOX, i, j);
      PlacedBefore(boxes, LEFT_BOX, MIDDLE_BOX, j, k);
      NotCircular(boxes, i, k);
    }
  }

  lemma NotCircular(boxes: seq<Box>, i: nat, k: nat)
    requires i < k < |boxes| && boxes[i] == RIGHT_BOX && boxes[k] == MIDDLE_BOX
    ensures !SortedBy(NOT_AFTER, boxes)
  {
    assert ReadsBefore(MIDDLE_BOX, RIGHT_BOX);
    assert !NOT_AFTER(boxes[i], boxes[k]);
  }
}
