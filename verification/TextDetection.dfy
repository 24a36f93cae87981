/** The text detector end to end (src/inference.rs, `process_paddleocr_detection`): threshold, padding mask, connected
    components, the acceptance filter, expansion, merging and the sort into reading order. */
module TextDetection {
  import opened Geometry
  import opened FloodFill
  import opened BoxMerge
  import opened Options
  import opened ReadingOrder
  import opened Sequences

  // ----- the mask

  /** The content of the image takes up `width` columns and `height` rows; the rest is padding. */
  datatype Content = Content(width: nat, height: nat)

  /** What counts as text: probable enough, and centred inside the content. */
  predicate IsForeground(output: seq<real>, g: Grid, threshold: real, content: Content, p: Pixel)
    requires g.Inside(p)
  {
    && g.Index(p) < |output| && output[g.Index(p)] >= threshold
    && p.x < content.width && p.y < content.height
  }

  ghost function Foreground(output: seq<real>, g: Grid, threshold: real, content: Content): (s: set<Pixel>)
    ensures forall p :: p in s <==> g.Inside(p) && IsForeground(output, g, threshold, content, p)
  {
    var s := set x, y | 0 <= x < g.width && 0 <= y < g.height
                        && IsForeground(output, g, threshold, content, Pixel(x, y)) :: Pixel(x, y);
    assert forall p :: g.Inside(p) && IsForeground(output, g, threshold, content, p) ==> p in s by {
      forall p | g.Inside(p) && IsForeground(output, g, threshold, content, p) ensures p in s {
        assert p == Pixel(p.x, p.y);
      }
    }
    s
  }

  /** The normalized centre of column or row `i` lies beyond the content. */
  predicate InPadding(i: nat, size: nat, content: nat)
    requires size > 0
  {
    (i as real + 0.5) / size as real > content as real / size as real
  }

  lemma SameDenominator(a: real, b: real, c: real)
    requires c > 0.0
    ensures a / c > b / c <==> a > b
  {
    var p, q := a / c, b / c;
    assert p * c == a && q * c == b;
    if p > q {
      assert (p - q) * c > 0.0;
    }
  }

  /** Comparing normalized pixel centres is comparing whole pixels. */
  lemma PaddingExact(i: nat, size: nat, content: nat)
    requires size > 0
    ensures InPadding(i, size, content) <==> i >= content
  {
    SameDenominator(i as real + 0.5, content as real, size as real);
  }

  lemma OtherIndices(g: Grid, p: Pixel)
    requires g.Inside(p)
    ensures forall q :: g.Inside(q) && q != p ==> g.Index(q) != g.Index(p)
  {
    forall q | g.Inside(q) && q != p ensures g.Index(q) != g.Index(p) {
      g.IndexOrder(p, q);
      g.IndexOrder(q, p);
    }
  }

  /** The flags while the padding before `at` has been masked. */
  ghost predicate Masked(output: seq<real>, g: Grid, threshold: real, content: Content, flags: seq<bool>, at: Pixel) {
    && |flags| == g.Size()
    && forall p :: g.Inside(p) ==>
         (flags[g.Index(p)] <==>
            && g.Index(p) < |output| && output[g.Index(p)] >= threshold
            && (Before(p, at) ==> p.x < content.width && p.y < content.height))
  }

  lemma MaskStep(output: seq<real>, g: Grid, threshold: real, content: Content, flags: seq<bool>, p: Pixel)
    requires g.Inside(p) && Masked(output, g, threshold, content, flags, p)
    ensures var padding := p.x >= content.width || p.y >= content.height;
            Masked(output, g, threshold, content, if padding then flags[g.Index(p) := false] else flags,
                   Pixel(p.x + 1, p.y))
  {
    OtherIndices(g, p);
    hide Grid.Index;
    assert forall q :: g.Inside(q) && q != p ==> (Before(q, Pixel(p.x + 1, p.y)) <==> Before(q, p));
  }

  lemma MaskNextRow(output: seq<real>, g: Grid, threshold: real, content: Content, flags: seq<bool>, y: nat)
    requires Masked(output, g, threshold, content, flags, Pixel(g.width, y))
    ensures Masked(output, g, threshold, content, flags, Pixel(0, y + 1))
  {
  }

  lemma MaskDone(output: seq<real>, g: Grid, threshold: real, content: Content, flags: seq<bool>)
    requires Masked(output, g, threshold, content, flags, Pixel(0, g.height))
    ensures g.Marked(flags) == Foreground(output, g, threshold, content)
  {
  }

  lemma MaskStart(output: seq<real>, g: Grid, threshold: real, content: Content, flags: seq<bool>)
    requires |flags| == g.Size()
    requires forall i :: 0 <= i < |flags| ==> (flags[i] <==> i < |output| && output[i] >= threshold)
    ensures Masked(output, g, threshold, content, flags, Pixel(0, 0))
  {
  }

  /** Thresholds the probabilities, however many there are, and masks out the padding. */
  method TextMask(output: seq<real>, g: Grid, threshold: real, content: Content) returns (mask: seq<bool>)
    ensures |mask| == g.Size() && g.Marked(mask) == Foreground(output, g, threshold, content)
  {
    hide Grid.Index, Grid.Marked, Foreground, Masked, InPadding;
    var binary := new bool[g.Size()](_ => false);
    var n := if |output| < g.Size() then |output| else g.Size();
    for i := 0 to n
      invariant forall k :: 0 <= k < binary.Length ==> (binary[k] <==> k < i && output[k] >= threshold)
    {
      binary[i] := output[i] >= threshold;
    }
    MaskStart(output, g, threshold, content, binary[..]);
    for y := 0 to g.height
      invariant Masked(output, g, threshold, content, binary[..], Pixel(0, y))
    {
      for x := 0 to g.width
        invariant Masked(output, g, threshold, content, binary[..], Pixel(x, y))
      {
        var idx := g.Index(Pixel(x, y));
        MaskStep(output, g, threshold, content, binary[..], Pixel(x, y));
        PaddingExact(x, g.width, content.width);
        PaddingExact(y, g.height, content.height);
        if InPadding(x, g.width, content.width) || InPadding(y, g.height, content.height) {
          ghost var was := binary[..];
          binary[idx] := false;
          assert binary[..] == was[idx := false];
        }
      }
      MaskNextRow(output, g, threshold, content, binary[..], y);
    }
    MaskDone(output, g, threshold, content, binary[..]);
    mask := binary[..];
  }

  // ----- from components to boxes

  /** The region of a component has a proper box inside the grid. */
  predicate Fits(g: Grid, r: Region) { r.minX <= r.maxX < g.width && r.minY <= r.maxY < g.height }

  function BoxWidth(r: Region): nat
    requires r.minX <= r.maxX
  {
    r.maxX - r.minX + 1
  }

  function BoxHeight(r: Region): nat
    requires r.minY <= r.maxY
  {
    r.maxY - r.minY + 1
  }

  predicate Accepted(g: Grid, r: Region)
    requires Fits(g, r)
  {
    var boxW, boxH := BoxWidth(r), BoxHeight(r);
    && r.count >= 30
    && (boxW as real / boxH as real > 1.0 || (boxW > 30 && boxH < 80))
    && r.count as real > 0.02 * (boxW as real * boxH as real)
    && !(boxW as real / g.width as real > 0.97)
  }

  function Expansion(size: nat, share: real, least: nat): (n: nat)
    requires share >= 0.0
    ensures n >= least
  {
    var exact := size as real * share;
    if exact > least as real then exact.Floor else least
  }

  /** The box of a component, grown by a few pixels within the grid, in normalized coordinates. */
  function Expanded(g: Grid, r: Region): Box
    requires Fits(g, r)
  {
    var ex, ey := Expansion(g.width, 0.003, 3), Expansion(g.height, 0.002, 2);
    var x1, y1 := if r.minX > ex then r.minX - ex else 0, if r.minY > ey then r.minY - ey else 0;
    var x2 := if r.maxX + ex + 1 < g.width then r.maxX + ex + 1 else g.width;
    var y2 := if r.maxY + ey + 1 < g.height then r.maxY + ey + 1 else g.height;
    Box(x1 as real / g.width as real, y1 as real / g.height as real,
        x2 as real / g.width as real, y2 as real / g.height as real)
  }

  /** Which components are returned, in whole numbers: of 30 pixels or more, wider than tall unless they are more than
      30 wide and less than 80 tall, filling more than a fiftieth of their box, and at most 97 percent of the width. */
  lemma AcceptedExactly(g: Grid, r: Region)
    requires Fits(g, r)
    ensures var w, h := r.maxX - r.minX + 1, r.maxY - r.minY + 1;
            Accepted(g, r) <==>
              && r.count >= 30 && (w > h || (w > 30 && h < 80))
              && 50 * r.count > w * h && 100 * w <= 97 * g.width
  {
    var w, h := BoxWidth(r), BoxHeight(r);
    AboveQuotient(w as real, h as real, 1.0);
    AboveQuotient(w as real, g.width as real, 0.97);
    FillExact(r.count, w, h);
  }

  lemma FillExact(count: nat, w: nat, h: nat)
    ensures count as real > 0.02 * (w as real * h as real) <==> 50 * count > w * h
  {
    AreaAsReal(w, h);
    var area := w * h;
    assert count as real > 0.02 * area as real <==> 50 * count > area;
  }

  lemma AreaAsReal(w: nat, h: nat)
    ensures w as real * h as real == (w * h) as real
  {
  }

  lemma AboveQuotient(a: real, b: real, c: real)
    requires b > 0.0
    ensures a / b > c <==> a > c * b
  {
    SameDenominator(a, c * b, b);
    assert c * b / b == c;
  }

  /** How far a box reaches beyond its component, in pixels of the grid: 3 columns, or 3 in a thousand of the width if
      that is more, and 2 rows, or 2 in a thousand of the height, each rounded down and cut at the edges of the grid. */
  lemma ReachExactly(g: Grid, r: Region)
    requires Fits(g, r)
    ensures var ex := if 3 * g.width / 1000 > 3 then 3 * g.width / 1000 else 3;
            var ey := if 2 * g.height / 1000 > 2 then 2 * g.height / 1000 else 2;
            Expanded(g, r) == Box(LowSide(r.minX, ex) as real / g.width as real,
                                  LowSide(r.minY, ey) as real / g.height as real,
                                  HighSide(r.maxX, ex, g.width) as real / g.width as real,
                                  HighSide(r.maxY, ey, g.height) as real / g.height as real)
  {
    ExpansionExact(g.width, 0.003, 3, 3);
    ExpansionExact(g.height, 0.002, 2, 2);
    hide Expansion;
  }

  function LowSide(min: nat, reach: nat): nat { if min >= reach then min - reach else 0 }

  function HighSide(max: nat, reach: nat, size: nat): nat {
    if max + 1 + reach <= size then max + 1 + reach else size
  }

  lemma ExpansionExact(size: nat, share: real, least: nat, thousandths: nat)
    requires share == thousandths as real / 1000.0
    ensures Expansion(size, share, least)
         == if thousandths * size / 1000 > least then thousandths * size / 1000 else least
  {
    var n := thousandths * size;
    assert size as real * share == n as real / 1000.0;
    FloorOfQuotient(n);
  }

  lemma FloorOfQuotient(n: nat)
    ensures (n as real / 1000.0).Floor == n / 1000
  {
    var q, r := n / 1000, n % 1000;
    assert n as real / 1000.0 == q as real + r as real / 1000.0;
  }

  ghost predicate AllFit(g: Grid, regions: seq<Region>) {
    forall k :: 0 <= k < |regions| ==> Fits(g, regions[k])
  }

  /** The boxes of the accepted regions, in order. */
  function BoxesOf(g: Grid, regions: seq<Region>): seq<Box>
    requires forall k :: 0 <= k < |regions| ==> Fits(g, regions[k])
  {
    if regions == [] then []
    else
      var init, last := regions[..|regions| - 1], regions[|regions| - 1];
      if Accepted(g, last) then BoxesOf(g, init) + [Expanded(g, last)] else BoxesOf(g, init)
  }

  lemma {:induction false} AcceptedHasBox(g: Grid, regions: seq<Region>, k: nat) returns (i: nat)
    requires AllFit(g, regions) && k < |regions| && Accepted(g, regions[k])
    ensures i < |BoxesOf(g, regions)| && BoxesOf(g, regions)[i] == Expanded(g, regions[k])
  {
    hide Accepted, Expanded;
    if k < |regions| - 1 {
      i := AcceptedHasBox(g, regions[..|regions| - 1], k);
    } else {
      i := |BoxesOf(g, regions[..k])|;
    }
  }

  lemma {:induction false} BoxHasAccepted(g: Grid, regions: seq<Region>, i: nat) returns (k: nat)
    requires AllFit(g, regions) && i < |BoxesOf(g, regions)|
    ensures k < |regions| && Accepted(g, regions[k]) && BoxesOf(g, regions)[i] == Expanded(g, regions[k])
  {
    hide Accepted, Expanded;
    k := |regions| - 1;
    if !Accepted(g, regions[k]) || i < |BoxesOf(g, regions[..k])| {
      k := BoxHasAccepted(g, regions[..k], i);
    }
  }

  lemma DescribedFits(g: Grid, fg: set<Pixel>, r: Region)
    requires r.Describes(Component(fg, r.seed)) && forall p :: p in fg ==> g.Inside(p)
    ensures Fits(g, r)
  {
  }

  /** The boxes are what merging makes of the accepted components, and no two of them can be merged. */
  ghost predicate Detected(g: Grid, fg: set<Pixel>, boxes: seq<Box>) {
    exists regions: seq<Region>, forest: seq<Tree> ::
      && Segments(fg, regions, fg) && AllFit(g, regions)
      && Merging(BoxesOf(g, regions), forest, boxes) && Separated(boxes)
  }

  /** What the detector returns, or that it panics: the detected boxes, in reading order as far as there is one. */
  ghost predicate Returned(g: Grid, fg: set<Pixel>, r: Option<seq<Box>>) {
    exists merged :: Detected(g, fg, merged) && InReadingOrder(merged, r)
  }

  method CollectBoxes(g: Grid, regions: seq<Region>) returns (boxes: seq<Box>)
    requires AllFit(g, regions)
    ensures boxes == BoxesOf(g, regions)
  {
    hide Accepted, Expanded;
    boxes := [];
    for k := 0 to |regions|
      invariant boxes == BoxesOf(g, regions[..k])
    {
      assert regions[..k + 1][..k] == regions[..k];
      if Accepted(g, regions[k]) {
        boxes := boxes + [Expanded(g, regions[k])];
      }
    }
    assert regions[..|regions|] == regions;
  }

  /** The boxes of all text, merged; a shape other than 1 x 1 x height x width gives none. */
  method Detect(output: seq<real>, shape: seq<nat>, threshold: real, content: Content,
                unordered: seq<Box> -> Option<seq<Box>>)
    returns (r: Option<seq<Box>>)
    requires KeepsElements(unordered)
    ensures |shape| == 4 && shape[0] == shape[1] == 1 ==>
      var g := Grid(shape[3], shape[2]);
      Returned(g, Foreground(output, g, threshold, content), r)
    ensures !(|shape| == 4 && shape[0] == shape[1] == 1) ==> r == Some([])
  {
    if |shape| != 4 || shape[0] != 1 || shape[1] != 1 {
      return Some([]);
    }
    hide Segments, Merging, Separated, Grid.Marked, Foreground, BoxesOf, AllFit, InReadingOrder, KeepsElements;
    var g := Grid(shape[3], shape[2]);
    var mask := TextMask(output, g, threshold, content);
    var regions := FindRegions(g, mask);
    ghost var fg := Foreground(output, g, threshold, content);
    RegionsFit(g, fg, regions);
    var raw := CollectBoxes(g, regions);
    var boxes := MergeOverlapping(raw);
    assert Detected(g, fg, boxes);
    r := SortForReading(boxes, unordered);
  }

  lemma RegionsFit(g: Grid, fg: set<Pixel>, regions: seq<Region>)
    requires Segments(fg, regions, fg) && forall p :: p in fg ==> g.Inside(p)
    ensures AllFit(g, regions)
  {
    hide Component;
    forall k | 0 <= k < |regions| ensures Fits(g, regions[k]) {
      assert Described(fg, regions[k]);
      DescribedFits(g, fg, regions[k]);
    }
  }

  // ----- what detection guarantees

  /** The component of `p` passes the filter, which looks only at its size and its box. */
  ghost predicate IsText(g: Grid, fg: set<Pixel>, p: Pixel) {
    exists r: Region :: r.Describes(Component(fg, p)) && Fits(g, r) && Accepted(g, r)
  }

  /** Pixel `p` as a square of the normalized image. */
  function Cell(g: Grid, p: Pixel): Box
    requires g.Inside(p)
  {
    Box(p.x as real / g.width as real, p.y as real / g.height as real,
        (p.x + 1) as real / g.width as real, (p.y + 1) as real / g.height as real)
  }

  lemma DivMonotone(a: int, b: int, c: nat)
    requires a <= b && c > 0
    ensures a as real / c as real <= b as real / c as real
  {
    SameDenominator(a as real, b as real, c as real);
  }

  lemma CellInExpanded(g: Grid, r: Region, p: Pixel)
    requires Fits(g, r) && g.Inside(p) && r.minX <= p.x <= r.maxX && r.minY <= p.y <= r.maxY
    ensures Inside(Cell(g, p), Expanded(g, r))
  {
    var ex, ey := Expansion(g.width, 0.003, 3), Expansion(g.height, 0.002, 2);
    hide Expansion;
    DivMonotone(if r.minX > ex then r.minX - ex else 0, p.x, g.width);
    DivMonotone(if r.minY > ey then r.minY - ey else 0, p.y, g.height);
    DivMonotone(p.x + 1, if r.maxX + ex + 1 < g.width then r.maxX + ex + 1 else g.width, g.width);
    DivMonotone(p.y + 1, if r.maxY + ey + 1 < g.height then r.maxY + ey + 1 else g.height, g.height);
  }

  lemma InsideTransitive(a: Box, b: Box, c: Box)
    requires Inside(a, b) && Inside(b, c)
    ensures Inside(a, c)
  {
  }

  lemma InputInOutput(boxes: seq<Box>, forest: seq<Tree>, merged: seq<Box>, i: nat) returns (k: nat)
    requires Merging(boxes, forest, merged) && i < |boxes|
    ensures k < |merged| && Inside(boxes[i], merged[k])
  {
    EachBoxInOneTree(boxes, forest, merged, i);
    k :| 0 <= k < |forest| && forest[k].Leaves()[i] == 1;
    assert Builds(boxes, forest[k], merged[k]);
    HullExact(boxes, forest[k]);
  }

  lemma TextInMerged(g: Grid, fg: set<Pixel>, boxes: seq<Box>, p: Pixel) returns (m: nat)
    requires Detected(g, fg, boxes) && p in fg && g.Inside(p) && IsText(g, fg, p)
    ensures m < |boxes| && Inside(Cell(g, p), boxes[m])
  {
    hide Component, Separated, Merging, Accepted, Expanded, Cell, Inside, Described, Apart, TotalCount;
    var regions: seq<Region>, forest: seq<Tree> :|
      && Segments(fg, regions, fg) && AllFit(g, regions)
      && Merging(BoxesOf(g, regions), forest, boxes) && Separated(boxes);
    assert Owned(fg, regions, p);
    var k :| 0 <= k < |regions| && p in Component(fg, regions[k].seed);
    var r := regions[k];
    RegionOfPixel(g, fg, regions, k, p);
    CellInExpanded(g, r, p);
    var i := AcceptedHasBox(g, regions, k);
    m := InputInOutput(BoxesOf(g, regions), forest, boxes, i);
    InsideTransitive(Cell(g, p), Expanded(g, r), boxes[m]);
  }

  /** No text is lost: every pixel of every component that passes the filter lies in a returned box. */
  lemma TextIsCovered(g: Grid, fg: set<Pixel>, boxes: seq<Box>, p: Pixel)
    requires Returned(g, fg, Some(boxes)) && p in fg && g.Inside(p) && IsText(g, fg, p)
    ensures exists b :: b in boxes && Inside(Cell(g, p), b)
  {
    hide Detected, IsText, Inside, Cell;
    var merged :| Detected(g, fg, merged) && InReadingOrder(merged, Some(boxes));
    var m := TextInMerged(g, fg, merged, p);
    SameContent(boxes, merged, merged[m]);
  }

  lemma AcceptedSame(g: Grid, a: Region, b: Region)
    requires Fits(g, a) && Fits(g, b) && Accepted(g, a) && a.count == b.count
    requires a.minX == b.minX && a.maxX == b.maxX && a.minY == b.minY && a.maxY == b.maxY
    ensures Accepted(g, b)
  {
  }

  lemma RegionOfPixel(g: Grid, fg: set<Pixel>, regions: seq<Region>, k: nat, p: Pixel)
    requires Segments(fg, regions, fg) && AllFit(g, regions) && k < |regions| && p in fg && IsText(g, fg, p)
    requires p in Component(fg, regions[k].seed)
    ensures regions[k].minX <= p.x <= regions[k].maxX && regions[k].minY <= p.y <= regions[k].maxY
    ensures Accepted(g, regions[k])
  {
    SeedInForeground(fg, regions, k);
    ComponentsPartition(fg, regions[k].seed, p);
    InOwnComponent(fg, p);
    hide Component, Accepted, Owned, Apart, Connected;
    assert Described(fg, regions[k]);
    var r: Region :| r.Describes(Component(fg, p)) && Fits(g, r) && Accepted(g, r);
    TightUnique(Component(fg, p), r, regions[k]);
    AcceptedSame(g, r, regions[k]);
  }

  /** The expanded box of some component that passes the filter. */
  ghost predicate FromText(g: Grid, fg: set<Pixel>, b: Box) {
    exists r: Region :: r.seed in fg && r.Describes(Component(fg, r.seed)) && Fits(g, r) && Accepted(g, r)
                        && b == Expanded(g, r)
  }

  lemma InputFromText(g: Grid, fg: set<Pixel>, regions: seq<Region>, i: nat)
    requires Segments(fg, regions, fg) && AllFit(g, regions) && i < |BoxesOf(g, regions)|
    ensures FromText(g, fg, BoxesOf(g, regions)[i])
  {
    hide Component, Accepted, Expanded, Owned, Apart;
    var k := BoxHasAccepted(g, regions, i);
    assert Described(fg, regions[k]);
    SeedInForeground(fg, regions, k);
  }

  /** `b` is the expanded box of a component that passes the filter, and lies in `box`. */
  ghost predicate PartOf(g: Grid, fg: set<Pixel>, b: Box, box: Box) { FromText(g, fg, b) && Inside(b, box) }

  /** The box contains the expanded boxes of some components that pass the filter, and each of its sides is the side of
      one of them. */
  ghost predicate MadeOfText(g: Grid, fg: set<Pixel>, box: Box) {
    && (exists b :: PartOf(g, fg, b, box) && b.x1 == box.x1)
    && (exists b :: PartOf(g, fg, b, box) && b.y1 == box.y1)
    && (exists b :: PartOf(g, fg, b, box) && b.x2 == box.x2)
    && (exists b :: PartOf(g, fg, b, box) && b.y2 == box.y2)
  }

  lemma HullIsText(g: Grid, fg: set<Pixel>, raw: seq<Box>, leaves: multiset<nat>, box: Box)
    requires ExactHull(raw, leaves, box) && forall i :: 0 <= i < |raw| ==> FromText(g, fg, raw[i])
    ensures MadeOfText(g, fg, box)
  {
    hide FromText, Inside;
    var x :| x in leaves && x < |raw| && raw[x].x1 == box.x1;
    var y :| y in leaves && y < |raw| && raw[y].y1 == box.y1;
    var z :| z in leaves && z < |raw| && raw[z].x2 == box.x2;
    var w :| w in leaves && w < |raw| && raw[w].y2 == box.y2;
    assert PartOf(g, fg, raw[x], box) && PartOf(g, fg, raw[y], box);
    assert PartOf(g, fg, raw[z], box) && PartOf(g, fg, raw[w], box);
  }

  lemma MergedComesFromText(g: Grid, fg: set<Pixel>, boxes: seq<Box>, k: nat)
    requires Detected(g, fg, boxes) && k < |boxes|
    ensures MadeOfText(g, fg, boxes[k])
  {
    hide Segments, Separated, FromText, BoxesOf, Tree.First, ForestLeaves, Tree.Leaves, Tree.HullOf;
    hide MadeOfText, ExactHull;
    var regions: seq<Region>, forest: seq<Tree> :|
      && Segments(fg, regions, fg) && AllFit(g, regions)
      && Merging(BoxesOf(g, regions), forest, boxes) && Separated(boxes);
    var raw := BoxesOf(g, regions);
    assert Builds(raw, forest[k], boxes[k]);
    HullExact(raw, forest[k]);
    hide Merging, Inside;
    forall i | 0 <= i < |raw| ensures FromText(g, fg, raw[i]) {
      InputFromText(g, fg, regions, i);
    }
    HullIsText(g, fg, raw, forest[k].Leaves(), boxes[k]);
  }

  /** Nothing but text is returned. */
  lemma BoxesComeFromText(g: Grid, fg: set<Pixel>, boxes: seq<Box>, box: Box)
    requires Returned(g, fg, Some(boxes)) && box in boxes
    ensures MadeOfText(g, fg, box)
  {
    hide Detected, MadeOfText;
    var merged :| Detected(g, fg, merged) && InReadingOrder(merged, Some(boxes));
    SameContent(boxes, merged, box);
    var k :| 0 <= k < |merged| && merged[k] == box;
    MergedComesFromText(g, fg, merged, k);
  }

  /** The detector returns its boxes in reading order, unless the boxes it detected are not ordered by the comparison,
      and then they do not fall into separate lines either. */
  lemma ReturnedInOrder(g: Grid, fg: set<Pixel>, r: Option<seq<Box>>)
    requires Returned(g, fg, r)
    ensures || (r.Some? && SortedBy(NOT_AFTER, r.value))
            || exists merged :: Detected(g, fg, merged) && !Consistent(merged) && !Lines(merged)
  {
    hide Detected, Consistent, Lines, SortedBy;
    var merged :| Detected(g, fg, merged) && InReadingOrder(merged, r);
    if Lines(merged) {
      LinesAreOrdered(merged);
    }
  }
}
