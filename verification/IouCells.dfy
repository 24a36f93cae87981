/** What the overlap measure of the suppression is (src/inference.rs, `calculate_iou`): for boxes with whole-numbered
    corners the cells in both over the cells in either, and the same for boxes of any scale. */
module IouCells {
  import opened Geometry
  import opened Nms
  import opened Sets

  /** A box with whole-numbered corners. */
  datatype Corners = Corners(x1: int, y1: int, x2: int, y2: int) {
    function AsBox(): Box { Box(x1 as real, y1 as real, x2 as real, y2 as real) }

    /** The unit cells in the box, by their lower corners. */
    ghost function Cells(): set<(int, int)> { set x, y | x1 <= x < x2 && y1 <= y < y2 :: (x, y) }
  }

  function Length(lo: int, hi: int): nat { if hi > lo then hi - lo else 0 }

  ghost function Column(x: int, lo: int, hi: int): set<(int, int)> { set y | lo <= y < hi :: (x, y) }

  lemma {:induction false} ColumnSize(x: int, lo: int, hi: int)
    ensures |Column(x, lo, hi)| == Length(lo, hi)
    decreases hi - lo
  {
    if hi > lo {
      ColumnSize(x, lo, hi - 1);
      assert Column(x, lo, hi) == Column(x, lo, hi - 1) + {(x, hi - 1)};
    } else {
      assert Column(x, lo, hi) == {};
    }
  }

  lemma {:induction false} CellCount(c: Corners)
    ensures |c.Cells()| == Length(c.x1, c.x2) * Length(c.y1, c.y2)
    decreases c.x2 - c.x1
  {
    if c.x2 > c.x1 {
      var less := c.(x2 := c.x2 - 1);
      CellCount(less);
      ColumnSize(c.x2 - 1, c.y1, c.y2);
      assert c.Cells() == less.Cells() + Column(c.x2 - 1, c.y1, c.y2);
      assert less.Cells() !! Column(c.x2 - 1, c.y1, c.y2);
      DisjointSize(less.Cells(), Column(c.x2 - 1, c.y1, c.y2));
      OneMore(Length(c.x1, c.x2 - 1), Length(c.y1, c.y2));
    } else {
      assert c.Cells() == {};
    }
  }

  lemma OneMore(a: nat, b: nat)
    ensures (a + 1) * b == a * b + b
  {
  }

  function Larger(a: int, b: int): int { if a >= b then a else b }
  function Smaller(a: int, b: int): int { if a <= b then a else b }

  function Common(a: Corners, b: Corners): Corners {
    Corners(Larger(a.x1, b.x1), Larger(a.y1, b.y1), Smaller(a.x2, b.x2), Smaller(a.y2, b.y2))
  }

  lemma ProductAsReal(a: nat, b: nat)
    ensures (a * b) as real == a as real * b as real
  {
  }

  lemma AreaIsCells(c: Corners)
    ensures Area(c.AsBox()) == |c.Cells()| as real
  {
    CellCount(c);
    ProductAsReal(Length(c.x1, c.x2), Length(c.y1, c.y2));
  }

  lemma IntersectionIsCells(a: Corners, b: Corners)
    ensures Intersection(a.AsBox(), b.AsBox()) == |a.Cells() * b.Cells()| as real
  {
    CommonCells(a, b);
    CellCount(Common(a, b));
    OverlapIsLength(a.x1, a.x2, b.x1, b.x2);
    OverlapIsLength(a.y1, a.y2, b.y1, b.y2);
    hide Overlap, Length, Larger, Smaller, Corners.Cells;
    var c := Common(a, b);
    ProductAsReal(Length(c.x1, c.x2), Length(c.y1, c.y2));
  }

  lemma CommonCells(a: Corners, b: Corners)
    ensures a.Cells() * b.Cells() == Common(a, b).Cells()
  {
  }

  lemma OverlapIsLength(lo: int, hi: int, otherLo: int, otherHi: int)
    ensures Overlap(lo as real, hi as real, otherLo as real, otherHi as real)
         == Length(Larger(lo, otherLo), Smaller(hi, otherHi)) as real
  {
  }

  lemma UnionSize<T>(a: set<T>, b: set<T>)
    ensures |a + b| == |a| + |b| - |a * b|
  {
  }

  lemma QuotientTimes(n: real, d: real)
    requires d > 0.0
    ensures n / d * d == n
  {
  }

  /** For boxes with whole-numbered corners, IoU is the number of cells in both over the number of cells in either, and
      0 if there is no cell. */
  lemma IouIsCellRatio(a: Corners, b: Corners)
    ensures Iou(a.AsBox(), b.AsBox()) * |a.Cells() + b.Cells()| as real == |a.Cells() * b.Cells()| as real
    ensures a.Cells() + b.Cells() == {} ==> Iou(a.AsBox(), b.AsBox()) == 0.0
  {
    AreaIsCells(a);
    AreaIsCells(b);
    IntersectionIsCells(a, b);
    UnionSize(a.Cells(), b.Cells());
    var both, either := |a.Cells() * b.Cells()|, |a.Cells() + b.Cells()|;
    hide Area, Intersection, Corners.Cells;
    assert both <= either by { SubsetSize(a.Cells() * b.Cells(), a.Cells() + b.Cells()); }
    if either > 0 {
      QuotientTimes(both as real, either as real);
    }
  }

  // ----- other scales

  function Times(k: real, a: real): real { k * a }

  function Scaled(a: Box, k: real): Box { Box(Times(k, a.x1), Times(k, a.y1), Times(k, a.x2), Times(k, a.y2)) }

  predicate IsSquare(q: real, k: real) { q == Times(k, k) }

  lemma Positive(a: real, b: real)
    requires a > 0.0
    ensures b > 0.0 ==> Times(a, b) > 0.0
  {
  }

  lemma OrderScales(a: real, b: real, k: real)
    requires k > 0.0
    ensures Times(k, a) <= Times(k, b) <==> a <= b
    ensures Times(k, a) - Times(k, b) == Times(k, a - b)
  {
    Positive(k, b - a);
    Positive(k, a - b);
  }

  lemma ExtremesScale(a: real, b: real, k: real)
    requires k > 0.0
    ensures Max(Times(k, a), Times(k, b)) == Times(k, Max(a, b))
    ensures Min(Times(k, a), Times(k, b)) == Times(k, Min(a, b))
  {
    OrderScales(a, b, k);
    OrderScales(b, a, k);
    hide Times;
  }

  lemma ExtentScales(lo: real, hi: real, k: real)
    requires k > 0.0
    ensures Max(Times(k, hi) - Times(k, lo), 0.0) == Times(k, Max(hi - lo, 0.0))
  {
    OrderScales(hi, lo, k);
    OrderScales(lo, hi, k);
    assert Times(k, 0.0) == 0.0;
    hide Times;
  }

  lemma OverlapScales(lo: real, hi: real, otherLo: real, otherHi: real, k: real)
    requires k > 0.0
    ensures Overlap(Times(k, lo), Times(k, hi), Times(k, otherLo), Times(k, otherHi))
         == Times(k, Overlap(lo, hi, otherLo, otherHi))
    ensures Extent(Times(k, lo), Times(k, hi)) == Times(k, Extent(lo, hi))
  {
    ExtremesScale(lo, otherLo, k);
    ExtremesScale(hi, otherHi, k);
    ExtentScales(Max(lo, otherLo), Min(hi, otherHi), k);
    ExtentScales(lo, hi, k);
    hide Max, Min, Times;
  }

  lemma ProductScales(w: real, h: real, k: real, q: real)
    requires IsSquare(q, k)
    ensures Times(k, w) * Times(k, h) == Times(q, w * h)
  {
  }

  lemma IntersectionScales(a: Box, b: Box, k: real, q: real)
    requires k > 0.0 && IsSquare(q, k)
    ensures Intersection(Scaled(a, k), Scaled(b, k)) == Times(q, Intersection(a, b))
  {
    var w, h := Overlap(a.x1, a.x2, b.x1, b.x2), Overlap(a.y1, a.y2, b.y1, b.y2);
    OverlapScales(a.x1, a.x2, b.x1, b.x2, k);
    OverlapScales(a.y1, a.y2, b.y1, b.y2, k);
    hide Times, Overlap, IsSquare, Intersection;
    ProductScales(w, h, k, q);
    IntersectionOf(a, b, w, h);
    IntersectionOf(Scaled(a, k), Scaled(b, k), Times(k, w), Times(k, h));
  }

  lemma AreaScales(a: Box, k: real, q: real)
    requires k > 0.0 && IsSquare(q, k)
    ensures Area(Scaled(a, k)) == Times(q, Area(a))
  {
    var w, h := Extent(a.x1, a.x2), Extent(a.y1, a.y2);
    OverlapScales(a.x1, a.x2, a.x1, a.x2, k);
    OverlapScales(a.y1, a.y2, a.y1, a.y2, k);
    hide Times, Extent, IsSquare, Area;
    ProductScales(w, h, k, q);
    AreaOf(a, w, h);
    AreaOf(Scaled(a, k), Times(k, w), Times(k, h));
  }

  lemma IntersectionOf(a: Box, b: Box, w: real, h: real)
    requires w == Overlap(a.x1, a.x2, b.x1, b.x2) && h == Overlap(a.y1, a.y2, b.y1, b.y2)
    ensures Intersection(a, b) == w * h
  {
  }

  lemma AreaOf(a: Box, w: real, h: real)
    requires w == Extent(a.x1, a.x2) && h == Extent(a.y1, a.y2)
    ensures Area(a) == w * h
  {
  }

  lemma IouOf(a: Box, b: Box, n: real, d: real)
    requires n == Intersection(a, b) && d == Area(a) + Area(b) - n
    ensures Iou(a, b) == if d > 0.0 then n / d else 0.0
  {
  }

  lemma QuotientUnique(n: real, d: real, q: real)
    requires d > 0.0 && q * d == n
    ensures n / d == q
  {
    var r := n / d;
    assert (r - q) * d == 0.0;
  }

  lemma RatioScales(n: real, d: real, q: real)
    requires q > 0.0
    ensures Times(q, d) > 0.0 <==> d > 0.0
    ensures d > 0.0 ==> Times(q, n) / Times(q, d) == n / d
  {
    Positive(q, d);
    Positive(q, -d);
    if d > 0.0 {
      QuotientTimes(n, d);
      var r := n / d;
      assert r * (q * d) == q * (r * d);
      QuotientUnique(q * n, q * d, r);
    }
  }

  lemma TimesSum(q: real, a: real, b: real, n: real)
    ensures Times(q, a) + Times(q, b) - Times(q, n) == Times(q, a + b - n)
  {
  }

  lemma PositiveSquare(k: real) returns (q: real)
    requires k > 0.0
    ensures q > 0.0 && IsSquare(q, k)
  {
    hide Times;
    Positive(k, k);
    q := Times(k, k);
  }

  /** IoU does not depend on the scale, so the cells decide for all boxes with rational corners. */
  lemma IouScales(a: Box, b: Box, k: real)
    requires k > 0.0
    ensures Iou(Scaled(a, k), Scaled(b, k)) == Iou(a, b)
  {
    var q := PositiveSquare(k);
    IntersectionScales(a, b, k, q);
    AreaScales(a, k, q);
    AreaScales(b, k, q);
    hide Area, Intersection, Scaled, Times, IsSquare, Iou;
    var n, d := Intersection(a, b), Area(a) + Area(b) - Intersection(a, b);
    TimesSum(q, Area(a), Area(b), n);
    IouOf(a, b, n, d);
    IouOf(Scaled(a, k), Scaled(b, k), Times(q, n), Times(q, d));
    RatioScales(n, d, q);
  }
}
