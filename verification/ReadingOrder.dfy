/** The sort into reading order that ends text detection (src/inference.rs, step 6 of the PaddleOCR detector): when its
    comparison is an order, and what the sort returns. */
module ReadingOrder {
  import opened Geometry
  import opened Options
  import opened Sequences

  const SAME_LINE := 0.02

  /** The centres are at most 2 percent of the height apart. */
  predicate InLine(a: Box, b: Box) {
    Abs((a.y1 + a.y2) / 2.0 - (b.y1 + b.y2) / 2.0) < SAME_LINE
  }

  /** The comparison: by left edge within a line, else by upper edge. */
  predicate ReadsBefore(a: Box, b: Box) {
    if InLine(a, b) then a.x1 < b.x1 else a.y1 < b.y1
  }

  const NOT_AFTER: (Box, Box) -> bool := (a: Box, b: Box) => !ReadsBefore(b, a)

  /** Two boxes of different lines, linked by a third that is in line with both and not outside their left edges, come
      in the order of their left edges. */
  predicate LinkAgrees(a: Box, b: Box, c: Box) {
    InLine(a, b) && InLine(b, c) && !InLine(a, c) && a.x1 <= b.x1 <= c.x1 ==>
      a.y1 < c.y1 || (a.y1 == c.y1 && a.x1 == c.x1)
  }

  /** Two boxes of one line, with the upper edge of a third that is in line with neither not outside theirs, come in the
      order of their upper edges. */
  predicate GapAgrees(a: Box, b: Box, c: Box) {
    InLine(a, c) && !InLine(a, b) && !InLine(b, c) && a.y1 <= b.y1 <= c.y1 ==>
      a.x1 < c.x1 || (a.x1 == c.x1 && a.y1 == c.y1)
  }

  predicate Consistent(boxes: seq<Box>) {
    forall a, b, c :: a in boxes && b in boxes && c in boxes ==> LinkAgrees(a, b, c) && GapAgrees(a, b, c)
  }

  ghost predicate Transitive(a: Box, b: Box, c: Box) {
    NOT_AFTER(a, b) && NOT_AFTER(b, c) ==> NOT_AFTER(a, c)
  }

  lemma InLineSymmetric(a: Box, b: Box)
    ensures InLine(a, b) == InLine(b, a) && InLine(a, a)
  {
  }

  lemma TransitiveIfAgrees(a: Box, b: Box, c: Box)
    requires LinkAgrees(b, c, a) && LinkAgrees(c, a, b) && LinkAgrees(c, b, a)
    requires GapAgrees(c, a, b) && GapAgrees(b, c, a) && GapAgrees(c, b, a)
    requires LinkAgrees(a, b, c) && LinkAgrees(b, a, c) && LinkAgrees(a, c, b)
    requires GapAgrees(a, b, c) && GapAgrees(b, a, c) && GapAgrees(a, c, b)
    ensures Transitive(a, b, c)
  {
    InLineSymmetric(a, b);
    InLineSymmetric(b, c);
    InLineSymmetric(a, c);
    hide InLine;
  }

  lemma AgreesIfTransitive(a: Box, b: Box, c: Box)
    requires Transitive(a, b, c) && Transitive(b, c, a) && Transitive(c, a, b)
    requires Transitive(c, b, a) && Transitive(a, c, b) && Transitive(b, a, c)
    ensures LinkAgrees(a, b, c) && GapAgrees(a, b, c)
  {
    InLineSymmetric(a, b);
    InLineSymmetric(b, c);
    InLineSymmetric(a, c);
    hide InLine;
  }

  /** The comparison orders the boxes exactly when left and upper edges agree wherever lines are linked or
      interleaved. */
  lemma OrderExactly(boxes: seq<Box>)
    ensures PreorderOn(NOT_AFTER, boxes) <==> Consistent(boxes)
  {
    forall a, b | a in boxes && b in boxes ensures NOT_AFTER(a, b) || NOT_AFTER(b, a) {
      InLineSymmetric(a, b);
    }
    hide LinkAgrees, GapAgrees, InLine, ReadsBefore;
    if Consistent(boxes) {
      forall a, b, c | a in boxes && b in boxes && c in boxes ensures Transitive(a, b, c) {
        TransitiveIfAgrees(a, b, c);
      }
    }
    if PreorderOn(NOT_AFTER, boxes) {
      forall a, b, c | a in boxes && b in boxes && c in boxes ensures LinkAgrees(a, b, c) && GapAgrees(a, b, c) {
        AgreesIfTransitive(a, b, c);
      }
    }
  }

  /** Being in line is transitive, and no upper edge of another line lies between those of two boxes of one line. */
  ghost predicate Lines(boxes: seq<Box>) {
    && (forall a, b, c :: a in boxes && b in boxes && c in boxes && InLine(a, b) && InLine(b, c) ==> InLine(a, c))
    && (forall a, b, c :: a in boxes && b in boxes && c in boxes && a != c && InLine(a, c) && !InLine(a, b) ==>
          !(a.y1 <= b.y1 <= c.y1))
  }

  /** In particular, boxes that fall into separate lines are ordered. */
  lemma LinesAreOrdered(boxes: seq<Box>)
    requires Lines(boxes)
    ensures Consistent(boxes) && PreorderOn(NOT_AFTER, boxes)
  {
    forall a, b, c | a in boxes && b in boxes && c in boxes ensures LinkAgrees(a, b, c) && GapAgrees(a, b, c) {
      hide InLine;
    }
    OrderExactly(boxes);
  }

  /** `b` need not be read before `a`, in numbers: with centres less than 0.02 apart the left edges count, and otherwise
      the upper edges. */
  predicate MayPrecede(a: Box, b: Box) {
    if -0.04 < a.y1 + a.y2 - b.y1 - b.y2 < 0.04 then a.x1 <= b.x1 else a.y1 <= b.y1
  }

  lemma ComparisonMeans(a: Box, b: Box)
    ensures NOT_AFTER(a, b) <==> MayPrecede(a, b)
    ensures InLine(a, b) <==> -0.04 < a.y1 + a.y2 - b.y1 - b.y2 < 0.04
  {
  }

  /** What the library promises for a comparison that is not an order: it panics, or keeps all elements. */
  ghost predicate KeepsElements(unordered: seq<Box> -> Option<seq<Box>>) {
    forall s :: unordered(s).Some? ==> multiset(unordered(s).value) == multiset(s)
  }

  /** The result of the sort, if it returns: ordered if there is an order, and the same boxes in any case. */
  ghost predicate InReadingOrder(boxes: seq<Box>, r: Option<seq<Box>>) {
    && (r.None? ==> !Consistent(boxes))
    && (r.Some? ==> multiset(r.value) == multiset(boxes))
    && (r.Some? && Consistent(boxes) ==> SortedBy(NOT_AFTER, r.value) && InPlace(r.value))
  }

  ghost predicate InPlace(boxes: seq<Box>) {
    forall i, j :: 0 <= i < j < |boxes| ==> MayPrecede(boxes[i], boxes[j])
  }

  lemma SortedInPlace(boxes: seq<Box>)
    requires SortedBy(NOT_AFTER, boxes)
    ensures InPlace(boxes)
  {
    forall i, j | 0 <= i < j < |boxes| ensures MayPrecede(boxes[i], boxes[j]) {
      ComparisonMeans(boxes[i], boxes[j]);
      assert NOT_AFTER(boxes[i], boxes[j]);
    }
  }

  /** A stable sort by the comparison, as far as it is one; `unordered` is what the library does otherwise. */
  method SortForReading(boxes: seq<Box>, unordered: seq<Box> -> Option<seq<Box>>) returns (r: Option<seq<Box>>)
    requires KeepsElements(unordered)
    ensures InReadingOrder(boxes, r)
    ensures Lines(boxes) ==> r.Some? && SortedBy(NOT_AFTER, r.value)
  {
    if Lines(boxes) {
      LinesAreOrdered(boxes);
    }
    OrderExactly(boxes);
    if Consistent(boxes) {
      SortSortedOn(NOT_AFTER, boxes);
      SortContent(NOT_AFTER, boxes);
      SortedInPlace(Sort(NOT_AFTER, boxes));
      return Some(Sort(NOT_AFTER, boxes));
    }
    return unordered(boxes);
  }
}
