/** Class-aware non-maximum suppression and its overlap measure (src/inference.rs, `nms`, `calculate_iou`). */
module Nms {
  import opened Geometry
  import opened Sequences

  datatype Detection = Detection(name: string, classId: nat, confidence: real, bbox: Box)

  // ----- intersection over union

  /** The common length of two intervals, and the length of one. */
  function Overlap(lo: real, hi: real, otherLo: real, otherHi: real): real {
    Max(Min(hi, otherHi) - Max(lo, otherLo), 0.0)
  }

  function Extent(lo: real, hi: real): real { Max(hi - lo, 0.0) }

  function Intersection(a: Box, b: Box): real {
    Overlap(a.x1, a.x2, b.x1, b.x2) * Overlap(a.y1, a.y2, b.y1, b.y2)
  }

  function Area(a: Box): real { Extent(a.x1, a.x2) * Extent(a.y1, a.y2) }

  function Iou(a: Box, b: Box): real {
    var intersection := Intersection(a, b);
    var union := Area(a) + Area(b) - intersection;
    if union > 0.0 then intersection / union else 0.0
  }

  lemma ProductMonotone(a: real, b: real, c: real, d: real)
    requires 0.0 <= a <= c && 0.0 <= b <= d
    ensures 0.0 <= a * b <= c * d
  {
    assert a * b <= a * d;
    assert a * d <= c * d;
  }

  lemma OverlapBounded(lo: real, hi: real, otherLo: real, otherHi: real)
    ensures Overlap(lo, hi, otherLo, otherHi) == Overlap(otherLo, otherHi, lo, hi)
    ensures 0.0 <= Overlap(lo, hi, otherLo, otherHi) <= Extent(lo, hi)
    ensures Overlap(lo, hi, otherLo, otherHi) <= Extent(otherLo, otherHi)
  {
  }

  lemma IntersectionBounded(a: Box, b: Box)
    ensures Intersection(a, b) == Intersection(b, a)
    ensures 0.0 <= Intersection(a, b) <= Area(a)
    ensures Intersection(a, b) <= Area(b)
  {
    hide Overlap, Extent;
    OverlapBounded(a.x1, a.x2, b.x1, b.x2);
    OverlapBounded(a.y1, a.y2, b.y1, b.y2);
    var w, h := Overlap(a.x1, a.x2, b.x1, b.x2), Overlap(a.y1, a.y2, b.y1, b.y2);
    ProductMonotone(w, h, Extent(a.x1, a.x2), Extent(a.y1, a.y2));
    ProductMonotone(w, h, Extent(b.x1, b.x2), Extent(b.y1, b.y2));
  }

  lemma QuotientBounded(n: real, d: real)
    requires 0.0 <= n <= d && d > 0.0
    ensures 0.0 <= n / d <= 1.0
    ensures n / d == 1.0 <==> n == d
    ensures n / d == 0.0 <==> n == 0.0
  {
    var q := n / d;
    assert q * d == n;
  }

  /** IoU is a symmetric measure in [0, 1]: 0 exactly for boxes without common area, and 1 exactly for boxes whose
      common area is all of both. */
  lemma IouIsOverlapMeasure(a: Box, b: Box)
    ensures Iou(a, b) == Iou(b, a)
    ensures 0.0 <= Iou(a, b) <= 1.0
    ensures Iou(a, b) == 0.0 <==> Intersection(a, b) == 0.0
    ensures Iou(a, b) == 1.0 <==> Area(a) == Area(b) == Intersection(a, b) > 0.0
  {
    IntersectionBounded(a, b);
    hide Intersection, Area;
    var union := Area(a) + Area(b) - Intersection(a, b);
    if union > 0.0 {
      QuotientBounded(Intersection(a, b), union);
    }
  }

  // ----- greedy suppression within one class

  const HIGHER_FIRST: (Detection, Detection) -> bool :=
    (a: Detection, b: Detection) => a.confidence >= b.confidence

  function OfClass(c: nat): Detection -> bool { (d: Detection) => d.classId == c }

  predicate Suppresses(d: Detection, e: Detection, threshold: real) { Iou(d.bbox, e.bbox) > threshold }

  function ClearOf(d: Detection, threshold: real): Detection -> bool { (e: Detection) => !Suppresses(d, e, threshold) }

  /** Keeps the first detection, drops everything it suppresses, and goes on with the rest. */
  ghost function Greedy(s: seq<Detection>, threshold: real): seq<Detection>
    decreases |s|
  {
    if s == [] then [] else [s[0]] + Greedy(Filter(ClearOf(s[0], threshold), s[1..]), threshold)
  }

  /** The unsuppressed detections from index `i` on. */
  ghost function Live(s: seq<Detection>, suppressed: seq<bool>, i: nat): seq<Detection>
    requires |s| == |suppressed| && i <= |s|
    decreases |s| - i
  {
    if i == |s| then []
    else if suppressed[i] then Live(s, suppressed, i + 1)
    else [s[i]] + Live(s, suppressed, i + 1)
  }

  lemma {:induction false} SuppressLive(s: seq<Detection>, was: seq<bool>, now: seq<bool>, i: nat, d: Detection,
                                        threshold: real)
    requires |s| == |was| == |now| && i <= |s|
    requires forall k :: i <= k < |s| ==> now[k] == (was[k] || Suppresses(d, s[k], threshold))
    ensures Live(s, now, i) == Filter(ClearOf(d, threshold), Live(s, was, i))
    decreases |s| - i
  {
    if i < |s| {
      SuppressLive(s, was, now, i + 1, d, threshold);
      FilterCons(ClearOf(d, threshold), s[i], Live(s, was, i + 1));
    }
  }

  lemma {:induction false} AllLive(s: seq<Detection>, suppressed: seq<bool>, i: nat)
    requires |s| == |suppressed| && i <= |s| && forall k :: 0 <= k < |s| ==> !suppressed[k]
    ensures Live(s, suppressed, i) == s[i..]
    decreases |s| - i
  {
    if i < |s| {
      AllLive(s, suppressed, i + 1);
    }
  }

  lemma GreedyCons(d: Detection, s: seq<Detection>, threshold: real)
    ensures Greedy([d] + s, threshold) == [d] + Greedy(Filter(ClearOf(d, threshold), s), threshold)
  {
  }

  lemma GreedyEmpty(threshold: real)
    ensures Greedy([], threshold) == []
  {
  }

  method SuppressClass(classDets: seq<Detection>, threshold: real) returns (keep: seq<Detection>)
    ensures keep == Greedy(classDets, threshold)
  {
    hide Suppresses, Filter, Greedy;
    var suppressed := new bool[|classDets|](_ => false);
    AllLive(classDets, suppressed[..], 0);
    keep := [];
    for i := 0 to |classDets|
      invariant keep + Greedy(Live(classDets, suppressed[..], i), threshold) == Greedy(classDets, threshold)
    {
      if suppressed[i] {
        continue;
      }
      var d := classDets[i];
      ghost var was := suppressed[..];
      keep := keep + [d];
      for j := i + 1 to |classDets|
        invariant forall k :: i < k < |classDets| ==>
          suppressed[k] == (was[k] || (k < j && Suppresses(d, classDets[k], threshold)))
      {
        if !suppressed[j] && Suppresses(d, classDets[j], threshold) {
          suppressed[j] := true;
        }
      }
      SuppressLive(classDets, was, suppressed[..], i + 1, d, threshold);
      GreedyCons(d, Live(classDets, was, i + 1), threshold);
    }
    GreedyEmpty(threshold);
  }

  lemma HigherFirstIsPreorder()
    ensures TotalPreorder(HIGHER_FIRST)
  {
  }

  lemma {:induction false} GreedyMembers(s: seq<Detection>, threshold: real, d: Detection)
    ensures multiset(Greedy(s, threshold))[d] <= multiset(s)[d]
    ensures d in Greedy(s, threshold) ==> d in s
    decreases |s|
  {
    if s != [] {
      var rest := Filter(ClearOf(s[0], threshold), s[1..]);
      assert s == [s[0]] + s[1..];
      GreedyMembers(rest, threshold, d);
      FilterMultiset(ClearOf(s[0], threshold), s[1..], d);
      assert d in Greedy(s, threshold) <==> multiset(Greedy(s, threshold))[d] > 0;
      assert d in s <==> multiset(s)[d] > 0;
    }
  }

  lemma {:induction false} GreedySorted(s: seq<Detection>, threshold: real)
    requires SortedBy(HIGHER_FIRST, s)
    ensures SortedBy(HIGHER_FIRST, Greedy(s, threshold))
    decreases |s|
  {
    if s != [] {
      var rest := Filter(ClearOf(s[0], threshold), s[1..]);
      FilterSorted(ClearOf(s[0], threshold), HIGHER_FIRST, s[1..]);
      GreedySorted(rest, threshold);
      var kept := Greedy(rest, threshold);
      forall i | 0 <= i < |kept| ensures HIGHER_FIRST(s[0], kept[i]) {
        GreedyMembers(rest, threshold, kept[i]);
        FilterMembers(ClearOf(s[0], threshold), s[1..], kept[i]);
      }
    }
  }

  /** No two of the detections overlap by more than the threshold. */
  ghost predicate Clear(s: seq<Detection>, threshold: real) {
    forall i, j :: 0 <= i < j < |s| ==> Iou(s[i].bbox, s[j].bbox) <= threshold
  }

  lemma {:induction false} GreedyClear(s: seq<Detection>, threshold: real)
    ensures Clear(Greedy(s, threshold), threshold)
    decreases |s|
  {
    if s != [] {
      var rest := Filter(ClearOf(s[0], threshold), s[1..]);
      GreedyClear(rest, threshold);
      var kept := Greedy(rest, threshold);
      forall i | 0 <= i < |kept| ensures Iou(s[0].bbox, kept[i].bbox) <= threshold {
        GreedyMembers(rest, threshold, kept[i]);
        FilterMembers(ClearOf(s[0], threshold), s[1..], kept[i]);
      }
    }
  }

  lemma {:induction false} GreedyOfClear(s: seq<Detection>, threshold: real)
    requires Clear(s, threshold)
    ensures Greedy(s, threshold) == s
  {
    if s != [] {
      FilterAll(ClearOf(s[0], threshold), s[1..]);
      GreedyOfClear(s[1..], threshold);
    }
  }

  /** Every lost copy of a detection is accounted for by a kept one that suppresses it and is no less confident. */
  lemma {:induction false} GreedyDropsJustified(s: seq<Detection>, threshold: real, d: Detection)
    returns (k: Detection)
    requires SortedBy(HIGHER_FIRST, s) && multiset(Greedy(s, threshold))[d] < multiset(s)[d]
    ensures k in Greedy(s, threshold) && k.confidence >= d.confidence && Iou(k.bbox, d.bbox) > threshold
    decreases |s|
  {
    var rest := Filter(ClearOf(s[0], threshold), s[1..]);
    assert s == [s[0]] + s[1..];
    assert d in s;
    assert forall i :: 0 < i < |s| ==> HIGHER_FIRST(s[0], s[i]);
    FilterMultiset(ClearOf(s[0], threshold), s[1..], d);
    if Suppresses(s[0], d, threshold) {
      k := s[0];
    } else {
      FilterSorted(ClearOf(s[0], threshold), HIGHER_FIRST, s[1..]);
      k := GreedyDropsJustified(rest, threshold, d);
    }
  }

  // ----- all classes

  /** What is kept of class `c`: it depends on the detections of that class only. */
  ghost function KeptOfClass(detections: seq<Detection>, threshold: real, c: nat): seq<Detection> {
    Greedy(Sort(HIGHER_FIRST, Filter(OfClass(c), detections)), threshold)
  }

  /** `keep` is ordered by confidence and consists, class by class, of what greedy suppression keeps. */
  ghost predicate Suppressed(detections: seq<Detection>, threshold: real, keep: seq<Detection>) {
    && SortedBy(HIGHER_FIRST, keep)
    && forall c :: Filter(OfClass(c), keep) == KeptOfClass(detections, threshold, c)
  }

  lemma KeptHasClass(detections: seq<Detection>, threshold: real, c: nat)
    ensures forall i :: 0 <= i < |KeptOfClass(detections, threshold, c)| ==>
      KeptOfClass(detections, threshold, c)[i].classId == c
    ensures SortedBy(HIGHER_FIRST, KeptOfClass(detections, threshold, c))
  {
    var dets := Filter(OfClass(c), detections);
    var sorted := Sort(HIGHER_FIRST, dets);
    var kept := Greedy(sorted, threshold);
    HigherFirstIsPreorder();
    SortSorted(HIGHER_FIRST, dets);
    GreedySorted(sorted, threshold);
    forall i | 0 <= i < |kept| ensures kept[i].classId == c {
      GreedyMembers(sorted, threshold, kept[i]);
      SortContent(HIGHER_FIRST, dets);
      SameContent(sorted, dets, kept[i]);
      FilterMembers(OfClass(c), detections, kept[i]);
    }
  }

  lemma SortKept(detections: seq<Detection>, threshold: real, keep: seq<Detection>)
    requires forall c :: Filter(OfClass(c), keep) == KeptOfClass(detections, threshold, c)
    ensures Suppressed(detections, threshold, Sort(HIGHER_FIRST, keep))
  {
    HigherFirstIsPreorder();
    SortSorted(HIGHER_FIRST, keep);
    forall c ensures Filter(OfClass(c), Sort(HIGHER_FIRST, keep)) == KeptOfClass(detections, threshold, c) {
      FilterCommutesWithSort(OfClass(c), HIGHER_FIRST, keep);
      KeptHasClass(detections, threshold, c);
      SortOfSorted(HIGHER_FIRST, Filter(OfClass(c), keep));
    }
  }

  lemma AbsentClass(detections: seq<Detection>, threshold: real, c: nat)
    requires forall k :: 0 <= k < |detections| ==> detections[k].classId != c
    ensures KeptOfClass(detections, threshold, c) == []
  {
    FilterNone(OfClass(c), detections);
  }

  method GroupByClass(detections: seq<Detection>) returns (byClass: map<nat, seq<Detection>>)
    ensures forall c :: c in byClass ==> byClass[c] == Filter(OfClass(c), detections)
    ensures forall k :: 0 <= k < |detections| ==> detections[k].classId in byClass
  {
    hide Filter;
    byClass := map[];
    for i := 0 to |detections|
      invariant forall k :: 0 <= k < i ==> detections[k].classId in byClass
      invariant forall c :: c in byClass ==> byClass[c] == Filter(OfClass(c), detections[..i])
    {
      var d := detections[i];
      var group := if d.classId in byClass then byClass[d.classId] else [];
      assert detections[..i + 1] == detections[..i] + [d];
      forall c ensures Filter(OfClass(c), detections[..i + 1])
                    == Filter(OfClass(c), detections[..i]) + if c == d.classId then [d] else []
      {
        FilterLast(OfClass(c), detections[..i], d);
      }
      if d.classId !in byClass {
        FilterNone(OfClass(d.classId), detections[..i]);
      }
      byClass := byClass[d.classId := group + [d]];
    }
    assert detections[..|detections|] == detections;
  }

  lemma KeptUnfold(detections: seq<Detection>, threshold: real, c: nat)
    ensures KeptOfClass(detections, threshold, c)
         == Greedy(Sort(HIGHER_FIRST, Filter(OfClass(c), detections)), threshold)
  {
  }

  /** The order in which the map of classes comes: every class of the detections once. */
  ghost predicate ClassOrder(detections: seq<Detection>, order: seq<nat>) {
    && (forall i, j :: 0 <= i < j < |order| ==> order[i] != order[j])
    && (forall c :: c in order <==> HasClass(detections, c))
  }

  ghost predicate HasClass(detections: seq<Detection>, c: nat) {
    exists k :: 0 <= k < |detections| && detections[k].classId == c
  }

  /** What is kept of the classes, one after the other. */
  ghost function Emitted(detections: seq<Detection>, threshold: real, order: seq<nat>): seq<Detection> {
    if order == [] then []
    else KeptOfClass(detections, threshold, order[0]) + Emitted(detections, threshold, order[1..])
  }

  ghost function NmsInOrder(detections: seq<Detection>, threshold: real, order: seq<nat>): seq<Detection> {
    Sort(HIGHER_FIRST, Emitted(detections, threshold, order))
  }

  lemma EmittedCons(detections: seq<Detection>, threshold: real, c: nat, rest: seq<nat>)
    ensures Emitted(detections, threshold, [c] + rest)
         == KeptOfClass(detections, threshold, c) + Emitted(detections, threshold, rest)
    ensures Emitted(detections, threshold, []) == []
  {
    assert ([c] + rest)[1..] == rest;
  }

  lemma EmittedNext(detections: seq<Detection>, threshold: real, order: seq<nat>, i: nat, keep: seq<Detection>)
    requires i < |order|
    ensures keep + Emitted(detections, threshold, order[i..])
         == keep + KeptOfClass(detections, threshold, order[i]) + Emitted(detections, threshold, order[i + 1..])
  {
    hide Emitted, KeptOfClass;
    assert order[i..] == [order[i]] + order[i + 1..];
    EmittedCons(detections, threshold, order[i], order[i + 1..]);
  }

  lemma EmittedAll(detections: seq<Detection>, threshold: real, order: seq<nat>, keep: seq<Detection>)
    ensures keep + Emitted(detections, threshold, order[|order|..]) == keep
  {
  }

  lemma ClassPresent(detections: seq<Detection>, order: seq<nat>, i: nat)
    requires ClassOrder(detections, order) && i < |order|
    ensures exists k :: 0 <= k < |detections| && detections[k].classId == order[i]
  {
    assert order[i] in order && HasClass(detections, order[i]);
  }

  lemma {:induction false} EmittedOfClass(detections: seq<Detection>, threshold: real, order: seq<nat>, c: nat)
    requires forall i, j :: 0 <= i < j < |order| ==> order[i] != order[j]
    ensures Filter(OfClass(c), Emitted(detections, threshold, order))
         == if c in order then KeptOfClass(detections, threshold, c) else []
  {
    if order != [] {
      var kept, rest := KeptOfClass(detections, threshold, order[0]), order[1..];
      EmittedOfClass(detections, threshold, rest, c);
      KeptHasClass(detections, threshold, order[0]);
      assert c in order <==> c == order[0] || c in rest;
      assert order[0] !in rest;
      hide Filter, KeptOfClass;
      FilterConcat(OfClass(c), kept, Emitted(detections, threshold, rest));
      if c == order[0] {
        FilterAll(OfClass(c), kept);
      } else {
        FilterNone(OfClass(c), kept);
      }
    }
  }

  /** In whatever order the classes come, the result is confidence-sorted and class by class the greedy selection. */
  lemma OrderSuppressed(detections: seq<Detection>, threshold: real, order: seq<nat>)
    requires ClassOrder(detections, order)
    ensures Suppressed(detections, threshold, NmsInOrder(detections, threshold, order))
  {
    hide Filter, KeptOfClass, Suppressed, Emitted;
    forall c
      ensures Filter(OfClass(c), Emitted(detections, threshold, order)) == KeptOfClass(detections, threshold, c)
    {
      EmittedOfClass(detections, threshold, order, c);
      if c !in order {
        AbsentClass(detections, threshold, c);
      }
    }
    SortKept(detections, threshold, Emitted(detections, threshold, order));
  }

  lemma MostConfidentFirst(detections: seq<Detection>, threshold: real, keep: seq<Detection>)
    requires Suppressed(detections, threshold, keep)
    ensures forall i, j :: 0 <= i < j < |keep| ==> keep[i].confidence >= keep[j].confidence
  {
    forall i, j | 0 <= i < j < |keep| ensures keep[i].confidence >= keep[j].confidence {
      assert HIGHER_FIRST(keep[i], keep[j]);
    }
  }

  /** Suppresses within each class, taking the classes in the order in which their map happens to come, and sorts what
      is kept. */
  method Nms(detections: seq<Detection>, threshold: real, order: seq<nat>) returns (keep: seq<Detection>)
    requires ClassOrder(detections, order)
    ensures keep == NmsInOrder(detections, threshold, order)
    ensures Suppressed(detections, threshold, keep)
    ensures forall i, j :: 0 <= i < j < |keep| ==> keep[i].confidence >= keep[j].confidence
  {
    OrderSuppressed(detections, threshold, order);
    MostConfidentFirst(detections, threshold, NmsInOrder(detections, threshold, order));
    assert NmsInOrder(detections, threshold, order) == Sort(HIGHER_FIRST, Emitted(detections, threshold, order));
    hide *;
    var byClass := GroupByClass(detections);
    keep := [];
    assert [] + Emitted(detections, threshold, order[0..]) == Emitted(detections, threshold, order) by {
      assert order[0..] == order;
    }
    for i := 0 to |order|
      invariant keep + Emitted(detections, threshold, order[i..]) == Emitted(detections, threshold, order)
    {
      ClassPresent(detections, order, i);
      var kept := SuppressClass(Sort(HIGHER_FIRST, byClass[order[i]]), threshold);
      KeptUnfold(detections, threshold, order[i]);
      EmittedNext(detections, threshold, order, i, keep);
      keep := keep + kept;
    }
    EmittedAll(detections, threshold, order, keep);
    keep := Sort(HIGHER_FIRST, keep);
  }

  // ----- what suppression guarantees

  lemma MemberOfClass(detections: seq<Detection>, threshold: real, keep: seq<Detection>, d: Detection)
    requires Suppressed(detections, threshold, keep)
    ensures multiset(keep)[d] == multiset(KeptOfClass(detections, threshold, d.classId))[d]
    ensures multiset(detections)[d] == multiset(Sort(HIGHER_FIRST, Filter(OfClass(d.classId), detections)))[d]
  {
    FilterMultiset(OfClass(d.classId), keep, d);
    FilterMultiset(OfClass(d.classId), detections, d);
    SortContent(HIGHER_FIRST, Filter(OfClass(d.classId), detections));
  }

  /** Nothing is invented or duplicated. */
  lemma KeepsSubset(detections: seq<Detection>, threshold: real, keep: seq<Detection>)
    requires Suppressed(detections, threshold, keep)
    ensures multiset(keep) <= multiset(detections)
  {
    forall d ensures multiset(keep)[d] <= multiset(detections)[d] {
      MemberOfClass(detections, threshold, keep, d);
      GreedyMembers(Sort(HIGHER_FIRST, Filter(OfClass(d.classId), detections)), threshold, d);
    }
  }

  /** Every lost copy of a detection lost to a kept one of its class, no less confident, that overlaps it too much. */
  lemma DropsJustified(detections: seq<Detection>, threshold: real, keep: seq<Detection>, d: Detection)
    requires Suppressed(detections, threshold, keep) && multiset(keep)[d] < multiset(detections)[d]
    ensures exists k :: k in keep && k.classId == d.classId && k.confidence >= d.confidence
                     && Iou(k.bbox, d.bbox) > threshold
  {
    var c := d.classId;
    var sorted := Sort(HIGHER_FIRST, Filter(OfClass(c), detections));
    MemberOfClass(detections, threshold, keep, d);
    HigherFirstIsPreorder();
    SortSorted(HIGHER_FIRST, Filter(OfClass(c), detections));
    var k := GreedyDropsJustified(sorted, threshold, d);
    FilterMembers(OfClass(c), keep, k);
  }

  /** No two kept detections of one class overlap too much. */
  lemma KeptAreClear(detections: seq<Detection>, threshold: real, keep: seq<Detection>, i: nat, j: nat)
    requires Suppressed(detections, threshold, keep)
    requires i < j < |keep| && keep[i].classId == keep[j].classId
    ensures Iou(keep[i].bbox, keep[j].bbox) <= threshold && Iou(keep[j].bbox, keep[i].bbox) <= threshold
  {
    var c := keep[i].classId;
    GreedyClear(Sort(HIGHER_FIRST, Filter(OfClass(c), detections)), threshold);
    var a, b := FilterPair(OfClass(c), keep, i, j);
    IouIsOverlapMeasure(keep[i].bbox, keep[j].bbox);
  }

  /** What is kept of a class is all kept again. */
  lemma KeptAgain(detections: seq<Detection>, threshold: real, keep: seq<Detection>, c: nat)
    requires Suppressed(detections, threshold, keep)
    ensures KeptOfClass(keep, threshold, c) == Filter(OfClass(c), keep)
  {
    var kept := Filter(OfClass(c), keep);
    KeptHasClass(detections, threshold, c);
    SortOfSorted(HIGHER_FIRST, kept);
    GreedyClear(Sort(HIGHER_FIRST, Filter(OfClass(c), detections)), threshold);
    GreedyOfClear(kept, threshold);
  }

  /** Running the suppression again keeps, of every class, the same detections in the same order. */
  lemma KeepsAll(detections: seq<Detection>, threshold: real, keep: seq<Detection>, again: seq<Detection>)
    requires Suppressed(detections, threshold, keep) && Suppressed(keep, threshold, again)
    ensures forall c :: Filter(OfClass(c), again) == Filter(OfClass(c), keep)
    ensures multiset(again) == multiset(keep)
  {
    forall c ensures Filter(OfClass(c), again) == Filter(OfClass(c), keep) {
      KeptAgain(detections, threshold, keep, c);
    }
    forall d ensures multiset(again)[d] == multiset(keep)[d] {
      FilterMultiset(OfClass(d.classId), again, d);
      FilterMultiset(OfClass(d.classId), keep, d);
    }
  }

  /** No two kept detections of different classes are equally confident. */
  ghost predicate NoCrossTies(s: seq<Detection>) {
    forall i, j :: 0 <= i < |s| && 0 <= j < |s| && s[i].classId != s[j].classId ==> s[i].confidence != s[j].confidence
  }

  lemma SameFirst(a: seq<Detection>, b: seq<Detection>)
    requires SortedBy(HIGHER_FIRST, a) && SortedBy(HIGHER_FIRST, b) && NoCrossTies(a) && a != []
    requires multiset(a) == multiset(b) && forall c :: Filter(OfClass(c), a) == Filter(OfClass(c), b)
    ensures b != [] && a[0] == b[0]
  {
    SameContent(a, b, a[0]);
    var i :| 0 <= i < |b| && b[i] == a[0];
    SameContent(a, b, b[0]);
    var j :| 0 <= j < |a| && a[j] == b[0];
    assert i == 0 || HIGHER_FIRST(b[0], b[i]);
    assert j == 0 || HIGHER_FIRST(a[0], a[j]);
    assert a[0].classId == b[0].classId;
    var c := a[0].classId;
    assert Filter(OfClass(c), a)[0] == a[0] && Filter(OfClass(c), b)[0] == b[0];
  }

  lemma SameTails(p: Detection -> bool, a: seq<Detection>, b: seq<Detection>)
    requires a != [] && b != [] && a[0] == b[0] && Filter(p, a) == Filter(p, b)
    ensures Filter(p, a[1..]) == Filter(p, b[1..])
  {
    if p(a[0]) {
      assert Filter(p, a)[1..] == Filter(p, a[1..]) && Filter(p, b)[1..] == Filter(p, b[1..]);
    }
  }

  lemma TailOrder(s: seq<Detection>)
    requires s != [] && SortedBy(HIGHER_FIRST, s)
    ensures SortedBy(HIGHER_FIRST, s[1..]) && (NoCrossTies(s) ==> NoCrossTies(s[1..]))
  {
    assert forall i :: 0 <= i < |s[1..]| ==> s[1..][i] == s[i + 1];
  }

  lemma {:induction false} SameOrder(a: seq<Detection>, b: seq<Detection>)
    requires SortedBy(HIGHER_FIRST, a) && SortedBy(HIGHER_FIRST, b) && NoCrossTies(a)
    requires multiset(a) == multiset(b) && forall c :: Filter(OfClass(c), a) == Filter(OfClass(c), b)
    ensures a == b
  {
    assert |a| == |b| by { assert |multiset(a)| == |multiset(b)|; }
    if a != [] {
      SameFirst(a, b);
      assert a == [a[0]] + a[1..] && b == [b[0]] + b[1..];
      forall c ensures Filter(OfClass(c), a[1..]) == Filter(OfClass(c), b[1..]) {
        SameTails(OfClass(c), a, b);
      }
      hide Filter, SortedBy, NoCrossTies;
      assert multiset(a[1..]) == multiset(a) - multiset{a[0]};
      assert multiset(b[1..]) == multiset(b) - multiset{b[0]};
      TailOrder(a);
      TailOrder(b);
      SameOrder(a[1..], b[1..]);
    }
  }

  /** Neighbours of different classes that are equally confident. */
  lemma {:induction false} AdjacentTie(s: seq<Detection>, i: nat, j: nat) returns (k: nat)
    requires SortedBy(HIGHER_FIRST, s) && i < j < |s|
    requires s[i].classId != s[j].classId && s[i].confidence == s[j].confidence
    ensures k + 1 < |s| && s[k].classId != s[k + 1].classId && s[k].confidence == s[k + 1].confidence
    decreases j
  {
    if s[j - 1].classId != s[j].classId {
      k := j - 1;
      assert i == k || HIGHER_FIRST(s[i], s[k]);
      assert HIGHER_FIRST(s[k], s[j]);
    } else {
      assert HIGHER_FIRST(s[i], s[j - 1]) && HIGHER_FIRST(s[j - 1], s[j]);
      k := AdjacentTie(s, i, j - 1);
    }
  }

  lemma {:induction false} Listing(s: set<nat>) returns (l: seq<nat>)
    ensures forall i, j :: 0 <= i < j < |l| ==> l[i] != l[j]
    ensures forall c :: c in l <==> c in s
    decreases |s|
  {
    if s == {} {
      l := [];
    } else {
      var c :| c in s;
      var rest := Listing(s - {c});
      l := [c] + rest;
    }
  }

  /** Any two classes can come first, the one before the other. */
  lemma SomeOrder(s: seq<Detection>, d: nat, c: nat) returns (order: seq<nat>, rest: seq<nat>)
    requires c != d && HasClass(s, c) && HasClass(s, d)
    ensures order == [d] + ([c] + rest) && c !in rest && d !in rest && ClassOrder(s, order)
  {
    var classes := set k | 0 <= k < |s| :: s[k].classId;
    rest := Listing(classes - {c, d});
    order := [d] + ([c] + rest);
    assert forall e :: e in order <==> e == d || e == c || e in rest;
    assert forall e :: e in classes <==> HasClass(s, e);
  }

  function Tied(c: nat, d: nat, confidence: real): Detection -> bool {
    (e: Detection) => e.confidence == confidence && (e.classId == c || e.classId == d)
  }

  lemma {:induction false} NoneTied(detections: seq<Detection>, threshold: real, order: seq<nat>, c: nat, d: nat,
                                    v: real)
    requires c !in order && d !in order
    ensures Filter(Tied(c, d, v), Emitted(detections, threshold, order)) == []
  {
    if order != [] {
      var kept := KeptOfClass(detections, threshold, order[0]);
      NoneTied(detections, threshold, order[1..], c, d, v);
      KeptHasClass(detections, threshold, order[0]);
      assert order[0] in order;
      hide Filter, KeptOfClass;
      FilterConcat(Tied(c, d, v), kept, Emitted(detections, threshold, order[1..]));
      FilterNone(Tied(c, d, v), kept);
    }
  }

  lemma TiedOfClass(detections: seq<Detection>, threshold: real, c: nat, p: Detection -> bool)
    ensures forall i :: 0 <= i < |Filter(p, KeptOfClass(detections, threshold, c))| ==>
      Filter(p, KeptOfClass(detections, threshold, c))[i].classId == c
  {
    var kept := KeptOfClass(detections, threshold, c);
    KeptHasClass(detections, threshold, c);
    hide KeptOfClass, Filter;
    forall i | 0 <= i < |Filter(p, kept)| ensures Filter(p, kept)[i].classId == c {
      FilterMembers(p, kept, Filter(p, kept)[i]);
    }
  }

  /** Tied detections come out class by class, in the order of the classes. */
  lemma TiesByClass(detections: seq<Detection>, threshold: real, rest: seq<nat>, c: nat, d: nat, v: real)
    requires c !in rest && d !in rest
    ensures Filter(Tied(c, d, v), NmsInOrder(detections, threshold, [d] + ([c] + rest)))
         == Filter(Tied(c, d, v), KeptOfClass(detections, threshold, d))
            + Filter(Tied(c, d, v), KeptOfClass(detections, threshold, c))
  {
    var p, e := Tied(c, d, v), Emitted(detections, threshold, [d] + ([c] + rest));
    var keptC, keptD := KeptOfClass(detections, threshold, c), KeptOfClass(detections, threshold, d);
    EmittedCons(detections, threshold, d, [c] + rest);
    EmittedCons(detections, threshold, c, rest);
    assert e == keptD + (keptC + Emitted(detections, threshold, rest));
    HigherFirstIsPreorder();
    FilterCommutesWithSort(p, HIGHER_FIRST, e);
    NoneTied(detections, threshold, rest, c, d, v);
    hide Filter, KeptOfClass, Emitted, Sort;
    FilterConcat(p, keptD, keptC + Emitted(detections, threshold, rest));
    FilterConcat(p, keptC, Emitted(detections, threshold, rest));
    var f := Filter(p, e);
    forall i | 0 <= i < |f| ensures f[i].confidence == v {
      FilterMembers(p, e, f[i]);
    }
    SortOfSorted(HIGHER_FIRST, f);
  }

  /** Where classes tie, an order of the classes gives another list. */
  lemma TieShows(s: seq<Detection>, threshold: real, k: nat, rest: seq<nat>)
    requires k + 1 < |s| && s[k].classId != s[k + 1].classId && s[k].confidence == s[k + 1].confidence
    requires s[k].classId !in rest && s[k + 1].classId !in rest
    ensures NmsInOrder(s, threshold, [s[k + 1].classId] + ([s[k].classId] + rest)) != s
  {
    var c, d, v := s[k].classId, s[k + 1].classId, s[k].confidence;
    var p := Tied(c, d, v);
    TiesByClass(s, threshold, rest, c, d, v);
    TiedOfClass(s, threshold, c, p);
    TiedOfClass(s, threshold, d, p);
    var a, b := FilterPair(p, s, k, k + 1);
    hide Filter, KeptOfClass, NmsInOrder;
    var ds, cs := Filter(p, KeptOfClass(s, threshold, d)), Filter(p, KeptOfClass(s, threshold, c));
    NotInBlocks(Filter(p, s), ds, cs, a, b, c, d);
  }

  lemma NotInBlocks(f: seq<Detection>, ds: seq<Detection>, cs: seq<Detection>, a: nat, b: nat, c: nat, d: nat)
    requires a < b < |f| && f[a].classId == c && f[b].classId == d && c != d
    requires forall i :: 0 <= i < |ds| ==> ds[i].classId == d
    requires forall i :: 0 <= i < |cs| ==> cs[i].classId == c
    ensures f != ds + cs
  {
    assert a < |ds| ==> (ds + cs)[a] == ds[a];
    assert |ds| <= b < |ds| + |cs| ==> (ds + cs)[b] == cs[b - |ds|];
  }

  /** Running the suppression again returns the very same list for every order of the classes exactly when kept
      detections of different classes differ in confidence. */
  lemma KeepsListExactly(detections: seq<Detection>, threshold: real, keep: seq<Detection>)
    requires Suppressed(detections, threshold, keep)
    ensures NoCrossTies(keep) <==>
      forall order :: ClassOrder(keep, order) ==> NmsInOrder(keep, threshold, order) == keep
    ensures NoCrossTies(keep) ==> forall again :: Suppressed(keep, threshold, again) ==> again == keep
  {
    if NoCrossTies(keep) {
      forall again | Suppressed(keep, threshold, again) ensures again == keep {
        KeepsAll(detections, threshold, keep, again);
        SameOrder(keep, again);
      }
      forall order | ClassOrder(keep, order) ensures NmsInOrder(keep, threshold, order) == keep {
        OrderSuppressed(keep, threshold, order);
      }
    } else {
      var i, j :| 0 <= i < |keep| && 0 <= j < |keep|
        && keep[i].classId != keep[j].classId && keep[i].confidence == keep[j].confidence;
      var k := AdjacentTie(keep, if i < j then i else j, if i < j then j else i);
      var order, rest := SomeOrder(keep, keep[k + 1].classId, keep[k].classId);
      TieShows(keep, threshold, k, rest);
    }
  }

  /** Two inputs that agree on one class lose and keep the same detections of that class. */
  lemma ClassesAreIndependent(a: seq<Detection>, b: seq<Detection>, threshold: real, keptA: seq<Detection>,
                              keptB: seq<Detection>, c: nat)
    requires Suppressed(a, threshold, keptA) && Suppressed(b, threshold, keptB)
    requires Filter(OfClass(c), a) == Filter(OfClass(c), b)
    ensures Filter(OfClass(c), keptA) == Filter(OfClass(c), keptB)
  {
  }
}
