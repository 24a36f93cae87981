/** Merging of overlapping text boxes to a fixpoint (src/inference.rs, `merge_overlapping_boxes`), explained by
    a forest of merge trees over the input boxes. */
module BoxMerge {

  import opened Geometry

  const GAP_THRESHOLD := 0.005
  const LINE_THRESHOLD := 0.012

  /** The boxes overlap up to a small gap in both directions and sit on the same text line. */
  predicate Mergeable(a: Box, b: Box) {
    && a.x2 + GAP_THRESHOLD >= b.x1 && b.x2 + GAP_THRESHOLD >= a.x1
    && a.y2 + GAP_THRESHOLD >= b.y1 && b.y2 + GAP_THRESHOLD >= a.y1
    && Abs((a.y1 + a.y2) / 2.0 - (b.y1 + b.y2) / 2.0) < LINE_THRESHOLD
  }

  function Hull(a: Box, b: Box): Box {
    Box(Min(a.x1, b.x1), Min(a.y1, b.y1), Max(a.x2, b.x2), Max(a.y2, b.y2))
  }

  // ----- merge trees

  /** How an output box came about: an input box, or the hull of two boxes that passed the merge test. */
  datatype Tree = Leaf(i: nat) | Join(left: Tree, right: Tree) {
    ghost function Leaves(): multiset<nat> {
      match this
      case Leaf(i) => multiset{i}
      case Join(l, r) => l.Leaves() + r.Leaves()
    }

    /** The input box that the merging started from. */
    ghost function First(): nat {
      match this
      case Leaf(i) => i
      case Join(l, _) => l.First()
    }

    ghost predicate Over(n: nat) {
      match this
      case Leaf(i) => i < n
      case Join(l, r) => l.Over(n) && r.Over(n)
    }

    ghost function HullOf(boxes: seq<Box>): Box
      requires Over(|boxes|)
    {
      match this
      case Leaf(i) => boxes[i]
      case Join(l, r) => Hull(l.HullOf(boxes), r.HullOf(boxes))
    }

    /** Every merge joined two boxes that passed the test at that moment. */
    ghost predicate Justified(boxes: seq<Box>)
      requires Over(|boxes|)
    {
      match this
      case Leaf(_) => true
      case Join(l, r) => l.Justified(boxes) && r.Justified(boxes) && Mergeable(l.HullOf(boxes), r.HullOf(boxes))
    }
  }

  ghost predicate Builds(boxes: seq<Box>, t: Tree, b: Box) {
    t.Over(|boxes|) && t.Justified(boxes) && b == t.HullOf(boxes)
  }

  ghost function ForestLeaves(forest: seq<Tree>): multiset<nat> {
    if forest == [] then multiset{}
    else ForestLeaves(forest[..|forest| - 1]) + forest[|forest| - 1].Leaves()
  }

  /** The trees build the boxes of `merged`, in order, and share out the `n` input boxes, each used once; a tree
      starts from an earlier input than the trees after it. */
  ghost predicate Merging(boxes: seq<Box>, forest: seq<Tree>, merged: seq<Box>) {
    && |forest| == |merged|
    && (forall k :: 0 <= k < |forest| ==> Builds(boxes, forest[k], merged[k]))
    && (forall j, k :: 0 <= j < k < |forest| ==> forest[j].First() < forest[k].First())
    && (forall i :: ForestLeaves(forest)[i] == if 0 <= i < |boxes| then 1 else 0)
  }

  ghost predicate Separated(boxes: seq<Box>) {
    forall i, j :: 0 <= i < j < |boxes| ==> !Mergeable(boxes[i], boxes[j])
  }

  // ----- one pass

  ghost function Unused(used: seq<bool>): nat {
    if used == [] then 0
    else Unused(used[..|used| - 1]) + if used[|used| - 1] then 0 else 1
  }

  ghost function UnusedLeaves(forest: seq<Tree>, used: seq<bool>): multiset<nat>
    requires |forest| == |used|
  {
    if used == [] then multiset{}
    else
      UnusedLeaves(forest[..|used| - 1], used[..|used| - 1])
      + if used[|used| - 1] then multiset{} else forest[|used| - 1].Leaves()
  }

  lemma {:induction false} Use(forest: seq<Tree>, used: seq<bool>, j: nat)
    requires |forest| == |used| && j < |used| && !used[j]
    ensures Unused(used) == Unused(used[j := true]) + 1
    ensures UnusedLeaves(forest, used) == UnusedLeaves(forest, used[j := true]) + forest[j].Leaves()
  {
    var last := |used| - 1;
    var after := used[j := true];
    if j < last {
      Use(forest[..last], used[..last], j);
      assert after[..last] == used[..last][j := true];
    } else {
      assert after[..last] == used[..last];
    }
  }

  lemma {:induction false} AllUnused(forest: seq<Tree>, used: seq<bool>)
    requires |forest| == |used| && forall k :: 0 <= k < |used| ==> !used[k]
    ensures Unused(used) == |used| && UnusedLeaves(forest, used) == ForestLeaves(forest)
  {
    if used != [] {
      AllUnused(forest[..|used| - 1], used[..|used| - 1]);
    }
  }

  lemma {:induction false} NoneUnused(forest: seq<Tree>, used: seq<bool>)
    requires |forest| == |used| && forall k :: 0 <= k < |used| ==> used[k]
    ensures Unused(used) == 0 && UnusedLeaves(forest, used) == multiset{}
  {
    if used != [] {
      NoneUnused(forest[..|used| - 1], used[..|used| - 1]);
    }
  }

  /** Box `i` has grown into `current` by taking in boxes before `j`; `was` and `used` are the flags before and now. */
  ghost predicate Absorbing(boxes: seq<Box>, forest: seq<Tree>, merged: seq<Box>, i: nat, was: seq<bool>, j: nat,
                            used: seq<bool>, current: Box, merges: nat, tree: Tree)
    requires |forest| == |merged| == |was| == |used| && i < |was|
  {
    && Builds(boxes, tree, current) && tree.First() == forest[i].First()
    && tree.Leaves() + UnusedLeaves(forest, used) == UnusedLeaves(forest, was)
    && Unused(used) + 1 + merges == Unused(was)
    && used[i] && (forall k :: 0 <= k < i ==> used[k] == was[k])
    && (merges == 0 ==> current == merged[i] && used == was[i := true])
    && (merges == 0 ==> forall k :: i < k < j && k < |merged| && !used[k] ==> !Mergeable(merged[i], merged[k]))
  }

  lemma AbsorbStart(boxes: seq<Box>, forest: seq<Tree>, merged: seq<Box>, i: nat, was: seq<bool>)
    requires |forest| == |merged| == |was| && i < |was| && !was[i] && Builds(boxes, forest[i], merged[i])
    ensures Absorbing(boxes, forest, merged, i, was, i + 1, was[i := true], merged[i], 0, forest[i])
  {
    Use(forest, was, i);
  }

  lemma AbsorbOne(boxes: seq<Box>, forest: seq<Tree>, merged: seq<Box>, i: nat, was: seq<bool>, j: nat,
                  used: seq<bool>, current: Box, merges: nat, tree: Tree)
    requires |forest| == |merged| == |was| == |used| && i < j < |was| && !used[j]
    requires Absorbing(boxes, forest, merged, i, was, j, used, current, merges, tree)
    requires Builds(boxes, forest[j], merged[j]) && Mergeable(current, merged[j])
    ensures Absorbing(boxes, forest, merged, i, was, j + 1, used[j := true], Hull(current, merged[j]), merges + 1,
                      Join(tree, forest[j]))
  {
    Use(forest, used, j);
    assert Builds(boxes, Join(tree, forest[j]), Hull(current, merged[j]));
    hide Builds, Mergeable, Hull, Unused, UnusedLeaves;
  }

  lemma AbsorbNone(boxes: seq<Box>, forest: seq<Tree>, merged: seq<Box>, i: nat, was: seq<bool>, j: nat,
                   used: seq<bool>, current: Box, merges: nat, tree: Tree)
    requires |forest| == |merged| == |was| == |used| && i < j < |was|
    requires Absorbing(boxes, forest, merged, i, was, j, used, current, merges, tree)
    requires used[j] || !Mergeable(current, merged[j])
    ensures Absorbing(boxes, forest, merged, i, was, j + 1, used, current, merges, tree)
  {
  }

  /** Starts from box `i` and takes in, left to right, every unused later box that passes the merge test with the
      box grown so far. */
  method Absorb(ghost boxes: seq<Box>, ghost forest: seq<Tree>, merged: seq<Box>, used: array<bool>, i: nat)
    returns (current: Box, merges: nat, ghost tree: Tree)
    requires |forest| == |merged| == used.Length && i < used.Length && !used[i]
    requires forall k :: 0 <= k < |forest| ==> Builds(boxes, forest[k], merged[k])
    modifies used
    ensures Absorbing(boxes, forest, merged, i, old(used[..]), |merged|, used[..], current, merges, tree)
  {
    ghost var was := used[..];
    AbsorbStart(boxes, forest, merged, i, was);
    hide Absorbing, Builds;
    current, merges, tree := merged[i], 0, forest[i];
    used[i] := true;
    assert used[..] == was[i := true];
    for j := i + 1 to |merged|
      invariant Absorbing(boxes, forest, merged, i, was, j, used[..], current, merges, tree)
    {
      if !used[j] && Mergeable(current, merged[j]) {
        ghost var before := used[..];
        AbsorbOne(boxes, forest, merged, i, was, j, before, current, merges, tree);
        used[j] := true;
        assert used[..] == before[j := true];
        tree := Join(tree, forest[j]);
        current := Hull(current, merged[j]);
        merges := merges + 1;
      } else {
        AbsorbNone(boxes, forest, merged, i, was, j, used[..], current, merges, tree);
      }
    }
  }

  /** The pass has dealt with the boxes before `i`, joining `merges` boxes to earlier ones on the way. */
  ghost predicate Passing(boxes: seq<Box>, forest: seq<Tree>, merged: seq<Box>, i: nat, used: seq<bool>,
                          newForest: seq<Tree>, newMerged: seq<Box>, merges: nat)
    requires |forest| == |merged| == |used| && i <= |used|
  {
    && |newForest| == |newMerged|
    && (forall k :: 0 <= k < |newForest| ==> Builds(boxes, newForest[k], newMerged[k]))
    && (forall j, k :: 0 <= j < k < |newForest| ==> newForest[j].First() < newForest[k].First())
    && (forall j, k :: 0 <= j < |newForest| && i <= k < |forest| ==> newForest[j].First() < forest[k].First())
    && ForestLeaves(newForest) + UnusedLeaves(forest, used) == ForestLeaves(forest)
    && |newMerged| + Unused(used) + merges == |merged|
    && (forall k :: 0 <= k < i ==> used[k])
    && (merges == 0 ==> newMerged == merged[..i] && forall k :: i <= k < |merged| ==> !used[k])
    && (merges == 0 ==> forall a, b :: 0 <= a < i && a < b < |merged| ==> !Mergeable(merged[a], merged[b]))
  }

  lemma AddTree(forest: seq<Tree>, tree: Tree)
    ensures ForestLeaves(forest + [tree]) == ForestLeaves(forest) + tree.Leaves()
  {
  }

  lemma PassBox(boxes: seq<Box>, forest: seq<Tree>, merged: seq<Box>, i: nat, was: seq<bool>, used: seq<bool>,
                newForest: seq<Tree>, newMerged: seq<Box>, merges: nat, current: Box, found: nat, tree: Tree)
    requires |forest| == |merged| == |was| == |used| && i < |used|
    requires Passing(boxes, forest, merged, i, was, newForest, newMerged, merges)
    requires Absorbing(boxes, forest, merged, i, was, |merged|, used, current, found, tree)
    requires forall j, k :: 0 <= j < k < |forest| ==> forest[j].First() < forest[k].First()
    ensures Passing(boxes, forest, merged, i + 1, used, newForest + [tree], newMerged + [current], merges + found)
  {
    hide Builds, Mergeable, Unused, UnusedLeaves, ForestLeaves, Tree.First, Tree.Leaves;
    AddTree(newForest, tree);
    assert ForestLeaves(newForest + [tree]) + UnusedLeaves(forest, used)
        == ForestLeaves(newForest) + (tree.Leaves() + UnusedLeaves(forest, used));
  }

  lemma PassUsed(boxes: seq<Box>, forest: seq<Tree>, merged: seq<Box>, i: nat, used: seq<bool>,
                 newForest: seq<Tree>, newMerged: seq<Box>, merges: nat)
    requires |forest| == |merged| == |used| && i < |used| && used[i]
    requires Passing(boxes, forest, merged, i, used, newForest, newMerged, merges)
    ensures Passing(boxes, forest, merged, i + 1, used, newForest, newMerged, merges)
  {
  }

  lemma PassDone(boxes: seq<Box>, forest: seq<Tree>, merged: seq<Box>, used: seq<bool>,
                 newForest: seq<Tree>, newMerged: seq<Box>, merges: nat)
    requires Merging(boxes, forest, merged) && |used| == |merged|
    requires Passing(boxes, forest, merged, |merged|, used, newForest, newMerged, merges)
    ensures Merging(boxes, newForest, newMerged) && |newMerged| + merges == |merged|
    ensures merges == 0 ==> newMerged == merged && Separated(merged)
  {
    hide Builds;
    NoneUnused(forest, used);
    assert ForestLeaves(newForest) == ForestLeaves(forest);
    assert merged[..|merged|] == merged;
  }

  lemma MergingFacts(boxes: seq<Box>, forest: seq<Tree>, merged: seq<Box>)
    requires Merging(boxes, forest, merged)
    ensures |forest| == |merged|
    ensures forall k :: 0 <= k < |forest| ==> Builds(boxes, forest[k], merged[k])
    ensures forall j, k :: 0 <= j < k < |forest| ==> forest[j].First() < forest[k].First()
  {
  }

  /** One round over all boxes; a round without a merge has found that no two boxes can be merged. */
  method MergePass(ghost boxes: seq<Box>, ghost forest: seq<Tree>, merged: seq<Box>)
    returns (newMerged: seq<Box>, changed: bool, ghost newForest: seq<Tree>)
    requires Merging(boxes, forest, merged)
    ensures Merging(boxes, newForest, newMerged)
    ensures changed ==> |newMerged| < |merged|
    ensures !changed ==> newMerged == merged && Separated(merged)
  {
    hide *;
    MergingFacts(boxes, forest, merged);
    var used := new bool[|merged|](_ => false);
    ghost var merges := 0;
    newMerged, changed, newForest := [], false, [];
    PassStart(boxes, forest, merged, used[..]);
    for i := 0 to |merged|
      invariant Passing(boxes, forest, merged, i, used[..], newForest, newMerged, merges)
      invariant changed == (merges > 0)
    {
      if used[i] {
        PassUsed(boxes, forest, merged, i, used[..], newForest, newMerged, merges);
        continue;
      }
      ghost var was := used[..];
      var current, found, tree := Absorb(boxes, forest, merged, used, i);
      PassBox(boxes, forest, merged, i, was, used[..], newForest, newMerged, merges, current, found, tree);
      changed := changed || found > 0;
      newMerged, newForest, merges := newMerged + [current], newForest + [tree], merges + found;
    }
    PassDone(boxes, forest, merged, used[..], newForest, newMerged, merges);
  }

  lemma PassStart(boxes: seq<Box>, forest: seq<Tree>, merged: seq<Box>, used: seq<bool>)
    requires |forest| == |merged| == |used| && forall k :: 0 <= k < |used| ==> !used[k]
    ensures Passing(boxes, forest, merged, 0, used, [], [], 0)
  {
    AllUnused(forest, used);
  }

  ghost function Leaves(n: nat): (forest: seq<Tree>) {
    seq(n, (i: nat) => Leaf(i))
  }

  lemma {:induction false} LeavesComplete(n: nat)
    ensures forall i :: ForestLeaves(Leaves(n))[i] == if 0 <= i < n then 1 else 0
  {
    if n > 0 {
      LeavesComplete(n - 1);
      assert Leaves(n)[..n - 1] == Leaves(n - 1);
    }
  }

  /** Merges until no two boxes can be merged: then all are apart. Boxes come back unchanged exactly if they were apart
      already, and two boxes that were not come back as one. */
  method MergeOverlapping(boxes: seq<Box>) returns (merged: seq<Box>)
    ensures exists forest :: Merging(boxes, forest, merged)
    ensures Separated(merged) && AllFarApart(merged)
    ensures merged == boxes <==> AllFarApart(boxes)
    ensures |boxes| == 2 && !FarApart(boxes[0], boxes[1]) ==> merged == [Around(boxes[0], boxes[1])]
  {
    merged := boxes;
    ghost var forest := Leaves(|boxes|);
    LeavesComplete(|boxes|);
    assert forall k :: 0 <= k < |forest| ==> forest[k] == Leaf(k);
    assert Merging(boxes, forest, merged);
    if |boxes| <= 1 {
      assert AllFarApart(merged);
      return;
    }
    var changed := true;
    while changed
      invariant Merging(boxes, forest, merged)
      invariant !changed ==> Separated(merged)
      decreases |merged|, changed
    {
      merged, changed, forest := MergePass(boxes, forest, merged);
    }
    UnchangedExactly(boxes, forest, merged);
    TwoBoxes(boxes, forest, merged);
  }

  // ----- what a merging means

  /** `b` contains each of the boxes that are leaves, and each side of `b` is the side of one of them. */
  ghost predicate ExactHull(boxes: seq<Box>, leaves: multiset<nat>, b: Box) {
    && (forall i :: i in leaves ==> i < |boxes| && Inside(boxes[i], b))
    && (exists i :: i in leaves && i < |boxes| && boxes[i].x1 == b.x1)
    && (exists i :: i in leaves && i < |boxes| && boxes[i].y1 == b.y1)
    && (exists i :: i in leaves && i < |boxes| && boxes[i].x2 == b.x2)
    && (exists i :: i in leaves && i < |boxes| && boxes[i].y2 == b.y2)
  }

  lemma HullOfTwo(boxes: seq<Box>, l: multiset<nat>, r: multiset<nat>, a: Box, b: Box)
    requires ExactHull(boxes, l, a) && ExactHull(boxes, r, b)
    ensures ExactHull(boxes, l + r, Hull(a, b))
  {
    var all := l + r;
    assert forall i :: i in all <==> i in l || i in r;
    var x :| x in all && x < |boxes| && boxes[x].x1 == Hull(a, b).x1;
    var y :| y in all && y < |boxes| && boxes[y].y1 == Hull(a, b).y1;
    var z :| z in all && z < |boxes| && boxes[z].x2 == Hull(a, b).x2;
    var w :| w in all && w < |boxes| && boxes[w].y2 == Hull(a, b).y2;
  }

  /** The built box is the exact hull of its leaves. */
  lemma {:induction false} HullExact(boxes: seq<Box>, t: Tree)
    requires t.Over(|boxes|)
    ensures ExactHull(boxes, t.Leaves(), t.HullOf(boxes))
  {
    match t
    case Leaf(i) =>
      assert i in t.Leaves();
    case Join(l, r) =>
      HullExact(boxes, l);
      HullExact(boxes, r);
      hide ExactHull, Hull;
      HullOfTwo(boxes, l.Leaves(), r.Leaves(), l.HullOf(boxes), r.HullOf(boxes));
  }

  /** An input of the forest is a leaf of some tree. */
  lemma {:induction false} LeafFound(forest: seq<Tree>, i: nat) returns (k: nat)
    requires i in ForestLeaves(forest)
    ensures k < |forest| && i in forest[k].Leaves()
  {
    k := |forest| - 1;
    if i !in forest[k].Leaves() {
      k := LeafFound(forest[..k], i);
    }
  }

  lemma {:induction false} LeafCount(forest: seq<Tree>, k: nat, i: nat)
    requires k < |forest|
    ensures forest[k].Leaves()[i] <= ForestLeaves(forest)[i]
  {
    if k < |forest| - 1 {
      LeafCount(forest[..|forest| - 1], k, i);
    }
  }

  lemma {:induction false} LeafCounts(forest: seq<Tree>, j: nat, k: nat, i: nat)
    requires j < k < |forest|
    ensures forest[j].Leaves()[i] + forest[k].Leaves()[i] <= ForestLeaves(forest)[i]
  {
    if k < |forest| - 1 {
      LeafCounts(forest[..|forest| - 1], j, k, i);
    } else {
      LeafCount(forest[..k], j, i);
    }
  }

  /** The trees partition the input: every box is a leaf of exactly one tree, and of that tree once. */
  lemma EachBoxInOneTree(boxes: seq<Box>, forest: seq<Tree>, merged: seq<Box>, i: nat)
    requires Merging(boxes, forest, merged) && i < |boxes|
    ensures exists k :: 0 <= k < |forest| && forest[k].Leaves()[i] == 1
    ensures forall j, k :: 0 <= j < k < |forest| ==> !(i in forest[j].Leaves() && i in forest[k].Leaves())
  {
    hide Builds;
    assert ForestLeaves(forest)[i] == 1;
    var k := LeafFound(forest, i);
    LeafCount(forest, k, i);
    forall j, k | 0 <= j < k < |forest| ensures !(i in forest[j].Leaves() && i in forest[k].Leaves()) {
      LeafCounts(forest, j, k, i);
    }
  }

  lemma JoinedIsSame(boxes: seq<Box>, i: nat, j: nat)
    requires Separated(boxes) && i < |boxes| && j < |boxes| && Mergeable(boxes[i], boxes[j])
    ensures i == j
  {
  }

  lemma {:induction false} SeparatedHasNoJoin(boxes: seq<Box>, t: Tree)
    requires Separated(boxes) && t.Over(|boxes|) && t.Justified(boxes)
    requires forall i :: t.Leaves()[i] <= 1
    ensures t.Leaf?
  {
    if t.Join? {
      var l, r := t.left, t.right;
      forall i ensures l.Leaves()[i] <= 1 && r.Leaves()[i] <= 1 {
        assert l.Leaves()[i] + r.Leaves()[i] == t.Leaves()[i] <= 1;
      }
      SeparatedHasNoJoin(boxes, l);
      SeparatedHasNoJoin(boxes, r);
      hide Separated, Mergeable;
      assert t.Leaves()[l.i] == l.Leaves()[l.i] + r.Leaves()[l.i];
      JoinedIsSame(boxes, l.i, r.i);
      assert false;
    }
  }

  lemma {:induction false} LeafForestSize(forest: seq<Tree>)
    requires forall k :: 0 <= k < |forest| ==> forest[k].Leaf?
    ensures |ForestLeaves(forest)| == |forest|
  {
    if forest != [] {
      LeafForestSize(forest[..|forest| - 1]);
    }
  }

  lemma {:induction false} IncreasingIsIdentity(s: seq<nat>, k: nat)
    requires k < |s| && forall i :: 0 <= i < |s| ==> s[i] < |s|
    requires forall i, j :: 0 <= i < j < |s| ==> s[i] < s[j]
    ensures s[k] >= k
    ensures s[k] <= k
  {
    var i := 0;
    while i < k
      invariant i <= k && s[i] >= i
    {
      i := i + 1;
    }
    var j := |s| - 1;
    while j > k
      invariant k <= j < |s| && s[j] <= j
    {
      j := j - 1;
    }
  }

  lemma SeparatedAllLeaves(boxes: seq<Box>, forest: seq<Tree>, merged: seq<Box>, k: nat)
    requires Separated(boxes) && Merging(boxes, forest, merged) && k < |forest|
    ensures forest[k].Leaf? && forest[k].i < |boxes| && merged[k] == boxes[forest[k].i]
  {
    hide Separated;
    forall i ensures forest[k].Leaves()[i] <= 1 {
      LeafCount(forest, k, i);
    }
    assert Builds(boxes, forest[k], merged[k]);
    SeparatedHasNoJoin(boxes, forest[k]);
  }

  lemma CompleteForestSize(forest: seq<Tree>, n: nat)
    requires forall i :: ForestLeaves(forest)[i] == if 0 <= i < n then 1 else 0
    ensures |ForestLeaves(forest)| == n
  {
    LeavesComplete(n);
    LeafForestSize(Leaves(n));
    assert ForestLeaves(Leaves(n)) == ForestLeaves(forest);
  }

  /** Boxes that cannot be merged come back unchanged; in particular merging twice is merging once. */
  lemma SeparatedUnchanged(boxes: seq<Box>, forest: seq<Tree>, merged: seq<Box>)
    requires Separated(boxes) && Merging(boxes, forest, merged)
    ensures merged == boxes
  {
    hide Separated, Builds, ForestLeaves;
    forall k | 0 <= k < |forest|
      ensures forest[k].Leaf? && forest[k].i < |boxes| && merged[k] == boxes[forest[k].i]
    {
      SeparatedAllLeaves(boxes, forest, merged, k);
    }
    OnlyLeaves(boxes, forest, merged);
  }

  /** Where nothing was joined, nothing has changed. */
  lemma OnlyLeaves(boxes: seq<Box>, forest: seq<Tree>, merged: seq<Box>)
    requires Merging(boxes, forest, merged) && forall k :: 0 <= k < |forest| ==> forest[k].Leaf?
    ensures merged == boxes
  {
    assert forall k :: 0 <= k < |forest| ==> Builds(boxes, forest[k], merged[k]);
    hide ForestLeaves;
    CompleteForestSize(forest, |boxes|);
    LeafForestSize(forest);
    var firsts := seq(|forest|, k requires 0 <= k < |forest| => forest[k].First());
    forall k | 0 <= k < |merged| ensures merged[k] == boxes[k] {
      IncreasingIsIdentity(firsts, k);
    }
  }

  // ----- which boxes merge, in numbers

  /** A gap of more than 0.005 lies between the boxes in one of the directions, or their centres are at least 0.012
      apart vertically. */
  predicate FarApart(a: Box, b: Box) {
    || b.x1 - a.x2 > 0.005 || a.x1 - b.x2 > 0.005
    || b.y1 - a.y2 > 0.005 || a.y1 - b.y2 > 0.005
    || a.y1 + a.y2 - b.y1 - b.y2 >= 0.024 || b.y1 + b.y2 - a.y1 - a.y2 >= 0.024
  }

  ghost predicate AllFarApart(boxes: seq<Box>) {
    forall i, j :: 0 <= i < j < |boxes| ==> FarApart(boxes[i], boxes[j])
  }

  /** The smallest box around two boxes. */
  function Around(a: Box, b: Box): Box {
    Box(if a.x1 <= b.x1 then a.x1 else b.x1, if a.y1 <= b.y1 then a.y1 else b.y1,
        if a.x2 <= b.x2 then b.x2 else a.x2, if a.y2 <= b.y2 then b.y2 else a.y2)
  }

  lemma MergeableMeans(a: Box, b: Box)
    ensures Mergeable(a, b) <==> !FarApart(a, b)
  {
  }

  lemma SeparatedMeans(boxes: seq<Box>)
    ensures Separated(boxes) <==> AllFarApart(boxes)
  {
    forall i, j | 0 <= i < j < |boxes| ensures Mergeable(boxes[i], boxes[j]) <==> !FarApart(boxes[i], boxes[j]) {
      MergeableMeans(boxes[i], boxes[j]);
    }
    hide Mergeable, FarApart;
  }

  /** Merging changes nothing exactly if all boxes are apart; what it returns is apart. */
  lemma UnchangedExactly(boxes: seq<Box>, forest: seq<Tree>, merged: seq<Box>)
    requires Merging(boxes, forest, merged) && Separated(merged)
    ensures AllFarApart(merged)
    ensures merged == boxes <==> AllFarApart(boxes)
  {
    SeparatedMeans(boxes);
    SeparatedMeans(merged);
    if Separated(boxes) {
      SeparatedUnchanged(boxes, forest, merged);
    }
    hide Merging, Separated, AllFarApart;
  }

  /** Two boxes that are not apart become one, the smallest box around them. */
  lemma TwoBoxes(boxes: seq<Box>, forest: seq<Tree>, merged: seq<Box>)
    requires Merging(boxes, forest, merged) && Separated(merged)
    ensures |boxes| == 2 && !FarApart(boxes[0], boxes[1]) ==> merged == [Around(boxes[0], boxes[1])]
  {
    if |boxes| == 2 && !FarApart(boxes[0], boxes[1]) {
      UnchangedExactly(boxes, forest, merged);
      FewerBoxes(boxes, forest, merged);
      assert !AllFarApart(boxes);
      assert |merged| == 1;
      assert Builds(boxes, forest[0], merged[0]);
      HullExact(boxes, forest[0]);
      assert ForestLeaves(forest) == forest[0].Leaves() by { assert forest[..0] == []; }
      assert 0 in forest[0].Leaves() && 1 in forest[0].Leaves();
      AroundIsHull(boxes, forest[0].Leaves(), merged[0]);
    }
  }

  lemma AroundIsHull(boxes: seq<Box>, leaves: multiset<nat>, b: Box)
    requires |boxes| == 2 && 0 in leaves && 1 in leaves && ExactHull(boxes, leaves, b)
    ensures b == Around(boxes[0], boxes[1])
  {
  }

  lemma {:induction false} LeavesNotEmpty(t: Tree)
    ensures |t.Leaves()| >= 1 && (|t.Leaves()| == 1 ==> t.Leaf?)
  {
    if t.Join? {
      LeavesNotEmpty(t.left);
      LeavesNotEmpty(t.right);
    }
  }

  lemma {:induction false} ForestSize(forest: seq<Tree>)
    ensures |ForestLeaves(forest)| >= |forest|
    ensures |ForestLeaves(forest)| == |forest| ==> forall k :: 0 <= k < |forest| ==> forest[k].Leaf?
  {
    if forest != [] {
      ForestSize(forest[..|forest| - 1]);
      LeavesNotEmpty(forest[|forest| - 1]);
    }
  }

  /** Merging never adds a box, leaves none out, and changes something exactly by leaving fewer. */
  lemma FewerBoxes(boxes: seq<Box>, forest: seq<Tree>, merged: seq<Box>)
    requires Merging(boxes, forest, merged)
    ensures |merged| <= |boxes| && (boxes != [] ==> merged != [])
    ensures |merged| == |boxes| <==> merged == boxes
  {
    CompleteForestSize(forest, |boxes|);
    ForestSize(forest);
    if |merged| == |boxes| {
      OnlyLeaves(boxes, forest, merged);
    }
    assert forest == [] ==> ForestLeaves(forest) == multiset{};
  }
}
