/** Connected components of the binary text mask (src/inference.rs, step 3 of the PaddleOCR detector):
    an explicit-stack flood fill against the 8-connected components defined by paths. */
module FloodFill {

  datatype Pixel = Pixel(x: nat, y: nat)

  predicate Adjacent(p: Pixel, q: Pixel) {
    p != q && -1 <= p.x - q.x <= 1 && -1 <= p.y - q.y <= 1
  }

  // ----- 8-connectivity inside a set of foreground pixels

  /** `path` walks from `a` to `b` inside `fg`, each step to one of the 8 neighbours. */
  ghost predicate IsPath(fg: set<Pixel>, a: Pixel, b: Pixel, path: seq<Pixel>) {
    && path != [] && path[0] == a && path[|path| - 1] == b
    && (forall i :: 0 <= i < |path| ==> path[i] in fg)
    && (forall i :: 0 < i < |path| ==> Adjacent(path[i - 1], path[i]))
  }

  ghost predicate Connected(fg: set<Pixel>, a: Pixel, b: Pixel) {
    exists path :: IsPath(fg, a, b, path)
  }

  /** The 8-connected component of `a`. */
  ghost function Component(fg: set<Pixel>, a: Pixel): (s: set<Pixel>)
    ensures s <= fg
  {
    set p | p in fg && Connected(fg, a, p)
  }

  /** No foreground neighbour of a pixel of `s` is outside `s`. */
  ghost predicate Closed(fg: set<Pixel>, s: set<Pixel>) {
    s <= fg && forall p, q :: p in s && q in fg && Adjacent(p, q) ==> q in s
  }

  lemma ConnectedRefl(fg: set<Pixel>, a: Pixel)
    requires a in fg
    ensures Connected(fg, a, a)
  {
    assert IsPath(fg, a, a, [a]);
  }

  lemma ConnectedStep(fg: set<Pixel>, a: Pixel, b: Pixel, c: Pixel)
    requires Connected(fg, a, b) && c in fg && Adjacent(b, c)
    ensures Connected(fg, a, c)
  {
    var path :| IsPath(fg, a, b, path);
    assert IsPath(fg, a, c, path + [c]);
  }

  lemma ConnectedSymmetric(fg: set<Pixel>, a: Pixel, b: Pixel)
    requires Connected(fg, a, b)
    ensures Connected(fg, b, a)
  {
    var path :| IsPath(fg, a, b, path);
    var back := seq(|path|, i requires 0 <= i < |path| => path[|path| - 1 - i]);
    assert IsPath(fg, b, a, back);
  }

  lemma {:induction false} ClosedAbsorbs(fg: set<Pixel>, s: set<Pixel>, a: Pixel, b: Pixel, path: seq<Pixel>)
    requires Closed(fg, s) && a in s && IsPath(fg, a, b, path)
    ensures b in s
    decreases |path|
  {
    if |path| > 1 {
      assert Adjacent(path[0], path[1]) && path[1] in fg;
      ClosedAbsorbs(fg, s, path[1], b, path[1..]);
    }
  }

  lemma ComponentClosed(fg: set<Pixel>, a: Pixel)
    requires a in fg
    ensures Closed(fg, Component(fg, a)) && a in Component(fg, a)
  {
    ConnectedRefl(fg, a);
    forall p, q | p in Component(fg, a) && q in fg && Adjacent(p, q) ensures q in Component(fg, a) {
      ConnectedStep(fg, a, p, q);
    }
  }

  /** A closed set either contains a component or misses it. */
  lemma ClosedOrDisjoint(fg: set<Pixel>, s: set<Pixel>, a: Pixel)
    requires Closed(fg, s)
    ensures if a in s then Component(fg, a) <= s else Component(fg, a) !! s
  {
    forall b | b in Component(fg, a) ensures b in s <==> a in s {
      if a in s {
        var path :| IsPath(fg, a, b, path);
        ClosedAbsorbs(fg, s, a, b, path);
      }
      if b in s {
        ConnectedSymmetric(fg, a, b);
        var path :| IsPath(fg, b, a, path);
        ClosedAbsorbs(fg, s, b, a, path);
      }
    }
  }

  /** Components partition the foreground: connected pixels have the same one, others have disjoint ones. */
  lemma ComponentsPartition(fg: set<Pixel>, a: Pixel, b: Pixel)
    requires a in fg && b in fg
    ensures if Connected(fg, a, b) then Component(fg, a) == Component(fg, b)
            else Component(fg, a) !! Component(fg, b)
  {
    ComponentClosed(fg, a);
    ComponentClosed(fg, b);
    ClosedOrDisjoint(fg, Component(fg, a), b);
    ClosedOrDisjoint(fg, Component(fg, b), a);
    if Connected(fg, a, b) {
      ConnectedSymmetric(fg, a, b);
    }
  }

  // ----- what connects and what separates

  /** Foreground pixels that touch, at a side or a corner, are connected. */
  lemma TouchingConnected(fg: set<Pixel>, p: Pixel, q: Pixel)
    requires p in fg && q in fg
    requires (p.x == q.x || p.x == q.x + 1 || q.x == p.x + 1) && (p.y == q.y || p.y == q.y + 1 || q.y == p.y + 1)
    ensures Connected(fg, p, q)
  {
    ConnectedRefl(fg, p);
    if p != q {
      ConnectedStep(fg, p, p, q);
    }
  }

  /** The foreground left of a column, or above a row. */
  ghost function Beyond(fg: set<Pixel>, x: nat, y: nat): set<Pixel> { set p | p in fg && (p.x < x || p.y < y) }

  /** A column without foreground separates what is left of it from what is right of it, and a row what is above from
      what is below. */
  lemma GapSeparates(fg: set<Pixel>, p: Pixel, q: Pixel, gap: nat)
    requires p in fg && q in fg
    ensures (forall r :: r in fg ==> r.x != gap) && p.x < gap < q.x ==> !Connected(fg, p, q)
    ensures (forall r :: r in fg ==> r.y != gap) && p.y < gap < q.y ==> !Connected(fg, p, q)
  {
    if (forall r :: r in fg ==> r.x != gap) && p.x < gap < q.x {
      assert Closed(fg, Beyond(fg, gap, 0));
      ClosedSeparates(fg, Beyond(fg, gap, 0), p, q);
    }
    if (forall r :: r in fg ==> r.y != gap) && p.y < gap < q.y {
      assert Closed(fg, Beyond(fg, 0, gap));
      ClosedSeparates(fg, Beyond(fg, 0, gap), p, q);
    }
  }

  lemma ClosedSeparates(fg: set<Pixel>, s: set<Pixel>, p: Pixel, q: Pixel)
    requires Closed(fg, s) && p in s && q in fg && q !in s
    ensures !Connected(fg, p, q)
  {
    ClosedOrDisjoint(fg, s, p);
    ConnectedRefl(fg, p);
    assert p in Component(fg, p);
  }

  // ----- the grid

  /** The size of a mask; a row-major array of flags stores pixel (x, y) at y * width + x. */
  datatype Grid = Grid(width: nat, height: nat) {
    function Size(): nat { height * width }

    predicate Inside(p: Pixel) { p.x < width && p.y < height }

    function Index(p: Pixel): (i: nat)
      requires Inside(p)
      ensures i < Size()
    {
      var below := height - p.y - 1;
      assert height * width == p.y * width + width + below * width;
      assert below * width >= 0;
      p.y * width + p.x
    }

    lemma LowerRowFirst(p: Pixel, q: Pixel)
      requires Inside(p) && Inside(q) && p.y < q.y
      ensures Index(p) < Index(q)
    {
      var gap := q.y - p.y - 1;
      assert q.y * width == p.y * width + width + gap * width;
      assert gap * width >= 0;
    }

    /** Row-major order: by row, then by column; in particular no two pixels share an index. */
    lemma IndexOrder(p: Pixel, q: Pixel)
      requires Inside(p) && Inside(q)
      ensures Index(p) < Index(q) <==> p.y < q.y || (p.y == q.y && p.x < q.x)
    {
      if p.y < q.y {
        LowerRowFirst(p, q);
      } else if q.y < p.y {
        LowerRowFirst(q, p);
      }
    }

    /** The pixels whose flag is set. */
    ghost function Marked(flags: seq<bool>): (s: set<Pixel>)
      requires |flags| == Size()
      ensures forall p :: p in s <==> Inside(p) && flags[Index(p)]
    {
      var s := set x, y | 0 <= x < width && 0 <= y < height && flags[Index(Pixel(x, y))] :: Pixel(x, y);
      assert forall p :: p in s <==> Inside(p) && flags[Index(p)] by {
        forall p | Inside(p) && flags[Index(p)] ensures p in s { assert p == Pixel(p.x, p.y); }
      }
      s
    }

    lemma MarkOne(flags: seq<bool>, p: Pixel)
      requires |flags| == Size() && Inside(p)
      ensures Marked(flags[Index(p) := true]) == Marked(flags) + {p}
    {
      forall q | Inside(q) && q != p ensures Index(q) != Index(p) {
        IndexOrder(p, q);
        IndexOrder(q, p);
      }
    }
  }

  // ----- one flood fill

  /** What the detector learns about one component: the seed it started from, the pixel count and the box. */
  datatype Region = Region(seed: Pixel, count: nat, minX: nat, maxX: nat, minY: nat, maxY: nat) {
    /** The tightest box around `s`: it contains `s` and each side touches a pixel of `s`. */
    ghost predicate Tight(s: set<Pixel>) {
      && (forall p :: p in s ==> minX <= p.x <= maxX && minY <= p.y <= maxY)
      && (exists p :: p in s && p.x == minX)
      && (exists p :: p in s && p.x == maxX)
      && (exists p :: p in s && p.y == minY)
      && (exists p :: p in s && p.y == maxY)
    }

    ghost predicate Describes(s: set<Pixel>) {
      seed in s && count == |s| && Tight(s)
    }
  }

  /** Pushes the neighbours of `p` that lie in the grid, foreground or not, visited or not. */
  method PushNeighbours(g: Grid, p: Pixel, stack: seq<Pixel>) returns (r: seq<Pixel>)
    requires g.Inside(p)
    ensures |r| >= |stack| && r[..|stack|] == stack
    ensures forall q :: q in r[|stack|..] <==> g.Inside(q) && Adjacent(p, q)
  {
    var pushed: seq<Pixel> := [];
    for dy := -1 to 2
      invariant forall q :: q in pushed <==> g.Inside(q) && Adjacent(p, q) && q.y - p.y < dy
    {
      for dx := -1 to 2
        invariant forall q :: q in pushed <==>
          g.Inside(q) && Adjacent(p, q) && (q.y - p.y < dy || (q.y - p.y == dy && q.x - p.x < dx))
      {
        if dx != 0 || dy != 0 {
          var nx, ny := p.x + dx, p.y + dy;
          if 0 <= nx < g.width && 0 <= ny < g.height {
            pushed := pushed + [Pixel(nx, ny)];
          }
        }
      }
    }
    r := stack + pushed;
  }

  function Grow(r: Region, p: Pixel): Region {
    r.(count := r.count + 1,
       minX := if p.x < r.minX then p.x else r.minX, maxX := if p.x > r.maxX then p.x else r.maxX,
       minY := if p.y < r.minY then p.y else r.minY, maxY := if p.y > r.maxY then p.y else r.maxY)
  }

  lemma GrowTight(r: Region, s: set<Pixel>, p: Pixel)
    requires p !in s
    requires if s == {} then r.minX == r.maxX == p.x && r.minY == r.maxY == p.y else r.Tight(s)
    ensures Grow(r, p).Tight(s + {p})
  {
    var t := s + {p};
    assert p in t;
    if s != {} {
      var a :| a in s && a.x == r.minX; assert a in t;
      var b :| b in s && b.x == r.maxX; assert b in t;
      var c :| c in s && c.y == r.minY; assert c in t;
      var d :| d in s && d.y == r.maxY; assert d in t;
    }
  }

  /** What the fill keeps: `region` is the part of the component visited so far, and the stack still holds a
      way to every unvisited neighbour of it. */
  ghost predicate Filling(g: Grid, fg: set<Pixel>, r: Region, region: set<Pixel>, stack: seq<Pixel>) {
    && region <= Component(fg, r.seed)
    && (forall i :: 0 <= i < |stack| ==>
          g.Inside(stack[i]) && (stack[i] in fg ==> stack[i] in Component(fg, r.seed)))
    && (forall p, q :: p in region && q in fg && Adjacent(p, q) ==> q in region || q in stack)
    && r.count == |region|
    && (if region == {} then stack == [r.seed] && r == Region(r.seed, 0, r.seed.x, r.seed.x, r.seed.y, r.seed.y)
        else r.seed in region && r.Tight(region))
  }

  lemma FillStart(g: Grid, fg: set<Pixel>, seed: Pixel)
    requires seed in fg && g.Inside(seed)
    ensures Filling(g, fg, Region(seed, 0, seed.x, seed.x, seed.y, seed.y), {}, [seed])
  {
    ConnectedRefl(fg, seed);
  }

  lemma SkipStep(g: Grid, fg: set<Pixel>, r: Region, region: set<Pixel>, stack: seq<Pixel>, p: Pixel)
    requires Filling(g, fg, r, region, stack + [p])
    requires p in region || (p !in Component(fg, r.seed) && r.seed in fg)
    ensures Filling(g, fg, r, region, stack)
  {
    if r.seed in fg {
      ConnectedRefl(fg, r.seed);
    }
    var full := stack + [p];
    assert full[0] == r.seed || region != {};
    assert full[|stack|] == p;
    forall i | 0 <= i < |stack| ensures stack[i] == full[i] {}
    forall a, q | a in region && q in fg && Adjacent(a, q) ensures q in region || q in stack {
      assert q in region || q in full;
    }
  }

  lemma VisitStep(g: Grid, fg: set<Pixel>, r: Region, region: set<Pixel>, stack: seq<Pixel>, p: Pixel,
                  pushed: seq<Pixel>)
    requires Filling(g, fg, r, region, stack + [p]) && p !in region && p in fg
    requires forall q :: q in pushed <==> g.Inside(q) && Adjacent(p, q)
    requires forall q :: q in fg ==> g.Inside(q)
    ensures Filling(g, fg, Grow(r, p), region + {p}, stack + pushed)
    ensures p in Component(fg, r.seed) && Grow(r, p).seed == r.seed
  {
    var full := stack + [p];
    assert full[|stack|] == p;
    assert region == {} ==> full[0] == r.seed;
    GrowTight(r, region, p);
    var next := stack + pushed;
    forall i | 0 <= i < |next| ensures g.Inside(next[i]) && (next[i] in fg ==> next[i] in Component(fg, r.seed)) {
      if i < |stack| {
        assert full[i] == next[i];
      } else {
        assert next[i] in pushed;
        if next[i] in fg {
          ConnectedStep(fg, r.seed, p, next[i]);
        }
      }
    }
    forall a, q | a in region + {p} && q in fg && Adjacent(a, q) ensures q in region + {p} || q in next {
      if a == p {
        assert q in pushed;
      } else {
        assert q in region || q in full;
      }
    }
  }

  lemma FillDone(g: Grid, fg: set<Pixel>, r: Region, region: set<Pixel>)
    requires Filling(g, fg, r, region, [])
    ensures region == Component(fg, r.seed) && r.Describes(region)
  {
    assert Closed(fg, region);
    ClosedOrDisjoint(fg, region, r.seed);
  }

  /** The same together with the flags: set before the fill, and for what it has visited. */
  ghost predicate FillState(g: Grid, fg: set<Pixel>, r: Region, region: set<Pixel>, stack: seq<Pixel>,
                            flags: seq<bool>, before: set<Pixel>)
  {
    && |flags| == g.Size() && Filling(g, fg, r, region, stack) && g.Marked(flags) == before + region
    && r.seed in fg && before !! Component(fg, r.seed)
  }

  lemma FillBegins(g: Grid, fg: set<Pixel>, seed: Pixel, flags: seq<bool>, before: set<Pixel>)
    requires |flags| == g.Size() && g.Marked(flags) == before && g.Inside(seed)
    requires Closed(fg, before) && seed in fg && seed !in before
    ensures FillState(g, fg, Region(seed, 0, seed.x, seed.x, seed.y, seed.y), {}, [seed], flags, before)
  {
    hide Grid.Marked, Filling, Closed, Component;
    ClosedOrDisjoint(fg, before, seed);
    FillStart(g, fg, seed);
  }

  lemma FillEnds(g: Grid, fg: set<Pixel>, r: Region, region: set<Pixel>, flags: seq<bool>, before: set<Pixel>)
    requires FillState(g, fg, r, region, [], flags, before)
    ensures g.Marked(flags) == before + Component(fg, r.seed) && Component(fg, r.seed) !! before
    ensures r.Describes(Component(fg, r.seed))
  {
    hide Grid.Marked, Filling, Component;
    FillDone(g, fg, r, region);
  }

  lemma FillSkips(g: Grid, fg: set<Pixel>, r: Region, region: set<Pixel>, stack: seq<Pixel>, p: Pixel,
                  flags: seq<bool>, before: set<Pixel>)
    requires FillState(g, fg, r, region, stack + [p], flags, before) && g.Inside(p)
    requires flags[g.Index(p)] || p !in fg
    ensures FillState(g, fg, r, region, stack, flags, before)
  {
    hide Filling, Component, Grid.Index;
    assert p in before || p in region || p !in fg;
    SkipStep(g, fg, r, region, stack, p);
  }

  lemma FillVisits(g: Grid, fg: set<Pixel>, r: Region, region: set<Pixel>, stack: seq<Pixel>, p: Pixel,
                   pushed: seq<Pixel>, flags: seq<bool>, before: set<Pixel>)
    requires FillState(g, fg, r, region, stack + [p], flags, before) && g.Inside(p)
    requires !flags[g.Index(p)] && p in fg && forall q :: q in fg ==> g.Inside(q)
    requires forall q :: q in pushed <==> g.Inside(q) && Adjacent(p, q)
    ensures FillState(g, fg, Grow(r, p), region + {p}, stack + pushed, flags[g.Index(p) := true], before)
    ensures fg - (region + {p}) < fg - region && Grow(r, p).seed == r.seed
  {
    hide Filling, Component, Grid.Index, Adjacent, Grow;
    assert p !in g.Marked(flags);
    g.MarkOne(flags, p);
    VisitStep(g, fg, r, region, stack, p, pushed);
    assert before + region + {p} == before + (region + {p});
  }

  lemma TopInside(g: Grid, fg: set<Pixel>, r: Region, region: set<Pixel>, stack: seq<Pixel>, flags: seq<bool>,
                  before: set<Pixel>)
    requires FillState(g, fg, r, region, stack, flags, before) && stack != []
    ensures g.Inside(stack[|stack| - 1])
  {
  }

  method Fill(g: Grid, mask: seq<bool>, visited: array<bool>, seed: Pixel) returns (r: Region)
    requires |mask| == visited.Length == g.Size()
    requires Closed(g.Marked(mask), g.Marked(visited[..]))
    requires seed in g.Marked(mask) && seed !in g.Marked(visited[..])
    modifies visited
    ensures g.Marked(visited[..]) == old(g.Marked(visited[..])) + Component(g.Marked(mask), seed)
    ensures Component(g.Marked(mask), seed) !! old(g.Marked(visited[..]))
    ensures r.seed == seed && r.Describes(Component(g.Marked(mask), seed))
  {
    hide *;
    ghost var fg, before := g.Marked(mask), g.Marked(visited[..]);
    ghost var region: set<Pixel> := {};
    r := Region(seed, 0, seed.x, seed.x, seed.y, seed.y);
    var stack := [seed];
    FillBegins(g, fg, seed, visited[..], before);
    while stack != []
      invariant r.seed == seed && FillState(g, fg, r, region, stack, visited[..], before)
      decreases fg - region, |stack|
    {
      TopInside(g, fg, r, region, stack, visited[..], before);
      ghost var full := stack;
      var p := stack[|stack| - 1];
      stack := stack[..|stack| - 1];
      assert full == stack + [p];
      var idx := g.Index(p);
      if visited[idx] || !mask[idx] {
        FillSkips(g, fg, r, region, stack, p, visited[..], before);
        continue;
      }
      ghost var was := visited[..];
      visited[idx] := true;
      assert visited[..] == was[idx := true];
      var next := PushNeighbours(g, p, stack);
      assert next == stack + next[|stack|..];
      FillVisits(g, fg, r, region, stack, p, next[|stack|..], was, before);
      r := Grow(r, p);
      stack, region := next, region + {p};
    }
    FillEnds(g, fg, r, region, visited[..], before);
  }

  // ----- the scan over all seeds

  /** Row-major scan order. */
  predicate Before(p: Pixel, q: Pixel) {
    p.y < q.y || (p.y == q.y && p.x < q.x)
  }

  function TotalCount(regions: seq<Region>): nat {
    if regions == [] then 0 else TotalCount(regions[..|regions| - 1]) + regions[|regions| - 1].count
  }

  /** Each region describes the component of its seed, which is the component's first pixel in scan order. */
  ghost predicate Described(fg: set<Pixel>, r: Region) {
    r.Describes(Component(fg, r.seed)) && forall p :: p in Component(fg, r.seed) ==> !Before(p, r.seed)
  }

  /** Pixel `p` belongs to the component of some region. */
  ghost predicate Owned(fg: set<Pixel>, regions: seq<Region>, p: Pixel) {
    exists k :: 0 <= k < |regions| && p in Component(fg, regions[k].seed)
  }

  /** Different components have no pixel in common, and seeds come in scan order. */
  ghost predicate Apart(fg: set<Pixel>, regions: seq<Region>) {
    forall j, k :: 0 <= j < k < |regions| ==>
      Component(fg, regions[j].seed) !! Component(fg, regions[k].seed) && Before(regions[j].seed, regions[k].seed)
  }

  /** The regions describe, in scan order, disjoint components that together make up `covered`. */
  ghost predicate Segments(fg: set<Pixel>, regions: seq<Region>, covered: set<Pixel>) {
    && (forall k :: 0 <= k < |regions| ==> Described(fg, regions[k]))
    && (forall p :: p in covered <==> Owned(fg, regions, p))
    && Apart(fg, regions)
    && TotalCount(regions) == |covered|
  }

  /** Everything in the foreground before `at` is covered. */
  ghost predicate CoveredBefore(fg: set<Pixel>, covered: set<Pixel>, at: Pixel) {
    forall p :: p in fg && Before(p, at) ==> p in covered
  }

  ghost predicate SeedsBefore(regions: seq<Region>, at: Pixel) {
    forall k :: 0 <= k < |regions| ==> Before(regions[k].seed, at)
  }

  lemma OwnedGrows(fg: set<Pixel>, regions: seq<Region>, r: Region, p: Pixel)
    ensures Owned(fg, regions + [r], p) <==> Owned(fg, regions, p) || p in Component(fg, r.seed)
  {
    hide Component;
    var all := regions + [r];
    if Owned(fg, regions, p) {
      var k :| 0 <= k < |regions| && p in Component(fg, regions[k].seed);
      assert all[k] == regions[k];
    }
    assert all[|regions|] == r;
  }

  lemma ApartGrows(fg: set<Pixel>, regions: seq<Region>, r: Region)
    requires Apart(fg, regions)
    requires forall k :: 0 <= k < |regions| ==>
      Component(fg, regions[k].seed) !! Component(fg, r.seed) && Before(regions[k].seed, r.seed)
    ensures Apart(fg, regions + [r])
  {
  }

  lemma ClosedUnion(fg: set<Pixel>, s: set<Pixel>, t: set<Pixel>)
    requires Closed(fg, s) && Closed(fg, t)
    ensures Closed(fg, s + t)
  {
  }

  lemma NewDescribed(fg: set<Pixel>, covered: set<Pixel>, r: Region)
    requires r.Describes(Component(fg, r.seed)) && Component(fg, r.seed) !! covered
    requires CoveredBefore(fg, covered, r.seed)
    ensures Described(fg, r)
  {
  }

  lemma CountGrows(regions: seq<Region>, covered: set<Pixel>, r: Region, c: set<Pixel>)
    requires TotalCount(regions) == |covered| && r.Describes(c) && c !! covered
    ensures TotalCount(regions + [r]) == |covered + c|
  {
  }

  lemma ApartFromCovered(fg: set<Pixel>, regions: seq<Region>, covered: set<Pixel>, r: Region)
    requires Segments(fg, regions, covered) && SeedsBefore(regions, r.seed) && Component(fg, r.seed) !! covered
    ensures Apart(fg, regions + [r])
  {
    hide Component, Described;
    forall k | 0 <= k < |regions| ensures Component(fg, regions[k].seed) !! Component(fg, r.seed) {
      ComponentCovered(fg, regions, covered, k);
    }
    hide Segments;
    ApartGrows(fg, regions, r);
  }

  lemma AddRegion(fg: set<Pixel>, regions: seq<Region>, covered: set<Pixel>, r: Region)
    requires Segments(fg, regions, covered) && SeedsBefore(regions, r.seed)
    requires r.Describes(Component(fg, r.seed)) && Component(fg, r.seed) !! covered
    requires CoveredBefore(fg, covered, r.seed)
    ensures Segments(fg, regions + [r], covered + Component(fg, r.seed))
  {
    hide Component, Described, Apart, Owned, CoveredBefore, TotalCount, Region.Describes, SeedsBefore;
    NewDescribed(fg, covered, r);
    ApartFromCovered(fg, regions, covered, r);
    CountGrows(regions, covered, r, Component(fg, r.seed));
    forall p ensures p in covered + Component(fg, r.seed) <==> Owned(fg, regions + [r], p) {
      OwnedGrows(fg, regions, r, p);
    }
  }

  lemma ComponentCovered(fg: set<Pixel>, regions: seq<Region>, covered: set<Pixel>, k: nat)
    requires Segments(fg, regions, covered) && k < |regions|
    ensures Component(fg, regions[k].seed) <= covered
  {
  }

  /** Where the scan stands when it reaches `at`. */
  ghost predicate Scanning(fg: set<Pixel>, regions: seq<Region>, covered: set<Pixel>, at: Pixel) {
    && Segments(fg, regions, covered) && Closed(fg, covered)
    && CoveredBefore(fg, covered, at) && SeedsBefore(regions, at)
  }

  lemma ScanStart(fg: set<Pixel>)
    ensures Scanning(fg, [], {}, Pixel(0, 0))
  {
  }

  lemma SkipSeed(fg: set<Pixel>, regions: seq<Region>, covered: set<Pixel>, x: nat, y: nat)
    requires Scanning(fg, regions, covered, Pixel(x, y))
    requires Pixel(x, y) in fg ==> Pixel(x, y) in covered
    ensures Scanning(fg, regions, covered, Pixel(x + 1, y))
  {
    hide Segments, Closed;
    forall p | p in fg && Before(p, Pixel(x + 1, y)) ensures p in covered {
      assert Before(p, Pixel(x, y)) || p == Pixel(x, y);
    }
  }

  lemma FilledSeed(fg: set<Pixel>, regions: seq<Region>, covered: set<Pixel>, r: Region)
    requires Scanning(fg, regions, covered, r.seed) && r.seed in fg
    requires r.Describes(Component(fg, r.seed)) && Component(fg, r.seed) !! covered
    ensures Scanning(fg, regions + [r], covered + Component(fg, r.seed), Pixel(r.seed.x + 1, r.seed.y))
  {
    hide Component, Segments, Region.Describes;
    AddRegion(fg, regions, covered, r);
    ComponentClosed(fg, r.seed);
    ClosedUnion(fg, covered, Component(fg, r.seed));
    hide Closed;
    var at := Pixel(r.seed.x + 1, r.seed.y);
    forall p | p in fg && Before(p, at) ensures p in covered + Component(fg, r.seed) {
      assert Before(p, r.seed) || p == r.seed;
    }
  }

  lemma NextRow(g: Grid, fg: set<Pixel>, regions: seq<Region>, covered: set<Pixel>, y: nat)
    requires Scanning(fg, regions, covered, Pixel(g.width, y)) && forall p :: p in fg ==> g.Inside(p)
    ensures Scanning(fg, regions, covered, Pixel(0, y + 1))
  {
    hide Segments, Closed;
  }

  lemma ScanDone(g: Grid, fg: set<Pixel>, regions: seq<Region>, covered: set<Pixel>)
    requires Scanning(fg, regions, covered, Pixel(0, g.height)) && forall p :: p in fg ==> g.Inside(p)
    ensures Segments(fg, regions, fg)
  {
    hide Segments;
    assert forall p :: p in fg ==> Before(p, Pixel(0, g.height));
    assert covered == fg;
  }

  method FindRegions(g: Grid, mask: seq<bool>) returns (regions: seq<Region>)
    requires |mask| == g.Size()
    ensures Segments(g.Marked(mask), regions, g.Marked(mask))
  {
    hide Segments, Closed, Scanning, Component, Region.Describes, Grid.Marked;
    var visited := new bool[g.Size()](_ => false);
    regions := [];
    ghost var fg := g.Marked(mask);
    assert g.Marked(visited[..]) == {};
    ScanStart(fg);
    for y := 0 to g.height
      invariant Scanning(fg, regions, g.Marked(visited[..]), Pixel(0, y))
    {
      for x := 0 to g.width
        invariant Scanning(fg, regions, g.Marked(visited[..]), Pixel(x, y))
      {
        var seed := Pixel(x, y);
        var idx := g.Index(seed);
        ghost var covered := g.Marked(visited[..]);
        if visited[idx] || !mask[idx] {
          SkipSeed(fg, regions, covered, x, y);
          continue;
        }
        assert Closed(fg, covered) by { ScanningClosed(fg, regions, covered, seed); }
        var r := Fill(g, mask, visited, seed);
        FilledSeed(fg, regions, covered, r);
        regions := regions + [r];
      }
      NextRow(g, fg, regions, g.Marked(visited[..]), y);
    }
    ScanDone(g, fg, regions, g.Marked(visited[..]));
  }

  lemma ScanningClosed(fg: set<Pixel>, regions: seq<Region>, covered: set<Pixel>, at: Pixel)
    requires Scanning(fg, regions, covered, at)
    ensures Closed(fg, covered)
  {
  }

  /** A segmentation tells exactly which foreground pixels are connected. */
  lemma SameRegionIffConnected(fg: set<Pixel>, regions: seq<Region>, p: Pixel, q: Pixel)
    requires Segments(fg, regions, fg) && p in fg && q in fg
    ensures Connected(fg, p, q) <==>
      exists k :: 0 <= k < |regions| && p in Component(fg, regions[k].seed) && q in Component(fg, regions[k].seed)
  {
    hide Described, Apart, Connected, TotalCount;
    assert Owned(fg, regions, p);
    var k :| 0 <= k < |regions| && p in Component(fg, regions[k].seed);
    hide Owned, Segments;
    forall j | 0 <= j < |regions| && p in Component(fg, regions[j].seed)
      ensures Component(fg, regions[j].seed) == Component(fg, p)
    {
      SeedInForeground(fg, regions, j);
      ComponentsPartition(fg, regions[j].seed, p);
    }
    InOwnComponent(fg, q);
    ComponentsPartition(fg, p, q);
    InOwnComponent(fg, p);
  }

  lemma SeedInForeground(fg: set<Pixel>, regions: seq<Region>, k: nat)
    requires Segments(fg, regions, fg) && k < |regions|
    ensures regions[k].seed in fg
  {
    assert Described(fg, regions[k]);
  }

  lemma InOwnComponent(fg: set<Pixel>, p: Pixel)
    requires p in fg
    ensures p in Component(fg, p)
  {
    ConnectedRefl(fg, p);
  }

  // ----- the mask determines the regions

  lemma TightUnique(s: set<Pixel>, a: Region, b: Region)
    requires a.Tight(s) && b.Tight(s)
    ensures a.minX == b.minX && a.maxX == b.maxX && a.minY == b.minY && a.maxY == b.maxY
  {
  }

  lemma DescribedUnique(fg: set<Pixel>, a: Region, b: Region)
    requires Described(fg, a) && Described(fg, b) && Component(fg, a.seed) == Component(fg, b.seed)
    ensures a == b
  {
    hide Component, Region.Tight;
    TightUnique(Component(fg, a.seed), a, b);
    assert !Before(a.seed, b.seed) && !Before(b.seed, a.seed);
  }

  lemma RegionFound(fg: set<Pixel>, a: seq<Region>, b: seq<Region>, k: nat) returns (j: nat)
    requires Segments(fg, a, fg) && Segments(fg, b, fg) && k < |a|
    ensures j < |b| && a[k] == b[j]
  {
    SeedInForeground(fg, a, k);
    hide Component, Connected, Described, Apart, TotalCount;
    assert Owned(fg, b, a[k].seed);
    j :| 0 <= j < |b| && a[k].seed in Component(fg, b[j].seed);
    SeedInForeground(fg, b, j);
    ComponentsPartition(fg, a[k].seed, b[j].seed);
    InOwnComponent(fg, a[k].seed);
    DescribedUnique(fg, a[k], b[j]);
  }

  lemma InScanOrder(fg: set<Pixel>, regions: seq<Region>, j: nat, k: nat)
    requires Segments(fg, regions, fg) && j < k < |regions|
    ensures Before(regions[j].seed, regions[k].seed) && !Before(regions[k].seed, regions[j].seed)
  {
    hide Component, Described, Owned, TotalCount;
  }

  lemma {:induction false} RegionsAgree(fg: set<Pixel>, a: seq<Region>, b: seq<Region>, k: nat)
    requires Segments(fg, a, fg) && Segments(fg, b, fg) && k < |a|
    ensures k < |b| && a[k] == b[k]
  {
    hide Segments, Before;
    var j := RegionFound(fg, a, b, k);
    if j < k {
      RegionsAgree(fg, a, b, j);
      InScanOrder(fg, a, j, k);
    } else if j > k {
      var i := RegionFound(fg, b, a, k);
      InScanOrder(fg, b, k, j);
      if i < k {
        RegionsAgree(fg, a, b, i);
        InScanOrder(fg, b, i, k);
      } else if i > k {
        InScanOrder(fg, a, k, i);
      }
    }
  }

  /** Two segmentations of one foreground are the same, region by region. */
  lemma SegmentsUnique(fg: set<Pixel>, a: seq<Region>, b: seq<Region>)
    requires Segments(fg, a, fg) && Segments(fg, b, fg)
    ensures a == b
  {
    hide Segments;
    if a != [] {
      RegionsAgree(fg, a, b, |a| - 1);
    }
    if b != [] {
      RegionsAgree(fg, b, a, |b| - 1);
    }
    forall k | 0 <= k < |a| ensures a[k] == b[k] {
      RegionsAgree(fg, a, b, k);
    }
  }
}
