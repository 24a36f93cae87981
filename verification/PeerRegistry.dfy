/** Region-diverse peer selection (src/peer_registry.rs, `get_diverse_peers`). */
module PeerRegistry {
  import opened Options
  import opened Sequences
  import opened Sets

  const UNKNOWN_REGION := "unknown"

  /** The registry: each peer with its announced region, if any. */
  type Registry = map<string, Option<string>>

  function RegionOf(peers: Registry, p: string): string
    requires p in peers
  {
    if peers[p].Some? then peers[p].value else UNKNOWN_REGION
  }

  ghost function Eligible(peers: Registry, exclude: Option<string>): set<string> {
    set p | p in peers && exclude != Some(RegionOf(peers, p))
  }

  ghost function RegionsOf(peers: Registry, ps: set<string>): set<string>
    requires ps <= peers.Keys
  {
    set p | p in ps :: RegionOf(peers, p)
  }

  datatype Group = Group(region: string, members: seq<string>)

  const BY_REGION: (Group, Group) -> bool := (a: Group, b: Group) => LexLe(a.region, b.region)

  /** The peers of all groups. */
  ghost function Bag(groups: seq<Group>): multiset<string> {
    if groups == [] then multiset{} else multiset(groups[0].members) + Bag(groups[1..])
  }

  ghost predicate OneRegion(peers: Registry, g: Group) {
    g.members != [] && forall p :: p in g.members ==> p in peers && RegionOf(peers, p) == g.region
  }

  /** Groups have different regions and at least one member each, and members are of their group's region. */
  ghost predicate Grouped(peers: Registry, groups: seq<Group>) {
    && (forall i :: 0 <= i < |groups| ==> OneRegion(peers, groups[i]))
    && (forall i, j :: 0 <= i < j < |groups| ==> groups[i].region != groups[j].region)
  }

  lemma {:induction false} BagConcat(a: seq<Group>, b: seq<Group>)
    ensures Bag(a + b) == Bag(a) + Bag(b)
  {
    if a == [] {
      assert a + b == b;
    } else {
      assert (a + b)[1..] == a[1..] + b;
      BagConcat(a[1..], b);
    }
  }

  lemma BagAt(groups: seq<Group>, k: nat)
    requires k < |groups|
    ensures Bag(groups) == Bag(groups[..k]) + multiset(groups[k].members) + Bag(groups[k + 1..])
  {
    BagConcat(groups[..k], groups[k..]);
    assert groups == groups[..k] + groups[k..] && groups[k..][1..] == groups[k + 1..];
  }

  lemma BagUpdate(groups: seq<Group>, k: nat, g: Group)
    requires k < |groups|
    ensures Bag(groups[k := g]) + multiset(groups[k].members) == Bag(groups) + multiset(g.members)
  {
    BagAt(groups, k);
    BagAt(groups[k := g], k);
    assert groups[k := g][..k] == groups[..k] && groups[k := g][k + 1..] == groups[k + 1..];
  }

  lemma BagRemove(groups: seq<Group>, k: nat)
    requires k < |groups| && groups[k].members == []
    ensures Bag(groups[..k] + groups[k + 1..]) == Bag(groups)
  {
    BagAt(groups, k);
    BagConcat(groups[..k], groups[k + 1..]);
  }

  lemma FirstGroup(peers: Registry, first: Group, rest: seq<Group>)
    requires Grouped(peers, [first] + rest)
    ensures Grouped(peers, rest) && first.members != []
    ensures forall p :: p in first.members ==> p in peers && RegionOf(peers, p) == first.region
    ensures forall i :: 0 <= i < |rest| ==> rest[i].region != first.region
  {
    var all := [first] + rest;
    assert OneRegion(peers, all[0]);
    hide OneRegion;
    assert all[0] == first;
    forall i | 0 <= i < |rest| ensures rest[i] == all[i + 1] && rest[i].region != first.region {
      assert all[0].region != all[i + 1].region;
    }
    forall i, j | 0 <= i < j < |rest| ensures rest[i].region != rest[j].region {
      assert all[i + 1].region != all[j + 1].region;
    }
  }

  lemma FirstBag(first: Group, rest: seq<Group>)
    ensures Bag([first] + rest) == multiset(first.members) + Bag(rest)
  {
    assert ([first] + rest)[1..] == rest;
  }

  /** Sorting reorders the groups and nothing else. */
  lemma {:induction false} SortGroups(peers: Registry, groups: seq<Group>)
    requires Grouped(peers, groups)
    ensures Grouped(peers, Sort(BY_REGION, groups)) && Bag(Sort(BY_REGION, groups)) == Bag(groups)
  {
    hide Bag, Grouped, LexLe;
    if groups != [] {
      var rest, sorted := groups[1..], Sort(BY_REGION, groups[1..]);
      assert groups == [groups[0]] + rest;
      FirstGroup(peers, groups[0], rest);
      FirstBag(groups[0], rest);
      SortGroups(peers, rest);
      SortContent(BY_REGION, rest);
      forall i | 0 <= i < |sorted| ensures sorted[i].region != groups[0].region {
        SameContent(sorted, rest, sorted[i]);
      }
      var k := InsertSplit(BY_REGION, groups[0], sorted);
      InsertGroup(peers, sorted, k, groups[0], Sort(BY_REGION, groups));
      BagInsert(sorted, k, groups[0]);
    }
  }

  lemma BagInsert(groups: seq<Group>, k: nat, g: Group)
    requires k <= |groups|
    ensures Bag(groups[..k] + [g] + groups[k..]) == multiset(g.members) + Bag(groups)
  {
    hide Bag;
    var all := groups[..k] + [g] + groups[k..];
    BagAt(all, k);
    assert all[..k] == groups[..k] && all[k + 1..] == groups[k..];
    BagConcat(groups[..k], groups[k..]);
    assert groups == groups[..k] + groups[k..];
  }

  lemma InsertGroup(peers: Registry, groups: seq<Group>, k: nat, g: Group, all: seq<Group>)
    requires Grouped(peers, groups) && k <= |groups| && g.members != [] && |all| == |groups| + 1
    requires all == groups[..k] + [g] + groups[k..]
    requires forall p :: p in g.members ==> p in peers && RegionOf(peers, p) == g.region
    requires forall i :: 0 <= i < |groups| ==> groups[i].region != g.region
    ensures Grouped(peers, all)
  {
    hide RegionOf;
    forall i | 0 <= i < |all| ensures all[i] in groups || all[i] == g {}
    forall i, j | 0 <= i < j < |all| ensures all[i].region != all[j].region {
      if i < k && j < k {
        assert groups[i].region != groups[j].region;
      } else if i < k < j {
        assert all[j] == groups[j - 1] && groups[i].region != groups[j - 1].region;
      } else if k < i {
        assert all[i] == groups[i - 1] && all[j] == groups[j - 1] && groups[i - 1].region != groups[j - 1].region;
      } else if i == k {
        assert all[j] == groups[j - 1];
      }
    }
  }

  lemma RemoveGroup(peers: Registry, groups: seq<Group>, k: nat)
    requires Grouped(peers, groups) && k < |groups|
    ensures Grouped(peers, groups[..k] + groups[k + 1..])
  {
  }

  // ----- the round-robin

  /** The regions represented by the chosen peers. */
  ghost function Represented(peers: Registry, chosen: seq<string>): set<string>
    requires forall p :: p in chosen ==> p in peers
  {
    set p | p in chosen :: RegionOf(peers, p)
  }

  /** Chosen and remaining peers are together the eligible ones, each once. */
  ghost predicate Dealt(peers: Registry, eligible: set<string>, groups: seq<Group>, chosen: seq<string>) {
    eligible <= peers.Keys && Grouped(peers, groups) && multiset(chosen) + Bag(groups) == multiset(eligible)
  }

  lemma ChosenEligible(peers: Registry, eligible: set<string>, groups: seq<Group>, chosen: seq<string>)
    requires Dealt(peers, eligible, groups, chosen)
    ensures forall p :: p in chosen ==> p in eligible && p in peers
    ensures forall i, j :: 0 <= i < j < |chosen| ==> chosen[i] != chosen[j]
  {
    forall p | p in chosen ensures p in eligible {
      assert p in multiset(chosen);
      assert p in multiset(eligible);
    }
    forall i, j | 0 <= i < j < |chosen| ensures chosen[i] != chosen[j] {
      assert multiset(eligible)[chosen[i]] <= 1;
      if chosen[i] == chosen[j] {
        TwiceCounted(chosen, i, j);
      }
    }
  }

  /** Until the first round is over, every chosen peer stands for a region of its own, and the groups before `idx` are
      the represented ones; later, every eligible region is represented. */
  ghost predicate Progress(peers: Registry, eligible: set<string>, groups: seq<Group>, chosen: seq<string>, idx: nat)
    requires eligible <= peers.Keys && forall p :: p in chosen ==> p in peers
  {
    var all, rep := RegionsOf(peers, eligible), Represented(peers, chosen);
    rep == all || FirstRound(groups, all, rep, |chosen|, idx)
  }

  lemma RepresentedGrows(peers: Registry, chosen: seq<string>, p: string)
    requires p in peers && forall q :: q in chosen ==> q in peers
    ensures Represented(peers, chosen + [p]) == Represented(peers, chosen) + {RegionOf(peers, p)}
  {
  }

  /** The state after taking the last member of group `at`. */
  ghost function GroupsAfter(groups: seq<Group>, at: nat): seq<Group>
    requires at < |groups| && groups[at].members != []
  {
    var rest := groups[at].members[..|groups[at].members| - 1];
    if rest == [] then groups[..at] + groups[at + 1..] else groups[at := groups[at].(members := rest)]
  }

  lemma Cancel(a: multiset<string>, b: multiset<string>, c: multiset<string>)
    requires a + c == b + c
    ensures a == b
  {
    forall x ensures a[x] == b[x] {
      assert (a + c)[x] == (b + c)[x];
    }
  }

  lemma TakeBag(groups: seq<Group>, at: nat)
    requires at < |groups| && groups[at].members != []
    ensures Bag(groups) == Bag(GroupsAfter(groups, at)) + multiset{groups[at].members[|groups[at].members| - 1]}
  {
    var members := groups[at].members;
    var last := |members| - 1;
    var g := groups[at].(members := members[..last]);
    assert members == members[..last] + [members[last]];
    BagUpdate(groups, at, g);
    hide Bag;
    var updated := groups[at := g];
    Cancel(Bag(updated) + multiset{members[last]}, Bag(groups), multiset(g.members));
    if members[..last] == [] {
      BagRemove(updated, at);
      assert updated[..at] + updated[at + 1..] == groups[..at] + groups[at + 1..];
    }
  }

  lemma TakeGrouped(peers: Registry, groups: seq<Group>, at: nat)
    requires Grouped(peers, groups) && at < |groups|
    ensures groups[at].members != [] && Grouped(peers, GroupsAfter(groups, at))
  {
    hide RegionOf;
    var rest := groups[at].members[..|groups[at].members| - 1];
    if rest == [] {
      RemoveGroup(peers, groups, at);
    } else {
      forall p | p in rest ensures p in groups[at].members {}
    }
  }

  lemma TakeDealt(peers: Registry, eligible: set<string>, groups: seq<Group>, chosen: seq<string>, at: nat)
    requires Dealt(peers, eligible, groups, chosen) && at < |groups|
    ensures groups[at].members != []
    ensures var peer := groups[at].members[|groups[at].members| - 1];
            && peer in eligible && peer in peers && RegionOf(peers, peer) == groups[at].region
            && Dealt(peers, eligible, GroupsAfter(groups, at), chosen + [peer])
  {
    TakeGrouped(peers, groups, at);
    TakeBag(groups, at);
    hide GroupsAfter, Bag, RegionOf;
    var peer := groups[at].members[|groups[at].members| - 1];
    assert multiset(chosen + [peer]) + Bag(GroupsAfter(groups, at)) == multiset(chosen) + Bag(groups);
    assert peer in multiset(chosen) + Bag(groups);
    assert peer in multiset(eligible);
  }

  lemma DealtSize(peers: Registry, eligible: set<string>, groups: seq<Group>, chosen: seq<string>)
    requires Dealt(peers, eligible, groups, chosen)
    ensures |chosen| <= |eligible| && (groups == [] ==> |chosen| == |eligible|)
  {
    assert |multiset(chosen)| + |Bag(groups)| == |multiset(eligible)|;
  }

  /** While the first round lasts. */
  ghost predicate FirstRound(groups: seq<Group>, all: set<string>, rep: set<string>, chosen: nat, idx: nat) {
    && rep <= all && |rep| == chosen && idx <= |groups|
    && (forall k :: 0 <= k < |groups| ==> (groups[k].region in rep <==> k < idx))
    && (forall r :: r in all && r !in rep ==> exists k :: 0 <= k < |groups| && groups[k].region == r)
  }

  lemma RoundLasts(groups: seq<Group>, all: set<string>, rep: set<string>, chosen: nat, idx: nat)
    requires FirstRound(groups, all, rep, chosen, idx) && rep != all
    ensures idx < |groups|
  {
  }

  lemma RoundContinues(groups: seq<Group>, after: seq<Group>, all: set<string>, rep: set<string>, chosen: nat,
                       idx: nat)
    requires FirstRound(groups, all, rep, chosen, idx) && idx < |groups| && groups[idx].region in all
    requires forall i, j :: 0 <= i < j < |groups| ==> groups[i].region != groups[j].region
    requires |after| == |groups| && forall k :: 0 <= k < |groups| ==> after[k].region == groups[k].region
    ensures FirstRound(after, all, rep + {groups[idx].region}, chosen + 1, idx + 1)
  {
  }

  lemma RoundContinuesWithout(groups: seq<Group>, after: seq<Group>, all: set<string>, rep: set<string>, chosen: nat,
                              idx: nat)
    requires FirstRound(groups, all, rep, chosen, idx) && idx < |groups| && groups[idx].region in all
    requires forall i, j :: 0 <= i < j < |groups| ==> groups[i].region != groups[j].region
    requires after == groups[..idx] + groups[idx + 1..]
    ensures FirstRound(after, all, rep + {groups[idx].region}, chosen + 1, idx)
  {
    forall k | 0 <= k < |after| ensures after[k] == groups[if k < idx then k else k + 1] {}
    forall r | r in all && r !in rep + {groups[idx].region}
      ensures exists k :: 0 <= k < |after| && after[k].region == r
    {
      var k :| 0 <= k < |groups| && groups[k].region == r;
      assert after[if k < idx then k else k - 1].region == r;
    }
  }

  lemma RegionsAfter(groups: seq<Group>, at: nat)
    requires at < |groups| && groups[at].members != []
    ensures var after := GroupsAfter(groups, at);
            if |after| < |groups| then after == groups[..at] + groups[at + 1..]
            else |after| == |groups| && forall k :: 0 <= k < |groups| ==> after[k].region == groups[k].region
  {
  }

  lemma ModSmall(i: nat, n: nat)
    requires i < n
    ensures i % n == i
  {
  }

  lemma TakeProgress(peers: Registry, eligible: set<string>, groups: seq<Group>, chosen: seq<string>, idx: nat,
                     p: string)
    requires eligible <= peers.Keys && (forall q :: q in chosen ==> q in peers) && Grouped(peers, groups)
    requires Progress(peers, eligible, groups, chosen, idx) && groups != [] && p in eligible
    requires RegionOf(peers, p) == groups[idx % |groups|].region
    ensures var after := GroupsAfter(groups, idx % |groups|);
            Progress(peers, eligible, after, chosen + [p], if |after| < |groups| then idx else idx + 1)
  {
    var all, rep, at := RegionsOf(peers, eligible), Represented(peers, chosen), idx % |groups|;
    var after := GroupsAfter(groups, at);
    RepresentedGrows(peers, chosen, p);
    assert RegionOf(peers, p) in all;
    RegionsAfter(groups, at);
    hide Represented, RegionsOf, RegionOf, FirstRound, GroupsAfter;
    if rep == all {
      assert rep + {RegionOf(peers, p)} == all;
    } else {
      RoundLasts(groups, all, rep, |chosen|, idx);
      ModSmall(idx, |groups|);
      if |after| < |groups| {
        RoundContinuesWithout(groups, after, all, rep, |chosen|, idx);
      } else {
        RoundContinues(groups, after, all, rep, |chosen|, idx);
      }
    }
  }

  function NamesOf(groups: seq<Group>): seq<string> {
    seq(|groups|, k requires 0 <= k < |groups| => groups[k].region)
  }

  /** The first picks follow the groups in turn; until each group has had one, the next turns are those of the groups
      from `idx` on. */
  ghost predicate InTurn(peers: Registry, start: seq<Group>, groups: seq<Group>, chosen: seq<string>, idx: nat) {
    && (forall k :: 0 <= k < |chosen| && k < |start| ==>
          chosen[k] in peers && RegionOf(peers, chosen[k]) == start[k].region)
    && (|chosen| < |start| ==> idx <= |groups| && NamesOf(groups)[idx..] == NamesOf(start)[|chosen|..])
  }

  lemma NamesAfter(groups: seq<Group>, at: nat)
    requires at < |groups| && groups[at].members != []
    ensures var after := GroupsAfter(groups, at);
            NamesOf(after)[if |after| < |groups| then at else at + 1..] == NamesOf(groups)[at + 1..]
  {
    RegionsAfter(groups, at);
    hide GroupsAfter;
  }

  lemma TakeInTurn(peers: Registry, start: seq<Group>, groups: seq<Group>, chosen: seq<string>, idx: nat, p: string)
    requires InTurn(peers, start, groups, chosen, idx) && groups != [] && p in peers
    requires groups[idx % |groups|].members != [] && RegionOf(peers, p) == groups[idx % |groups|].region
    ensures var after := GroupsAfter(groups, idx % |groups|);
            InTurn(peers, start, after, chosen + [p], if |after| < |groups| then idx else idx + 1)
  {
    if |chosen| < |start| {
      assert |NamesOf(groups)| - idx == |NamesOf(start)| - |chosen|;
      ModSmall(idx, |groups|);
      NamesAfter(groups, idx);
      assert NamesOf(groups)[idx..][0] == NamesOf(start)[|chosen|..][0];
      assert NamesOf(groups)[idx..][1..] == NamesOf(start)[|chosen|..][1..];
      hide GroupsAfter, RegionOf;
    }
  }

  method SelectRoundRobin(peers: Registry, ghost eligible: set<string>, start: seq<Group>, limit: nat)
    returns (result: seq<string>)
    requires Dealt(peers, eligible, start, []) && Progress(peers, eligible, start, [], 0)
    ensures Chosen(peers, eligible, limit, result)
    ensures forall k :: 0 <= k < |result| && k < |start| ==>
      result[k] in peers && RegionOf(peers, result[k]) == start[k].region
  {
    assert InTurn(peers, start, start, [], 0);
    hide Dealt, Progress, RegionOf, Chosen, InTurn;
    DealtGrouped(peers, eligible, start, []);
    result := [];
    var regions, idx := start, 0;
    while |result| < limit && regions != []
      invariant eligible <= peers.Keys && forall p :: p in result ==> p in peers
      invariant Dealt(peers, eligible, regions, result) && |result| <= limit
      invariant Progress(peers, eligible, regions, result, idx)
      invariant InTurn(peers, start, regions, result, idx)
      decreases limit - |result|
    {
      var at := idx % |regions|;
      TakeDealt(peers, eligible, regions, result, at);
      var members := regions[at].members;
      var peer := members[|members| - 1];
      assert Grouped(peers, regions) by { DealtGrouped(peers, eligible, regions, result); }
      TakeProgress(peers, eligible, regions, result, idx, peer);
      TakeInTurn(peers, start, regions, result, idx, peer);
      result := result + [peer];
      var rest := members[..|members| - 1];
      if rest == [] {
        regions := regions[..at] + regions[at + 1..];
      } else {
        regions := regions[at := regions[at].(members := rest)];
        idx := idx + 1;
      }
    }
    SelectionDone(peers, eligible, regions, result, idx, limit);
    TurnsTaken(peers, start, regions, result, idx);
  }

  lemma TurnsTaken(peers: Registry, start: seq<Group>, groups: seq<Group>, chosen: seq<string>, idx: nat)
    requires InTurn(peers, start, groups, chosen, idx)
    ensures forall k :: 0 <= k < |chosen| && k < |start| ==>
      chosen[k] in peers && RegionOf(peers, chosen[k]) == start[k].region
  {
  }

  lemma DealtGrouped(peers: Registry, eligible: set<string>, groups: seq<Group>, chosen: seq<string>)
    requires Dealt(peers, eligible, groups, chosen)
    ensures eligible <= peers.Keys && Grouped(peers, groups)
  {
  }

  /** The selection: distinct eligible peers, as many as asked for and available, from as many regions as possible. */
  ghost predicate Chosen(peers: Registry, eligible: set<string>, limit: nat, result: seq<string>)
    requires eligible <= peers.Keys
  {
    && (forall p :: p in result ==> p in eligible)
    && (forall i, j :: 0 <= i < j < |result| ==> result[i] != result[j])
    && |result| == (if limit <= |eligible| then limit else |eligible|)
    && var regions := |RegionsOf(peers, eligible)|;
       |Represented(peers, result)| == if limit <= regions then limit else regions
  }

  lemma {:induction false} RepresentedSize(peers: Registry, chosen: seq<string>)
    requires forall p :: p in chosen ==> p in peers
    ensures |Represented(peers, chosen)| <= |chosen|
  {
    if chosen != [] {
      var init, last := chosen[..|chosen| - 1], chosen[|chosen| - 1];
      assert chosen == init + [last];
      RepresentedSize(peers, init);
      RepresentedGrows(peers, init, last);
    }
  }

  lemma SelectionDone(peers: Registry, eligible: set<string>, groups: seq<Group>, result: seq<string>, idx: nat,
                      limit: nat)
    requires Dealt(peers, eligible, groups, result) && (forall p :: p in result ==> p in peers)
    requires Progress(peers, eligible, groups, result, idx) && |result| <= limit
    requires |result| == limit || groups == []
    ensures Chosen(peers, eligible, limit, result)
  {
    ChosenEligible(peers, eligible, groups, result);
    DealtSize(peers, eligible, groups, result);
    RepresentedSize(peers, result);
    var all, rep := RegionsOf(peers, eligible), Represented(peers, result);
    if groups == [] {
      forall r | r in all ensures r in rep {
        if rep != all {
          RoundLasts(groups, all, rep, |result|, idx);
        }
      }
    }
    if rep <= all {
      SubsetSize(rep, all);
    }
  }

  // ----- grouping

  lemma {:induction false} InBag(groups: seq<Group>, p: string) returns (k: nat)
    requires p in Bag(groups)
    ensures k < |groups| && p in groups[k].members
  {
    if p in groups[0].members {
      k := 0;
    } else {
      assert p in Bag(groups[1..]);
      k := InBag(groups[1..], p);
      k := k + 1;
    }
  }

  lemma StartProgress(peers: Registry, eligible: set<string>, groups: seq<Group>)
    requires Dealt(peers, eligible, groups, [])
    ensures Progress(peers, eligible, groups, [], 0)
  {
    assert Represented(peers, []) == {};
    forall r | r in RegionsOf(peers, eligible) ensures exists k :: 0 <= k < |groups| && groups[k].region == r {
      var p :| p in eligible && RegionOf(peers, p) == r;
      assert p in multiset(eligible) && p in Bag(groups);
      var k := InBag(groups, p);
      assert groups[k].region == r;
    }
  }

  ghost function InRegion(peers: Registry, ps: set<string>, r: string): set<string>
    requires ps <= peers.Keys
  {
    set p | p in ps && RegionOf(peers, p) == r
  }

  /** The map holds every peer of `ps` once, under its region, and no empty list. */
  ghost predicate ByRegion(peers: Registry, ps: set<string>, byRegion: map<string, seq<string>>)
    requires ps <= peers.Keys
  {
    && (forall r :: r in byRegion ==>
         byRegion[r] != [] && multiset(byRegion[r]) == multiset(InRegion(peers, ps, r)))
    && (forall p :: p in ps ==> RegionOf(peers, p) in byRegion)
  }

  lemma NobodyGrouped(peers: Registry)
    ensures ByRegion(peers, {}, map[])
  {
  }

  lemma PeerGrouped(peers: Registry, ps: set<string>, byRegion: map<string, seq<string>>, p: string,
                    members: seq<string>)
    requires ps <= peers.Keys && p in peers && p !in ps && ByRegion(peers, ps, byRegion)
    requires multiset(members) == multiset(InRegion(peers, ps, RegionOf(peers, p)))
    ensures ByRegion(peers, ps + {p}, byRegion[RegionOf(peers, p) := members + [p]])
  {
  }

  lemma NoMembers(peers: Registry, ps: set<string>, byRegion: map<string, seq<string>>, r: string)
    requires ps <= peers.Keys && ByRegion(peers, ps, byRegion)
    ensures multiset(if r in byRegion then byRegion[r] else []) == multiset(InRegion(peers, ps, r))
  {
  }

  method GroupByRegion(peers: Registry, exclude: Option<string>) returns (byRegion: map<string, seq<string>>)
    ensures ByRegion(peers, Eligible(peers, exclude), byRegion)
  {
    hide InRegion, ByRegion;
    NobodyGrouped(peers);
    byRegion := map[];
    var remaining := peers.Keys;
    ghost var done: set<string> := {};
    while remaining != {}
      invariant remaining <= peers.Keys && done == Eligible(peers, exclude) - remaining
      invariant done <= peers.Keys && ByRegion(peers, done, byRegion)
      decreases |remaining|
    {
      var p :| p in remaining;
      var region := RegionOf(peers, p);
      if exclude != Some(region) {
        var members := if region in byRegion then byRegion[region] else [];
        NoMembers(peers, done, byRegion, region);
        PeerGrouped(peers, done, byRegion, p, members);
        byRegion := byRegion[region := members + [p]];
        done := done + {p};
      }
      remaining := remaining - {p};
    }
    assert done == Eligible(peers, exclude);
  }

  ghost function InRegions(peers: Registry, ps: set<string>, rs: set<string>): set<string>
    requires ps <= peers.Keys
  {
    set p | p in ps && RegionOf(peers, p) in rs
  }

  lemma AppendGroup(peers: Registry, eligible: set<string>, groups: seq<Group>, done: set<string>, g: Group)
    requires eligible <= peers.Keys && Grouped(peers, groups) && g.members != []
    requires Bag(groups) == multiset(InRegions(peers, eligible, done))
    requires multiset(g.members) == multiset(InRegion(peers, eligible, g.region)) && g.region !in done
    requires forall i :: 0 <= i < |groups| ==> groups[i].region in done
    ensures Grouped(peers, groups + [g])
    ensures Bag(groups + [g]) == multiset(InRegions(peers, eligible, done + {g.region}))
  {
    hide InRegions, Bag, Grouped;
    forall p | p in g.members ensures p in peers && RegionOf(peers, p) == g.region {
      assert p in multiset(g.members);
      assert p in multiset(InRegion(peers, eligible, g.region));
    }
    assert groups[..|groups|] + [g] + groups[|groups|..] == groups + [g];
    InsertGroup(peers, groups, |groups|, g, groups + [g]);
    BagInsert(groups, |groups|, g);
    RegionsGrow(peers, eligible, done, g.region);
  }

  lemma RegionsGrow(peers: Registry, eligible: set<string>, done: set<string>, r: string)
    requires eligible <= peers.Keys && r !in done
    ensures multiset(InRegions(peers, eligible, done + {r}))
         == multiset(InRegions(peers, eligible, done)) + multiset(InRegion(peers, eligible, r))
  {
  }

  /** Strictly in name order. */
  ghost predicate InNameOrder(groups: seq<Group>) {
    forall i, j :: 0 <= i < j < |groups| ==>
      LexLe(groups[i].region, groups[j].region) && groups[i].region != groups[j].region
  }

  lemma RegionOrder()
    ensures TotalPreorder(BY_REGION)
  {
    forall a, b ensures BY_REGION(a, b) || BY_REGION(b, a) {
      LexTotal(a.region, b.region);
    }
    forall a, b, c | BY_REGION(a, b) && BY_REGION(b, c) ensures BY_REGION(a, c) {
      LexTransitive(a.region, b.region, c.region);
    }
  }

  lemma SortedInOrder(peers: Registry, groups: seq<Group>)
    requires Grouped(peers, Sort(BY_REGION, groups))
    ensures InNameOrder(Sort(BY_REGION, groups))
  {
    RegionOrder();
    SortSorted(BY_REGION, groups);
    hide Sort, RegionOf, LexLe;
    var sorted := Sort(BY_REGION, groups);
    forall i, j | 0 <= i < j < |sorted|
      ensures LexLe(sorted[i].region, sorted[j].region) && sorted[i].region != sorted[j].region
    {
      assert BY_REGION(sorted[i], sorted[j]);
    }
  }

  lemma RegionMembers(peers: Registry, eligible: set<string>, byRegion: map<string, seq<string>>, r: string)
    requires eligible <= peers.Keys && ByRegion(peers, eligible, byRegion) && r in byRegion
    ensures byRegion[r] != [] && multiset(byRegion[r]) == multiset(InRegion(peers, eligible, r))
  {
  }

  lemma EveryRegion(peers: Registry, eligible: set<string>, byRegion: map<string, seq<string>>)
    requires eligible <= peers.Keys && ByRegion(peers, eligible, byRegion)
    ensures forall p :: p in eligible ==> RegionOf(peers, p) in byRegion
  {
  }

  /** The entries of the map in name order. */
  method SortedRegions(peers: Registry, ghost eligible: set<string>, byRegion: map<string, seq<string>>)
    returns (regions: seq<Group>)
    requires eligible <= peers.Keys && ByRegion(peers, eligible, byRegion)
    ensures Grouped(peers, regions) && Bag(regions) == multiset(eligible)
    ensures InNameOrder(regions)
  {
    hide *;
    var groups: seq<Group> := [];
    var remaining := byRegion.Keys;
    ghost var done: set<string> := {};
    NoGroups(peers, eligible);
    while remaining != {}
      invariant remaining + done == byRegion.Keys && remaining !! done
      invariant Grouped(peers, groups) && Bag(groups) == multiset(InRegions(peers, eligible, done))
      invariant forall i :: 0 <= i < |groups| ==> groups[i].region in done
      decreases |remaining|
    {
      var r :| r in remaining;
      RegionMembers(peers, eligible, byRegion, r);
      AppendGroup(peers, eligible, groups, done, Group(r, byRegion[r]));
      groups := groups + [Group(r, byRegion[r])];
      remaining, done := remaining - {r}, done + {r};
    }
    EveryRegion(peers, eligible, byRegion);
    AllRegions(peers, eligible, done);
    SortGroups(peers, groups);
    SortedInOrder(peers, groups);
    regions := Sort(BY_REGION, groups);
  }

  /** A peer is eligible unless its region is the excluded one; peers that announce no region are in "unknown". */
  lemma EligibleExactly(peers: Registry, exclude: Option<string>, p: string)
    ensures p in Eligible(peers, exclude) <==>
      p in peers && (exclude.None? || if peers[p].None? then exclude.value != "unknown" else peers[p] != exclude)
  {
  }

  /** The names list the regions of the eligible peers in order. */
  ghost predicate RegionNames(peers: Registry, eligible: set<string>, names: seq<string>)
    requires eligible <= peers.Keys
  {
    && (forall i, j :: 0 <= i < j < |names| ==> LexLe(names[i], names[j]) && names[i] != names[j])
    && (forall r :: r in names <==> r in RegionsOf(peers, eligible))
  }

  /** The first picks come from the first regions in name order, one from each. */
  ghost predicate FirstInNameOrder(peers: Registry, names: seq<string>, result: seq<string>) {
    forall k :: 0 <= k < |result| && k < |names| ==> result[k] in peers && RegionOf(peers, result[k]) == names[k]
  }

  lemma GroupNames(peers: Registry, eligible: set<string>, groups: seq<Group>)
    requires eligible <= peers.Keys && Grouped(peers, groups) && Bag(groups) == multiset(eligible)
    requires InNameOrder(groups)
    ensures RegionNames(peers, eligible, NamesOf(groups))
  {
    var names := NamesOf(groups);
    forall r ensures r in names <==> r in RegionsOf(peers, eligible) {
      if r in names {
        var k :| 0 <= k < |groups| && groups[k].region == r;
        assert OneRegion(peers, groups[k]);
        var p := groups[k].members[0];
        BagAt(groups, k);
        assert p in multiset(groups[k].members) && p in Bag(groups) && p in eligible;
      }
      if r in RegionsOf(peers, eligible) {
        var p :| p in eligible && RegionOf(peers, p) == r;
        assert p in multiset(eligible) && p in Bag(groups);
        var k := InBag(groups, p);
        assert OneRegion(peers, groups[k]) && names[k] == r;
      }
    }
  }

  /** Distinct peers outside the excluded region, taken in turn from the regions in name order. */
  method GetDiversePeers(peers: Registry, exclude: Option<string>, limit: nat) returns (result: seq<string>)
    ensures Chosen(peers, Eligible(peers, exclude), limit, result)
    ensures exists names :: RegionNames(peers, Eligible(peers, exclude), names)
                            && FirstInNameOrder(peers, names, result)
  {
    hide Bag, Grouped, Chosen, ByRegion;
    ghost var eligible := Eligible(peers, exclude);
    var byRegion := GroupByRegion(peers, exclude);
    var regions := SortedRegions(peers, eligible, byRegion);
    assert multiset([]) + Bag(regions) == multiset(eligible);
    StartProgress(peers, eligible, regions);
    result := SelectRoundRobin(peers, eligible, regions, limit);
    GroupNames(peers, eligible, regions);
    assert FirstInNameOrder(peers, NamesOf(regions), result);
  }

  lemma NoGroups(peers: Registry, eligible: set<string>)
    requires eligible <= peers.Keys
    ensures Grouped(peers, []) && Bag([]) == multiset(InRegions(peers, eligible, {}))
  {
  }

  lemma AllRegions(peers: Registry, eligible: set<string>, done: set<string>)
    requires eligible <= peers.Keys && forall p :: p in eligible ==> RegionOf(peers, p) in done
    ensures InRegions(peers, eligible, done) == eligible
  {
  }
}
