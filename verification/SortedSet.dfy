/** Windows of lists and sorted sets with negative indices, members ordered by score, and filters by score
    (src/storage.rs, src/filters.rs). */
module SortedSet {
  import opened Sequences
  import opened Words

  datatype Entry = Entry(member: string, score: real)

  /** The members of an ordered map, as it iterates: strictly by member. */
  ghost predicate Ascending(members: seq<Entry>) {
    forall i, j :: 0 <= i < j < |members| ==> Less(members[i].member, members[j].member)
  }

  predicate Less(a: string, b: string) { LexLe(a, b) && a != b }

  const BY_SCORE: (Entry, Entry) -> bool := (a: Entry, b: Entry) => a.score <= b.score

  function InScores(min: real, max: real): Entry -> bool { (e: Entry) => min <= e.score <= max }

  /** Ordered insertion into the map, replacing the score of a present member. */
  function Put(members: seq<Entry>, e: Entry): seq<Entry> {
    if members == [] then [e]
    else if members[0].member == e.member then [e] + members[1..]
    else if LexLe(e.member, members[0].member) then [e] + members
    else [members[0]] + Put(members[1..], e)
  }

  // ----- windows

  datatype Window = Panics | Slice(lo: nat, hi: nat)

  /** The bounds as computed: negative indices count from the end, and the upper one is inclusive. The increment of
      the largest index overflows, which panics at once or when the wrapped bound is used to slice. */
  function WindowOf(len: nat, start: int, stop: int): Window {
    var lo := if start < 0 then (if len + start > 0 then len + start else 0) else if start < len then start else len;
    if stop == ISIZE_MAX then Panics
    else
      var hi := if stop < 0 then (if len + stop + 1 > 0 then len + stop + 1 else 0)
                else if stop + 1 < len then stop + 1 else len;
      if lo >= hi then Slice(lo, lo) else Slice(lo, hi)
  }

  /** The position that an index names. */
  function Resolve(len: nat, index: int): int { if index < 0 then len + index else index }

  /** A window is always in bounds, and holds exactly the positions between the two that its indices name; it panics
      exactly for the largest upper index. */
  lemma WindowExact(len: nat, start: int, stop: int, i: nat)
    requires stop <= ISIZE_MAX && i < len
    ensures WindowOf(len, start, stop).Panics? <==> stop == ISIZE_MAX
    ensures WindowOf(len, start, stop).Slice? ==>
      var w := WindowOf(len, start, stop);
      w.lo <= w.hi <= len && (w.lo <= i < w.hi <==> Resolve(len, start) <= i <= Resolve(len, stop))
  {
  }

  datatype Answer<T> = Panic | Entries(entries: seq<T>)

  /** The window of a sequence, which is what `get_list` returns. */
  function Take<T>(s: seq<T>, start: int, stop: int): Answer<T> {
    match WindowOf(|s|, start, stop)
    case Panics => Panic
    case Slice(lo, hi) => Entries(s[lo..hi])
  }

  /** The index of the first and of the last element of a window, cut to the sequence. */
  function Clamp(i: int, len: nat): nat { if i < 0 then 0 else if i > len then len else i }

  /** A window is the contiguous part between the positions that its indices name, however far out they are, and
      empty if they are in the wrong order. */
  lemma TakeExact<T>(s: seq<T>, start: int, stop: int)
    requires stop < ISIZE_MAX
    ensures var lo, hi := Clamp(Resolve(|s|, start), |s|), Clamp(Resolve(|s|, stop) + 1, |s|);
            Take(s, start, stop) == Entries(if lo <= hi then s[lo..hi] else [])
  {
  }

  /** Neighbouring windows make up the whole. */
  lemma WindowsCompose<T>(s: seq<T>, cut: nat)
    requires cut < ISIZE_MAX
    ensures Take(s, 0, cut).Entries? && Take(s, cut + 1, -1).Entries?
    ensures Take(s, 0, cut).entries + Take(s, cut + 1, -1).entries == s
    ensures Take(s, 0, -1) == Entries(s)
  {
    TakeExact(s, 0, cut);
    TakeExact(s, cut + 1, -1);
    TakeExact(s, 0, -1);
  }

  // ----- queries

  /** The members in the order of their scores. */
  function Ranked(members: seq<Entry>): seq<Entry> { Sort(BY_SCORE, members) }

  /** `get_sorted_set_with_scores`; the other window queries project its result. */
  function GetWindow(members: seq<Entry>, start: int, stop: int): Answer<Entry> {
    Take(Ranked(members), start, stop)
  }

  /** `filter_sorted_set_with_scores`: filter, then sort. */
  function FilterByScore(members: seq<Entry>, min: real, max: real): seq<Entry> {
    Sort(BY_SCORE, Filter(InScores(min, max), members))
  }

  /** `get_entries_by_score`: take the whole window of the members that are JSON, then filter. */
  function EntriesByScore(members: seq<Entry>, isJson: Entry -> bool, min: real, max: real): Answer<Entry> {
    match GetWindow(members, 0, -1)
    case Panic => Panic
    case Entries(all) => Entries(Filter(InScores(min, max), Filter(isJson, all)))
  }

  // ----- what the queries return

  lemma LessTransitive(a: string, b: string, c: string)
    requires Less(a, b) && Less(b, c)
    ensures Less(a, c)
  {
    LexTransitive(a, b, c);
    LexTotal(a, b);
    if a == c {
      LexTotal(b, c);
    }
  }

  /** Putting a member replaces its old score and touches no other member. */
  lemma {:induction false} PutContent(members: seq<Entry>, e: Entry, x: Entry)
    requires Ascending(members)
    ensures x in Put(members, e) <==> x == e || (x in members && x.member != e.member)
  {
    if members != [] {
      var first, rest := members[0], members[1..];
      assert forall i :: 0 <= i < |rest| ==> rest[i] == members[i + 1];
      assert x in members <==> x == first || x in rest;
      assert x in rest ==> Less(first.member, x.member);
      if first.member != e.member {
        if LexLe(e.member, first.member) {
          if x in rest && x.member == e.member {
            LexTotal(e.member, first.member);
          }
        } else {
          PutContent(rest, e, x);
        }
      }
    }
  }

  lemma {:induction false} PutAscending(members: seq<Entry>, e: Entry)
    requires Ascending(members)
    ensures Ascending(Put(members, e))
  {
    if members != [] {
      var first, rest := members[0], members[1..];
      assert forall i :: 0 <= i < |rest| ==> rest[i] == members[i + 1];
      if first.member != e.member {
        if LexLe(e.member, first.member) {
          forall j | 0 <= j < |members| ensures Less(e.member, members[j].member) {
            if j > 0 {
              LessTransitive(e.member, first.member, members[j].member);
            }
          }
        } else {
          PutAscending(rest, e);
          var r := Put(rest, e);
          LexTotal(e.member, first.member);
          forall j | 0 <= j < |r| ensures Less(first.member, r[j].member) {
            PutContent(rest, e, r[j]);
          }
        }
      }
    }
  }

  function WithScore(score: real): Entry -> bool { (e: Entry) => e.score == score }

  /** One total order: by score, and members of equal score in member order. */
  lemma RankedOrder(members: seq<Entry>, i: nat, j: nat)
    requires Ascending(members) && i < j < |Ranked(members)|
    ensures var a, b := Ranked(members)[i], Ranked(members)[j];
            a.score < b.score || (a.score == b.score && Less(a.member, b.member))
  {
    SortSorted(BY_SCORE, members);
    var a, b := Ranked(members)[i], Ranked(members)[j];
    assert BY_SCORE(a, b);
    if a.score == b.score {
      var same := Filter(WithScore(a.score), members);
      FilterCommutesWithSort(WithScore(a.score), BY_SCORE, members);
      forall k | 0 <= k < |same| ensures same[k].score == a.score {
        FilterMembers(WithScore(a.score), members, same[k]);
      }
      SortOfSorted(BY_SCORE, same);
      var x, y := FilterPair(WithScore(a.score), Ranked(members), i, j);
      assert Ascending(same) by { FilterAscending(WithScore(a.score), members); }
    }
  }

  lemma {:induction false} FilterAscending(p: Entry -> bool, members: seq<Entry>)
    requires Ascending(members)
    ensures Ascending(Filter(p, members))
  {
    if members != [] {
      var rest := members[1..];
      assert forall i :: 0 <= i < |rest| ==> rest[i] == members[i + 1];
      FilterAscending(p, rest);
      var f := Filter(p, rest);
      forall k | 0 <= k < |f| ensures Less(members[0].member, f[k].member) {
        FilterMembers(p, rest, f[k]);
      }
    }
  }

  /** A window query returns the contiguous part of the ranking between the positions its indices name. */
  lemma WindowQuery(members: seq<Entry>, start: int, stop: int, i: nat)
    requires stop < ISIZE_MAX && i < |members|
    ensures |Ranked(members)| == |members| && GetWindow(members, start, stop).Entries?
    ensures var w := WindowOf(|members|, start, stop);
            var entries := GetWindow(members, start, stop).entries;
            |entries| == w.hi - w.lo
            && (w.lo <= i < w.hi <==> Resolve(|members|, start) <= i <= Resolve(|members|, stop))
            && (w.lo <= i < w.hi ==> entries[i - w.lo] == Ranked(members)[i])
  {
    SortSize(BY_SCORE, members);
    WindowExact(|members|, start, stop, i);
  }

  /** Filtering by score finds, as often as the set has them, exactly the entries with a score in the closed range, in
      the order of the scores. */
  lemma FilterExact(members: seq<Entry>, min: real, max: real, e: Entry)
    ensures var found := FilterByScore(members, min, max);
            && multiset(found)[e] == (if min <= e.score <= max then multiset(members)[e] else 0)
            && forall i, j :: 0 <= i < j < |found| ==> found[i].score <= found[j].score
  {
    var kept := Filter(InScores(min, max), members);
    SortContent(BY_SCORE, kept);
    FilterMultiset(InScores(min, max), members, e);
    SortSorted(BY_SCORE, kept);
    var found := FilterByScore(members, min, max);
    forall i, j | 0 <= i < j < |found| ensures found[i].score <= found[j].score {
      assert BY_SCORE(found[i], found[j]);
    }
  }

  /** Filtering by score and then sorting gives the same sequence as taking the whole window and then filtering, up to
      the members that the latter drops because they are not JSON. */
  lemma QueriesCommute(members: seq<Entry>, isJson: Entry -> bool, min: real, max: real)
    ensures EntriesByScore(members, isJson, min, max) == Entries(Filter(isJson, FilterByScore(members, min, max)))
  {
    SortSize(BY_SCORE, members);
    var ranked := Ranked(members);
    assert ranked[0..|ranked|] == ranked;
    FilterCommutesWithSort(InScores(min, max), BY_SCORE, members);
    FiltersCommute(InScores(min, max), isJson, ranked);
  }

  lemma {:induction false} FiltersCommute<T>(p: T -> bool, q: T -> bool, s: seq<T>)
    ensures Filter(p, Filter(q, s)) == Filter(q, Filter(p, s))
  {
    if s != [] {
      FiltersCommute(p, q, s[1..]);
      FilterCons(p, s[0], Filter(q, s[1..]));
      FilterCons(q, s[0], Filter(p, s[1..]));
    }
  }
}
