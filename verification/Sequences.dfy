/** Sequence vocabulary shared by the models: filtering, and the stable sort behind Rust's
    `sort_by` and `sort_by_key`, specified by order, content and stability. */
module Sequences {

  /** The elements of `s` that satisfy `p`, in order. */
  function Filter<T>(p: T -> bool, s: seq<T>): (r: seq<T>)
    ensures |r| <= |s|
  {
    if s == [] then []
    else if p(s[0]) then [s[0]] + Filter(p, s[1..])
    else Filter(p, s[1..])
  }

  lemma {:induction false} FilterMembers<T>(p: T -> bool, s: seq<T>, x: T)
    ensures x in Filter(p, s) <==> x in s && p(x)
  {
    if s != [] {
      FilterMembers(p, s[1..], x);
      assert x in s <==> x == s[0] || x in s[1..];
    }
  }

  lemma {:induction false} FilterConcat<T>(p: T -> bool, a: seq<T>, b: seq<T>)
    ensures Filter(p, a + b) == Filter(p, a) + Filter(p, b)
  {
    if a == [] {
      assert a + b == b;
    } else {
      assert (a + b)[1..] == a[1..] + b;
      FilterConcat(p, a[1..], b);
    }
  }

  lemma FilterLast<T>(p: T -> bool, s: seq<T>, x: T)
    ensures Filter(p, s + [x]) == if p(x) then Filter(p, s) + [x] else Filter(p, s)
  {
    FilterConcat(p, s, [x]);
  }

  lemma FilterCons<T>(p: T -> bool, x: T, s: seq<T>)
    ensures Filter(p, [x] + s) == if p(x) then [x] + Filter(p, s) else Filter(p, s)
  {
  }

  lemma {:induction false} FilterAll<T>(p: T -> bool, s: seq<T>)
    requires forall i :: 0 <= i < |s| ==> p(s[i])
    ensures Filter(p, s) == s
  {
    if s != [] {
      FilterAll(p, s[1..]);
    }
  }

  lemma {:induction false} FilterNone<T>(p: T -> bool, s: seq<T>)
    requires forall i :: 0 <= i < |s| ==> !p(s[i])
    ensures Filter(p, s) == []
  {
    if s != [] {
      FilterNone(p, s[1..]);
    }
  }

  lemma {:induction false} FilterFilter<T>(p: T -> bool, q: T -> bool, s: seq<T>)
    requires forall i :: 0 <= i < |s| && p(s[i]) ==> q(s[i])
    ensures Filter(p, Filter(q, s)) == Filter(p, s)
  {
    if s != [] {
      FilterFilter(p, q, s[1..]);
      FilterConcat(p, if q(s[0]) then [s[0]] else [], Filter(q, s[1..]));
    }
  }

  lemma {:induction false} FilterMultiset<T>(p: T -> bool, s: seq<T>, x: T)
    ensures multiset(Filter(p, s))[x] == if p(x) then multiset(s)[x] else 0
  {
    if s != [] {
      assert s == [s[0]] + s[1..];
      FilterMultiset(p, s[1..], x);
    }
  }

  /** Selected elements keep their order. */
  lemma {:induction false} FilterPair<T>(p: T -> bool, s: seq<T>, i: nat, j: nat) returns (a: nat, b: nat)
    requires i < j < |s| && p(s[i]) && p(s[j])
    ensures a < b < |Filter(p, s)| && Filter(p, s)[a] == s[i] && Filter(p, s)[b] == s[j]
  {
    assert s == s[..j] + s[j..] && s[..j] == s[..i] + s[i..j];
    FilterConcat(p, s[..j], s[j..]);
    FilterConcat(p, s[..i], s[i..j]);
    a, b := |Filter(p, s[..i])|, |Filter(p, s[..j])|;
  }

  /** `le` compares any two elements and is transitive; ties between different elements are allowed. */
  ghost predicate TotalPreorder<T(!new)>(le: (T, T) -> bool) {
    && (forall x, y :: le(x, y) || le(y, x))
    && (forall x, y, z :: le(x, y) && le(y, z) ==> le(x, z))
  }

  ghost predicate SortedBy<T>(le: (T, T) -> bool, s: seq<T>) {
    forall i, j :: 0 <= i < j < |s| ==> le(s[i], s[j])
  }

  lemma {:induction false} FilterSorted<T>(p: T -> bool, le: (T, T) -> bool, s: seq<T>)
    requires SortedBy(le, s)
    ensures SortedBy(le, Filter(p, s))
  {
    if s != [] {
      FilterSorted(p, le, s[1..]);
      var f := Filter(p, s[1..]);
      forall i | 0 <= i < |f| ensures le(s[0], f[i]) {
        FilterMembers(p, s[1..], f[i]);
      }
    }
  }

  /** Places `x` before the first element it may precede. */
  function Insert<T>(le: (T, T) -> bool, x: T, s: seq<T>): seq<T> {
    if s == [] then [x]
    else if le(x, s[0]) then [x] + s
    else [s[0]] + Insert(le, x, s[1..])
  }

  /** Stable sort: equal elements keep their order, because the earlier one is inserted later and in front. */
  function Sort<T>(le: (T, T) -> bool, s: seq<T>): seq<T> {
    if s == [] then [] else Insert(le, s[0], Sort(le, s[1..]))
  }

  lemma {:induction false} InsertContent<T>(le: (T, T) -> bool, x: T, s: seq<T>)
    ensures multiset(Insert(le, x, s)) == multiset(s) + multiset{x}
  {
    if s != [] {
      assert s == [s[0]] + s[1..];
      InsertContent(le, x, s[1..]);
    }
  }

  lemma {:induction false} SortContent<T>(le: (T, T) -> bool, s: seq<T>)
    ensures multiset(Sort(le, s)) == multiset(s)
  {
    if s != [] {
      assert s == [s[0]] + s[1..];
      SortContent(le, s[1..]);
      InsertContent(le, s[0], Sort(le, s[1..]));
    }
  }

  lemma SortSize<T>(le: (T, T) -> bool, s: seq<T>)
    ensures |Sort(le, s)| == |s|
  {
    SortContent(le, s);
    assert |multiset(Sort(le, s))| == |multiset(s)|;
  }

  lemma SameContent<T>(a: seq<T>, b: seq<T>, x: T)
    requires multiset(a) == multiset(b)
    ensures x in a <==> x in b
    ensures |a| == |b|
  {
    assert x in a <==> x in multiset(a);
    assert x in b <==> x in multiset(b);
    assert |multiset(a)| == |a| && |multiset(b)| == |b|;
  }

  /** `le` orders the elements of `s`, whatever it does elsewhere. */
  ghost predicate PreorderOn<T>(le: (T, T) -> bool, s: seq<T>) {
    && (forall x, y :: x in s && y in s ==> le(x, y) || le(y, x))
    && (forall x, y, z :: x in s && y in s && z in s && le(x, y) && le(y, z) ==> le(x, z))
  }

  /** Once `x` may precede an element of `s`, it may precede all later ones. */
  ghost predicate Upward<T>(le: (T, T) -> bool, x: T, s: seq<T>) {
    forall i, j :: 0 <= i < j < |s| && le(x, s[i]) ==> le(x, s[j])
  }

  lemma {:induction false} InsertSorted<T>(le: (T, T) -> bool, x: T, s: seq<T>)
    requires SortedBy(le, s) && Upward(le, x, s) && forall i :: 0 <= i < |s| ==> le(x, s[i]) || le(s[i], x)
    ensures SortedBy(le, Insert(le, x, s))
  {
    if s != [] && !le(x, s[0]) {
      var rest := s[1..];
      InsertSorted(le, x, rest);
      var r := Insert(le, x, rest);
      forall j | 0 <= j < |r| ensures le(s[0], r[j]) {
        InsertContent(le, x, rest);
        assert multiset(r) == multiset(rest + [x]);
        SameContent(r, rest + [x], r[j]);
      }
    }
  }

  lemma {:induction false} SortSortedOn<T>(le: (T, T) -> bool, s: seq<T>)
    requires PreorderOn(le, s)
    ensures SortedBy(le, Sort(le, s))
  {
    if s != [] {
      var rest := Sort(le, s[1..]);
      SortSortedOn(le, s[1..]);
      forall i | 0 <= i < |rest| ensures rest[i] in s {
        SortContent(le, s[1..]);
        SameContent(rest, s[1..], rest[i]);
      }
      InsertSorted(le, s[0], rest);
    }
  }

  lemma SortSorted<T(!new)>(le: (T, T) -> bool, s: seq<T>)
    requires TotalPreorder(le)
    ensures SortedBy(le, Sort(le, s))
  {
    SortSortedOn(le, s);
  }

  /** Sorting an already sorted sequence changes nothing. */
  lemma {:induction false} SortOfSorted<T>(le: (T, T) -> bool, s: seq<T>)
    requires SortedBy(le, s)
    ensures Sort(le, s) == s
  {
    if s != [] {
      SortOfSorted(le, s[1..]);
      assert |s| > 1 ==> le(s[0], s[1]);
    }
  }

  lemma InsertFront<T>(le: (T, T) -> bool, x: T, s: seq<T>)
    requires forall i :: 0 <= i < |s| ==> le(x, s[i])
    ensures Insert(le, x, s) == [x] + s
  {
  }

  lemma {:induction false} FilterInsert<T>(p: T -> bool, le: (T, T) -> bool, x: T, s: seq<T>)
    requires Upward(le, x, s)
    ensures Filter(p, Insert(le, x, s)) == if p(x) then Insert(le, x, Filter(p, s)) else Filter(p, s)
  {
    if s == [] {
    } else if le(x, s[0]) {
      var f := Filter(p, s);
      FilterCons(p, x, s);
      forall i | 0 <= i < |f| ensures le(x, f[i]) {
        FilterMembers(p, s, f[i]);
      }
      InsertFront(le, x, f);
    } else {
      FilterInsert(p, le, x, s[1..]);
      FilterCons(p, s[0], Insert(le, x, s[1..]));
      if p(s[0]) {
        assert Filter(p, s)[1..] == Filter(p, s[1..]);
      }
    }
  }

  lemma SortCons<T>(le: (T, T) -> bool, x: T, s: seq<T>)
    ensures Sort(le, [x] + s) == Insert(le, x, Sort(le, s))
  {
  }

  lemma FilterSortStep<T>(p: T -> bool, le: (T, T) -> bool, x: T, s: seq<T>)
    requires Upward(le, x, Sort(le, s))
    requires Filter(p, Sort(le, s)) == Sort(le, Filter(p, s))
    ensures Filter(p, Sort(le, [x] + s)) == Sort(le, Filter(p, [x] + s))
  {
    SortCons(le, x, s);
    FilterCons(p, x, s);
    FilterInsert(p, le, x, Sort(le, s));
    SortCons(le, x, Filter(p, s));
  }

  /** Stability, as a law: selecting commutes with sorting, whatever is selected. */
  lemma {:induction false} FilterCommutesWithSort<T(!new)>(p: T -> bool, le: (T, T) -> bool, s: seq<T>)
    requires TotalPreorder(le)
    ensures Filter(p, Sort(le, s)) == Sort(le, Filter(p, s))
  {
    if s != [] {
      FilterCommutesWithSort(p, le, s[1..]);
      assert Upward(le, s[0], Sort(le, s[1..])) by { SortSorted(le, s[1..]); }
      FilterSortStep(p, le, s[0], s[1..]);
      assert [s[0]] + s[1..] == s;
    }
  }

  ghost predicate Distinct<T>(s: seq<T>) {
    forall i, j :: 0 <= i < j < |s| ==> s[i] != s[j]
  }

  lemma TwiceCounted<T>(s: seq<T>, i: nat, j: nat)
    requires i < j < |s| && s[i] == s[j]
    ensures multiset(s)[s[i]] >= 2
  {
    assert s == s[..j] + [s[j]] + s[j + 1..];
    assert s[i] in s[..j];
    assert multiset(s[..j])[s[i]] >= 1;
  }

  lemma {:induction false} DistinctCounts<T>(s: seq<T>, x: T)
    requires Distinct(s)
    ensures multiset(s)[x] <= 1
  {
    if s != [] {
      DistinctCounts(s[1..], x);
      assert s == [s[0]] + s[1..];
      assert x == s[0] ==> x !in s[1..];
    }
  }

  lemma SortDistinct<T>(le: (T, T) -> bool, s: seq<T>)
    requires Distinct(s)
    ensures Distinct(Sort(le, s))
  {
    var r := Sort(le, s);
    SortContent(le, s);
    forall i, j | 0 <= i < j < |r| ensures r[i] != r[j] {
      DistinctCounts(s, r[i]);
      if r[i] == r[j] {
        TwiceCounted(r, i, j);
      }
    }
  }

  lemma {:induction false} InsertSplit<T>(le: (T, T) -> bool, x: T, s: seq<T>) returns (k: nat)
    ensures k <= |s| && Insert(le, x, s) == s[..k] + [x] + s[k..]
  {
    k := 0;
    if s != [] && !le(x, s[0]) {
      k := InsertSplit(le, x, s[1..]);
      k := k + 1;
    }
  }

  /** The order of strings. */
  predicate LexLe(a: string, b: string) {
    a == [] || (b != [] && (a[0] < b[0] || (a[0] == b[0] && LexLe(a[1..], b[1..]))))
  }

  /** The strings agree up to `k`, and there the first has the smaller character. */
  predicate DecidedAt(a: string, b: string, k: nat) {
    k < |a| && k < |b| && a[..k] == b[..k] && a[k] < b[k]
  }

  lemma DecidedAtFirst(a: string, b: string, k: nat)
    requires a != [] && b != [] && a[0] != b[0]
    ensures DecidedAt(a, b, k) <==> k == 0 && a[0] < b[0]
  {
    if 0 < k < |a| && k < |b| {
      assert a[..k][0] == a[0] && b[..k][0] == b[0];
    }
  }

  lemma DecidedLater(a: string, b: string, k: nat)
    requires a != [] && b != [] && a[0] == b[0]
    ensures DecidedAt(a[1..], b[1..], k) <==> DecidedAt(a, b, k + 1)
    ensures !DecidedAt(a, b, 0)
  {
    if k < |a[1..]| && k < |b[1..]| {
      assert a[..k + 1] == [a[0]] + a[1..][..k] && b[..k + 1] == [b[0]] + b[1..][..k];
      assert a[1..][..k] == a[..k + 1][1..] && b[1..][..k] == b[..k + 1][1..];
    }
  }

  /** A string comes before those that it is a prefix of, and otherwise the first different character decides. */
  lemma {:induction false} LexExact(a: string, b: string)
    ensures LexLe(a, b) <==> a <= b || exists k: nat :: DecidedAt(a, b, k)
  {
    if a != [] && b != [] && a[0] == b[0] {
      LexExact(a[1..], b[1..]);
      assert a == [a[0]] + a[1..] && b == [b[0]] + b[1..];
      assert a <= b <==> a[1..] <= b[1..];
      DecidedLater(a, b, 0);
      forall k: nat ensures DecidedAt(a[1..], b[1..], k) <==> DecidedAt(a, b, k + 1) {
        DecidedLater(a, b, k);
      }
      hide DecidedAt;
      if k: nat :| DecidedAt(a, b, k) {
        assert DecidedAt(a[1..], b[1..], k - 1);
      }
      if k: nat :| DecidedAt(a[1..], b[1..], k) {
        assert DecidedAt(a, b, k + 1);
      }
    } else if a != [] && b != [] {
      forall k: nat ensures DecidedAt(a, b, k) <==> k == 0 && a[0] < b[0] {
        DecidedAtFirst(a, b, k);
      }
      assert !(a <= b);
      hide DecidedAt;
      assert DecidedAt(a, b, 0) <==> a[0] < b[0];
    }
  }

  lemma {:induction false} LexTotal(a: string, b: string)
    ensures LexLe(a, b) || LexLe(b, a)
    ensures LexLe(a, b) && LexLe(b, a) ==> a == b
  {
    if a != [] && b != [] && a[0] == b[0] {
      LexTotal(a[1..], b[1..]);
      assert a == [a[0]] + a[1..] && b == [b[0]] + b[1..];
    }
  }

  lemma {:induction false} LexTransitive(a: string, b: string, c: string)
    requires LexLe(a, b) && LexLe(b, c)
    ensures LexLe(a, c)
  {
    if a != [] && a[0] == b[0] == c[0] {
      LexTransitive(a[1..], b[1..], c[1..]);
    }
  }

  lemma Regroup<T>(a: seq<T>, b: seq<T>, c: seq<T>)
    ensures a + b + c == a + (b + c)
  {
  }
}
