/** The secondary index (src/indexing.rs): a map from field values to posting sets that stands for a relation of
    (value, key) pairs. Parsing numbers, lowering case and the capacities of strings are given as functions. */
module Indexing {
  import opened Options
  import opened Sets

  type Pair = (string, string)

  ghost function Relation(data: map<string, set<string>>): (r: set<Pair>)
    ensures forall v, k :: (v, k) in r <==> v in data && k in data[v]
  {
    set v, k | v in data && k in data[v] :: (v, k)
  }

  ghost function PairsOf(v: string, keys: set<string>): set<Pair> {
    set k | k in keys :: (v, k)
  }

  lemma {:induction false} PairsOfSize(v: string, keys: set<string>)
    ensures |PairsOf(v, keys)| == |keys|
    decreases |keys|
  {
    if keys != {} {
      var k :| k in keys;
      PairsOfSize(v, keys - {k});
      assert PairsOf(v, keys) == PairsOf(v, keys - {k}) + {(v, k)};
    } else {
      assert PairsOf(v, keys) == {};
    }
  }

  /** The part of the relation whose values are in `vs`. */
  ghost function Within(data: map<string, set<string>>, vs: set<string>): set<Pair> {
    set p | p in Relation(data) && p.0 in vs
  }

  lemma WithinGrows(data: map<string, set<string>>, vs: set<string>, v: string)
    requires v in data && v !in vs
    ensures |Within(data, vs + {v})| == |Within(data, vs)| + |data[v]|
  {
    PairsOfSize(v, data[v]);
    assert Within(data, vs + {v}) == Within(data, vs) + PairsOf(v, data[v]);
    assert Within(data, vs) !! PairsOf(v, data[v]);
  }

  lemma WithinNone(data: map<string, set<string>>)
    ensures Within(data, {}) == {}
  {
  }

  lemma WithinAll(data: map<string, set<string>>)
    ensures Within(data, data.Keys) == Relation(data)
  {
  }

  datatype Operator =
    | Equals(value: string)
    | GreaterThan(threshold: real)
    | LessThan(threshold: real)
    | Between(min: real, max: real)
    | In(values: seq<string>)
    | Contains(substring: string)
    | StartsWith(prefix: string)

  predicate OccursAt(s: string, t: string, i: nat) {
    i + |s| <= |t| && t[i..i + |s|] == s
  }

  predicate IsSubstring(s: string, t: string) {
    exists i :: 0 <= i <= |t| && OccursAt(s, t, i)
  }

  /** What each operator asks of a field value. */
  predicate Matches(op: Operator, v: string, parse: string -> Option<real>, lower: string -> string) {
    match op
    case Equals(value) => v == value
    case In(values) => v in values
    case GreaterThan(threshold) => parse(v).Some? && parse(v).value > threshold
    case LessThan(threshold) => parse(v).Some? && parse(v).value < threshold
    case Between(min, max) => parse(v).Some? && min <= parse(v).value <= max
    case Contains(substring) => IsSubstring(lower(substring), lower(v))
    case StartsWith(prefix) => lower(prefix) <= lower(v)
  }

  /** Numeric operators look at numbers only: a number is below, at or above a threshold, and between two bounds exactly
      if it is not below the lower or above the upper. */
  lemma NumbersSplit(v: string, low: real, high: real, parse: string -> Option<real>, lower: string -> string)
    ensures parse(v).None? ==>
      !Matches(GreaterThan(low), v, parse, lower) && !Matches(LessThan(low), v, parse, lower)
      && !Matches(Between(low, high), v, parse, lower)
    ensures parse(v).Some? ==>
      var x := parse(v).value;
      && (Matches(LessThan(low), v, parse, lower) <==> x < low)
      && (Matches(GreaterThan(high), v, parse, lower) <==> x > high)
      && (Matches(Between(low, high), v, parse, lower) <==>
            !Matches(LessThan(low), v, parse, lower) && !Matches(GreaterThan(high), v, parse, lower))
      && (Matches(Between(low, low), v, parse, lower) <==> x == low)
  {
  }

  /** Text operators ignore case: `v` contains a text that something may come before and after, and starts with one
      that something may come after; and being in a list is being equal to one of its values. */
  lemma TextsSplit(v: string, t: string, values: seq<string>, parse: string -> Option<real>, lower: string -> string)
    ensures Matches(Contains(t), v, parse, lower) <==> exists before, after :: lower(v) == before + lower(t) + after
    ensures Matches(StartsWith(t), v, parse, lower) <==> exists after :: lower(v) == lower(t) + after
    ensures Matches(In(values), v, parse, lower)
       <==> exists i :: 0 <= i < |values| && Matches(Equals(values[i]), v, parse, lower)
    ensures Matches(Equals(t), v, parse, lower) <==> v == t
  {
    var whole, part := lower(v), lower(t);
    if i :| 0 <= i <= |whole| && OccursAt(part, whole, i) {
      assert whole == whole[..i] + part + whole[i + |part|..];
    }
    if before, after :| whole == before + part + after {
      assert OccursAt(part, whole, |before|);
    }
    if part <= whole {
      assert whole == part + whole[|part|..];
    }
  }

  /** The keys that a scan of the whole relation finds. */
  ghost predicate Found(r: set<Pair>, op: Operator, k: string, parse: string -> Option<real>, lower: string -> string) {
    exists v :: (v, k) in r && Matches(op, v, parse, lower)
  }

  ghost predicate NoneEmpty(data: map<string, set<string>>) {
    forall v :: v in data ==> data[v] != {}
  }

  /** The map after one key has joined the posting set of `v`. */
  ghost function Inserted(data: map<string, set<string>>, v: string, k: string): map<string, set<string>> {
    data[v := (if v in data then data[v] else {}) + {k}]
  }

  lemma InsertedPair(data: map<string, set<string>>, v: string, k: string, p: Pair)
    ensures p in Relation(Inserted(data, v, k)) <==> p in Relation(data) || p == (v, k)
  {
  }

  lemma RelationInserted(data: map<string, set<string>>, v: string, k: string)
    ensures Relation(Inserted(data, v, k)) == Relation(data) + {(v, k)}
    ensures |Relation(Inserted(data, v, k))| <= |Relation(data)| + 1
    ensures NoneEmpty(data) ==> NoneEmpty(Inserted(data, v, k))
  {
    InsertedNotEmpty(data, v, k);
    hide *;
    var r, after := Relation(data), Relation(Inserted(data, v, k));
    forall p ensures p in after <==> p in r || p == (v, k) {
      InsertedPair(data, v, k, p);
    }
    AddOne(r, after, (v, k));
    AddSize(r, (v, k));
  }

  lemma InsertedNotEmpty(data: map<string, set<string>>, v: string, k: string)
    ensures NoneEmpty(data) ==> NoneEmpty(Inserted(data, v, k))
  {
  }

  lemma AddOne<T>(a: set<T>, b: set<T>, x: T)
    requires forall y :: y in b <==> y in a || y == x
    ensures b == a + {x}
  {
  }

  lemma AddSize<T>(a: set<T>, x: T)
    ensures |a + {x}| <= |a| + 1
  {
  }

  /** The map after one key has left the posting set of `v`; an emptied set goes with it. */
  ghost function Removed(data: map<string, set<string>>, v: string, k: string): map<string, set<string>> {
    if v !in data then data
    else if data[v] - {k} == {} then data - {v}
    else data[v := data[v] - {k}]
  }

  lemma RelationRemoved(data: map<string, set<string>>, v: string, k: string)
    ensures Relation(Removed(data, v, k)) == Relation(data) - {(v, k)}
    ensures |Relation(Removed(data, v, k))| <= |Relation(data)|
    ensures NoneEmpty(data) ==> NoneEmpty(Removed(data, v, k))
  {
    var after := Removed(data, v, k);
    forall p ensures p in Relation(after) <==> p in Relation(data) - {(v, k)} {
      if p.0 == v && p in Relation(data) && p != (v, k) {
        assert p.1 in data[v] - {k};
      }
    }
    SubsetSize(Relation(after), Relation(data));
  }

  // ----- memory

  /** The sizes of an index, a string and a posting set without their contents, and the capacities of the strings. */
  datatype Layout = Layout(index: nat, text: nat, postings: nat, capacity: string -> nat)

  function TextSize(layout: Layout, t: string): nat { layout.text + layout.capacity(t) }

  ghost function TextCost(layout: Layout): string -> nat { (t: string) => TextSize(layout, t) }

  /** What the posting set of a value costs, with the value. */
  ghost function PostingSize(layout: Layout, data: map<string, set<string>>, v: string): nat {
    if v in data then TextSize(layout, v) + layout.postings + Sum(data[v], TextCost(layout)) else 0
  }

  ghost function PostingCost(layout: Layout, data: map<string, set<string>>): string -> nat {
    (v: string) => PostingSize(layout, data, v)
  }

  ghost function MemoryOf(layout: Layout, data: map<string, set<string>>): nat {
    layout.index + Sum(data.Keys, PostingCost(layout, data))
  }

  lemma OthersCostTheSame(layout: Layout, a: map<string, set<string>>, b: map<string, set<string>>, vs: set<string>)
    requires forall v :: v in vs ==> v in a && v in b && a[v] == b[v]
    ensures Sum(vs, PostingCost(layout, a)) == Sum(vs, PostingCost(layout, b))
  {
    SumSame(vs, PostingCost(layout, a), PostingCost(layout, b));
  }

  lemma MemoryOfNothing(layout: Layout)
    ensures MemoryOf(layout, map[]) == layout.index
  {
  }

  /** A new pair costs its key, and its value with a posting set if the value is new. */
  lemma MemoryInserted(layout: Layout, data: map<string, set<string>>, v: string, k: string)
    ensures MemoryOf(layout, Inserted(data, v, k)) == MemoryOf(layout, data)
      + (if v in data then 0 else layout.text + layout.capacity(v) + layout.postings)
      + (if v in data && k in data[v] then 0 else layout.text + layout.capacity(k))
  {
    var after := Inserted(data, v, k);
    var others := data.Keys - {v};
    OthersCostTheSame(layout, data, after, others);
    SumSplit(after.Keys, PostingCost(layout, after), v);
    assert after.Keys - {v} == others;
    if v in data {
      SumSplit(data.Keys, PostingCost(layout, data), v);
      if k in data[v] {
        assert data[v] + {k} == data[v];
      } else {
        SumAdd(data[v], TextCost(layout), k);
      }
    } else {
      assert data.Keys == others;
      SumAdd({}, TextCost(layout), k);
    }
  }

  /** Removing a pair frees what inserting it again would cost. */
  lemma MemoryRemoved(layout: Layout, data: map<string, set<string>>, v: string, k: string)
    requires v in data && k in data[v]
    ensures MemoryOf(layout, data) == MemoryOf(layout, Removed(data, v, k))
      + (if data[v] == {k} then layout.text + layout.capacity(v) + layout.postings else 0)
      + layout.text + layout.capacity(k)
  {
    var before := Removed(data, v, k);
    MemoryInserted(layout, before, v, k);
    if data[v] == {k} {
      assert data[v] - {k} == {};
    } else {
      var other :| other in data[v] && other != k;
      assert other in data[v] - {k};
    }
    assert data[v] - {k} + {k} == data[v];
    assert Inserted(before, v, k) == data;
  }

  lemma RemovalFrees(layout: Layout, data: map<string, set<string>>, v: string, k: string)
    ensures (v, k) in Relation(data) ==> MemoryOf(layout, Removed(data, v, k)) <= MemoryOf(layout, data)
  {
    if v in data && k in data[v] {
      MemoryRemoved(layout, data, v, k);
    }
    hide MemoryOf, Removed;
  }

  lemma TakeSize<T>(a: set<T>, x: T)
    ensures if x in a then |a - {x}| == |a| - 1 else a - {x} == a
  {
  }

  lemma NothingSums(f: string -> nat)
    ensures Sum<string>({}, f) == 0
  {
  }

  lemma TextAdded(layout: Layout, texts: set<string>, t: string)
    requires t !in texts
    ensures Sum(texts + {t}, TextCost(layout)) == Sum(texts, TextCost(layout)) + TextSize(layout, t)
  {
    SumAdd(texts, TextCost(layout), t);
  }

  lemma PostingAdded(layout: Layout, data: map<string, set<string>>, values: set<string>, v: string)
    requires v in data && v !in values
    ensures Sum(values + {v}, PostingCost(layout, data)) == Sum(values, PostingCost(layout, data))
      + TextSize(layout, v) + layout.postings + Sum(data[v], TextCost(layout))
  {
    SumAdd(values, PostingCost(layout, data), v);
  }

  lemma MemoryIsSum(layout: Layout, data: map<string, set<string>>)
    ensures MemoryOf(layout, data) == layout.index + Sum(data.Keys, PostingCost(layout, data))
  {
  }

  /** The keys under the values of a list. */
  ghost predicate Collected(r: set<Pair>, values: seq<string>, keys: set<string>) {
    forall k :: k in keys <==> exists v :: (v, k) in r && v in values
  }

  lemma CollectedMore(data: map<string, set<string>>, values: seq<string>, v: string, keys: set<string>)
    requires Collected(Relation(data), values, keys)
    ensures Collected(Relation(data), values + [v], if v in data then keys + data[v] else keys)
  {
    var all := values + [v];
    assert forall w :: w in all <==> w in values || w == v;
    forall k ensures (exists w :: (w, k) in Relation(data) && w in all)
                <==> (exists w :: (w, k) in Relation(data) && w in values) || (v, k) in Relation(data)
    {
    }
  }

  /** The keys of a set, in some order. */
  method ToSequence(keys: set<string>) returns (r: seq<string>)
    ensures forall k :: k in r <==> k in keys
    ensures forall i, j :: 0 <= i < j < |r| ==> r[i] != r[j]
  {
    r := [];
    var remaining := keys;
    while remaining != {}
      invariant remaining <= keys
      invariant forall k :: k in r <==> k in keys && k !in remaining
      invariant forall i, j :: 0 <= i < j < |r| ==> r[i] != r[j]
      decreases |remaining|
    {
      var k :| k in remaining;
      r, remaining := r + [k], remaining - {k};
    }
  }

  class SecondaryIndex {
    var data: map<string, set<string>>
    /** For both limits 0 means unlimited. */
    const maxKeys: nat
    const memoryLimit: nat
    const layout: Layout

    ghost function Pairs(): set<Pair>
      reads this
    {
      Relation(data)
    }

    ghost predicate Valid()
      reads this
    {
      && NoneEmpty(data)
      && (maxKeys > 0 ==> |Pairs()| <= maxKeys)
    }

    /** A limit is reached by the given contents. */
    ghost predicate Full(contents: map<string, set<string>>) {
      || (maxKeys > 0 && |Relation(contents)| >= maxKeys)
      || (memoryLimit > 0 && MemoryOf(layout, contents) >= memoryLimit)
    }

    constructor (maxKeys: nat, memoryLimit: nat, layout: Layout)
      ensures Valid() && Pairs() == {}
      ensures this.maxKeys == maxKeys && this.memoryLimit == memoryLimit && this.layout == layout
    {
      this.maxKeys, this.memoryLimit, this.layout := maxKeys, memoryLimit, layout;
      data := map[];
      new;
      assert Pairs() == {};
    }

    /** What the strings of a set cost together. */
    method TextBytes(texts: set<string>) returns (n: nat)
      ensures n == Sum(texts, TextCost(layout))
    {
      hide *;
      n := 0;
      var remaining := texts;
      ghost var done: set<string> := {};
      NothingSums(TextCost(layout));
      while remaining != {}
        invariant remaining + done == texts && remaining !! done
        invariant n == Sum(done, TextCost(layout))
        decreases |remaining|
      {
        var t :| t in remaining;
        TextAdded(layout, done, t);
        n := n + TextSize(layout, t);
        remaining, done := remaining - {t}, done + {t};
      }
      assert done == texts;
    }

    method MemoryUsage() returns (n: nat)
      ensures n == MemoryOf(layout, data)
    {
      hide *;
      n := layout.index;
      var remaining := data.Keys;
      ghost var done: set<string> := {};
      NothingSums(PostingCost(layout, data));
      while remaining != {}
        invariant remaining + done == data.Keys && remaining !! done
        invariant n == layout.index + Sum(done, PostingCost(layout, data))
        decreases |remaining|
      {
        var v :| v in remaining;
        PostingAdded(layout, data, done, v);
        var bytes := TextBytes(data[v]);
        n := n + TextSize(layout, v) + layout.postings + bytes;
        assert remaining - {v} + (done + {v}) == data.Keys;
        remaining, done := remaining - {v}, done + {v};
      }
      assert done == data.Keys;
      MemoryIsSum(layout, data);
    }

    method TotalKeys() returns (n: nat)
      requires Valid()
      ensures n == |Pairs()|
    {
      hide Within, Relation;
      n := 0;
      var remaining := data.Keys;
      ghost var done: set<string> := {};
      WithinNone(data);
      while remaining != {}
        invariant remaining + done == data.Keys && remaining !! done
        invariant n == |Within(data, done)|
        decreases |remaining|
      {
        var v :| v in remaining;
        WithinGrows(data, done, v);
        n := n + |data[v]|;
        remaining, done := remaining - {v}, done + {v};
      }
      WithinAll(data);
      assert done == data.Keys;
    }

    method WouldExceedLimits() returns (r: bool)
      requires Valid()
      ensures r <==> Full(data)
    {
      hide Relation, MemoryOf;
      if maxKeys > 0 {
        var total := TotalKeys();
        if total >= maxKeys {
          return true;
        }
      }
      if memoryLimit > 0 {
        var bytes := MemoryUsage();
        if bytes >= memoryLimit {
          return true;
        }
      }
      return false;
    }

    /** Refused exactly when a limit is reached before, even for a pair that is there already; so one pair can go beyond
        the memory limit. */
    method Insert(value: string, key: string) returns (ok: bool)
      requires Valid()
      modifies this
      ensures Valid() && ok == !Full(old(data))
      ensures data == if ok then Inserted(old(data), value, key) else old(data)
      ensures Pairs() == if ok then old(Pairs()) + {(value, key)} else old(Pairs())
    {
      var exceeds := WouldExceedLimits();
      if exceeds {
        return false;
      }
      RelationInserted(data, value, key);
      hide Relation, MemoryOf;
      var keys := if value in data then data[value] else {};
      data := data[value := keys + {key}];
      return true;
    }

    /** Removes one pair; an emptied posting set goes with it. */
    method Remove(value: string, key: string)
      requires Valid()
      modifies this
      ensures Valid() && Pairs() == old(Pairs()) - {(value, key)}
      ensures data == Removed(old(data), value, key)
    {
      RelationRemoved(data, value, key);
      hide Relation;
      if value in data {
        var keys := data[value] - {key};
        data := if keys == {} then data - {value} else data[value := keys];
      }
    }

    /** Replaces just one pair. It succeeds exactly when no limit is reached once the old pair is gone; a failure leaves
        the old pair removed. Without a memory limit it succeeds exactly for present pairs or below the key limit, and
        a failure changes nothing; and a present pair is always replaced while memory is below its limit. */
    method Update(oldValue: string, newValue: string, key: string) returns (ok: bool)
      requires Valid()
      modifies this
      ensures Valid() && ok == !Full(Removed(old(data), oldValue, key))
      ensures ok ==> Pairs() == old(Pairs()) - {(oldValue, key)} + {(newValue, key)}
      ensures !ok ==> Pairs() == old(Pairs()) - {(oldValue, key)}
      ensures memoryLimit == 0 ==>
        (ok <==> (oldValue, key) in old(Pairs()) || maxKeys == 0 || |old(Pairs())| < maxKeys)
      ensures memoryLimit == 0 && !ok ==> Pairs() == old(Pairs())
      ensures (oldValue, key) in old(Pairs()) && MemoryOf(layout, old(data)) < memoryLimit ==> ok
    {
      RoomAfterRemoval(oldValue, key);
      Remove(oldValue, key);
      ok := Insert(newValue, key);
    }

    /** Whether a limit is reached after a removal. */
    lemma RoomAfterRemoval(v: string, k: string)
      requires Valid()
      ensures memoryLimit == 0 ==>
        (!Full(Removed(data, v, k)) <==> (v, k) in Pairs() || maxKeys == 0 || |Pairs()| < maxKeys)
      ensures memoryLimit == 0 && Full(Removed(data, v, k)) ==> Pairs() - {(v, k)} == Pairs()
      ensures (v, k) in Pairs() && MemoryOf(layout, data) < memoryLimit ==> !Full(Removed(data, v, k))
    {
      RelationRemoved(data, v, k);
      RemovalFrees(layout, data, v, k);
      TakeSize(Relation(data), (v, k));
      hide Relation, Removed, MemoryOf, NoneEmpty;
    }

    /** The keys under values that parse to a number satisfying `p`. */
    method RangeQuery(p: real -> bool, parse: string -> Option<real>) returns (r: set<string>)
      ensures forall k :: k in r <==> exists v :: (v, k) in Pairs() && parse(v).Some? && p(parse(v).value)
    {
      r := {};
      var remaining := data.Keys;
      while remaining != {}
        invariant remaining <= data.Keys
        invariant forall k :: k in r <==>
          exists v :: (v, k) in Pairs() && v !in remaining && parse(v).Some? && p(parse(v).value)
        decreases |remaining|
      {
        var v :| v in remaining;
        if parse(v).Some? && p(parse(v).value) {
          r := r + data[v];
        }
        remaining := remaining - {v};
      }
    }

    /** The keys under values that satisfy `p`. */
    method TextQuery(p: string -> bool) returns (r: set<string>)
      ensures forall k :: k in r <==> exists v :: (v, k) in Pairs() && p(v)
    {
      r := {};
      var remaining := data.Keys;
      while remaining != {}
        invariant remaining <= data.Keys
        invariant forall k :: k in r <==> exists v :: (v, k) in Pairs() && v !in remaining && p(v)
        decreases |remaining|
      {
        var v :| v in remaining;
        if p(v) {
          r := r + data[v];
        }
        remaining := remaining - {v};
      }
    }

    method InQuery(values: seq<string>) returns (r: set<string>)
      ensures forall k :: k in r <==> exists v :: (v, k) in Pairs() && v in values
    {
      r := {};
      for i := 0 to |values|
        invariant Collected(Pairs(), values[..i], r)
      {
        CollectedMore(data, values[..i], values[i], r);
        assert values[..i + 1] == values[..i] + [values[i]];
        hide Collected;
        if values[i] in data {
          r := r + data[values[i]];
        }
      }
      assert values[..|values|] == values;
    }

    /** Every operator finds, without duplicates, exactly the keys that a scan of all pairs finds. */
    method Query(op: Operator, parse: string -> Option<real>, lower: string -> string) returns (r: seq<string>)
      ensures forall k :: k in r <==> Found(Pairs(), op, k, parse, lower)
      ensures forall i, j :: 0 <= i < j < |r| ==> r[i] != r[j]
    {
      var keys: set<string>;
      match op {
        case Equals(value) => keys := if value in data then data[value] else {};
        case In(values) => keys := InQuery(values);
        case GreaterThan(threshold) => keys := RangeQuery((x: real) => x > threshold, parse);
        case LessThan(threshold) => keys := RangeQuery((x: real) => x < threshold, parse);
        case Between(min, max) => keys := RangeQuery((x: real) => x >= min && x <= max, parse);
        case Contains(substring) => keys := TextQuery((v: string) => IsSubstring(lower(substring), lower(v)));
        case StartsWith(prefix) => keys := TextQuery((v: string) => lower(prefix) <= lower(v));
      }
      r := ToSequence(keys);
    }
  }
}
