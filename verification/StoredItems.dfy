/** What commands leave behind in the store (src/storage.rs): written items are found until they are replaced, deleted,
    overwritten or expired, and no command touches the values of other keys. */
module StoredItems {
  import opened Options
  import opened PlainStore
  import opened Sequences

  /** A read at `t` finds the item under the key. */
  ghost predicate Finds(m: Plain, key: string, item: Item, t: int) {
    Live(m, key, t).Some? && Holds(Live(m, key, t).value, item)
  }

  /** The time to live that a command with this many seconds gives. */
  function GivenTtl(now: int, ttlSeconds: Option<nat>): Option<Ttl> {
    match ttlSeconds
    case None => None
    case Some(seconds) => Some(Ttl(Some(seconds), Some(Deadline(now, seconds)), now))
  }

  /** The read is not after the deadline. */
  predicate InTime(ttl: Option<Ttl>, t: int) {
    ttl.None? || ttl.value.expiresAt.None? || t <= ttl.value.expiresAt.value
  }

  // ----- one command

  /** A write is refused exactly if the live value has another type, and then changes nothing. */
  lemma WriteRefusedExactly(m: Plain, c: Command, now: int)
    requires c.Write?
    ensures var was, (after, r) := Live(m, c.key, now), Step(m, c, now);
            && (r == WrongType <==> was.Some? && TypeOf(was.value) != ItemType(c.item))
            && (r == WrongType ==> after == m) && (r != WrongType ==> r == Done(true))
  {
    EmptyHoldsNothing(c.item, c.metadata, TtlOption(now, c.ttlSeconds), c.item);
  }

  lemma EmptyHoldsNothing(item: Item, metadata: Option<Signature>, ttl: Option<Ttl>, x: Item)
    ensures TypeOf(Empty(item, metadata, ttl)) == ItemType(item) && !Holds(Empty(item, metadata, ttl), x)
    ensures MetadataOf(Empty(item, metadata, ttl)) == metadata
  {
  }

  function MetadataOf(v: StoredValue): Option<Signature> { v.metadata }

  /** A write that is not refused is found until the deadline, which is the old one for a live value and the given one
      otherwise. Then exactly the written item is held, and what a live value held before, except in the same slot. */
  lemma WriteIsFound(m: Plain, c: Command, now: int, t: int)
    requires c.Write? && Step(m, c, now).1 == Done(true)
    ensures var was, read := Live(m, c.key, now), Live(Step(m, c, now).0, c.key, t);
            var ttl := if was.Some? then was.value.ttl else GivenTtl(now, c.ttlSeconds);
            && (read.Some? <==> InTime(ttl, t))
            && (read.Some? ==>
                  && read.value.ttl == ttl && TypeOf(read.value) == ItemType(c.item)
                  && read.value.metadata == (if c.metadata.Some? || was.None? then c.metadata else was.value.metadata)
                  && forall x :: Holds(read.value, x) <==>
                       x == c.item || (was.Some? && Holds(was.value, x) && !SameSlot(c.item, x)))
  {
    var was := Live(m, c.key, now);
    var base := if was.Some? then was.value else Empty(c.item, c.metadata, TtlOption(now, c.ttlSeconds));
    EmptyHoldsNothing(c.item, c.metadata, TtlOption(now, c.ttlSeconds), c.item);
    AddMetadata(base, c.item, c.metadata);
    var v := NewerMetadata(Add(base, c.item), c.metadata);
    forall x ensures Holds(v, x) <==> x == c.item || (was.Some? && Holds(was.value, x) && !SameSlot(c.item, x)) {
      MetadataHolds(Add(base, c.item), c.metadata, x);
      AddHolds(base, c.item, x);
      EmptyHoldsNothing(c.item, c.metadata, TtlOption(now, c.ttlSeconds), x);
    }
    hide Add, Empty, Holds, NewerMetadata, SameSlot, TypeOf, Deadline;
    assert Step(m, c, now).0 == m[c.key := v];
  }

  lemma AddMetadata(v: StoredValue, item: Item, metadata: Option<Signature>)
    requires TypeOf(v) == ItemType(item)
    ensures NewerMetadata(Add(v, item), metadata).metadata == if metadata.Some? then metadata else v.metadata
  {
  }

  /** The first item of a collection, spelled out. */
  lemma FirstWrite(m: Plain, c: Command, now: int)
    requires c.Write? && Live(m, c.key, now).None?
    ensures Step(m, c, now).1 == Done(true) && c.key in Step(m, c, now).0
    ensures var v, metadata, ttl := Step(m, c, now).0[c.key], c.metadata, GivenTtl(now, c.ttlSeconds);
            match c.item
            case Field(name, value) => v == HashValue(map[name := value], metadata, ttl)
            case Pushed(value) => v == ListValue([value], metadata, ttl)
            case Member(member) => v == SetValue({member}, metadata, ttl)
            case Scored(member, score) => v == SortedSetValue(map[member := score], metadata, ttl)
            case Entry(id, pairs) => v == StreamValue([(id, pairs)], metadata, ttl)
            case Point(timestamp, reading) => v == TimeSeriesValue(map[timestamp := reading], metadata, ttl)
            case Location(member, longitude, latitude) =>
              v == GeoValue(map[member := (longitude, latitude)], metadata, ttl)
  {
    hide Deadline;
  }

  /** No command touches another key, except that storing a document with an id removes the live documents with that
      id under keys that its own key is a prefix of. */
  lemma OthersStay(m: Plain, c: Command, now: int, k: string)
    requires k != c.key
    ensures var after := Step(m, c, now).0;
            if c.SetJson? && c.id.Some? && c.key <= k && Live(m, k, now).Some? && Live(m, k, now).value.JsonValue?
               && Live(m, k, now).value.id == c.id
            then k !in after
            else (k in after <==> k in m) && (k in m ==> after[k] == m[k])
  {
    hide Add, Empty, NewerMetadata, TypeOf, Deadline;
  }

  /** A document is there until its deadline, and for good without one. */
  lemma JsonLifetime(m: Plain, c: Command, now: int, t: int)
    requires c.SetJson?
    ensures Live(Step(m, c, now).0, c.key, t).Some? <==> c.ttlSeconds.None? || t <= Deadline(now, c.ttlSeconds.value)
    ensures var read := Live(Step(m, c, now).0, c.key, t);
            read.Some? ==> read.value == JsonValue(c.data, c.id, c.metadata, GivenTtl(now, c.ttlSeconds))
    ensures Step(m, c, now).1 == Done(true)
  {
    hide Deadline, SameId;
  }

  /** A deleted key is gone. */
  lemma DeletedIsGone(m: Plain, key: string, now: int, t: int)
    ensures Live(Step(m, Delete(key), now).0, key, t) == None && Step(m, Delete(key), now).1 == Done(true)
  {
  }

  // ----- runs

  /** An item found at `at` is still found at `end` after the command exactly if this holds: the value has not expired
      by then and no write replaces the item, or a new deadline is late enough, or the value is persisted. */
  predicate Spares(c: Command, at: int, v: StoredValue, key: string, item: Item, end: int) {
    if c.key != key || c.Get? || (c.Write? && (c.item == item || !SameSlot(c.item, item))) then InTime(v.ttl, end)
    else (c.SetTtl? && end <= Deadline(at, c.seconds)) || c.Persist?
  }

  lemma HolderType(v: StoredValue, item: Item)
    requires Holds(v, item)
    ensures TypeOf(v) == ItemType(item) && !v.JsonValue? && !v.StringValue?
  {
  }

  lemma TtlHolds(v: StoredValue, item: Item, ttl: Option<Ttl>)
    ensures Holds(v.(ttl := ttl), item) == Holds(v, item)
  {
  }

  lemma SlotHasType(a: Item, b: Item)
    requires a == b || SameSlot(a, b)
    ensures ItemType(a) == ItemType(b)
  {
  }

  lemma StringHoldsNothing(v: StoredValue, item: Item)
    requires v.StringValue? || v.JsonValue?
    ensures !Holds(v, item)
  {
  }

  lemma SparesExactly(m: Plain, c: Command, at: int, key: string, item: Item, end: int)
    requires Finds(m, key, item, at) && at <= end
    ensures Finds(Step(m, c, at).0, key, item, end) <==> Spares(c, at, m[key], key, item, end)
  {
    if c.key != key {
      OtherSparesExactly(m, c, at, key, item, end);
    } else if c.Write? {
      WriteSparesExactly(m, c, at, item, end);
    } else {
      hide Deadline;
      TtlHolds(m[key], item, if c.SetTtl? then Some(NewTtl(at, c.seconds)) else None);
      hide Holds, SameId, TypeOf, ItemType, Add, Empty, SameSlot;
      if c.SetString? || c.SetJson? {
        StringHoldsNothing(Step(m, c, at).0[key], item);
      }
    }
  }

  lemma OtherSparesExactly(m: Plain, c: Command, at: int, key: string, item: Item, end: int)
    requires Finds(m, key, item, at) && at <= end && c.key != key
    ensures Finds(Step(m, c, at).0, key, item, end) <==> Spares(c, at, m[key], key, item, end)
  {
    HolderType(m[key], item);
    OthersStay(m, c, at, key);
    hide Deadline, Holds, Step, TypeOf, ItemType, SameSlot;
  }

  lemma WriteSparesExactly(m: Plain, c: Command, at: int, item: Item, end: int)
    requires Finds(m, c.key, item, at) && at <= end && c.Write?
    ensures Finds(Step(m, c, at).0, c.key, item, end) <==> Spares(c, at, m[c.key], c.key, item, end)
  {
    HolderType(m[c.key], item);
    WriteRefusedExactly(m, c, at);
    if c.item == item || SameSlot(c.item, item) {
      SlotHasType(c.item, item);
    }
    if Step(m, c, at).1 == Done(true) {
      WriteIsFound(m, c, at, end);
    }
    hide Holds, SameSlot, Deadline, Step, TypeOf, ItemType;
  }

  /** Every command of the run spares the item until `end`. */
  ghost predicate AllSpare(cs: seq<Timed>, key: string, item: Item, end: int) {
    forall i :: 0 <= i < |cs| ==> SparesUntil(cs[i].command, cs[i].at, key, item, end)
  }

  /** The command does not delete or overwrite the key, replace the item or bring the deadline before `end`. */
  predicate SparesUntil(c: Command, at: int, key: string, item: Item, end: int) {
    || c.key != key || c.Get? || c.Persist?
    || (c.Write? && (c.item == item || !SameSlot(c.item, item)))
    || (c.SetTtl? && end <= Deadline(at, c.seconds))
  }

  /** An item that is found now, in a value that has not expired at `end`, is found at `end`, if every command until
      then spares it. */
  lemma {:induction false} ItemStays(m: Plain, key: string, cs: seq<Timed>, now: int, item: Item, end: int)
    requires Finds(m, key, item, now) && Finds(m, key, item, end) && InOrder(cs, now)
    requires forall i :: 0 <= i < |cs| ==> cs[i].at <= end
    requires AllSpare(cs, key, item, end)
    ensures Finds(Final(m, cs), key, item, end)
    decreases |cs|
  {
    if cs != [] {
      var c, at := cs[0].command, cs[0].at;
      assert SparesUntil(c, at, key, item, end);
      assert Finds(m, key, item, at);
      SparesExactly(m, c, at, key, item, end);
      SparesExactly(m, c, at, key, item, at);
      var next := Step(m, c, at).0;
      assert AllSpare(cs[1..], key, item, end) && forall i :: 0 <= i < |cs[1..]| ==> cs[1..][i] == cs[i + 1];
      hide Step, Finds, AllSpare, SparesUntil, Spares;
      ItemStays(next, key, cs[1..], at, item, end);
    }
  }

  lemma {:induction false} RunLast(m: Plain, cs: seq<Timed>, last: Timed)
    ensures Responses(m, cs + [last]) == Responses(m, cs) + [Step(Final(m, cs), last.command, last.at).1]
    ensures |Responses(m, cs)| == |cs|
    decreases |cs|
  {
    hide Step;
    if cs != [] {
      assert (cs + [last])[0] == cs[0] && (cs + [last])[1..] == cs[1..] + [last];
      RunLast(Step(m, cs[0].command, cs[0].at).0, cs[1..], last);
    }
  }

  lemma {:induction false} InOrderUntil(cs: seq<Timed>, last: Timed, start: int)
    requires InOrder(cs + [last], start)
    ensures InOrder(cs, start) && start <= last.at && forall i :: 0 <= i < |cs| ==> cs[i].at <= last.at
    decreases |cs|
  {
    if cs != [] {
      assert (cs + [last])[0] == cs[0] && (cs + [last])[1..] == cs[1..] + [last];
      InOrderUntil(cs[1..], last, cs[0].at);
      assert forall i :: 0 < i < |cs| ==> cs[i] == cs[1..][i - 1];
    }
  }

  /** Whether the collection that a write at `at` writes to lasts until `end`, given what was alive under the key. */
  predicate LastsUntil(was: Option<StoredValue>, ttlSeconds: Option<nat>, at: int, end: int) {
    if was.Some? then InTime(was.value.ttl, end) else ttlSeconds.None? || end <= Deadline(at, ttlSeconds.value)
  }

  /** Whatever was stored before, a written item is read until the deadline, if the write is not refused and the
      commands in between spare the item. */
  lemma WrittenIsRead(m: Plain, w: Command, at: int, between: seq<Timed>, end: int)
    requires w.Write? && InOrder(between + [Timed(Get(w.key), end)], at) && AllSpare(between, w.key, w.item, end)
    requires !(Live(m, w.key, at).Some? && TypeOf(Live(m, w.key, at).value) != ItemType(w.item))
    requires LastsUntil(Live(m, w.key, at), w.ttlSeconds, at, end)
    ensures var responses := Responses(m, [Timed(w, at)] + between + [Timed(Get(w.key), end)]);
            && |responses| == |between| + 2 && responses[0] == Done(true)
            && var r := responses[|between| + 1]; r.Found? && r.value.Some? && Holds(r.value.value, w.item)
  {
    var write, read := Timed(w, at), Timed(Get(w.key), end);
    InOrderUntil(between, read, at);
    WriteRefusedExactly(m, w, at);
    WriteIsFound(m, w, at, at);
    WriteIsFound(m, w, at, end);
    var next := Step(m, w, at).0;
    assert Finds(next, w.key, w.item, at) && Finds(next, w.key, w.item, end) by { hide Holds, Step, Deadline; }
    ItemStays(next, w.key, between, at, w.item, end);
    RunLast(m, [write] + between, read);
    assert ([write] + between)[1..] == between;
    hide Holds;
  }

  // ----- values that nobody names

  /** The command leaves the key alone: it only reads it, or names another key and does not remove a document by id. */
  predicate Ignores(c: Command, key: string) {
    c.Get? || (c.key != key && !(c.SetJson? && c.id.Some? && c.key <= key))
  }

  /** A value of any kind is read as it is until its deadline, while all commands leave its key alone. */
  lemma {:induction false} ValueStays(m: Plain, key: string, cs: seq<Timed>, now: int, end: int)
    requires Live(m, key, end).Some? && InOrder(cs, now) && forall i :: 0 <= i < |cs| ==> cs[i].at <= end
    requires forall i :: 0 <= i < |cs| ==> Ignores(cs[i].command, key)
    ensures Live(Final(m, cs), key, end) == Live(m, key, end)
    decreases |cs|
  {
    if cs != [] {
      var c, at := cs[0].command, cs[0].at;
      assert Ignores(c, key) && forall i :: 0 <= i < |cs[1..]| ==> cs[1..][i] == cs[i + 1];
      if c.key != key {
        OthersStay(m, c, at, key);
      }
      hide Step, Ignores;
      ValueStays(Step(m, c, at).0, key, cs[1..], at, end);
    }
  }

  // ----- the order of lists and streams

  /** A read at `end` finds this list under the key, or this stream. */
  ghost predicate ReadsList(m: Plain, key: string, end: int, items: seq<string>) {
    var read := Live(m, key, end);
    read.Some? && read.value.ListValue? && read.value.items == items
  }

  ghost predicate ReadsStream(m: Plain, key: string, end: int, entries: seq<(string, seq<(string, string)>)>) {
    var read := Live(m, key, end);
    read.Some? && read.value.StreamValue? && read.value.entries == entries
  }

  function PushedBy(c: Command, key: string): seq<string> {
    if c.Write? && c.key == key && c.item.Pushed? then [c.item.value] else []
  }

  function AppendedBy(c: Command, key: string): seq<(string, seq<(string, string)>)> {
    if c.Write? && c.key == key && c.item.Entry? then [(c.item.id, c.item.pairs)] else []
  }

  /** What the commands push to a list or append to a stream, in order. */
  function AllPushed(cs: seq<Timed>, key: string): seq<string> {
    if cs == [] then [] else PushedBy(cs[0].command, key) + AllPushed(cs[1..], key)
  }

  function AllAppended(cs: seq<Timed>, key: string): seq<(string, seq<(string, string)>)> {
    if cs == [] then [] else AppendedBy(cs[0].command, key) + AllAppended(cs[1..], key)
  }

  /** The commands only read and write the key, and leave it alone otherwise. */
  ghost predicate OnlyWrites(cs: seq<Timed>, key: string) {
    forall i :: 0 <= i < |cs| ==> cs[i].command.Write? || Ignores(cs[i].command, key)
  }

  lemma StepInOrder(m: Plain, c: Command, at: int, key: string, end: int, items: seq<string>,
                    entries: seq<(string, seq<(string, string)>)>)
    requires at <= end && (c.Write? || Ignores(c, key))
    ensures ReadsList(m, key, end, items) ==> ReadsList(Step(m, c, at).0, key, end, items + PushedBy(c, key))
    ensures ReadsStream(m, key, end, entries)
        ==> ReadsStream(Step(m, c, at).0, key, end, entries + AppendedBy(c, key))
  {
    if c.key != key {
      OthersStay(m, c, at, key);
    }
  }

  /** As long as it lives, a list holds what it held and then all that was pushed, in order, and so does a stream. */
  lemma {:induction false} WrittenInOrder(m: Plain, key: string, cs: seq<Timed>, now: int, end: int,
                                          items: seq<string>, entries: seq<(string, seq<(string, string)>)>)
    requires OnlyWrites(cs, key) && InOrder(cs, now) && forall i :: 0 <= i < |cs| ==> cs[i].at <= end
    ensures ReadsList(m, key, end, items) ==> ReadsList(Final(m, cs), key, end, items + AllPushed(cs, key))
    ensures ReadsStream(m, key, end, entries)
        ==> ReadsStream(Final(m, cs), key, end, entries + AllAppended(cs, key))
    decreases |cs|
  {
    if cs == [] {
      assert items + [] == items && entries + [] == entries;
    } else {
      var c, at := cs[0].command, cs[0].at;
      assert forall i :: 0 <= i < |cs[1..]| ==> cs[1..][i] == cs[i + 1];
      StepInOrder(m, c, at, key, end, items, entries);
      assert OnlyWrites(cs[1..], key);
      Regroup(items, PushedBy(c, key), AllPushed(cs[1..], key));
      Regroup(entries, AppendedBy(c, key), AllAppended(cs[1..], key));
      hide Step, Ignores, OnlyWrites, ReadsList, ReadsStream, PushedBy, AppendedBy;
      WrittenInOrder(Step(m, c, at).0, key, cs[1..], at, end, items + PushedBy(c, key), entries + AppendedBy(c, key));
    }
  }
}
