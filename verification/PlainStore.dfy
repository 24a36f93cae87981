/** What the storage promises (src/storage.rs): one map whose values carry deadlines. */
module PlainStore {
  import opened Options
  import opened Words

  datatype Signature = Signature(publicKey: string, signature: string, timestamp: int)

  datatype Ttl = Ttl(ttlSeconds: Option<nat>, expiresAt: Option<int>, createdAt: int)

  datatype StoreType =
    | StringType | HashType | ListType | SetType | SortedSetType | JsonType | StreamType | TimeSeriesType | GeoType

  datatype StoredValue =
    | StringValue(value: string, metadata: Option<Signature>, ttl: Option<Ttl>)
    | HashValue(fields: map<string, string>, metadata: Option<Signature>, ttl: Option<Ttl>)
    | ListValue(items: seq<string>, metadata: Option<Signature>, ttl: Option<Ttl>)
    | SetValue(members: set<string>, metadata: Option<Signature>, ttl: Option<Ttl>)
    | SortedSetValue(scores: map<string, real>, metadata: Option<Signature>, ttl: Option<Ttl>)
    | JsonValue(data: string, id: Option<string>, metadata: Option<Signature>, ttl: Option<Ttl>)
    | StreamValue(entries: seq<(string, seq<(string, string)>)>, metadata: Option<Signature>, ttl: Option<Ttl>)
    | TimeSeriesValue(points: map<int, real>, metadata: Option<Signature>, ttl: Option<Ttl>)
    | GeoValue(locations: map<string, (real, real)>, metadata: Option<Signature>, ttl: Option<Ttl>)

  function TypeOf(v: StoredValue): StoreType {
    match v
    case StringValue(_, _, _) => StringType
    case HashValue(_, _, _) => HashType
    case ListValue(_, _, _) => ListType
    case SetValue(_, _, _) => SetType
    case SortedSetValue(_, _, _) => SortedSetType
    case JsonValue(_, _, _, _) => JsonType
    case StreamValue(_, _, _) => StreamType
    case TimeSeriesValue(_, _, _) => TimeSeriesType
    case GeoValue(_, _, _) => GeoType
  }

  // ----- deadlines, in milliseconds

  /** 64-bit two's complement, as the release build computes it. */
  function WrapI64(n: int): int { (n + TWO_TO_THE_63) % TWO_TO_THE_64 - TWO_TO_THE_63 }

  function Deadline(now: int, ttlSeconds: nat): int {
    WrapI64(now + WrapI64(WrapI64(ttlSeconds) * 1000))
  }

  function NewTtl(now: int, ttlSeconds: nat): Ttl {
    Ttl(Some(ttlSeconds), Some(Deadline(now, ttlSeconds)), now)
  }

  predicate IsExpired(v: StoredValue, now: int) {
    v.ttl.Some? && v.ttl.value.expiresAt.Some? && now > v.ttl.value.expiresAt.value
  }

  lemma WrapShifts(n: int, k: int)
    ensures WrapI64(n + k * TWO_TO_THE_64) == WrapI64(n)
  {
    var a := n + TWO_TO_THE_63;
    var b := a + k * TWO_TO_THE_64;
    var d := b / TWO_TO_THE_64 - a / TWO_TO_THE_64 - k;
    assert d * TWO_TO_THE_64 == a % TWO_TO_THE_64 - b % TWO_TO_THE_64;
  }

  lemma WrapIsShift(n: int) returns (k: int)
    ensures WrapI64(n) == n + k * TWO_TO_THE_64
    ensures -TWO_TO_THE_63 <= WrapI64(n) < TWO_TO_THE_63
  {
    k := -((n + TWO_TO_THE_63) / TWO_TO_THE_64);
  }

  /** A TTL gives the deadline it says exactly when that deadline is a 64-bit number of milliseconds; a larger one
      wraps around, possibly into the past. */
  lemma DeadlineExact(now: nat, ttlSeconds: nat)
    ensures Deadline(now, ttlSeconds) == now + 1000 * ttlSeconds <==> now + 1000 * ttlSeconds < TWO_TO_THE_63
  {
    var k := WrapIsShift(ttlSeconds);
    var l := WrapIsShift(WrapI64(ttlSeconds) * 1000);
    var exact := now + 1000 * ttlSeconds;
    assert now + WrapI64(WrapI64(ttlSeconds) * 1000) == exact + (1000 * k + l) * TWO_TO_THE_64;
    WrapShifts(exact, 1000 * k + l);
    var m := WrapIsShift(exact);
  }

  /** A TTL of some 292 million years, set in November 2023, has passed already. */
  lemma WrappedDeadlineHasPassed(v: StoredValue)
    requires v.ttl == Some(NewTtl(1_700_000_000_000, 9_223_372_036_854_776))
    ensures Deadline(1_700_000_000_000, 9_223_372_036_854_776) < 1_700_000_000_000
    ensures IsExpired(v, 1_700_000_000_000)
  {
  }

  // ----- commands on a plain map

  type Plain = map<string, StoredValue>

  function Live(m: Plain, key: string, now: int): Option<StoredValue> {
    if key in m && !IsExpired(m[key], now) then Some(m[key]) else None
  }

  /** One element for a collection. */
  datatype Item =
    | Field(name: string, value: string)
    | Pushed(value: string)
    | Member(member: string)
    | Scored(member: string, score: real)
    | Entry(id: string, pairs: seq<(string, string)>)
    | Point(timestamp: int, reading: real)
    | Location(member: string, longitude: real, latitude: real)

  function Empty(item: Item, metadata: Option<Signature>, ttl: Option<Ttl>): (v: StoredValue)
    ensures v.ttl == ttl
  {
    match item
    case Field(_, _) => HashValue(map[], metadata, ttl)
    case Pushed(_) => ListValue([], metadata, ttl)
    case Member(_) => SetValue({}, metadata, ttl)
    case Scored(_, _) => SortedSetValue(map[], metadata, ttl)
    case Entry(_, _) => StreamValue([], metadata, ttl)
    case Point(_, _) => TimeSeriesValue(map[], metadata, ttl)
    case Location(_, _, _) => GeoValue(map[], metadata, ttl)
  }

  function ItemType(item: Item): StoreType { TypeOf(Empty(item, None, None)) }

  function Add(v: StoredValue, item: Item): (r: StoredValue)
    requires TypeOf(v) == ItemType(item)
    ensures TypeOf(r) == TypeOf(v) && r.ttl == v.ttl
  {
    match item
    case Field(name, value) => v.(fields := v.fields[name := value])
    case Pushed(value) => v.(items := v.items + [value])
    case Member(member) => v.(members := v.members + {member})
    case Scored(member, score) => v.(scores := v.scores[member := score])
    case Entry(id, pairs) => v.(entries := v.entries + [(id, pairs)])
    case Point(timestamp, reading) => v.(points := v.points[timestamp := reading])
    case Location(member, longitude, latitude) => v.(locations := v.locations[member := (longitude, latitude)])
  }

  /** The item is in the collection, with this very content. */
  predicate Holds(v: StoredValue, item: Item) {
    TypeOf(v) == ItemType(item) &&
    match item
    case Field(name, value) => name in v.fields && v.fields[name] == value
    case Pushed(value) => value in v.items
    case Member(member) => member in v.members
    case Scored(member, score) => member in v.scores && v.scores[member] == score
    case Entry(id, pairs) => (id, pairs) in v.entries
    case Point(timestamp, reading) => timestamp in v.points && v.points[timestamp] == reading
    case Location(member, longitude, latitude) =>
      member in v.locations && v.locations[member] == (longitude, latitude)
  }

  function NewerMetadata(v: StoredValue, metadata: Option<Signature>): (r: StoredValue)
    ensures TypeOf(r) == TypeOf(v) && r.ttl == v.ttl
  {
    if metadata.Some? then v.(metadata := metadata) else v
  }

  function TtlOption(now: int, ttlSeconds: Option<nat>): Option<Ttl> {
    if ttlSeconds.Some? then Some(NewTtl(now, ttlSeconds.value)) else None
  }

  datatype Command =
    | Get(key: string)
    | SetString(key: string, value: string, metadata: Option<Signature>, ttlSeconds: Option<nat>)
    | SetJson(key: string, data: string, id: Option<string>, metadata: Option<Signature>, ttlSeconds: Option<nat>)
    | Write(key: string, item: Item, metadata: Option<Signature>, ttlSeconds: Option<nat>)
    | Delete(key: string)
    | SetTtl(key: string, seconds: nat)
    | Persist(key: string)

  datatype Response = Found(value: Option<StoredValue>) | Done(ok: bool) | WrongType

  /** The live JSON documents under keys that start with `prefix` and carry this id. */
  ghost function SameId(m: Plain, prefix: string, id: string, now: int): set<string> {
    set k | k in m && prefix <= k && !IsExpired(m[k], now) && m[k].JsonValue? && m[k].id == Some(id)
  }

  ghost function Step(m: Plain, c: Command, now: int): (Plain, Response) {
    match c
    case Get(key) => (m, Found(Live(m, key, now)))
    case SetString(key, value, metadata, ttlSeconds) =>
      (m[key := StringValue(value, metadata, TtlOption(now, ttlSeconds))], Done(true))
    case SetJson(key, data, id, metadata, ttlSeconds) =>
      var kept := if id.Some? then m - SameId(m, key, id.value, now) else m;
      (kept[key := JsonValue(data, id, metadata, TtlOption(now, ttlSeconds))], Done(true))
    case Write(key, item, metadata, ttlSeconds) =>
      var live := Live(m, key, now);
      var base := if live.Some? then live.value else Empty(item, metadata, TtlOption(now, ttlSeconds));
      if TypeOf(base) != ItemType(item) then (m, WrongType)
      else (m[key := NewerMetadata(Add(base, item), metadata)], Done(true))
    case Delete(key) => (m - {key}, Done(true))
    case SetTtl(key, seconds) =>
      var live := Live(m, key, now);
      if live.None? then (m, Done(false))
      else (m[key := live.value.(ttl := Some(NewTtl(now, seconds)))], Done(true))
    case Persist(key) =>
      var live := Live(m, key, now);
      if live.None? then (m, Done(false)) else (m[key := live.value.(ttl := None)], Done(true))
  }

  /** A string is there until its deadline, and for good without one, whatever was under the key before. */
  lemma StringLifetime(m: Plain, c: Command, now: int, t: int)
    requires c.SetString?
    ensures Live(Step(m, c, now).0, c.key, t).Some? <==> c.ttlSeconds.None? || t <= Deadline(now, c.ttlSeconds.value)
    ensures Live(Step(m, c, now).0, c.key, t).Some? ==>
              var v := Live(Step(m, c, now).0, c.key, t).value;
              v.StringValue? && v.value == c.value && v.metadata == c.metadata
  {
    hide Deadline;
  }

  /** Setting a TTL keeps the content of a live value and moves its end to the new deadline; persisting keeps it for
      good; both do nothing to a key that is not alive. */
  lemma LifetimeMoves(m: Plain, c: Command, now: int, t: int)
    requires c.SetTtl? || c.Persist?
    ensures Live(m, c.key, now).None? ==> Step(m, c, now) == (m, Done(false))
    ensures Live(m, c.key, now).Some? ==>
              var was, after := Live(m, c.key, now).value, Live(Step(m, c, now).0, c.key, t);
              && Step(m, c, now).1 == Done(true)
              && (after.Some? <==> c.Persist? || t <= Deadline(now, c.seconds))
              && (after.Some? ==> after.value.(ttl := was.ttl) == was)
  {
    hide Deadline;
  }

  // ----- runs

  datatype Timed = Timed(command: Command, at: int)

  /** The commands are given in time order, the first no earlier than `start`. */
  ghost predicate InOrder(cs: seq<Timed>, start: int)
    decreases |cs|
  {
    cs != [] ==> start <= cs[0].at && InOrder(cs[1..], cs[0].at)
  }

  ghost function Final(m: Plain, cs: seq<Timed>): Plain
    decreases |cs|
  {
    if cs == [] then m else Final(Step(m, cs[0].command, cs[0].at).0, cs[1..])
  }

  ghost function Responses(m: Plain, cs: seq<Timed>): seq<Response>
    decreases |cs|
  {
    if cs == [] then []
    else [Step(m, cs[0].command, cs[0].at).1] + Responses(Step(m, cs[0].command, cs[0].at).0, cs[1..])
  }

  ghost predicate SameLive(m: Plain, n: Plain, now: int) {
    forall k :: Live(m, k, now) == Live(n, k, now)
  }

  lemma SameLiveLater(m: Plain, n: Plain, now: int, later: int)
    requires SameLive(m, n, now) && now <= later
    ensures SameLive(m, n, later)
  {
    forall k ensures Live(m, k, later) == Live(n, k, later) {
      assert Live(m, k, now) == Live(n, k, now);
    }
  }

  lemma SameIdSame(m: Plain, n: Plain, prefix: string, id: string, now: int)
    requires SameLive(m, n, now)
    ensures SameId(m, prefix, id, now) == SameId(n, prefix, id, now)
  {
    forall k ensures k in SameId(m, prefix, id, now) <==> k in SameId(n, prefix, id, now) {
      assert Live(m, k, now) == Live(n, k, now);
    }
  }

  lemma StepSame(m: Plain, n: Plain, c: Command, now: int)
    requires SameLive(m, n, now)
    ensures Step(m, c, now).1 == Step(n, c, now).1
    ensures SameLive(Step(m, c, now).0, Step(n, c, now).0, now)
  {
    assert Live(m, c.key, now) == Live(n, c.key, now);
    if c.SetJson? && c.id.Some? {
      SameIdSame(m, n, c.key, c.id.value, now);
    }
    hide Add, Empty, TypeOf, IsExpired, NewerMetadata, SameId;
    var m', n' := Step(m, c, now).0, Step(n, c, now).0;
    forall k ensures Live(m', k, now) == Live(n', k, now) {
      assert Live(m, k, now) == Live(n, k, now);
    }
  }

  /** Maps with the same live values answer every later sequence of commands alike. */
  lemma {:induction false} SameLiveSameResponses(m: Plain, n: Plain, cs: seq<Timed>, now: int)
    requires SameLive(m, n, now) && InOrder(cs, now)
    ensures Responses(m, cs) == Responses(n, cs)
    decreases |cs|
  {
    if cs != [] {
      SameLiveLater(m, n, now, cs[0].at);
      StepSame(m, n, cs[0].command, cs[0].at);
      hide SameLive, Step;
      SameLiveSameResponses(Step(m, cs[0].command, cs[0].at).0, Step(n, cs[0].command, cs[0].at).0, cs[1..], cs[0].at);
    }
  }

  /** An expired value is as good as deleted: no later command can tell the difference. */
  lemma ExpiredIsAbsent(m: Plain, key: string, cs: seq<Timed>, now: int)
    requires key in m && IsExpired(m[key], now) && InOrder(cs, now)
    ensures Responses(m, cs) == Responses(m - {key}, cs)
  {
    SameLiveSameResponses(m, m - {key}, cs, now);
  }

  /** Both items say something about the same field, member or time stamp. */
  predicate SameSlot(a: Item, b: Item) {
    match (a, b)
    case (Field(m, _), Field(n, _)) => m == n
    case (Scored(m, _), Scored(n, _)) => m == n
    case (Point(m, _), Point(n, _)) => m == n
    case (Location(m, _, _), Location(n, _, _)) => m == n
    case _ => false
  }

  /** Adding an item puts it in, takes out what it replaces, and changes nothing else. */
  lemma AddHolds(v: StoredValue, added: Item, item: Item)
    requires TypeOf(v) == ItemType(added)
    ensures Holds(Add(v, added), item) <==> item == added || (Holds(v, item) && !SameSlot(added, item))
  {
  }

  lemma MetadataHolds(v: StoredValue, metadata: Option<Signature>, item: Item)
    ensures Holds(NewerMetadata(v, metadata), item) == Holds(v, item)
  {
  }

  lemma StepHolds(m: Plain, c: Command, now: int, key: string, item: Item, t: int)
    requires now <= t
    requires var after := Live(Step(m, c, now).0, key, t); after.Some? && Holds(after.value, item)
    ensures (c.Write? && c.key == key && c.item == item)
            || (Live(m, key, now).Some? && Holds(Live(m, key, now).value, item))
  {
    hide Add, NewerMetadata;
    if c.Write? && c.key == key {
      var live := Live(m, c.key, now);
      var base := if live.Some? then live.value else Empty(c.item, c.metadata, TtlOption(now, c.ttlSeconds));
      if TypeOf(base) == ItemType(c.item) {
        MetadataHolds(Add(base, c.item), c.metadata, item);
        AddHolds(base, c.item, item);
      }
    }
  }

  /** What a read finds in a collection was in it, alive, at the start, or was written since. */
  lemma {:induction false} HeldItemsWereWritten(m: Plain, key: string, cs: seq<Timed>, now: int, item: Item, t: int)
    requires InOrder(cs, now) && now <= t && forall i :: 0 <= i < |cs| ==> cs[i].at <= t
    requires var after := Live(Final(m, cs), key, t); after.Some? && Holds(after.value, item)
    ensures (exists i :: 0 <= i < |cs| && cs[i].command.Write? && cs[i].command.key == key
                         && cs[i].command.item == item)
            || (Live(m, key, now).Some? && Holds(Live(m, key, now).value, item))
    decreases |cs|
  {
    hide Holds, Step;
    if cs != [] {
      var c, at := cs[0].command, cs[0].at;
      var next := Step(m, c, at).0;
      HeldItemsWereWritten(next, key, cs[1..], at, item, t);
      if i :| 0 <= i < |cs[1..]| && cs[1..][i].command.Write? && cs[1..][i].command.key == key
              && cs[1..][i].command.item == item {
        assert cs[i + 1] == cs[1..][i];
      } else {
        StepHolds(m, c, at, key, item, at);
      }
    }
  }

  /** No resurrection: once a collection has expired, reads find only what was written after that. */
  lemma NoResurrection(m: Plain, key: string, cs: seq<Timed>, now: int, item: Item, t: int)
    requires key in m && IsExpired(m[key], now)
    requires InOrder(cs, now) && now <= t && forall i :: 0 <= i < |cs| ==> cs[i].at <= t
    requires var after := Live(Final(m, cs), key, t); after.Some? && Holds(after.value, item)
    ensures exists i :: 0 <= i < |cs| && cs[i].command.Write? && cs[i].command.key == key
                        && cs[i].command.item == item
  {
    HeldItemsWereWritten(m, key, cs, now, item, t);
  }

  /** Reads, and writes of single items to any collection, leave deadlines alone. */
  predicate LeavesDeadline(c: Command, key: string) {
    c.Get? || c.Write? || c.key != key
  }

  lemma StepKeepsDeadline(m: Plain, c: Command, now: int, key: string)
    requires key in m && !m[key].JsonValue? && !IsExpired(m[key], now) && LeavesDeadline(c, key)
    ensures var after := Step(m, c, now).0;
            key in after && after[key].ttl == m[key].ttl && TypeOf(after[key]) == TypeOf(m[key])
  {
  }

  /** Writing to a live collection never moves its deadline. */
  lemma {:induction false} DeadlineKept(m: Plain, key: string, cs: seq<Timed>, now: int, end: int)
    requires key in m && !m[key].JsonValue? && !IsExpired(m[key], end)
    requires InOrder(cs, now) && forall i :: 0 <= i < |cs| ==> cs[i].at <= end && LeavesDeadline(cs[i].command, key)
    ensures key in Final(m, cs) && Final(m, cs)[key].ttl == m[key].ttl
    decreases |cs|
  {
    if cs != [] {
      var c, at := cs[0].command, cs[0].at;
      StepKeepsDeadline(m, c, at, key);
      hide Step;
      assert forall i :: 0 <= i < |cs[1..]| ==> cs[1..][i] == cs[i + 1];
      DeadlineKept(Step(m, c, at).0, key, cs[1..], at, end);
    }
  }

  /** After a JSON document with an id is stored, no other live document under the same key prefix carries the id. */
  lemma IdsStayUnique(m: Plain, c: Command, now: int, k: string)
    requires c.SetJson? && c.id.Some?
    requires c.key <= k && k in SameId(Step(m, c, now).0, c.key, c.id.value, now)
    ensures k == c.key
  {
  }
}
