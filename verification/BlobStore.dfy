/** The storage itself (src/storage.rs): an index into content-addressed blobs behind a two-tier cache, with lazy
    expiry on reads and an eager cleanup. Every public operation is one step and refines the plain map. */
module BlobStore {
  import opened Options
  import opened PlainStore

  /** The content hash of a serialized value; different values have different hashes. */
  datatype Hash = Hash(content: StoredValue)

  datatype IndexEntry = IndexEntry(hash: Hash, storeType: StoreType)

  /** A command, or something that happens to the store on the side: the cache loses a key, or the cleanup runs. */
  datatype StoreEvent =
    | Issue(command: Timed)
    | Evicts(key: string)
    | Cleanup(at: int)

  function Commands(events: seq<StoreEvent>): seq<Timed> {
    if events == [] then []
    else if events[0].Issue? then [events[0].command] + Commands(events[1..])
    else Commands(events[1..])
  }

  ghost predicate EventsInOrder(events: seq<StoreEvent>, start: int)
    decreases |events|
  {
    events != [] ==>
      match events[0]
      case Issue(c) => start <= c.at && EventsInOrder(events[1..], c.at)
      case Evicts(_) => EventsInOrder(events[1..], start)
      case Cleanup(at) => start <= at && EventsInOrder(events[1..], at)
  }

  lemma {:induction false} CommandsInOrder(events: seq<StoreEvent>, start: int)
    requires EventsInOrder(events, start)
    ensures InOrder(Commands(events), start)
    decreases |events|
  {
    if events != [] {
      match events[0]
      case Issue(c) => CommandsInOrder(events[1..], c.at);
      case Evicts(_) => CommandsInOrder(events[1..], start);
      case Cleanup(at) =>
        CommandsInOrder(events[1..], at);
        StartsEarlier(Commands(events[1..]), start, at);
    }
  }

  lemma StartsEarlier(cs: seq<Timed>, start: int, later: int)
    requires InOrder(cs, later) && start <= later
    ensures InOrder(cs, start)
  {
  }

  lemma RunsUnfold(m: Plain, c: Timed, cs: seq<Timed>)
    ensures Responses(m, [c] + cs) == [Step(m, c.command, c.at).1] + Responses(Step(m, c.command, c.at).0, cs)
    ensures Final(m, [c] + cs) == Final(Step(m, c.command, c.at).0, cs)
  {
    assert ([c] + cs)[1..] == cs;
  }

  class BlobStorage {
    var index: map<string, IndexEntry>
    var blobs: map<Hash, StoredValue>
    var hot: map<string, StoredValue>
    var warm: map<string, StoredValue>
    /** The plain map that the store stands for, and the latest time it was used at. */
    ghost var plain: Plain
    ghost var clock: int

    /** Every index entry names a stored blob, with the tag of its variant, and the blob is the plain value; keys of
        the plain map that are not indexed have expired; the hot tier repeats indexed blobs, and nothing is warm. */
    ghost predicate Valid()
      reads this
    {
      && (forall k :: k in index ==>
            && index[k].hash in blobs && k in plain && blobs[index[k].hash] == plain[k]
            && index[k].storeType == TypeOf(plain[k]))
      && (forall k :: k in plain && k !in index ==> IsExpired(plain[k], clock))
      && (forall h :: h in blobs ==> blobs[h] == h.content)
      && (forall k :: k in hot ==> k in index && hot[k] == plain[k])
      && warm == map[]
    }

    constructor (now: int)
      ensures Valid() && plain == map[] && clock == now
    {
      index, blobs, hot, warm := map[], map[], map[], map[];
      plain, clock := map[], now;
    }

    /** Storing and reading keep what the store stands for, except as said, and move the clock to `now`. */
    twostate predicate Refines(c: Command, now: int, r: Response)
      reads this
    {
      Valid() && clock == now && (plain, r) == Step(old(plain), c, now)
    }

    /** Time passes; what had expired stays expired. */
    method Advance(now: int)
      requires Valid() && clock <= now
      modifies this`clock
      ensures Valid() && clock == now
    {
      clock := now;
    }

    // ----- the cache

    method CacheGet(key: string) returns (r: Option<StoredValue>)
      modifies this`hot
      ensures r == if key in hot then Some(hot[key]) else None
      ensures hot == if key !in old(hot) && key in warm then old(hot)[key := warm[key]] else old(hot)
    {
      if key in hot {
        return Some(hot[key]);
      }
      if key in warm {
        hot := hot[key := warm[key]];
        return Some(warm[key]);
      }
      return None;
    }

    method CacheInvalidate(key: string)
      modifies this`hot, this`warm
      ensures hot == old(hot) - {key} && warm == old(warm) - {key}
    {
      hot, warm := hot - {key}, warm - {key};
    }

    /** The cache may lose any entry at any time. */
    method Evict(key: string)
      requires Valid()
      modifies this`hot, this`warm
      ensures Valid() && key !in hot
    {
      hot, warm := hot - {key}, warm - {key};
    }

    // ----- values

    method StoreValue(key: string, value: StoredValue, storeType: StoreType, now: int)
      requires Valid() && clock <= now && storeType == TypeOf(value)
      modifies this
      ensures Valid() && clock == now && plain == old(plain)[key := value]
    {
      var hash := Hash(value);
      blobs := blobs[hash := value];
      index := index[key := IndexEntry(hash, storeType)];
      hot := hot[key := value];
      plain := plain[key := value];
      clock := now;
    }

    method Delete(key: string, now: int)
      requires Valid() && clock <= now
      modifies this
      ensures Refines(Command.Delete(key), now, Done(true))
    {
      index := index - {key};
      CacheInvalidate(key);
      plain := plain - {key};
      clock := now;
    }

    /** Lazy expiry: an expired value is dropped from index and cache, which the plain map does not notice. */
    method DropExpired(key: string, now: int)
      requires Valid() && clock <= now && key in plain && IsExpired(plain[key], now)
      modifies this
      ensures Valid() && clock == now && plain == old(plain) && index == old(index) - {key}
    {
      index := index - {key};
      CacheInvalidate(key);
      clock := now;
    }

    method GetValue(key: string, now: int) returns (r: Option<StoredValue>)
      requires Valid() && clock <= now
      modifies this
      ensures Valid() && clock == now && plain == old(plain) && r == Live(plain, key, now)
      ensures index == if r.None? then old(index) - {key} else old(index)
    {
      var cached := CacheGet(key);
      if cached.Some? {
        if IsExpired(cached.value, now) {
          DropExpired(key, now);
          return None;
        }
        clock := now;
        return cached;
      }
      if key !in index {
        clock := now;
        return None;
      }
      var value := blobs[index[key].hash];
      if IsExpired(value, now) {
        DropExpired(key, now);
        return None;
      }
      hot := hot[key := value];
      clock := now;
      return Some(value);
    }

    /** Looks at the index only; it agrees with a read at the same time exactly unless an expired value is indexed. */
    method Exists(key: string, ghost now: int) returns (r: bool)
      requires Valid() && clock <= now
      ensures r <==> key in index
      ensures (r <==> Live(plain, key, now).Some?) <==> !(key in index && IsExpired(plain[key], now))
      ensures r ==> key in plain
    {
      r := key in index;
    }

    // ----- writers

    method SetString(key: string, value: string, metadata: Option<Signature>, ttlSeconds: Option<nat>, now: int)
      requires Valid() && clock <= now
      modifies this
      ensures Refines(Command.SetString(key, value, metadata, ttlSeconds), now, Done(true))
    {
      var ttl := if ttlSeconds.Some? then Some(NewTtl(now, ttlSeconds.value)) else None;
      StoreValue(key, StringValue(value, metadata, ttl), StringType, now);
    }

    /** The shape shared by all collection writers: read, check the variant or start afresh, add, store. */
    method WriteItem(key: string, item: Item, metadata: Option<Signature>, ttlSeconds: Option<nat>, now: int)
      returns (r: Response)
      requires Valid() && clock <= now
      modifies this
      ensures Refines(Command.Write(key, item, metadata, ttlSeconds), now, r)
    {
      hide Valid, Empty, Add, NewerMetadata, IsExpired, TypeOf, NewTtl;
      var live := GetValue(key, now);
      var value: StoredValue;
      if live.None? {
        var ttl := if ttlSeconds.Some? then Some(NewTtl(now, ttlSeconds.value)) else None;
        value := Empty(item, metadata, ttl);
        EmptyType(item, metadata, ttl);
      } else if TypeOf(live.value) == ItemType(item) {
        value := live.value;
      } else {
        return WrongType;
      }
      value := NewerMetadata(Add(value, item), metadata);
      StoreValue(key, value, ItemType(item), now);
      return Done(true);
    }

    /** Removes a key from cache and index. */
    method Remove(key: string)
      requires Valid()
      modifies this
      ensures Valid() && clock == old(clock) && plain == old(plain) - {key}
    {
      CacheInvalidate(key);
      index := index - {key};
      plain := plain - {key};
    }

    lemma LiveIsIndexed(k: string, now: int)
      requires Valid() && clock <= now
      ensures Live(plain, k, now).Some? ==> k in index
    {
    }

    method DeleteJsonById(prefix: string, id: string, now: int)
      requires Valid() && clock <= now
      modifies this
      ensures Valid() && clock == now && plain == old(plain) - SameId(old(plain), prefix, id, now)
    {
      hide Valid, SameId, Live, Without;
      ghost var before, all := plain, SameId(plain, prefix, id, now);
      var keys := set k | k in index && prefix <= k;
      forall k ensures k in all ==> k in keys {
        InSameId(plain, prefix, id, now, k);
        LiveIsIndexed(k, now);
      }
      var remaining := keys;
      Advance(now);
      WithoutNone(before, all, keys);
      while remaining != {}
        invariant Valid() && clock == now && remaining <= keys
        invariant plain == Without(before, all, remaining)
        decreases |remaining|
      {
        var k :| k in remaining;
        InSameId(before, prefix, id, now, k);
        WithoutOneMore(before, all, remaining, k);
        SameKeySameLive(plain, before, k, now);
        var value := GetValue(k, now);
        if value.Some? && value.value.JsonValue? && value.value.id == Some(id) {
          Remove(k);
        }
        remaining := remaining - {k};
      }
      WithoutAll(before, all);
    }

    method SetJson(key: string, data: string, id: Option<string>, metadata: Option<Signature>,
                   ttlSeconds: Option<nat>, now: int)
      requires Valid() && clock <= now
      modifies this
      ensures Refines(Command.SetJson(key, data, id, metadata, ttlSeconds), now, Done(true))
    {
      if id.Some? {
        DeleteJsonById(key, id.value, now);
      }
      var ttl := if ttlSeconds.Some? then Some(NewTtl(now, ttlSeconds.value)) else None;
      StoreValue(key, JsonValue(data, id, metadata, ttl), JsonType, now);
    }

    method SetKeyTtl(key: string, seconds: nat, now: int) returns (r: bool)
      requires Valid() && clock <= now
      modifies this
      ensures Refines(Command.SetTtl(key, seconds), now, Done(r))
    {
      var live := GetValue(key, now);
      if live.None? {
        return false;
      }
      var updated := live.value.(ttl := Some(NewTtl(now, seconds)));
      StoreValue(key, updated, TypeOf(updated), now);
      return true;
    }

    method PersistKey(key: string, now: int) returns (r: bool)
      requires Valid() && clock <= now
      modifies this
      ensures Refines(Command.Persist(key), now, Done(r))
    {
      var live := GetValue(key, now);
      if live.None? {
        return false;
      }
      var updated := live.value.(ttl := None);
      StoreValue(key, updated, TypeOf(updated), now);
      return true;
    }

    /** Eager expiry: the plain map does not notice it; afterwards exactly the live keys are indexed, and the result
        is the number of keys that left the index. */
    method CleanupExpiredKeys(now: int) returns (removed: nat)
      requires Valid() && clock <= now
      modifies this
      ensures Valid() && clock == now && plain == old(plain)
      ensures forall k :: k in index <==> Live(plain, k, now).Some?
      ensures index.Keys <= old(index.Keys) && removed == |old(index.Keys) - index.Keys|
    {
      hide Valid, Live;
      removed := 0;
      Advance(now);
      var remaining := index.Keys;
      while remaining != {}
        invariant Valid() && clock == now && plain == old(plain)
        invariant remaining <= index.Keys <= old(index.Keys)
        invariant forall k :: k in index && k !in remaining ==> Live(plain, k, now).Some?
        invariant removed == |old(index.Keys) - index.Keys|
        decreases |remaining|
      {
        var k :| k in remaining;
        ghost var before := index.Keys;
        var value := GetValue(k, now);
        if value.None? {
          removed := removed + 1;
        }
        OneFewer(old(index.Keys), before, k);
        remaining := remaining - {k};
      }
      forall k | Live(plain, k, now).Some? ensures k in index {
        LiveIsIndexed(k, now);
      }
    }

    // ----- runs

    /** Dispatches one command. */
    method Perform(c: Command, now: int) returns (r: Response)
      requires Valid() && clock <= now
      modifies this
      ensures Refines(c, now, r)
    {
      hide Valid;
      match c
      case Get(key) =>
        var live := GetValue(key, now);
        r := Found(live);
      case SetString(key, value, metadata, ttlSeconds) =>
        SetString(key, value, metadata, ttlSeconds, now);
        r := Done(true);
      case SetJson(key, data, id, metadata, ttlSeconds) =>
        SetJson(key, data, id, metadata, ttlSeconds, now);
        r := Done(true);
      case Write(key, item, metadata, ttlSeconds) =>
        r := WriteItem(key, item, metadata, ttlSeconds, now);
      case Delete(key) =>
        Delete(key, now);
        r := Done(true);
      case SetTtl(key, seconds) =>
        var ok := SetKeyTtl(key, seconds, now);
        r := Done(ok);
      case Persist(key) =>
        var ok := PersistKey(key, now);
        r := Done(ok);
    }

    /** Whatever the cache loses and whenever a cleanup runs, a run answers and leaves behind what the plain map
        does. */
    method Execute(events: seq<StoreEvent>) returns (responses: seq<Response>)
      requires Valid() && EventsInOrder(events, clock)
      modifies this
      ensures Valid() && clock >= old(clock)
      ensures responses == Responses(old(plain), Commands(events)) && plain == Final(old(plain), Commands(events))
    {
      hide Valid, Step;
      responses := [];
      for i := 0 to |events|
        invariant Valid() && clock >= old(clock) && EventsInOrder(events[i..], clock)
        invariant Responses(old(plain), Commands(events)) == responses + Responses(plain, Commands(events[i..]))
        invariant Final(old(plain), Commands(events)) == Final(plain, Commands(events[i..]))
      {
        assert events[i..][0] == events[i] && events[i..][1..] == events[i + 1..];
        match events[i]
        case Issue(c) =>
          RunsUnfold(plain, c, Commands(events[i + 1..]));
          var r := Perform(c.command, c.at);
          responses := responses + [r];
        case Evicts(key) =>
          Evict(key);
        case Cleanup(at) =>
          var removed := CleanupExpiredKeys(at);
      }
      assert events[|events|..] == [];
    }
  }

  lemma EmptyType(item: Item, metadata: Option<Signature>, ttl: Option<Ttl>)
    ensures TypeOf(Empty(item, metadata, ttl)) == ItemType(item)
  {
  }

  /** The map without those of the keys in `all` that do not remain. */
  ghost function Without(m: Plain, all: set<string>, remaining: set<string>): Plain {
    m - (all - remaining)
  }

  lemma WithoutNone(m: Plain, all: set<string>, keys: set<string>)
    requires all <= keys
    ensures Without(m, all, keys) == m
  {
  }

  lemma WithoutAll(m: Plain, all: set<string>)
    ensures Without(m, all, {}) == m - all
  {
  }

  lemma WithoutOneMore(m: Plain, all: set<string>, remaining: set<string>, k: string)
    requires k in remaining
    ensures Without(m, all, remaining - {k}) == if k in all then Without(m, all, remaining) - {k}
                                                else Without(m, all, remaining)
    ensures k in Without(m, all, remaining) <==> k in m
    ensures k in m ==> Without(m, all, remaining)[k] == m[k]
  {
  }

  lemma SameKeySameLive(m: Plain, n: Plain, k: string, now: int)
    ensures (k in m <==> k in n) && (k in m ==> m[k] == n[k]) ==> Live(m, k, now) == Live(n, k, now)
  {
  }

  lemma InSameId(m: Plain, prefix: string, id: string, now: int, k: string)
    ensures k in SameId(m, prefix, id, now) <==>
      prefix <= k && Live(m, k, now).Some? && Live(m, k, now).value.JsonValue? && Live(m, k, now).value.id == Some(id)
  {
  }

  lemma OneFewer(all: set<string>, keys: set<string>, k: string)
    requires keys <= all && k in keys
    ensures |all - (keys - {k})| == |all - keys| + 1
  {
  }

  /** A store in which a value has expired: it is present, and a read at the same time finds nothing. */
  method ExpiredIsPresent(key: string, value: string) returns (present: bool, read: Option<StoredValue>)
    ensures present && read == None
  {
    hide BlobStorage.Valid;
    var store := new BlobStorage(0);
    store.SetString(key, value, None, Some(0), 0);
    assert store.plain == map[key := StringValue(value, None, Some(NewTtl(0, 0)))];
    assert IsExpired(store.plain[key], 1) && !IsExpired(store.plain[key], 0);
    store.LiveIsIndexed(key, 0);
    store.Advance(1);
    present := store.Exists(key, 1);
    read := store.GetValue(key, 1);
  }

  /** No resurrection in the store's own runs: after a collection has expired, what is found in it when a run has ended
      was written by a command of the run. */
  lemma RunFindsOnlyWritten(m: Plain, key: string, events: seq<StoreEvent>, now: int, item: Item, t: int)
    requires key in m && IsExpired(m[key], now) && EventsInOrder(events, now) && now <= t
    requires forall i :: 0 <= i < |events| && events[i].Issue? ==> events[i].command.at <= t
    requires var after := Live(Final(m, Commands(events)), key, t); after.Some? && Holds(after.value, item)
    ensures exists i :: 0 <= i < |events| && events[i].Issue? && events[i].command.command.Write?
                        && events[i].command.command.key == key && events[i].command.command.item == item
  {
    var cs := Commands(events);
    CommandsInOrder(events, now);
    forall k | 0 <= k < |cs| ensures cs[k].at <= t {
      var i := CommandIssued(events, k);
    }
    NoResurrection(m, key, cs, now, item, t);
    var k :| 0 <= k < |cs| && cs[k].command.Write? && cs[k].command.key == key && cs[k].command.item == item;
    var i := CommandIssued(events, k);
  }

  lemma {:induction false} CommandIssued(events: seq<StoreEvent>, k: nat) returns (i: nat)
    requires k < |Commands(events)|
    ensures i < |events| && events[i] == Issue(Commands(events)[k])
  {
    if events[0].Issue? && k == 0 {
      i := 0;
    } else {
      i := CommandIssued(events[1..], if events[0].Issue? then k - 1 else k);
      i := i + 1;
    }
  }
}
