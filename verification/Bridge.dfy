/** One node's MQTT bridge (src/mqtt_bridge.rs): the two arms of its event loop and the payload deduplication they
    share. Payloads are the text that the dedup key is formatted from; the clock is passed in and never goes back. */
module Bridge {

  const DEDUP_WINDOW_SECS := 300
  const RECENT_MESSAGE_TTL_MS := 30000

  datatype Origin = FromMqtt | FromGossip

  datatype Message = Message(topic: string, payload: string)

  /** A dedup key together with the second it was accepted in. */
  datatype Pass = Pass(key: string, time: nat)

  datatype Published = Published(key: string, expiry: nat)

  datatype State = State(seen: seq<Pass>, recent: set<string>, recentQueue: seq<Published>)

  function MessageHash(m: Message): string { m.topic + ":" + m.payload }

  predicate InWindow(p: Pass, now: nat) { now - p.time <= DEDUP_WINDOW_SECS }

  function DropOld(seen: seq<Pass>, now: nat): seq<Pass> {
    if seen != [] && !InWindow(seen[0], now) then DropOld(seen[1..], now) else seen
  }

  predicate HasKey(seen: seq<Pass>, key: string) {
    exists i :: 0 <= i < |seen| && seen[i].key == key
  }

  /** The deduplication test: forgets old entries, and remembers the key unless it is still known. */
  function CheckDuplicate(s: State, key: string, now: nat): (State, bool) {
    var kept := DropOld(s.seen, now);
    if HasKey(kept, key) then (s.(seen := kept), true)
    else (s.(seen := kept + [Pass(key, now)]), false)
  }

  function Purge(recent: set<string>, queue: seq<Published>, nowMs: nat): (set<string>, seq<Published>)
    decreases |queue|
  {
    if queue != [] && queue[0].expiry <= nowMs then Purge(recent - {queue[0].key}, queue[1..], nowMs)
    else (recent, queue)
  }

  /** A message from the broker: forward it to gossip or drop it. */
  function OnMqttPublish(s: State, m: Message, nowMs: nat): (State, bool) {
    var (checked, duplicate) := CheckDuplicate(s, MessageHash(m), nowMs / 1000);
    (checked, !duplicate && MessageHash(m) !in checked.recent)
  }

  /** A message from gossip: publish it to the broker or drop it; `ok` says whether the broker took it. */
  function OnGossipMessage(s: State, m: Message, origin: Origin, nowMs: nat, ok: bool): (State, bool) {
    if origin.FromMqtt? then (s, false)
    else
      var key := MessageHash(m);
      var (checked, duplicate) := CheckDuplicate(s, key, nowMs / 1000);
      if duplicate || !ok then (checked, !duplicate)
      else
        var queue := checked.recentQueue + [Published(key, nowMs + RECENT_MESSAGE_TTL_MS)];
        var (recent, rest) := Purge(checked.recent + {key}, queue, nowMs);
        (checked.(recent := recent, recentQueue := rest), true)
  }

  class MqttBridge {
    var seenPayloads: seq<Pass>
    var recentlyPublished: set<string>
    var recentlyPublishedQueue: seq<Published>

    function GetState(): State
      reads this
    {
      State(seenPayloads, recentlyPublished, recentlyPublishedQueue)
    }

    constructor ()
      ensures GetState() == State([], {}, [])
    {
      seenPayloads, recentlyPublished, recentlyPublishedQueue := [], {}, [];
    }

    method IsDuplicate(m: Message, now: nat) returns (duplicate: bool)
      modifies this`seenPayloads
      ensures (GetState(), duplicate) == CheckDuplicate(old(GetState()), MessageHash(m), now)
    {
      var key := MessageHash(m);
      while seenPayloads != [] && now - seenPayloads[0].time > DEDUP_WINDOW_SECS
        invariant DropOld(seenPayloads, now) == DropOld(old(seenPayloads), now)
        decreases |seenPayloads|
      {
        seenPayloads := seenPayloads[1..];
      }
      duplicate := HasKey(seenPayloads, key);
      if !duplicate {
        seenPayloads := seenPayloads + [Pass(key, now)];
      }
    }

    method PurgeExpired(nowMs: nat)
      modifies this`recentlyPublished, this`recentlyPublishedQueue
      ensures (recentlyPublished, recentlyPublishedQueue) ==
              Purge(old(recentlyPublished), old(recentlyPublishedQueue), nowMs)
    {
      while recentlyPublishedQueue != [] && recentlyPublishedQueue[0].expiry <= nowMs
        invariant Purge(recentlyPublished, recentlyPublishedQueue, nowMs)
               == Purge(old(recentlyPublished), old(recentlyPublishedQueue), nowMs)
        decreases |recentlyPublishedQueue|
      {
        recentlyPublished := recentlyPublished - {recentlyPublishedQueue[0].key};
        recentlyPublishedQueue := recentlyPublishedQueue[1..];
      }
    }

    method HandleMqttPublish(m: Message, nowMs: nat) returns (forward: bool)
      modifies this
      ensures (GetState(), forward) == OnMqttPublish(old(GetState()), m, nowMs)
    {
      var duplicate := IsDuplicate(m, nowMs / 1000);
      if duplicate {
        return false;
      }
      forward := MessageHash(m) !in recentlyPublished;
    }

    method HandleGossipMessage(m: Message, origin: Origin, nowMs: nat, ok: bool) returns (publish: bool)
      modifies this
      ensures (GetState(), publish) == OnGossipMessage(old(GetState()), m, origin, nowMs, ok)
    {
      if origin.FromMqtt? {
        return false;
      }
      var duplicate := IsDuplicate(m, nowMs / 1000);
      if duplicate {
        return false;
      }
      publish := true;
      if ok {
        var key := MessageHash(m);
        recentlyPublished := recentlyPublished + {key};
        recentlyPublishedQueue := recentlyPublishedQueue + [Published(key, nowMs + RECENT_MESSAGE_TTL_MS)];
        PurgeExpired(nowMs);
      }
    }
  }

  // ----- the deque is the history

  ghost predicate InOrder(s: seq<Pass>, now: nat) {
    && (forall i, j :: 0 <= i < j < |s| ==> s[i].time <= s[j].time)
    && (forall i :: 0 <= i < |s| ==> s[i].time <= now)
  }

  /** Two passes of one key are more than a window apart. */
  ghost predicate Spaced(passes: seq<Pass>) {
    forall i, j :: 0 <= i < j < |passes| && passes[i].key == passes[j].key ==>
      passes[j].time - passes[i].time > DEDUP_WINDOW_SECS
  }

  /** `seen` is a suffix of the full history of passes, and holds at least the part inside the window. */
  ghost predicate Remembers(seen: seq<Pass>, passes: seq<Pass>, now: nat) {
    && InOrder(passes, now) && Spaced(passes)
    && |seen| <= |passes| && seen == passes[|passes| - |seen|..]
    && forall i :: 0 <= i < |passes| - |seen| ==> !InWindow(passes[i], now)
  }

  lemma {:induction false} DropOldRemembers(seen: seq<Pass>, passes: seq<Pass>, now: nat)
    requires Remembers(seen, passes, now)
    ensures Remembers(DropOld(seen, now), passes, now)
    ensures forall p :: p in DropOld(seen, now) ==> InWindow(p, now)
    decreases |seen|
  {
    var gone := |passes| - |seen|;
    if seen != [] && !InWindow(seen[0], now) {
      assert seen[0] == passes[gone];
      assert seen[1..] == passes[gone + 1..];
      DropOldRemembers(seen[1..], passes, now);
    } else {
      forall p | p in seen ensures InWindow(p, now) {
        var i :| 0 <= i < |seen| && seen[i] == p;
        assert seen[0] == passes[gone] && seen[i] == passes[gone + i];
      }
    }
  }

  /** The key passed within the last window. */
  ghost predicate PassedRecently(passes: seq<Pass>, key: string, now: nat) {
    exists i :: 0 <= i < |passes| && passes[i].key == key && InWindow(passes[i], now)
  }

  /** The history after one more dedup test. */
  ghost function Record(passes: seq<Pass>, key: string, now: nat, duplicate: bool): seq<Pass> {
    if duplicate then passes else passes + [Pass(key, now)]
  }

  lemma KeptIffPassedRecently(passes: seq<Pass>, kept: seq<Pass>, key: string, now: nat)
    requires Remembers(kept, passes, now) && forall p :: p in kept ==> InWindow(p, now)
    ensures HasKey(kept, key) <==> PassedRecently(passes, key, now)
  {
  }

  lemma RemembersNew(passes: seq<Pass>, kept: seq<Pass>, key: string, now: nat)
    requires Remembers(kept, passes, now) && !PassedRecently(passes, key, now)
    ensures Remembers(kept + [Pass(key, now)], passes + [Pass(key, now)], now)
  {
  }

  /** The dedup test answers "duplicate" exactly for keys that passed within the window, whatever happened before,
      and so keeps passes of one key more than a window apart. */
  lemma CheckDuplicateIsHistory(s: State, passes: seq<Pass>, key: string, now: nat)
    requires Remembers(s.seen, passes, now)
    ensures CheckDuplicate(s, key, now).1 <==> PassedRecently(passes, key, now)
    ensures Remembers(CheckDuplicate(s, key, now).0.seen,
                      Record(passes, key, now, CheckDuplicate(s, key, now).1), now)
  {
    hide Remembers;
    var kept := DropOld(s.seen, now);
    DropOldRemembers(s.seen, passes, now);
    KeptIffPassedRecently(passes, kept, key, now);
    if !HasKey(kept, key) {
      RemembersNew(passes, kept, key, now);
    }
  }

  // ----- the key

  lemma SharedKeyNests(a: Message, b: Message)
    requires MessageHash(a) == MessageHash(b) && |a.topic| < |b.topic|
    ensures a.topic + ":" <= b.topic
  {
    var h := MessageHash(a);
    assert h[..|a.topic|] == a.topic && h[|a.topic|] == ':' && h[..|b.topic|] == b.topic;
  }

  lemma SharedKeySameTopic(a: Message, b: Message)
    requires MessageHash(a) == MessageHash(b) && |a.topic| == |b.topic|
    ensures a == b
  {
    var h := MessageHash(a);
    assert h[..|a.topic|] == a.topic == b.topic;
    assert h[|a.topic| + 1..] == a.payload == b.payload;
  }

  /** No two different messages on the two topics have the same key. */
  ghost predicate KeysSeparate(s: string, t: string) {
    forall p, q :: MessageHash(Message(s, p)) == MessageHash(Message(t, q)) ==> Message(s, p) == Message(t, q)
  }

  /** The keys of two topics are separate exactly when neither topic, with a colon, is a prefix of the other. */
  lemma KeysSeparateExactly(s: string, t: string)
    ensures KeysSeparate(s, t) <==> !(s + ":" <= t) && !(t + ":" <= s)
  {
    if s + ":" <= t {
      PrefixSharesKey(s, t);
    } else if t + ":" <= s {
      PrefixSharesKey(t, s);
    } else {
      forall p, q | MessageHash(Message(s, p)) == MessageHash(Message(t, q))
        ensures Message(s, p) == Message(t, q)
      {
        if |s| < |t| {
          SharedKeyNests(Message(s, p), Message(t, q));
        } else if |t| < |s| {
          SharedKeyNests(Message(t, q), Message(s, p));
        } else {
          SharedKeySameTopic(Message(s, p), Message(t, q));
        }
      }
    }
  }

  lemma PrefixSharesKey(s: string, t: string)
    requires s + ":" <= t
    ensures !KeysSeparate(s, t) && !KeysSeparate(t, s)
  {
    var rest := t[|s| + 1..];
    assert t == s + ":" + rest;
    assert MessageHash(Message(s, rest + ":")) == MessageHash(Message(t, ""));
  }

  /** In particular the key separates all messages whose topics have no colon. */
  lemma HashInjective(a: Message, b: Message)
    requires ':' !in a.topic && ':' !in b.topic && MessageHash(a) == MessageHash(b)
    ensures a == b
  {
    assert (a.topic + ":")[|a.topic|] == ':' && (b.topic + ":")[|b.topic|] == ':';
    KeysSeparateExactly(a.topic, b.topic);
    assert a == Message(a.topic, a.payload) && b == Message(b.topic, b.payload);
  }

  /** With colons in topics, two different messages can share a key, and the second is dropped as a duplicate. */
  lemma HashCollision(nowMs: nat)
    ensures var a, b := Message("a", "b:c"), Message("a:b", "c");
            a != b && !OnMqttPublish(OnMqttPublish(State([], {}, []), a, nowMs).0, b, nowMs).1
  {
  }

  // ----- the recently published set is the history of publications

  datatype Publication = Publication(key: string, time: nat)

  /** Publication `h` is purged by publication `j`, the first one that comes its time to live or more after it. */
  ghost predicate PurgedBy(pubs: seq<Publication>, h: int, j: int) {
    && 0 <= h < j < |pubs| && pubs[j].time >= pubs[h].time + RECENT_MESSAGE_TTL_MS
    && forall l :: h < l < j ==> pubs[l].time < pubs[h].time + RECENT_MESSAGE_TTL_MS
  }

  /** The key was published, and neither by that publication nor since has any publication of the key been purged. */
  ghost predicate Protected(pubs: seq<Publication>, key: string) {
    exists i :: 0 <= i < |pubs| && pubs[i].key == key && Unpurged(pubs, key, i)
  }

  ghost predicate Unpurged(pubs: seq<Publication>, key: string, i: int) {
    forall h, j :: i <= j && PurgedBy(pubs, h, j) ==> pubs[h].key != key
  }

  ghost predicate TimeOrdered(pubs: seq<Publication>, nowMs: nat) {
    && (forall i, j :: 0 <= i < j < |pubs| ==> pubs[i].time <= pubs[j].time)
    && (forall i :: 0 <= i < |pubs| ==> pubs[i].time <= nowMs)
  }

  /** The queue holds exactly the publications that the last one has not outlived. */
  ghost predicate Queued(queue: seq<Published>, pubs: seq<Publication>) {
    && |queue| <= |pubs|
    && (forall i :: 0 <= i < |queue| ==>
          var pub := pubs[|pubs| - |queue| + i];
          queue[i] == Published(pub.key, pub.time + RECENT_MESSAGE_TTL_MS))
    && (forall i :: 0 <= i < |pubs| ==>
          (pubs[|pubs| - 1].time >= pubs[i].time + RECENT_MESSAGE_TTL_MS <==> i < |pubs| - |queue|))
  }

  /** Queue and set are what the publications up to now make them. */
  ghost predicate Recalls(recent: set<string>, queue: seq<Published>, pubs: seq<Publication>, nowMs: nat) {
    && TimeOrdered(pubs, nowMs) && Queued(queue, pubs)
    && forall key :: key in recent <==> Protected(pubs, key)
  }

  ghost predicate ExpiriesOrdered(queue: seq<Published>) {
    forall i, j :: 0 <= i < j < |queue| ==> queue[i].expiry <= queue[j].expiry
  }

  lemma {:induction false} PurgeExact(recent: set<string>, queue: seq<Published>, nowMs: nat) returns (n: nat)
    requires ExpiriesOrdered(queue)
    ensures n <= |queue| && Purge(recent, queue, nowMs).1 == queue[n..]
    ensures forall i :: 0 <= i < |queue| ==> (i < n <==> queue[i].expiry <= nowMs)
    ensures forall key ::
      key in Purge(recent, queue, nowMs).0 <==> key in recent && (forall i :: 0 <= i < n ==> queue[i].key != key)
    decreases |queue|
  {
    n := 0;
    if queue != [] && queue[0].expiry <= nowMs {
      assert forall i :: 0 <= i < |queue[1..]| ==> queue[1..][i] == queue[i + 1];
      n := PurgeExact(recent - {queue[0].key}, queue[1..], nowMs);
      n := n + 1;
      assert forall i :: 0 < i < n ==> queue[i] == queue[1..][i - 1];
    }
  }

  lemma PurgedByOld(pubs: seq<Publication>, p: Publication, h: int, j: int)
    requires j < |pubs|
    ensures PurgedBy(pubs + [p], h, j) <==> PurgedBy(pubs, h, j)
  {
    assert forall l :: 0 <= l < |pubs| ==> (pubs + [p])[l] == pubs[l];
  }

  /** The new publication purges exactly the queued ones that have outlived their time. */
  lemma PurgedByNew(queue: seq<Published>, pubs: seq<Publication>, p: Publication, h: int)
    requires Queued(queue, pubs) && TimeOrdered(pubs, p.time)
    ensures PurgedBy(pubs + [p], h, |pubs|) <==>
      |pubs| - |queue| <= h < |pubs| && p.time >= pubs[h].time + RECENT_MESSAGE_TTL_MS
  {
    var all, last := pubs + [p], |pubs| - 1;
    assert all[|pubs|] == p && forall l :: 0 <= l < |pubs| ==> all[l] == pubs[l];
    if |pubs| - |queue| <= h < |pubs| {
      assert forall l :: h < l < |pubs| ==> pubs[l].time <= pubs[last].time;
    } else if 0 <= h < |pubs| {
      assert pubs[last].time >= pubs[h].time + RECENT_MESSAGE_TTL_MS && h < last;
    }
  }

  lemma ProtectedAfter(pubs: seq<Publication>, p: Publication, key: string)
    ensures Protected(pubs + [p], key) <==>
      && (p.key == key || Protected(pubs, key))
      && forall h :: PurgedBy(pubs + [p], h, |pubs|) ==> (pubs + [p])[h].key != key
  {
    var all, n := pubs + [p], |pubs|;
    forall h, j | j < n ensures PurgedBy(all, h, j) <==> PurgedBy(pubs, h, j) {
      PurgedByOld(pubs, p, h, j);
    }
    if Protected(all, key) {
      var i :| 0 <= i < |all| && all[i].key == key && Unpurged(all, key, i);
      if i < n {
        assert pubs[i].key == key && Unpurged(pubs, key, i);
      }
    }
    if forall h :: PurgedBy(all, h, n) ==> all[h].key != key {
      if p.key == key {
        assert all[n].key == key && Unpurged(all, key, n);
      } else if Protected(pubs, key) {
        var i :| 0 <= i < n && pubs[i].key == key && Unpurged(pubs, key, i);
        assert all[i].key == key && Unpurged(all, key, i);
      }
    }
  }

  function Pushed(queue: seq<Published>, p: Publication): seq<Published> {
    queue + [Published(p.key, p.time + RECENT_MESSAGE_TTL_MS)]
  }

  /** The queue before it is purged, entry by entry. */
  lemma PushedEntries(queue: seq<Published>, pubs: seq<Publication>, p: Publication)
    requires Queued(queue, pubs) && TimeOrdered(pubs, p.time)
    ensures ExpiriesOrdered(Pushed(queue, p))
    ensures forall i :: 0 <= i < |queue| + 1 ==>
      var pub := (pubs + [p])[|pubs| - |queue| + i];
      Pushed(queue, p)[i] == Published(pub.key, pub.time + RECENT_MESSAGE_TTL_MS)
  {
  }

  lemma QueuedIntro(queue: seq<Published>, pubs: seq<Publication>, gone: nat)
    requires gone + |queue| == |pubs|
    requires forall i :: 0 <= i < |queue| ==>
      queue[i] == Published(pubs[gone + i].key, pubs[gone + i].time + RECENT_MESSAGE_TTL_MS)
    requires forall i :: 0 <= i < |pubs| ==>
      (pubs[|pubs| - 1].time >= pubs[i].time + RECENT_MESSAGE_TTL_MS <==> i < gone)
    ensures Queued(queue, pubs)
  {
  }

  lemma Outlived(queue: seq<Published>, pubs: seq<Publication>, p: Publication, n: nat, i: nat)
    requires Queued(queue, pubs) && TimeOrdered(pubs, p.time) && n <= |queue| + 1 && i < |pubs| + 1
    requires forall i :: 0 <= i < |queue| + 1 ==> (i < n <==> Pushed(queue, p)[i].expiry <= p.time)
    ensures p.time >= (pubs + [p])[i].time + RECENT_MESSAGE_TTL_MS <==> i < |pubs| - |queue| + n
  {
    var all, gone := pubs + [p], |pubs| - |queue|;
    if i < gone {
      assert pubs[|pubs| - 1].time >= pubs[i].time + RECENT_MESSAGE_TTL_MS && pubs[|pubs| - 1].time <= p.time;
    } else {
      PushedEntries(queue, pubs, p);
      assert Pushed(queue, p)[i - gone].expiry == all[gone + (i - gone)].time + RECENT_MESSAGE_TTL_MS;
    }
  }

  lemma QueuedAfter(queue: seq<Published>, pubs: seq<Publication>, p: Publication, n: nat)
    requires Queued(queue, pubs) && TimeOrdered(pubs, p.time) && n <= |queue| + 1
    requires forall i :: 0 <= i < |queue| + 1 ==> (i < n <==> Pushed(queue, p)[i].expiry <= p.time)
    ensures Queued(Pushed(queue, p)[n..], pubs + [p])
  {
    var all, full, gone := pubs + [p], Pushed(queue, p), |pubs| - |queue|;
    forall i | 0 <= i < |all| ensures p.time >= all[i].time + RECENT_MESSAGE_TTL_MS <==> i < gone + n {
      Outlived(queue, pubs, p, n, i);
    }
    PushedEntries(queue, pubs, p);
    assert |full| == |queue| + 1 && gone >= 0;
    hide Queued, TimeOrdered, Pushed, ExpiriesOrdered;
    forall i | 0 <= i < |full[n..]|
      ensures full[n..][i] == Published(all[gone + n + i].key, all[gone + n + i].time + RECENT_MESSAGE_TTL_MS)
    {
      assert full[n..][i] == full[n + i];
    }
    QueuedIntro(full[n..], all, gone + n);
  }

  lemma PublishRecalls(recent: set<string>, queue: seq<Published>, pubs: seq<Publication>, nowMs: nat,
                       p: Publication)
    requires Recalls(recent, queue, pubs, nowMs) && nowMs <= p.time
    ensures var (r, q) := Purge(recent + {p.key}, Pushed(queue, p), p.time); Recalls(r, q, pubs + [p], p.time)
  {
    assert TimeOrdered(pubs + [p], p.time) && TimeOrdered(pubs, p.time);
    assert forall key :: key in recent <==> Protected(pubs, key);
    hide Recalls, TimeOrdered, Protected;
    PushedEntries(queue, pubs, p);
    var n := PurgeExact(recent + {p.key}, Pushed(queue, p), p.time);
    QueuedAfter(queue, pubs, p, n);
    forall key ensures key in Purge(recent + {p.key}, Pushed(queue, p), p.time).0 <==> Protected(pubs + [p], key) {
      ProtectedAfter(pubs, p, key);
      PurgedKeys(queue, pubs, p, n, key);
    }
    RecallsIntro(Purge(recent + {p.key}, Pushed(queue, p), p.time).0, Pushed(queue, p)[n..], pubs + [p], p.time);
  }

  lemma RecallsIntro(recent: set<string>, queue: seq<Published>, pubs: seq<Publication>, nowMs: nat)
    requires TimeOrdered(pubs, nowMs) && Queued(queue, pubs) && forall key :: key in recent <==> Protected(pubs, key)
    ensures Recalls(recent, queue, pubs, nowMs)
  {
  }

  lemma PurgedRange(queue: seq<Published>, pubs: seq<Publication>, p: Publication, n: nat, h: int)
    requires Queued(queue, pubs) && TimeOrdered(pubs, p.time) && n <= |queue| + 1
    requires forall i :: 0 <= i < |queue| + 1 ==> (i < n <==> Pushed(queue, p)[i].expiry <= p.time)
    ensures PurgedBy(pubs + [p], h, |pubs|) <==> |pubs| - |queue| <= h < |pubs| - |queue| + n
  {
    PurgedByNew(queue, pubs, p, h);
    PushedEntries(queue, pubs, p);
    var full, gone := Pushed(queue, p), |pubs| - |queue|;
    assert full[|queue|].expiry > p.time && n <= |queue|;
    hide PurgedBy, TimeOrdered, Queued;
    if gone <= h < |pubs| {
      assert full[h - gone].expiry == (pubs + [p])[gone + (h - gone)].time + RECENT_MESSAGE_TTL_MS;
    }
  }

  lemma PurgedKeys(queue: seq<Published>, pubs: seq<Publication>, p: Publication, n: nat, key: string)
    requires Queued(queue, pubs) && TimeOrdered(pubs, p.time) && n <= |queue| + 1
    requires forall i :: 0 <= i < |queue| + 1 ==> (i < n <==> Pushed(queue, p)[i].expiry <= p.time)
    ensures (forall i :: 0 <= i < n ==> Pushed(queue, p)[i].key != key) <==>
      forall h :: PurgedBy(pubs + [p], h, |pubs|) ==> (pubs + [p])[h].key != key
  {
    PushedEntries(queue, pubs, p);
    var all, full, gone := pubs + [p], Pushed(queue, p), |pubs| - |queue|;
    assert 0 <= gone && gone + n <= |all| && n <= |full|;
    forall h ensures PurgedBy(all, h, |pubs|) <==> gone <= h < gone + n {
      PurgedRange(queue, pubs, p, n, h);
    }
    hide Queued, TimeOrdered, Pushed, PurgedBy, ExpiriesOrdered;
    assert forall i :: 0 <= i < n ==> full[i].key == all[gone + i].key;
    assert forall h :: gone <= h < gone + n ==> full[h - gone].key == all[h].key;
  }

  // ----- one bridge over its whole life

  /** What arrives at a bridge: a message from the broker, or one from gossip that the broker takes or not. */
  datatype Arrival =
    | FromBroker(m: Message, at: nat)
    | Gossiped(m: Message, at: nat, origin: Origin, ok: bool)

  function After(s: State, a: Arrival): State {
    match a
    case FromBroker(m, at) => OnMqttPublish(s, m, at).0
    case Gossiped(m, at, origin, ok) => OnGossipMessage(s, m, origin, at, ok).0
  }

  ghost function Replay(h: seq<Arrival>): State {
    if h == [] then State([], {}, []) else After(Replay(h[..|h| - 1]), h[|h| - 1])
  }

  /** An arrival passes unless it carries the mark of the broker side or its key has passed within the window. */
  ghost predicate PassesNow(passes: seq<Pass>, a: Arrival) {
    !(a.Gossiped? && a.origin.FromMqtt?) && !PassedRecently(passes, MessageHash(a.m), a.at / 1000)
  }

  ghost function PassesAfter(passes: seq<Pass>, a: Arrival): seq<Pass> {
    if PassesNow(passes, a) then passes + [Pass(MessageHash(a.m), a.at / 1000)] else passes
  }

  /** A message from gossip that passes is published if the broker takes it. */
  ghost function PublicationsAfter(passes: seq<Pass>, pubs: seq<Publication>, a: Arrival): seq<Publication> {
    if a.Gossiped? && a.ok && PassesNow(passes, a) then pubs + [Publication(MessageHash(a.m), a.at)] else pubs
  }

  /** The passes of a history, by the arrivals alone. */
  ghost function Passes(h: seq<Arrival>): seq<Pass> {
    if h == [] then [] else PassesAfter(Passes(h[..|h| - 1]), h[|h| - 1])
  }

  /** The publications of a history, by the arrivals alone. */
  ghost function Publications(h: seq<Arrival>): seq<Publication> {
    if h == [] then [] else PublicationsAfter(Passes(h[..|h| - 1]), Publications(h[..|h| - 1]), h[|h| - 1])
  }

  ghost predicate Chronological(h: seq<Arrival>, nowMs: nat) {
    && (forall i, j :: 0 <= i < j < |h| ==> h[i].at <= h[j].at)
    && (forall i :: 0 <= i < |h| ==> h[i].at <= nowMs)
  }

  lemma RemembersLater(seen: seq<Pass>, passes: seq<Pass>, now: nat, later: nat)
    requires Remembers(seen, passes, now) && now <= later
    ensures Remembers(seen, passes, later)
  {
  }

  lemma RecallsLater(s: State, pubs: seq<Publication>, nowMs: nat, later: nat)
    requires Recalls(s.recent, s.recentQueue, pubs, nowMs) && nowMs <= later
    ensures Recalls(s.recent, s.recentQueue, pubs, later)
  {
  }

  lemma BrokerExplained(s: State, passes: seq<Pass>, m: Message, at: nat)
    requires Remembers(s.seen, passes, at / 1000)
    ensures Remembers(OnMqttPublish(s, m, at).0.seen, PassesAfter(passes, FromBroker(m, at)), at / 1000)
    ensures OnMqttPublish(s, m, at).0.recent == s.recent && OnMqttPublish(s, m, at).0.recentQueue == s.recentQueue
  {
    hide Remembers, DropOld, HasKey, PassedRecently, MessageHash;
    CheckDuplicateIsHistory(s, passes, MessageHash(m), at / 1000);
  }

  lemma GossipExplained(s: State, passes: seq<Pass>, pubs: seq<Publication>, a: Arrival)
    requires a.Gossiped?
    requires Remembers(s.seen, passes, a.at / 1000) && Recalls(s.recent, s.recentQueue, pubs, a.at)
    ensures Remembers(After(s, a).seen, PassesAfter(passes, a), a.at / 1000)
    ensures Recalls(After(s, a).recent, After(s, a).recentQueue, PublicationsAfter(passes, pubs, a), a.at)
  {
    hide Recalls, Remembers, Purge, DropOld, HasKey, PassedRecently, MessageHash;
    var key := MessageHash(a.m);
    CheckDuplicateIsHistory(s, passes, key, a.at / 1000);
    PublishRecalls(s.recent, s.recentQueue, pubs, a.at, Publication(key, a.at));
  }

  lemma ArrivalExplained(s: State, passes: seq<Pass>, pubs: seq<Publication>, a: Arrival)
    requires Remembers(s.seen, passes, a.at / 1000) && Recalls(s.recent, s.recentQueue, pubs, a.at)
    ensures Remembers(After(s, a).seen, PassesAfter(passes, a), a.at / 1000)
    ensures Recalls(After(s, a).recent, After(s, a).recentQueue, PublicationsAfter(passes, pubs, a), a.at)
  {
    hide Recalls, Remembers, PassesAfter, OnMqttPublish, OnGossipMessage;
    match a
    case FromBroker(m, at) => BrokerExplained(s, passes, m, at);
    case Gossiped(_, _, _, _) => GossipExplained(s, passes, pubs, a);
  }

  /** Replaying the arrivals step by step gives what the histories of passes and publications say. */
  lemma {:induction false} HistoryExplains(h: seq<Arrival>, nowMs: nat)
    requires Chronological(h, nowMs)
    ensures Remembers(Replay(h).seen, Passes(h), nowMs / 1000)
    ensures Recalls(Replay(h).recent, Replay(h).recentQueue, Publications(h), nowMs)
  {
    if h != [] {
      var init, a := h[..|h| - 1], h[|h| - 1];
      HistoryExplains(init, a.at);
      ArrivalExplained(Replay(init), Passes(init), Publications(init), a);
      hide Recalls, Remembers, After, PassesAfter, PublicationsAfter;
      RecallsLater(Replay(h), Publications(h), a.at, nowMs);
      RemembersLater(Replay(h).seen, Passes(h), a.at / 1000, nowMs / 1000);
    }
  }

  lemma RecentIsProtected(s: State, pubs: seq<Publication>, nowMs: nat, key: string)
    requires Recalls(s.recent, s.recentQueue, pubs, nowMs)
    ensures key in s.recent <==> Protected(pubs, key)
  {
    hide TimeOrdered, Queued, Protected;
  }

  lemma ForwardsWhen(s: State, m: Message, nowMs: nat)
    ensures OnMqttPublish(s, m, nowMs).1 <==>
      !CheckDuplicate(s, MessageHash(m), nowMs / 1000).1 && MessageHash(m) !in s.recent
  {
    hide DropOld, HasKey, MessageHash;
  }

  /** Whatever happened before, a message from the broker is forwarded exactly when its key has not passed within the
      window and is not protected by a publication. */
  lemma ForwardedExactly(h: seq<Arrival>, m: Message, nowMs: nat)
    requires Chronological(h, nowMs)
    ensures OnMqttPublish(Replay(h), m, nowMs).1 <==>
      !PassedRecently(Passes(h), MessageHash(m), nowMs / 1000) && !Protected(Publications(h), MessageHash(m))
  {
    hide *;
    HistoryExplains(h, nowMs);
    CheckDuplicateIsHistory(Replay(h), Passes(h), MessageHash(m), nowMs / 1000);
    RecentIsProtected(Replay(h), Publications(h), nowMs, MessageHash(m));
    ForwardsWhen(Replay(h), m, nowMs);
  }

  /** And a message from gossip is published, if the broker takes it, exactly when it does not carry the mark of the
      broker side and its key has not passed in the last 300 seconds. */
  lemma PublishedExactly(h: seq<Arrival>, m: Message, origin: Origin, nowMs: nat, ok: bool)
    requires Chronological(h, nowMs)
    ensures OnGossipMessage(Replay(h), m, origin, nowMs, ok).1 <==>
      origin != FromMqtt
      && forall i :: 0 <= i < |Passes(h)| && Passes(h)[i].key == m.topic + ":" + m.payload ==>
           nowMs / 1000 - Passes(h)[i].time > 300
  {
    hide Purge, DropOld, HasKey, Replay, Passes, Recalls;
    HistoryExplains(h, nowMs);
    CheckDuplicateIsHistory(Replay(h), Passes(h), MessageHash(m), nowMs / 1000);
  }

  /** While nothing is published after the first publication of a message, its echo is never forwarded. */
  lemma QuietEchoIsDropped(h: seq<Arrival>, m: Message, nowMs: nat)
    requires Chronological(h, nowMs) && Publications(h) != []
    requires var pubs := Publications(h);
             forall i :: 0 <= i < |pubs| ==> (pubs[i].key == MessageHash(m) <==> i == |pubs| - 1)
    ensures !OnMqttPublish(Replay(h), m, nowMs).1
  {
    var pubs := Publications(h);
    assert Unpurged(pubs, MessageHash(m), |pubs| - 1);
    hide PurgedBy, OnMqttPublish, PassedRecently, Replay, Passes, Publications, MessageHash, Chronological;
    ForwardedExactly(h, m, nowMs);
  }

  /** The last two publications are of this key, the latter late enough to purge the former. */
  ghost predicate RepublishedLast(pubs: seq<Publication>, key: string) {
    var n := |pubs|;
    && n >= 2 && pubs[n - 1].key == pubs[n - 2].key == key
    && pubs[n - 1].time >= pubs[n - 2].time + RECENT_MESSAGE_TTL_MS
  }

  lemma RepublishedIsPurged(pubs: seq<Publication>, key: string)
    requires RepublishedLast(pubs, key)
    ensures !Protected(pubs, key)
  {
    assert PurgedBy(pubs, |pubs| - 2, |pubs| - 1);
  }

  /** A message that is published again with nothing in between, half a minute or more later, has no protection
      beyond the window: the new publication purges the key together with the old one. */
  lemma RepublishedIsUnprotected(h: seq<Arrival>, m: Message, nowMs: nat)
    requires Chronological(h, nowMs) && RepublishedLast(Publications(h), MessageHash(m))
    ensures OnMqttPublish(Replay(h), m, nowMs).1 <==> !PassedRecently(Passes(h), MessageHash(m), nowMs / 1000)
  {
    hide *;
    RepublishedIsPurged(Publications(h), MessageHash(m));
    ForwardedExactly(h, m, nowMs);
  }

  lemma PublishingA()
    ensures OnGossipMessage(State([], {}, []), Message("a", ""), FromGossip, 0, true).0
         == State([Pass("a:", 0)], {"a:"}, [Published("a:", 30_000)])
  {
    assert MessageHash(Message("a", "")) == "a:";
  }

  lemma PublishingB()
    ensures OnGossipMessage(State([Pass("a:", 0)], {"a:"}, [Published("a:", 30_000)]), Message("b", ""), FromGossip,
                            31_000, true).0
         == State([Pass("a:", 0), Pass("b:", 31)], {"b:"}, [Published("b:", 61_000)])
  {
    assert MessageHash(Message("b", "")) == "b:" && "a:"[0] != "b:"[0];
    var queue := [Published("a:", 30_000)] + [Published("b:", 61_000)];
    assert DropOld([Pass("a:", 0)], 31) == [Pass("a:", 0)];
    assert queue[1..] == [Published("b:", 61_000)];
    assert {"a:"} + {"b:"} - {"a:"} == {"b:"};
    assert Purge({"a:"} + {"b:"}, queue, 31_000) == ({"b:"}, queue[1..]);
  }

  /** A run that shows it: the bridge publishes `a`, publishes `b` half a minute later, and re-gossips the echo of `a`
      after 301 seconds. */
  lemma LateEchoIsForwarded()
    ensures var a, b := Message("a", ""), Message("b", "");
            var published := OnGossipMessage(State([], {}, []), a, FromGossip, 0, true).0;
            var later := OnGossipMessage(published, b, FromGossip, 31_000, true).0;
            !OnMqttPublish(later, a, 300_000).1 && OnMqttPublish(later, a, 301_000).1
  {
    PublishingA();
    PublishingB();
    hide OnGossipMessage, Purge;
    assert MessageHash(Message("a", "")) == "a:" && "a:"[0] != "b:"[0];
    var seen := [Pass("a:", 0), Pass("b:", 31)];
    assert DropOld(seen, 300) == seen && seen[0].key == "a:";
    assert seen[1..] == [Pass("b:", 31)];
    assert DropOld(seen, 301) == [Pass("b:", 31)];
  }
}
