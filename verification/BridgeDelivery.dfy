/** That messages arrive: what reaches a node over gossip is brought to its broker, and what a client publishes on one
    node reaches the broker of every other (src/mqtt_bridge.rs and src/iroh_network.rs). */
module BridgeDelivery {
  import opened Bridge
  import opened BridgeProtocol
  import opened Options

  /** The dedup window, in numbers: the message passed no more than 300 seconds ago. */
  ghost predicate SeenWithin(passes: seq<Pass>, m: Message, now: nat) {
    exists i :: 0 <= i < |passes| && passes[i].key == m.topic + ":" + m.payload && now - passes[i].time <= 300
  }

  predicate SameKey(a: Message, b: Message) { a.topic + ":" + a.payload == b.topic + ":" + b.payload }

  lemma SeenIsPassed(passes: seq<Pass>, m: Message, now: nat)
    ensures SeenWithin(passes, m, now) <==> PassedRecently(passes, MessageHash(m), now)
  {
  }

  // ----- single steps

  /** A delivery from another node, of anything but what came from this node's own broker, is queued for the broker:
      under its own topic if it came from a broker with one, and else under `iroh/data`. Other deliveries change
      nothing. */
  lemma GossipIsQueued(s: Network, n: nat, from: nat, g: GossipMessage)
    requires Enabled(s, GossipDeliver(n, from, g))
    ensures var t := Apply(s, GossipDeliver(n, from, g));
            if n == from || (g.origin == "mqtt" && g.broker == n) then t == s
            else
              var topic := if g.origin == "mqtt" && g.topic.Some? then g.topic.value else "iroh/data";
              && t.nodes[n].toMqtt == s.nodes[n].toMqtt + [Message(topic, g.payload)]
              && t.nodes[n].(toMqtt := [], received := []) == s.nodes[n].(toMqtt := [], received := [])
              && t.(nodes := []) == s.(nodes := [])
              && forall k :: 0 <= k < |s.nodes| && k != n ==> t.nodes[k] == s.nodes[k]
  {
  }

  /** The next message for the broker is there afterwards if the broker takes it and it has not passed within the
      window; otherwise the broker is left alone. */
  lemma NextIsPublished(s: Network, n: nat, ok: bool)
    requires Inv(s) && Enabled(s, PublishToBroker(n, ok))
    ensures var node, after := s.nodes[n], Apply(s, PublishToBroker(n, ok)).nodes[n];
            var m := node.toMqtt[0];
            && after.toMqtt == node.toMqtt[1..] && after.toGossip == node.toGossip
            && after.broker == (if ok && !SeenWithin(node.passes, m, s.Now()) then node.broker + {m} else node.broker)
            && after.passes == (if SeenWithin(node.passes, m, s.Now()) then node.passes
                                else node.passes + [Pass(m.topic + ":" + m.payload, s.Now())])
  {
    var node := s.nodes[n];
    var m := node.toMqtt[0];
    assert NodeInv(node, s.Now());
    SeenIsPassed(node.passes, m, s.Now());
    CheckDuplicateIsHistory(node.bridge, node.passes, MessageHash(m), s.Now());
  }

  /** What the broker delivers is queued for gossip if it has not passed within the window and the bridge does not
      hold it as recently published. */
  lemma DeliveryIsForwarded(s: Network, n: nat, m: Message)
    requires Inv(s) && Enabled(s, BrokerDeliver(n, m))
    ensures var node, after := s.nodes[n], Apply(s, BrokerDeliver(n, m)).nodes[n];
            && after.toGossip == (if !SeenWithin(node.passes, m, s.Now())
                                     && m.topic + ":" + m.payload !in node.bridge.recent
                                  then node.toGossip + [m] else node.toGossip)
            && after.toMqtt == node.toMqtt && after.broker == node.broker
  {
    var node := s.nodes[n];
    assert NodeInv(node, s.Now());
    SeenIsPassed(node.passes, m, s.Now());
    CheckDuplicateIsHistory(node.bridge, node.passes, MessageHash(m), s.Now());
  }

  // ----- sequences of steps

  lemma {:induction false} RunConcat(s: Network, first: seq<Step>, second: seq<Step>)
    requires IsRun(s, first) && IsRun(Run(s, first), second)
    ensures IsRun(s, first + second) && Run(s, first + second) == Run(Run(s, first), second)
    decreases |first|
  {
    if first == [] {
      assert first + second == second;
    } else {
      assert (first + second)[0] == first[0] && (first + second)[1..] == first[1..] + second;
      hide Apply, Enabled;
      RunConcat(Apply(s, first[0]), first[1..], second);
    }
  }

  lemma OneStep(s: Network, step: Step)
    requires Enabled(s, step)
    ensures IsRun(s, [step]) && Run(s, [step]) == Apply(s, step)
  {
    hide Apply, Enabled;
    assert IsRun(Apply(s, step), []);
    assert [step][1..] == [];
  }

  lemma RunCons(s: Network, step: Step, rest: seq<Step>)
    requires Enabled(s, step) && IsRun(Apply(s, step), rest)
    ensures IsRun(s, [step] + rest) && Run(s, [step] + rest) == Run(Apply(s, step), rest)
  {
    assert ([step] + rest)[1..] == rest;
    hide Apply, Enabled;
  }

  lemma NoStep(s: Network)
    ensures IsRun(s, []) && Run(s, []) == s
  {
  }

  function Repeat(step: Step, times: nat): (r: seq<Step>) { seq(times, _ => step) }

  lemma RepeatNone(step: Step)
    ensures Repeat(step, 0) == []
  {
  }

  lemma RepeatCons(step: Step, times: nat)
    ensures Repeat(step, times + 1) == [step] + Repeat(step, times)
  {
  }

  lemma OtherPass(passes: seq<Pass>, other: Message, m: Message, at: nat, now: nat)
    requires !SameKey(other, m) && !SeenWithin(passes, m, now)
    ensures !SeenWithin(passes + [Pass(other.topic + ":" + other.payload, at)], m, now)
  {
  }

  /** No message but the last one of the queue has its key. */
  ghost predicate OnlyLast(queue: seq<Message>) {
    queue != [] && forall i :: 0 <= i < |queue| - 1 ==> !SameKey(queue[i], queue[|queue| - 1])
  }

  lemma RestOnlyLast(queue: seq<Message>)
    requires OnlyLast(queue) && |queue| > 1
    ensures OnlyLast(queue[1..]) && queue[1..][|queue| - 2] == queue[|queue| - 1]
    ensures !SameKey(queue[0], queue[|queue| - 1])
  {
  }

  /** The last message of the queue is still to come, and can still pass. */
  ghost predicate Awaits(s: Network, n: nat, m: Message) {
    && Inv(s) && n < |s.nodes| && OnlyLast(s.nodes[n].toMqtt)
    && s.nodes[n].toMqtt[|s.nodes[n].toMqtt| - 1] == m && !SeenWithin(s.nodes[n].passes, m, s.Now())
  }

  lemma PublishNext(s: Network, n: nat, m: Message)
    requires Awaits(s, n, m)
    ensures Enabled(s, PublishToBroker(n, true))
    ensures var t := Apply(s, PublishToBroker(n, true));
            && n < |t.nodes| && 0 < |s.nodes[n].toMqtt| == |t.nodes[n].toMqtt| + 1
            && if |s.nodes[n].toMqtt| == 1 then m in t.nodes[n].broker else Awaits(t, n, m)
  {
    var queue, step := s.nodes[n].toMqtt, PublishToBroker(n, true);
    var t := Apply(s, step);
    assert t.Now() == s.Now();
    StepKeepsInv(s, step);
    NextIsPublished(s, n, true);
    assert Enabled(s, step);
    if |queue| > 1 {
      RestOnlyLast(queue);
      OtherPass(s.nodes[n].passes, queue[0], m, s.Now(), s.Now());
    }
    hide Inv, Apply, SeenWithin, SameKey, Enabled, OnlyLast;
  }

  /** The steps are a run that ends with the message at the broker. */
  ghost predicate Brings(s: Network, steps: seq<Step>, n: nat, m: Message) {
    n < |s.nodes| && IsRun(s, steps) && m in Run(s, steps).nodes[n].broker
  }

  lemma BringsAlready(s: Network, n: nat, m: Message)
    requires n < |s.nodes| && m in s.nodes[n].broker
    ensures Brings(s, [], n, m)
  {
  }

  lemma BringsLater(s: Network, step: Step, rest: seq<Step>, n: nat, m: Message)
    requires Enabled(s, step) && Brings(Apply(s, step), rest, n, m)
    ensures Brings(s, [step] + rest, n, m)
  {
    hide Enabled, Apply;
    RunCons(s, step, rest);
  }

  /** Publishing goes on until the last message of the queue, which has this length, is at the broker. */
  lemma {:induction false} QueueIsPublished(s: Network, n: nat, m: Message, length: nat)
    requires Awaits(s, n, m) && length == |s.nodes[n].toMqtt|
    ensures Brings(s, Repeat(PublishToBroker(n, true), length), n, m)
    decreases length
  {
    hide *;
    var step := PublishToBroker(n, true);
    PublishNext(s, n, m);
    var t := Apply(s, step);
    if length == 1 {
      BringsAlready(t, n, m);
      RepeatNone(step);
    } else {
      QueueIsPublished(t, n, m, length - 1);
    }
    RepeatCons(step, length - 1);
    BringsLater(s, step, Repeat(step, length - 1), n, m);
  }

  /** What a forwarded message is in gossip. */
  function Relayed(n: nat, m: Message): GossipMessage { GossipMessage("mqtt", n, Some(m.topic), m.payload) }

  lemma ForwardNext(s: Network, n: nat)
    requires Inv(s) && n < |s.nodes| && s.nodes[n].toGossip != []
    ensures Enabled(s, ForwardToGossip(n))
    ensures var t := Apply(s, ForwardToGossip(n));
            && Inv(t) && t.clockMs == s.clockMs && |t.nodes| == |s.nodes|
            && t.nodes[n].toGossip == s.nodes[n].toGossip[1..]
            && t.gossip == s.gossip + {Relayed(n, s.nodes[n].toGossip[0])}
            && forall k :: 0 <= k < |s.nodes| && k != n ==> t.nodes[k] == s.nodes[k]
  {
    StepKeepsInv(s, ForwardToGossip(n));
    hide Inv;
  }

  /** Forwarding goes on until the last message of the queue is in gossip, and leaves the other nodes alone. */
  lemma {:induction false} QueueIsForwarded(s: Network, n: nat, m: Message)
    requires Inv(s) && n < |s.nodes| && s.nodes[n].toGossip != []
    requires m == s.nodes[n].toGossip[|s.nodes[n].toGossip| - 1]
    ensures var steps := Repeat(ForwardToGossip(n), |s.nodes[n].toGossip|);
            && IsRun(s, steps)
            && var t := Run(s, steps);
               && Inv(t) && t.clockMs == s.clockMs && Relayed(n, m) in t.gossip
               && forall k :: 0 <= k < |s.nodes| && k != n ==> t.nodes[k] == s.nodes[k]
    decreases |s.nodes[n].toGossip|
  {
    var length, step := |s.nodes[n].toGossip|, ForwardToGossip(n);
    ForwardNext(s, n);
    hide Inv, Apply, Enabled, Repeat, Relayed;
    var t := Apply(s, step);
    RepeatCons(step, length - 1);
    if length == 1 {
      NoStep(t);
      assert Repeat(step, 0) == [];
    } else {
      QueueIsForwarded(t, n, m);
    }
    RunCons(s, step, Repeat(step, length - 1));
  }

  // ----- from one node to the broker of another

  /** The message can pass at the node, and nothing in its queue for the broker has the same key. */
  ghost predicate Welcome(s: Network, n: nat, m: Message)
    requires n < |s.nodes|
  {
    var node := s.nodes[n];
    !SeenWithin(node.passes, m, s.Now()) && forall i :: 0 <= i < |node.toMqtt| ==> !SameKey(node.toMqtt[i], m)
  }

  /** A delivery and enough publishing. */
  function Delivery(n: nat, from: nat, g: GossipMessage, waiting: nat): seq<Step> {
    [GossipDeliver(n, from, g)] + Repeat(PublishToBroker(n, true), waiting + 1)
  }

  /** The message that the gossip stands for. */
  function Content(g: GossipMessage): Message {
    Message(if g.origin == "mqtt" && g.topic.Some? then g.topic.value else "iroh/data", g.payload)
  }

  lemma DeliveryAwaits(s: Network, n: nat, from: nat, g: GossipMessage)
    requires Inv(s) && Enabled(s, GossipDeliver(n, from, g)) && n != from && !(g.origin == "mqtt" && g.broker == n)
    requires Welcome(s, n, Content(g))
    ensures var t := Apply(s, GossipDeliver(n, from, g));
            Awaits(t, n, Content(g)) && |t.nodes[n].toMqtt| == |s.nodes[n].toMqtt| + 1
  {
    StepKeepsInv(s, GossipDeliver(n, from, g));
    hide Inv;
    GossipIsQueued(s, n, from, g);
  }

  /** Gossip that gets through and is welcome reaches the broker. */
  lemma GossipArrives(s: Network, n: nat, from: nat, g: GossipMessage)
    requires Inv(s) && Enabled(s, GossipDeliver(n, from, g)) && n != from && !(g.origin == "mqtt" && g.broker == n)
    requires Welcome(s, n, Content(g))
    ensures Brings(s, Delivery(n, from, g, |s.nodes[n].toMqtt|), n, Content(g))
  {
    DeliveryAwaits(s, n, from, g);
    var t, waiting := Apply(s, GossipDeliver(n, from, g)), |s.nodes[n].toMqtt|;
    assert Delivery(n, from, g, waiting)
        == [GossipDeliver(n, from, g)] + Repeat(PublishToBroker(n, true), |t.nodes[n].toMqtt|);
    hide *;
    QueueIsPublished(t, n, Content(g), waiting + 1);
    BringsLater(s, GossipDeliver(n, from, g), Repeat(PublishToBroker(n, true), |t.nodes[n].toMqtt|), n, Content(g));
  }

  /** What the bridge holds as recently published has been published. */
  ghost predicate RecentWerePublished(node: Node) {
    forall key :: key in node.bridge.recent ==> exists m :: m in node.published && MessageHash(m) == key
  }

  lemma {:induction false} PurgeShrinks(recent: set<string>, queue: seq<Published>, nowMs: nat)
    ensures Purge(recent, queue, nowMs).0 <= recent
    decreases |queue|
  {
    if queue != [] && queue[0].expiry <= nowMs {
      PurgeShrinks(recent - {queue[0].key}, queue[1..], nowMs);
    }
  }

  lemma NodeRecent(node: Node, n: nat, step: Step, clockMs: nat)
    requires RecentWerePublished(node)
    ensures RecentWerePublished(NodeAfter(node, n, step, clockMs))
  {
    if step.PublishToBroker? && node.toMqtt != [] {
      var m, s := node.toMqtt[0], node.bridge;
      var checked := CheckDuplicate(s, MessageHash(m), clockMs / 1000).0;
      var queue := checked.recentQueue + [Published(MessageHash(m), clockMs + RECENT_MESSAGE_TTL_MS)];
      PurgeShrinks(checked.recent + {MessageHash(m)}, queue, clockMs);
      hide Purge, MessageHash, DropOld, HasKey;
    } else {
      hide Purge, MessageHash, DropOld, HasKey, Gate, AfterPublish;
    }
  }

  lemma {:induction false} RunRecent(s: Network, steps: seq<Step>, n: nat)
    requires IsRun(s, steps) && n < |s.nodes| && RecentWerePublished(s.nodes[n])
    ensures RecentWerePublished(Run(s, steps).nodes[n])
    decreases |steps|
  {
    if steps != [] {
      NodesAfter(s, steps[0], n);
      NodeRecent(s.nodes[n], n, steps[0], s.clockMs);
      hide RecentWerePublished, Apply, Enabled, NodeAfter;
      RunRecent(Apply(s, steps[0]), steps[1..], n);
    }
  }

  /** A client publishes, the broker delivers, and the node forwards all that waits. */
  function Sending(n: nat, m: Message, waiting: nat): seq<Step> {
    [ClientPublish(n, m), BrokerDeliver(n, m)] + Repeat(ForwardToGossip(n), waiting + 1)
  }

  lemma PublishIsForwarded(s: Network, n: nat, m: Message)
    requires Inv(s) && n < |s.nodes| && !SeenWithin(s.nodes[n].passes, m, s.Now())
    requires m.topic + ":" + m.payload !in s.nodes[n].bridge.recent
    ensures IsRun(s, [ClientPublish(n, m), BrokerDeliver(n, m)])
    ensures var t := Run(s, [ClientPublish(n, m), BrokerDeliver(n, m)]);
            && Inv(t) && t.clockMs == s.clockMs && |t.nodes| == |s.nodes|
            && t.nodes[n].toGossip == s.nodes[n].toGossip + [m]
            && forall k :: 0 <= k < |s.nodes| && k != n ==> t.nodes[k] == s.nodes[k]
  {
    var publish, deliver := ClientPublish(n, m), BrokerDeliver(n, m);
    var t := Apply(s, publish);
    StepKeepsInv(s, publish);
    StepKeepsInv(t, deliver);
    OneStep(s, publish);
    OneStep(t, deliver);
    assert t.Now() == s.Now();
    DeliveryIsForwarded(t, n, m);
    hide Inv, AfterBrokerDeliver, SeenWithin;
    assert [publish] + [deliver] == [publish, deliver];
    RunConcat(s, [publish], [deliver]);
  }

  lemma SendingReachesGossip(s: Network, n: nat, m: Message)
    requires Inv(s) && n < |s.nodes| && !SeenWithin(s.nodes[n].passes, m, s.Now())
    requires m.topic + ":" + m.payload !in s.nodes[n].bridge.recent
    ensures var steps := Sending(n, m, |s.nodes[n].toGossip|);
            && IsRun(s, steps)
            && var t := Run(s, steps);
               && Inv(t) && t.clockMs == s.clockMs && Relayed(n, m) in t.gossip
               && forall k :: 0 <= k < |s.nodes| && k != n ==> t.nodes[k] == s.nodes[k]
  {
    var first := [ClientPublish(n, m), BrokerDeliver(n, m)];
    PublishIsForwarded(s, n, m);
    var t := Run(s, first);
    hide Inv, SeenWithin, IsRun, Run, Repeat;
    QueueIsForwarded(t, n, m);
    RunConcat(s, first, Repeat(ForwardToGossip(n), |t.nodes[n].toGossip|));
  }

  lemma RunInv(size: nat, steps: seq<Step>)
    requires IsRun(Init(size), steps)
    ensures Inv(Run(Init(size), steps)) && |Run(Init(size), steps).nodes| == size
  {
    InitInv(size);
    RunKeepsInv(Init(size), steps);
  }

  lemma NotPublishedNotRecent(size: nat, steps: seq<Step>, n: nat, m: Message)
    requires IsRun(Init(size), steps) && n < size
    requires forall p :: p in Run(Init(size), steps).nodes[n].published ==> !SameKey(p, m)
    ensures m.topic + ":" + m.payload !in Run(Init(size), steps).nodes[n].bridge.recent
  {
    assert RecentWerePublished(Init(size).nodes[n]);
    RunRecent(Init(size), steps, n);
    hide Run, IsRun;
  }

  /** After every run, a message that a client publishes on one node reaches the broker of any other: by forwarding,
      one delivery and publishing, if the message has passed neither node within the window, the first has not
      published it, and the second has nothing with its key in the queue. */
  lemma PublishReachesOthers(size: nat, steps: seq<Step>, a: nat, b: nat, m: Message)
    requires IsRun(Init(size), steps) && a < size && b < size && a != b
    requires var s := Run(Init(size), steps);
             && !SeenWithin(s.nodes[a].passes, m, s.Now()) && Welcome(s, b, m)
             && forall p :: p in s.nodes[a].published ==> !SameKey(p, m)
    ensures var s := Run(Init(size), steps);
            var more := Sending(a, m, |s.nodes[a].toGossip|)
                        + Delivery(b, a, GossipMessage("mqtt", a, Some(m.topic), m.payload), |s.nodes[b].toMqtt|);
            IsRun(s, more) && m in Run(s, more).nodes[b].broker
  {
    RunInv(size, steps);
    var s := Run(Init(size), steps);
    NotPublishedNotRecent(size, steps, a, m);
    SendingReachesGossip(s, a, m);
    var sending := Sending(a, m, |s.nodes[a].toGossip|);
    var t, g := Run(s, sending), Relayed(a, m);
    assert Enabled(t, GossipDeliver(b, a, g)) && t.Now() == s.Now() && Content(g) == m;
    hide Inv, IsRun, Run, Init, SeenWithin, Sending, Delivery;
    GossipArrives(t, b, a, g);
    RunConcat(s, sending, Delivery(b, a, g, |t.nodes[b].toMqtt|));
  }

  /** And so does what a node broadcasts, under `iroh/data`. */
  lemma BroadcastReachesOthers(size: nat, steps: seq<Step>, a: nat, b: nat, payload: string)
    requires IsRun(Init(size), steps) && a < size && b < size && a != b
    requires Welcome(Run(Init(size), steps), b, Message("iroh/data", payload))
    ensures var s := Run(Init(size), steps);
            var more := [LocalBroadcast(a, payload)]
                        + Delivery(b, a, GossipMessage("local", a, None, payload), |s.nodes[b].toMqtt|);
            IsRun(s, more) && Message("iroh/data", payload) in Run(s, more).nodes[b].broker
  {
    RunInv(size, steps);
    var s := Run(Init(size), steps);
    var step, g := LocalBroadcast(a, payload), GossipMessage("local", a, None, payload);
    OneStep(s, step);
    StepKeepsInv(s, step);
    var t := Apply(s, step);
    assert g in t.gossip && t.Now() == s.Now() && t.nodes == s.nodes && Content(g) == Message("iroh/data", payload);
    assert Enabled(t, GossipDeliver(b, a, g));
    hide Inv, IsRun, Run, Init, SeenWithin, Delivery, Apply;
    GossipArrives(t, b, a, g);
    RunConcat(s, [step], Delivery(b, a, g, |t.nodes[b].toMqtt|));
  }

  // ----- nothing is lost in a node

  ghost predicate HasPassed(passes: seq<Pass>, m: Message) {
    exists i :: 0 <= i < |passes| && passes[i].key == m.topic + ":" + m.payload
  }

  /** What was forwarded waits for gossip or is in it; what was received waits for the broker, or it or a message with
      its key has passed. */
  ghost predicate NothingLost(node: Node, n: nat, gossip: set<GossipMessage>) {
    && (forall m :: m in node.forwarded ==> m in node.toGossip || Relayed(n, m) in gossip)
    && |node.toMqtt| <= |node.received|
    && (forall i :: 0 <= i < |node.toMqtt| ==>
          node.toMqtt[i] == Content(node.received[|node.received| - |node.toMqtt| + i]))
    && (forall i :: 0 <= i < |node.received| - |node.toMqtt| ==> HasPassed(node.passes, Content(node.received[i])))
  }

  lemma HasPassedStays(passes: seq<Pass>, more: seq<Pass>, m: Message)
    requires HasPassed(passes, m) && passes <= more
    ensures HasPassed(more, m)
  {
    var i :| 0 <= i < |passes| && passes[i].key == m.topic + ":" + m.payload;
    assert more[i] == passes[i];
  }

  lemma SeenHasPassed(passes: seq<Pass>, m: Message, now: nat)
    ensures SeenWithin(passes, m, now) ==> HasPassed(passes, m)
    ensures HasPassed(passes + [Pass(m.topic + ":" + m.payload, now)], m)
  {
    assert (passes + [Pass(m.topic + ":" + m.payload, now)])[|passes|].key == m.topic + ":" + m.payload;
  }

  lemma SameNotLost(node: Node, after: Node, n: nat, gossip: set<GossipMessage>, more: set<GossipMessage>)
    requires NothingLost(node, n, gossip) && gossip <= more && node.passes <= after.passes
    requires after.toMqtt == node.toMqtt && after.received == node.received
    requires forall m :: m in after.forwarded ==> m in after.toGossip || m in node.forwarded
    requires forall m :: m in node.toGossip ==> m in after.toGossip || Relayed(n, m) in more
    ensures NothingLost(after, n, more)
  {
    hide HasPassed, Content, Relayed;
    forall i | 0 <= i < |node.received| - |node.toMqtt| ensures HasPassed(after.passes, Content(node.received[i])) {
      HasPassedStays(node.passes, after.passes, Content(node.received[i]));
    }
  }

  lemma PublishNotLost(node: Node, after: Node, n: nat, gossip: set<GossipMessage>)
    requires NothingLost(node, n, gossip) && node.toMqtt != [] && node.passes <= after.passes
    requires after.toMqtt == node.toMqtt[1..] && after.received == node.received
    requires after.forwarded == node.forwarded && after.toGossip == node.toGossip
    requires HasPassed(after.passes, node.toMqtt[0])
    ensures NothingLost(after, n, gossip)
  {
    hide HasPassed, Content, Relayed;
    forall i | 0 <= i < |after.received| - |after.toMqtt| ensures HasPassed(after.passes, Content(node.received[i])) {
      if i < |node.received| - |node.toMqtt| {
        HasPassedStays(node.passes, after.passes, Content(node.received[i]));
      }
    }
  }

  lemma StepLosesNothing(s: Network, step: Step, n: nat)
    requires Inv(s) && Enabled(s, step) && n < |s.nodes| && NothingLost(s.nodes[n], n, s.gossip)
    ensures NothingLost(Apply(s, step).nodes[n], n, Apply(s, step).gossip)
  {
    var node, t := s.nodes[n], Apply(s, step);
    if step.Tick? || step.n != n || step.ClientPublish? || step.LocalBroadcast? || step.BrokerDeliver? {
      assert node.passes <= t.nodes[n].passes by { hide CheckDuplicate, MessageHash, OnMqttPublish; }
      hide NothingLost, CheckDuplicate, OnMqttPublish, OnGossipMessage, MessageHash, Inv, Gate, Relayed;
      SameNotLost(node, t.nodes[n], n, s.gossip, t.gossip);
    } else if step.ForwardToGossip? {
      hide NothingLost, Inv;
      SameNotLost(node, t.nodes[n], n, s.gossip, t.gossip);
    } else if step.PublishToBroker? {
      NextIsPublished(s, n, step.ok);
      SeenHasPassed(node.passes, node.toMqtt[0], s.Now());
      hide NothingLost, Inv, SeenWithin, HasPassed, OnGossipMessage;
      PublishNotLost(node, t.nodes[n], n, s.gossip);
    } else {
      GossipIsQueued(s, n, step.from, step.g);
      hide Inv, HasPassed, Apply, Relayed;
    }
  }

  lemma {:induction false} RunLosesNothing(s: Network, steps: seq<Step>, n: nat)
    requires Inv(s) && IsRun(s, steps) && n < |s.nodes| && NothingLost(s.nodes[n], n, s.gossip)
    ensures NothingLost(Run(s, steps).nodes[n], n, Run(s, steps).gossip)
    decreases |steps|
  {
    if steps != [] {
      StepKeepsInv(s, steps[0]);
      StepLosesNothing(s, steps[0], n);
      hide Inv, NothingLost, Apply, Enabled;
      RunLosesNothing(Apply(s, steps[0]), steps[1..], n);
    }
  }

  /** In every run, what a node forwarded waits for gossip or is in it, and what it received waits for the broker or has
      passed. */
  lemma NothingIsLost(size: nat, steps: seq<Step>, n: nat)
    requires IsRun(Init(size), steps) && n < size
    ensures NothingLost(Run(Init(size), steps).nodes[n], n, Run(Init(size), steps).gossip)
  {
    InitInv(size);
    assert NothingLost(Init(size).nodes[n], n, {});
    RunLosesNothing(Init(size), steps, n);
  }
}
