/** The bridge as a protocol over n nodes: every node has its own broker, bridge and gossip endpoint
    (src/mqtt_bridge.rs, and the gate of `handle_gossip_event` and `forward_mqtt_to_gossip` in
    src/iroh_network.rs). Brokers may echo and gossip may deliver any message any number of times, to any node. */
module BridgeProtocol {
  import opened Bridge
  import opened Options
  import opened Sequences

  const MQTT_ORIGIN := "mqtt"
  const LOCAL_ORIGIN := "local"
  const DATA_TOPIC := "iroh/data"

  datatype GossipMessage = GossipMessage(origin: string, broker: nat, topic: Option<string>, payload: string)

  /** One node. The last five fields are histories: the keys that passed the dedup test, those of them that the node
      acted on by forwarding to gossip or publishing to its broker, the messages it forwarded and the ones its broker
      took, and the gossip messages it let through its gate. */
  datatype Node = Node(bridge: State, toGossip: seq<Message>, toMqtt: seq<Message>, broker: set<Message>,
                       passes: seq<Pass>, acts: seq<Pass>, forwarded: set<Message>, published: set<Message>,
                       received: seq<GossipMessage>)

  /** The whole network; `originated` holds the keys that clients or local broadcasts brought in. */
  datatype Network = Network(clockMs: nat, nodes: seq<Node>, gossip: set<GossipMessage>, originated: set<string>) {
    function Now(): nat { clockMs / 1000 }
  }

  datatype Step =
    | Tick(ms: nat)
    | ClientPublish(n: nat, m: Message)
    | LocalBroadcast(n: nat, payload: string)
    | BrokerDeliver(n: nat, m: Message)
    | ForwardToGossip(n: nat)
    | GossipDeliver(n: nat, from: nat, g: GossipMessage)
    | PublishToBroker(n: nat, ok: bool)

  function Init(n: nat): Network {
    Network(0, seq(n, _ => Node(State([], {}, []), [], [], {}, [], [], {}, {}, [])), {}, {})
  }

  predicate Enabled(s: Network, step: Step) {
    match step
    case Tick(_) => true
    case ClientPublish(n, _) => n < |s.nodes|
    case LocalBroadcast(n, _) => n < |s.nodes|
    case BrokerDeliver(n, m) => n < |s.nodes| && m in s.nodes[n].broker
    case ForwardToGossip(n) => n < |s.nodes| && s.nodes[n].toGossip != []
    case GossipDeliver(n, _, g) => n < |s.nodes| && g in s.gossip
    case PublishToBroker(n, _) => n < |s.nodes| && s.nodes[n].toMqtt != []
  }

  /** The MQTT message that a gossip message stands for at a remote node. */
  function MqttMessage(g: GossipMessage): Message {
    if g.origin == MQTT_ORIGIN && g.topic.Some? then Message(g.topic.value, g.payload)
    else Message(DATA_TOPIC, g.payload)
  }

  /** The gate: nodes ignore deliveries from themselves, and what came from their own broker. */
  predicate Gate(n: nat, from: nat, g: GossipMessage) {
    from != n && !(g.origin == MQTT_ORIGIN && g.broker == n)
  }

  /** The histories after a dedup test at `now` that ended in an action or not. */
  function Note(node: Node, bridge: State, key: string, now: nat, passed: bool, acted: bool): Node {
    node.(bridge := bridge,
          passes := if passed then node.passes + [Pass(key, now)] else node.passes,
          acts := if acted then node.acts + [Pass(key, now)] else node.acts)
  }

  function AfterBrokerDeliver(node: Node, m: Message, clockMs: nat): Node {
    var key := MessageHash(m);
    var duplicate := CheckDuplicate(node.bridge, key, clockMs / 1000).1;
    var (bridge, forward) := OnMqttPublish(node.bridge, m, clockMs);
    var noted := Note(node, bridge, key, clockMs / 1000, !duplicate, forward);
    if forward then noted.(toGossip := noted.toGossip + [m], forwarded := noted.forwarded + {m}) else noted
  }

  function AfterPublish(node: Node, clockMs: nat, ok: bool): Node
    requires node.toMqtt != []
  {
    var m := node.toMqtt[0];
    var rest := node.(toMqtt := node.toMqtt[1..]);
    var (bridge, publish) := OnGossipMessage(node.bridge, m, FromGossip, clockMs, ok);
    var noted := Note(rest, bridge, MessageHash(m), clockMs / 1000, publish, publish);
    if publish && ok then noted.(broker := noted.broker + {m}, published := noted.published + {m}) else noted
  }

  function Apply(s: Network, step: Step): (t: Network)
    requires Enabled(s, step)
    ensures |t.nodes| == |s.nodes|
  {
    match step
    case Tick(ms) => s.(clockMs := s.clockMs + ms)
    case ClientPublish(n, m) =>
      s.(nodes := s.nodes[n := s.nodes[n].(broker := s.nodes[n].broker + {m})],
         originated := s.originated + {MessageHash(m)})
    case LocalBroadcast(n, payload) =>
      var g := GossipMessage(LOCAL_ORIGIN, n, None, payload);
      s.(gossip := s.gossip + {g}, originated := s.originated + {MessageHash(MqttMessage(g))})
    case BrokerDeliver(n, m) =>
      s.(nodes := s.nodes[n := AfterBrokerDeliver(s.nodes[n], m, s.clockMs)])
    case ForwardToGossip(n) =>
      var m := s.nodes[n].toGossip[0];
      s.(nodes := s.nodes[n := s.nodes[n].(toGossip := s.nodes[n].toGossip[1..])],
         gossip := s.gossip + {GossipMessage(MQTT_ORIGIN, n, Some(m.topic), m.payload)})
    case GossipDeliver(n, from, g) =>
      if !Gate(n, from, g) then s
      else s.(nodes := s.nodes[n := s.nodes[n].(toMqtt := s.nodes[n].toMqtt + [MqttMessage(g)],
                                                received := s.nodes[n].received + [g])])
    case PublishToBroker(n, ok) =>
      s.(nodes := s.nodes[n := AfterPublish(s.nodes[n], s.clockMs, ok)])
  }

  /** What a step at node `n` does to that node. */
  function NodeAfter(node: Node, n: nat, step: Step, clockMs: nat): Node {
    match step
    case ClientPublish(_, m) => node.(broker := node.broker + {m})
    case BrokerDeliver(_, m) => AfterBrokerDeliver(node, m, clockMs)
    case ForwardToGossip(_) => if node.toGossip == [] then node else node.(toGossip := node.toGossip[1..])
    case GossipDeliver(_, from, g) =>
      if !Gate(n, from, g) then node
      else node.(toMqtt := node.toMqtt + [MqttMessage(g)], received := node.received + [g])
    case PublishToBroker(_, ok) => if node.toMqtt == [] then node else AfterPublish(node, clockMs, ok)
    case _ => node
  }

  lemma NodesAfter(s: Network, step: Step, n: nat)
    requires Enabled(s, step) && n < |s.nodes|
    ensures Apply(s, step).nodes[n]
         == if !step.Tick? && step.n == n then NodeAfter(s.nodes[n], n, step, s.clockMs) else s.nodes[n]
  {
    hide AfterBrokerDeliver, AfterPublish, Gate, MqttMessage;
  }

  ghost predicate IsRun(s: Network, steps: seq<Step>)
    decreases |steps|
  {
    steps != [] ==> Enabled(s, steps[0]) && IsRun(Apply(s, steps[0]), steps[1..])
  }

  ghost function Run(s: Network, steps: seq<Step>): (t: Network)
    requires IsRun(s, steps)
    ensures |t.nodes| == |s.nodes|
    decreases |steps|
  {
    if steps == [] then s else Run(Apply(s, steps[0]), steps[1..])
  }

  // ----- what every step keeps

  ghost predicate NodeInv(node: Node, now: nat) {
    && Remembers(node.bridge.seen, node.passes, now)
    && InOrder(node.acts, now) && Spaced(node.acts)
    && forall i :: 0 <= i < |node.acts| ==> node.acts[i] in node.passes
  }

  /** Every message and every act of a node carries an originated key. */
  ghost predicate Traceable(node: Node, originated: set<string>) {
    && (forall m :: m in node.broker ==> MessageHash(m) in originated)
    && (forall i :: 0 <= i < |node.toGossip| ==> MessageHash(node.toGossip[i]) in originated)
    && (forall i :: 0 <= i < |node.toMqtt| ==> MessageHash(node.toMqtt[i]) in originated)
    && (forall i :: 0 <= i < |node.acts| ==> node.acts[i].key in originated)
  }

  ghost predicate Inv(s: Network) {
    && (forall n :: 0 <= n < |s.nodes| ==> NodeInv(s.nodes[n], s.Now()) && Traceable(s.nodes[n], s.originated))
    && (forall g :: g in s.gossip ==> MessageHash(MqttMessage(g)) in s.originated)
  }

  lemma InitInv(n: nat)
    ensures Inv(Init(n))
  {
  }

  lemma NodeInvLater(node: Node, now: nat, later: nat)
    requires NodeInv(node, now) && now <= later
    ensures NodeInv(node, later)
  {
  }

  lemma NotedInv(node: Node, bridge: State, key: string, now: nat, passed: bool, acted: bool)
    requires NodeInv(node, now) && (acted ==> passed)
    requires bridge.seen == CheckDuplicate(node.bridge, key, now).0.seen
    requires passed <==> !CheckDuplicate(node.bridge, key, now).1
    ensures NodeInv(Note(node, bridge, key, now, passed, acted), now)
  {
    CheckDuplicateIsHistory(node.bridge, node.passes, key, now);
    var noted := Note(node, bridge, key, now, passed, acted);
    if acted {
      forall i | 0 <= i < |node.acts| && node.acts[i].key == key ensures now - node.acts[i].time > DEDUP_WINDOW_SECS {
        assert node.acts[i] in node.passes;
        var j :| 0 <= j < |node.passes| && node.passes[j] == node.acts[i];
        assert !InWindow(node.passes[j], now);
      }
    }
  }

  lemma BrokerDeliverInv(node: Node, m: Message, clockMs: nat, originated: set<string>)
    requires NodeInv(node, clockMs / 1000) && Traceable(node, originated) && m in node.broker
    ensures NodeInv(AfterBrokerDeliver(node, m, clockMs), clockMs / 1000)
    ensures Traceable(AfterBrokerDeliver(node, m, clockMs), originated)
  {
    var key := MessageHash(m);
    var duplicate := CheckDuplicate(node.bridge, key, clockMs / 1000).1;
    var (bridge, forward) := OnMqttPublish(node.bridge, m, clockMs);
    NotedInv(node, bridge, key, clockMs / 1000, !duplicate, forward);
  }

  lemma PublishInv(node: Node, clockMs: nat, ok: bool, originated: set<string>)
    requires node.toMqtt != [] && NodeInv(node, clockMs / 1000) && Traceable(node, originated)
    ensures NodeInv(AfterPublish(node, clockMs, ok), clockMs / 1000)
    ensures Traceable(AfterPublish(node, clockMs, ok), originated)
  {
    var m := node.toMqtt[0];
    var rest := node.(toMqtt := node.toMqtt[1..]);
    var (bridge, publish) := OnGossipMessage(node.bridge, m, FromGossip, clockMs, ok);
    NotedInv(rest, bridge, MessageHash(m), clockMs / 1000, publish, publish);
  }

  lemma TraceableLater(node: Node, originated: set<string>, more: set<string>)
    requires Traceable(node, originated) && originated <= more
    ensures Traceable(node, more)
  {
    hide MessageHash;
  }

  lemma NodeKeepsInv(node: Node, n: nat, step: Step, clockMs: nat, originated: set<string>)
    requires NodeInv(node, clockMs / 1000) && Traceable(node, originated)
    requires step.ClientPublish? ==> MessageHash(step.m) in originated
    requires step.BrokerDeliver? ==> step.m in node.broker
    requires step.GossipDeliver? ==> MessageHash(MqttMessage(step.g)) in originated
    ensures NodeInv(NodeAfter(node, n, step, clockMs), clockMs / 1000)
    ensures Traceable(NodeAfter(node, n, step, clockMs), originated)
  {
    if step.BrokerDeliver? {
      BrokerDeliverInv(node, step.m, clockMs, originated);
    } else if step.PublishToBroker? && node.toMqtt != [] {
      PublishInv(node, clockMs, step.ok, originated);
    } else {
      hide AfterBrokerDeliver, AfterPublish, MessageHash, MqttMessage, Gate, Remembers, InOrder, Spaced;
    }
  }

  lemma GossipKeepsOrigin(s: Network, step: Step)
    requires Inv(s) && Enabled(s, step)
    ensures var t := Apply(s, step);
            s.originated <= t.originated && forall g :: g in t.gossip ==> MessageHash(MqttMessage(g)) in t.originated
  {
    hide AfterBrokerDeliver, AfterPublish, MessageHash, NodeInv;
    if step.ForwardToGossip? {
      var m := s.nodes[step.n].toGossip[0];
      assert MqttMessage(GossipMessage(MQTT_ORIGIN, step.n, Some(m.topic), m.payload)) == m;
      assert Traceable(s.nodes[step.n], s.originated);
    }
  }

  lemma StepSources(s: Network, step: Step)
    requires Enabled(s, step)
    ensures step.ClientPublish? ==> MessageHash(step.m) in Apply(s, step).originated
    ensures s.Now() <= Apply(s, step).Now() && (!step.Tick? ==> Apply(s, step).clockMs == s.clockMs)
  {
    hide AfterBrokerDeliver, AfterPublish, MessageHash;
  }

  lemma StepKeepsInv(s: Network, step: Step)
    requires Inv(s) && Enabled(s, step)
    ensures Inv(Apply(s, step))
  {
    var t := Apply(s, step);
    GossipKeepsOrigin(s, step);
    StepSources(s, step);
    assert step.GossipDeliver? ==> MessageHash(MqttMessage(step.g)) in s.originated;
    assert step.BrokerDeliver? ==> step.m in s.nodes[step.n].broker;
    assert forall n :: 0 <= n < |s.nodes| ==> NodeInv(s.nodes[n], s.Now()) && Traceable(s.nodes[n], s.originated);
    hide Apply, Enabled, NodeInv, Traceable, NodeAfter, MessageHash, MqttMessage;
    forall n | 0 <= n < |t.nodes| ensures NodeInv(t.nodes[n], t.Now()) && Traceable(t.nodes[n], t.originated) {
      NodesAfter(s, step, n);
      NodeInvLater(s.nodes[n], s.Now(), t.Now());
      TraceableLater(s.nodes[n], s.originated, t.originated);
      if !step.Tick? && step.n == n {
        NodeKeepsInv(s.nodes[n], n, step, s.clockMs, t.originated);
      }
    }
  }

  lemma {:induction false} RunKeepsInv(s: Network, steps: seq<Step>)
    requires Inv(s) && IsRun(s, steps)
    ensures Inv(Run(s, steps))
    decreases |steps|
  {
    if steps != [] {
      StepKeepsInv(s, steps[0]);
      hide Inv, Apply, Enabled;
      RunKeepsInv(Apply(s, steps[0]), steps[1..]);
    }
  }

  // ----- loop freedom

  /** In every run, a node acts on one key, by forwarding or publishing, at most once in any 300-second span. */
  lemma NoNodeActsTwice(size: nat, steps: seq<Step>)
    requires IsRun(Init(size), steps)
    ensures forall n :: 0 <= n < size ==> Spaced(Run(Init(size), steps).nodes[n].acts)
  {
    InitInv(size);
    RunKeepsInv(Init(size), steps);
  }

  /** While the last act on a key is within the window, its echo from the broker is dropped. */
  lemma EchoIsDropped(size: nat, steps: seq<Step>, n: nat, m: Message, i: nat)
    requires IsRun(Init(size), steps) && n < size && m in Run(Init(size), steps).nodes[n].broker
    requires i < |Run(Init(size), steps).nodes[n].acts|
    requires Run(Init(size), steps).nodes[n].acts[i].key == MessageHash(m)
    requires InWindow(Run(Init(size), steps).nodes[n].acts[i], Run(Init(size), steps).Now())
    ensures var s := Run(Init(size), steps);
            var node := Apply(s, BrokerDeliver(n, m)).nodes[n];
            node.toGossip == s.nodes[n].toGossip && node.acts == s.nodes[n].acts && node.passes == s.nodes[n].passes
  {
    InitInv(size);
    RunKeepsInv(Init(size), steps);
    var s := Run(Init(size), steps);
    assert NodeInv(s.nodes[n], s.Now());
    hide Run, IsRun, Inv, NodeInv, AfterBrokerDeliver, MessageHash;
    NodeDropsEcho(s.nodes[n], m, s.clockMs, i);
  }

  lemma NodeDropsEcho(node: Node, m: Message, clockMs: nat, i: nat)
    requires NodeInv(node, clockMs / 1000) && i < |node.acts|
    requires node.acts[i].key == MessageHash(m) && InWindow(node.acts[i], clockMs / 1000)
    ensures var after := AfterBrokerDeliver(node, m, clockMs);
            after.toGossip == node.toGossip && after.acts == node.acts && after.passes == node.passes
  {
    var p, now := node.acts[i], clockMs / 1000;
    assert p in node.passes;
    var j :| 0 <= j < |node.passes| && node.passes[j] == p;
    assert PassedRecently(node.passes, MessageHash(m), now);
    CheckDuplicateIsHistory(node.bridge, node.passes, MessageHash(m), now);
    hide NodeInv, PassedRecently, MessageHash, DropOld, HasKey;
  }

  // ----- nothing comes back

  /** What waits to be published stands for messages that came through the gate, and so does all that was published;
      nothing that came through was forwarded by this node. What waits to be forwarded counts as forwarded. */
  ghost predicate NodeLineage(node: Node, n: nat, gossip: set<GossipMessage>) {
    && |node.toMqtt| <= |node.received|
    && (forall i :: 0 <= i < |node.toMqtt| ==>
          node.toMqtt[i] == MqttMessage(node.received[|node.received| - |node.toMqtt| + i]))
    && (forall i :: 0 <= i < |node.received| ==>
          node.received[i] in gossip && !(node.received[i].origin == MQTT_ORIGIN && node.received[i].broker == n))
    && (forall m :: m in node.published ==> Stands(node.received, m))
    && (forall i :: 0 <= i < |node.toGossip| ==> node.toGossip[i] in node.forwarded)
  }

  ghost predicate Stands(received: seq<GossipMessage>, m: Message) {
    exists i :: 0 <= i < |received| && MqttMessage(received[i]) == m
  }

  /** A gossip message is a local broadcast, or names as its broker the node that forwarded it. */
  ghost predicate Attributed(s: Network, g: GossipMessage) {
    || g.origin == LOCAL_ORIGIN
    || (g.origin == MQTT_ORIGIN && g.broker < |s.nodes| && MqttMessage(g) in s.nodes[g.broker].forwarded)
  }

  ghost predicate Lineage(s: Network) {
    && (forall n :: 0 <= n < |s.nodes| ==> NodeLineage(s.nodes[n], n, s.gossip))
    && (forall g :: g in s.gossip ==> Attributed(s, g))
  }

  lemma StandsLater(received: seq<GossipMessage>, more: seq<GossipMessage>, m: Message)
    requires Stands(received, m)
    ensures Stands(received + more, m)
  {
    var i :| 0 <= i < |received| && MqttMessage(received[i]) == m;
    assert (received + more)[i] == received[i];
  }

  lemma PublishLineage(node: Node, n: nat, gossip: set<GossipMessage>, clockMs: nat, ok: bool)
    requires NodeLineage(node, n, gossip) && node.toMqtt != []
    ensures NodeLineage(AfterPublish(node, clockMs, ok), n, gossip)
    ensures AfterPublish(node, clockMs, ok).forwarded == node.forwarded
  {
    hide OnGossipMessage, MqttMessage;
    assert Stands(node.received, node.toMqtt[0]);
  }

  lemma DeliverLineage(node: Node, n: nat, from: nat, gossip: set<GossipMessage>, g: GossipMessage)
    requires NodeLineage(node, n, gossip) && g in gossip && Gate(n, from, g)
    ensures NodeLineage(node.(toMqtt := node.toMqtt + [MqttMessage(g)], received := node.received + [g]), n, gossip)
  {
    hide MqttMessage, Stands;
    forall m | m in node.published ensures Stands(node.received + [g], m) {
      StandsLater(node.received, [g], m);
    }
  }

  lemma BrokerDeliverLineage(node: Node, n: nat, gossip: set<GossipMessage>, m: Message, clockMs: nat)
    requires NodeLineage(node, n, gossip)
    ensures NodeLineage(AfterBrokerDeliver(node, m, clockMs), n, gossip)
    ensures node.forwarded <= AfterBrokerDeliver(node, m, clockMs).forwarded
  {
    hide MqttMessage, OnMqttPublish, CheckDuplicate, Stands;
  }

  lemma MoreGossip(node: Node, n: nat, gossip: set<GossipMessage>, more: set<GossipMessage>)
    requires NodeLineage(node, n, gossip) && gossip <= more
    ensures NodeLineage(node, n, more)
  {
    hide MqttMessage, Stands;
  }

  lemma NodeKeepsLineage(node: Node, n: nat, step: Step, clockMs: nat, gossip: set<GossipMessage>)
    requires NodeLineage(node, n, gossip) && (step.GossipDeliver? ==> step.g in gossip)
    ensures NodeLineage(NodeAfter(node, n, step, clockMs), n, gossip)
    ensures node.forwarded <= NodeAfter(node, n, step, clockMs).forwarded
  {
    match step
    case BrokerDeliver(_, m) => BrokerDeliverLineage(node, n, gossip, m, clockMs);
    case GossipDeliver(_, from, g) =>
      if Gate(n, from, g) {
        DeliverLineage(node, n, from, gossip, g);
      }
    case PublishToBroker(_, ok) =>
      if node.toMqtt != [] {
        PublishLineage(node, n, gossip, clockMs, ok);
      }
    case _ => hide MqttMessage, Stands;
  }

  lemma NodeLineageAfter(s: Network, step: Step, n: nat)
    requires Lineage(s) && Enabled(s, step) && n < |s.nodes|
    ensures NodeLineage(Apply(s, step).nodes[n], n, Apply(s, step).gossip)
    ensures s.nodes[n].forwarded <= Apply(s, step).nodes[n].forwarded
  {
    assert NodeLineage(s.nodes[n], n, s.gossip);
    assert s.gossip <= Apply(s, step).gossip;
    hide Lineage, NodeLineage, NodeAfter, Apply;
    NodesAfter(s, step, n);
    NodeKeepsLineage(s.nodes[n], n, step, s.clockMs, s.gossip);
    MoreGossip(Apply(s, step).nodes[n], n, s.gossip, Apply(s, step).gossip);
  }

  lemma StepKeepsLineage(s: Network, step: Step)
    requires Lineage(s) && Enabled(s, step)
    ensures Lineage(Apply(s, step))
  {
    var t := Apply(s, step);
    forall n | 0 <= n < |t.nodes|
      ensures NodeLineage(t.nodes[n], n, t.gossip) && s.nodes[n].forwarded <= t.nodes[n].forwarded
    {
      NodeLineageAfter(s, step, n);
    }
    assert step.ForwardToGossip? ==> s.nodes[step.n].toGossip[0] in s.nodes[step.n].forwarded by {
      assert step.ForwardToGossip? ==> NodeLineage(s.nodes[step.n], step.n, s.gossip);
    }
    hide NodeLineage, AfterBrokerDeliver, AfterPublish;
    forall g | g in t.gossip ensures Attributed(t, g) {
      if g in s.gossip {
        assert Attributed(s, g);
      }
    }
  }

  lemma {:induction false} RunKeepsLineage(s: Network, steps: seq<Step>)
    requires Lineage(s) && IsRun(s, steps)
    ensures Lineage(Run(s, steps))
    decreases |steps|
  {
    if steps != [] {
      StepKeepsLineage(s, steps[0]);
      hide Lineage, Apply, Enabled;
      RunKeepsLineage(Apply(s, steps[0]), steps[1..]);
    }
  }

  /** A node never brings to its broker a message on the strength of its own forward: in every run, all that it has
      published, or is about to, stands for a local broadcast or for what another node forwarded. */
  lemma OwnForwardsStayAway(size: nat, steps: seq<Step>, n: nat, m: Message)
    requires IsRun(Init(size), steps) && n < size
    requires m in Run(Init(size), steps).nodes[n].published || m in Run(Init(size), steps).nodes[n].toMqtt
    ensures var s := Run(Init(size), steps);
            exists g :: g in s.gossip && MqttMessage(g) == m
                        && (g.origin == LOCAL_ORIGIN
                            || (g.broker != n && g.broker < size && m in s.nodes[g.broker].forwarded))
  {
    RunKeepsLineage(Init(size), steps);
    hide *;
    LineageExplains(Run(Init(size), steps), n, m);
  }

  lemma LineageExplains(s: Network, n: nat, m: Message)
    requires Lineage(s) && n < |s.nodes| && (m in s.nodes[n].published || m in s.nodes[n].toMqtt)
    ensures exists g :: g in s.gossip && MqttMessage(g) == m
                        && (g.origin == LOCAL_ORIGIN
                            || (g.broker != n && g.broker < |s.nodes| && m in s.nodes[g.broker].forwarded))
  {
    var node := s.nodes[n];
    hide MqttMessage;
    assert NodeLineage(node, n, s.gossip);
    if m in node.toMqtt {
      var i :| 0 <= i < |node.toMqtt| && node.toMqtt[i] == m;
      assert MqttMessage(node.received[|node.received| - |node.toMqtt| + i]) == m;
    } else {
      assert Stands(node.received, m);
    }
    var i :| 0 <= i < |node.received| && MqttMessage(node.received[i]) == m;
    assert Attributed(s, node.received[i]);
  }

  // ----- quiescence

  /** The passes of one key. */
  function OnKey(key: string): Pass -> bool { (p: Pass) => p.key == key }

  /** Of messages with this key, nothing new waits to be forwarded and nothing new is at the broker; the node has not
      acted on it again, nor passed it. */
  ghost predicate Quiet(before: Node, after: Node, key: string) {
    && Filter(OnKey(key), after.acts) == Filter(OnKey(key), before.acts)
    && before.passes <= after.passes
    && (forall m :: m in after.toGossip && MessageHash(m) == key ==> m in before.toGossip)
    && (forall m :: m in after.broker && MessageHash(m) == key ==> m in before.broker)
  }

  lemma QuietTransitive(a: Node, b: Node, c: Node, key: string)
    requires Quiet(a, b, key) && Quiet(b, c, key)
    ensures Quiet(a, c, key)
  {
    hide MessageHash, Filter, OnKey;
  }

  lemma NotedQuiet(node: Node, bridge: State, other: string, now: nat, passed: bool, acted: bool, key: string)
    requires acted ==> other != key
    ensures Quiet(node, Note(node, bridge, other, now, passed, acted), key)
  {
    if acted {
      FilterLast(OnKey(key), node.acts, Pass(other, now));
    }
  }

  lemma SaturatedIsDuplicate(node: Node, key: string, now: nat)
    requires NodeInv(node, now) && PassedRecently(node.passes, key, now)
    ensures CheckDuplicate(node.bridge, key, now).1
  {
    CheckDuplicateIsHistory(node.bridge, node.passes, key, now);
  }

  lemma BrokerDeliverQuiet(node: Node, m: Message, clockMs: nat, key: string)
    requires NodeInv(node, clockMs / 1000) && PassedRecently(node.passes, key, clockMs / 1000)
    ensures Quiet(node, AfterBrokerDeliver(node, m, clockMs), key)
  {
    var other, now := MessageHash(m), clockMs / 1000;
    SaturatedIsDuplicate(node, key, now);
    var duplicate := CheckDuplicate(node.bridge, other, now).1;
    var (bridge, forward) := OnMqttPublish(node.bridge, m, clockMs);
    assert forward ==> !duplicate;
    hide NodeInv, PassedRecently, CheckDuplicate, OnMqttPublish, Filter, OnKey, MessageHash;
    NotedQuiet(node, bridge, other, now, !duplicate, forward, key);
  }

  lemma PublishQuiet(node: Node, clockMs: nat, ok: bool, key: string)
    requires NodeInv(node, clockMs / 1000) && PassedRecently(node.passes, key, clockMs / 1000) && node.toMqtt != []
    ensures Quiet(node, AfterPublish(node, clockMs, ok), key)
  {
    var m, now := node.toMqtt[0], clockMs / 1000;
    SaturatedIsDuplicate(node, key, now);
    var rest := node.(toMqtt := node.toMqtt[1..]);
    var (bridge, publish) := OnGossipMessage(node.bridge, m, FromGossip, clockMs, ok);
    assert publish ==> !CheckDuplicate(node.bridge, MessageHash(m), now).1;
    hide NodeInv, PassedRecently, CheckDuplicate, OnGossipMessage, Filter, OnKey, MessageHash;
    NotedQuiet(rest, bridge, MessageHash(m), now, publish, publish, key);
  }

  lemma SameIsQuiet(before: Node, after: Node, key: string)
    requires after.acts == before.acts && after.passes == before.passes
    requires forall m :: m in after.toGossip ==> m in before.toGossip
    requires forall m :: m in after.broker && MessageHash(m) == key ==> m in before.broker
    ensures Quiet(before, after, key)
  {
  }

  lemma NodeQuiet(node: Node, n: nat, step: Step, clockMs: nat, key: string)
    requires NodeInv(node, clockMs / 1000) && PassedRecently(node.passes, key, clockMs / 1000)
    requires step.ClientPublish? ==> MessageHash(step.m) != key
    ensures Quiet(node, NodeAfter(node, n, step, clockMs), key)
  {
    hide Quiet, NodeInv, PassedRecently, AfterBrokerDeliver, AfterPublish, MqttMessage, Gate, MessageHash;
    if step.BrokerDeliver? {
      BrokerDeliverQuiet(node, step.m, clockMs, key);
    } else if step.PublishToBroker? && node.toMqtt != [] {
      PublishQuiet(node, clockMs, step.ok, key);
    } else {
      SameIsQuiet(node, NodeAfter(node, n, step, clockMs), key);
    }
  }

  lemma StepQuiet(s: Network, step: Step, key: string, n: nat)
    requires Inv(s) && Enabled(s, step) && n < |s.nodes| && PassedRecently(s.nodes[n].passes, key, s.Now())
    requires step.ClientPublish? ==> MessageHash(step.m) != key
    ensures Quiet(s.nodes[n], Apply(s, step).nodes[n], key)
  {
    assert NodeInv(s.nodes[n], s.Now());
    hide Inv, NodeInv, Apply, NodeAfter, Quiet;
    NodesAfter(s, step, n);
    NodeQuiet(s.nodes[n], n, step, s.clockMs, key);
    SameIsQuiet(s.nodes[n], s.nodes[n], key);
  }

  /** No client publishes the key. */
  ghost predicate Unprovoked(steps: seq<Step>, key: string) {
    forall i :: 0 <= i < |steps| && steps[i].ClientPublish? ==> MessageHash(steps[i].m) != key
  }

  /** Every node has passed the key no longer than a window before `end`. */
  ghost predicate SaturatedUntil(s: Network, key: string, end: nat) {
    forall n :: 0 <= n < |s.nodes| ==> PassedRecently(s.nodes[n].passes, key, end)
  }

  lemma PassesLast(before: seq<Pass>, after: seq<Pass>, key: string, now: nat, end: nat)
    requires PassedRecently(before, key, end) && before <= after && now <= end
    ensures PassedRecently(after, key, end) && PassedRecently(before, key, now)
  {
    var i :| 0 <= i < |before| && before[i].key == key && InWindow(before[i], end);
    assert after[i] == before[i] && InWindow(before[i], now);
  }

  lemma {:induction false} RunClock(s: Network, steps: seq<Step>)
    requires IsRun(s, steps)
    ensures s.clockMs <= Run(s, steps).clockMs
    decreases |steps|
  {
    if steps != [] {
      assert s.clockMs <= Apply(s, steps[0]).clockMs;
      hide Apply;
      RunClock(Apply(s, steps[0]), steps[1..]);
    }
  }

  lemma {:induction false} SaturatedRun(s: Network, steps: seq<Step>, key: string, n: nat)
    requires Inv(s) && IsRun(s, steps) && Unprovoked(steps, key) && n < |s.nodes|
    requires PassedRecently(s.nodes[n].passes, key, Run(s, steps).Now())
    ensures Quiet(s.nodes[n], Run(s, steps).nodes[n], key)
    decreases |steps|
  {
    if steps != [] {
      var next, end := Apply(s, steps[0]), Run(s, steps).Now();
      RunClock(s, steps);
      RunClock(next, steps[1..]);
      PassesLast(s.nodes[n].passes, s.nodes[n].passes, key, s.Now(), end);
      StepQuiet(s, steps[0], key, n);
      assert s.nodes[n].passes <= next.nodes[n].passes;
      PassesLast(s.nodes[n].passes, next.nodes[n].passes, key, s.Now(), end);
      StepKeepsInv(s, steps[0]);
      assert Unprovoked(steps[1..], key);
      hide Inv, Apply, Enabled, PassedRecently, Unprovoked, Quiet;
      SaturatedRun(next, steps[1..], key, n);
      QuietTransitive(s.nodes[n], next.nodes[n], Run(s, steps).nodes[n], key);
    }
  }

  /** Quiescence: once every node has passed a key, then until the window of the first of them ends, no relay, echo or
      repetition makes any node act on it, queue it for gossip or bring it to its broker. */
  lemma SaturatedIsQuiet(size: nat, steps: seq<Step>, more: seq<Step>, key: string)
    requires IsRun(Init(size), steps) && IsRun(Run(Init(size), steps), more) && Unprovoked(more, key)
    requires SaturatedUntil(Run(Init(size), steps), key, Run(Run(Init(size), steps), more).Now())
    ensures var s := Run(Init(size), steps);
            forall n :: 0 <= n < size ==> Quiet(s.nodes[n], Run(s, more).nodes[n], key)
  {
    InitInv(size);
    RunKeepsInv(Init(size), steps);
    hide Inv, Quiet;
    forall n | 0 <= n < size
      ensures Quiet(Run(Init(size), steps).nodes[n], Run(Run(Init(size), steps), more).nodes[n], key)
    {
      SaturatedRun(Run(Init(size), steps), more, key, n);
    }
  }

  // ----- how often a key is acted on

  function InSpan(key: string, start: nat, span: nat): Pass -> bool {
    (p: Pass) => p.key == key && start <= p.time <= start + span
  }

  /** The acts on `key` between `start` and `start + span`, over all nodes. */
  ghost function ActCount(nodes: seq<Node>, key: string, start: nat, span: nat): nat {
    if nodes == [] then 0
    else |Filter(InSpan(key, start, span), nodes[0].acts)| + ActCount(nodes[1..], key, start, span)
  }

  lemma {:induction false} FilterSpaced(acts: seq<Pass>, key: string, start: nat, span: nat)
    requires Spaced(acts)
    ensures Spaced(Filter(InSpan(key, start, span), acts))
  {
    if acts != [] {
      FilterSpaced(acts[1..], key, start, span);
      var f := Filter(InSpan(key, start, span), acts[1..]);
      forall i | 0 <= i < |f| && acts[0].key == f[i].key ensures f[i].time - acts[0].time > DEDUP_WINDOW_SECS {
        FilterMembers(InSpan(key, start, span), acts[1..], f[i]);
        var k :| 0 <= k < |acts[1..]| && acts[1..][k] == f[i];
        assert acts[k + 1] == f[i];
      }
    }
  }

  lemma {:induction false} SpacedSpreads(s: seq<Pass>, key: string)
    requires Spaced(s) && s != [] && forall i :: 0 <= i < |s| ==> s[i].key == key
    ensures s[|s| - 1].time >= s[0].time + (DEDUP_WINDOW_SECS + 1) * (|s| - 1)
  {
    if |s| > 1 {
      SpacedSpreads(s[..|s| - 1], key);
    }
  }

  lemma NodeActBound(acts: seq<Pass>, key: string, start: nat, span: nat)
    requires Spaced(acts)
    ensures |Filter(InSpan(key, start, span), acts)| <= span / (DEDUP_WINDOW_SECS + 1) + 1
  {
    var f := Filter(InSpan(key, start, span), acts);
    FilterSpaced(acts, key, start, span);
    forall i | 0 <= i < |f| ensures f[i].key == key && start <= f[i].time <= start + span {
      FilterMembers(InSpan(key, start, span), acts, f[i]);
    }
    if f != [] {
      SpacedSpreads(f, key);
      assert f[|f| - 1].time <= start + span && f[0].time >= start;
    }
  }

  lemma {:induction false} ActCountBound(nodes: seq<Node>, key: string, start: nat, span: nat)
    requires forall n :: 0 <= n < |nodes| ==> Spaced(nodes[n].acts)
    ensures ActCount(nodes, key, start, span) <= |nodes| * (span / (DEDUP_WINDOW_SECS + 1) + 1)
  {
    if nodes != [] {
      NodeActBound(nodes[0].acts, key, start, span);
      ActCountBound(nodes[1..], key, start, span);
      var bound := span / (DEDUP_WINDOW_SECS + 1) + 1;
      assert |nodes| * bound == bound + (|nodes| - 1) * bound;
    }
  }

  /** However messages are relayed, echoed and repeated, the network acts on one key at most once per node in any
      300-second span, and in longer spans at most once per node and started window. */
  lemma ActsAreBounded(size: nat, steps: seq<Step>, key: string, start: nat, span: nat)
    requires IsRun(Init(size), steps)
    ensures ActCount(Run(Init(size), steps).nodes, key, start, span) <= size * (span / (DEDUP_WINDOW_SECS + 1) + 1)
    ensures span <= DEDUP_WINDOW_SECS ==> ActCount(Run(Init(size), steps).nodes, key, start, span) <= size
  {
    NoNodeActsTwice(size, steps);
    ActCountBound(Run(Init(size), steps).nodes, key, start, span);
  }

  // ----- nothing out of thin air

  function Source(step: Step): set<string> {
    match step
    case ClientPublish(_, m) => {MessageHash(m)}
    case LocalBroadcast(_, payload) => {MessageHash(Message(DATA_TOPIC, payload))}
    case _ => {}
  }

  /** The keys that the steps of a run brought in from outside. */
  ghost function Sources(steps: seq<Step>): set<string> {
    if steps == [] then {} else Source(steps[0]) + Sources(steps[1..])
  }

  lemma {:induction false} OriginatedAreSources(s: Network, steps: seq<Step>)
    requires IsRun(s, steps)
    ensures Run(s, steps).originated == s.originated + Sources(steps)
    decreases |steps|
  {
    if steps != [] {
      OriginatedAreSources(Apply(s, steps[0]), steps[1..]);
    }
  }

  /** Every act is about a key that some client publish or local broadcast of the run brought in. */
  lemma ActsHaveSources(size: nat, steps: seq<Step>, n: nat, i: nat)
    requires IsRun(Init(size), steps) && n < size && i < |Run(Init(size), steps).nodes[n].acts|
    ensures Run(Init(size), steps).nodes[n].acts[i].key in Sources(steps)
  {
    InitInv(size);
    RunKeepsInv(Init(size), steps);
    OriginatedAreSources(Init(size), steps);
    assert Traceable(Run(Init(size), steps).nodes[n], Run(Init(size), steps).originated);
  }
}
