/** Connection and operation limits (src/resource_manager.rs) under every interleaving of single atomic steps. */
module ResourceManager {
  import opened Sets
  import opened Words

  // ----- connections: an optimistic counter

  /** A caller of `register_connection`: it has incremented the counter and seen the old value, or holds a guard. */
  datatype Connection =
    | Registering(seen: nat)
    | Connected

  /** The atomic counter, and the callers that have incremented it but not yet decremented it. */
  datatype Connections = Connections(counter: nat, callers: map<nat, Connection>)

  datatype ConnectionStep =
    | Increment(caller: nat)
    | Decide(caller: nat)
    | DropConnection(caller: nat)

  predicate ConnectionEnabled(s: Connections, a: ConnectionStep) {
    match a
    case Increment(c) => c !in s.callers
    case Decide(c) => c in s.callers && s.callers[c].Registering?
    case DropConnection(c) => c in s.callers && s.callers[c].Connected?
  }

  /** A refused caller decrements the counter again in the step in which it is told; the counter wraps below zero. */
  function ConnectionAfter(max: nat, s: Connections, a: ConnectionStep): Connections
    requires ConnectionEnabled(s, a)
  {
    match a
    case Increment(c) => Connections(s.counter + 1, s.callers[c := Registering(s.counter)])
    case Decide(c) =>
      if s.callers[c].seen >= max then Connections(Decremented(s.counter), s.callers - {c})
      else s.(callers := s.callers[c := Connected])
    case DropConnection(c) => Connections(Decremented(s.counter), s.callers - {c})
  }

  function Decremented(n: nat): nat { if n == 0 then USIZE_MAX else n - 1 }

  ghost function Guards(s: Connections): set<nat> {
    set c | c in s.callers && s.callers[c].Connected?
  }

  /** Callers that hold a guard or are bound to get one. */
  ghost function Winners(max: nat, s: Connections): set<nat> {
    set c | c in s.callers && (s.callers[c].Connected? || s.callers[c].seen < max)
  }

  /** The counter is the number of callers between increment and decrement, and no more than `max` can win. */
  ghost predicate ConnectionInv(max: nat, s: Connections) {
    s.counter == |s.callers| && |Winners(max, s)| <= max
  }

  lemma WinnersAreCallers(max: nat, s: Connections)
    ensures |Winners(max, s)| <= |s.callers.Keys| && |Guards(s)| <= |Winners(max, s)|
  {
    SubsetSize(Winners(max, s), s.callers.Keys);
    SubsetSize(Guards(s), Winners(max, s));
  }

  lemma WinnersAfter(max: nat, s: Connections, a: ConnectionStep)
    requires ConnectionEnabled(s, a)
    ensures var t := ConnectionAfter(max, s, a);
            match a
            case Increment(c) =>
              Winners(max, t) == if s.counter < max then Winners(max, s) + {c} else Winners(max, s)
            case Decide(c) => Winners(max, t) == Winners(max, s)
            case DropConnection(c) => Winners(max, t) == Winners(max, s) - {c} && c in Winners(max, s)
  {
  }

  lemma CallersAfter(max: nat, s: Connections, a: ConnectionStep)
    requires ConnectionEnabled(s, a) && s.counter == |s.callers|
    ensures ConnectionAfter(max, s, a).counter == |ConnectionAfter(max, s, a).callers|
  {
  }

  lemma ConnectionStepKeepsInv(max: nat, s: Connections, a: ConnectionStep)
    requires ConnectionInv(max, s) && ConnectionEnabled(s, a)
    ensures ConnectionInv(max, ConnectionAfter(max, s, a))
  {
    CallersAfter(max, s, a);
    WinnersAfter(max, s, a);
    WinnersAreCallers(max, s);
    hide Winners, ConnectionAfter;
  }

  ghost predicate IsConnectionTrace(max: nat, s: Connections, steps: seq<ConnectionStep>)
    decreases |steps|
  {
    steps != [] ==>
      ConnectionEnabled(s, steps[0]) && IsConnectionTrace(max, ConnectionAfter(max, s, steps[0]), steps[1..])
  }

  ghost function ConnectionTrace(max: nat, s: Connections, steps: seq<ConnectionStep>): Connections
    requires IsConnectionTrace(max, s, steps)
    decreases |steps|
  {
    if steps == [] then s else ConnectionTrace(max, ConnectionAfter(max, s, steps[0]), steps[1..])
  }

  lemma {:induction false} ConnectionTraceKeepsInv(max: nat, s: Connections, steps: seq<ConnectionStep>)
    requires ConnectionInv(max, s) && IsConnectionTrace(max, s, steps)
    ensures ConnectionInv(max, ConnectionTrace(max, s, steps))
    decreases |steps|
  {
    if steps != [] {
      ConnectionStepKeepsInv(max, s, steps[0]);
      hide ConnectionInv, ConnectionAfter, ConnectionEnabled;
      ConnectionTraceKeepsInv(max, ConnectionAfter(max, s, steps[0]), steps[1..]);
    }
  }

  const NO_CONNECTIONS := Connections(0, map[])

  /** In every interleaving at most `max` guards are live, even while the counter is above `max`; and the counter is
      exactly the guards plus the attempts in progress, so decrementing it never wraps. */
  lemma ConnectionsLimited(max: nat, steps: seq<ConnectionStep>)
    requires IsConnectionTrace(max, NO_CONNECTIONS, steps)
    ensures var s := ConnectionTrace(max, NO_CONNECTIONS, steps);
            && |Guards(s)| <= max
            && s.counter == |s.callers|
            && forall a :: ConnectionEnabled(s, a) && !a.Increment? ==> s.counter > 0
  {
    assert Winners(max, NO_CONNECTIONS) == {};
    ConnectionTraceKeepsInv(max, NO_CONNECTIONS, steps);
    var s := ConnectionTrace(max, NO_CONNECTIONS, steps);
    WinnersAreCallers(max, s);
    forall a | ConnectionEnabled(s, a) && !a.Increment? ensures s.counter > 0 {
      assert a.caller in s.callers.Keys;
    }
  }

  /** A registration is refused exactly when guards and attempts in progress together have reached `max`. */
  lemma RefusedExactly(max: nat, steps: seq<ConnectionStep>, c: nat)
    requires IsConnectionTrace(max, NO_CONNECTIONS, steps)
    requires c !in ConnectionTrace(max, NO_CONNECTIONS, steps).callers
    ensures var s := ConnectionTrace(max, NO_CONNECTIONS, steps);
            var t := ConnectionAfter(max, s, Increment(c));
            c !in ConnectionAfter(max, t, Decide(c)).callers <==> |s.callers| >= max
  {
    assert Winners(max, NO_CONNECTIONS) == {};
    ConnectionTraceKeepsInv(max, NO_CONNECTIONS, steps);
  }

  /** So a caller can be refused with no guard alive: here because another refusal is still being undone. */
  lemma RefusedWithoutGuards()
    ensures var steps := [Increment(1), Decide(1), Increment(2), DropConnection(1), Increment(3), Decide(3)];
            && IsConnectionTrace(1, NO_CONNECTIONS, steps)
            && Guards(ConnectionTrace(1, NO_CONNECTIONS, steps)) == {}
            && 3 !in ConnectionTrace(1, NO_CONNECTIONS, steps).callers
  {
  }

  // ----- operations: a semaphore and a counter beside it

  /** An operation between taking a permit and returning it. */
  datatype Operation =
    | Permitted  // has a permit, is not counted yet
    | Counted    // its guard is live
    | Uncounted  // its guard has decremented the counter; the permit goes back next

  datatype Operations = Operations(permits: nat, inFlight: nat, running: map<nat, Operation>)

  datatype OperationStep =
    | Acquire(op: nat)
    | Count(op: nat)
    | Uncount(op: nat)
    | Release(op: nat)

  predicate OperationEnabled(s: Operations, a: OperationStep) {
    match a
    case Acquire(op) => op !in s.running && s.permits > 0
    case Count(op) => op in s.running && s.running[op].Permitted?
    case Uncount(op) => op in s.running && s.running[op].Counted?
    case Release(op) => op in s.running && s.running[op].Uncounted?
  }

  function OperationAfter(s: Operations, a: OperationStep): Operations
    requires OperationEnabled(s, a)
  {
    match a
    case Acquire(op) => s.(permits := s.permits - 1, running := s.running[op := Permitted])
    case Count(op) => s.(inFlight := s.inFlight + 1, running := s.running[op := Counted])
    case Uncount(op) => s.(inFlight := Decremented(s.inFlight), running := s.running[op := Uncounted])
    case Release(op) => s.(permits := s.permits + 1, running := s.running - {op})
  }

  ghost function CountedOps(s: Operations): set<nat> {
    set op | op in s.running && s.running[op].Counted?
  }

  ghost predicate OperationInv(max: nat, s: Operations) {
    s.permits + |s.running| == max && s.inFlight == |CountedOps(s)|
  }

  lemma CountedAfter(s: Operations, a: OperationStep)
    requires OperationEnabled(s, a) && s.inFlight == |CountedOps(s)|
    ensures OperationAfter(s, a).inFlight == |CountedOps(OperationAfter(s, a))|
  {
    var t := OperationAfter(s, a);
    assert CountedOps(t) == match a
                            case Count(op) => CountedOps(s) + {op}
                            case Uncount(op) => CountedOps(s) - {op}
                            case _ => CountedOps(s);
  }

  lemma PermitsAfter(s: Operations, a: OperationStep)
    requires OperationEnabled(s, a)
    ensures OperationAfter(s, a).permits + |OperationAfter(s, a).running| == s.permits + |s.running|
  {
  }

  lemma OperationStepKeepsInv(max: nat, s: Operations, a: OperationStep)
    requires OperationInv(max, s) && OperationEnabled(s, a)
    ensures OperationInv(max, OperationAfter(s, a))
  {
    hide OperationAfter, CountedOps;
    CountedAfter(s, a);
    PermitsAfter(s, a);
  }

  ghost predicate IsOperationTrace(s: Operations, steps: seq<OperationStep>)
    decreases |steps|
  {
    steps != [] ==> OperationEnabled(s, steps[0]) && IsOperationTrace(OperationAfter(s, steps[0]), steps[1..])
  }

  ghost function OperationTrace(s: Operations, steps: seq<OperationStep>): Operations
    requires IsOperationTrace(s, steps)
    decreases |steps|
  {
    if steps == [] then s else OperationTrace(OperationAfter(s, steps[0]), steps[1..])
  }

  lemma {:induction false} OperationTraceKeepsInv(max: nat, s: Operations, steps: seq<OperationStep>)
    requires OperationInv(max, s) && IsOperationTrace(s, steps)
    ensures OperationInv(max, OperationTrace(s, steps))
    decreases |steps|
  {
    if steps != [] {
      OperationStepKeepsInv(max, s, steps[0]);
      hide OperationInv, OperationAfter, OperationEnabled;
      OperationTraceKeepsInv(max, OperationAfter(s, steps[0]), steps[1..]);
    }
  }

  /** In every interleaving the number of operations in flight is the number of live guards and at most `max`, and
      permits are neither lost nor made: a new operation is refused exactly when `max` of them hold one. */
  lemma OperationsLimited(max: nat, steps: seq<OperationStep>)
    requires IsOperationTrace(Operations(max, 0, map[]), steps)
    ensures var s := OperationTrace(Operations(max, 0, map[]), steps);
            && s.inFlight == |CountedOps(s)| <= max
            && forall op :: op !in s.running ==> (OperationEnabled(s, Acquire(op)) <==> |s.running| < max)
  {
    var start := Operations(max, 0, map[]);
    assert CountedOps(start) == {};
    OperationTraceKeepsInv(max, start, steps);
    var s := OperationTrace(start, steps);
    SubsetSize(CountedOps(s), s.running.Keys);
  }
}
