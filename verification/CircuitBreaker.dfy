/** The per-peer circuit breaker (src/network_resilience.rs): its field updates, and what they mean for the history
    of requests. Times are readings of a monotone clock. */
module CircuitBreaker {
  import opened Options
  import opened Sequences
  import opened Words

  datatype CircuitState = Closed | Open | HalfOpen

  datatype Config = Config(failureThreshold: nat, recoveryTimeout: nat, successThreshold: nat, failureWindow: nat) {
    /** The thresholds are 32-bit numbers. */
    predicate Valid() { failureThreshold < TWO_TO_THE_32 && successThreshold < TWO_TO_THE_32 }
  }

  datatype Peer = Peer(state: CircuitState, failureCount: nat, successCount: nat, lastFailure: Option<nat>,
                       openedAt: Option<nat>, failureTimestamps: seq<nat>)

  const DEFAULT_PEER := Peer(Closed, 0, 0, None, None, [])

  function Recent(now: nat, window: nat): nat -> bool { (t: nat) => now - t < window }

  function AfterAllow(c: Config, p: Peer, now: nat): Peer {
    if p.state.Open? && p.openedAt.Some? && now - p.openedAt.value >= c.recoveryTimeout
    then p.(state := HalfOpen, successCount := 0)
    else p
  }

  predicate Admits(c: Config, p: Peer, now: nat) { !AfterAllow(c, p, now).state.Open? }

  function AfterSuccess(c: Config, p: Peer): Peer {
    match p.state
    case Closed => p.(failureCount := 0, failureTimestamps := [])
    case HalfOpen =>
      if p.successCount + 1 >= c.successThreshold
      then p.(state := Closed, failureCount := 0, successCount := 0, openedAt := None, failureTimestamps := [])
      else p.(successCount := p.successCount + 1)
    case Open => p
  }

  /** The cast to a 32-bit number. */
  function AsU32(n: nat): nat { n % TWO_TO_THE_32 }

  function AfterFailure(c: Config, p: Peer, now: nat): Peer {
    var stamps := Filter(Recent(now, c.failureWindow), p.failureTimestamps) + [now];
    var q := p.(failureTimestamps := stamps, failureCount := AsU32(|stamps|), lastFailure := Some(now));
    match p.state
    case Closed => if q.failureCount >= c.failureThreshold then q.(state := Open, openedAt := Some(now)) else q
    case HalfOpen => q.(state := Open, openedAt := Some(now), successCount := 0)
    case Open => q.(openedAt := Some(now))
  }

  // ----- histories

  datatype Event = Allow(t: nat) | Success(t: nat) | Failure(t: nat)

  function Apply(c: Config, p: Peer, e: Event): Peer {
    match e
    case Allow(t) => AfterAllow(c, p, t)
    case Success(_) => AfterSuccess(c, p)
    case Failure(t) => AfterFailure(c, p, t)
  }

  ghost function Replay(c: Config, h: seq<Event>): Peer {
    if h == [] then DEFAULT_PEER else Apply(c, Replay(c, h[..|h| - 1]), h[|h| - 1])
  }

  ghost predicate InTime(h: seq<Event>) {
    forall i, j :: 0 <= i < j < |h| ==> h[i].t <= h[j].t
  }

  class CircuitBreaker {
    const config: Config
    var peerStates: map<string, Peer>
    ghost var histories: map<string, seq<Event>>
    ghost var clock: nat

    ghost function HistoryOf(peer: string): seq<Event>
      reads this
    {
      if peer in histories then histories[peer] else []
    }

    ghost predicate Valid()
      reads this
    {
      && config.Valid()
      && peerStates.Keys == histories.Keys
      && forall peer :: peer in peerStates ==>
           && peerStates[peer] == Replay(config, histories[peer])
           && InTime(histories[peer])
           && forall i :: 0 <= i < |histories[peer]| ==> histories[peer][i].t <= clock
    }

    constructor (config: Config)
      requires config.Valid()
      ensures Valid() && this.config == config && histories == map[] && clock == 0
    {
      this.config := config;
      peerStates, histories, clock := map[], map[], 0;
    }

    /** What every request does to one peer, and to no other: its history grows by one event. */
    twostate predicate Recorded(peer: string, e: Event)
      reads this
    {
      Valid() && histories == old(histories)[peer := old(HistoryOf(peer)) + [e]] && clock == e.t
    }

    /** The stored state, or the default for a peer that is not known yet. */
    function Entry(peer: string): (p: Peer)
      requires Valid()
      reads this
      ensures p == Replay(config, HistoryOf(peer))
    {
      if peer in peerStates then peerStates[peer] else DEFAULT_PEER
    }

    method Commit(peer: string, state: Peer, e: Event)
      requires Valid() && e.t >= clock
      requires state == Apply(config, Replay(config, HistoryOf(peer)), e)
      modifies this
      ensures Recorded(peer, e)
    {
      hide Apply;
      ReplayLast(config, HistoryOf(peer), e);
      hide Replay;
      peerStates := peerStates[peer := state];
      histories := histories[peer := HistoryOf(peer) + [e]];
      clock := e.t;
    }

    method ShouldAllow(peer: string, now: nat) returns (allowed: bool)
      requires Valid() && now >= clock
      modifies this
      ensures Recorded(peer, Allow(now))
      ensures allowed == Admits(config, Replay(config, old(HistoryOf(peer))), now)
    {
      hide Replay;
      var state := Entry(peer);
      match state.state {
        case Closed => allowed := true;
        case Open =>
          if state.openedAt.Some? && now - state.openedAt.value >= config.recoveryTimeout {
            state := state.(state := HalfOpen, successCount := 0);
            allowed := true;
          } else {
            allowed := false;
          }
        case HalfOpen => allowed := true;
      }
      Commit(peer, state, Allow(now));
    }

    method RecordSuccess(peer: string, now: nat)
      requires Valid() && now >= clock
      modifies this
      ensures Recorded(peer, Success(now))
    {
      hide Replay;
      var state := Entry(peer);
      match state.state {
        case Closed =>
          state := state.(failureCount := 0, failureTimestamps := []);
        case HalfOpen =>
          state := state.(successCount := state.successCount + 1);
          if state.successCount >= config.successThreshold {
            state := state.(state := Closed, failureCount := 0, successCount := 0, openedAt := None,
                            failureTimestamps := []);
          }
        case Open =>
      }
      Commit(peer, state, Success(now));
    }

    method RecordFailure(peer: string, now: nat)
      requires Valid() && now >= clock
      modifies this
      ensures Recorded(peer, Failure(now))
    {
      hide Replay, Filter;
      var state := Entry(peer);
      var stamps := Filter(Recent(now, config.failureWindow), state.failureTimestamps) + [now];
      state := state.(failureTimestamps := stamps, failureCount := AsU32(|stamps|), lastFailure := Some(now));
      match state.state {
        case Closed =>
          if state.failureCount >= config.failureThreshold {
            state := state.(state := Open, openedAt := Some(now));
          }
        case HalfOpen =>
          state := state.(state := Open, openedAt := Some(now), successCount := 0);
        case Open =>
          state := state.(openedAt := Some(now));
      }
      Commit(peer, state, Failure(now));
    }

    method GetState(peer: string) returns (s: CircuitState)
      requires Valid()
      ensures s == Replay(config, HistoryOf(peer)).state
    {
      s := if peer in peerStates then peerStates[peer].state else Closed;
    }

    /** Forgets a peer, as if it had never been contacted. */
    method Reset(peer: string)
      requires Valid()
      modifies this
      ensures Valid() && HistoryOf(peer) == [] && clock == old(clock)
      ensures forall other :: other != peer ==> HistoryOf(other) == old(HistoryOf(other))
    {
      peerStates := peerStates - {peer};
      histories := histories - {peer};
    }
  }

  lemma ReplayLast(c: Config, h: seq<Event>, e: Event)
    ensures Replay(c, h + [e]) == Apply(c, Replay(c, h), e)
  {
  }

  // ----- what the fields mean

  ghost function AddFailure(times: seq<nat>, e: Event): seq<nat> {
    if e.Failure? then times + [e.t] else times
  }

  ghost function FailureTimes(h: seq<Event>): seq<nat> {
    if h == [] then [] else AddFailure(FailureTimes(h[..|h| - 1]), h[|h| - 1])
  }

  /** The failures since the last success that cleared the record, which is one that left the circuit closed. */
  ghost function Pending(c: Config, h: seq<Event>): seq<nat> {
    if h == [] then []
    else if h[|h| - 1].Success? && Replay(c, h).state.Closed? then []
    else AddFailure(Pending(c, h[..|h| - 1]), h[|h| - 1])
  }

  /** The entries of `times` inside the window that ends with the last of them. */
  ghost function Windowed(times: seq<nat>, window: nat): seq<nat> {
    if times == [] then []
    else
      var last := times[|times| - 1];
      Filter(Recent(last, window), times[..|times| - 1]) + [last]
  }

  /** The fields are determined by the history: the circuit carries an opening time exactly when it is not closed,
      namely the time of the last failure; successes are counted only while half open; the time stamps are the
      pending failures within the window of the last one, counted in 32 bits, and while closed there are too few of them
      to trip. */
  ghost predicate Explained(c: Config, h: seq<Event>, p: Peer) {
    ExplainedBy(c, FailureTimes(h), Windowed(Pending(c, h), c.failureWindow), p)
  }

  ghost predicate ExplainedBy(c: Config, failures: seq<nat>, stamps: seq<nat>, p: Peer) {
    && (p.openedAt.Some? <==> !p.state.Closed?)
    && (p.openedAt.Some? ==> failures != [] && p.openedAt.value == failures[|failures| - 1])
    && (!p.state.HalfOpen? ==> p.successCount == 0)
    && (p.state.HalfOpen? ==> p.successCount == 0 || p.successCount < c.successThreshold)
    && p.failureTimestamps == stamps && p.failureCount == |stamps| % TWO_TO_THE_32
    && p.lastFailure == (if failures == [] then None else Some(failures[|failures| - 1]))
    && (p.state.Closed? ==> stamps == [] || |stamps| < c.failureThreshold)
  }

  ghost predicate UpTo(times: seq<nat>, now: nat) {
    forall i :: 0 <= i < |times| ==> times[i] <= now
  }

  lemma {:induction false} PendingInTime(c: Config, h: seq<Event>, now: nat)
    requires forall i :: 0 <= i < |h| ==> h[i].t <= now
    ensures UpTo(Pending(c, h), now)
  {
    if h != [] {
      PendingInTime(c, h[..|h| - 1], now);
    }
  }

  lemma {:induction false} PendingOrdered(c: Config, h: seq<Event>)
    requires InTime(h)
    ensures Pending(c, h) != [] ==> UpTo(Pending(c, h), Pending(c, h)[|Pending(c, h)| - 1])
  {
    if h != [] {
      PendingOrdered(c, h[..|h| - 1]);
      PendingInTime(c, h[..|h| - 1], h[|h| - 1].t);
    }
  }

  lemma WindowedLast(times: seq<nat>, window: nat, now: nat)
    ensures Windowed(times + [now], window) == Filter(Recent(now, window), times) + [now]
  {
  }

  /** Dropping by the older window first loses nothing that the newer window keeps. */
  lemma WindowedSuffices(times: seq<nat>, window: nat, now: nat)
    requires UpTo(times, now)
    ensures Filter(Recent(now, window), Windowed(times, window)) == Filter(Recent(now, window), times)
  {
    if times != [] {
      var init, last := times[..|times| - 1], times[|times| - 1];
      assert times == init + [last];
      WindowedLast(init, window, last);
      FilterFilter(Recent(now, window), Recent(last, window), init);
      hide Filter;
      FilterLast(Recent(now, window), Filter(Recent(last, window), init), last);
      FilterLast(Recent(now, window), init, last);
    }
  }

  lemma TimesBefore(h: seq<Event>, e: Event)
    requires InTime(h + [e])
    ensures InTime(h) && forall i :: 0 <= i < |h| ==> h[i].t <= e.t
  {
    assert (h + [e])[|h|] == e && forall i :: 0 <= i < |h| ==> h[i] == (h + [e])[i];
  }

  lemma StampsExplained(c: Config, h: seq<Event>, e: Event)
    requires c.Valid() && InTime(h + [e])
    requires Replay(c, h).failureTimestamps == Windowed(Pending(c, h), c.failureWindow)
    ensures Replay(c, h + [e]).failureTimestamps == Windowed(Pending(c, h + [e]), c.failureWindow)
  {
    ReplayLast(c, h, e);
    PendingLast(c, h, e);
    if e.Failure? {
      TimesBefore(h, e);
      PendingInTime(c, h, e.t);
      hide Windowed, Filter, InTime, UpTo, Pending, Replay;
      WindowedSuffices(Pending(c, h), c.failureWindow, e.t);
      WindowedLast(Pending(c, h), c.failureWindow, e.t);
    }
  }

  lemma PendingLast(c: Config, h: seq<Event>, e: Event)
    ensures Pending(c, h + [e]) == if e.Success? && Replay(c, h + [e]).state.Closed? then []
                                   else AddFailure(Pending(c, h), e)
  {
  }

  lemma FailureTimesLast(h: seq<Event>, e: Event)
    ensures FailureTimes(h + [e]) == AddFailure(FailureTimes(h), e)
  {
  }

  /** While the circuit is closed the cast loses nothing. */
  lemma CountFits(c: Config, p: Peer, now: nat)
    requires c.Valid() && (p.failureTimestamps == [] || |p.failureTimestamps| < c.failureThreshold)
    ensures AfterFailure(c, p, now).failureCount == |AfterFailure(c, p, now).failureTimestamps|
  {
  }

  lemma StepExplained(c: Config, failures: seq<nat>, stamps: seq<nat>, p: Peer, e: Event)
    requires c.Valid() && ExplainedBy(c, failures, stamps, p)
    ensures ExplainedBy(c, AddFailure(failures, e), Apply(c, p, e).failureTimestamps, Apply(c, p, e))
  {
    hide Filter;
    if e.Failure? && p.state.Closed? {
      CountFits(c, p, e.t);
    }
  }

  lemma {:induction false} HistoryExplains(c: Config, h: seq<Event>)
    requires c.Valid() && InTime(h)
    ensures Explained(c, h, Replay(c, h))
  {
    if h != [] {
      var before, e := h[..|h| - 1], h[|h| - 1];
      assert h == before + [e];
      HistoryExplains(c, before);
      StampsExplained(c, before, e);
      ReplayLast(c, before, e);
      FailureTimesLast(before, e);
      hide Windowed, Pending, FailureTimes, Replay, ExplainedBy, Apply;
      StepExplained(c, FailureTimes(before), Windowed(Pending(c, before), c.failureWindow), Replay(c, before), e);
    }
  }

  // ----- when the circuit opens, admits and closes

  lemma OpensByStamps(c: Config, h: seq<Event>, t: nat)
    requires c.Valid() && InTime(h + [Failure(t)]) && Replay(c, h).state.Closed?
    ensures Replay(c, h + [Failure(t)]).state.Open? <==>
      |Filter(Recent(t, c.failureWindow), Pending(c, h))| + 1 >= c.failureThreshold
    ensures !Replay(c, h + [Failure(t)]).state.Open? ==> Replay(c, h + [Failure(t)]).state.Closed?
  {
    var all := h + [Failure(t)];
    assert all[|h|] == Failure(t) && forall i :: 0 <= i < |h| ==> h[i] == all[i];
    assert InTime(h);
    HistoryExplains(c, h);
    PendingInTime(c, h, t);
    ReplayLast(c, h, Failure(t));
    CountFits(c, Replay(c, h), t);
    hide Windowed, Pending, Filter, AsU32, Replay;
    WindowedSuffices(Pending(c, h), c.failureWindow, t);
  }

  /** The failures less than a window before `t` that no success came after. */
  ghost function Counted(h: seq<Event>, window: nat, t: nat): set<nat> {
    set k | 0 <= k < |h| && h[k].Failure? && t - h[k].t < window && forall j :: k < j < |h| ==> !h[j].Success?
  }

  ghost function SinceSuccess(h: seq<Event>): seq<nat> {
    if h == [] || h[|h| - 1].Success? then [] else AddFailure(SinceSuccess(h[..|h| - 1]), h[|h| - 1])
  }

  lemma {:induction false} ClosedPending(c: Config, h: seq<Event>)
    requires Replay(c, h).state.Closed?
    ensures Pending(c, h) == SinceSuccess(h)
  {
    if h != [] && !h[|h| - 1].Success? {
      ClosedPending(c, h[..|h| - 1]);
    }
  }

  lemma CountedLast(h: seq<Event>, e: Event, window: nat, t: nat)
    ensures Counted(h + [e], window, t)
         == if e.Success? then {}
            else if e.Failure? && t - e.t < window then Counted(h, window, t) + {|h|}
            else Counted(h, window, t)
  {
    var all := h + [e];
    assert all[|h|] == e && forall k :: 0 <= k < |h| ==> all[k] == h[k];
    forall k ensures k in Counted(all, window, t) <==>
        !e.Success? && (k in Counted(h, window, t) || (k == |h| && e.Failure? && t - e.t < window))
    {
      if k in Counted(h, window, t) && !e.Success? {
        assert forall j :: k < j < |all| ==> !all[j].Success?;
      }
    }
  }

  lemma {:induction false} CountedIsFilter(h: seq<Event>, window: nat, t: nat)
    ensures |Counted(h, window, t)| == |Filter(Recent(t, window), SinceSuccess(h))|
  {
    if h == [] {
      assert Counted(h, window, t) == {};
    } else {
      var before, e := h[..|h| - 1], h[|h| - 1];
      assert h == before + [e];
      CountedIsFilter(before, window, t);
      CountedLast(before, e, window, t);
      assert |before| !in Counted(before, window, t);
      hide Counted;
      if e.Failure? {
        FilterLast(Recent(t, window), SinceSuccess(before), e.t);
      }
    }
  }

  /** A closed circuit opens at `t` exactly when the failures less than a window ago with no success after them, with
      the new one, reach the threshold; the 32-bit cast of the count never matters. */
  lemma OpensExactly(c: Config, h: seq<Event>, t: nat)
    requires c.Valid() && InTime(h + [Failure(t)]) && Replay(c, h).state.Closed?
    ensures Replay(c, h + [Failure(t)]).state.Open? <==> |Counted(h, c.failureWindow, t)| + 1 >= c.failureThreshold
    ensures !Replay(c, h + [Failure(t)]).state.Open? ==> Replay(c, h + [Failure(t)]).state.Closed?
  {
    OpensByStamps(c, h, t);
    ClosedPending(c, h);
    CountedIsFilter(h, c.failureWindow, t);
  }

  /** Failures that are a window or more apart never open a circuit with a threshold above 1. */
  lemma {:induction false} SparseFailuresNeverOpen(c: Config, h: seq<Event>)
    requires c.Valid() && InTime(h) && c.failureThreshold > 1
    requires forall i, j :: 0 <= i < j < |h| && h[i].Failure? && h[j].Failure? ==> h[j].t - h[i].t >= c.failureWindow
    ensures Replay(c, h).state.Closed?
  {
    if h != [] {
      var before, e := h[..|h| - 1], h[|h| - 1];
      assert h == before + [e];
      SparseFailuresNeverOpen(c, before);
      ReplayLast(c, before, e);
      if e.Failure? {
        assert Counted(before, c.failureWindow, e.t) == {};
        OpensExactly(c, before, e.t);
      }
    }
  }

  /** An open circuit admits a request exactly when the recovery timeout has passed since the last failure; a
      circuit in any other state admits every request. */
  lemma AdmitsExactly(c: Config, h: seq<Event>, t: nat)
    requires c.Valid() && InTime(h)
    ensures Replay(c, h).state.Open? ==> FailureTimes(h) != []
    ensures Admits(c, Replay(c, h), t) <==>
      (Replay(c, h).state.Open? ==> t - FailureTimes(h)[|FailureTimes(h)| - 1] >= c.recoveryTimeout)
  {
  }

  lemma {:induction false} StaysOpen(c: Config, h: seq<Event>, i: nat, j: nat)
    requires InTime(h) && i < j <= |h| && h[i].Failure? && Replay(c, h[..i + 1]).state.Open?
    requires j == i + 1 || h[j - 1].t - h[i].t < c.recoveryTimeout
    ensures var p := Replay(c, h[..j]);
            p.state.Open? && p.openedAt.Some? && p.openedAt.value >= h[i].t
    decreases j
  {
    assert h[..j] == h[..j - 1] + [h[j - 1]];
    ReplayLast(c, h[..j - 1], h[j - 1]);
    if j > i + 1 {
      StaysOpen(c, h, i, j - 1);
    }
  }

  /** After a failure that leaves the circuit open, nothing is admitted until the recovery timeout has passed. */
  lemma BlockedUntilTimeout(c: Config, h: seq<Event>, i: nat, j: nat)
    requires InTime(h) && i < j < |h| && h[i].Failure? && Replay(c, h[..i + 1]).state.Open?
    requires h[j].t - h[i].t < c.recoveryTimeout
    ensures !Admits(c, Replay(c, h[..j]), h[j].t)
  {
    StaysOpen(c, h, i, j);
  }

  ghost function Successes(h: seq<Event>): nat {
    if h == [] then 0 else Successes(h[..|h| - 1]) + if h[|h| - 1].Success? then 1 else 0
  }

  /** Closing takes at least one success, even under a zero threshold. */
  function Needed(c: Config): nat { if c.successThreshold == 0 then 1 else c.successThreshold }

  /** Event `i` was the request that turned the open circuit half open, and no failure came after it. */
  ghost predicate TrialSince(c: Config, h: seq<Event>, i: nat) {
    && i < |h| && h[i].Allow? && Replay(c, h[..i]).state.Open? && Replay(c, h[..i + 1]).state.HalfOpen?
    && forall k :: i < k < |h| ==> !h[k].Failure?
  }

  lemma {:induction false} TrialOutcome(c: Config, h: seq<Event>, i: nat)
    requires TrialSince(c, h, i)
    ensures var n, p := Successes(h[i + 1..]), Replay(c, h);
            if n < Needed(c) then p.state.HalfOpen? && p.successCount == n else p.state.Closed?
    decreases |h|
  {
    var before, e := h[..|h| - 1], h[|h| - 1];
    assert h == before + [e];
    ReplayLast(c, before, e);
    if i == |before| {
      assert h[..i] == before && h[..i + 1] == h && h[i + 1..] == [];
    } else {
      assert before[..i] == h[..i] && before[..i + 1] == h[..i + 1];
      TrialOutcome(c, before, i);
      assert h[i + 1..][..|h| - i - 2] == before[i + 1..];
      assert h[i + 1..][|h| - i - 2] == e;
    }
  }

  lemma {:induction false} TrialHasStart(c: Config, h: seq<Event>) returns (i: nat)
    requires Replay(c, h).state.HalfOpen?
    ensures TrialSince(c, h, i)
    decreases |h|
  {
    var before, e := h[..|h| - 1], h[|h| - 1];
    assert h == before + [e];
    ReplayLast(c, before, e);
    if Replay(c, before).state.HalfOpen? {
      i := TrialHasStart(c, before);
      assert before[..i] == h[..i] && before[..i + 1] == h[..i + 1];
    } else {
      i := |before|;
      assert h[..i] == before && h[..i + 1] == h;
    }
  }

  /** A circuit that is not closed closes exactly when enough successes, with no failure between or after, have
      followed the request that turned it half open. */
  lemma ClosesExactly(c: Config, h: seq<Event>, e: Event)
    requires !Replay(c, h).state.Closed?
    ensures Replay(c, h + [e]).state.Closed? <==>
      exists i :: TrialSince(c, h + [e], i) && Successes((h + [e])[i + 1..]) >= Needed(c)
  {
    var all := h + [e];
    ReplayLast(c, h, e);
    if Replay(c, all).state.Closed? {
      var i := TrialHasStart(c, h);
      assert all[..i] == h[..i] && all[..i + 1] == h[..i + 1];
      assert forall k :: i < k < |all| ==> all[k] == if k < |h| then h[k] else e;
      assert TrialSince(c, all, i);
      TrialOutcome(c, all, i);
    }
    forall i | TrialSince(c, all, i) ensures Successes(all[i + 1..]) >= Needed(c) ==> Replay(c, all).state.Closed? {
      TrialOutcome(c, all, i);
    }
  }
}
