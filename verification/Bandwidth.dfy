/** The bandwidth throttle (src/network_resilience.rs): a global bucket and one bucket per peer, with refill and
    consume as atomic steps. Upload and download run the same code on their own buckets; this is one direction. */
module Bandwidth {
  import opened TokenBucket
  import opened Words

  const NANOS_PER_SECOND := 1_000_000_000
  const BURST := 10

  /** Tokens per refill: the rate times the interval, rounded down and saturated to 64 bits. */
  function RefillAmount(rateBps: nat, interval: nat): nat {
    MinNat(rateBps * interval / NANOS_PER_SECOND, USIZE_MAX)
  }

  function NewBucket(rateBps: nat, interval: nat, now: nat): Bucket {
    var amount := RefillAmount(rateBps, interval);
    Bucket(Wrap(amount * BURST), Wrap(amount * BURST), amount, now, interval)
  }

  /** The amount is the rate times the interval in seconds, rounded down, unless that does not fit 64 bits. */
  lemma RefillAmountExact(rateBps: nat, interval: nat)
    ensures var amount := RefillAmount(rateBps, interval);
            && amount * 1_000_000_000 <= rateBps * interval
            && (rateBps * interval < (amount + 1) * 1_000_000_000 || amount == USIZE_MAX)
  {
    RoundedDown(rateBps * interval);
  }

  lemma RoundedDown(n: nat)
    ensures n / NANOS_PER_SECOND * NANOS_PER_SECOND <= n < (n / NANOS_PER_SECOND + 1) * NANOS_PER_SECOND
    ensures USIZE_MAX <= n / NANOS_PER_SECOND ==> USIZE_MAX * NANOS_PER_SECOND <= n
  {
  }

  lemma NewIsFull(rateBps: nat, interval: nat, now: nat)
    requires interval >= NANOS_PER_MILLI
    ensures TokenBucket.Refill(NewBucket(rateBps, interval, now), now) == NewBucket(rateBps, interval, now)
  {
  }

  lemma NewTokens(rateBps: nat, interval: nat, now: nat)
    requires 10 * RefillAmount(rateBps, interval) < TWO_TO_THE_64
    ensures NewBucket(rateBps, interval, now).tokens == 10 * RefillAmount(rateBps, interval)
  {
  }

  class Limiter {
    var tokens: nat
    const maxTokens: nat
    const refillAmount: nat
    var lastRefill: nat
    const interval: nat
    ghost const start: nat
    ghost var granted: nat
    ghost var portions: nat

    function GetState(): Bucket
      reads this
    {
      Bucket(tokens, maxTokens, refillAmount, lastRefill, interval)
    }

    /** Everything granted since the start is paid for by the initial fill and by refills that had the time. */
    ghost predicate Valid()
      reads this
    {
      GetState().Valid() && Paid(GetState(), granted, maxTokens, start, portions)
    }

    constructor (rateBps: nat, interval: nat, now: nat)
      requires interval >= NANOS_PER_MILLI
      ensures Valid() && GetState() == NewBucket(rateBps, interval, now) && start == now && granted == 0
    {
      var amount := RefillAmount(rateBps, interval);
      tokens, maxTokens, refillAmount := Wrap(amount * BURST), Wrap(amount * BURST), amount;
      lastRefill, this.interval, start := now, interval, now;
      granted, portions := 0, 0;
    }

    method Refill(now: nat)
      requires Valid()
      modifies this
      ensures Valid() && GetState() == TokenBucket.Refill(old(GetState()), now) && granted == old(granted)
    {
      ghost var more := PaidRefill(GetState(), granted, maxTokens, start, portions, now);
      if now - lastRefill >= interval {
        tokens := Refilled(GetState(), tokens, now);
        lastRefill := now;
        portions := more;
      }
    }

    method TryConsume(amount: nat) returns (ok: bool)
      requires Valid()
      modifies this
      ensures Valid() && ok == (old(tokens) >= amount)
      ensures GetState() == if ok then old(GetState()).(tokens := old(tokens) - amount) else old(GetState())
      ensures granted == if ok then old(granted) + amount else old(granted)
    {
      ok := tokens >= amount;
      if ok {
        tokens, granted := tokens - amount, granted + amount;
      }
    }
  }

  predicate Configured(b: Limiter, rateBps: nat, interval: nat) {
    && b.interval == interval && b.refillAmount == RefillAmount(rateBps, interval)
    && b.maxTokens == Wrap(b.refillAmount * BURST)
  }

  lemma NewIsConfigured(b: Limiter, rateBps: nat, interval: nat, now: nat)
    requires b.GetState() == NewBucket(rateBps, interval, now)
    ensures Configured(b, rateBps, interval)
  {
  }

  class Throttle {
    const limitBps: nat
    const perPeerBps: nat
    const interval: nat
    var bucket: Limiter?
    var peerBuckets: map<string, Limiter>
    var total: nat
    /** The part of `total` that each peer accounts for. */
    ghost var sent: map<string, nat>

    ghost function Footprint(): set<object>
      reads this
    {
      {this} + (if bucket == null then {} else {bucket}) + peerBuckets.Values
    }

    ghost function SentTo(peer: string): nat
      reads this
    {
      if peer in sent then sent[peer] else 0
    }

    ghost predicate Valid()
      reads this, if bucket == null then {} else {bucket}, peerBuckets.Values
    {
      && interval >= NANOS_PER_MILLI
      && (bucket == null <==> limitBps == 0)
      && (bucket != null ==> bucket.Valid() && Configured(bucket, limitBps, interval) && total <= bucket.granted)
      && (forall peer :: peer in peerBuckets ==>
            var b := peerBuckets[peer];
            b != bucket && b.Valid() && Configured(b, perPeerBps, interval) && SentTo(peer) <= b.granted)
      && (forall p, q :: p in peerBuckets && q in peerBuckets && p != q ==> peerBuckets[p] != peerBuckets[q])
      && (if perPeerBps == 0 then peerBuckets == map[]
          else forall peer :: peer !in peerBuckets ==> SentTo(peer) == 0)
    }

    constructor (limitBps: nat, perPeerBps: nat, interval: nat, now: nat)
      requires interval >= NANOS_PER_MILLI
      ensures Valid() && fresh(Footprint()) && total == 0
      ensures this.limitBps == limitBps && this.perPeerBps == perPeerBps && this.interval == interval
      ensures limitBps > 0 ==> bucket != null && bucket.GetState() == NewBucket(limitBps, interval, now)
      ensures peerBuckets == map[]
    {
      this.limitBps, this.perPeerBps, this.interval := limitBps, perPeerBps, interval;
      peerBuckets, total, sent := map[], 0, map[];
      if limitBps > 0 {
        var b := new Limiter(limitBps, interval, now);
        bucket := b;
      } else {
        bucket := null;
      }
    }

    /** The tokens that the global bucket can give at `now`. */
    ghost function GlobalTokens(now: nat): nat
      requires Valid() && bucket != null
      reads this, bucket, peerBuckets.Values
    {
      TokenBucket.Refill(bucket.GetState(), now).tokens
    }

    /** The tokens that a peer's bucket, made on first use, can give at `now`. */
    ghost function PeerTokens(peer: string, now: nat): nat
      requires Valid()
      reads this, if bucket == null then {} else {bucket}, peerBuckets.Values
    {
      if peer in peerBuckets then TokenBucket.Refill(peerBuckets[peer].GetState(), now).tokens
      else NewBucket(perPeerBps, interval, now).tokens
    }

    /** What the two limits leave alone. */
    twostate predicate CountsUnchanged()
      reads this
    {
      total == old(total) && sent == old(sent) && bucket == old(bucket)
    }

    method SpendGlobal(bytes: nat, now: nat) returns (ok: bool)
      requires Valid() && bucket != null
      modifies bucket
      ensures Valid() && (ok ==> total + bytes <= bucket.granted)
      ensures forall p :: PeerTokens(p, now) == old(PeerTokens(p, now))
      ensures ok <==> old(GlobalTokens(now)) >= bytes
      ensures bucket.tokens == old(GlobalTokens(now)) - (if ok then bytes else 0)
    {
      hide TokenBucket.Refill, Paid, Bucket.Valid;
      bucket.Refill(now);
      ok := bucket.TryConsume(bytes);
    }

    lemma NoBucketIsFull(peer: string, now: nat)
      requires Valid() && peer !in peerBuckets
      ensures PeerTokens(peer, now) == NewBucket(perPeerBps, interval, now).tokens
    {
    }

    lemma NewGlobalTokens(now: nat)
      requires Valid() && bucket != null && bucket.GetState() == NewBucket(limitBps, interval, now)
      ensures GlobalTokens(now) == NewBucket(limitBps, interval, now).tokens
    {
      NewIsFull(limitBps, interval, now);
    }

    /** Makes the bucket of a peer that has none. */
    method AddBucket(peer: string, now: nat) returns (b: Limiter)
      requires Valid() && perPeerBps > 0 && peer !in peerBuckets
      modifies this`peerBuckets
      ensures Valid() && fresh(b) && peerBuckets == old(peerBuckets)[peer := b]
      ensures peer in peerBuckets && b == peerBuckets[peer]
      ensures TokenBucket.Refill(b.GetState(), now).tokens == old(PeerTokens(peer, now))
    {
      hide PeerTokens, Configured, NewBucket, TokenBucket.Refill, Limiter.Valid, Limiter.GetState;
      NoBucketIsFull(peer, now);
      b := new Limiter(perPeerBps, interval, now);
      NewIsFull(perPeerBps, interval, now);
      NewIsConfigured(b, perPeerBps, interval, now);
      peerBuckets := peerBuckets[peer := b];
    }

    /** The bucket of a peer, made on first use. */
    method PeerBucket(peer: string, now: nat) returns (b: Limiter)
      requires Valid() && perPeerBps > 0
      modifies this`peerBuckets
      ensures Valid() && peer in peerBuckets && b == peerBuckets[peer]
      ensures fresh(peerBuckets.Values - old(peerBuckets.Values))
      ensures TokenBucket.Refill(b.GetState(), now).tokens == old(PeerTokens(peer, now))
    {
      if peer in peerBuckets {
        return peerBuckets[peer];
      }
      hide *;
      b := AddBucket(peer, now);
    }

    method SpendPeer(peer: string, bytes: nat, now: nat) returns (ok: bool)
      requires Valid() && perPeerBps > 0
      modifies this`peerBuckets, peerBuckets.Values
      ensures Valid() && CountsUnchanged()
      ensures fresh(peerBuckets.Values - old(peerBuckets.Values))
      ensures ok <==> old(PeerTokens(peer, now)) >= bytes
      ensures ok ==> peer in peerBuckets && SentTo(peer) + bytes <= peerBuckets[peer].granted
      ensures bucket != null ==> bucket.granted == old(bucket.granted) && bucket.tokens == old(bucket.tokens)
    {
      hide TokenBucket.Refill, Paid, Bucket.Valid, NewBucket, Configured;
      var b := PeerBucket(peer, now);
      b.Refill(now);
      ok := b.TryConsume(bytes);
    }

    /** Adds to the counters what both buckets have paid for. */
    method Count(peer: string, bytes: nat)
      requires Valid()
      requires bucket != null ==> total + bytes <= bucket.granted
      requires perPeerBps > 0 ==> peer in peerBuckets && SentTo(peer) + bytes <= peerBuckets[peer].granted
      modifies this`total, this`sent
      ensures Valid() && total == old(total) + bytes
      ensures forall p :: SentTo(p) == old(SentTo(p)) + (if p == peer then bytes else 0)
    {
      total := total + bytes;
      sent := sent[peer := SentTo(peer) + bytes];
    }

    /** Counts the bytes exactly when both limits that are set have the tokens; the global tokens are spent even if
        the peer's bucket then refuses. */
    method TryTransfer(peer: string, bytes: nat, now: nat) returns (allowed: bool)
      requires Valid()
      modifies Footprint()
      ensures Valid() && fresh(Footprint() - old(Footprint())) && bucket == old(bucket)
      ensures allowed <==> (limitBps == 0 || old(GlobalTokens(now)) >= bytes)
                           && (perPeerBps == 0 || old(PeerTokens(peer, now)) >= bytes)
      ensures total == if allowed then old(total) + bytes else old(total)
      ensures forall p :: SentTo(p) == (if allowed && p == peer then old(SentTo(p)) + bytes else old(SentTo(p)))
      ensures limitBps > 0 ==>
                bucket.tokens == old(GlobalTokens(now)) - (if old(GlobalTokens(now)) >= bytes then bytes else 0)
    {
      assert bucket == null <==> limitBps == 0;
      hide Valid, SentTo, GlobalTokens, PeerTokens, Limiter.Valid, Limiter.GetState, Configured, NewBucket;
      if bucket != null {
        var ok := SpendGlobal(bytes, now);
        if !ok {
          return false;
        }
      }
      if perPeerBps > 0 {
        var ok := SpendPeer(peer, bytes, now);
        if !ok {
          return false;
        }
      }
      Count(peer, bytes);
      return true;
    }
  }

  // ----- the limits in bytes

  /** `bytes` granted from `start` to `now` stay within a burst and the configured rate. */
  ghost predicate WithinRate(bytes: nat, rateBps: nat, interval: nat, start: nat, now: nat) {
    bytes * NANOS_PER_SECOND <= BURST * rateBps * interval + rateBps * (now - start)
  }

  lemma RefillAmountBelowRate(rateBps: nat, interval: nat)
    ensures RefillAmount(rateBps, interval) * NANOS_PER_SECOND <= rateBps * interval
  {
    var exact := rateBps * interval / NANOS_PER_SECOND;
    MulMonotone(RefillAmount(rateBps, interval), exact, NANOS_PER_SECOND);
  }

  lemma PortionsBelowRate(rateBps: nat, interval: nat, portions: nat, elapsed: nat)
    requires portions * interval <= elapsed
    ensures RefillAmount(rateBps, interval) * portions * NANOS_PER_SECOND <= rateBps * elapsed
  {
    RefillAmountBelowRate(rateBps, interval);
    var amount := RefillAmount(rateBps, interval);
    MulMonotone(amount * NANOS_PER_SECOND, rateBps * interval, portions);
    MulMonotone(portions * interval, elapsed, rateBps);
    assert amount * portions * NANOS_PER_SECOND == amount * NANOS_PER_SECOND * portions;
    assert rateBps * interval * portions == portions * interval * rateBps;
  }

  /** `bytes` stay within a full bucket and one refill per elapsed unit, whatever the interval. */
  ghost predicate WithinPortions(bytes: nat, rateBps: nat, interval: nat, start: nat, now: nat)
    requires interval >= NANOS_PER_MILLI && start <= now
  {
    var amount := RefillAmount(rateBps, interval);
    bytes <= Wrap(amount * BURST) + amount * ((now - start) / Unit(interval))
  }

  lemma LimiterKeepsPortions(b: Limiter, rateBps: nat, now: nat)
    requires b.Valid() && Configured(b, rateBps, b.interval) && b.lastRefill <= now
    ensures b.start <= now && WithinPortions(b.granted, rateBps, b.interval, b.start, now)
  {
    var units := (now - b.start) / Unit(b.interval);
    QuotientBound(b.portions, Unit(b.interval), now - b.start);
    hide Unit, Wrap, RefillAmount;
    MulMonotone(b.portions, units, b.refillAmount);
  }

  /** What a limiter has granted stays within portions for every interval, and within the configured rate if the
      interval is a whole number of milliseconds. */
  lemma LimiterKeepsRate(b: Limiter, rateBps: nat, now: nat)
    requires b.Valid() && Configured(b, rateBps, b.interval) && b.lastRefill <= now
    ensures b.start <= now && WithinPortions(b.granted, rateBps, b.interval, b.start, now)
    ensures b.interval % NANOS_PER_MILLI == 0 ==> WithinRate(b.granted, rateBps, b.interval, b.start, now)
  {
    LimiterKeepsPortions(b, rateBps, now);
    if b.interval % NANOS_PER_MILLI == 0 {
      PortionsKeepRate(b.granted, rateBps, b.interval, b.start, now);
    }
  }

  lemma PortionsKeepRate(bytes: nat, rateBps: nat, interval: nat, start: nat, now: nat)
    requires interval >= NANOS_PER_MILLI && interval % NANOS_PER_MILLI == 0 && start <= now
    requires WithinPortions(bytes, rateBps, interval, start, now)
    ensures WithinRate(bytes, rateBps, interval, start, now)
  {
    var amount, portions := RefillAmount(rateBps, interval), (now - start) / interval;
    WrapBelow(amount * BURST);
    assert portions * interval <= now - start;
    PortionsBelowRate(rateBps, interval, portions, now - start);
    RefillAmountBelowRate(rateBps, interval);
    hide Wrap, RefillAmount, Unit;
    MulMonotone(bytes, amount * BURST + amount * portions, NANOS_PER_SECOND);
    assert (amount * BURST + amount * portions) * NANOS_PER_SECOND
        == amount * BURST * NANOS_PER_SECOND + amount * portions * NANOS_PER_SECOND;
    assert amount * BURST * NANOS_PER_SECOND <= BURST * rateBps * interval;
  }

  lemma FewerBytes(fewer: nat, bytes: nat, rateBps: nat, interval: nat, start: nat, now: nat)
    requires fewer <= bytes && interval >= NANOS_PER_MILLI && start <= now
    ensures WithinPortions(bytes, rateBps, interval, start, now) ==>
              WithinPortions(fewer, rateBps, interval, start, now)
    ensures WithinRate(bytes, rateBps, interval, start, now) ==> WithinRate(fewer, rateBps, interval, start, now)
  {
    MulMonotone(fewer, bytes, NANOS_PER_SECOND);
  }

  /** The buckets of the throttle hold ten portions, so at the grain of single loads and stores the rate bound fails for
      each of them that refills at all. */
  lemma NewBucketKeepsBoundExactly(rateBps: nat, interval: nat, now: nat)
    requires interval >= NANOS_PER_MILLI && (BURST + 1) * RefillAmount(rateBps, interval) < TWO_TO_THE_64
    ensures var b := NewBucket(rateBps, interval, now);
            RefillAmount(rateBps, interval) == 0 <==>
              forall steps :: IsTrace(Unstarted(b), steps) ==> KeepsBound(b, steps)
  {
    var amount := RefillAmount(rateBps, interval);
    assert Wrap(amount * BURST) == amount * BURST;
    InterleavedRateExactly(NewBucket(rateBps, interval, now));
  }

  /** With refill and consume as atomic steps, they keep the nominal rate exactly for whole milliseconds, or if they do
      not refill. */
  lemma NewBucketKeepsRateExactly(rateBps: nat, interval: nat, now: nat)
    requires interval >= NANOS_PER_MILLI && BURST * RefillAmount(rateBps, interval) < TWO_TO_THE_64
    ensures var b := NewBucket(rateBps, interval, now);
            interval % NANOS_PER_MILLI == 0 || RefillAmount(rateBps, interval) == 0 <==>
              forall ops, end :: now <= end && ClockedBy(ops, now, end) ==> KeepsRate(b, ops, end)
  {
    var amount := RefillAmount(rateBps, interval);
    assert Wrap(amount * BURST) == amount * BURST;
    NominalRateExactly(NewBucket(rateBps, interval, now));
  }

  /** The limit, for every interval, and in bytes per second for intervals of whole milliseconds. */
  ghost predicate KeepsLimit(bytes: nat, rateBps: nat, interval: nat, start: nat, now: nat) {
    && interval >= NANOS_PER_MILLI && start <= now
    && WithinPortions(bytes, rateBps, interval, start, now)
    && (interval % NANOS_PER_MILLI == 0 ==> WithinRate(bytes, rateBps, interval, start, now))
  }

  /** The counted bytes keep the global limit, and each peer's share keeps the per-peer limit, over every run. */
  lemma ThrottleKeepsRates(t: Throttle, peer: string, now: nat)
    requires t.Valid()
    ensures t.bucket != null && t.bucket.lastRefill <= now ==>
              KeepsLimit(t.total, t.limitBps, t.interval, t.bucket.start, now)
    ensures peer in t.peerBuckets && t.peerBuckets[peer].lastRefill <= now ==>
              KeepsLimit(t.SentTo(peer), t.perPeerBps, t.interval, t.peerBuckets[peer].start, now)
  {
    hide Paid, Bucket.Valid, RefillAmount, Wrap, WithinPortions, WithinRate;
    if t.bucket != null && t.bucket.lastRefill <= now {
      LimiterKeepsRate(t.bucket, t.limitBps, now);
      FewerBytes(t.total, t.bucket.granted, t.limitBps, t.interval, t.bucket.start, now);
    }
    if peer in t.peerBuckets && t.peerBuckets[peer].lastRefill <= now {
      var b := t.peerBuckets[peer];
      LimiterKeepsRate(b, t.perPeerBps, now);
      FewerBytes(t.SentTo(peer), b.granted, t.perPeerBps, t.interval, b.start, now);
    }
  }

  /** What a new throttle lets through at once: up to ten portions of each limit that is set. */
  method FirstTransfer(limitBps: nat, perPeerBps: nat, interval: nat, peer: string, bytes: nat, now: nat)
    returns (allowed: bool)
    requires interval >= NANOS_PER_MILLI
    requires 10 * RefillAmount(limitBps, interval) < TWO_TO_THE_64
    requires 10 * RefillAmount(perPeerBps, interval) < TWO_TO_THE_64
    ensures allowed <==> (limitBps == 0 || bytes <= 10 * RefillAmount(limitBps, interval))
                         && (perPeerBps == 0 || bytes <= 10 * RefillAmount(perPeerBps, interval))
  {
    NewTokens(limitBps, interval, now);
    NewTokens(perPeerBps, interval, now);
    hide *;
    var throttle := new Throttle(limitBps, perPeerBps, interval, now);
    if limitBps > 0 {
      throttle.NewGlobalTokens(now);
    }
    throttle.NoBucketIsFull(peer, now);
    allowed := throttle.TryTransfer(peer, bytes, now);
  }
}
