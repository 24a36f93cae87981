/** The token bucket behind the bandwidth limits (src/network_resilience.rs): the rate it really enforces, with
    refill and consume as atomic steps and at the grain of single loads, stores and compare-exchanges.
    Times are nanoseconds of a monotone clock; 64-bit arithmetic wraps as in a release build. */
module TokenBucket {
  import opened Options
  import opened Words

  const NANOS_PER_MILLI := 1_000_000

  datatype Bucket = Bucket(tokens: nat, maxTokens: nat, refillAmount: nat, lastRefill: nat, interval: nat) {
    /** Intervals below one millisecond divide by zero in `refill`. */
    predicate Valid() { tokens <= maxTokens && interval >= NANOS_PER_MILLI }
  }

  /** The interval that refills are counted in: whole milliseconds, in nanoseconds. */
  function Unit(interval: nat): (u: nat)
    ensures interval >= NANOS_PER_MILLI ==> NANOS_PER_MILLI <= u <= interval
    ensures u == interval <==> interval % NANOS_PER_MILLI == 0
  {
    interval / NANOS_PER_MILLI * NANOS_PER_MILLI
  }

  function MinNat(a: nat, b: nat): nat { if a <= b then a else b }

  function Wrap(n: nat): nat { n % TWO_TO_THE_64 }

  /** The tokens that a refill adds to `current`, at most up to the capacity. */
  function Refilled(b: Bucket, current: nat, now: nat): nat
    requires b.Valid()
  {
    var elapsed := if now >= b.lastRefill then now - b.lastRefill else 0;
    var refills := Wrap(elapsed / NANOS_PER_MILLI / (b.interval / NANOS_PER_MILLI));
    MinNat(Wrap(current + Wrap(refills * b.refillAmount)), b.maxTokens)
  }

  predicate Due(b: Bucket, now: nat) { now - b.lastRefill >= b.interval }

  function Refill(b: Bucket, now: nat): (r: Bucket)
    requires b.Valid()
    ensures r.Valid()
  {
    if Due(b, now) then b.(tokens := Refilled(b, b.tokens, now), lastRefill := now) else b
  }

  // ----- what one refill can add

  lemma WrapBelow(n: nat)
    ensures Wrap(n) <= n
  {
  }

  lemma MulMonotone(a: nat, b: nat, c: nat)
    requires a <= b
    ensures a * c <= b * c
  {
  }

  lemma Distribute(a: nat, b: nat, c: nat)
    ensures a * (b + c) == a * b + a * c
  {
  }

  /** A refill adds whole portions, one per full unit since the last refill. */
  lemma RefillAdds(b: Bucket, current: nat, now: nat) returns (portions: nat)
    requires b.Valid() && now >= b.lastRefill
    ensures Refilled(b, current, now) <= current + b.refillAmount * portions
    ensures portions * Unit(b.interval) <= now - b.lastRefill
  {
    var elapsed := now - b.lastRefill;
    var millis, unitMillis := elapsed / NANOS_PER_MILLI, b.interval / NANOS_PER_MILLI;
    portions := Wrap(millis / unitMillis);
    WrapBelow(millis / unitMillis);
    WrapBelow(portions * b.refillAmount);
    WrapBelow(current + Wrap(portions * b.refillAmount));
    MulMonotone(portions, millis / unitMillis, unitMillis);
    assert portions * unitMillis <= millis;
    MulMonotone(portions * unitMillis, millis, NANOS_PER_MILLI);
    assert portions * unitMillis * NANOS_PER_MILLI == portions * Unit(b.interval);
  }

  // ----- runs of atomic steps

  datatype Op = RefillAt(now: nat) | Take(amount: nat)

  datatype Account = Account(bucket: Bucket, granted: nat)

  function Perform(a: Account, op: Op): Account
    requires a.bucket.Valid()
  {
    match op
    case RefillAt(now) => a.(bucket := Refill(a.bucket, now))
    case Take(amount) =>
      if a.bucket.tokens < amount then a
      else Account(a.bucket.(tokens := a.bucket.tokens - amount), a.granted + amount)
  }

  function Run(a: Account, ops: seq<Op>): (r: Account)
    requires a.bucket.Valid()
    ensures r.bucket.Valid()
  {
    if ops == [] then a else Perform(Run(a, ops[..|ops| - 1]), ops[|ops| - 1])
  }

  ghost predicate ClockedBy(ops: seq<Op>, start: nat, end: nat) {
    && (forall i :: 0 <= i < |ops| && ops[i].RefillAt? ==> start <= ops[i].now <= end)
    && (forall i, j :: 0 <= i < j < |ops| && ops[i].RefillAt? && ops[j].RefillAt? ==> ops[i].now <= ops[j].now)
  }

  /** Everything granted so far is paid for by the initial fill and `portions` refills that had the time to happen. */
  ghost predicate Paid(b: Bucket, granted: nat, capacity: nat, start: nat, portions: nat) {
    && granted + b.tokens <= capacity + b.refillAmount * portions
    && start <= b.lastRefill && portions * Unit(b.interval) <= b.lastRefill - start
  }

  lemma PaidRefill(b: Bucket, granted: nat, capacity: nat, start: nat, portions: nat, now: nat)
    returns (more: nat)
    requires b.Valid() && Paid(b, granted, capacity, start, portions)
    ensures Paid(Refill(b, now), granted, capacity, start, more)
  {
    hide Refilled, Unit;
    more := portions;
    if Due(b, now) {
      var added := RefillAdds(b, b.tokens, now);
      more := portions + added;
      Distribute(b.refillAmount, portions, added);
      Distribute(Unit(b.interval), portions, added);
    }
  }

  lemma {:induction false} RunIsPaid(b: Bucket, ops: seq<Op>, end: nat) returns (portions: nat)
    requires b.Valid() && ClockedBy(ops, b.lastRefill, end)
    ensures var r := Run(Account(b, 0), ops);
            && Paid(r.bucket, r.granted, b.maxTokens, b.lastRefill, portions)
            && r.bucket.refillAmount == b.refillAmount && r.bucket.interval == b.interval
            && r.bucket.maxTokens == b.maxTokens
            && (b.lastRefill <= end ==> r.bucket.lastRefill <= end)
  {
    if ops == [] {
      portions := 0;
    } else {
      var before, op := ops[..|ops| - 1], ops[|ops| - 1];
      assert ClockedBy(before, b.lastRefill, end);
      portions := RunIsPaid(b, before, end);
      hide Refilled, Unit;
      if op.RefillAt? {
        var a := Run(Account(b, 0), before);
        portions := PaidRefill(a.bucket, a.granted, b.maxTokens, b.lastRefill, portions, op.now);
      }
    }
  }

  lemma QuotientBound(k: nat, unit: nat, d: nat)
    requires unit > 0 && k * unit <= d
    ensures k <= d / unit
  {
    var q := d / unit;
    assert d < (q + 1) * unit;
    if k >= q + 1 {
      MulMonotone(q + 1, k, unit);
    }
  }

  /** Over every run of refills and takes, what is granted by time `end` is at most the capacity plus one portion per
      elapsed unit. */
  lemma GrantedBounded(b: Bucket, ops: seq<Op>, end: nat)
    requires b.Valid() && b.lastRefill <= end && ClockedBy(ops, b.lastRefill, end)
    ensures Run(Account(b, 0), ops).granted
         <= b.maxTokens + b.refillAmount * ((end - b.lastRefill) / Unit(b.interval))
  {
    var portions := RunIsPaid(b, ops, end);
    QuotientBound(portions, Unit(b.interval), end - b.lastRefill);
    hide Unit;
    MulMonotone(portions, (end - b.lastRefill) / Unit(b.interval), b.refillAmount);
  }

  /** Twice a duration in whole milliseconds, against the duration itself. */
  lemma DoubledMillis(interval: nat, millis: nat, elapsed: nat)
    requires millis == interval / NANOS_PER_MILLI > 0 && elapsed == 2 * (millis * NANOS_PER_MILLI)
    ensures elapsed / NANOS_PER_MILLI / millis == 2 && interval <= elapsed
    ensures interval % NANOS_PER_MILLI != 0 ==> elapsed < 2 * interval
  {
    assert elapsed / NANOS_PER_MILLI == 2 * millis;
    hide *;
    Twice(millis);
  }

  /** A refill of so many portions, without wrapping. */
  lemma RefilledBy(b: Bucket, current: nat, now: nat, portions: nat)
    requires b.Valid() && now >= b.lastRefill && portions < TWO_TO_THE_64
    requires (now - b.lastRefill) / NANOS_PER_MILLI / (b.interval / NANOS_PER_MILLI) == portions
    requires current + portions * b.refillAmount < TWO_TO_THE_64
    ensures Refilled(b, current, now) == MinNat(current + portions * b.refillAmount, b.maxTokens)
  {
    WrapSmall(portions);
    WrapSmall(portions * b.refillAmount);
    WrapSmall(current + portions * b.refillAmount);
    hide Wrap;
  }

  lemma QuotientIs(n: nat, d: nat, k: nat)
    requires d > 0 && k * d <= n < (k + 1) * d
    ensures n / d == k
  {
    QuotientBound(k, d, n);
    if n / d >= k + 1 {
      MulMonotone(k + 1, n / d, d);
    }
  }

  lemma MillisBetween(elapsed: nat, millis: nat, k: nat)
    requires k * (millis * NANOS_PER_MILLI) <= elapsed < (k + 1) * (millis * NANOS_PER_MILLI)
    ensures k * millis <= elapsed / NANOS_PER_MILLI < (k + 1) * millis
  {
    var low, high := k * millis, (k + 1) * millis;
    assert k * (millis * NANOS_PER_MILLI) == low * NANOS_PER_MILLI;
    assert (k + 1) * (millis * NANOS_PER_MILLI) == high * NANOS_PER_MILLI;
  }

  /** A due refill after `k` whole units and less than one more brings `k` portions, up to the capacity; before that
      nothing happens. */
  lemma RefillExact(b: Bucket, now: nat, k: nat, full: nat)
    requires b.Valid() && now >= b.lastRefill
    requires k * Unit(b.interval) <= now - b.lastRefill < (k + 1) * Unit(b.interval)
    requires full == b.tokens + k * b.refillAmount && k < TWO_TO_THE_64 && full < TWO_TO_THE_64
    ensures Refill(b, now) ==
      if now - b.lastRefill < b.interval then b
      else b.(tokens := if full <= b.maxTokens then full else b.maxTokens, lastRefill := now)
  {
    MillisBetween(now - b.lastRefill, b.interval / NANOS_PER_MILLI, k);
    QuotientIs((now - b.lastRefill) / NANOS_PER_MILLI, b.interval / NANOS_PER_MILLI, k);
    hide Unit;
    RefilledBy(b, b.tokens, now, k);
    hide Refilled;
  }

  lemma WrapSmall(n: nat)
    requires n < TWO_TO_THE_64
    ensures Wrap(n) == n
  {
  }

  lemma TwoUnits(b: Bucket, end: nat)
    requires b.Valid() && b.interval % NANOS_PER_MILLI != 0 && end == b.lastRefill + 2 * Unit(b.interval)
    requires 2 * b.refillAmount < TWO_TO_THE_64
    ensures Due(b, end) && (end - b.lastRefill) / b.interval == 1
    ensures Refilled(b, 0, end) == MinNat(2 * b.refillAmount, b.maxTokens)
  {
    DoubledMillis(b.interval, b.interval / NANOS_PER_MILLI, end - b.lastRefill);
    RefilledBy(b, 0, end, 2);
    hide Unit, Refilled;
    OneInterval(b.interval, end - b.lastRefill);
  }

  /** Empties a full bucket, refills it once, and empties it again. */
  function DrainTwice(b: Bucket, end: nat, portion: nat): seq<Op> {
    [Take(b.maxTokens), RefillAt(end), Take(portion)]
  }

  lemma DrainedTwice(b: Bucket, end: nat)
    requires b.Valid() && b.tokens == b.maxTokens && Due(b, end)
    ensures var portion := Refilled(b.(tokens := 0), 0, end);
            && ClockedBy(DrainTwice(b, end, portion), b.lastRefill, end)
            && Run(Account(b, 0), DrainTwice(b, end, portion)).granted == b.maxTokens + portion
  {
    var portion := Refilled(b.(tokens := 0), 0, end);
    assert Due(b.(tokens := 0), end) && end >= b.lastRefill;
    hide Refilled, Due;
    var op0, op1, op2 := Take(b.maxTokens), RefillAt(end), Take(portion);
    RunLast(Account(b, 0), [], op0);
    RunLast(Account(b, 0), [op0], op1);
    RunLast(Account(b, 0), [op0, op1], op2);
    assert [] + [op0] == [op0] && [op0] + [op1] == [op0, op1] && [op0, op1] + [op2] == [op0, op1, op2];
    assert Run(Account(b, 0), [op0]) == Account(b.(tokens := 0), b.maxTokens);
  }

  /** With an interval that is not a whole number of milliseconds, portions come too early: a full bucket that holds
      more than one portion can be emptied, and more than one portion taken before two intervals have passed. */
  lemma FractionalIntervalOverdraws(b: Bucket)
    requires b.Valid() && b.tokens == b.maxTokens && b.interval % NANOS_PER_MILLI != 0
    requires 0 < b.refillAmount < b.maxTokens && 2 * b.refillAmount < TWO_TO_THE_64
    ensures var end := b.lastRefill + 2 * Unit(b.interval);
            var ops := DrainTwice(b, end, MinNat(2 * b.refillAmount, b.maxTokens));
            && ClockedBy(ops, b.lastRefill, end)
            && Run(Account(b, 0), ops).granted > b.maxTokens + b.refillAmount
            && (end - b.lastRefill) / b.interval == 1
  {
    hide Refilled, Unit, Run, ClockedBy, DrainTwice;
    var end := b.lastRefill + 2 * Unit(b.interval);
    TwoUnits(b, end);
    TwoUnits(b.(tokens := 0), end);
    DrainedTwice(b, end);
  }

  lemma RunLast(a: Account, ops: seq<Op>, op: Op)
    requires a.bucket.Valid()
    ensures Run(a, ops + [op]) == Perform(Run(a, ops), op)
  {
  }

  lemma Twice(n: nat)
    requires n > 0
    ensures 2 * n / n == 2
  {
  }

  lemma OneInterval(interval: nat, elapsed: nat)
    requires 0 < interval <= elapsed < 2 * interval
    ensures elapsed / interval == 1
  {
  }

  ghost predicate KeepsRate(b: Bucket, ops: seq<Op>, end: nat)
    requires b.Valid() && b.lastRefill <= end
  {
    Run(Account(b, 0), ops).granted <= b.maxTokens + b.refillAmount * ((end - b.lastRefill) / b.interval)
  }

  /** Granted so far is no more than a full bucket, and one more bucketful for each of `refills` refills, which are at
      least an interval apart. */
  ghost predicate Sparse(b: Bucket, granted: nat, start: nat, refills: nat) {
    && granted + b.tokens <= b.maxTokens + b.maxTokens * refills
    && start <= b.lastRefill && refills * b.interval <= b.lastRefill - start
  }

  lemma SparseRefill(b: Bucket, granted: nat, start: nat, refills: nat, now: nat) returns (more: nat)
    requires b.Valid() && Sparse(b, granted, start, refills)
    ensures Sparse(Refill(b, now), granted, start, more)
  {
    more := refills;
    if Due(b, now) {
      more := refills + 1;
      Distribute(b.maxTokens, refills, 1);
      Distribute(b.interval, refills, 1);
      assert Refill(b, now).tokens <= b.maxTokens;
      hide Refilled;
    }
  }

  lemma {:induction false} RunIsSparse(b: Bucket, ops: seq<Op>, end: nat) returns (refills: nat)
    requires b.Valid() && b.lastRefill <= end && ClockedBy(ops, b.lastRefill, end)
    ensures var r := Run(Account(b, 0), ops);
            && Sparse(r.bucket, r.granted, b.lastRefill, refills) && r.bucket.lastRefill <= end
            && r.bucket.interval == b.interval && r.bucket.maxTokens == b.maxTokens
  {
    if ops == [] {
      refills := 0;
    } else {
      var before, op := ops[..|ops| - 1], ops[|ops| - 1];
      assert ClockedBy(before, b.lastRefill, end);
      refills := RunIsSparse(b, before, end);
      hide Refilled, Unit;
      if op.RefillAt? {
        var a := Run(Account(b, 0), before);
        refills := SparseRefill(a.bucket, a.granted, b.lastRefill, refills, op.now);
      }
    }
  }

  lemma SparseBound(refills: nat, interval: nat, start: nat, last: nat, end: nat)
    requires interval > 0 && start <= last <= end && refills * interval <= last - start
    ensures refills <= (end - start) / interval
  {
    QuotientBound(refills, interval, end - start);
  }

  lemma BothMonotone(a: nat, b: nat, c: nat, d: nat)
    requires a <= b && c <= d
    ensures a * c <= b * d
  {
    MulMonotone(a, b, c);
    MulMonotone(c, d, b);
  }

  /** A bucket that holds no more than one portion keeps the nominal rate whatever its interval. */
  lemma SmallBucketKeepsRate(b: Bucket, ops: seq<Op>, end: nat)
    requires b.Valid() && b.lastRefill <= end && ClockedBy(ops, b.lastRefill, end) && b.maxTokens <= b.refillAmount
    ensures KeepsRate(b, ops, end)
  {
    var refills := RunIsSparse(b, ops, end);
    hide Run, ClockedBy;
    SparseBound(refills, b.interval, b.lastRefill, Run(Account(b, 0), ops).bucket.lastRefill, end);
    BothMonotone(b.maxTokens, b.refillAmount, refills, (end - b.lastRefill) / b.interval);
  }

  /** What decides about the nominal rate: whole milliseconds, or never more than one portion in the bucket. */
  predicate KeepsNominalRate(b: Bucket) {
    b.interval % NANOS_PER_MILLI == 0 || b.maxTokens <= b.refillAmount || b.refillAmount == 0
  }

  lemma NominalRateKept(b: Bucket, ops: seq<Op>, end: nat)
    requires b.Valid() && b.lastRefill <= end && ClockedBy(ops, b.lastRefill, end) && KeepsNominalRate(b)
    ensures KeepsRate(b, ops, end)
  {
    if b.maxTokens <= b.refillAmount {
      SmallBucketKeepsRate(b, ops, end);
    } else {
      GrantedBounded(b, ops, end);
    }
  }

  /** The nominal rate, one portion per interval, holds for every run exactly when the interval is a whole number of
      milliseconds, the bucket holds no more than one portion, or portions are empty. */
  lemma NominalRateExactly(b: Bucket)
    requires b.Valid() && b.tokens == b.maxTokens && 2 * b.refillAmount < TWO_TO_THE_64
    ensures KeepsNominalRate(b) <==>
      forall ops, end :: b.lastRefill <= end && ClockedBy(ops, b.lastRefill, end) ==> KeepsRate(b, ops, end)
  {
    if KeepsNominalRate(b) {
      forall ops, end | b.lastRefill <= end && ClockedBy(ops, b.lastRefill, end) ensures KeepsRate(b, ops, end) {
        NominalRateKept(b, ops, end);
      }
    } else {
      FractionalIntervalOverdraws(b);
      var end := b.lastRefill + 2 * Unit(b.interval);
      var ops := DrainTwice(b, end, MinNat(2 * b.refillAmount, b.maxTokens));
      assert ClockedBy(ops, b.lastRefill, end) && !KeepsRate(b, ops, end);
    }
  }

  // ----- single loads, stores and compare-exchanges

  /** A refill that has loaded the token count but not stored it yet; the write lock admits one at a time. */
  datatype Loaded = Loaded(current: nat, now: nat)

  /** The bucket with its unfinished operations: a refill, and takers that have loaded a token count.
      `overdrawn` sums what was taken while a refill held an older count, `sinceLoad` the part of it since the
      current refill loaded. */
  datatype Shared = Shared(bucket: Bucket, refill: Option<Loaded>, takers: map<nat, (nat, nat)>, granted: nat,
                           sinceLoad: nat, overdrawn: nat)

  datatype Atomic =
    | RefillLoad(now: nat)
    | RefillStore
    | TakeLoad(taker: nat, amount: nat)
    | TakeExchange(taker: nat)

  predicate Enabled(s: Shared, a: Atomic) {
    match a
    case RefillLoad(now) => s.refill.None? && now >= s.bucket.lastRefill
    case RefillStore => s.refill.Some?
    case TakeLoad(taker, _) => taker !in s.takers
    case TakeExchange(taker) => taker in s.takers
  }

  /** Takers have loaded no less than they want to take. */
  predicate WellFormed(s: Shared) {
    s.bucket.Valid() && forall t :: t in s.takers ==> s.takers[t].1 <= s.takers[t].0
  }

  function Step(s: Shared, a: Atomic): (t: Shared)
    requires WellFormed(s) && Enabled(s, a)
    ensures WellFormed(t)
  {
    match a
    case RefillLoad(now) =>
      if Due(s.bucket, now) then s.(refill := Some(Loaded(s.bucket.tokens, now)), sinceLoad := 0) else s
    case RefillStore =>
      var Loaded(current, now) := s.refill.value;
      s.(bucket := s.bucket.(tokens := Refilled(s.bucket, current, now), lastRefill := now),
         refill := None, overdrawn := s.overdrawn + s.sinceLoad, sinceLoad := 0)
    case TakeLoad(taker, amount) =>
      if s.bucket.tokens < amount then s else s.(takers := s.takers[taker := (s.bucket.tokens, amount)])
    case TakeExchange(taker) =>
      var (current, amount) := s.takers[taker];
      var t := s.(takers := s.takers - {taker});
      // A failed exchange loads again.
      if s.bucket.tokens != current then t
      else t.(bucket := s.bucket.(tokens := current - amount), granted := s.granted + amount,
              sinceLoad := if s.refill.Some? then s.sinceLoad + amount else s.sinceLoad)
  }

  ghost predicate IsTrace(s: Shared, steps: seq<Atomic>)
    requires WellFormed(s)
    decreases |steps|
  {
    steps != [] ==> Enabled(s, steps[0]) && IsTrace(Step(s, steps[0]), steps[1..])
  }

  ghost function Trace(s: Shared, steps: seq<Atomic>): Shared
    requires WellFormed(s) && IsTrace(s, steps)
    decreases |steps|
  {
    if steps == [] then s else Trace(Step(s, steps[0]), steps[1..])
  }

  /** While a refill is between load and store, the tokens only fall, by what is taken meanwhile; and all that is
      granted is paid for by the initial fill, by refills, and by the overdrawn part. */
  ghost predicate SharedInv(s: Shared, capacity: nat, start: nat, portions: nat) {
    && WellFormed(s)
    && (s.refill.Some? ==> s.refill.value.now >= s.bucket.lastRefill
                           && s.bucket.tokens + s.sinceLoad == s.refill.value.current)
    && s.granted + s.bucket.tokens <= capacity + s.bucket.refillAmount * portions + s.overdrawn
    && start <= s.bucket.lastRefill && portions * Unit(s.bucket.interval) <= s.bucket.lastRefill - start
  }

  lemma StoreKeepsInv(s: Shared, capacity: nat, start: nat, portions: nat) returns (more: nat)
    requires SharedInv(s, capacity, start, portions) && s.refill.Some?
    ensures SharedInv(Step(s, RefillStore), capacity, start, more)
  {
    var b, current, now := s.bucket, s.refill.value.current, s.refill.value.now;
    var added := RefillAdds(b, current, now);
    more := portions + added;
    hide Refilled, Unit;
    Distribute(b.refillAmount, portions, added);
    Distribute(Unit(b.interval), portions, added);
  }

  lemma StepKeepsInv(s: Shared, a: Atomic, capacity: nat, start: nat, portions: nat) returns (more: nat)
    requires SharedInv(s, capacity, start, portions) && Enabled(s, a)
    ensures SharedInv(Step(s, a), capacity, start, more)
    ensures Step(s, a).bucket.interval == s.bucket.interval && Step(s, a).bucket.refillAmount == s.bucket.refillAmount
    ensures Step(s, a).bucket.maxTokens == s.bucket.maxTokens
  {
    hide Refilled, Unit;
    more := portions;
    if a.RefillStore? {
      more := StoreKeepsInv(s, capacity, start, portions);
    }
  }

  lemma {:induction false} TraceKeepsInv(s: Shared, steps: seq<Atomic>, capacity: nat, start: nat, portions: nat)
    returns (more: nat)
    requires SharedInv(s, capacity, start, portions) && IsTrace(s, steps)
    ensures SharedInv(Trace(s, steps), capacity, start, more)
    ensures Trace(s, steps).bucket.interval == s.bucket.interval
    ensures Trace(s, steps).bucket.refillAmount == s.bucket.refillAmount
    ensures Trace(s, steps).bucket.maxTokens == s.bucket.maxTokens
    decreases |steps|
  {
    if steps == [] {
      more := portions;
    } else {
      more := StepKeepsInv(s, steps[0], capacity, start, portions);
      hide SharedInv, Step, Enabled;
      more := TraceKeepsInv(Step(s, steps[0]), steps[1..], capacity, start, more);
    }
  }

  /** In every interleaving of single atomic steps the tokens stay within the capacity, and the rate bound is
      exceeded by no more than what was taken between the load and the store of some refill. */
  lemma InterleavedBound(b: Bucket, steps: seq<Atomic>)
    requires b.Valid() && IsTrace(Shared(b, None, map[], 0, 0, 0), steps)
    ensures var s := Trace(Shared(b, None, map[], 0, 0, 0), steps);
            && 0 <= s.bucket.tokens <= b.maxTokens && s.bucket.lastRefill >= b.lastRefill
            && s.granted + s.bucket.tokens <= b.maxTokens + s.overdrawn
                 + b.refillAmount * ((s.bucket.lastRefill - b.lastRefill) / Unit(b.interval))
  {
    hide Unit, Trace, IsTrace;
    var s0 := Shared(b, None, map[], 0, 0, 0);
    assert SharedInv(s0, b.maxTokens, b.lastRefill, 0);
    var portions := TraceKeepsInv(s0, steps, b.maxTokens, b.lastRefill, 0);
    var s := Trace(s0, steps);
    var units := (s.bucket.lastRefill - b.lastRefill) / Unit(b.interval);
    QuotientBound(portions, Unit(b.interval), s.bucket.lastRefill - b.lastRefill);
    MulMonotone(portions, units, b.refillAmount);
  }

  /** The step takes tokens while a refill holds an older count. */
  predicate TakesDuringRefill(s: Shared, a: Atomic)
    requires Enabled(s, a)
  {
    a.TakeExchange? && s.refill.Some? && s.takers[a.taker].0 == s.bucket.tokens
  }

  /** No exchange succeeds between the load and the store of a refill. */
  ghost predicate Undisturbed(s: Shared, steps: seq<Atomic>)
    requires WellFormed(s) && IsTrace(s, steps)
    decreases |steps|
  {
    steps != [] ==> !TakesDuringRefill(s, steps[0]) && Undisturbed(Step(s, steps[0]), steps[1..])
  }

  lemma {:induction false} NothingOverdrawn(s: Shared, steps: seq<Atomic>)
    requires WellFormed(s) && IsTrace(s, steps) && Undisturbed(s, steps) && s.sinceLoad == 0
    ensures Trace(s, steps).overdrawn == s.overdrawn
    decreases |steps|
  {
    if steps != [] {
      var t := Step(s, steps[0]);
      assert t.sinceLoad == 0 && t.overdrawn == s.overdrawn;
      hide Step, Enabled, TakesDuringRefill;
      NothingOverdrawn(t, steps[1..]);
    }
  }

  /** In every interleaving in which refills are not disturbed, the rate bound of the atomic runs holds. */
  lemma UndisturbedBound(b: Bucket, steps: seq<Atomic>)
    requires b.Valid() && IsTrace(Shared(b, None, map[], 0, 0, 0), steps)
    requires Undisturbed(Shared(b, None, map[], 0, 0, 0), steps)
    ensures var s := Trace(Shared(b, None, map[], 0, 0, 0), steps);
            s.granted + s.bucket.tokens
              <= b.maxTokens + b.refillAmount * ((s.bucket.lastRefill - b.lastRefill) / Unit(b.interval))
  {
    hide Unit, Trace, IsTrace, Undisturbed;
    InterleavedBound(b, steps);
    NothingOverdrawn(Shared(b, None, map[], 0, 0, 0), steps);
  }

  // ----- which buckets keep the bound at this grain

  function Unstarted(b: Bucket): Shared { Shared(b, None, map[], 0, 0, 0) }

  ghost predicate WithinBound(b: Bucket, s: Shared)
    requires b.Valid() && s.bucket.lastRefill >= b.lastRefill
  {
    s.granted + s.bucket.tokens
      <= b.maxTokens + b.refillAmount * ((s.bucket.lastRefill - b.lastRefill) / Unit(b.interval))
  }

  ghost predicate KeepsBound(b: Bucket, steps: seq<Atomic>)
    requires b.Valid() && IsTrace(Unstarted(b), steps)
  {
    var s := Trace(Unstarted(b), steps);
    s.bucket.lastRefill >= b.lastRefill && WithinBound(b, s)
  }

  /** Every store brings in at most one more bucketful, and stores are at least a unit apart. */
  ghost predicate SparseInv(s: Shared, start: nat, stores: nat) {
    && WellFormed(s)
    && (s.refill.Some? ==> s.refill.value.now >= s.bucket.lastRefill && Due(s.bucket, s.refill.value.now))
    && s.granted + s.bucket.tokens <= s.bucket.maxTokens + s.bucket.maxTokens * stores
    && start <= s.bucket.lastRefill && stores * Unit(s.bucket.interval) <= s.bucket.lastRefill - start
  }

  lemma SparseStep(s: Shared, a: Atomic, start: nat, stores: nat) returns (more: nat)
    requires SparseInv(s, start, stores) && Enabled(s, a)
    ensures SparseInv(Step(s, a), start, more)
    ensures Step(s, a).bucket.interval == s.bucket.interval && Step(s, a).bucket.maxTokens == s.bucket.maxTokens
  {
    more := stores;
    if a.RefillStore? {
      more := stores + 1;
      Distribute(s.bucket.maxTokens, stores, 1);
      Distribute(Unit(s.bucket.interval), stores, 1);
    }
    hide Refilled, Unit;
  }

  lemma {:induction false} SparseTrace(s: Shared, steps: seq<Atomic>, start: nat, stores: nat) returns (more: nat)
    requires SparseInv(s, start, stores) && IsTrace(s, steps)
    ensures SparseInv(Trace(s, steps), start, more)
    ensures Trace(s, steps).bucket.interval == s.bucket.interval
    ensures Trace(s, steps).bucket.maxTokens == s.bucket.maxTokens
    decreases |steps|
  {
    if steps == [] {
      more := stores;
    } else {
      more := SparseStep(s, steps[0], start, stores);
      hide SparseInv, Step, Enabled;
      more := SparseTrace(Step(s, steps[0]), steps[1..], start, more);
    }
  }

  lemma SmallBucketKeepsBound(b: Bucket, steps: seq<Atomic>)
    requires b.Valid() && IsTrace(Unstarted(b), steps) && b.maxTokens <= b.refillAmount
    ensures KeepsBound(b, steps)
  {
    hide Unit, Trace, IsTrace;
    assert SparseInv(Unstarted(b), b.lastRefill, 0);
    var stores := SparseTrace(Unstarted(b), steps, b.lastRefill, 0);
    var s := Trace(Unstarted(b), steps);
    var units := (s.bucket.lastRefill - b.lastRefill) / Unit(b.interval);
    QuotientBound(stores, Unit(b.interval), s.bucket.lastRefill - b.lastRefill);
    BothMonotone(b.maxTokens, b.refillAmount, stores, units);
  }

  /** Takes everything while the first refill that is due holds the old count. */
  function TakeDuringRefill(b: Bucket): seq<Atomic> {
    [RefillLoad(b.lastRefill + b.interval), TakeLoad(0, b.maxTokens), TakeExchange(0), RefillStore]
  }

  lemma OneUnit(interval: nat)
    requires interval >= NANOS_PER_MILLI
    ensures interval / Unit(interval) == 1
    ensures interval / NANOS_PER_MILLI / (interval / NANOS_PER_MILLI) == 1
  {
    OneInterval(Unit(interval), interval);
  }

  lemma OneRefill(b: Bucket)
    requires b.Valid() && b.maxTokens + b.refillAmount < TWO_TO_THE_64
    ensures Refilled(b, b.maxTokens, b.lastRefill + b.interval) == b.maxTokens
    ensures Due(b, b.lastRefill + b.interval)
  {
    OneUnit(b.interval);
    RefilledBy(b, b.maxTokens, b.lastRefill + b.interval, 1);
    hide Refilled;
  }

  /** The bucket is full again although all of it has just been granted. */
  lemma RefillForgetsAll(b: Bucket)
    requires b.Valid() && b.tokens == b.maxTokens && b.maxTokens + b.refillAmount < TWO_TO_THE_64
    ensures IsTrace(Unstarted(b), TakeDuringRefill(b))
    ensures var s := Trace(Unstarted(b), TakeDuringRefill(b));
            s.granted == s.bucket.tokens == b.maxTokens && s.bucket.lastRefill == b.lastRefill + b.interval
  {
    var now, max := b.lastRefill + b.interval, b.maxTokens;
    OneRefill(b);
    OneRefill(b.(tokens := 0));
    hide Refilled;
    var s0 := Unstarted(b);
    var s1 := s0.(refill := Some(Loaded(max, now)));
    var s2 := s1.(takers := map[0 := (max, max)]);
    var s3 := s1.(bucket := b.(tokens := 0), granted := max, sinceLoad := max);
    var s4 := s3.(bucket := b.(tokens := max, lastRefill := now), refill := None, overdrawn := max, sinceLoad := 0);
    assert s2.takers - {0} == map[];
    assert Step(s0, RefillLoad(now)) == s1 && Step(s1, TakeLoad(0, max)) == s2;
    assert Step(s2, TakeExchange(0)) == s3 && Step(s3, RefillStore) == s4;
    hide Step;
    var r := Chain(s3, RefillStore, s4, []);
    r := Chain(s2, TakeExchange(0), s3, r);
    r := Chain(s1, TakeLoad(0, max), s2, r);
    r := Chain(s0, RefillLoad(now), s1, r);
    assert r == TakeDuringRefill(b);
  }

  /** At the grain of single loads, stores and exchanges, a full bucket keeps the rate bound in every interleaving
      exactly when it holds no more than one portion. */
  lemma InterleavedRateExactly(b: Bucket)
    requires b.Valid() && b.tokens == b.maxTokens && b.maxTokens + b.refillAmount < TWO_TO_THE_64
    ensures b.maxTokens <= b.refillAmount <==> forall steps :: IsTrace(Unstarted(b), steps) ==> KeepsBound(b, steps)
  {
    if b.maxTokens <= b.refillAmount {
      forall steps | IsTrace(Unstarted(b), steps) ensures KeepsBound(b, steps) {
        SmallBucketKeepsBound(b, steps);
      }
    } else {
      RefillForgetsAll(b);
      OneUnit(b.interval);
      hide Unit, IsTrace, Trace, TakeDuringRefill;
      assert !KeepsBound(b, TakeDuringRefill(b));
    }
  }

  /** The excess is real: a take between load and store is forgotten, and the same tokens are granted twice. */
  lemma RefillForgetsTake()
    ensures var b := Bucket(10, 10, 1, 0, NANOS_PER_MILLI);
            var steps := [RefillLoad(NANOS_PER_MILLI), TakeLoad(0, 10), TakeExchange(0), RefillStore,
                          TakeLoad(0, 10), TakeExchange(0)];
            IsTrace(Shared(b, None, map[], 0, 0, 0), steps)
              && Trace(Shared(b, None, map[], 0, 0, 0), steps).granted == 20
              && Trace(Shared(b, None, map[], 0, 0, 0), steps).bucket.lastRefill == NANOS_PER_MILLI
  {
    var b := Bucket(10, 10, 1, 0, NANOS_PER_MILLI);
    var s0 := Shared(b, None, map[], 0, 0, 0);
    var s1 := s0.(refill := Some(Loaded(10, NANOS_PER_MILLI)));
    var s2 := s1.(takers := map[0 := (10, 10)]);
    var s3 := s1.(bucket := b.(tokens := 0), granted := 10, sinceLoad := 10);
    var s4 := s3.(bucket := b.(tokens := 10, lastRefill := NANOS_PER_MILLI), refill := None, overdrawn := 10,
                  sinceLoad := 0);
    var s5 := s4.(takers := map[0 := (10, 10)]);
    var s6 := s4.(bucket := s4.bucket.(tokens := 0), granted := 20);
    assert s2.takers - {0} == map[] && s5.takers - {0} == map[];
    assert Refilled(s3.bucket, 10, NANOS_PER_MILLI) == 10;
    var r := Chain(s5, TakeExchange(0), s6, []);
    r := Chain(s4, TakeLoad(0, 10), s5, r);
    r := Chain(s3, RefillStore, s4, r);
    r := Chain(s2, TakeExchange(0), s3, r);
    r := Chain(s1, TakeLoad(0, 10), s2, r);
    r := Chain(s0, RefillLoad(NANOS_PER_MILLI), s1, r);
    assert r == [RefillLoad(NANOS_PER_MILLI), TakeLoad(0, 10), TakeExchange(0), RefillStore,
                 TakeLoad(0, 10), TakeExchange(0)];
  }

  lemma Chain(s: Shared, a: Atomic, t: Shared, rest: seq<Atomic>) returns (steps: seq<Atomic>)
    requires WellFormed(s) && Enabled(s, a) && t == Step(s, a) && IsTrace(t, rest)
    ensures steps == [a] + rest && IsTrace(s, steps) && Trace(s, steps) == Trace(t, rest)
  {
    steps := [a] + rest;
    assert steps[1..] == rest;
  }
}
