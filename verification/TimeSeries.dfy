/** Time-series aggregation into buckets (src/filters.rs, `aggregate_points`). */
module TimeSeries {
  import opened Sequences
  import opened Words

  datatype Point = Point(time: int, value: real)

  datatype Kind = Avg | Sum | Min | Max | Count | First | Last

  /** Division truncates toward zero. */
  function TruncDiv(a: int, b: int): int
    requires b != 0
  {
    if a >= 0 then a / b else -((-a) / b)
  }

  function BucketOf(time: int, bucket: int): int
    requires bucket != 0
  {
    TruncDiv(time, bucket) * bucket
  }

  lemma DivBounds(n: nat, b: nat) returns (q: nat)
    requires b > 0
    ensures q == n / b && q * b <= n < q * b + b
    ensures q == 0 <==> n < b
    ensures q * b == 0 <==> q == 0
  {
    q := n / b;
    assert n == b * (n / b) + n % b;
  }

  function Magnitude(n: int): nat { if n < 0 then -n else n }

  /** The sign of the bucket size makes no difference. */
  lemma BucketSign(time: int, bucket: int)
    requires bucket != 0
    ensures BucketOf(time, bucket) == BucketOf(time, Magnitude(bucket))
  {
    if bucket < 0 {
      var n := Magnitude(time);
      assert n / bucket == -(n / Magnitude(bucket));
      Negated(n / Magnitude(bucket), Magnitude(bucket));
    }
  }

  lemma Negated(q: int, b: int)
    ensures -q * -b == q * b && -(-q) * -b == -(q * b) && -q * b == -(q * b)
  {
  }

  lemma StartsBucket(n: nat, b: nat)
    requires b > 0
    ensures n / b * b == n <==> n % b == 0
  {
    assert n == n / b * b + n % b;
  }

  lemma NegativeMultiple(n: int, b: int)
    requires n >= 0 && b > 0
    ensures -n % b == 0 <==> n % b == 0
  {
    var q: int, r: int := n / b, n % b;
    Negated(q, b);
    assert (-q - 1) * b == -q * b - b;
    Remainder(-n, b, if r == 0 then -q else -q - 1, if r == 0 then 0 else b - r);
  }

  lemma MultipleIsLarge(d: int, b: int)
    requires b > 0
    ensures d >= 1 ==> d * b >= b
    ensures d <= -1 ==> d * b <= -b
  {
  }

  lemma Remainder(n: int, b: int, q: int, r: int)
    requires 0 <= r < b && n == q * b + r
    ensures n % b == r
  {
    var d := n / b - q;
    assert d * b == r - n % b;
    MultipleIsLarge(d, b);
  }

  /** A bucket contains its points exactly for times that are not negative or are multiples of the size: truncation
      moves the other times up, so bucket 0 covers the times on both sides of 0. */
  lemma BucketContains(time: int, bucket: int)
    requires bucket != 0
    ensures BucketOf(time, bucket) <= time < BucketOf(time, bucket) + Magnitude(bucket)
      <==> time >= 0 || time % Magnitude(bucket) == 0
    ensures BucketOf(time, bucket) == 0 <==> Magnitude(time) < Magnitude(bucket)
  {
    BucketSign(time, bucket);
    var q := DivBounds(Magnitude(time), Magnitude(bucket));
    assert -q * Magnitude(bucket) == -(q * Magnitude(bucket));
    if time < 0 {
      StartsBucket(-time, Magnitude(bucket));
      NegativeMultiple(-time, Magnitude(bucket));
    }
  }

  /** Buckets start at multiples of the size. */
  lemma BucketIsMultiple(time: int, bucket: int)
    requires bucket != 0
    ensures BucketOf(time, bucket) % Magnitude(bucket) == 0
  {
    BucketSign(time, bucket);
    var b := Magnitude(bucket);
    Remainder(BucketOf(time, b), b, TruncDiv(time, b), 0);
  }

  // ----- aggregating one bucket

  function SumOf(s: seq<real>): real {
    if s == [] then 0.0 else SumOf(s[..|s| - 1]) + s[|s| - 1]
  }

  function MinOf(s: seq<real>): real
    requires s != []
  {
    var last := s[|s| - 1];
    if |s| == 1 then last
    else
      var rest := MinOf(s[..|s| - 1]);
      if last < rest then last else rest
  }

  function MaxOf(s: seq<real>): real
    requires s != []
  {
    var last := s[|s| - 1];
    if |s| == 1 then last
    else
      var rest := MaxOf(s[..|s| - 1]);
      if last > rest then last else rest
  }

  function Aggregate(kind: Kind, values: seq<real>): real
    requires values != []
  {
    match kind
    case Avg => SumOf(values) / |values| as real
    case Sum => SumOf(values)
    case Min => MinOf(values)
    case Max => MaxOf(values)
    case Count => |values| as real
    case First => values[0]
    case Last => values[|values| - 1]
  }

  function Times(x: real, n: nat): real { x * n as real }

  lemma TimesOne(x: real)
    ensures Times(x, 1) == x
  {
  }

  lemma OneMoreAbove(low: real, before: real, n: nat, sum: real, x: real)
    requires low <= before && low <= x && Times(before, n) <= sum
    ensures Times(low, n + 1) <= sum + x
  {
    Scale(low, before, n as real);
    assert low * (n + 1) as real == low * n as real + low;
  }

  lemma OneMoreBelow(high: real, before: real, n: nat, sum: real, x: real)
    requires high >= before && high >= x && Times(before, n) >= sum
    ensures Times(high, n + 1) >= sum + x
  {
    Scale(before, high, n as real);
    assert high * (n + 1) as real == high * n as real + high;
  }

  lemma {:induction false} SumBetween(s: seq<real>)
    requires s != []
    ensures Times(MinOf(s), |s|) <= SumOf(s) <= Times(MaxOf(s), |s|)
  {
    hide Times;
    var init, last := s[..|s| - 1], s[|s| - 1];
    if init == [] {
      assert SumOf(init) == 0.0;
      TimesOne(last);
    } else {
      SumBetween(init);
      OneMoreAbove(MinOf(s), MinOf(init), |init|, SumOf(init), last);
      OneMoreBelow(MaxOf(s), MaxOf(init), |init|, SumOf(init), last);
    }
  }

  lemma Scale(a: real, b: real, n: real)
    requires a <= b && n >= 0.0
    ensures a * n <= b * n
  {
  }

  lemma StrictScale(a: real, b: real, n: real)
    requires a < b && n > 0.0
    ensures a * n < b * n
  {
  }

  lemma Quotient(a: real, s: real, b: real, n: real)
    requires n > 0.0 && a * n <= s <= b * n
    ensures a <= s / n <= b
  {
    var q := s / n;
    assert q * n == s;
    if q < a {
      StrictScale(q, a, n);
    } else if q > b {
      StrictScale(b, q, n);
    }
  }

  /** Minimum and maximum are values of the bucket that bound all its values, and the average lies between them. */
  lemma MinAvgMax(s: seq<real>)
    requires s != []
    ensures Aggregate(Min, s) <= Aggregate(Avg, s) <= Aggregate(Max, s)
    ensures Aggregate(Min, s) in s && Aggregate(Max, s) in s
    ensures forall i :: 0 <= i < |s| ==> Aggregate(Min, s) <= s[i] <= Aggregate(Max, s)
  {
    SumBetween(s);
    Quotient(MinOf(s), SumOf(s), MaxOf(s), |s| as real);
    ExtremesAttained(s);
  }

  /** The average times the number of values is their sum, and a value more adds itself and counts once. */
  lemma AverageExact(s: seq<real>, x: real)
    requires s != []
    ensures Aggregate(Avg, s) * Aggregate(Count, s) == Aggregate(Sum, s)
    ensures Aggregate(Sum, [x]) == x && Aggregate(Sum, s + [x]) == Aggregate(Sum, s) + x
    ensures Aggregate(Count, [x]) == 1.0 && Aggregate(Count, s + [x]) == Aggregate(Count, s) + 1.0
  {
    hide SumOf;
    SumLast([], x);
    SumLast(s, x);
    assert [] + [x] == [x] && SumOf([]) == 0.0 by { NothingSums(); }
    QuotientTimes(SumOf(s), |s| as real);
  }

  lemma NothingSums()
    ensures SumOf([]) == 0.0
  {
  }

  lemma QuotientTimes(a: real, n: real)
    requires n > 0.0
    ensures a / n * n == a
  {
  }

  lemma {:induction false} ExtremesAttained(s: seq<real>)
    requires s != []
    ensures MinOf(s) in s && MaxOf(s) in s
    ensures forall i :: 0 <= i < |s| ==> MinOf(s) <= s[i] <= MaxOf(s)
  {
    if |s| > 1 {
      ExtremesAttained(s[..|s| - 1]);
    }
  }

  // ----- all buckets

  /** The values of the points in the bucket that starts at `start`, in input order. */
  ghost function ValuesIn(points: seq<Point>, bucket: int, start: int): seq<real>
    requires bucket != 0
  {
    if points == [] then []
    else
      var last := points[|points| - 1];
      var rest := ValuesIn(points[..|points| - 1], bucket, start);
      if BucketOf(last.time, bucket) == start then rest + [last.value] else rest
  }

  datatype Row = Row(time: int, value: real)

  const BY_TIME: (Row, Row) -> bool := (a: Row, b: Row) => a.time <= b.time

  datatype Outcome = Panics | Rows(rows: seq<Row>)

  /** Dividing panics for a zero bucket, and for the one quotient that is out of range. */
  predicate Divides(time: int, bucket: int): (divides: bool)
    ensures divides ==> bucket != 0
  {
    bucket != 0 && !(time == I64_MIN && bucket == -1)
  }

  /** On 64-bit times, that is exactly where there is no quotient in 64 bits. */
  lemma DividesExactly(time: int, bucket: int)
    requires -0x8000_0000_0000_0000 <= time < 0x8000_0000_0000_0000
    ensures Divides(time, bucket) <==>
      bucket != 0 && -0x8000_0000_0000_0000 <= TruncDiv(time, bucket) < 0x8000_0000_0000_0000
  {
    if bucket != 0 {
      QuotientSmaller(Magnitude(time), Magnitude(bucket));
      TruncIsMagnitude(time, bucket);
    }
  }

  lemma NegativeDivisor(n: int, b: int)
    requires n >= 0 && b > 0
    ensures n / -b == -(n / b)
  {
  }

  lemma TruncIsMagnitude(time: int, bucket: int)
    requires bucket != 0
    ensures var q: int := Magnitude(time) / Magnitude(bucket);
            TruncDiv(time, bucket) == if (time < 0) == (bucket < 0) then q else -q
  {
    if bucket < 0 {
      NegativeDivisor(Magnitude(time), Magnitude(bucket));
    }
  }

  lemma QuotientSmaller(n: nat, b: nat)
    requires b > 0
    ensures n / b <= n && (b >= 2 ==> 2 * (n / b) <= n) && (b == 1 ==> n / b == n)
  {
    var q := n / b;
    assert q * b <= n;
    assert b >= 2 ==> q * 2 <= q * b;
    assert q * 1 <= q * b;
  }

  /** Each row aggregates the values of one non-empty bucket. */
  ghost predicate RowsOf(points: seq<Point>, kind: Kind, bucket: int, rows: seq<Row>)
    requires bucket != 0
  {
    forall i :: 0 <= i < |rows| ==>
      && ValuesIn(points, bucket, rows[i].time) != []
      && rows[i].value == Aggregate(kind, ValuesIn(points, bucket, rows[i].time))
  }

  ghost predicate HasRow(rows: seq<Row>, start: int) {
    exists i :: 0 <= i < |rows| && rows[i].time == start
  }

  /** One row for every bucket that has a point, at strictly increasing multiples of the bucket size. */
  ghost predicate Aggregated(points: seq<Point>, kind: Kind, bucket: int, rows: seq<Row>)
    requires bucket != 0
  {
    && RowsOf(points, kind, bucket, rows)
    && (forall i, j :: 0 <= i < j < |rows| ==> rows[i].time < rows[j].time)
    && (forall i :: 0 <= i < |rows| ==> rows[i].time % Magnitude(bucket) == 0)
    && (forall k :: 0 <= k < |points| ==> HasRow(rows, BucketOf(points[k].time, bucket)))
  }

  lemma ValuesLast(points: seq<Point>, bucket: int, p: Point, start: int)
    requires bucket != 0
    ensures ValuesIn(points + [p], bucket, start) ==
      if BucketOf(p.time, bucket) == start then ValuesIn(points, bucket, start) + [p.value]
      else ValuesIn(points, bucket, start)
  {
  }

  /** The buckets hold the values of the points, in input order. */
  ghost predicate Grouped(points: seq<Point>, bucket: int, buckets: map<int, seq<real>>)
    requires bucket != 0
  {
    && (forall start :: ValuesIn(points, bucket, start) == if start in buckets then buckets[start] else [])
    && (forall start :: start in buckets ==> buckets[start] != [])
    && (forall k :: 0 <= k < |points| ==> BucketOf(points[k].time, bucket) in buckets)
  }

  lemma NothingGrouped(bucket: int)
    requires bucket != 0
    ensures Grouped([], bucket, map[])
  {
  }

  lemma OneMoreGrouped(points: seq<Point>, bucket: int, buckets: map<int, seq<real>>, p: Point)
    requires bucket != 0 && Grouped(points, bucket, buckets)
    ensures var start := BucketOf(p.time, bucket);
            Grouped(points + [p], bucket,
                    buckets[start := (if start in buckets then buckets[start] else []) + [p.value]])
  {
    hide BucketOf, ValuesIn;
    forall s ensures ValuesIn(points + [p], bucket, s) ==
      if BucketOf(p.time, bucket) == s then ValuesIn(points, bucket, s) + [p.value] else ValuesIn(points, bucket, s)
    {
      ValuesLast(points, bucket, p, s);
    }
  }

  method GroupPoints(points: seq<Point>, bucket: int) returns (ok: bool, buckets: map<int, seq<real>>)
    ensures ok <==> forall k :: 0 <= k < |points| ==> Divides(points[k].time, bucket)
    ensures ok && bucket != 0 ==> Grouped(points, bucket, buckets)
  {
    hide *;
    ok, buckets := true, map[];
    if bucket != 0 {
      NothingGrouped(bucket);
    }
    for i := 0 to |points|
      invariant forall k :: 0 <= k < i ==> Divides(points[k].time, bucket)
      invariant bucket != 0 ==> Grouped(points[..i], bucket, buckets)
    {
      if !Divides(points[i].time, bucket) {
        ok := false;
        return;
      }
      var start := BucketOf(points[i].time, bucket);
      assert points[..i + 1] == points[..i] + [points[i]];
      OneMoreGrouped(points[..i], bucket, buckets, points[i]);
      buckets := buckets[start := (if start in buckets then buckets[start] else []) + [points[i].value]];
    }
    assert points[..|points|] == points;
  }

  lemma SomeMember<T>(s: set<T>) returns (key: T)
    requires s != {}
    ensures key in s
  {
    key :| key in s;
  }

  /** The buckets that start at `done` have their rows, one each. */
  ghost predicate Collected(points: seq<Point>, kind: Kind, bucket: int, rows: seq<Row>, done: set<int>)
    requires bucket != 0
  {
    && RowsOf(points, kind, bucket, rows)
    && (forall i, j :: 0 <= i < j < |rows| ==> rows[i].time != rows[j].time)
    && (forall i :: 0 <= i < |rows| ==> rows[i].time in done)
    && (forall start :: start in done ==> HasRow(rows, start))
  }

  lemma NothingCollected(points: seq<Point>, kind: Kind, bucket: int)
    requires bucket != 0
    ensures Collected(points, kind, bucket, [], {})
  {
  }

  lemma OneMoreCollected(points: seq<Point>, kind: Kind, bucket: int, buckets: map<int, seq<real>>, rows: seq<Row>,
                         done: set<int>, start: int)
    requires bucket != 0 && Grouped(points, bucket, buckets) && Collected(points, kind, bucket, rows, done)
    requires start in buckets && start !in done
    ensures buckets[start] != []
    ensures Collected(points, kind, bucket, rows + [Row(start, Aggregate(kind, buckets[start]))], done + {start})
  {
    assert ValuesIn(points, bucket, start) == buckets[start] != [];
    hide BucketOf, Aggregate, HasRow, ValuesIn, Grouped;
    var row := Row(start, Aggregate(kind, buckets[start]));
    forall s ensures HasRow(rows + [row], s) <==> HasRow(rows, s) || row.time == s {
      RowAdded(rows, row, s);
    }
    forall i | 0 <= i <= |rows| ensures (rows + [row])[i] == if i < |rows| then rows[i] else row {}
  }

  lemma AllCollected(points: seq<Point>, kind: Kind, bucket: int, buckets: map<int, seq<real>>, rows: seq<Row>)
    requires bucket != 0 && Grouped(points, bucket, buckets) && Collected(points, kind, bucket, rows, buckets.Keys)
    ensures Aggregated(points, kind, bucket, Sort(BY_TIME, rows))
  {
    hide BucketOf, Aggregate, HasRow, ValuesIn, Sort, Aggregated;
    SortRows(points, kind, bucket, rows);
  }

  method AggregatePoints(points: seq<Point>, kind: Kind, bucket: int) returns (r: Outcome)
    ensures r.Panics? <==> exists k :: 0 <= k < |points| && !Divides(points[k].time, bucket)
    ensures points == [] ==> r == Rows([])
    ensures r.Rows? && points != [] ==> bucket != 0 && Aggregated(points, kind, bucket, r.rows)
  {
    hide *;
    if points == [] {
      return Rows([]);
    }
    var ok, buckets := GroupPoints(points, bucket);
    if !ok {
      return Panics;
    }
    assert Divides(points[0].time, bucket);
    var rows: seq<Row> := [];
    var remaining: set<int> := buckets.Keys;
    assert buckets.Keys - remaining == {};
    NothingCollected(points, kind, bucket);
    while remaining != {}
      invariant remaining <= buckets.Keys && Collected(points, kind, bucket, rows, buckets.Keys - remaining)
      decreases |remaining|
    {
      assert exists key :: key in remaining by { var key := SomeMember(remaining); }
      var start :| start in remaining;
      OneMoreCollected(points, kind, bucket, buckets, rows, buckets.Keys - remaining, start);
      rows := rows + [Row(start, Aggregate(kind, buckets[start]))];
      assert buckets.Keys - (remaining - {start}) == buckets.Keys - remaining + {start};
      remaining := remaining - {start};
    }
    assert buckets.Keys - remaining == buckets.Keys;
    AllCollected(points, kind, bucket, buckets, rows);
    r := Rows(Sort(BY_TIME, rows));
  }

  lemma RowAdded(rows: seq<Row>, row: Row, start: int)
    ensures HasRow(rows + [row], start) <==> HasRow(rows, start) || row.time == start
  {
    var all := rows + [row];
    assert all[|rows|] == row;
    if HasRow(rows, start) {
      var i :| 0 <= i < |rows| && rows[i].time == start;
      assert all[i].time == start;
    }
  }

  lemma SortedRow(rows: seq<Row>, start: int)
    requires HasRow(rows, start)
    ensures HasRow(Sort(BY_TIME, rows), start)
  {
    SortContent(BY_TIME, rows);
    var i :| 0 <= i < |rows| && rows[i].time == start;
    SameContent(Sort(BY_TIME, rows), rows, rows[i]);
  }

  lemma SortedRowIn(rows: seq<Row>, i: nat) returns (k: nat)
    requires i < |Sort(BY_TIME, rows)|
    ensures k < |rows| && rows[k] == Sort(BY_TIME, rows)[i]
  {
    SortContent(BY_TIME, rows);
    SameContent(Sort(BY_TIME, rows), rows, Sort(BY_TIME, rows)[i]);
    k :| 0 <= k < |rows| && rows[k] == Sort(BY_TIME, rows)[i];
  }

  lemma SortedRowsIncrease(rows: seq<Row>, i: nat, j: nat)
    requires forall i, j :: 0 <= i < j < |rows| ==> rows[i].time != rows[j].time
    requires i < j < |Sort(BY_TIME, rows)|
    ensures Sort(BY_TIME, rows)[i].time < Sort(BY_TIME, rows)[j].time
  {
    SortSorted(BY_TIME, rows);
    SortDistinct(BY_TIME, rows);
    var a := SortedRowIn(rows, i);
    var b := SortedRowIn(rows, j);
    assert BY_TIME(rows[a], rows[b]) && rows[a] != rows[b];
  }

  lemma {:induction false} RowIsMultiple(points: seq<Point>, bucket: int, start: int)
    requires bucket != 0 && ValuesIn(points, bucket, start) != []
    ensures start % Magnitude(bucket) == 0
  {
    hide BucketOf;
    var init, last := points[..|points| - 1], points[|points| - 1];
    if BucketOf(last.time, bucket) == start {
      BucketIsMultiple(last.time, bucket);
    } else {
      RowIsMultiple(init, bucket, start);
    }
  }

  lemma SortRows(points: seq<Point>, kind: Kind, bucket: int, rows: seq<Row>)
    requires bucket != 0 && RowsOf(points, kind, bucket, rows)
    requires forall i, j :: 0 <= i < j < |rows| ==> rows[i].time != rows[j].time
    requires forall k :: 0 <= k < |points| ==> HasRow(rows, BucketOf(points[k].time, bucket))
    ensures Aggregated(points, kind, bucket, Sort(BY_TIME, rows))
  {
    hide BucketOf, Aggregate, ValuesIn, HasRow, Sort;
    var sorted := Sort(BY_TIME, rows);
    forall i | 0 <= i < |sorted| ensures sorted[i].time % Magnitude(bucket) == 0 {
      var k := SortedRowIn(rows, i);
      RowIsMultiple(points, bucket, rows[k].time);
    }
    forall i | 0 <= i < |sorted|
      ensures ValuesIn(points, bucket, sorted[i].time) != []
      ensures sorted[i].value == Aggregate(kind, ValuesIn(points, bucket, sorted[i].time))
    {
      var k := SortedRowIn(rows, i);
    }
    forall i, j | 0 <= i < j < |sorted| ensures sorted[i].time < sorted[j].time {
      SortedRowsIncrease(rows, i, j);
    }
    forall k | 0 <= k < |points| ensures HasRow(sorted, BucketOf(points[k].time, bucket)) {
      SortedRow(rows, BucketOf(points[k].time, bucket));
    }
  }

  // ----- conservation

  ghost function RowValues(rows: seq<Row>): seq<real> {
    if rows == [] then [] else RowValues(rows[..|rows| - 1]) + [rows[|rows| - 1].value]
  }

  /** The bucket sums at the times of the rows. */
  ghost function BucketSums(points: seq<Point>, bucket: int, rows: seq<Row>): real
    requires bucket != 0
  {
    if rows == [] then 0.0
    else BucketSums(points, bucket, rows[..|rows| - 1]) + SumOf(ValuesIn(points, bucket, rows[|rows| - 1].time))
  }

  ghost function Total(points: seq<Point>): real {
    if points == [] then 0.0 else Total(points[..|points| - 1]) + points[|points| - 1].value
  }

  lemma SumLast(s: seq<real>, x: real)
    ensures SumOf(s + [x]) == SumOf(s) + x
  {
  }

  lemma LastRowIsNew(init: seq<Row>, last: Row)
    requires forall i :: 0 <= i < |init| ==> init[i].time < last.time
    ensures !HasRow(init, last.time)
  {
  }

  /** A new point adds its value to the sum of its own bucket, once. */
  lemma {:induction false} OnePointMore(points: seq<Point>, bucket: int, p: Point, rows: seq<Row>)
    requires bucket != 0 && forall i, j :: 0 <= i < j < |rows| ==> rows[i].time < rows[j].time
    ensures BucketSums(points + [p], bucket, rows) == BucketSums(points, bucket, rows)
      + if HasRow(rows, BucketOf(p.time, bucket)) then p.value else 0.0
  {
    if rows != [] {
      var init, last := rows[..|rows| - 1], rows[|rows| - 1];
      assert rows == init + [last];
      OnePointMore(points, bucket, p, init);
      RowAdded(init, last, BucketOf(p.time, bucket));
      ValuesLast(points, bucket, p, last.time);
      SumLast(ValuesIn(points, bucket, last.time), p.value);
      LastRowIsNew(init, last);
    }
  }

  lemma {:induction false} SumsOfNothing(bucket: int, rows: seq<Row>)
    requires bucket != 0
    ensures BucketSums([], bucket, rows) == 0.0
  {
    if rows != [] {
      SumsOfNothing(bucket, rows[..|rows| - 1]);
    }
  }

  lemma {:induction false} SumsAreTotal(points: seq<Point>, bucket: int, rows: seq<Row>)
    requires bucket != 0 && forall i, j :: 0 <= i < j < |rows| ==> rows[i].time < rows[j].time
    requires forall k :: 0 <= k < |points| ==> HasRow(rows, BucketOf(points[k].time, bucket))
    ensures BucketSums(points, bucket, rows) == Total(points)
  {
    if points == [] {
      SumsOfNothing(bucket, rows);
    } else {
      var init, p := points[..|points| - 1], points[|points| - 1];
      assert points == init + [p];
      SumsAreTotal(init, bucket, rows);
      OnePointMore(init, bucket, p, rows);
    }
  }

  lemma {:induction false} RowValuesAreSums(points: seq<Point>, bucket: int, rows: seq<Row>)
    requires bucket != 0 && RowsOf(points, Sum, bucket, rows)
    ensures SumOf(RowValues(rows)) == BucketSums(points, bucket, rows)
  {
    if rows != [] {
      var init, last := rows[..|rows| - 1], rows[|rows| - 1];
      assert forall i :: 0 <= i < |init| ==> init[i] == rows[i];
      RowValuesAreSums(points, bucket, init);
      SumLast(RowValues(init), last.value);
    }
  }

  /** No value is lost or counted twice: the sums of all buckets add up to the sum of all points. */
  lemma SumConserved(points: seq<Point>, bucket: int, rows: seq<Row>)
    requires bucket != 0 && Aggregated(points, Sum, bucket, rows)
    ensures SumOf(RowValues(rows)) == Total(points)
  {
    hide BucketOf, ValuesIn;
    RowValuesAreSums(points, bucket, rows);
    SumsAreTotal(points, bucket, rows);
  }

  /** The points with their values replaced by 1. */
  ghost function Ones(points: seq<Point>): seq<Point> {
    if points == [] then [] else Ones(points[..|points| - 1]) + [points[|points| - 1].(value := 1.0)]
  }

  lemma {:induction false} OnesSame(points: seq<Point>, bucket: int, start: int)
    requires bucket != 0
    ensures |Ones(points)| == |points| && Total(Ones(points)) == |points| as real
    ensures forall k :: 0 <= k < |points| ==> Ones(points)[k].time == points[k].time
    ensures |ValuesIn(Ones(points), bucket, start)| == |ValuesIn(points, bucket, start)|
    ensures SumOf(ValuesIn(Ones(points), bucket, start)) == |ValuesIn(points, bucket, start)| as real
  {
    if points != [] {
      var init, p := points[..|points| - 1], points[|points| - 1];
      OnesSame(init, bucket, start);
      assert points == init + [p];
      var one := p.(value := 1.0);
      assert Ones(points)[..|init|] == Ones(init);
      ValuesLast(init, bucket, p, start);
      ValuesLast(Ones(init), bucket, one, start);
      SumLast(ValuesIn(Ones(init), bucket, start), 1.0);
    }
  }

  lemma {:induction false} RowValuesAreCounts(points: seq<Point>, bucket: int, rows: seq<Row>)
    requires bucket != 0 && RowsOf(points, Count, bucket, rows)
    ensures SumOf(RowValues(rows)) == BucketSums(Ones(points), bucket, rows)
  {
    if rows != [] {
      var init, last := rows[..|rows| - 1], rows[|rows| - 1];
      assert forall i :: 0 <= i < |init| ==> init[i] == rows[i];
      RowValuesAreCounts(points, bucket, init);
      OnesSame(points, bucket, last.time);
      SumLast(RowValues(init), last.value);
    }
  }

  /** Each point is counted in exactly one bucket: the counts add up to the number of points. */
  lemma CountConserved(points: seq<Point>, bucket: int, rows: seq<Row>)
    requires bucket != 0 && Aggregated(points, Count, bucket, rows)
    ensures SumOf(RowValues(rows)) == |points| as real
  {
    hide BucketOf, ValuesIn;
    RowValuesAreCounts(points, bucket, rows);
    OnesSame(points, bucket, 0);
    SumsAreTotal(Ones(points), bucket, rows);
  }

  /** First and Last are the values of the earliest and the latest point of the bucket in input order. */
  lemma {:induction false} FirstAndLast(points: seq<Point>, bucket: int, start: int) returns (i: nat, j: nat)
    requires bucket != 0 && ValuesIn(points, bucket, start) != []
    ensures i <= j < |points|
    ensures BucketOf(points[i].time, bucket) == BucketOf(points[j].time, bucket) == start
    ensures Aggregate(First, ValuesIn(points, bucket, start)) == points[i].value
    ensures Aggregate(Last, ValuesIn(points, bucket, start)) == points[j].value
    ensures forall k :: 0 <= k < |points| && BucketOf(points[k].time, bucket) == start ==> i <= k <= j
  {
    var init, p := points[..|points| - 1], points[|points| - 1];
    assert points == init + [p];
    ValuesLast(init, bucket, p, start);
    if ValuesIn(init, bucket, start) != [] {
      i, j := FirstAndLast(init, bucket, start);
    } else {
      i := |init|;
      forall k | 0 <= k < |init| ensures BucketOf(points[k].time, bucket) != start {
        NoValues(init, bucket, start, k);
      }
    }
    if BucketOf(p.time, bucket) == start {
      j := |init|;
    }
  }

  lemma {:induction false} NoValues(points: seq<Point>, bucket: int, start: int, k: nat)
    requires bucket != 0 && ValuesIn(points, bucket, start) == [] && k < |points|
    ensures BucketOf(points[k].time, bucket) != start
  {
    if k < |points| - 1 {
      NoValues(points[..|points| - 1], bucket, start, k);
    }
  }
}
