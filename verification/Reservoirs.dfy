/** The fixed-capacity reservoir of recent observations and its interpolated quantiles. */
module Reservoirs {
  import opened Sorting

  const RESERVOIR_CAPACITY: nat := 256

  // ----- The ring -----------------------------------------------------------------------

  /** The last 256 observations, oldest first. */
  function Recent(history: seq<real>): seq<real> {
    if |history| <= 256 then history else history[|history| - 256..]
  }

  /** A ring read from its oldest element. */
  function Unrolled(ring: seq<real>, pos: nat): seq<real>
    requires pos <= |ring|
  {
    ring[pos..] + ring[..pos]
  }

  lemma {:induction false} UnrolledPermutes(ring: seq<real>, pos: nat)
    requires pos <= |ring|
    ensures multiset(Unrolled(ring, pos)) == multiset(ring)
  {
    assert ring == ring[..pos] + ring[pos..];
  }

  lemma {:induction false} PushRecent(history: seq<real>, value: real)
    ensures Recent(history + [value])
            == if |history| < RESERVOIR_CAPACITY then Recent(history) + [value] else Recent(history)[1..] + [value]
  {
  }

  /** Overwriting the oldest element and moving on drops it and appends the new one. */
  lemma {:induction false} Overwrite(ring: seq<real>, pos: nat, value: real, next: nat)
    requires pos < |ring| && next == if pos + 1 == |ring| then 0 else pos + 1
    ensures Unrolled(ring[pos := value], next) == Unrolled(ring, pos)[1..] + [value]
  {
    var updated := ring[pos := value];
    assert updated[..pos + 1] == ring[..pos] + [value];
    assert updated[pos + 1..] == ring[pos + 1..];
    assert Unrolled(ring, pos)[1..] == ring[pos + 1..] + ring[..pos];
    assert updated[next..] + updated[..next] == ring[pos + 1..] + ring[..pos] + [value];
  }

  datatype ReservoirSnapshot = ReservoirSnapshot(
    count: nat, min: real, max: real, mean: real, sum: real,
    median: real, p75: real, p95: real, p98: real, p99: real, p999: real)

  const ZERO := ReservoirSnapshot(0, 0.0, 0.0, 0.0, 0.0, 0.0, 0.0, 0.0, 0.0, 0.0, 0.0)

  class ReservoirInner {
    var ring: seq<real>
    var pos: nat
    var count: nat
    /** Every observation ever recorded. */
    ghost var history: seq<real>

    /** The ring, read from `pos`, is exactly the recent history; `pos` is the oldest element
        once the ring is full, and stays 0 before. */
    ghost predicate Valid()
      reads this
    {
      && count == |history|
      && |ring| <= RESERVOIR_CAPACITY
      && (if |ring| < RESERVOIR_CAPACITY then pos == 0 else pos < RESERVOIR_CAPACITY)
      && Unrolled(ring, pos) == Recent(history)
    }

    constructor ()
      ensures Valid() && history == []
    {
      ring, pos, count := [], 0, 0;
      history := [];
    }

    method Update(value: real)
      requires Valid()
      modifies this
      ensures Valid() && history == old(history) + [value]
    {
      PushRecent(history, value);
      if |ring| < RESERVOIR_CAPACITY {
        ring := ring + [value];
      } else {
        var next := (pos + 1) % RESERVOIR_CAPACITY;
        Overwrite(ring, pos, value, next);
        ring := ring[pos := value];
        pos := next;
      }
      count := count + 1;
      history := history + [value];
    }

    /** The snapshot depends only on how many observations there were and on the recent ones,
        whatever their order. */
    method TakeSnapshot() returns (s: ReservoirSnapshot)
      requires Valid()
      ensures s == SnapshotOf(|history|, Recent(history))
    {
      UnrolledPermutes(ring, pos);
      SnapshotOfPermutation(|history|, ring, Recent(history));
      if ring == [] {
        return ZERO;
      }
      var n := |ring|;
      var sorted := SortBy(ring, Le);
      SortPermutes(ring, Le);
      assert |sorted| == |multiset(sorted)| == n;
      var sum := Sum(sorted);
      s := ReservoirSnapshot(
        count, sorted[0], sorted[n - 1], sum / n as real, sum,
        R7Quantile(sorted, 0.5), R7Quantile(sorted, 0.75), R7Quantile(sorted, 0.95),
        R7Quantile(sorted, 0.98), R7Quantile(sorted, 0.99), R7Quantile(sorted, 0.999));
    }
  }

  // ----- Quantiles ----------------------------------------------------------------------

  predicate Le(a: real, b: real) {
    a <= b
  }

  lemma {:induction false} LeIsTotalOrder()
    ensures TotalOrder(Le)
  {
  }

  function Sum(s: seq<real>): real {
    if s == [] then 0.0 else s[0] + Sum(s[1..])
  }

  function R7Quantile(values: seq<real>, quantile: real): real
    requires 0.0 <= quantile <= 1.0
  {
    if values == [] then 0.0
    else AtIndex(values, IdealIndex(quantile, |values| - 1))
  }

  /** The fractional index a quantile stands for. */
  function IdealIndex(quantile: real, maxIdx: nat): (x: real)
    requires 0.0 <= quantile <= 1.0
    ensures 0.0 <= x <= maxIdx as real
  {
    IdealInRange(quantile, maxIdx as real);
    Times(quantile, maxIdx as real)
  }

  function Times(a: real, b: real): real {
    a * b
  }

  /** Linear interpolation between the two samples around a fractional index. */
  function AtIndex(values: seq<real>, idealIndex: real): real
    requires values != [] && 0.0 <= idealIndex <= (|values| - 1) as real
  {
    var lo := idealIndex.Floor;
    if lo + 1 > |values| - 1 then values[|values| - 1]
    else Lerp(values[lo], values[lo + 1], idealIndex - lo as real)
  }

  function Lerp(lower: real, upper: real, part: real): real {
    lower + part * (upper - lower)
  }

  lemma {:induction false} Product(a: real, b: real)
    requires 0.0 <= a && 0.0 <= b
    ensures 0.0 <= a * b
  {
  }

  lemma {:induction false} IdealInRange(quantile: real, maxIdx: real)
    requires 0.0 <= quantile <= 1.0 && 0.0 <= maxIdx
    ensures 0.0 <= Times(quantile, maxIdx) <= maxIdx
  {
    Product(quantile, maxIdx);
    Product(1.0 - quantile, maxIdx);
    assert (1.0 - quantile) * maxIdx == maxIdx - quantile * maxIdx;
  }

  function SnapshotOf(count: nat, observations: seq<real>): ReservoirSnapshot {
    if observations == [] then ZERO
    else
      var sorted := SortBy(observations, Le);
      SortPermutes(observations, Le);
      assert |sorted| == |multiset(sorted)| == |multiset(observations)| == |observations|;
      var n := |sorted|;
      ReservoirSnapshot(
        count, sorted[0], sorted[n - 1], Sum(sorted) / n as real, Sum(sorted),
        R7Quantile(sorted, 0.5), R7Quantile(sorted, 0.75), R7Quantile(sorted, 0.95),
        R7Quantile(sorted, 0.98), R7Quantile(sorted, 0.99), R7Quantile(sorted, 0.999))
  }

  lemma {:induction false} SortedPermutation(a: seq<real>, b: seq<real>)
    requires multiset(a) == multiset(b)
    ensures SortBy(a, Le) == SortBy(b, Le)
  {
    LeIsTotalOrder();
    SortPermutes(a, Le);
    SortPermutes(b, Le);
    SortSorts(a, Le);
    SortSorts(b, Le);
    SortedIsUnique(SortBy(a, Le), SortBy(b, Le), Le);
  }

  /** The statistics depend only on the multiset of stored values. */
  lemma {:induction false} SnapshotOfPermutation(count: nat, a: seq<real>, b: seq<real>)
    requires multiset(a) == multiset(b)
    ensures SnapshotOf(count, a) == SnapshotOf(count, b)
  {
    assert |a| == |multiset(a)| == |multiset(b)| == |b|;
    SortedPermutation(a, b);
  }

  lemma {:induction false} LerpInRange(lower: real, upper: real, part: real)
    requires lower <= upper && 0.0 <= part <= 1.0
    ensures lower <= Lerp(lower, upper, part) <= upper
  {
    Product(part, upper - lower);
    Product(1.0 - part, upper - lower);
  }

  lemma {:induction false} LerpMonotone(lower: real, upper: real, p: real, q: real)
    requires lower <= upper && p <= q
    ensures Lerp(lower, upper, p) <= Lerp(lower, upper, q)
  {
    Product(q - p, upper - lower);
  }

  lemma {:induction false} Ends(values: seq<real>, i: nat, j: nat)
    requires Sorted(values, Le) && i <= j < |values|
    ensures values[i] <= values[j]
  {
    assert i < j ==> Le(values[i], values[j]);
  }

  /** A value lies between the samples around its index. */
  lemma {:induction false} Bracket(values: seq<real>, x: real)
    requires Sorted(values, Le) && values != [] && 0.0 <= x <= (|values| - 1) as real
    ensures values[x.Floor] <= AtIndex(values, x)
    ensures AtIndex(values, x) <= values[if x.Floor + 1 < |values| then x.Floor + 1 else x.Floor]
  {
    var lo := x.Floor;
    if lo + 1 < |values| {
      Ends(values, lo, lo + 1);
      LerpInRange(values[lo], values[lo + 1], x - lo as real);
    }
  }

  lemma {:induction false} BetweenSameSamples(values: seq<real>, i: nat, x: real, y: real)
    requires Sorted(values, Le) && i < |values| && 0.0 <= x <= y <= (|values| - 1) as real && x.Floor == y.Floor == i
    ensures AtIndex(values, x) <= AtIndex(values, y)
  {
    if i + 1 < |values| {
      Ends(values, i, i + 1);
      LerpMonotone(values[i], values[i + 1], x - i as real, y - i as real);
    }
  }

  lemma {:induction false} AtIndexMonotone(values: seq<real>, x: real, y: real)
    requires Sorted(values, Le) && values != [] && 0.0 <= x <= y <= (|values| - 1) as real
    ensures AtIndex(values, x) <= AtIndex(values, y)
  {
    var i, j := x.Floor, y.Floor;
    if i < j {
      Bracket(values, x);
      Bracket(values, y);
      Ends(values, i + 1, j);
    } else {
      BetweenSameSamples(values, i, x, y);
    }
  }

  lemma {:induction false} IdealMonotone(p: real, q: real, maxIdx: nat)
    requires 0.0 <= p <= q <= 1.0
    ensures IdealIndex(p, maxIdx) <= IdealIndex(q, maxIdx)
  {
    ScaleOrder(p, q, maxIdx as real);
  }

  lemma {:induction false} ScaleOrder(p: real, q: real, n: real)
    requires p <= q && 0.0 <= n
    ensures Times(p, n) <= Times(q, n)
  {
    Product(q - p, n);
    assert (q - p) * n == q * n - p * n;
  }

  lemma {:induction false} IdealAtSample(i: nat, maxIdx: nat)
    requires i <= maxIdx && 0 < maxIdx
    ensures 0.0 <= i as real / maxIdx as real <= 1.0
    ensures IdealIndex(i as real / maxIdx as real, maxIdx) == i as real
  {
    Divide(i as real, maxIdx as real);
  }

  lemma {:induction false} Divide(i: real, n: real)
    requires 0.0 <= i <= n && 0.0 < n
    ensures 0.0 <= i / n <= 1.0 && Times(i / n, n) == i
  {
  }

  /** Every quantile lies between the smallest and the largest value. */
  lemma {:induction false} QuantileInRange(values: seq<real>, q: real)
    requires values != [] && Sorted(values, Le) && 0.0 <= q <= 1.0
    ensures values[0] <= R7Quantile(values, q) <= values[|values| - 1]
  {
    var x := IdealIndex(q, |values| - 1);
    Bracket(values, x);
    var lo := x.Floor;
    Ends(values, 0, lo);
    Ends(values, if lo + 1 < |values| then lo + 1 else lo, |values| - 1);
  }

  /** A larger quantile never gives a smaller value. */
  lemma {:induction false} QuantileMonotone(values: seq<real>, p: real, q: real)
    requires Sorted(values, Le) && 0.0 <= p <= q <= 1.0
    ensures R7Quantile(values, p) <= R7Quantile(values, q)
  {
    if values != [] {
      var maxIdx := |values| - 1;
      IdealMonotone(p, q, maxIdx);
      AtIndexMonotone(values, IdealIndex(p, maxIdx), IdealIndex(q, maxIdx));
    }
  }

  /** Quantile i/(n-1) is element i. */
  lemma {:induction false} QuantileAtSample(values: seq<real>, i: nat)
    requires i < |values| && 1 < |values|
    ensures 0.0 <= i as real / (|values| - 1) as real <= 1.0
    ensures R7Quantile(values, i as real / (|values| - 1) as real) == values[i]
  {
    IdealAtSample(i, |values| - 1);
    SampleAtIndex(values, i, i as real);
  }

  lemma {:induction false} SampleAtIndex(values: seq<real>, i: nat, x: real)
    requires i < |values| && x == i as real
    ensures AtIndex(values, x) == values[i]
  {
    assert x.Floor == i;
    assert i + 1 < |values| ==> Lerp(values[i], values[i + 1], 0.0) == values[i];
  }

  /** Between two neighbouring samples the quantile moves linearly: `part` of the way from one quantile to
      the next it has covered that part of the distance between the samples. */
  lemma {:induction false} QuantileInterpolates(values: seq<real>, i: nat, part: real)
    requires i + 1 < |values| && 0.0 <= part <= 1.0
    ensures 0.0 <= (i as real + part) / (|values| - 1) as real <= 1.0
    ensures R7Quantile(values, (i as real + part) / (|values| - 1) as real)
            == values[i] + part * (values[i + 1] - values[i])
  {
    Divide(i as real + part, (|values| - 1) as real);
    if part < 1.0 {
      BetweenSamples(values, i, part, i as real + part);
    } else {
      SampleAtIndex(values, i + 1, i as real + part);
      assert part * (values[i + 1] - values[i]) == values[i + 1] - values[i];
    }
  }

  lemma {:induction false} BetweenSamples(values: seq<real>, i: nat, part: real, x: real)
    requires i + 1 < |values| && 0.0 <= part < 1.0 && x == i as real + part
    ensures AtIndex(values, x) == values[i] + part * (values[i + 1] - values[i])
  {
    assert x.Floor == i;
  }

  // ----- What a summary says ------------------------------------------------------------

  lemma {:induction false} SumAdds(a: seq<real>, b: seq<real>, x: real)
    ensures Sum(a + b) == Sum(a) + Sum(b) && Sum([x]) == x && Sum([]) == 0.0
  {
    if a == [] {
      assert a + b == b;
    } else {
      SumAdds(a[1..], b, x);
      assert (a + b)[1..] == a[1..] + b;
    }
    assert Sum([x]) == x + Sum([x][1..]);
  }

  lemma {:induction false} InOrder(observations: seq<real>, v: seq<real>)
    requires Sorted(v, Le) && multiset(v) == multiset(observations)
    ensures SortBy(observations, Le) == v && |v| == |observations|
  {
    assert |v| == |multiset(v)| == |multiset(observations)| == |observations|;
    LeIsTotalOrder();
    SortPermutes(observations, Le);
    SortSorts(observations, Le);
    SortedIsUnique(SortBy(observations, Le), v, Le);
  }

  predicate Percentiles(s: ReservoirSnapshot, v: seq<real>) {
    s.median == R7Quantile(v, 0.5) && s.p75 == R7Quantile(v, 0.75) && s.p95 == R7Quantile(v, 0.95)
    && s.p98 == R7Quantile(v, 0.98) && s.p99 == R7Quantile(v, 0.99) && s.p999 == R7Quantile(v, 0.999)
  }

  /** Every field of the summary of some observations in terms of the same observations in ascending order:
      its ends, its sum and mean, and the quantile each percentile is named after. Nothing observed gives
      all zeros. */
  lemma {:induction false} SummaryMeans(count: nat, observations: seq<real>, v: seq<real>)
    requires Sorted(v, Le) && multiset(v) == multiset(observations)
    ensures var s := SnapshotOf(count, observations);
            if v == [] then
              s.count == 0 && s.min == s.max == s.mean == s.sum == s.median == 0.0
              && s.p75 == s.p95 == s.p98 == s.p99 == s.p999 == 0.0
            else
              s.count == count && s.min == v[0] && s.max == v[|v| - 1]
              && s.sum == Sum(v) && s.mean == s.sum / |v| as real && Percentiles(s, v)
  {
    InOrder(observations, v);
  }

  /** No observation lies outside the ends of the summary. */
  lemma {:induction false} SummaryBounds(count: nat, observations: seq<real>, x: real)
    requires x in observations
    ensures SnapshotOf(count, observations).min <= x <= SnapshotOf(count, observations).max
  {
    var v := SortBy(observations, Le);
    LeIsTotalOrder();
    SortPermutes(observations, Le);
    SortSorts(observations, Le);
    assert x in multiset(v);
    var i :| 0 <= i < |v| && v[i] == x;
    Ends(v, 0, i);
    Ends(v, i, |v| - 1);
  }
}
