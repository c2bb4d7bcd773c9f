/**
 LatencyHistogram: latencies counted in buckets between increasing bounds, merged over workers, read
 back as percentiles. Everything is proved for any increasing table of bounds; BOUNDS is the one the
 benchmark uses. Doubles are modelled as reals, the 64-bit counters as naturals.
 */
module Histogram {

  type BoundTable = t: seq<nat> | t != [] && t[0] > 0 && forall i, j :: 0 <= i < j < |t| ==> t[i] < t[j] witness [1]

  const BOUNDS: seq<nat> := [
    1, 2, 3, 5, 7, 10, 15, 22, 33, 50, 75, 112, 168, 252, 378, 567, 850, 1275, 1912, 2868, 4302, 6453,
    9679, 14519, 21778, 32667, 49000, 73500, 110250, 165375, 248062, 372093, 558139, 837208, 1255812,
    1883718, 2000000]

  lemma BoundsStep(i: nat)
    requires i + 1 < |BOUNDS|
    ensures BOUNDS[i] < BOUNDS[i + 1]
  {
  }

  lemma {:induction false} BoundsIncrease(i: nat, j: nat)
    requires i < j < |BOUNDS|
    ensures BOUNDS[i] < BOUNDS[j]
    decreases j
  {
    BoundsStep(j - 1);
    if i < j - 1 { BoundsIncrease(i, j - 1); }
  }

  /** The benchmark's bounds are a bound table. */
  function LatencyBounds(): (t: BoundTable)
    ensures t == BOUNDS
  {
    assert forall i, j :: 0 <= i < j < |BOUNDS| ==> BOUNDS[i] < BOUNDS[j] by {
      forall i, j | 0 <= i < j < |BOUNDS|
        ensures BOUNDS[i] < BOUNDS[j]
      {
        BoundsIncrease(i, j);
      }
    }
    BOUNDS
  }

  // ---------- Buckets ----------

  function BucketFrom(t: BoundTable, x: nat, i: nat): (b: nat)
    requires i <= |t|
    requires forall j :: 0 <= j < i ==> t[j] < x
    ensures i <= b <= |t|
    ensures forall j :: 0 <= j < b ==> t[j] < x
    ensures b < |t| ==> x <= t[b]
    decreases |t| - i
  {
    if i == |t| || x <= t[i] then i else BucketFrom(t, x, i + 1)
  }

  /** The first bucket whose bound is not below the latency; the last bucket has no bound. */
  function Bucket(t: BoundTable, x: nat): (b: nat)
    ensures b <= |t|
    ensures forall j :: 0 <= j < b ==> t[j] < x
    ensures b < |t| ==> x <= t[b]
  {
    BucketFrom(t, x, 0)
  }

  /** A higher latency is in the same bucket or a later one. */
  lemma BucketMonotone(t: BoundTable, x: nat, y: nat)
    requires x <= y
    ensures Bucket(t, x) <= Bucket(t, y)
  {
  }

  /** `latency_us_to_bucket`, with `std::lower_bound` as the binary search it is. */
  method LatencyUsToBucket(t: BoundTable, x: nat) returns (b: nat)
    ensures b == Bucket(t, x)
  {
    var lo, hi := 0, |t|;
    while lo < hi
      invariant 0 <= lo <= hi <= |t|
      invariant lo > 0 ==> t[lo - 1] < x
      invariant hi < |t| ==> x <= t[hi]
    {
      var mid := (lo + hi) / 2;
      if t[mid] < x {
        lo := mid + 1;
      } else {
        hi := mid;
      }
    }
    b := lo;
  }

  // ---------- Histograms as values ----------

  datatype Hist = Hist(buckets: seq<nat>, sum: nat, count: nat) {
    predicate Over(t: BoundTable) {
      |buckets| == |t| + 1
    }
  }

  function Empty(t: BoundTable): (h: Hist)
    ensures h.Over(t)
  {
    Hist(seq(|t| + 1, i => 0), 0, 0)
  }

  function Record(t: BoundTable, h: Hist, x: nat): (h': Hist)
    requires h.Over(t)
    ensures h'.Over(t)
  {
    var b := Bucket(t, x);
    Hist(h.buckets[b := h.buckets[b] + 1], h.sum + x, h.count + 1)
  }

  function RecordAll(t: BoundTable, samples: seq<nat>): (h: Hist)
    ensures h.Over(t)
  {
    if samples == [] then Empty(t)
    else Record(t, RecordAll(t, samples[..|samples| - 1]), samples[|samples| - 1])
  }

  function Merge(h: Hist, other: Hist): (h': Hist)
    requires |h.buckets| == |other.buckets|
    ensures |h'.buckets| == |h.buckets|
  {
    Hist(seq(|h.buckets|, i requires 0 <= i < |h.buckets| => h.buckets[i] + other.buckets[i]),
         h.sum + other.sum, h.count + other.count)
  }

  // ---------- Percentiles ----------

  function Ceil(x: real): (c: int)
    ensures c as real - 1.0 < x <= c as real
  {
    -((-x).Floor)
  }

  /** The rank that a percentile asks for: the least integer not below `pct` percent of `n`. */
  function Target(n: nat, pct: real): (k: int)
    ensures k as real - 1.0 < pct / 100.0 * (n as real) <= k as real
  {
    Ceil(pct / 100.0 * (n as real))
  }

  function Lower(t: BoundTable, i: nat): nat
    requires i <= |t|
  {
    if i == 0 then 0 else t[i - 1]
  }

  function Upper(t: BoundTable, i: nat): nat
    requires i <= |t|
  {
    if i < |t| then t[i] else t[|t| - 1]
  }

  /** The number of samples in the first `i` buckets. */
  function Prefix(buckets: seq<nat>, i: nat): nat
    requires i <= |buckets|
  {
    if i == 0 then 0 else Prefix(buckets, i - 1) + buckets[i - 1]
  }

  /** Where the loop of `percentile_us` stops: the target is the `place`-th of the `size` samples of a
      bucket, or the running count never reaches it. */
  datatype Spot = Inside(bucket: nat, size: nat, place: int) | Beyond

  /** The value reported for a spot. */
  function Report(t: BoundTable, s: Spot): real
    requires s.Inside? ==> s.bucket <= |t|
  {
    match s
    case Inside(i, size, place) =>
      var frac := if size > 0 then place as real / size as real else 0.5;
      Lower(t, i) as real + frac * (Upper(t, i) as real - Lower(t, i) as real)
    case Beyond => t[|t| - 1] as real
  }

  /** The first bucket at which the running count reaches the target, or the number of buckets. */
  function Reach(buckets: seq<nat>, target: int, i: nat): (r: nat)
    requires i <= |buckets|
    ensures i <= r <= |buckets|
    ensures forall j :: i < j <= r ==> Prefix(buckets, j) < target
    ensures r < |buckets| ==> Prefix(buckets, r + 1) >= target
    decreases |buckets| - i
  {
    if i == |buckets| || Prefix(buckets, i + 1) >= target then i else Reach(buckets, target, i + 1)
  }

  function Locate(buckets: seq<nat>, target: int): (s: Spot)
    ensures s.Inside? ==> s.bucket < |buckets|
  {
    var i := Reach(buckets, target, 0);
    if i < |buckets| then Inside(i, buckets[i], target - Prefix(buckets, i)) else Beyond
  }

  function Percentile(t: BoundTable, h: Hist, pct: real): real
    requires h.Over(t)
  {
    if h.count == 0 then 0.0 else Report(t, Locate(h.buckets, Target(h.count, pct)))
  }

  // ---------- The class ----------

  class LatencyHistogram {
    const bounds: BoundTable
    const buckets: array<nat>
    var sumUs: nat
    var count: nat

    ghost predicate Valid()
      reads this, buckets
    {
      buckets.Length == |bounds| + 1
    }

    ghost function View(): (h: Hist)
      reads this, buckets
      requires Valid()
      ensures h.Over(bounds)
    {
      Hist(buckets[..], sumUs, count)
    }

    constructor ()
      ensures Valid() && bounds == BOUNDS && fresh(buckets) && View() == Empty(bounds)
    {
      bounds := LatencyBounds();
      buckets := new nat[|LatencyBounds()| + 1](i => 0);
      sumUs, count := 0, 0;
      new;
      assert buckets[..] == Empty(bounds).buckets;
    }

    method RecordLatency(x: nat)
      requires Valid()
      modifies this, buckets
      ensures Valid() && View() == Record(bounds, old(View()), x)
    {
      var b := LatencyUsToBucket(bounds, x);
      buckets[b] := buckets[b] + 1;
      sumUs := sumUs + x;
      count := count + 1;
    }

    method MergeFrom(other: LatencyHistogram)
      requires Valid() && other.Valid() && other.bounds == bounds && other != this && other.buckets != buckets
      modifies this, buckets
      ensures Valid() && View() == Merge(old(View()), old(other.View()))
      ensures other.View() == old(other.View())
    {
      for i := 0 to buckets.Length
        invariant forall j :: 0 <= j < buckets.Length ==>
                    buckets[j] == old(buckets[j]) + if j < i then old(other.buckets[j]) else 0
        invariant sumUs == old(sumUs) && count == old(count)
      {
        buckets[i] := buckets[i] + other.buckets[i];
      }
      sumUs := sumUs + other.sumUs;
      count := count + other.count;
      assert buckets[..] == Merge(old(View()), old(other.View())).buckets;
    }

    /** `avg_us`: the mean of the recorded latencies, zero when there are none. */
    method AverageUs() returns (r: real)
      requires Valid()
      ensures r * View().count as real == if View().count == 0 then 0.0 else View().sum as real
      ensures View().count == 0 ==> r == 0.0
    {
      if count == 0 { return 0.0; }
      r := sumUs as real / count as real;
    }

    /** The point of bucket `i` that stands for the target rank. */
    method Interpolate(i: nat, bucketCount: nat, target: int, prev: int) returns (r: real)
      requires i <= |bounds|
      ensures r == Report(bounds, Inside(i, bucketCount, target - prev))
    {
      var lower := if i == 0 then 0.0 else bounds[i - 1] as real;
      var upper := if i < |bounds| then bounds[i] as real else bounds[|bounds| - 1] as real;
      var frac := if bucketCount > 0 then (target - prev) as real / bucketCount as real else 0.5;
      r := lower + frac * (upper - lower);
    }

    /** The loop of `percentile_us`. */
    method ReachTarget(target: int) returns (r: real)
      requires Valid()
      ensures r == Report(bounds, Locate(buckets[..], target))
    {
      var cumulative := 0;
      ghost var bs := buckets[..];
      for i := 0 to buckets.Length
        invariant cumulative == Prefix(bs, i)
        invariant Reach(bs, target, 0) == Reach(bs, target, i)
      {
        var bucketCount := buckets[i];
        cumulative := cumulative + bucketCount;
        assert cumulative == Prefix(bs, i + 1);
        if cumulative >= target {
          r := Interpolate(i, bucketCount, target, cumulative - bucketCount);
          assert Locate(bs, target) == Inside(i, bucketCount, target - (cumulative - bucketCount));
          return;
        }
      }
      assert Locate(bs, target) == Beyond;
      return bounds[|bounds| - 1] as real;
    }

    method PercentileUs(pct: real) returns (r: real)
      requires Valid()
      ensures r == Percentile(bounds, View(), pct)
    {
      if count == 0 { return 0.0; }
      r := ReachTarget(Target(count, pct));
    }
  }
}
