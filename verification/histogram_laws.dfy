/**
 What a histogram says about the latencies it was given: percentiles are rank statistics, and the way
 the latencies were split over workers leaves no trace.
 */
module HistogramLaws {
  import opened Histogram

  // ---------- What the buckets say about the samples ----------

  /** How many samples satisfy `f`. */
  function Count(samples: seq<nat>, f: nat -> bool): (n: nat)
    ensures n <= |samples|
  {
    if samples == [] then 0
    else Count(samples[..|samples| - 1], f) + if f(samples[|samples| - 1]) then 1 else 0
  }

  function InBucket(t: BoundTable, i: nat): nat -> bool {
    (x: nat) => Bucket(t, x) == i
  }

  function BelowBucket(t: BoundTable, i: nat): nat -> bool {
    (x: nat) => Bucket(t, x) < i
  }

  function AtMost(v: int): nat -> bool {
    (x: nat) => x <= v
  }

  lemma {:induction false} CountMonotone(samples: seq<nat>, f: nat -> bool, g: nat -> bool)
    requires forall x :: f(x) ==> g(x)
    ensures Count(samples, f) <= Count(samples, g)
  {
    if samples != [] { CountMonotone(samples[..|samples| - 1], f, g); }
  }

  lemma {:induction false} CountNone(samples: seq<nat>, f: nat -> bool)
    requires forall x :: !f(x)
    ensures Count(samples, f) == 0
  {
    if samples != [] { CountNone(samples[..|samples| - 1], f); }
  }

  /** A bucket counts the samples that belong to it; the counter counts them all. */
  lemma {:induction false} BucketsCount(t: BoundTable, samples: seq<nat>, i: nat)
    requires i <= |t|
    ensures RecordAll(t, samples).buckets[i] == Count(samples, InBucket(t, i))
    ensures RecordAll(t, samples).count == |samples|
  {
    if samples != [] { BucketsCount(t, samples[..|samples| - 1], i); }
  }

  /** The sum of a sequence of numbers. */
  function Total(samples: seq<nat>): nat {
    if samples == [] then 0 else Total(samples[..|samples| - 1]) + samples[|samples| - 1]
  }

  /** The sum kept is that of the samples. */
  lemma {:induction false} SumIsTotal(t: BoundTable, samples: seq<nat>)
    ensures RecordAll(t, samples).sum == Total(samples)
  {
    if samples != [] { SumIsTotal(t, samples[..|samples| - 1]); }
  }

  lemma {:induction false} CountSplit(t: BoundTable, samples: seq<nat>, i: nat)
    ensures Count(samples, BelowBucket(t, i + 1))
         == Count(samples, BelowBucket(t, i)) + Count(samples, InBucket(t, i))
  {
    if samples != [] { CountSplit(t, samples[..|samples| - 1], i); }
  }

  lemma {:induction false} PrefixCounts(t: BoundTable, samples: seq<nat>, i: nat)
    requires i <= |t| + 1
    ensures Prefix(RecordAll(t, samples).buckets, i) == Count(samples, BelowBucket(t, i))
  {
    if i == 0 {
      CountNone(samples, BelowBucket(t, 0));
    } else {
      PrefixCounts(t, samples, i - 1);
      BucketsCount(t, samples, i - 1);
      CountSplit(t, samples, i - 1);
    }
  }

  // ---------- Rank statistics ----------

  function Max(samples: seq<nat>): (m: nat)
    ensures forall x :: x in samples ==> x <= m
  {
    if samples == [] then 0
    else
      var m, last := Max(samples[..|samples| - 1]), samples[|samples| - 1];
      assert samples == samples[..|samples| - 1] + [last];
      if last > m then last else m
  }

  lemma {:induction false} CountAll(samples: seq<nat>, v: nat)
    requires forall x :: x in samples ==> x <= v
    ensures Count(samples, AtMost(v)) == |samples|
  {
    if samples != [] {
      var n := |samples| - 1;
      assert samples[n] in samples;
      assert forall x :: x in samples[..n] ==> x in samples;
      CountAll(samples[..n], v);
    }
  }

  function KthFrom(samples: seq<nat>, k: nat, v: nat): (r: nat)
    requires 1 <= k <= |samples|
    requires Count(samples, AtMost(v - 1)) < k
    ensures Count(samples, AtMost(r)) >= k && Count(samples, AtMost(r - 1)) < k
    decreases Max(samples) - v
  {
    if Count(samples, AtMost(v)) >= k then v
    else
      assert v < Max(samples) by {
        if v >= Max(samples) { CountAll(samples, v); }
      }
      KthFrom(samples, k, v + 1)
  }

  /** The `k`-th smallest sample: the least value with at least `k` samples not above it. */
  function Kth(samples: seq<nat>, k: nat): (r: nat)
    requires 1 <= k <= |samples|
    ensures Count(samples, AtMost(r)) >= k && Count(samples, AtMost(r - 1)) < k
  {
    CountNone(samples, AtMost(-1));
    KthFrom(samples, k, 0)
  }

  lemma {:induction false} PrefixMonotone(bs: seq<nat>, i: nat, j: nat)
    requires i <= j <= |bs|
    ensures Prefix(bs, i) <= Prefix(bs, j)
  {
    if i < j { PrefixMonotone(bs, i, j - 1); }
  }

  lemma AtMostReaches(t: BoundTable, samples: seq<nat>, v: nat, b: nat)
    requires b == Bucket(t, v)
    ensures Count(samples, AtMost(v)) <= Count(samples, BelowBucket(t, b + 1))
  {
    forall x: nat | AtMost(v)(x)
      ensures BelowBucket(t, b + 1)(x)
    {
      BucketMonotone(t, x, v);
    }
    CountMonotone(samples, AtMost(v), BelowBucket(t, b + 1));
  }

  lemma BelowStaysUnder(t: BoundTable, samples: seq<nat>, v: nat, b: nat)
    requires b == Bucket(t, v)
    ensures Count(samples, BelowBucket(t, b)) <= Count(samples, AtMost(v - 1))
  {
    forall x: nat | BelowBucket(t, b)(x)
      ensures AtMost(v - 1)(x)
    {
      if x >= v { BucketMonotone(t, v, x); }
    }
    CountMonotone(samples, BelowBucket(t, b), AtMost(v - 1));
  }

  lemma SplitAt(t: BoundTable, samples: seq<nat>, k: nat, v: nat, b: nat)
    requires b == Bucket(t, v) && Count(samples, AtMost(v - 1)) < k <= Count(samples, AtMost(v))
    ensures Prefix(RecordAll(t, samples).buckets, b) < k <= Prefix(RecordAll(t, samples).buckets, b + 1)
  {
    PrefixCounts(t, samples, b);
    PrefixCounts(t, samples, b + 1);
    AtMostReaches(t, samples, v, b);
    BelowStaysUnder(t, samples, v, b);
  }

  /** The first `b` buckets hold fewer than `k` samples and the first `b + 1` at least `k`. */
  lemma KthBucketSplits(t: BoundTable, samples: seq<nat>, k: nat)
    requires 1 <= k <= |samples|
    ensures var bs, b := RecordAll(t, samples).buckets, Bucket(t, Kth(samples, k));
            Prefix(bs, b) < k <= Prefix(bs, b + 1)
  {
    SplitAt(t, samples, k, Kth(samples, k), Bucket(t, Kth(samples, k)));
  }

  lemma ReachSplit(bs: seq<nat>, k: int, b: nat)
    requires b < |bs| && Prefix(bs, b) < k <= Prefix(bs, b + 1)
    ensures Reach(bs, k, 0) == b
  {
    var r := Reach(bs, k, 0);
    if r < b { PrefixMonotone(bs, r + 1, b); }
  }

  /** The loop stops at the bucket of the `k`-th smallest sample, at that sample's place among the
      bucket's samples. */
  lemma LocateIsRank(t: BoundTable, samples: seq<nat>, k: nat)
    requires 1 <= k <= |samples|
    ensures var b := Bucket(t, Kth(samples, k));
            var size, place := Count(samples, InBucket(t, b)), k - Count(samples, BelowBucket(t, b));
            1 <= place <= size && Locate(RecordAll(t, samples).buckets, k) == Inside(b, size, place)
  {
    var bs, b := RecordAll(t, samples).buckets, Bucket(t, Kth(samples, k));
    KthBucketSplits(t, samples, k);
    ReachSplit(bs, k, b);
    BucketsCount(t, samples, b);
    PrefixCounts(t, samples, b);
    assert Prefix(bs, b + 1) == Prefix(bs, b) + bs[b];
  }

  lemma TargetRange(n: nat, pct: real)
    requires n >= 1 && 0.0 < pct <= 100.0
    ensures 1 <= Target(n, pct) <= n
  {
    var x := pct / 100.0 * (n as real);
    assert 0.0 < pct / 100.0 <= 1.0;
    assert 0.0 < x <= n as real;
  }

  lemma BoundsOrder(t: BoundTable, i: nat)
    requires i <= |t|
    ensures Lower(t, i) <= Upper(t, i)
  {
  }

  lemma ShareOfGap(k: int, n: nat, d: real)
    requires 1 <= k <= n && d >= 0.0
    ensures 0.0 <= k as real / n as real * d <= d
  {
    var frac := k as real / n as real;
    assert 0.0 < frac <= 1.0;
  }

  lemma ReportBounds(t: BoundTable, i: nat, n: nat, k: int)
    requires i <= |t| && 1 <= k <= n
    ensures Lower(t, i) as real <= Report(t, Inside(i, n, k)) <= Upper(t, i) as real
  {
    var lo, hi := Lower(t, i) as real, Upper(t, i) as real;
    BoundsOrder(t, i);
    ShareOfGap(k, n, hi - lo);
    var share := k as real / n as real * (hi - lo);
    assert Report(t, Inside(i, n, k)) == lo + share;
  }

  /** The rank a percentile asks for. */
  function Rank(samples: seq<nat>, pct: real): (k: nat)
    requires samples != [] && 0.0 < pct <= 100.0
    ensures 1 <= k <= |samples| && k == Target(|samples|, pct)
  {
    TargetRange(|samples|, pct);
    Target(|samples|, pct)
  }

  lemma PercentileLocates(t: BoundTable, samples: seq<nat>, pct: real)
    requires samples != [] && 0.0 < pct <= 100.0
    ensures Percentile(t, RecordAll(t, samples), pct) == Report(t, Locate(RecordAll(t, samples).buckets, Rank(samples, pct)))
  {
    BucketsCount(t, samples, 0);
  }

  lemma RankReport(t: BoundTable, samples: seq<nat>, k: nat)
    requires 1 <= k <= |samples|
    ensures var b := Bucket(t, Kth(samples, k));
            var size, place := Count(samples, InBucket(t, b)), k - Count(samples, BelowBucket(t, b));
            var x := Report(t, Locate(RecordAll(t, samples).buckets, k));
            1 <= place <= size && x == Report(t, Inside(b, size, place)) && Lower(t, b) as real <= x <= Upper(t, b) as real
  {
    var b := Bucket(t, Kth(samples, k));
    LocateIsRank(t, samples, k);
    ReportBounds(t, b, Count(samples, InBucket(t, b)), k - Count(samples, BelowBucket(t, b)));
  }

  /** For every nonempty sample sequence and 0 < pct <= 100 the result lies within the reported bounds
      of the bucket that holds the ceil(pct * n / 100)-th smallest sample, at that sample's place among
      the bucket's samples: neither the 0.5 fallback nor the final return is used. */
  lemma PercentileIsRank(t: BoundTable, samples: seq<nat>, pct: real)
    requires samples != [] && 0.0 < pct <= 100.0
    ensures var k := Target(|samples|, pct);
            && 1 <= k <= |samples|
            && var b := Bucket(t, Kth(samples, k));
               var size, place := Count(samples, InBucket(t, b)), k - Count(samples, BelowBucket(t, b));
               && 1 <= place <= size
               && Percentile(t, RecordAll(t, samples), pct) == Report(t, Inside(b, size, place))
               && Lower(t, b) as real <= Percentile(t, RecordAll(t, samples), pct) <= Upper(t, b) as real
  {
    PercentileLocates(t, samples, pct);
    RankReport(t, samples, Rank(samples, pct));
  }

  /** The value stands at `place` of `size` equal steps from `lo` to `hi`. */
  predicate EvenlyPlaced(x: real, lo: nat, hi: nat, size: nat, place: int) {
    (x - lo as real) * size as real == place as real * (hi as real - lo as real)
  }

  lemma ReportPlaced(t: BoundTable, i: nat, n: nat, k: int)
    requires i <= |t| && n >= 1
    ensures EvenlyPlaced(Report(t, Inside(i, n, k)), Lower(t, i), Upper(t, i), n, k)
  {
    var d := Upper(t, i) as real - Lower(t, i) as real;
    ShareTimes(k as real, n as real, d);
    assert Report(t, Inside(i, n, k)) - Lower(t, i) as real == k as real / n as real * d;
  }

  lemma ShareTimes(k: real, n: real, d: real)
    requires n > 0.0
    ensures k / n * d * n == k * d
  {
    assert k / n * n == k;
  }

  /** The bucket of the ranked sample. */
  function RankBucket(t: BoundTable, samples: seq<nat>, k: nat): nat
    requires 1 <= k <= |samples|
  {
    Bucket(t, Kth(samples, k))
  }

  /** Its place among the samples of that bucket. */
  function RankPlace(t: BoundTable, samples: seq<nat>, k: nat): int
    requires 1 <= k <= |samples|
  {
    k - Count(samples, BelowBucket(t, RankBucket(t, samples, k)))
  }

  function RankSize(t: BoundTable, samples: seq<nat>, k: nat): nat
    requires 1 <= k <= |samples|
  {
    Count(samples, InBucket(t, RankBucket(t, samples, k)))
  }

  lemma RankExact(t: BoundTable, samples: seq<nat>, k: nat)
    requires 1 <= k <= |samples|
    ensures var b := RankBucket(t, samples, k);
            && 1 <= RankPlace(t, samples, k) <= RankSize(t, samples, k)
            && EvenlyPlaced(Report(t, Locate(RecordAll(t, samples).buckets, k)), Lower(t, b), Upper(t, b),
                            RankSize(t, samples, k), RankPlace(t, samples, k))
  {
    LocateIsRank(t, samples, k);
    ReportPlaced(t, RankBucket(t, samples, k), RankSize(t, samples, k), RankPlace(t, samples, k));
  }

  /** Inside its bucket the report stands where the ranked sample stands among the bucket's samples, these
      being spread evenly up to the upper bound. */
  lemma PercentileExact(t: BoundTable, samples: seq<nat>, pct: real)
    requires samples != [] && 0.0 < pct <= 100.0
    ensures var k := Rank(samples, pct);
            var b := RankBucket(t, samples, k);
            && 1 <= RankPlace(t, samples, k) <= RankSize(t, samples, k)
            && EvenlyPlaced(Percentile(t, RecordAll(t, samples), pct), Lower(t, b), Upper(t, b),
                            RankSize(t, samples, k), RankPlace(t, samples, k))
  {
    PercentileLocates(t, samples, pct);
    RankExact(t, samples, Rank(samples, pct));
  }

  lemma LastPlace(x: real, lo: nat, hi: nat, size: nat)
    requires size >= 1 && EvenlyPlaced(x, lo, hi, size, size)
    ensures x == hi as real
  {
    var n, d := size as real, hi as real - lo as real;
    assert (x - lo as real - d) * n == 0.0;
  }

  /** The last sample of a bucket reports its upper bound. */
  lemma LastReportsUpper(t: BoundTable, samples: seq<nat>, pct: real)
    requires samples != [] && 0.0 < pct <= 100.0
    requires RankPlace(t, samples, Rank(samples, pct)) == RankSize(t, samples, Rank(samples, pct))
    ensures Percentile(t, RecordAll(t, samples), pct) == Upper(t, RankBucket(t, samples, Rank(samples, pct))) as real
  {
    var k := Rank(samples, pct);
    var b := RankBucket(t, samples, k);
    PercentileExact(t, samples, pct);
    LastPlace(Percentile(t, RecordAll(t, samples), pct), Lower(t, b), Upper(t, b), RankSize(t, samples, k));
  }

  /** The two values are `steps` of `size` equal steps from `lo` to `hi` apart. */
  predicate StepsApart(x: real, y: real, lo: nat, hi: nat, size: nat, steps: int) {
    (y - x) * size as real == steps as real * (hi as real - lo as real)
  }

  lemma EvenSteps(x: real, y: real, lo: nat, hi: nat, size: nat, j: int, k: int)
    requires EvenlyPlaced(x, lo, hi, size, j) && EvenlyPlaced(y, lo, hi, size, k)
    ensures StepsApart(x, y, lo, hi, size, k - j)
  {
    var n, d := size as real, hi as real - lo as real;
    assert (y - x) * n == (y - lo as real) * n - (x - lo as real) * n;
    assert (k - j) as real * d == k as real * d - j as real * d;
  }

  /** Inside a bucket equal steps in rank are equal steps in the report. */
  lemma EqualSteps(t: BoundTable, samples: seq<nat>, p: real, q: real)
    requires samples != [] && 0.0 < p <= 100.0 && 0.0 < q <= 100.0
    requires RankBucket(t, samples, Rank(samples, p)) == RankBucket(t, samples, Rank(samples, q))
    ensures var j, k := Rank(samples, p), Rank(samples, q);
            var b, h := RankBucket(t, samples, j), RecordAll(t, samples);
            StepsApart(Percentile(t, h, p), Percentile(t, h, q), Lower(t, b), Upper(t, b), RankSize(t, samples, j), k - j)
  {
    var j, k := Rank(samples, p), Rank(samples, q);
    PlacesApart(t, samples, j, k);
    EqualStepsAt(t, samples, p, q, RankBucket(t, samples, j), RankSize(t, samples, j),
                 RankPlace(t, samples, j), RankPlace(t, samples, k));
  }

  lemma PlacesApart(t: BoundTable, samples: seq<nat>, j: nat, k: nat)
    requires 1 <= j <= |samples| && 1 <= k <= |samples|
    requires RankBucket(t, samples, j) == RankBucket(t, samples, k)
    ensures RankPlace(t, samples, k) - RankPlace(t, samples, j) == k - j
    ensures RankSize(t, samples, k) == RankSize(t, samples, j)
  {
  }

  lemma EqualStepsAt(t: BoundTable, samples: seq<nat>, p: real, q: real, b: nat, size: nat, j: int, k: int)
    requires samples != [] && 0.0 < p <= 100.0 && 0.0 < q <= 100.0
    requires b == RankBucket(t, samples, Rank(samples, p)) == RankBucket(t, samples, Rank(samples, q))
    requires size == RankSize(t, samples, Rank(samples, p)) == RankSize(t, samples, Rank(samples, q))
    requires j == RankPlace(t, samples, Rank(samples, p)) && k == RankPlace(t, samples, Rank(samples, q))
    ensures StepsApart(Percentile(t, RecordAll(t, samples), p), Percentile(t, RecordAll(t, samples), q),
                       Lower(t, b), Upper(t, b), size, k - j)
  {
    PercentileExact(t, samples, p);
    PercentileExact(t, samples, q);
    EvenSteps(Percentile(t, RecordAll(t, samples), p), Percentile(t, RecordAll(t, samples), q),
              Lower(t, b), Upper(t, b), size, j, k);
  }

  /** The ranked sample itself lies within those bounds exactly when it is at most the last bound:
      above it the report is cut off there. */
  lemma BucketHoldsSample(t: BoundTable, v: nat)
    ensures Lower(t, Bucket(t, v)) <= v <= Upper(t, Bucket(t, v)) <==> v <= t[|t| - 1]
  {
  }

  /** On a nonempty histogram the final return is used exactly for percentiles above 100, and the 0.5
      fallback exactly for rank zero with an empty first bucket. */
  lemma {:induction false} FallbacksUnreached(t: BoundTable, samples: seq<nat>, pct: real)
    requires samples != [] && pct >= 0.0
    ensures var s := Locate(RecordAll(t, samples).buckets, Target(|samples|, pct));
            && (s.Beyond? <==> Target(|samples|, pct) > |samples|)
            && (s.Inside? && s.size == 0 <==> Target(|samples|, pct) <= 0 && Count(samples, InBucket(t, 0)) == 0)
  {
    var bs, k, n := RecordAll(t, samples).buckets, Target(|samples|, pct), |samples|;
    BucketsCount(t, samples, 0);
    if k <= 0 {
      assert Prefix(bs, 1) >= 0 >= k;
      assert Reach(bs, k, 0) == 0;
    } else if k <= n {
      LocateIsRank(t, samples, k);
    } else {
      var r := Reach(bs, k, 0);
      if r < |bs| {
        PrefixCounts(t, samples, r + 1);
        assert false;
      }
    }
  }

  // ---------- Monotonicity ----------

  lemma CeilMonotone(x: real, y: real)
    requires x <= y
    ensures Ceil(x) <= Ceil(y)
  {
  }

  lemma TargetMonotone(n: nat, p: real, q: real)
    requires p <= q
    ensures Target(n, p) <= Target(n, q)
  {
    assert p / 100.0 * (n as real) <= q / 100.0 * (n as real);
    CeilMonotone(p / 100.0 * (n as real), q / 100.0 * (n as real));
  }

  lemma LaterPlace(t: BoundTable, i: nat, n: nat, k: int, k': int)
    requires i <= |t| && 1 <= k <= k' <= n
    ensures Report(t, Inside(i, n, k)) <= Report(t, Inside(i, n, k'))
  {
    BoundsOrder(t, i);
    ShareMonotone(k, k', n, Upper(t, i) as real - Lower(t, i) as real);
  }

  lemma ShareMonotone(k: int, k': int, n: nat, d: real)
    requires 1 <= k <= k' <= n && d >= 0.0
    ensures k as real / n as real * d <= k' as real / n as real * d
  {
    assert k as real / n as real <= k' as real / n as real;
  }

  lemma KthMonotone(samples: seq<nat>, k: nat, k': nat)
    requires 1 <= k <= k' <= |samples|
    ensures Kth(samples, k) <= Kth(samples, k')
  {
    var v: int := Kth(samples, k);
    var v': int := Kth(samples, k');
    var u: int := v - 1;
    if v' < v {
      CountMonotone(samples, AtMost(v'), AtMost(u));
    }
  }

  lemma EarlierBucket(t: BoundTable, s: Spot, s': Spot)
    requires s.Inside? && s'.Inside? && s.bucket < s'.bucket <= |t|
    requires 1 <= s.place <= s.size && 1 <= s'.place <= s'.size
    ensures Report(t, s) <= Report(t, s')
  {
    ReportBounds(t, s.bucket, s.size, s.place);
    ReportBounds(t, s'.bucket, s'.size, s'.place);
    assert Upper(t, s.bucket) <= Lower(t, s'.bucket);
  }

  lemma ReportMonotone(t: BoundTable, samples: seq<nat>, k: nat, k': nat)
    requires 1 <= k <= k' <= |samples|
    ensures Report(t, Locate(RecordAll(t, samples).buckets, k)) <= Report(t, Locate(RecordAll(t, samples).buckets, k'))
  {
    var b, b' := Bucket(t, Kth(samples, k)), Bucket(t, Kth(samples, k'));
    var s, s' := Locate(RecordAll(t, samples).buckets, k), Locate(RecordAll(t, samples).buckets, k');
    LocateIsRank(t, samples, k);
    LocateIsRank(t, samples, k');
    KthMonotone(samples, k, k');
    BucketMonotone(t, Kth(samples, k), Kth(samples, k'));
    if b == b' {
      LaterPlace(t, b, s.size, s.place, s'.place);
    } else {
      EarlierBucket(t, s, s');
    }
  }

  /** A higher percentile never reports a lower latency. */
  lemma PercentileMonotone(t: BoundTable, samples: seq<nat>, p: real, q: real)
    requires samples != [] && 0.0 < p <= q <= 100.0
    ensures Percentile(t, RecordAll(t, samples), p) <= Percentile(t, RecordAll(t, samples), q)
  {
    var n := |samples|;
    BucketsCount(t, samples, 0);
    TargetRange(n, p);
    TargetRange(n, q);
    TargetMonotone(n, p, q);
    ReportMonotone(t, samples, Target(n, p), Target(n, q));
  }

  // ---------- The k-th smallest sample is what sorting puts at place k ----------

  predicate Sorted(s: seq<nat>) {
    forall i, j :: 0 <= i < j < |s| ==> s[i] <= s[j]
  }

  lemma {:induction false} CountOfSorted(s: seq<nat>, v: int, k: nat)
    requires Sorted(s) && k <= |s|
    requires forall i :: 0 <= i < k ==> s[i] <= v
    requires forall i :: k <= i < |s| ==> s[i] > v
    ensures Count(s, AtMost(v)) == k
  {
    if s != [] {
      var n := |s| - 1;
      CountOfSorted(s[..n], v, if k == |s| then n else k);
    }
  }

  /** The sequence without its element `i`. */
  function Without(s: seq<nat>, i: nat): (r: seq<nat>)
    requires i < |s|
    ensures |r| == |s| - 1
  {
    s[..i] + s[i + 1..]
  }

  lemma WithoutEnds(s: seq<nat>, i: nat)
    requires i < |s| - 1
    ensures var n := |s| - 1;
            Without(s, i)[n - 1] == s[n] && Without(s, i)[..n - 1] == Without(s[..n], i)
  {
  }

  lemma {:induction false} CountRemove(s: seq<nat>, i: nat, f: nat -> bool)
    requires i < |s|
    ensures Count(s, f) == Count(Without(s, i), f) + if f(s[i]) then 1 else 0
  {
    var n := |s| - 1;
    if i == n {
      assert Without(s, i) == s[..n];
    } else {
      CountRemove(s[..n], i, f);
      WithoutEnds(s, i);
    }
  }

  lemma {:induction false} CountPermuted(s: seq<nat>, s': seq<nat>, f: nat -> bool)
    requires multiset(s) == multiset(s')
    ensures Count(s, f) == Count(s', f)
  {
    if s == [] {
      assert |multiset(s')| == 0;
    } else {
      var n := |s| - 1;
      var i := Find(s', s[n], s);
      CountRemove(s', i, f);
      RemovedEqual(s, s', i);
      CountPermuted(s[..n], Without(s', i), f);
    }
  }

  lemma Find(s': seq<nat>, x: nat, s: seq<nat>) returns (i: nat)
    requires x in s && multiset(s) == multiset(s')
    ensures i < |s'| && s'[i] == x
  {
    assert x in multiset(s');
    i :| i < |s'| && s'[i] == x;
  }

  lemma Cancel(a: multiset<nat>, b: multiset<nat>, x: nat)
    requires a + multiset{x} == b + multiset{x}
    ensures a == b
  {
    forall y: nat
      ensures a[y] == b[y]
    {
      assert (a + multiset{x})[y] == (b + multiset{x})[y];
    }
  }

  lemma RemovedEqual(s: seq<nat>, s': seq<nat>, i: nat)
    requires s != [] && multiset(s) == multiset(s') && i < |s'| && s'[i] == s[|s| - 1]
    ensures multiset(s[..|s| - 1]) == multiset(Without(s', i))
  {
    var n := |s| - 1;
    assert s == s[..n] + [s[n]];
    assert s' == s'[..i] + [s'[i]] + s'[i + 1..];
    assert multiset(s') == multiset(s'[..i]) + multiset{s'[i]} + multiset(s'[i + 1..]);
    assert multiset(s) == multiset(s[..n]) + multiset{s[n]};
    Cancel(multiset(s[..n]), multiset(s'[..i]) + multiset(s'[i + 1..]), s[n]);
  }

  lemma CountUpTo(s: seq<nat>, v: int) returns (k: nat)
    requires Sorted(s)
    ensures k == Count(s, AtMost(v)) && k <= |s|
    ensures forall i :: 0 <= i < k ==> s[i] <= v
    ensures forall i :: k <= i < |s| ==> s[i] > v
  {
    k := 0;
    while k < |s| && s[k] <= v
      invariant k <= |s|
      invariant forall i :: 0 <= i < k ==> s[i] <= v
    {
      k := k + 1;
    }
    CountOfSorted(s, v, k);
  }

  /** Any sorted arrangement of the samples has the `k`-th smallest at index `k - 1`. */
  lemma KthIsSorted(samples: seq<nat>, sorted: seq<nat>, k: nat)
    requires 1 <= k <= |samples| && Sorted(sorted) && multiset(sorted) == multiset(samples)
    ensures |sorted| == |samples| && sorted[k - 1] == Kth(samples, k)
  {
    assert |sorted| == |multiset(sorted)| == |multiset(samples)| == |samples|;
    var r: int := Kth(samples, k);
    CountPermuted(samples, sorted, AtMost(r));
    CountPermuted(samples, sorted, AtMost(r - 1));
    var c := CountUpTo(sorted, r);
    var c' := CountUpTo(sorted, r - 1);
  }

  // ---------- Merging ----------

  lemma RecordCommutes(t: BoundTable, h: Hist, x: nat, y: nat)
    requires h.Over(t)
    ensures Record(t, Record(t, h, x), y) == Record(t, Record(t, h, y), x)
  {
  }

  lemma RecordSnoc(t: BoundTable, samples: seq<nat>, x: nat)
    ensures RecordAll(t, samples + [x]) == Record(t, RecordAll(t, samples), x)
  {
    assert (samples + [x])[..|samples|] == samples;
  }

  lemma RecordLast(t: BoundTable, s: seq<nat>, n: nat)
    requires |s| == n + 1
    ensures RecordAll(t, s) == Record(t, RecordAll(t, s[..n]), s[n])
  {
  }

  lemma WithoutLast(t: BoundTable, s: seq<nat>, i: nat)
    requires i < |s| - 1
    ensures var n := |s| - 1;
            RecordAll(t, Without(s, i)) == Record(t, RecordAll(t, Without(s[..n], i)), s[n])
  {
    WithoutEnds(s, i);
    RecordLast(t, Without(s, i), |s| - 2);
  }

  lemma OutStep(t: BoundTable, h: Hist, before: Hist, after: Hist, a: nat, b: nat)
    requires h.Over(t) && before == Record(t, h, a) && after == Record(t, h, b)
    ensures Record(t, before, b) == Record(t, after, a)
  {
    RecordCommutes(t, h, a, b);
  }

  lemma {:induction false} RecordOut(t: BoundTable, s: seq<nat>, i: nat)
    requires i < |s|
    ensures RecordAll(t, s) == Record(t, RecordAll(t, Without(s, i)), s[i])
  {
    var n := |s| - 1;
    RecordLast(t, s, n);
    if i == n {
      assert Without(s, i) == s[..n];
    } else {
      RecordOut(t, s[..n], i);
      WithoutLast(t, s, i);
      OutStep(t, RecordAll(t, Without(s[..n], i)), RecordAll(t, s[..n]), RecordAll(t, Without(s, i)), s[i], s[n]);
    }
  }

  /** A histogram depends on the samples as a multiset only. */
  lemma {:induction false} RecordPermuted(t: BoundTable, s: seq<nat>, s': seq<nat>)
    requires multiset(s) == multiset(s')
    ensures RecordAll(t, s) == RecordAll(t, s')
  {
    if s == [] {
      assert |multiset(s')| == 0;
    } else {
      var n := |s| - 1;
      var i := Find(s', s[n], s);
      RecordOut(t, s', i);
      RemovedEqual(s, s', i);
      RecordPermuted(t, s[..n], Without(s', i));
    }
  }

  lemma MergeRecord(t: BoundTable, h: Hist, other: Hist, x: nat)
    requires h.Over(t) && other.Over(t)
    ensures Merge(h, Record(t, other, x)) == Record(t, Merge(h, other), x)
  {
    var b, m, m' := Bucket(t, x), Merge(h, Record(t, other, x)).buckets, Record(t, Merge(h, other), x).buckets;
    assert m == m';
  }

  lemma MergeEmpty(t: BoundTable, h: Hist)
    requires h.Over(t)
    ensures Merge(h, Empty(t)) == h
  {
    assert Merge(h, Empty(t)).buckets == h.buckets;
  }

  lemma AppendEnds(a: seq<nat>, b: seq<nat>)
    requires b != []
    ensures a + b == (a + b[..|b| - 1]) + [b[|b| - 1]]
  {
  }

  lemma AppendLast(t: BoundTable, a: seq<nat>, b: seq<nat>)
    requires b != []
    ensures var n := |b| - 1; RecordAll(t, a + b) == Record(t, RecordAll(t, a + b[..n]), b[n])
  {
    AppendEnds(a, b);
    RecordSnoc(t, a + b[..|b| - 1], b[|b| - 1]);
  }

  lemma MergeStep(t: BoundTable, h: Hist, other: Hist, merged: Hist, x: nat)
    requires h.Over(t) && other.Over(t) && merged == Merge(h, other)
    ensures Merge(h, Record(t, other, x)) == Record(t, merged, x)
  {
    MergeRecord(t, h, other, x);
  }

  lemma {:induction false} MergeAppends(t: BoundTable, a: seq<nat>, b: seq<nat>)
    ensures Merge(RecordAll(t, a), RecordAll(t, b)) == RecordAll(t, a + b)
  {
    if b == [] {
      assert a + b == a;
      MergeEmpty(t, RecordAll(t, a));
    } else {
      var n := |b| - 1;
      MergeAppends(t, a, b[..n]);
      AppendLast(t, a, b);
      RecordLast(t, b, n);
      MergeStep(t, RecordAll(t, a), RecordAll(t, b[..n]), RecordAll(t, a + b[..n]), b[n]);
    }
  }

  /** Merging local histograms, one per part, into an empty one. */
  function MergeAll(t: BoundTable, parts: seq<seq<nat>>): (h: Hist)
    ensures h.Over(t)
  {
    if parts == [] then Empty(t)
    else Merge(MergeAll(t, parts[..|parts| - 1]), RecordAll(t, parts[|parts| - 1]))
  }

  function Flatten(parts: seq<seq<nat>>): seq<nat> {
    if parts == [] then [] else Flatten(parts[..|parts| - 1]) + parts[|parts| - 1]
  }

  lemma {:induction false} MergeAllFlattens(t: BoundTable, parts: seq<seq<nat>>)
    ensures MergeAll(t, parts) == RecordAll(t, Flatten(parts))
  {
    if parts != [] {
      var n := |parts| - 1;
      MergeAllFlattens(t, parts[..n]);
      MergeAppends(t, Flatten(parts[..n]), parts[n]);
    }
  }

  /** However the samples are split over local histograms, and in whatever order these are merged, the
      result is the histogram of all samples: same buckets, sum, count, hence same percentiles. */
  lemma SplitLeavesNoTrace(t: BoundTable, samples: seq<nat>, parts: seq<seq<nat>>)
    requires multiset(Flatten(parts)) == multiset(samples)
    ensures MergeAll(t, parts) == RecordAll(t, samples)
  {
    MergeAllFlattens(t, parts);
    RecordPermuted(t, Flatten(parts), samples);
  }
}
