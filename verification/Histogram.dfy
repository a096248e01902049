/** Latency buckets and the histogram kept for each family of traces (internal/nettrace/histogram.go and
    `findBucket` of internal/nettrace/trace.go). Durations are nanoseconds in a signed 64-bit integer. */
module Histogram {
  import opened Common

  const N_BUCKETS: nat := 8
  const MILLISECOND: nat := 1_000_000
  const SECOND: nat := 1_000_000_000

  /** Bucket `b` is for the latencies of at least `BUCKETS[b]`. */
  const BUCKETS: seq<nat> :=
    [0, 5 * MILLISECOND, 10 * MILLISECOND, 50 * MILLISECOND, 100 * MILLISECOND, 300 * MILLISECOND,
     SECOND, 10 * SECOND]

  // ---------- buckets ----------

  ghost predicate InBucket(latency: int, b: int) {
    0 <= b < N_BUCKETS && BUCKETS[b] <= latency && (b + 1 < N_BUCKETS ==> latency < BUCKETS[b + 1])
  }

  /** The bucket of a latency, or -1 for a negative one. */
  method FindBucket(latency: int) returns (b: int)
    ensures 0 <= latency ==> InBucket(latency, b)
    ensures latency < 0 ==> b == -1
    ensures b == 0 <==> 0 <= latency < 5_000_000
    ensures b == 1 <==> 5_000_000 <= latency < 10_000_000
    ensures b == 2 <==> 10_000_000 <= latency < 50_000_000
    ensures b == 3 <==> 50_000_000 <= latency < 100_000_000
    ensures b == 4 <==> 100_000_000 <= latency < 300_000_000
    ensures b == 5 <==> 300_000_000 <= latency < 1_000_000_000
    ensures b == 6 <==> 1_000_000_000 <= latency < 10_000_000_000
    ensures b == 7 <==> 10_000_000_000 <= latency
  {
    for i := 0 to |BUCKETS|
      invariant i > 0 ==> BUCKETS[i - 1] <= latency
    {
      if latency >= BUCKETS[i] {
        continue;
      }
      return i - 1;
    }
    return N_BUCKETS - 1;
  }

  /** The bucket of a latency, looked for from bucket `b` on. */
  function BucketFrom(latency: nat, b: nat): (r: nat)
    requires b < N_BUCKETS && BUCKETS[b] <= latency
    ensures InBucket(latency, r)
    decreases N_BUCKETS - b
  {
    if b + 1 < N_BUCKETS && BUCKETS[b + 1] <= latency then BucketFrom(latency, b + 1) else b
  }

  function BucketOf(latency: nat): (r: nat)
    ensures InBucket(latency, r)
  {
    BucketFrom(latency, 0)
  }

  /** The buckets partition the non-negative latencies. */
  lemma BucketUnique(latency: int, a: int, b: int)
    requires InBucket(latency, a) && InBucket(latency, b)
    ensures a == b
  {
    if a < b {
      BucketsAscend(a + 1, b);
    } else if b < a {
      BucketsAscend(b + 1, a);
    }
  }

  lemma BucketsAscend(a: nat, b: nat)
    requires a <= b < N_BUCKETS
    ensures BUCKETS[a] <= BUCKETS[b]
  {
  }

  // ---------- what a sequence of samples adds up to ----------

  datatype Sample = Sample(bucket: nat, latency: nat)

  /** The bucket is a real one and the latency fits a duration. */
  predicate IsSample(x: Sample) {
    x.bucket < N_BUCKETS && x.latency < TWO_63
  }

  ghost predicate AreSamples(xs: seq<Sample>) {
    forall i | 0 <= i < |xs| :: IsSample(xs[i])
  }

  /** Every latency was filed in its own bucket. */
  ghost predicate WellFiled(xs: seq<Sample>) {
    forall i | 0 <= i < |xs| :: InBucket(xs[i].latency, xs[i].bucket)
  }

  function CountIn(xs: seq<Sample>, b: nat): nat {
    if xs == [] then 0 else CountIn(xs[..|xs| - 1], b) + if xs[|xs| - 1].bucket == b then 1 else 0
  }

  /** How many samples are in bucket `b` or a lower one. */
  function CountUpTo(xs: seq<Sample>, b: int): nat {
    if xs == [] then 0 else CountUpTo(xs[..|xs| - 1], b) + if xs[|xs| - 1].bucket <= b then 1 else 0
  }

  /** How many latencies are below `limit`. */
  function CountBelow(xs: seq<Sample>, limit: nat): nat {
    if xs == [] then 0 else CountBelow(xs[..|xs| - 1], limit) + if xs[|xs| - 1].latency < limit then 1 else 0
  }

  function Sum(xs: seq<Sample>): nat {
    if xs == [] then 0 else Sum(xs[..|xs| - 1]) + xs[|xs| - 1].latency
  }

  ghost predicate IsLeast(xs: seq<Sample>, m: nat) {
    if xs == [] then m == 0
    else (exists i | 0 <= i < |xs| :: xs[i].latency == m) && forall i | 0 <= i < |xs| :: m <= xs[i].latency
  }

  ghost predicate IsGreatest(xs: seq<Sample>, m: nat) {
    if xs == [] then m == 0
    else (exists i | 0 <= i < |xs| :: xs[i].latency == m) && forall i | 0 <= i < |xs| :: xs[i].latency <= m
  }

  lemma {:induction false} UpToNext(xs: seq<Sample>, b: nat)
    ensures CountUpTo(xs, b) == CountUpTo(xs, b - 1) + CountIn(xs, b)
  {
    if xs != [] {
      UpToNext(xs[..|xs| - 1], b);
    }
  }

  /** The buckets share out all the samples. */
  lemma {:induction false} CountsAddUp(xs: seq<Sample>)
    requires AreSamples(xs)
    ensures CountUpTo(xs, N_BUCKETS - 1) == |xs|
    ensures CountUpTo(xs, -1) == 0
  {
    if xs != [] {
      CountsAddUp(xs[..|xs| - 1]);
    }
  }

  /** The running count at bucket `b` is the number of latencies below the start of the next bucket. */
  lemma {:induction false} UpToIsBelow(xs: seq<Sample>, b: nat)
    requires WellFiled(xs) && b + 1 < N_BUCKETS
    ensures CountUpTo(xs, b) == CountBelow(xs, BUCKETS[b + 1])
  {
    if xs != [] {
      UpToIsBelow(xs[..|xs| - 1], b);
      var x := xs[|xs| - 1];
      if x.bucket <= b {
        BucketsAscend(x.bucket + 1, b + 1);
      } else {
        BucketsAscend(b + 1, x.bucket);
      }
    }
  }

  /** Between count * min and count * max. */
  lemma {:induction false} SumBetween(xs: seq<Sample>, lo: nat, hi: nat)
    requires forall i | 0 <= i < |xs| :: lo <= xs[i].latency <= hi
    ensures |xs| * lo <= Sum(xs) <= |xs| * hi
  {
    if xs != [] {
      var n := |xs| - 1;
      SumBetween(xs[..n], lo, hi);
      assert |xs| * lo == n * lo + lo;
      assert |xs| * hi == n * hi + hi;
    }
  }

  /** What the buckets alone say about the total: each sample counted at the start of its bucket. */
  function FloorSum(xs: seq<Sample>, b: nat): nat
    requires b <= N_BUCKETS
  {
    if b == 0 then 0 else FloorSum(xs, b - 1) + CountIn(xs, b - 1) * BUCKETS[b - 1]
  }

  /** Adding a sample raises the bucket totals by the start of its bucket. */
  lemma {:induction false} FloorSumAppend(xs: seq<Sample>, x: Sample, b: nat)
    requires b <= N_BUCKETS && IsSample(x)
    ensures FloorSum(xs + [x], b) == FloorSum(xs, b) + if x.bucket < b then BUCKETS[x.bucket] else 0
  {
    if b > 0 {
      FloorSumAppend(xs, x, b - 1);
      assert (xs + [x])[..|xs|] == xs;
      var c := CountIn(xs, b - 1);
      if x.bucket == b - 1 {
        assert (c + 1) * BUCKETS[b - 1] == c * BUCKETS[b - 1] + BUCKETS[b - 1];
      }
    }
  }

  /** The bucket counts never claim more time than the samples took. */
  lemma {:induction false} FloorSumAtMostSum(xs: seq<Sample>)
    requires WellFiled(xs) && AreSamples(xs)
    ensures FloorSum(xs, N_BUCKETS) <= Sum(xs)
  {
    if xs == [] {
      FloorSumEmpty(N_BUCKETS);
    } else {
      var n := |xs| - 1;
      FloorSumAtMostSum(xs[..n]);
      FloorSumAppend(xs[..n], xs[n], N_BUCKETS);
      assert xs == xs[..n] + [xs[n]];
    }
  }

  lemma {:induction false} FloorSumEmpty(b: nat)
    requires b <= N_BUCKETS
    ensures FloorSum([], b) == 0
  {
    if b > 0 {
      FloorSumEmpty(b - 1);
    }
  }

  // ---------- the mean ----------

  /** The average reported for `n` samples whose latencies add up to `sum`: the total is kept in a signed word
      and divided as an unsigned one. */
  function ReportedMean(sum: nat, n: nat): int
    requires n > 0
  {
    Int64(UInt64(Int64(sum)) / n)
  }

  lemma WordOfWord(x: int)
    ensures UInt64(Int64(x)) == UInt64(x)
  {
  }

  lemma DivBounds(x: nat, n: nat)
    requires n > 0
    ensures n * (x / n) <= x < n * (x / n) + n
  {
  }

  lemma MulMonotone(n: nat, a: nat, b: nat)
    requires a <= b
    ensures n * a <= n * b
  {
  }

  lemma MulNext(n: nat, a: nat, b: nat)
    requires a < b
    ensures n * a + n <= n * b
  {
    MulMonotone(n, a + 1, b);
    assert n * (a + 1) == n * a + n;
  }

  /** Taking away at least `n` takes at least one off the quotient. */
  lemma DivLess(x: nat, y: nat, n: nat)
    requires n > 0 && y + n <= x
    ensures y / n < x / n
  {
    DivBounds(x, n);
    DivBounds(y, n);
    if x / n <= y / n {
      MulMonotone(n, x / n, y / n);
    }
  }

  /** The mean lies between the least and the greatest latency. */
  lemma {:induction false} MeanBetween(sum: nat, n: nat, lo: nat, hi: nat)
    requires n > 0 && n * lo <= sum <= n * hi
    ensures lo <= sum / n <= hi
  {
    DivBounds(sum, n);
    if sum / n < lo {
      MulNext(n, sum / n, lo);
    }
    if hi < sum / n {
      MulNext(n, hi, sum / n);
    }
  }

  lemma WrapLoses(sum: nat)
    ensures sum < TWO_64 ==> UInt64(sum) == sum
    ensures TWO_64 <= sum ==> UInt64(sum) + TWO_64 <= sum
  {
  }

  lemma Int64Small(x: nat)
    requires x < TWO_63
    ensures Int64(x) == x
  {
  }

  /** The quotient of the wrapped total is the quotient of the total exactly when nothing wrapped. */
  lemma {:induction false} WrappedQuotient(sum: nat, n: nat)
    requires 0 < n < TWO_64
    ensures 0 <= UInt64(sum) / n <= sum / n
    ensures UInt64(sum) / n == sum / n <==> sum < TWO_64
  {
    WrapLoses(sum);
    if TWO_64 <= sum {
      DivLess(sum, UInt64(sum), n);
    }
  }

  /** The signed total may wrap; the reported average is still the true one exactly while the latencies add up
      to less than 2^64 ns. The true one is between the least and the greatest latency. */
  lemma ReportedMeanExact(xs: seq<Sample>, lo: nat, hi: nat)
    requires 0 < |xs| < TWO_64 && AreSamples(xs)
    requires IsLeast(xs, lo) && IsGreatest(xs, hi)
    ensures ReportedMean(Sum(xs), |xs|) == Sum(xs) / |xs| <==> Sum(xs) < TWO_64
    ensures lo <= Sum(xs) / |xs| <= hi
  {
    SumBetween(xs, lo, hi);
    MeanBetween(Sum(xs), |xs|, lo, hi);
    WordOfWord(Sum(xs));
    WrappedQuotient(Sum(xs), |xs|);
    assert hi < TWO_63;
    Int64Small(UInt64(Sum(xs)) / |xs|);
  }

  /** Three of the longest possible latencies are reported to take less than any of them on average. */
  lemma MeanWraps(xs: seq<Sample>)
    requires xs == [Sample(7, TWO_63 - 1), Sample(7, TWO_63 - 1), Sample(7, TWO_63 - 1)]
    ensures AreSamples(xs) && WellFiled(xs) && IsLeast(xs, TWO_63 - 1)
    ensures ReportedMean(Sum(xs), |xs|) == 3074457345618258601 < TWO_63 - 1 == Sum(xs) / |xs|
  {
    var y := Sample(7, TWO_63 - 1);
    assert xs[0].latency == TWO_63 - 1;
    assert [y][..0] == [] && [y, y][..1] == [y] && xs[..2] == [y, y];
    assert Sum([y]) == TWO_63 - 1;
    assert Sum([y, y]) == 2 * (TWO_63 - 1);
  }

  lemma CountAppend(xs: seq<Sample>, x: Sample)
    ensures forall b: nat {:trigger CountIn(xs, b)} ::
              CountIn(xs + [x], b) == CountIn(xs, b) + if x.bucket == b then 1 else 0
  {
    assert (xs + [x])[..|xs|] == xs;
  }

  lemma SumAppend(xs: seq<Sample>, x: Sample)
    ensures Int64(Sum(xs + [x])) == Int64(Int64(Sum(xs)) + x.latency)
  {
    assert (xs + [x])[..|xs|] == xs;
  }

  lemma LeastGreatestAppend(xs: seq<Sample>, x: Sample, lo: nat, hi: nat)
    requires IsLeast(xs, lo) && IsGreatest(xs, hi)
    ensures IsLeast(xs + [x], if xs == [] || lo > x.latency then x.latency else lo)
    ensures IsGreatest(xs + [x], if hi < x.latency then x.latency else hi)
  {
    var ys := xs + [x];
    assert ys[|xs|].latency == x.latency;
    if xs != [] {
      var i :| 0 <= i < |xs| && xs[i].latency == lo;
      var j :| 0 <= j < |xs| && xs[j].latency == hi;
      assert ys[i].latency == lo && ys[j].latency == hi;
    }
  }

  // ---------- the histogram ----------

  /** So many of `n`, in percent. */
  function Percent(k: nat, n: nat): real {
    if n == 0 then 0.0 else k as real / n as real * 100.0
  }

  /** The percentages of the buckets add up to the cumulative ones, which never fall and end at a hundred. */
  lemma CumulativePercent(xs: seq<Sample>, b: nat)
    requires AreSamples(xs) && b < N_BUCKETS
    ensures Percent(CountUpTo(xs, b), |xs|) == Percent(CountUpTo(xs, b - 1), |xs|) + Percent(CountIn(xs, b), |xs|)
    ensures 0.0 <= Percent(CountUpTo(xs, b - 1), |xs|) <= Percent(CountUpTo(xs, b), |xs|)
    ensures b == N_BUCKETS - 1 && xs != [] ==> Percent(CountUpTo(xs, b), |xs|) == 100.0
  {
    UpToNext(xs, b);
    CountsAddUp(xs);
    PercentAdds(CountUpTo(xs, b - 1), CountIn(xs, b), |xs|);
  }

  lemma QuotientsAdd(x: real, y: real, m: real)
    requires x >= 0.0 && y >= 0.0 && m > 0.0
    ensures (x + y) / m == x / m + y / m
    ensures x / m >= 0.0 && y / m >= 0.0 && m / m == 1.0
  {
  }

  lemma PercentAdds(j: nat, k: nat, n: nat)
    ensures Percent(j + k, n) == Percent(j, n) + Percent(k, n)
    ensures 0.0 <= Percent(j, n) <= Percent(j + k, n)
    ensures n > 0 ==> Percent(n, n) == 100.0
  {
    if n > 0 {
      var m := n as real;
      QuotientsAdd(j as real, k as real, m);
      QuotientsAdd(m, 0.0, m);
    }
  }

  datatype Line = Line(start: nat, bucketIdx: nat, count: nat, percent: real, cumPct: real)

  /** The line of a bucket: its samples, and those up to it. */
  ghost function LineOf(xs: seq<Sample>, b: nat): Line
    requires b < N_BUCKETS
  {
    Line(BUCKETS[b], b, CountIn(xs, b), Percent(CountIn(xs, b), |xs|), Percent(CountUpTo(xs, b), |xs|))
  }

  /** What the line of a bucket shows: how many latencies there are from its start up to the next one, how many percent
      of all the samples they are, and how many percent are below the next start. */
  lemma LineShows(xs: seq<Sample>, b: nat)
    requires AreSamples(xs) && WellFiled(xs) && b < N_BUCKETS
    ensures var l := LineOf(xs, b);
            var below := CountBelow(xs, BUCKETS[b]);
            var upTo := if b + 1 < N_BUCKETS then CountBelow(xs, BUCKETS[b + 1]) else |xs|;
            && l.start == BUCKETS[b] && l.bucketIdx == b
            && below + l.count == upTo
            && l.percent * |xs| as real == 100.0 * l.count as real
            && l.cumPct * |xs| as real == 100.0 * upTo as real
            && (xs == [] ==> l.percent == 0.0 && l.cumPct == 0.0)
  {
    hide CountIn, CountUpTo, CountBelow, WellFiled, AreSamples, Percent;
    CountsShow(xs, b);
    PercentOf(CountIn(xs, b), |xs|);
    PercentOf(CountUpTo(xs, b), |xs|);
  }

  lemma CountsShow(xs: seq<Sample>, b: nat)
    requires AreSamples(xs) && WellFiled(xs) && b < N_BUCKETS
    ensures CountUpTo(xs, b) == if b + 1 < N_BUCKETS then CountBelow(xs, BUCKETS[b + 1]) else |xs|
    ensures CountBelow(xs, BUCKETS[b]) + CountIn(xs, b) == CountUpTo(xs, b) <= |xs|
  {
    hide CountIn, CountUpTo, CountBelow, WellFiled, AreSamples;
    UpToNext(xs, b);
    CountsAddUp(xs);
    UpToAtMost(xs, b);
    if b + 1 < N_BUCKETS {
      UpToIsBelow(xs, b);
    }
    if b > 0 {
      UpToIsBelow(xs, b - 1);
    } else {
      NoneBelowZero(xs);
    }
  }

  lemma {:induction false} UpToAtMost(xs: seq<Sample>, b: nat)
    ensures CountUpTo(xs, b) <= |xs|
  {
    if xs != [] {
      UpToAtMost(xs[..|xs| - 1], b);
    }
  }

  lemma {:induction false} NoneBelowZero(xs: seq<Sample>)
    requires AreSamples(xs)
    ensures CountBelow(xs, 0) == 0 && CountUpTo(xs, -1) == 0
  {
    if xs != [] {
      NoneBelowZero(xs[..|xs| - 1]);
    }
  }

  lemma Quotient(x: real, m: real)
    requires m > 0.0
    ensures x / m * 100.0 * m == 100.0 * x
  {
    var q := x / m;
    assert q * m == x;
  }

  lemma PercentOf(k: nat, n: nat)
    requires k <= n
    ensures Percent(k, n) * n as real == 100.0 * k as real
    ensures n == 0 ==> Percent(k, n) == 0.0
  {
    if n > 0 {
      Quotient(k as real, n as real);
    }
  }

  datatype HistSnapshot = HistSnapshot(counts: map<nat, Line>, count: nat, avg: int, min: nat, max: nat)

  class Histogram {
    const count: array<nat>
    var totalQ: nat
    var totalT: int
    var min: nat
    var max: nat

    /** The histogram has been given exactly the samples `xs`. */
    ghost predicate Records(xs: seq<Sample>)
      reads this, count
    {
      && count.Length == N_BUCKETS
      && AreSamples(xs)
      && (forall b | 0 <= b < N_BUCKETS :: count[b] == CountIn(xs, b))
      && totalQ == |xs|
      && totalT == Int64(Sum(xs))
      && IsLeast(xs, min)
      && IsGreatest(xs, max)
    }

    constructor ()
      ensures Records([])
      ensures fresh(count)
    {
      count := new nat[N_BUCKETS](_ => 0);
      totalQ, totalT, min, max := 0, 0, 0, 0;
    }

    method Add(bucket: nat, latency: nat, ghost xs: seq<Sample>)
      requires Records(xs)
      requires IsSample(Sample(bucket, latency))
      modifies this, count
      ensures Records(xs + [Sample(bucket, latency)])
    {
      CountAppend(xs, Sample(bucket, latency));
      SumAppend(xs, Sample(bucket, latency));
      LeastGreatestAppend(xs, Sample(bucket, latency), min, max);
      if totalQ == 0 || min > latency {
        min := latency;
      }
      if max < latency {
        max := latency;
      }
      count[bucket] := count[bucket] + 1;
      totalQ := totalQ + 1;
      totalT := Int64(totalT + latency);
    }

    method Snapshot(ghost xs: seq<Sample>) returns (s: HistSnapshot)
      requires Records(xs)
      ensures s.count == |xs| && IsLeast(xs, s.min) && IsGreatest(xs, s.max)
      ensures s.avg == if xs == [] then 0 else ReportedMean(Sum(xs), |xs|)
      ensures s.counts.Keys == set i | 0 <= i < N_BUCKETS :: BUCKETS[i]
      ensures forall i | 0 <= i < N_BUCKETS ::
                s.counts[BUCKETS[i]] == LineOf(xs, i)
    {
      var avg := 0;
      if totalQ > 0 {
        avg := Int64(UInt64(totalT) / totalQ);
      }
      var counts: map<nat, Line> := map[];
      var cumCount := 0;
      CountsAddUp(xs);
      for i := 0 to N_BUCKETS
        invariant cumCount == CountUpTo(xs, i - 1)
        invariant counts.Keys == set k | 0 <= k < i :: BUCKETS[k]
        invariant forall k | 0 <= k < i ::
                    counts[BUCKETS[k]] == LineOf(xs, k)
      {
        UpToNext(xs, i);
        cumCount := cumCount + count[i];
        var l := Line(BUCKETS[i], i, count[i], 0.0, 0.0);
        if totalQ > 0 {
          l := l.(percent := count[i] as real / totalQ as real * 100.0,
                  cumPct := cumCount as real / totalQ as real * 100.0);
        }
        counts := counts[BUCKETS[i] := l];
      }
      s := HistSnapshot(counts, totalQ, avg, min, max);
    }
  }
}
