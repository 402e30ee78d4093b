/**
 The timing probe of the static-control sample: two 102-bucket histograms of
 microsecond measurements and the percentile estimate read from them.

 Counters are unsigned 32-bit and every sum is written with its wrap-around.
 */
module Timing {
  import opened Common
  import opened Words

  const BUCKET_US := 100
  const BUCKET_COUNT := 102
  const DEADLINE_US := 10000

  /** The most samples for which no rank computation can wrap. */
  const RANK_LIMIT := 43383507

  /** The histogram bucket a measurement falls in; the last one is open-ended. */
  function Bucket(us: nat): (b: nat)
    ensures b < 101 ==> 100 * b <= us < 100 * b + 100
    ensures b <= 101 && (b == 101 <==> us >= 10100)
  {
    Min(us / BUCKET_US, BUCKET_COUNT - 1)
  }

  /** Cycles between two readings of the free-running 32-bit counter. */
  function Elapsed(from: nat, to: nat): nat {
    Wrap(to - from)
  }

  function CyclesToUs(cycles: nat, hertz: nat): nat
    requires hertz > 0
  {
    cycles * 1000000 / hertz
  }

  /** Microseconds in 32 bits, as great as they go. */
  function CappedUs(cycles: nat, hertz: nat): nat
    requires hertz > 0
  {
    Min(CyclesToUs(cycles, hertz), 0xFFFF_FFFF)
  }

  /** Microseconds past the deadline, none if it was met. */
  function LateUs(cycles: nat, hertz: nat): nat
    requires hertz > 0
  {
    var us := CyclesToUs(cycles, hertz);
    Min(if us > DEADLINE_US then us - DEADLINE_US else 0, 0xFFFF_FFFF)
  }

  function ReleaseUs(release: nat, start: nat, hertz: nat): nat
    requires hertz > 0
  {
    CappedUs(Elapsed(release, start), hertz)
  }

  function CompletionLateUs(release: nat, completion: nat, hertz: nat): nat
    requires hertz > 0
  {
    LateUs(Elapsed(release, completion), hertz)
  }

  /** The difference is right across a counter wrap, for spans below 2^32 cycles. */
  lemma ElapsedAcrossWrap(from: nat, to: nat)
    requires from <= to < from + RANGE
    ensures Elapsed(Wrap(from), Wrap(to)) == to - from
  {
    WrapDifference(to, from);
  }

  /** So many cycles last at least so many microseconds. */
  predicate Lasts(cycles: nat, us: nat, hertz: nat) {
    us * hertz <= cycles * 1000000
  }

  lemma LastsLess(cycles: nat, a: nat, b: nat, hertz: nat)
    requires a <= b && Lasts(cycles, b, hertz)
    ensures Lasts(cycles, a, hertz)
  {
    assert a * hertz <= b * hertz;
  }

  lemma ConvertsDown(cycles: nat, hertz: nat)
    requires hertz > 0
    ensures Lasts(cycles, CyclesToUs(cycles, hertz), hertz)
    ensures !Lasts(cycles, CyclesToUs(cycles, hertz) + 1, hertz)
  {
    var product := cycles * 1000000;
    var us := product / hertz;
    assert product == us * hertz + product % hertz;
    assert (us + 1) * hertz == us * hertz + hertz;
  }

  /** The capped conversion is rounded down, short of its cap. */
  ghost predicate RoundsDown(cycles: nat, us: nat, hertz: nat) {
    us <= 0xFFFF_FFFF && Lasts(cycles, us, hertz) && (us < 0xFFFF_FFFF ==> !Lasts(cycles, us + 1, hertz))
  }

  lemma CappedUsExactly(cycles: nat, hertz: nat)
    requires hertz > 0
    ensures RoundsDown(cycles, CappedUs(cycles, hertz), hertz)
  {
    ConvertsDown(cycles, hertz);
    LastsLess(cycles, CappedUs(cycles, hertz), CyclesToUs(cycles, hertz), hertz);
  }

  /** So many whole microseconds beyond 10000, short of the cap; zero if it is not beyond them. */
  ghost predicate ExceedsDeadline(cycles: nat, late: nat, hertz: nat) {
    && late <= 0xFFFF_FFFF && (late > 0 ==> Lasts(cycles, late + 10000, hertz))
    && (late < 0xFFFF_FFFF ==> !Lasts(cycles, late + 10001, hertz))
  }

  lemma LateUsExactly(cycles: nat, hertz: nat)
    requires hertz > 0
    ensures ExceedsDeadline(cycles, LateUs(cycles, hertz), hertz)
  {
    var us, late := CyclesToUs(cycles, hertz), LateUs(cycles, hertz);
    ConvertsDown(cycles, hertz);
    if late > 0 {
      LastsLess(cycles, late + 10000, us, hertz);
    }
    if late < 0xFFFF_FFFF && Lasts(cycles, late + 10001, hertz) {
      LastsLess(cycles, us + 1, late + 10001, hertz);
    }
  }

  lemma SamplesOfCycles(from: nat, to: nat, cycles: nat, hertz: nat)
    requires hertz > 0 && Elapsed(from, to) == cycles
    ensures RoundsDown(cycles, ReleaseUs(from, to, hertz), hertz)
    ensures ExceedsDeadline(cycles, CompletionLateUs(from, to, hertz), hertz)
  {
    CappedUsExactly(cycles, hertz);
    LateUsExactly(cycles, hertz);
  }

  /** Both kinds of sample measure the true interval, even if the cycle counter wrapped in between. */
  lemma SamplesExactly(release: nat, now: nat, releaseCycles: nat, nowCycles: nat, hertz: nat)
    requires hertz > 0 && release <= now < release + RANGE
    requires releaseCycles == Wrap(release) && nowCycles == Wrap(now)
    ensures RoundsDown(now - release, ReleaseUs(releaseCycles, nowCycles, hertz), hertz)
    ensures ExceedsDeadline(now - release, CompletionLateUs(releaseCycles, nowCycles, hertz), hertz)
  {
    ElapsedAcrossWrap(release, now);
    SamplesOfCycles(releaseCycles, nowCycles, now - release, hertz);
  }

  // ----- Counting ----------------------------------------------------------------

  /** How many values fall in bucket `b`. */
  function Count(values: seq<nat>, b: nat): nat {
    if values == [] then 0
    else Count(values[..|values| - 1], b) + if Bucket(values[|values| - 1]) == b then 1 else 0
  }

  /** How many values fall in a bucket before `b`. */
  function Below(values: seq<nat>, b: nat): nat {
    if values == [] then 0
    else Below(values[..|values| - 1], b) + if Bucket(values[|values| - 1]) < b then 1 else 0
  }

  /** The sum of the first `b` histogram entries. */
  function Prefix(hist: seq<nat>, b: nat): nat
    requires b <= |hist|
  {
    if b == 0 then 0 else Prefix(hist, b - 1) + hist[b - 1]
  }

  ghost predicate Counts(hist: seq<nat>, values: seq<nat>) {
    && |hist| == BUCKET_COUNT
    && forall b :: 0 <= b < BUCKET_COUNT ==> hist[b] == Wrap(Count(values, b))
  }

  lemma {:induction false} BelowNext(values: seq<nat>, b: nat)
    ensures Below(values, b + 1) == Below(values, b) + Count(values, b)
  {
    if values != [] {
      BelowNext(values[..|values| - 1], b);
    }
  }

  lemma {:induction false} BelowBounds(values: seq<nat>, b: nat)
    ensures b == 0 ==> Below(values, b) == 0
    ensures Below(values, b) <= |values| && Count(values, b) <= |values|
    ensures (forall i :: 0 <= i < |values| ==> Bucket(values[i]) < b) ==> Below(values, b) == |values|
    ensures (forall i :: 0 <= i < |values| ==> Bucket(values[i]) >= b) ==> Below(values, b) == 0
  {
    if values != [] {
      BelowBounds(values[..|values| - 1], b);
    }
  }

  lemma {:induction false} BelowMonotone(values: seq<nat>, a: nat, b: nat)
    requires a <= b
    ensures Below(values, a) <= Below(values, b)
  {
    if values != [] {
      BelowMonotone(values[..|values| - 1], a, b);
    }
  }

  lemma {:induction false} BelowConcat(first: seq<nat>, second: seq<nat>, b: nat)
    ensures Below(first + second, b) == Below(first, b) + Below(second, b)
  {
    if second == [] {
      assert first + second == first;
    } else {
      var shorter := second[..|second| - 1];
      assert (first + second)[..|first + second| - 1] == first + shorter;
      BelowConcat(first, shorter, b);
    }
  }

  /** Both histograms of fewer than 2^32 samples add up to the sample count. */
  lemma {:induction false} PrefixIsBelow(hist: seq<nat>, values: seq<nat>, b: nat)
    requires Counts(hist, values) && |values| < RANGE && b <= BUCKET_COUNT
    ensures Prefix(hist, b) == Below(values, b)
    ensures b == BUCKET_COUNT ==> Prefix(hist, b) == |values|
  {
    BelowBounds(values, b);
    if b > 0 {
      PrefixIsBelow(hist, values, b - 1);
      BelowNext(values, b - 1);
      BelowBounds(values, b - 1);
    }
  }

  // ----- Ranks and percentiles ---------------------------------------------------

  /** The rank as the firmware computes it, in 32-bit arithmetic. */
  function Rank(samples: nat, percentile: nat): nat {
    Wrap(Wrap(samples * percentile) + 99) / 100
  }

  /** The rank the nearest-rank percentile is defined by: samples * p / 100, rounded up. */
  ghost predicate IsNearestRank(samples: nat, percentile: nat, rank: nat) {
    100 * (rank - 1) < samples * percentile <= 100 * rank
  }

  /** Counting up through the buckets, `rank` is first reached in bucket `b`. */
  ghost predicate Lands(values: seq<nat>, rank: nat, b: nat) {
    b < BUCKET_COUNT && (b == 0 || Below(values, b) < rank) && rank <= Below(values, b + 1)
  }

  ghost predicate LandsIn(hist: seq<nat>, rank: nat, b: nat)
    requires |hist| == BUCKET_COUNT
  {
    b < BUCKET_COUNT && (b == 0 || Prefix(hist, b) < rank) && rank <= Prefix(hist, b + 1)
  }

  /** The estimate reported: the upper edge of the bucket the rank lands in. */
  ghost predicate IsEstimate(values: seq<nat>, percentile: nat, us: nat) {
    if values == [] then us == 0
    else exists b: nat :: Lands(values, Rank(|values|, percentile), b) && us == (b + 1) * BUCKET_US
  }

  /** The firmware's rank is the nearest rank exactly when the sum does not wrap. */
  lemma RankExactly(samples: nat, percentile: nat)
    requires 0 < samples < RANGE && 0 < percentile <= 100
    ensures IsNearestRank(samples, percentile, Rank(samples, percentile)) <==>
      samples * percentile + 99 < RANGE
  {
    var product := samples * percentile;
    assert 0 < product by { ProductBounds(samples, percentile); }
    if product < RANGE {
      assert Wrap(product) == product;
      if product + 99 >= RANGE {
        assert Wrap(product + 99) == product + 99 - RANGE;
      }
    } else {
      assert Wrap(product) < RANGE <= product;
      WrappedProduct(product);
    }
  }

  lemma ProductBounds(samples: nat, percentile: nat)
    requires 0 < samples && 0 < percentile <= 100
    ensures 0 < samples * percentile <= samples * 100
  {
  }

  lemma WrappedProduct(product: nat)
    requires product >= RANGE
    ensures Wrap(product) <= product - RANGE
    ensures !(product <= 100 * (Wrap(Wrap(product) + 99) / 100))
  {
    assert product - RANGE >= 0;
    assert Wrap(product) == Wrap(product - RANGE);
    assert Wrap(Wrap(product) + 99) <= Wrap(product) + 99;
  }

  /** Even a wrapped rank never exceeds the number of samples. */
  lemma RankWithinSamples(samples: nat, percentile: nat)
    requires 0 < samples && percentile <= 99
    ensures Rank(samples, percentile) <= samples
  {
    assert samples * percentile <= samples * 99;
    WrappedRankShrinks(samples * percentile);
  }

  lemma WrappedRankShrinks(product: nat)
    ensures Wrap(Wrap(product) + 99) / 100 <= (product + 99) / 100
  {
    assert Wrap(product) <= product;
    assert Wrap(Wrap(product) + 99) <= Wrap(product) + 99;
  }

  lemma LandsMonotone(values: seq<nat>, low: nat, high: nat, a: nat, b: nat)
    requires Lands(values, low, a) && Lands(values, high, b) && low <= high
    ensures a <= b
  {
    if b < a {
      BelowMonotone(values, b + 1, a);
    }
  }

  // ----- The estimate against the sorted samples ---------------------------------

  ghost predicate Sorted(values: seq<nat>) {
    forall i, j :: 0 <= i < j < |values| ==> values[i] <= values[j]
  }

  lemma BucketMonotone(a: nat, b: nat)
    requires a <= b
    ensures Bucket(a) <= Bucket(b)
  {
  }

  lemma EarlierBucketsCounted(sorted: seq<nat>, i: nat, b: nat)
    requires Sorted(sorted) && i < |sorted| && Bucket(sorted[i]) < b
    ensures i < Below(sorted, b)
  {
    var head, tail := sorted[..i + 1], sorted[i + 1..];
    forall j | 0 <= j < |head|
      ensures Bucket(head[j]) < b
    {
      BucketMonotone(head[j], sorted[i]);
    }
    BelowBounds(head, b);
    assert sorted == head + tail;
    BelowConcat(head, tail, b);
  }

  lemma LaterBucketsNotCounted(sorted: seq<nat>, i: nat, b: nat)
    requires Sorted(sorted) && i < |sorted| && Bucket(sorted[i]) >= b
    ensures Below(sorted, b) <= i
  {
    var head, tail := sorted[..i], sorted[i..];
    forall j | 0 <= j < |tail|
      ensures Bucket(tail[j]) >= b
    {
      BucketMonotone(sorted[i], tail[j]);
    }
    BelowBounds(tail, b);
    BelowBounds(head, b);
    assert sorted == head + tail;
    BelowConcat(head, tail, b);
  }

  /** In a sorted list the values of earlier buckets form a prefix. */
  lemma SortedSplitsAt(sorted: seq<nat>, i: nat, b: nat)
    requires Sorted(sorted) && i < |sorted|
    ensures Bucket(sorted[i]) < b <==> i < Below(sorted, b)
  {
    if Bucket(sorted[i]) < b {
      EarlierBucketsCounted(sorted, i, b);
    } else {
      LaterBucketsNotCounted(sorted, i, b);
    }
  }

  /** Taking one element out of a list. */
  lemma BelowWithout(t: seq<nat>, k: nat, b: nat)
    requires k < |t|
    ensures Below(t, b) == Below(t[..k] + t[k + 1..], b) + if Bucket(t[k]) < b then 1 else 0
    ensures multiset(t) == multiset(t[..k] + t[k + 1..]) + multiset{t[k]}
  {
    var head, tail := t[..k], t[k + 1..];
    assert t == head + [t[k]] + tail;
    BelowConcat(head, tail, b);
    BelowConcat(head + [t[k]], tail, b);
    assert (head + [t[k]])[..k] == head;
  }

  lemma {:induction false} BelowOfPermutation(s: seq<nat>, t: seq<nat>, b: nat)
    requires multiset(s) == multiset(t)
    ensures |s| == |t| && Below(s, b) == Below(t, b)
  {
    assert |s| == |multiset(s)| == |multiset(t)| == |t|;
    if s != [] {
      var x, shorter := s[|s| - 1], s[..|s| - 1];
      assert s == shorter + [x];
      assert x in multiset(t);
      var k :| 0 <= k < |t| && t[k] == x;
      BelowWithout(t, k, b);
      assert multiset(shorter) == multiset(s) - multiset{x};
      BelowOfPermutation(shorter, t[..k] + t[k + 1..], b);
    }
  }

  /**
   The percentile the firmware reports is the next multiple of 100 us above the
   nearest-rank element of the sorted samples, and 10200 from 10100 us on.
   */
  lemma EstimateHoldsRankedSample(values: seq<nat>, sorted: seq<nat>, percentile: nat, us: nat, rank: nat)
    requires Sorted(sorted) && multiset(sorted) == multiset(values)
    requires 0 < |values| <= RANK_LIMIT && 0 < percentile <= 99
    requires IsEstimate(values, percentile, us) && IsNearestRank(|values|, percentile, rank)
    ensures |sorted| == |values| && 0 < rank <= |values|
    ensures sorted[rank - 1] < 10100 ==> us % 100 == 0 && us - 100 <= sorted[rank - 1] < us
    ensures sorted[rank - 1] >= 10100 ==> us == 10200
  {
    var n := |values|;
    BelowOfPermutation(sorted, values, 0);
    NoWrapWithinLimit(n, percentile);
    RankExactly(n, percentile);
    RankWithinSamples(n, percentile);
    ProductBounds(n, percentile);
    assert rank == Rank(n, percentile);
    var b: nat :| Lands(values, rank, b) && us == (b + 1) * BUCKET_US;
    BelowOfPermutation(sorted, values, b);
    BelowOfPermutation(sorted, values, b + 1);
    SortedSplitsAt(sorted, rank - 1, b);
    SortedSplitsAt(sorted, rank - 1, b + 1);
    assert b == Bucket(sorted[rank - 1]);
  }

  lemma NoWrapWithinLimit(samples: nat, percentile: nat)
    requires samples <= RANK_LIMIT && percentile <= 99
    ensures samples * percentile + 99 < RANGE
  {
    assert samples * percentile <= RANK_LIMIT * 99;
  }

  // ----- The probe ---------------------------------------------------------------

  /** The record a read returns, printed for the host-side checker. */
  datatype TimingRecord = TimingRecord(
    samples: nat,
    releaseP50: nat, releaseP95: nat, releaseP99: nat, releaseMax: nat,
    completionP50: nat, completionP95: nat, completionP99: nat, completionMax: nat)

  /** What a record of these measurements must hold. */
  ghost predicate Describes(r: TimingRecord, releases: seq<nat>, completions: seq<nat>) {
    && r.samples == |releases| == |completions|
    && AreEstimates(releases, r.releaseP50, r.releaseP95, r.releaseP99)
    && IsMaximum(releases, r.releaseMax)
    && AreEstimates(completions, r.completionP50, r.completionP95, r.completionP99)
    && IsMaximum(completions, r.completionMax)
  }

  ghost predicate AreEstimates(values: seq<nat>, p50: nat, p95: nat, p99: nat) {
    IsEstimate(values, 50, p50) && IsEstimate(values, 95, p95) && IsEstimate(values, 99, p99)
  }

  ghost predicate IsMaximum(values: seq<nat>, max: nat) {
    && (forall i :: 0 <= i < |values| ==> values[i] <= max)
    && (if values == [] then max == 0 else max in values)
  }

  lemma CountNext(hist: seq<nat>, values: seq<nat>, us: nat)
    requires Counts(hist, values)
    ensures Counts(hist[Bucket(us) := Wrap(hist[Bucket(us)] + 1)], values + [us])
  {
    assert (values + [us])[..|values|] == values;
    var n := Count(values, Bucket(us));
    WrapAdd(n, 1);
  }

  /** The scan from a bucket on, with the cumulative count so far, in 32-bit arithmetic. */
  function ScanFrom(hist: seq<nat>, rank: nat, bucket: nat, cumulative: nat): nat
    requires bucket <= |hist|
    decreases |hist| - bucket
  {
    if bucket == |hist| then |hist| * BUCKET_US
    else
      var next := Wrap(cumulative + hist[bucket]);
      if next >= rank then (bucket + 1) * BUCKET_US else ScanFrom(hist, rank, bucket + 1, next)
  }

  function Percentile(hist: seq<nat>, samples: nat, percentile: nat): nat
    requires |hist| == BUCKET_COUNT
  {
    if samples == 0 then 0 else ScanFrom(hist, Rank(samples, percentile), 0, 0)
  }

  /** Scans the histogram for the bucket where the cumulative count reaches the rank. */
  method TimingPercentile(hist: array<nat>, samples: nat, percentile: nat) returns (us: nat)
    requires hist.Length == BUCKET_COUNT
    ensures us == Percentile(hist[..], samples, percentile)
  {
    if samples == 0 {
      return 0;
    }
    var rank := Rank(samples, percentile);
    var cumulative := 0;
    var bucket := 0;
    while bucket < BUCKET_COUNT
      invariant 0 <= bucket <= BUCKET_COUNT
      invariant ScanFrom(hist[..], rank, bucket, cumulative) == Percentile(hist[..], samples, percentile)
    {
      cumulative := Wrap(cumulative + hist[bucket]);
      if cumulative >= rank {
        return (bucket + 1) * BUCKET_US;
      }
      bucket := bucket + 1;
    }
    us := BUCKET_COUNT * BUCKET_US;
  }

  lemma {:induction false} PrefixMonotone(hist: seq<nat>, a: nat, b: nat)
    requires a <= b <= |hist|
    ensures Prefix(hist, a) <= Prefix(hist, b)
  {
    if a < b {
      PrefixMonotone(hist, a, b - 1);
    }
  }

  /** While the counts fit 32 bits, the scan ends in the bucket where the rank is first reached. */
  lemma {:induction false} ScanLands(hist: seq<nat>, rank: nat, bucket: nat) returns (b: nat)
    requires bucket < |hist| == BUCKET_COUNT
    requires rank <= Prefix(hist, BUCKET_COUNT) < RANGE && (bucket == 0 || Prefix(hist, bucket) < rank)
    ensures LandsIn(hist, rank, b) && ScanFrom(hist, rank, bucket, Prefix(hist, bucket)) == (b + 1) * BUCKET_US
    decreases |hist| - bucket
  {
    PrefixMonotone(hist, bucket + 1, BUCKET_COUNT);
    assert Prefix(hist, bucket + 1) == Prefix(hist, bucket) + hist[bucket];
    if Prefix(hist, bucket + 1) >= rank {
      b := bucket;
    } else {
      b := ScanLands(hist, rank, bucket + 1);
    }
  }

  lemma EstimateFromHistogram(hist: seq<nat>, values: seq<nat>, percentile: nat)
    requires Counts(hist, values) && |values| < RANGE && percentile <= 99
    ensures IsEstimate(values, percentile, Percentile(hist, |values|, percentile))
  {
    if values != [] {
      var rank := Rank(|values|, percentile);
      RankWithinSamples(|values|, percentile);
      PrefixIsBelow(hist, values, BUCKET_COUNT);
      var b := ScanLands(hist, rank, 0);
      PrefixIsBelow(hist, values, b);
      PrefixIsBelow(hist, values, b + 1);
      assert Lands(values, rank, b);
    }
  }

  lemma EstimatesFromHistogram(hist: seq<nat>, values: seq<nat>)
    requires Counts(hist, values) && |values| < RANGE
    ensures AreEstimates(values, Percentile(hist, |values|, 50), Percentile(hist, |values|, 95),
                         Percentile(hist, |values|, 99))
  {
    EstimateFromHistogram(hist, values, 50);
    EstimateFromHistogram(hist, values, 95);
    EstimateFromHistogram(hist, values, 99);
  }

  class TimingProbe {
    var samples: nat
    var releaseHist: array<nat>
    var completionHist: array<nat>
    var releaseMaxUs: nat
    var completionMaxUs: nat

    /** Every measurement recorded since the last reset. */
    ghost var releases: seq<nat>
    ghost var completions: seq<nat>

    ghost predicate Valid()
      reads this, releaseHist, completionHist
    {
      && releaseHist != completionHist
      && |releases| == |completions|
      && samples == Wrap(|releases|)
      && Counts(releaseHist[..], releases)
      && Counts(completionHist[..], completions)
      && IsMaximum(releases, releaseMaxUs)
      && IsMaximum(completions, completionMaxUs)
    }

    constructor ()
      ensures Valid() && fresh(releaseHist) && fresh(completionHist)
      ensures releases == [] && completions == []
    {
      samples := 0;
      releaseHist := new nat[BUCKET_COUNT](_ => 0);
      completionHist := new nat[BUCKET_COUNT](_ => 0);
      releaseMaxUs := 0;
      completionMaxUs := 0;
      releases := [];
      completions := [];
    }

    method Record(releaseCycles: nat, startCycles: nat, completionCycles: nat, hertz: nat)
      requires Valid() && hertz > 0
      modifies this, releaseHist, completionHist
      ensures Valid() && releaseHist == old(releaseHist) && completionHist == old(completionHist)
      ensures releases == old(releases) + [ReleaseUs(releaseCycles, startCycles, hertz)]
      ensures completions == old(completions) + [CompletionLateUs(releaseCycles, completionCycles, hertz)]
    {
      Tally(ReleaseUs(releaseCycles, startCycles, hertz),
            CompletionLateUs(releaseCycles, completionCycles, hertz));
    }

    /** The part of recording that runs under the probe's lock. */
    method Tally(releaseUs: nat, completionLateUs: nat)
      requires Valid()
      modifies this, releaseHist, completionHist
      ensures Valid() && releaseHist == old(releaseHist) && completionHist == old(completionHist)
      ensures releases == old(releases) + [releaseUs]
      ensures completions == old(completions) + [completionLateUs]
    {
      CountNext(releaseHist[..], releases, releaseUs);
      CountNext(completionHist[..], completions, completionLateUs);
      WrapAdd(|releases|, 1);
      var releaseBucket, completionBucket := Bucket(releaseUs), Bucket(completionLateUs);
      samples := Wrap(samples + 1);
      releaseHist[releaseBucket] := Wrap(releaseHist[releaseBucket] + 1);
      completionHist[completionBucket] := Wrap(completionHist[completionBucket] + 1);
      releaseMaxUs := Max(releaseMaxUs, releaseUs);
      completionMaxUs := Max(completionMaxUs, completionLateUs);
      releases := releases + [releaseUs];
      completions := completions + [completionLateUs];
    }

    /** The three percentiles of one histogram. */
    method Estimates(hist: array<nat>) returns (p50: nat, p95: nat, p99: nat)
      requires hist.Length == BUCKET_COUNT
      ensures p50 == Percentile(hist[..], samples, 50)
      ensures p95 == Percentile(hist[..], samples, 95)
      ensures p99 == Percentile(hist[..], samples, 99)
    {
      p50 := TimingPercentile(hist, samples, 50);
      p95 := TimingPercentile(hist, samples, 95);
      p99 := TimingPercentile(hist, samples, 99);
    }

    /**
     A read copies the counters and scans both histograms; below 2^32 samples it describes
     exactly the measurements recorded, and the maxima are right for any number.
     */
    method Read() returns (r: TimingRecord)
      requires Valid()
      ensures r == TimingRecord(samples,
        Percentile(releaseHist[..], samples, 50), Percentile(releaseHist[..], samples, 95),
        Percentile(releaseHist[..], samples, 99), releaseMaxUs,
        Percentile(completionHist[..], samples, 50), Percentile(completionHist[..], samples, 95),
        Percentile(completionHist[..], samples, 99), completionMaxUs)
      ensures r.samples == Wrap(|releases|)
      ensures IsMaximum(releases, r.releaseMax) && IsMaximum(completions, r.completionMax)
      ensures |releases| < RANGE ==> Describes(r, releases, completions)
    {
      var releaseP50, releaseP95, releaseP99 := Estimates(releaseHist);
      var completionP50, completionP95, completionP99 := Estimates(completionHist);
      r := TimingRecord(samples, releaseP50, releaseP95, releaseP99, releaseMaxUs,
                         completionP50, completionP95, completionP99, completionMaxUs);
      if |releases| < RANGE {
        EstimatesFromHistogram(releaseHist[..], releases);
        EstimatesFromHistogram(completionHist[..], completions);
      }
    }
  }

  // ----- Percentile order --------------------------------------------------------

  /** The ranks keep their order; a caller can test this from the sample count alone. */
  predicate RanksOrdered(samples: nat) {
    Rank(samples, 50) <= Rank(samples, 95) <= Rank(samples, 99)
  }

  ghost predicate EstimatesOrdered(values: seq<nat>) {
    forall p50, p95, p99 ::
      AreEstimates(values, p50, p95, p99) ==> p50 <= p95 <= p99
  }

  lemma EstimateMonotone(values: seq<nat>, p: nat, q: nat, low: nat, high: nat)
    requires IsEstimate(values, p, low) && IsEstimate(values, q, high)
    requires values == [] || Rank(|values|, p) <= Rank(|values|, q)
    ensures low <= high
  {
    if values != [] {
      var a: nat :| Lands(values, Rank(|values|, p), a) && low == (a + 1) * BUCKET_US;
      var b: nat :| Lands(values, Rank(|values|, q), b) && high == (b + 1) * BUCKET_US;
      LandsMonotone(values, Rank(|values|, p), Rank(|values|, q), a, b);
    }
  }

  /** `low` samples of 0 us followed by samples of 100 us. */
  function TwoLevels(low: nat, samples: nat): seq<nat>
    requires low <= samples
  {
    seq(low, _ => 0) + seq(samples - low, _ => 100)
  }

  lemma TwoLevelsBelow(low: nat, samples: nat)
    requires low <= samples
    ensures Below(TwoLevels(low, samples), 0) == 0
    ensures Below(TwoLevels(low, samples), 1) == low
    ensures Below(TwoLevels(low, samples), 2) == samples
  {
    var zeros: seq<nat>, hundreds: seq<nat> := seq(low, _ => 0), seq(samples - low, _ => 100);
    BelowBounds(zeros + hundreds, 0);
    BelowBounds(zeros, 1);
    BelowBounds(hundreds, 1);
    BelowConcat(zeros, hundreds, 1);
    BelowBounds(zeros + hundreds, 2);
  }

  /** A rank out of order shows up in the estimates of some measurements. */
  lemma DisorderWitness(samples: nat, p: nat, q: nat)
    requires 0 < samples && p <= 99 && q <= 99 && Rank(samples, p) > Rank(samples, q)
    ensures Rank(samples, q) <= samples
    ensures IsEstimate(TwoLevels(Rank(samples, q), samples), p, 200)
    ensures IsEstimate(TwoLevels(Rank(samples, q), samples), q, 100)
  {
    RankWithinSamples(samples, p);
    RankWithinSamples(samples, q);
    var values := TwoLevels(Rank(samples, q), samples);
    TwoLevelsBelow(Rank(samples, q), samples);
    assert Lands(values, Rank(samples, p), 1);
    assert Lands(values, Rank(samples, q), 0);
  }

  lemma {:induction false} EstimateExists(values: seq<nat>, percentile: nat) returns (us: nat)
    requires percentile <= 99
    ensures IsEstimate(values, percentile, us)
  {
    if values == [] {
      us := 0;
    } else {
      var rank := Rank(|values|, percentile);
      RankWithinSamples(|values|, percentile);
      BelowBounds(values, BUCKET_COUNT);
      var b := 0;
      while rank > Below(values, b + 1)
        invariant 0 <= b < BUCKET_COUNT
        invariant b == 0 || Below(values, b) < rank
        decreases BUCKET_COUNT - b
      {
        b := b + 1;
      }
      assert Lands(values, rank, b);
      us := (b + 1) * BUCKET_US;
    }
  }

  /**
   For a given sample count the estimates of all possible measurements are
   ordered exactly when the three computed ranks are.
   */
  lemma OrderExactly(samples: nat)
    requires 0 < samples
    ensures RanksOrdered(samples) <==>
      forall values: seq<nat> :: |values| == samples ==> EstimatesOrdered(values)
  {
    if RanksOrdered(samples) {
      forall values: seq<nat>, p50, p95, p99 | |values| == samples && AreEstimates(values, p50, p95, p99)
        ensures p50 <= p95 <= p99
      {
        EstimateMonotone(values, 50, 95, p50, p95);
        EstimateMonotone(values, 95, 99, p95, p99);
      }
    } else if Rank(samples, 50) > Rank(samples, 95) {
      DisorderWitness(samples, 50, 95);
      var values := TwoLevels(Rank(samples, 95), samples);
      var p99 := EstimateExists(values, 99);
      assert AreEstimates(values, 200, 100, p99);
      assert !EstimatesOrdered(values);
    } else {
      DisorderWitness(samples, 95, 99);
      var values := TwoLevels(Rank(samples, 99), samples);
      var p50 := EstimateExists(values, 50);
      assert AreEstimates(values, p50, 200, 100);
      assert !EstimatesOrdered(values);
    }
  }

  lemma RankWithinLimit(samples: nat, percentile: nat)
    requires samples <= RANK_LIMIT && percentile <= 99
    ensures Rank(samples, percentile) == (samples * percentile + 99) / 100
  {
    NoWrapWithinLimit(samples, percentile);
    var product := samples * percentile;
    assert Wrap(product) == product && Wrap(product + 99) == product + 99;
  }

  lemma RanksOrderedWithinLimit(samples: nat)
    requires 0 < samples <= RANK_LIMIT
    ensures RanksOrdered(samples)
  {
    RankWithinLimit(samples, 50);
    RankWithinLimit(samples, 95);
    RankWithinLimit(samples, 99);
  }

  /** Up to the limit the host checker never rejects a record's percentile order. */
  lemma CheckerAcceptsOrder(r: TimingRecord, releases: seq<nat>, completions: seq<nat>)
    requires Describes(r, releases, completions) && |releases| <= RANK_LIMIT
    ensures r.releaseP50 <= r.releaseP95 <= r.releaseP99
    ensures r.completionP50 <= r.completionP95 <= r.completionP99
  {
    if releases != [] {
      RanksOrderedWithinLimit(|releases|);
    }
    EstimateMonotone(releases, 50, 95, r.releaseP50, r.releaseP95);
    EstimateMonotone(releases, 95, 99, r.releaseP95, r.releaseP99);
    EstimateMonotone(completions, 50, 95, r.completionP50, r.completionP95);
    EstimateMonotone(completions, 95, 99, r.completionP95, r.completionP99);
  }

  /** One sample past the limit the 99th-percentile rank wraps to zero and the order breaks. */
  lemma OrderFailsPastLimit()
    ensures !RanksOrdered(RANK_LIMIT + 1)
    ensures exists values: seq<nat> :: |values| == RANK_LIMIT + 1 && !EstimatesOrdered(values)
  {
    var product := (RANK_LIMIT + 1) * 99;
    assert Wrap(product) == product;
    assert Wrap(product + 99) == product + 99 - RANGE == 95;
    assert Rank(RANK_LIMIT + 1, 99) == 0;
    assert Rank(RANK_LIMIT + 1, 95) > 0;
    OrderExactly(RANK_LIMIT + 1);
  }

  /** No estimate lies more than one bucket above the recorded maximum, wrapped or not. */
  lemma EstimateBelowMaximum(values: seq<nat>, max: nat, percentile: nat, us: nat)
    requires IsMaximum(values, max) && IsEstimate(values, percentile, us)
    ensures us <= max + 100 && us <= 10200
  {
    if values != [] {
      var b: nat :| Lands(values, Rank(|values|, percentile), b) && us == (b + 1) * BUCKET_US;
      if b > Bucket(max) {
        forall i | 0 <= i < |values|
          ensures Bucket(values[i]) < b
        {
          BucketMonotone(values[i], max);
        }
        BelowBounds(values, b);
        BelowBounds(values, b + 1);
        assert false;
      }
    }
  }
}
