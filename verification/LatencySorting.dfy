/** The two percentiles that sort their samples, and how the three percentiles compare. */
module LatencySorting {
  import opened Words
  import opened Ranks
  import opened LatencyTracker

  // ---------------------------------------------------------------- sorting in place

  /** The sample at the whole part of `p / 100 * (count - 1)`. */
  function InPlace(s: seq<real>, p: real): real
    requires 0.0 <= p <= 100.0
  {
    if s == [] then 0.0
    else
      TargetBound(|s| - 1, p / 100.0);
      Kth(OfReal, s, Target(|s| - 1, p / 100.0) + 1)
  }

  lemma TargetBound(n: nat, q: real)
    requires 0.0 <= q <= 1.0
    ensures Target(n, q) <= n
  {
    assert n as real * q <= n as real;
  }

  /** If k is the whole part of `p / 100 * (count - 1)`, then `r` is the sample after the k smallest. */
  predicate InPlaceAnswer(s: seq<real>, p: real, k: nat, r: real) {
    if s == [] then r == 0.0
    else
      k as real <= p / 100.0 * (|s| - 1) as real < (k + 1) as real ==>
        k < |s| && IsKth(OfReal, s, k + 1, r)
  }

  lemma InPlaceRank(s: seq<real>, p: real, k: nat)
    requires 0.0 <= p <= 100.0
    ensures InPlaceAnswer(s, p, k, InPlace(s, p))
  {
    hide Target, Kth, IsKth;
    if s != [] && k as real <= p / 100.0 * (|s| - 1) as real < (k + 1) as real {
      var q := p / 100.0;
      Commute(q, (|s| - 1) as real);
      TargetIsWholePart(|s| - 1, q, k);
      TargetBound(|s| - 1, q);
      KthIsKth(OfReal, s, k + 1);
    }
  }

  lemma Commute(x: real, y: real)
    ensures x * y == y * x
  {
  }

  lemma InPlaceRanks(s: seq<real>, p: real)
    requires 0.0 <= p <= 100.0
    ensures forall k: nat :: InPlaceAnswer(s, p, k, InPlace(s, p))
  {
    hide InPlace, InPlaceAnswer;
    forall k: nat ensures InPlaceAnswer(s, p, k, InPlace(s, p)) {
      InPlaceRank(s, p, k);
    }
  }

  class SampleHistogram {
    var samples: seq<real>

    constructor ()
      ensures samples == []
    {
      samples := [];
    }

    method Record(latency: real)
      modifies this
      ensures samples == old(samples) + [latency]
    {
      samples := samples + [latency];
    }

    method Clear()
      modifies this
      ensures samples == []
    {
      samples := [];
    }

    method Percentile(p: real) returns (r: real)
      requires 0.0 <= p <= 100.0
      modifies this
      ensures r == InPlace(old(samples), p)
      ensures forall k: nat :: InPlaceAnswer(old(samples), p, k, r)
      ensures samples == if old(samples) == [] then [] else Sort(OfReal, old(samples))
    {
      hide Target, InPlaceAnswer;
      InPlaceRanks(samples, p);
      if samples == [] {
        return 0.0;
      }
      samples := Sort(OfReal, samples);
      var idx := Target(|samples| - 1, p / 100.0);
      TargetBound(|samples| - 1, p / 100.0);
      return samples[idx];
    }
  }

  /** Sorting the samples for one percentile leaves every later percentile as it was. */
  lemma SortedInPlace(s: seq<real>, p: real)
    requires 0.0 <= p <= 100.0
    ensures InPlace(Sort(OfReal, s), p) == InPlace(s, p)
  {
    hide Target, Kth;
    if s != [] {
      TargetBound(|s| - 1, p / 100.0);
      SortIsSorting(OfReal, s);
      KthOfMultiset(OfReal, s, Sort(OfReal, s), Target(|s| - 1, p / 100.0) + 1);
    }
  }

  // ---------------------------------------------------------------- sorting a copy

  /** The sample at the whole part of `p * count`, or the last one. */
  function Copied(s: Samples, p: real): nat
    requires 0.0 <= p
  {
    if s == [] then 0 else Kth(OfNat, s, Min(Target(|s|, p), |s| - 1) + 1)
  }

  /** If k is the whole part of `p * count`, then `r` is the sample after the k smallest, or the last one. */
  predicate CopyAnswer(s: Samples, p: real, k: nat, r: nat) {
    if s == [] then r == 0
    else
      k as real <= p * |s| as real < (k + 1) as real ==>
        IsKth(OfNat, s, if k < |s| then k + 1 else |s|, r)
  }

  lemma CopiedRank(s: Samples, p: real, k: nat)
    requires 0.0 <= p
    ensures CopyAnswer(s, p, k, Copied(s, p))
  {
    hide Target, Kth, IsKth;
    if s != [] && k as real <= p * |s| as real < (k + 1) as real {
      Commute(p, |s| as real);
      TargetIsWholePart(|s|, p, k);
      KthIsKth(OfNat, s, Min(k, |s| - 1) + 1);
    }
  }

  lemma CopiedRanks(s: Samples, p: real)
    requires 0.0 <= p
    ensures forall k: nat :: CopyAnswer(s, p, k, Copied(s, p))
  {
    hide Copied, CopyAnswer;
    forall k: nat ensures CopyAnswer(s, p, k, Copied(s, p)) {
      CopiedRank(s, p, k);
    }
  }

  class LatencyStats {
    var min: nat
    var max: nat
    var sum: nat
    var count: nat
    var samples: Samples

    ghost predicate Valid()
      reads this
    {
      && min == Smallest(samples)
      && max == Largest(samples)
      && sum == Sum(samples) % MODULUS
      && count == |samples| % MODULUS
    }

    constructor ()
      ensures Valid() && samples == []
    {
      min, max, sum, count := MODULUS - 1, 0, 0, 0;
      samples := [];
    }

    method Record(latency: nat)
      requires Valid() && latency < MODULUS
      modifies this
      ensures Valid() && samples == old(samples) + [latency]
      ensures count == (old(count) + 1) % MODULUS && sum == (old(sum) + latency) % MODULUS
    {
      hide Smallest, Largest, Sum;
      Recorded(samples, latency);
      AddWraps(Sum(samples), latency);
      AddWraps(|samples|, 1);
      min := Min(min, latency);
      max := if max < latency then latency else max;
      sum := Add(sum, latency);
      count := Add(count, 1);
      samples := samples + [latency];
    }

    method Percentile(p: real) returns (r: nat)
      requires 0.0 <= p
      ensures r == Copied(samples, p)
      ensures forall k: nat :: CopyAnswer(samples, p, k, r)
    {
      hide Target, CopyAnswer;
      CopiedRanks(samples, p);
      if samples == [] {
        return 0;
      }
      var sorted := samples;
      sorted := Sort(OfNat, sorted);
      var idx := Target(|sorted|, p);
      if idx >= |sorted| {
        idx := |sorted| - 1;
      }
      return sorted[idx];
    }
  }

  // ---------------------------------------------------------------- comparison

  lemma TargetSteps(n: nat, q: real)
    requires 0.0 <= q <= 1.0 && n >= 1
    ensures Target(n - 1, q) <= Target(n, q) <= Target(n - 1, q) + 1
  {
    assert n as real * q == (n - 1) as real * q + q;
  }

  lemma PercentOfHundred(q: real)
    requires 0.0 <= q <= 1.0
    ensures 0.0 <= 100.0 * q <= 100.0 && 100.0 * q / 100.0 == q
  {
  }

  /** The samples of the integer histograms as the floating-point one would hold them. */
  function AsReals(s: Samples): (r: seq<real>)
    ensures |r| == |s|
  {
    seq(|s|, (i: nat) requires i < |s| => OfNat(s[i]))
  }

  lemma {:induction false} SameCounts(s: Samples, x: real)
    ensures AtMost(OfReal, AsReals(s), x) == AtMost(OfNat, s, x)
    ensures Below(OfReal, AsReals(s), x) == Below(OfNat, s, x)
  {
    if s != [] {
      var n := |s| - 1;
      SameCounts(s[..n], x);
      assert AsReals(s)[..n] == AsReals(s[..n]);
    }
  }

  lemma SameKth(s: Samples, k: nat)
    requires 1 <= k <= |s|
    ensures Kth(OfReal, AsReals(s), k) == OfNat(Kth(OfNat, s, k))
  {
    hide Kth, AtMost, Below, AsReals;
    var v := Kth(OfNat, s, k);
    KthIsKth(OfNat, s, k);
    SameCounts(s, OfNat(v));
    KthIffIsKth(OfReal, AsReals(s), k, OfNat(v));
  }

  /** On the same samples, the bucketed percentile is the lowest and the copying one the highest. */
  lemma PercentilesOrdered(s: Samples, q: real)
    requires 0.0 <= q <= 1.0
    ensures 0.0 <= 100.0 * q <= 100.0
    ensures Bucketed(s, q) <= NUM_BUCKETS - 1
    ensures OfNat(Bucketed(s, q)) <= InPlace(AsReals(s), 100.0 * q) <= OfNat(Copied(s, q))
  {
    hide Target, Kth, AsReals;
    PercentOfHundred(q);
    if s != [] {
      var n := |s|;
      TargetSteps(n, q);
      TargetBound(n, q);
      TargetBound(n - 1, q);
      var low, mid, high := Target(n, q), Target(n - 1, q) + 1, Min(Target(n, q), n - 1) + 1;
      SameKth(s, mid);
      if low > 0 {
        KthMonotone(OfNat, s, low, mid);
      }
      KthMonotone(OfNat, s, mid, high);
    }
  }

  /**
   What the bucketed percentile returns, by counting alone: fewer than k samples are below it, and at
   least k are at most it, unless it is the last bucket, which stands for everything above.
   */
  lemma BucketedByCounting(s: Samples, q: real, k: nat, r: nat)
    requires 0.0 <= q <= 1.0 && k >= 1 && k as real <= |s| as real * q < (k + 1) as real
    ensures r == Bucketed(s, q) <==>
      (|| (r < NUM_BUCKETS - 1 && IsKth(OfNat, s, k, r))
       || (r == NUM_BUCKETS - 1 && Below(OfNat, s, OfNat(NUM_BUCKETS - 1)) < k))
  {
    hide Target, Kth, AtMost, Below;
    TargetBound(|s|, q);
    TargetIsWholePart(|s|, q, k);
    var v := Kth(OfNat, s, k);
    KthIsKth(OfNat, s, k);
    KthIffIsKth(OfNat, s, k, r);
    if v < NUM_BUCKETS - 1 {
      CountsOrdered(OfNat, s, OfNat(v), OfNat(NUM_BUCKETS - 1));
    } else {
      CountsOrdered(OfNat, s, OfNat(NUM_BUCKETS - 1), OfNat(v));
    }
  }
}
