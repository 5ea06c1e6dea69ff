/** The bucketed latency histogram. */
module LatencyTracker {
  import opened Words
  import opened Ranks

  type Samples = seq<nat>

  const NUM_BUCKETS: nat := 1024

  /** The recorded samples whose bucket is `i`: the last bucket takes everything above. */
  function InBucket(s: Samples, i: nat): nat {
    if s == [] then 0
    else InBucket(s[..|s| - 1], i) + (if Min(s[|s| - 1], NUM_BUCKETS - 1) == i then 1 else 0)
  }

  function Sum(s: Samples): nat {
    if s == [] then 0 else Sum(s[..|s| - 1]) + s[|s| - 1]
  }

  function Smallest(s: Samples): nat {
    if s == [] then MODULUS - 1 else Min(Smallest(s[..|s| - 1]), s[|s| - 1])
  }

  function Largest(s: Samples): nat {
    if s == [] then 0
    else if s[|s| - 1] > Largest(s[..|s| - 1]) then s[|s| - 1] else Largest(s[..|s| - 1])
  }

  lemma {:induction false} SmallestCounts(s: Samples, x: nat)
    requires forall i :: 0 <= i < |s| ==> s[i] < MODULUS
    ensures x <= Smallest(s) ==> Below(OfNat, s, OfNat(x)) == 0
    ensures x >= Smallest(s) && s != [] ==> AtMost(OfNat, s, OfNat(x)) >= 1
  {
    if s != [] {
      var rest, last := s[..|s| - 1], s[|s| - 1];
      SmallestCounts(rest, x);
      assert last < MODULUS && Smallest([]) == MODULUS - 1;
    }
  }

  lemma {:induction false} LargestCounts(s: Samples, x: nat)
    ensures x >= Largest(s) ==> AtMost(OfNat, s, OfNat(x)) == |s|
    ensures x <= Largest(s) && s != [] ==> Below(OfNat, s, OfNat(x)) < |s|
  {
    if s != [] {
      var rest := s[..|s| - 1];
      LargestCounts(rest, x);
      CountsOrdered(OfNat, rest, OfNat(x), OfNat(x));
      assert Largest([]) == 0;
    }
  }

  /** The two extremes kept are the first and the last order statistic. */
  lemma ExtremesAreRanks(s: Samples)
    requires s != [] && forall i :: 0 <= i < |s| ==> s[i] < MODULUS
    ensures Smallest(s) == Kth(OfNat, s, 1) && Largest(s) == Kth(OfNat, s, |s|)
  {
    hide Kth, Smallest, Largest, AtMost, Below;
    SmallestCounts(s, Smallest(s));
    LargestCounts(s, Largest(s));
    KthIffIsKth(OfNat, s, 1, Smallest(s));
    KthIffIsKth(OfNat, s, |s|, Largest(s));
  }

  /** How many samples the buckets up to `i` hold. */
  function UpTo(s: Samples, i: nat): nat {
    if i == 0 then 0 else UpTo(s, i - 1) + InBucket(s, i - 1)
  }

  lemma {:induction false} UpToSnoc(s: Samples, i: nat)
    requires s != []
    ensures UpTo(s, i) == UpTo(s[..|s| - 1], i) + (if Min(s[|s| - 1], NUM_BUCKETS - 1) < i then 1 else 0)
  {
    if i > 0 { UpToSnoc(s, i - 1); }
  }

  /** The buckets below `i` hold the samples below `i`, and all buckets hold all samples. */
  lemma {:induction false} UpToIsBelow(s: Samples, i: nat)
    requires i <= NUM_BUCKETS
    ensures UpTo(s, i) == if i < NUM_BUCKETS then Below(OfNat, s, OfNat(i)) else |s|
    decreases |s|
  {
    if s == [] {
      UpToNone(i);
    } else {
      UpToSnoc(s, i);
      UpToIsBelow(s[..|s| - 1], i);
    }
  }

  lemma {:induction false} UpToNone(i: nat)
    ensures UpTo([], i) == 0
  {
    if i > 0 { UpToNone(i - 1); }
  }

  /** The bucket at which `target` samples are first accumulated. */
  lemma FirstBucket(s: Samples, target: nat, i: nat)
    requires i < NUM_BUCKETS && target <= UpTo(s, i + 1) && (i > 0 ==> UpTo(s, i) < target)
    ensures target <= |s|
    ensures i == if target == 0 then 0 else Min(Kth(OfNat, s, target), NUM_BUCKETS - 1)
  {
    hide Kth, UpTo, Below, AtMost;
    UpToIsBelow(s, i);
    UpToIsBelow(s, i + 1);
    UpToFirst(s);
    CountsOrdered(OfNat, s, OfNat(i + 1), OfNat(i + 1));
    if target > 0 {
      var v := Kth(OfNat, s, target);
      KthIsKth(OfNat, s, target);
      if v < i {
        CountsOrdered(OfNat, s, OfNat(v), OfNat(i));
      } else if i < v && i < NUM_BUCKETS - 1 {
        CountsOrdered(OfNat, s, OfNat(i + 1), OfNat(v));
      }
    }
  }

  lemma UpToFirst(s: Samples)
    ensures UpTo(s, 0) == 0
  {
  }

  lemma UpToLast(s: Samples)
    ensures UpTo(s, NUM_BUCKETS) == |s|
  {
    UpToIsBelow(s, NUM_BUCKETS);
  }

  lemma UpToBound(s: Samples, i: nat)
    requires i < NUM_BUCKETS
    ensures UpTo(s, i) + InBucket(s, i) == UpTo(s, i + 1) <= |s|
  {
    UpToIsBelow(s, i + 1);
    CountsOrdered(OfNat, s, OfNat(i + 1), OfNat(i + 1));
  }

  lemma Recorded(s: Samples, x: nat)
    ensures forall i :: 0 <= i < NUM_BUCKETS ==>
      InBucket(s + [x], i) == InBucket(s, i) + (if Min(x, NUM_BUCKETS - 1) == i then 1 else 0)
    ensures Sum(s + [x]) == Sum(s) + x && Smallest(s + [x]) == Min(Smallest(s), x)
    ensures Largest(s + [x]) == if x > Largest(s) then x else Largest(s)
  {
    assert (s + [x])[..|s + [x]| - 1] == s;
  }

  /** The whole part of `n * p`. */
  function Target(n: nat, p: real): (k: nat)
    requires 0.0 <= p
  {
    assert n as real * p >= 0.0;
    (n as real * p).Floor
  }

  /**
   The k-th smallest sample, k the whole part of `count * p`, cut off at the last bucket; the first
   bucket for k = 0, and the last one for a k beyond the samples.
   */
  function Bucketed(s: Samples, p: real): nat
    requires 0.0 <= p
  {
    var k := Target(|s|, p);
    if s == [] || k == 0 then 0
    else if k > |s| then NUM_BUCKETS - 1
    else Min(Kth(OfNat, s, k), NUM_BUCKETS - 1)
  }

  lemma TargetIsWholePart(n: nat, p: real, k: nat)
    requires 0.0 <= p && k as real <= n as real * p < (k + 1) as real
    ensures Target(n, p) == k
  {
  }

  /**
   If k is the whole part of `count * p`, then `r` is what the buckets can tell of the k-th smallest sample: the
   sample itself below the last bucket, and the last bucket for any sample from there on; the first bucket for
   k = 0, and the last for a k beyond the samples.
   */
  predicate BucketAnswer(s: Samples, p: real, k: nat, r: nat) {
    k as real <= |s| as real * p < (k + 1) as real ==>
      if s == [] || k == 0 then r == 0
      else if k > |s| then r == 1023
      else (r < 1023 && IsKth(OfNat, s, k, r)) || (r == 1023 && Below(OfNat, s, 1023.0) < k)
  }

  lemma BucketedRank(s: Samples, p: real, k: nat)
    requires 0.0 <= p
    ensures BucketAnswer(s, p, k, Bucketed(s, p))
  {
    hide Target, Kth, AtMost, Below;
    if k as real <= |s| as real * p < (k + 1) as real {
      TargetIsWholePart(|s|, p, k);
      if s != [] && 1 <= k <= |s| {
        var v := Kth(OfNat, s, k);
        KthIsKth(OfNat, s, k);
        if v >= 1023 {
          CountsOrdered(OfNat, s, 1023.0, OfNat(v));
        }
      }
    }
  }

  lemma BucketedRanks(s: Samples, p: real)
    requires 0.0 <= p
    ensures forall k: nat :: BucketAnswer(s, p, k, Bucketed(s, p))
  {
    hide BucketAnswer, Bucketed;
    forall k: nat ensures BucketAnswer(s, p, k, Bucketed(s, p)) {
      BucketedRank(s, p, k);
    }
  }

  lemma BucketedOfNone(p: real)
    requires 0.0 <= p
    ensures Bucketed([], p) == 0
  {
  }

  lemma BucketedFound(s: Samples, p: real, i: nat)
    requires 0.0 <= p && s != [] && i < NUM_BUCKETS
    requires Target(|s|, p) <= UpTo(s, i + 1) && (i > 0 ==> UpTo(s, i) < Target(|s|, p))
    ensures i == Bucketed(s, p)
  {
    hide Target, UpTo, Kth;
    FirstBucket(s, Target(|s|, p), i);
  }

  lemma BucketedMissed(s: Samples, p: real)
    requires 0.0 <= p && s != [] && UpTo(s, NUM_BUCKETS) < Target(|s|, p)
    ensures Bucketed(s, p) == NUM_BUCKETS - 1
  {
    hide Target, UpTo;
    UpToLast(s);
  }

  class LatencyHistogram {
    const buckets: array<nat>
    var count: nat
    var min: nat
    var max: nat
    var sum: nat
    ghost var samples: Samples

    ghost predicate Valid()
      reads this, buckets
    {
      && buckets.Length == NUM_BUCKETS
      && (forall i :: 0 <= i < NUM_BUCKETS ==> buckets[i] == InBucket(samples, i) % MODULUS)
      && count == |samples| % MODULUS
      && sum == Sum(samples) % MODULUS
      && min == Smallest(samples)
      && max == Largest(samples)
    }

    constructor ()
      ensures Valid() && samples == [] && fresh(buckets)
    {
      buckets := new nat[NUM_BUCKETS];
      count, min, max, sum := 0, MODULUS - 1, 0, 0;
      samples := [];
      new;
      var i := 0;
      while i < NUM_BUCKETS
        invariant 0 <= i <= NUM_BUCKETS
        invariant forall j :: 0 <= j < i ==> buckets[j] == 0
        invariant count == 0 && min == MODULUS - 1 && max == 0 && sum == 0 && samples == []
      {
        buckets[i] := 0;
        i := i + 1;
      }
    }

    method Record(cycles: nat)
      requires Valid() && cycles < MODULUS
      modifies this, buckets
      ensures Valid() && samples == old(samples) + [cycles]
      ensures count == (old(count) + 1) % MODULUS && sum == (old(sum) + cycles) % MODULUS
    {
      hide InBucket, Sum, Smallest, Largest;
      Recorded(samples, cycles);
      count := Add(count, 1);
      sum := Add(sum, cycles);
      if cycles < min { min := cycles; }
      if cycles > max { max := cycles; }
      var bucket := if cycles < NUM_BUCKETS then cycles else NUM_BUCKETS - 1;
      AddWraps(InBucket(samples, bucket), 1);
      AddWraps(|samples|, 1);
      AddWraps(Sum(samples), cycles);
      buckets[bucket] := Add(buckets[bucket], 1);
      samples := samples + [cycles];
    }

    method Percentile(p: real) returns (r: nat)
      requires Valid() && 0.0 <= p
      requires |samples| < MODULUS
      ensures r == Bucketed(samples, p)
      ensures forall k: nat :: BucketAnswer(samples, p, k, r)
    {
      hide Bucketed, Target, UpTo, InBucket, BucketAnswer;
      BucketedRanks(samples, p);
      if count == 0 {
        BucketedOfNone(p);
        return 0;
      }
      var target := Target(count, p);
      var accumulated := 0;
      var i := 0;
      UpToFirst(samples);
      while i < NUM_BUCKETS
        invariant 0 <= i <= NUM_BUCKETS
        invariant accumulated == UpTo(samples, i)
        invariant i > 0 ==> accumulated < target
      {
        UpToBound(samples, i);
        accumulated := Add(accumulated, buckets[i]);
        if accumulated >= target {
          BucketedFound(samples, p, i);
          return i;
        }
        i := i + 1;
      }
      BucketedMissed(samples, p);
      return NUM_BUCKETS - 1;
    }

    method Reset()
      requires Valid()
      modifies this, buckets
      ensures Valid() && samples == []
    {
      count := 0;
      min := MODULUS - 1;
      max := 0;
      sum := 0;
      samples := [];
      var i := 0;
      while i < NUM_BUCKETS
        invariant 0 <= i <= NUM_BUCKETS
        invariant forall j :: 0 <= j < i ==> buckets[j] == 0
        invariant count == 0 && min == MODULUS - 1 && max == 0 && sum == 0 && samples == []
      {
        buckets[i] := 0;
        i := i + 1;
      }
    }
  }
}
