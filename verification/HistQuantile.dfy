/** Age histograms: src/util/pressure_stats.h fills them and scripts/pressure_report.py reads
    quantiles back. */
module HistQuantile {
  import opened Basics

  const BUCKETS := 24

  function Pow2(b: nat): (r: nat)
    ensures r >= 1
  {
    if b == 0 then 1 else 2 * Pow2(b - 1)
  }

  /** 32 - clz(ms) for a nonzero ms, and 0 for zero. */
  function BitLength(ms: nat): nat {
    if ms == 0 then 0 else 1 + BitLength(ms / 2)
  }

  /** The histogram bucket of an age; the last bucket takes everything longer. */
  function Bucket(ms: nat): nat {
    if BitLength(ms) < BUCKETS then BitLength(ms) else BUCKETS - 1
  }

  lemma {:induction false} BitLengthSpan(ms: nat)
    requires ms > 0
    ensures BitLength(ms) >= 1 && Pow2(BitLength(ms) - 1) <= ms < Pow2(BitLength(ms))
  {
    if ms > 1 {
      BitLengthSpan(ms / 2);
    }
  }

  lemma {:induction false} BitLengthMonotone(a: nat, b: nat)
    requires a <= b
    ensures BitLength(a) <= BitLength(b)
  {
    if a > 0 {
      BitLengthMonotone(a / 2, b / 2);
    }
  }

  lemma {:induction false} Pow2Monotone(a: nat, b: nat)
    requires a <= b
    ensures Pow2(a) <= Pow2(b)
  {
    if a < b {
      Pow2Monotone(a, b - 1);
    }
  }

  /** Bucket b >= 1 covers [2^(b-1), 2^b), except that the last one has no upper end. */
  lemma BucketSpan(ms: nat)
    requires Bucket(ms) >= 1
    ensures Pow2(Bucket(ms) - 1) <= ms
    ensures ms < Pow2(Bucket(ms)) <==> ms < Pow2(BUCKETS - 1)
  {
    BitLengthSpan(ms);
    if BitLength(ms) < BUCKETS {
      Pow2Monotone(BitLength(ms), BUCKETS - 1);
    } else {
      Pow2Monotone(BUCKETS - 1, BitLength(ms) - 1);
    }
  }

  // ---------------------------------------------------------------- histograms

  ghost predicate Sorted(samples: seq<nat>) {
    forall i, j :: 0 <= i < j < |samples| ==> samples[i] <= samples[j]
  }

  /** How many samples fall into buckets below `b`. */
  ghost function Below(samples: seq<nat>, b: nat): nat {
    if samples == [] then 0
    else Below(samples[..|samples| - 1], b) + if Bucket(samples[|samples| - 1]) < b then 1 else 0
  }

  /** The histogram of the samples. */
  ghost predicate Counts(buckets: seq<nat>, samples: seq<nat>) {
    |buckets| == BUCKETS && forall b :: 0 <= b < BUCKETS ==> buckets[b] == Below(samples, b + 1) - Below(samples, b)
  }

  lemma BelowSnoc(samples: seq<nat>, ms: nat, b: nat)
    ensures Below(samples + [ms], b) == Below(samples, b) + if Bucket(ms) < b then 1 else 0
  {
    assert (samples + [ms])[..|samples|] == samples;
  }

  /** One recorded exit bumps the bucket of its age. */
  method Record(hist: array<nat>, ms: nat, ghost samples: seq<nat>)
    requires Counts(hist[..], samples)
    modifies hist
    ensures Counts(hist[..], samples + [ms])
  {
    hist[Bucket(ms)] := hist[Bucket(ms)] + 1;
    forall b: nat | b <= BUCKETS {
      BelowSnoc(samples, ms, b);
    }
  }

  lemma {:induction false} BelowEnds(samples: seq<nat>)
    ensures Below(samples, 0) == 0 && Below(samples, BUCKETS) == |samples|
  {
    if samples != [] {
      BelowEnds(samples[..|samples| - 1]);
    }
  }

  lemma {:induction false} BelowAtMost(samples: seq<nat>, b: nat)
    ensures Below(samples, b) <= |samples|
  {
    if samples != [] {
      BelowAtMost(samples[..|samples| - 1], b);
    }
  }

  lemma {:induction false} BelowAll(samples: seq<nat>, b: nat)
    requires Sorted(samples) && samples != [] && Bucket(samples[|samples| - 1]) < b
    ensures Below(samples, b) == |samples|
  {
    var m := |samples| - 1;
    if m > 0 {
      BitLengthMonotone(samples[m - 1], samples[m]);
      BelowAll(samples[..m], b);
    }
  }

  /** In sorted order the samples of the buckets below `b` come first. */
  lemma {:induction false} BelowIsPrefix(samples: seq<nat>, b: nat, i: nat)
    requires Sorted(samples) && i < |samples|
    ensures Bucket(samples[i]) < b <==> i < Below(samples, b)
  {
    var m := |samples| - 1;
    BelowAtMost(samples[..m], b);
    if Bucket(samples[m]) < b {
      BitLengthMonotone(samples[i], samples[m]);
      BelowAll(samples, b);
    } else if i < m {
      BelowIsPrefix(samples[..m], b, i);
    }
  }

  // ------------------------------------------------------------------ quantile

  ghost function Sum(buckets: seq<nat>): nat {
    if buckets == [] then 0 else Sum(buckets[..|buckets| - 1]) + buckets[|buckets| - 1]
  }

  lemma {:induction false} SumIsBelow(buckets: seq<nat>, samples: seq<nat>, b: nat)
    requires Counts(buckets, samples) && b <= BUCKETS
    ensures Sum(buckets[..b]) == Below(samples, b)
  {
    if b == 0 {
      BelowEnds(samples);
    } else {
      SumIsBelow(buckets, samples, b - 1);
      assert buckets[..b][..b - 1] == buckets[..b - 1];
    }
  }

  method Total(buckets: seq<nat>) returns (n: nat)
    ensures n == Sum(buckets)
  {
    n := 0;
    for b := 0 to |buckets|
      invariant n == Sum(buckets[..b])
    {
      assert buckets[..b + 1][..b] == buckets[..b];
      n := n + buckets[b];
    }
    assert buckets[..|buckets|] == buckets;
  }

  /** The geometric midpoint reported for a bucket. */
  function Midpoint(b: nat): real {
    if b == 0 then 0.5 else Pow2(b - 1) as real * 1.414
  }

  /** The count that the quantile has to reach. */
  function Rank(q: real, n: nat): real {
    q * n as real
  }

  lemma RankAtMost(q: real, n: nat)
    requires n > 0
    ensures Rank(q, n) <= n as real <==> q <= 1.0
  {
    if q > 1.0 {
      assert (q - 1.0) * n as real > 0.0;
    } else {
      assert (1.0 - q) * n as real >= 0.0;
    }
  }

  lemma {:induction false} SumPrefix(buckets: seq<nat>, b: nat)
    requires b <= |buckets|
    ensures Sum(buckets[..b]) <= Sum(buckets)
  {
    if b < |buckets| {
      SumPrefix(buckets[..|buckets| - 1], b);
      assert buckets[..|buckets| - 1][..b] == buckets[..b];
    } else {
      assert buckets[..b] == buckets;
    }
  }

  /** The first bucket whose running count reaches q of the total; none for an empty histogram or
      for q above 1. */
  method Quantile(buckets: seq<nat>, q: real) returns (value: Option<real>, ghost bucket: nat)
    ensures value == None <==> Sum(buckets) == 0 || q > 1.0
    ensures value.Some? ==> bucket < |buckets| && value.value == Midpoint(bucket)
    ensures value.Some? ==> Sum(buckets[..bucket + 1]) as real >= Rank(q, Sum(buckets))
    ensures value.Some? && bucket > 0 ==> (Sum(buckets[..bucket]) as real) < Rank(q, Sum(buckets))
  {
    bucket := 0;
    var n := Total(buckets);
    if n == 0 {
      return None, 0;
    }
    hide Rank;
    RankAtMost(q, n);
    var acc := 0;
    for b := 0 to |buckets|
      invariant acc == Sum(buckets[..b])
      invariant b > 0 ==> (acc as real) < Rank(q, n)
    {
      assert buckets[..b + 1][..b] == buckets[..b];
      acc := acc + buckets[b];
      if acc as real >= Rank(q, n) {
        SumPrefix(buckets, b + 1);
        return Some(Midpoint(b)), b;
      }
    }
    assert buckets[..|buckets|] == buckets;
    return None, 0;
  }

  /** `k` is the ceiling of q * n. */
  ghost predicate IsCeil(k: nat, q: real, n: nat) {
    (k as real) - 1.0 < Rank(q, n) <= k as real
  }

  ghost predicate Within(value: real, sample: nat) {
    value <= 1.4145 * sample as real && sample as real <= 1.4145 * value
  }

  /** The longest age that the midpoint of the last bucket is still near to. */
  const LONGEST := 8389040

  lemma LastBucket()
    ensures Pow2(BUCKETS - 1) == 8388608 && Bucket(8388608) == BUCKETS - 1
  {
    assert Pow2(8) == 256;
    assert Pow2(16) == 65536;
    assert Pow2(23) == 8388608;
    BitLengthSpan(8388608);
    if BitLength(8388608) < BUCKETS {
      Pow2Monotone(BitLength(8388608), BUCKETS - 1);
    }
  }

  /** For a nonzero age the midpoint of its bucket is within a factor 1.4145, except for ages too
      long for the last bucket; for age 0 it is below the first nonzero one. */
  lemma MidpointNear(ms: nat)
    ensures ms > 0 ==> (Within(Midpoint(Bucket(ms)), ms) <==> ms <= LONGEST)
    ensures ms == 0 ==> 0.0 < Midpoint(Bucket(ms)) < 1.0
  {
    if ms == 0 {
      return;
    }
    BitLengthSpan(ms);
    BucketSpan(ms);
    var b := Bucket(ms);
    assert Pow2(b) == 2 * Pow2(b - 1);
    LastBucket();
    if ms >= Pow2(BUCKETS - 1) {
      BitLengthMonotone(Pow2(BUCKETS - 1), ms);
    }
  }

  lemma BucketOfRank(buckets: seq<nat>, q: real, samples: seq<nat>, k: nat, b: nat)
    requires Sorted(samples) && samples != [] && Counts(buckets, samples) && b < |buckets|
    requires 0.0 < q <= 1.0 && IsCeil(k, q, |samples|)
    requires Sum(buckets[..b + 1]) as real >= Rank(q, |samples|)
    requires b > 0 ==> (Sum(buckets[..b]) as real) < Rank(q, |samples|)
    ensures 1 <= k <= |samples| && b == Bucket(samples[k - 1])
  {
    RankAtMost(q, |samples|);
    assert Rank(q, |samples|) > 0.0;
    hide Rank;
    SumIsBelow(buckets, samples, b + 1);
    SumIsBelow(buckets, samples, b);
    BelowEnds(samples);
    assert k <= Below(samples, b + 1) && Below(samples, b) < k;
    BelowIsPrefix(samples, b + 1, k - 1);
    BelowIsPrefix(samples, b, k - 1);
  }

  /** On the histogram of sorted samples, the quantile is the midpoint of the bucket of the
      ceil(q*n)-th smallest one, and so near it exactly when that age is at most LONGEST. */
  method SampleQuantile(buckets: seq<nat>, q: real, ghost samples: seq<nat>, ghost k: nat) returns (value: Option<real>)
    requires Sorted(samples) && samples != [] && Counts(buckets, samples)
    requires 0.0 < q <= 1.0 && IsCeil(k, q, |samples|)
    ensures 1 <= k <= |samples| && value == Some(Midpoint(Bucket(samples[k - 1])))
    ensures samples[k - 1] > 0 ==> (Within(value.value, samples[k - 1]) <==> samples[k - 1] <= LONGEST)
    ensures samples[k - 1] == 0 ==> 0.0 < value.value < 1.0
  {
    BelowEnds(samples);
    SumIsBelow(buckets, samples, BUCKETS);
    assert buckets[..BUCKETS] == buckets;
    ghost var bucket: nat;
    value, bucket := Quantile(buckets, q);
    BucketOfRank(buckets, q, samples, k, bucket);
    MidpointNear(samples[k - 1]);
  }
}
