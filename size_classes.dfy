/** The power-of-two size classes of the allocation-size histogram. */
module SizeClasses {

  /** Number of histogram entries (`histogram[32]` in ce_memory_info_t). */
  const HistogramBuckets: nat := 32

  /** The last entry collects every size above 2^30. */
  const OverflowBucket: nat := 31

  function Pow2(i: nat): (r: nat)
    ensures r >= 1
  {
    if i == 0 then 1 else 2 * Pow2(i - 1)
  }

  lemma {:induction false} Pow2Increasing(i: nat, j: nat)
    requires i < j
    ensures Pow2(i) < Pow2(j)
    decreases j
  {
    if j > i + 1 {
      Pow2Increasing(i, j - 1);
    }
  }

  lemma Pow2Monotone(i: nat, j: nat)
    requires i <= j
    ensures Pow2(i) <= Pow2(j)
  {
    if i < j {
      Pow2Increasing(i, j);
    }
  }

  lemma {:induction false} Pow2Add(a: nat, b: nat)
    ensures Pow2(a + b) == Pow2(a) * Pow2(b)
    decreases b
  {
    if b > 0 {
      Pow2Add(a, b - 1);
      assert Pow2(a + b) == 2 * Pow2(a + b - 1);
    }
  }

  /** The two largest bounds the classification loop reaches. */
  lemma Pow2Top()
    ensures Pow2(30) == 0x4000_0000 && Pow2(31) == 0x8000_0000
  {
    var k := Pow2(10);
    assert k == 1024;
    var m := Pow2(20);
    assert m == k * k by {
      Pow2Add(10, 10);
    }
    assert Pow2(30) == m * k by {
      Pow2Add(20, 10);
    }
  }

  /** The shifted bound of the classification loop stays within 32 bits,
      so its unsigned `<<= 1` never wraps around. */
  lemma Pow2FitsUInt32(i: nat)
    requires i <= OverflowBucket
    ensures Pow2(i) <= Pow2(OverflowBucket) == 0x8000_0000
  {
    Pow2Top();
    if i < OverflowBucket {
      Pow2Increasing(i, OverflowBucket);
    }
  }

  /** Classification started at bucket `i`: the first bucket from `i` on
      whose bound 2^r holds `n`, or the overflow bucket. */
  function BucketFrom(n: nat, i: nat): (r: nat)
    requires i <= OverflowBucket
    ensures i <= r <= OverflowBucket
    ensures r < OverflowBucket ==> n <= Pow2(r)
    decreases OverflowBucket - i
  {
    if i == OverflowBucket then OverflowBucket
    else if n <= Pow2(i) then i
    else BucketFrom(n, i + 1)
  }

  /** The classification passes over every bound from `i` on that is too
      small for `n`. */
  lemma {:induction false} BucketFromSkipsSmaller(n: nat, i: nat, j: nat)
    requires i <= OverflowBucket && i <= j < BucketFrom(n, i)
    ensures Pow2(j) < n
    decreases OverflowBucket - i
  {
    if j > i {
      BucketFromSkipsSmaller(n, i + 1, j);
    }
  }

  /** The histogram bucket of an allocation of `n` bytes: the least `r` in
      0..30 with n <= 2^r, and the overflow bucket when there is none. */
  function Bucket(n: nat): (r: nat)
    ensures r < HistogramBuckets
    ensures r < OverflowBucket ==> n <= Pow2(r)
  {
    BucketFrom(n, 0)
  }

  /** Bucket(n) is the least such `r`: every smaller bound is too small. */
  lemma BucketIsLeast(n: nat, j: nat)
    requires j < Bucket(n)
    ensures Pow2(j) < n
  {
    BucketFromSkipsSmaller(n, 0, j);
  }

  /** Reference description of bucket `i`: sizes up to 1 for bucket 0, the
      range (2^(i-1), 2^i] for buckets 1 to 30, above 2^30 for bucket 31. */
  predicate InBucket(n: nat, i: nat)
  {
    if i == 0 then n <= 1
    else if i < OverflowBucket then Pow2(i - 1) < n <= Pow2(i)
    else i == OverflowBucket && n > Pow2(i - 1)
  }

  /** Every size lies in the range of the bucket it is classified into. */
  lemma BucketInRange(n: nat)
    ensures InBucket(n, Bucket(n))
  {
    var r := Bucket(n);
    if 0 < r {
      BucketIsLeast(n, r - 1);
    }
  }

  /** A size above the bound 2^j of a regular bucket is classified above
      bucket `j`. */
  lemma BucketAbove(n: nat, j: nat)
    requires j < OverflowBucket && Pow2(j) < n
    ensures j < Bucket(n)
  {
    var r := Bucket(n);
    if r <= j {
      // n <= 2^r <= 2^j < n
      Pow2Monotone(r, j);
    }
  }

  /** A size within the bound 2^i of a regular bucket is classified at or
      below bucket `i`. */
  lemma BucketAtMost(n: nat, i: nat)
    requires i < OverflowBucket && n <= Pow2(i)
    ensures Bucket(n) <= i
  {
    if i < Bucket(n) {
      // 2^i < n, as Bucket(n) is the least bound that holds n
      BucketIsLeast(n, i);
    }
  }

  /** The bucket ranges do not overlap: a size in the range of bucket `i`
      is classified into `i`. */
  lemma RangeDeterminesBucket(n: nat, i: nat)
    requires InBucket(n, i)
    ensures Bucket(n) == i
  {
    if 0 < i {
      BucketAbove(n, i - 1);
    }
    if i < OverflowBucket {
      BucketAtMost(n, i);
    }
  }

  /** Bucket(n) is exactly the bucket whose range holds `n`. */
  lemma BucketMatchesRange(n: nat, i: nat)
    ensures Bucket(n) == i <==> InBucket(n, i)
  {
    BucketInRange(n);
    if InBucket(n, i) {
      RangeDeterminesBucket(n, i);
    }
  }

  /** A request of exactly 2^k bytes lands in bucket k. */
  lemma BucketOfPowerOfTwo(k: nat)
    requires k < OverflowBucket
    ensures Bucket(Pow2(k)) == k
  {
    if k > 0 {
      Pow2Increasing(k - 1, k);
    }
    BucketMatchesRange(Pow2(k), k);
  }

  /** Exactly the sizes above 2^30 land in the overflow bucket. */
  lemma BucketOverflow(n: nat)
    ensures Bucket(n) == OverflowBucket <==> n > 0x4000_0000
  {
    Pow2Top();
    BucketMatchesRange(n, OverflowBucket);
  }

  /** The classification loop of the tracked allocate path: `twoPower`
      doubles from 1 while `i` runs over 0..30, stopping at the first bound
      that holds `bytes`; when none does, `i` ends at the overflow bucket. */
  method BucketIndex(bytes: nat) returns (i: nat)
    ensures i == Bucket(bytes)
  {
    var twoPower: nat := 1;
    i := 0;
    while i <= 30
      invariant i <= OverflowBucket
      invariant twoPower == Pow2(i) <= 0x8000_0000
      invariant BucketFrom(bytes, i) == Bucket(bytes)
    {
      if bytes <= twoPower {
        break;
      }
      Pow2FitsUInt32(i + 1);
      i, twoPower := i + 1, twoPower * 2;
    }
  }
}
