/** The log-linear latency histogram of tools/aeron_compare/latency_histogram.hpp: 64 exact
    buckets, then 64 sub-buckets for every power of two up to 2^63. */
module LatencyHistogram {
  import opened Words
  import opened Samples

  /** 64 exact buckets, then 64 sub-buckets for each of the 58 powers of two from 2^6 on. */
  const BUCKETS: nat := 64 + (64 - 6) * 64

  // ---------------------------------------------------------------- bucket arithmetic

  /** Position of the highest set bit, which the source computes as 63 - clz(n). */
  function HighestBit(n: nat): (e: nat)
    requires n > 0
    ensures Pow2(e) <= n < Pow2(e + 1)
  {
    if n == 1 then 0 else 1 + HighestBit(n / 2)
  }

  lemma HighestBitAtLeastSix(n: nat)
    requires n >= 64
    ensures HighestBit(n) >= 6
  {
    Pow2Small();
    if HighestBit(n) < 6 {
      Pow2Monotone(HighestBit(n) + 1, 6);
    }
  }

  /** Width of each sub-bucket of the range that starts at 2^exponent. */
  function SubWidth(exponent: nat): (w: nat)
    requires exponent >= 6
    ensures w == Pow2(exponent - 6) && Pow2(exponent) == 64 * w
  {
    Pow2Small();
    Pow2Add(6, exponent - 6);
    Pow2(exponent) / 64
  }

  function SubBucket(offset: nat, width: nat): (q: nat)
    requires width > 0
    ensures q * width <= offset < q * width + width
  {
    Quotient(offset, width)
  }

  function BucketIndex(ns: nat): nat {
    if ns < 64 then ns
    else
      HighestBitAtLeastSix(ns);
      var exponent := HighestBit(ns);
      64 + (exponent - 6) * 64 + SubBucket(ns - Pow2(exponent), SubWidth(exponent))
  }

  function UpperBound(index: nat): nat {
    if index < 64 then index
    else if index >= BUCKETS - 1 then TWO64 - 1
    else
      var adjusted := index - 64;
      var exponent := 6 + adjusted / 64;
      Pow2(exponent) + (adjusted % 64 + 1) * SubWidth(exponent) - 1
  }

  /** A latency of 64 ns or more, located: the power of two its bucket belongs to, the position q
      in it, and the bucket's width. */
  lemma Locate(ns: nat) returns (e: nat, q: nat, w: nat)
    requires 64 <= ns < TWO64
    ensures w == Pow2(e) && e < 58 && 64 <= q < 128
    ensures q * w <= ns < (q + 1) * w
    ensures BucketIndex(ns) == e * 64 + q
  {
    HighestBitAtLeastSix(ns);
    var exponent := HighestBit(ns);
    Pow2Limit(exponent);
    e, w := exponent - 6, SubWidth(exponent);
    var s := SubBucket(ns - 64 * w, w);
    q := 64 + s;
    assert Pow2(exponent + 1) == 128 * w;
    Distribute(64, s, w);
    Distribute(q, 1, w);
    if s >= 64 {
      MulMonotone(w, 64, s);
    }
  }

  lemma Distribute(a: int, b: int, w: int)
    ensures (a + b) * w == a * w + b * w
  {
  }

  /** The same for a bucket's last nanosecond. */
  lemma LocateTop(index: nat) returns (f: nat, s: nat, v: nat)
    requires 64 <= index < BUCKETS
    ensures v == Pow2(f) && f < 58 && 64 <= s < 128
    ensures index == f * 64 + s
    ensures UpperBound(index) == (s + 1) * v - 1
  {
    f, s := index / 64 - 1, index % 64 + 64;
    v := SubWidth(6 + f);
    if index == BUCKETS - 1 {
      Pow2Limit(f);
    } else {
      Distribute(64, index % 64 + 1, v);
    }
  }

  /** A latency falls in bucket i or an earlier one exactly when it is at most i's upper bound.
      Every other fact about the buckets follows from this one. */
  lemma BucketGalois(ns: nat, index: nat)
    requires ns < TWO64 && index < BUCKETS
    ensures BucketIndex(ns) <= index <==> ns <= UpperBound(index)
  {
    if index >= 64 {
      var f, s, v := LocateTop(index);
      if ns < 64 {
        MulMonotone(v, 65, s + 1);
      } else {
        var e, q, w := Locate(ns);
        if e < f {
          Pow2Monotone(e, f);
        } else if f < e {
          Pow2Monotone(f, e);
        }
        CompareRanges(ns, e, q, w, f, s, v);
      }
    } else if ns >= 64 {
      var _, _, _ := Locate(ns);
    }
  }

  lemma CompareRanges(ns: nat, e: nat, q: nat, w: nat, f: nat, s: nat, v: nat)
    requires 0 < w && 0 < v && 64 <= q < 128 && 64 <= s < 128
    requires q * w <= ns < (q + 1) * w
    requires e == f ==> w == v
    requires e < f ==> 2 * w <= v
    requires f < e ==> 2 * v <= w
    ensures e * 64 + q <= f * 64 + s <==> ns < (s + 1) * v
  {
    if e < f {
      MulMonotone(w, q + 1, 128);
      MulMonotone(v, 65, s + 1);
    } else if f < e {
      MulMonotone(w, 64, q);
      MulMonotone(v, s + 1, 128);
    } else if q <= s {
      MulMonotone(w, q + 1, s + 1);
    } else {
      MulMonotone(w, s + 1, q);
    }
  }

  lemma BucketIndexInRange(ns: nat)
    requires ns < TWO64
    ensures BucketIndex(ns) < BUCKETS
  {
    BucketGalois(ns, BUCKETS - 1);
  }

  lemma UpperBoundFits(index: nat)
    requires index < BUCKETS
    ensures UpperBound(index) < TWO64
  {
    if index >= 64 {
      UpperBoundFitsAbove(index);
    }
  }

  lemma UpperBoundFitsAbove(index: nat)
    requires 64 <= index < BUCKETS
    ensures UpperBound(index) < TWO64
  {
    hide UpperBound, Pow2;
    var f, s, v := LocateTop(index);
    Pow2Limit(f);
    TopFits(s, v);
  }

  lemma TopFits(s: nat, v: nat)
    requires s < 128 && v * 128 <= TWO64
    ensures (s + 1) * v - 1 < TWO64
  {
    MulMonotone(v, s + 1, 128);
  }

  lemma UpperBoundStep(index: nat)
    requires index + 1 < BUCKETS
    ensures UpperBound(index) < UpperBound(index + 1)
  {
    if index == 63 {
      var f, s, v := LocateTop(64);
      MulMonotone(v, 65, s + 1);
    } else if index >= 64 {
      UpperBoundStepAbove(index);
    }
  }

  lemma UpperBoundStepAbove(index: nat)
    requires 64 <= index && index + 1 < BUCKETS
    ensures UpperBound(index) < UpperBound(index + 1)
  {
    hide UpperBound;
    var f, s, v := LocateTop(index + 1);
    var f', s', v' := LocateTop(index);
    MulMonotone(v, 65, s + 1);
    if f' == f {
      Distribute(s, 1, v);
    } else {
      assert s == 64 && s' == 127 && v == 2 * v';
    }
  }

  lemma {:induction false} UpperBoundStrict(i: nat, j: nat)
    requires i < j < BUCKETS
    ensures UpperBound(i) < UpperBound(j) < TWO64
    decreases j - i
  {
    UpperBoundStep(i);
    UpperBoundFits(j);
    if i + 1 < j {
      UpperBoundStrict(i + 1, j);
    }
  }

  /** The two directions of the bucket map undo each other: every bucket's top lies in it. */
  lemma UpperBoundRoundTrip(index: nat)
    requires index < BUCKETS
    ensures UpperBound(index) < TWO64 && BucketIndex(UpperBound(index)) == index
  {
    UpperBoundFits(index);
    if index > 0 {
      UpperBoundStrict(index - 1, index);
      BucketGalois(UpperBound(index), index - 1);
    }
    BucketGalois(UpperBound(index), index);
  }

  lemma BucketIndexMonotone(a: nat, b: nat)
    requires a <= b < TWO64
    ensures BucketIndex(a) <= BucketIndex(b) < BUCKETS
  {
    BucketIndexInRange(b);
    BucketGalois(b, BucketIndex(b));
    BucketGalois(a, BucketIndex(b));
  }

  /** What the histogram reports for a latency is never below it, and is above it by less than
      one part in 64. */
  lemma BucketError(ns: nat)
    requires ns < TWO64
    ensures var top := UpperBound(BucketIndex(ns));
            ns <= top && (top == ns || 64 * (top - ns) < ns)
  {
    if ns >= 64 {
      var e, q, w := Locate(ns);
      var f, s, v := LocateTop(BucketIndex(ns));
      assert e == f && q == s;
      Distribute(q, 1, w);
      MulMonotone(w, 64, q);
    }
  }

  // ---------------------------------------------------------------- the bucket array

  /** How many samples fall in buckets below index. */
  function Below(samples: seq<U64>, index: nat): (n: nat)
    ensures n <= |samples|
  {
    if samples == [] then 0
    else Below(samples[1..], index) + (if BucketIndex(samples[0]) < index then 1 else 0)
  }

  function InBucket(samples: seq<U64>, index: nat): nat {
    if samples == [] then 0
    else InBucket(samples[1..], index) + (if BucketIndex(samples[0]) == index then 1 else 0)
  }

  /** The array counts the samples, in 64-bit registers. */
  ghost predicate Represents(counts: seq<U64>, samples: seq<U64>) {
    |counts| == BUCKETS &&
    forall i :: 0 <= i < BUCKETS ==> counts[i] == Wrap(InBucket(samples, i))
  }

  lemma {:induction false} InBucketConcat(a: seq<U64>, b: seq<U64>, index: nat)
    ensures InBucket(a + b, index) == InBucket(a, index) + InBucket(b, index)
  {
    if a == [] {
      assert a + b == b;
    } else {
      assert (a + b)[1..] == a[1..] + b;
      InBucketConcat(a[1..], b, index);
    }
  }

  lemma {:induction false} BelowStep(samples: seq<U64>, index: nat)
    ensures Below(samples, index + 1) == Below(samples, index) + InBucket(samples, index)
  {
    if samples != [] {
      BelowStep(samples[1..], index);
    }
  }

  lemma {:induction false} BelowZero(samples: seq<U64>)
    ensures Below(samples, 0) == 0
  {
    if samples != [] {
      BelowZero(samples[1..]);
    }
  }

  /** Counting by bucket and counting by latency agree at every bucket boundary. */
  lemma {:induction false} BelowIsAtMost(samples: seq<U64>, index: nat)
    requires index < BUCKETS
    ensures Below(samples, index + 1) == CountAtMost(samples, UpperBound(index))
  {
    if samples != [] {
      BelowIsAtMost(samples[1..], index);
      BucketGalois(samples[0], index);
    }
  }

  method Record(buckets: array<U64>, ns: U64)
    requires buckets.Length == BUCKETS
    modifies buckets
    ensures BucketIndex(ns) < BUCKETS
    ensures buckets[..] == old(buckets[..])[BucketIndex(ns) := AddWord(old(buckets[..])[BucketIndex(ns)], 1)]
  {
    BucketIndexInRange(ns);
    var index := BucketIndex(ns);
    buckets[index] := AddWord(buckets[index], 1);
  }

  /** Recording a sample keeps the array a faithful count. */
  lemma RecordKeepsCount(counts: seq<U64>, samples: seq<U64>, ns: U64)
    requires Represents(counts, samples)
    ensures BucketIndex(ns) < BUCKETS
    ensures Represents(counts[BucketIndex(ns) := AddWord(counts[BucketIndex(ns)], 1)], samples + [ns])
  {
    BucketIndexInRange(ns);
    forall i | 0 <= i < BUCKETS
      ensures InBucket(samples + [ns], i) == InBucket(samples, i) + (if i == BucketIndex(ns) then 1 else 0)
    {
      InBucketConcat(samples, [ns], i);
      assert [ns][1..] == [];
    }
    WrapAdd(InBucket(samples, BucketIndex(ns)), 1);
  }

  /** destination[i] += source[i] in 64-bit registers. */
  function Added(destination: seq<U64>, source: seq<U64>): (sum: seq<U64>)
    requires |destination| == |source|
    ensures |sum| == |source|
    ensures forall i :: 0 <= i < |sum| ==> sum[i] == AddWord(destination[i], source[i])
  {
    seq(|source|, i requires 0 <= i < |source| => AddWord(destination[i], source[i]))
  }

  method Merge(destination: array<U64>, source: array<U64>)
    requires destination.Length == source.Length == BUCKETS
    modifies destination
    ensures destination[..] == Added(old(destination[..]), old(source[..]))
  {
    for index := 0 to BUCKETS
      invariant forall i :: 0 <= i < index ==>
        destination[i] == AddWord(old(destination[i]), old(source[i]))
      invariant forall i :: index <= i < BUCKETS ==>
        destination[i] == old(destination[i]) && source[i] == old(source[i])
    {
      destination[index] := AddWord(destination[index], source[index]);
    }
  }

  /** Merging two histograms gives the histogram of all their samples together. */
  lemma MergeIsConcatenation(a: seq<U64>, s: seq<U64>, b: seq<U64>, t: seq<U64>)
    requires Represents(a, s) && Represents(b, t)
    ensures Represents(Added(a, b), s + t)
  {
    hide InBucket, Wrap;
    forall i | 0 <= i < BUCKETS
      ensures Added(a, b)[i] == Wrap(InBucket(s + t, i))
    {
      InBucketConcat(s, t, i);
      WrapAdd(InBucket(s, i), InBucket(t, i));
    }
  }

  // ---------------------------------------------------------------- percentiles

  /** The rank the source computes, every operation rounded to 64 bits. */
  function RankWord(count: U64, numerator: U32, denominator: U32): U64
    requires denominator > 0
  {
    var quotient := count / denominator;
    var remainder := count % denominator;
    Wrap(Wrap(quotient * numerator) +
         Wrap(Wrap(Wrap(remainder * numerator) + denominator) - 1) / denominator)
  }

  /** The rank arithmetic neither overflows nor rounds: it is the exact ceiling of
      count * numerator / denominator, and so a valid rank among count samples. */
  lemma RankExact(count: U64, numerator: U32, denominator: U32)
    requires 0 <= numerator <= denominator && denominator > 0
    ensures RankWord(count, numerator, denominator) == Rank(count, numerator, denominator)
    ensures Rank(count, numerator, denominator) <= count
  {
    hide Rank, Wrap;
    var q, r := count / denominator, count % denominator;
    RemainderFits(r, numerator, denominator);
    CeilingSplit(q, r, numerator, denominator);
    assert count == q * denominator + r;
    RankAtMostCount(count, numerator, denominator);
    Unwrapped(q * numerator, r * numerator, denominator);
  }

  lemma Unwrapped(a: nat, b: nat, d: nat)
    requires d > 0 && b + d < TWO64 && a + (b + d - 1) / d < TWO64
    ensures Wrap(Wrap(a) + Wrap(Wrap(Wrap(b) + d) - 1) / d) == a + (b + d - 1) / d
  {
    hide Wrap;
    var q := Quotient(b + d - 1, d);
    WrapSmall(a);
    WrapSmall(b);
    WrapSmall(b + d);
    WrapSmall(b + d - 1);
    DivUnique(b + d - 1, d, q);
    WrapSmall(a + q);
  }

  lemma CeilingSplit(q: nat, r: nat, n: nat, d: nat)
    requires d > 0
    ensures 0 <= q * n && 0 <= (r * n + d - 1) / d
    ensures Rank(q * d + r, n, d) == q * n + (r * n + d - 1) / d
  {
    assert (q * d + r) * n == (q * n) * d + r * n;
    DivAddMultiple(r * n + d - 1, q * n, d);
    assert 0 <= r * n;
    DivMonotone(0, r * n + d - 1, d);
  }

  lemma RemainderFits(r: nat, n: nat, d: nat)
    requires r < d < TWO32 && n <= d
    ensures 0 <= r * n && r * n + d < TWO64
  {
    MulMonotone(r, n, d);
    MulMonotone(d, r, d - 1);
    MulMonotone(d, d, TWO32 - 1);
    MulMonotone(TWO32 - 1, d, TWO32 - 1);
  }

  /** The loop of percentile from bucket index on. */
  function Scan(counts: seq<U64>, index: nat, cumulative: U64, target: U64): nat
    requires |counts| == BUCKETS && index <= BUCKETS
    decreases BUCKETS - index
  {
    if index == BUCKETS then UpperBound(BUCKETS - 1)
    else
      var total := AddWord(cumulative, counts[index]);
      if total >= target then UpperBound(index) else Scan(counts, index + 1, total, target)
  }

  function PercentileOf(counts: seq<U64>, count: U64, numerator: U32, denominator: U32): nat
    requires |counts| == BUCKETS
  {
    if count == 0 || denominator == 0 || numerator == 0 || numerator > denominator then 0
    else Scan(counts, 0, 0, RankWord(count, numerator, denominator))
  }

  method Percentile(buckets: array<U64>, count: U64, numerator: U32, denominator: U32)
    returns (ns: nat)
    requires buckets.Length == BUCKETS
    ensures ns == PercentileOf(buckets[..], count, numerator, denominator)
  {
    if count == 0 || denominator == 0 || numerator == 0 || numerator > denominator {
      return 0;
    }
    var target := RankWord(count, numerator, denominator);
    var cumulative: U64 := 0;
    for index := 0 to BUCKETS
      invariant Scan(buckets[..], 0, 0, target) == Scan(buckets[..], index, cumulative, target)
    {
      cumulative := AddWord(cumulative, buckets[index]);
      if cumulative >= target {
        return UpperBound(index);
      }
    }
    return UpperBound(BUCKETS - 1);
  }

  lemma {:induction false} InBucketAtMost(samples: seq<U64>, index: nat)
    ensures InBucket(samples, index) <= |samples|
  {
    if samples != [] {
      InBucketAtMost(samples[1..], index);
    }
  }

  /** The running count reaches the rank in the order statistic's bucket and not before. */
  lemma ReachedFrom(samples: seq<U64>, target: nat, index: nat)
    requires 0 < target <= |samples| && index < BUCKETS
    ensures Below(samples, index + 1) >= target <==>
              BucketIndex(OrderStatistic(samples, target)) <= index
  {
    BelowIsAtMost(samples, index);
    OrderStatisticRank(samples, target, UpperBound(index));
    BucketGalois(OrderStatistic(samples, target), index);
  }

  /** While the rank has not been reached the scan goes on, and it stops at the first bucket that
      reaches it; it never falls off the end. */
  lemma {:induction false} ScanFinds(counts: seq<U64>, samples: seq<U64>, index: nat, target: nat, stop: nat)
    requires Represents(counts, samples) && |samples| < TWO64
    requires target <= |samples|
    requires index <= stop < BUCKETS
    requires forall i :: 0 < i <= BUCKETS ==> (Below(samples, i) >= target <==> stop < i)
    ensures Scan(counts, index, Below(samples, index), target) == UpperBound(stop)
    decreases stop - index
  {
    BelowStep(samples, index);
    InBucketAtMost(samples, index);
    assert AddWord(Below(samples, index), counts[index]) == Below(samples, index + 1);
    if index < stop {
      ScanFinds(counts, samples, index + 1, target, stop);
    }
  }

  /** For every list of samples: the reported percentile is the top of the bucket that holds the
      nearest-rank order statistic of the sorted list. */
  lemma PercentileIsOrderStatistic(counts: seq<U64>, samples: seq<U64>, numerator: U32, denominator: U32)
    requires Represents(counts, samples) && 0 < |samples| < TWO64
    requires 0 < numerator <= denominator
    ensures 0 < Rank(|samples|, numerator, denominator) <= |samples|
    ensures PercentileOf(counts, |samples|, numerator, denominator)
         == UpperBound(BucketIndex(OrderStatistic(samples, Rank(|samples|, numerator, denominator))))
  {
    RankExact(|samples|, numerator, denominator);
    RankPositive(|samples|, numerator, denominator);
    BelowZero(samples);
    var target := Rank(|samples|, numerator, denominator);
    var stop := BucketIndex(OrderStatistic(samples, target));
    BucketIndexInRange(OrderStatistic(samples, target));
    forall i | 0 < i <= BUCKETS
      ensures Below(samples, i) >= target <==> stop < i
    {
      ReachedFrom(samples, target, i - 1);
    }
    ScanFinds(counts, samples, 0, target, stop);
  }

  /** Zero is reported for no samples, for a fraction that is none, and for a percentile that is zero. */
  lemma ZeroReportedIff(counts: seq<U64>, samples: seq<U64>, numerator: U32, denominator: U32)
    requires Represents(counts, samples) && |samples| < TWO64
    ensures PercentileOf(counts, |samples|, numerator, denominator) == 0 <==>
              || samples == [] || numerator == 0 || numerator > denominator
              || (0 < Rank(|samples|, numerator, denominator) <= |samples|
                  && OrderStatistic(samples, Rank(|samples|, numerator, denominator)) == 0)
  {
    hide Rank, UpperBound, BucketIndex;
    if samples != [] && 0 < numerator <= denominator {
      PercentileIsOrderStatistic(counts, samples, numerator, denominator);
      PercentileError(counts, samples, numerator, denominator);
    }
  }

  /** So a reported percentile is at least the true one and exceeds it by less than 1/64 of it. */
  lemma PercentileError(counts: seq<U64>, samples: seq<U64>, numerator: U32, denominator: U32)
    requires Represents(counts, samples) && 0 < |samples| < TWO64
    requires 0 < numerator <= denominator
    ensures 0 < Rank(|samples|, numerator, denominator) <= |samples|
    ensures var exact := OrderStatistic(samples, Rank(|samples|, numerator, denominator));
            var reported := PercentileOf(counts, |samples|, numerator, denominator);
            exact <= reported && (reported == exact || 64 * (reported - exact) < exact)
  {
    PercentileIsOrderStatistic(counts, samples, numerator, denominator);
    BucketError(OrderStatistic(samples, Rank(|samples|, numerator, denominator)));
  }

  lemma UpperBoundMonotone(i: nat, j: nat)
    requires i <= j < BUCKETS
    ensures UpperBound(i) <= UpperBound(j)
  {
    if i < j {
      UpperBoundStrict(i, j);
    }
  }

  lemma ReportedMonotone(a: U64, b: U64)
    requires a <= b
    ensures UpperBound(BucketIndex(a)) <= UpperBound(BucketIndex(b))
  {
    BucketIndexMonotone(a, b);
    UpperBoundMonotone(BucketIndex(a), BucketIndex(b));
  }

  /** A larger fraction never reports a smaller latency, and no percentile is reported above the
      top of the largest sample's bucket. */
  lemma PercentilesOrdered(counts: seq<U64>, samples: seq<U64>, n: U32, d: U32, n': U32, d': U32)
    requires Represents(counts, samples) && 0 < |samples| < TWO64
    requires 0 < n <= d && 0 < n' <= d' && n * d' <= n' * d
    ensures PercentileOf(counts, |samples|, n, d) <= PercentileOf(counts, |samples|, n', d')
         <= UpperBound(BucketIndex(OrderStatistic(samples, |samples|)))
  {
    PercentileIsOrderStatistic(counts, samples, n, d);
    PercentileIsOrderStatistic(counts, samples, n', d');
    var r, r' := Rank(|samples|, n, d), Rank(|samples|, n', d');
    RankMonotone(|samples|, n, d, n', d');
    OrderStatisticMonotone(samples, r, r');
    OrderStatisticMonotone(samples, r', |samples|);
    ReportedMonotone(OrderStatistic(samples, r), OrderStatistic(samples, r'));
    ReportedMonotone(OrderStatistic(samples, r'), OrderStatistic(samples, |samples|));
  }

  /** A percentile may exceed the exact maximum that is printed beside it. It stays within it
      precisely when the maximum is the top of its own bucket or the percentile's rank is already
      reached by the buckets below the maximum's. */
  lemma PercentileWithinMaximum(counts: seq<U64>, samples: seq<U64>, n: U32, d: U32)
    requires Represents(counts, samples) && 0 < |samples| < TWO64
    requires 0 < n <= d
    ensures var max := OrderStatistic(samples, |samples|);
            PercentileOf(counts, |samples|, n, d) <= max <==>
              UpperBound(BucketIndex(max)) == max ||
              Rank(|samples|, n, d) <= Below(samples, BucketIndex(max))
  {
    hide UpperBound, BucketIndex, PercentileOf;
    PercentileIsOrderStatistic(counts, samples, n, d);
    var max, r := OrderStatistic(samples, |samples|), Rank(|samples|, n, d);
    var v := OrderStatistic(samples, r);
    OrderStatisticMonotone(samples, r, |samples|);
    ReportedWithin(v, max);
    BucketIndexInRange(max);
    ReachedBefore(samples, r, BucketIndex(max));
  }

  /** The check that the three reported percentiles and the maximum come in order therefore passes
      exactly when that holds of the highest: the percentiles are always in order. */
  lemma QuantilesSortedIff(counts: seq<U64>, samples: seq<U64>)
    requires Represents(counts, samples) && 0 < |samples| < TWO64
    ensures var max, n := OrderStatistic(samples, |samples|), |samples|;
            PercentileOf(counts, n, 50, 100) <= PercentileOf(counts, n, 99, 100)
              <= PercentileOf(counts, n, 999, 1000) <= max <==>
              UpperBound(BucketIndex(max)) == max || Rank(n, 999, 1000) <= Below(samples, BucketIndex(max))
  {
    hide UpperBound, BucketIndex, PercentileOf, Below;
    PercentilesOrdered(counts, samples, 50, 100, 99, 100);
    PercentilesOrdered(counts, samples, 99, 100, 999, 1000);
    PercentileWithinMaximum(counts, samples, 999, 1000);
  }

  lemma ReachedBefore(samples: seq<U64>, r: nat, index: nat)
    requires 0 < r <= |samples| && index < BUCKETS
    ensures BucketIndex(OrderStatistic(samples, r)) < index <==> r <= Below(samples, index)
  {
    if index == 0 {
      BelowZero(samples);
    } else {
      ReachedFrom(samples, r, index - 1);
    }
  }

  lemma ReportedWithin(v: U64, max: U64)
    requires v <= max
    ensures UpperBound(BucketIndex(v)) <= max <==>
              UpperBound(BucketIndex(max)) == max || BucketIndex(v) < BucketIndex(max)
  {
    BucketIndexMonotone(v, max);
    BucketError(max);
    if BucketIndex(v) < BucketIndex(max) {
      BucketGalois(max, BucketIndex(v));
    }
  }

  lemma OneSample(counts: seq<U64>, x: U64)
    requires Represents(counts, [x])
    ensures PercentileOf(counts, 1, 50, 100) == UpperBound(BucketIndex(x))
  {
    PercentileIsOrderStatistic(counts, [x], 50, 100);
    OrderStatisticSingleton(x);
  }

  /** The smallest such case: one sample of 128 ns is reported as a median of 129 ns. */
  lemma MedianAboveMaximum(counts: seq<U64>, samples: seq<U64>)
    requires samples == [128] && Represents(counts, samples)
    ensures OrderStatistic(samples, 1) == 128 && PercentileOf(counts, 1, 50, 100) == 129
  {
    OneSample(counts, samples[0]);
    OrderStatisticSingleton(samples[0]);
    BucketOf128();
  }

  lemma BucketOf128()
    ensures UpperBound(BucketIndex(128)) == 129
  {
    assert Pow2(1) == 2;
    var f, s, v := LocateTop(128);
    BucketGalois(128, 127);
    BucketGalois(128, 128);
    var f', s', v' := LocateTop(127);
  }
}
