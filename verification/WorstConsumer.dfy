/** How the percentiles of several consumers relate to the percentile of their merged histogram:
    bench/fast_ring_latency.cpp reports the worst consumer, salias_ipc_compare.cpp the merge. */
module WorstConsumer {
  import opened Words
  import opened Samples
  import opened LatencyHistogram

  function Flatten(parts: seq<seq<U64>>): seq<U64> {
    if parts == [] then [] else Flatten(parts[..|parts| - 1]) + parts[|parts| - 1]
  }

  predicate AllBuckets(histograms: seq<seq<U64>>) {
    forall i :: 0 <= i < |histograms| ==> |histograms[i]| == BUCKETS
  }

  /** The consumers' arrays added one after another into zeroes. */
  function MergeAll(histograms: seq<seq<U64>>): (merged: seq<U64>)
    requires AllBuckets(histograms)
    ensures |merged| == BUCKETS
  {
    if histograms == [] then seq(BUCKETS, _ => 0)
    else Added(MergeAll(histograms[..|histograms| - 1]), histograms[|histograms| - 1])
  }

  lemma MergeAllStep(histograms: seq<seq<U64>>, k: nat)
    requires AllBuckets(histograms) && k < |histograms|
    ensures MergeAll(histograms[..k + 1]) == Added(MergeAll(histograms[..k]), histograms[k])
  {
    assert histograms[..k + 1][..k] == histograms[..k];
  }

  ghost predicate EachRepresents(histograms: seq<seq<U64>>, parts: seq<seq<U64>>) {
    |histograms| == |parts| &&
    forall i :: 0 <= i < |parts| ==> Represents(histograms[i], parts[i])
  }

  /** The aggregate array is the histogram of all consumers' samples. */
  lemma {:induction false} MergeAllRepresents(histograms: seq<seq<U64>>, parts: seq<seq<U64>>)
    requires EachRepresents(histograms, parts)
    ensures Represents(MergeAll(histograms), Flatten(parts))
  {
    if parts != [] {
      var k := |parts| - 1;
      MergeAllRepresents(histograms[..k], parts[..k]);
      MergeIsConcatenation(MergeAll(histograms[..k]), Flatten(parts[..k]), histograms[k], parts[k]);
    }
  }

  function Contents(histograms: seq<array<U64>>): (contents: seq<seq<U64>>)
    reads histograms
    ensures |contents| == |histograms|
    ensures forall i :: 0 <= i < |histograms| ==> contents[i] == histograms[i][..]
  {
    if histograms == [] then [] else [histograms[0][..]] + Contents(histograms[1..])
  }

  method Aggregate(histograms: seq<array<U64>>) returns (merged: array<U64>)
    requires forall i :: 0 <= i < |histograms| ==> histograms[i].Length == BUCKETS
    ensures fresh(merged) && merged.Length == BUCKETS
    ensures merged[..] == MergeAll(Contents(histograms))
  {
    ghost var contents := Contents(histograms);
    merged := new U64[BUCKETS](_ => 0);
    assert merged[..] == MergeAll(contents[..0]);
    for consumer := 0 to |histograms|
      invariant merged !in histograms && Contents(histograms) == contents
      invariant merged[..] == MergeAll(contents[..consumer])
    {
      MergeAllStep(contents, consumer);
      Merge(merged, histograms[consumer]);
    }
    assert contents[..|histograms|] == contents;
  }

  /** By how much the samples at most v exceed the share n/d, scaled by d. */
  function Margin(samples: seq<U64>, v: int, n: nat, d: nat): int {
    if samples == [] then 0
    else Margin(samples[1..], v, n, d) + (if samples[0] <= v then d else 0) - n
  }

  lemma {:induction false} MarginIs(samples: seq<U64>, v: int, n: nat, d: nat)
    ensures Margin(samples, v, n, d) == CountAtMost(samples, v) * d - |samples| * n
  {
    if samples != [] {
      MarginIs(samples[1..], v, n, d);
      Distribute(CountAtMost(samples[1..], v), 1, d);
      Distribute(|samples[1..]|, 1, n);
    }
  }

  lemma {:induction false} MarginConcat(a: seq<U64>, b: seq<U64>, v: int, n: nat, d: nat)
    ensures Margin(a + b, v, n, d) == Margin(a, v, n, d) + Margin(b, v, n, d)
  {
    if a == [] {
      assert a + b == b;
    } else {
      assert (a + b)[1..] == a[1..] + b;
      MarginConcat(a[1..], b, v, n, d);
    }
  }

  /** The margins add up over the consumers, and so do the shortfalls. */
  lemma {:induction false} MarginsAdd(parts: seq<seq<U64>>, v: int, n: nat, d: nat)
    requires forall i :: 0 <= i < |parts| ==> Margin(parts[i], v, n, d) >= 0
    ensures Margin(Flatten(parts), v, n, d) >= 0
  {
    if parts != [] {
      var k := |parts| - 1;
      MarginsAdd(parts[..k], v, n, d);
      MarginConcat(Flatten(parts[..k]), parts[k], v, n, d);
    }
  }

  lemma {:induction false} ShortfallsAdd(parts: seq<seq<U64>>, v: int, n: nat, d: nat)
    requires forall i :: 0 <= i < |parts| && parts[i] != [] ==> Margin(parts[i], v, n, d) < 0
    ensures if Flatten(parts) == [] then Margin(Flatten(parts), v, n, d) == 0
            else Margin(Flatten(parts), v, n, d) < 0
  {
    if parts != [] {
      var k := |parts| - 1;
      ShortfallsAdd(parts[..k], v, n, d);
      MarginConcat(Flatten(parts[..k]), parts[k], v, n, d);
    }
  }

  /** A percentile is at most a bucket's top exactly when the asked share lies at or below it. */
  lemma ReportedShare(counts: seq<U64>, samples: seq<U64>, n: U32, d: U32, j: nat)
    requires Represents(counts, samples) && 0 < |samples| < TWO64 && 0 < n <= d && j < BUCKETS
    ensures PercentileOf(counts, |samples|, n, d) <= UpperBound(j) <==>
              Margin(samples, UpperBound(j), n, d) >= 0
  {
    PercentileIsOrderStatistic(counts, samples, n, d);
    var r := Rank(|samples|, n, d);
    var v := OrderStatistic(samples, r);
    OrderStatisticRank(samples, r, UpperBound(j));
    RankLeast(|samples|, n, d, CountAtMost(samples, UpperBound(j)));
    MarginIs(samples, UpperBound(j), n, d);
    BucketGalois(v, j);
    BucketIndexInRange(v);
    if BucketIndex(v) <= j {
      UpperBoundMonotone(BucketIndex(v), j);
    } else {
      UpperBoundStrict(j, BucketIndex(v));
    }
  }

  /** Any percentile of the merged histogram lies between the smallest and the largest of the
      consumers' own: the worst consumer bounds the aggregate from above, and some consumer
      bounds it from below. */
  lemma MergedBetweenConsumers(histograms: seq<seq<U64>>, parts: seq<seq<U64>>, merged: seq<U64>, n: U32, d: U32)
    requires EachRepresents(histograms, parts) && Represents(merged, Flatten(parts))
    requires 0 < |Flatten(parts)| < TWO64 && 0 < n <= d
    ensures forall i :: 0 <= i < |parts| ==> |parts[i]| < TWO64
    ensures exists i :: 0 <= i < |parts| && parts[i] != [] &&
              PercentileOf(merged, |Flatten(parts)|, n, d) <= PercentileOf(histograms[i], |parts[i]|, n, d)
    ensures exists i :: 0 <= i < |parts| && parts[i] != [] &&
              PercentileOf(histograms[i], |parts[i]|, n, d) <= PercentileOf(merged, |Flatten(parts)|, n, d)
  {
    forall i | 0 <= i < |parts| ensures |parts[i]| < TWO64 {
      PartFits(parts, i);
    }
    var all := Flatten(parts);
    PercentileIsOrderStatistic(merged, all, n, d);
    var top := BucketIndex(OrderStatistic(all, Rank(|all|, n, d)));
    BucketIndexInRange(OrderStatistic(all, Rank(|all|, n, d)));
    if forall i :: 0 <= i < |parts| && parts[i] != [] ==>
         PercentileOf(histograms[i], |parts[i]|, n, d) < UpperBound(top) {
      AllBelow(histograms, parts, merged, n, d, top);
      assert false;
    }
    if forall i :: 0 <= i < |parts| && parts[i] != [] ==>
         PercentileOf(histograms[i], |parts[i]|, n, d) > UpperBound(top) {
      forall i | 0 <= i < |parts| && parts[i] != []
        ensures Margin(parts[i], UpperBound(top), n, d) < 0
      {
        ReportedShare(histograms[i], parts[i], n, d, top);
      }
      ShortfallsAdd(parts, UpperBound(top), n, d);
      ReportedShare(merged, all, n, d, top);
      assert false;
    }
  }

  lemma {:induction false} PartFits(parts: seq<seq<U64>>, i: nat)
    requires i < |parts|
    ensures |parts[i]| <= |Flatten(parts)|
  {
    if i < |parts| - 1 {
      PartFits(parts[..|parts| - 1], i);
    }
  }

  /** If every consumer stays strictly below a bucket's top, so does the merge. */
  lemma AllBelow(histograms: seq<seq<U64>>, parts: seq<seq<U64>>, merged: seq<U64>, n: U32, d: U32, top: nat)
    requires EachRepresents(histograms, parts) && Represents(merged, Flatten(parts))
    requires 0 < |Flatten(parts)| < TWO64 && 0 < n <= d && top < BUCKETS
    requires forall i :: 0 <= i < |parts| ==> |parts[i]| < TWO64
    requires forall i :: 0 <= i < |parts| && parts[i] != [] ==>
               PercentileOf(histograms[i], |parts[i]|, n, d) < UpperBound(top)
    ensures PercentileOf(merged, |Flatten(parts)|, n, d) < UpperBound(top)
  {
    SomePartNonEmpty(parts);
    hide UpperBound, PercentileOf, Margin, Flatten, Represents;
    var k :| 0 <= k < |parts| && parts[k] != [];
    assert PercentileOf(histograms[k], |parts[k]|, n, d) < UpperBound(top);
    TopIsPositive(top, PercentileOf(histograms[k], |parts[k]|, n, d));
    var below := UpperBound(top - 1);
    UpperBoundStrict(top - 1, top);
    forall i | 0 <= i < |parts|
      ensures Margin(parts[i], below, n, d) >= 0
    {
      if parts[i] != [] {
        StrictlyBelow(histograms[i], parts[i], n, d, top);
        ReportedShare(histograms[i], parts[i], n, d, top - 1);
      }
    }
    MarginsAdd(parts, below, n, d);
    ReportedShare(merged, Flatten(parts), n, d, top - 1);
  }

  lemma TopIsPositive(top: nat, below: nat)
    requires top < BUCKETS && below < UpperBound(top)
    ensures top > 0
  {
  }

  lemma StrictlyBelow(counts: seq<U64>, samples: seq<U64>, n: U32, d: U32, top: nat)
    requires Represents(counts, samples) && 0 < |samples| < TWO64 && 0 < n <= d && 0 < top < BUCKETS
    requires PercentileOf(counts, |samples|, n, d) < UpperBound(top)
    ensures PercentileOf(counts, |samples|, n, d) <= UpperBound(top - 1)
  {
    PercentileIsOrderStatistic(counts, samples, n, d);
    var index := BucketIndex(OrderStatistic(samples, Rank(|samples|, n, d)));
    BucketIndexInRange(OrderStatistic(samples, Rank(|samples|, n, d)));
    if index < top {
      UpperBoundMonotone(index, top - 1);
    } else {
      UpperBoundMonotone(top, index);
    }
  }

  lemma {:induction false} SomePartNonEmpty(parts: seq<seq<U64>>)
    requires Flatten(parts) != []
    ensures exists i :: 0 <= i < |parts| && parts[i] != []
  {
    var k := |parts| - 1;
    if parts[k] == [] {
      SomePartNonEmpty(parts[..k]);
      var i :| 0 <= i < |parts[..k]| && parts[..k][i] != [];
      assert parts[i] != [];
    }
  }

  /** The reported worst case is the least bound on the consumers' percentiles. */
  method WorstPercentile(histograms: seq<array<U64>>, sampleCounts: seq<U64>, n: U32, d: U32)
    returns (worst: nat)
    requires |histograms| == |sampleCounts|
    requires forall i :: 0 <= i < |histograms| ==> histograms[i].Length == BUCKETS
    ensures forall i :: 0 <= i < |histograms| ==>
              PercentileOf(histograms[i][..], sampleCounts[i], n, d) <= worst
    ensures worst == 0 ||
            exists i :: 0 <= i < |histograms| && worst == PercentileOf(histograms[i][..], sampleCounts[i], n, d)
  {
    worst := 0;
    for consumer := 0 to |histograms|
      invariant forall i :: 0 <= i < consumer ==>
        PercentileOf(histograms[i][..], sampleCounts[i], n, d) <= worst
      invariant worst == 0 ||
        exists i :: 0 <= i < consumer && worst == PercentileOf(histograms[i][..], sampleCounts[i], n, d)
    {
      var reported := Percentile(histograms[consumer], sampleCounts[consumer], n, d);
      worst := Max(worst, reported);
    }
  }
}
