/** The acceptance engine's histogram (tools/hft_acceptance/acceptance.cpp): log-linear buckets
    together with an exact count of the samples above the 50 microsecond budget. */
module BudgetHistogram {
  import opened Words
  import opened Samples
  import opened LatencyHistogram
  import opened WorstConsumer

  const BUDGET_NS: U64 := 50_000

  function Largest(samples: seq<U64>): U64 {
    if samples == [] then 0 else Max(Largest(samples[1..]), samples[0])
  }

  lemma {:induction false} LargestConcat(a: seq<U64>, b: seq<U64>)
    ensures Largest(a + b) == Max(Largest(a), Largest(b))
  {
    if a == [] {
      assert a + b == b;
    } else {
      assert (a + b)[1..] == a[1..] + b;
      LargestConcat(a[1..], b);
    }
  }

  function Above(samples: seq<U64>): nat {
    |samples| - CountAtMost(samples, 50_000)
  }

  /** The four fields of a histogram that has been given these samples. */
  ghost predicate Summarises(counts: seq<U64>, samples: U64, max: U64, above: U64, recorded: seq<U64>) {
    && |counts| == BUCKETS
    && Represents(counts, recorded)
    && Counters(samples, max, above, recorded)
  }

  ghost predicate Counters(samples: U64, max: U64, above: U64, recorded: seq<U64>) {
    && samples == Wrap(|recorded|)
    && max == Largest(recorded)
    && above == Wrap(Above(recorded))
  }

  lemma CountersConcat(samples: U64, max: U64, above: U64, ours: seq<U64>,
                       samples': U64, max': U64, above': U64, theirs: seq<U64>)
    requires Counters(samples, max, above, ours) && Counters(samples', max', above', theirs)
    ensures Counters(AddWord(samples, samples'), Max(max, max'), AddWord(above, above'), ours + theirs)
  {
    hide Largest, Above, Wrap;
    LargestConcat(ours, theirs);
    AboveConcat(ours, theirs);
    WrapAdd(|ours|, |theirs|);
    WrapAdd(Above(ours), Above(theirs));
  }

  lemma AboveConcat(ours: seq<U64>, theirs: seq<U64>)
    ensures Above(ours + theirs) == Above(ours) + Above(theirs)
  {
    CountAtMostConcat(ours, theirs, 50_000);
  }

  lemma CountersOne(ns: U64)
    ensures Counters(1, ns, if ns > BUDGET_NS then 1 else 0, [ns])
  {
    assert [ns][1..] == [];
    assert Above([ns]) == if ns > 50_000 then 1 else 0;
    WrapSmall(1);
    WrapSmall(Above([ns]));
  }

  lemma RecordSummary(counts: seq<U64>, samples: U64, max: U64, above: U64, recorded: seq<U64>, ns: U64)
    requires Summarises(counts, samples, max, above, recorded)
    ensures BucketIndex(ns) < BUCKETS
    ensures Summarises(counts[BucketIndex(ns) := AddWord(counts[BucketIndex(ns)], 1)], AddWord(samples, 1),
                       Max(max, ns), AddWord(above, if ns > BUDGET_NS then 1 else 0), recorded + [ns])
  {
    RecordKeepsCount(counts, recorded, ns);
    CountersOne(ns);
    CountersConcat(samples, max, above, recorded, 1, ns, if ns > BUDGET_NS then 1 else 0, [ns]);
  }

  lemma MergeSummary(counts: seq<U64>, samples: U64, max: U64, above: U64, ours: seq<U64>,
                     counts': seq<U64>, samples': U64, max': U64, above': U64, theirs: seq<U64>)
    requires Summarises(counts, samples, max, above, ours)
    requires Summarises(counts', samples', max', above', theirs)
    ensures Summarises(Added(counts, counts'), AddWord(samples, samples'), Max(max, max'),
                       AddWord(above, above'), ours + theirs)
  {
    MergeIsConcatenation(counts, ours, counts', theirs);
    CountersConcat(samples, max, above, ours, samples', max', above', theirs);
  }

  /** The test the source makes, on 64-bit registers. */
  predicate PassesOn(samples: U64, aboveBudget: U64, n: U32, d: U32)
    requires d > 0
  {
    samples > 0 && Wrap(samples - aboveBudget) >= RankWord(samples, n, d)
  }

  class Histogram {
    const buckets: array<U64>
    var samples: U64
    var max: U64
    var aboveBudget: U64
    ghost var recorded: seq<U64>

    ghost predicate Valid()
      reads this, buckets
    {
      Summarises(buckets[..], samples, max, aboveBudget, recorded)
    }

    constructor ()
      ensures Valid() && recorded == [] && fresh(buckets)
    {
      buckets := new U64[BUCKETS](_ => 0);
      samples, max, aboveBudget := 0, 0, 0;
      recorded := [];
    }

    method Record(ns: U64)
      requires Valid()
      modifies this, buckets
      ensures Valid() && recorded == old(recorded) + [ns]
    {
      RecordSummary(buckets[..], samples, max, aboveBudget, recorded, ns);
      LatencyHistogram.Record(buckets, ns);
      samples := AddWord(samples, 1);
      max := Max(max, ns);
      aboveBudget := AddWord(aboveBudget, if ns > BUDGET_NS then 1 else 0);
      recorded := recorded + [ns];
    }

    method Merge(rhs: Histogram)
      requires Valid() && rhs.Valid()
      requires this == rhs || buckets != rhs.buckets
      modifies this, buckets
      ensures Valid() && recorded == old(recorded) + old(rhs.recorded)
    {
      MergeSummary(buckets[..], samples, max, aboveBudget, recorded,
                   rhs.buckets[..], rhs.samples, rhs.max, rhs.aboveBudget, rhs.recorded);
      ghost var all := recorded + rhs.recorded;
      ghost var merged := Added(buckets[..], rhs.buckets[..]);
      LatencyHistogram.Merge(buckets, rhs.buckets);
      assert buckets[..] == merged;
      samples := AddWord(samples, rhs.samples);
      max := Max(max, rhs.max);
      aboveBudget := AddWord(aboveBudget, rhs.aboveBudget);
      recorded := all;
    }

    predicate Passes(n: U32, d: U32)
      requires d > 0
      reads this
    {
      PassesOn(samples, aboveBudget, n, d)
    }

    /** The budget test means what it says, for every run of Record and Merge. */
    lemma PassesMeansWithinBudget(n: U32, d: U32)
      requires Valid() && |recorded| < TWO64 && 0 < n <= d
      ensures Passes(n, d) <==>
                recorded != [] && Rank(|recorded|, n, d) > 0 &&
                Rank(|recorded|, n, d) <= |recorded| &&
                OrderStatistic(recorded, Rank(|recorded|, n, d)) <= BUDGET_NS
    {
      PassesIff(recorded, n, d);
    }
  }

  /** The test passes exactly when the nearest-rank order statistic meets the budget. */
  lemma PassesIff(recorded: seq<U64>, n: U32, d: U32)
    requires |recorded| < TWO64 && 0 < n <= d
    ensures PassesOn(Wrap(|recorded|), Wrap(Above(recorded)), n, d) <==>
              recorded != [] && 0 < Rank(|recorded|, n, d) <= |recorded| &&
              OrderStatistic(recorded, Rank(|recorded|, n, d)) <= BUDGET_NS
  {
    RankExact(|recorded|, n, d);
    WrapSmall(|recorded|);
    WrapSmall(Above(recorded));
    WrapSmall(CountAtMost(recorded, 50_000));
    if recorded != [] {
      RankPositive(|recorded|, n, d);
      OrderStatisticRank(recorded, Rank(|recorded|, n, d), 50_000);
    }
  }

  lemma PassesMargin(recorded: seq<U64>, n: U32, d: U32)
    requires |recorded| < TWO64 && 0 < n <= d
    ensures PassesOn(Wrap(|recorded|), Wrap(Above(recorded)), n, d) <==>
              recorded != [] && Margin(recorded, 50_000, n, d) >= 0
  {
    RankExact(|recorded|, n, d);
    WrapSmall(|recorded|);
    WrapSmall(Above(recorded));
    WrapSmall(CountAtMost(recorded, 50_000));
    RankLeast(|recorded|, n, d, CountAtMost(recorded, 50_000));
    MarginIs(recorded, 50_000, n, d);
  }

  /** Merging cannot hide a verdict: if both parts meet the budget so does the merge, and a merge
      that meets it has a part that does. */
  lemma PassesSurvivesMerge(ours: seq<U64>, theirs: seq<U64>, n: U32, d: U32)
    requires |ours| + |theirs| < TWO64 && 0 < n <= d
    ensures var a := PassesOn(Wrap(|ours|), Wrap(Above(ours)), n, d);
            var b := PassesOn(Wrap(|theirs|), Wrap(Above(theirs)), n, d);
            var both := PassesOn(Wrap(|ours + theirs|), Wrap(Above(ours + theirs)), n, d);
            (a && b ==> both) && (both ==> a || b)
  {
    PassesMargin(ours, n, d);
    PassesMargin(theirs, n, d);
    PassesMargin(ours + theirs, n, d);
    MarginConcat(ours, theirs, 50_000, n, d);
  }

  lemma BudgetBucketTop(budget: U64)
    requires budget == 50_000
    ensures BucketIndex(budget) < BUCKETS && UpperBound(BucketIndex(budget)) == 50_175
  {
    hide UpperBound, BucketIndex;
    TopIn512(672);
    TopIn512(673);
    BucketGalois(budget, 672);
    BucketGalois(budget, 673);
    assert BucketIndex(budget) == 673;
  }

  lemma TopIn512(index: nat)
    requires 640 <= index < 704
    ensures UpperBound(index) == (index - 575) * 512 - 1
  {
    var f, s, v := LocateTop(index);
    assert f == 9 && Pow2(9) == 512;
  }

  /** The printed percentile and the budget test can disagree only between 50,001 and 50,175 ns,
      the rest of the budget's own bucket. */
  lemma ReportedAgainstBudget(counts: seq<U64>, recorded: seq<U64>, n: U32, d: U32)
    requires Represents(counts, recorded) && 0 < |recorded| < TWO64 && 0 < n <= d
    ensures var passes := PassesOn(Wrap(|recorded|), Wrap(Above(recorded)), n, d);
            var reported := PercentileOf(counts, |recorded|, n, d);
            (reported <= 50_000 ==> passes) && (passes ==> reported <= 50_175)
  {
    PassesIff(recorded, n, d);
    PercentileIsOrderStatistic(counts, recorded, n, d);
    var v := OrderStatistic(recorded, Rank(|recorded|, n, d));
    BucketError(v);
    BudgetBucketTop(BUDGET_NS);
    if v <= 50_000 {
      ReportedMonotone(v, BUDGET_NS);
    }
  }
}
