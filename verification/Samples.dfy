/** Order statistics of a list of samples, with no histogram in sight: what a nearest-rank
    percentile means. */
module Samples {
  import opened Words

  predicate Sorted(s: seq<U64>) {
    |s| > 1 ==> s[0] <= s[1] && Sorted(s[1..])
  }

  lemma {:induction false} SortedPairs(s: seq<U64>, i: nat, j: nat)
    requires Sorted(s) && i <= j < |s|
    ensures s[i] <= s[j]
    decreases j
  {
    if i > 0 {
      SortedPairs(s[1..], i - 1, j - 1);
    } else if j > 0 {
      SortedPairs(s[1..], 0, j - 1);
    }
  }

  function Insert(s: seq<U64>, x: U64): (r: seq<U64>)
    requires Sorted(s)
    ensures Sorted(r) && |r| == |s| + 1
    ensures r[0] == if s == [] then x else Min(x, s[0])
  {
    if s == [] || x <= s[0] then
      assert ([x] + s)[1..] == s;
      [x] + s
    else
      var rest := Insert(s[1..], x);
      assert ([s[0]] + rest)[1..] == rest;
      [s[0]] + rest
  }

  function Sort(s: seq<U64>): (r: seq<U64>)
    ensures Sorted(r) && |r| == |s|
  {
    if s == [] then [] else Insert(Sort(s[1..]), s[0])
  }

  lemma {:induction false} InsertKeeps(s: seq<U64>, x: U64)
    requires Sorted(s)
    ensures multiset(Insert(s, x)) == multiset(s) + multiset{x}
  {
    if s != [] && s[0] < x {
      InsertKeeps(s[1..], x);
      assert s == [s[0]] + s[1..];
    }
  }

  /** Sorting rearranges the samples and loses none. */
  lemma {:induction false} SortKeeps(s: seq<U64>)
    ensures multiset(Sort(s)) == multiset(s)
  {
    if s != [] {
      SortKeeps(s[1..]);
      InsertKeeps(Sort(s[1..]), s[0]);
      assert s == [s[0]] + s[1..];
    }
  }

  /** The k-th smallest sample, counting from one. */
  function OrderStatistic(samples: seq<U64>, k: nat): U64
    requires 0 < k <= |samples|
  {
    Sort(samples)[k - 1]
  }

  function CountAtMost(samples: seq<U64>, v: int): (n: nat)
    ensures n <= |samples|
  {
    if samples == [] then 0
    else CountAtMost(samples[1..], v) + (if samples[0] <= v then 1 else 0)
  }

  lemma {:induction false} CountAtMostConcat(a: seq<U64>, b: seq<U64>, v: int)
    ensures CountAtMost(a + b, v) == CountAtMost(a, v) + CountAtMost(b, v)
  {
    if a == [] {
      assert a + b == b;
    } else {
      assert (a + b)[1..] == a[1..] + b;
      CountAtMostConcat(a[1..], b, v);
    }
  }

  lemma {:induction false} CountAtMostInsert(s: seq<U64>, x: U64, v: int)
    requires Sorted(s)
    ensures CountAtMost(Insert(s, x), v) == CountAtMost(s, v) + (if x <= v then 1 else 0)
  {
    if s == [] || x <= s[0] {
      assert Insert(s, x)[1..] == s;
    } else {
      assert Insert(s, x)[1..] == Insert(s[1..], x);
      CountAtMostInsert(s[1..], x, v);
    }
  }

  lemma {:induction false} CountAtMostSort(s: seq<U64>, v: int)
    ensures CountAtMost(Sort(s), v) == CountAtMost(s, v)
  {
    if s != [] {
      CountAtMostSort(s[1..], v);
      CountAtMostInsert(Sort(s[1..]), s[0], v);
    }
  }

  lemma {:induction false} SortedRank(s: seq<U64>, k: nat, v: int)
    requires Sorted(s) && 0 < k <= |s|
    ensures CountAtMost(s, v) >= k <==> s[k - 1] <= v
  {
    SortedPairs(s, 0, k - 1);
    if s[0] > v {
      forall i | 0 <= i < |s| ensures s[i] > v {
        SortedPairs(s, 0, i);
      }
      NoneAtMost(s, v);
    } else if k > 1 {
      SortedRank(s[1..], k - 1, v);
    }
  }

  lemma {:induction false} NoneAtMost(s: seq<U64>, v: int)
    requires forall i :: 0 <= i < |s| ==> s[i] > v
    ensures CountAtMost(s, v) == 0
  {
    if s != [] {
      NoneAtMost(s[1..], v);
    }
  }

  /** At least k samples are at most v exactly when the k-th smallest is. */
  lemma OrderStatisticRank(samples: seq<U64>, k: nat, v: int)
    requires 0 < k <= |samples|
    ensures CountAtMost(samples, v) >= k <==> OrderStatistic(samples, k) <= v
  {
    CountAtMostSort(samples, v);
    SortedRank(Sort(samples), k, v);
  }

  lemma OrderStatisticMonotone(samples: seq<U64>, j: nat, k: nat)
    requires 0 < j <= k <= |samples|
    ensures OrderStatistic(samples, j) <= OrderStatistic(samples, k)
  {
    SortedPairs(Sort(samples), j - 1, k - 1);
  }

  lemma OrderStatisticSingleton(x: U64)
    ensures OrderStatistic([x], 1) == x
  {
    OrderStatisticRank([x], 1, x);
    OrderStatisticRank([x], 1, x - 1);
    assert [x][1..] == [];
  }

  /** The nearest rank of the fraction numerator/denominator: the ceiling of its share. */
  function Rank(count: nat, numerator: nat, denominator: nat): nat
    requires denominator > 0
  {
    (count * numerator + denominator - 1) / denominator
  }

  /** The rank is the least number of samples that makes up the asked fraction. */
  lemma RankLeast(count: nat, numerator: nat, denominator: nat, k: int)
    requires denominator > 0
    ensures Rank(count, numerator, denominator) <= k <==> count * numerator <= k * denominator
  {
    var r := Rank(count, numerator, denominator);
    DivBounds(count * numerator + denominator - 1, denominator);
    if r <= k {
      MulMonotone(denominator, r, k);
    } else {
      MulMonotone(denominator, k + 1, r);
      assert denominator * (k + 1) == k * denominator + denominator;
    }
  }

  lemma RankPositive(count: nat, numerator: nat, denominator: nat)
    requires denominator > 0 && numerator > 0 && count > 0
    ensures Rank(count, numerator, denominator) > 0
  {
    RankLeast(count, numerator, denominator, 0);
    MulMonotone(count, 1, numerator);
  }

  lemma RankAtMostCount(count: nat, numerator: nat, denominator: nat)
    requires denominator > 0 && numerator <= denominator
    ensures Rank(count, numerator, denominator) <= count
  {
    RankLeast(count, numerator, denominator, count);
    MulMonotone(count, numerator, denominator);
  }

  lemma RankMonotone(count: nat, n: nat, d: nat, n': nat, d': nat)
    requires d > 0 && d' > 0 && n * d' <= n' * d
    ensures Rank(count, n, d) <= Rank(count, n', d')
  {
    var k := Rank(count, n', d');
    RankLeast(count, n', d', k);
    RankLeast(count, n, d, k);
    CrossMultiply(count, n, d, n', d', k);
  }

  lemma CrossMultiply(c: nat, n: nat, d: nat, n': nat, d': nat, k: nat)
    requires d > 0 && d' > 0 && n * d' <= n' * d && c * n' <= k * d'
    ensures c * n <= k * d
  {
    MulMonotone(c, n * d', n' * d);
    MulMonotone(d, c * n', k * d');
    MulAssociative(c, n, d');
    MulAssociative(c, n', d);
    MulAssociative(d, k, d');
    assert (c * n) * d' <= (k * d) * d';
    if k * d < c * n {
      MulMonotone(d', k * d + 1, c * n);
    }
  }
}
