/** Fisher's one-sided exact test, computed by advancing the hypergeometric mass along its support
    (tools/aeron_compare/compare_high_mode_rates.py). Floats are modelled as exact reals. */
module Fisher {
  import opened Words
  import opened Combinatorics

  /** Ways to spread s high rounds with v of them among the n2 candidate rounds. */
  function Ways(n1: nat, n2: nat, s: nat, v: int): nat {
    Choose(n2, v) * Choose(n1, s - v)
  }

  function Mass(n1: nat, n2: nat, s: nat, v: int): real
    requires s <= n1 + n2
  {
    Ways(n1, n2, s, v) as real / Choose(n1 + n2, s) as real
  }

  /** Ways(lo) + ... + Ways(hi - 1). */
  function WaysBetween(n1: nat, n2: nat, s: nat, lo: int, hi: int): nat
    decreases hi - lo
  {
    if hi <= lo then 0 else WaysBetween(n1, n2, s, lo, hi - 1) + Ways(n1, n2, s, hi - 1)
  }

  // ---------------------------------------------------------------- the recurrence

  /** The factor the source multiplies by carries one count of ways to the next. */
  lemma WaysNext(n1: nat, n2: nat, s: nat, v: nat)
    requires v < s
    ensures Ways(n1, n2, s, v + 1) * ((v + 1) * (n1 - s + v + 1)) == Ways(n1, n2, s, v) * ((n2 - v) * (s - v))
  {
    ChooseNext(n2, v);
    ChooseNext(n1, s - v - 1);
    Regroup(Choose(n2, v), Choose(n2, v + 1), v + 1, n2 - v,
            Choose(n1, s - v), Choose(n1, s - v - 1), s - v, n1 - s + v + 1);
  }

  lemma Regroup(a: int, a': int, p: int, q: int, b: int, b': int, r: int, t: int)
    requires p * a' == q * a && r * b == t * b'
    ensures (a' * b') * (p * t) == (a * b) * (q * r)
  {
    assert (a' * b') * (p * t) == (p * a') * (t * b');
    assert (a * b) * (q * r) == (q * a) * (r * b);
  }

  lemma ScaleRatio(w: real, w': real, d: real, a: real, b: real)
    requires d != 0.0 && b != 0.0 && w' * b == w * a
    ensures (w / d) * (a / b) == w' / d
  {
    assert (w / d) * (a / b) == (w * a) / (d * b);
    assert w' / d == (w' * b) / (d * b);
  }

  lemma MassNext(n1: nat, n2: nat, s: nat, v: nat)
    requires s <= n1 + n2 && Max(0, s - n1) <= v < Min(n2, s)
    ensures (v + 1) * (n1 - s + v + 1) > 0
    ensures Mass(n1, n2, s, v) * (((n2 - v) * (s - v)) as real / ((v + 1) * (n1 - s + v + 1)) as real)
         == Mass(n1, n2, s, v + 1)
  {
    hide Ways, Choose;
    WaysNext(n1, n2, s, v);
    MulMonotone(v + 1, 1, n1 - s + v + 1);
    ScaleWholeRatio(Ways(n1, n2, s, v), Ways(n1, n2, s, v + 1), Choose(n1 + n2, s),
                    (n2 - v) * (s - v), (v + 1) * (n1 - s + v + 1));
  }

  lemma ScaleWholeRatio(w: nat, w': nat, d: nat, a: int, b: int)
    requires d != 0 && b != 0 && w' * b == w * a
    ensures (w as real / d as real) * (a as real / b as real) == w' as real / d as real
  {
    RealProduct(w, a);
    RealProduct(w', b);
    ScaleRatio(w as real, w' as real, d as real, a as real, b as real);
  }

  lemma RealProduct(x: int, y: int)
    ensures (x * y) as real == x as real * y as real
  {
  }

  /** The upper tail of the hypergeometric distribution. */
  function Tail(n1: nat, n2: nat, s: nat, observed: int): real
    requires s <= n1 + n2
  {
    WaysBetween(n1, n2, s, observed, Min(n2, s) + 1) as real / Choose(n1 + n2, s) as real
  }

  /** fisher_exact_greater: x1 of n1 baseline rounds and x2 of n2 candidate rounds are high. */
  method ExactGreater(n1: nat, x1: nat, n2: nat, x2: nat) returns (p: real)
    requires x1 <= n1 && x2 <= n2
    ensures p == Tail(n1, n2, x1 + x2, x2)
  {
    hide Mass, Ways, WaysBetween, Choose, Tail;
    var successes := x1 + x2;
    var minimum := Max(0, successes - n1);
    var maximum := Min(n2, successes);
    if minimum > maximum {
      assert false;  // the early return of 1.0 is never taken
    }
    var current := Mass(n1, n2, successes, minimum);
    var probability := 0.0;
    NothingSummed(n1, n2, successes, x2, minimum);
    var value := minimum;
    while value < maximum + 1
      invariant minimum <= value <= maximum + 1
      invariant value <= maximum ==> current == Mass(n1, n2, successes, value)
      invariant probability == PartialTail(n1, n2, successes, x2, value)
    {
      PartialTailNext(n1, n2, successes, x2, value);
      if value >= x2 {
        probability := probability + current;
      }
      if value < maximum {
        MassNext(n1, n2, successes, value);
        current := current * (((n2 - value) * (successes - value)) as real
                              / ((value + 1) * (n1 - successes + value + 1)) as real);
      }
      value := value + 1;
    }
    TailIsPartial(n1, n2, successes, x2);
    TailRange(n1, n2, successes, x2);
    p := if probability < 0.0 then 0.0 else probability;
    p := if p > 1.0 then 1.0 else p;
  }

  /** The masses of the counts from the observed one up to but not including this one. */
  function PartialTail(n1: nat, n2: nat, s: nat, observed: int, value: int): real
    requires s <= n1 + n2
  {
    WaysBetween(n1, n2, s, observed, value) as real / Choose(n1 + n2, s) as real
  }

  lemma NothingSummed(n1: nat, n2: nat, s: nat, observed: int, value: int)
    requires s <= n1 + n2 && value <= observed
    ensures PartialTail(n1, n2, s, observed, value) == 0.0
  {
    hide Choose;
    assert WaysBetween(n1, n2, s, observed, value) == 0;
  }

  lemma PartialTailNext(n1: nat, n2: nat, s: nat, observed: int, value: int)
    requires s <= n1 + n2
    ensures PartialTail(n1, n2, s, observed, value + 1) ==
              PartialTail(n1, n2, s, observed, value) + (if value >= observed then Mass(n1, n2, s, value) else 0.0)
  {
    hide Choose, Ways;
    SumOverTotal(WaysBetween(n1, n2, s, observed, value), Ways(n1, n2, s, value), Choose(n1 + n2, s) as real);
  }

  lemma TailIsPartial(n1: nat, n2: nat, s: nat, observed: int)
    requires s <= n1 + n2
    ensures Tail(n1, n2, s, observed) == PartialTail(n1, n2, s, observed, Min(n2, s) + 1)
  {
  }

  lemma SumOverTotal(a: nat, b: nat, total: real)
    requires total != 0.0
    ensures a as real / total + b as real / total == (a + b) as real / total
  {
  }

  // ---------------------------------------------------------------- the reallocations

  /** The labellings of n2 candidate and n1 baseline rounds, each high or not, with s high rounds in
      all and at least `least` of the `hits` already placed plus those still to come on the
      candidate's side. Every labelling is visited; nothing is known about binomials here. */
  function Reallocations(n2: nat, n1: nat, s: int, hits: int, least: int): nat
    decreases n2 + n1
  {
    if n2 > 0 then
      Reallocations(n2 - 1, n1, s - 1, hits + 1, least) + Reallocations(n2 - 1, n1, s, hits, least)
    else if n1 > 0 then
      Reallocations(0, n1 - 1, s - 1, hits, least) + Reallocations(0, n1 - 1, s, hits, least)
    else if s == 0 && hits >= least then 1 else 0
  }

  lemma {:induction false} BaselineOnly(n1: nat, s: int, hits: int, least: int)
    ensures Reallocations(0, n1, s, hits, least) == if hits >= least then Choose(n1, s) else 0
    decreases n1
  {
    if n1 > 0 {
      BaselineOnly(n1 - 1, s - 1, hits, least);
      BaselineOnly(n1 - 1, s, hits, least);
    }
  }

  /** The ways with at most k hits to come whose number of hits reaches the least. */
  function WaysReaching(n1: nat, n2: nat, s: int, hits: int, least: int, k: int): nat
    decreases k + 1
  {
    if k < 0 then 0
    else WaysReaching(n1, n2, s, hits, least, k - 1) +
         (if hits + k >= least then Choose(n2, k) * Choose(n1, s - k) else 0)
  }

  /** Pascal's rule on the candidate's side. */
  lemma {:induction false} WaysReachingStep(n1: nat, n2: nat, s: int, hits: int, least: int, k: int)
    requires n2 > 0 && k >= -1
    ensures WaysReaching(n1, n2, s, hits, least, k) ==
              WaysReaching(n1, n2 - 1, s, hits, least, k) +
              WaysReaching(n1, n2 - 1, s - 1, hits + 1, least, k - 1)
    decreases k + 1
  {
    if k >= 0 {
      WaysReachingStep(n1, n2, s, hits, least, k - 1);
      var b := Choose(n1, s - k);
      assert (Choose(n2 - 1, k - 1) + Choose(n2 - 1, k)) * b
          == Choose(n2 - 1, k - 1) * b + Choose(n2 - 1, k) * b;
      assert s - 1 - (k - 1) == s - k;
    }
  }

  lemma {:induction false} OnlyZeroHits(n1: nat, s: int, hits: int, least: int, k: int)
    requires k >= 0
    ensures WaysReaching(n1, 0, s, hits, least, k) == if hits >= least then Choose(n1, s) else 0
    decreases k
  {
    if k > 0 {
      OnlyZeroHits(n1, s, hits, least, k - 1);
    }
  }

  lemma {:induction false} CountReallocations(n1: nat, n2: nat, s: int, hits: int, least: int, k: int)
    requires k >= n2
    ensures Reallocations(n2, n1, s, hits, least) == WaysReaching(n1, n2, s, hits, least, k)
    decreases n2
  {
    if n2 == 0 {
      BaselineOnly(n1, s, hits, least);
      OnlyZeroHits(n1, s, hits, least, k);
    } else {
      CountReallocations(n1, n2 - 1, s, hits, least, k);
      CountReallocations(n1, n2 - 1, s - 1, hits + 1, least, k - 1);
      WaysReachingStep(n1, n2, s, hits, least, k);
    }
  }

  lemma {:induction false} ReachingIsBetween(n1: nat, n2: nat, s: nat, least: nat, k: int)
    requires k >= -1
    ensures WaysReaching(n1, n2, s, 0, least, k) == WaysBetween(n1, n2, s, least, k + 1)
    decreases k + 1
  {
    if k >= 0 {
      ReachingIsBetween(n1, n2, s, least, k - 1);
      if k < least {
        assert WaysBetween(n1, n2, s, least, k + 1) == 0;
      }
    }
  }

  /** Beyond the support there are no ways. */
  lemma {:induction false} NoWaysAbove(n1: nat, n2: nat, s: nat, lo: int, hi: int)
    requires lo <= Min(n2, s) + 1 <= hi
    ensures WaysBetween(n1, n2, s, lo, hi) == WaysBetween(n1, n2, s, lo, Min(n2, s) + 1)
    decreases hi
  {
    if hi > Min(n2, s) + 1 {
      NoWaysAbove(n1, n2, s, lo, hi - 1);
    }
  }

  /** The reallocations in which the candidate does at least as well, counted one by one, are the
      tail of the ways. */
  lemma TailCountsReallocations(n1: nat, n2: nat, s: nat, x2: nat)
    requires x2 <= Min(n2, s) + 1
    ensures Reallocations(n2, n1, s, 0, x2) == WaysBetween(n1, n2, s, x2, Min(n2, s) + 1)
  {
    CountReallocations(n1, n2, s, 0, x2, n2);
    ReachingIsBetween(n1, n2, s, x2, n2);
    NoWaysAbove(n1, n2, s, x2, n2 + 1);
  }

  /** Vandermonde: without a condition on the candidate every choice of s rounds is counted. */
  lemma {:induction false} AllReallocations(n1: nat, n2: nat, s: int, hits: nat)
    ensures Reallocations(n2, n1, s, hits, 0) == Choose(n1 + n2, s)
    decreases n2
  {
    if n2 == 0 {
      BaselineOnly(n1, s, hits, 0);
    } else {
      AllReallocations(n1, n2 - 1, s - 1, hits + 1);
      AllReallocations(n1, n2 - 1, s, hits);
    }
  }

  lemma {:induction false} WaysSplit(n1: nat, n2: nat, s: nat, lo: int, mid: int, hi: int)
    requires lo <= mid <= hi
    ensures WaysBetween(n1, n2, s, lo, hi) == WaysBetween(n1, n2, s, lo, mid) + WaysBetween(n1, n2, s, mid, hi)
    decreases hi - mid
  {
    if mid < hi {
      WaysSplit(n1, n2, s, lo, mid, hi - 1);
    }
  }

  /** The masses of the support add up to one. */
  lemma SupportSumsToOne(n1: nat, n2: nat, s: nat)
    requires s <= n1 + n2
    ensures Tail(n1, n2, s, Max(0, s - n1)) == 1.0 == Tail(n1, n2, s, 0)
  {
    hide Ways, Choose, WaysBetween;
    TailCountsReallocations(n1, n2, s, 0);
    AllReallocations(n1, n2, s, 0);
    var low := Max(0, s - n1);
    WaysSplit(n1, n2, s, 0, low, Min(n2, s) + 1);
    NoWaysBelow(n1, n2, s, low);
    WholeShare(Choose(n1 + n2, s));
  }

  lemma WholeShare(b: nat)
    requires b > 0
    ensures b as real / b as real == 1.0
  {
  }

  lemma {:induction false} NoWaysBelow(n1: nat, n2: nat, s: nat, hi: nat)
    requires hi <= Max(0, s - n1)
    ensures WaysBetween(n1, n2, s, 0, hi) == 0
    decreases hi
  {
    if hi > 0 {
      NoWaysBelow(n1, n2, s, hi - 1);
    }
  }

  lemma WaysPositive(n1: nat, n2: nat, s: nat, v: int)
    requires Max(0, s - n1) <= v <= Min(n2, s)
    ensures Ways(n1, n2, s, v) > 0
  {
    MulMonotone(Choose(n2, v), 1, Choose(n1, s - v));
  }

  /** The returned value is a probability, and never zero. */
  lemma TailRange(n1: nat, n2: nat, s: nat, x2: nat)
    requires s <= n1 + n2 && Max(0, s - n1) <= x2 <= Min(n2, s)
    ensures 0.0 < Tail(n1, n2, s, x2) <= 1.0
  {
    WaysSplit(n1, n2, s, 0, x2, Min(n2, s) + 1);
    WaysSplit(n1, n2, s, x2, x2 + 1, Min(n2, s) + 1);
    WaysPositive(n1, n2, s, x2);
    assert WaysBetween(n1, n2, s, x2, x2 + 1) == Ways(n1, n2, s, x2);
    TailCountsReallocations(n1, n2, s, 0);
    AllReallocations(n1, n2, s, 0);
    Fraction(WaysBetween(n1, n2, s, x2, Min(n2, s) + 1), Choose(n1 + n2, s));
  }

  lemma Fraction(a: nat, b: nat)
    requires 0 < a <= b
    ensures 0.0 < a as real / b as real <= 1.0
  {
  }

  /** The p-value is the share, among all equally likely reallocations of the high rounds, of those
      in which the candidate has at least as many as observed. */
  lemma PValueIsShareOfReallocations(n1: nat, x1: nat, n2: nat, x2: nat)
    requires x1 <= n1 && x2 <= n2
    ensures Reallocations(n2, n1, x1 + x2, 0, 0) > 0
    ensures Tail(n1, n2, x1 + x2, x2) ==
              Reallocations(n2, n1, x1 + x2, 0, x2) as real / Reallocations(n2, n1, x1 + x2, 0, 0) as real
  {
    TailCountsReallocations(n1, n2, x1 + x2, x2);
    AllReallocations(n1, n2, x1 + x2, 0);
  }

  /** With the margins fixed, each further high candidate round lowers the p-value by exactly the
      mass of the count it leaves behind. */
  lemma TailDecreases(n1: nat, n2: nat, s: nat, x2: nat)
    requires s <= n1 + n2 && Max(0, s - n1) <= x2 < Min(n2, s)
    ensures Tail(n1, n2, s, x2 + 1) == Tail(n1, n2, s, x2) - Mass(n1, n2, s, x2) < Tail(n1, n2, s, x2)
  {
    WaysSplit(n1, n2, s, x2, x2 + 1, Min(n2, s) + 1);
    assert WaysBetween(n1, n2, s, x2, x2 + 1) == Ways(n1, n2, s, x2);
    WaysPositive(n1, n2, s, x2);
    var rest, total := WaysBetween(n1, n2, s, x2 + 1, Min(n2, s) + 1), Choose(n1 + n2, s);
    SumOverTotal(rest, Ways(n1, n2, s, x2), total as real);
    PositiveShare(Ways(n1, n2, s, x2), total);
  }

  lemma PositiveShare(a: nat, b: nat)
    requires 0 < a && 0 < b
    ensures a as real / b as real > 0.0
  {
  }
}
