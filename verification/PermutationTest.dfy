/** The exact two-sided permutation test on two arms of groups
    (tools/aeron_compare/compare_throughput_ab.py), for any number of groups an arm. Floats are
    modelled as exact reals. */
module PermutationTest {
  import opened Words
  import opened Bits
  import opened Combinatorics

  const TOLERANCE: real := 0.000_000_000_001

  function Abs(x: real): real {
    if x < 0.0 then -x else x
  }

  function Sum(values: seq<real>): real {
    if values == [] then 0.0 else Sum(values[..|values| - 1]) + values[|values| - 1]
  }

  function Mean(values: seq<real>): real
    requires values != []
  {
    Sum(values) / |values| as real
  }

  /** The values whose bit in the mask is as wanted, in index order. */
  function Chosen(values: seq<real>, mask: nat, wanted: bool): seq<real> {
    if values == [] then []
    else
      var k := |values| - 1;
      Chosen(values[..k], mask, wanted) + (if Bit(mask, k) == wanted then [values[k]] else [])
  }

  /** A mask's candidate arm is as far from its baseline arm as the observed one. */
  predicate Extreme(values: seq<real>, mask: nat, observed: real) {
    var candidate := Chosen(values, mask, true);
    var baseline := Chosen(values, mask, false);
    candidate != [] && baseline != [] &&
    Abs(Mean(candidate) - Mean(baseline)) + TOLERANCE >= Abs(observed)
  }

  /** Masks below hi with the asked number of bits. */
  function PartitionsBelow(groups: nat, hi: nat): nat {
    if hi == 0 then 0
    else PartitionsBelow(groups, hi - 1) + (if PopCount(hi - 1) == groups then 1 else 0)
  }

  /** Those among them that are extreme. */
  function ExtremesBelow(values: seq<real>, groups: nat, observed: real, hi: nat): nat {
    if hi == 0 then 0
    else ExtremesBelow(values, groups, observed, hi - 1) +
         (if PopCount(hi - 1) == groups && Extreme(values, hi - 1, observed) then 1 else 0)
  }

  datatype Outcome =
    | WrongGroupCount
    | EmptyArm
    | Tested(observed: real, extreme: nat, partitions: nat)
  {
    function PValue(): real
      requires Tested? && partitions > 0
    {
      extreme as real / partitions as real
    }
  }

  method Test(groups: nat, baseline: seq<real>, candidate: seq<real>) returns (r: Outcome)
    requires groups > 0
    ensures |baseline| + |candidate| != 2 * groups ==> r == WrongGroupCount
    ensures |baseline| + |candidate| == 2 * groups && (baseline == [] || candidate == []) ==> r == EmptyArm
    ensures |baseline| + |candidate| == 2 * groups && baseline != [] && candidate != [] ==>
              r == TestOf(groups, baseline, candidate)
  {
    hide Sum, Mean, Chosen, PopCount, Pow2;
    var values := baseline + candidate;
    if |values| != 2 * groups {
      return WrongGroupCount;
    }
    if candidate == [] || baseline == [] {
      return EmptyArm;
    }
    var observed := Mean(candidate) - Mean(baseline);
    var total, extreme := 0, 0;
    var n := |values|;
    for mask := 0 to Pow2(n)
      invariant total == PartitionsBelow(groups, mask)
      invariant extreme == ExtremesBelow(values, groups, observed, mask)
    {
      if PopCount(mask) == groups {
        var chosen := Chosen(values, mask, true);
        var others := Chosen(values, mask, false);
        ArmSizes(values, mask);
        var difference := Mean(chosen) - Mean(others);
        total := total + 1;
        if Abs(difference) + TOLERANCE >= Abs(observed) {
          extreme := extreme + 1;
        }
      }
    }
    r := Tested(observed, extreme, total);
  }

  function TestOf(groups: nat, baseline: seq<real>, candidate: seq<real>): (r: Outcome)
    requires baseline != [] && candidate != []
    ensures r.Tested?
  {
    var values := baseline + candidate;
    var observed := Mean(candidate) - Mean(baseline);
    Tested(observed, ExtremesBelow(values, groups, observed, Pow2(|values|)),
           PartitionsBelow(groups, Pow2(|values|)))
  }

  // ---------------------------------------------------------------- masks and lists

  /** A mask over the values splits them into arms of as many as it has bits and the rest. */
  lemma {:induction false} ArmSizes(values: seq<real>, mask: nat)
    requires mask < Pow2(|values|)
    ensures |Chosen(values, mask, true)| == PopCount(mask)
    ensures |Chosen(values, mask, false)| == |values| - PopCount(mask)
  {
    if values != [] {
      var k := |values| - 1;
      if mask < Pow2(k) {
        ArmSizes(values[..k], mask);
        BitAbove(mask, k);
      } else {
        var low := mask - Pow2(k);
        ArmSizes(values[..k], low);
        PopCountHighBit(low, k);
        AddHighBit(low, k, k);
        ChosenLow(values[..k], low, k, true);
        ChosenLow(values[..k], low, k, false);
      }
    }
  }

  /** A bit above the values does not matter. */
  lemma {:induction false} ChosenLow(values: seq<real>, low: nat, k: nat, wanted: bool)
    requires |values| <= k && low < Pow2(k)
    ensures Chosen(values, low + Pow2(k), wanted) == Chosen(values, low, wanted)
  {
    if values != [] {
      ChosenLow(values[..|values| - 1], low, k, wanted);
      AddHighBit(low, k, |values| - 1);
    }
  }

  lemma {:induction false} ArmSums(values: seq<real>, mask: nat)
    ensures Sum(Chosen(values, mask, true)) + Sum(Chosen(values, mask, false)) == Sum(values)
  {
    if values != [] {
      var k := |values| - 1;
      ArmSums(values[..k], mask);
      SumAppend(Chosen(values[..k], mask, true), values[k]);
      SumAppend(Chosen(values[..k], mask, false), values[k]);
    }
  }

  lemma SumAppend(s: seq<real>, x: real)
    ensures Sum(s + [x]) == Sum(s) + x && Sum(s + []) == Sum(s)
  {
    assert (s + [x])[..|s|] == s;
    assert s + [] == s;
  }

  // ---------------------------------------------------------------- splits without masks

  /** What decides whether a candidate arm is extreme: the pooled sum, the arm size and the observed
      difference. */
  datatype Context = Context(pooled: real, groups: nat, observed: real)

  predicate ExtremeSum(c: Context, candidateSum: real)
    requires c.groups > 0
  {
    Abs(candidateSum / c.groups as real - (c.pooled - candidateSum) / c.groups as real) + TOLERANCE
      >= Abs(c.observed)
  }

  /** The ways to pick k more of the values for a candidate arm that already sums to acc and come
      out extreme: take the last value or leave it. */
  function Splits(c: Context, values: seq<real>, k: int, acc: real): nat
    requires c.groups > 0
  {
    if values == [] then (if k == 0 && ExtremeSum(c, acc) then 1 else 0)
    else
      var rest, last := values[..|values| - 1], values[|values| - 1];
      Splits(c, rest, k, acc) + Splits(c, rest, k - 1, acc + last)
  }

  /** The same count over the masks below hi. */
  function MaskSplits(c: Context, values: seq<real>, k: int, acc: real, hi: nat): nat
    requires c.groups > 0
  {
    if hi == 0 then 0
    else MaskSplits(c, values, k, acc, hi - 1) +
         (if PopCount(hi - 1) == k && ExtremeSum(c, acc + Sum(Chosen(values, hi - 1, true))) then 1 else 0)
  }

  /** Masks without the top bit leave the last value. */
  lemma {:induction false} LowMasks(c: Context, values: seq<real>, k: int, acc: real, hi: nat)
    requires c.groups > 0 && values != [] && hi <= Pow2(|values| - 1)
    ensures MaskSplits(c, values, k, acc, hi) == MaskSplits(c, values[..|values| - 1], k, acc, hi)
  {
    hide Pow2, PopCount, Chosen, Sum, ExtremeSum;
    if hi > 0 {
      LowMasks(c, values, k, acc, hi - 1);
      LowMask(values, hi - 1);
    }
  }

  lemma LowMask(values: seq<real>, low: nat)
    requires values != [] && low < Pow2(|values| - 1)
    ensures Chosen(values, low, true) == Chosen(values[..|values| - 1], low, true)
  {
    BitAbove(low, |values| - 1);
  }

  lemma HighMask(values: seq<real>, low: nat, acc: real)
    requires values != [] && low < Pow2(|values| - 1)
    ensures var rest, last, mask := values[..|values| - 1], values[|values| - 1], Pow2(|values| - 1) + low;
            PopCount(mask) == PopCount(low) + 1 &&
            acc + Sum(Chosen(values, mask, true)) == (acc + last) + Sum(Chosen(rest, low, true))
  {
    var rest, last, top := values[..|values| - 1], values[|values| - 1], Pow2(|values| - 1);
    PopCountHighBit(low, |rest|);
    AddHighBit(low, |rest|, |rest|);
    ChosenLow(rest, low, |rest|, true);
    assert Chosen(values, low + top, true) == Chosen(rest, low, true) + [last];
    SumAppend(Chosen(rest, low, true), last);
  }

  /** Masks with it take the last value. */
  lemma {:induction false} HighMasks(c: Context, values: seq<real>, k: int, acc: real, hi: nat)
    requires c.groups > 0 && values != [] && hi <= Pow2(|values| - 1)
    ensures var rest, last, top := values[..|values| - 1], values[|values| - 1], Pow2(|values| - 1);
            MaskSplits(c, values, k, acc, top + hi) ==
              MaskSplits(c, values, k, acc, top) + MaskSplits(c, rest, k - 1, acc + last, hi)
  {
    hide Pow2, PopCount, Chosen, Sum, ExtremeSum;
    if hi > 0 {
      HighMasks(c, values, k, acc, hi - 1);
      HighMask(values, hi - 1, acc);
    }
  }

  lemma {:induction false} MasksAreSplits(c: Context, values: seq<real>, k: int, acc: real)
    requires c.groups > 0
    ensures MaskSplits(c, values, k, acc, Pow2(|values|)) == Splits(c, values, k, acc)
  {
    if values == [] {
      assert MaskSplits(c, values, k, acc, 1) == Splits(c, values, k, acc);
    } else {
      var rest, last := values[..|values| - 1], values[|values| - 1];
      LowMasks(c, values, k, acc, Pow2(|rest|));
      HighMasks(c, values, k, acc, Pow2(|rest|));
      MasksAreSplits(c, rest, k, acc);
      MasksAreSplits(c, rest, k - 1, acc + last);
    }
  }

  lemma {:induction false} ExtremesAreMaskSplits(values: seq<real>, groups: nat, observed: real, hi: nat)
    requires groups > 0 && |values| == 2 * groups && hi <= Pow2(|values|)
    ensures ExtremesBelow(values, groups, observed, hi) ==
              MaskSplits(Context(Sum(values), groups, observed), values, groups, 0.0, hi)
  {
    hide Chosen, Sum, PopCount, Pow2, Extreme, ExtremeSum;
    if hi > 0 {
      ExtremesAreMaskSplits(values, groups, observed, hi - 1);
      if PopCount(hi - 1) == groups {
        ExtremeBySum(values, hi - 1, groups, observed);
      }
    }
  }

  lemma ExtremeBySum(values: seq<real>, mask: nat, groups: nat, observed: real)
    requires groups > 0 && |values| == 2 * groups && mask < Pow2(|values|) && PopCount(mask) == groups
    ensures Extreme(values, mask, observed) <==>
              ExtremeSum(Context(Sum(values), groups, observed), 0.0 + Sum(Chosen(values, mask, true)))
  {
    hide Chosen, Sum, PopCount, Pow2;
    ArmSums(values, mask);
    ArmSizes(values, mask);
  }

  /** The mask loop counts every way to pick the candidate arm, once. */
  lemma ExtremesAreSplits(values: seq<real>, groups: nat, observed: real)
    requires groups > 0 && |values| == 2 * groups
    ensures ExtremesBelow(values, groups, observed, Pow2(|values|)) ==
              Splits(Context(Sum(values), groups, observed), values, groups, 0.0)
  {
    ExtremesAreMaskSplits(values, groups, observed, Pow2(|values|));
    MasksAreSplits(Context(Sum(values), groups, observed), values, groups, 0.0);
  }

  // ---------------------------------------------------------------- the number of partitions

  lemma {:induction false} PartitionsStep(k: nat, top: nat, hi: nat)
    requires hi <= Pow2(top)
    ensures PartitionsBelow(k, Pow2(top) + hi) ==
              PartitionsBelow(k, Pow2(top)) + (if k == 0 then 0 else PartitionsBelow(k - 1, hi))
  {
    if hi > 0 {
      PartitionsStep(k, top, hi - 1);
      PopCountHighBit(hi - 1, top);
    }
  }

  /** The loop visits exactly the ways to choose k of n groups. */
  lemma {:induction false} PartitionsAreChoose(k: nat, n: nat)
    ensures PartitionsBelow(k, Pow2(n)) == Choose(n, k)
  {
    if n == 0 {
      assert PartitionsBelow(k, 1) == if k == 0 then 1 else 0;
    } else {
      PartitionsStep(k, n - 1, Pow2(n - 1));
      PartitionsAreChoose(k, n - 1);
      if k > 0 {
        PartitionsAreChoose(k - 1, n - 1);
      }
    }
  }

  // ---------------------------------------------------------------- the complement

  /** Exchanging the arms of a split changes only the sign of its difference. */
  lemma ExtremeSumSymmetric(c: Context, x: real)
    requires c.groups > 0
    ensures ExtremeSum(c, x) <==> ExtremeSum(c, c.pooled - x)
  {
    assert c.pooled - (c.pooled - x) == x;
  }

  lemma {:induction false} Complement(c: Context, values: seq<real>, k: int, acc: real)
    requires c.groups > 0
    ensures Splits(c, values, k, acc) == Splits(c, values, |values| - k, c.pooled - acc - Sum(values))
  {
    if values == [] {
      ExtremeSumSymmetric(c, acc);
    } else {
      var rest, last := values[..|values| - 1], values[|values| - 1];
      Complement(c, rest, k, acc);
      Complement(c, rest, k - 1, acc + last);
      assert c.pooled - acc - Sum(rest) == c.pooled - acc - Sum(values) + last;
      assert c.pooled - (acc + last) - Sum(rest) == c.pooled - acc - Sum(values);
    }
  }

  /** Splits with the last value in the candidate arm pair off with those without it. */
  lemma HalvesEqual(c: Context, values: seq<real>)
    requires c.groups > 0 && |values| == 2 * c.groups && c.pooled == Sum(values)
    ensures Splits(c, values, c.groups, 0.0) == 2 * Splits(c, values[..|values| - 1], c.groups, 0.0)
  {
    var rest, last := values[..|values| - 1], values[|values| - 1];
    Complement(c, rest, c.groups, 0.0);
    assert c.pooled - 0.0 - Sum(rest) == 0.0 + last;
  }

  // ---------------------------------------------------------------- the observed split

  lemma {:induction false} LeaveAll(c: Context, values: seq<real>, acc: real)
    requires c.groups > 0 && ExtremeSum(c, acc)
    ensures Splits(c, values, 0, acc) >= 1
  {
    if values != [] {
      LeaveAll(c, values[..|values| - 1], acc);
    }
  }

  lemma {:induction false} TakeAll(c: Context, baseline: seq<real>, candidate: seq<real>, acc: real)
    requires c.groups > 0 && ExtremeSum(c, acc + Sum(candidate))
    ensures Splits(c, baseline + candidate, |candidate|, acc) >= 1
    decreases |candidate|
  {
    if candidate == [] {
      assert baseline + candidate == baseline;
      assert acc + Sum(candidate) == acc;
      LeaveAll(c, baseline, acc);
    } else {
      var rest, last := candidate[..|candidate| - 1], candidate[|candidate| - 1];
      assert acc + Sum(candidate) == (acc + last) + Sum(rest);
      TakeAll(c, baseline, rest, acc + last);
      var values := baseline + candidate;
      assert values[..|values| - 1] == baseline + rest;
    }
  }

  lemma {:induction false} SumConcat(a: seq<real>, b: seq<real>)
    ensures Sum(a + b) == Sum(a) + Sum(b)
    decreases |b|
  {
    if b == [] {
      assert a + b == a;
    } else {
      SumConcat(a, b[..|b| - 1]);
      assert (a + b)[..|a + b| - 1] == a + b[..|b| - 1];
    }
  }

  /** The result of the test on equal arms: the extreme count is even, because a split and its
      exchange are counted together, and at least two, because the observed split is one of them.
      So the p-value lies between 2 / C(2G, G) and 1. */
  lemma ExtremeCount(groups: nat, baseline: seq<real>, candidate: seq<real>)
    requires groups > 0 && |baseline| == |candidate| == groups
    ensures var r := TestOf(groups, baseline, candidate);
            && r.partitions == Choose(2 * groups, groups) && r.extreme % 2 == 0 && 2 <= r.extreme <= r.partitions
            && r.PValue() * r.partitions as real == r.extreme as real
  {
    hide Splits, ExtremesBelow, PartitionsBelow, Choose, Pow2, Sum, Mean, ExtremeSum;
    var values := baseline + candidate;
    var observed := Mean(candidate) - Mean(baseline);
    var c := Context(Sum(values), groups, observed);
    ExtremesAreSplits(values, groups, observed);
    PartitionsAreChoose(groups, 2 * groups);
    HalvesEqual(c, values);
    ObservedIsExtreme(groups, baseline, candidate);
    TakeAll(c, baseline, candidate, 0.0);
    ExtremesAtMostPartitions(values, groups, observed, Pow2(|values|));
  }

  lemma ObservedIsExtreme(groups: nat, baseline: seq<real>, candidate: seq<real>)
    requires groups > 0 && |baseline| == |candidate| == groups
    ensures ExtremeSum(Context(Sum(baseline + candidate), groups, Mean(candidate) - Mean(baseline)),
                       0.0 + Sum(candidate))
  {
    hide Sum;
    SumConcat(baseline, candidate);
    assert Sum(baseline + candidate) - (0.0 + Sum(candidate)) == Sum(baseline);
  }

  lemma {:induction false} ExtremesAtMostPartitions(values: seq<real>, groups: nat, observed: real, hi: nat)
    ensures ExtremesBelow(values, groups, observed, hi) <= PartitionsBelow(groups, hi)
  {
    if hi > 0 {
      ExtremesAtMostPartitions(values, groups, observed, hi - 1);
    }
  }

  // ---------------------------------------------------------------- order does not matter

  lemma {:induction false} MoveToEnd(c: Context, xs: seq<real>, x: real, ys: seq<real>, k: int, acc: real)
    requires c.groups > 0
    ensures Splits(c, xs + [x] + ys, k, acc) == Splits(c, xs + ys + [x], k, acc)
    decreases |ys|
  {
    if ys == [] {
      assert xs + [x] + ys == xs + ys + [x];
    } else {
      var rest, y := ys[..|ys| - 1], ys[|ys| - 1];
      var from, to := xs + [x] + ys, xs + ys + [x];
      assert from[..|from| - 1] == xs + [x] + rest && to[..|to| - 1] == xs + ys;
      assert (xs + ys)[..|xs + ys| - 1] == xs + rest;
      MoveToEnd(c, xs, x, rest, k, acc);
      MoveToEnd(c, xs, x, rest, k - 1, acc + y);
      var both := xs + rest + [x];
      assert both[..|both| - 1] == xs + rest;
      assert acc + x + y == acc + y + x;
    }
  }

  lemma SameLength(v: seq<real>, w: seq<real>)
    requires multiset(v) == multiset(w)
    ensures |v| == |w|
  {
    assert |v| == |multiset(v)| == |multiset(w)| == |w|;
  }

  /** Taking the last value of one list out of a rearrangement of it. */
  lemma Remove(v: seq<real>, w: seq<real>) returns (xs: seq<real>, ys: seq<real>)
    requires v != [] && multiset(v) == multiset(w)
    ensures w == xs + [v[|v| - 1]] + ys && multiset(v[..|v| - 1]) == multiset(xs + ys)
  {
    var rest, x := v[..|v| - 1], v[|v| - 1];
    assert v == rest + [x];
    assert x in multiset(w);
    var i :| 0 <= i < |w| && w[i] == x;
    xs, ys := w[..i], w[i + 1..];
    assert w == xs + [x] + ys;
    MultisetWithout(rest, [], x);
    MultisetWithout(xs, ys, x);
    assert rest + [x] + [] == v && rest + [] == rest;
  }

  lemma MultisetWithout(xs: seq<real>, ys: seq<real>, x: real)
    ensures multiset(xs + ys) == multiset(xs + [x] + ys) - multiset{x}
  {
    assert multiset(xs + [x] + ys) == multiset(xs + ys) + multiset{x};
  }

  /** Only the multiset of the pooled values counts. */
  lemma {:induction false} SplitsOfMultiset(c: Context, v: seq<real>, w: seq<real>, k: int, acc: real)
    requires c.groups > 0 && multiset(v) == multiset(w)
    ensures Splits(c, v, k, acc) == Splits(c, w, k, acc)
    decreases |v|
  {
    SameLength(v, w);
    if v != [] {
      var rest, x := v[..|v| - 1], v[|v| - 1];
      var xs, ys := Remove(v, w);
      MoveToEnd(c, xs, x, ys, k, acc);
      var moved := xs + ys + [x];
      assert moved[..|moved| - 1] == xs + ys;
      SplitsOfMultiset(c, rest, xs + ys, k, acc);
      SplitsOfMultiset(c, rest, xs + ys, k - 1, acc + x);
    }
  }

  lemma {:induction false} SumOfMultiset(v: seq<real>, w: seq<real>)
    requires multiset(v) == multiset(w)
    ensures Sum(v) == Sum(w) && |v| == |w|
    decreases |v|
  {
    SameLength(v, w);
    if v != [] {
      var rest, x := v[..|v| - 1], v[|v| - 1];
      var xs, ys := Remove(v, w);
      SumConcat(xs + [x], ys);
      SumAppend(xs, x);
      SumConcat(xs, ys);
      SumOfMultiset(rest, xs + ys);
    }
  }

  lemma ObservedSign(c: Context, values: seq<real>, k: int, acc: real, observed: real)
    requires c.groups > 0 && Abs(observed) == Abs(c.observed)
    ensures Splits(c, values, k, acc) == Splits(c.(observed := observed), values, k, acc)
    decreases |values|
  {
    if values != [] {
      ObservedSign(c, values[..|values| - 1], k, acc, observed);
      ObservedSign(c, values[..|values| - 1], k - 1, acc + values[|values| - 1], observed);
    }
  }

  lemma SameExtremes(v: seq<real>, w: seq<real>, groups: nat, observed: real, observed': real)
    requires groups > 0 && |v| == 2 * groups && multiset(v) == multiset(w)
    requires Abs(observed) == Abs(observed')
    ensures |w| == |v|
    ensures ExtremesBelow(v, groups, observed, Pow2(|v|)) == ExtremesBelow(w, groups, observed', Pow2(|w|))
  {
    SumOfMultiset(v, w);
    ExtremesAreSplits(v, groups, observed);
    ExtremesAreSplits(w, groups, observed');
    var c := Context(Sum(v), groups, observed);
    SplitsOfMultiset(c, v, w, groups, 0.0);
    ObservedSign(c, w, groups, 0.0, observed');
  }

  /** Reordering the groups within an arm leaves the whole result unchanged. */
  lemma OrderWithinArms(groups: nat, b: seq<real>, c: seq<real>, b': seq<real>, c': seq<real>)
    requires groups > 0 && |b| + |c| == 2 * groups && b != [] && c != []
    requires multiset(b) == multiset(b') && multiset(c) == multiset(c')
    ensures b' != [] && c' != [] && TestOf(groups, b, c) == TestOf(groups, b', c')
  {
    SumOfMultiset(b, b');
    SumOfMultiset(c, c');
    assert multiset(b + c) == multiset(b' + c');
    SameExtremes(b + c, b' + c', groups, Mean(c) - Mean(b), Mean(c') - Mean(b'));
  }

  /** Exchanging the arms flips the observed difference and keeps the p-value. */
  lemma ExchangeArms(groups: nat, b: seq<real>, c: seq<real>)
    requires groups > 0 && |b| + |c| == 2 * groups && b != [] && c != []
    ensures var r, r' := TestOf(groups, b, c), TestOf(groups, c, b);
            r'.observed == -r.observed && r'.extreme == r.extreme && r'.partitions == r.partitions
  {
    hide ExtremesBelow, PartitionsBelow, Mean, Pow2;
    assert multiset(b + c) == multiset(c + b);
    SameExtremes(b + c, c + b, groups, Mean(c) - Mean(b), Mean(b) - Mean(c));
  }

  // ---------------------------------------------------------------- which splits are counted

  /** A mask's arms, neither empty, whose means are at least as far apart as the observed ones, less
      1e-12. */
  predicate FarApart(values: seq<real>, mask: nat, observed: real) {
    var c, b := Chosen(values, mask, true), Chosen(values, mask, false);
    c != [] && b != [] &&
    var d := Mean(c) - Mean(b);
    (if d < 0.0 then -d else d) >= (if observed < 0.0 then -observed else observed) - 0.000_000_000_001
  }

  function Counted(values: seq<real>, groups: nat, observed: real, hi: nat): set<nat> {
    set mask | 0 <= mask < hi && PopCount(mask) == groups && FarApart(values, mask, observed)
  }

  lemma ExtremeIff(values: seq<real>, mask: nat, observed: real)
    ensures Extreme(values, mask, observed) <==> FarApart(values, mask, observed)
  {
    hide Mean, Chosen;
  }

  lemma {:induction false} ExtremesAreCounted(values: seq<real>, groups: nat, observed: real, hi: nat)
    ensures ExtremesBelow(values, groups, observed, hi) == |Counted(values, groups, observed, hi)|
  {
    hide FarApart, Extreme, PopCount;
    if hi > 0 {
      ExtremeIff(values, hi - 1, observed);
      ExtremesAreCounted(values, groups, observed, hi - 1);
      assert Counted(values, groups, observed, hi) == Counted(values, groups, observed, hi - 1) +
             (if PopCount(hi - 1) == groups && FarApart(values, hi - 1, observed) then {hi - 1} else {});
    } else {
      assert Counted(values, groups, observed, 0) == {};
    }
  }

  /** The test counts exactly the splits into arms of G groups that are at least as far apart as the
      observed arms, less 1e-12. */
  lemma CountsFarApart(groups: nat, baseline: seq<real>, candidate: seq<real>)
    requires groups > 0 && |baseline| + |candidate| == 2 * groups && baseline != [] && candidate != []
    ensures var values, observed := baseline + candidate, Mean(candidate) - Mean(baseline);
            TestOf(groups, baseline, candidate).extreme == |Counted(values, groups, observed, Pow2(2 * groups))|
  {
    ExtremesAreCounted(baseline + candidate, groups, Mean(candidate) - Mean(baseline), Pow2(2 * groups));
  }

  /** Picking fewer than none, or more than there are, is impossible. */
  lemma {:induction false} NoSuchPick(c: Context, values: seq<real>, k: int, acc: real)
    requires c.groups > 0 && (k < 0 || k > |values|)
    ensures Splits(c, values, k, acc) == 0
  {
    if values != [] {
      NoSuchPick(c, values[..|values| - 1], k, acc);
      NoSuchPick(c, values[..|values| - 1], k - 1, acc + values[|values| - 1]);
    }
  }

  lemma {:induction false} PickNone(c: Context, values: seq<real>, acc: real)
    requires c.groups > 0
    ensures Splits(c, values, 0, acc) == if ExtremeSum(c, acc) then 1 else 0
  {
    if values != [] {
      PickNone(c, values[..|values| - 1], acc);
      NoSuchPick(c, values[..|values| - 1], -1, acc + values[|values| - 1]);
    }
  }

  lemma {:induction false} PickAll(c: Context, values: seq<real>, acc: real)
    requires c.groups > 0
    ensures Splits(c, values, |values|, acc) == if ExtremeSum(c, acc + Sum(values)) then 1 else 0
  {
    if values == [] {
      assert acc + Sum(values) == acc;
    } else {
      var rest, last := values[..|values| - 1], values[|values| - 1];
      NoSuchPick(c, rest, |values|, acc);
      PickAll(c, rest, acc + last);
      assert acc + Sum(values) == (acc + last) + Sum(rest);
    }
  }

  function Times(n: int, x: real): real {
    n as real * x
  }

  lemma TimesStep(n: int, x: real)
    ensures Times(n + 1, x) == Times(n, x) + x && Times(0, x) == 0.0 && Times(1, x) == x
  {
  }

  /** Picking k of values that are at most top gives a sum within these bounds. */
  lemma {:induction false} PickBetween(c: Context, values: seq<real>, k: int, acc: real, top: real)
    requires c.groups > 0 && forall i :: 0 <= i < |values| ==> values[i] <= top
    requires forall x: real :: acc + Sum(values) - Times(|values| - k, top) <= x <= acc + Times(k, top) ==>
               !ExtremeSum(c, x)
    ensures Splits(c, values, k, acc) == 0
  {
    hide ExtremeSum, Times;
    if values == [] {
      TimesStep(0, top);
      assert k == 0 ==> acc + Sum(values) - Times(|values| - k, top) == acc == acc + Times(k, top);
    } else {
      var rest, last := values[..|values| - 1], values[|values| - 1];
      TimesStep(|rest| - k, top);
      TimesStep(k - 1, top);
      PickBetween(c, rest, k, acc, top);
      PickBetween(c, rest, k - 1, acc + last, top);
    }
  }

  /** The arms are told apart by two levels, every candidate value at least high and every baseline
      value at most low, and picking so that the candidate sum lies properly between the two arms'
      sums, by the gap or more, is not extreme. */
  ghost predicate Levels(c: Context, baseline: seq<real>, candidate: seq<real>, low: real, high: real) {
    && c.groups == |baseline| == |candidate| > 0 && low <= high
    && (forall i :: 0 <= i < |baseline| ==> baseline[i] <= low)
    && (forall i :: 0 <= i < |candidate| ==> candidate[i] >= high)
    && (forall x: real :: Sum(baseline) + (high - low) <= x <= Sum(candidate) - (high - low) ==> !ExtremeSum(c, x))
    && ExtremeSum(c, Sum(baseline)) && ExtremeSum(c, Sum(candidate))
  }

  /** With n candidate values to go, taken ones summing to acc and left ones left out, only taking all
      of the candidate arm or none of it can still come out extreme. */
  lemma {:induction false} OnlyWholeArms(
      c: Context, baseline: seq<real>, candidate: seq<real>, low: real, high: real, n: nat, left: nat, acc: real)
    requires Levels(c, baseline, candidate, low, high) && n + left <= c.groups
    requires var taken := c.groups - n - left;
             && acc >= Times(taken, high) && (taken == 0 ==> acc == 0.0)
             && Sum(candidate) - Sum(candidate[..n]) - acc >= Times(left, high)
             && (left == 0 ==> acc == Sum(candidate) - Sum(candidate[..n]))
    ensures Splits(c, baseline + candidate[..n], n + left, acc) ==
              (if left == 0 then 1 else 0) + (if n + left == c.groups then 1 else 0)
    decreases n
  {
    hide ExtremeSum, Splits, Times;
    if n == 0 {
      assert baseline + candidate[..0] == baseline && Sum(candidate[..0]) == 0.0;
      BaselinePicks(c, baseline, candidate, low, high, left, acc);
    } else {
      var last := candidate[n - 1];
      assert candidate[..n][..n - 1] == candidate[..n - 1] && candidate[..n][n - 1] == last;
      TimesStep(left, high);
      TimesStep(c.groups - n - left, high);
      if left == 0 {
        assert acc + last == Sum(candidate) - Sum(candidate[..n - 1]);
      }
      OnlyWholeArms(c, baseline, candidate, low, high, n - 1, left + 1, acc);
      OnlyWholeArms(c, baseline, candidate, low, high, n - 1, left, acc + last);
      LastOf(c, baseline, candidate[..n], n + left, acc);
    }
  }

  lemma LastOf(c: Context, baseline: seq<real>, some: seq<real>, k: int, acc: real)
    requires c.groups > 0 && some != []
    ensures var rest, last := some[..|some| - 1], some[|some| - 1];
            Splits(c, baseline + some, k, acc) ==
              Splits(c, baseline + rest, k, acc) + Splits(c, baseline + rest, k - 1, acc + last)
  {
    var values := baseline + some;
    assert values[..|values| - 1] == baseline + some[..|some| - 1];
  }

  lemma BaselinePicks(
      c: Context, baseline: seq<real>, candidate: seq<real>, low: real, high: real, left: nat, acc: real)
    requires Levels(c, baseline, candidate, low, high) && left <= c.groups
    requires var taken := c.groups - left;
             && acc >= Times(taken, high) && (taken == 0 ==> acc == 0.0)
             && Sum(candidate) - acc >= Times(left, high) && (left == 0 ==> acc == Sum(candidate))
    ensures Splits(c, baseline, left, acc) == (if left == 0 then 1 else 0) + (if left == c.groups then 1 else 0)
  {
    hide ExtremeSum, Splits, Times;
    if left == 0 {
      PickNone(c, baseline, acc);
    } else if left == c.groups {
      PickAll(c, baseline, acc);
      assert acc + Sum(baseline) == Sum(baseline);
    } else {
      var taken := c.groups - left;
      AtLeastOnce(left, low, high);
      AtLeastOnce(taken, low, high);
      PickBetween(c, baseline, left, acc, low);
    }
  }

  lemma {:induction false} AtLeastOnce(n: nat, low: real, high: real)
    requires n > 0 && low <= high
    ensures Times(n, high) - Times(n, low) >= high - low
  {
    hide Times;
    TimesStep(n - 1, low);
    TimesStep(n - 1, high);
    if n > 1 {
      AtLeastOnce(n - 1, low, high);
    }
  }

  /** Between the two arms' sums, by a gap of more than G * 1e-12 / 2, no sum is extreme. */
  lemma NotExtremeBetween(c: Context, b: real, a: real, gap: real, x: real)
    requires c.groups > 0 && c.pooled == b + a && c.observed == (a - b) / c.groups as real
    requires 2.0 * gap > c.groups as real * 0.000_000_000_001 && b + gap <= x <= a - gap
    ensures !ExtremeSum(c, x)
  {
    var g := c.groups as real;
    assert x / g - (c.pooled - x) / g == (x - (c.pooled - x)) / g;
    var d := x - (c.pooled - x);
    assert -(a - b - 2.0 * gap) <= d <= a - b - 2.0 * gap;
    Divides(d, a - b - 2.0 * gap, g);
    Divides(-d, a - b - 2.0 * gap, g);
    assert (-d) / g == -(d / g);
    assert (a - b - 2.0 * gap) / g == (a - b) / g - 2.0 * gap / g;
    MoreThanTolerance(gap, g);
    assert 0.0 <= 2.0 * gap <= a - b;
    Divides(0.0, a - b, g);
  }

  lemma MoreThanTolerance(gap: real, g: real)
    requires g > 0.0 && 2.0 * gap > g * 0.000_000_000_001
    ensures 2.0 * gap / g > 0.000_000_000_001
  {
  }

  /** The extreme values of a list. */
  function Highest(values: seq<real>): (i: nat)
    requires values != []
    ensures i < |values| && forall k :: 0 <= k < |values| ==> values[k] <= values[i]
  {
    if |values| == 1 then 0
    else
      var i := Highest(values[..|values| - 1]);
      if values[i] < values[|values| - 1] then |values| - 1 else i
  }

  function Lowest(values: seq<real>): (i: nat)
    requires values != []
    ensures i < |values| && forall k :: 0 <= k < |values| ==> values[k] >= values[i]
  {
    if |values| == 1 then 0
    else
      var i := Lowest(values[..|values| - 1]);
      if values[i] > values[|values| - 1] then |values| - 1 else i
  }

  /** The pooled context of two equal arms. */
  function ContextOf(baseline: seq<real>, candidate: seq<real>): Context
    requires |baseline| == |candidate| > 0
  {
    Context(Sum(baseline + candidate), |baseline|, Mean(candidate) - Mean(baseline))
  }

  lemma ContextIs(baseline: seq<real>, candidate: seq<real>)
    requires |baseline| == |candidate| > 0
    ensures var c := ContextOf(baseline, candidate);
            && c.pooled == Sum(baseline) + Sum(candidate)
            && c.observed == (Sum(candidate) - Sum(baseline)) / c.groups as real
            && ExtremeSum(c, Sum(baseline)) && ExtremeSum(c, Sum(candidate))
            && TestOf(|baseline|, baseline, candidate).extreme == Splits(c, baseline + candidate, |baseline|, 0.0)
  {
    hide Splits, ExtremesBelow, PartitionsBelow, Pow2, Sum, ExtremeSum;
    var c := ContextOf(baseline, candidate);
    SumConcat(baseline, candidate);
    ObservedIsExtreme(|baseline|, baseline, candidate);
    assert 0.0 + Sum(candidate) == Sum(candidate);
    assert c.pooled - Sum(candidate) == Sum(baseline);
    ExtremeSumSymmetric(c, Sum(candidate));
    ExtremesAreSplits(baseline + candidate, |baseline|, c.observed);
    SameDenominator(Sum(candidate), Sum(baseline), |baseline| as real);
  }

  lemma SameDenominator(a: real, b: real, g: real)
    requires g > 0.0
    ensures a / g - b / g == (a - b) / g
  {
  }

  /** Every candidate value exceeds every baseline value by more than G * 1e-12 / 2. */
  ghost predicate WellApart(baseline: seq<real>, candidate: seq<real>) {
    forall i, j :: 0 <= i < |baseline| && 0 <= j < |candidate| ==>
      2.0 * (candidate[j] - baseline[i]) > |baseline| as real * 0.000_000_000_001
  }

  lemma WellApartCountsTwo(baseline: seq<real>, candidate: seq<real>)
    requires |baseline| == |candidate| > 0 && WellApart(baseline, candidate)
    ensures TestOf(|baseline|, baseline, candidate).extreme == 2
  {
    hide Splits, Sum, ExtremeSum, TestOf, ContextOf;
    var c := ContextOf(baseline, candidate);
    var low, high := baseline[Highest(baseline)], candidate[Lowest(candidate)];
    ContextIs(baseline, candidate);
    assert c.groups == |baseline| by {
      ContextGroups(baseline, candidate);
    }
    forall x: real | Sum(baseline) + (high - low) <= x <= Sum(candidate) - (high - low) ensures !ExtremeSum(c, x) {
      NotExtremeBetween(c, Sum(baseline), Sum(candidate), high - low, x);
    }
    assert candidate[..c.groups] == candidate && Times(0, high) == 0.0;
    OnlyWholeArms(c, baseline, candidate, low, high, c.groups, 0, 0.0);
  }

  lemma ContextGroups(baseline: seq<real>, candidate: seq<real>)
    requires |baseline| == |candidate| > 0
    ensures ContextOf(baseline, candidate).groups == |baseline|
  {
  }

  /** Exchanging two values that are closer is counted too. */
  lemma CloserCountsMore(baseline: seq<real>, candidate: seq<real>, i: nat, j: nat)
    requires |baseline| == |candidate| > 1 && i < |baseline| && j < |candidate| && Sum(baseline) <= Sum(candidate)
    requires 2.0 * (candidate[j] - baseline[i]) <= |baseline| as real * 0.000_000_000_001
    ensures TestOf(|baseline|, baseline, candidate).extreme > 2
  {
    hide Splits, Sum, ExtremeSum, TestOf, ContextOf;
    var c, g := ContextOf(baseline, candidate), |baseline|;
    var b, a := baseline[i], candidate[j];
    var bs, cs := baseline[..i] + baseline[i + 1..], candidate[..j] + candidate[j + 1..];
    ContextIs(baseline, candidate);
    ContextGroups(baseline, candidate);
    WithoutOne(baseline, i);
    WithoutOne(candidate, j);
    ExchangeIsExtreme(c, Sum(baseline), Sum(candidate), a - b);
    SumConcat(baseline, candidate);
    HalfWithoutOne(c, baseline, candidate, bs, cs, b, a);
    TakesTwo(c, bs, cs, b);
    SplitsUnfold(c, bs + cs, b, g, 0.0);
  }

  /** Half of all counted splits leave any one value of the candidate arm out. */
  lemma HalfWithoutOne(
      c: Context, baseline: seq<real>, candidate: seq<real>, bs: seq<real>, cs: seq<real>, b: real, a: real)
    requires c.groups == |baseline| == |candidate| > 0 && c.pooled == Sum(baseline + candidate)
    requires multiset(bs + [b]) == multiset(baseline) && multiset(cs + [a]) == multiset(candidate)
    ensures Splits(c, baseline + candidate, c.groups, 0.0) == 2 * Splits(c, bs + cs + [b], c.groups, 0.0)
  {
    hide Splits, Sum;
    var values := bs + cs + [b] + [a];
    assert multiset(values) == multiset(bs + [b]) + multiset(cs + [a]) == multiset(baseline + candidate);
    SplitsOfMultiset(c, baseline + candidate, values, c.groups, 0.0);
    SumOfMultiset(baseline + candidate, values);
    HalvesEqual(c, values);
    assert values[..|values| - 1] == bs + cs + [b];
  }

  lemma SplitsUnfold(c: Context, rest: seq<real>, last: real, k: int, acc: real)
    requires c.groups > 0
    ensures Splits(c, rest + [last], k, acc) == Splits(c, rest, k, acc) + Splits(c, rest, k - 1, acc + last)
  {
    assert (rest + [last])[..|rest|] == rest;
  }

  lemma WithoutOne(values: seq<real>, i: nat)
    requires i < |values|
    ensures var rest := values[..i] + values[i + 1..];
            && multiset(rest + [values[i]]) == multiset(values) && Sum(rest) + values[i] == Sum(values)
  {
    var rest := values[..i] + values[i + 1..];
    assert values == values[..i] + [values[i]] + values[i + 1..];
    assert multiset(rest + [values[i]]) == multiset(values);
    SumOfMultiset(rest + [values[i]], values);
    SumAppend(rest, values[i]);
  }

  /** One of G - 1 values of each arm, with one of the baseline's taken: all of the baseline arm, or all
      of the candidate arm but one. */
  lemma TakesTwo(c: Context, bs: seq<real>, cs: seq<real>, b: real)
    requires c.groups > 0 && |bs| == |cs| > 0
    requires ExtremeSum(c, b + Sum(bs)) && ExtremeSum(c, b + Sum(cs))
    ensures Splits(c, bs + cs, |bs|, 0.0 + b) >= 2
  {
    hide Splits, ExtremeSum;
    var some, last := cs[..|cs| - 1], cs[|cs| - 1];
    assert cs == some + [last] && 0.0 + b == b;
    assert b + Sum(cs) == (b + last) + Sum(some);
    TakeAll(c, bs, some, b + last);
    TakeAll(c, some, bs, b);
    assert multiset(some + bs) == multiset(bs + some);
    SplitsOfMultiset(c, some + bs, bs + some, |bs|, b);
    LastOf(c, bs, cs, |bs|, b);
  }

  lemma ExchangeIsExtreme(c: Context, b: real, a: real, gap: real)
    requires c.groups > 0 && c.pooled == b + a && c.observed == (a - b) / c.groups as real && b <= a
    requires 2.0 * gap <= c.groups as real * 0.000_000_000_001
    ensures ExtremeSum(c, a - gap)
  {
    var g, x := c.groups as real, a - gap;
    SameDenominator(x, c.pooled - x, g);
    SameDenominator(a - b, 2.0 * gap, g);
    assert x - (c.pooled - x) == (a - b) - 2.0 * gap;
    Divides(2.0 * gap, g * 0.000_000_000_001, g);
    assert g * 0.000_000_000_001 / g == 0.000_000_000_001;
    Divides(0.0, a - b, g);
  }

  /** On equal arms that do not overlap, only the observed split and its exchange are counted if and
      only if there is one group an arm or the arms are well apart. */
  lemma TwoCountedIff(baseline: seq<real>, candidate: seq<real>)
    requires |baseline| == |candidate| > 0
    requires forall i, j :: 0 <= i < |baseline| && 0 <= j < |candidate| ==> baseline[i] <= candidate[j]
    ensures TestOf(|baseline|, baseline, candidate).extreme == 2 <==>
              |baseline| == 1 || WellApart(baseline, candidate)
  {
    hide TestOf, Sum;
    if |baseline| == 1 {
      ExtremeCount(1, baseline, candidate);
      assert Choose(2, 1) == 2;
    } else if WellApart(baseline, candidate) {
      WellApartCountsTwo(baseline, candidate);
    } else {
      var i, j :| 0 <= i < |baseline| && 0 <= j < |candidate| &&
                  !(2.0 * (candidate[j] - baseline[i]) > |baseline| as real * 0.000_000_000_001);
      SumsInOrder(baseline, candidate, candidate[Lowest(candidate)]);
      CloserCountsMore(baseline, candidate, i, j);
    }
  }

  lemma {:induction false} SumsInOrder(baseline: seq<real>, candidate: seq<real>, level: real)
    requires |baseline| == |candidate|
    requires forall i :: 0 <= i < |baseline| ==> baseline[i] <= level <= candidate[i]
    ensures Sum(baseline) <= Sum(candidate)
  {
    if baseline != [] {
      SumsInOrder(baseline[..|baseline| - 1], candidate[..|candidate| - 1], level);
    }
  }

  // ---------------------------------------------------------------- unequal arms

  /** Where no sum within reach is extreme, no split is. */
  lemma {:induction false} NoExtremes(c: Context, values: seq<real>, k: int, acc: real)
    requires c.groups > 0 && forall i :: 0 <= i < |values| ==> values[i] >= 0.0
    requires forall x: real :: acc <= x <= acc + Sum(values) ==> !ExtremeSum(c, x)
    ensures Splits(c, values, k, acc) == 0 && Sum(values) >= 0.0
  {
    hide ExtremeSum;
    SumNonNegative(values);
    if values != [] {
      var rest := values[..|values| - 1];
      SumNonNegative(rest);
      NoExtremes(c, rest, k, acc);
      NoExtremes(c, rest, k - 1, acc + values[|rest|]);
    }
  }

  lemma {:induction false} SumNonNegative(values: seq<real>)
    requires forall i :: 0 <= i < |values| ==> values[i] >= 0.0
    ensures Sum(values) >= 0.0
  {
    if values != [] {
      SumNonNegative(values[..|values| - 1]);
    }
  }

  /** n copies of one value. */
  function Copies(n: nat, value: real): (v: seq<real>)
    ensures |v| == n && forall i :: 0 <= i < n ==> v[i] == value
  {
    seq(n, _ => value)
  }

  lemma {:induction false} SumOfCopies(n: nat, value: real)
    ensures Sum(Copies(n, value)) == n as real * value
  {
    if n > 0 {
      SumOfCopies(n - 1, value);
      assert Copies(n, value)[..n - 1] == Copies(n - 1, value);
    }
  }

  /** Fewer than half the groups, however high, cannot make one half as high on average: with zeros
      against nc < G groups of G, no split is as far apart as the observed arms. */
  lemma FewHighGroups(groups: nat, nc: nat)
    requires 0 < nc < groups
    ensures TestOf(groups, Copies(2 * groups - nc, 0.0), Copies(nc, groups as real)).extreme == 0
  {
    hide Sum, Splits, ExtremeSum, Pow2, ExtremesBelow, PartitionsBelow;
    var g := groups as real;
    var b, c := Copies(2 * groups - nc, 0.0), Copies(nc, g);
    SumOfCopies(2 * groups - nc, 0.0);
    SumOfCopies(nc, g);
    SumConcat(b, c);
    MeanOfCopies(nc, g);
    assert Mean(c) - Mean(b) == g;
    ExtremesAreSplits(b + c, groups, g);
    forall x: real | 0.0 <= x <= 0.0 + Sum(b + c) ensures !ExtremeSum(Context(Sum(b + c), groups, g), x) {
      TooClose(groups, nc, x);
    }
    NoExtremes(Context(Sum(b + c), groups, g), b + c, groups, 0.0);
  }

  lemma MeanOfCopies(n: nat, value: real)
    requires n > 0
    ensures Mean(Copies(n, value)) == value
  {
    SumOfCopies(n, value);
    hide Sum;
    assert n as real * value / n as real == value;
  }

  lemma TooClose(groups: nat, nc: nat, x: real)
    requires 0 < nc < groups && 0.0 <= x <= nc as real * groups as real
    ensures !ExtremeSum(Context(nc as real * groups as real, groups, groups as real), x)
  {
    var g, total := groups as real, nc as real * groups as real;
    assert x / g - (total - x) / g == (x - (total - x)) / g;
    assert total / g == nc as real;
    assert x - (total - x) <= total && x - (total - x) >= -total;
    Divides(x - (total - x), total, g);
    Divides(-(x - (total - x)), total, g);
    assert (-(x - (total - x))) / g == -((x - (total - x)) / g);
    assert nc as real + 1.0 <= g;
  }

  lemma Divides(a: real, b: real, g: real)
    requires a <= b && g > 0.0
    ensures a / g <= b / g
  {
  }

  /** The guard on the number of groups only looks at both arms together. For every unequal split of
      the groups there are arms in which no split, not even the observed one, is counted: the p-value
      is zero. */
  lemma UnequalArmsGiveZero(groups: nat, nb: nat, nc: nat) returns (b: seq<real>, c: seq<real>)
    requires nb > 0 && nc > 0 && nb + nc == 2 * groups && nb != nc
    ensures |b| == nb && |c| == nc
    ensures var r := TestOf(groups, b, c); r.extreme == 0 && r.partitions > 0 && r.PValue() == 0.0
  {
    hide Sum, Mean, ExtremesBelow, PartitionsBelow, Pow2;
    var g := groups as real;
    b, c := Copies(nb, if nc < groups then 0.0 else g), Copies(nc, if nc < groups then g else 0.0);
    if nc < groups {
      FewHighGroups(groups, nc);
    } else {
      FewHighGroups(groups, nb);
      ExchangeArms(groups, c, b);
    }
    PartitionsAreChoose(groups, 2 * groups);
  }

  /** Exactly when the observed arms, and so some split, are counted whatever the measurements: the
      arms have equally many groups. */
  lemma ObservedCountedIff(groups: nat, nb: nat, nc: nat)
    requires nb > 0 && nc > 0 && nb + nc == 2 * groups
    ensures (forall b: seq<real>, c: seq<real> :: |b| == nb && |c| == nc ==> TestOf(groups, b, c).extreme > 0)
            <==> nb == nc
  {
    hide TestOf;
    if nb == nc {
      forall b: seq<real>, c: seq<real> | |b| == nb && |c| == nc ensures TestOf(groups, b, c).extreme > 0 {
        ExtremeCount(groups, b, c);
      }
    } else {
      var b, c := UnequalArmsGiveZero(groups, nb, nc);
    }
  }
}
