/** How far the arrival schedule's two functions (tools/hft_acceptance/acceptance.cpp) can disagree, and
    whether the producer's unguarded backlog subtraction can go below zero. */
module Backlog {
  import opened Words
  import opened Schedule

  /** A half-rate at which the count at a message's due time is never two messages short: at most one
      message a nanosecond, or more by a divisor of 10^9. */
  predicate SafeRate(r: nat)
    requires r > 0
  {
    r <= 1_000_000_000 || 1_000_000_000 % (r - 1_000_000_000) == 0
  }

  /** Every phase in use has a safe rate. */
  predicate SafePlan(p: Plan)
    requires p.low > 0 && p.high > 0
  {
    SafeRate(p.low) && (p.burstNs == 0 || SafeRate(p.high))
  }

  /** Counting at the due time of message o never sees more than o. */
  lemma CountAtMost(o: nat, r: nat)
    requires r > 0
    ensures PhaseCount(PhaseDue(o, r), r) <= o
  {
    MulOrder(PhaseCount(PhaseDue(o, r), r), o + 1, 1_000_000_000);
  }

  /** At a safe rate it sees at least o - 1. With d = r - 10^9, being two short at t nanoseconds would
      put a multiple of 10^9 strictly between t * d and (t + 1) * d, and d divides 10^9. */
  lemma SafeCount(o: nat, r: nat)
    requires r > 0 && SafeRate(r)
    ensures PhaseCount(PhaseDue(o, r), r) >= o - 1
  {
    var t := PhaseDue(o, r);
    var k := PhaseCount(t, r);
    if k < o - 1 {
      MulMonotone(1_000_000_000, k + 1, o - 1);
      assert t * r < (o - 1) * 1_000_000_000;
      if r > 1_000_000_000 {
        var d, m := r - 1_000_000_000, o - 1 - t;
        assert t * r == t * d + t * 1_000_000_000;
        assert (o - 1) * 1_000_000_000 == m * 1_000_000_000 + t * 1_000_000_000;
        NoMultipleBetween(t, d, m);
      }
      assert false;
    }
  }

  lemma NoMultipleBetween(t: nat, d: nat, m: int)
    requires d > 0 && 1_000_000_000 % d == 0
    ensures !(t * d < m * 1_000_000_000 < (t + 1) * d)
  {
    var e := 1_000_000_000 / d;
    assert 1_000_000_000 == e * d;
    MulAssociative(m, e, d);
    NotBetween(t, m * e, d);
  }

  lemma NotBetween(t: int, x: int, d: nat)
    ensures !(t * d < x * d < (t + 1) * d)
  {
    if x <= t {
      MulMonotone(d, x, t);
    } else {
      MulMonotone(d, t + 1, x);
    }
  }

  /** The message that an unsafe rate counts two short when it is due. */
  function ShortMessage(r: nat): nat
    requires r > 1_000_000_000
  {
    1_000_000_000 / (r - 1_000_000_000) + 2
  }

  lemma ShortCount(r: nat)
    requires r > 0 && !SafeRate(r)
    ensures PhaseDue(ShortMessage(r), r) == ShortMessage(r) - 2
    ensures PhaseCount(PhaseDue(ShortMessage(r), r), r) == ShortMessage(r) - 2
  {
    var d := r - 1_000_000_000;
    var t := 1_000_000_000 / d;
    DivBounds(1_000_000_000, d);
    assert 1_000_000_000 != t * d;
    assert t * r == t * d + t * 1_000_000_000;
    assert (t + 2) * 1_000_000_000 == t * 1_000_000_000 + 2_000_000_000;
    PhaseDueUnique(t + 2, r, t);
    var k := PhaseCount(t, r);
    MulOrder(k, t + 1, 1_000_000_000);
    MulOrder(t, k + 1, 1_000_000_000);
  }

  /** It comes before the end of any phase of a millisecond or more, for rates in whole thousands. */
  lemma ShortInPhase(r: nat, n: nat, L: nat)
    requires r > 0 && !SafeRate(r) && r % 1000 == 0
    requires n * 1_000_000_000 == r * L && L >= 1_000_000
    ensures ShortMessage(r) < n
  {
    var d := r - 1_000_000_000;
    var t := 1_000_000_000 / d;
    DivBounds(1_000_000_000, d);
    FewNanoseconds(d);
    ShortCount(r);
    assert ShortMessage(r) * 1_000_000_000 < t * r + r;
    MulMonotone(r, t + 1, L);
    assert r * (t + 1) == t * r + r;
    MulOrder(ShortMessage(r), n, 1_000_000_000);
  }

  lemma FewNanoseconds(d: nat)
    requires d > 0 && d % 1000 == 0 && 1_000_000_000 % d != 0
    ensures 1_000_000_000 / d < 1_000_000
  {
    assert d > 1000;
    DivRange(1_000_000_000, d, 0, 1_000_000);
  }

  /** The two functions are never more than one message apart. */
  ghost predicate WithinOne(p: Plan)
    requires p.low > 0 && p.high > 0 && p.cycleMessages > 0
  {
    forall i :: 0 <= i < p.Total() ==> i <= p.Arrivals(p.Due(i)) <= i + 1
  }

  /** Exactly when: every phase in use has a safe rate. */
  lemma InverseWithinOneIff(o: Options)
    requires o.Accepted()
    ensures MakePlan(o).cycleMessages > 0 && MakePlan(o).low > 0 && MakePlan(o).high > 0
    ensures WithinOne(MakePlan(o)) <==> SafePlan(MakePlan(o))
  {
    var p := MakePlan(o);
    var lowCount := PlanIsWhole(o);
    if SafePlan(p) {
      forall i | 0 <= i < p.Total() ensures i <= p.Arrivals(p.Due(i)) <= i + 1 {
        SafeArrivals(p, lowCount, i);
      }
    } else {
      var i := ShortArrivals(o, lowCount);
    }
  }

  lemma SafeArrivals(p: Plan, lowCount: nat, i: nat)
    requires Whole(p, lowCount) && SafePlan(p) && i < p.Total()
    ensures i <= p.Arrivals(p.Due(i)) <= i + 1
  {
    hide SafeRate;
    var offset := CountAtDue(p, lowCount, i);
    PartDueInCycle(p, lowCount, offset);
    if offset < p.PeakCount() {
      SafeCount(offset, p.high);
      CountAtMost(offset, p.high);
    } else {
      SafeCount(offset - p.PeakCount(), p.low);
      CountAtMost(offset - p.PeakCount(), p.low);
    }
  }

  /** A message of the first cycle at whose due time fewer have arrived than the producer has sent. */
  lemma ShortArrivals(o: Options, lowCount: nat) returns (i: nat)
    requires o.Accepted() && Whole(MakePlan(o), lowCount) && !SafePlan(MakePlan(o))
    ensures 0 < i < MakePlan(o).Total() && MakePlan(o).Arrivals(MakePlan(o).Due(i)) == i - 1
  {
    var p := MakePlan(o);
    PhasesLongEnough(o);
    if !SafeRate(p.low) {
      i := ShortInSteady(p, lowCount);
    } else {
      i := ShortInBurst(p, lowCount);
    }
  }

  lemma ShortInSteady(p: Plan, lowCount: nat) returns (i: nat)
    requires Whole(p, lowCount) && !SafeRate(p.low) && p.low % 1000 == 0 && p.burstNs <= 999_000_000
    ensures 0 < i < p.Total() && p.Arrivals(p.Due(i)) == i - 1
  {
    hide SafeRate, ShortMessage;
    ShortInPhase(p.low, lowCount, 1_000_000_000 - p.burstNs);
    ShortCount(p.low);
    i := p.PeakCount() + ShortMessage(p.low);
    FirstCycle(p, lowCount, i);
    PartDueInCycle(p, lowCount, i);
    SplitTime(p, lowCount, 0, PartDue(p, i));
  }

  lemma ShortInBurst(p: Plan, lowCount: nat) returns (i: nat)
    requires Whole(p, lowCount) && !SafeRate(p.high) && p.high % 1000 == 0 && p.burstNs >= 1_000_000
    ensures 0 < i < p.Total() && p.Arrivals(p.Due(i)) == i - 1
  {
    hide SafeRate, ShortMessage;
    ShortInPhase(p.high, p.PeakCount(), p.burstNs);
    ShortCount(p.high);
    i := ShortMessage(p.high);
    FirstCycle(p, lowCount, i);
    PartDueInCycle(p, lowCount, i);
    SplitTime(p, lowCount, 0, PartDue(p, i));
  }

  lemma PhasesLongEnough(o: Options)
    requires o.Accepted()
    ensures var p := MakePlan(o);
            && p.low % 1000 == 0 && p.high % 1000 == 0 && p.burstNs <= 999_000_000
            && (p.burstNs > 0 ==> p.burstNs >= 1_000_000)
  {
    hide MakePlan;
    var a, b, c := PlanForm(o);
    InThousands(a);
    InThousands(c);
    InMilliseconds(b);
  }

  lemma InThousands(a: nat)
    ensures 1000 * a % 1000 == 0
  {
  }

  lemma InMilliseconds(b: nat)
    requires b < 1000
    ensures 1_000_000 * b <= 999_000_000 && (1_000_000 * b > 0 ==> 1_000_000 * b >= 1_000_000)
  {
  }

  /** What the producer needs: whenever it takes stock of its next message, from its due time on, at
      least as many messages have arrived as it has sent. */
  ghost predicate BacklogNeverNegative(p: Plan)
    requires p.low > 0 && p.high > 0 && p.cycleMessages > 0
  {
    forall sequence, elapsed ::
      0 <= sequence < p.Total() && p.Due(sequence) <= elapsed ==> p.Arrivals(elapsed) >= sequence
  }

  /** The subtraction stays at or above zero exactly when every phase in use has a safe rate. */
  lemma BacklogNeverUnderflowsIff(o: Options)
    requires o.Accepted()
    ensures MakePlan(o).cycleMessages > 0 && MakePlan(o).low > 0 && MakePlan(o).high > 0
    ensures BacklogNeverNegative(MakePlan(o)) <==> SafePlan(MakePlan(o))
  {
    hide SafePlan;
    var p := MakePlan(o);
    var lowCount := PlanIsWhole(o);
    InverseWithinOneIff(o);
    if SafePlan(p) {
      forall sequence, elapsed | 0 <= sequence < p.Total() && p.Due(sequence) <= elapsed
        ensures p.Arrivals(elapsed) >= sequence
      {
        ArrivalsMonotone(o, p.Due(sequence), elapsed);
      }
    } else {
      var i := ShortArrivals(o, lowCount);
      assert p.Due(i) <= p.Due(i) && p.Arrivals(p.Due(i)) < i;
    }
  }

  /** The program accepts unsafe rates: at 6 * 10^9 messages a second the third message is due at once,
      when one has arrived, and no 64-bit register has overflowed. */
  lemma BacklogUnderflows(seconds: nat)
    requires 0 < seconds < TWO32
    ensures var o := Options(6_000_000_000, 4_000_000, 0, seconds, false);
            && o.Accepted() && MakePlan(o).low == MakePlan(o).high == MakePlan(o).cycleMessages == 3_000_000_000
            && MakePlan(o).Due(2) == 0 && MakePlan(o).Arrivals(0) == 1
  {
    var o := Options(6_000_000_000, 4_000_000, 0, seconds, false);
    var p := MakePlan(o);
    var lowCount := PlanIsWhole(o);
    assert p.low == 3_000_000_000 && p.cycleMessages == 3_000_000_000 && p.PeakCount() == 0;
    PhaseDueUnique(2, 3_000_000_000, 0);
    FirstCycle(p, lowCount, 2);
    SplitTime(p, lowCount, 0, 0);
  }
}
