/** The arrival schedule of tools/hft_acceptance/acceptance.cpp in its 64-bit registers: exactly when
    they hold the exact schedule, and what is then true of the program's own due and arrivals. */
module ScheduleWords {
  import opened Words
  import opened Schedule
  import opened Backlog

  /** The constructor, with every product and sum in a register. */
  function PlanWord(o: Options): Plan
    requires o.Accepted()
  {
    var low := o.rate / 2;
    var high := if o.burst then o.peakRate / 2 else o.rate / 2;
    var burstNs := if o.burst then o.burstMs * 1_000_000 else 0;
    Plan(low, high, burstNs,
         AddWord(Wrap(high * burstNs) / 1_000_000_000, Wrap(low * (1_000_000_000 - burstNs)) / 1_000_000_000),
         o.seconds)
  }

  function TotalWord(p: Plan): U64 {
    Wrap(p.cycleMessages * p.seconds)
  }

  function PeakWord(p: Plan): U64 {
    Wrap(p.high * p.burstNs) / 1_000_000_000
  }

  function DueWord(p: Plan, sequence: U64): U64
    requires p.low > 0 && p.high > 0 && p.cycleMessages > 0
  {
    var cycle, offset := Quotient(sequence, p.cycleMessages), sequence % p.cycleMessages;
    AddWord(Wrap(cycle * 1_000_000_000),
            if offset < PeakWord(p) then Wrap(offset * 1_000_000_000) / p.high
            else AddWord(p.burstNs, Wrap((offset - PeakWord(p)) * 1_000_000_000) / p.low))
  }

  function ArrivalsWord(p: Plan, elapsed: U64): U64 {
    if elapsed >= p.DurationNs() then TotalWord(p)
    else
      var cycle, part := elapsed / 1_000_000_000, elapsed % 1_000_000_000;
      var inCycle :=
        if part < p.burstNs then Wrap(part * p.high) / 1_000_000_000
        else AddWord(PeakWord(p), Wrap((part - p.burstNs) * p.low) / 1_000_000_000);
      Min(TotalWord(p), AddWord(AddWord(Wrap(cycle * p.cycleMessages), inCycle), 1))
  }

  /** The messages of a burst, of the rest of a cycle and of the whole run, as the code multiplies them
      out, fit a register. */
  predicate Fits(o: Options)
    requires o.Accepted()
  {
    var p := MakePlan(o);
    p.high * p.burstNs < TWO64 && p.low * (1_000_000_000 - p.burstNs) < TWO64 && p.Total() < TWO64
  }

  /** The registers hold the exact schedule: its cycle, its total, every due time and every count. */
  ghost predicate RegistersHold(o: Options)
    requires o.Accepted()
  {
    var p := MakePlan(o);
    && PlanWord(o) == p && TotalWord(p) == p.Total()
    && p.low > 0 && p.high > 0 && p.cycleMessages > 0
    && (forall sequence: U64 :: sequence < p.Total() ==> DueWord(p, sequence) == p.Due(sequence))
    && (forall elapsed: U64 :: ArrivalsWord(p, elapsed) == p.Arrivals(elapsed))
  }

  /** Exactly when those three products fit. */
  lemma RegistersHoldIff(o: Options)
    requires o.Accepted()
    ensures RegistersHold(o) <==> Fits(o)
  {
    var p := MakePlan(o);
    var lowCount := PlanIsWhole(o);
    if Fits(o) {
      PlanFits(o, lowCount);
      forall sequence: U64 | sequence < p.Total() ensures DueWord(p, sequence) == p.Due(sequence) {
        DueFits(p, lowCount, sequence);
      }
      forall elapsed: U64 ensures ArrivalsWord(p, elapsed) == p.Arrivals(elapsed) {
        ArrivalsFit(p, lowCount, elapsed);
      }
    } else {
      PlanDiffers(o, lowCount);
    }
  }

  lemma PlanFits(o: Options, lowCount: nat)
    requires o.Accepted() && Whole(MakePlan(o), lowCount) && Fits(o)
    ensures PlanWord(o) == MakePlan(o) && TotalWord(MakePlan(o)) == MakePlan(o).Total()
    ensures PeakWord(MakePlan(o)) == MakePlan(o).PeakCount()
  {
    hide Wrap;
    var p := MakePlan(o);
    WrapSmall(p.high * p.burstNs);
    MulMonotone(p.low, 0, 1_000_000_000 - p.burstNs);
    WrapSmall(p.low * (1_000_000_000 - p.burstNs));
    CycleFits(p, lowCount);
    WrapSmall(p.Total());
  }

  lemma CycleFits(p: Plan, lowCount: nat)
    requires Whole(p, lowCount) && p.Total() < TWO64
    ensures AddWord(p.PeakCount(), lowCount) == p.cycleMessages < TWO64
    ensures p.low * (1_000_000_000 - p.burstNs) / 1_000_000_000 == lowCount
  {
    MulMonotone(p.cycleMessages, 1, p.seconds);
    DivUnique(p.low * (1_000_000_000 - p.burstNs), 1_000_000_000, lowCount);
  }

  /** Where a product does not fit, the registers have too few messages in the cycle or in the run. */
  lemma PlanDiffers(o: Options, lowCount: nat)
    requires o.Accepted() && Whole(MakePlan(o), lowCount) && !Fits(o)
    ensures PlanWord(o) != MakePlan(o) || TotalWord(MakePlan(o)) != MakePlan(o).Total()
  {
    var p := MakePlan(o);
    MulMonotone(p.high, 0, p.burstNs);
    MulMonotone(p.low, 0, 1_000_000_000 - p.burstNs);
    if p.high * p.burstNs >= TWO64 || p.low * (1_000_000_000 - p.burstNs) >= TWO64 {
      var a, b := p.high * p.burstNs, p.low * (1_000_000_000 - p.burstNs);
      LostQuotient(a);
      LostQuotient(b);
      DivUnique(b, 1_000_000_000, lowCount);
      assert PlanWord(o).cycleMessages == AddWord(Wrap(a) / 1_000_000_000, Wrap(b) / 1_000_000_000);
      SmallSum(Wrap(a) / 1_000_000_000, Wrap(b) / 1_000_000_000);
    }
  }

  /** Wrapping before the division never adds messages, and loses some if it does anything. */
  lemma LostQuotient(x: nat)
    ensures 0 <= Wrap(x) / 1_000_000_000 <= x / 1_000_000_000
    ensures Wrap(x) / 1_000_000_000 < 18_446_744_074
    ensures x >= TWO64 ==> Wrap(x) / 1_000_000_000 < x / 1_000_000_000
  {
  }

  lemma SmallSum(a: nat, b: nat)
    requires a < 18_446_744_074 && b < 18_446_744_074
    ensures AddWord(a, b) == a + b
  {
  }

  /** One phase: L nanoseconds at r messages a second hold n messages. */
  lemma PhaseDueFits(o: nat, r: nat, n: nat, L: nat)
    requires r > 0 && o < n && n * 1_000_000_000 == r * L < TWO64
    ensures Wrap(o * 1_000_000_000) / r == PhaseDue(o, r)
  {
    WrapSmall(o * 1_000_000_000);
    PhaseDueUnique(o, r, Quotient(o * 1_000_000_000, r));
    DivUnique(o * 1_000_000_000, r, PhaseDue(o, r));
  }

  lemma PhaseCountFits(t: nat, r: nat, L: nat)
    requires t < L && r * L < TWO64
    ensures Wrap(t * r) / 1_000_000_000 == PhaseCount(t, r)
  {
    MulMonotone(r, t, L);
    MulMonotone(r, 0, t);
    WrapSmall(t * r);
  }

  lemma DueFits(p: Plan, lowCount: nat, sequence: U64)
    requires Whole(p, lowCount) && sequence < p.Total() < TWO64 && p.seconds < TWO32
    requires p.high * p.burstNs < TWO64 && p.low * (1_000_000_000 - p.burstNs) < TWO64
    ensures DueWord(p, sequence) == p.Due(sequence)
  {
    var cycle, offset := Split(p, lowCount, sequence);
    CycleIs(sequence, p.cycleMessages, cycle, offset);
    DueWithin(p, lowCount, sequence);
    PartDueFits(p, lowCount, offset);
    assert p.Due(sequence) == cycle * 1_000_000_000 + PartDue(p, offset);
    hide PhaseDue, PartDue, Plan.Due, Plan.PeakCount;
    WrapSmall(cycle * 1_000_000_000);
    WrapSmall(p.Due(sequence));
  }

  lemma PartDueFits(p: Plan, lowCount: nat, offset: nat)
    requires Whole(p, lowCount) && offset < p.cycleMessages
    requires p.high * p.burstNs < TWO64 && p.low * (1_000_000_000 - p.burstNs) < TWO64
    ensures PeakWord(p) == p.PeakCount()
    ensures PartDue(p, offset) ==
              if offset < p.PeakCount() then Wrap(offset * 1_000_000_000) / p.high
              else AddWord(p.burstNs, Wrap((offset - p.PeakCount()) * 1_000_000_000) / p.low)
  {
    hide Wrap, PhaseDue;
    WrapSmall(p.high * p.burstNs);
    PartDueInCycle(p, lowCount, offset);
    if offset < p.PeakCount() {
      PhaseDueFits(offset, p.high, p.PeakCount(), p.burstNs);
    } else {
      PhaseDueFits(offset - p.PeakCount(), p.low, lowCount, 1_000_000_000 - p.burstNs);
      WrapSmall(PartDue(p, offset));
    }
  }

  lemma ArrivalsFit(p: Plan, lowCount: nat, elapsed: U64)
    requires Whole(p, lowCount) && p.Total() < TWO64 && p.seconds < TWO32
    requires p.high * p.burstNs < TWO64 && p.low * (1_000_000_000 - p.burstNs) < TWO64
    ensures ArrivalsWord(p, elapsed) == p.Arrivals(elapsed)
  {
    hide Wrap, PhaseCount;
    WrapSmall(p.Total());
    WrapSmall(p.high * p.burstNs);
    if elapsed < p.DurationNs() {
      var cycle, part := elapsed / 1_000_000_000, elapsed % 1_000_000_000;
      DivRange(elapsed, 1_000_000_000, 0, p.seconds);
      SplitTime(p, lowCount, cycle, part);
      CountFits(p, lowCount, cycle, part);
      PartCountFits(p, lowCount, part);
    }
  }

  lemma CountFits(p: Plan, lowCount: nat, cycle: nat, part: nat)
    requires Whole(p, lowCount) && p.Total() < TWO64 && cycle < p.seconds && PartCount(p, part) < p.cycleMessages
    ensures AddWord(AddWord(Wrap(cycle * p.cycleMessages), PartCount(p, part)), 1) ==
              cycle * p.cycleMessages + PartCount(p, part) + 1 <= p.Total()
  {
    hide PartCount, Whole, Wrap, AddWord;
    MulMonotone(p.cycleMessages, cycle + 1, p.seconds);
    MulMonotone(p.cycleMessages, 0, cycle);
    assert p.cycleMessages * (cycle + 1) == cycle * p.cycleMessages + p.cycleMessages;
    SumFits(cycle * p.cycleMessages, PartCount(p, part));
  }

  lemma SumFits(a: nat, b: nat)
    requires a + b + 1 < TWO64
    ensures AddWord(AddWord(Wrap(a), b), 1) == a + b + 1
  {
    hide Wrap;
    WrapSmall(a);
    WrapSmall(a + b);
    WrapSmall(a + b + 1);
  }

  lemma PartCountFits(p: Plan, lowCount: nat, part: nat)
    requires Whole(p, lowCount) && p.Total() < TWO64 && part < 1_000_000_000
    requires p.high * p.burstNs < TWO64 && p.low * (1_000_000_000 - p.burstNs) < TWO64
    ensures PartCount(p, part) ==
              if part < p.burstNs then Wrap(part * p.high) / 1_000_000_000
              else AddWord(p.PeakCount(), Wrap((part - p.burstNs) * p.low) / 1_000_000_000)
  {
    hide Wrap, PhaseCount;
    SplitTime(p, lowCount, 0, part);
    MulMonotone(p.cycleMessages, 1, p.seconds);
    if part < p.burstNs {
      PhaseCountFits(part, p.high, p.burstNs);
    } else {
      PhaseCountFits(part - p.burstNs, p.low, 1_000_000_000 - p.burstNs);
      WrapSmall(PartCount(p, part));
    }
  }

  /** Half-rates up to 4 * 10^9 messages a second fit, whatever the length of the run. */
  lemma ModestRatesFit(o: Options)
    requires o.Accepted() && MakePlan(o).low <= 4_000_000_000 && MakePlan(o).high <= 4_000_000_000
    ensures Fits(o)
  {
    var p := MakePlan(o);
    var lowCount := PlanIsWhole(o);
    CycleAtMost(p, lowCount, 4_000_000_000);
    MulMonotone(p.burstNs, p.high, 4_000_000_000);
    MulMonotone(1_000_000_000 - p.burstNs, p.low, 4_000_000_000);
    MulMonotone(p.seconds, p.cycleMessages, 4_000_000_000);
  }

  // ---------------------------------------------------------------- what then holds of the program

  /** In the options' own fields: the cycle and the total, when message j of cycle c is due, and the
      count at a time in a cycle and at the end of the run. */
  lemma DueIsInWords(o: Options, c: nat, j: nat)
    requires o.Accepted() && Fits(o) && c < o.seconds && j < CycleMessages(o)
    ensures PlanWord(o).cycleMessages == CycleMessages(o) && PlanWord(o).low > 0 && PlanWord(o).high > 0
    ensures TotalWord(PlanWord(o)) == CycleMessages(o) * o.seconds
    ensures 0 <= c * CycleMessages(o) && c * CycleMessages(o) + j < TotalWord(PlanWord(o))
    ensures DueAt(o, j, DueWord(PlanWord(o), c * CycleMessages(o) + j) - c * 1_000_000_000)
  {
    hide DueAt, DueWord, ArrivalsWord, MakePlan, PlanWord, CycleMessages;
    DueIs(o, c, j);
    RegistersHoldIff(o);
    var sequence: U64 := c * CycleMessages(o) + j;
    assert DueWord(MakePlan(o), sequence) == MakePlan(o).Due(sequence);
  }

  lemma ArrivalsAreInWords(o: Options, c: nat, t: nat)
    requires o.Accepted() && Fits(o) && c < o.seconds && t < 1_000_000_000
    ensures c * 1_000_000_000 + t < TWO64
    ensures ReachedAt(o, t, ArrivalsWord(PlanWord(o), c * 1_000_000_000 + t) - c * CycleMessages(o) - 1)
  {
    hide ReachedAt, DueWord, ArrivalsWord, MakePlan, PlanWord, CycleMessages, Fits;
    ArrivalsAre(o, c, t);
    RegistersHoldIff(o);
    var elapsed: U64 := c * 1_000_000_000 + t;
    assert ArrivalsWord(MakePlan(o), elapsed) == MakePlan(o).Arrivals(elapsed);
  }

  lemma ArrivalsAtEndInWords(o: Options, elapsed: U64)
    requires o.Accepted() && Fits(o) && elapsed >= o.seconds * 1_000_000_000
    ensures ArrivalsWord(PlanWord(o), elapsed) == CycleMessages(o) * o.seconds
  {
    hide DueWord, ArrivalsWord, MakePlan, PlanWord, CycleMessages, Fits;
    ArrivalsAtEnd(o, elapsed);
    RegistersHoldIff(o);
  }

  /** Counting never goes back, across burst and cycle boundaries and past the end of the run. */
  lemma ArrivalsMonotoneInWords(o: Options, s: U64, t: U64)
    requires o.Accepted() && Fits(o) && s <= t
    ensures ArrivalsWord(PlanWord(o), s) <= ArrivalsWord(PlanWord(o), t) <= TotalWord(PlanWord(o))
  {
    RegistersHoldIff(o);
    ArrivalsMonotone(o, s, t);
  }

  ghost predicate DueWordsIncreasing(p: Plan)
    requires p.low > 0 && p.high > 0 && p.cycleMessages > 0
  {
    forall i: U64, j: U64 :: i < j < TotalWord(p) ==> DueWord(p, i) < DueWord(p, j)
  }

  /** Due times are inside the run, and all different exactly when no phase in use asks for more than
      one message a nanosecond. */
  lemma DueIncreasingInWordsIff(o: Options)
    requires o.Accepted() && Fits(o)
    ensures PlanWord(o) == MakePlan(o) && RegistersHold(o)
    ensures DueWordsIncreasing(PlanWord(o)) <==> Distinct(PlanWord(o))
    ensures forall i: U64 :: i < TotalWord(PlanWord(o)) ==> DueWord(PlanWord(o), i) < PlanWord(o).DurationNs()
  {
    hide Distinct, DueWord, ArrivalsWord, Fits;
    RegistersHoldIff(o);
    DueStrictlyIncreasingIff(o);
    var p := PlanWord(o);
    if DueWordsIncreasing(p) {
      forall i, j | 0 <= i < j < p.Total() ensures p.Due(i) < p.Due(j) {
        var a: U64, b: U64 := i, j;
        assert DueWord(p, a) < DueWord(p, b);
      }
    }
  }

  /** The self-test's three checks of every message of a plan. */
  ghost predicate SelfTestPasses(p: Plan)
    requires p.low > 0 && p.high > 0 && p.cycleMessages > 0
  {
    && (forall i: U64 :: 0 < i < TotalWord(p) ==> DueWord(p, i - 1) < DueWord(p, i))
    && (forall i: U64 :: i < TotalWord(p) ==> ArrivalsWord(p, DueWord(p, i)) == i + 1)
    && forall i: U64 :: i < TotalWord(p) && DueWord(p, i) > 0 ==> ArrivalsWord(p, DueWord(p, i) - 1) == i
  }

  /** They pass exactly when the gap between messages is a whole number of nanoseconds in each phase. */
  lemma SelfTestPassesIff(o: Options)
    requires o.Accepted() && Fits(o)
    ensures PlanWord(o) == MakePlan(o) && RegistersHold(o)
    ensures SelfTestPasses(PlanWord(o)) <==> WholeGaps(PlanWord(o))
  {
    hide WholeGaps, SelfTestPasses, SelfTest, MakePlan;
    RegistersHoldIff(o);
    SelfTestIff(o);
    if SelfTestPasses(MakePlan(o)) {
      SelfTestHolds(o);
    }
    if SelfTest(MakePlan(o)) {
      SelfTestHoldsInWords(o);
    }
  }

  lemma SelfTestHoldsInWords(o: Options)
    requires o.Accepted() && RegistersHold(o) && SelfTest(MakePlan(o))
    ensures SelfTestPasses(MakePlan(o))
  {
    hide DueWord, ArrivalsWord, MakePlan;
    var p := MakePlan(o);
    forall i: U64 | 0 < i < TotalWord(p) ensures DueWord(p, i - 1) < DueWord(p, i) {
      assert p.Due(i - 1) < p.Due(i);
    }
    forall i: U64 | i < TotalWord(p) ensures ArrivalsWord(p, DueWord(p, i)) == i + 1 {
      assert p.Arrivals(p.Due(i)) == i + 1;
    }
    forall i: U64 | i < TotalWord(p) && DueWord(p, i) > 0 ensures ArrivalsWord(p, DueWord(p, i) - 1) == i {
      assert p.Arrivals(p.Due(i) - 1) == i;
    }
  }

  lemma SelfTestHolds(o: Options)
    requires o.Accepted() && RegistersHold(o) && SelfTestPasses(MakePlan(o)) && MakePlan(o).Total() < TWO64
    ensures SelfTest(MakePlan(o))
  {
    hide DueWord, ArrivalsWord;
    var p := MakePlan(o);
    forall i, j | 0 <= i < j < p.Total() ensures p.Due(i) < p.Due(j) {
      DueClimbs(o, i, j);
    }
    forall i | 0 <= i < p.Total() ensures p.Arrivals(p.Due(i)) == i + 1 {
      var k: U64 := i;
      assert ArrivalsWord(p, DueWord(p, k)) == k + 1;
    }
    forall i | 0 <= i < p.Total() && p.Due(i) > 0 ensures p.Arrivals(p.Due(i) - 1) == i {
      var k: U64 := i;
      assert ArrivalsWord(p, DueWord(p, k) - 1) == k;
    }
  }

  lemma {:induction false} DueClimbs(o: Options, i: nat, j: nat)
    requires o.Accepted() && RegistersHold(o) && SelfTestPasses(MakePlan(o)) && MakePlan(o).Total() < TWO64
    requires i < j < MakePlan(o).Total()
    ensures MakePlan(o).Due(i) < MakePlan(o).Due(j)
  {
    hide DueWord, ArrivalsWord;
    var p := MakePlan(o);
    var k: U64 := j;
    assert DueWord(p, k - 1) < DueWord(p, k);
    if i < j - 1 {
      DueClimbs(o, i, j - 1);
    }
  }

  /** The count at a message's due time is never more than one message off ... */
  ghost predicate CountsWithinOne(p: Plan)
    requires p.low > 0 && p.high > 0 && p.cycleMessages > 0
  {
    forall i: U64 :: i < TotalWord(p) ==> i <= ArrivalsWord(p, DueWord(p, i)) <= i + 1
  }

  /** ... and the producer's subtraction at any time from the due time on does not go below zero. */
  ghost predicate SubtractionSafe(p: Plan)
    requires p.low > 0 && p.high > 0 && p.cycleMessages > 0
  {
    forall i: U64, elapsed: U64 :: i < TotalWord(p) && DueWord(p, i) <= elapsed ==> ArrivalsWord(p, elapsed) >= i
  }

  /** Both hold exactly when each half-rate in use is at most 10^9 or exceeds it by a divisor of 10^9. */
  lemma BacklogInWordsIff(o: Options)
    requires o.Accepted() && Fits(o)
    ensures PlanWord(o) == MakePlan(o) && RegistersHold(o)
    ensures CountsWithinOne(PlanWord(o)) <==> SafePlan(PlanWord(o))
    ensures SubtractionSafe(PlanWord(o)) <==> SafePlan(PlanWord(o))
  {
    hide SafePlan, DueWord, ArrivalsWord, Fits;
    RegistersHoldIff(o);
    InverseWithinOneIff(o);
    BacklogNeverUnderflowsIff(o);
    var p := PlanWord(o);
    var lowCount := PlanIsWhole(o);
    if !SafePlan(p) {
      var i: U64 := ShortArrivals(o, lowCount);
      DueWithin(p, lowCount, i);
      assert ArrivalsWord(p, DueWord(p, i)) == i - 1;
    } else {
      forall i: U64 | i < TotalWord(p) ensures i <= ArrivalsWord(p, DueWord(p, i)) <= i + 1 {
        assert p.Arrivals(p.Due(i)) >= i;
      }
      forall i: U64, elapsed: U64 | i < TotalWord(p) && DueWord(p, i) <= elapsed
        ensures ArrivalsWord(p, elapsed) >= i
      {
        assert p.Arrivals(elapsed) >= i;
      }
    }
  }

  /** With whole gaps, a message is counted from its due time on and not before. */
  lemma CountedExactlyWhenDueInWords(o: Options, i: U64, t: U64)
    requires o.Accepted() && Fits(o) && i < TotalWord(PlanWord(o)) && t < PlanWord(o).DurationNs()
    requires PlanWord(o).low > 0 && PlanWord(o).high > 0 && WholeGaps(PlanWord(o))
    ensures PlanWord(o).cycleMessages > 0
    ensures DueWord(PlanWord(o), i) <= t <==> i < ArrivalsWord(PlanWord(o), t)
  {
    hide WholeGaps, DueWord, ArrivalsWord, Fits;
    RegistersHoldIff(o);
    CountedExactlyWhenDue(o, i, t);
  }

  // ---------------------------------------------------------------- accepted rates that do not fit

  /** At 4 * 10^10 messages a second the count falls by more than 10^9 in one nanosecond. */
  lemma ArrivalsGoBack()
    ensures var o := Options(40_000_000_000, 4_000_000, 0, 1, false);
            && o.Accepted() && !Fits(o) && PlanWord(o).cycleMessages == 1_553_255_926
            && ArrivalsWord(PlanWord(o), 922_337_203) == 1_553_255_926
            && ArrivalsWord(PlanWord(o), 922_337_204) == 7
  {
    hide Fits, ArrivalsWord, PlanWord, Wrap, AddWord;
    TooFast();
    var p := Plan(20_000_000_000, 20_000_000_000, 0, 1_553_255_926, 1);
    LastBeforeWrap();
    SteadySecond(p, 922_337_203);
    SteadySecond(p, 922_337_204);
    Counted(18_446_744_060);
    Counted(6);
  }

  lemma TooFast()
    ensures var o := Options(40_000_000_000, 4_000_000, 0, 1, false);
            && o.Accepted() && !Fits(o)
            && PlanWord(o) == Plan(20_000_000_000, 20_000_000_000, 0, 1_553_255_926, 1)
  {
    hide Wrap, AddWord;
    SecondWraps();
  }

  lemma SecondWraps()
    ensures Wrap(20_000_000_000 * 0) / 1_000_000_000 == 0
    ensures Wrap(20_000_000_000 * 1_000_000_000) / 1_000_000_000 == 1_553_255_926
    ensures AddWord(0, 1_553_255_926) == 1_553_255_926
  {
  }

  lemma LastBeforeWrap()
    ensures Wrap(922_337_203 * 20_000_000_000) / 1_000_000_000 == 18_446_744_060
    ensures Wrap(922_337_204 * 20_000_000_000) / 1_000_000_000 == 6
  {
  }

  lemma Counted(x: nat)
    requires x + 1 < TWO64
    ensures AddWord(AddWord(0, AddWord(0, x)), 1) == x + 1
  {
    WrapSmall(0);
    WrapSmall(x);
    WrapSmall(x + 1);
  }

  /** A plan without bursts, in its only second. */
  lemma SteadySecond(p: Plan, part: nat)
    requires p.burstNs == 0 && p.seconds == 1 && part < 1_000_000_000 && p.cycleMessages < TWO64
    ensures ArrivalsWord(p, part) ==
              Min(p.cycleMessages, AddWord(AddWord(0, AddWord(0, Wrap(part * p.low) / 1_000_000_000)), 1))
  {
    hide Wrap, AddWord;
    DivUnique(part, 1_000_000_000, 0);
    assert part % 1_000_000_000 == part;
    WrapSmall(p.cycleMessages);
    WrapSmall(0);
    assert p.high * 0 == 0 && 0 * p.cycleMessages == 0 && p.cycleMessages * 1 == p.cycleMessages;
  }

  /** And at this rate the run has no messages at all. */
  lemma NoMessages(seconds: U32)
    requires seconds > 0
    ensures var o := Options(9_007_199_254_740_992_000, 4_000_000, 0, seconds, false);
            o.Accepted() && !Fits(o) && PlanWord(o).cycleMessages == 0 && TotalWord(PlanWord(o)) == 0
  {
    hide Wrap, AddWord;
    var o := Options(9_007_199_254_740_992_000, 4_000_000, 0, seconds, false);
    WrapsToNothing();
    assert PlanWord(o) == Plan(4_503_599_627_370_496_000, 4_503_599_627_370_496_000, 0, 0, seconds);
    WrapSmall(0);
  }

  lemma WrapsToNothing()
    ensures Wrap(4_503_599_627_370_496_000 * 1_000_000_000) == 0
    ensures AddWord(Wrap(4_503_599_627_370_496_000 * 0) / 1_000_000_000, 0 / 1_000_000_000) == 0
  {
  }
}
