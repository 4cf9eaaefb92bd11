/** The acceptance engine's open-loop arrival schedule (tools/hft_acceptance/acceptance.cpp):
    two publishers share a total rate, and each cycle of one second is a burst phase followed by
    a steady phase. `Due` gives the planned time of a message, `Arrivals` the number of messages
    planned up to a time. The arithmetic here is exact; ScheduleWords is about the registers. */
module Schedule {
  import opened Words

  datatype Options = Options(rate: U64, peakRate: U64, burstMs: U32, seconds: U32, burst: bool) {
    /** What the command line accepts. */
    predicate Accepted() {
      && rate > 0 && rate % 2000 == 0
      && peakRate > 0 && peakRate % 2000 == 0
      && burstMs < 1000 && seconds > 0
    }
  }

  datatype Plan = Plan(low: nat, high: nat, burstNs: nat, cycleMessages: nat, seconds: nat) {
    function Total(): nat {
      cycleMessages * seconds
    }

    function DurationNs(): nat {
      seconds * 1_000_000_000
    }

    function PeakCount(): nat {
      high * burstNs / 1_000_000_000
    }

    function Due(sequence: nat): nat
      requires low > 0 && high > 0 && cycleMessages > 0
    {
      var cycle := Quotient(sequence, cycleMessages);
      var offset := sequence % cycleMessages;
      cycle * 1_000_000_000 +
      (if offset < PeakCount() then PhaseDue(offset, high)
       else burstNs + PhaseDue(offset - PeakCount(), low))
    }

    function Arrivals(elapsed: nat): nat {
      if elapsed >= DurationNs() then Total()
      else
        var cycle := elapsed / 1_000_000_000;
        var part := elapsed % 1_000_000_000;
        var count := cycle * cycleMessages +
          (if part < burstNs then PhaseCount(part, high)
           else PeakCount() + PhaseCount(part - burstNs, low));
        Min(Total(), count + 1)
    }
  }

  /** When message o of a phase at r messages a second is due, from the start of the phase. */
  function PhaseDue(o: nat, r: nat): (t: nat)
    requires r > 0
    ensures t * r <= o * 1_000_000_000 < t * r + r
  {
    Quotient(o * 1_000_000_000, r)
  }

  /** How many whole messages a phase at r messages a second has produced after t nanoseconds. */
  function PhaseCount(t: nat, r: nat): (k: nat)
    ensures k * 1_000_000_000 <= t * r < (k + 1) * 1_000_000_000
  {
    MulMonotone(t, 0, r);
    t * r / 1_000_000_000
  }

  function MakePlan(o: Options): Plan
    requires o.Accepted()
  {
    var low := o.rate / 2;
    var high := if o.burst then o.peakRate / 2 else o.rate / 2;
    var burstNs := if o.burst then o.burstMs * 1_000_000 else 0;
    BurstFits(high, burstNs, low);
    Plan(low, high, burstNs, high * burstNs / 1_000_000_000 + low * (1_000_000_000 - burstNs) / 1_000_000_000,
         o.seconds)
  }

  lemma BurstFits(high: nat, burstNs: nat, low: nat)
    requires burstNs <= 1_000_000_000
    ensures high * burstNs >= 0 && low * (1_000_000_000 - burstNs) >= 0
  {
    MulMonotone(high, 0, burstNs);
    MulMonotone(low, 0, 1_000_000_000 - burstNs);
  }

  // ---------------------------------------------------------------- one phase

  lemma PhaseDueUnique(o: nat, r: nat, t: nat)
    requires r > 0 && t * r <= o * 1_000_000_000 < t * r + r
    ensures PhaseDue(o, r) == t
  {
    DivUnique(o * 1_000_000_000, r, t);
  }

  lemma PhaseDueStrict(o: nat, p: nat, r: nat)
    requires 0 < r <= 1_000_000_000 && o < p
    ensures PhaseDue(o, r) < PhaseDue(p, r)
  {
    var s, t := PhaseDue(o, r), PhaseDue(p, r);
    if t <= s {
      MulMonotone(r, t, s);
    }
  }

  /** Messages of a phase that fills L nanoseconds exactly are all due before its end. */
  lemma PhaseDueBefore(o: nat, r: nat, n: nat, L: nat)
    requires r > 0 && n * 1_000_000_000 == r * L && o < n
    ensures PhaseDue(o, r) < L
  {
    var t := PhaseDue(o, r);
    MulMonotone(1_000_000_000, o + 1, n);
    MulOrder(t, L, r);
  }

  lemma PhaseCountBefore(t: nat, r: nat, n: nat, L: nat)
    requires r > 0 && n * 1_000_000_000 == r * L && t < L
    ensures PhaseCount(t, r) < n
  {
    MulMonotone(r, t + 1, L);
    assert r * (t + 1) == t * r + r;
  }

  lemma PhaseCountMonotone(t: nat, u: nat, r: nat)
    requires t <= u
    ensures PhaseCount(t, r) <= PhaseCount(u, r)
  {
    MulMonotone(r, t, u);
  }

  /** When the nanoseconds between two messages are whole, counting inverts the due time. */
  lemma PhaseExact(o: nat, r: nat)
    requires r > 0 && 1_000_000_000 % r == 0
    ensures r <= 1_000_000_000
    ensures PhaseCount(PhaseDue(o, r), r) == o
    ensures o > 0 ==> PhaseDue(o, r) > 0 && PhaseCount(PhaseDue(o, r) - 1, r) == o - 1
  {
    var gap := 1_000_000_000 / r;
    assert gap * r == 1_000_000_000 by {
      DivBounds(1_000_000_000, r);
    }
    DivMonotone(0, 1_000_000_000, r);
    MulMonotone(r, 1, gap);
    MulAssociative(o, gap, r);
    MulMonotone(o, 0, gap);
    PhaseDueUnique(o, r, o * gap);
    if o > 0 {
      MulMonotone(gap, 1, o);
      assert (o * gap - 1) * r == o * 1_000_000_000 - r;
    }
  }

  /** When they are not whole, counting at the due time of the second message misses it. */
  lemma PhaseInexact(r: nat)
    requires r > 0 && 1_000_000_000 % r != 0
    ensures PhaseCount(PhaseDue(1, r), r) == 0
  {
    var t := PhaseDue(1, r);
    DivUnique(1_000_000_000, r, t);
    assert 1_000_000_000 == t * r + 1_000_000_000 % r;
  }

  // ---------------------------------------------------------------- a whole plan

  /** The facts the constructor establishes: both phases hold a whole number of messages. */
  ghost predicate Whole(p: Plan, lowCount: nat) {
    && p.low > 0 && p.high > 0 && p.seconds > 0
    && p.burstNs < 1_000_000_000
    && p.PeakCount() * 1_000_000_000 == p.high * p.burstNs
    && lowCount * 1_000_000_000 == p.low * (1_000_000_000 - p.burstNs)
    && p.cycleMessages == p.PeakCount() + lowCount
    && lowCount > 0
  }

  /** Rates in thousands and bursts in whole milliseconds make every phase whole. */
  lemma PlanIsWhole(o: Options) returns (lowCount: nat)
    requires o.Accepted()
    ensures Whole(MakePlan(o), lowCount)
    ensures MakePlan(o).burstNs > 0 && 1_000_000_000 % MakePlan(o).high != 0 ==> MakePlan(o).PeakCount() >= 2
    ensures 1_000_000_000 % MakePlan(o).low != 0 ==> lowCount >= 2
  {
    var a, b, c := PlanForm(o);
    lowCount := c * (1000 - b);
    WholeOf(MakePlan(o), a, b, c, o.seconds);
  }

  lemma PlanForm(o: Options) returns (a: nat, b: nat, c: nat)
    requires o.Accepted()
    ensures a > 0 && c > 0 && b < 1000 && a * b >= 0 && c * (1000 - b) >= 0
    ensures MakePlan(o) == Plan(1000 * c, 1000 * a, 1_000_000 * b, a * b + c * (1000 - b), o.seconds)
  {
    a := (if o.burst then o.peakRate else o.rate) / 2000;
    b := if o.burst then o.burstMs else 0;
    c := o.rate / 2000;
    var high := if o.burst then o.peakRate / 2 else o.rate / 2;
    assert high == 1000 * a && o.rate / 2 == 1000 * c;
    Thousands(a, b);
    Thousands(c, 1000 - b);
    assert 1_000_000_000 - 1_000_000 * b == 1_000_000 * (1000 - b);
  }

  lemma WholeOf(p: Plan, a: nat, b: nat, c: nat, seconds: nat)
    requires a > 0 && c > 0 && b < 1000 && seconds > 0
    requires a * b >= 0 && c * (1000 - b) >= 0
    requires p == Plan(1000 * c, 1000 * a, 1_000_000 * b, a * b + c * (1000 - b), seconds)
    ensures Whole(p, c * (1000 - b)) && p.PeakCount() == a * b
    ensures p.burstNs > 0 && 1_000_000_000 % p.high != 0 ==> p.PeakCount() >= 2
    ensures 1_000_000_000 % p.low != 0 ==> c * (1000 - b) >= 2
  {
    Thousands(a, b);
    Thousands(c, 1000 - b);
    MulMonotone(c, 1, 1000 - b);
    if b > 0 {
      MulMonotone(a, 1, b);
    }
    ThousandDivides(a);
    ThousandDivides(c);
  }

  lemma ThousandDivides(a: nat)
    requires a > 0
    ensures 1_000_000_000 % (1000 * a) != 0 ==> a >= 2
  {
  }

  lemma Thousands(a: nat, b: nat)
    ensures (1000 * a) * (1_000_000 * b) == (a * b) * 1_000_000_000
    ensures (1000 * a) * (1_000_000 * b) / 1_000_000_000 == a * b
    ensures a * b >= 0
  {
    MulMonotone(a, 0, b);
  }

  /** A sequence number split into its cycle and its offset in the cycle. */
  lemma Split(p: Plan, lowCount: nat, sequence: nat) returns (cycle: nat, offset: nat)
    requires Whole(p, lowCount) && sequence < p.Total()
    ensures sequence == cycle * p.cycleMessages + offset && offset < p.cycleMessages && cycle < p.seconds
    ensures p.Due(sequence) == cycle * 1_000_000_000 +
              (if offset < p.PeakCount() then PhaseDue(offset, p.high)
               else p.burstNs + PhaseDue(offset - p.PeakCount(), p.low))
  {
    var m := p.cycleMessages;
    DivBounds(sequence, m);
    DivMonotone(0, sequence, m);
    cycle, offset := sequence / m, sequence % m;
    assert sequence == cycle * m + offset;
    MulOrder(cycle, p.seconds, m);
  }

  /** A time split the same way: the count before the final cap, which never binds. */
  lemma SplitTime(p: Plan, lowCount: nat, cycle: nat, part: nat)
    requires Whole(p, lowCount) && cycle < p.seconds && part < 1_000_000_000
    ensures cycle * 1_000_000_000 + part < p.DurationNs()
    ensures p.Arrivals(cycle * 1_000_000_000 + part) == cycle * p.cycleMessages + PartCount(p, part) + 1
    ensures PartCount(p, part) < p.cycleMessages
  {
    var m := p.cycleMessages;
    if part < p.burstNs {
      PhaseCountBefore(part, p.high, p.PeakCount(), p.burstNs);
    } else {
      PhaseCountBefore(part - p.burstNs, p.low, lowCount, 1_000_000_000 - p.burstNs);
    }
    MulMonotone(m, cycle + 1, p.seconds);
    assert m * (cycle + 1) == cycle * m + m;
    var elapsed := cycle * 1_000_000_000 + part;
    assert elapsed / 1_000_000_000 == cycle && elapsed % 1_000_000_000 == part;
    assert p.Total() == m * p.seconds;
  }

  function PartCount(p: Plan, part: nat): nat {
    if part < p.burstNs then PhaseCount(part, p.high)
    else p.PeakCount() + PhaseCount(part - p.burstNs, p.low)
  }

  lemma PartCountMonotone(p: Plan, lowCount: nat, s: nat, t: nat)
    requires Whole(p, lowCount) && s <= t < 1_000_000_000
    ensures PartCount(p, s) <= PartCount(p, t)
  {
    if t < p.burstNs {
      PhaseCountMonotone(s, t, p.high);
    } else if s < p.burstNs {
      PhaseCountBefore(s, p.high, p.PeakCount(), p.burstNs);
    } else {
      PhaseCountMonotone(s - p.burstNs, t - p.burstNs, p.low);
    }
  }

  /** The rates the schedule can keep distinct: at least one nanosecond per message. */
  predicate Distinct(p: Plan) {
    p.low <= 1_000_000_000 && (p.burstNs == 0 || p.high <= 1_000_000_000)
  }

  /** When the offset in the cycle is due, from the start of the cycle. */
  function PartDue(p: Plan, offset: nat): nat
    requires p.low > 0 && p.high > 0
  {
    if offset < p.PeakCount() then PhaseDue(offset, p.high)
    else p.burstNs + PhaseDue(offset - p.PeakCount(), p.low)
  }

  lemma PartDueInCycle(p: Plan, lowCount: nat, offset: nat)
    requires Whole(p, lowCount) && offset < p.cycleMessages
    ensures PartDue(p, offset) < 1_000_000_000
    ensures offset < p.PeakCount() <==> PartDue(p, offset) < p.burstNs
  {
    if offset < p.PeakCount() {
      if p.burstNs == 0 {
        assert false;
      }
      PhaseDueBefore(offset, p.high, p.PeakCount(), p.burstNs);
    } else {
      PhaseDueBefore(offset - p.PeakCount(), p.low, lowCount, 1_000_000_000 - p.burstNs);
    }
  }

  lemma PartDueStrict(p: Plan, lowCount: nat, o: nat, q: nat)
    requires Whole(p, lowCount) && Distinct(p) && o < q < p.cycleMessages
    ensures PartDue(p, o) < PartDue(p, q)
  {
    PartDueInCycle(p, lowCount, o);
    PartDueInCycle(p, lowCount, q);
    if q < p.PeakCount() {
      PhaseDueStrict(o, q, p.high);
    } else if o >= p.PeakCount() {
      PhaseDueStrict(o - p.PeakCount(), q - p.PeakCount(), p.low);
    }
  }

  /** Numbers in base m are ordered by their leading digit. */
  lemma CycleOrder(m: nat, c: nat, o: nat, d: nat, q: nat)
    requires o < m && q < m
    ensures c < d ==> c * m + o < d * m + q
    ensures c > d ==> c * m + o > d * m + q
  {
    if c < d {
      MulMonotone(m, c + 1, d);
    } else if d < c {
      MulMonotone(m, d + 1, c);
    }
  }

  lemma DueStrictOf(p: Plan, lowCount: nat, i: nat, j: nat)
    requires Whole(p, lowCount) && Distinct(p) && i < j < p.Total()
    ensures p.Due(i) < p.Due(j) < p.DurationNs()
  {
    var c, o := Split(p, lowCount, i);
    var d, q := Split(p, lowCount, j);
    PartDueInCycle(p, lowCount, o);
    PartDueInCycle(p, lowCount, q);
    CycleOrder(p.cycleMessages, c, o, d, q);
    if c == d {
      PartDueStrict(p, lowCount, o, q);
    }
  }

  lemma DueWithin(p: Plan, lowCount: nat, i: nat)
    requires Whole(p, lowCount) && i < p.Total()
    ensures p.Due(i) < p.DurationNs()
  {
    var c, o := Split(p, lowCount, i);
    PartDueInCycle(p, lowCount, o);
  }

  ghost predicate StrictlyIncreasing(p: Plan)
    requires p.low > 0 && p.high > 0 && p.cycleMessages > 0
  {
    forall i, j :: 0 <= i < j < p.Total() ==> p.Due(i) < p.Due(j)
  }

  /** Offsets inside the first cycle need no splitting. */
  lemma FirstCycle(p: Plan, lowCount: nat, offset: nat)
    requires Whole(p, lowCount) && offset < p.cycleMessages
    ensures offset < p.Total() && p.Due(offset) == PartDue(p, offset)
  {
    MulMonotone(p.cycleMessages, 1, p.seconds);
    DivUnique(offset, p.cycleMessages, 0);
    assert offset % p.cycleMessages == offset;
  }

  /** Planned times are inside the run, and all different exactly when no phase in use asks for more
      than one message a nanosecond. */
  lemma DueStrictlyIncreasingIff(o: Options)
    requires o.Accepted()
    ensures MakePlan(o).cycleMessages > 0 && MakePlan(o).low > 0 && MakePlan(o).high > 0
    ensures StrictlyIncreasing(MakePlan(o)) <==> Distinct(MakePlan(o))
    ensures forall i :: 0 <= i < MakePlan(o).Total() ==> MakePlan(o).Due(i) < MakePlan(o).DurationNs()
  {
    var p := MakePlan(o);
    var lowCount := PlanIsWhole(o);
    forall i | 0 <= i < p.Total() ensures p.Due(i) < p.DurationNs() {
      DueWithin(p, lowCount, i);
    }
    if Distinct(p) {
      forall i, j | 0 <= i < j < p.Total() ensures p.Due(i) < p.Due(j) {
        DueStrictOf(p, lowCount, i, j);
      }
    } else {
      var i, j := Collision(p, lowCount);
    }
  }

  /** Two messages planned for the same nanosecond. */
  lemma Collision(p: Plan, lowCount: nat) returns (i: nat, j: nat)
    requires Whole(p, lowCount) && !Distinct(p)
    requires p.burstNs > 0 && 1_000_000_000 % p.high != 0 ==> p.PeakCount() >= 2
    requires 1_000_000_000 % p.low != 0 ==> lowCount >= 2
    ensures i < j < p.Total() && p.Due(i) == p.Due(j)
  {
    var k, r := 0, p.high;
    if p.low > 1_000_000_000 {
      k, r := p.PeakCount(), p.low;
    }
    PhaseDueUnique(0, r, 0);
    PhaseDueUnique(1, r, 0);
    i, j := k, k + 1;
    FirstCycle(p, lowCount, i);
    FirstCycle(p, lowCount, j);
  }

  /** Counting never goes back, across burst and cycle boundaries and past the end of the run. */
  lemma ArrivalsMonotone(o: Options, s: nat, t: nat)
    requires o.Accepted() && s <= t
    ensures MakePlan(o).Arrivals(s) <= MakePlan(o).Arrivals(t) <= MakePlan(o).Total()
  {
    var p := MakePlan(o);
    var lowCount := PlanIsWhole(o);
    if t < p.DurationNs() {
      var c, a := s / 1_000_000_000, s % 1_000_000_000;
      var d, b := t / 1_000_000_000, t % 1_000_000_000;
      SplitTime(p, lowCount, c, a);
      SplitTime(p, lowCount, d, b);
      if c == d {
        PartCountMonotone(p, lowCount, a, b);
      } else {
        CycleOrder(p.cycleMessages, d, PartCount(p, b), c, PartCount(p, a));
      }
    }
  }

  lemma CountAtDue(p: Plan, lowCount: nat, i: nat) returns (offset: nat)
    requires Whole(p, lowCount) && i < p.Total()
    ensures offset < p.cycleMessages
    ensures p.Arrivals(p.Due(i)) == i - offset + PartCount(p, PartDue(p, offset)) + 1
  {
    var c, o := Split(p, lowCount, i);
    PartDueInCycle(p, lowCount, o);
    SplitTime(p, lowCount, c, PartDue(p, o));
    offset := o;
  }

  // ---------------------------------------------------------------- when the inverse is exact

  /** The gap between messages is a whole number of nanoseconds in every phase in use. */
  predicate WholeGaps(p: Plan)
    requires p.low > 0 && p.high > 0
  {
    1_000_000_000 % p.low == 0 && (p.burstNs == 0 || 1_000_000_000 % p.high == 0)
  }

  /** What the program's self-test checks of a plan. */
  ghost predicate SelfTest(p: Plan)
    requires p.low > 0 && p.high > 0 && p.cycleMessages > 0
  {
    && StrictlyIncreasing(p)
    && (forall i :: 0 <= i < p.Total() ==> p.Arrivals(p.Due(i)) == i + 1)
    && (forall i :: 0 <= i < p.Total() && p.Due(i) > 0 ==> p.Arrivals(p.Due(i) - 1) == i)
  }

  lemma ExactAt(p: Plan, lowCount: nat, i: nat)
    requires Whole(p, lowCount) && WholeGaps(p) && Distinct(p) && i < p.Total()
    ensures p.Arrivals(p.Due(i)) == i + 1
  {
    var offset := CountAtDue(p, lowCount, i);
    PartDueInCycle(p, lowCount, offset);
    if offset < p.PeakCount() {
      PhaseExact(offset, p.high);
    } else {
      PhaseExact(offset - p.PeakCount(), p.low);
    }
  }

  lemma WholeGapsAreDistinct(p: Plan)
    requires p.low > 0 && p.high > 0 && WholeGaps(p)
    ensures Distinct(p)
  {
    PhaseExact(0, p.low);
    if p.burstNs > 0 {
      PhaseExact(0, p.high);
    }
  }

  /** One nanosecond before the end of a phase, all but its last message have been counted. */
  lemma LastOfPhase(r: nat, n: nat, L: nat)
    requires 0 < r <= 1_000_000_000 && n * 1_000_000_000 == r * L && 0 < L
    ensures n > 0 && PhaseCount(L - 1, r) == n - 1
  {
    MulMonotone(r, 1, L);
    assert (L - 1) * r == r * L - r;
  }

  lemma PartDueZero(p: Plan, lowCount: nat, o: nat)
    requires Whole(p, lowCount) && Distinct(p) && o < p.cycleMessages
    ensures PartDue(p, o) == 0 <==> o == 0
  {
    PhaseDueUnique(0, p.high, 0);
    PhaseDueUnique(0, p.low, 0);
    PartDueInCycle(p, lowCount, 0);
    if o > 0 {
      PartDueStrict(p, lowCount, 0, o);
    }
  }

  /** One nanosecond before message o of a cycle, the cycle has produced o - 1 more than the one
      that Arrivals adds. */
  lemma PartBefore(p: Plan, lowCount: nat, o: nat)
    requires Whole(p, lowCount) && WholeGaps(p) && Distinct(p) && 0 < o < p.cycleMessages
    ensures PartDue(p, o) > 0 && PartCount(p, PartDue(p, o) - 1) == o - 1
  {
    PartDueZero(p, lowCount, o);
    PartDueInCycle(p, lowCount, o);
    if o < p.PeakCount() {
      PhaseExact(o, p.high);
    } else if o > p.PeakCount() {
      PhaseExact(o - p.PeakCount(), p.low);
    } else {
      PhaseDueUnique(0, p.low, 0);
      LastOfPhase(p.high, p.PeakCount(), p.burstNs);
    }
  }

  lemma ExactBefore(p: Plan, lowCount: nat, i: nat)
    requires Whole(p, lowCount) && WholeGaps(p) && Distinct(p) && i < p.Total() && p.Due(i) > 0
    ensures p.Arrivals(p.Due(i) - 1) == i
  {
    hide PhaseDue, PhaseCount, WholeGaps;
    var c, o := Split(p, lowCount, i);
    PartDueZero(p, lowCount, o);
    PartDueInCycle(p, lowCount, o);
    assert p.Due(i) == c * 1_000_000_000 + PartDue(p, o);
    hide Plan.Due, Plan.Arrivals, PartDue, PartCount;
    if o == 0 {
      BeforeCycle(p, lowCount, c);
    } else {
      PartBefore(p, lowCount, o);
      SplitTime(p, lowCount, c, PartDue(p, o) - 1);
    }
  }

  /** One nanosecond before a cycle, all messages of the cycles before it have been counted. */
  lemma BeforeCycle(p: Plan, lowCount: nat, c: nat)
    requires Whole(p, lowCount) && WholeGaps(p) && Distinct(p) && 0 < c < p.seconds
    ensures p.Arrivals(c * 1_000_000_000 - 1) == c * p.cycleMessages
  {
    LastOfPhase(p.low, lowCount, 1_000_000_000 - p.burstNs);
    SplitTime(p, lowCount, c - 1, 999_999_999);
    LastCount(p, lowCount);
    hide Plan.Arrivals, PartCount, Whole, PhaseCount;
    assert (c - 1) * 1_000_000_000 + 999_999_999 == c * 1_000_000_000 - 1;
    assert (c - 1) * p.cycleMessages == c * p.cycleMessages - p.cycleMessages;
  }

  lemma LastCount(p: Plan, lowCount: nat)
    requires Whole(p, lowCount) && PhaseCount(1_000_000_000 - p.burstNs - 1, p.low) == lowCount - 1
    ensures PartCount(p, 999_999_999) == p.cycleMessages - 1
  {
    hide PhaseCount;
  }

  /** The self-test's property holds of an accepted plan if and only if the gaps are whole. Rates
      in whole thousands, which the program takes to be enough, are not: see InexactRate. */
  lemma SelfTestIff(o: Options)
    requires o.Accepted()
    ensures MakePlan(o).cycleMessages > 0 && MakePlan(o).low > 0 && MakePlan(o).high > 0
    ensures SelfTest(MakePlan(o)) <==> WholeGaps(MakePlan(o))
  {
    var p := MakePlan(o);
    var lowCount := PlanIsWhole(o);
    if WholeGaps(p) {
      WholeGapsAreDistinct(p);
      DueStrictlyIncreasingIff(o);
      forall i | 0 <= i < p.Total()
        ensures p.Arrivals(p.Due(i)) == i + 1
        ensures p.Due(i) > 0 ==> p.Arrivals(p.Due(i) - 1) == i
      {
        ExactAt(p, lowCount, i);
        if p.Due(i) > 0 {
          ExactBefore(p, lowCount, i);
        }
      }
    } else if Distinct(p) {
      MissedSecond(p, lowCount);
    } else {
      DueStrictlyIncreasingIff(o);
    }
  }

  /** With a gap that is not whole, the second message of the phase is not counted when due. */
  lemma MissedSecond(p: Plan, lowCount: nat)
    requires Whole(p, lowCount) && Distinct(p) && !WholeGaps(p)
    requires p.burstNs > 0 && 1_000_000_000 % p.high != 0 ==> p.PeakCount() >= 2
    requires 1_000_000_000 % p.low != 0 ==> lowCount >= 2
    ensures exists i :: 0 <= i < p.Total() && p.Arrivals(p.Due(i)) == i
  {
    var i := if 1_000_000_000 % p.low != 0 then p.PeakCount() + 1 else 1;
    FirstCycle(p, lowCount, i);
    PartDueInCycle(p, lowCount, i);
    SplitTime(p, lowCount, 0, PartDue(p, i));
    PhaseInexact(if 1_000_000_000 % p.low != 0 then p.low else p.high);
    assert p.Arrivals(p.Due(i)) == i;
  }

  /** The smallest such rate: 6000 messages a second, a positive multiple of 2000, puts message 1
      at 333,333 ns, where the count still stands at one. */
  lemma InexactRate(seconds: nat)
    requires 0 < seconds < TWO32
    ensures var o := Options(6000, 4_000_000, 0, seconds, false);
            o.Accepted() && MakePlan(o).low == MakePlan(o).high == MakePlan(o).cycleMessages == 3000 &&
            MakePlan(o).Due(1) == 333_333 && MakePlan(o).Arrivals(333_333) == 1
  {
    var o := Options(6000, 4_000_000, 0, seconds, false);
    var p := MakePlan(o);
    var lowCount := PlanIsWhole(o);
    assert p.low == 3000 && p.cycleMessages == 3000 && p.PeakCount() == 0;
    PhaseDueUnique(1, 3000, 333_333);
    FirstCycle(p, lowCount, 1);
    SplitTime(p, lowCount, 0, 333_333);
  }

  /** With whole gaps, a message is counted from its due time on and not before. */
  lemma CountedExactlyWhenDue(o: Options, i: nat, t: nat)
    requires o.Accepted() && i < MakePlan(o).Total() && t < MakePlan(o).DurationNs()
    requires MakePlan(o).cycleMessages > 0 && MakePlan(o).low > 0 && MakePlan(o).high > 0
    requires WholeGaps(MakePlan(o))
    ensures MakePlan(o).Due(i) <= t <==> i < MakePlan(o).Arrivals(t)
  {
    var p := MakePlan(o);
    SelfTestIff(o);
    if p.Due(i) <= t {
      ArrivalsMonotone(o, p.Due(i), t);
    } else {
      ArrivalsMonotone(o, t, p.Due(i) - 1);
    }
  }

  /** No 64-bit register overflows while half-rates stay within 4 * 10^9 messages a second: every
      product the source forms fits, for each message of the run and each time inside it. */
  lemma NoOverflow(o: Options, sequence: nat, elapsed: nat)
    requires o.Accepted() && MakePlan(o).low <= 4_000_000_000 && MakePlan(o).high <= 4_000_000_000
    requires sequence < MakePlan(o).Total() && elapsed < MakePlan(o).DurationNs()
    ensures var p := MakePlan(o);
            p.high * p.burstNs < TWO64 && p.low * (1_000_000_000 - p.burstNs) < TWO64 &&
            p.Total() < TWO64 && p.DurationNs() < TWO64 && p.cycleMessages > 0
    ensures var p := MakePlan(o);
            (sequence % p.cycleMessages) * 1_000_000_000 < TWO64 && p.low > 0 && p.high > 0 &&
            p.Due(sequence) < TWO64
    ensures var p := MakePlan(o);
            (elapsed % 1_000_000_000) * Max(p.low, p.high) < TWO64 && p.Arrivals(elapsed) < TWO64
  {
    var p := MakePlan(o);
    var lowCount := PlanIsWhole(o);
    CycleAtMost(p, lowCount, 4_000_000_000);
    MulMonotone(p.burstNs, p.high, 4_000_000_000);
    MulMonotone(1_000_000_000 - p.burstNs, p.low, 4_000_000_000);
    MulMonotone(p.seconds, p.cycleMessages, 4_000_000_000);
    DueWithin(p, lowCount, sequence);
    ArrivalsMonotone(o, elapsed, elapsed);
    var m := p.cycleMessages;
    DivBounds(sequence, m);
    assert sequence % m < m;
    MulMonotone(elapsed % 1_000_000_000, Max(p.low, p.high), 4_000_000_000);
  }

  /** A cycle holds no more messages than the faster half-rate. */
  lemma CycleAtMost(p: Plan, lowCount: nat, rate: nat)
    requires Whole(p, lowCount) && p.low <= rate && p.high <= rate
    ensures p.cycleMessages <= rate
  {
    MulMonotone(p.burstNs, p.high, rate);
    MulMonotone(1_000_000_000 - p.burstNs, p.low, rate);
    assert rate * p.burstNs + rate * (1_000_000_000 - p.burstNs) == rate * 1_000_000_000;
  }

  // ---------------------------------------------------------------- in the options' own fields

  /** The messages one publisher has in the burst of a cycle: a whole number a millisecond. */
  function BurstMessages(o: Options): nat {
    MulMonotone(o.peakRate / 2000, 0, o.burstMs);
    if o.burst then o.peakRate / 2000 * o.burstMs else 0
  }

  function BurstNs(o: Options): nat {
    if o.burst then 1_000_000 * o.burstMs else 0
  }

  /** And in a whole cycle: at half the rate, or at half the peak rate for the burst and at half the
      rate for the rest. */
  function CycleMessages(o: Options): nat
    requires o.Accepted()
  {
    MulMonotone(o.rate / 2000, 0, 1000 - o.burstMs);
    if o.burst then BurstMessages(o) + o.rate / 2000 * (1000 - o.burstMs) else o.rate / 2
  }

  lemma PlanFields(o: Options) returns (lowCount: nat)
    requires o.Accepted()
    ensures var p := MakePlan(o);
            && Whole(p, lowCount) && p.seconds == o.seconds && p.burstNs == BurstNs(o)
            && p.PeakCount() == BurstMessages(o) && p.cycleMessages == CycleMessages(o)
            && p.low == o.rate / 2 && (o.burst ==> p.high == o.peakRate / 2)
  {
    var b := if o.burst then o.burstMs else 0;
    var a, c := (if o.burst then o.peakRate else o.rate) / 2000, o.rate / 2000;
    lowCount := PlanIsWhole(o);
    Thousands(a, b);
    Thousands(c, 1000 - b);
    PlanHalves(o);
    assert 1_000_000_000 - 1_000_000 * b == 1_000_000 * (1000 - b);
  }

  lemma PlanHalves(o: Options)
    requires o.Accepted()
    ensures o.rate / 2 == 1000 * (o.rate / 2000) && o.peakRate / 2 == 1000 * (o.peakRate / 2000)
    ensures o.rate / 2000 * 1000 == o.rate / 2
  {
  }

  /** Message j of a cycle is due t nanoseconds into it: the burst comes first and at half the peak
      rate, the rest follows at half the rate, and each message is due in the nanosecond in which its
      phase has reached it. */
  predicate DueAt(o: Options, j: nat, t: int) {
    && 0 <= t < 1_000_000_000
    && (t < BurstNs(o) <==> j < BurstMessages(o))
    && (j < BurstMessages(o) ==> t * (o.peakRate / 2) <= j * 1_000_000_000 < (t + 1) * (o.peakRate / 2))
    && (j >= BurstMessages(o) ==>
          (t - BurstNs(o)) * (o.rate / 2) <= (j - BurstMessages(o)) * 1_000_000_000
            < (t - BurstNs(o) + 1) * (o.rate / 2))
  }

  /** After t nanoseconds of a cycle its phases have reached k messages besides the first. */
  predicate ReachedAt(o: Options, t: nat, k: int)
    requires o.Accepted()
  {
    && 0 <= k < CycleMessages(o)
    && (t < BurstNs(o) <==> k < BurstMessages(o))
    && (t < BurstNs(o) ==> k * 1_000_000_000 <= t * (o.peakRate / 2) < (k + 1) * 1_000_000_000)
    && (t >= BurstNs(o) ==>
          (k - BurstMessages(o)) * 1_000_000_000 <= (t - BurstNs(o)) * (o.rate / 2)
            < (k - BurstMessages(o) + 1) * 1_000_000_000)
  }

  /** When message j of cycle c is due: the cycles follow each other by the second. */
  lemma DueIs(o: Options, c: nat, j: nat)
    requires o.Accepted() && c < o.seconds && j < CycleMessages(o)
    ensures var p := MakePlan(o);
            && p.low > 0 && p.high > 0 && p.cycleMessages == CycleMessages(o)
            && 0 <= c * CycleMessages(o) && c * CycleMessages(o) + j < p.Total() == CycleMessages(o) * o.seconds
    ensures DueAt(o, j, MakePlan(o).Due(c * CycleMessages(o) + j) - c * 1_000_000_000)
  {
    hide MakePlan, BurstNs, BurstMessages, CycleMessages, PhaseDue, Plan.Due;
    var p := MakePlan(o);
    var lowCount := PlanFields(o);
    NoBurst(o);
    DueOf(p, lowCount, c, j);
    PartDueInCycle(p, lowCount, j);
    if j < BurstMessages(o) {
      PhaseDueIs(j, p.high);
    } else {
      PhaseDueIs(j - BurstMessages(o), p.low);
    }
  }

  lemma PhaseDueIs(o: nat, r: nat)
    requires r > 0
    ensures PhaseDue(o, r) * r <= o * 1_000_000_000 < (PhaseDue(o, r) + 1) * r
  {
  }

  lemma NoBurst(o: Options)
    ensures !o.burst ==> BurstMessages(o) == 0 && BurstNs(o) == 0
  {
  }

  /** A quotient and remainder that fit are the ones. */
  lemma CycleIs(sequence: nat, m: nat, cycle: nat, offset: nat)
    requires m > 0 && sequence == cycle * m + offset && offset < m
    ensures Quotient(sequence, m) == cycle && sequence % m == offset
  {
    DivUnique(sequence, m, cycle);
    DivUnique(sequence, m, Quotient(sequence, m));
  }

  lemma DueOf(p: Plan, lowCount: nat, c: nat, j: nat)
    requires Whole(p, lowCount) && c < p.seconds && j < p.cycleMessages
    ensures p.low > 0 && p.high > 0 && 0 <= c * p.cycleMessages && c * p.cycleMessages + j < p.Total()
    ensures p.Due(c * p.cycleMessages + j) == c * 1_000_000_000 + PartDue(p, j)
  {
    hide PhaseDue, Plan.PeakCount, Quotient;
    PlaceInRun(c, j, p.cycleMessages, p.seconds);
    CycleIs(c * p.cycleMessages + j, p.cycleMessages, c, j);
  }

  lemma PlaceInRun(c: nat, j: nat, m: nat, seconds: nat)
    requires c < seconds && j < m
    ensures 0 <= c * m && c * m + j < m * seconds
  {
    MulMonotone(m, 0, c);
    MulMonotone(m, c + 1, seconds);
    assert m * (c + 1) == c * m + m;
  }

  /** The count at a time in cycle c: all messages of the cycles before it, the first of this one and
      those its phases have reached. */
  lemma ArrivalsAre(o: Options, c: nat, t: nat)
    requires o.Accepted() && c < o.seconds && t < 1_000_000_000
    ensures ReachedAt(o, t, MakePlan(o).Arrivals(c * 1_000_000_000 + t) - c * CycleMessages(o) - 1)
  {
    hide MakePlan, BurstNs, BurstMessages, CycleMessages, PhaseCount;
    var p := MakePlan(o);
    var lowCount := PlanFields(o);
    SplitTime(p, lowCount, c, t);
    if t < p.burstNs {
      PhaseCountBefore(t, p.high, p.PeakCount(), p.burstNs);
      NoBurst(o);
    }
  }

  /** After the last cycle the count is all messages of the run. */
  lemma ArrivalsAtEnd(o: Options, t: nat)
    requires o.Accepted() && t >= o.seconds * 1_000_000_000
    ensures MakePlan(o).Arrivals(t) == CycleMessages(o) * o.seconds
  {
    var lowCount := PlanFields(o);
  }
}
