/** The open-loop arrival times of tools/aeron_compare/latency_pacing.hpp: when producer p plans to
    send its message number seq, at a given rate of messages a second. */
module Pacing {
  import opened Words

  const SECOND: nat := 1_000_000_000

  /** The time since the start of a message before the producers are staggered, as computed. */
  function Base(sequence: nat, rate: nat): nat
    requires rate > 0
  {
    sequence / rate * 1_000_000_000 + sequence % rate * 1_000_000_000 / rate
  }

  /** Whole nanoseconds between two messages of one producer. */
  function Gap(rate: nat): nat
    requires rate > 0
  {
    1_000_000_000 / rate
  }

  function Stagger(rate: nat, producer: nat, producers: nat): nat
    requires rate > 0 && producers > 0
  {
    Quotient(producer * Gap(rate), producers)
  }

  function Planned(start: nat, sequence: nat, rate: nat, producer: nat, producers: nat): nat
    requires rate > 0 && producers > 0
  {
    start + Base(sequence, rate) + Stagger(rate, producer, producers)
  }

  /** The same in 64-bit registers, as the code evaluates it. */
  function PlannedWord(start: U64, sequence: U64, rate: U64, producer: U32, producers: U32): U64
    requires rate > 0 && producers > 0
  {
    AddWord(AddWord(AddWord(start, Wrap(sequence / rate * 1_000_000_000)),
                    Wrap(sequence % rate * 1_000_000_000) / rate),
            Wrap(producer * Gap(rate)) / producers)
  }

  /** No drift: splitting the sequence number into whole seconds and a rest loses nothing, so every
      arrival is the exact time rounded down, however many came before. */
  lemma BaseIsExact(sequence: nat, rate: nat)
    requires rate > 0
    ensures Base(sequence, rate) == sequence * 1_000_000_000 / rate
  {
    var q, r := sequence / rate, sequence % rate;
    MulAssociative(q, rate, 1_000_000_000);
    MulAssociative(q, 1_000_000_000, rate);
    assert sequence * 1_000_000_000 == (q * 1_000_000_000) * rate + r * 1_000_000_000;
    DivAddMultiple(r * 1_000_000_000, q * 1_000_000_000, rate);
  }

  /** Every producer repeats its pattern exactly, one second later, after as many messages as the
      rate. */
  lemma Periodic(start: nat, sequence: nat, rate: nat, producer: nat, producers: nat)
    requires rate > 0 && producers > 0
    ensures Planned(start, sequence + rate, rate, producer, producers) ==
              Planned(start, sequence, rate, producer, producers) + SECOND
  {
    DivAddMultiple(sequence, 1, rate);
    assert (sequence + rate) / rate == sequence / rate + 1;
    assert (sequence + rate) % rate == sequence % rate;
  }

  lemma GapIsPositiveIff(rate: nat)
    requires rate > 0
    ensures Gap(rate) >= 1 <==> rate <= SECOND
  {
    DivBounds(1_000_000_000, rate);
    if rate <= SECOND {
      DivRange(1_000_000_000, rate, 1, 1_000_000_001);
    } else {
      DivUnique(1_000_000_000, rate, 0);
    }
  }

  /** Two messages of one producer are at least a whole gap apart. */
  lemma GapBetween(sequence: nat, rate: nat)
    requires rate > 0
    ensures Base(sequence + 1, rate) >= Base(sequence, rate) + Gap(rate)
  {
    BaseIsExact(sequence, rate);
    BaseIsExact(sequence + 1, rate);
    var gap := Gap(rate);
    DivBounds(1_000_000_000, rate);
    DivAddMultiple(sequence * 1_000_000_000, gap, rate);
    DivMonotone(gap * rate + sequence * 1_000_000_000, (sequence + 1) * 1_000_000_000, rate);
  }

  lemma {:induction false} BaseMonotone(a: nat, b: nat, rate: nat)
    requires rate > 0 && a <= b
    ensures Base(a, rate) <= Base(b, rate)
    ensures a < b ==> Base(a + 1, rate) <= Base(b, rate)
    decreases b
  {
    if a < b {
      GapBetween(b - 1, rate);
      BaseMonotone(a, b - 1, rate);
    }
  }

  /** A producer's arrival times are all different exactly for the rates the options allow. */
  lemma StrictIff(rate: nat)
    requires rate > 0
    ensures (forall a, b :: 0 <= a < b ==> Base(a, rate) < Base(b, rate)) <==> rate <= SECOND
  {
    GapIsPositiveIff(rate);
    if rate <= SECOND {
      forall a, b | 0 <= a < b ensures Base(a, rate) < Base(b, rate) {
        GapBetween(a, rate);
        BaseMonotone(a, b, rate);
      }
    } else {
      BaseIsExact(0, rate);
      BaseIsExact(1, rate);
      DivUnique(0, rate, 0);
      assert Base(0, rate) == Base(1, rate) == 0;
    }
  }

  lemma StaggerBounds(rate: nat, p: nat, producers: nat)
    requires 0 < rate <= SECOND && p < producers
    ensures Stagger(rate, p, producers) < Gap(rate)
  {
    GapIsPositiveIff(rate);
    var gap := Gap(rate);
    StaggerBelow(p, gap, producers);
  }

  lemma StaggerBelow(p: nat, gap: nat, producers: nat)
    requires p < producers && gap > 0
    ensures p * gap / producers < gap
  {
    MulMonotone(gap, p + 1, producers);
    assert gap * (p + 1) == p * gap + gap;
    DivRange(p * gap, producers, 0, gap);
  }

  /** Arrivals are ordered by sequence number first: no producer's stagger reaches the next
      sequence number of any producer. */
  lemma SequenceFirst(start: nat, a: nat, b: nat, rate: nat, p: nat, q: nat, producers: nat)
    requires 0 < rate <= SECOND && p < producers && q < producers && a < b
    ensures Planned(start, a, rate, p, producers) < Planned(start, b, rate, q, producers)
  {
    StaggerBounds(rate, p, producers);
    GapBetween(a, rate);
    BaseMonotone(a, b, rate);
  }

  /** And then by producer. */
  lemma ProducerSecond(start: nat, sequence: nat, rate: nat, p: nat, q: nat, producers: nat)
    requires 0 < rate && p <= q < producers
    ensures Planned(start, sequence, rate, p, producers) <= Planned(start, sequence, rate, q, producers)
  {
    var gap := Gap(rate);
    MulMonotone(gap, p, q);
    DivMonotone(p * gap, q * gap, producers);
  }

  /** The stagger separates the producers exactly when the gap has a nanosecond for each. */
  lemma StaggerSeparatesIff(rate: nat, producers: nat)
    requires 0 < rate <= SECOND && producers > 0
    ensures (forall p, q :: 0 <= p < q < producers ==> Stagger(rate, p, producers) < Stagger(rate, q, producers))
            <==> Gap(rate) >= producers
  {
    GapIsPositiveIff(rate);
    var gap := Gap(rate);
    if gap >= producers {
      forall p, q | 0 <= p < q < producers ensures Stagger(rate, p, producers) < Stagger(rate, q, producers) {
        MulMonotone(gap, p + 1, q);
        assert gap * (p + 1) == p * gap + gap;
        DivAddMultiple(p * gap, 1, producers);
        DivMonotone(p * gap + producers, q * gap, producers);
      }
    } else {
      DivUnique(0 * gap, producers, 0);
      DivUnique(1 * gap, producers, 0);
      assert Stagger(rate, 0, producers) == Stagger(rate, 1, producers) == 0;
    }
  }

  /** All arrivals of all producers are at different times exactly under the same condition. */
  lemma AllDistinctIff(start: nat, rate: nat, producers: nat)
    requires 0 < rate <= SECOND && producers > 0
    ensures (forall a, p, b, q :: 0 <= a && 0 <= b && 0 <= p < producers && 0 <= q < producers && (a != b || p != q) ==>
               Planned(start, a, rate, p, producers) != Planned(start, b, rate, q, producers))
            <==> Gap(rate) >= producers
  {
    StaggerSeparatesIff(rate, producers);
    if Gap(rate) >= producers {
      forall a, p, b, q | 0 <= a && 0 <= b && 0 <= p < producers && 0 <= q < producers && (a != b || p != q)
        ensures Planned(start, a, rate, p, producers) != Planned(start, b, rate, q, producers)
      {
        if a < b {
          SequenceFirst(start, a, b, rate, p, q, producers);
        } else if b < a {
          SequenceFirst(start, b, a, rate, q, p, producers);
        } else if p < q {
          assert Stagger(rate, p, producers) < Stagger(rate, q, producers);
        } else {
          assert Stagger(rate, q, producers) < Stagger(rate, p, producers);
        }
      }
    } else {
      var p, q :| 0 <= p < q < producers && Stagger(rate, p, producers) >= Stagger(rate, q, producers);
      ProducerSecond(start, 0, rate, p, q, producers);
      assert Planned(start, 0, rate, p, producers) == Planned(start, 0, rate, q, producers);
    }
  }

  /** In 64-bit registers: for an allowed rate neither product that is divided can wrap, so the
      register holds the planned time modulo 2^64, and the planned time itself whenever that fits. */
  lemma WordIsPlanned(start: U64, sequence: U64, rate: U64, producer: U32, producers: U32)
    requires 0 < rate <= SECOND && producers > 0
    ensures sequence % rate * 1_000_000_000 < TWO64 && producer * Gap(rate) < TWO64
    ensures PlannedWord(start, sequence, rate, producer, producers) ==
              Wrap(Planned(start, sequence, rate, producer, producers))
  {
    NoProductWraps(sequence % rate, rate, producer);
    WrapSmall(sequence % rate * 1_000_000_000);
    WrapSmall(producer * Gap(rate));
    var whole, rest := sequence / rate * 1_000_000_000, sequence % rate * 1_000_000_000 / rate;
    WrapThree(start, whole, rest, Stagger(rate, producer, producers));
  }

  lemma NoProductWraps(r: nat, rate: nat, producer: U32)
    requires r < rate <= SECOND
    ensures r * 1_000_000_000 < TWO64 && producer * Gap(rate) < TWO64
  {
    MulMonotone(1_000_000_000, r, 1_000_000_000);
    DivRange(1_000_000_000, rate, 0, 1_000_000_001);
    MulMonotone(producer, Gap(rate), 1_000_000_000);
  }

  lemma WrapThree(start: int, whole: int, rest: int, stagger: int)
    ensures AddWord(AddWord(AddWord(start, Wrap(whole)), rest), stagger) == Wrap(start + whole + rest + stagger)
  {
    WrapAdd(whole, start);
    WrapAdd(start + whole, rest);
    WrapAdd(start + whole + rest, stagger);
  }
}
