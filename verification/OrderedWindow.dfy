/** How wide the rings of the ordered channel may be: the exact condition for the total order, and
    what the test that creation makes (src/core/channel/hybrid_mpsc.hpp) has to do with it. */
module OrderedWindow {
  import opened Words
  import opened CommitWatermark
  import opened OrderedFrames
  import opened OrderedChannel

  /** Empty frames claimed ring after ring, each ring up to the limit. */
  function Filling(limit: nat, n: nat): (frames: seq<Frame>)
    requires limit > 0
    ensures |frames| == n && forall i :: 0 <= i < n ==> frames[i] == Frame(i / limit, 0, [], false, false)
  {
    seq(n, i requires 0 <= i => Frame(i / limit, 0, [], false, false))
  }

  function FillEvents(limit: nat, n: nat): (events: seq<Event>)
    requires limit > 0
  {
    seq(n, i requires 0 <= i => Claim(i / limit, 0))
  }

  /** What ring q holds after k of those claims. */
  function Level(limit: nat, q: nat, k: nat): int {
    if k <= q * limit then 0 else Min(k - q * limit, limit)
  }

  lemma {:induction false} FillingWords(limit: nat, n: nat, q: nat, k: nat)
    requires limit > 0 && k <= n
    ensures WordsOf(Filling(limit, n), q, k) == Level(limit, q, k)
  {
    if k > 0 {
      FillingWords(limit, n, q, k - 1);
      RingOf(k - 1, q, limit);
    }
  }

  lemma RingOf(i: nat, q: nat, limit: nat)
    requires limit > 0
    ensures i / limit == q <==> q * limit <= i < q * limit + limit
  {
    DivBounds(i, limit);
    if q * limit <= i < q * limit + limit {
      assert (q + 1) * limit == q * limit + limit;
      DivUnique(i, limit, q);
    }
  }

  lemma FillingOwners(g: Config, n: nat)
    requires g.Valid() && g.Limit() > 0 && n <= (g.producers - 1) * g.Limit()
    ensures forall i :: 0 <= i < n ==> FrameOk(g, Filling(g.Limit(), n)[i])
  {
    forall i | 0 <= i < n ensures FrameOk(g, Filling(g.Limit(), n)[i]) {
      DivRange(i, g.Limit(), 0, g.producers - 1);
    }
  }

  lemma RunAppend(g: Config, s: State, first: seq<Event>, e: Event)
    requires Shape(g, s)
    ensures Run(g, s, first + [e]) == Next(g, Run(g, s, first), e)
  {
    hide Next, Run;
    RunConcat(g, s, first, [e]);
    RunOne(g, Run(g, s, first), e);
  }

  /** The state after the fill. */
  function Filled(g: Config, n: nat): State
    requires g.Valid() && g.Limit() > 0
  {
    Initial(g).(frames := Filling(g.Limit(), n))
  }

  lemma {:induction false} FillRun(g: Config, n: nat)
    requires g.Valid() && g.Limit() > 0 && n <= (g.producers - 1) * g.Limit()
    ensures Run(g, Initial(g), FillEvents(g.Limit(), n)) == Filled(g, n)
  {
    hide Next, Run;
    if n > 0 {
      FillRun(g, n - 1);
      var e := Claim((n - 1) / g.Limit(), 0);
      assert FillEvents(g.Limit(), n) == FillEvents(g.Limit(), n - 1) + [e];
      RunAppend(g, Initial(g), FillEvents(g.Limit(), n - 1), e);
      FillStep(g, n - 1);
    } else {
      FillNone(g);
    }
  }

  lemma FillNone(g: Config)
    requires g.Valid() && g.Limit() > 0
    ensures Run(g, Initial(g), FillEvents(g.Limit(), 0)) == Filled(g, 0)
  {
    assert Filling(g.Limit(), 0) == [] && FillEvents(g.Limit(), 0) == [];
  }

  lemma FillStep(g: Config, n: nat)
    requires g.Valid() && g.Limit() > 0 && n < (g.producers - 1) * g.Limit()
    ensures Shape(g, Filled(g, n)) && Next(g, Filled(g, n), Claim(n / g.Limit(), 0)) == Filled(g, n + 1)
  {
    hide WordsOf;
    var q := n / g.Limit();
    FillingOwners(g, n);
    DivRange(n, g.Limit(), 0, g.producers - 1);
    RingOf(n, q, g.Limit());
    FillingWords(g.Limit(), n, q, n);
    assert Filling(g.Limit(), n + 1) == Filling(g.Limit(), n) + [Frame(q, 0, [], false, false)];
    assert Claimed(g, Filled(g, n), q, 0) == Frame(q, 0, [], false, false);
  }

  /** The other rings take a whole period of claims and commit none, and the last ring's frame, a
      period later, is taken for the first. */
  function CrossedRun(g: Config, n: nat): seq<Event>
    requires g.Valid() && g.Limit() > 0
  {
    var q := g.producers - 1;
    FillEvents(g.Limit(), n) + [Claim(q, 0)] + [StoreHeader(n)] + [Commit(n)] + [Look(0, q)] + [Receive(0, q)]
  }

  /** The fill, and the last ring's frame claimed, headed or committed, with its ring otherwise empty. */
  function Crossed(g: Config, n: nat, headed: bool, committed: bool): seq<Frame>
    requires g.Valid() && g.Limit() > 0
  {
    Filling(g.Limit(), n) + [Frame(g.producers - 1, 0, [], headed, committed)]
  }

  lemma CrossedShape(g: Config, n: nat, headed: bool, committed: bool)
    requires g.Valid() && g.Limit() > 0 && n <= (g.producers - 1) * g.Limit() && (committed ==> headed)
    ensures var frames := Crossed(g, n, headed, committed);
            && (forall i :: 0 <= i < |frames| ==> FrameOk(g, frames[i]))
            && WordsOf(frames, g.producers - 1, n) == 0
  {
    hide WordsOf;
    FillingOwners(g, n);
    FillingWords(g.Limit(), n, g.producers - 1, n);
    SameWords(Crossed(g, n, headed, committed), Filling(g.Limit(), n), g.producers - 1, n);
  }

  /** With the last ring's frame claimed; with its header stored; committed; and after the consumer has
      looked. */
  function CrossedClaimed(g: Config, n: nat): State
    requires g.Valid() && g.Limit() > 0
  {
    Initial(g).(frames := Crossed(g, n, false, false))
  }

  function CrossedHeaded(g: Config, n: nat): State
    requires g.Valid() && g.Limit() > 0
  {
    var s, q := Initial(g), g.producers - 1;
    var ring: seq<nat> := s.cells[q][0 := Header(n, 0)];
    s.(frames := Crossed(g, n, true, false), cells := s.cells[q := ring])
  }

  function CrossedVisible(g: Config, n: nat): State
    requires g.Valid() && g.Limit() > 0
  {
    var s := CrossedHeaded(g, n);
    s.(frames := Crossed(g, n, true, true), marks := s.marks[g.producers - 1 := Mark(1, [])])
  }

  function CrossedSeen(g: Config, n: nat): State
    requires g.Valid() && g.Limit() > 0
  {
    var s := CrossedVisible(g, n);
    s.(consumers := s.consumers[0 := Consumer(0, Zeros(g), Zeros(g)[g.producers - 1 := 1], Zeros(g), [])])
  }

  lemma CrossedClaim(g: Config, n: nat)
    requires g.Valid() && g.Limit() > 0
    requires Shape(g, Filled(g, n)) && WordsOf(Filling(g.Limit(), n), g.producers - 1, n) == 0
    ensures Next(g, Filled(g, n), Claim(g.producers - 1, 0)) == CrossedClaimed(g, n)
  {
    hide WordsOf;
    assert Claimed(g, Filled(g, n), g.producers - 1, 0) == Frame(g.producers - 1, 0, [], false, false);
  }

  lemma CrossedHead(g: Config, n: nat)
    requires g.Valid() && g.Limit() > 0 && Shape(g, CrossedClaimed(g, n))
    requires WordsOf(Crossed(g, n, false, false), g.producers - 1, n) == 0
    ensures Next(g, CrossedClaimed(g, n), StoreHeader(n)) == CrossedHeaded(g, n)
  {
    hide WordsOf, Header, HeadFrame;
    HeadIs(g, CrossedClaimed(g, n), n);
    assert Crossed(g, n, false, false)[n := Frame(g.producers - 1, 0, [], true, false)] == Crossed(g, n, true, false);
  }

  /** Storing a header at the start of a ring. */
  lemma HeadIs(g: Config, s: State, n: nat)
    requires Shape(g, s) && n < |s.frames| && Start(s, n) == 0
    requires s.frames[n] == Frame(g.producers - 1, 0, [], false, false)
    ensures var q := g.producers - 1;
            var ring: seq<nat> := s.cells[q][0 := Header(n, 0)];
            HeadFrame(g, s, n) ==
              s.(frames := s.frames[n := Frame(q, 0, [], true, false)], cells := s.cells[q := ring])
  {
    hide WordsOf, Header;
  }

  lemma CrossedCommit(g: Config, n: nat)
    requires g.Valid() && g.Limit() > 0 && Shape(g, CrossedHeaded(g, n))
    requires WordsOf(Crossed(g, n, true, false), g.producers - 1, n) == 0
    ensures Next(g, CrossedHeaded(g, n), Commit(n)) == CrossedVisible(g, n)
  {
    hide WordsOf, Publish, Header;
    FirstPublish();
    assert Crossed(g, n, true, false)[n := Frame(g.producers - 1, 0, [], true, true)] == Crossed(g, n, true, true);
  }

  lemma CrossedLook(g: Config, n: nat)
    requires g.Valid() && g.Limit() > 0 && Shape(g, CrossedVisible(g, n))
    ensures Next(g, CrossedVisible(g, n), Look(0, g.producers - 1)) == CrossedSeen(g, n)
  {
    hide WordsOf, Crossed, Header;
  }

  lemma CrossedReceive(g: Config, n: nat)
    requires g.Valid() && g.Limit() > 0 && Low(n) == Low(0) && Shape(g, CrossedSeen(g, n))
    ensures Next(g, CrossedSeen(g, n), Receive(0, g.producers - 1)).consumers[0].delivered ==
              [Delivery(g.producers - 1, 0, 0, [])]
  {
    hide WordsOf, Low, Header, HeaderLow, HeaderLength;
    HeaderParts(n, 0);
    assert Receivable(g, CrossedSeen(g, n), 0, g.producers - 1);
  }

  lemma FirstPublish()
    ensures Publish(Mark(0, []), 0, 1) == Mark(1, [])
  {
  }

  lemma LowOfPeriod()
    ensures Low(PERIOD) == Low(0)
  {
  }

  lemma CrossedSteps(g: Config, n: nat)
    requires g.Valid() && g.Limit() > 0 && n == PERIOD <= (g.producers - 1) * g.Limit()
    ensures var q := g.producers - 1;
            Shape(g, Filled(g, n)) &&
            var u := Next(g, Next(g, Next(g, Filled(g, n), Claim(q, 0)), StoreHeader(n)), Commit(n));
            var t := Next(g, Next(g, u, Look(0, q)), Receive(0, q));
            t.frames == Crossed(g, n, true, true) && t.consumers[0].delivered == [Delivery(q, 0, 0, [])]
  {
    FillingOwners(g, n);
    FillingWords(g.Limit(), n, g.producers - 1, n);
    CrossedShape(g, n, false, false);
    CrossedShape(g, n, true, false);
    CrossedShape(g, n, true, true);
    CrossedClaim(g, n);
    CrossedHead(g, n);
    CrossedCommit(g, n);
    CrossedLook(g, n);
    LowOfPeriod();
    CrossedReceive(g, n);
    ReceiveKeepsFrames(g, CrossedSeen(g, n), 0, g.producers - 1);
    hide Next, WordsOf, Low;
  }

  lemma ReceiveKeepsFrames(g: Config, s: State, c: nat, q: nat)
    requires Shape(g, s)
    ensures Next(g, s, Receive(c, q)).frames == s.frames
  {
    hide Receivable, Received;
  }

  /** Where the other rings can hold a period, a frame of another ring can be delivered as number 0. */
  lemma CrossedDelivery(g: Config, n: nat)
    requires g.Valid() && n == PERIOD <= (g.producers - 1) * g.Limit()
    ensures g.Limit() > 0
    ensures var s := Run(g, Initial(g), CrossedRun(g, n));
            && s.frames == Crossed(g, n, true, true) && g.producers > 1
            && s.consumers[0].delivered == [Delivery(g.producers - 1, 0, 0, [])]
  {
    hide Run, Next;
    assert g.Limit() > 0 && g.producers > 1;
    var q := g.producers - 1;
    var fill := FillEvents(g.Limit(), n);
    FillRun(g, n);
    RunAppend(g, Initial(g), fill, Claim(q, 0));
    RunAppend(g, Initial(g), fill + [Claim(q, 0)], StoreHeader(n));
    RunAppend(g, Initial(g), fill + [Claim(q, 0)] + [StoreHeader(n)], Commit(n));
    RunAppend(g, Initial(g), fill + [Claim(q, 0)] + [StoreHeader(n)] + [Commit(n)], Look(0, q));
    RunAppend(g, Initial(g), fill + [Claim(q, 0)] + [StoreHeader(n)] + [Commit(n)] + [Look(0, q)], Receive(0, q));
    CrossedSteps(g, n);
  }

  /** The exact condition, for every publication window: the total order holds over every run if and
      only if what the other rings may hold at once is less than a period. */
  lemma OrderedIff(g: Config)
    requires g.Valid()
    ensures (forall events :: AllOrdered(Run(g, Initial(g), events))) <==> (g.producers - 1) * g.Limit() < PERIOD
  {
    hide Run;
    if g.LowBitsSuffice() {
      forall events ensures AllOrdered(Run(g, Initial(g), events)) {
        EveryRunIsOrdered(g, events);
      }
    } else {
      CrossedDelivery(g, PERIOD);
      var s := Run(g, Initial(g), CrossedRun(g, PERIOD));
      FirstOwner(g, PERIOD);
      assert !Faithful(s.frames[0], s.consumers[0].delivered[0]);
      assert !DeliveredOk(s, s.consumers[0]);
    }
  }

  lemma FirstOwner(g: Config, n: nat)
    requires g.Valid() && g.Limit() > 0 && n > 0
    ensures |Crossed(g, n, true, true)| > 0 && Crossed(g, n, true, true)[0].owner == 0
  {
    DivUnique(0, g.Limit(), 0);
  }

  /** So the test at creation is sound for every window, and exact when the window is the ring. */
  lemma CreationTestSuffices(g: Config)
    requires g.Valid() && WindowFits(g.producers, g.capacity)
    ensures forall events :: AllOrdered(Run(g, Initial(g), events))
  {
    hide Run;
    WindowFitsIff(g.producers, g.capacity);
    MulMonotone(g.producers - 1, g.Limit(), g.capacity);
    OrderedIff(g);
  }

  lemma CreationTestExactAtFullWindow(g: Config)
    requires g.Valid() && g.Limit() == g.capacity
    ensures (forall events :: AllOrdered(Run(g, Initial(g), events))) <==> WindowFits(g.producers, g.capacity)
  {
    hide Run, WindowFits;
    WindowFitsIff(g.producers, g.capacity);
    OrderedIff(g);
  }

  /** The channels it refuses although they would keep the order over every run: those whose rings are
      too large for a period but whose publication window is not. */
  lemma RefusedThoughOrderedIff(g: Config)
    requires g.Valid()
    ensures !WindowFits(g.producers, g.capacity) && (forall events :: AllOrdered(Run(g, Initial(g), events)))
            <==> (g.producers - 1) * g.Limit() < PERIOD <= (g.producers - 1) * g.capacity
  {
    hide Run, WindowFits;
    WindowFitsIff(g.producers, g.capacity);
    OrderedIff(g);
  }

  /** One such: two producers, rings of 128 MiB and a window of 64 KiB. */
  lemma RefusedThoughOrdered()
    ensures var g := Config(2, 1, 0x100_0000, 0x1_0000);
            && g.Valid() && !WindowFits(g.producers, g.capacity)
            && forall events :: AllOrdered(Run(g, Initial(g), events))
  {
    hide Run, WindowFits;
    RefusedThoughOrderedIff(Config(2, 1, 0x100_0000, 0x1_0000));
  }
}
