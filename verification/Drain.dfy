/** How a subscriber of tools/hft_acceptance/acceptance.cpp decides that it has everything: the
    publishers' sent and done words against its own count, over every interleaving of N publishers
    with one subscriber. Subscribers do not touch each other's state, so one stands for all. */
module Drain {
  import opened Wrappers

  /** A message: its publisher and its place in that publisher's stream. */
  datatype Frame = Frame(publisher: nat, index: nat)

  datatype Publisher = Publishing | StoringDone | Finished

  /** What the subscriber does next, with the clock reading of this turn of its loop. */
  datatype Subscriber =
    | Polling
    | LoadDone(next: nat, now: int)
    | LoadSent(next: nat, sum: nat, now: int)
    | Compare(sum: nat, now: int)
    | TestDrainEnd(now: int)
    | ExitComplete
    | ExitTimeout
    | ExitStopped

  datatype State = State(
    end: int, drainEnd: int,
    committed: seq<nat>, sent: seq<nat>, done: seq<bool>, publishers: seq<Publisher>,
    received: set<Frame>, count: nat,
    subscriber: Subscriber)

  datatype Event =
    | Publish(p: nat)
    | StoreSent(p: nat)
    | StoreFinalSent(p: nat)
    | StoreDone(p: nat)
    | Poll(frames: seq<Frame>, now: int)
    | SubscriberStep
    | Stop

  function Initial(publishers: nat, end: int, drainEnd: int): State {
    State(end, drainEnd, seq(publishers, _ => 0), seq(publishers, _ => 0), seq(publishers, _ => false),
          seq(publishers, _ => Publishing), {}, 0, Polling)
  }

  /** All that is asked of the channel: what it hands over was committed, and it hands nothing over
      twice. It may hold frames back for ever and mix the publishers in any order. */
  predicate CommittedAtMostOnce(s: State, frames: seq<Frame>) {
    && (forall i :: 0 <= i < |frames| ==>
          frames[i].publisher < |s.committed| && frames[i].index < s.committed[frames[i].publisher]
          && frames[i] !in s.received)
    && (forall i, j :: 0 <= i < j < |frames| ==> frames[i] != frames[j])
  }

  predicate Shape(s: State) {
    |s.committed| == |s.sent| == |s.done| == |s.publishers|
  }

  function Next(s: State, e: Event): State
    requires Shape(s)
  {
    match e
    case Publish(p) =>
      if p < |s.publishers| && s.publishers[p].Publishing?
      then s.(committed := s.committed[p := s.committed[p] + 1]) else s
    case StoreSent(p) =>
      if p < |s.publishers| && s.publishers[p].Publishing? && s.committed[p] % 256 == 0
      then s.(sent := s.sent[p := s.committed[p]]) else s
    case StoreFinalSent(p) =>
      if p < |s.publishers| && s.publishers[p].Publishing?
      then s.(sent := s.sent[p := s.committed[p]], publishers := s.publishers[p := StoringDone]) else s
    case StoreDone(p) =>
      if p < |s.publishers| && s.publishers[p].StoringDone?
      then s.(done := s.done[p := true], publishers := s.publishers[p := Finished]) else s
    case Poll(frames, now) =>
      if s.subscriber.Polling? && |frames| <= 64 && CommittedAtMostOnce(s, frames)
      then
        s.(received := s.received + Elements(frames), count := s.count + |frames|,
           subscriber := if now >= s.end then LoadDone(0, now) else TestDrainEnd(now))
      else s
    case SubscriberStep => s.(subscriber := SubscriberNext(s))
    case Stop => if s.subscriber.Polling? then s.(subscriber := ExitStopped) else s
  }

  function SubscriberNext(s: State): Subscriber
    requires Shape(s)
  {
    match s.subscriber
    case LoadDone(next, now) =>
      if next >= |s.done| then LoadSent(0, 0, now)
      else if s.done[next] then LoadDone(next + 1, now)
      else TestDrainEnd(now)
    case LoadSent(next, sum, now) =>
      if next < |s.sent| then LoadSent(next + 1, sum + s.sent[next], now) else Compare(sum, now)
    case Compare(sum, now) =>
      if s.count >= sum then ExitComplete else if now >= s.drainEnd then ExitTimeout else TestDrainEnd(now)
    case TestDrainEnd(now) => if now >= s.drainEnd then ExitTimeout else Polling
    case _ => s.subscriber
  }

  lemma {:induction false} ElementsCount(frames: seq<Frame>)
    requires forall i, j :: 0 <= i < j < |frames| ==> frames[i] != frames[j]
    ensures |Elements(frames)| == |frames|
  {
    if frames == [] {
      assert Elements(frames) == {};
    } else {
      ElementsCount(frames[1..]);
      assert Elements(frames) == {frames[0]} + Elements(frames[1..]);
    }
  }

  // ---------------------------------------------------------------- what has been committed

  function Sum(counts: seq<nat>, n: nat): nat
    requires n <= |counts|
  {
    if n == 0 then 0 else Sum(counts, n - 1) + counts[n - 1]
  }

  /** Every frame the first n publishers have committed. */
  function Frames(counts: seq<nat>, n: nat): (r: set<Frame>)
    requires n <= |counts|
    ensures forall f :: f in r <==> f.publisher < n && f.index < counts[f.publisher]
  {
    if n == 0 then {} else Frames(counts, n - 1) + Stream(n - 1, counts[n - 1])
  }

  function Stream(p: nat, count: nat): (r: set<Frame>)
    ensures forall f :: f in r <==> f.publisher == p && f.index < count
  {
    if count == 0 then {} else Stream(p, count - 1) + {Frame(p, count - 1)}
  }

  lemma {:induction false} StreamCount(p: nat, count: nat)
    ensures |Stream(p, count)| == count
  {
    if count > 0 {
      StreamCount(p, count - 1);
    }
  }

  lemma {:induction false} FramesCount(counts: seq<nat>, n: nat)
    requires n <= |counts|
    ensures |Frames(counts, n)| == Sum(counts, n)
  {
    hide Frames, Stream;
    if n > 0 {
      FramesCount(counts, n - 1);
      NextCount(counts, n);
    } else {
      NoFrames(counts);
    }
  }

  lemma NoFrames(counts: seq<nat>)
    ensures Frames(counts, 0) == {}
  {
  }

  lemma NextCount(counts: seq<nat>, n: nat)
    requires 0 < n <= |counts|
    ensures |Frames(counts, n)| == |Frames(counts, n - 1)| + counts[n - 1]
  {
    hide Stream, Frames;
    var a, b := Frames(counts, n - 1), Stream(n - 1, counts[n - 1]);
    FramesUnfold(counts, n);
    StreamCount(n - 1, counts[n - 1]);
    DisjointCount(a, b, n - 1);
    assert Frames(counts, n) == a + b;
  }

  lemma FramesUnfold(counts: seq<nat>, n: nat)
    requires 0 < n <= |counts|
    ensures Frames(counts, n) == Frames(counts, n - 1) + Stream(n - 1, counts[n - 1])
  {
  }

  lemma DisjointCount(a: set<Frame>, b: set<Frame>, n: nat)
    requires (forall f :: f in a ==> f.publisher < n) && (forall f :: f in b ==> f.publisher == n)
    ensures |a + b| == |a| + |b|
  {
    assert a !! b;
  }

  lemma FullSubset(part: set<Frame>, whole: set<Frame>)
    requires part <= whole && |part| >= |whole|
    ensures part == whole
  {
    if f :| f in whole && f !in part {
      SubsetCount(part, whole - {f});
    }
  }

  lemma {:induction false} SubsetCount(part: set<Frame>, whole: set<Frame>)
    requires part <= whole
    ensures |part| <= |whole|
    decreases part
  {
    if f :| f in part {
      SubsetCount(part - {f}, whole - {f});
    }
  }

  // ---------------------------------------------------------------- the invariant

  predicate PublisherOk(s: State, p: nat)
    requires Shape(s) && p < |s.publishers|
  {
    && s.sent[p] <= s.committed[p]
    && (s.publishers[p].Publishing? ==> s.sent[p] % 256 == 0)
    && (!s.publishers[p].Publishing? ==> s.sent[p] == s.committed[p])
    && (s.done[p] <==> s.publishers[p].Finished?)
  }

  /** The first n publishers have finished. */
  predicate DoneBelow(s: State, n: nat)
    requires Shape(s) && n <= |s.done|
  {
    forall p :: 0 <= p < n ==> s.done[p]
  }

  predicate SubscriberOk(s: State)
    requires Shape(s)
  {
    var n := |s.done|;
    match s.subscriber
    case LoadDone(next, _) => next <= n && DoneBelow(s, next)
    case LoadSent(next, sum, _) => next <= n && DoneBelow(s, n) && sum == Sum(s.committed, next)
    case Compare(sum, _) => DoneBelow(s, n) && sum == Sum(s.committed, n)
    case ExitComplete => DoneBelow(s, n) && s.count >= Sum(s.committed, n)
    case _ => true
  }

  predicate Inv(s: State) {
    && Shape(s)
    && (forall p :: 0 <= p < |s.publishers| ==> PublisherOk(s, p))
    && s.received <= Frames(s.committed, |s.committed|) && s.count == |s.received|
    && SubscriberOk(s)
  }

  lemma {:induction false} SumUnchanged(a: seq<nat>, b: seq<nat>, n: nat)
    requires n <= |a| && n <= |b| && forall p :: 0 <= p < n ==> a[p] == b[p]
    ensures Sum(a, n) == Sum(b, n)
  {
    if n > 0 {
      SumUnchanged(a, b, n - 1);
    }
  }

  /** A publisher that has not finished moves on. */
  lemma PublisherKeepsInv(s: State, e: Event)
    requires Inv(s) && (e.Publish? || e.StoreSent? || e.StoreFinalSent? || e.StoreDone?)
    ensures Inv(Next(s, e))
  {
    hide Frames, Sum;
    var t := Next(s, e);
    if e.p < |s.publishers| && t != s {
      assert PublisherOk(s, e.p);
      forall p | 0 <= p < |t.publishers| ensures PublisherOk(t, p) {
        assert PublisherOk(s, p);
      }
      UnfinishedSums(s, t, e.p);
    }
  }

  /** While some publisher is unfinished the subscriber is not past its loads of done. */
  lemma UnfinishedSums(s: State, t: State, p: nat)
    requires Shape(s) && Shape(t) && SubscriberOk(s) && p < |s.done| && !s.done[p]
    requires t.subscriber == s.subscriber && |t.done| == |s.done|
    requires forall q :: 0 <= q < |s.done| && s.done[q] ==> t.done[q]
    ensures SubscriberOk(t)
  {
  }

  lemma PollKeepsInv(s: State, frames: seq<Frame>, now: int)
    requires Inv(s)
    ensures Inv(Next(s, Poll(frames, now)))
  {
    hide Frames, Sum;
    if s.subscriber.Polling? && |frames| <= 64 && CommittedAtMostOnce(s, frames) {
      var t := Next(s, Poll(frames, now));
      PolledAreNew(s, frames);
      forall p | 0 <= p < |t.publishers| ensures PublisherOk(t, p) {
        assert PublisherOk(s, p);
      }
    }
  }

  /** What the channel hands over is committed, new, and as many frames as were handed over. */
  lemma PolledAreNew(s: State, frames: seq<Frame>)
    requires Shape(s) && CommittedAtMostOnce(s, frames)
    ensures Elements(frames) <= Frames(s.committed, |s.committed|)
    ensures |s.received + Elements(frames)| == |s.received| + |frames|
  {
    hide Frames, Elements;
    ElementsCount(frames);
    forall f | f in Elements(frames) ensures f in Frames(s.committed, |s.committed|) && f !in s.received {
      var i :| 0 <= i < |frames| && frames[i] == f;
    }
    assert s.received !! Elements(frames);
  }

  lemma SubscriberKeepsInv(s: State)
    requires Inv(s)
    ensures Inv(Next(s, SubscriberStep))
  {
    hide Frames;
    var t := Next(s, SubscriberStep);
    if s.subscriber.LoadSent? && s.subscriber.next < |s.sent| {
      assert PublisherOk(s, s.subscriber.next);
    }
    forall p | 0 <= p < |t.publishers| ensures PublisherOk(t, p) {
      assert PublisherOk(s, p);
    }
  }

  lemma StepKeepsInv(s: State, e: Event)
    requires Inv(s)
    ensures Inv(Next(s, e))
  {
    match e
    case Poll(frames, now) => PollKeepsInv(s, frames, now);
    case SubscriberStep => SubscriberKeepsInv(s);
    case Stop => StopKeepsInv(s);
    case _ => PublisherKeepsInv(s, e);
  }

  lemma StopKeepsInv(s: State)
    requires Inv(s)
    ensures Inv(Next(s, Stop))
  {
    hide Frames, Sum;
    forall p | 0 <= p < |s.publishers| ensures PublisherOk(Next(s, Stop), p) {
      assert PublisherOk(s, p);
    }
  }

  function Run(s: State, events: seq<Event>): (t: State)
    requires Shape(s)
    ensures Shape(t)
    decreases |events|
  {
    if events == [] then s else Run(Next(s, events[0]), events[1..])
  }

  lemma {:induction false} RunKeepsInv(s: State, events: seq<Event>)
    requires Inv(s)
    ensures Inv(Run(s, events))
    decreases |events|
  {
    if events != [] {
      StepKeepsInv(s, events[0]);
      RunKeepsInv(Next(s, events[0]), events[1..]);
    }
  }

  /** A subscriber that leaves by its count has every frame every publisher ever commits: the sum it
      compared with was the final one, and no publisher can add to it. A count above the sum cannot
      happen. */
  lemma CompleteMeansEverything(publishers: nat, end: int, drainEnd: int, events: seq<Event>)
    requires Run(Initial(publishers, end, drainEnd), events).subscriber.ExitComplete?
    ensures var s := Run(Initial(publishers, end, drainEnd), events);
            && s.received == Frames(s.committed, |s.committed|)
            && s.count == Sum(s.sent, |s.sent|) == Sum(s.committed, |s.committed|)
            && forall p :: 0 <= p < |s.publishers| ==> s.publishers[p].Finished?
  {
    var s0 := Initial(publishers, end, drainEnd);
    InitialInv(publishers, end, drainEnd);
    RunKeepsInv(s0, events);
    CompleteState(Run(s0, events));
  }

  lemma InitialInv(publishers: nat, end: int, drainEnd: int)
    ensures Inv(Initial(publishers, end, drainEnd))
  {
    hide Frames, Sum;
  }

  lemma CompleteState(s: State)
    requires Inv(s) && s.subscriber.ExitComplete?
    ensures s.received == Frames(s.committed, |s.committed|)
    ensures s.count == Sum(s.sent, |s.sent|) == Sum(s.committed, |s.committed|)
    ensures forall p :: 0 <= p < |s.publishers| ==> s.publishers[p].Finished?
  {
    hide Frames, Sum;
    var n := |s.committed|;
    FramesCount(s.committed, n);
    SubsetCount(s.received, Frames(s.committed, n));
    FullSubset(s.received, Frames(s.committed, n));
    forall p | 0 <= p < n ensures s.sent[p] == s.committed[p] && s.publishers[p].Finished? {
      assert PublisherOk(s, p);
    }
    SumUnchanged(s.sent, s.committed, n);
  }

  /** Conversely a subscriber that has everything leaves complete the first time it looks after the
      end: if every publisher has finished by its poll, the loads and the comparison end there. */
  lemma {:induction false} EverythingMeansComplete(s: State)
    requires Inv(s) && DoneBelow(s, |s.done|) && s.received == Frames(s.committed, |s.committed|)
    requires Looking(s.subscriber)
    ensures Run(s, Steps(LoadsLeft(s))).subscriber.ExitComplete?
    decreases LoadsLeft(s)
  {
    hide Inv, Frames, Run;
    LookStep(s);
    var t := Next(s, SubscriberStep);
    var k := LoadsLeft(s);
    assert Steps(k)[1..] == Steps(k - 1) && Steps(k)[0] == SubscriberStep;
    RunStep(s, Steps(k));
    if t.subscriber.ExitComplete? {
      assert Steps(k - 1) == [];
      RunNone(t);
    } else {
      EverythingMeansComplete(t);
    }
  }

  lemma RunStep(s: State, events: seq<Event>)
    requires Shape(s) && events != []
    ensures Shape(Next(s, events[0])) && Run(s, events) == Run(Next(s, events[0]), events[1..])
  {
  }

  lemma RunNone(s: State)
    requires Shape(s)
    ensures Run(s, []) == s
  {
  }

  predicate Looking(s: Subscriber) {
    s.LoadDone? || s.LoadSent? || s.Compare?
  }

  lemma LookStep(s: State)
    requires Inv(s) && DoneBelow(s, |s.done|) && s.received == Frames(s.committed, |s.committed|)
    requires Looking(s.subscriber)
    ensures Shape(s) && SubscriberOk(s) && LoadsLeft(s) >= 1
    ensures var t := Next(s, SubscriberStep);
            && Inv(t) && Shape(t) && SubscriberOk(t) && DoneBelow(t, |t.done|)
            && t.received == Frames(t.committed, |t.committed|)
            && (if t.subscriber.ExitComplete? then LoadsLeft(s) == 1
                else Looking(t.subscriber) && LoadsLeft(t) == LoadsLeft(s) - 1)
  {
    hide Frames, Sum;
    SubscriberKeepsInv(s);
    FramesCount(s.committed, |s.committed|);
  }

  /** Steps the subscriber takes until it has compared. */
  function LoadsLeft(s: State): nat
    requires Shape(s) && SubscriberOk(s)
  {
    match s.subscriber
    case LoadDone(next, _) => 2 * |s.done| - next + 3
    case LoadSent(next, _, _) => |s.done| - next + 2
    case _ => 1
  }

  function Steps(k: nat): seq<Event> {
    seq(k, _ => SubscriberStep)
  }

  // ---------------------------------------------------------------- one turn of the subscriber's loop

  /** How a turn ends: with everything, too late, or with another turn. */
  function Leave(complete: bool, late: bool): Subscriber {
    if complete then ExitComplete else if late then ExitTimeout else Polling
  }

  predicate InTurn(s: State) {
    Shape(s) && match s.subscriber
                case LoadDone(next, _) => next <= |s.done|
                case LoadSent(next, _, _) => next <= |s.done|
                case _ => true
  }

  /** How a turn that nobody disturbs will end. */
  function Outcome(s: State): Subscriber
    requires InTurn(s)
  {
    var n := |s.done|;
    match s.subscriber
    case LoadDone(next, now) =>
      if forall p :: next <= p < n ==> s.done[p] then Leave(s.count >= Sum(s.sent, n), now >= s.drainEnd)
      else Leave(false, now >= s.drainEnd)
    case LoadSent(next, sum, now) =>
      Leave(s.count >= sum + Sum(s.sent, n) - Sum(s.sent, next), now >= s.drainEnd)
    case Compare(sum, now) => Leave(s.count >= sum, now >= s.drainEnd)
    case TestDrainEnd(now) => Leave(false, now >= s.drainEnd)
    case _ => s.subscriber
  }

  function TurnLeft(s: State): nat
    requires InTurn(s)
  {
    match s.subscriber
    case LoadDone(next, _) => 2 * |s.done| - next + 4
    case LoadSent(next, _, _) => |s.done| - next + 3
    case Compare(_, _) => 2
    case TestDrainEnd(_) => 1
    case _ => 0
  }

  lemma TurnStep(s: State)
    requires InTurn(s)
    ensures var t := Next(s, SubscriberStep);
            && InTurn(t) && Outcome(t) == Outcome(s) && t == s.(subscriber := t.subscriber)
            && (TurnLeft(s) > 0 ==> TurnLeft(t) < TurnLeft(s)) && (TurnLeft(s) == 0 ==> t == s)
  {
  }

  lemma {:induction false} TurnEnds(s: State, k: nat)
    requires InTurn(s) && k >= TurnLeft(s)
    ensures Run(s, Steps(k)) == s.(subscriber := Outcome(s))
    decreases k
  {
    hide Run, Next, Outcome, TurnLeft;
    if k == 0 {
      assert Steps(0) == [];
      RunNone(s);
      TurnOver(s);
    } else {
      TurnStep(s);
      assert Steps(k)[1..] == Steps(k - 1) && Steps(k)[0] == SubscriberStep;
      RunStep(s, Steps(k));
      TurnEnds(Next(s, SubscriberStep), k - 1);
    }
  }

  lemma TurnOver(s: State)
    requires InTurn(s) && TurnLeft(s) == 0
    ensures Outcome(s) == s.subscriber
  {
  }

  /** A turn that nobody disturbs: it takes up to 64 frames, and then the subscriber leaves with
      everything if the end is reached, all publishers are done and the count is at least the sum of
      what they sent, leaves too late if the end of the drain is reached, and else polls again. */
  lemma TurnIs(s: State, frames: seq<Frame>, now: int)
    requires Shape(s) && s.subscriber.Polling? && CommittedAtMostOnce(s, frames)
    ensures |frames| > 64 ==> Next(s, Poll(frames, now)) == s
    ensures |frames| <= 64 ==>
              var n, count := |s.done|, s.count + |frames|;
              Run(Next(s, Poll(frames, now)), Steps(2 * n + 4)) ==
                s.(received := s.received + Elements(frames), count := count,
                   subscriber :=
                     if now >= s.end && (forall p :: 0 <= p < n ==> s.done[p]) && count >= Sum(s.sent, n)
                     then ExitComplete else if now >= s.drainEnd then ExitTimeout else Polling)
  {
    hide Sum, Run, Elements;
    if |frames| <= 64 {
      TurnEnds(Next(s, Poll(frames, now)), 2 * |s.done| + 4);
    }
  }

  /** A publisher that is still publishing commits its next frame and no other. */
  lemma CommitsNextFrame(s: State, p: nat)
    requires Shape(s) && p < |s.publishers| && s.publishers[p].Publishing?
    ensures var t, n := Next(s, Publish(p)), |s.committed|;
            && |t.committed| == n && t == s.(committed := t.committed)
            && Frames(t.committed, n) == Frames(s.committed, n) + {Frame(p, s.committed[p])}
  {
  }

  /** Disturbed or not, over every run: nobody leaves with everything before the end, or too late before
      the end of the drain, and a publisher that has not stored its final sum shows a multiple of 256
      that it has reached. */
  lemma NobodyLeavesEarly(publishers: nat, end: int, drainEnd: int, events: seq<Event>)
    ensures var t := Run(Initial(publishers, end, drainEnd), events);
            && (t.subscriber.ExitComplete? ==> exists i :: 0 <= i < |events| && events[i].Poll? && events[i].now >= end)
            && (t.subscriber.ExitTimeout? ==>
                  exists i :: 0 <= i < |events| && events[i].Poll? && events[i].now >= drainEnd)
            && forall p :: 0 <= p < |t.publishers| ==>
                 t.sent[p] <= t.committed[p] && (t.publishers[p].Publishing? ==> t.sent[p] % 256 == 0)
  {
    var s := Initial(publishers, end, drainEnd);
    InitialInv(publishers, end, drainEnd);
    RunKeepsInv(s, events);
    var t := Run(s, events);
    forall p | 0 <= p < |t.publishers|
      ensures t.sent[p] <= t.committed[p] && (t.publishers[p].Publishing? ==> t.sent[p] % 256 == 0)
    {
      assert PublisherOk(t, p);
    }
    hide Inv;
    if forall i :: 0 <= i < |events| && events[i].Poll? ==> events[i].now < end {
      EarlyTurns(s, events, end, true);
    }
    if forall i :: 0 <= i < |events| && events[i].Poll? ==> events[i].now < drainEnd {
      EarlyTurns(s, events, drainEnd, false);
    }
  }

  /** With all clock readings before the limit the subscriber is where such a reading can bring it. */
  predicate Early(s: Subscriber, limit: int, complete: bool) {
    match s
    case LoadDone(_, now) => !complete && now < limit
    case LoadSent(_, _, now) => !complete && now < limit
    case Compare(_, now) => !complete && now < limit
    case TestDrainEnd(now) => complete || now < limit
    case ExitComplete => !complete
    case ExitTimeout => complete
    case _ => true
  }

  lemma {:induction false} EarlyTurns(s: State, events: seq<Event>, limit: int, complete: bool)
    requires Shape(s) && Early(s.subscriber, limit, complete)
    requires limit == if complete then s.end else s.drainEnd
    requires forall i :: 0 <= i < |events| && events[i].Poll? ==> events[i].now < limit
    ensures Early(Run(s, events).subscriber, limit, complete)
    decreases |events|
  {
    if events != [] {
      var t := Next(s, events[0]);
      EarlyStep(s, events[0], limit, complete);
      EarlyTurns(t, events[1..], limit, complete);
    }
  }

  lemma EarlyStep(s: State, e: Event, limit: int, complete: bool)
    requires Shape(s) && Early(s.subscriber, limit, complete)
    requires limit == (if complete then s.end else s.drainEnd) && (e.Poll? ==> e.now < limit)
    ensures var t := Next(s, e);
            Shape(t) && Early(t.subscriber, limit, complete) && t.end == s.end && t.drainEnd == s.drainEnd
  {
    hide CommittedAtMostOnce;
  }

  /** The run can be stopped between turns and at no other place. */
  lemma StoppedBetweenTurns(s: State)
    requires Shape(s) && !s.subscriber.ExitStopped?
    ensures Next(s, Stop) == if s.subscriber.Polling? then s.(subscriber := ExitStopped) else s
  {
  }

  /** A publisher shows its progress when that is a multiple of 256, and at its end stores its final sum
      and then that it is done, whatever the others do in between. */
  lemma PublisherShows(s: State, p: nat, between: seq<Event>)
    requires Shape(s) && p < |s.publishers| && s.publishers[p].Publishing?
    requires forall i :: 0 <= i < |between| ==> Leaves(between[i], p)
    ensures Next(s, StoreSent(p)).sent ==
              if exists k: nat :: s.committed[p] == 256 * k then s.sent[p := s.committed[p]] else s.sent
    ensures var t := Next(Run(Next(s, StoreFinalSent(p)), between), StoreDone(p));
            && p < |t.publishers| == |t.done| == |t.sent| == |t.committed|
            && t.committed[p] == s.committed[p] == t.sent[p] && t.done[p] && t.publishers[p].Finished?
  {
    assert s.committed[p] % 256 == 0 <==> exists k: nat :: s.committed[p] == 256 * k by {
      assert s.committed[p] % 256 == 0 ==> s.committed[p] == 256 * (s.committed[p] / 256);
    }
    LeavesStoring(Next(s, StoreFinalSent(p)), p, between);
  }

  /** Not one of publisher p's own stores of done. */
  predicate Leaves(e: Event, p: nat) {
    !(e.StoreDone? && e.p == p)
  }

  lemma {:induction false} LeavesStoring(s: State, p: nat, events: seq<Event>)
    requires Shape(s) && p < |s.publishers| && s.publishers[p].StoringDone?
    requires forall i :: 0 <= i < |events| ==> Leaves(events[i], p)
    ensures var t := Run(s, events);
            && |t.publishers| == |s.publishers| && t.publishers[p].StoringDone?
            && t.committed[p] == s.committed[p] && t.sent[p] == s.sent[p]
    decreases |events|
  {
    if events != [] {
      LeavesStoring(Next(s, events[0]), p, events[1..]);
    }
  }
}
