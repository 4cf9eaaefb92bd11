/** The two-process clock test of tools/hft_acceptance/acceptance.cpp: a parent and a child pass a
    plain shared stamp back and forth under an atomic token, over every interleaving. */
module ClockHandshake {

  /** What the parent does next in its round. */
  datatype Parent =
    | ReadClock
    | WriteStamp(t: int)
    | Hand
    | Await
    | AskDeadline
    | TestDeadline
    | TestStamp
    | TakeBack
    | Finished
    | Failed

  /** What the child does next in its round. */
  datatype Child =
    | AwaitTurn
    | ReadTime
    | CompareStamp(t: int)
    | UpdateStamp(t: int)
    | HandBack
    | Exited
    | ExitedOne

  datatype State = State(
    rounds: nat, deadline: int,
    token: int, stamp: int, clock: int,
    parent: Parent, parentRound: nat,
    child: Child, childRound: nat)

  /** One step of one process; now is what the clock shows it, if it looks. */
  datatype Event = ParentStep(now: int) | ChildStep(now: int)

  function Next(s: State, e: Event): State {
    var u := s.(clock := e.now);
    match e
    case ParentStep(now) => ParentNext(u, now)
    case ChildStep(now) => ChildNext(u, now)
  }

  function ParentNext(s: State, now: int): State {
    match s.parent
    case ReadClock => s.(parent := WriteStamp(now))
    case WriteStamp(t) => s.(stamp := t, parent := Hand)
    case Hand => s.(token := 1, parent := Await)
    case Await => s.(parent := if s.token != 2 then AskDeadline else TestDeadline)
    case AskDeadline => s.(parent := if now < s.deadline then Await else TestDeadline)
    case TestDeadline => s.(parent := if now >= s.deadline then Failed else TestStamp)
    case TestStamp => s.(parent := if now < s.stamp then Failed else TakeBack)
    case TakeBack =>
      s.(token := 0, parentRound := s.parentRound + 1,
         parent := if s.parentRound + 1 < s.rounds then ReadClock else Finished)
    case Finished => s
    case Failed => s
  }

  function ChildNext(s: State, now: int): State {
    match s.child
    case AwaitTurn => if s.token == 1 then s.(child := ReadTime) else s
    case ReadTime => s.(child := CompareStamp(now))
    case CompareStamp(t) => s.(child := if t < s.stamp then ExitedOne else UpdateStamp(t))
    case UpdateStamp(t) => s.(stamp := t, child := HandBack)
    case HandBack =>
      s.(token := 2, childRound := s.childRound + 1,
         child := if s.childRound + 1 < s.rounds then AwaitTurn else Exited)
    case Exited => s
    case ExitedOne => s
  }

  function Initial(rounds: nat, start: int, limit: nat): State {
    State(rounds, start + limit, 0, 0, start,
          if rounds > 0 then ReadClock else Finished, 0,
          if rounds > 0 then AwaitTurn else Exited, 0)
  }

  function Run(s: State, events: seq<Event>): State
    decreases |events|
  {
    if events == [] then s else Run(Next(s, events[0]), events[1..])
  }

  /** No reading is earlier than one taken before it, by either process. */
  predicate Monotone(clock: int, events: seq<Event>)
    decreases |events|
  {
    events == [] || (clock <= events[0].now && Monotone(events[0].now, events[1..]))
  }

  /** The process's next step reads or writes the stamp, which is not atomic. */
  predicate ParentTouches(s: State) {
    s.parent.WriteStamp? || s.parent.TestStamp?
  }

  predicate ChildTouches(s: State) {
    s.child.CompareStamp? || s.child.UpdateStamp?
  }

  /** The child has been handed the stamp and has not handed it back. */
  predicate ChildHolds(s: State) {
    s.child.ReadTime? || s.child.CompareStamp? || s.child.UpdateStamp? || s.child.HandBack?
  }

  /** The child waits for a turn, or has had its last. */
  predicate ChildIdle(s: State) {
    s.child == (if s.childRound < s.rounds then AwaitTurn else Exited)
  }

  predicate Times(s: State) {
    && s.stamp <= s.clock
    && (s.parent.WriteStamp? ==> s.stamp <= s.parent.t <= s.clock)
    && ((s.child.CompareStamp? || s.child.UpdateStamp?) ==> s.stamp <= s.child.t <= s.clock)
  }

  /** Whose turn it is, by where the parent is. Until the deadline passes, the parent leaves its
      wait only for a stamp handed back. */
  predicate Turns(s: State) {
    && s.childRound <= s.rounds && !s.child.ExitedOne?
    && (ChildHolds(s) ==> s.token == 1 && s.childRound < s.rounds)
    && (!ChildHolds(s) ==> ChildIdle(s))
    && match s.parent
       case ReadClock => Mine(s)
       case WriteStamp(_) => Mine(s)
       case Hand => Mine(s)
       case Await => Handed(s) || HandedBack(s)
       case AskDeadline => Handed(s) || HandedBack(s)
       case TestDeadline => HandedBack(s) || (s.deadline <= s.clock && Handed(s))
       case TestStamp => HandedBack(s)
       case TakeBack => HandedBack(s)
       case Finished => s.parentRound == s.childRound == s.rounds && s.token == 0
       case Failed => s.deadline <= s.clock
  }

  predicate Mine(s: State) {
    s.token == 0 && s.childRound == s.parentRound < s.rounds && !ChildHolds(s)
  }

  predicate Handed(s: State) {
    s.token == 1 && s.childRound == s.parentRound < s.rounds
  }

  predicate HandedBack(s: State) {
    s.token == 2 && s.childRound == s.parentRound + 1 <= s.rounds && !ChildHolds(s)
  }

  predicate Inv(s: State) {
    Times(s) && Turns(s)
  }

  /** Each step keeps the invariant, and no step sets the stamp back. */
  lemma StepKeepsInv(s: State, e: Event)
    requires Inv(s) && s.clock <= e.now
    ensures Inv(Next(s, e))
    ensures s.stamp <= Next(s, e).stamp
  {
    match e
    case ParentStep(now) => ParentKeepsInv(s.(clock := now), now);
    case ChildStep(now) => ChildKeepsInv(s.(clock := now), now);
  }

  lemma ParentKeepsInv(s: State, now: int)
    requires Inv(s) && s.clock == now
    ensures Inv(ParentNext(s, now)) && s.stamp <= ParentNext(s, now).stamp
  {
  }

  lemma ChildKeepsInv(s: State, now: int)
    requires Inv(s) && s.clock == now
    ensures Inv(ChildNext(s, now)) && s.stamp <= ChildNext(s, now).stamp
  {
  }

  lemma {:induction false} RunKeepsInv(s: State, events: seq<Event>)
    requires Inv(s) && Monotone(s.clock, events)
    ensures Inv(Run(s, events)) && s.stamp <= Run(s, events).stamp
    ensures Run(s, events).rounds == s.rounds && Run(s, events).deadline == s.deadline
    decreases |events|
  {
    if events != [] {
      StepKeepsInv(s, events[0]);
      RunKeepsInv(Next(s, events[0]), events[1..]);
    }
  }

  /** Under one monotone clock, whatever the interleaving: the two never race for the stamp; the
      child never fails; the parent fails only by the deadline; and if the parent finishes, both
      have completed every round. */
  lemma MonotoneClockPasses(rounds: nat, start: nat, limit: nat, events: seq<Event>)
    requires Monotone(start, events)
    ensures var s := Run(Initial(rounds, start, limit), events);
            && !(ParentTouches(s) && ChildTouches(s))
            && !s.child.ExitedOne?
            && (s.parent.Failed? ==> start + limit <= s.clock)
            && (s.parent.Finished? ==> s.parentRound == s.childRound == rounds && s.child.Exited?)
  {
    RunKeepsInv(Initial(rounds, start, limit), events);
  }

  /** With a clock that goes back, the guarantee itself is lost and not only the verdict: the parent
      gives up waiting at the deadline, reads a time before it, and goes on to the stamp while the
      child is still using it. */
  lemma BackwardClockRaces()
    ensures var s := Run(Initial(1, 0, 5),
                         [ParentStep(0), ParentStep(0), ParentStep(0), ChildStep(0), ChildStep(1),
                          ParentStep(1), ParentStep(5), ParentStep(2)]);
            ParentTouches(s) && ChildTouches(s)
  {
    var s0 := Initial(1, 0, 5);
    var p := ParentStep(0);
    var s4 := s0.(stamp := 0, token := 1, parent := Await, child := ReadTime);
    var first, last := [p, p, p, ChildStep(0)], [ChildStep(1), ParentStep(1), ParentStep(5), ParentStep(2)];
    assert first + last == [p, p, p, ChildStep(0), ChildStep(1), ParentStep(1), ParentStep(5), ParentStep(2)];
    RunFour(s0, first);
    assert Run(s0, first) == s4;
    RaceRuns(s4);
    hide Run, Next;
    RunAppend(s0, first, last);
  }

  lemma RaceRuns(s: State)
    requires s.parent.Await? && s.token == 1 && s.child.ReadTime? && s.stamp == 0 && s.deadline == 5
    ensures var t := Run(s, [ChildStep(1), ParentStep(1), ParentStep(5), ParentStep(2)]);
            ParentTouches(t) && ChildTouches(t)
  {
    RunFour(s, [ChildStep(1), ParentStep(1), ParentStep(5), ParentStep(2)]);
  }

  /** One round in which each process steps as soon as it can, at one time. */
  function Round(now: int): seq<Event> {
    var p, c := ParentStep(now), ChildStep(now);
    [p, p, p, c] + ([c, c, c, c] + [p, p, p, p])
  }

  function Rounds(now: int, n: nat): seq<Event> {
    if n == 0 then [] else Round(now) + Rounds(now, n - 1)
  }

  lemma RoundCompletes(s: State, now: int)
    requires Inv(s) && s.parent.ReadClock? && s.clock <= now < s.deadline
    ensures var t := Run(s, Round(now));
            && Inv(t) && t.clock == now && t.deadline == s.deadline && t.rounds == s.rounds
            && t.parentRound == s.parentRound + 1
            && t.parent == if t.parentRound < t.rounds then ReadClock else Finished
  {
    var p, c := ParentStep(now), ChildStep(now);
    HandsOver(s, now);
    ChildTakesTurn(HandedOver(s, now), now);
    ParentTakesBack(TurnTaken(s, now), now);
    RoundKeepsInv(s, now);
    hide Next, Run, Inv;
    RunAppend(s, [p, p, p, c], [c, c, c, c] + [p, p, p, p]);
    RunAppend(HandedOver(s, now), [c, c, c, c], [p, p, p, p]);
  }

  function HandedOver(s: State, now: int): State {
    s.(clock := now, stamp := now, token := 1, parent := Await, child := ReadTime)
  }

  function TurnTaken(s: State, now: int): State {
    HandedOver(s, now).(token := 2, childRound := s.childRound + 1,
                        child := if s.childRound + 1 < s.rounds then AwaitTurn else Exited)
  }

  lemma HandsOver(s: State, now: int)
    requires s.parent.ReadClock? && s.child.AwaitTurn?
    ensures Run(s, [ParentStep(now), ParentStep(now), ParentStep(now), ChildStep(now)]) == HandedOver(s, now)
  {
    RunFour(s, [ParentStep(now), ParentStep(now), ParentStep(now), ChildStep(now)]);
  }

  lemma ChildTakesTurn(s: State, now: int)
    requires s.child.ReadTime? && s.stamp <= now == s.clock
    ensures var c := ChildStep(now);
            Run(s, [c, c, c, c]) ==
              s.(stamp := now, token := 2, childRound := s.childRound + 1,
                 child := if s.childRound + 1 < s.rounds then AwaitTurn else Exited)
  {
    var c := ChildStep(now);
    RunFour(s, [c, c, c, c]);
  }

  lemma ParentTakesBack(s: State, now: int)
    requires s.parent.Await? && s.token == 2 && s.stamp <= now == s.clock && now < s.deadline
    ensures var p := ParentStep(now);
            Run(s, [p, p, p, p]) ==
              s.(token := 0, parentRound := s.parentRound + 1,
                 parent := if s.parentRound + 1 < s.rounds then ReadClock else Finished)
  {
    var p := ParentStep(now);
    RunFour(s, [p, p, p, p]);
  }

  lemma RoundKeepsInv(s: State, now: int)
    requires Inv(s) && s.parent.ReadClock? && s.clock <= now
    ensures s.child.AwaitTurn?
    ensures Inv(TurnTaken(s, now).(token := 0, parentRound := s.parentRound + 1,
                                   parent := if s.parentRound + 1 < s.rounds then ReadClock else Finished))
  {
  }

  /** Before the deadline the handshake is never stuck between rounds: it can go on to its end. */
  lemma {:induction false} HandshakeFinishes(s: State, now: int)
    requires Inv(s) && s.parent.ReadClock? && s.clock <= now < s.deadline
    ensures Run(s, Rounds(now, s.rounds - s.parentRound)).parent.Finished?
    decreases s.rounds - s.parentRound
  {
    hide Round, Next, Run;
    RoundCompletes(s, now);
    var t := Run(s, Round(now));
    RunAppend(s, Round(now), Rounds(now, s.rounds - s.parentRound - 1));
    if t.parent.ReadClock? {
      HandshakeFinishes(t, now);
    } else {
      RunNone(t);
    }
  }

  lemma RunNone(s: State)
    ensures Run(s, []) == s
  {
  }

  lemma RunFour(s: State, events: seq<Event>)
    requires |events| == 4
    ensures Run(s, events) == Next(Next(Next(Next(s, events[0]), events[1]), events[2]), events[3])
  {
    hide Next;
    var t := Next(Next(s, events[0]), events[1]);
    var u := Next(t, events[2]);
    assert events[1..][1..] == events[2..] && events[2..][1..] == events[3..] && events[3..][1..] == [];
    assert Run(s, events) == Run(Next(s, events[0]), events[1..]) == Run(t, events[2..]) == Run(u, events[3..]);
    assert Run(u, events[3..]) == Run(Next(u, events[3]), events[3..][1..]);
  }

  lemma {:induction false} RunAppend(s: State, first: seq<Event>, last: seq<Event>)
    ensures Run(s, first + last) == Run(Run(s, first), last)
    decreases |first|
  {
    if first == [] {
      assert first + last == last;
    } else {
      assert (first + last)[1..] == first[1..] + last;
      RunAppend(Next(s, first[0]), first[1..], last);
    }
  }

  // ---------------------------------------------------------------- what each process does with the clock

  /** The child's turn with the stamp, under any clock: one reading decides. If it is before the stamp
      the child leaves with one and the stamp stays; otherwise the reading becomes the stamp, and the
      child hands it back and waits for the next round or leaves. */
  lemma ChildTurnIs(s: State, now: seq<int>)
    requires s.child.AwaitTurn? && s.token == 1 && |now| == 5
    ensures var t := Run(s, [ChildStep(now[0]), ChildStep(now[1]), ChildStep(now[2]),
                             ChildStep(now[3]), ChildStep(now[4])]);
            && t.parent == s.parent && t.parentRound == s.parentRound
            && if now[1] < s.stamp
               then t.child.ExitedOne? && t.stamp == s.stamp && t.token == 1 && t.childRound == s.childRound
               else
                 && t.stamp == now[1] && t.token == 2 && t.childRound == s.childRound + 1
                 && t.child == if s.childRound + 1 < s.rounds then AwaitTurn else Exited
  {
    RunFive(s, [ChildStep(now[0]), ChildStep(now[1]), ChildStep(now[2]), ChildStep(now[3]), ChildStep(now[4])]);
  }

  lemma RunFive(s: State, events: seq<Event>)
    requires |events| == 5
    ensures Run(s, events) == Next(Next(Next(Next(Next(s, events[0]), events[1]), events[2]), events[3]), events[4])
  {
    hide Next;
    var s1 := Next(s, events[0]);
    RunFour(s1, events[1..]);
  }

  /** The parent's check of a stamp handed back, under any clock: it fails if its first reading is not
      before the deadline or its second is before the stamp, and otherwise takes the stamp back. */
  lemma ParentTurnIs(s: State, now: seq<int>)
    requires s.parent.Await? && s.token == 2 && |now| == 4
    ensures var t := Run(s, [ParentStep(now[0]), ParentStep(now[1]), ParentStep(now[2]), ParentStep(now[3])]);
            && t.child == s.child && t.childRound == s.childRound && t.stamp == s.stamp
            && if now[1] >= s.deadline || now[2] < s.stamp
               then t.parent.Failed? && t.token == 2 && t.parentRound == s.parentRound
               else
                 && t.token == 0 && t.parentRound == s.parentRound + 1
                 && t.parent == if s.parentRound + 1 < s.rounds then ReadClock else Finished
  {
    RunFour(s, [ParentStep(now[0]), ParentStep(now[1]), ParentStep(now[2]), ParentStep(now[3])]);
  }
}
