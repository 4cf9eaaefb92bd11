/** What the barrier of the ring benchmark (bench/fast_ring_compare.cpp) gives: its parent stores start
    even when it has given up waiting, after sending every child a signal. */
module RingBarrier {
  import opened StartBarrier

  /** No worker runs while another has not arrived. */
  predicate NobodyEarly(s: State) {
    (exists w :: 0 <= w < |s.workers| && s.workers[w].Running?) ==> AllArrived(s)
  }

  /** At some point of the run a failure is flagged and the parent still waits for the workers. */
  predicate FailedWaiting(s: State, events: seq<Event>)
    requires |s.arrived| == |s.workers|
    decreases |events|
  {
    || (Waiting(s) && s.failed)
    || (events != [] && FailedWaiting(Next(s, events[0]), events[1..]))
  }

  lemma StuckStep(s: State, e: Event)
    requires Inv(s) && Stuck(s)
    ensures Stuck(Next(s, e))
  {
    var v :| 0 <= v < |s.workers| && s.workers[v].ExitedBad? && !s.arrived[v];
    ExitedStays(s, e, v);
  }

  lemma ExitedStays(s: State, e: Event, v: nat)
    requires Inv(s) && v < |s.workers| && s.workers[v].ExitedBad? && !s.arrived[v]
    ensures Next(s, e).workers[v].ExitedBad? && !Next(s, e).arrived[v]
  {
    hide ParentNext, WorkerNext, WorkerOk;
    match e
    case WorkerStep(w, ok) => if w < |s.workers| { WorkerLeavesOthers(s, w, ok, v); }
    case Killed(w) =>
    case ParentStep(ok, now) => ParentLeavesExited(s, ok, now, v);
  }

  lemma WorkerLeavesOthers(s: State, w: nat, ok: bool, v: nat)
    requires Inv(s) && w < |s.workers| && v < |s.workers| && s.workers[v].ExitedBad?
    ensures var t := WorkerNext(s, w, ok);
            t.workers[v] == s.workers[v] && t.arrived[v] == s.arrived[v]
  {
    hide WorkerNext, WorkerOk, ParentOk, FailureOk;
    WorkerMove(s, w, ok);
  }

  lemma ParentLeavesExited(s: State, ok: bool, now: int, v: nat)
    requires Inv(s) && v < |s.workers| && s.workers[v].ExitedBad?
    ensures ParentNext(s, ok, now).workers[v] == s.workers[v]
  {
    ParentFrame(s, ok, now);
    hide ParentNext, WorkerOk, ParentOk, FailureOk;
  }

  lemma {:induction false} StuckForever(s: State, events: seq<Event>)
    requires Inv(s) && Stuck(s)
    ensures Stuck(Run(s, events))
    decreases |events|
  {
    hide Next, WorkerOk, FailureOk, Stuck;
    if events != [] {
      StuckStep(s, events[0]);
      StepKeepsInv(s, events[0]);
      StuckForever(Next(s, events[0]), events[1..]);
    }
  }

  lemma {:induction false} FailureSticks(s: State, events: seq<Event>)
    requires Inv(s) && FailedWaiting(s, events)
    ensures Stuck(Run(s, events))
    decreases |events|
  {
    hide Next, WorkerOk, ParentOk, Stuck;
    if Waiting(s) && s.failed {
      StuckForever(s, events);
    } else {
      StepKeepsInv(s, events[0]);
      FailureSticks(Next(s, events[0]), events[1..]);
    }
  }

  lemma {:induction false} NoFailureNoSignal(s: State, events: seq<Event>)
    requires Inv(s) && !FailedWaiting(s, events) && s.signalled == 0 && !s.parent.Stopping?
    ensures Run(s, events).signalled == 0
    decreases |events|
  {
    hide Next, WorkerOk, ParentOk, Stuck, Waiting;
    if events != [] {
      StepKeepsInv(s, events[0]);
      NoSignalStep(s, events[0]);
      NoFailureNoSignal(Next(s, events[0]), events[1..]);
    }
  }

  lemma NoSignalStep(s: State, e: Event)
    requires |s.arrived| == |s.workers| && s.signalled == 0 && !s.parent.Stopping? && !(Waiting(s) && s.failed)
    ensures Next(s, e).signalled == 0 && !Next(s, e).parent.Stopping?
  {
    hide WorkerNext;
  }

  /** Exactly when the barrier holds: once the run is started, every worker has arrived if and only if
      no worker had failed before the parent left its wait. */
  lemma RingsStartIff(workers: nat, events: seq<Event>)
    requires Run(Initial(Rings, workers), events).start
    ensures AllArrived(Run(Initial(Rings, workers), events)) <==> !FailedWaiting(Initial(Rings, workers), events)
  {
    hide Run, Next, WorkerOk;
    var s0 := Initial(Rings, workers);
    InitialInv(Rings, workers);
    RunKeepsInv(s0, events);
    if FailedWaiting(s0, events) {
      FailureSticks(s0, events);
    } else {
      NoFailureNoSignal(s0, events);
    }
  }

  /** A worker that runs before all have arrived has already been sent its signal, and so has every
      other: it runs until that lands. And none runs before start. */
  lemma EarlyIsSignalled(workers: nat, events: seq<Event>)
    ensures var s := Run(Initial(Rings, workers), events);
            && |s.workers| == workers
            && (!NobodyEarly(s) ==> s.start && s.failed && s.signalled == workers)
            && forall w :: 0 <= w < workers && s.workers[w].Running? ==> s.start
  {
    InitialInv(Rings, workers);
    RunKeepsInv(Initial(Rings, workers), events);
    var s := Run(Initial(Rings, workers), events);
    forall w | 0 <= w < workers && s.workers[w].Running? ensures s.start {
      assert WorkerOk(s, w);
    }
    hide Run;
  }

  // ---------------------------------------------------------------- a run in which one runs early

  function Parents(n: nat): seq<Event> {
    seq(n, _ => ParentStep(true, 0))
  }

  lemma {:induction false} RunAfter(s: State, first: seq<Event>, e: Event)
    requires |s.arrived| == |s.workers|
    ensures Run(s, first + [e]) == Next(Run(s, first), e)
  {
    hide Next;
    RunAppend(s, first, [e]);
    assert [e][1..] == [];
    var t := Run(s, first);
    assert Run(t, [e]) == Run(Next(t, e), []);
  }

  /** All workers forked so far are attaching. */
  function Forked(n: nat, k: nat): State
    requires k <= n
  {
    Initial(Rings, n).(workers := seq(n, w => if w < k then Attaching else Unborn), parent := Forking(k))
  }

  lemma {:induction false} ForkAll(n: nat, k: nat)
    requires k <= n
    ensures Run(Initial(Rings, n), Parents(k)) == Forked(n, k)
  {
    if k == 0 {
      assert Parents(0) == [];
      assert Forked(n, 0).workers == Initial(Rings, n).workers;
    } else {
      ForkAll(n, k - 1);
      assert Parents(k) == Parents(k - 1) + [ParentStep(true, 0)];
      RunAfter(Initial(Rings, n), Parents(k - 1), ParentStep(true, 0));
      assert Forked(n, k).workers == Forked(n, k - 1).workers[k - 1 := Attaching];
    }
  }

  /** The first worker waits at the barrier, the second has failed to attach, the parent stops k. */
  function Halted(n: nat, k: nat): State
    requires n >= 2
  {
    var workers := seq(n, w => if w == 0 then LoadStart else if w == 1 then ExitedBad else Attaching);
    Initial(Rings, n).(workers := workers, arrived := Initial(Rings, n).arrived[0 := true], ready := 1,
                       failed := true, signalled := k, parent := Stopping(k))
  }

  function FailEvents(): seq<Event> {
    [ParentStep(true, 0), WorkerStep(0, true), WorkerStep(0, true), WorkerStep(1, false)]
  }

  function StopEvents(): seq<Event> {
    [WorkerStep(1, true), ParentStep(true, 0), ParentStep(true, 0), ParentStep(true, 0)]
  }

  function StartEvents(): seq<Event> {
    [ParentStep(true, 0), ParentStep(true, 0), ParentStep(true, 0), WorkerStep(0, true)]
  }

  /** As Halted, before the second worker has set failed. */
  function Failing(n: nat): State
    requires n >= 2
  {
    var workers := seq(n, w => if w == 0 then LoadStart else if w == 1 then Marking else Attaching);
    Initial(Rings, n).(workers := workers, arrived := Initial(Rings, n).arrived[0 := true], ready := 1,
                       parent := LoadReady)
  }

  lemma Fails(n: nat)
    requires n >= 2
    ensures Run(Forked(n, n), FailEvents()) == Failing(n)
  {
    RunFour(Forked(n, n), FailEvents());
    assert Failing(n).workers == Forked(n, n).workers[0 := Counting][0 := LoadStart][1 := Marking];
  }

  lemma Stops(n: nat)
    requires n >= 2
    ensures Run(Failing(n), StopEvents()) == Halted(n, 1)
  {
    RunFour(Failing(n), StopEvents());
    assert Halted(n, 1).workers == Failing(n).workers[1 := ExitedBad];
  }

  lemma {:induction false} Signals(n: nat, k: nat)
    requires n >= 2 && 1 <= k <= n
    ensures Run(Halted(n, 1), Parents(k - 1)) == Halted(n, k)
  {
    if k == 1 {
      assert Parents(0) == [];
    } else {
      Signals(n, k - 1);
      assert Parents(k - 1) == Parents(k - 2) + [ParentStep(true, 0)];
      RunAfter(Halted(n, 1), Parents(k - 2), ParentStep(true, 0));
    }
  }

  lemma Starts(n: nat)
    requires n >= 2
    ensures Run(Halted(n, n), StartEvents()) ==
              Halted(n, n).(start := true, parent := Reaping(0), workers := Halted(n, n).workers[0 := Running])
  {
    RunFour(Halted(n, n), StartEvents());
  }

  function EarlyRun(n: nat): seq<Event>
    requires n >= 2
  {
    Parents(n) + (FailEvents() + (StopEvents() + (Parents(n - 1) + StartEvents())))
  }

  /** For any two workers or more: the second fails to attach and the first runs, with no start time
      taken, signalled but not yet stopped. */
  lemma RingsCanRunEarly(n: nat)
    requires n >= 2
    ensures var s := Run(Initial(Rings, n), EarlyRun(n));
            && |s.workers| == |s.arrived| == n && s.workers[0].Running? && !s.arrived[1] && s.startTime.None?
  {
    hide Next, Run;
    ForkAll(n, n);
    Fails(n);
    Stops(n);
    Signals(n, n);
    Starts(n);
    RunAppend(Initial(Rings, n), Parents(n), FailEvents() + (StopEvents() + (Parents(n - 1) + StartEvents())));
    RunAppend(Forked(n, n), FailEvents(), StopEvents() + (Parents(n - 1) + StartEvents()));
    RunAppend(Failing(n), StopEvents(), Parents(n - 1) + StartEvents());
    RunAppend(Halted(n, 1), Parents(n - 1), StartEvents());
  }

  /** So the guarantee that no worker runs before all have arrived holds over every run of the ring
      benchmark only for a single worker, which it never has. */
  lemma RingsNobodyEarlyIff(n: nat)
    ensures (forall events :: NobodyEarly(Run(Initial(Rings, n), events))) <==> n <= 1
  {
    if n <= 1 {
      forall events ensures NobodyEarly(Run(Initial(Rings, n), events)) {
        LoneWorker(n, events);
      }
    } else {
      RingsCanRunEarly(n);
      var s := Run(Initial(Rings, n), EarlyRun(n));
      assert !NobodyEarly(s);
    }
  }

  lemma LoneWorker(n: nat, events: seq<Event>)
    requires n <= 1
    ensures NobodyEarly(Run(Initial(Rings, n), events))
  {
    InitialInv(Rings, n);
    RunKeepsInv(Initial(Rings, n), events);
    var s := Run(Initial(Rings, n), events);
    forall w | 0 <= w < |s.workers| && s.workers[w].Running? ensures AllArrived(s) {
      assert WorkerOk(s, w);
    }
  }
}
