/** The ready/start/failed barrier of the two cross-process benchmarks, over every interleaving of
    the parent with N workers and every point at which one may fail or be killed. The IPC benchmark
    is tools/aeron_compare/salias_ipc_compare.cpp, the ring benchmark bench/fast_ring_compare.cpp. */
module StartBarrier {
  import opened Wrappers

  datatype Variant = Ipc | Rings

  /** What a worker does next. Counting increments ready; LoadStart and LoadFailed are the two loads
      of the spin; Marking sets failed before the exit. */
  datatype Worker =
    | Unborn
    | Attaching
    | Counting
    | LoadStart
    | LoadFailed
    | CheckFailed
    | Running
    | Marking
    | ExitedOk
    | ExitedBad

  /** What the parent does next. Stopping sends SIGTERM to the k-th worker; when the signal lands, if
      ever, is a Killed event. */
  datatype Parent =
    | Forking(n: nat)
    | LoadReady
    | PollFailed
    | Stopping(k: nat)
    | BeforeStart
    | TakeTime
    | StoreStart
    | Reaping(k: nat)
    | Verdict
    | Succeeded
    | Gave

  datatype State = State(
    variant: Variant,
    workers: seq<Worker>, arrived: seq<bool>,
    ready: nat, failed: bool, start: bool, startTime: Option<int>, childrenOk: bool,
    signalled: nat,
    parent: Parent)

  /** A worker's own outcome (attaching, or its whole run) is the environment's choice, and so is
      when a worker is killed, whether fork works and what the clock says. */
  datatype Event =
    | WorkerStep(w: nat, ok: bool)
    | Killed(w: nat)
    | ParentStep(ok: bool, now: int)

  function Initial(variant: Variant, workers: nat): State {
    State(variant, seq(workers, _ => Unborn), seq(workers, _ => false), 0, false, false, None, true, 0, Forking(0))
  }

  function Next(s: State, e: Event): (t: State)
    requires |s.arrived| == |s.workers|
    ensures |t.arrived| == |t.workers| == |s.workers| && t.variant == s.variant
  {
    match e
    case WorkerStep(w, ok) => if w < |s.workers| then WorkerNext(s, w, ok) else s
    case Killed(w) =>
      if w < |s.workers| && Alive(s.workers[w]) then s.(workers := s.workers[w := ExitedBad]) else s
    case ParentStep(ok, now) => ParentNext(s, ok, now)
  }

  predicate Alive(w: Worker) {
    !w.Unborn? && !Exited(w)
  }

  predicate Exited(w: Worker) {
    w.ExitedOk? || w.ExitedBad?
  }

  function WorkerNext(s: State, w: nat, ok: bool): (t: State)
    requires |s.arrived| == |s.workers| && w < |s.workers|
    ensures |t.arrived| == |t.workers| == |s.workers| && t.variant == s.variant
    ensures t.parent == s.parent && t.signalled == s.signalled && t.start == s.start && t.startTime == s.startTime
  {
    match s.workers[w]
    case Attaching => Goes(s, w, if ok then Counting else Marking)
    case Counting => Goes(s, w, LoadStart).(ready := s.ready + 1, arrived := s.arrived[w := true])
    case LoadStart => Goes(s, w, if !s.start then LoadFailed else if s.variant.Ipc? then CheckFailed else Running)
    case LoadFailed => Goes(s, w, if !s.failed then LoadStart else if s.variant.Ipc? then CheckFailed else ExitedBad)
    case CheckFailed => Goes(s, w, if s.failed then ExitedBad else Running)
    case Running => Goes(s, w, if ok then ExitedOk else Marking)
    case Marking => Goes(s, w, ExitedBad).(failed := true)
    case _ => s
  }

  function Goes(s: State, w: nat, worker: Worker): State
    requires w < |s.workers|
  {
    s.(workers := s.workers[w := worker])
  }

  function ParentNext(s: State, ok: bool, now: int): (t: State)
    ensures |t.workers| == |s.workers| && t.arrived == s.arrived && t.variant == s.variant
  {
    match s.parent
    case Forking(n) =>
      if n >= |s.workers| then s.(parent := LoadReady)
      else if ok then s.(workers := s.workers[n := Attaching], parent := Forking(n + 1))
      else Give(s)
    case LoadReady =>
      if s.ready != |s.workers| then s.(parent := PollFailed)
      else s.(parent := if s.variant.Ipc? then TakeTime else BeforeStart)
    case PollFailed =>
      if !s.failed then s.(parent := LoadReady)
      else if s.variant.Ipc? then Give(s)
      else s.(parent := Stopping(0))
    case Stopping(k) =>
      if k < |s.workers| then s.(signalled := k + 1, parent := Stopping(k + 1)) else s.(parent := BeforeStart)
    case BeforeStart => s.(parent := if s.failed then StoreStart else TakeTime)
    case TakeTime =>
      if s.variant.Ipc? || ok then s.(startTime := Some(now), parent := StoreStart)
      else s.(failed := true, parent := StoreStart)
    case StoreStart => s.(start := true, parent := Reaping(0))
    case Reaping(k) =>
      if k >= |s.workers| then s.(parent := Verdict)
      else if s.workers[k].ExitedBad? then
        s.(childrenOk := false, failed := s.failed || s.variant.Ipc?, parent := Reaping(k + 1))
      else if s.workers[k].ExitedOk? then s.(parent := Reaping(k + 1))
      else s
    case Verdict =>
      if s.failed || (s.variant.Rings? && !(s.childrenOk && s.startTime.Some?)) then Give(s)
      else s.(parent := Succeeded)
    case Succeeded => s
    case Gave => s
  }

  /** The parent gives up; the IPC one marks the run failed. */
  function Give(s: State): State {
    s.(failed := s.failed || s.variant.Ipc?, parent := Gave)
  }

  function Run(s: State, events: seq<Event>): (t: State)
    requires |s.arrived| == |s.workers|
    ensures |t.arrived| == |t.workers| == |s.workers| && t.variant == s.variant
    decreases |events|
  {
    if events == [] then s else Run(Next(s, events[0]), events[1..])
  }

  // ---------------------------------------------------------------- the invariant

  function Count(arrived: seq<bool>): (n: nat)
    ensures n <= |arrived|
  {
    if arrived == [] then 0 else (if arrived[0] then 1 else 0) + Count(arrived[1..])
  }

  lemma {:induction false} CountSet(arrived: seq<bool>, w: nat)
    requires w < |arrived| && !arrived[w]
    ensures Count(arrived[w := true]) == Count(arrived) + 1
  {
    if w > 0 {
      assert arrived[w := true][1..] == arrived[1..][w - 1 := true];
      CountSet(arrived[1..], w - 1);
    }
  }

  lemma {:induction false} CountFull(arrived: seq<bool>)
    ensures Count(arrived) == |arrived| <==> forall w :: 0 <= w < |arrived| ==> arrived[w]
  {
    if arrived != [] {
      CountFull(arrived[1..]);
      assert forall w :: 0 < w < |arrived| ==> arrived[w] == arrived[1..][w - 1];
    }
  }

  lemma {:induction false} CountNone(n: nat)
    ensures Count(seq(n, _ => false)) == 0
  {
    if n > 0 {
      assert seq(n, _ => false)[1..] == seq(n - 1, _ => false);
      CountNone(n - 1);
    }
  }

  /** Every worker has counted itself in. */
  predicate AllArrived(s: State) {
    forall w :: 0 <= w < |s.arrived| ==> s.arrived[w]
  }

  /** A worker has counted itself in exactly when it is past Counting, and runs only after start;
      in the IPC benchmark one that is about to check failed has seen start or failed. */
  predicate WorkerOk(s: State, w: nat)
    requires |s.arrived| == |s.workers| && w < |s.workers|
  {
    match s.workers[w]
    case Unborn => !s.arrived[w]
    case Attaching => !s.arrived[w]
    case Counting => !s.arrived[w]
    case LoadStart => s.arrived[w]
    case LoadFailed => s.arrived[w]
    case CheckFailed => s.arrived[w] && s.variant.Ipc? && (s.start || s.failed)
    case Running => s.arrived[w] && s.start
    case Marking => s.arrived[w] ==> s.start
    case ExitedOk => s.arrived[w] && s.start
    case ExitedBad => true
  }

  /** The parent has not yet left its wait for the workers. */
  predicate Waiting(s: State) {
    s.parent.Forking? || s.parent.LoadReady? || s.parent.PollFailed?
  }

  /** Some worker has exited and will never count itself in. */
  predicate Stuck(s: State)
    requires |s.arrived| == |s.workers|
  {
    exists w :: 0 <= w < |s.workers| && s.workers[w].ExitedBad? && !s.arrived[w]
  }

  /** A worker that fails before the parent has left its wait has not arrived, and signals are sent
      for nothing else. */
  predicate FailureOk(s: State)
    requires |s.arrived| == |s.workers|
  {
    FailureSeen(s) ==> Stuck(s)
  }

  predicate FailureSeen(s: State) {
    (Waiting(s) && s.failed) || s.parent.Stopping? || s.signalled > 0
  }

  /** The condition under which the parent goes on to start: all have arrived, or, in the ring
      benchmark, one has failed and all have been sent their signal. */
  predicate MayStart(s: State) {
    AllArrived(s) || (s.variant.Rings? && s.failed && s.signalled == |s.workers|)
  }

  /** Up to StoreStart nothing has been started, and from TakeTime on the IPC parent knows that all
      have arrived. */
  predicate ParentOk(s: State) {
    && (s.startTime.Some? ==> AllArrived(s))
    && (s.variant.Ipc? && s.start ==> s.startTime.Some?)
    && (s.start ==> MayStart(s))
    && match s.parent
       case Forking(n) =>
         !s.start && s.startTime.None? && s.signalled == 0
         && forall w :: n <= w < |s.workers| ==> s.workers[w].Unborn?
       case LoadReady => !s.start && s.startTime.None? && s.signalled == 0
       case PollFailed => !s.start && s.startTime.None? && s.signalled == 0
       case Stopping(k) =>
         !s.start && s.startTime.None? && s.variant.Rings? && s.failed && s.signalled == k <= |s.workers|
       case BeforeStart => !s.start && s.startTime.None? && s.variant.Rings? && MayStart(s)
       case TakeTime => !s.start && s.startTime.None? && AllArrived(s)
       case StoreStart => !s.start && (s.variant.Ipc? ==> s.startTime.Some?) && MayStart(s)
       case Reaping(k) => s.start && k <= |s.workers| && Reaped(s, k)
       case Verdict => s.start && Reaped(s, |s.workers|)
       case Succeeded => s.startTime.Some? && forall w :: 0 <= w < |s.workers| ==> s.workers[w].ExitedOk?
       case Gave => true
  }

  /** If nothing has gone wrong so far, the workers reaped so far have exited well. */
  predicate Reaped(s: State, k: nat)
    requires k <= |s.workers|
  {
    (if s.variant.Ipc? then !s.failed else s.childrenOk) ==> forall w :: 0 <= w < k ==> s.workers[w].ExitedOk?
  }

  predicate Inv(s: State) {
    && |s.arrived| == |s.workers| && s.ready == Count(s.arrived)
    && (forall w :: 0 <= w < |s.workers| ==> WorkerOk(s, w))
    && ParentOk(s) && FailureOk(s)
  }

  /** One worker that has not exited moves on, counting itself in or not, setting failed or not. */
  lemma OneWorkerMoves(s: State, t: State, w: nat, worker: Worker, count: bool, fail: bool)
    requires Inv(s) && w < |s.workers| && Alive(s.workers[w]) && (count ==> !s.arrived[w])
    requires fail ==> s.workers[w].Marking? && worker.ExitedBad? && !count
    requires t == s.(workers := s.workers[w := worker],
                     ready := if count then s.ready + 1 else s.ready,
                     arrived := if count then s.arrived[w := true] else s.arrived,
                     failed := s.failed || fail)
    requires WorkerOk(t, w)
    ensures Inv(t)
  {
    hide ParentOk, FailureOk;
    if count {
      CountSet(s.arrived, w);
    }
    forall v | 0 <= v < |t.workers| ensures WorkerOk(t, v) {
      assert WorkerOk(s, v);
    }
    assert WorkerOk(s, w);
    WorkerKeepsFailureOk(s, t, w);
    WorkerKeepsParentOk(s, t, w);
  }

  lemma WorkerKeepsParentOk(s: State, t: State, w: nat)
    requires |s.arrived| == |s.workers| && w < |s.workers| && Alive(s.workers[w]) && ParentOk(s)
    requires |t.arrived| == |t.workers| == |s.workers|
    requires t == s.(workers := s.workers[w := t.workers[w]], ready := t.ready,
                     arrived := s.arrived[w := t.arrived[w]], failed := t.failed)
    requires (s.arrived[w] ==> t.arrived[w]) && (s.failed ==> t.failed)
    ensures ParentOk(t)
  {
    hide Count;
  }

  lemma WorkerKeepsFailureOk(s: State, t: State, w: nat)
    requires |s.arrived| == |s.workers| && w < |s.workers| && Alive(s.workers[w]) && FailureOk(s) && ParentOk(s)
    requires |t.workers| == |s.workers| && t.parent == s.parent && t.signalled == s.signalled
    requires t.workers == s.workers[w := t.workers[w]] && |t.arrived| == |s.arrived|
    requires t.arrived == s.arrived[w := t.arrived[w]]
    requires t.failed && !s.failed ==> t.workers[w].ExitedBad? && (t.arrived[w] ==> s.start)
    ensures FailureOk(t)
  {
    if Stuck(s) {
      var v :| 0 <= v < |s.workers| && s.workers[v].ExitedBad? && !s.arrived[v];
      assert t.workers[v].ExitedBad? && !t.arrived[v];
    }
  }

  lemma WorkerKeepsInv(s: State, w: nat, ok: bool)
    requires Inv(s) && w < |s.workers|
    ensures Inv(WorkerNext(s, w, ok))
  {
    hide WorkerNext, ParentOk, Count, WorkerOk;
    WorkerMove(s, w, ok);
    if Alive(s.workers[w]) {
      var t := WorkerNext(s, w, ok);
      OneWorkerMoves(s, t, w, t.workers[w], s.workers[w].Counting?, s.workers[w].Marking?);
    }
  }

  /** What one step of a worker does to the whole state. */
  lemma WorkerMove(s: State, w: nat, ok: bool)
    requires |s.arrived| == |s.workers| && w < |s.workers| && WorkerOk(s, w)
    ensures var t := WorkerNext(s, w, ok);
            if !Alive(s.workers[w]) then t == s
            else
              var count, fail := s.workers[w].Counting?, s.workers[w].Marking?;
              && (count ==> !s.arrived[w]) && (fail ==> t.workers[w].ExitedBad?)
              && t == s.(workers := s.workers[w := t.workers[w]],
                         ready := if count then s.ready + 1 else s.ready,
                         arrived := if count then s.arrived[w := true] else s.arrived,
                         failed := s.failed || fail)
              && WorkerOk(t, w)
  {
  }

  lemma KillKeepsInv(s: State, w: nat)
    requires Inv(s)
    ensures Inv(Next(s, Killed(w)))
  {
    hide ParentOk, Count;
    if w < |s.workers| && Alive(s.workers[w]) {
      OneWorkerMoves(s, Next(s, Killed(w)), w, ExitedBad, false, false);
    }
  }

  /** What the parent does to the flags never unsettles a worker. */
  lemma WorkersStayOk(s: State, t: State)
    requires |s.arrived| == |s.workers| && forall w :: 0 <= w < |s.workers| ==> WorkerOk(s, w)
    requires t.variant == s.variant && t.arrived == s.arrived && (s.start ==> t.start) && (s.failed ==> t.failed)
    requires t.workers == s.workers ||
             exists n :: 0 <= n < |s.workers| && t.workers == s.workers[n := Attaching] && s.workers[n].Unborn?
    ensures forall w :: 0 <= w < |t.workers| ==> WorkerOk(t, w)
  {
    forall w | 0 <= w < |t.workers| ensures WorkerOk(t, w) {
      assert WorkerOk(s, w);
    }
  }

  lemma ParentFrame(s: State, ok: bool, now: int)
    requires Inv(s)
    ensures var t := ParentNext(s, ok, now);
            && t.variant == s.variant && t.arrived == s.arrived && t.ready == s.ready
            && (s.start ==> t.start) && (s.failed ==> t.failed)
            && |t.workers| == |s.workers|
            && (t.workers == s.workers
                || exists n :: 0 <= n < |s.workers| && t.workers == s.workers[n := Attaching] && s.workers[n].Unborn?)
  {
    hide Count, WorkerOk, FailureOk, MayStart, Reaped;
    if s.parent.Forking? && ok && s.parent.n < |s.workers| {
      assert ParentNext(s, ok, now).workers == s.workers[s.parent.n := Attaching];
    }
  }

  lemma WaitingKeeps(s: State, ok: bool, now: int)
    requires Inv(s) && Waiting(s)
    ensures ParentOk(ParentNext(s, ok, now))
  {
    hide Count, WorkerOk, FailureOk, Reaped;
    CountFull(s.arrived);
  }

  lemma BeforeStartKeeps(s: State, ok: bool, now: int)
    requires Inv(s) && !s.start && !Waiting(s)
    ensures ParentOk(ParentNext(s, ok, now))
  {
    hide Count, WorkerOk, FailureOk;
  }

  lemma AfterStartKeeps(s: State, ok: bool, now: int)
    requires Inv(s) && s.start
    ensures ParentOk(ParentNext(s, ok, now))
  {
    hide Count, WorkerOk, FailureOk;
  }

  /** A stuck worker stays stuck. */
  lemma StuckStays(s: State, t: State)
    requires |s.arrived| == |s.workers| == |t.workers| && t.arrived == s.arrived && Stuck(s)
    requires t.workers == s.workers ||
             exists n :: 0 <= n < |s.workers| && t.workers == s.workers[n := Attaching] && s.workers[n].Unborn?
    ensures Stuck(t)
  {
    var v :| 0 <= v < |s.workers| && s.workers[v].ExitedBad? && !s.arrived[v];
    assert t.workers[v].ExitedBad? && !t.arrived[v];
  }

  lemma FailureIsNotNew(s: State, ok: bool, now: int)
    requires FailureSeen(ParentNext(s, ok, now))
    ensures FailureSeen(s)
  {
  }

  lemma ParentKeepsFailureOk(s: State, ok: bool, now: int)
    requires Inv(s)
    ensures |ParentNext(s, ok, now).arrived| == |ParentNext(s, ok, now).workers| && FailureOk(ParentNext(s, ok, now))
  {
    ParentFrame(s, ok, now);
    var t := ParentNext(s, ok, now);
    hide ParentNext, Count, WorkerOk, ParentOk, FailureSeen, Stuck;
    if FailureSeen(t) {
      FailureIsNotNew(s, ok, now);
      StuckStays(s, t);
    }
  }

  lemma ParentKeepsInv(s: State, ok: bool, now: int)
    requires Inv(s)
    ensures Inv(ParentNext(s, ok, now))
  {
    ParentFrame(s, ok, now);
    WorkersStayOk(s, ParentNext(s, ok, now));
    ParentKeepsFailureOk(s, ok, now);
    if s.start {
      AfterStartKeeps(s, ok, now);
    } else if Waiting(s) {
      WaitingKeeps(s, ok, now);
    } else {
      BeforeStartKeeps(s, ok, now);
    }
    hide ParentNext, ParentOk, WorkerOk, Count, FailureOk;
  }

  lemma StepKeepsInv(s: State, e: Event)
    requires Inv(s)
    ensures Inv(Next(s, e))
  {
    hide Inv;
    match e
    case WorkerStep(w, ok) => if w < |s.workers| { WorkerKeepsInv(s, w, ok); }
    case Killed(w) => KillKeepsInv(s, w);
    case ParentStep(ok, now) => ParentKeepsInv(s, ok, now);
  }

  lemma {:induction false} RunKeepsInv(s: State, events: seq<Event>)
    requires Inv(s)
    ensures Inv(Run(s, events))
    decreases |events|
  {
    if events != [] {
      StepKeepsInv(s, events[0]);
      RunKeepsInv(Next(s, events[0]), events[1..]);
    }
  }

  lemma InitialInv(variant: Variant, workers: nat)
    ensures Inv(Initial(variant, workers))
  {
    CountNone(workers);
  }

  // ---------------------------------------------------------------- what the barrier gives

  /** Neither benchmark counts a worker in twice, and the IPC one starts only when every worker has
      attached and counted itself in, with the start time taken: none runs before that, however they
      are scheduled and whichever of them fails or is killed. */
  lemma NobodyRunsEarly(workers: nat, events: seq<Event>)
    ensures var s := Run(Initial(Ipc, workers), events);
            && |s.arrived| == |s.workers| == workers && s.ready == Count(s.arrived)
            && (s.start || (exists w :: 0 <= w < workers && s.workers[w].Running?) ==>
                  s.start && AllArrived(s) && s.ready == workers && s.startTime.Some?)
  {
    InitialInv(Ipc, workers);
    RunKeepsInv(Initial(Ipc, workers), events);
    var s := Run(Initial(Ipc, workers), events);
    CountFull(s.arrived);
    if w :| 0 <= w < workers && s.workers[w].Running? {
      assert WorkerOk(s, w);
    }
  }

  /** Once set, the start time a worker reads never changes; in the IPC benchmark it is set before
      any worker runs. */
  lemma {:induction false} StartTimeIsFixed(s: State, events: seq<Event>)
    requires Inv(s)
    requires s.startTime.Some? || (s.variant.Ipc? && exists w :: 0 <= w < |s.workers| && s.workers[w].Running?)
    ensures s.startTime.Some? && Run(s, events).startTime == s.startTime
    decreases |events|
  {
    hide Count;
    if w :| 0 <= w < |s.workers| && s.workers[w].Running? {
      assert WorkerOk(s, w);
    }
    if events != [] {
      StepKeepsInv(s, events[0]);
      StartTimeStays(s, events[0]);
      hide Next, Inv;
      StartTimeIsFixed(Next(s, events[0]), events[1..]);
    }
  }

  lemma StartTimeStays(s: State, e: Event)
    requires |s.arrived| == |s.workers| && ParentOk(s) && s.startTime.Some?
    ensures Next(s, e).startTime == s.startTime
  {
    hide WorkerNext;
  }

  /** In both, a run the parent calls a success is one in which every worker had arrived before the
      start time was taken, and exited well. */
  lemma SuccessMeansAllRan(variant: Variant, workers: nat, events: seq<Event>)
    requires Run(Initial(variant, workers), events).parent.Succeeded?
    ensures var s := Run(Initial(variant, workers), events);
            && |s.arrived| == |s.workers| == workers && s.startTime.Some?
            && forall w :: 0 <= w < workers ==> s.arrived[w] && s.workers[w].ExitedOk?
  {
    InitialInv(variant, workers);
    RunKeepsInv(Initial(variant, workers), events);
  }

  /** The barrier opens: once all workers have arrived and none has failed, the parent starts the
      run within four of its steps, with the start time it read. */
  lemma BarrierOpens(s: State, now: int)
    requires Inv(s) && s.parent.LoadReady? && AllArrived(s) && !s.failed
    ensures var p := ParentStep(true, now);
            var t := Run(s, [p, p, p, p]);
            t.start && t.startTime == Some(now)
  {
    CountFull(s.arrived);
    OpensFrom(s, now);
  }

  lemma OpensFrom(s: State, now: int)
    requires |s.arrived| == |s.workers| == s.ready && s.parent.LoadReady? && !s.failed
    ensures var p := ParentStep(true, now);
            var t := Run(s, [p, p, p, p]);
            t.start && t.startTime == Some(now)
  {
    var p := ParentStep(true, now);
    RunFour(s, [p, p, p, p]);
    if s.variant.Ipc? {
      assert ParentNext(ParentNext(s, true, now), true, now).parent.StoreStart?;
    } else {
      assert ParentNext(ParentNext(s, true, now), true, now).parent.TakeTime?;
    }
  }

  /** And a worker that waits at it then runs, after one more look or two. */
  lemma WaiterRuns(s: State, w: nat)
    requires Inv(s) && s.start && !s.failed && w < |s.workers| && s.workers[w].LoadStart?
    ensures var t := WorkerNext(s, w, true);
            (if s.variant.Ipc? then WorkerNext(t, w, true) else t).workers[w].Running?
  {
    hide Count, WorkerOk, ParentOk;
  }

  // ---------------------------------------------------------------- failures

  function Steps(s: State, w: nat, n: nat): (t: State)
    requires |s.arrived| == |s.workers| && w < |s.workers|
    ensures |t.arrived| == |t.workers| == |s.workers|
    decreases n
  {
    if n == 0 then s else Steps(WorkerNext(s, w, true), w, n - 1)
  }

  /** What a worker that waits does with the two flags: without start it goes on waiting, or leaves if
      someone has failed; with start it runs, in the IPC benchmark only if no one has failed. */
  lemma WaiterLooks(s: State, w: nat)
    requires |s.arrived| == |s.workers| && w < |s.workers| && s.workers[w].LoadStart?
    ensures !s.start && !s.failed ==> Steps(s, w, 2) == s
    ensures !s.start && s.failed ==> Steps(s, w, 3).workers[w].ExitedBad?
    ensures s.start && s.variant.Rings? ==> Steps(s, w, 1).workers[w].Running?
    ensures s.start && s.variant.Ipc? ==>
              Steps(s, w, 2).workers[w] == if s.failed then ExitedBad else Running
  {
    var one := WorkerNext(s, w, true);
    var two := WorkerNext(one, w, true);
    assert Steps(s, w, 1) == Steps(one, w, 0) == one;
    assert Steps(s, w, 2) == Steps(one, w, 1) == Steps(two, w, 0) == two;
    assert Steps(s, w, 3) == Steps(one, w, 2) == Steps(two, w, 1) == WorkerNext(two, w, true);
    if !s.start && !s.failed {
      assert two.workers == s.workers;
    }
  }

  /** A worker whose run goes well exits well and says nothing; one that fails, in attaching or in its
      run, marks the run failed and exits badly. */
  lemma WorkerEnds(s: State, w: nat)
    requires |s.arrived| == |s.workers| && w < |s.workers| && (s.workers[w].Attaching? || s.workers[w].Running?)
    ensures var t := WorkerNext(WorkerNext(s, w, false), w, true);
            t.failed && t.workers == s.workers[w := ExitedBad] && t.ready == s.ready
    ensures s.workers[w].Running? ==> WorkerNext(s, w, true) == s.(workers := s.workers[w := ExitedOk])
    ensures s.workers[w].Attaching? ==>
              var t := WorkerNext(WorkerNext(s, w, true), w, true);
              t.ready == s.ready + 1 && t.arrived == s.arrived[w := true] && t.workers == s.workers[w := LoadStart]
  {
  }

  function ParentSteps(s: State, ok: bool, now: int, n: nat): State
    decreases n
  {
    if n == 0 then s else ParentSteps(ParentNext(s, ok, now), ok, now, n - 1)
  }

  /** The parent's wait: as long as not all workers have arrived it looks again, or, if someone has
      failed, gives up the run in the IPC benchmark and begins to stop its workers in the other. */
  lemma ParentWaits(s: State, ok: bool, now: int)
    requires s.parent.LoadReady? && s.ready != |s.workers|
    ensures !s.failed ==> ParentSteps(s, ok, now, 2) == s
    ensures s.failed ==>
              ParentSteps(s, ok, now, 2) == s.(parent := if s.variant.Ipc? then Gave else Stopping(0))
  {
    var one := ParentNext(s, ok, now);
    assert ParentSteps(s, ok, now, 2) == ParentSteps(one, ok, now, 1) == ParentNext(one, ok, now);
  }

  /** A fork that fails ends the parent, and marks the run failed in the IPC benchmark; a clock that fails
      marks it failed in the other, which starts without a start time. */
  lemma ForkOrClockFails(s: State, now: int)
    ensures s.parent.Forking? && s.parent.n < |s.workers| ==>
              ParentNext(s, false, now) == s.(failed := s.failed || s.variant.Ipc?, parent := Gave)
    ensures s.parent.TakeTime? && s.variant.Rings? ==>
              ParentSteps(s, false, now, 2) == s.(failed := true, start := true, parent := Reaping(0))
  {
    var one := ParentNext(s, false, now);
    assert ParentSteps(s, false, now, 2) == ParentSteps(one, false, now, 1) == ParentNext(one, false, now);
  }

  // ---------------------------------------------------------------- the verdict

  /** The parent reaps its workers in order, without further failures of its own. */
  function Reap(n: nat): seq<Event> {
    if n == 0 then [] else [ParentStep(true, 0)] + Reap(n - 1)
  }

  lemma ReapUnfold(s: State, n: nat)
    requires |s.arrived| == |s.workers| && n > 0
    ensures Run(s, Reap(n)) == Run(ParentNext(s, true, 0), Reap(n - 1))
  {
    hide ParentNext;
    assert Reap(n)[1..] == Reap(n - 1);
  }

  /** The k-th worker or a later one exited badly. */
  predicate BadFrom(s: State, k: nat) {
    exists w :: k <= w < |s.workers| && s.workers[w].ExitedBad?
  }

  lemma {:induction false} ReapsAll(s: State, k: nat)
    requires |s.arrived| == |s.workers| && s.parent == Reaping(k) && k <= |s.workers|
    requires forall w :: k <= w < |s.workers| ==> Exited(s.workers[w])
    ensures var bad, t := BadFrom(s, k), Run(s, Reap(|s.workers| - k + 1));
            t == s.(childrenOk := s.childrenOk && !bad, failed := s.failed || (s.variant.Ipc? && bad),
                    parent := Verdict)
    decreases |s.workers| - k
  {
    hide Run;
    var n := |s.workers| - k + 1;
    ReapUnfold(s, n);
    var t := ParentNext(s, true, 0);
    if k < |s.workers| {
      ReapsAll(t, k + 1);
      assert BadFrom(s, k) <==> s.workers[k].ExitedBad? || BadFrom(t, k + 1);
    } else {
      RunNone(t);
      assert Reap(0) == [];
    }
  }

  lemma RunNone(s: State)
    requires |s.arrived| == |s.workers|
    ensures Run(s, []) == s
  {
  }

  /** Once all workers have exited, the parent calls the run a success exactly if none of them exited
      badly, no one had marked it failed, and, in the ring benchmark, the start time was taken. */
  lemma SucceedsIff(s: State)
    requires |s.arrived| == |s.workers| && s.parent == Reaping(0) && s.childrenOk
    requires forall w :: 0 <= w < |s.workers| ==> Exited(s.workers[w])
    ensures var t := Run(s, Reap(|s.workers| + 2));
            && t.parent == (if !s.failed && (forall w :: 0 <= w < |s.workers| ==> s.workers[w].ExitedOk?)
                               && (s.variant.Rings? ==> s.startTime.Some?)
                            then Succeeded else Gave)
  {
    hide Run;
    var n := |s.workers|;
    ReapsAll(s, 0);
    var u := Run(s, Reap(n + 1));
    ReapLonger(s, n + 1);
    assert BadFrom(s, 0) <==> !forall w :: 0 <= w < n ==> s.workers[w].ExitedOk?;
  }

  lemma {:induction false} ReapLonger(s: State, n: nat)
    requires |s.arrived| == |s.workers|
    ensures Run(s, Reap(n + 1)) == ParentNext(Run(s, Reap(n)), true, 0)
    decreases n
  {
    hide ParentNext;
    ReapUnfold(s, n + 1);
    if n > 0 {
      ReapUnfold(s, n);
      ReapLonger(ParentNext(s, true, 0), n - 1);
    } else {
      RunNone(s);
      RunNone(ParentNext(s, true, 0));
    }
  }

  function Four(s: State, events: seq<Event>): State
    requires |s.arrived| == |s.workers| && |events| == 4
  {
    var s1 := Next(s, events[0]);
    var s2 := Next(s1, events[1]);
    Next(Next(s2, events[2]), events[3])
  }

  lemma RunFour(s: State, events: seq<Event>)
    requires |s.arrived| == |s.workers| && |events| == 4
    ensures Four(s, events) == Run(s, events)
  {
    hide Next;
    var s1 := Next(s, events[0]);
    var s2 := Next(s1, events[1]);
    var s3 := Next(s2, events[2]);
    assert events[1..][1..] == events[2..] && events[2..][1..] == events[3..] && events[3..][1..] == [];
    assert Run(s, events) == Run(s1, events[1..]) == Run(s2, events[2..]) == Run(s3, events[3..]);
    assert Run(s3, events[3..]) == Run(Next(s3, events[3]), events[3..][1..]);
  }

  lemma {:induction false} RunAppend(s: State, first: seq<Event>, last: seq<Event>)
    requires |s.arrived| == |s.workers|
    ensures Run(s, first + last) == Run(Run(s, first), last)
    decreases |first|
  {
    hide Next;
    if first == [] {
      assert first + last == last;
    } else {
      assert (first + last)[1..] == first[1..] + last;
      RunAppend(Next(s, first[0]), first[1..], last);
    }
  }
}
