/** The pairing of context-switch records into off-CPU spans, and their overlap with an event, of
    tools/aeron_compare/analyze_switches.py. */
module ContextSwitch {
  import opened Wrappers
  import opened Words

  datatype Direction = Out | In

  /** One matched line of the trace. */
  datatype Record = Record(pid: nat, cpu: nat, time: int, direction: Direction, preempt: bool)

  datatype Span = Span(pid: nat, cpu: nat, start: int, end: int, preempted: bool)

  /** The latest record of a process. */
  function Latest(records: seq<Record>, pid: nat): (r: Option<nat>)
    ensures r.Some? ==> r.value < |records| && records[r.value].pid == pid
    ensures r.Some? ==> forall k :: r.value < k < |records| ==> records[k].pid != pid
    ensures r.None? ==> forall k :: 0 <= k < |records| ==> records[k].pid != pid
  {
    if records == [] then None
    else if records[|records| - 1].pid == pid then Some(|records| - 1)
    else Latest(records[..|records| - 1], pid)
  }

  /** The span a record closes: it is an IN, and the process's record before it is an OUT. */
  function Closes(before: seq<Record>, r: Record): Option<Span> {
    var i := Latest(before, r.pid);
    if r.direction.In? && i.Some? && before[i.value].direction.Out?
    then Some(Span(r.pid, before[i.value].cpu, before[i.value].time, r.time, before[i.value].preempt))
    else None
  }

  /** The spans of a trace, one for each record that closes one. */
  function Spans(records: seq<Record>): seq<Span> {
    if records == [] then []
    else
      var before, r := records[..|records| - 1], records[|records| - 1];
      Spans(before) + (if Closes(before, r).Some? then [Closes(before, r).value] else [])
  }

  datatype Pending = Pending(start: int, preempted: bool, cpu: nat)

  /** What the pending table holds after these records: the processes whose latest is an OUT. */
  ghost predicate PendingIs(pending: map<nat, Pending>, records: seq<Record>) {
    forall pid: nat ::
      var i := Latest(records, pid);
      && (pid in pending <==> i.Some? && records[i.value].direction.Out?)
      && (pid in pending ==>
            pending[pid] == Pending(records[i.value].time, records[i.value].preempt, records[i.value].cpu))
  }

  method ParseSwitches(records: seq<Record>) returns (spans: seq<Span>, cpus: map<nat, set<nat>>)
    ensures spans == Spans(records)
    ensures CpusAre(cpus, records)
  {
    hide Spans, PendingIs, CpusAre, Latest, Closes;
    var pending: map<nat, Pending> := map[];
    spans, cpus := [], map[];
    assert records[..0] == [];
    NothingYet();
    for n := 0 to |records|
      invariant PendingIs(pending, records[..n]) && spans == Spans(records[..n]) && CpusAre(cpus, records[..n])
    {
      var r := records[n];
      ghost var before := records[..n];
      assert records[..n + 1] == before + [r];
      PendingAppend(pending, before, r);
      SpansAppend(pending, before, r);
      CpusAppend(cpus, before, r);
      if r.direction.Out? {
        pending := pending[r.pid := Pending(r.time, r.preempt, r.cpu)];
      } else {
        cpus := cpus[r.pid := (if r.pid in cpus then cpus[r.pid] else {}) + {r.cpu}];
        if r.pid in pending {
          var p := pending[r.pid];
          pending := pending - {r.pid};
          spans := spans + [Span(r.pid, p.cpu, p.start, r.time, p.preempted)];
        }
      }
    }
    assert records[..|records|] == records;
  }

  lemma NothingYet()
    ensures PendingIs(map[], []) && Spans([]) == [] && CpusAre(map[], [])
  {
  }

  lemma PendingAppend(pending: map<nat, Pending>, records: seq<Record>, r: Record)
    requires PendingIs(pending, records)
    ensures PendingIs(if r.direction.Out? then pending[r.pid := Pending(r.time, r.preempt, r.cpu)]
                      else if r.pid in pending then pending - {r.pid} else pending, records + [r])
  {
    LatestAppend(records, r);
  }

  lemma SpansAppend(pending: map<nat, Pending>, records: seq<Record>, r: Record)
    requires PendingIs(pending, records)
    ensures Spans(records + [r]) ==
              if r.direction.In? && r.pid in pending
              then
                var p := pending[r.pid];
                Spans(records) + [Span(r.pid, p.cpu, p.start, r.time, p.preempted)]
              else Spans(records)
  {
    assert (records + [r])[..|records|] == records;
  }

  predicate Entered(r: Record, pid: nat) {
    r.pid == pid && r.direction.In?
  }

  /** The processors each process was switched in on. */
  ghost predicate CpusAre(cpus: map<nat, set<nat>>, records: seq<Record>) {
    && (forall pid :: pid in cpus <==> exists k :: 0 <= k < |records| && Entered(records[k], pid))
    && forall pid, cpu :: pid in cpus ==>
         (cpu in cpus[pid] <==> exists k :: 0 <= k < |records| && Entered(records[k], pid) && records[k].cpu == cpu)
  }

  lemma CpusAppend(cpus: map<nat, set<nat>>, records: seq<Record>, r: Record)
    requires CpusAre(cpus, records)
    ensures CpusAre(if r.direction.Out? then cpus
                    else cpus[r.pid := (if r.pid in cpus then cpus[r.pid] else {}) + {r.cpu}], records + [r])
  {
    var more := records + [r];
    assert more[|records|] == r;
    assert forall k :: 0 <= k < |records| ==> more[k] == records[k];
  }

  lemma LatestAppend(records: seq<Record>, r: Record)
    ensures forall pid :: Latest(records + [r], pid) == if pid == r.pid then Some(|records|) else Latest(records, pid)
  {
    assert (records + [r])[..|records|] == records;
  }

  // ---------------------------------------------------------------- which records pair up

  /** A process goes off at record i and comes back at record j, with no record of it between. */
  predicate Pairs(records: seq<Record>, i: nat, j: nat) {
    && i < j < |records| && records[i].pid == records[j].pid
    && records[i].direction.Out? && records[j].direction.In?
    && forall k :: i < k < j ==> records[k].pid != records[j].pid
  }

  /** A span lasts from the time its process went off to the time it came back, and has the processor
      and the preemption mark of its going off. */
  predicate SpanOf(off: Record, back: Record, s: Span) {
    s.pid == back.pid && s.cpu == off.cpu && s.start == off.time && s.end == back.time && s.preempted == off.preempt
  }

  /** The spans are those of the pairs, in the order of their second records. */
  ghost predicate SpansArePairs(records: seq<Record>, spans: seq<Span>, outs: seq<nat>, ins: seq<nat>) {
    && |outs| == |ins| == |spans|
    && (forall k :: 0 <= k < |spans| ==>
          Pairs(records, outs[k], ins[k]) && SpanOf(records[outs[k]], records[ins[k]], spans[k]))
    && (forall k, l :: 0 <= k < l < |ins| ==> ins[k] < ins[l])
    && forall i: nat, j: nat :: Pairs(records, i, j) ==> j in ins
  }

  lemma {:induction false} SpansAre(records: seq<Record>) returns (outs: seq<nat>, ins: seq<nat>)
    ensures SpansArePairs(records, Spans(records), outs, ins)
  {
    hide Latest, SpansArePairs;
    if records == [] {
      outs, ins := [], [];
      NoPairs();
    } else {
      var before, r := records[..|records| - 1], records[|records| - 1];
      outs, ins := SpansAre(before);
      assert records == before + [r];
      if Closes(before, r).Some? {
        OneMorePair(before, r, Spans(before), outs, ins);
        outs, ins := outs + [Latest(before, r.pid).value], ins + [|before|];
      } else {
        NoMorePairs(before, r, Spans(before), outs, ins);
        assert Spans(records) == Spans(before);
      }
    }
  }

  lemma NoPairs()
    ensures Spans([]) == [] && SpansArePairs([], [], [], [])
  {
  }

  /** A record more leaves the pairs there were, and makes one with the latest of its process if that
      went off and it comes back. */
  lemma PairsStay(before: seq<Record>, r: Record)
    ensures forall i: nat, j: nat :: j < |before| ==> (Pairs(before + [r], i, j) <==> Pairs(before, i, j))
    ensures forall i: nat :: Pairs(before + [r], i, |before|) <==>
              Closes(before, r).Some? && Latest(before, r.pid) == Some(i)
  {
    hide Latest;
    var records := before + [r];
    assert records[|before|] == r && forall k :: 0 <= k < |before| ==> records[k] == before[k];
  }

  lemma NoMorePairs(before: seq<Record>, r: Record, spans: seq<Span>, outs: seq<nat>, ins: seq<nat>)
    requires SpansArePairs(before, spans, outs, ins) && Closes(before, r).None?
    ensures SpansArePairs(before + [r], spans, outs, ins)
  {
    hide Closes, Pairs;
    PairsStay(before, r);
    PairsAreIn(before, r);
  }

  lemma PairsAreIn(before: seq<Record>, r: Record)
    ensures forall i: nat, j: nat :: Pairs(before, i, j) ==> i < j < |before|
    ensures forall i: nat, j: nat :: Pairs(before + [r], i, j) ==> i < j <= |before|
  {
  }

  lemma NewSpan(before: seq<Record>, r: Record)
    requires Closes(before, r).Some?
    ensures Latest(before, r.pid).Some?
    ensures SpanOf(before[Latest(before, r.pid).value], r, Closes(before, r).value)
  {
    hide Latest;
  }

  lemma OneMorePair(before: seq<Record>, r: Record, spans: seq<Span>, outs: seq<nat>, ins: seq<nat>)
    requires SpansArePairs(before, spans, outs, ins) && Closes(before, r).Some?
    ensures SpansArePairs(before + [r], spans + [Closes(before, r).value],
                          outs + [Latest(before, r.pid).value], ins + [|before|])
  {
    hide Latest, Pairs, SpanOf;
    PairsStay(before, r);
    PairsAreIn(before, r);
    NewSpan(before, r);
    var records, spans' := before + [r], spans + [Closes(before, r).value];
    var outs', ins' := outs + [Latest(before, r.pid).value], ins + [|before|];
    forall k | 0 <= k < |spans'|
      ensures Pairs(records, outs'[k], ins'[k]) && SpanOf(records[outs'[k]], records[ins'[k]], spans'[k])
    {
      if k < |spans| {
        assert Pairs(before, outs[k], ins[k]) && SpanOf(before[outs[k]], before[ins[k]], spans[k]);
      }
    }
    forall i: nat, j: nat | Pairs(before + [r], i, j) ensures j in ins' {
      if j == |before| {
        assert ins'[|ins|] == j;
      } else {
        assert j in ins;
      }
    }
  }

  // ---------------------------------------------------------------- spans under time order

  /** The records of each process are in time order. */
  predicate TimeOrdered(records: seq<Record>) {
    forall i, j :: 0 <= i < j < |records| && records[i].pid == records[j].pid ==> records[i].time <= records[j].time
  }

  /** Spans of one process are non-negative and come one after another. */
  predicate InOrder(spans: seq<Span>) {
    && (forall i :: 0 <= i < |spans| ==> spans[i].start <= spans[i].end)
    && forall i, j :: 0 <= i < j < |spans| && spans[i].pid == spans[j].pid ==> spans[i].end <= spans[j].start
  }

  /** No span of a process ends after its latest record. */
  predicate EndedBy(spans: seq<Span>, records: seq<Record>) {
    forall i :: 0 <= i < |spans| ==>
      var k := Latest(records, spans[i].pid);
      k.Some? && spans[i].end <= records[k.value].time
  }

  /** Whatever the records, in time order they give spans of each process that are non-negative and
      pairwise disjoint. */
  lemma {:induction false} SpansInOrder(records: seq<Record>)
    requires TimeOrdered(records)
    ensures InOrder(Spans(records)) && EndedBy(Spans(records), records)
  {
    if records != [] {
      var before, r := records[..|records| - 1], records[|records| - 1];
      SpansInOrder(before);
      LatestAppend(before, r);
      assert records == before + [r];
      AppendInOrder(before, r);
    }
  }

  lemma AppendInOrder(before: seq<Record>, r: Record)
    requires TimeOrdered(before + [r])
    requires InOrder(Spans(before)) && EndedBy(Spans(before), before)
    ensures var spans := Spans(before) + (if Closes(before, r).Some? then [Closes(before, r).value] else []);
            InOrder(spans) && EndedBy(spans, before + [r])
  {
    var spans := Spans(before);
    EndedByStill(spans, before, r);
    if Closes(before, r).Some? {
      var k := Latest(before, r.pid).value;
      assert (before + [r])[k] == before[k] && (before + [r])[|before|] == r;
      OneMoreSpan(spans, Closes(before, r).value);
      LatestAppend(before, r);
    } else {
      assert spans + [] == spans;
    }
  }

  lemma EndedByStill(spans: seq<Span>, before: seq<Record>, r: Record)
    requires TimeOrdered(before + [r]) && EndedBy(spans, before)
    ensures EndedBy(spans, before + [r])
  {
    LatestAppend(before, r);
    var records := before + [r];
    forall i | 0 <= i < |spans|
      ensures Latest(records, spans[i].pid).Some?
      ensures spans[i].end <= records[Latest(records, spans[i].pid).value].time
    {
      var k := Latest(before, spans[i].pid).value;
      assert records[k] == before[k] && records[|before|] == r;
    }
  }

  lemma OneMoreSpan(spans: seq<Span>, s: Span)
    requires InOrder(spans) && s.start <= s.end
    requires forall i :: 0 <= i < |spans| && spans[i].pid == s.pid ==> spans[i].end <= s.start
    ensures InOrder(spans + [s])
  {
  }

  // ---------------------------------------------------------------- overlaps

  /** What correlate computes for a span and an event; it keeps the positive ones. */
  function Overlap(send: int, receive: int, s: Span): int {
    Min(receive, s.end) - Max(send, s.start)
  }

  function Positive(x: int): nat {
    if x > 0 then x else 0
  }

  function Instants(from: int, to: int): (r: set<int>)
    ensures forall t :: t in r <==> (from <= t < to)
    decreases Positive(to - from)
  {
    if from >= to then {} else Instants(from, to - 1) + {to - 1}
  }

  lemma {:induction false} InstantsCount(from: int, to: int)
    ensures |Instants(from, to)| == Positive(to - from)
    decreases Positive(to - from)
  {
    if from < to {
      InstantsCount(from, to - 1);
    }
  }

  /** The nanoseconds that lie in both the event and the span. */
  function Common(send: int, receive: int, s: Span): set<int> {
    Instants(send, receive) * Instants(s.start, s.end)
  }

  /** A kept overlap is the number of nanoseconds that lie in both the span and the event, and a
      span is dropped exactly when there are none. */
  lemma OverlapIsIntersection(send: int, receive: int, s: Span)
    ensures |Common(send, receive, s)| == Positive(Overlap(send, receive, s))
  {
    var both := Instants(Max(send, s.start), Min(receive, s.end));
    assert both == Instants(send, receive) * Instants(s.start, s.end);
    InstantsCount(Max(send, s.start), Min(receive, s.end));
  }

  /** A span with the overlap correlate attaches to it. */
  datatype Overlapping = Overlapping(span: Span, overlap: int)

  /** The spans correlate reports for an event, before it sorts them and cuts the list to four. */
  method OverlapsOf(spans: seq<Span>, send: int, receive: int) returns (kept: seq<Overlapping>)
    ensures forall k :: 0 <= k < |kept| ==>
              && kept[k].span in spans && kept[k].span.preempted
              && kept[k].overlap == |Common(send, receive, kept[k].span)| > 0
    ensures forall i :: 0 <= i < |spans| && spans[i].preempted && Common(send, receive, spans[i]) != {} ==>
              Overlapping(spans[i], |Common(send, receive, spans[i])|) in kept
    ensures forall pid :: Reported(kept, pid) == Total(spans, pid, send, receive)
  {
    hide Common;
    kept := [];
    assert spans[..0] == [];
    for n := 0 to |spans|
      invariant forall k :: 0 <= k < |kept| ==>
                  && kept[k].span in spans && kept[k].span.preempted
                  && kept[k].overlap == |Common(send, receive, kept[k].span)| > 0
      invariant forall i :: 0 <= i < n && spans[i].preempted && Common(send, receive, spans[i]) != {} ==>
                  Overlapping(spans[i], |Common(send, receive, spans[i])|) in kept
      invariant forall pid :: Reported(kept, pid) == Total(spans[..n], pid, send, receive)
    {
      var s := spans[n];
      OverlapIsIntersection(send, receive, s);
      assert spans[..n + 1][..n] == spans[..n];
      if s.preempted {
        var overlap := Overlap(send, receive, s);
        if overlap > 0 {
          var more := kept + [Overlapping(s, overlap)];
          assert more[..|kept|] == kept && more[|kept|] == Overlapping(s, overlap);
          kept := more;
        }
      }
    }
    assert spans[..|spans|] == spans;
  }

  /** The reported overlap of one process. */
  function Reported(kept: seq<Overlapping>, pid: nat): int {
    if kept == [] then 0
    else
      var last := kept[|kept| - 1];
      Reported(kept[..|kept| - 1], pid) + (if last.span.pid == pid then last.overlap else 0)
  }

  /** The overlap of all preempted spans of one process with an event. */
  function Total(spans: seq<Span>, pid: nat, send: int, receive: int): nat {
    if spans == [] then 0
    else
      var s := spans[|spans| - 1];
      Total(spans[..|spans| - 1], pid, send, receive)
      + (if s.pid == pid && s.preempted then Positive(Overlap(send, receive, s)) else 0)
  }

  lemma {:induction false} TotalUpTo(spans: seq<Span>, pid: nat, send: int, receive: int, last: int)
    requires InOrder(spans)
    requires forall i :: 0 <= i < |spans| && spans[i].pid == pid ==> spans[i].end <= last
    ensures Total(spans, pid, send, receive) <= Positive(Min(receive, last) - send)
  {
    if spans != [] {
      var rest, s := spans[..|spans| - 1], spans[|spans| - 1];
      TotalUpTo(rest, pid, send, receive, if s.pid == pid then s.start else last);
    }
  }

  /** One process cannot be off the processor for longer than the event lasted: its overlaps with an
      event add up to at most the event's latency. */
  lemma OverlapsWithinLatency(records: seq<Record>, pid: nat, send: int, receive: int)
    requires TimeOrdered(records) && send <= receive
    ensures Total(Spans(records), pid, send, receive) <= receive - send
  {
    SpansInOrder(records);
    var spans := Spans(records);
    TotalUpTo(spans, pid, send, receive, LastEnd(spans, receive));
  }

  /** A time no span ends after. */
  function LastEnd(spans: seq<Span>, least: int): (t: int)
    ensures t >= least && forall i :: 0 <= i < |spans| ==> spans[i].end <= t
  {
    if spans == [] then least
    else Max(spans[|spans| - 1].end, LastEnd(spans[..|spans| - 1], least))
  }
}
