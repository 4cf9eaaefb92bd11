/** The many-producer broadcast ring of src/core/ring/fast_mpmc_ring.hpp: one broadcast ring a producer,
    and each consumer merging them lane by lane. Every interleaving of all producers with all
    consumers, each consumer's scan included, one lane's sequence word at a time. */
module MpmcRing {
  import F = FanoutRing
  import L = LaneScheduler
  import W = Words

  /** Between calls, at the scan-th lane of try_read's scan, or holding a read of a lane. */
  datatype Reader = Idle | Scanning(scan: nat) | Reading(lane: nat)

  datatype Item = Item(lane: nat, message: seq<int>)

  /** A consumer's own state, and what it has taken from all lanes in order. */
  datatype Consumer = Consumer(schedule: L.Schedule, reader: Reader, stream: seq<Item>)

  datatype State = State(batch: nat, lanes: seq<F.Ring>, consumers: seq<Consumer>)

  datatype Event =
    | Produce(lane: nat, e: F.Event)
    | Begin(c: nat)
    | Scan(c: nat)
    | Copy(c: nat)
    | Release(c: nat, publish: bool)
    | Flush(c: nat, lane: nat)

  predicate Shape(s: State) {
    && s.batch > 0 && |s.lanes| > 0
    && forall p :: 0 <= p < |s.lanes| ==>
         s.lanes[p].Capacity() > 0 && |s.lanes[p].consumers| == |s.lanes[p].cursors| == |s.consumers|
  }

  predicate Fresh(s: State) {
    && Shape(s) && |s.consumers| > 0
    && (forall p :: 0 <= p < |s.lanes| ==> F.Fresh(s.lanes[p]))
    && forall c :: 0 <= c < |s.consumers| ==> s.consumers[c] == Consumer(L.Schedule(0, 0), Idle, [])
  }

  predicate ProducerEvent(e: F.Event) {
    e.StartClaim? || e.LoadCursor? || e.WriteWord? || e.Commit?
  }

  /** One event; one that its process cannot take now changes nothing. */
  function Next(s: State, e: Event): (t: State)
    requires Shape(s)
    ensures Shape(t) && t.batch == s.batch && |t.lanes| == |s.lanes| && |t.consumers| == |s.consumers|
  {
    match e
    case Produce(p, f) => if p < |s.lanes| && ProducerEvent(f) then LaneStep(s, p, f) else s
    case Begin(c) =>
      if c < |s.consumers| && s.consumers[c].reader.Idle? then Reads(s, c, Scanning(0)) else s
    case Scan(c) => if c < |s.consumers| && s.consumers[c].reader.Scanning? then ScanLane(s, c) else s
    case Copy(c) =>
      if c < |s.consumers| && s.consumers[c].reader.Reading? && s.consumers[c].reader.lane < |s.lanes|
      then LaneStep(s, s.consumers[c].reader.lane, F.CopyWord(c)) else s
    case Release(c, publish) =>
      if c < |s.consumers| && CanRelease(s, c) then ReleaseLane(s, c, publish) else s
    case Flush(c, p) =>
      if c < |s.consumers| && p < |s.lanes| && s.consumers[c].reader.Idle? then LaneStep(s, p, F.Flush(c)) else s
  }

  function LaneStep(s: State, p: nat, f: F.Event): (t: State)
    requires Shape(s) && p < |s.lanes|
    ensures Shape(t)
  {
    s.(lanes := s.lanes[p := F.Next(s.lanes[p], f)])
  }

  function Reads(s: State, c: nat, reader: Reader): (t: State)
    requires Shape(s) && c < |s.consumers|
    ensures Shape(t)
  {
    s.(consumers := s.consumers[c := s.consumers[c].(reader := reader)])
  }

  /** One lane of the scan: its next message is taken up, or the scan goes on, or ends Empty. */
  function ScanLane(s: State, c: nat): (t: State)
    requires Shape(s) && c < |s.consumers| && s.consumers[c].reader.Scanning?
    ensures Shape(t)
  {
    var k := s.consumers[c];
    var lane := L.Lane(k.schedule.next, k.reader.scan, |s.lanes|);
    if k.reader.scan >= |s.lanes| then Reads(s, c, Idle)
    else if F.Readable(s.lanes[lane], c) then
      var t := LaneStep(s, lane, F.TryRead(c));
      t.(consumers := t.consumers[c := k.(schedule := L.Opened(k.schedule, s.batch), reader := Reading(lane))])
    else Reads(s, c, Scanning(k.reader.scan + 1))
  }

  /** The consumer holds a read, of which it has copied as much as it wants. */
  predicate CanRelease(s: State, c: nat)
    requires Shape(s) && c < |s.consumers|
  {
    var k := s.consumers[c];
    && k.reader.Reading? && k.reader.lane < |s.lanes| && k.schedule.remaining > 0
    && s.lanes[k.reader.lane].consumers[c].reader.Reading?
  }

  function ReleaseLane(s: State, c: nat, publish: bool): (t: State)
    requires Shape(s) && c < |s.consumers| && CanRelease(s, c)
    ensures Shape(t)
  {
    var k := s.consumers[c];
    var lane := k.reader.lane;
    var t := LaneStep(s, lane, F.Release(c, publish));
    t.(consumers := t.consumers[c := Consumer(
         L.Released(k.schedule, lane, |s.lanes|), Idle,
         k.stream + [Item(lane, s.lanes[lane].consumers[c].reader.copy)])])
  }

  function Run(s: State, events: seq<Event>): (t: State)
    requires Shape(s)
    ensures Shape(t) && t.batch == s.batch && |t.lanes| == |s.lanes| && |t.consumers| == |s.consumers|
    decreases |events|
  {
    if events == [] then s else Run(Next(s, events[0]), events[1..])
  }

  /** What a consumer has taken from one lane, in order. */
  function From(stream: seq<Item>, p: nat): seq<seq<int>> {
    if stream == [] then []
    else
      var last := stream[|stream| - 1];
      From(stream[..|stream| - 1], p) + (if last.lane == p then [last.message] else [])
  }

  lemma FromAppend(stream: seq<Item>, item: Item, p: nat)
    ensures From(stream + [item], p) == From(stream, p) + (if item.lane == p then [item.message] else [])
  {
    assert (stream + [item])[..|stream|] == stream;
  }

  // ---------------------------------------------------------------- the invariant

  /** The consumer's part of a lane agrees with its own record of it. */
  predicate LaneOk(s: State, c: nat, p: nat)
    requires Shape(s) && c < |s.consumers| && p < |s.lanes|
  {
    && (s.lanes[p].consumers[c].reader.Reading? <==> s.consumers[c].reader == Reading(p))
    && From(s.consumers[c].stream, p) == s.lanes[p].consumers[c].delivered
  }

  predicate ConsumerOk(s: State, c: nat)
    requires Shape(s) && c < |s.consumers|
  {
    var k := s.consumers[c];
    && k.schedule.next < |s.lanes| && k.schedule.remaining <= s.batch
    && (k.reader.Reading? ==> k.reader.lane < |s.lanes| && k.schedule.remaining > 0)
    && (forall i :: 0 <= i < |k.stream| ==> k.stream[i].lane < |s.lanes|)
    && forall p :: 0 <= p < |s.lanes| ==> LaneOk(s, c, p)
  }

  predicate Inv(s: State) {
    && Shape(s) && |s.consumers| > 0
    && (forall p :: 0 <= p < |s.lanes| ==> F.Inv(s.lanes[p]))
    && forall c :: 0 <= c < |s.consumers| ==> ConsumerOk(s, c)
  }

  lemma FreshInv(s: State)
    requires Fresh(s)
    ensures Inv(s)
  {
    forall p | 0 <= p < |s.lanes| ensures F.Inv(s.lanes[p]) {
      F.FreshInv(s.lanes[p]);
    }
  }

  // ---------------------------------------------------------------- what one step of a lane does

  /** A producer's step, or a flush, leaves the lane's consumers as they are. */
  lemma LaneConsumersStay(r: F.Ring, f: F.Event)
    requires r.Capacity() > 0 && |r.consumers| == |r.cursors| && (ProducerEvent(f) || f.Flush?)
    ensures F.Next(r, f).consumers == r.consumers
  {
  }

  lemma LaneReads(r: F.Ring, c: nat)
    requires r.Capacity() > 0 && |r.consumers| == |r.cursors| && c < |r.consumers|
    requires r.consumers[c].reader.Free? && F.Readable(r, c)
    ensures F.Next(r, F.TryRead(c)).consumers == r.consumers[c := r.consumers[c].(reader := F.Reading([]))]
  {
  }

  lemma LaneCopies(r: F.Ring, c: nat)
    requires r.Capacity() > 0 && |r.consumers| == |r.cursors| && c < |r.consumers|
    requires r.consumers[c].reader.Reading?
    ensures var t := F.Next(r, F.CopyWord(c));
            && t.consumers == r.consumers[c := r.consumers[c].(reader := t.consumers[c].reader)]
            && t.consumers[c].reader.Reading?
  {
    assert r.consumers == r.consumers[c := r.consumers[c]];
  }

  lemma LaneReleases(r: F.Ring, c: nat, publish: bool)
    requires r.Capacity() > 0 && |r.consumers| == |r.cursors| && c < |r.consumers|
    requires r.consumers[c].reader.Reading?
    ensures var k := r.consumers[c];
            F.Next(r, F.Release(c, publish)).consumers ==
              r.consumers[c := F.Consumer(k.consumed + 1, F.Free, k.delivered + [k.reader.copy])]
  {
  }

  // ---------------------------------------------------------------- steps keep the invariant

  lemma LanesKeepInv(s: State, p: nat, f: F.Event)
    requires Shape(s) && p < |s.lanes| && forall i :: 0 <= i < |s.lanes| ==> F.Inv(s.lanes[i])
    ensures forall i :: 0 <= i < |s.lanes| ==> F.Inv(LaneStep(s, p, f).lanes[i])
  {
    hide F.Inv, F.Next;
    F.StepKeepsInv(s.lanes[p], f);
  }

  /** A step of a lane by someone other than its consumers. */
  lemma OutsideKeepsInv(s: State, p: nat, f: F.Event)
    requires Inv(s) && p < |s.lanes| && (ProducerEvent(f) || f.Flush?)
    ensures Inv(LaneStep(s, p, f))
  {
    hide F.Inv, F.Next, From;
    LanesKeepInv(s, p, f);
    LaneConsumersStay(s.lanes[p], f);
    var t := LaneStep(s, p, f);
    forall c | 0 <= c < |t.consumers| ensures ConsumerOk(t, c) {
      assert ConsumerOk(s, c);
      forall i | 0 <= i < |t.lanes| ensures LaneOk(t, c, i) {
        assert LaneOk(s, c, i);
      }
    }
  }

  /** One consumer moves, with its part of one lane. */
  lemma ConsumerMoves(s: State, t: State, c: nat, p: nat, k: F.Consumer)
    requires Inv(s) && Shape(t) && c < |s.consumers| && p < |s.lanes| && t.batch == s.batch
    requires |t.lanes| == |s.lanes| && |t.consumers| == |s.consumers|
    requires t.consumers == s.consumers[c := t.consumers[c]]
    requires forall i :: 0 <= i < |t.lanes| ==> F.Inv(t.lanes[i])
    requires forall i :: 0 <= i < |t.lanes| && i != p ==> t.lanes[i] == s.lanes[i]
    requires t.lanes[p].consumers == s.lanes[p].consumers[c := k]
    requires ConsumerOk(t, c)
    ensures Inv(t)
  {
    hide F.Inv, From;
    forall d | 0 <= d < |t.consumers| ensures ConsumerOk(t, d) {
      assert ConsumerOk(s, d);
      if d != c {
        forall i | 0 <= i < |t.lanes| ensures LaneOk(t, d, i) {
          assert LaneOk(s, d, i);
        }
      }
    }
  }

  lemma BeginKeepsInv(s: State, c: nat, reader: Reader)
    requires Inv(s) && c < |s.consumers| && !s.consumers[c].reader.Reading? && !reader.Reading?
    ensures Inv(Reads(s, c, reader))
  {
    hide F.Inv, From;
    var t := Reads(s, c, reader);
    assert ConsumerOk(s, c);
    assert ConsumerOk(t, c) by {
      forall i | 0 <= i < |t.lanes| ensures LaneOk(t, c, i) {
        assert LaneOk(s, c, i);
      }
    }
    assert s.lanes[0].consumers == s.lanes[0].consumers[c := s.lanes[0].consumers[c]];
    ConsumerMoves(s, t, c, 0, s.lanes[0].consumers[c]);
  }

  lemma ScanKeepsInv(s: State, c: nat)
    requires Inv(s) && c < |s.consumers| && s.consumers[c].reader.Scanning?
    ensures Inv(ScanLane(s, c))
  {
    hide F.Inv, From, F.Next, F.Readable;
    var k, t := s.consumers[c], ScanLane(s, c);
    var lane := L.Lane(k.schedule.next, k.reader.scan, |s.lanes|);
    assert ConsumerOk(s, c) && LaneOk(s, c, lane);
    if k.reader.scan >= |s.lanes| {
      BeginKeepsInv(s, c, Idle);
    } else if F.Readable(s.lanes[lane], c) {
      LanesKeepInv(s, lane, F.TryRead(c));
      LaneReads(s.lanes[lane], c);
      assert ConsumerOk(t, c) by {
        forall i | 0 <= i < |t.lanes| ensures LaneOk(t, c, i) {
          assert LaneOk(s, c, i);
        }
      }
      ConsumerMoves(s, t, c, lane, t.lanes[lane].consumers[c]);
    } else {
      BeginKeepsInv(s, c, Scanning(k.reader.scan + 1));
    }
  }

  lemma CopyKeepsInv(s: State, c: nat)
    requires Inv(s) && c < |s.consumers| && s.consumers[c].reader.Reading?
    ensures Inv(Next(s, Copy(c)))
  {
    hide F.Inv, From, F.Next;
    var lane, t := s.consumers[c].reader.lane, Next(s, Copy(c));
    assert ConsumerOk(s, c) && LaneOk(s, c, lane);
    LanesKeepInv(s, lane, F.CopyWord(c));
    LaneCopies(s.lanes[lane], c);
    assert ConsumerOk(t, c) by {
      forall i | 0 <= i < |t.lanes| ensures LaneOk(t, c, i) {
        assert LaneOk(s, c, i);
      }
    }
    assert t.consumers == t.consumers[c := t.consumers[c]];
    ConsumerMoves(s, t, c, lane, t.lanes[lane].consumers[c]);
  }

  lemma ReleaseKeepsInv(s: State, c: nat, publish: bool)
    requires Inv(s) && c < |s.consumers| && CanRelease(s, c)
    ensures Inv(ReleaseLane(s, c, publish))
  {
    hide F.Inv, From, F.Next;
    var k, t := s.consumers[c], ReleaseLane(s, c, publish);
    var lane := k.reader.lane;
    assert ConsumerOk(s, c) && LaneOk(s, c, lane);
    LanesKeepInv(s, lane, F.Release(c, publish));
    LaneReleases(s.lanes[lane], c, publish);
    var item := Item(lane, s.lanes[lane].consumers[c].reader.copy);
    assert ConsumerOk(t, c) by {
      forall i | 0 <= i < |t.lanes| ensures LaneOk(t, c, i) {
        assert LaneOk(s, c, i);
        FromAppend(k.stream, item, i);
      }
    }
    ConsumerMoves(s, t, c, lane, t.lanes[lane].consumers[c]);
  }

  lemma StepKeepsInv(s: State, e: Event)
    requires Inv(s)
    ensures Inv(Next(s, e))
  {
    hide F.Inv, From, LaneStep, ScanLane, ReleaseLane, Reads, CanRelease, ConsumerOk;
    match e
    case Produce(p, f) => if p < |s.lanes| && ProducerEvent(f) { OutsideKeepsInv(s, p, f); }
    case Begin(c) => if c < |s.consumers| && s.consumers[c].reader.Idle? { BeginKeepsInv(s, c, Scanning(0)); }
    case Scan(c) => if c < |s.consumers| && s.consumers[c].reader.Scanning? { ScanKeepsInv(s, c); }
    case Copy(c) => if c < |s.consumers| && s.consumers[c].reader.Reading? { CopyKeepsInv(s, c); }
    case Release(c, publish) => if c < |s.consumers| && CanRelease(s, c) { ReleaseKeepsInv(s, c, publish); }
    case Flush(c, p) =>
      if c < |s.consumers| && p < |s.lanes| && s.consumers[c].reader.Idle? { OutsideKeepsInv(s, p, F.Flush(c)); }
  }

  lemma {:induction false} RunKeepsInv(s: State, events: seq<Event>)
    requires Inv(s)
    ensures Inv(Run(s, events))
    decreases |events|
  {
    hide Next, ConsumerOk, F.Inv;
    if events != [] {
      StepKeepsInv(s, events[0]);
      RunKeepsInv(Next(s, events[0]), events[1..]);
    }
  }

  /** What consumer c has taken of lane p: its first messages, and of each the words copied. */
  predicate Merged(s: State, c: nat, p: nat)
    requires Shape(s) && c < |s.consumers| && p < |s.lanes|
  {
    var taken := From(s.consumers[c].stream, p);
    && F.Beginnings(taken, s.lanes[p].history)
    && forall i :: 0 <= i < |taken| && |taken[i]| == s.lanes[p].words ==> taken[i] == s.lanes[p].history[i]
  }

  lemma LaneIsMerged(s: State, c: nat, p: nat)
    requires Inv(s) && c < |s.consumers| && p < |s.lanes|
    ensures Merged(s, c, p)
  {
    hide F.Inv, From;
    assert ConsumerOk(s, c) && LaneOk(s, c, p);
    F.DeliveredIsPrefix(s.lanes[p], c);
  }

  /** Over every run, what each consumer has taken is an interleaving of prefixes of all the lanes:
      from each producer every message committed up to some point, once and in order, whole if it
      copied it to the end and otherwise the words it copied. */
  lemma EveryRunMerges(s: State, events: seq<Event>)
    requires Fresh(s)
    ensures var t := Run(s, events);
            forall c :: 0 <= c < |t.consumers| ==>
              && (forall i :: 0 <= i < |t.consumers[c].stream| ==> t.consumers[c].stream[i].lane < |t.lanes|)
              && forall p :: 0 <= p < |t.lanes| ==> Merged(t, c, p)
  {
    hide F.Inv, Run, From, Merged, LaneOk;
    FreshInv(s);
    RunKeepsInv(s, events);
    var t := Run(s, events);
    forall c | 0 <= c < |t.consumers|
      ensures forall i :: 0 <= i < |t.consumers[c].stream| ==> t.consumers[c].stream[i].lane < |t.lanes|
      ensures forall p :: 0 <= p < |t.lanes| ==> Merged(t, c, p)
    {
      assert ConsumerOk(t, c);
      forall p | 0 <= p < |t.lanes| ensures Merged(t, c, p) {
        LaneIsMerged(t, c, p);
      }
    }
  }

  // ---------------------------------------------------------------- fairness

  /** Lane q has a message for the consumer, and at most so many messages of other lanes come first. */
  predicate Awaits(s: State, c: nat, q: nat, left: int)
    requires Shape(s) && c < |s.consumers| && q < |s.lanes| && ConsumerOk(s, c)
  {
    var k, lanes := s.consumers[c], |s.lanes|;
    && left >= 0 && F.Readable(s.lanes[q], c)
    && match k.reader
       case Idle => L.Wait(k.schedule, s.batch, lanes, q) <= left
       case Scanning(scan) =>
         scan <= L.Distance(k.schedule.next, q, lanes) && L.Wait(k.schedule, s.batch, lanes, q) <= left
       case Reading(lane) => lane == q || WaitAfter(s, k, lane, q) < left
  }

  /** The wait once the message being read is released. */
  function WaitAfter(s: State, k: Consumer, lane: nat, q: nat): nat
    requires Shape(s) && lane < |s.lanes| && q < |s.lanes| && k.schedule.remaining > 0
  {
    var t := L.Released(k.schedule, lane, |s.lanes|);
    if t.next < |s.lanes| then L.Wait(t, s.batch, |s.lanes|, q) else 0
  }

  /** The message stays there whatever anyone else does to the lane. */
  lemma StaysReadable(s: State, p: nat, f: F.Event, c: nat, q: nat)
    requires Inv(s) && c < |s.consumers| && p < |s.lanes| && q < |s.lanes| && F.Readable(s.lanes[q], c)
    requires f.Release? && f.consumer == c ==> p != q
    ensures F.Readable(LaneStep(s, p, f).lanes[q], c)
  {
    hide F.Inv, F.Next, F.Readable;
    if p == q {
      F.UnreadStaysReadable(s.lanes[q], c, f);
    }
  }

  lemma OthersLeaveWaiting(s: State, e: Event, c: nat, q: nat, left: int)
    requires Inv(s) && c < |s.consumers| && q < |s.lanes| && ConsumerOk(s, c) && Awaits(s, c, q, left)
    requires e.Produce? || e.c != c
    ensures Next(s, e).consumers[c] == s.consumers[c]
    ensures ConsumerOk(Next(s, e), c) && Awaits(Next(s, e), c, q, left)
  {
    hide F.Inv, F.Next, F.Readable, From, L.Lane, L.Wait;
    StepKeepsInv(s, e);
    assert ConsumerOk(Next(s, e), c);
    match e
    case Produce(p, f) => if p < |s.lanes| && ProducerEvent(f) { StaysReadable(s, p, f, c, q); }
    case Begin(d) =>
    case Scan(d) =>
      if d < |s.consumers| && s.consumers[d].reader.Scanning? {
        var k := s.consumers[d];
        StaysReadable(s, L.Lane(k.schedule.next, k.reader.scan, |s.lanes|), F.TryRead(d), c, q);
      }
    case Copy(d) =>
      if d < |s.consumers| && s.consumers[d].reader.Reading? && s.consumers[d].reader.lane < |s.lanes| {
        StaysReadable(s, s.consumers[d].reader.lane, F.CopyWord(d), c, q);
      }
    case Release(d, publish) =>
      if d < |s.consumers| && CanRelease(s, d) {
        StaysReadable(s, s.consumers[d].reader.lane, F.Release(d, publish), c, q);
      }
    case Flush(d, p) => if p < |s.lanes| { StaysReadable(s, p, F.Flush(d), c, q); }
  }

  lemma ScanWaits(s: State, c: nat, q: nat, left: int)
    requires Inv(s) && c < |s.consumers| && q < |s.lanes| && ConsumerOk(s, c) && Awaits(s, c, q, left)
    requires s.consumers[c].reader.Scanning?
    ensures ConsumerOk(ScanLane(s, c), c) && Awaits(ScanLane(s, c), c, q, left)
    ensures ScanLane(s, c).consumers[c].stream == s.consumers[c].stream
  {
    hide F.Inv, F.Next, F.Readable, From, L.Lane, L.Wait, L.Distance;
    ScanKeepsInv(s, c);
    var k, lanes := s.consumers[c], |s.lanes|;
    var scan := k.reader.scan;
    var lane := L.Lane(k.schedule.next, scan, lanes);
    L.LaneAtDistance(k.schedule.next, q, lanes);
    if scan < L.Distance(k.schedule.next, q, lanes) {
      L.PassOver(k.schedule, s.batch, lanes, q, scan);
    }
    StaysReadable(s, lane, F.TryRead(c), c, q);
    assert ConsumerOk(ScanLane(s, c), c);
  }

  lemma ReleaseWaits(s: State, c: nat, publish: bool, q: nat, left: int)
    requires Inv(s) && c < |s.consumers| && q < |s.lanes| && ConsumerOk(s, c) && Awaits(s, c, q, left)
    requires CanRelease(s, c)
    ensures var t := ReleaseLane(s, c, publish);
            && ConsumerOk(t, c) && |t.consumers[c].stream| == |s.consumers[c].stream| + 1
            && if s.consumers[c].reader.lane == q
               then |From(t.consumers[c].stream, q)| > |From(s.consumers[c].stream, q)|
               else Awaits(t, c, q, left - 1) && From(t.consumers[c].stream, q) == From(s.consumers[c].stream, q)
  {
    hide F.Inv, F.Next, F.Readable, From, L.Lane, L.Wait, L.Distance;
    ReleaseKeepsInv(s, c, publish);
    var k, t := s.consumers[c], ReleaseLane(s, c, publish);
    assert ConsumerOk(t, c);
    FromAppend(k.stream, Item(k.reader.lane, s.lanes[k.reader.lane].consumers[c].reader.copy), q);
    if k.reader.lane != q {
      StaysReadable(s, k.reader.lane, F.Release(c, publish), c, q);
    }
  }

  /** One step: lane q is read, or the messages still to come before it have gone down by those taken. */
  lemma StepWaits(s: State, e: Event, c: nat, q: nat, left: int)
    requires Inv(s) && c < |s.consumers| && q < |s.lanes| && ConsumerOk(s, c) && Awaits(s, c, q, left)
    ensures var t := Next(s, e);
            var taken := |t.consumers[c].stream| - |s.consumers[c].stream|;
            && ConsumerOk(t, c) && 0 <= taken
            && (|From(t.consumers[c].stream, q)| > |From(s.consumers[c].stream, q)|
                || (Awaits(t, c, q, left - taken) && From(t.consumers[c].stream, q) == From(s.consumers[c].stream, q)))
  {
    hide F.Inv, F.Next, F.Readable, From, L.Lane, L.Wait, L.Distance, ConsumerOk, LaneStep, ScanLane, ReleaseLane;
    if e.Produce? || e.c != c {
      OthersLeaveWaiting(s, e, c, q, left);
    } else if e.Scan? && s.consumers[c].reader.Scanning? {
      ScanWaits(s, c, q, left);
    } else if e.Release? && CanRelease(s, c) {
      ReleaseWaits(s, c, e.publish, q, left);
    } else {
      StepKeepsInv(s, e);
      OwnStepWaits(s, e, c, q, left);
    }
  }

  /** Beginning a scan, copying a word, flushing, and calls that are refused. */
  lemma OwnStepWaits(s: State, e: Event, c: nat, q: nat, left: int)
    requires Inv(s) && c < |s.consumers| && q < |s.lanes| && ConsumerOk(s, c) && Awaits(s, c, q, left)
    requires Inv(Next(s, e)) && !e.Produce? && e.c == c
    requires !(e.Scan? && s.consumers[c].reader.Scanning?) && !(e.Release? && CanRelease(s, c))
    ensures ConsumerOk(Next(s, e), c) && Awaits(Next(s, e), c, q, left)
    ensures Next(s, e).consumers[c].stream == s.consumers[c].stream
  {
    hide F.Inv, F.Next, F.Readable, From, L.Lane, L.Wait;
    assert ConsumerOk(Next(s, e), c);
    if e.Copy? && s.consumers[c].reader.Reading? {
      StaysReadable(s, s.consumers[c].reader.lane, F.CopyWord(c), c, q);
    } else if e.Flush? && e.lane < |s.lanes| {
      StaysReadable(s, e.lane, F.Flush(c), c, q);
    }
  }

  lemma {:induction false} RunWaits(s: State, events: seq<Event>, c: nat, q: nat, left: int)
    requires Inv(s) && c < |s.consumers| && q < |s.lanes| && ConsumerOk(s, c) && Awaits(s, c, q, left)
    ensures var k, t := s.consumers[c], Run(s, events).consumers[c];
            && |From(t.stream, q)| >= |From(k.stream, q)| && |t.stream| >= |k.stream|
            && (|From(t.stream, q)| > |From(k.stream, q)| || |t.stream| - |k.stream| <= left)
    decreases |events|
  {
    hide F.Inv, F.Readable, From, Next, ConsumerOk, L.Wait, L.Distance;
    if events != [] {
      StepKeepsInv(s, events[0]);
      StepWaits(s, events[0], c, q, left);
      var t := Next(s, events[0]);
      if |From(t.consumers[c].stream, q)| > |From(s.consumers[c].stream, q)| {
        StreamsGrow(t, events[1..], c, q);
      } else {
        RunWaits(t, events[1..], c, q, left - (|t.consumers[c].stream| - |s.consumers[c].stream|));
      }
    }
  }

  lemma {:induction false} StreamsGrow(s: State, events: seq<Event>, c: nat, q: nat)
    requires Shape(s) && c < |s.consumers|
    ensures var k, t := s.consumers[c], Run(s, events).consumers[c];
            |From(t.stream, q)| >= |From(k.stream, q)| && |t.stream| >= |k.stream|
    decreases |events|
  {
    hide Next, From;
    if events != [] {
      StreamGrows(s, events[0], c, q);
      StreamsGrow(Next(s, events[0]), events[1..], c, q);
    }
  }

  lemma StreamGrows(s: State, e: Event, c: nat, q: nat)
    requires Shape(s) && c < |s.consumers|
    ensures var k, t := s.consumers[c], Next(s, e).consumers[c];
            |From(t.stream, q)| >= |From(k.stream, q)| && |t.stream| >= |k.stream|
  {
    hide From;
    var k := s.consumers[c];
    if e.Release? && e.c == c && CanRelease(s, c) {
      FromAppend(k.stream, Item(k.reader.lane, s.lanes[k.reader.lane].consumers[c].reader.copy), q);
    }
  }

  /** No producer starves: if a consumer begins to look while lane q has a message for it, then over
      every run it takes at most (P - 1) * batch messages of other producers before one of q. */
  lemma NoLaneStarves(s: State, events: seq<Event>, c: nat, q: nat)
    requires Inv(s) && c < |s.consumers| && q < |s.lanes|
    requires s.consumers[c].reader.Idle? && F.Readable(s.lanes[q], c)
    ensures var k, t := s.consumers[c], Run(s, events).consumers[c];
            || |From(t.stream, q)| > |From(k.stream, q)|
            || |t.stream| - |k.stream| <= L.Messages(|s.lanes| - 1, s.batch)
  {
    hide F.Inv, F.Readable, From, Run, L.Wait, L.Messages;
    assert ConsumerOk(s, c);
    var k := s.consumers[c];
    L.WaitBound(k.schedule, s.batch, |s.lanes|, q);
    RunWaits(s, events, c, q, L.Wait(k.schedule, s.batch, |s.lanes|, q));
  }

  // ---------------------------------------------------------------- undisturbed calls

  /** The lanes that have a message for the consumer. */
  function ReadyLanes(s: State, c: nat): (ready: seq<bool>)
    requires Shape(s) && c < |s.consumers|
    ensures |ready| == |s.lanes| && forall p :: 0 <= p < |ready| ==> (ready[p] <==> F.Readable(s.lanes[p], c))
  {
    seq(|s.lanes|, p requires 0 <= p < |s.lanes| && Shape(s) && c < |s.consumers| => F.Readable(s.lanes[p], c))
  }

  function Scans(c: nat, n: nat): seq<Event> {
    if n == 0 then [] else [Scan(c)] + Scans(c, n - 1)
  }

  lemma ScansUnfold(s: State, c: nat, n: nat)
    requires Shape(s) && n > 0
    ensures Run(s, Scans(c, n)) == Run(Next(s, Scan(c)), Scans(c, n - 1))
  {
    hide Next;
    assert Scans(c, n)[1..] == Scans(c, n - 1);
  }

  lemma {:induction false} NoScan(s: State, c: nat, n: nat)
    requires Shape(s) && c < |s.consumers| && !s.consumers[c].reader.Scanning?
    ensures Run(s, Scans(c, n)) == s
  {
    if n > 0 {
      ScansUnfold(s, c, n);
      NoScan(s, c, n - 1);
    }
  }

  /** What the scan of try_read comes to: the first ready lane from where it starts is taken up, with a
      batch opened if none is open, or the answer is Empty. */
  predicate Found(s: State, c: nat, scan: nat, t: State)
    requires Shape(s) && Shape(t) && c < |s.consumers| == |t.consumers| && scan <= |s.lanes|
  {
    var k := s.consumers[c];
    var found := L.FirstReady(k.schedule.next, scan, ReadyLanes(s, c));
    if found == |s.lanes| then t == s.(consumers := s.consumers[c := k.(reader := Idle)])
    else
      var lane := L.Lane(k.schedule.next, found, |s.lanes|);
      && t.consumers == s.consumers[c := k.(schedule := L.Opened(k.schedule, s.batch), reader := Reading(lane))]
      && |t.lanes| == |s.lanes| && t.lanes == s.lanes[lane := F.Next(s.lanes[lane], F.TryRead(c))]
  }

  lemma {:induction false} ScanEnds(s: State, c: nat, scan: nat, n: nat)
    requires Inv(s) && c < |s.consumers| && s.consumers[c].reader == Scanning(scan)
    requires scan <= |s.lanes| && n > |s.lanes| - scan
    ensures Inv(Run(s, Scans(c, n))) && Found(s, c, scan, Run(s, Scans(c, n)))
    decreases n
  {
    hide F.Inv, From, Run, ConsumerOk, Found, ScanLane;
    ScansUnfold(s, c, n);
    ScanKeepsInv(s, c);
    var t := ScanLane(s, c);
    ScanLooks(s, c, scan);
    if t.consumers[c].reader.Scanning? {
      ScanEnds(t, c, scan + 1, n - 1);
      FoundLater(s, c, scan, t, Run(t, Scans(c, n - 1)));
    } else {
      NoScan(t, c, n - 1);
    }
  }

  /** One lane looked at: the scan is over, or goes on over the same lanes. */
  lemma ScanLooks(s: State, c: nat, scan: nat)
    requires Shape(s) && c < |s.consumers| && s.consumers[c].reader == Scanning(scan) && scan <= |s.lanes|
    ensures var t := ScanLane(s, c);
            && |t.consumers| == |s.consumers|
            && if t.consumers[c].reader.Scanning? then Passed(s, c, scan, t) else Found(s, c, scan, t)
  {
    hide F.Next, F.Readable;
  }

  predicate Passed(s: State, c: nat, scan: nat, t: State)
    requires Shape(s) && c < |s.consumers|
  {
    && scan < |s.lanes| && t == s.(consumers := s.consumers[c := s.consumers[c].(reader := Scanning(scan + 1))])
    && !ReadyLanes(s, c)[L.Lane(s.consumers[c].schedule.next, scan, |s.lanes|)]
  }

  lemma FoundLater(s: State, c: nat, scan: nat, t: State, u: State)
    requires Shape(s) && Shape(t) && Shape(u) && c < |s.consumers| == |t.consumers| == |u.consumers|
    requires Passed(s, c, scan, t) && Found(t, c, scan + 1, u)
    ensures Found(s, c, scan, u)
  {
    hide F.Next, F.Readable, L.Lane;
    assert ReadyLanes(t, c) == ReadyLanes(s, c);
  }

  /** try_read with no one in between finds a message exactly if some lane has one, and then that of the
      first such lane from where the consumer stands. */
  lemma TryReadFinds(s: State, c: nat)
    requires Inv(s) && c < |s.consumers| && s.consumers[c].reader.Idle?
    ensures var t := Run(Next(s, Begin(c)), Scans(c, |s.lanes| + 1));
            && Inv(t) && Found(s, c, 0, t)
            && (t.consumers[c].reader.Reading? <==> exists p :: 0 <= p < |s.lanes| && F.Readable(s.lanes[p], c))
            && (t.consumers[c].reader.Idle? <==> t == s)
  {
    hide F.Inv, F.Next, F.Readable, From, Run, ConsumerOk;
    BeginKeepsInv(s, c, Scanning(0));
    var u := Next(s, Begin(c));
    ScanEnds(u, c, 0, |s.lanes| + 1);
    assert ReadyLanes(u, c) == ReadyLanes(s, c);
    NextInRange(s, c);
    L.FindsNoneIff(s.consumers[c].schedule.next, ReadyLanes(s, c));
    assert s.consumers[c := s.consumers[c]] == s.consumers;
  }

  lemma NextInRange(s: State, c: nat)
    requires Inv(s) && c < |s.consumers|
    ensures s.consumers[c].schedule.next < |s.lanes|
  {
    assert ConsumerOk(s, c);
  }

  /** A read can always be released, whatever of it has been copied: the message counts as taken, the
      schedule moves on, and with publish the lane's cursor shows it. */
  lemma ReleaseTakes(s: State, c: nat, publish: bool)
    requires Inv(s) && c < |s.consumers| && s.consumers[c].reader.Reading?
    ensures var k, t := s.consumers[c], Next(s, Release(c, publish));
            && Inv(t) && k.reader.lane < |s.lanes| && k.schedule.remaining > 0 &&
            var lane, lane' := s.lanes[k.reader.lane], t.lanes[k.reader.lane];
            && lane.consumers[c].reader.Reading?
            && t.consumers[c] == Consumer(L.Released(k.schedule, k.reader.lane, |s.lanes|), Idle,
                                          k.stream + [Item(k.reader.lane, lane.consumers[c].reader.copy)])
            && lane'.consumers[c].consumed == lane.consumers[c].consumed + 1
            && lane'.cursors[c] == if publish then lane'.consumers[c].consumed else lane.cursors[c]
  {
    hide F.Inv, From;
    assert ConsumerOk(s, c) && LaneOk(s, c, s.consumers[c].reader.lane);
    ReleaseKeepsInv(s, c, publish);
  }

  /** The same events of one lane's producer. */
  function Producing(p: nat, events: seq<F.Event>): (produced: seq<Event>)
    ensures |produced| == |events|
  {
    if events == [] then [] else [Produce(p, events[0])] + Producing(p, events[1..])
  }

  /** A lane's producer drives its lane as it would a ring of its own. */
  lemma {:induction false} ProducesAlone(s: State, p: nat, events: seq<F.Event>)
    requires Shape(s) && p < |s.lanes| && forall i :: 0 <= i < |events| ==> ProducerEvent(events[i])
    ensures Run(s, Producing(p, events)) == s.(lanes := s.lanes[p := F.Run(s.lanes[p], events)])
    decreases |events|
  {
    hide F.Next;
    if events == [] {
      assert s.lanes[p := s.lanes[p]] == s.lanes;
    } else {
      var t := Next(s, Produce(p, events[0]));
      assert Producing(p, events)[1..] == Producing(p, events[1..]);
      ProducesAlone(t, p, events[1..]);
      assert t.lanes[p := F.Run(t.lanes[p], events[1..])] == s.lanes[p := F.Run(s.lanes[p], events)];
    }
  }

  /** try_push on a lane: the claim with its loads, the writes and the commit. */
  function Pushing(lane: F.Ring, message: seq<int>): seq<F.Event>
    requires |message| == lane.words
  {
    F.Claiming(|lane.cursors|) + (F.WriteAll(message, lane.words) + [F.Commit])
  }

  lemma PushingIsProducer(lane: F.Ring, message: seq<int>)
    requires |message| == lane.words
    ensures forall i :: 0 <= i < |Pushing(lane, message)| ==> ProducerEvent(Pushing(lane, message)[i])
  {
  }

  /** An undisturbed try_push on lane p commits exactly that message on that lane if every consumer's
      published cursor leaves room there, and nothing anywhere otherwise. */
  lemma PushCommitsIff(s: State, p: nat, message: seq<int>)
    requires Inv(s) && p < |s.lanes| && |message| == s.lanes[p].words
    requires s.lanes[p].producer.Idle? && s.lanes[p].published < W.TWO64
    ensures var t := Run(s, Producing(p, Pushing(s.lanes[p], message)));
            && t.consumers == s.consumers && |t.lanes| == |s.lanes|
            && (forall q :: 0 <= q < |s.lanes| && q != p ==> t.lanes[q] == s.lanes[q])
            && t.lanes[p].history ==
                 if F.RoomFrom(s.lanes[p], 0) then s.lanes[p].history + [message] else s.lanes[p].history
  {
    hide F.Inv, F.Run, F.Next, Run;
    var lane := s.lanes[p];
    PushingIsProducer(lane, message);
    ProducesAlone(s, p, Pushing(lane, message));
    F.TryPushCommitsIff(lane, message);
    F.RunConcat(lane, F.Claiming(|lane.cursors|), F.WriteAll(message, lane.words) + [F.Commit]);
    F.RunAppend(F.Run(lane, F.Claiming(|lane.cursors|)), F.WriteAll(message, lane.words), F.Commit);
  }

  function Copies(c: nat, n: nat): seq<Event> {
    if n == 0 then [] else [Copy(c)] + Copies(c, n - 1)
  }

  /** Copying a read to its end has the whole message, as committed. */
  lemma {:induction false} CopiesWhole(s: State, c: nat, n: nat)
    requires Inv(s) && c < |s.consumers| && s.consumers[c].reader.Reading?
    requires s.consumers[c].reader.lane < |s.lanes|
    requires var lane := s.lanes[s.consumers[c].reader.lane];
             lane.consumers[c].reader.Reading? && |lane.consumers[c].reader.copy| + n == lane.words
    ensures var lane, t := s.consumers[c].reader.lane, Run(s, Copies(c, n));
            && Inv(t) && t.consumers == s.consumers && |t.lanes| == |s.lanes|
            && t.lanes[lane].history == s.lanes[lane].history && t.lanes[lane].consumers[c].reader.Reading?
            && t.lanes[lane].consumers[c].consumed == s.lanes[lane].consumers[c].consumed < |t.lanes[lane].history|
            && t.lanes[lane].consumers[c].reader.copy == t.lanes[lane].history[s.lanes[lane].consumers[c].consumed]
    decreases n
  {
    hide F.Inv, F.Next, From, ConsumerOk;
    var p := s.consumers[c].reader.lane;
    LaneCopy(s.lanes[p], c);
    if n > 0 {
      var t := Next(s, Copy(c));
      CopyKeepsInv(s, c);
      assert Copies(c, n)[1..] == Copies(c, n - 1);
      CopiesWhole(t, c, n - 1);
    }
  }

  /** One word of a lane's read. */
  lemma LaneCopy(r: F.Ring, c: nat)
    requires F.Inv(r) && c < |r.consumers| && r.consumers[c].reader.Reading?
    ensures r.Capacity() > 0 && |r.consumers| == |r.cursors|
    ensures var k := r.consumers[c];
            && k.consumed < |r.history| && |k.reader.copy| <= r.words
            && (|k.reader.copy| == r.words ==> k.reader.copy == r.history[k.consumed])
    ensures var k, t := r.consumers[c], F.Next(r, F.CopyWord(c));
            |k.reader.copy| < r.words ==>
              && t.words == r.words && t.history == r.history && |t.consumers| == |r.consumers|
              && t.consumers[c].reader.Reading? && t.consumers[c].consumed == k.consumed
              && |t.consumers[c].reader.copy| == |k.reader.copy| + 1
  {
    F.ReadIsWhole(r, c);
    F.ReadIsUntorn(r, c);
    F.ReadPrefix(r, c);
  }

  /** A flush between reads shows the lane's producer everything this consumer has taken from it. */
  lemma FlushShows(s: State, c: nat, p: nat)
    requires Inv(s) && c < |s.consumers| && p < |s.lanes| && s.consumers[c].reader.Idle?
    ensures var t := Next(s, Flush(c, p));
            && t.consumers == s.consumers && |t.lanes| == |s.lanes|
            && |t.lanes[p].cursors| == |s.consumers| && t.lanes[p].consumers == s.lanes[p].consumers
            && t.lanes[p].cursors[c] == s.lanes[p].consumers[c].consumed
  {
    hide F.Inv, From;
    assert ConsumerOk(s, c) && LaneOk(s, c, p);
  }

  /** try_pop with no one in between delivers the next message of the first ready lane, whole, and shows
      it in that lane's cursor. */
  lemma PopDelivers(s: State, c: nat)
    requires Inv(s) && c < |s.consumers| && s.consumers[c].reader.Idle?
    requires exists p :: 0 <= p < |s.lanes| && F.Readable(s.lanes[p], c)
    ensures var u := Run(Next(s, Begin(c)), Scans(c, |s.lanes| + 1));
            c < |u.consumers| && u.consumers[c].reader.Reading? && u.consumers[c].reader.lane < |s.lanes| &&
            var lane := u.consumers[c].reader.lane;
            var t := Next(Run(u, Copies(c, s.lanes[lane].words)), Release(c, true));
            && F.Readable(s.lanes[lane], c) && s.lanes[lane].consumers[c].consumed < |s.lanes[lane].history|
            && Inv(t) && t.consumers[c].reader.Idle?
            && t.consumers[c].stream == s.consumers[c].stream
                 + [Item(lane, s.lanes[lane].history[s.lanes[lane].consumers[c].consumed])]
            && t.lanes[lane].cursors[c] == s.lanes[lane].consumers[c].consumed + 1
  {
    hide F.Inv, F.Next, F.Readable, From, Run, Next, ConsumerOk;
    TryReadFinds(s, c);
    var u := Run(Next(s, Begin(c)), Scans(c, |s.lanes| + 1));
    var lane := u.consumers[c].reader.lane;
    LaneTakenUp(s, u, c);
    CopiesWhole(u, c, s.lanes[lane].words);
    ReleaseTakes(Run(u, Copies(c, s.lanes[lane].words)), c, true);
  }

  /** The lane that was found, with its read taken up. */
  lemma LaneTakenUp(s: State, t: State, c: nat)
    requires Inv(s) && Inv(t) && c < |s.consumers| == |t.consumers| && s.consumers[c].reader.Idle?
    requires Found(s, c, 0, t) && t.consumers[c].reader.Reading?
    ensures var lane := t.consumers[c].reader.lane;
            && lane < |s.lanes| == |t.lanes| && F.Readable(s.lanes[lane], c)
            && t.consumers[c].stream == s.consumers[c].stream
            && t.lanes[lane].history == s.lanes[lane].history && t.lanes[lane].words == s.lanes[lane].words
            && t.lanes[lane].consumers[c].reader == F.Reading([])
            && t.lanes[lane].consumers[c].consumed == s.lanes[lane].consumers[c].consumed
  {
    hide F.Inv, From;
    var lane := t.consumers[c].reader.lane;
    assert ConsumerOk(s, c) && LaneOk(s, c, lane);
  }
}
