/** The one-producer broadcast ring of src/core/ring/fast_spmc_ring.hpp as a state machine over
    every interleaving of the producer with N consumers. One event is one access to shared memory:
    one cursor loaded, one payload word written or copied, one sequence word stored or loaded. */
module FanoutRing {
  import opened Words

  datatype Slot = Slot(sequence: nat, payload: seq<int>)

  /** Where the producer is: outside try_claim and commit, at the i-th cursor of load_slowest with
      the least value so far, or holding a claim. */
  datatype Producer = Idle | Scanning(next: nat, least: int) | Claimed

  /** Whether a consumer holds a read, and the words its copy has taken so far. */
  datatype Reader = Free | Reading(copy: seq<int>)

  /** Delivered are the words it had copied of each message when it released it: all of them, or
      fewer if it did not look at the rest. */
  datatype Consumer = Consumer(consumed: nat, reader: Reader, delivered: seq<seq<int>>)

  datatype Ring = Ring(
    words: nat,
    slots: seq<Slot>,
    cursors: seq<nat>,
    published: nat,
    slowest: int,
    producer: Producer,
    consumers: seq<Consumer>,
    history: seq<seq<int>>)
  {
    function Capacity(): nat {
      |slots|
    }

    predicate Room(cursor: int) {
      published - cursor < Capacity()
    }
  }

  datatype Event =
    | StartClaim
    | LoadCursor
    | WriteWord(index: nat, value: int)
    | Commit
    | TryRead(consumer: nat)
    | CopyWord(consumer: nat)
    | Release(consumer: nat, publish: bool)
    | Flush(consumer: nat)

  /** A fresh ring: storage zeroed, every position zero. */
  predicate Fresh(r: Ring) {
    && r.Capacity() > 0 && |r.consumers| == |r.cursors| > 0
    && (forall i :: 0 <= i < |r.slots| ==> r.slots[i].sequence == 0 && |r.slots[i].payload| == r.words)
    && (forall c :: 0 <= c < |r.cursors| ==> r.cursors[c] == 0)
    && (forall c :: 0 <= c < |r.consumers| ==> r.consumers[c] == Consumer(0, Free, []))
    && r.published == 0 && r.slowest == 0 && r.producer == Idle && r.history == []
  }

  /** One event. An event that its process cannot take now (a refused call) changes nothing. */
  function Next(r: Ring, e: Event): (t: Ring)
    requires r.Capacity() > 0 && |r.consumers| == |r.cursors|
    ensures t.Capacity() == r.Capacity() && |t.consumers| == |t.cursors| == |r.consumers|
  {
    match e
    case StartClaim =>
      if !r.producer.Idle? then r
      else if r.Room(r.slowest) then r.(producer := Claimed)
      else r.(producer := Scanning(0, TWO64 - 1))
    case LoadCursor =>
      if r.producer.Scanning? then LoadNext(r, r.producer.next, r.producer.least) else r
    case WriteWord(index, value) =>
      var i := r.published % r.Capacity();
      if r.producer.Claimed? && index < |r.slots[i].payload|
      then r.(slots := r.slots[i := r.slots[i].(payload := r.slots[i].payload[index := value])])
      else r
    case Commit =>
      var i := r.published % r.Capacity();
      if r.producer.Claimed?
      then r.(slots := r.slots[i := r.slots[i].(sequence := r.published + 1)], published := r.published + 1,
              producer := Idle, history := r.history + [r.slots[i].payload])
      else r
    case TryRead(c) =>
      if c < |r.consumers| && r.consumers[c].reader.Free? && Readable(r, c)
      then r.(consumers := r.consumers[c := r.consumers[c].(reader := Reading([]))])
      else r
    case CopyWord(c) =>
      if c < |r.consumers| && r.consumers[c].reader.Reading? && |r.consumers[c].reader.copy| < |Span(r, c)|
      then
        var copy := r.consumers[c].reader.copy;
        r.(consumers := r.consumers[c := r.consumers[c].(reader := Reading(copy + [Span(r, c)[|copy|]]))])
      else r
    case Release(c, publish) =>
      if c < |r.consumers| && r.consumers[c].reader.Reading?
      then
        var k := r.consumers[c];
        var k' := Consumer(k.consumed + 1, Free, k.delivered + [k.reader.copy]);
        r.(consumers := r.consumers[c := k'],
           cursors := if publish then r.cursors[c := k'.consumed] else r.cursors)
      else r
    case Flush(c) =>
      if c < |r.consumers| && r.consumers[c].reader.Free?
      then r.(cursors := r.cursors[c := r.consumers[c].consumed])
      else r
  }

  /** load_slowest reads one more cursor, or ends with the answer of try_claim. */
  function LoadNext(r: Ring, next: nat, least: int): Ring {
    if next < |r.cursors| then r.(producer := Scanning(next + 1, Min(least, r.cursors[next])))
    else if r.Room(least) then r.(slowest := least, producer := Claimed)
    else r.(slowest := least, producer := Idle)
  }

  /** The test of try_read on the next slot's sequence word. */
  predicate Readable(r: Ring, c: nat)
    requires r.Capacity() > 0 && c < |r.consumers|
  {
    var k := r.consumers[c].consumed;
    r.slots[k % r.Capacity()].sequence == k + 1
  }

  /** The payload bytes a consumer's outstanding read points at. */
  function Span(r: Ring, c: nat): seq<int>
    requires r.Capacity() > 0 && c < |r.consumers|
  {
    r.slots[r.consumers[c].consumed % r.Capacity()].payload
  }

  // ---------------------------------------------------------------- the invariant

  predicate Shape(r: Ring) {
    && r.Capacity() > 0 && |r.consumers| == |r.cursors| > 0
    && |r.history| == r.published
    && (forall p :: 0 <= p < |r.history| ==> |r.history[p]| == r.words)
    && forall i :: 0 <= i < |r.slots| ==> |r.slots[i].payload| == r.words && r.slots[i].sequence <= r.published
  }

  /** Every position from the producer's cached slowest cursor up still sits in its slot. */
  predicate Kept(r: Ring)
    requires Shape(r)
  {
    forall p: nat :: r.slowest <= p < r.published ==> r.slots[p % r.Capacity()] == Slot(p + 1, r.history[p])
  }

  /** Of each message, in order, the words up to some point. */
  predicate Beginnings(taken: seq<seq<int>>, sent: seq<seq<int>>) {
    |taken| <= |sent| && forall i :: 0 <= i < |taken| ==> taken[i] <= sent[i]
  }

  predicate ConsumerOk(r: Ring, c: nat)
    requires Shape(r) && c < |r.consumers|
  {
    var k := r.consumers[c];
    && 0 <= r.slowest <= r.cursors[c] <= k.consumed <= r.published
    && |k.delivered| == k.consumed && Beginnings(k.delivered, r.history)
    && (k.reader.Reading? ==> k.consumed < r.published && k.reader.copy <= r.history[k.consumed])
  }

  predicate ProducerOk(r: Ring)
    requires Shape(r)
  {
    && r.published - r.slowest <= r.Capacity() && r.slowest < TWO64
    && match r.producer
       case Idle => true
       case Claimed => r.Room(r.slowest)
       case Scanning(next, least) =>
         next <= |r.cursors| && 0 <= r.slowest <= least < TWO64 && forall c :: 0 <= c < next ==> least <= r.cursors[c]
  }

  predicate Inv(r: Ring) {
    && Shape(r) && Kept(r) && ProducerOk(r)
    && forall c :: 0 <= c < |r.consumers| ==> ConsumerOk(r, c)
  }

  lemma FreshInv(r: Ring)
    requires Fresh(r)
    ensures Inv(r)
  {
  }

  /** Overwriting the slot the producer owns leaves every kept position alone. */
  lemma KeptOutsideOwnSlot(r: Ring, slot: Slot)
    requires Shape(r) && Kept(r) && r.Room(r.slowest) && r.slowest >= 0
    ensures forall p: nat :: r.slowest <= p < r.published ==>
              r.slots[r.published % r.Capacity() := slot][p % r.Capacity()] == Slot(p + 1, r.history[p])
  {
    forall p: nat | r.slowest <= p < r.published
      ensures r.slots[r.published % r.Capacity() := slot][p % r.Capacity()] == Slot(p + 1, r.history[p])
    {
      DistinctCells(p, r.published, r.Capacity());
    }
  }

  lemma WriteKeepsInv(r: Ring, index: nat, value: int)
    requires Inv(r)
    ensures Inv(Next(r, WriteWord(index, value)))
  {
    var i := r.published % r.Capacity();
    if r.producer.Claimed? && index < |r.slots[i].payload| {
      assert ConsumerOk(r, 0);
      KeptOutsideOwnSlot(r, r.slots[i].(payload := r.slots[i].payload[index := value]));
      ConsumersUnmoved(r, Next(r, WriteWord(index, value)));
    }
  }

  lemma CommitKeepsInv(r: Ring)
    requires Inv(r)
    ensures Inv(Next(r, Commit))
  {
    if r.producer.Claimed? {
      var t := Next(r, Commit);
      assert ConsumerOk(r, 0);
      var i := r.published % r.Capacity();
      KeptOutsideOwnSlot(r, r.slots[i].(sequence := r.published + 1));
      ConsumersUnmoved(r, t);
    }
  }

  /** What the producer does to the slots and the history does not disturb the consumers. */
  lemma ConsumersUnmoved(r: Ring, t: Ring)
    requires Shape(r) && Shape(t) && forall c :: 0 <= c < |r.consumers| ==> ConsumerOk(r, c)
    requires t.consumers == r.consumers && t.cursors == r.cursors && t.slowest == r.slowest && t.words == r.words
    requires r.history <= t.history
    ensures forall c :: 0 <= c < |t.consumers| ==> ConsumerOk(t, c)
  {
    forall c | 0 <= c < |t.consumers| ensures ConsumerOk(t, c) {
      assert ConsumerOk(r, c);
    }
  }

  /** A newer cache asks for no more. */
  lemma KeptAbove(r: Ring, t: Ring)
    requires Shape(r) && Kept(r) && t == r.(slowest := t.slowest, producer := t.producer) && t.slowest >= r.slowest
    ensures Kept(t)
  {
  }

  lemma LoadKeepsInv(r: Ring)
    requires Inv(r)
    ensures Inv(Next(r, LoadCursor))
  {
    hide Kept, ConsumerOk;
    if r.producer.Scanning? {
      var t := Next(r, LoadCursor);
      KeptAbove(r, t);
      CursorsAbove(r);
      ConsumersAbove(r, t);
    }
  }

  lemma CursorsAbove(r: Ring)
    requires Inv(r)
    ensures r.slowest >= 0 && forall c :: 0 <= c < |r.cursors| ==> r.slowest <= r.cursors[c]
  {
    assert ConsumerOk(r, 0);
    forall c | 0 <= c < |r.cursors| ensures r.slowest <= r.cursors[c] {
      assert ConsumerOk(r, c);
    }
  }

  lemma ConsumersAbove(r: Ring, t: Ring)
    requires Shape(r) && t == r.(slowest := t.slowest, producer := t.producer)
    requires forall c :: 0 <= c < |r.consumers| ==> ConsumerOk(r, c)
    requires t.slowest >= 0 && forall c :: 0 <= c < |r.cursors| ==> t.slowest <= r.cursors[c]
    ensures Shape(t) && forall c :: 0 <= c < |t.consumers| ==> ConsumerOk(t, c)
  {
    forall c | 0 <= c < |t.consumers| ensures ConsumerOk(t, c) {
      assert ConsumerOk(r, c);
    }
  }

  /** One consumer moves on, and its cursor with it or not. */
  lemma OneConsumerMoves(r: Ring, c: nat, k: Consumer, cursor: nat)
    requires Inv(r) && c < |r.consumers| && cursor >= r.cursors[c]
    requires var t := r.(consumers := r.consumers[c := k], cursors := r.cursors[c := cursor]);
             Shape(t) && ConsumerOk(t, c)
    ensures Inv(r.(consumers := r.consumers[c := k], cursors := r.cursors[c := cursor]))
  {
    var t := r.(consumers := r.consumers[c := k], cursors := r.cursors[c := cursor]);
    forall d | 0 <= d < |t.consumers| ensures ConsumerOk(t, d) {
      assert ConsumerOk(r, d);
    }
  }

  lemma TryReadKeepsInv(r: Ring, c: nat)
    requires Inv(r) && c < |r.consumers|
    ensures Inv(Next(r, TryRead(c)))
  {
    if r.consumers[c].reader.Free? && Readable(r, c) {
      assert ConsumerOk(r, c);
      ReadableIff(r, c);
      ReadableSlot(r, c);
      assert r.cursors == r.cursors[c := r.cursors[c]];
      OneConsumerMoves(r, c, r.consumers[c].(reader := Reading([])), r.cursors[c]);
    }
  }

  lemma CopyKeepsInv(r: Ring, c: nat)
    requires Inv(r) && c < |r.consumers|
    ensures Inv(Next(r, CopyWord(c)))
  {
    var k := r.consumers[c];
    if k.reader.Reading? && |k.reader.copy| < |Span(r, c)| {
      assert ConsumerOk(r, c);
      ReadIsUntorn(r, c);
      var copy := k.reader.copy + [Span(r, c)[|k.reader.copy|]];
      assert copy <= r.history[k.consumed];
      assert r.cursors == r.cursors[c := r.cursors[c]];
      OneConsumerMoves(r, c, k.(reader := Reading(copy)), r.cursors[c]);
    }
  }

  lemma ReleaseKeepsInv(r: Ring, c: nat, publish: bool)
    requires Inv(r) && c < |r.consumers|
    ensures Inv(Next(r, Release(c, publish)))
  {
    var k := r.consumers[c];
    if k.reader.Reading? {
      assert ConsumerOk(r, c);
      var k' := Consumer(k.consumed + 1, Free, k.delivered + [k.reader.copy]);
      var cursor := if publish then k'.consumed else r.cursors[c];
      assert r.cursors == r.cursors[c := r.cursors[c]];
      OneConsumerMoves(r, c, k', cursor);
    }
  }

  lemma FlushKeepsInv(r: Ring, c: nat)
    requires Inv(r) && c < |r.consumers|
    ensures Inv(Next(r, Flush(c)))
  {
    var k := r.consumers[c];
    if k.reader.Free? {
      assert ConsumerOk(r, c);
      assert r.consumers == r.consumers[c := k];
      OneConsumerMoves(r, c, k, k.consumed);
    }
  }

  lemma StepKeepsInv(r: Ring, e: Event)
    requires Inv(r)
    ensures Inv(Next(r, e))
  {
    match e
    case StartClaim => StartKeepsInv(r);
    case LoadCursor => LoadKeepsInv(r);
    case WriteWord(index, value) => WriteKeepsInv(r, index, value);
    case Commit => CommitKeepsInv(r);
    case TryRead(c) => if c < |r.consumers| { TryReadKeepsInv(r, c); }
    case CopyWord(c) => if c < |r.consumers| { CopyKeepsInv(r, c); }
    case Release(c, publish) => if c < |r.consumers| { ReleaseKeepsInv(r, c, publish); }
    case Flush(c) => if c < |r.consumers| { FlushKeepsInv(r, c); }
  }

  lemma StartKeepsInv(r: Ring)
    requires Inv(r)
    ensures Inv(Next(r, StartClaim))
  {
    assert ConsumerOk(r, 0);
    ConsumersUnmoved(r, Next(r, StartClaim));
  }

  /** The slot an unread message sits in. */
  lemma ReadableSlot(r: Ring, c: nat)
    requires Inv(r) && c < |r.consumers| && r.consumers[c].consumed < r.published
    ensures var k := r.consumers[c].consumed; r.slots[k % r.Capacity()] == Slot(k + 1, r.history[k])
    ensures |r.history[r.consumers[c].consumed]| == r.words
  {
    assert ConsumerOk(r, c);
  }

  /** try_read answers Empty exactly when the consumer has taken everything committed: it neither
      misses a message nor takes an old lap's slot for a new one. */
  lemma ReadableIff(r: Ring, c: nat)
    requires Inv(r) && c < |r.consumers|
    ensures Readable(r, c) <==> r.consumers[c].consumed < r.published
  {
    assert ConsumerOk(r, c);
  }

  /** And a message that is there to be read stays there until this consumer releases it. */
  lemma UnreadStaysReadable(r: Ring, c: nat, e: Event)
    requires Inv(r) && c < |r.consumers| && Readable(r, c)
    requires !(e.Release? && e.consumer == c)
    ensures c < |Next(r, e).consumers| && Next(r, e).Capacity() > 0 && Readable(Next(r, e), c)
  {
    hide Kept, ProducerOk, Readable;
    StepKeepsInv(r, e);
    ReadableIff(r, c);
    ReadableIff(Next(r, e), c);
  }

  /** While a consumer holds a read, the bytes it points at are the committed message, whatever the
      producer writes meanwhile. */
  lemma ReadIsUntorn(r: Ring, c: nat)
    requires Inv(r) && c < |r.consumers| && r.consumers[c].reader.Reading?
    ensures r.consumers[c].consumed < r.published && Span(r, c) == r.history[r.consumers[c].consumed]
  {
    assert ConsumerOk(r, c);
  }

  function Run(r: Ring, events: seq<Event>): (t: Ring)
    requires r.Capacity() > 0 && |r.consumers| == |r.cursors|
    ensures t.Capacity() == r.Capacity() && |t.consumers| == |t.cursors| == |r.consumers|
    decreases |events|
  {
    if events == [] then r else Run(Next(r, events[0]), events[1..])
  }

  lemma {:induction false} RunKeepsInv(r: Ring, events: seq<Event>)
    requires Inv(r)
    ensures Inv(Run(r, events))
    decreases |events|
  {
    if events != [] {
      StepKeepsInv(r, events[0]);
      RunKeepsInv(Next(r, events[0]), events[1..]);
    }
  }

  /** Over every run, every consumer has received a prefix of everything committed: each message
      exactly once and in order, whole if it copied it to the end and otherwise the words it copied.
      And the producer is never more than a lap ahead of anyone. */
  lemma EveryRunDeliversPrefixes(r: Ring, events: seq<Event>)
    requires Fresh(r)
    ensures var t := Run(r, events);
            && |t.consumers| == |t.cursors|
            && forall c :: 0 <= c < |t.consumers| ==>
                 && |t.consumers[c].delivered| == t.consumers[c].consumed
                 && Beginnings(t.consumers[c].delivered, t.history)
                 && (forall i :: 0 <= i < t.consumers[c].consumed && |t.consumers[c].delivered[i]| == t.words ==>
                       t.consumers[c].delivered[i] == t.history[i])
                 && t.cursors[c] <= t.consumers[c].consumed <= |t.history| <= t.cursors[c] + t.Capacity()
  {
    FreshInv(r);
    RunKeepsInv(r, events);
    var t := Run(r, events);
    forall c | 0 <= c < |t.consumers|
      ensures |t.consumers[c].delivered| == t.consumers[c].consumed
      ensures Beginnings(t.consumers[c].delivered, t.history)
      ensures forall i :: 0 <= i < t.consumers[c].consumed && |t.consumers[c].delivered[i]| == t.words ==>
                t.consumers[c].delivered[i] == t.history[i]
      ensures t.cursors[c] <= t.consumers[c].consumed <= |t.history| <= t.cursors[c] + t.Capacity()
    {
      assert ConsumerOk(t, c);
    }
  }

  lemma DeliveredIsPrefix(r: Ring, c: nat)
    requires Inv(r) && c < |r.consumers|
    ensures Beginnings(r.consumers[c].delivered, r.history)
    ensures |r.consumers[c].delivered| == r.consumers[c].consumed
    ensures forall p :: 0 <= p < |r.history| ==> |r.history[p]| == r.words
  {
    assert ConsumerOk(r, c);
  }

  // ---------------------------------------------------------------- the ring refines a broadcast queue

  /** What the ring stands for: everything sent, and what each consumer has received of it. */
  datatype Queue = Queue(sent: seq<seq<int>>, received: seq<seq<seq<int>>>)

  function Abstract(r: Ring): Queue {
    Queue(r.history, seq(|r.consumers|, c requires 0 <= c < |r.consumers| => r.consumers[c].delivered))
  }

  /** A message is sent, only while no receiver is a whole capacity behind. */
  predicate Sends(q: Queue, t: Queue, message: seq<int>, capacity: nat) {
    && t == q.(sent := q.sent + [message])
    && forall c :: 0 <= c < |q.received| ==> |q.sent| < |q.received[c]| + capacity
  }

  /** Receiver c takes the first n words of the first message it has not had. */
  predicate Receives(q: Queue, t: Queue, c: nat, n: nat) {
    && c < |q.received| && |q.received[c]| < |q.sent| && n <= |q.sent[|q.received[c]|]|
    && t == q.(received := q.received[c := q.received[c] + [q.sent[|q.received[c]|][..n]]])
  }

  /** The release succeeds: the consumer holds a read. */
  predicate Releases(r: Ring, e: Event)
    requires Shape(r)
  {
    e.Release? && e.consumer < |r.consumers| && r.consumers[e.consumer].reader.Reading?
  }

  /** Every commit of a claim sends the payload of its slot, every release that succeeds receives as
      many words of the next message as were copied, all if all were, and no other step of the ring
      does anything to the queue. */
  lemma StepRefinesQueue(r: Ring, e: Event)
    requires Inv(r)
    ensures var q, t := Abstract(r), Abstract(Next(r, e));
            if e.Commit? && r.producer.Claimed? then Sends(q, t, NextPayload(r), r.Capacity())
            else if Releases(r, e) then Receives(q, t, e.consumer, |r.consumers[e.consumer].reader.copy|)
            else q == t
  {
    var q, t := Abstract(r), Abstract(Next(r, e));
    if e.Commit? && r.producer.Claimed? {
      CommitIsSend(r);
    } else if Releases(r, e) {
      ReleaseIsReceive(r, e.consumer, e.publish);
    } else {
      hide Inv;
      assert t.received == q.received;
    }
  }

  lemma CommitIsSend(r: Ring)
    requires Inv(r) && r.producer.Claimed?
    ensures Sends(Abstract(r), Abstract(Next(r, Commit)), NextPayload(r), r.Capacity())
  {
    var q := Abstract(r);
    forall c | 0 <= c < |q.received| ensures |q.sent| < |q.received[c]| + r.Capacity() {
      assert ConsumerOk(r, c);
    }
  }

  lemma ReleaseIsReceive(r: Ring, c: nat, publish: bool)
    requires Inv(r) && c < |r.consumers| && r.consumers[c].reader.Reading?
    ensures Receives(Abstract(r), Abstract(Next(r, Release(c, publish))), c, |r.consumers[c].reader.copy|)
  {
    hide Kept, ProducerOk;
    assert ConsumerOk(r, c);
    var k := r.consumers[c];
    var q, t := Abstract(r), Abstract(Next(r, Release(c, publish)));
    assert k.reader.copy == r.history[k.consumed][..|k.reader.copy|];
    assert |q.received[c]| == k.consumed;
    assert t.received == q.received[c := k.delivered + [k.reader.copy]];
  }

  /** The payload of the slot the next commit will publish. */
  function NextPayload(r: Ring): seq<int>
    requires r.Capacity() > 0
  {
    r.slots[r.published % r.Capacity()].payload
  }

  /** Between claim and commit that payload is what the caller wrote into it and nothing else. */
  lemma OnlyTheWriterWrites(r: Ring, e: Event)
    requires Inv(r) && r.producer.Claimed? && !e.Commit?
    ensures var t := Next(r, e);
            && t.producer.Claimed? && (e.WriteWord? ==> t.consumers == r.consumers)
            && NextPayload(t) ==
                 if e.WriteWord? && e.index < r.words then NextPayload(r)[e.index := e.value] else NextPayload(r)
  {
    hide Kept, ConsumerOk, ProducerOk;
  }

  // ---------------------------------------------------------------- back-pressure

  /** The answer of the try_claim in progress: whether it got its claim. */
  datatype Answer = Pending | Granted | BackPressured

  function Outcome(r: Ring, events: seq<Event>): Answer
    requires r.Capacity() > 0 && |r.consumers| == |r.cursors|
    decreases |events|
  {
    match r.producer
    case Claimed => Granted
    case Idle => BackPressured
    case Scanning(_, _) => if events == [] then Pending else Outcome(Next(r, events[0]), events[1..])
  }

  /** The cursors, and the least one loaded so far, all leave room for one more message. */
  predicate RoomForAll(r: Ring) {
    && (forall c :: 0 <= c < |r.cursors| ==> r.Room(r.cursors[c]))
    && (r.producer.Scanning? ==> r.Room(r.producer.least))
  }

  lemma RoomPersists(r: Ring, e: Event)
    requires Inv(r) && r.producer.Scanning? && RoomForAll(r)
    ensures var t := Next(r, e); t.producer.Claimed? || (t.producer.Scanning? && RoomForAll(t))
  {
    hide Kept;
    if (e.Release? || e.Flush?) && e.consumer < |r.consumers| {
      assert ConsumerOk(r, e.consumer);
    }
  }

  lemma {:induction false} RoomIsGranted(r: Ring, events: seq<Event>)
    requires Inv(r) && r.producer.Scanning? && RoomForAll(r)
    ensures Outcome(r, events) != BackPressured
    decreases |events|
  {
    if events != [] {
      RoomPersists(r, events[0]);
      StepKeepsInv(r, events[0]);
      if Next(r, events[0]).producer.Scanning? {
        RoomIsGranted(Next(r, events[0]), events[1..]);
      }
    }
  }

  /** A claim is refused only if, when the call began, some published cursor was a whole capacity
      behind: a stale cache never refuses a claim, whatever the consumers do while the cursors are
      being loaded. */
  lemma BackPressureIsJustified(r: Ring, events: seq<Event>)
    requires Inv(r) && r.producer.Idle? && r.published < TWO64
    ensures Outcome(Next(r, StartClaim), events) == BackPressured ==>
              exists c :: 0 <= c < |r.cursors| && r.published >= r.cursors[c] + r.Capacity()
  {
    var t := Next(r, StartClaim);
    StepKeepsInv(r, StartClaim);
    if forall c :: 0 <= c < |r.cursors| ==> r.published < r.cursors[c] + r.Capacity() {
      if t.producer.Scanning? {
        RoomIsGranted(t, events);
      }
    }
  }

  /** And it is granted only when no consumer would lose a message by it: while a claim is held, every
      published cursor leaves room for one more message. */
  lemma GrantedHasRoom(r: Ring, c: nat)
    requires Inv(r) && r.producer.Claimed? && c < |r.cursors|
    ensures r.published < r.cursors[c] + r.Capacity()
  {
    assert ConsumerOk(r, c);
  }

  function Loads(events: seq<Event>): nat {
    if events == [] then 0 else (if events[0].LoadCursor? then 1 else 0) + Loads(events[1..])
  }

  /** try_claim never waits: it answers after at most one load a consumer and one test. */
  lemma {:induction false} ClaimAnswers(r: Ring, events: seq<Event>)
    requires Inv(r)
    requires r.producer.Scanning? ==> Loads(events) > |r.cursors| - r.producer.next
    ensures Outcome(r, events) != Pending
    decreases |events|
  {
    if r.producer.Scanning? && events != [] {
      ScanAdvances(r, events[0]);
      StepKeepsInv(r, events[0]);
      ClaimAnswers(Next(r, events[0]), events[1..]);
    }
  }

  lemma ScanAdvances(r: Ring, e: Event)
    requires Inv(r) && r.producer.Scanning?
    ensures var t := Next(r, e);
            && |t.cursors| == |r.cursors|
            && (!e.LoadCursor? ==> t.producer == r.producer)
            && (e.LoadCursor? && t.producer.Scanning? ==>
                  t.producer.next == r.producer.next + 1 <= |r.cursors|)
  {
  }

  /** Back-pressure ends: once every consumer has taken everything and flushed, and the producer
      calls again, it gets its claim. */
  lemma CaughtUpIsGranted(r: Ring, events: seq<Event>)
    requires Inv(r) && r.producer.Idle? && r.published < TWO64
    requires forall c :: 0 <= c < |r.consumers| ==>
               r.consumers[c].reader.Free? && r.consumers[c].consumed == r.published
    requires Loads(events) > |r.cursors|
    ensures var t := Run(r, FlushAll(|r.consumers|));
            Inv(t) && Outcome(Next(t, StartClaim), events) == Granted
  {
    hide Inv, Shape, Run, Next, Outcome, Loads;
    InvShape(r);
    FlushedAll(r, |r.consumers|);
    var t := Run(r, FlushAll(|r.consumers|));
    BackPressureIsJustified(t, events);
    StepKeepsInv(t, StartClaim);
    ClaimNeedsLoads(t);
    ClaimAnswers(Next(t, StartClaim), events);
  }

  lemma ClaimNeedsLoads(r: Ring)
    requires r.Capacity() > 0 && |r.consumers| == |r.cursors|
    ensures Next(r, StartClaim).producer.Scanning? && !r.producer.Scanning? ==>
              Next(r, StartClaim).producer.next == 0
  {
  }

  function FlushAll(n: nat): seq<Event> {
    seq(n, c requires 0 <= c => Flush(c))
  }

  lemma {:induction false} FlushedAll(r: Ring, n: nat)
    requires Inv(r) && n <= |r.consumers|
    requires forall c :: 0 <= c < |r.consumers| ==> r.consumers[c].reader.Free?
    ensures var t := Run(r, FlushAll(n));
            && Inv(t) && t.published == r.published && t.producer == r.producer && t.consumers == r.consumers
            && |t.slots| == |r.slots| && |t.cursors| == |r.cursors|
            && forall c :: 0 <= c < n ==> t.cursors[c] == r.consumers[c].consumed
  {
    hide Inv, Shape;
    if n == 0 {
      assert FlushAll(0) == [];
    } else {
      FlushedAll(r, n - 1);
      assert FlushAll(n) == FlushAll(n - 1) + [Flush(n - 1)];
      InvShape(r);
      RunAppend(r, FlushAll(n - 1), Flush(n - 1));
      StepKeepsInv(Run(r, FlushAll(n - 1)), Flush(n - 1));
    }
  }

  lemma InvShape(r: Ring)
    requires Inv(r)
    ensures r.Capacity() > 0 && |r.consumers| == |r.cursors| && |r.history| == r.published
  {
  }

  lemma {:induction false} RunAppend(r: Ring, first: seq<Event>, e: Event)
    requires r.Capacity() > 0 && |r.consumers| == |r.cursors|
    ensures Run(r, first + [e]) == Next(Run(r, first), e)
    decreases |first|
  {
    if first == [] {
      assert first + [e] == [e] && [e][1..] == [];
      assert Run(Next(r, e), []) == Next(r, e);
    } else {
      assert (first + [e])[1..] == first[1..] + [e];
      RunAppend(Next(r, first[0]), first[1..], e);
    }
  }

  lemma {:induction false} RunConcat(r: Ring, first: seq<Event>, rest: seq<Event>)
    requires r.Capacity() > 0 && |r.consumers| == |r.cursors|
    ensures Run(r, first + rest) == Run(Run(r, first), rest)
    decreases |first|
  {
    hide Next;
    if first == [] {
      assert first + rest == rest;
    } else {
      assert (first + rest)[1..] == first[1..] + rest;
      RunConcat(Next(r, first[0]), first[1..], rest);
    }
  }

  /** What a read has copied is the beginning of its message. */
  lemma ReadPrefix(r: Ring, c: nat)
    requires Inv(r) && c < |r.consumers| && r.consumers[c].reader.Reading?
    ensures r.consumers[c].consumed < |r.history|
    ensures r.consumers[c].reader.copy <= r.history[r.consumers[c].consumed]
    ensures |r.history[r.consumers[c].consumed]| == r.words
  {
    assert ConsumerOk(r, c);
  }

  // ---------------------------------------------------------------- try_push and try_pop

  function CopyAll(c: nat, n: nat): seq<Event> {
    seq(n, _ => CopyWord(c))
  }

  lemma {:induction false} CopiedAll(r: Ring, c: nat, n: nat)
    requires Inv(r) && c < |r.consumers| && r.consumers[c].reader == Reading([]) && n <= r.words
    ensures var t := Run(r, CopyAll(c, n));
            && Inv(t) && t.words == r.words && t.history == r.history && |t.consumers| == |r.consumers|
            && t.consumers[c].reader.Reading? && |t.consumers[c].reader.copy| == n
            && t.consumers[c].consumed == r.consumers[c].consumed
            && t.consumers[c].delivered == r.consumers[c].delivered
  {
    InvShape(r);
    if n == 0 {
      assert CopyAll(c, 0) == [];
    } else {
      hide Inv;
      CopiedAll(r, c, n - 1);
      var s := Run(r, CopyAll(c, n - 1));
      InvShape(s);
      ReadIsWhole(s, c);
      assert CopyAll(c, n) == CopyAll(c, n - 1) + [CopyWord(c)];
      RunAppend(r, CopyAll(c, n - 1), CopyWord(c));
      StepKeepsInv(s, CopyWord(c));
    }
  }

  lemma ReadIsWhole(r: Ring, c: nat)
    requires Inv(r) && c < |r.consumers| && r.consumers[c].reader.Reading?
    ensures |Span(r, c)| == r.words
  {
    ReadIsUntorn(r, c);
    assert ConsumerOk(r, c);
  }

  /** try_pop with a message there delivers that message and nothing else. */
  lemma TryPopDelivers(r: Ring, c: nat)
    requires Inv(r) && c < |r.consumers| && r.consumers[c].reader.Free? && r.consumers[c].consumed < r.published
    ensures r.Capacity() > 0 && |r.consumers| == |r.cursors| && r.consumers[c].consumed < |r.history|
    ensures var k := r.consumers[c].consumed;
            var t := Next(Run(Next(r, TryRead(c)), CopyAll(c, r.words)), Release(c, true));
            && Inv(t) && t.history == r.history
            && t.consumers[c] == Consumer(k + 1, Free, r.consumers[c].delivered + [r.history[k]])
            && t.cursors[c] == k + 1
  {
    InvShape(r);
    StepKeepsInv(r, TryRead(c));
    ReadableIff(r, c);
    var s := Next(r, TryRead(c));
    CopiedAll(s, c, r.words);
    ReleaseDelivers(Run(s, CopyAll(c, r.words)), c);
    hide Inv, Next, Run;
  }

  lemma ReleaseDelivers(r: Ring, c: nat)
    requires Inv(r) && c < |r.consumers| && r.consumers[c].reader.Reading?
    requires |r.consumers[c].reader.copy| == r.words
    ensures var k := r.consumers[c].consumed;
            var t := Next(r, Release(c, true));
            && Inv(t) && t.history == r.history && k < |r.history|
            && t.consumers[c] == Consumer(k + 1, Free, r.consumers[c].delivered + [r.history[k]])
            && t.cursors[c] == k + 1
  {
    StepKeepsInv(r, Release(c, true));
    assert ConsumerOk(r, c);
    assert r.consumers[c].reader.copy == r.history[r.consumers[c].consumed];
  }

  function WriteAll(message: seq<int>, n: nat): seq<Event>
    requires n <= |message|
  {
    seq(n, i requires 0 <= i < n && n <= |message| => WriteWord(i, message[i]))
  }

  lemma {:induction false} WroteAll(r: Ring, message: seq<int>, n: nat)
    requires Inv(r) && r.producer.Claimed? && |message| == r.words && n <= r.words
    ensures var t := Run(r, WriteAll(message, n));
            && Inv(t) && t.producer.Claimed? && t.words == r.words && t.history == r.history
            && t.consumers == r.consumers && |NextPayload(t)| == r.words && NextPayload(t)[..n] == message[..n]
  {
    hide Inv, Shape, Next, NextPayload;
    InvShape(r);
    if n == 0 {
      assert WriteAll(message, 0) == [];
      SlotIsWhole(r);
    } else {
      WroteAll(r, message, n - 1);
      var s, e := Run(r, WriteAll(message, n - 1)), WriteWord(n - 1, message[n - 1]);
      InvShape(s);
      assert WriteAll(message, n) == WriteAll(message, n - 1) + [e];
      RunAppend(r, WriteAll(message, n - 1), e);
      WriteStep(s, n - 1, message[n - 1]);
      OneMoreWord(NextPayload(s), message, n - 1);
    }
  }

  lemma SlotIsWhole(r: Ring)
    requires Inv(r)
    ensures r.Capacity() > 0 && |NextPayload(r)| == r.words
  {
    hide Kept, ConsumerOk, ProducerOk;
    assert r.published % r.Capacity() < |r.slots|;
  }

  lemma WriteStep(r: Ring, index: nat, value: int)
    requires Inv(r) && r.producer.Claimed? && index < r.words
    ensures r.Capacity() > 0 && |r.consumers| == |r.cursors|
    ensures var t := Next(r, WriteWord(index, value));
            && Inv(t) && t.producer.Claimed? && t.words == r.words && t.history == r.history
            && t.consumers == r.consumers && |NextPayload(r)| == r.words
            && NextPayload(t) == NextPayload(r)[index := value]
  {
    SlotIsWhole(r);
    WriteKeepsInv(r, index, value);
    hide Inv;
  }

  lemma OneMoreWord(words: seq<int>, message: seq<int>, n: nat)
    requires n < |message| == |words| && words[..n] == message[..n]
    ensures words[n := message[n]][..n + 1] == message[..n + 1]
  {
    var after := words[n := message[n]];
    assert after[..n + 1] == words[..n] + [message[n]];
  }

  /** A try_claim with no one in between: the call, and the loads that it may need. */
  function Claiming(consumers: nat): seq<Event> {
    [StartClaim] + LoadAll(consumers + 1)
  }

  function LoadAll(n: nat): seq<Event> {
    seq(n, _ => LoadCursor)
  }

  lemma LoadOne(r: Ring, n: nat)
    requires r.Capacity() > 0 && |r.consumers| == |r.cursors| && n > 0
    ensures Run(r, LoadAll(n)) == Run(Next(r, LoadCursor), LoadAll(n - 1))
  {
    hide Next;
    assert LoadAll(n)[1..] == LoadAll(n - 1) && LoadAll(n)[0] == LoadCursor;
  }

  /** Once the call has its answer, loads do nothing. */
  lemma {:induction false} LoadsDone(r: Ring, n: nat)
    requires r.Capacity() > 0 && |r.consumers| == |r.cursors| && !r.producer.Scanning?
    ensures Run(r, LoadAll(n)) == r
  {
    if n > 0 {
      LoadOne(r, n);
      LoadsDone(r, n - 1);
    } else {
      assert LoadAll(0) == [];
    }
  }

  /** The ring with only the producer's private state changed. */
  predicate SameButProducer(r: Ring, t: Ring) {
    t == r.(slowest := t.slowest, producer := t.producer)
  }

  /** The published cursors from this one on leave room for one more message. */
  predicate RoomFrom(r: Ring, next: nat) {
    forall c :: next <= c < |r.cursors| ==> r.Room(r.cursors[c])
  }

  lemma SameRoom(r: Ring, t: Ring)
    requires SameButProducer(r, t)
    ensures RoomFrom(t, 0) == RoomFrom(r, 0)
    ensures forall x: int :: t.Room(x) == r.Room(x)
  {
    assert forall c :: 0 <= c < |r.cursors| ==> t.Room(t.cursors[c]) == r.Room(r.cursors[c]);
  }

  /** The loads end with a claim exactly when the least cursor so far and all cursors to come leave room. */
  lemma {:induction false} ScanEnds(r: Ring)
    requires Inv(r) && r.producer.Scanning?
    ensures var t := Run(r, LoadAll(|r.cursors| - r.producer.next + 1));
            && SameButProducer(r, t)
            && t.producer == if r.Room(r.producer.least) && RoomFrom(r, r.producer.next) then Claimed else Idle
    decreases |r.cursors| - r.producer.next
  {
    hide Kept, ConsumerOk, Run;
    var n := |r.cursors| - r.producer.next + 1;
    LoadOne(r, n);
    StepKeepsInv(r, LoadCursor);
    var t := Next(r, LoadCursor);
    if t.producer.Scanning? {
      ScanEnds(t);
    } else {
      LoadsDone(t, n - 1);
    }
  }

  /** A try_claim is granted exactly when every published cursor leaves room, whatever the producer had
      cached, and touches nothing else. */
  lemma ClaimGrantedIff(r: Ring)
    requires Inv(r) && r.producer.Idle? && r.published < TWO64
    ensures r.Capacity() > 0 && |r.consumers| == |r.cursors|
    ensures var t := Run(r, Claiming(|r.cursors|));
            && Inv(t) && SameButProducer(r, t)
            && t.producer == if RoomFrom(r, 0) then Claimed else Idle
  {
    hide Inv, Next, Run, RoomFrom;
    InvShape(r);
    RunKeepsInv(r, Claiming(|r.cursors|));
    RunFirst(r, StartClaim, LoadAll(|r.cursors| + 1));
    StartAnswers(r);
    var t := Next(r, StartClaim);
    SameRoom(r, t);
    if t.producer.Scanning? {
      ScanEnds(t);
    } else {
      LoadsDone(t, |r.cursors| + 1);
    }
  }

  /** A claim for which the cached cursor leaves room needs no load. One that has to look caches the
      slowest cursor it saw, granted or not. */
  lemma CacheIsSlowest(r: Ring)
    requires Inv(r) && r.producer.Idle? && r.published < TWO64
    ensures r.Capacity() > 0 && |r.consumers| == |r.cursors|
    ensures r.Room(r.slowest) ==> Next(r, StartClaim) == r.(producer := Claimed)
    ensures !r.Room(r.slowest) ==>
              var t := Run(r, Claiming(|r.cursors|));
              && (forall c :: 0 <= c < |r.cursors| ==> t.slowest <= r.cursors[c])
              && exists c :: 0 <= c < |r.cursors| && t.slowest == r.cursors[c]
  {
    hide Inv, Run, Kept, ConsumerOk;
    InvShape(r);
    CursorsBelow(r);
    RunFirst(r, StartClaim, LoadAll(|r.cursors| + 1));
    if !r.Room(r.slowest) {
      var t := Next(r, StartClaim);
      StepKeepsInv(r, StartClaim);
      ScanCaches(t);
      var u := Run(t, LoadAll(|r.cursors| + 1));
      if u.slowest == TWO64 - 1 {
        assert u.slowest == r.cursors[0];
      }
    }
  }

  lemma CursorsBelow(r: Ring)
    requires Inv(r) && r.published < TWO64
    ensures |r.cursors| > 0 && forall c :: 0 <= c < |r.cursors| ==> r.cursors[c] <= TWO64 - 1
  {
    forall c | 0 <= c < |r.cursors| ensures r.cursors[c] <= TWO64 - 1 {
      assert ConsumerOk(r, c);
    }
  }

  lemma {:induction false} ScanCaches(r: Ring)
    requires r.Capacity() > 0 && |r.consumers| == |r.cursors| && r.producer.Scanning?
    requires r.producer.next <= |r.cursors|
    ensures var t := Run(r, LoadAll(|r.cursors| - r.producer.next + 1));
            && t.slowest <= r.producer.least
            && (forall c :: r.producer.next <= c < |r.cursors| ==> t.slowest <= r.cursors[c])
            && (t.slowest == r.producer.least
                || exists c :: r.producer.next <= c < |r.cursors| && t.slowest == r.cursors[c])
    decreases |r.cursors| - r.producer.next
  {
    hide Run;
    var n := |r.cursors| - r.producer.next + 1;
    LoadOne(r, n);
    var t := Next(r, LoadCursor);
    if t.producer.Scanning? {
      ScanCaches(t);
    } else {
      LoadsDone(t, n - 1);
    }
  }

  /** The call itself: granted on the cached cursor, which no cursor is behind, or else a scan. */
  lemma StartAnswers(r: Ring)
    requires Inv(r) && r.producer.Idle? && r.published < TWO64
    ensures r.Capacity() > 0 && |r.consumers| == |r.cursors|
    ensures var t := Next(r, StartClaim);
            && Inv(t) && SameButProducer(r, t)
            && if t.producer.Scanning? then t.producer == Scanning(0, TWO64 - 1) && r.Room(TWO64 - 1)
               else t.producer.Claimed? && RoomFrom(r, 0)
  {
    hide Kept;
    StepKeepsInv(r, StartClaim);
    forall c | 0 <= c < |r.cursors| ensures r.Room(r.slowest) ==> r.Room(r.cursors[c]) {
      assert ConsumerOk(r, c);
    }
  }

  lemma RunFirst(r: Ring, e: Event, events: seq<Event>)
    requires r.Capacity() > 0 && |r.consumers| == |r.cursors|
    ensures Run(r, [e] + events) == Run(Next(r, e), events)
  {
    hide Next;
    assert ([e] + events)[1..] == events;
  }

  /** Writes and a commit without a claim do nothing. */
  lemma {:induction false} NoClaimNoPush(r: Ring, message: seq<int>, n: nat)
    requires Inv(r) && r.producer.Idle? && n <= |message|
    ensures r.Capacity() > 0 && |r.consumers| == |r.cursors|
    ensures Run(r, WriteAll(message, n)) == r && Next(r, Commit) == r
  {
    InvShape(r);
    if n > 0 {
      NoClaimNoPush(r, message, n - 1);
      assert WriteAll(message, n) == WriteAll(message, n - 1) + [WriteWord(n - 1, message[n - 1])];
      RunAppend(r, WriteAll(message, n - 1), WriteWord(n - 1, message[n - 1]));
    } else {
      assert WriteAll(message, 0) == [];
    }
  }

  /** try_push commits exactly the message it was given if every published cursor leaves room, and
      nothing otherwise. */
  lemma TryPushCommitsIff(r: Ring, message: seq<int>)
    requires Inv(r) && r.producer.Idle? && r.published < TWO64 && |message| == r.words
    ensures r.Capacity() > 0 && |r.consumers| == |r.cursors|
    ensures var t := Next(Run(Run(r, Claiming(|r.cursors|)), WriteAll(message, r.words)), Commit);
            && Inv(t) && t.producer.Idle? && t.consumers == r.consumers
            && t.history == if RoomFrom(r, 0) then r.history + [message] else r.history
  {
    ClaimGrantedIff(r);
    var s := Run(r, Claiming(|r.cursors|));
    if s.producer.Claimed? {
      CommitsMessage(s, message);
    } else {
      NoClaimNoPush(s, message, r.words);
    }
    hide Inv, Next, Run;
  }

  lemma CommitsMessage(s: Ring, message: seq<int>)
    requires Inv(s) && s.producer.Claimed? && |message| == s.words
    ensures s.Capacity() > 0 && |s.consumers| == |s.cursors|
    ensures var t := Next(Run(s, WriteAll(message, s.words)), Commit);
            Inv(t) && t.producer.Idle? && t.history == s.history + [message] && t.consumers == s.consumers
  {
    hide Inv;
    InvShape(s);
    WroteAll(s, message, s.words);
    var u := Run(s, WriteAll(message, s.words));
    InvShape(u);
    StepKeepsInv(u, Commit);
    assert NextPayload(u) == NextPayload(u)[..s.words] == message[..s.words] == message;
  }
}
