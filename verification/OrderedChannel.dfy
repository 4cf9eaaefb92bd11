/** The totally ordered channel of src/core/channel/hybrid_mpsc.hpp: every producer has its own ring,
    all draw sequence numbers from one counter, and a consumer merges the rings by looking for the
    number it expects next in the frame headers, which hold only its low 24 bits. A state machine over
    every interleaving, down to the words in the rings' cells: one event is one load or store. */
module OrderedChannel {
  import opened Words
  import opened CommitWatermark
  import opened OrderedFrames

  /** What a consumer was given for one number: the ring and the position it points at, the length the
      header says, and the payload's words it has loaded from there so far. */
  datatype Delivery = Delivery(owner: nat, position: nat, length: nat, words: seq<nat>)

  /** One consumer: the number it expects, and per ring where it reads, the watermark it last saw
      and the position it has published back. */
  datatype Consumer = Consumer(
    expected: nat, read: seq<nat>, seen: seq<nat>, flushed: seq<nat>, delivered: seq<Delivery>)

  /** The words of each ring and the publication window in bytes, zero for none. */
  datatype Config = Config(producers: nat, consumers: nat, capacity: nat, window: nat) {
    /** What creation asks for besides its window test. */
    predicate Valid() {
      producers > 0 && consumers > 0 && capacity > 0
    }

    /** effective_capacity in whole words: claims are whole words, so a rest makes no difference. */
    function Limit(): (limit: nat)
      ensures limit <= capacity && (window == 0 ==> limit == capacity)
      ensures window > 0 ==> 8 * limit <= window && (limit == capacity || window < 8 * (limit + 1))
    {
      if window == 0 || 8 * capacity <= window then capacity else window / 8
    }

    /** What the other rings can hold in front of a frame is less than a period. */
    predicate LowBitsSuffice() {
      (producers - 1) * Limit() < PERIOD
    }
  }

  datatype State = State(
    frames: seq<Frame>,
    cells: seq<seq<nat>>,
    cached: seq<nat>,
    marks: seq<Mark>,
    consumers: seq<Consumer>)

  /** Refresh covers every interleaving of the loads of minimum_consumer_position: positions only
      grow, so whatever it read, in whatever order, is at most what each consumer has published.
      Write is the caller filling its claim, one word at a time, before it calls commit, whose two
      stores are StoreHeader and Commit. Load is the receiver looking at the next word of a message it
      was given, as long as it has not published that it is done with it. */
  datatype Event =
    | Refresh(q: nat, least: nat)
    | Claim(q: nat, length: nat)
    | Write(sequence: nat, word: nat, value: nat)
    | StoreHeader(sequence: nat)
    | Commit(sequence: nat)
    | Look(c: nat, q: nat)
    | Receive(c: nat, q: nat)
    | Load(c: nat, sequence: nat)
    | Flush(c: nat, q: nat)

  function Initial(g: Config): (s: State)
    requires g.Valid()
    ensures Shape(g, s)
  {
    State([], seq(g.producers, _ => seq(g.capacity, _ => 0)), Zeros(g), seq(g.producers, _ => Mark(0, [])),
          seq(g.consumers, _ => Consumer(0, Zeros(g), Zeros(g), Zeros(g), [])))
  }

  function Zeros(g: Config): seq<nat> {
    seq(g.producers, _ => 0)
  }

  predicate Shape(g: Config, s: State) {
    && g.Valid()
    && |s.cells| == |s.cached| == |s.marks| == g.producers
    && (forall q :: 0 <= q < g.producers ==> |s.cells[q]| == g.capacity)
    && |s.consumers| == g.consumers
    && (forall c :: 0 <= c < |s.consumers| ==>
          |s.consumers[c].read| == |s.consumers[c].seen| == |s.consumers[c].flushed| == g.producers)
    && forall i :: 0 <= i < |s.frames| ==> FrameOk(g, s.frames[i])
  }

  predicate FrameOk(g: Config, f: Frame) {
    && f.owner < g.producers && f.length < TWO32 && |f.payload| == f.Words() - 1 && f.Words() <= g.capacity
    && (f.committed ==> f.headed)
  }

  function Tail(s: State, q: nat): nat {
    WordsOf(s.frames, q, |s.frames|)
  }

  function Start(s: State, i: nat): nat
    requires i < |s.frames|
  {
    WordsOf(s.frames, s.frames[i].owner, i)
  }

  /** Words of a ring from a position on: the two mappings of the ring make them contiguous. */
  function Slice(cells: seq<nat>, from: nat, n: nat): (words: seq<nat>)
    requires |cells| > 0
    ensures |words| == n && forall k :: 0 <= k < n ==> words[k] == cells[(from + k) % |cells|]
  {
    seq(n, k requires 0 <= k && |cells| > 0 => cells[(from + k) % |cells|])
  }

  /** has_capacity, on the position the producer has cached. */
  predicate HasCapacity(limit: nat, tail: nat, head: nat, need: nat) {
    head <= tail && tail - head <= limit && need <= limit - (tail - head)
  }

  function Next(g: Config, s: State, e: Event): (t: State)
    requires Shape(g, s)
    ensures Shape(g, t)
  {
    match e
    case Refresh(q, least) =>
      if q < g.producers && s.cached[q] <= least
         && (forall c :: 0 <= c < |s.consumers| ==> least <= s.consumers[c].flushed[q])
      then s.(cached := s.cached[q := least]) else s
    case Claim(q, length) =>
      if q < g.producers && Claimable(g, s, q, length) then s.(frames := s.frames + [Claimed(g, s, q, length)])
      else s
    case Write(i, word, value) =>
      if i < |s.frames| && !s.frames[i].headed && word < |s.frames[i].payload| then WriteWord(g, s, i, word, value)
      else s
    case StoreHeader(i) => if i < |s.frames| && !s.frames[i].headed then HeadFrame(g, s, i) else s
    case Commit(i) =>
      if i < |s.frames| && s.frames[i].headed && !s.frames[i].committed then CommitFrame(g, s, i) else s
    case Look(c, q) =>
      if c < |s.consumers| && q < g.producers && s.consumers[c].seen[q] <= s.consumers[c].read[q]
      then
        var k := s.consumers[c];
        s.(consumers := s.consumers[c := k.(seen := k.seen[q := s.marks[q].published])])
      else s
    case Receive(c, q) =>
      if c < |s.consumers| && q < g.producers && Receivable(g, s, c, q)
      then s.(consumers := s.consumers[c := Received(g, s, c, q)]) else s
    case Load(c, i) =>
      if c < |s.consumers| && Loadable(g, s, c, i) then s.(consumers := s.consumers[c := Loaded(g, s, c, i)]) else s
    case Flush(c, q) =>
      if c < |s.consumers| && q < g.producers
      then
        var k := s.consumers[c];
        s.(consumers := s.consumers[c := k.(flushed := k.flushed[q := k.read[q]])])
      else s
  }

  predicate Claimable(g: Config, s: State, q: nat, length: nat)
    requires Shape(g, s) && q < g.producers
  {
    && length < TWO32 && FrameWords(length) <= g.capacity
    && HasCapacity(g.Limit(), Tail(s, q), s.cached[q], FrameWords(length))
  }

  /** A claim leaves the ring's words as they are. */
  function Claimed(g: Config, s: State, q: nat, length: nat): (f: Frame)
    requires Shape(g, s) && q < g.producers && Claimable(g, s, q, length)
    ensures FrameOk(g, f)
  {
    Frame(q, length, Slice(s.cells[q], Tail(s, q) + 1, FrameWords(length) - 1), false, false)
  }

  /** The cells after one word of ring q is stored. */
  function Stored(g: Config, s: State, q: nat, position: nat, value: nat): (cells: seq<seq<nat>>)
    requires Shape(g, s) && q < g.producers
    ensures |cells| == g.producers && forall p :: 0 <= p < |cells| ==> |cells[p]| == g.capacity
  {
    var ring: seq<nat> := s.cells[q][position % g.capacity := value];
    s.cells[q := ring]
  }

  function WriteWord(g: Config, s: State, i: nat, word: nat, value: nat): (t: State)
    requires Shape(g, s) && i < |s.frames| && word < |s.frames[i].payload|
    ensures Shape(g, t)
  {
    var f := s.frames[i];
    s.(frames := s.frames[i := f.(payload := f.payload[word := value])],
       cells := Stored(g, s, f.owner, Start(s, i) + 1 + word, value))
  }

  function HeadFrame(g: Config, s: State, i: nat): (t: State)
    requires Shape(g, s) && i < |s.frames|
    ensures Shape(g, t)
  {
    var f := s.frames[i];
    s.(frames := s.frames[i := f.(headed := true)],
       cells := Stored(g, s, f.owner, Start(s, i), Header(i, f.length)))
  }

  /** The watermark moves if it was waiting for this frame. */
  function CommitFrame(g: Config, s: State, i: nat): (t: State)
    requires Shape(g, s) && i < |s.frames| && s.frames[i].headed
    ensures Shape(g, t)
  {
    var f := s.frames[i];
    s.(frames := s.frames[i := f.(committed := true)],
       marks := s.marks[f.owner := Publish(s.marks[f.owner], Start(s, i), Start(s, i) + f.Words())])
  }

  /** The word where a consumer expects its next header of ring q. */
  function HeaderRead(g: Config, s: State, k: Consumer, q: nat): nat
    requires Shape(g, s) && q < g.producers && |k.read| == g.producers
  {
    s.cells[q][k.read[q] % g.capacity]
  }

  /** try_read_from_ring finds a frame below the watermark it has seen, with the low bits it wants. */
  predicate Receivable(g: Config, s: State, c: nat, q: nat)
    requires Shape(g, s) && c < |s.consumers| && q < g.producers
  {
    var k := s.consumers[c];
    var header := HeaderRead(g, s, k, q);
    var words := FrameWords(HeaderLength(header));
    && k.read[q] < k.seen[q] && HeaderLow(header) == Low(k.expected)
    && words <= g.capacity && k.read[q] + words <= k.seen[q]
  }

  /** The consumer takes that frame, as its header says, for the one it expects. */
  function Received(g: Config, s: State, c: nat, q: nat): (k: Consumer)
    requires Shape(g, s) && c < |s.consumers| && q < g.producers
    ensures |k.read| == |k.seen| == |k.flushed| == g.producers
  {
    var k := s.consumers[c];
    var length := HeaderLength(HeaderRead(g, s, k, q));
    var words := FrameWords(length);
    k.(expected := k.expected + 1, read := k.read[q := k.read[q] + words],
       delivered := k.delivered + [Delivery(q, k.read[q], length, [])])
  }

  /** There is a next word, in a message the consumer has not published that it is done with. */
  predicate Loadable(g: Config, s: State, c: nat, i: nat)
    requires Shape(g, s) && c < |s.consumers|
  {
    var k := s.consumers[c];
    && i < |k.delivered|
    && var d := k.delivered[i];
       d.owner < g.producers && k.flushed[d.owner] <= d.position && |d.words| < FrameWords(d.length) - 1
  }

  function Loaded(g: Config, s: State, c: nat, i: nat): (k: Consumer)
    requires Shape(g, s) && c < |s.consumers| && Loadable(g, s, c, i)
    ensures |k.read| == |k.seen| == |k.flushed| == g.producers
  {
    var k := s.consumers[c];
    var d := k.delivered[i];
    var word := s.cells[d.owner][(d.position + 1 + |d.words|) % g.capacity];
    k.(delivered := k.delivered[i := d.(words := d.words + [word])])
  }

  function Run(g: Config, s: State, events: seq<Event>): (t: State)
    requires Shape(g, s)
    ensures Shape(g, t)
    decreases |events|
  {
    if events == [] then s else Run(g, Next(g, s, events[0]), events[1..])
  }

  // ---------------------------------------------------------------- the invariant

  predicate RingOk(g: Config, s: State, q: nat)
    requires Shape(g, s) && q < g.producers
  {
    s.cached[q] <= Tail(s, q) <= s.cached[q] + g.Limit()
  }

  ghost predicate MarkOk(g: Config, s: State, q: nat)
    requires Shape(g, s) && q < g.producers
  {
    Marks(s.marks[q], Positions(s.frames, q, |s.frames|))
  }

  /** A frame's words are in its ring's cells. */
  predicate Kept(g: Config, s: State, i: nat)
    requires Shape(g, s) && i < |s.frames|
  {
    var f := s.frames[i];
    && (f.headed ==> s.cells[f.owner][Start(s, i) % g.capacity] == Header(i, f.length))
    && Slice(s.cells[f.owner], Start(s, i) + 1, |f.payload|) == f.payload
  }

  /** Every frame that some consumer may still have to read is. */
  predicate AllKept(g: Config, s: State)
    requires Shape(g, s)
  {
    forall i :: 0 <= i < |s.frames| && s.cached[s.frames[i].owner] <= Start(s, i) ==> Kept(g, s, i)
  }

  /** Where a consumer stands in one ring: at the end of what it has taken from it. */
  predicate ReadOk(g: Config, s: State, k: Consumer, q: nat)
    requires Shape(g, s) && q < g.producers && |k.read| == |k.seen| == |k.flushed| == g.producers
  {
    && k.expected <= |s.frames| && k.read[q] == WordsOf(s.frames, q, k.expected)
    && s.cached[q] <= k.flushed[q] <= k.read[q]
    && k.seen[q] <= s.marks[q].published && Boundary(s.frames, q, k.seen[q])
  }

  /** What it has been given: the frames 0, 1, ... in order, each committed, and of each the first
      words of its payload. */
  predicate DeliveredOk(s: State, k: Consumer) {
    && |k.delivered| == k.expected <= |s.frames|
    && forall i :: 0 <= i < k.expected ==> Faithful(s.frames[i], k.delivered[i])
  }

  predicate Faithful(f: Frame, d: Delivery) {
    f.committed && d.owner == f.owner && d.length == f.length && d.words <= f.payload
  }

  /** And it points at where they are. */
  predicate PlacedOk(s: State, k: Consumer) {
    && |k.delivered| <= |s.frames|
    && forall i :: 0 <= i < |k.delivered| ==> k.delivered[i].position == Start(s, i)
  }

  ghost predicate Inv(g: Config, s: State) {
    && Shape(g, s)
    && (forall q :: 0 <= q < g.producers ==> RingOk(g, s, q) && MarkOk(g, s, q))
    && AllKept(g, s)
    && forall c :: 0 <= c < |s.consumers| ==>
         && DeliveredOk(s, s.consumers[c]) && PlacedOk(s, s.consumers[c])
         && forall q :: 0 <= q < g.producers ==> ReadOk(g, s, s.consumers[c], q)
  }

  lemma InitialInv(g: Config)
    requires g.Valid()
    ensures Inv(g, Initial(g))
  {
    var s := Initial(g);
    forall q | 0 <= q < g.producers ensures MarkOk(g, s, q) {
      assert Positions(s.frames, q, 0) == {};
      assert s.marks[q] == Mark(0, []);
      NothingMarked();
    }
  }

  lemma NothingMarked()
    ensures Marks(Mark(0, []), {})
  {
  }

  lemma RefreshKeepsInv(g: Config, s: State, q: nat, least: nat)
    requires Inv(g, s)
    ensures Inv(g, Next(g, s, Refresh(q, least)))
  {
    hide Positions, WordsOf, Boundary, Kept;
    var t := Next(g, s, Refresh(q, least));
    if t != s {
      assert ReadOk(g, s, s.consumers[0], q);
      WordsGrow(s.frames, q, s.consumers[0].expected, |s.frames|);
      forall p | 0 <= p < g.producers ensures RingOk(g, t, p) && MarkOk(g, t, p) {
        assert RingOk(g, s, p) && MarkOk(g, s, p);
      }
      forall c, p | 0 <= c < |t.consumers| && 0 <= p < g.producers ensures ReadOk(g, t, t.consumers[c], p) {
        assert ReadOk(g, s, s.consumers[c], p);
      }
      RefreshKeepsKept(g, s, q, least);
    }
  }

  lemma RefreshKeepsKept(g: Config, s: State, q: nat, least: nat)
    requires Shape(g, s) && AllKept(g, s) && q < g.producers && s.cached[q] <= least
    ensures AllKept(g, s.(cached := s.cached[q := least]))
  {
    hide WordsOf, Header, Slice;
    var t := s.(cached := s.cached[q := least]);
    forall i | 0 <= i < |t.frames| && t.cached[t.frames[i].owner] <= Start(t, i) ensures Kept(g, t, i) {
      assert Kept(g, s, i);
    }
  }

  lemma ClaimKeepsInv(g: Config, s: State, q: nat, length: nat)
    requires Inv(g, s)
    ensures Inv(g, Next(g, s, Claim(q, length)))
  {
    hide Positions, WordsOf, Boundary, Kept;
    var t := Next(g, s, Claim(q, length));
    if t != s {
      var n, f := |s.frames|, Claimed(g, s, q, length);
      forall p | 0 <= p < g.producers ensures RingOk(g, t, p) && MarkOk(g, t, p) {
        assert RingOk(g, s, p) && MarkOk(g, s, p);
        ClaimAppends(s.frames, f, p);
      }
      forall c, p | 0 <= c < |t.consumers| && 0 <= p < g.producers ensures ReadOk(g, t, t.consumers[c], p) {
        assert ReadOk(g, s, s.consumers[c], p);
        assert MarkOk(g, s, p);
        WatermarkIsBoundary(s.frames, p, s.marks[p]);
        BoundaryAppends(s.frames, f, p, s.consumers[c].seen[p]);
        SameWords(s.frames, t.frames, p, s.consumers[c].expected);
      }
      forall c | 0 <= c < |t.consumers| ensures DeliveredOk(t, t.consumers[c]) && PlacedOk(t, t.consumers[c]) {
        assert DeliveredOk(s, s.consumers[c]);
        ClaimKeepsPlaces(s, t, s.consumers[c]);
      }
      ClaimKeepsKept(g, s, q, length);
    }
  }

  lemma ClaimAppends(frames: seq<Frame>, f: Frame, p: nat)
    requires !f.committed
    ensures var t := frames + [f];
            && WordsOf(t, p, |t|) == WordsOf(frames, p, |frames|) + (if f.owner == p then f.Words() else 0)
            && Positions(t, p, |t|) == Positions(frames, p, |frames|)
  {
    SameWords(frames, frames + [f], p, |frames|);
    SamePositions(frames, frames + [f], p, |frames|);
  }

  lemma BoundaryAppends(frames: seq<Frame>, f: Frame, p: nat, x: nat)
    requires Boundary(frames, p, x) && x <= WordsOf(frames, p, |frames|)
    ensures Boundary(frames + [f], p, x)
  {
    var t := frames + [f];
    forall i | 0 <= i < |t| && t[i].owner == p ensures x <= WordsOf(t, p, i) || WordsOf(t, p, i) + t[i].Words() <= x {
      SameWords(frames, t, p, i);
      if i < |frames| {
        assert t[i] == frames[i];
      }
    }
  }

  lemma ClaimKeepsPlaces(s: State, t: State, k: Consumer)
    requires PlacedOk(s, k) && s.frames <= t.frames
    ensures PlacedOk(t, k)
  {
    hide WordsOf;
    forall i | 0 <= i < |k.delivered| ensures k.delivered[i].position == Start(t, i) {
      SameWords(s.frames, t.frames, s.frames[i].owner, i);
    }
  }

  /** A fresh claim holds whatever words its ring held there. */
  lemma ClaimKeepsKept(g: Config, s: State, q: nat, length: nat)
    requires Shape(g, s) && AllKept(g, s) && q < g.producers && Claimable(g, s, q, length)
    ensures AllKept(g, s.(frames := s.frames + [Claimed(g, s, q, length)]))
  {
    hide WordsOf, Header, Slice, Claimable;
    var f := Claimed(g, s, q, length);
    var t := s.(frames := s.frames + [f]);
    forall i | 0 <= i < |t.frames| && t.cached[t.frames[i].owner] <= Start(t, i) ensures Kept(g, t, i) {
      SameWords(s.frames, t.frames, t.frames[i].owner, i);
      if i < |s.frames| {
        assert t.frames[i] == s.frames[i];
        assert Kept(g, s, i);
      }
    }
  }

  // ---------------------------------------------------------------- stores into a claim

  /** A frame not yet committed lies beyond what any consumer has taken. */
  lemma UncommittedAhead(g: Config, s: State, i: nat)
    requires Inv(g, s) && i < |s.frames| && !s.frames[i].committed
    ensures s.cached[s.frames[i].owner] <= Start(s, i)
  {
    hide Boundary, Positions, Kept, WordsOf;
    var q, k := s.frames[i].owner, s.consumers[0];
    assert DeliveredOk(s, k) && ReadOk(g, s, k, q);
    assert i >= k.expected by {
      assert forall j :: 0 <= j < k.expected ==> Faithful(s.frames[j], k.delivered[j]);
    }
    WordsGrow(s.frames, q, k.expected, i);
  }

  /** Two frames of a ring share no position. */
  lemma FramesApart(frames: seq<Frame>, i: nat, j: nat)
    requires i < |frames| && j < |frames| && i != j && frames[i].owner == frames[j].owner
    ensures var q := frames[i].owner;
            || WordsOf(frames, q, i) + frames[i].Words() <= WordsOf(frames, q, j)
            || WordsOf(frames, q, j) + frames[j].Words() <= WordsOf(frames, q, i)
  {
    WordsGrow(frames, frames[i].owner, Min(i, j) + 1, Max(i, j));
  }

  /** A store at one position leaves the cells of others within a lap alone. */
  lemma CellApart(g: Config, s: State, q: nat, x: nat, value: nat, y: nat, low: nat)
    requires Shape(g, s) && q < g.producers && x != y && low <= x < low + g.capacity && low <= y < low + g.capacity
    ensures Stored(g, s, q, x, value)[q][y % g.capacity] == s.cells[q][y % g.capacity]
  {
    if x < y {
      DistinctCells(x, y, g.capacity);
    } else {
      DistinctCells(y, x, g.capacity);
    }
  }

  lemma TailBeyond(s: State, i: nat)
    requires i < |s.frames|
    ensures Start(s, i) + s.frames[i].Words() <= Tail(s, s.frames[i].owner)
  {
    WordsGrow(s.frames, s.frames[i].owner, i + 1, |s.frames|);
  }

  /** A store into one claim leaves every other frame a consumer may read alone. */
  lemma OthersKept(g: Config, s: State, i: nat, x: nat, value: nat, j: nat)
    requires Shape(g, s) && i < |s.frames| && j < |s.frames| && i != j
    requires RingOk(g, s, s.frames[i].owner) && Kept(g, s, j)
    requires s.cached[s.frames[i].owner] <= Start(s, i) <= x < Start(s, i) + s.frames[i].Words()
    requires s.cached[s.frames[j].owner] <= Start(s, j)
    ensures Kept(g, s.(cells := Stored(g, s, s.frames[i].owner, x, value)), j)
  {
    hide WordsOf, Header, Slice, Stored;
    var q, f, from := s.frames[i].owner, s.frames[j], Start(s, j);
    if f.owner == q {
      FramesApart(s.frames, i, j);
      TailBeyond(s, i);
      TailBeyond(s, j);
      CellApart(g, s, q, x, value, from, s.cached[q]);
      SliceStays(g, s, q, x, value, from + 1, |f.payload|, s.cached[q]);
    } else {
      OtherRings(g, s, q, x, value, f.owner);
    }
  }

  lemma SliceStays(g: Config, s: State, q: nat, x: nat, value: nat, from: nat, n: nat, low: nat)
    requires Shape(g, s) && q < g.producers && low <= x < low + g.capacity
    requires low <= from && from + n <= low + g.capacity && (x < from || from + n <= x)
    ensures Slice(Stored(g, s, q, x, value)[q], from, n) == Slice(s.cells[q], from, n)
  {
    hide Stored;
    var after, before := Slice(Stored(g, s, q, x, value)[q], from, n), Slice(s.cells[q], from, n);
    forall k | 0 <= k < n ensures after[k] == before[k] {
      CellApart(g, s, q, x, value, from + k, low);
    }
  }

  lemma OtherRings(g: Config, s: State, q: nat, x: nat, value: nat, p: nat)
    requires Shape(g, s) && q < g.producers && p < g.producers && p != q
    ensures Stored(g, s, q, x, value)[p] == s.cells[p]
  {
  }

  /** Changing what is in a frame, not where it lies. */
  predicate SameLayout(a: seq<Frame>, b: seq<Frame>) {
    |a| == |b| && forall i :: 0 <= i < |a| ==> a[i].owner == b[i].owner && a[i].length == b[i].length
  }

  lemma SameStart(s: State, t: State, i: nat)
    requires SameLayout(s.frames, t.frames) && i < |s.frames|
    ensures Start(s, i) == Start(t, i)
  {
    SameWords(s.frames, t.frames, s.frames[i].owner, i);
  }

  lemma BoundaryStays(a: seq<Frame>, b: seq<Frame>, p: nat, x: nat)
    requires SameLayout(a, b) && Boundary(a, p, x)
    ensures Boundary(b, p, x)
  {
    forall j | 0 <= j < |b| && b[j].owner == p ensures x <= WordsOf(b, p, j) || WordsOf(b, p, j) + b[j].Words() <= x {
      SameWords(a, b, p, j);
      assert a[j].owner == p && a[j].Words() == b[j].Words();
    }
  }

  /** After a store into frame i, the frames are kept if frame i is. */
  lemma StoreKeepsKept(g: Config, s: State, t: State, i: nat, x: nat, value: nat)
    requires Inv(g, s) && Shape(g, t) && i < |s.frames| && !s.frames[i].committed
    requires Start(s, i) <= x < Start(s, i) + s.frames[i].Words()
    requires SameLayout(s.frames, t.frames) && t.cached == s.cached
    requires t.cells == Stored(g, s, s.frames[i].owner, x, value)
    requires forall j :: 0 <= j < |s.frames| && j != i ==> t.frames[j] == s.frames[j]
    requires Kept(g, t, i)
    ensures AllKept(g, t)
  {
    hide WordsOf, Header, Slice, Stored, Positions, Boundary;
    UncommittedAhead(g, s, i);
    forall j | 0 <= j < |t.frames| && t.cached[t.frames[j].owner] <= Start(t, j) ensures Kept(g, t, j) {
      SameStart(s, t, j);
      if j != i {
        assert RingOk(g, s, s.frames[i].owner) && Kept(g, s, j);
        OthersKept(g, s, i, x, value, j);
      }
    }
  }

  lemma WriteKept(g: Config, s: State, i: nat, word: nat, value: nat)
    requires Shape(g, s) && i < |s.frames| && !s.frames[i].headed && word < |s.frames[i].payload| && Kept(g, s, i)
    ensures Kept(g, WriteWord(g, s, i, word, value), i)
  {
    hide WordsOf, Header;
    var t, f := WriteWord(g, s, i, word, value), s.frames[i];
    SameStart(s, t, i);
    var from := Start(s, i) + 1;
    forall k | 0 <= k < |f.payload|
      ensures Slice(t.cells[f.owner], from, |f.payload|)[k] == t.frames[i].payload[k]
    {
      if k != word {
        CellApart(g, s, f.owner, from + word, value, from + k, Start(s, i));
      }
      assert Slice(s.cells[f.owner], from, |f.payload|)[k] == f.payload[k];
    }
  }

  lemma HeadKept(g: Config, s: State, i: nat)
    requires Shape(g, s) && i < |s.frames| && Kept(g, s, i)
    ensures Kept(g, HeadFrame(g, s, i), i)
  {
    hide WordsOf, Header;
    var t, f := HeadFrame(g, s, i), s.frames[i];
    SameStart(s, t, i);
    var from := Start(s, i) + 1;
    forall k | 0 <= k < |f.payload| ensures Slice(t.cells[f.owner], from, |f.payload|)[k] == f.payload[k] {
      CellApart(g, s, f.owner, Start(s, i), Header(i, f.length), from + k, Start(s, i));
      assert Slice(s.cells[f.owner], from, |f.payload|)[k] == f.payload[k];
    }
  }

  /** What stays when a claim is written or committed. */
  lemma StoreKeepsReaders(g: Config, s: State, t: State, i: nat)
    requires Inv(g, s) && Shape(g, t) && i < |s.frames| && !s.frames[i].committed
    requires SameLayout(s.frames, t.frames) && t.cached == s.cached && t.consumers == s.consumers
    requires forall j :: 0 <= j < |s.frames| && j != i ==> t.frames[j] == s.frames[j]
    requires forall p :: 0 <= p < g.producers ==> s.marks[p].published <= t.marks[p].published
    ensures forall q :: 0 <= q < g.producers ==> RingOk(g, t, q)
    ensures forall c :: 0 <= c < |t.consumers| ==> DeliveredOk(t, t.consumers[c]) && PlacedOk(t, t.consumers[c])
    ensures forall c, p :: 0 <= c < |t.consumers| && 0 <= p < g.producers ==> ReadOk(g, t, t.consumers[c], p)
  {
    hide Positions, WordsOf, Boundary, Kept;
    forall q | 0 <= q < g.producers ensures RingOk(g, t, q) {
      assert RingOk(g, s, q);
      SameWords(s.frames, t.frames, q, |s.frames|);
    }
    forall c | 0 <= c < |t.consumers| ensures DeliveredOk(t, t.consumers[c]) && PlacedOk(t, t.consumers[c]) {
      assert DeliveredOk(s, s.consumers[c]);
      assert forall j :: 0 <= j < s.consumers[c].expected ==> Faithful(s.frames[j], s.consumers[c].delivered[j]);
      StoreKeepsPlaces(s, t, s.consumers[c]);
    }
    forall c, p | 0 <= c < |t.consumers| && 0 <= p < g.producers ensures ReadOk(g, t, t.consumers[c], p) {
      assert ReadOk(g, s, s.consumers[c], p);
      SameWords(s.frames, t.frames, p, s.consumers[c].expected);
      BoundaryStays(s.frames, t.frames, p, s.consumers[c].seen[p]);
    }
  }

  lemma StoreKeepsPlaces(s: State, t: State, k: Consumer)
    requires PlacedOk(s, k) && SameLayout(s.frames, t.frames)
    ensures PlacedOk(t, k)
  {
    hide WordsOf;
    forall i | 0 <= i < |k.delivered| ensures k.delivered[i].position == Start(t, i) {
      SameStart(s, t, i);
    }
  }

  lemma WriteKeepsInv(g: Config, s: State, i: nat, word: nat, value: nat)
    requires Inv(g, s) && i < |s.frames| && !s.frames[i].headed && word < |s.frames[i].payload|
    ensures Inv(g, WriteWord(g, s, i, word, value))
  {
    hide Positions, WordsOf, Boundary, Kept, Stored, ReadOk, RingOk, DeliveredOk, PlacedOk;
    var t := WriteWord(g, s, i, word, value);
    assert FrameOk(g, s.frames[i]);
    UncommittedAhead(g, s, i);
    assert Kept(g, s, i);
    WriteKept(g, s, i, word, value);
    StoreKeepsKept(g, s, t, i, Start(s, i) + 1 + word, value);
    StoreKeepsReaders(g, s, t, i);
    forall p | 0 <= p < g.producers ensures MarkOk(g, t, p) {
      assert MarkOk(g, s, p);
      SamePositions(s.frames, t.frames, p, |s.frames|);
    }
  }

  lemma HeadKeepsInv(g: Config, s: State, i: nat)
    requires Inv(g, s) && i < |s.frames| && !s.frames[i].headed
    ensures Inv(g, HeadFrame(g, s, i))
  {
    hide Positions, WordsOf, Boundary, Kept, Stored, ReadOk, RingOk, DeliveredOk, PlacedOk, Header;
    var t := HeadFrame(g, s, i);
    assert FrameOk(g, s.frames[i]);
    UncommittedAhead(g, s, i);
    assert Kept(g, s, i);
    HeadKept(g, s, i);
    StoreKeepsKept(g, s, t, i, Start(s, i), Header(i, s.frames[i].length));
    StoreKeepsReaders(g, s, t, i);
    forall p | 0 <= p < g.producers ensures MarkOk(g, t, p) {
      assert MarkOk(g, s, p);
      SamePositions(s.frames, t.frames, p, |s.frames|);
    }
  }

  lemma CommitKeepsInv(g: Config, s: State, i: nat)
    requires Inv(g, s) && i < |s.frames| && s.frames[i].headed && !s.frames[i].committed
    ensures Inv(g, CommitFrame(g, s, i))
  {
    hide Positions, WordsOf, Boundary, Publish, Kept, Stored, ReadOk, RingOk, DeliveredOk, PlacedOk, Header;
    var t := CommitFrame(g, s, i);
    CommitKeepsKept(g, s, i);
    forall p | 0 <= p < g.producers ensures MarkOk(g, t, p) && s.marks[p].published <= t.marks[p].published {
      assert MarkOk(g, s, p);
      CommitMarks(g, s, i, p);
    }
    StoreKeepsReaders(g, s, t, i);
  }

  /** Telling the watermark touches no cell. */
  lemma CommitKeepsKept(g: Config, s: State, i: nat)
    requires Shape(g, s) && AllKept(g, s) && i < |s.frames| && s.frames[i].headed
    ensures AllKept(g, CommitFrame(g, s, i))
  {
    hide WordsOf, Header, Publish, Slice;
    var t := CommitFrame(g, s, i);
    forall j | 0 <= j < |t.frames| && t.cached[t.frames[j].owner] <= Start(t, j) ensures Kept(g, t, j) {
      SameStart(s, t, j);
      assert Kept(g, s, j);
    }
  }

  lemma CommitMarks(g: Config, s: State, i: nat, p: nat)
    requires Shape(g, s) && i < |s.frames| && s.frames[i].headed && !s.frames[i].committed
    requires p < g.producers && MarkOk(g, s, p)
    ensures MarkOk(g, CommitFrame(g, s, i), p)
    ensures s.marks[p].published <= CommitFrame(g, s, i).marks[p].published
  {
    hide Positions, WordsOf, Publish, Marks, Stored, Header;
    var t, n := CommitFrame(g, s, i), |s.frames|;
    if p == s.frames[i].owner {
      var start := WordsOf(s.frames, p, i);
      PositionsAre(s.frames, p, i, n);
      PositionsCommit(s.frames, i, n);
      PublishKeeps(s.marks[p], Positions(s.frames, p, n), start, start + s.frames[i].Words());
      PublishAdvances(s.marks[p], Positions(s.frames, p, n), start, start + s.frames[i].Words());
    } else {
      SamePositions(s.frames, t.frames, p, n);
    }
  }

  lemma PublishAdvances(m: Mark, committed: set<nat>, start: nat, end: nat)
    requires Marks(m, committed) && start < end && Range(start, end) !! committed
    ensures Publish(m, start, end).published >= m.published
  {
    hide Absorb, Note, Marks;
    PublishKeeps(m, committed, start, end);
  }

  // ---------------------------------------------------------------- the consumers' steps

  /** A consumer that changes only itself. */
  lemma OneConsumerMoves(g: Config, s: State, c: nat, k: Consumer)
    requires Inv(g, s) && c < |s.consumers|
    requires |k.read| == |k.seen| == |k.flushed| == g.producers && DeliveredOk(s, k) && PlacedOk(s, k)
    requires forall q :: 0 <= q < g.producers ==> ReadOk(g, s, k, q)
    ensures Inv(g, s.(consumers := s.consumers[c := k]))
  {
    hide Positions, WordsOf, Boundary, Kept;
    var t := s.(consumers := s.consumers[c := k]);
    forall q | 0 <= q < g.producers ensures RingOk(g, t, q) && MarkOk(g, t, q) {
      assert RingOk(g, s, q) && MarkOk(g, s, q);
    }
    forall d, q | 0 <= d < |t.consumers| && 0 <= q < g.producers ensures ReadOk(g, t, t.consumers[d], q) {
      assert ReadOk(g, s, if d == c then k else s.consumers[d], q);
    }
    forall d | 0 <= d < |t.consumers| ensures DeliveredOk(t, t.consumers[d]) && PlacedOk(t, t.consumers[d]) {
      assert DeliveredOk(s, if d == c then k else s.consumers[d]);
      assert PlacedOk(s, if d == c then k else s.consumers[d]);
    }
    OtherFieldsKeepKept(g, s, t);
  }

  lemma OtherFieldsKeepKept(g: Config, s: State, t: State)
    requires Shape(g, s) && Shape(g, t) && AllKept(g, s)
    requires t.frames == s.frames && t.cells == s.cells && t.cached == s.cached
    ensures AllKept(g, t)
  {
    hide WordsOf, Header, Slice;
    forall i | 0 <= i < |t.frames| && t.cached[t.frames[i].owner] <= Start(t, i) ensures Kept(g, t, i) {
      assert Kept(g, s, i);
    }
  }

  lemma LookKeepsInv(g: Config, s: State, c: nat, q: nat)
    requires Inv(g, s) && c < |s.consumers| && q < g.producers && s.consumers[c].seen[q] <= s.consumers[c].read[q]
    ensures Inv(g, Next(g, s, Look(c, q)))
  {
    hide Positions, WordsOf, Boundary, Kept;
    var k := s.consumers[c];
    var k' := k.(seen := k.seen[q := s.marks[q].published]);
    assert MarkOk(g, s, q) && DeliveredOk(s, k) && PlacedOk(s, k);
    WatermarkIsBoundary(s.frames, q, s.marks[q]);
    forall p | 0 <= p < g.producers ensures ReadOk(g, s, k', p) {
      assert ReadOk(g, s, k, p);
    }
    OneConsumerMoves(g, s, c, k');
  }

  lemma FlushKeepsInv(g: Config, s: State, c: nat, q: nat)
    requires Inv(g, s) && c < |s.consumers| && q < g.producers
    ensures Inv(g, Next(g, s, Flush(c, q)))
  {
    hide Positions, WordsOf, Boundary, Kept;
    var k := s.consumers[c];
    var k' := k.(flushed := k.flushed[q := k.read[q]]);
    assert DeliveredOk(s, k) && PlacedOk(s, k);
    forall p | 0 <= p < g.producers ensures ReadOk(g, s, k', p) {
      assert ReadOk(g, s, k, p);
    }
    OneConsumerMoves(g, s, c, k');
  }

  /** Below the watermark it has seen, what a consumer reads out of the cells is the ring's next
      frame, whole: its header, and its words as they were when it was committed. */
  lemma ReadsNextFrame(g: Config, s: State, c: nat, q: nat)
    requires Inv(g, s) && c < |s.consumers| && q < g.producers && s.consumers[c].read[q] < s.consumers[c].seen[q]
    ensures var k := s.consumers[c];
            k.expected <= |s.frames| &&
            var i := NextOf(s.frames, q, k.expected);
            && i < |s.frames| && s.frames[i].committed && Start(s, i) == k.read[q]
            && HeaderRead(g, s, k, q) == Header(i, s.frames[i].length)
            && Slice(s.cells[q], k.read[q] + 1, |s.frames[i].payload|) == s.frames[i].payload
            && s.frames[i].length <= 8 * |s.frames[i].payload| < s.frames[i].length + 8
            && s.frames[i].Words() == 1 + |s.frames[i].payload| && k.read[q] + s.frames[i].Words() <= k.seen[q]
  {
    hide Positions, WordsOf, Slice, Header;
    var k := s.consumers[c];
    assert ReadOk(g, s, k, q) && MarkOk(g, s, q);
    WatermarkIsBoundary(s.frames, q, s.marks[q]);
    var i := NextOf(s.frames, q, k.expected);
    NoneBetween(s.frames, q, k.expected, i);
    assert i < |s.frames|;
    assert Kept(g, s, i) && FrameOk(g, s.frames[i]);
    WordsHoldBytes(s.frames[i].length);
  }

  /** Where the low bits suffice, a header that matches is the expected frame's. */
  lemma MatchIsExpected(g: Config, s: State, c: nat, q: nat)
    requires Inv(g, s) && c < |s.consumers| && q < g.producers && g.LowBitsSuffice()
    requires s.consumers[c].read[q] < s.consumers[c].seen[q]
    ensures var k := s.consumers[c];
            HeaderLow(HeaderRead(g, s, k, q)) == Low(k.expected) <==>
              k.expected < |s.frames| && s.frames[k.expected].owner == q
  {
    hide Positions, WordsOf, Boundary, Low, Slice, Header, HeaderLow, Kept;
    var k := s.consumers[c];
    var e := k.expected;
    ReadsNextFrame(g, s, c, q);
    var i := NextOf(s.frames, q, e);
    assert FrameOk(g, s.frames[i]);
    HeaderParts(i, s.frames[i].length);
    forall p | 0 <= p < g.producers
      ensures WordsOf(s.frames, p, |s.frames|) <= WordsOf(s.frames, p, e) + g.Limit()
    {
      assert ReadOk(g, s, k, p) && RingOk(g, s, p);
    }
    NextIsNear(s.frames, g.producers, g.Limit(), e, q);
    if Low(i) == Low(e) {
      LowTellsApart(e, i);
    }
  }

  /** What a receive that succeeds takes: the expected frame. */
  lemma ReceivedIs(g: Config, s: State, c: nat, q: nat)
    requires Inv(g, s) && c < |s.consumers| && q < g.producers && g.LowBitsSuffice() && Receivable(g, s, c, q)
    ensures var k := s.consumers[c];
            k.expected < |s.frames| &&
            var f := s.frames[k.expected];
            && f.owner == q && f.committed && WordsOf(s.frames, q, k.expected) == k.read[q]
            && Received(g, s, c, q) ==
                 k.(expected := k.expected + 1, read := k.read[q := k.read[q] + f.Words()],
                    delivered := k.delivered + [Delivery(q, k.read[q], f.length, [])])
  {
    hide Positions, WordsOf, Boundary, Low, Slice, Header, HeaderLow, Kept, HeaderLength;
    var k := s.consumers[c];
    MatchIsExpected(g, s, c, q);
    ReadsNextFrame(g, s, c, q);
    assert NextOf(s.frames, q, k.expected) == k.expected;
    assert FrameOk(g, s.frames[k.expected]);
    HeaderParts(k.expected, s.frames[k.expected].length);
  }

  lemma ReceiveKeepsInv(g: Config, s: State, c: nat, q: nat)
    requires Inv(g, s) && c < |s.consumers| && q < g.producers && g.LowBitsSuffice() && Receivable(g, s, c, q)
    ensures Inv(g, Next(g, s, Receive(c, q)))
  {
    hide Positions, Boundary, Received, Receivable, Kept, Slice, Header, HeaderLow, ReadOk, DeliveredOk, WordsOf;
    var k, k' := s.consumers[c], Received(g, s, c, q);
    ReceivedIs(g, s, c, q);
    TakenOk(s, k, k', k.read[q]);
    forall p | 0 <= p < g.producers ensures ReadOk(g, s, k', p) {
      assert ReadOk(g, s, k, p);
      ReadMovesOn(g, s, k, k', q, p);
    }
    OneConsumerMoves(g, s, c, k');
  }

  lemma TakenOk(s: State, k: Consumer, t: Consumer, position: nat)
    requires DeliveredOk(s, k) && PlacedOk(s, k) && k.expected < |s.frames| && s.frames[k.expected].committed
    requires t.expected == k.expected + 1
    requires var f := s.frames[k.expected];
             && position == WordsOf(s.frames, f.owner, k.expected)
             && t.delivered == k.delivered + [Delivery(f.owner, position, f.length, [])]
    ensures DeliveredOk(s, t) && PlacedOk(s, t)
  {
    hide WordsOf;
    forall i | 0 <= i < t.expected ensures Faithful(s.frames[i], t.delivered[i]) {
      if i < k.expected {
        assert Faithful(s.frames[i], k.delivered[i]);
      }
    }
  }

  lemma ReadMovesOn(g: Config, s: State, k: Consumer, t: Consumer, q: nat, p: nat)
    requires Shape(g, s) && q < g.producers && p < g.producers && |k.read| == |k.seen| == |k.flushed| == g.producers
    requires ReadOk(g, s, k, p) && k.expected < |s.frames| && s.frames[k.expected].owner == q
    requires t == k.(expected := k.expected + 1, read := k.read[q := k.read[q] + s.frames[k.expected].Words()],
                     delivered := t.delivered)
    ensures ReadOk(g, s, t, p)
  {
    hide Boundary;
  }

  // ---------------------------------------------------------------- looking at what was received

  /** Until its receiver publishes that it is done with it, the words a message points at are the
      committed payload, whatever is claimed and written meanwhile. */
  lemma PointsAtPayload(g: Config, s: State, c: nat, i: nat)
    requires Inv(g, s) && c < |s.consumers| && i < |s.consumers[c].delivered|
    requires var d := s.consumers[c].delivered[i];
             d.owner < g.producers && s.consumers[c].flushed[d.owner] <= d.position
    ensures i < |s.frames| && Faithful(s.frames[i], s.consumers[c].delivered[i])
    ensures var d := s.consumers[c].delivered[i];
            && |s.frames[i].payload| == FrameWords(d.length) - 1
            && d.length <= 8 * |s.frames[i].payload| < d.length + 8
            && Slice(s.cells[d.owner], d.position + 1, |s.frames[i].payload|) == s.frames[i].payload
  {
    hide Positions, WordsOf, Boundary, Slice, Header, MarkOk;
    var k := s.consumers[c];
    var d := k.delivered[i];
    assert DeliveredOk(s, k) && PlacedOk(s, k) && ReadOk(g, s, k, d.owner);
    assert Faithful(s.frames[i], d) && FrameOk(g, s.frames[i]);
    WordsHoldBytes(d.length);
    assert Kept(g, s, i);
  }

  lemma LoadKeepsInv(g: Config, s: State, c: nat, i: nat)
    requires Inv(g, s) && c < |s.consumers| && Loadable(g, s, c, i)
    ensures Inv(g, Next(g, s, Load(c, i)))
  {
    hide Positions, WordsOf, Boundary, Kept, MarkOk, RingOk, AllKept;
    var k, k' := s.consumers[c], Loaded(g, s, c, i);
    var d := k.delivered[i];
    PointsAtPayload(g, s, c, i);
    assert DeliveredOk(s, k) && PlacedOk(s, k);
    assert k'.delivered[i].words == d.words + [s.frames[i].payload[|d.words|]];
    forall j | 0 <= j < k'.expected ensures Faithful(s.frames[j], k'.delivered[j]) {
      assert Faithful(s.frames[j], k.delivered[j]);
    }
    forall p | 0 <= p < g.producers ensures ReadOk(g, s, k', p) {
      assert ReadOk(g, s, k, p);
    }
    OneConsumerMoves(g, s, c, k');
  }

  // ---------------------------------------------------------------- every run

  lemma StepKeepsInv(g: Config, s: State, e: Event)
    requires Inv(g, s) && g.LowBitsSuffice()
    ensures Inv(g, Next(g, s, e))
  {
    hide RingOk, MarkOk, ReadOk, DeliveredOk, PlacedOk, AllKept;
    hide Receivable, HeadFrame, CommitFrame, WriteWord, Received, Loadable, Loaded;
    match e
    case Refresh(q, least) => RefreshKeepsInv(g, s, q, least);
    case Claim(q, length) => ClaimKeepsInv(g, s, q, length);
    case Write(i, word, value) =>
      if i < |s.frames| && !s.frames[i].headed && word < |s.frames[i].payload| {
        WriteKeepsInv(g, s, i, word, value);
      }
    case StoreHeader(i) => if i < |s.frames| && !s.frames[i].headed { HeadKeepsInv(g, s, i); }
    case Commit(i) =>
      if i < |s.frames| && s.frames[i].headed && !s.frames[i].committed { CommitKeepsInv(g, s, i); }
    case Look(c, q) =>
      if c < |s.consumers| && q < g.producers && s.consumers[c].seen[q] <= s.consumers[c].read[q] {
        LookKeepsInv(g, s, c, q);
      }
    case Receive(c, q) =>
      if c < |s.consumers| && q < g.producers && Receivable(g, s, c, q) { ReceiveKeepsInv(g, s, c, q); }
    case Load(c, i) => if c < |s.consumers| && Loadable(g, s, c, i) { LoadKeepsInv(g, s, c, i); }
    case Flush(c, q) => if c < |s.consumers| && q < g.producers { FlushKeepsInv(g, s, c, q); }
  }

  lemma {:induction false} RunKeepsInv(g: Config, s: State, events: seq<Event>)
    requires Inv(g, s) && g.LowBitsSuffice()
    ensures Inv(g, Run(g, s, events))
    decreases |events|
  {
    hide RingOk, MarkOk, ReadOk, DeliveredOk, Next, AllKept;
    if events != [] {
      StepKeepsInv(g, s, events[0]);
      RunKeepsInv(g, Next(g, s, events[0]), events[1..]);
    }
  }

  predicate AllOrdered(s: State) {
    forall c :: 0 <= c < |s.consumers| ==> DeliveredOk(s, s.consumers[c])
  }

  /** Total order, exactly once, nothing torn: over every run in which the other rings together hold
      less than a period, every consumer has been given the committed frames 0, 1, 2, ..., and the
      words it has loaded of each are the first of its payload, all of it if it has loaded as many as
      the header says, whatever is written into the rings meanwhile. */
  lemma EveryRunIsOrdered(g: Config, events: seq<Event>)
    requires g.Valid() && g.LowBitsSuffice()
    ensures AllOrdered(Run(g, Initial(g), events))
    ensures var s := Run(g, Initial(g), events);
            forall c, i :: 0 <= c < |s.consumers| && 0 <= i < |s.consumers[c].delivered| <= |s.frames| ==>
              (s.consumers[c].delivered[i].words == s.frames[i].payload <==> Read(s.consumers[c].delivered[i]))
  {
    InitialInv(g);
    RunKeepsInv(g, Initial(g), events);
    var s := Run(g, Initial(g), events);
    forall c, i | 0 <= c < |s.consumers| && 0 <= i < |s.consumers[c].delivered| <= |s.frames|
      ensures s.consumers[c].delivered[i].words == s.frames[i].payload <==> Read(s.consumers[c].delivered[i])
    {
      assert DeliveredOk(s, s.consumers[c]);
      assert Faithful(s.frames[i], s.consumers[c].delivered[i]) && FrameOk(g, s.frames[i]);
      WordsHoldBytes(s.frames[i].length);
    }
  }

  /** As many words have been loaded as hold the bytes that the header says, and no word more. */
  predicate Read(d: Delivery) {
    d.length <= 8 * |d.words| < d.length + 8
  }

  /** No stall: a consumer that looks at a ring gets a frame from it exactly when that ring holds the
      frame it expects, below the watermark it has seen. So at most one ring answers, and if the
      expected frame is visible its ring does. */
  lemma ReceivesIffVisible(g: Config, s: State, c: nat, q: nat)
    requires Inv(g, s) && c < |s.consumers| && q < g.producers && g.LowBitsSuffice()
    ensures var k := s.consumers[c];
            Receivable(g, s, c, q) <==>
              && k.expected < |s.frames| && s.frames[k.expected].owner == q
              && WordsOf(s.frames, q, k.expected) < k.seen[q]
  {
    hide Positions, WordsOf, Boundary, Low, Slice, Header, HeaderLow, Kept, HeaderLength;
    var k := s.consumers[c];
    assert ReadOk(g, s, k, q);
    if k.read[q] < k.seen[q] {
      MatchIsExpected(g, s, c, q);
      ReadsNextFrame(g, s, c, q);
      var i := NextOf(s.frames, q, k.expected);
      assert FrameOk(g, s.frames[i]);
      HeaderParts(i, s.frames[i].length);
    }
  }

  // ---------------------------------------------------------------- nothing is lost

  /** A frame is visible exactly when it and all frames before it in its ring are committed. */
  lemma VisibleIff(g: Config, s: State, e: nat)
    requires Inv(g, s) && e < |s.frames|
    ensures var q := s.frames[e].owner;
            WordsOf(s.frames, q, e) < s.marks[q].published <==>
              forall i :: 0 <= i <= e && s.frames[i].owner == q ==> s.frames[i].committed
  {
    hide Boundary, Marks, Positions, WordsOf, Kept;
    var q := s.frames[e].owner;
    assert MarkOk(g, s, q);
    WatermarkIsBoundary(s.frames, q, s.marks[q]);
    if WordsOf(s.frames, q, e) < s.marks[q].published {
      forall i | 0 <= i <= e && s.frames[i].owner == q ensures s.frames[i].committed {
        WordsGrow(s.frames, q, i, e);
      }
    } else {
      var i := FirstHole(s.frames, s.marks[q], e);
    }
  }

  /** A consumer that looks for the frame it expects, when that is visible, takes it. */
  lemma ConsumerAdvances(g: Config, s: State, c: nat)
    requires Inv(g, s) && c < |s.consumers| && g.LowBitsSuffice()
    requires s.consumers[c].expected < |s.frames|
    requires var e := s.consumers[c].expected;
             forall i :: 0 <= i <= e && s.frames[i].owner == s.frames[e].owner ==> s.frames[i].committed
    ensures var k := s.consumers[c];
            var f := s.frames[k.expected];
            var t := Next(g, Next(g, s, Look(c, f.owner)), Receive(c, f.owner));
            && Inv(g, t) && t.frames == s.frames && t.consumers[c].expected == k.expected + 1
            && f.owner < g.producers && t.consumers[c].flushed[f.owner] <= k.read[f.owner]
            && t.consumers[c].delivered == k.delivered + [Delivery(f.owner, k.read[f.owner], f.length, [])]
  {
    hide Positions, Boundary, Receivable, Received, Marks, WordsOf, DeliveredOk, Kept, Slice, Header, HeaderLow;
    var e := s.consumers[c].expected;
    var q := s.frames[e].owner;
    var u := Next(g, s, Look(c, q));
    StepKeepsInv(g, s, Look(c, q));
    StepKeepsInv(g, u, Receive(c, q));
    VisibleIff(g, s, e);
    assert ReadOk(g, s, s.consumers[c], q);
    ReceivesIffVisible(g, u, c, q);
    ReceivedIs(g, u, c, q);
  }

  function LoadAll(c: nat, i: nat, n: nat): seq<Event> {
    if n == 0 then [] else [Load(c, i)] + LoadAll(c, i, n - 1)
  }

  lemma {:induction false} LoadedAll(g: Config, s: State, c: nat, i: nat, n: nat)
    requires Inv(g, s) && c < |s.consumers| && i < |s.consumers[c].delivered|
    requires var d := s.consumers[c].delivered[i];
             && d.owner < g.producers && s.consumers[c].flushed[d.owner] <= d.position
             && |d.words| + n == FrameWords(d.length) - 1
    ensures var k, t := s.consumers[c], Run(g, s, LoadAll(c, i, n));
            && Inv(g, t) && t.frames == s.frames && i < |s.frames|
            && t.consumers[c] == k.(delivered := k.delivered[i := k.delivered[i].(words := s.frames[i].payload)])
    decreases n
  {
    hide RingOk, MarkOk, ReadOk, DeliveredOk, PlacedOk, AllKept, Next;
    PointsAtPayload(g, s, c, i);
    if n > 0 {
      var t := Next(g, s, Load(c, i));
      LoadKeepsInv(g, s, c, i);
      LoadIs(g, s, c, i);
      RunConcat(g, s, [Load(c, i)], LoadAll(c, i, n - 1));
      RunOne(g, s, Load(c, i));
      LoadedAll(g, t, c, i, n - 1);
    } else {
      assert s.consumers[c].delivered[i].words == s.frames[i].payload;
    }
  }

  lemma LoadIs(g: Config, s: State, c: nat, i: nat)
    requires Shape(g, s) && c < |s.consumers| && Loadable(g, s, c, i)
    ensures Next(g, s, Load(c, i)) == s.(consumers := s.consumers[c := Loaded(g, s, c, i)])
  {
  }

  /** The steps that take frame e and load all its words, and so everything from number e on. */
  function CatchUp(frames: seq<Frame>, c: nat, e: nat): seq<Event>
    requires e <= |frames|
    decreases |frames| - e
  {
    if e == |frames| then [] else Take(frames[e], c, e) + CatchUp(frames, c, e + 1)
  }

  function Take(f: Frame, c: nat, e: nat): seq<Event> {
    [Look(c, f.owner)] + ([Receive(c, f.owner)] + LoadAll(c, e, f.Words() - 1))
  }

  lemma {:induction false} RunConcat(g: Config, s: State, first: seq<Event>, rest: seq<Event>)
    requires Shape(g, s)
    ensures Run(g, s, first + rest) == Run(g, Run(g, s, first), rest)
    decreases |first|
  {
    hide Next;
    if first == [] {
      assert first + rest == rest;
    } else {
      assert (first + rest)[1..] == first[1..] + rest;
      RunConcat(g, Next(g, s, first[0]), first[1..], rest);
    }
  }

  lemma RunOne(g: Config, s: State, e: Event)
    requires Shape(g, s)
    ensures Run(g, s, [e]) == Next(g, s, e)
  {
    hide Next;
    assert [e][1..] == [];
  }

  /** It takes the expected frame and has all of it. */
  lemma TakesWhole(g: Config, s: State, c: nat)
    requires Inv(g, s) && c < |s.consumers| && g.LowBitsSuffice()
    requires s.consumers[c].expected < |s.frames|
    requires var e := s.consumers[c].expected;
             forall i :: 0 <= i <= e && s.frames[i].owner == s.frames[e].owner ==> s.frames[i].committed
    ensures var k := s.consumers[c];
            var f := s.frames[k.expected];
            var t := Run(g, s, Take(f, c, k.expected));
            && Inv(g, t) && t.frames == s.frames && t.consumers[c].expected == k.expected + 1
            && t.consumers[c].delivered == k.delivered + [Delivery(f.owner, k.read[f.owner], f.length, f.payload)]
  {
    hide RingOk, MarkOk, ReadOk, DeliveredOk, PlacedOk, AllKept, Next, Run;
    var k := s.consumers[c];
    var f := s.frames[k.expected];
    var u := Next(g, s, Look(c, f.owner));
    var t := Next(g, u, Receive(c, f.owner));
    ConsumerAdvances(g, s, c);
    ExpectedIs(g, s, c);
    RunConcat(g, s, [Look(c, f.owner)], [Receive(c, f.owner)] + LoadAll(c, k.expected, f.Words() - 1));
    RunOne(g, s, Look(c, f.owner));
    RunConcat(g, u, [Receive(c, f.owner)], LoadAll(c, k.expected, f.Words() - 1));
    RunOne(g, u, Receive(c, f.owner));
    LoadedAll(g, t, c, k.expected, f.Words() - 1);
  }

  lemma ExpectedIs(g: Config, s: State, c: nat)
    requires Inv(g, s) && c < |s.consumers|
    ensures |s.consumers[c].delivered| == s.consumers[c].expected <= |s.frames|
  {
    hide AllKept, MarkOk, ReadOk;
    assert DeliveredOk(s, s.consumers[c]);
  }

  /** Nothing is lost and no consumer is stuck: from every reachable state in which all claims are
      committed, each consumer can take every frame that is left, and have every word of it. */
  lemma {:induction false} EverythingGetsThrough(g: Config, s: State, c: nat)
    requires Inv(g, s) && c < |s.consumers| && g.LowBitsSuffice()
    requires forall i :: 0 <= i < |s.frames| ==> s.frames[i].committed
    requires s.consumers[c].expected <= |s.frames|
    ensures var e, t := s.consumers[c].expected, Run(g, s, CatchUp(s.frames, c, s.consumers[c].expected));
            && Inv(g, t) && t.frames == s.frames && t.consumers[c].expected == |s.frames|
            && s.consumers[c].delivered <= t.consumers[c].delivered && |t.consumers[c].delivered| == |s.frames|
            && forall i :: e <= i < |s.frames| ==>
                 t.consumers[c].delivered[i].words == s.frames[i].payload && Read(t.consumers[c].delivered[i])
    decreases |s.frames| - s.consumers[c].expected
  {
    hide RingOk, MarkOk, ReadOk, DeliveredOk, PlacedOk, AllKept, Next, Run;
    var e := s.consumers[c].expected;
    ExpectedIs(g, s, c);
    if e < |s.frames| {
      TakesWhole(g, s, c);
      var t := Run(g, s, Take(s.frames[e], c, e));
      RunConcat(g, s, Take(s.frames[e], c, e), CatchUp(s.frames, c, e + 1));
      EverythingGetsThrough(g, t, c);
    } else {
      RunNone(g, s);
    }
  }

  lemma RunNone(g: Config, s: State)
    requires Shape(g, s)
    ensures Run(g, s, []) == s
  {
  }

  /** Back-pressure ends: when every consumer has published that it is done with a ring, its producer
      reads their positions and claims any frame that fits the limit. */
  lemma DrainedRingGrants(g: Config, s: State, q: nat, length: nat)
    requires Inv(g, s) && q < g.producers && length < TWO32 && FrameWords(length) <= g.Limit()
    requires forall c :: 0 <= c < |s.consumers| ==> s.consumers[c].flushed[q] == Tail(s, q)
    ensures var t := Next(g, Next(g, s, Refresh(q, Tail(s, q))), Claim(q, length));
            |t.frames| == |s.frames| + 1 && t.frames[..|s.frames|] == s.frames
            && t.frames[|s.frames|].owner == q && t.frames[|s.frames|].length == length
            && length <= 8 * |t.frames[|s.frames|].payload| < length + 8
  {
    hide Positions, WordsOf, Boundary, MarkOk, ReadOk, DeliveredOk, Slice, Kept;
    WordsHoldBytes(length);
    assert RingOk(g, s, q);
  }

  // ---------------------------------------------------------------- undisturbed calls

  function Writes(i: nat, message: seq<nat>, n: nat): seq<Event>
    requires n <= |message|
  {
    if n == 0 then [] else Writes(i, message, n - 1) + [Write(i, n - 1, message[n - 1])]
  }

  lemma {:induction false} Wrote(g: Config, s: State, i: nat, message: seq<nat>, n: nat)
    requires Inv(g, s) && g.LowBitsSuffice() && i < |s.frames| && !s.frames[i].headed
    requires |message| == |s.frames[i].payload| && n <= |message|
    ensures var t := Run(g, s, Writes(i, message, n));
            && Inv(g, t) && t.consumers == s.consumers && t.marks == s.marks
            && t.frames == s.frames[i := s.frames[i].(payload := message[..n] + s.frames[i].payload[n..])]
  {
    hide RingOk, MarkOk, ReadOk, DeliveredOk, PlacedOk, AllKept, Next, Run;
    var f := s.frames[i];
    if n == 0 {
      RunNone(g, s);
      assert message[..0] + f.payload[0..] == f.payload && s.frames[i := f] == s.frames;
    } else {
      Wrote(g, s, i, message, n - 1);
      var t, e := Run(g, s, Writes(i, message, n - 1)), Write(i, n - 1, message[n - 1]);
      RunConcat(g, s, Writes(i, message, n - 1), [e]);
      RunOne(g, t, e);
      StepKeepsInv(g, t, e);
      WriteIs(g, t, i, n - 1, message[n - 1]);
      var before := message[..n - 1] + f.payload[n - 1..];
      assert before[n - 1 := message[n - 1]] == message[..n] + f.payload[n..];
    }
  }

  lemma WriteIs(g: Config, s: State, i: nat, word: nat, value: nat)
    requires Shape(g, s) && i < |s.frames| && !s.frames[i].headed && word < |s.frames[i].payload|
    ensures var t := Next(g, s, Write(i, word, value));
            && t.consumers == s.consumers && t.marks == s.marks
            && t.frames == s.frames[i := s.frames[i].(payload := s.frames[i].payload[word := value])]
  {
    hide Stored, WordsOf;
  }

  /** A claim that is filled and committed with no one in between holds exactly the words written, is
      committed, and is visible if all frames before it in its ring are committed; other frames stay. */
  lemma PublishesMessage(g: Config, s: State, i: nat, message: seq<nat>)
    requires Inv(g, s) && g.LowBitsSuffice() && i < |s.frames| && !s.frames[i].headed
    requires |message| == |s.frames[i].payload|
    ensures var t := Run(g, s, Writes(i, message, |message|) + [StoreHeader(i)] + [Commit(i)]);
            && Inv(g, t) && t.consumers == s.consumers
            && t.frames == s.frames[i := s.frames[i].(payload := message, headed := true, committed := true)]
            && (WordsOf(t.frames, s.frames[i].owner, i) < t.marks[s.frames[i].owner].published <==>
                  forall j :: 0 <= j < i && s.frames[j].owner == s.frames[i].owner ==> s.frames[j].committed)
  {
    hide RingOk, MarkOk, ReadOk, DeliveredOk, PlacedOk, AllKept, Next, Run, WordsOf;
    assert FrameOk(g, s.frames[i]);
    Wrote(g, s, i, message, |message|);
    var t := Run(g, s, Writes(i, message, |message|));
    RunConcat(g, s, Writes(i, message, |message|), [StoreHeader(i)]);
    RunOne(g, t, StoreHeader(i));
    StepKeepsInv(g, t, StoreHeader(i));
    StoreHeaderIs(g, t, i);
    var u := Next(g, t, StoreHeader(i));
    RunConcat(g, s, Writes(i, message, |message|) + [StoreHeader(i)], [Commit(i)]);
    RunOne(g, u, Commit(i));
    StepKeepsInv(g, u, Commit(i));
    CommitIs(g, u, i);
    var v := Next(g, u, Commit(i));
    assert message[..|message|] + s.frames[i].payload[|message|..] == message;
    VisibleIff(g, v, i);
    assert v.frames[i].committed && v.frames[i].owner == s.frames[i].owner;
    assert forall j :: 0 <= j < i ==> v.frames[j] == s.frames[j];
  }

  lemma StoreHeaderIs(g: Config, s: State, i: nat)
    requires Shape(g, s) && i < |s.frames| && !s.frames[i].headed
    ensures var t := Next(g, s, StoreHeader(i));
            t.consumers == s.consumers && t.frames == s.frames[i := s.frames[i].(headed := true)]
  {
    hide Stored, WordsOf, Header;
  }

  lemma CommitIs(g: Config, s: State, i: nat)
    requires Shape(g, s) && i < |s.frames| && s.frames[i].headed && !s.frames[i].committed
    ensures var t := Next(g, s, Commit(i));
            t.consumers == s.consumers && t.frames == s.frames[i := s.frames[i].(committed := true)]
  {
    hide WordsOf, Publish;
  }

  function FlushAll(q: nat, n: nat): seq<Event> {
    if n == 0 then [] else FlushAll(q, n - 1) + [Flush(n - 1, q)]
  }

  lemma {:induction false} FlushedAll(g: Config, s: State, q: nat, n: nat)
    requires Inv(g, s) && g.LowBitsSuffice() && q < g.producers && n <= |s.consumers|
    ensures var t := Run(g, s, FlushAll(q, n));
            && Inv(g, t) && t.frames == s.frames
            && forall c :: 0 <= c < |t.consumers| ==>
                 && t.consumers[c].read == s.consumers[c].read
                 && (c < n ==> t.consumers[c].flushed[q] == s.consumers[c].read[q])
  {
    hide RingOk, MarkOk, ReadOk, DeliveredOk, PlacedOk, AllKept, Run;
    if n == 0 {
      RunNone(g, s);
    } else {
      FlushedAll(g, s, q, n - 1);
      var t := Run(g, s, FlushAll(q, n - 1));
      RunConcat(g, s, FlushAll(q, n - 1), [Flush(n - 1, q)]);
      RunOne(g, t, Flush(n - 1, q));
      StepKeepsInv(g, t, Flush(n - 1, q));
    }
  }

  /** Space comes back: when every consumer has taken all there is and flushes a ring, its producer reads
      their positions and claims any frame that fits the limit. */
  lemma ConsumedRingGrants(g: Config, s: State, q: nat, length: nat)
    requires Inv(g, s) && g.LowBitsSuffice() && q < g.producers
    requires length < TWO32 && FrameWords(length) <= g.Limit()
    requires forall c :: 0 <= c < |s.consumers| ==> s.consumers[c].expected == |s.frames|
    ensures var u := Run(g, s, FlushAll(q, |s.consumers|));
            var t := Next(g, Next(g, u, Refresh(q, Tail(u, q))), Claim(q, length));
            && |t.frames| == |s.frames| + 1 && t.frames[..|s.frames|] == s.frames
            && t.frames[|s.frames|].owner == q && t.frames[|s.frames|].length == length
  {
    hide RingOk, MarkOk, DeliveredOk, PlacedOk, AllKept, Run, Next, WordsOf, Boundary;
    var u := Run(g, s, FlushAll(q, |s.consumers|));
    FlushedAll(g, s, q, |s.consumers|);
    forall c | 0 <= c < |u.consumers| ensures u.consumers[c].flushed[q] == Tail(u, q) {
      assert ReadOk(g, s, s.consumers[c], q);
    }
    DrainedRingGrants(g, u, q, length);
  }
}
