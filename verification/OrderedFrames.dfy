/** The frames of the totally ordered channel of src/core/channel/hybrid_mpsc.hpp: how a frame's number
    goes into its header, where frames lie in the rings, and how far apart the numbers of frames in
    different rings can be. Positions are counted in 8-byte words, the alignment of frames. */
module OrderedFrames {
  import opened Words
  import opened Bits
  import opened CommitWatermark

  /** The numbers a header can tell apart: 2^24. */
  const PERIOD: nat := 0x100_0000

  function Low(sequence: nat): nat {
    sequence % 0x100_0000
  }

  /** sequence_low_window_fits, the test that creation makes; capacity is the words of one ring. */
  predicate WindowFits(producers: nat, capacity: nat) {
    && producers != 0 && capacity != 0
    && (producers == 1 || producers - 1 < (PERIOD + capacity - 1) / capacity)
  }

  /** It is the test it should be: there are rings, and what the other rings can hold is less than a
      period. */
  lemma WindowFitsIff(producers: nat, capacity: nat)
    ensures WindowFits(producers, capacity) <==>
              producers > 0 && capacity > 0 && (producers - 1) * capacity < PERIOD
  {
    if producers > 0 && capacity > 0 {
      QuotientBound(producers, capacity);
    }
  }

  lemma QuotientBound(producers: nat, capacity: nat)
    requires producers > 0 && capacity > 0
    ensures WindowFits(producers, capacity) <==> (producers - 1) * capacity < PERIOD
  {
    var n := (PERIOD + capacity - 1) / capacity;
    DivBounds(PERIOD + capacity - 1, capacity);
    if producers - 1 < n {
      MulMonotone(capacity, producers, n);
      assert capacity * producers == (producers - 1) * capacity + capacity;
    } else {
      MulMonotone(capacity, n, producers - 1);
    }
  }

  /** encode_sequence and decode_sequence: the low bits go above the flags of the header's 32-bit
      metadata word, the high bits elsewhere. */
  function Meta(sequence: nat, flags: nat): nat
    requires flags < 0x100
  {
    Or(Low(sequence) * 0x100, flags)
  }

  function LowFromMeta(meta: nat): nat {
    meta / 0x100 % 0x100_0000
  }

  function Decode(meta: nat, high: nat): nat {
    Or(high * 0x100_0000, LowFromMeta(meta))
  }

  /** The metadata fits its word and gives back the low bits and the flags; with the high bits it
      gives back the number. */
  lemma SequenceRoundTrip(sequence: U64, flags: nat)
    requires flags < 0x100
    ensures var meta := Meta(sequence, flags);
            && meta < TWO32 && LowFromMeta(meta) == Low(sequence) && meta % 0x100 == flags
            && Decode(meta, sequence / 0x100_0000) == sequence
  {
    hide Or, Low;
    Pow24();
    var low, high := Low(sequence), sequence / 0x100_0000;
    LowParts(sequence);
    OrDisjoint(low, flags, 8);
    OrDisjoint(high, low, 24);
    MetaParts(low, flags);
  }

  lemma LowParts(sequence: nat)
    ensures Low(sequence) < 0x100_0000 && sequence / 0x100_0000 * 0x100_0000 + Low(sequence) == sequence
  {
  }

  lemma MetaParts(low: nat, flags: nat)
    requires low < 0x100_0000 && flags < 0x100
    ensures var meta := low * 0x100 + flags;
            meta < TWO32 && meta / 0x100 % 0x100_0000 == low && meta % 0x100 == flags
  {
  }

  lemma Pow24()
    ensures Pow2(8) == 0x100 && Pow2(24) == 0x100_0000
  {
    Pow2Small();
    Pow2Add(16, 8);
    Pow2Add(7, 1);
  }

  /** The flags of a committed frame: BEGIN, END and COMMITTED. */
  const COMMITTED_FLAGS: nat := 0xB

  /** The words of a frame: its header, and its payload rounded up. */
  function FrameWords(length: nat): (w: nat)
    ensures w > 0
  {
    1 + (length + 7) / 8
  }

  /** pack_header: the payload length below the metadata. */
  function Header(sequence: nat, length: nat): nat {
    length + Meta(sequence, COMMITTED_FLAGS) * 0x1_0000_0000
  }

  function HeaderLength(word: nat): nat {
    word % 0x1_0000_0000
  }

  function HeaderLow(word: nat): nat {
    LowFromMeta(word / 0x1_0000_0000)
  }

  /** After the header's word, the words of a frame hold the payload's bytes and no word more. */
  lemma WordsHoldBytes(length: nat)
    ensures length <= 8 * (FrameWords(length) - 1) < length + 8
  {
  }

  /** The header gives back the payload length and the low bits of the number, and has the flags
      BEGIN, END and COMMITTED. */
  lemma HeaderParts(sequence: nat, length: nat)
    requires length < TWO32
    ensures Header(sequence, length) < TWO64
    ensures HeaderLength(Header(sequence, length)) == length
    ensures HeaderLow(Header(sequence, length)) == Low(sequence)
    ensures Header(sequence, length) / 0x1_0000_0000 % 0x100 == 0xB
  {
    hide Low, Or;
    LowParts(sequence);
    Pow24();
    OrDisjoint(Low(sequence), COMMITTED_FLAGS, 8);
    MetaParts(Low(sequence), COMMITTED_FLAGS);
    Unpacked(length, Meta(sequence, COMMITTED_FLAGS));
  }

  lemma Unpacked(length: nat, meta: nat)
    requires length < TWO32
    ensures (length + meta * 0x1_0000_0000) % 0x1_0000_0000 == length
    ensures (length + meta * 0x1_0000_0000) / 0x1_0000_0000 == meta
  {
  }

  /** A claimed frame, kept in a list by its number: the ring it is in, its payload's length in bytes
      and words, and how far its commit has got: the header stored, and then the watermark told. */
  datatype Frame = Frame(owner: nat, length: nat, payload: seq<nat>, headed: bool, committed: bool) {
    function Words(): (w: nat)
      ensures w > 0
    {
      FrameWords(length)
    }
  }

  /** The words the first k frames take in ring q: where the next one of that ring begins. */
  function WordsOf(frames: seq<Frame>, q: nat, k: nat): nat
    requires k <= |frames|
  {
    if k == 0 then 0
    else WordsOf(frames, q, k - 1) + (if frames[k - 1].owner == q then frames[k - 1].Words() else 0)
  }

  // ---------------------------------------------------------------- positions

  lemma {:induction false} WordsGrow(frames: seq<Frame>, q: nat, j: nat, k: nat)
    requires j <= k <= |frames|
    ensures WordsOf(frames, q, j) <= WordsOf(frames, q, k)
  {
    if j < k {
      WordsGrow(frames, q, j, k - 1);
    }
  }

  /** The position of a frame depends only on the owners and sizes of those before it. */
  lemma {:induction false} SameWords(a: seq<Frame>, b: seq<Frame>, q: nat, k: nat)
    requires k <= |a| && k <= |b|
    requires forall i :: 0 <= i < k ==> a[i].owner == b[i].owner && a[i].Words() == b[i].Words()
    ensures WordsOf(a, q, k) == WordsOf(b, q, k)
  {
    if k > 0 {
      SameWords(a, b, q, k - 1);
    }
  }

  /** The first frame of a ring from number e on; the number of frames if there is none. */
  function NextOf(frames: seq<Frame>, q: nat, e: nat): (i: nat)
    requires e <= |frames|
    ensures e <= i <= |frames|
    ensures i < |frames| ==> frames[i].owner == q
    ensures forall j :: e <= j < i ==> frames[j].owner != q
    decreases |frames| - e
  {
    if e == |frames| || frames[e].owner == q then e else NextOf(frames, q, e + 1)
  }

  lemma {:induction false} NoneBetween(frames: seq<Frame>, q: nat, e: nat, i: nat)
    requires e <= i <= |frames| && forall j :: e <= j < i ==> frames[j].owner != q
    ensures WordsOf(frames, q, i) == WordsOf(frames, q, e)
  {
    if e < i {
      NoneBetween(frames, q, e, i - 1);
    }
  }

  // ---------------------------------------------------------------- the window argument

  /** How many of the frames a to b are in ring q. */
  function Count(frames: seq<Frame>, q: nat, a: nat, b: nat): nat
    requires a <= b <= |frames|
    decreases b
  {
    if a == b then 0 else Count(frames, q, a, b - 1) + (if frames[b - 1].owner == q then 1 else 0)
  }

  function CountBelow(frames: seq<Frame>, producers: nat, a: nat, b: nat): nat
    requires a <= b <= |frames|
  {
    if producers == 0 then 0
    else CountBelow(frames, producers - 1, a, b) + Count(frames, producers - 1, a, b)
  }

  lemma {:induction false} CountStep(frames: seq<Frame>, producers: nat, a: nat, b: nat)
    requires a < b <= |frames|
    ensures CountBelow(frames, producers, a, b) ==
              CountBelow(frames, producers, a, b - 1) + (if frames[b - 1].owner < producers then 1 else 0)
  {
    if producers > 0 {
      CountStep(frames, producers - 1, a, b);
    }
  }

  lemma {:induction false} CountNone(frames: seq<Frame>, producers: nat, a: nat)
    requires a <= |frames|
    ensures CountBelow(frames, producers, a, a) == 0
  {
    if producers > 0 {
      CountNone(frames, producers - 1, a);
    }
  }

  /** Every frame is in some ring. */
  lemma {:induction false} CountAll(frames: seq<Frame>, producers: nat, a: nat, b: nat)
    requires a <= b <= |frames| && forall i :: a <= i < b ==> frames[i].owner < producers
    ensures CountBelow(frames, producers, a, b) == b - a
    decreases b
  {
    if a == b {
      CountNone(frames, producers, a);
    } else {
      CountAll(frames, producers, a, b - 1);
      CountStep(frames, producers, a, b);
    }
  }

  /** A frame takes at least one word. */
  lemma {:induction false} CountFits(frames: seq<Frame>, q: nat, a: nat, b: nat)
    requires a <= b <= |frames|
    ensures WordsOf(frames, q, a) + Count(frames, q, a, b) <= WordsOf(frames, q, b)
    decreases b
  {
    if a < b {
      CountFits(frames, q, a, b - 1);
    }
  }

  /** The frames the other rings can hold. */
  function Others(producers: nat, q: nat, capacity: nat): nat {
    (if q < producers then producers - 1 else producers) * capacity
  }

  lemma {:induction false} CountBound(frames: seq<Frame>, producers: nat, a: nat, b: nat, q: nat, capacity: nat)
    requires a <= b <= |frames| && Count(frames, q, a, b) == 0
    requires forall p :: 0 <= p < producers ==> Count(frames, p, a, b) <= capacity
    ensures CountBelow(frames, producers, a, b) <= Others(producers, q, capacity)
  {
    if producers > 0 {
      CountBound(frames, producers - 1, a, b, q, capacity);
      assert Others(producers, q, capacity) ==
             Others(producers - 1, q, capacity) + (if producers - 1 == q then 0 else capacity);
    }
  }

  lemma {:induction false} CountZero(frames: seq<Frame>, q: nat, a: nat, b: nat)
    requires a <= b <= |frames| && forall j :: a <= j < b ==> frames[j].owner != q
    ensures Count(frames, q, a, b) == 0
    decreases b
  {
    if a < b {
      CountZero(frames, q, a, b - 1);
    }
  }

  /** If no ring holds more than its capacity beyond what the consumer has taken, the next frame of
      any ring is fewer than the other rings' capacities ahead of the one the consumer expects. */
  lemma NextIsNear(frames: seq<Frame>, producers: nat, capacity: nat, e: nat, q: nat)
    requires e <= |frames| && q < producers
    requires forall i :: 0 <= i < |frames| ==> frames[i].owner < producers
    requires forall p :: 0 <= p < producers ==> WordsOf(frames, p, |frames|) <= WordsOf(frames, p, e) + capacity
    ensures NextOf(frames, q, e) - e <= Others(producers, q, capacity)
  {
    var i := NextOf(frames, q, e);
    CountAll(frames, producers, e, i);
    CountZero(frames, q, e, i);
    forall p | 0 <= p < producers ensures Count(frames, p, e, i) <= capacity {
      CountFits(frames, p, e, i);
      WordsGrow(frames, p, i, |frames|);
    }
    CountBound(frames, producers, e, i, q, capacity);
  }

  /** Numbers less than a period apart are told apart by their low bits. */
  lemma LowTellsApart(e: nat, i: nat)
    requires e <= i < e + PERIOD && Low(i) == Low(e)
    ensures i == e
  {
    DivBounds(e, 0x100_0000);
    DivBounds(i, 0x100_0000);
    assert e == e / 0x100_0000 * 0x100_0000 + Low(e);
    assert i == i / 0x100_0000 * 0x100_0000 + Low(i);
  }

  // ---------------------------------------------------------------- committed positions

  /** The words of ring q that committed frames among the first k take. */
  function Positions(frames: seq<Frame>, q: nat, k: nat): set<nat>
    requires k <= |frames|
  {
    if k == 0 then {}
    else
      Positions(frames, q, k - 1)
      + (if frames[k - 1].owner == q && frames[k - 1].committed then Place(frames, k - 1) else {})
  }

  /** The words a frame takes. */
  function Place(frames: seq<Frame>, i: nat): set<nat>
    requires i < |frames|
  {
    var start := WordsOf(frames, frames[i].owner, i);
    Range(start, start + frames[i].Words())
  }

  lemma {:induction false} PositionsBelow(frames: seq<Frame>, q: nat, k: nat)
    requires k <= |frames|
    ensures forall x :: x in Positions(frames, q, k) ==> x < WordsOf(frames, q, k)
  {
    if k > 0 {
      PositionsBelow(frames, q, k - 1);
    }
  }

  lemma {:induction false} PositionsAre(frames: seq<Frame>, q: nat, i: nat, k: nat)
    requires i < k <= |frames| && frames[i].owner == q
    ensures if frames[i].committed then Place(frames, i) <= Positions(frames, q, k)
            else Place(frames, i) !! Positions(frames, q, k)
  {
    if i == k - 1 {
      PositionsBelow(frames, q, i);
    } else {
      PositionsAre(frames, q, i, k - 1);
      WordsGrow(frames, q, i + 1, k - 1);
    }
  }

  lemma SamePlace(a: seq<Frame>, b: seq<Frame>, i: nat)
    requires i < |a| && i < |b|
    requires forall j :: 0 <= j <= i ==> a[j].owner == b[j].owner && a[j].Words() == b[j].Words()
    ensures Place(a, i) == Place(b, i)
  {
    SameWords(a, b, a[i].owner, i);
  }

  lemma {:induction false} SamePositions(a: seq<Frame>, b: seq<Frame>, q: nat, k: nat)
    requires k <= |a| && k <= |b|
    requires forall i :: 0 <= i < k ==> a[i].owner == b[i].owner && a[i].Words() == b[i].Words()
    requires forall i :: 0 <= i < k && a[i].owner == q ==> a[i].committed == b[i].committed
    ensures Positions(a, q, k) == Positions(b, q, k)
  {
    hide Place, WordsOf;
    if k > 0 {
      SamePositions(a, b, q, k - 1);
      SamePlace(a, b, k - 1);
    }
  }

  lemma {:induction false} PositionsCommit(frames: seq<Frame>, i: nat, k: nat)
    requires i < k <= |frames|
    ensures var f := frames[i];
            Positions(frames[i := f.(committed := true)], f.owner, k) ==
              Positions(frames, f.owner, k) + Place(frames, i)
  {
    hide Place, WordsOf;
    var f := frames[i];
    var after := frames[i := f.(committed := true)];
    SamePlace(frames, after, k - 1);
    if i == k - 1 {
      SamePositions(frames, after, f.owner, i);
    } else {
      PositionsCommit(frames, i, k - 1);
    }
  }

  /** No frame of ring q lies across this position. */
  predicate Boundary(frames: seq<Frame>, q: nat, x: nat) {
    forall i :: 0 <= i < |frames| && frames[i].owner == q ==>
      x <= WordsOf(frames, q, i) || WordsOf(frames, q, i) + frames[i].Words() <= x
  }

  /** The watermark does not, and everything below it is committed. */
  lemma WatermarkIsBoundary(frames: seq<Frame>, q: nat, m: Mark)
    requires Marks(m, Positions(frames, q, |frames|))
    ensures Boundary(frames, q, m.published) && m.published <= WordsOf(frames, q, |frames|)
    ensures forall i :: 0 <= i < |frames| && frames[i].owner == q && WordsOf(frames, q, i) < m.published ==>
              frames[i].committed
  {
    var n := |frames|;
    MarkIsFirstHole(m, Positions(frames, q, n));
    PositionsBelow(frames, q, n);
    if m.published > 0 {
      assert m.published - 1 in Positions(frames, q, n);
    }
    forall i | 0 <= i < n && frames[i].owner == q && WordsOf(frames, q, i) < m.published
      ensures frames[i].committed && WordsOf(frames, q, i) + frames[i].Words() <= m.published
    {
      PositionsAre(frames, q, i, n);
      assert WordsOf(frames, q, i) in Place(frames, i);
      assert m.published !in Place(frames, i);
    }
  }

  lemma {:induction false} FrameCovering(frames: seq<Frame>, q: nat, x: nat, k: nat) returns (i: nat)
    requires k <= |frames| && x < WordsOf(frames, q, k)
    ensures i < k && frames[i].owner == q && x in Place(frames, i)
  {
    if x < WordsOf(frames, q, k - 1) {
      i := FrameCovering(frames, q, x, k - 1);
    } else {
      i := k - 1;
    }
  }

  /** If the watermark has not passed the start of a frame, it waits for that one or one before. */
  lemma FirstHole(frames: seq<Frame>, m: Mark, e: nat) returns (i: nat)
    requires e < |frames| && Marks(m, Positions(frames, frames[e].owner, |frames|))
    requires m.published <= WordsOf(frames, frames[e].owner, e)
    ensures i <= e && frames[i].owner == frames[e].owner && !frames[i].committed
  {
    var q := frames[e].owner;
    assert m.published < WordsOf(frames, q, e + 1);
    hide Marks, Positions, WordsOf;
    i := FrameCovering(frames, q, m.published, e + 1);
    PositionsAre(frames, q, i, |frames|);
    MarkIsFirstHole(m, Positions(frames, q, |frames|));
  }
}
