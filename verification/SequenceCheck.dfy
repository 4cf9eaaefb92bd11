/** The sequence-fault detector of the acceptance engine: a packed bitmap of the sequence numbers
    seen so far and six counters (tools/hft_acceptance/acceptance.cpp). */
module SequenceCheck {
  import opened Wrappers
  import opened Words
  import opened Bits

  datatype Counters = Counters(unique: nat, duplicate: nat, outOfOrder: nat,
                               gapEvents: nat, gapPositions: nat, highNext: nat)

  const NO_COUNTS := Counters(0, 0, 0, 0, 0, 0)

  // ---------------------------------------------------------------- the packed bitmap

  /** The set of numbers the words stand for. */
  function SeenSet(words: seq<U64>): set<nat> {
    set v | 0 <= v < 64 * |words| && Bit(words[v / 64], v % 64)
  }

  /** Setting one bit of one word adds one number to the set. */
  lemma SetBitAdds(words: seq<U64>, value: nat)
    requires value / 64 < |words|
    ensures WithBit(words[value / 64], value % 64) < TWO64
    ensures SeenSet(words[value / 64 := WithBit(words[value / 64], value % 64)]) == SeenSet(words) + {value}
    ensures value in SeenSet(words) <==> Bit(words[value / 64], value % 64)
  {
    WordLimit();
    WithBitFits(words[value / 64], value % 64, 64);
    var after := words[value / 64 := WithBit(words[value / 64], value % 64)];
    forall v: nat | v < 64 * |words|
      ensures v in SeenSet(after) <==> v in SeenSet(words) || v == value
    {
      SetBit(words[value / 64], value % 64, v % 64);
    }
  }

  lemma EmptyBitmap(words: seq<U64>)
    requires forall i :: 0 <= i < |words| ==> words[i] == 0
    ensures SeenSet(words) == {}
  {
    forall v: nat | v < 64 * |words| ensures v !in SeenSet(words) {
      NoBits(v % 64);
    }
  }

  /** The bitmap is sized so that every sequence number of the run has a bit. */
  lemma BitmapLargeEnough(total: nat, value: nat)
    requires value < total
    ensures value / 64 < (total + 63) / 64
  {
  }

  // ---------------------------------------------------------------- the detector

  /** One observation, on the set the bitmap stands for. */
  function Step(c: Counters, seen: set<nat>, value: nat): Counters {
    var duplicate := value in seen;
    Counters(
      if duplicate then c.unique else c.unique + 1,
      if duplicate then c.duplicate + 1 else c.duplicate,
      if value < c.highNext && !duplicate then c.outOfOrder + 1 else c.outOfOrder,
      if value > c.highNext then c.gapEvents + 1 else c.gapEvents,
      if value > c.highNext then c.gapPositions + (value - c.highNext) else c.gapPositions,
      Max(c.highNext, value + 1))
  }

  class SequenceStats {
    var received: nat
    var unique: nat
    var duplicate: nat
    var outOfOrder: nat
    var gapEvents: nat
    var gapPositions: nat
    var highNext: nat
    var corrupt: nat
    var invalid: nat
    var channelProducerId: int

    constructor ()
      ensures Counts() == NO_COUNTS
      ensures received == corrupt == invalid == 0 && channelProducerId == -1
    {
      received, unique, duplicate, outOfOrder := 0, 0, 0, 0;
      gapEvents, gapPositions, highNext, corrupt, invalid := 0, 0, 0, 0, 0;
      channelProducerId := -1;
    }

    function Counts(): Counters
      reads this
    {
      Counters(unique, duplicate, outOfOrder, gapEvents, gapPositions, highNext)
    }

    method Observe(seen: array<U64>, value: nat)
      requires value / 64 < seen.Length
      modifies this, seen
      ensures Counts() == Step(old(Counts()), old(SeenSet(seen[..])), value)
      ensures SeenSet(seen[..]) == old(SeenSet(seen[..])) + {value}
      ensures received == old(received) && corrupt == old(corrupt) && invalid == old(invalid)
      ensures channelProducerId == old(channelProducerId)
    {
      hide Bit, WithBit, SeenSet;
      SetBitAdds(seen[..], value);
      var bits := seen[value / 64];
      var isDuplicate := Bit(bits, value % 64);
      if isDuplicate {
        duplicate := duplicate + 1;
        assert seen[..] == old(seen[..]);
      } else {
        seen[value / 64] := WithBit(bits, value % 64);
        unique := unique + 1;
        assert seen[..] == old(seen[..])[value / 64 := WithBit(bits, value % 64)];
      }
      if value > highNext {
        gapEvents := gapEvents + 1;
        gapPositions := gapPositions + (value - highNext);
      }
      if value < highNext && !isDuplicate {
        outOfOrder := outOfOrder + 1;
      }
      highNext := Max(highNext, value + 1);
    }
  }

  // ---------------------------------------------------------------- whole streams

  /** The counters after a whole stream of observations. */
  function Observed(stream: seq<nat>): Counters {
    if stream == [] then NO_COUNTS
    else
      var before := stream[..|stream| - 1];
      Step(Observed(before), Elements(before), stream[|stream| - 1])
  }

  lemma ElementsStep(stream: seq<nat>)
    requires stream != []
    ensures Elements(stream) == Elements(stream[..|stream| - 1]) + {stream[|stream| - 1]}
  {
    assert stream == stream[..|stream| - 1] + [stream[|stream| - 1]];
  }

  /** What the counters mean, for every stream an unreliable channel can deliver. */
  lemma CountersMean(stream: seq<nat>)
    ensures var c := Observed(stream);
            c.unique == |Elements(stream)| && c.unique + c.duplicate == |stream|
    ensures var c := Observed(stream);
            (forall v: nat :: v in Elements(stream) ==> v < c.highNext) &&
            (c.highNext > 0 ==> c.highNext - 1 in Elements(stream))
    ensures var c := Observed(stream);
            c.highNext + c.outOfOrder == c.gapPositions + c.unique
    ensures var c := Observed(stream);
            c.gapEvents <= c.gapPositions && (c.gapEvents == 0 ==> c.gapPositions == 0)
  {
    UniqueMeans(stream);
    HighMarkMeans(stream);
    GapsMean(stream);
  }

  lemma AddOne(s: set<nat>, v: nat)
    ensures |s + {v}| == |s| + (if v in s then 0 else 1)
  {
    if v in s {
      assert s + {v} == s;
    }
  }

  lemma {:induction false} UniqueMeans(stream: seq<nat>)
    ensures Observed(stream).unique == |Elements(stream)|
    ensures Observed(stream).unique + Observed(stream).duplicate == |stream|
  {
    if stream != [] {
      UniqueMeans(stream[..|stream| - 1]);
      ElementsStep(stream);
      AddOne(Elements(stream[..|stream| - 1]), stream[|stream| - 1]);
    }
  }

  lemma {:induction false} HighMarkMeans(stream: seq<nat>)
    ensures forall v: nat :: v in Elements(stream) ==> v < Observed(stream).highNext
    ensures Observed(stream).highNext > 0 ==> Observed(stream).highNext - 1 in Elements(stream)
  {
    if stream != [] {
      HighMarkMeans(stream[..|stream| - 1]);
      ElementsStep(stream);
    }
  }

  lemma {:induction false} GapsMean(stream: seq<nat>)
    ensures var c := Observed(stream);
            c.highNext + c.outOfOrder == c.gapPositions + c.unique &&
            c.gapEvents <= c.gapPositions && (c.gapEvents == 0 ==> c.gapPositions == 0)
  {
    if stream != [] {
      GapsMean(stream[..|stream| - 1]);
      HighMarkMeans(stream[..|stream| - 1]);
    }
  }

  /** The number jumps over one at least: it is not 0, and all before it are below its predecessor. */
  predicate Jumps(stream: seq<nat>, i: nat)
    requires i < |stream|
  {
    stream[i] > 0 && forall j :: 0 <= j < i ==> stream[j] + 1 < stream[i]
  }

  /** The number comes for the first time, and after a larger one. */
  predicate Late(stream: seq<nat>, i: nat)
    requires i < |stream|
  {
    && (exists j :: 0 <= j < i && stream[j] > stream[i])
    && forall j :: 0 <= j < i ==> stream[j] != stream[i]
  }

  function JumpsOf(stream: seq<nat>): set<nat> {
    set i | 0 <= i < |stream| && Jumps(stream, i)
  }

  function LateOf(stream: seq<nat>): set<nat> {
    set i | 0 <= i < |stream| && Late(stream, i)
  }

  /** A gap event is a number that jumps, and an out-of-order event is a late number; so one gap is one
      event, however wide. */
  lemma {:induction false} EventsAre(stream: seq<nat>)
    ensures Observed(stream).gapEvents == |JumpsOf(stream)|
    ensures Observed(stream).outOfOrder == |LateOf(stream)|
  {
    hide JumpsOf, LateOf, Jumps, Late;
    if stream == [] {
      NoEvents();
    } else {
      var n := |stream| - 1;
      EventsAre(stream[..n]);
      EventsStay(stream);
      EventsGrow(stream);
      AddOne(JumpsOf(stream[..n]), n);
      AddOne(LateOf(stream[..n]), n);
    }
  }

  lemma NoEvents()
    ensures JumpsOf([]) == {} && LateOf([]) == {}
  {
  }

  lemma EventsGrow(stream: seq<nat>)
    requires stream != []
    ensures var n, before := |stream| - 1, stream[..|stream| - 1];
            && n !in JumpsOf(before) && n !in LateOf(before)
            && JumpsOf(stream) == JumpsOf(before) + (if Jumps(stream, n) then {n} else {})
            && LateOf(stream) == LateOf(before) + (if Late(stream, n) then {n} else {})
  {
    hide Jumps, Late;
    EventsStay(stream);
  }

  lemma EventsStay(stream: seq<nat>)
    requires stream != []
    ensures var n, before := |stream| - 1, stream[..|stream| - 1];
            && (forall i :: 0 <= i < n ==> (Jumps(stream, i) <==> Jumps(before, i)))
            && (forall i :: 0 <= i < n ==> (Late(stream, i) <==> Late(before, i)))
            && (Jumps(stream, n) <==> stream[n] > Observed(before).highNext)
            && (Late(stream, n) <==> stream[n] < Observed(before).highNext && stream[n] !in Elements(before))
  {
    var n, before := |stream| - 1, stream[..|stream| - 1];
    HighMarkMeans(before);
    assert forall j :: 0 <= j < n ==> stream[j] == before[j] && before[j] in Elements(before);
    var high := Observed(before).highNext;
    if high > 0 {
      var k :| 0 <= k < n && before[k] == high - 1;
    }
  }

  function Below(n: nat): (s: set<nat>)
    ensures |s| == n && forall v :: v in s <==> 0 <= v < n
  {
    if n == 0 then {} else Below(n - 1) + {n - 1}
  }

  /** The positions below the highest number seen that never arrived are the skipped positions
      less those filled in late. */
  lemma MissingPositions(stream: seq<nat>)
    ensures var c := Observed(stream);
            |Below(c.highNext) - Elements(stream)| == c.gapPositions - c.outOfOrder
  {
    CountersMean(stream);
    var c := Observed(stream);
    assert Elements(stream) <= Below(c.highNext);
    assert Below(c.highNext) == Elements(stream) + (Below(c.highNext) - Elements(stream));
  }

  /** Without a gap everything below the high mark has been seen, so nothing can be out of order. */
  lemma NoGapNoDisorder(stream: seq<nat>)
    requires Observed(stream).gapEvents == 0
    ensures Observed(stream).outOfOrder == 0
    ensures forall v: nat :: v in Elements(stream) <==> 0 <= v < Observed(stream).highNext
  {
    var c := Observed(stream);
    CountersMean(stream);
    MissingPositions(stream);
    assert Below(c.highNext) - Elements(stream) == {};
    forall v: nat | v < c.highNext ensures v in Elements(stream) {
      assert v in Below(c.highNext);
    }
  }

  /** 0, 1, ..., n - 1. */
  function Iota(n: nat): (s: seq<nat>)
    ensures |s| == n && forall i :: 0 <= i < n ==> s[i] == i
  {
    if n == 0 then [] else Iota(n - 1) + [n - 1]
  }

  /** The part of the integrity verdict that concerns one publisher's sequence numbers. */
  predicate SequenceVerdict(c: Counters, sent: nat) {
    c.unique == sent && c.duplicate == 0 && c.outOfOrder == 0 && c.gapEvents == 0 && c.highNext == sent
  }

  lemma {:induction false} CleanStreamIsIota(stream: seq<nat>)
    requires Observed(stream).duplicate == 0 && Observed(stream).outOfOrder == 0
    requires Observed(stream).gapEvents == 0
    ensures stream == Iota(|stream|) && Observed(stream).highNext == |stream|
  {
    if stream != [] {
      var before := stream[..|stream| - 1];
      CleanStreamIsIota(before);
      assert forall v :: 0 <= v < |before| ==> before[v] == v;
    }
  }

  lemma {:induction false} IotaIsClean(n: nat)
    ensures Observed(Iota(n)) == Counters(n, 0, 0, 0, 0, n)
  {
    if n > 0 {
      IotaIsClean(n - 1);
      assert Iota(n)[..n - 1] == Iota(n - 1);
    }
  }

  /** Over every possible delivery stream, the verdict passes if and only if the stream is exactly
      0, 1, ..., sent - 1 in order. */
  lemma SequenceVerdictIff(stream: seq<nat>, sent: nat)
    ensures SequenceVerdict(Observed(stream), sent) <==> stream == Iota(sent)
  {
    if SequenceVerdict(Observed(stream), sent) {
      CleanStreamIsIota(stream);
    }
    if stream == Iota(sent) {
      IotaIsClean(sent);
    }
  }
}
