/** What the subscriber of the acceptance run (tools/hft_acceptance/acceptance.cpp) has counted and
    measured after any stream of deliveries, clean or not, said of the deliveries themselves. */
module SubscriberCounts {
  import opened Wrappers
  import opened Words
  import opened Bits
  import opened SequenceCheck
  import opened Integrity
  import opened IntegrityVerdict

  /** A frame of the right length that names this publisher. */
  predicate FrameFrom(rules: Rules, d: Delivery, p: nat)
    requires rules.Valid()
  {
    d.payload.Frame? && |d.payload.words| == rules.frameWords && d.payload.words[4] % 0x1_0000_0000 == p
  }

  predicate Own(rules: Rules, d: Delivery)
    requires rules.Valid()
  {
    FrameFrom(rules, d, 0) || FrameFrom(rules, d, 1)
  }

  /** A frame in range that carries an attempt time. */
  predicate Stamped(rules: Rules, d: Delivery)
    requires rules.Valid()
  {
    Own(rules, d) && d.payload.words[1] < rules.total && d.payload.words[3] != 0
  }

  /** A stamped frame that was received neither before its attempt nor before its planned time. */
  predicate Measured(rules: Rules, d: Delivery)
    requires rules.Valid()
  {
    Stamped(rules, d) && d.payload.words[3] <= d.now && d.payload.words[2] <= d.now
  }

  /** The measured deliveries, in order of arrival. */
  function MeasuredOf(rules: Rules, stream: seq<Delivery>): seq<Delivery>
    requires rules.Valid()
  {
    if stream == [] then []
    else
      var d := stream[|stream| - 1];
      MeasuredOf(rules, stream[..|stream| - 1]) + (if Measured(rules, d) then [d] else [])
  }

  /** The samples, in order of arrival: what each measured frame took from its attempt, word 3, and
      from its planned time, word 2, until it was received. */
  lemma {:induction false} SamplesAre(rules: Rules, stream: seq<Delivery>)
    requires rules.Valid()
    ensures var s, m := Run(rules, stream), MeasuredOf(rules, stream);
            && |s.fromAttempt| == |s.fromSchedule| == |m|
            && forall k :: 0 <= k < |m| ==>
                 && Measured(rules, m[k])
                 && s.fromAttempt[k] == m[k].now - m[k].payload.words[3]
                 && s.fromSchedule[k] == m[k].now - m[k].payload.words[2]
  {
    hide Account;
    if stream != [] {
      SamplesAre(rules, stream[..|stream| - 1]);
    }
  }

  // ---------------------------------------------------------------- counters

  /** Adding up what each delivery counts for. */
  function Sum(stream: seq<Delivery>, of: Delivery -> nat): nat {
    if stream == [] then 0 else Sum(stream[..|stream| - 1], of) + of(stream[|stream| - 1])
  }

  function One(b: bool): nat {
    if b then 1 else 0
  }

  function Foreign(rules: Rules): Delivery -> nat
    requires rules.Valid()
  {
    d => One(!Own(rules, d))
  }

  function Reversed(rules: Rules): Delivery -> nat
    requires rules.Valid()
  {
    d => One(Stamped(rules, d) && !Measured(rules, d))
  }

  function Received(rules: Rules, p: nat): Delivery -> nat
    requires rules.Valid()
  {
    d => One(FrameFrom(rules, d, p))
  }

  /** What is wrong with the words of a frame: its header, and each word of its filler, and in range
      its planned time or its stamp. */
  function Faults(rules: Rules, p: nat): Delivery -> nat
    requires rules.Valid()
  {
    d => if FrameFrom(rules, d, p) then FaultsIn(rules, d.payload.words, p) else 0
  }

  function FaultsIn(rules: Rules, words: seq<nat>, p: nat): nat
    requires rules.Valid() && |words| == rules.frameWords
  {
    var check := CheckHeader(Header(words[0], words[1], words[2], words[3], p, words[4] / 0x1_0000_0000, 0));
    One(words[0] != 0x5341_4c49_4153_4846 || words[4] / 0x1_0000_0000 != 8 * rules.frameWords || words[5] != check)
    + |set i | 6 <= i < |words| && words[i] != Filler(words[1], p, i)|
    + One(words[1] < rules.total
          && (words[2] != (rules.startNs + rules.due(words[1])) % 0x1_0000_0000_0000_0000
              || (words[3] == 0 <==> rules.sampled(words[1], p))))
  }

  /** A frame out of range, and a frame under another channel id than the publisher's first. */
  function Invalid(rules: Rules, p: nat, channelId: int): Delivery -> nat
    requires rules.Valid()
  {
    d => if FrameFrom(rules, d, p) then One(d.payload.words[1] >= rules.total) + One(d.producerId != channelId) else 0
  }

  /** The sequence numbers in range that arrived under a publisher's name. */
  function InRange(rules: Rules, stream: seq<Delivery>, p: nat): seq<nat>
    requires rules.Valid()
  {
    if stream == [] then []
    else
      var d := stream[|stream| - 1];
      InRange(rules, stream[..|stream| - 1], p) +
      if FrameFrom(rules, d, p) && d.payload.words[1] < rules.total then [d.payload.words[1]] else []
  }

  lemma {:induction false} BadWordsAre(words: seq<nat>, h: Header, index: nat)
    requires index <= |words|
    ensures BadWords(words, h, index) ==
              |set i | index <= i < |words| && words[i] != Filler(h.sequence, h.publisher, i)|
    decreases |words| - index
  {
    hide Filler;
    var all := set i | index <= i < |words| && words[i] != Filler(h.sequence, h.publisher, i);
    if index < |words| {
      BadWordsAre(words, h, index + 1);
      var rest := set i | index + 1 <= i < |words| && words[i] != Filler(h.sequence, h.publisher, i);
      assert all == rest + (if words[index] != Filler(h.sequence, h.publisher, index) then {index} else {});
    } else {
      assert all == {};
    }
  }

  /** The subscriber's own counters. */
  lemma {:induction false} CountersAre(rules: Rules, stream: seq<Delivery>)
    requires rules.Valid()
    ensures var s := Run(rules, stream);
            && s.count == |stream|
            && s.invalidPublisher == Sum(stream, Foreign(rules))
            && s.clockReversals == Sum(stream, Reversed(rules))
  {
    hide Account;
    if stream != [] {
      CountersAre(rules, stream[..|stream| - 1]);
    }
  }

  /** And its counters for each publisher: frames, faults, invalid frames, and what the detector makes
      of the sequence numbers in range. */
  ghost predicate TallyMeans(rules: Rules, t: Tally, stream: seq<Delivery>, p: nat)
    requires rules.Valid()
  {
    && t.channelId == ChannelOf(rules, stream, p)
    && t.received == Sum(stream, Received(rules, p))
    && t.corrupt == Sum(stream, Faults(rules, p))
    && t.invalid == Sum(stream, Invalid(rules, p, ChannelOf(rules, stream, p)))
    && t.counters == Observed(InRange(rules, stream, p))
    && t.seen == Elements(InRange(rules, stream, p))
  }

  lemma {:induction false} TalliesAre(rules: Rules, stream: seq<Delivery>)
    requires rules.Valid()
    ensures TallyMeans(rules, Run(rules, stream).tallies[0], stream, 0)
    ensures TallyMeans(rules, Run(rules, stream).tallies[1], stream, 1)
  {
    if stream == [] {
      NothingCounted(rules);
    } else {
      var before, d := stream[..|stream| - 1], stream[|stream| - 1];
      TalliesAre(rules, before);
      TallyStep(rules, Run(rules, before), stream, 0);
      TallyStep(rules, Run(rules, before), stream, 1);
    }
  }

  lemma NothingCounted(rules: Rules)
    requires rules.Valid()
    ensures TallyMeans(rules, NEW_TALLY, [], 0) && TallyMeans(rules, NEW_TALLY, [], 1)
  {
  }

  lemma TallyStep(rules: Rules, s: Subscriber, stream: seq<Delivery>, p: nat)
    requires rules.Valid() && |s.tallies| == 2 && p < 2 && stream != []
    requires TallyMeans(rules, s.tallies[p], stream[..|stream| - 1], p)
    ensures TallyMeans(rules, Handle(rules, s, stream[|stream| - 1]).tallies[p], stream, p)
  {
    hide Account, TallyMeans;
    var d := stream[|stream| - 1];
    if FrameFrom(rules, d, p) {
      AccountMeans(rules, s.tallies[p], stream, p);
    } else {
      OtherFrame(rules, s.tallies[p], stream, p);
    }
  }

  lemma OtherFrame(rules: Rules, t: Tally, stream: seq<Delivery>, p: nat)
    requires rules.Valid() && stream != [] && !FrameFrom(rules, stream[|stream| - 1], p)
    requires TallyMeans(rules, t, stream[..|stream| - 1], p)
    ensures TallyMeans(rules, t, stream, p)
  {
    hide Filler, CheckHeader, FaultsIn, Observed;
    assert InRange(rules, stream, p) == InRange(rules, stream[..|stream| - 1], p);
  }

  lemma AccountMeans(rules: Rules, t: Tally, stream: seq<Delivery>, p: nat)
    requires rules.Valid() && stream != [] && FrameFrom(rules, stream[|stream| - 1], p)
    requires TallyMeans(rules, t, stream[..|stream| - 1], p)
    ensures var d := stream[|stream| - 1];
            TallyMeans(rules, Account(rules, t, d.payload.words, d.producerId), stream, p)
  {
    hide FaultsIn, BadHeader, BadWords, BadContext, Step, Sum, InRange, Observed, Elements;
    var d := stream[|stream| - 1];
    FaultsAre(rules, d.payload.words);
    SumsGrow(rules, stream, p);
    InRangeGrows(rules, stream, p);
  }

  lemma SumsGrow(rules: Rules, stream: seq<Delivery>, p: nat)
    requires rules.Valid() && stream != [] && FrameFrom(rules, stream[|stream| - 1], p)
    ensures var before, d := stream[..|stream| - 1], stream[|stream| - 1];
            var id, id' := ChannelOf(rules, before, p), ChannelOf(rules, stream, p);
            && id' == (if id < 0 then d.producerId else id)
            && Sum(stream, Received(rules, p)) == Sum(before, Received(rules, p)) + 1
            && Sum(stream, Faults(rules, p)) == Sum(before, Faults(rules, p)) + FaultsIn(rules, d.payload.words, p)
            && Sum(stream, Invalid(rules, p, id')) ==
                 Sum(before, Invalid(rules, p, id)) + One(d.payload.words[1] >= rules.total)
                 + One(d.producerId != id')
  {
    hide FaultsIn;
    ChannelSettles(rules, stream, p);
  }

  lemma InRangeGrows(rules: Rules, stream: seq<Delivery>, p: nat)
    requires rules.Valid() && stream != [] && FrameFrom(rules, stream[|stream| - 1], p)
    ensures var before, after := InRange(rules, stream[..|stream| - 1], p), InRange(rules, stream, p);
            var v := stream[|stream| - 1].payload.words[1];
            if v < rules.total
            then
              && Observed(after) == Step(Observed(before), Elements(before), v)
              && Elements(after) == Elements(before) + {v}
            else after == before
  {
    hide Step;
    var before, after := InRange(rules, stream[..|stream| - 1], p), InRange(rules, stream, p);
    if stream[|stream| - 1].payload.words[1] < rules.total {
      assert after[..|after| - 1] == before;
      ElementsStep(after);
    }
  }

  lemma FaultsAre(rules: Rules, words: seq<nat>)
    requires rules.Valid() && |words| == rules.frameWords
    ensures var h := Decode(words);
            FaultsIn(rules, words, h.publisher) ==
              BadHeader(rules, h) + BadWords(words, h, 6)
              + (if h.sequence < rules.total then BadContext(rules, h) else 0)
  {
    hide Filler, Xor;
    BadWordsAre(words, Decode(words), 6);
  }

  /** Once a publisher has a channel id it keeps it, and until then it has no frames. */
  lemma {:induction false} ChannelSettles(rules: Rules, stream: seq<Delivery>, p: nat)
    requires rules.Valid() && stream != []
    ensures var before := stream[..|stream| - 1];
            if ChannelOf(rules, before, p) >= 0 then ChannelOf(rules, stream, p) == ChannelOf(rules, before, p)
            else forall id :: Sum(before, Invalid(rules, p, id)) == 0
    decreases |stream|
  {
    var before := stream[..|stream| - 1];
    if before != [] {
      ChannelSettles(rules, before, p);
    }
  }

  // ---------------------------------------------------------------- what the words tell apart

  /** A word of filler belongs to one message, publisher and place: left over from another message of
      the same publisher, or from the other publisher, or out of place, it is a fault. */
  lemma FillerTellsApart(sequence: nat, sequence': nat, p: nat, p': nat, i: nat, i': nat)
    requires p < 8 && p' < 8
    ensures Filler(sequence, p, i) == Filler(sequence', p, i) <==> sequence == sequence'
    ensures Filler(sequence, p, i) == Filler(sequence, p', i) <==> p == p'
    ensures Filler(sequence, p, i) == Filler(sequence, p, i') <==> i == i'
    ensures Filler(0, 0, 0) == 0x5341_4c49_4153_4846
  {
    hide Xor;
    PublisherWords(p, p');
    var a, a' := Xor(MAGIC, sequence), Xor(MAGIC, sequence');
    var w, w' := Wrap(p * 0x2000_0000_0000_0000), Wrap(p' * 0x2000_0000_0000_0000);
    XorTellsApart(MAGIC, sequence, sequence');
    XorTellsApart(w, a, a');
    XorTellsApart(i, Xor(a, w), Xor(a', w));
    XorTellsApart(a, w, w');
    XorTellsApart(i, Xor(a, w), Xor(a, w'));
    XorTellsApart(Xor(a, w), i, i');
    XorZero(MAGIC);
  }

  lemma PublisherWords(p: nat, p': nat)
    requires p < 8 && p' < 8
    ensures Wrap(p * 0x2000_0000_0000_0000) == p * 0x2000_0000_0000_0000
    ensures Wrap(p * 0x2000_0000_0000_0000) == Wrap(p' * 0x2000_0000_0000_0000) <==> p == p'
  {
  }

  /** A header with any one field changed has another check word. */
  lemma CheckSeesEachField(h: Header, x: nat, publisher: U32)
    requires h.publisher < TWO32
    ensures CheckHeader(h.(marker := x)) == CheckHeader(h) <==> x == h.marker
    ensures CheckHeader(h.(sequence := x)) == CheckHeader(h) <==> x == h.sequence
    ensures CheckHeader(h.(planned := x)) == CheckHeader(h) <==> x == h.planned
    ensures CheckHeader(h.(attempt := x)) == CheckHeader(h) <==> x == h.attempt
    ensures CheckHeader(h.(publisher := publisher)) == CheckHeader(h) <==> publisher == h.publisher
    ensures CheckHeader(h.(bytes := x)) == CheckHeader(h) <==> x == h.bytes
    ensures CheckHeader(h.(check := x)) == CheckHeader(h)
    ensures CheckHeader(Header(0, 0, 0, 0, 0, 0, 0)) == 0xd5b4_a932_71c6_0e8f
  {
    hide Xor;
    XorZero(0);
    XorZero(CHECK_MIX);
    var w, w' := Wrap(h.publisher * 0x1_0000_0000), Wrap(publisher * 0x1_0000_0000);
    HighWords(h.publisher, publisher);
    SixApart(h.marker, h.sequence, h.planned, h.attempt, w, h.bytes, x, w');
  }

  lemma HighWords(p: U32, p': U32)
    ensures Wrap(p * 0x1_0000_0000) == Wrap(p' * 0x1_0000_0000) <==> p == p'
  {
  }

  function Mixed(a: nat, b: nat, c: nat, d: nat, e: nat, f: nat): nat {
    Xor(Xor(Xor(Xor(Xor(Xor(a, b), c), d), e), f), CHECK_MIX)
  }

  lemma SixApart(a: nat, b: nat, c: nat, d: nat, e: nat, f: nat, x: nat, y: nat)
    ensures Mixed(x, b, c, d, e, f) == Mixed(a, b, c, d, e, f) <==> x == a
    ensures Mixed(a, x, c, d, e, f) == Mixed(a, b, c, d, e, f) <==> x == b
    ensures Mixed(a, b, x, d, e, f) == Mixed(a, b, c, d, e, f) <==> x == c
    ensures Mixed(a, b, c, x, e, f) == Mixed(a, b, c, d, e, f) <==> x == d
    ensures Mixed(a, b, c, d, y, f) == Mixed(a, b, c, d, e, f) <==> y == e
    ensures Mixed(a, b, c, d, e, x) == Mixed(a, b, c, d, e, f) <==> x == f
  {
    forall u: nat, v: nat, w: nat
      ensures (Xor(u, v) == Xor(u, w) <==> v == w) && (Xor(v, u) == Xor(w, u) <==> v == w)
    {
      XorTellsApart(u, v, w);
    }
    hide Xor;
  }
}
