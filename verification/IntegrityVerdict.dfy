/** Soundness and completeness of the integrity verdict: over every stream an adversarial channel
    can deliver, it passes exactly when each publisher's frames arrived unaltered, once each and
    in order. */
module IntegrityVerdict {
  import opened Wrappers
  import opened SequenceCheck
  import opened Integrity

  /** The verdict that `run` computes for one subscriber. */
  predicate Verdict(s: Subscriber, sent: seq<nat>, expectedSamples: nat)
    requires |s.tallies| == 2 && |sent| == 2
  {
    && s.invalidPublisher == 0 && s.clockReversals == 0
    && |s.fromAttempt| == expectedSamples && |s.fromSchedule| == expectedSamples
    && (forall p :: 0 <= p < 2 ==>
          && SequenceVerdict(s.tallies[p].counters, sent[p])
          && s.tallies[p].corrupt == 0 && s.tallies[p].invalid == 0)
    && s.tallies[0].channelId != s.tallies[1].channelId
  }

  // ---------------------------------------------------------------- what should arrive

  predicate HasFrame(rules: Rules, d: Delivery)
    requires rules.Valid()
  {
    d.payload.Frame? && |d.payload.words| == rules.frameWords
  }

  /** The delivery is, word for word, the frame its publisher writes for an in-range message, with
      an attempt time exactly when the message is sampled. */
  predicate Faithful(rules: Rules, d: Delivery)
    requires rules.Valid()
  {
    HasFrame(rules, d) &&
    var h := Decode(d.payload.words);
    && h.publisher < 2 && h.sequence < rules.total
    && ((h.attempt != 0) <==> rules.sampled(h.sequence, h.publisher))
    && d.payload.words == FrameOf(rules, h.publisher, h.sequence, rules.PlannedNs(h.sequence), h.attempt)
  }

  /** A sampled message is received no earlier than it was planned and attempted. */
  predicate ClockForward(rules: Rules, d: Delivery)
    requires rules.Valid() && HasFrame(rules, d)
  {
    var h := Decode(d.payload.words);
    h.attempt != 0 ==> h.attempt <= d.now && h.planned <= d.now
  }

  function Publisher(rules: Rules, d: Delivery): nat
    requires rules.Valid() && HasFrame(rules, d)
  {
    Decode(d.payload.words).publisher
  }

  /** The sequence numbers that arrived under one publisher's name, in order of arrival. */
  function Sequences(rules: Rules, stream: seq<Delivery>, p: nat): seq<nat>
    requires rules.Valid()
  {
    if stream == [] then []
    else
      var before, d := stream[..|stream| - 1], stream[|stream| - 1];
      Sequences(rules, before, p) +
      if HasFrame(rules, d) && Publisher(rules, d) == p then [Decode(d.payload.words).sequence] else []
  }

  /** The channel id under which a publisher's first frame arrived; -1 when none has. */
  function ChannelOf(rules: Rules, stream: seq<Delivery>, p: nat): int
    requires rules.Valid()
  {
    if stream == [] then -1
    else
      var before, d := stream[..|stream| - 1], stream[|stream| - 1];
      if ChannelOf(rules, before, p) < 0 && HasFrame(rules, d) && Publisher(rules, d) == p then d.producerId
      else ChannelOf(rules, before, p)
  }

  /** How many messages of a list the sampling rule picks. */
  function SampledIn(rules: Rules, sequences: seq<nat>, p: nat): nat {
    if sequences == [] then 0
    else SampledIn(rules, sequences[..|sequences| - 1], p) +
         (if rules.sampled(sequences[|sequences| - 1], p) then 1 else 0)
  }

  /** Every frame is what its publisher wrote, and each publisher uses one channel id. */
  ghost predicate AllGood(rules: Rules, stream: seq<Delivery>)
    requires rules.Valid()
  {
    && (forall i :: 0 <= i < |stream| ==> Faithful(rules, stream[i]) && ClockForward(rules, stream[i]))
    && (forall i, j :: 0 <= i < j < |stream| && Publisher(rules, stream[i]) == Publisher(rules, stream[j])
          ==> stream[i].producerId == stream[j].producerId)
  }

  /** Exactly the stream a perfect FIFO channel produces when the publishers sent this many. */
  ghost predicate PerfectDelivery(rules: Rules, stream: seq<Delivery>, sent: seq<nat>)
    requires rules.Valid() && |sent| == 2
  {
    && AllGood(rules, stream)
    && (forall p :: 0 <= p < 2 ==> Sequences(rules, stream, p) == Iota(sent[p]))
    && ChannelOf(rules, stream, 0) != ChannelOf(rules, stream, 1)
  }

  // ---------------------------------------------------------------- one frame

  lemma {:induction false} BadWordsZero(words: seq<nat>, h: Header, index: nat, tail: seq<nat>)
    requires index <= |words| && |tail| == |words| - index
    requires forall j :: 0 <= j < |tail| ==> tail[j] == Filler(h.sequence, h.publisher, index + j)
    ensures BadWords(words, h, index) == 0 <==> words[index..] == tail
    decreases |words| - index
  {
    hide Filler;
    if index < |words| {
      BadWordsZero(words, h, index + 1, tail[1..]);
      assert words[index..] == [words[index]] + words[index + 1..];
      assert tail == [tail[0]] + tail[1..];
    }
  }

  lemma SplitEqual<T>(a: seq<T>, b: seq<T>, k: nat)
    requires |a| == |b| && k <= |a|
    ensures a == b <==> a[..k] == b[..k] && a[k..] == b[k..]
  {
    assert a == a[..k] + a[k..] && b == b[..k] + b[k..];
  }

  /** The handler finds nothing wrong with a frame exactly when it is what the publisher would
      write: no corruption of any word goes unnoticed and no good frame is rejected. */
  lemma FrameAcceptedIff(rules: Rules, words: seq<nat>)
    requires rules.Valid() && |words| == rules.frameWords
    ensures var h := Decode(words);
            BadHeader(rules, h) + BadWords(words, h, 6) == 0 <==>
              words == FrameOf(rules, h.publisher, h.sequence, h.planned, h.attempt)
  {
    var h := Decode(words);
    var frame := FrameOf(rules, h.publisher, h.sequence, h.planned, h.attempt);
    HeaderWords(rules, words);
    TailWords(rules, words);
    hide FrameOf, BadHeader, BadWords, Decode;
    SplitEqual(words, frame, 6);
  }

  lemma TailWords(rules: Rules, words: seq<nat>)
    requires rules.Valid() && |words| == rules.frameWords
    ensures var h := Decode(words);
            BadWords(words, h, 6) == 0 <==>
              words[6..] == FrameOf(rules, h.publisher, h.sequence, h.planned, h.attempt)[6..]
  {
    hide Filler, Decode, FrameOf, BadWords;
    var h := Decode(words);
    TailOfFrame(rules, h.publisher, h.sequence, h.planned, h.attempt);
    BadWordsZero(words, h, 6, FrameOf(rules, h.publisher, h.sequence, h.planned, h.attempt)[6..]);
  }

  lemma TailOfFrame(rules: Rules, publisher: nat, sequence: nat, planned: nat, attempt: nat)
    requires rules.Valid()
    ensures var tail := FrameOf(rules, publisher, sequence, planned, attempt)[6..];
            |tail| == rules.frameWords - 6 &&
            forall j :: 0 <= j < |tail| ==> tail[j] == Filler(sequence, publisher, 6 + j)
  {
    hide Filler, CheckHeader;
  }

  lemma HeaderWords(rules: Rules, words: seq<nat>)
    requires rules.Valid() && |words| == rules.frameWords
    ensures var h := Decode(words);
            BadHeader(rules, h) == 0 <==>
              words[..6] == FrameOf(rules, h.publisher, h.sequence, h.planned, h.attempt)[..6]
  {
    var h := Decode(words);
    var h' := Header(MAGIC, h.sequence, h.planned, h.attempt, h.publisher, rules.FrameBytes(), 0);
    var head := FrameOf(rules, h.publisher, h.sequence, h.planned, h.attempt)[..6];
    assert head == [MAGIC, h.sequence, h.planned, h.attempt,
                    h.publisher + rules.FrameBytes() * 0x1_0000_0000, CheckHeader(h')];
    assert words[..6] == [h.marker, h.sequence, h.planned, h.attempt,
                          h.publisher + h.bytes * 0x1_0000_0000, h.check];
    if h.marker == MAGIC && h.bytes == rules.FrameBytes() {
      assert CheckHeader(h) == CheckHeader(h');
    }
    assert words[..6] == head <==> words[..6][0] == head[0] && words[..6][4] == head[4] && words[..6][5] == head[5];
  }

  lemma FaithfulIff(rules: Rules, d: Delivery)
    requires rules.Valid() && HasFrame(rules, d)
    ensures var words := d.payload.words;
            var h := Decode(words);
            Faithful(rules, d) <==>
              h.publisher < 2 && h.sequence < rules.total &&
              BadHeader(rules, h) + BadWords(words, h, 6) + BadContext(rules, h) == 0
  {
    FrameAcceptedIff(rules, d.payload.words);
    var h := Decode(d.payload.words);
    assert FrameOf(rules, h.publisher, h.sequence, rules.PlannedNs(h.sequence), h.attempt)[2]
        == rules.PlannedNs(h.sequence);
  }

  // ---------------------------------------------------------------- whole streams

  predicate Unblemished(s: Subscriber)
    requires |s.tallies| == 2
  {
    && s.invalidPublisher == 0 && s.clockReversals == 0
    && s.tallies[0].corrupt == 0 && s.tallies[0].invalid == 0
    && s.tallies[1].corrupt == 0 && s.tallies[1].invalid == 0
  }

  /** The last delivery is beyond reproach, given what came before it. */
  predicate GoodLast(rules: Rules, before: seq<Delivery>, d: Delivery)
    requires rules.Valid()
  {
    && Faithful(rules, d) && ClockForward(rules, d)
    && (ChannelOf(rules, before, Publisher(rules, d)) < 0 ||
        ChannelOf(rules, before, Publisher(rules, d)) == d.producerId)
  }

  predicate Good(rules: Rules, stream: seq<Delivery>)
    requires rules.Valid()
  {
    stream == [] ||
    (Good(rules, stream[..|stream| - 1]) && GoodLast(rules, stream[..|stream| - 1], stream[|stream| - 1]))
  }

  ghost predicate TallyAgrees(rules: Rules, t: Tally, stream: seq<Delivery>, p: nat)
    requires rules.Valid()
  {
    && t.counters == Observed(Sequences(rules, stream, p))
    && t.seen == Elements(Sequences(rules, stream, p))
    && t.channelId == ChannelOf(rules, stream, p)
  }

  function SampledOf(rules: Rules, stream: seq<Delivery>): nat
    requires rules.Valid()
  {
    SampledIn(rules, Sequences(rules, stream, 0), 0) + SampledIn(rules, Sequences(rules, stream, 1), 1)
  }

  /** The subscriber's state agrees with the stream it has seen. */
  ghost predicate Agrees(rules: Rules, s: Subscriber, stream: seq<Delivery>)
    requires rules.Valid() && |s.tallies| == 2
  {
    && TallyAgrees(rules, s.tallies[0], stream, 0)
    && TallyAgrees(rules, s.tallies[1], stream, 1)
    && |s.fromAttempt| == |s.fromSchedule| == SampledOf(rules, stream)
  }

  /** Blemishes never heal: one delivery keeps a clean record exactly when it is beyond reproach. */
  lemma HandleUnblemished(rules: Rules, before: seq<Delivery>, s: Subscriber, d: Delivery)
    requires rules.Valid() && |s.tallies| == 2
    requires Unblemished(s) ==> Agrees(rules, s, before)
    ensures Unblemished(Handle(rules, s, d)) <==> Unblemished(s) && GoodLast(rules, before, d)
  {
    if HasFrame(rules, d) {
      FaithfulIff(rules, d);
      hide BadHeader, BadWords, BadContext, Decode, FrameOf, Step;
      if Unblemished(s) && Publisher(rules, d) < 2 {
        assert s.tallies[Publisher(rules, d)].channelId == ChannelOf(rules, before, Publisher(rules, d));
      }
    }
  }

  lemma SequencesStep(rules: Rules, stream: seq<Delivery>, p: nat)
    requires rules.Valid() && stream != [] && HasFrame(rules, stream[|stream| - 1])
    ensures var before, d := stream[..|stream| - 1], stream[|stream| - 1];
            var after := Sequences(rules, stream, p);
            if Publisher(rules, d) == p then
              var v := Decode(d.payload.words).sequence;
              after == Sequences(rules, before, p) + [v] && after[..|after| - 1] == Sequences(rules, before, p) &&
              Elements(after) == Elements(Sequences(rules, before, p)) + {v}
            else after == Sequences(rules, before, p)
  {
    var before, d := stream[..|stream| - 1], stream[|stream| - 1];
    if Publisher(rules, d) == p {
      var after := Sequences(rules, stream, p);
      assert after[..|after| - 1] == Sequences(rules, before, p);
      ElementsStep(after);
    }
  }

  lemma AccountAgrees(rules: Rules, stream: seq<Delivery>, t: Tally, p: nat)
    requires rules.Valid() && stream != [] && HasFrame(rules, stream[|stream| - 1])
    requires TallyAgrees(rules, t, stream[..|stream| - 1], p)
    ensures var d := stream[|stream| - 1];
            if Publisher(rules, d) == p then
              Decode(d.payload.words).sequence < rules.total ==>
                TallyAgrees(rules, Account(rules, t, d.payload.words, d.producerId), stream, p)
            else TallyAgrees(rules, t, stream, p)
  {
    SequencesStep(rules, stream, p);
    hide BadHeader, BadWords, BadContext, FrameOf, Decode, Step;
  }

  lemma SampledStep(rules: Rules, stream: seq<Delivery>)
    requires rules.Valid() && stream != [] && HasFrame(rules, stream[|stream| - 1])
    requires Publisher(rules, stream[|stream| - 1]) < 2
    ensures var d := stream[|stream| - 1];
            SampledOf(rules, stream) == SampledOf(rules, stream[..|stream| - 1]) +
              (if rules.sampled(Decode(d.payload.words).sequence, Publisher(rules, d)) then 1 else 0)
  {
    hide Decode, Sequences, Elements, Publisher, HasFrame;
    SequencesStep(rules, stream, 0);
    SequencesStep(rules, stream, 1);
  }

  lemma HandleAgrees(rules: Rules, stream: seq<Delivery>, s: Subscriber)
    requires rules.Valid() && |s.tallies| == 2 && stream != []
    requires Agrees(rules, s, stream[..|stream| - 1])
    requires GoodLast(rules, stream[..|stream| - 1], stream[|stream| - 1])
    ensures Agrees(rules, Handle(rules, s, stream[|stream| - 1]), stream)
  {
    hide TallyAgrees, SampledOf, Account, FrameOf, Decode, Rules.PlannedNs;
    var d := stream[|stream| - 1];
    AccountAgrees(rules, stream, s.tallies[0], 0);
    AccountAgrees(rules, stream, s.tallies[1], 1);
    SampledStep(rules, stream);
  }

  lemma {:induction false} RunAgrees(rules: Rules, stream: seq<Delivery>)
    requires rules.Valid()
    ensures Unblemished(Run(rules, stream)) <==> Good(rules, stream)
    ensures Good(rules, stream) ==> Agrees(rules, Run(rules, stream), stream)
  {
    if stream != [] {
      var before := stream[..|stream| - 1];
      RunAgrees(rules, before);
      HandleUnblemished(rules, before, Run(rules, before), stream[|stream| - 1]);
      if Good(rules, stream) {
        HandleAgrees(rules, stream, Run(rules, before));
      }
    }
  }

  lemma {:induction false} ChannelMember(rules: Rules, stream: seq<Delivery>, p: nat)
    requires rules.Valid() && forall i :: 0 <= i < |stream| ==> HasFrame(rules, stream[i])
    ensures ChannelOf(rules, stream, p) < 0 ==>
              forall i :: 0 <= i < |stream| ==> Publisher(rules, stream[i]) != p
    ensures ChannelOf(rules, stream, p) >= 0 ==>
              exists i :: 0 <= i < |stream| && Publisher(rules, stream[i]) == p &&
                          stream[i].producerId == ChannelOf(rules, stream, p)
  {
    if stream != [] {
      var before := stream[..|stream| - 1];
      ChannelMember(rules, before, p);
      if ChannelOf(rules, before, p) >= 0 {
        var i :| 0 <= i < |before| && Publisher(rules, before[i]) == p &&
                 before[i].producerId == ChannelOf(rules, before, p);
        assert stream[i] == before[i];
      }
    }
  }

  lemma {:induction false} GoodIff(rules: Rules, stream: seq<Delivery>)
    requires rules.Valid()
    ensures Good(rules, stream) <==> AllGood(rules, stream)
  {
    if stream != [] {
      var before, d := stream[..|stream| - 1], stream[|stream| - 1];
      GoodIff(rules, before);
      if AllGood(rules, stream) {
        AllGoodPrefix(rules, stream);
        GoodLastFrom(rules, stream);
      } else if AllGood(rules, before) && GoodLast(rules, before, d) {
        AllGoodFrom(rules, stream);
      }
    }
  }

  lemma AllGoodPrefix(rules: Rules, stream: seq<Delivery>)
    requires rules.Valid() && stream != [] && AllGood(rules, stream)
    ensures AllGood(rules, stream[..|stream| - 1])
  {
    hide Faithful, ClockForward, Publisher;
  }

  lemma AllHaveFrames(rules: Rules, stream: seq<Delivery>)
    requires rules.Valid() && AllGood(rules, stream)
    ensures forall i :: 0 <= i < |stream| ==> HasFrame(rules, stream[i])
  {
    hide HasFrame, ClockForward, Publisher;
    forall i | 0 <= i < |stream| ensures HasFrame(rules, stream[i]) {
      assert Faithful(rules, stream[i]);
    }
  }

  /** When each publisher uses one channel id, that id is the first one. */
  lemma ChannelIdOfAll(rules: Rules, stream: seq<Delivery>, p: nat)
    requires rules.Valid() && AllGood(rules, stream)
    ensures forall i :: 0 <= i < |stream| ==> HasFrame(rules, stream[i])
    ensures forall i :: 0 <= i < |stream| && Publisher(rules, stream[i]) == p ==>
              stream[i].producerId == ChannelOf(rules, stream, p)
  {
    hide Faithful, ClockForward, Publisher, ChannelOf, HasFrame;
    AllHaveFrames(rules, stream);
    ChannelMember(rules, stream, p);
    forall i | 0 <= i < |stream| && Publisher(rules, stream[i]) == p
      ensures stream[i].producerId == ChannelOf(rules, stream, p)
    {
      var k :| 0 <= k < |stream| && Publisher(rules, stream[k]) == p &&
               stream[k].producerId == ChannelOf(rules, stream, p);
      if k < i {
        assert stream[k].producerId == stream[i].producerId;
      } else if i < k {
        assert stream[i].producerId == stream[k].producerId;
      }
    }
  }

  lemma GoodLastFrom(rules: Rules, stream: seq<Delivery>)
    requires rules.Valid() && stream != [] && AllGood(rules, stream)
    ensures GoodLast(rules, stream[..|stream| - 1], stream[|stream| - 1])
  {
    var before, d := stream[..|stream| - 1], stream[|stream| - 1];
    assert Faithful(rules, stream[|stream| - 1]) && ClockForward(rules, stream[|stream| - 1]);
    var p := Publisher(rules, d);
    AllGoodPrefix(rules, stream);
    ChannelIdOfAll(rules, before, p);
    ChannelMember(rules, before, p);
    hide Faithful, ClockForward, Publisher, ChannelOf;
    if ChannelOf(rules, before, p) >= 0 {
      var i :| 0 <= i < |before| && Publisher(rules, before[i]) == p &&
               before[i].producerId == ChannelOf(rules, before, p);
      assert stream[i] == before[i];
    }
  }

  lemma AllGoodFrom(rules: Rules, stream: seq<Delivery>)
    requires rules.Valid() && stream != [] && AllGood(rules, stream[..|stream| - 1])
    requires GoodLast(rules, stream[..|stream| - 1], stream[|stream| - 1])
    ensures AllGood(rules, stream)
  {
    var before, d := stream[..|stream| - 1], stream[|stream| - 1];
    var p := Publisher(rules, d);
    ChannelIdOfAll(rules, before, p);
    ChannelMember(rules, before, p);
    assert stream == before + [d];
    hide Faithful, ClockForward, Publisher, ChannelOf, AllGood;
    AllGoodAppend(rules, before, d);
  }

  lemma AllGoodAppend(rules: Rules, before: seq<Delivery>, d: Delivery)
    requires rules.Valid() && AllGood(rules, before) && Faithful(rules, d) && ClockForward(rules, d)
    requires forall i :: 0 <= i < |before| && Publisher(rules, before[i]) == Publisher(rules, d)
               ==> before[i].producerId == d.producerId
    ensures AllGood(rules, before + [d])
  {
    hide Publisher, ClockForward, FrameOf, Decode;
  }

  /** Frames under a publisher's name whose sequence number is outside the run. */
  function OutOfRange(rules: Rules, stream: seq<Delivery>, p: nat): nat
    requires rules.Valid()
  {
    if stream == [] then 0
    else
      var before, d := stream[..|stream| - 1], stream[|stream| - 1];
      OutOfRange(rules, before, p) +
      if HasFrame(rules, d) && Publisher(rules, d) == p &&
         Decode(d.payload.words).sequence >= rules.total then 1 else 0
  }

  lemma AccountConserves(rules: Rules, t: Tally, d: Delivery)
    requires rules.Valid() && HasFrame(rules, d)
    ensures var after := Account(rules, t, d.payload.words, d.producerId);
            after.received == t.received + 1 &&
            after.counters.unique + after.counters.duplicate == t.counters.unique + t.counters.duplicate +
              (if Decode(d.payload.words).sequence < rules.total then 1 else 0)
  {
    hide BadHeader, BadWords, BadContext, Decode, FrameOf;
  }

  lemma HandleConserves(rules: Rules, s: Subscriber, d: Delivery)
    requires rules.Valid() && |s.tallies| == 2
    ensures var after := Handle(rules, s, d);
            after.count == s.count + 1 && |after.tallies| == 2 &&
            after.invalidPublisher + after.tallies[0].received + after.tallies[1].received ==
              s.invalidPublisher + s.tallies[0].received + s.tallies[1].received + 1
    ensures var after := Handle(rules, s, d);
            forall p :: 0 <= p < 2 ==>
              after.tallies[p] ==
                if HasFrame(rules, d) && Publisher(rules, d) == p
                then Account(rules, s.tallies[p], d.payload.words, d.producerId) else s.tallies[p]
  {
    hide Account, Decode, FrameOf;
    if HasFrame(rules, d) && Publisher(rules, d) < 2 {
      AccountConserves(rules, s.tallies[Publisher(rules, d)], d);
    }
  }

  /** Every frame is accounted for once, whatever the channel does: by publisher or as foreign, and
      under its publisher as new, repeated or out of range. */
  lemma {:induction false} FramesConserved(rules: Rules, stream: seq<Delivery>)
    requires rules.Valid()
    ensures var s := Run(rules, stream);
            s.count == |stream| == s.invalidPublisher + s.tallies[0].received + s.tallies[1].received
    ensures var s := Run(rules, stream);
            forall p :: 0 <= p < 2 ==>
              s.tallies[p].received ==
                s.tallies[p].counters.unique + s.tallies[p].counters.duplicate + OutOfRange(rules, stream, p)
  {
    if stream != [] {
      var before, d := stream[..|stream| - 1], stream[|stream| - 1];
      FramesConserved(rules, before);
      var s := Run(rules, before);
      HandleConserves(rules, s, d);
      if HasFrame(rules, d) && Publisher(rules, d) < 2 {
        AccountConserves(rules, s.tallies[Publisher(rules, d)], d);
      }
      hide Account, Decode, FrameOf, Handle;
    }
  }

  /** The main result. `expectedSamples` is what the publishers record for the messages they
      commit, so the verdict needs no help from outside. */
  lemma VerdictIff(rules: Rules, stream: seq<Delivery>, sent: seq<nat>)
    requires rules.Valid() && |sent| == 2
    ensures Verdict(Run(rules, stream), sent,
                    SampledIn(rules, Iota(sent[0]), 0) + SampledIn(rules, Iota(sent[1]), 1))
            <==> PerfectDelivery(rules, stream, sent)
  {
    hide Verdict, PerfectDelivery, Unblemished, AllGood, Run, Good, Sequences, ChannelOf, Observed,
      SequenceVerdict, SampledIn, Iota, Elements;
    var s := Run(rules, stream);
    RunAgrees(rules, stream);
    GoodIff(rules, stream);
    SequenceVerdictIff(Sequences(rules, stream, 0), sent[0]);
    SequenceVerdictIff(Sequences(rules, stream, 1), sent[1]);
    var expected := SampledIn(rules, Iota(sent[0]), 0) + SampledIn(rules, Iota(sent[1]), 1);
    VerdictForm(s, sent, expected);
    PerfectForm(rules, stream, sent);
  }

  lemma VerdictForm(s: Subscriber, sent: seq<nat>, expected: nat)
    requires |s.tallies| == 2 && |sent| == 2
    ensures Verdict(s, sent, expected) <==>
              Unblemished(s) && |s.fromAttempt| == |s.fromSchedule| == expected &&
              SequenceVerdict(s.tallies[0].counters, sent[0]) && SequenceVerdict(s.tallies[1].counters, sent[1]) &&
              s.tallies[0].channelId != s.tallies[1].channelId
  {
    hide SequenceVerdict;
  }

  lemma PerfectForm(rules: Rules, stream: seq<Delivery>, sent: seq<nat>)
    requires rules.Valid() && |sent| == 2
    ensures PerfectDelivery(rules, stream, sent) <==>
              AllGood(rules, stream) &&
              Sequences(rules, stream, 0) == Iota(sent[0]) && Sequences(rules, stream, 1) == Iota(sent[1]) &&
              ChannelOf(rules, stream, 0) != ChannelOf(rules, stream, 1)
  {
    hide Sequences, ChannelOf, Iota;
  }
}
