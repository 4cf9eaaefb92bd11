/** The subscriber of the acceptance engine and the integrity verdict of a run
    (tools/hft_acceptance/acceptance.cpp). The channel is an adversary: it may drop, repeat,
    reorder, truncate or rewrite frames. */
module Integrity {
  import opened Words
  import opened Bits
  import opened SequenceCheck

  const MAGIC: nat := 0x53414c4941534846
  const CHECK_MIX: nat := 0xd5b4a93271c60e8f

  /** What both sides of the channel agree on before the run: the frame length in 64-bit words, the
      start time, the number of messages and their due times, whatever schedule these come from, and
      the rule that picks the sampled messages. */
  datatype Rules = Rules(frameWords: nat, startNs: nat, total: nat, due: nat -> nat, sampled: (nat, nat) -> bool) {
    predicate Valid() {
      frameWords == 8 || frameWords == 32
    }

    function FrameBytes(): nat {
      8 * frameWords
    }

    function PlannedNs(sequence: nat): nat
      requires Valid()
    {
      Wrap(startNs + due(sequence))
    }
  }

  datatype Header = Header(marker: nat, sequence: nat, planned: nat, attempt: nat,
                           publisher: nat, bytes: nat, check: nat)

  function CheckHeader(h: Header): nat {
    Xor(Xor(Xor(Xor(Xor(Xor(h.marker, h.sequence), h.planned), h.attempt), Wrap(h.publisher * 0x1_0000_0000)),
            h.bytes), CHECK_MIX)
  }

  /** The header as the first six words of a frame; publisher and length share the fifth. */
  function Decode(words: seq<nat>): Header
    requires |words| >= 6
  {
    Header(words[0], words[1], words[2], words[3], words[4] % 0x1_0000_0000, words[4] / 0x1_0000_0000, words[5])
  }

  function Filler(sequence: nat, publisher: nat, index: nat): nat {
    Xor(Xor(Xor(MAGIC, sequence), Wrap(publisher * 0x2000_0000_0000_0000)), index)
  }

  /** The frame a publisher writes for one message. */
  function FrameOf(rules: Rules, publisher: nat, sequence: nat, planned: nat, attempt: nat): (words: seq<nat>)
    requires rules.Valid()
    ensures |words| == rules.frameWords
  {
    var h := Header(MAGIC, sequence, planned, attempt, publisher, rules.FrameBytes(), 0);
    [MAGIC, sequence, planned, attempt, publisher + rules.FrameBytes() * 0x1_0000_0000, CheckHeader(h)] +
    seq(rules.frameWords - 6, i requires 0 <= i => Filler(sequence, publisher, i + 6))
  }

  /** A delivered payload: whole 64-bit words, or a length that is no multiple of eight bytes. */
  datatype Payload = Frame(words: seq<nat>) | Ragged

  datatype Delivery = Delivery(payload: Payload, producerId: nat, now: nat)

  // ---------------------------------------------------------------- what the handler counts

  function BadWords(words: seq<nat>, h: Header, index: nat): nat
    requires index <= |words|
    decreases |words| - index
  {
    if index == |words| then 0
    else (if words[index] != Filler(h.sequence, h.publisher, index) then 1 else 0) + BadWords(words, h, index + 1)
  }

  function BadHeader(rules: Rules, h: Header): nat {
    if h.marker != MAGIC || h.bytes != rules.FrameBytes() || h.check != CheckHeader(h) then 1 else 0
  }

  function BadContext(rules: Rules, h: Header): nat
    requires rules.Valid()
  {
    if h.planned != rules.PlannedNs(h.sequence) || (h.attempt != 0) != rules.sampled(h.sequence, h.publisher) then 1
    else 0
  }

  datatype Tally = Tally(received: nat, corrupt: nat, invalid: nat, channelId: int, counters: Counters, seen: set<nat>)

  datatype Subscriber = Subscriber(count: nat, invalidPublisher: nat, clockReversals: nat,
                                   fromAttempt: seq<nat>, fromSchedule: seq<nat>, tallies: seq<Tally>)

  /** The part of the handler that touches one publisher's counters. */
  function Account(rules: Rules, t: Tally, words: seq<nat>, producerId: nat): Tally
    requires rules.Valid() && |words| == rules.frameWords
  {
    var h := Decode(words);
    var channelId := if t.channelId < 0 then producerId else t.channelId;
    var corrupt := t.corrupt + BadHeader(rules, h) + BadWords(words, h, 6);
    var invalid := t.invalid + (if channelId != producerId then 1 else 0);
    if h.sequence >= rules.total then
      Tally(t.received + 1, corrupt, invalid + 1, channelId, t.counters, t.seen)
    else
      Tally(t.received + 1, corrupt + BadContext(rules, h), invalid, channelId,
            Step(t.counters, t.seen, h.sequence), t.seen + {h.sequence})
  }

  function Handle(rules: Rules, s: Subscriber, d: Delivery): Subscriber
    requires rules.Valid() && |s.tallies| == 2
  {
    var counted := s.(count := s.count + 1);
    if d.payload.Ragged? || |d.payload.words| != rules.frameWords then
      counted.(invalidPublisher := s.invalidPublisher + 1)
    else
      var words := d.payload.words;
      var h := Decode(words);
      if h.publisher >= 2 then counted.(invalidPublisher := s.invalidPublisher + 1)
      else
        var accounted := counted.(
          tallies := s.tallies[h.publisher := Account(rules, s.tallies[h.publisher], words, d.producerId)]);
        if h.sequence >= rules.total || h.attempt == 0 then accounted
        else if d.now < h.attempt || d.now < h.planned then
          accounted.(clockReversals := s.clockReversals + 1)
        else
          accounted.(fromAttempt := s.fromAttempt + [d.now - h.attempt],
                     fromSchedule := s.fromSchedule + [d.now - h.planned])
  }

  const NEW_TALLY := Tally(0, 0, 0, -1, NO_COUNTS, {})
  const NEW_SUBSCRIBER := Subscriber(0, 0, 0, [], [], [NEW_TALLY, NEW_TALLY])

  /** The subscriber after a whole stream of deliveries. */
  function Run(rules: Rules, stream: seq<Delivery>): (s: Subscriber)
    requires rules.Valid()
    ensures |s.tallies| == 2
  {
    if stream == [] then NEW_SUBSCRIBER
    else Handle(rules, Run(rules, stream[..|stream| - 1]), stream[|stream| - 1])
  }

  // ---------------------------------------------------------------- the imperative subscriber

  class SubscriberStats {
    var count: nat
    var invalidPublisher: nat
    var clockReversals: nat
    var fromAttempt: seq<nat>   // the samples given to the two latency histograms
    var fromSchedule: seq<nat>
    const sequence: seq<SequenceStats>
    const seen: seq<array<U64>>

    ghost predicate Valid(rules: Rules)
      reads this
    {
      && rules.Valid()
      && |sequence| == 2 && sequence[0] != sequence[1]
      && |seen| == 2 && seen[0] != seen[1]
      && seen[0].Length == seen[1].Length == (rules.total + 63) / 64
    }

    ghost function View(): Subscriber
      requires |sequence| == 2 && |seen| == 2
      reads this, sequence, seen
    {
      Subscriber(count, invalidPublisher, clockReversals, fromAttempt, fromSchedule,
                 [TallyOf(sequence[0], seen[0]), TallyOf(sequence[1], seen[1])])
    }

    constructor (rules: Rules)
      requires rules.Valid()
      ensures Valid(rules) && View() == NEW_SUBSCRIBER
    {
      var s0 := new SequenceStats();
      var s1 := new SequenceStats();
      var bits0 := new U64[(rules.total + 63) / 64](_ => 0);
      var bits1 := new U64[(rules.total + 63) / 64](_ => 0);
      count, invalidPublisher, clockReversals, fromAttempt, fromSchedule := 0, 0, 0, [], [];
      sequence, seen := [s0, s1], [bits0, bits1];
      new;
      EmptyBitmap(seen[0][..]);
      EmptyBitmap(seen[1][..]);
    }

    method OnMessage(rules: Rules, d: Delivery)
      requires Valid(rules)
      modifies this, sequence, seen
      ensures Valid(rules) && View() == Handle(rules, old(View()), d)
    {
      hide Account, Decode, SeenSet;
      count := count + 1;
      if d.payload.Ragged? || |d.payload.words| != rules.frameWords {
        invalidPublisher := invalidPublisher + 1;
        return;
      }
      var words := d.payload.words;
      var h := Decode(words);
      var receive := if h.attempt != 0 then d.now else 0;
      if h.publisher >= 2 {
        invalidPublisher := invalidPublisher + 1;
        return;
      }
      OnFrame(rules, sequence[h.publisher], seen[h.publisher], words, d.producerId);
      if h.sequence >= rules.total {
        return;
      }
      if h.attempt != 0 {
        if receive < h.attempt || receive < h.planned {
          clockReversals := clockReversals + 1;
        } else {
          fromAttempt := fromAttempt + [receive - h.attempt];
          fromSchedule := fromSchedule + [receive - h.planned];
        }
      }
    }
  }

  ghost function TallyOf(seq': SequenceStats, bits: array<U64>): Tally
    reads seq', bits
  {
    Tally(seq'.received, seq'.corrupt, seq'.invalid, seq'.channelProducerId, seq'.Counts(), SeenSet(bits[..]))
  }

  /** The handler's work on one publisher's counters and bitmap. */
  method OnFrame(rules: Rules, stats: SequenceStats, bits: array<U64>, words: seq<nat>, producerId: nat)
    requires rules.Valid() && |words| == rules.frameWords
    requires bits.Length == (rules.total + 63) / 64
    modifies stats, bits
    ensures TallyOf(stats, bits) == Account(rules, old(TallyOf(stats, bits)), words, producerId)
  {
    hide BadHeader, BadContext, Filler, Step, SeenSet;
    var h := Decode(words);
    stats.received := stats.received + 1;
    stats.corrupt := stats.corrupt + BadHeader(rules, h);
    ghost var corrupt := stats.corrupt;
    for word := 6 to rules.frameWords
      invariant stats.corrupt + BadWords(words, h, word) == corrupt + BadWords(words, h, 6)
      invariant stats.Counts() == old(stats.Counts()) && bits[..] == old(bits[..])
      invariant stats.received == old(stats.received) + 1 && stats.invalid == old(stats.invalid)
      invariant stats.channelProducerId == old(stats.channelProducerId)
    {
      if words[word] != Filler(h.sequence, h.publisher, word) {
        stats.corrupt := stats.corrupt + 1;
      }
    }
    if stats.channelProducerId < 0 {
      stats.channelProducerId := producerId;
    }
    if stats.channelProducerId != producerId {
      stats.invalid := stats.invalid + 1;
    }
    if h.sequence >= rules.total {
      stats.invalid := stats.invalid + 1;
      return;
    }
    stats.corrupt := stats.corrupt + BadContext(rules, h);
    BitmapLargeEnough(rules.total, h.sequence);
    stats.Observe(bits, h.sequence);
  }
}
