/** The payload writer, the payload validator and the verifying consumer loop of
    bench/fast_ring_compare.cpp. A payload is an array of 64-bit words. */
module FastRingCheck {
  import opened Words
  import opened SequenceCheck
  import opened PayloadPattern

  /** Word i of a fully written payload. */
  function Word(producer: U32, sequence: U64, i: nat): U64 {
    if i == 0 then producer else if i == 1 then sequence else AddWord(Pattern(producer, sequence), i)
  }

  function Filled(words: nat, producer: U32, sequence: U64): (payload: seq<U64>)
    ensures |payload| == words && forall i :: 0 <= i < words ==> payload[i] == Word(producer, sequence, i)
  {
    seq(words, i requires 0 <= i => Word(producer, sequence, i))
  }

  /** The bytes 4 to 7 of word 0 are written as zero and never read back. */
  function Producer(word: U64): U32 {
    word % 0x1_0000_0000
  }

  /** What the validator demands of a payload that should have this many words. */
  predicate Accepts(payload: seq<U64>, words: nat, producer: U32, sequence: U64, full: bool)
    requires words >= 2
  {
    && |payload| == words
    && Producer(payload[0]) == producer && payload[1] == sequence
    && (full ==> forall i :: 2 <= i < words ==> payload[i] == Word(producer, sequence, i))
  }

  method FillPayload(payload: array<U64>, producer: U32, sequence: U64, full: bool)
    requires payload.Length >= 2
    modifies payload
    ensures full ==> payload[..] == Filled(payload.Length, producer, sequence)
    ensures !full ==> payload[..] == old(payload[..])[0 := producer][1 := sequence]
  {
    payload[0] := producer;
    payload[1] := sequence;
    if !full {
      return;
    }
    var pattern := Pattern(producer, sequence);
    for index := 2 to payload.Length
      invariant forall i :: 0 <= i < index ==> payload[i] == Word(producer, sequence, i)
    {
      payload[index] := AddWord(pattern, index);
    }
  }

  method ValidatePayload(payload: array<U64>, words: nat, producer: U32, sequence: U64, full: bool)
    returns (ok: bool)
    requires words >= 2
    ensures ok <==> Accepts(payload[..], words, producer, sequence, full)
  {
    if payload.Length != words {
      return false;
    }
    if Producer(payload[0]) != producer || payload[1] != sequence {
      return false;
    }
    if !full {
      return true;
    }
    var pattern := Pattern(producer, sequence);
    for index := 2 to words
      invariant forall i :: 2 <= i < index ==> payload[i] == Word(producer, sequence, i)
    {
      if payload[index] != AddWord(pattern, index) {
        assert payload[..][index] != Word(producer, sequence, index);
        return false;
      }
    }
    return true;
  }

  /** The full check accepts exactly what the writer wrote, on every byte it reads: the payload
      equals the written one once bytes 4 to 7 of word 0 are cleared. */
  lemma FullCheckIff(payload: seq<U64>, words: nat, producer: U32, sequence: U64)
    requires words >= 2
    ensures Accepts(payload, words, producer, sequence, true) <==>
              |payload| == words && payload[0 := Producer(payload[0])] == Filled(words, producer, sequence)
  {
    var written := Filled(words, producer, sequence);
    if |payload| == words {
      var read := payload[0 := Producer(payload[0])];
      if Accepts(payload, words, producer, sequence, true) {
        assert forall i :: 0 <= i < words ==> read[i] == written[i];
      }
      if read == written {
        assert read[0] == written[0] && read[1] == written[1];
        assert forall i :: 2 <= i < words ==> payload[i] == read[i] == written[i];
      }
    }
  }

  /** Writing one message and checking for another succeeds only when they are the same. */
  lemma FillThenValidate(words: nat, p: U32, s: U64, p': U32, s': U64, full: bool)
    requires words >= 2
    ensures Accepts(Filled(words, p, s), words, p', s', full) <==> p == p' && s == s'
  {
    assert Filled(words, p, s)[0] == p && Filled(words, p, s)[1] == s;
  }

  /** A payload whose first two words were written for one message and the rest for another: the full
      check accepts it only if there is no rest or the two messages have the same pattern, so never if
      they are different messages of one producer or of one number. */
  lemma StalePayloadIff(words: nat, p: U32, s: U64, p': U32, s': U64)
    requires words >= 2
    ensures var stale := Filled(words, p, s)[0 := p'][1 := s'];
            && (Accepts(stale, words, p', s', true) <==> words == 2 || Pattern(p, s) == Pattern(p', s'))
            && (p == p' || s == s' ==> (Accepts(stale, words, p', s', true) <==> words == 2 || (p == p' && s == s')))
  {
    hide Pattern, AddWord;
    PatternTellsApart(p, s, p', s');
    var stale := Filled(words, p, s)[0 := p'][1 := s'];
    forall i | 2 <= i < words ensures stale[i] == Word(p', s', i) <==> Pattern(p, s) == Pattern(p', s') {
      WordsTellApart(Pattern(p, s), Pattern(p', s'), i);
    }
    if words > 2 {
      assert stale[2] == Word(p, s, 2);
    }
  }

  // ---------------------------------------------------------------- the consumer loop

  /** What the ring answers to one try_read: nothing, an error, or a payload together with the
      answers of the release and flush calls that follow it. */
  datatype Event = Empty | ReadError | Read(payload: seq<U64>, released: bool, flushed: bool)

  datatype Message = Message(producer: nat, sequence: nat)

  datatype Config = Config(producers: nat, messages: nat, words: nat, full: bool) {
    predicate Valid() {
      words >= 2
    }

    function Total(): nat {
      producers * messages
    }
  }

  datatype Consumer =
    | Running(expected: seq<U64>, accepted: seq<Message>)
    | Failed(code: nat)

  function Step(c: Config, s: Consumer, e: Event): Consumer
    requires c.Valid() && s.Running? && |s.expected| == c.producers
  {
    match e
    case Empty => s
    case ReadError => Failed(24)
    case Read(payload, released, flushed) =>
      if payload == [] then Failed(25)
      else
        var producer := Producer(payload[0]);
        if producer >= c.producers || !Accepts(payload, c.words, producer, s.expected[producer], c.full) then Failed(25)
        else if !released then Failed(26)
        else
          var accepted := s.accepted + [Message(producer, s.expected[producer])];
          if |accepted| % 64 == 0 && !flushed then Failed(28)
          else Running(s.expected[producer := AddWord(s.expected[producer], 1)], accepted)
  }

  /** The loop: it stops when it has accepted the total, has failed, or has nothing left to read. */
  function Run(c: Config, s: Consumer, events: seq<Event>): (r: Consumer)
    requires c.Valid() && (s.Running? ==> |s.expected| == c.producers)
    ensures r.Running? ==> |r.expected| == c.producers
    decreases |events|
  {
    if s.Failed? || |s.accepted| >= c.Total() || events == [] then s
    else Run(c, Step(c, s, events[0]), events[1..])
  }

  function Initial(c: Config): Consumer {
    Running(seq(c.producers, _ => 0), [])
  }

  /** Whether the loop completed; the final flush may still fail, with code 29. */
  predicate Finished(c: Config, s: Consumer) {
    s.Running? && |s.accepted| == c.Total()
  }

  method Consume(c: Config, events: seq<Event>, finalFlush: bool) returns (r: Consumer)
    requires c.Valid()
    ensures var s := Run(c, Initial(c), events);
            r == if Finished(c, s) && !finalFlush then Failed(29) else s
  {
    var expected := new U64[c.producers](_ => 0);
    var accepted: seq<Message> := [];
    var delivered, next := 0, 0;
    assert expected[..] == seq(c.producers, _ => 0);
    assert events[0..] == events;
    while delivered < c.Total() && next < |events|
      invariant next <= |events| && delivered == |accepted| && 0 <= c.Total()
      invariant Run(c, Initial(c), events) == Run(c, Running(expected[..], accepted), events[next..])
      decreases |events| - next
    {
      var e := events[next];
      assert events[next..][0] == e && events[next..][1..] == events[next + 1..];
      ghost var before := Running(expected[..], accepted);
      next := next + 1;
      if e.ReadError? {
        return Failed(24);
      }
      if e.Read? {
        if e.payload == [] {
          return Failed(25);
        }
        var producer := Producer(e.payload[0]);
        if producer >= c.producers || !Accepts(e.payload, c.words, producer, expected[producer], c.full) {
          return Failed(25);
        }
        if !e.released {
          return Failed(26);
        }
        accepted := accepted + [Message(producer, expected[producer])];
        expected[producer] := AddWord(expected[producer], 1);
        delivered := delivered + 1;
        if delivered % 64 == 0 && !e.flushed {
          return Failed(28);
        }
        assert Running(expected[..], accepted) == Step(c, before, e);
      }
    }
    r := Running(expected[..], accepted);
    if Finished(c, r) && !finalFlush {
      r := Failed(29);
    }
  }

  // ---------------------------------------------------------------- how the loop fails

  /** What was read is the message its producer should send next. */
  predicate Continues(c: Config, s: Consumer, payload: seq<U64>)
    requires c.Valid() && s.Running? && |s.expected| == c.producers
  {
    && payload != [] && payload[0] % 0x1_0000_0000 < c.producers
    && Accepts(payload, c.words, payload[0] % 0x1_0000_0000, s.expected[payload[0] % 0x1_0000_0000], c.full)
  }

  /** Why a turn of the loop ends it with this code: the read failed, what was read is not what should
      come, its release failed, or the flush did that is due at every 64th message. */
  ghost predicate Fails(c: Config, s: Consumer, e: Event, code: nat)
    requires c.Valid() && s.Running? && |s.expected| == c.producers
  {
    || (code == 24 && e.ReadError?)
    || (code == 25 && e.Read? && !Continues(c, s, e.payload))
    || (code == 26 && e.Read? && Continues(c, s, e.payload) && !e.released)
    || (code == 28 && e.Read? && Continues(c, s, e.payload) && e.released && !e.flushed
        && exists k: nat :: 64 * k == |s.accepted| + 1)
  }

  lemma StepFailsIff(c: Config, s: Consumer, e: Event, code: nat)
    requires c.Valid() && s.Running? && |s.expected| == c.producers
    ensures Step(c, s, e) == Failed(code) <==> Fails(c, s, e, code)
  {
    hide Accepts;
    var n := |s.accepted| + 1;
    assert n % 64 == 0 <==> exists k: nat :: 64 * k == n by {
      assert n % 64 == 0 ==> 64 * (n / 64) == n;
    }
  }

  /** The loop ends with a code exactly at the first turn that fails, which it reaches still running
      with messages to come, and for the reason that the code stands for. */
  lemma {:induction false} FailureIs(c: Config, s: Consumer, events: seq<Event>, code: nat)
    requires c.Valid() && s.Running? && |s.expected| == c.producers
    ensures Run(c, s, events) == Failed(code) <==>
              exists i :: 0 <= i < |events| && FailsAt(c, s, events, i, code)
    decreases |events|
  {
    hide Step, Fails;
    if events == [] || |s.accepted| >= c.Total() {
      RunStays(c, s, events);
    } else {
      var t := Step(c, s, events[0]);
      StepShape(c, s, events[0]);
      StepFailsIff(c, s, events[0], code);
      assert events[..0] == [] && Run(c, s, []) == s;
      assert FailsAt(c, s, events, 0, code) <==> Fails(c, s, events[0], code);
      forall i | 0 < i < |events| && t.Running?
        ensures FailsAt(c, s, events, i, code) <==> FailsAt(c, t, events[1..], i - 1, code)
      {
        assert events[..i][1..] == events[1..][..i - 1] && events[..i][0] == events[0];
      }
      if t.Running? {
        FailureIs(c, t, events[1..], code);
        if i :| 0 <= i < |events[1..]| && FailsAt(c, t, events[1..], i, code) {
          assert FailsAt(c, s, events, i + 1, code);
        }
      } else {
        FailedStays(c, s, events, code);
      }
    }
  }

  ghost predicate FailsAt(c: Config, s: Consumer, events: seq<Event>, i: nat, code: nat)
    requires c.Valid() && s.Running? && |s.expected| == c.producers && i < |events|
  {
    var t := Run(c, s, events[..i]);
    t.Running? && |t.accepted| < c.Total() && Fails(c, t, events[i], code)
  }

  /** With nothing to read or nothing to come the loop is over. */
  lemma RunStays(c: Config, s: Consumer, events: seq<Event>)
    requires c.Valid() && s.Running? && |s.expected| == c.producers
    requires events == [] || |s.accepted| >= c.Total()
    ensures Run(c, s, events) == s
    ensures forall i, code :: 0 <= i < |events| ==> !FailsAt(c, s, events, i, code)
  {
    hide Fails;
  }

  lemma FailedStays(c: Config, s: Consumer, events: seq<Event>, code: nat)
    requires c.Valid() && s.Running? && |s.expected| == c.producers && events != [] && |s.accepted| < c.Total()
    requires Step(c, s, events[0]).Failed?
    ensures Run(c, s, events) == Step(c, s, events[0])
    ensures forall i :: 0 < i < |events| ==> !FailsAt(c, s, events, i, code)
  {
    hide Step, Fails;
    forall i | 0 < i < |events| ensures !FailsAt(c, s, events, i, code) {
      assert events[..i][0] == events[0];
    }
  }

  /** The sequence numbers accepted from one producer, in order. */
  function From(accepted: seq<Message>, p: nat): seq<nat> {
    if accepted == [] then []
    else
      var m := accepted[|accepted| - 1];
      From(accepted[..|accepted| - 1], p) + (if m.producer == p then [m.sequence] else [])
  }

  /** What holds at every turn of the loop. */
  ghost predicate Inv(c: Config, s: Consumer) {
    s.Running? ==>
      && |s.expected| == c.producers
      && (forall i :: 0 <= i < |s.accepted| ==> s.accepted[i].producer < c.producers)
      && |s.accepted| <= c.Total() < TWO64
      && (forall p :: 0 <= p < c.producers ==> From(s.accepted, p) == Iota(s.expected[p]))
  }

  lemma FromAppend(accepted: seq<Message>, m: Message, p: nat)
    ensures From(accepted + [m], p) == From(accepted, p) + (if m.producer == p then [m.sequence] else [])
  {
    assert (accepted + [m])[..|accepted|] == accepted;
  }

  lemma {:induction false} FromAtMost(accepted: seq<Message>, p: nat)
    ensures |From(accepted, p)| <= |accepted|
  {
    if accepted != [] {
      FromAtMost(accepted[..|accepted| - 1], p);
    }
  }

  lemma StepKeepsInv(c: Config, s: Consumer, e: Event)
    requires c.Valid() && s.Running? && Inv(c, s) && |s.accepted| < c.Total()
    ensures Inv(c, Step(c, s, e))
  {
    hide Accepts;
    var t := Step(c, s, e);
    if e.Read? && t.Running? {
      var producer := Producer(e.payload[0]);
      var m := Message(producer, s.expected[producer]);
      FromAtMost(s.accepted, producer);
      WrapSmall(s.expected[producer] + 1);
      forall p | 0 <= p < c.producers ensures From(t.accepted, p) == Iota(t.expected[p]) {
        FromAppend(s.accepted, m, p);
      }
    }
  }

  lemma {:induction false} RunKeepsInv(c: Config, s: Consumer, events: seq<Event>)
    requires c.Valid() && Inv(c, s)
    ensures Inv(c, Run(c, s, events))
    decreases |events|
  {
    if s.Running? && |s.accepted| < c.Total() && events != [] {
      StepKeepsInv(c, s, events[0]);
      RunKeepsInv(c, Step(c, s, events[0]), events[1..]);
    }
  }

  function SumFrom(accepted: seq<Message>, producers: nat): nat {
    if producers == 0 then 0 else SumFrom(accepted, producers - 1) + |From(accepted, producers - 1)|
  }

  lemma {:induction false} SumFromAppend(accepted: seq<Message>, m: Message, producers: nat)
    ensures SumFrom(accepted + [m], producers) ==
              SumFrom(accepted, producers) + (if m.producer < producers then 1 else 0)
  {
    if producers > 0 {
      SumFromAppend(accepted, m, producers - 1);
      FromAppend(accepted, m, producers - 1);
    }
  }

  lemma {:induction false} SumFromNone(producers: nat)
    ensures SumFrom([], producers) == 0
  {
    if producers > 0 {
      SumFromNone(producers - 1);
    }
  }

  lemma {:induction false} SumFromAll(accepted: seq<Message>, producers: nat)
    requires forall i :: 0 <= i < |accepted| ==> accepted[i].producer < producers
    ensures SumFrom(accepted, producers) == |accepted|
  {
    if accepted == [] {
      SumFromNone(producers);
    } else {
      var rest, m := accepted[..|accepted| - 1], accepted[|accepted| - 1];
      SumFromAll(rest, producers);
      SumFromAppend(rest, m, producers);
      assert accepted == rest + [m];
    }
  }

  /** If no producer can have supplied more than its share and the total is right, each has
      supplied exactly its share. */
  lemma {:induction false} FullShares(accepted: seq<Message>, producers: nat, messages: nat)
    requires forall p :: 0 <= p < producers ==> |From(accepted, p)| <= messages
    ensures SumFrom(accepted, producers) <= producers * messages
    ensures SumFrom(accepted, producers) == producers * messages ==>
              forall p :: 0 <= p < producers ==> |From(accepted, p)| == messages
  {
    if producers > 0 {
      FullShares(accepted, producers - 1, messages);
      assert producers * messages == (producers - 1) * messages + messages;
    }
  }

  /** The sequence numbers the producers send are below N. */
  predicate SentBelow(accepted: seq<Message>, messages: nat) {
    forall i :: 0 <= i < |accepted| ==> accepted[i].sequence < messages
  }

  /** Soundness. Whatever the ring answers, a completed run has accepted an interleaving of all P
      complete streams, each message once and each producer's in order, exactly when the producers
      sent only sequence numbers below N. */
  lemma CompletedIsInterleaving(c: Config, events: seq<Event>)
    requires c.Valid() && 0 <= c.Total() < TWO64
    requires Finished(c, Run(c, Initial(c), events))
    ensures var r := Run(c, Initial(c), events);
            Complete(c, r) <==> SentBelow(r.accepted, c.messages)
  {
    hide From, Run;
    var r := Run(c, Initial(c), events);
    InitialInv(c);
    RunKeepsInv(c, Initial(c), events);
    if SentBelow(r.accepted, c.messages) {
      CompleteStreams(c, r);
    }
    if Complete(c, r) {
      CompleteIsBelow(c, r);
    }
  }

  /** Every producer's whole stream has been accepted, in order. */
  predicate Complete(c: Config, r: Consumer)
    requires r.Running?
  {
    forall p :: 0 <= p < c.producers ==> From(r.accepted, p) == Iota(c.messages)
  }

  lemma CompleteIsBelow(c: Config, r: Consumer)
    requires Inv(c, r) && r.Running? && Complete(c, r)
    ensures SentBelow(r.accepted, c.messages)
  {
    hide From;
    forall i | 0 <= i < |r.accepted| ensures r.accepted[i].sequence < c.messages {
      InFrom(r.accepted, i);
      assert From(r.accepted, r.accepted[i].producer) == Iota(c.messages);
    }
  }

  lemma InitialInv(c: Config)
    requires 0 <= c.Total() < TWO64
    ensures Inv(c, Initial(c))
  {
  }

  lemma CompleteStreams(c: Config, r: Consumer)
    requires Inv(c, r) && Finished(c, r) && SentBelow(r.accepted, c.messages)
    ensures Complete(c, r)
  {
    hide From;
    forall p | 0 <= p < c.producers ensures |From(r.accepted, p)| <= c.messages {
      LastFrom(r.accepted, p, c.messages);
      var stream := From(r.accepted, p);
      assert stream == Iota(|stream|);
      if |stream| > 0 {
        assert stream[|stream| - 1] == |stream| - 1;
      }
    }
    SumFromAll(r.accepted, c.producers);
    FullShares(r.accepted, c.producers, c.messages);
    forall p | 0 <= p < c.producers ensures From(r.accepted, p) == Iota(c.messages) {
      assert |From(r.accepted, p)| == c.messages;
    }
  }

  /** An accepted message is in its producer's stream. */
  lemma {:induction false} InFrom(accepted: seq<Message>, i: nat)
    requires i < |accepted|
    ensures accepted[i].sequence in From(accepted, accepted[i].producer)
  {
    if i < |accepted| - 1 {
      InFrom(accepted[..|accepted| - 1], i);
    }
  }

  lemma {:induction false} LastFrom(accepted: seq<Message>, p: nat, messages: nat)
    requires SentBelow(accepted, messages)
    ensures forall i :: 0 <= i < |From(accepted, p)| ==> From(accepted, p)[i] < messages
  {
    if accepted != [] {
      LastFrom(accepted[..|accepted| - 1], p, messages);
    }
  }

  /** The event of reading one well-written message. */
  function Delivered(c: Config, m: Message): Event
    requires m.producer < TWO32 && m.sequence < TWO64
  {
    Read(Filled(c.words, m.producer, m.sequence), true, true)
  }

  /** Reading the message the consumer expects next from that producer accepts it. */
  lemma GoodDelivery(c: Config, s: Consumer, m: Message)
    requires c.Valid() && s.Running? && |s.expected| == c.producers
    requires m.producer < c.producers && m.producer < TWO32 && m.sequence < TWO64
    requires s.expected[m.producer] == m.sequence
    ensures Step(c, s, Delivered(c, m)) ==
              Running(s.expected[m.producer := AddWord(m.sequence, 1)], s.accepted + [m])
  {
    hide Word;
    FillThenValidate(c.words, m.producer, m.sequence, m.producer, m.sequence, c.full);
    var payload := Filled(c.words, m.producer, m.sequence);
    assert Accepts(payload, c.words, m.producer, m.sequence, c.full);
    assert Producer(payload[0]) == m.producer;
  }

  /** Without that assumption the count alone does not show that every producer was heard: one
      producer that sends two messages completes a run of two producers with one message each. */
  lemma OneProducerCanFillTheTotal(words: nat, full: bool)
    requires words >= 2
    ensures var c := Config(2, 1, words, full);
            var r := Run(c, Initial(c), [Delivered(c, Message(0, 0)), Delivered(c, Message(0, 1))]);
            Finished(c, r) && From(r.accepted, 0) == [0, 1] && From(r.accepted, 1) == []
  {
    hide Step, Delivered, Run, From;
    var c := Config(2, 1, words, full);
    var m0, m1 := Message(0, 0), Message(0, 1);
    var s0, s1, s2 := Initial(c), Running([1, 0], [m0]), Running([2, 0], [m0, m1]);
    GoodDelivery(c, s0, m0);
    GoodDelivery(c, s1, m1);
    assert s0.expected == [0, 0];
    assert Step(c, s0, Delivered(c, m0)) == s1;
    assert Step(c, s1, Delivered(c, m1)) == s2;
    RunTwo(c, s0, Delivered(c, m0), Delivered(c, m1));
    FromTwo(m0, m1, 0);
    FromTwo(m0, m1, 1);
  }

  lemma FromTwo(m0: Message, m1: Message, p: nat)
    ensures From([m0, m1], p) ==
              (if m0.producer == p then [m0.sequence] else []) + (if m1.producer == p then [m1.sequence] else [])
  {
    FromAppend([], m0, p);
    FromAppend([m0], m1, p);
    assert [] + [m0] == [m0] && [m0] + [m1] == [m0, m1];
  }

  lemma RunTwo(c: Config, s: Consumer, e0: Event, e1: Event)
    requires c.Valid() && s.Running? && |s.expected| == c.producers
    requires var t := Step(c, s, e0); t.Running? && |s.accepted| < c.Total() && |t.accepted| < c.Total()
    ensures Run(c, s, [e0, e1]) == Step(c, Step(c, s, e0), e1)
  {
    hide Step;
    StepShape(c, s, e0);
    var t := Step(c, s, e0);
    StepShape(c, t, e1);
    assert [e0, e1][1..] == [e1] && [e1][1..] == [];
    assert Run(c, s, [e0, e1]) == Run(c, t, [e1]) == Run(c, Step(c, t, e1), []);
  }

  lemma StepShape(c: Config, s: Consumer, e: Event)
    requires c.Valid() && s.Running? && |s.expected| == c.producers
    ensures Step(c, s, e).Running? ==> |Step(c, s, e).expected| == c.producers
  {
  }

  predicate InWords(stream: seq<Message>) {
    forall i :: 0 <= i < |stream| ==> stream[i].producer < TWO32 && stream[i].sequence < TWO64
  }

  function Deliveries(c: Config, stream: seq<Message>): seq<Event>
    requires InWords(stream)
  {
    if stream == [] then [] else [Delivered(c, stream[0])] + Deliveries(c, stream[1..])
  }

  /** Completeness: every interleaving of the complete streams is accepted to the end. */
  lemma {:induction false} InterleavingIsAccepted(c: Config, s: Consumer, done: seq<Message>, rest: seq<Message>)
    requires c.Valid() && s.Running? && Inv(c, s) && s.accepted == done && InWords(done + rest) && InWords(rest)
    requires |done + rest| == c.Total() < TWO64
    requires forall i :: 0 <= i < |done + rest| ==> (done + rest)[i].producer < c.producers
    requires forall p :: 0 <= p < c.producers ==> From(done + rest, p) == Iota(c.messages)
    ensures var r := Run(c, s, Deliveries(c, rest));
            Finished(c, r) && r.accepted == done + rest
    decreases |rest|
  {
    hide Step, Delivered, From, Accepts;
    if rest == [] {
      assert done + rest == done;
    } else {
      var m := rest[0];
      assert (done + rest)[|done|] == m;
      FromPrefix(done + rest, m.producer, |done|);
      assert (done + rest)[..|done|] == done;
      assert m.sequence == s.expected[m.producer];
      var e := Delivered(c, m);
      GoodDelivery(c, s, m);
      StepKeepsInv(c, s, e);
      assert done + rest == (done + [m]) + rest[1..];
      assert Deliveries(c, rest)[1..] == Deliveries(c, rest[1..]);
      InterleavingIsAccepted(c, Step(c, s, e), done + [m], rest[1..]);
    }
  }

  /** If a producer's stream is 0, 1, 2, ..., its message at any place continues what came before. */
  lemma {:induction false} FromPrefix(stream: seq<Message>, p: nat, k: nat)
    requires k < |stream| && stream[k].producer == p
    requires From(stream, p) == Iota(|From(stream, p)|)
    ensures From(stream[..k], p) == Iota(stream[k].sequence)
    decreases |stream|
  {
    hide From, Iota;
    var before, last := stream[..|stream| - 1], stream[|stream| - 1];
    assert stream == before + [last];
    FromAppend(before, last, p);
    LastOfIota(From(before, p), if last.producer == p then [last.sequence] else []);
    if k < |before| {
      assert before[..k] == stream[..k];
      FromPrefix(before, p, k);
    } else {
      assert stream[..k] == before;
    }
  }

  /** What is before the last of 0, 1, 2, ... is the same, and the last is its length. */
  lemma LastOfIota(before: seq<nat>, last: seq<nat>)
    requires |last| <= 1 && before + last == Iota(|before + last|)
    ensures before == Iota(|before|) && (|last| == 1 ==> last[0] == |before|)
  {
    var all := before + last;
    assert forall i :: 0 <= i < |before| ==> before[i] == all[i] == i;
    if |last| == 1 {
      assert all[|before|] == last[0];
    }
  }
}
