/** The message payload of tools/aeron_compare/salias_ipc_compare.cpp: the marker word that packs
    the producer with its sequence number, the writer and the full validator. */
module IpcPayload {
  import opened Words
  import opened Bits
  import opened PayloadPattern

  /** (producer << 48) | sequence, in a 64-bit register. */
  function Marker(producer: U32, sequence: U64): (marker: U64) {
    WordLimit();
    OrFits(Wrap(producer * 0x1_0000_0000_0000), sequence, 64);
    Or(Wrap(producer * 0x1_0000_0000_0000), sequence)
  }

  function MarkedProducer(marker: U64): U32 {
    marker / 0x1_0000_0000_0000
  }

  function MarkedSequence(marker: U64): U64 {
    marker % 0x1_0000_0000_0000
  }

  lemma Pow48()
    ensures Pow2(48) == 0x1_0000_0000_0000 && Pow2(64) == TWO64
  {
    WordLimit();
    Pow2Small();
    Pow2Add(16, 16);
    Pow2Add(32, 16);
  }

  /** The marker decodes to what was packed exactly when both parts fit their fields. */
  lemma MarkerRoundTripIff(producer: U32, sequence: U64)
    ensures MarkedProducer(Marker(producer, sequence)) == producer
            && MarkedSequence(Marker(producer, sequence)) == sequence
            <==> producer < 0x1_0000 && sequence < 0x1_0000_0000_0000
  {
    hide Marker;
    if producer < 0x1_0000 && sequence < 0x1_0000_0000_0000 {
      MarkerIsSum(producer, sequence);
      SumParts(producer, sequence);
    }
  }

  /** Where both parts fit, the marker is their sum. */
  lemma MarkerIsSum(producer: nat, sequence: nat)
    requires producer < 0x1_0000 && sequence < 0x1_0000_0000_0000
    ensures Marker(producer, sequence) == producer * 0x1_0000_0000_0000 + sequence
  {
    hide Or;
    Pow48();
    OrDisjoint(producer, sequence, 48);
    WrapSmall(producer * 0x1_0000_0000_0000);
  }

  lemma SumParts(producer: nat, sequence: nat)
    requires producer < 0x1_0000 && sequence < 0x1_0000_0000_0000
    ensures (producer * 0x1_0000_0000_0000 + sequence) / 0x1_0000_0000_0000 == producer
    ensures (producer * 0x1_0000_0000_0000 + sequence) % 0x1_0000_0000_0000 == sequence
  {
  }

  lemma MarkerParts(marker: U64)
    ensures MarkedProducer(marker) < 0x1_0000 && MarkedSequence(marker) < 0x1_0000_0000_0000
    ensures marker == MarkedProducer(marker) * 0x1_0000_0000_0000 + MarkedSequence(marker)
  {
  }

  /** Word i of a payload written in full mode. */
  function Word(producer: U32, sequence: U64, sendTime: U64, i: nat): U64 {
    if i == 0 then sendTime
    else if i == 1 then Marker(producer, sequence)
    else AddWord(Pattern(producer, sequence), i)
  }

  function Written(words: nat, producer: U32, sequence: U64, sendTime: U64): (payload: seq<U64>)
    ensures |payload| == words && forall i :: 0 <= i < words ==> payload[i] == Word(producer, sequence, sendTime, i)
  {
    seq(words, i requires 0 <= i => Word(producer, sequence, sendTime, i))
  }

  /** Whether the message carries a send time. */
  predicate Sampled(sequence: nat, sampleRate: nat) {
    sampleRate != 0 && sequence % sampleRate == 0
  }

  /** What the validator demands. A length that is not whole words is refused before this. */
  predicate Accepts(payload: seq<U64>, producer: U32, sequence: U64, sampleRate: nat) {
    && |payload| >= 2
    && MarkedProducer(payload[1]) == producer && MarkedSequence(payload[1]) == sequence
    && ((payload[0] != 0) <==> Sampled(sequence, sampleRate))
    && forall i :: 2 <= i < |payload| ==> payload[i] == AddWord(Pattern(producer, sequence), i)
  }

  method WritePayload(payload: array<U64>, producer: U32, sequence: U64, sendTime: U64)
    requires payload.Length >= 2
    modifies payload
    ensures payload[..] == Written(payload.Length, producer, sequence, sendTime)
  {
    payload[0] := sendTime;
    payload[1] := Marker(producer, sequence);
    var pattern := Pattern(producer, sequence);
    for index := 2 to payload.Length
      invariant forall i :: 0 <= i < index ==> payload[i] == Word(producer, sequence, sendTime, i)
    {
      payload[index] := AddWord(pattern, index);
    }
  }

  method ValidateFullPayload(payload: array<U64>, producer: U32, sequence: U64, sampleRate: nat) returns (ok: bool)
    ensures ok <==> Accepts(payload[..], producer, sequence, sampleRate)
  {
    if payload.Length < 2 {
      return false;
    }
    var marker := payload[1];
    if MarkedProducer(marker) != producer || MarkedSequence(marker) != sequence {
      return false;
    }
    if (payload[0] != 0) != Sampled(sequence, sampleRate) {
      return false;
    }
    var pattern := Pattern(producer, sequence);
    for index := 2 to payload.Length
      invariant forall i :: 2 <= i < index ==> payload[i] == AddWord(pattern, i)
    {
      if payload[index] != AddWord(pattern, index) {
        assert payload[..][index] != AddWord(pattern, index);
        return false;
      }
    }
    return true;
  }

  /** The validator passes what the writer wrote exactly when the message's identity fits the marker
      and a send time is present just for sampled messages. The writer masks neither field. */
  lemma WrittenIsAcceptedIff(words: nat, producer: U32, sequence: U64, sendTime: U64, sampleRate: nat)
    requires words >= 2
    ensures Accepts(Written(words, producer, sequence, sendTime), producer, sequence, sampleRate) <==>
              && producer < 0x1_0000 && sequence < 0x1_0000_0000_0000
              && (sendTime != 0 <==> Sampled(sequence, sampleRate))
  {
    hide Marker, MarkedProducer, MarkedSequence, Pattern, Sampled;
    MarkerRoundTripIff(producer, sequence);
    var payload := Written(words, producer, sequence, sendTime);
    assert payload[0] == sendTime && payload[1] == Marker(producer, sequence);
  }

  /** Nothing else passes: an accepted payload is, word for word, what the writer writes for that
      message with the send time it carries. */
  lemma AcceptedWasWritten(payload: seq<U64>, producer: U32, sequence: U64, sampleRate: nat)
    requires Accepts(payload, producer, sequence, sampleRate)
    ensures payload == Written(|payload|, producer, sequence, payload[0])
    ensures producer < 0x1_0000 && sequence < 0x1_0000_0000_0000
  {
    hide Pattern, Sampled, Marker, MarkedProducer, MarkedSequence;
    MarkerParts(payload[1]);
    MarkerIsSum(producer, sequence);
  }

  /** A payload whose first two words were written for one message and the rest for another is accepted
      only if there is no rest or the two have the same pattern, so never if they are different messages
      of one producer or of one number. */
  lemma StalePayloadIff(words: nat, p: U32, s: U64, p': U32, s': U64, sendTime: U64, sampleRate: nat)
    requires words >= 2
    requires Accepts(Written(words, p', s', sendTime), p', s', sampleRate)
    ensures var stale := Written(words, p, s, sendTime)[1 := Marker(p', s')];
            && (Accepts(stale, p', s', sampleRate) <==> words == 2 || Pattern(p, s) == Pattern(p', s'))
            && (p == p' || s == s' ==>
                  (Accepts(stale, p', s', sampleRate) <==> words == 2 || (p == p' && s == s')))
  {
    hide Pattern, AddWord, Marker, MarkedProducer, MarkedSequence, Sampled;
    PatternTellsApart(p, s, p', s');
    var good, stale := Written(words, p', s', sendTime), Written(words, p, s, sendTime)[1 := Marker(p', s')];
    assert good[0] == stale[0] && good[1] == stale[1];
    forall i | 2 <= i < words
      ensures stale[i] == AddWord(Pattern(p', s'), i) <==> Pattern(p, s) == Pattern(p', s')
    {
      WordsTellApart(Pattern(p, s), Pattern(p', s'), i);
    }
    if words > 2 {
      assert stale[2] == Word(p, s, sendTime, 2);
    }
  }

  /** Every sampleRate-th message is sampled, from message 0 on, and none at rate zero. */
  lemma SampledIffMultiple(sequence: nat, sampleRate: nat)
    ensures Sampled(sequence, sampleRate) <==> sampleRate > 0 && exists k: nat :: k * sampleRate == sequence
  {
    if sampleRate > 0 {
      var q := Quotient(sequence, sampleRate);
      DivUnique(sequence, sampleRate, q);
      if k: nat :| k * sampleRate == sequence {
        DivUnique(sequence, sampleRate, k);
      }
      if sequence % sampleRate == 0 {
        assert q * sampleRate == sequence;
      }
    }
  }
}
