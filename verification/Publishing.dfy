/** The publishing loops of tools/final_bench/salias_publisher.cpp and of the batch path of
    tools/aeron_compare/salias_ipc_compare.cpp, under any pattern of back-pressure and partial
    acceptance. A message is its sequence number; the log is what the channel has accepted. */
module Publishing {
  import opened Words
  import opened SequenceCheck

  /** What the channel answers to one offer: it accepts the first count messages of the offer, or
      all of them if there are fewer. A claim that succeeds accepts one. */
  datatype Answer = Accepted(count: nat) | BackPressured | OtherError

  /** How a loop ends: all published, an error, or still trying when the answers run out. */
  datatype Outcome = Done | Failed(code: nat) | Trying

  datatype Tally = Tally(published: nat, attempts: nat, backpressured: nat, maxConsecutive: nat)

  datatype Path = Claim | Offer | Batch

  /** The options as parsed: a batch size is never zero, and aligned only matters for size one. */
  function PathOf(aligned: bool, batch: nat): Path {
    if batch != 1 then Batch else if aligned then Claim else Offer
  }

  function ErrorCode(path: Path): nat {
    match path case Claim => 13 case Offer => 11 case Batch => 12
  }

  /** The answers the loop gives up on. A claim that succeeds is never empty. */
  predicate Refused(path: Path, answer: Answer) {
    answer.OtherError? || (answer == Accepted(0) && !path.Claim?)
  }

  function BackPressures(answers: seq<Answer>): nat {
    if answers == [] then 0
    else BackPressures(answers[..|answers| - 1]) + (if answers[|answers| - 1].BackPressured? then 1 else 0)
  }

  /** n answers in a row from place i are back-pressure. */
  predicate Blocked(answers: seq<Answer>, i: nat, n: nat) {
    i + n <= |answers| && forall k :: i <= k < i + n ==> answers[k].BackPressured?
  }

  /** n is the length of the longest run of back-pressure. */
  ghost predicate LongestBlocked(answers: seq<Answer>, n: nat) {
    (exists i: nat :: Blocked(answers, i, n)) && forall i: nat, m: nat :: Blocked(answers, i, m) ==> m <= n
  }

  /** n is the length of the run of back-pressure the answers end with. */
  predicate TrailingBlocked(answers: seq<Answer>, n: nat) {
    && n <= |answers| && Blocked(answers, |answers| - n, n)
    && (n < |answers| ==> !answers[|answers| - n - 1].BackPressured?)
  }

  lemma AppendAnswer(answers: seq<Answer>, a: Answer, longest: nat, trailing: nat)
    requires LongestBlocked(answers, longest) && TrailingBlocked(answers, trailing)
    ensures var more := answers + [a];
            var trailing' := if a.BackPressured? then trailing + 1 else 0;
            && BackPressures(more) == BackPressures(answers) + (if a.BackPressured? then 1 else 0)
            && TrailingBlocked(more, trailing')
            && LongestBlocked(more, Max(longest, trailing'))
  {
    var more := answers + [a];
    assert more[..|answers|] == answers;
    var trailing' := if a.BackPressured? then trailing + 1 else 0;
    var longest' := Max(longest, trailing');
    var i :| Blocked(answers, i, longest);
    assert Blocked(more, i, longest);
    assert Blocked(more, |more| - trailing', trailing');
    forall j: nat, m: nat | Blocked(more, j, m) ensures m <= longest' {
      if j + m <= |answers| {
        assert Blocked(answers, j, m);
      } else {
        assert trailing' < |more| ==> !more[|more| - trailing' - 1].BackPressured?;
      }
    }
  }

  /** The tallies of the answers so far. */
  ghost predicate Tallied(answers: seq<Answer>, backpressured: int, trailing: int, longest: int) {
    && 0 <= backpressured == BackPressures(answers)
    && 0 <= trailing && TrailingBlocked(answers, trailing)
    && 0 <= longest && LongestBlocked(answers, longest)
  }

  lemma TallyAnswer(answers: seq<Answer>, used: nat, backpressured: int, trailing: int, longest: int)
    requires used < |answers| && Tallied(answers[..used], backpressured, trailing, longest)
    ensures var blocked := answers[used].BackPressured?;
            var trailing' := if blocked then trailing + 1 else 0;
            Tallied(answers[..used + 1], if blocked then backpressured + 1 else backpressured, trailing',
                    Max(longest, trailing'))
  {
    AppendAnswer(answers[..used], answers[used], longest, trailing);
    assert answers[..used + 1] == answers[..used] + [answers[used]];
  }

  lemma NothingTallied()
    ensures Tallied([], 0, 0, 0)
  {
    assert Blocked([], 0, 0);
  }

  /** How many messages are published after these answers: an acceptance of k adds the first k of what
      was offered, a batch or what is left of the messages, and one if it was a claim; any other answer
      adds nothing. */
  function Published(path: Path, batch: nat, messages: nat, answers: seq<Answer>): (n: nat)
    ensures n <= messages
  {
    if answers == [] then 0
    else
      var before, answer := Published(path, batch, messages, answers[..|answers| - 1]), answers[|answers| - 1];
      match answer
      case Accepted(k) => before + Min(if path.Claim? then 1 else k, Min(batch, messages - before))
      case BackPressured => before
      case OtherError => before
  }

  lemma PublishedStep(path: Path, batch: nat, messages: nat, answers: seq<Answer>, used: nat)
    requires used < |answers|
    ensures var before := Published(path, batch, messages, answers[..used]);
            Published(path, batch, messages, answers[..used + 1]) ==
              if answers[used].Accepted?
              then before + Min(if path.Claim? then 1 else answers[used].count, Min(batch, messages - before))
              else before
  {
    assert answers[..used + 1][..used] == answers[..used];
  }

  /** The published messages are the whole numbers from zero up. */
  lemma IotaAppend(n: nat, k: nat, more: seq<nat>)
    requires |more| == k && forall i :: 0 <= i < k ==> more[i] == n + i
    ensures Iota(n) + more == Iota(n + k)
  {
  }

  /** Writes the next messages into the batch buffer. */
  method Fill(storage: array<nat>, published: nat, count: nat)
    requires count <= storage.Length
    modifies storage
    ensures forall k :: 0 <= k < count ==> storage[k] == published + k
  {
    for i := 0 to count
      invariant forall k :: 0 <= k < i ==> storage[k] == published + k
    {
      storage[i] := published + i;
    }
  }

  /** The loop of the throughput publisher. Whatever the channel answers, it has accepted exactly the
      messages 0, 1, ... in order, short last batch included; every answer is one attempt; and the
      counters mean what their names say. */
  method Publish(aligned: bool, batch: nat, messages: nat, answers: seq<Answer>)
    returns (outcome: Outcome, c: Tally, log: seq<nat>)
    requires batch > 0
    ensures log == Iota(c.published) && c.published <= messages
    ensures c.attempts <= |answers|
    ensures c.published == Published(PathOf(aligned, batch), batch, messages, answers[..c.attempts])
    ensures forall i :: 0 <= i < c.attempts ==>
              Published(PathOf(aligned, batch), batch, messages, answers[..i]) < messages
    ensures outcome.Done? <==> c.published == messages
    ensures var used := answers[..c.attempts];
            && c.backpressured == BackPressures(used)
            && LongestBlocked(used, c.maxConsecutive)
            && (outcome.Failed? ==> c.attempts > 0
                                    && outcome.code == (if batch != 1 then 12 else if aligned then 13 else 11)
                                    && (used[c.attempts - 1] == OtherError
                                        || (used[c.attempts - 1] == Accepted(0) && !(aligned && batch == 1))))
            && (outcome.Trying? ==> c.attempts == |answers|)
    ensures !outcome.Failed? ==>
              var successes := c.attempts - c.backpressured;
              && (forall i :: 0 <= i < c.attempts ==>
                    answers[i] != OtherError && (answers[i] == Accepted(0) ==> aligned && batch == 1))
              && Paced(c.published, successes, batch)
  {
    hide BackPressures, LongestBlocked, TrailingBlocked, Iota, Published;
    var path := PathOf(aligned, batch);
    var storage := new nat[batch];
    var published, attempts, backpressured, consecutive, longest := 0, 0, 0, 0, 0;
    log := [];
    assert answers[..0] == [];
    NothingTallied();
    NothingPublished(path, batch, messages);
    while published < messages && attempts < |answers|
      invariant attempts <= |answers| && published <= messages && log == Iota(published)
      invariant published == Published(path, batch, messages, answers[..attempts])
      invariant forall i :: 0 <= i < attempts ==> Published(path, batch, messages, answers[..i]) < messages
      invariant Tallied(answers[..attempts], backpressured, consecutive, longest)
      invariant forall i :: 0 <= i < attempts ==> !Refused(PathOf(aligned, batch), answers[i])
      invariant Paced(published, attempts - backpressured, batch)
      decreases |answers| - attempts
    {
      var count := Min(batch, messages - published);
      Fill(storage, published, count);
      var answer := answers[attempts];
      TallyAnswer(answers, attempts, backpressured, consecutive, longest);
      PublishedStep(path, batch, messages, answers, attempts);
      attempts := attempts + 1;
      if Refused(path, answer) {
        c := Tally(published, attempts, backpressured, longest);
        return Failed(ErrorCode(path)), c, log;
      }
      if answer.Accepted? {
        var accepted := if path.Claim? then 1 else Min(answer.count, count);
        IotaAppend(published, accepted, storage[..accepted]);
        OneMoreBatch(published, accepted, batch, attempts - 1 - backpressured);
        log := log + storage[..accepted];
        published := published + accepted;
        consecutive := 0;
      } else {
        backpressured := backpressured + 1;
        consecutive := consecutive + 1;
        longest := Max(longest, consecutive);
      }
    }
    c := Tally(published, attempts, backpressured, longest);
    outcome := if published == messages then Done else Trying;
  }

  lemma NothingPublished(path: Path, batch: nat, messages: nat)
    ensures Published(path, batch, messages, []) == 0
  {
  }

  /** Every success publishes at least one message and at most a batch. */
  predicate Paced(published: int, successes: int, batch: nat) {
    0 <= successes <= published <= batch * successes
  }

  lemma OneMoreBatch(published: int, accepted: nat, batch: nat, successes: int)
    requires Paced(published, successes, batch) && 0 < accepted <= batch
    ensures Paced(published + accepted, successes + 1, batch)
  {
  }

  /** With a batch of one the attempts are accounted for exactly. */
  method PublishOneByOne(aligned: bool, messages: nat, answers: seq<Answer>)
    returns (outcome: Outcome, c: Tally, log: seq<nat>)
    ensures outcome.Done? ==> log == Iota(messages) && c.attempts == messages + c.backpressured
  {
    outcome, c, log := Publish(aligned, 1, messages, answers);
  }

  /** One turn of the IPC benchmark's batch loop: whether it sees the failed flag, and if not what
      the channel answers. */
  datatype Turn = Turn(failed: bool, answer: Answer)

  function Answers(turns: seq<Turn>): (answers: seq<Answer>)
    ensures |answers| == |turns| && forall i :: 0 <= i < |turns| ==> answers[i] == turns[i].answer
  {
    seq(|turns|, i requires 0 <= i < |turns| => turns[i].answer)
  }

  lemma TurnStep(batch: nat, messages: nat, turns: seq<Turn>, used: nat)
    requires used < |turns|
    ensures var before := Published(Batch, batch, messages, Answers(turns[..used]));
            Published(Batch, batch, messages, Answers(turns[..used + 1])) ==
              if turns[used].answer.Accepted?
              then before + Min(turns[used].answer.count, Min(batch, messages - before)) else before
  {
    PublishedStep(Batch, batch, messages, Answers(turns[..used + 1]), used);
    var answers := Answers(turns[..used + 1]);
    assert answers[..used] == Answers(turns[..used]) && answers[..used + 1] == answers;
  }

  /** The batch loop of the IPC benchmark keeps no counters; an empty acceptance is retried here. */
  method OfferBatchUntilCommitted(batch: nat, messages: nat, turns: seq<Turn>)
    returns (ok: bool, markFailed: bool, used: nat, log: seq<nat>)
    requires batch > 0
    ensures |log| <= messages && log == Iota(|log|)
    ensures used <= |turns|
    ensures |log| == Published(Batch, batch, messages, Answers(turns[..used]))
    ensures forall i :: 0 <= i < used ==> Published(Batch, batch, messages, Answers(turns[..i])) < messages
    ensures ok <==> |log| == messages
    ensures markFailed ==> !ok && used > 0 && turns[used - 1] == Turn(false, OtherError)
    ensures !ok && !markFailed ==> used == |turns| || turns[used].failed
    ensures forall i :: 0 <= i < used ==> !turns[i].failed
    ensures forall i :: 0 <= i < (if markFailed then used - 1 else used) ==> !turns[i].answer.OtherError?
  {
    hide Published, Iota;
    var storage := new nat[batch];
    var published := 0;
    log, used, markFailed := [], 0, false;
    NothingPublished(Batch, batch, messages);
    assert Answers(turns[..0]) == [] && Iota(0) == [];
    while published < messages && used < |turns|
      invariant used <= |turns| && published <= messages && log == Iota(published) && |log| == published
      invariant published == Published(Batch, batch, messages, Answers(turns[..used]))
      invariant forall i :: 0 <= i < used ==> Published(Batch, batch, messages, Answers(turns[..i])) < messages
      invariant forall i :: 0 <= i < used ==> !turns[i].failed && !turns[i].answer.OtherError?
      decreases |turns| - used
    {
      if turns[used].failed {
        return false, false, used, log;
      }
      var requested := Min(batch, messages - published);
      Fill(storage, published, requested);
      var answer := turns[used].answer;
      TurnStep(batch, messages, turns, used);
      used := used + 1;
      match answer
      case Accepted(k) =>
        var count := Min(k, requested);
        IotaAppend(published, count, storage[..count]);
        log := log + storage[..count];
        published := published + count;
      case BackPressured =>
      case OtherError =>
        return false, true, used, log;
    }
    ok := published == messages;
  }
}
