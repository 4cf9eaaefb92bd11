/** How the consumer of the many-producer rings (src/core/ring/fast_mpmc_ring.hpp and
    fast_mpsc_ring.hpp, the same text twice) chooses the lane to read next: it stays on a lane for a
    batch, and scans on from it round the ring of lanes. */
module LaneScheduler {
  import opened Wrappers
  import opened Words

  /** Where the next scan starts, and how many messages are left of the current batch. */
  datatype Schedule = Schedule(next: nat, remaining: nat)

  /** The lane this many places on from where a scan starts. */
  function Lane(start: nat, scan: nat, lanes: nat): (lane: nat)
    requires lanes > 0
    ensures lane < lanes
  {
    (start + scan) % lanes
  }

  /** How far a scan has got when it finds a ready lane; the number of lanes if it finds none. */
  function FirstReady(start: nat, scan: nat, ready: seq<bool>): (found: nat)
    requires |ready| > 0 && scan <= |ready|
    ensures scan <= found <= |ready|
    ensures found < |ready| ==> ready[Lane(start, found, |ready|)]
    ensures forall s :: scan <= s < found ==> !ready[Lane(start, s, |ready|)]
    decreases |ready| - scan
  {
    if scan == |ready| || ready[Lane(start, scan, |ready|)] then scan
    else FirstReady(start, scan + 1, ready)
  }

  /** A successful try_read opens a batch if none is open. */
  function Opened(s: Schedule, batch: nat): Schedule {
    if s.remaining == 0 then s.(remaining := batch) else s
  }

  /** release counts the message against the batch, and moves on when the batch is used up. */
  function Released(s: Schedule, lane: nat, lanes: nat): Schedule
    requires s.remaining > 0 && lanes > 0
  {
    Schedule(if s.remaining == 1 then (lane + 1) % lanes else lane, s.remaining - 1)
  }

  datatype Answer = ReadOutstanding | Empty | Read(lane: nat)

  class LaneConsumer {
    const batch: nat
    var consumed: array<nat>
    var dirty: array<bool>
    /** The consumer's cursor word of each lane, in shared memory. */
    var cursors: array<nat>
    var active: Option<nat>
    var next: nat
    var remaining: nat

    /** A lane that is not dirty has published all it has consumed. */
    ghost predicate Valid()
      reads this, consumed, dirty, cursors
    {
      && batch > 0 && remaining <= batch && next < Lanes()
      && cursors != consumed && cursors.Length == dirty.Length == consumed.Length
      && (active.Some? ==> active.value < Lanes() && remaining > 0)
      && forall p :: 0 <= p < consumed.Length && !dirty[p] ==> cursors[p] == consumed[p]
    }

    function Lanes(): nat
      reads this
    {
      consumed.Length
    }

    function View(): Schedule
      reads this
    {
      Schedule(next, remaining)
    }

    constructor (lanes: nat, capacity: nat)
      requires lanes > 0 && capacity > 0
      ensures Valid() && Lanes() == lanes && batch == Min(capacity, 64)
      ensures View() == Schedule(0, 0) && active.None?
      ensures consumed[..] == cursors[..] == seq(lanes, _ => 0)
      ensures fresh(consumed) && fresh(dirty) && fresh(cursors)
    {
      batch := if capacity < 64 then capacity else 64;
      consumed := new nat[lanes](_ => 0);
      dirty := new bool[lanes](_ => false);
      cursors := new nat[lanes](_ => 0);
      active := None;
      next, remaining := 0, 0;
    }

    /** Which lanes a scan would find ready, given the sequence word it would load from each. */
    function Ready(sequences: seq<nat>): (ready: seq<bool>)
      reads this, consumed
      requires |sequences| == Lanes()
      ensures |ready| == Lanes()
      ensures forall p :: 0 <= p < Lanes() ==> (ready[p] <==> sequences[p] == consumed[p] + 1)
    {
      seq(Lanes(), p requires 0 <= p < Lanes() && |sequences| == Lanes() reads this, consumed =>
        sequences[p] == consumed[p] + 1)
    }

    method TryRead(sequences: seq<nat>) returns (answer: Answer)
      requires Valid() && |sequences| == Lanes()
      modifies this`active, this`remaining
      ensures Valid()
      ensures var found := FirstReady(next, 0, Ready(sequences));
              if old(active.Some?) then answer == ReadOutstanding && active == old(active) && View() == old(View())
              else if found == Lanes() then answer == Empty && active == None && View() == old(View())
              else
                var lane := Lane(next, found, Lanes());
                answer == Read(lane) && active == Some(lane) && View() == Opened(old(View()), batch)
    {
      hide Ready;
      if active.Some? {
        return ReadOutstanding;
      }
      ghost var ready := Ready(sequences);
      for scan := 0 to consumed.Length
        invariant active == None && View() == old(View())
        invariant FirstReady(next, 0, ready) == FirstReady(next, scan, ready)
      {
        var producer := (next + scan) % consumed.Length;
        assert ready[Lane(next, scan, consumed.Length)] <==> sequences[producer] == consumed[producer] + 1;
        if sequences[producer] == consumed[producer] + 1 {
          active := Some(producer);
          if remaining == 0 {
            remaining := batch;
          }
          return Read(producer);
        }
      }
      answer := Empty;
    }

    method Release(publish: bool) returns (ok: bool)
      requires Valid()
      modifies this`active, this`next, this`remaining, consumed, dirty, cursors
      ensures Valid() && active == None
      ensures ok == old(active.Some?)
      ensures !ok ==> View() == old(View()) && consumed[..] == old(consumed[..]) && cursors[..] == old(cursors[..])
      ensures ok ==>
                var lane := old(active.value);
                && View() == Released(old(View()), lane, Lanes())
                && consumed[..] == old(consumed[..])[lane := old(consumed[lane]) + 1]
                && cursors[..] == (if publish then old(cursors[..])[lane := consumed[lane]] else old(cursors[..]))
    {
      if active.None? {
        return false;
      }
      var producer := active.value;
      consumed[producer] := consumed[producer] + 1;
      dirty[producer] := true;
      if publish {
        cursors[producer] := consumed[producer];
        dirty[producer] := false;
      }
      active := None;
      remaining := remaining - 1;
      next := if remaining == 0 then (producer + 1) % consumed.Length else producer;
      ok := true;
    }

    /** After a flush the producers see everything this consumer has released. */
    method FlushRelease() returns (ok: bool)
      requires Valid()
      modifies dirty, cursors
      ensures Valid()
      ensures ok == active.None?
      ensures ok ==> cursors[..] == consumed[..]
      ensures !ok ==> cursors[..] == old(cursors[..])
    {
      if active.Some? {
        return false;
      }
      for producer := 0 to consumed.Length
        invariant Valid()
        invariant forall p :: 0 <= p < producer ==> !dirty[p]
      {
        if dirty[producer] {
          cursors[producer] := consumed[producer];
          dirty[producer] := false;
        }
      }
      ok := true;
    }
  }

  /** A scan from anywhere finds a ready lane if there is one. */
  lemma FindsNoneIff(start: nat, ready: seq<bool>)
    requires start < |ready|
    ensures FirstReady(start, 0, ready) == |ready| <==> forall p :: 0 <= p < |ready| ==> !ready[p]
  {
    forall p | 0 <= p < |ready| && ready[p] ensures FirstReady(start, 0, ready) < |ready| {
      LaneAtDistance(start, p, |ready|);
    }
  }

  // ---------------------------------------------------------------- fairness

  /** One message: a try_read that finds a ready lane, and the release after it. */
  function ReadOne(s: Schedule, batch: nat, ready: seq<bool>): Schedule
    requires batch > 0 && |ready| > 0 && FirstReady(s.next, 0, ready) < |ready|
  {
    Released(Opened(s, batch), Chosen(s, ready), |ready|)
  }

  function Chosen(s: Schedule, ready: seq<bool>): (lane: nat)
    requires |ready| > 0 && FirstReady(s.next, 0, ready) < |ready|
    ensures lane < |ready| && ready[lane]
  {
    Lane(s.next, FirstReady(s.next, 0, ready), |ready|)
  }

  /** The lane is ready whenever the consumer looks. A lane that is ready stays so until it is read,
      because its producer does not overwrite what the consumer has not released. */
  predicate AlwaysReady(rounds: seq<seq<bool>>, lanes: nat, q: nat) {
    q < lanes && forall k :: 0 <= k < |rounds| ==> |rounds[k]| == lanes && rounds[k][q]
  }

  lemma ReadyIsFound(s: Schedule, ready: seq<bool>, q: nat)
    requires q < |ready| && ready[q] && s.next < |ready|
    ensures FirstReady(s.next, 0, ready) <= Distance(s.next, q, |ready|)
  {
    LaneAtDistance(s.next, q, |ready|);
  }

  /** How many places q is on from a lane. */
  function Distance(from: nat, q: nat, lanes: nat): (d: nat)
    requires from < lanes && q < lanes
    ensures d < lanes
  {
    if from <= q then q - from else q + lanes - from
  }

  lemma LaneAtDistance(from: nat, q: nat, lanes: nat)
    requires from < lanes && q < lanes
    ensures Lane(from, Distance(from, q, lanes), lanes) == q
  {
    if from > q {
      assert q + lanes == 1 * lanes + q;
      DivUnique(q + lanes, lanes, 1);
    }
  }

  /** The lanes read in as many rounds, in order. */
  function Picks(s: Schedule, batch: nat, rounds: seq<seq<bool>>, lanes: nat, q: nat): (picks: seq<nat>)
    requires batch > 0 && s.next < lanes && AlwaysReady(rounds, lanes, q)
    ensures |picks| == |rounds|
    decreases |rounds|
  {
    if rounds == [] then []
    else
      ReadyIsFound(s, rounds[0], q);
      [Chosen(s, rounds[0])] + Picks(ReadOne(s, batch, rounds[0]), batch, rounds[1..], lanes, q)
  }

  /** How many messages of other lanes can still come before lane q's turn. */
  function Wait(s: Schedule, batch: nat, lanes: nat, q: nat): nat
    requires batch > 0 && s.next < lanes && q < lanes
  {
    var d := Distance(s.next, q, lanes);
    if d == 0 then 0 else Messages(d - 1, batch) + Opened(s, batch).remaining
  }

  /** How many messages so many full batches hold. */
  function Messages(batches: nat, batch: nat): nat {
    batches * batch
  }

  lemma WaitShrinks(s: Schedule, batch: nat, ready: seq<bool>, q: nat)
    requires batch > 0 && s.next < |ready| && s.remaining <= batch && q < |ready| && ready[q]
    ensures FirstReady(s.next, 0, ready) < |ready|
    ensures var t := ReadOne(s, batch, ready);
            && t.next < |ready| && t.remaining <= batch
            && (Chosen(s, ready) != q ==> Wait(t, batch, |ready|, q) < Wait(s, batch, |ready|, q))
  {
    ReadyIsFound(s, ready, q);
    hide FirstReady, Messages, Lane, Distance, Wait;
    var found, p := FirstReady(s.next, 0, ready), Chosen(s, ready);
    assert ReadOne(s, batch, ready).next < |ready| by {
      WrapOnce(p + 1, |ready|);
    }
    LaneAtDistance(s.next, q, |ready|);
    if p != q {
      PassOver(s, batch, |ready|, q, found);
    }
  }

  /** Reading a message of a lane before q brings q nearer its turn. */
  lemma PassOver(s: Schedule, batch: nat, lanes: nat, q: nat, scan: nat)
    requires batch > 0 && s.next < lanes && s.remaining <= batch && q < lanes && scan < Distance(s.next, q, lanes)
    ensures var p := Lane(s.next, scan, lanes);
            var t := Released(Opened(s, batch), p, lanes);
            && p < lanes && p != q && t.next < lanes && t.remaining <= batch
            && Wait(t, batch, lanes, q) < Wait(s, batch, lanes, q)
  {
    hide Messages, Lane;
    NearerLane(s.next, scan, q, lanes);
    FewerMessages(Distance(s.next, q, lanes), scan, batch, Opened(s, batch).remaining);
    hide Distance;
  }

  lemma NearerLane(from: nat, found: nat, q: nat, lanes: nat)
    requires from < lanes && q < lanes && found < Distance(from, q, lanes)
    ensures var p, d := Lane(from, found, lanes), Distance(from, q, lanes);
            && p < lanes && Distance(p, q, lanes) == d - found
            && (p + 1) % lanes < lanes && Distance((p + 1) % lanes, q, lanes) == d - found - 1
  {
    WrapOnce(from + found, lanes);
    WrapOnce(Lane(from, found, lanes) + 1, lanes);
  }

  lemma FewerMessages(d: nat, found: nat, batch: nat, remaining: nat)
    requires found < d && 0 < remaining <= batch
    ensures remaining == 1 && d - found - 1 > 0 ==>
              Messages(d - found - 2, batch) + batch < Messages(d - 1, batch) + remaining
    ensures remaining > 1 ==> Messages(d - found - 1, batch) + remaining - 1 < Messages(d - 1, batch) + remaining
  {
    MulMonotone(batch, d - found - 1, d - 1);
    assert Messages(d - found - 1, batch) == (d - found - 2) * batch + batch;
  }

  lemma WrapOnce(x: nat, lanes: nat)
    requires 0 < lanes && x < 2 * lanes
    ensures x % lanes == if x < lanes then x else x - lanes
  {
    if x >= lanes {
      DivUnique(x, lanes, 1);
    }
  }

  /** No lane starves: a lane that is ready is read before the others have had one batch each, that
      is among the first (P - 1) * batch + 1 messages, whatever the other producers do. */
  lemma ReadyLaneIsRead(s: Schedule, batch: nat, rounds: seq<seq<bool>>, lanes: nat, q: nat)
    requires batch > 0 && s.next < lanes && s.remaining <= batch && AlwaysReady(rounds, lanes, q)
    requires |rounds| > Messages(lanes - 1, batch)
    ensures exists k :: 0 <= k <= Messages(lanes - 1, batch) && Picks(s, batch, rounds, lanes, q)[k] == q
  {
    WaitBound(s, batch, lanes, q);
    WithinWait(s, batch, rounds, lanes, q);
  }

  lemma WaitBound(s: Schedule, batch: nat, lanes: nat, q: nat)
    requires batch > 0 && s.next < lanes && s.remaining <= batch && q < lanes
    ensures Wait(s, batch, lanes, q) <= Messages(lanes - 1, batch)
  {
    var d := Distance(s.next, q, lanes);
    if d > 0 {
      MulMonotone(batch, d, lanes - 1);
      assert Messages(d - 1, batch) + batch == d * batch;
    }
  }

  lemma {:induction false} WithinWait(s: Schedule, batch: nat, rounds: seq<seq<bool>>, lanes: nat, q: nat)
    requires batch > 0 && s.next < lanes && s.remaining <= batch && AlwaysReady(rounds, lanes, q)
    requires |rounds| > Wait(s, batch, lanes, q)
    ensures exists k :: 0 <= k <= Wait(s, batch, lanes, q) && Picks(s, batch, rounds, lanes, q)[k] == q
    decreases |rounds|
  {
    var picks := Picks(s, batch, rounds, lanes, q);
    WaitShrinks(s, batch, rounds[0], q);
    if Chosen(s, rounds[0]) == q {
      assert picks[0] == q;
    } else {
      var t := ReadOne(s, batch, rounds[0]);
      WithinWait(t, batch, rounds[1..], lanes, q);
      var k :| 0 <= k <= Wait(t, batch, lanes, q) && Picks(t, batch, rounds[1..], lanes, q)[k] == q;
      assert picks[k + 1] == q;
    }
  }

  /** Every lane always ready. */
  function Busy(lanes: nat, rounds: nat): (r: seq<seq<bool>>)
    ensures |r| == rounds && forall k :: 0 <= k < rounds ==> r[k] == seq(lanes, _ => true)
  {
    seq(rounds, _ => seq(lanes, _ => true))
  }

  /** The lane of the k-th message from now when lanes take turns by whole batches. */
  function Turn(next: nat, remaining: nat, batch: nat, lanes: nat, k: nat): nat
    requires 0 < remaining <= batch && lanes > 0
  {
    (next + (k + batch - remaining) / batch) % lanes
  }

  lemma TurnStep(next: nat, remaining: nat, batch: nat, lanes: nat, k: nat)
    requires 0 < remaining <= batch && next < lanes
    ensures Turn(next, remaining, batch, lanes, 0) == next
    ensures Turn((next + 1) % lanes, batch, batch, lanes, k) == Turn(next, 1, batch, lanes, k + 1)
    ensures remaining > 1 ==> Turn(next, remaining - 1, batch, lanes, k) == Turn(next, remaining, batch, lanes, k + 1)
  {
    DivUnique(batch - remaining, batch, 0);
    WrapOnce(next, lanes);
    DivAddMultiple(k, 1, batch);
    ModMoves(next, k / batch, lanes);
  }

  /** When every lane is always ready the order is round robin by batches, so the bound is met: the
      last lane's first message comes after exactly (P - 1) * batch others. */
  lemma {:induction false} BusyIsRoundRobin(s: Schedule, batch: nat, lanes: nat, rounds: nat, q: nat, k: nat)
    requires batch > 0 && s.next < lanes && s.remaining <= batch && q < lanes && k < rounds
    ensures Picks(s, batch, Busy(lanes, rounds), lanes, q)[k] ==
              Turn(s.next, Opened(s, batch).remaining, batch, lanes, k)
    decreases rounds
  {
    hide Turn;
    var all := Busy(lanes, rounds);
    assert all[0] == seq(lanes, _ => true);
    TurnStep(s.next, Opened(s, batch).remaining, batch, lanes, if k == 0 then 0 else k - 1);
    StaysWhenReady(s, all[0]);
    if k > 0 {
      assert all[1..] == Busy(lanes, rounds - 1);
      var t := ReadOne(s, batch, all[0]);
      WrapOnce(s.next + 1, lanes);
      BusyIsRoundRobin(t, batch, lanes, rounds - 1, q, k - 1);
    }
  }

  /** A scan goes no further than the lane it starts from when that lane is ready. */
  lemma StaysWhenReady(s: Schedule, ready: seq<bool>)
    requires s.next < |ready| && ready[s.next]
    ensures FirstReady(s.next, 0, ready) == 0 && Chosen(s, ready) == s.next
  {
    WrapOnce(s.next, |ready|);
    assert Lane(s.next, 0, |ready|) == s.next;
  }

  lemma ModMoves(a: nat, b: nat, lanes: nat)
    requires lanes > 0
    ensures ((a + 1) % lanes + b) % lanes == (a + b + 1) % lanes
  {
    var q := (a + 1) / lanes;
    var r := (a + 1) % lanes + b;
    assert a + b + 1 == q * lanes + r;
    DivAddMultiple(r, q, lanes);
    assert (a + b + 1) / lanes == q + r / lanes;
    assert (q + r / lanes) * lanes == q * lanes + (r / lanes) * lanes;
  }
}
