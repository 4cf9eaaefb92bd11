/** The publication watermark of one producer's ring in src/core/channel/hybrid_mpsc.hpp. Claims may
    be committed out of order; the watermark consumers see covers only the prefix that has no hole,
    and the spans committed beyond a hole wait, sorted and merged, in a list. */
module CommitWatermark {

  datatype Span = Span(start: nat, end: nat)

  datatype Mark = Mark(published: nat, pending: seq<Span>)

  /** Where the scan for a start position stops: after the spans that begin before it. */
  function FirstFrom(pending: seq<Span>, start: nat): (index: nat)
    ensures index <= |pending|
    ensures forall k :: 0 <= k < index ==> pending[k].start < start
    ensures index < |pending| ==> start <= pending[index].start
  {
    if pending == [] || start <= pending[0].start then 0 else 1 + FirstFrom(pending[1..], start)
  }

  /** note_pending_commit: remember a span committed out of order. */
  function Note(pending: seq<Span>, start: nat, end: nat): seq<Span> {
    var i := FirstFrom(pending, start);
    if end <= start then pending
    else if i < |pending| && pending[i].start == start then
      if pending[i].end < end then pending[i := Span(start, end)] else pending
    else if 0 < i && pending[i - 1].end == start then
      if i < |pending| && pending[i].start == end
      then pending[..i - 1] + [Span(pending[i - 1].start, pending[i].end)] + pending[i + 1..]
      else pending[i - 1 := Span(pending[i - 1].start, end)]
    else if i < |pending| && pending[i].start == end then pending[i := Span(start, pending[i].end)]
    else pending[..i] + [Span(start, end)] + pending[i..]
  }

  /** consume_pending_contiguous: let the watermark swallow the spans that follow it directly. */
  function Absorb(m: Mark): Mark
    decreases |m.pending|
  {
    if m.pending != [] && m.pending[0].start == m.published
    then Absorb(Mark(m.pending[0].end, m.pending[1..])) else m
  }

  /** publish_contiguous. */
  function Publish(m: Mark, start: nat, end: nat): Mark {
    if start == m.published then Absorb(Mark(end, m.pending))
    else if start > m.published then m.(pending := Note(m.pending, start, end))
    else m
  }

  class ProducerRing {
    var published: nat
    var pending: seq<Span>
    /** The watermark in shared memory. */
    var visible: nat

    function View(): Mark
      reads this
    {
      Mark(published, pending)
    }

    constructor ()
      ensures View() == Mark(0, []) && visible == 0
    {
      published, pending, visible := 0, [], 0;
    }

    /** Where a span starting here belongs in the list. */
    method Scan(start: nat) returns (index: nat)
      ensures index == FirstFrom(pending, start)
    {
      index := 0;
      while index < |pending| && pending[index].start < start
        invariant index <= |pending| && index + FirstFrom(pending[index..], start) == FirstFrom(pending, start)
      {
        assert pending[index..][1..] == pending[index + 1..];
        index := index + 1;
      }
    }

    method NotePendingCommit(start: nat, end: nat)
      modifies this`pending
      ensures pending == Note(old(pending), start, end)
    {
      hide FirstFrom;
      if end <= start {
        return;
      }
      var index := Scan(start);
      if index < |pending| && pending[index].start == start {
        if end > pending[index].end {
          pending := pending[index := Span(start, end)];
        }
        return;
      }
      if index > 0 && pending[index - 1].end == start {
        ghost var was := pending;
        pending := pending[index - 1 := Span(pending[index - 1].start, end)];
        if index < |pending| && pending[index].start == end {
          pending := pending[index - 1 := Span(pending[index - 1].start, pending[index].end)];
          pending := pending[..index] + pending[index + 1..];
          assert pending == was[..index - 1] + [Span(was[index - 1].start, was[index].end)] + was[index + 1..];
        }
        return;
      }
      if index < |pending| && pending[index].start == end {
        pending := pending[index := Span(start, pending[index].end)];
        return;
      }
      pending := pending[..index] + [Span(start, end)] + pending[index..];
    }

    method PublishContiguous(start: nat, end: nat) returns (advanced: bool)
      modifies this
      ensures View() == Publish(old(View()), start, end)
      ensures advanced <==> start == old(published)
      ensures visible == if advanced then published else old(visible)
    {
      if start == published {
        var reached := end;
        while pending != [] && pending[0].start == reached
          invariant published == old(published) && visible == old(visible)
          invariant Absorb(Mark(reached, pending)) == Absorb(Mark(end, old(pending)))
          decreases |pending|
        {
          reached := pending[0].end;
          pending := pending[1..];
        }
        published := reached;
        visible := reached;
        return true;
      }
      if start > published {
        NotePendingCommit(start, end);
      }
      advanced := false;
    }
  }

  // ---------------------------------------------------------------- what the watermark means

  predicate Covers(spans: seq<Span>, x: nat) {
    exists i :: 0 <= i < |spans| && spans[i].start <= x < spans[i].end
  }

  /** Spans are not empty, in order, and there is a hole before each. */
  predicate Separate(from: nat, spans: seq<Span>) {
    && (forall i :: 0 <= i < |spans| ==> from < spans[i].start < spans[i].end)
    && forall i, j :: 0 <= i < j < |spans| ==> spans[i].end < spans[j].start
  }

  function Range(start: nat, end: nat): (r: set<nat>)
    ensures forall x :: x in r <==> (start <= x < end)
  {
    if start >= end then {} else Range(start, end - 1) + {end - 1}
  }

  /** The mark stands for this set of committed positions: the watermark is the first position not
      committed, and the waiting spans are exactly the committed positions beyond it. */
  ghost predicate Marks(m: Mark, committed: set<nat>) {
    && Separate(m.published, m.pending)
    && forall x: nat :: x in committed <==> x < m.published || Covers(m.pending, x)
  }

  lemma MarkIsFirstHole(m: Mark, committed: set<nat>)
    requires Marks(m, committed)
    ensures m.published !in committed && forall x :: 0 <= x < m.published ==> x in committed
  {
  }

  /** Replacing a run of spans by one. */
  lemma Splice(spans: seq<Span>, a: nat, b: nat, s: Span, x: nat)
    requires a <= b <= |spans|
    ensures var t := spans[..a] + [s] + spans[b..];
            Covers(t, x) <==> Covers(spans[..a], x) || s.start <= x < s.end || Covers(spans[b..], x)
    ensures Covers(spans, x) <==> Covers(spans[..a], x) || Covers(spans[a..b], x) || Covers(spans[b..], x)
  {
    var t := spans[..a] + [s] + spans[b..];
    CoversAppend(spans[..a] + [s], spans[b..], x);
    CoversAppend(spans[..a], [s], x);
    CoversOne(s, x);
    assert spans == spans[..a] + spans[a..];
    CoversAppend(spans[..a], spans[a..], x);
    assert spans[a..] == spans[a..b] + spans[b..];
    CoversAppend(spans[a..b], spans[b..], x);
  }

  lemma CoversOne(s: Span, x: nat)
    ensures Covers([s], x) <==> s.start <= x < s.end
  {
    assert [s][0] == s;
  }

  lemma CoversAppend(a: seq<Span>, b: seq<Span>, x: nat)
    ensures Covers(a + b, x) <==> Covers(a, x) || Covers(b, x)
  {
    if Covers(a, x) {
      var i :| 0 <= i < |a| && a[i].start <= x < a[i].end;
      assert (a + b)[i] == a[i];
    }
    if Covers(b, x) {
      var i :| 0 <= i < |b| && b[i].start <= x < b[i].end;
      assert (a + b)[|a| + i] == b[i];
    }
  }

  lemma SeparateSplice(from: nat, spans: seq<Span>, a: nat, b: nat, s: Span)
    requires Separate(from, spans) && a <= b <= |spans| && from < s.start < s.end
    requires a > 0 ==> spans[a - 1].end < s.start
    requires b < |spans| ==> s.end < spans[b].start
    ensures Separate(from, spans[..a] + [s] + spans[b..])
  {
    var t := spans[..a] + [s] + spans[b..];
    forall i, j | 0 <= i < j < |t| ensures t[i].end < t[j].start {
      if i < a - 1 {
        assert spans[i].end < spans[a - 1].start;
      }
      if j > a + 1 {
        assert spans[b].end < spans[b + (j - a - 1)].start;
      }
    }
  }

  /** A new committed span touches the list only at its ends. */
  lemma Neighbours(m: Mark, committed: set<nat>, start: nat, end: nat)
    requires Marks(m, committed) && m.published <= start < end && Range(start, end) !! committed
    ensures var i := FirstFrom(m.pending, start);
            && (i > 0 ==> m.pending[i - 1].end <= start)
            && (i < |m.pending| ==> end <= m.pending[i].start)
  {
    var i := FirstFrom(m.pending, start);
    assert start in Range(start, end) && !Covers(m.pending, start);
    if i < |m.pending| {
      assert Covers(m.pending, m.pending[i].start);
      assert m.pending[i].start !in Range(start, end);
    }
  }

  /** Remembering a span keeps the list exact. */
  lemma NoteKeeps(m: Mark, committed: set<nat>, start: nat, end: nat)
    requires Marks(m, committed) && m.published < start < end && Range(start, end) !! committed
    ensures Marks(m.(pending := Note(m.pending, start, end)), committed + Range(start, end))
  {
    hide Note, FirstFrom, Covers;
    var p, i := m.pending, FirstFrom(m.pending, start);
    Neighbours(m, committed, start, end);
    NoteIsSplice(p, start, end);
    var left := i > 0 && p[i - 1].end == start;
    var right := i < |p| && p[i].start == end;
    var a, b := if left then i - 1 else i, if right then i + 1 else i;
    var s := Span(if left then p[i - 1].start else start, if right then p[i].end else end);
    SeparateSplice(m.published, p, a, b, s);
    forall x: nat ensures Covers(Note(p, start, end), x) <==> Covers(p, x) || x in Range(start, end) {
      Splice(p, a, b, s, x);
      MergedSpan(p, i, left, right, start, end, x);
    }
  }

  lemma NoteIsSplice(p: seq<Span>, start: nat, end: nat)
    requires start < end
    requires var i := FirstFrom(p, start); i < |p| ==> start != p[i].start
    ensures var i := FirstFrom(p, start);
            var left, right := i > 0 && p[i - 1].end == start, i < |p| && p[i].start == end;
            Note(p, start, end) ==
              p[..if left then i - 1 else i]
              + [Span(if left then p[i - 1].start else start, if right then p[i].end else end)]
              + p[if right then i + 1 else i..]
  {
    hide FirstFrom;
    var i := FirstFrom(p, start);
    var left, right := i > 0 && p[i - 1].end == start, i < |p| && p[i].start == end;
    if left && !right {
      UpdateIsSplice(p, i - 1, Span(p[i - 1].start, end));
    }
    if !left && right {
      UpdateIsSplice(p, i, Span(start, p[i].end));
    }
  }

  lemma UpdateIsSplice(p: seq<Span>, i: nat, s: Span)
    requires i < |p|
    ensures p[i := s] == p[..i] + [s] + p[i + 1..]
  {
  }

  /** The span that replaces its touching neighbours covers what they and the new one cover. */
  lemma MergedSpan(p: seq<Span>, i: nat, left: bool, right: bool, start: nat, end: nat, x: nat)
    requires i <= |p| && start < end && forall k :: 0 <= k < |p| ==> p[k].start < p[k].end
    requires left ==> i > 0 && p[i - 1].end == start
    requires right ==> i < |p| && p[i].start == end
    ensures var a, b := if left then i - 1 else i, if right then i + 1 else i;
            var s := Span(if left then p[i - 1].start else start, if right then p[i].end else end);
            s.start <= x < s.end <==> Covers(p[a..b], x) || start <= x < end
  {
    var a, b := if left then i - 1 else i, if right then i + 1 else i;
    var q := p[a..b];
    if left {
      assert q[0] == p[i - 1];
    }
    if right {
      assert q[|q| - 1] == p[i];
    }
  }

  /** Letting the watermark swallow what follows it keeps the set. */
  lemma {:induction false} AbsorbKeeps(m: Mark, committed: set<nat>)
    requires Separate0(m)
    requires forall x: nat :: x in committed <==> x < m.published || Covers(m.pending, x)
    ensures Marks(Absorb(m), committed) && Absorb(m).published >= m.published
    decreases |m.pending|
  {
    if m.pending != [] && m.pending[0].start == m.published {
      var t := Mark(m.pending[0].end, m.pending[1..]);
      forall x: nat ensures x < m.published || Covers(m.pending, x) <==> x < t.published || Covers(t.pending, x) {
        CoversAppend([m.pending[0]], m.pending[1..], x);
        CoversOne(m.pending[0], x);
        assert m.pending == [m.pending[0]] + m.pending[1..];
      }
      AbsorbKeeps(t, committed);
    }
  }

  /** As Separate, but the first span may touch the watermark. */
  predicate Separate0(m: Mark) {
    && (forall i :: 0 <= i < |m.pending| ==> m.published <= m.pending[i].start < m.pending[i].end)
    && forall i, j :: 0 <= i < j < |m.pending| ==> m.pending[i].end < m.pending[j].start
  }

  /** Whatever the order in which spans are committed, the watermark is the end of the prefix without
      holes; it moves exactly when the committed span is the one it was waiting for. */
  lemma PublishKeeps(m: Mark, committed: set<nat>, start: nat, end: nat)
    requires Marks(m, committed) && start < end && Range(start, end) !! committed
    ensures Marks(Publish(m, start, end), committed + Range(start, end))
    ensures Publish(m, start, end).published > m.published <==> start == m.published
  {
    assert start in Range(start, end) && start !in committed;
    if start == m.published {
      Neighbours(m, committed, start, end);
      var t := Mark(end, m.pending);
      AbsorbKeeps(t, committed + Range(start, end));
    } else {
      NoteKeeps(m, committed, start, end);
    }
  }

  /** On any list of spans, in whatever order and however they overlap, remembering a span adds its
      positions and no others; an empty one leaves the list as it is. */
  lemma NoteCovers(p: seq<Span>, start: nat, end: nat)
    requires forall i :: 0 <= i < |p| ==> p[i].start < p[i].end
    ensures end <= start ==> Note(p, start, end) == p
    ensures forall x: nat :: Covers(Note(p, start, end), x) <==> Covers(p, x) || start <= x < end
  {
    hide Covers, FirstFrom;
    var i := FirstFrom(p, start);
    if i < |p| && p[i].start == start {
      SameStartCovers(p, i, start, end);
    } else if start < end {
      NoteIsSplice(p, start, end);
      var left := i > 0 && p[i - 1].end == start;
      var right := i < |p| && p[i].start == end;
      var a, b := if left then i - 1 else i, if right then i + 1 else i;
      var s := Span(if left then p[i - 1].start else start, if right then p[i].end else end);
      forall x: nat ensures Covers(Note(p, start, end), x) <==> Covers(p, x) || start <= x < end {
        Splice(p, a, b, s, x);
        MergedSpan(p, i, left, right, start, end, x);
      }
    }
  }

  lemma SameStartCovers(p: seq<Span>, i: nat, start: nat, end: nat)
    requires i == FirstFrom(p, start) < |p| && p[i].start == start
    ensures forall x: nat :: Covers(Note(p, start, end), x) <==> Covers(p, x) || start <= x < end
  {
    hide Covers, FirstFrom;
    var s := Span(start, if p[i].end < end then end else p[i].end);
    assert p == p[..i] + [p[i]] + p[i + 1..] && p[i := s] == p[..i] + [s] + p[i + 1..];
    forall x: nat ensures Covers(Note(p, start, end), x) <==> Covers(p, x) || start <= x < end {
      Splice(p, i, i + 1, s, x);
      Splice(p, i, i + 1, p[i], x);
    }
  }

  // ---------------------------------------------------------------- committing a claim twice

  /** A committed span lies below the watermark or inside one waiting span. */
  lemma CommittedSpan(m: Mark, committed: set<nat>, start: nat, end: nat)
    requires Marks(m, committed) && start < end && Range(start, end) <= committed
    ensures start != m.published
    ensures start > m.published ==>
              var i := FirstFrom(m.pending, start);
              if i < |m.pending| && m.pending[i].start == start then end <= m.pending[i].end
              else
                && i > 0 && start < m.pending[i - 1].end && end <= m.pending[i - 1].end
                && (i < |m.pending| ==> end < m.pending[i].start)
  {
    hide FirstFrom;
    assert start in Range(start, end);
    if start > m.published {
      var j := CoveringSpan(m, start);
      SpanEndIsHole(m, j);
      assert m.pending[j].end !in Range(start, end);
    }
  }

  /** The waiting span that covers a position begins there, or is the last to begin before it. */
  lemma CoveringSpan(m: Mark, x: nat) returns (j: nat)
    requires Separate(m.published, m.pending) && Covers(m.pending, x)
    ensures j < |m.pending| && m.pending[j].start <= x < m.pending[j].end
    ensures var i := FirstFrom(m.pending, x);
            j == if i < |m.pending| && m.pending[i].start == x then i else i - 1
  {
    hide FirstFrom;
    var i := FirstFrom(m.pending, x);
    j :| 0 <= j < |m.pending| && m.pending[j].start <= x < m.pending[j].end;
    if i < |m.pending| && j < i {
      assert m.pending[j].end < m.pending[i].start;
    }
    if i > 0 {
      assert forall k :: 0 <= k < i - 1 ==> m.pending[k].end < m.pending[i - 1].start;
    }
  }

  lemma SpanEndIsHole(m: Mark, j: nat)
    requires Separate(m.published, m.pending) && j < |m.pending|
    ensures !Covers(m.pending, m.pending[j].end) && m.pending[j].end > m.published
  {
  }

  /** Nothing guards commit against a second commit of the same claim. It is harmless exactly when
      the watermark has passed the claim or some waiting span begins with it. */
  lemma RecommitKeepsIff(m: Mark, committed: set<nat>, start: nat, end: nat)
    requires Marks(m, committed) && start < end && Range(start, end) <= committed
    ensures Marks(Publish(m, start, end), committed) <==>
              start < m.published || exists i :: 0 <= i < |m.pending| && m.pending[i].start == start
  {
    CommittedSpan(m, committed, start, end);
    if start > m.published {
      var i := FirstFrom(m.pending, start);
      if i == |m.pending| || m.pending[i].start != start {
        Inserted(m.pending, start, end);
        var t := Note(m.pending, start, end);
        assert t[i - 1].end > t[i].start;
      }
    }
  }

  lemma Inserted(p: seq<Span>, start: nat, end: nat)
    requires start < end
    requires var i := FirstFrom(p, start);
             i > 0 && start < p[i - 1].end && (i < |p| ==> end < p[i].start && start != p[i].start)
    ensures var i := FirstFrom(p, start);
            && Note(p, start, end) == p[..i] + [Span(start, end)] + p[i..]
            && |Note(p, start, end)| > i && Note(p, start, end)[i - 1] == p[i - 1]
            && Note(p, start, end)[i] == Span(start, end)
  {
  }

  /** A span that the watermark has passed and not swallowed heads the list. */
  predicate Stuck(m: Mark) {
    m.pending != [] && m.pending[0].start < m.published
  }

  /** What is committed out of order from then on is never swallowed, and the watermark does not move. */
  lemma StuckStays(m: Mark, start: nat, end: nat)
    requires Stuck(m) && start > m.published
    ensures Publish(m, start, end).published == m.published && Stuck(Publish(m, start, end))
  {
    hide FirstFrom;
  }

  /** Commits of these spans, one after the other. */
  function PublishAll(m: Mark, spans: seq<Span>): Mark
    decreases |spans|
  {
    if spans == [] then m else PublishAll(Publish(m, spans[0].start, spans[0].end), spans[1..])
  }

  lemma {:induction false} StuckForGood(m: Mark, spans: seq<Span>)
    requires Stuck(m) && forall i :: 0 <= i < |spans| ==> spans[i].start > m.published
    ensures PublishAll(m, spans).published == m.published && Stuck(PublishAll(m, spans))
    decreases |spans|
  {
    hide Publish;
    if spans != [] {
      StuckStays(m, spans[0].start, spans[0].end);
      StuckForGood(Publish(m, spans[0].start, spans[0].end), spans[1..]);
    }
  }

  /** Otherwise the list is spoilt, and the watermark can stop for good: the third claim is committed
      twice behind a hole, and later the fifth, committed before the fourth, stays invisible, whatever
      further claims are committed in any order. */
  lemma RecommitStalls(spans: seq<Span>)
    requires forall i :: 0 <= i < |spans| ==> spans[i].start >= 5
    ensures var waiting := Publish(Publish(Mark(0, []), 1, 2), 2, 3);
            var once, twice := waiting, Publish(waiting, 2, 3);
            && Publish(Publish(Publish(once, 0, 1), 4, 5), 3, 4) == Mark(5, [])
            && PublishAll(Publish(Publish(Publish(twice, 0, 1), 4, 5), 3, 4), spans).published == 4
  {
    hide PublishAll;
    var a, b, c := Span(1, 3), Span(2, 3), Span(4, 5);
    assert Publish(Publish(Mark(0, []), 1, 2), 2, 3) == Mark(0, [a]);
    assert Publish(Mark(0, [a]), 2, 3) == Mark(0, [a, b]);
    FirstFills(a, b);
    NoneWaiting(c);
    StaleWaiting(b, c);
    StuckForGood(Mark(4, [b, c]), spans);
  }

  lemma FirstFills(a: Span, b: Span)
    requires a.start == 1 && b.start < a.end
    ensures Publish(Mark(0, [a]), 0, 1) == Mark(a.end, [])
    ensures Publish(Mark(0, [a, b]), 0, 1) == Mark(a.end, [b])
  {
    assert [a][1..] == [] && [a, b][1..] == [b];
    assert Absorb(Mark(1, [a])) == Absorb(Mark(a.end, []));
    assert Absorb(Mark(1, [a, b])) == Absorb(Mark(a.end, [b]));
  }

  lemma NoneWaiting(c: Span)
    requires c == Span(4, 5)
    ensures Publish(Publish(Mark(3, []), 4, 5), 3, 4) == Mark(5, [])
  {
    assert Publish(Mark(3, []), 4, 5) == Mark(3, [c]);
    assert [c][1..] == [];
    assert Absorb(Mark(5, [])) == Mark(5, []);
  }

  lemma StaleWaiting(b: Span, c: Span)
    requires b == Span(2, 3) && c == Span(4, 5)
    ensures Publish(Publish(Mark(3, [b]), 4, 5), 3, 4) == Mark(4, [b, c])
  {
    assert [b][1..] == [] && FirstFrom([b], 4) == 1;
    assert Publish(Mark(3, [b]), 4, 5) == Mark(3, [b, c]);
  }
}
