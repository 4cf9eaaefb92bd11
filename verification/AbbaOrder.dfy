/** Which engine runs first, in tools/aeron_compare/run_topology_suite.py: the ABBA pattern by round,
    slot and group, and the rotation that decides which cell is in which slot. */
module AbbaOrder {
  import opened Words

  datatype Engine = Salias | Aeron

  const ABBA: seq<Engine> := [Salias, Aeron, Aeron, Salias]

  /** The engine that leads in a slot of a round; round 0 is the warm-up. */
  function Leader(round: nat, slot: nat, group: nat): Engine {
    if round == 0 then (if (slot + group) % 2 == 0 then Salias else Aeron)
    else Pattern(round - 1 + slot + group)
  }

  /** The pattern repeats. */
  function Pattern(x: nat): Engine {
    ABBA[x % 4]
  }

  function Other(e: Engine): Engine {
    if e.Salias? then Aeron else Salias
  }

  /** The cells in the order a round runs them: rotated left by the round number. */
  function Rotated<T>(cells: seq<T>, round: nat): (r: seq<T>)
    requires |cells| > 0
    ensures |r| == |cells|
  {
    var offset := round % |cells|;
    cells[offset..] + cells[..offset]
  }

  /** The slot of a cell in a round. */
  function Slot(cell: nat, round: nat, n: nat): (s: nat)
    requires n > 0
    ensures s < n
  {
    (cell - round) % n
  }

  /** Every round runs every cell exactly once, the cell c in slot (c - r) mod n. */
  lemma RoundVisitsEachCellOnce<T>(cells: seq<T>, round: nat, cell: nat)
    requires cell < |cells|
    ensures Rotated(cells, round)[Slot(cell, round, |cells|)] == cells[cell]
    ensures forall s :: 0 <= s < |cells| && s != Slot(cell, round, |cells|) ==> CellIn(s, round, |cells|) != cell
    ensures CellIn(Slot(cell, round, |cells|), round, |cells|) == cell
    ensures forall s :: 0 <= s < |cells| ==> Rotated(cells, round)[s] == cells[CellIn(s, round, |cells|)]
  {
    var n := |cells|;
    SlotIs(cell, round, n);
  }

  /** The cell in a slot of a round. */
  function CellIn(slot: nat, round: nat, n: nat): (c: nat)
    requires slot < n
    ensures c < n
  {
    var offset := round % n;
    if slot < n - offset then slot + offset else slot + offset - n
  }

  lemma SlotIs(cell: nat, round: nat, n: nat)
    requires cell < n
    ensures var offset := round % n; Slot(cell, round, n) == if offset <= cell then cell - offset else cell - offset + n
  {
    var q, offset := round / n, round % n;
    var s := if offset <= cell then cell - offset else cell - offset + n;
    var k := if offset <= cell then q else q + 1;
    assert cell - round == (-k) * n + s by {
      assert round == q * n + offset;
      assert (q + 1) * n == q * n + n;
      assert (-k) * n == -(k * n);
    }
    DivUniqueSigned(cell - round, n, -k);
  }

  lemma DivUniqueSigned(a: int, d: nat, q: int)
    requires d > 0 && 0 <= a - q * d < d
    ensures a % d == a - q * d
  {
    assert (q + 1) * d == q * d + d;
    DivUnique(a, d, q);
  }

  /** One group's round as the loop runs it: for each cell in rotated order, the two engines. */
  datatype Row = Row(cell: nat, engine: Engine, orderIndex: nat)

  method RunRound(n: nat, round: nat, group: nat) returns (rows: seq<Row>)
    requires n > 0
    ensures |rows| == 2 * n
    ensures forall c :: 0 <= c < n ==>
              var s, e := Slot(c, round, n), CellLeader(c, round, n, group);
              rows[2 * s] == Row(c, e, 0) && rows[2 * s + 1] == Row(c, Other(e), 1)
  {
    var cells := seq(n, i => i);
    var order := Rotated(cells, round);
    rows := [];
    for slot := 0 to n
      invariant |rows| == 2 * slot
      invariant forall s :: 0 <= s < slot ==>
                  && rows[2 * s] == Row(order[s], Leader(round, s, group), 0)
                  && rows[2 * s + 1] == Row(order[s], Other(Leader(round, s, group)), 1)
    {
      var first := Leader(round, slot, group);
      rows := rows + [Row(order[slot], first, 0), Row(order[slot], Other(first), 1)];
    }
    forall c | 0 <= c < n ensures order[Slot(c, round, n)] == c {
      RoundVisitsEachCellOnce(cells, round, c);
    }
  }

  /** The engine that leads for a cell. */
  function CellLeader(cell: nat, round: nat, n: nat, group: nat): Engine
    requires n > 0
  {
    Leader(round, Slot(cell, round, n), group)
  }

  function Leads(e: Engine): nat {
    if e.Salias? then 1 else 0
  }

  /** The leaders: one slot, round or group on is one step on along Salias, Aeron, Aeron, Salias, over
      and over from Salias in the first measured round; in the warm-up they alternate from Salias by
      slot and by group. */
  lemma LeadersAre(round: nat, slot: nat, group: nat)
    requires round >= 1
    ensures Leader(1, 0, 0) == Salias && Leader(2, 0, 0) == Aeron
    ensures Leader(3, 0, 0) == Aeron && Leader(4, 0, 0) == Salias
    ensures Leader(round + 1, slot, group) == Leader(round, slot + 1, group) == Leader(round, slot, group + 1)
    ensures Leader(round + 4, slot, group) == Leader(round, slot, group)
    ensures Leader(0, 0, 0) == Salias
    ensures Leader(0, slot + 1, group) == Leader(0, slot, group + 1) == Other(Leader(0, slot, group))
    ensures Other(Salias) == Aeron && Other(Aeron) == Salias
  {
  }

  /** What the pattern promises, and keeps slot by slot: in any four consecutive measured rounds
      each engine leads a slot exactly twice; and so in any four consecutive groups. */
  lemma SlotIsBalanced(round: nat, slot: nat, group: nat)
    requires round >= 1
    ensures Leads(Leader(round, slot, group)) + Leads(Leader(round + 1, slot, group))
            + Leads(Leader(round + 2, slot, group)) + Leads(Leader(round + 3, slot, group)) == 2
    ensures Leads(Leader(round, slot, group)) + Leads(Leader(round, slot, group + 1))
            + Leads(Leader(round, slot, group + 2)) + Leads(Leader(round, slot, group + 3)) == 2
  {
  }

  /** But a slot is not a cell. The rotation moves a cell back one slot a round, which undoes the
      round's step along the pattern, except where the cell wraps round. */
  lemma CellPhase(cell: nat, round: nat, n: nat, group: nat)
    requires cell < n && round >= 1
    ensures CellLeader(cell, round, n, group) == Pattern(cell + Wraps(cell, round, n) * n + group + 3)
  {
    RoundPlusSlot(cell, round, n);
    LeaderPhase(round, Slot(cell, round, n), group, cell + Wraps(cell, round, n) * n + group + 3);
  }

  lemma LeaderPhase(round: nat, slot: nat, group: nat, phase: nat)
    requires round >= 1 && round - 1 + slot + group + 4 == phase
    ensures Leader(round, slot, group) == Pattern(phase)
  {
  }

  lemma RoundPlusSlot(cell: nat, round: nat, n: nat)
    requires cell < n
    ensures round + Slot(cell, round, n) == cell + Wraps(cell, round, n) * n
  {
    hide Slot;
    var q, offset := Quotient(round, n), round % n;
    SlotIs(cell, round, n);
    DivUnique(round, n, q);
    assert round == q * n + offset;
    assert (q + 1) * n == q * n + n;
  }

  /** How often the cell has wrapped to the last slot by this round. */
  function Wraps(cell: nat, round: nat, n: nat): nat
    requires n > 0
  {
    Quotient(round, n) + (if round % n <= cell then 0 else 1)
  }

  /** Which is how often its slot has come round below zero. */
  lemma WrapsBounds(cell: nat, round: nat, n: nat)
    requires cell < n
    ensures cell + (Wraps(cell, round, n) - 1) * n < round <= cell + Wraps(cell, round, n) * n
  {
    var q := Quotient(round, n);
    DivUnique(round, n, q);
    assert round == q * n + round % n;
    assert (q - 1) * n == q * n - n && (q + 1) * n == q * n + n;
  }

  lemma WrapsUnique(cell: nat, round: nat, n: nat, w: nat)
    requires cell < n && cell + (w - 1) * n < round <= cell + w * n
    ensures Wraps(cell, round, n) == w
  {
    var v := Wraps(cell, round, n);
    WrapsBounds(cell, round, n);
    if v < w {
      MulMonotone(n, v, w - 1);
    } else if w < v {
      MulMonotone(n, w, v - 1);
    }
  }

  /** The last measured round before a cell wraps. */
  function LastBeforeWrap(cell: nat, n: nat): nat {
    if cell == 0 then n else cell
  }

  /** Until then a cell has its first phase, for n rounds after it the next, and then another. */
  lemma PhaseOf(cell: nat, round: nat, n: nat, group: nat)
    requires cell < n && round >= 1
    ensures var last, x := LastBeforeWrap(cell, n), Slot(cell, 1, n) + group;
            && (round <= last ==> CellLeader(cell, round, n, group) == Pattern(x))
            && (last < round <= last + n ==> CellLeader(cell, round, n, group) == Pattern(x + n))
            && (last + n < round <= last + 2 * n ==> CellLeader(cell, round, n, group) == Pattern(x + 2 * n))
  {
    hide Slot, CellLeader, Wraps;
    var first, last, x := if cell == 0 then 1 else 0, LastBeforeWrap(cell, n), Slot(cell, 1, n) + group;
    WrapsUnique(cell, 1, n, first);
    RoundPlusSlot(cell, 1, n);
    CellPhase(cell, round, n, group);
    if round <= last {
      WrapsUnique(cell, round, n, first);
      SameRemainder(cell + first * n + group + 3, x);
    } else if round <= last + n {
      assert (first + 1) * n == first * n + n;
      WrapsUnique(cell, round, n, first + 1);
      SameRemainder(cell + (first + 1) * n + group + 3, x + n);
    } else if round <= last + 2 * n {
      assert (first + 2) * n == first * n + 2 * n && (first + 1) * n == first * n + n;
      WrapsUnique(cell, round, n, first + 2);
      SameRemainder(cell + (first + 2) * n + group + 3, x + 2 * n);
    }
  }

  lemma SameRemainder(a: nat, b: nat)
    requires a == b + 4
    ensures a % 4 == b % 4
  {
  }

  /** The cell has one leader in all the measured rounds of a group. */
  predicate Keeps(cell: nat, rounds: nat, n: nat, group: nat)
    requires cell < n
  {
    forall r :: 1 <= r <= rounds ==> CellLeader(cell, r, n, group) == CellLeader(cell, 1, n, group)
  }

  /** Whether one more wrap of an odd number of cells leaves the leader as it is: the pattern has
      each engine twice in a row, and this picks the half of the steps within a pair. */
  predicate StepsWithinPair(x: nat, n: nat) {
    n % 2 == 1 && x % 2 == (if n % 4 == 1 then 1 else 0)
  }

  lemma PairStep(x: nat, n: nat)
    requires n % 4 != 0
    ensures n % 2 == 1 || n % 4 == 2
    ensures n % 2 == 1 ==> (Pattern(x) == Pattern(x + n) <==> StepsWithinPair(x, n))
    ensures n % 2 == 1 ==> Pattern(x) != Pattern(x + 2 * n)
    ensures n % 4 == 2 ==> Pattern(x) != Pattern(x + n)
  {
    ModSum(x, n);
    ModSum(x, 2 * n);
    ModSum(n, n);
    PairCases(x % 4, n % 4);
    ModTwo(x);
    ModTwo(n);
  }

  lemma ModSum(a: nat, b: nat)
    ensures (a + b) % 4 == (a % 4 + b % 4) % 4
  {
    assert a == 4 * (a / 4) + a % 4 && b == 4 * (b / 4) + b % 4;
    assert a + b == 4 * (a / 4 + b / 4) + (a % 4 + b % 4);
  }

  lemma ModTwo(a: nat)
    ensures a % 2 == a % 4 % 2
  {
    var q, r := a / 4, a % 4;
    assert a == 2 * (2 * q + r / 2) + r % 2;
  }

  lemma PairCases(x: nat, n: nat)
    requires x < 4 && n < 4
    ensures n % 2 == 1 ==> (Pattern(x) == Pattern(x + n) <==> x % 2 == (if n == 1 then 1 else 0))
    ensures n % 2 == 1 ==> Pattern(x) != Pattern(x + (n + n) % 4)
    ensures n == 2 ==> Pattern(x) != Pattern(x + n)
  {
  }

  /** Exactly when a cell keeps its leader over rounds 1 to R: the number of cells is a multiple of
      four, or the cell has not wrapped yet, or it has wrapped once and the step falls within a pair. */
  lemma KeepsIff(cell: nat, rounds: nat, n: nat, group: nat)
    requires cell < n && rounds >= 1
    ensures Keeps(cell, rounds, n, group) <==>
              || n % 4 == 0
              || rounds <= LastBeforeWrap(cell, n)
              || (rounds <= LastBeforeWrap(cell, n) + n && StepsWithinPair(Slot(cell, 1, n) + group, n))
  {
    if n % 4 == 0 {
      forall r | 1 <= r <= rounds ensures CellLeader(cell, r, n, group) == CellLeader(cell, 1, n, group) {
        FixedLeader(cell, r, n, group);
        FixedLeader(cell, 1, n, group);
      }
    } else if KeepsLong(cell, rounds, n, group) {
      KeepsWhile(cell, rounds, n, group);
    } else {
      LeaderChanges(cell, rounds, n, group);
    }
  }

  predicate KeepsLong(cell: nat, rounds: nat, n: nat, group: nat)
    requires n > 0
  {
    || rounds <= LastBeforeWrap(cell, n)
    || (rounds <= LastBeforeWrap(cell, n) + n && StepsWithinPair(Slot(cell, 1, n) + group, n))
  }

  lemma KeepsWhile(cell: nat, rounds: nat, n: nat, group: nat)
    requires cell < n && n % 4 != 0 && rounds >= 1 && KeepsLong(cell, rounds, n, group)
    ensures Keeps(cell, rounds, n, group)
  {
    hide Slot, CellLeader, LastBeforeWrap, StepsWithinPair, Pattern;
    PairStep(Slot(cell, 1, n) + group, n);
    FirstRoundBeforeWrap(cell, n);
    forall r | 1 <= r <= rounds ensures CellLeader(cell, r, n, group) == CellLeader(cell, 1, n, group) {
      PhaseOf(cell, 1, n, group);
      PhaseOf(cell, r, n, group);
      if r > LastBeforeWrap(cell, n) {
        SteppedPairIsOdd(Slot(cell, 1, n) + group, n);
      }
    }
  }

  lemma FirstRoundBeforeWrap(cell: nat, n: nat)
    requires cell < n
    ensures LastBeforeWrap(cell, n) >= 1
  {
  }

  lemma SteppedPairIsOdd(x: nat, n: nat)
    requires StepsWithinPair(x, n)
    ensures n % 2 == 1
  {
  }

  /** The round at which the leader is another one. */
  lemma LeaderChanges(cell: nat, rounds: nat, n: nat, group: nat)
    requires cell < n && n % 4 != 0 && !KeepsLong(cell, rounds, n, group)
    ensures !Keeps(cell, rounds, n, group)
  {
    hide Slot, CellLeader, LastBeforeWrap, StepsWithinPair, Pattern;
    var last, x := LastBeforeWrap(cell, n), Slot(cell, 1, n) + group;
    FirstRoundBeforeWrap(cell, n);
    PairStep(x, n);
    PhaseOf(cell, 1, n, group);
    if n % 2 == 1 && StepsWithinPair(x, n) {
      PhaseOf(cell, last + n + 1, n, group);
      assert CellLeader(cell, last + n + 1, n, group) != CellLeader(cell, 1, n, group);
    } else {
      PhaseOf(cell, last + 1, n, group);
      assert CellLeader(cell, last + 1, n, group) != CellLeader(cell, 1, n, group);
    }
  }

  lemma FixedLeader(cell: nat, round: nat, n: nat, group: nat)
    requires cell < n && round >= 1 && n % 4 == 0
    ensures CellLeader(cell, round, n, group) == Pattern(cell + group + 3)
  {
    hide CellLeader;
    CellPhase(cell, round, n, group);
    var w := Wraps(cell, round, n);
    SamePhase(cell + group + 3, w, n);
    assert cell + w * n + group + 3 == cell + group + 3 + w * n;
  }

  lemma SamePhase(a: nat, w: nat, n: nat)
    requires n % 4 == 0
    ensures (a + w * n) % 4 == a % 4
  {
    MulAssociative(w, n / 4, 4);
    assert w * n == (w * (n / 4)) * 4;
  }

  /** All cells keep their leaders over R measured rounds: always in one round; in two rounds also for
      an odd number of cells if the only cell that wraps steps within a pair. */
  lemma AllKeepIff(rounds: nat, n: nat, group: nat)
    requires n > 0 && rounds >= 1
    ensures (forall cell :: 0 <= cell < n ==> Keeps(cell, rounds, n, group)) <==>
              n % 4 == 0 || rounds == 1 || (rounds == 2 && StepsWithinPair(group, n))
  {
    hide Keeps;
    var wraps := if n == 1 then 0 else 1;
    SlotIs(wraps, 1, n);
    KeepsIff(wraps, rounds, n, group);
    if n > 2 {
      SlotIs(2, 1, n);
      KeepsIff(2, rounds, n, group);
    }
    if n % 4 == 0 || rounds == 1 || (rounds == 2 && StepsWithinPair(group, n)) {
      forall cell | 0 <= cell < n ensures Keeps(cell, rounds, n, group) {
        KeepsIff(cell, rounds, n, group);
      }
    }
  }

  /** So from three measured rounds on, the leading engine of every cell is the same throughout if and
      only if the number of cells is a multiple of four, as the default 24 is. */
  lemma NeverAlternatesIff(rounds: nat, n: nat, group: nat)
    requires n > 0 && rounds >= 3
    ensures (forall cell :: 0 <= cell < n ==> Keeps(cell, rounds, n, group)) <==> n % 4 == 0
  {
    AllKeepIff(rounds, n, group);
  }
}
