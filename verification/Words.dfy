/** Fixed-width machine words, powers of two and the few facts about division that the
    arithmetic modules share. */
module Words {

  const TWO32: nat := 0x1_0000_0000
  const TWO64: nat := 0x1_0000_0000_0000_0000

  /** A 64-bit unsigned word. */
  type U64 = x: int | 0 <= x < 0x1_0000_0000_0000_0000

  /** A 32-bit unsigned word. */
  type U32 = x: int | 0 <= x < 0x1_0000_0000

  /** The value a 64-bit unsigned register holds after an operation whose exact result is x. */
  function Wrap(x: int): U64 {
    x % 0x1_0000_0000_0000_0000
  }

  /** The 64-bit sum. */
  function AddWord(a: int, b: int): U64 {
    Wrap(a + b)
  }

  function Max(a: int, b: int): int {
    if a < b then b else a
  }

  function Min(a: int, b: int): int {
    if a < b then a else b
  }

  function Pow2(e: nat): (p: nat)
    ensures p > 0
  {
    if e == 0 then 1 else 2 * Pow2(e - 1)
  }

  lemma {:induction false} Pow2Add(a: nat, b: nat)
    ensures Pow2(a + b) == Pow2(a) * Pow2(b)
  {
    if a > 0 {
      Pow2Add(a - 1, b);
      MulAssociative(2, Pow2(a - 1), Pow2(b));
    }
  }

  lemma {:induction false} Pow2Monotone(a: nat, b: nat)
    requires a <= b
    ensures Pow2(a) <= Pow2(b)
    ensures a < b ==> 2 * Pow2(a) <= Pow2(b)
  {
    if a < b {
      Pow2Monotone(a, b - 1);
    }
  }

  lemma Pow2Small()
    ensures Pow2(6) == 64 && Pow2(7) == 128 && Pow2(16) == 0x1_0000
  {
    assert Pow2(4) == 16 && Pow2(6) == 64;
    Pow2Add(4, 4);
    Pow2Add(8, 8);
  }

  /** Which powers of two fit a 64-bit word. */
  lemma Pow2Limit(e: nat)
    ensures e >= 64 ==> Pow2(e) >= TWO64
    ensures e <= 57 ==> Pow2(e) * 128 <= TWO64
    ensures e == 57 ==> Pow2(e) * 128 == TWO64
  {
    Pow2Of57();
    if e >= 64 {
      Pow2Small();
      Pow2Add(57, 7);
      Pow2Monotone(64, e);
    } else if e <= 57 {
      Pow2Monotone(e, 57);
    }
  }

  lemma Pow2Of57()
    ensures Pow2(57) == 0x200_0000_0000_0000
  {
    Pow2Small();
    assert Pow2(9) == 512;
    Pow2Add(16, 16);
    Pow2Add(16, 9);
    Pow2Add(32, 25);
  }

  lemma WordLimit()
    ensures Pow2(64) == TWO64
  {
    Pow2Limit(57);
    Pow2Small();
    Pow2Add(57, 7);
  }

  lemma MulAssociative(a: int, b: int, c: int)
    ensures a * (b * c) == (a * b) * c
  {
  }

  lemma MulMonotone(a: nat, b: int, c: int)
    requires b <= c
    ensures a * b <= a * c
  {
  }

  lemma MulOrder(a: int, b: int, w: nat)
    requires w > 0 && a * w < b * w
    ensures a < b
  {
    if b <= a {
      MulMonotone(w, b, a);
    }
  }

  /** A quotient lies in the range its numerator does. */
  lemma DivRange(x: nat, w: nat, lo: nat, hi: nat)
    requires w > 0 && lo * w <= x < hi * w
    ensures lo <= x / w < hi
  {
    DivBounds(x, w);
    MulOrder(x / w, hi, w);
    assert (x / w + 1) * w == (x / w) * w + w;
    MulOrder(lo, x / w + 1, w);
  }

  /** Division by a positive number is pinned by its defining inequality. */
  lemma DivUnique(a: int, d: int, q: int)
    requires d > 0
    requires q * d <= a < (q + 1) * d
    ensures a / d == q
  {
    var r := a / d;
    assert r * d <= a < (r + 1) * d;
    if r < q {
      MulMonotone(d, r + 1, q);
    }
  }

  lemma DivBounds(a: int, d: int)
    requires d > 0
    ensures (a / d) * d <= a < (a / d) * d + d
  {
  }

  /** The quotient, with the inequality that defines it. */
  function Quotient(a: nat, d: nat): (q: nat)
    requires d > 0
    ensures q * d <= a < q * d + d
  {
    a / d
  }

  lemma DivMonotone(a: int, b: int, d: int)
    requires d > 0 && a <= b
    ensures a / d <= b / d
  {
    DivBounds(a, d);
    DivBounds(b, d);
    if b / d < a / d {
      MulMonotone(d, b / d + 1, a / d);
    }
  }

  /** Pulling a multiple of the divisor out of a quotient. */
  lemma DivAddMultiple(a: int, q: int, d: int)
    requires d > 0
    ensures (q * d + a) / d == q + a / d
  {
    DivBounds(a, d);
    DivUnique(q * d + a, d, q + a / d);
  }

  /** Positions less than a capacity apart have different cells of a ring. */
  lemma DistinctCells(p: nat, q: nat, capacity: nat)
    requires p < q < p + capacity
    ensures p % capacity != q % capacity
  {
    var a, b := p / capacity, q / capacity;
    if p % capacity == q % capacity {
      assert q - p == (b - a) * capacity;
      if b - a >= 1 {
        MulMonotone(capacity, 1, b - a);
      } else {
        MulMonotone(capacity, b - a, 0);
      }
      assert false;
    }
  }

  lemma WrapSmall(x: nat)
    requires x < TWO64
    ensures Wrap(x) == x
  {
  }

  /** Wrapping twice, or wrapping an operand first, changes nothing. */
  lemma WrapAdd(a: int, b: int)
    ensures Wrap(Wrap(a) + Wrap(b)) == Wrap(a + b)
    ensures Wrap(Wrap(a) + b) == Wrap(a + b)
  {
    var q := a / 0x1_0000_0000_0000_0000;
    assert a == q * TWO64 + Wrap(a);
    var p := b / 0x1_0000_0000_0000_0000;
    assert b == p * TWO64 + Wrap(b);
    assert a + b == (q + p) * TWO64 + (Wrap(a) + Wrap(b));
    assert a + b == q * TWO64 + (Wrap(a) + b);
  }
}
