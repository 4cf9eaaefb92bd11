/** Bits of unsigned machine words, by shifting: what word & (1 << i), word | (1 << i) and a
    population count mean for the value of the word. */
module Bits {
  import opened Words

  /** Whether word & (1 << i) is non-zero: the low bit after shifting right i times. */
  predicate Bit(word: nat, i: nat) {
    if i == 0 then word % 2 == 1 else Bit(word / 2, i - 1)
  }

  /** word | (1 << i). */
  function WithBit(word: nat, i: nat): nat {
    if i == 0 then word / 2 * 2 + 1 else WithBit(word / 2, i - 1) * 2 + word % 2
  }

  lemma {:induction false} SetBit(word: nat, i: nat, j: nat)
    ensures Bit(WithBit(word, i), j) <==> j == i || Bit(word, j)
  {
    if i > 0 && j > 0 {
      SetBit(word / 2, i - 1, j - 1);
    }
  }

  lemma {:induction false} WithBitFits(word: nat, i: nat, width: nat)
    requires i < width && word < Pow2(width)
    ensures WithBit(word, i) < Pow2(width)
  {
    if i > 0 {
      WithBitFits(word / 2, i - 1, width - 1);
    }
  }

  lemma {:induction false} NoBits(i: nat)
    ensures !Bit(0, i)
  {
    if i > 0 {
      NoBits(i - 1);
    }
  }

  /** Bitwise exclusive or. */
  function Xor(a: nat, b: nat): nat {
    if a == 0 && b == 0 then 0 else 2 * Xor(a / 2, b / 2) + (a + b) % 2
  }

  lemma {:induction false} XorFits(a: nat, b: nat, width: nat)
    requires a < Pow2(width) && b < Pow2(width)
    ensures Xor(a, b) < Pow2(width)
  {
    if width > 0 {
      XorFits(a / 2, b / 2, width - 1);
    }
  }

  lemma {:induction false} XorCommutes(a: nat, b: nat)
    ensures Xor(a, b) == Xor(b, a)
  {
    if a != 0 || b != 0 {
      XorCommutes(a / 2, b / 2);
    }
  }

  lemma XorUnfold(a: nat, b: nat)
    ensures Xor(a, b) == 2 * Xor(a / 2, b / 2) + (a + b) % 2
  {
  }

  lemma {:induction false} XorCancels(a: nat, b: nat, c: nat)
    ensures Xor(a, b) == Xor(a, c) <==> b == c
  {
    hide Xor;
    if a != 0 || b != 0 || c != 0 {
      XorUnfold(a, b);
      XorUnfold(a, c);
      XorCancels(a / 2, b / 2, c / 2);
    }
  }

  /** With one operand fixed, the other can be told from the result. */
  lemma XorTellsApart(a: nat, b: nat, c: nat)
    ensures Xor(a, b) == Xor(a, c) <==> b == c
    ensures Xor(b, a) == Xor(c, a) <==> b == c
  {
    XorCancels(a, b, c);
    XorCommutes(a, b);
    XorCommutes(a, c);
  }

  lemma {:induction false} XorZero(a: nat)
    ensures Xor(a, 0) == Xor(0, a) == a
  {
    if a > 0 {
      XorZero(a / 2);
    }
  }

  /** Bitwise or. */
  function Or(a: nat, b: nat): nat {
    if a == 0 && b == 0 then 0
    else 2 * Or(a / 2, b / 2) + (if a % 2 == 1 || b % 2 == 1 then 1 else 0)
  }

  lemma {:induction false} OrFits(a: nat, b: nat, width: nat)
    requires a < Pow2(width) && b < Pow2(width)
    ensures Or(a, b) < Pow2(width)
  {
    if width > 0 {
      OrFits(a / 2, b / 2, width - 1);
    }
  }

  lemma {:induction false} OrZero(a: nat)
    ensures Or(a, 0) == a
  {
    if a > 0 {
      OrZero(a / 2);
    }
  }

  /** Where the operands share no bits, or is addition. */
  lemma {:induction false} OrDisjoint(high: nat, low: nat, k: nat)
    requires low < Pow2(k)
    ensures Or(high * Pow2(k), low) == high * Pow2(k) + low
  {
    if k == 0 {
      OrZero(high);
    } else {
      OrDisjoint(high, low / 2, k - 1);
      var half := high * Pow2(k - 1);
      assert high * Pow2(k) == 2 * half by {
        MulAssociative(high, Pow2(k - 1), 2);
      }
      HalfOfDouble(half, low);
    }
  }

  lemma HalfOfDouble(half: nat, low: nat)
    requires Or(half, low / 2) == half + low / 2
    ensures Or(2 * half, low) == 2 * half + low
  {
    assert (2 * half) / 2 == half;
  }

  /** Number of set bits. */
  function PopCount(word: nat): nat {
    if word == 0 then 0 else word % 2 + PopCount(word / 2)
  }

  lemma {:induction false} BitAbove(word: nat, i: nat)
    requires word < Pow2(i)
    ensures !Bit(word, i)
  {
    if i > 0 {
      BitAbove(word / 2, i - 1);
    }
  }

  /** Adding 2^k to a smaller word sets bit k and nothing else. */
  lemma {:induction false} AddHighBit(word: nat, k: nat, i: nat)
    requires word < Pow2(k) && i <= k
    ensures Bit(word + Pow2(k), i) <==> i == k || Bit(word, i)
  {
    if k > 0 {
      assert (word + Pow2(k)) / 2 == word / 2 + Pow2(k - 1);
      if i > 0 {
        AddHighBit(word / 2, k - 1, i - 1);
      }
    }
  }

  lemma {:induction false} PopCountHighBit(word: nat, k: nat)
    requires word < Pow2(k)
    ensures PopCount(word + Pow2(k)) == PopCount(word) + 1
  {
    if k > 0 {
      assert (word + Pow2(k)) / 2 == word / 2 + Pow2(k - 1);
      PopCountHighBit(word / 2, k - 1);
    }
  }
}
