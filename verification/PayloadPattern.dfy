/** The word both benchmark checkers derive a message's payload from. */
module PayloadPattern {
  import opened Words
  import opened Bits

  const GOLDEN: nat := 0x9E3779B97F4A7C15

  /** sequence ^ (producer * GOLDEN), in 64-bit registers. */
  function Pattern(producer: U32, sequence: U64): (p: U64) {
    WordLimit();
    XorFits(sequence, Wrap(producer * GOLDEN), 64);
    Xor(sequence, Wrap(producer * GOLDEN))
  }

  /** Multiplying by GOLDEN in 64-bit registers can be undone. */
  const INVERSE: nat := 0xF1DE_83E1_9937_733D

  lemma Undone(p: U64)
    ensures Wrap(Wrap(p * GOLDEN) * INVERSE) == p
  {
    var q := p * GOLDEN / 0x1_0000_0000_0000_0000;
    var k := 0x957B_BF35_006E_D677;
    assert GOLDEN * INVERSE == k * TWO64 + 1;
    assert Wrap(p * GOLDEN) == p * GOLDEN - q * TWO64;
    MulAssociative(p, GOLDEN, INVERSE);
    assert Wrap(p * GOLDEN) * INVERSE == p * (k * TWO64 + 1) - q * TWO64 * INVERSE;
    MultipleGone(p, p * k - q * INVERSE);
  }

  lemma MultipleGone(p: U64, n: int)
    ensures Wrap(p + n * TWO64) == p
  {
  }

  /** The pattern tells the messages of one producer apart, and the producers of one number. */
  lemma PatternTellsApart(p: U32, s: U64, p': U32, s': U64)
    ensures Pattern(p, s) == Pattern(p, s') <==> s == s'
    ensures Pattern(p, s) == Pattern(p', s) <==> p == p'
    ensures Pattern(0, s) == s && Pattern(1, 0) == 0x9E37_79B9_7F4A_7C15
  {
    hide Xor;
    Undone(p);
    Undone(p');
    XorTellsApart(Wrap(p * GOLDEN), s, s');
    XorTellsApart(s, Wrap(p * GOLDEN), Wrap(p' * GOLDEN));
    XorZero(s);
    XorZero(GOLDEN);
  }

  /** So do the words made from it. */
  lemma WordsTellApart(a: U64, b: U64, i: nat)
    ensures AddWord(a, i) == AddWord(b, i) <==> a == b
  {
    hide Wrap;
    var n: int := i;
    WrapSmall(a);
    WrapSmall(b);
    WrapAdd(a + n, -n);
    WrapAdd(b + n, -n);
  }
}
