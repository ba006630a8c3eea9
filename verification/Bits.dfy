/** Bitwise conjunction of machine words, as a function of naturals. */
module Bits {
  /** The bits set in both `a` and `b`. */
  function And(a: nat, b: nat): nat {
    if a == 0 || b == 0 then 0
    else (a % 2) * (b % 2) + 2 * And(a / 2, b / 2)
  }

  const WORD_MAX: nat := 0xFFFF_FFFF_FFFF_FFFF

  /** `~3` on a 64-bit word: every bit set but the two lowest. */
  const NOT_3: nat := 0xFFFF_FFFF_FFFF_FFFC

  /** All bits of `m` up to its highest are set. */
  predicate AllOnes(m: nat) {
    m == 0 || (m % 2 == 1 && AllOnes(m / 2))
  }

  /** A mask of ones keeps a word that is no wider. */
  lemma {:induction false} AndOnes(a: nat, m: nat)
    requires AllOnes(m) && a <= m
    ensures And(a, m) == a
  {
    if a == 0 {
    } else {
      AndOnes(a / 2, m / 2);
    }
  }

  /** A mask whose lowest bit is clear. */
  lemma AndShift(a: nat, b: nat)
    ensures And(a, 2 * b) == 2 * And(a / 2, b)
  {
    if a > 0 && b > 0 {
      assert 2 * b / 2 == b && 2 * b % 2 == 0;
    }
  }

  lemma OneMore(m: nat)
    requires AllOnes(m)
    ensures AllOnes(2 * m + 1)
  {
    assert (2 * m + 1) / 2 == m;
  }

  lemma FourMoreOnes(m: nat)
    requires AllOnes(m)
    ensures AllOnes(0x10 * m + 0xF)
  {
    OneMore(m);
    OneMore(2 * m + 1);
    OneMore(4 * m + 3);
    OneMore(8 * m + 7);
  }

  lemma SixteenMoreOnes(m: nat)
    requires AllOnes(m)
    ensures AllOnes(0x1_0000 * m + 0xFFFF)
  {
    FourMoreOnes(m);
    FourMoreOnes(0x10 * m + 0xF);
    FourMoreOnes(0x100 * m + 0xFF);
    FourMoreOnes(0x1000 * m + 0xFFF);
  }

  lemma MaskOnes()
    ensures AllOnes(0x3FFF_FFFF_FFFF_FFFF)
  {
    FourMoreOnes(0x3);
    FourMoreOnes(0x3F);
    FourMoreOnes(0x3FF);
    SixteenMoreOnes(0x3FFF);
    SixteenMoreOnes(0x3FFF_FFFF);
    SixteenMoreOnes(0x3FFF_FFFF_FFFF);
  }

  /** Clearing the two lowest bits of a word. */
  lemma AndNot3(a: nat)
    requires a <= WORD_MAX
    ensures And(a, NOT_3) == 4 * (a / 4)
  {
    var m := 0x3FFF_FFFF_FFFF_FFFF;
    MaskOnes();
    AndOnes(a / 4, m);
    AndShift(a, 2 * m);
    AndShift(a / 2, m);
    assert a / 2 / 2 == a / 4;
  }

  /** `(n + 3) & ~3` on a word is the least multiple of 4 at or above `n`. */
  lemma RoundUpBy4(n: nat)
    requires n + 3 <= WORD_MAX
    ensures var r := And(n + 3, NOT_3);
      && r % 4 == 0 && n <= r
      && forall m: nat :: m % 4 == 0 && n <= m ==> r <= m
  {
    hide And;
    AndNot3(n + 3);
    FourthAbove(n);
  }

  lemma FourthAbove(n: nat)
    ensures var r := 4 * ((n + 3) / 4);
      && r % 4 == 0 && n <= r
      && forall m: nat :: m % 4 == 0 && n <= m ==> r <= m
  {}
}
