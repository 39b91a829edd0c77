/**
 * Bitwise operators on unsigned words, and what a 64-bit bitmap means: the set
 * of the positions that hold a one. Everything above this module talks about
 * that set; the Notify service itself works on the word.
 */
module Bits {
  const WIDTH: nat := 64

  function Pow2(n: nat): (p: nat)
    ensures p > 0
  {
    if n == 0 then 1 else 2 * Pow2(n - 1)
  }

  /** A `u64`. */
  type Word = w: nat | w < Pow2(WIDTH) witness 0

  lemma {:induction false} Pow2Below(i: nat, n: nat)
    requires i < n
    ensures Pow2(i) < Pow2(n)
  {
    if i > 0 {
      Pow2Below(i - 1, n - 1);
    } else if n > 1 {
      Pow2Below(0, n - 1);
    }
  }

  /** `1u64 << i`, for a shift that does not overflow. */
  function Bit(i: nat): (w: Word)
    requires i < WIDTH
    ensures w == Pow2(i)
  {
    Pow2Below(i, WIDTH);
    Pow2(i)
  }

  /** `a & b` on naturals, one binary digit at a time. */
  function And(a: nat, b: nat): nat
    decreases a
  {
    if a == 0 then 0
    else 2 * And(a / 2, b / 2) + (if a % 2 == 1 && b % 2 == 1 then 1 else 0)
  }

  /** `a | b`. */
  function Or(a: nat, b: nat): nat
    decreases a + b
  {
    if a == 0 && b == 0 then 0
    else 2 * Or(a / 2, b / 2) + (if a % 2 == 1 || b % 2 == 1 then 1 else 0)
  }

  /** `a & !b`. */
  function AndNot(a: nat, b: nat): nat
    decreases a
  {
    if a == 0 then 0
    else 2 * AndNot(a / 2, b / 2) + (if a % 2 == 1 && b % 2 == 0 then 1 else 0)
  }

  /** The binary digit at position `i`. */
  predicate Has(w: nat, i: nat) {
    if i == 0 then w % 2 == 1 else Has(w / 2, i - 1)
  }

  /** The meaning of a word: the set of positions that hold a one. */
  function BitSet(w: nat): (s: set<nat>)
    ensures forall i: nat :: i in s <==> i < WIDTH && Has(w, i)
  {
    set i: nat | i < WIDTH && Has(w, i)
  }

  lemma {:induction false} HasOfZero(i: nat)
    ensures !Has(0, i)
  {
    if i > 0 {
      HasOfZero(i - 1);
    }
  }

  lemma {:induction false} HasOfAnd(a: nat, b: nat, i: nat)
    ensures Has(And(a, b), i) <==> Has(a, i) && Has(b, i)
  {
    if a == 0 {
      HasOfZero(i);
    } else if i > 0 {
      HasOfAnd(a / 2, b / 2, i - 1);
    }
  }

  lemma {:induction false} HasOfOr(a: nat, b: nat, i: nat)
    ensures Has(Or(a, b), i) <==> Has(a, i) || Has(b, i)
  {
    if i > 0 && a + b > 0 {
      HasOfOr(a / 2, b / 2, i - 1);
    } else {
      HasOfZero(i);
    }
  }

  lemma {:induction false} HasOfAndNot(a: nat, b: nat, i: nat)
    ensures Has(AndNot(a, b), i) <==> Has(a, i) && !Has(b, i)
  {
    if a == 0 {
      HasOfZero(i);
    } else if i > 0 {
      HasOfAndNot(a / 2, b / 2, i - 1);
    }
  }

  lemma {:induction false} HasOfPow2(i: nat, j: nat)
    ensures Has(Pow2(i), j) <==> i == j
  {
    if i > 0 && j > 0 {
      HasOfPow2(i - 1, j - 1);
    } else if j > 0 {
      HasOfZero(j - 1);
    }
  }

  // The operators stay inside the word.
  lemma {:induction false} OperatorsFit(a: nat, b: nat, n: nat)
    requires a < Pow2(n) && b < Pow2(n)
    ensures And(a, b) < Pow2(n) && Or(a, b) < Pow2(n) && AndNot(a, b) < Pow2(n)
  {
    if n > 0 {
      OperatorsFit(a / 2, b / 2, n - 1);
    }
  }

  // Words of at most `n` digits that agree on every digit are equal.
  lemma {:induction false} SameDigits(a: nat, b: nat, n: nat)
    requires a < Pow2(n) && b < Pow2(n)
    requires forall i: nat | i < n :: Has(a, i) <==> Has(b, i)
    ensures a == b
  {
    if n > 0 {
      assert Has(a, 0) <==> Has(b, 0);
      forall i: nat | i < n - 1
        ensures Has(a / 2, i) <==> Has(b / 2, i)
      {
        var k := i + 1;
        assert Has(a, k) <==> Has(b, k);
      }
      SameDigits(a / 2, b / 2, n - 1);
    }
  }

  /** A word is its set of positions: no two words mean the same set. */
  lemma BitSetInjective(a: Word, b: Word)
    requires BitSet(a) == BitSet(b)
    ensures a == b
  {
    forall i: nat | i < WIDTH
      ensures Has(a, i) <==> Has(b, i)
    {
      assert i in BitSet(a) <==> i in BitSet(b);
    }
    SameDigits(a, b, WIDTH);
  }

  lemma BitSetOfZero()
    ensures BitSet(0) == {}
  {
    forall i: nat
      ensures !Has(0, i)
    {
      HasOfZero(i);
    }
  }

  /** `w & bit != 0` asks whether the position is in the set. */
  lemma TestBit(w: Word, i: nat)
    requires i < WIDTH
    ensures And(w, Bit(i)) != 0 <==> i in BitSet(w)
  {
    var t := And(w, Bit(i));
    OperatorsFit(w, Bit(i), WIDTH);
    forall j: nat | j < WIDTH
      ensures Has(t, j) <==> Has(w, j) && i == j
      ensures !Has(0, j)
    {
      HasOfAnd(w, Bit(i), j);
      HasOfPow2(i, j);
      HasOfZero(j);
    }
    if !Has(w, i) {
      SameDigits(t, 0, WIDTH);
    }
  }

  /** `w |= bit` inserts the position. */
  lemma SetBit(w: Word, i: nat)
    requires i < WIDTH
    ensures Or(w, Bit(i)) < Pow2(WIDTH)
    ensures BitSet(Or(w, Bit(i))) == BitSet(w) + {i}
  {
    OperatorsFit(w, Bit(i), WIDTH);
    forall j: nat
      ensures Has(Or(w, Bit(i)), j) <==> Has(w, j) || i == j
    {
      HasOfOr(w, Bit(i), j);
      HasOfPow2(i, j);
    }
  }

  /** `w &= !bit` removes the position. */
  lemma ClearBit(w: Word, i: nat)
    requires i < WIDTH
    ensures AndNot(w, Bit(i)) < Pow2(WIDTH)
    ensures BitSet(AndNot(w, Bit(i))) == BitSet(w) - {i}
  {
    OperatorsFit(w, Bit(i), WIDTH);
    forall j: nat
      ensures Has(AndNot(w, Bit(i)), j) <==> Has(w, j) && i != j
    {
      HasOfAndNot(w, Bit(i), j);
      HasOfPow2(i, j);
    }
  }
}
