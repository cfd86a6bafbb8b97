// The bit operations that the block index and the chain view are built on, and
// what they compute.  Numbers are shifted rather than multiplied by powers of
// two, so that every proof here is linear.

module Bits {

  /** n << i */
  function Shl(n: nat, i: nat): nat {
    if i == 0 then n else 2 * Shl(n, i - 1)
  }

  /** n >> i */
  function Shr(n: nat, i: nat): nat {
    if i == 0 then n else Shr(n / 2, i - 1)
  }

  /** Two raised to the power k. */
  function Pow2(k: nat): (p: nat)
    ensures p >= 1
  {
    ShlGrows(1, k);
    Shl(1, k)
  }

  /** Bitwise "and" of two integers in two's complement of unbounded width. */
  function BitAnd(a: int, b: int): int
    decreases if a >= 0 then a else -a
  {
    if a == 0 then 0
    else if a == -1 then b
    else (if a % 2 == 1 then b % 2 else 0) + 2 * BitAnd(a / 2, b / 2)
  }

  // ----- Shifts -----

  lemma {:induction false} ShlGrows(n: nat, i: nat)
    ensures Shl(n, i) >= n
  {
    if i > 0 {
      ShlGrows(n, i - 1);
    }
  }

  lemma ShlUnfold(n: nat, i: nat)
    ensures Shl(n, 0) == n && Shl(n, i + 1) == 2 * Shl(n, i)
  {}

  lemma {:induction false} ShlAdd(a: nat, b: nat, i: nat)
    ensures Shl(a + b, i) == Shl(a, i) + Shl(b, i)
  {
    if i > 0 {
      ShlAdd(a, b, i - 1);
    }
  }

  lemma {:induction false} ShlShl(n: nat, i: nat, j: nat)
    ensures Shl(Shl(n, i), j) == Shl(n, i + j)
  {
    if j > 0 {
      ShlShl(n, i, j - 1);
    }
  }

  lemma {:induction false} ShrShr(n: nat, i: nat, j: nat)
    ensures Shr(Shr(n, i), j) == Shr(n, i + j)
  {
    if i > 0 {
      ShrShr(n / 2, i - 1, j);
    }
  }

  lemma {:induction false} Pow2Monotone(i: nat, j: nat)
    requires i <= j
    ensures Pow2(i) <= Pow2(j)
    ensures i < j ==> 2 * Pow2(i) <= Pow2(j)
  {
    if i < j {
      Pow2Monotone(i, j - 1);
    }
  }

  /** What a right shift says about the size of a number. */
  lemma {:induction false} ShrBounds(n: nat, i: nat, k: nat)
    ensures Shr(n, i) < Pow2(k) <==> n < Pow2(k + i)
  {
    if i > 0 {
      ShrBounds(n / 2, i - 1, k);
      assert Pow2(k + i) == 2 * Pow2(k + i - 1);
    }
  }

  /** The powers of two that bound 32-bit integers. */
  lemma Pow2OfIntWidth()
    ensures Pow2(31) == 0x8000_0000 && Pow2(32) == 0x1_0000_0000
  {
    hide Shl;
    LiteralShifts();
    ShlShl(1, 8, 8);
    ShlShl(1, 16, 8);
    ShlShl(1, 24, 7);
    ShlShl(1, 24, 8);
  }

  lemma LiteralShifts()
    ensures Shl(1, 8) == 0x100 && Shl(0x100, 8) == 0x1_0000 && Shl(0x1_0000, 8) == 0x100_0000
    ensures Shl(0x100_0000, 7) == 0x8000_0000 && Shl(0x100_0000, 8) == 0x1_0000_0000
  {}

  // ----- Masks -----

  lemma {:induction false} BitAndSelf(n: nat)
    ensures BitAnd(n, n) == n
  {
    if n > 0 {
      BitAndSelf(n / 2);
    }
  }

  /** A mask of i ones keeps a number of at most i bits. */
  lemma {:induction false} BitAndOnes(n: nat, i: nat)
    requires n < Pow2(i)
    ensures BitAnd(n, Pow2(i) - 1) == n
  {
    if i > 0 && n > 0 {
      BitAndOnes(n / 2, i - 1);
      assert (Pow2(i) - 1) / 2 == Pow2(i - 1) - 1;
    }
  }

  /** A mask without bits below i only sees the number shifted right by i. */
  lemma {:induction false} BitAndShl(n: nat, mask: nat, i: nat)
    ensures BitAnd(n, Shl(mask, i)) == 0 <==> BitAnd(Shr(n, i), mask) == 0
  {
    if i > 0 {
      BitAndShl(n / 2, mask, i - 1);
    }
  }

  // ----- The lowest set bit (blockindex.go) -----

  /** Turns the lowest 1 bit of n into a 0: n & (n - 1). */
  function InvertLowestOne(n: nat): int {
    BitAnd(n, n - 1)
  }

  /** When bit i is the lowest set bit of n, exactly that bit is cleared. */
  lemma {:induction false} InvertLowestOneClears(q: nat, i: nat)
    requires q % 2 == 1
    ensures InvertLowestOne(Shl(q, i)) == Shl(q - 1, i) == Shl(q, i) - Pow2(i)
  {
    hide BitAnd, Shl;
    if i == 0 {
      ShlUnfold(q, 0);
      ShlUnfold(q - 1, 0);
      ShlUnfold(1, 0);
      AndOdd(q / 2);
    } else {
      InvertLowestOneClears(q, i - 1);
      ShlUnfold(q, i - 1);
      ShlUnfold(q - 1, i - 1);
      ShlUnfold(1, i - 1);
      ShlGrows(q, i - 1);
      AndEven(Shl(q, i - 1));
    }
  }

  /** An even number and its predecessor agree on twice the bits that its half and its
      predecessor agree on. */
  lemma AndEven(m: nat)
    requires m > 0
    ensures BitAnd(2 * m, 2 * m - 1) == 2 * BitAnd(m, m - 1)
  {
    assert (2 * m) / 2 == m && (2 * m) % 2 == 0 && (2 * m - 1) / 2 == m - 1;
  }

  /** An odd number and its predecessor agree on all bits but the last. */
  lemma AndOdd(m: nat)
    ensures BitAnd(2 * m + 1, 2 * m) == 2 * m
  {
    BitAndSelf(m);
    assert (2 * m + 1) / 2 == m && (2 * m) / 2 == m && (2 * m) % 2 == 0;
  }

  /** Every positive number has a lowest set bit. */
  lemma {:induction false} LowestBit(n: nat) returns (q: nat, i: nat)
    requires n > 0
    ensures q % 2 == 1 && n == Shl(q, i)
  {
    if n % 2 == 1 {
      q, i := n, 0;
    } else {
      q, i := LowestBit(n / 2);
      i := i + 1;
    }
  }
}
