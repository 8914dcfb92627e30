/**
 * The power-of-two test the allocator applies to chunk sizes and to requested
 * alignments: `x && !(x & (x - 1))` on unsigned values.
 *
 * Unsigned values are unbounded naturals here; C's bitwise `&` is defined bit
 * by bit from the least significant bit, and the test is related to the
 * number of one bits in x.
 */
module Bits {

  import opened Arith

  /** C's bitwise `&` on unsigned values. */
  function BitAnd(a: nat, b: nat): (r: nat)
    ensures r <= a && r <= b
    decreases a
  {
    if a == 0 || b == 0 then 0
    else 2 * BitAnd(a / 2, b / 2) + (if a % 2 == 1 && b % 2 == 1 then 1 else 0)
  }

  /** Bit k of x is set; bit 0 is the least significant. */
  predicate Bit(x: nat, k: nat)
    decreases k
  {
    if k == 0 then x % 2 == 1 else Bit(x / 2, k - 1)
  }

  lemma {:induction false} ZeroHasNoBits(k: nat)
    ensures !Bit(0, k)
    decreases k
  {
    if k > 0 {
      ZeroHasNoBits(k - 1);
    }
  }

  /** BitAnd is bitwise: bit k of a & b is set exactly when bit k is set in both a and b. */
  lemma {:induction false} BitAndIsBitwise(a: nat, b: nat, k: nat)
    ensures Bit(BitAnd(a, b), k) <==> Bit(a, k) && Bit(b, k)
    decreases k
  {
    if a == 0 || b == 0 {
      ZeroHasNoBits(k);
    } else if k > 0 {
      var r := BitAnd(a, b);
      assert r / 2 == BitAnd(a / 2, b / 2);
      BitAndIsBitwise(a / 2, b / 2, k - 1);
    }
  }

  /** The number of one bits in the binary representation of x. */
  function PopCount(x: nat): nat
  {
    if x == 0 then 0 else x % 2 + PopCount(x / 2)
  }

  /** is_power_of_two: x is non-zero and clearing its lowest set bit leaves nothing; that is, x has exactly one bit set. */
  predicate IsPowerOfTwo(x: nat)
    ensures IsPowerOfTwo(x) <==> PopCount(x) == 1
  {
    PowerOfTwoIsSingleBit(x);
    x != 0 && BitAnd(x, x - 1) == 0
  }

  lemma {:induction false} BitAndSelf(x: nat)
    ensures BitAnd(x, x) == x
    decreases x
  {
    if x != 0 {
      BitAndSelf(x / 2);
    }
  }

  lemma {:induction false} PopCountPositive(x: nat)
    requires x != 0
    ensures PopCount(x) >= 1
    decreases x
  {
    if x % 2 == 0 {
      PopCountPositive(x / 2);
    }
  }

  /** For even x >= 2, x & (x - 1) is twice (x/2) & (x/2 - 1). */
  lemma EvenStep(x: nat)
    requires x >= 2 && x % 2 == 0
    ensures BitAnd(x, x - 1) == 2 * BitAnd(x / 2, x / 2 - 1)
    ensures PopCount(x) == PopCount(x / 2)
  {
    assert (x - 1) / 2 == x / 2 - 1;
  }

  /** For odd x >= 3, x & (x - 1) keeps the bits above the lowest one. */
  lemma OddStep(x: nat)
    requires x >= 3 && x % 2 == 1
    ensures BitAnd(x, x - 1) == x - 1
    ensures PopCount(x) >= 2
  {
    assert (x - 1) / 2 == x / 2;
    BitAndSelf(x / 2);
    PopCountPositive(x / 2);
  }

  /** The C test `x && !(x & (x - 1))` holds exactly when x has one bit set; in particular 0 is rejected. */
  lemma {:induction false} PowerOfTwoIsSingleBit(x: nat)
    ensures (x != 0 && BitAnd(x, x - 1) == 0) <==> PopCount(x) == 1
    decreases x
  {
    if x >= 2 && x % 2 == 0 {
      EvenStep(x);
      PowerOfTwoIsSingleBit(x / 2);
    } else if x >= 3 {
      OddStep(x);
    }
  }

  /** A power of two above one is even and its half is again a power of two. */
  lemma PowerOfTwoHalf(x: nat)
    requires IsPowerOfTwo(x) && x > 1
    ensures x % 2 == 0 && IsPowerOfTwo(x / 2)
  {
    if x % 2 == 1 {
      OddStep(x);
      assert false;
    }
    EvenStep(x);
  }

  /** An alignment that passes the power-of-two test and is at most a power-of-two chunk size divides it. */
  lemma AlignmentDivides(align: nat, c: nat)
    ensures IsPowerOfTwo(align) && IsPowerOfTwo(c) && align <= c ==> c % align == 0
  {
    if IsPowerOfTwo(align) && IsPowerOfTwo(c) && align <= c {
      PowerOfTwoDivides(align, c);
    }
  }

  /** Of two powers of two, the larger is a multiple of the smaller. */
  lemma {:induction false} PowerOfTwoDivides(a: nat, c: nat)
    requires IsPowerOfTwo(a) && IsPowerOfTwo(c) && a <= c
    ensures c % a == 0
    decreases a
  {
    if a > 1 {
      PowerOfTwoHalf(a);
      PowerOfTwoHalf(c);
      PowerOfTwoDivides(a / 2, c / 2);
      HalvesDivide(a, c);
    }
  }

  lemma HalvesDivide(a: nat, c: nat)
    requires a >= 2 && a % 2 == 0 && c % 2 == 0 && (c / 2) % (a / 2) == 0
    ensures c % a == 0
  {
    var h, m := a / 2, (c / 2) / (a / 2);
    assert c / 2 == h * m;
    assert c == a * m;
    MultipleMod(m, a);
  }

  /** The sizes and alignments the tests use: 8, 32 and 64 are powers of two, 3 is not. */
  lemma SmallPowersOfTwo()
    ensures IsPowerOfTwo(8) && IsPowerOfTwo(32) && IsPowerOfTwo(64) && !IsPowerOfTwo(3)
  {
    assert BitAnd(3, 2) == 2;
  }
}
