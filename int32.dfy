/**
 * Java `int` arithmetic: 32-bit two's complement, where `+` wraps around
 * instead of failing.
 */
module Int32 {
  const MIN: int := -0x8000_0000
  const MAX: int := 0x7fff_ffff    // Integer.MAX_VALUE
  const MODULUS: int := 0x1_0000_0000

  predicate InRange(x: int) {
    MIN <= x <= MAX
  }

  /**
   * The Java int that a mathematical integer wraps around to: shift it by
   * 2^32 until it lies in MIN .. MAX.
   */
  function Wrap(x: int): (r: int)
    ensures InRange(r)
    ensures InRange(x) ==> r == x
    decreases if x > MAX then x - MAX else if x < MIN then MIN - x else 0
  {
    if x > MAX then Wrap(x - MODULUS)
    else if x < MIN then Wrap(x + MODULUS)
    else x
  }

  /** Wrapping only ever shifts by whole multiples of 2^32: it is two's-complement truncation. */
  lemma {:induction false} WrapCongruent(x: int)
    ensures (Wrap(x) - x) % MODULUS == 0
    decreases if x > MAX then x - MAX else if x < MIN then MIN - x else 0
  {
    if x > MAX {
      WrapCongruent(x - MODULUS);
    } else if x < MIN {
      WrapCongruent(x + MODULUS);
    }
  }

  /** Java's `a + b` on two ints. */
  function Add(a: int, b: int): (r: int)
    ensures InRange(r)
    ensures InRange(a + b) ==> r == a + b
  {
    Wrap(a + b)
  }

  /** Wrapping ignores a shift by 2^32. */
  lemma WrapStep(x: int)
    ensures Wrap(x + MODULUS) == Wrap(x)
  {
  }

  /** Wrapping ignores a shift by any multiple of 2^32. */
  lemma {:induction false} WrapShift(x: int, k: int)
    ensures Wrap(x + k * MODULUS) == Wrap(x)
    decreases if k < 0 then -k else k
  {
    if k > 0 {
      WrapShift(x, k - 1);
      WrapStep(x + (k - 1) * MODULUS);
    } else if k < 0 {
      WrapShift(x, k + 1);
      WrapStep(x + k * MODULUS);
    }
  }

  /** A wrapped value differs from the original by a multiple of 2^32. */
  lemma {:induction false} WrapOffset(x: int) returns (k: int)
    ensures Wrap(x) == x + k * MODULUS
    decreases if x > MAX then x - MAX else if x < MIN then MIN - x else 0
  {
    if x > MAX {
      k := WrapOffset(x - MODULUS);
      k := k - 1;
    } else if x < MIN {
      k := WrapOffset(x + MODULUS);
      k := k + 1;
    } else {
      k := 0;
    }
  }

  /** Wrapping an intermediate sum does not change the final wrapped result. */
  lemma AddWrapLeft(a: int, b: int)
    ensures Add(Wrap(a), b) == Wrap(a + b)
  {
    var k := WrapOffset(a);
    WrapShift(a + b, k);
    assert Wrap(a) + b == a + b + k * MODULUS;
  }

  /** Java int addition is associative, overflow included. */
  lemma AddAssociative(a: int, b: int, c: int)
    ensures Add(Add(a, b), c) == Add(a, Add(b, c))
  {
    AddWrapLeft(a + b, c);
    AddWrapLeft(b + c, a);
    assert Add(Wrap(b + c), a) == Add(a, Add(b, c));
  }
}
