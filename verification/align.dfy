/** Rounding up to a power of two, as the kernel's ALIGN and `(x + a - 1) & ~(a - 1)` do. */
module Align {
  /** `a & (a - 1) == 0` for a positive `a`. */
  predicate IsPow2(a: nat) {
    a == 1 || (a > 1 && a % 2 == 0 && IsPow2(a / 2))
  }

  lemma {:induction false} Pow2IsPow2(k: nat)
    ensures IsPow2(Pow2(k))
  {
    if k > 0 {
      Pow2IsPow2(k - 1);
      assert Pow2(k) / 2 == Pow2(k - 1);
    }
  }

  lemma {:induction false} IsPow2Exponent(a: nat) returns (k: nat)
    requires IsPow2(a)
    ensures Pow2(k) == a
  {
    if a == 1 {
      k := 0;
    } else {
      k := IsPow2Exponent(a / 2);
      k := k + 1;
    }
  }

  /** What the test accepts, but for 0, is exactly the powers of two. */
  lemma IsPow2Iff(a: nat)
    ensures IsPow2(a) <==> exists k: nat :: Pow2(k) == a
  {
    if IsPow2(a) {
      var k := IsPow2Exponent(a);
      assert Pow2(k) == a;
    }
    if k: nat :| Pow2(k) == a {
      Pow2IsPow2(k);
    }
  }

  function Pow2(n: nat): (p: nat)
    ensures p > 0
  {
    if n == 0 then 1 else 2 * Pow2(n - 1)
  }

  /** The mask of an alignment of 0 is empty, so masking with it leaves 0. */
  function AlignUp(x: nat, a: nat): nat {
    if a == 0 then 0 else if x % a == 0 then x else x - x % a + a
  }

  lemma MulMod(q: int, a: nat)
    requires a > 0
    ensures (q * a) % a == 0
  {
    DivUnique(q * a, a, q, 0);
  }

  /** A nonzero multiple of `a` is at least `a` away from 0. */
  lemma MultipleGap(d: int, a: int)
    requires a > 0
    ensures d >= 1 ==> d * a >= a
    ensures d <= -1 ==> d * a <= -a
  {
  }

  lemma DivUnique(x: int, a: int, q: int, r: int)
    requires 0 <= r < a && x == q * a + r
    ensures x / a == q && x % a == r
  {
    var d := x / a - q;
    assert d * a == (x / a) * a - q * a;
    MultipleGap(d, a);
  }

  /** The result is the least multiple of `a` at or above `x`. */
  lemma AlignUpLeast(x: nat, a: nat)
    requires a > 0
    ensures x <= AlignUp(x, a) < x + a && AlignUp(x, a) % a == 0
  {
    if x % a != 0 {
      var q := x / a;
      assert x == q * a + x % a;
      DivUnique(x - x % a + a, a, q + 1, 0);
    }
  }

  lemma AlignUpUnique(x: nat, a: nat, m: nat)
    requires a > 0 && m % a == 0 && x <= m < x + a
    ensures AlignUp(x, a) == m
  {
    AlignUpLeast(x, a);
    MultiplesApart(m, AlignUp(x, a), a);
    MultiplesApart(AlignUp(x, a), m, a);
  }

  /** Of two powers of two the smaller divides the larger. */
  lemma {:induction false} Pow2Divides(a: nat, b: nat)
    requires IsPow2(a) && IsPow2(b) && a <= b
    ensures b % a == 0
  {
    if a > 1 {
      Pow2Divides(a / 2, b / 2);
      var q := (b / 2) / (a / 2);
      assert b / 2 == (a / 2) * q;
      assert b == q * a by { assert a == 2 * (a / 2) && b == 2 * (b / 2); }
      MulMod(q, a);
    }
  }

  lemma {:induction false} ModAddMultiple(x: nat, a: nat)
    requires a > 0 && x % a == 0
    ensures (x + a) % a == 0
  {
    DivUnique(x + a, a, x / a + 1, 0);
  }

  /** Rounding up inside a block of `b` bytes never leaves the block. */
  lemma AlignUpWithin(x: nat, a: nat, b: nat)
    requires IsPow2(a) && IsPow2(b) && a <= b && x <= b
    ensures AlignUp(x, a) <= b
  {
    AlignUpLeast(x, a);
    Pow2Divides(a, b);
    MultiplesApart(AlignUp(x, a), b, a);
  }

  /** Two multiples of `a` that are less than `a` apart are equal. */
  lemma MultiplesApart(x: int, y: int, a: int)
    requires a > 0 && x % a == 0 && y % a == 0
    ensures x - y < a ==> x <= y
  {
    var d := x / a - y / a;
    assert d * a == (x / a) * a - (y / a) * a;
    assert x == (x / a) * a && y == (y / a) * a;
    MultipleGap(d, a);
  }

  /** Rounding up commutes with a shift by a multiple of the alignment. */
  lemma AlignUpShift(x: nat, a: nat, base: nat)
    requires a > 0 && base % a == 0
    ensures AlignUp(base + x, a) == base + AlignUp(x, a)
  {
    AlignUpLeast(x, a);
    var m := base + AlignUp(x, a);
    assert m % a == 0 by {
      var p, q := base / a, AlignUp(x, a) / a;
      assert base == p * a && AlignUp(x, a) == q * a;
      assert m == (p + q) * a;
      MulMod(p + q, a);
    }
    AlignUpUnique(base + x, a, m);
  }
}
