/** Bitwise operations on unsigned integers, bit by bit. */
module Bits {
  import opened Machine

  function Pow2(n: nat): nat { if n == 0 then 1 else 2 * Pow2(n - 1) }

  /** The lowest `n` bits of `a` xor `b`. */
  function XorBits(a: nat, b: nat, n: nat): (r: nat)
    ensures r < Pow2(n)
  {
    if n == 0 then 0 else 2 * XorBits(a / 2, b / 2, n - 1) + (if a % 2 == b % 2 then 0 else 1)
  }

  lemma {:induction false} XorBitsCancels(a: nat, b: nat, n: nat)
    requires a < Pow2(n)
    ensures XorBits(XorBits(a, b, n), b, n) == a
  {
    if n > 0 {
      var high := XorBits(a / 2, b / 2, n - 1);
      XorBitsCancels(a / 2, b / 2, n - 1);
      assert XorBits(a, b, n) / 2 == high;
    }
  }

  lemma {:induction false} XorBitsInjective(a: nat, b: nat, b': nat, n: nat)
    requires b < Pow2(n) && b' < Pow2(n) && XorBits(a, b, n) == XorBits(a, b', n)
    ensures b == b'
  {
    if n > 0 {
      XorBitsInjective(a / 2, b / 2, b' / 2, n - 1);
    }
  }

  /** The lowest `n` bits of `a` or `b`. */
  function OrBits(a: nat, b: nat, n: nat): (r: nat)
    ensures r < Pow2(n)
  {
    if n == 0 then 0 else 2 * OrBits(a / 2, b / 2, n - 1) + (if a % 2 == 0 && b % 2 == 0 then 0 else 1)
  }

  lemma {:induction false} OrBitsAssociates(a: nat, b: nat, c: nat, n: nat)
    ensures OrBits(OrBits(a, b, n), c, n) == OrBits(a, OrBits(b, c, n), n)
  {
    if n > 0 {
      OrBitsAssociates(a / 2, b / 2, c / 2, n - 1);
      assert OrBits(a, b, n) / 2 == OrBits(a / 2, b / 2, n - 1);
      assert OrBits(b, c, n) / 2 == OrBits(b / 2, c / 2, n - 1);
    }
  }

  lemma {:induction false} OrBitsZero(a: nat, n: nat)
    requires a < Pow2(n)
    ensures OrBits(0, a, n) == a == OrBits(a, 0, n)
  {
    if n > 0 {
      OrBitsZero(a / 2, n - 1);
    }
  }

  lemma {:induction false} OrBitsAtLeast(a: nat, b: nat, n: nat)
    requires a < Pow2(n)
    ensures a <= OrBits(a, b, n)
  {
    if n > 0 {
      OrBitsAtLeast(a / 2, b / 2, n - 1);
    }
  }

  /** The lowest `k` bits are zero. */
  predicate Clear(x: nat, k: nat) { k == 0 || (x % 2 == 0 && Clear(x / 2, k - 1)) }

  lemma DoubleIsClear(x: nat, k: nat)
    requires Clear(x, k)
    ensures Clear(2 * x, k + 1)
  {
  }

  lemma {:induction false} ShiftedIsClear(a: nat, k: nat)
    ensures Clear(Pow2(k) * a, k)
  {
    if k > 0 {
      var p, x := Pow2(k - 1), Pow2(k - 1) * a;
      ShiftedIsClear(a, k - 1);
      assert Pow2(k) == 2 * p;
      hide Clear, Pow2;
      assert (2 * p) * a == 2 * x;
      DoubleIsClear(x, k - 1);
    }
  }

  /** Numbers whose bits do not overlap add up. */
  lemma {:induction false} OrBitsDisjoint(x: nat, k: nat, y: nat, n: nat)
    requires Clear(x, k) && y < Pow2(k) && x + y < Pow2(n)
    ensures OrBits(x, y, n) == x + y
    decreases n
  {
    if k == 0 {
      OrBitsZero(x, n);
    } else if n > 0 {
      OrBitsDisjoint(x / 2, k - 1, y / 2, n - 1);
    }
  }

  function Bit(x: nat, k: nat): nat { if k == 0 then x % 2 else Bit(x / 2, k - 1) }

  /** Each bit of the results is that of its truth table. */
  lemma {:induction false} BitTables(a: nat, b: nat, n: nat, k: nat)
    requires k < n
    ensures Bit(OrBits(a, b, n), k) == 0 <==> Bit(a, k) == 0 && Bit(b, k) == 0
    ensures Bit(XorBits(a, b, n), k) == 0 <==> Bit(a, k) == Bit(b, k)
    ensures Bit(a, k) < 2
  {
    if k > 0 {
      BitTables(a / 2, b / 2, n - 1, k - 1);
      assert OrBits(a, b, n) / 2 == OrBits(a / 2, b / 2, n - 1);
      assert XorBits(a, b, n) / 2 == XorBits(a / 2, b / 2, n - 1);
    }
  }

  function Or(a: u32, b: u32): u32 {
    Pow2Values();
    OrBits(a, b, 32)
  }

  lemma {:induction false} Pow2Values()
    ensures Pow2(8) == 0x100 && Pow2(16) == 0x1_0000 && Pow2(24) == 0x100_0000 && Pow2(32) == 0x1_0000_0000
  {
    assert Pow2(8) == 0x100;
    assert Pow2(12) == 0x1000;
    assert Pow2(16) == 0x1_0000;
    assert Pow2(20) == 0x10_0000;
    assert Pow2(24) == 0x100_0000;
    assert Pow2(28) == 0x1000_0000;
  }

  /** Adding the bits of `y` below the `k`-th to those from the `k`-th on. */
  lemma {:induction false} OrTwice(d: u32, a: nat, k: nat, y: nat)
    requires y < Pow2(k) && Pow2(k) * a + y < 0x1_0000_0000
    ensures Pow2(k) * a < 0x1_0000_0000 && y < 0x1_0000_0000
    ensures Or(Or(d, Pow2(k) * a), y) == Or(d, Pow2(k) * a + y)
  {
    Pow2Values();
    ShiftedIsClear(a, k);
    OrBitsDisjoint(Pow2(k) * a, k, y, 32);
    OrBitsAssociates(d, Pow2(k) * a, y, 32);
    hide OrBits;
  }

  lemma {:induction false} OrZero(v: u32)
    ensures Or(0, v) == v
  {
    Pow2Values();
    OrBitsZero(v, 32);
  }
}
