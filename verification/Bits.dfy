/** Powers of two and the bit operations of Go's integers, on natural numbers:
    x << k is x * Pow2(k), x >> k is x / Pow2(k), x | y is BitOr(x, y), and a
    fixed width is a remainder. */
module Bits {
  type U64 = n: nat | n < 0x1_0000_0000_0000_0000

  function Pow2(k: nat): (p: nat)
    ensures p > 0
  {
    if k == 0 then 1 else 2 * Pow2(k - 1)
  }

  function BitOr(a: nat, b: nat): nat {
    if a == 0 then b
    else if b == 0 then a
    else 2 * BitOr(a / 2, b / 2) + (if a % 2 == 1 || b % 2 == 1 then 1 else 0)
  }

  function BitXor(a: nat, b: nat): nat {
    if a == 0 then b
    else if b == 0 then a
    else 2 * BitXor(a / 2, b / 2) + (a + b) % 2
  }

  /** Bit by bit: the lowest bit, and the rest. */
  lemma XorParts(a: nat, b: nat)
    ensures BitXor(a, b) / 2 == BitXor(a / 2, b / 2)
    ensures BitXor(a, b) % 2 == (a + b) % 2
  {}

  /** x ^ y ^ y == x. */
  lemma {:induction false} XorCancel(a: nat, b: nat)
    ensures BitXor(BitXor(a, b), b) == a
    decreases a + b
  {
    if a + b > 0 {
      XorParts(a, b);
      XorParts(BitXor(a, b), b);
      XorCancel(a / 2, b / 2);
      SameNumber(BitXor(BitXor(a, b), b), a, BitXor(a, b), b);
    }
  }

  lemma SameNumber(x: nat, a: nat, c: nat, b: nat)
    requires x / 2 == a / 2 && c % 2 == (a + b) % 2 && x % 2 == (c + b) % 2
    ensures x == a
  {}

  lemma {:induction false} XorCommutes(a: nat, b: nat)
    ensures BitXor(a, b) == BitXor(b, a)
  {
    if a > 0 && b > 0 {
      XorCommutes(a / 2, b / 2);
    }
  }

  lemma {:induction false} XorBounded(a: nat, b: nat, k: nat)
    requires a < Pow2(k) && b < Pow2(k)
    ensures BitXor(a, b) < Pow2(k)
  {
    if a > 0 && b > 0 {
      XorBounded(a / 2, b / 2, k - 1);
    }
  }

  lemma Xor8Bounded(a: nat, b: nat)
    requires a < 0x100 && b < 0x100
    ensures BitXor(a, b) < 0x100
  {
    Pow2Values();
    XorBounded(a, b, 8);
  }

  lemma {:induction false} Pow2Add(a: nat, b: nat)
    ensures Pow2(a + b) == Pow2(a) * Pow2(b)
  {
    if a > 0 {
      Pow2Add(a - 1, b);
    }
  }

  lemma Pow2Values()
    ensures Pow2(1) == 2 && Pow2(2) == 4 && Pow2(3) == 8 && Pow2(4) == 16
    ensures Pow2(6) == 64 && Pow2(8) == 0x100 && Pow2(9) == 0x200 && Pow2(10) == 0x400
    ensures Pow2(16) == 0x1_0000 && Pow2(32) == 0x1_0000_0000 && Pow2(38) == 0x40_0000_0000
    ensures Pow2(12) == 0x1000 && Pow2(24) == 0x100_0000
    ensures Pow2(39) == 0x80_0000_0000 && Pow2(48) == 0x1_0000_0000_0000
    ensures Pow2(64) == 0x1_0000_0000_0000_0000
  {
    assert Pow2(1) == 2;
    assert Pow2(3) == 8;
    assert Pow2(4) == 16;
    Pow2Add(4, 4);
    Pow2Add(4, 2);
    Pow2Add(8, 1);
    Pow2Add(8, 2);
    Pow2Add(8, 4);
    Pow2Add(8, 8);
    Pow2Add(16, 8);
    Pow2Add(16, 16);
    Pow2Add(32, 6);
    Pow2Add(38, 1);
    Pow2Add(32, 16);
    Pow2Add(32, 32);
  }

  lemma {:induction false} Pow2Monotone(a: nat, b: nat)
    requires a <= b
    ensures Pow2(a) <= Pow2(b)
  {
    if a < b {
      Pow2Monotone(a, b - 1);
    }
  }

  lemma DoubleProduct(a: nat, k: nat)
    requires k > 0
    ensures a * Pow2(k) == 2 * (a * Pow2(k - 1))
  {}

  /** OR of numbers whose bits do not meet is their sum. */
  lemma {:induction false} OrDisjoint(a: nat, k: nat, b: nat)
    requires b < Pow2(k)
    ensures BitOr(a * Pow2(k), b) == a * Pow2(k) + b
  {
    if k > 0 && a > 0 && b > 0 {
      OrDisjoint(a, k - 1, b / 2);
      DoubleProduct(a, k);
    }
  }

  lemma Or8(a: nat, b: nat)
    requires b < 0x100
    ensures BitOr(a * 0x100, b) == a * 0x100 + b
  {
    Pow2Values();
    OrDisjoint(a, 8, b);
  }

  lemma Or39(a: nat, b: nat)
    requires b < 0x80_0000_0000
    ensures BitOr(a * 0x80_0000_0000, b) == a * 0x80_0000_0000 + b
  {
    Pow2Values();
    OrDisjoint(a, 39, b);
  }

  lemma Or40(a: nat, b: nat)
    requires b < 0x100_0000_0000
    ensures BitOr(a * 0x100_0000_0000, b) == a * 0x100_0000_0000 + b
  {
    Pow2Values();
    Pow2Add(39, 1);
    OrDisjoint(a, 40, b);
  }

  lemma MulMonotone(a: nat, b: nat, c: nat)
    ensures a <= b ==> a * c <= b * c
  {}

  /** x % d and x / d are fixed by any decomposition of x. */
  lemma DivModUnique(x: nat, q: nat, d: nat, r: nat)
    requires x == q * d + r && r < d
    ensures x / d == q && x % d == r
  {
    MulMonotone(x / d + 1, q, d);
    MulMonotone(q + 1, x / d, d);
    assert x == (x / d) * d + x % d;
  }

  /** v >> k. */
  function Shr(v: nat, k: nat): nat {
    if k == 0 then v else Shr(v / 2, k - 1)
  }

  /** What a right shift drops is a remainder. */
  lemma {:induction false} ShrSplit(v: nat, k: nat) returns (r: nat)
    ensures v == Shr(v, k) * Pow2(k) + r && r < Pow2(k)
  {
    if k == 0 {
      r := 0;
    } else {
      var r0 := ShrSplit(v / 2, k - 1);
      r := 2 * r0 + v % 2;
      DoubleProduct(Shr(v, k), k);
    }
  }

  lemma {:induction false} ShrUnique(v: nat, q: nat, k: nat, r: nat)
    requires v == q * Pow2(k) + r && r < Pow2(k)
    ensures Shr(v, k) == q
  {
    if k > 0 {
      DoubleProduct(q, k);
      ShrUnique(v / 2, q, k - 1, r / 2);
    }
  }

  lemma {:induction false} ShrTwice(v: nat, a: nat, b: nat)
    ensures Shr(v, a + b) == Shr(Shr(v, a), b)
  {
    if a > 0 {
      ShrTwice(v / 2, a - 1, b);
    }
  }

  lemma ShrBounded(v: nat, k: nat, n: nat)
    requires v < Pow2(n + k)
    ensures Shr(v, k) < Pow2(n)
  {
    var r := ShrSplit(v, k);
    Pow2Add(n, k);
    MulMonotone(Pow2(n), Shr(v, k), Pow2(k));
  }

  /** Right shift is division: how the standard library documents it. */
  lemma ShrIsDiv(v: nat, k: nat)
    ensures Shr(v, k) == v / Pow2(k)
  {
    var r := ShrSplit(v, k);
    DivModUnique(v, Shr(v, k), Pow2(k), r);
  }

  /** Bit i of an exclusive or is set when the two bits i differ. */
  lemma {:induction false} XorBit(a: nat, b: nat, i: nat)
    ensures BitXor(a, b) / Pow2(i) % 2 == if a / Pow2(i) % 2 == b / Pow2(i) % 2 then 0 else 1
    decreases i
  {
    ShrIsDiv(a, i);
    ShrIsDiv(b, i);
    ShrIsDiv(BitXor(a, b), i);
    XorParts(a, b);
    if i > 0 {
      XorBit(a / 2, b / 2, i - 1);
      ShrIsDiv(a / 2, i - 1);
      ShrIsDiv(b / 2, i - 1);
      ShrIsDiv(BitXor(a, b) / 2, i - 1);
    }
  }
}
