/** Byte strings: XOR and big-endian numbers. */
module Bytes {
  import opened Bits

  type Byte = b: nat | b < 256
  type Bytes = seq<Byte>

  const BASE := 256

  function Zeros(n: nat): (s: Bytes)
    ensures |s| == n
  {
    seq(n, _ => 0)
  }

  function XorByte(a: Byte, b: Byte): Byte {
    Xor8Bounded(a, b);
    BitXor(a, b)
  }

  function Xor(a: Bytes, b: Bytes): (c: Bytes)
    requires |a| == |b|
    ensures |c| == |a|
  {
    seq(|a|, i requires 0 <= i < |a| => XorByte(a[i], b[i]))
  }

  lemma XorCancels(a: Bytes, b: Bytes)
    requires |a| == |b|
    ensures Xor(Xor(a, b), b) == a
  {
    forall i | 0 <= i < |a| ensures Xor(Xor(a, b), b)[i] == a[i] {
      XorCancel(a[i], b[i]);
    }
  }

  lemma XorSwaps(a: Bytes, b: Bytes)
    requires |a| == |b|
    ensures Xor(a, b) == Xor(b, a)
  {
    forall i | 0 <= i < |a| ensures XorByte(a[i], b[i]) == XorByte(b[i], a[i]) {
      XorCommutes(a[i], b[i]);
    }
  }

  /** An octet can be told from its XOR with a known one. */
  lemma XorTells(a: Byte, b: Byte, c: Byte)
    ensures XorByte(a, c) == XorByte(b, c) ==> a == b
    ensures XorByte(c, a) == XorByte(c, b) ==> a == b
  {
    XorCancel(a, c);
    XorCancel(b, c);
    XorCommutes(a, c);
    XorCommutes(b, c);
  }

  function BeValue(s: Bytes): nat {
    if s == [] then 0 else BeValue(s[..|s| - 1]) * BASE + s[|s| - 1]
  }

  /** One more byte of a string. */
  lemma OneMoreByte(s: Bytes, i: nat)
    requires i < |s|
    ensures BeValue(s[..i + 1]) == BeValue(s[..i]) * BASE + s[i]
  {
    assert s[..i + 1][..i] == s[..i];
  }

  /** byte(v): the conversion keeps the low eight bits. */
  function LowByte(v: nat): Byte {
    v % BASE
  }

  /** The low n bytes of v, most significant first. */
  function BeBytes(n: nat, v: nat): (s: Bytes)
    ensures |s| == n
  {
    if n == 0 then [] else BeBytes(n - 1, v / BASE) + [LowByte(v)]
  }

  lemma {:induction false} BeBounded(s: Bytes)
    ensures BeValue(s) < Pow2(8 * |s|)
  {
    if s != [] {
      var n := |s| - 1;
      BeBounded(s[..n]);
      Pow2Step(n);
    }
  }

  lemma Pow2Step(n: nat)
    ensures Pow2(8 * (n + 1)) == BASE * Pow2(8 * n)
  {
    Pow2Values();
    Pow2Add(8, 8 * n);
  }

  lemma {:induction false} BytesOfValue(s: Bytes)
    ensures BeBytes(|s|, BeValue(s)) == s
  {
    if s != [] {
      BytesOfValue(s[..|s| - 1]);
      DivModUnique(BeValue(s), BeValue(s[..|s| - 1]), BASE, s[|s| - 1]);
    }
  }

  /** Dividing twice and dividing by the product. */
  lemma DivTwice(v: nat, m: nat)
    requires m > 0
    ensures v % (BASE * m) == v / BASE % m * BASE + v % BASE
    ensures v / (BASE * m) == v / BASE / m
  {
    var w := v / BASE;
    var q, r := w / m, w % m;
    assert w == q * m + r;
    assert w * BASE == q * (BASE * m) + r * BASE;
    DivModUnique(v, q, BASE * m, r * BASE + v % BASE);
  }

  lemma LastByte(n: nat, v: nat)
    requires n > 0
    ensures BeValue(BeBytes(n, v)) == BeValue(BeBytes(n - 1, v / BASE)) * BASE + v % BASE
  {
    var s := BeBytes(n, v);
    assert s[..n - 1] == BeBytes(n - 1, v / BASE);
    assert s[n - 1] == LowByte(v);
  }

  lemma {:induction false} ValueOfBytes(n: nat, v: nat)
    ensures BeValue(BeBytes(n, v)) == v % Pow2(8 * n)
  {
    if n > 0 {
      ValueOfBytes(n - 1, v / BASE);
      LastByte(n, v);
      Pow2Step(n - 1);
      DivTwice(v, Pow2(8 * (n - 1)));
    } else {
      assert BeBytes(n, v) == [];
    }
  }

  lemma ValueFits(n: nat, v: nat)
    requires v < Pow2(8 * n)
    ensures BeValue(BeBytes(n, v)) == v
  {
    ValueOfBytes(n, v);
    DivModUnique(v, 0, Pow2(8 * n), v);
  }

  lemma Distribute(a: nat, m: nat, b: nat, x: nat)
    ensures (a * m + b) * BASE + x == a * (BASE * m) + (b * BASE + x)
  {}

  lemma {:induction false} BeConcat(a: Bytes, b: Bytes)
    ensures BeValue(a + b) == BeValue(a) * Pow2(8 * |b|) + BeValue(b)
  {
    if b == [] {
      assert a + b == a;
    } else {
      var n := |b| - 1;
      BeConcat(a, b[..n]);
      assert (a + b)[..|a + b| - 1] == a + b[..n];
      Pow2Step(n);
      Distribute(BeValue(a), Pow2(8 * n), BeValue(b[..n]), b[n]);
    }
  }

  // Literal sizes, so that no proof has to unfold Pow2.

  /** The first octet is the most significant one. */
  lemma BeFirst(s: Bytes)
    requires s != []
    ensures BeValue(s) == s[0] * Pow2(8 * (|s| - 1)) + BeValue(s[1..])
  {
    assert s == [s[0]] + s[1..];
    BeConcat([s[0]], s[1..]);
    ValueOfOne(s[0]);
  }

  /** Octet i of n holds the bits from 8 (n - 1 - i) on. */
  lemma {:induction false} OctetOf(n: nat, v: nat, i: nat)
    requires i < n
    ensures BeBytes(n, v)[i] == v / Pow2(8 * (n - 1 - i)) % 256
  {
    if i < n - 1 {
      var m := n - 2 - i;
      OctetOf(n - 1, v / BASE, i);
      Pow2Step(m);
      DivTwice(v, Pow2(8 * m));
    } else {
      assert Pow2(0) == 1;
    }
  }

  lemma TwoOctets(v: nat)
    ensures BeBytes(2, v) == [v / 256 % 256, v % 256]
  {
    assert BeBytes(1, v / 256) == [LowByte(v / 256)];
  }

  lemma BoundedSix(s: Bytes)
    requires |s| == 6
    ensures BeValue(s) < 0x1_0000_0000_0000
  {
    BeBounded(s);
    Pow2Values();
  }

  lemma ValueOfTwo(v: nat)
    ensures BeValue(BeBytes(2, v)) == v % 0x1_0000
  {
    ValueOfBytes(2, v);
    Pow2Values();
  }

  lemma ValueOfFour(v: nat)
    ensures BeValue(BeBytes(4, v)) == v % 0x1_0000_0000
  {
    ValueOfBytes(4, v);
    Pow2Values();
  }

  lemma ValueOfSix(v: nat)
    ensures BeValue(BeBytes(6, v)) == v % 0x1_0000_0000_0000
  {
    ValueOfBytes(6, v);
    Pow2Values();
  }

  lemma ValueOfOne(b: Byte)
    ensures BeValue([b]) == b
  {
    assert [b][..0] == [];
  }

  /** A number in so many bytes is determined by its value. */
  lemma SameBytes(a: Bytes, b: Bytes)
    requires |a| == |b| && BeValue(a) == BeValue(b)
    ensures a == b
  {
    BytesOfValue(a);
    BytesOfValue(b);
  }
}
