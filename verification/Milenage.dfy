/** MILENAGE (internal/context/uecontext/milenage.go) over an arbitrary block
    cipher, against section 4.1 of 3GPP TS 35.206. */
module Milenage {
  import opened Bits
  import opened Bytes

  type Block = s: Bytes | |s| == 16 witness Zeros(16)

  /** E[.]K for a fixed key. */
  type Cipher = Block -> Block

  // ---- the functions of TS 35.206 ---------------------------------------------

  /** rot(x, r): cyclic rotation by r bits towards the most significant bit, for r a
      multiple of eight.  RotationIsCyclic says what it does to the 128-bit number. */
  function Rot(x: Block, r: nat): (y: Block)
    requires r % 8 == 0 && r < 128
  {
    x[r / 8..] + x[..r / 8]
  }

  /** A constant whose 128 bits are zero but for the last byte. */
  function LastByteOnly(v: Byte): (c: Block) {
    Zeros(15) + [v]
  }

  function XorB(a: Block, b: Block): Block {
    Xor(a, b)
  }

  function Temp(e: Cipher, opc: Block, rand: Block): Block {
    e(XorB(rand, opc))
  }

  /** IN1: SQN || AMF || SQN || AMF. */
  function In1(sqn: Bytes, amf: Bytes): Block
    requires |sqn| == 6 && |amf| == 2
  {
    sqn + amf + sqn + amf
  }

  /** OUT1, with r1 = 64 and c1 = 0. */
  function Out1(e: Cipher, opc: Block, rand: Block, sqn: Bytes, amf: Bytes): Block
    requires |sqn| == 6 && |amf| == 2
  {
    XorB(e(XorB(XorB(Temp(e, opc, rand), Rot(XorB(In1(sqn, amf), opc), 64)), LastByteOnly(0))), opc)
  }

  /** OUT2 to OUT5. */
  function OutN(e: Cipher, opc: Block, rand: Block, r: nat, c: Byte): Block
    requires r % 8 == 0 && r < 128
  {
    XorB(e(XorB(Rot(XorB(Temp(e, opc, rand), opc), r), LastByteOnly(c))), opc)
  }

  function F1Of(e: Cipher, opc: Block, rand: Block, sqn: Bytes, amf: Bytes): (mac: Bytes)
    requires |sqn| == 6 && |amf| == 2
    ensures |mac| == 8
  {
    Out1(e, opc, rand, sqn, amf)[..8]
  }

  function F1StarOf(e: Cipher, opc: Block, rand: Block, sqn: Bytes, amf: Bytes): (mac: Bytes)
    requires |sqn| == 6 && |amf| == 2
    ensures |mac| == 8
  {
    Out1(e, opc, rand, sqn, amf)[8..]
  }

  function F2Of(e: Cipher, opc: Block, rand: Block): (res: Bytes)
    ensures |res| == 8
  {
    OutN(e, opc, rand, 0, 1)[8..]
  }

  function F3Of(e: Cipher, opc: Block, rand: Block): Block {
    OutN(e, opc, rand, 32, 2)
  }

  function F4Of(e: Cipher, opc: Block, rand: Block): Block {
    OutN(e, opc, rand, 64, 4)
  }

  function F5Of(e: Cipher, opc: Block, rand: Block): (ak: Bytes)
    ensures |ak| == 6
  {
    OutN(e, opc, rand, 0, 1)[..6]
  }

  function F5StarOf(e: Cipher, opc: Block, rand: Block): (ak: Bytes)
    ensures |ak| == 6
  {
    OutN(e, opc, rand, 96, 8)[..6]
  }

  /** OPc = OP xor E[OP]K. */
  function OpcOf(e: Cipher, op: Block): Block {
    XorB(e(op), op)
  }

  /** Rot is the rotation of the standard: bits leaving at the top re-enter below. */
  lemma RotationIsCyclic(x: Block, r: nat)
    requires r % 8 == 0 && r < 128
    ensures BeValue(Rot(x, r)) == BeValue(x) * Pow2(r) % Pow2(128) + BeValue(x) * Pow2(r) / Pow2(128)
  {
    var hi, lo := x[..r / 8], x[r / 8..];
    assert x == hi + lo && 8 * |hi| == r && 8 * |lo| == 128 - r;
    BeConcat(hi, lo);
    BeConcat(lo, hi);
    BeBounded(lo);
    Pow2Add(r, 128 - r);
    Wrap(BeValue(hi), Pow2(128 - r), BeValue(lo), Pow2(r));
  }

  lemma Wrap(h: nat, q: nat, l: nat, p: nat)
    requires l < q && p > 0
    ensures (h * q + l) * p % (p * q) == l * p && (h * q + l) * p / (p * q) == h
  {
    Distribute3(h, q, l, p);
    StrictScale(l, q, p);
    DivModUnique((h * q + l) * p, h, p * q, l * p);
  }

  lemma Distribute3(h: nat, q: nat, l: nat, p: nat)
    ensures (h * q + l) * p == h * (p * q) + l * p
  {}

  lemma StrictScale(l: nat, q: nat, p: nat)
    requires l < q && p > 0
    ensures l * p < p * q
  {
    MulMonotone(l + 1, q, p);
  }

  /** Where the loops put byte i. */
  function Slot(i: nat, rot: nat): (j: nat)
    requires i < 16
    ensures j < 16
  {
    var r := rot % 16;
    if i + r < 16 then i + r else i + r - 16
  }

  /** How many bits to the left that is. */
  function LeftBits(rot: nat): (r: nat)
    ensures r % 8 == 0 && r < 128
  {
    (16 - rot % 16) % 16 * 8
  }

  /** The index as the loops compute it. */
  lemma SlotIs(i: nat, rot: nat)
    requires i < 16
    ensures Slot(i, rot) == (i + rot) % 16
  {}

  lemma RotAt(x: Block, rot: nat, k: nat)
    requires k < 16
    ensures Rot(x, LeftBits(rot))[Slot(k, rot)] == x[k]
  {
    if rot % 16 == 0 {
      assert LeftBits(rot) / 8 == 0;
    } else {
      assert LeftBits(rot) / 8 == 16 - rot % 16;
    }
  }

  lemma SlotOnto(j: nat, rot: nat) returns (k: nat)
    requires j < 16
    ensures k < 16 && Slot(k, rot) == j
  {
    k := if j >= rot % 16 then j - rot % 16 else j + 16 - rot % 16;
  }

  /** Scattering forward by `rot` bytes is rotating left by 16 - rot of them, modulo 16. */
  lemma ScatterIsRot(a: Block, x: Block, rot: nat, mask: Block)
    requires forall k: nat :: k < 16 ==> a[Slot(k, rot)] == XorByte(x[k], mask[Slot(k, rot)])
    ensures a == XorB(Rot(x, LeftBits(rot)), mask)
  {
    var y := Rot(x, LeftBits(rot));
    forall j: nat | j < 16 ensures a[j] == XorByte(y[j], mask[j]) {
      var k := SlotOnto(j, rot);
      RotAt(x, rot, k);
    }
  }

  lemma XorArranged(a: Block, b: Block)
    ensures XorB(a, b) == XorB(XorB(b, a), LastByteOnly(0))
  {
    XorSwaps(a, b);
  }

  // ---- octet by octet -----------------------------------------------------------

  /** y is RAND xor OPc. */
  ghost predicate IsTempInput(opc: Block, rand: Block, y: Block) {
    forall k: nat :: k < 16 ==> y[k] == XorByte(rand[k], opc[k])
  }

  /** x is what the cipher is given last: TEMP xor OPc, from the octet `off` on and
      round, with c in its last octet. */
  ghost predicate IsLastInput(t: Block, opc: Block, off: nat, c: Byte, x: Block) {
    forall k: nat :: k < 16 ==>
      x[k] == XorByte(XorByte(t[(k + off) % 16], opc[(k + off) % 16]), if k == 15 then c else 0)
  }

  lemma TempIs(e: Cipher, opc: Block, rand: Block, y: Block)
    requires IsTempInput(opc, rand, y)
    ensures Temp(e, opc, rand) == e(y)
  {
    assert y == XorB(rand, opc);
  }

  lemma RotOctet(x: Block, off: nat, k: nat)
    requires off < 16 && k < 16
    ensures Rot(x, 8 * off)[k] == x[(k + off) % 16]
  {
    assert 8 * off / 8 == off;
  }

  lemma OutOctets(e: Cipher, opc: Block, rand: Block, off: nat, c: Byte, y: Block, x: Block)
    requires off < 16 && IsTempInput(opc, rand, y) && IsLastInput(e(y), opc, off, c, x)
    ensures forall j: nat :: j < 16 ==> OutN(e, opc, rand, 8 * off, c)[j] == XorByte(e(x)[j], opc[j])
  {
    TempIs(e, opc, rand, y);
    var z := XorB(Rot(XorB(e(y), opc), 8 * off), LastByteOnly(c));
    forall k: nat | k < 16 ensures z[k] == x[k] {
      RotOctet(XorB(e(y), opc), off, k);
    }
    assert z == x;
  }

  /** f2 and f5: no rotation, c2 = 1; the last eight and the first six octets. */
  lemma F2F5Octets(e: Cipher, opc: Block, rand: Block, y: Block, x: Block)
    requires IsTempInput(opc, rand, y) && IsLastInput(e(y), opc, 0, 1, x)
    ensures forall j: nat :: j < 8 ==> F2Of(e, opc, rand)[j] == XorByte(e(x)[8 + j], opc[8 + j])
    ensures forall j: nat :: j < 6 ==> F5Of(e, opc, rand)[j] == XorByte(e(x)[j], opc[j])
  {
    OutOctets(e, opc, rand, 0, 1, y, x);
  }

  /** f3: four octets, c3 = 2. */
  lemma F3Octets(e: Cipher, opc: Block, rand: Block, y: Block, x: Block)
    requires IsTempInput(opc, rand, y) && IsLastInput(e(y), opc, 4, 2, x)
    ensures forall j: nat :: j < 16 ==> F3Of(e, opc, rand)[j] == XorByte(e(x)[j], opc[j])
  {
    OutOctets(e, opc, rand, 4, 2, y, x);
  }

  /** f4: eight octets, c4 = 4. */
  lemma F4Octets(e: Cipher, opc: Block, rand: Block, y: Block, x: Block)
    requires IsTempInput(opc, rand, y) && IsLastInput(e(y), opc, 8, 4, x)
    ensures forall j: nat :: j < 16 ==> F4Of(e, opc, rand)[j] == XorByte(e(x)[j], opc[j])
  {
    OutOctets(e, opc, rand, 8, 4, y, x);
  }

  /** f5*: twelve octets, c5 = 8; the first six octets. */
  lemma F5StarOctets(e: Cipher, opc: Block, rand: Block, y: Block, x: Block)
    requires IsTempInput(opc, rand, y) && IsLastInput(e(y), opc, 12, 8, x)
    ensures forall j: nat :: j < 6 ==> F5StarOf(e, opc, rand)[j] == XorByte(e(x)[j], opc[j])
  {
    OutOctets(e, opc, rand, 12, 8, y, x);
  }

  lemma InOctet(sqn: Bytes, amf: Bytes, k: nat)
    requires |sqn| == 6 && |amf| == 2 && k < 16
    ensures In1(sqn, amf)[(k + 8) % 16] == if k % 8 < 6 then sqn[k % 8] else amf[k % 8 - 6]
  {
    var j := (k + 8) % 16;
    assert j == if k < 8 then k + 8 else k - 8;
    assert k % 8 == if k < 8 then k else k - 8;
  }

  /** f1 and f1*: TEMP, and SQN || AMF twice xor OPc from the ninth octet on and round; the
      first and the last eight octets. */
  lemma F1Octets(e: Cipher, opc: Block, rand: Block, sqn: Bytes, amf: Bytes, y: Block, x: Block)
    requires |sqn| == 6 && |amf| == 2 && IsTempInput(opc, rand, y)
    requires forall k: nat :: k < 16 ==>
      x[k] == XorByte(XorByte(e(y)[k],
                XorByte(if k % 8 < 6 then sqn[k % 8] else amf[k % 8 - 6], opc[(k + 8) % 16])), 0)
    ensures forall j: nat :: j < 8 ==> F1Of(e, opc, rand, sqn, amf)[j] == XorByte(e(x)[j], opc[j])
    ensures forall j: nat :: j < 8 ==> F1StarOf(e, opc, rand, sqn, amf)[j] == XorByte(e(x)[8 + j], opc[8 + j])
  {
    TempIs(e, opc, rand, y);
    var input := In1(sqn, amf);
    var z := XorB(XorB(e(y), Rot(XorB(input, opc), 64)), LastByteOnly(0));
    forall k: nat | k < 16 ensures z[k] == x[k] {
      RotOctet(XorB(input, opc), 8, k);
      InOctet(sqn, amf, k);
    }
    assert z == x;
  }

  /** OPc from OP. */
  lemma OpcOctets(e: Cipher, op: Block, j: nat)
    requires j < 16
    ensures OpcOf(e, op)[j] == XorByte(e(op)[j], op[j])
  {}

  /** What the network finds in an AUTS of the right size. */
  lemma AutsRead(e: Cipher, opc: Block, auts: Bytes, rand: Block, s: Bytes)
    requires |auts| == 14 && |s| == 6
    requires forall k: nat :: k < 6 ==> s[k] == XorByte(F5StarOf(e, opc, rand)[k], auts[k])
    ensures ReadAuts(e, opc, auts, rand)
         == if F1StarOf(e, opc, rand, s, [0, 0]) == auts[6..] then SqnFound(s) else MacFailed(s)
  {
    assert s == Xor(F5StarOf(e, opc, rand), auts[..6]);
    assert Zeros(2) == [0, 0];
  }

  // ---- the object -------------------------------------------------------------

  datatype AutsResult = SqnFound(sqn: Bytes) | WrongSize | MacFailed(sqn: Bytes)

  /** The network's reading of an AUTS token, as sections 6.3.3 and 6.3.5 of
      3GPP TS 33.102 describe it. */
  function ReadAuts(e: Cipher, opc: Block, auts: Bytes, rand: Bytes): AutsResult {
    if |auts| != 14 || |rand| != 16 then WrongSize
    else
      var sqn := Xor(F5StarOf(e, opc, rand), auts[..6]);
      if F1StarOf(e, opc, rand, sqn, Zeros(2)) == auts[6..] then SqnFound(sqn) else MacFailed(sqn)
  }

  class Milenage {
    const block: Cipher
    const opc: array<Byte>
    const randxor: array<Byte>
    const rand: array<Byte>

    ghost predicate Shaped()
      reads this, opc, randxor, rand
    {
      && opc.Length == 16 && randxor.Length == 16 && rand.Length == 16
      && opc != randxor && opc != rand && randxor != rand
    }

    /** randxor is E(rand xor opc), whatever was called before. */
    ghost predicate Valid()
      reads this, opc, randxor, rand
    {
      Shaped() && randxor[..] == Temp(block, opc[..], rand[..])
    }

    /** The part of NewMilenageEx that comes after its size checks; `afterRead` is what
        the RAND buffer holds after the read in Refresh, whole, short or failed. */
    constructor (aes: Bytes -> Cipher, k: Bytes, opopc: Bytes, isopc: bool, afterRead: Block)
      requires |k| == 16 && |opopc| == 16
      ensures Valid() && fresh(opc) && fresh(randxor) && fresh(rand)
      ensures block == aes(k) && rand[..] == afterRead
      ensures opc[..] == if isopc then opopc else OpcOf(aes(k), opopc)
    {
      block := aes(k);
      opc := new Byte[16](_ => 0);
      randxor := new Byte[16](_ => 0);
      rand := new Byte[16](_ => 0);
      new;
      if !isopc {
        Fill(opc, block(opopc));
        for i := 0 to 16
          invariant forall j :: 0 <= j < i ==> opc[j] == XorByte(block(opopc)[j], opopc[j])
          invariant forall j :: i <= j < 16 ==> opc[j] == block(opopc)[j]
        {
          opc[i] := XorByte(opc[i], opopc[i]);
        }
        assert opc[..] == OpcOf(block, opopc);
      } else {
        Fill(opc, opopc);
      }
      Refresh(afterRead);
    }

    method Refresh(afterRead: Block)
      requires Shaped()
      modifies rand, randxor
      ensures Valid() && rand[..] == afterRead && opc[..] == old(opc[..])
    {
      Fill(rand, afterRead);
      MixRand();
    }

    method SetRand(r: Bytes) returns (ok: bool)
      requires Shaped()
      modifies rand, randxor
      ensures ok <==> |r| == 16
      ensures ok ==> Valid() && rand[..] == r && opc[..] == old(opc[..])
      ensures !ok ==> rand[..] == old(rand[..]) && randxor[..] == old(randxor[..])
    {
      if |r| != 16 {
        return false;
      }
      Fill(rand, r);
      MixRand();
      ok := true;
    }

    /** The common end of Refresh and SetRand. */
    method MixRand()
      requires Shaped()
      modifies randxor
      ensures Valid() && rand[..] == old(rand[..]) && opc[..] == old(opc[..])
    {
      var tmp := new Byte[16](_ => 0);
      for i := 0 to 16
        invariant forall j :: 0 <= j < i ==> tmp[j] == XorByte(rand[j], opc[j])
      {
        tmp[i] := XorByte(rand[i], opc[i]);
      }
      assert tmp[..] == Xor(rand[..], opc[..]);
      Fill(randxor, block(tmp[..]));
    }

    /** f1 and f1*; the scatter index rotates by eight bytes. */
    method F1(sqn: Bytes, amf: Bytes) returns (maca: Bytes, macs: Bytes, ok: bool)
      requires Valid()
      ensures ok <==> |sqn| == 6 && |amf| == 2
      ensures ok ==> maca == F1Of(block, opc[..], rand[..], sqn, amf)
      ensures ok ==> macs == F1StarOf(block, opc[..], rand[..], sqn, amf)
      ensures !ok ==> maca == [] && macs == []
    {
      if |sqn| != 6 || |amf| != 2 {
        return [], [], false;
      }
      var c := MixInput(In1(sqn, amf));
      XorArranged(Rot(XorB(In1(sqn, amf), opc[..]), 64), randxor[..]);
      var a := Masked(block(c));
      return a[..8], a[8..], true;
    }

    /** The loop of F1: c = rot(b xor opc, 64) xor randxor. */
    method MixInput(b: Block) returns (c: Block)
      requires Shaped()
      ensures c == XorB(Rot(XorB(b, opc[..]), 64), randxor[..])
    {
      ghost var x, mask: Block := XorB(b, opc[..]), randxor[..];
      var buf := new Byte[16](_ => 0);
      for i := 0 to 16
        invariant forall k: nat :: k < i ==> buf[Slot(k, 8)] == XorByte(x[k], mask[Slot(k, 8)])
      {
        SlotIs(i, 8);
        var j := (i + 8) % 16;
        buf[j] := XorByte(XorByte(b[i], opc[i]), randxor[j]);
        assert buf[j] == XorByte(x[i], mask[j]);
      }
      c := buf[..];
      ScatterIsRot(c, x, 8, mask);
    }

    method F2F5() returns (res: Bytes, ak: Bytes)
      requires Valid()
      ensures res == F2Of(block, opc[..], rand[..])
      ensures ak == F5Of(block, opc[..], rand[..])
    {
      var tmp := Operation(0, 1);
      return tmp[8..16], tmp[..6];
    }

    method F3() returns (ck: Bytes)
      requires Valid()
      ensures ck == F3Of(block, opc[..], rand[..])
    {
      ck := Operation(12, 2);
    }

    method F4() returns (ik: Bytes)
      requires Valid()
      ensures ik == F4Of(block, opc[..], rand[..])
    {
      ik := Operation(8, 4);
    }

    method F5star() returns (ak: Bytes)
      requires Valid()
      ensures ak == F5StarOf(block, opc[..], rand[..])
    {
      var tmp := Operation(4, 8);
      return tmp[..6];
    }

    method Operation(rot: nat, v: Byte) returns (out: Block)
      requires Valid()
      ensures out == OutN(block, opc[..], rand[..], LeftBits(rot), v)
    {
      var a := MixTemp(rot, LastByteOnly(v));
      out := Masked(block(a));
    }

    /** The loop of operation: a = rot(randxor xor opc) xor c. */
    method MixTemp(rot: nat, c: Block) returns (a: Block)
      requires Shaped()
      ensures a == XorB(Rot(XorB(randxor[..], opc[..]), LeftBits(rot)), c)
    {
      ghost var x: Block := XorB(randxor[..], opc[..]);
      var buf := new Byte[16](_ => 0);
      for i := 0 to 16
        invariant forall k: nat :: k < i ==> buf[Slot(k, rot)] == XorByte(x[k], c[Slot(k, rot)])
      {
        SlotIs(i, rot);
        var j := (i + rot) % 16;
        buf[j] := XorByte(XorByte(randxor[i], opc[i]), c[j]);
        assert buf[j] == XorByte(x[i], c[j]);
      }
      a := buf[..];
      ScatterIsRot(a, x, rot, c);
    }

    /** The closing loop of F1 and operation: a[i] ^= opc[i]. */
    method Masked(x: Block) returns (y: Block)
      requires Shaped()
      ensures y == XorB(x, opc[..])
    {
      var a := new Byte[16](i requires 0 <= i < 16 => x[i]);
      for i := 0 to 16
        invariant forall j :: 0 <= j < i ==> a[j] == XorByte(x[j], opc[j])
        invariant forall j :: i <= j < 16 ==> a[j] == x[j]
      {
        a[i] := XorByte(a[i], opc[i]);
      }
      y := a[..];
      assert y == Xor(x, opc[..]);
    }

    /** Leaves the object on the received RAND unless the sizes are wrong. */
    method ValidateAuts(auts: Bytes, randv: Bytes) returns (r: AutsResult)
      requires Valid()
      modifies rand, randxor
      ensures Valid() && opc[..] == old(opc[..])
      ensures r == ReadAuts(block, opc[..], auts, randv)
      ensures rand[..] == if r.WrongSize? then old(rand[..]) else randv
    {
      if |auts| != 14 || |randv| != 16 {
        return WrongSize;
      }
      var _ := SetRand(randv);
      var ak := F5star();
      var sqn := XorLoop(ak, auts[..6]);
      var _, macs, _ := F1(sqn, Zeros(2));
      r := if macs == auts[6..] then SqnFound(sqn) else MacFailed(sqn);
    }
  }

  /** NewMilenageEx: both inputs must be sixteen bytes. */
  method NewMilenageEx(aes: Bytes -> Cipher, k: Bytes, opopc: Bytes, isopc: bool, afterRead: Block)
    returns (m: Milenage?)
    ensures m == null <==> |k| != 16 || |opopc| != 16
    ensures m != null ==> m.Valid() && m.block == aes(k) && m.rand[..] == afterRead
    ensures m != null ==> m.opc[..] == if isopc then opopc else OpcOf(aes(k), opopc)
  {
    if |k| != 16 || |opopc| != 16 {
      return null;
    }
    m := new Milenage(aes, k, opopc, isopc, afterRead);
  }

  /** for i := range a { r[i] = a[i] ^ b[i] } into a fresh buffer. */
  method XorLoop(a: Bytes, b: Bytes) returns (r: Bytes)
    requires |a| == |b|
    ensures r == Xor(a, b)
  {
    var buf := new Byte[|a|](_ => 0);
    for i := 0 to |a|
      invariant forall j :: 0 <= j < i ==> buf[j] == XorByte(a[j], b[j])
    {
      buf[i] := XorByte(a[i], b[i]);
    }
    r := buf[..];
  }

  /** copy and cipher.Block.Encrypt: sixteen bytes written to a buffer. */
  method Fill(dst: array<Byte>, src: Block)
    requires dst.Length == 16
    modifies dst
    ensures dst[..] == src
  {
    forall i | 0 <= i < 16 {
      dst[i] := src[i];
    }
  }
}
