/** The 5G-S-TMSI of internal/common/utils/asn1.go (section 2.11 of 3GPP TS 23.003). */
module Tmsi {
  import opened Bits
  import opened Bytes

  /** aper.BitString; NumBits is a uint64. */
  datatype BitString = BitString(bytes: Bytes, numBits: U64)

  datatype FiveGSTMSI = FiveGSTMSI(setId: BitString, pointer: BitString, tmsi: Bytes)

  datatype Decoded = Identity(value: FiveGSTMSI) | NotSixBytes

  // 2^32, 2^38, 2^39, 2^48
  const TWO32 := 0x1_0000_0000
  const TWO38 := 0x40_0000_0000
  const TWO39 := 0x80_0000_0000
  const TWO48 := 0x1_0000_0000_0000

  // ---- what the two functions compute ---------------------------------------------

  /** The six bytes of ((part2 << 39) | part1) modulo 2^48. */
  function BuildOf(part2: Bytes, part1: Bytes): (b: Bytes)
    ensures |b| == 6
  {
    BeBytes(6, BitOr(BeValue(part2) * TWO39, BeValue(part1)))
  }

  /** Ten bits of AMF set id, six of AMF pointer, thirty-two of TMSI. */
  function DecodeOf(s: Bytes): Decoded {
    if |s| != 6 then NotSixBytes
    else
      var v := BeValue(s);
      Identity(FiveGSTMSI(
        BitString(BeBytes(2, v / TWO38), 10),
        BitString([LowByte(v / TWO32 % 64)], 9),
        BeBytes(4, v)))
  }

  /** The number a decoded identity stands for. */
  function Recompose(id: FiveGSTMSI): nat {
    Join(BeValue(id.setId.bytes), BeValue(id.pointer.bytes), BeValue(id.tmsi))
  }

  /** Set id, then six bits of pointer, then thirty-two of TMSI. */
  function Join(setId: nat, pointer: nat, tmsi: nat): nat {
    (setId * 64 + pointer) * TWO32 + tmsi
  }

  // ---- the functions themselves -----------------------------------------------------

  /** big.Int.Bytes: no leading zero byte. */
  function MinBytes(v: nat): Bytes {
    if v == 0 then [] else MinBytes(v / BASE) + [LowByte(v)]
  }

  lemma {:induction false} MinBytesValue(v: nat)
    ensures BeValue(MinBytes(v)) == v
  {
    if v > 0 {
      MinBytesValue(v / BASE);
      assert MinBytes(v)[..|MinBytes(v)| - 1] == MinBytes(v / BASE);
    }
  }

  lemma {:induction false} LeadingZeros(n: nat, s: Bytes)
    ensures BeValue(Zeros(n) + s) == BeValue(s)
  {
    if n == 0 {
      assert Zeros(n) + s == s;
    } else {
      LeadingZeros(n - 1, s);
      assert Zeros(n) + s == [0] + (Zeros(n - 1) + s);
      BeConcat([0], Zeros(n - 1) + s);
      ValueOfOne(0);
    }
  }

  /** The last six bytes of a longer string. */
  lemma LastSix(b: Bytes)
    requires |b| >= 6
    ensures BeValue(b[|b| - 6..]) == BeValue(b) % TWO48
  {
    var hi, lo := b[..|b| - 6], b[|b| - 6..];
    assert b == hi + lo;
    BeConcat(hi, lo);
    BoundedSix(lo);
    Pow2Values();
    DivModUnique(BeValue(b), BeValue(hi), TWO48, BeValue(lo));
  }

  lemma Fits48(v: nat)
    requires v < TWO48
    ensures v % TWO48 == v
  {}

  /** Cutting at the front or padding there with zeros to six bytes. */
  lemma SixOf(b: Bytes)
    ensures |b| > 6 ==> BeValue(b[|b| - 6..]) == BeValue(b) % TWO48
    ensures |b| <= 6 ==> BeValue(b) == BeValue(b) % TWO48
    ensures |b| < 6 ==> BeValue(Zeros(6 - |b|) + b) == BeValue(b) % TWO48
  {
    if |b| > 6 {
      LastSix(b);
    } else {
      LeadingZeros(6 - |b|, b);
      BoundedSix(Zeros(6 - |b|) + b);
      Fits48(BeValue(b));
    }
  }

  method Build5GSTMSI(part2: Bytes, part1: Bytes) returns (b: Bytes)
    ensures |b| == 6
    ensures BeValue(b) == BitOr(BeValue(part2) * 0x80_0000_0000, BeValue(part1)) % 0x1_0000_0000_0000
    ensures b == BuildOf(part2, part1)
  {
    var v2 := BeValue(part2);
    var v1 := BeValue(part1);
    v2 := v2 * TWO39;
    var res := BitOr(v2, v1);
    b := MinBytes(res);
    MinBytesValue(res);
    SixOf(b);
    if |b| > 6 {
      b := b[|b| - 6..];
    } else if |b| < 6 {
      b := Zeros(6 - |b|) + b;
    }
    ValueOfSix(res);
    SameBytes(b, BeBytes(6, res));
  }

  lemma BoundedPrefix(s: Bytes, i: nat)
    requires |s| == 6 && i < 6
    ensures BeValue(s[..i]) < TWO48
  {
    BeBounded(s[..i]);
    Pow2Monotone(8 * i, 48);
    Pow2Values();
  }

  /** No bit of a shorter number is shifted out of an uint64. */
  lemma ShiftFits(v: nat)
    requires v < TWO48
    ensures v * 0x100 % 0x1_0000_0000_0000_0000 == v * 0x100
  {}

  lemma FoldByte(s: Bytes, i: nat)
    requires |s| == 6 && i < 6
    ensures BitOr(BeValue(s[..i]) * 0x100 % 0x1_0000_0000_0000_0000, s[i]) == BeValue(s[..i + 1])
  {
    BoundedPrefix(s, i);
    ShiftFits(BeValue(s[..i]));
    Or8(BeValue(s[..i]), s[i]);
    OneMoreByte(s, i);
  }

  lemma LowWord(v: nat)
    ensures v % TWO32 % TWO32 == v % TWO32
  {}

  lemma LowFour(v: nat)
    ensures BeBytes(4, v % TWO32) == BeBytes(4, v)
  {
    ValueOfFour(v);
    ValueOfFour(v % TWO32);
    LowWord(v);
    SameBytes(BeBytes(4, v % TWO32), BeBytes(4, v));
  }

  /** The conversion to uint16 loses nothing. */
  lemma SetIdFits(v: nat)
    requires v < TWO48
    ensures v / TWO38 % 0x1_0000 == v / TWO38
  {}

  lemma FieldsAre(s: Bytes)
    requires |s| == 6
    ensures var v := BeValue(s);
      DecodeOf(s) == Identity(FiveGSTMSI(
        BitString(BeBytes(2, v / TWO38 % 0x1_0000), 10),
        BitString([LowByte(v / TWO32 % 64 % 0x100)], 9),
        BeBytes(4, v % TWO32)))
  {
    var v := BeValue(s);
    BoundedSix(s);
    LowFour(v);
    SetIdFits(v);
    PointerFits(v / TWO32);
  }

  /** The conversion to byte loses nothing. */
  lemma PointerFits(w: nat)
    ensures LowByte(w % 64 % 0x100) == LowByte(w % 64) == w % 64
  {}

  method Decode5GSTMSI(tmsi: Bytes) returns (r: Decoded)
    ensures r == DecodeOf(tmsi)
  {
    if |tmsi| != 6 {
      return NotSixBytes;
    }
    var val := 0;
    for i := 0 to 6
      invariant val == BeValue(tmsi[..i])
    {
      FoldByte(tmsi, i);
      val := BitOr(val * 0x100 % 0x1_0000_0000_0000_0000, tmsi[i]);
    }
    assert tmsi[..6] == tmsi;
    var amfSetIdVal := val / TWO38 % 0x1_0000;
    var amfPtrVal := val / TWO32 % 64 % 0x100;
    var fivegTmsiVal := val % TWO32;
    FieldsAre(tmsi);
    r := Identity(FiveGSTMSI(
      BitString(BeBytes(2, amfSetIdVal), 10),
      BitString([LowByte(amfPtrVal)], 9),
      BeBytes(4, fivegTmsiVal)));
  }

  // ---- the identity ---------------------------------------------------------------

  lemma SplitJoin(v: nat)
    ensures Join(v / TWO38, v / TWO32 % 64, v % TWO32) == v
  {
    var w := v / TWO32;
    assert v / TWO38 == w / 64;
    assert v == w * TWO32 + v % TWO32;
  }

  /** Decoding loses nothing: the three fields give back the 48-bit number. */
  lemma DecodeRecomposes(s: Bytes)
    requires |s| == 6
    ensures DecodeOf(s).Identity?
    ensures var id := DecodeOf(s).value;
      && Recompose(id) == BeValue(s)
      && BeValue(id.setId.bytes) < 0x400 && BeValue(id.pointer.bytes) < 0x40
      && |id.setId.bytes| == 2 && |id.pointer.bytes| == 1 && |id.tmsi| == 4
  {
    var v := BeValue(s);
    BoundedSix(s);
    SetIdFits(v);
    ValueOfTwo(v / TWO38);
    ValueOfOne(LowByte(v / TWO32 % 64));
    ValueOfFour(v);
    SplitJoin(v);
  }

  /** The fields octet by octet: the set id in ten bits of two octets, the pointer in six
      bits of one, the TMSI as it is. */
  lemma DecodeWritten(s: Bytes)
    ensures DecodeOf(s) == if |s| != 6 then NotSixBytes
      else Identity(FiveGSTMSI(BitString([s[0] / 64, s[0] % 64 * 4 + s[1] / 64], 10),
                               BitString([s[1] % 64], 9), s[2..]))
  {
    if |s| == 6 {
      HeadAndTail(s);
      HeadFields(s[0], s[1], BeValue(s));
      TailBytes(s, s[2..]);
    }
  }

  lemma HeadAndTail(s: Bytes)
    requires |s| == 6
    ensures BeValue(s) / TWO32 == 256 * (s[0] as nat) + s[1] as nat
    ensures BeValue(s) % TWO32 == BeValue(s[2..])
  {
    var head, tail := s[..2], s[2..];
    assert s == head + tail;
    BeConcat(head, tail);
    BeBounded(tail);
    Pow2Values();
    TwoValue(head);
    DivModUnique(BeValue(s), BeValue(head), TWO32, BeValue(tail));
  }

  lemma TwoValue(s: Bytes)
    requires |s| == 2
    ensures BeValue(s) == 256 * (s[0] as nat) + s[1] as nat
  {
    assert s[..1] == [s[0]];
    ValueOfOne(s[0]);
  }

  lemma TailBytes(s: Bytes, tail: Bytes)
    requires |tail| == 4 && BeValue(s) % TWO32 == BeValue(tail)
    ensures BeBytes(4, BeValue(s)) == tail
  {
    ValueOfFour(BeValue(s));
    SameBytes(BeBytes(4, BeValue(s)), tail);
  }

  lemma HeadFields(a: Byte, b: Byte, v: nat)
    requires v / TWO32 == 256 * (a as nat) + b as nat
    ensures BeBytes(2, v / TWO38) == [a / 64, a % 64 * 4 + b / 64] && LowByte(v / TWO32 % 64) == b % 64
  {
    assert v / TWO38 == v / TWO32 / 64;
    TwoOctets(4 * (a as nat) + b / 64);
    PointerFits(v / TWO32);
    ShiftedHead(a, b);
  }

  lemma ShiftedHead(a: Byte, b: Byte)
    ensures (256 * (a as nat) + b as nat) / 64 == 4 * (a as nat) + b / 64
    ensures (256 * (a as nat) + b as nat) % 64 == b % 64
    ensures (4 * (a as nat) + b / 64) / 256 == a / 64
    ensures (4 * (a as nat) + b / 64) % 256 == a % 64 * 4 + b / 64
  {}

  lemma BuiltValue(part2: Bytes, part1: Bytes)
    ensures BeValue(BuildOf(part2, part1)) == BitOr(BeValue(part2) * TWO39, BeValue(part1)) % TWO48
  {
    ValueOfSix(BitOr(BeValue(part2) * TWO39, BeValue(part1)));
  }

  lemma JoinFits(hi: nat, lo: nat)
    requires hi < 0x200 && lo < TWO39
    ensures (hi * TWO39 + lo) % TWO48 == hi * TWO39 + lo
  {
    DivModUnique(hi * TWO39 + lo, 0, TWO48, hi * TWO39 + lo);
  }

  lemma RightAlignedJoin(part2: Bytes, part1: Bytes)
    requires BeValue(part1) < TWO39 && BeValue(part2) < 0x200
    ensures BeValue(BuildOf(part2, part1)) == BeValue(part2) * TWO39 + BeValue(part1)
  {
    BuiltValue(part2, part1);
    Or39(BeValue(part2), BeValue(part1));
    JoinFits(BeValue(part2), BeValue(part1));
  }

  /** Seven of the nine high bits are shifted out, the low ones are doubled. */
  lemma LeftAlignedJoin(hi: nat, lo: nat)
    requires hi < 0x200 && lo < TWO39
    ensures (hi * 64 * 0x100_0000_0000 + 2 * lo) % TWO48 == hi % 4 * 0x4000_0000_0000 + 2 * lo
  {
    DivModUnique(hi * 64 * 0x100_0000_0000 + 2 * lo, hi / 4, TWO48, hi % 4 * 0x4000_0000_0000 + 2 * lo);
  }

  lemma Shifted39(hi: nat)
    ensures 128 * hi * TWO39 == hi * 64 * 0x100_0000_0000
  {}

  lemma LeftAlignedValue(part2: Bytes, part1: Bytes, hi: nat, lo: nat)
    requires BeValue(part1) == 2 * lo && lo < TWO39
    requires BeValue(part2) == 128 * hi && hi < 0x200
    ensures BeValue(BuildOf(part2, part1)) == hi % 4 * 0x4000_0000_0000 + 2 * lo
  {
    BuiltValue(part2, part1);
    Shifted39(hi);
    Or40(hi * 64, 2 * lo);
    LeftAlignedJoin(hi, lo);
  }

  lemma OnlyZero(hi: nat, lo: nat)
    requires hi < 0x200 && lo < TWO39
    ensures hi % 4 * 0x4000_0000_0000 + 2 * lo == hi * TWO39 + lo <==> hi == 0 && lo == 0
  {}

  /** The parts of an RRC setup: the right-most 39 bits of the identity in the request,
      the left-most 9 in the setup complete message, both right-aligned in their bytes.
      The identity then reaches the AMF whole. */
  lemma PartsToIdentity(part2: Bytes, part1: Bytes)
    requires BeValue(part1) < TWO39 && BeValue(part2) < 0x200
    ensures DecodeOf(BuildOf(part2, part1)).Identity?
    ensures Recompose(DecodeOf(BuildOf(part2, part1)).value) == BeValue(part2) * TWO39 + BeValue(part1)
  {
    RightAlignedJoin(part2, part1);
    DecodeRecomposes(BuildOf(part2, part1));
  }

  /** Parts that are left-aligned in their bytes (one unused bit after 39, seven after
      9) are put together wrongly, except for the identity zero. */
  lemma LeftAlignedPartsIff(part2: Bytes, part1: Bytes, hi: nat, lo: nat)
    requires BeValue(part1) == 2 * lo && lo < TWO39
    requires BeValue(part2) == 128 * hi && hi < 0x200
    ensures DecodeOf(BuildOf(part2, part1)).Identity?
    ensures Recompose(DecodeOf(BuildOf(part2, part1)).value) == hi * TWO39 + lo <==> hi == 0 && lo == 0
  {
    DecodeRecomposes(BuildOf(part2, part1));
    LeftAlignedValue(part2, part1, hi, lo);
    OnlyZero(hi, lo);
  }
}
