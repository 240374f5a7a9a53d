/** Numbers out of bit strings: extractCellIDValue (internal/context/handle_du.go),
    extractSTMSI and BitStringToUint64 (internal/common/utils/asn1.go).

    A bit string holds its bits from the top of its first byte on. */
module BitStrings {
  import opened Bits
  import opened Bytes

  const WORD := 64

  function Min(a: nat, b: nat): nat {
    if a < b then a else b
  }

  /** The first `bits` bits of the bytes, as a number. */
  function TopBits(bytes: Bytes, bits: nat): nat
    requires bits <= 8 * |bytes|
  {
    Shr(BeValue(bytes), 8 * |bytes| - bits)
  }

  // ---- lemmas on TopBits ------------------------------------------------------------

  lemma TopBitsBounded(bytes: Bytes, bits: nat)
    requires bits <= 8 * |bytes|
    ensures TopBits(bytes, bits) < Pow2(bits)
  {
    BeBounded(bytes);
    ShrBounded(BeValue(bytes), 8 * |bytes| - bits, bits);
  }

  /** The bits of the leading bytes. */
  lemma TopBytes(bytes: Bytes, i: nat)
    requires i <= |bytes|
    ensures TopBits(bytes, 8 * i) == BeValue(bytes[..i])
  {
    var hi, lo := bytes[..i], bytes[i..];
    assert bytes == hi + lo;
    BeConcat(hi, lo);
    BeBounded(lo);
    ShrUnique(BeValue(bytes), BeValue(hi), 8 * |lo|, BeValue(lo));
  }

  lemma Pair(v: nat, p: nat, q: nat, a: nat, r: nat)
    requires p * q == BASE
    ensures v * BASE + (a * q + r) == (v * p + a) * q + r
  {}

  /** (v * 256 + b) >> k, with the byte shifted on its own. */
  lemma ShiftPair(v: nat, b: Byte, bits: nat)
    requires bits <= 8
    ensures Shr(v * BASE + b, 8 - bits) == v * Pow2(bits) + Shr(b, 8 - bits)
    ensures Shr(b, 8 - bits) < Pow2(bits)
  {
    assert Pow2(8) == BASE by {
      Pow2Values();
    }
    Pow2Add(bits, 8 - bits);
    var r := ShrSplit(b, 8 - bits);
    Pair(v, Pow2(bits), Pow2(8 - bits), Shr(b, 8 - bits), r);
    ShrUnique(v * BASE + b, v * Pow2(bits) + Shr(b, 8 - bits), 8 - bits, r);
    ShrBounded(b, 8 - bits, bits);
  }

  /** Up to eight more bits after the first i bytes. */
  lemma TopBitsStep(bytes: Bytes, i: nat, bits: nat)
    requires i < |bytes| && bits <= 8
    ensures TopBits(bytes, 8 * i + bits) == TopBits(bytes, 8 * i) * Pow2(bits) + Shr(bytes[i], 8 - bits)
    ensures Shr(bytes[i], 8 - bits) < Pow2(bits)
  {
    var rest := |bytes| - i - 1;
    TopBytes(bytes, i);
    TopBytes(bytes, i + 1);
    OneMoreByte(bytes, i);
    ShrTwice(BeValue(bytes), 8 * rest, 8 - bits);
    assert TopBits(bytes, 8 * i + bits) == Shr(BeValue(bytes[..i + 1]), 8 - bits);
    ShiftPair(BeValue(bytes[..i]), bytes[i], bits);
  }

  // ---- the loops ----------------------------------------------------------------------

  /** uint64: v << k. */
  function Shl64(v: nat, k: nat): nat {
    v * Pow2(k) % 0x1_0000_0000_0000_0000
  }

  lemma Scaled(v: nat, p: nat, q: nat)
    requires v < p && q > 0
    ensures v * q < p * q
  {
    MulMonotone(v + 1, p, q);
  }

  lemma FitsWord(x: nat, m: nat)
    requires x < Pow2(m) && m <= WORD
    ensures x % 0x1_0000_0000_0000_0000 == x
  {
    Pow2Values();
    Pow2Monotone(m, WORD);
  }

  lemma ShlFits(v: nat, k: nat, n: nat)
    requires v < Pow2(n) && n + k <= WORD
    ensures Shl64(v, k) == v * Pow2(k) && v * Pow2(k) < Pow2(n + k)
  {
    Pow2Add(n, k);
    Scaled(v, Pow2(n), Pow2(k));
    FitsWord(v * Pow2(k), n + k);
  }

  /** int64(x) of any integer: the low 64 bits, as two's complement. */
  function Int64(x: int): int {
    var low := x % 0x1_0000_0000_0000_0000;
    if low < 0x8000_0000_0000_0000 then low else low - 0x1_0000_0000_0000_0000
  }

  /** How many bits the extraction loops take.  A bit count from 2^63 on is negative
      once it is an int. */
  function BitsTaken(len: nat, numBits: U64): (k: nat)
    ensures k <= 8 * len && k <= WORD
  {
    if Positive(numBits) then Min(8 * len, Min(numBits, WORD)) else 0
  }

  /** extractCellIDValue, and extractSTMSI, which is the same loop: for every byte
      string and bit count, the leading bits that are there, sixty-four at most. */
  method ExtractBits(bytes: Bytes, numBits: U64) returns (value: nat)
    ensures value == TopBits(bytes, BitsTaken(|bytes|, numBits))
  {
    if |bytes| == 0 {
      assert BeValue(bytes) == 0;
      assert TopBits(bytes, 0) == 0;
      return 0;
    }
    value := 0;
    var bitsToRead := Int64(numBits);
    AsInt(numBits);
    if bitsToRead > WORD {
      bitsToRead := WORD;
    }
    ghost var total := if Positive(numBits) then Min(numBits, WORD) else 0;
    var i := 0;
    TopBytes(bytes, 0);
    assert BeValue(bytes[..0]) == 0;
    while i < |bytes| && bitsToRead > 0
      invariant i <= |bytes| && bitsToRead <= total
      invariant Positive(numBits) ==> bitsToRead >= 0
      invariant bitsToRead < 0 ==> total == 0 && value == 0
      invariant bitsToRead >= 0 ==> total - bitsToRead <= 8 * i && value == TopBits(bytes, total - bitsToRead)
      invariant bitsToRead > 0 ==> total - bitsToRead == 8 * i
    {
      var bits := if bitsToRead < 8 then bitsToRead else 8;
      ReadStep(bytes, i, bits);
      value := BitOr(Shl64(value, bits), Shr(bytes[i], 8 - bits));
      bitsToRead := bitsToRead - bits;
      i := i + 1;
    }
    if Positive(numBits) {
      assert total - bitsToRead == Min(8 * |bytes|, total);
    }
  }

  /** The three loops' number: the octets as a big-endian integer, shifted right by the
      bits that are not used (for up to eight octets with a bit count that fits them). */
  lemma ExtractedValue(bytes: Bytes, numBits: U64)
    requires |bytes| <= 8 && numBits <= 8 * |bytes|
    ensures TopBits(bytes, BitsTaken(|bytes|, numBits)) == BeValue(bytes) / Pow2(8 * |bytes| - numBits)
  {
    ShrIsDiv(BeValue(bytes), 8 * |bytes| - numBits);
  }

  lemma AsInt(numBits: U64)
    ensures Positive(numBits) ==> Int64(numBits) == numBits
    ensures !Positive(numBits) ==> Int64(numBits) < 0
  {}

  /** One turn of the loop. */
  lemma ReadStep(bytes: Bytes, i: nat, bits: nat)
    requires i < |bytes| && bits <= 8 && 8 * i + bits <= WORD
    ensures BitOr(Shl64(TopBits(bytes, 8 * i), bits), Shr(bytes[i], 8 - bits)) == TopBits(bytes, 8 * i + bits)
  {
    TopBitsStep(bytes, i, bits);
    TopBitsBounded(bytes, 8 * i);
    ShlFits(TopBits(bytes, 8 * i), bits, 8 * i);
    OrDisjoint(TopBits(bytes, 8 * i), bits, Shr(bytes[i], 8 - bits));
  }

  datatype Word = Value(v: nat) | Panic

  /** Go panics on a wrong length, and on a negative shift count: BitStringToUint64 returns
      exactly when there are one to eight bytes of which at most eight bits are unused, or
      one byte with a bit count that is negative as an int (unless eight less it
      overflows).  It then agrees with the other two. */
  method BitStringToUint64(bytes: Bytes, numBits: U64) returns (r: Word)
    ensures r.Value? <==>
      || (1 <= |bytes| <= 8 && 8 * |bytes| - 8 <= numBits <= 8 * |bytes|)
      || (|bytes| == 1 && numBits >= 0x8000_0000_0000_0009)
    ensures r.Value? ==> r.v == TopBits(bytes, BitsTaken(|bytes|, numBits))
  {
    var result := 0;
    var bitsUnused := Int64(|bytes| * 8 - Int64(numBits));
    if |bytes| == 0 || |bytes| > 8 {
      return Panic;
    }
    var shift := Int64((|bytes| - 1) * 8 - bitsUnused);
    ghost var start := shift;
    ShiftCounts(|bytes|, numBits);
    TopBytes(bytes, 0);
    for index := 0 to |bytes| - 1
      invariant shift == start - 8 * index
      invariant index == 0 ==> result == 0
      invariant index > 0 ==> shift + 8 >= 0
      invariant Positive(numBits) && bitsUnused >= 0 && shift + 8 >= 0 ==>
        result == TopBits(bytes, 8 * index) * Pow2(shift + 8)
    {
      if shift < 0 {
        return Panic;
      }
      if Positive(numBits) && bitsUnused >= 0 {
        FoldStep(bytes, index, shift);
      }
      result := BitOr(result, Shl64(bytes[index], shift));
      shift := shift - 8;
    }
    if bitsUnused < 0 {
      return Panic;
    }
    var last := |bytes| - 1;
    if !Positive(numBits) {
      NothingLeft(bytes[0], bitsUnused);
      assert BeValue(bytes[..0]) == 0;
    } else if |bytes| == 1 || bitsUnused <= 8 {
      FoldLast(bytes, bitsUnused);
    }
    result := BitOr(result, Shr(bytes[last], bitsUnused));
    r := Value(result);
  }

  /** int(numBits) is not negative. */
  predicate Positive(numBits: U64) {
    numBits < 0x8000_0000_0000_0000
  }

  /** The two shift counts, with the overflow of their subtractions. */
  lemma ShiftCounts(len: nat, numBits: U64)
    requires 1 <= len <= 8
    ensures var unused := Int64(len * 8 - Int64(numBits)); var start := Int64((len - 1) * 8 - unused);
      && (Positive(numBits) ==> unused == 8 * len - numBits && start == numBits - 8)
      && (!Positive(numBits) && unused >= 0 ==> start < 0 && unused > 8)
      && (!Positive(numBits) && len == 1 ==> (unused >= 0 <==> numBits >= 0x8000_0000_0000_0009))
  {
    if Positive(numBits) {
      Int64Keeps(numBits);
      Int64Keeps(len * 8 - numBits);
      Int64Keeps(numBits - 8);
    } else {
      Int64Drops(numBits);
      var n := numBits - 0x1_0000_0000_0000_0000;
      if len * 8 - n < 0x8000_0000_0000_0000 {
        Int64Keeps(len * 8 - n);
        Int64Keeps(n - 8);
      } else {
        Int64Drops(len * 8 - n);
      }
    }
  }

  lemma Int64Keeps(x: int)
    requires -0x8000_0000_0000_0000 <= x < 0x8000_0000_0000_0000
    ensures Int64(x) == x
  {
    if x < 0 {
      assert x % 0x1_0000_0000_0000_0000 == x + 0x1_0000_0000_0000_0000;
    }
  }

  lemma Int64Drops(x: int)
    requires 0x8000_0000_0000_0000 <= x < 0x1_8000_0000_0000_0000
    ensures Int64(x) == x - 0x1_0000_0000_0000_0000
  {
    if x >= 0x1_0000_0000_0000_0000 {
      assert x % 0x1_0000_0000_0000_0000 == x - 0x1_0000_0000_0000_0000;
    }
  }

  lemma NothingLeft(b: Byte, k: nat)
    requires k >= 8
    ensures Shr(b, k) == 0
  {
    Pow2Values();
    Pow2Monotone(8, k);
    ShrBounded(b, k, 0);
  }

  /** One byte more: it goes in below what is there. */
  lemma FoldStep(bytes: Bytes, i: nat, shift: nat)
    requires i < |bytes| <= 8 && 8 * i + shift + 8 <= 8 * |bytes|
    ensures BitOr(TopBits(bytes, 8 * i) * Pow2(shift + 8), Shl64(bytes[i], shift))
         == TopBits(bytes, 8 * (i + 1)) * Pow2(shift)
  {
    WholeByte(bytes, i);
    FoldSum(TopBits(bytes, 8 * i), bytes[i], shift);
  }

  lemma WholeByte(bytes: Bytes, i: nat)
    requires i < |bytes|
    ensures TopBits(bytes, 8 * (i + 1)) == TopBits(bytes, 8 * i) * BASE + bytes[i]
  {
    TopBytes(bytes, i);
    TopBytes(bytes, i + 1);
    OneMoreByte(bytes, i);
  }

  lemma FoldSum(v: nat, b: Byte, shift: nat)
    requires shift + 8 <= WORD
    ensures BitOr(v * Pow2(shift + 8), Shl64(b, shift)) == (v * BASE + b) * Pow2(shift)
  {
    assert Pow2(8) == BASE by {
      Pow2Values();
    }
    ShlFits(b, shift, 8);
    OrDisjoint(v, shift + 8, b * Pow2(shift));
    Pow2Add(8, shift);
    Regroup(v, Pow2(shift), b);
  }

  /** The last byte, without its unused bits. */
  lemma FoldLast(bytes: Bytes, unused: nat)
    requires |bytes| > 0 && unused <= 8
    ensures BitOr(TopBits(bytes, 8 * (|bytes| - 1)) * Pow2(8 - unused), Shr(bytes[|bytes| - 1], unused))
         == TopBits(bytes, 8 * |bytes| - unused)
  {
    var last := |bytes| - 1;
    TopBitsStep(bytes, last, 8 - unused);
    OrDisjoint(TopBits(bytes, 8 * last), 8 - unused, Shr(bytes[last], unused));
  }

  lemma Regroup(v: nat, p: nat, b: nat)
    ensures v * (BASE * p) + b * p == (v * BASE + b) * p
  {}

  // ---- the cell identity ----------------------------------------------------------------

  const NR_CELL_BITS := 36

  /** GetNRCellIdentity: the gNB id and two zero bytes, of which 36 bits count. */
  function NrCellIdentity(gnbId: Bytes): Bytes {
    gnbId + Zeros(2)
  }

  lemma TwoZeros(s: Bytes)
    ensures BeValue(s + Zeros(2)) == BeValue(s) * 0x1_0000
  {
    assert s + Zeros(2) == s + [0] + [0];
    assert BeValue(s + [0]) == BeValue(s) * BASE;
    assert BeValue(s + [0] + [0]) == BeValue(s + [0]) * BASE;
  }

  /** For a 24-bit gNB id the cell identity is that id with twelve zero bits. */
  lemma CellIdentityOfGnbId(gnbId: Bytes)
    requires |gnbId| == 3
    ensures NR_CELL_BITS == 36 && TopBits(NrCellIdentity(gnbId), 36) == BeValue(gnbId) * 0x1000
  {
    var v := BeValue(gnbId);
    TwoZeros(gnbId);
    assert Pow2(4) == 16;
    ShrUnique(v * 0x1_0000, v * 0x1000, 4, 0);
  }
}
