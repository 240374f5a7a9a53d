/** Go's encoding/hex and the "%x" verb. */
module Hex {
  import opened Bytes

  function HexDigit(c: char): (d: int)
    ensures -1 <= d < 16
  {
    if '0' <= c <= '9' then c as int - '0' as int
    else if 'a' <= c <= 'f' then c as int - 'a' as int + 10
    else if 'A' <= c <= 'F' then c as int - 'A' as int + 10
    else -1
  }

  datatype Hex = Decoded(bytes: Bytes) | BadHex

  /** hex.DecodeString. */
  function HexDecode(s: string): Hex {
    if s == "" then Decoded([])
    else if |s| == 1 || HexDigit(s[0]) < 0 || HexDigit(s[1]) < 0 then BadHex
    else match HexDecode(s[2..])
         case BadHex => BadHex
         case Decoded(rest) => Decoded([LowByte(16 * HexDigit(s[0]) + HexDigit(s[1]))] + rest)
  }

  /** What hex.DecodeString returns beside its error: the bytes before the first
      character that is not a hexadecimal digit. */
  function HexPrefix(s: string): Bytes {
    if |s| < 2 || HexDigit(s[0]) < 0 || HexDigit(s[1]) < 0 then []
    else [LowByte(16 * HexDigit(s[0]) + HexDigit(s[1]))] + HexPrefix(s[2..])
  }

  function DigitChar(d: nat): (c: char)
    requires d < 16
    ensures HexDigit(c) == d
  {
    if d < 10 then '0' + d as char else 'a' + (d - 10) as char
  }

  function HexEncode(s: Bytes): (t: string)
    ensures |t| == 2 * |s|
  {
    if s == [] then "" else [DigitChar(s[0] / 16), DigitChar(s[0] % 16)] + HexEncode(s[1..])
  }

  lemma Nibbles(b: Byte)
    ensures 16 * (b / 16) + b % 16 == b
    ensures LowByte(16 * (b / 16) + b % 16) == b
  {}

  lemma HexDecodeStep(c: char, d: char, t: string)
    requires HexDigit(c) >= 0 && HexDigit(d) >= 0 && HexDecode(t).Decoded?
    ensures HexDecode([c, d] + t) == Decoded([LowByte(16 * HexDigit(c) + HexDigit(d))] + HexDecode(t).bytes)
  {
    assert ([c, d] + t)[2..] == t;
  }

  /** Decoding undoes encoding. */
  lemma {:induction false} HexRoundTrip(s: Bytes)
    ensures HexDecode(HexEncode(s)) == Decoded(s)
  {
    if s != [] {
      HexRoundTrip(s[1..]);
      Nibbles(s[0]);
      HexDecodeStep(DigitChar(s[0] / 16), DigitChar(s[0] % 16), HexEncode(s[1..]));
    }
  }

  const LOWER := "0123456789abcdef"
  const UPPER := "0123456789ABCDEF"

  lemma LowerWritten(d: nat)
    requires d < 16
    ensures HexDigit(LOWER[d]) == d && DigitChar(d) == LOWER[d]
  {
    assert d in [0, 1, 2, 3, 4, 5, 6, 7, 8, 9, 10, 11, 12, 13, 14, 15];
  }

  lemma UpperWritten(d: nat)
    requires d < 16
    ensures HexDigit(UPPER[d]) == d
  {
    assert d in [0, 1, 2, 3, 4, 5, 6, 7, 8, 9, 10, 11, 12, 13, 14, 15];
  }

  /** Two lower-case digits an octet, the upper half first. */
  lemma {:induction false} HexWritten(s: Bytes, i: nat)
    requires i < |s|
    ensures HexEncode(s)[2 * i] == LOWER[s[i] / 16] && HexEncode(s)[2 * i + 1] == LOWER[s[i] % 16]
  {
    if i == 0 {
      LowerWritten(s[0] / 16);
      LowerWritten(s[0] % 16);
    } else {
      HexWritten(s[1..], i - 1);
    }
  }

  /** A string decodes if and only if it has an even number of characters, all digits. */
  lemma {:induction false} DecodesIff(s: string)
    ensures HexDecode(s).Decoded? <==>
      |s| % 2 == 0
      && forall i :: 0 <= i < |s| ==> '0' <= s[i] <= '9' || 'a' <= s[i] <= 'f' || 'A' <= s[i] <= 'F'
    ensures HexDecode(s).Decoded? ==> |HexDecode(s).bytes| == |s| / 2
  {
    if |s| >= 2 {
      var t := s[2..];
      DecodesIff(t);
      assert forall i :: 2 <= i < |s| ==> s[i] == t[i - 2];
    }
  }

  lemma HexDecodeParts(s: string)
    requires HexDecode(s).Decoded? && s != ""
    ensures |s| >= 2 && HexDecode(s[2..]).Decoded?
    ensures HexDecode(s).bytes
            == [LowByte(16 * (HexDigit(s[0]) % 16) + HexDigit(s[1]) % 16)] + HexDecode(s[2..]).bytes
  {}

  /** Each two of them then give one octet. */
  lemma {:induction false} DecodedOctet(s: string, k: nat)
    requires HexDecode(s).Decoded? && k < |HexDecode(s).bytes|
    ensures 2 * k + 1 < |s|
    ensures HexDecode(s).bytes[k] == LowByte(16 * (HexDigit(s[2 * k]) % 16) + HexDigit(s[2 * k + 1]) % 16)
    decreases k
  {
    HexDecodeParts(s);
    if k > 0 {
      DecodedOctet(s[2..], k - 1);
    }
  }
}
