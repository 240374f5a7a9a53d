/** PLMN identities: GetMccAndMncInOctets (internal/context/context_cucp.go) and
    ConvertMccMnc (internal/context/amfcontext/amfcontext.go), against section 9.3.3.5
    of 3GPP TS 38.413. */
module Plmn {
  import opened Bytes
  import opened Hex

  predicate Digits(s: string) {
    forall i :: 0 <= i < |s| ==> '0' <= s[i] <= '9'
  }

  /** What the configuration of a CU-CP is meant to hold. */
  predicate PlmnConfig(mcc: string, mnc: string) {
    |mcc| == 3 && (|mnc| == 2 || |mnc| == 3) && Digits(mcc) && Digits(mnc)
  }

  type HalfOctet = d: nat | d < 16

  function DigitOf(c: char): HalfOctet
    requires '0' <= c <= '9'
  {
    c as nat - '0' as nat
  }

  const FILLER: HalfOctet := 15

  /** The six half octets in the order of the standard: three digits of MCC, then the
      filler and two digits of MNC, or three digits of MNC. */
  function HalfOctets(mcc: string, mnc: string): (d: seq<HalfOctet>)
    requires PlmnConfig(mcc, mnc)
    ensures |d| == 6
  {
    var m := [DigitOf(mcc[0]), DigitOf(mcc[1]), DigitOf(mcc[2])];
    if |mnc| == 2 then m + [FILLER, DigitOf(mnc[0]), DigitOf(mnc[1])]
    else m + [DigitOf(mnc[0]), DigitOf(mnc[1]), DigitOf(mnc[2])]
  }

  /** Octet n holds digit 2n - 1 in its low half and digit 2n in its high half. */
  function Octets(mcc: string, mnc: string): (s: Bytes)
    requires PlmnConfig(mcc, mnc)
    ensures |s| == 3
  {
    var d := HalfOctets(mcc, mnc);
    [Octet(d[1], d[0]), Octet(d[3], d[2]), Octet(d[5], d[4])]
  }

  function Octet(hi: HalfOctet, lo: HalfOctet): Byte {
    hi * 16 + lo
  }

  /** ConvertMccMnc. */
  function ConvertMccMnc(plmn: string): (string, string)
    requires |plmn| >= 6
  {
    if plmn[2] == 'f' then
      ([plmn[1], plmn[0], plmn[3]], [plmn[5], plmn[4]])
    else
      ([plmn[1], plmn[0], plmn[3]], [plmn[2], plmn[5], plmn[4]])
  }

  // ---- packing --------------------------------------------------------------------------

  function Reversed(s: string): (r: string)
    ensures |r| == |s|
    ensures forall i :: 0 <= i < |s| ==> r[i] == s[|s| - 1 - i]
  {
    if s == "" then "" else Reversed(s[1..]) + [s[0]]
  }

  /** reverse: each character is put in front. */
  method Reverse(s: string) returns (aux: string)
    ensures aux == Reversed(s)
  {
    aux := "";
    for i := 0 to |s|
      invariant |aux| == i && forall j :: 0 <= j < i ==> aux[j] == s[i - 1 - j]
    {
      aux := [s[i]] + aux;
    }
    assert forall i :: 0 <= i < |s| ==> aux[i] == Reversed(s)[i];
  }

  function Three(c: char, d: char, e: char, f: char, g: char, h: char): Bytes {
    [LowByte(16 * DigitN(c) + DigitN(d)), LowByte(16 * DigitN(e) + DigitN(f)), LowByte(16 * DigitN(g) + DigitN(h))]
  }

  function DigitN(c: char): nat {
    if HexDigit(c) < 0 then 0 else HexDigit(c)
  }

  lemma HexOfThree(c: char, d: char, e: char, f: char, g: char, h: char)
    requires HexDigit(c) >= 0 && HexDigit(d) >= 0 && HexDigit(e) >= 0
    requires HexDigit(f) >= 0 && HexDigit(g) >= 0 && HexDigit(h) >= 0
    ensures HexPrefix([c, d, e, f, g, h]) == Three(c, d, e, f, g, h)
  {
    assert [c, d, e, f, g, h][2..] == [e, f, g, h];
    assert [e, f, g, h][2..] == [g, h];
    assert [g, h][2..] == "";
    assert HexPrefix("") == [];
    assert HexPrefix([g, h]) == [LowByte(16 * HexDigit(g) + HexDigit(h))];
  }

  lemma HexIsDigit(c: char)
    requires '0' <= c <= '9'
    ensures HexDigit(c) == DigitOf(c) == DigitN(c)
  {}

  lemma LowByteOfOctet(hi: HalfOctet, lo: HalfOctet)
    ensures LowByte(16 * hi + lo) == Octet(hi, lo)
  {}

  lemma ThirdCharacter(mcc: string, mnc: string, third: char)
    requires PlmnConfig(mcc, mnc) && third == (if |mnc| == 2 then 'f' else mnc[0])
    ensures HexDigit(third) == DigitN(third) == HalfOctets(mcc, mnc)[3]
  {
    if |mnc| == 3 {
      HexIsDigit(mnc[0]);
    }
  }

  /** Six characters with the values of the half octets, in the order of the octets. */
  lemma PackedChars(d: seq<HalfOctet>, a: char, b: char, c: char, e: char, f: char, g: char)
    requires |d| == 6 && HexDigit(b) == d[0] && HexDigit(a) == d[1] && HexDigit(e) == d[2]
    requires HexDigit(c) == d[3] && HexDigit(g) == d[4] && HexDigit(f) == d[5]
    ensures HexPrefix([a, b, c, e, f, g]) == [Octet(d[1], d[0]), Octet(d[3], d[2]), Octet(d[5], d[4])]
  {
    HexOfThree(a, b, c, e, f, g);
    SixHalves(d, DigitN(a), DigitN(b), DigitN(c), DigitN(e), DigitN(f), DigitN(g));
  }

  lemma DigitAt(s: string, i: nat)
    requires Digits(s) && i < |s|
    ensures '0' <= s[i] <= '9' && HexDigit(s[i]) == DigitOf(s[i])
  {
    HexIsDigit(s[i]);
  }

  lemma Packed(mcc: string, mnc: string, third: char, fifth: char, sixth: char)
    requires PlmnConfig(mcc, mnc)
    requires third == (if |mnc| == 2 then 'f' else mnc[0])
    requires fifth == mnc[|mnc| - 1] && sixth == mnc[|mnc| - 2]
    ensures HexPrefix([mcc[1], mcc[0], third, mcc[2], fifth, sixth]) == Octets(mcc, mnc)
  {
    DigitAt(mcc, 0);
    DigitAt(mcc, 1);
    DigitAt(mcc, 2);
    DigitAt(mnc, |mnc| - 1);
    DigitAt(mnc, |mnc| - 2);
    ThirdCharacter(mcc, mnc, third);
    PackedChars(HalfOctets(mcc, mnc), mcc[1], mcc[0], third, mcc[2], fifth, sixth);
  }

  lemma SixHalves(d: seq<HalfOctet>, a: nat, b: nat, c: nat, e: nat, f: nat, g: nat)
    requires |d| == 6 && d[0] == b && d[1] == a && d[2] == e && d[3] == c && d[4] == g && d[5] == f
    ensures [LowByte(16 * a + b), LowByte(16 * c + e), LowByte(16 * f + g)]
         == [Octet(d[1], d[0]), Octet(d[3], d[2]), Octet(d[5], d[4])]
  {
    LowByteOfOctet(d[1], d[0]);
    LowByteOfOctet(d[3], d[2]);
    LowByteOfOctet(d[5], d[4]);
  }

  /** The octets of section 9.3.3.5 of TS 38.413, with the filler 15 in the upper half of
      the second octet for a two-digit MNC. */
  lemma OctetsWritten(mcc: string, mnc: string)
    requires PlmnConfig(mcc, mnc)
    ensures var m := i requires 0 <= i < 3 => mcc[i] as int - '0' as int;
      var n := i requires 0 <= i < |mnc| => mnc[i] as int - '0' as int;
      Octets(mcc, mnc) == if |mnc| == 2 then [16 * m(1) + m(0), 16 * 15 + m(2), 16 * n(1) + n(0)]
                          else [16 * m(1) + m(0), 16 * n(0) + m(2), 16 * n(2) + n(1)]
  {}

  /** The indexing needs three characters of MCC and two of MNC. */
  method GetMccAndMncInOctets(mcc: string, mnc: string) returns (r: Bytes)
    requires |mcc| >= 3 && |mnc| >= 2
    ensures PlmnConfig(mcc, mnc) ==> r == Octets(mcc, mnc)
  {
    var m := Reverse(mcc);
    var n := Reverse(mnc);
    var res;
    if |n| == 2 {
      res := [m[1], m[2], 'f', m[0], n[0], n[1]];
    } else {
      res := [m[1], m[2], n[2], m[0], n[0], n[1]];
    }
    r := HexPrefix(res);
    if PlmnConfig(mcc, mnc) {
      Packed(mcc, mnc, res[2], res[4], res[5]);
      assert res == [mcc[1], mcc[0], res[2], mcc[2], res[4], res[5]];
    }
  }

  // ---- both ways ------------------------------------------------------------------------

  lemma DigitCharOf(c: char)
    requires '0' <= c <= '9'
    ensures DigitChar(DigitOf(c)) == c && DigitOf(c) < 10
  {}

  lemma HexOfOctet(hi: HalfOctet, lo: HalfOctet)
    ensures HexEncode([Octet(hi, lo)]) == [DigitChar(hi), DigitChar(lo)]
  {
    var b := Octet(hi, lo);
    assert HexEncode([b][1..]) == "";
    assert b / 16 == hi && b % 16 == lo;
  }

  lemma HexOfOctets(a: Byte, b: Byte, c: Byte)
    ensures HexEncode([a, b, c]) == HexEncode([a]) + HexEncode([b]) + HexEncode([c])
  {
    assert [a, b, c][1..] == [b, c];
    assert [b, c][1..] == [c];
    assert [a][1..] == [] && [b][1..] == [] && [c][1..] == [];
    assert HexEncode([]) == "";
    assert HexEncode([b, c]) == HexEncode([b]) + HexEncode([c]);
  }

  lemma HexOfPlmn(mcc: string, mnc: string)
    requires PlmnConfig(mcc, mnc)
    ensures var d := HalfOctets(mcc, mnc);
      HexEncode(Octets(mcc, mnc)) ==
        [DigitChar(d[1]), DigitChar(d[0]), DigitChar(d[3]), DigitChar(d[2]), DigitChar(d[5]), DigitChar(d[4])]
  {
    var d, s := HalfOctets(mcc, mnc), Octets(mcc, mnc);
    assert s == [s[0], s[1], s[2]];
    HexOfOctets(s[0], s[1], s[2]);
    HexOfOctet(d[1], d[0]);
    HexOfOctet(d[3], d[2]);
    HexOfOctet(d[5], d[4]);
  }

  /** Unpacking what was packed gives the PLMN back. */
  lemma PlmnRoundTrip(mcc: string, mnc: string)
    requires PlmnConfig(mcc, mnc)
    ensures ConvertMccMnc(HexEncode(Octets(mcc, mnc))) == (mcc, mnc)
  {
    HexOfPlmn(mcc, mnc);
    assert mcc == [mcc[0], mcc[1], mcc[2]];
    DigitCharOf(mcc[0]);
    DigitCharOf(mcc[1]);
    DigitCharOf(mcc[2]);
    DigitCharOf(mnc[0]);
    DigitCharOf(mnc[1]);
    if |mnc| == 3 {
      DigitCharOf(mnc[2]);
      assert mnc == [mnc[0], mnc[1], mnc[2]];
    } else {
      assert mnc == [mnc[0], mnc[1]];
    }
  }

  /** So different PLMNs never share their octets. */
  lemma PackingInjective(mcc: string, mnc: string, mcc': string, mnc': string)
    requires PlmnConfig(mcc, mnc) && PlmnConfig(mcc', mnc')
    ensures Octets(mcc, mnc) == Octets(mcc', mnc') <==> mcc == mcc' && mnc == mnc'
  {
    PlmnRoundTrip(mcc, mnc);
    PlmnRoundTrip(mcc', mnc');
  }

  /** Three octets that are a PLMN: decimal digits, and the filler only where it may be. */
  predicate IsPlmn(s: Bytes) {
    && |s| == 3
    && s[0] % 16 < 10 && s[0] / 16 < 10 && s[1] % 16 < 10
    && (s[1] / 16 < 10 || s[1] / 16 == FILLER)
    && s[2] % 16 < 10 && s[2] / 16 < 10
  }

  lemma CharDigit(d: nat)
    requires d < 10
    ensures '0' <= DigitChar(d) <= '9' && DigitOf(DigitChar(d)) == d
  {}

  /** The other way round: packing what was unpacked gives the octets back. */
  lemma OctetsRoundTrip(s: Bytes)
    requires IsPlmn(s)
    ensures var p := ConvertMccMnc(HexEncode(s));
      PlmnConfig(p.0, p.1) && Octets(p.0, p.1) == s
  {
    assert s == [s[0], s[1], s[2]];
    HexOfOctets(s[0], s[1], s[2]);
    HexOfOctet(s[0] / 16, s[0] % 16);
    HexOfOctet(s[1] / 16, s[1] % 16);
    HexOfOctet(s[2] / 16, s[2] % 16);
    CharDigit(s[0] % 16);
    CharDigit(s[0] / 16);
    CharDigit(s[1] % 16);
    CharDigit(s[2] % 16);
    CharDigit(s[2] / 16);
    if s[1] / 16 < 10 {
      CharDigit(s[1] / 16);
    }
  }
}
