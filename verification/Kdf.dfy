/** The key derivation function of internal/context/uecontext/ueauth.go, whose
    input string is that of Annex B.2 of 3GPP TS 33.220: FC, P0, L0, ..., Pn, Ln. */
module Kdf {
  import opened Bits
  import opened Bytes
  import opened Hex

  type Digest = s: Bytes | |s| == 32 witness Zeros(32)

  /** HMAC-SHA-256: first the key, then the message. */
  type Hmac = (Bytes, Bytes) -> Digest

  const LEN_LIMIT := 0x1_0000

  // ---- the input string -----------------------------------------------------------

  /** uint16(len(p)), big-endian: the length modulo 65536. */
  function LenBytes(p: Bytes): (l: Bytes)
    ensures |l| == 2
  {
    BeBytes(2, |p| % LEN_LIMIT)
  }

  function Encode(ps: seq<Bytes>): Bytes {
    if ps == [] then [] else Encode(ps[..|ps| - 1]) + ps[|ps| - 1] + LenBytes(ps[|ps| - 1])
  }

  datatype Parsed = Params(ps: seq<Bytes>) | Malformed

  /** Reads a parameter string from its right end. */
  function Parse(s: Bytes): Parsed {
    if s == [] then Params([])
    else if |s| < 2 then Malformed
    else
      var n := |s| - 2;
      var l := BeValue(s[n..]);
      if l > n then Malformed
      else match Parse(s[..n - l])
           case Malformed => Malformed
           case Params(ps) => Params(ps + [s[n - l..n]])
  }

  ghost predicate Below(ps: seq<Bytes>, n: nat) {
    forall p <- ps :: |p| < n
  }

  /** Each length fits its two bytes. */
  ghost predicate Short(ps: seq<Bytes>) {
    Below(ps, LEN_LIMIT)
  }

  lemma LenValue(p: Bytes)
    ensures BeValue(LenBytes(p)) == |p| % LEN_LIMIT
  {
    Pow2Values();
    ValueFits(2, |p| % LEN_LIMIT);
  }

  lemma EncodeStep(ps: seq<Bytes>, p: Bytes)
    ensures Encode(ps + [p]) == Encode(ps) + p + LenBytes(p)
  {
    assert (ps + [p])[..|ps|] == ps;
  }

  /** Each parameter is followed by its length modulo 65536 in two octets. */
  lemma EncodeLaw(ps: seq<Bytes>, p: Bytes)
    ensures Encode([]) == []
    ensures Encode(ps + [p]) == Encode(ps) + p + [|p| / 256 % 256, |p| % 256]
  {
    EncodeStep(ps, p);
    TwoOctets(|p| % LEN_LIMIT);
    LowPair(|p|);
  }

  lemma LowPair(n: nat)
    ensures n % 65536 / 256 % 256 == n / 256 % 256 && n % 65536 % 256 == n % 256
  {
    DivTwice(n, 256);
    DivModUnique(n % 65536, n / 256 % 256, 256, n % 256);
  }

  lemma ParseStep(front: Bytes, p: Bytes, l: Bytes)
    requires |l| == 2 && BeValue(l) == |p| && Parse(front).Params?
    ensures Parse(front + p + l) == Params(Parse(front).ps + [p])
  {
    var s := front + p + l;
    assert s[|s| - 2..] == l;
    assert s[..|s| - 2 - |p|] == front;
    assert s[|s| - 2 - |p|..|s| - 2] == p;
  }

  lemma ParseLast(front: seq<Bytes>, p: Bytes)
    requires Parse(Encode(front)) == Params(front) && |p| < LEN_LIMIT
    ensures Parse(Encode(front + [p])) == Params(front + [p])
  {
    LenValue(p);
    ParseStep(Encode(front), p, LenBytes(p));
    EncodeStep(front, p);
  }

  lemma {:induction false} ParseInverts(ps: seq<Bytes>)
    requires Short(ps)
    ensures Parse(Encode(ps)) == Params(ps)
  {
    if ps != [] {
      var front, p := ps[..|ps| - 1], ps[|ps| - 1];
      assert ps == front + [p];
      ParseInverts(front);
      ParseLast(front, p);
    }
  }

  lemma LenOfRead(l: Bytes, p: Bytes)
    requires |l| == 2 && BeValue(l) == |p|
    ensures LenBytes(p) == l
  {
    BeBounded(l);
    Pow2Values();
    BytesOfValue(l);
  }

  lemma Pieces(s: Bytes, i: nat, j: nat)
    requires i <= j <= |s|
    ensures s == s[..i] + s[i..j] + s[j..]
  {}

  /** Every string the parser accepts is the encoding of what it found. */
  lemma {:induction false} EncodeInverts(s: Bytes)
    requires Parse(s).Params?
    ensures Encode(Parse(s).ps) == s
  {
    if s != [] {
      var n := |s| - 2;
      var k := n - BeValue(s[n..]);
      EncodeInverts(s[..k]);
      LenOfRead(s[n..], s[k..n]);
      EncodeStep(Parse(s[..k]).ps, s[k..n]);
      Pieces(s, k, n);
    }
  }

  /** One FC byte and short parameters: equal strings have equal parts, whatever the
      numbers of parameters. */
  lemma KdfInputInjective(fc: Byte, ps: seq<Bytes>, fc': Byte, ps': seq<Bytes>)
    requires Short(ps) && Short(ps')
    ensures [fc] + Encode(ps) == [fc'] + Encode(ps') <==> fc == fc' && ps == ps'
  {
    ParseInverts(ps);
    ParseInverts(ps');
    if [fc] + Encode(ps) == [fc'] + Encode(ps') {
      assert ([fc] + Encode(ps))[0] == fc && ([fc'] + Encode(ps'))[0] == fc';
      assert ([fc] + Encode(ps))[1..] == Encode(ps);
      assert ([fc'] + Encode(ps'))[1..] == Encode(ps');
    }
  }

  function EmptyOnes(n: nat): (ps: seq<Bytes>)
    ensures |ps| == n
  {
    if n == 0 then [] else EmptyOnes(n - 1) + [[]]
  }

  lemma OneEmpty(ps: seq<Bytes>)
    ensures Encode(ps + [[]]) == Encode(ps) + Zeros(2)
  {
    EncodeStep(ps, []);
    ZeroLength([]);
  }

  lemma MoreZeros(n: nat)
    requires n > 0
    ensures Zeros(2 * (n - 1)) + Zeros(2) == Zeros(2 * n)
  {}

  lemma {:induction false} EmptyParams(n: nat)
    ensures Encode(EmptyOnes(n)) == Zeros(2 * n)
  {
    if n > 0 {
      EmptyParams(n - 1);
      OneEmpty(EmptyOnes(n - 1));
      MoreZeros(n);
    }
  }

  lemma ZeroLength(p: Bytes)
    requires |p| % LEN_LIMIT == 0
    ensures LenBytes(p) == Zeros(2)
  {
    assert |BeBytes(0, 0)| == 0;
    assert BeBytes(1, 0) == [0];
  }

  /** A parameter of 65536 zero bytes and 32769 empty ones give the same string. */
  lemma LongParamCollides()
    ensures Encode([Zeros(LEN_LIMIT)]) == Encode(EmptyOnes(LEN_LIMIT / 2 + 1))
  {
    EmptyParams(LEN_LIMIT / 2 + 1);
    var p: Bytes := Zeros(LEN_LIMIT);
    ZeroLength(p);
    EncodeStep([], p);
    assert [] + [p] == [p];
  }

  ghost predicate Injective(n: nat) {
    forall ps: seq<Bytes>, qs: seq<Bytes> ::
      Below(ps, n) && Below(qs, n) && Encode(ps) == Encode(qs) ==> ps == qs
  }

  /** The string determines a list of parameters, among the lists whose parameters are
      all under n bytes, if and only if n is at most 65536. */
  lemma InjectiveIff(n: nat)
    ensures Injective(n) <==> n <= LEN_LIMIT
  {
    if n <= LEN_LIMIT {
      forall ps: seq<Bytes>, qs: seq<Bytes> | Below(ps, n) && Below(qs, n) && Encode(ps) == Encode(qs)
        ensures ps == qs
      {
        ParseInverts(ps);
        ParseInverts(qs);
      }
    } else {
      CollidingLists(n);
    }
  }

  lemma CollidingLists(n: nat)
    requires n > LEN_LIMIT
    ensures !Injective(n)
  {
    var ps, qs := [Zeros(LEN_LIMIT)], EmptyOnes(LEN_LIMIT / 2 + 1);
    LongParamCollides();
    AllEmpty(LEN_LIMIT / 2 + 1);
    assert Below(ps, n) && Below(qs, n) && Encode(ps) == Encode(qs);
    assert |ps| != |qs|;
  }

  lemma {:induction false} AllEmpty(n: nat)
    ensures forall p <- EmptyOnes(n) :: |p| == 0
  {
    if n > 0 {
      AllEmpty(n - 1);
    }
  }

  // ---- FC -----------------------------------------------------------------------

  const FC_FOR_CK_PRIME_IK_PRIME_DERIVATION := "20"
  const FC_FOR_ALGORITHM_KEY_DERIVATION := "69"
  const FC_FOR_KAUSF_DERIVATION := "6A"
  const FC_FOR_RES_STAR_XRES_STAR_DERIVATION := "6B"
  const FC_FOR_KSEAF_DERIVATION := "6C"
  const FC_FOR_KAMF_DERIVATION := "6D"
  const FC_FOR_KAMF_PRIME_DERIVATION := "72"
  const FC_FOR_KGNB_KN3IWF_DERIVATION := "6E"
  const FC_FOR_NH_DERIVATION := "6F"

  /** The FC values of Annex B.2.2 of TS 33.220 as numbers. */
  function FcByte(fc: string): Byte
    requires |fc| == 2 && HexDigit(fc[0]) >= 0 && HexDigit(fc[1]) >= 0
  {
    LowByte(16 * HexDigit(fc[0]) + HexDigit(fc[1]))
  }

  predicate OneByteFc(fc: string) {
    |fc| == 2 && HexDigit(fc[0]) >= 0 && HexDigit(fc[1]) >= 0
  }

  lemma FcDecodes(fc: string)
    requires OneByteFc(fc)
    ensures HexDecode(fc) == Decoded([FcByte(fc)])
  {
    assert fc[2..] == "";
    assert HexDecode("") == Decoded([]);
  }

  /** What KDF hashes for a one-byte FC. */
  function KdfOf(hmac: Hmac, key: Bytes, fc: string, ps: seq<Bytes>): Digest
    requires OneByteFc(fc)
  {
    hmac(key, [FcByte(fc)] + Encode(ps))
  }

  // ---- the functions --------------------------------------------------------------

  /** kdfLen: the length modulo 65536 written big-endian. */
  method KdfLen(input: Bytes) returns (r: Bytes)
    ensures r == LenBytes(input)
    ensures BeValue(r) == |input| % LEN_LIMIT
  {
    r := BeBytes(2, |input| % LEN_LIMIT);
    LenValue(input);
  }

  method KDF(hmac: Hmac, key: Bytes, fc: string, param: seq<Bytes>) returns (sum: Bytes, ok: bool)
    ensures ok <==> HexDecode(fc).Decoded?
    ensures ok ==> sum == hmac(key, HexDecode(fc).bytes + Encode(param))
    ensures ok && OneByteFc(fc) ==> sum == KdfOf(hmac, key, fc, param)
    ensures !ok ==> sum == []
  {
    var h := HexDecode(fc);
    if h.BadHex? {
      return [], false;
    }
    var s := h.bytes;
    for i := 0 to |param|
      invariant s == h.bytes + Encode(param[..i])
    {
      var p := param[i];
      var l := KdfLen(p);
      s := s + p + l;
      assert param[..i + 1][..i] == param[..i];
    }
    assert param[..|param|] == param;
    if OneByteFc(fc) {
      FcDecodes(fc);
    }
    return hmac(key, s), true;
  }

  const ALL_FC: seq<string> := [
    FC_FOR_CK_PRIME_IK_PRIME_DERIVATION, FC_FOR_ALGORITHM_KEY_DERIVATION, FC_FOR_KAUSF_DERIVATION,
    FC_FOR_RES_STAR_XRES_STAR_DERIVATION, FC_FOR_KSEAF_DERIVATION, FC_FOR_KAMF_DERIVATION,
    FC_FOR_KAMF_PRIME_DERIVATION, FC_FOR_KGNB_KN3IWF_DERIVATION, FC_FOR_NH_DERIVATION]

  /** Under one key two different derivations never hash the same string. */
  lemma DerivationsSeparate(i: nat, j: nat, ps: seq<Bytes>, ps': seq<Bytes>)
    requires i < j < |ALL_FC|
    ensures OneByteFc(ALL_FC[i]) && OneByteFc(ALL_FC[j])
    ensures [FcByte(ALL_FC[i])] + Encode(ps) != [FcByte(ALL_FC[j])] + Encode(ps')
  {
    var codes := [0x20, 0x69, 0x6A, 0x6B, 0x6C, 0x6D, 0x72, 0x6E, 0x6F];
    FcCode(i);
    FcCode(j);
    assert ([FcByte(ALL_FC[i])] + Encode(ps))[0] != ([FcByte(ALL_FC[j])] + Encode(ps'))[0];
  }

  lemma FcCode(i: nat)
    requires i < |ALL_FC|
    ensures OneByteFc(ALL_FC[i])
    ensures FcByte(ALL_FC[i]) == [0x20, 0x69, 0x6A, 0x6B, 0x6C, 0x6D, 0x72, 0x6E, 0x6F][i]
  {}
}
