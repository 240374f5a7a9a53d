/** The UE side of 5G AKA (internal/context/uecontext/auth.go), and the network side
    it must agree with: sections 6.3.3 and 6.3.5 of 3GPP TS 33.102, Annexes A.2, A.4,
    A.6 and A.7 of 3GPP TS 33.501. */
module Auth {
  import opened Bytes
  import opened Sqn
  import opened Milenage
  import opened Kdf

  /** What the answer to a challenge depends on.  `resRand` is the rand field of
      AuthContext, which only RES* is derived from. */
  datatype Ue = Ue(e: Cipher, opc: Block, rand: Block, resRand: Bytes, amf: Bytes,
                   snn: Bytes, supi: Bytes, sqn: nat, kamf: Bytes)

  /** Panic: a slice of AUTN or SUPI out of range, which stops the program. */
  datatype Outcome = Success(resStar: Bytes) | MacFailure | SyncFailure(auts: Bytes) | Panic

  const AUTN_MIN := 8
  const SUPI_PREFIX := 5

  // ---- the network side -----------------------------------------------------------

  function CkIk(e: Cipher, opc: Block, rand: Block): Bytes {
    F3Of(e, opc, rand) + F4Of(e, opc, rand)
  }

  /** KAMF from CK || IK by way of KAUSF and KSEAF. */
  function KamfChain(hmac: Hmac, key: Bytes, snn: Bytes, supi: Bytes, abba: Bytes, sqnXorAk: Bytes): Bytes {
    var kausf := KdfOf(hmac, key, FC_FOR_KAUSF_DERIVATION, [snn, sqnXorAk]);
    var kseaf := KdfOf(hmac, kausf, FC_FOR_KSEAF_DERIVATION, [snn]);
    KdfOf(hmac, kseaf, FC_FOR_KAMF_DERIVATION, [supi, abba])
  }

  /** The network's KAMF; `sqnXorAk` is the first six octets of AUTN. */
  function NetworkKamf(hmac: Hmac, e: Cipher, opc: Block, rand: Block,
                       snn: Bytes, supi: Bytes, abba: Bytes, sqnXorAk: Bytes): Bytes {
    KamfChain(hmac, CkIk(e, opc, rand), snn, supi, abba, sqnXorAk)
  }

  /** The input of the RES* derivation, with the RAND it is told. */
  function ResStarParams(e: Cipher, opc: Block, rand: Block, snn: Bytes, told: Bytes): seq<Bytes> {
    [snn, told, F2Of(e, opc, rand)]
  }

  /** The 128 least significant bits of the KDF output. */
  function LowResStar(hmac: Hmac, e: Cipher, opc: Block, rand: Block, snn: Bytes, told: Bytes): (r: Bytes)
    ensures |r| == 16
  {
    KdfOf(hmac, CkIk(e, opc, rand), FC_FOR_RES_STAR_XRES_STAR_DERIVATION, ResStarParams(e, opc, rand, snn, told))[16..]
  }

  /** XRES* of the network, which knows the one RAND of its challenge. */
  function XresStar(hmac: Hmac, e: Cipher, opc: Block, rand: Block, snn: Bytes): Bytes {
    LowResStar(hmac, e, opc, rand, snn, rand)
  }

  /** RES* of the UE, whose authentication context has a RAND field of its own. */
  function ResStar(hmac: Hmac, u: Ue): Bytes {
    LowResStar(hmac, u.e, u.opc, u.rand, u.snn, u.resRand)
  }

  /** AUTN = (SQN xor AK) || AMF || MAC. */
  function HonestAutn(e: Cipher, opc: Block, rand: Block, sqn: nat, amf: Bytes): (autn: Bytes)
    requires |amf| == 2
    ensures |autn| == 16
  {
    Xor(SqnBytes(sqn), F5Of(e, opc, rand)) + amf + F1Of(e, opc, rand, SqnBytes(sqn), amf)
  }

  // ---- the answer -----------------------------------------------------------------

  function RecoveredSqn(u: Ue, autn: Bytes): (s: Bytes)
    requires |autn| >= AUTN_MIN
    ensures |s| == 6
  {
    Xor(autn[..6], F5Of(u.e, u.opc, u.rand))
  }

  /** F1 fails on an AMF that is not two bytes; its error is dropped and the MAC it
      then returns is empty. */
  function ExpectedMac(u: Ue, sqn: Bytes): Bytes
    requires |sqn| == 6
  {
    if |u.amf| == 2 then F1Of(u.e, u.opc, u.rand, sqn, u.amf) else []
  }

  predicate MacMatches(u: Ue, autn: Bytes)
    requires |autn| >= AUTN_MIN
  {
    autn[8..] == ExpectedMac(u, RecoveredSqn(u, autn))
  }

  /** AUTS = (SQN_MS xor AK*) || MAC-S, MAC-S over the dummy AMF. */
  function AutsOf(u: Ue): (auts: Bytes)
    ensures |auts| == 14
  {
    var s := SqnBytes(u.sqn);
    Xor(s, F5StarOf(u.e, u.opc, u.rand)) + F1StarOf(u.e, u.opc, u.rand, s, Zeros(2))
  }

  /** The challenge is neither a MAC nor a synchronisation failure. */
  predicate Passes(u: Ue, autn: Bytes)
    requires |autn| >= AUTN_MIN
  {
    MacMatches(u, autn) && u.sqn <= SqnOf(RecoveredSqn(u, autn))
  }

  function Answer(hmac: Hmac, u: Ue, autn: Bytes, abba: Bytes): Outcome {
    if |autn| < AUTN_MIN then Panic
    else if !MacMatches(u, autn) then MacFailure
    else if u.sqn > SqnOf(RecoveredSqn(u, autn)) then SyncFailure(AutsOf(u))
    else if |u.supi| < SUPI_PREFIX then Panic
    else Success(ResStar(hmac, u))
  }

  /** The UE afterwards: only a challenge that passes moves the SQN, and replaces KAMF
      when the SUPI can be cut. */
  function After(hmac: Hmac, u: Ue, autn: Bytes, abba: Bytes): Ue {
    if |autn| < AUTN_MIN || !Passes(u, autn) then u
    else
      var v := u.(sqn := SqnOf(RecoveredSqn(u, autn)));
      if |u.supi| < SUPI_PREFIX then v
      else v.(kamf := NetworkKamf(hmac, u.e, u.opc, u.rand, u.snn, u.supi[SUPI_PREFIX..], abba, autn[..6]))
  }

  // ---- the object -------------------------------------------------------------------

  class AuthContext {
    const hmac: Hmac
    const supi: Bytes
    const snn: Bytes
    const amf: Bytes
    const sqn: Sqn
    const milenage: Milenage
    var kamf: Bytes
    var rand: Bytes

    constructor (hmac: Hmac, supi: Bytes, snn: Bytes, amf: Bytes, kamf: Bytes, rand: Bytes, m: Milenage)
      requires m.Valid()
      ensures Valid() && fresh(sqn) && sqn.value == 0 && milenage == m
      ensures this.hmac == hmac && this.supi == supi && this.snn == snn && this.amf == amf
      ensures this.kamf == kamf && this.rand == rand
    {
      this.hmac, this.supi, this.snn, this.amf := hmac, supi, snn, amf;
      this.kamf, this.rand, this.milenage := kamf, rand, m;
      this.sqn := new Sqn();
    }

    ghost predicate Valid()
      reads this, sqn, milenage, milenage.opc, milenage.randxor, milenage.rand
    {
      sqn.Valid() && milenage.Valid()
    }

    ghost function View(): Ue
      requires Valid()
      reads this, sqn, milenage, milenage.opc, milenage.randxor, milenage.rand
    {
      Ue(milenage.block, milenage.opc[..], milenage.rand[..], rand, amf, snn, supi, sqn.value as nat, kamf)
    }

    /** Two XOR loops undo each other on the way: the SQN is taken out of AUTN with
        AK and put back for KAUSF, so the derivations use the octets received. */
    method ProcessAuthenticationInfo(autn: Bytes, abba: Bytes) returns (r: Outcome)
      requires Valid()
      modifies this`kamf, sqn
      ensures Valid()
      ensures r == Answer(hmac, old(View()), autn, abba)
      ensures View() == After(hmac, old(View()), autn, abba)
    {
      var ueSqn := sqn.Bytes();
      var res, ak := milenage.F2F5();
      var ck := milenage.F3();
      var ik := milenage.F4();
      var key := ck + ik;

      if |autn| < AUTN_MIN {
        return Panic;
      }
      var netMacA := autn[8..];
      var netSqn := XorLoop(autn[0..6], ak);
      var macA, _, _ := milenage.F1(netSqn, amf);
      if macA != netMacA {
        return MacFailure;
      }

      var tmpSqn := new Sqn();
      tmpSqn.Set(netSqn);
      if sqn.value > tmpSqn.value {
        var auts := PrepareAuts(ueSqn);
        return SyncFailure(auts);
      }
      sqn.Set(netSqn);
      XorCancels(autn[0..6], ak);
      assert Xor(netSqn, ak) == autn[..6];
      r := DeriveKeys(key, netSqn, ak, res, abba);
    }

    /** Steps 5 and 6, with the second XOR loop. */
    method DeriveKeys(key: Bytes, netSqn: Bytes, ak: Bytes, res: Bytes, abba: Bytes) returns (r: Outcome)
      requires |netSqn| == |ak|
      modifies this`kamf
      ensures |supi| < SUPI_PREFIX ==> r == Panic && kamf == old(kamf)
      ensures |supi| >= SUPI_PREFIX ==>
        && kamf == KamfChain(hmac, key, snn, supi[SUPI_PREFIX..], abba, Xor(netSqn, ak))
        && OneByteFc(FC_FOR_RES_STAR_XRES_STAR_DERIVATION)
        && r == Success(KdfOf(hmac, key, FC_FOR_RES_STAR_XRES_STAR_DERIVATION, [snn, rand, res])[16..])
    {
      var sqnXorAk := XorLoop(netSqn, ak);
      if |supi| < SUPI_PREFIX {
        return Panic;
      }
      DeriveKamf(key, sqnXorAk, abba);
      var _, output := ResstarXresstar(hmac, key, snn, rand, res);
      r := Success(output);
    }

    /** Step 4.1: the resynchronisation token, with the dummy AMF. */
    method PrepareAuts(ueSqn: Bytes) returns (auts: Bytes)
      requires Valid() && ueSqn == SqnBytes(sqn.value as nat)
      ensures auts == AutsOf(View())
    {
      var akStar := milenage.F5star();
      var _, macS, _ := milenage.F1(ueSqn, [0, 0]);
      assert [0, 0] == Zeros(2);
      var sqnXorAk := XorLoop(ueSqn, akStar);
      auts := sqnXorAk + macS;
    }

    /** Step 5: KAUSF, KSEAF, KAMF. */
    method DeriveKamf(key: Bytes, sqnXorAk: Bytes, abba: Bytes)
      requires |supi| >= SUPI_PREFIX
      modifies this`kamf
      ensures kamf == KamfChain(hmac, key, snn, supi[SUPI_PREFIX..], abba, sqnXorAk)
    {
      FcCode(2);
      FcCode(4);
      FcCode(5);
      var kAusf, _ := KDF(hmac, key, FC_FOR_KAUSF_DERIVATION, [snn, sqnXorAk]);
      var kSeaf, _ := KDF(hmac, kAusf, FC_FOR_KSEAF_DERIVATION, [snn]);
      var newKamf, _ := KDF(hmac, kSeaf, FC_FOR_KAMF_DERIVATION, [supi[SUPI_PREFIX..], abba]);
      kamf := newKamf;
    }
  }

  /** ueauth.ResstarXresstar: the two halves of the KDF output. */
  method ResstarXresstar(hmac: Hmac, key: Bytes, servingnet: Bytes, rand: Bytes, res: Bytes)
    returns (resstar: Bytes, xresstar: Bytes)
    ensures |resstar| == |xresstar| == 16
    ensures resstar + xresstar == KdfOf(hmac, key, FC_FOR_RES_STAR_XRES_STAR_DERIVATION, [servingnet, rand, res])
  {
    FcCode(3);
    FcDecodes(FC_FOR_RES_STAR_XRES_STAR_DERIVATION);
    var buf, _ := KDF(hmac, key, FC_FOR_RES_STAR_XRES_STAR_DERIVATION, [servingnet, rand, res]);
    var l := |buf| / 2;
    return buf[..l], buf[l..];
  }
}
