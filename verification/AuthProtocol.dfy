/** Challenges and resynchronisation, one by one and over whole runs. */
module AuthProtocol {
  import opened Bytes
  import opened Sqn
  import opened Milenage
  import opened Kdf
  import opened Auth

  // ---- one challenge ----------------------------------------------------------------

  /** A challenge succeeds exactly when its MAC is the one for the SQN it carries and
      that SQN is at least the UE's; one that is turned down changes nothing. */
  lemma SucceedsIff(hmac: Hmac, u: Ue, autn: Bytes, abba: Bytes)
    requires u.sqn <= SQN_MAX as nat
    ensures Answer(hmac, u, autn, abba).Success? <==>
      && |autn| >= AUTN_MIN && |u.supi| >= SUPI_PREFIX
      && u.sqn <= BeValue(RecoveredSqn(u, autn))
      && autn[8..] == ExpectedMac(u, RecoveredSqn(u, autn))
    ensures Answer(hmac, u, autn, abba).MacFailure? || Answer(hmac, u, autn, abba).SyncFailure? ==>
      After(hmac, u, autn, abba) == u
    ensures u.sqn <= After(hmac, u, autn, abba).sqn <= SQN_MAX as nat
  {
    if |autn| >= AUTN_MIN {
      var sqn := RecoveredSqn(u, autn);
      assert SixBytes(sqn) == sqn;
      SqnInRange(sqn);
    }
  }

  /** The program stops exactly on an AUTN too short to hold a MAC, and on a SUPI too
      short to be cut once the challenge has passed. */
  lemma PanicsIff(hmac: Hmac, u: Ue, autn: Bytes, abba: Bytes)
    ensures Answer(hmac, u, autn, abba).Panic? <==>
      |autn| < AUTN_MIN || (|u.supi| < SUPI_PREFIX && Passes(u, autn))
  {}

  /** The MAC that is checked is f1 over the configured AMF if and only if that has two
      bytes; for any other AMF every AUTN of exactly eight bytes passes. */
  lemma MacIsF1Iff(u: Ue, autn: Bytes)
    requires |autn| >= AUTN_MIN
    ensures |u.amf| == 2 ==>
      (MacMatches(u, autn) <==> autn[8..] == F1Of(u.e, u.opc, u.rand, RecoveredSqn(u, autn), u.amf))
    ensures |u.amf| != 2 ==> (MacMatches(u, autn) <==> |autn| == 8)
  {}

  /** The two AMF octets of AUTN have no influence on anything. */
  lemma AmfFieldIgnored(hmac: Hmac, u: Ue, autn: Bytes, abba: Bytes, field: Bytes)
    requires |autn| >= AUTN_MIN && |field| == 2
    ensures Answer(hmac, u, autn[..6] + field + autn[8..], abba) == Answer(hmac, u, autn, abba)
    ensures After(hmac, u, autn[..6] + field + autn[8..], abba) == After(hmac, u, autn, abba)
  {
    var other := autn[..6] + field + autn[8..];
    assert other[..6] == autn[..6];
    assert other[8..] == autn[8..];
  }

  // ---- a challenge written out ---------------------------------------------------------

  /** s is the first six octets of AUTN xor AK. */
  ghost predicate IsRecovered(u: Ue, autn: Bytes, s: Bytes)
    requires |autn| >= 8
  {
    |s| == 6 && forall k: nat :: k < 6 ==> s[k] == XorByte(autn[k], F5Of(u.e, u.opc, u.rand)[k])
  }

  lemma RecoveredIs(u: Ue, autn: Bytes, s: Bytes)
    requires |autn| >= 8 && IsRecovered(u, autn, s)
    ensures RecoveredSqn(u, autn) == s && SqnOf(s) == BeValue(s)
  {
    assert SixBytes(s) == s;
  }

  /** KAMF: the HMACs of KAUSF, KSEAF and KAMF one in the other, with the function codes
      and parameters of Annexes A.2, A.6 and A.7 of TS 33.501. */
  lemma KamfWritten(hmac: Hmac, u: Ue, abba: Bytes, sqnXorAk: Bytes)
    requires |u.supi| >= 5
    ensures var key := F3Of(u.e, u.opc, u.rand) + F4Of(u.e, u.opc, u.rand);
      var kausf := hmac(key, [0x6A] + Encode([u.snn, sqnXorAk]));
      var kseaf := hmac(kausf, [0x6C] + Encode([u.snn]));
      NetworkKamf(hmac, u.e, u.opc, u.rand, u.snn, u.supi[5..], abba, sqnXorAk)
      == hmac(kseaf, [0x6D] + Encode([u.supi[5..], abba]))
  {
    FcCode(2);
    FcCode(4);
    FcCode(5);
  }

  /** RES*: the second half of the HMAC with the function code and parameters of Annex A.4
      of TS 33.501. */
  lemma ResStarWritten(hmac: Hmac, u: Ue)
    ensures var key := F3Of(u.e, u.opc, u.rand) + F4Of(u.e, u.opc, u.rand);
      ResStar(hmac, u) == hmac(key, [0x6B] + Encode([u.snn, u.resRand, F2Of(u.e, u.opc, u.rand)]))[16..]
  {
    FcCode(3);
  }

  /** Every accepted challenge: what the UE answers and keeps. */
  lemma AcceptedWritten(hmac: Hmac, u: Ue, autn: Bytes, abba: Bytes, s: Bytes)
    requires |autn| >= 8 && IsRecovered(u, autn, s) && Answer(hmac, u, autn, abba).Success?
    ensures var key := F3Of(u.e, u.opc, u.rand) + F4Of(u.e, u.opc, u.rand);
      var kausf := hmac(key, [0x6A] + Encode([u.snn, autn[..6]]));
      var kseaf := hmac(kausf, [0x6C] + Encode([u.snn]));
      var kamf := hmac(kseaf, [0x6D] + Encode([u.supi[5..], abba]));
      && |u.supi| >= 5
      && After(hmac, u, autn, abba) == u.(sqn := BeValue(s), kamf := kamf)
      && Answer(hmac, u, autn, abba).resStar
         == hmac(key, [0x6B] + Encode([u.snn, u.resRand, F2Of(u.e, u.opc, u.rand)]))[16..]
  {
    RecoveredIs(u, autn, s);
    KamfWritten(hmac, u, abba, autn[..6]);
    ResStarWritten(hmac, u);
  }

  /** Which answer a challenge gets, in the order of the checks. */
  lemma AnswerWritten(hmac: Hmac, u: Ue, autn: Bytes, abba: Bytes, s: Bytes)
    requires |autn| >= 8 && IsRecovered(u, autn, s)
    ensures var reply := Answer(hmac, u, autn, abba);
      var mac := if |u.amf| == 2 then F1Of(u.e, u.opc, u.rand, s, u.amf) else [];
      && (reply.MacFailure? <==> autn[8..] != mac)
      && (reply.SyncFailure? <==> autn[8..] == mac && BeValue(s) < u.sqn)
      && (reply.Panic? <==> autn[8..] == mac && u.sqn <= BeValue(s) && |u.supi| < 5)
      && (reply.SyncFailure? ==> |reply.auts| == 14)
      && (reply.SyncFailure? ==> forall k: nat :: k < 6 ==>
            reply.auts[k] == XorByte(SqnBytes(u.sqn)[k], F5StarOf(u.e, u.opc, u.rand)[k]))
      && (reply.SyncFailure? ==> reply.auts[6..] == F1StarOf(u.e, u.opc, u.rand, SqnBytes(u.sqn), [0, 0]))
  {
    RecoveredIs(u, autn, s);
    assert Zeros(2) == [0, 0];
    var auts := AutsOf(u);
    assert auts[6..] == F1StarOf(u.e, u.opc, u.rand, SqnBytes(u.sqn), Zeros(2));
  }

  // ---- RES* -------------------------------------------------------------------------

  lemma SameLengthTail(front: Bytes, p: Bytes, q: Bytes, back: Bytes)
    requires front + p + LenBytes(p) + back == front + q + LenBytes(q) + back
    ensures p == q
  {
    var s := front + p + LenBytes(p) + back;
    assert |p| == |q|;
    assert s[|front|..|front| + |p|] == p;
    assert s[|front|..|front| + |q|] == q;
  }

  /** A parameter in the middle can be told from the string, whatever its length. */
  lemma MiddleParam(a: Bytes, p: Bytes, q: Bytes, c: Bytes)
    requires Encode([a, p, c]) == Encode([a, q, c])
    ensures p == q
  {
    var back := c + LenBytes(c);
    forall x: Bytes ensures Encode([a, x, c]) == Encode([a]) + x + LenBytes(x) + back {
      assert [a] + [x] == [a, x] && [a, x] + [c] == [a, x, c];
      EncodeStep([a], x);
      EncodeStep([a, x], c);
    }
    SameLengthTail(Encode([a]), p, q, back);
  }

  /** An HMAC that only tells whether its message is m. */
  function Telltale(m: Bytes): Hmac {
    (key: Bytes, x: Bytes) => if x == m then Zeros(31) + [1] else Zeros(32)
  }

  ghost predicate ResStarAgrees(hmac: Hmac, e: Cipher, opc: Block, snn: Bytes, rand: Block, told: Bytes) {
    LowResStar(hmac, e, opc, rand, snn, told) == XresStar(hmac, e, opc, rand, snn)
  }

  /** RES* is the network's XRES* under every HMAC if and only if the RAND field of the
      authentication context holds the RAND that MILENAGE was given. */
  lemma ResStarIff(e: Cipher, opc: Block, snn: Bytes, rand: Block, told: Bytes)
    ensures (forall hmac: Hmac :: ResStarAgrees(hmac, e, opc, snn, rand, told)) <==> told == rand
  {
    if told != rand {
      var fc := FC_FOR_RES_STAR_XRES_STAR_DERIVATION;
      FcCode(3);
      var m := [FcByte(fc)] + Encode(ResStarParams(e, opc, rand, snn, told));
      var m' := [FcByte(fc)] + Encode(ResStarParams(e, opc, rand, snn, rand));
      if m == m' {
        assert m[1..] == Encode([snn, told, F2Of(e, opc, rand)]);
        assert m'[1..] == Encode([snn, rand, F2Of(e, opc, rand)]);
        MiddleParam(snn, told, rand, F2Of(e, opc, rand));
      }
      var hmac := Telltale(m);
      assert LowResStar(hmac, e, opc, rand, snn, told)[15] == 1;
      assert LowResStar(hmac, e, opc, rand, snn, rand)[15] == 0;
      assert !ResStarAgrees(hmac, e, opc, snn, rand, told);
    }
  }

  // ---- an honest challenge ------------------------------------------------------------

  /** The network picks the AMF of each challenge. */
  type Amf = s: Bytes | |s| == 2 witness Zeros(2)

  /** The MAC over the network's AMF and the one over the UE's configured AMF coincide. */
  predicate SameMac(u: Ue, n: nat, amf: Amf) {
    && |u.amf| == 2
    && F1Of(u.e, u.opc, u.rand, SqnBytes(n), amf) == F1Of(u.e, u.opc, u.rand, SqnBytes(n), u.amf)
  }

  lemma HonestMac(u: Ue, n: nat, amf: Amf)
    ensures var autn := HonestAutn(u.e, u.opc, u.rand, n, amf);
      && RecoveredSqn(u, autn) == SqnBytes(n)
      && autn[6..8] == amf && autn[8..] == F1Of(u.e, u.opc, u.rand, SqnBytes(n), amf)
      && (MacMatches(u, autn) <==> SameMac(u, n, amf))
  {
    var s, ak := SqnBytes(n), F5Of(u.e, u.opc, u.rand);
    var autn := HonestAutn(u.e, u.opc, u.rand, n, amf);
    assert autn[..6] == Xor(s, ak);
    assert autn[6..8] == amf;
    assert autn[8..] == F1Of(u.e, u.opc, u.rand, s, amf);
    XorCancels(s, ak);
  }

  /** A challenge the network made with the UE's key and RAND, under any AMF, is a MAC
      failure unless the MAC over the UE's configured AMF is the same, as it is when the
      AMFs are.  Else it is accepted exactly when its SQN is not behind, and then both
      sides hold the same SQN and KAMF.  They hold the same RES* when the UE's RAND field
      is the challenge's RAND.  HonestAmfIff and ResStarIff say that nothing less will do. */
  lemma HonestChallenge(hmac: Hmac, u: Ue, n: nat, amf: Amf, abba: Bytes)
    requires |u.supi| >= SUPI_PREFIX && n <= SQN_MAX as nat
    ensures var autn := HonestAutn(u.e, u.opc, u.rand, n, amf);
      var reply, after := Answer(hmac, u, autn, abba), After(hmac, u, autn, abba);
      && reply == (if !SameMac(u, n, amf) then MacFailure
                   else if u.sqn > n then SyncFailure(AutsOf(u))
                   else Success(ResStar(hmac, u)))
      && (reply.Success? ==>
            && after.sqn == n
            && after.kamf == NetworkKamf(hmac, u.e, u.opc, u.rand, u.snn, u.supi[SUPI_PREFIX..], abba,
                                         Xor(SqnBytes(n), F5Of(u.e, u.opc, u.rand)))
            && (u.resRand == u.rand ==> reply.resStar == XresStar(hmac, u.e, u.opc, u.rand, u.snn)))
    ensures amf == u.amf ==> SameMac(u, n, amf)
  {
    HonestMac(u, n, amf);
    SqnRoundTrip(n, SqnBytes(n));
    var autn := HonestAutn(u.e, u.opc, u.rand, n, amf);
    assert autn[..6] == Xor(SqnBytes(n), F5Of(u.e, u.opc, u.rand));
  }

  // ---- the AMF field ------------------------------------------------------------------

  /** The cipher that does nothing: its f1 shows every octet of its input. */
  function Plain(x: Block): Block {
    x
  }

  lemma PlainOctet(opc: Block, rand: Block, s: Bytes, amf: Amf, k: nat)
    requires |s| == 6 && k < 2
    ensures F1Of(Plain, opc, rand, s, amf)[6 + k]
         == XorByte(XorByte(XorByte(XorByte(rand[6 + k], opc[6 + k]), XorByte(amf[k], opc[14 + k])), 0), opc[6 + k])
  {
    var input := XorB(In1(s, amf), opc);
    assert In1(s, amf)[14 + k] == amf[k];
    assert Rot(input, 64)[6 + k] == input[14 + k];
  }

  lemma PlainTells(opc: Block, rand: Block, s: Bytes, amf: Amf, amf': Amf)
    requires |s| == 6 && F1Of(Plain, opc, rand, s, amf) == F1Of(Plain, opc, rand, s, amf')
    ensures amf == amf'
  {
    forall k: nat | k < 2 ensures amf[k] == amf'[k] {
      PlainOctet(opc, rand, s, amf, k);
      PlainOctet(opc, rand, s, amf', k);
      var t := XorByte(rand[6 + k], opc[6 + k]);
      var x, x' := XorByte(amf[k], opc[14 + k]), XorByte(amf'[k], opc[14 + k]);
      XorTells(XorByte(XorByte(t, x), 0), XorByte(XorByte(t, x'), 0), opc[6 + k]);
      XorTells(XorByte(t, x), XorByte(t, x'), 0);
      XorTells(x, x', t);
      XorTells(amf[k], amf'[k], opc[14 + k]);
    }
  }

  /** An honest challenge with SQN n under this AMF is no MAC failure. */
  ghost predicate MacPasses(u: Ue, n: nat, amf: Amf) {
    MacMatches(u, HonestAutn(u.e, u.opc, u.rand, n, amf))
  }

  /** Honest challenges under an AMF pass the MAC check under every cipher if and only if
      it is the UE's configured one. */
  lemma HonestAmfIff(u: Ue, n: nat, amf: Amf)
    ensures (forall e: Cipher :: MacPasses(u.(e := e), n, amf)) <==> amf == u.amf
  {
    forall e: Cipher ensures MacPasses(u.(e := e), n, amf) <==> SameMac(u.(e := e), n, amf) {
      HonestMac(u.(e := e), n, amf);
    }
    if amf != u.amf {
      PlainRefuses(u.(e := Plain), n, amf);
      assert !MacPasses(u.(e := Plain), n, amf);
    }
  }

  lemma PlainRefuses(u: Ue, n: nat, amf: Amf)
    requires u.e == Plain && amf != u.amf
    ensures !SameMac(u, n, amf)
  {
    if SameMac(u, n, amf) {
      PlainTells(u.opc, u.rand, SqnBytes(n), amf, u.amf);
    }
  }

  /** The code's MAC check decides as the standard's, which is over the AMF received. */
  ghost predicate ChecksAsStandard(u: Ue, autn: Bytes)
    requires |autn| == 16
  {
    MacMatches(u, autn) <==> autn[8..] == F1Of(u.e, u.opc, u.rand, RecoveredSqn(u, autn), autn[6..8])
  }

  ghost predicate AlwaysChecksAsStandard(u: Ue, amf: Amf) {
    forall e: Cipher, autn: Bytes :: |autn| == 16 && autn[6..8] == amf ==> ChecksAsStandard(u.(e := e), autn)
  }

  /** On the AUTNs that carry an AMF the check is the standard's, under every cipher, if
      and only if that is the configured AMF. */
  lemma StandardMacIff(u: Ue, amf: Amf)
    ensures AlwaysChecksAsStandard(u, amf) <==> amf == u.amf
  {
    if amf != u.amf {
      var v := u.(e := Plain);
      HonestMac(v, 0, amf);
      PlainRefuses(v, 0, amf);
      assert !ChecksAsStandard(v, HonestAutn(v.e, v.opc, v.rand, 0, amf));
    }
  }

  // ---- resynchronisation ------------------------------------------------------------

  /** The network reads its UE's own SQN out of every AUTS the UE emits. */
  lemma ResyncRoundTrip(hmac: Hmac, u: Ue, autn: Bytes, abba: Bytes)
    requires u.sqn <= SQN_MAX as nat && Answer(hmac, u, autn, abba).SyncFailure?
    ensures var r := ReadAuts(u.e, u.opc, Answer(hmac, u, autn, abba).auts, u.rand);
      r.SqnFound? && r.sqn == SqnBytes(u.sqn) && SqnOf(r.sqn) == u.sqn
  {
    var s, ak := SqnBytes(u.sqn), F5StarOf(u.e, u.opc, u.rand);
    var auts := AutsOf(u);
    assert auts[..6] == Xor(s, ak);
    assert auts[6..] == F1StarOf(u.e, u.opc, u.rand, s, Zeros(2));
    XorCancels(s, ak);
    XorSwaps(ak, Xor(s, ak));
    SqnRoundTrip(u.sqn, s);
  }

  /** After the network resets its counter from an AUTS, its next challenge, under any
      new RAND and AMF, is accepted exactly when its MAC is the one over the configured
      AMF, as it is for that AMF, and the UE's SQN + 32 does not pass SQN_MAX. */
  lemma ResyncConverges(hmac: Hmac, u: Ue, autn: Bytes, abba: Bytes, rand: Block, amf: Amf)
    requires |u.supi| >= SUPI_PREFIX && u.sqn <= SQN_MAX as nat
    requires Answer(hmac, u, autn, abba).SyncFailure?
    ensures var r := ReadAuts(u.e, u.opc, Answer(hmac, u, autn, abba).auts, u.rand);
      var n := AfterReset(r.sqn);
      var u' := After(hmac, u, autn, abba).(rand := rand);
      && (Answer(hmac, u', HonestAutn(u.e, u.opc, rand, n, amf), abba).Success? <==>
            SameMac(u', n, amf) && u.sqn + 32 <= 0xffff_ffff_ffff)
      && (amf == u.amf ==> SameMac(u', n, amf))
  {
    ResyncRoundTrip(hmac, u, autn, abba);
    var r := ReadAuts(u.e, u.opc, Answer(hmac, u, autn, abba).auts, u.rand);
    var u' := After(hmac, u, autn, abba).(rand := rand);
    HonestChallenge(hmac, u', AfterReset(r.sqn), amf, abba);
  }

  // ---- runs -------------------------------------------------------------------------

  /** What is in place when a challenge is processed: the RAND given to SetRand, the one
      in the authentication context, and the two octet strings. */
  datatype Challenge = Challenge(rand: Block, told: Bytes, autn: Bytes, abba: Bytes)

  function Receive(u: Ue, c: Challenge): Ue {
    u.(rand := c.rand, resRand := c.told)
  }

  function Reply(hmac: Hmac, u: Ue, c: Challenge): Outcome {
    Answer(hmac, Receive(u, c), c.autn, c.abba)
  }

  function Step(hmac: Hmac, u: Ue, c: Challenge): (v: Ue)
    ensures v.supi == u.supi && v.amf == u.amf && v.e == u.e && v.opc == u.opc && v.snn == u.snn
  {
    After(hmac, Receive(u, c), c.autn, c.abba)
  }

  function Run(hmac: Hmac, u: Ue, chs: seq<Challenge>): (v: Ue)
    ensures v.supi == u.supi && v.amf == u.amf && v.e == u.e && v.opc == u.opc && v.snn == u.snn
    decreases |chs|
  {
    if chs == [] then u else Run(hmac, Step(hmac, u, chs[0]), chs[1..])
  }

  /** Whatever challenges arrive, the UE's SQN never decreases and stays in 48 bits. */
  lemma {:induction false} SqnNeverDecreases(hmac: Hmac, u: Ue, chs: seq<Challenge>)
    requires u.sqn <= SQN_MAX as nat
    ensures u.sqn <= Run(hmac, u, chs).sqn <= SQN_MAX as nat
    decreases |chs|
  {
    if chs != [] {
      SucceedsIff(hmac, Receive(u, chs[0]), chs[0].autn, chs[0].abba);
      SqnNeverDecreases(hmac, Step(hmac, u, chs[0]), chs[1..]);
    }
  }

  /** What the network chooses for a challenge, and what the UE's context is told. */
  datatype Plan = Plan(amf: Amf, rand: Block, told: Bytes)

  function Honest(e: Cipher, opc: Block, n: nat, p: Plan, abba: Bytes): Challenge {
    Challenge(p.rand, p.told, HonestAutn(e, opc, p.rand, n, p.amf), abba)
  }

  /** The network's challenges with consecutive SQNs from n on. */
  function HonestRun(e: Cipher, opc: Block, n: nat, plans: seq<Plan>, abba: Bytes): (chs: seq<Challenge>)
    ensures |chs| == |plans|
    decreases |plans|
  {
    if plans == [] then [] else [Honest(e, opc, n, plans[0], abba)] + HonestRun(e, opc, Next(n), plans[1..], abba)
  }

  /** The UE accepts the challenge with SQN n and then holds the network's SQN and KAMF,
      and its XRES* too if it was told the right RAND. */
  ghost predicate InStep(hmac: Hmac, u: Ue, n: nat, c: Challenge)
    requires |u.supi| >= SUPI_PREFIX
  {
    var reply, after := Reply(hmac, u, c), Step(hmac, u, c);
    && reply == Success(ResStar(hmac, Receive(u, c)))
    && after.sqn == n
    && after.kamf == NetworkKamf(hmac, u.e, u.opc, c.rand, u.snn, u.supi[SUPI_PREFIX..], c.abba,
                                 Xor(SqnBytes(n), F5Of(u.e, u.opc, c.rand)))
    && (c.told == c.rand ==> reply.resStar == XresStar(hmac, u.e, u.opc, c.rand, u.snn))
  }

  /** At every challenge of the run both sides agree. */
  ghost predicate AllInStep(hmac: Hmac, u: Ue, n: nat, chs: seq<Challenge>)
    requires |u.supi| >= SUPI_PREFIX
    decreases |chs|
  {
    chs == [] || (InStep(hmac, u, n, chs[0]) && AllInStep(hmac, Step(hmac, u, chs[0]), Next(n), chs[1..]))
  }

  lemma HonestStep(hmac: Hmac, u: Ue, n: nat, p: Plan, abba: Bytes)
    requires |u.supi| >= SUPI_PREFIX && n <= SQN_MAX as nat
    ensures InStep(hmac, u, n, Honest(u.e, u.opc, n, p, abba)) <==>
      SameMac(u.(rand := p.rand), n, p.amf) && u.sqn <= n
    ensures p.amf == u.amf ==> SameMac(u.(rand := p.rand), n, p.amf)
  {
    var v := u.(rand := p.rand, resRand := p.told);
    assert SameMac(v, n, p.amf) <==> SameMac(u.(rand := p.rand), n, p.amf);
    HonestChallenge(hmac, v, n, p.amf, abba);
  }

  lemma HonestTail(e: Cipher, opc: Block, n: nat, plans: seq<Plan>, abba: Bytes)
    requires plans != []
    ensures HonestRun(e, opc, n, plans, abba)[0] == Honest(e, opc, n, plans[0], abba)
    ensures HonestRun(e, opc, n, plans, abba)[1..] == HonestRun(e, opc, Next(n), plans[1..], abba)
  {}

  predicate AllUnder(amf: Bytes, plans: seq<Plan>) {
    forall i :: 0 <= i < |plans| ==> plans[i].amf == amf
  }

  /** A network that is not behind and uses the UE's AMF is followed step by step, as long
      as its counter does not wrap: no challenge of an honest run fails, and SQN and KAMF
      agree after each. */
  lemma {:induction false} HonestRunAccepted(hmac: Hmac, u: Ue, n: nat, plans: seq<Plan>, abba: Bytes)
    requires |u.supi| >= SUPI_PREFIX && AllUnder(u.amf, plans)
    requires plans != [] ==> u.sqn <= n && n + |plans| - 1 <= SQN_MAX as nat
    ensures AllInStep(hmac, u, n, HonestRun(u.e, u.opc, n, plans, abba))
    decreases |plans|
  {
    if plans != [] {
      var c := Honest(u.e, u.opc, n, plans[0], abba);
      HonestStep(hmac, u, n, plans[0], abba);
      HonestTail(u.e, u.opc, n, plans, abba);
      HonestRunAccepted(hmac, Step(hmac, u, c), Next(n), plans[1..], abba);
    }
  }

  lemma {:induction false} PlainRunRefused(hmac: Hmac, u: Ue, n: nat, plans: seq<Plan>, abba: Bytes)
    requires |u.supi| >= SUPI_PREFIX && !AllUnder(u.amf, plans) && u.e == Plain
    requires n + |plans| - 1 <= SQN_MAX as nat
    ensures !AllInStep(hmac, u, n, HonestRun(u.e, u.opc, n, plans, abba))
    decreases |plans|
  {
    var c := Honest(u.e, u.opc, n, plans[0], abba);
    HonestTail(u.e, u.opc, n, plans, abba);
    if plans[0].amf != u.amf {
      PlainRefuses(u.(rand := plans[0].rand), n, plans[0].amf);
      HonestStep(hmac, u, n, plans[0], abba);
    } else {
      assert !AllUnder(u.amf, plans[1..]);
      PlainRunRefused(hmac, Step(hmac, u, c), Next(n), plans[1..], abba);
    }
  }

  /** An honest run is followed step by step from start to end. */
  ghost predicate Followed(hmac: Hmac, u: Ue, n: nat, plans: seq<Plan>, abba: Bytes)
    requires |u.supi| >= SUPI_PREFIX
  {
    AllInStep(hmac, u, n, HonestRun(u.e, u.opc, n, plans, abba))
  }

  /** Under every cipher an honest run is followed if and only if all its challenges carry
      the UE's configured AMF. */
  lemma RunAmfIff(hmac: Hmac, u: Ue, n: nat, plans: seq<Plan>, abba: Bytes)
    requires |u.supi| >= SUPI_PREFIX
    requires plans != [] ==> u.sqn <= n && n + |plans| - 1 <= SQN_MAX as nat
    ensures (forall e: Cipher :: Followed(hmac, u.(e := e), n, plans, abba)) <==> AllUnder(u.amf, plans)
  {
    if AllUnder(u.amf, plans) {
      forall e: Cipher ensures Followed(hmac, u.(e := e), n, plans, abba) {
        HonestRunAccepted(hmac, u.(e := e), n, plans, abba);
      }
    } else {
      PlainRunRefused(hmac, u.(e := Plain), n, plans, abba);
      assert !Followed(hmac, u.(e := Plain), n, plans, abba);
    }
  }

  /** In every reply of the run RES* is the network's XRES*. */
  ghost predicate AllResStar(hmac: Hmac, u: Ue, chs: seq<Challenge>)
    decreases |chs|
  {
    chs == [] ||
    (&& Reply(hmac, u, chs[0]) == Success(XresStar(hmac, u.e, u.opc, chs[0].rand, u.snn))
     && AllResStar(hmac, Step(hmac, u, chs[0]), chs[1..]))
  }

  ghost predicate EachAgrees(hmac: Hmac, u: Ue, plans: seq<Plan>) {
    forall i: nat :: i < |plans| ==> ResStarAgrees(hmac, u.e, u.opc, u.snn, plans[i].rand, plans[i].told)
  }

  lemma EachAgreesStep(hmac: Hmac, u: Ue, v: Ue, plans: seq<Plan>)
    requires plans != [] && v.e == u.e && v.opc == u.opc && v.snn == u.snn
    ensures EachAgrees(hmac, u, plans) <==>
      && ResStarAgrees(hmac, u.e, u.opc, u.snn, plans[0].rand, plans[0].told)
      && EachAgrees(hmac, v, plans[1..])
  {
    if EachAgrees(hmac, u, plans) {
      forall i: nat | i < |plans[1..]|
        ensures ResStarAgrees(hmac, v.e, v.opc, v.snn, plans[1..][i].rand, plans[1..][i].told)
      {
        assert plans[1..][i] == plans[i + 1];
      }
    }
    if EachAgrees(hmac, v, plans[1..]) {
      forall i: nat | 0 < i < |plans|
        ensures ResStarAgrees(hmac, u.e, u.opc, u.snn, plans[i].rand, plans[i].told)
      {
        assert plans[i] == plans[1..][i - 1];
      }
    }
  }

  lemma {:induction false} AllResStarIs(hmac: Hmac, u: Ue, n: nat, plans: seq<Plan>, abba: Bytes)
    requires |u.supi| >= SUPI_PREFIX && Followed(hmac, u, n, plans, abba)
    ensures AllResStar(hmac, u, HonestRun(u.e, u.opc, n, plans, abba)) <==> EachAgrees(hmac, u, plans)
    decreases |plans|
  {
    if plans != [] {
      var v := Step(hmac, u, Honest(u.e, u.opc, n, plans[0], abba));
      HonestTail(u.e, u.opc, n, plans, abba);
      AllResStarIs(hmac, v, Next(n), plans[1..], abba);
      EachAgreesStep(hmac, u, v, plans);
    }
  }

  predicate AllTold(plans: seq<Plan>) {
    forall i :: 0 <= i < |plans| ==> plans[i].told == plans[i].rand
  }

  lemma EachAgreesIff(u: Ue, plans: seq<Plan>)
    ensures (forall hmac: Hmac :: EachAgrees(hmac, u, plans)) <==> AllTold(plans)
  {
    if !AllTold(plans) {
      var i: nat :| i < |plans| && plans[i].told != plans[i].rand;
      ResStarIff(u.e, u.opc, u.snn, plans[i].rand, plans[i].told);
      var hmac: Hmac :| !ResStarAgrees(hmac, u.e, u.opc, u.snn, plans[i].rand, plans[i].told);
      assert !EachAgrees(hmac, u, plans);
    }
  }

  /** On an honest run RES* is the network's XRES* at every step. */
  ghost predicate RightThroughout(hmac: Hmac, u: Ue, n: nat, plans: seq<Plan>, abba: Bytes) {
    AllResStar(hmac, u, HonestRun(u.e, u.opc, n, plans, abba))
  }

  lemma RightIffEach(u: Ue, n: nat, plans: seq<Plan>, abba: Bytes)
    requires |u.supi| >= SUPI_PREFIX && AllUnder(u.amf, plans)
    requires plans != [] ==> u.sqn <= n && n + |plans| - 1 <= SQN_MAX as nat
    ensures forall hmac: Hmac :: RightThroughout(hmac, u, n, plans, abba) <==> EachAgrees(hmac, u, plans)
  {
    forall hmac: Hmac
      ensures RightThroughout(hmac, u, n, plans, abba) <==> EachAgrees(hmac, u, plans)
    {
      HonestRunAccepted(hmac, u, n, plans, abba);
      AllResStarIs(hmac, u, n, plans, abba);
    }
  }

  /** Over a whole honest run under the UE's AMF RES* is right under every HMAC if and only
      if the authentication context was told the RAND of every challenge. */
  lemma RunResStarIff(u: Ue, n: nat, plans: seq<Plan>, abba: Bytes)
    requires |u.supi| >= SUPI_PREFIX && AllUnder(u.amf, plans)
    requires plans != [] ==> u.sqn <= n && n + |plans| - 1 <= SQN_MAX as nat
    ensures (forall hmac: Hmac :: RightThroughout(hmac, u, n, plans, abba)) <==> AllTold(plans)
  {
    RightIffEach(u, n, plans, abba);
    EachAgreesIff(u, plans);
    if forall hmac: Hmac :: RightThroughout(hmac, u, n, plans, abba) {
      forall hmac: Hmac ensures EachAgrees(hmac, u, plans) {
        assert RightThroughout(hmac, u, n, plans, abba);
      }
    }
  }

  lemma ResyncState(hmac: Hmac, u: Ue, c: Challenge)
    requires u.sqn + SQN_IND as nat <= SQN_MAX as nat && Reply(hmac, u, c).SyncFailure?
    ensures Step(hmac, u, c).sqn == u.sqn
    ensures var r := ReadAuts(u.e, u.opc, Reply(hmac, u, c).auts, c.rand);
      r.SqnFound? && AfterReset(r.sqn) == u.sqn + SQN_IND as nat
  {
    ResyncRoundTrip(hmac, Receive(u, c), c.autn, c.abba);
  }

  /** After one resynchronisation the UE accepts everything the network sends under the
      UE's AMF, for as long as its counter, restarted 32 above the UE's, does not wrap. */
  lemma ResyncThenRun(hmac: Hmac, u: Ue, c: Challenge, plans: seq<Plan>, abba: Bytes)
    requires |u.supi| >= SUPI_PREFIX && AllUnder(u.amf, plans)
    requires Reply(hmac, u, c).SyncFailure?
    requires plans != [] && u.sqn + SQN_IND as nat + |plans| - 1 <= SQN_MAX as nat
    ensures var r := ReadAuts(u.e, u.opc, Reply(hmac, u, c).auts, c.rand);
      && r.SqnFound?
      && AllInStep(hmac, Step(hmac, u, c), u.sqn + SQN_IND as nat,
           HonestRun(u.e, u.opc, AfterReset(r.sqn), plans, abba))
  {
    ResyncState(hmac, u, c);
    HonestRunAccepted(hmac, Step(hmac, u, c), u.sqn + SQN_IND as nat, plans, abba);
  }
}
