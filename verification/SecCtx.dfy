/** The security context of internal/context/uecontext/secctx.go: the NH/NCC chain of
    Annex A.10 of 3GPP TS 33.501 and the replacement of KAMF.

    The derivations of the sec5g and nas libraries are arbitrary functions that may
    fail; a failed one still returns a value, and the source stores it. */
module SecCtx {
  import opened Bytes

  datatype Key = Key(value: Bytes, ok: bool)

  datatype Sec5g = Sec5g(
    ranKey: (Bytes, Bytes, Bytes) -> Key,
    nhKey: (Bytes, Bytes) -> Key,
    kamfPrime: (Bytes, Bytes, Bytes) -> Key)

  const HDP_HANDOVER: Byte := 1
  const HDP_MOBILITY_UPDATE: Byte := 2

  // Access type distinguishers of Annex A.9 of TS 33.501.
  const ACCESS_3GPP: Byte := 1
  const ACCESS_NON_3GPP: Byte := 2

  const NCC_MODULUS := 8

  // ---- the chain as a function --------------------------------------------------------

  /** The part of the context the chain lives in. */
  datatype As = As(kgnb: Bytes, nh: Bytes, ncc: nat)

  /** NH derived n times over, starting from KgNB. */
  function NhChain(sec: Sec5g, kamf: Bytes, kgnb: Bytes, n: nat): Bytes {
    if n == 0 then kgnb else sec.nhKey(kamf, NhChain(sec, kamf, kgnb, n - 1)).value
  }

  /** UpdateNh: the counter moves and NH is overwritten even when the derivation fails. */
  function Updated(sec: Sec5g, kamf: Bytes, a: As): As {
    As(a.kgnb, sec.nhKey(kamf, a.nh).value, (a.ncc + 1) % NCC_MODULUS)
  }

  function UpdatedN(sec: Sec5g, kamf: Bytes, a: As, n: nat): As {
    if n == 0 then a else Updated(sec, kamf, UpdatedN(sec, kamf, a, n - 1))
  }

  /** After DeriveAsKeys and n calls of UpdateNh under the same KAMF, NH has been
      derived n + 1 times from KgNB and NCC counts those derivations modulo eight. */
  lemma {:induction false} ChainInStep(sec: Sec5g, kamf: Bytes, kgnb: Bytes, n: nat)
    ensures var start := As(kgnb, sec.nhKey(kamf, kgnb).value, 1);
      UpdatedN(sec, kamf, start, n) == As(kgnb, NhChain(sec, kamf, kgnb, n + 1), (n + 1) % 8)
  {
    if n == 0 {
      assert NhChain(sec, kamf, kgnb, 0) == kgnb;
    } else {
      ChainInStep(sec, kamf, kgnb, n - 1);
      CountOn(n);
    }
  }

  lemma CountOn(n: nat)
    ensures (n % NCC_MODULUS + 1) % NCC_MODULUS == (n + 1) % NCC_MODULUS
  {}

  lemma SameCount(m: nat, n: nat)
    ensures (m + 1) % NCC_MODULUS == (n + 1) % NCC_MODULUS <==> (m - n) % NCC_MODULUS == 0
  {}

  /** NCC alone does not tell two states of the chain apart that lie a multiple of
      eight derivations apart, and tells all others apart. */
  lemma NccWindow(sec: Sec5g, kamf: Bytes, kgnb: Bytes, m: nat, n: nat)
    ensures var start := As(kgnb, sec.nhKey(kamf, kgnb).value, 1);
      UpdatedN(sec, kamf, start, m).ncc == UpdatedN(sec, kamf, start, n).ncc <==> (m - n) % 8 == 0
  {
    ChainInStep(sec, kamf, kgnb, m);
    ChainInStep(sec, kamf, kgnb, n);
    SameCount(m, n);
  }

  // ---- the objects --------------------------------------------------------------------

  datatype NasKeys = NoKeys | Keyed(enc: Byte, integ: Byte, kamf: Bytes)

  /** A NAS context: its counters, and what its keys were last derived from. */
  class NasContext {
    var ul: nat
    var dl: nat
    var keys: NasKeys

    constructor ()
      ensures ul == 0 && dl == 0 && keys == NoKeys
    {
      ul, dl, keys := 0, 0, NoKeys;
    }

    method DeriveKeys(derivable: bool, enc: Byte, integ: Byte, kamf: Bytes) returns (ok: bool)
      modifies this`keys
      ensures ok == derivable
      ensures ok ==> keys == Keyed(enc, integ, kamf)
    {
      ok := derivable;
      keys := if ok then Keyed(enc, integ, kamf) else NoKeys;
    }
  }

  class SecurityContext {
    const sec: Sec5g
    const gppNas: NasContext
    const nonGppNas: NasContext
    var kamf: Bytes
    var kgnb: Bytes
    var kn3iwf: Bytes
    var nh: Bytes
    var ncc: nat

    constructor (sec: Sec5g, kamf: Bytes)
      ensures Valid() && this.sec == sec && this.kamf == kamf
      ensures fresh(gppNas) && fresh(nonGppNas)
    {
      this.sec, this.kamf := sec, kamf;
      gppNas := new NasContext();
      nonGppNas := new NasContext();
      kgnb, kn3iwf, nh, ncc := [], [], [], 0;
    }

    ghost predicate Valid()
      reads this
    {
      gppNas != nonGppNas && ncc < NCC_MODULUS
    }

    ghost function Chain(): As
      reads this
    {
      As(kgnb, nh, ncc)
    }

    /** The access key of one access type, from the uplink count of its NAS context in
        four octets. */
    ghost function AccessKey(nas: NasContext, access: Byte): Key
      reads this, nas
    {
      sec.ranKey(kamf, BeBytes(4, nas.ul), [access])
    }

    /** The two calls that are made: 1 for 3GPP access, 2 for the other. */
    lemma AccessKeysWritten()
      ensures AccessKey(gppNas, ACCESS_3GPP) == sec.ranKey(kamf, BeBytes(4, gppNas.ul), [1])
      ensures AccessKey(nonGppNas, ACCESS_NON_3GPP) == sec.ranKey(kamf, BeBytes(4, nonGppNas.ul), [2])
    {}

    method CreateAnKey() returns (ok: bool)
      modifies this`kgnb, this`kn3iwf
      ensures kgnb == AccessKey(gppNas, ACCESS_3GPP).value
      ensures kn3iwf == if AccessKey(gppNas, ACCESS_3GPP).ok then AccessKey(nonGppNas, ACCESS_NON_3GPP).value
                        else old(kn3iwf)
      ensures ok <==> AccessKey(gppNas, ACCESS_3GPP).ok && AccessKey(nonGppNas, ACCESS_NON_3GPP).ok
    {
      var k := sec.ranKey(kamf, BeBytes(4, gppNas.ul), [ACCESS_3GPP]);
      kgnb := k.value;
      if !k.ok {
        return false;
      }
      k := sec.ranKey(kamf, BeBytes(4, nonGppNas.ul), [ACCESS_NON_3GPP]);
      kn3iwf := k.value;
      ok := k.ok;
    }

    method CreateNh(sync: Bytes) returns (ok: bool)
      modifies this`nh
      ensures nh == sec.nhKey(kamf, sync).value && ok == sec.nhKey(kamf, sync).ok
    {
      var k := sec.nhKey(kamf, sync);
      nh := k.value;
      ok := k.ok;
    }

    /** NH and NCC stay as they were when the access keys cannot be derived. */
    method DeriveAsKeys() returns (ok: bool)
      requires Valid()
      modifies this`kgnb, this`kn3iwf, this`nh, this`ncc
      ensures Valid() && kgnb == AccessKey(gppNas, ACCESS_3GPP).value
      ensures var made := AccessKey(gppNas, ACCESS_3GPP).ok && AccessKey(nonGppNas, ACCESS_NON_3GPP).ok;
        && (ok <==> made && sec.nhKey(kamf, kgnb).ok)
        && (made ==> kn3iwf == AccessKey(nonGppNas, ACCESS_NON_3GPP).value
                     && Chain() == As(kgnb, NhChain(sec, kamf, kgnb, 1), 1)
                     && nh == sec.nhKey(kamf, kgnb).value && ncc == 1)
        && (!made ==> nh == old(nh) && ncc == old(ncc))
    {
      ok := CreateAnKey();
      if !ok {
        return;
      }
      ok := CreateNh(kgnb);
      ncc := 1;
      assert NhChain(sec, kamf, kgnb, 0) == kgnb;
    }

    method UpdateNh() returns (ok: bool)
      requires Valid()
      modifies this`nh, this`ncc
      ensures Valid() && Chain() == Updated(sec, kamf, old(Chain()))
      ensures nh == sec.nhKey(kamf, old(nh)).value && ncc == (old(ncc) + 1) % 8 && kgnb == old(kgnb)
      ensures ok == sec.nhKey(kamf, old(nh)).ok
    {
      ncc := ncc + 1;
      ncc := ncc % NCC_MODULUS;
      ok := CreateNh(nh);
    }

    /** KAMF' for a handover or a mobility update, else KAMF itself. */
    ghost function NewKamf(hdp: Byte): Key
      reads this, gppNas
    {
      if hdp == HDP_HANDOVER then sec.kamfPrime(kamf, [1], BeBytes(4, gppNas.dl))
      else if hdp == HDP_MOBILITY_UPDATE then sec.kamfPrime(kamf, [0], BeBytes(4, gppNas.ul))
      else Key(kamf, true)
    }

    /** KAMF' for a handover: direction 1 and the downlink count; for a mobility update:
        direction 0 and the uplink count; both counts of the 3GPP context in four octets. */
    lemma NewKamfWritten(hdp: Byte)
      ensures NewKamf(hdp) ==
        if hdp == 1 then sec.kamfPrime(kamf, [1], BeBytes(4, gppNas.dl))
        else if hdp == 2 then sec.kamfPrime(kamf, [0], BeBytes(4, gppNas.ul))
        else Key(kamf, true)
    {}

    /** `derivable(isGpp, ...)` is whether the NAS library derives keys in that context.
        KAMF changes only when every step went well, and then both NAS contexts are keyed
        by the KAMF the context holds.  When the second context fails, the first one has
        been keyed by a KAMF the context does not keep. */
    method DeriveNasKeys(derivable: (bool, Byte, Byte, Bytes) -> bool, enc: Byte, integ: Byte, hdp: Byte)
      returns (ok: bool)
      requires Valid()
      modifies this`kamf, gppNas`keys, nonGppNas`keys
      ensures Valid() && Chain() == old(Chain())
      ensures ok <==>
        && old(NewKamf(hdp)).ok
        && derivable(true, enc, integ, old(NewKamf(hdp)).value)
        && derivable(false, enc, integ, old(NewKamf(hdp)).value)
      ensures !ok ==> kamf == old(kamf)
      ensures ok ==> kamf == old(NewKamf(hdp)).value
      ensures ok ==> gppNas.keys == nonGppNas.keys == Keyed(enc, integ, kamf)
      ensures !ok && old(NewKamf(hdp)).ok && derivable(true, enc, integ, old(NewKamf(hdp)).value) ==>
        gppNas.keys == Keyed(enc, integ, old(NewKamf(hdp)).value)
      ensures !old(NewKamf(hdp)).ok || !derivable(true, enc, integ, old(NewKamf(hdp)).value) ==>
        nonGppNas.keys == old(nonGppNas.keys)
      ensures !old(NewKamf(hdp)).ok ==> gppNas.keys == old(gppNas.keys)
    {
      var next: Key;
      if hdp == HDP_HANDOVER {
        next := sec.kamfPrime(kamf, [1], BeBytes(4, gppNas.dl));
      } else if hdp == HDP_MOBILITY_UPDATE {
        next := sec.kamfPrime(kamf, [0], BeBytes(4, gppNas.ul));
      } else {
        next := Key(kamf, true);
      }
      if !next.ok {
        return false;
      }
      ok := gppNas.DeriveKeys(derivable(true, enc, integ, next.value), enc, integ, next.value);
      if !ok {
        return;
      }
      ok := nonGppNas.DeriveKeys(derivable(false, enc, integ, next.value), enc, integ, next.value);
      if !ok {
        return;
      }
      kamf := next.value;
    }
  }

  /** DeriveAsKeys and then n times UpdateNh on one context: the object ends n + 1 steps
      along the chain, also when some of the updates report a failure. */
  method DeriveAndUpdate(ctx: SecurityContext, n: nat) returns (ok: bool)
    requires ctx.Valid()
    modifies ctx`kgnb, ctx`kn3iwf, ctx`nh, ctx`ncc
    ensures ctx.Valid()
    ensures ok ==> ctx.kgnb == ctx.AccessKey(ctx.gppNas, ACCESS_3GPP).value
    ensures ok ==> ctx.Chain() == As(ctx.kgnb, NhChain(ctx.sec, ctx.kamf, ctx.kgnb, n + 1), (n + 1) % 8)
  {
    ok := ctx.DeriveAsKeys();
    if !ok {
      return;
    }
    ghost var start := ctx.Chain();
    for i := 0 to n
      invariant ctx.Valid() && ctx.Chain() == UpdatedN(ctx.sec, ctx.kamf, start, i)
      invariant ctx.kgnb == start.kgnb
    {
      var _ := ctx.UpdateNh();
    }
    ChainInStep(ctx.sec, ctx.kamf, ctx.kgnb, n);
  }
}
