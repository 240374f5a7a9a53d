/** The 48-bit sequence number counter of internal/context/uecontext/sqn.go. */
module Sqn {
  import opened Bits
  import opened Bytes

  newtype uint64 = x: int | 0 <= x < 0x1_0000_0000_0000_0000

  const SQN_MAX: uint64 := 0xffff_ffff_ffff
  const SQN_IND: uint64 := 32

  /** What Set reads from a byte string of any length: six bytes, the missing ones
      zero on the right, the extra ones dropped. */
  function SixBytes(s: Bytes): (b: Bytes)
    ensures |b| == 6
  {
    if |s| >= 6 then s[..6] else s + Zeros(6 - |s|)
  }

  function SqnOf(s: Bytes): nat {
    BeValue(SixBytes(s))
  }

  function SqnBytes(v: nat): (s: Bytes)
    ensures |s| == 6
  {
    BeBytes(6, v)
  }

  function Next(v: nat): nat {
    if v + 1 > SQN_MAX as nat then 0 else v + 1
  }

  /** uint64 increment, which wraps. */
  function Succ64(v: uint64): uint64 {
    if v == 0xffff_ffff_ffff_ffff then 0 else v + 1
  }

  /** reset: thirty-one added at once, then one Inc. */
  function AfterReset(s: Bytes): nat {
    Next(SqnOf(s) + SQN_IND as nat - 1)
  }

  lemma SqnInRange(s: Bytes)
    ensures SqnOf(s) <= SQN_MAX as nat
  {
    BeBounded(SixBytes(s));
    Pow2Values();
  }

  class Sqn {
    var value: uint64

    ghost predicate Valid()
      reads this
    {
      value <= SQN_MAX
    }

    constructor ()
      ensures Valid() && value == 0
    {
      value := 0;
    }

    /** PutUint64 into eight bytes, of which the first two are dropped. */
    method Bytes() returns (r: seq<Byte>)
      ensures r == SqnBytes(value as nat)
    {
      var buf := BeBytes(8, value as nat);
      r := buf[2..];
      DropTwo(6, value as nat);
    }

    method Inc()
      modifies this
      ensures Valid() && value as nat == Next(old(value) as nat)
      ensures value == if old(value) < 0xffff_ffff_ffff then old(value) + 1 else 0
    {
      value := Succ64(value);
      if value > SQN_MAX {
        value := 0;
      }
    }

    method Set(sqn: seq<Byte>)
      modifies this
      ensures Valid() && value as nat == SqnOf(sqn)
    {
      var buf := new Byte[8](_ => 0);
      forall i | 0 <= i < |sqn| && i < 6 {
        buf[2 + i] := sqn[i];
      }
      assert buf[..] == Zeros(2) + SixBytes(sqn);
      ZeroPrefix(SixBytes(sqn));
      SqnInRange(sqn);
      value := BeValue(buf[..]) as uint64;
    }

    method Reset(sqn: seq<Byte>)
      modifies this
      ensures Valid() && value as nat == AfterReset(sqn)
    {
      Set(sqn);
      value := value + (SQN_IND - 1);
      Inc();
    }
  }

  lemma {:induction false} DropTwo(m: nat, v: nat)
    ensures BeBytes(m + 2, v)[2..] == BeBytes(m, v)
  {
    if m > 0 {
      DropTwo(m - 1, v / BASE);
      assert BeBytes(m + 2, v) == BeBytes(m + 1, v / BASE) + [LowByte(v)];
    }
  }

  lemma ZeroPrefix(s: Bytes)
    ensures BeValue(Zeros(2) + s) == BeValue(s)
  {
    BeConcat(Zeros(2), s);
    assert BeValue(Zeros(2)) == 0 by {
      assert Zeros(2)[..1] == [0];
      assert BeValue([0]) == 0;
    }
  }

  /** Bytes and Set are inverse, in both directions. */
  lemma SqnRoundTrip(v: nat, s: Bytes)
    requires v <= SQN_MAX as nat && |s| == 6
    ensures SqnOf(SqnBytes(v)) == v
    ensures SqnBytes(SqnOf(s)) == s
  {
    Pow2Values();
    ValueFits(6, v);
    BytesOfValue(s);
    assert SixBytes(SqnBytes(v)) == SqnBytes(v) && SixBytes(s) == s;
  }

  /** Octet i of the counter, counted from the most significant one of the six. */
  lemma SqnOctet(v: nat, i: nat)
    requires i < 6
    ensures SqnBytes(v)[i] == v / Pow2(8 * (5 - i)) % 256
  {
    OctetOf(6, v, i);
  }

  /** What Set reads: the first six octets as a big-endian number, or a shorter string
      as the leading octets of one. */
  lemma SetReads(s: Bytes)
    ensures |s| >= 6 ==> SqnOf(s) == BeValue(s[..6])
    ensures |s| < 6 ==> SqnOf(s) == BeValue(s) * Pow2(8 * (6 - |s|))
  {
    if |s| < 6 {
      BeConcat(s, Zeros(6 - |s|));
      ZeroValue(6 - |s|);
    }
  }

  lemma {:induction false} ZeroValue(n: nat)
    ensures BeValue(Zeros(n)) == 0
  {
    if n > 0 {
      ZeroValue(n - 1);
      assert Zeros(n)[..n - 1] == Zeros(n - 1);
    }
  }

  /** reset adds 32, or comes to 0 when that passes 2^48 - 1; so it adds 32 modulo 2^48
      except for the last 31 values. */
  lemma ResetAddsModulo(s: Bytes)
    ensures AfterReset(s) == if SqnOf(s) + 32 <= 0xffff_ffff_ffff then SqnOf(s) + 32 else 0
    ensures AfterReset(s) == (SqnOf(s) + 32) % 0x1_0000_0000_0000 <==> SqnOf(s) + 32 <= 0x1_0000_0000_0000
  {
    SqnInRange(s);
  }
}
