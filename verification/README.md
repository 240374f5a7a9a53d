# Central unit of a 5G gNB: model and proofs

The repository is the control plane of a gNB central unit (CU-CP), with a table-driven
state-machine engine and the UE side of 5G AKA. This project models four parts of it
and proves what they promise.

**The state-machine engine** (`Fsm`, `FsmEngine`, `FsmConcurrency`, `FsmTheorems`,
`FsmTrace`, `FsmProgress`, `FsmFollowUps`, `FsmRuns`, `FsmRrc`). `Fsm` says what one event does to a state. `FsmEngine` is the
engine as it is written, a `State` object updated in place, proved equal to it.
`FsmConcurrency` runs any number of `SendEvent` and `SyncSendEvent` calls as a step system:
program counters, one lock, one armed follow-up, one capacity-1 channel a call, an arbitrary
scheduler. One invariant is kept by every step. From it follow serialisability, the grammar
of the callback trace at every moment, one verdict a call, and (when follow-ups fall in
rank) that every call returns. `FsmFollowUps` says which callbacks have such a rank. Callbacks are arbitrary functions of the current state, the user data and the
event; they may rewrite the user data and arm a follow-up.

**5G AKA** (`Sqn`, `Milenage`, `Kdf`, `Auth`, `AuthProtocol`, `SecCtx`). AES and HMAC-SHA-256
are arbitrary functions. The MILENAGE loops on fixed buffers are proved to be f1 to f5* of
section 4.1 of 3GPP TS 35.206; the KDF input string of Annex B.2 of 3GPP TS 33.220 is proved
uniquely decodable; challenges and resynchronisation are followed over whole runs.

**CU-CP control flow** (`Cucp`, `CucpContext`, `CucpRuns`, `Boot`). Decoded messages are
datatypes. `CucpContext` holds the handlers on a context object that points to a UE object,
each proved to do what its function in `Cucp` says. `CucpRuns` describes the whole output of
a run and every field of the UE from the received messages alone, without a state, and
proves that this is what every run sends and stores. `Boot` is the boot goroutine with any number of NG Setup Response handlers.

**Identities and lists** (`Tmsi`, `BitStrings`, `Plmn`, `AmfContext`): the 5G-S-TMSI, bit
strings, PLMN octets, and the linked PLMN and slice lists on the heap.

`Bits`, `Bytes`, `Hex` and `Options` hold the arithmetic and small types the rest uses.

A method is proved equal to a function. What such a function computes is then stated a second
time without it: octet by octet with literal constants (`Milenage.F3Octets`,
`AuthProtocol.AcceptedWritten`, `Tmsi.DecodeWritten`, `Plmn.OctetsWritten`), call by call
(`FsmTrace.CallsOfEvent`), or from the message history alone (module `CucpRuns`).

## Where the code differs from what one would expect

The model follows the code. These differences are proved.

- Nothing keeps a callback from arming its own event for ever, with the lock held
  (`FsmFollowUps.RestlessNeverDrains`, `FsmFollowUps.RestlessHoldsLock`). When callbacks
  decide on state and event type which event they arm, the drain loop ends from every state
  if and only if no event leads back to itself in the finite graph of follow-ups
  (`FsmFollowUps.DrainsIffAcyclic`), and in every run from an initial state if and only if
  none does that such a run can come to (`FsmRuns.RunsDrainIff`).
- RES* is derived from the `rand` field of the authentication context, CK, IK and RES from the
  RAND given to MILENAGE, and nothing makes the two equal. RES* is the network's XRES* under
  every HMAC if and only if they are (`AuthProtocol.ResStarIff`, `AuthProtocol.RunResStarIff`).
- An AUTN of fewer than eight octets, or a SUPI of fewer than five once a challenge has passed,
  stops the program (`AuthProtocol.PanicsIff`).
- `Sqn.reset` wraps to 0 instead of adding 32 modulo 2^48 when 32 passes the end of the
  range by more than one (`Sqn.ResetAddsModulo`). With a challenge under the UE's AMF
  resynchronisation therefore converges exactly when the UE's SQN + 32 is at most SQN_MAX
  (`AuthProtocol.ResyncConverges`).
- The error of `F1` is dropped. With a configured AMF value that is not two bytes long the
  MAC compared with is empty (`AuthProtocol.MacIsF1Iff`).
- The MAC is checked over the AMF the UE is configured with, not over the one inside AUTN,
  which is not used (`AuthProtocol.AmfFieldIgnored`). An honest challenge under another AMF can
  therefore be a MAC failure: such challenges pass under every cipher, and the check is the
  standard's, if and only if their AMF is the configured one (`AuthProtocol.HonestAmfIff`,
  `AuthProtocol.StandardMacIff`, `AuthProtocol.RunAmfIff`).
- A KDF parameter of 65536 bytes or more has its length cut to two bytes. Among the lists whose
  parameters are all under n bytes the input string determines the list if and only if n is at
  most 65536 (`Kdf.InjectiveIff`, `Kdf.LongParamCollides`).
- `Build5GSTMSI` reads its parts as right-aligned integers. Left-aligned parts give the
  right identity only when it is zero (`Tmsi.LeftAlignedPartsIff`,
  `CucpRuns.LeftAlignedAtAmfIff`).
- A bit count of 2^63 or more is negative as an `int`: the extraction loops then return 0, and
  `BitStringToUint64` returns 0 for a single byte (`BitStrings.ExtractBits`,
  `BitStrings.BitStringToUint64`).
- A failed `UpdateNh` still moves NCC and overwrites NH. When the second NAS context cannot
  be keyed, the first one stays keyed by a KAMF the context does not keep
  (`SecCtx.SecurityContext.UpdateNh`, `SecCtx.SecurityContext.DeriveNasKeys`).
- The first served cell of an F1 Setup Request is read before the cells are counted, and
  several handlers dereference without a test: the UE, the DU, the optional NAS field of a UL
  Information Transfer, the body of a setup complete message, the octets of a serving PLMN.
  The cell group of a UE whose setup request was unusable is nil, and goes to the RRC encoder.
  `CucpRuns.CrashesIffFatal` says for which message histories the program stops.
- An Initial UE Message that cannot be encoded still moves the UE to ongoing, so the next
  NAS message goes out as an uplink transport. READY falls back to ongoing on any uplink
  transfer. Downlink NAS is addressed with the ids of the AMF and of the DU. All three are
  part of `CucpRuns.OutputIsOwed` and `CucpRuns.StateIsTold`.
- The boot goroutine receives from the readiness channel once. Of several NG Setup Response
  handlers one returns and the others wait for good (`Boot.OneHandlerReturns`,
  `Boot.WaitsForGood`).

## Model

| member | source | states |
|---|---|---|
| Fsm.KnownParts | internal/common/fsm/fsm.go:49-55 | The loop over the table finds exactly the states with an outgoing entry and the events that occur in it. |
| Fsm.AllHaveCallback | internal/common/fsm/fsm.go:57-61 | True if and only if every such state is a key of the callback map. |
| Fsm.CollectEvents | internal/common/fsm/fsm.go:65-71 | Fails if and only if some listed event occurs in the table; else the set holds exactly the listed events. |
| Fsm.NewFsm | internal/common/fsm/fsm.go:37-74 | When each of the two panics happens, which comes first, and that a machine that is built has the given tables and both checked properties. |
| FsmFollowUps.EventRankedDrains | internal/common/fsm/fsm.go:94-104 | When the event, exit and entry callbacks of every table entry and the generic handler only arm follow-ups of smaller rank, the drain loop ends from every state, within the rank of what is armed and one more turn. |
| Fsm.RankedDrains | internal/common/fsm/fsm.go:94-104 | With a falling rank the drain ends within one more turn than the rank of the state it starts from. |
| FsmFollowUps.EventRankedFinishes | internal/common/fsm/fsm.go:88-137 | With such callbacks every scheduler that keeps moving some goroutine finishes every call. |
| FsmFollowUps.DrainsIffAcyclic | internal/common/fsm/fsm.go:94-171 | For callbacks whose follow-ups depend on state and event type: the drain loop always ends if and only if no event leads back to itself in the same state, counting the last follow-up armed over event, exit and entry callback. |
| FsmFollowUps.DrainWalks | internal/common/fsm/fsm.go:94-171 | The n-th turn of the drain loop is the n-th node on the path of the follow-up graph, and the loop ends where the path does. |
| FsmFollowUps.PathEnds | internal/common/fsm/fsm.go:94-104 | Without a cycle a path is over after one step more than there are events that can lead on. |
| FsmFollowUps.AcyclicFinishes | internal/common/fsm/fsm.go:88-137 | Without a cycle every scheduler finishes every call. |
| FsmFollowUps.RestlessNeverDrains | internal/common/fsm/fsm.go:94-104 | A machine that construction accepts and whose drain loop goes on for ever. |
| FsmFollowUps.RestlessHoldsLock | internal/common/fsm/fsm.go:106-128 | In every run of that machine the first Tick that is served holds the lock at every moment from then on. |
| FsmRuns.RunsDrainIff | internal/common/fsm/fsm.go:80-171 | For such callbacks: every run from an initial state drains, whatever is sent and however it is scheduled, if and only if no event leads back to itself that a run can come to along the table and the follow-ups. |
| FsmRuns.SerialAt | internal/common/fsm/fsm.go:94-171 | A sequential run stands at the end of a script: each event is the follow-up of the one before, or was sent in the state that one left. |
| FsmRuns.ScriptRun | internal/common/fsm/fsm.go:80-137 | Every script is run: some schedule brings the lock holder to the look-up of its last event. |
| FsmEngine.State.constructor | internal/common/fsm/state.go:17-25 | A new state has the given current state and nothing armed. |
| FsmEngine.State.SetState | internal/common/fsm/state.go:34-38 | Changes the current state and nothing else. |
| FsmEngine.State.SetNextEvent | internal/common/fsm/state.go:51-53 | Replaces the armed event and nothing else: a second call overwrites the first. |
| FsmEngine.Transit | internal/common/fsm/fsm.go:139-171 | Updates the object to what handling the event means, and sends exactly one verdict, taken from the state it found, or none for a follow-up. |
| FsmEngine.ProcessNextEvent | internal/common/fsm/fsm.go:94-104 | The loop terminates when follow-ups fall in rank, leaves nothing armed, and is that many turns of the drain. |
| FsmEngine.HandleEvent | internal/common/fsm/fsm.go:106-137 | The event, then its follow-ups to the end; the verdict is that of the event in the state found under the lock, whatever the follow-ups do. |
| FsmConcurrency.TurnKeeps | internal/common/fsm/fsm.go:94-171 | One small step of the lock holder does not change where the event in hand ends; only the head of the drain loop starts another one or releases the lock, and it releases only with nothing armed. |
| FsmConcurrency.TurnTells | internal/common/fsm/fsm.go:139-171 | A step sends a verdict only at the first look-up of a transitional event, and it is the one for the state seen there; follow-ups send none. |
| FsmConcurrency.LockKeeps | internal/common/fsm/fsm.go:112-130 | Taking the lock keeps the invariant: it starts a task on what the previous ones left. |
| FsmConcurrency.RunKeeps | internal/common/fsm/fsm.go:94-171 | Every step inside the critical section keeps the invariant. |
| FsmConcurrency.SendKeeps | internal/common/fsm/fsm.go:111-123 | The send of a non-transitional verdict outside the lock keeps it. |
| FsmConcurrency.ReceiveKeeps | internal/common/fsm/fsm.go:80-92 | The caller's receive keeps it. |
| FsmConcurrency.Reachable | internal/common/fsm/fsm.go:80-171 | The invariant (mutual exclusion, served order, memory equal to a sequential run up to the event in hand, channel contents, verdicts) holds in every reachable state. |
| FsmTheorems.Serialisable | internal/common/fsm/fsm.go:106-136 | Every interleaving is a sequential run of the tasks in lock order, each drained before the next; a free state equals that run's result; no two tasks' callbacks are ever mixed. |
| FsmTheorems.SerialContiguous | internal/common/fsm/fsm.go:106-136 | In a sequential run each task's callback records are one contiguous piece of the trace. |
| FsmTheorems.AfterPrevious | internal/common/fsm/fsm.go:111-130 | In every reachable state the lock holder appends to a complete history of the tasks before it, each of which started settled. |
| FsmTheorems.TraceGrammar | internal/common/fsm/fsm.go:139-171 | In every run the trace is cut into blocks along a path of the table: event in s, then on a real change Exit in s directly followed by Entry in t; self-loops give neither; nothing crashes. |
| FsmTrace.AlwaysGrown | internal/common/fsm/fsm.go:94-171 | At every moment of every run, lock free or held and whatever the machine: complete blocks along a path of the table to the current state, then exactly the calls the event in hand has made so far. |
| FsmTrace.CallsOfEvent | internal/common/fsm/fsm.go:139-171 | The calls that handling one event adds, by position: whose callback, and with which event: the event itself, then its payload under "Exit Event" and "Entry Event". |
| FsmTrace.BlockCarriesPayload | internal/common/fsm/event.go:42-47 | Every call of a block carries the payload of the block's event, under the event's own type or one of the two reserved ones. |
| FsmTrace.AlwaysSound | internal/common/fsm/fsm.go:139-171 | In every run each recorded call is one of the callback the machine has for it, in its own state, on the user data the call before it left; the last one leaves what the state holds. |
| FsmTheorems.CrashIff | internal/common/fsm/fsm.go:139-171 | An event calls a nil function exactly when it needs a nil generic handler, or leaves a state whose key is bound to nil. |
| FsmTheorems.HandleOneSafe | internal/common/fsm/fsm.go:47-71 | The checks at construction and callbacks that are not nil are enough for the unguarded exit callback to exist. |
| FsmTheorems.OnlyLastArmed | internal/common/fsm/state.go:51-53 | After an event the armed follow-up is the last one any of its callbacks armed. |
| FsmTheorems.UndefinedFollowUp | internal/common/fsm/fsm.go:94-104 | A follow-up leaves everything but the slot unchanged if and only if the table has no entry for it in the state it finds. |
| FsmTheorems.ExactlyOneVerdict | internal/common/fsm/fsm.go:80-92 | No call is told twice in any run; a transitional one has been told if and only if it is past its first look-up, whether or not the drain ends; what is told is what the table says of the state found under the lock. |
| FsmTheorems.SyncCallReturns | internal/common/fsm/fsm.go:88-92 | A synchronous call whose section is over can always make its next channel operation, up to its return. |
| FsmTheorems.NoSenderBlocks | internal/common/fsm/fsm.go:80-92 | A goroutine at a send, inside the lock or outside, can always make it. |
| FsmProgress.StepLowers | internal/common/fsm/fsm.go:94-137 | With follow-ups falling in rank every step but a new call lowers a well-founded measure, whatever the scheduler picks. |
| FsmProgress.SomeStep | internal/common/fsm/fsm.go:80-137 | No deadlock: while a call is unfinished some goroutine can move. |
| FsmProgress.EverySchedulerFinishes | internal/common/fsm/fsm.go:88-137 | Every scheduler that keeps moving some goroutine, fair or not, finishes every call in hand, from every reachable state. |
| FsmProgress.FinishAll | internal/common/fsm/fsm.go:80-137 | From every state of the invariant some schedule without new calls finishes every call. |
| FsmProgress.EveryCallReturns | internal/common/fsm/fsm.go:88-92 | From every reachable state all calls can be brought to their end, after which the lock is free and nothing is armed. |
| FsmRrc.AttachedOnPath | doc_of_central_unit/planning.md:567-582 | Along every path of the RRC table that ends outside Idle there is a last attach, with no return to Idle after it. |
| FsmRrc.NotIdleMeansAttached | doc_of_central_unit/planning.md:567-582 | The same at every moment of every concurrent run of the engine with that table, lock free or held, on the blocks of the callback trace. |
| Sqn.Sqn.Bytes | internal/context/uecontext/sqn.go:19-23 | The low 48 bits, big-endian. |
| Sqn.Sqn.Inc | internal/context/uecontext/sqn.go:26-31 | One more, 0 after SQN_MAX; the counter stays in 48 bits. |
| Sqn.Sqn.Set | internal/context/uecontext/sqn.go:33-37 | The number in the first six bytes, missing ones zero; in 48 bits for every input. |
| Sqn.Sqn.Reset | internal/context/uecontext/sqn.go:44-48 | Thirty-one added, then one Inc. |
| Sqn.SqnRoundTrip | internal/context/uecontext/sqn.go:19-37 | Bytes and Set are inverse in both directions. |
| Sqn.SqnOctet | internal/context/uecontext/sqn.go:19-23 | Octet i of the six holds the eight bits of the counter from 8 (5 - i) on. |
| Sqn.SetReads | internal/context/uecontext/sqn.go:33-37 | Set reads the first six octets, or a shorter string as the leading octets of six. |
| Sqn.ResetAddsModulo | internal/context/uecontext/sqn.go:44-48 | reset adds 32, or gives 0 when that passes 2^48 - 1; it adds 32 modulo 2^48 if and only if the value + 32 is at most 2^48. |
| Milenage.NewMilenageEx | internal/context/uecontext/milenage.go:34-64 | Fails exactly on a wrong size; else OPc is given or computed and randxor is E(rand xor opc). |
| Milenage.Milenage.constructor | internal/context/uecontext/milenage.go:39-63 | OPc = OP xor E(OP) by the in-place loop, and the class invariant. |
| Milenage.Milenage.Refresh | internal/context/uecontext/milenage.go:67-74 | Whatever the read leaves in the RAND buffer, whole, short or failed, the invariant holds for it afterwards; OPc is untouched. |
| Milenage.Milenage.SetRand | internal/context/uecontext/milenage.go:77-88 | Succeeds exactly on 16 bytes; then RAND is set and the invariant holds, else nothing changed. |
| Milenage.Milenage.F1 | internal/context/uecontext/milenage.go:95-121 | f1 and f1* of section 4.1 of TS 35.206, with their left rotation by 64; fails exactly on wrong sizes. |
| Milenage.Milenage.MixInput | internal/context/uecontext/milenage.go:106-111 | The scatter-index loop computes rot(in xor opc, 64) xor randxor. |
| Milenage.Milenage.F2F5 | internal/context/uecontext/milenage.go:123-126 | f2 and f5 of TS 35.206. |
| Milenage.Milenage.F3 | internal/context/uecontext/milenage.go:128-130 | f3 of TS 35.206. |
| Milenage.Milenage.F4 | internal/context/uecontext/milenage.go:132-134 | f4 of TS 35.206. |
| Milenage.Milenage.F5star | internal/context/uecontext/milenage.go:136-139 | f5* of TS 35.206. |
| Milenage.Milenage.Operation | internal/context/uecontext/milenage.go:141-157 | OUT of TS 35.206 for the left rotation by 16 - rot mod 16 bytes, modulo 16, for every rot from 0 on. |
| Milenage.ScatterIsRot | internal/context/uecontext/milenage.go:144-149 | Writing byte i at (i + rot) mod 16 is that rotation to the left, for every rot. |
| Milenage.RotationIsCyclic | internal/context/uecontext/milenage.go:144-149 | That rotation, on the 128-bit number: multiply by 2^r and let the overflow re-enter at the bottom. |
| Milenage.F1Octets | internal/context/uecontext/milenage.go:95-121 | Every octet of f1 and f1*: from E(RAND xor OPc), the input SQN, AMF, SQN, AMF xor OPc from its ninth octet on, c1 = 0, and OPc. |
| Milenage.F2F5Octets | internal/context/uecontext/milenage.go:123-126 | Every octet of f2 and f5: no rotation, c2 = 1, octets 9 to 16 and 1 to 6. |
| Milenage.F3Octets | internal/context/uecontext/milenage.go:128-130 | Every octet of f3: rotation by four octets, c3 = 2. |
| Milenage.F4Octets | internal/context/uecontext/milenage.go:132-134 | Every octet of f4: rotation by eight octets, c4 = 4. |
| Milenage.F5StarOctets | internal/context/uecontext/milenage.go:136-139 | Every octet of f5*: rotation by twelve octets, c5 = 8, octets 1 to 6. |
| Milenage.OpcOctets | internal/context/uecontext/milenage.go:51-55 | Every octet of OPc is E(OP) xor OP. |
| Milenage.AutsRead | internal/context/uecontext/milenage.go:159-180 | What is read out of an AUTS: its first six octets xor f5*, accepted if and only if f1* of them with AMF 00 00 is the rest. |
| Milenage.Milenage.ValidateAuts | internal/context/uecontext/milenage.go:159-180 | The standard's reading of an AUTS; leaves the object on the received RAND unless a size is wrong. |
| Kdf.KdfLen | internal/context/uecontext/ueauth.go:22-26 | Two bytes whose value is the length modulo 65536. |
| Kdf.KDF | internal/context/uecontext/ueauth.go:32-49 | Fails exactly on an FC that is not hexadecimal; else HMAC over FC, P0, L0, ..., Pn, Ln. |
| Kdf.EncodeLaw | internal/context/uecontext/ueauth.go:36-43 | Each parameter is followed by its length modulo 65536 in two octets, the upper one first. |
| Kdf.ParseInverts | internal/context/uecontext/ueauth.go:36-43 | A right-to-left parser reads every list of short parameters back from the string. |
| Kdf.EncodeInverts | internal/context/uecontext/ueauth.go:36-43 | Every string the parser accepts is the encoding of what it found. |
| Kdf.InjectiveIff | internal/context/uecontext/ueauth.go:22-43 | Among the lists whose parameters are all under n bytes the string determines the list if and only if n is at most 65536. |
| Kdf.KdfInputInjective | internal/context/uecontext/ueauth.go:32-43 | For short parameters equal strings mean equal FC and equal lists, of whatever lengths. |
| Kdf.LongParamCollides | internal/context/uecontext/ueauth.go:22-26 | Two different lists with the same string, once a parameter has 65536 bytes. |
| Kdf.DerivationsSeparate | internal/context/uecontext/ueauth.go:10-20 | No two of the FC constants ever lead to the same string, whatever the parameters. |
| Auth.AuthContext.ProcessAuthenticationInfo | internal/context/uecontext/auth.go:26-90 | For all inputs the answer and the whole new state of the UE: out-of-range slice, MAC failure, sync failure with AUTS, or success with the network's KAMF from the octets received. |
| Auth.AuthContext.PrepareAuts | internal/context/uecontext/auth.go:52-69 | AUTS is SQN xor AK* followed by MAC-S over the UE's SQN and the dummy AMF. |
| Auth.AuthContext.DeriveKamf | internal/context/uecontext/auth.go:78-85 | KAMF by the chain KAUSF, KSEAF, KAMF of Annex A of TS 33.501. |
| Auth.ResstarXresstar | internal/context/uecontext/ueauth.go:93-101 | The two 128-bit halves of the KDF output. |
| AuthProtocol.SucceedsIff | internal/context/uecontext/auth.go:26-72 | Success if and only if the MAC is that of the recovered SQN and that SQN is at least the UE's (AUTN and SUPI being long enough); either failure changes nothing. |
| AuthProtocol.AnswerWritten | internal/context/uecontext/auth.go:35-70 | Which answer every challenge gets, on the SQN taken out of AUTN octet by octet: MAC failure, sync failure with every octet of AUTS, or neither. |
| AuthProtocol.AcceptedWritten | internal/context/uecontext/auth.go:72-89 | After every accepted challenge: the SQN; KAMF as three nested HMACs under CK then IK with 0x6A over SNN and AUTN[..6], 0x6C over SNN, 0x6D over SUPI[5..] and ABBA; RES* as the second half of one with 0x6B over SNN, RAND and RES; nothing else changed. |
| AuthProtocol.PanicsIff | internal/context/uecontext/auth.go:38-85 | The slices go out of range if and only if AUTN is under eight octets, or SUPI under five and the challenge passes. |
| AuthProtocol.MacIsF1Iff | internal/context/uecontext/auth.go:45-49 | The check is against f1 over the configured AMF if and only if that has two bytes; otherwise exactly the AUTNs of eight bytes pass. |
| AuthProtocol.AmfFieldIgnored | internal/context/uecontext/auth.go:35-38 | Changing the AMF field of AUTN changes neither the answer nor the state. |
| AuthProtocol.StandardMacIff | internal/context/uecontext/auth.go:37-49 | On the AUTNs that carry an AMF the check decides as f1 over the AMF received, under every cipher, if and only if that is the configured AMF. |
| AuthProtocol.HonestAmfIff | internal/context/uecontext/auth.go:37-49 | Honest challenges under an AMF are no MAC failure, under every cipher, if and only if it is the configured one. |
| AuthProtocol.HonestChallenge | internal/context/uecontext/auth.go:30-88 | A challenge the network made under any AMF: a MAC failure unless the MAC over the configured AMF is the same (as for that AMF it is), else accepted exactly when not behind, else answered with AUTS; after success both sides hold the same SQN and KAMF, and the same RES* if the authentication context has the challenge's RAND. |
| AuthProtocol.ResStarIff | internal/context/uecontext/auth.go:88 | RES* equals the network's XRES* under every HMAC if and only if the context's RAND is the one MILENAGE was given. |
| AuthProtocol.RunResStarIff | internal/context/uecontext/auth.go:88 | Over a whole honest run under the configured AMF RES* is right under every HMAC if and only if the context was given the RAND of every challenge. |
| AuthProtocol.ResyncRoundTrip | internal/context/uecontext/milenage.go:159-180 | The network reads exactly the UE's SQN out of every AUTS the UE emits. |
| AuthProtocol.ResyncConverges | internal/context/uecontext/sqn.go:44-48 | After the reset the next honest challenge, under any RAND and AMF, is accepted if and only if its MAC is the one over the configured AMF (as for that AMF it is) and the UE's SQN + 32 is at most SQN_MAX. |
| AuthProtocol.SqnNeverDecreases | internal/context/uecontext/auth.go:26-72 | Over every sequence of challenges the SQN never decreases and stays in 48 bits. |
| AuthProtocol.HonestRunAccepted | internal/context/uecontext/auth.go:26-90 | A network that is not behind and uses the UE's configured AMF is accepted at every step of its run while its counter does not wrap, and SQN, KAMF and (given the right RAND) RES* agree after each. |
| AuthProtocol.RunAmfIff | internal/context/uecontext/auth.go:37-49 | Under every cipher an honest run is followed step by step if and only if all its challenges carry the configured AMF. |
| AuthProtocol.ResyncThenRun | internal/context/uecontext/auth.go:52-70 | One resynchronisation is enough for a whole run under the configured AMF, with the same agreement at each step. |
| SecCtx.ChainInStep | internal/context/uecontext/secctx.go:94-113 | After DeriveAsKeys and n updates NH is NhKey iterated n + 1 times from KgNB and NCC is (n + 1) mod 8. |
| SecCtx.DeriveAndUpdate | internal/context/uecontext/secctx.go:94-113 | The same on the object: a context that runs DeriveAsKeys and n times UpdateNh ends n + 1 steps along the chain. |
| SecCtx.NccWindow | internal/context/uecontext/secctx.go:109-113 | Two points of the chain have the same NCC if and only if they lie a multiple of eight apart. |
| SecCtx.SecurityContext.CreateAnKey | internal/context/uecontext/secctx.go:78-91 | Both access keys from their uplink counts; when the first fails the second keeps its value. |
| SecCtx.SecurityContext.AccessKeysWritten | internal/context/uecontext/secctx.go:78-91 | The two derivations: uplink count of the 3GPP context and octet 1, of the other context and octet 2. |
| SecCtx.SecurityContext.DeriveAsKeys | internal/context/uecontext/secctx.go:99-107 | Starts the chain at KgNB; NH and NCC keep their values when the access keys cannot be made. |
| SecCtx.SecurityContext.UpdateNh | internal/context/uecontext/secctx.go:109-113 | One step of the chain, also when the derivation fails. |
| SecCtx.SecurityContext.DeriveNasKeys | internal/context/uecontext/secctx.go:116-150 | KAMF changes only when every step succeeded, and then keys both contexts; what each failure leaves. |
| SecCtx.SecurityContext.NewKamfWritten | internal/context/uecontext/secctx.go:122-137 | KAMF' from direction 1 and the downlink count for a handover, direction 0 and the uplink count for a mobility update, else KAMF itself. |
| CucpContext.CuCpContext.CreateUE | internal/context/handle_ue.go:10-41 | A new UE under the next id replaces the one there was. |
| CucpContext.CuCpContext.HandleF1SetupRequest | internal/context/protocol_f1c.go:14-123 | Accepts exactly one cell with the CU's own PLMN, stores the DU, answers; crashes on no cell. |
| CucpContext.CuCpContext.HandleInitialULRRCMessageTransfer | internal/context/protocol_f1c.go:125-152 | Which messages are dropped, which crash and which create a UE. |
| CucpContext.CuCpContext.HandleRRCSetupRequest | internal/context/protocol_rrc.go:21-110 | The UE is replaced in all cases; RRC Setup goes out when identity and container are usable and both encoders succeed. |
| CucpContext.CuCpContext.HandleULRRCMessageTransfer | internal/context/protocol_f1c.go:154-248 | The two checks, then the dispatch on the decoded message. |
| CucpContext.CuCpContext.HandleRrcSetupComplete | internal/context/protocol_rrc.go:112-143 | Identity by parts or whole; one of the wrong size ends the procedure before the NAS message. |
| CucpContext.CuCpContext.HandleULInformationTransfer | internal/context/protocol_rrc.go:145-157 | The UE counts as ongoing, then the NAS message is sent; without one the program stops. |
| CucpContext.CuCpContext.HandleRRCSecurityModeComplete | internal/context/protocol_rrc.go:159-205 | UE Context Setup Request for the cell of the setup request. |
| CucpContext.CuCpContext.HandleRRCReconfigurationComplete | internal/context/protocol_rrc.go:207-235 | The UE is ready, also when the response cannot be encoded. |
| CucpContext.CuCpContext.HandleRRCUEContextSetupResponse | internal/context/protocol_f1c.go:250-317 | RRC Reconfiguration with the stored cell group and registration accept; a nil cell group may stop the program. |
| CucpContext.CuCpContext.SendNasPdu | internal/context/protocol_ngap.go:12-41 | Which NGAP message carries the NAS payload, by UE state, and the next state. |
| CucpContext.CuCpContext.HandleNgDownlinkNasTransport | internal/context/handle_amf.go:129-182 | Takes over the AMF's id for the UE, then the DL transfer with its actual addressing. |
| CucpContext.CuCpContext.HandlerInitialContextSetupRequest | internal/context/handle_amf.go:184-252 | Stores the UE context and the registration accept; stops on a serving PLMN under three octets. |
| CucpContext.GNBUe.CreateUeContext | internal/context/uecontext/uecontext.go:62-73 | Mobility PLMN decoded or marked as not sent, IMEISV, slices and capabilities; nothing else of the UE changes. |
| CucpContext.AllowedList | internal/context/handle_amf.go:191-207 | The loop prints every slice part in hexadecimal, or the text for one that was not sent. |
| CucpContext.CuCpContext.Dispatch | internal/context/handle_du.go:9-67 | On the object, every message has the effect the step function gives it. |
| CucpContext.ServeAll | internal/context/f1_server.go:110-151 | The object that is given a sequence of messages ends where the run of the step function does, with its output: the theorems on runs are about the object. |
| CucpContext.PlmnMatches | internal/context/handle_du.go:70-80 | True if and only if both are the same three octets. |
| CucpRuns.OutputIsOwed | internal/context/protocol_ngap.go:12-41 | The entire output of every run equals what the message history calls for, up to the message that stops the program if there is one: payloads, addressees, ids and order, encode failures included. |
| CucpRuns.SurvivedIs | internal/context/protocol_f1c.go:14-317 | That part of the history is its longest beginning without a message that stops the program, and the next message is one. |
| CucpRuns.StateIsTold | internal/context/protocol_rrc.go:112-157 | There is a UE exactly when the history has a setup request; every one of its fields, the DU in use, every DU on record and the next id are those the history tells. |
| CucpRuns.CrashesIffFatal | internal/context/protocol_f1c.go:14-317 | A run crashes if and only if some message lacks a part its handler dereferences, or came before the one that provides it; a nil cell group counts when the encoder panics on it. |
| CucpRuns.RejectedUlChangesNothing | internal/context/protocol_f1c.go:173-185 | A UL message for another UE or on SRB 0 changes nothing. |
| CucpRuns.IdentityReachesAmf | internal/context/protocol_rrc.go:112-143 | Over both handlers: a setup complete with the second part is never rejected for its identity, and the Initial UE Message carries the identity that was split if both parts are right-aligned. |
| CucpRuns.LeftAlignedAtAmfIff | internal/context/protocol_rrc.go:112-143 | With left-aligned parts it carries the right identity if and only if that is zero. |
| CucpRuns.WholeIdentityAtAmf | internal/context/protocol_rrc.go:123-141 | A whole identity of six octets goes to the AMF and into the UE as it is; with another number of octets but zero nothing is sent and the UE has no TMSI. |
| CucpRuns.NoIdentityAtAmf | internal/context/protocol_rrc.go:116-141 | Without an identity the registration goes out with the TMSI held before. |
| CucpRuns.NasRelayed | internal/context/protocol_rrc.go:112-157 | In every run the uplink NAS payloads sent are exactly the accepted ones whose NGAP message can be encoded, in order. |
| CucpRuns.RunMatches | internal/context/handle_du.go:9-67 | The induction behind these: every reachable context is the one its history describes. |
| CucpRuns.DuRecords | internal/context/protocol_f1c.go:79-104 | In every reachable state each stored DU is active under its own id, has one cell and announced a PLMN that decodes to the CU's own. |
| CucpRuns.SetupIdsDistinct | internal/context/handle_ue.go:16-17 | The CU ids in the RRC Setup messages of a run strictly increase. |
| Boot.Reachable | internal/context/context_init.go:38-53 | The invariant of boot and response handlers: every handler has stored exactly its entries so far, in order; boot has moved on exactly when one handler has got past its send. |
| Boot.F1AfterSetup | internal/context/context_init.go:45-53 | F1 service starts only after some NG Setup Response was completely stored, and from then on the AMF stays active. |
| Boot.StaysActive | internal/context/handle_amf.go:114 | Once active, the AMF stays active in every continuation. |
| Boot.OneHandlerReturns | internal/context/handle_amf.go:126 | Of any two response handlers at most one gets past its send, and one does only when boot has moved on. |
| Boot.WaitsForGood | internal/context/handle_amf.go:126 | A handler at its send after another one has returned is still there, and cannot move, in every continuation. |
| Boot.BootNotStuck | internal/context/context_init.go:45 | A waiting boot gets past its receive in some continuation without new responses, once one has come. |
| Tmsi.Build5GSTMSI | internal/common/utils/asn1.go:12-37 | For byte strings of any length: six bytes whose value is ((part2 << 39) or part1) mod 2^48. |
| Tmsi.Decode5GSTMSI | internal/common/utils/asn1.go:46-74 | Fails exactly when there are not six bytes; else ten bits of set id, six of pointer, thirty-two of TMSI. |
| Tmsi.DecodeRecomposes | internal/common/utils/asn1.go:46-74 | The three fields are in range and recompose to the 48-bit number. |
| Tmsi.DecodeWritten | internal/common/utils/asn1.go:46-74 | The octets of the three fields, from the six octets. |
| Tmsi.PartsToIdentity | internal/common/utils/asn1.go:12-74 | Right-aligned parts that are built and decoded again recompose to the original identity. |
| Tmsi.LeftAlignedPartsIff | internal/common/utils/asn1.go:12-37 | Left-aligned parts give the right identity if and only if it is zero. |
| BitStrings.ExtractBits | internal/context/handle_du.go:90-109 | The leading bits of any byte string as a big-endian number shifted right, sixty-four at most, none for a bit count from 2^63 on; extractSTMSI is the same loop. |
| BitStrings.ExtractedValue | internal/context/handle_du.go:90-109 | For up to eight octets and a bit count that fits them: the big-endian integer of the octets divided by two to the number of unused bits. |
| BitStrings.BitStringToUint64 | internal/common/utils/asn1.go:76-97 | Returns if and only if there are 1 to 8 bytes with at most eight bits unused, or one byte and a bit count from 2^63 + 9 on; then agrees with the other two. |
| BitStrings.TopBitsStep | internal/common/utils/asn1.go:130-151 | Reading up to eight more bits: shift what is there and put the top bits of the next byte below. |
| BitStrings.CellIdentityOfGnbId | internal/context/context_cucp.go:172-180 | For a 24-bit gNB id the cell identity is that id times 2^12. |
| Plmn.Reverse | internal/context/context_cucp.go:96-103 | The string backwards. |
| Plmn.GetMccAndMncInOctets | internal/context/context_cucp.go:79-94 | For digits, the octets of section 9.3.3.5 of TS 38.413, with the filler for two-digit MNCs. |
| Plmn.OctetsWritten | internal/context/context_cucp.go:79-94 | The three octets, digit by digit, for two-digit and three-digit MNCs. |
| Plmn.PlmnRoundTrip | internal/context/amfcontext/amfcontext.go:78-88 | ConvertMccMnc of the hexadecimal octets returns the MCC and MNC. |
| Plmn.PackingInjective | internal/context/context_cucp.go:79-94 | Different PLMNs have different octets. |
| Plmn.OctetsRoundTrip | internal/context/amfcontext/amfcontext.go:78-88 | Every three octets that are a PLMN are the packing of what they unpack to. |
| AmfContext.SupportList.Add | internal/context/amfcontext/amfcontext.go:104-121 | The bounded walk appends exactly one node at the tail; the list stays acyclic with as many nodes as its counter. |
| AmfContext.SupportList.Get | internal/context/amfcontext/amfcontext.go:58-76 | The i-th addition, without a nil dereference, for every i below the counter. |
| AmfContext.GNBAmf.AddedPlmn | internal/context/amfcontext/amfcontext.go:90-122 | Appends the decoded PLMN; the slice list is untouched. |
| AmfContext.GNBAmf.AddedSlice | internal/context/amfcontext/amfcontext.go:124-156 | Appends the slice; the PLMN list is untouched. |
| AmfContext.GNBAmf.GetPlmnSupport | internal/context/amfcontext/amfcontext.go:68-76 | The i-th PLMN added. |
| AmfContext.GNBAmf.GetSliceSupport | internal/context/amfcontext/amfcontext.go:58-66 | The i-th slice added. |
| AmfContext.GNBAmf.StoreSupport | internal/context/handle_amf.go:105-113 | The nested loops append every PLMN and all slices of the response in its order. |
| AmfContext.GNBAmf.HandlerNgSetupResponse | internal/context/handle_amf.go:96-127 | Name, capacity and lists are stored, the AMF is active, and both lists are read back whole. |
| AmfContext.SupportedPlmnIsRead | internal/context/handle_amf.go:105-108 | An AMF that announces a PLMN in standard octets is recorded under that PLMN's digits. |
| AmfContext.SetUp | internal/context/handle_amf.go:96-127 | After the handler on a new AMF each PLMN and each slice of the response is at its place, and a slice's SST and SD print the octets that were sent as SST and SD. |
| Hex.LowerWritten | internal/context/handle_amf.go:107-111 | The sixteen lower-case digits, printed and read. |
| Hex.UpperWritten | internal/context/uecontext/ueauth.go:36-38 | The sixteen upper-case digits, read. |
| Hex.HexWritten | internal/context/handle_amf.go:107-111 | Two lower-case digits an octet, the upper half first. |
| Hex.DecodesIff | internal/context/uecontext/ueauth.go:36-38 | A string decodes if and only if it has an even number of characters, all hexadecimal digits. |
| Hex.DecodedOctet | internal/context/uecontext/ueauth.go:36-38 | Each two of them give one octet, the upper half first. |
| Hex.HexRoundTrip | internal/context/handle_amf.go:107-111 | Decoding undoes printing. |
| Bits.XorBit | internal/context/uecontext/milenage.go:53-56 | Bit i of an exclusive or is set when the two bits i differ. |
| Bytes.BeFirst | internal/context/uecontext/sqn.go:33-37 | The first octet of a number is the most significant one. |
| Bytes.OctetOf | internal/context/uecontext/sqn.go:19-23 | Octet i of n holds the bits from 8 (n - 1 - i) on. |

## Left out

- SCTP, the F1 accept loop and every other transport: a message handed to the transport counts as sent, and transport errors are not modelled.
- NGAP, F1AP, RRC and ASN.1 encoders and decoders: messages arrive decoded, a field says when a decoder failed, and which messages can be encoded is an arbitrary predicate. Encoders do not panic, except that the RRC encoder may on a nil cell group, which is a parameter.
- Fields of decoded messages that the handlers do not read or only log, and constant fields of outgoing messages.
- Mandatory parts of decoded messages are there; optional ones that a handler dereferences are modelled as such (the UE identity, the DU container, the NAS field, message bodies of later versions, the serving PLMN).
- Location information (cell identity, PLMN, tracking area) in the two NAS-carrying NGAP messages: constant during a run.
- AES and HMAC-SHA-256: arbitrary functions, so no claim rests on their strength.
- Callbacks of the engine: limited to reading the current state, rewriting the user data and calling SetNextEvent; several SetNextEvent calls in one callback are the last one.
- ForceSetState, SyncSendEvent from inside a callback and SetNextEvent from outside one: assumed absent, since they bypass or block on the lock.
- The worker pool: any task may start at any time; its size and shutdown are not modelled.
- FsmEngine.ProcessNextEvent: a method must terminate, so it takes a rank that follow-ups lower; FsmFollowUps.EventRankedDrains and FsmFollowUps.DrainsIffAcyclic say when there is one, FsmFollowUps.RestlessNeverDrains that there need not be.
- Data races between per-message goroutines on the UE, the DU and the id generator: handlers are atomic and run one at a time.
- The 64-bit casts of UE and DU ids: taken as the bijections they are, on unbounded numbers.
- CucpContext.CuCpContext.HandlerInitialContextSetupRequest: how the IMEISV bit string prints as text is an input; the capabilities are an opaque value.
- Tmsi.Decode5GSTMSI: the pointer's NumBits is 9 in the code for a six-bit value; the model keeps it and claims only values.
- extractRandomValue and extractUint64FromBytes: no handler modelled here uses them.
- SecCtx: the sec5g and nas libraries are arbitrary functions that may fail; what a NAS context holds after its own failure is left open.
- Boot: appending one entry to the AMF's lists is one step; torn list updates by two concurrent responses are not modelled.
- The NG Setup Request, configuration loading and validation, logging, and the setters for AMF region, set and pointer: straight-line code.
- Terminate and shutdown: the send on Close has no receiver in the repository.
- Unused pools, commented-out duplicate-DU checks, E1AP, handover and paging: not implemented.
