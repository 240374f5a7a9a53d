/** Every run of the CU-CP, told from the messages received alone. */
module CucpRuns {
  import opened Bits
  import opened Bytes
  import opened BitStrings
  import opened Hex
  import opened Plmn
  import opened Tmsi
  import opened Options
  import opened Cucp

  // ---- reading the history --------------------------------------------------------------

  function Prefix(h: seq<Input>): seq<Input>
    requires h != []
  {
    h[..|h| - 1]
  }

  function Last(h: seq<Input>): Input
    requires h != []
  {
    h[|h| - 1]
  }

  /** An RRC Setup Request: it always replaces the UE. */
  predicate Creates(i: Input) {
    i.InitialUl? && i.ccch.SetupRequest?
  }

  /** An F1 Setup Request that is accepted: one cell, whose first PLMN is the CU's own. */
  predicate Connects(cfg: Config, i: Input) {
    && i.F1SetupRequest? && |i.cells| == 1 && |i.cells[0].plmns| > 0
    && i.cells[0].plmns[0] == Octets(cfg.mcc, cfg.mnc)
  }

  /** The DU such a request describes: active under its id, with the PLMN it announced and
      one cell, whose identity is the leading bits of the bit string, in the CU's network,
      with the PCI cut to sixteen bits. */
  function DescribedDu(cfg: Config, i: Input): Du
    requires Connects(cfg, i)
  {
    var x := i.cells[0];
    Du(i.duId, DU_ACTIVE, x.plmns[0],
       [DuCell(TopBits(x.cell.bytes, BitsTaken(|x.cell.bytes|, x.cell.numBits)), cfg.mcc, cfg.mnc, x.pci % 65536)])
  }

  /** The DU in use, and every DU on record: the latest accepted one, and the latest
      accepted one under each id. */
  function DuAt(cfg: Config, h: seq<Input>): Option<Du> {
    if h == [] then None
    else if Connects(cfg, Last(h)) then Some(DescribedDu(cfg, Last(h)))
    else DuAt(cfg, Prefix(h))
  }

  function PoolAt(cfg: Config, h: seq<Input>): map<int, Du> {
    if h == [] then map[]
    else if Connects(cfg, Last(h)) then PoolAt(cfg, Prefix(h))[Last(h).duId := DescribedDu(cfg, Last(h))]
    else PoolAt(cfg, Prefix(h))
  }

  predicate HasDu(cfg: Config, h: seq<Input>) {
    h != [] && (Connects(cfg, Last(h)) || HasDu(cfg, Prefix(h)))
  }

  predicate HasUe(h: seq<Input>) {
    h != [] && (Creates(Last(h)) || HasUe(Prefix(h)))
  }

  /** The DU's id for the UE, from the latest setup request. */
  function DuUeIdAt(h: seq<Input>): int {
    if h == [] then 0
    else if Creates(Last(h)) then Last(h).duUeId
    else DuUeIdAt(Prefix(h))
  }

  /** The AMF's id for the UE: from the latest downlink NAS since the UE was created,
      else the 1 it was created with. */
  function AmfUeIdAt(h: seq<Input>): int {
    if h == [] || Creates(Last(h)) then 1
    else if Last(h).DownlinkNas? then Last(h).amfUeId
    else AmfUeIdAt(Prefix(h))
  }

  function Part1At(h: seq<Input>): Option<Bytes> {
    if h == [] then None
    else if Creates(Last(h)) then
      if Last(h).ccch.identity.Part1? then Some(Last(h).ccch.identity.bits) else None
    else Part1At(Prefix(h))
  }

  /** The cell is known once a setup request was complete. */
  function NrCellAt(h: seq<Input>): Option<BitString> {
    if h == [] then None
    else if Creates(Last(h)) then
      if Usable(Last(h)) then Some(Last(h).cell) else None
    else NrCellAt(Prefix(h))
  }

  /** How many UEs were created so far: the next CU id. */
  function Creations(h: seq<Input>): nat {
    if h == [] then 0 else Creations(Prefix(h)) + if Creates(Last(h)) then 1 else 0
  }

  /** The CU's id for the UE: the number of UEs created before it. */
  function RrcUeIdAt(h: seq<Input>): int {
    if h == [] then 0
    else if Creates(Last(h)) then Creations(Prefix(h))
    else RrcUeIdAt(Prefix(h))
  }

  /** The setup request could be answered: a valid identity and a decodable container. */
  predicate Usable(i: Input)
    requires Creates(i)
  {
    !i.ccch.identity.OtherIdentity? && i.container.CellGroup?
  }

  function CellGroupAt(h: seq<Input>): Option<Bytes> {
    if h == [] then None
    else if Creates(Last(h)) then
      if Usable(Last(h)) then Some(Last(h).container.bytes) else None
    else CellGroupAt(Prefix(h))
  }

  /** The registration accept of the latest context setup since the UE was created. */
  function RegAcceptAt(h: seq<Input>): Bytes {
    if h == [] || Creates(Last(h)) then []
    else if Last(h).InitialContextSetupRequest? then Last(h).nas
    else RegAcceptAt(Prefix(h))
  }

  /** Octets in hexadecimal, or the text for what was not sent. */
  function Text(b: Option<Bytes>): string {
    match b
    case None => "not informed"
    case Some(bytes) => HexEncode(bytes)
  }

  /** A serving PLMN that can be indexed, if there is one. */
  predicate Indexable(i: Input) {
    i.InitialContextSetupRequest? && (i.servingPlmn.None? || |i.servingPlmn.value| >= 3)
  }

  /** What an initial context setup tells of the UE: the serving PLMN's MCC and MNC, the
      IMEISV, SST and SD of every slice in their order, the capabilities. */
  function DescribedContext(i: Input): UeContext
    requires Indexable(i)
  {
    UeContext(
      if i.servingPlmn.None? then "not informed" else ConvertMccMnc(HexEncode(i.servingPlmn.value)).0,
      if i.servingPlmn.None? then "not informed" else ConvertMccMnc(HexEncode(i.servingPlmn.value)).1,
      if i.imeisv.None? then "not informed" else i.imeisv.value,
      seq(|i.nssais|, k requires 0 <= k < |i.nssais| =>
        AllowedSlice(Text(i.nssais[k].sst), Text(i.nssais[k].sd))),
      Some(i.capabilities))
  }

  function ContextAt(h: seq<Input>): UeContext {
    if h == [] || Creates(Last(h)) then UeContext("", "", "", [], None)
    else if Indexable(Last(h)) then DescribedContext(Last(h))
    else ContextAt(Prefix(h))
  }

  /** The DU in use: the latest one accepted. */
  function DuIdAt(cfg: Config, h: seq<Input>): int {
    if h == [] then 0
    else if Connects(cfg, Last(h)) then Last(h).duId
    else DuIdAt(cfg, Prefix(h))
  }

  /** The DU the UE belongs to: the one in use when the UE was created. */
  function HomeDuAt(cfg: Config, h: seq<Input>): int {
    if h == [] then 0
    else if Creates(Last(h)) then DuIdAt(cfg, Prefix(h))
    else HomeDuAt(cfg, Prefix(h))
  }

  function RntiAt(h: seq<Input>): int {
    if h == [] then 0
    else if Creates(Last(h)) then Last(h).crnti
    else RntiAt(Prefix(h))
  }

  /** The UL message passes the checks made before it is looked into. */
  predicate Accepted(h: seq<Input>, i: Input) {
    i.UlRrcTransfer? && i.duUeId == DuUeIdAt(h) && i.srbId >= 1
  }

  /** The identity octets of a setup complete message: as they are, or the low 48 bits of
      the second part followed by the 39 bits of the first one, if there was one. */
  function GivenIdentity(part1: Option<Bytes>, t: TmsiField): Bytes {
    match t
    case FullTmsi(bytes) => bytes
    case Part2(bits) =>
      if part1.None? then [] else BeBytes(6, BitOr(BeValue(bits) * 0x80_0000_0000, BeValue(part1.value)))
    case NoTmsi => []
    case OtherTmsi => []
  }

  /** The identity in the latest setup complete message of this UE that had one. */
  function TmsiAt(h: seq<Input>): Option<FiveGSTMSI> {
    if h == [] || Creates(Last(h)) then None
    else if Accepted(Prefix(h), Last(h)) && Last(h).dcch.SetupComplete? then
      var bytes := GivenIdentity(Part1At(Prefix(h)), Last(h).dcch.tmsi);
      if bytes == [] then TmsiAt(Prefix(h))
      else match DecodeOf(bytes)
           case NotSixBytes => None
           case Identity(id) => Some(id)
    else TmsiAt(Prefix(h))
  }

  /** The identity bytes: of the setup request, then of each setup complete message that
      had a whole identity. */
  function IdentityAt(h: seq<Input>): Bytes {
    if h == [] then []
    else if Creates(Last(h)) then
      if Last(h).ccch.identity.Part1? then Last(h).ccch.identity.bits else []
    else if Accepted(Prefix(h), Last(h)) && Last(h).dcch.SetupComplete? then
      var bytes := GivenIdentity(Part1At(Prefix(h)), Last(h).dcch.tmsi);
      if |bytes| == 6 then bytes else IdentityAt(Prefix(h))
    else IdentityAt(Prefix(h))
  }

  /** The state of the UE's NAS connection. */
  function StateAt(h: seq<Input>): UeState {
    if h == [] || Creates(Last(h)) then UE_INITIALIZED
    else if !Accepted(Prefix(h), Last(h)) then StateAt(Prefix(h))
    else match Last(h).dcch
         case SetupComplete(t, _) => if Relayed(Prefix(h), t) then UE_ONGOING else StateAt(Prefix(h))
         case UlInformationTransfer(_) => UE_ONGOING
         case ReconfigurationComplete => UE_READY
         case _ => StateAt(Prefix(h))
  }

  /** The setup complete message is not stopped by an identity of the wrong size. */
  predicate Relayed(h: seq<Input>, t: TmsiField) {
    GivenIdentity(Part1At(h), t) == [] || |GivenIdentity(Part1At(h), t)| == 6
  }

  function IfNg(cfg: Config, m: Ng): seq<Out> {
    if cfg.encodes(PNg(m)) then [ToAmf(m)] else []
  }

  function IfF1(cfg: Config, m: F1): seq<Out> {
    if cfg.encodes(PF1(m)) then [ToDu(m)] else []
  }

  function IfRrc(cfg: Config, rrc: Rrc, answer: seq<Out>): seq<Out> {
    if cfg.encodes(PRrc(rrc)) then answer else []
  }

  /** What an accepted UL message calls for.  A setup complete: one Initial UE Message; an
      uplink transfer: one Uplink NAS Transport with the AMF's id; security mode complete:
      one UE Context Setup Request for the cell of the setup request; reconfiguration
      complete: one Initial Context Setup Response. */
  function OwedForUl(cfg: Config, h: seq<Input>): seq<Out>
    requires h != [] && Last(h).UlRrcTransfer?
  {
    var p := Prefix(h);
    match Last(h).dcch
    case Ignored => []
    case SetupComplete(t, nas) =>
      if Relayed(p, t) then IfNg(cfg, InitialUeMessage(1, nas, TmsiAt(h))) else []
    case EmptySetupComplete => []
    case UlInformationTransfer(nas) =>
      if nas.Some? then IfNg(cfg, UplinkNasTransport(AmfUeIdAt(p), 1, nas.value)) else []
    case SecurityModeComplete =>
      if NrCellAt(p).None? then []
      else IfF1(cfg, UeContextSetupRequest(RrcUeIdAt(p), DuUeIdAt(p), Octets(cfg.mcc, cfg.mnc), NrCellAt(p).value))
    case ReconfigurationComplete => IfNg(cfg, InitialContextSetupResponse(AmfUeIdAt(p), 1))
  }

  /** What the latest message calls for, given the ones before it. */
  function Owed(cfg: Config, h: seq<Input>): seq<Out>
    requires h != []
  {
    var p := Prefix(h);
    match Last(h)
    case F1SetupRequest(txn, _, cells) =>
      if Connects(cfg, Last(h)) then IfF1(cfg, F1SetupResponse(txn, cells[0].plmns[0], cells[0].cell, cells[0].pci))
      else []
    case InitialUl(duUeId, _, _, container, _) =>
      if Creates(Last(h)) && Usable(Last(h)) then
        var rrc := RrcSetup(container.bytes);
        IfRrc(cfg, rrc, IfF1(cfg, DlRrcTransfer(Creations(p), duUeId, 0, rrc)))
      else []
    case UlRrcTransfer(_, _, _) => if Accepted(p, Last(h)) then OwedForUl(cfg, h) else []
    case UeContextSetupResponse =>
      var rrc := RrcReconfiguration(CellGroupAt(p), RegAcceptAt(p));
      if cfg.encodes(PCell(CellGroupAt(p))) then IfRrc(cfg, rrc, [RrcToDu(rrc)]) else []
    case DownlinkNas(_, nas) =>
      var rrc := DlInformationTransfer(nas);
      IfRrc(cfg, rrc, IfF1(cfg, DlRrcTransfer(cfg.amfId, DuIdAt(cfg, p), 0, rrc)))
    case InitialContextSetupRequest(_, _, _, _, _) => []
  }

  function AllOwed(cfg: Config, h: seq<Input>): seq<Out> {
    if h == [] then [] else AllOwed(cfg, Prefix(h)) + Owed(cfg, h)
  }

  /** What the handler of an accepted UL message dereferences is not there: the cell of a
      complete setup request, or a part of the message itself. */
  predicate MissesPart(h: seq<Input>, dcch: Dcch) {
    match dcch
    case SecurityModeComplete => NrCellAt(h).None?
    case EmptySetupComplete => true
    case UlInformationTransfer(nas) => nas.None?
    case _ => false
  }

  /** A message whose handler dereferences or indexes something that is not there, in
      the message or in what the history has provided. */
  predicate Fatal(cfg: Config, h: seq<Input>, i: Input) {
    match i
    case F1SetupRequest(_, _, cells) => cells == []
    case InitialUl(_, _, ccch, _, _) => ccch.NotSetupRequest? || (ccch.SetupRequest? && !HasDu(cfg, h))
    case UlRrcTransfer(_, _, dcch) =>
      !HasUe(h) || (Accepted(h, i) && MissesPart(h, dcch))
    case UeContextSetupResponse => !HasUe(h) || (CellGroupAt(h).None? && cfg.nilPanics)
    case InitialContextSetupRequest(_, _, _, _, _) => !HasUe(h) || !Indexable(i)
    case _ => !HasUe(h)
  }

  // ---- the context is what the history says ------------------------------------------------

  /** What the history tells of the UE, field by field. */
  function UeAt(cfg: Config, h: seq<Input>): Ue {
    Ue(RrcUeIdAt(h), DuUeIdAt(h), HomeDuAt(cfg, h), RntiAt(h), cfg.amfId, AmfUeIdAt(h), 1, StateAt(h),
       Part1At(h), TmsiAt(h), IdentityAt(h), CellGroupAt(h), NrCellAt(h), RegAcceptAt(h), ContextAt(h))
  }

  ghost predicate Matches(cfg: Config, h: seq<Input>, c: Cu) {
    && c.du == DuAt(cfg, h) && c.duPool == PoolAt(cfg, h)
    && (c.du.Some? <==> HasDu(cfg, h))
    && (c.du.Some? ==> c.du.value.duId == DuIdAt(cfg, h))
    && c.ue == (if HasUe(h) then Some(UeAt(cfg, h)) else None)
    && (c.ue.Some? ==> c.du.Some?)
    && c.nextRrcUe == Creations(h)
    && c.out == AllOwed(cfg, h)
  }

  // How each kind of message moves what is told.

  lemma ToldQuiet(cfg: Config, h: seq<Input>)
    requires h != [] && !Creates(Last(h)) && !Last(h).DownlinkNas? && !Last(h).InitialContextSetupRequest?
    requires !Accepted(Prefix(h), Last(h)) || Last(h).dcch.Ignored? || Last(h).dcch.SecurityModeComplete?
    ensures UeAt(cfg, h) == UeAt(cfg, Prefix(h)) && Creations(h) == Creations(Prefix(h))
  {}

  lemma ToldFromAmf(cfg: Config, h: seq<Input>)
    requires h != [] && (Last(h).DownlinkNas? || Last(h).InitialContextSetupRequest?)
    requires Last(h).InitialContextSetupRequest? ==> Indexable(Last(h))
    ensures var u := UeAt(cfg, Prefix(h));
      UeAt(cfg, h) == if Last(h).DownlinkNas? then u.(amfUeId := Last(h).amfUeId)
                      else u.(regAccept := Last(h).nas, context := DescribedContext(Last(h)))
    ensures Creations(h) == Creations(Prefix(h))
  {}

  /** The handler's context is the one the message describes. */
  lemma SameContext(i: Input)
    requires Indexable(i)
    ensures ServingPlmnOk(i.servingPlmn) && ContextOf(i) == DescribedContext(i)
  {
    assert ContextOf(i).allowed == DescribedContext(i).allowed;
  }

  lemma SameIdentity(part1: Option<Bytes>, t: TmsiField)
    ensures TmsiBytes(part1, t) == GivenIdentity(part1, t)
  {}

  /** The UE a setup request leaves. */
  function CreatedUe(cfg: Config, id: int, home: int, i: Input): Ue
    requires Creates(i)
  {
    var bits := if i.ccch.identity.Part1? then i.ccch.identity.bits else [];
    Ue(id, i.duUeId, home, i.crnti, cfg.amfId, 1, 1, UE_INITIALIZED,
       if i.ccch.identity.Part1? then Some(bits) else None, None, bits,
       if Usable(i) then Some(i.container.bytes) else None,
       if Usable(i) then Some(i.cell) else None, [], NO_CONTEXT)
  }

  lemma ToldCreated(cfg: Config, h: seq<Input>)
    requires h != [] && Creates(Last(h))
    ensures UeAt(cfg, h) == CreatedUe(cfg, Creations(Prefix(h)), DuIdAt(cfg, Prefix(h)), Last(h))
    ensures Creations(h) == Creations(Prefix(h)) + 1
  {}

  lemma ToldUplink(cfg: Config, h: seq<Input>)
    requires h != [] && Accepted(Prefix(h), Last(h))
    requires Last(h).dcch.UlInformationTransfer? || Last(h).dcch.ReconfigurationComplete?
    ensures UeAt(cfg, h) == UeAt(cfg, Prefix(h)).(
      state := if Last(h).dcch.ReconfigurationComplete? then UE_READY else UE_ONGOING)
    ensures Creations(h) == Creations(Prefix(h))
  {}

  lemma ToldSetupComplete(cfg: Config, h: seq<Input>)
    requires h != [] && Accepted(Prefix(h), Last(h)) && Last(h).dcch.SetupComplete?
    ensures var u, t := UeAt(cfg, Prefix(h)), Last(h).dcch.tmsi; var bytes := GivenIdentity(u.part1, t);
      UeAt(cfg, h) ==
        if bytes == [] then u.(state := UE_ONGOING)
        else match DecodeOf(bytes)
             case NotSixBytes => u.(tmsi := None)
             case Identity(id) => u.(tmsi := Some(id), identity := bytes, state := UE_ONGOING)
    ensures Creations(h) == Creations(Prefix(h))
  {}

  // How each handler moves the context, and what it sends.

  /** The step went without a crash, leaving this UE and having sent this. */
  ghost predicate Effect(c: Cu, after: Cu, ue: Option<Ue>, sent: seq<Out>) {
    !after.crashed && after.ue == ue && after.out == c.out + sent
  }

  ghost predicate KeepsRest(c: Cu, after: Cu) {
    after.du == c.du && after.duPool == c.duPool && after.nextRrcUe == c.nextRrcUe
  }

  lemma F1SetupEffect(cfg: Config, c: Cu, i: Input)
    requires i.F1SetupRequest? && !c.crashed
    ensures var after := Step(cfg, c, i);
      if i.cells == [] then after.crashed
      else if Connects(cfg, i) then
        && Effect(c, after, c.ue,
             IfF1(cfg, F1SetupResponse(i.txn, i.cells[0].plmns[0], i.cells[0].cell, i.cells[0].pci)))
        && after.du == Some(DescribedDu(cfg, i)) && after.duPool == c.duPool[i.duId := DescribedDu(cfg, i)]
        && after.nextRrcUe == c.nextRrcUe
      else after == c
  {}

  lemma ContextSetupEffect(cfg: Config, c: Cu)
    requires !c.crashed && (c.ue.Some? ==> c.du.Some?)
    ensures var after := Step(cfg, c, UeContextSetupResponse);
      if c.ue.None? || (c.ue.value.cellGroup.None? && cfg.nilPanics) then after.crashed
      else
        var ue := c.ue.value;
        var rrc := RrcReconfiguration(ue.cellGroup, ue.regAccept);
        && KeepsRest(c, after)
        && Effect(c, after, c.ue, if cfg.encodes(PCell(ue.cellGroup)) then IfRrc(cfg, rrc, [RrcToDu(rrc)]) else [])
  {}

  lemma SecurityModeEffect(cfg: Config, c: Cu, ue: Ue)
    requires !c.crashed && c.ue == Some(ue) && c.du.Some?
    ensures var after := OnSecurityModeComplete(cfg, c, ue);
      if ue.nrCell.None? then after.crashed
      else
        && KeepsRest(c, after)
        && Effect(c, after, c.ue,
             IfF1(cfg, UeContextSetupRequest(ue.rrcUeId, ue.duUeId, Octets(cfg.mcc, cfg.mnc), ue.nrCell.value)))
  {}

  lemma DownlinkEffect(cfg: Config, c: Cu, i: Input)
    requires !c.crashed && i.DownlinkNas? && (c.ue.Some? ==> c.du.Some?)
    ensures var after := Step(cfg, c, i);
      if c.ue.None? then after.crashed
      else
        var rrc := DlInformationTransfer(i.nas);
        && KeepsRest(c, after)
        && Effect(c, after, Some(c.ue.value.(amfUeId := i.amfUeId)),
             IfRrc(cfg, rrc, IfF1(cfg, DlRrcTransfer(cfg.amfId, c.du.value.duId, 0, rrc))))
  {}

  lemma SetupRequestEffect(cfg: Config, c: Cu, i: Input)
    requires !c.crashed && Creates(i)
    ensures var after := Step(cfg, c, i);
      if c.du.None? then after.crashed
      else
        && after.du == c.du && after.duPool == c.duPool && after.nextRrcUe == c.nextRrcUe + 1
        && Effect(c, after, Some(CreatedUe(cfg, c.nextRrcUe, c.du.value.duId, i)),
             if Usable(i) then
               IfRrc(cfg, RrcSetup(i.container.bytes),
                 IfF1(cfg, DlRrcTransfer(c.nextRrcUe, i.duUeId, 0, RrcSetup(i.container.bytes))))
             else [])
  {}

  lemma SendNasEffect(cfg: Config, c: Cu, ue: Ue, nas: Bytes)
    requires !c.crashed && (ue.state.UE_INITIALIZED? || ue.state.UE_ONGOING?)
    ensures var after := SendNas(cfg, c, ue, nas);
      && KeepsRest(c, after)
      && Effect(c, after, Some(ue.(state := UE_ONGOING)), IfNg(cfg,
           if ue.state.UE_INITIALIZED? then InitialUeMessage(ue.ranUeId, nas, ue.tmsi)
           else UplinkNasTransport(ue.amfUeId, ue.ranUeId, nas)))
  {}

  lemma ReconfigurationEffect(cfg: Config, c: Cu, ue: Ue)
    requires !c.crashed
    ensures var after := OnReconfigurationComplete(cfg, c, ue);
      && KeepsRest(c, after)
      && Effect(c, after, Some(ue.(state := UE_READY)),
           IfNg(cfg, InitialContextSetupResponse(ue.amfUeId, ue.ranUeId)))
  {}

  // Putting the two sides together.

  /** The conclusion of one step of the induction. */
  ghost predicate Kept(cfg: Config, h: seq<Input>, c: Cu)
    requires h != []
  {
    var after := Step(cfg, c, Last(h));
    && (after.crashed <==> Fatal(cfg, Prefix(h), Last(h)))
    && (!after.crashed ==> Matches(cfg, h, after))
  }

  lemma SetupMatches(cfg: Config, h: seq<Input>, c: Cu)
    requires h != [] && Last(h).F1SetupRequest? && !c.crashed && Matches(cfg, Prefix(h), c)
    ensures Kept(cfg, h, c)
  {
    F1SetupEffect(cfg, c, Last(h));
    ToldQuiet(cfg, h);
  }

  lemma InitialMatches(cfg: Config, h: seq<Input>, c: Cu)
    requires h != [] && Last(h).InitialUl? && !c.crashed && Matches(cfg, Prefix(h), c)
    ensures Kept(cfg, h, c)
  {
    if Creates(Last(h)) {
      SetupRequestEffect(cfg, c, Last(h));
      ToldCreated(cfg, h);
    } else {
      ToldQuiet(cfg, h);
    }
  }

  lemma FromAmfMatches(cfg: Config, h: seq<Input>, c: Cu)
    requires h != [] && !c.crashed && Matches(cfg, Prefix(h), c)
    requires Last(h).DownlinkNas? || Last(h).InitialContextSetupRequest?
    ensures Kept(cfg, h, c)
  {
    if Last(h).DownlinkNas? {
      ToldFromAmf(cfg, h);
      DownlinkEffect(cfg, c, Last(h));
    } else if Indexable(Last(h)) {
      ToldFromAmf(cfg, h);
      SameContext(Last(h));
    }
  }

  lemma ContextSetupMatches(cfg: Config, h: seq<Input>, c: Cu)
    requires h != [] && !c.crashed && Matches(cfg, Prefix(h), c)
    requires Last(h).UeContextSetupResponse?
    ensures Kept(cfg, h, c)
  {
    ContextSetupEffect(cfg, c);
    ToldQuiet(cfg, h);
  }

  lemma QuietUlMatches(cfg: Config, h: seq<Input>, c: Cu)
    requires h != [] && Last(h).UlRrcTransfer? && !c.crashed && Matches(cfg, Prefix(h), c)
    requires !Accepted(Prefix(h), Last(h)) || Last(h).dcch.Ignored?
    ensures Kept(cfg, h, c)
  {
    ToldQuiet(cfg, h);
  }

  lemma SecurityModeMatches(cfg: Config, h: seq<Input>, c: Cu)
    requires h != [] && !c.crashed && Matches(cfg, Prefix(h), c)
    requires Accepted(Prefix(h), Last(h)) && Last(h).dcch.SecurityModeComplete?
    ensures Kept(cfg, h, c)
  {
    ToldQuiet(cfg, h);
    if c.ue.Some? {
      SecurityModeEffect(cfg, c, c.ue.value);
    }
  }

  lemma UplinkMatches(cfg: Config, h: seq<Input>, c: Cu)
    requires h != [] && !c.crashed && Matches(cfg, Prefix(h), c)
    requires Accepted(Prefix(h), Last(h)) && Last(h).dcch.UlInformationTransfer?
    ensures Kept(cfg, h, c)
  {
    ToldUplink(cfg, h);
    if c.ue.Some? && Last(h).dcch.dedicatedNas.Some? {
      SendNasEffect(cfg, c, c.ue.value.(state := UE_ONGOING), Last(h).dcch.dedicatedNas.value);
    }
  }

  lemma ReconfigurationMatches(cfg: Config, h: seq<Input>, c: Cu)
    requires h != [] && !c.crashed && Matches(cfg, Prefix(h), c)
    requires Accepted(Prefix(h), Last(h)) && Last(h).dcch.ReconfigurationComplete?
    ensures Kept(cfg, h, c)
  {
    ToldUplink(cfg, h);
    if c.ue.Some? {
      ReconfigurationEffect(cfg, c, c.ue.value);
    }
  }

  /** What the handler does, case by case of the identity. */
  lemma SetupCompleteEffect(cfg: Config, c: Cu, ue: Ue, t: TmsiField, nas: Bytes)
    requires !c.crashed && c.ue == Some(ue)
    ensures var after, bytes := OnSetupComplete(cfg, c, ue, t, nas), GivenIdentity(ue.part1, t);
      && KeepsRest(c, after)
      && (if bytes == [] then
            Effect(c, after, Some(ue.(state := UE_ONGOING)), IfNg(cfg, InitialUeMessage(ue.ranUeId, nas, ue.tmsi)))
          else match DecodeOf(bytes)
               case NotSixBytes => Effect(c, after, Some(ue.(tmsi := None)), [])
               case Identity(id) =>
                 Effect(c, after, Some(ue.(tmsi := Some(id), identity := bytes, state := UE_ONGOING)),
                   IfNg(cfg, InitialUeMessage(ue.ranUeId, nas, Some(id)))))
  {
    var bytes := GivenIdentity(ue.part1, t);
    SameIdentity(ue.part1, t);
    if bytes == [] {
      SendNasEffect(cfg, c, ue.(state := UE_INITIALIZED), nas);
    } else if |bytes| == 6 {
      SendNasEffect(cfg, c,
        ue.(tmsi := Some(DecodeOf(bytes).value), identity := bytes, state := UE_INITIALIZED), nas);
    }
  }

  lemma SetupCompleteMatches(cfg: Config, h: seq<Input>, c: Cu)
    requires h != [] && !c.crashed && Matches(cfg, Prefix(h), c)
    requires Accepted(Prefix(h), Last(h)) && Last(h).dcch.SetupComplete?
    ensures Kept(cfg, h, c)
  {
    ToldSetupComplete(cfg, h);
    if c.ue.Some? {
      SetupCompleteEffect(cfg, c, c.ue.value, Last(h).dcch.tmsi, Last(h).dcch.nas);
    }
  }

  lemma EmptyMatches(cfg: Config, h: seq<Input>, c: Cu)
    requires h != [] && !c.crashed && Matches(cfg, Prefix(h), c)
    requires Accepted(Prefix(h), Last(h)) && Last(h).dcch.EmptySetupComplete?
    ensures Kept(cfg, h, c)
  {}

  lemma StepMatches(cfg: Config, h: seq<Input>, c: Cu)
    requires h != [] && !c.crashed && Matches(cfg, Prefix(h), c)
    ensures Kept(cfg, h, c)
  {
    match Last(h)
    case F1SetupRequest(_, _, _) => SetupMatches(cfg, h, c);
    case InitialUl(_, _, _, _, _) => InitialMatches(cfg, h, c);
    case UeContextSetupResponse => ContextSetupMatches(cfg, h, c);
    case UlRrcTransfer(_, _, dcch) =>
      if !Accepted(Prefix(h), Last(h)) {
        QuietUlMatches(cfg, h, c);
      } else {
        match dcch
        case Ignored => QuietUlMatches(cfg, h, c);
        case SetupComplete(_, _) => SetupCompleteMatches(cfg, h, c);
        case EmptySetupComplete => EmptyMatches(cfg, h, c);
        case UlInformationTransfer(_) => UplinkMatches(cfg, h, c);
        case SecurityModeComplete => SecurityModeMatches(cfg, h, c);
        case ReconfigurationComplete => ReconfigurationMatches(cfg, h, c);
      }
    case _ => FromAmfMatches(cfg, h, c);
  }

  ghost predicate HasFatal(cfg: Config, h: seq<Input>) {
    exists k: nat :: k < |h| && Fatal(cfg, h[..k], h[k])
  }

  lemma HasFatalSnoc(cfg: Config, h: seq<Input>)
    requires h != []
    ensures HasFatal(cfg, h) <==> HasFatal(cfg, Prefix(h)) || Fatal(cfg, Prefix(h), Last(h))
  {
    var p := Prefix(h);
    forall k: nat | k < |p| ensures Fatal(cfg, p[..k], p[k]) <==> Fatal(cfg, h[..k], h[k]) {
      assert h[..k] == p[..k] && h[k] == p[k];
    }
    assert Fatal(cfg, p, Last(h)) <==> Fatal(cfg, h[..|p|], h[|p|]);
  }

  lemma {:induction false} RunMatches(cfg: Config, h: seq<Input>)
    ensures Run(cfg, h).crashed <==> HasFatal(cfg, h)
    ensures !Run(cfg, h).crashed ==> Matches(cfg, h, Run(cfg, h))
  {
    if h != [] {
      var c := Run(cfg, Prefix(h));
      RunMatches(cfg, Prefix(h));
      HasFatalSnoc(cfg, h);
      if !c.crashed {
        StepMatches(cfg, h, c);
      }
    }
  }

  /** The history up to the message that stops the program, if there is one. */
  ghost function Survived(cfg: Config, h: seq<Input>): seq<Input> {
    if h == [] then []
    else if HasFatal(cfg, Prefix(h)) then Survived(cfg, Prefix(h))
    else if Fatal(cfg, Prefix(h), Last(h)) then Prefix(h)
    else h
  }

  lemma {:induction false} SurvivedIs(cfg: Config, h: seq<Input>)
    ensures Survived(cfg, h) <= h && !HasFatal(cfg, Survived(cfg, h))
    ensures Survived(cfg, h) != h ==> Fatal(cfg, Survived(cfg, h), h[|Survived(cfg, h)|])
    ensures Survived(cfg, h) == h <==> !HasFatal(cfg, h)
  {
    if h != [] {
      HasFatalSnoc(cfg, h);
      SurvivedIs(cfg, Prefix(h));
    }
  }

  lemma CrashSendsNothing(cfg: Config, c: Cu, i: Input)
    requires !c.crashed && Step(cfg, c, i).crashed
    ensures Step(cfg, c, i).out == c.out
  {}

  /** The whole output of any run, to the AMF and to the DU, in order: exactly what the
      messages received call for, up to the one that stops the program if there is one,
      addressed with the ids they carried. */
  lemma {:induction false} OutputIsOwed(cfg: Config, h: seq<Input>)
    ensures Run(cfg, h).out == AllOwed(cfg, Survived(cfg, h))
    ensures !Run(cfg, h).crashed ==> Survived(cfg, h) == h
  {
    RunMatches(cfg, h);
    if h != [] {
      var c := Run(cfg, Prefix(h));
      RunMatches(cfg, Prefix(h));
      HasFatalSnoc(cfg, h);
      if c.crashed {
        OutputIsOwed(cfg, Prefix(h));
      } else if Run(cfg, h).crashed {
        CrashSendsNothing(cfg, c, Last(h));
      }
    }
  }

  /** So every field of the UE and of every DU is the one the messages put there. */
  lemma StateIsTold(cfg: Config, h: seq<Input>)
    requires !Run(cfg, h).crashed
    ensures Run(cfg, h).ue == if HasUe(h) then Some(UeAt(cfg, h)) else None
    ensures Run(cfg, h).du == DuAt(cfg, h) && Run(cfg, h).duPool == PoolAt(cfg, h)
    ensures Run(cfg, h).nextRrcUe == Creations(h)
  {
    RunMatches(cfg, h);
  }

  /** The program runs on exactly as long as every message finds what its handler
      dereferences: a DU before its UEs, a UE before anything about it, a complete setup
      request before Security Mode Complete, at least one cell in an F1 setup, a NAS
      message in a UL Information Transfer, three octets in a serving PLMN. */
  lemma CrashesIffFatal(cfg: Config, h: seq<Input>)
    ensures Run(cfg, h).crashed <==> exists k: nat :: k < |h| && Fatal(cfg, h[..k], h[k])
  {
    RunMatches(cfg, h);
  }

  /** A UL message that fails a check changes nothing at all. */
  lemma RejectedUlChangesNothing(cfg: Config, h: seq<Input>, i: Input)
    requires !Run(cfg, h).crashed && HasUe(h) && i.UlRrcTransfer? && !Accepted(h, i)
    ensures Run(cfg, h + [i]) == Run(cfg, h)
  {
    RunMatches(cfg, h);
    assert (h + [i])[..|h|] == h;
  }

  // ---- the identity in two parts -------------------------------------------------------------

  /** The latest message is an accepted setup complete with the second part of the
      identity, and the setup request of this UE had the first part. */
  predicate TwoParts(h: seq<Input>) {
    && h != [] && Accepted(Prefix(h), Last(h))
    && Last(h).dcch.SetupComplete? && Last(h).dcch.tmsi.Part2? && Part1At(Prefix(h)).Some?
  }

  function SentIdentity(h: seq<Input>): FiveGSTMSI
    requires TwoParts(h)
  {
    DecodeOf(BuildOf(Last(h).dcch.tmsi.bits, Part1At(Prefix(h)).value)).value
  }

  /** The identity split over the setup request and the setup complete message: for
      parts of any length the UE's registration goes to the AMF with an identity, and if
      both parts are right-aligned it is the one that was split. */
  lemma IdentityReachesAmf(cfg: Config, h: seq<Input>)
    requires TwoParts(h) && !Run(cfg, h).crashed
    ensures Run(cfg, h).out == Run(cfg, Prefix(h)).out
              + IfNg(cfg, InitialUeMessage(1, Last(h).dcch.nas, Some(SentIdentity(h))))
    ensures var part2, part1 := BeValue(Last(h).dcch.tmsi.bits), BeValue(Part1At(Prefix(h)).value);
      part1 < TWO39 && part2 < 0x200 ==> Recompose(SentIdentity(h)) == part2 * TWO39 + part1
  {
    var part2, part1 := Last(h).dcch.tmsi.bits, Part1At(Prefix(h)).value;
    OutputIsOwed(cfg, h);
    OutputIsOwed(cfg, Prefix(h));
    if BeValue(part1) < TWO39 && BeValue(part2) < 0x200 {
      PartsToIdentity(part2, part1);
    }
  }

  /** If both parts are left-aligned in their bytes the AMF is sent the identity that was
      split only when that is zero. */
  lemma LeftAlignedAtAmfIff(cfg: Config, h: seq<Input>, hi: nat, lo: nat)
    requires TwoParts(h) && !Run(cfg, h).crashed && hi < 0x200 && lo < TWO39
    requires BeValue(Part1At(Prefix(h)).value) == 2 * lo && BeValue(Last(h).dcch.tmsi.bits) == 128 * hi
    ensures Run(cfg, h).out == Run(cfg, Prefix(h)).out
              + IfNg(cfg, InitialUeMessage(1, Last(h).dcch.nas, Some(SentIdentity(h))))
    ensures Recompose(SentIdentity(h)) == hi * TWO39 + lo <==> hi == 0 && lo == 0
  {
    IdentityReachesAmf(cfg, h);
    LeftAlignedPartsIff(Last(h).dcch.tmsi.bits, Part1At(Prefix(h)).value, hi, lo);
  }

  // ---- the identity as a whole, or none ----------------------------------------------------

  /** The latest message is an accepted setup complete. */
  predicate Completes(h: seq<Input>) {
    h != [] && Accepted(Prefix(h), Last(h)) && Last(h).dcch.SetupComplete?
  }

  /** A whole identity.  With six octets the registration goes to the AMF with those, and
      the UE keeps them; with any other number but zero nothing is sent and the UE has no
      TMSI. */
  lemma WholeIdentityAtAmf(cfg: Config, h: seq<Input>) returns (id: FiveGSTMSI)
    requires Completes(h) && Last(h).dcch.tmsi.FullTmsi? && !Run(cfg, h).crashed
    ensures Run(cfg, h).ue.Some?
    ensures var bytes, sent, ue := Last(h).dcch.tmsi.bytes, Run(cfg, Prefix(h)).out, Run(cfg, h).ue.value;
      && (|bytes| == 6 ==>
            && Run(cfg, h).out == sent + IfNg(cfg, InitialUeMessage(1, Last(h).dcch.nas, Some(id)))
            && Recompose(id) == BeValue(bytes) && id.tmsi == bytes[2..]
            && ue.tmsi == Some(id) && ue.identity == bytes && ue.state == UE_ONGOING)
      && (|bytes| != 6 && bytes != [] ==> Run(cfg, h).out == sent && ue.tmsi == None)
  {
    var bytes := Last(h).dcch.tmsi.bytes;
    OutputIsOwed(cfg, h);
    OutputIsOwed(cfg, Prefix(h));
    RunMatches(cfg, h);
    DecodeWritten(bytes);
    if |bytes| == 6 {
      id := DecodeOf(bytes).value;
      DecodeRecomposes(bytes);
    } else {
      id := FiveGSTMSI(BitString([], 0), BitString([], 0), []);
    }
  }

  /** No identity: none in the message, an unknown kind, no octets, or a second part
      without the first.  The registration goes out with the identity held before. */
  lemma NoIdentityAtAmf(cfg: Config, h: seq<Input>)
    requires Completes(h) && !Run(cfg, h).crashed
    requires var t := Last(h).dcch.tmsi;
      t.NoTmsi? || t.OtherTmsi? || t == FullTmsi([]) || (t.Part2? && Part1At(Prefix(h)).None?)
    ensures Run(cfg, Prefix(h)).ue.Some? && Run(cfg, h).ue.Some?
    ensures var held := Run(cfg, Prefix(h)).ue.value.tmsi;
      && Run(cfg, h).out == Run(cfg, Prefix(h)).out + IfNg(cfg, InitialUeMessage(1, Last(h).dcch.nas, held))
      && Run(cfg, h).ue.value.tmsi == held && Run(cfg, h).ue.value.state == UE_ONGOING
  {
    OutputIsOwed(cfg, h);
    OutputIsOwed(cfg, Prefix(h));
    RunMatches(cfg, h);
    RunMatches(cfg, Prefix(h));
  }

  // ---- the NAS relay ------------------------------------------------------------------------

  /** The uplink NAS payloads in what was sent. */
  function NasPayloads(out: seq<Out>): seq<Bytes> {
    if out == [] then [] else NasPayloads(out[..|out| - 1]) + NasIn(out[|out| - 1])
  }

  function NasIn(o: Out): seq<Bytes> {
    match o
    case ToAmf(InitialUeMessage(_, nas, _)) => [nas]
    case ToAmf(UplinkNasTransport(_, _, nas)) => [nas]
    case _ => []
  }

  /** The NGAP message for the latest message, when that brings uplink NAS to relay. */
  function NasMessage(h: seq<Input>): Option<Ng>
    requires h != []
  {
    if !Accepted(Prefix(h), Last(h)) then None
    else match Last(h).dcch
         case SetupComplete(t, nas) =>
           if Relayed(Prefix(h), t) then Some(InitialUeMessage(1, nas, TmsiAt(h))) else None
         case UlInformationTransfer(Some(nas)) => Some(UplinkNasTransport(AmfUeIdAt(Prefix(h)), 1, nas))
         case _ => None
  }

  /** Its payload, if it can be encoded. */
  function NasOf(cfg: Config, h: seq<Input>): seq<Bytes>
    requires h != []
  {
    match NasMessage(h)
    case None => []
    case Some(m) => if cfg.encodes(PNg(m)) then NasIn(ToAmf(m)) else []
  }

  function AllNas(cfg: Config, h: seq<Input>): seq<Bytes> {
    if h == [] then [] else AllNas(cfg, Prefix(h)) + NasOf(cfg, h)
  }

  lemma PayloadsSnoc(out: seq<Out>, o: Out)
    ensures NasPayloads(out + [o]) == NasPayloads(out) + NasIn(o)
  {
    assert (out + [o])[..|out|] == out;
  }

  lemma PayloadsOfOne(o: Out)
    ensures NasPayloads([o]) == NasIn(o)
  {
    assert [o][..0] == [];
    assert NasPayloads([]) == [];
  }

  lemma PayloadsOfTwo(a: seq<Out>, b: seq<Out>)
    requires |b| <= 1
    ensures NasPayloads(a + b) == NasPayloads(a) + NasPayloads(b)
  {
    if b == [] {
      assert a + b == a;
    } else {
      assert b == [b[0]];
      PayloadsSnoc(a, b[0]);
      PayloadsOfOne(b[0]);
    }
  }

  lemma PayloadOwed(cfg: Config, h: seq<Input>)
    requires h != []
    ensures NasPayloads(Owed(cfg, h)) == NasOf(cfg, h) && |Owed(cfg, h)| <= 1
  {
    var out := Owed(cfg, h);
    assert |out| <= 1;
    assert |out| == 1 ==> out[..0] == [];
    assert NasPayloads([]) == [];
  }

  lemma {:induction false} PayloadsOwed(cfg: Config, h: seq<Input>)
    ensures NasPayloads(AllOwed(cfg, h)) == AllNas(cfg, h)
  {
    if h != [] {
      PayloadsOwed(cfg, Prefix(h));
      PayloadOwed(cfg, h);
      PayloadsOfTwo(AllOwed(cfg, Prefix(h)), Owed(cfg, h));
    }
  }

  /** In every run the uplink NAS payloads sent to the AMF are exactly the accepted ones
      whose message can be encoded, in order: none is lost, doubled, changed or moved. */
  lemma NasRelayed(cfg: Config, h: seq<Input>)
    ensures NasPayloads(Run(cfg, h).out) == AllNas(cfg, Survived(cfg, h))
  {
    OutputIsOwed(cfg, h);
    PayloadsOwed(cfg, Survived(cfg, h));
  }

  // ---- distributed units and ids ------------------------------------------------------------

  ghost predicate DuOk(cfg: Config, id: int, du: Du) {
    && du.duId == id && du.state.DU_ACTIVE? && |du.cells| == 1
    && du.cells[0].mcc == cfg.mcc && du.cells[0].mnc == cfg.mnc
    && |HexEncode(du.setupPlmn)| >= 6
    && ConvertMccMnc(HexEncode(du.setupPlmn)) == (cfg.mcc, cfg.mnc)
  }

  /** Every DU on record is active under its own id, serves one cell, and announced a
      PLMN that decodes to the CU's own; the DU in use is on record. */
  lemma {:induction false} DuRecords(cfg: Config, h: seq<Input>)
    ensures var c := Run(cfg, h);
      && (forall id <- c.duPool :: DuOk(cfg, id, c.duPool[id]))
      && (c.du.Some? ==> c.du.value.duId in c.duPool && c.duPool[c.du.value.duId] == c.du.value)
  {
    if h != [] {
      DuRecords(cfg, Prefix(h));
      DuStep(cfg, Run(cfg, Prefix(h)), Last(h));
    }
  }

  ghost predicate PoolOk(cfg: Config, c: Cu) {
    && (forall id <- c.duPool :: DuOk(cfg, id, c.duPool[id]))
    && (c.du.Some? ==> c.du.value.duId in c.duPool && c.duPool[c.du.value.duId] == c.du.value)
  }

  lemma DuUntouched(cfg: Config, c: Cu, i: Input)
    requires !Connects(cfg, i)
    ensures Step(cfg, c, i).du == c.du && Step(cfg, c, i).duPool == c.duPool
  {}

  lemma DuStored(cfg: Config, c: Cu, i: Input)
    requires Connects(cfg, i) && !c.crashed
    ensures var du := DuFor(cfg, i.duId, i.cells[0]);
      && Step(cfg, c, i).du == Some(du) && Step(cfg, c, i).duPool == c.duPool[i.duId := du]
      && DuOk(cfg, i.duId, du)
  {
    PlmnRoundTrip(cfg.mcc, cfg.mnc);
  }

  lemma DuStep(cfg: Config, c: Cu, i: Input)
    requires PoolOk(cfg, c)
    ensures PoolOk(cfg, Step(cfg, c, i))
  {
    if Connects(cfg, i) && !c.crashed {
      DuStored(cfg, c, i);
    } else if !Connects(cfg, i) {
      DuUntouched(cfg, c, i);
    }
  }

  /** The CU's UE ids in the RRC Setup messages sent, in order. */
  function SetupIds(out: seq<Out>): seq<int> {
    if out == [] then [] else SetupIds(out[..|out| - 1]) + SetupIdIn(out[|out| - 1])
  }

  function SetupIdIn(o: Out): seq<int> {
    if o.ToDu? && o.f1.DlRrcTransfer? && o.f1.rrc.RrcSetup? then [o.f1.cuUeId] else []
  }

  ghost predicate Increasing(s: seq<int>) {
    forall i, j :: 0 <= i < j < |s| ==> s[i] < s[j]
  }

  lemma SetupIdsSnoc(out: seq<Out>, o: Out)
    ensures SetupIds(out + [o]) == SetupIds(out) + SetupIdIn(o)
  {
    assert (out + [o])[..|out|] == out;
  }

  ghost predicate IdsOk(c: Cu) {
    Increasing(SetupIds(c.out)) && forall k :: 0 <= k < |SetupIds(c.out)| ==> SetupIds(c.out)[k] < c.nextRrcUe
  }

  /** A step from one context to the next sends at most one message, and an RRC Setup
      only with the id just drawn. */
  ghost predicate OneMore(c: Cu, after: Cu) {
    && c.nextRrcUe <= after.nextRrcUe
    && (after.out == c.out ||
        (&& |after.out| == |c.out| + 1 && after.out[..|c.out|] == c.out
         && var ids := SetupIdIn(after.out[|c.out|]);
            ids == [] || (ids == [c.nextRrcUe] && after.nextRrcUe == c.nextRrcUe + 1)))
  }

  lemma OneFromUl(cfg: Config, c: Cu, duUeId: int, srbId: int, dcch: Dcch)
    ensures OneMore(c, OnUlTransfer(cfg, c, duUeId, srbId, dcch))
  {}

  lemma OneFromInitialUl(cfg: Config, c: Cu, duUeId: int, crnti: int, ccch: Ccch, container: DuContainer,
                         cell: BitString)
    ensures OneMore(c, OnInitialUl(cfg, c, duUeId, crnti, ccch, container, cell))
  {}

  lemma OneMessage(cfg: Config, c: Cu, i: Input)
    ensures OneMore(c, Step(cfg, c, i))
  {
    match i
    case UlRrcTransfer(duUeId, srbId, dcch) => OneFromUl(cfg, c, duUeId, srbId, dcch);
    case InitialUl(duUeId, crnti, ccch, container, cell) =>
      OneFromInitialUl(cfg, c, duUeId, crnti, ccch, container, cell);
    case _ =>
  }

  lemma IncreasingSnoc(ids: seq<int>, more: seq<int>, next: int)
    requires Increasing(ids) && (forall k :: 0 <= k < |ids| ==> ids[k] < next)
    requires more == [] || more == [next]
    ensures Increasing(ids + more)
    ensures forall k :: 0 <= k < |ids + more| ==> (ids + more)[k] < if more == [] then next else next + 1
  {}

  lemma IdsMore(c: Cu, after: Cu)
    requires IdsOk(c) && OneMore(c, after)
    ensures IdsOk(after)
  {
    if after.out != c.out {
      var o := after.out[|c.out|];
      assert after.out == c.out + [o];
      SetupIdsSnoc(c.out, o);
      IncreasingSnoc(SetupIds(c.out), SetupIdIn(o), c.nextRrcUe);
    }
  }

  /** No two UEs are set up under the same CU id, over the whole run. */
  lemma {:induction false} SetupIdsDistinct(cfg: Config, h: seq<Input>)
    ensures Increasing(SetupIds(Run(cfg, h).out)) && IdsOk(Run(cfg, h))
  {
    if h != [] {
      SetupIdsDistinct(cfg, Prefix(h));
      OneMessage(cfg, Run(cfg, Prefix(h)), Last(h));
      IdsMore(Run(cfg, Prefix(h)), Run(cfg, h));
    }
  }
}
