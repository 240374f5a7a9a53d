/** The control flow of the CU-CP (internal/context): what each decoded message does to
    the context and which messages it makes the CU-CP send.

    Messages are taken as decoded; a field says when the decoder failed.  Encoders are an
    arbitrary predicate: which messages can be encoded.  Handlers run one at a time, as
    the logic loop the project describes.  A nil dereference stops the whole program:
    after it, nothing changes any more. */
module Cucp {
  import opened Bytes
  import opened BitStrings
  import opened Hex
  import opened Plmn
  import opened Tmsi
  import opened Options

  // ---- messages out -------------------------------------------------------------------

  datatype Rrc =
    | RrcSetup(cellGroup: Bytes)
    | DlInformationTransfer(nas: Bytes)
    | RrcReconfiguration(masterCellGroup: Option<Bytes>, nas: Bytes)

  datatype F1 =
    | DlRrcTransfer(cuUeId: int, duUeId: int, srbId: int, rrc: Rrc)
    | UeContextSetupRequest(cuUeId: int, duUeId: int, plmn: Bytes, cell: BitString)
    | F1SetupResponse(txn: int, plmn: Bytes, cell: BitString, pci: int)

  datatype Ng =
    | InitialUeMessage(ranUeId: int, nas: Bytes, tmsi: Option<FiveGSTMSI>)
    | UplinkNasTransport(amfUeId: int, ranUeId: int, nas: Bytes)
    | InitialContextSetupResponse(amfUeId: int, ranUeId: int)
    | EmptyNg

  datatype Pdu = PCell(cellGroup: Option<Bytes>) | PRrc(rrc: Rrc) | PF1(f1: F1) | PNg(ng: Ng)

  /** UE Context Setup Response makes the CU-CP send RRC bytes without an F1AP message. */
  datatype Out = ToAmf(ng: Ng) | ToDu(f1: F1) | RrcToDu(rrc: Rrc)

  // ---- messages in ----------------------------------------------------------------------

  datatype UeIdentity = RandomValue | Part1(bits: Bytes) | OtherIdentity

  datatype Ccch = UndecodableCcch | NotSetupRequest | SetupRequest(identity: UeIdentity)

  datatype DuContainer = NoContainer | UndecodableContainer | CellGroup(bytes: Bytes)

  datatype TmsiField = NoTmsi | Part2(bits: Bytes) | FullTmsi(bytes: Bytes) | OtherTmsi

  /** What the RRC container of a UL RRC Message Transfer decodes to; `Ignored` covers
      decoder errors, other message classes, nil bodies and unsupported types.
      `EmptySetupComplete` has a critical extension of a later version instead of the
      fields its handler reads; a UL Information Transfer without NAS has either such an
      extension or not the optional NAS field. */
  datatype Dcch =
    | Ignored
    | SetupComplete(tmsi: TmsiField, nas: Bytes)
    | EmptySetupComplete
    | UlInformationTransfer(dedicatedNas: Option<Bytes>)
    | SecurityModeComplete
    | ReconfigurationComplete

  datatype Nssai = Nssai(sst: Option<Bytes>, sd: Option<Bytes>)

  datatype ServedCell = ServedCell(plmns: seq<Bytes>, cell: BitString, pci: int)

  datatype Input =
    | F1SetupRequest(txn: int, duId: int, cells: seq<ServedCell>)
    | InitialUl(duUeId: int, crnti: int, ccch: Ccch, container: DuContainer, cell: BitString)
    | UlRrcTransfer(duUeId: int, srbId: int, dcch: Dcch)
    | UeContextSetupResponse
    | DownlinkNas(amfUeId: int, nas: Bytes)
    | InitialContextSetupRequest(nas: Bytes, servingPlmn: Option<Bytes>, imeisv: Option<string>,
                                 nssais: seq<Nssai>, capabilities: int)

  // ---- the context ------------------------------------------------------------------------

  datatype UeState = UE_INITIALIZED | UE_ONGOING | UE_READY | UE_DOWN

  datatype Ue = Ue(rrcUeId: int, duUeId: int, duId: int, rnti: int, amfId: int,
                   amfUeId: int, ranUeId: int, state: UeState,
                   part1: Option<Bytes>, tmsi: Option<FiveGSTMSI>, identity: Bytes,
                   cellGroup: Option<Bytes>, nrCell: Option<BitString>, regAccept: Bytes,
                   context: UeContext)

  datatype AllowedSlice = AllowedSlice(sst: string, sd: string)

  /** What the AMF told about the UE in the initial context setup. */
  datatype UeContext = UeContext(mcc: string, mnc: string, imeisv: string, allowed: seq<AllowedSlice>,
                                 capabilities: Option<int>)

  const NO_CONTEXT := UeContext("", "", "", [], None)

  datatype DuCell = DuCell(cellId: nat, mcc: string, mnc: string, pci: int)

  datatype DuState = DU_INACTIVE | DU_ACTIVE | DU_LOST

  datatype Du = Du(duId: int, state: DuState, setupPlmn: Bytes, cells: seq<DuCell>)

  /** Which messages can be encoded, and whether the encoder panics on a nil cell group. */
  datatype RawConfig = Config(mcc: string, mnc: string, amfId: int, encodes: Pdu -> bool, nilPanics: bool)

  type Config = c: RawConfig | PlmnConfig(c.mcc, c.mnc) witness Config("999", "70", 0, _ => true, false)

  datatype Cu = Cu(ue: Option<Ue>, du: Option<Du>, duPool: map<int, Du>, nextRrcUe: int,
                   out: seq<Out>, crashed: bool)

  function Fresh(): Cu {
    Cu(None, None, map[], 0, [], false)
  }

  // ---- the handlers -------------------------------------------------------------------------

  function Crash(c: Cu): Cu {
    c.(crashed := true)
  }

  function Send(c: Cu, o: Out): Cu {
    c.(out := c.out + [o])
  }

  predicate AcceptableCells(cfg: Config, cells: seq<ServedCell>) {
    |cells| == 1 && |cells[0].plmns| > 0 && cells[0].plmns[0] == Octets(cfg.mcc, cfg.mnc)
  }

  function DuFor(cfg: Config, duId: int, cell: ServedCell): Du
    requires |cell.plmns| > 0
  {
    var bits := cell.cell;
    Du(duId, DU_ACTIVE, cell.plmns[0],
       [DuCell(TopBits(bits.bytes, BitsTaken(|bits.bytes|, bits.numBits)), cfg.mcc, cfg.mnc, cell.pci % 0x1_0000)])
  }

  /** The first cell is looked at before the number of cells is. */
  function OnF1Setup(cfg: Config, c: Cu, txn: int, duId: int, cells: seq<ServedCell>): Cu {
    if cells == [] then Crash(c)
    else if !AcceptableCells(cfg, cells) then c
    else
      var du := DuFor(cfg, duId, cells[0]);
      var c1 := c.(duPool := c.duPool[duId := du], du := Some(du));
      var m := F1SetupResponse(txn, cells[0].plmns[0], cells[0].cell, cells[0].pci);
      if cfg.encodes(PF1(m)) then Send(c1, ToDu(m)) else c1
  }

  function NewUe(cfg: Config, c: Cu, duId: int, crnti: int, identity: Bytes, duUeId: int): Ue {
    Ue(c.nextRrcUe, duUeId, duId, crnti, cfg.amfId, 1, 1, UE_INITIALIZED, None, None, identity, None, None, [],
       NO_CONTEXT)
  }

  /** The request is usable: its cell group and cell are kept, RRC Setup goes out. */
  function SendRrcSetup(cfg: Config, c: Cu, ue: Ue, cellGroup: Bytes, cell: BitString): Cu {
    var c1 := c.(ue := Some(ue.(cellGroup := Some(cellGroup), nrCell := Some(cell))));
    var rrc := RrcSetup(cellGroup);
    var m := DlRrcTransfer(ue.rrcUeId, ue.duUeId, 0, rrc);
    if cfg.encodes(PRrc(rrc)) && cfg.encodes(PF1(m)) then Send(c1, ToDu(m)) else c1
  }

  /** createUE replaces whatever UE there was, before the request is known to be usable. */
  function OnSetupRequest(cfg: Config, c: Cu, duUeId: int, crnti: int, identity: UeIdentity,
                          container: DuContainer, cell: BitString): Cu
    requires c.du.Some?
  {
    var bits := if identity.Part1? then identity.bits else [];
    var ue0 := NewUe(cfg, c, c.du.value.duId, crnti, bits, duUeId);
    var ue1 := if identity.Part1? then ue0.(part1 := Some(bits)) else ue0;
    var c1 := c.(ue := Some(ue1), nextRrcUe := c.nextRrcUe + 1);
    if identity.OtherIdentity? || !container.CellGroup? then c1
    else SendRrcSetup(cfg, c1, ue1, container.bytes, cell)
  }

  function OnInitialUl(cfg: Config, c: Cu, duUeId: int, crnti: int, ccch: Ccch,
                       container: DuContainer, cell: BitString): Cu {
    match ccch
    case UndecodableCcch => c
    case NotSetupRequest => Crash(c)
    case SetupRequest(identity) =>
      if c.du.None? then Crash(c) else OnSetupRequest(cfg, c, duUeId, crnti, identity, container, cell)
  }

  /** SendNasPdu.  The first message of a UE is an Initial UE Message, and the UE counts
      as ongoing even when that could not be encoded. */
  function SendNas(cfg: Config, c: Cu, ue: Ue, nas: Bytes): Cu {
    match ue.state
    case UE_INITIALIZED =>
      var m := InitialUeMessage(ue.ranUeId, nas, ue.tmsi);
      var c1 := c.(ue := Some(ue.(state := UE_ONGOING)));
      if cfg.encodes(PNg(m)) then Send(c1, ToAmf(m)) else c1
    case UE_DOWN => Send(c.(ue := Some(ue)), ToAmf(EmptyNg))
    case _ =>
      var m := UplinkNasTransport(ue.amfUeId, ue.ranUeId, nas);
      var c1 := c.(ue := Some(ue));
      if cfg.encodes(PNg(m)) then Send(c1, ToAmf(m)) else c1
  }

  /** The identity bytes a setup complete message provides, if any. */
  function TmsiBytes(part1: Option<Bytes>, t: TmsiField): Bytes {
    match t
    case Part2(bits) => if part1.Some? then BuildOf(bits, part1.value) else []
    case FullTmsi(bytes) => bytes
    case _ => []
  }

  /** An identity that does not have six bytes ends the procedure before the NAS message. */
  function OnSetupComplete(cfg: Config, c: Cu, ue: Ue, t: TmsiField, nas: Bytes): Cu {
    var bytes := TmsiBytes(ue.part1, t);
    if bytes == [] then SendNas(cfg, c, ue.(state := UE_INITIALIZED), nas)
    else match DecodeOf(bytes)
         case NotSixBytes => c.(ue := Some(ue.(tmsi := None)))
         case Identity(id) =>
           SendNas(cfg, c, ue.(tmsi := Some(id), identity := bytes, state := UE_INITIALIZED), nas)
  }

  /** The state changes before the NAS field is looked for. */
  function OnUlInformationTransfer(cfg: Config, c: Cu, ue: Ue, nas: Option<Bytes>): Cu {
    match nas
    case None => Crash(c.(ue := Some(ue.(state := UE_ONGOING))))
    case Some(bytes) => SendNas(cfg, c, ue.(state := UE_ONGOING), bytes)
  }

  function OnSecurityModeComplete(cfg: Config, c: Cu, ue: Ue): Cu {
    if ue.nrCell.None? then Crash(c)
    else
      var m := UeContextSetupRequest(ue.rrcUeId, ue.duUeId, Octets(cfg.mcc, cfg.mnc), ue.nrCell.value);
      if !cfg.encodes(PF1(m)) then c
      else if c.du.None? then Crash(c)
      else Send(c, ToDu(m))
  }

  function OnReconfigurationComplete(cfg: Config, c: Cu, ue: Ue): Cu {
    var c1 := c.(ue := Some(ue.(state := UE_READY)));
    var m := InitialContextSetupResponse(ue.amfUeId, ue.ranUeId);
    if cfg.encodes(PNg(m)) then Send(c1, ToAmf(m)) else c1
  }

  function OnUlTransfer(cfg: Config, c: Cu, duUeId: int, srbId: int, dcch: Dcch): Cu {
    if c.ue.None? then Crash(c)
    else
      var ue := c.ue.value;
      if duUeId != ue.duUeId || srbId < 1 then c
      else match dcch
           case Ignored => c
           case SetupComplete(t, nas) => OnSetupComplete(cfg, c, ue, t, nas)
           case EmptySetupComplete => Crash(c)
           case UlInformationTransfer(nas) => OnUlInformationTransfer(cfg, c, ue, nas)
           case SecurityModeComplete => OnSecurityModeComplete(cfg, c, ue)
           case ReconfigurationComplete => OnReconfigurationComplete(cfg, c, ue)
  }

  function OnContextSetupResponse(cfg: Config, c: Cu): Cu {
    if c.ue.None? then Crash(c)
    else
      var ue := c.ue.value;
      var rrc := RrcReconfiguration(ue.cellGroup, ue.regAccept);
      if ue.cellGroup.None? && cfg.nilPanics then Crash(c)
      else if !cfg.encodes(PCell(ue.cellGroup)) || !cfg.encodes(PRrc(rrc)) then c
      else if c.du.None? then Crash(c)
      else Send(c, RrcToDu(rrc))
  }

  /** The F1AP message carries the ids of the AMF and of the DU, not of the UE. */
  function OnDownlinkNas(cfg: Config, c: Cu, amfUeId: int, nas: Bytes): Cu {
    if c.ue.None? then Crash(c)
    else
      var c1 := c.(ue := Some(c.ue.value.(amfUeId := amfUeId)));
      var rrc := DlInformationTransfer(nas);
      if !cfg.encodes(PRrc(rrc)) then c1
      else if c.du.None? then Crash(c1)
      else
        var m := DlRrcTransfer(cfg.amfId, c.du.value.duId, 0, rrc);
        if cfg.encodes(PF1(m)) then Send(c1, ToDu(m)) else c1
  }

  const NOT_INFORMED := "not informed"

  function HexOr(b: Option<Bytes>): string {
    if b.Some? then HexEncode(b.value) else NOT_INFORMED
  }

  function AllowedOf(nssais: seq<Nssai>): seq<AllowedSlice> {
    seq(|nssais|, i requires 0 <= i < |nssais| => AllowedSlice(HexOr(nssais[i].sst), HexOr(nssais[i].sd)))
  }

  /** A serving PLMN that is there has the three octets the conversion indexes. */
  predicate ServingPlmnOk(plmn: Option<Bytes>) {
    plmn.Some? ==> |plmn.value| >= 3
  }

  function ContextOf(i: Input): UeContext
    requires i.InitialContextSetupRequest? && ServingPlmnOk(i.servingPlmn)
  {
    var (mcc, mnc) := if i.servingPlmn.Some? then ConvertMccMnc(HexEncode(i.servingPlmn.value))
                      else (NOT_INFORMED, NOT_INFORMED);
    UeContext(mcc, mnc, if i.imeisv.Some? then i.imeisv.value else NOT_INFORMED,
              AllowedOf(i.nssais), Some(i.capabilities))
  }

  function OnInitialContextSetup(c: Cu, i: Input): Cu
    requires i.InitialContextSetupRequest?
  {
    if c.ue.None? || !ServingPlmnOk(i.servingPlmn) then Crash(c)
    else c.(ue := Some(c.ue.value.(regAccept := i.nas, context := ContextOf(i))))
  }

  function Step(cfg: Config, c: Cu, i: Input): Cu {
    if c.crashed then c
    else match i
         case F1SetupRequest(txn, duId, cells) => OnF1Setup(cfg, c, txn, duId, cells)
         case InitialUl(duUeId, crnti, ccch, container, cell) =>
           OnInitialUl(cfg, c, duUeId, crnti, ccch, container, cell)
         case UlRrcTransfer(duUeId, srbId, dcch) => OnUlTransfer(cfg, c, duUeId, srbId, dcch)
         case UeContextSetupResponse => OnContextSetupResponse(cfg, c)
         case DownlinkNas(amfUeId, nas) => OnDownlinkNas(cfg, c, amfUeId, nas)
         case InitialContextSetupRequest(_, _, _, _, _) => OnInitialContextSetup(c, i)
  }

  function Run(cfg: Config, h: seq<Input>): Cu {
    if h == [] then Fresh() else Step(cfg, Run(cfg, h[..|h| - 1]), h[|h| - 1])
  }
}
