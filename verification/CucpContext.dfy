/** The handlers as they are written, on a CuCpContext that points to one UE at a time.
    Each is proved to do what its function in module Cucp says. */
module CucpContext {
  import opened Options
  import opened Bytes
  import opened BitStrings
  import opened Hex
  import opened Plmn
  import opened Tmsi
  import opened Cucp

  class GNBUe {
    const rrcUeId: int
    const duUeId: int
    const duId: int
    const rnti: int
    const amfId: int
    var amfUeId: int
    var ranUeId: int
    var state: UeState
    var part1: Option<Bytes>
    var tmsi: Option<FiveGSTMSI>
    var identity: Bytes
    var cellGroup: Option<Bytes>
    var nrCell: Option<BitString>
    var regAccept: Bytes
    var mcc: string
    var mnc: string
    var maskedImeisv: string
    var allowed: seq<AllowedSlice>
    var capabilities: Option<int>

    constructor (rrcUeId: int, duUeId: int, duId: int, rnti: int, amfId: int, identity: Bytes)
      ensures View() == Ue(rrcUeId, duUeId, duId, rnti, amfId, 1, 1, UE_INITIALIZED, None, None, identity,
                           None, None, [], NO_CONTEXT)
    {
      this.rrcUeId, this.duUeId, this.duId, this.rnti, this.amfId := rrcUeId, duUeId, duId, rnti, amfId;
      amfUeId, ranUeId, state, this.identity := 1, 1, UE_INITIALIZED, identity;
      part1, tmsi, cellGroup, nrCell, regAccept := None, None, None, None, [];
      mcc, mnc, maskedImeisv, allowed, capabilities := "", "", "", [], None;
    }

    ghost function View(): Ue
      reads this
    {
      Ue(rrcUeId, duUeId, duId, rnti, amfId, amfUeId, ranUeId, state, part1, tmsi, identity, cellGroup, nrCell,
         regAccept, UeContext(mcc, mnc, maskedImeisv, allowed, capabilities))
    }

    /** `plmn` is hexadecimal digits, or the text for a PLMN that was not sent. */
    method CreateUeContext(plmn: string, imeisv: string, nssai: seq<AllowedSlice>, caps: int)
      requires plmn == NOT_INFORMED || |plmn| >= 6
      modifies this`mcc, this`mnc, this`maskedImeisv, this`allowed, this`capabilities
      ensures var p := if plmn == NOT_INFORMED then (plmn, plmn) else ConvertMccMnc(plmn);
        View() == old(View()).(context := UeContext(p.0, p.1, imeisv, nssai, Some(caps)))
    {
      if plmn != NOT_INFORMED {
        var p := ConvertMccMnc(plmn);
        mcc, mnc := p.0, p.1;
      } else {
        mcc, mnc := plmn, plmn;
      }
      maskedImeisv, allowed, capabilities := imeisv, nssai, Some(caps);
    }
  }

  class CuCpContext {
    const cfg: Config
    var ue: GNBUe?
    var du: Option<Du>
    var duPool: map<int, Du>
    var idRrcUeGenerator: int
    var crashed: bool
    ghost var out: seq<Out>

    constructor (cfg: Config)
      ensures View() == Fresh() && this.cfg == cfg
    {
      this.cfg := cfg;
      ue, du, duPool, idRrcUeGenerator, crashed, out := null, None, map[], 0, false, [];
    }

    ghost function View(): Cu
      reads this, ue
    {
      Cu(if ue == null then None else Some(ue.View()), du, duPool, idRrcUeGenerator, out, crashed)
    }

    /** Hands a message to the transport. */
    method Transmit(o: Out)
      modifies this`out
      ensures out == old(out) + [o]
    {
      out := out + [o];
    }

    method CreateUE(duId: int, crnti: int, identity: Bytes, duUeId: int) returns (u: GNBUe)
      modifies this`ue, this`idRrcUeGenerator
      ensures ue == u && fresh(u) && u.View() == NewUe(cfg, old(View()), duId, crnti, identity, duUeId)
      ensures idRrcUeGenerator == old(idRrcUeGenerator) + 1
    {
      var rrcUeId := idRrcUeGenerator;
      idRrcUeGenerator := idRrcUeGenerator + 1;
      u := new GNBUe(rrcUeId, duUeId, duId, crnti, cfg.amfId, identity);
      ue := u;
    }

    method HandleF1SetupRequest(txn: int, duId: int, cells: seq<ServedCell>)
      requires !crashed
      modifies this`crashed, this`duPool, this`du, this`out
      ensures View() == OnF1Setup(cfg, old(View()), txn, duId, cells)
    {
      if cells == [] {
        crashed := true;
        return;
      }
      var cellItem := cells[0];
      if |cells| != 1 {
        return;
      }
      if |cellItem.plmns| == 0 {
        return;
      }
      var cellPlmn := cellItem.plmns[0];
      var cuPlmn := GetMccAndMncInOctets(cfg.mcc, cfg.mnc);
      var same := PlmnMatches(cellPlmn, cuPlmn);
      if !same {
        return;
      }
      var cellId := ExtractBits(cellItem.cell.bytes, cellItem.cell.numBits);
      var duCtx := Du(duId, DU_ACTIVE, cellPlmn, [DuCell(cellId, cfg.mcc, cfg.mnc, cellItem.pci % 0x1_0000)]);
      duPool := duPool[duId := duCtx];
      du := Some(duCtx);
      var m := F1SetupResponse(txn, cellPlmn, cellItem.cell, cellItem.pci);
      if cfg.encodes(PF1(m)) {
        Transmit(ToDu(m));
      }
    }

    method HandleInitialULRRCMessageTransfer(duUeId: int, crnti: int, ccch: Ccch, container: DuContainer,
                                             cell: BitString)
      requires !crashed
      modifies this
      ensures View() == OnInitialUl(cfg, old(View()), duUeId, crnti, ccch, container, cell)
      ensures ue == old(ue) || fresh(ue)
    {
      match ccch
      case UndecodableCcch => return;
      case NotSetupRequest => crashed := true;
      case SetupRequest(identity) =>
        if du.None? {
          crashed := true;
        } else {
          HandleRRCSetupRequest(duUeId, crnti, identity, container, cell);
        }
    }

    method HandleRRCSetupRequest(duUeId: int, crnti: int, identity: UeIdentity, container: DuContainer, cell: BitString)
      requires !crashed && du.Some?
      modifies this
      ensures View() == OnSetupRequest(cfg, old(View()), duUeId, crnti, identity, container, cell)
      ensures fresh(ue)
    {
      var u: GNBUe;
      match identity {
        case RandomValue =>
          u := CreateUE(du.value.duId, crnti, [], duUeId);
        case Part1(bits) =>
          u := CreateUE(du.value.duId, crnti, bits, duUeId);
          u.part1 := Some(bits);
        case OtherIdentity =>
          u := CreateUE(du.value.duId, crnti, [], duUeId);
          return;
      }
      if !container.CellGroup? {
        return;
      }
      SendRrcSetupTo(u, container.bytes, cell);
    }

    /** The second half of handleRRCSetupRequest. */
    method SendRrcSetupTo(u: GNBUe, cellGroup: Bytes, cell: BitString)
      requires ue == u
      modifies this`out, u`cellGroup, u`nrCell
      ensures View() == SendRrcSetup(cfg, old(View()), old(u.View()), cellGroup, cell)
    {
      u.cellGroup := Some(cellGroup);
      u.nrCell := Some(cell);
      var rrcSetup := RrcSetup(cellGroup);
      if !cfg.encodes(PRrc(rrcSetup)) {
        return;
      }
      var m := DlRrcTransfer(u.rrcUeId, u.duUeId, 0, rrcSetup);
      if !cfg.encodes(PF1(m)) {
        return;
      }
      Transmit(ToDu(m));
    }

    method SendNasPdu(nas: Bytes, u: GNBUe)
      requires ue == u
      modifies this`out, u`state
      ensures View() == SendNas(cfg, old(View()), old(u.View()), nas)
    {
      var m: Ng;
      match u.state {
        case UE_INITIALIZED =>
          m := InitialUeMessage(u.ranUeId, nas, u.tmsi);
          u.state := UE_ONGOING;
          if !cfg.encodes(PNg(m)) {
            return;
          }
        case UE_ONGOING | UE_READY =>
          m := UplinkNasTransport(u.amfUeId, u.ranUeId, nas);
          if !cfg.encodes(PNg(m)) {
            return;
          }
        case UE_DOWN =>
          m := EmptyNg;
      }
      Transmit(ToAmf(m));
    }

    method HandleRrcSetupComplete(u: GNBUe, t: TmsiField, nas: Bytes)
      requires ue == u
      modifies this`out, u
      ensures View() == OnSetupComplete(cfg, old(View()), old(u.View()), t, nas)
    {
      var tmsi5gs: Bytes := [];
      if t.Part2? && u.part1.Some? {
        tmsi5gs := Build5GSTMSI(t.bits, u.part1.value);
      } else if t.FullTmsi? {
        tmsi5gs := t.bytes;
      }
      if |tmsi5gs| > 0 {
        var r := Decode5GSTMSI(tmsi5gs);
        if r.NotSixBytes? {
          u.tmsi := None;
          return;
        }
        u.tmsi := Some(r.value);
        u.identity := tmsi5gs;
      }
      u.state := UE_INITIALIZED;
      SendNasPdu(nas, u);
    }

    method HandleULInformationTransfer(u: GNBUe, nas: Option<Bytes>)
      requires ue == u && !crashed
      modifies this`out, this`crashed, u
      ensures View() == OnUlInformationTransfer(cfg, old(View()), old(u.View()), nas)
    {
      u.state := UE_ONGOING;
      if nas.None? {
        crashed := true;
        return;
      }
      SendNasPdu(nas.value, u);
    }

    method HandleRRCSecurityModeComplete(u: GNBUe)
      requires !crashed && ue == u
      modifies this`out, this`crashed
      ensures View() == OnSecurityModeComplete(cfg, old(View()), old(u.View()))
    {
      if u.nrCell.None? {
        crashed := true;
        return;
      }
      var plmn := GetMccAndMncInOctets(cfg.mcc, cfg.mnc);
      var m := UeContextSetupRequest(u.rrcUeId, u.duUeId, plmn, u.nrCell.value);
      if !cfg.encodes(PF1(m)) {
        return;
      }
      if du.None? {
        crashed := true;
        return;
      }
      Transmit(ToDu(m));
    }

    method HandleRRCReconfigurationComplete(u: GNBUe)
      requires ue == u
      modifies this`out, u
      ensures View() == OnReconfigurationComplete(cfg, old(View()), old(u.View()))
    {
      u.state := UE_READY;
      var m := InitialContextSetupResponse(u.amfUeId, u.ranUeId);
      if !cfg.encodes(PNg(m)) {
        return;
      }
      Transmit(ToAmf(m));
    }

    method HandleULRRCMessageTransfer(duUeId: int, srbId: int, dcch: Dcch)
      requires !crashed
      modifies this`out, this`crashed, ue
      ensures View() == OnUlTransfer(cfg, old(View()), duUeId, srbId, dcch)
    {
      if ue == null {
        crashed := true;
        return;
      }
      var u: GNBUe := ue;
      if duUeId != u.duUeId {
        return;
      }
      if srbId < 1 {
        return;
      }
      match dcch
      case Ignored => return;
      case SetupComplete(t, nas) => HandleRrcSetupComplete(u, t, nas);
      case EmptySetupComplete => crashed := true;
      case UlInformationTransfer(nas) => HandleULInformationTransfer(u, nas);
      case SecurityModeComplete => HandleRRCSecurityModeComplete(u);
      case ReconfigurationComplete => HandleRRCReconfigurationComplete(u);
    }

    method HandleRRCUEContextSetupResponse()
      requires !crashed
      modifies this`out, this`crashed
      ensures View() == OnContextSetupResponse(cfg, old(View()))
    {
      if ue == null {
        crashed := true;
        return;
      }
      if ue.cellGroup.None? && cfg.nilPanics {
        crashed := true;
        return;
      }
      if !cfg.encodes(PCell(ue.cellGroup)) {
        return;
      }
      var rrc := RrcReconfiguration(ue.cellGroup, ue.regAccept);
      if !cfg.encodes(PRrc(rrc)) {
        return;
      }
      if du.None? {
        crashed := true;
        return;
      }
      Transmit(RrcToDu(rrc));
    }

    method HandleNgDownlinkNasTransport(amfUeId: int, nas: Bytes)
      requires !crashed
      modifies this`out, this`crashed, ue
      ensures View() == OnDownlinkNas(cfg, old(View()), amfUeId, nas)
    {
      if ue == null {
        crashed := true;
        return;
      }
      ue.amfUeId := amfUeId;
      var rrc := DlInformationTransfer(nas);
      if !cfg.encodes(PRrc(rrc)) {
        return;
      }
      if du.None? {
        crashed := true;
        return;
      }
      var m := DlRrcTransfer(cfg.amfId, du.value.duId, 0, rrc);
      if !cfg.encodes(PF1(m)) {
        return;
      }
      Transmit(ToDu(m));
    }

    method HandlerInitialContextSetupRequest(i: Input)
      requires !crashed && i.InitialContextSetupRequest?
      modifies this`crashed, ue
      ensures View() == OnInitialContextSetup(old(View()), i)
    {
      var list := AllowedList(i.nssais);
      var mobilityRestrict := RestrictionText(i.servingPlmn);
      var maskedImeisv := if i.imeisv.Some? then i.imeisv.value else NOT_INFORMED;
      if ue == null || (i.servingPlmn.Some? && |mobilityRestrict| < 6) {
        crashed := true;
        return;
      }
      ue.CreateUeContext(mobilityRestrict, maskedImeisv, list, i.capabilities);
      ue.regAccept := i.nas;
    }

    /** dispatchF1 and dispatch: the handler that the message's type selects. */
    method Dispatch(i: Input)
      modifies this, ue
      ensures View() == Step(cfg, old(View()), i)
      ensures ue == old(ue) || fresh(ue)
    {
      if crashed {
        return;
      }
      match i
      case F1SetupRequest(txn, duId, cells) => HandleF1SetupRequest(txn, duId, cells);
      case InitialUl(duUeId, crnti, ccch, container, cell) =>
        HandleInitialULRRCMessageTransfer(duUeId, crnti, ccch, container, cell);
      case UlRrcTransfer(duUeId, srbId, dcch) => HandleULRRCMessageTransfer(duUeId, srbId, dcch);
      case UeContextSetupResponse => HandleRRCUEContextSetupResponse();
      case DownlinkNas(amfUeId, nas) => HandleNgDownlinkNasTransport(amfUeId, nas);
      case InitialContextSetupRequest(_, _, _, _, _) => HandlerInitialContextSetupRequest(i);
    }
  }

  /** plmnMatches: three octets each, all equal. */
  method PlmnMatches(plmn1: Bytes, plmn2: Bytes) returns (same: bool)
    ensures same <==> plmn1 == plmn2 && |plmn1| == 3
  {
    if |plmn1| != |plmn2| || |plmn1| != 3 {
      return false;
    }
    for i := 0 to 3
      invariant plmn1[..i] == plmn2[..i]
    {
      if plmn1[i] != plmn2[i] {
        return false;
      }
    }
    same := true;
  }

  /** The loop that lists the allowed slices. */
  method AllowedList(items: seq<Nssai>) returns (list: seq<AllowedSlice>)
    ensures list == AllowedOf(items)
  {
    var slices := new AllowedSlice[|items|](_ => AllowedSlice("", ""));
    for i := 0 to |items|
      invariant forall j :: 0 <= j < i ==> slices[j] == AllowedOf(items)[j]
    {
      var sst, sd := NOT_INFORMED, NOT_INFORMED;
      if items[i].sst.Some? {
        sst := HexEncode(items[i].sst.value);
      }
      if items[i].sd.Some? {
        sd := HexEncode(items[i].sd.value);
      }
      slices[i] := AllowedSlice(sst, sd);
    }
    list := slices[..];
  }

  method RestrictionText(plmn: Option<Bytes>) returns (text: string)
    ensures text == HexOr(plmn)
    ensures text == NOT_INFORMED <==> plmn.None?
  {
    text := NOT_INFORMED;
    if plmn.Some? {
      text := HexEncode(plmn.value);
      NotTheText(plmn.value);
    }
  }

  /** No octets print as the text for a missing PLMN. */
  lemma NotTheText(s: Bytes)
    ensures HexEncode(s) != NOT_INFORMED
  {
    HexRoundTrip(s);
  }

  /** A CU-CP that is given one message after the other: the object ends where the run of
      the step function does, with the output of that run. */
  method ServeAll(cfg: Config, h: seq<Input>) returns (cu: CuCpContext)
    ensures fresh(cu) && cu.cfg == cfg && cu.View() == Run(cfg, h)
  {
    cu := new CuCpContext(cfg);
    for k := 0 to |h|
      invariant fresh(cu) && (cu.ue != null ==> fresh(cu.ue))
      invariant cu.cfg == cfg && cu.View() == Run(cfg, h[..k])
    {
      assert h[..k + 1][..k] == h[..k];
      cu.Dispatch(h[k]);
    }
    assert h[..|h|] == h;
  }
}
