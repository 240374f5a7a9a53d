/** The AMF context (internal/context/amfcontext/amfcontext.go): singly linked lists
    with a separate length counter, filled by the NG Setup Response handler of
    internal/context/handle_amf.go. */
module AmfContext {
  import opened Bytes
  import opened Hex
  import opened Plmn

  class Node<T> {
    const value: T
    var next: Node?<T>

    constructor (value: T)
      ensures this.value == value && next == null
    {
      this.value, this.next := value, null;
    }
  }

  /** Head pointer and counter; `nodes` is the chain from the head on. */
  class SupportList<T> {
    var head: Node?<T>
    var len: nat
    ghost var nodes: seq<Node<T>>
    ghost var repr: set<object>

    constructor ()
      ensures Valid() && fresh(repr) && Contents() == []
    {
      head, len, nodes, repr := null, 0, [], {this};
    }

    /** Acyclic, ending after exactly `len` nodes. */
    ghost predicate Valid()
      reads this, repr
      ensures Valid() ==> this in repr
    {
      && this in repr
      && (forall i :: 0 <= i < |nodes| ==> nodes[i] in repr)
      && |nodes| == len
      && head == (if len == 0 then null else nodes[0])
      && Chained(nodes)
    }

    ghost function Contents(): (s: seq<T>)
      reads this
      ensures |s| == |nodes|
    {
      Values(nodes)
    }

    /** The bounded walk: `len` turns, of which all but the last move on and the last
        one, which finds the end, appends. */
    method Add(x: T)
      requires Valid()
      modifies repr
      ensures Valid() && fresh(repr - old(repr))
      ensures Contents() == old(Contents()) + [x]
    {
      var newElem := new Node(x);
      ghost var ns := nodes;
      if len == 0 {
        head := newElem;
        len := len + 1;
        nodes, repr := [newElem], repr + {newElem};
        return;
      }
      var n, mov := len, head;
      assert Distinct(ns);
      for k := 0 to n
        modifies ns
        invariant |ns| == n
        invariant forall i :: 0 <= i < n - 1 ==> ns[i].next == ns[i + 1]
        invariant ns[n - 1].next == if k < n then null else newElem
        invariant k < n ==> mov == ns[k]
      {
        assert k < n - 1 ==> mov.next == ns[k + 1] && ns[k + 1] in ns;
        assert k < n - 1 <==> mov.next != null;
        if mov.next == null {
          mov.next := newElem;
        } else {
          mov := mov.next;
        }
      }
      len := len + 1;
      nodes, repr := ns + [newElem], repr + {newElem};
    }

    method Get(index: nat) returns (x: T)
      requires Valid() && index < len
      ensures x == Contents()[index]
    {
      var mov := head;
      for k := 0 to index
        invariant mov == nodes[k]
      {
        mov := mov.next;
      }
      x := mov.value;
    }
  }

  ghost function Values<T>(nodes: seq<Node<T>>): (s: seq<T>)
    ensures |s| == |nodes|
  {
    seq(|nodes|, i requires 0 <= i < |nodes| => nodes[i].value)
  }

  ghost predicate Chained<T>(nodes: seq<Node<T>>)
    reads nodes
  {
    && Distinct(nodes)
    && (forall i :: 0 <= i < |nodes| - 1 ==> nodes[i].next == nodes[i + 1])
    && (nodes != [] ==> nodes[|nodes| - 1].next == null)
  }

  ghost predicate Distinct<T>(nodes: seq<Node<T>>) {
    forall i, j :: 0 <= i < j < |nodes| ==> nodes[i] != nodes[j]
  }

  datatype PlmnInfo = PlmnInfo(mcc: string, mnc: string)
  datatype SliceInfo = SliceInfo(sst: string, sd: string)

  datatype AmfState = AMF_INACTIVE | AMF_ACTIVE | AMF_OVERLOADED

  datatype Snssai = Snssai(sst: Bytes, sd: Bytes)
  datatype PlmnItem = PlmnItem(plmn: Bytes, slices: seq<Snssai>)
  datatype NGSetupResponse = NGSetupResponse(amfName: string, capacity: int, plmnSupport: seq<PlmnItem>)

  function PlmnOf(hex: string): PlmnInfo
    requires |hex| >= 6
  {
    var p := ConvertMccMnc(hex);
    PlmnInfo(p.0, p.1)
  }

  function SliceOf(s: Snssai): SliceInfo {
    SliceInfo(HexEncode(s.sst), HexEncode(s.sd))
  }

  /** A PLMN identity is three octets. */
  ghost predicate WellFormed(items: seq<PlmnItem>) {
    forall i :: 0 <= i < |items| ==> |items[i].plmn| >= 3
  }

  function PlmnsOf(items: seq<PlmnItem>): (r: seq<PlmnInfo>)
    requires WellFormed(items)
    ensures |r| == |items|
  {
    seq(|items|, i requires 0 <= i < |items| => PlmnOf(HexEncode(items[i].plmn)))
  }

  function SlicesOf(slices: seq<Snssai>): seq<SliceInfo> {
    seq(|slices|, i requires 0 <= i < |slices| => SliceOf(slices[i]))
  }

  function AllSlices(items: seq<PlmnItem>): seq<SliceInfo> {
    if items == [] then [] else AllSlices(items[..|items| - 1]) + SlicesOf(items[|items| - 1].slices)
  }

  lemma OneMoreItem(items: seq<PlmnItem>, i: nat)
    requires WellFormed(items) && i < |items|
    ensures PlmnsOf(items[..i + 1]) == PlmnsOf(items[..i]) + [PlmnOf(HexEncode(items[i].plmn))]
    ensures AllSlices(items[..i + 1]) == AllSlices(items[..i]) + SlicesOf(items[i].slices)
  {
    assert items[..i + 1][..i] == items[..i];
  }

  lemma Appended<T>(a: seq<T>, b: seq<T>, c: seq<T>)
    ensures a + b + c == a + (b + c)
  {}

  lemma OneMoreStored(p0: seq<PlmnInfo>, s0: seq<SliceInfo>, items: seq<PlmnItem>, i: nat)
    requires i < |items| && WellFormed(items)
    ensures p0 + PlmnsOf(items[..i + 1]) == p0 + PlmnsOf(items[..i]) + [PlmnOf(HexEncode(items[i].plmn))]
    ensures s0 + AllSlices(items[..i + 1]) == s0 + AllSlices(items[..i]) + SlicesOf(items[i].slices)
  {
    OneMoreItem(items, i);
    Appended(p0, PlmnsOf(items[..i]), [PlmnOf(HexEncode(items[i].plmn))]);
    Appended(s0, AllSlices(items[..i]), SlicesOf(items[i].slices));
  }

  class GNBAmf {
    const plmns: SupportList<PlmnInfo>
    const slices: SupportList<SliceInfo>
    var name: string
    var capacity: int
    var state: AmfState

    constructor ()
      ensures Valid() && state == AMF_INACTIVE && fresh(plmns) && fresh(slices)
      ensures fresh(plmns.repr) && fresh(slices.repr)
      ensures plmns.Contents() == [] && slices.Contents() == []
    {
      plmns := new SupportList();
      slices := new SupportList();
      name, capacity, state := "", 0, AMF_INACTIVE;
    }

    ghost predicate Valid()
      reads plmns, slices, plmns.repr, slices.repr
    {
      && plmns.Valid() && slices.Valid()
      && plmns.repr !! slices.repr && this !in plmns.repr && this !in slices.repr
    }

    method AddedPlmn(plmn: string)
      requires Valid() && |plmn| >= 6
      modifies plmns.repr
      ensures Valid() && fresh(plmns.repr - old(plmns.repr))
      ensures plmns.Contents() == old(plmns.Contents()) + [PlmnOf(plmn)]
    {
      plmns.Add(PlmnOf(plmn));
    }

    method AddedSlice(sst: string, sd: string)
      requires Valid()
      modifies slices.repr
      ensures Valid() && fresh(slices.repr - old(slices.repr))
      ensures slices.Contents() == old(slices.Contents()) + [SliceInfo(sst, sd)]
    {
      slices.Add(SliceInfo(sst, sd));
    }

    method GetPlmnSupport(index: nat) returns (mcc: string, mnc: string)
      requires Valid() && index < plmns.len
      ensures PlmnInfo(mcc, mnc) == plmns.Contents()[index]
    {
      var p := plmns.Get(index);
      return p.mcc, p.mnc;
    }

    method GetSliceSupport(index: nat) returns (sst: string, sd: string)
      requires Valid() && index < slices.len
      ensures SliceInfo(sst, sd) == slices.Contents()[index]
    {
      var s := slices.Get(index);
      return s.sst, s.sd;
    }

    method AddSlices(list: seq<Snssai>)
      requires Valid()
      modifies slices.repr
      ensures Valid() && fresh(slices.repr - old(slices.repr))
      ensures slices.Contents() == old(slices.Contents()) + SlicesOf(list)
    {
      for j := 0 to |list|
        modifies slices.repr
        invariant Valid() && fresh(slices.repr - old(slices.repr))
        invariant slices.Contents() == old(slices.Contents()) + SlicesOf(list[..j])
      {
        AddedSlice(HexEncode(list[j].sst), HexEncode(list[j].sd));
        assert SlicesOf(list[..j + 1]) == SlicesOf(list[..j]) + [SliceOf(list[j])];
      }
      assert list[..|list|] == list;
    }

    method StoreSupport(items: seq<PlmnItem>)
      requires Valid() && WellFormed(items)
      modifies plmns.repr, slices.repr
      ensures Valid()
      ensures plmns.Contents() == old(plmns.Contents()) + PlmnsOf(items)
      ensures slices.Contents() == old(slices.Contents()) + AllSlices(items)
    {
      ghost var p0, s0 := plmns.Contents(), slices.Contents();
      ghost var rp, rs := plmns.repr, slices.repr;
      assert PlmnsOf(items[..0]) == [] && AllSlices(items[..0]) == [];
      for i := 0 to |items|
        modifies rp, rs
        invariant Valid() && fresh(plmns.repr - rp) && fresh(slices.repr - rs)
        invariant plmns.Contents() == p0 + PlmnsOf(items[..i])
        invariant slices.Contents() == s0 + AllSlices(items[..i])
      {
        StoreItem(items[i]);
        OneMoreStored(p0, s0, items, i);
      }
      assert items[..|items|] == items;
    }

    /** One turn of the handler's loop. */
    method StoreItem(item: PlmnItem)
      requires Valid() && |item.plmn| >= 3
      modifies plmns.repr, slices.repr
      ensures Valid() && fresh(plmns.repr - old(plmns.repr)) && fresh(slices.repr - old(slices.repr))
      ensures plmns.Contents() == old(plmns.Contents()) + [PlmnOf(HexEncode(item.plmn))]
      ensures slices.Contents() == old(slices.Contents()) + SlicesOf(item.slices)
    {
      AddedPlmn(HexEncode(item.plmn));
      AddSlices(item.slices);
    }

    /** The read-back for the log, which dereferences every node. */
    method ReadBack() returns (shownPlmns: seq<PlmnInfo>, shownSlices: seq<SliceInfo>)
      requires Valid()
      ensures shownPlmns == plmns.Contents() && shownSlices == slices.Contents()
    {
      shownPlmns, shownSlices := [], [];
      for i := 0 to plmns.len
        invariant shownPlmns == plmns.Contents()[..i]
      {
        var mcc, mnc := GetPlmnSupport(i);
        shownPlmns := shownPlmns + [PlmnInfo(mcc, mnc)];
      }
      for i := 0 to slices.len
        invariant shownSlices == slices.Contents()[..i]
      {
        var sst, sd := GetSliceSupport(i);
        shownSlices := shownSlices + [SliceInfo(sst, sd)];
      }
    }

    /** Everything the response lists is appended, in its order; the AMF then counts as
        active; both lists are read back from end to end. */
    method HandlerNgSetupResponse(msg: NGSetupResponse)
      returns (shownPlmns: seq<PlmnInfo>, shownSlices: seq<SliceInfo>)
      requires Valid() && WellFormed(msg.plmnSupport)
      modifies this`name, this`capacity, this`state, plmns.repr, slices.repr
      ensures Valid() && state == AMF_ACTIVE && name == msg.amfName && capacity == msg.capacity
      ensures plmns.Contents() == old(plmns.Contents()) + PlmnsOf(msg.plmnSupport)
      ensures slices.Contents() == old(slices.Contents()) + AllSlices(msg.plmnSupport)
      ensures shownPlmns == plmns.Contents() && shownSlices == slices.Contents()
    {
      name, capacity := msg.amfName, msg.capacity;
      StoreSupport(msg.plmnSupport);
      state := AMF_ACTIVE;
      shownPlmns, shownSlices := ReadBack();
    }
  }

  /** An AMF that supports a PLMN in the octets of the standard is recorded under that
      PLMN's own digits. */
  lemma SupportedPlmnIsRead(mcc: string, mnc: string, items: seq<PlmnItem>, i: nat)
    requires PlmnConfig(mcc, mnc) && WellFormed(items) && i < |items|
    requires items[i].plmn == Octets(mcc, mnc)
    ensures PlmnsOf(items)[i] == PlmnInfo(mcc, mnc)
  {
    PlmnRoundTrip(mcc, mnc);
  }

  // ---- the entries, told from the response ------------------------------------------------

  /** How many slices the items before the i-th one list. */
  function SlicesBefore(items: seq<PlmnItem>, i: nat): nat
    requires i <= |items|
  {
    if i == 0 then 0 else SlicesBefore(items, i - 1) + |items[i - 1].slices|
  }

  /** The entry prints these octets, SST and SD each in its place. */
  predicate Prints(entry: SliceInfo, s: Snssai) {
    HexDecode(entry.sst) == Decoded(s.sst) && HexDecode(entry.sd) == Decoded(s.sd)
  }

  lemma AllSlicesUpTo(items: seq<PlmnItem>, i: nat)
    requires i <= |items|
    ensures |AllSlices(items[..i])| == SlicesBefore(items, i)
    ensures AllSlices(items[..i]) <= AllSlices(items)
  {
    SliceCount(items, i);
    SlicePrefix(items, i);
  }

  lemma {:induction false} SliceCount(items: seq<PlmnItem>, i: nat)
    requires i <= |items|
    ensures |AllSlices(items[..i])| == SlicesBefore(items, i)
  {
    if i > 0 {
      SliceCount(items, i - 1);
      assert items[..i][..i - 1] == items[..i - 1];
    }
  }

  lemma {:induction false} SlicePrefix(items: seq<PlmnItem>, i: nat)
    requires i <= |items|
    ensures AllSlices(items[..i]) <= AllSlices(items)
    decreases |items| - i
  {
    if i < |items| {
      SlicePrefix(items, i + 1);
      assert items[..i + 1][..i] == items[..i];
    } else {
      assert items[..i] == items;
    }
  }

  /** Slice j of item i is at its place in the list, with its own SST and SD. */
  lemma SliceAt(items: seq<PlmnItem>, i: nat, j: nat)
    requires i < |items| && j < |items[i].slices|
    ensures SlicesBefore(items, i) + j < |AllSlices(items)|
    ensures Prints(AllSlices(items)[SlicesBefore(items, i) + j], items[i].slices[j])
  {
    var s := items[i].slices[j];
    AllSlicesUpTo(items, i);
    AllSlicesUpTo(items, i + 1);
    assert items[..i + 1][..i] == items[..i];
    assert AllSlices(items[..i + 1])[SlicesBefore(items, i) + j] == SliceOf(s);
    HexRoundTrip(s.sst);
    HexRoundTrip(s.sd);
  }

  ghost predicate SlicesListed(items: seq<PlmnItem>, list: seq<SliceInfo>) {
    && |list| == SlicesBefore(items, |items|)
    && forall i: nat, j: nat :: i < |items| && j < |items[i].slices| ==> ListedAt(items, list, i, j)
  }

  predicate ListedAt(items: seq<PlmnItem>, list: seq<SliceInfo>, i: nat, j: nat)
    requires i < |items| && j < |items[i].slices|
  {
    SlicesBefore(items, i) + j < |list| && Prints(list[SlicesBefore(items, i) + j], items[i].slices[j])
  }

  ghost predicate PlmnsListed(items: seq<PlmnItem>, list: seq<PlmnInfo>)
    requires WellFormed(items)
  {
    && |list| == |items|
    && forall i: nat :: i < |items| ==> (list[i].mcc, list[i].mnc) == ConvertMccMnc(HexEncode(items[i].plmn))
  }

  lemma AllListed(items: seq<PlmnItem>)
    requires WellFormed(items)
    ensures SlicesListed(items, AllSlices(items)) && PlmnsListed(items, PlmnsOf(items))
  {
    AllSlicesUpTo(items, |items|);
    assert items[..|items|] == items;
    forall i: nat, j: nat | i < |items| && j < |items[i].slices| ensures ListedAt(items, AllSlices(items), i, j) {
      SliceAt(items, i, j);
    }
  }

  /** An AMF that answers the NG Setup Request of a CU-CP that has just started: its lists
      hold what the response lists, each PLMN and each slice at its place, SST and SD of
      each slice as they were sent. */
  method SetUp(msg: NGSetupResponse) returns (amf: GNBAmf)
    requires WellFormed(msg.plmnSupport)
    ensures fresh(amf) && amf.Valid() && amf.state == AMF_ACTIVE
    ensures PlmnsListed(msg.plmnSupport, amf.plmns.Contents())
    ensures SlicesListed(msg.plmnSupport, amf.slices.Contents())
  {
    amf := new GNBAmf();
    var _, _ := amf.HandlerNgSetupResponse(msg);
    AllListed(msg.plmnSupport);
    assert amf.slices.Contents() == AllSlices(msg.plmnSupport);
    assert amf.plmns.Contents() == PlmnsOf(msg.plmnSupport);
  }
}
