/**
  One packet seen from both sides: its header fields by P4 name, as strings, and by AFI slot, as numbers.
  A table entry and the AFI match it becomes accept the same packets.
 */
module HeaderViews {
  import opened Prelude
  import opened MatchTranslation

  /** The header fields and metadata of a packet that either side can test. */
  datatype Headers = Headers(
    ingressPort: bv32, egressSpec: bv32, etherType: bv32, vlanId: bv32, vlanPriority: bv32, ttl: bv32,
    protocol: bv32, diffserv: bv32, sourceAddress: bv32, destinationAddress: bv32, sourcePort: bv32,
    destinationPort: bv32, classId: bv32, vrfId: bv32, arpTarget: bv32, icmpType: bv32,
    sourceMac: seq<bv8>, destinationMac: seq<bv8>)

  // ----- The P4 view -----

  function P4Port(h: Headers, name: string): Option<bv32> {
    if name == "standard_metadata.ingress_port" then Some(h.ingressPort)
    else if name == "standard_metadata.egress_spec" then Some(h.egressSpec)
    else None
  }

  function P4Metadata(h: Headers, name: string): Option<bv32> {
    if name == "local_metadata.l4_src_port" then Some(h.sourcePort)
    else if name == "local_metadata.l4_dst_port" then Some(h.destinationPort)
    else if name == "local_metadata.class_id" then Some(h.classId)
    else if name == "local_metadata.vrf_id" then Some(h.vrfId)
    else None
  }

  function P4Link(h: Headers, name: string): Option<bv32> {
    if name == "hdr.ethernet.ether_type" then Some(h.etherType)
    else if name == "hdr.vlan_tag[0].vid" then Some(h.vlanId)
    else if name == "hdr.vlan_tag[0].pcp" then Some(h.vlanPriority)
    else if name == "hdr.arp.target_proto_addr" then Some(h.arpTarget)
    else if name == "hdr.icmp.type" then Some(h.icmpType)
    else None
  }

  function P4Ipv4(h: Headers, name: string): Option<bv32> {
    if name == "hdr.ipv4_base.ttl" then Some(h.ttl)
    else if name == "hdr.ipv4_base.protocol" then Some(h.protocol)
    else if name == "hdr.ipv4_base.diffserv" then Some(h.diffserv)
    else if name == "hdr.ipv4_base.src_addr" then Some(h.sourceAddress)
    else if name == "hdr.ipv4_base.dst_addr" then Some(h.destinationAddress)
    else None
  }

  function P4Number(h: Headers, name: string): Option<bv32> {
    if P4Port(h, name).Some? then P4Port(h, name)
    else if P4Metadata(h, name).Some? then P4Metadata(h, name)
    else if P4Link(h, name).Some? then P4Link(h, name)
    else P4Ipv4(h, name)
  }

  function P4Mac(h: Headers, name: string): Option<seq<bv8>> {
    if name == "hdr.ethernet.src_addr" then Some(h.sourceMac)
    else if name == "hdr.ethernet.dst_addr" then Some(h.destinationMac)
    else None
  }

  /** The field of the packet as a string of the field's size. */
  function P4Field(h: Headers, info: FieldInfo): Option<seq<bv8>> {
    if 0 < info.bitWidth <= 32 then
      match P4Number(h, info.name)
      case Some(v) => Some(Encoded(v, Size(info.bitWidth)))
      case None => None
    else if 32 < info.bitWidth <= 64 then P4Mac(h, info.name)
    else None
  }

  /** The values fit the widths that the P4 program declares. */
  ghost predicate Fit(fields: seq<FieldInfo>, h: Headers) {
    |h.sourceMac| == 6 && |h.destinationMac| == 6 && forall i :: 0 <= i < |fields| ==> FitsField(fields[i], h)
  }

  ghost predicate FitsField(info: FieldInfo, h: Headers) {
    (P4Field(h, info).Some? ==> InField(P4Field(h, info).value, info.bitWidth)) &&
    (0 < info.bitWidth <= 32 && P4Number(h, info.name).Some? ==> FitsIn(P4Number(h, info.name).value, Size(info.bitWidth)))
  }

  /** The packet matches one field of an entry, in the sense of P4. */
  predicate AcceptsField(fields: seq<FieldInfo>, mf: MatchField, h: Headers) {
    var info := Lookup(fields, mf.id);
    info.Some? && P4Field(h, info.value).Some? && FieldMatches(mf, info.value.bitWidth, P4Field(h, info.value).value)
  }

  /** The packet matches the entry: every field of it. */
  predicate Accepts(fields: seq<FieldInfo>, mfs: seq<MatchField>, h: Headers) {
    forall i :: 0 <= i < |mfs| ==> AcceptsField(fields, mfs[i], h)
  }

  // ----- The AFI view -----

  function AfiWord(h: Headers, slot: Slot): bv32 {
    match slot
    case SourcePort => h.ingressPort
    case DestinationPort => h.egressSpec
    case Ethertype => h.etherType
    case OuterVlanId => h.vlanId
    case OuterVlanDot1p => h.vlanPriority
    case Ipv4Ttl => h.ttl
    case IpProtocol => h.protocol
    case Tos => h.diffserv
    case SourceIpv4 => h.sourceAddress
    case DestinationIpv4 => h.destinationAddress
    case L4SourcePort => h.sourcePort
    case L4DestinationPort => h.destinationPort
    case IngressClassId => h.classId
    case Vrf => h.vrfId
    case ArpTargetIpv4 => h.arpTarget
    case IcmpType => h.icmpType
  }

  function AfiMac(h: Headers, slot: MacSlot): seq<bv8> {
    match slot case SourceMac => h.sourceMac case DestinationMac => h.destinationMac
  }

  function AfiView(h: Headers): Packet {
    Packet(slot => AfiWord(h, slot), slot => AfiMac(h, slot))
  }

  // ----- Both views agree -----

  function WordOf(h: Headers, slot: Option<Slot>): Option<bv32> {
    if slot.Some? then Some(AfiWord(h, slot.value)) else None
  }

  lemma PortAgrees(h: Headers, name: string)
    ensures WordOf(h, PortSlot(name)) == P4Port(h, name)
  {
  }

  lemma MetadataAgrees(h: Headers, name: string)
    ensures WordOf(h, MetadataSlot(name)) == P4Metadata(h, name)
  {
  }

  lemma LinkAgrees(h: Headers, name: string)
    ensures WordOf(h, LinkSlot(name)) == P4Link(h, name)
  {
  }

  lemma Ipv4Agrees(h: Headers, name: string)
    ensures WordOf(h, Ipv4Slot(name)) == P4Ipv4(h, name)
  {
  }

  lemma SlotHoldsMac(h: Headers, name: string)
    ensures MacSlotOf(name).Some? <==> P4Mac(h, name).Some?
    ensures MacSlotOf(name).Some? ==> AfiMac(h, MacSlotOf(name).value) == P4Mac(h, name).value
  {
  }

  /** Each known name goes to the slot that holds the same header field, and no other name to any. */
  lemma SlotHoldsField(h: Headers, name: string)
    ensures SlotOf(name).Some? <==> P4Number(h, name).Some?
    ensures SlotOf(name).Some? ==> AfiWord(h, SlotOf(name).value) == P4Number(h, name).value
    ensures MacSlotOf(name).Some? <==> P4Mac(h, name).Some?
    ensures MacSlotOf(name).Some? ==> AfiMac(h, MacSlotOf(name).value) == P4Mac(h, name).value
  {
    hide PortSlot, MetadataSlot, LinkSlot, Ipv4Slot, P4Port, P4Metadata, P4Link, P4Ipv4, AfiWord, MacSlotOf, AfiMac, P4Mac;
    PortAgrees(h, name);
    MetadataAgrees(h, name);
    LinkAgrees(h, name);
    Ipv4Agrees(h, name);
    SlotHoldsMac(h, name);
  }

  function NameOf(slot: Slot): string {
    match slot
    case SourcePort => "standard_metadata.ingress_port"
    case DestinationPort => "standard_metadata.egress_spec"
    case Ethertype => "hdr.ethernet.ether_type"
    case OuterVlanId => "hdr.vlan_tag[0].vid"
    case OuterVlanDot1p => "hdr.vlan_tag[0].pcp"
    case Ipv4Ttl => "hdr.ipv4_base.ttl"
    case IpProtocol => "hdr.ipv4_base.protocol"
    case Tos => "hdr.ipv4_base.diffserv"
    case SourceIpv4 => "hdr.ipv4_base.src_addr"
    case DestinationIpv4 => "hdr.ipv4_base.dst_addr"
    case L4SourcePort => "local_metadata.l4_src_port"
    case L4DestinationPort => "local_metadata.l4_dst_port"
    case IngressClassId => "local_metadata.class_id"
    case Vrf => "local_metadata.vrf_id"
    case ArpTargetIpv4 => "hdr.arp.target_proto_addr"
    case IcmpType => "hdr.icmp.type"
  }

  lemma PortNames(name: string)
    ensures PortSlot(name).Some? ==> name == NameOf(PortSlot(name).value)
  {
  }

  lemma MetadataNames(name: string)
    ensures MetadataSlot(name).Some? ==> name == NameOf(MetadataSlot(name).value)
  {
  }

  lemma LinkNames(name: string)
    ensures LinkSlot(name).Some? ==> name == NameOf(LinkSlot(name).value)
  {
  }

  lemma Ipv4Names(name: string)
    ensures Ipv4Slot(name).Some? ==> name == NameOf(Ipv4Slot(name).value)
  {
  }

  lemma SlotNames(name: string)
    ensures SlotOf(name).Some? ==> name == NameOf(SlotOf(name).value)
  {
    hide PortSlot, MetadataSlot, LinkSlot, Ipv4Slot, NameOf;
    PortNames(name);
    MetadataNames(name);
    LinkNames(name);
    Ipv4Names(name);
  }

  // ----- Whole entries -----

  /**
    The field can be stored as it is meant: its name is known and not that of the L4 source port, its strings
    have the field's size, and a prefix is the whole field.
   */
  ghost predicate Meant(fields: seq<FieldInfo>, mf: MatchField, h: Headers) {
    var info := Lookup(fields, mf.id);
    info.Some? && info.value.name != "local_metadata.l4_src_port" && P4Field(h, info.value).Some? &&
    (var x, w := P4Field(h, info.value).value, info.value.bitWidth;
     w <= 8 * |x| && |mf.value| == |x| && (mf.typ.Ternary? ==> |mf.mask| == |x|) &&
     (mf.typ.Lpm? ==> mf.len >= w && InField(mf.value, w)))
  }

  /** Every field can be stored as it is meant, and no two have the same name. */
  ghost predicate EntryMeant(fields: seq<FieldInfo>, mfs: seq<MatchField>, h: Headers) {
    (forall i :: 0 <= i < |mfs| ==> Meant(fields, mfs[i], h)) &&
    forall i, j :: 0 <= i < j < |mfs| ==> Lookup(fields, mfs[i].id).value.name != Lookup(fields, mfs[j].id).value.name
  }

  lemma SourcePortName(info: FieldInfo)
    requires TargetOf(info) == Some(WordTarget(L4SourcePort))
    ensures info.name == "local_metadata.l4_src_port"
  {
    hide SlotOf, MacSlotOf;
    SlotNames(info.name);
  }

  /** Different names have different targets. */
  lemma TargetsDiffer(a: FieldInfo, b: FieldInfo)
    requires TargetOf(a).Some? && TargetOf(a) == TargetOf(b)
    ensures a.name == b.name
  {
    if TargetOf(a).value.WordTarget? {
      hide SlotOf, MacSlotOf, NameOf;
      SlotNames(a.name);
      SlotNames(b.name);
    } else {
      hide SlotOf;
    }
  }

  lemma FieldSize(h: Headers, info: FieldInfo)
    requires |h.sourceMac| == 6 && |h.destinationMac| == 6 && P4Field(h, info).Some?
    ensures |P4Field(h, info).value| == if info.bitWidth <= 32 then Size(info.bitWidth) else 6
  {
    hide P4Number;
  }

  /** A meant field is stored, in the target where the AFI side finds the same value. */
  lemma MeantIsStored(fields: seq<FieldInfo>, mf: MatchField, h: Headers)
    requires Fit(fields, h) && Meant(fields, mf, h)
    ensures var info := Lookup(fields, mf.id).value;
            Stored(mf, info) && SameField(info, P4Field(h, info).value, AfiView(h)) && |P4Field(h, info).value| == |mf.value|
  {
    var info := Lookup(fields, mf.id).value;
    var x := P4Field(h, info).value;
    SlotHoldsField(h, info.name);
    FieldSize(h, info);
    assert FitsField(info, h);
    if info.bitWidth <= 32 {
      EncodedReads(P4Number(h, info.name).value, Size(info.bitWidth));
    }
    hide SlotOf, MacSlotOf, P4Number, P4Mac, AfiWord, AfiMac, InField, BigEndian, Encoded, Lookup, FitsIn;
    if TargetOf(info) == Some(WordTarget(L4SourcePort)) {
      SourcePortName(info);
    }
  }

  lemma {:induction false} EntryIsStored(fields: seq<FieldInfo>, mfs: seq<MatchField>, h: Headers, used: set<Target>)
    requires Fit(fields, h) && EntryMeant(fields, mfs, h)
    requires forall i :: 0 <= i < |mfs| ==> TargetOf(Lookup(fields, mfs[i].id).value).Some?
    requires forall i :: 0 <= i < |mfs| ==> TargetOf(Lookup(fields, mfs[i].id).value).value !in used
    ensures EntryStored(fields, mfs, used)
    decreases |mfs|
  {
    InfosExist(fields, mfs, h);
    hide Lookup, TargetOf, Fit, Meant, Stored;
    if mfs == [] {
    } else {
      var info := Lookup(fields, mfs[0].id).value;
      var rest := mfs[1..];
      MeantIsStored(fields, mfs[0], h);
      assert forall i :: 0 <= i < |rest| ==> rest[i] == mfs[i + 1];
      MeantHasInfo(fields, mfs[0], h);
      forall i | 0 <= i < |rest|
        ensures TargetOf(Lookup(fields, rest[i].id).value).value !in used + {TargetOf(info).value}
      {
        var other := Lookup(fields, rest[i].id).value;
        if TargetOf(other) == TargetOf(info) {
          TargetsDiffer(other, info);
        }
      }
      EntryIsStored(fields, rest, h, used + {TargetOf(info).value});
    }
  }

  lemma InfosExist(fields: seq<FieldInfo>, mfs: seq<MatchField>, h: Headers)
    requires EntryMeant(fields, mfs, h)
    ensures forall i :: 0 <= i < |mfs| ==> Lookup(fields, mfs[i].id).Some?
  {
    hide Lookup, InField;
  }

  lemma MeantHasInfo(fields: seq<FieldInfo>, mf: MatchField, h: Headers)
    requires Meant(fields, mf, h)
    ensures Lookup(fields, mf.id).Some? && P4Field(h, Lookup(fields, mf.id).value).Some?
  {
  }

  ghost function Strings(fields: seq<FieldInfo>, mfs: seq<MatchField>, h: Headers): (xs: seq<seq<bv8>>)
    requires EntryMeant(fields, mfs, h)
    ensures |xs| == |mfs|
  {
    seq(|mfs|, i requires 0 <= i < |mfs| => P4Field(h, Lookup(fields, mfs[i].id).value).value)
  }

  lemma {:induction false} EntrySeen(fields: seq<FieldInfo>, mfs: seq<MatchField>, h: Headers)
    requires Fit(fields, h) && EntryMeant(fields, mfs, h)
    ensures SamePacket(fields, mfs, Strings(fields, mfs, h), AfiView(h))
    ensures EntryMatches(fields, mfs, Strings(fields, mfs, h)) <==> Accepts(fields, mfs, h)
    decreases |mfs|
  {
    hide Lookup, Meant, Fit, SameField, P4Field, FieldMatches, AfiView;
    if mfs == [] {
    } else {
      var rest := mfs[1..];
      assert forall i :: 0 <= i < |rest| ==> rest[i] == mfs[i + 1];
      assert Meant(fields, mfs[0], h);
      MeantIsStored(fields, mfs[0], h);
      MeantHasInfo(fields, mfs[0], h);
      EntrySeen(fields, rest, h);
      assert Strings(fields, mfs, h)[1..] == Strings(fields, rest, h);
      AcceptsFirst(fields, mfs, h);
    }
  }

  lemma AcceptsFirst(fields: seq<FieldInfo>, mfs: seq<MatchField>, h: Headers)
    requires mfs != []
    ensures Accepts(fields, mfs, h) <==> AcceptsField(fields, mfs[0], h) && Accepts(fields, mfs[1..], h)
  {
    hide AcceptsField;
    assert forall i :: 0 <= i < |mfs| - 1 ==> mfs[1..][i] == mfs[i + 1];
    if AcceptsField(fields, mfs[0], h) && Accepts(fields, mfs[1..], h) {
      forall i | 0 <= i < |mfs| ensures AcceptsField(fields, mfs[i], h) {
        if i > 0 {
          assert AcceptsField(fields, mfs[1..][i - 1], h);
        }
      }
    }
  }

  lemma MeantTargets(fields: seq<FieldInfo>, mfs: seq<MatchField>, h: Headers)
    requires Fit(fields, h) && EntryMeant(fields, mfs, h)
    ensures forall i :: 0 <= i < |mfs| ==> TargetOf(Lookup(fields, mfs[i].id).value).Some?
  {
    InfosExist(fields, mfs, h);
    hide Lookup, Meant, Fit, SameField, P4Field, TargetOf, AfiView;
    forall i | 0 <= i < |mfs| ensures TargetOf(Lookup(fields, mfs[i].id).value).Some? {
      MeantIsStored(fields, mfs[i], h);
      MeantHasInfo(fields, mfs[i], h);
    }
  }

  /** For every packet: the AFI match made from an entry accepts it if and only if the P4 entry does. */
  lemma EntryTranslation(fields: seq<FieldInfo>, mfs: seq<MatchField>, h: Headers)
    requires Fit(fields, h) && EntryMeant(fields, mfs, h)
    ensures AllReadable(fields, mfs) && Translate(fields, mfs, EMPTY).Some?
    ensures AfiMatches(Translate(fields, mfs, EMPTY).value, AfiView(h)) <==> Accepts(fields, mfs, h)
  {
    hide *;
    MeantTargets(fields, mfs, h);
    EntryIsStored(fields, mfs, h, {});
    EntrySeen(fields, mfs, h);
    EntryOnStrings(fields, mfs, Strings(fields, mfs, h), AfiView(h));
  }
}
