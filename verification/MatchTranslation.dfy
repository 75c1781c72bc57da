/**
  `AfiCap::createChildJsonRes`, first half: P4 match fields, given as big-endian strings, become
  32-bit value and mask fields of an AFI match object, chosen by the field's name.
 */
module MatchTranslation {
  import opened Prelude

  datatype MatchType = Exact | Lpm | Ternary

  datatype MatchField = MatchField(id: nat, typ: MatchType, value: seq<bv8>, len: nat, mask: seq<bv8>)

  /** One match field of a table in the P4 info. */
  datatype FieldInfo = FieldInfo(id: nat, name: string, bitWidth: nat)

  /** `matchFieldInfo`: the first field with this id. */
  function Lookup(fields: seq<FieldInfo>, id: nat): (r: Option<FieldInfo>)
    ensures r.Some? ==> r.value in fields && r.value.id == id
    ensures r.None? ==> forall f :: f in fields ==> f.id != id
  {
    if fields == [] then None else if fields[0].id == id then Some(fields[0]) else Lookup(fields[1..], id)
  }

  method MatchFieldInfo(fields: seq<FieldInfo>, id: nat) returns (r: Option<FieldInfo>)
    ensures r == Lookup(fields, id)
  {
    for i := 0 to |fields|
      invariant Lookup(fields, id) == Lookup(fields[i..], id)
    {
      if fields[i].id == id {
        return Some(fields[i]);
      }
      assert fields[i..][1..] == fields[i + 1..];
    }
    return None;
  }

  /** The 32-bit fields of the AFI match object. */
  datatype Slot =
    | SourcePort | DestinationPort | Ethertype | OuterVlanId | OuterVlanDot1p | Ipv4Ttl | IpProtocol | Tos
    | SourceIpv4 | DestinationIpv4 | L4SourcePort | L4DestinationPort | IngressClassId | Vrf | ArpTargetIpv4 | IcmpType

  function PortSlot(name: string): Option<Slot> {
    if name == "standard_metadata.ingress_port" then Some(SourcePort)
    else if name == "standard_metadata.egress_spec" then Some(DestinationPort)
    else None
  }

  function MetadataSlot(name: string): Option<Slot> {
    if name == "local_metadata.l4_src_port" then Some(L4SourcePort)
    else if name == "local_metadata.l4_dst_port" then Some(L4DestinationPort)
    else if name == "local_metadata.class_id" then Some(IngressClassId)
    else if name == "local_metadata.vrf_id" then Some(Vrf)
    else None
  }

  function LinkSlot(name: string): Option<Slot> {
    if name == "hdr.ethernet.ether_type" then Some(Ethertype)
    else if name == "hdr.vlan_tag[0].vid" then Some(OuterVlanId)
    else if name == "hdr.vlan_tag[0].pcp" then Some(OuterVlanDot1p)
    else if name == "hdr.arp.target_proto_addr" then Some(ArpTargetIpv4)
    else if name == "hdr.icmp.type" then Some(IcmpType)
    else None
  }

  function Ipv4Slot(name: string): Option<Slot> {
    if name == "hdr.ipv4_base.ttl" then Some(Ipv4Ttl)
    else if name == "hdr.ipv4_base.protocol" then Some(IpProtocol)
    else if name == "hdr.ipv4_base.diffserv" then Some(Tos)
    else if name == "hdr.ipv4_base.src_addr" then Some(SourceIpv4)
    else if name == "hdr.ipv4_base.dst_addr" then Some(DestinationIpv4)
    else None
  }

  /** The dispatch on the field name; other names are dropped. */
  function SlotOf(name: string): Option<Slot> {
    if PortSlot(name).Some? then PortSlot(name)
    else if MetadataSlot(name).Some? then MetadataSlot(name)
    else if LinkSlot(name).Some? then LinkSlot(name)
    else Ipv4Slot(name)
  }

  datatype MacSlot = SourceMac | DestinationMac

  function MacSlotOf(name: string): Option<MacSlot> {
    if name == "hdr.ethernet.src_addr" then Some(SourceMac)
    else if name == "hdr.ethernet.dst_addr" then Some(DestinationMac)
    else None
  }

  /** An unset field reads as 0. MAC addresses are kept as strings. */
  datatype AfiMatch = AfiMatch(
    values: map<Slot, bv32>,
    masks: map<Slot, bv32>,
    macs: map<MacSlot, (seq<bv8>, seq<bv8>)>)

  const EMPTY := AfiMatch(map[], map[], map[])

  /** How many bytes are read for a field of this width, up to 32 bits. */
  function Size(bitWidth: nat): nat {
    if bitWidth <= 8 then 1 else if bitWidth <= 16 then 2 else 4
  }

  predicate SizeOk(n: nat) {
    n == 1 || n == 2 || n == 4
  }

  function Word2(a: bv8, b: bv8): bv32 {
    (a as bv32 << 8) | b as bv32
  }

  function Word4(a: bv8, b: bv8, c: bv8, d: bv8): bv32 {
    (a as bv32 << 24) | (b as bv32 << 16) | (c as bv32 << 8) | d as bv32
  }

  /** The first `n` bytes, loaded and converted from network order. */
  function BigEndian(s: seq<bv8>, n: nat): bv32
    requires SizeOk(n) && n <= |s|
  {
    if n == 1 then s[0] as bv32 else if n == 2 then Word2(s[0], s[1]) else Word4(s[0], s[1], s[2], s[3])
  }

  /** The first `n` bytes of `s.c_str()`: a terminator follows the string and may be read as well. */
  function Load(s: seq<bv8>, n: nat): bv32
    requires SizeOk(n) && n <= |s| + 1
  {
    BigEndian(s + [0], n)
  }

  const ALL_ONES: bv32 := 0xffff_ffff

  /** What is read lies inside the strings and their terminators. */
  predicate Readable(mf: MatchField, info: FieldInfo) {
    0 < info.bitWidth <= 32 ==>
      Size(info.bitWidth) <= |mf.value| + 1 && (mf.typ.Ternary? ==> Size(info.bitWidth) <= |mf.mask| + 1)
  }

  /** The L4 source port's value is overwritten by its mask: only the mask field is ever set. */
  function Put(obj: AfiMatch, slot: Slot, v: bv32, m: bv32): AfiMatch {
    if slot.L4SourcePort? then obj.(masks := obj.masks[slot := m])
    else obj.(values := obj.values[slot := v], masks := obj.masks[slot := m])
  }

  /** What one match field adds to the object. */
  function Add(obj: AfiMatch, mf: MatchField, info: FieldInfo): AfiMatch
    requires Readable(mf, info)
  {
    if info.bitWidth == 0 || info.bitWidth > 64 then obj
    else if info.bitWidth <= 32 then
      var n := Size(info.bitWidth);
      var v := Load(mf.value, n);
      var m := if mf.typ.Ternary? then Load(mf.mask, n) else ALL_ONES;
      match SlotOf(info.name)
      case Some(slot) => Put(obj, slot, v, m)
      case None => obj
    else if MacSlotOf(info.name).Some? then
      var m := if mf.typ.Ternary? then mf.mask else [0xff, 0xff, 0xff, 0xff, 0xff, 0xff];
      obj.(macs := obj.macs[MacSlotOf(info.name).value := (mf.value, m)])
    else obj
  }

  /** Every field that is known can be read. */
  predicate AllReadable(fields: seq<FieldInfo>, mfs: seq<MatchField>) {
    forall i :: 0 <= i < |mfs| && Lookup(fields, mfs[i].id).Some? ==>
      Readable(mfs[i], Lookup(fields, mfs[i].id).value)
  }

  /** The whole loop; an unknown field id fails it. */
  function Translate(fields: seq<FieldInfo>, mfs: seq<MatchField>, obj: AfiMatch): Option<AfiMatch>
    requires AllReadable(fields, mfs)
  {
    if mfs == [] then Some(obj)
    else match Lookup(fields, mfs[0].id)
      case None => None
      case Some(info) => Translate(fields, mfs[1..], Add(obj, mfs[0], info))
  }

  method TranslateMatch(fields: seq<FieldInfo>, mfs: seq<MatchField>) returns (r: Option<AfiMatch>)
    requires AllReadable(fields, mfs)
    ensures r == Translate(fields, mfs, EMPTY)
  {
    hide Add, SlotOf, Load, Readable;
    var obj := EMPTY;
    for i := 0 to |mfs|
      invariant Translate(fields, mfs, EMPTY) == Translate(fields, mfs[i..], obj)
    {
      assert mfs[i..][1..] == mfs[i + 1..];
      var info := MatchFieldInfo(fields, mfs[i].id);
      if info.None? {
        return None;
      }
      obj := AddField(obj, mfs[i], info.value);
    }
    return Some(obj);
  }

  /** The body of the loop. */
  method AddField(obj: AfiMatch, mf: MatchField, info: FieldInfo) returns (r: AfiMatch)
    requires Readable(mf, info)
    ensures r == Add(obj, mf, info)
  {
    hide SlotOf, Load, Put;
    r := obj;
    var ternary := mf.typ.Ternary?;
    if info.bitWidth == 0 {
      return;
    } else if info.bitWidth <= 32 {
      var v, m := ReadField(mf, info.bitWidth);
      var slot := SlotOf(info.name);
      if slot.Some? {
        r := Dispatch(obj, slot.value, v, m);
      }
    } else if info.bitWidth <= 64 {
      var slot := MacSlotOf(info.name);
      if slot.Some? {
        var mac := [0xff, 0xff, 0xff, 0xff, 0xff, 0xff];
        if ternary { mac := mf.mask; }
        r := obj.(macs := obj.macs[slot.value := (mf.value, mac)]);
      }
    }
  }

  /** Value and mask by width class; without a ternary mask, all ones. */
  method ReadField(mf: MatchField, bitWidth: nat) returns (v: bv32, m: bv32)
    requires 0 < bitWidth <= 32
    requires Size(bitWidth) <= |mf.value| + 1 && (mf.typ.Ternary? ==> Size(bitWidth) <= |mf.mask| + 1)
    ensures v == Load(mf.value, Size(bitWidth))
    ensures m == if mf.typ.Ternary? then Load(mf.mask, Size(bitWidth)) else ALL_ONES
  {
    hide Load;
    m := ALL_ONES;
    if bitWidth <= 8 {
      v := Load(mf.value, 1);
      if mf.typ.Ternary? { m := Load(mf.mask, 1); }
    } else if bitWidth <= 16 {
      v := Load(mf.value, 2);
      if mf.typ.Ternary? { m := Load(mf.mask, 2); }
    } else {
      v := Load(mf.value, 4);
      if mf.typ.Ternary? { m := Load(mf.mask, 4); }
    }
  }

  /** The two set calls of the chosen branch; the L4 source port branch sets the mask twice. */
  method Dispatch(obj: AfiMatch, slot: Slot, v: bv32, m: bv32) returns (r: AfiMatch)
    ensures r == Put(obj, slot, v, m)
  {
    if slot.L4SourcePort? {
      r := obj.(masks := obj.masks[slot := v]);
      r := r.(masks := r.masks[slot := m]);
    } else {
      r := obj.(values := obj.values[slot := v]);
      r := r.(masks := r.masks[slot := m]);
    }
  }

  // ----- Meaning -----

  /** Two words agree under a mask. */
  predicate Agree(x: bv32, v: bv32, m: bv32) {
    And(x, m) == And(v, m)
  }

  predicate AgreeByte(x: bv8, v: bv8, m: bv8) {
    AndByte(x, m) == AndByte(v, m)
  }

  function And(x: bv32, m: bv32): bv32 {
    x & m
  }

  function AndByte(x: bv8, m: bv8): bv8 {
    x & m
  }

  // The bits of a string, the most significant one first.

  predicate BitOf(b: bv8, k: nat) {
    b & (if k == 0 then 0x80 else if k == 1 then 0x40 else if k == 2 then 0x20 else if k == 3 then 0x10
         else if k == 4 then 0x08 else if k == 5 then 0x04 else if k == 6 then 0x02 else 0x01) != 0
  }

  predicate Bit(s: seq<bv8>, i: nat)
    requires i < 8 * |s|
  {
    BitOf(s[i / 8], i % 8)
  }

  /** How many bits of the string stand before a field of this width. */
  function Lead(s: seq<bv8>, width: nat): nat {
    if width < 8 * |s| then 8 * |s| - width else 0
  }

  /** The string holds a number of at most `width` bits. */
  predicate InField(s: seq<bv8>, width: nat) {
    forall i :: 0 <= i < Lead(s, width) ==> !Bit(s, i)
  }

  /** The first `len` bits of the field agree. */
  predicate PrefixMatches(x: seq<bv8>, v: seq<bv8>, width: nat, len: nat)
    requires |x| == |v|
  {
    forall i :: Lead(x, width) <= i < 8 * |x| && i < Lead(x, width) + len ==> Bit(x, i) == Bit(v, i)
  }

  /** A packet's field, as a string of the field's size, matches in the sense of P4. */
  predicate P4Matches(mf: MatchField, width: nat, x: seq<bv8>)
    requires |x| == |mf.value| && (mf.typ.Ternary? ==> |mf.mask| == |x|)
  {
    match mf.typ
    case Exact => x == mf.value
    case Lpm => PrefixMatches(x, mf.value, width, mf.len)
    case Ternary => AgreeBytes(x, mf.value, mf.mask)
  }

  predicate AgreeBytes(x: seq<bv8>, v: seq<bv8>, m: seq<bv8>) {
    |x| == |v| == |m| && forall i :: 0 <= i < |x| ==> AgreeByte(x[i], v[i], m[i])
  }

  /** The fields of a packet as the AFI object sees them. */
  datatype Packet = Packet(words: Slot -> bv32, macs: MacSlot -> seq<bv8>)

  /** An unset value reads as 0. */
  function ValueAt<K>(values: map<K, bv32>, k: K): bv32 {
    if k in values then values[k] else 0
  }

  ghost predicate WordsMatch<K(!new)>(values: map<K, bv32>, masks: map<K, bv32>, words: K -> bv32) {
    forall k :: k in masks ==> Agree(words(k), ValueAt(values, k), masks[k])
  }

  /** The masked comparison of every field that has a mask. */
  ghost predicate AfiMatches(obj: AfiMatch, pkt: Packet) {
    && WordsMatch(obj.values, obj.masks, pkt.words)
    && (forall slot :: slot in obj.macs ==> AgreeBytes(pkt.macs(slot), obj.macs[slot].0, obj.macs[slot].1))
  }

  lemma Masked1(x: bv8, v: bv8, m: bv8)
    ensures AgreeByte(x, v, m) <==> Agree(x as bv32, v as bv32, m as bv32)
  {
  }

  lemma And2(x0: bv8, x1: bv8, m0: bv8, m1: bv8)
    ensures And(Word2(x0, x1), Word2(m0, m1)) == Word2(AndByte(x0, m0), AndByte(x1, m1))
  {
  }

  lemma Word2Injective(x0: bv8, x1: bv8, v0: bv8, v1: bv8)
    ensures Word2(x0, x1) == Word2(v0, v1) ==> x0 == v0 && x1 == v1
  {
  }

  lemma Masked2(x0: bv8, x1: bv8, v0: bv8, v1: bv8, m0: bv8, m1: bv8)
    ensures AgreeByte(x0, v0, m0) && AgreeByte(x1, v1, m1) <==>
            Agree(Word2(x0, x1), Word2(v0, v1), Word2(m0, m1))
  {
    hide Word2, And, AndByte;
    And2(x0, x1, m0, m1);
    And2(v0, v1, m0, m1);
    Word2Injective(AndByte(x0, m0), AndByte(x1, m1), AndByte(v0, m0), AndByte(v1, m1));
  }

  lemma And4(x0: bv8, x1: bv8, x2: bv8, x3: bv8, m0: bv8, m1: bv8, m2: bv8, m3: bv8)
    ensures And(Word4(x0, x1, x2, x3), Word4(m0, m1, m2, m3)) ==
            Word4(AndByte(x0, m0), AndByte(x1, m1), AndByte(x2, m2), AndByte(x3, m3))
  {
  }

  lemma Word4Injective(x0: bv8, x1: bv8, x2: bv8, x3: bv8, v0: bv8, v1: bv8, v2: bv8, v3: bv8)
    ensures Word4(x0, x1, x2, x3) == Word4(v0, v1, v2, v3) ==> x0 == v0 && x1 == v1 && x2 == v2 && x3 == v3
  {
  }

  lemma Masked4(x0: bv8, x1: bv8, x2: bv8, x3: bv8, v0: bv8, v1: bv8, v2: bv8, v3: bv8,
                m0: bv8, m1: bv8, m2: bv8, m3: bv8)
    ensures AgreeByte(x0, v0, m0) && AgreeByte(x1, v1, m1) && AgreeByte(x2, v2, m2) && AgreeByte(x3, v3, m3) <==>
            Agree(Word4(x0, x1, x2, x3), Word4(v0, v1, v2, v3), Word4(m0, m1, m2, m3))
  {
    hide Word4, And, AndByte;
    And4(x0, x1, x2, x3, m0, m1, m2, m3);
    And4(v0, v1, v2, v3, m0, m1, m2, m3);
    Word4Injective(AndByte(x0, m0), AndByte(x1, m1), AndByte(x2, m2), AndByte(x3, m3),
                   AndByte(v0, m0), AndByte(v1, m1), AndByte(v2, m2), AndByte(v3, m3));
  }

  lemma Same(x: bv32, v: bv32)
    ensures Agree(x, v, ALL_ONES) <==> x == v
  {
  }

  lemma AgreeBytesAre(x: seq<bv8>, v: seq<bv8>, m: seq<bv8>)
    requires SizeOk(|x|) && |v| == |x| && |m| == |x|
    ensures AgreeBytes(x, v, m) <==>
            AgreeByte(x[0], v[0], m[0]) && (|x| > 1 ==> AgreeByte(x[1], v[1], m[1])) &&
            (|x| > 2 ==> AgreeByte(x[2], v[2], m[2]) && AgreeByte(x[3], v[3], m[3]))
  {
    hide AgreeByte;
  }

  /** Comparing masked bytes one by one is comparing masked words. */
  lemma BytesOrWords(x: seq<bv8>, v: seq<bv8>, m: seq<bv8>)
    requires SizeOk(|x|) && |v| == |x| && |m| == |x|
    ensures AgreeBytes(x, v, m) <==> Agree(BigEndian(x, |x|), BigEndian(v, |x|), BigEndian(m, |x|))
  {
    hide Word2, Word4, Agree, AgreeByte, AgreeBytes;
    AgreeBytesAre(x, v, m);
    if |x| == 1 {
      Masked1(x[0], v[0], m[0]);
    } else if |x| == 2 {
      Masked2(x[0], x[1], v[0], v[1], m[0], m[1]);
    } else {
      Masked4(x[0], x[1], x[2], x[3], v[0], v[1], v[2], v[3], m[0], m[1], m[2], m[3]);
    }
  }

  lemma BigEndianInjective(x: seq<bv8>, v: seq<bv8>)
    requires SizeOk(|x|) && |v| == |x|
    ensures BigEndian(x, |x|) == BigEndian(v, |x|) <==> x == v
  {
    hide Word2, Word4;
    if |x| == 2 {
      Word2Injective(x[0], x[1], v[0], v[1]);
    } else if |x| == 4 {
      Word4Injective(x[0], x[1], x[2], x[3], v[0], v[1], v[2], v[3]);
    }
  }

  lemma ByteOfBits(b: bv8, c: bv8)
    requires forall k :: 0 <= k < 8 ==> BitOf(b, k) == BitOf(c, k)
    ensures b == c
  {
    assert BitOf(b, 0) == BitOf(c, 0) && BitOf(b, 1) == BitOf(c, 1) && BitOf(b, 2) == BitOf(c, 2) && BitOf(b, 3) == BitOf(c, 3);
    assert BitOf(b, 4) == BitOf(c, 4) && BitOf(b, 5) == BitOf(c, 5) && BitOf(b, 6) == BitOf(c, 6) && BitOf(b, 7) == BitOf(c, 7);
  }

  lemma SameBits(x: seq<bv8>, y: seq<bv8>)
    requires |x| == |y| && forall i :: 0 <= i < 8 * |x| ==> Bit(x, i) == Bit(y, i)
    ensures x == y
  {
    hide BitOf;
    forall j | 0 <= j < |x|
      ensures x[j] == y[j]
    {
      forall k | 0 <= k < 8
        ensures BitOf(x[j], k) == BitOf(y[j], k)
      {
        assert Bit(x, 8 * j + k) == Bit(y, 8 * j + k);
      }
      ByteOfBits(x[j], y[j]);
    }
  }

  /** A full-length prefix leaves no freedom inside the field. */
  lemma FullPrefixIsExact(x: seq<bv8>, v: seq<bv8>, width: nat, len: nat)
    requires |x| == |v| && width <= 8 * |x| && width <= len && InField(x, width) && InField(v, width)
    ensures PrefixMatches(x, v, width, len) <==> x == v
  {
    hide Bit;
    if PrefixMatches(x, v, width, len) {
      forall i | 0 <= i < 8 * |x|
        ensures Bit(x, i) == Bit(v, i)
      {
        if i < Lead(x, width) {
          assert !Bit(x, i) && !Bit(v, i);
        }
      }
      SameBits(x, v);
    }
  }

  // ----- Where a field is stored -----

  datatype Target = WordTarget(slot: Slot) | MacTarget(mac: MacSlot)

  function TargetOf(info: FieldInfo): Option<Target> {
    if 0 < info.bitWidth <= 32 && SlotOf(info.name).Some? then Some(WordTarget(SlotOf(info.name).value))
    else if 32 < info.bitWidth <= 64 && MacSlotOf(info.name).Some? then Some(MacTarget(MacSlotOf(info.name).value))
    else None
  }

  /** Strings of the size that the target has. */
  predicate Sized(mf: MatchField, info: FieldInfo) {
    var n := if info.bitWidth <= 32 then Size(info.bitWidth) else 6;
    TargetOf(info).Some? && info.bitWidth <= 8 * n && |mf.value| == n && (mf.typ.Ternary? ==> |mf.mask| == n)
  }

  /** A field that the dispatch stores as it is meant: not the L4 source port, and no proper prefix. */
  predicate Stored(mf: MatchField, info: FieldInfo) {
    Sized(mf, info) && TargetOf(info).value != WordTarget(L4SourcePort) &&
    (mf.typ.Lpm? ==> mf.len >= info.bitWidth && InField(mf.value, info.bitWidth))
  }

  function Value(mf: MatchField): bv32
    requires SizeOk(|mf.value|)
  {
    BigEndian(mf.value, |mf.value|)
  }

  function Mask(mf: MatchField): bv32
    requires SizeOk(|mf.value|) && (mf.typ.Ternary? ==> |mf.mask| == |mf.value|)
  {
    if mf.typ.Ternary? then BigEndian(mf.mask, |mf.value|) else ALL_ONES
  }

  function MacMask(mf: MatchField): seq<bv8> {
    if mf.typ.Ternary? then mf.mask else [0xff, 0xff, 0xff, 0xff, 0xff, 0xff]
  }

  /** The test that stands for the field, on the field's bytes. */
  predicate Tests(mf: MatchField, x: seq<bv8>) {
    if mf.typ.Ternary? then AgreeBytes(x, mf.value, mf.mask) else x == mf.value
  }

  lemma WordTest(mf: MatchField, x: seq<bv8>)
    requires SizeOk(|x|) && |mf.value| == |x| && (mf.typ.Ternary? ==> |mf.mask| == |x|)
    ensures Tests(mf, x) <==> Agree(BigEndian(x, |x|), Value(mf), Mask(mf))
  {
    hide BigEndian, Agree, AgreeBytes;
    if mf.typ.Ternary? {
      BytesOrWords(x, mf.value, mf.mask);
    } else {
      Same(BigEndian(x, |x|), Value(mf));
      BigEndianInjective(x, mf.value);
    }
  }

  lemma AllOnesByte(x: bv8, v: bv8)
    ensures AgreeByte(x, v, 0xff) <==> x == v
  {
  }

  lemma MacTest(mf: MatchField, x: seq<bv8>)
    requires |x| == |mf.value| == 6 && (mf.typ.Ternary? ==> |mf.mask| == 6)
    ensures Tests(mf, x) <==> AgreeBytes(x, mf.value, MacMask(mf))
  {
    hide AgreeByte;
    forall i | 0 <= i < 6 ensures AgreeByte(x[i], mf.value[i], 0xff) <==> x[i] == mf.value[i] {
      AllOnesByte(x[i], mf.value[i]);
    }
    if !mf.typ.Ternary? {
      assert MacMask(mf) == seq(6, _ => 0xff);
    }
  }

  /** The P4 meaning of a stored field is the test. */
  lemma FieldMeaning(mf: MatchField, info: FieldInfo, x: seq<bv8>)
    requires Stored(mf, info) && |x| == |mf.value| && InField(x, info.bitWidth)
    ensures P4Matches(mf, info.bitWidth, x) <==> Tests(mf, x)
  {
    hide InField, PrefixMatches, TargetOf;
    if mf.typ.Lpm? {
      FullPrefixIsExact(x, mf.value, info.bitWidth, mf.len);
    }
  }

  /** Nothing but the string itself is read when it has the right size. */
  lemma LoadAll(s: seq<bv8>)
    requires SizeOk(|s|)
    ensures Load(s, |s|) == BigEndian(s, |s|)
  {
    hide Word2, Word4;
  }

  lemma AddsWord(obj: AfiMatch, mf: MatchField, info: FieldInfo)
    requires Sized(mf, info) && TargetOf(info).value.WordTarget?
    ensures Readable(mf, info) && SizeOk(|mf.value|)
    ensures Add(obj, mf, info) == Put(obj, TargetOf(info).value.slot, Value(mf), Mask(mf))
  {
    hide BigEndian, Load, SlotOf, Put, MacSlotOf;
    LoadAll(mf.value);
    if mf.typ.Ternary? {
      LoadAll(mf.mask);
    }
  }

  lemma AddsMac(obj: AfiMatch, mf: MatchField, info: FieldInfo)
    requires Sized(mf, info) && TargetOf(info).value.MacTarget?
    ensures Readable(mf, info)
    ensures Add(obj, mf, info) == obj.(macs := obj.macs[TargetOf(info).value.mac := (mf.value, MacMask(mf))])
  {
    hide Load, SlotOf, Put, MacSlotOf;
  }

  lemma OneMoreWord<K(!new)>(values: map<K, bv32>, masks: map<K, bv32>, k: K, v: bv32, m: bv32, words: K -> bv32)
    requires k !in masks
    ensures WordsMatch(values[k := v], masks[k := m], words) <==> WordsMatch(values, masks, words) && Agree(words(k), v, m)
  {
    hide Agree;
    var values', masks' := values[k := v], masks[k := m];
    if WordsMatch(values', masks', words) {
      assert k in masks';
      forall j | j in masks ensures Agree(words(j), ValueAt(values, j), masks[j]) {
        assert j in masks';
      }
    }
  }

  /** A word added in a slot of its own adds exactly its own test. */
  lemma PutMeaning(obj: AfiMatch, slot: Slot, v: bv32, m: bv32, pkt: Packet)
    requires slot !in obj.masks && !slot.L4SourcePort?
    ensures AfiMatches(Put(obj, slot, v, m), pkt) <==> AfiMatches(obj, pkt) && Agree(pkt.words(slot), v, m)
  {
    hide Agree, AgreeBytes, WordsMatch;
    OneMoreWord(obj.values, obj.masks, slot, v, m, pkt.words);
  }

  lemma MacMeaning(obj: AfiMatch, slot: MacSlot, v: seq<bv8>, m: seq<bv8>, pkt: Packet)
    requires slot !in obj.macs
    ensures AfiMatches(obj.(macs := obj.macs[slot := (v, m)]), pkt) <==>
            AfiMatches(obj, pkt) && AgreeBytes(pkt.macs(slot), v, m)
  {
    hide Agree, AgreeBytes;
    var macs := obj.macs[slot := (v, m)];
    assert macs.Keys == obj.macs.Keys + {slot};
    assert forall n :: n in obj.macs ==> macs[n] == obj.macs[n];
    assert slot in macs && macs[slot] == (v, m);
  }

  /** The object has fields in these targets only. */
  ghost predicate Uses(obj: AfiMatch, used: set<Target>) {
    && (forall slot :: slot in obj.masks ==> WordTarget(slot) in used)
    && (forall slot :: slot in obj.macs ==> MacTarget(slot) in used)
  }

  /** The packet's field: as a string for P4, as a 32-bit value or a string for the AFI object. */
  ghost predicate SameField(info: FieldInfo, x: seq<bv8>, pkt: Packet) {
    InField(x, info.bitWidth) &&
    match TargetOf(info)
    case Some(WordTarget(slot)) => SizeOk(|x|) && pkt.words(slot) == BigEndian(x, |x|)
    case Some(MacTarget(slot)) => pkt.macs(slot) == x
    case None => true
  }

  /** Storing a field in an unused target adds exactly the field's test, whatever its type. */
  lemma AddTests(obj: AfiMatch, mf: MatchField, info: FieldInfo, used: set<Target>, x: seq<bv8>, pkt: Packet)
    requires Sized(mf, info) && TargetOf(info).value != WordTarget(L4SourcePort)
    requires Uses(obj, used) && TargetOf(info).value !in used
    requires |x| == |mf.value| && SameField(info, x, pkt)
    ensures Readable(mf, info) && Uses(Add(obj, mf, info), used + {TargetOf(info).value})
    ensures AfiMatches(Add(obj, mf, info), pkt) <==> AfiMatches(obj, pkt) && Tests(mf, x)
  {
    hide Tests, InField, AfiMatches, Agree, AgreeBytes, BigEndian, Load, Add, Readable;
    match TargetOf(info).value
    case WordTarget(slot) =>
      AddsWord(obj, mf, info);
      WordTest(mf, x);
      PutMeaning(obj, slot, Value(mf), Mask(mf), pkt);
    case MacTarget(slot) =>
      AddsMac(obj, mf, info);
      MacTest(mf, x);
      MacMeaning(obj, slot, mf.value, MacMask(mf), pkt);
  }

  /** For a field that is stored as it is meant, that is the field's P4 condition. */
  lemma AddMeaning(obj: AfiMatch, mf: MatchField, info: FieldInfo, used: set<Target>, x: seq<bv8>, pkt: Packet)
    requires Stored(mf, info) && Uses(obj, used) && TargetOf(info).value !in used
    requires |x| == |mf.value| && SameField(info, x, pkt)
    ensures Readable(mf, info) && Uses(Add(obj, mf, info), used + {TargetOf(info).value})
    ensures AfiMatches(Add(obj, mf, info), pkt) <==> AfiMatches(obj, pkt) && P4Matches(mf, info.bitWidth, x)
  {
    FieldMeaning(mf, info, x);
    AddTests(obj, mf, info, used, x, pkt);
    hide *;
  }

  // ----- Whole entries -----

  /** The translation fails exactly when some field id is unknown. */
  lemma {:induction false} TranslateFailsIff(fields: seq<FieldInfo>, mfs: seq<MatchField>, obj: AfiMatch)
    requires AllReadable(fields, mfs)
    ensures Translate(fields, mfs, obj).None? <==> exists i :: 0 <= i < |mfs| && Lookup(fields, mfs[i].id).None?
    decreases |mfs|
  {
    hide Lookup, Add, Readable;
    if mfs == [] {
    } else if Lookup(fields, mfs[0].id).Some? {
      var rest := mfs[1..];
      assert forall i :: 0 <= i < |rest| ==> rest[i] == mfs[i + 1];
      TranslateFailsIff(fields, rest, Add(obj, mfs[0], Lookup(fields, mfs[0].id).value));
      if i :| 0 <= i < |mfs| && Lookup(fields, mfs[i].id).None? {
        assert rest[i - 1] == mfs[i];
      }
    }
  }

  /** All fields are stored, each in its own target, none of which is used yet. */
  predicate EntryStored(fields: seq<FieldInfo>, mfs: seq<MatchField>, used: set<Target>) {
    mfs == [] ||
    (var info := Lookup(fields, mfs[0].id);
     info.Some? && Stored(mfs[0], info.value) && TargetOf(info.value).value !in used &&
     EntryStored(fields, mfs[1..], used + {TargetOf(info.value).value}))
  }

  /** The packet's fields, in the order of the entry's match fields. */
  ghost predicate SamePacket(fields: seq<FieldInfo>, mfs: seq<MatchField>, xs: seq<seq<bv8>>, pkt: Packet) {
    (mfs == [] && xs == []) ||
    (mfs != [] && xs != [] && |xs[0]| == |mfs[0].value| && Lookup(fields, mfs[0].id).Some? &&
     SameField(Lookup(fields, mfs[0].id).value, xs[0], pkt) && SamePacket(fields, mfs[1..], xs[1..], pkt))
  }

  predicate FieldMatches(mf: MatchField, width: nat, x: seq<bv8>) {
    |x| == |mf.value| && (mf.typ.Ternary? ==> |mf.mask| == |x|) && P4Matches(mf, width, x)
  }

  /** Every field of the entry matches. */
  predicate EntryMatches(fields: seq<FieldInfo>, mfs: seq<MatchField>, xs: seq<seq<bv8>>) {
    mfs == [] || (xs != [] && Lookup(fields, mfs[0].id).Some? &&
                  FieldMatches(mfs[0], Lookup(fields, mfs[0].id).value.bitWidth, xs[0]) &&
                  EntryMatches(fields, mfs[1..], xs[1..]))
  }

  lemma ReadableFirst(fields: seq<FieldInfo>, mfs: seq<MatchField>)
    requires mfs != [] && AllReadable(fields, mfs[1..])
    requires Lookup(fields, mfs[0].id).Some? ==> Readable(mfs[0], Lookup(fields, mfs[0].id).value)
    ensures AllReadable(fields, mfs)
  {
    hide Lookup, Readable;
    assert forall i :: 0 < i < |mfs| ==> mfs[i] == mfs[1..][i - 1];
  }

  /** The translated object matches the packet exactly when every P4 field does. */
  lemma {:induction false} TranslationPreservesMatching(fields: seq<FieldInfo>, mfs: seq<MatchField>, obj: AfiMatch,
                                                        used: set<Target>, xs: seq<seq<bv8>>, pkt: Packet)
    requires EntryStored(fields, mfs, used) && Uses(obj, used) && SamePacket(fields, mfs, xs, pkt)
    ensures AllReadable(fields, mfs) && Translate(fields, mfs, obj).Some?
    ensures AfiMatches(Translate(fields, mfs, obj).value, pkt) <==>
            AfiMatches(obj, pkt) && EntryMatches(fields, mfs, xs)
    decreases |mfs|
  {
    if mfs == [] {
    } else {
      var info := Lookup(fields, mfs[0].id).value;
      assert FieldMatches(mfs[0], info.bitWidth, xs[0]) <==> P4Matches(mfs[0], info.bitWidth, xs[0]);
      hide Lookup, Add, AfiMatches, P4Matches, FieldMatches, Stored, AllReadable, Readable, Uses, SameField, TargetOf;
      AddMeaning(obj, mfs[0], info, used, xs[0], pkt);
      var obj' := Add(obj, mfs[0], info);
      TranslationPreservesMatching(fields, mfs[1..], obj', used + {TargetOf(info).value}, xs[1..], pkt);
      ReadableFirst(fields, mfs);
    }
  }

  /** The same for a whole entry. */
  lemma EntryOnStrings(fields: seq<FieldInfo>, mfs: seq<MatchField>, xs: seq<seq<bv8>>, pkt: Packet)
    requires EntryStored(fields, mfs, {}) && SamePacket(fields, mfs, xs, pkt)
    ensures AllReadable(fields, mfs) && Translate(fields, mfs, EMPTY).Some?
    ensures AfiMatches(Translate(fields, mfs, EMPTY).value, pkt) <==> EntryMatches(fields, mfs, xs)
  {
    assert AfiMatches(EMPTY, pkt);
    TranslationPreservesMatching(fields, mfs, EMPTY, {}, xs, pkt);
  }

  // ----- Where the translation does not preserve matching -----

  lemma AgreeSymmetric(x: bv32, y: bv32, z: bv32, m: bv32)
    ensures Agree(x, x, m)
    ensures Agree(x, y, m) && Agree(y, z, m) ==> Agree(x, z, m)
    ensures Agree(x, y, m) <==> Agree(y, x, m)
  {
  }

  function Pack(g: nat -> bool, at: nat): bv8 {
    (if g(at) then 0x80 else 0) | (if g(at + 1) then 0x40 else 0) |
    (if g(at + 2) then 0x20 else 0) | (if g(at + 3) then 0x10 else 0) |
    (if g(at + 4) then 0x08 else 0) | (if g(at + 5) then 0x04 else 0) |
    (if g(at + 6) then 0x02 else 0) | (if g(at + 7) then 0x01 else 0)
  }

  lemma PackedBit(g: nat -> bool, at: nat, k: nat)
    requires k < 8
    ensures BitOf(Pack(g, at), k) == g(at + k)
  {
  }

  /** The string of `n` bytes with the given bits. */
  function FromBits(n: nat, g: nat -> bool): (s: seq<bv8>)
    ensures |s| == n
  {
    seq(n, i requires 0 <= i < n => Pack(g, 8 * i))
  }

  lemma FromBitsAt(n: nat, g: nat -> bool, i: nat)
    requires i < 8 * n
    ensures Bit(FromBits(n, g), i) == g(i)
  {
    hide BitOf, Pack;
    PackedBit(g, 8 * (i / 8), i % 8);
  }

  /** The bits of the prefix kept, the last bit of the string turned, nothing before the field. */
  function Neighbour(v: seq<bv8>, width: nat, turn: bool): (x: seq<bv8>)
    ensures |x| == |v|
  {
    FromBits(|v|, i requires true => i < 8 * |v| && i >= Lead(v, width) && (Bit(v, i) != (turn && i == 8 * |v| - 1)))
  }

  lemma NeighbourAt(v: seq<bv8>, width: nat, turn: bool, i: nat)
    requires i < 8 * |v|
    ensures Bit(Neighbour(v, width, turn), i) ==
            (i >= Lead(v, width) && (Bit(v, i) != (turn && i == 8 * |v| - 1)))
  {
    hide Bit;
    FromBitsAt(|v|, i requires true => i < 8 * |v| && i >= Lead(v, width) && (Bit(v, i) != (turn && i == 8 * |v| - 1)), i);
  }

  /** A neighbour lies in the field and has the same proper prefixes. */
  lemma NeighbourMatches(v: seq<bv8>, width: nat, turn: bool, len: nat)
    requires 0 < width <= 8 * |v| && (turn ==> len < width)
    ensures var x := Neighbour(v, width, turn); InField(x, width) && PrefixMatches(x, v, width, len)
  {
    hide Bit, Neighbour;
    forall i: nat | i < 8 * |v|
      ensures Bit(Neighbour(v, width, turn), i) ==
              (i >= Lead(v, width) && (Bit(v, i) != (turn && i == 8 * |v| - 1)))
    {
      NeighbourAt(v, width, turn, i);
    }
  }

  /**
    A prefix is stored as an exact value. That is right for every packet exactly when the prefix is the
    whole field and the value fits the field.
   */
  lemma LpmRightIff(mf: MatchField, info: FieldInfo)
    requires mf.typ.Lpm? && Sized(mf, info)
    ensures (forall x: seq<bv8> :: |x| == |mf.value| && InField(x, info.bitWidth) ==>
               (P4Matches(mf, info.bitWidth, x) <==> Tests(mf, x)))
            <==> mf.len >= info.bitWidth && InField(mf.value, info.bitWidth)
  {
    hide InField, PrefixMatches, Neighbour, Bit, TargetOf;
    var v, w := mf.value, info.bitWidth;
    if mf.len >= w && InField(v, w) {
      forall x: seq<bv8> | |x| == |v| && InField(x, w)
        ensures P4Matches(mf, w, x) <==> Tests(mf, x)
      {
        FullPrefixIsExact(x, v, w, mf.len);
      }
    } else {
      WidthPositive(info);
      var turn := mf.len < w;
      var x := Neighbour(v, w, turn);
      NeighbourMatches(v, w, turn, mf.len);
      assert x != v by {
        if turn {
          NeighbourAt(v, w, true, 8 * |v| - 1);
        }
      }
      assert P4Matches(mf, w, x) && !Tests(mf, x);
    }
  }

  lemma WidthPositive(info: FieldInfo)
    requires TargetOf(info).Some?
    ensures info.bitWidth > 0
  {
  }

  /** So 10.0.0.0/8 does not cover 10.1.2.3. */
  lemma PrefixIsLost()
    ensures var mf, info := MatchField(1, Lpm, [10, 0, 0, 0], 8, []), FieldInfo(1, "hdr.ipv4_base.dst_addr", 32);
            P4Matches(mf, 32, [10, 1, 2, 3]) && Readable(mf, info) &&
            forall pkt: Packet :: pkt.words(DestinationIpv4) == BigEndian([10, 1, 2, 3], 4) ==>
              !AfiMatches(Add(EMPTY, mf, info), pkt)
  {
    var mf, info := MatchField(1, Lpm, [10, 0, 0, 0], 8, []), FieldInfo(1, "hdr.ipv4_base.dst_addr", 32);
    DestinationSlot();
    hide SlotOf;
    AddsWord(EMPTY, mf, info);
    hide Add;
    var obj := Put(EMPTY, DestinationIpv4, Value(mf), Mask(mf));
    assert DestinationIpv4 in obj.masks && ValueAt(obj.values, DestinationIpv4) == 0x0a00_0000;
  }

  lemma DestinationSlot()
    ensures SlotOf("hdr.ipv4_base.dst_addr") == Some(DestinationIpv4)
  {
  }

  /** An L4 source port field tests the packet against 0 instead of against its value. */
  lemma SourcePortTestsZero(mf: MatchField, info: FieldInfo, pkt: Packet)
    requires Sized(mf, info) && TargetOf(info) == Some(WordTarget(L4SourcePort))
    ensures Readable(mf, info) && SizeOk(|mf.value|)
    ensures AfiMatches(Add(EMPTY, mf, info), pkt) <==> Agree(pkt.words(L4SourcePort), 0, Mask(mf))
  {
    hide BigEndian, Agree, SlotOf, Load, MacSlotOf, Add, Readable;
    AddsWord(EMPTY, mf, info);
    var obj := Put(EMPTY, L4SourcePort, Value(mf), Mask(mf));
    assert obj.masks == map[L4SourcePort := Mask(mf)] && obj.values == map[];
    assert L4SourcePort in obj.masks;
  }

  function Zeros(n: nat): (z: seq<bv8>)
    ensures |z| == n
  {
    seq(n, _ => 0)
  }

  lemma ZeroFacts(n: nat, width: nat)
    requires SizeOk(n)
    ensures InField(Zeros(n), width) && BigEndian(Zeros(n), n) == 0
  {
    forall i: nat | i < 8 * n ensures !Bit(Zeros(n), i) { }
  }

  /** That is right for every packet exactly when the request accepts port 0 and is no proper prefix. */
  lemma SourcePortRightIff(mf: MatchField, info: FieldInfo)
    requires Sized(mf, info) && TargetOf(info) == Some(WordTarget(L4SourcePort))
    ensures SizeOk(|mf.value|)
    ensures (forall x: seq<bv8> :: |x| == |mf.value| && InField(x, info.bitWidth) ==>
               (P4Matches(mf, info.bitWidth, x) <==> Agree(BigEndian(x, |x|), 0, Mask(mf))))
            <==> P4Matches(mf, info.bitWidth, Zeros(|mf.value|)) && (mf.typ.Lpm? ==> mf.len >= info.bitWidth)
  {
    var n, w, z := |mf.value|, info.bitWidth, Zeros(|mf.value|);
    ZeroFacts(n, w);
    AgreeSymmetric(0, 0, 0, Mask(mf));
    if mf.typ.Lpm? {
      ZeroPrefixIff(mf, w);
    } else {
      hide BigEndian, Agree, InField, PrefixMatches, Zeros;
      WordTest(mf, z);
      if P4Matches(mf, w, z) {
        forall x: seq<bv8> | |x| == n && InField(x, w)
          ensures P4Matches(mf, w, x) <==> Agree(BigEndian(x, |x|), 0, Mask(mf))
        {
          WordTest(mf, x);
          AgreeSymmetric(BigEndian(x, |x|), 0, Value(mf), Mask(mf));
          AgreeSymmetric(BigEndian(x, |x|), Value(mf), 0, Mask(mf));
          AgreeSymmetric(0, Value(mf), 0, Mask(mf));
        }
      }
    }
  }

  /** Among the packets of the field only 0 has the prefix, exactly when the prefix is 0 and the whole field. */
  lemma ZeroPrefixIff(mf: MatchField, width: nat)
    requires mf.typ.Lpm? && SizeOk(|mf.value|) && 0 < width <= 8 * |mf.value|
    ensures (forall x: seq<bv8> :: |x| == |mf.value| && InField(x, width) ==>
               (P4Matches(mf, width, x) <==> Agree(BigEndian(x, |x|), 0, ALL_ONES)))
            <==> P4Matches(mf, width, Zeros(|mf.value|)) && mf.len >= width
  {
    var n, z := |mf.value|, Zeros(|mf.value|);
    ZeroFacts(n, width);
    hide BigEndian, Agree, InField, PrefixMatches, Zeros, Neighbour, Bit;
    Same(0, 0);
    if P4Matches(mf, width, z) && mf.len >= width {
      forall x: seq<bv8> | |x| == n && InField(x, width)
        ensures P4Matches(mf, width, x) <==> Agree(BigEndian(x, |x|), 0, ALL_ONES)
      {
        PrefixSwitch(x, z, mf.value, width, mf.len);
        FullPrefixIsExact(x, z, width, mf.len);
        BigEndianInjective(x, z);
        Same(BigEndian(x, |x|), 0);
      }
    } else if P4Matches(mf, width, z) {
      var x := Neighbour(z, width, true);
      NeighbourMatches(z, width, true, mf.len);
      NeighbourAt(z, width, true, 8 * n - 1);
      PrefixSwitch(x, z, mf.value, width, mf.len);
      BigEndianInjective(x, z);
      Same(BigEndian(x, |x|), 0);
    }
  }

  /** Strings with the same prefix match the same prefixes. */
  lemma PrefixSwitch(x: seq<bv8>, y: seq<bv8>, v: seq<bv8>, width: nat, len: nat)
    requires |x| == |y| == |v| && PrefixMatches(y, v, width, len)
    ensures PrefixMatches(x, v, width, len) <==> PrefixMatches(x, y, width, len)
  {
    hide Bit;
  }

  // ----- The controller's encoding -----

  /** `uint2Str` of an 8-, 16- or 32-bit integer: its bytes in network order. */
  function Encoded(v: bv32, n: nat): seq<bv8>
    requires SizeOk(n)
  {
    if n == 1 then [Byte(v)] else if n == 2 then [Byte(v >> 8), Byte(v)]
    else [Byte(v >> 24), Byte(v >> 16), Byte(v >> 8), Byte(v)]
  }

  function Byte(v: bv32): bv8 {
    (v & 0xff) as bv8
  }

  /** The values of an integer type of `n` bytes. */
  predicate FitsIn(v: bv32, n: nat) {
    (n == 1 ==> v <= 0xff) && (n == 2 ==> v <= 0xffff)
  }

  /** A field is read as the smallest of one, two or four bytes that holds it. */
  lemma SizeIsSmallest(bitWidth: nat)
    requires 0 < bitWidth <= 32
    ensures SizeOk(Size(bitWidth)) && bitWidth <= 8 * Size(bitWidth)
    ensures Size(bitWidth) > 1 ==> bitWidth > 4 * Size(bitWidth)
  {
  }

  predicate ByteLess(a: bv8, b: bv8) {
    a < b
  }

  predicate WordLess(x: bv32, y: bv32) {
    x < y
  }

  lemma Order1(a: bv8, b: bv8)
    ensures ByteLess(a, b) ==> WordLess(a as bv32, b as bv32)
  {
  }

  lemma Order2First(a: bv8, b: bv8, c: bv8, d: bv8)
    requires ByteLess(a, c)
    ensures WordLess(Word2(a, b), Word2(c, d))
  {
  }

  lemma Order2Second(a: bv8, b: bv8, d: bv8)
    requires ByteLess(b, d)
    ensures WordLess(Word2(a, b), Word2(a, d))
  {
  }

  lemma Order4First(a: bv8, b: bv8, c: bv8, d: bv8, e: bv8, f: bv8, g: bv8, h: bv8)
    requires ByteLess(a, e)
    ensures WordLess(Word4(a, b, c, d), Word4(e, f, g, h))
  {
  }

  lemma Order4Second(a: bv8, b: bv8, c: bv8, d: bv8, f: bv8, g: bv8, h: bv8)
    requires ByteLess(b, f)
    ensures WordLess(Word4(a, b, c, d), Word4(a, f, g, h))
  {
  }

  lemma Order4Third(a: bv8, b: bv8, c: bv8, d: bv8, g: bv8, h: bv8)
    requires ByteLess(c, g)
    ensures WordLess(Word4(a, b, c, d), Word4(a, b, g, h))
  {
  }

  lemma Order4Fourth(a: bv8, b: bv8, c: bv8, d: bv8, h: bv8)
    requires ByteLess(d, h)
    ensures WordLess(Word4(a, b, c, d), Word4(a, b, c, h))
  {
  }

  /** `s` comes before `t` in the order of dictionaries: they differ at `k` first. */
  predicate Less(s: seq<bv8>, t: seq<bv8>, k: nat) {
    k < |s| == |t| && ByteLess(s[k], t[k]) && (k > 0 ==> s[0] == t[0]) && (k > 1 ==> s[1] == t[1]) && (k > 2 ==> s[2] == t[2])
  }

  /** Network order: the first byte in which two strings differ decides which number is smaller. */
  lemma FirstByteDecides(s: seq<bv8>, t: seq<bv8>, k: nat)
    requires SizeOk(|s|) && Less(s, t, k)
    ensures WordLess(BigEndian(s, |s|), BigEndian(t, |t|))
  {
    hide Word2, Word4, ByteLess, WordLess;
    if |s| == 1 {
      Order1(s[0], t[0]);
    } else if |s| == 2 {
      if k == 0 {
        Order2First(s[0], s[1], t[0], t[1]);
      } else {
        Order2Second(s[0], s[1], t[1]);
      }
    } else if k == 0 {
      Order4First(s[0], s[1], s[2], s[3], t[0], t[1], t[2], t[3]);
    } else if k == 1 {
      Order4Second(s[0], s[1], s[2], s[3], t[1], t[2], t[3]);
    } else if k == 2 {
      Order4Third(s[0], s[1], s[2], s[3], t[2], t[3]);
    } else {
      Order4Fourth(s[0], s[1], s[2], s[3], t[3]);
    }
  }

  /** What the controller encodes is what the agent reads. */
  lemma EncodedReads(v: bv32, n: nat)
    requires SizeOk(n) && FitsIn(v, n)
    ensures |Encoded(v, n)| == n && BigEndian(Encoded(v, n), n) == v
  {
    EncodedBytes(v);
    hide Byte, Word2, Word4;
  }

  lemma EncodedBytes(v: bv32)
    ensures v <= 0xff ==> Byte(v) as bv32 == v
    ensures v <= 0xffff ==> Word2(Byte(v >> 8), Byte(v)) == v
    ensures Word4(Byte(v >> 24), Byte(v >> 16), Byte(v >> 8), Byte(v)) == v
  {
  }

  /** A ternary entry encoded by the controller matches the numbers that agree with it under its mask. */
  lemma EncodedMeaning(id: nat, v: bv32, m: bv32, x: bv32, n: nat)
    requires SizeOk(n) && FitsIn(v, n) && FitsIn(m, n) && FitsIn(x, n)
    ensures FieldMatches(MatchField(id, Ternary, Encoded(v, n), 0, Encoded(m, n)), 8 * n, Encoded(x, n)) <==>
            Agree(x, v, m)
  {
    hide BigEndian, Encoded, Agree, AgreeBytes;
    EncodedReads(v, n);
    EncodedReads(m, n);
    EncodedReads(x, n);
    WordTest(MatchField(id, Ternary, Encoded(v, n), 0, Encoded(m, n)), Encoded(x, n));
  }
}
