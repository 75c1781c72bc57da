/**
  Installing a CAP table entry: the match, action and entry objects are serialized, base64-encoded,
  wrapped in JSON, decoded into objects, put in the name-keyed object map and bound by name.
 */
module CapInstall {
  import opened Prelude
  import B = Base64
  import T = MatchTranslation
  import V = HeaderViews

  // ----- Messages and their wire format -----

  datatype Action = Action(vrf: Option<bv32>, classId: Option<bv8>, cpuQueue: Option<bv8>, copyToCpu: bool)

  /** One message class for each object type. */
  datatype Message =
    | TreeMessage(keyField: string)
    | TreeEntryMessage(tree: string, prefix: seq<byte>, length: nat)
    | CapMessage(groupId: nat, groupPriority: nat, matchKeys: string, actionKeys: string)
    | CapMatchMessage(keys: set<string>)
    | CapActionMessage(keys: set<string>)
    | MatchMessage(fields: T.AfiMatch)
    | ActionMessage(action: Action)
    | EntryMessage(parent: string, matchObject: string, actionObject: string)

  function TypeOf(m: Message): string {
    match m
    case TreeMessage(_) => "afi-tree"
    case TreeEntryMessage(_, _, _) => "afi-tree-entry"
    case CapMessage(_, _, _, _) => "afi-cap"
    case CapMatchMessage(_) => "afi-cap-match"
    case CapActionMessage(_) => "afi-cap-action"
    case MatchMessage(_) => "afi-cap-entry-match"
    case ActionMessage(_) => "afi-cap-entry-action"
    case EntryMessage(_, _, _) => "afi-cap-entry"
  }

  /**
    Protobuf serialization and parsing. The bytes do not tell the type: each object's constructor parses
    them as its own message class, so messages of different types may share an encoding.
   */
  datatype Wire = Wire(serialize: Message -> seq<byte>, parse: (string, seq<byte>) -> Option<Message>)

  ghost predicate Inverse(w: Wire) {
    forall m: Message :: w.parse(TypeOf(m), w.serialize(m)) == Some(m)
  }

  datatype Json = Json(typ: string, id: nat, name: string, body: string)

  // ----- P4 info and requests -----

  datatype ParamInfo = ParamInfo(id: nat, name: string)
  datatype Table = Table(name: string, fields: seq<T.FieldInfo>)
  datatype P4Info = P4Info(tables: map<nat, Table>, actions: map<nat, seq<ParamInfo>>)
  datatype Param = Param(id: nat, value: seq<bv8>)
  datatype Request = Request(tableId: nat, actionId: nat, fields: seq<T.MatchField>, params: seq<Param>)

  /** `actionParamName`: empty when there is no such parameter. */
  function ParamName(infos: seq<ParamInfo>, id: nat): string {
    if infos == [] then "" else if infos[0].id == id then infos[0].name else ParamName(infos[1..], id)
  }

  /** Four bytes are read for a VRF, one for the others; the string's terminator may be among them. */
  predicate ParamReadable(name: string, p: Param) {
    name == "vrf_id" ==> |p.value| + 1 >= 4
  }

  function FirstByte(s: seq<bv8>): bv8 {
    if s == [] then 0 else s[0]
  }

  function SetParam(a: Action, name: string, p: Param): Action
    requires ParamReadable(name, p)
  {
    if name == "vrf_id" then a.(vrf := Some(T.Load(p.value, 4)))
    else if name == "class_id_value" then a.(classId := Some(FirstByte(p.value)))
    else if name == "queue_id" then a.(cpuQueue := Some(FirstByte(p.value)), copyToCpu := true)
    else a
  }

  predicate ParamsReadable(infos: seq<ParamInfo>, ps: seq<Param>) {
    forall i :: 0 <= i < |ps| ==> ParamReadable(ParamName(infos, ps[i].id), ps[i])
  }

  function TranslateAction(infos: seq<ParamInfo>, ps: seq<Param>, a: Action): Option<Action>
    requires ParamsReadable(infos, ps)
  {
    if ps == [] then Some(a)
    else if ParamName(infos, ps[0].id) == "" then None
    else TranslateAction(infos, ps[1..], SetParam(a, ParamName(infos, ps[0].id), ps[0]))
  }

  const NO_ACTION := Action(None, None, None, false)

  /** What is read from the strings of a request lies inside them and their terminators. */
  predicate Readable(info: P4Info, r: Request) {
    (r.tableId in info.tables ==> T.AllReadable(info.tables[r.tableId].fields, r.fields)) &&
    (r.actionId in info.actions ==> ParamsReadable(info.actions[r.actionId], r.params))
  }

  // ----- Names -----

  const ENTRY_ID := 1233457
  const ENTRY_SUFFIX := "_entry_1233457"
  const MATCH_SUFFIX := "_entry_match_1233458"
  const ACTION_SUFFIX := "_entry_action_1233459"

  datatype Kind = EntryKind | MatchKind | ActionKind

  function Suffix(k: Kind): string {
    match k case EntryKind => ENTRY_SUFFIX case MatchKind => MATCH_SUFFIX case ActionKind => ACTION_SUFFIX
  }

  function Name(table: string, k: Kind): string {
    table + Suffix(k)
  }

  /** Different tables or different kinds have different object names, whatever the table names are. */
  lemma NamesInjective(t: string, k: Kind, u: string, l: Kind)
    requires Name(t, k) == Name(u, l)
    ensures t == u && k == l
  {
    var n := Name(t, k);
    assert n[|n| - 1] == Suffix(k)[|Suffix(k)| - 1] == Suffix(l)[|Suffix(l)| - 1];
    assert k == l;
    assert t == n[..|n| - |Suffix(k)|] == u;
  }

  lemma NameIsNotTable(t: string, k: Kind)
    ensures Name(t, k) != t
  {
    assert |Name(t, k)| > |t|;
  }

  // ----- The device -----

  /** `handle` tells objects of the same name apart: it counts the objects created so far. */
  datatype Object = Object(handle: nat, typ: string, id: nat, name: string, message: Option<Message>)

  /** An entry pushed to hardware together with the three objects its bind found. */
  datatype Binding = Binding(entry: Object, cap: Object, match_: Object, action: Object)

  datatype Device = Device(objects: map<string, Option<Object>>, created: nat, bindings: seq<Binding>)

  datatype Outcome = Done | Refused | Aborted

  predicate HasCreator(typ: string) {
    typ in ["afi-tree", "afi-tree-entry", "afi-cap", "afi-cap-match", "afi-cap-action", "afi-cap-entry",
            "afi-cap-entry-match", "afi-cap-entry-action"]
  }

  /** `_objectsMap[name]`: a missing name is inserted with a null pointer. */
  function Touch(d: Device, name: string): Device {
    if name in d.objects then d else d.(objects := d.objects[name := None])
  }

  function Find(d: Device, name: string): Option<Object> {
    if name in d.objects then d.objects[name] else None
  }

  /** The lookup as the cast sees it: nothing when the object has another type. */
  function FindTyped(d: Device, name: string, typ: string): Option<Object> {
    var o := Find(d, name);
    if o.Some? && o.value.typ == typ then o else None
  }

  /** The names that an object's bind looks up, in order, with the types it casts them to. */
  function Wanted(o: Object): seq<(string, string)> {
    if o.typ == "afi-cap-entry" then
      var (parent, matchName, actionName) :=
        if o.message.Some? && o.message.value.EntryMessage?
        then (o.message.value.parent, o.message.value.matchObject, o.message.value.actionObject) else ("", "", "");
      [(parent, "afi-cap"), (matchName, "afi-cap-entry-match"), (actionName, "afi-cap-entry-action")]
    else if o.typ == "afi-cap" then
      var (matchName, actionName) :=
        if o.message.Some? && o.message.value.CapMessage?
        then (o.message.value.matchKeys, o.message.value.actionKeys) else ("", "");
      [(matchName, "afi-cap-match"), (actionName, "afi-cap-action")]
    else if o.typ == "afi-tree-entry" then
      [(if o.message.Some? && o.message.value.TreeEntryMessage? then o.message.value.tree else "", "afi-tree")]
    else []
  }

  /** Each lookup is made only if the ones before it succeeded. */
  function Walk(d: Device, wanted: seq<(string, string)>): Device {
    if wanted == [] then d
    else
      var d1 := Touch(d, wanted[0].0);
      if FindTyped(d, wanted[0].0, wanted[0].1).None? then d1 else Walk(d1, wanted[1..])
  }

  predicate AllFound(d: Device, wanted: seq<(string, string)>) {
    forall i :: 0 <= i < |wanted| ==> FindTyped(d, wanted[i].0, wanted[i].1).Some?
  }

  /** `bind`: the lookups; an entry that finds all its objects is pushed to hardware with them. */
  function BindObject(d: Device, o: Object): Device {
    var w, d1 := Wanted(o), Walk(d, Wanted(o));
    if o.typ == "afi-cap-entry" && AllFound(d, w)
    then d1.(bindings := d1.bindings + [Binding(o, d.objects[w[0].0].value, d.objects[w[1].0].value, d.objects[w[2].0].value)])
    else d1
  }

  const DECODE_BUFFER := 5000

  function Created(w: Wire, d: Device, j: Json): Object {
    Object(d.created, j.typ, j.id, j.name, w.parse(j.typ, B.Decode(j.body)))
  }

  function Inserted(d: Device, o: Object): Device {
    d.(objects := d.objects[o.name := Some(o)], created := d.created + 1)
  }

  /** `handleAfiJsonObject`: decode, create, insert, and bind unless a pipeline is being set up. */
  function Handle(w: Wire, d: Device, j: Json, pipelineStage: bool): (Device, Outcome) {
    if !HasCreator(j.typ) then (d, Refused)
    else
      if !B.Fits(|B.Decode(j.body)|, DECODE_BUFFER) then (d, Aborted)
      else
        var o := Created(w, d, j);
        (if pipelineStage then Inserted(d, o) else BindObject(Inserted(d, o), o), Done)
  }

  function HandleAll(w: Wire, d: Device, js: seq<Json>, pipelineStage: bool): (Device, Outcome)
    decreases |js|
  {
    if js == [] then (d, Done)
    else
      var (d1, out) := Handle(w, d, js[0], pipelineStage);
      if out != Done then (d1, out) else HandleAll(w, d1, js[1..], pipelineStage)
  }

  function ChildJson(w: Wire, table: string, m: T.AfiMatch, a: Action): seq<Json> {
    [Json("afi-cap-entry-match", ENTRY_ID + 1, Name(table, MatchKind), B.Encode(w.serialize(MatchMessage(m)))),
     Json("afi-cap-entry-action", ENTRY_ID + 2, Name(table, ActionKind), B.Encode(w.serialize(ActionMessage(a)))),
     Json("afi-cap-entry", ENTRY_ID, Name(table, EntryKind),
          B.Encode(w.serialize(EntryMessage(table, Name(table, MatchKind), Name(table, ActionKind)))))]
  }

  /** `createChildJsonRes`: nothing when a field or parameter id is unknown. */
  function CreateChild(w: Wire, table: Table, params: seq<ParamInfo>, r: Request): Option<seq<Json>>
    requires T.AllReadable(table.fields, r.fields) && ParamsReadable(params, r.params)
  {
    var m := T.Translate(table.fields, r.fields, T.EMPTY);
    if m.None? then None
    else
      var a := TranslateAction(params, r.params, NO_ACTION);
      if a.None? then None else Some(ChildJson(w, table.name, m.value, a.value))
  }

  /** `afiAddObjEntry`. Of the types that have a creator only afi-cap creates children. */
  function AddEntry(w: Wire, info: P4Info, d: Device, r: Request): (Device, Outcome)
    requires Readable(info, r)
  {
    if r.tableId !in info.tables || r.actionId !in info.actions then (d, Refused)
    else
      var table := info.tables[r.tableId];
      var d1 := Touch(d, table.name);
      if FindTyped(d, table.name, "afi-cap").None? then (d1, Refused)
      else match CreateChild(w, table, info.actions[r.actionId], r)
        case None => (d1, Refused)
        case Some(js) => HandleAll(w, d1, js, false)
  }

  /** The three lookups written out. */
  lemma WalkThree(d: Device, w: seq<(string, string)>)
    requires |w| == 3
    ensures var d1 := Touch(d, w[0].0);
            var d2 := Touch(d1, w[1].0);
            Walk(d, w) == if FindTyped(d, w[0].0, w[0].1).None? then d1
                          else if FindTyped(d1, w[1].0, w[1].1).None? then d2
                          else Touch(d2, w[2].0)
  {
    var d1 := Touch(d, w[0].0);
    var d2 := Touch(d1, w[1].0);
    hide Touch, FindTyped;
    assert w[1..][1..] == [w[2]] && w[1..][0] == w[1] && [w[2]][1..] == [];
    assert Walk(Touch(d2, w[2].0), []) == Touch(d2, w[2].0);
    assert Walk(d2, [w[2]]) == Touch(d2, w[2].0);
  }

  // ----- The imperative form -----

  class AfiDevice {
    var objects: map<string, Option<Object>>
    var created: nat
    var bindings: seq<Binding>

    function Model(): Device
      reads this
    {
      Device(objects, created, bindings)
    }

    constructor ()
      ensures Model() == Device(map[], 0, [])
    {
      objects, created, bindings := map[], 0, [];
    }

    method InsertToObjectMap(o: Object)
      modifies this`objects
      ensures objects == old(objects)[o.name := Some(o)]
    {
      objects := objects[o.name := Some(o)];
    }

    method GetAfiObject(name: string) returns (o: Option<Object>)
      modifies this`objects
      ensures Model() == Touch(old(Model()), name) && o == Find(old(Model()), name)
    {
      if name !in objects {
        objects := objects[name := None];
      }
      o := objects[name];
    }

    /** The three lookups of `BrcmCapEntry::_bind`. */
    method BindCapEntry(o: Object)
      requires o.typ == "afi-cap-entry"
      modifies this
      ensures Model() == BindObject(old(Model()), o)
    {
      ghost var d, w := Model(), Wanted(o);
      WalkThree(d, w);
      hide Walk, Wanted;
      var cap := GetAfiObject(Wanted(o)[0].0);
      if cap.None? || cap.value.typ != "afi-cap" {
        return;
      }
      var m := GetAfiObject(Wanted(o)[1].0);
      if m.None? || m.value.typ != "afi-cap-entry-match" {
        return;
      }
      var a := GetAfiObject(Wanted(o)[2].0);
      if a.None? || a.value.typ != "afi-cap-entry-action" {
        return;
      }
      bindings := bindings + [Binding(o, cap.value, m.value, a.value)];
    }

    /** The lookups of the other types. */
    method BindPlain(o: Object)
      requires o.typ != "afi-cap-entry"
      modifies this
      ensures Model() == BindObject(old(Model()), o)
    {
      var wanted := Wanted(o);
      var i := 0;
      while i < |wanted|
        invariant 0 <= i <= |wanted| && Walk(Model(), wanted[i..]) == Walk(old(Model()), wanted)
      {
        assert wanted[i..][1..] == wanted[i + 1..];
        var found := GetAfiObject(wanted[i].0);
        if found.None? || found.value.typ != wanted[i].1 {
          return;
        }
        i := i + 1;
      }
    }

    /** `handleDMObject` with the object's constructor, which decodes into a fixed buffer. */
    method HandleDMObject(w: Wire, j: Json, pipelineStage: bool) returns (out: Outcome)
      modifies this
      ensures (Model(), out) == Handle(w, old(Model()), j, pipelineStage)
    {
      hide B.Decode, BindObject, HasCreator;
      if !HasCreator(j.typ) {
        return Refused;
      }
      var buffer := new byte[DECODE_BUFFER];
      var n := B.Base64Decode(j.body, buffer);
      if n.None? {
        return Aborted;
      }
      var o := Object(created, j.typ, j.id, j.name, w.parse(j.typ, buffer[..n.value]));
      created := created + 1;
      InsertToObjectMap(o);
      if !pipelineStage {
        Bind(o);
      }
      return Done;
    }

    method Bind(o: Object)
      modifies this
      ensures Model() == BindObject(old(Model()), o)
    {
      if o.typ == "afi-cap-entry" {
        BindCapEntry(o);
      } else {
        BindPlain(o);
      }
    }

    method AddObjEntry(w: Wire, info: P4Info, r: Request) returns (out: Outcome)
      requires Readable(info, r)
      modifies this
      ensures (Model(), out) == AddEntry(w, info, old(Model()), r)
    {
      hide Handle, T.Translate, TranslateAction, ChildJson;
      if r.tableId !in info.tables || r.actionId !in info.actions {
        return Refused;
      }
      var table := info.tables[r.tableId];
      var parent := GetAfiObject(table.name);
      if parent.None? || parent.value.typ != "afi-cap" {
        return Refused;
      }
      var children := CreateChildJsonRes(w, table, info.actions[r.actionId], r);
      if children.None? {
        return Refused;
      }
      ghost var goal := HandleAll(w, Model(), children.value, false);
      for i := 0 to |children.value|
        invariant HandleAll(w, Model(), children.value[i..], false) == goal
      {
        assert children.value[i..][1..] == children.value[i + 1..];
        out := HandleDMObject(w, children.value[i], false);
        if out != Done {
          return;
        }
      }
      out := Done;
    }
  }

  method CreateChildJsonRes(w: Wire, table: Table, params: seq<ParamInfo>, r: Request)
    returns (result: Option<seq<Json>>)
    requires T.AllReadable(table.fields, r.fields) && ParamsReadable(params, r.params)
    ensures result == CreateChild(w, table, params, r)
  {
    hide T.Translate, B.Encode;
    var m := T.TranslateMatch(table.fields, r.fields);
    if m.None? {
      return None;
    }
    var mEncoded := B.Base64Encode(w.serialize(MatchMessage(m.value)));
    var mObj := Json("afi-cap-entry-match", ENTRY_ID + 1, table.name + MATCH_SUFFIX, mEncoded);
    var action := NO_ACTION;
    for i := 0 to |r.params|
      invariant TranslateAction(params, r.params, NO_ACTION) == TranslateAction(params, r.params[i..], action)
    {
      assert r.params[i..][1..] == r.params[i + 1..];
      var name := ParamName(params, r.params[i].id);
      if name == "" {
        return None;
      }
      action := SetParam(action, name, r.params[i]);
    }
    var aEncoded := B.Base64Encode(w.serialize(ActionMessage(action)));
    var aObj := Json("afi-cap-entry-action", ENTRY_ID + 2, table.name + ACTION_SUFFIX, aEncoded);
    var entry := EntryMessage(table.name, mObj.name, aObj.name);
    var eEncoded := B.Base64Encode(w.serialize(entry));
    var eObj := Json("afi-cap-entry", ENTRY_ID, table.name + ENTRY_SUFFIX, eEncoded);
    return Some([mObj, aObj, eObj]);
  }

  // ----- Each entry is bound to its own objects -----

  /** The request names a known table and action, translates, and its messages fit the decode buffer. */
  ghost predicate Good(w: Wire, info: P4Info, r: Request, m: T.AfiMatch, a: Action)
    requires Readable(info, r)
  {
    r.tableId in info.tables && r.actionId in info.actions &&
    T.Translate(info.tables[r.tableId].fields, r.fields, T.EMPTY) == Some(m) &&
    TranslateAction(info.actions[r.actionId], r.params, NO_ACTION) == Some(a) &&
    |w.serialize(MatchMessage(m))| < DECODE_BUFFER && |w.serialize(ActionMessage(a))| < DECODE_BUFFER &&
    |w.serialize(EntryLinks(info.tables[r.tableId].name))| < DECODE_BUFFER
  }

  function EntryLinks(table: string): Message {
    EntryMessage(table, Name(table, MatchKind), Name(table, ActionKind))
  }

  function MatchObject(table: string, handle: nat, m: T.AfiMatch): Object {
    Object(handle, "afi-cap-entry-match", ENTRY_ID + 1, Name(table, MatchKind), Some(MatchMessage(m)))
  }

  function ActionObject(table: string, handle: nat, a: Action): Object {
    Object(handle, "afi-cap-entry-action", ENTRY_ID + 2, Name(table, ActionKind), Some(ActionMessage(a)))
  }

  function EntryObject(table: string, handle: nat): Object {
    Object(handle, "afi-cap-entry", ENTRY_ID, Name(table, EntryKind), Some(EntryLinks(table)))
  }

  /** The device after a good request: three new objects and one binding, of exactly these objects. */
  function Installed(d: Device, table: string, cap: Object, m: T.AfiMatch, a: Action): Device {
    var mo, ao, eo := MatchObject(table, d.created, m), ActionObject(table, d.created + 1, a), EntryObject(table, d.created + 2);
    Device(d.objects[mo.name := Some(mo)][ao.name := Some(ao)][eo.name := Some(eo)],
           d.created + 3,
           d.bindings + [Binding(eo, cap, mo, ao)])
  }

  /** An encoded message arrives in its object unchanged. */
  lemma MessageArrives(w: Wire, msg: Message)
    requires Inverse(w) && |w.serialize(msg)| < DECODE_BUFFER
    ensures var bytes := B.Decode(B.Encode(w.serialize(msg)));
            B.Fits(|bytes|, DECODE_BUFFER) && w.parse(TypeOf(msg), bytes) == Some(msg)
  {
    B.EncodeThenDecode(w.serialize(msg));
  }

  lemma HandleArrives(w: Wire, d: Device, id: nat, name: string, msg: Message)
    requires Inverse(w) && |w.serialize(msg)| < DECODE_BUFFER && HasCreator(TypeOf(msg))
    ensures var o := Object(d.created, TypeOf(msg), id, name, Some(msg));
            Handle(w, d, Json(TypeOf(msg), id, name, B.Encode(w.serialize(msg))), false) ==
            (BindObject(Inserted(d, o), o), Done)
  {
    hide B.Encode, B.Decode, B.Fits, BindObject, HasCreator, TypeOf;
    MessageArrives(w, msg);
  }

  lemma KnownTypes()
    ensures HasCreator("afi-cap-entry-match") && HasCreator("afi-cap-entry-action") && HasCreator("afi-cap-entry")
    ensures "afi-cap-entry-match" != "afi-cap-entry" && "afi-cap-entry-action" != "afi-cap-entry"
  {
    var types := ["afi-tree", "afi-tree-entry", "afi-cap", "afi-cap-match", "afi-cap-action", "afi-cap-entry",
                  "afi-cap-entry-match", "afi-cap-entry-action"];
    assert types[5] == "afi-cap-entry" && types[6] == "afi-cap-entry-match" && types[7] == "afi-cap-entry-action";
    assert |"afi-cap-entry-match"| != |"afi-cap-entry"| && |"afi-cap-entry-action"| != |"afi-cap-entry"|;
  }

  /** Lookups of names that are in the map change nothing. */
  lemma {:induction false} WalkKnown(d: Device, wanted: seq<(string, string)>)
    requires forall i :: 0 <= i < |wanted| ==> wanted[i].0 in d.objects
    ensures Walk(d, wanted) == d
    decreases |wanted|
  {
    if wanted == [] {
    } else {
      WalkKnown(d, wanted[1..]);
    }
  }

  lemma PlainBind(d: Device, o: Object)
    requires o.typ == "afi-cap-entry-match" || o.typ == "afi-cap-entry-action"
    ensures BindObject(d, o) == d && Wanted(o) == []
  {
    assert |"afi-cap"| == 7 && |"afi-cap-entry"| == 13 && |"afi-tree-entry"| == 14;
    assert |o.typ| >= 19;
  }

  /** The entry's bind finds the cap and the two objects just inserted, not older ones of the same names. */
  lemma BindFindsNewest(d: Device, table: string, cap: Object, m: T.AfiMatch, a: Action)
    requires FindTyped(d, table, "afi-cap") == Some(cap)
    ensures var mo, ao, eo := MatchObject(table, d.created, m), ActionObject(table, d.created + 1, a), EntryObject(table, d.created + 2);
            BindObject(Inserted(Inserted(Inserted(d, mo), ao), eo), eo) == Installed(d, table, cap, m, a)
  {
    hide Suffix, Name;
    var mo, ao, eo := MatchObject(table, d.created, m), ActionObject(table, d.created + 1, a), EntryObject(table, d.created + 2);
    NameIsNotTable(table, MatchKind);
    NameIsNotTable(table, ActionKind);
    NameIsNotTable(table, EntryKind);
    DistinctNames(table);
    var d3 := Inserted(Inserted(Inserted(d, mo), ao), eo);
    assert FindTyped(d3, table, "afi-cap") == Some(cap);
    assert FindTyped(d3, mo.name, "afi-cap-entry-match") == Some(mo);
    assert FindTyped(d3, ao.name, "afi-cap-entry-action") == Some(ao);
    assert Wanted(eo) == [(table, "afi-cap"), (mo.name, "afi-cap-entry-match"), (ao.name, "afi-cap-entry-action")];
    hide Wanted;
    WalkKnown(d3, Wanted(eo));
    hide Walk;
  }

  lemma DistinctNames(t: string)
    ensures Name(t, MatchKind) != Name(t, ActionKind)
    ensures Name(t, MatchKind) != Name(t, EntryKind)
    ensures Name(t, ActionKind) != Name(t, EntryKind)
  {
    hide Name;
    if Name(t, MatchKind) == Name(t, ActionKind) { NamesInjective(t, MatchKind, t, ActionKind); }
    if Name(t, MatchKind) == Name(t, EntryKind) { NamesInjective(t, MatchKind, t, EntryKind); }
    if Name(t, ActionKind) == Name(t, EntryKind) { NamesInjective(t, ActionKind, t, EntryKind); }
  }

  /** A good request on a table whose cap is in the map installs and binds exactly its own objects. */
  lemma EntryBindsItsOwn(w: Wire, info: P4Info, d: Device, r: Request, cap: Object, m: T.AfiMatch, a: Action)
    requires Inverse(w) && Readable(info, r) && Good(w, info, r, m, a)
    requires FindTyped(d, info.tables[r.tableId].name, "afi-cap") == Some(cap)
    ensures AddEntry(w, info, d, r) == (Installed(d, info.tables[r.tableId].name, cap, m, a), Done)
  {
    var t := info.tables[r.tableId].name;
    assert Touch(d, t) == d;
    assert AddEntry(w, info, d, r) == HandleAll(w, d, ChildJson(w, t, m, a), false);
    hide AddEntry, T.Translate, TranslateAction, Readable;
    ChildrenInstall(w, d, t, cap, m, a);
  }

  lemma ChildrenInstall(w: Wire, d: Device, t: string, cap: Object, m: T.AfiMatch, a: Action)
    requires Inverse(w) && FindTyped(d, t, "afi-cap") == Some(cap)
    requires |w.serialize(MatchMessage(m))| < DECODE_BUFFER && |w.serialize(ActionMessage(a))| < DECODE_BUFFER
    requires |w.serialize(EntryLinks(t))| < DECODE_BUFFER
    ensures HandleAll(w, d, ChildJson(w, t, m, a), false) == (Installed(d, t, cap, m, a), Done)
  {
    hide Handle, HandleAll, Inverse, Installed, BindObject, FindTyped, HasCreator, Name, B.Encode;
    KnownTypes();
    var js := ChildJson(w, t, m, a);
    var mo, ao, eo := MatchObject(t, d.created, m), ActionObject(t, d.created + 1, a), EntryObject(t, d.created + 2);
    HandleArrives(w, d, ENTRY_ID + 1, Name(t, MatchKind), MatchMessage(m));
    HandleArrives(w, Inserted(d, mo), ENTRY_ID + 2, Name(t, ActionKind), ActionMessage(a));
    HandleArrives(w, Inserted(Inserted(d, mo), ao), ENTRY_ID, Name(t, EntryKind), EntryLinks(t));
    PlainBind(Inserted(d, mo), mo);
    PlainBind(Inserted(Inserted(d, mo), ao), ao);
    BindFindsNewest(d, t, cap, m, a);
    HandleThree(w, d, js[0], js[1], js[2], Inserted(d, mo), Inserted(Inserted(d, mo), ao), Installed(d, t, cap, m, a));
    assert js == [js[0], js[1], js[2]];
  }

  lemma HandleThree(w: Wire, d: Device, x: Json, y: Json, z: Json, d1: Device, d2: Device, d3: Device)
    requires Handle(w, d, x, false) == (d1, Done) && Handle(w, d1, y, false) == (d2, Done)
    requires Handle(w, d2, z, false) == (d3, Done)
    ensures HandleAll(w, d, [x, y, z], false) == (d3, Done)
  {
    hide Handle;
    assert [x, y, z][1..] == [y, z] && [y, z][1..] == [z] && [z][1..] == [];
    assert HandleAll(w, d3, [], false) == (d3, Done);
    assert HandleAll(w, d2, [z], false) == (d3, Done);
    assert HandleAll(w, d1, [y, z], false) == (d3, Done);
  }

  // ----- Over any run -----

  function Run(w: Wire, info: P4Info, d: Device, rs: seq<Request>): Device
    requires forall i :: 0 <= i < |rs| ==> Readable(info, rs[i])
  {
    if rs == [] then d else AddEntry(w, info, Run(w, info, d, rs[..|rs| - 1]), rs[|rs| - 1]).0
  }

  predicate Generated(table: string, name: string) {
    exists k: Kind :: name == Name(table, k)
  }

  /** Lookups move no object and remove no name. */
  lemma {:induction false} WalkKeeps(d: Device, wanted: seq<(string, string)>, u: string)
    ensures Find(Walk(d, wanted), u) == Find(d, u) && d.objects.Keys <= Walk(d, wanted).objects.Keys
    decreases |wanted|
  {
    if wanted == [] {
    } else {
      WalkKeeps(Touch(d, wanted[0].0), wanted[1..], u);
    }
  }

  lemma BindKeeps(d: Device, o: Object, u: string)
    ensures Find(BindObject(d, o), u) == Find(d, u) && d.objects.Keys <= BindObject(d, o).objects.Keys
  {
    hide Wanted, Walk, AllFound;
    WalkKeeps(d, Wanted(o), u);
    assert BindObject(d, o).objects == Walk(d, Wanted(o)).objects;
  }

  lemma HandleKeeps(w: Wire, d: Device, j: Json, stage: bool, u: string)
    ensures j.name != u ==> Find(Handle(w, d, j, stage).0, u) == Find(d, u)
    ensures d.objects.Keys <= Handle(w, d, j, stage).0.objects.Keys
    ensures Handle(w, d, j, stage).1 == Done ==> j.name in Handle(w, d, j, stage).0.objects
  {
    hide BindObject, HasCreator, B.Decode, B.Fits;
    var o := Created(w, d, j);
    BindKeeps(Inserted(d, o), o, u);
  }

  lemma {:induction false} HandleAllKeeps(w: Wire, d: Device, js: seq<Json>, stage: bool, u: string)
    ensures (forall i :: 0 <= i < |js| ==> js[i].name != u) ==> Find(HandleAll(w, d, js, stage).0, u) == Find(d, u)
    ensures d.objects.Keys <= HandleAll(w, d, js, stage).0.objects.Keys
    decreases |js|
  {
    hide Handle, Find;
    if js == [] {
    } else {
      HandleKeeps(w, d, js[0], stage, u);
      HandleAllKeeps(w, Handle(w, d, js[0], stage).0, js[1..], stage, u);
    }
  }

  /** Whatever becomes of a request, names it does not generate keep their objects. */
  lemma AddEntryKeeps(w: Wire, info: P4Info, d: Device, r: Request, u: string)
    requires Readable(info, r)
    requires r.tableId in info.tables ==> !Generated(info.tables[r.tableId].name, u)
    ensures Find(AddEntry(w, info, d, r).0, u) == Find(d, u)
  {
    hide Handle, HandleAll, T.Translate, TranslateAction, Name, B.Encode;
    if r.tableId in info.tables && r.actionId in info.actions {
      var table := info.tables[r.tableId];
      var js := CreateChild(w, table, info.actions[r.actionId], r);
      if js.Some? {
        HandleAllKeeps(w, Touch(d, table.name), js.value, false, u);
      }
    }
  }

  /** A good request takes away the cap of another table exactly when that table has a generated name. */
  lemma CapSurvivesIff(w: Wire, info: P4Info, d: Device, r: Request, cap: Object, m: T.AfiMatch, a: Action, u: string)
    requires Inverse(w) && Readable(info, r) && Good(w, info, r, m, a)
    requires FindTyped(d, info.tables[r.tableId].name, "afi-cap") == Some(cap)
    requires FindTyped(d, u, "afi-cap").Some?
    ensures FindTyped(AddEntry(w, info, d, r).0, u, "afi-cap") == FindTyped(d, u, "afi-cap") <==>
            !Generated(info.tables[r.tableId].name, u)
  {
    var t := info.tables[r.tableId].name;
    EntryBindsItsOwn(w, info, d, r, cap, m, a);
    hide AddEntry, Name;
    if Generated(t, u) {
      DistinctNames(t);
      KnownTypes();
      assert |"afi-cap"| != |"afi-cap-entry"|;
      GeneratedIsNoCap(d, t, cap, m, a, u);
    } else {
      AddEntryKeeps(w, info, d, r, u);
    }
  }

  lemma GeneratedIsNoCap(d: Device, t: string, cap: Object, m: T.AfiMatch, a: Action, u: string)
    requires Generated(t, u)
    ensures FindTyped(Installed(d, t, cap, m, a), u, "afi-cap").None?
  {
    hide Name;
    DistinctNames(t);
    var k: Kind :| u == Name(t, k);
    assert |"afi-cap"| == 7 && |"afi-cap-entry"| == 13 && |"afi-cap-entry-match"| == 19 && |"afi-cap-entry-action"| == 20;
    match k
    case EntryKind =>
    case MatchKind =>
    case ActionKind =>
  }

  /** No table is named like another table's objects. */
  predicate NoClash(info: P4Info) {
    forall i, j :: i in info.tables && j in info.tables ==> !Generated(info.tables[i].name, info.tables[j].name)
  }

  lemma {:induction false} RunKeepsCaps(w: Wire, info: P4Info, d: Device, rs: seq<Request>, tableId: nat)
    requires (forall i :: 0 <= i < |rs| ==> Readable(info, rs[i])) && NoClash(info) && tableId in info.tables
    ensures Find(Run(w, info, d, rs), info.tables[tableId].name) == Find(d, info.tables[tableId].name)
  {
    hide AddEntry, Find, Generated, Readable;
    if rs == [] {
    } else {
      RunKeepsCaps(w, info, d, rs[..|rs| - 1], tableId);
      AddEntryKeeps(w, info, Run(w, info, d, rs[..|rs| - 1]), rs[|rs| - 1], info.tables[tableId].name);
    }
  }

  /**
    After any sequence of requests on any tables, with all the reused ids and names, a good request is
    bound to the cap of its table and to the match and action objects made from that same request.
   */
  lemma EveryEntryBindsItsOwn(w: Wire, info: P4Info, d: Device, rs: seq<Request>, r: Request, cap: Object,
                              m: T.AfiMatch, a: Action)
    requires Inverse(w) && NoClash(info) && Readable(info, r) && Good(w, info, r, m, a)
    requires forall i :: 0 <= i < |rs| ==> Readable(info, rs[i])
    requires FindTyped(d, info.tables[r.tableId].name, "afi-cap") == Some(cap)
    ensures var before := Run(w, info, d, rs);
            AddEntry(w, info, before, r) == (Installed(before, info.tables[r.tableId].name, cap, m, a), Done)
  {
    hide AddEntry, Readable, Run;
    RunKeepsCaps(w, info, d, rs, r.tableId);
    EntryBindsItsOwn(w, info, Run(w, info, d, rs), r, cap, m, a);
  }

  // ----- What the bound objects mean -----

  /** The last value given for the parameter of this name. */
  function LastValue(infos: seq<ParamInfo>, ps: seq<Param>, name: string): Option<seq<bv8>> {
    if ps == [] then None
    else
      var last := ps[|ps| - 1];
      if ParamName(infos, last.id) == name then Some(last.value) else LastValue(infos, ps[..|ps| - 1], name)
  }

  lemma {:induction false} LastValueFirst(infos: seq<ParamInfo>, ps: seq<Param>, name: string)
    requires ps != []
    ensures LastValue(infos, ps, name) ==
            if LastValue(infos, ps[1..], name).Some? then LastValue(infos, ps[1..], name)
            else if ParamName(infos, ps[0].id) == name then Some(ps[0].value) else None
    decreases |ps|
  {
    hide ParamName;
    if |ps| == 1 {
      assert ps[..0] == [] && ps[1..] == [];
    } else {
      LastValueFirst(infos, ps[..|ps| - 1], name);
      assert ps[..|ps| - 1][1..] == ps[1..][..|ps| - 2];
    }
  }

  /** The action cannot be made exactly when some parameter id is unknown. */
  lemma {:induction false} ActionFailsIff(infos: seq<ParamInfo>, ps: seq<Param>, a: Action)
    requires ParamsReadable(infos, ps)
    ensures TranslateAction(infos, ps, a).None? <==> exists i :: 0 <= i < |ps| && ParamName(infos, ps[i].id) == ""
    decreases |ps|
  {
    hide ParamName, SetParam;
    if ps == [] {
    } else if ParamName(infos, ps[0].id) != "" {
      var rest := ps[1..];
      assert forall i :: 0 <= i < |rest| ==> rest[i] == ps[i + 1];
      ActionFailsIff(infos, rest, SetParam(a, ParamName(infos, ps[0].id), ps[0]));
      if i :| 0 <= i < |ps| && ParamName(infos, ps[i].id) == "" {
        assert rest[i - 1] == ps[i];
      }
    }
  }

  /** The action is `a0` with the last value of each named parameter set in it. */
  ghost predicate Sets(infos: seq<ParamInfo>, ps: seq<Param>, a0: Action, a: Action) {
    var vrf, classId, queue := LastValue(infos, ps, "vrf_id"), LastValue(infos, ps, "class_id_value"), LastValue(infos, ps, "queue_id");
    (vrf.Some? ==> |vrf.value| + 1 >= 4 && a.vrf == Some(T.Load(vrf.value, 4))) && (vrf.None? ==> a.vrf == a0.vrf) &&
    a.classId == (if classId.Some? then Some(FirstByte(classId.value)) else a0.classId) &&
    a.cpuQueue == (if queue.Some? then Some(FirstByte(queue.value)) else a0.cpuQueue) &&
    a.copyToCpu == (queue.Some? || a0.copyToCpu)
  }

  lemma NamesDiffer()
    ensures "vrf_id" != "class_id_value" && "vrf_id" != "queue_id" && "class_id_value" != "queue_id"
  {
    assert |"vrf_id"| == 6 && |"class_id_value"| == 14 && |"queue_id"| == 8;
  }

  /** The action made from a request: VRF, class and CPU queue as the parameters of those names say. */
  lemma {:induction false} ActionMeans(infos: seq<ParamInfo>, ps: seq<Param>, a0: Action, a: Action)
    requires ParamsReadable(infos, ps) && TranslateAction(infos, ps, a0) == Some(a)
    ensures Sets(infos, ps, a0, a)
    decreases |ps|
  {
    if ps == [] {
    } else {
      var name, rest := ParamName(infos, ps[0].id), ps[1..];
      assert forall i :: 0 <= i < |rest| ==> rest[i] == ps[i + 1];
      ActionMeans(infos, rest, SetParam(a0, name, ps[0]), a);
      LastValueFirst(infos, ps, "vrf_id");
      LastValueFirst(infos, ps, "class_id_value");
      LastValueFirst(infos, ps, "queue_id");
      NamesDiffer();
      hide LastValue, ParamName, TranslateAction, T.Load, FirstByte;
    }
  }

  /**
    From request to AFI objects: the match object in the binding that a good request adds accepts a packet
    exactly when the request's P4 match fields do, and the action object sets what the parameters say. What
    the hardware driver takes from these objects is not part of the model.
   */
  lemma BoundEntryMeansRequest(w: Wire, info: P4Info, d: Device, rs: seq<Request>, r: Request, cap: Object,
                               m: T.AfiMatch, a: Action, h: V.Headers)
    requires Inverse(w) && NoClash(info) && Readable(info, r) && Good(w, info, r, m, a)
    requires forall i :: 0 <= i < |rs| ==> Readable(info, rs[i])
    requires FindTyped(d, info.tables[r.tableId].name, "afi-cap") == Some(cap)
    requires V.EntryMeant(info.tables[r.tableId].fields, r.fields, h) && V.Fit(info.tables[r.tableId].fields, h)
    ensures var bound := AddEntry(w, info, Run(w, info, d, rs), r).0.bindings;
            bound != [] &&
            var b := bound[|bound| - 1];
            b.match_.message == Some(MatchMessage(m)) && b.action.message == Some(ActionMessage(a)) &&
            (T.AfiMatches(m, V.AfiView(h)) <==> V.Accepts(info.tables[r.tableId].fields, r.fields, h)) &&
            Sets(info.actions[r.actionId], r.params, NO_ACTION, a)
  {
    GoodParts(w, info, r, m, a);
    hide AddEntry, Run, Readable, T.Translate, TranslateAction, Sets, T.AfiMatches, V.Accepts, V.EntryMeant, V.Fit, V.AfiView;
    EveryEntryBindsItsOwn(w, info, d, rs, r, cap, m, a);
    V.EntryTranslation(info.tables[r.tableId].fields, r.fields, h);
    ActionMeans(info.actions[r.actionId], r.params, NO_ACTION, a);
  }

  lemma GoodParts(w: Wire, info: P4Info, r: Request, m: T.AfiMatch, a: Action)
    requires Readable(info, r) && Good(w, info, r, m, a)
    ensures r.tableId in info.tables && r.actionId in info.actions
    ensures T.AllReadable(info.tables[r.tableId].fields, r.fields) && ParamsReadable(info.actions[r.actionId], r.params)
    ensures T.Translate(info.tables[r.tableId].fields, r.fields, T.EMPTY) == Some(m)
    ensures TranslateAction(info.actions[r.actionId], r.params, NO_ACTION) == Some(a)
  {
  }
}
