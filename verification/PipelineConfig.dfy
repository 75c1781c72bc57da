/**
  Null entries in the object map: which requests leave them, and what `handlePipelineConfig` then does,
  which binds every entry of the map in the order of names while the binds themselves look names up.
 */
module PipelineConfig {
  import opened Prelude
  import opened CapInstall
  import B = Base64
  import T = MatchTranslation

  ghost predicate NoNulls(d: Device) {
    forall n :: n in d.objects ==> d.objects[n].Some?
  }

  // ----- Requests -----

  /** The request has a known table and action, and no object has the table's name. */
  predicate MissingTable(info: P4Info, d: Device, r: Request) {
    r.tableId in info.tables && r.actionId in info.actions && info.tables[r.tableId].name !in d.objects
  }

  /** A new object whose lookups are all in the map brings no null entry. */
  lemma HandleLeavesNoNulls(w: Wire, d: Device, j: Json)
    requires NoNulls(d)
    requires var wanted := Wanted(Created(w, d, j));
             forall i :: 0 <= i < |wanted| ==> wanted[i].0 in d.objects || wanted[i].0 == j.name
    ensures NoNulls(Handle(w, d, j, false).0)
  {
    hide Wanted, HasCreator, B.Decode, B.Fits, Walk, AllFound;
    var o := Created(w, d, j);
    WalkKnown(Inserted(d, o), Wanted(o));
  }

  /** The lookups of the entry object that a request makes: its table and its two other objects. */
  lemma EntryWants(w: Wire, d: Device, t: string)
    requires Inverse(w)
    ensures var wanted := Wanted(Created(w, d, ChildJson(w, t, T.EMPTY, NO_ACTION)[2]));
            |wanted| == 3 && wanted[0].0 == t && wanted[1].0 == Name(t, MatchKind) && wanted[2].0 == Name(t, ActionKind)
  {
    hide B.Encode, B.Decode, Name;
    B.EncodeThenDecode(w.serialize(EntryLinks(t)));
    assert w.parse("afi-cap-entry", w.serialize(EntryLinks(t))) == Some(EntryLinks(t)) by {
      assert TypeOf(EntryLinks(t)) == "afi-cap-entry";
    }
  }

  lemma PlainWants(w: Wire, d: Device, j: Json)
    requires j.typ == "afi-cap-entry-match" || j.typ == "afi-cap-entry-action"
    ensures Wanted(Created(w, d, j)) == []
  {
    hide B.Decode;
    PlainBind(d, Created(w, d, j));
  }

  lemma ChildShape(w: Wire, t: string, m: T.AfiMatch, a: Action) returns (x: Json, y: Json, z: Json)
    ensures ChildJson(w, t, m, a) == [x, y, z] && z == ChildJson(w, t, T.EMPTY, NO_ACTION)[2]
    ensures x.typ == "afi-cap-entry-match" && y.typ == "afi-cap-entry-action"
    ensures x.name == Name(t, MatchKind) && y.name == Name(t, ActionKind)
  {
    var js := ChildJson(w, t, m, a);
    x, y, z := js[0], js[1], js[2];
  }

  /** The three objects of a request, as far as they can be created, bring no null entry. */
  lemma ChildrenLeaveNoNulls(w: Wire, d: Device, t: string, m: T.AfiMatch, a: Action)
    requires Inverse(w) && NoNulls(d) && t in d.objects
    ensures NoNulls(HandleAll(w, d, ChildJson(w, t, m, a), false).0)
  {
    hide ChildJson, Handle, NoNulls, Wanted, Created, HandleAll, Name, Inverse;
    var x, y, z := ChildShape(w, t, m, a);
    PlainWants(w, d, x);
    HandleLeavesNoNulls(w, d, x);
    HandleKeeps(w, d, x, false, t);
    var d1 := Handle(w, d, x, false).0;
    PlainWants(w, d1, y);
    HandleLeavesNoNulls(w, d1, y);
    HandleKeeps(w, d1, y, false, t);
    var d2 := Handle(w, d1, y, false).0;
    EntryWants(w, d2, t);
    if Handle(w, d, x, false).1 == Done && Handle(w, d1, y, false).1 == Done {
      HandleLeavesNoNulls(w, d2, z);
    }
    HandleAllOfThree(w, d, x, y, z);
  }

  lemma HandleAllOfThree(w: Wire, d: Device, x: Json, y: Json, z: Json)
    ensures var (d1, out1) := Handle(w, d, x, false);
            var (d2, out2) := Handle(w, d1, y, false);
            HandleAll(w, d, [x, y, z], false).0 ==
            if out1 != Done then d1 else if out2 != Done then d2 else Handle(w, d2, z, false).0
  {
    hide Handle;
    assert [x, y, z][1..] == [y, z] && [y, z][1..] == [z] && [z][1..] == [];
    var (d1, out1) := Handle(w, d, x, false);
    var (d2, out2) := Handle(w, d1, y, false);
    var (d3, out3) := Handle(w, d2, z, false);
    assert HandleAll(w, d3, [], false).0 == d3;
    assert HandleAll(w, d2, [z], false).0 == d3;
    assert HandleAll(w, d1, [y, z], false).0 == if out2 != Done then d2 else d3;
  }

  /** A request on a map without null entries leaves one exactly when its table is missing from the map. */
  lemma NullsAppearIff(w: Wire, info: P4Info, d: Device, r: Request)
    requires Inverse(w) && Readable(info, r) && NoNulls(d)
    ensures !NoNulls(AddEntry(w, info, d, r).0) <==> MissingTable(info, d, r)
  {
    hide HandleAll, T.Translate, TranslateAction, ChildJson, Inverse;
    if r.tableId in info.tables && r.actionId in info.actions {
      var table := info.tables[r.tableId];
      var t := table.name;
      if t !in d.objects {
        assert AddEntry(w, info, d, r).0 == Touch(d, t);
        assert t in Touch(d, t).objects && Touch(d, t).objects[t].None?;
      } else if CreateChild(w, table, info.actions[r.actionId], r).Some? {
        var m := T.Translate(table.fields, r.fields, T.EMPTY).value;
        var a := TranslateAction(info.actions[r.actionId], r.params, NO_ACTION).value;
        ChildrenLeaveNoNulls(w, d, t, m, a);
      }
    }
  }

  /** So one request on a device without objects leaves a null entry. */
  lemma MissingTableExample(w: Wire)
    ensures var info := P4Info(map[7 := Table("acl", [])], map[8 := []]);
            var d := AddEntry(w, info, Device(map[], 0, []), Request(7, 8, [], [])).0;
            d.objects == map["acl" := None]
  {
  }

  lemma {:induction false} TableIsTouched(w: Wire, info: P4Info, d: Device, rs: seq<Request>, i: nat)
    requires i < |rs| && forall k :: 0 <= k < |rs| ==> Readable(info, rs[k])
    requires rs[i].tableId in info.tables && rs[i].actionId in info.actions
    ensures info.tables[rs[i].tableId].name in Run(w, info, d, rs).objects
    decreases |rs|
  {
    var front, last := rs[..|rs| - 1], rs[|rs| - 1];
    if i < |rs| - 1 {
      TableIsTouched(w, info, d, front, i);
      hide AddEntry, Readable;
      AddEntryGrows(w, info, Run(w, info, d, front), last);
    } else {
      hide AddEntry, Readable, Run;
      AddEntryGrows(w, info, Run(w, info, d, front), last);
      assert Run(w, info, d, rs) == AddEntry(w, info, Run(w, info, d, front), last).0 by { RunLast(w, info, d, rs); }
    }
  }

  lemma RunLast(w: Wire, info: P4Info, d: Device, rs: seq<Request>)
    requires rs != [] && forall k :: 0 <= k < |rs| ==> Readable(info, rs[k])
    ensures Run(w, info, d, rs) == AddEntry(w, info, Run(w, info, d, rs[..|rs| - 1]), rs[|rs| - 1]).0
  {
  }

  lemma AddEntryGrows(w: Wire, info: P4Info, d: Device, r: Request)
    requires Readable(info, r)
    ensures d.objects.Keys <= AddEntry(w, info, d, r).0.objects.Keys
    ensures r.tableId in info.tables && r.actionId in info.actions ==>
            info.tables[r.tableId].name in AddEntry(w, info, d, r).0.objects
  {
    hide HandleAll, T.Translate, TranslateAction, ChildJson;
    if r.tableId in info.tables && r.actionId in info.actions {
      var table := info.tables[r.tableId];
      var js := CreateChild(w, table, info.actions[r.actionId], r);
      if js.Some? {
        HandleAllKeeps(w, Touch(d, table.name), js.value, false, table.name);
      }
    }
  }

  lemma {:induction false} RunLeavesNoNulls(w: Wire, info: P4Info, d: Device, rs: seq<Request>)
    requires Inverse(w) && NoClash(info) && NoNulls(d)
    requires forall i :: 0 <= i < |rs| ==> Readable(info, rs[i]) && !MissingTable(info, d, rs[i])
    ensures NoNulls(Run(w, info, d, rs))
  {
    if rs == [] {
    } else {
      var front, last := rs[..|rs| - 1], rs[|rs| - 1];
      assert forall i :: 0 <= i < |front| ==> front[i] == rs[i];
      var before := Run(w, info, d, front);
      RunLeavesNoNulls(w, info, d, front);
      if last.tableId in info.tables {
        RunKeepsCaps(w, info, d, front, last.tableId);
      }
      RunLast(w, info, d, rs);
      hide Readable, Inverse, Run, AddEntry, NoClash;
      assert !MissingTable(info, before, last);
      NullsAppearIff(w, info, before, last);
    }
  }

  /**
    Over any run of requests the map stays free of null entries exactly when each request with a known table
    and action names a table that was in the map at the start.
   */
  lemma RunNullsIff(w: Wire, info: P4Info, d: Device, rs: seq<Request>)
    requires Inverse(w) && NoClash(info) && NoNulls(d)
    requires forall i :: 0 <= i < |rs| ==> Readable(info, rs[i])
    ensures NoNulls(Run(w, info, d, rs)) <==> forall i :: 0 <= i < |rs| ==> !MissingTable(info, d, rs[i])
  {
    hide Readable, Inverse, Run, NoClash;
    if i :| 0 <= i < |rs| && MissingTable(info, d, rs[i]) {
      TableIsTouched(w, info, d, rs, i);
      RunKeepsCaps(w, info, d, rs, rs[i].tableId);
    } else {
      RunLeavesNoNulls(w, info, d, rs);
    }
  }

  // ----- Types in the map -----

  /** Every object has a type that the device can create; the encap types are not among them. */
  ghost predicate Creatable(d: Device) {
    forall n :: n in d.objects && d.objects[n].Some? ==> HasCreator(d.objects[n].value.typ)
  }

  lemma HandleCreates(w: Wire, d: Device, j: Json, stage: bool)
    requires Creatable(d)
    ensures Creatable(Handle(w, d, j, stage).0)
  {
    hide B.Decode, B.Fits, BindObject, HasCreator;
    var o := Created(w, d, j);
    SameObjects(Inserted(d, o), o);
    var d1 := Handle(w, d, j, stage).0;
    forall n | n in d1.objects && d1.objects[n].Some?
      ensures HasCreator(d1.objects[n].value.typ)
    {
      assert Find(BindObject(Inserted(d, o), o), n) == Find(Inserted(d, o), n);
    }
  }

  lemma {:induction false} HandleAllCreates(w: Wire, d: Device, js: seq<Json>, stage: bool)
    requires Creatable(d)
    ensures Creatable(HandleAll(w, d, js, stage).0)
    decreases |js|
  {
    hide Handle, Creatable;
    if js == [] {
    } else {
      HandleCreates(w, d, js[0], stage);
      HandleAllCreates(w, Handle(w, d, js[0], stage).0, js[1..], stage);
    }
  }

  /** So no parent of an encap type is ever found, whatever is configured and requested. */
  lemma RequestCreates(w: Wire, info: P4Info, d: Device, r: Request)
    requires Creatable(d) && Readable(info, r)
    ensures Creatable(AddEntry(w, info, d, r).0)
    ensures forall n :: Find(d, n).Some? ==> Find(d, n).value.typ != "afi-encap" && Find(d, n).value.typ != "afi-tree-encap"
  {
    NoEncap();
    hide HandleAll, HasCreator, T.Translate, TranslateAction, ChildJson;
    if r.tableId in info.tables && r.actionId in info.actions {
      var table := info.tables[r.tableId];
      var js := CreateChild(w, table, info.actions[r.actionId], r);
      if js.Some? {
        HandleAllCreates(w, Touch(d, table.name), js.value, false);
      }
    }
  }

  lemma NoEncap()
    ensures !HasCreator("afi-encap") && !HasCreator("afi-tree-encap")
  {
    var types := ["afi-tree", "afi-tree-entry", "afi-cap", "afi-cap-match", "afi-cap-action", "afi-cap-entry",
                  "afi-cap-entry-match", "afi-cap-entry-action"];
    assert |"afi-encap"| == 9 && |"afi-tree-encap"| == 14 && |"afi-cap-action"| == 14 && |"afi-tree-entry"| == 14;
    assert "afi-tree-encap"[11] == 'c' && "afi-tree-entry"[11] == 't';
    assert "afi-tree-encap"[4] == 't' && "afi-cap-action"[4] == 'c';
    forall i | 0 <= i < |types| ensures types[i] != "afi-encap" && types[i] != "afi-tree-encap" { }
  }

  // ----- The order of names -----

  /** `operator<` on strings. */
  predicate Before(a: string, b: string) {
    b != "" && (a == "" || a[0] < b[0] || (a[0] == b[0] && Before(a[1..], b[1..])))
  }

  /** The strings agree up to `i`, and there the first one ends or has the smaller character. */
  predicate DifferAt(a: string, b: string, i: nat) {
    i <= |a| && i < |b| && a[..i] == b[..i] && (i == |a| || a[i] < b[i])
  }

  lemma SameHead(a: string, b: string, i: nat)
    requires DifferAt(a, b, i)
    ensures i > 0 ==> a != "" && b != "" && a[0] == b[0]
  {
    if i > 0 {
      assert a[..i][0] == b[..i][0];
    }
  }

  /** That is the order of dictionaries. */
  lemma {:induction false} BeforeIff(a: string, b: string)
    ensures Before(a, b) <==> exists i: nat :: DifferAt(a, b, i)
    decreases |a|
  {
    if a == "" || b == "" || a[0] != b[0] {
      assert a[..0] == b[..0];
      assert DifferAt(a, b, 0) <==> Before(a, b);
      forall i: nat | DifferAt(a, b, i) ensures i == 0 {
        SameHead(a, b, i);
      }
    } else {
      BeforeIff(a[1..], b[1..]);
      if Before(a, b) {
        var i: nat :| DifferAt(a[1..], b[1..], i);
        assert a[..i + 1] == [a[0]] + a[1..][..i] && b[..i + 1] == [b[0]] + b[1..][..i];
        assert DifferAt(a, b, i + 1);
      }
      if i: nat :| DifferAt(a, b, i) {
        assert i > 0;
        assert a[1..][..i - 1] == a[..i][1..] && b[1..][..i - 1] == b[..i][1..];
        assert DifferAt(a[1..], b[1..], i - 1);
      }
    }
  }

  lemma {:induction false} BeforeTotal(a: string, b: string)
    ensures a == b || Before(a, b) || Before(b, a)
    ensures !(Before(a, b) && Before(b, a))
    decreases |a|
  {
    if a == "" || b == "" {
    } else {
      BeforeTotal(a[1..], b[1..]);
      assert a == [a[0]] + a[1..] && b == [b[0]] + b[1..];
    }
  }

  lemma {:induction false} BeforeTransitive(a: string, b: string, c: string)
    requires Before(a, b) && Before(b, c)
    ensures Before(a, c)
    decreases |a|
  {
    if a == "" {
    } else if a[0] == b[0] == c[0] {
      BeforeTransitive(a[1..], b[1..], c[1..]);
    }
  }

  /** The name lies behind the point the iteration has reached. */
  predicate Ahead(at: Option<string>, n: string) {
    at == None || Before(at.value, n)
  }

  /** The next name in the map. */
  predicate IsNext(names: set<string>, at: Option<string>, n: string) {
    n in names && Ahead(at, n) && forall k :: k in names && Ahead(at, k) ==> k == n || Before(n, k)
  }

  lemma {:induction false} NextExists(names: set<string>, at: Option<string>, n: string) returns (k: string)
    requires n in names && Ahead(at, n)
    ensures IsNext(names, at, k)
    decreases names
  {
    var rest := names - {n};
    if m :| m in rest && Ahead(at, m) {
      k := NextExists(rest, at, m);
      BeforeTotal(n, k);
      if Before(n, k) {
        forall j | j in names && Ahead(at, j) ensures j == n || Before(n, j) {
          if j != n && j != k {
            BeforeTransitive(n, k, j);
          }
        }
        k := n;
      }
    } else {
      k := n;
    }
  }

  // ----- Binding everything -----

  /** The objects that are still to be bound. */
  ghost function Left(d: Device, at: Option<string>): set<string> {
    set n | n in d.objects && Ahead(at, n) && d.objects[n].Some?
  }

  lemma SameObjects(d: Device, o: Object)
    ensures forall n :: Find(BindObject(d, o), n) == Find(d, n)
    ensures d.objects.Keys <= BindObject(d, o).objects.Keys
  {
    hide BindObject, Find;
    BindKeeps(d, o, "");
    forall n ensures Find(BindObject(d, o), n) == Find(d, n) {
      BindKeeps(d, o, n);
    }
  }

  lemma Progress(d: Device, at: Option<string>, k: string, o: Object)
    requires k in d.objects && Ahead(at, k) && d.objects[k] == Some(o)
    ensures Left(BindObject(d, o), Some(k)) < Left(d, at)
  {
    hide BindObject;
    SameObjects(d, o);
    var d1 := BindObject(d, o);
    BeforeTotal(k, k);
    assert k in Left(d, at) && k !in Left(d1, Some(k));
    forall n | n in Left(d1, Some(k)) ensures n in Left(d, at) {
      assert Find(d1, n) == Find(d, n);
      if at.Some? {
        BeforeTransitive(at.value, k, n);
      }
    }
  }

  ghost function Next(names: set<string>, at: Option<string>): (k: string)
    requires exists n :: n in names && Ahead(at, n)
    ensures IsNext(names, at, k)
  {
    NextFound(names, at);
    var k :| IsNext(names, at, k);
    k
  }

  lemma NextFound(names: set<string>, at: Option<string>)
    requires exists n :: n in names && Ahead(at, n)
    ensures exists k :: IsNext(names, at, k)
  {
    var n :| n in names && Ahead(at, n);
    var k := NextExists(names, at, n);
  }

  /**
    `bindAfiObjects` from a point of the iteration on: a null entry is dereferenced, and an entry that a bind
    adds ahead of the iteration will be reached.
   */
  ghost function BindFrom(d: Device, at: Option<string>): (Device, Outcome)
    decreases Left(d, at)
  {
    if exists n :: n in d.objects && Ahead(at, n) then
      var k := Next(d.objects.Keys, at);
      if d.objects[k].None? then (d, Aborted)
      else
        Progress(d, at, k, d.objects[k].value);
        BindFrom(BindObject(d, d.objects[k].value), Some(k))
    else (d, Done)
  }

  ghost function Pipeline(w: Wire, d: Device, js: seq<Json>): (Device, Outcome) {
    var (d1, out) := HandleAll(w, d, js, true);
    if out != Done then (d1, out) else BindFrom(d1, None)
  }

  lemma OnlyNext(names: set<string>, at: Option<string>, k: string, n: string)
    requires IsNext(names, at, k) && IsNext(names, at, n)
    ensures k == n
  {
    BeforeTotal(k, n);
  }

  method BindAfiObjects(device: AfiDevice) returns (out: Outcome)
    modifies device
    ensures (device.Model(), out) == BindFrom(old(device.Model()), None)
  {
    hide BindObject, Ahead;
    var at: Option<string> := None;
    while exists n :: n in device.objects && Ahead(at, n)
      invariant BindFrom(device.Model(), at) == BindFrom(old(device.Model()), None)
      decreases Left(device.Model(), at)
    {
      NextFound(device.objects.Keys, at);
      var k :| k in device.objects.Keys && IsNext(device.objects.Keys, at, k);
      OnlyNext(device.objects.Keys, at, k, Next(device.objects.Keys, at));
      if device.objects[k].None? {
        return Aborted;
      }
      Progress(device.Model(), at, k, device.objects[k].value);
      device.Bind(device.objects[k].value);
      at := Some(k);
    }
    return Done;
  }

  method HandlePipelineConfig(w: Wire, device: AfiDevice, config: seq<Json>) returns (out: Outcome)
    modifies device
    ensures (device.Model(), out) == Pipeline(w, old(device.Model()), config)
  {
    hide Handle, BindFrom;
    for i := 0 to |config|
      invariant HandleAll(w, device.Model(), config[i..], true) == HandleAll(w, old(device.Model()), config, true)
    {
      assert config[i..][1..] == config[i + 1..];
      out := device.HandleDMObject(w, config[i], true);
      if out != Done {
        return;
      }
    }
    out := BindAfiObjects(device);
  }

  // ----- When it aborts -----

  /** The names that a bind looks up before it gives up. */
  function Touched(d: Device, wanted: seq<(string, string)>): set<string> {
    if wanted == [] then {}
    else {wanted[0].0} + if FindTyped(d, wanted[0].0, wanted[0].1).None? then {} else Touched(d, wanted[1..])
  }

  lemma {:induction false} TouchedSame(d: Device, d': Device, wanted: seq<(string, string)>)
    requires forall n :: Find(d', n) == Find(d, n)
    ensures Touched(d', wanted) == Touched(d, wanted)
    decreases |wanted|
  {
    hide Find;
    if wanted == [] {
    } else {
      TouchedSame(d, d', wanted[1..]);
    }
  }

  lemma {:induction false} WalkAdds(d: Device, wanted: seq<(string, string)>)
    ensures Walk(d, wanted).objects.Keys == d.objects.Keys + Touched(d, wanted)
    decreases |wanted|
  {
    if wanted == [] {
    } else {
      var d1 := Touch(d, wanted[0].0);
      assert d1.objects.Keys == d.objects.Keys + {wanted[0].0};
      assert forall n :: Find(d1, n) == Find(d, n);
      TouchedSame(d, d1, wanted[1..]);
      hide Find, Touch;
      WalkAdds(d1, wanted[1..]);
    }
  }

  lemma BindAdds(d: Device, o: Object)
    ensures BindObject(d, o).objects.Keys == d.objects.Keys + Touched(d, Wanted(o))
    ensures forall n :: n in d.objects ==> n in BindObject(d, o).objects && BindObject(d, o).objects[n] == d.objects[n]
    ensures forall n :: n in BindObject(d, o).objects && n !in d.objects ==> BindObject(d, o).objects[n] == None
    ensures forall wanted :: Touched(BindObject(d, o), wanted) == Touched(d, wanted)
  {
    WalkAdds(d, Wanted(o));
    SameObjects(d, o);
    var d1 := BindObject(d, o);
    assert d1.objects == Walk(d, Wanted(o)).objects;
    hide BindObject, Walk, Wanted, Touched;
    forall wanted ensures Touched(d1, wanted) == Touched(d, wanted) {
      TouchedSame(d, d1, wanted);
    }
    forall n | n in d1.objects ensures d1.objects[n] == if n in d.objects then d.objects[n] else None {
      assert Find(d1, n) == Find(d, n);
    }
  }

  /** A null entry, or an object that looks up a missing name which comes later in the order. */
  ghost predicate Danger(d: Device, k: string) {
    k in d.objects &&
    (d.objects[k].None? ||
     exists n :: n in Touched(d, Wanted(d.objects[k].value)) && n !in d.objects && Before(k, n))
  }

  ghost predicate DangerAhead(d: Device, at: Option<string>) {
    exists k :: Ahead(at, k) && Danger(d, k)
  }

  lemma DangerMoves(d: Device, at: Option<string>, k: string, o: Object)
    requires IsNext(d.objects.Keys, at, k) && d.objects[k] == Some(o)
    ensures DangerAhead(BindObject(d, o), Some(k)) ==> DangerAhead(d, at)
  {
    BindAdds(d, o);
    hide BindObject, Touched, Wanted;
    var d1 := BindObject(d, o);
    if DangerAhead(d1, Some(k)) {
      var j :| Before(k, j) && Danger(d1, j);
      if j in d.objects {
        if at.Some? {
          BeforeTransitive(at.value, k, j);
        }
        assert Danger(d, j);
      } else {
        assert Danger(d, k);
      }
    }
  }

  lemma DangerStays(d: Device, at: Option<string>, k: string, o: Object)
    requires IsNext(d.objects.Keys, at, k) && d.objects[k] == Some(o) && DangerAhead(d, at)
    ensures DangerAhead(BindObject(d, o), Some(k))
  {
    BindAdds(d, o);
    hide BindObject, Touched, Wanted;
    var d1 := BindObject(d, o);
    var j :| Ahead(at, j) && Danger(d, j);
    if d.objects[j].None? {
      assert Danger(d1, j);
    } else {
      var n :| n in Touched(d, Wanted(d.objects[j].value)) && n !in d.objects && Before(j, n);
      if j != k {
        BeforeTransitive(k, j, n);
      }
      if n in d1.objects {
        assert Danger(d1, n);
      } else {
        assert Danger(d1, j);
      }
    }
  }

  /**
    Binding everything aborts exactly when the map has a null entry, or some object looks up a missing name
    that comes after its own in the order of names.
   */
  lemma {:induction false} BindAbortsIff(d: Device, at: Option<string>)
    ensures BindFrom(d, at).1 == Aborted <==> DangerAhead(d, at)
    ensures BindFrom(d, at).1 == Aborted || BindFrom(d, at).1 == Done
    decreases Left(d, at)
  {
    if exists n :: n in d.objects && Ahead(at, n) {
      var k := Next(d.objects.Keys, at);
      if d.objects[k].None? {
        assert Danger(d, k);
      } else {
        var o := d.objects[k].value;
        Progress(d, at, k, o);
        BindAbortsIff(BindObject(d, o), Some(k));
        DangerMoves(d, at, k, o);
        hide BindObject, Left, Danger;
        if DangerAhead(d, at) {
          DangerStays(d, at, k, o);
        }
      }
    }
  }

  lemma NullThenConfig(w: Wire, d: Device, t: string, config: seq<Json>)
    requires t in d.objects && d.objects[t].None? && forall i :: 0 <= i < |config| ==> config[i].name != t
    requires HandleAll(w, d, config, true).1 == Done
    ensures Pipeline(w, d, config).1 == Aborted
  {
    hide HandleAll, BindFrom, Touched;
    HandleAllKeeps(w, d, config, true, t);
    var d1 := HandleAll(w, d, config, true).0;
    assert Find(d1, t) == Find(d, t) && Danger(d1, t);
    BindAbortsIff(d1, None);
  }

  lemma MissingTableTouches(w: Wire, info: P4Info, d: Device, r: Request)
    requires Readable(info, r) && MissingTable(info, d, r)
    ensures AddEntry(w, info, d, r) == (Touch(d, info.tables[r.tableId].name), Refused)
  {
    hide T.Translate, TranslateAction;
  }

  /**
    After a request on a missing table, any new pipeline configuration that can be created and does not
    define that table aborts.
   */
  lemma MissingTableThenConfig(w: Wire, info: P4Info, d: Device, r: Request, config: seq<Json>)
    requires Readable(info, r) && MissingTable(info, d, r)
    requires forall i :: 0 <= i < |config| ==> config[i].name != info.tables[r.tableId].name
    requires HandleAll(w, AddEntry(w, info, d, r).0, config, true).1 == Done
    ensures Pipeline(w, AddEntry(w, info, d, r).0, config).1 == Aborted
  {
    hide Readable, AddEntry, HandleAll, Pipeline;
    MissingTableTouches(w, info, d, r);
    NullThenConfig(w, Touch(d, info.tables[r.tableId].name), info.tables[r.tableId].name, config);
  }
}
