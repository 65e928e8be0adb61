/** What the passes of `forge/ir/passes` make of an entity and a route, told by looking things up:
which field is found under a name, which table and which path result. */
module PassMeaning {
  import opened Collections
  import opened Ir
  import opened Naming
  import opened Splitting
  import opened IrPasses
  import NamePieces

  // ----- Lookup -----

  /** The first field of that name. */
  function Lookup(fields: seq<Field>, name: string): Option<Field> {
    if fields == [] then None else if fields[0].name == name then Some(fields[0]) else Lookup(fields[1..], name)
  }

  /** The last mixin of that name. */
  function LastMixin(ms: seq<Mixin>, fqn: string): Option<Mixin> {
    if ms == [] then None
    else if ms[|ms| - 1].fqn == fqn then Some(ms[|ms| - 1]) else LastMixin(ms[..|ms| - 1], fqn)
  }

  function LastMachine(ws: seq<Machine>, fqn: string): Option<Machine> {
    if ws == [] then None
    else if ws[|ws| - 1].fqn == fqn then Some(ws[|ws| - 1]) else LastMachine(ws[..|ws| - 1], fqn)
  }

  /** The fields of the mixins an entity names, one mixin after the other. */
  function MixinFields(refs: seq<string>, ms: seq<Mixin>): seq<Field> {
    if refs == [] then []
    else
      var found := LastMixin(ms, refs[|refs| - 1]);
      MixinFields(refs[..|refs| - 1], ms) + (if found.Some? then found.value.fields else [])
  }

  /** The machine an entity is bound to. */
  function MachineOf(d: Domain, e: Entity): Option<Machine> {
    if e.workflowRef == None || e.workflowRef == Some("") then None
    else LastMachine(d.workflows, e.workflowRef.value)
  }

  lemma {:induction false} LookupIff(fields: seq<Field>, name: string)
    ensures Lookup(fields, name).Some? <==> HasField(fields, name)
    ensures Lookup(fields, name).Some? ==> Lookup(fields, name).value.name == name
  {
    if fields != [] {
      LookupIff(fields[1..], name);
      if HasField(fields[1..], name) {
        var i :| 0 <= i < |fields[1..]| && fields[1..][i].name == name;
        assert fields[i + 1].name == name;
      }
      if HasField(fields, name) {
        var i :| 0 <= i < |fields| && fields[i].name == name;
        if i > 0 { assert fields[1..][i - 1].name == name; }
      }
    }
  }

  lemma {:induction false} LookupAppend(a: seq<Field>, b: seq<Field>, name: string)
    ensures Lookup(a + b, name) == if Lookup(a, name).Some? then Lookup(a, name) else Lookup(b, name)
  {
    if a == [] {
      assert a + b == b;
    } else {
      LookupAppend(a[1..], b, name);
      assert (a + b)[1..] == a[1..] + b;
    }
  }

  lemma LookupOne(f: Field, name: string)
    ensures Lookup([f], name) == if f.name == name then Some(f) else None
  {
    assert [f][1..] == [];
  }

  lemma {:induction false} MixinMapFinds(ms: seq<Mixin>, fqn: string)
    ensures fqn in MixinMap(ms) <==> LastMixin(ms, fqn).Some?
    ensures fqn in MixinMap(ms) ==> MixinMap(ms)[fqn] == LastMixin(ms, fqn).value
  {
    if ms != [] { MixinMapFinds(ms[..|ms| - 1], fqn); }
  }

  lemma {:induction false} MachineMapFinds(ws: seq<Machine>, fqn: string)
    ensures fqn in MachineMap(ws) <==> LastMachine(ws, fqn).Some?
    ensures fqn in MachineMap(ws) ==> MachineMap(ws)[fqn] == LastMachine(ws, fqn).value
  {
    if ws != [] { MachineMapFinds(ws[..|ws| - 1], fqn); }
  }

  // ----- Fields -----

  lemma {:induction false} AddFieldsFinds(fields: seq<Field>, more: seq<Field>, name: string)
    ensures Lookup(AddFields(fields, more), name) == Lookup(fields + more, name)
    ensures fields <= AddFields(fields, more)
  {
    if more == [] {
      assert fields + more == fields;
    } else {
      var init, last := more[..|more| - 1], more[|more| - 1];
      AddFieldsFinds(fields, init, name);
      var before := AddFields(fields, init);
      LookupIff(before, last.name);
      LookupAppend(before, [last], name);
      LookupAppend(fields + init, [last], name);
      LookupOne(last, name);
      hide Lookup, HasField;
      assert fields + more == fields + init + [last];
    }
  }

  lemma {:induction false} AddMixinsFinds(fields: seq<Field>, refs: seq<string>, ms: seq<Mixin>, name: string)
    ensures Lookup(AddMixins(fields, refs, MixinMap(ms)), name) == Lookup(fields + MixinFields(refs, ms), name)
    ensures fields <= AddMixins(fields, refs, MixinMap(ms))
  {
    hide Lookup, MixinMap;
    if refs == [] {
      assert fields + [] == fields;
    } else {
      var init, last := refs[..|refs| - 1], refs[|refs| - 1];
      AddMixinsFinds(fields, init, ms, name);
      MixinMapFinds(ms, last);
      var before := AddMixins(fields, init, MixinMap(ms));
      var found := LastMixin(ms, last);
      var more := if found.Some? then found.value.fields else [];
      AddFieldsFinds(before, more, name);
      LookupAppend(before, more, name);
      LookupAppend(fields + MixinFields(init, ms), more, name);
      hide AddFields, LastMixin;
      assert fields + MixinFields(refs, ms) == fields + MixinFields(init, ms) + more;
      assert before + [] == before;
    }
  }

  lemma ReplacedFinds(front: seq<Field>, f: Field, g: Field, behind: seq<Field>, name: string)
    requires f.name == g.name && Lookup(front, f.name).None?
    ensures Lookup(front + ([f] + behind), f.name) == Some(f)
    ensures Lookup(front + ([g] + behind), name)
      == if name == f.name then Some(g) else Lookup(front + ([f] + behind), name)
  {
    LookupAppend(front, [f] + behind, name);
    LookupAppend(front, [g] + behind, name);
    LookupAppend(front, [f] + behind, f.name);
    LookupAppend([f], behind, name);
    LookupAppend([g], behind, name);
    LookupAppend([f], behind, f.name);
    LookupOne(f, name);
    LookupOne(g, name);
    LookupOne(f, f.name);
  }

  lemma BindStateFinds(fields: seq<Field>, w: Machine, name: string)
    ensures var was, now := Lookup(fields, name), Lookup(BindState(fields, w), name);
      now == if name != "state" then was
             else if was.Some? then Some(Following(was.value, w)) else Some(ManagedState(w))
  {
    hide Lookup, HasField;
    var i := FirstNamed(fields, "state");
    LookupIff(fields, "state");
    if i < |fields| {
      FirstFinds(fields, i, Following(fields[i], w), name);
    } else {
      LookupAppend(fields, [ManagedState(w)], name);
      LookupOne(ManagedState(w), name);
    }
  }

  lemma FirstFinds(fields: seq<Field>, i: nat, g: Field, name: string)
    requires i < |fields| && fields[i].name == g.name && forall j :: 0 <= j < i ==> fields[j].name != g.name
    ensures Lookup(fields, g.name) == Some(fields[i])
    ensures Lookup(fields[i := g], name) == if name == g.name then Some(g) else Lookup(fields, name)
  {
    var front, f, behind := fields[..i], fields[i], fields[i + 1..];
    LookupIff(front, g.name);
    ReplacedFinds(front, f, g, behind, name);
    hide Lookup;
    assert fields == front + ([f] + behind) && fields[i := g] == front + ([g] + behind);
  }

  /** Under every name an entity then has the field it declared, or else that of the first mixin
  that has one, whole; nothing else is added but the state field of a bound machine. */
  lemma FieldsOfPassed(d: Domain, i: nat, name: string)
    requires i < |d.entities|
    ensures var e := d.entities[i]; var was := Lookup(e.fields + MixinFields(e.mixinRefs, d.mixins), name);
      Lookup(RunAll(d).entities[i].fields, name)
        == if name != "state" || MachineOf(d, e).None? then was
           else
             var w := MachineOf(d, e).value;
             if was.None? then Some(Field("state", "string", Text(w.initial), Some(w.states), None))
             else Some(Field("state", was.value.ty,
                             if was.value.default.Truthy() then was.value.default else Text(w.initial),
                             Some(w.states), was.value.reference))
  {
    hide Lookup, MixinMap, MachineMap, AddMixins, BindState;
    var e := d.entities[i];
    ExpandFinds(e, d.mixins, name);
    BindFinds(d, NameTable(Expand(e, MixinMap(d.mixins)), d.multi), name);
    LookupIff(e.fields + MixinFields(e.mixinRefs, d.mixins), name);
  }

  lemma ExpandFinds(e: Entity, ms: seq<Mixin>, name: string)
    ensures var x := Expand(e, MixinMap(ms));
      Lookup(x.fields, name) == Lookup(e.fields + MixinFields(e.mixinRefs, ms), name)
    ensures e.fields <= Expand(e, MixinMap(ms)).fields
  {
    hide Lookup, MixinMap;
    AddMixinsFinds(e.fields, e.mixinRefs, ms, name);
  }

  lemma BindFinds(d: Domain, e: Entity, name: string)
    ensures var fields := Bind(e, MachineMap(d.workflows)).fields;
      if name != "state" || MachineOf(d, e).None? then Lookup(fields, name) == Lookup(e.fields, name)
      else
        var w := MachineOf(d, e).value;
        Lookup(fields, name)
          == Some(if Lookup(e.fields, name).Some? then Following(Lookup(e.fields, name).value, w) else ManagedState(w))
  {
    hide Lookup, MachineMap, BindState;
    if e.workflowRef.Some? {
      MachineMapFinds(d.workflows, e.workflowRef.value);
      if MachineOf(d, e).Some? { BindStateFinds(e.fields, MachineOf(d, e).value, name); }
    }
  }

  lemma BindKeepsPlaces(e: Entity, machines: map<string, Machine>)
    ensures var b := Bind(e, machines);
      |b.fields| >= |e.fields| && forall k :: 0 <= k < |e.fields| ==> b.fields[k].name == e.fields[k].name
  {
  }

  /** An entity's own fields keep their places. */
  lemma PlacesAreKept(d: Domain, i: nat)
    requires i < |d.entities|
    ensures var e, p := d.entities[i], RunAll(d).entities[i];
      |p.fields| >= |e.fields| && forall k :: 0 <= k < |e.fields| ==> p.fields[k].name == e.fields[k].name
  {
    hide MixinMap, MachineMap, AddMixins, Bind, TableName;
    var e := d.entities[i];
    ExpandFinds(e, d.mixins, "");
    BindKeepsPlaces(NameTable(Expand(e, MixinMap(d.mixins)), d.multi), MachineMap(d.workflows));
  }

  /** What identifies an entity stays; its machine becomes that of the workflow it names, if there
  is one. */
  lemma MachineOfPassed(d: Domain, i: nat)
    requires i < |d.entities|
    ensures var e, p := d.entities[i], RunAll(d).entities[i];
      && p.fqn == e.fqn && p.name == e.name && p.domain == e.domain
      && p.mixinRefs == e.mixinRefs && p.workflowRef == e.workflowRef
      && p.machine == (if MachineOf(d, e).Some? then MachineOf(d, e) else e.machine)
  {
    hide MixinMap, MachineMap, AddMixins, BindState, TableName, LastMachine;
    var e := d.entities[i];
    if e.workflowRef.Some? { MachineMapFinds(d.workflows, e.workflowRef.value); }
  }

  /** It says which of the mixins it names were found. */
  lemma MixinsOfPassed(d: Domain, i: nat, ref: string)
    requires i < |d.entities|
    ensures var e, p := d.entities[i], RunAll(d).entities[i];
      if e.mixinRefs == [] then p.mixinsApplied == e.mixinsApplied
      else ref in p.mixinsApplied <==> ref in e.mixinRefs && LastMixin(d.mixins, ref).Some?
  {
    hide MixinMap, MachineMap, AddMixins, BindState, TableName, LastMixin;
    MixinMapFinds(d.mixins, ref);
    AppliedExactly(d.entities[i].mixinRefs, MixinMap(d.mixins), ref);
  }

  lemma {:induction false} AppliedExactly(refs: seq<string>, mixins: map<string, Mixin>, ref: string)
    ensures ref in Applied(refs, mixins) <==> ref in refs && ref in mixins
  {
    if refs != [] {
      AppliedExactly(refs[..|refs| - 1], mixins, ref);
      assert refs == refs[..|refs| - 1] + [refs[|refs| - 1]];
    }
  }

  // ----- Tables and paths -----

  /** A declared table is kept, and every entity has one afterwards. */
  lemma TableIsKept(d: Domain, i: nat)
    requires i < |d.entities|
    ensures var e, p := d.entities[i], RunAll(d).entities[i];
      p.tableName != "" && (e.tableName != "" ==> p.tableName == e.tableName)
  {
    hide MixinMap, MachineMap, AddMixins;
  }

  /** Two tables that the pass names are the same for entities of one name exactly when the build
  has one domain or they are in the same one, and for names of one domain exactly when these
  differ by an `e` that the plural swallows. */
  lemma TablesTellApart(d: Domain, i: nat, j: nat)
    requires i < |d.entities| && j < |d.entities|
    requires d.entities[i].tableName == "" && d.entities[j].tableName == ""
    ensures var a, b := d.entities[i], d.entities[j];
      var same := RunAll(d).entities[i].tableName == RunAll(d).entities[j].tableName;
      && (a.name == b.name ==> (same <==> !d.multi || a.domain == b.domain))
      && (a.name != b.name && (!d.multi || a.domain == b.domain)
          ==> (same <==> NamePieces.Homonym(a.name, b.name) || NamePieces.Homonym(b.name, a.name)))
  {
    hide MixinMap, MachineMap, AddMixins, Pluralize, NamePieces.Homonym;
    var a, b := d.entities[i], d.entities[j];
    assert RunAll(d).entities[i].tableName == TableName(a.name, a.domain, d.multi);
    assert RunAll(d).entities[j].tableName == TableName(b.name, b.domain, d.multi);
    if a.domain != b.domain { NamePieces.TableOfDomain(a.name, a.domain, b.domain); }
    if a.name != b.name { NamePieces.TablesClashExactly(a.name, b.name, a.domain, d.multi); }
  }

  /** A path that is set stays, as does the lack of one where the route has no entity; the path
  of any other route is the plural of its entity's name. */
  lemma PathOfPassed(d: Domain, i: nat, front: string, name: string)
    requires i < |d.routes|
    ensures var r, p := d.routes[i], RunAll(d).routes[i];
      && p.fqn == r.fqn && p.entityFqn == r.entityFqn && p.required == r.required
      && (r.basePath != "" || r.entityFqn == "" ==> p.basePath == r.basePath)
      && (r.basePath == "" && r.entityFqn == front + "/" + name && '/' !in name
          ==> p.basePath == "/" + Pluralize(name))
      && (r.basePath == "" && r.entityFqn == name && name != "" && '/' !in name
          ==> p.basePath == "/" + Pluralize(name))
  {
    hide Pluralize;
    if '/' !in name {
      PartsAppend('/', front, name);
      PartsOfPart('/', name, "");
      hide Parts;
      assert front + ['/'] + name == front + "/" + name;
    }
  }
}
