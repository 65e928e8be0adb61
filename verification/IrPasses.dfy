/** `forge/ir/passes`: the four in-place passes over the IR, each proved to compute a function
of the IR's value while leaving everything it shares with others alone. */
module IrPasses {
  import opened Collections
  import opened Ir
  import opened Naming
  import opened Splitting

  // ----- What the passes compute -----

  /** `{m.fqn: m for m in ir.mixins}` */
  function MixinMap(ms: seq<Mixin>): map<string, Mixin> {
    if ms == [] then map[] else MixinMap(ms[..|ms| - 1])[ms[|ms| - 1].fqn := ms[|ms| - 1]]
  }

  function MachineMap(ws: seq<Machine>): map<string, Machine> {
    if ws == [] then map[] else MachineMap(ws[..|ws| - 1])[ws[|ws| - 1].fqn := ws[|ws| - 1]]
  }

  function AddField(fields: seq<Field>, f: Field): seq<Field> {
    if HasField(fields, f.name) then fields else fields + [f]
  }

  function AddFields(fields: seq<Field>, more: seq<Field>): seq<Field> {
    if more == [] then fields else AddField(AddFields(fields, more[..|more| - 1]), more[|more| - 1])
  }

  function AddMixins(fields: seq<Field>, refs: seq<string>, mixins: map<string, Mixin>): seq<Field> {
    if refs == [] then fields
    else
      var before, last := AddMixins(fields, refs[..|refs| - 1], mixins), refs[|refs| - 1];
      if last in mixins then AddFields(before, mixins[last].fields) else before
  }

  function Applied(refs: seq<string>, mixins: map<string, Mixin>): seq<string> {
    if refs == [] then []
    else
      var before, last := Applied(refs[..|refs| - 1], mixins), refs[|refs| - 1];
      if last in mixins then before + [last] else before
  }

  function Expand(e: Entity, mixins: map<string, Mixin>): Entity {
    if e.mixinRefs == [] then e
    else e.(fields := AddMixins(e.fields, e.mixinRefs, mixins), mixinsApplied := Applied(e.mixinRefs, mixins))
  }

  function NameTable(e: Entity, multi: bool): Entity {
    if e.tableName != "" then e else e.(tableName := TableName(e.name, e.domain, multi))
  }

  /** `next((f for f in entity.fields if f.name == "state"), None)`, as an index. */
  function FirstNamed(fields: seq<Field>, name: string): (i: nat)
    ensures i <= |fields| && forall j :: 0 <= j < i ==> fields[j].name != name
    ensures i < |fields| ==> fields[i].name == name
    ensures i < |fields| <==> HasField(fields, name)
  {
    if fields == [] then 0
    else
      var i := FirstNamed(fields[..|fields| - 1], name);
      assert HasField(fields[..|fields| - 1], name) ==> HasField(fields, name);
      if i < |fields| - 1 then i else if fields[|fields| - 1].name == name then |fields| - 1 else |fields|
  }

  function ManagedState(w: Machine): Field {
    Field("state", "string", Text(w.initial), Some(w.states), None)
  }

  function Following(f: Field, w: Machine): Field {
    f.(enumValues := Some(w.states), default := if f.default.Truthy() then f.default else Text(w.initial))
  }

  function BindState(fields: seq<Field>, w: Machine): seq<Field> {
    var i := FirstNamed(fields, "state");
    if i < |fields| then fields[i := Following(fields[i], w)] else fields + [ManagedState(w)]
  }

  predicate Binds(e: Entity, machines: map<string, Machine>) {
    e.workflowRef.Some? && e.workflowRef.value != "" && e.workflowRef.value in machines
  }

  function Bind(e: Entity, machines: map<string, Machine>): Entity {
    if !Binds(e, machines) then e
    else
      var w := machines[e.workflowRef.value];
      e.(fields := BindState(e.fields, w), machine := Some(w))
  }

  /** `fqn.split("/")[-1]` */
  function LastSegment(fqn: string): string {
    var parts := Parts('/', fqn);
    parts[|parts| - 1]
  }

  function NamePath(r: Route): Route {
    if r.basePath != "" || r.entityFqn == "" then r
    else r.(basePath := "/" + Pluralize(LastSegment(r.entityFqn)))
  }

  function Passed(d: Domain, e: Entity): Entity {
    Bind(NameTable(Expand(e, MixinMap(d.mixins)), d.multi), MachineMap(d.workflows))
  }

  /** `run_all_passes` */
  function RunAll(d: Domain): Domain {
    d.(entities := seq(|d.entities|, i requires 0 <= i < |d.entities| => Passed(d, d.entities[i])),
       routes := seq(|d.routes|, i requires 0 <= i < |d.routes| => NamePath(d.routes[i])))
  }

  // ----- The passes themselves -----

  lemma {:induction false} PartsOfMixin(ms: seq<MixinIR>, m: MixinIR)
    requires m in ms
    ensures Objects(m.fields) <= MixinParts(ms)
  {
    if m != ms[|ms| - 1] { PartsOfMixin(ms[..|ms| - 1], m); }
  }

  /** The objects found by name hold the values found by name. */
  ghost predicate MirrorsMixins(ms: seq<MixinIR>, found: map<string, MixinIR>, values: map<string, Mixin>)
    reads MixinParts(ms)
  {
    && found.Keys == values.Keys
    && forall k <- found :: found[k] in ms && (PartsOfMixin(ms, found[k]); found[k].View() == values[k])
  }

  lemma NoMirrors(ms: seq<MixinIR>)
    ensures MirrorsMixins(ms, map[], map[])
  {
  }

  lemma MirrorsOneMore(ms: seq<MixinIR>, i: nat, found: map<string, MixinIR>, values: map<string, Mixin>)
    requires i < |ms| && MirrorsMixins(ms, found, values)
    ensures MirrorsMixins(ms, found[ms[i].fqn := ms[i]], values[ms[i].fqn := (PartsOfMixin(ms, ms[i]); ms[i].View())])
  {
    hide Views, MixinIR.View;
  }

  method LookupMixins(mixins: seq<MixinIR>) returns (found: map<string, MixinIR>)
    ensures MirrorsMixins(mixins, found, MixinMap(MixinViews(mixins)))
  {
    hide MirrorsMixins;
    found := map[];
    ghost var views := MixinViews(mixins);
    assert MirrorsMixins(mixins, map[], map[]) by { NoMirrors(mixins); }
    for i := 0 to |mixins|
      invariant MirrorsMixins(mixins, found, MixinMap(views[..i]))
    {
      assert views[..i + 1][..i] == views[..i];
      MirrorsOneMore(mixins, i, found, MixinMap(views[..i]));
      found := found[mixins[i].fqn := mixins[i]];
    }
    assert views[..|mixins|] == views;
    assert MixinViews(mixins) == views;
  }

  lemma ViewsAppend(fields: seq<FieldIR>, f: FieldIR)
    ensures Views(fields + [f]) == Views(fields) + [f.View()]
  {
    assert (fields + [f])[..|fields|] == fields;
  }

  ghost predicate NamesOf(names: set<string>, fields: seq<Field>) {
    forall n :: n in names <==> HasField(fields, n)
  }

  lemma AddKnown(names: set<string>, fields: seq<Field>, f: Field)
    requires NamesOf(names, fields)
    ensures AddField(fields, f) == if f.name in names then fields else fields + [f]
    ensures NamesOf(names + {f.name}, AddField(fields, f))
  {
    var more := fields + [f];
    assert more[|fields|] == f;
    forall n ensures HasField(more, n) <==> HasField(fields, n) || n == f.name {
      if HasField(fields, n) {
        var i :| 0 <= i < |fields| && fields[i].name == n;
        assert more[i].name == n;
      }
    }
  }

  lemma DistinctAppend<T>(s: seq<T>, x: T)
    requires Distinct(s) && x !in s
    ensures Distinct(s + [x])
  {
  }

  /** A copy of `g` with the very reference object `g` has. */
  ghost predicate SharesWith(f: FieldIR, g: FieldIR) {
    f.name == g.name && f.ty == g.ty && f.reference == g.reference
  }

  /** Every field from position `from` on shares its reference object with one of `sources`. */
  ghost predicate Grafted(fields: seq<FieldIR>, from: nat, sources: seq<FieldIR>) {
    forall i :: from <= i < |fields| ==> exists g :: g in sources && SharesWith(fields[i], g)
  }

  lemma GraftedReferences(fields: seq<FieldIR>, more: seq<FieldIR>, sources: seq<FieldIR>)
    requires fields <= more && Grafted(more, |fields|, sources)
    ensures ReferencesOf(fields) <= ReferencesOf(more) <= ReferencesOf(fields) + ReferencesOf(sources)
  {
    assert forall f <- fields :: f in more;
    forall r | r in ReferencesOf(more) ensures r in ReferencesOf(fields) + ReferencesOf(sources) {
      var i :| 0 <= i < |more| && more[i].reference == r;
      if i < |fields| { assert more[i] == fields[i]; }
    }
  }

  method AddOne(e: EntityIR, field: FieldIR, known: set<string>) returns (names: set<string>)
    requires e.Valid() && NamesOf(known, Views(e.fields))
    modifies e`fields
    ensures e.Valid() && old(e.fields) <= e.fields
    ensures forall i :: |old(e.fields)| <= i < |e.fields| ==> fresh(e.fields[i]) && SharesWith(e.fields[i], field)
    ensures Views(e.fields) == AddField(old(Views(e.fields)), old(field.View()))
    ensures NamesOf(names, Views(e.fields))
  {
    hide NamesOf, AddField, HasField, Distinct, Views;
    AddKnown(known, Views(e.fields), field.View());
    names := known + {field.name};
    if field.name in known {
      assert names == known;
    } else {
      var copy := field.Copy();
      ViewsAppend(e.fields, copy);
      DistinctAppend(e.fields, copy);
      e.fields := e.fields + [copy];
    }
  }

  /** The inner loop of `expand_mixins`: graft copies of one mixin's fields. */
  method AddMixin(e: EntityIR, mixin: MixinIR, known: set<string>) returns (names: set<string>)
    requires e.Valid() && NamesOf(known, Views(e.fields))
    modifies e`fields
    ensures e.Valid() && old(e.fields) <= e.fields && forall i :: |old(e.fields)| <= i < |e.fields| ==> fresh(e.fields[i])
    ensures Grafted(e.fields, |old(e.fields)|, mixin.fields)
    ensures Views(e.fields) == AddFields(old(Views(e.fields)), old(mixin.View().fields))
    ensures NamesOf(names, Views(e.fields))
  {
    hide NamesOf, AddField, HasField, Distinct, Views;
    names := known;
    ghost var more := Views(mixin.fields);
    for j := 0 to |mixin.fields|
      invariant e.Valid() && old(e.fields) <= e.fields && forall i :: |old(e.fields)| <= i < |e.fields| ==> fresh(e.fields[i])
      invariant Grafted(e.fields, |old(e.fields)|, mixin.fields)
      invariant Views(e.fields) == AddFields(old(Views(e.fields)), more[..j])
      invariant NamesOf(names, Views(e.fields))
    {
      assert more[..j + 1][..j] == more[..j];
      ghost var before := e.fields;
      names := AddOne(e, mixin.fields[j], names);
      forall i | |old(e.fields)| <= i < |e.fields|
        ensures exists g :: g in mixin.fields && SharesWith(e.fields[i], g)
      {
        if i < |before| {
          assert e.fields[i] == before[i];
        } else {
          assert SharesWith(e.fields[i], mixin.fields[j]) && mixin.fields[j] in mixin.fields;
        }
      }
    }
    assert more[..|more|] == more;
  }

  method Names(fields: seq<FieldIR>) returns (names: set<string>)
    ensures NamesOf(names, Views(fields))
  {
    ghost var views := Views(fields);
    names := {};
    for i := 0 to |fields|
      invariant NamesOf(names, views[..i])
    {
      assert views[..i + 1] == views[..i] + [views[i]];
      names := names + {fields[i].name};
      forall n ensures HasField(views[..i + 1], n) <==> HasField(views[..i], n) || n == views[i].name {
        if HasField(views[..i], n) { assert views[..i + 1][FirstNamed(views[..i], n)].name == n; }
        assert views[..i + 1][i].name == views[i].name;
      }
    }
    assert views[..|fields|] == views;
  }

  /** One turn of `expand_mixins`. */
  method ExpandEntity(e: EntityIR, ms: seq<MixinIR>, found: map<string, MixinIR>, ghost values: map<string, Mixin>)
    requires e.Valid() && e !in MixinParts(ms) && MirrorsMixins(ms, found, values)
    modifies e`fields, e`mixinsApplied
    ensures e.Valid() && forall o <- e.Parts() :: o in old(e.Parts()) || fresh(o)
    ensures e.View() == Expand(old(e.View()), values) && MirrorsMixins(ms, found, values)
    ensures old(e.References()) <= e.References() <= old(e.References()) + MixinReferences(ms)
  {
    hide NamesOf, Distinct, Views, ReferencesOf, Grafted;
    if e.mixinRefs == [] { return; }
    var names := Names(e.fields);
    var applied := [];
    for j := 0 to |e.mixinRefs|
      invariant e.Valid() && old(e.fields) <= e.fields && MirrorsMixins(ms, found, values)
      invariant forall i :: |old(e.fields)| <= i < |e.fields| ==> fresh(e.fields[i])
      invariant Views(e.fields) == AddMixins(old(Views(e.fields)), e.mixinRefs[..j], values)
      invariant NamesOf(names, Views(e.fields)) && applied == Applied(e.mixinRefs[..j], values)
      invariant old(e.References()) <= e.References() <= old(e.References()) + MixinReferences(ms)
    {
      var ref := e.mixinRefs[j];
      assert e.mixinRefs[..j + 1][..j] == e.mixinRefs[..j];
      if ref in found {
        ghost var before := e.fields;
        names := AddMixin(e, found[ref], names);
        GraftedReferences(before, e.fields, found[ref].fields);
        ReferencesOfMixin(ms, found[ref]);
        applied := applied + [ref];
      }
    }
    assert e.mixinRefs[..|e.mixinRefs|] == e.mixinRefs;
    assert forall i :: 0 <= i < |old(e.fields)| ==> e.fields[i] == old(e.fields)[i];
    e.mixinsApplied := applied;
  }

  method FindField(fields: seq<FieldIR>, name: string) returns (i: nat)
    ensures i == FirstNamed(Views(fields), name)
  {
    i := 0;
    while i < |fields| && fields[i].name != name
      invariant i <= |fields| && forall j :: 0 <= j < i ==> Views(fields)[j].name != name
    {
      i := i + 1;
    }
    var k := FirstNamed(Views(fields), name);
    assert i < |fields| ==> Views(fields)[i].name == name;
  }

  method Follow(existing: FieldIR, w: StateMachineIR)
    modifies existing
    ensures existing.View() == Following(old(existing.View()), w.View())
  {
    existing.enumValues := Some(w.states);
    if !existing.default.Truthy() {
      existing.default := Text(w.initial);
    }
  }

  method FollowAt(fields: seq<FieldIR>, i: nat, w: StateMachineIR)
    requires Distinct(fields) && i < |fields|
    modifies fields[i]
    ensures Views(fields) == old(Views(fields))[i := Following(old(Views(fields))[i], w.View())]
  {
    hide Views, Following;
    ghost var before := Views(fields);
    Follow(fields[i], w);
    assert forall k :: 0 <= k < |fields| && k != i ==> fields[k].View() == before[k];
  }

  /** The end of `bind_state_machines`: the entity's `state` field follows the workflow. */
  method EnsureState(e: EntityIR, w: StateMachineIR)
    requires e.Valid()
    modifies e`fields, Objects(e.fields)
    ensures e.Valid() && old(e.fields) <= e.fields
    ensures forall i :: |old(e.fields)| <= i < |e.fields| ==> fresh(e.fields[i])
    ensures Views(e.fields) == BindState(old(Views(e.fields)), w.View())
    ensures e.References() == old(e.References())
  {
    hide Views, Following, FirstNamed, Distinct;
    var i := FindField(e.fields, "state");
    if i < |e.fields| {
      FollowAt(e.fields, i, w);
    } else {
      var managed := new FieldIR("state", "string", Text(w.initial), Some(w.states), null);
      ViewsAppend(e.fields, managed);
      DistinctAppend(e.fields, managed);
      e.fields := e.fields + [managed];
    }
  }

  ghost predicate MirrorsMachines(ws: seq<StateMachineIR>, found: map<string, StateMachineIR>,
                                  values: map<string, Machine>)
    reads ws
  {
    && found.Keys == values.Keys
    && forall k <- found :: found[k] in ws && found[k].View() == values[k]
  }

  method LookupMachines(ws: seq<StateMachineIR>) returns (found: map<string, StateMachineIR>)
    ensures MirrorsMachines(ws, found, MachineMap(MachineViews(ws)))
  {
    found := map[];
    ghost var views := MachineViews(ws);
    for i := 0 to |ws|
      invariant MirrorsMachines(ws, found, MachineMap(views[..i]))
    {
      assert views[..i + 1][..i] == views[..i];
      found := found[ws[i].fqn := ws[i]];
    }
    assert views[..|ws|] == views;
  }

  /** One turn of `bind_state_machines`. */
  method BindEntity(e: EntityIR, ws: seq<StateMachineIR>, found: map<string, StateMachineIR>,
                    ghost values: map<string, Machine>)
    requires e.Valid() && MirrorsMachines(ws, found, values)
    modifies e`fields, e`machine, Objects(e.fields)
    ensures e.Valid() && forall o <- e.Parts() :: o in old(e.Parts()) || fresh(o)
    ensures e.View() == Bind(old(e.View()), values) && MirrorsMachines(ws, found, values)
    ensures e.References() == old(e.References())
  {
    hide Views, BindState, Distinct, ReferencesOf;
    if e.workflowRef.None? || e.workflowRef.value == "" || e.workflowRef.value !in found { return; }
    var w := found[e.workflowRef.value];
    assert w.View() == values[e.workflowRef.value];
    var copy := w.DeepCopy();
    EnsureState(e, w);
    assert forall i :: 0 <= i < |old(e.fields)| ==> e.fields[i] == old(e.fields)[i];
    e.machine := copy;
  }

  ghost function PartsList(es: seq<EntityIR>): (parts: seq<set<object>>)
    reads es
    ensures |parts| == |es| && forall i :: 0 <= i < |es| ==> parts[i] == es[i].Parts()
  {
    if es == [] then [] else PartsList(es[..|es| - 1]) + [es[|es| - 1].Parts()]
  }

  /** Grafting new objects on one entity keeps entities apart. */
  lemma StillApart(es: seq<EntityIR>, shared: set<object>, was: seq<set<object>>, i: nat)
    requires i < |es| == |was|
    requires forall j :: 0 <= j < |was| ==> was[j] !! shared
    requires forall j, k :: 0 <= j < k < |was| ==> was[j] !! was[k]
    requires forall j :: 0 <= j < |es| && j != i ==> es[j].Parts() == was[j]
    requires forall j :: 0 <= j < |es| ==> es[j].Valid()
    requires (es[i].Parts() - was[i]) !! shared
    requires forall j :: 0 <= j < |es| ==> (es[i].Parts() - was[i]) !! was[j]
    ensures Apart(es, shared)
  {
    hide EntityIR.Valid, EntityIR.Parts;
    forall j | 0 <= j < |es| && j != i ensures es[i].Parts() !! es[j].Parts() {
      assert was[i] !! was[j];
    }
  }

  lemma {:induction false} MixinPartsExist(ms: seq<MixinIR>)
    ensures forall o <- MixinParts(ms) :: allocated(o)
  {
    if ms != [] { MixinPartsExist(ms[..|ms| - 1]); }
  }

  lemma AllExist(ir: DomainIR, parts: seq<set<object>>)
    requires parts == PartsList(ir.entities)
    ensures forall o <- ir.Shared() :: allocated(o)
    ensures forall j, o :: 0 <= j < |parts| && o in parts[j] ==> allocated(o)
  {
    MixinPartsExist(ir.mixins);
    forall j, o | 0 <= j < |parts| && o in parts[j] ensures allocated(o) {
      assert o in ir.entities[j].Parts();
    }
  }

  ghost function ReferenceList(es: seq<EntityIR>): (refs: seq<set<ReferenceIR>>)
    reads es
    ensures |refs| == |es| && forall i :: 0 <= i < |es| ==> refs[i] == es[i].References()
  {
    if es == [] then [] else ReferenceList(es[..|es| - 1]) + [es[|es| - 1].References()]
  }

  /** Every entity has the reference objects it had, and beyond those only ones of mixin fields. */
  ghost predicate OnlyMixinReferences(ir: DomainIR, was: seq<set<ReferenceIR>>)
    reads ir.entities
  {
    Grown(was, ReferenceList(ir.entities), MixinReferences(ir.mixins))
  }

  ghost predicate Grown(was: seq<set<ReferenceIR>>, now: seq<set<ReferenceIR>>, extra: set<ReferenceIR>) {
    |was| == |now| && forall j :: 0 <= j < |was| ==> was[j] <= now[j] <= was[j] + extra
  }

  lemma GrownMore(a: seq<set<ReferenceIR>>, b: seq<set<ReferenceIR>>, c: seq<set<ReferenceIR>>,
                  extra: set<ReferenceIR>)
    requires Grown(a, b, extra) && Grown(b, c, extra)
    ensures Grown(a, c, extra)
  {
  }

  lemma NotGrown(a: seq<set<ReferenceIR>>, extra: set<ReferenceIR>)
    ensures Grown(a, a, extra)
  {
  }

  /** One entity has grown. */
  lemma GrownAt(es: seq<EntityIR>, was: seq<set<ReferenceIR>>, i: nat, extra: set<ReferenceIR>)
    requires i < |es| == |was|
    requires forall j :: 0 <= j < |es| && j != i ==> es[j].References() == was[j]
    requires was[i] <= es[i].References() <= was[i] + extra
    ensures Grown(was, ReferenceList(es), extra)
  {
    hide EntityIR.References;
  }

  lemma NoneTwice(ir: DomainIR)
    requires ir.Separate()
    ensures Distinct(ir.entities)
  {
    hide EntityIR.Parts, DomainIR.Shared;
    forall i, j | 0 <= i < j < |ir.entities| ensures ir.entities[i] != ir.entities[j] {
      assert ir.entities[i] in ir.entities[i].Parts() && ir.entities[j] in ir.entities[j].Parts();
    }
  }

  lemma SameReferences(es: seq<EntityIR>, was: seq<set<ReferenceIR>>)
    requires |es| == |was| && forall j :: 0 <= j < |es| ==> es[j].References() == was[j]
    ensures ReferenceList(es) == was
  {
  }

  /** So two entities that had none in common share no reference objects but those of mixin
  fields. */
  lemma SharedReferences(ir: DomainIR, was: seq<set<ReferenceIR>>, i: nat, j: nat)
    requires OnlyMixinReferences(ir, was) && i < |was| && j < |was| && was[i] !! was[j]
    requires was[i] !! MixinReferences(ir.mixins) && was[j] !! MixinReferences(ir.mixins)
    ensures ir.entities[i].References() * ir.entities[j].References() <= MixinReferences(ir.mixins)
  {
  }

  method ExpandAt(ir: DomainIR, i: nat, found: map<string, MixinIR>, ghost values: map<string, Mixin>)
    requires ir.Separate() && i < |ir.entities| && MirrorsMixins(ir.mixins, found, values)
    modifies ir.entities[i]
    ensures ir.Separate() && MirrorsMixins(ir.mixins, found, values)
    ensures ir.entities[i].View() == Expand(old(ir.entities[i].View()), values)
    ensures MixinViews(ir.mixins) == old(MixinViews(ir.mixins))
    ensures forall j, o :: 0 <= j < |ir.entities| && o in ir.entities[j].Parts() ==>
      o in old(ir.entities[j].Parts()) || fresh(o)
    ensures forall j :: 0 <= j < |ir.entities| && j != i ==> ir.entities[j].View() == old(ir.entities[j].View())
    ensures OnlyMixinReferences(ir, old(ReferenceList(ir.entities)))
  {
    hide MirrorsMixins, Expand, EntityIR.Parts, EntityIR.Valid, Views, DomainIR.Shared;
    hide ReferencesOf, Grown, MixinReferences;
    ghost var was := PartsList(ir.entities);
    ghost var refs := ReferenceList(ir.entities);
    NoneTwice(ir);
    AllExist(ir, was);
    ExpandEntity(ir.entities[i], ir.mixins, found, values);
    GrownAt(ir.entities, refs, i, MixinReferences(ir.mixins));
    StillApart(ir.entities, ir.Shared(), was, i);
  }

  method ExpandMixins(ir: DomainIR)
    requires ir.Separate()
    modifies ir.entities
    ensures ir.Separate() && MixinViews(ir.mixins) == old(MixinViews(ir.mixins))
    ensures forall j, o :: 0 <= j < |ir.entities| && o in ir.entities[j].Parts() ==>
      o in old(ir.entities[j].Parts()) || fresh(o)
    ensures forall j :: 0 <= j < |ir.entities| ==>
      ir.entities[j].View() == Expand(old(ir.entities[j].View()), MixinMap(MixinViews(ir.mixins)))
    ensures OnlyMixinReferences(ir, old(ReferenceList(ir.entities)))
  {
    hide MirrorsMixins, Expand, Views, MixinMap, DomainIR.Separate, EntityIR.View, EntityIR.Parts;
    hide EntityIR.References, MixinReferences, ReferenceList, Grown;
    ghost var refs := ReferenceList(ir.entities);
    NotGrown(refs, MixinReferences(ir.mixins));
    var found := LookupMixins(ir.mixins);
    ghost var values := MixinMap(MixinViews(ir.mixins));
    for i := 0 to |ir.entities|
      invariant ir.Separate() && MirrorsMixins(ir.mixins, found, values)
      invariant MixinViews(ir.mixins) == old(MixinViews(ir.mixins))
      invariant forall j, o :: 0 <= j < |ir.entities| && o in ir.entities[j].Parts() ==>
        o in old(ir.entities[j].Parts()) || fresh(o)
      invariant forall j :: 0 <= j < i ==> ir.entities[j].View() == Expand(old(ir.entities[j].View()), values)
      invariant OnlyMixinReferences(ir, refs)
      invariant forall j :: i <= j < |ir.entities| ==> ir.entities[j].View() == old(ir.entities[j].View())
    {
      ghost var before := ReferenceList(ir.entities);
      ExpandAt(ir, i, found, values);
      GrownMore(refs, before, ReferenceList(ir.entities), MixinReferences(ir.mixins));
    }
  }

  method NameOne(e: EntityIR, multi: bool)
    modifies e`tableName
    ensures e.View() == NameTable(old(e.View()), multi)
  {
    if e.tableName == "" {
      e.tableName := TableName(e.name, e.domain, multi);
    }
  }

  method NameAt(ir: DomainIR, i: nat)
    requires ir.Separate() && i < |ir.entities|
    modifies ir.entities[i]
    ensures ir.Separate()
    ensures forall j :: 0 <= j < |ir.entities| ==> ir.entities[j].Parts() == old(ir.entities[j].Parts())
    ensures ReferenceList(ir.entities) == old(ReferenceList(ir.entities))
    ensures ir.entities[i].View() == NameTable(old(ir.entities[i].View()), ir.multi)
    ensures forall j :: 0 <= j < |ir.entities| && j != i ==> ir.entities[j].View() == old(ir.entities[j].View())
  {
    hide NameTable, Views, DomainIR.Shared, MixinViews;
    NameOne(ir.entities[i], ir.multi);
    assert forall j :: 0 <= j < |ir.entities| && j != i ==> ir.entities[j] != ir.entities[i];
  }

  method InferTableNames(ir: DomainIR)
    requires ir.Separate()
    modifies ir.entities
    ensures ir.Separate()
    ensures forall j :: 0 <= j < |ir.entities| ==> ir.entities[j].Parts() == old(ir.entities[j].Parts())
    ensures forall j :: 0 <= j < |ir.entities| ==>
      ir.entities[j].View() == NameTable(old(ir.entities[j].View()), ir.multi)
    ensures ReferenceList(ir.entities) == old(ReferenceList(ir.entities))
  {
    hide NameTable, Views, DomainIR.Separate, EntityIR.View, EntityIR.Parts, EntityIR.References;
    for i := 0 to |ir.entities|
      invariant ir.Separate()
      invariant forall j :: 0 <= j < |ir.entities| ==> ir.entities[j].Parts() == old(ir.entities[j].Parts())
      invariant forall j :: 0 <= j < i ==> ir.entities[j].View() == NameTable(old(ir.entities[j].View()), ir.multi)
      invariant ReferenceList(ir.entities) == old(ReferenceList(ir.entities))
      invariant forall j :: i <= j < |ir.entities| ==> ir.entities[j].View() == old(ir.entities[j].View())
    {
      NameAt(ir, i);
    }
  }

  method BindAt(ir: DomainIR, i: nat, found: map<string, StateMachineIR>, ghost values: map<string, Machine>)
    requires ir.Separate() && i < |ir.entities| && MirrorsMachines(ir.workflows, found, values)
    modifies ir.entities[i], Objects(ir.entities[i].fields)
    ensures ir.Separate() && MirrorsMachines(ir.workflows, found, values)
    ensures ir.entities[i].View() == Bind(old(ir.entities[i].View()), values)
    ensures MixinViews(ir.mixins) == old(MixinViews(ir.mixins))
    ensures MachineViews(ir.workflows) == old(MachineViews(ir.workflows))
    ensures forall j, o :: 0 <= j < |ir.entities| && o in ir.entities[j].Parts() ==>
      o in old(ir.entities[j].Parts()) || fresh(o)
    ensures forall j :: 0 <= j < |ir.entities| && j != i ==> ir.entities[j].View() == old(ir.entities[j].View())
    ensures ReferenceList(ir.entities) == old(ReferenceList(ir.entities))
  {
    hide MirrorsMachines, Bind, EntityIR.Parts, EntityIR.Valid, Views, DomainIR.Shared, ReferencesOf;
    ghost var was := PartsList(ir.entities);
    ghost var refs := ReferenceList(ir.entities);
    NoneTwice(ir);
    AllExist(ir, was);
    BindEntity(ir.entities[i], ir.workflows, found, values);
    SameReferences(ir.entities, refs);
    StillApart(ir.entities, ir.Shared(), was, i);
  }

  method BindStateMachines(ir: DomainIR)
    requires ir.Separate()
    modifies ir.entities, EntityParts(ir.entities)
    ensures ir.Separate() && MixinViews(ir.mixins) == old(MixinViews(ir.mixins))
    ensures MachineViews(ir.workflows) == old(MachineViews(ir.workflows))
    ensures forall j, o :: 0 <= j < |ir.entities| && o in ir.entities[j].Parts() ==>
      o in old(ir.entities[j].Parts()) || fresh(o)
    ensures forall j :: 0 <= j < |ir.entities| ==>
      ir.entities[j].View() == Bind(old(ir.entities[j].View()), MachineMap(MachineViews(ir.workflows)))
    ensures ReferenceList(ir.entities) == old(ReferenceList(ir.entities))
  {
    hide MirrorsMachines, Bind, Views, MachineMap, DomainIR.Separate, EntityIR.View, EntityIR.Parts, EntityIR.References;
    forall j | 0 <= j < |ir.entities|
      ensures ir.entities[j].Parts() <= EntityParts(ir.entities)
    {
      PartsWithin(ir.entities, j);
    }
    var found := LookupMachines(ir.workflows);
    ghost var values := MachineMap(MachineViews(ir.workflows));
    for i := 0 to |ir.entities|
      invariant ir.Separate() && MirrorsMachines(ir.workflows, found, values)
      invariant MixinViews(ir.mixins) == old(MixinViews(ir.mixins))
      invariant MachineViews(ir.workflows) == old(MachineViews(ir.workflows))
      invariant forall j, o :: 0 <= j < |ir.entities| && o in ir.entities[j].Parts() ==>
        o in old(ir.entities[j].Parts()) || fresh(o)
      invariant forall j :: 0 <= j < i ==> ir.entities[j].View() == Bind(old(ir.entities[j].View()), values)
      invariant ReferenceList(ir.entities) == old(ReferenceList(ir.entities))
      invariant forall j :: i <= j < |ir.entities| ==> ir.entities[j].View() == old(ir.entities[j].View())
    {
      assert Objects(ir.entities[i].fields) <= ir.entities[i].Parts();
      BindAt(ir, i, found, values);
    }
  }

  method NamePathOf(r: RouteIR)
    modifies r
    ensures r.View() == NamePath(old(r.View()))
  {
    if r.basePath != "" || r.entityFqn == "" { return; }
    r.basePath := "/" + Pluralize(LastSegment(r.entityFqn));
  }

  method InferBasePaths(ir: DomainIR)
    requires Distinct(ir.routes)
    modifies ir.routes
    ensures forall j :: 0 <= j < |ir.routes| ==> ir.routes[j].View() == NamePath(old(ir.routes[j].View()))
  {
    hide NamePath;
    for i := 0 to |ir.routes|
      invariant forall j :: 0 <= j < i ==> ir.routes[j].View() == NamePath(old(ir.routes[j].View()))
      invariant forall j :: i <= j < |ir.routes| ==> ir.routes[j].View() == old(ir.routes[j].View())
    {
      NamePathOf(ir.routes[i]);
    }
  }

  method RunEntityPasses(ir: DomainIR)
    requires ir.Separate()
    modifies ir.entities, EntityParts(ir.entities)
    ensures ir.Separate()
    ensures MixinViews(ir.mixins) == old(MixinViews(ir.mixins))
    ensures MachineViews(ir.workflows) == old(MachineViews(ir.workflows))
    ensures forall j :: 0 <= j < |ir.entities| ==>
      ir.entities[j].View() == Passed(old(ir.View()), old(ir.entities[j].View()))
    ensures OnlyMixinReferences(ir, old(ReferenceList(ir.entities)))
  {
    hide Expand, NameTable, Bind, Views, MixinMap, MachineMap, DomainIR.Separate, EntityIR.View, EntityIR.Parts;
    hide EntityIR.References, ReferenceList, MixinReferences, Grown, ReferencesOf;
    ghost var all := EntityParts(ir.entities);
    forall j | 0 <= j < |ir.entities|
      ensures ir.entities[j].Parts() <= all
    {
      PartsWithin(ir.entities, j);
    }
    ExpandMixins(ir);
    InferTableNames(ir);
    forall o: object | o in EntityParts(ir.entities) ensures o in all || fresh(o) {
      PartOfSome(ir.entities, o);
    }
    BindStateMachines(ir);
  }

  lemma {:induction false} NoRouteIn(es: seq<EntityIR>, r: RouteIR)
    ensures r !in EntityParts(es)
  {
    if es != [] { NoRouteIn(es[..|es| - 1], r); }
  }

  lemma RunAllIs(d: Domain, es: seq<Entity>, rs: seq<Route>)
    requires |es| == |d.entities| && forall j :: 0 <= j < |es| ==> es[j] == Passed(d, d.entities[j])
    requires |rs| == |d.routes| && forall j :: 0 <= j < |rs| ==> rs[j] == NamePath(d.routes[j])
    ensures RunAll(d) == d.(entities := es, routes := rs)
  {
    hide Passed, NamePath;
    assert RunAll(d).entities == es;
    assert RunAll(d).routes == rs;
  }

  /** No machine object is shared by two entities or with the list of workflows. */
  ghost predicate PrivateMachines(ir: DomainIR)
    reads ir.entities
  {
    && (forall e <- ir.entities :: e.machine != null ==> e.machine !in ir.workflows)
    && (forall i, j :: 0 <= i < j < |ir.entities| && ir.entities[i].machine != null ==>
          ir.entities[i].machine != ir.entities[j].machine)
  }

  lemma SeparateMachines(ir: DomainIR)
    requires ir.Separate()
    ensures PrivateMachines(ir)
  {
    hide EntityIR.Parts, DomainIR.Shared;
    forall e | e in ir.entities && e.machine != null ensures e.machine !in ir.workflows {
      var i :| 0 <= i < |ir.entities| && ir.entities[i] == e;
      assert e.machine in ir.entities[i].Parts();
    }
    forall i, j | 0 <= i < j < |ir.entities| && ir.entities[i].machine != null
      ensures ir.entities[i].machine != ir.entities[j].machine
    {
      assert ir.entities[i].machine in ir.entities[i].Parts();
    }
  }

  /** Routes share nothing with entities. */
  method InferPathsLast(ir: DomainIR)
    requires ir.Separate()
    modifies ir.routes
    ensures ir.Separate()
    ensures EntityViews(ir.entities) == old(EntityViews(ir.entities))
    ensures MixinViews(ir.mixins) == old(MixinViews(ir.mixins))
    ensures MachineViews(ir.workflows) == old(MachineViews(ir.workflows))
    ensures ReferenceList(ir.entities) == old(ReferenceList(ir.entities))
    ensures forall j :: 0 <= j < |ir.routes| ==> ir.routes[j].View() == NamePath(old(ir.routes[j].View()))
  {
    hide NamePath, Views, EntityIR.View, DomainIR.Shared, Apart, ReferenceList, EntityIR.References;
    forall r | r in ir.routes ensures r !in EntityParts(ir.entities) { NoRouteIn(ir.entities, r); }
    InferBasePaths(ir);
  }

  /** `run_all_passes`: the IR afterwards is a function of the IR before; mixins and workflows
  are as they were; and every bound machine is an object of its own. */
  method RunAllPasses(ir: DomainIR)
    requires ir.Separate()
    modifies ir.entities, EntityParts(ir.entities), ir.routes
    ensures ir.Separate() && PrivateMachines(ir)
    ensures ir.View() == RunAll(old(ir.View()))
    ensures OnlyMixinReferences(ir, old(ReferenceList(ir.entities)))
  {
    hide Passed, NamePath, RunAll, Views, EntityIR.View, PrivateMachines, DomainIR.Shared, Apart;
    hide OnlyMixinReferences, ReferenceList, EntityIR.References, ReferencesOf, Grown, MixinReferences;
    hide DomainIR.Separate;
    ghost var was := ir.View();
    forall r | r in ir.routes ensures r !in EntityParts(ir.entities) { NoRouteIn(ir.entities, r); }
    RunEntityPasses(ir);
    assert RouteViews(ir.routes) == was.routes;
    InferPathsLast(ir);
    RunAllIs(was, EntityViews(ir.entities), RouteViews(ir.routes));
    SeparateMachines(ir);
  }
}
