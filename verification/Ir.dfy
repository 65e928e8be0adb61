/** `forge/ir/model.py`: the part of the IR that the passes rewrite and the validator reads.

The passes share one mutable object graph, so fields, machines, entities and routes are
classes; `View` gives the value an object holds, and all theorems are about values. */
module Ir {
  import opened Collections

  // ----- Values -----

  /** A contract's `default`, which may be anything; only its truth value is ever asked. */
  datatype Value = Nothing | Text(text: string) | Number(number: real) | Flag(flag: bool) | Composite(empty: bool) {
    predicate Truthy() {
      match this
      case Nothing => false
      case Text(text) => text != ""
      case Number(number) => number != 0.0
      case Flag(flag) => flag
      case Composite(empty) => !empty
    }
  }

  datatype Reference = Reference(target: string, display: string)

  datatype Field = Field(
    name: string, ty: string, default: Value, enumValues: Option<seq<string>>, reference: Option<Reference>)

  datatype Guard = Guard(source: string, target: string, requireFields: seq<string>)

  datatype Machine = Machine(
    fqn: string, initial: string, states: seq<string>, transitions: Dict<string, seq<string>>, guards: seq<Guard>)

  datatype Mixin = Mixin(fqn: string, fields: seq<Field>)

  datatype Entity = Entity(
    fqn: string, name: string, domain: string, tableName: string, fields: seq<Field>,
    mixinRefs: seq<string>, mixinsApplied: seq<string>, workflowRef: Option<string>, machine: Option<Machine>)

  datatype Route = Route(fqn: string, entityFqn: string, basePath: string, required: seq<seq<string>>)

  datatype Page = Page(fqn: string, entityFqn: string)

  datatype Domain = Domain(
    multi: bool, entities: seq<Entity>, mixins: seq<Mixin>, workflows: seq<Machine>, pages: seq<Page>,
    routes: seq<Route>)

  predicate HasField(fields: seq<Field>, name: string) {
    exists i :: 0 <= i < |fields| && fields[i].name == name
  }

  /** No two fields of one name, as a contract's `fields` mapping guarantees. */
  ghost predicate UniqueNames(fields: seq<Field>) {
    forall i, j :: 0 <= i < j < |fields| ==> fields[i].name != fields[j].name
  }

  // ----- Objects -----

  /** Where a field points.  No pass writes to one, and a shallow copy of a field shares it. */
  class ReferenceIR {
    const target: string
    const display: string

    constructor (target: string, display: string)
      ensures this.target == target && this.display == display
    {
      this.target, this.display := target, display;
    }
  }

  function ReferenceView(r: ReferenceIR?): Option<Reference> {
    if r == null then None else Some(Reference(r.target, r.display))
  }

  class FieldIR {
    const name: string
    const ty: string
    const reference: ReferenceIR?
    var default: Value
    var enumValues: Option<seq<string>>

    ghost function View(): Field reads this {
      Field(name, ty, default, enumValues, ReferenceView(reference))
    }

    constructor (name: string, ty: string, default: Value, enumValues: Option<seq<string>>,
                 reference: ReferenceIR?)
      ensures View() == Field(name, ty, default, enumValues, ReferenceView(reference))
      ensures this.reference == reference
    {
      this.name, this.ty, this.reference := name, ty, reference;
      this.default, this.enumValues := default, enumValues;
    }

    /** `model_copy()`: a new field, but the same reference object. */
    method Copy() returns (f: FieldIR)
      ensures fresh(f) && f.View() == View() && f.reference == reference
    {
      f := new FieldIR(name, ty, default, enumValues, reference);
    }
  }

  ghost function Views(fields: seq<FieldIR>): (vs: seq<Field>)
    reads fields
    ensures |vs| == |fields| && forall i :: 0 <= i < |fields| ==> vs[i] == fields[i].View()
  {
    if fields == [] then [] else Views(fields[..|fields| - 1]) + [fields[|fields| - 1].View()]
  }

  class StateMachineIR {
    var fqn: string
    var initial: string
    var states: seq<string>
    var transitions: Dict<string, seq<string>>
    var guards: seq<Guard>

    ghost function View(): Machine reads this {
      Machine(fqn, initial, states, transitions, guards)
    }

    constructor (m: Machine)
      ensures View() == m
    {
      fqn, initial, states, transitions, guards := m.fqn, m.initial, m.states, m.transitions, m.guards;
    }

    /** `model_copy(deep=True)` */
    method DeepCopy() returns (m: StateMachineIR)
      ensures fresh(m) && m.View() == View()
    {
      m := new StateMachineIR(Machine(fqn, initial, states, transitions, guards));
    }
  }

  class MixinIR {
    const fqn: string
    const fields: seq<FieldIR>

    constructor (fqn: string, fields: seq<FieldIR>) {
      this.fqn, this.fields := fqn, fields;
    }

    ghost function View(): Mixin reads fields {
      Mixin(fqn, Views(fields))
    }
  }

  class EntityIR {
    const fqn: string
    const name: string
    const domain: string
    const mixinRefs: seq<string>
    const workflowRef: Option<string>
    var tableName: string
    var fields: seq<FieldIR>
    var mixinsApplied: seq<string>
    var machine: StateMachineIR?

    constructor (fqn: string, name: string, domain: string, tableName: string, fields: seq<FieldIR>,
                 mixinRefs: seq<string>, workflowRef: Option<string>)
      ensures this.fields == fields && machine == null
    {
      this.fqn, this.name, this.domain, this.tableName, this.fields := fqn, name, domain, tableName, fields;
      this.mixinRefs, this.workflowRef := mixinRefs, workflowRef;
      mixinsApplied, machine := [], null;
    }

    /** Everything a pass over this entity may write to or graft on. */
    ghost function Parts(): (parts: set<object>)
      reads this
      ensures this in parts && Objects(fields) <= parts && (machine != null ==> machine in parts)
    {
      {this} + Objects(fields) + (if machine == null then {} else {machine})
    }

    /** No field object appears twice. */
    ghost predicate Valid() reads this {
      Distinct(fields)
    }

    /** The reference objects of its fields. */
    ghost function References(): set<ReferenceIR> reads this {
      ReferencesOf(fields)
    }

    ghost function View(): Entity reads this, fields, machine {
      Entity(fqn, name, domain, tableName, Views(fields), mixinRefs, mixinsApplied, workflowRef,
             if machine == null then None else Some(machine.View()))
    }
  }

  class RouteIR {
    const fqn: string
    const entityFqn: string
    const required: seq<seq<string>>
    var basePath: string

    constructor (fqn: string, entityFqn: string, basePath: string, required: seq<seq<string>>) {
      this.fqn, this.entityFqn, this.basePath, this.required := fqn, entityFqn, basePath, required;
    }

    ghost function View(): Route reads this {
      Route(fqn, entityFqn, basePath, required)
    }
  }

  ghost function Objects(fields: seq<FieldIR>): (os: set<object>)
    ensures forall f <- fields :: f in os
  {
    set f | f in fields :: f as object
  }

  ghost function ReferencesOf(fields: seq<FieldIR>): set<ReferenceIR> {
    set f | f in fields && f.reference != null :: f.reference
  }

  ghost function MixinReferences(ms: seq<MixinIR>): set<ReferenceIR> {
    if ms == [] then {} else MixinReferences(ms[..|ms| - 1]) + ReferencesOf(ms[|ms| - 1].fields)
  }

  lemma {:induction false} ReferencesOfMixin(ms: seq<MixinIR>, m: MixinIR)
    requires m in ms
    ensures ReferencesOf(m.fields) <= MixinReferences(ms)
  {
    if m != ms[|ms| - 1] { ReferencesOfMixin(ms[..|ms| - 1], m); }
  }

  ghost function MixinParts(ms: seq<MixinIR>): set<object> {
    if ms == [] then {} else MixinParts(ms[..|ms| - 1]) + Objects(ms[|ms| - 1].fields)
  }

  ghost function MixinViews(ms: seq<MixinIR>): (vs: seq<Mixin>)
    reads MixinParts(ms)
    ensures |vs| == |ms| && forall i :: 0 <= i < |ms| ==> vs[i] == ms[i].View()
  {
    if ms == [] then [] else MixinViews(ms[..|ms| - 1]) + [ms[|ms| - 1].View()]
  }

  ghost function MachineViews(ws: seq<StateMachineIR>): (vs: seq<Machine>)
    reads ws
    ensures |vs| == |ws| && forall i :: 0 <= i < |ws| ==> vs[i] == ws[i].View()
  {
    if ws == [] then [] else MachineViews(ws[..|ws| - 1]) + [ws[|ws| - 1].View()]
  }

  ghost function EntityParts(es: seq<EntityIR>): set<object>
    reads es
  {
    if es == [] then {} else EntityParts(es[..|es| - 1]) + es[|es| - 1].Parts()
  }

  lemma {:induction false} PartsWithin(es: seq<EntityIR>, i: nat)
    requires i < |es|
    ensures es[i].Parts() <= EntityParts(es)
  {
    if i < |es| - 1 { PartsWithin(es[..|es| - 1], i); }
  }

  lemma {:induction false} PartOfSome(es: seq<EntityIR>, o: object)
    requires o in EntityParts(es)
    ensures exists i :: 0 <= i < |es| && o in es[i].Parts()
  {
    if o !in es[|es| - 1].Parts() {
      PartOfSome(es[..|es| - 1], o);
      var i :| 0 <= i < |es| - 1 && o in es[..|es| - 1][i].Parts();
      assert o in es[i].Parts();
    }
  }

  ghost function EntityViews(es: seq<EntityIR>): (vs: seq<Entity>)
    reads es, EntityParts(es)
    ensures |vs| == |es| && forall i :: 0 <= i < |es| ==> vs[i] == es[i].View()
  {
    if es == [] then [] else EntityViews(es[..|es| - 1]) + [es[|es| - 1].View()]
  }

  /** Entities that share no object a pass writes to, with each other or with `shared`. */
  ghost predicate Apart(es: seq<EntityIR>, shared: set<object>)
    reads es
  {
    && (forall i :: 0 <= i < |es| ==> es[i].Valid() && es[i].Parts() !! shared)
    && (forall i, j :: 0 <= i < j < |es| ==> es[i].Parts() !! es[j].Parts())
  }

  ghost function RouteViews(rs: seq<RouteIR>): (vs: seq<Route>)
    reads rs
    ensures |vs| == |rs| && forall i :: 0 <= i < |rs| ==> vs[i] == rs[i].View()
  {
    if rs == [] then [] else RouteViews(rs[..|rs| - 1]) + [rs[|rs| - 1].View()]
  }

  class DomainIR {
    const multi: bool
    const entities: seq<EntityIR>
    const mixins: seq<MixinIR>
    const workflows: seq<StateMachineIR>
    const pages: seq<Page>
    const routes: seq<RouteIR>

    constructor (multi: bool, entities: seq<EntityIR>, mixins: seq<MixinIR>, workflows: seq<StateMachineIR>,
                 pages: seq<Page>, routes: seq<RouteIR>) {
      this.multi, this.entities, this.mixins := multi, entities, mixins;
      this.workflows, this.pages, this.routes := workflows, pages, routes;
    }

    /** What no pass may write to. */
    ghost function Shared(): (shared: set<object>)
      ensures MixinParts(mixins) <= shared && forall w <- workflows :: w in shared
    {
      MixinParts(mixins) + (set w | w in workflows :: w as object)
    }

    /** The compiler makes a new object for everything it compiles. */
    ghost predicate Separate()
      reads entities
    {
      Apart(entities, Shared()) && Distinct(routes)
    }

    ghost function View(): Domain
      reads entities, EntityParts(entities), MixinParts(mixins), workflows, routes
    {
      Domain(multi, EntityViews(entities), MixinViews(mixins), MachineViews(workflows), pages, RouteViews(routes))
    }
  }
}
