/** `forge/ir/semantic.py`: the validator that runs after the passes.

Every check is a loop that appends to `errors`, and is proved to report exactly the errors
its predicate describes, no more and no fewer. */
module Semantics {
  import opened Ir
  import opened Naming
  import opened IrPasses

  datatype Kind = TableNames | ClassNames | ModuleNames

  datatype Issue =
    | MissingMixin(ref: string)
    | MixinType(ref: string, field: string)
    | MissingWorkflow(ref: string)
    | MissingTarget(field: string)
    | MissingDisplay(field: string)
    | GuardField(source: string, target: string, field: string)
    | InitialUndeclared
    | SourceUndeclared(source: string)
    | TargetUndeclared(source: string, target: string)
    | GuardTransition(source: string, target: string)
    | PageEntity(ref: string)
    | RouteEntity(ref: string)
    | RouteField(endpoint: nat, field: string)
    | ClaimedTwice(kind: Kind, name: string)

  datatype SemanticError = SemanticError(contract: string, issue: Issue)

  /** `{e.fqn: e for e in ir.entities}` */
  function EntityMap(es: seq<Entity>): map<string, Entity> {
    if es == [] then map[] else EntityMap(es[..|es| - 1])[es[|es| - 1].fqn := es[|es| - 1]]
  }

  /** `{f.name: f for f in entity.fields}` */
  function FieldMap(fields: seq<Field>): map<string, Field> {
    if fields == [] then map[] else FieldMap(fields[..|fields| - 1])[fields[|fields| - 1].name := fields[|fields| - 1]]
  }

  /** The lookup tables of `validate_semantics`. */
  datatype Tables = Tables(entities: map<string, Entity>, mixins: map<string, Mixin>, workflows: map<string, Machine>)

  function TablesOf(d: Domain): Tables {
    Tables(EntityMap(d.entities), MixinMap(d.mixins), MachineMap(d.workflows))
  }

  // ----- Which errors there are -----

  predicate MixinMissing(t: Tables, e: Entity, k: int, x: SemanticError) {
    && 0 <= k < |e.mixinRefs| && e.mixinRefs[k] !in t.mixins
    && x == SemanticError(e.fqn, MissingMixin(e.mixinRefs[k]))
  }

  predicate MixinClash(e: Entity, ref: string, fields: seq<Field>, j: int, x: SemanticError) {
    && 0 <= j < |fields|
    && var declared := FieldMap(e.fields);
    && fields[j].name in declared && declared[fields[j].name].ty != fields[j].ty
    && x == SemanticError(e.fqn, MixinType(ref, fields[j].name))
  }

  ghost predicate ClashWithMixin(t: Tables, e: Entity, k: int, x: SemanticError) {
    && 0 <= k < |e.mixinRefs| && e.mixinRefs[k] in t.mixins
    && var fields := t.mixins[e.mixinRefs[k]].fields;
    exists j :: MixinClash(e, e.mixinRefs[k], fields, j, x)
  }

  predicate WorkflowMissing(t: Tables, e: Entity, x: SemanticError) {
    && e.workflowRef.Some? && e.workflowRef.value != "" && e.workflowRef.value !in t.workflows
    && x == SemanticError(e.fqn, MissingWorkflow(e.workflowRef.value))
  }

  predicate ReferenceBroken(t: Tables, e: Entity, k: int, x: SemanticError) {
    && 0 <= k < |e.fields| && e.fields[k].reference.Some?
    && var ref := e.fields[k].reference.value;
    && ref.target != ""
    && (if ref.target !in t.entities then x == SemanticError(e.fqn, MissingTarget(e.fields[k].name))
        else !HasField(t.entities[ref.target].fields, ref.display)
             && x == SemanticError(e.fqn, MissingDisplay(e.fields[k].name)))
  }

  predicate GuardNeeds(e: Entity, g: Guard, j: int, x: SemanticError) {
    && 0 <= j < |g.requireFields| && !HasField(e.fields, g.requireFields[j])
    && x == SemanticError(e.fqn, GuardField(g.source, g.target, g.requireFields[j]))
  }

  ghost predicate GuardBroken(e: Entity, guards: seq<Guard>, k: int, x: SemanticError) {
    0 <= k < |guards| && exists j :: GuardNeeds(e, guards[k], j, x)
  }

  function GuardsOf(e: Entity): seq<Guard> {
    if e.machine.None? then [] else e.machine.value.guards
  }

  ghost predicate EntityError(t: Tables, e: Entity, x: SemanticError) {
    || (exists k :: MixinMissing(t, e, k, x))
    || (exists k :: ClashWithMixin(t, e, k, x))
    || WorkflowMissing(t, e, x)
    || (exists k :: ReferenceBroken(t, e, k, x))
    || (exists k :: GuardBroken(e, GuardsOf(e), k, x))
  }

  /** `{(source, target) ...}` */
  predicate Declares(w: Machine, source: string, target: string) {
    source in w.transitions.at && target in w.transitions.at[source]
  }

  predicate TargetBroken(w: Machine, source: string, targets: seq<string>, j: int, x: SemanticError) {
    && 0 <= j < |targets| && targets[j] !in w.states
    && x == SemanticError(w.fqn, TargetUndeclared(source, targets[j]))
  }

  ghost predicate TransitionBroken(w: Machine, k: int, x: SemanticError) {
    && 0 <= k < |w.transitions.keys|
    && var source := w.transitions.keys[k];
    || (source !in w.states && x == SemanticError(w.fqn, SourceUndeclared(source)))
    || (exists j :: TargetBroken(w, source, w.transitions.Get(source, []), j, x))
  }

  predicate GuardUndeclared(w: Machine, k: int, x: SemanticError) {
    && 0 <= k < |w.guards| && !Declares(w, w.guards[k].source, w.guards[k].target)
    && x == SemanticError(w.fqn, GuardTransition(w.guards[k].source, w.guards[k].target))
  }

  ghost predicate WorkflowError(w: Machine, x: SemanticError) {
    || (w.initial !in w.states && x == SemanticError(w.fqn, InitialUndeclared))
    || (exists k :: TransitionBroken(w, k, x))
    || (exists k :: GuardUndeclared(w, k, x))
  }

  predicate PageError(t: Tables, p: Page, x: SemanticError) {
    p.entityFqn != "" && p.entityFqn !in t.entities && x == SemanticError(p.fqn, PageEntity(p.entityFqn))
  }

  predicate EndpointNeeds(r: Route, e: Entity, n: nat, j: int, x: SemanticError)
    requires n < |r.required|
  {
    && 0 <= j < |r.required[n]| && !HasField(e.fields, r.required[n][j])
    && x == SemanticError(r.fqn, RouteField(n, r.required[n][j]))
  }

  ghost predicate EndpointBroken(r: Route, e: Entity, n: int, x: SemanticError) {
    0 <= n < |r.required| && exists j :: EndpointNeeds(r, e, n, j, x)
  }

  ghost predicate RouteError(t: Tables, r: Route, x: SemanticError) {
    if r.entityFqn in t.entities then exists n :: EndpointBroken(r, t.entities[r.entityFqn], n, x)
    else r.entityFqn != "" && x == SemanticError(r.fqn, RouteEntity(r.entityFqn))
  }

  /** What each generator names after an entity. */
  function Derived(u: Unicode, multi: bool, kind: Kind, e: Entity): string {
    match kind
    case TableNames => e.tableName
    case ClassNames => ClassName(e.name, e.domain, multi)
    case ModuleNames => ModuleSlug(u, e.name, e.domain, multi)
  }

  ghost predicate ClaimError(u: Unicode, d: Domain, kind: Kind, j: int, x: SemanticError) {
    && 0 <= j < |d.entities|
    && var name := Derived(u, d.multi, kind, d.entities[j]);
    && (exists i :: 0 <= i < j && Derived(u, d.multi, kind, d.entities[i]) == name)
    && x == SemanticError(d.entities[j].fqn, ClaimedTwice(kind, name))
  }

  ghost predicate DomainError(u: Unicode, d: Domain, x: SemanticError) {
    var t := TablesOf(d);
    || (exists i :: 0 <= i < |d.entities| && EntityError(t, d.entities[i], x))
    || (exists i :: 0 <= i < |d.workflows| && WorkflowError(d.workflows[i], x))
    || (exists i :: 0 <= i < |d.pages| && PageError(t, d.pages[i], x))
    || (exists kind, j :: ClaimError(u, d, kind, j, x))
    || (exists i :: 0 <= i < |d.routes| && RouteError(t, d.routes[i], x))
  }

  // ----- The checks -----

  method CheckMixinsExist(t: Tables, e: Entity) returns (errors: seq<SemanticError>)
    ensures forall x :: x in errors <==> exists k :: MixinMissing(t, e, k, x)
  {
    errors := [];
    for i := 0 to |e.mixinRefs|
      invariant forall x <- errors :: exists k :: MixinMissing(t, e, k, x)
      invariant forall k, x :: k < i && MixinMissing(t, e, k, x) ==> x in errors
    {
      if e.mixinRefs[i] !in t.mixins {
        var x := SemanticError(e.fqn, MissingMixin(e.mixinRefs[i]));
        assert MixinMissing(t, e, i, x);
        errors := errors + [x];
      }
    }
  }

  method CheckMixinTypes(e: Entity, declared: map<string, Field>, ref: string, fields: seq<Field>)
    returns (errors: seq<SemanticError>)
    requires declared == FieldMap(e.fields)
    ensures forall x :: x in errors <==> exists j :: MixinClash(e, ref, fields, j, x)
  {
    errors := [];
    for i := 0 to |fields|
      invariant forall x <- errors :: exists j :: MixinClash(e, ref, fields, j, x)
      invariant forall j, x :: j < i && MixinClash(e, ref, fields, j, x) ==> x in errors
    {
      if fields[i].name in declared && declared[fields[i].name].ty != fields[i].ty {
        var x := SemanticError(e.fqn, MixinType(ref, fields[i].name));
        assert MixinClash(e, ref, fields, i, x);
        errors := errors + [x];
      }
    }
  }

  /** `_validate_mixin_field_conflicts` */
  method CheckMixinConflicts(t: Tables, e: Entity) returns (errors: seq<SemanticError>)
    ensures forall x :: x in errors <==> exists k :: ClashWithMixin(t, e, k, x)
  {
    var declared := FieldMap(e.fields);
    errors := [];
    for i := 0 to |e.mixinRefs|
      invariant forall x <- errors :: exists k :: ClashWithMixin(t, e, k, x)
      invariant forall k, x :: k < i && ClashWithMixin(t, e, k, x) ==> x in errors
    {
      if e.mixinRefs[i] in t.mixins {
        var more := CheckMixinTypes(e, declared, e.mixinRefs[i], t.mixins[e.mixinRefs[i]].fields);
        assert forall x <- more :: ClashWithMixin(t, e, i, x);
        errors := errors + more;
      }
    }
  }

  method CheckReferences(t: Tables, e: Entity) returns (errors: seq<SemanticError>)
    ensures forall x :: x in errors <==> exists k :: ReferenceBroken(t, e, k, x)
  {
    errors := [];
    for i := 0 to |e.fields|
      invariant forall x <- errors :: exists k :: ReferenceBroken(t, e, k, x)
      invariant forall k, x :: k < i && ReferenceBroken(t, e, k, x) ==> x in errors
    {
      var field := e.fields[i];
      if field.reference.None? || field.reference.value.target == "" { continue; }
      var ref := field.reference.value;
      if ref.target !in t.entities {
        var x := SemanticError(e.fqn, MissingTarget(field.name));
        assert ReferenceBroken(t, e, i, x);
        errors := errors + [x];
      } else if !HasField(t.entities[ref.target].fields, ref.display) {
        var x := SemanticError(e.fqn, MissingDisplay(field.name));
        assert ReferenceBroken(t, e, i, x);
        errors := errors + [x];
      }
    }
  }

  method CheckGuardFields(e: Entity, g: Guard) returns (errors: seq<SemanticError>)
    ensures forall x :: x in errors <==> exists j :: GuardNeeds(e, g, j, x)
  {
    errors := [];
    for i := 0 to |g.requireFields|
      invariant forall x <- errors :: exists j :: GuardNeeds(e, g, j, x)
      invariant forall j, x :: j < i && GuardNeeds(e, g, j, x) ==> x in errors
    {
      if !HasField(e.fields, g.requireFields[i]) {
        var x := SemanticError(e.fqn, GuardField(g.source, g.target, g.requireFields[i]));
        assert GuardNeeds(e, g, i, x);
        errors := errors + [x];
      }
    }
  }

  method CheckGuards(e: Entity, guards: seq<Guard>) returns (errors: seq<SemanticError>)
    ensures forall x :: x in errors <==> exists k :: GuardBroken(e, guards, k, x)
  {
    errors := [];
    for i := 0 to |guards|
      invariant forall x <- errors :: exists k :: GuardBroken(e, guards, k, x)
      invariant forall k, x :: k < i && GuardBroken(e, guards, k, x) ==> x in errors
    {
      var more := CheckGuardFields(e, guards[i]);
      assert forall x <- more :: GuardBroken(e, guards, i, x);
      errors := errors + more;
    }
  }

  method CheckMachine(e: Entity) returns (errors: seq<SemanticError>)
    ensures forall x :: x in errors <==> exists k :: GuardBroken(e, GuardsOf(e), k, x)
  {
    errors := [];
    assert GuardsOf(e) == if e.machine.Some? then e.machine.value.guards else [];
    if e.machine.Some? {
      errors := CheckGuards(e, e.machine.value.guards);
    }
  }

  /** `_validate_entity_semantics` */
  method ValidateEntity(t: Tables, e: Entity) returns (errors: seq<SemanticError>)
    ensures forall x :: x in errors <==> EntityError(t, e, x)
  {
    hide MixinMissing, ClashWithMixin, ReferenceBroken, GuardBroken;
    var missing := CheckMixinsExist(t, e);
    var clashes := CheckMixinConflicts(t, e);
    var unbound := [];
    if e.workflowRef.Some? && e.workflowRef.value != "" && e.workflowRef.value !in t.workflows {
      unbound := [SemanticError(e.fqn, MissingWorkflow(e.workflowRef.value))];
    }
    var dangling := CheckReferences(t, e);
    var guards := CheckMachine(e);
    errors := missing + clashes + unbound + dangling + guards;
  }

  method CheckTargets(w: Machine, source: string, targets: seq<string>) returns (errors: seq<SemanticError>)
    ensures forall x :: x in errors <==> exists j :: TargetBroken(w, source, targets, j, x)
  {
    errors := [];
    for i := 0 to |targets|
      invariant forall x <- errors :: exists j :: TargetBroken(w, source, targets, j, x)
      invariant forall j, x :: j < i && TargetBroken(w, source, targets, j, x) ==> x in errors
    {
      if targets[i] !in w.states {
        var x := SemanticError(w.fqn, TargetUndeclared(source, targets[i]));
        assert TargetBroken(w, source, targets, i, x);
        errors := errors + [x];
      }
    }
  }

  method CheckTransitions(w: Machine) returns (errors: seq<SemanticError>)
    ensures forall x :: x in errors <==> exists k :: TransitionBroken(w, k, x)
  {
    errors := [];
    for i := 0 to |w.transitions.keys|
      invariant forall x <- errors :: exists k :: TransitionBroken(w, k, x)
      invariant forall k, x :: k < i && TransitionBroken(w, k, x) ==> x in errors
    {
      var source := w.transitions.keys[i];
      var more := CheckTargets(w, source, w.transitions.Get(source, []));
      if source !in w.states {
        more := [SemanticError(w.fqn, SourceUndeclared(source))] + more;
      }
      assert forall x :: x in more <==> TransitionBroken(w, i, x);
      errors := errors + more;
    }
  }

  method CheckGuardTransitions(w: Machine) returns (errors: seq<SemanticError>)
    ensures forall x :: x in errors <==> exists k :: GuardUndeclared(w, k, x)
  {
    errors := [];
    for i := 0 to |w.guards|
      invariant forall x <- errors :: exists k :: GuardUndeclared(w, k, x)
      invariant forall k, x :: k < i && GuardUndeclared(w, k, x) ==> x in errors
    {
      var g := w.guards[i];
      if !Declares(w, g.source, g.target) {
        var x := SemanticError(w.fqn, GuardTransition(g.source, g.target));
        assert GuardUndeclared(w, i, x);
        errors := errors + [x];
      }
    }
  }

  /** `_validate_workflow_semantics` */
  method ValidateWorkflow(w: Machine) returns (errors: seq<SemanticError>)
    ensures forall x :: x in errors <==> WorkflowError(w, x)
  {
    hide TransitionBroken, GuardUndeclared;
    var start := [];
    if w.initial !in w.states {
      start := [SemanticError(w.fqn, InitialUndeclared)];
    }
    var moves := CheckTransitions(w);
    var guards := CheckGuardTransitions(w);
    errors := start + moves + guards;
  }

  /** One `_check` of `_validate_identifier_uniqueness`, with its `claims` dictionary. */
  method CheckClaims(u: Unicode, d: Domain, kind: Kind) returns (errors: seq<SemanticError>)
    ensures forall x :: x in errors <==> exists j :: ClaimError(u, d, kind, j, x)
  {
    hide Derived;
    var claims: map<string, string> := map[];
    errors := [];
    for i := 0 to |d.entities|
      invariant forall v :: v in claims <==> exists k :: 0 <= k < i && Derived(u, d.multi, kind, d.entities[k]) == v
      invariant forall x <- errors :: exists j :: ClaimError(u, d, kind, j, x)
      invariant forall j, x :: j < i && ClaimError(u, d, kind, j, x) ==> x in errors
    {
      var e := d.entities[i];
      var value := Derived(u, d.multi, kind, e);
      if value in claims {
        var x := SemanticError(e.fqn, ClaimedTwice(kind, value));
        assert ClaimError(u, d, kind, i, x);
        errors := errors + [x];
      } else {
        claims := claims[value := e.fqn];
      }
    }
  }

  method CheckEndpoint(r: Route, e: Entity, n: nat) returns (errors: seq<SemanticError>)
    requires n < |r.required|
    ensures forall x :: x in errors <==> exists j :: EndpointNeeds(r, e, n, j, x)
  {
    errors := [];
    for i := 0 to |r.required[n]|
      invariant forall x <- errors :: exists j :: EndpointNeeds(r, e, n, j, x)
      invariant forall j, x :: j < i && EndpointNeeds(r, e, n, j, x) ==> x in errors
    {
      if !HasField(e.fields, r.required[n][i]) {
        var x := SemanticError(r.fqn, RouteField(n, r.required[n][i]));
        assert EndpointNeeds(r, e, n, i, x);
        errors := errors + [x];
      }
    }
  }

  method CheckEndpoints(r: Route, e: Entity) returns (errors: seq<SemanticError>)
    ensures forall x :: x in errors <==> exists n :: EndpointBroken(r, e, n, x)
  {
    errors := [];
    for i := 0 to |r.required|
      invariant forall x <- errors :: exists n :: EndpointBroken(r, e, n, x)
      invariant forall n, x :: n < i && EndpointBroken(r, e, n, x) ==> x in errors
    {
      var more := CheckEndpoint(r, e, i);
      assert forall x <- more :: EndpointBroken(r, e, i, x);
      errors := errors + more;
    }
  }

  method CheckRoute(t: Tables, r: Route) returns (errors: seq<SemanticError>)
    ensures forall x :: x in errors <==> RouteError(t, r, x)
  {
    errors := [];
    if r.entityFqn in t.entities {
      errors := CheckEndpoints(r, t.entities[r.entityFqn]);
    } else if r.entityFqn != "" {
      errors := [SemanticError(r.fqn, RouteEntity(r.entityFqn))];
    }
  }

  method ValidateEntities(t: Tables, es: seq<Entity>) returns (errors: seq<SemanticError>)
    ensures forall x :: x in errors <==> exists i :: 0 <= i < |es| && EntityError(t, es[i], x)
  {
    hide EntityError;
    errors := [];
    for i := 0 to |es|
      invariant forall x <- errors :: exists k :: 0 <= k < |es| && EntityError(t, es[k], x)
      invariant forall k, x :: 0 <= k < i && EntityError(t, es[k], x) ==> x in errors
    {
      var more := ValidateEntity(t, es[i]);
      errors := errors + more;
    }
  }

  method ValidateWorkflows(ws: seq<Machine>) returns (errors: seq<SemanticError>)
    ensures forall x :: x in errors <==> exists i :: 0 <= i < |ws| && WorkflowError(ws[i], x)
  {
    hide WorkflowError;
    errors := [];
    for i := 0 to |ws|
      invariant forall x <- errors :: exists k :: 0 <= k < |ws| && WorkflowError(ws[k], x)
      invariant forall k, x :: 0 <= k < i && WorkflowError(ws[k], x) ==> x in errors
    {
      var more := ValidateWorkflow(ws[i]);
      errors := errors + more;
    }
  }

  method ValidatePages(t: Tables, ps: seq<Page>) returns (errors: seq<SemanticError>)
    ensures forall x :: x in errors <==> exists i :: 0 <= i < |ps| && PageError(t, ps[i], x)
  {
    errors := [];
    for i := 0 to |ps|
      invariant forall x <- errors :: exists k :: 0 <= k < |ps| && PageError(t, ps[k], x)
      invariant forall k, x :: 0 <= k < i && PageError(t, ps[k], x) ==> x in errors
    {
      if ps[i].entityFqn != "" && ps[i].entityFqn !in t.entities {
        var x := SemanticError(ps[i].fqn, PageEntity(ps[i].entityFqn));
        assert PageError(t, ps[i], x);
        errors := errors + [x];
      }
    }
  }

  method ValidateRoutes(t: Tables, rs: seq<Route>) returns (errors: seq<SemanticError>)
    ensures forall x :: x in errors <==> exists i :: 0 <= i < |rs| && RouteError(t, rs[i], x)
  {
    hide RouteError;
    errors := [];
    for i := 0 to |rs|
      invariant forall x <- errors :: exists k :: 0 <= k < |rs| && RouteError(t, rs[k], x)
      invariant forall k, x :: 0 <= k < i && RouteError(t, rs[k], x) ==> x in errors
    {
      var more := CheckRoute(t, rs[i]);
      errors := errors + more;
    }
  }

  /** `_validate_identifier_uniqueness` */
  method ValidateIdentifiers(u: Unicode, d: Domain) returns (errors: seq<SemanticError>)
    ensures forall x :: x in errors <==> exists kind, j :: ClaimError(u, d, kind, j, x)
  {
    hide ClaimError;
    var tables := CheckClaims(u, d, TableNames);
    var classes := CheckClaims(u, d, ClassNames);
    var modules := CheckClaims(u, d, ModuleNames);
    errors := tables + classes + modules;
    forall kind: Kind, j, x | ClaimError(u, d, kind, j, x) ensures x in errors {
      match kind case TableNames => case ClassNames => case ModuleNames =>
    }
  }

  /** `validate_semantics`: exactly the errors there are. */
  method ValidateSemantics(u: Unicode, d: Domain) returns (errors: seq<SemanticError>)
    ensures forall x :: x in errors <==> DomainError(u, d, x)
  {
    hide EntityError, WorkflowError, PageError, RouteError, ClaimError, TablesOf;
    var t := TablesOf(d);
    var entities := ValidateEntities(t, d.entities);
    var workflows := ValidateWorkflows(d.workflows);
    var pages := ValidatePages(t, d.pages);
    var identifiers := ValidateIdentifiers(u, d);
    var routes := ValidateRoutes(t, d.routes);
    errors := entities + workflows + pages + identifiers + routes;
  }
}
