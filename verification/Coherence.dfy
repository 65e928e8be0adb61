/** What an empty list of semantic errors means once the passes have run. */
module Coherence {
  import opened Collections
  import opened Ir
  import opened Naming
  import opened IrPasses
  import opened IrPassLaws
  import opened Semantics

  // ----- The theorem's conclusion -----

  /** Every field of the mixin is on the entity, with the mixin's type. */
  ghost predicate HasShape(e: Entity, m: Mixin) {
    forall f <- m.fields :: exists g <- e.fields :: g.name == f.name && g.ty == f.ty
  }

  ghost predicate ReferencesResolve(t: Tables, e: Entity) {
    forall f <- e.fields :: f.reference.Some? && f.reference.value.target != "" ==>
      && f.reference.value.target in t.entities
      && HasField(t.entities[f.reference.value.target].fields, f.reference.value.display)
  }

  ghost predicate GuardsReadRealFields(e: Entity) {
    forall g <- GuardsOf(e) :: forall n <- g.requireFields :: HasField(e.fields, n)
  }

  ghost predicate EntityCoherent(t: Tables, e: Entity) {
    && (forall ref <- e.mixinRefs :: ref in t.mixins && HasShape(e, t.mixins[ref]))
    && (e.workflowRef.Some? && e.workflowRef.value != "" ==> e.workflowRef.value in t.workflows)
    && ReferencesResolve(t, e)
    && GuardsReadRealFields(e)
  }

  /** Only declared states, and guards on declared transitions. */
  ghost predicate MachineSound(w: Machine) {
    && w.initial in w.states
    && (forall source <- w.transitions.at :: source in w.states
          && forall target <- w.transitions.at[source] :: target in w.states)
    && (forall g <- w.guards :: Declares(w, g.source, g.target))
  }

  ghost predicate RouteCoherent(t: Tables, r: Route) {
    if r.entityFqn in t.entities then
      forall fields <- r.required :: forall n <- fields :: HasField(t.entities[r.entityFqn].fields, n)
    else r.entityFqn == ""
  }

  /** No two entities get the same table, class or module. */
  ghost predicate NamesAreInjective(u: Unicode, d: Domain) {
    forall kind, i, j :: 0 <= i < j < |d.entities| ==>
      Derived(u, d.multi, kind, d.entities[i]) != Derived(u, d.multi, kind, d.entities[j])
  }

  ghost predicate Coherent(u: Unicode, d: Domain) {
    var t := TablesOf(d);
    && (forall e <- d.entities :: EntityCoherent(t, e))
    && (forall w <- d.workflows :: MachineSound(w))
    && (forall p <- d.pages :: p.entityFqn == "" || p.entityFqn in t.entities)
    && (forall r <- d.routes :: RouteCoherent(t, r))
    && NamesAreInjective(u, d)
  }

  // ----- One check at a time -----

  lemma {:induction false} FieldMapAt(fields: seq<Field>)
    requires UniqueNames(fields)
    ensures forall i :: 0 <= i < |fields| ==> fields[i].name in FieldMap(fields)
    ensures forall i :: 0 <= i < |fields| ==> FieldMap(fields)[fields[i].name] == fields[i]
    ensures forall n :: n in FieldMap(fields) ==> HasField(fields, n)
  {
    if fields != [] {
      FieldMapAt(fields[..|fields| - 1]);
      forall n | n in FieldMap(fields) ensures HasField(fields, n) {
        if n == fields[|fields| - 1].name { assert fields[|fields| - 1].name == n; }
        else { HasFieldPrefix(fields[..|fields| - 1], fields, n); }
      }
    }
  }

  lemma ShapeIffNoClash(e: Entity, ref: string, m: Mixin)
    requires UniqueNames(e.fields) && Carries(e.fields, m.fields)
    ensures HasShape(e, m) <==> forall j, x :: !MixinClash(e, ref, m.fields, j, x)
  {
    FieldMapAt(e.fields);
    if HasShape(e, m) {
      forall j, x ensures !MixinClash(e, ref, m.fields, j, x) {
        if 0 <= j < |m.fields| {
          assert m.fields[j] in m.fields;
          var g :| g in e.fields && g.name == m.fields[j].name && g.ty == m.fields[j].ty;
        }
      }
    }
    if forall j, x :: !MixinClash(e, ref, m.fields, j, x) {
      forall f | f in m.fields ensures exists g <- e.fields :: g.name == f.name && g.ty == f.ty {
        var j :| 0 <= j < |m.fields| && m.fields[j] == f;
        assert !MixinClash(e, ref, m.fields, j, SemanticError(e.fqn, MixinType(ref, f.name)));
        var i :| 0 <= i < |e.fields| && e.fields[i].name == f.name;
        assert e.fields[i] in e.fields;
      }
    }
  }

  lemma ClashIff(t: Tables, e: Entity, k: int)
    requires 0 <= k < |e.mixinRefs| && e.mixinRefs[k] in t.mixins
    ensures (forall x :: !ClashWithMixin(t, e, k, x))
      <==> forall j, x :: !MixinClash(e, e.mixinRefs[k], t.mixins[e.mixinRefs[k]].fields, j, x)
  {
    hide MixinClash;
    if forall x :: !ClashWithMixin(t, e, k, x) {
      forall j, x ensures !MixinClash(e, e.mixinRefs[k], t.mixins[e.mixinRefs[k]].fields, j, x) {
        assert !ClashWithMixin(t, e, k, x);
      }
    }
  }

  lemma NotInRange(t: Tables, e: Entity, k: int, x: SemanticError)
    ensures MixinMissing(t, e, k, x) || ClashWithMixin(t, e, k, x) ==> 0 <= k < |e.mixinRefs|
    ensures ClashWithMixin(t, e, k, x) ==> e.mixinRefs[k] in t.mixins
  {
  }

  lemma MixinsIff(t: Tables, e: Entity)
    requires UniqueNames(e.fields) && CarriesMixins(e.fields, e.mixinRefs, t.mixins)
    ensures (forall ref <- e.mixinRefs :: ref in t.mixins && HasShape(e, t.mixins[ref]))
      <==> (forall k, x :: !MixinMissing(t, e, k, x) && !ClashWithMixin(t, e, k, x))
  {
    hide UniqueNames, Carries, MixinClash, HasShape, ClashWithMixin;
    forall k | 0 <= k < |e.mixinRefs| && e.mixinRefs[k] in t.mixins
      ensures HasShape(e, t.mixins[e.mixinRefs[k]]) <==> forall x :: !ClashWithMixin(t, e, k, x)
    {
      ClashIff(t, e, k);
      ShapeIffNoClash(e, e.mixinRefs[k], t.mixins[e.mixinRefs[k]]);
    }
    forall k | 0 <= k < |e.mixinRefs|
      ensures e.mixinRefs[k] in t.mixins <==> forall x :: !MixinMissing(t, e, k, x)
    {
      assert e.mixinRefs[k] !in t.mixins ==> MixinMissing(t, e, k, SemanticError(e.fqn, MissingMixin(e.mixinRefs[k])));
    }
    if forall k, x :: !MixinMissing(t, e, k, x) && !ClashWithMixin(t, e, k, x) {
      forall ref | ref in e.mixinRefs ensures ref in t.mixins && HasShape(e, t.mixins[ref]) {
        var k :| 0 <= k < |e.mixinRefs| && e.mixinRefs[k] == ref;
      }
    }
    if forall ref <- e.mixinRefs :: ref in t.mixins && HasShape(e, t.mixins[ref]) {
      forall k, x ensures !MixinMissing(t, e, k, x) && !ClashWithMixin(t, e, k, x) { NotInRange(t, e, k, x); }
    }
  }

  lemma ReferencesIff(t: Tables, e: Entity)
    ensures ReferencesResolve(t, e) <==> forall k, x :: !ReferenceBroken(t, e, k, x)
  {
    if forall k, x :: !ReferenceBroken(t, e, k, x) {
      forall f | f in e.fields && f.reference.Some? && f.reference.value.target != ""
        ensures f.reference.value.target in t.entities
        ensures HasField(t.entities[f.reference.value.target].fields, f.reference.value.display)
      {
        var k :| 0 <= k < |e.fields| && e.fields[k] == f;
        assert !ReferenceBroken(t, e, k, SemanticError(e.fqn, MissingTarget(f.name)));
        assert !ReferenceBroken(t, e, k, SemanticError(e.fqn, MissingDisplay(f.name)));
      }
    }
  }

  lemma GuardsIff(e: Entity)
    ensures GuardsReadRealFields(e) <==> forall k, x :: !GuardBroken(e, GuardsOf(e), k, x)
  {
    var guards := GuardsOf(e);
    if forall k, x :: !GuardBroken(e, guards, k, x) {
      forall g, n | g in guards && n in g.requireFields ensures HasField(e.fields, n) {
        var k :| 0 <= k < |guards| && guards[k] == g;
        var j :| 0 <= j < |g.requireFields| && g.requireFields[j] == n;
        var x := SemanticError(e.fqn, GuardField(g.source, g.target, n));
        if !HasField(e.fields, n) {
          assert GuardNeeds(e, g, j, x);
          assert GuardBroken(e, guards, k, x);
        }
      }
    }
  }

  lemma EntityIff(t: Tables, e: Entity)
    requires UniqueNames(e.fields) && CarriesMixins(e.fields, e.mixinRefs, t.mixins)
    ensures EntityCoherent(t, e) <==> forall x :: !EntityError(t, e, x)
  {
    hide UniqueNames, CarriesMixins, HasShape, ReferencesResolve, GuardsReadRealFields, MixinMissing,
      ClashWithMixin, ReferenceBroken, GuardBroken, GuardsOf;
    MixinsIff(t, e);
    ReferencesIff(t, e);
    GuardsIff(e);
    assert (e.workflowRef.Some? && e.workflowRef.value != "" ==> e.workflowRef.value in t.workflows)
      <==> forall x :: !WorkflowMissing(t, e, x) by {
      if e.workflowRef.Some? && e.workflowRef.value != "" && e.workflowRef.value !in t.workflows {
        assert WorkflowMissing(t, e, SemanticError(e.fqn, MissingWorkflow(e.workflowRef.value)));
      }
    }
    if forall x :: !EntityError(t, e, x) {
      forall k, x ensures !MixinMissing(t, e, k, x) && !ClashWithMixin(t, e, k, x) { assert !EntityError(t, e, x); }
      forall k, x ensures !ReferenceBroken(t, e, k, x) { assert !EntityError(t, e, x); }
      forall k, x ensures !GuardBroken(e, GuardsOf(e), k, x) { assert !EntityError(t, e, x); }
      forall x ensures !WorkflowMissing(t, e, x) { assert !EntityError(t, e, x); }
    }
  }

  lemma SourcesIff(w: Machine)
    requires w.transitions.Ok()
    ensures (forall source <- w.transitions.at :: source in w.states
               && forall target <- w.transitions.at[source] :: target in w.states)
      <==> forall k, x :: !TransitionBroken(w, k, x)
  {
    forall k | 0 <= k < |w.transitions.keys| ensures w.transitions.keys[k] in w.transitions.at {
      assert w.transitions.keys[k] in Elements(w.transitions.keys);
    }
    if forall k, x :: !TransitionBroken(w, k, x) {
      forall source | source in w.transitions.at
        ensures source in w.states && forall target <- w.transitions.at[source] :: target in w.states
      {
        assert source in Elements(w.transitions.keys);
        var k :| 0 <= k < |w.transitions.keys| && w.transitions.keys[k] == source;
        assert !TransitionBroken(w, k, SemanticError(w.fqn, SourceUndeclared(source)));
        var targets := w.transitions.at[source];
        forall target | target in targets ensures target in w.states {
          var j :| 0 <= j < |targets| && targets[j] == target;
          var x := SemanticError(w.fqn, TargetUndeclared(source, target));
          assert !TransitionBroken(w, k, x);
          assert !TargetBroken(w, source, w.transitions.Get(source, []), j, x);
        }
      }
    }
  }

  lemma GuardedIff(w: Machine)
    ensures (forall g <- w.guards :: Declares(w, g.source, g.target)) <==> forall k, x :: !GuardUndeclared(w, k, x)
  {
    if forall k, x :: !GuardUndeclared(w, k, x) {
      forall g | g in w.guards ensures Declares(w, g.source, g.target) {
        var k :| 0 <= k < |w.guards| && w.guards[k] == g;
        assert !GuardUndeclared(w, k, SemanticError(w.fqn, GuardTransition(g.source, g.target)));
      }
    }
  }

  lemma MachineIff(w: Machine)
    requires w.transitions.Ok()
    ensures MachineSound(w) <==> forall x :: !WorkflowError(w, x)
  {
    hide TransitionBroken, GuardUndeclared, Declares;
    SourcesIff(w);
    GuardedIff(w);
    if forall x :: !WorkflowError(w, x) {
      assert !WorkflowError(w, SemanticError(w.fqn, InitialUndeclared));
      forall k, x ensures !TransitionBroken(w, k, x) && !GuardUndeclared(w, k, x) { assert !WorkflowError(w, x); }
    }
  }

  lemma RouteIff(t: Tables, r: Route)
    ensures RouteCoherent(t, r) <==> forall x :: !RouteError(t, r, x)
  {
    if r.entityFqn in t.entities {
      var e := t.entities[r.entityFqn];
      if RouteCoherent(t, r) {
        forall n, x ensures !EndpointBroken(r, e, n, x) {
          if 0 <= n < |r.required| { assert r.required[n] in r.required; }
        }
      }
      if forall x :: !RouteError(t, r, x) {
        forall fields, name | fields in r.required && name in fields ensures HasField(e.fields, name) {
          var n :| 0 <= n < |r.required| && r.required[n] == fields;
          var j :| 0 <= j < |fields| && fields[j] == name;
          var x := SemanticError(r.fqn, RouteField(n, name));
          assert !RouteError(t, r, x);
          if !HasField(e.fields, name) {
            assert EndpointNeeds(r, e, n, j, x);
            assert EndpointBroken(r, e, n, x);
          }
        }
      }
    } else {
      assert r.entityFqn != "" ==> RouteError(t, r, SemanticError(r.fqn, RouteEntity(r.entityFqn)));
    }
  }

  lemma NamesIff(u: Unicode, d: Domain)
    ensures NamesAreInjective(u, d) <==> forall kind, j, x :: !ClaimError(u, d, kind, j, x)
  {
    hide Derived;
    if forall kind, j, x :: !ClaimError(u, d, kind, j, x) {
      forall kind: Kind, i, j | 0 <= i < j < |d.entities|
        ensures Derived(u, d.multi, kind, d.entities[i]) != Derived(u, d.multi, kind, d.entities[j])
      {
        var name := Derived(u, d.multi, kind, d.entities[j]);
        assert !ClaimError(u, d, kind, j, SemanticError(d.entities[j].fqn, ClaimedTwice(kind, name)));
      }
    }
  }

  lemma PageIff(t: Tables, p: Page)
    ensures (p.entityFqn == "" || p.entityFqn in t.entities) <==> forall x :: !PageError(t, p, x)
  {
    assert p.entityFqn != "" && p.entityFqn !in t.entities
      ==> PageError(t, p, SemanticError(p.fqn, PageEntity(p.entityFqn)));
  }

  // ----- All checks together -----

  /** What the compiler guarantees of an IR: mappings have each key once. */
  ghost predicate FromContracts(d: Domain) {
    && (forall e <- d.entities :: UniqueNames(e.fields))
    && (forall w <- d.workflows :: w.transitions.Ok())
  }

  ghost predicate AllMixinsCarried(d: Domain) {
    forall e <- d.entities :: CarriesMixins(e.fields, e.mixinRefs, MixinMap(d.mixins))
  }

  lemma SilentMeansEach(u: Unicode, d: Domain)
    ensures (forall x :: !DomainError(u, d, x)) <==>
      && (forall e, x :: e in d.entities ==> !EntityError(TablesOf(d), e, x))
      && (forall w, x :: w in d.workflows ==> !WorkflowError(w, x))
      && (forall p, x :: p in d.pages ==> !PageError(TablesOf(d), p, x))
      && (forall r, x :: r in d.routes ==> !RouteError(TablesOf(d), r, x))
      && (forall kind, j, x :: !ClaimError(u, d, kind, j, x))
  {
    hide EntityError, WorkflowError, PageError, RouteError, ClaimError, TablesOf;
    if forall x :: !DomainError(u, d, x) {
      forall e, x | e in d.entities ensures !EntityError(TablesOf(d), e, x) { assert !DomainError(u, d, x); }
      forall w, x | w in d.workflows ensures !WorkflowError(w, x) { assert !DomainError(u, d, x); }
      forall p, x | p in d.pages ensures !PageError(TablesOf(d), p, x) { assert !DomainError(u, d, x); }
      forall r, x | r in d.routes ensures !RouteError(TablesOf(d), r, x) { assert !DomainError(u, d, x); }
      forall kind, j, x ensures !ClaimError(u, d, kind, j, x) { assert !DomainError(u, d, x); }
    }
  }

  lemma SilentIffCoherent(u: Unicode, d: Domain)
    requires FromContracts(d) && AllMixinsCarried(d)
    ensures (forall x :: !DomainError(u, d, x)) <==> Coherent(u, d)
  {
    hide EntityError, WorkflowError, PageError, RouteError, ClaimError, EntityCoherent, MachineSound,
      RouteCoherent, NamesAreInjective, UniqueNames, CarriesMixins, DomainError;
    var t := TablesOf(d);
    SilentMeansEach(u, d);
    forall e | e in d.entities ensures EntityCoherent(t, e) <==> forall x :: !EntityError(t, e, x) {
      EntityIff(t, e);
    }
    forall w | w in d.workflows ensures MachineSound(w) <==> forall x :: !WorkflowError(w, x) { MachineIff(w); }
    forall r | r in d.routes ensures RouteCoherent(t, r) <==> forall x :: !RouteError(t, r, x) { RouteIff(t, r); }
    forall p | p in d.pages
      ensures (p.entityFqn == "" || p.entityFqn in t.entities) <==> forall x :: !PageError(t, p, x)
    {
      PageIff(t, p);
    }
    NamesIff(u, d);
  }

  lemma PassesPrepare(d: Domain)
    requires FromContracts(d)
    ensures FromContracts(RunAll(d)) && AllMixinsCarried(RunAll(d))
  {
    hide Passed, UniqueNames, CarriesMixins;
    PassesKeepNamesUnique(d);
    forall e | e in RunAll(d).entities
      ensures CarriesMixins(e.fields, e.mixinRefs, MixinMap(d.mixins))
    {
      var i :| 0 <= i < |d.entities| && e == Passed(d, d.entities[i]);
      PassedCarries(d, d.entities[i]);
      PassedKeepsRefs(d, d.entities[i]);
    }
  }

  lemma PassedKeepsRefs(d: Domain, e: Entity)
    ensures Passed(d, e).mixinRefs == e.mixinRefs && Passed(d, e).workflowRef == e.workflowRef
  {
  }

  /** After the passes, the validator says nothing exactly when the IR is coherent. */
  lemma ValidIffCoherent(u: Unicode, d: Domain)
    requires FromContracts(d)
    ensures (forall x :: !DomainError(u, RunAll(d), x)) <==> Coherent(u, RunAll(d))
  {
    PassesPrepare(d);
    SilentIffCoherent(u, RunAll(d));
  }

  // ----- Bound machines -----

  ghost predicate MachineRun(w: Machine, run: seq<string>) {
    && run != [] && run[0] == w.initial
    && forall i :: 0 <= i < |run| - 1 ==> Declares(w, run[i], run[i + 1])
  }

  lemma {:induction false} RunStaysDeclared(w: Machine, run: seq<string>, i: nat)
    requires MachineSound(w) && MachineRun(w, run) && i < |run|
    ensures run[i] in w.states
  {
    if i > 0 { RunStaysDeclared(w, run, i - 1); }
  }

  lemma {:induction false} MachineMapAt(ws: seq<Machine>, k: string)
    requires k in MachineMap(ws)
    ensures MachineMap(ws)[k] in ws && MachineMap(ws)[k].fqn == k
  {
    if k != ws[|ws| - 1].fqn { MachineMapAt(ws[..|ws| - 1], k); }
  }

  ghost predicate HasWorkflow(e: Entity) {
    e.workflowRef.Some? && e.workflowRef.value != ""
  }

  /** What a declared workflow amounts to on a compiled entity. */
  ghost predicate Governed(d: Domain, e: Entity) {
    && e.machine.Some? && e.machine.value in d.workflows && Some(e.machine.value.fqn) == e.workflowRef
    && MachineSound(e.machine.value)
    && var i := FirstNamed(e.fields, "state");
    i < |e.fields| && e.fields[i].enumValues == Some(e.machine.value.states)
  }

  lemma BindStateEnum(fields: seq<Field>, w: Machine)
    ensures var after := BindState(fields, w); var i := FirstNamed(after, "state");
      && i < |after| && i == FirstNamed(fields, "state") && after[i].enumValues == Some(w.states)
      && after[i] == if i < |fields| then Following(fields[i], w) else ManagedState(w)
  {
    var after := BindState(fields, w);
    FirstIsUnique(after, "state", FirstNamed(fields, "state"));
  }

  lemma ValidMeansGoverned(u: Unicode, d: Domain, e: Entity)
    requires FromContracts(d) && forall x :: !DomainError(u, RunAll(d), x)
    requires e in RunAll(d).entities && HasWorkflow(e)
    ensures Governed(d, e)
  {
    hide DomainError, UniqueNames, BindState, FirstNamed, Expand, NameTable, MachineMap, MachineSound;
    ValidIffCoherent(u, d);
    var i :| 0 <= i < |d.entities| && e == Passed(d, d.entities[i]);
    PassedKeepsRefs(d, d.entities[i]);
    assert EntityCoherent(TablesOf(RunAll(d)), e);
    var w := MachineMap(d.workflows)[e.workflowRef.value];
    MachineMapAt(d.workflows, e.workflowRef.value);
    var named := NameTable(Expand(d.entities[i], MixinMap(d.mixins)), d.multi);
    ExpandKeeps(d.entities[i], MixinMap(d.mixins));
    assert named.workflowRef == e.workflowRef by { NameTableKeeps(Expand(d.entities[i], MixinMap(d.mixins)), d.multi); }
    BindStateEnum(named.fields, w);
  }

  lemma NameTableKeeps(e: Entity, multi: bool)
    ensures NameTable(e, multi).workflowRef == e.workflowRef && NameTable(e, multi).fields == e.fields
  {
  }

  /** When compilation succeeds, every run of an entity's workflow stays inside the enum of its
  `state` field, and its guards sit on declared transitions and read real fields. */
  lemma RunsStayInEnum(u: Unicode, d: Domain, e: Entity, run: seq<string>, i: nat)
    requires FromContracts(d) && forall x :: !DomainError(u, RunAll(d), x)
    requires e in RunAll(d).entities && HasWorkflow(e)
    ensures Governed(d, e)
    ensures MachineRun(e.machine.value, run) && i < |run| ==>
      run[i] in e.fields[FirstNamed(e.fields, "state")].enumValues.value
    ensures forall g <- e.machine.value.guards ::
      Declares(e.machine.value, g.source, g.target) && forall n <- g.requireFields :: HasField(e.fields, n)
  {
    hide DomainError, UniqueNames, RunAll;
    ValidMeansGoverned(u, d, e);
    ValidIffCoherent(u, d);
    assert EntityCoherent(TablesOf(RunAll(d)), e);
    if MachineRun(e.machine.value, run) && i < |run| { RunStaysDeclared(e.machine.value, run, i); }
  }

  /** The default the contract declares for `state`, mixins included. */
  function DeclaredDefault(d: Domain, e: Entity): Value {
    var fields := Expand(e, MixinMap(d.mixins)).fields;
    var i := FirstNamed(fields, "state");
    if i < |fields| then fields[i].default else Nothing
  }

  predicate Names(v: Value, states: seq<string>) {
    v.Text? && v.text in states
  }

  /** The default of the bound `state` field names a state exactly when the contract declares
  none (then it is the initial state) or a state; the validator does not look at it. */
  lemma DefaultInEnumExactly(d: Domain, e: Entity)
    requires Binds(e, MachineMap(d.workflows)) && Governed(d, Passed(d, e))
    ensures var p := Passed(d, e); var state := p.fields[FirstNamed(p.fields, "state")];
      Names(state.default, p.machine.value.states)
      <==> !DeclaredDefault(d, e).Truthy() || Names(DeclaredDefault(d, e), p.machine.value.states)
  {
    hide Expand, MachineMap, FirstNamed, BindState;
    var expanded := Expand(e, MixinMap(d.mixins));
    ExpandKeeps(e, MixinMap(d.mixins));
    NameTableKeeps(expanded, d.multi);
    PassedKeepsRefs(d, e);
    var w := MachineMap(d.workflows)[e.workflowRef.value];
    BindStateEnum(expanded.fields, w);
  }

  /** A workflow with one state, and an entity that declares another default for `state`. */
  function StrayDefault(): Domain {
    var state := Field("state", "string", Text("lost"), None, None);
    Domain(false,
           [Entity("entity/a/b", "b", "a", "", [state], [], [], Some("workflow/a/w"), None)], [],
           [Machine("workflow/a/w", "open", ["open"], Empty(), [])], [], [])
  }

  /** So a build can pass validation with a default that is no state of its workflow. */
  lemma DefaultCanEscape(u: Unicode)
    ensures FromContracts(StrayDefault()) && forall x :: !DomainError(u, RunAll(StrayDefault()), x)
    ensures var e := RunAll(StrayDefault()).entities[0];
      Governed(StrayDefault(), e) && !Names(e.fields[FirstNamed(e.fields, "state")].default, e.machine.value.states)
  {
    hide DomainError, TableName, PyIdentifier;
    var d := StrayDefault();
    var e := Passed(d, d.entities[0]);
    var w := d.workflows[0];
    assert MachineMap(d.workflows) == map["workflow/a/w" := w];
    assert FirstNamed(d.entities[0].fields, "state") == 0 by { FirstIsUnique(d.entities[0].fields, "state", 0); }
    assert e.fields == [Field("state", "string", Text("lost"), Some(["open"]), None)];
    assert RunAll(d).entities == [e];
    assert MachineSound(w);
    assert EntityCoherent(TablesOf(RunAll(d)), e);
    ValidIffCoherent(u, d);
    assert e in RunAll(d).entities;
    ValidMeansGoverned(u, d, e);
    BindStateEnum(d.entities[0].fields, w);
  }
}
