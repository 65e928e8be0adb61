/** What the passes promise together: running them twice is running them once, and field names
stay unique (`forge/ir/passes/__init__.py` lines 11-12). */
module IrPassLaws {
  import opened Ir
  import opened Naming
  import opened IrPasses

  lemma HasFieldPrefix(fields: seq<Field>, more: seq<Field>, name: string)
    requires fields <= more && HasField(fields, name)
    ensures HasField(more, name)
  {
    var i :| 0 <= i < |fields| && fields[i].name == name;
    assert more[i].name == name;
  }

  ghost predicate Carries(fields: seq<Field>, more: seq<Field>) {
    forall f <- more :: HasField(fields, f.name)
  }

  lemma {:induction false} AddFieldsCarries(fields: seq<Field>, more: seq<Field>)
    ensures fields <= AddFields(fields, more) && Carries(AddFields(fields, more), more)
    ensures Carries(fields, more) ==> AddFields(fields, more) == fields
    ensures UniqueNames(fields) ==> UniqueNames(AddFields(fields, more))
  {
    if more != [] {
      var init, last := more[..|more| - 1], more[|more| - 1];
      AddFieldsCarries(fields, init);
      assert more == init + [last];
      var before, after := AddFields(fields, init), AddFields(fields, more);
      assert before <= after;
      if !HasField(before, last.name) { assert after[|before|].name == last.name; }
      forall f | f in more ensures HasField(after, f.name) {
        if f in init { HasFieldPrefix(before, after, f.name); }
      }
    }
  }

  /** Every field of every mixin that is found. */
  ghost predicate CarriesMixins(fields: seq<Field>, refs: seq<string>, mixins: map<string, Mixin>) {
    forall ref <- refs :: ref in mixins ==> Carries(fields, mixins[ref].fields)
  }

  lemma CarriesPrefix(fields: seq<Field>, more: seq<Field>, refs: seq<string>, mixins: map<string, Mixin>)
    requires fields <= more && CarriesMixins(fields, refs, mixins)
    ensures CarriesMixins(more, refs, mixins)
  {
    forall ref, f | ref in refs && ref in mixins && f in mixins[ref].fields ensures HasField(more, f.name) {
      assert Carries(fields, mixins[ref].fields);
      HasFieldPrefix(fields, more, f.name);
    }
  }

  lemma {:induction false} AddMixinsCarries(fields: seq<Field>, refs: seq<string>, mixins: map<string, Mixin>)
    ensures fields <= AddMixins(fields, refs, mixins)
    ensures CarriesMixins(AddMixins(fields, refs, mixins), refs, mixins)
    ensures CarriesMixins(fields, refs, mixins) ==> AddMixins(fields, refs, mixins) == fields
    ensures UniqueNames(fields) ==> UniqueNames(AddMixins(fields, refs, mixins))
  {
    hide UniqueNames, Carries;
    if refs != [] {
      var init, last := refs[..|refs| - 1], refs[|refs| - 1];
      AddMixinsCarries(fields, init, mixins);
      assert refs == init + [last];
      var before := AddMixins(fields, init, mixins);
      if last in mixins { AddFieldsCarries(before, mixins[last].fields); }
      CarriesPrefix(before, AddMixins(fields, refs, mixins), init, mixins);
    }
  }

  lemma BindStateNames(fields: seq<Field>, w: Machine)
    ensures forall n :: HasField(fields, n) ==> HasField(BindState(fields, w), n)
    ensures UniqueNames(fields) ==> UniqueNames(BindState(fields, w))
    ensures BindState(BindState(fields, w), w) == BindState(fields, w)
  {
    var i, after := FirstNamed(fields, "state"), BindState(fields, w);
    forall n | HasField(fields, n) ensures HasField(after, n) {
      var k :| 0 <= k < |fields| && fields[k].name == n;
      assert after[k].name == n;
    }
    assert after[i].name == "state";
    assert FirstNamed(after, "state") == i by { FirstIsUnique(after, "state", i); }
  }

  lemma FirstIsUnique(fields: seq<Field>, name: string, i: nat)
    requires i < |fields| && fields[i].name == name && forall j :: 0 <= j < i ==> fields[j].name != name
    ensures FirstNamed(fields, name) == i
  {
    assert HasField(fields, name);
  }

  lemma ExpandLaws(e: Entity, mixins: map<string, Mixin>)
    ensures CarriesMixins(Expand(e, mixins).fields, e.mixinRefs, mixins)
    ensures CarriesMixins(e.fields, e.mixinRefs, mixins) ==> Expand(e, mixins).fields == e.fields
    ensures UniqueNames(e.fields) ==> UniqueNames(Expand(e, mixins).fields)
  {
    AddMixinsCarries(e.fields, e.mixinRefs, mixins);
  }

  lemma PassedCarries(d: Domain, e: Entity)
    ensures CarriesMixins(Passed(d, e).fields, e.mixinRefs, MixinMap(d.mixins))
    ensures UniqueNames(e.fields) ==> UniqueNames(Passed(d, e).fields)
  {
    hide MixinMap, MachineMap, UniqueNames, BindState, Expand;
    var mixins, machines := MixinMap(d.mixins), MachineMap(d.workflows);
    ExpandLaws(e, mixins);
    var named := NameTable(Expand(e, mixins), d.multi);
    ExpandKeeps(e, mixins);
    if Binds(named, machines) {
      BindStateNames(named.fields, machines[named.workflowRef.value]);
    }
  }

  lemma ExpandKeeps(e: Entity, mixins: map<string, Mixin>)
    ensures var x := Expand(e, mixins);
      x.mixinRefs == e.mixinRefs && x.workflowRef == e.workflowRef && x.tableName == e.tableName
  {
  }

  lemma PassedIsFixed(d: Domain, e: Entity)
    ensures Passed(d, Passed(d, e)) == Passed(d, e)
  {
    hide MixinMap, MachineMap, UniqueNames, BindState, AddMixins, Applied, TableName;
    var mixins, machines := MixinMap(d.mixins), MachineMap(d.workflows);
    var once := Passed(d, e);
    PassedCarries(d, e);
    ExpandLaws(once, mixins);
    assert Expand(once, mixins) == once;
    assert NameTable(once, d.multi) == once;
    if Binds(once, machines) {
      var w := machines[once.workflowRef.value];
      BindStateNames(NameTable(Expand(e, mixins), d.multi).fields, w);
    }
  }

  /** The passes are idempotent on every IR, and never change mixins or workflows. */
  lemma PassesAreIdempotent(d: Domain)
    ensures RunAll(RunAll(d)) == RunAll(d)
    ensures RunAll(d).mixins == d.mixins && RunAll(d).workflows == d.workflows
  {
    hide Passed;
    var once := RunAll(d);
    forall i | 0 <= i < |d.entities| ensures Passed(once, once.entities[i]) == once.entities[i] {
      PassedIsFixed(d, d.entities[i]);
      SamePasses(d, once, once.entities[i]);
    }
    assert RunAll(once).entities == once.entities;
    assert RunAll(once).routes == once.routes;
  }

  lemma SamePasses(d: Domain, c: Domain, e: Entity)
    requires c.mixins == d.mixins && c.workflows == d.workflows && c.multi == d.multi
    ensures Passed(c, e) == Passed(d, e)
  {
  }

  /** Field names stay unique. */
  lemma PassesKeepNamesUnique(d: Domain)
    requires forall e <- d.entities :: UniqueNames(e.fields)
    ensures forall e <- RunAll(d).entities :: UniqueNames(e.fields)
  {
    forall e | e in RunAll(d).entities ensures UniqueNames(e.fields) {
      var i :| 0 <= i < |d.entities| && e == Passed(d, d.entities[i]);
      PassedCarries(d, d.entities[i]);
    }
  }
}
