/** `forge/parser/dependencies.py`: the dependency list of one contract, which feeds the graph.

`None` stands for an exception, raised when a mapping is expected and something else found. */
module ContractDependencies {
  import opened Collections
  import opened Naming
  import opened Normalizer
  import opened ContractTree

  predicate RefChar(c: char) {
    Alnum(c) || c == '_' || c == '.' || c == '/' || c == '-'
  }

  predicate IsRefLine(s: string) {
    exists i :: 0 < i < |s| - 1 && s[i] == '/' && IsKind(s[..i]) && forall k :: i < k < |s| ==> RefChar(s[k])
  }

  /** `_FQN.match`: a known kind, a slash, at least one character; `$` also accepts a final
  newline. */
  predicate IsRef(s: string) {
    IsRefLine(s) || (s != "" && s[|s| - 1] == '\n' && IsRefLine(s[..|s| - 1]))
  }

  // ----- What a contract mentions, in the order the code looks -----

  function One(v: Option<Yaml>): seq<string> {
    if v.Some? && v.value.Text? then [v.value.text] else []
  }

  function Texts(items: seq<Yaml>): seq<string> {
    if items == [] then [] else Texts(items[..|items| - 1]) + One(Some(items[|items| - 1]))
  }

  function Many(v: Option<Yaml>): seq<string> {
    if v.Some? && v.value.List? then Texts(v.value.items) else One(v)
  }

  /** Every string at any depth; keys do not count. */
  function Nested(v: Yaml): seq<string>
    decreases v
  {
    match v
    case Text(text) => [text]
    case List(items) => NestedItems(items)
    case Mapping(entries) => NestedEntries(entries)
    case _ => []
  }

  function NestedItems(items: seq<Yaml>): seq<string>
    decreases items
  {
    if items == [] then [] else Nested(items[0]) + NestedItems(items[1..])
  }

  function NestedEntries(entries: seq<Entry>): seq<string>
    decreases entries
  {
    if entries == [] then []
    else
      var first := entries[0];
      assert (entries decreases to first) && (first decreases to first.value);
      Nested(first.value) + NestedEntries(entries[1..])
  }

  function FieldTarget(field: Yaml): seq<string> {
    if !field.Mapping? then []
    else
      var refs := Get(field.entries, Word("references"));
      if refs.Some? && refs.value.Mapping? then One(Get(refs.value.entries, Word("entity"))) else []
  }

  function FieldTargets(fields: seq<Entry>): seq<string> {
    if fields == [] then [] else FieldTargets(fields[..|fields| - 1]) + FieldTarget(fields[|fields| - 1].value)
  }

  function AgentLists(hooks: seq<Entry>): seq<string> {
    if hooks == [] then [] else AgentLists(hooks[..|hooks| - 1]) + Many(Some(hooks[|hooks| - 1].value))
  }

  function Effects(endpoint: Yaml): seq<string> {
    if !endpoint.Mapping? then []
    else
      var effects := Get(endpoint.entries, Word("side_effects"));
      if effects.None? then [] else Nested(effects.value)
  }

  function EndpointEffects(endpoints: seq<Yaml>): seq<string> {
    if endpoints == [] then []
    else EndpointEffects(endpoints[..|endpoints| - 1]) + Effects(endpoints[|endpoints| - 1])
  }

  /** `mapping.get(key, {}).values()` */
  function Values(spec: seq<Entry>, key: string): Option<seq<Entry>> {
    var v := Get(spec, Word(key));
    if v.None? then Some([]) else if v.value.Mapping? then Some(v.value.entries) else None
  }

  function EntityMentions(spec: seq<Entry>): Option<seq<string>> {
    var fields, hooks := Values(spec, "fields"), Values(spec, "ai_integration");
    if fields.None? || hooks.None? then None
    else Some(Many(Get(spec, Word("mixins"))) + One(Get(spec, Word("state_machine"))) + FieldTargets(fields.value)
              + AgentLists(hooks.value))
  }

  function RouteMentions(spec: seq<Entry>): Option<seq<string>> {
    var v := Get(spec, Word("endpoints"));
    var endpoints := if v.None? then Some([]) else Iterated(v.value);
    if endpoints.None? then None
    else Some(One(Get(spec, Word("entity"))) + EndpointEffects(endpoints.value))
  }

  function AgentMentions(spec: seq<Entry>): seq<string> {
    var input := Get(spec, Word("input"));
    if input.Some? && input.value.Mapping? then One(Get(input.value.entries, Word("entity"))) else []
  }

  function SpecMentions(kind: string, spec: seq<Entry>): Option<seq<string>> {
    if kind == "Entity" then EntityMentions(spec)
    else if kind == "Route" then RouteMentions(spec)
    else if kind == "Page" then Some(One(Get(spec, Word("entity"))))
    else if kind == "Agent" then Some(AgentMentions(spec))
    else if kind == "Mixin" then
      var fields := Values(spec, "fields");
      if fields.None? then None else Some(FieldTargets(fields.value))
    else Some([])
  }

  predicate ReadsSpec(kind: string) {
    kind == "Entity" || kind == "Route" || kind == "Page" || kind == "Agent" || kind == "Mixin"
  }

  /** `kind in {"Route", "Page"}` raises for a kind that is a list or a mapping. */
  predicate Hashable(v: Yaml) {
    !v.List? && !v.Mapping?
  }

  function SemanticMentions(contract: seq<Entry>): Option<seq<string>> {
    var k, spec := Get(contract, Word("kind")), Get(contract, Word("spec"));
    var kind := if k.Some? && k.value.Text? then k.value.text else "";
    if k.Some? && !Hashable(k.value) then None
    else if !ReadsSpec(kind) then Some([])
    else if spec.None? then SpecMentions(kind, [])
    else if spec.value.Mapping? then SpecMentions(kind, spec.value.entries)
    else None
  }

  function RequiresMentions(contract: seq<Entry>): seq<string> {
    var requires' := Get(contract, Word("requires"));
    if requires'.Some? && requires'.value.List? then Texts(requires'.value.items) else []
  }

  // ----- The shared list -----

  function Add(deps: seq<string>, s: string): seq<string> {
    if IsRef(s) && s !in deps then deps + [s] else deps
  }

  function AddAll(deps: seq<string>, mentions: seq<string>): seq<string> {
    if mentions == [] then deps else Add(AddAll(deps, mentions[..|mentions| - 1]), mentions[|mentions| - 1])
  }

  lemma AddLast(deps: seq<string>, mentions: seq<string>, s: string)
    ensures AddAll(deps, mentions + [s]) == Add(AddAll(deps, mentions), s)
  {
    assert (mentions + [s])[..|mentions|] == mentions;
  }

  lemma TextsNext(items: seq<Yaml>, i: nat)
    requires i < |items|
    ensures Texts(items[..i + 1])
      == if items[i].Text? then Texts(items[..i]) + [items[i].text] else Texts(items[..i])
  {
    assert items[..i + 1][..i] == items[..i];
  }

  /** `_add_one` and `_add_many` */
  method AddMany(deps: seq<string>, values: Option<Yaml>) returns (more: seq<string>)
    ensures more == AddAll(deps, Many(values))
  {
    hide Add, AddAll, Texts;
    more := deps;
    AddNothing(deps);
    if values.None? { return; }
    if values.value.Text? {
      AddLast(deps, [], values.value.text);
      assert [] + [values.value.text] == Many(values);
      more := Add(more, values.value.text);
    } else if values.value.List? {
      var items := values.value.items;
      for i := 0 to |items|
        invariant more == AddAll(deps, Texts(items[..i]))
      {
        TextsNext(items, i);
        if items[i].Text? {
          AddLast(deps, Texts(items[..i]), items[i].text);
          more := Add(more, items[i].text);
        }
      }
      assert items[..|items|] == items;
    }
  }

  lemma AddNothing(deps: seq<string>)
    ensures AddAll(deps, []) == deps && Texts([]) == []
  {
  }

  lemma {:induction false} AddAllAppend(deps: seq<string>, a: seq<string>, b: seq<string>)
    ensures AddAll(deps, a + b) == AddAll(AddAll(deps, a), b)
  {
    if b == [] {
      assert a + b == a;
    } else {
      AddAllAppend(deps, a, b[..|b| - 1]);
      assert (a + b)[..|a + b| - 1] == a + b[..|b| - 1];
    }
  }

  /** `_extract_nested_fqns` */
  method ExtractNested(value: Yaml, deps: seq<string>) returns (more: seq<string>)
    ensures more == AddAll(deps, Nested(value))
    decreases value
  {
    more := deps;
    match value
    case Text(text) =>
      assert [text][..0] == [];
      more := Add(more, text);
    case List(items) => more := ExtractItems(items, deps);
    case Mapping(entries) => more := ExtractEntries(entries, deps);
    case _ =>
  }

  method ExtractItems(items: seq<Yaml>, deps: seq<string>) returns (more: seq<string>)
    ensures more == AddAll(deps, NestedItems(items))
    decreases items
  {
    more := deps;
    if items != [] {
      more := ExtractNested(items[0], deps);
      AddAllAppend(deps, Nested(items[0]), NestedItems(items[1..]));
      more := ExtractItems(items[1..], more);
    }
  }

  method ExtractEntries(entries: seq<Entry>, deps: seq<string>) returns (more: seq<string>)
    ensures more == AddAll(deps, NestedEntries(entries))
    decreases entries
  {
    more := deps;
    if entries != [] {
      var first := entries[0];
      assert (entries decreases to first) && (first decreases to first.value);
      more := ExtractNested(first.value, deps);
      AddAllAppend(deps, Nested(first.value), NestedEntries(entries[1..]));
      more := ExtractEntries(entries[1..], more);
    }
  }

  /** `merge_dependencies`: the declared list, then the list derived from the contract's
  meaning, which was filtered once already. */
  function Merge(contract: seq<Entry>): Option<seq<string>> {
    var semantic := SemanticMentions(contract);
    if semantic.None? then None
    else Some(AddAll(AddAll([], RequiresMentions(contract)), AddAll([], semantic.value)))
  }

  // ----- What comes out -----

  /** Each reference once, exactly those that are mentioned. */
  lemma {:induction false} AddAllExact(deps: seq<string>, mentions: seq<string>)
    requires Distinct(deps)
    ensures Distinct(AddAll(deps, mentions)) && deps <= AddAll(deps, mentions)
    ensures forall s :: s in AddAll(deps, mentions) <==> s in deps || (s in mentions && IsRef(s))
  {
    hide IsRef;
    if mentions != [] {
      var init, last := mentions[..|mentions| - 1], mentions[|mentions| - 1];
      AddAllExact(deps, init);
      assert mentions == init + [last];
    }
  }

  /** Where `s` is first mentioned. */
  function First(mentions: seq<string>, s: string): nat {
    if mentions == [] || mentions[0] == s then 0 else 1 + First(mentions[1..], s)
  }

  lemma {:induction false} FirstAppend(init: seq<string>, last: string, s: string)
    ensures First(init + [last], s) == if s in init then First(init, s) else if last == s then |init| else |init| + 1
    ensures s in init ==> First(init, s) < |init|
  {
    if init == [] {
      assert init + [last] == [last] && [last][1..] == [];
    } else {
      FirstAppend(init[1..], last, s);
      assert (init + [last])[1..] == init[1..] + [last];
      assert init == [init[0]] + init[1..];
    }
  }

  /** The order is that of the first mentions. */
  lemma {:induction false} AddAllOrdered(mentions: seq<string>, i: nat, j: nat)
    requires i < j < |AddAll([], mentions)|
    ensures First(mentions, AddAll([], mentions)[i]) < First(mentions, AddAll([], mentions)[j])
  {
    hide IsRef;
    var init, last := mentions[..|mentions| - 1], mentions[|mentions| - 1];
    assert mentions == init + [last];
    AddAllExact([], init);
    var before, after := AddAll([], init), AddAll([], mentions);
    assert before <= after;
    FirstAppend(init, last, after[i]);
    FirstAppend(init, last, after[j]);
    assert after[i] == before[i] && before[i] in before;
    if j < |before| {
      AddAllOrdered(init, i, j);
      assert after[j] == before[j] && before[j] in before;
    }
  }

  /** Filtering the derived list before merging it makes no difference. */
  lemma {:induction false} AddAllTwice(deps: seq<string>, mentions: seq<string>)
    requires Distinct(deps)
    ensures AddAll(deps, AddAll([], mentions)) == AddAll(deps, mentions)
  {
    hide IsRef;
    if mentions != [] {
      var init, last := mentions[..|mentions| - 1], mentions[|mentions| - 1];
      AddAllTwice(deps, init);
      AddAllExact([], init);
      AddAllExact(deps, init);
      var before := AddAll([], init);
      if Add(before, last) != before { assert (before + [last])[..|before|] == before; }
    }
  }

  /** The merged list holds every reference the contract mentions, once each, in the order of
  first mention, the declared ones first. */
  lemma MergedExactly(contract: seq<Entry>)
    requires Merge(contract).Some?
    ensures var mentions := RequiresMentions(contract) + SemanticMentions(contract).value;
      var merged := Merge(contract).value;
      && Distinct(merged)
      && (forall s :: s in merged <==> s in mentions && IsRef(s))
      && (forall i, j :: 0 <= i < j < |merged| ==> First(mentions, merged[i]) < First(mentions, merged[j]))
  {
    hide IsRef, First, SemanticMentions, RequiresMentions;
    var declared, semantic := RequiresMentions(contract), SemanticMentions(contract).value;
    AddAllExact([], declared);
    AddAllTwice(AddAll([], declared), semantic);
    AddAllAppend([], declared, semantic);
    AddAllExact([], declared + semantic);
    forall i, j | 0 <= i < j < |Merge(contract).value|
      ensures First(declared + semantic, Merge(contract).value[i]) < First(declared + semantic, Merge(contract).value[j])
    {
      AddAllOrdered(declared + semantic, i, j);
    }
  }

  // ----- extract_semantic_dependencies, appending to one list -----

  method AddFieldTargets(deps: seq<string>, fields: seq<Entry>) returns (more: seq<string>)
    ensures more == AddAll(deps, FieldTargets(fields))
  {
    more := deps;
    for i := 0 to |fields|
      invariant more == AddAll(deps, FieldTargets(fields[..i]))
    {
      assert fields[..i + 1][..i] == fields[..i];
      AddAllAppend(deps, FieldTargets(fields[..i]), FieldTarget(fields[i].value));
      if fields[i].value.Mapping? {
        var refs := Get(fields[i].value.entries, Word("references"));
        if refs.Some? && refs.value.Mapping? {
          more := AddOne(more, Get(refs.value.entries, Word("entity")));
        }
      }
    }
    assert fields[..|fields|] == fields;
  }

  method AddOne(deps: seq<string>, v: Option<Yaml>) returns (more: seq<string>)
    ensures more == AddAll(deps, One(v))
  {
    more := deps;
    AddNothing(deps);
    if v.Some? && v.value.Text? {
      AddLast(deps, [], v.value.text);
      assert [] + [v.value.text] == One(v);
      more := Add(deps, v.value.text);
    }
  }

  method AddAgentLists(deps: seq<string>, hooks: seq<Entry>) returns (more: seq<string>)
    ensures more == AddAll(deps, AgentLists(hooks))
  {
    hide Add, AddAll, Many;
    more := deps;
    AddNothing(deps);
    for i := 0 to |hooks|
      invariant more == AddAll(deps, AgentLists(hooks[..i]))
    {
      assert hooks[..i + 1][..i] == hooks[..i];
      AddAllAppend(deps, AgentLists(hooks[..i]), Many(Some(hooks[i].value)));
      more := AddMany(more, Some(hooks[i].value));
    }
    assert hooks[..|hooks|] == hooks;
  }

  method AddEffects(deps: seq<string>, endpoints: seq<Yaml>) returns (more: seq<string>)
    ensures more == AddAll(deps, EndpointEffects(endpoints))
  {
    hide Add, AddAll, Nested;
    more := deps;
    AddNothing(deps);
    for i := 0 to |endpoints|
      invariant more == AddAll(deps, EndpointEffects(endpoints[..i]))
    {
      assert endpoints[..i + 1][..i] == endpoints[..i];
      AddAllAppend(deps, EndpointEffects(endpoints[..i]), Effects(endpoints[i]));
      AddNothing(more);
      if endpoints[i].Mapping? {
        var effects := Get(endpoints[i].entries, Word("side_effects"));
        if effects.Some? {
          more := ExtractNested(effects.value, more);
        }
      }
    }
    assert endpoints[..|endpoints|] == endpoints;
  }

  method AddEntity(spec: seq<Entry>) returns (deps: Option<seq<string>>)
    ensures var mentions := EntityMentions(spec);
      deps == if mentions.None? then None else Some(AddAll([], mentions.value))
  {
    hide Add, AddAll, Many, One, FieldTargets, AgentLists;
    var a, b := Many(Get(spec, Word("mixins"))), One(Get(spec, Word("state_machine")));
    var more := AddMany([], Get(spec, Word("mixins")));
    more := AddOne(more, Get(spec, Word("state_machine")));
    AddAllAppend([], a, b);
    var fields := Values(spec, "fields");
    if fields.None? { return None; }
    more := AddFieldTargets(more, fields.value);
    AddAllAppend([], a + b, FieldTargets(fields.value));
    var hooks := Values(spec, "ai_integration");
    if hooks.None? { return None; }
    more := AddAgentLists(more, hooks.value);
    AddAllAppend([], a + b + FieldTargets(fields.value), AgentLists(hooks.value));
    deps := Some(more);
  }

  method AddRoute(spec: seq<Entry>) returns (deps: Option<seq<string>>)
    ensures var mentions := RouteMentions(spec);
      deps == if mentions.None? then None else Some(AddAll([], mentions.value))
  {
    hide Add, AddAll, One, EndpointEffects;
    var more := AddOne([], Get(spec, Word("entity")));
    var v := Get(spec, Word("endpoints"));
    var endpoints := if v.None? then Some([]) else Iterated(v.value);
    if endpoints.None? { return None; }
    more := AddEffects(more, endpoints.value);
    AddAllAppend([], One(Get(spec, Word("entity"))), EndpointEffects(endpoints.value));
    deps := Some(more);
  }

  method AddSpec(kind: string, spec: seq<Entry>) returns (deps: Option<seq<string>>)
    ensures var mentions := SpecMentions(kind, spec);
      deps == if mentions.None? then None else Some(AddAll([], mentions.value))
  {
    hide Add, AddAll, One, FieldTargets, EntityMentions, RouteMentions;
    AddNothing([]);
    if kind == "Entity" {
      deps := AddEntity(spec);
    } else if kind == "Route" {
      deps := AddRoute(spec);
    } else if kind == "Page" {
      var more := AddOne([], Get(spec, Word("entity")));
      deps := Some(more);
    } else if kind == "Agent" {
      deps := Some([]);
      var input := Get(spec, Word("input"));
      if input.Some? && input.value.Mapping? {
        var more := AddOne([], Get(input.value.entries, Word("entity")));
        deps := Some(more);
      }
    } else if kind == "Mixin" {
      var fields := Values(spec, "fields");
      if fields.None? { return None; }
      var more := AddFieldTargets([], fields.value);
      deps := Some(more);
    } else {
      deps := Some([]);
    }
  }

  /** `merge_dependencies`: exactly the references of the contract, once each, in the order of
  first mention. */
  method MergeDependencies(contract: seq<Entry>) returns (deps: Option<seq<string>>)
    ensures deps == Merge(contract)
  {
    hide Add, AddAll, SpecMentions, Texts;
    AddNothing([]);
    var declared: seq<string> := [];
    var listed := Get(contract, Word("requires"));
    if listed.Some? && listed.value.List? {
      declared := AddMany([], listed);
    }
    var k, spec := Get(contract, Word("kind")), Get(contract, Word("spec"));
    var kind := if k.Some? && k.value.Text? then k.value.text else "";
    var semantic := Some([]);
    if k.Some? && !Hashable(k.value) { return None; }
    if ReadsSpec(kind) {
      if spec.Some? && !spec.value.Mapping? { return None; }
      semantic := AddSpec(kind, if spec.Some? then spec.value.entries else []);
      if semantic.None? { return None; }
    }
    var more := AddTexts(declared, semantic.value);
    deps := Some(more);
  }

  method AddTexts(deps: seq<string>, mentions: seq<string>) returns (more: seq<string>)
    ensures more == AddAll(deps, mentions)
  {
    hide Add, AddAll;
    more := deps;
    AddNothing(deps);
    for i := 0 to |mentions|
      invariant more == AddAll(deps, mentions[..i])
    {
      AddLast(deps, mentions[..i], mentions[i]);
      assert mentions[..i + 1] == mentions[..i] + [mentions[i]];
      more := Add(more, mentions[i]);
    }
    assert mentions[..|mentions|] == mentions;
  }
}
